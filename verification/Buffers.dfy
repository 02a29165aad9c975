/** Byte buffers that are filled at the end and consumed from the front, and the fixed-size fields
    that are read from them. */
module Buffers {
  import opened Words
  import opened Wire

  datatype Result<+T> = Success(value: T) | Failure {
    predicate IsFailure() {
      Failure?
    }

    function PropagateFailure<U>(): (r: Result<U>)
      requires Failure?
    {
      Failure
    }

    function Extract(): (r: T)
      requires Success?
    {
      value
    }
  }

  /** A reader returned what `spec` says, error or value, and left the buffer as it says. */
  ghost predicate Yields<T>(spec: Decoded<T>, r: Result<T>, left: seq<byte>) {
    if spec.Ok? then r == Success(spec.value) && left == spec.rest else r.Failure?
  }

  /** What a loop has read already, before what it still has to read. */
  ghost function Prepend<T>(done: seq<T>, todo: Decoded<seq<T>>): (r: Decoded<seq<T>>) {
    if todo.Err? then Err else Ok(done + todo.value, todo.rest)
  }

  lemma PrependNone<T>(todo: Decoded<seq<T>>)
    ensures Prepend([], todo) == todo
  {
    if todo.Ok? {
      assert [] + todo.value == todo.value;
    }
  }

  lemma PrependOne<T>(done: seq<T>, x: T, todo: Decoded<seq<T>>)
    ensures Prepend(done, Prepend([x], todo)) == Prepend(done + [x], todo)
  {
    if todo.Ok? {
      assert done + ([x] + todo.value) == done + [x] + todo.value;
    }
  }

  class Buffer {
    var data: seq<byte>

    constructor (b: seq<byte>)
      ensures data == b
    {
      data := b;
    }

    method Write(b: seq<byte>)
      modifies this
      ensures data == old(data) + b
    {
      data := data + b;
    }

    method Read(n: nat) returns (b: seq<byte>)
      modifies this
      ensures (b, data) == ReadSome(old(data), n)
    {
      if n <= |data| {
        b, data := data[..n], data[n..];
      } else {
        b, data := data, [];
      }
    }

    method ReadByte() returns (r: Result<byte>)
      modifies this
      ensures Yields(Wire.ReadByte(old(data)), r, data)
    {
      if data == [] {
        return Failure;
      }
      r, data := Success(data[0]), data[1..];
    }

    method ReadFull(n: nat) returns (r: Result<seq<byte>>)
      modifies this
      ensures Yields(Wire.ReadFull(old(data), n), r, data)
    {
      var b := Read(n);
      if |b| != n {
        return Failure;
      }
      return Success(b);
    }

    method DecodeUint16() returns (r: Result<uint16>)
      modifies this
      ensures Yields(ReadU16(old(data)), r, data)
    {
      var a :- ReadByte();
      var b :- ReadByte();
      assert old(data)[..2] == [a, b] && data == old(data)[2..];
      return Success(Value16([a, b]));
    }

    method DecodeUint32() returns (r: Result<uint32>)
      modifies this
      ensures Yields(ReadU32(old(data)), r, data)
    {
      var a :- ReadByte();
      var b :- ReadByte();
      var c :- ReadByte();
      var d :- ReadByte();
      assert old(data)[..4] == [a, b, c, d] && data == old(data)[4..];
      return Success(Value32([a, b, c, d]));
    }

    method DecodeUint32s(count: nat) returns (r: Result<seq<uint32>>)
      modifies this
      ensures Yields(ReadU32s(old(data), count), r, data)
    {
      hide ReadU32;
      var xs := [];
      PrependNone(ReadU32s(data, count));
      for i := 0 to count
        invariant ReadU32s(old(data), count) == Prepend(xs, ReadU32s(data, count - i))
      {
        var x :- DecodeUint32();
        PrependOne(xs, x, ReadU32s(data, count - i - 1));
        xs := xs + [x];
      }
      assert xs + [] == xs;
      return Success(xs);
    }

    method WriteUint32s(xs: seq<uint32>)
      modifies this
      ensures data == old(data) + U32s(xs)
    {
      hide U32;
      assert xs[0..] == xs;
      for i := 0 to |xs|
        invariant data + U32s(xs[i..]) == old(data) + U32s(xs)
      {
        assert xs[i..][1..] == xs[i + 1..];
        Write(U32(xs[i]));
      }
    }
  }
}
