/** Bytes on the wire: big-endian numbers, a buffer that is read from the front, and addresses
    and prefixes in their wire form. */
module Wire {
  import opened Words

  /** The outcome of reading from a buffer: a value and what is left, or an error. */
  datatype Decoded<+T> = Ok(value: T, rest: seq<byte>) | Err {
    predicate IsFailure() {
      Err?
    }

    function PropagateFailure<U>(): (r: Decoded<U>)
      requires Err?
    {
      Err
    }

    function Extract(): (r: (T, seq<byte>))
      requires Ok?
    {
      (value, rest)
    }
  }

  // ---------------------------------------------------------------- numbers

  function U16(x: uint16): (r: seq<byte>)
    ensures |r| == 2
  {
    [x / 0x100, x % 0x100]
  }

  function U32(x: uint32): (r: seq<byte>)
    ensures |r| == 4
  {
    [x / 0x100_0000, x / 0x1_0000 % 0x100, x / 0x100 % 0x100, x % 0x100]
  }

  function Value16(b: seq<byte>): (r: uint16)
    requires |b| == 2
  {
    b[0] as int * 0x100 + b[1]
  }

  function Value32(b: seq<byte>): (r: uint32)
    requires |b| == 4
  {
    b[0] as int * 0x100_0000 + b[1] as int * 0x1_0000 + b[2] as int * 0x100 + b[3]
  }

  lemma ByteByByte(y: uint32, q: nat, p: nat)
    requires q == y / 0x100 && p == y / 0x1_0000
    ensures y == 0x100 * q + y % 0x100
    ensures q == 0x100 * p + q % 0x100
    ensures p == 0x100 * (y / 0x100_0000) + p % 0x100
  {
    assert q / 0x100 == p;
    assert p / 0x100 == y / 0x100_0000;
  }

  lemma NumbersRoundTrip(x: uint16, y: uint32)
    ensures Value16(U16(x)) == x && Value32(U32(y)) == y
  {
    ByteByByte(y, y / 0x100, y / 0x1_0000);
  }

  lemma BytesOf16(b: seq<byte>)
    requires |b| == 2
    ensures U16(Value16(b)) == b
  {
  }

  // ---------------------------------------------------------------- reading

  /** Exactly n bytes, or an error. */
  function ReadFull(buf: seq<byte>, n: nat): (r: Decoded<seq<byte>>)
    ensures r.Ok? <==> n <= |buf|
    ensures r.Ok? ==> |r.value| == n && r.value + r.rest == buf
  {
    if n <= |buf| then Ok(buf[..n], buf[n..]) else Err
  }

  /** At most n bytes, as many as there are. */
  function ReadSome(buf: seq<byte>, n: nat): (r: (seq<byte>, seq<byte>))
    ensures r.0 + r.1 == buf
    ensures |r.0| == if n <= |buf| then n else |buf|
  {
    if n <= |buf| then (buf[..n], buf[n..]) else (buf, [])
  }

  function ReadByte(buf: seq<byte>): (r: Decoded<byte>)
    ensures r.Ok? ==> |r.rest| == |buf| - 1
  {
    if buf == [] then Err else Ok(buf[0], buf[1..])
  }

  function ReadU16(buf: seq<byte>): (r: Decoded<uint16>)
    ensures r.Ok? ==> |r.rest| == |buf| - 2
  {
    if |buf| < 2 then Err else Ok(Value16(buf[..2]), buf[2..])
  }

  function ReadU32(buf: seq<byte>): (r: Decoded<uint32>)
    ensures r.Ok? ==> |r.rest| == |buf| - 4
  {
    if |buf| < 4 then Err else Ok(Value32(buf[..4]), buf[4..])
  }

  lemma ReadBack16(x: uint16, rest: seq<byte>)
    ensures ReadU16(U16(x) + rest) == Ok(x, rest)
  {
    NumbersRoundTrip(x, 0);
    assert (U16(x) + rest)[..2] == U16(x) && (U16(x) + rest)[2..] == rest;
  }

  lemma ReadBack32(x: uint32, rest: seq<byte>)
    ensures ReadU32(U32(x) + rest) == Ok(x, rest)
  {
    NumbersRoundTrip(0, x);
    assert (U32(x) + rest)[..4] == U32(x) && (U32(x) + rest)[4..] == rest;
  }

  lemma ReadBackFull(b: seq<byte>, rest: seq<byte>)
    ensures ReadFull(b + rest, |b|) == Ok(b, rest)
    ensures ReadSome(b + rest, |b|) == (b, rest)
  {
    assert (b + rest)[..|b|] == b && (b + rest)[|b|..] == rest;
  }

  // ---------------------------------------------------------------- lists of numbers

  function U32s(xs: seq<uint32>): (r: seq<byte>)
    ensures |r| == 4 * |xs|
  {
    if xs == [] then [] else U32(xs[0]) + U32s(xs[1..])
  }

  function ReadU32s(buf: seq<byte>, count: nat): (r: Decoded<seq<uint32>>)
    ensures r.Ok? ==> |r.value| == count && |r.rest| == |buf| - 4 * count
  {
    if count == 0 then Ok([], buf)
    else
      var (x, buf1) :- ReadU32(buf);
      var (xs, buf2) :- ReadU32s(buf1, count - 1);
      Ok([x] + xs, buf2)
  }

  lemma {:induction false} ReadBackU32s(xs: seq<uint32>, rest: seq<byte>)
    ensures ReadU32s(U32s(xs) + rest, |xs|) == Ok(xs, rest)
    decreases |xs|
  {
    if xs == [] {
      assert U32s(xs) + rest == rest;
    } else {
      var tail := U32s(xs[1..]) + rest;
      assert U32s(xs) + rest == U32(xs[0]) + tail;
      ReadBack32(xs[0], tail);
      ReadBackU32s(xs[1..], rest);
      assert xs == [xs[0]] + xs[1..];
    }
  }

  // ---------------------------------------------------------------- addresses and prefixes

  /** An address in its wire form; a V4 address has four bytes, a V6 address sixteen. */
  datatype Address = V4(bytes: seq<byte>) | V6(bytes: seq<byte>)

  predicate ProperAddress(a: Address) {
    |a.bytes| == if a.V4? then 4 else 16
  }

  datatype Prefix = Prefix(addr: Address, len: byte)

  /** Missing bytes are zero; more than four bytes yield the zero value, an IPv6 address. */
  function IPv4FromBytes(b: seq<byte>): (r: Address)
    ensures ProperAddress(r)
  {
    if |b| <= 4 then V4(b + Zeros(4 - |b|)) else V6(Zeros(16))
  }

  function IPFromBytes(b: seq<byte>): (r: Decoded<Address>) {
    if |b| == 4 then Ok(V4(b), []) else if |b| == 16 then Ok(V6(b), []) else Err
  }

  function BytesInAddr(len: byte): (n: nat)
    ensures len <= 8 * n < len + 8
  {
    (len + 7) / 8
  }

  /** The bytes that are not sent are zero. */
  predicate TailIsZero(p: Prefix) {
    forall i :: BytesInAddr(p.len) <= i < |p.addr.bytes| ==> p.addr.bytes[i] == 0
  }

  function PowerOfTwo(n: nat): (r: nat)
    requires n < 8
    ensures r > 0
  {
    [1, 2, 4, 8, 16, 32, 64, 128][n]
  }

  /** No bit is set after the first `len`: the bytes that are not sent are zero, and so are the
      low bits of the last byte sent. */
  predicate NoHostBits(p: Prefix) {
    && TailIsZero(p)
    && (p.len % 8 != 0 && p.len / 8 < |p.addr.bytes| ==>
          p.addr.bytes[p.len / 8] % PowerOfTwo(8 - p.len % 8) == 0)
  }

  const AFI_IPV4: uint16 := 1
  const AFI_IPV6: uint16 := 2

  /** How long an address of a family is; unknown families have none. */
  function AddressLength(afi: uint16): (n: nat) {
    if afi == AFI_IPV4 then 4 else if afi == AFI_IPV6 then 16 else 0
  }

  /** IPv4 prefixes may have host bits, IPv6 prefixes may not; lengths over 128 escape the test. */
  function DeserializePrefix(b: seq<byte>, len: byte, afi: uint16): (r: Decoded<Prefix>) {
    if BytesInAddr(len) != |b| % 0x100 then Err
    else if afi == AFI_IPV4 then Ok(Prefix(IPv4FromBytes(b), len), [])
    else
      var n := AddressLength(afi);
      var padded := if |b| <= n then b + Zeros(n - |b|) else b[..n];
      var (ip, _) :- IPFromBytes(padded);
      if len <= 128 && !NoHostBits(Prefix(ip, len)) then Err else Ok(Prefix(ip, len), [])
  }

  /** The address has the bytes that are sent; taking them fails otherwise. */
  predicate Writable(p: Prefix) {
    ProperAddress(p.addr) && BytesInAddr(p.len) <= |p.addr.bytes|
  }

  function PrefixBytes(p: Prefix): (r: seq<byte>)
    requires Writable(p)
    ensures |r| == BytesInAddr(p.len) <= 16
  {
    p.addr.bytes[..BytesInAddr(p.len)]
  }

  /** The prefixes that survive the wire in address family `afi`. Under IPv4, lengths over 32 read
      back as the unspecified IPv6 address. */
  predicate Sendable(p: Prefix, afi: uint16) {
    if afi == AFI_IPV4 then
      if p.len <= 32 then p.addr.V4? && TailIsZero(p) else p.addr == V6(Zeros(16))
    else afi == AFI_IPV6 && p.addr.V6? && NoHostBits(p)
  }

  lemma PaddingRestores(p: Prefix, n: nat)
    requires Writable(p) && |p.addr.bytes| == n
    ensures PrefixBytes(p) + Zeros(n - |PrefixBytes(p)|) == p.addr.bytes <==> TailIsZero(p)
  {
    var padded := PrefixBytes(p) + Zeros(n - |PrefixBytes(p)|);
    if TailIsZero(p) {
      assert padded == p.addr.bytes;
    }
    if padded == p.addr.bytes {
      assert forall i :: BytesInAddr(p.len) <= i < n ==> p.addr.bytes[i] == padded[i] == 0;
    }
  }

  /** The leading bytes of a prefix bring it back exactly when it is sendable. */
  lemma PrefixRoundTrip(p: Prefix, afi: uint16)
    requires Writable(p)
    ensures DeserializePrefix(PrefixBytes(p), p.len, afi) == Ok(p, []) <==> Sendable(p, afi)
  {
    var b := PrefixBytes(p);
    if p.addr.V4? && afi == AFI_IPV4 {
      PaddingRestores(p, 4);
    } else if p.addr.V6? && afi == AFI_IPV6 {
      PaddingRestores(p, 16);
    }
  }
}
