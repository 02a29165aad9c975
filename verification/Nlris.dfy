/** Network layer reachability information: plain (RFC 4271 section 4.3), with path identifiers
    (RFC 7911 section 3) and with MPLS label stacks (RFC 8277 section 2). */
module Nlris {
  import opened Words
  import opened Wire

  const SAFI_UNICAST: byte := 1
  const SAFI_LABELED_UNICAST: byte := 4

  /** A label stack entry; the label is in the upper 20 of 24 bits, the lowest marks the bottom. */
  type Label = uint32

  /** One element of the linked list of the program; the list is a sequence here. */
  datatype Nlri = Nlri(pathIdentifier: uint32, labelStack: seq<Label>, prefix: Prefix)

  const BITS_PER_LABEL: byte := 24
  const BYTES_PER_LABEL: byte := 3

  // ---------------------------------------------------------------- labels

  function GetLabel(l: Label): (r: nat) {
    l / 16
  }

  predicate IsBottomOfStack(l: Label) {
    l % 2 == 1
  }

  /** The entry with its bottom-of-stack bit set. */
  function Bottom(l: Label): (r: Label) {
    if IsBottomOfStack(l) then l else l + 1
  }

  /** The low 24 bits. */
  function LabelBytes(l: Label): (r: seq<byte>)
    ensures |r| == 3
  {
    U32(l)[1..]
  }

  function SerializeLabels(ls: seq<Label>): (r: seq<byte>)
    ensures |r| == 3 * |ls|
  {
    if ls == [] then []
    else if |ls| == 1 then LabelBytes(Bottom(ls[0]))
    else LabelBytes(ls[0]) + SerializeLabels(ls[1..])
  }

  /** A short read is not an error as long as there is a byte; missing bytes count as zero. */
  function DecodeLabel(buf: seq<byte>): (r: Decoded<Label>)
    ensures r.Ok? ==> |r.rest| < |buf|
  {
    if buf == [] then Err
    else
      var (b, rest) := ReadSome(buf, 3);
      Ok(Value32([0] + b + Zeros(3 - |b|)), rest)
  }

  /** Labels up to the bottom of the stack, with the prefix length and byte count they leave. */
  datatype Stack = Stack(labels: seq<Label>, pfxLen: byte, consumed: byte)

  function DecodeLabels(buf: seq<byte>, pfxLen: byte, consumed: byte): (r: Decoded<Stack>)
    ensures r.Ok? ==> |r.rest| < |buf|
    decreases |buf|
  {
    var (l, buf1) :- DecodeLabel(buf);
    var pfxLen1, consumed1 := SubU8(pfxLen, BITS_PER_LABEL), AddU8(consumed, BYTES_PER_LABEL);
    if IsBottomOfStack(l) then Ok(Stack([l], pfxLen1, consumed1), buf1)
    else
      var (s, buf2) :- DecodeLabels(buf1, pfxLen1, consumed1);
      Ok(s.(labels := [l] + s.labels), buf2)
  }

  /** The prefix length a stack of n labels is announced with. */
  function Announced(len: byte, n: nat): (r: byte) {
    if n == 0 then len else AddU8(Announced(len, n - 1), BITS_PER_LABEL)
  }

  lemma AddU8Wraps(a: nat, b: byte)
    ensures AddU8(a % 0x100, b) == (a + b) % 0x100
  {
  }

  lemma {:induction false} AnnouncedIsSum(len: byte, n: nat)
    ensures Announced(len, n) == (len + 24 * n) % 0x100
  {
    if n > 0 {
      AnnouncedIsSum(len, n - 1);
      AddU8Wraps(len + 24 * (n - 1), BITS_PER_LABEL);
    }
  }

  /** Entries of 24 bits, none but the last at the bottom. */
  predicate ProperStack(ls: seq<Label>) {
    && ls != []
    && (forall i :: 0 <= i < |ls| ==> ls[i] < 0x100_0000)
    && (forall i :: 0 <= i < |ls| - 1 ==> !IsBottomOfStack(ls[i]))
  }

  /** The stack as it arrives: the last entry is marked. */
  function Marked(ls: seq<Label>): (r: seq<Label>)
    ensures |r| == |ls|
    ensures forall i :: 0 <= i < |ls| ==> GetLabel(r[i]) == GetLabel(ls[i])
  {
    if ls == [] then [] else ls[..|ls| - 1] + [Bottom(ls[|ls| - 1])]
  }

  lemma LabelReadBack(l: Label, rest: seq<byte>)
    requires l < 0x100_0000
    ensures DecodeLabel(LabelBytes(l) + rest) == Ok(l, rest)
  {
    ReadBackFull(LabelBytes(l), rest);
    NumbersRoundTrip(0, l);
    assert [0] + LabelBytes(l) + Zeros(0) == U32(l);
  }

  lemma MarkedTail(ls: seq<Label>)
    requires |ls| > 1
    ensures [ls[0]] + Marked(ls[1..]) == Marked(ls)
  {
  }

  lemma AnnouncedLess(len: byte, n: nat)
    requires n > 0
    ensures SubU8(Announced(len, n), BITS_PER_LABEL) == Announced(len, n - 1)
  {
  }

  /** The byte counter after n labels. */
  function Counted(consumed: byte, n: nat): (r: byte)
    ensures r <= consumed + 3 * n
    ensures consumed + 3 * n < 0x100 ==> r == consumed + 3 * n
    decreases n
  {
    if n == 0 then consumed else Counted(AddU8(consumed, BYTES_PER_LABEL), n - 1)
  }

  lemma LastLabel(l: Label, rest: seq<byte>, pfxLen: byte, consumed: byte)
    requires l < 0x100_0000 && IsBottomOfStack(l)
    ensures DecodeLabels(LabelBytes(l) + rest, pfxLen, consumed) ==
            Ok(Stack([l], SubU8(pfxLen, BITS_PER_LABEL), AddU8(consumed, BYTES_PER_LABEL)), rest)
  {
    hide LabelBytes, DecodeLabel;
    LabelReadBack(l, rest);
  }

  lemma InnerLabel(l: Label, tail: seq<byte>, pfxLen: byte, consumed: byte)
    requires l < 0x100_0000 && !IsBottomOfStack(l)
    requires DecodeLabels(tail, SubU8(pfxLen, BITS_PER_LABEL), AddU8(consumed, BYTES_PER_LABEL)).Ok?
    ensures var s := DecodeLabels(tail, SubU8(pfxLen, BITS_PER_LABEL), AddU8(consumed, BYTES_PER_LABEL));
            DecodeLabels(LabelBytes(l) + tail, pfxLen, consumed) ==
            Ok(s.value.(labels := [l] + s.value.labels), s.rest)
  {
    hide LabelBytes, DecodeLabel;
    LabelReadBack(l, tail);
  }

  lemma {:induction false} LabelsRoundTrip(ls: seq<Label>, rest: seq<byte>, len: byte, consumed: byte)
    requires ProperStack(ls)
    ensures DecodeLabels(SerializeLabels(ls) + rest, Announced(len, |ls|), consumed) ==
            Ok(Stack(Marked(ls), len, Counted(consumed, |ls|)), rest)
    decreases |ls|
  {
    hide LabelBytes, DecodeLabels, SubU8, AddU8;
    AnnouncedLess(len, |ls|);
    if |ls| == 1 {
      LastLabel(Bottom(ls[0]), rest, Announced(len, 1), consumed);
      assert Marked(ls) == [Bottom(ls[0])];
    } else {
      var tail := SerializeLabels(ls[1..]) + rest;
      assert SerializeLabels(ls) + rest == LabelBytes(ls[0]) + tail;
      LabelsRoundTrip(ls[1..], rest, len, AddU8(consumed, BYTES_PER_LABEL));
      InnerLabel(ls[0], tail, Announced(len, |ls|), consumed);
      MarkedTail(ls);
    }
  }

  lemma LabelIsShort(buf: seq<byte>)
    requires DecodeLabel(buf).Ok?
    ensures DecodeLabel(buf).value < 0x100_0000
  {
  }

  /** Whatever is read is a proper stack, ended by an entry that is marked. */
  lemma {:induction false} StacksAreProper(buf: seq<byte>, pfxLen: byte, consumed: byte)
    requires DecodeLabels(buf, pfxLen, consumed).Ok?
    ensures ProperStack(DecodeLabels(buf, pfxLen, consumed).value.labels)
    decreases |buf|
  {
    hide Value32, SubU8, AddU8;
    var l := DecodeLabel(buf);
    LabelIsShort(buf);
    if !IsBottomOfStack(l.value) {
      StacksAreProper(l.rest, SubU8(pfxLen, BITS_PER_LABEL), AddU8(consumed, BYTES_PER_LABEL));
    }
  }

  lemma UnmarkedIsProper(ls: seq<Label>)
    requires ProperStack(Marked(ls))
    ensures ProperStack(ls)
  {
    forall i | 0 <= i < |ls|
      ensures ls[i] < 0x100_0000 && (i < |ls| - 1 ==> !IsBottomOfStack(ls[i]))
    {
      assert Marked(ls)[i] == if i < |ls| - 1 then ls[i] else Bottom(ls[i]);
    }
  }

  // ---------------------------------------------------------------- one NLRI

  predicate Labeled(safi: byte) {
    safi == SAFI_LABELED_UNICAST
  }

  function Serialize(n: Nlri, addPath: bool, safi: byte): (r: seq<byte>)
    requires Writable(n.prefix)
  {
    (if addPath then U32(n.pathIdentifier) else [])
    + [if Labeled(safi) then Announced(n.prefix.len, |n.labelStack|) else n.prefix.len]
    + (if Labeled(safi) then SerializeLabels(n.labelStack) else [])
    + PrefixBytes(n.prefix)
  }

  function DecodePathIdentifier(buf: seq<byte>, addPath: bool): (r: Decoded<uint32>)
    ensures r.Ok? ==> |r.rest| <= |buf|
  {
    if addPath then ReadU32(buf) else Ok(0, buf)
  }

  function DecodeStack(buf: seq<byte>, safi: byte, pfxLen: byte, consumed: byte): (r: Decoded<Stack>)
    ensures r.Ok? ==> |r.rest| <= |buf|
  {
    if Labeled(safi) then DecodeLabels(buf, pfxLen, consumed) else Ok(Stack([], pfxLen, consumed), buf)
  }

  /** An NLRI and the number of bytes it took, which is counted in eight bits. */
  function Decode(buf: seq<byte>, afi: uint16, safi: byte, addPath: bool): (r: Decoded<(Nlri, byte)>)
    ensures r.Ok? ==> |r.rest| < |buf|
  {
    var (pathIdentifier, buf1) :- DecodePathIdentifier(buf, addPath);
    var (announced, buf2) :- ReadByte(buf1);
    var (stack, buf3) :- DecodeStack(buf2, safi, announced, if addPath then 5 else 1);
    var numBytes := BytesInAddr(stack.pfxLen);
    var (bytes, buf4) := ReadSome(buf3, numBytes);
    if |bytes| < numBytes then Err
    else
      var (prefix, _) :- DeserializePrefix(bytes, stack.pfxLen, afi);
      Ok((Nlri(pathIdentifier, stack.labels, prefix), AddU8(stack.consumed, |bytes|)), buf4)
  }

  /** The NLRIs whose encoding brings them back. */
  predicate ProperNlri(n: Nlri, afi: uint16, safi: byte) {
    Sendable(n.prefix, afi) && (Labeled(safi) ==> ProperStack(n.labelStack))
  }

  /** What arrives: path identifiers and labels only where they are sent. */
  function Arriving(n: Nlri, addPath: bool, safi: byte): (r: Nlri) {
    Nlri(if addPath then n.pathIdentifier else 0, if Labeled(safi) then Marked(n.labelStack) else [], n.prefix)
  }

  /** What the byte counter says of an NLRI: its size, as long as that fits eight bits. */
  function Took(n: Nlri, addPath: bool, safi: byte): (r: byte)
    requires Writable(n.prefix)
    ensures r <= |Serialize(n, addPath, safi)|
    ensures r == |Serialize(n, addPath, safi)| <==> |Serialize(n, addPath, safi)| < 0x100
  {
    var head := if addPath then 5 else 1;
    AddU8(if Labeled(safi) then Counted(head, |n.labelStack|) else head, BytesInAddr(n.prefix.len))
  }

  lemma PathIdentifierReadBack(id: uint32, addPath: bool, rest: seq<byte>)
    ensures DecodePathIdentifier((if addPath then U32(id) else []) + rest, addPath) == Ok(if addPath then id else 0, rest)
  {
    if addPath {
      ReadBack32(id, rest);
    } else {
      assert [] + rest == rest;
    }
  }

  lemma StackReadBack(n: Nlri, safi: byte, rest: seq<byte>, consumed: byte)
    requires Labeled(safi) ==> ProperStack(n.labelStack)
    ensures DecodeStack((if Labeled(safi) then SerializeLabels(n.labelStack) else []) + rest, safi,
                        if Labeled(safi) then Announced(n.prefix.len, |n.labelStack|) else n.prefix.len, consumed)
            == Ok(Stack(if Labeled(safi) then Marked(n.labelStack) else [], n.prefix.len,
                        if Labeled(safi) then Counted(consumed, |n.labelStack|) else consumed), rest)
  {
    if Labeled(safi) {
      LabelsRoundTrip(n.labelStack, rest, n.prefix.len, consumed);
    } else {
      assert [] + rest == rest;
    }
  }

  /** With a proper stack, all hinges on the prefix. */
  lemma ReadsBackPrefix(n: Nlri, rest: seq<byte>, afi: uint16, safi: byte, addPath: bool)
    requires Writable(n.prefix) && (Labeled(safi) ==> ProperStack(n.labelStack))
    ensures var prefix := DeserializePrefix(PrefixBytes(n.prefix), n.prefix.len, afi);
            Decode(Serialize(n, addPath, safi) + rest, afi, safi, addPath) ==
            if prefix.Err? then Err
            else Ok((Arriving(n, addPath, safi).(prefix := prefix.value), Took(n, addPath, safi)), rest)
  {
    hide U32, SerializeLabels, DecodePathIdentifier, DecodeStack, DeserializePrefix, Announced, Marked, Counted, AddU8;
    var id := if addPath then U32(n.pathIdentifier) else [];
    var len := if Labeled(safi) then Announced(n.prefix.len, |n.labelStack|) else n.prefix.len;
    var labels := if Labeled(safi) then SerializeLabels(n.labelStack) else [];
    var bytes := PrefixBytes(n.prefix);
    var buf2 := labels + (bytes + rest);
    assert Serialize(n, addPath, safi) + rest == id + ([len] + buf2);
    PathIdentifierReadBack(n.pathIdentifier, addPath, [len] + buf2);
    assert ReadByte([len] + buf2) == Ok(len, buf2);
    StackReadBack(n, safi, bytes + rest, if addPath then 5 else 1);
    ReadBackFull(bytes, rest);
  }

  /** A label stack that comes back was proper. */
  lemma StackWasProper(n: Nlri, rest: seq<byte>, afi: uint16, addPath: bool)
    requires Writable(n.prefix)
    requires var r := Decode(Serialize(n, addPath, SAFI_LABELED_UNICAST) + rest, afi, SAFI_LABELED_UNICAST, addPath);
             r.Ok? && r.value.0.labelStack == Marked(n.labelStack)
    ensures ProperStack(n.labelStack)
  {
    hide DecodePathIdentifier, DecodeLabels, DeserializePrefix, Serialize, Marked;
    var buf := Serialize(n, addPath, SAFI_LABELED_UNICAST) + rest;
    var buf1 := DecodePathIdentifier(buf, addPath).rest;
    var pfxLen := ReadByte(buf1);
    StacksAreProper(pfxLen.rest, pfxLen.value, if addPath then 5 else 1);
    UnmarkedIsProper(n.labelStack);
  }

  lemma DeserializedStandsAlone(b: seq<byte>, len: byte, afi: uint16)
    ensures var r := DeserializePrefix(b, len, afi); r.Ok? ==> r.rest == []
  {
    hide NoHostBits, IPv4FromBytes, BytesInAddr;
  }

  /** The bytes of an NLRI bring it back, whatever follows them, exactly when it is proper. */
  lemma RoundTrip(n: Nlri, rest: seq<byte>, afi: uint16, safi: byte, addPath: bool)
    requires Writable(n.prefix)
    ensures var r := Decode(Serialize(n, addPath, safi) + rest, afi, safi, addPath);
            && (ProperNlri(n, afi, safi) ==> r == Ok((Arriving(n, addPath, safi), Took(n, addPath, safi)), rest))
            && (r.Ok? && r.value.0 == Arriving(n, addPath, safi) ==> ProperNlri(n, afi, safi))
  {
    hide Serialize, Decode, DeserializePrefix, Sendable, Took;
    var r := Decode(Serialize(n, addPath, safi) + rest, afi, safi, addPath);
    if Labeled(safi) && r.Ok? && r.value.0 == Arriving(n, addPath, safi) {
      StackWasProper(n, rest, afi, addPath);
    }
    PrefixRoundTrip(n.prefix, afi);
    if Labeled(safi) ==> ProperStack(n.labelStack) {
      ReadsBackPrefix(n, rest, afi, safi, addPath);
      DeserializedStandsAlone(PrefixBytes(n.prefix), n.prefix.len, afi);
    }
  }

  // ---------------------------------------------------------------- lists

  predicate AllWritable(ns: seq<Nlri>) {
    forall i :: 0 <= i < |ns| ==> Writable(ns[i].prefix)
  }

  function SerializeAll(ns: seq<Nlri>, addPath: bool, safi: byte): (r: seq<byte>)
    requires AllWritable(ns)
  {
    if ns == [] then [] else Serialize(ns[0], addPath, safi) + SerializeAll(ns[1..], addPath, safi)
  }

  /** Reads NLRIs while the counter `p`, sixteen bits wide, is below `length`. Every step takes a
      byte from the buffer, so reading ends on every input. */
  function DecodeAll(buf: seq<byte>, p: uint16, length: uint16, afi: uint16, safi: byte, addPath: bool)
    : (r: Decoded<seq<Nlri>>)
    ensures r.Ok? ==> |r.rest| <= |buf|
    decreases |buf|
  {
    if p >= length then Ok([], buf)
    else
      var (first, buf1) :- Decode(buf, afi, safi, addPath);
      var (others, buf2) :- DecodeAll(buf1, AddU16(p, first.1), length, afi, safi, addPath);
      Ok([first.0] + others, buf2)
  }

  /** Every NLRI is proper, and its size fits the byte counter. */
  predicate AllProper(ns: seq<Nlri>, afi: uint16, safi: byte, addPath: bool)
    requires AllWritable(ns)
  {
    forall i :: 0 <= i < |ns| ==> ProperNlri(ns[i], afi, safi) && |Serialize(ns[i], addPath, safi)| < 0x100
  }

  function ArrivingAll(ns: seq<Nlri>, addPath: bool, safi: byte): (r: seq<Nlri>)
    ensures |r| == |ns|
    ensures forall i :: 0 <= i < |ns| ==> r[i] == Arriving(ns[i], addPath, safi)
  {
    if ns == [] then [] else [Arriving(ns[0], addPath, safi)] + ArrivingAll(ns[1..], addPath, safi)
  }

  /** One step of reading a list whose first NLRI is proper. */
  lemma ReadFirst(n: Nlri, tail: seq<byte>, p: uint16, length: uint16, afi: uint16, safi: byte, addPath: bool)
    requires Writable(n.prefix) && ProperNlri(n, afi, safi) && p < length
    requires p + Took(n, addPath, safi) < 0x1_0000
    ensures var others := DecodeAll(tail, p + Took(n, addPath, safi), length, afi, safi, addPath);
            DecodeAll(Serialize(n, addPath, safi) + tail, p, length, afi, safi, addPath) ==
            if others.Err? then Err else Ok([Arriving(n, addPath, safi)] + others.value, others.rest)
  {
    hide Serialize, Decode, Arriving, ProperNlri, Took;
    RoundTrip(n, tail, afi, safi, addPath);
  }

  lemma NoneLeft(buf: seq<byte>, p: uint16, afi: uint16, safi: byte, addPath: bool)
    ensures DecodeAll(buf, p, p, afi, safi, addPath) == Ok([], buf)
  {
  }

  lemma SerializeIsNotEmpty(n: Nlri, addPath: bool, safi: byte)
    requires Writable(n.prefix)
    ensures |Serialize(n, addPath, safi)| > 0
  {
  }

  /** A whole list of proper NLRIs comes back, and nothing after it is touched. */
  lemma {:induction false} ListRoundTrip(ns: seq<Nlri>, rest: seq<byte>, p: uint16, length: uint16,
                                         afi: uint16, safi: byte, addPath: bool)
    requires AllWritable(ns) && AllProper(ns, afi, safi, addPath)
    requires p + |SerializeAll(ns, addPath, safi)| == length
    ensures DecodeAll(SerializeAll(ns, addPath, safi) + rest, p, length, afi, safi, addPath) ==
            Ok(ArrivingAll(ns, addPath, safi), rest)
    decreases |ns|
  {
    hide Serialize, Decode, Arriving, ProperNlri, DecodeAll;
    if ns == [] {
      assert SerializeAll(ns, addPath, safi) + rest == rest;
      NoneLeft(rest, p, afi, safi, addPath);
    } else {
      var first := Serialize(ns[0], addPath, safi);
      var tail := SerializeAll(ns[1..], addPath, safi);
      assert SerializeAll(ns, addPath, safi) + rest == first + (tail + rest);
      SerializeIsNotEmpty(ns[0], addPath, safi);
      ReadFirst(ns[0], tail + rest, p, length, afi, safi, addPath);
      ListRoundTrip(ns[1..], rest, p + |first|, length, afi, safi, addPath);
    }
  }

  predicate ComesBack(ns: seq<Nlri>, rest: seq<byte>, p: uint16, length: uint16, afi: uint16, safi: byte, addPath: bool)
    requires AllWritable(ns)
  {
    var r := DecodeAll(SerializeAll(ns, addPath, safi) + rest, p, length, afi, safi, addPath);
    r.Ok? && r.value == ArrivingAll(ns, addPath, safi)
  }

  /** If a list comes back, its first NLRI was proper and the others come back from where it ended. */
  lemma FirstComesBack(ns: seq<Nlri>, rest: seq<byte>, p: uint16, length: uint16, afi: uint16, safi: byte, addPath: bool)
    requires AllWritable(ns) && ns != [] && p + |SerializeAll(ns, addPath, safi)| <= length
    requires ComesBack(ns, rest, p, length, afi, safi, addPath)
    ensures ProperNlri(ns[0], afi, safi)
    ensures p + Took(ns[0], addPath, safi) < 0x1_0000
    ensures ComesBack(ns[1..], rest, p + Took(ns[0], addPath, safi), length, afi, safi, addPath)
  {
    hide Serialize, Arriving, ProperNlri, Took, Decode;
    var first := Serialize(ns[0], addPath, safi);
    var tail := SerializeAll(ns[1..], addPath, safi) + rest;
    assert SerializeAll(ns, addPath, safi) + rest == first + tail;
    SerializeIsNotEmpty(ns[0], addPath, safi);
    assert Decode(first + tail, afi, safi, addPath).value.0 == ArrivingAll(ns, addPath, safi)[0];
    RoundTrip(ns[0], tail, afi, safi, addPath);
    assert ArrivingAll(ns, addPath, safi)[1..] == ArrivingAll(ns[1..], addPath, safi);
  }

  lemma NothingToRead(p: uint16, length: uint16, afi: uint16, safi: byte, addPath: bool)
    requires p < length
    ensures DecodeAll([], p, length, afi, safi, addPath).Err?
  {
  }

  /** A counter that lags behind the bytes makes the reader ask for more than there is. */
  lemma {:induction false} LaggingCounter(ns: seq<Nlri>, p: uint16, length: uint16, afi: uint16, safi: byte, addPath: bool)
    requires AllWritable(ns) && p + |SerializeAll(ns, addPath, safi)| < length
    ensures !ComesBack(ns, [], p, length, afi, safi, addPath)
    decreases |ns|
  {
    hide Serialize, Arriving, ProperNlri, Took, Decode, DecodeAll;
    if ns == [] {
      assert SerializeAll(ns, addPath, safi) + [] == [];
      NothingToRead(p, length, afi, safi, addPath);
    } else if ComesBack(ns, [], p, length, afi, safi, addPath) {
      FirstComesBack(ns, [], p, length, afi, safi, addPath);
      LaggingCounter(ns[1..], p + Took(ns[0], addPath, safi), length, afi, safi, addPath);
    }
  }

  lemma UnlabeledIsShort(n: Nlri, addPath: bool, safi: byte)
    requires Writable(n.prefix) && !Labeled(safi)
    ensures |Serialize(n, addPath, safi)| < 0x100
  {
  }

  /** A list that comes back was proper: in plain fields, and wherever it ends its buffer. */
  lemma {:induction false} ListWasProper(ns: seq<Nlri>, rest: seq<byte>, p: uint16, length: uint16,
                                         afi: uint16, safi: byte, addPath: bool)
    requires AllWritable(ns) && p + |SerializeAll(ns, addPath, safi)| == length
    requires rest == [] || !Labeled(safi)
    requires ComesBack(ns, rest, p, length, afi, safi, addPath)
    ensures AllProper(ns, afi, safi, addPath)
    decreases |ns|
  {
    hide Serialize, Arriving, ProperNlri, ComesBack, Took;
    if ns != [] {
      FirstComesBack(ns, rest, p, length, afi, safi, addPath);
      if Labeled(safi) && |Serialize(ns[0], addPath, safi)| >= 0x100 {
        LaggingCounter(ns[1..], p + Took(ns[0], addPath, safi), length, afi, safi, addPath);
      }
      if !Labeled(safi) {
        UnlabeledIsShort(ns[0], addPath, safi);
      }
      ListWasProper(ns[1..], rest, p + Took(ns[0], addPath, safi), length, afi, safi, addPath);
    }
  }
}
