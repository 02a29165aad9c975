/** Path attributes of a BGP UPDATE (RFC 4271 section 4.3, RFC 4760 section 3): what their bytes are
    and what is read from bytes, and that the second undoes the first. */
module PathAttributes {
  import opened Words
  import opened BGPTypes
  import opened Wire
  import Nlris

  const ORIGIN: byte := 1
  const AS_PATH: byte := 2
  const NEXT_HOP: byte := 3
  const MED: byte := 4
  const LOCAL_PREF: byte := 5
  const ATOMIC_AGGREGATE: byte := 6
  const AGGREGATOR: byte := 7
  const COMMUNITIES: byte := 8
  const ORIGINATOR_ID: byte := 9
  const CLUSTER_LIST: byte := 10
  const MP_REACH_NLRI: byte := 14
  const MP_UNREACH_NLRI: byte := 15
  const AS4_AGGREGATOR: byte := 18
  const LARGE_COMMUNITIES: byte := 32

  const AS_SET: byte := 1
  const AS_SEQUENCE: byte := 2

  datatype Value =
    | Nothing
    | Origin(origin: byte)
    | ASPath(segments: seq<Segment>)
    | NextHop(nextHop: Address)
    | Number(number: uint32)
    | Numbers(numbers: seq<uint32>)
    | AggregatedBy(aggregator: Aggregator)
    | LargeCommunities(communities: seq<LargeCommunity>)
    | Reach(afi: uint16, safi: byte, via: Address, reachable: seq<Nlris.Nlri>)
    | Unreach(afi: uint16, safi: byte, unreachable: seq<Nlris.Nlri>)
    | Unknown(bytes: seq<byte>)

  datatype Flags = Flags(optional: bool, transitive: bool, partial: bool, extendedLength: bool)

  datatype PathAttribute = PathAttribute(flags: Flags, typeCode: byte, length: uint16, value: Value)

  datatype EncodeOptions = EncodeOptions(use32BitASN: bool, useAddPath: bool)

  datatype DecodeOptions = DecodeOptions(addPathIPv4Unicast: bool, addPathIPv6Unicast: bool, use32BitASN: bool) {
    predicate AddPath(afi: uint16, safi: byte) {
      && safi == Nlris.SAFI_UNICAST
      && ((afi == AFI_IPV4 && addPathIPv4Unicast) || (afi == AFI_IPV6 && addPathIPv6Unicast))
    }
  }

  // ---------------------------------------------------------------- flags

  function FlagsByte(f: Flags): (r: byte) {
    (if f.optional then 128 else 0) + (if f.transitive then 64 else 0)
    + (if f.partial then 32 else 0) + (if f.extendedLength then 16 else 0)
  }

  predicate Bit(x: byte, weight: nat)
    requires weight > 0
  {
    x / weight % 2 == 1
  }

  function DecodeFlags(x: byte): (f: Flags) {
    Flags(Bit(x, 128), Bit(x, 64), Bit(x, 32), Bit(x, 16))
  }

  lemma FlagsRoundTrip(f: Flags)
    ensures DecodeFlags(FlagsByte(f)) == f
  {
  }

  // ---------------------------------------------------------------- AS paths

  function ASNLength(use32BitASN: bool): (n: nat) {
    if use32BitASN then 4 else 2
  }

  function ASN(asn: uint32, use32BitASN: bool): (r: seq<byte>)
    ensures |r| == ASNLength(use32BitASN)
  {
    if use32BitASN then U32(asn) else U16(asn % 0x1_0000)
  }

  function ASNs(asns: seq<uint32>, use32BitASN: bool): (r: seq<byte>)
    ensures |r| == ASNLength(use32BitASN) * |asns|
  {
    if asns == [] then [] else ASN(asns[0], use32BitASN) + ASNs(asns[1..], use32BitASN)
  }

  function Segments(segments: seq<Segment>, use32BitASN: bool): (r: seq<byte>) {
    if segments == [] then []
    else
      [segments[0].kind, |segments[0].asns| % 0x100] + ASNs(segments[0].asns, use32BitASN)
      + Segments(segments[1..], use32BitASN)
  }

  function DecodeASN(buf: seq<byte>, use32BitASN: bool): (r: Decoded<uint32>)
    ensures r.Ok? ==> |r.rest| == |buf| - ASNLength(use32BitASN)
  {
    if use32BitASN then ReadU32(buf)
    else
      var (asn, rest) :- ReadU16(buf);
      Ok(asn, rest)
  }

  function DecodeASNs(buf: seq<byte>, count: nat, use32BitASN: bool): (r: Decoded<seq<uint32>>)
    ensures r.Ok? ==> |r.value| == count && |r.rest| <= |buf|
  {
    if count == 0 then Ok([], buf)
    else
      var (asn, buf1) :- DecodeASN(buf, use32BitASN);
      var (asns, buf2) :- DecodeASNs(buf1, count - 1, use32BitASN);
      Ok([asn] + asns, buf2)
  }

  function DecodeSegment(buf: seq<byte>, use32BitASN: bool): (r: Decoded<Segment>)
    ensures r.Ok? ==> |r.rest| < |buf|
    ensures r.Ok? ==> 0 < |r.value.asns| < 0x100
  {
    var (kind, buf1) :- ReadByte(buf);
    var (count, buf2) :- ReadByte(buf1);
    if (kind != AS_SET && kind != AS_SEQUENCE) || count == 0 then Err
    else
      var (asns, buf3) :- DecodeASNs(buf2, count, use32BitASN);
      Ok(Segment(kind, asns), buf3)
  }

  /** Segments while the counter `p`, sixteen bits wide, is below `length`. */
  function DecodeSegments(buf: seq<byte>, p: uint16, length: uint16, use32BitASN: bool): (r: Decoded<seq<Segment>>)
    ensures r.Ok? ==> |r.rest| <= |buf|
    decreases |buf|
  {
    if p >= length then Ok([], buf)
    else
      var (segment, buf1) :- DecodeSegment(buf, use32BitASN);
      var took := 2 + ASNLength(use32BitASN) * |segment.asns|;
      var (segments, buf2) :- DecodeSegments(buf1, AddU16(p, took), length, use32BitASN);
      Ok([segment] + segments, buf2)
  }

  predicate ProperSegment(s: Segment, use32BitASN: bool) {
    && (s.kind == AS_SET || s.kind == AS_SEQUENCE)
    && 0 < |s.asns| < 0x100
    && (!use32BitASN ==> forall i :: 0 <= i < |s.asns| ==> s.asns[i] < 0x1_0000)
  }

  predicate ProperSegments(segments: seq<Segment>, use32BitASN: bool) {
    forall i :: 0 <= i < |segments| ==> ProperSegment(segments[i], use32BitASN)
  }

  lemma ASNRoundTrip(asn: uint32, use32BitASN: bool, rest: seq<byte>)
    requires use32BitASN || asn < 0x1_0000
    ensures DecodeASN(ASN(asn, use32BitASN) + rest, use32BitASN) == Ok(asn, rest)
  {
    hide U32, U16, ReadU32, ReadU16;
    if use32BitASN {
      ReadBack32(asn, rest);
    } else {
      ReadBack16(asn, rest);
    }
  }

  lemma {:induction false} ASNsRoundTrip(asns: seq<uint32>, use32BitASN: bool, rest: seq<byte>)
    requires use32BitASN || forall i :: 0 <= i < |asns| ==> asns[i] < 0x1_0000
    ensures DecodeASNs(ASNs(asns, use32BitASN) + rest, |asns|, use32BitASN) == Ok(asns, rest)
    decreases |asns|
  {
    hide ASN, DecodeASN;
    if asns == [] {
      assert ASNs(asns, use32BitASN) + rest == rest;
    } else {
      var tail := ASNs(asns[1..], use32BitASN) + rest;
      assert ASNs(asns, use32BitASN) + rest == ASN(asns[0], use32BitASN) + tail;
      ASNRoundTrip(asns[0], use32BitASN, tail);
      ASNsRoundTrip(asns[1..], use32BitASN, rest);
      assert asns == [asns[0]] + asns[1..];
    }
  }

  lemma SegmentRoundTrip(s: Segment, use32BitASN: bool, rest: seq<byte>)
    requires ProperSegment(s, use32BitASN)
    ensures DecodeSegment([s.kind, |s.asns|] + ASNs(s.asns, use32BitASN) + rest, use32BitASN) == Ok(s, rest)
  {
    hide ASNs, DecodeASNs;
    var tail := ASNs(s.asns, use32BitASN) + rest;
    var buf := [s.kind, |s.asns|] + ASNs(s.asns, use32BitASN) + rest;
    assert buf[1..] == [|s.asns|] + tail && buf[1..][1..] == tail;
    ASNsRoundTrip(s.asns, use32BitASN, rest);
  }

  lemma {:induction false} SegmentsRoundTrip(segments: seq<Segment>, use32BitASN: bool, rest: seq<byte>,
                                             p: uint16, length: uint16)
    requires ProperSegments(segments, use32BitASN)
    requires p + |Segments(segments, use32BitASN)| == length
    ensures DecodeSegments(Segments(segments, use32BitASN) + rest, p, length, use32BitASN) == Ok(segments, rest)
    decreases |segments|
  {
    hide ASNs, DecodeSegment;
    if segments == [] {
      assert Segments(segments, use32BitASN) + rest == rest;
    } else {
      var s := segments[0];
      var tail := Segments(segments[1..], use32BitASN) + rest;
      var first := [s.kind, |s.asns|] + ASNs(s.asns, use32BitASN);
      assert ProperSegment(s, use32BitASN);
      assert Segments(segments, use32BitASN) + rest == first + tail;
      SegmentRoundTrip(s, use32BitASN, tail);
      SegmentsRoundTrip(segments[1..], use32BitASN, rest, p + |first|, length);
      assert segments == [s] + segments[1..];
    }
  }

  lemma {:induction false} ShortASNs(buf: seq<byte>, count: nat)
    requires DecodeASNs(buf, count, false).Ok?
    ensures forall i :: 0 <= i < count ==> DecodeASNs(buf, count, false).value[i] < 0x1_0000
    decreases count
  {
    hide ReadU16;
    if count > 0 {
      ShortASNs(DecodeASN(buf, false).rest, count - 1);
    }
  }

  /** Whatever is read as an AS path is proper. */
  lemma {:induction false} SegmentsAreProper(buf: seq<byte>, p: uint16, length: uint16, use32BitASN: bool)
    requires DecodeSegments(buf, p, length, use32BitASN).Ok?
    ensures ProperSegments(DecodeSegments(buf, p, length, use32BitASN).value, use32BitASN)
    decreases |buf|
  {
    hide DecodeASNs;
    if p < length {
      var s := DecodeSegment(buf, use32BitASN);
      if !use32BitASN {
        ShortASNs(buf[2..], buf[1]);
        assert buf[1..][1..] == buf[2..];
      }
      assert ProperSegment(s.value, use32BitASN);
      SegmentsAreProper(s.rest, AddU16(p, 2 + ASNLength(use32BitASN) * |s.value.asns|), length, use32BitASN);
    }
  }

  // ---------------------------------------------------------------- large communities

  function LargeBytes(cs: seq<LargeCommunity>): (r: seq<byte>)
    ensures |r| == 12 * |cs|
  {
    if cs == [] then []
    else U32(cs[0].globalAdministrator) + U32(cs[0].dataPart1) + U32(cs[0].dataPart2) + LargeBytes(cs[1..])
  }

  function DecodeLarge(buf: seq<byte>, count: nat): (r: Decoded<seq<LargeCommunity>>)
    ensures r.Ok? ==> |r.value| == count && |r.rest| == |buf| - 12 * count
  {
    if count == 0 then Ok([], buf)
    else
      var (a, buf1) :- ReadU32(buf);
      var (b, buf2) :- ReadU32(buf1);
      var (c, buf3) :- ReadU32(buf2);
      var (cs, buf4) :- DecodeLarge(buf3, count - 1);
      Ok([LargeCommunity(a, b, c)] + cs, buf4)
  }

  lemma {:induction false} LargeRoundTrip(cs: seq<LargeCommunity>, rest: seq<byte>)
    ensures DecodeLarge(LargeBytes(cs) + rest, |cs|) == Ok(cs, rest)
    decreases |cs|
  {
    hide U32, ReadU32;
    if cs == [] {
      assert LargeBytes(cs) + rest == rest;
    } else {
      var c := cs[0];
      var tail := LargeBytes(cs[1..]) + rest;
      assert LargeBytes(cs) + rest == U32(c.globalAdministrator) + (U32(c.dataPart1) + (U32(c.dataPart2) + tail));
      ReadBack32(c.globalAdministrator, U32(c.dataPart1) + (U32(c.dataPart2) + tail));
      ReadBack32(c.dataPart1, U32(c.dataPart2) + tail);
      ReadBack32(c.dataPart2, tail);
      LargeRoundTrip(cs[1..], rest);
      assert cs == [c] + cs[1..];
    }
  }

  // ---------------------------------------------------------------- multiprotocol attributes

  function ReachBytes(v: Value, addPath: bool): (r: seq<byte>)
    requires v.Reach? && Nlris.AllWritable(v.reachable)
  {
    U16(v.afi) + [v.safi, |v.via.bytes| % 0x100] + v.via.bytes + [0] + Nlris.SerializeAll(v.reachable, addPath, v.safi)
  }

  function UnreachBytes(v: Value, addPath: bool): (r: seq<byte>)
    requires v.Unreach? && Nlris.AllWritable(v.unreachable)
  {
    U16(v.afi) + [v.safi] + Nlris.SerializeAll(v.unreachable, addPath, v.safi)
  }

  /** A next hop field of 32 bytes holds a global and a link-local address; the first counts. */
  function DeserializeReach(b: seq<byte>, opt: DecodeOptions): (r: Decoded<Value>) {
    if |b| <= 4 then Err
    else
      var afi, safi, nextHopLength, variable := Value16(b[..2]), b[2], b[3], b[4..];
      if |variable| < nextHopLength then Err
      else
        var (nextHop, _) :- IPFromBytes(variable[..if nextHopLength == 32 then 16 else nextHopLength]);
        if |variable| == nextHopLength then Ok(Reach(afi, safi, nextHop, []), [])
        else
          var field := variable[1 + nextHopLength..];
          var (nlris, _) :- Nlris.DecodeAll(field, 0, |field| % 0x1_0000, afi, safi, opt.AddPath(afi, safi));
          Ok(Reach(afi, safi, nextHop, nlris), [])
  }

  function DeserializeUnreach(b: seq<byte>, opt: DecodeOptions): (r: Decoded<Value>) {
    if |b| < 3 then Err
    else
      var afi, safi, field := Value16(b[..2]), b[2], b[3..];
      var (nlris, _) :- Nlris.DecodeAll(field, 0, |field| % 0x1_0000, afi, safi, opt.AddPath(afi, safi));
      Ok(Unreach(afi, safi, nlris), [])
  }

  /** Up to the list of NLRIs there is nothing to go wrong. */
  lemma ReachReadBack(v: Value, addPath: bool, opt: DecodeOptions)
    requires v.Reach? && ProperAddress(v.via) && opt.AddPath(v.afi, v.safi) == addPath
    requires Nlris.AllWritable(v.reachable) && |ReachBytes(v, addPath)| < 0x1_0000
    ensures var field := Nlris.SerializeAll(v.reachable, addPath, v.safi);
            var list := Nlris.DecodeAll(field + [], 0, |field|, v.afi, v.safi, addPath);
            DeserializeReach(ReachBytes(v, addPath), opt) ==
            if list.Err? then Err else Ok(v.(reachable := list.value), [])
  {
    hide U16, Value16, Nlris.SerializeAll, Nlris.DecodeAll, Nlris.AllWritable, DecodeOptions.AddPath;
    var b, nh, field := ReachBytes(v, addPath), v.via.bytes, Nlris.SerializeAll(v.reachable, addPath, v.safi);
    NumbersRoundTrip(v.afi, 0);
    assert b[..2] == U16(v.afi);
    assert b[4..] == nh + [0] + field;
    assert b[4..][..|nh|] == nh && b[4..][1 + |nh|..] == field;
    assert field + [] == field;
  }

  lemma UnreachReadBack(v: Value, addPath: bool, opt: DecodeOptions)
    requires v.Unreach? && opt.AddPath(v.afi, v.safi) == addPath
    requires Nlris.AllWritable(v.unreachable) && |UnreachBytes(v, addPath)| < 0x1_0000
    ensures var field := Nlris.SerializeAll(v.unreachable, addPath, v.safi);
            var list := Nlris.DecodeAll(field + [], 0, |field|, v.afi, v.safi, addPath);
            DeserializeUnreach(UnreachBytes(v, addPath), opt) ==
            if list.Err? then Err else Ok(v.(unreachable := list.value), [])
  {
    hide U16, Value16, Nlris.SerializeAll, Nlris.DecodeAll, Nlris.AllWritable, DecodeOptions.AddPath;
    var b, field := UnreachBytes(v, addPath), Nlris.SerializeAll(v.unreachable, addPath, v.safi);
    NumbersRoundTrip(v.afi, 0);
    assert b[..2] == U16(v.afi) && b[3..] == field;
    assert field + [] == field;
  }

  // ---------------------------------------------------------------- writing an attribute

  /** The value has the shape its type code asks for; type assertions fail otherwise. */
  predicate WellTyped(pa: PathAttribute) {
    var t, v := pa.typeCode, pa.value;
    if t == ORIGIN then v.Origin?
    else if t == AS_PATH then v.ASPath?
    else if t == NEXT_HOP then v.NextHop? && ProperAddress(v.nextHop)
    else if t == MED || t == LOCAL_PREF || t == ORIGINATOR_ID then v.Number?
    else if t == ATOMIC_AGGREGATE then v.Nothing?
    else if t == AGGREGATOR then v.AggregatedBy?
    else if t == COMMUNITIES || t == CLUSTER_LIST then v.Numbers? || v.Nothing?
    else if t == LARGE_COMMUNITIES then v.LargeCommunities? || v.Nothing?
    else if t == MP_REACH_NLRI then v.Reach? && ProperAddress(v.via) && Nlris.AllWritable(v.reachable)
    else if t == MP_UNREACH_NLRI then v.Unreach? && Nlris.AllWritable(v.unreachable)
    else v.Unknown?
  }

  /** Lists of communities and of cluster identifiers leave no trace when they are empty. */
  predicate WritesNothing(pa: PathAttribute) {
    && (pa.typeCode == COMMUNITIES || pa.typeCode == CLUSTER_LIST || pa.typeCode == LARGE_COMMUNITIES)
    && (pa.value.Nothing? || pa.value == Numbers([]) || pa.value == LargeCommunities([]))
  }

  predicate ValueWritable(v: Value) {
    && (v.Reach? ==> Nlris.AllWritable(v.reachable))
    && (v.Unreach? ==> Nlris.AllWritable(v.unreachable))
  }

  function Body(v: Value, opt: EncodeOptions): (r: seq<byte>)
    requires ValueWritable(v)
  {
    match v
    case Nothing => []
    case Origin(origin) => [origin]
    case ASPath(segments) => Segments(segments, opt.use32BitASN)
    case NextHop(nextHop) => nextHop.bytes
    case Number(number) => U32(number)
    case Numbers(numbers) => U32s(numbers)
    case AggregatedBy(a) => U16(a.asn) + U32(a.address)
    case LargeCommunities(communities) => LargeBytes(communities)
    case Reach(_, _, _, _) => ReachBytes(v, opt.useAddPath)
    case Unreach(_, _, _) => UnreachBytes(v, opt.useAddPath)
    case Unknown(bytes) => bytes
  }

  /** The flags an attribute with a body of n bytes is sent with. */
  function SentFlags(pa: PathAttribute, n: nat): (f: Flags) {
    var t, long := pa.typeCode, n % 0x1_0000 > 255;
    if t == ORIGIN || t == NEXT_HOP || t == LOCAL_PREF || t == ATOMIC_AGGREGATE then Flags(false, true, false, false)
    else if t == AS_PATH then Flags(false, true, false, long)
    else if t == MED || t == ORIGINATOR_ID || t == CLUSTER_LIST then Flags(true, false, false, false)
    else if t == AGGREGATOR then Flags(true, true, false, false)
    else if t == COMMUNITIES || t == LARGE_COMMUNITIES then Flags(true, true, true, long)
    else if t == MP_REACH_NLRI || t == MP_UNREACH_NLRI then
      Flags(true, pa.flags.transitive, false, pa.flags.extendedLength || n > 255)
    else Flags(pa.flags.optional, true, false, pa.flags.extendedLength)
  }

  function LengthBytes(n: nat, extendedLength: bool): (r: seq<byte>)
    ensures |r| == if extendedLength then 2 else 1
  {
    if extendedLength then [n / 0x100 % 0x100, n % 0x100] else [n % 0x100]
  }

  function Framed(f: Flags, typeCode: byte, length: nat, body: seq<byte>): (r: seq<byte>) {
    [FlagsByte(f), typeCode] + LengthBytes(length, f.extendedLength) + body
  }

  /** A next hop claims four bytes whatever it has. */
  function Serialize(pa: PathAttribute, opt: EncodeOptions): (r: seq<byte>)
    requires WellTyped(pa)
  {
    if WritesNothing(pa) then []
    else
      var body := Body(pa.value, opt);
      Framed(SentFlags(pa, |body|), pa.typeCode, if pa.typeCode == NEXT_HOP then 4 else |body|, body)
  }

  lemma BodyIsPart(pa: PathAttribute, opt: EncodeOptions)
    requires WellTyped(pa) && !WritesNothing(pa)
    ensures |Body(pa.value, opt)| <= |Serialize(pa, opt)|
  {
    hide Body, FlagsByte;
  }

  lemma WritesNothingIff(pa: PathAttribute, opt: EncodeOptions)
    requires WellTyped(pa)
    ensures WritesNothing(pa) <==> Serialize(pa, opt) == []
  {
    hide Body, FlagsByte;
  }

  // ---------------------------------------------------------------- reading an attribute

  /** Skips what an attribute of a fixed size claims beyond that size; a shorter claim wraps. */
  function Dump<T>(value: T, buf: seq<byte>, n: uint16): (r: Decoded<T>)
    ensures r.Ok? ==> |r.rest| <= |buf|
  {
    if n <= |buf| then Ok(value, buf[n..]) else Err
  }

  function DecodeOrigin(buf: seq<byte>, length: uint16): (r: Decoded<Value>)
    ensures r.Ok? ==> |r.rest| <= |buf|
  {
    var (origin, buf1) :- ReadByte(buf);
    Dump(Origin(origin), buf1, SubU16(length, 1))
  }

  function DecodeAggregator(buf: seq<byte>, length: uint16): (r: Decoded<Value>)
    ensures r.Ok? ==> |r.rest| <= |buf|
  {
    var (asn, buf1) :- ReadU16(buf);
    var (address, buf2) :- ReadU32(buf1);
    Dump(AggregatedBy(Aggregator(address, asn)), buf2, SubU16(length, 6))
  }

  function DecodeNumber(buf: seq<byte>): (r: Decoded<Value>)
    ensures r.Ok? ==> |r.rest| <= |buf|
  {
    var (number, buf1) :- ReadU32(buf);
    Ok(Number(number), buf1)
  }

  function DecodeUint32(buf: seq<byte>, length: uint16): (r: Decoded<Value>)
    ensures r.Ok? ==> r.value.Number? && |r.rest| <= |buf|
  {
    var (number, buf1) :- ReadU32(buf);
    Dump(Number(number), buf1, SubU16(length, 4))
  }

  function DecodeNextHop(buf: seq<byte>): (r: Decoded<Value>)
    ensures r.Ok? ==> |r.rest| <= |buf|
  {
    var (bytes, buf1) :- ReadFull(buf, 4);
    Ok(NextHop(V4(bytes)), buf1)
  }

  function DecodeNumbers(buf: seq<byte>, length: uint16): (r: Decoded<Value>)
    ensures r.Ok? ==> |r.rest| <= |buf|
  {
    if length % 4 != 0 then Err
    else
      var (numbers, buf1) :- ReadU32s(buf, length / 4);
      Ok(Numbers(numbers), buf1)
  }

  function DecodeLargeCommunities(buf: seq<byte>, length: uint16): (r: Decoded<Value>)
    ensures r.Ok? ==> |r.rest| <= |buf|
  {
    if length % 12 != 0 then Err
    else
      var (communities, buf1) :- DecodeLarge(buf, length / 12);
      Ok(LargeCommunities(communities), buf1)
  }

  function DecodeASPath(buf: seq<byte>, length: uint16, use32BitASN: bool): (r: Decoded<Value>)
    ensures r.Ok? ==> |r.rest| <= |buf|
  {
    var (segments, buf1) :- DecodeSegments(buf, 0, length, use32BitASN);
    Ok(ASPath(segments), buf1)
  }

  function DecodeReach(buf: seq<byte>, length: uint16, opt: DecodeOptions): (r: Decoded<Value>)
    ensures r.Ok? ==> |r.rest| <= |buf|
  {
    var (bytes, buf1) :- ReadFull(buf, length);
    var (value, _) :- DeserializeReach(bytes, opt);
    Ok(value, buf1)
  }

  function DecodeUnreach(buf: seq<byte>, length: uint16, opt: DecodeOptions): (r: Decoded<Value>)
    ensures r.Ok? ==> |r.rest| <= |buf|
  {
    var (bytes, buf1) :- ReadFull(buf, length);
    var (value, _) :- DeserializeUnreach(bytes, opt);
    Ok(value, buf1)
  }

  function DecodeUnknown(buf: seq<byte>, length: uint16): (r: Decoded<Value>)
    ensures r.Ok? ==> |r.rest| <= |buf|
  {
    var (bytes, buf1) :- ReadFull(buf, length);
    Ok(Unknown(bytes), buf1)
  }

  function DecodeValue(buf: seq<byte>, t: byte, length: uint16, opt: DecodeOptions): (r: Decoded<Value>)
    ensures r.Ok? ==> |r.rest| <= |buf|
  {
    if t == ORIGIN then DecodeOrigin(buf, length)
    else if t == AS_PATH then DecodeASPath(buf, length, opt.use32BitASN)
    else if t == NEXT_HOP then DecodeNextHop(buf)
    else if t == MED || t == LOCAL_PREF then DecodeNumber(buf)
    else if t == AGGREGATOR then DecodeAggregator(buf, length)
    else if t == ATOMIC_AGGREGATE then Ok(Nothing, buf)
    else if t == COMMUNITIES || t == CLUSTER_LIST then DecodeNumbers(buf, length)
    else if t == ORIGINATOR_ID || t == AS4_AGGREGATOR then DecodeUint32(buf, length)
    else if t == MP_REACH_NLRI then DecodeReach(buf, length, opt)
    else if t == MP_UNREACH_NLRI then DecodeUnreach(buf, length, opt)
    else if t == LARGE_COMMUNITIES then DecodeLargeCommunities(buf, length)
    else DecodeUnknown(buf, length)
  }

  function DecodeLength(buf: seq<byte>, extendedLength: bool): (r: Decoded<uint16>)
    ensures r.Ok? ==> |r.rest| <= |buf|
  {
    if extendedLength then ReadU16(buf)
    else
      var (x, buf1) :- ReadByte(buf);
      Ok(x, buf1)
  }

  /** An attribute and the number of bytes it claims to take, counted in sixteen bits. */
  function Decode(buf: seq<byte>, opt: DecodeOptions): (r: Decoded<(PathAttribute, uint16)>)
    ensures r.Ok? ==> |r.rest| < |buf|
  {
    var (flags, buf1) :- ReadByte(buf);
    var (typeCode, buf2) :- ReadByte(buf1);
    var f := DecodeFlags(flags);
    var (length, buf3) :- DecodeLength(buf2, f.extendedLength);
    var (value, buf4) :- DecodeValue(buf3, typeCode, length, opt);
    Ok((PathAttribute(f, typeCode, length, value),
        AddU16(if f.extendedLength then 4 else 3, length)), buf4)
  }

  // ---------------------------------------------------------------- one attribute there and back

  /** The two sides agree on the size of AS numbers and on path identifiers. */
  predicate Matching(v: Value, enc: EncodeOptions, dec: DecodeOptions) {
    && enc.use32BitASN == dec.use32BitASN
    && (v.Reach? || v.Unreach? ==> dec.AddPath(v.afi, v.safi) == enc.useAddPath)
  }

  /** The attributes whose bytes bring them back. */
  predicate Proper(pa: PathAttribute, opt: EncodeOptions)
    requires WellTyped(pa)
  {
    match pa.value
    case ASPath(segments) => ProperSegments(segments, opt.use32BitASN)
    case NextHop(nextHop) => nextHop.V4?
    case Numbers(numbers) => pa.typeCode == CLUSTER_LIST ==> |numbers| < 64
    case Reach(afi, safi, via, reachable) => Nlris.AllProper(reachable, afi, safi, opt.useAddPath)
    case Unreach(afi, safi, unreachable) => Nlris.AllProper(unreachable, afi, safi, opt.useAddPath)
    case Unknown(bytes) => pa.typeCode != AS4_AGGREGATOR && (|bytes| < 0x100 || pa.flags.extendedLength)
    case _ => true
  }

  function ArrivingValue(v: Value, addPath: bool): (r: Value) {
    match v
    case Reach(afi, safi, via, reachable) => Reach(afi, safi, via, Nlris.ArrivingAll(reachable, addPath, safi))
    case Unreach(afi, safi, unreachable) => Unreach(afi, safi, Nlris.ArrivingAll(unreachable, addPath, safi))
    case _ => v
  }

  function Arriving(pa: PathAttribute, opt: EncodeOptions): (r: PathAttribute)
    requires WellTyped(pa) && |Body(pa.value, opt)| < 0x1_0000
  {
    var n := |Body(pa.value, opt)|;
    PathAttribute(SentFlags(pa, n), pa.typeCode, n, ArrivingValue(pa.value, opt.useAddPath))
  }

  lemma SplitsU16(n: uint16)
    ensures LengthBytes(n, true) == U16(n)
  {
  }

  lemma LengthReadBack(n: uint16, extendedLength: bool, rest: seq<byte>)
    ensures DecodeLength(LengthBytes(n, extendedLength) + rest, extendedLength) ==
            Ok(if extendedLength then n else n % 0x100, rest)
  {
    hide U16, ReadU16;
    if extendedLength {
      SplitsU16(n);
      ReadBack16(n, rest);
    } else {
      assert (LengthBytes(n, false) + rest)[1..] == rest;
    }
  }

  lemma ListValueRoundTrip(v: Value, opt: EncodeOptions, rest: seq<byte>)
    requires ValueWritable(v) && |Body(v, opt)| < 0x1_0000
    ensures v.Numbers? ==> DecodeNumbers(Body(v, opt) + rest, |Body(v, opt)|) == Ok(v, rest)
    ensures v.LargeCommunities? ==> DecodeLargeCommunities(Body(v, opt) + rest, |Body(v, opt)|) == Ok(v, rest)
  {
    hide U32s, ReadU32s, LargeBytes, DecodeLarge;
    if v.Numbers? {
      ReadBackU32s(v.numbers, rest);
    } else if v.LargeCommunities? {
      LargeRoundTrip(v.communities, rest);
    }
  }

  lemma NumberRoundTrip(number: uint32, rest: seq<byte>)
    ensures DecodeNumber(U32(number) + rest) == Ok(Number(number), rest)
    ensures DecodeUint32(U32(number) + rest, 4) == Ok(Number(number), rest)
  {
    hide U32, ReadU32;
    ReadBack32(number, rest);
  }

  lemma SmallValueRoundTrip(v: Value, opt: EncodeOptions, rest: seq<byte>)
    requires ValueWritable(v)
    ensures v.Origin? ==> DecodeOrigin(Body(v, opt) + rest, 1) == Ok(v, rest)
    ensures v.NextHop? && v.nextHop.V4? && ProperAddress(v.nextHop) ==> DecodeNextHop(Body(v, opt) + rest) == Ok(v, rest)
    ensures v.AggregatedBy? ==> DecodeAggregator(Body(v, opt) + rest, 6) == Ok(v, rest)
    ensures v.Unknown? && |v.bytes| < 0x1_0000 ==> DecodeUnknown(Body(v, opt) + rest, |v.bytes|) == Ok(v, rest)
  {
    hide U16, U32, ReadU16, ReadU32, ReadFull;
    match v {
      case Origin(origin) => assert ([origin] + rest)[1..] == rest;
      case NextHop(nextHop) => ReadBackFull(nextHop.bytes, rest);
      case AggregatedBy(a) =>
        assert U16(a.asn) + U32(a.address) + rest == U16(a.asn) + (U32(a.address) + rest);
        ReadBack16(a.asn, U32(a.address) + rest);
        ReadBack32(a.address, rest);
      case Unknown(bytes) => ReadBackFull(bytes, rest);
      case _ =>
    }
  }

  /** A list of NLRIs in a buffer of its own comes back exactly when it is proper. */
  lemma ListRoundTrip(ns: seq<Nlris.Nlri>, afi: uint16, safi: byte, addPath: bool)
    requires Nlris.AllWritable(ns) && |Nlris.SerializeAll(ns, addPath, safi)| < 0x1_0000
    ensures var field := Nlris.SerializeAll(ns, addPath, safi);
            var list := Nlris.DecodeAll(field + [], 0, |field|, afi, safi, addPath);
            && (Nlris.AllProper(ns, afi, safi, addPath) <==>
                list.Ok? && list.value == Nlris.ArrivingAll(ns, addPath, safi))
  {
    hide Nlris.AllProper, Nlris.AllWritable, Nlris.SerializeAll, Nlris.DecodeAll, Nlris.ArrivingAll;
    var field := Nlris.SerializeAll(ns, addPath, safi);
    if Nlris.AllProper(ns, afi, safi, addPath) {
      Nlris.ListRoundTrip(ns, [], 0, |field|, afi, safi, addPath);
    }
    if Nlris.ComesBack(ns, [], 0, |field|, afi, safi, addPath) {
      Nlris.ListWasProper(ns, [], 0, |field|, afi, safi, addPath);
    }
  }

  lemma MultiprotocolRoundTrip(v: Value, enc: EncodeOptions, dec: DecodeOptions, rest: seq<byte>)
    requires ValueWritable(v) && Matching(v, enc, dec) && |Body(v, enc)| < 0x1_0000
    requires v.Reach? ==> ProperAddress(v.via)
    ensures v.Reach? ==>
              var r := DecodeReach(Body(v, enc) + rest, |Body(v, enc)|, dec);
              && (Nlris.AllProper(v.reachable, v.afi, v.safi, enc.useAddPath) ==>
                    r == Ok(ArrivingValue(v, enc.useAddPath), rest))
              && (r.Ok? && r.value == ArrivingValue(v, enc.useAddPath) ==>
                    Nlris.AllProper(v.reachable, v.afi, v.safi, enc.useAddPath))
    ensures v.Unreach? ==>
              var r := DecodeUnreach(Body(v, enc) + rest, |Body(v, enc)|, dec);
              && (Nlris.AllProper(v.unreachable, v.afi, v.safi, enc.useAddPath) ==>
                    r == Ok(ArrivingValue(v, enc.useAddPath), rest))
              && (r.Ok? && r.value == ArrivingValue(v, enc.useAddPath) ==>
                    Nlris.AllProper(v.unreachable, v.afi, v.safi, enc.useAddPath))
  {
    hide DeserializeReach, DeserializeUnreach, Nlris.AllProper, Nlris.AllWritable,
      Nlris.SerializeAll, Nlris.DecodeAll, DecodeOptions.AddPath, Nlris.ArrivingAll, U16;
    ReadBackFull(Body(v, enc), rest);
    if v.Reach? {
      ReachReadBack(v, enc.useAddPath, dec);
      ListRoundTrip(v.reachable, v.afi, v.safi, enc.useAddPath);
    } else if v.Unreach? {
      UnreachReadBack(v, enc.useAddPath, dec);
      ListRoundTrip(v.unreachable, v.afi, v.safi, enc.useAddPath);
    }
  }

  lemma ASPathRoundTrip(segments: seq<Segment>, use32BitASN: bool, rest: seq<byte>)
    requires |Segments(segments, use32BitASN)| < 0x1_0000
    ensures var r := DecodeASPath(Segments(segments, use32BitASN) + rest, |Segments(segments, use32BitASN)|, use32BitASN);
            && (ProperSegments(segments, use32BitASN) ==> r == Ok(ASPath(segments), rest))
            && (r.Ok? && r.value == ASPath(segments) ==> ProperSegments(segments, use32BitASN))
  {
    hide Segments, DecodeSegments, ProperSegments;
    var body := Segments(segments, use32BitASN);
    if ProperSegments(segments, use32BitASN) {
      SegmentsRoundTrip(segments, use32BitASN, rest, 0, |body|);
    }
    if DecodeSegments(body + rest, 0, |body|, use32BitASN).Ok? {
      SegmentsAreProper(body + rest, 0, |body|, use32BitASN);
    }
  }

  /** The length field can say how long the body is, and does. */
  predicate LengthFits(pa: PathAttribute, n: nat) {
    (SentFlags(pa, n).extendedLength || n < 0x100) && (pa.typeCode == NEXT_HOP ==> n == 4)
  }

  /** A body read under its own length brings the value back exactly when the value is proper. */
  lemma ValueRoundTrip(pa: PathAttribute, enc: EncodeOptions, dec: DecodeOptions, rest: seq<byte>)
    requires WellTyped(pa) && Matching(pa.value, enc, dec) && !WritesNothing(pa) && |Body(pa.value, enc)| < 0x1_0000
    requires LengthFits(pa, |Body(pa.value, enc)|)
    ensures var r := DecodeValue(Body(pa.value, enc) + rest, pa.typeCode, |Body(pa.value, enc)|, dec);
            && (Proper(pa, enc) ==> r == Ok(ArrivingValue(pa.value, enc.useAddPath), rest))
            && (r.Ok? && r.value == ArrivingValue(pa.value, enc.useAddPath) ==> Proper(pa, enc))
  {
    hide DecodeOrigin, DecodeNextHop, DecodeAggregator, DecodeNumber, DecodeNumbers, DecodeUint32,
      DecodeLargeCommunities, DecodeReach, DecodeUnreach, DecodeASPath, Segments, ReachBytes, UnreachBytes, U16, U32, U32s,
      LargeBytes, Nlris.AllProper, Nlris.AllWritable, Nlris.ArrivingAll, ProperSegments, DecodeOptions.AddPath;
    var v := pa.value;
    SmallValueRoundTrip(v, enc, rest);
    ListValueRoundTrip(v, enc, rest);
    MultiprotocolRoundTrip(v, enc, dec, rest);
    match v {
      case Number(number) => NumberRoundTrip(number, rest);
      case Nothing => assert [] + rest == rest;
      case ASPath(segments) => ASPathRoundTrip(segments, enc.use32BitASN, rest);
      case _ =>
    }
  }

  lemma ProperFits(pa: PathAttribute, opt: EncodeOptions)
    requires WellTyped(pa) && Proper(pa, opt) && |Body(pa.value, opt)| < 0x1_0000
    ensures LengthFits(pa, |Body(pa.value, opt)|)
  {
    hide Segments, ReachBytes, UnreachBytes, U32, U16, Nlris.AllProper, Nlris.AllWritable, ProperSegments;
  }

  /** Reading a framed body comes down to reading a value under the length that was written. */
  lemma FramedReadBack(f: Flags, typeCode: byte, length: uint16, body: seq<byte>, rest: seq<byte>, dec: DecodeOptions)
    ensures var read := if f.extendedLength then length else length % 0x100;
            var value := DecodeValue(body + rest, typeCode, read, dec);
            Decode(Framed(f, typeCode, length, body) + rest, dec) ==
            if value.Err? then Err
            else Ok((PathAttribute(f, typeCode, read, value.value),
                     AddU16(if f.extendedLength then 4 else 3, read)), value.rest)
  {
    hide FlagsByte, DecodeFlags, LengthBytes, DecodeLength, DecodeValue;
    var buf := Framed(f, typeCode, length, body) + rest;
    var buf2 := LengthBytes(length, f.extendedLength) + (body + rest);
    assert buf[1..] == [typeCode] + buf2 && buf[1..][1..] == buf2;
    FlagsRoundTrip(f);
    LengthReadBack(length, f.extendedLength, body + rest);
  }

  /** An attribute comes back, with the flags and the length it was sent with and leaving what
      follows it, exactly when it is proper. */
  lemma RoundTrip(pa: PathAttribute, enc: EncodeOptions, dec: DecodeOptions, rest: seq<byte>)
    requires WellTyped(pa) && Matching(pa.value, enc, dec) && !WritesNothing(pa) && |Serialize(pa, enc)| < 0x1_0000
    ensures var r := Decode(Serialize(pa, enc) + rest, dec);
            && (Proper(pa, enc) ==> r == Ok((Arriving(pa, enc), |Serialize(pa, enc)|), rest))
            && (r.Ok? && r.value.0 == Arriving(pa, enc) ==> Proper(pa, enc))
  {
    hide Body, SentFlags, Proper, DecodeValue, ArrivingValue, Decode, FlagsByte, Matching;
    var body := Body(pa.value, enc);
    var n := if pa.typeCode == NEXT_HOP then 4 else |body|;
    FramedReadBack(SentFlags(pa, |body|), pa.typeCode, n, body, rest, dec);
    if Proper(pa, enc) {
      ProperFits(pa, enc);
    }
    if LengthFits(pa, |body|) {
      ValueRoundTrip(pa, enc, dec, rest);
    }
  }
}
