/** The packet code as it runs, on buffers: readers that consume a buffer step by step and writers
    that fill one, each doing what its specification on byte sequences says. */
module Packets {
  import opened Words
  import opened BGPTypes
  import opened Wire
  import opened Buffers
  import Nlris
  import PA = PathAttributes
  import Updates
  import Layouts

  // ---------------------------------------------------------------- reading NLRIs

  method DecodeLabelStackEntry(buf: Buffer) returns (r: Result<Nlris.Label>)
    modifies buf
    ensures Yields(Nlris.DecodeLabel(old(buf.data)), r, buf.data)
  {
    hide Value32;
    if buf.data == [] {
      return Failure;
    }
    var bytes := buf.Read(Nlris.BYTES_PER_LABEL);
    return Success(Value32([0] + bytes + Zeros(3 - |bytes|)));
  }

  ghost function Below(labels: seq<Nlris.Label>, todo: Decoded<Nlris.Stack>): (r: Decoded<Nlris.Stack>) {
    if todo.Err? then Err else Ok(todo.value.(labels := labels + todo.value.labels), todo.rest)
  }

  lemma BelowNone(todo: Decoded<Nlris.Stack>)
    ensures Below([], todo) == todo
  {
    if todo.Ok? {
      assert [] + todo.value.labels == todo.value.labels;
    }
  }

  lemma BelowOne(labels: seq<Nlris.Label>, l: Nlris.Label, todo: Decoded<Nlris.Stack>)
    ensures Below(labels, Below([l], todo)) == Below(labels + [l], todo)
  {
    if todo.Ok? {
      assert labels + ([l] + todo.value.labels) == labels + [l] + todo.value.labels;
    }
  }

  method DecodeLabelStack(buf: Buffer, announced: byte, before: byte) returns (r: Result<Nlris.Stack>)
    modifies buf
    ensures Yields(Nlris.DecodeLabels(old(buf.data), announced, before), r, buf.data)
  {
    hide Nlris.DecodeLabel, SubU8, AddU8;
    var labels, pfxLen, consumed, bottom := [], announced, before, false;
    BelowNone(Nlris.DecodeLabels(buf.data, announced, before));
    while !bottom
      invariant Nlris.DecodeLabels(old(buf.data), announced, before) ==
                if bottom then Ok(Nlris.Stack(labels, pfxLen, consumed), buf.data)
                else Below(labels, Nlris.DecodeLabels(buf.data, pfxLen, consumed))
      decreases !bottom, |buf.data|
    {
      var l :- DecodeLabelStackEntry(buf);
      consumed := AddU8(consumed, Nlris.BYTES_PER_LABEL);
      pfxLen := SubU8(pfxLen, Nlris.BITS_PER_LABEL);
      BelowOne(labels, l, Nlris.DecodeLabels(buf.data, pfxLen, consumed));
      labels := labels + [l];
      bottom := Nlris.IsBottomOfStack(l);
    }
    return Success(Nlris.Stack(labels, pfxLen, consumed));
  }

  method DecodeNLRI(buf: Buffer, afi: uint16, safi: byte, addPath: bool) returns (r: Result<(Nlris.Nlri, byte)>)
    modifies buf
    ensures Yields(Nlris.Decode(old(buf.data), afi, safi, addPath), r, buf.data)
  {
    hide ReadU32, Nlris.DecodeLabels, DeserializePrefix, AddU8;
    var pathIdentifier: uint32, consumed: byte := 0, 0;
    if addPath {
      pathIdentifier :- buf.DecodeUint32();
      consumed := 4;
    }
    var pfxLen :- buf.ReadByte();
    consumed := consumed + 1;
    var stack := Nlris.Stack([], pfxLen, consumed);
    if Nlris.Labeled(safi) {
      stack :- DecodeLabelStack(buf, pfxLen, consumed);
    }
    var numBytes := BytesInAddr(stack.pfxLen);
    var bytes := buf.Read(numBytes);
    if |bytes| < numBytes {
      return Failure;
    }
    var prefix := DeserializePrefix(bytes, stack.pfxLen, afi);
    if prefix.Err? {
      return Failure;
    }
    return Success((Nlris.Nlri(pathIdentifier, stack.labels, prefix.value), AddU8(stack.consumed, |bytes|)));
  }

  method DecodeNLRIs(buf: Buffer, length: uint16, afi: uint16, safi: byte, addPath: bool)
    returns (r: Result<seq<Nlris.Nlri>>)
    modifies buf
    ensures Yields(Nlris.DecodeAll(old(buf.data), 0, length, afi, safi, addPath), r, buf.data)
  {
    hide Nlris.Decode, AddU16;
    var list: seq<Nlris.Nlri>, p: uint16 := [], 0;
    PrependNone(Nlris.DecodeAll(buf.data, 0, length, afi, safi, addPath));
    while p < length
      invariant Nlris.DecodeAll(old(buf.data), 0, length, afi, safi, addPath) ==
                Prepend(list, Nlris.DecodeAll(buf.data, p, length, afi, safi, addPath))
      decreases |buf.data|
    {
      var nlri :- DecodeNLRI(buf, afi, safi, addPath);
      p := AddU16(p, nlri.1);
      PrependOne(list, nlri.0, Nlris.DecodeAll(buf.data, p, length, afi, safi, addPath));
      list := list + [nlri.0];
    }
    assert list + [] == list;
    return Success(list);
  }

  // ---------------------------------------------------------------- writing NLRIs

  method SerializeLabelStack(buf: Buffer, ls: seq<Nlris.Label>, before: byte) returns (numBytes: byte)
    modifies buf
    ensures buf.data == old(buf.data) + Nlris.SerializeLabels(ls)
    ensures numBytes == Nlris.Counted(before, |ls|)
  {
    hide Nlris.LabelBytes, AddU8;
    numBytes := before;
    assert ls[0..] == ls;
    for i := 0 to |ls|
      invariant buf.data + Nlris.SerializeLabels(ls[i..]) == old(buf.data) + Nlris.SerializeLabels(ls)
      invariant Nlris.Counted(numBytes, |ls| - i) == Nlris.Counted(before, |ls|)
    {
      assert ls[i..][1..] == ls[i + 1..];
      buf.Write(Nlris.LabelBytes(if i == |ls| - 1 then Nlris.Bottom(ls[i]) else ls[i]));
      numBytes := AddU8(numBytes, Nlris.BYTES_PER_LABEL);
    }
  }

  lemma AnnouncedInOneStep(len: byte, n: nat)
    ensures AddU8(len, n * Nlris.BITS_PER_LABEL % 0x100) == Nlris.Announced(len, n)
  {
    hide Nlris.Announced;
    Nlris.AnnouncedIsSum(len, n);
    Nlris.AddU8Wraps(n * Nlris.BITS_PER_LABEL, len);
  }

  method SerializeNLRI(buf: Buffer, n: Nlris.Nlri, addPath: bool, safi: byte) returns (numBytes: byte)
    requires Writable(n.prefix)
    modifies buf
    ensures buf.data == old(buf.data) + Nlris.Serialize(n, addPath, safi)
    ensures numBytes == Nlris.Took(n, addPath, safi)
  {
    hide U32, Nlris.SerializeLabels, AddU8, Nlris.Announced, Nlris.Counted, PrefixBytes;
    numBytes := 0;
    if addPath {
      buf.Write(U32(n.pathIdentifier));
      numBytes := 4;
    }
    var pfxLen := n.prefix.len;
    if Nlris.Labeled(safi) {
      pfxLen := AddU8(pfxLen, |n.labelStack| * Nlris.BITS_PER_LABEL % 0x100);
      AnnouncedInOneStep(n.prefix.len, |n.labelStack|);
    }
    buf.Write([pfxLen]);
    numBytes := numBytes + 1;
    if Nlris.Labeled(safi) {
      numBytes := SerializeLabelStack(buf, n.labelStack, numBytes);
    }
    buf.Write(PrefixBytes(n.prefix));
    numBytes := AddU8(numBytes, BytesInAddr(n.prefix.len));
  }

  /** Writes NLRIs until the budget is spent. The counters never say more than was written, so a
      budget that is overdrawn would not have held the list. */
  method SerializeNLRIs(buf: Buffer, ns: seq<Nlris.Nlri>, addPath: bool, safi: byte, before: int) returns (budget: int)
    requires Nlris.AllWritable(ns) && before >= 0
    modifies buf
    ensures budget >= before - |Nlris.SerializeAll(ns, addPath, safi)|
    ensures budget >= 0 ==> buf.data == old(buf.data) + Nlris.SerializeAll(ns, addPath, safi)
  {
    hide Nlris.Serialize, Nlris.Took;
    budget := before;
    assert ns[0..] == ns;
    for i := 0 to |ns|
      invariant budget >= 0
      invariant buf.data + Nlris.SerializeAll(ns[i..], addPath, safi) ==
                old(buf.data) + Nlris.SerializeAll(ns, addPath, safi)
      invariant budget - |Nlris.SerializeAll(ns[i..], addPath, safi)| >= before - |Nlris.SerializeAll(ns, addPath, safi)|
    {
      assert ns[i..][1..] == ns[i + 1..];
      var n := SerializeNLRI(buf, ns[i], addPath, safi);
      budget := budget - n;
      if budget < 0 {
        return;
      }
    }
  }

  // ---------------------------------------------------------------- reading path attributes

  method DumpNBytes(buf: Buffer, n: uint16) returns (r: Result<()>)
    modifies buf
    ensures Yields(PA.Dump((), old(buf.data), n), r, buf.data)
  {
    for i := 0 to n
      invariant i <= |old(buf.data)| && buf.data == old(buf.data)[i..]
    {
      var _ :- buf.ReadByte();
    }
    return Success(());
  }

  method DecodeOrigin(buf: Buffer, length: uint16) returns (r: Result<PA.Value>)
    modifies buf
    ensures Yields(PA.DecodeOrigin(old(buf.data), length), r, buf.data)
  {
    var origin :- buf.ReadByte();
    var _ :- DumpNBytes(buf, SubU16(length, 1));
    return Success(PA.Origin(origin));
  }

  method DecodeAggregator(buf: Buffer, length: uint16) returns (r: Result<PA.Value>)
    modifies buf
    ensures Yields(PA.DecodeAggregator(old(buf.data), length), r, buf.data)
  {
    hide ReadU16, ReadU32;
    var asn :- buf.DecodeUint16();
    var address :- buf.DecodeUint32();
    var _ :- DumpNBytes(buf, SubU16(length, 6));
    return Success(PA.AggregatedBy(Aggregator(address, asn)));
  }

  method DecodeUint32(buf: Buffer, length: uint16) returns (r: Result<PA.Value>)
    modifies buf
    ensures Yields(PA.DecodeUint32(old(buf.data), length), r, buf.data)
  {
    hide ReadU32;
    var v :- buf.DecodeUint32();
    var _ :- DumpNBytes(buf, SubU16(length, 4));
    return Success(PA.Number(v));
  }

  method DecodeASN(buf: Buffer, use32BitASN: bool) returns (r: Result<uint32>)
    modifies buf
    ensures Yields(PA.DecodeASN(old(buf.data), use32BitASN), r, buf.data)
  {
    hide ReadU16, ReadU32;
    if use32BitASN {
      r := buf.DecodeUint32();
    } else {
      var asn :- buf.DecodeUint16();
      r := Success(asn);
    }
  }

  lemma AddsUp(a: uint16, b: uint16, c: uint16)
    requires b + c < 0x1_0000
    ensures AddU16(AddU16(a, b), c) == AddU16(a, b + c)
    ensures AddU16(a, 0) == a
  {
  }

  /** The AS numbers of a segment, and the counter advanced over them. */
  method DecodeASNs(buf: Buffer, count: byte, use32BitASN: bool, before: uint16) returns (r: Result<seq<uint32>>, p: uint16)
    modifies buf
    ensures Yields(PA.DecodeASNs(old(buf.data), count, use32BitASN), r, buf.data)
    ensures r.Success? ==> p == AddU16(before, PA.ASNLength(use32BitASN) * count)
  {
    hide PA.DecodeASN, AddU16;
    p := before;
    AddsUp(before, 0, 0);
    var asns: seq<uint32> := [];
    PrependNone(PA.DecodeASNs(buf.data, count, use32BitASN));
    for i := 0 to count
      invariant PA.DecodeASNs(old(buf.data), count, use32BitASN) ==
                Prepend(asns, PA.DecodeASNs(buf.data, count - i, use32BitASN))
      invariant p == AddU16(before, PA.ASNLength(use32BitASN) * i)
    {
      var asn := DecodeASN(buf, use32BitASN);
      if asn.Failure? {
        return Failure, p;
      }
      AddsUp(before, PA.ASNLength(use32BitASN) * i, PA.ASNLength(use32BitASN));
      p := AddU16(p, PA.ASNLength(use32BitASN));
      PrependOne(asns, asn.value, PA.DecodeASNs(buf.data, count - i - 1, use32BitASN));
      asns := asns + [asn.value];
    }
    assert asns + [] == asns;
    r := Success(asns);
  }

  method DecodeASPath(buf: Buffer, length: uint16, use32BitASN: bool) returns (r: Result<PA.Value>)
    modifies buf
    ensures Yields(PA.DecodeASPath(old(buf.data), length, use32BitASN), r, buf.data)
  {
    hide PA.DecodeASNs, AddU16;
    var segments: seq<Segment>, p: uint16 := [], 0;
    PrependNone(PA.DecodeSegments(buf.data, 0, length, use32BitASN));
    while p < length
      invariant PA.DecodeSegments(old(buf.data), 0, length, use32BitASN) ==
                Prepend(segments, PA.DecodeSegments(buf.data, p, length, use32BitASN))
      decreases |buf.data|
    {
      ghost var before := p;
      var kind :- buf.ReadByte();
      var count :- buf.ReadByte();
      p := AddU16(p, 2);
      if (kind != PA.AS_SET && kind != PA.AS_SEQUENCE) || count == 0 {
        return Failure;
      }
      var asns;
      asns, p := DecodeASNs(buf, count, use32BitASN, p);
      if asns.Failure? {
        return Failure;
      }
      AddsUp(before, 2, PA.ASNLength(use32BitASN) * count);
      PrependOne(segments, Segment(kind, asns.value), PA.DecodeSegments(buf.data, p, length, use32BitASN));
      segments := segments + [Segment(kind, asns.value)];
    }
    assert segments + [] == segments;
    return Success(PA.ASPath(segments));
  }

  method DecodeCommunities(buf: Buffer, length: uint16) returns (r: Result<PA.Value>)
    modifies buf
    ensures Yields(PA.DecodeNumbers(old(buf.data), length), r, buf.data)
  {
    hide ReadU32s;
    if length % 4 != 0 {
      return Failure;
    }
    var numbers :- buf.DecodeUint32s(length / 4);
    return Success(PA.Numbers(numbers));
  }

  method DecodeLargeCommunities(buf: Buffer, length: uint16) returns (r: Result<PA.Value>)
    modifies buf
    ensures Yields(PA.DecodeLargeCommunities(old(buf.data), length), r, buf.data)
  {
    hide ReadU32;
    if length % 12 != 0 {
      return Failure;
    }
    var count := length / 12;
    var coms: seq<LargeCommunity> := [];
    PrependNone(PA.DecodeLarge(buf.data, count));
    for i := 0 to count
      invariant PA.DecodeLarge(old(buf.data), count) == Prepend(coms, PA.DecodeLarge(buf.data, count - i))
    {
      var a :- buf.DecodeUint32();
      var b :- buf.DecodeUint32();
      var c :- buf.DecodeUint32();
      PrependOne(coms, LargeCommunity(a, b, c), PA.DecodeLarge(buf.data, count - i - 1));
      coms := coms + [LargeCommunity(a, b, c)];
    }
    assert coms + [] == coms;
    return Success(PA.LargeCommunities(coms));
  }

  method DeserializeReach(b: seq<byte>, opt: PA.DecodeOptions) returns (r: Result<PA.Value>)
    ensures Yields(PA.DeserializeReach(b, opt), r, [])
  {
    hide Value16, Nlris.DecodeAll;
    if |b| <= 4 {
      return Failure;
    }
    var afi, safi, nextHopLength, variable := Value16(b[..2]), b[2], b[3], b[4..];
    var budget := |variable|;
    if budget < nextHopLength {
      return Failure;
    }
    var firstNextHopLength := if nextHopLength == 32 then 16 else nextHopLength;
    var nextHop := IPFromBytes(variable[..firstNextHopLength]);
    if nextHop.Err? {
      return Failure;
    }
    budget := budget - nextHopLength;
    if budget == 0 {
      return Success(PA.Reach(afi, safi, nextHop.value, []));
    }
    variable := variable[1 + nextHopLength..];
    var buf := new Buffer(variable);
    var nlris :- DecodeNLRIs(buf, |variable| % 0x1_0000, afi, safi, opt.AddPath(afi, safi));
    return Success(PA.Reach(afi, safi, nextHop.value, nlris));
  }

  method DeserializeUnreach(b: seq<byte>, opt: PA.DecodeOptions) returns (r: Result<PA.Value>)
    ensures Yields(PA.DeserializeUnreach(b, opt), r, [])
  {
    hide Value16;
    if |b| < 3 {
      return Failure;
    }
    var afi, safi, field := Value16(b[..2]), b[2], b[3..];
    if field == [] {
      return Success(PA.Unreach(afi, safi, []));
    }
    var buf := new Buffer(field);
    var nlris :- DecodeNLRIs(buf, |field| % 0x1_0000, afi, safi, opt.AddPath(afi, safi));
    return Success(PA.Unreach(afi, safi, nlris));
  }

  method DecodeBytes(buf: Buffer, t: byte, length: uint16, opt: PA.DecodeOptions) returns (r: Result<PA.Value>)
    modifies buf
    ensures Yields(if t == PA.MP_REACH_NLRI then PA.DecodeReach(old(buf.data), length, opt)
                   else if t == PA.MP_UNREACH_NLRI then PA.DecodeUnreach(old(buf.data), length, opt)
                   else PA.DecodeUnknown(old(buf.data), length), r, buf.data)
  {
    hide ReadFull, PA.DeserializeReach, PA.DeserializeUnreach;
    var b :- buf.ReadFull(length);
    if t == PA.MP_REACH_NLRI {
      r := DeserializeReach(b, opt);
    } else if t == PA.MP_UNREACH_NLRI {
      r := DeserializeUnreach(b, opt);
    } else {
      r := Success(PA.Unknown(b));
    }
  }

  method DecodeValue(buf: Buffer, t: byte, length: uint16, opt: PA.DecodeOptions) returns (r: Result<PA.Value>)
    modifies buf
    ensures Yields(PA.DecodeValue(old(buf.data), t, length, opt), r, buf.data)
  {
    hide PA.DecodeOrigin, PA.DecodeASPath, PA.DecodeAggregator, PA.DecodeNumbers, PA.DecodeUint32, PA.DecodeReach,
      PA.DecodeUnreach, PA.DecodeLargeCommunities, PA.DecodeUnknown, ReadU32, ReadFull;
    if t == PA.ORIGIN {
      r := DecodeOrigin(buf, length);
    } else if t == PA.AS_PATH {
      r := DecodeASPath(buf, length, opt.use32BitASN);
    } else if t == PA.NEXT_HOP {
      var nextHop :- buf.ReadFull(4);
      r := Success(PA.NextHop(V4(nextHop)));
    } else if t == PA.MED || t == PA.LOCAL_PREF {
      var number :- buf.DecodeUint32();
      r := Success(PA.Number(number));
    } else if t == PA.AGGREGATOR {
      r := DecodeAggregator(buf, length);
    } else if t == PA.ATOMIC_AGGREGATE {
      r := Success(PA.Nothing);
    } else if t == PA.COMMUNITIES || t == PA.CLUSTER_LIST {
      r := DecodeCommunities(buf, length);
    } else if t == PA.ORIGINATOR_ID || t == PA.AS4_AGGREGATOR {
      r := DecodeUint32(buf, length);
    } else if t == PA.LARGE_COMMUNITIES {
      r := DecodeLargeCommunities(buf, length);
    } else {
      r := DecodeBytes(buf, t, length, opt);
    }
  }

  method SetLength(buf: Buffer, extendedLength: bool) returns (r: Result<uint16>)
    modifies buf
    ensures Yields(PA.DecodeLength(old(buf.data), extendedLength), r, buf.data)
  {
    hide ReadU16;
    if extendedLength {
      r := buf.DecodeUint16();
    } else {
      var x :- buf.ReadByte();
      r := Success(x);
    }
  }

  method DecodePathAttr(buf: Buffer, opt: PA.DecodeOptions) returns (r: Result<(PA.PathAttribute, uint16)>)
    modifies buf
    ensures Yields(PA.Decode(old(buf.data), opt), r, buf.data)
  {
    hide PA.DecodeFlags, PA.DecodeValue, PA.DecodeLength, AddU16;
    var x :- buf.ReadByte();
    var flags := PA.DecodeFlags(x);
    var typeCode :- buf.ReadByte();
    var length :- SetLength(buf, flags.extendedLength);
    var consumed: uint16 := if flags.extendedLength then 4 else 3;
    var value :- DecodeValue(buf, typeCode, length, opt);
    return Success((PA.PathAttribute(flags, typeCode, length, value), AddU16(consumed, length)));
  }

  lemma HasOneMore(pas: seq<PA.PathAttribute>, pa: PA.PathAttribute, t: byte)
    ensures Updates.Has(pas + [pa], t) <==> Updates.Has(pas, t) || pa.typeCode == t
  {
    if Updates.Has(pas, t) {
      var i :| 0 <= i < |pas| && pas[i].typeCode == t;
      assert (pas + [pa])[i].typeCode == t;
    } else if pa.typeCode == t {
      assert (pas + [pa])[|pas|].typeCode == t;
    }
  }

  lemma NoneHas()
    ensures forall t: byte :: !Updates.Has([], t)
  {
  }

  method DecodePathAttrs(buf: Buffer, tpal: uint16, opt: PA.DecodeOptions) returns (r: Result<seq<PA.PathAttribute>>)
    modifies buf
    ensures Yields(Updates.DecodePathAttributes(old(buf.data), tpal, opt), r, buf.data)
  {
    hide PA.Decode, AddU16, Updates.Has;
    var list: seq<PA.PathAttribute>, p: uint16 := [], 0;
    var haveNextHop, haveOrigin, haveASPath := false, false, false;
    NoneHas();
    PrependNone(Updates.DecodeAttributes(buf.data, 0, tpal, opt));
    while p < tpal
      invariant Updates.DecodeAttributes(old(buf.data), 0, tpal, opt) ==
                Prepend(list, Updates.DecodeAttributes(buf.data, p, tpal, opt))
      invariant haveNextHop == (Updates.Has(list, PA.NEXT_HOP) || Updates.Has(list, PA.MP_REACH_NLRI))
      invariant haveOrigin == Updates.Has(list, PA.ORIGIN) && haveASPath == Updates.Has(list, PA.AS_PATH)
      decreases |buf.data|
    {
      var pa :- DecodePathAttr(buf, opt);
      p := AddU16(p, pa.1);
      haveASPath := haveASPath || pa.0.typeCode == PA.AS_PATH;
      haveOrigin := haveOrigin || pa.0.typeCode == PA.ORIGIN;
      haveNextHop := haveNextHop || pa.0.typeCode == PA.NEXT_HOP || pa.0.typeCode == PA.MP_REACH_NLRI;
      HasOneMore(list, pa.0, PA.NEXT_HOP);
      HasOneMore(list, pa.0, PA.MP_REACH_NLRI);
      HasOneMore(list, pa.0, PA.ORIGIN);
      HasOneMore(list, pa.0, PA.AS_PATH);
      PrependOne(list, pa.0, Updates.DecodeAttributes(buf.data, p, tpal, opt));
      list := list + [pa.0];
    }
    assert list + [] == list;
    if haveNextHop || haveOrigin || haveASPath {
      if !haveNextHop || !haveOrigin || !haveASPath {
        return Failure;
      }
    }
    return Success(list);
  }

  // ---------------------------------------------------------------- reading messages

  method DecodeHeader(buf: Buffer) returns (r: Result<Updates.Header>, error: (byte, byte))
    modifies buf
    ensures Yields(Updates.DecodeHeader(old(buf.data)), r, buf.data)
    ensures r.Failure? ==> error == Updates.HeaderError(old(buf.data))
  {
    error := (Updates.CEASE, 0);
    for i := 0 to Updates.MARKER_LEN
      invariant i <= |old(buf.data)| && buf.data == old(buf.data)[i..]
      invariant forall j :: 0 <= j < i ==> old(buf.data)[j] == 0xff
    {
      var b :- buf.ReadByte();
      if b != 0xff {
        assert old(buf.data)[i] == b;
        return Failure, (Updates.MESSAGE_HEADER_ERROR, Updates.CONNECTION_NOT_SYNC);
      }
    }
    var length :- buf.DecodeUint16();
    var typeCode :- buf.ReadByte();
    assert old(buf.data)[16..][..2] == old(buf.data)[16..18];
    if length < Updates.MIN_LEN || length > Updates.MAX_LEN {
      return Failure, (Updates.MESSAGE_HEADER_ERROR, Updates.BAD_MESSAGE_LENGTH);
    }
    if typeCode > Updates.KEEPALIVE || typeCode == 0 {
      return Failure, (Updates.MESSAGE_HEADER_ERROR, Updates.BAD_MESSAGE_TYPE);
    }
    r := Success(Updates.Header(length, typeCode));
  }

  method DecodeUpdateMsg(buf: Buffer, l: uint16, opt: PA.DecodeOptions) returns (r: Result<Updates.Update>)
    modifies buf
    ensures Yields(Updates.DecodeUpdate(old(buf.data), l, opt), r, buf.data)
  {
    hide ReadU16, Updates.DecodePathAttributes;
    var withdrawnLen :- buf.DecodeUint16();
    var withdrawn :- DecodeNLRIs(buf, withdrawnLen, AFI_IPV4, Nlris.SAFI_UNICAST, opt.addPathIPv4Unicast);
    var attributesLen :- buf.DecodeUint16();
    var attributes :- DecodePathAttrs(buf, attributesLen, opt);
    var nlriLen := SubU16(SubU16(SubU16(l, 4), attributesLen), withdrawnLen);
    var nlri: seq<Nlris.Nlri> := [];
    if nlriLen > 0 {
      nlri :- DecodeNLRIs(buf, nlriLen, AFI_IPV4, Nlris.SAFI_UNICAST, opt.addPathIPv4Unicast);
    }
    return Success(Updates.Update(withdrawnLen, withdrawn, attributesLen, attributes, nlri, 0));
  }

  method Decode(buf: Buffer, opt: PA.DecodeOptions) returns (r: Result<Updates.Message>)
    modifies buf
    ensures Yields(Updates.Decode(old(buf.data), opt), r, buf.data)
    ensures r.Success? ==> |old(buf.data)| >= 19 && (r.value.UpdateMessage? <==> old(buf.data)[18] == 2)
  {
    hide Updates.DecodeHeader, Updates.DecodeUpdate;
    Layouts.HeaderReadIff(buf.data);
    var header, _ :- DecodeHeader(buf);
    if header.typeCode != Updates.UPDATE {
      return Success(Updates.OtherMessage(header));
    }
    var update :- DecodeUpdateMsg(buf, header.length - Updates.MIN_LEN, opt);
    return Success(Updates.UpdateMessage(header, update));
  }

  // ---------------------------------------------------------------- writing path attributes

  /** What a serializer says it wrote, for a body of n bytes: not always what it wrote. */
  function Reported(t: byte, n: nat): (r: uint16) {
    if t == PA.NEXT_HOP then 7
    else if t == PA.COMMUNITIES || t == PA.LARGE_COMMUNITIES then
      (n % 0x1_0000 + (if n % 0x1_0000 > 255 then 4 else 3)) % 0x1_0000
    else if t == PA.CLUSTER_LIST then (n % 0x100 + 3) % 0x100
    else if t == PA.MP_REACH_NLRI || t == PA.MP_UNREACH_NLRI then (n + 2) % 0x1_0000
    else (n % 0x1_0000 + 3) % 0x1_0000
  }

  lemma RemainderBound(x: nat, m: nat)
    requires m > 0
    ensures x % m <= x
  {
    if x < m {
      assert x % m == x;
    }
  }

  lemma ReportedBound(pa: PA.PathAttribute, n: nat)
    requires pa.typeCode == PA.NEXT_HOP ==> n >= 4
    ensures Reported(pa.typeCode, n) <= n + if PA.SentFlags(pa, n).extendedLength then 4 else 3
  {
    var t := pa.typeCode;
    RemainderBound(n % 0x1_0000, 0x1_0000);
    if t == PA.COMMUNITIES || t == PA.LARGE_COMMUNITIES {
      RemainderBound(n, 0x1_0000);
      RemainderBound(n % 0x1_0000 + (if n % 0x1_0000 > 255 then 4 else 3), 0x1_0000);
    } else if t == PA.CLUSTER_LIST {
      RemainderBound(n, 0x100);
      RemainderBound(n % 0x100 + 3, 0x100);
    } else if t == PA.MP_REACH_NLRI || t == PA.MP_UNREACH_NLRI {
      RemainderBound(n + 2, 0x1_0000);
    } else {
      RemainderBound(n, 0x1_0000);
      RemainderBound(n % 0x1_0000 + 3, 0x1_0000);
    }
  }

  lemma NextHopBody(v: PA.Value, opt: PA.EncodeOptions)
    ensures v.NextHop? ==> PA.Body(v, opt) == v.nextHop.bytes
  {
  }

  /** It never says more than it wrote. */
  lemma ReportsNoMore(pa: PA.PathAttribute, opt: PA.EncodeOptions)
    requires PA.WellTyped(pa) && !PA.WritesNothing(pa)
    ensures Reported(pa.typeCode, |PA.Body(pa.value, opt)|) <= |PA.Serialize(pa, opt)|
  {
    hide PA.FlagsByte, PA.Body, PA.SentFlags, Reported;
    NextHopBody(pa.value, opt);
    ReportedBound(pa, |PA.Body(pa.value, opt)|);
  }

  method WriteHead(buf: Buffer, f: PA.Flags, typeCode: byte, length: nat)
    modifies buf
    ensures buf.data == old(buf.data) + ([PA.FlagsByte(f), typeCode] + PA.LengthBytes(length, f.extendedLength))
  {
    hide PA.FlagsByte;
    buf.Write([PA.FlagsByte(f), typeCode]);
    if f.extendedLength {
      buf.Write([length / 0x100 % 0x100, length % 0x100]);
    } else {
      buf.Write([length % 0x100]);
    }
  }

  method SerializeASNs(buf: Buffer, asns: seq<uint32>, use32BitASN: bool)
    modifies buf
    ensures buf.data == old(buf.data) + PA.ASNs(asns, use32BitASN)
  {
    hide PA.ASN;
    assert asns[0..] == asns;
    for i := 0 to |asns|
      invariant buf.data + PA.ASNs(asns[i..], use32BitASN) == old(buf.data) + PA.ASNs(asns, use32BitASN)
    {
      assert asns[i..][1..] == asns[i + 1..];
      buf.Write(PA.ASN(asns[i], use32BitASN));
    }
  }

  function Wrapped16(n: nat): (r: uint16) {
    n % 0x1_0000
  }

  lemma NoWrap()
    ensures Wrapped16(0) == 0
  {
  }

  lemma WrapsOn(a: nat, b: nat)
    ensures Wrapped16(Wrapped16(a) + b) == Wrapped16(a + b)
  {
  }

  /** The length is counted in sixteen bits. */
  method SerializeSegments(buf: Buffer, segments: seq<Segment>, use32BitASN: bool) returns (length: uint16)
    modifies buf
    ensures buf.data == old(buf.data) + PA.Segments(segments, use32BitASN)
    ensures length == Wrapped16(|PA.Segments(segments, use32BitASN)|)
  {
    hide PA.ASNs, Wrapped16;
    NoWrap();
    length := 0;
    ghost var written: nat := 0;
    assert segments[0..] == segments;
    for i := 0 to |segments|
      invariant buf.data + PA.Segments(segments[i..], use32BitASN) == old(buf.data) + PA.Segments(segments, use32BitASN)
      invariant written + |PA.Segments(segments[i..], use32BitASN)| == |PA.Segments(segments, use32BitASN)|
      invariant length == Wrapped16(written)
    {
      assert segments[i..][1..] == segments[i + 1..];
      var asns := segments[i].asns;
      buf.Write([segments[i].kind, |asns| % 0x100]);
      SerializeASNs(buf, asns, use32BitASN);
      var n := 2 + PA.ASNLength(use32BitASN) * |asns|;
      WrapsOn(written, n);
      length := Wrapped16(length + n);
      written := written + n;
    }
  }

  lemma LowBytes(q: nat, r: uint16)
    ensures (0x1_0000 * q + r) % 0x100 == r % 0x100
    ensures (0x1_0000 * q + r) / 0x100 % 0x100 == r / 0x100 % 0x100
  {
    assert (0x1_0000 * q + r) / 0x100 == 0x100 * q + r / 0x100;
  }

  lemma LengthWraps(n: nat, extendedLength: bool)
    ensures PA.LengthBytes(n % 0x1_0000, extendedLength) == PA.LengthBytes(n, extendedLength)
  {
    LowBytes(n / 0x1_0000, n % 0x1_0000);
  }

  method SerializeASPath(buf: Buffer, pa: PA.PathAttribute, opt: PA.EncodeOptions) returns (n: uint16)
    requires PA.WellTyped(pa) && pa.typeCode == PA.AS_PATH
    modifies buf
    ensures buf.data == old(buf.data) + PA.Serialize(pa, opt)
    ensures n == Reported(pa.typeCode, |PA.Body(pa.value, opt)|)
  {
    hide PA.FlagsByte, PA.Segments;
    var segmentsBuf := new Buffer([]);
    var length := SerializeSegments(segmentsBuf, pa.value.segments, opt.use32BitASN);
    ghost var body := PA.Segments(pa.value.segments, opt.use32BitASN);
    LengthWraps(|body|, length > 255);
    WriteHead(buf, PA.Flags(false, true, false, length > 255), PA.AS_PATH, length);
    buf.Write(segmentsBuf.data);
    n := (length + 3) % 0x1_0000;
  }

  method SerializeLargeBytes(buf: Buffer, coms: seq<LargeCommunity>)
    modifies buf
    ensures buf.data == old(buf.data) + PA.LargeBytes(coms)
  {
    hide U32;
    assert coms[0..] == coms;
    for i := 0 to |coms|
      invariant buf.data + PA.LargeBytes(coms[i..]) == old(buf.data) + PA.LargeBytes(coms)
    {
      assert coms[i..][1..] == coms[i + 1..];
      buf.Write(U32(coms[i].globalAdministrator));
      buf.Write(U32(coms[i].dataPart1));
      buf.Write(U32(coms[i].dataPart2));
    }
  }

  /** Communities and large communities: an extended length costs one byte more. */
  method SerializeCommunities(buf: Buffer, pa: PA.PathAttribute, opt: PA.EncodeOptions) returns (n: uint16)
    requires PA.WellTyped(pa) && !PA.WritesNothing(pa)
    requires pa.typeCode == PA.COMMUNITIES || pa.typeCode == PA.LARGE_COMMUNITIES
    modifies buf
    ensures buf.data == old(buf.data) + PA.Serialize(pa, opt)
    ensures n == Reported(pa.typeCode, |PA.Body(pa.value, opt)|)
  {
    hide PA.FlagsByte, PA.LargeBytes, U32s;
    var size := if pa.value.Numbers? then 4 * |pa.value.numbers| else 12 * |pa.value.communities|;
    var length := size % 0x1_0000;
    LengthWraps(size, length > 255);
    WriteHead(buf, PA.Flags(true, true, true, length > 255), pa.typeCode, length);
    if pa.value.Numbers? {
      buf.WriteUint32s(pa.value.numbers);
    } else {
      SerializeLargeBytes(buf, pa.value.communities);
    }
    n := (length + if length > 255 then 4 else 3) % 0x1_0000;
  }

  /** The length of a cluster list is counted in eight bits. */
  method SerializeClusterList(buf: Buffer, pa: PA.PathAttribute, opt: PA.EncodeOptions) returns (n: uint16)
    requires PA.WellTyped(pa) && !PA.WritesNothing(pa) && pa.typeCode == PA.CLUSTER_LIST
    modifies buf
    ensures buf.data == old(buf.data) + PA.Serialize(pa, opt)
    ensures n == Reported(pa.typeCode, |PA.Body(pa.value, opt)|)
  {
    hide PA.FlagsByte, U32s;
    var length := 4 * |pa.value.numbers| % 0x100;
    buf.Write([PA.FlagsByte(PA.Flags(true, false, false, false)), PA.CLUSTER_LIST, length]);
    buf.WriteUint32s(pa.value.numbers);
    n := (length + 3) % 0x100;
  }

  method SerializeList(buf: Buffer, ns: seq<Nlris.Nlri>, addPath: bool, safi: byte)
    requires Nlris.AllWritable(ns)
    modifies buf
    ensures buf.data == old(buf.data) + Nlris.SerializeAll(ns, addPath, safi)
  {
    hide Nlris.Serialize, Nlris.Took;
    assert ns[0..] == ns;
    for i := 0 to |ns|
      invariant buf.data + Nlris.SerializeAll(ns[i..], addPath, safi) ==
                old(buf.data) + Nlris.SerializeAll(ns, addPath, safi)
    {
      assert ns[i..][1..] == ns[i + 1..];
      var _ := SerializeNLRI(buf, ns[i], addPath, safi);
    }
  }

  method SerializeReach(v: PA.Value, opt: PA.EncodeOptions) returns (b: seq<byte>)
    requires v.Reach? && Nlris.AllWritable(v.reachable)
    ensures b == PA.ReachBytes(v, opt.useAddPath)
  {
    hide U16, Nlris.SerializeAll;
    var buf := new Buffer([]);
    buf.Write(U16(v.afi));
    buf.Write([v.safi, |v.via.bytes| % 0x100]);
    buf.Write(v.via.bytes);
    buf.Write([0]);
    SerializeList(buf, v.reachable, opt.useAddPath, v.safi);
    b := buf.data;
  }

  method SerializeUnreach(v: PA.Value, opt: PA.EncodeOptions) returns (b: seq<byte>)
    requires v.Unreach? && Nlris.AllWritable(v.unreachable)
    ensures b == PA.UnreachBytes(v, opt.useAddPath)
  {
    hide U16, Nlris.SerializeAll;
    var buf := new Buffer([]);
    buf.Write(U16(v.afi));
    buf.Write([v.safi]);
    SerializeList(buf, v.unreachable, opt.useAddPath, v.safi);
    b := buf.data;
  }

  /** What serializing makes of the attribute itself: a multiprotocol one is flagged optional, and
      extended if it is long. */
  function Flagged(pa: PA.PathAttribute, opt: PA.EncodeOptions): (r: PA.PathAttribute)
    requires PA.WellTyped(pa)
  {
    if pa.typeCode != PA.MP_REACH_NLRI && pa.typeCode != PA.MP_UNREACH_NLRI then pa
    else
      var long := |PA.Body(pa.value, opt)| > 255;
      pa.(flags := pa.flags.(optional := true, extendedLength := pa.flags.extendedLength || long))
  }

  /** Serializing it again gives the same bytes and changes nothing more. */
  lemma SerializedAgain(pa: PA.PathAttribute, opt: PA.EncodeOptions)
    requires PA.WellTyped(pa)
    ensures PA.WellTyped(Flagged(pa, opt))
    ensures PA.Serialize(Flagged(pa, opt), opt) == PA.Serialize(pa, opt)
    ensures Flagged(Flagged(pa, opt), opt) == Flagged(pa, opt)
  {
    hide PA.Body, PA.FlagsByte, PA.LengthBytes;
  }

  /** Multiprotocol attributes; the extended length they may need is not in the count. */
  method SerializeMultiProtocol(buf: Buffer, pa: PA.PathAttribute, opt: PA.EncodeOptions)
    returns (n: uint16, after: PA.PathAttribute)
    requires PA.WellTyped(pa)
    requires pa.typeCode == PA.MP_REACH_NLRI || pa.typeCode == PA.MP_UNREACH_NLRI
    modifies buf
    ensures buf.data == old(buf.data) + PA.Serialize(pa, opt)
    ensures n == Reported(pa.typeCode, |PA.Body(pa.value, opt)|)
    ensures after == Flagged(pa, opt)
  {
    hide PA.FlagsByte, PA.ReachBytes, PA.UnreachBytes;
    var b;
    if pa.typeCode == PA.MP_REACH_NLRI {
      b := SerializeReach(pa.value, opt);
    } else {
      b := SerializeUnreach(pa.value, opt);
    }
    after := pa.(flags := pa.flags.(optional := true));
    if |b| > 255 {
      after := after.(flags := after.flags.(extendedLength := true));
    }
    WriteHead(buf, after.flags.(partial := false), pa.typeCode, |b|);
    buf.Write(b);
    n := (|b| + 2) % 0x1_0000;
  }

  /** Attributes of a fixed size, and unknown ones. */
  method SerializePlain(buf: Buffer, pa: PA.PathAttribute, opt: PA.EncodeOptions) returns (n: uint16)
    requires PA.WellTyped(pa) && !PA.WritesNothing(pa)
    requires || pa.value.Origin? || pa.value.NextHop? || pa.value.Number? || pa.value.Nothing?
             || pa.value.AggregatedBy? || pa.value.Unknown?
    modifies buf
    ensures buf.data == old(buf.data) + PA.Serialize(pa, opt)
    ensures n == Reported(pa.typeCode, |PA.Body(pa.value, opt)|)
  {
    hide PA.FlagsByte, U32, U16, PA.LengthBytes;
    var b := PA.Body(pa.value, opt);
    var length := if pa.typeCode == PA.NEXT_HOP then 4 else |b|;
    WriteHead(buf, PA.SentFlags(pa, |b|), pa.typeCode, length);
    buf.Write(b);
    n := (length % 0x1_0000 + 3) % 0x1_0000;
  }

  method SerializePathAttribute(buf: Buffer, pa: PA.PathAttribute, opt: PA.EncodeOptions)
    returns (n: uint16, after: PA.PathAttribute)
    requires PA.WellTyped(pa)
    modifies buf
    ensures buf.data == old(buf.data) + PA.Serialize(pa, opt)
    ensures after == Flagged(pa, opt)
    ensures n == if PA.WritesNothing(pa) then 0 else Reported(pa.typeCode, |PA.Body(pa.value, opt)|)
  {
    hide PA.Body, Reported;
    var t := pa.typeCode;
    after := pa;
    if PA.WritesNothing(pa) {
      n := 0;
    } else if t == PA.AS_PATH {
      n := SerializeASPath(buf, pa, opt);
    } else if t == PA.COMMUNITIES || t == PA.LARGE_COMMUNITIES {
      n := SerializeCommunities(buf, pa, opt);
    } else if t == PA.MP_REACH_NLRI || t == PA.MP_UNREACH_NLRI {
      n, after := SerializeMultiProtocol(buf, pa, opt);
    } else if t == PA.CLUSTER_LIST {
      n := SerializeClusterList(buf, pa, opt);
    } else {
      n := SerializePlain(buf, pa, opt);
    }
  }

  method SerializePathAttributes(buf: Buffer, pas: seq<PA.PathAttribute>, opt: PA.EncodeOptions, before: int)
    returns (budget: int)
    requires Updates.AllWellTyped(pas) && before >= 0
    modifies buf
    ensures budget >= before - |Updates.AttributeBytes(pas, opt)|
    ensures budget >= 0 ==> buf.data == old(buf.data) + Updates.AttributeBytes(pas, opt)
  {
    hide PA.Serialize, PA.Body, Reported, PA.WellTyped, PA.WritesNothing;
    budget := before;
    assert pas[0..] == pas;
    for i := 0 to |pas|
      invariant budget >= 0
      invariant buf.data + Updates.AttributeBytes(pas[i..], opt) == old(buf.data) + Updates.AttributeBytes(pas, opt)
      invariant budget - |Updates.AttributeBytes(pas[i..], opt)| >= before - |Updates.AttributeBytes(pas, opt)|
    {
      assert pas[i..][1..] == pas[i + 1..];
      var paLen, _ := SerializePathAttribute(buf, pas[i], opt);
      if !PA.WritesNothing(pas[i]) {
        ReportsNoMore(pas[i], opt);
      }
      budget := budget - paLen;
      if budget < 0 {
        return;
      }
    }
  }

  // ---------------------------------------------------------------- writing an update

  method WriteUpdate(totalLength: uint16, withdrawn: seq<byte>, attributes: seq<byte>, nlri: seq<byte>)
    returns (bytes: seq<byte>)
    requires |withdrawn| < 0x1_0000 && |attributes| < 0x1_0000
    ensures bytes == Updates.HeaderBytes(totalLength, Updates.UPDATE)
                     + (U16(|withdrawn|) + withdrawn + U16(|attributes|) + attributes + nlri)
  {
    hide U16, Updates.HeaderBytes;
    var buf := new Buffer([]);
    buf.Write(Updates.HeaderBytes(totalLength, Updates.UPDATE));
    buf.Write(U16(|withdrawn|));
    buf.Write(withdrawn);
    buf.Write(U16(|attributes|));
    buf.Write(attributes);
    buf.Write(nlri);
    bytes := buf.data;
  }

  /** Accepts exactly the updates that fit a message, although the budget is kept with counts that
      may be too low: what slips past the budget is caught by the total length. */
  method SerializeUpdate(u: Updates.Update, opt: PA.EncodeOptions) returns (r: Result<seq<byte>>)
    requires Updates.WellFormed(u)
    ensures r == if Updates.TotalLength(u, opt) <= 4096 then Success(Updates.UpdateBytes(u, opt)) else Failure
    ensures r.Success? ==> Layouts.IsUpdate(r.value,
                                            Nlris.SerializeAll(u.withdrawnRoutes, opt.useAddPath, u.safi),
                                            Updates.AttributeBytes(u.pathAttributes, opt),
                                            Nlris.SerializeAll(u.nlri, opt.useAddPath, u.safi))
  {
    hide Nlris.SerializeAll, Updates.AttributeBytes, U16, Nlris.AllWritable, Updates.AllWellTyped, Updates.HeaderBytes,
      Layouts.IsUpdate;
    var budget: int := Updates.MAX_LEN - Updates.MIN_LEN;
    var withdrawBuf := new Buffer([]);
    budget := SerializeNLRIs(withdrawBuf, u.withdrawnRoutes, opt.useAddPath, u.safi, budget);
    if budget < 0 {
      return Failure;
    }
    var attributesBuf := new Buffer([]);
    budget := SerializePathAttributes(attributesBuf, u.pathAttributes, opt, budget);
    if budget < 0 {
      return Failure;
    }
    var nlriBuf := new Buffer([]);
    budget := SerializeNLRIs(nlriBuf, u.nlri, opt.useAddPath, u.safi, budget);
    if budget < 0 {
      return Failure;
    }
    if |withdrawBuf.data| > 65535 || |attributesBuf.data| > 65535 {
      return Failure;
    }
    var totalLength := 2 + |withdrawBuf.data| + |attributesBuf.data| + 2 + |nlriBuf.data| + 19;
    if totalLength > 4096 {
      return Failure;
    }
    assert withdrawBuf.data == Updates.Withdrawn(u, opt) && attributesBuf.data == Updates.Attributes(u, opt);
    assert nlriBuf.data == Updates.Announced(u, opt);
    var bytes := WriteUpdate(totalLength, withdrawBuf.data, attributesBuf.data, nlriBuf.data);
    Layouts.UpdateLayout(u, opt);
    return Success(bytes);
  }

  // ---------------------------------------------------------------- there and back

  /** An update is sent if and only if it fits a message. What is read of it, from a stream that
      goes on with `rest`, is the update if and only if that is proper. */
  method SendAndReceive(u: Updates.Update, enc: PA.EncodeOptions, dec: PA.DecodeOptions, rest: seq<byte>)
    returns (sent: Result<seq<byte>>, received: Result<Updates.Message>, left: seq<byte>)
    requires Updates.WellFormed(u) && Updates.MatchingOptions(u, enc, dec)
    ensures sent.Success? <==> Updates.TotalLength(u, enc) <= Updates.MAX_LEN
    ensures sent.Success? ==>
              && |sent.value| == Updates.TotalLength(u, enc)
              && (received == Success(Updates.UpdateMessage(Updates.Header(|sent.value|, Updates.UPDATE),
                                                            Updates.ArrivingUpdate(u, enc)))
                  && left == rest
                  <==> Updates.ProperUpdate(u, enc))
  {
    hide Updates.Decode, Updates.UpdateBytes, Updates.ProperUpdate, Updates.MatchingOptions, Updates.WellFormed,
      Updates.TotalLength, Updates.ArrivingUpdate;
    sent := SerializeUpdate(u, enc);
    received, left := Failure, [];
    if sent.Success? {
      Updates.UpdateRoundTrip(u, enc, dec, rest);
      var buf := new Buffer(sent.value + rest);
      received := Decode(buf, dec);
      left := buf.data;
    }
  }
}
