/** UPDATE messages (RFC 4271 sections 4.1 and 4.3): exactly which of them come back from their
    bytes. */
module Updates {
  import opened Words
  import opened Wire
  import opened Nlris
  import PA = PathAttributes

  // ---------------------------------------------------------------- lists of attributes

  predicate AllWellTyped(pas: seq<PA.PathAttribute>) {
    forall i :: 0 <= i < |pas| ==> PA.WellTyped(pas[i])
  }

  function AttributeBytes(pas: seq<PA.PathAttribute>, opt: PA.EncodeOptions): (r: seq<byte>)
    requires AllWellTyped(pas)
  {
    if pas == [] then [] else PA.Serialize(pas[0], opt) + AttributeBytes(pas[1..], opt)
  }

  /** Reads attributes while the counter `p`, sixteen bits wide, is below `length`. */
  function DecodeAttributes(buf: seq<byte>, p: uint16, length: uint16, opt: PA.DecodeOptions)
    : (r: Decoded<seq<PA.PathAttribute>>)
    ensures r.Ok? ==> |r.rest| <= |buf|
    decreases |buf|
  {
    if p >= length then Ok([], buf)
    else
      var (first, buf1) :- PA.Decode(buf, opt);
      var (others, buf2) :- DecodeAttributes(buf1, AddU16(p, first.1), length, opt);
      Ok([first.0] + others, buf2)
  }

  predicate Has(pas: seq<PA.PathAttribute>, typeCode: byte) {
    exists i :: 0 <= i < |pas| && pas[i].typeCode == typeCode
  }

  /** Origin, AS path and next hop come together or not at all. */
  predicate Complete(pas: seq<PA.PathAttribute>) {
    var nextHop := Has(pas, PA.NEXT_HOP) || Has(pas, PA.MP_REACH_NLRI);
    nextHop == Has(pas, PA.ORIGIN) == Has(pas, PA.AS_PATH)
  }

  function DecodePathAttributes(buf: seq<byte>, length: uint16, opt: PA.DecodeOptions)
    : (r: Decoded<seq<PA.PathAttribute>>)
    ensures r.Ok? ==> |r.rest| <= |buf|
  {
    var (pas, buf1) :- DecodeAttributes(buf, 0, length, opt);
    if Complete(pas) then Ok(pas, buf1) else Err
  }

  predicate AllMatching(pas: seq<PA.PathAttribute>, enc: PA.EncodeOptions, dec: PA.DecodeOptions) {
    forall i :: 0 <= i < |pas| ==> PA.Matching(pas[i].value, enc, dec)
  }

  predicate AllProperAttributes(pas: seq<PA.PathAttribute>, opt: PA.EncodeOptions)
    requires AllWellTyped(pas)
  {
    forall i :: 0 <= i < |pas| ==> PA.WritesNothing(pas[i]) || PA.Proper(pas[i], opt)
  }

  /** Empty lists do not arrive. */
  function ArrivingAttributes(pas: seq<PA.PathAttribute>, opt: PA.EncodeOptions): (r: seq<PA.PathAttribute>)
    requires AllWellTyped(pas) && |AttributeBytes(pas, opt)| < 0x1_0000
  {
    if pas == [] then []
    else if PA.WritesNothing(pas[0]) then ArrivingAttributes(pas[1..], opt)
    else
      PA.BodyIsPart(pas[0], opt);
      [PA.Arriving(pas[0], opt)] + ArrivingAttributes(pas[1..], opt)
  }

  /** One step of reading a list whose first attribute is proper. */
  lemma ReadFirstAttribute(pa: PA.PathAttribute, tail: seq<byte>, p: uint16, length: uint16,
                           enc: PA.EncodeOptions, dec: PA.DecodeOptions)
    requires PA.WellTyped(pa) && PA.Matching(pa.value, enc, dec) && !PA.WritesNothing(pa) && PA.Proper(pa, enc)
    requires p < length && p + |PA.Serialize(pa, enc)| < 0x1_0000
    ensures |PA.Body(pa.value, enc)| < 0x1_0000
    ensures var others := DecodeAttributes(tail, p + |PA.Serialize(pa, enc)|, length, dec);
            DecodeAttributes(PA.Serialize(pa, enc) + tail, p, length, dec) ==
            if others.Err? then Err else Ok([PA.Arriving(pa, enc)] + others.value, others.rest)
  {
    hide PA.Serialize, PA.Decode, PA.Arriving, PA.Proper, PA.Body, PA.Matching, PA.WellTyped, PA.WritesNothing;
    PA.BodyIsPart(pa, enc);
    PA.RoundTrip(pa, enc, dec, tail);
  }

  lemma NoAttributesLeft(buf: seq<byte>, p: uint16, opt: PA.DecodeOptions)
    ensures DecodeAttributes(buf, p, p, opt) == Ok([], buf)
  {
  }

  lemma {:induction false} AttributesRoundTrip(pas: seq<PA.PathAttribute>, enc: PA.EncodeOptions, dec: PA.DecodeOptions,
                                               rest: seq<byte>, p: uint16, length: uint16)
    requires AllWellTyped(pas) && AllMatching(pas, enc, dec) && AllProperAttributes(pas, enc)
    requires p + |AttributeBytes(pas, enc)| == length
    ensures DecodeAttributes(AttributeBytes(pas, enc) + rest, p, length, dec) == Ok(ArrivingAttributes(pas, enc), rest)
    decreases |pas|
  {
    hide PA.Serialize, PA.Arriving, PA.Proper, PA.Body, PA.Matching, PA.WellTyped, PA.WritesNothing, DecodeAttributes;
    if pas == [] {
      assert AttributeBytes(pas, enc) + rest == rest;
      NoAttributesLeft(rest, p, dec);
    } else {
      var first := PA.Serialize(pas[0], enc);
      var tail := AttributeBytes(pas[1..], enc) + rest;
      assert AttributeBytes(pas, enc) + rest == first + tail;
      AttributesRoundTrip(pas[1..], enc, dec, rest, p + |first|, length);
      PA.WritesNothingIff(pas[0], enc);
      if PA.WritesNothing(pas[0]) {
        assert first + tail == tail;
      } else {
        ReadFirstAttribute(pas[0], tail, p, length, enc, dec);
      }
    }
  }

  predicate AttributesComeBack(pas: seq<PA.PathAttribute>, enc: PA.EncodeOptions, dec: PA.DecodeOptions,
                               rest: seq<byte>, p: uint16, length: uint16)
    requires AllWellTyped(pas) && |AttributeBytes(pas, enc)| < 0x1_0000
  {
    var r := DecodeAttributes(AttributeBytes(pas, enc) + rest, p, length, dec);
    r.Ok? && r.value == ArrivingAttributes(pas, enc)
  }

  /** If a list comes back, its first attribute was proper and the others come back too. */
  lemma FirstAttributeComesBack(pas: seq<PA.PathAttribute>, enc: PA.EncodeOptions, dec: PA.DecodeOptions,
                                rest: seq<byte>, p: uint16, length: uint16)
    requires AllWellTyped(pas) && AllMatching(pas, enc, dec) && pas != [] && !PA.WritesNothing(pas[0])
    requires p + |AttributeBytes(pas, enc)| == length
    requires AttributesComeBack(pas, enc, dec, rest, p, length)
    ensures PA.Proper(pas[0], enc)
    ensures AttributesComeBack(pas[1..], enc, dec, rest, p + |PA.Serialize(pas[0], enc)|, length)
  {
    hide PA.Serialize, PA.Arriving, PA.Proper, PA.Body, PA.Matching, PA.WellTyped, PA.WritesNothing, PA.Decode;
    PA.BodyIsPart(pas[0], enc);
    PA.WritesNothingIff(pas[0], enc);
    var first := PA.Serialize(pas[0], enc);
    var tail := AttributeBytes(pas[1..], enc) + rest;
    assert AttributeBytes(pas, enc) + rest == first + tail;
    assert ArrivingAttributes(pas, enc) == [PA.Arriving(pas[0], enc)] + ArrivingAttributes(pas[1..], enc);
    assert PA.Decode(first + tail, dec).value.0 == ArrivingAttributes(pas, enc)[0];
    PA.RoundTrip(pas[0], enc, dec, tail);
    assert ArrivingAttributes(pas, enc)[1..] == ArrivingAttributes(pas[1..], enc);
  }

  lemma {:induction false} AttributesWereProper(pas: seq<PA.PathAttribute>, enc: PA.EncodeOptions, dec: PA.DecodeOptions,
                                                rest: seq<byte>, p: uint16, length: uint16)
    requires AllWellTyped(pas) && AllMatching(pas, enc, dec)
    requires p + |AttributeBytes(pas, enc)| == length
    requires AttributesComeBack(pas, enc, dec, rest, p, length)
    ensures AllProperAttributes(pas, enc)
    decreases |pas|
  {
    hide PA.Serialize, PA.Arriving, PA.Proper, PA.Body, PA.Matching, PA.WellTyped, PA.WritesNothing, DecodeAttributes;
    if pas != [] {
      PA.WritesNothingIff(pas[0], enc);
      if PA.WritesNothing(pas[0]) {
        assert AttributeBytes(pas, enc) == AttributeBytes(pas[1..], enc);
      } else {
        FirstAttributeComesBack(pas, enc, dec, rest, p, length);
      }
      AttributesWereProper(pas[1..], enc, dec, rest, p + |PA.Serialize(pas[0], enc)|, length);
    }
  }

  lemma HasFirst(pas: seq<PA.PathAttribute>, t: byte)
    ensures pas != [] ==> (Has(pas, t) <==> pas[0].typeCode == t || Has(pas[1..], t))
  {
    if pas != [] && Has(pas, t) {
      var i :| 0 <= i < |pas| && pas[i].typeCode == t;
      assert i > 0 ==> pas[1..][i - 1].typeCode == t;
    }
  }

  /** Only list attributes may fail to arrive. */
  lemma {:induction false} HasArrives(pas: seq<PA.PathAttribute>, opt: PA.EncodeOptions, t: byte)
    requires AllWellTyped(pas) && |AttributeBytes(pas, opt)| < 0x1_0000
    requires t != PA.COMMUNITIES && t != PA.CLUSTER_LIST && t != PA.LARGE_COMMUNITIES
    ensures Has(ArrivingAttributes(pas, opt), t) <==> Has(pas, t)
    decreases |pas|
  {
    hide PA.Serialize, PA.Body, PA.WellTyped, PA.SentFlags, PA.ArrivingValue;
    if pas != [] {
      HasArrives(pas[1..], opt, t);
      HasFirst(pas, t);
      HasFirst(ArrivingAttributes(pas, opt), t);
      assert !PA.WritesNothing(pas[0]) ==> ArrivingAttributes(pas, opt)[1..] == ArrivingAttributes(pas[1..], opt);
    }
  }

  lemma CompleteArrives(pas: seq<PA.PathAttribute>, opt: PA.EncodeOptions)
    requires AllWellTyped(pas) && |AttributeBytes(pas, opt)| < 0x1_0000
    ensures Complete(ArrivingAttributes(pas, opt)) <==> Complete(pas)
  {
    hide Has, ArrivingAttributes;
    HasArrives(pas, opt, PA.NEXT_HOP);
    HasArrives(pas, opt, PA.MP_REACH_NLRI);
    HasArrives(pas, opt, PA.ORIGIN);
    HasArrives(pas, opt, PA.AS_PATH);
  }

  predicate ProperAttributes(pas: seq<PA.PathAttribute>, opt: PA.EncodeOptions)
    requires AllWellTyped(pas)
  {
    AllProperAttributes(pas, opt) && Complete(pas)
  }

  /** The attributes of an update come back exactly when each is proper and none is missing. */
  lemma PathAttributesRoundTrip(pas: seq<PA.PathAttribute>, enc: PA.EncodeOptions, dec: PA.DecodeOptions, rest: seq<byte>)
    requires AllWellTyped(pas) && AllMatching(pas, enc, dec) && |AttributeBytes(pas, enc)| < 0x1_0000
    ensures var r := DecodePathAttributes(AttributeBytes(pas, enc) + rest, |AttributeBytes(pas, enc)|, dec);
            && (ProperAttributes(pas, enc) ==> r == Ok(ArrivingAttributes(pas, enc), rest))
            && (r.Ok? && r.value == ArrivingAttributes(pas, enc) ==> ProperAttributes(pas, enc))
  {
    hide AttributeBytes, DecodeAttributes, AllWellTyped, AllMatching, AllProperAttributes, ArrivingAttributes, Complete;
    var bytes := AttributeBytes(pas, enc);
    CompleteArrives(pas, enc);
    if AllProperAttributes(pas, enc) {
      AttributesRoundTrip(pas, enc, dec, rest, 0, |bytes|);
    }
    if AttributesComeBack(pas, enc, dec, rest, 0, |bytes|) {
      AttributesWereProper(pas, enc, dec, rest, 0, |bytes|);
    }
  }

  // ---------------------------------------------------------------- messages

  const MIN_LEN := 19
  const MAX_LEN := 4096
  const MARKER_LEN := 16
  const UPDATE: byte := 2
  const KEEPALIVE: byte := 4

  datatype Header = Header(length: uint16, typeCode: byte)

  datatype Update = Update(withdrawnRoutesLen: uint16, withdrawnRoutes: seq<Nlri>,
                           totalPathAttrLen: uint16, pathAttributes: seq<PA.PathAttribute>,
                           nlri: seq<Nlri>, safi: byte)

  /** Bodies other than those of updates are not looked into. */
  datatype Message = UpdateMessage(header: Header, update: Update) | OtherMessage(header: Header)

  function Marker(): (r: seq<byte>)
    ensures |r| == MARKER_LEN && forall i :: 0 <= i < MARKER_LEN ==> r[i] == 0xff
  {
    seq(MARKER_LEN, i => 0xff)
  }

  function DecodeHeader(buf: seq<byte>): (r: Decoded<Header>)
    ensures r.Ok? ==> MIN_LEN <= r.value.length <= MAX_LEN && |r.rest| == |buf| - MIN_LEN
  {
    var (marker, buf1) :- ReadFull(buf, MARKER_LEN);
    if exists i :: 0 <= i < |marker| && marker[i] != 0xff then Err
    else
      var (length, buf2) :- ReadU16(buf1);
      var (typeCode, buf3) :- ReadByte(buf2);
      if length < MIN_LEN || length > MAX_LEN || typeCode > KEEPALIVE || typeCode == 0 then Err
      else Ok(Header(length, typeCode), buf3)
  }

  const MESSAGE_HEADER_ERROR: byte := 1
  const CEASE: byte := 6
  const CONNECTION_NOT_SYNC: byte := 1
  const BAD_MESSAGE_LENGTH: byte := 2
  const BAD_MESSAGE_TYPE: byte := 3

  /** The error code and subcode of a header that is not read: a marker byte that is wrong comes
      before one that is missing. */
  function HeaderError(buf: seq<byte>): (r: (byte, byte)) {
    if exists i :: 0 <= i < |buf| && i < MARKER_LEN && buf[i] != 0xff then (MESSAGE_HEADER_ERROR, CONNECTION_NOT_SYNC)
    else if |buf| < MIN_LEN then (CEASE, 0)
    else if !(MIN_LEN <= Value16(buf[16..18]) <= MAX_LEN) then (MESSAGE_HEADER_ERROR, BAD_MESSAGE_LENGTH)
    else (MESSAGE_HEADER_ERROR, BAD_MESSAGE_TYPE)
  }

  /** What is left of the length after the other two fields is the NLRI field; the difference wraps. */
  function DecodeUpdate(buf: seq<byte>, l: uint16, opt: PA.DecodeOptions): (r: Decoded<Update>) {
    var (withdrawnLen, buf1) :- ReadU16(buf);
    var (withdrawn, buf2) :- DecodeAll(buf1, 0, withdrawnLen, AFI_IPV4, SAFI_UNICAST, opt.addPathIPv4Unicast);
    var (attributesLen, buf3) :- ReadU16(buf2);
    var (attributes, buf4) :- DecodePathAttributes(buf3, attributesLen, opt);
    var nlriLen := SubU16(SubU16(SubU16(l, 4), attributesLen), withdrawnLen);
    var (nlri, buf5) :- DecodeAll(buf4, 0, nlriLen, AFI_IPV4, SAFI_UNICAST, opt.addPathIPv4Unicast);
    Ok(Update(withdrawnLen, withdrawn, attributesLen, attributes, nlri, 0), buf5)
  }

  function Decode(buf: seq<byte>, opt: PA.DecodeOptions): (r: Decoded<Message>) {
    var (header, buf1) :- DecodeHeader(buf);
    if header.typeCode != UPDATE then Ok(OtherMessage(header), buf1)
    else
      var (update, buf2) :- DecodeUpdate(buf1, header.length - MIN_LEN, opt);
      Ok(UpdateMessage(header, update), buf2)
  }

  predicate WellFormed(u: Update) {
    AllWritable(u.withdrawnRoutes) && AllWellTyped(u.pathAttributes) && AllWritable(u.nlri)
  }

  function Withdrawn(u: Update, opt: PA.EncodeOptions): (r: seq<byte>)
    requires WellFormed(u)
  {
    SerializeAll(u.withdrawnRoutes, opt.useAddPath, u.safi)
  }

  function Attributes(u: Update, opt: PA.EncodeOptions): (r: seq<byte>)
    requires WellFormed(u)
  {
    AttributeBytes(u.pathAttributes, opt)
  }

  function Announced(u: Update, opt: PA.EncodeOptions): (r: seq<byte>)
    requires WellFormed(u)
  {
    SerializeAll(u.nlri, opt.useAddPath, u.safi)
  }

  function TotalLength(u: Update, opt: PA.EncodeOptions): (r: nat)
    requires WellFormed(u)
  {
    MIN_LEN + 4 + |Withdrawn(u, opt)| + |Attributes(u, opt)| + |Announced(u, opt)|
  }

  function UpdateBody(u: Update, opt: PA.EncodeOptions): (r: seq<byte>)
    requires WellFormed(u) && TotalLength(u, opt) <= MAX_LEN
  {
    U16(|Withdrawn(u, opt)|) + Withdrawn(u, opt) + U16(|Attributes(u, opt)|) + Attributes(u, opt) + Announced(u, opt)
  }

  function HeaderBytes(length: uint16, typeCode: byte): (r: seq<byte>)
    ensures |r| == MIN_LEN
  {
    Marker() + U16(length) + [typeCode]
  }

  function UpdateBytes(u: Update, opt: PA.EncodeOptions): (r: seq<byte>)
    requires WellFormed(u) && TotalLength(u, opt) <= MAX_LEN
    ensures |r| == TotalLength(u, opt)
  {
    HeaderBytes(TotalLength(u, opt), UPDATE) + UpdateBody(u, opt)
  }

  /** The options agree wherever the update depends on them, and its plain fields carry no labels. */
  predicate MatchingOptions(u: Update, enc: PA.EncodeOptions, dec: PA.DecodeOptions) {
    && enc.useAddPath == dec.addPathIPv4Unicast
    && AllMatching(u.pathAttributes, enc, dec)
    && !Labeled(u.safi)
  }

  predicate ProperUpdate(u: Update, opt: PA.EncodeOptions)
    requires WellFormed(u)
  {
    && AllProper(u.withdrawnRoutes, AFI_IPV4, SAFI_UNICAST, opt.useAddPath)
    && ProperAttributes(u.pathAttributes, opt)
    && AllProper(u.nlri, AFI_IPV4, SAFI_UNICAST, opt.useAddPath)
  }

  function ArrivingUpdate(u: Update, opt: PA.EncodeOptions): (r: Update)
    requires WellFormed(u) && TotalLength(u, opt) <= MAX_LEN
  {
    Update(|Withdrawn(u, opt)|, ArrivingAll(u.withdrawnRoutes, opt.useAddPath, SAFI_UNICAST),
           |Attributes(u, opt)|, ArrivingAttributes(u.pathAttributes, opt),
           ArrivingAll(u.nlri, opt.useAddPath, SAFI_UNICAST), 0)
  }

  lemma HeaderRoundTrip(length: uint16, typeCode: byte, rest: seq<byte>)
    requires MIN_LEN <= length <= MAX_LEN && 0 < typeCode <= KEEPALIVE
    ensures DecodeHeader(HeaderBytes(length, typeCode) + rest) == Ok(Header(length, typeCode), rest)
  {
    hide U16, ReadU16, ReadFull, Marker;
    var tail := U16(length) + ([typeCode] + rest);
    assert HeaderBytes(length, typeCode) + rest == Marker() + tail;
    ReadBackFull(Marker(), tail);
    ReadBack16(length, [typeCode] + rest);
    assert ReadByte([typeCode] + rest) == Ok(typeCode, rest);
  }

  predicate LegalHeader(h: Header) {
    MIN_LEN <= h.length <= MAX_LEN && 0 < h.typeCode <= KEEPALIVE
  }

  lemma HeaderStarts(buf: seq<byte>, h: Header, rest: seq<byte>)
    requires DecodeHeader(buf) == Ok(h, rest)
    ensures LegalHeader(h) && buf == HeaderBytes(h.length, h.typeCode) + rest
  {
    BytesOf16(buf[16..18]);
    assert buf[..16] == Marker();
    assert buf == buf[..16] + buf[16..18] + buf[18..];
    assert buf[18..] == [buf[18]] + buf[19..];
  }

  /** A header is read from exactly those buffers that start with the bytes of a legal one. */
  lemma HeaderAcceptedIff(buf: seq<byte>)
    ensures DecodeHeader(buf).Ok? <==>
            exists h, rest :: LegalHeader(h) && buf == HeaderBytes(h.length, h.typeCode) + rest
  {
    if DecodeHeader(buf).Ok? {
      HeaderStarts(buf, DecodeHeader(buf).value, DecodeHeader(buf).rest);
    }
    forall h, rest | LegalHeader(h) && buf == HeaderBytes(h.length, h.typeCode) + rest
      ensures DecodeHeader(buf).Ok?
    {
      HeaderRoundTrip(h.length, h.typeCode, rest);
    }
  }

  /** Without labels the SAFI makes no difference. */
  lemma {:induction false} PlainSAFI(ns: seq<Nlri>, addPath: bool, safi: byte)
    requires AllWritable(ns) && !Labeled(safi)
    ensures SerializeAll(ns, addPath, safi) == SerializeAll(ns, addPath, SAFI_UNICAST)
    decreases |ns|
  {
    hide U32, PrefixBytes;
    if ns != [] {
      PlainSAFI(ns[1..], addPath, safi);
    }
  }

  /** A plain field comes back exactly when its prefixes are proper. */
  lemma FieldRoundTrip(ns: seq<Nlri>, rest: seq<byte>, addPath: bool, safi: byte)
    requires AllWritable(ns) && !Labeled(safi) && |SerializeAll(ns, addPath, safi)| < 0x1_0000
    ensures var r := DecodeAll(SerializeAll(ns, addPath, safi) + rest, 0, |SerializeAll(ns, addPath, safi)|,
                               AFI_IPV4, SAFI_UNICAST, addPath);
            && (AllProper(ns, AFI_IPV4, SAFI_UNICAST, addPath) ==>
                  r == Ok(ArrivingAll(ns, addPath, SAFI_UNICAST), rest))
            && (r.Ok? && r.value == ArrivingAll(ns, addPath, SAFI_UNICAST) ==>
                  AllProper(ns, AFI_IPV4, SAFI_UNICAST, addPath))
  {
    PlainSAFI(ns, addPath, safi);
    hide AllProper, AllWritable, SerializeAll, DecodeAll, ArrivingAll;
    var n := |SerializeAll(ns, addPath, safi)|;
    if AllProper(ns, AFI_IPV4, SAFI_UNICAST, addPath) {
      ListRoundTrip(ns, rest, 0, n, AFI_IPV4, SAFI_UNICAST, addPath);
    }
    if ComesBack(ns, rest, 0, n, AFI_IPV4, SAFI_UNICAST, addPath) {
      ListWasProper(ns, rest, 0, n, AFI_IPV4, SAFI_UNICAST, addPath);
    }
  }

  lemma BodyRoundTrip(u: Update, enc: PA.EncodeOptions, dec: PA.DecodeOptions, rest: seq<byte>)
    requires WellFormed(u) && TotalLength(u, enc) <= MAX_LEN && MatchingOptions(u, enc, dec)
    ensures var r := DecodeUpdate(UpdateBody(u, enc) + rest, TotalLength(u, enc) - MIN_LEN, dec);
            && (ProperUpdate(u, enc) ==> r == Ok(ArrivingUpdate(u, enc), rest))
            && (r.Ok? && r.value == ArrivingUpdate(u, enc) ==> ProperUpdate(u, enc))
  {
    hide U16, ReadU16, SerializeAll, AttributeBytes, DecodeAll, DecodePathAttributes, AllProper, ProperAttributes,
      ArrivingAll, ArrivingAttributes, AllMatching, AllWritable, AllWellTyped;
    var w, a, n := Withdrawn(u, enc), Attributes(u, enc), Announced(u, enc);
    var tail := U16(|a|) + (a + (n + rest));
    assert UpdateBody(u, enc) + rest == U16(|w|) + (w + tail);
    ReadBack16(|w|, w + tail);
    FieldRoundTrip(u.withdrawnRoutes, tail, enc.useAddPath, u.safi);
    ReadBack16(|a|, a + (n + rest));
    PathAttributesRoundTrip(u.pathAttributes, enc, dec, n + rest);
    FieldRoundTrip(u.nlri, rest, enc.useAddPath, u.safi);
  }

  lemma HeaderFits(u: Update, opt: PA.EncodeOptions)
    requires WellFormed(u) && TotalLength(u, opt) <= MAX_LEN
    ensures TotalLength(u, opt) >= MIN_LEN
  {
  }

  /** An update that fits a message comes back from its bytes, and what follows them is left, exactly
      when it is proper. */
  lemma UpdateRoundTrip(u: Update, enc: PA.EncodeOptions, dec: PA.DecodeOptions, rest: seq<byte>)
    requires WellFormed(u) && TotalLength(u, enc) <= MAX_LEN && MatchingOptions(u, enc, dec)
    ensures Decode(UpdateBytes(u, enc) + rest, dec) ==
            Ok(UpdateMessage(Header(|UpdateBytes(u, enc)|, UPDATE), ArrivingUpdate(u, enc)), rest)
            <==> ProperUpdate(u, enc)
  {
    hide HeaderBytes, UpdateBody, DecodeHeader, DecodeUpdate, ProperUpdate, ArrivingUpdate, MatchingOptions, WellFormed,
      TotalLength;
    var n := TotalLength(u, enc);
    HeaderFits(u, enc);
    assert UpdateBytes(u, enc) + rest == HeaderBytes(n, UPDATE) + (UpdateBody(u, enc) + rest);
    HeaderRoundTrip(n, UPDATE, UpdateBody(u, enc) + rest);
    BodyRoundTrip(u, enc, dec, rest);
  }
}
