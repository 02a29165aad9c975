/** The wire format in numbers: which byte stands where in what is written, and which bytes are
    read as what (RFC 4271 sections 4.1 to 4.3, RFC 4760 section 3, RFC 7911 section 3, RFC 8277
    section 2). */
module Layouts {
  import opened Words
  import opened BGPTypes
  import opened Wire
  import Nlris
  import PA = PathAttributes
  import Updates

  // ---------------------------------------------------------------- numbers

  /** The big-endian number at an offset. */
  function At16(b: seq<byte>, i: nat): (r: nat)
    requires i + 2 <= |b|
  {
    256 * (b[i] as nat) + b[i + 1]
  }

  function At24(b: seq<byte>, i: nat): (r: nat)
    requires i + 3 <= |b|
  {
    65536 * (b[i] as nat) + 256 * (b[i + 1] as nat) + b[i + 2]
  }

  function At32(b: seq<byte>, i: nat): (r: nat)
    requires i + 4 <= |b|
  {
    16777216 * (b[i] as nat) + 65536 * (b[i + 1] as nat) + 256 * (b[i + 2] as nat) + b[i + 3]
  }

  lemma NumberAt(before: seq<byte>, x: uint16, y: uint32, rest: seq<byte>)
    ensures At16(before + U16(x) + rest, |before|) == x
    ensures At32(before + U32(y) + rest, |before|) == y
  {
    NumbersRoundTrip(x, y);
    var b, c := before + U16(x) + rest, before + U32(y) + rest;
    assert forall i :: 0 <= i < 2 ==> b[|before| + i] == U16(x)[i];
    assert forall i :: 0 <= i < 4 ==> c[|before| + i] == U32(y)[i];
  }

  // ---------------------------------------------------------------- messages

  /** The bytes of an update: sixteen times 255, the length of it all, 2, and three fields, the first
      two of them with their lengths. */
  predicate IsUpdate(b: seq<byte>, withdrawn: seq<byte>, attributes: seq<byte>, nlri: seq<byte>) {
    && |b| >= 23
    && (forall i :: 0 <= i < 16 ==> b[i] == 255)
    && At16(b, 16) == |b|
    && b[18] == 2
    && var w := At16(b, 19);
    && |b| >= 23 + w
    && b[21..21 + w] == withdrawn
    && var a := At16(b, 21 + w);
    && |b| >= 23 + w + a
    && b[23 + w..23 + w + a] == attributes
    && b[23 + w + a..] == nlri
  }

  lemma UpdateLayout(u: Updates.Update, opt: PA.EncodeOptions)
    requires Updates.WellFormed(u) && Updates.TotalLength(u, opt) <= 4096
    ensures IsUpdate(Updates.UpdateBytes(u, opt),
                     Nlris.SerializeAll(u.withdrawnRoutes, opt.useAddPath, u.safi),
                     Updates.AttributeBytes(u.pathAttributes, opt),
                     Nlris.SerializeAll(u.nlri, opt.useAddPath, u.safi))
  {
    hide U16, At16, Updates.WellFormed, Nlris.SerializeAll, Updates.AttributeBytes;
    var b := Updates.UpdateBytes(u, opt);
    var w, a, n := Updates.Withdrawn(u, opt), Updates.Attributes(u, opt), Updates.Announced(u, opt);
    var marker := Updates.Marker();
    var head := marker + U16(|b|) + [2];
    assert b == head + U16(|w|) + (w + U16(|a|) + a + n);
    NumberAt(head, |w|, 0, w + U16(|a|) + a + n);
    assert b == marker + U16(|b|) + ([2] + U16(|w|) + w + U16(|a|) + a + n);
    NumberAt(marker, |b|, 0, [2] + U16(|w|) + w + U16(|a|) + a + n);
    assert b == head + U16(|w|) + w + U16(|a|) + (a + n);
    NumberAt(head + U16(|w|) + w, |a|, 0, a + n);
  }

  /** A header is read exactly if there are nineteen bytes, the first sixteen are 255, the length is
      from 19 to 4096 and the type is from 1 to 4. */
  lemma HeaderReadIff(buf: seq<byte>)
    ensures Updates.DecodeHeader(buf).Ok? <==>
            && |buf| >= 19
            && (forall i :: 0 <= i < 16 ==> buf[i] == 255)
            && 19 <= At16(buf, 16) <= 4096
            && 1 <= buf[18] <= 4
    ensures Updates.DecodeHeader(buf).Ok? ==>
              Updates.DecodeHeader(buf) == Ok(Updates.Header(At16(buf, 16), buf[18]), buf[19..])
  {
    if |buf| >= 19 {
      assert buf[16..][..2] == [buf[16], buf[17]];
      assert buf[16..][2..] == [buf[18]] + buf[19..];
      assert forall i :: 0 <= i < 16 ==> buf[..16][i] == buf[i];
    }
  }

  /** Otherwise the error is 1/1 for a wrong marker, 6/0 for a short read, 1/2 for a bad length and
      1/3 for a bad type. */
  lemma HeaderErrorIs(buf: seq<byte>)
    requires Updates.DecodeHeader(buf).Err?
    ensures Updates.HeaderError(buf) ==
            if exists i :: 0 <= i < 16 && i < |buf| && buf[i] != 255 then (1, 1)
            else if |buf| < 19 then (6, 0)
            else if At16(buf, 16) < 19 || At16(buf, 16) > 4096 then (1, 2)
            else (1, 3)
  {
    if |buf| >= 19 {
      assert buf[16..18] == [buf[16], buf[17]];
    }
  }

  /** A message is read as an update exactly if its type is 2. */
  lemma UpdateIsTypeTwo(buf: seq<byte>, opt: PA.DecodeOptions)
    requires Updates.Decode(buf, opt).Ok?
    ensures |buf| >= 19 && (Updates.Decode(buf, opt).value.UpdateMessage? <==> buf[18] == 2)
  {
    hide Updates.DecodeHeader, Updates.DecodeUpdate;
    HeaderReadIff(buf);
  }

  lemma NothingInside(opt: PA.DecodeOptions)
    ensures Updates.DecodeUpdate([0, 0, 0, 0], 4, opt) == Ok(Updates.Update(0, [], 0, [], [], 0), [])
  {
    assert !Updates.Has([], 1) && !Updates.Has([], 2) && !Updates.Has([], 3) && !Updates.Has([], 14);
  }

  /** The shortest update of all, which marks the end of a RIB. */
  lemma EndOfRIB(opt: PA.DecodeOptions)
    ensures Updates.Decode([255, 255, 255, 255, 255, 255, 255, 255, 255, 255, 255, 255, 255, 255, 255, 255,
                            0, 23, 2, 0, 0, 0, 0], opt) ==
            Ok(Updates.UpdateMessage(Updates.Header(23, 2), Updates.Update(0, [], 0, [], [], 0)), [])
  {
    hide Updates.DecodeHeader, Updates.DecodeUpdate;
    var buf := [255, 255, 255, 255, 255, 255, 255, 255, 255, 255, 255, 255, 255, 255, 255, 255, 0, 23, 2, 0, 0, 0, 0];
    HeaderReadIff(buf);
    assert buf[19..] == [0, 0, 0, 0];
    NothingInside(opt);
  }

  // ---------------------------------------------------------------- NLRIs

  /** Where the length byte of an NLRI stands: after a path identifier, if there is one. */
  function LengthAt(addPath: bool): (i: nat) {
    if addPath then 4 else 0
  }

  /** An NLRI is the path identifier if paths are identified, the length of the prefix and as many
      bytes of it as its length asks for. */
  lemma PlainLayout(n: Nlris.Nlri, addPath: bool, safi: byte)
    requires Writable(n.prefix) && safi != 4
    ensures var b := Nlris.Serialize(n, addPath, safi);
            var i := LengthAt(addPath);
            && |b| == i + 1 + (n.prefix.len + 7) / 8
            && (addPath ==> At32(b, 0) == n.pathIdentifier)
            && b[i] == n.prefix.len
            && b[i + 1..] == n.prefix.addr.bytes[..(n.prefix.len + 7) / 8]
  {
    hide U32, At32;
    var b := Nlris.Serialize(n, addPath, safi);
    if addPath {
      assert b == [] + U32(n.pathIdentifier) + b[4..];
      NumberAt([], 0, n.pathIdentifier, b[4..]);
    }
  }

  lemma At24Within(b: seq<byte>, i: nat, part: seq<byte>, j: nat)
    requires i + |part| <= |b| && b[i..i + |part|] == part && j + 3 <= |part|
    ensures At24(b, i + j) == At24(part, j)
  {
    assert forall k :: 0 <= k < |part| ==> b[i + k] == part[k];
  }

  lemma LabelBytesAt(l: Nlris.Label)
    requires l < 0x100_0000
    ensures At24(Nlris.LabelBytes(l), 0) == l
  {
    NumbersRoundTrip(0, l);
  }

  lemma {:induction false} LabelAt(ls: seq<Nlris.Label>, k: nat)
    requires k < |ls| && ls[k] < 0x100_0000
    ensures At24(Nlris.SerializeLabels(ls), 3 * k) ==
            if k == |ls| - 1 && ls[k] % 2 == 0 then ls[k] + 1 else ls[k]
    decreases |ls|
  {
    hide Nlris.LabelBytes, At24;
    var b := Nlris.SerializeLabels(ls);
    if k == 0 {
      LabelBytesAt(if |ls| == 1 then Nlris.Bottom(ls[0]) else ls[0]);
      At24Within(b, 0, Nlris.LabelBytes(if |ls| == 1 then Nlris.Bottom(ls[0]) else ls[0]), 0);
    } else {
      LabelAt(ls[1..], k - 1);
      At24Within(b, 3, Nlris.SerializeLabels(ls[1..]), 3 * (k - 1));
    }
  }

  /** With labels, SAFI 4, the length counts their bits too, and they stand before the prefix, three
      bytes each, the last with its lowest bit set. */
  lemma LabeledLayout(n: Nlris.Nlri, addPath: bool, k: nat)
    requires Writable(n.prefix) && k < |n.labelStack| && n.labelStack[k] < 0x100_0000
    ensures var b := Nlris.Serialize(n, addPath, 4);
            var i, labels := LengthAt(addPath), |n.labelStack|;
            && |b| == i + 1 + 3 * labels + (n.prefix.len + 7) / 8
            && (addPath ==> At32(b, 0) == n.pathIdentifier)
            && b[i] == (n.prefix.len + 24 * labels) % 256
            && At24(b, i + 1 + 3 * k) ==
               (if k == labels - 1 && n.labelStack[k] % 2 == 0 then n.labelStack[k] + 1 else n.labelStack[k])
            && b[i + 1 + 3 * labels..] == n.prefix.addr.bytes[..(n.prefix.len + 7) / 8]
  {
    hide U32, At32, At24, Nlris.SerializeLabels;
    var b := Nlris.Serialize(n, addPath, 4);
    var i, labels := LengthAt(addPath), |n.labelStack|;
    Nlris.AnnouncedIsSum(n.prefix.len, labels);
    if addPath {
      assert b == [] + U32(n.pathIdentifier) + b[4..];
      NumberAt([], 0, n.pathIdentifier, b[4..]);
    }
    assert b[i + 1..i + 1 + 3 * labels] == Nlris.SerializeLabels(n.labelStack);
    LabelAt(n.labelStack, k);
    At24Within(b, i + 1, Nlris.SerializeLabels(n.labelStack), 3 * k);
  }

  /** Lists stand one after the other. */
  lemma {:induction false} ListLayout(ms: seq<Nlris.Nlri>, n: Nlris.Nlri, addPath: bool, safi: byte)
    requires Nlris.AllWritable(ms) && Writable(n.prefix)
    ensures Nlris.SerializeAll([], addPath, safi) == []
    ensures Nlris.SerializeAll(ms + [n], addPath, safi) ==
            Nlris.SerializeAll(ms, addPath, safi) + Nlris.Serialize(n, addPath, safi)
    decreases |ms|
  {
    hide Nlris.Serialize;
    if ms == [] {
      assert ms + [n] == [n];
    } else {
      assert (ms + [n])[1..] == ms[1..] + [n];
      ListLayout(ms[1..], n, addPath, safi);
    }
  }

  // ---------------------------------------------------------------- path attributes

  /** The flags byte an attribute is sent with: 128 for optional, 64 for transitive, 32 for partial,
      16 for a length of two bytes. */
  function SentFlagsByte(pa: PA.PathAttribute, n: nat): (r: nat) {
    var t := pa.typeCode;
    var long := if n % 65536 > 255 then 0x10 else 0;
    if t == 1 || t == 3 || t == 5 || t == 6 then 0x40
    else if t == 2 then 0x40 + long
    else if t == 4 || t == 9 || t == 10 then 0x80
    else if t == 7 then 0xC0
    else if t == 8 || t == 32 then 0xE0 + long
    else if t == 14 || t == 15 then
      0x80 + (if pa.flags.transitive then 0x40 else 0) + (if pa.flags.extendedLength || n > 255 then 0x10 else 0)
    else 0x40 + (if pa.flags.optional then 0x80 else 0) + (if pa.flags.extendedLength then 0x10 else 0)
  }

  lemma FlagsLayout(pa: PA.PathAttribute, n: nat)
    ensures PA.FlagsByte(PA.SentFlags(pa, n)) == SentFlagsByte(pa, n)
    ensures PA.SentFlags(pa, n).extendedLength <==> SentFlagsByte(pa, n) / 16 % 2 == 1
  {
  }

  lemma LengthLayout(n: nat)
    ensures PA.LengthBytes(n, true) == [n / 256 % 256, n % 256] && 256 * (n / 256 % 256) + n % 256 == n % 65536
    ensures PA.LengthBytes(n, false) == [n % 256]
  {
    assert n == 256 * (n / 256) + n % 256;
    assert n / 256 == 256 * (n / 65536) + n / 256 % 256;
  }

  lemma FramedLayout(f: PA.Flags, t: byte, n: nat, body: seq<byte>)
    ensures var b := PA.Framed(f, t, n, body);
            && |b| >= 3 && b[0] == PA.FlagsByte(f) && b[1] == t
            && if f.extendedLength then |b| >= 4 && At16(b, 2) == n % 65536 && b[4..] == body
               else b[2] == n % 256 && b[3..] == body
  {
    hide PA.FlagsByte, PA.LengthBytes;
    LengthLayout(n);
    var b := PA.Framed(f, t, n, body);
    assert b[2..] == PA.LengthBytes(n, f.extendedLength) + body;
  }

  lemma OnlyListsAreEmpty(pa: PA.PathAttribute, opt: PA.EncodeOptions)
    requires PA.WellTyped(pa)
    ensures PA.ValueWritable(pa.value)
    ensures PA.WritesNothing(pa) <==>
            (pa.typeCode == 8 || pa.typeCode == 10 || pa.typeCode == 32) && |PA.Body(pa.value, opt)| == 0
  {
    hide PA.Segments, PA.ReachBytes, PA.UnreachBytes, U32, U16, Nlris.AllWritable;
  }

  /** An attribute is its flags, its type, its length in one or two bytes, and its value. Empty lists
      of communities and cluster identifiers are not sent. A next hop claims four bytes always. */
  lemma AttributeLayout(pa: PA.PathAttribute, opt: PA.EncodeOptions)
    requires PA.WellTyped(pa)
    ensures var b, t := PA.Serialize(pa, opt), pa.typeCode;
            var n := |PA.Body(pa.value, opt)|;
            if (t == 8 || t == 10 || t == 32) && n == 0 then b == []
            else
              && |b| >= 3
              && b[0] == SentFlagsByte(pa, n)
              && b[1] == t
              && if b[0] / 16 % 2 == 1
                 then |b| >= 4 && At16(b, 2) == n % 65536 && b[4..] == PA.Body(pa.value, opt)
                 else b[2] == (if t == 3 then 4 else n % 256) && b[3..] == PA.Body(pa.value, opt)
  {
    hide PA.Body, PA.WellTyped, PA.WritesNothing, PA.SentFlags, PA.FlagsByte, PA.Framed;
    OnlyListsAreEmpty(pa, opt);
    var body := PA.Body(pa.value, opt);
    FlagsLayout(pa, |body|);
    FramedLayout(PA.SentFlags(pa, |body|), pa.typeCode, if pa.typeCode == 3 then 4 else |body|, body);
  }

  lemma At32Within(b: seq<byte>, i: nat, part: seq<byte>, j: nat)
    requires i + |part| <= |b| && b[i..i + |part|] == part && j + 4 <= |part|
    ensures At32(b, i + j) == At32(part, j)
  {
    assert forall k :: 0 <= k < |part| ==> b[i + k] == part[k];
  }

  lemma {:induction false} NumberIn(xs: seq<uint32>, k: nat)
    requires k < |xs|
    ensures At32(U32s(xs), 4 * k) == xs[k]
    decreases k
  {
    hide U32, At32;
    if k == 0 {
      assert U32s(xs) == [] + U32(xs[0]) + U32s(xs[1..]);
      NumberAt([], 0, xs[0], U32s(xs[1..]));
    } else {
      NumberIn(xs[1..], k - 1);
      At32Within(U32s(xs), 4, U32s(xs[1..]), 4 * (k - 1));
    }
  }

  lemma At16Within(b: seq<byte>, i: nat, part: seq<byte>, j: nat)
    requires i + |part| <= |b| && b[i..i + |part|] == part && j + 2 <= |part|
    ensures At16(b, i + j) == At16(part, j)
  {
    assert forall k :: 0 <= k < |part| ==> b[i + k] == part[k];
  }

  /** Which values the type codes stand for, and the bytes of those of a fixed size: an origin is one
      byte, a next hop its address, the metrics and the originator four bytes, and an aggregator its
      AS number in two and its address in four. */
  lemma FixedValueLayout(pa: PA.PathAttribute, opt: PA.EncodeOptions)
    requires PA.WellTyped(pa)
    ensures var b, t, v := PA.Body(pa.value, opt), pa.typeCode, pa.value;
            && (t == 1 ==> v.Origin? && b == [v.origin])
            && (t == 3 ==> v.NextHop? && b == v.nextHop.bytes)
            && (t == 4 || t == 5 || t == 9 ==> v.Number? && |b| == 4 && At32(b, 0) == v.number)
            && (t == 6 ==> v.Nothing? && b == [])
            && (t == 7 ==> v.AggregatedBy? && |b| == 6 && At16(b, 0) == v.aggregator.asn && At32(b, 2) == v.aggregator.address)
            && (t !in {1, 2, 3, 4, 5, 6, 7, 8, 9, 10, 14, 15, 32} ==> v.Unknown? && b == v.bytes)
  {
    hide PA.Segments, PA.ReachBytes, PA.UnreachBytes, U32, U16, At16, At32, Nlris.AllWritable;
    match pa.value {
      case Number(x) =>
        assert U32(x) == [] + U32(x) + [];
        NumberAt([], 0, x, []);
      case AggregatedBy(a) =>
        assert U16(a.asn) + U32(a.address) == [] + U16(a.asn) + U32(a.address) == U16(a.asn) + U32(a.address) + [];
        NumberAt([], a.asn, 0, U32(a.address));
        NumberAt(U16(a.asn), 0, a.address, []);
      case _ =>
    }
  }

  lemma {:induction false} LargeIn(cs: seq<LargeCommunity>, k: nat)
    requires k < |cs|
    ensures var b := PA.LargeBytes(cs);
            && At32(b, 12 * k) == cs[k].globalAdministrator
            && At32(b, 12 * k + 4) == cs[k].dataPart1
            && At32(b, 12 * k + 8) == cs[k].dataPart2
    decreases k
  {
    hide U32, At32;
    var b, tail, c := PA.LargeBytes(cs), PA.LargeBytes(cs[1..]), cs[0];
    if k == 0 {
      var x, y, z := U32(c.globalAdministrator), U32(c.dataPart1), U32(c.dataPart2);
      assert b == [] + x + (y + z + tail) == x + y + (z + tail) == x + y + z + tail;
      NumberAt([], 0, c.globalAdministrator, y + z + tail);
      NumberAt(x, 0, c.dataPart1, z + tail);
      NumberAt(x + y, 0, c.dataPart2, tail);
    } else {
      LargeIn(cs[1..], k - 1);
      At32Within(b, 12, tail, 12 * (k - 1));
      At32Within(b, 12, tail, 12 * (k - 1) + 4);
      At32Within(b, 12, tail, 12 * (k - 1) + 8);
    }
  }

  /** Communities and cluster identifiers are four bytes each, large communities three times four. */
  lemma ListValueLayout(pa: PA.PathAttribute, opt: PA.EncodeOptions, k: nat)
    requires PA.WellTyped(pa)
    ensures var b, t, v := PA.Body(pa.value, opt), pa.typeCode, pa.value;
            && (t == 8 || t == 10 ==> v.Numbers? || v.Nothing?)
            && (t == 32 ==> v.LargeCommunities? || v.Nothing?)
            && (v.Nothing? ==> b == [])
            && (v.Numbers? ==> |b| == 4 * |v.numbers| && (k < |v.numbers| ==> At32(b, 4 * k) == v.numbers[k]))
            && (v.LargeCommunities? ==>
                  && |b| == 12 * |v.communities|
                  && (k < |v.communities| ==>
                        && At32(b, 12 * k) == v.communities[k].globalAdministrator
                        && At32(b, 12 * k + 4) == v.communities[k].dataPart1
                        && At32(b, 12 * k + 8) == v.communities[k].dataPart2))
  {
    hide PA.Segments, PA.ReachBytes, PA.UnreachBytes, PA.LargeBytes, U32, U32s, U16, At32, Nlris.AllWritable;
    var v := pa.value;
    if v.Numbers? && k < |v.numbers| {
      NumberIn(v.numbers, k);
    }
    if v.LargeCommunities? && k < |v.communities| {
      LargeIn(v.communities, k);
    }
  }

  lemma {:induction false} SegmentsInARow(segments: seq<Segment>, s: Segment, use32BitASN: bool)
    ensures PA.Segments(segments + [s], use32BitASN) == PA.Segments(segments, use32BitASN) + PA.Segments([s], use32BitASN)
    decreases |segments|
  {
    hide PA.ASNs;
    if segments == [] {
      assert segments + [s] == [s];
    } else {
      assert (segments + [s])[1..] == segments[1..] + [s];
      SegmentsInARow(segments[1..], s, use32BitASN);
    }
  }

  lemma {:induction false} ASNIn(asns: seq<uint32>, use32BitASN: bool, k: nat)
    requires k < |asns|
    ensures if use32BitASN then At32(PA.ASNs(asns, use32BitASN), 4 * k) == asns[k]
            else At16(PA.ASNs(asns, use32BitASN), 2 * k) == asns[k] % 65536
    decreases k
  {
    hide U16, U32, At16, At32;
    var b, tail := PA.ASNs(asns, use32BitASN), PA.ASNs(asns[1..], use32BitASN);
    if k == 0 {
      assert b == [] + PA.ASN(asns[0], use32BitASN) + tail;
      NumberAt([], asns[0] % 65536, asns[0], tail);
    } else {
      ASNIn(asns[1..], use32BitASN, k - 1);
      if use32BitASN {
        At32Within(b, 4, tail, 4 * (k - 1));
      } else {
        At16Within(b, 2, tail, 2 * (k - 1));
      }
    }
  }

  /** An AS path is its segments one after the other, each its kind, the number of its ASes and their
      numbers in four or in two bytes. */
  lemma ASPathLayout(pa: PA.PathAttribute, opt: PA.EncodeOptions, s: Segment, k: nat)
    requires PA.WellTyped(pa) && pa.typeCode == 2
    ensures pa.value.ASPath? && (pa.value.segments == [] ==> PA.Body(pa.value, opt) == [])
    ensures PA.Body(PA.ASPath(pa.value.segments + [s]), opt) ==
            PA.Body(pa.value, opt) + PA.Body(PA.ASPath([s]), opt)
    ensures var b := PA.Body(PA.ASPath([s]), opt);
            && |b| == 2 + (if opt.use32BitASN then 4 else 2) * |s.asns|
            && b[0] == s.kind
            && b[1] == |s.asns| % 256
            && (k < |s.asns| ==>
                  if opt.use32BitASN then At32(b, 2 + 4 * k) == s.asns[k] else At16(b, 2 + 2 * k) == s.asns[k] % 65536)
  {
    hide PA.ASNs, At16, At32;
    SegmentsInARow(pa.value.segments, s, opt.use32BitASN);
    var b, asns := PA.Segments([s], opt.use32BitASN), PA.ASNs(s.asns, opt.use32BitASN);
    assert b == [s.kind, |s.asns| % 256] + asns;
    if k < |s.asns| {
      ASNIn(s.asns, opt.use32BitASN, k);
      if opt.use32BitASN {
        At32Within(b, 2, asns, 4 * k);
      } else {
        At16Within(b, 2, asns, 2 * k);
      }
    }
  }

  /** A multiprotocol attribute is the address family in two bytes, the subsequent one in one, for
      reachable routes the next hop with its length and a zero, and the routes. */
  lemma MultiprotocolLayout(pa: PA.PathAttribute, opt: PA.EncodeOptions)
    requires PA.WellTyped(pa)
    ensures var b, v := PA.Body(pa.value, opt), pa.value;
            && (pa.typeCode == 14 ==>
                  && v.Reach?
                  && var n := |v.via.bytes|;
                  && |b| >= 5 + n
                  && At16(b, 0) == v.afi && b[2] == v.safi && b[3] == n
                  && b[4..4 + n] == v.via.bytes && b[4 + n] == 0
                  && b[5 + n..] == Nlris.SerializeAll(v.reachable, opt.useAddPath, v.safi))
            && (pa.typeCode == 15 ==>
                  && v.Unreach?
                  && |b| >= 3
                  && At16(b, 0) == v.afi && b[2] == v.safi
                  && b[3..] == Nlris.SerializeAll(v.unreachable, opt.useAddPath, v.safi))
  {
    hide PA.Segments, U32, U16, At16, Nlris.AllWritable, Nlris.SerializeAll;
    var b, v := PA.Body(pa.value, opt), pa.value;
    if v.Reach? || v.Unreach? {
      assert b == [] + U16(v.afi) + b[2..];
      NumberAt([], v.afi, 0, b[2..]);
    }
  }

  // ---------------------------------------------------------------- reading

  /** Which values are read for which type codes. */
  lemma ValuesByType(buf: seq<byte>, t: byte, length: uint16, opt: PA.DecodeOptions)
    ensures var r := PA.DecodeValue(buf, t, length, opt);
            r.Ok? ==>
              && (t == 1 <==> r.value.Origin?)
              && (t == 2 <==> r.value.ASPath?)
              && (t == 3 <==> r.value.NextHop?)
              && (t in {4, 5, 9, 18} <==> r.value.Number?)
              && (t == 6 <==> r.value.Nothing?)
              && (t == 7 <==> r.value.AggregatedBy?)
              && (t in {8, 10} <==> r.value.Numbers?)
              && (t == 14 <==> r.value.Reach?)
              && (t == 15 <==> r.value.Unreach?)
              && (t == 32 <==> r.value.LargeCommunities?)
  {
    hide PA.DecodeSegments, ReadU16, ReadU32, ReadU32s, PA.DecodeLarge, Nlris.DecodeAll, Value16, IPFromBytes,
      PA.DecodeOptions.AddPath;
  }

  lemma {:induction false} EnoughASNs(buf: seq<byte>, count: nat, use32BitASN: bool)
    ensures PA.DecodeASNs(buf, count, use32BitASN).Ok? <==> |buf| >= (if use32BitASN then 4 else 2) * count
    decreases count
  {
    hide Value16, Value32;
    if count > 0 {
      var first := PA.DecodeASN(buf, use32BitASN);
      if first.Ok? {
        EnoughASNs(first.rest, count - 1, use32BitASN);
      }
    }
  }

  /** A segment is read if its kind is 1 or 2, a set or a sequence, and it is not empty. */
  lemma SegmentReadIff(buf: seq<byte>, use32BitASN: bool)
    requires |buf| >= 2
    ensures PA.DecodeSegment(buf, use32BitASN).Ok? <==>
            (buf[0] == 1 || buf[0] == 2) && 1 <= buf[1] && |buf| >= 2 + (if use32BitASN then 4 else 2) * (buf[1] as nat)
  {
    hide PA.DecodeASNs;
    assert buf[1..][1..] == buf[2..];
    EnoughASNs(buf[2..], buf[1], use32BitASN);
  }

  /** Path identifiers are read for IPv4 and IPv6 unicast, families 1 and 2 with SAFI 1, where they
      were agreed on. */
  lemma AddPathIff(opt: PA.DecodeOptions, afi: uint16, safi: byte)
    ensures opt.AddPath(afi, safi) <==>
            safi == 1 && ((afi == 1 && opt.addPathIPv4Unicast) || (afi == 2 && opt.addPathIPv6Unicast))
  {
  }

  /** What is read of the routes behind a next hop field that ends before offset `end`: none if
      nothing follows, else those after a reserved byte. */
  function RoutesBehind(b: seq<byte>, end: nat, opt: PA.DecodeOptions): (r: Decoded<seq<Nlris.Nlri>>)
    requires 4 <= end <= |b|
  {
    if |b| == end then Ok([], [])
    else
      var field := b[end + 1..];
      Nlris.DecodeAll(field, 0, |field| % 65536, At16(b, 0), b[2], opt.AddPath(At16(b, 0), b[2]))
  }

  /** A next hop field of 32 bytes is two addresses, of which the first is the next hop. */
  lemma TwoNextHops(b: seq<byte>, opt: PA.DecodeOptions)
    requires |b| > 4 && b[3] == 32
    ensures |b| < 36 ==> PA.DeserializeReach(b, opt) == Err
    ensures |b| >= 36 ==>
              var routes := RoutesBehind(b, 36, opt);
              PA.DeserializeReach(b, opt) ==
              if routes.Err? then Err else Ok(PA.Reach(At16(b, 0), b[2], V6(b[4..20]), routes.value), [])
  {
    hide Nlris.DecodeAll, PA.DecodeOptions.AddPath;
    assert b[..2] == [b[0], b[1]];
    if |b| >= 36 {
      assert b[4..][..16] == b[4..20];
      assert |b| > 36 ==> b[4..][33..] == b[37..];
    }
  }

  /** One of another length is one address, of four or of sixteen bytes. */
  lemma OneNextHop(b: seq<byte>, opt: PA.DecodeOptions)
    requires |b| > 4 && b[3] != 32
    ensures |b| < 4 + (b[3] as nat) || (b[3] != 4 && b[3] != 16) ==> PA.DeserializeReach(b, opt) == Err
    ensures |b| >= 4 + (b[3] as nat) && (b[3] == 4 || b[3] == 16) ==>
              var routes := RoutesBehind(b, 4 + b[3], opt);
              PA.DeserializeReach(b, opt) ==
              if routes.Err? then Err
              else Ok(PA.Reach(At16(b, 0), b[2], if b[3] == 4 then V4(b[4..8]) else V6(b[4..20]), routes.value), [])
  {
    hide Nlris.DecodeAll, PA.DecodeOptions.AddPath;
    assert b[..2] == [b[0], b[1]];
    if |b| >= 4 + (b[3] as nat) {
      assert b[4..][..b[3]] == b[4..4 + b[3]];
      assert |b| > 4 + (b[3] as nat) ==> b[4..][1 + b[3]..] == b[5 + b[3]..];
    }
  }

  // ---------------------------------------------------------------- prefixes

  /** Bit i of an address, the first one being the highest of the first byte. */
  function BitOf(bytes: seq<byte>, i: nat): (r: nat)
    requires i < 8 * |bytes|
  {
    bytes[i / 8] / PowerOfTwo(7 - i % 8) % 2
  }

  lemma MoreByOne(p: nat, d: int, e: int)
    requires d > e
    ensures p * d >= p * e + p
  {
    assert p * d == p * e + p * (d - e);
    assert p * (d - e) == p * (d - e - 1) + p;
    assert p * (d - e - 1) >= 0;
  }

  lemma DividesUnique(p: nat, d: int, r: int, e: int, t: int)
    requires p > 0 && 0 <= r < p && 0 <= t < p && p * d + r == p * e + t
    ensures d == e && r == t
  {
    if d > e {
      MoreByOne(p, d, e);
    } else if d < e {
      MoreByOne(p, e, d);
    }
  }

  /** A number is even as often as its half, and once more. */
  lemma Halves(x: nat, p: nat, q: nat)
    requires p > 0 && q == 2 * p
    ensures x % q == 0 <==> x % p == 0 && x / p % 2 == 0
  {
    var d, r, e, t := x / p, x % p, x / q, x % q;
    assert x == p * d + r;
    assert x == q * e + t;
    if t == 0 {
      assert x == p * (2 * e);
      DividesUnique(p, 2 * e, 0, d, r);
    }
    if r == 0 && d % 2 == 0 {
      assert x == q * (d / 2);
      DividesUnique(q, d / 2, 0, e, t);
    }
  }

  lemma OneMoreBit(x: byte, k: nat)
    requires k < 8
    ensures (if k == 7 then x == 0 else x % PowerOfTwo(k + 1) == 0) <==>
            x % PowerOfTwo(k) == 0 && x / PowerOfTwo(k) % 2 == 0
  {
    if k < 7 {
      assert PowerOfTwo(k + 1) == 2 * PowerOfTwo(k);
      Halves(x, PowerOfTwo(k), PowerOfTwo(k + 1));
    }
  }

  /** The lowest k bits of a byte are zero exactly if the power of two divides it. */
  lemma {:induction false} LowBits(x: byte, k: nat)
    requires k <= 8
    ensures (forall j :: 0 <= j < k ==> x / PowerOfTwo(j) % 2 == 0) <==> if k == 8 then x == 0 else x % PowerOfTwo(k) == 0
  {
    if k > 0 {
      LowBits(x, k - 1);
      OneMoreBit(x, k - 1);
    }
  }

  /** The bits of one byte, from the highest. */
  ghost predicate Clear(bytes: seq<byte>, q: nat, from: nat)
    requires q < |bytes|
  {
    forall i :: 8 * q + from <= i < 8 * q + 8 ==> BitOf(bytes, i) == 0
  }

  lemma ClearIff(bytes: seq<byte>, q: nat, from: nat)
    requires q < |bytes| && from < 8
    ensures Clear(bytes, q, from) <==> if from == 0 then bytes[q] == 0 else bytes[q] % PowerOfTwo(8 - from) == 0
  {
    LowBits(bytes[q], 8 - from);
    if Clear(bytes, q, from) {
      forall j | 0 <= j < 8 - from
        ensures bytes[q] / PowerOfTwo(j) % 2 == 0
      {
        assert BitOf(bytes, 8 * q + 7 - j) == 0;
      }
    }
  }

  /** A prefix has no host bits exactly if every bit from its length on is zero. */
  lemma NoHostBitsIff(p: Prefix)
    ensures NoHostBits(p) <==> forall i :: p.len <= i < 8 * |p.addr.bytes| ==> BitOf(p.addr.bytes, i) == 0
  {
    hide BitOf, PowerOfTwo;
    var bytes := p.addr.bytes;
    forall q | 0 <= q < |bytes|
      ensures Clear(bytes, q, 0) <==> bytes[q] == 0
      ensures q == p.len / 8 && p.len % 8 != 0 ==>
                (Clear(bytes, q, p.len % 8) <==> bytes[q] % PowerOfTwo(8 - p.len % 8) == 0)
    {
      ClearIff(bytes, q, 0);
      ClearIff(bytes, q, p.len % 8);
    }
    if NoHostBits(p) {
      forall i | p.len <= i < 8 * |bytes|
        ensures BitOf(bytes, i) == 0
      {
        var q := i / 8;
        assert i < 8 * q + 8;
        if q >= BytesInAddr(p.len) {
          assert Clear(bytes, q, 0);
        } else {
          assert Clear(bytes, q, p.len % 8);
        }
      }
    }
  }

  /** Family 1 is IPv4, where a prefix of a known length is read with zeros for what was not sent;
      family 2 is IPv6, where it must not have host bits; there are no others. */
  lemma FamilyReads(b: seq<byte>, len: byte)
    requires |b| == (len + 7) / 8
    ensures len <= 32 ==> DeserializePrefix(b, len, 1) == Ok(Prefix(V4(b + Zeros(4 - |b|)), len), [])
    ensures len <= 128 ==>
              var p := Prefix(V6(b + Zeros(16 - |b|)), len);
              DeserializePrefix(b, len, 2) == if NoHostBits(p) then Ok(p, []) else Err
    ensures forall afi: uint16 :: afi != 1 && afi != 2 ==> DeserializePrefix(b, len, afi) == Err
  {
    hide NoHostBits;
  }

  // ---------------------------------------------------------------- what an update must have

  /** An update is read only if next hop, origin and AS path, attributes 3 or 14, 1 and 2, are all
      there or all missing. */
  lemma AllOrNone(buf: seq<byte>, length: uint16, opt: PA.DecodeOptions)
    requires Updates.DecodePathAttributes(buf, length, opt).Ok?
    ensures var pas := Updates.DecodePathAttributes(buf, length, opt).value;
            var nextHop := exists i :: 0 <= i < |pas| && (pas[i].typeCode == 3 || pas[i].typeCode == 14);
            var origin := exists i :: 0 <= i < |pas| && pas[i].typeCode == 1;
            var asPath := exists i :: 0 <= i < |pas| && pas[i].typeCode == 2;
            nextHop == origin && origin == asPath
  {
    hide Updates.DecodeAttributes;
    var pas := Updates.DecodePathAttributes(buf, length, opt).value;
    assert Updates.Has(pas, 3) || Updates.Has(pas, 14) <==>
           exists i :: 0 <= i < |pas| && (pas[i].typeCode == 3 || pas[i].typeCode == 14);
  }
}
