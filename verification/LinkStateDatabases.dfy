/** The IS-IS link state database: which LSPs are due for flooding (SRM) or for
    acknowledgement and request (SSN) on which interface, and how sequence number PDUs change
    that (section 7.3.15.2 of ISO/IEC 10589). */
module LinkStateDatabases {
  import opened Lexicographic
  import opened Options

  type Interface(==, !new) = nat

  datatype LSPID = LSPID(systemID: seq<nat>, pseudonodeID: nat, lspNumber: nat)

  /** The summary of an LSP in a sequence number PDU. */
  datatype Summary = Summary(lspid: LSPID, sequenceNumber: nat, remainingLifetime: nat, checksum: nat)

  datatype CSNP = CSNP(start: LSPID, end: LSPID, summaries: seq<Summary>)

  datatype Entry = Entry(sequenceNumber: nat, remainingLifetime: nat, checksum: nat,
                         srm: set<Interface>, ssn: set<Interface>)

  type Database = map<LSPID, Entry>

  // ---------------------------------------------------------------- identifiers

  function CompareSystemIDs(a: seq<nat>, b: seq<nat>): (r: int)
    requires |a| == |b|
    ensures -1 <= r <= 1
    ensures r == 0 <==> a == b
    decreases |a|
  {
    if a == [] then 0
    else if a[0] > b[0] then 1
    else if a[0] < b[0] then -1
    else
      assert a == [a[0]] + a[1..] && b == [b[0]] + b[1..];
      CompareSystemIDs(a[1..], b[1..])
  }

  /** The LSP number takes no part in the comparison. */
  function Compare(l: LSPID, m: LSPID): (r: int)
    requires |l.systemID| == |m.systemID|
    ensures -1 <= r <= 1
    ensures r == 0 <==> l.systemID == m.systemID && l.pseudonodeID == m.pseudonodeID
  {
    var c := CompareSystemIDs(l.systemID, m.systemID);
    if c != 0 then c
    else if l.pseudonodeID > m.pseudonodeID then 1
    else if l.pseudonodeID < m.pseudonodeID then -1
    else 0
  }

  const SYSTEM_ID_LEN := 6

  predicate ProperID(l: LSPID) {
    |l.systemID| == SYSTEM_ID_LEN
  }

  predicate RangeContains(c: CSNP, id: LSPID)
    requires ProperID(c.start) && ProperID(c.end) && ProperID(id)
  {
    Compare(c.start, id) <= 0 && Compare(c.end, id) >= 0
  }

  /** What identifiers are ordered by. */
  function Octets(l: LSPID): (r: seq<int>) {
    l.systemID + [l.pseudonodeID]
  }

  lemma {:induction false} SystemIDsDecidedBy(a: seq<nat>, b: seq<nat>, i: nat)
    requires |a| == |b| && i <= |a| && a[..i] == b[..i] && (i < |a| ==> a[i] != b[i])
    ensures CompareSystemIDs(a, b) == if i == |a| then 0 else if a[i] > b[i] then 1 else -1
    decreases i
  {
    if i > 0 {
      assert a[0] == a[..i][0] && b[0] == b[..i][0];
      assert a[1..][..i - 1] == a[..i][1..] && b[1..][..i - 1] == b[..i][1..];
      SystemIDsDecidedBy(a[1..], b[1..], i - 1);
    }
  }

  /** Identifiers are compared octet by octet, and the first difference decides. */
  lemma CompareIff(l: LSPID, m: LSPID)
    requires |l.systemID| == |m.systemID|
    ensures Weighs(Compare(l, m), Octets(l), Octets(m))
  {
    hide Weighs, CompareSystemIDs;
    var a, b := l.systemID, m.systemID;
    var i := FirstDifference(a, b);
    SystemIDsDecidedBy(a, b, i);
    if i < |a| {
      assert Octets(l)[..i] == a[..i] && Octets(m)[..i] == b[..i];
      WeighsAt(Compare(l, m), Octets(l), Octets(m), i);
    } else {
      assert a[..i] == a && b[..i] == b;
      var n := if l.pseudonodeID == m.pseudonodeID then i + 1 else i;
      assert Octets(l)[..i] == a == Octets(m)[..i];
      WeighsAt(Compare(l, m), Octets(l), Octets(m), n);
    }
  }

  /** Comparison is antisymmetric and transitive: it orders identifiers. */
  lemma CompareOrders(l: LSPID, m: LSPID, n: LSPID)
    requires |l.systemID| == |m.systemID| == |n.systemID|
    ensures Compare(l, m) == -Compare(m, l)
    ensures Compare(l, m) >= 0 && Compare(m, n) >= 0 ==> Compare(l, n) >= 0
  {
    hide Compare, Beats;
    CompareIff(l, m);
    CompareIff(m, l);
    CompareIff(m, n);
    CompareIff(l, n);
    if Beats(Octets(l), Octets(m)) && Beats(Octets(m), Octets(n)) {
      BeatsTransitive(Octets(l), Octets(m), Octets(n));
    }
  }

  /** A range has every identifier that is not before its start and not after its end. */
  lemma RangeContainsIff(c: CSNP, id: LSPID)
    requires ProperID(c.start) && ProperID(c.end) && ProperID(id)
    ensures RangeContains(c, id) <==> !Beats(Octets(c.start), Octets(id)) && !Beats(Octets(id), Octets(c.end))
  {
    hide Compare, Beats;
    CompareIff(c.start, id);
    CompareIff(c.end, id);
  }

  /** Some summary of the PDU names the LSP. */
  predicate Lists(summaries: seq<Summary>, id: LSPID) {
    exists i :: 0 <= i < |summaries| && summaries[i].lspid == id
  }

  // ---------------------------------------------------------------- flags

  /** A placeholder, whose sequence number is zero, is never marked for flooding. */
  function SetSRM(e: Entry, ifa: Interface): (r: Entry) {
    if e.sequenceNumber == 0 then e else e.(srm := e.srm + {ifa})
  }

  function ClearSRM(e: Entry, ifa: Interface): (r: Entry) {
    e.(srm := e.srm - {ifa})
  }

  function SetSSN(e: Entry, ifa: Interface): (r: Entry) {
    e.(ssn := e.ssn + {ifa})
  }

  function ClearSSN(e: Entry, ifa: Interface): (r: Entry) {
    e.(ssn := e.ssn - {ifa})
  }

  function Placeholder(s: Summary, from: Interface): (r: Entry) {
    SetSSN(Entry(0, s.remainingLifetime, s.checksum, {}, {}), from)
  }

  /** What one summary does to the LSP it names. */
  function Described(e: Option<Entry>, s: Summary, from: Interface): (r: Entry) {
    if e.None? then Placeholder(s, from)
    else if e.value.sequenceNumber == s.sequenceNumber then ClearSRM(e.value, from)
    else if e.value.sequenceNumber > s.sequenceNumber then SetSRM(ClearSSN(e.value, from), from)
    else SetSSN(ClearSRM(e.value, from), from)
  }

  function Lookup(db: Database, id: LSPID): (r: Option<Entry>) {
    if id in db then Some(db[id]) else None
  }

  /** What a list of summaries, in order, makes of one LSP. */
  function AfterSummaries(e: Option<Entry>, summaries: seq<Summary>, id: LSPID, from: Interface): (r: Option<Entry>)
    decreases |summaries|
  {
    if summaries == [] then e
    else
      var n := |summaries| - 1;
      var before := AfterSummaries(e, summaries[..n], id, from);
      if summaries[n].lspid == id then Some(Described(before, summaries[n], from)) else before
  }

  /** The second pass: what the neighbor did not describe is due for flooding. */
  function AfterOmission(e: Option<Entry>, c: CSNP, id: LSPID, from: Interface): (r: Option<Entry>)
    requires ProperID(c.start) && ProperID(c.end) && ProperID(id)
  {
    if e.None? || e.value.remainingLifetime == 0 || e.value.sequenceNumber == 0 then e
    else if !RangeContains(c, id) || Lists(c.summaries, id) then e
    else Some(SetSRM(e.value, from))
  }

  function AfterCSNP(e: Option<Entry>, c: CSNP, id: LSPID, from: Interface): (r: Option<Entry>)
    requires ProperID(c.start) && ProperID(c.end) && ProperID(id)
  {
    AfterOmission(AfterSummaries(e, c.summaries, id, from), c, id, from)
  }

  // ---------------------------------------------------------------- what a CSNP achieves

  /** The last summary that names an LSP. */
  function LastListed(summaries: seq<Summary>, id: LSPID): (r: Option<Summary>)
    ensures r.Some? <==> Lists(summaries, id)
    ensures r.Some? ==> r.value in summaries && r.value.lspid == id
    decreases |summaries|
  {
    if summaries == [] then None
    else
      var n := |summaries| - 1;
      assert forall i :: 0 <= i < n ==> summaries[..n][i] == summaries[i];
      if summaries[n].lspid == id then Some(summaries[n]) else LastListed(summaries[..n], id)
  }

  /** Only the last summary of an LSP decides about its flooding. */
  lemma {:induction false} LastSummaryDecides(e: Entry, summaries: seq<Summary>, id: LSPID, from: Interface)
    ensures var r := AfterSummaries(Some(e), summaries, id, from);
            && r.Some?
            && r.value.sequenceNumber == e.sequenceNumber && r.value.remainingLifetime == e.remainingLifetime
            && (LastListed(summaries, id).None? ==> r.value == e)
            && (LastListed(summaries, id).Some? ==>
                  var s := LastListed(summaries, id).value;
                  && (from in r.value.srm <==> s.sequenceNumber < e.sequenceNumber)
                  && (s.sequenceNumber > e.sequenceNumber ==> from in r.value.ssn)
                  && (s.sequenceNumber < e.sequenceNumber ==> from !in r.value.ssn))
    decreases |summaries|
  {
    if summaries != [] {
      LastSummaryDecides(e, summaries[..|summaries| - 1], id, from);
    }
  }

  /** A summary of an unknown LSP leaves a placeholder that is requested and never flooded. */
  lemma {:induction false} UnknownIsRequested(summaries: seq<Summary>, id: LSPID, from: Interface)
    ensures var r := AfterSummaries(None, summaries, id, from);
            && (r.Some? <==> LastListed(summaries, id).Some?)
            && (r.Some? ==> r.value.sequenceNumber == 0 && from in r.value.ssn && r.value.srm == {})
    decreases |summaries|
  {
    if summaries != [] {
      var before := AfterSummaries(None, summaries[..|summaries| - 1], id, from);
      UnknownIsRequested(summaries[..|summaries| - 1], id, from);
      assert before.Some? ==> before.value.srm - {from} == {};
    }
  }

  /** Flags of other interfaces stay as they were. */
  lemma {:induction false} OthersUntouched(e: Option<Entry>, summaries: seq<Summary>, id: LSPID,
                                           from: Interface, other: Interface)
    requires other != from
    ensures e.Some? ==> AfterSummaries(e, summaries, id, from).Some?
    ensures var r := AfterSummaries(e, summaries, id, from);
            r.Some? ==>
              && (other in r.value.srm <==> e.Some? && other in e.value.srm)
              && (other in r.value.ssn <==> e.Some? && other in e.value.ssn)
    decreases |summaries|
  {
    if summaries != [] {
      OthersUntouched(e, summaries[..|summaries| - 1], id, from, other);
    }
  }

  /** What identifies an LSP's version never changes. A placeholder takes its lifetime and checksum
      from a summary. Summaries of the version at hand alone change no request. */
  lemma {:induction false} SummariesKeep(e: Option<Entry>, summaries: seq<Summary>, id: LSPID, from: Interface)
    ensures var r := AfterSummaries(e, summaries, id, from);
            && (e.Some? ==>
                  && r.Some? && r.value.sequenceNumber == e.value.sequenceNumber
                  && r.value.remainingLifetime == e.value.remainingLifetime && r.value.checksum == e.value.checksum)
            && (e.None? && r.Some? ==>
                  exists s :: s in summaries && s.lspid == id &&
                    r.value.remainingLifetime == s.remainingLifetime && r.value.checksum == s.checksum)
            && (e.Some? && (forall s :: s in summaries && s.lspid == id ==> s.sequenceNumber == e.value.sequenceNumber) ==>
                  r.value.ssn == e.value.ssn)
    decreases |summaries|
  {
    if summaries != [] {
      var n := |summaries| - 1;
      assert summaries == summaries[..n] + [summaries[n]];
      SummariesKeep(e, summaries[..n], id, from);
      assert summaries[n] in summaries;
    }
  }

  /** After a CSNP every live LSP in its range is due for flooding on that interface exactly if
      the CSNP omits it or last lists it with a lower sequence number. A higher number, or an
      LSP that was unknown, is requested; other interfaces are untouched. */
  lemma CSNPDecides(e: Option<Entry>, c: CSNP, id: LSPID, from: Interface, other: Interface)
    requires ProperID(c.start) && ProperID(c.end) && ProperID(id)
    ensures var r := AfterCSNP(e, c, id, from);
            var last := LastListed(c.summaries, id);
            && (e.Some? && e.value.sequenceNumber != 0 && e.value.remainingLifetime != 0 && RangeContains(c, id) ==>
                  r.Some? &&
                  (from in r.value.srm <==> last.None? || last.value.sequenceNumber < e.value.sequenceNumber))
            && (last.Some? && (e.None? || last.value.sequenceNumber > e.value.sequenceNumber) ==>
                  r.Some? && from in r.value.ssn)
            && (e.None? && last.None? ==> r.None?)
            && (e.Some? && last.None? && !RangeContains(c, id) ==> r == e)
            && (e.Some? && last.None? && (e.value.sequenceNumber == 0 || e.value.remainingLifetime == 0) ==> r == e)
            && (other != from && r.Some? ==>
                  && (other in r.value.srm <==> e.Some? && other in e.value.srm)
                  && (other in r.value.ssn <==> e.Some? && other in e.value.ssn))
  {
    if e.Some? {
      LastSummaryDecides(e.value, c.summaries, id, from);
    } else {
      UnknownIsRequested(c.summaries, id, from);
    }
    if other != from {
      OthersUntouched(e, c.summaries, id, from, other);
    }
  }

  // ---------------------------------------------------------------- the database

  /** No placeholder is marked for flooding. */
  ghost predicate PlaceholdersQuiet(db: Database) {
    forall id :: id in db && db[id].sequenceNumber == 0 ==> db[id].srm == {}
  }

  ghost predicate ProperIDs(db: Database) {
    forall id :: id in db ==> ProperID(id)
  }

  lemma ListsMore(summaries: seq<Summary>, i: nat)
    requires i < |summaries|
    ensures forall id :: Lists(summaries[..i + 1], id) <==> Lists(summaries[..i], id) || id == summaries[i].lspid
  {
    forall id
      ensures Lists(summaries[..i + 1], id) <==> Lists(summaries[..i], id) || id == summaries[i].lspid
    {
      if Lists(summaries[..i], id) {
        var k :| 0 <= k < |summaries[..i]| && summaries[..i][k].lspid == id;
        assert summaries[..i + 1][k].lspid == id;
      }
      if id == summaries[i].lspid {
        assert summaries[..i + 1][i].lspid == id;
      }
      if Lists(summaries[..i + 1], id) && id != summaries[i].lspid {
        var k :| 0 <= k < |summaries[..i + 1]| && summaries[..i + 1][k].lspid == id;
        assert summaries[..i][k].lspid == id;
      }
    }
  }

  class LinkStateDatabase {
    var lsps: Database

    ghost predicate Valid()
      reads this
    {
      PlaceholdersQuiet(lsps) && ProperIDs(lsps)
    }

    constructor ()
      ensures Valid() && lsps == map[]
    {
      lsps := map[];
    }

    /** Stores an LSP in a fresh entry, on which no flag is set. */
    method Install(id: LSPID, sequenceNumber: nat, remainingLifetime: nat, checksum: nat)
      requires Valid() && ProperID(id)
      modifies this
      ensures Valid() && lsps == old(lsps)[id := Entry(sequenceNumber, remainingLifetime, checksum, {}, {})]
    {
      lsps := lsps[id := Entry(sequenceNumber, remainingLifetime, checksum, {}, {})];
    }

    method ProcessCSNP(c: CSNP, from: Interface)
      requires Valid() && ProperID(c.start) && ProperID(c.end)
      requires forall s :: s in c.summaries ==> ProperID(s.lspid)
      modifies this
      ensures Valid()
      ensures forall id :: ProperID(id) ==> Lookup(lsps, id) == AfterCSNP(old(Lookup(lsps, id)), c, id, from)
    {
      ProcessSummaries(c.summaries, from);
      MarkOmitted(c, from);
    }

    method ProcessSummaries(summaries: seq<Summary>, from: Interface)
      requires Valid() && forall s :: s in summaries ==> ProperID(s.lspid)
      modifies this
      ensures Valid()
      ensures forall id :: Lookup(lsps, id) == AfterSummaries(old(Lookup(lsps, id)), summaries, id, from)
    {
      for i := 0 to |summaries|
        invariant Valid()
        invariant forall id :: Lookup(lsps, id) == AfterSummaries(old(Lookup(lsps, id)), summaries[..i], id, from)
      {
        var s := summaries[i];
        assert summaries[..i + 1][..i] == summaries[..i];
        lsps := lsps[s.lspid := Described(Lookup(lsps, s.lspid), s, from)];
      }
      assert summaries[..|summaries|] == summaries;
    }

    method MarkOmitted(c: CSNP, from: Interface)
      requires Valid() && ProperID(c.start) && ProperID(c.end)
      modifies this
      ensures Valid()
      ensures forall id :: ProperID(id) ==> Lookup(lsps, id) == AfterOmission(old(Lookup(lsps, id)), c, id, from)
    {
      var todo := lsps.Keys;
      while todo != {}
        invariant Valid() && todo <= lsps.Keys
        invariant forall id :: id in todo ==> Lookup(lsps, id) == old(Lookup(lsps, id))
        invariant forall id :: ProperID(id) && id !in todo ==>
                    Lookup(lsps, id) == AfterOmission(old(Lookup(lsps, id)), c, id, from)
      {
        var id :| id in todo;
        todo := todo - {id};
        var e := lsps[id];
        if e.remainingLifetime <= 0 || e.sequenceNumber <= 0 {
          continue;
        }
        if !RangeContains(c, id) {
          continue;
        }
        if !Lists(c.summaries, id) {
          lsps := lsps[id := SetSRM(e, from)];
        }
      }
    }

    /** A PSNP acknowledges: the listed LSPs need no more flooding on that interface. */
    method ProcessPSNP(summaries: seq<Summary>, from: Interface)
      requires Valid()
      modifies this
      ensures Valid() && lsps.Keys == old(lsps).Keys
      ensures forall id :: id in lsps ==>
                lsps[id] == if Lists(summaries, id) then ClearSRM(old(lsps)[id], from) else old(lsps)[id]
    {
      for i := 0 to |summaries|
        invariant Valid() && lsps.Keys == old(lsps).Keys
        invariant forall id :: id in lsps ==>
                    lsps[id] == if Lists(summaries[..i], id) then ClearSRM(old(lsps)[id], from) else old(lsps)[id]
      {
        var id := summaries[i].lspid;
        ListsMore(summaries, i);
        if id in lsps {
          lsps := lsps[id := ClearSRM(lsps[id], from)];
        }
      }
      assert summaries[..|summaries|] == summaries;
    }

    method SetSRMAllLSPs(ifa: Interface)
      requires Valid()
      modifies this
      ensures Valid() && lsps.Keys == old(lsps).Keys
      ensures forall id :: id in lsps ==> lsps[id] == SetSRM(old(lsps)[id], ifa)
    {
      var todo := lsps.Keys;
      while todo != {}
        invariant Valid() && todo <= lsps.Keys == old(lsps).Keys
        invariant forall id :: id in lsps ==>
                    lsps[id] == if id in todo then old(lsps)[id] else SetSRM(old(lsps)[id], ifa)
      {
        var id :| id in todo;
        todo := todo - {id};
        lsps := lsps[id := SetSRM(lsps[id], ifa)];
      }
    }

    /** Sending PSNPs clears all requests. */
    method ClearAllSSNFlags()
      requires Valid()
      modifies this
      ensures Valid() && lsps.Keys == old(lsps).Keys
      ensures forall id :: id in lsps ==> lsps[id] == old(lsps)[id].(ssn := {})
    {
      var todo := lsps.Keys;
      while todo != {}
        invariant Valid() && todo <= lsps.Keys == old(lsps).Keys
        invariant forall id :: id in lsps ==>
                    lsps[id] == if id in todo then old(lsps)[id] else old(lsps)[id].(ssn := {})
      {
        var id :| id in todo;
        todo := todo - {id};
        lsps := lsps[id := lsps[id].(ssn := {})];
      }
    }

    /** An LSP whose last second has begun is deleted, the others grow older. */
    method DecrementRemainingLifetimes()
      requires Valid()
      modifies this
      ensures Valid()
      ensures forall id :: id in lsps <==> id in old(lsps) && old(lsps)[id].remainingLifetime > 1
      ensures forall id :: id in lsps ==>
                lsps[id] == old(lsps)[id].(remainingLifetime := old(lsps)[id].remainingLifetime - 1)
    {
      var todo := lsps.Keys;
      while todo != {}
        invariant Valid() && todo <= lsps.Keys <= old(lsps).Keys
        invariant forall id :: id in todo ==> lsps[id] == old(lsps)[id]
        invariant forall id :: id in old(lsps) && id !in todo ==> (id in lsps <==> old(lsps)[id].remainingLifetime > 1)
        invariant forall id :: id in lsps && id !in todo ==>
                    lsps[id] == old(lsps)[id].(remainingLifetime := old(lsps)[id].remainingLifetime - 1)
      {
        var id :| id in todo;
        todo := todo - {id};
        if lsps[id].remainingLifetime <= 1 {
          lsps := lsps - {id};
          continue;
        }
        lsps := lsps[id := lsps[id].(remainingLifetime := lsps[id].remainingLifetime - 1)];
      }
    }

    /** What is flooded: every marked LSP on every marked interface that is not passive, and
        never a placeholder. */
    method SendLSPDUs(passive: set<Interface>) returns (sent: set<(LSPID, Interface)>)
      requires Valid()
      ensures forall id, ifa :: (id, ifa) in sent <==> id in lsps && ifa in lsps[id].srm && ifa !in passive
      ensures forall id, ifa :: (id, ifa) in sent ==> lsps[id].sequenceNumber != 0
    {
      sent := {};
      var todo := lsps.Keys;
      while todo != {}
        invariant todo <= lsps.Keys
        invariant forall id, ifa :: (id, ifa) in sent <==>
                    id in lsps && id !in todo && ifa in lsps[id].srm && ifa !in passive
      {
        var id :| id in todo;
        sent := sent + (set ifa | ifa in lsps[id].srm && ifa !in passive :: (id, ifa));
        todo := todo - {id};
      }
    }
  }
}
