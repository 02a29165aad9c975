/** Paths of the route package: how two paths are compared, which one is preferred, and
    which ones share traffic. */
module Paths {
  import opened BGPTypes
  import opened Lexicographic
  import opened Options

  datatype IP = IP(higher: nat, lower: nat, isLegacy: bool)

  datatype UnknownAttribute =
    UnknownAttribute(optional: bool, transitive: bool, partial: bool, typeCode: nat, value: seq<nat>)

  datatype BGPPathA = BGPPathA(
    nextHop: IP, source: IP, localPref: nat, med: nat, bgpIdentifier: nat, originatorID: nat,
    aggregator: Option<Aggregator>, ebgp: bool, atomicAggregate: bool, origin: nat)

  datatype BGPPath = BGPPath(
    a: BGPPathA, asPath: Option<seq<Segment>>, clusterList: Option<seq<nat>>,
    communities: Option<seq<nat>>, largeCommunities: Option<seq<LargeCommunity>>,
    unknownAttributes: seq<UnknownAttribute>, pathIdentifier: nat, asPathLen: nat)

  datatype FIBPath = FIBPath(src: IP, nextHop: IP, priority: int, protocol: int, kind: int, table: int)

  /** Other covers the path types without an implementation (OSPF is 3, IS-IS is 4). */
  datatype Path = Static(staticNextHop: IP) | BGP(bgp: BGPPath) | FIB(fib: FIBPath) | Other(code: nat)

  /** A path as the tables hold it: a pointer, told apart from pointers to equal paths. */
  datatype PathPtr = PathPtr(id: nat, path: Path)

  function TypeOf(p: Path): (t: nat) {
    match p
    case Static(_) => 1
    case BGP(_) => 2
    case FIB(_) => 5
    case Other(code) => code
  }

  // ---------------------------------------------------------------- sameness

  function CompareIP(x: IP, y: IP): (r: int)
    ensures -1 <= r <= 1
  {
    if x.higher > y.higher then 1
    else if x.higher < y.higher then -1
    else if x.lower > y.lower then 1
    else if x.lower < y.lower then -1
    else 0
  }

  predicate SameAttributes(b: BGPPathA, c: BGPPathA) {
    && CompareIP(b.nextHop, c.nextHop) == 0
    && CompareIP(b.source, c.source) == 0
    && b.localPref == c.localPref && b.med == c.med
    && b.bgpIdentifier == c.bgpIdentifier && b.originatorID == c.originatorID
    && b.ebgp == c.ebgp && b.atomicAggregate == c.atomicAggregate && b.origin == c.origin
    && b.aggregator == c.aggregator
  }

  /** Unknown attributes only matter when both paths carry communities. */
  predicate SameBGP(b: BGPPath, c: BGPPath) {
    && b.pathIdentifier == c.pathIdentifier
    && SameAttributes(b.a, c.a)
    && b.asPath == c.asPath
    && b.clusterList == c.clusterList
    && b.communities == c.communities
    && (b.communities.Some? ==> b.unknownAttributes == c.unknownAttributes)
    && b.largeCommunities == c.largeCommunities
  }

  /** Compare: the test by which a withdrawal finds the path it takes away. */
  predicate Same(p: Path, q: Path) {
    match (p, q)
    case (BGP(b), BGP(c)) => SameBGP(b, c)
    case (Static(x), Static(y)) => CompareIP(x, y) == 0
    case _ => false
  }

  /** Sameness is symmetric and transitive, and reflexive exactly on BGP and static paths:
      a FIB path is not even the same as itself. */
  lemma SameIsPartialEquivalence(p: Path, q: Path, r: Path)
    ensures Same(p, q) <==> Same(q, p)
    ensures Same(p, q) && Same(q, r) ==> Same(p, r)
    ensures Same(p, p) <==> p.BGP? || p.Static?
  {
  }

  function AnyVersion(x: IP): (r: IP) {
    x.(isLegacy := false)
  }

  /** A path with the fields blanked that sameness does not look at: the IP version of addresses,
      the cached length of the AS path, and unknown attributes unless there are communities. */
  function Essence(p: Path): (r: Path) {
    match p
    case Static(x) => Static(AnyVersion(x))
    case BGP(b) =>
      BGP(b.(a := b.a.(nextHop := AnyVersion(b.a.nextHop), source := AnyVersion(b.a.source)),
             asPathLen := 0,
             unknownAttributes := if b.communities.None? then [] else b.unknownAttributes))
    case _ => p
  }

  lemma SameAttributesIff(b: BGPPathA, c: BGPPathA)
    ensures SameAttributes(b, c) <==>
            b.(nextHop := AnyVersion(b.nextHop), source := AnyVersion(b.source)) ==
            c.(nextHop := AnyVersion(c.nextHop), source := AnyVersion(c.source))
  {
  }

  /** Two paths are the same exactly if both are BGP or both static and all that counts is equal. */
  lemma SameIff(p: Path, q: Path)
    ensures Same(p, q) <==> ((p.BGP? && q.BGP?) || (p.Static? && q.Static?)) && Essence(p) == Essence(q)
  {
    if p.BGP? && q.BGP? {
      SameAttributesIff(p.bgp.a, q.bgp.a);
    }
  }

  // ---------------------------------------------------------------- preference

  function RouterID(b: BGPPathA): (r: nat) {
    if b.originatorID != 0 then b.originatorID else b.bgpIdentifier
  }

  /** Positive when `b` is preferred to `c`. */
  function SelectBGP(b: BGPPath, c: BGPPath): (r: int)
    ensures -1 <= r <= 1
  {
    if c.a.localPref < b.a.localPref then 1
    else if c.a.localPref > b.a.localPref then -1
    else if c.asPathLen > b.asPathLen then 1
    else if c.asPathLen < b.asPathLen then -1
    else if c.a.origin > b.a.origin then 1
    else if c.a.origin < b.a.origin then -1
    else if c.a.med > b.a.med then 1
    else if c.a.med < b.a.med then -1
    else if c.a.ebgp && !b.a.ebgp then -1
    else if !c.a.ebgp && b.a.ebgp then 1
    else if RouterID(c.a) < RouterID(b.a) then 1
    else if RouterID(c.a) > RouterID(b.a) then -1
    else if c.clusterList.Some? && b.clusterList.Some? && |c.clusterList.value| < |b.clusterList.value| then 1
    else if c.clusterList.Some? && b.clusterList.Some? && |c.clusterList.value| > |b.clusterList.value| then -1
    else if CompareIP(c.a.source, b.a.source) == -1 then 1
    else if CompareIP(c.a.source, b.a.source) == 1 then -1
    else if CompareIP(c.a.nextHop, b.a.nextHop) == -1 then 1
    else if CompareIP(c.a.nextHop, b.a.nextHop) == 1 then -1
    else 0
  }

  function SelectFIB(s: FIBPath, t: FIBPath): (r: int)
    ensures -1 <= r <= 1
  {
    if CompareIP(s.nextHop, t.nextHop) != 0 then CompareIP(s.nextHop, t.nextHop)
    else if CompareIP(s.src, t.src) != 0 then CompareIP(s.src, t.src)
    else if s.priority < t.priority then -1
    else if s.priority > t.priority then 1
    else if s.protocol < t.protocol then -1
    else if s.protocol > t.protocol then 1
    else if s.table < t.table then -1
    else if s.table > t.table then 1
    else 0
  }

  function Select(p: Path, q: Path): (r: int)
    ensures -1 <= r <= 1
  {
    if TypeOf(p) > TypeOf(q) then 1
    else if TypeOf(p) < TypeOf(q) then -1
    else match (p, q)
      case (BGP(b), BGP(c)) => SelectBGP(b, c)
      case (Static(x), Static(y)) => CompareIP(x, y)
      case (FIB(s), FIB(t)) => SelectFIB(s, t)
      case _ => 0
  }

  /** Equal: the test by which a replacement finds the path it overwrites. */
  predicate Equal(p: Path, q: Path) {
    && TypeOf(p) == TypeOf(q)
    && (p.BGP? && q.BGP? ==> p.bgp.pathIdentifier == q.bgp.pathIdentifier)
    && Select(p, q) == 0
  }

  predicate ECMPBGP(b: BGPPath, c: BGPPath) {
    && b.a.localPref == c.a.localPref
    && b.asPathLen == c.asPathLen
    && b.a.med == c.a.med
    && b.a.origin == c.a.origin
  }

  predicate ECMPFIB(s: FIBPath, t: FIBPath) {
    && CompareIP(s.src, t.src) == 0
    && s.priority == t.priority
    && s.protocol == t.protocol
    && s.kind == t.kind
    && s.table == t.table
  }

  /** Whether two paths can share traffic. There is no answer, but a panic, for a path of an
      unknown type, and for a BGP or FIB path and one of another type. */
  function ECMP(p: Path, q: Path): (r: Option<bool>) {
    match p
    case BGP(b) => if q.BGP? then Some(ECMPBGP(b, q.bgp)) else None
    case Static(_) => Some(true)
    case FIB(s) => if q.FIB? then Some(ECMPFIB(s, q.fib)) else None
    case Other(_) => None
  }

  /** Swapping the operands flips the sign, for all BGP paths. */
  lemma SelectAntisymmetric(b: BGPPath, c: BGPPath)
    ensures SelectBGP(b, c) == -SelectBGP(c, b)
  {
  }

  /** What a BGP path is judged by, the most important first; more is better. The lengths of cluster
      lists count only between paths that both have one. */
  function Merits(b: BGPPath, withLists: bool): (m: seq<int>)
    ensures |m| == 11
  {
    [
      b.a.localPref,
      -(b.asPathLen as int),
      -(b.a.origin as int),
      -(b.a.med as int),
      if b.a.ebgp then 1 else 0,
      if b.a.originatorID == 0 then b.a.bgpIdentifier else b.a.originatorID,
      if withLists && b.clusterList.Some? then |b.clusterList.value| else 0,
      b.a.source.higher,
      b.a.source.lower,
      b.a.nextHop.higher,
      b.a.nextHop.lower
    ]
  }

  function MeritsFIB(s: FIBPath): (m: seq<int>)
    ensures |m| == 7
  {
    [s.nextHop.higher, s.nextHop.lower, s.src.higher, s.src.lower, s.priority, s.protocol, s.table]
  }

  predicate BothHaveLists(b: BGPPath, c: BGPPath) {
    b.clusterList.Some? && c.clusterList.Some?
  }

  /** What a path of a known type is judged by next to `q`: its type first, then the merits of the type. */
  function MeritsOf(p: Path, q: Path): (m: seq<int>) {
    match p
    case Static(x) => [1, x.higher, x.lower]
    case BGP(b) => [2] + Merits(b, q.BGP? && BothHaveLists(b, q.bgp))
    case FIB(s) => [5] + MeritsFIB(s)
    case Other(code) => [code]
  }

  lemma DecidedBy(b: BGPPath, c: BGPPath, i: nat)
    requires i <= 11
    requires var m, n := Merits(b, BothHaveLists(b, c)), Merits(c, BothHaveLists(b, c));
             m[..i] == n[..i] && (i < 11 ==> m[i] != n[i])
    ensures var m, n := Merits(b, BothHaveLists(b, c)), Merits(c, BothHaveLists(b, c));
            SelectBGP(b, c) == if i == 11 then 0 else if m[i] > n[i] then 1 else -1
  {
    var m, n := Merits(b, BothHaveLists(b, c)), Merits(c, BothHaveLists(b, c));
    assert forall j :: 0 <= j < i ==> m[j] == m[..i][j] && n[j] == n[..i][j];
    assert 0 < i ==> m[0] == n[0];
    assert 1 < i ==> m[1] == n[1];
    assert 2 < i ==> m[2] == n[2];
    assert 3 < i ==> m[3] == n[3];
    assert 4 < i ==> m[4] == n[4];
    assert 5 < i ==> m[5] == n[5];
    assert 6 < i ==> m[6] == n[6];
    assert 7 < i ==> m[7] == n[7];
    assert 8 < i ==> m[8] == n[8];
    assert 9 < i ==> m[9] == n[9];
    assert 10 < i ==> m[10] == n[10];
  }

  lemma DecidedByFIB(s: FIBPath, t: FIBPath, i: nat)
    requires i <= 7
    requires MeritsFIB(s)[..i] == MeritsFIB(t)[..i] && (i < 7 ==> MeritsFIB(s)[i] != MeritsFIB(t)[i])
    ensures SelectFIB(s, t) == if i == 7 then 0 else if MeritsFIB(s)[i] > MeritsFIB(t)[i] then 1 else -1
  {
    var m, n := MeritsFIB(s), MeritsFIB(t);
    assert forall j :: 0 <= j < i ==> m[j] == m[..i][j] && n[j] == n[..i][j];
    assert 0 < i ==> m[0] == n[0];
    assert 1 < i ==> m[1] == n[1];
    assert 2 < i ==> m[2] == n[2];
    assert 3 < i ==> m[3] == n[3];
    assert 4 < i ==> m[4] == n[4];
    assert 5 < i ==> m[5] == n[5];
    assert 6 < i ==> m[6] == n[6];
  }

  /** Of two BGP paths the one is preferred in whose favour the first differing merit is. */
  lemma PreferredBGPIff(b: BGPPath, c: BGPPath)
    ensures Weighs(SelectBGP(b, c), Merits(b, BothHaveLists(b, c)), Merits(c, BothHaveLists(b, c)))
  {
    hide SelectBGP, Weighs;
    var m, n := Merits(b, BothHaveLists(b, c)), Merits(c, BothHaveLists(b, c));
    var i := FirstDifference(m, n);
    DecidedBy(b, c, i);
    WeighsAt(SelectBGP(b, c), m, n, i);
  }

  lemma PreferredFIBIff(s: FIBPath, t: FIBPath)
    ensures Weighs(SelectFIB(s, t), MeritsFIB(s), MeritsFIB(t))
  {
    hide SelectFIB, Weighs;
    var m, n := MeritsFIB(s), MeritsFIB(t);
    var i := FirstDifference(m, n);
    DecidedByFIB(s, t, i);
    WeighsAt(SelectFIB(s, t), m, n, i);
  }

  lemma PreferredStaticIff(x: IP, y: IP)
    ensures Weighs(CompareIP(x, y), [x.higher, x.lower], [y.higher, y.lower])
  {
    hide Weighs;
    var m, n: seq<int> := [x.higher, x.lower], [y.higher, y.lower];
    var i := FirstDifference(m, n);
    assert forall j :: 0 <= j < i ==> m[j] == m[..i][j] && n[j] == n[..i][j];
    assert 0 < i ==> m[0] == n[0];
    assert 1 < i ==> m[1] == n[1];
    WeighsAt(CompareIP(x, y), m, n, i);
  }

  /** A path of a known type is preferred to another exactly if the first merit in which the two
      differ is in its favour. */
  lemma PreferredIff(p: Path, q: Path)
    requires !p.Other? && !q.Other?
    ensures Weighs(Select(p, q), MeritsOf(p, q), MeritsOf(q, p))
  {
    hide SelectBGP, SelectFIB, CompareIP, Merits, MeritsFIB, Beats;
    var m, n := MeritsOf(p, q), MeritsOf(q, p);
    if m[0] != n[0] {
      BeatsAt(m, n, 0);
      BeatsAt(n, m, 0);
    } else {
      assert m == [m[0]] + m[1..] && n == [n[0]] + n[1..];
      BeatsBehind(m[0], m[1..], n[1..]);
      BeatsBehind(m[0], n[1..], m[1..]);
      match (p, q)
      case (BGP(b), BGP(c)) => PreferredBGPIff(b, c);
      case (FIB(s), FIB(t)) => PreferredFIBIff(s, t);
      case (Static(x), Static(y)) => PreferredStaticIff(x, y);
    }
  }

  /** Two paths of known types are equal exactly if they tie in every merit and, being BGP paths,
      carry the same path identifier. */
  lemma EqualIff(p: Path, q: Path)
    requires !p.Other? && !q.Other?
    ensures Equal(p, q) <==> MeritsOf(p, q) == MeritsOf(q, p) &&
                             (p.BGP? && q.BGP? ==> p.bgp.pathIdentifier == q.bgp.pathIdentifier)
  {
    hide SelectBGP, SelectFIB, CompareIP, Merits, MeritsFIB;
    PreferredIff(p, q);
    assert MeritsOf(p, q)[0] == TypeOf(p) && MeritsOf(q, p)[0] == TypeOf(q);
  }

  /** BGP paths share traffic exactly if they tie in the first four merits. FIB paths do exactly if
      they are equal but for the next hop, static paths always. */
  lemma ECMPIff(p: Path, q: Path)
    ensures p.BGP? && q.BGP? ==>
              (ECMP(p, q) == Some(true) <==> Merits(p.bgp, false)[..4] == Merits(q.bgp, false)[..4])
    ensures p.FIB? && q.FIB? ==>
              (ECMP(p, q) == Some(true) <==>
               p.fib.(nextHop := q.fib.nextHop, src := AnyVersion(p.fib.src)) ==
               q.fib.(src := AnyVersion(q.fib.src)))
    ensures p.Static? ==> ECMP(p, q) == Some(true)
    ensures ECMP(p, q) == None <==> p.Other? || (p.BGP? && !q.BGP?) || (p.FIB? && !q.FIB?)
  {
    if p.BGP? && q.BGP? {
      var m, n := Merits(p.bgp, false), Merits(q.bgp, false);
      if m[..4] == n[..4] {
        assert m[..4][0] == n[..4][0] && m[..4][1] == n[..4][1] && m[..4][2] == n[..4][2] && m[..4][3] == n[..4][3];
      }
    }
  }

  /** Preference carries over from `b` over `c` and `c` over `d` to `b` over `d`. */
  predicate CarriesOver(b: BGPPath, c: BGPPath, d: BGPPath) {
    && (SelectBGP(b, c) >= 0 && SelectBGP(c, d) >= 0 ==> SelectBGP(b, d) >= 0)
    && (SelectBGP(b, c) == 1 && SelectBGP(c, d) >= 0 ==> SelectBGP(b, d) == 1)
    && (SelectBGP(b, c) >= 0 && SelectBGP(c, d) == 1 ==> SelectBGP(b, d) == 1)
  }

  /** Exactly two of three paths carry a cluster list. */
  predicate TwoOfThree(b: bool, c: bool, d: bool) {
    (b && c && !d) || (b && !c && d) || (!b && c && d)
  }

  lemma SelectTransitive(b: BGPPath, c: BGPPath, d: BGPPath)
    requires !TwoOfThree(b.clusterList.Some?, c.clusterList.Some?, d.clusterList.Some?)
    ensures CarriesOver(b, c, d)
  {
  }

  ghost predicate Carries(b: BGPPath, withB: bool, c: BGPPath, withC: bool, d: BGPPath, withD: bool) {
    b.clusterList.Some? == withB && c.clusterList.Some? == withC && d.clusterList.Some? == withD
  }

  /** A path that ties with its like up to the cluster list. */
  function Tied(clusterIDs: Option<seq<nat>>, source: nat): (p: BGPPath)
    ensures p.clusterList == clusterIDs
  {
    BGPPath(
      BGPPathA(IP(0, 0, true), IP(0, source, true), 100, 0, 1, 0, None, true, false, 0),
      Some([]), clusterIDs, None, None, [], 0, 0)
  }

  lemma MixedListsCycle(withB: bool, withC: bool, withD: bool) returns (b: BGPPath, c: BGPPath, d: BGPPath)
    requires TwoOfThree(withB, withC, withD)
    ensures Carries(b, withB, c, withC, d, withD) && !CarriesOver(b, c, d)
  {
    if !withD {
      // b beats c by its list, c beats d and d beats b by their sources
      b, c, d := Tied(Some([7, 7]), 1), Tied(Some([7]), 3), Tied(None, 2);
    } else if !withC {
      b, c, d := Tied(Some([7]), 3), Tied(None, 2), Tied(Some([7, 7]), 1);
    } else {
      b, c, d := Tied(None, 2), Tied(Some([7, 7]), 1), Tied(Some([7]), 3);
    }
  }

  /** Exactly when is the preference a consistent order? For every choice of which of three
      paths carry a cluster list: always, unless exactly two of them do. */
  lemma SelectTransitiveIff(withB: bool, withC: bool, withD: bool)
    ensures (forall b, c, d :: Carries(b, withB, c, withC, d, withD) ==> CarriesOver(b, c, d))
            <==> !TwoOfThree(withB, withC, withD)
  {
    if !TwoOfThree(withB, withC, withD) {
      forall b, c, d | Carries(b, withB, c, withC, d, withD)
        ensures CarriesOver(b, c, d)
      {
        SelectTransitive(b, c, d);
      }
    } else {
      var b, c, d := MixedListsCycle(withB, withC, withD);
      assert Carries(b, withB, c, withC, d, withD) && !CarriesOver(b, c, d);
    }
  }

  // ---------------------------------------------------------------- sorting

  ghost predicate InOrder<T>(before: (T, T) -> bool, s: seq<T>) {
    forall i, j :: 0 <= i < j < |s| ==> before(s[i], s[j])
  }

  /** `before` is total and transitive on `all`. */
  ghost predicate Orders<T>(before: (T, T) -> bool, all: set<T>) {
    && (forall x, y :: x in all && y in all ==> before(x, y) || before(y, x))
    && (forall x, y, z :: x in all && y in all && z in all && before(x, y) && before(y, z) ==> before(x, z))
  }

  ghost predicate Within<T>(s: seq<T>, all: set<T>) {
    forall i :: 0 <= i < |s| ==> s[i] in all
  }

  lemma PutFirst<T>(before: (T, T) -> bool, all: set<T>, p: T, s: seq<T>)
    requires Orders(before, all) && p in all && Within(s, all) && InOrder(before, s)
    requires s != [] ==> before(p, s[0])
    ensures InOrder(before, [p] + s)
  {
    forall j | 0 <= j < |s|
      ensures before(p, s[j])
    {
      assert before(p, s[0]) && (j > 0 ==> before(s[0], s[j]));
    }
  }

  lemma {:induction false} InsertInOrder<T>(before: (T, T) -> bool, all: set<T>, p: T, s: seq<T>) returns (r: seq<T>)
    requires Orders(before, all) && p in all && Within(s, all) && InOrder(before, s)
    ensures InOrder(before, r) && Within(r, all) && multiset(r) == multiset{p} + multiset(s)
    ensures r != [] && (r[0] == p || (s != [] && r[0] == s[0]))
    decreases |s|
  {
    if s == [] || before(p, s[0]) {
      r := [p] + s;
      PutFirst(before, all, p, s);
    } else {
      assert s == [s[0]] + s[1..];
      var rest := InsertInOrder(before, all, p, s[1..]);
      assert before(s[0], rest[0]);
      PutFirst(before, all, s[0], rest);
      r := [s[0]] + rest;
    }
  }

  lemma {:induction false} OrderExists<T>(before: (T, T) -> bool, all: set<T>, s: seq<T>) returns (r: seq<T>)
    requires Orders(before, all) && Within(s, all)
    ensures InOrder(before, r) && Within(r, all) && multiset(r) == multiset(s)
    decreases |s|
  {
    if s == [] {
      r := [];
    } else {
      assert s == [s[0]] + s[1..];
      var rest := OrderExists(before, all, s[1..]);
      r := InsertInOrder(before, all, s[0], rest);
    }
  }

  /** `y` may follow `x`: it is not preferred to it. */
  predicate MayPrecede(x: PathPtr, y: PathPtr) {
    Select(y.path, x.path) <= 0
  }

  /** No later path is preferred to an earlier one. */
  ghost predicate Sorted(paths: seq<PathPtr>) {
    InOrder(MayPrecede, paths)
  }

  ghost predicate AllBGP(paths: seq<PathPtr>) {
    forall x :: x in paths ==> x.path.BGP?
  }

  predicate HasList(p: PathPtr) {
    p.path.BGP? && p.path.bgp.clusterList.Some?
  }

  /** All paths carry a cluster list, or at most one of them does. */
  ghost predicate ListsComparable(paths: seq<PathPtr>) {
    || (forall x :: x in paths ==> HasList(x))
    || (forall x, y :: x in paths && y in paths && HasList(x) && HasList(y) ==> x == y)
  }

  /** What sort.Slice leaves behind when the paths can be sorted; ties are in any order. */
  ghost predicate SortedPermutation(sorted: seq<PathPtr>, paths: seq<PathPtr>) {
    Sorted(sorted) && multiset(sorted) == multiset(paths)
  }

  lemma PreferenceCarriesOver(paths: seq<PathPtr>, x: PathPtr, y: PathPtr, z: PathPtr)
    requires AllBGP(paths) && ListsComparable(paths) && x in paths && y in paths && z in paths
    ensures MayPrecede(x, y) && MayPrecede(y, z) ==> MayPrecede(x, z)
    ensures MayPrecede(x, z) || MayPrecede(z, x)
  {
    SelectAntisymmetric(x.path.bgp, y.path.bgp);
    SelectAntisymmetric(y.path.bgp, z.path.bgp);
    SelectAntisymmetric(x.path.bgp, z.path.bgp);
    if !TwoOfThree(HasList(x), HasList(y), HasList(z)) {
      SelectTransitive(x.path.bgp, y.path.bgp, z.path.bgp);
    }
  }

  predicate Higher(x: IP, y: IP) {
    x.higher > y.higher || (x.higher == y.higher && x.lower > y.lower)
  }

  /** The keys behind the one for eBGP: of two paths the higher router ID, the longer cluster list
      if both have one, the higher source and the higher next hop come first. */
  predicate TieBroken(b: BGPPath, c: BGPPath) {
    var idB := if b.a.originatorID == 0 then b.a.bgpIdentifier else b.a.originatorID;
    var idC := if c.a.originatorID == 0 then c.a.bgpIdentifier else c.a.originatorID;
    || idB > idC
    || (idB == idC &&
        if b.clusterList.Some? && c.clusterList.Some? && |b.clusterList.value| != |c.clusterList.value|
        then |b.clusterList.value| > |c.clusterList.value|
        else
          || Higher(b.a.source, c.a.source)
          || (!Higher(c.a.source, b.a.source) && !Higher(c.a.nextHop, b.a.nextHop)))
  }

  /** `c` is no better than `b`: a lower local preference or, that being equal, a longer AS path or,
      that being equal, a higher origin, then a higher MED, then iBGP against eBGP. */
  predicate NoBetter(c: BGPPath, b: BGPPath) {
    || c.a.localPref < b.a.localPref
    || (c.a.localPref == b.a.localPref &&
        (|| c.asPathLen > b.asPathLen
         || (c.asPathLen == b.asPathLen &&
             (|| c.a.origin > b.a.origin
              || (c.a.origin == b.a.origin &&
                  (|| c.a.med > b.a.med
                   || (c.a.med == b.a.med &&
                       (|| (!c.a.ebgp && b.a.ebgp)
                        || (c.a.ebgp == b.a.ebgp && TieBroken(b, c))))))))))
  }

  /** In BGP paths that are in order no path is better than the first. */
  lemma SortedStartsBest(paths: seq<PathPtr>)
    requires Sorted(paths) && AllBGP(paths)
    ensures forall x :: x in paths ==> NoBetter(x.path.bgp, paths[0].path.bgp)
  {
    forall i | 0 <= i < |paths|
      ensures NoBetter(paths[i].path.bgp, paths[0].path.bgp)
    {
      assert i > 0 ==> MayPrecede(paths[0], paths[i]);
    }
  }

  /** Comparable BGP paths can be sorted. */
  lemma SortedPermutationExists(paths: seq<PathPtr>)
    requires AllBGP(paths) && ListsComparable(paths)
    ensures exists sorted :: SortedPermutation(sorted, paths)
  {
    forall x, y, z | x in paths && y in paths && z in paths
      ensures MayPrecede(x, y) && MayPrecede(y, z) ==> MayPrecede(x, z)
      ensures MayPrecede(x, z) || MayPrecede(z, x)
    {
      PreferenceCarriesOver(paths, x, y, z);
    }
    var sorted := OrderExists(MayPrecede, (set x | x in paths), paths);
    assert SortedPermutation(sorted, paths);
  }
}
