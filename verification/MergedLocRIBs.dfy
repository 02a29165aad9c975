/** The merged Loc-RIB of RIS mirror: routes announced by several sources are stored once. The
    first path of a stored route is added to the Loc-RIB behind, and withdrawn from it when the
    last source has withdrawn the route. */
module MergedLocRIBs {
  import opened Options
  import opened Prefixes
  import opened Paths
  import opened Routes
  import opened Trie

  type Source(==, !new) = nat

  /** An announced route; announcements are recognised by a hash of all of the message, taken to be
      free of collisions. Only the first path matters to the Loc-RIB, and `rest` stands for what
      the message has beyond the paths. */
  datatype Route = Route(pfx: Prefix, paths: seq<Path>, rest: nat)

  // ---------------------------------------------------------------- route containers

  /** The first index of a source, -1 without one. */
  method GetSourceIndex(sources: seq<Source>, src: Source) returns (i: int)
    ensures -1 <= i < |sources|
    ensures i >= 0 ==> sources[i] == src
    ensures i == -1 <==> src !in sources
    ensures forall j :: 0 <= j < i ==> sources[j] != src
  {
    for j := 0 to |sources|
      invariant src !in sources[..j]
    {
      if sources[j] == src {
        assert forall k :: 0 <= k < j ==> sources[k] == sources[..j][k];
        return j;
      }
      assert sources[..j + 1] == sources[..j] + [sources[j]];
    }
    assert sources[..|sources|] == sources;
    i := -1;
  }

  function IndexOf(sources: seq<Source>, src: Source): (i: nat)
    requires src in sources
    ensures i < |sources| && sources[i] == src
    ensures forall j :: 0 <= j < i ==> sources[j] != src
  {
    if sources[0] == src then 0 else 1 + IndexOf(sources[1..], src)
  }

  /** Without one announcement of `src`: the last source moves into the gap. */
  function Dropped(sources: seq<Source>, src: Source): (r: seq<Source>) {
    if src !in sources then sources
    else sources[IndexOf(sources, src) := sources[|sources| - 1]][..|sources| - 1]
  }

  lemma Cancel(a: multiset<Source>, b: multiset<Source>, c: multiset<Source>)
    requires a + c == b + c
    ensures a == b
  {
    assert a == (a + c) - c && b == (b + c) - c;
  }

  lemma SwapRemoved(s: seq<Source>, i: nat)
    requires i < |s|
    ensures multiset(s[i := s[|s| - 1]][..|s| - 1]) == multiset(s) - multiset{s[i]}
  {
    var last := |s| - 1;
    var t := s[i := s[last]];
    assert t == t[..last] + [s[last]];
    assert multiset(t) == multiset(s) - multiset{s[i]} + multiset{s[last]};
    assert multiset(t) == multiset(t[..last]) + multiset{s[last]};
    Cancel(multiset(t[..last]), multiset(s) - multiset{s[i]}, multiset{s[last]});
  }

  lemma DroppedOne(sources: seq<Source>, src: Source)
    ensures multiset(Dropped(sources, src)) == multiset(sources) - multiset{src}
  {
    if src in sources {
      SwapRemoved(sources, IndexOf(sources, src));
    }
  }

  method RemoveSource(sources: seq<Source>, src: Source) returns (r: seq<Source>)
    ensures r == Dropped(sources, src)
    ensures multiset(r) == multiset(sources) - multiset{src}
  {
    DroppedOne(sources, src);
    var i := GetSourceIndex(sources, src);
    if i < 0 {
      return sources;
    }
    assert i == IndexOf(sources, src);
    var last := |sources| - 1;
    r := sources[i := sources[last]][..last];
  }

  // ---------------------------------------------------------------- steps

  datatype State = State(routes: map<Route, seq<Source>>, rib: Table)

  const INITIAL := State(map[], map[])

  /** `sorted` is what the path selection of the Loc-RIB leaves of the changed list, and `id` tells
      the pointer to the added path from others. */
  datatype Step =
    | Announce(src: Source, r: Route, id: nat, sorted: seq<PathPtr>)
    | Withdraw(src: Source, r: Route, sorted: seq<PathPtr>)

  /** Some order of a prefix's paths, and a selection that does not panic. */
  ghost predicate Selects(t: Table, pfx: Prefix, sorted: seq<PathPtr>) {
    pfx in t ==> multiset(sorted) == multiset(t[pfx]) && EqualPathCount(sorted).Some?
  }

  function Rearranged(t: Table, pfx: Prefix, sorted: seq<PathPtr>): (r: Table) {
    if pfx in t then t[pfx := sorted] else t
  }

  /** The Loc-RIB's lists with the first path of `r` appended. */
  function WithFirst(t: Table, r: Route, id: nat): (m: Table)
    requires r.paths != []
  {
    Added(t, r.pfx, Some(PathPtr(id, r.paths[0])))
  }

  /** The Loc-RIB's lists without the first path that is the same as the first path of `r`. */
  function WithoutFirst(t: Table, r: Route): (m: Table)
    requires r.paths != []
  {
    Removed(t, r.pfx, Some(PathPtr(0, r.paths[0])))
  }

  /** The Loc-RIB is a trie, which stores the table the steps speak of for prefixes without host bits;
      announcements of other prefixes are no steps. A step that is not enabled otherwise, because a
      route has no path or the selection panics, ends the run. */
  ghost predicate Enabled(s: State, step: Step) {
    match step
    case Announce(src, r, id, sorted) =>
      r !in s.routes ==> WellFormed(r.pfx) && r.paths != [] && Selects(WithFirst(s.rib, r, id), r.pfx, sorted)
    case Withdraw(src, r, sorted) =>
      r in s.routes && Dropped(s.routes[r], src) == [] ==>
        r.paths != [] && Selects(WithoutFirst(s.rib, r), r.pfx, sorted)
  }

  ghost function Apply(s: State, step: Step): (t: State)
    requires Enabled(s, step)
  {
    match step
    case Announce(src, r, id, sorted) =>
      if r in s.routes then s.(routes := s.routes[r := s.routes[r] + [src]])
      else State(s.routes[r := [src]], Rearranged(WithFirst(s.rib, r, id), r.pfx, sorted))
    case Withdraw(src, r, sorted) =>
      if r !in s.routes then s
      else
        var left := Dropped(s.routes[r], src);
        if left != [] then s.(routes := s.routes[r := left])
        else State(s.routes - {r}, Rearranged(WithoutFirst(s.rib, r), r.pfx, sorted))
  }

  // ---------------------------------------------------------------- counting paths

  function At(t: Table, pfx: Prefix): (paths: seq<PathPtr>) {
    if pfx in t then t[pfx] else []
  }

  /** How many paths of a list are the same as `p`. */
  function SameCount(paths: seq<PathPtr>, p: Path): (n: nat) {
    if paths == [] then 0 else (if Same(paths[0].path, p) then 1 else 0) + SameCount(paths[1..], p)
  }

  lemma {:induction false} CountTogether(a: seq<PathPtr>, b: seq<PathPtr>, p: Path)
    ensures SameCount(a + b, p) == SameCount(a, p) + SameCount(b, p)
    decreases |a|
  {
    hide Same;
    if a == [] {
      assert a + b == b;
    } else {
      assert (a + b)[1..] == a[1..] + b;
      CountTogether(a[1..], b, p);
    }
  }

  lemma PullOut(b: seq<PathPtr>, x: PathPtr) returns (u: seq<PathPtr>, v: seq<PathPtr>)
    requires x in b
    ensures b == u + [x] + v && multiset(u + v) == multiset(b) - multiset{x}
  {
    var j :| 0 <= j < |b| && b[j] == x;
    u, v := b[..j], b[j + 1..];
    assert b == u + [x] + v;
    assert multiset(b) == multiset(u) + multiset{x} + multiset(v);
  }

  lemma {:induction false} CountPermutes(a: seq<PathPtr>, b: seq<PathPtr>, p: Path)
    requires multiset(a) == multiset(b)
    ensures SameCount(a, p) == SameCount(b, p)
    decreases |a|
  {
    hide Same, SameCount;
    if a == [] {
      assert |multiset(b)| == 0;
    } else {
      assert a[0] in multiset(b);
      var u, v := PullOut(b, a[0]);
      assert a == [a[0]] + a[1..];
      assert multiset(a[1..]) == multiset(a) - multiset{a[0]};
      CountPermutes(a[1..], u + v, p);
      CountTogether(u, v, p);
      CountTogether(u + [a[0]], v, p);
      CountTogether(u, [a[0]], p);
      CountTogether([a[0]], a[1..], p);
    }
  }

  /** Taking away the first path that is the same as `y` takes one from the count of every path that
      is the same as `y`, if there was any. */
  lemma {:induction false} CountRemoved(paths: seq<PathPtr>, y: Path, p: Path)
    ensures SameCount(RemoveFirst(paths, y), p) ==
            SameCount(paths, p) - if SameCount(paths, y) > 0 && Same(y, p) then 1 else 0
    decreases |paths|
  {
    if paths != [] {
      var q := paths[0].path;
      SameIsPartialEquivalence(q, y, p);
      SameIsPartialEquivalence(y, q, p);
      hide Same;
      CountRemoved(paths[1..], y, p);
      CountTogether([paths[0]], RemoveFirst(paths[1..], y), p);
    }
  }

  // ---------------------------------------------------------------- the invariant

  /** The stored routes for a prefix whose first path is the same as `p`. */
  ghost function Yielding(stored: set<Route>, pfx: Prefix, p: Path): (r: set<Route>) {
    set r | r in stored && r.pfx == pfx && r.paths != [] && Same(r.paths[0], p)
  }

  /** The Loc-RIB has as many paths that are the same as `p` as there are stored routes that yield
      such a path. */
  ghost predicate MirrorsAt(s: State, pfx: Prefix, p: Path) {
    SameCount(At(s.rib, pfx), p) == |Yielding(s.routes.Keys, pfx, p)|
  }

  ghost predicate Inv(s: State) {
    && (forall r :: r in s.routes ==> s.routes[r] != [] && r.paths != [] && WellFormed(r.pfx))
    && (forall pfx, p :: MirrorsAt(s, pfx, p))
  }

  lemma YieldingAdds(stored: set<Route>, r: Route, pfx: Prefix, p: Path)
    requires r !in stored && r.paths != []
    ensures |Yielding(stored + {r}, pfx, p)| ==
            |Yielding(stored, pfx, p)| + if r.pfx == pfx && Same(r.paths[0], p) then 1 else 0
  {
    hide Same;
    if r.pfx == pfx && Same(r.paths[0], p) {
      assert Yielding(stored + {r}, pfx, p) == Yielding(stored, pfx, p) + {r};
    } else {
      assert Yielding(stored + {r}, pfx, p) == Yielding(stored, pfx, p);
    }
  }

  lemma CountAdded(t: Table, r: Route, id: nat, sorted: seq<PathPtr>, p: Path)
    requires r.paths != [] && multiset(sorted) == multiset(At(t, r.pfx) + [PathPtr(id, r.paths[0])])
    ensures SameCount(sorted, p) == SameCount(At(t, r.pfx), p) + if Same(r.paths[0], p) then 1 else 0
  {
    hide Same;
    var x := PathPtr(id, r.paths[0]);
    CountTogether(At(t, r.pfx), [x], p);
    CountPermutes(sorted, At(t, r.pfx) + [x], p);
  }

  lemma AnnounceMirrors(s: State, step: Step, pfx: Prefix, p: Path)
    requires step.Announce? && Enabled(s, step) && step.r !in s.routes && MirrorsAt(s, pfx, p)
    ensures MirrorsAt(Apply(s, step), pfx, p)
  {
    hide Same, EqualPathCount, SameCount, Yielding;
    var r, t := step.r, Apply(s, step);
    YieldingAdds(s.routes.Keys, r, pfx, p);
    assert t.routes.Keys == s.routes.Keys + {r};
    if pfx == r.pfx {
      assert [] + Listed(Some(PathPtr(step.id, r.paths[0]))) == Listed(Some(PathPtr(step.id, r.paths[0])));
      CountAdded(s.rib, r, step.id, step.sorted, p);
    }
  }

  lemma CountWithdrawn(t: Table, r: Route, sorted: seq<PathPtr>, p: Path)
    requires r.paths != [] && Selects(WithoutFirst(t, r), r.pfx, sorted)
    ensures SameCount(At(Rearranged(WithoutFirst(t, r), r.pfx, sorted), r.pfx), p) ==
            SameCount(At(t, r.pfx), p) - if SameCount(At(t, r.pfx), r.paths[0]) > 0 && Same(r.paths[0], p) then 1 else 0
  {
    hide Same, SameCount, EqualPathCount;
    var left := RemoveFirst(At(t, r.pfx), r.paths[0]);
    CountRemoved(At(t, r.pfx), r.paths[0], p);
    assert At(WithoutFirst(t, r), r.pfx) == left;
    if r.pfx in WithoutFirst(t, r) {
      CountPermutes(sorted, left, p);
    }
  }

  lemma WithdrawMirrors(s: State, step: Step, pfx: Prefix, p: Path)
    requires step.Withdraw? && Enabled(s, step) && step.r in s.routes && Dropped(s.routes[step.r], step.src) == []
    requires MirrorsAt(s, pfx, p) && MirrorsAt(s, pfx, step.r.paths[0])
    ensures MirrorsAt(Apply(s, step), pfx, p)
  {
    hide Same, SameCount, Yielding, Selects, WithFirst, RemoveFirst;
    var r, t := step.r, Apply(s, step);
    var y := r.paths[0];
    SameIsPartialEquivalence(y, p, y);
    YieldingAdds(s.routes.Keys - {r}, r, pfx, p);
    YieldingAdds(s.routes.Keys - {r}, r, pfx, y);
    assert s.routes.Keys - {r} + {r} == s.routes.Keys && t.routes.Keys == s.routes.Keys - {r};
    if pfx == r.pfx {
      CountWithdrawn(s.rib, r, step.sorted, p);
    }
  }

  lemma SameMirrors(s: State, t: State, pfx: Prefix, p: Path)
    requires t.rib == s.rib && t.routes.Keys == s.routes.Keys && MirrorsAt(s, pfx, p)
    ensures MirrorsAt(t, pfx, p)
  {
  }

  lemma StepKeepsInv(s: State, step: Step)
    requires Inv(s) && Enabled(s, step)
    ensures Inv(Apply(s, step))
  {
    hide MirrorsAt, Same, WithFirst, WithoutFirst, Selects;
    var t := Apply(s, step);
    forall pfx, p
      ensures MirrorsAt(t, pfx, p)
    {
      assert MirrorsAt(s, pfx, p);
      if t.rib == s.rib && t.routes.Keys == s.routes.Keys {
        SameMirrors(s, t, pfx, p);
      } else if step.Announce? {
        AnnounceMirrors(s, step, pfx, p);
      } else {
        assert MirrorsAt(s, pfx, step.r.paths[0]);
        WithdrawMirrors(s, step, pfx, p);
      }
    }
  }

  // ---------------------------------------------------------------- every run

  ghost predicate Steps(s: State, t: State) {
    exists step :: Enabled(s, step) && Apply(s, step) == t
  }

  ghost predicate IsRun(run: seq<State>) {
    && run != [] && run[0] == INITIAL
    && forall i :: 0 <= i < |run| - 1 ==> Steps(run[i], run[i + 1])
  }

  lemma {:induction false} RunKeepsInv(run: seq<State>, i: nat)
    requires IsRun(run) && i < |run|
    ensures Inv(run[i])
  {
    if i > 0 {
      RunKeepsInv(run, i - 1);
      assert Steps(run[i - 1], run[(i - 1) + 1]);
      var step :| Enabled(run[i - 1], step) && Apply(run[i - 1], step) == run[i];
      StepKeepsInv(run[i - 1], step);
    } else {
      assert forall pfx, p :: Yielding({}, pfx, p) == {};
    }
  }

  /** Some path of the Loc-RIB for a prefix is the same as `p`. */
  ghost predicate Held(s: State, pfx: Prefix, p: Path) {
    exists x :: x in At(s.rib, pfx) && Same(x.path, p)
  }

  /** Some source holds a route for the prefix whose first path is the same as `p`. */
  ghost predicate Announced(s: State, pfx: Prefix, p: Path) {
    exists r :: r in s.routes && s.routes[r] != [] && r.pfx == pfx && r.paths != [] && Same(r.paths[0], p)
  }

  lemma {:induction false} CountedIff(paths: seq<PathPtr>, p: Path)
    ensures SameCount(paths, p) > 0 <==> exists x :: x in paths && Same(x.path, p)
    decreases |paths|
  {
    hide Same;
    if paths != [] {
      CountedIff(paths[1..], p);
      assert forall x :: x in paths <==> x == paths[0] || x in paths[1..];
    }
  }

  /** In every run the Loc-RIB holds a path exactly while some source announces it, up to sameness. */
  lemma HeldIffAnnounced(run: seq<State>, i: nat, pfx: Prefix, p: Path)
    requires IsRun(run) && i < |run|
    ensures Held(run[i], pfx, p) <==> Announced(run[i], pfx, p)
  {
    hide Same, SameCount;
    var s := run[i];
    RunKeepsInv(run, i);
    assert MirrorsAt(s, pfx, p);
    CountedIff(At(s.rib, pfx), p);
    var y := Yielding(s.routes.Keys, pfx, p);
    if Announced(s, pfx, p) {
      var r :| r in s.routes && s.routes[r] != [] && r.pfx == pfx && r.paths != [] && Same(r.paths[0], p);
      assert r in y;
    }
    if |y| > 0 {
      var r :| r in y;
      assert r in s.routes && s.routes[r] != [];
    }
  }

  /** Sameness says nothing about paths that are not even the same as themselves, so `p` counts as
      like itself too. */
  predicate Like(q: Path, p: Path) {
    q == p || Same(q, p)
  }

  function LikeCount(paths: seq<PathPtr>, p: Path): (n: nat) {
    if paths == [] then 0 else (if Like(paths[0].path, p) then 1 else 0) + LikeCount(paths[1..], p)
  }

  ghost function YieldingLike(stored: set<Route>, pfx: Prefix, p: Path): (r: set<Route>) {
    set r | r in stored && r.pfx == pfx && r.paths != [] && Like(r.paths[0], p)
  }

  /** The Loc-RIB has as many paths like `p` as there are stored routes that yield one. */
  ghost predicate MirrorsLike(s: State, pfx: Prefix, p: Path) {
    LikeCount(At(s.rib, pfx), p) == |YieldingLike(s.routes.Keys, pfx, p)|
  }

  ghost predicate AlwaysMirrored(p: Path) {
    forall run, i, pfx :: IsRun(run) && 0 <= i < |run| ==> MirrorsLike(run[i], pfx, p)
  }

  lemma {:induction false} LikeIsSame(paths: seq<PathPtr>, p: Path)
    requires p.BGP? || p.Static?
    ensures LikeCount(paths, p) == SameCount(paths, p)
    decreases |paths|
  {
    SameIsPartialEquivalence(p, p, p);
    hide Same;
    if paths != [] {
      LikeIsSame(paths[1..], p);
    }
  }

  ghost function StepTo(s: State, step: Step): (t: State)
    requires Enabled(s, step)
    ensures t == Apply(s, step) && Steps(s, t)
  {
    Apply(s, step)
  }

  /** The state after a first announcement. */
  lemma FirstAnnounced(r: Route, x: PathPtr)
    requires WellFormed(r.pfx) && |r.paths| == 1 && x == PathPtr(0, r.paths[0])
    ensures Enabled(INITIAL, Announce(0, r, 0, [x]))
    ensures Apply(INITIAL, Announce(0, r, 0, [x])) == State(map[r := [0]], map[r.pfx := [x]])
  {
    assert [] + Listed(Some(x)) == [x];
    assert EqualPathCount([x]) == Some(1);
  }

  /** The state after the last withdrawal of a route. */
  lemma LastWithdrawn(s: State, r: Route, paths: seq<PathPtr>)
    requires r.paths != [] && r in s.routes && s.routes[r] == [0] && s.rib == map[r.pfx := paths]
    requires RemoveFirst(paths, r.paths[0]) != [] && EqualPathCount(RemoveFirst(paths, r.paths[0])).Some?
    ensures var sorted := RemoveFirst(paths, r.paths[0]);
            && Enabled(s, Withdraw(0, r, sorted))
            && Apply(s, Withdraw(0, r, sorted)) == State(s.routes - {r}, map[r.pfx := sorted])
  {
    assert Dropped([0], 0) == [];
    hide RemoveFirst, EqualPathCount;
  }

  /** A path of any other type stays in the Loc-RIB after its only announcement is withdrawn. */
  lemma NeverWithdrawn(pfx: Prefix, p: Path) returns (run: seq<State>)
    requires WellFormed(pfx) && !p.BGP? && !p.Static?
    ensures IsRun(run) && |run| == 3 && run[0] == INITIAL
    ensures run[1].routes == map[Route(pfx, [p], 0) := [0]]
    ensures run[2] == State(map[], map[pfx := [PathPtr(0, p)]])
  {
    var r, x := Route(pfx, [p], 0), PathPtr(0, p);
    FirstAnnounced(r, x);
    assert RemoveFirst([x], p) == [x] && EqualPathCount([x]) == Some(1);
    hide Enabled, Apply;
    var s1 := StepTo(INITIAL, Announce(0, r, 0, [x]));
    LastWithdrawn(s1, r, [x]);
    var s2 := StepTo(s1, Withdraw(0, r, [x]));
    assert s1.routes - {r} == map[];
    run := [INITIAL, s1, s2];
  }

  /** A BGP path with its next hop taken for the other IP version is the same path. */
  function Twin(b: BGPPath): (c: BGPPath)
    ensures Same(BGP(b), BGP(c)) && c != b
  {
    b.(a := b.a.(nextHop := b.a.nextHop.(isLegacy := !b.a.nextHop.isLegacy)))
  }

  lemma SecondAnnounced(r: Route, q: Route, x: PathPtr, y: PathPtr)
    requires WellFormed(q.pfx) && |q.paths| == 1 && q != r && q.pfx == r.pfx && y == PathPtr(1, q.paths[0])
    requires ECMP(x.path, y.path).Some?
    ensures var s, step := State(map[r := [0]], map[r.pfx := [x]]), Announce(0, q, 1, [x, y]);
            Enabled(s, step) && Apply(s, step) == State(map[r := [0], q := [0]], map[r.pfx := [x, y]])
  {
    hide ECMP;
    var s := State(map[r := [0]], map[r.pfx := [x]]);
    assert [x] + Listed(Some(y)) == [x, y];
    assert [x, y][1..] == [y] && EqualPathCount([y]) == Some(1);
    assert EqualPathCount([x, y]).Some?;
    assert WithFirst(s.rib, q, 1) == map[r.pfx := [x, y]];
  }

  /** Paths that are the same can be asked whether they share traffic, and one is taken for the other. */
  lemma SameTaken(x: PathPtr, y: PathPtr)
    requires Same(x.path, y.path)
    ensures ECMP(x.path, y.path).Some?
    ensures RemoveFirst([x, y], y.path) == [y] && EqualPathCount([y]) == Some(1)
  {
    assert [x, y][1..] == [y];
  }

  /** Two announcements, and a withdrawal of the second that takes the first path. */
  lemma WrongOneTaken(r: Route, q: Route, x: PathPtr, y: PathPtr) returns (run: seq<State>)
    requires WellFormed(r.pfx) && |r.paths| == 1 && |q.paths| == 1 && q != r && q.pfx == r.pfx
    requires x == PathPtr(0, r.paths[0]) && y == PathPtr(1, q.paths[0])
    requires ECMP(x.path, y.path).Some? && RemoveFirst([x, y], q.paths[0]) == [y] && EqualPathCount([y]).Some?
    ensures IsRun(run) && |run| == 4 && run[0] == INITIAL
    ensures run[1].routes == map[r := [0]] && run[2].routes == map[r := [0], q := [0]]
    ensures run[3] == State(map[r := [0]], map[r.pfx := [y]])
  {
    hide Enabled, Apply, RemoveFirst, ECMP, EqualPathCount, WellFormed;
    FirstAnnounced(r, x);
    SecondAnnounced(r, q, x, y);
    var s1 := StepTo(INITIAL, Announce(0, r, 0, [x]));
    var s2 := StepTo(s1, Announce(0, q, 1, [x, y]));
    LastWithdrawn(s2, q, [x, y]);
    var s3 := StepTo(s2, Withdraw(0, q, [y]));
    assert s2.routes - {q} == map[r := [0]];
    run := [INITIAL, s1, s2, s3];
  }

  /** Only up to sameness: for every BGP path, with its twin announced as well, withdrawing the twin
      may take the path itself and leave the twin, which nobody announces. */
  lemma TwinLeftBehind(pfx: Prefix, b: BGPPath) returns (run: seq<State>)
    requires WellFormed(pfx)
    ensures IsRun(run) && |run| == 4
    ensures run[3] == State(map[Route(pfx, [BGP(b)], 0) := [0]], map[pfx := [PathPtr(1, BGP(Twin(b)))]])
  {
    var x, y := PathPtr(0, BGP(b)), PathPtr(1, BGP(Twin(b)));
    SameTaken(x, y);
    run := WrongOneTaken(Route(pfx, [BGP(b)], 0), Route(pfx, [BGP(Twin(b))], 0), x, y);
  }

  lemma DefaultIsWellFormed()
    ensures WellFormed(Prefix(0, 0))
  {
  }

  /** The Loc-RIB follows the stored routes at a path exactly if it is a BGP or a static one. */
  lemma AlwaysMirroredIff(p: Path)
    ensures AlwaysMirrored(p) <==> p.BGP? || p.Static?
  {
    if p.BGP? || p.Static? {
      SameIsPartialEquivalence(p, p, p);
      hide Same;
      forall run, i, pfx | IsRun(run) && 0 <= i < |run|
        ensures MirrorsLike(run[i], pfx, p)
      {
        RunKeepsInv(run, i);
        var s: State := run[i];
        assert MirrorsAt(s, pfx, p);
        LikeIsSame(At(s.rib, pfx), p);
        assert YieldingLike(s.routes.Keys, pfx, p) == Yielding(s.routes.Keys, pfx, p);
      }
    } else {
      var pfx := Prefix(0, 0);
      DefaultIsWellFormed();
      var run := NeverWithdrawn(pfx, p);
      assert LikeCount(At(run[2].rib, pfx), p) == 1;
      assert YieldingLike(run[2].routes.Keys, pfx, p) == {};
      assert !MirrorsLike(run[2], pfx, p);
    }
  }

  // ---------------------------------------------------------------- pools of paths

  /** The (prefix, first path) pairs that routes are drawn from. */
  type Pool = iset<(Prefix, Path)>

  ghost predicate RoutesFrom(u: Pool, s: State) {
    forall r :: r in s.routes ==> r.paths != [] && (r.pfx, r.paths[0]) in u
  }

  ghost predicate RibFrom(u: Pool, s: State) {
    forall pfx, x :: x in At(s.rib, pfx) ==> (pfx, x.path) in u
  }

  ghost predicate RunFrom(u: Pool, run: seq<State>) {
    IsRun(run) && forall i :: 0 <= i < |run| ==> RoutesFrom(u, run[i])
  }

  function EqualCount(paths: seq<PathPtr>, p: Path): (n: nat) {
    if paths == [] then 0 else (if paths[0].path == p then 1 else 0) + EqualCount(paths[1..], p)
  }

  ghost function YieldingExactly(stored: set<Route>, pfx: Prefix, p: Path): (r: set<Route>) {
    set r | r in stored && r.pfx == pfx && r.paths != [] && r.paths[0] == p
  }

  ghost predicate ExactAt(s: State, pfx: Prefix, p: Path) {
    EqualCount(At(s.rib, pfx), p) == |YieldingExactly(s.routes.Keys, pfx, p)|
  }

  /** The Loc-RIB holds the very paths that are announced: each as often as stored routes yield it. */
  ghost predicate Exact(s: State) {
    forall pfx, p :: ExactAt(s, pfx, p)
  }

  ghost predicate AlwaysExact(u: Pool) {
    forall run, i :: RunFrom(u, run) && 0 <= i < |run| ==> Exact(run[i])
  }

  /** Only BGP and static paths, and no two of one prefix that are the same without being equal. */
  ghost predicate Unambiguous(u: Pool) {
    && (forall e :: e in u ==> e.1.BGP? || e.1.Static?)
    && (forall pfx, p, q :: (pfx, p) in u && (pfx, q) in u && Same(p, q) ==> p == q)
  }

  lemma {:induction false} RemovedFrom(paths: seq<PathPtr>, y: Path, x: PathPtr)
    ensures x in RemoveFirst(paths, y) ==> x in paths
    decreases |paths|
  {
    hide Same;
    if paths != [] {
      RemovedFrom(paths[1..], y, x);
    }
  }

  lemma AddedOnly(t: Table, r: Route, id: nat, sorted: seq<PathPtr>, x: PathPtr)
    requires r.paths != [] && Selects(WithFirst(t, r, id), r.pfx, sorted) && x in sorted
    ensures x in At(t, r.pfx) || x.path == r.paths[0]
  {
    hide EqualPathCount;
    assert x in multiset(sorted);
    assert x in WithFirst(t, r, id)[r.pfx];
  }

  lemma LeftOnly(t: Table, r: Route, sorted: seq<PathPtr>, x: PathPtr)
    requires r.paths != [] && Selects(WithoutFirst(t, r), r.pfx, sorted) && r.pfx in WithoutFirst(t, r) && x in sorted
    ensures x in At(t, r.pfx)
  {
    hide EqualPathCount, RemoveFirst;
    assert x in multiset(sorted);
    assert x in WithoutFirst(t, r)[r.pfx];
    RemovedFrom(At(t, r.pfx), r.paths[0], x);
  }

  /** What is in the Loc-RIB after a step was there before or is the first path of the route. */
  lemma RibOnlyFrom(s: State, step: Step, pfx: Prefix, x: PathPtr)
    requires Enabled(s, step) && x in At(Apply(s, step).rib, pfx)
    ensures || x in At(s.rib, pfx)
            || (step.Announce? && step.r !in s.routes && pfx == step.r.pfx && x.path == step.r.paths[0])
  {
    hide Selects, WellFormed, Dropped, RemoveFirst;
    var r, t := step.r, Apply(s, step);
    if t.rib != s.rib && pfx == r.pfx {
      if step.Announce? {
        AddedOnly(s.rib, r, step.id, step.sorted, x);
      } else if pfx in WithoutFirst(s.rib, r) {
        LeftOnly(s.rib, r, step.sorted, x);
      }
    }
  }

  lemma {:induction false} RibStaysFrom(u: Pool, run: seq<State>, i: nat)
    requires RunFrom(u, run) && i < |run|
    ensures RibFrom(u, run[i])
  {
    if i > 0 {
      RibStaysFrom(u, run, i - 1);
      assert Steps(run[i - 1], run[(i - 1) + 1]);
      var step :| Enabled(run[i - 1], step) && Apply(run[i - 1], step) == run[i];
      forall pfx, x | x in At(run[i].rib, pfx)
        ensures (pfx, x.path) in u
      {
        RibOnlyFrom(run[i - 1], step, pfx, x);
        hide Enabled;
        assert RoutesFrom(u, run[i]);
      }
    }
  }

  /** In a list drawn from an unambiguous pool, being the same is being equal. */
  lemma {:induction false} ExactCount(u: Pool, pfx: Prefix, p: Path, paths: seq<PathPtr>)
    requires Unambiguous(u) && (pfx, p) in u && forall x :: x in paths ==> (pfx, x.path) in u
    ensures EqualCount(paths, p) == SameCount(paths, p)
    decreases |paths|
  {
    if paths != [] {
      assert (pfx, p).1 == p;
      SameIsPartialEquivalence(p, p, p);
      hide Same;
      ExactCount(u, pfx, p, paths[1..]);
    }
  }

  lemma {:induction false} NoneEqual(paths: seq<PathPtr>, p: Path)
    requires forall x :: x in paths ==> x.path != p
    ensures EqualCount(paths, p) == 0
    decreases |paths|
  {
    if paths != [] {
      NoneEqual(paths[1..], p);
    }
  }

  lemma UnambiguousIsExact(u: Pool, s: State, pfx: Prefix, p: Path)
    requires Unambiguous(u) && RoutesFrom(u, s) && RibFrom(u, s) && MirrorsAt(s, pfx, p)
    ensures ExactAt(s, pfx, p)
  {
    if (pfx, p) in u {
      assert (pfx, p).1 == p;
      SameIsPartialEquivalence(p, p, p);
      ExactCount(u, pfx, p, At(s.rib, pfx));
      hide Same;
      assert YieldingExactly(s.routes.Keys, pfx, p) == Yielding(s.routes.Keys, pfx, p);
    } else {
      NoneEqual(At(s.rib, pfx), p);
      assert YieldingExactly(s.routes.Keys, pfx, p) == {};
    }
  }

  lemma InexactRun(u: Pool, run: seq<State>, i: nat, pfx: Prefix, p: Path)
    requires RunFrom(u, run) && i < |run| && !ExactAt(run[i], pfx, p)
    ensures !AlwaysExact(u)
  {
    assert !Exact(run[i]);
  }

  /** A pool with a path that cannot be withdrawn has a run that is not exact. */
  lemma UnremovableIsInexact(u: Pool, pfx: Prefix, p: Path)
    requires (pfx, p) in u && WellFormed(pfx) && !p.BGP? && !p.Static?
    ensures !AlwaysExact(u)
  {
    hide IsRun, WellFormed;
    var run := NeverWithdrawn(pfx, p);
    var s: State := run[2];
    assert RunFrom(u, run);
    assert EqualCount(At(s.rib, pfx), p) == 1;
    assert YieldingExactly(s.routes.Keys, pfx, p) == {};
    InexactRun(u, run, 2, pfx, p);
  }

  /** So has a pool with two paths that are the same. */
  lemma TwinsAreInexact(u: Pool, pfx: Prefix, p: Path, q: Path)
    requires (pfx, p) in u && (pfx, q) in u && WellFormed(pfx) && Same(p, q) && p != q
    ensures !AlwaysExact(u)
  {
    hide IsRun, WellFormed, Same, ECMP, RemoveFirst, EqualPathCount;
    var r, t := Route(pfx, [p], 0), Route(pfx, [q], 0);
    SameTaken(PathPtr(0, p), PathPtr(1, q));
    var run := WrongOneTaken(r, t, PathPtr(0, p), PathPtr(1, q));
    var s: State := run[3];
    assert RunFrom(u, run);
    assert EqualCount(At(s.rib, pfx), p) == 0;
    assert r in YieldingExactly(s.routes.Keys, pfx, p);
    InexactRun(u, run, 3, pfx, p);
  }

  /** For routes drawn from a pool, over prefixes without host bits, the Loc-RIB holds the very
      paths that are announced, in every run, exactly if the pool is unambiguous. */
  lemma AlwaysExactIff(u: Pool)
    requires forall e :: e in u ==> WellFormed(e.0)
    ensures AlwaysExact(u) <==> Unambiguous(u)
  {
    hide Same, WellFormed;
    if Unambiguous(u) {
      forall run, i | RunFrom(u, run) && 0 <= i < |run|
        ensures Exact(run[i])
      {
        RunKeepsInv(run, i);
        RibStaysFrom(u, run, i);
        forall pfx, p
          ensures ExactAt(run[i], pfx, p)
        {
          assert MirrorsAt(run[i], pfx, p);
          UnambiguousIsExact(u, run[i], pfx, p);
        }
      }
    } else if e :| e in u && !e.1.BGP? && !e.1.Static? {
      assert (e.0, e.1) == e;
      UnremovableIsInexact(u, e.0, e.1);
    } else {
      var pfx, p, q :| (pfx, p) in u && (pfx, q) in u && Same(p, q) && p != q;
      assert (pfx, p).0 == pfx;
      TwinsAreInexact(u, pfx, p, q);
    }
  }

  /** With host bits none of this holds: for every prefix that has some, once its base address is
      announced and then the prefix itself, the trie behind the Loc-RIB has lost the first path,
      which is still announced. */
  lemma HostBitsLoseAnnounced(q: Route, x: PathPtr, y: PathPtr)
    requires q.pfx.len <= 32 && !WellFormed(q.pfx)
    ensures var base := Prefix(BaseAddr(q.pfx), q.pfx.len);
            && WellFormed(base)
            && Lookup(Trie.AddPath(NewNode(base, Some(x), base.len, false), q.pfx, Some(y)).0, base).None?
  {
    BaseDiffers(q.pfx);
    FirstIsLost(Prefix(BaseAddr(q.pfx), q.pfx.len), q.pfx, Some(x), Some(y));
  }

  // ---------------------------------------------------------------- announcements

  ghost function HoldersIn(routes: map<Route, seq<Source>>, r: Route): (m: multiset<Source>) {
    if r in routes then multiset(routes[r]) else multiset{}
  }

  /** A step changes the announcements of its route by one and no others. */
  lemma StepHolders(s: State, step: Step, q: Route)
    requires Enabled(s, step)
    ensures HoldersIn(Apply(s, step).routes, q) ==
            if q != step.r then HoldersIn(s.routes, q)
            else if step.Announce? then HoldersIn(s.routes, q) + multiset{step.src}
            else HoldersIn(s.routes, q) - multiset{step.src}
  {
    hide WithFirst, WithoutFirst, Selects, Dropped, Rearranged;
    if step.Withdraw? && step.r in s.routes {
      DroppedOne(s.routes[step.r], step.src);
    }
  }

  /** Taking one announcement of each route from a source clears it exactly when it had no two. */
  lemma OneEachClearsIff(before: map<Route, seq<Source>>, after: map<Route, seq<Source>>, src: Source)
    requires forall r :: HoldersIn(after, r) == HoldersIn(before, r) - multiset{src}
    ensures (forall r :: src !in HoldersIn(after, r)) <==> (forall r :: HoldersIn(before, r)[src] <= 1)
  {
    forall r
      ensures src !in HoldersIn(after, r) <==> HoldersIn(before, r)[src] <= 1
    {
      assert HoldersIn(after, r) == HoldersIn(before, r) - multiset{src};
    }
  }

  // ---------------------------------------------------------------- the object

  /** sort.Slice: some order of the paths. */
  method Sort(paths: seq<PathPtr>) returns (sorted: seq<PathPtr>)
    ensures multiset(sorted) == multiset(paths)
  {
    sorted :| multiset(sorted) == multiset(paths);
  }

  lemma OthersStay(s: State, step: Step, todo: set<Route>)
    requires Enabled(s, step) && step.r !in todo && todo <= s.routes.Keys
    ensures todo <= Apply(s, step).routes.Keys
  {
  }

  class MergedLocRIB {
    /** The sources of each stored route. */
    var routes: map<Route, seq<Source>>

    /** The lists of paths in the Loc-RIB behind. */
    var locRIB: Table

    /** Every added path is a new object. */
    var nextID: nat

    ghost function Current(): (s: State)
      reads this
    {
      State(routes, locRIB)
    }

    ghost predicate Valid()
      reads this
    {
      Inv(Current())
    }

    ghost function Holders(r: Route): (m: multiset<Source>)
      reads this
    {
      HoldersIn(routes, r)
    }

    constructor ()
      ensures Valid() && Current() == INITIAL
    {
      routes, locRIB, nextID := map[], map[], 0;
      new;
      RunKeepsInv([INITIAL], 0);
    }

    /** The Loc-RIB's path selection; it may panic. */
    method Select(pfx: Prefix) returns (ok: bool, sorted: seq<PathPtr>)
      modifies this`locRIB
      ensures locRIB == Rearranged(old(locRIB), pfx, sorted)
      ensures pfx in old(locRIB) ==> multiset(sorted) == multiset(old(locRIB)[pfx])
      ensures ok <==> Selects(old(locRIB), pfx, sorted)
    {
      sorted := [];
      if pfx !in locRIB {
        return true, sorted;
      }
      sorted := Sort(locRIB[pfx]);
      locRIB := locRIB[pfx := sorted];
      ok := EqualPathCount(sorted).Some?;
    }

    /** Announces a route once more. A new route is stored before its first path is looked at, which
        panics without one. */
    method AddRoute(src: Source, r: Route) returns (ok: bool, ghost step: Step)
      requires Valid() && WellFormed(r.pfx)
      modifies this
      ensures step.Announce? && step.src == src && step.r == r
      ensures ok <==> Enabled(old(Current()), step)
      ensures ok ==> Valid() && Current() == Apply(old(Current()), step)
      ensures r in old(routes) ==> ok
      ensures r !in old(routes) && r.paths != [] ==>
                multiset(step.sorted) == multiset(WithFirst(old(locRIB), r, step.id)[r.pfx])
      ensures ok ==> Holders(r) == old(Holders(r)) + multiset{src}
      ensures ok ==> forall q :: q != r ==> Holders(q) == old(Holders(q))
    {
      hide Inv, EqualPathCount;
      if r in routes {
        step := Announce(src, r, nextID, []);
        routes := routes[r := routes[r] + [src]];
        ok := true;
      } else {
        routes := routes[r := [src]];
        step := Announce(src, r, nextID, []);
        if r.paths == [] {
          return false, step;
        }
        var sorted;
        locRIB := WithFirst(locRIB, r, nextID);
        ok, sorted := Select(r.pfx);
        step := Announce(src, r, nextID, sorted);
        nextID := nextID + 1;
      }
      if ok {
        StepKeepsInv(old(Current()), step);
        forall q
          ensures HoldersIn(routes, q) ==
                  if q != r then HoldersIn(old(routes), q) else HoldersIn(old(routes), q) + multiset{src}
        {
          StepHolders(old(Current()), step, q);
        }
      }
    }

    /** Withdraws one announcement of a route, if it is stored. */
    method RemoveRoute(src: Source, r: Route) returns (ok: bool, ghost step: Step)
      requires Valid()
      modifies this
      ensures step.Withdraw? && step.src == src && step.r == r
      ensures ok <==> Enabled(old(Current()), step)
      ensures ok ==> Valid() && Current() == Apply(old(Current()), step)
      ensures r in old(routes) && r.pfx in WithoutFirst(old(locRIB), r) && Dropped(old(routes)[r], src) == [] ==>
                multiset(step.sorted) == multiset(WithoutFirst(old(locRIB), r)[r.pfx])
      ensures ok ==> Holders(r) == old(Holders(r)) - multiset{src}
      ensures ok ==> forall q :: q != r ==> Holders(q) == old(Holders(q))
    {
      if r !in routes {
        return true, Withdraw(src, r, []);
      }
      ok, step := DelRoute(src, r);
    }

    method DelRoute(src: Source, r: Route) returns (ok: bool, ghost step: Step)
      requires Valid() && r in routes
      modifies this
      ensures step.Withdraw? && step.src == src && step.r == r
      ensures ok <==> Enabled(old(Current()), step)
      ensures ok ==> Valid() && Current() == Apply(old(Current()), step)
      ensures r.pfx in WithoutFirst(old(locRIB), r) && Dropped(old(routes)[r], src) == [] ==>
                multiset(step.sorted) == multiset(WithoutFirst(old(locRIB), r)[r.pfx])
      ensures ok ==> Holders(r) == old(Holders(r)) - multiset{src}
      ensures ok ==> forall q :: q != r ==> Holders(q) == old(Holders(q))
    {
      hide WithoutFirst, Dropped, EqualPathCount;
      var left := RemoveSource(routes[r], src);
      if |left| > 0 {
        routes := routes[r := left];
        step := Withdraw(src, r, []);
        ok := true;
      } else {
        var sorted;
        locRIB := WithoutFirst(locRIB, r);
        ok, sorted := Select(r.pfx);
        step := Withdraw(src, r, sorted);
        routes := routes - {r};
      }
      if ok {
        StepKeepsInv(old(Current()), step);
        forall q
          ensures HoldersIn(routes, q) ==
                  if q != r then HoldersIn(old(routes), q) else HoldersIn(old(routes), q) - multiset{src}
        {
          StepHolders(old(Current()), step, q);
        }
      }
    }

    /** Withdraws one announcement of every route from `src`. It leaves none behind exactly when
        no route was held twice. */
    method DropAllBySrc(src: Source) returns (ok: bool)
      requires Valid()
      modifies this
      ensures ok ==> Valid()
      ensures ok ==> forall r :: Holders(r) == old(Holders(r)) - multiset{src}
      ensures ok ==> ((forall r :: src !in Holders(r)) <==> (forall r :: old(Holders(r))[src] <= 1))
    {
      hide Inv, Enabled, Apply, WithoutFirst, Dropped, EqualPathCount;
      var todo := routes.Keys;
      while todo != {}
        invariant todo <= routes.Keys && Valid()
        invariant forall r :: r in todo ==> Holders(r) == old(Holders(r))
        invariant forall r :: r !in todo ==> Holders(r) == old(Holders(r)) - multiset{src}
        decreases todo
      {
        var r :| r in todo;
        ghost var step;
        ghost var before := Current();
        ok, step := DelRoute(src, r);
        if !ok {
          return;
        }
        todo := todo - {r};
        OthersStay(before, step, todo);
      }
      forall r
        ensures HoldersIn(routes, r) == HoldersIn(old(routes), r) - multiset{src}
      {
        assert Holders(r) == old(Holders(r)) - multiset{src};
      }
      OneEachClearsIff(old(routes), routes, src);
      ok := true;
    }
  }
}
