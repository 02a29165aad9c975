/** A route: a prefix with its list of paths, and the selection of the best ones. */
module Routes {
  import opened Options
  import opened Prefixes
  import opened Paths

  // ---------------------------------------------------------------- path lists

  /** The list without its first path that is the same as `p`. */
  function RemoveFirst(paths: seq<PathPtr>, p: Path): (r: seq<PathPtr>)
    ensures |r| == |paths| || |r| + 1 == |paths|
  {
    if paths == [] then []
    else if Same(paths[0].path, p) then paths[1..]
    else [paths[0]] + RemoveFirst(paths[1..], p)
  }

  function RemoveEach(paths: seq<PathPtr>, gone: seq<PathPtr>): (r: seq<PathPtr>)
    decreases |gone|
  {
    if gone == [] then paths else RemoveEach(RemoveFirst(paths, gone[0].path), gone[1..])
  }

  /** A withdrawal can find BGP and static paths only. */
  predicate Removable(x: PathPtr) {
    x.path.BGP? || x.path.Static?
  }

  function Unremovable(paths: seq<PathPtr>): (r: seq<PathPtr>)
    ensures |r| <= |paths|
  {
    if paths == [] then []
    else if Removable(paths[0]) then Unremovable(paths[1..])
    else [paths[0]] + Unremovable(paths[1..])
  }

  lemma {:induction false} UnremovableEmptyIff(paths: seq<PathPtr>)
    ensures Unremovable(paths) == [] <==> forall i :: 0 <= i < |paths| ==> Removable(paths[i])
  {
    if paths != [] {
      UnremovableEmptyIff(paths[1..]);
      assert forall i :: 1 <= i < |paths| ==> paths[i] == paths[1..][i - 1];
    }
  }

  /** The position of the first path equal to `replaced`, or the length of the list. */
  function IndexOfEqual(paths: seq<PathPtr>, replaced: Path): (i: nat)
    ensures i <= |paths|
    ensures forall j :: 0 <= j < i ==> !Equal(paths[j].path, replaced)
    ensures i < |paths| ==> Equal(paths[i].path, replaced)
  {
    if paths == [] || Equal(paths[0].path, replaced) then 0
    else 1 + IndexOfEqual(paths[1..], replaced)
  }

  predicate Shares(p: PathPtr, q: PathPtr) {
    ECMP(p.path, q.path) == Some(true)
  }

  /** How many leading paths share traffic, each with the next. Asking may panic. */
  function EqualPathCount(paths: seq<PathPtr>): (r: Option<nat>)
    ensures r.Some? ==> r.value <= |paths| && (paths != [] ==> r.value >= 1)
  {
    if |paths| <= 1 then Some(|paths|)
    else
      var shares := ECMP(paths[0].path, paths[1].path);
      if shares.None? then None
      else if !shares.value then Some(1)
      else
        var others := EqualPathCount(paths[1..]);
        if others.None? then None else Some(1 + others.value)
  }

  /** Paths of one known type. */
  ghost predicate Uniform(paths: seq<PathPtr>) {
    || (forall i :: 0 <= i < |paths| ==> paths[i].path.BGP?)
    || (forall i :: 0 <= i < |paths| ==> paths[i].path.Static?)
    || (forall i :: 0 <= i < |paths| ==> paths[i].path.FIB?)
  }

  lemma {:induction false} UniformNeverPanics(paths: seq<PathPtr>)
    requires Uniform(paths)
    ensures EqualPathCount(paths).Some?
    decreases |paths|
  {
    if |paths| > 1 {
      assert forall i :: 1 <= i < |paths| ==> paths[1..][i - 1] == paths[i];
      UniformNeverPanics(paths[1..]);
    }
  }

  ghost predicate NeverPanics(paths: seq<PathPtr>) {
    forall sorted :: multiset(sorted) == multiset(paths) ==> EqualPathCount(sorted).Some?
  }

  lemma UniformPermutes(paths: seq<PathPtr>, sorted: seq<PathPtr>)
    requires Uniform(paths) && multiset(sorted) == multiset(paths)
    ensures Uniform(sorted)
  {
    assert forall i :: 0 <= i < |sorted| ==> sorted[i] in multiset(sorted);
    assert forall x :: x in multiset(paths) ==> x in paths;
  }

  lemma TakeOut(paths: seq<PathPtr>, i: nat) returns (others: seq<PathPtr>)
    requires i < |paths|
    ensures others == paths[..i] + paths[i + 1..]
    ensures multiset(paths) == multiset([paths[i]] + others)
  {
    others := paths[..i] + paths[i + 1..];
    assert paths == paths[..i] + [paths[i]] + paths[i + 1..];
  }

  /** Two members of a list, put first. */
  lemma PutFirstTwo(paths: seq<PathPtr>, i: nat, j: nat) returns (sorted: seq<PathPtr>)
    requires i < |paths| && j < |paths| && i != j
    ensures multiset(sorted) == multiset(paths) && |sorted| >= 2
    ensures sorted[0] == paths[i] && sorted[1] == paths[j]
  {
    var others := TakeOut(paths, i);
    var k := if j < i then j else j - 1;
    assert others[k] == paths[j];
    var rest := TakeOut(others, k);
    sorted := [paths[i]] + ([paths[j]] + rest);
    assert multiset(sorted) == multiset{paths[i]} + multiset([paths[j]] + rest);
    assert multiset([paths[i]] + others) == multiset{paths[i]} + multiset(others);
  }

  /** In a list of several paths that are not of one known type, two cannot be asked whether they
      share traffic. */
  lemma UnaskablePair(paths: seq<PathPtr>) returns (i: nat, j: nat)
    requires |paths| > 1 && !Uniform(paths)
    ensures i < |paths| && j < |paths| && i != j && ECMP(paths[i].path, paths[j].path) == None
  {
    if k :| 0 <= k < |paths| && paths[k].path.Other? {
      i, j := k, if k == 0 then 1 else 0;
    } else {
      i :| 0 <= i < |paths| && !paths[i].path.Static?;
      if paths[i].path.BGP? {
        j :| 0 <= j < |paths| && !paths[j].path.BGP?;
      } else {
        j :| 0 <= j < |paths| && !paths[j].path.FIB?;
      }
    }
  }

  /** Exactly for which paths no outcome of the sort makes the count panic. */
  lemma NeverPanicsIff(paths: seq<PathPtr>)
    ensures NeverPanics(paths) <==> |paths| <= 1 || Uniform(paths)
  {
    if |paths| <= 1 {
      forall sorted | multiset(sorted) == multiset(paths)
        ensures EqualPathCount(sorted).Some?
      {
        assert |sorted| == |multiset(sorted)| == |multiset(paths)| == |paths|;
      }
    } else if Uniform(paths) {
      forall sorted | multiset(sorted) == multiset(paths)
        ensures EqualPathCount(sorted).Some?
      {
        UniformPermutes(paths, sorted);
        UniformNeverPanics(sorted);
      }
    } else {
      var i, j := UnaskablePair(paths);
      var sorted := PutFirstTwo(paths, i, j);
      assert EqualPathCount(sorted).None?;
    }
  }

  /** Paths match only among BGP paths and among static ones, and there always with themselves. */
  lemma RemovableMatches(x: PathPtr, p: Path)
    ensures !Removable(x) ==> !Same(x.path, p) && !Same(p, x.path)
    ensures Removable(x) ==> Same(x.path, x.path)
  {
  }

  lemma {:induction false} RemoveFirstSkips(u: seq<PathPtr>, rest: seq<PathPtr>, p: Path)
    requires forall i :: 0 <= i < |u| ==> !Removable(u[i])
    ensures RemoveFirst(u + rest, p) == u + RemoveFirst(rest, p)
    decreases |u|
  {
    hide Same;
    if u == [] {
      assert u + rest == rest;
    } else {
      RemovableMatches(u[0], p);
      assert (u + rest)[1..] == u[1..] + rest;
      RemoveFirstSkips(u[1..], rest, p);
      assert u == [u[0]] + u[1..];
    }
  }

  lemma {:induction false} NothingToRemove(paths: seq<PathPtr>, x: PathPtr)
    requires !Removable(x)
    ensures RemoveFirst(paths, x.path) == paths
    decreases |paths|
  {
    hide Same;
    if paths != [] {
      RemovableMatches(x, paths[0].path);
      NothingToRemove(paths[1..], x);
    }
  }

  lemma {:induction false} RemoveEachFrom(u: seq<PathPtr>, rest: seq<PathPtr>)
    requires forall i :: 0 <= i < |u| ==> !Removable(u[i])
    ensures RemoveEach(u + rest, rest) == u + Unremovable(rest)
    decreases |rest|
  {
    hide Same;
    if rest == [] {
      assert u + rest == u;
    } else if Removable(rest[0]) {
      RemoveFirstSkips(u, rest, rest[0].path);
      RemovableMatches(rest[0], rest[0].path);
      assert RemoveFirst(u + rest, rest[0].path) == u + rest[1..];
      RemoveEachFrom(u, rest[1..]);
    } else {
      NothingToRemove(u + rest, rest[0]);
      assert u + rest == u + [rest[0]] + rest[1..];
      RemoveEachFrom(u + [rest[0]], rest[1..]);
    }
  }

  /** Withdrawing every path of a list one by one leaves those that are neither BGP nor static. */
  lemma RemoveEachOwn(paths: seq<PathPtr>)
    ensures RemoveEach(paths, paths) == Unremovable(paths)
  {
    assert [] + paths == paths;
    RemoveEachFrom([], paths);
  }

  // ---------------------------------------------------------------- selection

  /** In sorted order the four keys of traffic sharing never improve again. */
  lemma SharingIsMonotone(x: PathPtr, y: PathPtr, z: PathPtr)
    requires x.path.BGP? && y.path.BGP? && z.path.BGP?
    requires MayPrecede(x, y) && MayPrecede(y, z) && Shares(x, z)
    ensures Shares(x, y) && Shares(y, z)
  {
  }

  /** The counted paths are exactly the ones that share traffic with the best path. */
  lemma {:induction false} CountedPathsShare(paths: seq<PathPtr>, i: nat)
    requires Sorted(paths) && AllBGP(paths) && i < |paths|
    ensures EqualPathCount(paths).Some?
    ensures i < EqualPathCount(paths).value <==> Shares(paths[0], paths[i])
    decreases |paths|
  {
    UniformNeverPanics(paths);
    if i > 0 {
      assert MayPrecede(paths[0], paths[1]) && (i > 1 ==> MayPrecede(paths[1], paths[i]));
      assert Sorted(paths[1..]);
      if Shares(paths[0], paths[1]) {
        CountedPathsShare(paths[1..], i - 1);
      } else if i > 1 && Shares(paths[0], paths[i]) {
        SharingIsMonotone(paths[0], paths[1], paths[i]);
      }
    }
  }

  // ---------------------------------------------------------------- the route object

  lemma {:induction false} RemoveFirstAt(paths: seq<PathPtr>, i: nat, p: Path)
    requires i <= |paths| && forall k :: 0 <= k < i ==> !Same(paths[k].path, p)
    requires i < |paths| ==> Same(paths[i].path, p)
    ensures RemoveFirst(paths, p) == if i < |paths| then paths[..i] + paths[i + 1..] else paths
    decreases |paths|
  {
    hide Same;
    if i > 0 {
      var tail := paths[1..];
      assert forall k :: 0 <= k < i - 1 ==> tail[k] == paths[k + 1];
      RemoveFirstAt(tail, i - 1, p);
      if i < |paths| {
        assert paths[..i] == [paths[0]] + tail[..i - 1] && paths[i + 1..] == tail[i..];
      } else {
        assert paths == [paths[0]] + tail;
      }
    }
  }

  /** Both are BGP or both static, and they are equal in all that counts. */
  predicate Matches(x: PathPtr, p: Path) {
    ((x.path.BGP? && p.BGP?) || (x.path.Static? && p.Static?)) && Essence(x.path) == Essence(p)
  }

  predicate FirstMatch(paths: seq<PathPtr>, i: nat, p: Path)
    requires i <= |paths|
  {
    (forall k :: 0 <= k < i ==> !Matches(paths[k], p)) && (i < |paths| ==> Matches(paths[i], p))
  }

  /** `after` is `before` less its first path that matches `p`, if there is one. */
  ghost predicate LessFirst(before: seq<PathPtr>, after: seq<PathPtr>, p: Path) {
    exists i :: 0 <= i <= |before| && FirstMatch(before, i, p) &&
      after == if i < |before| then before[..i] + before[i + 1..] else before
  }

  /** A withdrawal takes the first path that matches it, if there is one. */
  lemma RemovesFirst(paths: seq<PathPtr>, p: Path)
    ensures LessFirst(paths, RemoveFirst(paths, p), p)
  {
    hide Same, Essence, RemoveFirst;
    forall k | 0 <= k < |paths|
      ensures Same(paths[k].path, p) <==> Matches(paths[k], p)
    {
      SameIff(paths[k].path, p);
    }
    var i := 0;
    while i < |paths| && !Matches(paths[i], p)
      invariant i <= |paths| && forall k :: 0 <= k < i ==> !Matches(paths[k], p)
    {
      i := i + 1;
    }
    RemoveFirstAt(paths, i, p);
    assert FirstMatch(paths, i, p);
  }

  /** A withdrawal takes no path that differs from the one withdrawn in anything that counts. */
  lemma DifferentStay(paths: seq<PathPtr>, p: Path, x: PathPtr)
    requires Essence(x.path) != Essence(p)
    ensures multiset(RemoveFirst(paths, p))[x] == multiset(paths)[x]
  {
    hide Essence;
    if paths != [] {
      SameIff(paths[0].path, p);
      assert paths == [paths[0]] + paths[1..];
      DifferentStay(paths[1..], p, x);
    }
  }

  /** In particular none of another peer: of paths with different sources the others stay. */
  lemma OtherPeersStay(paths: seq<PathPtr>, p: Path, x: PathPtr)
    requires p.BGP? && x.path.BGP?
    requires (x.path.bgp.a.source.higher, x.path.bgp.a.source.lower) != (p.bgp.a.source.higher, p.bgp.a.source.lower)
    ensures multiset(RemoveFirst(paths, p))[x] == multiset(paths)[x]
  {
    DifferentStay(paths, p, x);
  }

  class Route {
    const pfx: Prefix
    var paths: seq<PathPtr>
    var ecmpPaths: nat

    /** A nil path leaves the list empty. */
    constructor (pfx: Prefix, p: Option<PathPtr>)
      ensures this.pfx == pfx && ecmpPaths == 0
      ensures paths == if p.None? then [] else [p.value]
    {
      this.pfx := pfx;
      paths := if p.None? then [] else [p.value];
      ecmpPaths := 0;
    }

    method AddPath(p: Option<PathPtr>)
      modifies this`paths
      ensures paths == old(paths) + (if p.None? then [] else [p.value])
    {
      if p.Some? {
        paths := paths + [p.value];
      }
    }

    /** Takes away the first path that is the same as `p` and returns how many are left. */
    method RemovePath(p: Option<PathPtr>) returns (n: nat)
      modifies this`paths
      ensures paths == if p.None? then old(paths) else RemoveFirst(old(paths), p.value.path)
      ensures n == |paths|
      ensures p.Some? ==> LessFirst(old(paths), paths, p.value.path)
    {
      hide Same, RemoveFirst, LessFirst;
      if p.None? {
        return |paths|;
      }
      var i, j := -1, 0;
      while j < |paths|
        invariant 0 <= j <= |paths| && i == -1 && paths == old(paths)
        invariant forall k :: 0 <= k < j ==> !Same(paths[k].path, p.value.path)
      {
        if Same(paths[j].path, p.value.path) {
          i := j;
          break;
        }
        j := j + 1;
      }
      RemoveFirstAt(paths, j, p.value.path);
      RemovesFirst(paths, p.value.path);
      if i >= 0 {
        paths := paths[..i] + paths[i + 1..];
      }
      n := |paths|;
    }

    /** Overwrites the first path equal to `replaced`; without one nothing changes. */
    method ReplacePath(replaced: Path, replacement: PathPtr) returns (ok: bool)
      modifies this`paths
      ensures ok == (IndexOfEqual(old(paths), replaced) < |old(paths)|)
      ensures paths == if ok then old(paths)[IndexOfEqual(old(paths), replaced) := replacement] else old(paths)
    {
      for i := 0 to |paths|
        invariant paths == old(paths)
        invariant forall j :: 0 <= j < i ==> !Equal(paths[j].path, replaced)
      {
        if Equal(paths[i].path, replaced) {
          paths := paths[i := replacement];
          return true;
        }
      }
      ok := false;
    }

    /** The sort leaves some permutation, and the leading paths that share traffic are counted,
        unless that panics. Of BGP paths left in order exactly those are counted that share
        traffic with the best. */
    method PathSelection(sorted: seq<PathPtr>) returns (ok: bool)
      requires multiset(sorted) == multiset(paths)
      modifies this`paths, this`ecmpPaths
      ensures paths == sorted && ok == EqualPathCount(sorted).Some?
      ensures ok ==> ecmpPaths == EqualPathCount(sorted).value
      ensures !ok ==> ecmpPaths == old(ecmpPaths)
      ensures AllBGP(old(paths)) ==> ok
      ensures AllBGP(old(paths)) && Sorted(sorted) ==>
                forall i :: 0 <= i < |paths| ==> (i < ecmpPaths <==> Shares(paths[0], paths[i]))
      ensures AllBGP(old(paths)) && Sorted(sorted) ==>
                AllBGP(paths) && forall x :: x in paths ==> NoBetter(x.path.bgp, paths[0].path.bgp)
    {
      assert AllBGP(paths) <==> AllBGP(sorted) by {
        assert forall x :: x in sorted <==> x in multiset(sorted);
        assert forall x :: x in paths <==> x in multiset(paths);
      }
      paths := sorted;
      ok := UpdateEqualPathCount();
      if AllBGP(paths) {
        UniformNeverPanics(paths);
      }
      if AllBGP(paths) && Sorted(paths) {
        forall i | 0 <= i < |paths|
          ensures i < ecmpPaths <==> Shares(paths[0], paths[i])
        {
          CountedPathsShare(paths, i);
        }
        SortedStartsBest(paths);
      }
    }

    method UpdateEqualPathCount() returns (ok: bool)
      modifies this`ecmpPaths
      ensures ok == EqualPathCount(paths).Some?
      ensures ok ==> ecmpPaths == EqualPathCount(paths).value
      ensures !ok ==> ecmpPaths == old(ecmpPaths)
    {
      if |paths| == 0 {
        ecmpPaths := 0;
        return true;
      }
      var count, i := 1, 0;
      assert paths[0..] == paths;
      while i < |paths| - 1
        invariant 0 <= i < |paths| && count == i + 1
        invariant EqualPathCount(paths) ==
                  var others := EqualPathCount(paths[i..]); if others.None? then None else Some(i + others.value)
        decreases |paths| - i
      {
        assert paths[i..][1..] == paths[i + 1..];
        var shares := ECMP(paths[i].path, paths[i + 1].path);
        if shares.None? {
          return false;
        }
        if !shares.value {
          break;
        }
        count := count + 1;
        i := i + 1;
      }
      ecmpPaths := count;
      ok := true;
    }
  }
}
