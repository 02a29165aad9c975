/** The Loc-RIB: a table of selected routes and the clients that follow it. A client sees
    calls that add or remove one path of one prefix; its view is the set they leave behind. */
module LocRIBs {
  import opened Options
  import opened Prefixes
  import opened Paths
  import opened Routes
  import Trie

  datatype ClientOptions = ClientOptions(bestOnly: bool, ecmpOnly: bool, maxPaths: nat)

  type Client(==, !new) = nat

  /** A copy of a route: its sorted paths and how many of them share traffic with the best. */
  datatype RouteCopy = RouteCopy(paths: seq<PathPtr>, ecmpPaths: nat)

  type Rib = map<Prefix, RouteCopy>

  type View = set<(Prefix, PathPtr)>

  const NO_ROUTE := RouteCopy([], 0)

  function At(rib: Rib, pfx: Prefix): (r: RouteCopy) {
    if pfx in rib then rib[pfx] else NO_ROUTE
  }

  // ---------------------------------------------------------------- what a client is told

  function GetMaxPaths(o: ClientOptions, ecmpPaths: nat): (n: nat) {
    if o.bestOnly then 1 else if o.ecmpOnly then ecmpPaths else o.maxPaths
  }

  function Min(a: nat, b: nat): (r: nat) {
    if a < b then a else b
  }

  /** The leading paths of a route a client is entitled to. */
  function Selected(o: ClientOptions, r: RouteCopy): (s: seq<PathPtr>)
    ensures forall p :: p in s ==> p in r.paths
  {
    r.paths[..Min(GetMaxPaths(o, r.ecmpPaths), |r.paths|)]
  }

  /** How many paths the initial dump sends; no clamp for the first two options. */
  function DumpCount(o: ClientOptions, r: RouteCopy): (n: nat) {
    if o.bestOnly then 1
    else if o.ecmpOnly then r.ecmpPaths
    else Min(o.maxPaths, |r.paths|)
  }

  /** A stored route has a path, and its count was taken from its own list. */
  predicate Settled(r: RouteCopy) {
    r.paths != [] && EqualPathCount(r.paths) == Some(r.ecmpPaths)
  }

  /** For a stored route the dump stays in bounds and sends what later updates assume. */
  lemma DumpCountSelects(o: ClientOptions, r: RouteCopy)
    requires Settled(r)
    ensures DumpCount(o, r) <= |r.paths| && r.paths[..DumpCount(o, r)] == Selected(o, r)
  {
  }

  /** Of a stored route with BGP paths in order a client is told the best path, the paths that share
      traffic with the best, or the first so many. */
  lemma SelectedIff(o: ClientOptions, r: RouteCopy, i: nat)
    requires Settled(r) && Sorted(r.paths) && AllBGP(r.paths) && i < |r.paths|
    ensures Selected(o, r) <= r.paths
    ensures i < |Selected(o, r)| <==>
            (o.bestOnly && i == 0)
            || (!o.bestOnly && o.ecmpOnly && ECMP(r.paths[0].path, r.paths[i].path) == Some(true))
            || (!o.bestOnly && !o.ecmpOnly && i < o.maxPaths)
  {
    CountedPathsShare(r.paths, i);
  }

  /** PathsDiff: the members of `a`, in order, that are not in `b`, compared as pointers. */
  function Diff(a: seq<PathPtr>, b: seq<PathPtr>): (r: seq<PathPtr>)
    ensures forall p :: p in r <==> p in a && p !in b
  {
    if a == [] then []
    else
      assert a == a[..|a| - 1] + [a[|a| - 1]];
      Diff(a[..|a| - 1], b) + (if a[|a| - 1] in b then [] else [a[|a| - 1]])
  }

  method PathsContains(needle: PathPtr, haystack: seq<PathPtr>) returns (r: bool)
    ensures r <==> needle in haystack
  {
    for i := 0 to |haystack|
      invariant needle !in haystack[..i]
    {
      if haystack[i] == needle {
        return true;
      }
      assert haystack[..i + 1] == haystack[..i] + [haystack[i]];
    }
    assert haystack[..|haystack|] == haystack;
    r := false;
  }

  method PathsDiff(a: seq<PathPtr>, b: seq<PathPtr>) returns (r: seq<PathPtr>)
    ensures r == Diff(a, b)
  {
    r := [];
    for i := 0 to |a|
      invariant r == Diff(a[..i], b)
    {
      assert a[..i + 1][..i] == a[..i];
      var found := PathsContains(a[i], b);
      if !found {
        r := r + [a[i]];
      }
    }
    assert a[..|a|] == a;
  }

  function Withdrawals(o: ClientOptions, before: RouteCopy, after: RouteCopy): (r: seq<PathPtr>) {
    Diff(Selected(o, before), Selected(o, after))
  }

  function Advertisements(o: ClientOptions, before: RouteCopy, after: RouteCopy): (r: seq<PathPtr>) {
    Diff(Selected(o, after), Selected(o, before))
  }

  // ---------------------------------------------------------------- table changes

  datatype Change =
    | Add(pfx: Prefix, p: PathPtr)
    | Remove(pfx: Prefix, p: PathPtr)
    | Replace(pfx: Prefix, replaced: PathPtr, replacement: PathPtr)

  /** The prefix's list before it is sorted; None when the call returns without effect. */
  function Unsorted(rib: Rib, c: Change): (r: Option<seq<PathPtr>>) {
    match c
    case Add(pfx, p) => Some(At(rib, pfx).paths + [p])
    case Remove(pfx, p) => if pfx in rib then Some(RemoveFirst(rib[pfx].paths, p.path)) else None
    case Replace(pfx, replaced, replacement) =>
      if pfx !in rib then None
      else
        var i := IndexOfEqual(rib[pfx].paths, replaced.path);
        if i < |rib[pfx].paths| then Some(rib[pfx].paths[i := replacement]) else None
  }

  /** The list of a prefix after a change, in any order: an addition adds `p`, a removal takes the
      first path that matches `p`, a replacement puts one path in the place of the first that is
      equal to the replaced one. */
  ghost predicate ListChanges(before: seq<PathPtr>, after: seq<PathPtr>, c: Change) {
    match c
    case Add(_, p) => multiset(after) == multiset(before) + multiset{p}
    case Remove(_, p) => exists less :: LessFirst(before, less, p.path) && multiset(after) == multiset(less)
    case Replace(_, replaced, replacement) =>
      if exists x :: x in before && Equal(x.path, replaced.path)
      then exists i :: 0 <= i < |before| && Equal(before[i].path, replaced.path) &&
             (forall j :: 0 <= j < i ==> !Equal(before[j].path, replaced.path)) &&
             multiset(after) == multiset(before) - multiset{before[i]} + multiset{replacement}
      else multiset(after) == multiset(before)
  }

  lemma ReplaceAt(paths: seq<PathPtr>, i: nat, p: PathPtr)
    requires i < |paths|
    ensures multiset(paths[i := p]) == multiset(paths) - multiset{paths[i]} + multiset{p}
  {
  }

  lemma UnsortedChanges(rib: Rib, c: Change)
    ensures var before := At(rib, c.pfx).paths;
            ListChanges(before, if Unsorted(rib, c).Some? then Unsorted(rib, c).value else before, c)
  {
    hide Equal, LessFirst, RemoveFirst;
    var before := At(rib, c.pfx).paths;
    match c
    case Add(pfx, p) =>
    case Remove(pfx, p) => RemovesFirst(before, p.path); RemovesFirst([], p.path); assert RemoveFirst([], p.path) == [];
    case Replace(pfx, replaced, replacement) =>
      var i := IndexOfEqual(before, replaced.path);
      if i < |before| {
        ReplaceAt(before, i, replacement);
        assert before[i] in before;
      }
  }

  lemma ListChangesReorders(before: seq<PathPtr>, after: seq<PathPtr>, sorted: seq<PathPtr>, c: Change)
    requires ListChanges(before, after, c) && multiset(sorted) == multiset(after)
    ensures ListChanges(before, sorted, c)
  {
    hide Equal, LessFirst;
  }

  /** The lists of the table, as the routing table behind it stores them. */
  function Lists(rib: Rib): (m: Trie.Table) {
    map k | k in rib :: rib[k].paths
  }

  /** `m` with the list of one prefix, if it has one, put in another order. */
  function Reordered(m: Trie.Table, pfx: Prefix, sorted: seq<PathPtr>): (r: Trie.Table) {
    if pfx in m then m[pfx := sorted] else m
  }

  lemma NothingReordered(m: Trie.Table, pfx: Prefix, sorted: seq<PathPtr>)
    ensures pfx !in m ==> Reordered(m, pfx, sorted) == m
  {
  }

  /** `sorted` is what sorting may leave of the changed list. It need not be in order, since the
      preference among paths is not always transitive. */
  ghost predicate Rearranges(rib: Rib, c: Change, sorted: seq<PathPtr>) {
    Unsorted(rib, c).Some? && multiset(sorted) == multiset(Unsorted(rib, c).value)
  }

  /** The change goes through: counting the paths that share traffic does not panic. */
  ghost predicate MaySelect(rib: Rib, c: Change, sorted: seq<PathPtr>) {
    Rearranges(rib, c, sorted) && EqualPathCount(sorted).Some?
  }

  /** The table after a change: a prefix without paths is gone. */
  function Changed(rib: Rib, pfx: Prefix, sorted: seq<PathPtr>): (r: Rib)
    requires EqualPathCount(sorted).Some?
  {
    if sorted == [] then rib - {pfx} else rib[pfx := RouteCopy(sorted, EqualPathCount(sorted).value)]
  }

  /** Additions and removals leave what they leave in the routing table, sorted. */
  lemma ChangeFollowsTable(rib: Rib, c: Change, sorted: seq<PathPtr>)
    requires MaySelect(rib, c, sorted)
    ensures c.Add? ==>
              Lists(Changed(rib, c.pfx, sorted)) == Reordered(Trie.Added(Lists(rib), c.pfx, Some(c.p)), c.pfx, sorted)
    ensures c.Remove? ==>
              Lists(Changed(rib, c.pfx, sorted)) == Reordered(Trie.Removed(Lists(rib), c.pfx, Some(c.p)), c.pfx, sorted)
  {
    hide EqualPathCount, RemoveFirst;
    var list := Unsorted(rib, c).value;
    assert |sorted| == |multiset(sorted)| == |multiset(list)| == |list|;
  }

  predicate AllSettled(rib: Rib) {
    forall k :: k in rib ==> Settled(rib[k])
  }

  lemma ChangedSettles(rib: Rib, pfx: Prefix, sorted: seq<PathPtr>)
    requires AllSettled(rib) && EqualPathCount(sorted).Some?
    ensures AllSettled(Changed(rib, pfx, sorted))
    ensures forall k :: k != pfx ==> At(Changed(rib, pfx, sorted), k) == At(rib, k)
    ensures At(Changed(rib, pfx, sorted), pfx).paths == sorted
  {
  }

  // ---------------------------------------------------------------- one lock holder at a time

  /** The view holds exactly the paths the client is entitled to. */
  ghost predicate InSync(o: ClientOptions, rib: Rib, view: View) {
    forall k, p :: (k, p) in view <==> p in Selected(o, At(rib, k))
  }

  function Named(pfx: Prefix, paths: seq<PathPtr>): (r: View)
    ensures forall k, p :: (k, p) in r <==> k == pfx && p in paths
  {
    set p | p in paths :: (pfx, p)
  }

  /** Withdrawals before advertisements bring a view from one route to the next. */
  lemma UpdateKeepsSync(o: ClientOptions, rib: Rib, rib': Rib, pfx: Prefix, view: View)
    requires InSync(o, rib, view)
    requires forall k :: k != pfx ==> At(rib', k) == At(rib, k)
    ensures InSync(o, rib', view - Named(pfx, Withdrawals(o, At(rib, pfx), At(rib', pfx)))
                                 + Named(pfx, Advertisements(o, At(rib, pfx), At(rib', pfx))))
  {
  }

  class LocRIB {
    var rib: Rib
    var clients: map<Client, ClientOptions>

    /** The clients' views: what the calls made so far amount to. */
    var views: map<Client, View>

    ghost predicate Valid()
      reads this
    {
      AllSettled(rib) && views.Keys == clients.Keys
    }

    /** Every client has had its initial dump and follows the table. */
    ghost predicate Following()
      reads this
    {
      Valid() && forall c :: c in clients ==> InSync(clients[c], rib, views[c])
    }

    constructor ()
      ensures Following() && rib == map[] && clients == map[]
    {
      rib, clients, views := map[], map[], map[];
    }

    /** Registration followed at once by the initial dump. A new client follows the table. One that
        registers again, with other options, does exactly if they entitle it to all it holds. */
    method RegisterWithOptions(c: Client, o: ClientOptions)
      requires Valid()
      modifies this
      ensures Valid() && rib == old(rib) && clients == old(clients)[c := o]
      ensures forall d :: d in old(clients) && d != c ==> views[d] == old(views)[d]
      ensures c in old(clients) ==> forall k, p :: (k, p) in old(views)[c] ==> (k, p) in views[c]
      ensures InSync(o, rib, views[c]) <==>
              (c in old(clients) ==> forall k, p :: (k, p) in old(views)[c] ==> p in Selected(o, At(rib, k)))
    {
      clients := clients[c := o];
      if c !in views {
        views := views[c := {}];
      }
      UpdateNewClient(c);
    }

    /** The dump adds the selected paths to what the client has been told already. */
    method UpdateNewClient(c: Client)
      requires Valid() && c in clients
      modifies this`views
      ensures Valid()
      ensures forall k, p :: (k, p) in views[c] <==> (k, p) in old(views)[c] || p in Selected(clients[c], At(rib, k))
      ensures forall d :: d in clients && d != c ==> views[d] == old(views)[d]
    {
      var o := clients[c];
      var view := views[c];
      var todo := rib.Keys;
      while todo != {}
        invariant todo <= rib.Keys && views == old(views)
        invariant forall k, p :: (k, p) in view <==>
                    (k, p) in old(views)[c] || (k !in todo && p in Selected(o, At(rib, k)))
      {
        var k :| k in todo;
        var r := rib[k];
        DumpCountSelects(o, r);
        view := view + Named(k, r.paths[..DumpCount(o, r)]);
        todo := todo - {k};
      }
      views := views[c := view];
    }

    method RemovePathsFromClients(pfx: Prefix, before: RouteCopy, after: RouteCopy)
      requires Valid()
      modifies this`views
      ensures Valid()
      ensures forall c :: c in clients ==>
                views[c] == old(views)[c] - Named(pfx, Withdrawals(clients[c], before, after))
    {
      var todo := clients.Keys;
      while todo != {}
        invariant todo <= clients.Keys && Valid()
        invariant forall c :: c in todo ==> views[c] == old(views)[c]
        invariant forall c :: c in clients && c !in todo ==>
                    views[c] == old(views)[c] - Named(pfx, Withdrawals(clients[c], before, after))
      {
        var c :| c in todo;
        var withdraw := PathsDiff(Selected(clients[c], before), Selected(clients[c], after));
        views := views[c := views[c] - Named(pfx, withdraw)];
        todo := todo - {c};
      }
    }

    method AddPathsToClients(pfx: Prefix, before: RouteCopy, after: RouteCopy)
      requires Valid()
      modifies this`views
      ensures Valid()
      ensures forall c :: c in clients ==>
                views[c] == old(views)[c] + Named(pfx, Advertisements(clients[c], before, after))
    {
      var todo := clients.Keys;
      while todo != {}
        invariant todo <= clients.Keys && Valid()
        invariant forall c :: c in todo ==> views[c] == old(views)[c]
        invariant forall c :: c in clients && c !in todo ==>
                    views[c] == old(views)[c] + Named(pfx, Advertisements(clients[c], before, after))
      {
        var c :| c in todo;
        var advertise := PathsDiff(Selected(clients[c], after), Selected(clients[c], before));
        views := views[c := views[c] + Named(pfx, advertise)];
        todo := todo - {c};
      }
    }

    /** AddPath, RemovePath and ReplacePath: change the list, select, tell the clients. `sorted`
        is the outcome of the sort. Unless the selection panics, every client that followed the
        table before follows it afterwards. */
    method Process(c: Change, sorted: seq<PathPtr>) returns (ok: bool)
      requires Valid()
      requires Unsorted(rib, c).Some? ==> Rearranges(rib, c, sorted)
      modifies this`rib, this`views
      ensures ok <==> old(Unsorted(rib, c).None?) || EqualPathCount(sorted).Some?
      ensures ok ==> Valid()
      ensures ok ==> rib == if Unsorted(old(rib), c).Some? then Changed(old(rib), c.pfx, sorted) else old(rib)
      ensures ok ==> ListChanges(old(At(rib, c.pfx).paths), At(rib, c.pfx).paths, c)
      ensures ok && c.Add? ==>
                Lists(rib) == Reordered(Trie.Added(Lists(old(rib)), c.pfx, Some(c.p)), c.pfx, sorted)
      ensures ok && c.Remove? ==>
                Lists(rib) == Reordered(Trie.Removed(Lists(old(rib)), c.pfx, Some(c.p)), c.pfx, sorted)
      ensures ok ==> (c.pfx in rib <==> At(rib, c.pfx).paths != [])
      ensures ok ==> forall k :: k != c.pfx ==> At(rib, k) == old(At(rib, k))
      ensures ok ==> forall d :: d in clients && InSync(clients[d], old(rib), old(views)[d]) ==>
                       InSync(clients[d], rib, views[d])
      ensures ok && old(Following()) ==> Following()
    {
      hide ListChanges, Reordered;
      UnsortedChanges(rib, c);
      if Unsorted(rib, c).None? {
        assert c.Remove? ==> Reordered(Lists(rib), c.pfx, sorted) == Lists(rib) by {
          NothingReordered(Lists(rib), c.pfx, sorted);
        }
        return true;
      }
      if EqualPathCount(sorted).None? {
        return false;
      }
      ListChangesReorders(At(rib, c.pfx).paths, Unsorted(rib, c).value, sorted, c);
      ChangeFollowsTable(rib, c, sorted);
      ChangedSettles(rib, c.pfx, sorted);
      var before := At(rib, c.pfx);
      rib := Changed(rib, c.pfx, sorted);
      var after := At(rib, c.pfx);
      RemovePathsFromClients(c.pfx, before, after);
      AddPathsToClients(c.pfx, before, after);
      forall d | d in clients && InSync(clients[d], old(rib), old(views)[d])
        ensures InSync(clients[d], rib, views[d])
      {
        UpdateKeepsSync(clients[d], old(rib), rib, c.pfx, old(views)[d]);
      }
      ok := true;
    }
  }

  const TWO_PATHS := ClientOptions(false, false, 2)
  const BEST_ONLY := ClientOptions(true, false, 0)

  /** A path is added to a list of BGP paths, and the sort leaves it last. */
  method AddLast(lib: LocRIB, pfx: Prefix, x: PathPtr, ghost before: seq<PathPtr>)
    requires lib.Following() && At(lib.rib, pfx).paths == before && AllBGP(before + [x])
    modifies lib
    ensures lib.Following() && lib.clients == old(lib.clients)
    ensures pfx in lib.rib && lib.rib[pfx].paths == before + [x]
  {
    UniformNeverPanics(before + [x]);
    hide EqualPathCount, InSync, ListChanges, Lists, Reordered;
    var _ := lib.Process(Add(pfx, x), At(lib.rib, pfx).paths + [x]);
  }

  /** Two paths of one prefix are added. */
  method AddTwo(lib: LocRIB, pfx: Prefix, x: PathPtr, y: PathPtr)
    requires lib.Following() && lib.rib == map[] && x.path.BGP? && y.path.BGP?
    modifies lib
    ensures lib.Following() && lib.clients == old(lib.clients)
    ensures pfx in lib.rib && lib.rib[pfx].paths == [x, y]
  {
    AddLast(lib, pfx, x, []);
    assert [] + [x] == [x] && [x] + [y] == [x, y];
    AddLast(lib, pfx, y, [x]);
  }

  lemma HoldsBoth(r: RouteCopy, x: PathPtr, y: PathPtr)
    requires r.paths == [x, y] && x != y
    ensures y in Selected(TWO_PATHS, r) && y !in Selected(BEST_ONLY, r)
  {
    assert y == Selected(TWO_PATHS, r)[1];
    assert Selected(BEST_ONLY, r) == [x];
  }

  /** A client is told of two paths. */
  method TellBoth(c: Client, pfx: Prefix, x: PathPtr, y: PathPtr) returns (lib: LocRIB)
    requires x != y && x.path.BGP? && y.path.BGP?
    ensures fresh(lib) && lib.Valid() && lib.clients == map[c := TWO_PATHS] && c in lib.views
    ensures (pfx, y) in lib.views[c] && At(lib.rib, pfx).paths == [x, y]
  {
    lib := new LocRIB();
    lib.RegisterWithOptions(c, TWO_PATHS);
    hide Selected;
    AddTwo(lib, pfx, x, y);
    HoldsBoth(At(lib.rib, pfx), x, y);
    assert InSync(TWO_PATHS, lib.rib, lib.views[c]);
  }

  /** A client that has been told of two paths and then registers for the best one only keeps both. */
  method NarrowedKeepsBoth(c: Client, pfx: Prefix, x: PathPtr, y: PathPtr) returns (lib: LocRIB)
    requires x != y && x.path.BGP? && y.path.BGP?
    ensures lib.Valid() && lib.clients == map[c := BEST_ONLY] && c in lib.views
    ensures (pfx, y) in lib.views[c] && !InSync(BEST_ONLY, lib.rib, lib.views[c])
  {
    hide Selected;
    lib := TellBoth(c, pfx, x, y);
    lib.RegisterWithOptions(c, BEST_ONLY);
    HoldsBoth(At(lib.rib, pfx), x, y);
  }
}
