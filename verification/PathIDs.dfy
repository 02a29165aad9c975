/** The allocator of add-path identifiers: one 32-bit identifier per distinct path, counted
    references, and a cyclic search for the next free identifier. */
module PathIDs {
  import opened Words

  /** Two paths are the same to the manager when their hashes are; hashes are taken to be
      free of collisions. */
  datatype Hash = Hash(digest: nat)

  /** With every identifier in use the search for a free one does not end. */
  datatype Result = Id(id: uint32) | Failed | NeverReturns

  function Inc(x: uint32): (r: uint32) {
    if x == MAX_UINT32 then 0 else x + 1
  }

  function Dec(x: uint32): (r: uint32) {
    if x == 0 then MAX_UINT32 else x - 1
  }

  /** How many increments lead from `a` to `b`. */
  function Distance(a: uint32, b: uint32): (r: nat)
    ensures r <= MAX_UINT32
    ensures r == 0 <==> a == b
  {
    if a <= b then b - a else b - a + 0x1_0000_0000
  }

  /** One increment on the way to `b` is one less to go, and no two identifiers are equally far. */
  lemma DistanceSteps(start: uint32, a: uint32, b: uint32)
    ensures a != b ==> Distance(Inc(a), b) == Distance(a, b) - 1
    ensures Distance(start, a) == Distance(start, b) <==> a == b
    ensures Distance(start, a) < MAX_UINT32 ==> Distance(start, Inc(a)) == Distance(start, a) + 1
  {
  }

  /** What a 32-bit counter shows after counting to `x`, up and down from zero. */
  function Wrapped(x: int): (r: uint32)
    decreases if x < 0 then -x else x
  {
    if x == 0 then 0 else if x > 0 then Inc(Wrapped(x - 1)) else Dec(Wrapped(x + 1))
  }

  lemma WrappedSteps(x: int)
    ensures Wrapped(x + 1) == Inc(Wrapped(x)) && Wrapped(x - 1) == Dec(Wrapped(x))
  {
  }

  lemma NextRemainder(x: int)
    ensures Inc(x % 0x1_0000_0000) == (x + 1) % 0x1_0000_0000
  {
  }

  lemma DecUndoesInc(x: uint32)
    ensures Dec(Inc(x)) == x
  {
  }

  lemma {:induction false} WrappedIsRemainder(x: int)
    ensures Wrapped(x) == x % 0x1_0000_0000
    decreases if x < 0 then -x else x
  {
    hide Inc, Dec;
    if x > 0 {
      WrappedIsRemainder(x - 1);
      NextRemainder(x - 1);
    } else if x < 0 {
      WrappedIsRemainder(x + 1);
      NextRemainder(x);
      DecUndoesInc(x % 0x1_0000_0000);
    }
  }

  // ---------------------------------------------------------------- the bookkeeping

  /** The manager's maps and, for every live path, how often it was added minus how often it
      was released. */
  datatype Books = Books(ids: map<uint32, nat>, idByPath: map<Hash, uint32>, references: map<Hash, nat>)

  const EMPTY := Books(map[], map[], map[])

  /** Live paths have pairwise distinct identifiers. */
  ghost predicate DistinctIDs(idByPath: map<Hash, uint32>) {
    forall g, h {:trigger idByPath[g], idByPath[h]} ::
      g in idByPath && h in idByPath && idByPath[g] == idByPath[h] ==> g == h
  }

  /** Every live path has an identifier in use that carries its reference count, and there are
      as many identifiers in use as live paths. */
  ghost predicate Consistent(b: Books) {
    && b.idByPath.Keys == b.references.Keys
    && |b.ids| == |b.idByPath|
    && DistinctIDs(b.idByPath)
    && (forall h {:trigger b.idByPath[h]} :: h in b.idByPath ==>
          b.idByPath[h] in b.ids && b.ids[b.idByPath[h]] == b.references[h] > 0)
  }

  function Recounted(b: Books, h: Hash, count: nat): (r: Books)
    requires h in b.idByPath
  {
    b.(ids := b.ids[b.idByPath[h] := count], references := b.references[h := count])
  }

  function Assigned(b: Books, h: Hash, id: uint32): (r: Books) {
    Books(b.ids[id := 1], b.idByPath[h := id], b.references[h := 1])
  }

  function Forgotten(b: Books, h: Hash): (r: Books)
    requires h in b.idByPath
  {
    Books(b.ids - {b.idByPath[h]}, b.idByPath - {h}, b.references - {h})
  }

  lemma PutSize<K, V>(m: map<K, V>, k: K, v: V)
    ensures |m[k := v]| == if k in m then |m| else |m| + 1
  {
    assert m[k := v].Keys == m.Keys + {k};
    assert |m[k := v].Keys| == |m[k := v]| && |m.Keys| == |m|;
  }

  lemma DropSize<K, V>(m: map<K, V>, k: K)
    requires k in m
    ensures |m - {k}| == |m| - 1
  {
    assert m.Keys == (m - {k}).Keys + {k};
    assert |(m - {k}).Keys| == |m - {k}| && |m.Keys| == |m|;
  }

  lemma LiveIsCounted(b: Books, h: Hash)
    requires Consistent(b) && h in b.idByPath
    ensures h in b.references && b.idByPath[h] in b.ids && b.ids[b.idByPath[h]] == b.references[h] > 0
  {
  }

  lemma RecountKeeps(b: Books, h: Hash, count: nat)
    requires Consistent(b) && h in b.idByPath && count > 0
    ensures Consistent(Recounted(b, h, count)) && |Recounted(b, h, count).ids| == |b.ids|
  {
    PutSize(b.ids, b.idByPath[h], count);
    assert Recounted(b, h, count).ids.Keys == b.ids.Keys;
    assert Recounted(b, h, count).references.Keys == b.references.Keys;
  }

  lemma AssignKeeps(b: Books, h: Hash, id: uint32)
    requires Consistent(b) && h !in b.idByPath && id !in b.ids
    ensures Consistent(Assigned(b, h, id)) && |Assigned(b, h, id).ids| == |b.ids| + 1
  {
    PutSize(b.ids, id, 1);
    PutSize(b.idByPath, h, id);
  }

  lemma ForgetKeeps(b: Books, h: Hash)
    requires Consistent(b) && h in b.idByPath
    ensures Consistent(Forgotten(b, h)) && |Forgotten(b, h).ids| == |b.ids| - 1
  {
    DropSize(b.ids, b.idByPath[h]);
    DropSize(b.idByPath, h);
  }

  /** The books after one release of a live path. */
  function Released(b: Books, h: Hash): (r: Books)
    requires h in b.idByPath && h in b.references
  {
    if b.references[h] <= 1 then Forgotten(b, h) else Recounted(b, h, b.references[h] - 1)
  }

  /** One of the two numbers `used` is compared with goes down by one. */
  lemma ReleaseKeeps(b: Books, h: Hash)
    requires Consistent(b) && h in b.idByPath
    ensures Consistent(Released(b, h))
    ensures |Released(b, h).ids| == |b.ids| - (if b.references[h] == 1 then 1 else 0)
    ensures b.idByPath[h] in b.ids && b.ids[b.idByPath[h]] == b.references[h] >= 1
  {
    hide Consistent, Forgotten, Recounted;
    LiveIsCounted(b, h);
    if b.references[h] == 1 {
      ForgetKeeps(b, h);
    } else {
      RecountKeeps(b, h, b.references[h] - 1);
    }
  }

  // ---------------------------------------------------------------- running out

  // ---------------------------------------------------------------- every run

  /** A call that succeeds: the addition of a path, with the identifier it is given if it has none,
      or a release. */
  datatype Call = Add(hash: Hash, id: uint32) | Release(hash: Hash)

  /** Only an identifier that is not in use is handed out. */
  predicate Possible(b: Books, call: Call) {
    if call.Add? then call.hash in b.idByPath || call.id !in b.ids else call.hash in b.idByPath
  }

  function AfterCall(b: Books, call: Call): (r: Books)
    requires Possible(b, call) && b.idByPath.Keys == b.references.Keys
  {
    if call.Release? then Released(b, call.hash)
    else if call.hash in b.idByPath then Recounted(b, call.hash, b.references[call.hash] + 1)
    else Assigned(b, call.hash, call.id)
  }

  lemma CallKeeps(b: Books, call: Call)
    requires Consistent(b) && Possible(b, call)
    ensures Consistent(AfterCall(b, call))
  {
    hide Consistent;
    if call.hash in b.idByPath {
      LiveIsCounted(b, call.hash);
    }
    if call.Release? {
      ReleaseKeeps(b, call.hash);
    } else if call.hash in b.idByPath {
      RecountKeeps(b, call.hash, b.references[call.hash] + 1);
    } else {
      AssignKeeps(b, call.hash, call.id);
    }
  }

  function Count(b: Books, h: Hash): (n: nat) {
    if h in b.references then b.references[h] else 0
  }

  function Change(call: Call, h: Hash): (n: int) {
    if call.hash != h then 0 else if call.Add? then 1 else -1
  }

  /** What a call does to the books of one path. */
  lemma CallCounts(b: Books, call: Call, h: Hash)
    requires Consistent(b) && Possible(b, call)
    ensures b.idByPath.Keys == b.references.Keys
    ensures var r := AfterCall(b, call);
            && Count(r, h) == Count(b, h) + Change(call, h)
            && (h in b.idByPath <==> Count(b, h) > 0)
            && (h in r.idByPath <==> Count(r, h) > 0)
            && (h in b.idByPath && h in r.idByPath ==> r.idByPath[h] == b.idByPath[h])
  {
  }

  /** `trace` is the books after each call, from the beginning. */
  ghost predicate IsTrace(calls: seq<Call>, trace: seq<Books>) {
    && |trace| == |calls| + 1 && trace[0] == EMPTY
    && forall i :: 0 <= i < |calls| ==>
         Consistent(trace[i]) && Possible(trace[i], calls[i]) && trace[i + 1] == AfterCall(trace[i], calls[i])
  }

  /** How often a path was added more than released. */
  function Balance(calls: seq<Call>, h: Hash): (n: int) {
    if calls == [] then 0
    else
      Balance(calls[..|calls| - 1], h) + Change(calls[|calls| - 1], h)
  }

  lemma NothingCounted(h: Hash)
    ensures Consistent(EMPTY) && Count(EMPTY, h) == 0
  {
  }

  /** In every run a path has an identifier exactly while it was added more often than released. */
  lemma {:induction false} LiveWhileAdded(calls: seq<Call>, trace: seq<Books>, h: Hash)
    requires IsTrace(calls, trace)
    ensures Consistent(trace[|calls|])
    ensures Count(trace[|calls|], h) == Balance(calls, h)
    ensures h in trace[|calls|].idByPath <==> Balance(calls, h) > 0
    decreases |calls|
  {
    hide Consistent, Possible, AfterCall, Count, Change;
    if calls == [] {
      NothingCounted(h);
    } else {
      var n := |calls| - 1;
      LiveWhileAdded(calls[..n], trace[..|calls|], h);
      CallKeeps(trace[n], calls[n]);
      CallCounts(trace[n], calls[n], h);
      assert trace[n + 1] == AfterCall(trace[n], calls[n]);
    }
  }

  lemma NoneElse(b: Books, h: Hash)
    requires Consistent(b) && h in b.idByPath
    ensures forall g :: g in b.idByPath && g != h ==> b.idByPath[g] != b.idByPath[h]
  {
  }

  /** While it has one it keeps it, and no other path is given the same. */
  lemma {:induction false} IdentifierIsKept(calls: seq<Call>, trace: seq<Books>, i: nat, j: nat, h: Hash)
    requires IsTrace(calls, trace) && i <= j <= |calls|
    requires forall k :: i <= k <= j ==> Balance(calls[..k], h) > 0
    ensures h in trace[i].idByPath && h in trace[j].idByPath && trace[i].idByPath[h] == trace[j].idByPath[h]
    ensures forall g :: g in trace[j].idByPath && g != h ==> trace[j].idByPath[g] != trace[i].idByPath[h]
    decreases j
  {
    hide Consistent, Possible, AfterCall, Count, Change;
    LiveWhileAdded(calls[..j], trace[..j + 1], h);
    NoneElse(trace[j], h);
    if i < j {
      IdentifierIsKept(calls, trace, i, j - 1, h);
      CallCounts(trace[j - 1], calls[j - 1], h);
      assert trace[(j - 1) + 1] == AfterCall(trace[j - 1], calls[j - 1]);
    }
  }

  ghost function Below(n: nat): (s: set<uint32>)
    requires n <= 0x1_0000_0000
    ensures |s| == n && forall x: uint32 :: x in s <==> x < n
  {
    if n == 0 then {} else Below(n - 1) + {n - 1}
  }

  lemma {:induction false} SubsetSize(a: set<uint32>, b: set<uint32>)
    requires a <= b
    ensures |a| <= |b| && (|a| == |b| ==> a == b)
    decreases a
  {
    if a != {} {
      var x :| x in a;
      SubsetSize(a - {x}, b - {x});
    } else if |b| == 0 {
      assert b == {};
    }
  }

  /** There are 2^32 identifiers, so all are in use exactly if that many are. */
  lemma AllInUseIff(ids: map<uint32, nat>, n: nat)
    requires n == 0x1_0000_0000
    ensures |ids| == n <==> forall id: uint32 :: id in ids
  {
    assert ids.Keys <= Below(n);
    SubsetSize(ids.Keys, Below(n));
    assert |ids| == |ids.Keys|;
    if forall id: uint32 :: id in ids {
      assert ids.Keys == Below(n);
    }
  }

  // ---------------------------------------------------------------- the manager

  /** Every identifier between `last` and `id` is in use. */
  ghost predicate FirstFree(ids: map<uint32, nat>, last: uint32, id: uint32) {
    forall other :: Distance(Inc(last), other) < Distance(Inc(last), id) ==> other in ids
  }

  class PathIDManager {
    var ids: map<uint32, nat>
    var idByPath: map<Hash, uint32>
    var last: uint32
    var used: uint32

    ghost var references: map<Hash, nat>

    /** How many releases left a path in use. */
    ghost var partialReleases: nat

    ghost predicate Valid()
      reads this
    {
      && Consistent(CurrentBooks())
      && used == Wrapped(|ids| - partialReleases)
    }

    ghost function CurrentBooks(): (b: Books)
      reads this
    {
      Books(ids, idByPath, references)
    }

    constructor ()
      ensures Valid() && CurrentBooks() == EMPTY && partialReleases == 0
    {
      ids, idByPath, last, used := map[], map[], 0, 0;
      references, partialReleases := map[], 0;
    }

    /** The first identifier after `last` that is not in use, across the wrap-around. */
    method Probe(ghost free: uint32) returns (id: uint32)
      requires free !in ids
      ensures id !in ids && FirstFree(ids, last, id)
    {
      id := Inc(last);
      ghost var start := id;
      while id in ids
        invariant Distance(start, id) + Distance(id, free) == Distance(start, free)
        invariant forall other :: Distance(start, other) < Distance(start, id) ==> other in ids
        decreases Distance(id, free)
      {
        DistanceSteps(start, id, free);
        forall other | Distance(start, other) < Distance(start, Inc(id))
          ensures other in ids
        {
          DistanceSteps(start, other, id);
        }
        id := Inc(id);
      }
    }

    /** A known path keeps its identifier; a new one gets the next free one after `last`. */
    method AddPath(hash: Hash) returns (r: Result)
      requires Valid()
      modifies this
      ensures Valid() && partialReleases == old(partialReleases)
      ensures r.Failed? <==> hash !in old(idByPath) && old(used) == MAX_UINT32
      ensures r.NeverReturns? <==>
              hash !in old(idByPath) && old(used) != MAX_UINT32 && forall id: uint32 :: id in old(ids)
      ensures !r.Id? ==> CurrentBooks() == old(CurrentBooks())
      ensures r.Id? && hash in old(idByPath) ==> r.id == old(idByPath)[hash]
      ensures r.Id? && hash !in old(idByPath) ==> r.id !in old(ids) && FirstFree(old(ids), old(last), r.id)
      ensures r.Id? ==> CurrentBooks() == AfterCall(old(CurrentBooks()), Add(hash, r.id))
      ensures last == if r.Id? && hash !in old(idByPath) then r.id else old(last)
    {
      hide Consistent, Wrapped, FirstFree;
      if hash in idByPath {
        var id := idByPath[hash];
        LiveIsCounted(CurrentBooks(), hash);
        RecountKeeps(CurrentBooks(), hash, references[hash] + 1);
        CountUp(hash, id);
        return Id(id);
      }
      if used == MAX_UINT32 {
        return Failed;
      }
      AllInUseIff(ids, 0x1_0000_0000);
      if |ids| == 0x1_0000_0000 {
        return NeverReturns;
      }
      ghost var free: uint32 :| free !in ids;
      var id := Probe(free);
      AssignKeeps(CurrentBooks(), hash, id);
      WrappedSteps(|ids| - partialReleases);
      HandOut(hash, id);
      used := Inc(used);
      r := Id(id);
    }

    method CountUp(hash: Hash, id: uint32)
      requires hash in idByPath && idByPath[hash] == id && id in ids
      requires hash in references && references[hash] == ids[id]
      modifies this`ids, this`references
      ensures CurrentBooks() == Recounted(old(CurrentBooks()), hash, old(references)[hash] + 1)
    {
      ids := ids[id := ids[id] + 1];
      references := references[hash := references[hash] + 1];
    }

    method HandOut(hash: Hash, id: uint32)
      modifies this`ids, this`idByPath, this`references, this`last
      ensures last == id && CurrentBooks() == Assigned(old(CurrentBooks()), hash, id)
    {
      last := id;
      idByPath := idByPath[hash := id];
      ids := ids[id := 1];
      references := references[hash := 1];
    }

    /** Gives one reference back; the identifier is free again after the last one. */
    method ReleasePath(hash: Hash) returns (r: Result)
      requires Valid()
      modifies this
      ensures Valid()
      ensures r == if hash in old(idByPath) then Id(old(idByPath)[hash]) else Failed
      ensures r.Failed? ==> CurrentBooks() == old(CurrentBooks()) && partialReleases == old(partialReleases)
      ensures r.Id? ==>
                && CurrentBooks() == AfterCall(old(CurrentBooks()), Release(hash))
                && partialReleases == old(partialReleases) + (if old(references)[hash] == 1 then 0 else 1)
      ensures last == old(last)
    {
      hide Consistent, Wrapped, Released;
      if hash !in idByPath {
        return Failed;
      }
      LiveIsCounted(CurrentBooks(), hash);
      ReleaseKeeps(CurrentBooks(), hash);
      WrappedSteps(|ids| - partialReleases);
      var id := idByPath[hash];
      TakeBack(hash, id);
      used := Dec(used);
      r := Id(id);
    }

    /** The map updates of a release. */
    method TakeBack(hash: Hash, id: uint32)
      requires hash in idByPath && idByPath[hash] == id && id in ids
      requires hash in references && references[hash] == ids[id] >= 1
      modifies this`ids, this`idByPath, this`references, this`partialReleases
      ensures CurrentBooks() == Released(old(CurrentBooks()), hash)
      ensures partialReleases == old(partialReleases) + (if old(references)[hash] == 1 then 0 else 1)
    {
      if ids[id] == 1 {
        ids := ids - {id};
        idByPath := idByPath - {hash};
        references := references - {hash};
      } else {
        ids := ids[id := ids[id] - 1];
        references := references[hash := references[hash] - 1];
        partialReleases := partialReleases + 1;
      }
    }
  }

  /** A new path is refused exactly when the identifiers in use, less the partial releases, are
      2^32 - 1 modulo 2^32: the counter compared with the limit is not the number in use. */
  method AddUnknown(m: PathIDManager, hash: Hash) returns (r: Result)
    requires m.Valid() && hash !in m.idByPath
    modifies m
    ensures r.Failed? <==> (|old(m.ids)| - old(m.partialReleases)) % 0x1_0000_0000 == MAX_UINT32
  {
    WrappedIsRemainder(|m.ids| - m.partialReleases);
    r := m.AddPath(hash);
  }

  method AddTwice(p: Hash) returns (m: PathIDManager, id: uint32)
    ensures fresh(m) && m.Valid() && m.partialReleases == 0
    ensures m.CurrentBooks() == Recounted(Assigned(EMPTY, p, id), p, 2)
  {
    m := new PathIDManager();
    assert 0 !in m.ids;
    var first := m.AddPath(p);
    id := first.id;
    assert m.references == map[p := 1];
    var again := m.AddPath(p);
  }

  lemma ReleasedTwice(p: Hash, id: uint32)
    ensures var b := Recounted(Assigned(EMPTY, p, id), p, 2);
            && b.references == map[p := 2] && b.idByPath == map[p := id]
            && Released(b, p).references == map[p := 1] && Released(b, p).idByPath == map[p := id]
            && Released(Released(b, p), p) == EMPTY
  {
  }

  method ReleaseTwice(m: PathIDManager, p: Hash, ghost id: uint32)
    requires m.Valid() && m.partialReleases == 0
    requires m.CurrentBooks() == Recounted(Assigned(EMPTY, p, id), p, 2)
    modifies m
    ensures m.Valid() && m.partialReleases == 1 && m.CurrentBooks() == EMPTY
  {
    ReleasedTwice(p, id);
    var one := m.ReleasePath(p);
    assert m.references[p] == 1;
    var two := m.ReleasePath(p);
  }

  /** Adding a path twice and releasing it twice leaves no identifier in use, and yet the next
      path is refused. */
  method RefusedWhileEmpty(p: Hash, q: Hash) returns (r: Result)
    ensures r.Failed?
  {
    var m, id := AddTwice(p);
    ReleaseTwice(m, p, id);
    assert |m.ids| == 0;
    r := AddUnknown(m, q);
  }
}
