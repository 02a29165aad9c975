/** The routing table as the program builds it: trie nodes on the heap, changed in place,
    and the table object that owns the root and counts its routes. */
module RoutingTables {
  import opened Options
  import opened Words
  import opened Prefixes
  import opened Paths
  import opened Routes
  import opened Trie

  lemma RemoveFromNil(pfx: Prefix, p: Option<PathPtr>)
    ensures Trie.RemovePath(Nil, pfx, p) == (Nil, false)
  {
  }

  lemma Appending(res: seq<Entry>, own: seq<Entry>, low: seq<Entry>, high: seq<Entry>)
    ensures res + own + low + high == res + (own + low + high)
    ensures res + own + [] + high == res + own + high
    ensures res + own + low + [] == res + own + low
  {
  }

  /** A trie node; the prefix and the paths of its route are kept in the node. */
  class TrieNode {
    const pfx: Prefix
    var skip: uint8
    var dummy: bool
    var paths: seq<PathPtr>
    var l: TrieNode?
    var h: TrieNode?

    /** The tree value this node stands for, and the nodes it is made of. */
    ghost var tree: Tree
    ghost var repr: set<TrieNode>

    ghost predicate Valid()
      reads this, repr
      ensures Valid() ==> this in repr && tree.Node? && tree.pfx == pfx
      decreases repr
    {
      && this in repr
      && (l != null ==> l in repr && l.repr < repr && this !in l.repr && l.Valid())
      && (h != null ==> h in repr && h.repr < repr && this !in h.repr && h.Valid())
      && (l != null && h != null ==> l.repr !! h.repr)
      && tree == Tree.Node(skip, dummy, pfx, paths,
                           if l == null then Nil else l.tree, if h == null then Nil else h.tree)
    }

    constructor (pfx: Prefix, p: Option<PathPtr>, skip: uint8, dummy: bool)
      ensures Valid() && repr == {this} && tree == NewNode(pfx, p, skip, dummy) && l == null && h == null
    {
      this.pfx, this.skip, this.dummy := pfx, skip, dummy;
      paths := Listed(p);
      l, h := null, null;
      tree := NewNode(pfx, p, skip, dummy);
      repr := {this};
    }

    /** Makes `child` the low or the high child. */
    method SetChild(bit: bool, child: TrieNode)
      requires Valid() && child.Valid() && this !in child.repr
      requires ChildAt(tree, !bit).Node? ==> (if bit then l else h).repr !! child.repr
      modifies this
      ensures Valid() && tree == WithChild(old(tree), bit, child.tree) && repr == old(repr) + child.repr
      ensures skip == old(skip) && dummy == old(dummy) && paths == old(paths)
      ensures bit ==> h == child && l == old(l)
      ensures !bit ==> l == child && h == old(h)
    {
      if bit {
        h := child;
      } else {
        l := child;
      }
      tree := WithChild(tree, bit, child.tree);
      repr := repr + child.repr;
    }

    method SetSkip(newSkip: uint8)
      requires Valid()
      modifies this`skip, this`tree
      ensures Valid() && tree == old(tree).(skip := newSkip)
    {
      skip := newSkip;
      tree := tree.(skip := newSkip);
    }

    /** Adds a path below this node and returns the node to link in its place. */
    method AddPath(pfx: Prefix, p: Option<PathPtr>) returns (root: TrieNode, isNew: bool)
      requires Valid() && LengthsOk(tree) && pfx.len <= 32
      modifies repr
      ensures root.Valid() && fresh(root.repr - old(repr))
      ensures (root.tree, isNew) == Trie.AddPath(old(tree), pfx, p)
      decreases tree
    {
      hide BitAtPosition, Contains, Trie.InsertBefore, Trie.NewSuperNode, SubU8;
      if this.pfx == pfx {
        isNew := dummy;
        paths := paths + Listed(p);
        dummy := false;
        tree := tree.(paths := paths, dummy := false);
        return this, isNew;
      }
      if !Contains(this.pfx, pfx) {
        if Contains(pfx, this.pfx) {
          root := InsertBefore(pfx, p);
        } else {
          root := NewSuperNode(pfx, p);
        }
        return root, true;
      }
      isNew := InsertBelow(BitAtPosition(pfx.addr, this.pfx.len + 1), pfx, p);
      root := this;
    }

    /** insertLow for a zero bit, insertHigh for a one. */
    method InsertBelow(bit: bool, pfx: Prefix, p: Option<PathPtr>) returns (isNew: bool)
      requires Valid() && LengthsOk(tree) && pfx.len <= 32
      modifies repr
      ensures Valid() && fresh(repr - old(repr))
      ensures var child := ChildAt(old(tree), bit);
              if child.Nil? then
                && isNew
                && tree == WithChild(old(tree), bit,
                                     NewNode(pfx, p, SubU8(SubU8(pfx.len, this.pfx.len), 1), false))
              else
                (tree, isNew) == (WithChild(old(tree), bit, Trie.AddPath(child, pfx, p).0), Trie.AddPath(child, pfx, p).1)
      decreases tree, 0
    {
      hide SubU8;
      var child := if bit then h else l;
      if child == null {
        var leaf := new TrieNode(pfx, p, SubU8(SubU8(pfx.len, this.pfx.len), 1), false);
        SetChild(bit, leaf);
        return true;
      }
      var newRoot;
      newRoot, isNew := child.AddPath(pfx, p);
      Relink(bit, newRoot, tree, old(repr));
    }

    /** Links the root of a changed subtree; meanwhile only this node's ghost state was behind. */
    method Relink(bit: bool, newRoot: TrieNode, ghost before: Tree, ghost known: set<TrieNode>)
      requires this in known && repr == known && newRoot.Valid() && this !in newRoot.repr
      requires before.Node? && tree == before
      requires before.skip == skip && before.dummy == dummy && before.pfx == pfx && before.paths == paths
      requires var other := if bit then l else h;
               && (other != null ==> other in repr && other.repr < repr && this !in other.repr && other.Valid()
                                     && other.repr !! newRoot.repr)
               && ChildAt(before, !bit) == if other == null then Nil else other.tree
      modifies this
      ensures Valid() && tree == WithChild(before, bit, newRoot.tree) && repr == known + newRoot.repr
    {
      if bit {
        h := newRoot;
      } else {
        l := newRoot;
      }
      tree := WithChild(before, bit, newRoot.tree);
      repr := known + newRoot.repr;
    }

    method InsertBefore(pfx: Prefix, p: Option<PathPtr>) returns (inserted: TrieNode)
      requires Valid()
      modifies this`skip, this`tree
      ensures inserted.Valid() && fresh(inserted.repr - old(repr))
      ensures inserted.tree == Trie.InsertBefore(old(tree), pfx, p)
    {
      hide SubU8, BitAtPosition;
      var newSkip := SubU8(skip, SubU8(this.pfx.len, pfx.len));
      inserted := new TrieNode(pfx, p, newSkip, false);
      SetSkip(SubU8(SubU8(this.pfx.len, pfx.len), 1));
      inserted.SetChild(BitAtPosition(this.pfx.addr, pfx.len + 1), this);
    }

    method NewSuperNode(pfx: Prefix, p: Option<PathPtr>) returns (pseudo: TrieNode)
      requires Valid() && this.pfx.len <= 32 && pfx.len <= 32
      modifies this`skip, this`tree
      ensures pseudo.Valid() && fresh(pseudo.repr - old(repr))
      ensures pseudo.tree == Trie.NewSuperNode(old(tree), pfx, p)
    {
      hide SubU8, BitAtPosition, Trie.InsertChildren, GetSupernet;
      var superNet := Supernet(pfx, this.pfx);
      pseudo := new TrieNode(superNet, None, SubU8(skip, SubU8(this.pfx.len, superNet.len)), true);
      pseudo.InsertChildren(this, pfx, p);
    }

    /** Places a former node and a new prefix under this fresh node. */
    method InsertChildren(former: TrieNode, newPfx: Prefix, newPath: Option<PathPtr>)
      requires Valid() && former.Valid() && repr == {this} && this !in former.repr && l == null && h == null
      modifies this, former`skip, former`tree
      ensures Valid() && fresh(repr - {this} - old(former.repr))
      ensures tree == Trie.InsertChildren(old(tree), old(former.tree), newPfx, newPath)
    {
      hide SubU8, BitAtPosition;
      PlaceFormer(former);
      var added := new TrieNode(newPfx, newPath, SubU8(SubU8(newPfx.len, pfx.len), 1), false);
      SetChild(BitAtPosition(newPfx.addr, pfx.len + 1), added);
    }

    method PlaceFormer(former: TrieNode)
      requires Valid() && former.Valid() && repr == {this} && this !in former.repr && l == null && h == null
      modifies this, former`skip, former`tree
      ensures Valid() && former.Valid() && repr == {this} + old(former.repr) && former.repr == old(former.repr)
      ensures former.tree == old(former.tree).(skip := SubU8(SubU8(former.pfx.len, pfx.len), 1))
      ensures tree == WithChild(old(tree), BitAtPosition(former.pfx.addr, pfx.len + 1), former.tree)
      ensures l == (if BitAtPosition(former.pfx.addr, pfx.len + 1) then null else former)
      ensures h == (if BitAtPosition(former.pfx.addr, pfx.len + 1) then former else null)
    {
      hide SubU8, BitAtPosition;
      former.SetSkip(SubU8(SubU8(former.pfx.len, pfx.len), 1));
      SetChild(BitAtPosition(former.pfx.addr, pfx.len + 1), former);
    }

    method RemovePath(pfx: Prefix, p: Option<PathPtr>) returns (final: bool)
      requires Valid()
      modifies repr
      ensures Valid() && repr == old(repr)
      ensures (tree, final) == Trie.RemovePath(old(tree), pfx, p)
      decreases tree
    {
      hide BitAtPosition, Without;
      if this.pfx == pfx {
        if dummy {
          return false;
        }
        paths := Without(paths, p);
        if |paths| == 0 {
          dummy := true;
        }
        tree := tree.(paths := paths, dummy := dummy);
        return |paths| == 0;
      }
      final := RemoveBelow(BitAtPosition(pfx.addr, this.pfx.len + 1), pfx, p);
    }

    method RemoveBelow(bit: bool, pfx: Prefix, p: Option<PathPtr>) returns (final: bool)
      requires Valid()
      modifies repr
      ensures Valid() && repr == old(repr)
      ensures var (r, f) := Trie.RemovePath(ChildAt(old(tree), bit), pfx, p);
              tree == WithChild(old(tree), bit, r) && final == f
      decreases tree, 0
    {
      hide Trie.RemovePath;
      var child := if bit then h else l;
      if child == null {
        RemoveFromNil(pfx, p);
        return false;
      }
      final := child.RemovePath(pfx, p);
      Relink(bit, child, tree, repr);
    }

    method Lpm(needle: Prefix, res: seq<Entry>) returns (r: seq<Entry>)
      requires Valid()
      ensures r == res + Trie.Lpm(tree, needle)
      decreases tree
    {
      hide Contains;
      if pfx == needle && !dummy {
        return res + [Entry(pfx, paths)];
      }
      if !Contains(pfx, needle) {
        return res;
      }
      r := res + (if dummy then [] else [Entry(pfx, paths)]);
      if l != null {
        r := l.Lpm(needle, r);
      }
      if h != null {
        r := h.Lpm(needle, r);
      }
      Appending(res, Own(tree), Trie.Lpm(tree.l, needle), Trie.Lpm(tree.h, needle));
    }

    method Get(pfx: Prefix) returns (r: TrieNode?)
      requires Valid()
      ensures r == null <==> Trie.Get(tree, pfx).Nil?
      ensures r != null ==> r.Valid() && r.tree == Trie.Get(tree, pfx)
      decreases tree
    {
      hide BitAtPosition;
      if this.pfx == pfx {
        return if dummy then null else this;
      }
      if this.pfx.len > pfx.len {
        return null;
      }
      var child := if BitAtPosition(pfx.addr, this.pfx.len + 1) then h else l;
      if child == null {
        return null;
      }
      r := child.Get(pfx);
    }

    /** dump and dumpPfxs walk a non-empty trie in the same way. */
    method Dump(res: seq<Entry>) returns (r: seq<Entry>)
      requires Valid()
      ensures r == res + Trie.Dump(tree)
      decreases tree
    {
      r := res + (if dummy then [] else [Entry(pfx, paths)]);
      if l != null {
        r := l.Dump(r);
      }
      if h != null {
        r := h.Dump(r);
      }
      Appending(res, Own(tree), Trie.Dump(tree.l), Trie.Dump(tree.h));
    }
  }

  /** A well-shaped trie, the table it stores and the number of its prefixes. */
  ghost predicate Counted(t: Tree, m: Table, count: int) {
    Shape(t, []) && Contents(t) == m && count == |m|
  }

  lemma AddCounts(m: Table, count: int, pfx: Prefix, p: Option<PathPtr>, r: (Tree, bool))
    requires count == |m| && Shape(r.0, []) && Contents(r.0) == Added(m, pfx, p) && r.1 == (pfx !in m)
    ensures Counted(r.0, Added(m, pfx, p), if r.1 then count + 1 else count)
  {
    TableCount(m, pfx, p);
  }

  lemma AddKeepsCount(t: Tree, m: Table, count: int, pfx: Prefix, p: Option<PathPtr>)
    requires Counted(t, m, count) && WellFormed(pfx) && t.Node?
    ensures LengthsOk(t)
    ensures var (r, isNew) := Trie.AddPath(t, pfx, p); Counted(r, Added(m, pfx, p), if isNew then count + 1 else count)
  {
    ShapeLengths(t, []);
    AddPathTable(t, pfx, p);
    AddCounts(m, count, pfx, p, Trie.AddPath(t, pfx, p));
  }

  lemma FirstCounts(pfx: Prefix, p: Option<PathPtr>)
    requires WellFormed(pfx)
    ensures Counted(NewNode(pfx, p, pfx.len, false), Added(map[], pfx, p), 1)
  {
    var leaf := NewNode(pfx, p, pfx.len, false);
    forall q
      ensures Lookup(leaf, q) == if q in Added(map[], pfx, p) then Some(Added(map[], pfx, p)[q]) else None
    {
    }
    StoresTable(leaf, Added(map[], pfx, p));
    TableCount(map[], pfx, p);
  }

  lemma NothingStored(m: Table, count: int, pfx: Prefix, p: Option<PathPtr>)
    requires Counted(Nil, m, count)
    ensures m == map[] && count == 0 && Removed(m, pfx, p) == m
  {
  }

  lemma RemoveCounts(m: Table, count: int, pfx: Prefix, p: Option<PathPtr>, r: (Tree, bool))
    requires count == |m| && Shape(r.0, []) && Contents(r.0) == Removed(m, pfx, p)
    requires r.1 == (pfx in m && pfx !in Removed(m, pfx, p))
    ensures Counted(r.0, Removed(m, pfx, p), if r.1 then count - 1 else count)
  {
    TableCount(m, pfx, p);
  }

  lemma RemoveKeepsCount(t: Tree, m: Table, count: int, pfx: Prefix, p: Option<PathPtr>)
    requires Counted(t, m, count)
    ensures var (r, final) := Trie.RemovePath(t, pfx, p); Counted(r, Removed(m, pfx, p), if final then count - 1 else count)
  {
    RemovePathTable(t, pfx, p);
    RemoveCounts(m, count, pfx, p, Trie.RemovePath(t, pfx, p));
  }

  lemma ReplacedInSteps(m: Table, pfx: Prefix, p: Option<PathPtr>)
    ensures pfx in m ==> Added(RemovedEach(m, pfx, m[pfx]), pfx, p) == Replaced(m, pfx, p)
    ensures pfx !in m ==> Added(m, pfx, p) == Replaced(m, pfx, p)
  {
    ClearedThenAdded(m, pfx, p);
    if pfx in m {
      RemovedEachOwn(m, pfx);
    }
  }

  lemma LongerListed(t: Tree, m: Table, count: int, pfx: Prefix, below: seq<bool>)
    requires Counted(t, m, count) && pfx in m && Shape(Trie.Get(t, pfx), below)
    ensures forall e :: e in Trie.Dump(Trie.Get(t, pfx)) <==>
                          e.pfx in m && m[e.pfx] == e.paths && Key(pfx) <= Key(e.pfx)
    ensures DistinctPrefixes(Trie.Dump(Trie.Get(t, pfx)))
  {
    hide Trie.Dump, Trie.Get, DistinctPrefixes, Key;
    DumpDistinct(Trie.Get(t, pfx), below);
    forall e
      ensures e in Trie.Dump(Trie.Get(t, pfx)) <==> e.pfx in m && m[e.pfx] == e.paths && Key(pfx) <= Key(e.pfx)
    {
      DumpLists(Trie.Get(t, pfx), below, e);
      GetCovers(t, [], pfx, e.pfx);
    }
  }

  lemma DumpIsTable(t: Tree, m: Table, count: int)
    requires Counted(t, m, count)
    ensures forall e :: e in Trie.Dump(t) <==> e.pfx in m && m[e.pfx] == e.paths
    ensures DistinctPrefixes(Trie.Dump(t)) && |Trie.Dump(t)| == count
  {
    var res := Trie.Dump(t);
    forall e
      ensures e in res <==> e.pfx in m && m[e.pfx] == e.paths
    {
      DumpLists(t, [], e);
    }
    DumpDistinct(t, []);
    DistinctCount(res);
    forall q | q in m
      ensures q in PrefixSet(res)
    {
      assert Entry(q, m[q]) in res;
    }
    assert PrefixSet(res) == m.Keys;
  }

  /** A routing table. Its meaning is `stored`, a map from prefix to list of paths. */
  class RoutingTable {
    var routeCount: int
    var root: TrieNode?

    ghost var stored: Table
    ghost var tree: Tree
    ghost var nodes: set<TrieNode>

    /** The nodes on the heap are those of `tree`. */
    ghost predicate Linked()
      reads this, nodes
    {
      && (root == null ==> tree == Nil && nodes == {})
      && (root != null ==> root in nodes && root.repr == nodes && root.Valid() && root.tree == tree)
    }

    ghost predicate Valid()
      reads this, nodes
    {
      Linked() && Counted(tree, stored, routeCount)
    }

    constructor ()
      ensures Valid() && stored == map[] && fresh(nodes)
    {
      routeCount, root := 0, null;
      stored, tree, nodes := map[], Nil, {};
    }

    method Install(newRoot: TrieNode, count: int, ghost m: Table)
      requires newRoot.Valid()
      modifies this
      ensures Linked() && tree == newRoot.tree && stored == m && nodes == newRoot.repr && routeCount == count
    {
      root, routeCount := newRoot, count;
      stored, tree, nodes := m, newRoot.tree, newRoot.repr;
    }

    /** The trie changes as its specification says. It stores the table with the path added if the
        prefix has no host bits. */
    method AddPath(pfx: Prefix, p: Option<PathPtr>)
      requires Linked() && LengthsOk(tree) && pfx.len <= 32
      modifies this, nodes
      ensures Linked() && fresh(nodes - old(nodes))
      ensures tree == if old(tree).Nil? then NewNode(pfx, p, pfx.len, false) else Trie.AddPath(old(tree), pfx, p).0
      ensures old(Valid()) && WellFormed(pfx) ==> Valid() && stored == Added(old(stored), pfx, p)
    {
      hide Counted, Trie.AddPath, Added, NewNode, LengthsOk, WellFormed;
      ghost var m := Added(stored, pfx, p);
      if root == null {
        if Valid() && WellFormed(pfx) {
          NothingStored(stored, routeCount, pfx, p);
          FirstCounts(pfx, p);
        }
        var first := new TrieNode(pfx, p, pfx.len, false);
        Install(first, routeCount + 1, m);
        return;
      }
      if Valid() && WellFormed(pfx) {
        AddKeepsCount(tree, stored, routeCount, pfx, p);
      }
      var newRoot, isNew := root.AddPath(pfx, p);
      Install(newRoot, if isNew then routeCount + 1 else routeCount, m);
    }

    lemma ValidLengths()
      requires Valid()
      ensures LengthsOk(tree)
    {
      ShapeLengths(tree, []);
    }

    method RemovePath(pfx: Prefix, p: Option<PathPtr>)
      requires Valid()
      modifies this, nodes
      ensures Valid() && nodes == old(nodes)
      ensures stored == Removed(old(stored), pfx, p)
    {
      hide Counted, Trie.RemovePath, Removed;
      ghost var m := Removed(stored, pfx, p);
      if root == null {
        NothingStored(stored, routeCount, pfx, p);
        return;
      }
      RemoveKeepsCount(tree, stored, routeCount, pfx, p);
      var final := root.RemovePath(pfx, p);
      Install(root, if final then routeCount - 1 else routeCount, m);
    }

    method RemovePaths(pfx: Prefix, paths: seq<PathPtr>)
      requires Valid()
      modifies this, nodes
      ensures Valid() && nodes == old(nodes)
      ensures stored == RemovedEach(old(stored), pfx, paths)
    {
      for i := 0 to |paths|
        invariant Valid() && nodes == old(nodes)
        invariant RemovedEach(stored, pfx, paths[i..]) == RemovedEach(old(stored), pfx, paths)
      {
        assert paths[i..][1..] == paths[i + 1..];
        RemovePath(pfx, Some(paths[i]));
      }
      assert paths[|paths|..] == [];
    }

    /** The stored paths of a prefix. */
    method Get(pfx: Prefix) returns (r: Option<seq<PathPtr>>)
      requires Valid()
      ensures r.Some? <==> pfx in stored
      ensures r.Some? ==> r.value == stored[pfx]
    {
      if root == null {
        return None;
      }
      ghost var below := GetFinds(tree, [], pfx);
      var node := root.Get(pfx);
      r := if node == null then None else Some(node.paths);
    }

    /** Replaces what can be withdrawn of a prefix's paths by `p` and returns the former paths. */
    method ReplacePath(pfx: Prefix, p: Option<PathPtr>) returns (former: Option<seq<PathPtr>>)
      requires Valid() && pfx.len <= 32
      modifies this, nodes
      ensures Linked() && fresh(nodes - old(nodes))
      ensures WellFormed(pfx) ==> Valid() && stored == Replaced(old(stored), pfx, p)
      ensures former == if pfx in old(stored) then Some(old(stored)[pfx]) else None
    {
      hide Counted, Added, Replaced, RemovedEach, LengthsOk, WellFormed;
      ReplacedInSteps(stored, pfx, p);
      former := Get(pfx);
      if former.Some? {
        RemovePaths(pfx, former.value);
      }
      ValidLengths();
      AddPath(pfx, p);
    }

    /** Withdraws all paths of a prefix and returns them. */
    method RemovePfx(pfx: Prefix) returns (former: Option<seq<PathPtr>>)
      requires Valid()
      modifies this, nodes
      ensures Valid() && nodes == old(nodes)
      ensures stored == Cleared(old(stored), pfx)
      ensures former == if pfx in old(stored) then Some(old(stored)[pfx]) else None
    {
      former := Get(pfx);
      if former.Some? {
        RemovedEachOwn(stored, pfx);
        RemovePaths(pfx, former.value);
      }
    }

    /** All stored prefixes that are or contain `needle`, the longest match last. */
    method LPM(needle: Prefix) returns (res: seq<Entry>)
      requires Valid()
      ensures forall e :: e in res <==>
                e.pfx in stored && stored[e.pfx] == e.paths && Covers(e.pfx, needle)
      ensures Lengthening(res)
    {
      res := [];
      if root != null {
        res := root.Lpm(needle, res);
      }
      forall e
        ensures e in res <==> e.pfx in stored && stored[e.pfx] == e.paths && Covers(e.pfx, needle)
      {
        LpmLists(tree, [], needle, e);
      }
      LpmLengthens(tree, [], needle);
    }

    /** A stored prefix and everything stored below it; nothing for a prefix that is not stored. */
    method GetLonger(pfx: Prefix) returns (res: seq<Entry>)
      requires Valid()
      ensures pfx !in stored ==> res == []
      ensures pfx in stored ==>
                forall e :: e in res <==> e.pfx in stored && stored[e.pfx] == e.paths && Key(pfx) <= Key(e.pfx)
      ensures DistinctPrefixes(res)
    {
      res := [];
      if root == null {
        return;
      }
      hide Trie.Dump, Trie.Get, DistinctPrefixes, Key;
      ghost var below := GetFinds(tree, [], pfx);
      var node := root.Get(pfx);
      if node == null {
        return;
      }
      res := node.Dump(res);
      assert res == Trie.Dump(node.tree);
      LongerListed(tree, stored, routeCount, pfx, below);
    }

    /** Every stored prefix once, with its paths. */
    method Dump() returns (res: seq<Entry>)
      requires Valid()
      ensures forall e :: e in res <==> e.pfx in stored && stored[e.pfx] == e.paths
      ensures DistinctPrefixes(res)
      ensures |res| == routeCount
    {
      res := [];
      if root != null {
        res := root.Dump(res);
      }
      DumpIsTable(tree, stored, routeCount);
    }
  }
}
