/** The compressed trie behind a routing table, as a tree value: what each operation of
    routingtable/trie.go makes of it, and what it means as a map from prefix to paths. */
module Trie {
  import opened Options
  import opened Words
  import opened Prefixes
  import opened Paths
  import opened Routes

  datatype Tree = Nil | Node(skip: uint8, dummy: bool, pfx: Prefix, paths: seq<PathPtr>, l: Tree, h: Tree)

  datatype Entry = Entry(pfx: Prefix, paths: seq<PathPtr>)

  type Table = map<Prefix, seq<PathPtr>>

  /** A nil path adds nothing to a list. */
  function Listed(p: Option<PathPtr>): (r: seq<PathPtr>) {
    if p.None? then [] else [p.value]
  }

  function Without(paths: seq<PathPtr>, p: Option<PathPtr>): (r: seq<PathPtr>) {
    if p.None? then paths else RemoveFirst(paths, p.value.path)
  }

  // ---------------------------------------------------------------- operations

  function NewNode(pfx: Prefix, p: Option<PathPtr>, skip: uint8, dummy: bool): (r: Tree) {
    Node(skip, dummy, pfx, Listed(p), Nil, Nil)
  }

  /** The high child for a one, the low child for a zero. */
  function ChildAt(n: Tree, bit: bool): (r: Tree)
    requires n.Node?
  {
    if bit then n.h else n.l
  }

  function WithChild(n: Tree, bit: bool, child: Tree): (r: Tree)
    requires n.Node?
    ensures r.Node? && ChildAt(r, bit) == child && ChildAt(r, !bit) == ChildAt(n, !bit)
  {
    if bit then n.(h := child) else n.(l := child)
  }

  /** All lengths in the tree are IPv4 lengths. */
  predicate LengthsOk(t: Tree) {
    t.Nil? || (t.pfx.len <= 32 && LengthsOk(t.l) && LengthsOk(t.h))
  }

  function InsertBefore(n: Tree, pfx: Prefix, p: Option<PathPtr>): (r: Tree)
    requires n.Node?
    ensures r.Node?
  {
    var skip := SubU8(n.skip, SubU8(n.pfx.len, pfx.len));
    var tmp := n.(skip := SubU8(SubU8(n.pfx.len, pfx.len), 1));
    var inserted := NewNode(pfx, p, skip, false);
    WithChild(inserted, BitAtPosition(n.pfx.addr, pfx.len + 1), tmp)
  }

  /** The new prefix is written after the old node, on the same side if their bits agree. */
  function InsertChildren(n: Tree, former: Tree, newPfx: Prefix, newPath: Option<PathPtr>): (r: Tree)
    requires n.Node? && former.Node?
    ensures r.Node?
  {
    var placed := former.(skip := SubU8(SubU8(former.pfx.len, n.pfx.len), 1));
    var withFormer := WithChild(n, BitAtPosition(former.pfx.addr, n.pfx.len + 1), placed);
    var added := NewNode(newPfx, newPath, SubU8(SubU8(newPfx.len, n.pfx.len), 1), false);
    WithChild(withFormer, BitAtPosition(newPfx.addr, n.pfx.len + 1), added)
  }

  function NewSuperNode(n: Tree, pfx: Prefix, p: Option<PathPtr>): (r: Tree)
    requires n.Node? && n.pfx.len <= 32 && pfx.len <= 32
    ensures r.Node?
  {
    var superNet := GetSupernet(pfx, n.pfx);
    var skip := SubU8(n.skip, SubU8(n.pfx.len, superNet.len));
    InsertChildren(NewNode(superNet, None, skip, true), n, pfx, p)
  }

  function AddPath(n: Tree, pfx: Prefix, p: Option<PathPtr>): (r: (Tree, bool))
    requires n.Node? && LengthsOk(n) && pfx.len <= 32
    ensures r.0.Node?
  {
    if n.pfx == pfx then (n.(paths := n.paths + Listed(p), dummy := false), n.dummy)
    else if !Contains(n.pfx, pfx) then
      if Contains(pfx, n.pfx) then (InsertBefore(n, pfx, p), true)
      else (NewSuperNode(n, pfx, p), true)
    else
      var bit := BitAtPosition(pfx.addr, n.pfx.len + 1);
      var child := ChildAt(n, bit);
      if child.Nil? then (WithChild(n, bit, NewNode(pfx, p, SubU8(SubU8(pfx.len, n.pfx.len), 1), false)), true)
      else var (newRoot, isNew) := AddPath(child, pfx, p); (WithChild(n, bit, newRoot), isNew)
  }

  function RemovePath(t: Tree, pfx: Prefix, p: Option<PathPtr>): (r: (Tree, bool))
    ensures r.0.Node? <==> t.Node?
  {
    if t.Nil? then (t, false)
    else if t.pfx == pfx then
      if t.dummy then (t, false)
      else
        var left := Without(t.paths, p);
        (t.(paths := left, dummy := left == []), left == [])
    else
      var bit := BitAtPosition(pfx.addr, t.pfx.len + 1);
      var (child, final) := RemovePath(ChildAt(t, bit), pfx, p);
      (WithChild(t, bit, child), final)
  }

  function Get(t: Tree, pfx: Prefix): (r: Tree) {
    if t.Nil? then Nil
    else if t.pfx == pfx then if t.dummy then Nil else t
    else if t.pfx.len > pfx.len then Nil
    else Get(ChildAt(t, BitAtPosition(pfx.addr, t.pfx.len + 1)), pfx)
  }

  function Own(t: Tree): (r: seq<Entry>)
    requires t.Node?
  {
    if t.dummy then [] else [Entry(t.pfx, t.paths)]
  }

  function Lpm(t: Tree, needle: Prefix): (r: seq<Entry>) {
    if t.Nil? then []
    else if t.pfx == needle && !t.dummy then [Entry(t.pfx, t.paths)]
    else if !Contains(t.pfx, needle) then []
    else Own(t) + Lpm(t.l, needle) + Lpm(t.h, needle)
  }

  function Dump(t: Tree): (r: seq<Entry>) {
    if t.Nil? then [] else Own(t) + Dump(t.l) + Dump(t.h)
  }

  // ---------------------------------------------------------------- meaning

  /** The table a trie stores. */
  function Contents(t: Tree): (m: Table) {
    if t.Nil? then map[]
    else Contents(t.l) + Contents(t.h) + (if t.dummy then map[] else map[t.pfx := t.paths])
  }

  /** What is stored for `q`, anywhere in the tree. */
  function Lookup(t: Tree, q: Prefix): (r: Option<seq<PathPtr>>)
    ensures r == if q in Contents(t) then Some(Contents(t)[q]) else None
  {
    if t.Nil? then None
    else if t.pfx == q && !t.dummy then Some(t.paths)
    else if Lookup(t.h, q).Some? then Lookup(t.h, q)
    else Lookup(t.l, q)
  }

  /** The shape of a trie below the bits `above`, which end in the bit its parent chose: the
      node's prefix continues `above`, skip counts the bits in between, the low child goes
      on with a zero and the high child with a one. */
  predicate Shape(t: Tree, above: seq<bool>) {
    t.Nil? || (
      && WellFormed(t.pfx)
      && above <= Key(t.pfx)
      && t.skip == t.pfx.len - |above|
      && (t.dummy ==> t.paths == [])
      && Shape(t.l, Key(t.pfx) + [false])
      && Shape(t.h, Key(t.pfx) + [true]))
  }

  /** The bit of `q` that decides between the children of `t`. */
  function BitBelow(t: Tree, q: Prefix): (bit: bool)
    requires t.Node?
  {
    BitAtPosition(q.addr, t.pfx.len + 1)
  }

  lemma {:induction false} ShapeLengths(t: Tree, above: seq<bool>)
    requires Shape(t, above)
    ensures LengthsOk(t)
    decreases t
  {
    if t.Node? {
      ShapeLengths(t.l, Key(t.pfx) + [false]);
      ShapeLengths(t.h, Key(t.pfx) + [true]);
    }
  }

  /** Everything stored below `above` continues it. */
  lemma {:induction false} StoredBelow(t: Tree, above: seq<bool>, q: Prefix)
    requires Shape(t, above) && Lookup(t, q).Some?
    ensures WellFormed(q) && above <= Key(q)
    decreases t
  {
    if t.pfx != q || t.dummy {
      if Lookup(t.h, q).Some? {
        StoredBelow(t.h, Key(t.pfx) + [true], q);
      } else {
        StoredBelow(t.l, Key(t.pfx) + [false], q);
      }
    }
  }

  lemma BelowChild(t: Tree, above: seq<bool>, q: Prefix, bit: bool)
    requires Shape(t, above) && t.Node? && Lookup(ChildAt(t, bit), q).Some?
    ensures Key(t.pfx) < Key(q) && BitBelow(t, q) == bit
  {
    StoredBelow(ChildAt(t, bit), Key(t.pfx) + [bit], q);
    assert (Key(t.pfx) + [bit])[t.pfx.len] == Key(q)[t.pfx.len];
  }

  /** Where a prefix can be stored: in the node itself, or below the child its next bit names. */
  lemma StoredWhere(t: Tree, above: seq<bool>, q: Prefix)
    requires Shape(t, above) && t.Node?
    ensures Lookup(t, q) == if q == t.pfx then (if t.dummy then None else Some(t.paths))
                            else Lookup(ChildAt(t, BitBelow(t, q)), q)
    ensures Lookup(t, q).Some? && q != t.pfx ==> Key(t.pfx) < Key(q)
  {
    if Lookup(t.l, q).Some? {
      BelowChild(t, above, q, false);
    }
    if Lookup(t.h, q).Some? {
      BelowChild(t, above, q, true);
    }
  }

  /** Replacing one child by a well-shaped tree changes only what is stored on that side. */
  lemma ChildReplaced(t: Tree, above: seq<bool>, bit: bool, child: Tree, q: Prefix)
    requires Shape(t, above) && t.Node? && Shape(child, Key(t.pfx) + [bit])
    ensures Shape(WithChild(t, bit, child), above)
    ensures Lookup(WithChild(t, bit, child), q) ==
            if q != t.pfx && BitBelow(t, q) == bit then Lookup(child, q) else Lookup(t, q)
  {
    hide Key, BitAtPosition, WellFormed;
    var r := WithChild(t, bit, child);
    assert Shape(r, above);
    StoredWhere(t, above, q);
    StoredWhere(r, above, q);
  }

  // ---------------------------------------------------------------- adding

  /** The table after a path has been added. */
  function Added(m: Table, pfx: Prefix, p: Option<PathPtr>): (r: Table) {
    m[pfx := if pfx in m then m[pfx] + Listed(p) else Listed(p)]
  }

  /** Changing the skip of a node moves it below other bits and stores the same. */
  lemma Rebase(n: Tree, above: seq<bool>, above': seq<bool>, skip: uint8, q: Prefix)
    requires Shape(n, above) && n.Node? && above' <= Key(n.pfx) && skip == n.pfx.len - |above'|
    ensures Shape(n.(skip := skip), above') && Lookup(n.(skip := skip), q) == Lookup(n, q)
  {
  }

  lemma NextBit(p: Prefix, x: Prefix)
    requires Key(p) < Key(x)
    ensures Key(p) + [BitAtPosition(x.addr, p.len + 1)] <= Key(x)
    ensures p.len <= 32 && x.len <= 32 ==> SubU8(SubU8(x.len, p.len), 1) == x.len - p.len - 1
  {
    assert Key(x)[p.len] == BitAtPosition(x.addr, p.len + 1);
  }

  lemma NewLeaf(pfx: Prefix, p: Option<PathPtr>, parent: Prefix, q: Prefix)
    requires WellFormed(pfx) && parent.len <= 32 && Key(parent) < Key(pfx)
    ensures var leaf := NewNode(pfx, p, SubU8(SubU8(pfx.len, parent.len), 1), false);
            && Shape(leaf, Key(parent) + [BitAtPosition(pfx.addr, parent.len + 1)])
            && Lookup(leaf, q) == if q == pfx then Some(Listed(p)) else None
  {
    hide BitAtPosition, SubU8;
    NextBit(parent, pfx);
    var leaf := NewNode(pfx, p, SubU8(SubU8(pfx.len, parent.len), 1), false);
    var above := Key(parent) + [BitAtPosition(pfx.addr, parent.len + 1)];
    assert leaf.skip == pfx.len - |above|;
    assert Shape(Nil, Key(pfx) + [false]) && Shape(Nil, Key(pfx) + [true]);
  }

  function Appended(paths: Option<seq<PathPtr>>, p: Option<PathPtr>): (r: Option<seq<PathPtr>>) {
    if paths.Some? then Some(paths.value + Listed(p)) else Some(Listed(p))
  }

  /** `r` is `n` with one more path, seen at the prefix `q`. */
  ghost predicate AddsTo(n: Tree, above: seq<bool>, pfx: Prefix, p: Option<PathPtr>, r: (Tree, bool), q: Prefix) {
    && Shape(r.0, above)
    && r.1 == Lookup(n, pfx).None?
    && Lookup(r.0, q) == if q == pfx then Appended(Lookup(n, pfx), p) else Lookup(n, q)
  }

  lemma InsertBeforeStores(n: Tree, above: seq<bool>, pfx: Prefix, p: Option<PathPtr>, q: Prefix)
    requires Shape(n, above) && n.Node? && WellFormed(pfx) && above <= Key(pfx) && Contains(pfx, n.pfx)
    ensures AddsTo(n, above, pfx, p, (InsertBefore(n, pfx, p), true), q)
  {
    ContainsIffStrictPrefix(pfx, n.pfx);
    NextBit(pfx, n.pfx);
    Rebase(n, above, Key(pfx) + [BitAtPosition(n.pfx.addr, pfx.len + 1)], n.pfx.len - pfx.len - 1, q);
    StoredWhere(n, above, pfx);
    var r := InsertBefore(n, pfx, p);
    assert SubU8(n.skip, SubU8(n.pfx.len, pfx.len)) == pfx.len - |above|;
    assert Shape(r, above);
    assert Lookup(r, q) == if q == pfx then Some(Listed(p)) else Lookup(n, q);
  }

  lemma InsertChildrenStores(s: Prefix, skip: uint8, above: seq<bool>, n: Tree, nAbove: seq<bool>,
                             pfx: Prefix, p: Option<PathPtr>, q: Prefix)
    requires WellFormed(s) && above <= Key(s) && skip == s.len - |above|
    requires Shape(n, nAbove) && n.Node? && Lookup(n, pfx) == None
    requires Key(s) < Key(n.pfx) && Key(s) < Key(pfx) && WellFormed(pfx)
    requires BitAtPosition(n.pfx.addr, s.len + 1) != BitAtPosition(pfx.addr, s.len + 1)
    ensures var r := InsertChildren(NewNode(s, None, skip, true), n, pfx, p);
            && Shape(r, above)
            && Lookup(r, q) == if q == pfx then Some(Listed(p)) else Lookup(n, q)
  {
    hide Key, BitAtPosition, Prefixes.Valid, Contents;
    NextBit(s, n.pfx);
    Rebase(n, nAbove, Key(s) + [BitAtPosition(n.pfx.addr, s.len + 1)], n.pfx.len - s.len - 1, q);
    NewLeaf(pfx, p, s, q);
  }

  lemma NotStoredBeside(n: Tree, above: seq<bool>, pfx: Prefix)
    requires Shape(n, above) && n.Node? && n.pfx != pfx && !Contains(n.pfx, pfx)
    ensures Lookup(n, pfx) == None
  {
    StoredWhere(n, above, pfx);
    ContainsIffStrictPrefix(n.pfx, pfx);
  }

  lemma AboveCommon(s: seq<bool>, t: seq<bool>, c: seq<bool>, above: seq<bool>)
    requires above <= s && above <= t && c < s && c < t && s[|c|] != t[|c|]
    ensures above <= c
  {
    assert above == s[..|above|] && above == t[..|above|];
  }

  lemma SupernetAbove(p: Prefix, x: Prefix, above: seq<bool>)
    requires WellFormed(p) && WellFormed(x) && above <= Key(p) && above <= Key(x)
    requires p != x && !Contains(p, x) && !Contains(x, p)
    ensures above <= Key(GetSupernet(x, p))
  {
    SupernetSeparates(x, p);
    AboveCommon(Key(p), Key(x), Key(SupernetOf(x, p)), above);
  }

  /** The pseudo node above two diverging prefixes, with the skip the code computes for it. */
  lemma SuperNodePlace(n: Tree, above: seq<bool>, pfx: Prefix)
    requires Shape(n, above) && n.Node? && WellFormed(pfx) && above <= Key(pfx)
    requires n.pfx != pfx && !Contains(pfx, n.pfx) && !Contains(n.pfx, pfx)
    ensures var s := GetSupernet(pfx, n.pfx);
            && WellFormed(s) && above <= Key(s) && Key(s) < Key(n.pfx) && Key(s) < Key(pfx)
            && BitAtPosition(n.pfx.addr, s.len + 1) != BitAtPosition(pfx.addr, s.len + 1)
            && SubU8(n.skip, SubU8(n.pfx.len, s.len)) == s.len - |above|
  {
    SupernetSeparates(pfx, n.pfx);
    SupernetAbove(n.pfx, pfx, above);
  }

  lemma NewSuperNodeStores(n: Tree, above: seq<bool>, pfx: Prefix, p: Option<PathPtr>, q: Prefix)
    requires Shape(n, above) && n.Node? && WellFormed(pfx) && above <= Key(pfx)
    requires n.pfx != pfx && !Contains(pfx, n.pfx) && !Contains(n.pfx, pfx)
    ensures AddsTo(n, above, pfx, p, (NewSuperNode(n, pfx, p), true), q)
  {
    SuperNodePlace(n, above, pfx);
    NotStoredBeside(n, above, pfx);
    var s := GetSupernet(pfx, n.pfx);
    InsertChildrenStores(s, s.len - |above|, above, n, above, pfx, p, q);
  }

  lemma AddHereStores(n: Tree, above: seq<bool>, pfx: Prefix, p: Option<PathPtr>, q: Prefix)
    requires Shape(n, above) && n.Node? && n.pfx == pfx
    ensures AddsTo(n, above, pfx, p, (n.(paths := n.paths + Listed(p), dummy := false), n.dummy), q)
  {
    var r := n.(paths := n.paths + Listed(p), dummy := false);
    assert n.dummy ==> r.paths == Listed(p);
    assert Shape(r, above);
    StoredWhere(n, above, q);
    StoredWhere(n, above, pfx);
    StoredWhere(r, above, q);
  }

  lemma AddLeafStores(n: Tree, above: seq<bool>, pfx: Prefix, p: Option<PathPtr>, q: Prefix)
    requires Shape(n, above) && n.Node? && WellFormed(pfx) && Key(n.pfx) < Key(pfx)
    requires ChildAt(n, BitBelow(n, pfx)).Nil?
    ensures AddsTo(n, above, pfx, p,
                   (WithChild(n, BitBelow(n, pfx), NewNode(pfx, p, SubU8(SubU8(pfx.len, n.pfx.len), 1), false)), true), q)
  {
    NewLeaf(pfx, p, n.pfx, q);
    StoredWhere(n, above, q);
    StoredWhere(n, above, pfx);
    ChildReplaced(n, above, BitBelow(n, pfx), NewNode(pfx, p, SubU8(SubU8(pfx.len, n.pfx.len), 1), false), q);
  }

  lemma AddBelowStores(n: Tree, above: seq<bool>, pfx: Prefix, p: Option<PathPtr>, r: (Tree, bool), q: Prefix)
    requires Shape(n, above) && n.Node? && Key(n.pfx) < Key(pfx)
    requires AddsTo(ChildAt(n, BitBelow(n, pfx)), Key(n.pfx) + [BitBelow(n, pfx)], pfx, p, r, q)
    ensures AddsTo(n, above, pfx, p, (WithChild(n, BitBelow(n, pfx), r.0), r.1), q)
  {
    assert n.pfx.len < pfx.len;
    StoredWhere(n, above, q);
    StoredWhere(n, above, pfx);
    ChildReplaced(n, above, BitBelow(n, pfx), r.0, q);
  }

  /** Adding a path keeps the shape, appends the path to its prefix's list, leaves every other
      prefix alone, and reports whether the prefix is new. */
  lemma {:induction false} AddPathStores(n: Tree, above: seq<bool>, pfx: Prefix, p: Option<PathPtr>, q: Prefix)
    requires Shape(n, above) && n.Node? && WellFormed(pfx) && above <= Key(pfx)
    requires LengthsOk(n)
    ensures AddsTo(n, above, pfx, p, AddPath(n, pfx, p), q)
    decreases n
  {
    ContainsIffStrictPrefix(n.pfx, pfx);
    if n.pfx == pfx {
      AddHereStores(n, above, pfx, p, q);
    } else if !Contains(n.pfx, pfx) {
      if Contains(pfx, n.pfx) {
        InsertBeforeStores(n, above, pfx, p, q);
      } else {
        NewSuperNodeStores(n, above, pfx, p, q);
      }
    } else if ChildAt(n, BitBelow(n, pfx)).Nil? {
      AddLeafStores(n, above, pfx, p, q);
    } else {
      NextBit(n.pfx, pfx);
      var child := ChildAt(n, BitBelow(n, pfx));
      AddPathStores(child, Key(n.pfx) + [BitBelow(n, pfx)], pfx, p, q);
      AddBelowStores(n, above, pfx, p, AddPath(child, pfx, p), q);
    }
  }

  // ---------------------------------------------------------------- removing

  /** The table after a path has been removed; a prefix whose list runs empty is gone. */
  function Removed(m: Table, pfx: Prefix, p: Option<PathPtr>): (r: Table) {
    if pfx !in m then m
    else if Without(m[pfx], p) == [] then m - {pfx}
    else m[pfx := Without(m[pfx], p)]
  }

  function Shortened(paths: Option<seq<PathPtr>>, p: Option<PathPtr>): (r: Option<seq<PathPtr>>) {
    if paths.None? || Without(paths.value, p) == [] then None else Some(Without(paths.value, p))
  }

  ghost predicate RemovesFrom(t: Tree, above: seq<bool>, pfx: Prefix, p: Option<PathPtr>, r: (Tree, bool), q: Prefix) {
    && Shape(r.0, above)
    && r.1 == (Lookup(t, pfx).Some? && Shortened(Lookup(t, pfx), p).None?)
    && Lookup(r.0, q) == if q == pfx then Shortened(Lookup(t, pfx), p) else Lookup(t, q)
  }

  lemma RemoveHereStores(t: Tree, above: seq<bool>, pfx: Prefix, p: Option<PathPtr>, q: Prefix)
    requires Shape(t, above) && t.Node? && t.pfx == pfx
    ensures RemovesFrom(t, above, pfx, p, RemovePath(t, pfx, p), q)
  {
    var r := RemovePath(t, pfx, p).0;
    assert Shape(r, above);
    StoredWhere(t, above, pfx);
    StoredWhere(t, above, q);
    StoredWhere(r, above, q);
  }

  lemma RemoveBelowStores(t: Tree, above: seq<bool>, pfx: Prefix, p: Option<PathPtr>, r: (Tree, bool), q: Prefix)
    requires Shape(t, above) && t.Node? && t.pfx != pfx
    requires RemovesFrom(ChildAt(t, BitBelow(t, pfx)), Key(t.pfx) + [BitBelow(t, pfx)], pfx, p, r, q)
    ensures RemovesFrom(t, above, pfx, p, (WithChild(t, BitBelow(t, pfx), r.0), r.1), q)
  {
    StoredWhere(t, above, pfx);
    StoredWhere(t, above, q);
    ChildReplaced(t, above, BitBelow(t, pfx), r.0, q);
  }

  /** Removing a path keeps the shape, shortens its prefix's list, leaves every other prefix
      alone, and reports whether the prefix is gone; unknown prefixes change nothing. */
  lemma {:induction false} RemovePathStores(t: Tree, above: seq<bool>, pfx: Prefix, p: Option<PathPtr>, q: Prefix)
    requires Shape(t, above)
    ensures RemovesFrom(t, above, pfx, p, RemovePath(t, pfx, p), q)
    decreases t
  {
    if t.Node? {
      if t.pfx == pfx {
        RemoveHereStores(t, above, pfx, p, q);
      } else {
        var child := ChildAt(t, BitBelow(t, pfx));
        RemovePathStores(child, Key(t.pfx) + [BitBelow(t, pfx)], pfx, p, q);
        RemoveBelowStores(t, above, pfx, p, RemovePath(child, pfx, p), q);
      }
    }
  }

  // ---------------------------------------------------------------- reading

  lemma LongerBit(p: Prefix, x: Prefix, y: Prefix)
    requires Key(p) < Key(x) && Key(x) <= Key(y)
    ensures Key(p) < Key(y) && BitAtPosition(x.addr, p.len + 1) == BitAtPosition(y.addr, p.len + 1)
  {
    assert Key(x)[p.len] == Key(y)[p.len];
  }

  /** Get finds the node of a stored prefix, which stands below some bits of it. */
  lemma {:induction false} GetFinds(t: Tree, above: seq<bool>, pfx: Prefix) returns (below: seq<bool>)
    requires Shape(t, above)
    ensures Get(t, pfx).Node? <==> Lookup(t, pfx).Some?
    ensures Get(t, pfx).Node? ==>
              && Shape(Get(t, pfx), below)
              && Get(t, pfx).pfx == pfx && !Get(t, pfx).dummy
              && Lookup(t, pfx) == Some(Get(t, pfx).paths)
    decreases t
  {
    below := above;
    if t.Node? {
      StoredWhere(t, above, pfx);
      if t.pfx != pfx && t.pfx.len <= pfx.len {
        below := GetFinds(ChildAt(t, BitBelow(t, pfx)), Key(t.pfx) + [BitBelow(t, pfx)], pfx);
      }
    }
  }

  /** Seen from a prefix stored below `t`, the prefixes it covers are stored on the same side. */
  lemma CoveredOnSameSide(t: Tree, above: seq<bool>, pfx: Prefix, q: Prefix)
    requires Shape(t, above) && t.Node? && Lookup(t, pfx).Some? && t.pfx != pfx
    ensures t.pfx.len < pfx.len
    ensures Lookup(ChildAt(t, BitBelow(t, pfx)), pfx) == Lookup(t, pfx)
    ensures Key(pfx) <= Key(q) ==> Lookup(ChildAt(t, BitBelow(t, pfx)), q) == Lookup(t, q)
  {
    StoredWhere(t, above, pfx);
    if Key(pfx) <= Key(q) {
      StoredWhere(t, above, q);
      LongerBit(t.pfx, pfx, q);
    }
  }

  /** Below the node of a stored prefix are exactly the stored prefixes it covers. */
  lemma {:induction false} GetCovers(t: Tree, above: seq<bool>, pfx: Prefix, q: Prefix)
    requires Shape(t, above) && Lookup(t, pfx).Some?
    ensures Lookup(Get(t, pfx), q) == if Key(pfx) <= Key(q) then Lookup(t, q) else None
    decreases t
  {
    if t.pfx == pfx {
      StoredWhere(t, above, pfx);
      StoredWhere(t, above, q);
    } else {
      CoveredOnSameSide(t, above, pfx, q);
      GetCovers(ChildAt(t, BitBelow(t, pfx)), Key(t.pfx) + [BitBelow(t, pfx)], pfx, q);
    }
  }

  predicate Covers(q: Prefix, needle: Prefix) {
    q == needle || Contains(q, needle)
  }

  lemma CoversIsPrefix(q: Prefix, needle: Prefix)
    requires WellFormed(q)
    ensures Covers(q, needle) ==> Key(q) <= Key(needle)
    ensures Contains(q, needle) <==> Key(q) < Key(needle)
  {
    ContainsIffStrictPrefix(q, needle);
  }

  /** A node whose prefix does not contain the needle has no match below it. */
  lemma NoMatchBelow(t: Tree, above: seq<bool>, needle: Prefix, q: Prefix)
    requires Shape(t, above) && t.Node? && Lookup(t, q).Some? && q != t.pfx && Covers(q, needle)
    ensures Contains(t.pfx, needle) && t.pfx != needle
  {
    StoredWhere(t, above, q);
    StoredBelow(t, above, q);
    CoversIsPrefix(q, needle);
    CoversIsPrefix(t.pfx, needle);
  }

  lemma StoredOnOneSide(t: Tree, above: seq<bool>, q: Prefix)
    requires Shape(t, above) && t.Node?
    ensures Lookup(t.l, q).Some? ==> q != t.pfx && !BitBelow(t, q)
    ensures Lookup(t.h, q).Some? ==> q != t.pfx && BitBelow(t, q)
  {
    if Lookup(t.l, q).Some? {
      BelowChild(t, above, q, false);
    }
    if Lookup(t.h, q).Some? {
      BelowChild(t, above, q, true);
    }
  }

  /** LPM lists exactly the stored prefixes that are or contain the needle. */
  lemma {:induction false} LpmLists(t: Tree, above: seq<bool>, needle: Prefix, e: Entry)
    requires Shape(t, above)
    ensures e in Lpm(t, needle) <==> Lookup(t, e.pfx) == Some(e.paths) && Covers(e.pfx, needle)
    decreases t
  {
    if t.Node? {
      StoredWhere(t, above, e.pfx);
      if Lookup(t, e.pfx).Some? && e.pfx != t.pfx && Covers(e.pfx, needle) {
        NoMatchBelow(t, above, needle, e.pfx);
      }
      if !(t.pfx == needle && !t.dummy) && Contains(t.pfx, needle) {
        LpmLists(t.l, Key(t.pfx) + [false], needle, e);
        LpmLists(t.h, Key(t.pfx) + [true], needle, e);
        StoredOnOneSide(t, above, e.pfx);
        assert e in Lpm(t, needle) <==> e in Own(t) || e in Lpm(t.l, needle) || e in Lpm(t.h, needle);
      }
    }
  }

  /** The child the needle's next bit does not name contributes nothing. */
  lemma LpmOneSide(t: Tree, above: seq<bool>, needle: Prefix)
    requires Shape(t, above) && t.Node?
    ensures Lpm(ChildAt(t, !BitBelow(t, needle)), needle) == []
  {
    var bit := !BitBelow(t, needle);
    var found := Lpm(ChildAt(t, bit), needle);
    if found != [] {
      var e := found[0];
      LpmLists(ChildAt(t, bit), Key(t.pfx) + [bit], needle, e);
      StoredBelow(ChildAt(t, bit), Key(t.pfx) + [bit], e.pfx);
      CoversIsPrefix(e.pfx, needle);
      BelowChild(t, above, e.pfx, bit);
      LongerBit(t.pfx, e.pfx, needle);
    }
  }

  ghost predicate Lengthening(s: seq<Entry>) {
    forall i, j :: 0 <= i < j < |s| ==> s[i].pfx.len < s[j].pfx.len
  }

  /** LPM lists the matches from the shortest to the longest. */
  lemma {:induction false} LpmLengthens(t: Tree, above: seq<bool>, needle: Prefix)
    requires Shape(t, above)
    ensures Lengthening(Lpm(t, needle))
    decreases t
  {
    if t.Node? {
      LpmOneSide(t, above, needle);
      var bit := BitBelow(t, needle);
      var child := ChildAt(t, bit);
      LpmLengthens(child, Key(t.pfx) + [bit], needle);
      assert Own(t) + Lpm(t.l, needle) + Lpm(t.h, needle) == Own(t) + Lpm(child, needle);
      forall i | 0 <= i < |Lpm(child, needle)|
        ensures t.pfx.len < Lpm(child, needle)[i].pfx.len
      {
        var e := Lpm(child, needle)[i];
        LpmLists(child, Key(t.pfx) + [bit], needle, e);
        StoredBelow(child, Key(t.pfx) + [bit], e.pfx);
      }
    }
  }

  /** Dump lists exactly what is stored. */
  lemma {:induction false} DumpLists(t: Tree, above: seq<bool>, e: Entry)
    requires Shape(t, above)
    ensures e in Dump(t) <==> Lookup(t, e.pfx) == Some(e.paths)
    decreases t
  {
    if t.Node? {
      StoredWhere(t, above, e.pfx);
      DumpLists(t.l, Key(t.pfx) + [false], e);
      DumpLists(t.h, Key(t.pfx) + [true], e);
      StoredOnOneSide(t, above, e.pfx);
    }
  }

  ghost predicate DistinctPrefixes(s: seq<Entry>) {
    forall i, j :: 0 <= i < j < |s| ==> s[i].pfx != s[j].pfx
  }

  lemma DistinctTogether(s: seq<Entry>, t: seq<Entry>)
    requires DistinctPrefixes(s) && DistinctPrefixes(t)
    requires forall x, y :: x in s && y in t ==> x.pfx != y.pfx
    ensures DistinctPrefixes(s + t)
  {
  }

  /** Dump lists no prefix twice. */
  lemma {:induction false} DumpDistinct(t: Tree, above: seq<bool>)
    requires Shape(t, above)
    ensures DistinctPrefixes(Dump(t))
    decreases t
  {
    if t.Node? {
      DumpDistinct(t.l, Key(t.pfx) + [false]);
      DumpDistinct(t.h, Key(t.pfx) + [true]);
      forall x | x in Dump(t.l)
        ensures x.pfx != t.pfx && !BitBelow(t, x.pfx)
      {
        DumpLists(t.l, Key(t.pfx) + [false], x);
        BelowChild(t, above, x.pfx, false);
      }
      forall x | x in Dump(t.h)
        ensures x.pfx != t.pfx && BitBelow(t, x.pfx)
      {
        DumpLists(t.h, Key(t.pfx) + [true], x);
        BelowChild(t, above, x.pfx, true);
      }
      DistinctTogether(Own(t), Dump(t.l));
      DistinctTogether(Own(t) + Dump(t.l), Dump(t.h));
    }
  }

  function PrefixSet(s: seq<Entry>): (r: set<Prefix>) {
    set e | e in s :: e.pfx
  }

  /** A list without repetitions names as many prefixes as it has entries. */
  lemma {:induction false} DistinctCount(s: seq<Entry>)
    requires DistinctPrefixes(s)
    ensures |PrefixSet(s)| == |s|
    decreases |s|
  {
    if s != [] {
      var n := |s| - 1;
      DistinctCount(s[..n]);
      assert s == s[..n] + [s[n]];
      assert PrefixSet(s) == PrefixSet(s[..n]) + {s[n].pfx};
      assert s[n].pfx !in PrefixSet(s[..n]);
    }
  }

  // ---------------------------------------------------------------- tables

  /** A tree whose lookups agree with a table stores that table. */
  lemma StoresTable(t: Tree, m: Table)
    requires forall q :: Lookup(t, q) == if q in m then Some(m[q]) else None
    ensures Contents(t) == m
  {
    forall q
      ensures q in Contents(t) <==> q in m
      ensures q in m ==> Contents(t)[q] == m[q]
    {
      assert Lookup(t, q) == if q in m then Some(m[q]) else None;
    }
  }

  lemma AddsTable(n: Tree, pfx: Prefix, p: Option<PathPtr>, r: (Tree, bool))
    requires forall q :: AddsTo(n, [], pfx, p, r, q)
    ensures Contents(r.0) == Added(Contents(n), pfx, p) && r.1 == (pfx !in Contents(n))
  {
    assert AddsTo(n, [], pfx, p, r, pfx);
    forall q
      ensures Lookup(r.0, q) == if q in Added(Contents(n), pfx, p) then Some(Added(Contents(n), pfx, p)[q]) else None
    {
      assert AddsTo(n, [], pfx, p, r, q);
    }
    StoresTable(r.0, Added(Contents(n), pfx, p));
  }

  lemma RemovesTable(t: Tree, pfx: Prefix, p: Option<PathPtr>, r: (Tree, bool))
    requires forall q :: RemovesFrom(t, [], pfx, p, r, q)
    ensures Contents(r.0) == Removed(Contents(t), pfx, p)
    ensures r.1 == (pfx in Contents(t) && pfx !in Removed(Contents(t), pfx, p))
  {
    assert RemovesFrom(t, [], pfx, p, r, pfx);
    forall q
      ensures Lookup(r.0, q) ==
              if q in Removed(Contents(t), pfx, p) then Some(Removed(Contents(t), pfx, p)[q]) else None
    {
      assert RemovesFrom(t, [], pfx, p, r, q);
    }
    StoresTable(r.0, Removed(Contents(t), pfx, p));
  }

  /** Adding a path is adding it to the table. */
  lemma AddPathTable(n: Tree, pfx: Prefix, p: Option<PathPtr>)
    requires Shape(n, []) && n.Node? && WellFormed(pfx) && LengthsOk(n)
    ensures Shape(AddPath(n, pfx, p).0, [])
    ensures Contents(AddPath(n, pfx, p).0) == Added(Contents(n), pfx, p)
    ensures AddPath(n, pfx, p).1 == (pfx !in Contents(n))
  {
    AddPathStores(n, [], pfx, p, pfx);
    forall q
      ensures AddsTo(n, [], pfx, p, AddPath(n, pfx, p), q)
    {
      AddPathStores(n, [], pfx, p, q);
    }
    AddsTable(n, pfx, p, AddPath(n, pfx, p));
  }

  /** Removing a path is removing it from the table. */
  lemma RemovePathTable(t: Tree, pfx: Prefix, p: Option<PathPtr>)
    requires Shape(t, [])
    ensures Shape(RemovePath(t, pfx, p).0, [])
    ensures Contents(RemovePath(t, pfx, p).0) == Removed(Contents(t), pfx, p)
    ensures RemovePath(t, pfx, p).1 == (pfx in Contents(t) && pfx !in Removed(Contents(t), pfx, p))
  {
    RemovePathStores(t, [], pfx, p, pfx);
    forall q
      ensures RemovesFrom(t, [], pfx, p, RemovePath(t, pfx, p), q)
    {
      RemovePathStores(t, [], pfx, p, q);
    }
    RemovesTable(t, pfx, p, RemovePath(t, pfx, p));
  }

  /** The table after paths have been removed one by one. */
  function RemovedEach(m: Table, pfx: Prefix, gone: seq<PathPtr>): (r: Table)
    decreases |gone|
  {
    if gone == [] then m else RemovedEach(Removed(m, pfx, Some(gone[0])), pfx, gone[1..])
  }

  lemma {:induction false} EmptyStaysEmpty(gone: seq<PathPtr>)
    ensures RemoveEach([], gone) == []
    decreases |gone|
  {
    if gone != [] {
      EmptyStaysEmpty(gone[1..]);
    }
  }

  lemma {:induction false} RemovedEachList(m: Table, pfx: Prefix, gone: seq<PathPtr>)
    ensures RemovedEach(m, pfx, gone) ==
            if gone == [] || pfx !in m then m
            else if RemoveEach(m[pfx], gone) == [] then m - {pfx}
            else m[pfx := RemoveEach(m[pfx], gone)]
    decreases |gone|
  {
    if gone != [] {
      var m' := Removed(m, pfx, Some(gone[0]));
      RemovedEachList(m', pfx, gone[1..]);
      if pfx in m {
        EmptyStaysEmpty(gone[1..]);
        if pfx in m' {
          assert m' - {pfx} == m - {pfx};
        }
      }
    }
  }

  /** The table after all paths of a prefix have been withdrawn: those that are neither BGP nor
      static stay behind, and so does a prefix that had no path to begin with. */
  function Cleared(m: Table, pfx: Prefix): (r: Table) {
    if pfx !in m || m[pfx] == [] then m
    else if Unremovable(m[pfx]) == [] then m - {pfx}
    else m[pfx := Unremovable(m[pfx])]
  }

  lemma RemovedEachOwn(m: Table, pfx: Prefix)
    requires pfx in m
    ensures RemovedEach(m, pfx, m[pfx]) == Cleared(m, pfx)
  {
    RemovedEachList(m, pfx, m[pfx]);
    RemoveEachOwn(m[pfx]);
  }

  /** The table after a replacement: the new path follows what could not be withdrawn. */
  function Replaced(m: Table, pfx: Prefix, p: Option<PathPtr>): (r: Table) {
    m[pfx := (if pfx in m then Unremovable(m[pfx]) else []) + Listed(p)]
  }

  lemma ClearedThenAdded(m: Table, pfx: Prefix, p: Option<PathPtr>)
    ensures Added(Cleared(m, pfx), pfx, p) == Replaced(m, pfx, p)
  {
    assert [] + Listed(p) == Listed(p);
  }

  /** A replacement leaves exactly the new path if and only if every former path was BGP or static. */
  lemma ReplacesAllIff(m: Table, pfx: Prefix, p: PathPtr)
    requires pfx in m
    ensures Replaced(m, pfx, Some(p))[pfx] == [p] <==> forall i :: 0 <= i < |m[pfx]| ==> Removable(m[pfx][i])
  {
    UnremovableEmptyIff(m[pfx]);
    var u := Unremovable(m[pfx]);
    assert |u + [p]| == |u| + 1;
  }

  lemma TableCount(m: Table, pfx: Prefix, p: Option<PathPtr>)
    ensures |Added(m, pfx, p)| == |m| + (if pfx in m then 0 else 1)
    ensures |Removed(m, pfx, p)| == |m| - (if pfx in m && pfx !in Removed(m, pfx, p) then 1 else 0)
  {
    assert Added(m, pfx, p).Keys == m.Keys + {pfx};
    if pfx in m && Without(m[pfx], p) == [] {
      assert m.Keys == (m - {pfx}).Keys + {pfx};
    } else {
      assert Removed(m, pfx, p).Keys == m.Keys;
    }
  }

  // ---------------------------------------------------------------- host bits

  /** The supernet of two prefixes with the same bits does not tell them apart. */
  lemma OnSameSide(p: Prefix, q: Prefix)
    requires p.len == q.len <= 32 && Key(p) == Key(q)
    ensures var s := GetSupernet(q, p);
            s.len != p.len && BitAtPosition(p.addr, s.len + 1) == BitAtPosition(q.addr, s.len + 1)
  {
    if p.len > 0 {
      var n := p.len - 1;
      CommonPrefixLongest(Key(q)[..n], Key(p)[..n], Key(p)[..n]);
      assert Key(p)[n] == Key(q)[n];
      hide BaseAddr;
    }
  }

  /** Of two prefixes that differ in host bits only, the node of the first is overwritten when the
      second is added. */
  lemma FirstIsLost(p: Prefix, q: Prefix, a: Option<PathPtr>, b: Option<PathPtr>)
    requires p.len == q.len <= 32 && Key(p) == Key(q) && p != q
    ensures Lookup(AddPath(NewNode(p, a, p.len, false), q, b).0, p).None?
  {
    OnSameSide(p, q);
    hide BitAtPosition, GetSupernet, SubU8, Key;
    assert AddPath(NewNode(p, a, p.len, false), q, b).0 == NewSuperNode(NewNode(p, a, p.len, false), q, b);
  }

  /** A prefix with host bits and its base address. */
  lemma BaseDiffers(p: Prefix)
    requires p.len <= 32 && !WellFormed(p)
    ensures var q := Prefix(BaseAddr(p), p.len); WellFormed(q) && q != p && Key(q) == Key(p)
  {
    BaseAddrKeepsKey(p);
    ValidIffBase(p);
  }

  lemma LeafShape(p: Prefix, a: Option<PathPtr>)
    requires WellFormed(p)
    ensures Shape(NewNode(p, a, p.len, false), [])
  {
    assert [] <= Key(p);
    assert Shape(Nil, Key(p) + [false]) && Shape(Nil, Key(p) + [true]);
  }

  /** A prefix stays stored whatever well-formed prefix is added after it exactly if it has no host
      bits itself. */
  lemma StaysStoredIff(p: Prefix, a: Option<PathPtr>, b: Option<PathPtr>)
    requires p.len <= 32
    ensures (forall q :: WellFormed(q) ==> Lookup(AddPath(NewNode(p, a, p.len, false), q, b).0, p).Some?)
            <==> WellFormed(p)
  {
    var n := NewNode(p, a, p.len, false);
    if WellFormed(p) {
      forall q | WellFormed(q)
        ensures Lookup(AddPath(n, q, b).0, p).Some?
      {
        LeafShape(p, a);
        assert [] <= Key(q);
        AddPathStores(n, [], q, b, p);
      }
    } else {
      BaseDiffers(p);
      FirstIsLost(p, Prefix(BaseAddr(p), p.len), a, b);
    }
  }

  /** The trie after an addition stores the table after that addition. */
  ghost predicate AddsRight(t: Tree, q: Prefix, b: Option<PathPtr>)
    requires q.len <= 32 && t.Node? && LengthsOk(t)
  {
    Contents(AddPath(t, q, b).0) == Added(Contents(t), q, b)
  }

  /** Adding a prefix is adding it to the table, for every table, exactly if it has no host bits. */
  lemma AddsRightIff(q: Prefix, b: Option<PathPtr>)
    requires q.len <= 32
    ensures (forall t: Tree :: t.Node? && LengthsOk(t) && Shape(t, []) ==> AddsRight(t, q, b)) <==> WellFormed(q)
  {
    if WellFormed(q) {
      forall t: Tree | t.Node? && LengthsOk(t) && Shape(t, [])
        ensures AddsRight(t, q, b)
      {
        AddPathTable(t, q, b);
      }
    } else {
      var base := Prefix(BaseAddr(q), q.len);
      var t := NewNode(base, None, base.len, false);
      BaseDiffers(q);
      FirstIsLost(base, q, None, b);
      LeafShape(base, None);
      assert Lookup(t, base).Some?;
      assert !AddsRight(t, q, b);
    }
  }
}
