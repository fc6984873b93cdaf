/**
 * The B+tree over the page store, seen as a sequence of pages, with page 0 the
 * root.  Internal nodes never split, so every tree the engine builds is a root
 * leaf or an internal root whose children are leaves; ValidTree is the
 * invariant of such trees and Entries is what a full scan yields.  The lemmas
 * say that each way an insertion can go keeps the invariant and inserts the
 * new cell into Entries at its sorted position.
 */
module Tree {
  import opened Node
  import opened Runs

  /** The children of an internal node, left to right, the right child last. */
  function Kids(n: Node): (ks: seq<nat>)
    requires n.Internal? && n.numKeys <= |n.children|
    ensures |ks| == n.numKeys + 1 && forall i :: 0 <= i <= n.numKeys ==> ks[i] == ChildAt(n, i)
  {
    seq(n.numKeys + 1, i requires 0 <= i <= n.numKeys => ChildAt(n, i))
  }

  ghost predicate RootShaped(pages: seq<Node>) {
    |pages| > 0 && (pages[0].Internal? ==> pages[0].numKeys <= |pages[0].children|)
  }

  /** The leaf pages in key order: the root alone, or the root's children. */
  function LeafPages(pages: seq<Node>): (lp: seq<nat>)
    requires RootShaped(pages)
    ensures |lp| > 0
  {
    if pages[0].Leaf? then [0] else Kids(pages[0])
  }

  ghost predicate AreLeaves(pages: seq<Node>, lp: seq<nat>) {
    forall i :: 0 <= i < |lp| ==> lp[i] < |pages| && pages[lp[i]].Leaf?
  }

  /** The cells of the given leaf pages, one run per leaf. */
  ghost function Leaves(pages: seq<Node>, lp: seq<nat>): (ls: seq<seq<Cell>>)
    requires AreLeaves(pages, lp)
    ensures |ls| == |lp| && forall i :: 0 <= i < |lp| ==> ls[i] == pages[lp[i]].cells
  {
    seq(|lp|, i requires 0 <= i < |lp| && AreLeaves(pages, lp) => pages[lp[i]].cells)
  }

  /** Node n has a last key, as get_node_max_key needs. */
  ghost predicate HasMaxKey(n: Node) {
    (n.Leaf? ==> n.cells != []) && (n.Internal? ==> 0 < n.numKeys <= |n.children|)
  }

  /**
   * The invariant between operations, for a store whose first `numPages` pages
   * are in use: the root is at page 0 and carries the root flag; the leaves
   * are distinct pages in use, at most full, chained left to right by their
   * next-leaf numbers with 0 after the last, and their runs are ordered.  An
   * internal root holds between 1 and the key limit of keys, its children are
   * non-root leaves whose parent is page 0, and separator i is the largest
   * key of child i.
   */
  ghost predicate ValidTree(cfg: Config, pages: seq<Node>, numPages: nat) {
    && cfg.Valid()
    && RootShaped(pages)
    && pages[0].isRoot
    && 0 < numPages
    && var lp := LeafPages(pages);
    && AreLeaves(pages, lp)
    && LeafChain(cfg, pages, lp, numPages)
    && OrderedRuns(Leaves(pages, lp))
    && (pages[0].Internal? ==> InternalRootValid(cfg, pages))
  }

  /**
   * The leaf pages are distinct pages in use, at most full, each pointing to
   * the next with 0 after the last.
   */
  ghost predicate LeafChain(cfg: Config, pages: seq<Node>, lp: seq<nat>, numPages: nat)
    requires AreLeaves(pages, lp) && |lp| > 0
  {
    && (forall i :: 0 <= i < |lp| ==> lp[i] < numPages && |pages[lp[i]].cells| <= cfg.leafMaxCells)
    && (forall i, k :: 0 <= i < k < |lp| ==> Apart(lp, i, k))
    && (forall i :: 0 <= i < |lp| - 1 ==> Linked(pages, lp, i))
    && pages[lp[|lp| - 1]].nextLeaf == 0
  }

  /** Leaves i and k are different pages. */
  ghost predicate Apart(lp: seq<nat>, i: nat, k: nat) {
    i < |lp| && k < |lp| && lp[i] != lp[k]
  }

  /** Leaf i points to leaf i + 1. */
  ghost predicate Linked(pages: seq<Node>, lp: seq<nat>, i: nat) {
    i + 1 < |lp| && lp[i] < |pages| && pages[lp[i]].Leaf? && pages[lp[i]].nextLeaf == lp[i + 1]
  }

  ghost predicate InternalRootValid(cfg: Config, pages: seq<Node>)
    requires RootShaped(pages) && pages[0].Internal? && AreLeaves(pages, LeafPages(pages))
  {
    var root := pages[0];
    var lp := Kids(root);
    && 1 <= root.numKeys <= cfg.internalMaxCells
    && |root.children| == cfg.internalSlots
    && (forall i :: 0 <= i < |lp| ==>
          lp[i] != 0 && !pages[lp[i]].isRoot && pages[lp[i]].parent == 0 && pages[lp[i]].cells != [])
    && (forall i :: 0 <= i < root.numKeys ==> root.children[i].key == Last(pages[lp[i]].cells).key)
  }

  /** The cells in scan order. */
  ghost function Entries(pages: seq<Node>): seq<Cell>
    requires RootShaped(pages) && AreLeaves(pages, LeafPages(pages))
  {
    Flatten(Leaves(pages, LeafPages(pages)))
  }

  /** The index, among the leaves, of the leaf a search for `key` descends into. */
  function Route(pages: seq<Node>, key: Key): nat
    requires RootShaped(pages)
  {
    if pages[0].Leaf? then 0 else FirstAtLeast(SeparatorKeys(pages[0]), key)
  }

  /** The routing index picks a routed run. */
  lemma {:induction false} RouteIsRouted(cfg: Config, pages: seq<Node>, numPages: nat, key: Key)
    requires ValidTree(cfg, pages, numPages)
    ensures Routed(Leaves(pages, LeafPages(pages)), Route(pages, key), key)
  {
    var ls := Leaves(pages, LeafPages(pages));
    var j := Route(pages, key);
    if pages[0].Internal? {
      var seps := SeparatorKeys(pages[0]);
      assert |ls| == |seps| + 1;
      forall i | 0 <= i < j ensures ls[i] != [] && Last(ls[i]).key < key {
        assert seps[i] < key;
      }
      if j < |ls| - 1 {
        assert seps[j] >= key;
      }
    }
  }

  /**
   * The leaf a search for `key` routes to is a leaf page in use that fits;
   * it carries the root flag exactly when the root is a leaf, and is then
   * page 0, and otherwise its parent is the root.
   */
  lemma {:induction false} RoutedLeaf(cfg: Config, pages: seq<Node>, numPages: nat, key: Key)
    requires ValidTree(cfg, pages, numPages)
    ensures var lp := LeafPages(pages);
            var j := Route(pages, key);
            && j < |lp| && lp[j] < numPages && lp[j] < |pages| && pages[lp[j]].Leaf?
            && |pages[lp[j]].cells| <= cfg.leafMaxCells
            && (pages[lp[j]].isRoot <==> pages[0].Leaf?)
            && (pages[0].Leaf? ==> lp[j] == 0)
            && (pages[0].Internal? ==> lp[j] != 0 && pages[lp[j]].parent == 0)
  {
    RouteIsRouted(cfg, pages, numPages, key);
  }

  /** A full scan yields strictly increasing keys. */
  lemma {:induction false} EntriesSorted(cfg: Config, pages: seq<Node>, numPages: nat)
    requires ValidTree(cfg, pages, numPages)
    ensures StrictlyIncreasing(Keys(Entries(pages)))
  {
    FlattenSorted(Leaves(pages, LeafPages(pages)));
  }

  /**
   * The leaf a search descends to decides the whole tree: the position
   * found in that leaf, offset by the cells of the leaves before it, is the
   * key's sorted position in the scan, and the key is in the tree iff it is
   * in that leaf.
   */
  lemma {:induction false} FindInTree(cfg: Config, pages: seq<Node>, numPages: nat, key: Key)
    requires ValidTree(cfg, pages, numPages)
    ensures var ls := Leaves(pages, LeafPages(pages));
            var j := Route(pages, key);
            && j < |ls|
            && FirstAtLeast(Keys(Entries(pages)), key)
               == |Flatten(ls[..j])| + FirstAtLeast(Keys(ls[j]), key)
            && (key in Keys(Entries(pages)) <==> key in Keys(ls[j]))
  {
    RouteIsRouted(cfg, pages, numPages, key);
    RunPosition(Leaves(pages, LeafPages(pages)), Route(pages, key), key);
  }

  /**
   * Replacing leaf j by a leaf with the same flags, parent and successor keeps
   * the tree valid when the new runs are ordered, the leaf fits, and, unless it
   * is the rightmost child, its last key is unchanged.
   */
  lemma {:induction false} ReplaceLeaf(cfg: Config, pages: seq<Node>, numPages: nat, j: nat, leaf: Node)
    requires ValidTree(cfg, pages, numPages)
    requires j < |LeafPages(pages)|
    requires var prev := pages[LeafPages(pages)[j]];
             && leaf.Leaf? && leaf.isRoot == prev.isRoot && leaf.parent == prev.parent
             && leaf.nextLeaf == prev.nextLeaf && 0 < |leaf.cells| <= cfg.leafMaxCells
    requires OrderedRuns(Leaves(pages, LeafPages(pages))[j := leaf.cells])
    requires j < |LeafPages(pages)| - 1 ==>
               Last(leaf.cells).key == Last(pages[LeafPages(pages)[j]].cells).key
    ensures var pages' := pages[LeafPages(pages)[j] := leaf];
            && RootShaped(pages') && LeafPages(pages') == LeafPages(pages)
            && AreLeaves(pages', LeafPages(pages))
            && Leaves(pages', LeafPages(pages)) == Leaves(pages, LeafPages(pages))[j := leaf.cells]
            && ValidTree(cfg, pages', numPages)
  {
    var lp := LeafPages(pages);
    var q := lp[j];
    var pages' := pages[q := leaf];
    ReplaceLeafRuns(cfg, pages, lp, numPages, j, leaf);
    if pages[0].Internal? {
      assert q != 0 && pages'[0] == pages[0];
      assert LeafPages(pages') == lp;
      ReplaceLeafRoot(cfg, pages, lp, j, leaf);
    }
  }

  /** Replacing leaf j by a leaf with the same successor keeps the chain; the runs change at j only. */
  lemma {:induction false} ReplaceLeafRuns(cfg: Config, pages: seq<Node>, lp: seq<nat>, numPages: nat, j: nat, leaf: Node)
    requires AreLeaves(pages, lp) && |lp| > 0 && LeafChain(cfg, pages, lp, numPages) && j < |lp|
    requires leaf.Leaf? && leaf.nextLeaf == pages[lp[j]].nextLeaf && |leaf.cells| <= cfg.leafMaxCells
    ensures var pages' := pages[lp[j] := leaf];
            && AreLeaves(pages', lp)
            && Leaves(pages', lp) == Leaves(pages, lp)[j := leaf.cells]
            && LeafChain(cfg, pages', lp, numPages)
            && forall i :: 0 <= i < |lp| && i != j ==> pages'[lp[i]] == pages[lp[i]]
  {
    var pages' := pages[lp[j] := leaf];
    forall i | 0 <= i < |lp| && i != j ensures lp[i] != lp[j] {
      if i < j {
        assert Apart(lp, i, j);
      } else {
        assert Apart(lp, j, i);
      }
    }
    forall i | 0 <= i < |lp| - 1 ensures Linked(pages', lp, i) {
      assert Linked(pages, lp, i);
    }
  }

  /** Under an internal root, such a replacement that keeps flags, parent and separators keeps the root valid. */
  lemma {:induction false} ReplaceLeafRoot(cfg: Config, pages: seq<Node>, lp: seq<nat>, j: nat, leaf: Node)
    requires RootShaped(pages) && pages[0].Internal? && lp == LeafPages(pages)
    requires AreLeaves(pages, lp) && InternalRootValid(cfg, pages) && j < |lp|
    requires leaf.Leaf? && leaf.isRoot == pages[lp[j]].isRoot && leaf.parent == pages[lp[j]].parent
    requires leaf.cells != []
    requires j < |lp| - 1 ==> Last(leaf.cells).key == Last(pages[lp[j]].cells).key
    requires var pages' := pages[lp[j] := leaf];
             && pages'[0] == pages[0] && AreLeaves(pages', lp)
             && forall i :: 0 <= i < |lp| && i != j ==> pages'[lp[i]] == pages[lp[i]]
    ensures RootShaped(pages[lp[j] := leaf]) && LeafPages(pages[lp[j] := leaf]) == lp
    ensures InternalRootValid(cfg, pages[lp[j] := leaf])
  {
  }

  /**
   * leaf_node_insert on a leaf with room: the routed leaf receives the cell
   * at its search position.  The tree stays valid and the scan gains the cell
   * at its sorted position.
   */
  lemma {:induction false} TreeLeafInsert(cfg: Config, pages: seq<Node>, numPages: nat, x: Cell)
    requires ValidTree(cfg, pages, numPages)
    requires x.key !in Keys(Entries(pages))
    requires var q := LeafPages(pages)[Route(pages, x.key)];
             |pages[q].cells| < cfg.leafMaxCells
    ensures var q := LeafPages(pages)[Route(pages, x.key)];
            var c := FirstAtLeast(Keys(pages[q].cells), x.key);
            var pages' := pages[q := pages[q].(cells := Inserted(pages[q].cells, c, x))];
            && ValidTree(cfg, pages', numPages)
            && Entries(pages') == Inserted(Entries(pages), FirstAtLeast(Keys(Entries(pages)), x.key), x)
  {
    var lp := LeafPages(pages);
    var ls := Leaves(pages, lp);
    var j := Route(pages, x.key);
    var q := lp[j];
    var c := FirstAtLeast(Keys(pages[q].cells), x.key);
    var leaf := pages[q].(cells := Inserted(pages[q].cells, c, x));
    RouteIsRouted(cfg, pages, numPages, x.key);
    RunsInsert(ls, j, x);
    ReplaceLeaf(cfg, pages, numPages, j, leaf);
  }

  /** The replace branch of ParentAfterChildSplit: the rightmost child was split. */
  lemma {:induction false} SplitRightmostChild(p: Node, r: nat, newMax: Key, childMax: Key)
    requires p.Internal? && p.numKeys < |p.children|
    requires newMax < childMax
    ensures var p2 := InsertChild(WithKey(p, p.numKeys, newMax), r, childMax, newMax);
            && p2.numKeys <= |p2.children|
            && Kids(p2) == Inserted(Kids(p), p.numKeys + 1, r)
            && SeparatorKeys(p2) == Inserted(SeparatorKeys(p), p.numKeys, newMax)
  {
    var nk := p.numKeys;
    var p2 := InsertChild(WithKey(p, nk, newMax), r, childMax, newMax);
    var k, k2 := Kids(p), Kids(p2);
    var s, s2 := SeparatorKeys(p), SeparatorKeys(p2);
    forall i | 0 <= i <= nk + 1 ensures k2[i] == Inserted(k, nk + 1, r)[i] {
      if i < nk {
        assert k2[i] == p.children[i].child;
      }
    }
    forall i | 0 <= i <= nk ensures s2[i] == Inserted(s, nk, newMax)[i] {
      if i < nk {
        assert s2[i] == p.children[i].key;
      }
    }
  }

  /** After the key update, the search for the new child's largest key lands right after child j. */
  lemma {:induction false} SplitInnerIndex(p: Node, j: nat, newMax: Key, childMax: Key)
    requires p.Internal? && p.numKeys < |p.children| && j < p.numKeys
    requires StrictlyIncreasing(SeparatorKeys(p))
    requires newMax < childMax && p.children[j].key == childMax
    ensures FirstAtLeast(SeparatorKeys(WithKey(p, j, newMax)), childMax) == j + 1
  {
    var seps := SeparatorKeys(p);
    var s1 := SeparatorKeys(WithKey(p, j, newMax));
    forall i | 0 <= i <= j ensures s1[i] < childMax {
      if i < j {
        assert seps[i] < seps[j];
      }
    }
    if j + 1 < p.numKeys {
      assert s1[j + 1] == seps[j + 1] > seps[j];
    }
    FirstAtLeastUnique(s1, childMax, j + 1);
  }

  /** The insert branch of ParentAfterChildSplit: a child left of the right child was split. */
  lemma {:induction false} SplitInnerChild(p: Node, j: nat, r: nat, newMax: Key, childMax: Key, rightMax: Key)
    requires p.Internal? && p.numKeys < |p.children| && j < p.numKeys
    requires StrictlyIncreasing(SeparatorKeys(p))
    requires newMax < childMax && p.children[j].key == childMax && childMax < rightMax
    ensures var p2 := InsertChild(WithKey(p, j, newMax), r, childMax, rightMax);
            && p2.numKeys <= |p2.children|
            && Kids(p2) == Inserted(Kids(p), j + 1, r)
            && SeparatorKeys(p2) == Inserted(SeparatorKeys(p), j, newMax)
  {
    var nk := p.numKeys;
    var p1 := WithKey(p, j, newMax);
    var cell := ChildCell(r, childMax);
    SplitInnerIndex(p, j, newMax, childMax);
    var ch := Inserted(p1.children[..nk], j + 1, cell) + p1.children[nk + 1..];
    var p2 := InsertChild(p1, r, childMax, rightMax);
    assert p2 == p1.(numKeys := nk + 1, children := ch);
    ChildrenAfterShift(p, j, cell, newMax);
    ShiftedKids(p, p2, j, cell, newMax);
  }

  /** Kids and separators of a parent whose live cells were shifted as ChildrenAfterShift describes. */
  lemma {:induction false} ShiftedKids(p: Node, p2: Node, j: nat, cell: ChildCell, newMax: Key)
    requires p.Internal? && p.numKeys < |p.children| && j < p.numKeys
    requires p2.Internal? && p2.numKeys == p.numKeys + 1 && p2.rightChild == p.rightChild
    requires |p2.children| == |p.children|
    requires forall i :: 0 <= i < j ==> p2.children[i] == p.children[i]
    requires p2.children[j] == p.children[j].(key := newMax) && p2.children[j + 1] == cell
    requires cell.key == p.children[j].key
    requires forall i :: j + 1 < i <= p.numKeys ==> p2.children[i] == p.children[i - 1]
    ensures Kids(p2) == Inserted(Kids(p), j + 1, cell.child)
    ensures SeparatorKeys(p2) == Inserted(SeparatorKeys(p), j, newMax)
  {
    var nk := p.numKeys;
    var k, k2 := Kids(p), Kids(p2);
    var seps, s2 := SeparatorKeys(p), SeparatorKeys(p2);
    forall i | 0 <= i <= nk + 1 ensures k2[i] == Inserted(k, j + 1, cell.child)[i] {
      if i <= j {
        assert k2[i] == p.children[i].child;
      } else if j + 1 < i <= nk {
        assert k2[i] == p.children[i - 1].child;
      }
    }
    forall i | 0 <= i <= nk ensures s2[i] == Inserted(seps, j, newMax)[i] {
      if i < j {
        assert s2[i] == p.children[i].key;
      } else if j + 1 < i {
        assert s2[i] == p.children[i - 1].key;
      }
    }
  }

  /** The live cells after the shift: the cell lands in slot j + 1, the later ones move right. */
  lemma ChildrenAfterShift(p: Node, j: nat, cell: ChildCell, newMax: Key)
    requires p.Internal? && p.numKeys < |p.children| && j < p.numKeys
    ensures var p1 := WithKey(p, j, newMax);
            var ch := Inserted(p1.children[..p.numKeys], j + 1, cell) + p1.children[p.numKeys + 1..];
            && |ch| == |p.children|
            && (forall i :: 0 <= i < j ==> ch[i] == p.children[i])
            && ch[j] == p.children[j].(key := newMax)
            && ch[j + 1] == cell
            && (forall i :: j + 1 < i <= p.numKeys ==> ch[i] == p.children[i - 1])
  {
  }

  /**
   * The parent after a split of child j, the old child keeping the
   * `newMax`-ending half and new page `r` taking the `childMax`-ending half:
   * the separator of child j is first set to `newMax` (for the rightmost
   * child that is spare slot numKeys), then `r` is added.  Either way,
   * `r` becomes the child right after child j and `newMax` the separator of
   * child j, all other children and separators keeping their order.
   */
  lemma {:induction false} ParentAfterChildSplit(p: Node, j: nat, r: nat, newMax: Key, childMax: Key, rightMax: Key)
    requires p.Internal? && p.numKeys < |p.children| && j <= p.numKeys
    requires StrictlyIncreasing(SeparatorKeys(p))
    requires forall i :: 0 <= i < j ==> p.children[i].key < newMax
    requires newMax < childMax
    requires j < p.numKeys ==> p.children[j].key == childMax && childMax < rightMax
    requires j == p.numKeys ==> rightMax == newMax
    ensures var p2 := InsertChild(WithKey(p, j, newMax), r, childMax, rightMax);
            && p2.numKeys <= |p2.children|
            && Kids(p2) == Inserted(Kids(p), j + 1, r)
            && SeparatorKeys(p2) == Inserted(SeparatorKeys(p), j, newMax)
  {
    if j == p.numKeys {
      SplitRightmostChild(p, r, newMax, childMax);
    } else {
      SplitInnerChild(p, j, r, newMax, childMax, rightMax);
    }
  }

  /**
   * The pages after the leaf split proper, before the parent is touched: the
   * full leaf `q` keeps the first leftSplitCount of its cells with `x` placed
   * at position `c`, and points to the new page `r`, which takes the other
   * cells, `q`'s parent and `q`'s successor.
   */
  function SplitLeaf(cfg: Config, pages: seq<Node>, q: nat, r: nat, c: nat, x: Cell): (s: seq<Node>)
    requires cfg.Valid() && q < |pages| && r < |pages| && pages[q].Leaf?
    requires |pages[q].cells| == cfg.leafMaxCells && c <= cfg.leafMaxCells
    ensures |s| == |pages|
    ensures s[q].Leaf? && s[q].isRoot == pages[q].isRoot && s[q].parent == pages[q].parent
    ensures s[q].nextLeaf == r && |s[q].cells| == cfg.leftSplitCount
    ensures q != r ==> && s[r].Leaf? && !s[r].isRoot && s[r].parent == pages[q].parent
                       && s[r].nextLeaf == pages[q].nextLeaf
                       && s[q].cells + s[r].cells == Inserted(pages[q].cells, c, x)
    ensures forall i :: 0 <= i < |pages| && i != q && i != r ==> s[i] == pages[i]
  {
    var leaf := pages[q];
    var all := Inserted(leaf.cells, c, x);
    pages[r := Leaf(false, leaf.parent, leaf.nextLeaf, all[cfg.leftSplitCount..])]
         [q := leaf.(nextLeaf := r, cells := all[..cfg.leftSplitCount])]
  }

  /**
   * create_new_root: the root leaf moves to page `l` as a non-root child, and
   * page 0 becomes an internal root with one key, the largest key of `l`,
   * left child `l` and right child `r`; both children get page 0 as parent.
   */
  function NewRoot(cfg: Config, pages: seq<Node>, l: nat, r: nat): (s: seq<Node>)
    requires |pages| > 0 && l < |pages| && r < |pages| && 0 < cfg.internalSlots
    requires pages[0].Leaf? && pages[0].cells != []
    ensures |s| == |pages|
    ensures r != 0 && l != r ==> s[r] == pages[r].(parent := 0)
    ensures l != 0 && l != r ==> s[l] == Leaf(false, 0, pages[0].nextLeaf, pages[0].cells)
    ensures r != 0 ==> && s[0].Internal? && s[0].isRoot && s[0].parent == pages[0].parent
                       && s[0].numKeys == 1 && s[0].rightChild == r
                       && |s[0].children| == cfg.internalSlots
                       && s[0].children[0] == ChildCell(l, pages[0].cells[|pages[0].cells| - 1].key)
    ensures forall i :: 0 <= i < |pages| && i != 0 && i != l && i != r ==> s[i] == pages[i]
  {
    var root := pages[0];
    var left := Leaf(false, 0, root.nextLeaf, root.cells);
    var blank := InitializeInternalNode(cfg, root);
    var newRoot := blank.(isRoot := true, numKeys := 1, rightChild := r,
                          children := blank.children[0 := ChildCell(l, GetNodeMaxKey(left))]);
    pages[l := left][0 := newRoot][r := pages[r].(parent := 0)]
  }

  /**
   * The run-level effect of a split of the routed full leaf: the leaf's
   * cells with `x` inserted, cut after leftSplitCount, give ordered runs whose
   * scan is the old scan with `x` at its sorted position.
   */
  lemma {:induction false} SplitRuns(cfg: Config, pages: seq<Node>, numPages: nat, x: Cell)
    requires ValidTree(cfg, pages, numPages)
    requires x.key !in Keys(Entries(pages))
    requires |pages[LeafPages(pages)[Route(pages, x.key)]].cells| == cfg.leafMaxCells
    ensures var ls := Leaves(pages, LeafPages(pages));
            var j := Route(pages, x.key);
            var all := Inserted(ls[j], FirstAtLeast(Keys(ls[j]), x.key), x);
            var a, b := all[..cfg.leftSplitCount], all[cfg.leftSplitCount..];
            var ls2 := ls[..j] + [a, b] + ls[j + 1..];
            && |all| == cfg.leafMaxCells + 1
            && OrderedRuns(ls2)
            && Flatten(ls2) == Inserted(Entries(pages), FirstAtLeast(Keys(Entries(pages)), x.key), x)
            && (j < |ls| - 1 ==> Last(b) == Last(ls[j]))
  {
    RouteIsRouted(cfg, pages, numPages, x.key);
    InsertAndSplit(Leaves(pages, LeafPages(pages)), Route(pages, x.key), x, cfg.leftSplitCount);
  }

  /** Under the invariant the separators of an internal root strictly increase. */
  lemma {:induction false} SeparatorsIncreasing(cfg: Config, pages: seq<Node>, numPages: nat)
    requires ValidTree(cfg, pages, numPages) && pages[0].Internal?
    ensures StrictlyIncreasing(SeparatorKeys(pages[0]))
  {
    var ls := Leaves(pages, LeafPages(pages));
    var seps := SeparatorKeys(pages[0]);
    forall i, k | 0 <= i < k < |seps| ensures seps[i] < seps[k] {
      LastsIncreasing(ls, i, k);
    }
  }

  /** get_node_max_key of a non-empty leaf is the key of its last cell. */
  lemma MaxKeyOfLeaf(n: Node)
    requires n.Leaf? && n.cells != []
    ensures GetNodeMaxKey(n) == Last(n.cells).key
  {
  }

  /** An internal root over two leaves, in page order `l` then `r`, is a valid tree. */
  lemma {:induction false} TwoLeafRoot(cfg: Config, pages: seq<Node>, numPages: nat, l: nat, r: nat,
                                       a: seq<Cell>, b: seq<Cell>)
    requires cfg.Valid() && 0 < l < numPages && 0 < r < numPages && l != r
    requires l < |pages| && r < |pages| && 0 < |pages|
    requires a != [] && b != [] && |a| <= cfg.leafMaxCells && |b| <= cfg.leafMaxCells
    requires OrderedRuns([a, b])
    requires pages[0].Internal? && pages[0].isRoot && pages[0].numKeys == 1 && pages[0].rightChild == r
    requires |pages[0].children| == cfg.internalSlots
    requires pages[0].children[0] == ChildCell(l, Last(a).key)
    requires pages[l] == Leaf(false, 0, r, a) && pages[r] == Leaf(false, 0, 0, b)
    ensures ValidTree(cfg, pages, numPages) && Entries(pages) == Flatten([a, b])
  {
    assert Kids(pages[0]) == [l, r];
    assert LeafPages(pages) == [l, r];
    assert Leaves(pages, [l, r]) == [a, b];
    assert InternalRootValid(cfg, pages);
  }

  /**
   * leaf_node_split_and_insert on a full root leaf, then create_new_root: the
   * new right leaf goes to the first unused page and the old root's cells to
   * the page after it.  The tree is valid over two more pages and the scan
   * gains the cell at its sorted position.
   */
  lemma {:induction false} TreeRootSplit(cfg: Config, pages: seq<Node>, numPages: nat, x: Cell)
    requires ValidTree(cfg, pages, numPages) && pages[0].Leaf? && numPages + 1 < |pages|
    requires x.key !in Keys(Entries(pages))
    requires |pages[0].cells| == cfg.leafMaxCells
    ensures var c := FirstAtLeast(Keys(pages[0].cells), x.key);
            var pages1 := SplitLeaf(cfg, pages, 0, numPages, c, x);
            && pages1[0].Leaf? && pages1[0].cells != []
            && var pages2 := NewRoot(cfg, pages1, numPages + 1, numPages);
            && ValidTree(cfg, pages2, numPages + 2)
            && Entries(pages2) == Inserted(Entries(pages), FirstAtLeast(Keys(Entries(pages)), x.key), x)
  {
    var n := numPages;
    var root := pages[0];
    var c := FirstAtLeast(Keys(root.cells), x.key);
    assert LeafPages(pages) == [0];
    var ls := Leaves(pages, [0]);
    assert ls == [root.cells];
    SplitRuns(cfg, pages, n, x);
    var all := Inserted(root.cells, c, x);
    var a, b := all[..cfg.leftSplitCount], all[cfg.leftSplitCount..];
    assert ls[..0] + [a, b] + ls[1..] == [a, b];
    var pages1 := SplitLeaf(cfg, pages, 0, n, c, x);
    assert pages1[0] == Leaf(true, root.parent, n, a);
    var pages2 := NewRoot(cfg, pages1, n + 1, n);
    TwoLeafRoot(cfg, pages2, n + 2, n + 1, n, a, b);
  }

  /**
   * The leaf pages after a split of leaf j under an internal root: the new
   * page `numPages` comes right after leaf j, and the runs are the old runs
   * with run j replaced by the two halves.
   */
  lemma {:induction false} ChildSplitShape(pages: seq<Node>, lp: seq<nat>, numPages: nat, j: nat,
                                           left: Node, right: Node, p2: Node)
    requires AreLeaves(pages, lp) && numPages < |pages| && j < |lp|
    requires forall i :: 0 <= i < |lp| ==> 0 < lp[i] < numPages
    requires forall i, k :: 0 <= i < k < |lp| ==> Apart(lp, i, k)
    requires left.Leaf? && right.Leaf?
    requires p2.Internal? && p2.numKeys <= |p2.children| && Kids(p2) == Inserted(lp, j + 1, numPages)
    ensures var lp2 := Inserted(lp, j + 1, numPages);
            var pages2 := pages[numPages := right][lp[j] := left][0 := p2];
            var ls := Leaves(pages, lp);
            && RootShaped(pages2) && LeafPages(pages2) == lp2
            && AreLeaves(pages2, lp2)
            && Leaves(pages2, lp2) == ls[..j] + [left.cells, right.cells] + ls[j + 1..]
            && (forall i :: 0 <= i < |lp| && i != j ==> pages2[lp[i]] == pages[lp[i]])
            && pages2[lp[j]] == left && pages2[numPages] == right
  {
    var lp2 := Inserted(lp, j + 1, numPages);
    var pages2 := pages[numPages := right][lp[j] := left][0 := p2];
    var ls := Leaves(pages, lp);
    assert forall i :: 0 <= i < |lp| && i != j ==> pages2[lp[i]] == pages[lp[i]] by {
      forall i | 0 <= i < |lp| && i != j ensures pages2[lp[i]] == pages[lp[i]] {
        if i < j {
          assert Apart(lp, i, j);
        } else {
          assert Apart(lp, j, i);
        }
      }
    }
    var ls2 := ls[..j] + [left.cells, right.cells] + ls[j + 1..];
    assert AreLeaves(pages2, lp2) && Leaves(pages2, lp2) == ls2 by {
      forall i | 0 <= i < |lp2| ensures lp2[i] < |pages2| && pages2[lp2[i]].Leaf? && pages2[lp2[i]].cells == ls2[i] {
        if i < j {
          assert lp2[i] == lp[i];
        } else if j + 1 < i {
          assert lp2[i] == lp[i - 1] && ls2[i] == ls[i - 1];
        }
      }
    }
  }

  /**
   * The leaf chain after that split: leaf j points to the new page and the
   * new page to leaf j's old successor; the leaf pages stay distinct, in use
   * and at most full.
   */
  lemma {:induction false} ChildSplitChain(cfg: Config, pages: seq<Node>, lp: seq<nat>, numPages: nat, j: nat,
                                           pages2: seq<Node>)
    requires AreLeaves(pages, lp) && j < |lp| && LeafChain(cfg, pages, lp, numPages)
    requires AreLeaves(pages2, Inserted(lp, j + 1, numPages))
    requires forall i :: 0 <= i < |lp| && i != j ==> pages2[lp[i]] == pages[lp[i]]
    requires pages2[lp[j]].nextLeaf == numPages && |pages2[lp[j]].cells| <= cfg.leafMaxCells
    requires pages2[numPages].nextLeaf == pages[lp[j]].nextLeaf
    requires |pages2[numPages].cells| <= cfg.leafMaxCells
    ensures LeafChain(cfg, pages2, Inserted(lp, j + 1, numPages), numPages + 1)
  {
    var lp2 := Inserted(lp, j + 1, numPages);
    forall i, k | 0 <= i < k < |lp2| ensures Apart(lp2, i, k) {
      if i != j + 1 && k != j + 1 {
        var i', k' := if i < j + 1 then i else i - 1, if k < j + 1 then k else k - 1;
        assert lp2[i] == lp[i'] && lp2[k] == lp[k'] && Apart(lp, i', k');
      }
    }
    forall i | 0 <= i < |lp2| - 1 ensures Linked(pages2, lp2, i) {
      if i < j {
        assert lp2[i] == lp[i] && lp2[i + 1] == lp[i + 1] && Linked(pages, lp, i);
      } else if j + 1 < i {
        assert lp2[i] == lp[i - 1] && lp2[i + 1] == lp[i] && Linked(pages, lp, i - 1);
      } else if i == j + 1 {
        assert lp2[i + 1] == lp[j + 1] && Linked(pages, lp, j);
      }
    }
  }

  /**
   * The parent's separators after that split match the new runs: separator
   * i is the last key of run i, for every live separator.
   */
  lemma {:induction false} ChildSplitSeparators(ls: seq<seq<Cell>>, seps: seq<Key>, j: nat, a: seq<Cell>, b: seq<Cell>,
                                                p2: Node)
    requires |seps| + 1 == |ls| && j < |ls| && a != [] && b != []
    requires forall i :: 0 <= i < |seps| ==> ls[i] != [] && seps[i] == Last(ls[i]).key
    requires j < |seps| ==> Last(b) == Last(ls[j])
    requires p2.Internal? && p2.numKeys <= |p2.children|
    requires SeparatorKeys(p2) == Inserted(seps, j, Last(a).key)
    ensures var ls2 := ls[..j] + [a, b] + ls[j + 1..];
            forall i :: 0 <= i < p2.numKeys ==> ls2[i] != [] && p2.children[i].key == Last(ls2[i]).key
  {
    var ls2 := ls[..j] + [a, b] + ls[j + 1..];
    var seps2 := SeparatorKeys(p2);
    forall i | 0 <= i < p2.numKeys ensures ls2[i] != [] && p2.children[i].key == Last(ls2[i]).key {
      assert p2.children[i].key == seps2[i];
      if i < j {
        assert ls2[i] == ls[i];
      } else if i == j + 1 {
        assert ls2[i] == b && seps2[i] == seps[j];
      } else if i > j + 1 {
        assert ls2[i] == ls[i - 1] && seps2[i] == seps[i - 1];
      }
    }
  }

  /**
   * The root after the key update and the child insertion of a split of
   * routed leaf j into halves `a` and `b`: the new page follows child j, and
   * `a`'s last key becomes child j's separator.
   */
  lemma {:induction false} ChildSplitParent(cfg: Config, pages: seq<Node>, numPages: nat, x: Cell,
                                            a: seq<Cell>, b: seq<Cell>, rightMax: Key)
    requires ValidTree(cfg, pages, numPages) && pages[0].Internal? && numPages < |pages|
    requires var ls := Leaves(pages, LeafPages(pages));
             var j := Route(pages, x.key);
             && a != [] && b != []
             && OrderedRuns(ls[..j] + [a, b] + ls[j + 1..])
             && (j < |ls| - 1 ==> Last(b) == Last(ls[j]))
             && rightMax == if j == |ls| - 1 then Last(a).key else Last(ls[|ls| - 1]).key
    ensures var root := pages[0];
            var j := Route(pages, x.key);
            var oldMax := Last(pages[LeafPages(pages)[j]].cells).key;
            && FirstAtLeast(SeparatorKeys(root), oldMax) == j
            && var p2 := InsertChild(WithKey(root, j, Last(a).key), numPages, Last(b).key, rightMax);
            && p2.numKeys <= |p2.children|
            && Kids(p2) == Inserted(LeafPages(pages), j + 1, numPages)
            && SeparatorKeys(p2) == Inserted(SeparatorKeys(root), j, Last(a).key)
            && StrictlyIncreasing(SeparatorKeys(WithKey(root, j, Last(a).key)))
  {
    var root := pages[0];
    var lp := LeafPages(pages);
    var ls := Leaves(pages, lp);
    var j := Route(pages, x.key);
    SeparatorsIncreasing(cfg, pages, numPages);
    forall i | 0 <= i < |ls| ensures ls[i] != [] && (i < root.numKeys ==> root.children[i].key == Last(ls[i]).key) {
      assert ls[i] == pages[lp[i]].cells;
    }
    SplitParentKeys(root, ls, j, a, b, rightMax, numPages);
  }

  /**
   * The same on values: for a parent whose separator i is the last key of
   * run i, lowering separator j to the last key of `a` and adding child `r`
   * for `b` puts `r` right after child j and the new key at separator j,
   * keeps the separators sorted, and child j is where a search for its old
   * largest key goes.
   */
  lemma {:induction false} SplitParentKeys(root: Node, ls: seq<seq<Cell>>, j: nat, a: seq<Cell>, b: seq<Cell>,
                                           rightMax: Key, r: nat)
    requires root.Internal? && root.numKeys < |root.children| && |ls| == root.numKeys + 1 && j < |ls|
    requires StrictlyIncreasing(SeparatorKeys(root)) && OrderedRuns(ls)
    requires forall i :: 0 <= i < |ls| ==> ls[i] != []
    requires forall i :: 0 <= i < root.numKeys ==> root.children[i].key == Last(ls[i]).key
    requires a != [] && b != []
    requires OrderedRuns(ls[..j] + [a, b] + ls[j + 1..])
    requires j < |ls| - 1 ==> Last(b) == Last(ls[j])
    requires rightMax == if j == |ls| - 1 then Last(a).key else Last(ls[|ls| - 1]).key
    ensures FirstAtLeast(SeparatorKeys(root), Last(ls[j]).key) == j
    ensures var p2 := InsertChild(WithKey(root, j, Last(a).key), r, Last(b).key, rightMax);
            && p2.numKeys <= |p2.children|
            && Kids(p2) == Inserted(Kids(root), j + 1, r)
            && SeparatorKeys(p2) == Inserted(SeparatorKeys(root), j, Last(a).key)
            && StrictlyIncreasing(SeparatorKeys(WithKey(root, j, Last(a).key)))
  {
    var nk := root.numKeys;
    var seps := SeparatorKeys(root);
    var ls2 := ls[..j] + [a, b] + ls[j + 1..];
    var oldMax, newMax, childMax := Last(ls[j]).key, Last(a).key, Last(b).key;
    forall t | 0 <= t < j ensures seps[t] < oldMax {
      LastsIncreasing(ls, t, j);
    }
    FirstAtLeastUnique(seps, oldMax, j);
    if j < nk {
      assert ls2[nk + 1] == ls[nk];
      LastsIncreasing(ls2, j + 1, nk + 1);
    }
    forall i | 0 <= i < j ensures root.children[i].key < newMax {
      assert ls2[i] == ls[i];
      LastsIncreasing(ls2, i, j);
    }
    LastsIncreasing(ls2, j, j + 1);
    ParentAfterChildSplit(root, j, r, newMax, childMax, rightMax);
    WithKeySorted(root, j, newMax);
  }

  /** Lowering separator j below its old value but above the ones before it keeps the separators in order. */
  lemma WithKeySorted(p: Node, j: nat, newMax: Key)
    requires p.Internal? && p.numKeys < |p.children| && j <= p.numKeys
    requires StrictlyIncreasing(SeparatorKeys(p))
    requires forall i :: 0 <= i < j ==> p.children[i].key < newMax
    requires j < p.numKeys ==> newMax < p.children[j].key
    ensures StrictlyIncreasing(SeparatorKeys(WithKey(p, j, newMax)))
  {
    var seps, s1 := SeparatorKeys(p), SeparatorKeys(WithKey(p, j, newMax));
    forall i, k | 0 <= i < k < |s1| ensures s1[i] < s1[k] {
      if i == j {
        assert seps[j] < seps[k];
      }
    }
  }

  /**
   * The tree after a split of routed leaf j into `left` (keeping the page)
   * and `right` (at the first unused page), under a root `p2` whose children
   * and separators follow the new runs, is valid over one more page.
   */
  lemma {:induction false} ChildSplitValid(cfg: Config, pages: seq<Node>, numPages: nat, j: nat,
                                           lp: seq<nat>, ls: seq<seq<Cell>>, left: Node, right: Node, p2: Node)
    requires cfg.Valid() && RootShaped(pages) && pages[0].Internal? && numPages < |pages|
    requires lp == LeafPages(pages) && AreLeaves(pages, lp) && ls == Leaves(pages, lp)
    requires LeafChain(cfg, pages, lp, numPages) && InternalRootValid(cfg, pages)
    requires j < |lp|
    requires && left.Leaf? && right.Leaf?
             && !left.isRoot && left.parent == 0 && left.nextLeaf == numPages
             && !right.isRoot && right.parent == 0 && right.nextLeaf == pages[lp[j]].nextLeaf
             && left.cells != [] && right.cells != []
             && |left.cells| <= cfg.leafMaxCells && |right.cells| <= cfg.leafMaxCells
    requires OrderedRuns(ls[..j] + [left.cells, right.cells] + ls[j + 1..])
    requires j < |ls| - 1 ==> Last(right.cells) == Last(ls[j])
    requires p2.Internal? && p2.isRoot && p2.numKeys <= cfg.internalMaxCells
    requires |p2.children| == cfg.internalSlots
    requires Kids(p2) == Inserted(lp, j + 1, numPages)
    requires SeparatorKeys(p2) == Inserted(SeparatorKeys(pages[0]), j, Last(left.cells).key)
    ensures var pages2 := pages[numPages := right][lp[j] := left][0 := p2];
            && ValidTree(cfg, pages2, numPages + 1)
            && Entries(pages2) == Flatten(ls[..j] + [left.cells, right.cells] + ls[j + 1..])
  {
    var pages2 := pages[numPages := right][lp[j] := left][0 := p2];
    ChildSplitLeaves(cfg, pages, numPages, j, lp, left, right, p2);
    ChildSplitSeparators(ls, SeparatorKeys(pages[0]), j, left.cells, right.cells, p2);
    var lp2 := Inserted(lp, j + 1, numPages);
    var ls2 := ls[..j] + [left.cells, right.cells] + ls[j + 1..];
    InternalTreeValid(cfg, pages2, numPages + 1, lp2, ls2);
  }

  /** The leaf pages, their runs and their chain after that split. */
  lemma {:induction false} ChildSplitLeaves(cfg: Config, pages: seq<Node>, numPages: nat, j: nat,
                                            lp: seq<nat>, left: Node, right: Node, p2: Node)
    requires RootShaped(pages) && pages[0].Internal? && numPages < |pages|
    requires lp == LeafPages(pages) && AreLeaves(pages, lp) && j < |lp|
    requires LeafChain(cfg, pages, lp, numPages) && InternalRootValid(cfg, pages)
    requires && left.Leaf? && right.Leaf?
             && !left.isRoot && left.parent == 0 && left.nextLeaf == numPages
             && !right.isRoot && right.parent == 0 && right.nextLeaf == pages[lp[j]].nextLeaf
             && left.cells != [] && right.cells != []
             && |left.cells| <= cfg.leafMaxCells && |right.cells| <= cfg.leafMaxCells
    requires p2.Internal? && p2.numKeys <= |p2.children| && Kids(p2) == Inserted(lp, j + 1, numPages)
    ensures var pages2 := pages[numPages := right][lp[j] := left][0 := p2];
            var lp2 := Inserted(lp, j + 1, numPages);
            var ls := Leaves(pages, lp);
            && RootShaped(pages2) && LeafPages(pages2) == lp2 && AreLeaves(pages2, lp2)
            && Leaves(pages2, lp2) == ls[..j] + [left.cells, right.cells] + ls[j + 1..]
            && LeafChain(cfg, pages2, lp2, numPages + 1)
            && forall i :: 0 <= i < |lp2| ==>
                 lp2[i] != 0 && !pages2[lp2[i]].isRoot && pages2[lp2[i]].parent == 0 && pages2[lp2[i]].cells != []
  {
    var pages2 := pages[numPages := right][lp[j] := left][0 := p2];
    ChildSplitShape(pages, lp, numPages, j, left, right, p2);
    ChildSplitChain(cfg, pages, lp, numPages, j, pages2);
    ChildSplitKids(pages, lp, numPages, j, pages2);
  }

  /** The invariant for an internal root, from its parts. */
  lemma InternalTreeValid(cfg: Config, pages: seq<Node>, numPages: nat, lp: seq<nat>, ls: seq<seq<Cell>>)
    requires cfg.Valid() && RootShaped(pages) && pages[0].Internal? && pages[0].isRoot && 0 < numPages
    requires LeafPages(pages) == lp && AreLeaves(pages, lp) && Leaves(pages, lp) == ls
    requires LeafChain(cfg, pages, lp, numPages) && OrderedRuns(ls)
    requires 1 <= pages[0].numKeys <= cfg.internalMaxCells && |pages[0].children| == cfg.internalSlots
    requires forall i :: 0 <= i < |lp| ==>
               lp[i] != 0 && !pages[lp[i]].isRoot && pages[lp[i]].parent == 0 && pages[lp[i]].cells != []
    requires forall i :: 0 <= i < pages[0].numKeys ==> ls[i] != [] && pages[0].children[i].key == Last(ls[i]).key
    ensures ValidTree(cfg, pages, numPages) && Entries(pages) == Flatten(ls)
  {
  }

  /** The leaves after that split are all non-root children of page 0, none of them page 0. */
  lemma {:induction false} ChildSplitKids(pages: seq<Node>, lp: seq<nat>, numPages: nat, j: nat, pages2: seq<Node>)
    requires AreLeaves(pages, lp) && j < |lp| && 0 < numPages && |pages2| == |pages|
    requires forall i :: 0 <= i < |lp| ==>
               lp[i] != 0 && !pages[lp[i]].isRoot && pages[lp[i]].parent == 0 && pages[lp[i]].cells != []
    requires AreLeaves(pages2, Inserted(lp, j + 1, numPages))
    requires forall i :: 0 <= i < |lp| && i != j ==> pages2[lp[i]] == pages[lp[i]]
    requires !pages2[lp[j]].isRoot && pages2[lp[j]].parent == 0 && pages2[lp[j]].cells != []
    requires !pages2[numPages].isRoot && pages2[numPages].parent == 0 && pages2[numPages].cells != []
    ensures var lp2 := Inserted(lp, j + 1, numPages);
            forall i :: 0 <= i < |lp2| ==>
              lp2[i] != 0 && !pages2[lp2[i]].isRoot && pages2[lp2[i]].parent == 0 && pages2[lp2[i]].cells != []
  {
    var lp2 := Inserted(lp, j + 1, numPages);
    forall i | 0 <= i < |lp2|
      ensures lp2[i] != 0 && !pages2[lp2[i]].isRoot && pages2[lp2[i]].parent == 0 && pages2[lp2[i]].cells != []
    {
      if i < j {
        assert lp2[i] == lp[i];
      } else if j + 1 < i {
        assert lp2[i] == lp[i - 1];
      }
    }
  }

  /**
   * The pages a split of the routed full leaf under the internal root works
   * on: the leaf's parent is the root, which keeps its page and has a free
   * slot; both halves and the right child have cells; and lowering the
   * split leaf's separator to its new largest key keeps the separators in
   * order.
   */
  lemma {:induction false} ChildSplitFacts(cfg: Config, pages: seq<Node>, numPages: nat, x: Cell)
    requires ValidTree(cfg, pages, numPages) && pages[0].Internal? && numPages < |pages|
    requires x.key !in Keys(Entries(pages))
    requires |pages[LeafPages(pages)[Route(pages, x.key)]].cells| == cfg.leafMaxCells
    ensures var q := LeafPages(pages)[Route(pages, x.key)];
            var c := FirstAtLeast(Keys(pages[q].cells), x.key);
            var pages1 := SplitLeaf(cfg, pages, q, numPages, c, x);
            var p := pages[0];
            && pages1[0] == p && pages[q].parent == 0 && pages[q].cells != []
            && p.numKeys < |p.children| && StrictlyIncreasing(SeparatorKeys(p))
            && pages1[q].Leaf? && pages1[q].cells != []
            && pages1[numPages].Leaf? && pages1[numPages].cells != []
            && var p1 := WithKey(p, FirstAtLeast(SeparatorKeys(p), GetNodeMaxKey(pages[q])), GetNodeMaxKey(pages1[q]));
            && 0 < p1.rightChild < numPages && pages1[p1.rightChild].Leaf? && pages1[p1.rightChild].cells != []
            && StrictlyIncreasing(SeparatorKeys(p1))
  {
    var n := numPages;
    var root := pages[0];
    var nk := root.numKeys;
    var lp := LeafPages(pages);
    var ls := Leaves(pages, lp);
    var j := Route(pages, x.key);
    var q := lp[j];
    var c := FirstAtLeast(Keys(pages[q].cells), x.key);
    SplitRuns(cfg, pages, n, x);
    var all := Inserted(ls[j], c, x);
    var a, b := all[..cfg.leftSplitCount], all[cfg.leftSplitCount..];
    var left := pages[q].(nextLeaf := n, cells := a);
    var right := Leaf(false, pages[q].parent, pages[q].nextLeaf, b);
    assert q < n && |a| == cfg.leftSplitCount && |b| == cfg.rightSplitCount;
    var pages1 := SplitLeaf(cfg, pages, q, n, c, x);
    assert pages1 == pages[n := right][q := left];
    var rc := root.rightChild;
    assert rc == lp[nk];
    var rightMax := if j == nk then Last(a).key else Last(ls[nk]).key;
    if j < nk {
      assert Apart(lp, j, nk);
      assert rc != q && rc < n && pages1[rc] == pages[rc];
    }
    ChildSplitParent(cfg, pages, n, x, a, b, rightMax);
    SeparatorsIncreasing(cfg, pages, n);
    MaxKeyOfLeaf(pages[q]);
    MaxKeyOfLeaf(left);
    assert pages1[0] == root && pages1[q] == left && pages1[n] == right;
    var p1 := WithKey(root, FirstAtLeast(SeparatorKeys(root), GetNodeMaxKey(pages[q])), GetNodeMaxKey(pages1[q]));
    assert p1 == WithKey(root, j, Last(a).key);
    assert p1.rightChild == rc;
  }

  /**
   * leaf_node_split_and_insert on a full leaf under the internal root, then
   * update_internal_node_key and internal_node_insert on the root: the new
   * right leaf goes to the first unused page.  When the root has room for one
   * more key the tree is valid over one more page and the scan gains the cell
   * at its sorted position.
   */
  lemma {:induction false} TreeChildSplit(cfg: Config, pages: seq<Node>, numPages: nat, x: Cell)
    requires ValidTree(cfg, pages, numPages) && pages[0].Internal? && numPages < |pages|
    requires x.key !in Keys(Entries(pages))
    requires |pages[LeafPages(pages)[Route(pages, x.key)]].cells| == cfg.leafMaxCells
    requires pages[0].numKeys < cfg.internalMaxCells
    ensures var q := LeafPages(pages)[Route(pages, x.key)];
            var c := FirstAtLeast(Keys(pages[q].cells), x.key);
            var pages1 := SplitLeaf(cfg, pages, q, numPages, c, x);
            var p := pages[0];
            var p1 := WithKey(p, FirstAtLeast(SeparatorKeys(p), GetNodeMaxKey(pages[q])), GetNodeMaxKey(pages1[q]));
            var p2 := InsertChild(p1, numPages, GetNodeMaxKey(pages1[numPages]), GetNodeMaxKey(pages1[p1.rightChild]));
            && ValidTree(cfg, pages1[0 := p2], numPages + 1)
            && Entries(pages1[0 := p2]) == Inserted(Entries(pages), FirstAtLeast(Keys(Entries(pages)), x.key), x)
  {
    ChildSplitFacts(cfg, pages, numPages, x);
    var n := numPages;
    var root := pages[0];
    var nk := root.numKeys;
    var lp := LeafPages(pages);
    var ls := Leaves(pages, lp);
    var j := Route(pages, x.key);
    var q := lp[j];
    var c := FirstAtLeast(Keys(pages[q].cells), x.key);
    SplitRuns(cfg, pages, n, x);
    var all := Inserted(ls[j], c, x);
    var a, b := all[..cfg.leftSplitCount], all[cfg.leftSplitCount..];
    var left := pages[q].(nextLeaf := n, cells := a);
    var right := Leaf(false, pages[q].parent, pages[q].nextLeaf, b);
    var pages1 := SplitLeaf(cfg, pages, q, n, c, x);
    assert pages1 == pages[n := right][q := left];
    var rc := root.rightChild;
    assert rc == lp[nk];
    var rightMax := if j == nk then Last(a).key else Last(ls[nk]).key;
    if j < nk {
      assert Apart(lp, j, nk);
      assert rc != q && rc < n && pages1[rc] == pages[rc];
    }
    ChildSplitParent(cfg, pages, n, x, a, b, rightMax);
    MaxKeyOfLeaf(pages[q]);
    MaxKeyOfLeaf(left);
    MaxKeyOfLeaf(right);
    MaxKeyOfLeaf(pages1[rc]);
    var p2 := InsertChild(WithKey(root, j, Last(a).key), n, Last(b).key, rightMax);
    ChildSplitValid(cfg, pages, n, j, lp, ls, left, right, p2);
    assert pages1[0 := p2] == pages[n := right][q := left][0 := p2];
  }

  /**
   * A key equal to separator i is routed to child i, the child it is the
   * largest key of, and not to the child to its right.
   */
  lemma {:induction false} RouteTie(cfg: Config, pages: seq<Node>, numPages: nat, i: nat)
    requires ValidTree(cfg, pages, numPages) && pages[0].Internal? && i < pages[0].numKeys
    ensures Route(pages, pages[0].children[i].key) == i
    ensures pages[0].children[i].key == Last(Leaves(pages, LeafPages(pages))[i]).key
  {
    var seps := SeparatorKeys(pages[0]);
    SeparatorsIncreasing(cfg, pages, numPages);
    assert forall t :: 0 <= t < i ==> seps[t] < seps[i];
    FirstAtLeastUnique(seps, seps[i], i);
  }

  /**
   * The leaf chain read through next-leaf numbers: leaf i's successor is
   * leaf i + 1, which holds cells, and 0 marks exactly the last leaf.
   */
  lemma {:induction false} NextLeaf(cfg: Config, pages: seq<Node>, numPages: nat, i: nat)
    requires ValidTree(cfg, pages, numPages) && i < |LeafPages(pages)|
    ensures var lp := LeafPages(pages);
            && (pages[lp[i]].nextLeaf == 0 <==> i == |lp| - 1)
            && (i < |lp| - 1 ==> pages[lp[i]].nextLeaf == lp[i + 1] && pages[lp[i + 1]].cells != [])
  {
    if i < |LeafPages(pages)| - 1 {
      assert Linked(pages, LeafPages(pages), i);
    }
  }

  /** A search for key 0 goes to the first leaf, which is empty exactly when the table is. */
  lemma {:induction false} FirstLeaf(cfg: Config, pages: seq<Node>, numPages: nat)
    requires ValidTree(cfg, pages, numPages)
    ensures Route(pages, 0) == 0
    ensures pages[LeafPages(pages)[0]].cells == [] <==> Entries(pages) == []
  {
    var ls := Leaves(pages, LeafPages(pages));
    FlattenAround(ls, 0);
  }

  /**
   * Page n roots a subtree of height at most h inside the pages in use: an
   * internal page has sorted separators and every child does the same with
   * h - 1.
   */
  ghost predicate Descends(pages: seq<Node>, numPages: nat, n: nat, h: nat)
    decreases h
  {
    && n < numPages && n < |pages|
    && (pages[n].Internal? ==>
          && 0 < h && pages[n].numKeys <= |pages[n].children|
          && StrictlyIncreasing(SeparatorKeys(pages[n]))
          && forall i :: 0 <= i <= pages[n].numKeys ==> Descends(pages, numPages, ChildAt(pages[n], i), h - 1))
  }

  /** The leaf page a search for `key` from page n ends at. */
  ghost function FindLeaf(pages: seq<Node>, numPages: nat, n: nat, h: nat, key: Key): (leaf: nat)
    requires Descends(pages, numPages, n, h)
    ensures leaf < numPages && leaf < |pages| && pages[leaf].Leaf?
    decreases h
  {
    if pages[n].Leaf? then n
    else FindLeaf(pages, numPages, ChildAt(pages[n], FirstAtLeast(SeparatorKeys(pages[n]), key)), h - 1, key)
  }

  /** In a valid tree the descent from the root takes at most one step and ends at the routed leaf. */
  lemma {:induction false} RootDescends(cfg: Config, pages: seq<Node>, numPages: nat, key: Key)
    requires ValidTree(cfg, pages, numPages)
    ensures Descends(pages, numPages, 0, 1)
    ensures FindLeaf(pages, numPages, 0, 1, key) == LeafPages(pages)[Route(pages, key)]
  {
    if pages[0].Internal? {
      var lp := LeafPages(pages);
      SeparatorsIncreasing(cfg, pages, numPages);
      forall i | 0 <= i <= pages[0].numKeys ensures Descends(pages, numPages, ChildAt(pages[0], i), 0) {
        assert ChildAt(pages[0], i) == lp[i];
      }
    }
  }

  /** The tree of a new file: page 0 an empty root leaf. */
  lemma EmptyTree(cfg: Config, pages: seq<Node>)
    requires cfg.Valid() && |pages| > 0 && pages[0] == Leaf(true, 0, 0, [])
    ensures ValidTree(cfg, pages, 1) && Entries(pages) == []
  {
    var ls := Leaves(pages, LeafPages(pages));
    assert ls == [[]];
    assert Flatten(ls) == ls[0] + Flatten(ls[1..]);
    assert OrderedRuns(ls) by {
      assert Keys(ls[0]) == [];
    }
  }

  /** The index in the scan order of cell `cellNum` of leaf `leafIndex`. */
  ghost function ScanPosition(pages: seq<Node>, leafIndex: nat, cellNum: nat): nat
    requires RootShaped(pages) && AreLeaves(pages, LeafPages(pages)) && leafIndex < |LeafPages(pages)|
  {
    |Flatten(Leaves(pages, LeafPages(pages))[..leafIndex])| + cellNum
  }

  /**
   * A cursor on leaf `leafIndex`, page `pageNum`: at one of
   * the leaf's cells or just past the last, and past every cell of the scan
   * when it is at the end.
   */
  ghost predicate CursorOn(pages: seq<Node>, leafIndex: nat, pageNum: nat, cellNum: nat, endOfTable: bool)
    requires RootShaped(pages) && AreLeaves(pages, LeafPages(pages))
  {
    && leafIndex < |LeafPages(pages)| && pageNum == LeafPages(pages)[leafIndex]
    && cellNum <= |pages[pageNum].cells|
    && (endOfTable ==> ScanPosition(pages, leafIndex, cellNum) == |Entries(pages)|)
  }

  /**
   * The cursor table_find builds, on the routed leaf at the search position,
   * is at the key's sorted position in the scan, and on a cell with the key
   * exactly when the key is present.
   */
  lemma {:induction false} FoundCursor(cfg: Config, pages: seq<Node>, numPages: nat, key: Key, cellNum: nat)
    requires ValidTree(cfg, pages, numPages)
    requires cellNum == FirstAtLeast(Keys(pages[LeafPages(pages)[Route(pages, key)]].cells), key)
    ensures var j := Route(pages, key);
            && CursorOn(pages, j, LeafPages(pages)[j], cellNum, false)
            && ScanPosition(pages, j, cellNum) == FirstAtLeast(Keys(Entries(pages)), key)
            && (key in Keys(Entries(pages)) <==>
                  ScanPosition(pages, j, cellNum) < |Entries(pages)| && Entries(pages)[ScanPosition(pages, j, cellNum)].key == key)
  {
    FindInTree(cfg, pages, numPages, key);
    EntriesSorted(cfg, pages, numPages);
    FirstAtLeastFindsKey(Keys(Entries(pages)), key);
  }

  /** The cell a cursor is on, cell `cellNum` of leaf `leafIndex`, is the scan's entry at the cursor's position. */
  lemma {:induction false} CursorCell(pages: seq<Node>, leafIndex: nat, pageNum: nat, cellNum: nat)
    requires RootShaped(pages) && AreLeaves(pages, LeafPages(pages))
    requires leafIndex < |LeafPages(pages)| && pageNum == LeafPages(pages)[leafIndex]
    requires cellNum < |pages[pageNum].cells|
    ensures ScanPosition(pages, leafIndex, cellNum) < |Entries(pages)|
    ensures Entries(pages)[ScanPosition(pages, leafIndex, cellNum)] == pages[pageNum].cells[cellNum]
  {
    var ls := Leaves(pages, LeafPages(pages));
    assert ls[leafIndex] == pages[pageNum].cells;
    ScanAt(ls, leafIndex, cellNum);
  }

  /**
   * table_start's cursor: the search for key 0 ends at position 0 of the
   * first leaf, which is the end of the scan exactly when the table is empty.
   */
  lemma {:induction false} StartCursor(cfg: Config, pages: seq<Node>, numPages: nat,
                                       leafIndex: nat, pageNum: nat, cellNum: nat)
    requires ValidTree(cfg, pages, numPages)
    requires leafIndex == Route(pages, 0) && pageNum == LeafPages(pages)[leafIndex] && cellNum == FirstAtLeast(Keys(pages[pageNum].cells), 0)
    ensures var empty := pages[pageNum].cells == [];
            && CursorOn(pages, leafIndex, pageNum, cellNum, empty)
            && ScanPosition(pages, leafIndex, cellNum) == 0
            && (empty <==> Entries(pages) == [])
            && (!empty ==> cellNum < |pages[pageNum].cells|)
  {
    FirstLeaf(cfg, pages, numPages);
  }

  /**
   * cursor_advance from a cell: the next cell of the leaf; past the leaf's
   * last cell, the first cell of the next leaf, or the end of the scan after
   * the last leaf.  Each moves the position one on.
   */
  lemma {:induction false} AdvanceCursor(cfg: Config, pages: seq<Node>, numPages: nat,
                                         i: nat, p: nat, c: nat, end: bool,
                                         i2: nat, p2: nat, c2: nat, end2: bool)
    requires ValidTree(cfg, pages, numPages) && i < |LeafPages(pages)| && p == LeafPages(pages)[i]
    requires c < |pages[p].cells| && (end ==> ScanPosition(pages, i, c) == |Entries(pages)|)
    requires var leaf := pages[p];
             if c + 1 < |leaf.cells| then i2 == i && p2 == p && c2 == c + 1 && end2 == end
             else if leaf.nextLeaf == 0 then i2 == i && p2 == p && c2 == c + 1 && end2
             else i2 == i + 1 && p2 == leaf.nextLeaf && c2 == 0 && end2 == end
    ensures CursorOn(pages, i2, p2, c2, end2)
    ensures ScanPosition(pages, i2, c2) == ScanPosition(pages, i, c) + 1
    ensures end2 <==> ScanPosition(pages, i2, c2) == |Entries(pages)|
    ensures !end2 ==> c2 < |pages[p2].cells|
  {
    var ls := Leaves(pages, LeafPages(pages));
    NextLeaf(cfg, pages, numPages, i);
    ScanStep(ls, i);
    ScanAt(ls, i, c);
    if c + 1 < |pages[p].cells| {
      ScanAt(ls, i, c + 1);
    } else if pages[p].nextLeaf == 0 {
      assert ls[..i + 1] == ls;
    } else {
      ScanAt(ls, i + 1, 0);
    }
  }
}
