/**
 * The typed view of one page: a B+tree node that is either a leaf holding
 * (key, row) cells or an internal node holding (child, separator) cells.
 * Byte offsets are not modelled; the layout constants are parameters (Config).
 */
module Node {

  /** A key is the row's id, an unsigned 32-bit integer. */
  type Key = k: int | 0 <= k < 0x1_0000_0000

  /** A row: the id key and two text columns, stored in a cell as an opaque value. */
  datatype Row = Row(id: Key, username: string, email: string)

  /** The node type tag; the first enumerator is the one a zeroed page reads as. */
  datatype NodeType = NodeInternal | NodeLeaf

  /** A leaf cell. */
  datatype Cell = Cell(key: Key, value: Row)

  /** An internal cell: a child page number and the separator key to its right. */
  datatype ChildCell = ChildCell(child: nat, key: Key)

  /** The cell a zero-filled buffer holds. */
  const ZeroCell := Cell(0, Row(0, "", ""))

  /**
   * The layout constants, which are parameters here: the leaf capacity and the
   * two split counts (the +1 is the cell being inserted), which simple-db's C
   * code derives from the page size, and the internal-node key limit, a small
   * fixed constant chosen for testing.  An internal page has `internalSlots`
   * cell slots, which is more than its key limit.
   */
  datatype Config = Config(
    leafMaxCells: nat,
    leftSplitCount: nat,
    rightSplitCount: nat,
    internalMaxCells: nat,
    internalSlots: nat)
  {
    predicate Valid() {
      && 1 <= rightSplitCount <= leftSplitCount
      && leftSplitCount + rightSplitCount == leafMaxCells + 1
      && 1 <= internalMaxCells < internalSlots
    }
  }

  /**
   * A page read as a node.  A leaf's `cells` are its `num_cells` live cells;
   * an internal node's `children` are all its cell slots, of which the first
   * `numKeys` are live.  `parent` 0 means none; `nextLeaf` 0 means rightmost.
   */
  datatype Node =
    | Leaf(isRoot: bool, parent: nat, nextLeaf: nat, cells: seq<Cell>)
    | Internal(isRoot: bool, parent: nat, numKeys: nat, rightChild: nat, children: seq<ChildCell>)

  /** get_node_type: the tag says which of the two variants the page holds. */
  function GetNodeType(n: Node): (t: NodeType)
    ensures t == NodeLeaf <==> n.Leaf?
    ensures t == NodeInternal <==> n.Internal?
  {
    if n.Leaf? then NodeLeaf else NodeInternal
  }

  /** `count` zero-filled internal cell slots. */
  function ZeroSlots(count: nat): (s: seq<ChildCell>)
    ensures |s| == count && forall i :: 0 <= i < count ==> s[i] == ChildCell(0, 0)
  {
    seq(count, _ => ChildCell(0, 0))
  }

  /** A freshly allocated, zero-filled page: an empty, non-root internal node. */
  function ZeroPage(cfg: Config): Node {
    Internal(false, 0, 0, 0, ZeroSlots(cfg.internalSlots))
  }

  /** set_node_root: the root flag set to `isRoot`, everything else kept. */
  function SetNodeRoot(n: Node, isRoot: bool): (m: Node)
    ensures GetNodeType(m) == GetNodeType(n) && m.isRoot == isRoot && m.parent == n.parent
    ensures m.Leaf? ==> m.nextLeaf == n.nextLeaf && m.cells == n.cells
    ensures m.Internal? ==> m.numKeys == n.numKeys && m.rightChild == n.rightChild && m.children == n.children
  {
    match n
    case Leaf(_, parent, next, cells) => Leaf(isRoot, parent, next, cells)
    case Internal(_, parent, k, right, children) => Internal(isRoot, parent, k, right, children)
  }

  /** A write through node_parent: the parent page number set, everything else kept. */
  function SetParent(n: Node, parent: nat): (m: Node)
    ensures GetNodeType(m) == GetNodeType(n) && m.isRoot == n.isRoot && m.parent == parent
    ensures m.Leaf? ==> m.nextLeaf == n.nextLeaf && m.cells == n.cells
    ensures m.Internal? ==> m.numKeys == n.numKeys && m.rightChild == n.rightChild && m.children == n.children
  {
    match n
    case Leaf(isRoot, _, next, cells) => Leaf(isRoot, parent, next, cells)
    case Internal(isRoot, _, k, right, children) => Internal(isRoot, parent, k, right, children)
  }

  /** initialize_leaf_node: an empty non-root leaf with no successor; the parent field is kept. */
  function InitializeLeafNode(n: Node): (m: Node)
    ensures m.Leaf? && !m.isRoot && m.parent == n.parent
    ensures m.nextLeaf == 0 && m.cells == [] && StrictlyIncreasing(Keys(m.cells))
  {
    Leaf(false, n.parent, 0, [])
  }

  /** initialize_internal_node: an empty non-root internal node; the parent field is kept. */
  function InitializeInternalNode(cfg: Config, n: Node): (m: Node)
    ensures m.Internal? && !m.isRoot && m.parent == n.parent
    ensures m.numKeys == 0 && m.rightChild == 0 && |m.children| == cfg.internalSlots
    ensures SeparatorKeys(m) == []
  {
    Internal(false, n.parent, 0, 0, ZeroSlots(cfg.internalSlots))
  }

  /** The keys of a run of leaf cells. */
  function Keys(cells: seq<Cell>): (ks: seq<Key>)
    ensures |ks| == |cells| && forall i :: 0 <= i < |cells| ==> ks[i] == cells[i].key
  {
    seq(|cells|, i requires 0 <= i < |cells| => cells[i].key)
  }

  /** The live separator keys of an internal node. */
  function SeparatorKeys(n: Node): (ks: seq<Key>)
    requires n.Internal? && n.numKeys <= |n.children|
    ensures |ks| == n.numKeys && forall i :: 0 <= i < n.numKeys ==> ks[i] == n.children[i].key
  {
    seq(n.numKeys, i requires 0 <= i < n.numKeys => n.children[i].key)
  }

  /** internal_node_child: child `i` of an internal node, index `numKeys` being the right child. */
  function ChildAt(n: Node, i: nat): (c: nat)
    requires n.Internal? && i <= n.numKeys <= |n.children|
    ensures i < n.numKeys ==> c == n.children[i].child
    ensures i == n.numKeys ==> c == n.rightChild
  {
    if i == n.numKeys then n.rightChild else n.children[i].child
  }

  predicate StrictlyIncreasing(ks: seq<Key>) {
    forall i, j :: 0 <= i < j < |ks| ==> ks[i] < ks[j]
  }

  /**
   * The least index whose key is at least `key`, or |ks| if there is none:
   * the position both binary searches compute.
   */
  function FirstAtLeast(ks: seq<Key>, key: Key): (r: nat)
    ensures r <= |ks|
    ensures forall j :: 0 <= j < r ==> ks[j] < key
    ensures r < |ks| ==> ks[r] >= key
  {
    if |ks| == 0 || ks[0] >= key then 0 else 1 + FirstAtLeast(ks[1..], key)
  }

  /** On strictly increasing keys the first position at least `key` holds `key` iff `key` occurs. */
  lemma FirstAtLeastFindsKey(ks: seq<Key>, key: Key)
    requires StrictlyIncreasing(ks)
    ensures FirstAtLeast(ks, key) < |ks| && ks[FirstAtLeast(ks, key)] == key <==> key in ks
    ensures key !in ks ==> forall j :: FirstAtLeast(ks, key) <= j < |ks| ==> ks[j] > key
  {
    var r := FirstAtLeast(ks, key);
    if key in ks {
      var j :| 0 <= j < |ks| && ks[j] == key;
      assert r <= j;
    }
  }

  /** `s` with `x` placed at position `c`, the later elements one place to the right. */
  function Inserted<T>(s: seq<T>, c: nat, x: T): (r: seq<T>)
    requires c <= |s|
    ensures |r| == |s| + 1 && r[c] == x
    ensures forall j :: 0 <= j < c ==> r[j] == s[j]
    ensures forall j :: c < j < |r| ==> r[j] == s[j - 1]
  {
    s[..c] + [x] + s[c..]
  }

  /** Inserting a cell inserts its key at the same position. */
  lemma KeysInserted(cells: seq<Cell>, c: nat, x: Cell)
    requires c <= |cells|
    ensures Keys(Inserted(cells, c, x)) == Inserted(Keys(cells), c, x.key)
  {
    var a, b := Keys(Inserted(cells, c, x)), Inserted(Keys(cells), c, x.key);
    assert |a| == |b|;
    forall j | 0 <= j < |a| ensures a[j] == b[j] {
      if j < c {
      } else if j == c {
      } else {
        assert a[j] == cells[j - 1].key;
      }
    }
  }

  /**
   * Placing an absent key at the position the search returns keeps the keys
   * strictly increasing.
   */
  lemma InsertKeepsOrder(ks: seq<Key>, key: Key)
    requires StrictlyIncreasing(ks) && key !in ks
    ensures StrictlyIncreasing(Inserted(ks, FirstAtLeast(ks, key), key))
  {
    var c := FirstAtLeast(ks, key);
    FirstAtLeastFindsKey(ks, key);
    var r := Inserted(ks, c, key);
    forall i, j | 0 <= i < j < |r| ensures r[i] < r[j] {
      if j < c {
        assert r[i] == ks[i] && r[j] == ks[j];
      } else if j == c {
        assert r[i] == ks[i];
      } else if i < c {
        assert r[i] == ks[i] && r[j] == ks[j - 1];
      } else if i == c {
        assert r[j] == ks[j - 1];
      } else {
        assert r[i] == ks[i - 1] && r[j] == ks[j - 1];
      }
    }
  }

  /**
   * get_node_max_key: the key of a leaf's last cell, or an internal node's last
   * separator.  On a sorted leaf it is the largest key the leaf holds.
   */
  function GetNodeMaxKey(n: Node): (k: Key)
    requires n.Leaf? ==> |n.cells| > 0
    requires n.Internal? ==> 0 < n.numKeys <= |n.children|
    ensures n.Leaf? ==> k in Keys(n.cells)
    ensures n.Leaf? && StrictlyIncreasing(Keys(n.cells)) ==>
              forall i :: 0 <= i < |n.cells| ==> n.cells[i].key <= k
    ensures n.Internal? ==> k in SeparatorKeys(n)
  {
    if n.Leaf? then
      assert Keys(n.cells)[|n.cells| - 1] == n.cells[|n.cells| - 1].key;
      n.cells[|n.cells| - 1].key
    else
      assert SeparatorKeys(n)[n.numKeys - 1] == n.children[n.numKeys - 1].key;
      n.children[n.numKeys - 1].key
  }

  /** Node `n` with the key of cell slot `i` set to `k`, as update_internal_node_key writes it. */
  function WithKey(n: Node, i: nat, k: Key): (m: Node)
    requires n.Internal? && i < |n.children|
    ensures m.Internal? && |m.children| == |n.children|
    ensures m.isRoot == n.isRoot && m.parent == n.parent && m.numKeys == n.numKeys && m.rightChild == n.rightChild
    ensures m.children[i] == ChildCell(n.children[i].child, k)
    ensures forall j :: 0 <= j < |n.children| && j != i ==> m.children[j] == n.children[j]
  {
    n.(children := n.children[i := n.children[i].(key := k)])
  }

  /**
   * The parent after internal_node_insert adds page `child`, whose largest key
   * is `childMax`, the right child's largest key being `rightMax`: a child
   * above the right child's keys becomes the new right child and the old one
   * moves into slot numKeys; otherwise the child's cell goes in at the search
   * position for `childMax`, the later live cells one slot to the right.
   */
  function InsertChild(n: Node, child: nat, childMax: Key, rightMax: Key): (m: Node)
    requires n.Internal? && n.numKeys < |n.children|
    ensures m.Internal? && m.numKeys == n.numKeys + 1 && |m.children| == |n.children|
    ensures m.isRoot == n.isRoot && m.parent == n.parent
  {
    var nk := n.numKeys;
    if childMax > rightMax then
      n.(numKeys := nk + 1,
         children := n.children[nk := ChildCell(n.rightChild, rightMax)],
         rightChild := child)
    else
      var index := FirstAtLeast(SeparatorKeys(n), childMax);
      n.(numKeys := nk + 1,
         children := Inserted(n.children[..nk], index, ChildCell(child, childMax)) + n.children[nk + 1..])
  }

  /**
   * Where the split puts virtual cell `i` of the leafMaxCells + 1 cells: index
   * `i % leftSplitCount` of its destination is `i` itself in the left leaf and
   * `i - leftSplitCount` in the right one.
   */
  lemma SplitPlacement(cfg: Config, i: nat)
    requires cfg.Valid() && i <= cfg.leafMaxCells
    ensures i < cfg.leftSplitCount ==> i % cfg.leftSplitCount == i
    ensures i >= cfg.leftSplitCount ==>
              i % cfg.leftSplitCount == i - cfg.leftSplitCount < cfg.rightSplitCount
  {
    var l := cfg.leftSplitCount;
    if i >= l {
      var d := i - l;
      assert 0 <= d < cfg.rightSplitCount <= l;
      assert i == 1 * l + d;
    }
  }
}
