/**
 * The table: the pager and the root page number, with the find, scan and
 * insert operations that read and rewrite the B+tree its pages hold.  Every
 * page is re-read through the pager (GetPage) and written back (WritePage)
 * where the C code writes through the buffer get_page returned.
 */
module Table {
  import opened Wrappers
  import opened Node
  import opened Runs
  import opened Tree
  import Pager

  /** The fatal conditions that end the process in the middle of an operation. */
  datatype FatalError = OutOfBounds | InternalNodeOverflow

  /** How an operation ended: it returned, or the process exited. */
  datatype Status = Done | Exit(reason: FatalError)

  /**
   * How an insert of the absent `key` ends: a leaf with room takes the cell;
   * a full leaf needs a new page (two when the root leaf splits), and a page
   * number at or beyond the cache capacity is fatal; a child split under a
   * root that already holds the key limit is fatal too.
   */
  ghost function InsertOutcome(cfg: Config, pages: seq<Node>, numPages: nat, key: Key): Status
    requires ValidTree(cfg, pages, numPages)
  {
    var leaf := pages[LeafPages(pages)[Route(pages, key)]];
    if |leaf.cells| < cfg.leafMaxCells then Done
    else if numPages >= Pager.TABLE_MAX_PAGES then Exit(OutOfBounds)
    else if pages[0].Leaf? then
      if numPages + 1 >= Pager.TABLE_MAX_PAGES then Exit(OutOfBounds) else Done
    else if pages[0].numKeys >= cfg.internalMaxCells then Exit(InternalNodeOverflow)
    else Done
  }

  /** How many pages a completed insert of `key` takes into use: none, one new leaf, or a new leaf and the moved root. */
  ghost function PagesAdded(cfg: Config, pages: seq<Node>, numPages: nat, key: Key): nat
    requires ValidTree(cfg, pages, numPages)
  {
    var leaf := pages[LeafPages(pages)[Route(pages, key)]];
    if |leaf.cells| < cfg.leafMaxCells then 0
    else if pages[0].Leaf? then 2
    else 1
  }

  /**
   * internal_node_find_child: the binary search over the separators of an
   * internal node.  On sorted separators it returns the first one at least
   * `key`, or numKeys (the right child) when there is none.
   */
  method InternalNodeFindChild(node: Node, key: Key) returns (index: nat)
    requires node.Internal? && node.numKeys <= |node.children|
    ensures index <= node.numKeys
    ensures StrictlyIncreasing(SeparatorKeys(node)) ==> index == FirstAtLeast(SeparatorKeys(node), key)
  {
    var minIndex := 0;
    var maxIndex := node.numKeys;
    while minIndex != maxIndex
      invariant minIndex <= maxIndex <= node.numKeys
      invariant StrictlyIncreasing(SeparatorKeys(node)) ==>
                  && (forall t :: 0 <= t < minIndex ==> node.children[t].key < key)
                  && (forall t :: maxIndex <= t < node.numKeys ==> node.children[t].key >= key)
      decreases maxIndex - minIndex
    {
      var index := (minIndex + maxIndex) / 2;
      var keyToRight := node.children[index].key;
      if keyToRight >= key {
        maxIndex := index;
      } else {
        minIndex := index + 1;
      }
    }
    index := minIndex;
    if StrictlyIncreasing(SeparatorKeys(node)) {
      FirstAtLeastUnique(SeparatorKeys(node), key, index);
    }
  }

  /**
   * update_internal_node_key: the key of the slot the search for `oldKey`
   * finds is set to `newKey`.  On sorted separators that is the separator
   * equal to `oldKey` when there is one; when `oldKey` is above every
   * separator (the right child's old largest key) it is slot numKeys, which
   * is no live separator, so the live separators stay as they were.
   */
  method UpdateInternalNodeKey(node: Node, oldKey: Key, newKey: Key) returns (updated: Node)
    requires node.Internal? && node.numKeys < |node.children|
    ensures updated.Internal? && updated.numKeys == node.numKeys && updated.rightChild == node.rightChild
    ensures updated.isRoot == node.isRoot && updated.parent == node.parent
    ensures |updated.children| == |node.children|
    ensures forall i :: 0 <= i < |node.children| ==> updated.children[i].child == node.children[i].child
    ensures StrictlyIncreasing(SeparatorKeys(node)) ==>
              updated == WithKey(node, FirstAtLeast(SeparatorKeys(node), oldKey), newKey)
    ensures StrictlyIncreasing(SeparatorKeys(node)) && oldKey in SeparatorKeys(node) ==>
              forall i :: 0 <= i < node.numKeys ==>
                updated.children[i].key == if node.children[i].key == oldKey then newKey else node.children[i].key
    ensures StrictlyIncreasing(SeparatorKeys(node)) && (forall i :: 0 <= i < node.numKeys ==> node.children[i].key < oldKey) ==>
              SeparatorKeys(updated) == SeparatorKeys(node) && updated.children[node.numKeys].key == newKey
  {
    var oldChildIndex := InternalNodeFindChild(node, oldKey);
    updated := WithKey(node, oldChildIndex, newKey);
    var seps := SeparatorKeys(node);
    if StrictlyIncreasing(seps) {
      FirstAtLeastFindsKey(seps, oldKey);
      if oldKey in seps {
        forall i | 0 <= i < node.numKeys && node.children[i].key == oldKey ensures i == oldChildIndex {
          assert seps[i] == seps[oldChildIndex];
        }
      }
      if forall i :: 0 <= i < node.numKeys ==> node.children[i].key < oldKey {
        FirstAtLeastUnique(seps, oldKey, node.numKeys);
        assert SeparatorKeys(updated) == seps;
      }
    }
  }

  /**
   * The shift loop of leaf_node_insert on a leaf with room: from the end,
   * each cell at or after position `c` moves one slot to the right, and `x`
   * is written into slot `c`.
   */
  method InsertCell(cells: seq<Cell>, c: nat, x: Cell) returns (shifted: seq<Cell>)
    requires c <= |cells|
    ensures shifted == Inserted(cells, c, x)
  {
    // The live cells and the free slot after them.
    shifted := cells + [ZeroCell];
    var i := |cells|;
    while i > c
      invariant c <= i <= |cells| && |shifted| == |cells| + 1
      invariant forall t :: 0 <= t < i ==> shifted[t] == cells[t]
      invariant forall t :: i < t <= |cells| ==> shifted[t] == cells[t - 1]
    {
      shifted := shifted[i := shifted[i - 1]];
      i := i - 1;
    }
    shifted := shifted[c := x];
  }

  /**
   * The shift loop of internal_node_insert: of the `numKeys` live cell slots
   * (and the free one after them), those from `index` on move one slot to
   * the right and `cell` goes into slot `index`; the later slots are kept.
   */
  method InsertChildCell(children: seq<ChildCell>, numKeys: nat, index: nat, cell: ChildCell) returns (shifted: seq<ChildCell>)
    requires index <= numKeys < |children|
    ensures shifted == Inserted(children[..numKeys], index, cell) + children[numKeys + 1..]
  {
    shifted := children;
    var i := numKeys;
    while i > index
      invariant index <= i <= numKeys && |shifted| == |children|
      invariant forall t :: 0 <= t < |shifted| && (t <= i || t > numKeys) ==> shifted[t] == children[t]
      invariant forall t :: i < t <= numKeys ==> shifted[t] == children[t - 1]
    {
      shifted := shifted[i := shifted[i - 1]];
      i := i - 1;
    }
    shifted := shifted[index := cell];
    assert shifted == Inserted(children[..numKeys], index, cell) + children[numKeys + 1..];
  }

  /**
   * The redistribution loop of leaf_node_split_and_insert over a full
   * leaf's cells.  From the right, virtual cell i of the leafMaxCells + 1
   * cells (the old ones with `x` at position c) goes to slot
   * i % leftSplitCount of the new leaf when i is at least leftSplitCount,
   * else to slot i of the old leaf.  The old leaf's slots are read while
   * they are being overwritten, which is sound because every write so far
   * is to the right of the slots still to be read.  The two leaves end up
   * with the sorted cells cut after the first leftSplitCount.
   */
  method SplitCells(cfg: Config, oldCells: seq<Cell>, c: nat, x: Cell) returns (left: seq<Cell>, right: seq<Cell>)
    requires cfg.Valid() && |oldCells| == cfg.leafMaxCells && c <= cfg.leafMaxCells
    ensures left == Inserted(oldCells, c, x)[..cfg.leftSplitCount]
    ensures right == Inserted(oldCells, c, x)[cfg.leftSplitCount..]
  {
    ghost var all := Inserted(oldCells, c, x);
    // The old leaf's slots and the new (zero-filled) leaf's.
    var leftSlots := oldCells;
    var rightSlots := seq(cfg.rightSplitCount, _ => ZeroCell);
    var i: int := cfg.leafMaxCells;
    while i >= 0
      invariant -1 <= i <= cfg.leafMaxCells
      invariant |leftSlots| == cfg.leafMaxCells && |rightSlots| == cfg.rightSplitCount
      invariant forall t :: 0 <= t < cfg.leafMaxCells && (t <= i || t >= cfg.leftSplitCount) ==>
                  leftSlots[t] == oldCells[t]
      invariant forall t :: i < t < cfg.leftSplitCount ==> leftSlots[t] == all[t]
      invariant forall t :: cfg.leftSplitCount <= t <= cfg.leafMaxCells && i < t ==>
                  rightSlots[t - cfg.leftSplitCount] == all[t]
      decreases i + 1
    {
      SplitPlacement(cfg, i);
      var indexWithinNode := i % cfg.leftSplitCount;
      var cell;
      if i == c {
        cell := x;
      } else if i > c {
        cell := leftSlots[i - 1];
      } else {
        cell := leftSlots[i];
      }
      if i >= cfg.leftSplitCount {
        rightSlots := rightSlots[indexWithinNode := cell];
      } else {
        leftSlots := leftSlots[indexWithinNode := cell];
      }
      i := i - 1;
    }
    left := leftSlots[..cfg.leftSplitCount];
    right := rightSlots;
  }

  class Table {
    /** The page cache this table reads and writes its nodes through. */
    const pager: Pager.Pager
    /** The page of the root node, fixed at 0 when the table is opened. */
    var rootPageNum: nat

    /** The invariant between operations: the root at page 0 of a valid tree. */
    ghost predicate Valid()
      reads this, pager, pager.pages
    {
      && pager.Valid()
      && rootPageNum == 0
      && ValidTree(pager.cfg, pager.contents, pager.numPages)
    }

    /** The cells a full scan yields, in order. */
    ghost function Entries(): seq<Cell>
      reads this, pager, pager.pages
      requires Valid()
    {
      Tree.Entries(pager.contents)
    }

    /**
     * db_open, once pager_open has read the file into `disk`: the root is page
     * 0, and a file without pages gets an empty root leaf there.
     */
    constructor (cfg: Config, disk: seq<Node>)
      ensures fresh(pager) && fresh(pager.pages) && rootPageNum == 0
      ensures pager.Valid() && pager.cfg == cfg && pager.disk == disk
      ensures disk == [] ==>
                pager.numPages == 1 && pager.contents == Pager.FileView(cfg, disk)[0 := Leaf(true, 0, 0, [])]
      ensures disk != [] ==> pager.numPages == |disk| && pager.contents == Pager.FileView(cfg, disk)
      ensures cfg.Valid() && disk == [] ==> Valid() && Entries() == []
      ensures disk != [] && ValidTree(cfg, Pager.FileView(cfg, disk), |disk|) ==> Valid()
    {
      var p := new Pager.Pager(cfg, disk);
      pager := p;
      rootPageNum := 0;
      new;
      if p.numPages == 0 {
        var rootNode := p.GetPage(0);
        rootNode := InitializeLeafNode(rootNode);
        rootNode := SetNodeRoot(rootNode, true);
        p.WritePage(0, rootNode);
        if cfg.Valid() {
          EmptyTree(cfg, p.contents);
        }
      }
    }

    /**
     * leaf_node_find: a cursor on leaf page `pageNum` at the position the
     * binary search finds: on sorted cells, the first cell whose key is at
     * least `key`, or one past the last cell.
     */
    method LeafNodeFind(pageNum: nat, key: Key) returns (cursor: Cursor)
      requires pager.Valid() && pageNum < pager.numPages && pageNum < Pager.TABLE_MAX_PAGES
      requires pager.contents[pageNum].Leaf?
      modifies pager, pager.pages
      ensures pager.Valid() && pager.contents == old(pager.contents) && pager.numPages == old(pager.numPages)
      ensures fresh(cursor) && cursor.table == this && cursor.pageNum == pageNum && !cursor.endOfTable
      ensures cursor.cellNum <= |pager.contents[pageNum].cells|
      ensures StrictlyIncreasing(Keys(pager.contents[pageNum].cells)) ==>
                cursor.cellNum == FirstAtLeast(Keys(pager.contents[pageNum].cells), key)
    {
      var node := pager.GetPage(pageNum);
      var numCells := |node.cells|;
      ghost var sorted := StrictlyIncreasing(Keys(node.cells));
      var minIndex := 0;
      var onePastMaxIndex := numCells;
      while onePastMaxIndex != minIndex
        invariant minIndex <= onePastMaxIndex <= numCells
        invariant sorted ==>
                    && (forall t :: 0 <= t < minIndex ==> node.cells[t].key < key)
                    && (forall t :: onePastMaxIndex <= t < numCells ==> node.cells[t].key > key)
        decreases onePastMaxIndex - minIndex
      {
        var index := (minIndex + onePastMaxIndex) / 2;
        var keyAtIndex := node.cells[index].key;
        if key == keyAtIndex {
          cursor := new Cursor(this, pageNum, index);
          if sorted {
            assert forall t :: 0 <= t < index ==> Keys(node.cells)[t] < Keys(node.cells)[index];
            FirstAtLeastUnique(Keys(node.cells), key, index);
          }
          return;
        }
        if key < keyAtIndex {
          onePastMaxIndex := index;
        } else {
          minIndex := index + 1;
        }
      }
      cursor := new Cursor(this, pageNum, minIndex);
      if sorted {
        FirstAtLeastUnique(Keys(node.cells), key, minIndex);
      }
    }

    /**
     * internal_node_find: from internal page `pageNum`, follow the child the
     * search picks down to a leaf, and search that leaf.  `h` bounds the
     * height of the subtree, which is what makes the descent end.
     */
    method InternalNodeFind(pageNum: nat, key: Key, ghost h: nat) returns (cursor: Cursor)
      requires pager.Valid() && Descends(pager.contents, pager.numPages, pageNum, h)
      requires pager.contents[pageNum].Internal?
      modifies pager, pager.pages
      ensures pager.Valid() && pager.contents == old(pager.contents) && pager.numPages == old(pager.numPages)
      ensures fresh(cursor) && cursor.table == this && !cursor.endOfTable
      ensures cursor.pageNum == FindLeaf(old(pager.contents), old(pager.numPages), pageNum, h, key)
      ensures cursor.cellNum <= |pager.contents[cursor.pageNum].cells|
      ensures StrictlyIncreasing(Keys(pager.contents[cursor.pageNum].cells)) ==>
                cursor.cellNum == FirstAtLeast(Keys(pager.contents[cursor.pageNum].cells), key)
      decreases h
    {
      var node := pager.GetPage(pageNum);
      var childIndex := InternalNodeFindChild(node, key);
      var childNum := ChildAt(node, childIndex);
      var child := pager.GetPage(childNum);
      match GetNodeType(child)
      case NodeLeaf =>
        cursor := LeafNodeFind(childNum, key);
      case NodeInternal =>
        cursor := InternalNodeFind(childNum, key, h - 1);
    }

    /**
     * table_find: a cursor at the position of `key` in the scan order: on
     * the key when it is present, else where it would be inserted.  The
     * cursor is on the leaf the search routes to.
     */
    method TableFind(key: Key) returns (cursor: Cursor)
      requires Valid()
      modifies pager, pager.pages
      ensures Valid() && pager.contents == old(pager.contents) && pager.numPages == old(pager.numPages)
      ensures fresh(cursor) && cursor.table == this && cursor.At(key) && !cursor.endOfTable
      ensures cursor.Position() == FirstAtLeast(Keys(Entries()), key)
      ensures key in Keys(Entries()) <==>
                cursor.Position() < |Entries()| && Entries()[cursor.Position()].key == key
    {
      ghost var pages := pager.contents;
      RootDescends(pager.cfg, pages, pager.numPages, key);
      EntriesSorted(pager.cfg, pages, pager.numPages);
      FlattenSorted(Leaves(pages, LeafPages(pages)));
      var rootNode := pager.GetPage(rootPageNum);
      if GetNodeType(rootNode) == NodeLeaf {
        cursor := LeafNodeFind(rootPageNum, key);
      } else {
        cursor := InternalNodeFind(rootPageNum, key, 1);
      }
      cursor.leafIndex := Route(pages, key);
      FoundCursor(pager.cfg, pages, pager.numPages, key, cursor.cellNum);
    }

    /** table_start: a cursor at the first cell of the scan, at its end exactly when the table is empty. */
    method TableStart() returns (cursor: Cursor)
      requires Valid()
      modifies pager, pager.pages
      ensures Valid() && pager.contents == old(pager.contents) && pager.numPages == old(pager.numPages)
      ensures fresh(cursor) && cursor.table == this && cursor.Valid()
      ensures cursor.Position() == 0
      ensures cursor.endOfTable <==> Entries() == []
      ensures !cursor.endOfTable ==> cursor.cellNum < |pager.contents[cursor.pageNum].cells|
    {
      cursor := TableFind(0);
      ghost var pages, numPages, leaf := pager.contents, pager.numPages, cursor.leafIndex;
      var pageNum, cellNum := cursor.pageNum, cursor.cellNum;
      StartOn(leaf, pageNum, cellNum);
      var node := pager.GetPage(pageNum);
      var numCells := |node.cells|;
      assert pager.contents == pages && pager.numPages == numPages;
      cursor.endOfTable := numCells == 0;
    }

    /** StartCursor on this table's pages. */
    lemma StartOn(leafIndex: nat, pageNum: nat, cellNum: nat)
      requires Valid()
      requires leafIndex == Route(pager.contents, 0) && pageNum == LeafPages(pager.contents)[leafIndex]
      requires cellNum == FirstAtLeast(Keys(pager.contents[pageNum].cells), 0)
      ensures var pages := pager.contents;
              var empty := pages[pageNum].cells == [];
              && CursorOn(pages, leafIndex, pageNum, cellNum, empty)
              && ScanPosition(pages, leafIndex, cellNum) == 0
              && (empty <==> Entries() == [])
              && (!empty ==> cellNum < |pages[pageNum].cells|)
    {
      StartCursor(pager.cfg, pager.contents, pager.numPages, leafIndex, pageNum, cellNum);
    }

    /**
     * leaf_node_insert at the cursor table_find returned for the absent
     * `key`: a leaf with room shifts the cells from the cursor on one slot to
     * the right and takes the new cell there; a full leaf is split.  When it
     * completes the scan holds the new cell at its sorted position.
     */
    method LeafNodeInsert(cursor: Cursor, key: Key, value: Row) returns (status: Status)
      requires Valid() && cursor.table == this && cursor.At(key)
      requires key !in Keys(Entries())
      modifies pager, pager.pages
      ensures status == InsertOutcome(pager.cfg, old(pager.contents), old(pager.numPages), key)
      ensures status.Done? ==> Valid()
      ensures status.Done? ==>
                Entries() == Inserted(old(Entries()), FirstAtLeast(Keys(old(Entries())), key), Cell(key, value))
      ensures status.Done? ==>
                pager.numPages == old(pager.numPages) + PagesAdded(pager.cfg, old(pager.contents), old(pager.numPages), key)
      ensures |old(pager.contents)[cursor.pageNum].cells| < pager.cfg.leafMaxCells ==>
                var leaf := old(pager.contents)[cursor.pageNum];
                pager.contents == old(pager.contents)[cursor.pageNum :=
                  leaf.(cells := Inserted(leaf.cells, cursor.cellNum, Cell(key, value)))]
    {
      ghost var pages := pager.contents;
      var node := pager.GetPage(cursor.pageNum);
      var numCells := |node.cells|;
      if numCells >= pager.cfg.leafMaxCells {
        status := LeafNodeSplitAndInsert(cursor, key, value);
        return;
      }
      var c := cursor.cellNum;
      var cells := InsertCell(node.cells, c, Cell(key, value));
      TreeLeafInsert(pager.cfg, pages, pager.numPages, Cell(key, value));
      pager.WritePage(cursor.pageNum, node.(cells := cells));
      status := Done;
    }

    /**
     * leaf_node_split_and_insert: the full leaf's cells and the new cell are
     * spread over the old leaf (the first leftSplitCount) and a new leaf at
     * the first unused page (the rest), which follows it in the leaf chain.
     * A split root leaf gets a new root above it; otherwise the parent's
     * separator for the leaf is lowered and the new leaf is inserted into it.
     */
    method LeafNodeSplitAndInsert(cursor: Cursor, key: Key, value: Row) returns (status: Status)
      requires Valid() && cursor.table == this && key !in Keys(Entries())
      requires cursor.pageNum == LeafPages(pager.contents)[Route(pager.contents, key)]
      requires cursor.cellNum == FirstAtLeast(Keys(pager.contents[cursor.pageNum].cells), key)
      requires |pager.contents[cursor.pageNum].cells| >= pager.cfg.leafMaxCells
      modifies pager, pager.pages
      ensures status == InsertOutcome(pager.cfg, old(pager.contents), old(pager.numPages), key)
      ensures status.Done? ==> Valid()
      ensures status.Done? ==>
                Entries() == Inserted(old(Entries()), FirstAtLeast(Keys(old(Entries())), key), Cell(key, value))
      ensures status.Done? ==>
                pager.numPages == old(pager.numPages) + PagesAdded(pager.cfg, old(pager.contents), old(pager.numPages), key)
    {
      ghost var pages0, n0 := pager.contents, pager.numPages;
      var cfg := pager.cfg;
      var c := cursor.cellNum;
      var q := cursor.pageNum;
      ghost var x := Cell(key, value);
      RoutedLeaf(cfg, pages0, n0, key);
      var oldNode := pager.GetPage(q);
      var oldMax := GetNodeMaxKey(oldNode);
      MaxKeyOfLeaf(oldNode);
      var newPageNum := pager.GetUnusedPageNum();
      if newPageNum >= Pager.TABLE_MAX_PAGES {
        return Exit(OutOfBounds);
      }
      var leftNode := SplitIntoNewLeaf(q, oldNode, c, Cell(key, value), newPageNum);
      if oldNode.isRoot {
        status := NewRootAfterSplit(pages0, n0, x, newPageNum);
      } else {
        status := InsertIntoParent(pages0, n0, x, q, oldNode.parent, oldMax, leftNode, newPageNum);
      }
    }

    /**
     * The split proper of leaf_node_split_and_insert: the new leaf at
     * `newPageNum` inherits the parent and successor of leaf `q`, which now
     * points to it, and the two take the halves SplitCells computes.
     */
    method SplitIntoNewLeaf(q: nat, oldNode: Node, c: nat, x: Cell, newPageNum: nat) returns (left: Node)
      requires pager.Valid() && pager.cfg.Valid()
      requires q < pager.numPages && q < Pager.TABLE_MAX_PAGES
      requires newPageNum == pager.numPages && newPageNum < Pager.TABLE_MAX_PAGES
      requires oldNode == pager.contents[q] && oldNode.Leaf?
      requires |oldNode.cells| == pager.cfg.leafMaxCells && c <= pager.cfg.leafMaxCells
      modifies pager, pager.pages
      ensures pager.Valid() && pager.numPages == old(pager.numPages) + 1
      ensures pager.contents == SplitLeaf(pager.cfg, old(pager.contents), q, newPageNum, c, x)
      ensures left == pager.contents[q]
    {
      var newNode := pager.GetPage(newPageNum);
      newNode := InitializeLeafNode(newNode);
      newNode := SetParent(newNode, oldNode.parent);
      newNode := newNode.(nextLeaf := oldNode.nextLeaf);
      var leftCells, rightCells := SplitCells(pager.cfg, oldNode.cells, c, x);
      newNode := newNode.(cells := rightCells);
      pager.WritePage(newPageNum, newNode);
      left := oldNode.(nextLeaf := newPageNum, cells := leftCells);
      pager.WritePage(q, left);
    }

    /**
     * The root end of leaf_node_split_and_insert, after the split proper of
     * the full root leaf of the tree `pages0` into page 0 and the new page
     * `newPageNum`: create_new_root, which completes when page numbers are
     * left for the moved root, and then the tree is valid over two more
     * pages and its scan has `x` at its sorted place.
     */
    method NewRootAfterSplit(ghost pages0: seq<Node>, ghost n0: nat, ghost x: Cell, newPageNum: nat) returns (status: Status)
      requires pager.Valid() && rootPageNum == 0 && ValidTree(pager.cfg, pages0, n0) && |pages0| == Pager.TABLE_MAX_PAGES
      requires pages0[0].Leaf? && x.key !in Keys(Tree.Entries(pages0)) && |pages0[0].cells| == pager.cfg.leafMaxCells
      requires n0 < Pager.TABLE_MAX_PAGES
      requires pager.contents == SplitLeaf(pager.cfg, pages0, 0, n0, FirstAtLeast(Keys(pages0[0].cells), x.key), x)
      requires pager.numPages == n0 + 1 && newPageNum == n0
      modifies pager, pager.pages
      ensures status == InsertOutcome(pager.cfg, pages0, n0, x.key)
      ensures status.Done? ==> pager.Valid() && ValidTree(pager.cfg, pager.contents, pager.numPages)
      ensures status.Done? ==> pager.numPages == n0 + PagesAdded(pager.cfg, pages0, n0, x.key)
      ensures status.Done? ==>
                Tree.Entries(pager.contents) == Inserted(Tree.Entries(pages0), FirstAtLeast(Keys(Tree.Entries(pages0)), x.key), x)
    {
      ghost var pages1 := pager.contents;
      if n0 + 1 < Pager.TABLE_MAX_PAGES {
        TreeRootSplit(pager.cfg, pages0, n0, x);
      }
      assert pages1[0].cells == Inserted(pages0[0].cells, FirstAtLeast(Keys(pages0[0].cells), x.key), x)[..pager.cfg.leftSplitCount];
      status := CreateNewRoot(newPageNum);
      assert status.Done? ==> pager.contents == NewRoot(pager.cfg, pages1, n0 + 1, n0);
    }

    /**
     * The non-root end of leaf_node_split_and_insert, after the split proper
     * of the routed full leaf `q` of the tree `pages0` into `q` and the new
     * page `newPageNum`: the root parent is updated and takes the new leaf.
     * It completes unless the parent is at the key limit, and then the tree
     * is valid over one more page and its scan has `x` at its sorted place.
     */
    method InsertIntoParent(ghost pages0: seq<Node>, ghost n0: nat, ghost x: Cell, ghost q: nat,
                            parentPageNum: nat, oldMax: Key, leftNode: Node, newPageNum: nat) returns (status: Status)
      requires pager.Valid() && ValidTree(pager.cfg, pages0, n0) && |pages0| == Pager.TABLE_MAX_PAGES
      requires pages0[0].Internal? && n0 < Pager.TABLE_MAX_PAGES && x.key !in Keys(Tree.Entries(pages0))
      requires q == LeafPages(pages0)[Route(pages0, x.key)] && |pages0[q].cells| == pager.cfg.leafMaxCells
      requires pager.contents == SplitLeaf(pager.cfg, pages0, q, n0, FirstAtLeast(Keys(pages0[q].cells), x.key), x)
      requires pager.numPages == n0 + 1 && newPageNum == n0
      requires parentPageNum == pages0[q].parent && oldMax == GetNodeMaxKey(pages0[q]) && leftNode == pager.contents[q]
      modifies pager, pager.pages
      ensures status == InsertOutcome(pager.cfg, pages0, n0, x.key)
      ensures status.Done? ==> pager.Valid() && ValidTree(pager.cfg, pager.contents, pager.numPages)
      ensures status.Done? ==> pager.numPages == n0 + PagesAdded(pager.cfg, pages0, n0, x.key)
      ensures status.Done? ==>
                Tree.Entries(pager.contents) == Inserted(Tree.Entries(pages0), FirstAtLeast(Keys(Tree.Entries(pages0)), x.key), x)
    {
      ChildSplitFacts(pager.cfg, pages0, n0, x);
      if pages0[0].numKeys < pager.cfg.internalMaxCells {
        TreeChildSplit(pager.cfg, pages0, n0, x);
      }
      var newMax := GetNodeMaxKey(leftNode);
      status := UpdateParentAndInsert(parentPageNum, oldMax, newMax, newPageNum);
    }

    /**
     * The non-root end of leaf_node_split_and_insert: the parent's separator
     * for the split leaf, found by its old largest key, becomes its new
     * largest key, and the new leaf is inserted into the parent.
     */
    method UpdateParentAndInsert(parentPageNum: nat, oldMax: Key, newMax: Key, childPageNum: nat) returns (status: Status)
      requires pager.Valid()
      requires parentPageNum < pager.numPages && parentPageNum < Pager.TABLE_MAX_PAGES
      requires childPageNum < pager.numPages && childPageNum < Pager.TABLE_MAX_PAGES
      requires var parent := pager.contents[parentPageNum];
               && parent.Internal? && parent.numKeys < |parent.children|
               && StrictlyIncreasing(SeparatorKeys(parent))
               && StrictlyIncreasing(SeparatorKeys(WithKey(parent, FirstAtLeast(SeparatorKeys(parent), oldMax), newMax)))
               && parent.rightChild < pager.numPages && parent.rightChild < Pager.TABLE_MAX_PAGES
               && parent.rightChild != parentPageNum && childPageNum != parentPageNum
               && HasMaxKey(pager.contents[childPageNum]) && HasMaxKey(pager.contents[parent.rightChild])
      modifies pager, pager.pages
      ensures pager.Valid() && pager.numPages == old(pager.numPages)
      ensures status == if old(pager.contents[parentPageNum].numKeys) >= pager.cfg.internalMaxCells
                        then Exit(InternalNodeOverflow) else Done
      ensures status.Done? ==>
                var pages := old(pager.contents);
                var parent := WithKey(pages[parentPageNum], FirstAtLeast(SeparatorKeys(pages[parentPageNum]), oldMax), newMax);
                pager.contents == pages[parentPageNum := InsertChild(parent, childPageNum,
                                         GetNodeMaxKey(pages[childPageNum]), GetNodeMaxKey(pages[parent.rightChild]))]
    {
      var parent := pager.GetPage(parentPageNum);
      parent := UpdateInternalNodeKey(parent, oldMax, newMax);
      pager.WritePage(parentPageNum, parent);
      status := InternalNodeInsert(parentPageNum, childPageNum);
    }

    /**
     * create_new_root: the root leaf is copied to the first unused page as a
     * non-root left child, and page 0 becomes an internal root over it and
     * the right child, separated by the left child's largest key.
     */
    method CreateNewRoot(rightChildPageNum: nat) returns (status: Status)
      requires pager.Valid() && rootPageNum == 0 && 0 < pager.cfg.internalSlots
      requires pager.contents[0].Leaf? && pager.contents[0].cells != []
      requires 0 < rightChildPageNum < pager.numPages && rightChildPageNum < Pager.TABLE_MAX_PAGES
      modifies pager, pager.pages
      ensures status == if old(pager.numPages) >= Pager.TABLE_MAX_PAGES then Exit(OutOfBounds) else Done
      ensures status.Done? ==> pager.Valid() && pager.numPages == old(pager.numPages) + 1
      ensures status.Done? ==>
                pager.contents == NewRoot(pager.cfg, old(pager.contents), old(pager.numPages), rightChildPageNum)
    {
      ghost var pages0 := pager.contents;
      var root := pager.GetPage(rootPageNum);
      var rightChild := pager.GetPage(rightChildPageNum);
      var leftChildPageNum := pager.GetUnusedPageNum();
      if leftChildPageNum >= Pager.TABLE_MAX_PAGES {
        return Exit(OutOfBounds);
      }
      var leftChild := pager.GetPage(leftChildPageNum);
      // The left child takes the old root's contents.
      leftChild := SetNodeRoot(root, false);
      root := InitializeInternalNode(pager.cfg, root);
      root := SetNodeRoot(root, true);
      var leftChildMaxKey := GetNodeMaxKey(leftChild);
      root := root.(numKeys := 1,
                    children := root.children[0 := ChildCell(leftChildPageNum, leftChildMaxKey)],
                    rightChild := rightChildPageNum);
      leftChild := SetParent(leftChild, rootPageNum);
      rightChild := SetParent(rightChild, rootPageNum);
      pager.WritePage(leftChildPageNum, leftChild);
      pager.WritePage(rootPageNum, root);
      pager.WritePage(rightChildPageNum, rightChild);
      status := Done;
    }

    /**
     * internal_node_insert: page `childPageNum` joins internal page
     * `parentPageNum`.  The key count goes up first; a parent already at the
     * key limit is then fatal.  Otherwise the parent becomes InsertChild of
     * the old parent with the largest keys of the child and the right child.
     */
    method InternalNodeInsert(parentPageNum: nat, childPageNum: nat) returns (status: Status)
      requires pager.Valid()
      requires parentPageNum < pager.numPages && parentPageNum < Pager.TABLE_MAX_PAGES
      requires childPageNum < pager.numPages && childPageNum < Pager.TABLE_MAX_PAGES
      requires var parent := pager.contents[parentPageNum];
               && parent.Internal? && parent.numKeys < |parent.children|
               && StrictlyIncreasing(SeparatorKeys(parent))
               && parent.rightChild < pager.numPages && parent.rightChild < Pager.TABLE_MAX_PAGES
               && parent.rightChild != parentPageNum
               && HasMaxKey(pager.contents[childPageNum]) && HasMaxKey(pager.contents[parent.rightChild])
      modifies pager, pager.pages
      ensures pager.Valid() && pager.numPages == old(pager.numPages)
      ensures status == if old(pager.contents[parentPageNum].numKeys) >= pager.cfg.internalMaxCells
                        then Exit(InternalNodeOverflow) else Done
      ensures status.Done? ==>
                var pages := old(pager.contents);
                var parent := pages[parentPageNum];
                pager.contents == pages[parentPageNum := InsertChild(parent, childPageNum,
                                         GetNodeMaxKey(pages[childPageNum]), GetNodeMaxKey(pages[parent.rightChild]))]
    {
      ghost var pages0 := pager.contents;
      var parent := pager.GetPage(parentPageNum);
      var child := pager.GetPage(childPageNum);
      var childMaxKey := GetNodeMaxKey(child);
      var index := InternalNodeFindChild(parent, childMaxKey);
      var originalNumKeys := parent.numKeys;
      // The raised key count reaches the page with the write below; on the
      // fatal path the process ends and the page is never flushed.
      parent := parent.(numKeys := originalNumKeys + 1);
      if originalNumKeys >= pager.cfg.internalMaxCells {
        return Exit(InternalNodeOverflow);
      }
      var rightChildPageNum := parent.rightChild;
      var rightChild := pager.GetPage(rightChildPageNum);
      var rightChildMaxKey := GetNodeMaxKey(rightChild);
      var children := parent.children;
      if childMaxKey > rightChildMaxKey {
        // The new child becomes the right child; the old one takes slot numKeys.
        children := children[originalNumKeys := ChildCell(rightChildPageNum, rightChildMaxKey)];
        parent := parent.(children := children, rightChild := childPageNum);
      } else {
        children := InsertChildCell(children, originalNumKeys, index, ChildCell(childPageNum, childMaxKey));
        parent := parent.(children := children);
      }
      pager.WritePage(parentPageNum, parent);
      status := Done;
    }
  }

  /**
   * The cursor: a leaf page, a cell index in it and the end-of-scan flag.
   * The ghost `leafIndex` says which leaf of the scan order the page is.
   */
  class Cursor {
    const table: Table
    var pageNum: nat
    var cellNum: nat
    var endOfTable: bool
    ghost var leafIndex: nat

    /** The cursor is on a leaf of the valid table, as CursorOn says. */
    ghost predicate Valid()
      reads this, table, table.pager, table.pager.pages
    {
      && table.Valid()
      && CursorOn(table.pager.contents, leafIndex, pageNum, cellNum, endOfTable)
    }

    /** The index in the scan order of the cell the cursor is on. */
    ghost function Position(): nat
      reads this, table, table.pager, table.pager.pages
      requires Valid()
    {
      ScanPosition(table.pager.contents, leafIndex, cellNum)
    }

    /** The cursor is where table_find(key) leaves it: on the routed leaf, at the search position. */
    ghost predicate At(key: Key)
      reads this, table, table.pager, table.pager.pages
    {
      && Valid()
      && leafIndex == Route(table.pager.contents, key)
      && cellNum == FirstAtLeast(Keys(table.pager.contents[pageNum].cells), key)
    }

    constructor (table: Table, pageNum: nat, cellNum: nat)
      ensures this.table == table && this.pageNum == pageNum && this.cellNum == cellNum
      ensures !endOfTable && leafIndex == 0
    {
      this.table := table;
      this.pageNum := pageNum;
      this.cellNum := cellNum;
      endOfTable := false;
      leafIndex := 0;
    }

    /** cursor_value: the row of the cell the cursor is on, the scan's entry at its position. */
    method CursorValue() returns (row: Row)
      requires Valid() && cellNum < |table.pager.contents[pageNum].cells|
      modifies table.pager, table.pager.pages
      ensures Valid()
      ensures table.pager.contents == old(table.pager.contents) && table.pager.numPages == old(table.pager.numPages)
      ensures Position() < |table.Entries()| && row == table.Entries()[Position()].value
    {
      var page := table.pager.GetPage(pageNum);
      row := page.cells[cellNum].value;
      CursorCell(table.pager.contents, leafIndex, pageNum, cellNum);
    }

    /**
     * cursor_advance from a cell: the cursor moves one place on in the scan,
     * to the next cell of the leaf or the first of the next leaf, and past
     * the last leaf's last cell it is at the end.
     */
    method CursorAdvance()
      requires Valid() && cellNum < |table.pager.contents[pageNum].cells|
      modifies this, table.pager, table.pager.pages
      ensures Valid()
      ensures table.pager.contents == old(table.pager.contents) && table.pager.numPages == old(table.pager.numPages)
      ensures Position() == old(Position()) + 1
      ensures endOfTable <==> Position() == |table.Entries()|
      ensures !endOfTable ==> cellNum < |table.pager.contents[pageNum].cells|
    {
      var node := table.pager.GetPage(pageNum);
      // The new position, written back to the cursor below.
      var page, cell, atEnd := pageNum, cellNum + 1, endOfTable;
      ghost var leaf := leafIndex;
      if cell >= |node.cells| {
        var nextPageNum := node.nextLeaf;
        if nextPageNum == 0 {
          atEnd := true;
        } else {
          page := nextPageNum;
          cell := 0;
          leaf := leaf + 1;
        }
      }
      AdvanceCursor(table.pager.cfg, table.pager.contents, table.pager.numPages,
                    leafIndex, pageNum, cellNum, endOfTable, leaf, page, cell, atEnd);
      pageNum, cellNum, endOfTable, leafIndex := page, cell, atEnd, leaf;
    }
  }
}
