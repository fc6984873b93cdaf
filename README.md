# simple-db B+tree engine, in Dafny

This project models the storage engine of simple-db, a small SQLite-like
database written in C. The engine keeps one table of rows keyed by a 32-bit
id in a B+tree. The tree lives in fixed-size pages, which a pager caches.
The model covers:

- opening a table, whose root is always page 0 (an empty file gets an empty
  root leaf there);
- the two binary searches (`leaf_node_find`, `internal_node_find_child`) and
  the descent from the root (`table_find`, `internal_node_find`);
- the scan cursor (`table_start`, `cursor_value`, `cursor_advance`), which
  walks the chain of leaves;
- insertion: `leaf_node_insert`, the leaf split `leaf_node_split_and_insert`,
  `create_new_root`, `update_internal_node_key` and `internal_node_insert`.

The code is imperative, and so is the model:

- `Pager.Pager`, `Table.Table` and `Table.Cursor` are classes with the C
  structs' fields.
- Every loop of the modelled functions is a `while` loop with invariants.
- Each page is a typed `Node.Node`, a leaf or an internal node. The byte
  layout is not modelled.
- The layout constants (`LEAF_NODE_MAX_CELLS`, the two split counts,
  `INTERNAL_NODE_MAX_CELLS`) are a `Node.Config` parameter. The leaf capacity
  and the two split counts are derived from the page size in `table.c`'s
  companion files, which are not part of this model. The internal-node key
  limit does not depend on the page size: it is a small fixed constant, kept
  small for testing (c/db.h:125-126).

The pager holds a ghost view, `contents`, of what every page number reads
as. `Tree.ValidTree` is the invariant of the tree those pages hold:

- page 0 is the root;
- the root is either a leaf, or an internal node whose children are leaves;
- the leaves are chained in key order;
- every separator is the largest key of the child to its left;
- every child's parent pointer is page 0.

The invariant is stated for the trees the engine can build. It cannot build
a deeper tree, because a full internal node is a fatal error (see
`InsertOutcome`). `Tree.Entries` is the sequence of cells a full scan yields.
The operations are proved against it:

- a find lands on the key's sorted position in the scan;
- the cursor steps through the scan one entry at a time;
- every completed insert keeps the invariant and inserts the new cell into
  the scan at its sorted position.

Modules: `Wrappers` (Option), `Node` (pages as values and the pure helpers),
`Pager`, `Runs` (facts about sequences of sorted runs), `Tree` (the
invariant and the lemmas about it) and `Table` (the engine).

## Model

| member | source | states |
|---|---|---|
| `Table.Table.constructor` | table.c:7-22 | the root is page 0; an empty file's page 0 becomes an empty root leaf and the table is valid and empty; a non-empty file is kept as read |
| `Tree.EmptyTree` | table.c:14-19 | a single empty root leaf at page 0 is a valid tree whose scan is empty |
| `Pager.Pager.constructor` | c/db.h:42-49 | the cache is empty, and `num_pages` is the file's page count |
| `Pager.Pager.GetPage` | c/db.h:51 | returns what page n holds and makes it resident; no page changes; `num_pages` rises to cover n |
| `Pager.Pager.GetUnusedPageNum` | c/db.h:52 | returns `num_pages`; that page, when below the 100-page capacity, reads as zeroes |
| `Pager.Pager.WritePage` | c/db.h:46 | a write through a cached buffer: page n holds the node and nothing else changes |
| `Node.GetNodeMaxKey` | c/db.h:134 | a leaf's result is one of its keys and, on sorted keys, the largest; an internal node's is one of its separators |
| `Node.GetNodeType` | c/db.h:130 | the tag is `NodeLeaf` iff the page is a leaf and `NodeInternal` iff it is an internal node |
| `Node.SetNodeRoot` | c/db.h:133 | sets the root flag and keeps everything else: the node type, the parent, and a leaf's next leaf and cells or an internal node's key count, right child and cell slots |
| `Node.SetParent` | c/db.h:129 | sets the parent and keeps everything else: the node type, the root flag, and a leaf's next leaf and cells or an internal node's key count, right child and cell slots |
| `Node.InitializeLeafNode` | c/db.h:136 | an empty non-root leaf with no successor (next leaf 0), its parent field kept; its (empty) keys are trivially sorted |
| `Node.InitializeInternalNode` | c/db.h:143 | an empty non-root internal node: no live keys, right child 0, all cell slots present, its parent field kept |
| `Node.ChildAt` | c/db.h:148 | child i is the child of cell i for i < numKeys, and index numKeys is the right child |
| `Node.WithKey` | table.c:275 | only the key of slot i changes, to k; its child, every other slot, the key count, the right child and the header are kept |
| `Node.FirstAtLeast` | table.c:146-166 | the least index whose key is at least `key` (every earlier key is smaller), or the length |
| `Node.FirstAtLeastFindsKey` | table.c:103-130 | on strictly increasing keys the search position holds `key` iff `key` is present, and every later key is larger |
| `Node.Inserted` | table.c:179-188 | the sequence with `x` at position c: earlier elements kept, later ones one place to the right |
| `Node.InsertKeepsOrder` | table.c:169-189 | an absent key placed at its search position keeps the keys strictly increasing |
| `Node.KeysInserted` | table.c:186-187 | inserting a cell inserts its key at the same position |
| `Node.SplitPlacement` | table.c:208-216 | for i < LEFT, `i % LEFT` is i; for LEFT ≤ i ≤ MAX it is `i - LEFT`, which is below RIGHT |
| `Node.InsertChild` | table.c:278-311 | the parent after the insert: numKeys + 1, same slot count, same flags and parent |
| `Table.InternalNodeFindChild` | table.c:146-166 | index ≤ numKeys; on sorted separators it is the first separator ≥ key, or numKeys |
| `Table.UpdateInternalNodeKey` | table.c:273-276 | sets the key of the slot the search finds. On sorted separators an equal separator is replaced. When the old key is above every separator (the rightmost child), slot numKeys is written and the live separators are unchanged |
| `Table.InsertCell` | table.c:179-188 | the shift loop gives the cells with `x` inserted at c |
| `Table.InsertChildCell` | table.c:302-308 | the shift loop gives the live slots with the cell inserted at index, the later slots kept |
| `Table.SplitCells` | table.c:205-230 | the redistribution loop leaves the first LEFT of the MAX+1 combined cells in the old leaf and the other RIGHT in the new one |
| `Table.Table.LeafNodeFind` | table.c:103-130 | a cursor on the page, not at the end, at cell ≤ `num_cells`; on sorted cells, at the first key ≥ `key` |
| `Table.Table.InternalNodeFind` | table.c:132-144 | the cursor is on the leaf `FindLeaf` reaches, at the leaf search position; no page changes |
| `Tree.FindLeaf` | table.c:132-144 | the descent ends at a leaf page in use |
| `Tree.RootDescends` | table.c:92-101 | in a valid tree the descent from page 0 takes at most one step and ends at the routed leaf |
| `Table.Table.TableFind` | table.c:92-101 | the cursor's scan position is the key's sorted position; it holds the key iff the key is present; the table is unchanged and stays valid |
| `Tree.FindInTree` | table.c:92-144 | the routed leaf's search position, offset by the earlier leaves, is the key's sorted position; the key is in the tree iff it is in that leaf |
| `Tree.FoundCursor` | table.c:92-130 | the cursor table_find builds is on the routed leaf at the key's sorted scan position, and on the key iff it is present |
| `Tree.RouteTie` | table.c:155-163 | a key equal to separator i goes to child i, whose largest key it is, not to the child on its right |
| `Tree.RoutedLeaf` | table.c:92-101 | the routed leaf is a leaf page in use; it is the root (page 0) iff the root is a leaf, else its parent is page 0 |
| `Tree.EntriesSorted` | table.c:103-130 | a full scan yields strictly increasing keys |
| `Table.Table.TableStart` | table.c:54-62 | the cursor is valid at scan position 0, at the end iff the table is empty, otherwise on a cell |
| `Tree.StartCursor` | table.c:54-62 | the search for key 0 reaches position 0 of the first leaf, which is empty iff the table is |
| `Tree.FirstLeaf` | table.c:54-62 | key 0 routes to the first leaf, which is empty iff the scan is empty |
| `Table.Cursor.CursorValue` | table.c:64-68 | the row returned is that of the scan's entry at the cursor's position |
| `Tree.CursorCell` | table.c:64-68 | the cell a cursor is on is the scan's entry at its position |
| `Table.Cursor.CursorAdvance` | table.c:70-86 | the position moves one on; the cursor is at the end iff it is past the last entry, otherwise on a cell |
| `Tree.AdvanceCursor` | table.c:70-86 | each of the three branches (next cell, next leaf, end) moves the position one on and keeps the cursor valid |
| `Tree.NextLeaf` | table.c:77-84 | a leaf's next-leaf number is the following leaf, which has cells; it is 0 exactly for the last leaf |
| `Table.Table.LeafNodeInsert` | table.c:169-189 | outcome per `InsertOutcome`; when done, the table is valid, the scan has the cell at its sorted position, and `PagesAdded` pages were taken; when the leaf has room, only the cursor's page changes, and its cells become the old cells with the new cell inserted at the cursor's cell number |
| `Tree.TreeLeafInsert` | table.c:169-189 | the routed leaf with room takes the cell; the tree stays valid and the scan gains it at its sorted position |
| `Table.Table.LeafNodeSplitAndInsert` | table.c:191-243 | the same outcome, validity, scan and page-count contract for a full leaf |
| `Tree.SplitLeaf` | table.c:196-230 | the old leaf keeps its flags, parent and the first LEFT cells and points to the new page; the new page is a non-root leaf with the old leaf's parent and successor; the two halves together are the old cells with `x` inserted at c; no other page changes |
| `Tree.NewRoot` | table.c:245-271 | page 0 becomes an internal root with one key, the old root's largest key, over left child l and right child r; page l is the old root's leaf as a non-root child of page 0; page r gets parent 0; no other page changes |
| `Table.Table.SplitIntoNewLeaf` | table.c:196-230 | the pages become `SplitLeaf`: the new leaf takes the parent, the old successor and the right half; the old leaf keeps the left half and points to the new page |
| `Tree.SplitRuns` | table.c:205-230 | the two halves of the routed full leaf with the cell inserted are ordered runs; the scan is the old scan with the cell at its sorted position |
| `Table.Table.NewRootAfterSplit` | table.c:232-233 | a root split completes when two page numbers are free; the tree is then valid over two more pages with the cell in the scan |
| `Tree.TreeRootSplit` | table.c:191-271 | split then `create_new_root` on a full root leaf gives a valid two-leaf tree whose scan gains the cell at its sorted position |
| `Tree.TwoLeafRoot` | table.c:261-270 | an internal root with one key over two ordered leaves, in page order, is a valid tree |
| `Table.Table.InsertIntoParent` | table.c:234-241 | a child split completes unless the root is at the key limit; the tree is then valid over one more page with the cell in the scan |
| `Table.Table.UpdateParentAndInsert` | table.c:235-240 | the parent becomes `InsertChild` of the parent with its separator lowered to the new largest key; fatal when at the key limit |
| `Tree.ChildSplitFacts` | table.c:232-241 | the split leaf's parent is the root, which has a free slot; the halves and the right child have cells; lowering the separator keeps the separators sorted |
| `Tree.TreeChildSplit` | table.c:191-243 | split, key update and child insert under a root with room give a valid tree over one more page, with the cell at its sorted scan position |
| `Tree.ChildSplitParent` | table.c:273-311 | the old largest key routes to the split child; the new page follows it; the new key becomes its separator; the separators stay sorted |
| `Tree.SplitParentKeys` | table.c:273-311 | the same on values, for any parent whose separators are its runs' last keys |
| `Tree.ParentAfterChildSplit` | table.c:273-311 | both branches put the new child right after the split child and the new largest key at its separator, the rest in order |
| `Tree.SplitRightmostChild` | table.c:274-300 | rightmost child split: the key written to slot numKeys is taken over by the demoted right child, so the parent is consistent |
| `Tree.SplitInnerChild` | table.c:301-309 | inner child split: the shift puts the new child right after the split child with the split child's old separator |
| `Tree.SplitInnerIndex` | table.c:283 | after the update, the search for the new child's largest key lands right after the split child |
| `Tree.WithKeySorted` | table.c:273-276 | lowering separator j below its old value, above the earlier ones, keeps the separators sorted |
| `Tree.SeparatorsIncreasing` | table.c:146-166 | in a valid tree the root's separators strictly increase |
| `Table.Table.CreateNewRoot` | table.c:245-271 | fatal when no page number is left; otherwise the pages become `NewRoot`: the old root is copied to a fresh page as a non-root child, and page 0 becomes an internal root with one key (the left child's largest) over the left and right children, both with parent 0 |
| `Table.Table.InternalNodeInsert` | table.c:278-311 | fatal iff the original key count is at the key limit; otherwise the parent becomes `InsertChild` of the old parent with the child's and the right child's largest keys |
| `Tree.ChildSplitValid` | table.c:191-243 | after the split of leaf j under a root that follows the new runs, the tree is valid over one more page and the scan is the new runs |
| `Tree.ReplaceLeaf` | table.c:169-189 | replacing a leaf by one with the same flags, parent and successor, with ordered runs and the same last key (unless rightmost), keeps the tree valid |

## Left out

- File I/O: `pager_open`, `pager_flush` and `db_close` (table.c:24-50), and the file descriptor and file length. The file's pages at open time are the `disk` parameter, already read as nodes.
- `get_page`'s body. pager.c is not part of this model. The contract of `Pager.Pager.GetPage` is stated from its use: an uncached page is read from the file, or reads as zeroes past the file's end. A page number at or beyond TABLE_MAX_PAGES is a fatal error. In the C code `get_page` makes that check and exits itself, and callers such as table.c:199 and table.c:255 call it unchecked. In the model every caller checks first and returns `Exit(OutOfBounds)`, which stands for that exit.
- `serialize_row`/`deserialize_row`, the row's byte layout and the fixed widths of the username and email columns. A row is a value stored in a cell. The buffers of c/db.h:13-21 bound the text lengths, and the engine never looks at the text, so the model leaves the lengths unbounded.
- Byte offsets, `PAGE_SIZE` and the values of the layout constants. The constants are `Node.Config` parameters, constrained by LEFT + RIGHT = MAX + 1, 1 ≤ RIGHT ≤ LEFT and a key limit below the internal slot count.
- `malloc`/`free` of cursors and tables, `printf`, and the process exit. A fatal exit is a `Status.Exit` result, and the state after one is unconstrained.
- Table.Table.LeafNodeInsert: duplicate keys are not rejected by this code, so inserting an absent key is a precondition.
- Table.Table.InsertIntoParent: splitting a full internal node is unimplemented in the source and fatal. The model returns `Exit(InternalNodeOverflow)`, so trees deeper than one internal level never arise and `Tree.ValidTree` covers only those shapes. `Table.Table.InternalNodeFind` descends any height.
- Table.Table.CreateNewRoot: requires the root to be a non-empty leaf, the only case the source calls it in.
- Table.Table.LeafNodeFind: the C cursor's `end_of_table` is not initialised by `leaf_node_find`; the model sets it to false.
- Node.InitializeInternalNode: the C version leaves the unused cell slots as they were, and at table.c:262 page 0 still holds the split root leaf's cell bytes. The model zeroes them. This is not observable, because no slot past `num_keys` is read before it is written: table.c:275 writes only the key of slot `num_keys`, table.c:298-299 then writes both of its fields, and the shift at table.c:303-307 copies only from live slots.
- Node.GetNodeMaxKey: for an internal node the model returns its last separator, not the largest key of its rightmost subtree. The difference is not observable, because every call (table.c:197, 236, 266, 282, 296 and 299) is on a leaf in the trees the engine can build: the split `old_node`, the copied `left_child`, the new `child`, and the `right_child` of a root of depth 1.
- Table.Table.InternalNodeInsert: the raised key count is written to the page only on the path that continues. On the fatal path the process ends before any page is flushed.
- uint32 wrap-around of page numbers, cell counts and keys. Keys are a 32-bit subset type; counts and page numbers stay below the page and capacity limits, so no arithmetic here wraps.
