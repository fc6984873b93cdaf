/**
 * The page cache: a fixed array of at most TABLE_MAX_PAGES resident pages and
 * the high-water page count.  The file is not modelled byte by byte: `disk`
 * holds, as nodes, the pages the file had when it was opened.
 */
module Pager {
  import opened Wrappers
  import opened Node

  const TABLE_MAX_PAGES: nat := 100

  /** The pages as the file holds them: its own pages, then zero-filled ones. */
  function FileView(cfg: Config, disk: seq<Node>): (s: seq<Node>)
    ensures |s| == TABLE_MAX_PAGES
    ensures forall n :: 0 <= n < |disk| && n < TABLE_MAX_PAGES ==> s[n] == disk[n]
    ensures forall n :: |disk| <= n < TABLE_MAX_PAGES ==> s[n] == ZeroPage(cfg)
  {
    seq(TABLE_MAX_PAGES, n requires 0 <= n < TABLE_MAX_PAGES => if n < |disk| then disk[n] else ZeroPage(cfg))
  }

  class Pager {
    /** The layout constants, needed to say what a zero-filled page reads as. */
    const cfg: Config
    /** The pages of the file at open time (read back lazily by GetPage). */
    const disk: seq<Node>
    /** The page cache, indexed by page number; None is a page not yet loaded. */
    const pages: array<Option<Node>>
    /** How many page numbers are in use (the file's pages and every page fetched since). */
    var numPages: nat
    /** Every addressable page, as the engine sees it through GetPage. */
    ghost var contents: seq<Node>

    ghost predicate Valid()
      reads this, pages
    {
      && pages.Length == TABLE_MAX_PAGES && |contents| == TABLE_MAX_PAGES
      && |disk| <= numPages
      && (forall i :: numPages <= i < TABLE_MAX_PAGES ==> pages[i].None?)
      && (forall i :: 0 <= i < TABLE_MAX_PAGES ==> Cached(i))
    }

    /** Page `n` of `contents` is what the cache and the file give for it. */
    ghost predicate Cached(n: nat)
      reads this, pages
      requires pages.Length == TABLE_MAX_PAGES && |contents| == TABLE_MAX_PAGES && n < TABLE_MAX_PAGES
    {
      contents[n] == Content(n)
    }

    /** What page `n` holds: the cached buffer, else what the file holds, else zeroes. */
    function Content(n: nat): Node
      reads this, pages
      requires pages.Length == TABLE_MAX_PAGES && n < TABLE_MAX_PAGES
    {
      match pages[n]
      case Some(node) => node
      case None => if n < |disk| then disk[n] else ZeroPage(cfg)
    }

    /** pager_open, once the file has been read into `disk`: an empty cache and one page per file page. */
    constructor (cfg: Config, disk: seq<Node>)
      ensures Valid() && fresh(pages)
      ensures forall i :: 0 <= i < TABLE_MAX_PAGES ==> pages[i].None?
      ensures this.cfg == cfg && this.disk == disk && numPages == |disk|
      ensures contents == FileView(cfg, disk)
    {
      this.cfg := cfg;
      this.disk := disk;
      numPages := |disk|;
      pages := new Option<Node>[TABLE_MAX_PAGES](_ => None);
      contents := FileView(cfg, disk);
    }

    /**
     * get_page: makes page `n` resident and returns it.  What every page holds
     * is unchanged; the page count is raised to cover `n`.  A page number at or
     * beyond TABLE_MAX_PAGES is a fatal error, which callers rule out first.
     */
    method GetPage(n: nat) returns (node: Node)
      requires Valid() && n < TABLE_MAX_PAGES
      modifies this, pages
      ensures Valid()
      ensures node == contents[n] && pages[n].Some?
      ensures contents == old(contents)
      ensures numPages == if n < old(numPages) then old(numPages) else n + 1
    {
      assert Cached(n);
      node := Content(n);
      pages[n] := Some(node);
      if numPages <= n {
        numPages := n + 1;
      }
      forall i | 0 <= i < TABLE_MAX_PAGES ensures Cached(i) {
        assert old(Cached(i)) && Content(i) == old(Content(i));
      }
    }

    /** get_unused_page_num: the first page number never used, which holds zeroes. */
    method GetUnusedPageNum() returns (n: nat)
      requires Valid()
      ensures n == numPages
      ensures n < TABLE_MAX_PAGES ==> contents[n] == ZeroPage(cfg) && pages[n].None?
    {
      n := numPages;
      if n < TABLE_MAX_PAGES {
        assert Cached(n);
      }
    }

    /**
     * A write through the buffer that GetPage returned: page `n` now holds
     * `node` and nothing else changes.
     */
    method WritePage(n: nat, node: Node)
      requires Valid() && n < numPages && n < TABLE_MAX_PAGES
      modifies this, pages
      ensures Valid() && numPages == old(numPages)
      ensures contents == old(contents)[n := node]
    {
      pages[n] := Some(node);
      contents := contents[n := node];
      forall i | 0 <= i < TABLE_MAX_PAGES ensures Cached(i) {
        if i != n {
          assert old(Cached(i)) && Content(i) == old(Content(i));
        }
      }
    }
  }
}
