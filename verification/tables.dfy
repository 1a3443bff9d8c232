/*
 * The records of include/db.h that the B+tree works through: the pager
 * with its TABLE_MAX_PAGES page buffers, the table (a pager and the root
 * page number) and the cursor.
 */
module Tables {
  import opened Layout
  import opened Node
  import opened Outcomes

  /**
   * The pager's cache: one PAGE_SIZE buffer per slot and the number of
   * pages in use. Loading from and flushing to the file are not part of
   * this model, so every slot's buffer is simply present.
   */
  class Pager {
    const pages: seq<array<byte>>
    var numPages: nat

    ghost predicate Valid()
      reads this
    {
      && |pages| == TABLE_MAX_PAGES
      && (forall i :: 0 <= i < |pages| ==> pages[i].Length == PAGE_SIZE)
      && (forall i, j :: 0 <= i < j < |pages| ==> pages[i] != pages[j])
      && numPages <= TABLE_MAX_PAGES
    }

    /** The bytes of page n. */
    ghost function Page(n: nat): Page
      requires Valid() && n < TABLE_MAX_PAGES
      reads this, pages[n]
    {
      pages[n][..]
    }

    /** The bytes of every page, in page-number order. */
    ghost function Pages(): (s: seq<Page>)
      requires Valid()
      reads this, pages
      ensures |s| == TABLE_MAX_PAGES && forall n :: 0 <= n < TABLE_MAX_PAGES ==> s[n] == Page(n)
    {
      seq(TABLE_MAX_PAGES, n requires 0 <= n < TABLE_MAX_PAGES reads pages => pages[n][..])
    }

    /** A pager with numPages pages in use, every buffer zeroed. */
    constructor (numPages: nat)
      requires numPages <= TABLE_MAX_PAGES
      ensures Valid() && this.numPages == numPages
      ensures forall i :: 0 <= i < TABLE_MAX_PAGES ==> fresh(pages[i])
    {
      var ps: seq<array<byte>> := [];
      while |ps| < TABLE_MAX_PAGES
        invariant |ps| <= TABLE_MAX_PAGES
        invariant forall i :: 0 <= i < |ps| ==> ps[i].Length == PAGE_SIZE && fresh(ps[i])
        invariant forall i, j :: 0 <= i < j < |ps| ==> ps[i] != ps[j]
      {
        var page := new byte[PAGE_SIZE](_ => 0);
        ps := ps + [page];
      }
      pages := ps;
      this.numPages := numPages;
    }

    /**
     * get_page: the buffer of page pageNum. A page number past the cache
     * stops the process; otherwise the count of pages in use grows to cover
     * pageNum. Buffer contents are not touched.
     */
    method GetPage(pageNum: u32) returns (r: Result<array<byte>>)
      requires Valid()
      modifies this
      ensures Valid()
      ensures r.Ok? <==> pageNum < TABLE_MAX_PAGES
      ensures r.Ok? ==> r.value == pages[pageNum] && numPages == if pageNum < old(numPages) then old(numPages) else pageNum + 1
      ensures r.Err? ==> r.fatal == PageOutOfBounds && unchanged(this)
    {
      if pageNum >= TABLE_MAX_PAGES {
        return Err(PageOutOfBounds);
      }
      if pageNum >= numPages {
        numPages := pageNum + 1;
      }
      return Ok(pages[pageNum]);
    }

    /** get_unused_page_num: the first page number not in use, the count of pages in use. */
    method GetUnusedPageNum() returns (pageNum: u32)
      requires Valid()
      ensures pageNum == numPages
    {
      pageNum := numPages;
    }
  }

  /** A table: its pager and the page number of the B+tree's root. */
  class Table {
    const pager: Pager
    const rootPageNum: u32

    ghost predicate Valid()
      reads this, pager
    {
      pager.Valid() && rootPageNum < pager.numPages
    }

    /** The bytes of the root page. */
    ghost function Root(): Page
      requires Valid()
      reads this, pager, pager.pages[rootPageNum]
    {
      pager.Page(rootPageNum)
    }

    constructor (pager: Pager, rootPageNum: u32)
      requires pager.Valid() && rootPageNum < pager.numPages
      ensures Valid() && this.pager == pager && this.rootPageNum == rootPageNum
    {
      this.pager := pager;
      this.rootPageNum := rootPageNum;
    }
  }

  /** A cursor: a table, a page, a cell within it and whether the scan is past the last cell. */
  class Cursor {
    const table: Table
    var pageNum: u32
    var cellNum: u32
    var endOfTable: bool

    /** The bytes of the page the cursor is on. */
    ghost function Node(): Page
      requires table.Valid() && pageNum < TABLE_MAX_PAGES
      reads this, table, table.pager, table.pager.pages
    {
      table.pager.Page(pageNum)
    }

    constructor (table: Table, pageNum: u32, cellNum: u32, endOfTable: bool)
      ensures this.table == table && this.pageNum == pageNum && this.cellNum == cellNum && this.endOfTable == endOfTable
    {
      this.table := table;
      this.pageNum := pageNum;
      this.cellNum := cellNum;
      this.endOfTable := endOfTable;
    }
  }
}
