/** The mounted file system: the fields of `struct spiffs` and what must hold of them. */
module State {
  import opened Nor
  import opened Layout
  import opened Image
  import opened Core
  import opened Descriptors

  datatype Status =
    | OK
    | ERR_FULL
    | ERR_NOT_FOUND
    | ERR_NO_DELETED_BLOCKS
    | ERR_END_OF_OBJECT
    | ERR_DELETED
    | ERR_NOT_FINALIZED
    | ERR_NOT_INDEX
    | ERR_IS_INDEX
    | ERR_IS_FREE
    | ERR_INDEX_SPAN_MISMATCH
    | ERR_DATA_SPAN_MISMATCH
    | ERR_INDEX_REF_FREE
    | ERR_INDEX_REF_LU
    | ERR_INDEX_REF_INVALID
    | ERR_INDEX_FREE
    | ERR_INDEX_LU
    | ERR_INDEX_INVALID
    | ERR_OUT_OF_FLASH
    | ERR_NOT_WRITABLE
    | ERR_NOT_READABLE
    | ERR_BAD_DESCRIPTOR
    | ERR_FILE_CLOSED
    | ERR_CONFLICTING_NAME
    | ERR_OUT_OF_FILE_DESCS
    | ERR_NAME_TOO_LONG
    | ERR_FILE_EXISTS

  /** Success, or one of the ways in which the file system is out of space: it reports no broken page. */
  predicate Spacious(st: Status) {
    st == OK || st == ERR_FULL || st == ERR_NOT_FOUND || st == ERR_NO_DELETED_BLOCKS
  }

  lemma OkSpacious()
    ensures Spacious(OK)
  {
  }

  class Spiffs {
    const g: Geo
    /** The pages that are not lookup pages. */
    ghost const P: set<nat>

    // flash
    var lu: seq<half>
    var pages: seq<Page>
    var eraseCnt: seq<half>

    // allocator
    var freeBlk: nat
    var freeEnt: nat
    var freeBlocks: int
    var nAlloc: int
    var nDel: int
    var cleaning: bool
    var maxErase: half
    ghost var surplus: nat

    // where the last lookup search ended
    var curBlk: nat
    var curEnt: nat

    // work buffer, read as a page
    var work: Page

    // descriptors and cache pages
    var fds: seq<Fd>
    var wc: seq<CPage>

    // the objects on flash
    ghost var dir: Dir

    /** A file system that is not mounted yet, on flash with any content. */
    constructor (g: Geo, lu: seq<half>, pages: seq<Page>)
      requires 0 < g.ppb
      ensures this.g == g && P == g.DataPages() && this.lu == lu && this.pages == pages
      ensures dir == map[] && fds == [] && wc == []
    {
      this.g, P := g, g.DataPages();
      this.lu, this.pages, eraseCnt := lu, pages, [];
      freeBlk, freeEnt, freeBlocks, nAlloc, nDel, cleaning, maxErase, surplus := 0, 0, 0, 0, 0, false, 0, 0;
      curBlk, curEnt, work := 0, 0, Blank(g);
      fds, wc, dir := [], [], map[];
    }

    ghost function S(): St
      reads this
    {
      St(lu, pages, freeBlk, freeEnt, freeBlocks, nAlloc, nDel, surplus)
    }

    /** The allocator's invariant. */
    ghost predicate Ok()
      reads this
    {
      Inv(g, P, S()) && |eraseCnt| == g.blocks && curBlk < g.blocks && PageShape(g, work)
    }
  }
}
