/** Small file systems on which the code does less than its callers may expect: what the conditions of the other modules
    come to on given flash. */
module Samples {
  import opened Nor
  import opened Layout
  import opened Chunks
  import opened Image
  import opened Core
  import opened Descriptors
  import opened State
  import opened Alloc
  import opened Stock
  import opened Objects
  import opened Gc
  import opened Collect
  import opened Modify
  import Read
  import opened Append
  import opened Hydro
  import opened WriteCache
  import Files
  import Search

  // ---------------------------------------------------------------- flash with two pages in a block

  /** Three pages in a block, the first of them the lookup page. */
  function Small(n: nat): Geo { Geo(3, 1, n, 16, 8, 8) }

  /** The page that cell c stands for; block b has the cells 2 * b and 2 * b + 1. */
  function Pg(c: nat): nat { 3 * (c / 2) + 1 + c % 2 }

  /** The pages that are no lookup pages. */
  function Pgs(n: nat): set<nat> { set c | 0 <= c < n :: Pg(c) }

  datatype Cell = Free | Header(id: half) | Body(id: half, s: nat)

  /** Between two and a thousand blocks, of which the second page is free if the first one is. */
  predicate Regular(cells: seq<Cell>) {
    && 4 <= |cells| < 2000 && |cells| % 2 == 0
    && forall b :: 0 <= b < |cells| / 2 && cells[2 * b].Free? ==> cells[2 * b + 1].Free?
  }

  lemma RegularSize(cells: seq<Cell>)
    requires Regular(cells)
    ensures 4 <= |cells| < 2000 && |cells| % 2 == 0 && 2 <= |cells| / 2 < 1000
  {
  }

  /** The geometry of this flash. */
  function Of(cells: seq<Cell>): Geo { Small(|cells| / 2) }

  lemma {:induction false} SmallPix(n: nat, b: nat, e: nat)
    requires e < 2
    ensures Small(n).BlockStart(b) == 3 * b && Small(n).PixOf(b, e) == Pg(2 * b + e)
  {
    BlockStartMacro(Small(n), b);
    PixOfSum(Small(n), b, e);
  }

  /** A page is a lookup page or stands for a cell. */
  lemma PageCell(n: nat, p: nat)
    ensures p in Pgs(2 * n) <==> p < 3 * n && p % 3 >= 1
  {
    if p < 3 * n && p % 3 >= 1 { assert p == Pg(2 * (p / 3) + p % 3 - 1); }
  }

  lemma SmallPages(n: nat)
    requires 2 <= n < 1000
    ensures Small(n).Valid() && Small(n).DataPages() == Pgs(2 * n) && Small(n).Pages() == 3 * n && Entries(Small(n), Pgs(2 * n))
  {
    hide Pgs, Entries;
    assert Small(n).Pages() == 3 * n;
    forall p: nat ensures p in Small(n).DataPages() <==> p in Pgs(2 * n) {
      DataPagesIn(Small(n), p);
      PageCell(n, p);
    }
    SetsEqual(Small(n).DataPages(), Pgs(2 * n));
    EntriesHold(Small(n));
  }

  lemma CellPages(cells: seq<Cell>)
    requires Regular(cells)
    ensures var g := Of(cells); g.Valid() && g.DataPages() == Pgs(|cells|) && g.Pages() == 3 * (|cells| / 2) && Entries(g, Pgs(|cells|))
  {
    hide Pgs, Entries;
    SmallPages(|cells| / 2);
    assert 2 * (|cells| / 2) == |cells|;
  }

  lemma SetsEqual(s: set<nat>, t: set<nat>)
    requires forall p: nat :: p in s <==> p in t
    ensures s == t
  {
  }

  ghost predicate InCell(cells: seq<Cell>, p: half, c: Cell) {
    exists i :: 0 <= i < |cells| && p == Pg(i) && cells[i] == c
  }

  /** The directory names the pages of the cells, and only these: every object has a header and no other index page. */
  ghost predicate Named(cells: seq<Cell>, dir: Dir) {
    && (forall id :: id in dir ==>
                       && 0 < id < 0x7FFF && ObjShape(Of(cells), dir[id]) && |dir[id].ix| == 1 && !dir[id].doomed && dir[id].lost == {}
                       && InCell(cells, dir[id].ix[0], Header(id))
                       && forall s :: 0 <= s < |dir[id].data| ==> InCell(cells, dir[id].data[s], Body(id, s)))
    && forall i :: 0 <= i < |cells| ==> Belongs(cells[i], dir, i)
  }

  ghost predicate Belongs(c: Cell, dir: Dir, i: nat) {
    match c
    case Free => true
    case Header(id) => id in dir && |dir[id].ix| > 0 && dir[id].ix[0] == Pg(i)
    case Body(id, s) => id in dir && s < |dir[id].data| && dir[id].data[s] == Pg(i)
  }

  /** Page Pg(i) is what cell i says. */
  ghost predicate Laid(cells: seq<Cell>, dir: Dir, lu: seq<half>, pages: seq<Page>)
    requires Named(cells, dir)
  {
    && |lu| == |pages| == 3 * (|cells| / 2)
    && forall i :: 0 <= i < |cells| ==> CellIs(cells, dir, lu, pages, i)
  }

  ghost predicate CellIs(cells: seq<Cell>, dir: Dir, lu: seq<half>, pages: seq<Page>, i: nat)
    requires Named(cells, dir) && i < |cells|
  {
    && Pg(i) < |lu| && Pg(i) < |pages|
    && match cells[i]
       case Free => lu[Pg(i)] == FREE_ID && pages[Pg(i)] == Blank(Of(cells))
       case Header(id) => lu[Pg(i)] == id + IX_FLAG && pages[Pg(i)] == IxPage(Of(cells), id, dir[id], 0)
       case Body(id, s) =>
         lu[Pg(i)] == id && |dir[id].chunks[s]| <= 16 && pages[Pg(i)] == DataPage(Of(cells), id, s, dir[id].chunks[s])
  }

  lemma LaidAt(cells: seq<Cell>, dir: Dir, lu: seq<half>, pages: seq<Page>, i: nat)
    requires Named(cells, dir) && Laid(cells, dir, lu, pages) && i < |cells|
    ensures |lu| == |pages| == 3 * (|cells| / 2) && Pg(i) < |lu| && PageShape(Of(cells), pages[Pg(i)])
    ensures match cells[i]
            case Free => lu[Pg(i)] == FREE_ID && pages[Pg(i)] == Blank(Of(cells))
            case Header(id) =>
              && id in dir && 0 < id < 0x7FFF && |dir[id].ix| == 1 && dir[id].ix[0] == Pg(i)
              && lu[Pg(i)] == id + IX_FLAG && pages[Pg(i)] == IxPage(Of(cells), id, dir[id], 0)
            case Body(id, s) =>
              && id in dir && 0 < id < 0x7FFF && s < |dir[id].data| && dir[id].data[s] == Pg(i) && s < 0xFFFF
              && s < |dir[id].chunks| && |dir[id].chunks[s]| <= 16 && dir[id].lost == {}
              && lu[Pg(i)] == id && pages[Pg(i)] == DataPage(Of(cells), id, s, dir[id].chunks[s])
    ensures Live(lu[Pg(i)]) ==> Owned(lu[Pg(i)], pages[Pg(i)].span, Pg(i), dir)
    ensures (lu[Pg(i)] == FREE_ID <==> cells[i].Free?) && lu[Pg(i)] != DELETED_ID
  {
    hide Flatten, Full, Pg;
    assert CellIs(cells, dir, lu, pages, i) && Belongs(cells[i], dir, i);
  }

  lemma SmallIx(cells: seq<Cell>, dir: Dir, lu: seq<half>, pages: seq<Page>, id: half, k: nat)
    requires Named(cells, dir) && Laid(cells, dir, lu, pages) && id in dir && k < |dir[id].ix| && |lu| == |pages|
    ensures id < IX_FLAG && ObjShape(Of(cells), dir[id]) && IxOk(Of(cells), Pgs(|cells|), lu, pages, {}, id, dir[id], k)
  {
    hide Laid, Flatten, Full, Pg, Belongs;
    var i :| 0 <= i < |cells| && dir[id].ix[0] == Pg(i) && cells[i] == Header(id);
    LaidAt(cells, dir, lu, pages, i);
  }

  lemma SmallData(cells: seq<Cell>, dir: Dir, lu: seq<half>, pages: seq<Page>, id: half, s: nat)
    requires Named(cells, dir) && Laid(cells, dir, lu, pages) && id in dir && s < |dir[id].data| && |lu| == |pages|
    ensures ObjShape(Of(cells), dir[id]) && DataOk(Of(cells), Pgs(|cells|), lu, pages, id, dir[id], s)
  {
    hide Laid, Flatten, Full, Pg, Belongs;
    var i :| 0 <= i < |cells| && dir[id].data[s] == Pg(i) && cells[i] == Body(id, s);
    LaidAt(cells, dir, lu, pages, i);
  }

  lemma SmallDir(cells: seq<Cell>, dir: Dir)
    requires Named(cells, dir)
    ensures DirOk(Of(cells), dir) && NoneDoomed(dir)
  {
  }

  lemma SmallRep(cells: seq<Cell>, dir: Dir, lu: seq<half>, pages: seq<Page>)
    requires Regular(cells) && Named(cells, dir) && Laid(cells, dir, lu, pages)
    ensures Rep(Of(cells), Pgs(|cells|), lu, pages, dir, {}) && FlashOk(Of(cells), Pgs(|cells|), lu, pages)
    ensures NoneDoomed(dir)
  {
    hide Laid, Named, Flatten, Full, Entries, Pg, IxOk, DataOk, ObjShape, Blank, Owned, PageShape, NoneDoomed, Regular, Of;
    var g, P := Of(cells), Pgs(|cells|);
    RegularSize(cells);
    CellPages(cells);
    SmallDir(cells, dir);
    LaidAt(cells, dir, lu, pages, 0);
    forall i | 0 <= i < |cells|
      ensures Pg(i) < |lu| && PageShape(g, pages[Pg(i)]) && lu[Pg(i)] != DELETED_ID
      ensures (lu[Pg(i)] == FREE_ID ==> pages[Pg(i)] == Blank(g)) && (Live(lu[Pg(i)]) ==> Owned(lu[Pg(i)], pages[Pg(i)].span, Pg(i), dir))
    {
      LaidAt(cells, dir, lu, pages, i);
    }
    forall id, k | id in dir && 0 <= k < |dir[id].ix| ensures IxOk(g, P, lu, pages, {}, id, dir[id], k) {
      SmallIx(cells, dir, lu, pages, id, k);
    }
    forall id, s | id in dir && 0 <= s < |dir[id].data| ensures DataOk(g, P, lu, pages, id, dir[id], s) {
      SmallData(cells, dir, lu, pages, id, s);
    }
  }

  // ---------------------------------------------------------------- a mounted file system on it

  function FreeCells(cells: seq<Cell>): set<nat> { set i | 0 <= i < |cells| && cells[i].Free? }

  function UsedCells(cells: seq<Cell>, n: nat): set<nat> { set i | 0 <= i < n && i < |cells| && !cells[i].Free? }

  /** Blocks whose first page is free. */
  function FreeHeads(cells: seq<Cell>): set<nat> { set b | 0 <= b < |cells| / 2 && cells[2 * b].Free? }

  lemma {:induction false} UsedPages(cells: seq<Cell>, dir: Dir, lu: seq<half>, pages: seq<Page>, n: nat)
    requires n <= |cells| && Named(cells, dir) && Laid(cells, dir, lu, pages)
    ensures |LivePages(Pgs(n), lu)| == |UsedCells(cells, n)|
  {
    hide Named, Laid, CellIs, Pg, LivePages, UsedCells, Pgs;
    if n == 0 {
      NoPages(cells, lu);
    } else {
      UsedPages(cells, dir, lu, pages, n - 1);
      LaidAt(cells, dir, lu, pages, n - 1);
      LiveNext(n - 1, lu);
      UsedNext(cells, n - 1);
    }
  }

  lemma NoPages(cells: seq<Cell>, lu: seq<half>)
    ensures LivePages(Pgs(0), lu) == {} && UsedCells(cells, 0) == {}
  {
  }

  lemma LiveNext(n: nat, lu: seq<half>)
    requires Pg(n) < |lu|
    ensures |LivePages(Pgs(n + 1), lu)| == |LivePages(Pgs(n), lu)| + if Live(lu[Pg(n)]) then 1 else 0
  {
    hide Pgs;
    PgsNext(n);
    assert LivePages(Pgs(n + 1), lu) == LivePages(Pgs(n), lu) + if Live(lu[Pg(n)]) then {Pg(n)} else {};
  }

  lemma UsedNext(cells: seq<Cell>, n: nat)
    requires n < |cells|
    ensures |UsedCells(cells, n + 1)| == |UsedCells(cells, n)| + if cells[n].Free? then 0 else 1
  {
    assert UsedCells(cells, n + 1) == UsedCells(cells, n) + if cells[n].Free? then {} else {n};
  }

  lemma PgsNext(n: nat)
    ensures Pgs(n + 1) == Pgs(n) + {Pg(n)} && Pg(n) !in Pgs(n)
  {
  }

  ghost predicate Formed(cells: seq<Cell>, dir: Dir, g: Geo, P: set<nat>, lu: seq<half>, pages: seq<Page>) {
    Regular(cells) && g == Of(cells) && P == Pgs(|cells|) && Named(cells, dir) && Laid(cells, dir, lu, pages)
  }

  /** The fields of a mounted file system whose flash holds these cells. */
  ghost predicate Mounted(fs: Spiffs, cells: seq<Cell>, dir: Dir)
    reads fs`lu, fs`pages, fs`eraseCnt, fs`freeBlk, fs`freeEnt, fs`freeBlocks, fs`nAlloc, fs`nDel, fs`cleaning, fs`surplus, fs`curBlk, fs`work, fs`dir
  {
    && Formed(cells, dir, fs.g, fs.P, fs.lu, fs.pages) && fs.dir == dir && !fs.cleaning
    && fs.freeBlk < |cells| / 2 && fs.freeEnt == 0 && fs.curBlk < |cells| / 2 && |fs.eraseCnt| == |cells| / 2 && PageShape(fs.g, fs.work)
    && fs.nAlloc == |UsedCells(cells, |cells|)| && fs.nDel == 0 && fs.freeBlocks == |FreeHeads(cells)| + fs.surplus
  }

  lemma MountedOk(fs: Spiffs, cells: seq<Cell>, dir: Dir)
    requires Mounted(fs, cells, dir)
    ensures fs.Ok() && Rep(fs.g, fs.P, fs.lu, fs.pages, dir, {}) && NoneDoomed(dir)
    ensures Exhausted(fs) <==> FreeCells(cells) == {}
  {
    hide Laid, Flatten, FlashOk, CellIs, Pgs, PageShape, Rep, ObjShape, Named, FreeCells, UsedCells, FreeHeads, FreeSuffix,
      CursorOk, LivePages, DeletedPages, FreeBlocks, FreePages;
    SmallRep(cells, dir, fs.lu, fs.pages);
    UsedPages(cells, dir, fs.lu, fs.pages, |cells|);
    SmallFree(cells, dir, fs.lu, fs.pages);
    SmallCursor(cells, dir, fs.lu, fs.pages, fs.freeBlk);
  }

  /** Lookup entry e of block b. */
  lemma CellEntry(cells: seq<Cell>, dir: Dir, lu: seq<half>, pages: seq<Page>, b: nat, e: nat)
    requires Named(cells, dir) && Laid(cells, dir, lu, pages) && b < |cells| / 2 && e < 2
    ensures Of(cells).PixOf(b, e) == Pg(2 * b + e) && Pg(2 * b + e) < |lu| && Entry(Of(cells), lu, b, e) == lu[Pg(2 * b + e)]
    ensures Entry(Of(cells), lu, b, e) == FREE_ID <==> cells[2 * b + e].Free?
    ensures Entry(Of(cells), lu, b, e) != DELETED_ID
  {
    hide Named, Laid, CellIs, Pg, Flatten;
    SmallPix(|cells| / 2, b, e);
    LaidAt(cells, dir, lu, pages, 2 * b + e);
  }

  lemma SmallFree(cells: seq<Cell>, dir: Dir, lu: seq<half>, pages: seq<Page>)
    requires Named(cells, dir) && Laid(cells, dir, lu, pages) && Regular(cells)
    ensures |DeletedPages(Pgs(|cells|), lu)| == 0
    ensures FreeBlocks(Of(cells), lu) == FreeHeads(cells)
    ensures FreePages(Pgs(|cells|), lu) == {} <==> FreeCells(cells) == {}
  {
    hide Named, Laid, CellIs, Pg, Entry;
    forall i | 0 <= i < |cells| ensures Pg(i) < |lu| && lu[Pg(i)] != DELETED_ID && (lu[Pg(i)] == FREE_ID <==> cells[i].Free?) {
      LaidAt(cells, dir, lu, pages, i);
    }
    assert DeletedPages(Pgs(|cells|), lu) == {};
    forall b | 0 <= b < |cells| / 2 ensures Entry(Of(cells), lu, b, 0) == FREE_ID <==> cells[2 * b].Free? {
      CellEntry(cells, dir, lu, pages, b, 0);
    }
    assert FreeBlocks(Of(cells), lu) == FreeHeads(cells);
    if i :| i in FreeCells(cells) { assert Pg(i) in FreePages(Pgs(|cells|), lu); }
    if p :| p in FreePages(Pgs(|cells|), lu) {
      var i :| 0 <= i < |cells| && p == Pg(i);
      assert i in FreeCells(cells);
    }
  }

  lemma SmallCursor(cells: seq<Cell>, dir: Dir, lu: seq<half>, pages: seq<Page>, fb: nat)
    requires Named(cells, dir) && Laid(cells, dir, lu, pages) && Regular(cells) && fb < |cells| / 2
    ensures FreeSuffix(Of(cells), lu) && CursorOk(Of(cells), lu, fb, 0)
  {
    hide Named, Laid, CellIs, Pg, Entry;
    forall b | 0 <= b < |cells| / 2 ensures Entry(Of(cells), lu, b, 0) == FREE_ID ==> Entry(Of(cells), lu, b, 1) == FREE_ID {
      CellEntry(cells, dir, lu, pages, b, 0);
      CellEntry(cells, dir, lu, pages, b, 1);
    }
  }

  function EntryFor(c: Cell): half {
    match c
    case Free => FREE_ID
    case Header(id) => if id < IX_FLAG then id + IX_FLAG else id
    case Body(id, s) => id
  }

  function PageFor(cells: seq<Cell>, dir: Dir, c: Cell): Page {
    match c
    case Free => Blank(Of(cells))
    case Header(id) =>
      if id in dir && id < IX_FLAG && |dir[id].name| == NAME_LEN && |Bytes(dir[id])| < UNDEFINED_LEN
      then IxPage(Of(cells), id, dir[id], 0) else Blank(Of(cells))
    case Body(id, s) =>
      if id in dir && s < 0xFFFF && s < |dir[id].chunks| && |dir[id].chunks[s]| <= 16
      then DataPage(Of(cells), id, s, dir[id].chunks[s]) else Blank(Of(cells))
  }

  /** The cell of a page; lookup pages hold nothing. */
  function CellOf(cells: seq<Cell>, p: nat): Cell {
    if p % 3 > 0 && 2 * (p / 3) + p % 3 - 1 < |cells| then cells[2 * (p / 3) + p % 3 - 1] else Free
  }

  lemma CellOfPg(cells: seq<Cell>, i: nat)
    requires i < |cells| && |cells| % 2 == 0
    ensures CellOf(cells, Pg(i)) == cells[i] && Pg(i) < 3 * (|cells| / 2)
  {
  }

  function LuOf(cells: seq<Cell>): (r: seq<half>)
    ensures |r| == 3 * (|cells| / 2) && forall p :: 0 <= p < |r| ==> r[p] == EntryFor(CellOf(cells, p))
  {
    seq(3 * (|cells| / 2), p requires 0 <= p < 3 * (|cells| / 2) => EntryFor(CellOf(cells, p)))
  }

  function PagesOf(cells: seq<Cell>, dir: Dir): (r: seq<Page>)
    ensures |r| == 3 * (|cells| / 2) && forall p :: 0 <= p < |r| ==> r[p] == PageFor(cells, dir, CellOf(cells, p))
  {
    seq(3 * (|cells| / 2), p requires 0 <= p < 3 * (|cells| / 2) => PageFor(cells, dir, CellOf(cells, p)))
  }

  lemma LaidOut(cells: seq<Cell>, dir: Dir)
    requires Named(cells, dir) && Regular(cells)
    ensures Laid(cells, dir, LuOf(cells), PagesOf(cells, dir))
  {
    hide Named, CellIs, LuOf, PagesOf, Pg;
    forall i | 0 <= i < |cells| ensures CellIs(cells, dir, LuOf(cells), PagesOf(cells, dir), i) { LaidCell(cells, dir, i); }
  }

  lemma LaidCell(cells: seq<Cell>, dir: Dir, i: nat)
    requires Named(cells, dir) && Regular(cells) && i < |cells|
    ensures CellIs(cells, dir, LuOf(cells), PagesOf(cells, dir), i)
  {
    hide Flatten, Full, InCell, LuOf, PagesOf, CellOf, Pg, Blank, IxPage, DataPage;
    CellOfPg(cells, i);
    ChunkFits(cells, dir, i);
  }

  lemma ChunkFits(cells: seq<Cell>, dir: Dir, i: nat)
    requires Named(cells, dir) && i < |cells|
    ensures Belongs(cells[i], dir, i)
    ensures cells[i].Body? ==> cells[i].s < 0xFFFF && |dir[cells[i].id].chunks[cells[i].s]| <= 16
  {
    hide InCell, Flatten;
  }

  lemma BlankShape(g: Geo)
    ensures PageShape(g, Blank(g))
  {
  }

  lemma FormedOut(cells: seq<Cell>, dir: Dir)
    requires Regular(cells) && Named(cells, dir)
    ensures Of(cells).Valid() && Formed(cells, dir, Of(cells), Of(cells).DataPages(), LuOf(cells), PagesOf(cells, dir)) && 4 <= |cells|
  {
    hide Named, Laid, LuOf, PagesOf, Pgs, Of;
    CellPages(cells);
    LaidOut(cells, dir);
  }

  /** There is a mounted file system whose flash holds the cells, whatever directory names them. */
  method Lay(cells: seq<Cell>, dir: Dir, freeBlk: nat, ghost surplus: nat, freeBlocks: int) returns (fs: Spiffs)
    requires Regular(cells) && Named(cells, dir) && freeBlk < |cells| / 2 && freeBlocks == |FreeHeads(cells)| + surplus
    ensures fresh(fs) && Mounted(fs, cells, dir) && fs.surplus == surplus && fs.dir == dir && fs.freeBlk == freeBlk
  {
    hide Named, LuOf, PagesOf, Blank, PageShape, UsedCells, FreeHeads, Regular, Of, Formed;
    var g, n := Of(cells), |cells| / 2;
    FormedOut(cells, dir);
    BlankShape(g);
    fs := new Spiffs(g, LuOf(cells), PagesOf(cells, dir));
    fs.dir := dir;
    SetCounts(fs, n, freeBlk, surplus, freeBlocks, |UsedCells(cells, |cells|)|);
  }

  method SetCounts(fs: Spiffs, n: nat, freeBlk: nat, ghost surplus: nat, freeBlocks: int, nAlloc: nat)
    modifies fs`eraseCnt, fs`freeBlk, fs`freeEnt, fs`freeBlocks, fs`nAlloc, fs`nDel, fs`cleaning, fs`surplus, fs`curBlk, fs`work
    ensures fs.freeBlk == freeBlk && fs.freeEnt == 0 && fs.curBlk == 0 && |fs.eraseCnt| == n && fs.work == Blank(fs.g) && !fs.cleaning
    ensures fs.nAlloc == nAlloc && fs.nDel == 0 && fs.freeBlocks == freeBlocks && fs.surplus == surplus
  {
    fs.eraseCnt := seq(n, i => 0);
    fs.freeBlk, fs.freeEnt, fs.nAlloc, fs.nDel := freeBlk, 0, nAlloc, 0;
    fs.surplus := surplus;
    fs.freeBlocks := freeBlocks;
    fs.curBlk, fs.cleaning, fs.work := 0, false, Blank(fs.g);
  }

  /** A descriptor that knows its file: open, with its size and its header page. */
  ghost predicate Knows(fd: Fd, dir: Dir, id: half) {
    && id in dir && 0 < id < 0x7FFF && |dir[id].ix| == 1 && |Bytes(dir[id])| < UNDEFINED_LEN
    && fd.fileNbr != 0 && fd.objId == id + IX_FLAG && fd.score > 0
    && fd.size == SizeField(|Bytes(dir[id])|) && fd.hdrPix == dir[id].ix[0] && fd.curPix == dir[id].ix[0] && fd.curSpix == 0
  }

  lemma KnowsOk(fd: Fd, dir: Dir, id: half)
    requires Knows(fd, dir, id)
    ensures FdPix(fd, dir) && FdSize(fd, dir) && IdOf(fd.objId) == id && fd.fileNbr != 0
  {
  }

  /** A descriptor that has been opened on object `id` and has got to `at`. */
  function OpenFd(n: nat, dir: Dir, id: half, at: nat, flags: OpenFlags, cache: CacheRef): Fd
    requires id in dir && id < IX_FLAG && |dir[id].ix| > 0 && |Bytes(dir[id])| < UNDEFINED_LEN
  {
    Fd(n, id + IX_FLAG, SizeField(|Bytes(dir[id])|), dir[id].ix[0], dir[id].ix[0], 0, at, flags, cache, 0, 4)
  }

  lemma OpenFdKnows(n: nat, dir: Dir, id: half, at: nat, flags: OpenFlags, cache: CacheRef)
    requires id in dir && 0 < id < 0x7FFF && |dir[id].ix| == 1 && |Bytes(dir[id])| < UNDEFINED_LEN && 0 < n
    ensures var fd := OpenFd(n, dir, id, at, flags, cache);
            Knows(fd, dir, id) && fd.fdoffset == at && fd.flags == flags && fd.cache == cache
  {
  }

  /** A small file: a header page and one data page. */
  function OneChunk(name: seq<byte>, hdr: half, data: half, c: seq<byte>): Obj { Obj(name, [hdr], [data], [c], false) }

  lemma OneChunkIs(n: nat, name: seq<byte>, hdr: half, data: half, c: seq<byte>)
    requires |name| == NAME_LEN && 0 < |c| <= 16
    ensures var o := OneChunk(name, hdr, data, c);
            Bytes(o) == c && ObjShape(Small(n), o) && Tight(Small(n), o) && |o.ix| == 1 && !o.doomed && o.lost == {}
  {
    var o := OneChunk(name, hdr, data, c);
    assert Flatten([c]) == Flatten([c][..0]) + c && Flatten([c][..0]) == [];
    assert Small(n).First(1) == Small(n).First(0) + 8;
  }

  // ---------------------------------------------------------------- a cached write that a read loses

  const CRAMMED: seq<Cell> := [Header(1), Body(1, 0), Free, Free]

  function CrammedDir(name: seq<byte>, c: seq<byte>): Dir { map[1 := OneChunk(name, 1, 2, c)] }

  /** Two blocks: one with the header of a file of ten bytes and its data page, and a free one.  The file is open for reading at
      its start, and through another descriptor five bytes have been written behind its end, which are in the write
      cache. */
  ghost predicate Crammed(fs: Spiffs, name: seq<byte>, c: seq<byte>, more: seq<byte>)
    reads fs
  {
    && |name| == NAME_LEN && |c| == 10 && |more| == 5
    && Mounted(fs, CRAMMED, CrammedDir(name, c)) && fs.surplus == 0
    && fs.wc == [WrPage(1 + IX_FLAG, 10, more)] && |fs.fds| == 2
    && Knows(fs.fds[0], fs.dir, 1) && fs.fds[0].fdoffset == 0 && fs.fds[0].cache == NoCache && fs.fds[0].flags.rd && !fs.fds[0].flags.direct
    && Knows(fs.fds[1], fs.dir, 1) && fs.fds[1].fdoffset == 15 && fs.fds[1].cache == Cached(0)
  }

  lemma CrammedUsed()
    ensures Regular(CRAMMED) && UsedCells(CRAMMED, 4) == {0, 1} && FreeHeads(CRAMMED) == {1} && FreeCells(CRAMMED) == {2, 3}
  {
    assert CRAMMED[2 * 1].Free?;
  }

  /** There is such a file system. */
  method MakeCrammed(name: seq<byte>, c: seq<byte>, more: seq<byte>, rd: OpenFlags, wr: OpenFlags) returns (fs: Spiffs)
    requires |name| == NAME_LEN && |c| == 10 && |more| == 5 && rd.rd && !rd.direct
    ensures fresh(fs) && Crammed(fs, name, c, more)
  {
    hide Flatten, ObjShape, Tight, Named, Mounted, UsedCells, FreeHeads, Regular, Knows, OpenFd, InCell;
    var dir := CrammedDir(name, c);
    OneChunkIs(2, name, 1, 2, c);
    CrammedUsed();
    CrammedNamed(name, c);
    fs := Lay(CRAMMED, dir, 1, 0, 1);
    fs.wc := [WrPage(1 + IX_FLAG, 10, more)];
    fs.fds := [OpenFd(1, dir, 1, 0, rd, NoCache), OpenFd(2, dir, 1, 15, wr, Cached(0))];
    OpenFdKnows(1, dir, 1, 0, rd, NoCache);
    OpenFdKnows(2, dir, 1, 15, wr, Cached(0));
  }

  lemma CrammedNamed(name: seq<byte>, c: seq<byte>)
    requires |name| == NAME_LEN && |c| == 10
    ensures Named(CRAMMED, CrammedDir(name, c))
  {
    hide Flatten, ObjShape, Tight;
    OneChunkIs(2, name, 1, 2, c);
    assert InCell(CRAMMED, 1, Header(1)) by { assert CRAMMED[0] == Header(1) && Pg(0) == 1; }
    assert InCell(CRAMMED, 2, Body(1, 0)) by { assert CRAMMED[1] == Body(1, 0) && Pg(1) == 2; }
  }

  lemma CrammedGood(fs: Spiffs, name: seq<byte>, c: seq<byte>, more: seq<byte>)
    requires Crammed(fs, name, c, more)
    ensures Good(fs, 64) && Bytes(fs.dir[1]) == c && PageOf(fs.wc, 1, 0) == 0 && Logical(fs.wc, fs.dir, 1) == c + more
    ensures CannotStore(fs, 1, 0) && OpenOn(fs, 0, 1) && fs.dir[1].lost == {}
  {
    hide Mounted, Flatten, Rep, ObjShape, Tight, Ready, Knows;
    OneChunkIs(2, name, 1, 2, c);
    MountedFields(fs, CRAMMED, CrammedDir(name, c));
    CrammedUsed();
    CrammedFds(fs.fds, fs.wc, name, c, more);
    MountedReady(fs, CRAMMED, CrammedDir(name, c));
    assert RefersBy(fs.fds, 1, 0);
    assert Keeps(fs.wc, 0, 1);
    assert Splice(c, 10, more) == c + more;
  }

  lemma CrammedFds(fds: seq<Fd>, wc: seq<CPage>, name: seq<byte>, c: seq<byte>, more: seq<byte>)
    requires |name| == NAME_LEN && |c| == 10 && |more| == 5 && wc == [WrPage(1 + IX_FLAG, 10, more)] && |fds| == 2
    requires Knows(fds[0], CrammedDir(name, c), 1) && fds[0].fdoffset == 0 && fds[0].cache == NoCache
    requires Knows(fds[1], CrammedDir(name, c), 1) && fds[1].fdoffset == 15 && fds[1].cache == Cached(0)
    ensures FdsOk(fds, wc, CrammedDir(name, c), 0, {}) && IdOf(fds[0].objId) == 1 && fds[0].fileNbr != 0
  {
    OneChunkIs(2, name, 1, 2, c);
    KnowsOk(fds[0], CrammedDir(name, c), 1);
    KnowsOk(fds[1], CrammedDir(name, c), 1);
  }

  lemma MountedReady(fs: Spiffs, cells: seq<Cell>, dir: Dir)
    requires Mounted(fs, cells, dir) && FdsOk(fs.fds, fs.wc, dir, 0, {}) && AllTight(Of(cells), dir)
    ensures Ready(fs)
  {
    hide Mounted, FdsOk, AllTight, Rep, Inv, Of;
    MountedOk(fs, cells, dir);
    MountedFields(fs, cells, dir);
  }

  lemma MountedFields(fs: Spiffs, cells: seq<Cell>, dir: Dir)
    requires Mounted(fs, cells, dir)
    ensures fs.g == Of(cells) && fs.dir == dir && !fs.cleaning && fs.nAlloc == |UsedCells(cells, |cells|)| && fs.nDel == 0
    ensures fs.freeBlocks == |FreeHeads(cells)| + fs.surplus && Named(cells, dir) && fs.freeEnt == 0
  {
  }

  /** A read of the whole file succeeds and gives the old content; the flush on the way finds no room, and the five bytes
      are gone. */
  method LostWrite(fs: Spiffs, ghost name: seq<byte>, ghost c: seq<byte>, ghost more: seq<byte>) returns (st: Status, dst: seq<byte>)
    requires Crammed(fs, name, c, more)
    modifies fs
    ensures st == OK && dst == c && Logical(old(fs.wc), old(fs.dir), 1) == c + more
    ensures 1 in fs.dir && PageOf(fs.wc, 1, 0) == |fs.wc| && Logical(fs.wc, fs.dir, 1) == c
  {
    hide Good, CannotStore, Mounted, Flatten, OnlyContent, OthersLogical, Loose;
    CrammedGood(fs, name, c, more);
    var flushed, dropped;
    ghost var stored, done;
    st, dst, flushed, stored, done, dropped := HydroRead(fs, 0, 1, 10, 64, 1);
    assert more[..0] == [];
    SplicedNothing(c, 10);
  }

  // ---------------------------------------------------------------- writing nothing

  /** Part of file `b` is read through descriptor h, and then nothing is written inside file `a` through descriptor f.  If the
      header of `b` is what the read looked at last, it becomes the header of `a`, which is kept only if it is the same
      file; otherwise an error tells that what is in the work buffer is no header. */
  method ReadThenWriteNothing(fs: Spiffs, f: nat, a: half, h: nat, b: half, at: nat, len: nat, offset: nat, room: nat)
    returns (st: Status)
    requires Ready(fs) && OpenOn(fs, f, a) && OpenOn(fs, h, b) && a in fs.dir && b in fs.dir && 0 < room
    requires fs.dir[a].lost == {} && Read.Apart(fs.g.dps, fs.dir[b].lost, at, at + len)
    requires 0 < len && at + len <= |Bytes(fs.dir[b])| && offset < |Bytes(fs.dir[a])|
    requires Quiet(fs, WithMeta(fs.g, 0)) && PageToHave(fs)
    modifies fs
    ensures Read.IxAt(fs.g, at + len - 1) == 0 ==>
              && st == OK && f < |fs.fds| && fs.fds[f].hdrPix as nat < |fs.pages|
              && HeaderIs(fs.g, b, old(fs.dir), fs.pages[fs.fds[f].hdrPix])
              && (StillHas(fs, old(fs.dir), a, fs.fds[f].hdrPix) <==> a == b)
    ensures Read.IxAt(fs.g, at + len - 1) > 0 ==> st == ERR_INDEX_SPAN_MISMATCH && Mid(fs, IDLE) && fs.dir == old(fs.dir)
  {
    hide Rep, FdsOk, Inv, Flatten, AllTight, NoneDoomed, FreePages, SomeDeletedBlock, StillHas, Read.IxAt, IxPage;
    ghost var fds := fs.fds;
    MidSound(fs, h, b);
    FdSizeField(fs, h, b);
    var dst;
    st, dst := Read.ObjectRead(fs, h, b, at, len);
    ghost var k, work := Read.IxAt(fs.g, at + len - 1), fs.work;
    CursorFds(fds, fs.fds, fs.wc, fs.dir, h);
    ViewedHeader(fs, a, b, k);
    ghost var stored, done, had;
    var dropped;
    st, stored, done, dropped, had := HydroWrite(fs, f, a, offset, [], room);
  }

  /** What is in the work buffer after the read, taken for a header. */
  lemma ViewedHeader(fs: Spiffs, a: half, b: half, k: nat)
    requires Viewing(fs, b, k) && Ready(fs) && a in fs.dir
    ensures Moved(fs.work) == fs.work && 0 < a < 0x7FFF
    ensures k == 0 ==> ValidateIx(fs.work, a + IX_FLAG, 0) == OK && HeaderIs(fs.g, b, fs.dir, fs.work)
    ensures k == 0 ==> (HeaderIs(fs.g, a, fs.dir, fs.work) <==> a == b)
    ensures k > 0 ==> ValidateIx(fs.work, a + IX_FLAG, 0) == ERR_INDEX_SPAN_MISMATCH
  {
    IxPlace(fs.g, fs.P, fs.lu, fs.pages, fs.dir, {}, b, k);
    IxPlace(fs.g, fs.P, fs.lu, fs.pages, fs.dir, {}, a, 0);
  }

  const TWO_FILES: seq<Cell> := 
    [Header(1), Body(1, 0), Header(2), Body(2, 0), Free, Free, Free, Free, Free, Free, Free, Free]

  function TwoDir(a: seq<byte>, x: seq<byte>, b: seq<byte>, y: seq<byte>): Dir {
    map[1 := OneChunk(a, 1, 2, x), 2 := OneChunk(b, 4, 5, y)]
  }

  /** Six blocks: two with a small file each, open through a descriptor of its own, and four free ones. */
  ghost predicate TwoFiles(fs: Spiffs, a: seq<byte>, x: seq<byte>, b: seq<byte>, y: seq<byte>)
    reads fs
  {
    && |a| == |b| == NAME_LEN && 2 <= |x| <= 16 && 0 < |y| <= 16
    && Mounted(fs, TWO_FILES, TwoDir(a, x, b, y)) && fs.surplus == 0 && |fs.fds| == 2
    && Knows(fs.fds[0], fs.dir, 1) && fs.fds[0].fdoffset == 0
    && Knows(fs.fds[1], fs.dir, 2) && fs.fds[1].fdoffset == 0 && fs.fds[1].cache == NoCache
  }

  lemma TwoUsed()
    ensures Regular(TWO_FILES) && UsedCells(TWO_FILES, 12) == {0, 1, 2, 3} && FreeHeads(TWO_FILES) == {2, 3, 4, 5}
    ensures 4 in FreeCells(TWO_FILES)
  {
    assert TWO_FILES[2 * 2].Free? && TWO_FILES[2 * 3].Free? && TWO_FILES[2 * 4].Free? && TWO_FILES[2 * 5].Free?;
  }

  method MakeTwoFiles(a: seq<byte>, x: seq<byte>, b: seq<byte>, y: seq<byte>, flags: OpenFlags) returns (fs: Spiffs)
    requires |a| == |b| == NAME_LEN && 2 <= |x| <= 16 && 0 < |y| <= 16
    ensures fresh(fs) && TwoFiles(fs, a, x, b, y) && fs.wc == [] && fs.fds[0].cache == NoCache
  {
    hide Flatten, ObjShape, Tight, Named, Mounted, UsedCells, FreeHeads, Regular, Knows, OpenFd, FreeCells;
    var dir := TwoDir(a, x, b, y);
    OneChunkIs(6, a, 1, 2, x);
    OneChunkIs(6, b, 4, 5, y);
    TwoUsed();
    TwoNamed(a, x, b, y);
    fs := Lay(TWO_FILES, dir, 2, 0, 4);
    fs.wc := [];
    fs.fds := [OpenFd(1, dir, 1, 0, flags, NoCache), OpenFd(2, dir, 2, 0, flags, NoCache)];
    OpenFdKnows(1, dir, 1, 0, flags, NoCache);
    OpenFdKnows(2, dir, 2, 0, flags, NoCache);
  }

  lemma TwoNamed(a: seq<byte>, x: seq<byte>, b: seq<byte>, y: seq<byte>)
    requires |a| == |b| == NAME_LEN && 2 <= |x| <= 16 && 0 < |y| <= 16
    ensures Named(TWO_FILES, TwoDir(a, x, b, y))
  {
    hide Flatten, ObjShape, Tight;
    OneChunkIs(6, a, 1, 2, x);
    OneChunkIs(6, b, 4, 5, y);
    assert InCell(TWO_FILES, 1, Header(1)) by { assert TWO_FILES[0] == Header(1) && Pg(0) == 1; }
    assert InCell(TWO_FILES, 2, Body(1, 0)) by { assert TWO_FILES[1] == Body(1, 0) && Pg(1) == 2; }
    assert InCell(TWO_FILES, 4, Header(2)) by { assert TWO_FILES[2] == Header(2) && Pg(2) == 4; }
    assert InCell(TWO_FILES, 5, Body(2, 0)) by { assert TWO_FILES[3] == Body(2, 0) && Pg(3) == 5; }
  }

  lemma TwoReady(fs: Spiffs, a: seq<byte>, x: seq<byte>, b: seq<byte>, y: seq<byte>)
    requires TwoFiles(fs, a, x, b, y) && CacheRefs(fs.fds, fs.wc)
    ensures Ready(fs) && OpenOn(fs, 0, 1) && OpenOn(fs, 1, 2) && Bytes(fs.dir[1]) == x && Bytes(fs.dir[2]) == y
  {
    hide Mounted, Flatten, Rep, ObjShape, Tight, Ready, Knows, CacheRefs, FdsOk, UsedCells, FreeHeads;
    MountedFields(fs, TWO_FILES, TwoDir(a, x, b, y));
    TwoFds(fs.fds, fs.wc, a, x, b, y);
    MountedReady(fs, TWO_FILES, TwoDir(a, x, b, y));
  }

  lemma TwoRoom(fs: Spiffs, a: seq<byte>, x: seq<byte>, b: seq<byte>, y: seq<byte>)
    requires TwoFiles(fs, a, x, b, y)
    ensures Quiet(fs, WithMeta(fs.g, 0)) && PageToHave(fs)
  {
    hide Mounted, Flatten, Rep, Knows, FreePages, FreeCells, SomeDeletedBlock, UsedCells, FreeHeads, Named, Exhausted, TwoDir,
      NoneDoomed, Inv;
    MountedFields(fs, TWO_FILES, TwoDir(a, x, b, y));
    TwoUsed();
    MountedOk(fs, TWO_FILES, TwoDir(a, x, b, y));
  }

  lemma TwoFds(fds: seq<Fd>, wc: seq<CPage>, a: seq<byte>, x: seq<byte>, b: seq<byte>, y: seq<byte>)
    requires |a| == |b| == NAME_LEN && 2 <= |x| <= 16 && 0 < |y| <= 16 && |fds| == 2 && CacheRefs(fds, wc)
    requires Knows(fds[0], TwoDir(a, x, b, y), 1) && fds[0].fdoffset == 0
    requires Knows(fds[1], TwoDir(a, x, b, y), 2) && fds[1].fdoffset == 0
    ensures FdsOk(fds, wc, TwoDir(a, x, b, y), 0, {}) && AllTight(Small(6), TwoDir(a, x, b, y))
    ensures IdOf(fds[0].objId) == 1 && fds[0].fileNbr != 0 && IdOf(fds[1].objId) == 2 && fds[1].fileNbr != 0
    ensures Bytes(TwoDir(a, x, b, y)[1]) == x && Bytes(TwoDir(a, x, b, y)[2]) == y
  {
    hide Flatten, ObjShape, Tight, CacheRefs, Knows;
    OneChunkIs(6, a, 1, 2, x);
    OneChunkIs(6, b, 4, 5, y);
    KnowsOk(fds[0], TwoDir(a, x, b, y), 1);
    KnowsOk(fds[1], TwoDir(a, x, b, y), 2);
  }

  /** Reading the second file and then writing nothing at the start of the first: the call succeeds, and the first file
      has the header of the second. */
  method WipedHeader(fs: Spiffs, ghost a: seq<byte>, ghost x: seq<byte>, ghost b: seq<byte>, ghost y: seq<byte>) returns (st: Status)
    requires TwoFiles(fs, a, x, b, y) && CacheRefs(fs.fds, fs.wc)
    modifies fs
    ensures st == OK && 0 < |fs.fds| && fs.fds[0].hdrPix as nat < |fs.pages|
    ensures HeaderIs(fs.g, 2, old(fs.dir), fs.pages[fs.fds[0].hdrPix]) && !StillHas(fs, old(fs.dir), 1, fs.fds[0].hdrPix)
  {
    hide TwoFiles, Ready, Quiet, PageToHave, Flatten, HeaderIs, StillHas;
    TwoReady(fs, a, x, b, y);
    TwoRoom(fs, a, x, b, y);
    TwoFields(fs, a, x, b, y);
    st := ReadThenWriteNothing(fs, 0, 1, 1, 2, 0, 1, 0, 1);
  }

  lemma TwoFields(fs: Spiffs, a: seq<byte>, x: seq<byte>, b: seq<byte>, y: seq<byte>)
    requires TwoFiles(fs, a, x, b, y)
    ensures 1 in fs.dir && 2 in fs.dir && |x| > 1 && |y| > 0 && Read.IxAt(fs.g, 0) == 0 && fs.dir[1].lost == fs.dir[2].lost == {}
    ensures Read.Apart(fs.g.dps, fs.dir[2].lost, 0, 1) && Ample(fs.g)
  {
  }

  /** A write page at offset 1 of the first file: everything is in order, but a truncation would strand it. */
  lemma StrandedPage(fs: Spiffs, a: seq<byte>, x: seq<byte>, b: seq<byte>, y: seq<byte>, data: seq<byte>)
    requires TwoFiles(fs, a, x, b, y) && 0 < |data| <= 64
    requires fs.wc == [WrPage(1 + IX_FLAG, 1, data)] && fs.fds[0].cache == Cached(0)
    ensures Good(fs, 64) && Files.Stranded(fs.wc, fs.dir, 1)
  {
    hide Flatten, Ready, Mounted;
    TwoReady(fs, a, x, b, y);
    TwoFields(fs, a, x, b, y);
    assert RefersBy(fs.fds, 0, 0);
    assert Keeps(fs.wc, 0, 1);
  }

  // ---------------------------------------------------------------- an overwrite that loses a page

  /** Four free blocks, one that begins with a header, and five that begin with the first five data pages of its file; the sixth is
      in cell `last`, the second of the header's block or of the last one. */
  function LongCell(last: nat, i: nat): Cell {
    if i == 8 then Header(1)
    else if i == last then Body(1, 5)
    else if 10 <= i && i % 2 == 0 then Body(1, (i - 10) / 2)
    else Free
  }

  function LongCells(last: nat): (r: seq<Cell>)
    ensures |r| == 20 && forall i :: 0 <= i < 20 ==> r[i] == LongCell(last, i)
  {
    seq(20, i requires 0 <= i < 20 => LongCell(last, i))
  }

  /** A file of six full pages. */
  function LongObj(name: seq<byte>, c: seq<seq<byte>>, last: nat): Obj
    requires last < 20
  {
    Obj(name, [13], [16, 19, 22, 25, 28, Pg(last)], c, false)
  }

  function LongDir(name: seq<byte>, c: seq<seq<byte>>, last: nat): Dir
    requires last < 20
  {
    map[1 := LongObj(name, c, last)]
  }

  predicate SixPages(name: seq<byte>, c: seq<seq<byte>>, last: nat) {
    |name| == NAME_LEN && |c| == 6 && (forall s :: 0 <= s < 6 ==> |c[s]| == 16) && (last == 9 || last == 19)
  }

  /** The file is open, and nothing has been deleted: five pages are to be had. */
  ghost predicate Long(fs: Spiffs, name: seq<byte>, c: seq<seq<byte>>, last: nat)
    reads fs
  {
    && SixPages(name, c, last) && Mounted(fs, LongCells(last), LongDir(name, c, last)) && fs.surplus == 0 && fs.freeBlk == 0
    && fs.wc == [] && |fs.fds| == 1 && Knows(fs.fds[0], fs.dir, 1) && fs.fds[0].fdoffset == 0 && fs.fds[0].cache == NoCache
  }

  lemma LongIs(name: seq<byte>, c: seq<seq<byte>>, last: nat)
    requires SixPages(name, c, last)
    ensures var o := LongObj(name, c, last); |Bytes(o)| == 96 && ObjShape(Small(10), o) && Tight(Small(10), o)
  {
    hide Flatten;
    FlattenLen(c, 16);
    StartIsProduct(16, 5);
    assert Small(10).First(1) == Small(10).First(0) + 8;
  }

  lemma LongUsed(last: nat)
    requires last == 9 || last == 19
    ensures Regular(LongCells(last)) && UsedCells(LongCells(last), 20) == {8, 10, 12, 14, 16, 18, last}
    ensures FreeHeads(LongCells(last)) == {0, 1, 2, 3}
  {
    var cells := LongCells(last);
    assert cells[2 * 0].Free? && cells[2 * 1].Free? && cells[2 * 2].Free? && cells[2 * 3].Free?;
  }

  lemma LongNamed(name: seq<byte>, c: seq<seq<byte>>, last: nat)
    requires SixPages(name, c, last)
    ensures Named(LongCells(last), LongDir(name, c, last))
  {
    hide Flatten, ObjShape, Tight, LongCells;
    var cells, dir := LongCells(last), LongDir(name, c, last);
    LongIs(name, c, last);
    assert InCell(cells, 13, Header(1)) by { assert cells[8] == Header(1) && Pg(8) == 13; }
    forall s | 0 <= s < 6 ensures InCell(cells, dir[1].data[s], Body(1, s)) { LongPage(name, c, last, s); }
  }

  lemma LongPage(name: seq<byte>, c: seq<seq<byte>>, last: nat, s: nat)
    requires SixPages(name, c, last) && s < 6
    ensures InCell(LongCells(last), LongDir(name, c, last)[1].data[s], Body(1, s))
  {
    var i := if s == 5 then last else 10 + 2 * s;
    assert LongCells(last)[i] == Body(1, s) && LongDir(name, c, last)[1].data[s] == Pg(i);
  }

  method MakeLong(name: seq<byte>, c: seq<seq<byte>>, last: nat, flags: OpenFlags) returns (fs: Spiffs)
    requires SixPages(name, c, last)
    ensures fresh(fs) && Long(fs, name, c, last)
  {
    hide Flatten, ObjShape, Tight, Named, Mounted, UsedCells, FreeHeads, Regular, Knows, OpenFd, LongCells;
    var dir := LongDir(name, c, last);
    LongIs(name, c, last);
    LongUsed(last);
    LongNamed(name, c, last);
    fs := Lay(LongCells(last), dir, 0, 0, 4);
    fs.wc := [];
    fs.fds := [OpenFd(1, dir, 1, 0, flags, NoCache)];
    OpenFdKnows(1, dir, 1, 0, flags, NoCache);
  }

  lemma LongReady(fs: Spiffs, name: seq<byte>, c: seq<seq<byte>>, last: nat)
    requires Long(fs, name, c, last)
    ensures Ready(fs) && OpenOn(fs, 0, 1) && 1 in fs.dir && |Bytes(fs.dir[1])| == 96 && fs.dir[1].lost == {} && fs.g == Small(10)
    ensures Quiet(fs, WithMeta(fs.g, 96)) && fs.freeEnt == 0 && fs.freeBlocks == 4 && SixPages(name, c, last)
  {
    hide Mounted, Flatten, Rep, Ready, Knows, Named, UsedCells, FreeHeads, ObjShape, Tight, Regular, LongCells;
    LongIs(name, c, last);
    LongUsed(last);
    MountedFields(fs, LongCells(last), LongDir(name, c, last));
    KnowsOk(fs.fds[0], fs.dir, 1);
    MountedReady(fs, LongCells(last), LongDir(name, c, last));
  }

  /** The overwrite as a run of six pages of which five can be had.  Where the sixth page is in the last block, with the fifth,
      that block is deleted as a whole when both are. */
  function LongCourse(name: seq<byte>, c: seq<seq<byte>>, last: nat): Course
    requires last < 20
  {
    Course(LongObj(name, c, last), 0, 6, if last == 9 then 6 else 5, 5)
  }

  lemma LongShelter(cells: seq<Cell>, dir: Dir, lu: seq<half>, pages: seq<Page>, last: nat, gone: set<nat>)
    requires (last == 9 || last == 19) && cells == LongCells(last) && Named(cells, dir) && Laid(cells, dir, lu, pages)
    requires gone <= if last == 9 then {16, 19, 22, 25, 28, 14} else {16, 19, 22, 25, 28}
    ensures Shelter(Small(10), lu, gone)
  {
    hide Named, Laid, Entry;
    forall b | 0 <= b < Small(10).blocks ensures Keeping(Small(10), lu, gone, b) {
      var e := if b <= 4 then 0 else 1;
      CellEntry(cells, dir, lu, pages, b, e);
      assert Stays(Small(10), lu, gone, b, e);
    }
  }

  lemma LongStraight(cells: seq<Cell>, dir: Dir, s: St, last: nat)
    requires (last == 9 || last == 19) && cells == LongCells(last) && Named(cells, dir) && Laid(cells, dir, s.lu, s.pages)
    requires s.freeBlk == 0 && s.freeEnt == 0 && s.freeBlocks == 4
    ensures Straight(Small(10), s)
  {
    hide Named, Laid, Entry;
    forall b | 0 <= b < 4 ensures Entry(Small(10), s.lu, b, 0) == FREE_ID { CellEntry(cells, dir, s.lu, s.pages, b, 0); }
  }

  lemma LongCourseOn(fs: Spiffs, name: seq<byte>, c: seq<seq<byte>>, last: nat)
    requires Long(fs, name, c, last)
    ensures OnCourse(fs, 1, LongCourse(name, c, last), 0)
  {
    hide Flatten, Ready, Knows, Straight, Shelter, Laid, Named;
    var cells, dir, course := LongCells(last), LongDir(name, c, last), LongCourse(name, c, last);
    LongReady(fs, name, c, last);
    LongStraight(cells, dir, fs.S(), last);
    LongShelter(cells, dir, fs.lu, fs.pages, last, DataSet(course.o, 0, course.m));
    assert DataSet(course.o, 0, 0) == {};
    assert Left(fs) == 5;
  }

  /** All six pages are overwritten at once.  The last is lost in any case.  When it shares its block with the header, there is no
      page either to store the index, and the call fails; but when it shares it with the fifth, this block is now deleted as a
      whole, the index is stored there, and the call succeeds. */
  method LostPage(fs: Spiffs, ghost name: seq<byte>, ghost c: seq<seq<byte>>, last: nat, data: seq<byte>)
    returns (st: Status, dropped: bool)
    requires Long(fs, name, c, last) && |data| == 96
    modifies fs
    ensures 1 in fs.dir && fs.dir[1].lost == {5} && dropped && (st == OK <==> last == 19)
  {
    hide Long, Ready, Quiet, OnCourse, Flatten, RunResult, Whole, Survived, OnlyContent, Tally, IsRun, Need, Stocked;
    LongReady(fs, name, c, last);
    LongCourseOn(fs, name, c, last);
    LongSpan(fs.g, name, c, last);
    ghost var course := LongCourse(name, c, last);
    ghost var stored, done, had;
    st, stored, done, dropped, had := HydroWrite(fs, 0, 1, 0, data, 1, course);
    LongEnds(fs, name, c, last, st);
  }

  lemma LongSpan(g: Geo, name: seq<byte>, c: seq<seq<byte>>, last: nat)
    requires g == Small(10) && last < 20
    ensures IsRun(g, 0, 96, LongCourse(name, c, last))
  {
    StartIsProduct(16, 6);
  }

  lemma LongEnds(fs: Spiffs, name: seq<byte>, c: seq<seq<byte>>, last: nat, st: Status)
    requires fs.g == Small(10) && SixPages(name, c, last) && RunResult(fs, 1, LongCourse(name, c, last), st)
    ensures 1 in fs.dir && fs.dir[1].lost == {5} && (st == OK <==> last == 19)
  {
    if last == 19 {
      SmallPix(10, 9, 0);
      SmallPix(10, 9, 1);
      DataSetIn(LongObj(name, c, last), 0, 6, 4);
      DataSetIn(LongObj(name, c, last), 0, 6, 5);
      assert VacatedBlock(Small(10), LongCourse(name, c, last), 9);
    }
  }

  // ---------------------------------------------------------------- an append that hollows the header

  const STUFFED: seq<Cell> := [Header(1), Header(2), Header(3), Header(4)]

  function EmptyObj(name: seq<byte>, hdr: half): Obj { Obj(name, [hdr], [], [], false) }

  function StuffedDir(a: seq<byte>, b: seq<byte>): Dir {
    map[1 := EmptyObj(a, 1), 2 := EmptyObj(b, 2), 3 := EmptyObj(b, 4), 4 := EmptyObj(b, 5)]
  }

  /** Two blocks and four empty files, so that no page is free; but four times a block has been erased that was free
      already, so that four blocks count as free. */
  ghost predicate Stuffed(fs: Spiffs, a: seq<byte>, b: seq<byte>)
    reads fs
  {
    && |a| == |b| == NAME_LEN && Mounted(fs, STUFFED, StuffedDir(a, b)) && fs.surplus == 4 && fs.wc == [] && |fs.fds| == 1
    && Knows(fs.fds[0], fs.dir, 1) && fs.fds[0].fdoffset == 0 && fs.fds[0].cache == NoCache
  }

  lemma StuffedUsed()
    ensures Regular(STUFFED) && UsedCells(STUFFED, 4) == {0, 1, 2, 3} && FreeHeads(STUFFED) == {} && FreeCells(STUFFED) == {}
  {
  }

  lemma EmptyIs(name: seq<byte>, hdr: half)
    requires |name| == NAME_LEN
    ensures var o := EmptyObj(name, hdr); Bytes(o) == [] && ObjShape(Small(2), o) && Tight(Small(2), o)
  {
    assert Small(2).First(1) == Small(2).First(0) + 8;
  }

  lemma StuffedIs(a: seq<byte>, b: seq<byte>)
    requires |a| == |b| == NAME_LEN
    ensures Named(STUFFED, StuffedDir(a, b)) && AllTight(Small(2), StuffedDir(a, b))
    ensures forall id :: id in StuffedDir(a, b) ==> Bytes(StuffedDir(a, b)[id]) == [] && |StuffedDir(a, b)[id].ix| == 1
  {
    hide Flatten, ObjShape, Tight;
    EmptyIs(a, 1);
    EmptyIs(b, 2);
    EmptyIs(b, 4);
    EmptyIs(b, 5);
    assert InCell(STUFFED, 1, Header(1)) by { assert STUFFED[0] == Header(1) && Pg(0) == 1; }
    assert InCell(STUFFED, 2, Header(2)) by { assert STUFFED[1] == Header(2) && Pg(1) == 2; }
    assert InCell(STUFFED, 4, Header(3)) by { assert STUFFED[2] == Header(3) && Pg(2) == 4; }
    assert InCell(STUFFED, 5, Header(4)) by { assert STUFFED[3] == Header(4) && Pg(3) == 5; }
  }

  method MakeStuffed(a: seq<byte>, b: seq<byte>, flags: OpenFlags) returns (fs: Spiffs)
    requires |a| == |b| == NAME_LEN
    ensures fresh(fs) && Stuffed(fs, a, b)
  {
    hide Named, Flatten, Mounted, UsedCells, FreeHeads, Regular, Knows, OpenFd, FreeCells, Tight;
    var dir := StuffedDir(a, b);
    StuffedIs(a, b);
    StuffedUsed();
    fs := Lay(STUFFED, dir, 0, 4, 4);
    fs.wc := [];
    fs.fds := [OpenFd(1, dir, 1, 0, flags, NoCache)];
    OpenFdKnows(1, dir, 1, 0, flags, NoCache);
  }

  lemma StuffedReady(fs: Spiffs, a: seq<byte>, b: seq<byte>)
    requires Stuffed(fs, a, b)
    ensures Ready(fs) && OpenOn(fs, 0, 1) && 1 in fs.dir && Bytes(fs.dir[1]) == [] && Exhausted(fs) && Tight(fs.g, fs.dir[1])
    ensures fs.dir[1].lost == {}
    ensures Quiet(fs, WithMeta(fs.g, 0x7FFF_FFFF)) && fs.g.dps == 16
  {
    hide Mounted, Flatten, Rep, Ready, Knows, FreePages, FreeCells, Named;
    StuffedIs(a, b);
    StuffedUsed();
    MountedFields(fs, STUFFED, StuffedDir(a, b));
    KnowsOk(fs.fds[0], fs.dir, 1);
    MountedReady(fs, STUFFED, StuffedDir(a, b));
    MountedOk(fs, STUFFED, StuffedDir(a, b));
  }

  /** The longest write a caller can ask for, at the end of an empty file: it looks negative to the collector, finds no page,
      and leaves a header whose size field is 0. */
  method HollowAppend(fs: Spiffs, ghost a: seq<byte>, ghost b: seq<byte>, data: seq<byte>) returns (st: Status)
    requires Stuffed(fs, a, b) && |data| == 0x7FFF_FFFF
    modifies fs
    ensures st != OK && Hollow(fs, 1)
  {
    hide Stuffed, Ready, Quiet, Exhausted, Flatten, Hollow, Tight;
    StuffedReady(fs, a, b);
    ReadyMid(fs);
    ghost var stored, done;
    st, stored, done := ObjectAppend(fs, 0, 1, 0, data, 1);
  }

  lemma ReadyMid(fs: Spiffs)
    requires Ready(fs)
    ensures Mid(fs, IDLE) && NoneDoomed(fs.dir) && !fs.cleaning
  {
  }
}
