/** Garbage collection: spiffs_gc_clean empties a block, its pages going to free pages elsewhere. */
module Gc {
  import opened Nor
  import opened Layout
  import opened Chunks
  import opened Image
  import opened Core
  import opened Descriptors
  import opened State
  import opened Alloc
  import opened Events
  import opened Objects

  // ---------------------------------------------------------------- progress through a block

  ghost predicate DataAt(g: Geo, lu: seq<half>, b: nat, e: nat) {
    Live(Entry(g, lu, b, e)) && !IsIx(Entry(g, lu, b, e))
  }

  ghost predicate IxAt(g: Geo, lu: seq<half>, b: nat, e: nat) {
    Live(Entry(g, lu, b, e)) && IsIx(Entry(g, lu, b, e))
  }

  /** A data page of object `id` that index page k names. */
  ghost predicate PartAt(g: Geo, lu: seq<half>, pages: seq<Page>, b: nat, e: nat, id: half, k: nat) {
    && g.Valid()
    && Entry(g, lu, b, e) == id
    && g.PixOf(b, e) < |pages| && g.IxOf(pages[g.PixOf(b, e)].span) == k
  }

  /** No data page below entry n. */
  ghost predicate NoData(g: Geo, lu: seq<half>, b: nat, n: nat) {
    forall e :: 0 <= e < n ==> !DataAt(g, lu, b, e)
  }

  ghost predicate NoIx(g: Geo, lu: seq<half>, b: nat, n: nat) {
    forall e :: 0 <= e < n ==> !IxAt(g, lu, b, e)
  }

  /** No data page below entry n, but for those that index page k of `id` names. */
  ghost predicate OnlyPart(g: Geo, lu: seq<half>, pages: seq<Page>, b: nat, n: nat, id: half, k: nat) {
    forall e :: 0 <= e < n && DataAt(g, lu, b, e) ==> PartAt(g, lu, pages, b, e, id, k)
  }

  ghost predicate NoPart(g: Geo, lu: seq<half>, pages: seq<Page>, b: nat, n: nat, id: half, k: nat) {
    forall e :: 0 <= e < n ==> !PartAt(g, lu, pages, b, e, id, k)
  }

  /** If the free cursor is in the block being emptied, a live page is right before it. */
  ghost predicate CursorLive(g: Geo, lu: seq<half>, b: nat, fb: nat, fe: nat) {
    fb == b ==> 0 < fe <= g.Entries() && Live(Entry(g, lu, b, fe - 1))
  }

  /** A page that is allocated while entry e of the block is in use lands behind e, if it lands in the block. */
  lemma LandsBehind(g: Geo, P: set<nat>, lu: seq<half>, b: nat, e: nat, q: nat)
    requires Entries(g, P) && |lu| == g.Pages() && FreeSuffix(g, lu)
    requires b < g.blocks && e < g.Entries() && Entry(g, lu, b, e) != FREE_ID
    requires q in P && lu[q] == FREE_ID && g.BlockOf(q) == b
    ensures e < g.EntryOf(q)
  {
    assert Entry(g, lu, b, g.EntryOf(q)) == FREE_ID;
  }

  /** The lookup table of block b after page src has moved to page q. */
  lemma MovedEntry(g: Geo, P: set<nat>, lu: seq<half>, lu': seq<half>, id: half, src: half, q: half, b: nat, e: nat)
    requires Entries(g, P) && |lu| == g.Pages() && src as nat in P && q as nat in P && LuMoved(lu, lu', id, src, q)
    requires b < g.blocks && e < g.Entries()
    ensures Entry(g, lu', b, e) ==
            if g.BlockOf(src) == b && g.EntryOf(src) == e then DELETED_ID
            else if g.BlockOf(q) == b && g.EntryOf(q) == e then id
            else Entry(g, lu, b, e)
  {
    EntryUpdate(g, P, lu, q, id, b, e);
    EntryUpdate(g, P, lu[q := id], src, DELETED_ID, b, e);
  }

  /** Moving a page uses up one free page. */
  lemma MovedFree(g: Geo, P: set<nat>, lu: seq<half>, lu': seq<half>, id: half, src: half, q: half)
    requires Entries(g, P) && |lu| == g.Pages() && src as nat in P && q as nat in P && LuMoved(lu, lu', id, src, q)
    requires Live(id) && lu[src] != FREE_ID
    ensures |FreePages(P, lu')| == |FreePages(P, lu)| - 1
  {
    OccupyCounts(g, P, lu, q, id);
    assert FreePages(P, lu') == FreePages(P, lu[q := id]);
  }

  lemma MovedCursor(g: Geo, P: set<nat>, lu: seq<half>, lu': seq<half>, id: half, src: half, q: half, b: nat, fb: nat, fe: nat)
    requires Entries(g, P) && |lu| == g.Pages() && src as nat in P && q as nat in P && LuMoved(lu, lu', id, src, q)
    requires Live(id) && lu[src] != FREE_ID && b < g.blocks
    requires fb == g.BlockOf(q) && fe == g.EntryOf(q) + 1
    ensures CursorLive(g, lu', b, fb, fe)
  {
    if fb == b { MovedEntry(g, P, lu, lu', id, src, q, b, g.EntryOf(q)); }
  }

  // ---------------------------------------------------------------- free pages against pages to move

  /** Index pages, or data pages, in block b, and free pages in it and outside. */
  function HeldIn(g: Geo, P: set<nat>, lu: seq<half>, b: nat, ix: bool): set<nat> requires 0 < g.ppb {
    set p | p in P && p < |lu| && g.BlockOf(p) == b && Live(lu[p]) && IsIx(lu[p]) == ix
  }

  function FreeIn(g: Geo, P: set<nat>, lu: seq<half>, b: nat): set<nat> requires 0 < g.ppb {
    set p | p in P && p < |lu| && g.BlockOf(p) == b && lu[p] == FREE_ID
  }

  function FreeOut(g: Geo, P: set<nat>, lu: seq<half>, b: nat): set<nat> requires 0 < g.ppb {
    set p | p in P && p < |lu| && g.BlockOf(p) != b && lu[p] == FREE_ID
  }

  /** What is left of the free pages outside block b when two are set aside for every data page and every free page in it,
      and one for every index page: a data page takes a page for itself and at most one for its index page, and what
      lands in the block has to be moved again. */
  function Budget(g: Geo, P: set<nat>, lu: seq<half>, b: nat): int requires 0 < g.ppb {
    |FreeOut(g, P, lu, b)| - 2 * |HeldIn(g, P, lu, b, false)| - |HeldIn(g, P, lu, b, true)| - 2 * |FreeIn(g, P, lu, b)|
  }

  lemma FreeMove(g: Geo, P: set<nat>, lu: seq<half>, lu': seq<half>, id: half, src: half, q: half, b: nat)
    requires 0 < g.ppb && q as nat in P && LuMoved(lu, lu', id, src, q) && Live(id) && lu[src] == id
    ensures |FreeIn(g, P, lu', b)| == |FreeIn(g, P, lu, b)| - if g.BlockOf(q) == b then 1 else 0
    ensures |FreeOut(g, P, lu', b)| == |FreeOut(g, P, lu, b)| - if g.BlockOf(q) == b then 0 else 1
  {
    assert FreeIn(g, P, lu', b) == FreeIn(g, P, lu, b) - {q as nat};
    assert FreeOut(g, P, lu', b) == FreeOut(g, P, lu, b) - {q as nat};
  }

  /** One entry is set. */
  lemma HeldSet(g: Geo, P: set<nat>, lu: seq<half>, p: nat, e: half, b: nat, ix: bool)
    requires 0 < g.ppb && p in P && p < |lu|
    ensures HeldIn(g, P, lu[p := e], b, ix) ==
            if g.BlockOf(p) == b && Live(e) && IsIx(e) == ix then HeldIn(g, P, lu, b, ix) + {p} else HeldIn(g, P, lu, b, ix) - {p}
  {
    var now, was := HeldIn(g, P, lu[p := e], b, ix), HeldIn(g, P, lu, b, ix);
    forall x | x != p ensures x in now <==> x in was {}
  }

  lemma HeldMove(g: Geo, P: set<nat>, lu: seq<half>, lu': seq<half>, id: half, src: half, q: half, b: nat, ix: bool)
    requires 0 < g.ppb && src as nat in P && q as nat in P && LuMoved(lu, lu', id, src, q) && Live(id) && lu[src] == id
    ensures |HeldIn(g, P, lu', b, ix)| == |HeldIn(g, P, lu, b, ix)| +
            if IsIx(id) != ix then 0 else (if g.BlockOf(q) == b then 1 else 0) - (if g.BlockOf(src) == b then 1 else 0)
  {
    HeldSet(g, P, lu, q, id, b, ix);
    HeldSet(g, P, lu[q := id], src, DELETED_ID, b, ix);
    assert q as nat !in HeldIn(g, P, lu, b, ix);
    assert src as nat in HeldIn(g, P, lu, b, ix) <==> g.BlockOf(src) == b && IsIx(id) == ix;
  }

  /** Moving a data page out of the block leaves one page over; moving an index page out of it leaves none over, and storing
      an index page from elsewhere costs one. */
  lemma BudgetMove(g: Geo, P: set<nat>, lu: seq<half>, lu': seq<half>, id: half, src: half, q: half, b: nat)
    requires 0 < g.ppb && src as nat in P && q as nat in P && LuMoved(lu, lu', id, src, q) && Live(id) && lu[src] == id
    ensures g.BlockOf(src) == b && !IsIx(id) ==> Budget(g, P, lu', b) > Budget(g, P, lu, b)
    ensures g.BlockOf(src) == b && IsIx(id) ==> Budget(g, P, lu', b) >= Budget(g, P, lu, b)
    ensures IsIx(id) ==> Budget(g, P, lu', b) >= Budget(g, P, lu, b) - 1
  {
    hide HeldIn, FreeIn, FreeOut;
    FreeMove(g, P, lu, lu', id, src, q, b);
    HeldMove(g, P, lu, lu', id, src, q, b, false);
    HeldMove(g, P, lu, lu', id, src, q, b, true);
  }

  /** Without a free page nothing is left over, and less than nothing while the block holds a page. */
  lemma BudgetSpent(g: Geo, P: set<nat>, lu: seq<half>, b: nat)
    requires 0 < g.ppb && FreePages(P, lu) == {}
    ensures Budget(g, P, lu, b) <= 0
    ensures (exists p :: p in P && p < |lu| && g.BlockOf(p) == b && Live(lu[p])) ==> Budget(g, P, lu, b) < 0
  {
    assert FreeOut(g, P, lu, b) <= FreePages(P, lu) && FreeIn(g, P, lu, b) <= FreePages(P, lu);
    if p :| p in P && p < |lu| && g.BlockOf(p) == b && Live(lu[p]) {
      assert p in HeldIn(g, P, lu, b, false) || p in HeldIn(g, P, lu, b, true);
    }
  }

  /** Twice as many free pages outside as are in use or free inside are enough. */
  lemma BudgetEnough(g: Geo, P: set<nat>, lu: seq<half>, b: nat)
    requires 0 < g.ppb && |FreeOut(g, P, lu, b)| >= 2 * |HeldIn(g, P, lu, b, false) + HeldIn(g, P, lu, b, true) + FreeIn(g, P, lu, b)|
    ensures Budget(g, P, lu, b) >= 0
  {
    var d, i, f := HeldIn(g, P, lu, b, false), HeldIn(g, P, lu, b, true), FreeIn(g, P, lu, b);
    assert d !! i && (d + i) !! f;
    assert |d + i + f| == |d + i| + |f| == |d| + |i| + |f|;
  }

  // ---------------------------------------------------------------- what emptying a block gains

  /** The pages that are free once block b has been emptied and erased as it is: the free ones, and the deleted ones in it. */
  function Gain(g: Geo, P: set<nat>, lu: seq<half>, b: nat): nat requires 0 < g.ppb {
    |FreePages(P, lu)| + |DeletedPages(P, lu) * BlockPages(g, P, b)|
  }

  /** How many index pages may have to be stored while block b is emptied: one for every data page in it, and for every data
      page that lands in it. */
  function Parts(g: Geo, P: set<nat>, lu: seq<half>, b: nat): nat requires 0 < g.ppb {
    if HeldIn(g, P, lu, b, false) == {} then 0 else |HeldIn(g, P, lu, b, false)| + |FreeIn(g, P, lu, b)|
  }

  lemma FreeSplit(g: Geo, P: set<nat>, lu: seq<half>, b: nat)
    requires 0 < g.ppb
    ensures |FreePages(P, lu)| == |FreeIn(g, P, lu, b)| + |FreeOut(g, P, lu, b)|
  {
    assert FreePages(P, lu) == FreeIn(g, P, lu, b) + FreeOut(g, P, lu, b);
    assert FreeIn(g, P, lu, b) !! FreeOut(g, P, lu, b);
  }

  lemma Commuted(s: set<nat>, t: set<nat>)
    ensures s * t == t * s
  {
  }

  lemma InBlock(g: Geo, P: set<nat>, p: nat, b: nat)
    requires 0 < g.ppb && p in P
    ensures p in BlockPages(g, P, b) <==> g.BlockOf(p) == b
  {
  }

  lemma DeletedMove(g: Geo, P: set<nat>, lu: seq<half>, lu': seq<half>, id: half, src: half, q: half, b: nat)
    requires 0 < g.ppb && src as nat in P && q as nat in P && LuMoved(lu, lu', id, src, q) && Live(id) && lu[src] == id
    ensures |DeletedPages(P, lu') * BlockPages(g, P, b)| == |DeletedPages(P, lu) * BlockPages(g, P, b)| + if g.BlockOf(src) == b then 1 else 0
  {
    hide BlockPages;
    assert DeletedPages(P, lu') == DeletedPages(P, lu) + {src as nat};
    OneMoreIn(BlockPages(g, P, b), DeletedPages(P, lu), src as nat);
    Commuted(DeletedPages(P, lu), BlockPages(g, P, b));
    Commuted(DeletedPages(P, lu'), BlockPages(g, P, b));
    InBlock(g, P, src, b);
  }

  /** A page moved out of block b leaves the gain as it is; an index page stored from elsewhere takes one off it. */
  lemma GainMove(g: Geo, P: set<nat>, lu: seq<half>, lu': seq<half>, id: half, src: half, q: half, b: nat)
    requires 0 < g.ppb && src as nat in P && q as nat in P && LuMoved(lu, lu', id, src, q) && Live(id) && lu[src] == id
    ensures Gain(g, P, lu', b) == Gain(g, P, lu, b) - if g.BlockOf(src) == b then 0 else 1
    ensures IsIx(id) ==> Parts(g, P, lu', b) <= Parts(g, P, lu, b)
    ensures g.BlockOf(src) == b && !IsIx(id) ==> Parts(g, P, lu', b) < Parts(g, P, lu, b)
  {
    hide FreeIn, FreeOut, FreePages, DeletedPages, BlockPages;
    FreeSplit(g, P, lu, b);
    FreeSplit(g, P, lu', b);
    FreeMove(g, P, lu, lu', id, src, q, b);
    DeletedMove(g, P, lu, lu', id, src, q, b);
    HeldMove(g, P, lu, lu', id, src, q, b, false);
    if g.BlockOf(src) == b && !IsIx(id) { assert src as nat in HeldIn(g, P, lu, b, false); }
  }

  /** Data pages have been moved out of block b. */
  ghost predicate Thinned(g: Geo, P: set<nat>, lu: seq<half>, lu': seq<half>, b: nat) {
    && 0 < g.ppb && Budget(g, P, lu', b) > Budget(g, P, lu, b)
    && Gain(g, P, lu', b) == Gain(g, P, lu, b) && Parts(g, P, lu', b) < Parts(g, P, lu, b)
  }

  /** Work on block b has lost no more of the gain than index pages needed storing. */
  ghost predicate Yields(g: Geo, P: set<nat>, lu: seq<half>, lu': seq<half>, b: nat) {
    && 0 < g.ppb && Budget(g, P, lu', b) >= Budget(g, P, lu, b)
    && Gain(g, P, lu', b) <= Gain(g, P, lu, b)
    && Gain(g, P, lu', b) - Parts(g, P, lu', b) >= Gain(g, P, lu, b) - Parts(g, P, lu, b)
  }

  lemma DataThins(g: Geo, P: set<nat>, lu: seq<half>, lu': seq<half>, id: half, src: half, q: half, b: nat)
    requires 0 < g.ppb && src as nat in P && q as nat in P && LuMoved(lu, lu', id, src, q) && Live(id) && lu[src] == id
    requires g.BlockOf(src) == b && !IsIx(id)
    ensures Thinned(g, P, lu, lu', b)
  {
    hide Budget, Gain, Parts;
    BudgetMove(g, P, lu, lu', id, src, q, b);
    GainMove(g, P, lu, lu', id, src, q, b);
  }

  lemma IxYields(g: Geo, P: set<nat>, lu: seq<half>, lu': seq<half>, id: half, src: half, q: half, b: nat)
    requires 0 < g.ppb && src as nat in P && q as nat in P && LuMoved(lu, lu', id, src, q) && Live(id) && lu[src] == id
    requires g.BlockOf(src) == b && IsIx(id)
    ensures Yields(g, P, lu, lu', b)
  {
    hide Budget, Gain, Parts;
    BudgetMove(g, P, lu, lu', id, src, q, b);
    GainMove(g, P, lu, lu', id, src, q, b);
  }

  /** Once data pages have been moved out of the block, an index page can be stored. */
  lemma StoreYields(g: Geo, P: set<nat>, was: seq<half>, lu: seq<half>, lu': seq<half>, id: half, src: half, q: half, b: nat)
    requires Thinned(g, P, was, lu, b)
    requires 0 < g.ppb && src as nat in P && q as nat in P && LuMoved(lu, lu', id, src, q) && Live(id) && lu[src] == id && IsIx(id)
    ensures Yields(g, P, was, lu', b)
  {
    hide Budget, Gain, Parts;
    BudgetMove(g, P, lu, lu', id, src, q, b);
    GainMove(g, P, lu, lu', id, src, q, b);
  }

  lemma YieldsRefl(g: Geo, P: set<nat>, lu: seq<half>, b: nat)
    requires 0 < g.ppb
    ensures Yields(g, P, lu, lu, b)
  {
  }

  /** Nothing but the free cursor has changed. */
  ghost predicate Still(s: St, s': St) { s' == s.(freeBlk := s'.freeBlk, freeEnt := s'.freeEnt) }

  // ---------------------------------------------------------------- the three kinds of moves

  const IDLE := Op({}, {}, 0)

  /** What the collector keeps: the meaning of every object, and what users of descriptors see. */
  ghost predicate Kept(dir: Dir, fds: seq<Fd>, wc: seq<CPage>, fs: Spiffs)
    reads fs
  {
    SameMeaning(dir, fs.dir) && SameUser(fds, fs.fds) && fs.wc == wc && fs.cleaning
  }

  /** The work buffer holds index page k of `id`, whose version on flash is out of date; nothing else is. */
  ghost predicate OneStale(fs: Spiffs, id: half, k: nat)
    reads fs
  {
    && id in fs.dir && id < IX_FLAG && k < |fs.dir[id].ix| && k < 0xFFFF && |fs.dir[id].name| == NAME_LEN
    && |Bytes(fs.dir[id])| < UNDEFINED_LEN
    && Mid(fs, Op({fs.dir[id].ix[k] as nat}, {}, 0)) && fs.work == IxPage(fs.g, id, fs.dir[id], k)
  }

  lemma StaleStalls(fs: Spiffs, id: half, k: nat)
    requires OneStale(fs, id, k)
    ensures Stalled(fs)
  {
    MidTorn(fs, Op({fs.dir[id].ix[k] as nat}, {}, 0), id, {});
  }

  /** A data page moves to page q, and the slot that names it follows. */
  lemma MovedData(g: Geo, P: set<nat>, lu: seq<half>, pages: seq<Page>, dir: Dir, dirty: set<nat>, id: half, s: nat,
                  q: half)
    requires FlashOk(g, P, lu, pages) && Rep(g, P, lu, pages, dir, dirty)
    requires id in dir && s < |dir[id].data| && g.IxOf(s) < |dir[id].ix| && dir[id].ix[g.IxOf(s)] as nat in dirty
    requires q as nat in P && lu[q] == FREE_ID && dir[id].data[s] as nat < |lu| && s !in dir[id].lost
    ensures var src := dir[id].data[s];
            Rep(g, P, lu[q := id][src := DELETED_ID], pages[q := pages[src]][src := Deleted(pages[src])],
                dir[id := dir[id].(data := dir[id].data[s := q])], dirty)
  {
    var src, o := dir[id].data[s], dir[id];
    assert DataOk(g, P, lu, pages, id, o, s);
    PutDataStep(g, P, lu, pages, dir, dirty, lu[q := id][src := DELETED_ID],
                pages[q := pages[src]][src := Deleted(pages[src])], id, s, q, o.chunks[s]);
    assert o.chunks[s := o.chunks[s]] == o.chunks;
  }

  /** Page q holds what page src held; pages other than these two are untouched. */
  ghost predicate PageCopied(P: set<nat>, pages: seq<Page>, pages': seq<Page>, src: half, q: half) {
    && |pages'| == |pages| && q as nat < |pages| && src as nat < |pages|
    && pages'[q] == pages[src]
    && forall p :: p in P && p < |pages| && p != src as nat && p != q as nat ==> pages'[p] == pages[p]
  }

  /** A data page is moved. */
  method MoveData(fs: Spiffs, id: half, k: half, s: half, src: half) returns (st: Status, q: half)
    requires fs.Ok() && fs.cleaning && id in fs.dir && k as nat < |fs.dir[id].ix|
    requires Rep(fs.g, fs.P, fs.lu, fs.pages, fs.dir, {fs.dir[id].ix[k] as nat})
    requires s as nat < |fs.dir[id].data| && fs.dir[id].data[s] == src && fs.g.IxOf(s) == k as nat && s as nat !in fs.dir[id].lost
    modifies fs`lu, fs`pages, fs`freeBlocks, fs`surplus, fs`maxErase, fs`eraseCnt, fs`nDel, fs`freeBlk, fs`freeEnt,
             fs`nAlloc, fs`work, fs`dir
    ensures old(fs.cleaning) && st != OK ==> Exhausted(fs)
    ensures fs.eraseCnt == old(fs.eraseCnt) && fs.maxErase == old(fs.maxErase)
    ensures Spacious(st)
    ensures fs.Ok() && fs.work == old(fs.work)
    ensures Rep(fs.g, fs.P, fs.lu, fs.pages, fs.dir, {old(fs.dir)[id].ix[k] as nat})
    ensures fs.dir == if st == OK then WithData(old(fs.dir), id, s, q) else old(fs.dir)
    ensures st == OK ==> q as nat in fs.P && LuMoved(old(fs.lu), fs.lu, id, src, q) && CursorBehind(fs, q)
    ensures st == OK ==> PageCopied(fs.P, old(fs.pages), fs.pages, src, q)
    ensures st != OK ==> fs.lu == old(fs.lu)
  {
    hide FreeSuffix, CursorOk, LivePages, DeletedPages, FreeBlocks, FreePages, PageShape, Entries, PageToHave, TakesNext;
    q := 0;
    ghost var dir, lu, pages, o := fs.dir, fs.lu, fs.pages, fs.dir[id];
    assert DataOk(fs.g, fs.P, lu, pages, id, o, s as nat);
    ghost var mlu, mpages;
    st, q, mlu, mpages := PageMove(fs, false, id, src);
    if st != OK {
      EraseStep(fs.g, fs.P, lu, pages, dir, {o.ix[k] as nat}, mlu, mpages);
      return;
    }
    MovedData(fs.g, fs.P, lu, pages, dir, {o.ix[k] as nat}, id, s as nat, q);
    fs.dir := WithData(dir, id, s, q);
  }

  ghost function WithData(dir: Dir, id: half, s: nat, q: half): Dir {
    if id in dir && s < |dir[id].data| then dir[id := dir[id].(data := dir[id].data[s := q])] else dir
  }

  /** The slot of an index page that names data page s, and the page when the slot is changed. */
  lemma SlotUpdate(g: Geo, id: half, o: Obj, s: nat, q: half, k: nat)
    requires g.Valid() && ObjShape(g, o) && id < IX_FLAG && s < |o.data| && g.IxOf(s) == k
    ensures k < |o.ix| && (if k == 0 then s else g.SlotOf(s)) == g.SlotOf(s) < g.Cap()
    ensures var was := IxPage(g, id, o, k);
            IxPage(g, id, o.(data := o.data[s := q]), k) == was.(slots := was.slots[g.SlotOf(s) := q])
  {
    IxCovers(g, o, s);
    SlotsForUpdate(g, o.data, s, q, k);
  }

  /** ... and the index page in the work buffer updated. */
  method MoveDataWork(fs: Spiffs, id: half, k: half, s: half, src: half) returns (st: Status, q: half)
    requires fs.Ok() && fs.cleaning && id in fs.dir && k as nat < |fs.dir[id].ix|
    requires Rep(fs.g, fs.P, fs.lu, fs.pages, fs.dir, {fs.dir[id].ix[k] as nat})
    requires fs.work == IxPage(fs.g, id, fs.dir[id], k as nat)
    requires s as nat < |fs.dir[id].data| && fs.dir[id].data[s] == src && fs.g.IxOf(s) == k as nat && s as nat !in fs.dir[id].lost
    modifies fs`lu, fs`pages, fs`freeBlocks, fs`surplus, fs`maxErase, fs`eraseCnt, fs`nDel, fs`freeBlk, fs`freeEnt,
             fs`nAlloc, fs`work, fs`dir
    ensures old(fs.cleaning) && st != OK ==> Exhausted(fs)
    ensures fs.eraseCnt == old(fs.eraseCnt) && fs.maxErase == old(fs.maxErase)
    ensures Spacious(st)
    ensures fs.Ok() && Rep(fs.g, fs.P, fs.lu, fs.pages, fs.dir, {old(fs.dir)[id].ix[k] as nat})
    ensures fs.dir == if st == OK then WithData(old(fs.dir), id, s, q) else old(fs.dir)
    ensures id in fs.dir && fs.work == IxPage(fs.g, id, fs.dir[id], k as nat)
    ensures st == OK ==> q as nat in fs.P && LuMoved(old(fs.lu), fs.lu, id, src, q) && CursorBehind(fs, q)
    ensures st == OK ==> PageCopied(fs.P, old(fs.pages), fs.pages, src, q)
    ensures st != OK ==> fs.lu == old(fs.lu)
  {
    hide LivePages, DeletedPages, FreeBlocks, FreePages, SomeDeletedBlock;
    ghost var o := fs.dir[id];
    assert fs.g.Valid() && ObjShape(fs.g, o) && id < IX_FLAG;
    st, q := MoveData(fs, id, k, s, src);
    if st != OK { return; }
    SlotUpdate(fs.g, id, o, s as nat, q, k as nat);
    var slot := if k == 0 then s as nat else fs.g.SlotOf(s);
    fs.work := fs.work.(slots := fs.work.slots[slot := q]);
  }

  lemma DataMoveKeeps(fds: seq<Fd>, wc: seq<CPage>, dir: Dir, id: half, s: nat, q: half)
    requires FdsOk(fds, wc, dir, 0, {}) && 0 !in dir
    ensures var dir' := WithData(dir, id, s, q);
            FdsOk(fds, wc, dir', 0, {}) && SameMeaning(dir, dir') && SameUser(fds, fds)
            && (id in dir ==> id in dir' && dir'[id].ix == dir[id].ix)
  {
    FdsFrame(fds, wc, dir, WithData(dir, id, s, q), 0, 0, {});
  }

  /** One data page of the part is moved. */
  method MoveDataPage(fs: Spiffs, id: half, k: half, s: half, src: half) returns (st: Status, q: half)
    requires fs.cleaning && id in fs.dir && k as nat < |fs.dir[id].ix|
    requires Mid(fs, Op({fs.dir[id].ix[k] as nat}, {}, 0))
    requires fs.work == IxPage(fs.g, id, fs.dir[id], k as nat)
    requires s as nat < |fs.dir[id].data| && fs.dir[id].data[s] == src && fs.g.IxOf(s) == k as nat && s as nat !in fs.dir[id].lost
    modifies fs
    ensures old(fs.cleaning) && st != OK ==> Exhausted(fs)
    ensures fs.eraseCnt == old(fs.eraseCnt) && fs.maxErase == old(fs.maxErase)
    ensures Spacious(st)
    ensures Kept(old(fs.dir), old(fs.fds), old(fs.wc), fs)
    ensures id in fs.dir && fs.dir[id].ix == old(fs.dir)[id].ix
    ensures Mid(fs, Op({old(fs.dir)[id].ix[k] as nat}, {}, 0))
    ensures fs.work == IxPage(fs.g, id, fs.dir[id], k as nat)
    ensures st == OK ==> q as nat in fs.P && LuMoved(old(fs.lu), fs.lu, id, src, q) && CursorBehind(fs, q)
    ensures st == OK ==> PageCopied(fs.P, old(fs.pages), fs.pages, src, q)
    ensures st != OK ==> fs.lu == old(fs.lu)
  {
    hide Inv, FdsOk, SameMeaning, SameUser, LuMoved, PageCopied, IxPage;
    ghost var dir := fs.dir;
    assert 0 !in dir;
    st, q := MoveDataWork(fs, id, k, s, src);
    if st != OK {
      NothingMoved(fs);
      return;
    }
    DataMoveKeeps(fs.fds, fs.wc, dir, id, s as nat, q);
  }

  /** Index page k of an object as it is on flash. */
  lemma IxContent(g: Geo, P: set<nat>, lu: seq<half>, pages: seq<Page>, dir: Dir, id: half, k: nat)
    requires Rep(g, P, lu, pages, dir, {}) && id in dir && k < |dir[id].ix|
    ensures var p := dir[id].ix[k];
            && 0 < id < 0x7FFF && p as nat in P && p as nat < |lu| == |pages| && lu[p] == id + IX_FLAG
            && k < 0xFFFF && |dir[id].name| == NAME_LEN && |Bytes(dir[id])| < UNDEFINED_LEN
            && pages[p] == IxPage(g, id, dir[id], k)
  {
    assert IxOk(g, P, lu, pages, {}, id, dir[id], k);
  }

  /** One index page is moved as it is. */
  method MoveIxRaw(fs: Spiffs, id: half, k: half, src: half) returns (st: Status, q: half)
    requires fs.Ok() && fs.cleaning && Rep(fs.g, fs.P, fs.lu, fs.pages, fs.dir, {})
    requires id in fs.dir && k as nat < |fs.dir[id].ix| && src == fs.dir[id].ix[k]
    modifies fs`lu, fs`pages, fs`freeBlocks, fs`surplus, fs`maxErase, fs`eraseCnt, fs`nDel, fs`freeBlk, fs`freeEnt,
             fs`nAlloc, fs`work, fs`dir
    ensures old(fs.cleaning) && st != OK ==> Exhausted(fs)
    ensures fs.eraseCnt == old(fs.eraseCnt) && fs.maxErase == old(fs.maxErase)
    ensures Spacious(st)
    ensures fs.Ok() && Rep(fs.g, fs.P, fs.lu, fs.pages, fs.dir, {})
    ensures fs.dir == if st == OK then WithIx(old(fs.dir), id, k as nat, q) else old(fs.dir)
    ensures st == OK ==> q as nat in fs.P && LuMoved(old(fs.lu), fs.lu, id + IX_FLAG, src, q) && CursorBehind(fs, q)
    ensures st != OK ==> fs.lu == old(fs.lu)
  {
    hide Rep, FreeSuffix, CursorOk, LivePages, DeletedPages, FreeBlocks, FreePages, PageShape, Entries, PageToHave, TakesNext,
      IxPage;
    q := 0;
    ghost var dir, lu, pages := fs.dir, fs.lu, fs.pages;
    IxContent(fs.g, fs.P, lu, pages, dir, id, k as nat);
    ghost var mlu, mpages;
    st, q, mlu, mpages := PageMove(fs, false, id + IX_FLAG, src);
    if st != OK {
      EraseStep(fs.g, fs.P, lu, pages, dir, {}, mlu, mpages);
      return;
    }
    MovedIx(fs.g, fs.P, lu, pages, mlu, mpages, dir, {}, id, k as nat, q);
    fs.dir := WithIx(dir, id, k as nat, q);
    assert {} - {src as nat} == {};
  }

  /** ... and the descriptors told. */
  method MoveIxPage(fs: Spiffs, id: half, k: half, src: half) returns (st: Status, q: half)
    requires fs.cleaning && Mid(fs, IDLE) && id in fs.dir && k as nat < |fs.dir[id].ix| && src == fs.dir[id].ix[k]
    modifies fs
    ensures old(fs.cleaning) && st != OK ==> Exhausted(fs)
    ensures fs.eraseCnt == old(fs.eraseCnt) && fs.maxErase == old(fs.maxErase)
    ensures Spacious(st)
    ensures Kept(old(fs.dir), old(fs.fds), old(fs.wc), fs) && Mid(fs, IDLE)
    ensures st == OK ==> q as nat in fs.P && LuMoved(old(fs.lu), fs.lu, id + IX_FLAG, src, q) && CursorBehind(fs, q)
    ensures st != OK ==> fs.lu == old(fs.lu)
  {
    hide Rep, FdsOk, SameMeaning, SameUser, FlashOk, FreeSuffix, CursorOk, WithIx;
    ghost var dir := fs.dir;
    RepIds(fs.g, fs.P, fs.lu, fs.pages, dir, {});
    st, q := MoveIxRaw(fs, id, k, src);
    if st != OK {
      NothingMoved(fs);
      return;
    }
    WithIxMeaning(dir, id, k as nat, q);
    TellMove(fs, id, k, q, 0, IxMov, dir, {}, 0);
  }

  // ---------------------------------------------------------------- passes over the block

  /** One move of the second pass: the entry at e is taken care of, earlier ones stay so. */
  lemma PassStep(g: Geo, P: set<nat>, lu: seq<half>, pages: seq<Page>, lu': seq<half>, pages': seq<Page>,
                 b: nat, e: nat, stored: nat, id: half, k: nat, src: half, q: half)
    requires Entries(g, P) && |lu| == g.Pages() && |pages| == g.Pages() && FreeSuffix(g, lu)
    requires b < g.blocks && e < g.Entries() && stored <= g.Entries()
    requires src as nat == g.PixOf(b, e) && src as nat in P && q as nat in P
    requires LuMoved(lu, lu', id, src, q) && PageCopied(P, pages, pages', src, q)
    requires Live(id) && !IsIx(id) && PartAt(g, lu, pages, b, e, id, k)
    requires OnlyPart(g, lu, pages, b, stored, id, k) && NoPart(g, lu, pages, b, e, id, k)
    ensures OnlyPart(g, lu', pages', b, stored, id, k) && NoPart(g, lu', pages', b, e + 1, id, k)
  {
    if g.BlockOf(q) == b { LandsBehind(g, P, lu, b, e, q); }
    forall e' | 0 <= e' < g.Entries()
      ensures e' == e ==> !PartAt(g, lu', pages', b, e', id, k) && !DataAt(g, lu', b, e')
      ensures e' != e && g.PixOf(b, e') != q as nat ==>
                && PartAt(g, lu', pages', b, e', id, k) == PartAt(g, lu, pages, b, e', id, k)
                && DataAt(g, lu', b, e') == DataAt(g, lu, b, e')
      ensures g.PixOf(b, e') == q as nat ==> e < e' && PartAt(g, lu', pages', b, e', id, k)
    {
      MovedEntry(g, P, lu, lu', id, src, q, b, e');
      assert g.PixOf(b, e') in P;
    }
  }

  /** A data entry seen during a scan belongs to an object, and its index page exists. */
  lemma DataOwner(g: Geo, P: set<nat>, lu: seq<half>, pages: seq<Page>, dir: Dir, dirty: set<nat>, p: nat)
    requires g.Valid() && Rep(g, P, lu, pages, dir, dirty) && p in P && Live(lu[p]) && !IsIx(lu[p])
    ensures lu[p] in dir && pages[p].span as nat < |dir[lu[p]].data| && dir[lu[p]].data[pages[p].span] as nat == p
    ensures g.IxOf(pages[p].span) < |dir[lu[p]].ix| && g.IxOf(pages[p].span) < 0xFFFF && pages[p].span as nat !in dir[lu[p]].lost
    ensures pages[p].flags.delet && p < 0x1_0000
  {
    assert Owned(lu[p], pages[p].span, p, dir);
    assert DataOk(g, P, lu, pages, lu[p], dir[lu[p]], pages[p].span as nat);
    IxCovers(g, dir[lu[p]], pages[p].span);
  }

  lemma IxOwner(g: Geo, P: set<nat>, lu: seq<half>, pages: seq<Page>, dir: Dir, dirty: set<nat>, p: nat)
    requires g.Valid() && Rep(g, P, lu, pages, dir, dirty) && p in P && Live(lu[p]) && IsIx(lu[p])
    ensures var id := lu[p] - IX_FLAG;
            id in dir && pages[p].span as nat < |dir[id].ix| && dir[id].ix[pages[p].span] as nat == p
    ensures pages[p].flags.delet && p < 0x1_0000
  {
    assert Owned(lu[p], pages[p].span, p, dir);
    assert IxOk(g, P, lu, pages, dirty, lu[p] - IX_FLAG, dir[lu[p] - IX_FLAG], pages[p].span as nat);
  }

  /** Second state of the collector: every data page in the block that index page k of `id` names is
      moved; the index page itself is kept up to date in the work buffer. */
  method MovePart(fs: Spiffs, bix: nat, id: half, k: half, stored: nat) returns (st: Status)
    requires fs.cleaning && id in fs.dir && k as nat < |fs.dir[id].ix|
    requires Mid(fs, Op({fs.dir[id].ix[k] as nat}, {}, 0))
    requires fs.work == IxPage(fs.g, id, fs.dir[id], k as nat)
    requires bix < fs.g.blocks && stored <= fs.g.Entries()
    requires OnlyPart(fs.g, fs.lu, fs.pages, bix, stored, id, k as nat)
    requires 0 < stored && PartAt(fs.g, fs.lu, fs.pages, bix, stored - 1, id, k as nat)
    requires CursorLive(fs.g, fs.lu, bix, fs.freeBlk, fs.freeEnt)
    modifies fs
    ensures old(fs.cleaning) && st != OK ==> Exhausted(fs)
    ensures fs.eraseCnt == old(fs.eraseCnt) && fs.maxErase == old(fs.maxErase)
    ensures Spacious(st)
    ensures Kept(old(fs.dir), old(fs.fds), old(fs.wc), fs)
    ensures id in fs.dir && fs.dir[id].ix == old(fs.dir)[id].ix
    ensures Mid(fs, Op({old(fs.dir)[id].ix[k] as nat}, {}, 0))
    ensures fs.work == IxPage(fs.g, id, fs.dir[id], k as nat)
    ensures if st == OK then Thinned(fs.g, fs.P, old(fs.lu), fs.lu, bix) else old(Budget(fs.g, fs.P, fs.lu, bix)) < 0
    ensures st == OK ==> NoData(fs.g, fs.lu, bix, stored)
    ensures st == OK ==> CursorLive(fs.g, fs.lu, bix, fs.freeBlk, fs.freeEnt)
    ensures st == OK ==> |FreePages(fs.P, fs.lu)| <= |FreePages(fs.P, old(fs.lu))|
  {
    st := OK;
    var e := 0;
    ghost var x := fs.dir[id].ix[k];
    assert NoPart(fs.g, fs.lu, fs.pages, bix, 0, id, k as nat);
    while e < fs.g.Entries()
      invariant e <= fs.g.Entries() && st == OK
      invariant fs.eraseCnt == old(fs.eraseCnt) && fs.maxErase == old(fs.maxErase)
      invariant (fs.lu == old(fs.lu) && fs.pages == old(fs.pages)) || Thinned(fs.g, fs.P, old(fs.lu), fs.lu, bix)
      invariant Kept(old(fs.dir), old(fs.fds), old(fs.wc), fs) && id in fs.dir && fs.dir[id].ix == old(fs.dir)[id].ix
      invariant Mid(fs, Op({x as nat}, {}, 0)) && fs.work == IxPage(fs.g, id, fs.dir[id], k as nat)
      invariant OnlyPart(fs.g, fs.lu, fs.pages, bix, stored, id, k as nat)
      invariant NoPart(fs.g, fs.lu, fs.pages, bix, e, id, k as nat)
      invariant CursorLive(fs.g, fs.lu, bix, fs.freeBlk, fs.freeEnt)
      invariant |FreePages(fs.P, fs.lu)| <= |FreePages(fs.P, old(fs.lu))|
    {
      ghost var dir, fds := fs.dir, fs.fds;
      st := MovePartEntry(fs, bix, id, k, stored, e);
      KeptTransitive(old(fs.dir), old(fs.fds), old(fs.wc), dir, fds, fs);
      if st != OK { return; }
      e := e + 1;
    }
  }

  /** ... one entry of that pass. */
  method MovePartEntry(fs: Spiffs, bix: nat, id: half, k: half, ghost stored: nat, e: nat) returns (st: Status)
    requires fs.cleaning && id in fs.dir && k as nat < |fs.dir[id].ix|
    requires Mid(fs, Op({fs.dir[id].ix[k] as nat}, {}, 0))
    requires fs.work == IxPage(fs.g, id, fs.dir[id], k as nat)
    requires bix < fs.g.blocks && stored <= fs.g.Entries() && e < fs.g.Entries()
    requires OnlyPart(fs.g, fs.lu, fs.pages, bix, stored, id, k as nat)
    requires NoPart(fs.g, fs.lu, fs.pages, bix, e, id, k as nat)
    requires CursorLive(fs.g, fs.lu, bix, fs.freeBlk, fs.freeEnt)
    modifies fs
    ensures old(fs.cleaning) && st != OK ==> Exhausted(fs)
    ensures fs.eraseCnt == old(fs.eraseCnt) && fs.maxErase == old(fs.maxErase)
    ensures Spacious(st)
    ensures Kept(old(fs.dir), old(fs.fds), old(fs.wc), fs)
    ensures id in fs.dir && fs.dir[id].ix == old(fs.dir)[id].ix
    ensures Mid(fs, Op({old(fs.dir)[id].ix[k] as nat}, {}, 0))
    ensures fs.work == IxPage(fs.g, id, fs.dir[id], k as nat)
    ensures st == OK ==>
              || (fs.lu == old(fs.lu) && fs.pages == old(fs.pages))
              || Thinned(fs.g, fs.P, old(fs.lu), fs.lu, bix)
    ensures st != OK ==> old(Budget(fs.g, fs.P, fs.lu, bix)) < 0
    ensures st == OK ==> OnlyPart(fs.g, fs.lu, fs.pages, bix, stored, id, k as nat)
    ensures st == OK ==> NoPart(fs.g, fs.lu, fs.pages, bix, e + 1, id, k as nat)
    ensures st == OK ==> CursorLive(fs.g, fs.lu, bix, fs.freeBlk, fs.freeEnt)
    ensures st == OK ==> |FreePages(fs.P, fs.lu)| <= |FreePages(fs.P, old(fs.lu))|
  {
    hide Budget, Thinned, Kept, FreePages, SameMeaning, SameUser, CursorLive, OnlyPart, FdsOk;
    ghost var lu, pages := fs.lu, fs.pages;
    var p := fs.g.PixOf(bix, e);
    assert p in fs.P && id < IX_FLAG && Live(id);
    NothingMoved(fs);
    if fs.lu[p] != id { return OK; }
    DataOwner(fs.g, fs.P, fs.lu, fs.pages, fs.dir, {fs.dir[id].ix[k] as nat}, p);
    var s := fs.pages[p].span;
    if fs.g.IxOf(s) != k as nat { return OK; }
    var q;
    st, q := MoveDataPage(fs, id, k, s, p);
    if st != OK {
      BudgetSpent(fs.g, fs.P, fs.lu, bix);
      return;
    }
    DataThins(fs.g, fs.P, lu, fs.lu, id, p, q, bix);
    PassStep(fs.g, fs.P, lu, pages, fs.lu, fs.pages, bix, e, stored, id, k as nat, p, q);
    MovedFree(fs.g, fs.P, lu, fs.lu, id, p, q);
    MovedCursor(fs.g, fs.P, lu, fs.lu, id, p, q, bix, fs.freeBlk, fs.freeEnt);
  }

  /** First state of the collector: the next data page from entry `from` on. */
  method FindData(fs: Spiffs, bix: nat, from: nat) returns (found: bool, e: nat)
    requires fs.Ok() && bix < fs.g.blocks && from <= fs.g.Entries()
    ensures from <= e <= fs.g.Entries()
    ensures forall e' :: from <= e' < e ==> !DataAt(fs.g, fs.lu, bix, e')
    ensures found <==> e < fs.g.Entries()
    ensures found ==> DataAt(fs.g, fs.lu, bix, e)
  {
    e := from;
    while e < fs.g.Entries()
      invariant from <= e <= fs.g.Entries()
      invariant forall e' :: from <= e' < e ==> !DataAt(fs.g, fs.lu, bix, e')
    {
      var id := fs.lu[fs.g.PixOf(bix, e)];
      if id != DELETED_ID && id != FREE_ID && !IsIx(id) { return true, e; }
      e := e + 1;
    }
    return false, e;
  }

  /** The index page that names the data page just found is put into the work buffer. */
  method LoadPart(fs: Spiffs, bix: nat, e: nat) returns (st: Status, id: half, k: half, pix: half)
    requires Mid(fs, IDLE) && bix < fs.g.blocks && e < fs.g.Entries() && DataAt(fs.g, fs.lu, bix, e)
    requires NoneDoomed(fs.dir)
    modifies fs`work, fs`curBlk, fs`curEnt
    ensures st == OK && fs.Ok()
    ensures id in fs.dir && k as nat < |fs.dir[id].ix| && fs.dir[id].ix[k] == pix
    ensures fs.work == IxPage(fs.g, id, fs.dir[id], k as nat)
    ensures PartAt(fs.g, fs.lu, fs.pages, bix, e, id, k as nat)
    ensures |Bytes(fs.dir[id])| > 0
  {
    var p := fs.g.PixOf(bix, e);
    assert p in fs.P;
    DataOwner(fs.g, fs.P, fs.lu, fs.pages, fs.dir, {}, p);
    id := fs.lu[p];
    k := fs.g.IxOf(fs.pages[p].span);
    // on a consistent file system the index page is there; otherwise the data page would be deleted
    st, pix := FindIx(fs, id, k, {});
    assert IxOk(fs.g, fs.P, fs.lu, fs.pages, {}, id, fs.dir[id], k as nat);
    fs.work := fs.pages[pix];
    st := ValidateIx(fs.work, id + IX_FLAG, k);
    HasBytes(fs.g, fs.dir[id]);
  }

  lemma HasBytes(g: Geo, o: Obj)
    requires ObjShape(g, o) && |o.data| > 0
    ensures |Bytes(o)| > 0
  {
    FlattenLen(o.chunks, g.dps);
  }

  ghost predicate NoneDoomed(dir: Dir) {
    forall id :: id in dir ==> !dir[id].doomed
  }

  /** End of the second state: the index page goes from the work buffer to a new page. */
  method StorePart(fs: Spiffs, id: half, k: half, pix: half) returns (st: Status, q: half)
    requires fs.cleaning && id in fs.dir && k as nat < |fs.dir[id].ix| && pix == fs.dir[id].ix[k]
    requires Mid(fs, Op({pix as nat}, {}, 0)) && |Bytes(fs.dir[id])| > 0
    requires fs.work == IxPage(fs.g, id, fs.dir[id], k as nat)
    modifies fs
    ensures old(fs.cleaning) && st != OK ==> Exhausted(fs)
    ensures fs.eraseCnt == old(fs.eraseCnt) && fs.maxErase == old(fs.maxErase)
    ensures Spacious(st)
    ensures Kept(old(fs.dir), old(fs.fds), old(fs.wc), fs)
    ensures if st == OK then Mid(fs, IDLE) else OneStale(fs, id, k as nat)
    ensures st == OK ==> q as nat in fs.P && LuMoved(old(fs.lu), fs.lu, id + IX_FLAG, pix, q) && CursorBehind(fs, q)
    ensures st == OK ==> id < 0x7FFF && pix as nat in fs.P && old(fs.lu)[pix] == id + IX_FLAG
    ensures st != OK ==> fs.lu == old(fs.lu)
  {
    assert IxOk(fs.g, fs.P, fs.lu, fs.pages, {pix as nat}, id, fs.dir[id], k as nat);
    assert pix as nat in fs.P && fs.lu[pix] == id + IX_FLAG && id < 0x7FFF;
    assert HdrPatched(fs.work, None, 0) == fs.work;
    assert {pix as nat} - {pix as nat} == {};
    ghost var dir, fds := fs.dir, fs.fds;
    if k == 0 {
      st, q := UpdateIndexHdr(fs, None, id, pix, true, None, 0, Op({pix as nat}, {}, 0));
    } else {
      st, q := StoreIx(fs, id, k, pix, 0, IxUpd, Op({pix as nat}, {}, 0));
    }
    WithIxMeaning(dir, id, k as nat, q);
    if st != OK { NothingMoved(fs); }
  }

  lemma RepIds(g: Geo, P: set<nat>, lu: seq<half>, pages: seq<Page>, dir: Dir, dirty: set<nat>)
    requires Rep(g, P, lu, pages, dir, dirty)
    ensures forall id :: id in dir ==> 0 < id < 0x7FFF
  {
  }

  lemma WithIxMeaning(dir: Dir, id: half, k: nat, q: half)
    ensures SameMeaning(dir, WithIx(dir, id, k, q))
  {
  }

  /** The second state of the collector as a whole: the data pages of the part, then its index page. */
  method CleanPart(fs: Spiffs, bix: nat, id: half, k: half, pix: half, stored: nat) returns (st: Status)
    requires fs.cleaning && PartLoaded(fs, bix, id, k, pix, stored) && bix < fs.g.blocks
    requires CursorLive(fs.g, fs.lu, bix, fs.freeBlk, fs.freeEnt)
    modifies fs
    ensures old(fs.cleaning) && st != OK ==> Exhausted(fs)
    ensures fs.eraseCnt == old(fs.eraseCnt) && fs.maxErase == old(fs.maxErase)
    ensures Spacious(st)
    ensures Kept(old(fs.dir), old(fs.fds), old(fs.wc), fs)
    ensures if st == OK then Mid(fs, IDLE) else OneStale(fs, id, k as nat)
    ensures if st == OK then Yields(fs.g, fs.P, old(fs.lu), fs.lu, bix) else old(Budget(fs.g, fs.P, fs.lu, bix)) < 0
    ensures st == OK ==> stored <= fs.g.Entries() && NoData(fs.g, fs.lu, bix, stored)
    ensures st == OK ==> CursorLive(fs.g, fs.lu, bix, fs.freeBlk, fs.freeEnt)
    ensures st == OK ==> |FreePages(fs.P, fs.lu)| < |FreePages(fs.P, old(fs.lu))|
  {
    st := MovePart(fs, bix, id, k, stored);
    if st != OK { return; }
    ghost var dir, fds, lu := fs.dir, fs.fds, fs.lu;
    assert Entries(fs.g, fs.P) && |lu| == fs.g.Pages();
    var q;
    st, q := StorePart(fs, id, k, pix);
    KeptTransitive(old(fs.dir), old(fs.fds), old(fs.wc), dir, fds, fs);
    if st != OK {
      BudgetSpent(fs.g, fs.P, fs.lu, bix);
      return;
    }
    StoreYields(fs.g, fs.P, old(fs.lu), lu, fs.lu, id + IX_FLAG, pix, q, bix);
    IxProgress(fs.g, fs.P, lu, fs.lu, id + IX_FLAG, pix, q, bix, stored, fs.freeBlk, fs.freeEnt);
  }

  /** Moving an index page brings no data page into the block. */
  lemma MovedNoData(g: Geo, P: set<nat>, lu: seq<half>, lu': seq<half>, id: half, src: half, q: half, b: nat, n: nat)
    requires Entries(g, P) && |lu| == g.Pages() && src as nat in P && q as nat in P && LuMoved(lu, lu', id, src, q)
    requires IsIx(id) && b < g.blocks && n <= g.Entries() && NoData(g, lu, b, n)
    ensures NoData(g, lu', b, n)
  {
    forall e | 0 <= e < n ensures !DataAt(g, lu', b, e) {
      assert !DataAt(g, lu, b, e);
      MovedEntry(g, P, lu, lu', id, src, q, b, e);
    }
  }

  /** Moving the index page at entry e leaves none up to e. */
  lemma MovedNoIx(g: Geo, P: set<nat>, lu: seq<half>, lu': seq<half>, id: half, src: half, q: half, b: nat, e: nat)
    requires Entries(g, P) && |lu| == g.Pages() && src as nat in P && q as nat in P && LuMoved(lu, lu', id, src, q)
    requires FreeSuffix(g, lu) && b < g.blocks && e < g.Entries() && NoIx(g, lu, b, e)
    requires src as nat == g.PixOf(b, e) && Entry(g, lu, b, e) != FREE_ID
    ensures NoIx(g, lu', b, e + 1)
  {
    if g.BlockOf(q) == b { LandsBehind(g, P, lu, b, e, q); }
    forall e' | 0 <= e' < e + 1 ensures !IxAt(g, lu', b, e') {
      assert e' < e ==> !IxAt(g, lu, b, e');
      MovedEntry(g, P, lu, lu', id, src, q, b, e');
    }
  }

  /** What moving an index page means for the progress of the collector. */
  lemma IxProgress(g: Geo, P: set<nat>, lu: seq<half>, lu': seq<half>, id: half, src: half, q: half, b: nat, n: nat,
                   fb: nat, fe: nat)
    requires Entries(g, P) && |lu| == g.Pages() && src as nat in P && q as nat in P && LuMoved(lu, lu', id, src, q)
    requires Live(id) && IsIx(id) && lu[src] != FREE_ID && b < g.blocks && n <= g.Entries() && NoData(g, lu, b, n)
    requires fb == g.BlockOf(q) && fe == g.EntryOf(q) + 1
    ensures NoData(g, lu', b, n) && CursorLive(g, lu', b, fb, fe)
    ensures |FreePages(P, lu')| < |FreePages(P, lu)|
  {
    MovedFree(g, P, lu, lu', id, src, q);
    MovedCursor(g, P, lu, lu', id, src, q, b, fb, fe);
    MovedNoData(g, P, lu, lu', id, src, q, b, n);
  }

  /** Third state of the collector: the index pages in the block are moved. */
  method MoveIndices(fs: Spiffs, bix: nat) returns (st: Status)
    requires fs.cleaning && Mid(fs, IDLE) && bix < fs.g.blocks && NoData(fs.g, fs.lu, bix, fs.g.Entries())
    requires CursorLive(fs.g, fs.lu, bix, fs.freeBlk, fs.freeEnt)
    modifies fs
    ensures old(fs.cleaning) && st != OK ==> Exhausted(fs)
    ensures fs.eraseCnt == old(fs.eraseCnt) && fs.maxErase == old(fs.maxErase)
    ensures Spacious(st)
    ensures Kept(old(fs.dir), old(fs.fds), old(fs.wc), fs) && Mid(fs, IDLE)
    ensures if st == OK then Yields(fs.g, fs.P, old(fs.lu), fs.lu, bix) else old(Budget(fs.g, fs.P, fs.lu, bix)) < 0
    ensures NoIx(fs.g, old(fs.lu), bix, fs.g.Entries()) ==> st == OK && fs.S() == old(fs.S())
    ensures st == OK ==> NoData(fs.g, fs.lu, bix, fs.g.Entries()) && NoIx(fs.g, fs.lu, bix, fs.g.Entries())
    ensures st == OK ==> CursorLive(fs.g, fs.lu, bix, fs.freeBlk, fs.freeEnt)
    ensures st == OK ==> |FreePages(fs.P, fs.lu)| <= |FreePages(fs.P, old(fs.lu))|
  {
    st := OK;
    var e := 0;
    assert NoIx(fs.g, fs.lu, bix, 0);
    while e < fs.g.Entries()
      invariant e <= fs.g.Entries() && st == OK
      invariant fs.eraseCnt == old(fs.eraseCnt) && fs.maxErase == old(fs.maxErase)
      invariant Kept(old(fs.dir), old(fs.fds), old(fs.wc), fs) && Mid(fs, IDLE)
      invariant NoData(fs.g, fs.lu, bix, fs.g.Entries()) && NoIx(fs.g, fs.lu, bix, e)
      invariant Yields(fs.g, fs.P, old(fs.lu), fs.lu, bix)
      invariant NoIx(fs.g, old(fs.lu), bix, fs.g.Entries()) ==> fs.S() == old(fs.S())
      invariant CursorLive(fs.g, fs.lu, bix, fs.freeBlk, fs.freeEnt)
      invariant |FreePages(fs.P, fs.lu)| <= |FreePages(fs.P, old(fs.lu))|
    {
      ghost var dir, fds := fs.dir, fs.fds;
      st := MoveIndexEntry(fs, bix, e);
      KeptTransitive(old(fs.dir), old(fs.fds), old(fs.wc), dir, fds, fs);
      if st != OK { return; }
      e := e + 1;
    }
  }

  lemma NoIxNext(g: Geo, lu: seq<half>, b: nat, e: nat)
    requires NoIx(g, lu, b, e) && !IxAt(g, lu, b, e)
    ensures NoIx(g, lu, b, e + 1)
  {
  }

  lemma NothingMoved(fs: Spiffs)
    requires fs.cleaning
    ensures Kept(fs.dir, fs.fds, fs.wc, fs)
  {
  }

  method MoveIndexEntry(fs: Spiffs, bix: nat, e: nat) returns (st: Status)
    requires fs.cleaning && Mid(fs, IDLE) && bix < fs.g.blocks && NoData(fs.g, fs.lu, bix, fs.g.Entries())
    requires e < fs.g.Entries() && NoIx(fs.g, fs.lu, bix, e)
    requires CursorLive(fs.g, fs.lu, bix, fs.freeBlk, fs.freeEnt)
    modifies fs
    ensures old(fs.cleaning) && st != OK ==> Exhausted(fs)
    ensures fs.eraseCnt == old(fs.eraseCnt) && fs.maxErase == old(fs.maxErase)
    ensures Spacious(st)
    ensures Kept(old(fs.dir), old(fs.fds), old(fs.wc), fs) && Mid(fs, IDLE)
    ensures if st == OK then Yields(fs.g, fs.P, old(fs.lu), fs.lu, bix) else old(Budget(fs.g, fs.P, fs.lu, bix)) < 0
    ensures !IxAt(fs.g, old(fs.lu), bix, e) ==> st == OK && fs.S() == old(fs.S())
    ensures st == OK ==> NoData(fs.g, fs.lu, bix, fs.g.Entries()) && NoIx(fs.g, fs.lu, bix, e + 1)
    ensures st == OK ==> CursorLive(fs.g, fs.lu, bix, fs.freeBlk, fs.freeEnt)
    ensures st == OK ==> |FreePages(fs.P, fs.lu)| <= |FreePages(fs.P, old(fs.lu))|
  {
    hide NoData, NoIx, CursorLive, Rep, FdsOk, FreeSuffix, CursorOk, SameMeaning, SameUser, Budget, Gain, Parts, Yields,
      FreePages, Kept, ObjShape, DirOk, PageShape, LivePages, DeletedPages, FreeBlocks, SomeDeletedBlock, Flatten, IxPage,
      LuMoved;
    ghost var lu := fs.lu;
    var p := fs.g.PixOf(bix, e);
    assert p in fs.P;
    var objId := fs.lu[p];
    if objId == DELETED_ID || objId == FREE_ID || !IsIx(objId) {
      NothingMoved(fs);
      YieldsRefl(fs.g, fs.P, fs.lu, bix);
      NoIxNext(fs.g, fs.lu, bix, e);
      return OK;
    }
    IxOwner(fs.g, fs.P, fs.lu, fs.pages, fs.dir, {}, p);
    var span := fs.pages[p].span;
    var q;
    st, q := MoveIxPage(fs, objId - IX_FLAG, span, p);
    if st != OK {
      BudgetSpent(fs.g, fs.P, fs.lu, bix);
      return;
    }
    IxYields(fs.g, fs.P, lu, fs.lu, objId, p, q, bix);
    IxProgress(fs.g, fs.P, lu, fs.lu, objId, p, q, bix, fs.g.Entries(), fs.freeBlk, fs.freeEnt);
    MovedNoIx(fs.g, fs.P, lu, fs.lu, objId, p, q, bix, e);
  }

  // ---------------------------------------------------------------- the collector

  datatype GcState = FIND_OBJ_DATA | MOVE_OBJ_DATA | MOVE_OBJ_IX | FINISHED

  function Rank(s: GcState): nat {
    match s
    case FIND_OBJ_DATA => 3
    case MOVE_OBJ_DATA => 2
    case MOVE_OBJ_IX => 1
    case FINISHED => 0
  }

  lemma KeptTransitive(dir: Dir, fds: seq<Fd>, wc: seq<CPage>, dir': Dir, fds': seq<Fd>, fs: Spiffs)
    requires SameMeaning(dir, dir') && SameUser(fds, fds')
    requires Kept(dir', fds', wc, fs)
    ensures Kept(dir, fds, wc, fs)
  {
    SameUserTransitive(fds, fds', fs.fds);
  }

  /** Second state: the work buffer holds index page k of `id`, and every data page below entry `stored`
      is one that it names. */
  ghost predicate PartLoaded(fs: Spiffs, bix: nat, id: half, k: half, pix: half, stored: nat)
    reads fs
  {
    && id in fs.dir && k as nat < |fs.dir[id].ix| && pix == fs.dir[id].ix[k]
    && Mid(fs, Op({pix as nat}, {}, 0)) && |Bytes(fs.dir[id])| > 0
    && fs.work == IxPage(fs.g, id, fs.dir[id], k as nat)
    && 0 < stored <= fs.g.Entries()
    && OnlyPart(fs.g, fs.lu, fs.pages, bix, stored, id, k as nat)
    && PartAt(fs.g, fs.lu, fs.pages, bix, stored - 1, id, k as nat)
  }

  /** The first state of the collector as a whole. */
  method FindPart(fs: Spiffs, bix: nat, curEntry: nat) returns (found: bool, id: half, k: half, pix: half, stored: nat)
    requires Mid(fs, IDLE) && NoneDoomed(fs.dir) && bix < fs.g.blocks
    requires curEntry <= fs.g.Entries() && NoData(fs.g, fs.lu, bix, curEntry)
    modifies fs`work, fs`curBlk, fs`curEnt
    ensures found ==> PartLoaded(fs, bix, id, k, pix, stored) && !NoData(fs.g, fs.lu, bix, fs.g.Entries())
    ensures !found ==> Mid(fs, IDLE) && NoData(fs.g, fs.lu, bix, fs.g.Entries())
  {
    hide Rep, FdsOk, IxPage, FlashOk, FreeSuffix, CursorOk, OnlyPart, PartAt, NoData, DataAt, LivePages, DeletedPages, FreeBlocks;
    id, k, pix, stored := 0, 0, 0, 0;
    var e;
    found, e := FindData(fs, bix, curEntry);
    NoDataTo(fs.g, fs.lu, bix, curEntry, e);
    if found {
      stored := e + 1;
      var st;
      st, id, k, pix := LoadPart(fs, bix, e);
      OnlyPartTo(fs.g, fs.lu, fs.pages, bix, e, id, k);
      RepWeaken(fs.g, fs.P, fs.lu, fs.pages, fs.dir, {}, {pix as nat});
      DataThere(fs.g, fs.lu, bix, e);
    }
  }

  lemma DataThere(g: Geo, lu: seq<half>, b: nat, e: nat)
    requires e < g.Entries() && DataAt(g, lu, b, e)
    ensures !NoData(g, lu, b, g.Entries())
  {
  }

  lemma NoDataTo(g: Geo, lu: seq<half>, b: nat, from: nat, e: nat)
    requires NoData(g, lu, b, from) && forall e' :: from <= e' < e ==> !DataAt(g, lu, b, e')
    ensures NoData(g, lu, b, e)
  {
  }

  lemma OnlyPartTo(g: Geo, lu: seq<half>, pages: seq<Page>, b: nat, e: nat, id: half, k: nat)
    requires NoData(g, lu, b, e) && PartAt(g, lu, pages, b, e, id, k)
    ensures OnlyPart(g, lu, pages, b, e + 1, id, k)
  {
  }

  lemma NoneLive(g: Geo, P: set<nat>, lu: seq<half>, bix: nat, fb: nat, fe: nat)
    requires Entries(g, P) && |lu| == g.Pages() && bix < g.blocks
    requires NoData(g, lu, bix, g.Entries()) && NoIx(g, lu, bix, g.Entries()) && CursorLive(g, lu, bix, fb, fe)
    ensures forall p :: p in P && g.BlockOf(p) == bix ==> !Live(lu[p])
    ensures fb != bix
  {
    forall e | 0 <= e < g.Entries() ensures !Live(Entry(g, lu, bix, e)) {
      assert !DataAt(g, lu, bix, e) && !IxAt(g, lu, bix, e);
    }
    forall p | p in P && g.BlockOf(p) == bix ensures !Live(lu[p]) {
      assert !Live(Entry(g, lu, bix, g.EntryOf(p)));
    }
  }

  /** What holds in each state of the collector. */
  ghost predicate GcInv(fs: Spiffs, bix: nat, state: GcState, curEntry: nat, stored: nat, id: half, k: half, pix: half)
    reads fs
  {
    match state
    case FIND_OBJ_DATA => Mid(fs, IDLE) && curEntry <= fs.g.Entries() && NoData(fs.g, fs.lu, bix, curEntry)
    case MOVE_OBJ_DATA => PartLoaded(fs, bix, id, k, pix, stored)
    case MOVE_OBJ_IX => Mid(fs, IDLE) && NoData(fs.g, fs.lu, bix, fs.g.Entries())
    case FINISHED =>
      Mid(fs, IDLE) && NoData(fs.g, fs.lu, bix, fs.g.Entries()) && NoIx(fs.g, fs.lu, bix, fs.g.Entries())
  }

  /** No live page is in block b. */
  ghost predicate Empty(g: Geo, lu: seq<half>, b: nat) requires g.Valid() {
    NoData(g, lu, b, g.Entries()) && NoIx(g, lu, b, g.Entries())
  }

  /** One turn of the collector, in the state it is in. */
  method GcTurn(fs: Spiffs, bix: nat, state: GcState, curEntry: nat, stored: nat, curObj: half, curSpix: half, curPix: half)
    returns (st: Status, next: GcState, entry: nat, upTo: nat, obj: half, spix: half, pix: half)
    requires fs.cleaning && NoneDoomed(fs.dir) && bix < fs.g.blocks && state != FINISHED
    requires CursorLive(fs.g, fs.lu, bix, fs.freeBlk, fs.freeEnt)
    requires GcInv(fs, bix, state, curEntry, stored, curObj, curSpix, curPix)
    modifies fs
    ensures st != OK ==> Exhausted(fs) && Stalled(fs) && old(Budget(fs.g, fs.P, fs.lu, bix)) < 0
    ensures fs.eraseCnt == old(fs.eraseCnt) && fs.maxErase == old(fs.maxErase)
    ensures Spacious(st) && Kept(old(fs.dir), old(fs.fds), old(fs.wc), fs)
    ensures st == OK ==> CursorLive(fs.g, fs.lu, bix, fs.freeBlk, fs.freeEnt)
    ensures st == OK ==> Yields(fs.g, fs.P, old(fs.lu), fs.lu, bix)
    ensures Empty(fs.g, old(fs.lu), bix) && state != MOVE_OBJ_DATA ==> st == OK && next != MOVE_OBJ_DATA && fs.S() == old(fs.S())
    ensures st == OK ==> GcInv(fs, bix, next, entry, upTo, obj, spix, pix)
    ensures st == OK ==> |FreePages(fs.P, fs.lu)| <= |FreePages(fs.P, old(fs.lu))|
    ensures st == OK ==> |FreePages(fs.P, fs.lu)| < |FreePages(fs.P, old(fs.lu))| || Rank(next) < Rank(state)
  {
    hide Rep, FdsOk, Inv, NoData, NoIx, OnlyPart, PartAt, CursorLive, SameUser, SameMeaning, IxPage, Budget, FreePages,
      NoneDoomed, Gain, Parts;
    GcShape(fs, bix, state, curEntry, stored, curObj, curSpix, curPix);
    st, next, entry, upTo, obj, spix, pix := OK, FINISHED, 0, stored, curObj, curSpix, curPix;
    match state
    case FIND_OBJ_DATA =>
      NothingMoved(fs);
      var found;
      found, obj, spix, pix, upTo := FindPart(fs, bix, curEntry);
      // the scan restarts; `upTo` keeps where the search goes on
      next := if found then MOVE_OBJ_DATA else MOVE_OBJ_IX;
    case MOVE_OBJ_DATA =>
      st := CleanPart(fs, bix, curObj, curSpix, curPix, stored);
      if st != OK { StaleStalls(fs, curObj, curSpix as nat); }
      entry := stored;
      next := FIND_OBJ_DATA;
    case MOVE_OBJ_IX =>
      st := MoveIndices(fs, bix);
  }

  lemma GcShape(fs: Spiffs, bix: nat, state: GcState, curEntry: nat, stored: nat, id: half, k: half, pix: half)
    requires GcInv(fs, bix, state, curEntry, stored, id, k, pix)
    ensures fs.g.Valid() && 0 < fs.g.ppb && Entries(fs.g, fs.P) && |fs.lu| == fs.g.Pages()
  {
  }

  /** spiffs_gc_clean: every object keeps its name and its bytes, and no user of a descriptor notices.  When it
      succeeds, the block holds no live page any more; when it fails, no page is free and at most one index
      page on flash is out of date.  It cannot fail when there are enough free pages outside the block, such as twice
      what is in use or free in it (see BudgetEnough). */
  method GcClean(fs: Spiffs, bix: nat) returns (st: Status)
    requires fs.cleaning && Mid(fs, IDLE) && NoneDoomed(fs.dir) && bix < fs.g.blocks
    modifies fs
    ensures old(fs.cleaning) && st != OK ==> Exhausted(fs)
    ensures fs.eraseCnt == old(fs.eraseCnt) && fs.maxErase == old(fs.maxErase)
    ensures Spacious(st)
    ensures Kept(old(fs.dir), old(fs.fds), old(fs.wc), fs) && NoneDoomed(fs.dir)
    ensures if st == OK then Mid(fs, IDLE) else Stalled(fs)
    ensures old(Budget(fs.g, fs.P, fs.lu, bix)) >= 0 ==> st == OK
    ensures st == OK ==> forall p :: p in fs.P && fs.g.BlockOf(p) == bix ==> !Live(fs.lu[p])
    ensures st == OK ==> fs.freeBlk != bix
    ensures st == OK ==> Yields(fs.g, fs.P, old(fs.lu), fs.lu, bix)
    ensures Empty(fs.g, old(fs.lu), bix) ==> st == OK && Still(old(fs.S()), fs.S())
  {
    hide Rep, FdsOk, Inv, NoData, NoIx, PartLoaded, CursorLive, SameUser, SameMeaning, IxPage, Budget, NoneDoomed, FreePages,
      Torn, Gain, Parts, Empty;
    st := OK;
    SameUserRefl(fs.fds);
    SkipCursor(fs, bix);
    var state := FIND_OBJ_DATA;
    var curEntry: nat, stored: nat := 0, 0;
    var curObj: half, curSpix: half, curPix: half := 0, 0, 0;
    GcBegins(fs, bix);
    KeptRefl(fs);
    while state != FINISHED
      invariant st == OK
      invariant Kept(old(fs.dir), old(fs.fds), old(fs.wc), fs) && NoneDoomed(fs.dir)
      invariant fs.eraseCnt == old(fs.eraseCnt) && fs.maxErase == old(fs.maxErase)
      invariant CursorLive(fs.g, fs.lu, bix, fs.freeBlk, fs.freeEnt)
      invariant Yields(fs.g, fs.P, old(fs.lu), fs.lu, bix)
      invariant Empty(fs.g, old(fs.lu), bix) ==> state != MOVE_OBJ_DATA && Still(old(fs.S()), fs.S())
      invariant GcInv(fs, bix, state, curEntry, stored, curObj, curSpix, curPix)
      decreases |FreePages(fs.P, fs.lu)|, Rank(state)
    {
      ghost var dir, fds := fs.dir, fs.fds;
      st, state, curEntry, stored, curObj, curSpix, curPix := GcTurn(fs, bix, state, curEntry, stored, curObj, curSpix, curPix);
      KeptTransitive(old(fs.dir), old(fs.fds), old(fs.wc), dir, fds, fs);
      KeptUndoomed(dir, fs.dir);
      if st != OK { return; }
    }
    GcShape(fs, bix, state, curEntry, stored, curObj, curSpix, curPix);
    NoneLive(fs.g, fs.P, fs.lu, bix, fs.freeBlk, fs.freeEnt);
  }

  lemma KeptRefl(fs: Spiffs)
    requires fs.cleaning
    ensures Kept(fs.dir, fs.fds, fs.wc, fs)
  {
  }

  lemma KeptUndoomed(dir: Dir, dir': Dir)
    requires SameMeaning(dir, dir') && NoneDoomed(dir)
    ensures NoneDoomed(dir')
  {
  }

  lemma SameUserRefl(fds: seq<Fd>)
    ensures SameUser(fds, fds)
  {
  }

  lemma GcBegins(fs: Spiffs, bix: nat)
    requires Mid(fs, IDLE)
    ensures GcInv(fs, bix, FIND_OBJ_DATA, 0, 0, 0, 0, 0) && 0 < fs.g.ppb && fs.g.Valid()
  {
  }

  /** The free cursor leaves the block that is about to be emptied. */
  method SkipCursor(fs: Spiffs, bix: nat)
    requires Mid(fs, IDLE) && bix < fs.g.blocks
    modifies fs`freeBlk, fs`freeEnt
    ensures Mid(fs, IDLE) && CursorLive(fs.g, fs.lu, bix, fs.freeBlk, fs.freeEnt)
  {
    if fs.freeBlk == bix {
      fs.freeBlk := (bix + 1) % fs.g.blocks;
      fs.freeEnt := 0;
    }
  }
}
