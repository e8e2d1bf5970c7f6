/** Pages and blocks: erase, allocate, move, delete, and finding pages through the lookup tables. */
module Alloc {
  import opened Nor
  import opened Layout
  import opened Image
  import opened Core
  import opened State
  import Search

  // ---------------------------------------------------------------- blocks

  /** The pages of block b whose entry is below n. */
  function BlockPrefix(g: Geo, P: set<nat>, b: nat, n: nat): set<nat>
    requires 0 < g.ppb
  {
    set p | p in P && g.BlockOf(p) == b && g.EntryOf(p) < n
  }

  lemma BlockPrefixNext(g: Geo, P: set<nat>, b: nat, n: nat)
    requires Entries(g, P) && b < g.blocks && n < g.Entries()
    ensures BlockPrefix(g, P, b, n + 1) == BlockPrefix(g, P, b, n) + {g.PixOf(b, n)}
    ensures g.PixOf(b, n) in P && g.PixOf(b, n) !in BlockPrefix(g, P, b, n)
  {
  }

  lemma OneMoreIn(s: set<nat>, was: set<nat>, p: nat)
    requires p !in was
    ensures |s * (was + {p})| == |s * was| + (if p in s then 1 else 0)
  {
    assert s * (was + {p}) == s * was + (if p in s then {p} else {});
  }

  lemma BlockPrefixAll(g: Geo, P: set<nat>, b: nat)
    requires Entries(g, P)
    ensures BlockPrefix(g, P, b, 0) == {} && BlockPrefix(g, P, b, g.Entries()) == BlockPages(g, P, b)
  {
  }

  /** The counters once `dele` deleted pages have been taken off. */
  ghost function WithDeleted(s: St, dele: nat): St { s.(nDel := s.nDel + dele) }

  /** The flash erase of a block: every page and lookup entry in it goes back to all ones. */
  method HalErase(fs: Spiffs, b: nat)
    requires 0 < fs.g.ppb && fs.g.Valid() && |fs.lu| == |fs.pages|
    modifies fs`lu, fs`pages
    ensures BlockErased(fs.g, fs.P, old(fs.lu), old(fs.pages), fs.lu, fs.pages, b)
  {
    var lu, pages, g := fs.lu, fs.pages, fs.g;
    fs.lu := seq(|lu|, p requires 0 <= p < |lu| => if g.BlockOf(p) == b then FREE_ID else lu[p]);
    fs.pages := seq(|pages|, p requires 0 <= p < |pages| => if g.BlockOf(p) == b then Blank(g) else pages[p]);
  }

  lemma InvShape(g: Geo, P: set<nat>, s: St)
    requires Inv(g, P, s)
    ensures Entries(g, P) && |s.lu| == |s.pages| == g.Pages() && g.Valid()
  {
  }

  /** spiffs_erase_block, on a block without live pages whose deleted pages are counted off already. */
  method EraseBlock(fs: Spiffs, b: nat)
    requires fs.g.Valid()
    requires Inv(fs.g, fs.P, WithDeleted(fs.S(), |DeletedPages(fs.P, fs.lu) * BlockPages(fs.g, fs.P, b)|))
    requires b < fs.g.blocks && |fs.eraseCnt| == fs.g.blocks
    requires forall p :: p in fs.P && fs.g.BlockOf(p) == b ==> !Live(fs.lu[p])
    requires fs.freeBlk == b ==> fs.freeEnt == 0 || fs.freeEnt >= fs.g.Entries()
    modifies fs`lu, fs`pages, fs`freeBlocks, fs`surplus, fs`maxErase, fs`eraseCnt
    ensures Inv(fs.g, fs.P, fs.S())
    ensures OnlyDeletedErased(fs.P, old(fs.lu), old(fs.pages), fs.lu, fs.pages)
    ensures BlockErased(fs.g, fs.P, old(fs.lu), old(fs.pages), fs.lu, fs.pages, b)
    ensures fs.surplus == old(fs.surplus) + (if Entry(fs.g, old(fs.lu), b, 0) == FREE_ID then 1 else 0)
    ensures fs.freeBlocks == old(fs.freeBlocks) + 1
    ensures fs.eraseCnt == old(fs.eraseCnt)[b := old(fs.maxErase)]
    ensures fs.maxErase == NextErase(old(fs.maxErase))
  {
    hide FlashOk, FreeSuffix, CursorOk, LivePages, FreeBlocks, BlockErased, OnlyDeletedErased, DeletedPages, FreePages,
      SomeDeletedBlock;
    InvShape(fs.g, fs.P, WithDeleted(fs.S(), |DeletedPages(fs.P, fs.lu) * BlockPages(fs.g, fs.P, b)|));
    ghost var s := WithDeleted(fs.S(), |DeletedPages(fs.P, fs.lu) * BlockPages(fs.g, fs.P, b)|);
    ghost var freed := Entry(fs.g, fs.lu, b, 0) == FREE_ID;
    HalErase(fs, b);
    fs.freeBlocks := fs.freeBlocks + 1;
    if freed { fs.surplus := fs.surplus + 1; }
    fs.eraseCnt := fs.eraseCnt[b := fs.maxErase];
    fs.maxErase := NextErase(fs.maxErase);
    Erase(fs.g, fs.P, s, fs.S(), b);
  }

  /** The erase counter, kept in 16 bits and wrapped so that it never looks like an index id. */
  function NextErase(n: half): half {
    var m := (n + 1) % 0x1_0000;
    if m == IX_FLAG then 0 else m
  }

  /** Entries 0..n of block b are deleted. */
  ghost predicate DeletedUpTo(g: Geo, lu: seq<half>, b: nat, n: nat) {
    forall e :: 0 <= e < n ==> Entry(g, lu, b, e) == DELETED_ID
  }

  /** One more entry of a block, counted. */
  lemma CountNext(g: Geo, P: set<nat>, lu: seq<half>, b: nat, n: nat)
    requires Entries(g, P) && |lu| == g.Pages() && b < g.blocks && n < g.Entries()
    ensures |DeletedPages(P, lu) * BlockPrefix(g, P, b, n + 1)| ==
            |DeletedPages(P, lu) * BlockPrefix(g, P, b, n)| + (if Entry(g, lu, b, n) == DELETED_ID then 1 else 0)
    ensures |LivePages(P, lu) * BlockPrefix(g, P, b, n + 1)| ==
            |LivePages(P, lu) * BlockPrefix(g, P, b, n)| + (if Live(Entry(g, lu, b, n)) then 1 else 0)
  {
    BlockPrefixNext(g, P, b, n);
    OneMoreIn(DeletedPages(P, lu), BlockPrefix(g, P, b, n), g.PixOf(b, n));
    OneMoreIn(LivePages(P, lu), BlockPrefix(g, P, b, n), g.PixOf(b, n));
  }

  lemma {:induction false} DeletedPrefix(g: Geo, P: set<nat>, lu: seq<half>, b: nat, n: nat)
    requires Entries(g, P) && |lu| == g.Pages() && b < g.blocks && n <= g.Entries() && DeletedUpTo(g, lu, b, n)
    ensures |DeletedPages(P, lu) * BlockPrefix(g, P, b, n)| == n
  {
    hide Entries, DeletedPages, BlockPrefix;
    if n == 0 {
      BlockPrefixAll(g, P, b);
      assert DeletedPages(P, lu) * {} == {};
    } else {
      DeletedPrefix(g, P, lu, b, n - 1);
      CountNext(g, P, lu, b, n - 1);
      assert Entry(g, lu, b, n - 1) == DELETED_ID;
    }
  }

  lemma DeletedBlock(g: Geo, P: set<nat>, lu: seq<half>, b: nat, fb: nat, fe: nat)
    requires Entries(g, P) && |lu| == g.Pages() && b < g.blocks && DeletedUpTo(g, lu, b, g.Entries())
    ensures |DeletedPages(P, lu) * BlockPages(g, P, b)| == g.Entries()
    ensures forall p :: p in P && g.BlockOf(p) == b ==> lu[p] == DELETED_ID
    ensures CursorOk(g, lu, fb, fe) && fb == b ==> fe == 0 || fe >= g.Entries()
    ensures Entry(g, lu, b, 0) == DELETED_ID
  {
    DeletedPrefix(g, P, lu, b, g.Entries());
    BlockPrefixAll(g, P, b);
    forall p | p in P && g.BlockOf(p) == b ensures lu[p] == DELETED_ID {
      assert Entry(g, lu, b, g.EntryOf(p)) == DELETED_ID;
    }
  }

  /** No page is free any more. */
  ghost predicate Exhausted(fs: Spiffs)
    reads fs`lu
  {
    FreePages(fs.P, fs.lu) == {}
  }

  ghost predicate SomeDeletedBlock(g: Geo, lu: seq<half>) {
    g.lup <= g.ppb && exists b :: 0 <= b < g.blocks && DeletedUpTo(g, lu, b, g.Entries())
  }

  /** spiffs_gc_quick for max_free_pages 0: erases the first block all of whose entries are deleted. */
  method GcQuick(fs: Spiffs) returns (st: Status)
    requires fs.Ok()
    modifies fs`lu, fs`pages, fs`freeBlocks, fs`surplus, fs`maxErase, fs`eraseCnt, fs`nDel
    ensures fs.Ok() && OnlyDeletedErased(fs.P, old(fs.lu), old(fs.pages), fs.lu, fs.pages)
    ensures st == OK || st == ERR_NO_DELETED_BLOCKS
    ensures fs.surplus == old(fs.surplus)
    ensures st == OK ==> fs.freeBlocks == old(fs.freeBlocks) + 1 && !Exhausted(fs)
    ensures st == OK ==> SomeDeletedBlock(fs.g, old(fs.lu))
    ensures st != OK ==> fs.S() == old(fs.S())
    ensures st != OK ==> !SomeDeletedBlock(fs.g, fs.lu)
  {
    hide DeletedUpTo, FreeSuffix, CursorOk, FreePages;
    var b := 0;
    while b < fs.g.blocks
      invariant b <= fs.g.blocks && fs.Ok() && fs.S() == old(fs.S())
      invariant forall c :: 0 <= c < b ==> !DeletedUpTo(fs.g, fs.lu, c, fs.g.Entries())
    {
      var dele := ScanDeleted(fs, b);
      if dele == fs.g.Entries() {
        EraseDeleted(fs, b);
        return OK;
      }
      b := b + 1;
    }
    return ERR_NO_DELETED_BLOCKS;
  }

  /** A block whose entries are all deleted is counted off and erased. */
  method EraseDeleted(fs: Spiffs, b: nat)
    requires fs.Ok() && b < fs.g.blocks && DeletedUpTo(fs.g, fs.lu, b, fs.g.Entries())
    modifies fs`lu, fs`pages, fs`freeBlocks, fs`surplus, fs`maxErase, fs`eraseCnt, fs`nDel
    ensures fs.Ok() && OnlyDeletedErased(fs.P, old(fs.lu), old(fs.pages), fs.lu, fs.pages)
    ensures fs.surplus == old(fs.surplus) && fs.freeBlocks == old(fs.freeBlocks) + 1 && !Exhausted(fs)
  {
    DeletedBlock(fs.g, fs.P, fs.lu, b, fs.freeBlk, fs.freeEnt);
    ghost var s := fs.S();
    fs.nDel := fs.nDel - fs.g.Entries();
    assert WithDeleted(fs.S(), fs.g.Entries()) == s;
    EraseBlock(fs, b);
    assert fs.g.PixOf(b, 0) in FreePages(fs.P, fs.lu);
  }

  /** The scan of one block: how many entries are deleted before the first that is not. */
  method ScanDeleted(fs: Spiffs, b: nat) returns (dele: nat)
    requires fs.Ok() && b < fs.g.blocks
    ensures dele <= fs.g.Entries() && DeletedUpTo(fs.g, fs.lu, b, dele)
    ensures dele < fs.g.Entries() ==> !DeletedUpTo(fs.g, fs.lu, b, fs.g.Entries())
  {
    dele := 0;
    while dele < fs.g.Entries() && Entry(fs.g, fs.lu, b, dele) == DELETED_ID
      invariant dele <= fs.g.Entries() && DeletedUpTo(fs.g, fs.lu, b, dele)
    {
      dele := dele + 1;
    }
  }

  // ---------------------------------------------------------------- pages

  /** There is a page for the asking.  While the collector is at work that means a free one; otherwise two blocks have
      to be free, too, or one and a wholly deleted one that can be erased at once. */
  ghost predicate PageToHave(fs: Spiffs)
    reads fs`lu, fs`cleaning, fs`freeBlocks
  {
    if fs.cleaning || fs.freeBlocks >= 2 then !Exhausted(fs) else fs.freeBlocks == 1 && SomeDeletedBlock(fs.g, fs.lu)
  }

  /** Where the search for a free page starts. */
  function Spot(g: Geo, fb: nat, fe: nat): nat {
    g.PixOf(Search.StartBlock(g, fb, fe), Search.StartEntry(g, fe))
  }

  /** Page p has been taken while two blocks were free: the cursor is behind it, it is the page under the cursor if that is
      free, and a block that was wholly free has been counted off. */
  ghost predicate TakesNext(g: Geo, s: St, s': St, p: nat) {
    && 0 < g.ppb && s'.freeBlk == g.BlockOf(p) && s'.freeEnt == g.EntryOf(p) + 1
    && s'.freeBlocks == s.freeBlocks - (if g.EntryOf(p) == 0 then 1 else 0) && s'.surplus == s.surplus
    && (IsFree(s.lu, Spot(g, s.freeBlk, s.freeEnt)) ==> p == Spot(g, s.freeBlk, s.freeEnt))
  }

  /** spiffs_obj_lu_find_free: picks the next free page behind the free cursor; outside of garbage
      collection it first sees to it that two blocks are free. */
  method FindFree(fs: Spiffs) returns (st: Status, p: half)
    requires fs.Ok()
    modifies fs`lu, fs`pages, fs`freeBlocks, fs`surplus, fs`maxErase, fs`eraseCnt, fs`nDel, fs`freeBlk, fs`freeEnt
    ensures |fs.eraseCnt| == fs.g.blocks
    ensures OnlyDeletedErased(fs.P, old(fs.lu), old(fs.pages), fs.lu, fs.pages)
    ensures old(fs.cleaning) ==> fs.lu == old(fs.lu) && fs.pages == old(fs.pages)
    ensures old(fs.cleaning) ==> fs.eraseCnt == old(fs.eraseCnt) && fs.maxErase == old(fs.maxErase)
    ensures st == OK ==> Reserved(fs.g, fs.P, fs.S(), p as nat)
    ensures st != OK ==> Inv(fs.g, fs.P, fs.S()) && fs.freeBlk == old(fs.freeBlk) && fs.freeEnt == old(fs.freeEnt)
    ensures st == OK || st == ERR_FULL || st == ERR_NOT_FOUND
    ensures st == OK <==> old(PageToHave(fs))
    ensures st == ERR_FULL ==> !fs.cleaning && fs.freeBlocks < 2
    ensures st == ERR_NOT_FOUND ==> FreePages(fs.P, fs.lu) == {}
    ensures fs.surplus == old(fs.surplus)
    ensures old(fs.freeBlocks) >= 2 ==> fs.lu == old(fs.lu) && fs.pages == old(fs.pages)
    ensures old(fs.freeBlocks) >= 2 && st == OK ==> TakesNext(fs.g, old(fs.S()), fs.S(), p as nat)
    ensures old(fs.freeBlocks) >= 1 && st != OK ==> fs.S() == old(fs.S())
  {
    hide FlashOk, FreeSuffix, CursorOk, LivePages, DeletedPages, FreeBlocks, FreePages, OnlyDeletedErased, Reserved, TakesNext,
      DeletedUpTo;
    InvShape(fs.g, fs.P, fs.S());
    SameErased(fs.P, fs.lu, fs.pages);
    p := 0;
    if !fs.cleaning && fs.freeBlocks < 2 {
      var quick := GcQuick(fs);
      if fs.freeBlocks < 2 { return ERR_FULL, p; }
    }
    st, p := PickFree(fs);
  }

  lemma SameErased(P: set<nat>, lu: seq<half>, pages: seq<Page>)
    requires |lu| == |pages|
    ensures OnlyDeletedErased(P, lu, pages, lu, pages)
  {
  }

  /** The search, and what it finds. */
  method PickFree(fs: Spiffs) returns (st: Status, p: half)
    requires fs.Ok()
    modifies fs`freeBlocks, fs`freeBlk, fs`freeEnt
    ensures st == OK ==> Reserved(fs.g, fs.P, fs.S(), p as nat) && TakesNext(fs.g, old(fs.S()), fs.S(), p as nat)
    ensures st != OK ==> fs.S() == old(fs.S())
    ensures st == OK || st == ERR_NOT_FOUND
    ensures st == OK <==> FreePages(fs.P, fs.lu) != {}
  {
    hide Inv, FlashOk, FreeSuffix, CursorOk, LivePages, DeletedPages, FreeBlocks, FreePages, Reserved, TakesNext,
      Search.ReachedBefore, Search.StartBlock, Search.StartEntry, Entries;
    var lu, g := fs.lu, fs.g;
    InvShape(g, fs.P, fs.S());
    InvCursor(g, fs.P, fs.S());
    var found, b, e := Search.FindEntry(g, fs.freeBlk, fs.freeEnt, false, (x: nat) => IsFree(lu, x));
    p := 0;
    AnyFree(g, fs.P, lu);
    if !found { return ERR_NOT_FOUND, p; }
    assert IsFree(lu, g.PixOf(b, e));
    ghost var s := fs.S();
    EntryPage(g, fs.P, b, e);
    p := g.PixOf(b, e);
    fs.freeBlk, fs.freeEnt := b, e + 1;
    if e == 0 { fs.freeBlocks := fs.freeBlocks - 1; }
    Picked(g, fs.P, s, fs.S(), b, e);
    return OK, p;
  }

  lemma InvCursor(g: Geo, P: set<nat>, s: St)
    requires Inv(g, P, s)
    ensures s.freeBlk < g.blocks && CursorOk(g, s.lu, s.freeBlk, s.freeEnt)
  {
  }

  lemma EntryPage(g: Geo, P: set<nat>, b: nat, e: nat)
    requires Entries(g, P) && Search.IsEntry(g, b, e)
    ensures g.PixOf(b, e) in P && g.PixOf(b, e) < 0x1_0000 && g.BlockOf(g.PixOf(b, e)) == b && g.EntryOf(g.PixOf(b, e)) == e
  {
  }

  /** The first free entry in cyclic order is reserved once the cursor is behind it and the counter right. */
  lemma Picked(g: Geo, P: set<nat>, s: St, s': St, b: nat, e: nat)
    requires Inv(g, P, s) && Search.IsEntry(g, b, e) && IsFree(s.lu, g.PixOf(b, e))
    requires forall b', e' :: Search.IsEntry(g, b', e') && IsFree(s.lu, g.PixOf(b', e')) ==>
                                !Search.ReachedBefore(Search.StartBlock(g, s.freeBlk, s.freeEnt), Search.StartEntry(g, s.freeEnt), b', e', b, e)
    requires s' == s.(freeBlk := b, freeEnt := e + 1, freeBlocks := s.freeBlocks - if e == 0 then 1 else 0)
    ensures Reserved(g, P, s', g.PixOf(b, e)) && TakesNext(g, s, s', g.PixOf(b, e))
  {
    hide LivePages, DeletedPages, FreeBlocks, PageShape, FreeSuffix;
    FirstFree(g, P, s.lu, s.freeBlk, s.freeEnt, b, e);
    EntryPage(g, P, b, e);
    StartFirst(g, s.lu, s.freeBlk, s.freeEnt, b, e);
  }

  /** Nothing is reached before the place where the search starts. */
  lemma StartFirst(g: Geo, lu: seq<half>, fb: nat, fe: nat, b: nat, e: nat)
    requires g.Valid() && fb < g.blocks && Search.IsEntry(g, b, e)
    requires forall b', e' :: Search.IsEntry(g, b', e') && IsFree(lu, g.PixOf(b', e')) ==>
                                !Search.ReachedBefore(Search.StartBlock(g, fb, fe), Search.StartEntry(g, fe), b', e', b, e)
    ensures IsFree(lu, Spot(g, fb, fe)) ==> g.PixOf(b, e) == Spot(g, fb, fe)
  {
    var b0, e0 := Search.StartBlock(g, fb, fe), Search.StartEntry(g, fe);
    if IsFree(lu, Spot(g, fb, fe)) {
      assert Search.IsEntry(g, b0, e0);
      assert b == b0 && e == e0;
    }
  }

  predicate IsFree(lu: seq<half>, p: nat) { p < |lu| && lu[p] == FREE_ID }

  lemma AnyFree(g: Geo, P: set<nat>, lu: seq<half>)
    requires Entries(g, P)
    ensures FreePages(P, lu) != {} <==> exists b, e :: Search.IsEntry(g, b, e) && IsFree(lu, g.PixOf(b, e))
  {
    if p :| p in FreePages(P, lu) {
      assert Search.IsEntry(g, g.BlockOf(p), g.EntryOf(p)) && IsFree(lu, g.PixOf(g.BlockOf(p), g.EntryOf(p)));
    }
    if b, e :| Search.IsEntry(g, b, e) && IsFree(lu, g.PixOf(b, e)) {
      assert g.PixOf(b, e) in FreePages(P, lu);
    }
  }

  /** A search for a free entry from the free cursor finds the first free entry of its block. */
  lemma FirstFree(g: Geo, P: set<nat>, lu: seq<half>, fb: nat, fe: nat, b: nat, e: nat)
    requires Entries(g, P) && |lu| == g.Pages() && CursorOk(g, lu, fb, fe)
    requires Search.IsEntry(g, b, e) && Entry(g, lu, b, e) == FREE_ID
    requires forall b', e' :: Search.IsEntry(g, b', e') && IsFree(lu, g.PixOf(b', e')) ==>
                                !Search.ReachedBefore(Search.StartBlock(g, fb, fe), Search.StartEntry(g, fe), b', e', b, e)
    ensures forall e' :: 0 <= e' < e ==> Entry(g, lu, b, e') != FREE_ID
  {
    forall e' | 0 <= e' < e ensures Entry(g, lu, b, e') != FREE_ID {
      assert Search.IsEntry(g, b, e') && g.PixOf(b, e') in P;
    }
  }

  /** A page header with nothing else written. */
  function HeaderOnly(g: Geo, id: half, span: half, flags: Flags): Page {
    Blank(g).(id := id, span := span, flags := flags)
  }

  /** What spiffs_page_allocate_data leaves in the new page. */
  function NewPage(g: Geo, id: half, span: half, flags: Flags, data: seq<byte>, finalize: bool): Page
    requires |data| <= g.dps
  {
    HeaderOnly(g, id, span, flags.(used := false, final := flags.final && !finalize))
      .(data := data + Ones(g.dps - |data|))
  }

  /** Writing `new'` over page p. */
  method WritePage(fs: Spiffs, p: half, new': Page)
    requires p as nat < |fs.pages| && Overlay(fs.g, fs.pages[p], new')
    modifies fs`pages
    ensures fs.pages == old(fs.pages)[p := new']
  {
    NorPageOverlay(fs.g, fs.pages[p], new');
    fs.pages := fs.pages[p := NorPage(fs.g, fs.pages[p], new')];
  }

  /** Writing a lookup entry that is free or keeps its value. */
  method WriteLu(fs: Spiffs, p: half, id: half)
    requires p as nat < |fs.lu| && (fs.lu[p] == FREE_ID || fs.lu[p] == id)
    modifies fs`lu
    ensures fs.lu == old(fs.lu)[p := id]
  {
    HalfOverlay(fs.lu[p], id);
    fs.lu := fs.lu[p := AndHalf(fs.lu[p], id)];
  }

  /** spiffs_page_allocate_data, with data at the start of the page.  `mlu` and `mpages` are the flash
      between making room and writing the page. */
  method PageAllocate(fs: Spiffs, id: half, span: half, flags: Flags, data: seq<byte>, finalize: bool)
    returns (st: Status, p: half, ghost mlu: seq<half>, ghost mpages: seq<Page>)
    requires fs.Ok() && Live(id) && |data| <= fs.g.dps
    modifies fs`lu, fs`pages, fs`freeBlocks, fs`surplus, fs`maxErase, fs`eraseCnt, fs`nDel, fs`freeBlk, fs`freeEnt,
             fs`nAlloc
    ensures old(fs.cleaning) && st != OK ==> Exhausted(fs)
    ensures st == OK <==> old(PageToHave(fs))
    ensures fs.Ok()
    ensures OnlyDeletedErased(fs.P, old(fs.lu), old(fs.pages), mlu, mpages)
    ensures old(fs.cleaning) ==> mlu == old(fs.lu) && mpages == old(fs.pages)
    ensures old(fs.cleaning) ==> fs.eraseCnt == old(fs.eraseCnt) && fs.maxErase == old(fs.maxErase)
    ensures st == OK ==> p as nat in fs.P && p as nat < |mlu| && p < FREE_PIX && mlu[p] == FREE_ID
    ensures st == OK ==> fs.lu == mlu[p := id]
    ensures st == OK ==> fs.pages == mpages[p := NewPage(fs.g, id, span, flags, data, finalize)]
    ensures st != OK ==> fs.lu == mlu && fs.pages == mpages
    ensures st == OK || st == ERR_FULL || st == ERR_NOT_FOUND
    ensures fs.surplus == old(fs.surplus)
    ensures old(fs.freeBlocks) >= 2 ==> mlu == old(fs.lu)
    ensures old(fs.freeBlocks) >= 2 && st == OK ==> TakesNext(fs.g, old(fs.S()), fs.S(), p as nat)
    ensures old(fs.freeBlocks) >= 1 && st != OK ==> fs.S() == old(fs.S())
  {
    hide FlashOk, FreeSuffix, CursorOk, LivePages, DeletedPages, FreeBlocks, FreePages, OnlyDeletedErased, DeletedUpTo;
    st, p := FindFree(fs);
    mlu, mpages := fs.lu, fs.pages;
    if st != OK { return; }
    ReservedPage(fs.g, fs.P, fs.S(), p);
    WriteNewPage(fs, p, id, span, flags, data, finalize);
  }

  lemma ReservedPage(g: Geo, P: set<nat>, s: St, p: half)
    requires Reserved(g, P, s, p as nat)
    ensures p as nat in P && p as nat < |s.lu| == |s.pages| && p < FREE_PIX && s.lu[p] == FREE_ID && g.Valid()
    ensures s.freeBlk == g.BlockOf(p as nat) && s.freeEnt == g.EntryOf(p as nat) + 1
  {
  }

  lemma BlankOverlay(g: Geo, p: Page)
    requires PageShape(g, p)
    ensures Overlay(g, Blank(g), p)
  {
  }

  /** Clearing flags of a page is a write the flash can take. */
  lemma FlagsOverlay(g: Geo, p: Page, flags: Flags)
    requires PageShape(g, p) && NorFlags(p.flags, flags) == flags
    ensures Overlay(g, p, p.(flags := flags))
  {
  }

  lemma DataOverlay(g: Geo, p: Page, data: seq<byte>)
    requires PageShape(g, p) && p.data == Ones(g.dps) && |data| == g.dps
    ensures Overlay(g, p, p.(data := data))
  {
  }

  /** Header, data and finalization of a new page, written one after the other. */
  method WriteContent(fs: Spiffs, p: half, id: half, span: half, flags: Flags, data: seq<byte>, finalize: bool)
    requires p as nat < |fs.pages| && fs.pages[p] == Blank(fs.g) && |data| <= fs.g.dps
    modifies fs`pages
    ensures fs.pages == old(fs.pages)[p := NewPage(fs.g, id, span, flags, data, finalize)]
  {
    hide Overlay;
    var g := fs.g;
    var ph := flags.(used := false);
    var page := HeaderOnly(g, id, span, ph);
    BlankOverlay(g, page);
    WritePage(fs, p, page);
    DataOverlay(g, page, data + Ones(g.dps - |data|));
    page := page.(data := data + Ones(g.dps - |data|));
    WritePage(fs, p, page);
    if finalize && ph.final {
      ph := ph.(final := false);
      FlagsOverlay(g, page, ph);
      page := page.(flags := ph);
      WritePage(fs, p, page);
    }
  }

  method WriteNewPage(fs: Spiffs, p: half, id: half, span: half, flags: Flags, data: seq<byte>, finalize: bool)
    requires Reserved(fs.g, fs.P, fs.S(), p as nat) && Live(id) && |data| <= fs.g.dps
    modifies fs`lu, fs`pages, fs`nAlloc
    ensures Inv(fs.g, fs.P, fs.S())
    ensures fs.lu == old(fs.lu)[p := id]
    ensures fs.pages == old(fs.pages)[p := NewPage(fs.g, id, span, flags, data, finalize)]
  {
    Occupy(fs.g, fs.P, fs.S(), p as nat, id, NewPage(fs.g, id, span, flags, data, finalize));
    WriteLu(fs, p, id);
    fs.nAlloc := fs.nAlloc + 1;
    WriteContent(fs, p, id, span, flags, data, finalize);
  }

  /** What spiffs_page_delete leaves in the page: a blind write that clears two flags. */
  function Deleted(p: Page): Page { p.(flags := p.flags.(used := false, delet := false)) }

  /** spiffs_page_delete. */
  method PageDelete(fs: Spiffs, p: half)
    requires fs.Ok() && p as nat in fs.P && Live(fs.lu[p])
    modifies fs`lu, fs`pages, fs`nDel, fs`nAlloc
    ensures fs.Ok()
    ensures fs.lu == old(fs.lu)[p := DELETED_ID] && fs.pages == old(fs.pages)[p := Deleted(old(fs.pages)[p])]
  {
    ghost var s := fs.S();
    fs.lu := fs.lu[p := AndHalf(fs.lu[p], DELETED_ID)];
    fs.nDel := fs.nDel + 1;
    fs.nAlloc := fs.nAlloc - 1;
    var flags := Flags(false, true, true, false, true);
    fs.pages := fs.pages[p := fs.pages[p].(flags := NorFlags(fs.pages[p].flags, flags))];
    Delete(fs.g, fs.P, s, p, fs.pages[p]);
  }

  /** What a page given to spiffs_page_move becomes: used, and final exactly if it was before. */
  function Moved(p: Page): Page { p.(flags := p.flags.(used := false)) }

  /** spiffs_page_move: page `src` goes to a new page, with the content of the work buffer if `fromWork`
      and its own otherwise. */
  method PageMove(fs: Spiffs, fromWork: bool, id: half, src: half)
    returns (st: Status, dst: half, ghost mlu: seq<half>, ghost mpages: seq<Page>)
    requires fs.Ok() && Live(id) && src as nat in fs.P && Live(fs.lu[src])
    modifies fs`lu, fs`pages, fs`freeBlocks, fs`surplus, fs`maxErase, fs`eraseCnt, fs`nDel, fs`freeBlk, fs`freeEnt,
             fs`nAlloc, fs`work
    ensures old(fs.cleaning) && st != OK ==> Exhausted(fs)
    ensures st == OK <==> old(PageToHave(fs))
    ensures fs.Ok()
    ensures OnlyDeletedErased(fs.P, old(fs.lu), old(fs.pages), mlu, mpages)
    ensures old(fs.cleaning) ==> mlu == old(fs.lu) && mpages == old(fs.pages)
    ensures old(fs.cleaning) ==> fs.eraseCnt == old(fs.eraseCnt) && fs.maxErase == old(fs.maxErase)
    ensures fs.work == if fromWork && st == OK then Moved(old(fs.work)) else old(fs.work)
    ensures st == OK ==> dst as nat in fs.P && dst as nat < |mlu| && dst < FREE_PIX && mlu[dst] == FREE_ID && dst != src
    ensures st == OK ==> mlu[src] == old(fs.lu)[src] && mpages[src] == old(fs.pages)[src]
    ensures st == OK ==> fs.lu == mlu[dst := id][src := DELETED_ID]
    ensures st == OK ==>
              fs.pages == mpages[dst := if fromWork then fs.work else mpages[src]][src := Deleted(mpages[src])]
    ensures st != OK ==> fs.lu == mlu && fs.pages == mpages
    ensures st == OK || st == ERR_FULL || st == ERR_NOT_FOUND
    ensures fs.surplus == old(fs.surplus)
    ensures st == OK ==> fs.freeBlk == fs.g.BlockOf(dst) && fs.freeEnt == fs.g.EntryOf(dst) + 1
    ensures st != OK ==> fs.freeBlk == old(fs.freeBlk) && fs.freeEnt == old(fs.freeEnt)
    ensures old(fs.freeBlocks) >= 2 ==> mlu == old(fs.lu)
    ensures old(fs.freeBlocks) >= 2 && st == OK ==> TakesNext(fs.g, old(fs.S()), fs.S(), dst as nat)
    ensures old(fs.freeBlocks) >= 1 && st != OK ==> fs.S() == old(fs.S())
  {
    hide FreeSuffix, CursorOk, LivePages, DeletedPages, FreeBlocks, FlashOk, FreePages, SomeDeletedBlock, Reserved;
    st, dst := FindFree(fs);
    mlu, mpages := fs.lu, fs.pages;
    if st != OK { return; }
    ReservedPage(fs.g, fs.P, fs.S(), dst);
    ReservedShape(fs, dst, src);
    WriteMovedPage(fs, fromWork, id, src, dst);
    PageDelete(fs, src);
  }

  method WriteMovedPage(fs: Spiffs, fromWork: bool, id: half, src: half, dst: half)
    requires Reserved(fs.g, fs.P, fs.S(), dst as nat) && Live(id) && src as nat in fs.P && PageShape(fs.g, fs.work)
    modifies fs`lu, fs`pages, fs`nAlloc, fs`work
    ensures Inv(fs.g, fs.P, fs.S())
    ensures fs.lu == old(fs.lu)[dst := id]
    ensures fs.work == if fromWork then Moved(old(fs.work)) else old(fs.work)
    ensures fs.pages == old(fs.pages)[dst := if fromWork then fs.work else old(fs.pages)[src]]
  {
    hide Inv, Reserved, Overlay, PageShape;
    ReservedShape(fs, dst, src);
    MovedShape(fs.g, fs.work);
    Occupy(fs.g, fs.P, fs.S(), dst as nat, id, if fromWork then Moved(fs.work) else fs.pages[src]);
    var wasFinal := false;
    if fromWork {
      wasFinal := WriteUnfinal(fs, dst);
    } else {
      BlankOverlay(fs.g, fs.pages[src]);
      WritePage(fs, dst, fs.pages[src]);
    }
    WriteLu(fs, dst, id);
    fs.nAlloc := fs.nAlloc + 1;
    if wasFinal { WriteFinal(fs, dst); }
    assert fs.pages == old(fs.pages)[dst := if fromWork then Moved(old(fs.work)) else old(fs.pages)[src]];
  }

  lemma ReservedShape(fs: Spiffs, dst: half, src: half)
    requires Reserved(fs.g, fs.P, fs.S(), dst as nat) && src as nat in fs.P
    ensures dst as nat < |fs.lu| == |fs.pages| && fs.lu[dst] == FREE_ID && fs.pages[dst] == Blank(fs.g)
    ensures src as nat < |fs.pages| && PageShape(fs.g, fs.pages[src])
  {
  }

  lemma MovedShape(g: Geo, p: Page)
    requires PageShape(g, p)
    ensures PageShape(g, Moved(p)) && PageShape(g, p.(flags := p.flags.(final := true, used := false)))
  {
  }

  /** The work buffer is written as a page that is not final yet. */
  method WriteUnfinal(fs: Spiffs, dst: half) returns (wasFinal: bool)
    requires dst as nat < |fs.pages| && fs.pages[dst] == Blank(fs.g) && PageShape(fs.g, fs.work)
    modifies fs`pages, fs`work
    ensures wasFinal == !old(fs.work).flags.final
    ensures fs.work == old(fs.work).(flags := old(fs.work).flags.(final := true, used := false))
    ensures fs.pages == old(fs.pages)[dst := fs.work]
  {
    wasFinal := !fs.work.flags.final;
    fs.work := fs.work.(flags := fs.work.flags.(final := true, used := false));
    BlankOverlay(fs.g, fs.work);
    WritePage(fs, dst, fs.work);
  }

  /** ... and finalized once its lookup entry is written. */
  method WriteFinal(fs: Spiffs, dst: half)
    requires dst as nat < |fs.pages| && fs.pages[dst] == fs.work && PageShape(fs.g, fs.work)
    modifies fs`pages, fs`work
    ensures fs.work == old(fs.work).(flags := old(fs.work).flags.(final := false, used := false))
    ensures fs.pages == old(fs.pages)[dst := fs.work]
  {
    fs.work := fs.work.(flags := fs.work.flags.(final := false, used := false));
    FlagsOverlay(fs.g, fs.pages[dst], fs.work.flags);
    WritePage(fs, dst, fs.pages[dst].(flags := fs.work.flags));
  }

  // ---------------------------------------------------------------- finding pages

  /** The visitor's verdict on page p when an index or data page (id, span) is looked for. */
  predicate Matches(lu: seq<half>, pages: seq<Page>, id: half, span: half, p: nat) {
    && p < |lu| && p < |pages|
    && lu[p] == id
    && pages[p].id == id && pages[p].span == span
    && !pages[p].flags.final && pages[p].flags.delet && !pages[p].flags.used
    && !(IsIx(id) && !pages[p].flags.ixdele && span == 0)
  }

  predicate Excluded(p: nat, exclude: half) { exclude != 0 && p == exclude as nat }

  /** spiffs_obj_lu_find_id_and_span: a page of that id and span index that is not the excluded one, 0 for none. */
  method FindIdAndSpan(fs: Spiffs, id: half, span: half, exclude: half) returns (st: Status, p: half)
    requires fs.Ok()
    modifies fs`curBlk, fs`curEnt
    ensures fs.Ok()
    ensures st == OK || st == ERR_NOT_FOUND
    ensures st == OK ==> p as nat in fs.P && Matches(fs.lu, fs.pages, id, span, p as nat) && !Excluded(p as nat, exclude)
    ensures st != OK ==> forall q :: q in fs.P && Matches(fs.lu, fs.pages, id, span, q) ==> Excluded(q, exclude)
  {
    var lu, pages := fs.lu, fs.pages;
    var found, b, e := Search.FindEntry(fs.g, fs.curBlk, fs.curEnt, false, (x: nat) => Matches(lu, pages, id, span, x) && !Excluded(x, exclude));
    p := 0;
    if !found {
      forall q | q in fs.P ensures !Matches(fs.lu, fs.pages, id, span, q) || Excluded(q, exclude) {
        assert Search.IsEntry(fs.g, fs.g.BlockOf(q), fs.g.EntryOf(q));
      }
      return ERR_NOT_FOUND, p;
    }
    fs.curBlk, fs.curEnt := b, e;
    return OK, fs.g.PixOf(b, e);
  }
}
