/** When to collect: spiffs_gc_check, with the page statistics of the block that is erased. */
module Collect {
  import opened Nor
  import opened Layout
  import opened Image
  import opened Core
  import opened Descriptors
  import opened State
  import opened Alloc
  import opened Objects
  import opened Gc
  import opened Candidates
  import opened GcRuns
  import opened Stock
  import Search

  /** Every object means what it meant, and no user of a descriptor or cache page has noticed. */
  ghost predicate Intact(dir: Dir, fds: seq<Fd>, wc: seq<CPage>, fs: Spiffs)
    reads fs
  {
    SameMeaning(dir, fs.dir) && SameUser(fds, fs.fds) && fs.wc == wc
  }

  lemma IntactTransitive(dir: Dir, fds: seq<Fd>, wc: seq<CPage>, dir': Dir, fds': seq<Fd>, fs: Spiffs)
    requires SameMeaning(dir, dir') && SameUser(fds, fds') && Intact(dir', fds', wc, fs)
    ensures Intact(dir, fds, wc, fs)
  {
    SameUserTransitive(fds, fds', fs.fds);
  }

  lemma StatsStart(g: Geo, P: set<nat>, lu: seq<half>, b: nat)
    requires Entries(g, P)
    ensures 0 < g.ppb && 0 < g.Entries()
    ensures |DeletedPages(P, lu) * BlockPrefix(g, P, b, 0)| == 0
    ensures |LivePages(P, lu) * BlockPrefix(g, P, b, 0)| == 0
    ensures BlockPrefix(g, P, b, g.Entries()) == BlockPages(g, P, b)
  {
    BlockPrefixAll(g, P, b);
    assert DeletedPages(P, lu) * {} == {} && LivePages(P, lu) * {} == {};
  }

  /** The statistics of one block. */
  method BlockStats(g: Geo, ghost P: set<nat>, lu: seq<half>, b: nat) returns (dele: nat, allo: nat)
    requires Entries(g, P) && |lu| == g.Pages() && b < g.blocks
    ensures dele == |DeletedPages(P, lu) * BlockPages(g, P, b)|
    ensures allo == |LivePages(P, lu) * BlockPages(g, P, b)|
  {
    hide Entries, BlockPrefix, LivePages, DeletedPages, BlockPages;
    dele, allo := 0, 0;
    var e := 0;
    StatsStart(g, P, lu, b);
    while e < g.Entries()
      invariant e <= g.Entries()
      invariant dele == |DeletedPages(P, lu) * BlockPrefix(g, P, b, e)|
      invariant allo == |LivePages(P, lu) * BlockPrefix(g, P, b, e)|
    {
      CountNext(g, P, lu, b, e);
      var id := Entry(g, lu, b, e);
      if id == FREE_ID {
      } else if id == DELETED_ID {
        dele := dele + 1;
      } else {
        allo := allo + 1;
      }
      e := e + 1;
    }
  }

  lemma NoLiveIn(g: Geo, P: set<nat>, lu: seq<half>, b: nat)
    requires Entries(g, P) && |lu| == g.Pages()
    requires forall p :: p in P && g.BlockOf(p) == b ==> !Live(lu[p])
    ensures |LivePages(P, lu) * BlockPages(g, P, b)| == 0
  {
    assert LivePages(P, lu) * BlockPages(g, P, b) == {};
  }

  /** spiffs_gc_erase_page_stats: the pages of block b are counted off. */
  method PageStats(fs: Spiffs, b: nat)
    requires fs.Ok() && b < fs.g.blocks
    requires forall p :: p in fs.P && fs.g.BlockOf(p) == b ==> !Live(fs.lu[p])
    modifies fs`nAlloc, fs`nDel
    ensures fs.nAlloc == old(fs.nAlloc)
    ensures fs.nDel == old(fs.nDel) - |DeletedPages(fs.P, fs.lu) * BlockPages(fs.g, fs.P, b)|
    ensures WithDeleted(fs.S(), |DeletedPages(fs.P, fs.lu) * BlockPages(fs.g, fs.P, b)|) == old(fs.S())
  {
    hide Inv, DeletedPages, LivePages, BlockPages;
    InvShape(fs.g, fs.P, fs.S());
    var dele, allo := BlockStats(fs.g, fs.P, fs.lu, b);
    NoLiveIn(fs.g, fs.P, fs.lu, b);
    fs.nAlloc := fs.nAlloc - allo;
    fs.nDel := fs.nDel - dele;
  }

  /** ... then spiffs_gc_erase_block, on a block that has been emptied. */
  method Wipe(fs: Spiffs, b: nat)
    requires fs.Ok() && b < fs.g.blocks && fs.freeBlk != b
    requires forall p :: p in fs.P && fs.g.BlockOf(p) == b ==> !Live(fs.lu[p])
    modifies fs`lu, fs`pages, fs`freeBlocks, fs`surplus, fs`maxErase, fs`eraseCnt, fs`nAlloc, fs`nDel
    ensures fs.Ok()
    ensures OnlyDeletedErased(fs.P, old(fs.lu), old(fs.pages), fs.lu, fs.pages)
    ensures BlockErased(fs.g, fs.P, old(fs.lu), old(fs.pages), fs.lu, fs.pages, b)
    ensures fs.freeBlocks == old(fs.freeBlocks) + 1
    ensures fs.surplus == old(fs.surplus) + (if Entry(fs.g, old(fs.lu), b, 0) == FREE_ID then 1 else 0)
    ensures fs.eraseCnt == old(fs.eraseCnt)[b := old(fs.maxErase)] && fs.maxErase == NextErase(old(fs.maxErase))
  {
    hide Inv, BlockErased, OnlyDeletedErased, DeletedPages, BlockPages;
    InvShape(fs.g, fs.P, fs.S());
    PageStats(fs, b);
    EraseBlock(fs, b);
  }

  /** The state that the collector decides by. */
  ghost function Now(fs: Spiffs): Shot
    reads fs`lu, fs`pages, fs`freeBlk, fs`freeEnt, fs`freeBlocks, fs`nAlloc, fs`nDel, fs`surplus, fs`eraseCnt, fs`maxErase
  {
    Shot(St(fs.lu, fs.pages, fs.freeBlk, fs.freeEnt, fs.freeBlocks, fs.nAlloc, fs.nDel, fs.surplus), fs.eraseCnt, fs.maxErase)
  }

  /** Cleaning block b, with the flag that tells the allocator so. */
  method CleanBlock(fs: Spiffs, b: nat) returns (st: Status)
    requires Mid(fs, IDLE) && NoneDoomed(fs.dir) && b < fs.g.blocks
    modifies fs
    ensures Spacious(st) && !fs.cleaning
    ensures Intact(old(fs.dir), old(fs.fds), old(fs.wc), fs) && NoneDoomed(fs.dir)
    ensures if st == OK then Mid(fs, IDLE) else Exhausted(fs) && Stalled(fs)
    ensures st == OK ==> fs.freeBlk != b && forall p :: p in fs.P && fs.g.BlockOf(p) == b ==> !Live(fs.lu[p])
    ensures fs.eraseCnt == old(fs.eraseCnt) && fs.maxErase == old(fs.maxErase)
    ensures st == OK ==> Yields(fs.g, fs.P, old(fs.lu), fs.lu, b)
    ensures st != OK ==> old(Budget(fs.g, fs.P, fs.lu, b)) < 0 && !Empty(fs.g, old(fs.lu), b)
    ensures Empty(fs.g, old(fs.lu), b) ==> Still(old(fs.S()), fs.S())
  {
    hide Inv, Rep, FdsOk, SameMeaning, SameUser, PageShape, FreePages, NoneDoomed, FdsPix, FdsSize, FdsOff, CacheRefs, Spacious,
      Yields, Budget, Empty;
    fs.cleaning := true;
    st := GcClean(fs, b);
    ghost var torn, x: half := st != OK && !Mid(fs, IDLE), 0;
    if torn { x :| Torn(fs, x, {}); }
    fs.cleaning := false;
    if torn { assert Torn(fs, x, {}); }
  }

  /** A block without a page in use is an empty one to the collector. */
  lemma NoLiveEmpty(g: Geo, P: set<nat>, lu: seq<half>, b: nat)
    requires Entries(g, P) && |lu| == g.Pages() && b < g.blocks && LiveIn(g, P, lu, b) == 0
    ensures Empty(g, lu, b)
  {
    var l := LivePages(P, lu) * BlockPages(g, P, b);
    forall e | 0 <= e < g.Entries() ensures !Live(Entry(g, lu, b, e)) {
      assert g.PixOf(b, e) in BlockPages(g, P, b) && g.PixOf(b, e) !in l;
    }
  }

  /** The pages that were free or deleted are free once the block is erased. */
  lemma WipedFree(g: Geo, P: set<nat>, lu: seq<half>, pages: seq<Page>, lu': seq<half>, pages': seq<Page>, b: nat)
    requires Entries(g, P) && |lu| == g.Pages() && BlockErased(g, P, lu, pages, lu', pages', b)
    requires forall p :: p in P && g.BlockOf(p) == b ==> !Live(lu[p])
    ensures |FreePages(P, lu')| == Gain(g, P, lu, b)
  {
    var f, d := FreePages(P, lu), DeletedPages(P, lu) * BlockPages(g, P, b);
    assert f !! d;
    assert FreePages(P, lu') == f + d;
  }

  /** What the run has gained, from cleaning the block to erasing it. */
  lemma RunGain(g: Geo, P: set<nat>, x: Shot, m: St, y: Shot, b: nat)
    requires Sound(g, P, x) && Inv(g, P, m) && Sound(g, P, y) && b < g.blocks && 0 < g.ppb && Yields(g, P, x.s.lu, m.lu, b)
    requires BlockErased(g, P, m.lu, m.pages, y.s.lu, y.s.pages, b)
    requires forall p :: p in P && g.BlockOf(p) == b ==> !Live(m.lu[p])
    ensures Est(g, x) + DeletedIn(g, P, x.s.lu, b) - Parts(g, P, x.s.lu, b) <= Est(g, y) <= Est(g, x) + DeletedIn(g, P, x.s.lu, b)
  {
    hide Inv, BlockErased, FreePages, DeletedPages, BlockPages, Budget, Parts;
    InvShape(g, P, m);
    EstimateIsFree(g, P, x.s);
    EstimateIsFree(g, P, y.s);
    WipedFree(g, P, m.lu, m.pages, y.s.lu, y.s.pages, b);
  }

  lemma ErasedIsFree(g: Geo, P: set<nat>, m: St, s: St, b: nat)
    requires Inv(g, P, m) && Inv(g, P, s) && 0 < g.ppb && BlockErased(g, P, m.lu, m.pages, s.lu, s.pages, b)
    ensures forall p :: p in P && p < |s.lu| && g.BlockOf(p) == b ==> s.lu[p] == FREE_ID
  {
  }

  /** One run of the collector on block b.  It cannot fail when there are enough free pages outside the block, or none in use
      inside. */
  method CollectBlock(fs: Spiffs, b: nat) returns (st: Status)
    requires Mid(fs, IDLE) && NoneDoomed(fs.dir) && b < fs.g.blocks
    modifies fs
    ensures Spacious(st) && !fs.cleaning
    ensures Intact(old(fs.dir), old(fs.fds), old(fs.wc), fs) && NoneDoomed(fs.dir)
    ensures if st == OK then Mid(fs, IDLE) else Exhausted(fs) && Stalled(fs)
    ensures 0 < fs.g.ppb
    ensures st == OK ==> Collected(fs.g, fs.P, Run(b, old(Now(fs)), Now(fs)))
    ensures st != OK ==> old(Budget(fs.g, fs.P, fs.lu, b)) < 0 && LiveIn(fs.g, fs.P, old(fs.lu), b) > 0
  {
    hide Inv, FdsOk, SameMeaning, SameUser, OnlyDeletedErased, Rep, FreePages, NoneDoomed, BlockErased, LiveIn, DeletedIn, Yields,
      Budget, Parts, Empty, Entries;
    ghost var x := Now(fs);
    InvShape(fs.g, fs.P, fs.S());
    if LiveIn(fs.g, fs.P, fs.lu, b) == 0 { NoLiveEmpty(fs.g, fs.P, fs.lu, b); }
    st := CleanBlock(fs, b);
    if st != OK { return; }
    ghost var m := fs.S();
    Wipe(fs, b);
    EraseStep(fs.g, fs.P, m.lu, m.pages, fs.dir, {}, fs.lu, fs.pages);
    RunGain(fs.g, fs.P, x, m, Now(fs), b);
    ErasedIsFree(fs.g, fs.P, m, fs.S(), b);
  }

  /** Choosing a block and collecting it: the block that none is preferred to. */
  method CollectBest(fs: Spiffs, crammed: bool, room: nat) returns (st: Status, ghost b: nat)
    requires Mid(fs, IDLE) && NoneDoomed(fs.dir) && 0 < room && crammed == Crammed(fs.g, Now(fs))
    modifies fs
    ensures Spacious(st) && !fs.cleaning
    ensures Intact(old(fs.dir), old(fs.fds), old(fs.wc), fs) && NoneDoomed(fs.dir)
    ensures if st == OK then Mid(fs, IDLE) else Exhausted(fs) && Stalled(fs)
    ensures Best(fs.g, fs.P, old(Now(fs)), b)
    ensures st == OK ==> Collected(fs.g, fs.P, Run(b, old(Now(fs)), Now(fs)))
    ensures st != OK ==> old(Budget(fs.g, fs.P, fs.lu, b)) < 0 && LiveIn(fs.g, fs.P, old(fs.lu), b) > 0
  {
    hide IsTop, Scores, Preferred, Collected, Budget, LiveIn, FdsOk, SameMeaning, SameUser, NoneDoomed, Rep, Inv, FreePages;
    InvShape(fs.g, fs.P, fs.S());
    var cands, count;
    ghost var t;
    cands, count, t := FindCandidate(fs, crammed, room);
    FirstIsBest(fs.g, fs.P, fs.lu, fs.eraseCnt, fs.maxErase, crammed, cands[..]);
    b := cands[0];
    st := CollectBlock(fs, cands[0]);
  }

  lemma FirstIsBest(g: Geo, P: set<nat>, lu: seq<half>, eraseCnt: seq<half>, maxErase: half, crammed: bool, cands: seq<nat>)
    requires 0 < g.ppb && InOrder(g, P, lu, eraseCnt, maxErase, crammed, cands) && |cands| > 0
    ensures cands[0] < |eraseCnt|
    ensures forall c :: 0 <= c < |eraseCnt| && c != cands[0] ==> Preferred(g, P, lu, eraseCnt, maxErase, crammed, cands[0], c)
  {
    hide Preferred;
    forall c | 0 <= c < |eraseCnt| && c != cands[0] ensures Preferred(g, P, lu, eraseCnt, maxErase, crammed, cands[0], c) {
      if c in cands {
        var j :| 0 <= j < |cands| && cands[j] == c;
        assert Preferred(g, P, lu, eraseCnt, maxErase, crammed, cands[0], cands[j]);
      }
    }
  }

  /** The pages a length takes, rounded up as the code does in 32 bits. */
  function NeededPages(g: Geo, len: word): nat
    requires 0 < g.dps
  {
    (len + g.dps - 1) % 0x1_0000_0000 / g.dps
  }

  /** There is room for len bytes and no need to collect. */
  ghost predicate Quiet(fs: Spiffs, len: word)
    reads fs`freeBlocks, fs`nAlloc, fs`nDel
  {
    fs.freeBlocks > 3 && Signed(len) < FreeEstimate(fs.g, fs.nAlloc, fs.nDel) * fs.g.dps
  }

  /** Even the deleted pages would not make room for len bytes. */
  ghost predicate Hopeless(fs: Spiffs, len: word)
    reads fs`freeBlocks, fs`nAlloc, fs`nDel
  {
    && 0 < fs.g.dps && !Quiet(fs, len)
    && NeededPages(fs.g, len) > FreeEstimate(fs.g, fs.nAlloc, fs.nDel) + fs.nDel
  }

  /** It is the least number of pages that holds them, as long as the sum stays within 32 bits. */
  lemma NeededCovers(g: Geo, len: word)
    requires 0 < g.dps && len as int + g.dps <= 0x1_0000_0000
    ensures (NeededPages(g, len) - 1) * g.dps < len as int <= NeededPages(g, len) * g.dps
  {
    var sum := len as int + g.dps - 1;
    assert sum == sum / g.dps * g.dps + sum % g.dps;
    assert (sum / g.dps - 1) * g.dps == sum / g.dps * g.dps - g.dps;
  }

  /** There is room when the free pages, those of two blocks aside, hold more than len bytes. */
  lemma QuietMeans(fs: Spiffs, len: word)
    requires fs.Ok() && len < 0x8000_0000
    ensures Quiet(fs, len) <==> fs.freeBlocks > 3 && len as int < (|FreePages(fs.P, fs.lu)| - 2 * fs.g.Entries()) * fs.g.dps
  {
    hide Inv, FreePages;
    EstimateIsFree(fs.g, fs.P, fs.S());
  }

  /** There is no hope when the free and the deleted pages, those of two blocks aside, hold fewer. */
  lemma HopelessMeans(fs: Spiffs, len: word)
    requires fs.Ok() && len as int + fs.g.dps <= 0x1_0000_0000
    ensures Hopeless(fs, len) <==>
              !Quiet(fs, len) && len as int > (|FreePages(fs.P, fs.lu)| + |DeletedPages(fs.P, fs.lu)| - 2 * fs.g.Entries()) * fs.g.dps
  {
    hide Quiet, FreePages, DeletedPages, FlashOk, FreeSuffix, CursorOk, LivePages, FreeBlocks;
    InvShape(fs.g, fs.P, fs.S());
    EstimateIsFree(fs.g, fs.P, fs.S());
    NeededCovers(fs.g, len);
    var all := |FreePages(fs.P, fs.lu)| + |DeletedPages(fs.P, fs.lu)| - 2 * fs.g.Entries();
    FewerPages(fs.g.dps, len as int, NeededPages(fs.g, len), all);
  }

  lemma FewerPages(d: nat, len: int, needed: int, all: int)
    requires 0 < d && (needed - 1) * d < len <= needed * d
    ensures needed > all <==> len > all * d
  {
    if needed > all { ProductMono(all, needed - 1, d); } else { ProductMono(needed, all, d); }
  }

  lemma ProductMono(a: int, b: int, d: nat)
    requires a <= b
    ensures a * d <= b * d
  {
  }

  /** What is in stock at least once one more block is free. */
  function AfterRuns(g: Geo, free: int): nat {
    if free < 1 || g.Entries() <= 0 then 0 else Search.Rows(g.Entries(), free - 1) + 1
  }

  lemma MoreStock(g: Geo, free: int, fe: nat, now: int)
    requires now > free
    ensures Stocked(g, fe, now) >= AfterRuns(g, free)
  {
    if free >= 1 && g.Entries() > 0 { Search.RowsMono(g.Entries(), free - 1, now - 2); }
  }

  /** The pages that an operation asking for len bytes can be sure of: what is in stock if there is room already, and what
      is in stock with one more block free if wholly deleted blocks make room. */
  ghost function Assured(fs: Spiffs, len: word): nat
    reads fs`lu, fs`pages, fs`freeBlk, fs`freeEnt, fs`freeBlocks, fs`nAlloc, fs`nDel, fs`surplus, fs`eraseCnt, fs`maxErase
  {
    if Quiet(fs, len) then InStock(fs)
    else if !Hopeless(fs, len) && exists k :: Promising(fs.g, fs.P, Now(fs), len, k) then AfterRuns(fs.g, fs.freeBlocks - fs.surplus)
    else 0
  }

  /** The free pages in the blocks bs. */
  function FreeInside(g: Geo, P: set<nat>, lu: seq<half>, bs: set<nat>): set<nat>
    requires 0 < g.ppb
  {
    set p | p in FreePages(P, lu) && g.BlockOf(p) in bs
  }

  lemma BlockIsFree(g: Geo, P: set<nat>, lu: seq<half>, b: nat)
    requires Entries(g, P) && |lu| == g.Pages() && FreeSuffix(g, lu) && b in FreeBlocks(g, lu)
    ensures BlockPages(g, P, b) <= FreePages(P, lu)
  {
    forall p | p in BlockPages(g, P, b) ensures p in FreePages(P, lu) {
      assert Entry(g, lu, b, g.EntryOf(p)) == FREE_ID;
    }
  }

  lemma {:induction false} FreeBlockPages(g: Geo, P: set<nat>, lu: seq<half>, bs: set<nat>)
    requires Entries(g, P) && |lu| == g.Pages() && FreeSuffix(g, lu) && bs <= FreeBlocks(g, lu)
    ensures |FreeInside(g, P, lu, bs)| == Search.Rows(g.Entries(), |bs|)
  {
    hide Entries, FreeSuffix, FreeBlocks;
    StatsStart(g, P, lu, 0);
    if bs == {} {
      assert FreeInside(g, P, lu, bs) == {};
    } else {
      var b :| b in bs;
      BlockInUse(g, lu, b);
      FreeBlockPages(g, P, lu, bs - {b});
      BlockIsFree(g, P, lu, b);
      PrefixCard(g, P, b, g.Entries());
      BlockPrefixAll(g, P, b);
      assert FreeInside(g, P, lu, bs) == FreeInside(g, P, lu, bs - {b}) + BlockPages(g, P, b);
      RowsNext(g.Entries(), |bs|);
    }
  }

  lemma BlockInUse(g: Geo, lu: seq<half>, b: nat)
    ensures b in FreeBlocks(g, lu) ==> b < g.blocks
  {
  }

  /** The free pages in the block that has been begun. */
  lemma RestIsFree(g: Geo, P: set<nat>, lu: seq<half>, fb: nat, fe: nat)
    requires Entries(g, P) && |lu| == g.Pages() && FreeSuffix(g, lu) && CursorOk(g, lu, fb, fe) && 0 < fe < g.Entries()
    ensures fb !in FreeBlocks(g, lu)
    ensures |FreeInside(g, P, lu, {fb})| >= g.Entries() - fe
  {
    var f, all, low := FreeInside(g, P, lu, {fb}), BlockPages(g, P, fb), BlockPrefix(g, P, fb, fe);
    forall p | p in all && p !in low ensures p in f {
      assert Entry(g, lu, fb, g.EntryOf(p)) == FREE_ID;
    }
    PrefixCard(g, P, fb, g.Entries());
    BlockPrefixAll(g, P, fb);
    PrefixCard(g, P, fb, fe);
    assert low <= all && all - low <= f;
    assert |all - low| == |all| - |low|;
    Smaller(all - low, f);
  }

  /** What is in stock, and two blocks less one page, is free. */
  lemma StockIsFree(g: Geo, P: set<nat>, s: St)
    requires Inv(g, P, s) && Stocked(g, s.freeEnt, s.freeBlocks - s.surplus) > 0
    ensures |FreePages(P, s.lu)| + 1 >= Stocked(g, s.freeEnt, s.freeBlocks - s.surplus) + 2 * g.Entries()
  {
    hide FlashOk, LivePages, DeletedPages, FreePages, FreeBlocks, FreeSuffix, CursorOk, Entries;
    InvShape(g, P, s);
    var bs := FreeBlocks(g, s.lu);
    FreeBlockPages(g, P, s.lu, bs);
    RowsNext(g.Entries(), |bs|);
    RowsNext(g.Entries(), |bs| - 1);
    Smaller(FreeInside(g, P, s.lu, bs), FreePages(P, s.lu));
    if 0 < s.freeEnt < g.Entries() {
      RestIsFree(g, P, s.lu, s.freeBlk, s.freeEnt);
      var a, b := FreeInside(g, P, s.lu, bs), FreeInside(g, P, s.lu, {s.freeBlk});
      assert a !! b && a + b <= FreePages(P, s.lu);
      Smaller(a + b, FreePages(P, s.lu));
    }
  }

  /** With more in stock than two blocks hold, and more than the length takes, there is no need to collect. */
  lemma StockIsQuiet(fs: Spiffs, len: word)
    requires fs.Ok() && InStock(fs) > 2 * fs.g.Entries() && Signed(len) < (InStock(fs) - 1) * fs.g.dps
    ensures Quiet(fs, len)
  {
    hide Inv, FreePages;
    InvShape(fs.g, fs.P, fs.S());
    StockIsFree(fs.g, fs.P, fs.S());
    EstimateIsFree(fs.g, fs.P, fs.S());
    MulMono(InStock(fs) - 1, |FreePages(fs.P, fs.lu)| - 2 * fs.g.Entries(), fs.g.dps);
    if fs.freeBlocks - fs.surplus == 3 { RowsNext(fs.g.Entries(), 1); }
  }

  /** How a series of runs has ended: with success exactly if there is room, and only when there is, when it has gained
      nothing, or when there have been too many; or on a block that could not be emptied. */
  ghost predicate RunsEnded(g: Geo, P: set<nat>, len: word, start: Shot, runs: seq<Run>, st: Status, now: Shot) {
    && Chain(g, P, start, runs) && |runs| <= GC_MAX_RUNS
    && (forall i :: 0 <= i < |runs| - 1 ==> GoesOn(g, len, runs[i]))
    && if now == ShotAt(start, runs, |runs|) && |runs| > 0 && (!GoesOn(g, len, runs[|runs| - 1]) || |runs| == GC_MAX_RUNS)
       then st == (if Signed(len) <= Est(g, now) * g.dps then OK else ERR_FULL)
       else st != OK && Stuck(g, P, ShotAt(start, runs, |runs|)) && |runs| < GC_MAX_RUNS && (|runs| > 0 ==> GoesOn(g, len, runs[|runs| - 1]))
  }

  /** spiffs_gc_check: makes room for len bytes.  Every object keeps its name and bytes, and no user of a descriptor
      or cache page notices, whether it succeeds or not.  When there is room already, or would be none even with the
      deleted pages, nothing at all is touched.  Otherwise `runs` tells which blocks have been collected and what that
      has gained; when wholly deleted blocks make room, and go before all others, it succeeds.  When it fails, flash,
      directory and descriptors still agree in everything, unless no page at all is free.
      `room` is how many candidates fit into the work buffer. */
  method GcCheck(fs: Spiffs, len: word, room: nat) returns (st: Status, ghost runs: seq<Run>)
    requires Mid(fs, IDLE) && NoneDoomed(fs.dir) && !fs.cleaning && 0 < room
    modifies fs
    ensures Spacious(st) && !fs.cleaning
    ensures Intact(old(fs.dir), old(fs.fds), old(fs.wc), fs) && NoneDoomed(fs.dir)
    ensures Mid(fs, IDLE) || (st != OK && Exhausted(fs) && Stalled(fs))
    ensures st == OK ==> Signed(len) <= FreeEstimate(fs.g, fs.nAlloc, fs.nDel) * fs.g.dps
    ensures old(Quiet(fs, len)) ==> st == OK && unchanged(fs) && runs == []
    ensures old(Hopeless(fs, len)) ==> st == ERR_FULL && unchanged(fs) && runs == []
    ensures !old(Quiet(fs, len)) && !old(Hopeless(fs, len)) ==> RunsEnded(fs.g, fs.P, len, old(Now(fs)), runs, st, Now(fs))
    ensures !old(Hopeless(fs, len)) && (exists k :: Promising(fs.g, fs.P, old(Now(fs)), len, k)) ==> st == OK
    ensures old(Assured(fs, len)) > 0 ==> st == OK && InStock(fs) >= old(Assured(fs, len))
  {
    hide RunsEnded, Promising, Intact, NoneDoomed, FdsOk, Rep, Inv, Stalled, FreePages, Stocked, AfterRuns;
    runs := [];
    var free := FreeEstimate(fs.g, fs.nAlloc, fs.nDel);
    IntactRefl(fs);
    GeoPositive(fs);
    if fs.freeBlocks > 3 && Signed(len) < free * fs.g.dps { return OK, runs; }
    if NeededPages(fs.g, len) > free + fs.nDel { return ERR_FULL, runs; }
    st, runs := CollectRuns(fs, len, room);
    PromiseEnds(fs, len, old(Now(fs)), runs, st);
  }

  lemma GeoPositive(fs: Spiffs)
    requires fs.Ok()
    ensures 0 < fs.g.dps
  {
  }

  lemma PromiseEnds(fs: Spiffs, len: word, start: Shot, runs: seq<Run>, st: Status)
    requires RunsEnded(fs.g, fs.P, len, start, runs, st, Now(fs))
    ensures (exists k :: Promising(fs.g, fs.P, start, len, k)) ==>
              st == OK && InStock(fs) >= AfterRuns(fs.g, start.s.freeBlocks - start.s.surplus)
  {
    hide Chain, Promising, Stuck, Best, Stocked, AfterRuns;
    if k :| Promising(fs.g, fs.P, start, len, k) {
      PromiseKept(fs.g, fs.P, start, runs, len, k);
      MoreStock(fs.g, start.s.freeBlocks - start.s.surplus, fs.freeEnt, fs.freeBlocks - fs.surplus);
    }
  }

  lemma IntactRefl(fs: Spiffs)
    ensures Intact(fs.dir, fs.fds, fs.wc, fs)
  {
  }

  /** The loop of spiffs_gc_check: collect until there is room, at most GC_MAX_RUNS times. */
  method CollectRuns(fs: Spiffs, len: word, room: nat) returns (st: Status, ghost runs: seq<Run>)
    requires Mid(fs, IDLE) && NoneDoomed(fs.dir) && !fs.cleaning && 0 < room
    modifies fs
    ensures Spacious(st) && !fs.cleaning
    ensures Intact(old(fs.dir), old(fs.fds), old(fs.wc), fs) && NoneDoomed(fs.dir)
    ensures Mid(fs, IDLE) || (st != OK && Exhausted(fs) && Stalled(fs))
    ensures RunsEnded(fs.g, fs.P, len, old(Now(fs)), runs, st, Now(fs))
    ensures st == OK ==> Signed(len) <= FreeEstimate(fs.g, fs.nAlloc, fs.nDel) * fs.g.dps
  {
    hide Collected, Best, NoneDoomed, FdsOk, Rep, Inv, Stalled, FreePages, SameMeaning, SameUser, Budget, LiveIn;
    st, runs := OK, [];
    var tries, again := 0, true;
    IntactRefl(fs);
    while again
      invariant !fs.cleaning && st == OK && tries <= GC_MAX_RUNS && (again ==> tries == |runs| < GC_MAX_RUNS)
      invariant Intact(old(fs.dir), old(fs.fds), old(fs.wc), fs) && Mid(fs, IDLE) && NoneDoomed(fs.dir)
      invariant Chain(fs.g, fs.P, old(Now(fs)), runs) && Now(fs) == ShotAt(old(Now(fs)), runs, |runs|) && |runs| <= GC_MAX_RUNS
      invariant forall i :: 0 <= i < |runs| - 1 ==> GoesOn(fs.g, len, runs[i])
      invariant |runs| > 0 ==> again == (GoesOn(fs.g, len, runs[|runs| - 1]) && |runs| < GC_MAX_RUNS)
      invariant again || |runs| > 0
      decreases GC_MAX_RUNS - tries, again
    {
      ghost var dir, fds, x := fs.dir, fs.fds, Now(fs);
      var free := FreeEstimate(fs.g, fs.nAlloc, fs.nDel);
      ghost var b;
      st, b := CollectBest(fs, free <= 0, room);
      IntactTransitive(old(fs.dir), old(fs.fds), old(fs.wc), dir, fds, fs);
      if st != OK { return; }
      ChainNext(fs.g, fs.P, old(Now(fs)), runs, Run(b, x, Now(fs)));
      runs := runs + [Run(b, x, Now(fs))];
      var now := FreeEstimate(fs.g, fs.nAlloc, fs.nDel);
      if free <= 0 && free == now {
        again := false;
      } else {
        tries := tries + 1;
        again := tries < GC_MAX_RUNS && (fs.freeBlocks <= 2 || Signed(len) > now * fs.g.dps);
      }
    }
    if Signed(len) > FreeEstimate(fs.g, fs.nAlloc, fs.nDel) * fs.g.dps { st := ERR_FULL; }
  }
}
