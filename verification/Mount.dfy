/** Formatting the flash, and rebuilding the allocator's counters when it is mounted. */
module Mount {
  import opened Nor
  import opened Layout
  import opened Image
  import opened Core
  import opened Descriptors
  import opened State
  import opened Alloc
  import opened Objects
  import opened Gc
  import opened Append
  import opened Hydro
  import opened FreeId
  import opened Files
  import opened Stock
  import opened Candidates
  import Search

  // ---------------------------------------------------------------- the scan of the lookup tables

  /** The pages whose entries come before entry (b, e). */
  ghost function Before(g: Geo, P: set<nat>, b: nat, e: nat): set<nat>
    requires 0 < g.ppb
  {
    set p | p in P && 0 <= g.EntryOf(p) && Search.Precedes(g.BlockOf(p), g.EntryOf(p), b, e)
  }

  /** Free blocks below b. */
  ghost function FreeBelow(g: Geo, lu: seq<half>, b: nat): set<nat> {
    set c | c in FreeBlocks(g, lu) && c < b
  }

  lemma ScanStart(g: Geo, P: set<nat>, lu: seq<half>)
    requires Entries(g, P)
    ensures 0 < g.ppb && 0 < g.Entries() && Before(g, P, 0, 0) == {}
    ensures |LivePages(P, lu) * Before(g, P, 0, 0)| == 0 && |DeletedPages(P, lu) * Before(g, P, 0, 0)| == 0
    ensures FreeBelow(g, lu, 0) == {}
  {
    assert LivePages(P, lu) * {} == {} && DeletedPages(P, lu) * {} == {};
  }

  lemma ScanRow(g: Geo, P: set<nat>, lu: seq<half>, b: nat)
    requires Entries(g, P) && |lu| == g.Pages()
    ensures Before(g, P, b, g.Entries()) == Before(g, P, b + 1, 0)
    ensures b == g.blocks ==> LivePages(P, lu) * Before(g, P, b, 0) == LivePages(P, lu)
    ensures b == g.blocks ==> DeletedPages(P, lu) * Before(g, P, b, 0) == DeletedPages(P, lu)
    ensures b == g.blocks ==> FreeBelow(g, lu, b) == FreeBlocks(g, lu)
  {
  }

  lemma BeforeNext(g: Geo, P: set<nat>, b: nat, e: nat)
    requires Entries(g, P) && b < g.blocks && e < g.Entries()
    ensures g.PixOf(b, e) !in Before(g, P, b, e) && g.PixOf(b, e) in P
    ensures Before(g, P, b, e + 1) == Before(g, P, b, e) + {g.PixOf(b, e)}
  {
  }

  /** One more entry: its page is counted, and it was not counted before. */
  lemma ScanNext(g: Geo, P: set<nat>, lu: seq<half>, b: nat, e: nat)
    requires Entries(g, P) && |lu| == g.Pages() && b < g.blocks && e < g.Entries()
    ensures |LivePages(P, lu) * Before(g, P, b, e + 1)| ==
            |LivePages(P, lu) * Before(g, P, b, e)| + (if Live(Entry(g, lu, b, e)) then 1 else 0)
    ensures |DeletedPages(P, lu) * Before(g, P, b, e + 1)| ==
            |DeletedPages(P, lu) * Before(g, P, b, e)| + (if Entry(g, lu, b, e) == DELETED_ID then 1 else 0)
  {
    BeforeNext(g, P, b, e);
    OneMoreIn(LivePages(P, lu), Before(g, P, b, e), g.PixOf(b, e));
    OneMoreIn(DeletedPages(P, lu), Before(g, P, b, e), g.PixOf(b, e));
  }

  lemma FreeNext(g: Geo, lu: seq<half>, b: nat)
    requires b < g.blocks
    ensures |FreeBelow(g, lu, b + 1)| == |FreeBelow(g, lu, b)| + (if Entry(g, lu, b, 0) == FREE_ID then 1 else 0)
  {
    assert FreeBelow(g, lu, b + 1) == FreeBelow(g, lu, b) + (if Entry(g, lu, b, 0) == FREE_ID then {b} else {});
  }

  /** The counting part of spiffs_obj_lu_scan: the visitor goes over every entry once, from the first. */
  method CountEntries(g: Geo, ghost P: set<nat>, lu: seq<half>) returns (freeBlocks: nat, nAlloc: nat, nDel: nat)
    requires Entries(g, P) && |lu| == g.Pages()
    ensures freeBlocks == |FreeBlocks(g, lu)| && nAlloc == |LivePages(P, lu)| && nDel == |DeletedPages(P, lu)|
  {
    hide Entries, Before, LivePages, DeletedPages, FreeBelow, FreeBlocks;
    freeBlocks, nAlloc, nDel := 0, 0, 0;
    ScanStart(g, P, lu);
    var b := 0;
    while b < g.blocks
      invariant b <= g.blocks && freeBlocks == |FreeBelow(g, lu, b)|
      invariant nAlloc == |LivePages(P, lu) * Before(g, P, b, 0)| && nDel == |DeletedPages(P, lu) * Before(g, P, b, 0)|
    {
      FreeNext(g, lu, b);
      var e := 0;
      while e < g.Entries()
        invariant e <= g.Entries()
        invariant freeBlocks == if e == 0 then |FreeBelow(g, lu, b)| else |FreeBelow(g, lu, b + 1)|
        invariant nAlloc == |LivePages(P, lu) * Before(g, P, b, e)| && nDel == |DeletedPages(P, lu) * Before(g, P, b, e)|
      {
        ScanNext(g, P, lu, b, e);
        var id := Entry(g, lu, b, e);
        if id == FREE_ID {
          if e == 0 { freeBlocks := freeBlocks + 1; }
        } else if id == DELETED_ID {
          nDel := nDel + 1;
        } else {
          nAlloc := nAlloc + 1;
        }
        e := e + 1;
      }
      ScanRow(g, P, lu, b);
      b := b + 1;
    }
    ScanRow(g, P, lu, g.blocks);
  }

  /** c is the least, or the greatest, of the erase counters that are set. */
  ghost predicate LeastCount(counts: seq<half>, c: half) {
    c != FREE_ID && c in counts && forall i :: 0 <= i < |counts| && counts[i] != FREE_ID ==> c <= counts[i]
  }

  ghost predicate GreatestCount(counts: seq<half>, c: half) {
    c != FREE_ID && c in counts && forall i :: 0 <= i < |counts| && counts[i] != FREE_ID ==> counts[i] <= c
  }

  /** What the counter goes on from. */
  ghost predicate GoesOnFrom(counts: seq<half>, n: half) {
    && ((forall i :: 0 <= i < |counts| ==> counts[i] == FREE_ID) ==> n == 1)
    && (forall lo: half, hi: half :: LeastCount(counts, lo) && GreatestCount(counts, hi) ==>
                               n == if hi - lo > 0x7FFF then lo + 1 else hi + 1)
  }

  /** The erase counter to go on with: one above the greatest of the blocks, or, when the counters are so far apart that they
      must have wrapped, one above the least; 1 when no block has one.  The counters that erasing writes stay below 0x8000
      until one of them has been read back as 0x7FFF, and as long as they do, no wrap is seen. */
  method EraseCount(counts: seq<half>) returns (n: half)
    ensures GoesOnFrom(counts, n)
    ensures forall hi: half :: GreatestCount(counts, hi) && hi <= 0x7FFF ==> n == hi + 1
    ensures counts != [] && (forall i :: 0 <= i < |counts| ==> counts[i] < 0x7FFF) ==>
              (forall i :: 0 <= i < |counts| ==> counts[i] < n) && exists i :: 0 <= i < |counts| && n == counts[i] + 1
  {
    var min: half, max: half := 0xFFFF, 0;
    var i := 0;
    while i < |counts|
      invariant i <= |counts|
      invariant forall j :: 0 <= j < i && counts[j] != FREE_ID ==> min <= counts[j] <= max
      invariant max == 0 || exists j :: 0 <= j < i && max == counts[j]
      invariant min == 0xFFFF || exists j :: 0 <= j < i && min == counts[j]
      invariant max != FREE_ID && (min == 0xFFFF <==> forall j :: 0 <= j < i ==> counts[j] == FREE_ID)
      invariant min == 0xFFFF ==> max == 0
    {
      if counts[i] != FREE_ID {
        min := if counts[i] < min then counts[i] else min;
        max := if max < counts[i] then counts[i] else max;
      }
      i := i + 1;
    }
    assert counts != [] && counts[0] != FREE_ID ==> min <= counts[0] <= max;
    n := 0;
    if min == 0 && max == FREE_ID {
      // never: a counter that is set is less than FREE_ID
    } else if max - min > FREE_ID / 2 {
      n := (min + 1) % 0x1_0000;
    } else {
      n := (max + 1) % 0x1_0000;
    }
  }

  // ---------------------------------------------------------------- mounting

  /** Flash that the file system has left behind: it represents a directory, and free entries are suffixes. */
  ghost predicate Clean(fs: Spiffs)
    reads fs
  {
    && fs.g.Valid() && FlashOk(fs.g, fs.P, fs.lu, fs.pages) && FreeSuffix(fs.g, fs.lu)
    && Rep(fs.g, fs.P, fs.lu, fs.pages, fs.dir, {}) && |fs.eraseCnt| == fs.g.blocks
  }

  /** spiffs_obj_lu_scan: the counters are rebuilt from the lookup tables. */
  method ObjLuScan(fs: Spiffs)
    requires Entries(fs.g, fs.P) && |fs.lu| == fs.g.Pages()
    modifies fs`maxErase, fs`freeBlocks, fs`nAlloc, fs`nDel, fs`surplus
    ensures fs.nAlloc == |LivePages(fs.P, fs.lu)| && fs.nDel == |DeletedPages(fs.P, fs.lu)|
    ensures fs.freeBlocks == |FreeBlocks(fs.g, fs.lu)| && fs.surplus == 0 && GoesOnFrom(fs.eraseCnt, fs.maxErase)
  {
    fs.maxErase := EraseCount(fs.eraseCnt);
    var freeBlocks, nAlloc, nDel := CountEntries(fs.g, fs.P, fs.lu);
    fs.freeBlocks, fs.nAlloc, fs.nDel, fs.surplus := freeBlocks, nAlloc, nDel, 0;
  }

  const CLOSED := Fd(0, 0, 0, 0, 0, 0, 0, OpenFlags(false, false, false, false, false, false, false), NoCache, 0, 0)

  /** SPIFFS_mount, with room for `nFds` descriptors and `slots` cache pages: the counters are exact again,
      and the objects are those the flash represents. */
  method MountFs(fs: Spiffs, nFds: nat, slots: nat)
    requires Clean(fs)
    modifies fs
    ensures Mid(fs, IDLE) && !fs.cleaning && fs.dir == old(fs.dir) && fs.lu == old(fs.lu) && fs.pages == old(fs.pages)
    ensures fs.nAlloc == |LivePages(fs.P, fs.lu)| && fs.nDel == |DeletedPages(fs.P, fs.lu)|
    ensures fs.freeBlocks == |FreeBlocks(fs.g, fs.lu)| && fs.surplus == 0
    ensures fs.eraseCnt == old(fs.eraseCnt) && GoesOnFrom(fs.eraseCnt, fs.maxErase)
    ensures fs.fds == seq(nFds, i => CLOSED) && fs.wc == seq(slots, i => Other)
    ensures fs.freeBlk == 0 && fs.freeEnt == 0
  {
    hide GoesOnFrom, FlashOk, FreeSuffix, Rep, FdsOk, LivePages, DeletedPages, FreeBlocks, PageShape, Entries;
    CleanShape(fs);
    fs.fds, fs.wc := seq(nFds, i => CLOSED), seq(slots, i => Other);
    fs.freeBlk, fs.freeEnt, fs.curBlk, fs.curEnt, fs.cleaning := 0, 0, 0, 0, false;
    fs.work := Blank(fs.g);
    ObjLuScan(fs);
    ClosedFds(fs.fds, fs.wc, fs.dir);
  }

  lemma CleanShape(fs: Spiffs)
    requires Clean(fs)
    ensures Entries(fs.g, fs.P) && |fs.lu| == fs.g.Pages() && 0 < fs.g.blocks && PageShape(fs.g, Blank(fs.g))
    ensures 0 !in fs.dir && CursorOk(fs.g, fs.lu, 0, 0)
  {
  }

  lemma ClosedFds(fds: seq<Fd>, wc: seq<CPage>, dir: Dir)
    requires forall i :: 0 <= i < |fds| ==> fds[i] == CLOSED
    ensures FdsOk(fds, wc, dir, 0, {})
  {
  }

  /** A mounted file system leaves its flash in a state that can be mounted again. */
  lemma ReadyIsClean(fs: Spiffs)
    requires Ready(fs)
    ensures Clean(fs)
  {
  }

  // ---------------------------------------------------------------- formatting

  /** Every page below block b is erased. */
  ghost predicate ErasedBelow(fs: Spiffs, b: nat)
    requires 0 < fs.g.ppb
    reads fs
  {
    && |fs.lu| == |fs.pages| == fs.g.Pages()
    && forall p :: p in fs.P && p < |fs.lu| && fs.g.BlockOf(p) < b ==> fs.lu[p] == FREE_ID && fs.pages[p] == Blank(fs.g)
  }

  /** SPIFFS_format: every block is erased, whatever was on the flash before. */
  method FormatFs(fs: Spiffs)
    requires fs.g.Valid() && fs.P == fs.g.DataPages() && |fs.lu| == |fs.pages| == fs.g.Pages()
    modifies fs
    ensures Clean(fs) && fs.dir == map[] && ErasedBelow(fs, fs.g.blocks)
    ensures |fs.eraseCnt| == fs.g.blocks && forall b :: 0 <= b < fs.g.blocks ==> fs.eraseCnt[b] == 0
  {
    fs.eraseCnt := seq(fs.g.blocks, i => 0);
    var b := 0;
    while b < fs.g.blocks
      invariant b <= fs.g.blocks && ErasedBelow(fs, b) && |fs.eraseCnt| == fs.g.blocks
      invariant forall c :: 0 <= c < fs.g.blocks ==> fs.eraseCnt[c] == 0
    {
      fs.maxErase := 0;
      HalErase(fs, b);
      fs.freeBlocks := fs.freeBlocks + 1;
      fs.eraseCnt := fs.eraseCnt[b := fs.maxErase];
      fs.maxErase := NextErase(fs.maxErase);
      b := b + 1;
    }
    fs.dir := map[];
    AllErased(fs);
  }

  lemma AllErased(fs: Spiffs)
    requires fs.g.Valid() && fs.P == fs.g.DataPages() && ErasedBelow(fs, fs.g.blocks) && fs.dir == map[]
    requires |fs.eraseCnt| == fs.g.blocks
    ensures Clean(fs) && LivePages(fs.P, fs.lu) == {} && DeletedPages(fs.P, fs.lu) == {} && |FreeBlocks(fs.g, fs.lu)| == fs.g.blocks
  {
    EntriesHold(fs.g);
    forall b | 0 <= b < fs.g.blocks ensures Entry(fs.g, fs.lu, b, 0) == FREE_ID {
      EntryPage(fs.g, fs.P, b, 0);
    }
    RangeCard(FreeBlocks(fs.g, fs.lu), 0, fs.g.blocks);
  }

  /** The first page that is written after that goes to block 0. */
  lemma FreshStock(g: Geo)
    requires g.Valid()
    ensures Stocked(g, 0, g.blocks) == Search.Rows(g.Entries(), g.blocks - 2) + 1
  {
  }

  lemma FreshCount(counts: seq<half>, n: half)
    requires |counts| > 0 && (forall b :: 0 <= b < |counts| ==> counts[b] == 0) && GoesOnFrom(counts, n)
    ensures n == 1
  {
    assert counts[0] in counts;
    assert LeastCount(counts, 0) && GreatestCount(counts, 0);
  }

  /** A file system that has just been formatted and mounted is ready, has no file, all its blocks are free, and all its pages
      but those of two blocks in stock. */
  method FormatAndMount(fs: Spiffs, nFds: nat, slots: nat, n: nat, ps: nat)
    requires fs.g.Valid() && fs.P == fs.g.DataPages() && |fs.lu| == |fs.pages| == fs.g.Pages() && 0 < ps
    modifies fs
    ensures Settled(fs, n, ps) && fs.dir == map[] && fs.nAlloc == 0 && fs.nDel == 0 && fs.freeBlocks == fs.g.blocks
    ensures InStock(fs) == Search.Rows(fs.g.Entries(), fs.g.blocks - 2) + 1 && fs.maxErase == 1
  {
    hide Stocked, GoesOnFrom, LeastCount, GreatestCount;
    FormatFs(fs);
    AllErased(fs);
    MountFs(fs, nFds, slots);
    FreshStock(fs.g);
    FreshCount(fs.eraseCnt, fs.maxErase);
  }
}
