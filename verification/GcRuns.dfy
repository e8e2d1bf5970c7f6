/** Runs of the collector: what one run gains, and when as many as spiffs_gc_check allows make room. */
module GcRuns {
  import opened Nor
  import opened Layout
  import opened Image
  import opened Core
  import opened State
  import opened Alloc
  import opened Gc
  import opened Candidates
  import Search

  const GC_MAX_RUNS := 5

  /** A 32-bit number read as signed. */
  function Signed(n: word): int { if n < 0x8000_0000 then n else n - 0x1_0000_0000 }

  /** The pages that can still be written, two blocks set aside. */
  function FreeEstimate(g: Geo, nAlloc: int, nDel: int): int {
    g.Entries() * (g.blocks - 2) - nAlloc - nDel
  }

  // ---------------------------------------------------------------- what the estimate counts

  lemma {:induction false} PrefixCard(g: Geo, P: set<nat>, b: nat, n: nat)
    requires Entries(g, P) && b < g.blocks && n <= g.Entries()
    ensures |BlockPrefix(g, P, b, n)| == n
  {
    hide Entries, BlockPrefix;
    if n == 0 {
      BlockPrefixAll(g, P, b);
    } else {
      PrefixCard(g, P, b, n - 1);
      BlockPrefixNext(g, P, b, n - 1);
    }
  }

  function InBlocks(g: Geo, P: set<nat>, n: nat): set<nat>
    requires 0 < g.ppb
  {
    set p | p in P && g.BlockOf(p) < n
  }

  lemma {:induction false} BlocksCard(g: Geo, P: set<nat>, n: nat)
    requires Entries(g, P) && n <= g.blocks
    ensures |InBlocks(g, P, n)| == g.Entries() * n
  {
    if n == 0 {
      assert InBlocks(g, P, 0) == {};
    } else {
      BlocksCard(g, P, n - 1);
      PrefixCard(g, P, n - 1, g.Entries());
      BlockPrefixAll(g, P, n - 1);
      assert InBlocks(g, P, n) == InBlocks(g, P, n - 1) + BlockPages(g, P, n - 1);
      assert g.Entries() * n == g.Entries() * (n - 1) + g.Entries();
    }
  }

  /** Every page is free, in use or deleted. */
  lemma ThreeKinds(g: Geo, P: set<nat>, lu: seq<half>)
    requires Entries(g, P) && |lu| == g.Pages()
    ensures |P| == |FreePages(P, lu)| + |LivePages(P, lu)| + |DeletedPages(P, lu)|
  {
    var f, l, d := FreePages(P, lu), LivePages(P, lu), DeletedPages(P, lu);
    assert f !! l && (f + l) !! d;
    assert P == f + l + d;
  }

  /** What the program takes for the pages that can still be written is the number of free pages, less two blocks. */
  lemma EstimateIsFree(g: Geo, P: set<nat>, s: St)
    requires Inv(g, P, s)
    ensures FreeEstimate(g, s.nAlloc, s.nDel) == |FreePages(P, s.lu)| - 2 * g.Entries()
  {
    hide FlashOk, FreeSuffix, CursorOk, FreePages, LivePages, DeletedPages, FreeBlocks, Entries;
    InvShape(g, P, s);
    ThreeKinds(g, P, s.lu);
    BlocksCard(g, P, g.blocks);
    AllInBlocks(g, P);
    assert g.Entries() * (g.blocks - 2) == g.Entries() * g.blocks - 2 * g.Entries();
  }

  lemma AllInBlocks(g: Geo, P: set<nat>)
    requires Entries(g, P)
    ensures 0 < g.ppb && InBlocks(g, P, g.blocks) == P
  {
  }

  // ---------------------------------------------------------------- one run

  /** What the collector decides by, and what it changes. */
  datatype Shot = Shot(s: St, eraseCnt: seq<half>, maxErase: half)

  /** A run: the block collected, and the state before and after. */
  datatype Run = Run(block: nat, before: Shot, after: Shot)

  function Est(g: Geo, x: Shot): int { FreeEstimate(g, x.s.nAlloc, x.s.nDel) }

  ghost predicate Sound(g: Geo, P: set<nat>, x: Shot) { Inv(g, P, x.s) && |x.eraseCnt| == g.blocks }

  /** No page is left but for the two blocks set aside. */
  predicate Crammed(g: Geo, x: Shot) { Est(g, x) <= 0 }

  /** No block is preferred to block b; when pages have run out, age does not count. */
  ghost predicate Best(g: Geo, P: set<nat>, x: Shot, b: nat) {
    && 0 < g.ppb && b < |x.eraseCnt|
    && forall c :: 0 <= c < |x.eraseCnt| && c != b ==> Preferred(g, P, x.s.lu, x.eraseCnt, x.maxErase, Crammed(g, x), b, c)
  }

  /** The block is free as a whole and has the newest erase count.  The estimate has grown by the deleted pages that were in
      the block, but for the index pages that had to be stored; with nothing to move it is by all of them, and nothing else
      has changed. */
  ghost predicate Collected(g: Geo, P: set<nat>, r: Run) {
    var x, y, b := r.before, r.after, r.block;
    && Sound(g, P, x) && Sound(g, P, y) && b < g.blocks && 0 < g.ppb
    && (forall p :: p in P && p < |y.s.lu| && g.BlockOf(p) == b ==> y.s.lu[p] == FREE_ID)
    && y.eraseCnt == x.eraseCnt[b := x.maxErase] && y.maxErase == NextErase(x.maxErase)
    && Est(g, x) + DeletedIn(g, P, x.s.lu, b) - Parts(g, P, x.s.lu, b) <= Est(g, y) <= Est(g, x) + DeletedIn(g, P, x.s.lu, b)
    && (LiveIn(g, P, x.s.lu, b) == 0 ==>
          && BlockErased(g, P, x.s.lu, x.s.pages, y.s.lu, y.s.pages, b) && y.s.freeBlocks == x.s.freeBlocks + 1
          && y.s.surplus == x.s.surplus + (if Entry(g, x.s.lu, b, 0) == FREE_ID then 1 else 0))
  }

  /** The best block has pages in use and could not be emptied. */
  ghost predicate Stuck(g: Geo, P: set<nat>, x: Shot) {
    exists b :: Best(g, P, x, b) && LiveIn(g, P, x.s.lu, b) > 0 && Budget(g, P, x.s.lu, b) < 0
  }

  // ---------------------------------------------------------------- runs one after the other

  /** There is room for len bytes, and more than two blocks are free. */
  ghost predicate Enough(g: Geo, len: word, x: Shot) {
    x.s.freeBlocks > 2 && Signed(len) <= Est(g, x) * g.dps
  }

  /** Pages had run out before the run, and it has gained none. */
  ghost predicate Gainless(g: Geo, r: Run) { Crammed(g, r.before) && Est(g, r.before) == Est(g, r.after) }

  /** After this run there is reason for another. */
  ghost predicate GoesOn(g: Geo, len: word, r: Run) { !Enough(g, len, r.after) && !Gainless(g, r) }

  function ShotAt(start: Shot, runs: seq<Run>, i: nat): Shot
    requires i <= |runs|
  {
    if i == 0 then start else runs[i - 1].after
  }

  /** Each run collects the best block, and the next starts where it has ended. */
  ghost predicate Chain(g: Geo, P: set<nat>, start: Shot, runs: seq<Run>) {
    forall i :: 0 <= i < |runs| ==>
                  runs[i].before == ShotAt(start, runs, i) && Best(g, P, runs[i].before, runs[i].block) && Collected(g, P, runs[i])
  }

  lemma ChainNext(g: Geo, P: set<nat>, start: Shot, runs: seq<Run>, r: Run)
    requires Chain(g, P, start, runs) && r.before == ShotAt(start, runs, |runs|) && Best(g, P, r.before, r.block) && Collected(g, P, r)
    ensures Chain(g, P, start, runs + [r]) && ShotAt(start, runs + [r], |runs| + 1) == r.after
  {
    hide Best, Collected;
    var now := runs + [r];
    forall i | 0 <= i < |now|
      ensures now[i].before == ShotAt(start, now, i) && Best(g, P, now[i].before, now[i].block) && Collected(g, P, now[i])
    {
      if i < |runs| { assert runs[i].before == ShotAt(start, runs, i); }
    }
  }

  // ---------------------------------------------------------------- when the runs make room

  /** The blocks all of whose pages are deleted. */
  ghost function Wholly(g: Geo, lu: seq<half>): set<nat>
    requires g.Valid()
  {
    set b | 0 <= b < g.blocks && DeletedUpTo(g, lu, b, g.Entries())
  }

  /** No block carries an erase count that the counter is about to hand out in the next n erases. */
  ghost predicate Steady(x: Shot, n: nat) {
    x.maxErase < IX_FLAG && forall b :: 0 <= b < |x.eraseCnt| ==> SteadyCount(x.eraseCnt[b], x.maxErase, n)
  }

  ghost predicate SteadyCount(count: half, maxErase: half, n: nat) {
    count < IX_FLAG && forall i :: 0 <= i < n ==> count != ErasesLater(i, maxErase)
  }

  /** At least n blocks are wholly deleted, and they are preferred to all others, age counted. */
  ghost predicate Ripe(g: Geo, P: set<nat>, x: Shot, n: nat) {
    && Sound(g, P, x) && g.Valid() && 0 < g.ppb && |Wholly(g, x.s.lu)| >= n && Steady(x, n)
    && forall w, c :: w in Wholly(g, x.s.lu) && 0 <= c < g.blocks && c !in Wholly(g, x.s.lu) ==>
                        Preferred(g, P, x.s.lu, x.eraseCnt, x.maxErase, false, w, c)
  }

  /** k wholly deleted blocks, no more than the collector has runs for, make room for len bytes. */
  ghost predicate Promising(g: Geo, P: set<nat>, x: Shot, len: word, k: nat) {
    && 0 < k <= GC_MAX_RUNS && Ripe(g, P, x, k)
    && x.s.freeBlocks + k > 2 && Signed(len) <= (Est(g, x) + Search.Rows(g.Entries(), k)) * g.dps
  }

  /** The counts of a wholly deleted block. */
  lemma WholeCounts(g: Geo, P: set<nat>, s: St, w: nat)
    requires Inv(g, P, s) && g.Valid() && 0 < g.ppb && w in Wholly(g, s.lu)
    ensures DeletedIn(g, P, s.lu, w) == g.Entries() && LiveIn(g, P, s.lu, w) == 0 && Parts(g, P, s.lu, w) == 0
    ensures forall p :: p in P && g.BlockOf(p) == w ==> s.lu[p] == DELETED_ID
    ensures Entry(g, s.lu, w, 0) == DELETED_ID
  {
    DeletedBlock(g, P, s.lu, w, s.freeBlk, s.freeEnt);
    assert LivePages(P, s.lu) * BlockPages(g, P, w) == {};
    assert HeldIn(g, P, s.lu, w, false) == {};
  }

  /** A block that is not wholly deleted has fewer deleted pages. */
  lemma PartialCounts(g: Geo, P: set<nat>, lu: seq<half>, c: nat)
    requires Entries(g, P) && |lu| == g.Pages() && c < g.blocks && !DeletedUpTo(g, lu, c, g.Entries())
    ensures DeletedIn(g, P, lu, c) < g.Entries()
  {
    var e: nat :| e < g.Entries() && Entry(g, lu, c, e) != DELETED_ID;
    PrefixCard(g, P, c, g.Entries());
    BlockPrefixAll(g, P, c);
    var d, p := DeletedPages(P, lu) * BlockPages(g, P, c), g.PixOf(c, e);
    assert p in BlockPages(g, P, c) && p !in d;
    Fewer(d, BlockPages(g, P, c), p);
  }

  lemma Fewer(s: set<nat>, t: set<nat>, p: nat)
    requires s <= t && p in t && p !in s
    ensures |s| < |t|
  {
    assert s + {p} <= t;
    Smaller(s + {p}, t);
  }

  lemma {:induction false} Smaller(s: set<nat>, t: set<nat>)
    requires s <= t
    ensures |s| <= |t|
  {
    assert t == s + (t - s);
  }

  /** When whole blocks come first, the best block is one of them, whether pages have run out or not. */
  lemma BestIsWhole(g: Geo, P: set<nat>, x: Shot, b: nat)
    requires Ripe(g, P, x, 1)
    ensures Best(g, P, x, b) ==> b in Wholly(g, x.s.lu)
  {
    hide FreeSuffix, CursorOk, LivePages, DeletedPages, FreeBlocks, BlockPages, Steady;
    InvShape(g, P, x.s);
    if b < g.blocks && b !in Wholly(g, x.s.lu) {
      var w :| w in Wholly(g, x.s.lu);
      WholeCounts(g, P, x.s, w);
      PartialCounts(g, P, x.s.lu, b);
      assert Preferred(g, P, x.s.lu, x.eraseCnt, x.maxErase, false, w, b);
      assert !Preferred(g, P, x.s.lu, x.eraseCnt, x.maxErase, Crammed(g, x), b, w);
    }
  }

  // ---------------------------------------------------------------- ... and they do

  /** How much older an erase of another block makes a block. */
  function Ageing(maxErase: half): nat { if maxErase == 0x7FFF then 0x8000 else 1 }

  lemma AgesTogether(count: half, maxErase: half)
    requires count < IX_FLAG && maxErase < IX_FLAG && count != maxErase
    ensures EraseAge(NextErase(maxErase), count) as int == EraseAge(maxErase, count) as int + Ageing(maxErase)
    ensures EraseAge(NextErase(maxErase), maxErase) as int == Ageing(maxErase)
  {
  }

  lemma {:induction false} LaterNext(i: nat, count: half)
    ensures ErasesLater(i + 1, count) == ErasesLater(i, NextErase(count))
  {
    if i > 0 { LaterNext(i - 1, count); }
  }

  lemma SteadyKept(x: Shot, y: Shot, b: nat, n: nat)
    requires Steady(x, n) && 0 < n <= GC_MAX_RUNS && b < |x.eraseCnt|
    requires y.eraseCnt == x.eraseCnt[b := x.maxErase] && y.maxErase == NextErase(x.maxErase)
    ensures Steady(y, n - 1)
  {
    forall c | 0 <= c < |y.eraseCnt| ensures SteadyCount(y.eraseCnt[c], y.maxErase, n - 1) {
      assert SteadyCount(x.eraseCnt[c], x.maxErase, n);
      forall i | 0 <= i < n - 1 ensures y.eraseCnt[c] != ErasesLater(i, y.maxErase) {
        LaterNext(i, x.maxErase);
        CounterCycle(i + 1, x.maxErase);
        CycleWraps(x.maxErase as int, i + 1);
      }
    }
  }

  /** The ages after a run: all other blocks have aged alike, and none is younger than the block just erased. */
  lemma AgesAfter(x: Shot, y: Shot, b: nat, c: nat)
    requires Steady(x, 1) && b < |x.eraseCnt| && c < |x.eraseCnt|
    requires y.eraseCnt == x.eraseCnt[b := x.maxErase] && y.maxErase == NextErase(x.maxErase)
    ensures AgeOf(y.eraseCnt, y.maxErase, c) == Ageing(x.maxErase) + if c == b then 0 else AgeOf(x.eraseCnt, x.maxErase, c)
  {
    assert SteadyCount(x.eraseCnt[c], x.maxErase, 1);
    assert ErasesLater(0, x.maxErase) == x.maxErase;
    AgesTogether(x.eraseCnt[c], x.maxErase);
  }

  /** After a block has been erased it counts nothing, and the others count what they did. */
  lemma CountsAfter(g: Geo, P: set<nat>, s: St, s': St, b: nat, c: nat)
    requires Inv(g, P, s) && 0 < g.ppb && BlockErased(g, P, s.lu, s.pages, s'.lu, s'.pages, b) && c < g.blocks
    ensures DeletedIn(g, P, s'.lu, c) == if c == b then 0 else DeletedIn(g, P, s.lu, c)
    ensures LiveIn(g, P, s'.lu, c) == if c == b then 0 else LiveIn(g, P, s.lu, c)
  {
    hide FreeSuffix, CursorOk, FreeBlocks, Entries;
    var d, d', l, l' := DeletedPages(P, s.lu) * BlockPages(g, P, c), DeletedPages(P, s'.lu) * BlockPages(g, P, c),
                        LivePages(P, s.lu) * BlockPages(g, P, c), LivePages(P, s'.lu) * BlockPages(g, P, c);
    if c == b {
      assert d' == {} && l' == {};
    } else {
      assert d' == d && l' == l;
    }
  }

  lemma WholeAfter(g: Geo, P: set<nat>, s: St, s': St, b: nat, c: nat)
    requires Inv(g, P, s) && BlockErased(g, P, s.lu, s.pages, s'.lu, s'.pages, b) && c < g.blocks
    ensures DeletedUpTo(g, s'.lu, c, g.Entries()) <==> c != b && DeletedUpTo(g, s.lu, c, g.Entries())
  {
    hide FreeSuffix, CursorOk, FreeBlocks, LivePages, DeletedPages;
    InvShape(g, P, s);
    forall e: nat | e < g.Entries() ensures Entry(g, s'.lu, c, e) == if c == b then FREE_ID else Entry(g, s.lu, c, e) {
      EntryPage(g, P, c, e);
    }
    assert Entry(g, s'.lu, c, 0) == if c == b then FREE_ID else Entry(g, s.lu, c, 0);
  }

  /** A run takes a wholly deleted block, gains all of it, and leaves the others preferred as they were. */
  lemma RipeRun(g: Geo, P: set<nat>, r: Run, n: nat)
    requires Ripe(g, P, r.before, n) && 0 < n <= GC_MAX_RUNS && Best(g, P, r.before, r.block) && Collected(g, P, r)
    ensures Ripe(g, P, r.after, n - 1)
    ensures Est(g, r.after) == Est(g, r.before) + g.Entries() && r.after.s.freeBlocks == r.before.s.freeBlocks + 1
    ensures r.after.s.surplus == r.before.s.surplus
  {
    hide FreeSuffix, CursorOk, LivePages, DeletedPages, FreeBlocks, BlockPages, DeletedIn, LiveIn, AgeOf, DeletedUpTo,
      BlockErased, Entries, FlashOk;
    var x, y, b := r.before, r.after, r.block;
    assert Ripe(g, P, x, 1) by { hide Preferred; assert Steady(x, 1); }
    BestIsWhole(g, P, x, b);
    WholeCounts(g, P, x.s, b);
    SteadyKept(x, y, b, n);
    forall c | 0 <= c < g.blocks ensures c in Wholly(g, y.s.lu) <==> c in Wholly(g, x.s.lu) && c != b {
      WholeAfter(g, P, x.s, y.s, b, c);
    }
    assert Wholly(g, y.s.lu) == Wholly(g, x.s.lu) - {b};
    forall w, c | w in Wholly(g, y.s.lu) && 0 <= c < g.blocks && c !in Wholly(g, y.s.lu)
      ensures Preferred(g, P, y.s.lu, y.eraseCnt, y.maxErase, false, w, c)
    {
      WholeCounts(g, P, y.s, w);
      CountsAfter(g, P, x.s, y.s, b, w);
      CountsAfter(g, P, x.s, y.s, b, c);
      AgesAfter(x, y, b, w);
      AgesAfter(x, y, b, c);
      if c != b { assert Preferred(g, P, x.s.lu, x.eraseCnt, x.maxErase, false, w, c); }
    }
  }

  /** The state after the first i runs of a chain that begins with k wholly deleted blocks to take. */
  lemma {:induction false} RipeAt(g: Geo, P: set<nat>, start: Shot, runs: seq<Run>, k: nat, i: nat)
    requires Chain(g, P, start, runs) && Ripe(g, P, start, k) && k <= GC_MAX_RUNS && i <= k && i <= |runs|
    ensures Ripe(g, P, ShotAt(start, runs, i), k - i)
    ensures Est(g, ShotAt(start, runs, i)) == Est(g, start) + Search.Rows(g.Entries(), i)
    ensures ShotAt(start, runs, i).s.freeBlocks == start.s.freeBlocks + i && ShotAt(start, runs, i).s.surplus == start.s.surplus
  {
    hide Ripe, Best, Collected;
    ValidFromRipe(g, P, start, k);
    if i > 0 {
      RipeAt(g, P, start, runs, k, i - 1);
      RipeRun(g, P, runs[i - 1], k - i + 1);
    }
  }

  lemma ValidFromRipe(g: Geo, P: set<nat>, x: Shot, n: nat)
    requires Ripe(g, P, x, n)
    ensures g.Valid() && 0 < g.Entries() && 0 < g.dps
    ensures n > 0 ==> !Stuck(g, P, x)
  {
    if n > 0 {
      assert Ripe(g, P, x, 1) by { hide Preferred; assert Steady(x, 1); }
      forall b | Best(g, P, x, b) ensures LiveIn(g, P, x.s.lu, b) == 0 {
        BestIsWhole(g, P, x, b);
        WholeCounts(g, P, x.s, b);
      }
    }
  }

  /** When k wholly deleted blocks make room, there is room after at most k runs, and no run before that is the last or fails. */
  lemma PromiseKept(g: Geo, P: set<nat>, start: Shot, runs: seq<Run>, len: word, k: nat)
    requires Chain(g, P, start, runs) && Promising(g, P, start, len, k)
    requires forall i :: 0 <= i < |runs| - 1 ==> GoesOn(g, len, runs[i])
    ensures |runs| <= k && 0 < k <= GC_MAX_RUNS
    ensures forall i :: 0 <= i < |runs| ==> !Gainless(g, runs[i])
    ensures |runs| < k ==> !Stuck(g, P, ShotAt(start, runs, |runs|))
    ensures |runs| == k ==> Enough(g, len, ShotAt(start, runs, k))
    ensures var s := ShotAt(start, runs, |runs|).s; s.freeBlocks == start.s.freeBlocks + |runs| && s.surplus == start.s.surplus
  {
    hide Ripe, Best, Collected, Stuck;
    ValidFromRipe(g, P, start, k);
    var n := if |runs| < k then |runs| else k;
    RipeAt(g, P, start, runs, k, n);
    if n < k { ValidFromRipe(g, P, ShotAt(start, runs, n), k - n); }
    if |runs| >= k { assert ShotAt(start, runs, k) == runs[k - 1].after; }
    forall i | 0 <= i < n ensures !Gainless(g, runs[i]) {
      RipeAt(g, P, start, runs, k, i);
      RipeAt(g, P, start, runs, k, i + 1);
      RowsStep(g.Entries(), i);
    }
  }

  lemma RowsStep(len: nat, i: nat)
    ensures Search.Rows(len, i + 1) == Search.Rows(len, i) + len
  {
  }
}
