/** Which block to collect: the candidate table of spiffs_gc_find_candidate. */
module Candidates {
  import opened Nor
  import opened Layout
  import opened Image
  import opened Core
  import opened State
  import opened Alloc

  /** A block and its score. */
  datatype Cand = Cand(block: nat, score: int)

  const NO_BLOCK: nat := 0xFFFF
  const W_DELETED := 5
  const W_USED := -1
  const W_ERASE_AGE := 50

  // ---------------------------------------------------------------- scores

  /** Deleted and used entries of block b, from entry e up to the first free one. */
  function DeletedFrom(g: Geo, lu: seq<half>, b: nat, e: nat): nat
    decreases g.Entries() - e
  {
    if e >= g.Entries() || Entry(g, lu, b, e) == FREE_ID then 0
    else (if Entry(g, lu, b, e) == DELETED_ID then 1 else 0) + DeletedFrom(g, lu, b, e + 1)
  }

  function UsedFrom(g: Geo, lu: seq<half>, b: nat, e: nat): nat
    decreases g.Entries() - e
  {
    if e >= g.Entries() || Entry(g, lu, b, e) == FREE_ID then 0
    else (if Entry(g, lu, b, e) == DELETED_ID then 0 else 1) + UsedFrom(g, lu, b, e + 1)
  }

  /** How long ago, in erases, a block was erased; the counters wrap. */
  function EraseAge(maxErase: half, count: half): half {
    if maxErase > count then maxErase - count else 0xFFFF - (count - maxErase)
  }

  function Score(deleted: nat, used: nat, age: half, crammed: bool): int {
    deleted * W_DELETED + used * W_USED + age * (if crammed then 0 else W_ERASE_AGE)
  }

  /** The score of block b. */
  function BlockScore(g: Geo, lu: seq<half>, eraseCnt: seq<half>, maxErase: half, crammed: bool, b: nat): int {
    Score(DeletedFrom(g, lu, b, 0), UsedFrom(g, lu, b, 0),
          EraseAge(maxErase, if b < |eraseCnt| then eraseCnt[b] else 0), crammed)
  }

  /** The scan may stop at the first free entry: since free entries are a suffix, it has then counted
      every deleted and every used entry of the block. */
  lemma {:induction false} ScanIsComplete(g: Geo, P: set<nat>, lu: seq<half>, b: nat, n: nat)
    requires Entries(g, P) && |lu| == g.Pages() && FreeSuffix(g, lu) && b < g.blocks && n <= g.Entries()
    ensures |DeletedPages(P, lu) * BlockPages(g, P, b)| ==
            |DeletedPages(P, lu) * BlockPrefix(g, P, b, n)| + DeletedFrom(g, lu, b, n)
    ensures |LivePages(P, lu) * BlockPages(g, P, b)| ==
            |LivePages(P, lu) * BlockPrefix(g, P, b, n)| + UsedFrom(g, lu, b, n)
    decreases g.Entries() - n
  {
    hide Entries, FreeSuffix, LivePages, DeletedPages, BlockPages, BlockPrefix;
    if n == g.Entries() {
      BlockPrefixAll(g, P, b);
    } else if Entry(g, lu, b, n) == FREE_ID {
      FreeFromHere(g, P, lu, b, n);
    } else {
      ScanIsComplete(g, P, lu, b, n + 1);
      CountNext(g, P, lu, b, n);
    }
  }

  /** Behind a free entry nothing is deleted or used. */
  lemma FreeFromHere(g: Geo, P: set<nat>, lu: seq<half>, b: nat, n: nat)
    requires Entries(g, P) && |lu| == g.Pages() && FreeSuffix(g, lu) && b < g.blocks && n < g.Entries()
    requires Entry(g, lu, b, n) == FREE_ID
    ensures DeletedPages(P, lu) * BlockPages(g, P, b) == DeletedPages(P, lu) * BlockPrefix(g, P, b, n)
    ensures LivePages(P, lu) * BlockPages(g, P, b) == LivePages(P, lu) * BlockPrefix(g, P, b, n)
  {
    forall p | p in BlockPages(g, P, b) && p !in BlockPrefix(g, P, b, n) ensures lu[p] == FREE_ID {
      assert Entry(g, lu, b, g.EntryOf(p)) == FREE_ID;
    }
  }

  /** The erase counter after n more erases. */
  function ErasesLater(n: nat, count: half): half {
    if n == 0 then count else NextErase(ErasesLater(n - 1, count))
  }

  /** The counter runs through the numbers below 0x8000, one per erase, and starts again from 0. */
  lemma {:induction false} CounterCycle(n: nat, count: half)
    requires count < IX_FLAG
    ensures ErasesLater(n, count) as int == (count as int + n) % 0x8000
  {
    if n > 0 {
      CounterCycle(n - 1, count);
      CycleStep(count as int + n - 1);
    }
  }

  lemma CycleStep(m: nat)
    ensures (m + 1) % 0x8000 == if m % 0x8000 == 0x7FFF then 0 else m % 0x8000 + 1
  {
  }

  /** For as many erases as the counter can tell apart, a block's age is the number of erases since its own; once the
      counter has started again it is 0x7FFF more than that. */
  lemma AgeIsErases(n: nat, count: half)
    requires count < IX_FLAG && 1 <= n <= 0x8000
    ensures EraseAge(ErasesLater(n, count), count) as int == n + if count as int + n < 0x8000 then 0 else 0x7FFF
  {
    CounterCycle(n, count);
    CycleWraps(count as int, n);
  }

  lemma CycleWraps(c: nat, n: nat)
    requires c < 0x8000 && 1 <= n <= 0x8000
    ensures (c + n) % 0x8000 == if c + n < 0x8000 then c + n else c + n - 0x8000
  {
  }

  /** So the block erased longer ago is the older one, on either side of the point where the counter starts again. */
  lemma OlderIsOlder(m: nat, a: half, n: nat, b: half, maxErase: half)
    requires a < IX_FLAG && b < IX_FLAG && 1 <= m <= 0x8000 && 1 <= n <= 0x8000
    requires maxErase == ErasesLater(m, a) == ErasesLater(n, b)
    ensures m < n <==> EraseAge(maxErase, a) < EraseAge(maxErase, b)
  {
    AgeIsErases(m, a);
    AgeIsErases(n, b);
    CounterCycle(m, a);
    CounterCycle(n, b);
    CycleWraps(a as int, m);
    CycleWraps(b as int, n);
  }

  // ---------------------------------------------------------------- what the collector prefers

  /** Deleted pages and pages in use of block b. */
  ghost function DeletedIn(g: Geo, P: set<nat>, lu: seq<half>, b: nat): nat requires 0 < g.ppb {
    |DeletedPages(P, lu) * BlockPages(g, P, b)|
  }

  ghost function LiveIn(g: Geo, P: set<nat>, lu: seq<half>, b: nat): nat requires 0 < g.ppb {
    |LivePages(P, lu) * BlockPages(g, P, b)|
  }

  ghost function AgeOf(eraseCnt: seq<half>, maxErase: half, b: nat): nat requires b < |eraseCnt| {
    EraseAge(maxErase, eraseCnt[b]) as nat
  }

  /** Block a is to be collected before block b: a deleted page more counts as much as five pages in use fewer, and one
      erase of age as much as ten deleted pages; among equals the first block goes first.  When pages have run out, age
      does not count. */
  ghost predicate Preferred(g: Geo, P: set<nat>, lu: seq<half>, eraseCnt: seq<half>, maxErase: half, crammed: bool, a: nat, b: nat)
    requires 0 < g.ppb && a < |eraseCnt| && b < |eraseCnt|
  {
    var gain := 5 * (DeletedIn(g, P, lu, a) - DeletedIn(g, P, lu, b)) + (LiveIn(g, P, lu, b) - LiveIn(g, P, lu, a));
    var older := if crammed then 0 else AgeOf(eraseCnt, maxErase, a) - AgeOf(eraseCnt, maxErase, b);
    gain + 50 * older > 0 || (gain + 50 * older == 0 && a < b)
  }

  /** The score counts all deleted pages of the block and all in use. */
  lemma ScoreCounts(g: Geo, P: set<nat>, lu: seq<half>, eraseCnt: seq<half>, maxErase: half, crammed: bool, b: nat)
    requires Entries(g, P) && |lu| == g.Pages() && FreeSuffix(g, lu) && b < g.blocks == |eraseCnt|
    ensures BlockScore(g, lu, eraseCnt, maxErase, crammed, b) ==
            5 * DeletedIn(g, P, lu, b) - LiveIn(g, P, lu, b) + (if crammed then 0 else 50 * AgeOf(eraseCnt, maxErase, b))
  {
    ScanIsComplete(g, P, lu, b, 0);
    BlockPrefixAll(g, P, b);
    assert DeletedPages(P, lu) * {} == {} && LivePages(P, lu) * {} == {};
  }

  /** Which of two blocks comes first in the order of their scores. */
  lemma BeforeIsPreferred(g: Geo, P: set<nat>, lu: seq<half>, eraseCnt: seq<half>, maxErase: half, crammed: bool, a: nat, b: nat)
    requires Entries(g, P) && |lu| == g.Pages() && FreeSuffix(g, lu) && a < g.blocks == |eraseCnt| && b < g.blocks
    ensures Before(Cand(a, BlockScore(g, lu, eraseCnt, maxErase, crammed, a)), Cand(b, BlockScore(g, lu, eraseCnt, maxErase, crammed, b)))
            <==> Preferred(g, P, lu, eraseCnt, maxErase, crammed, a, b)
  {
    ScoreCounts(g, P, lu, eraseCnt, maxErase, crammed, a);
    ScoreCounts(g, P, lu, eraseCnt, maxErase, crammed, b);
  }

  // ---------------------------------------------------------------- the table

  /** x is before y in the table: it has the higher score, or the same and the lower number. */
  predicate Before(x: Cand, y: Cand) {
    x.score > y.score || (x.score == y.score && x.block < y.block)
  }

  /** The table holds the best max of the blocks below n, best first, each block once. */
  ghost predicate IsTop(t: seq<Cand>, score: nat -> int, n: nat, max: nat) {
    && |t| == (if n < max then n else max)
    && (forall i :: 0 <= i < |t| ==> t[i].block < n && t[i].score == score(t[i].block))
    && (forall i, j :: 0 <= i < j < |t| ==> Before(t[i], t[j]))
    && (forall b :: 0 <= b < n && !InTable(t, b) ==>
                      |t| == max && forall i :: 0 <= i < |t| ==> Before(t[i], Cand(b, score(b))))
  }

  ghost predicate InTable(t: seq<Cand>, b: nat) {
    exists i :: 0 <= i < |t| && t[i].block == b
  }

  /** Where a candidate goes: before the first with a lower score. */
  function Place(t: seq<Cand>, score: int): (i: nat)
    ensures i <= |t| && (i < |t| ==> t[i].score < score)
    ensures forall j :: 0 <= j < i ==> t[j].score >= score
  {
    if t == [] || t[0].score < score then 0 else 1 + Place(t[1..], score)
  }

  /** The table with one more candidate, before the cut. */
  function Widened(t: seq<Cand>, x: Cand): (r: seq<Cand>)
    ensures |r| == |t| + 1
    ensures forall j :: 0 <= j < |r| ==>
                          r[j] == if j < Place(t, x.score) then t[j] else if j == Place(t, x.score) then x else t[j - 1]
  {
    t[..Place(t, x.score)] + [x] + t[Place(t, x.score)..]
  }

  /** The table with one more candidate, cut to max. */
  function Inserted(t: seq<Cand>, x: Cand, max: nat): seq<Cand> {
    var r := Widened(t, x);
    if |r| <= max then r else r[..max]
  }

  lemma WidenedSorted(t: seq<Cand>, score: nat -> int, n: nat, max: nat)
    requires IsTop(t, score, n, max)
    ensures var r := Widened(t, Cand(n, score(n)));
            && (forall i :: 0 <= i < |r| ==> r[i].block < n + 1 && r[i].score == score(r[i].block))
            && (forall i, j :: 0 <= i < j < |r| ==> Before(r[i], r[j]))
  {
    var x := Cand(n, score(n));
    var r, at := Widened(t, x), Place(t, x.score);
    forall i, j | 0 <= i < j < |r| ensures Before(r[i], r[j]) {
      if i == at { assert at == j - 1 || Before(t[at], t[j - 1]); }
    }
  }

  /** A block that did not fit into the cut table comes after everything in it. */
  lemma WidenedCovers(t: seq<Cand>, score: nat -> int, n: nat, max: nat, b: nat, i: nat)
    requires IsTop(t, score, n, max) && b < n + 1 && i < max
    requires |t| == max && !InTable(Widened(t, Cand(n, score(n)))[..max], b)
    ensures Before(Widened(t, Cand(n, score(n)))[i], Cand(b, score(b)))
  {
    var x := Cand(n, score(n));
    var r, at := Widened(t, x), Place(t, x.score);
    WidenedSorted(t, score, n, max);
    forall j | 0 <= j < max ensures r[j].block != b { assert r[..max][j].block == r[j].block; }
    if b == n {
      assert r[at] == x;
      assert r[max] == x;
    } else if InTable(t, b) {
      // block b was in the table, so it is the one that has been pushed out
      var j :| 0 <= j < |t| && t[j].block == b;
      assert r[if j < at then j else j + 1].block == b;
      assert r[max] == Cand(b, score(b));
    } else if i == at {
      assert Before(t[at], Cand(b, score(b)));
    } else {
      assert Before(t[if i < at then i else i - 1], Cand(b, score(b)));
    }
  }

  /** A table with room to spare leaves no block out. */
  lemma WidenedKeeps(t: seq<Cand>, score: nat -> int, n: nat, max: nat, b: nat)
    requires IsTop(t, score, n, max) && b < n + 1 && |t| < max
    ensures InTable(Widened(t, Cand(n, score(n))), b)
  {
    var x := Cand(n, score(n));
    var r, at := Widened(t, x), Place(t, x.score);
    if b == n {
      assert r[at].block == b;
    } else {
      assert InTable(t, b);
      var j :| 0 <= j < |t| && t[j].block == b;
      assert r[if j < at then j else j + 1].block == b;
    }
  }

  /** Inserting the next block keeps the table the best max of those seen. */
  lemma InsertedIsTop(t: seq<Cand>, score: nat -> int, n: nat, max: nat)
    requires IsTop(t, score, n, max)
    ensures IsTop(Inserted(t, Cand(n, score(n)), max), score, n + 1, max)
  {
    var x := Cand(n, score(n));
    var r, t' := Widened(t, x), Inserted(t, x, max);
    WidenedSorted(t, score, n, max);
    assert forall i :: 0 <= i < |t'| ==> t'[i] == r[i];
    forall b | 0 <= b < n + 1 && !InTable(t', b)
      ensures |t'| == max && forall i :: 0 <= i < |t'| ==> Before(t'[i], Cand(b, score(b)))
    {
      if |t| < max { WidenedKeeps(t, score, n, max, b); }
      forall i | 0 <= i < |t'| ensures Before(t'[i], Cand(b, score(b))) {
        WidenedCovers(t, score, n, max, b, i);
      }
    }
  }

  /** The best candidate is in front: no block scores higher, and no earlier block as high. */
  lemma TopIsBest(t: seq<Cand>, score: nat -> int, n: nat, max: nat)
    requires IsTop(t, score, n, max) && 0 < max && 0 < n
    ensures t[0].block < n
    ensures forall b :: 0 <= b < n ==> score(b) <= score(t[0].block)
    ensures forall b :: 0 <= b < t[0].block ==> score(b) < score(t[0].block)
  {
    forall b | 0 <= b < n ensures b == t[0].block || Before(t[0], Cand(b, score(b))) {
      if InTable(t, b) {
        var i :| 0 <= i < |t| && t[i].block == b;
        assert t[i] == Cand(b, score(b));
      }
    }
  }

  // ---------------------------------------------------------------- the method

  /** The table in the work buffer: block numbers and scores, the unused rest marked with NO_BLOCK. */
  ghost predicate Holds(cb: seq<nat>, cs: seq<int>, t: seq<Cand>) {
    && |cb| == |cs| && |t| <= |cb|
    && (forall i :: 0 <= i < |t| ==> cb[i] == t[i].block && cs[i] == t[i].score && cb[i] != NO_BLOCK)
    && (forall i :: |t| <= i < |cb| ==> cb[i] == NO_BLOCK)
  }

  /** A column with x at place i: everything from there on moves down by one, and the last falls out. */
  function MovedIn<T>(s: seq<T>, x: T, i: nat): seq<T>
    requires i < |s|
  {
    s[..i] + [x] + s[i..|s| - 1]
  }

  /** Everything from place i on moves down by one, the last falls out, and x goes to place i. */
  method MoveDown(cb: array<nat>, cs: array<int>, x: Cand, i: nat)
    requires cb != cs as object && cb.Length == cs.Length && i < cb.Length
    modifies cb, cs
    ensures cb[..] == MovedIn(old(cb[..]), x.block, i) && cs[..] == MovedIn(old(cs[..]), x.score, i)
  {
    hide MovedIn;
    var j := cb.Length - 2;
    while j >= i
      invariant i - 1 <= j <= cb.Length - 2
      invariant forall m :: 0 <= m <= j + 1 ==> cb[m] == old(cb[m]) && cs[m] == old(cs[m])
      invariant forall m :: j + 2 <= m < cb.Length ==> cb[m] == old(cb[m - 1]) && cs[m] == old(cs[m - 1])
    {
      cb[j + 1] := cb[j];
      cs[j + 1] := cs[j];
      j := j - 1;
    }
    cb[i] := x.block;
    cs[i] := x.score;
    MovedInIs(old(cb[..]), cb[..], x.block, i);
    MovedInIs(old(cs[..]), cs[..], x.score, i);
  }

  lemma MovedInIs<T>(s: seq<T>, s': seq<T>, x: T, i: nat)
    requires |s'| == |s| && i < |s| && s'[i] == x
    requires forall m :: 0 <= m < i ==> s'[m] == s[m]
    requires forall m :: i < m < |s| ==> s'[m] == s[m - 1]
    ensures s' == MovedIn(s, x, i)
  {
  }

  /** The columns with x moved in at place i hold the table with x inserted, if that is where x belongs. */
  lemma HoldsInserted(cb: seq<nat>, cs: seq<int>, t: seq<Cand>, x: Cand, i: nat)
    requires Holds(cb, cs, t) && x.block != NO_BLOCK && i == Place(t, x.score) && i < |cb|
    ensures Holds(MovedIn(cb, x.block, i), MovedIn(cs, x.score, i), Inserted(t, x, |cb|))
  {
    var r, cb', cs' := Inserted(t, x, |cb|), MovedIn(cb, x.block, i), MovedIn(cs, x.score, i);
    forall m | 0 <= m < |r| ensures cb'[m] == r[m].block && cs'[m] == r[m].score && cb'[m] != NO_BLOCK {
      assert r[m] == Widened(t, x)[m];
    }
  }

  /** ... or when it goes behind the last candidate. */
  lemma HoldsAppended(cb: seq<nat>, cs: seq<int>, t: seq<Cand>, x: Cand)
    requires Holds(cb, cs, t) && x.block != NO_BLOCK && |t| == Place(t, x.score) < |cb|
    ensures Holds(cb[|t| := x.block], cs[|t| := x.score], Inserted(t, x, |cb|))
  {
    hide Holds, Inserted;
    AppendedIs(t, x, |cb|);
    HoldsOneMore(cb, cs, t, x);
  }

  lemma AppendedIs(t: seq<Cand>, x: Cand, max: nat)
    requires |t| == Place(t, x.score) < max
    ensures Inserted(t, x, max) == t + [x]
  {
  }

  lemma HoldsOneMore(cb: seq<nat>, cs: seq<int>, t: seq<Cand>, x: Cand)
    requires Holds(cb, cs, t) && x.block != NO_BLOCK && |t| < |cb|
    ensures Holds(cb[|t| := x.block], cs[|t| := x.score], t + [x])
  {
  }

  /** ... or does not fit. */
  lemma HoldsUnchanged(cb: seq<nat>, cs: seq<int>, t: seq<Cand>, x: Cand)
    requires Holds(cb, cs, t) && Place(t, x.score) == |cb|
    ensures Holds(cb, cs, Inserted(t, x, |cb|))
  {
    assert Inserted(t, x, |cb|) == t;
  }

  /** One candidate is put into the table; later ones move down, the last falls out. */
  method Insert(cb: array<nat>, cs: array<int>, x: Cand, ghost t: seq<Cand>)
    requires cb != cs as object && Holds(cb[..], cs[..], t) && x.block != NO_BLOCK
    modifies cb, cs
    ensures Holds(cb[..], cs[..], Inserted(t, x, cb.Length))
  {
    hide Inserted, Holds;
    var i := FindPlace(cb, cs, x.score, t);
    if i < cb.Length {
      if cb[i] == NO_BLOCK {
        HoldsAppended(cb[..], cs[..], t, x);
        cb[i] := x.block;
        cs[i] := x.score;
      } else {
        MoveDown(cb, cs, x, i);
        HoldsInserted(old(cb[..]), old(cs[..]), t, x, i);
      }
    } else {
      HoldsUnchanged(cb[..], cs[..], t, x);
    }
  }

  /** The search for the place: past every candidate that scores as high. */
  method FindPlace(cb: array<nat>, cs: array<int>, score: int, ghost t: seq<Cand>) returns (i: nat)
    requires Holds(cb[..], cs[..], t)
    ensures i == Place(t, score) <= cb.Length == cs.Length
    ensures i < cb.Length ==> (cb[i] == NO_BLOCK <==> i == |t|)
  {
    i := 0;
    while i < cb.Length && cb[i] != NO_BLOCK && cs[i] >= score
      invariant 0 <= i <= Place(t, score) && i <= cb.Length == cs.Length
    {
      i := i + 1;
    }
  }

  /** The scan of one block up to its first free entry. */
  method ScanBlock(g: Geo, lu: seq<half>, b: nat) returns (deleted: nat, used: nat)
    requires g.Valid()
    ensures deleted == DeletedFrom(g, lu, b, 0) && used == UsedFrom(g, lu, b, 0)
  {
    deleted, used := 0, 0;
    var e := 0;
    while e < g.Entries() && Entry(g, lu, b, e) != FREE_ID
      invariant e <= g.Entries()
      invariant deleted + DeletedFrom(g, lu, b, e) == DeletedFrom(g, lu, b, 0)
      invariant used + UsedFrom(g, lu, b, e) == UsedFrom(g, lu, b, 0)
    {
      if Entry(g, lu, b, e) == DELETED_ID { deleted := deleted + 1; } else { used := used + 1; }
      e := e + 1;
    }
  }

  /** Every block is scored and put into an empty table of max places. */
  method FillTable(g: Geo, lu: seq<half>, counts: seq<half>, maxErase: half, crammed: bool, max: nat)
    returns (cands: array<nat>, count: nat, ghost t: seq<Cand>)
    requires g.Valid() && |counts| == g.blocks && g.blocks < NO_BLOCK
    ensures count == g.blocks && fresh(cands) && cands.Length == max
    ensures IsTop(t, Scores(g, lu, counts, maxErase, crammed), g.blocks, max)
    ensures |t| <= max && forall i :: 0 <= i < |t| ==> cands[i] == t[i].block
  {
    hide IsTop, Scores, Inserted;
    var scores := new int[max];
    cands := new nat[max](i => NO_BLOCK);
    count, t := 0, [];
    EmptyIsTop(Scores(g, lu, counts, maxErase, crammed), max);
    while count < g.blocks
      invariant count <= g.blocks && fresh(cands) && fresh(scores)
      invariant cands != scores as object && cands.Length == scores.Length == max
      invariant IsTop(t, Scores(g, lu, counts, maxErase, crammed), count, max) && Holds(cands[..], scores[..], t)
    {
      var deleted, used := ScanBlock(g, lu, count);
      var score := Score(deleted, used, EraseAge(maxErase, counts[count]), crammed);
      InsertedIsTop(t, Scores(g, lu, counts, maxErase, crammed), count, max);
      ScoreOf(g, lu, counts, maxErase, crammed, count);
      Insert(cands, scores, Cand(count, score), t);
      t := Inserted(t, Cand(count, score), max);
      count := count + 1;
    }
  }

  lemma EmptyIsTop(score: nat -> int, max: nat)
    ensures IsTop([], score, 0, max)
  {
  }

  lemma ScoreOf(g: Geo, lu: seq<half>, counts: seq<half>, maxErase: half, crammed: bool, b: nat)
    ensures Scores(g, lu, counts, maxErase, crammed)(b) == BlockScore(g, lu, counts, maxErase, crammed, b)
  {
  }

  /** spiffs_gc_find_candidate: the table is built in the work buffer, which has room for `room`
      candidates and is lost to its former use. */
  method FindCandidate(fs: Spiffs, crammed: bool, room: nat) returns (cands: array<nat>, count: nat, ghost t: seq<Cand>)
    requires fs.Ok()
    modifies fs`work
    ensures fs.Ok() && count == fs.g.blocks && fresh(cands)
    ensures cands.Length == (if fs.g.blocks < room then fs.g.blocks else room)
    ensures IsTop(t, Scores(fs.g, fs.lu, fs.eraseCnt, fs.maxErase, crammed), fs.g.blocks, cands.Length)
    ensures |t| <= cands.Length && forall i :: 0 <= i < |t| ==> cands[i] == t[i].block
    ensures 0 < fs.g.ppb && InOrder(fs.g, fs.P, fs.lu, fs.eraseCnt, fs.maxErase, crammed, cands[..])
  {
    ClobberWork(fs);
    FewBlocks(fs.g);
    cands, count, t := FillTable(fs.g, fs.lu, fs.eraseCnt, fs.maxErase, crammed,
                                 if fs.g.blocks < room then fs.g.blocks else room);
    TopInOrder(fs.g, fs.P, fs.lu, fs.eraseCnt, fs.maxErase, crammed, t, cands[..]);
  }

  /** Candidates are blocks; each is preferred to those after it and to every block that is not a candidate. */
  ghost predicate InOrder(g: Geo, P: set<nat>, lu: seq<half>, eraseCnt: seq<half>, maxErase: half, crammed: bool, cands: seq<nat>)
    requires 0 < g.ppb
  {
    && (forall i :: 0 <= i < |cands| ==> cands[i] < |eraseCnt|)
    && (forall i, j :: 0 <= i < j < |cands| ==> Preferred(g, P, lu, eraseCnt, maxErase, crammed, cands[i], cands[j]))
    && (forall i, b :: 0 <= i < |cands| && 0 <= b < |eraseCnt| && b !in cands ==> Preferred(g, P, lu, eraseCnt, maxErase, crammed, cands[i], b))
  }

  /** Of two candidates that differ in one respect, the earlier is the one with more deleted pages, with fewer pages in use,
      or erased longer ago; when pages have run out, one that differs in age alone is earlier if its number is lower. */
  lemma EarlierIsBetter(g: Geo, P: set<nat>, lu: seq<half>, eraseCnt: seq<half>, maxErase: half, crammed: bool, cands: seq<nat>,
                        i: nat, j: nat)
    requires 0 < g.ppb && InOrder(g, P, lu, eraseCnt, maxErase, crammed, cands) && i < j < |cands|
    ensures var a, b := cands[i], cands[j];
            var d, u, y := DeletedIn(g, P, lu, a) - DeletedIn(g, P, lu, b), LiveIn(g, P, lu, a) - LiveIn(g, P, lu, b),
                           AgeOf(eraseCnt, maxErase, a) - AgeOf(eraseCnt, maxErase, b);
            && (u == 0 && y == 0 ==> d > 0 || (d == 0 && a < b))
            && (d == 0 && y == 0 ==> u < 0 || (u == 0 && a < b))
            && (d == 0 && u == 0 ==> if crammed then a < b else y > 0 || (y == 0 && a < b))
  {
    assert Preferred(g, P, lu, eraseCnt, maxErase, crammed, cands[i], cands[j]);
  }

  lemma TopInOrder(g: Geo, P: set<nat>, lu: seq<half>, eraseCnt: seq<half>, maxErase: half, crammed: bool, t: seq<Cand>, cands: seq<nat>)
    requires Entries(g, P) && |lu| == g.Pages() && FreeSuffix(g, lu) && g.blocks == |eraseCnt| && |cands| <= g.blocks
    requires IsTop(t, Scores(g, lu, eraseCnt, maxErase, crammed), g.blocks, |cands|)
    requires |t| <= |cands| && forall i :: 0 <= i < |t| ==> cands[i] == t[i].block
    ensures 0 < g.ppb && InOrder(g, P, lu, eraseCnt, maxErase, crammed, cands)
  {
    hide FreeSuffix, Entries, BlockScore, Preferred;
    ScoresAre(g, P, lu, eraseCnt, maxErase, crammed);
    forall i, j | 0 <= i < j < |cands| ensures Preferred(g, P, lu, eraseCnt, maxErase, crammed, cands[i], cands[j]) {
      assert Before(t[i], t[j]);
      BeforeIsPreferred(g, P, lu, eraseCnt, maxErase, crammed, cands[i], cands[j]);
    }
    forall i, b | 0 <= i < |cands| && 0 <= b < |eraseCnt| && b !in cands
      ensures Preferred(g, P, lu, eraseCnt, maxErase, crammed, cands[i], b)
    {
      assert !InTable(t, b);
      BeforeIsPreferred(g, P, lu, eraseCnt, maxErase, crammed, cands[i], b);
    }
  }

  lemma ScoresAre(g: Geo, P: set<nat>, lu: seq<half>, eraseCnt: seq<half>, maxErase: half, crammed: bool)
    requires Entries(g, P)
    ensures 0 < g.ppb
    ensures forall b: nat :: Scores(g, lu, eraseCnt, maxErase, crammed)(b) == BlockScore(g, lu, eraseCnt, maxErase, crammed, b)
  {
  }

  lemma FewBlocks(g: Geo)
    requires g.Valid()
    ensures g.blocks < NO_BLOCK
  {
    MulMono(1, g.ppb, g.blocks);
  }

  /** The scores of all blocks. */
  ghost function Scores(g: Geo, lu: seq<half>, eraseCnt: seq<half>, maxErase: half, crammed: bool): nat -> int {
    (b: nat) => BlockScore(g, lu, eraseCnt, maxErase, crammed, b)
  }

  /** The work buffer is used for something else than a page. */
  method ClobberWork(fs: Spiffs)
    requires fs.Ok()
    modifies fs`work
    ensures fs.Ok()
  {
    var junk: Page := *;
    if |junk.name| == |fs.work.name| && |junk.slots| == |fs.work.slots| && |junk.data| == |fs.work.data| {
      fs.work := junk;
    }
  }
}
