/** Writing to a file at an offset: spiffs_hydro_write. */
module Hydro {
  import opened Nor
  import opened Layout
  import opened Chunks
  import opened Image
  import opened Core
  import opened Descriptors
  import opened State
  import opened Alloc
  import opened Stock
  import opened Events
  import opened Objects
  import opened Gc
  import opened Collect
  import opened Modify
  import opened Append

  /** Every object has just the index pages its data pages need. */
  ghost predicate AllTight(g: Geo, dir: Dir) {
    forall x :: x in dir ==> Tight(g, dir[x])
  }

  /** Between two calls: flash, directory and descriptors agree, and nothing is half done. */
  ghost predicate Ready(fs: Spiffs)
    reads fs
  {
    Mid(fs, IDLE) && NoneDoomed(fs.dir) && AllTight(fs.g, fs.dir) && !fs.cleaning
  }

  lemma StaysTight(g: Geo, dir: Dir, dir': Dir, id: half)
    requires AllTight(g, dir) && OnlyContent(dir, dir', id) && id in dir
    requires SameLens(dir, dir', id) || Tight(g, dir'[id])
    ensures AllTight(g, dir')
  {
    forall x | x in dir' ensures Tight(g, dir'[x]) { assert Tight(g, dir[x]); }
  }

  /** Where a write at `offset` lands: a file has no holes. */
  function Landing(size: nat, offset: nat): nat { if offset < size then offset else size }

  lemma WroteRefl(fs: Spiffs, id: half)
    requires id in fs.dir
    ensures Wrote(fs.dir, fs.fds, fs.wc, fs, id, Bytes(fs.dir[id]))
  {
  }

  /** Nothing is half done but what an append may leave: object `id` may have one index page more than it needs. */
  ghost predicate Whole(fs: Spiffs, id: half)
    reads fs
  {
    && Mid(fs, IDLE) && NoneDoomed(fs.dir) && !fs.cleaning && id in fs.dir
    && forall x :: x in fs.dir ==> Tight(fs.g, fs.dir[x]) || (x == id && Spare(fs.g, fs.dir[x]))
  }

  lemma ReadyWhole(fs: Spiffs, id: half)
    requires id in fs.dir
    ensures Ready(fs) ==> Whole(fs, id)
    ensures Whole(fs, id) && Tight(fs.g, fs.dir[id]) ==> Ready(fs)
  {
    if Ready(fs) {
      forall x | x in fs.dir ensures Tight(fs.g, fs.dir[x]) {}
    }
  }

  lemma StaysWhole(fs: Spiffs, dir: Dir, id: half)
    requires AllTight(fs.g, dir) && OnlyContent(dir, fs.dir, id) && id in dir && Mid(fs, IDLE) && NoneDoomed(fs.dir) && !fs.cleaning
    requires SameLens(dir, fs.dir, id) || Tight(fs.g, fs.dir[id]) || Spare(fs.g, fs.dir[id])
    ensures Whole(fs, id)
    ensures SameLens(dir, fs.dir, id) || Tight(fs.g, fs.dir[id]) ==> Ready(fs)
  {
    forall x | x in fs.dir ensures x != id || SameLens(dir, fs.dir, id) ==> Tight(fs.g, fs.dir[x]) { assert Tight(fs.g, dir[x]); }
  }

  /** What overwriting n bytes of file `id` from `offset` on comes to when there is no need to collect: on one page, it is lost
      exactly if it is covered and no page at all is free; and of a run of whole pages it can be told exactly.  `quiet`, `spent`
      and `course` are what held before. */
  ghost predicate Foretold(fs: Spiffs, id: half, offset: nat, n: nat, c: Course, st: Status, dropped: bool,
                           quiet: bool, spent: bool, course: bool)
    reads fs
  {
    quiet ==>
      && (OnePage(fs.g.dps, offset, n) ==> (dropped <==> n == fs.g.dps && spent))
      && (course && IsRun(fs.g, offset, n, c) ==> RunResult(fs, id, c, st))
  }

  /** The part of a write that is within the file. */
  method WriteOver(fs: Spiffs, f: nat, id: half, offset: nat, buf: seq<byte>, room: nat, ghost c: Course)
    returns (st: Status, ghost stored: bool, ghost done: nat, dropped: bool, ghost had: seq<bool>)
    requires Ready(fs) && 0 < room && OpenOn(fs, f, id) && id in fs.dir && fs.dir[id].lost == {}
    requires 0 < |buf| && offset + |buf| <= |Bytes(fs.dir[id])|
    modifies fs
    ensures Spacious(st) && OpenOn(fs, f, id) && !fs.cleaning
    ensures done <= |buf| && (st == OK <==> stored && done == |buf|)
    ensures if stored then Ready(fs) else Survived(fs, id, {f})
    ensures Wrote(old(fs.dir), old(fs.fds), old(fs.wc), fs, id, Spliced(Bytes(old(fs.dir)[id]), offset, buf[..done]))
    ensures old(Hopeless(fs, WithMeta(fs.g, |buf|))) ==> st == ERR_FULL && stored && done == 0 && unchanged(fs)
    ensures id in fs.dir && Tally(fs.g.dps, offset, |buf|, FirstSpan(fs.g.dps, offset), had, fs.dir[id].lost, dropped)
    ensures old(Safe(fs, offset, |buf|)) ==> !dropped
    ensures Foretold(fs, id, offset, |buf|, c, st, dropped, old(Quiet(fs, WithMeta(fs.g, |buf|))), old(Exhausted(fs)),
                     old(OnCourse(fs, id, c, c.s0)))
    ensures old(Assured(fs, WithMeta(fs.g, |buf|))) >= Need(fs.g, offset, |buf|) ==>
              st == OK && !dropped && InStock(fs) + Need(fs.g, offset, |buf|) >= old(Assured(fs, WithMeta(fs.g, |buf|)))
  {
    hide Mid, OnlyContent, SameUser, Flatten, Spliced, Tight, SameLens, Survived, Hopeless, Quiet, Safe, Exhausted, InStock,
      OnCourse, IsRun, RunResult, Tally, Need, FirstSpan, OnePage, Assured;
    st, stored, done, dropped, had := ObjectModify(fs, f, id, offset, buf, room, c);
    if stored { StaysWhole(fs, old(fs.dir), id); }
    UserOpen(old(fs.fds), fs, f, id);
  }

  /** The part that is behind it. */
  method WriteEnd(fs: Spiffs, f: nat, id: half, offset: nat, buf: seq<byte>, room: nat)
    returns (st: Status, ghost stored: bool, ghost done: nat)
    requires Ready(fs) && 0 < room && OpenOn(fs, f, id) && id in fs.dir && Fits(fs.g, fs.dir[id])
    requires 0 < |buf| && offset >= |Bytes(fs.dir[id])| && (|Bytes(fs.dir[id])| == 0 ==> offset < fs.g.dps)
    modifies fs
    ensures id in fs.dir && fs.dir[id].lost == old(fs.dir)[id].lost
    ensures Spacious(st) || (st == ERR_INDEX_REF_FREE && Gap(old(fs.dir), id, offset))
    ensures !fs.cleaning && done <= |buf| && (st == OK <==> stored && done == |buf|)
    ensures if stored then Whole(fs, id) else Survived(fs, id, {f})
    ensures st == OK ==> Ready(fs)
    ensures Wrote(old(fs.dir), old(fs.fds), old(fs.wc), fs, id, Bytes(old(fs.dir)[id]) + buf[..done])
    ensures old(Hopeless(fs, WithMeta(fs.g, |buf|))) ==> st == ERR_FULL && stored && done == 0 && unchanged(fs)
    ensures Gap(old(fs.dir), id, offset) ==> done == 0
    ensures Gap(old(fs.dir), id, offset) && old(Quiet(fs, WithMeta(fs.g, |buf|))) ==> stored && st == ERR_INDEX_REF_FREE
    ensures var need := AppendNeed(fs.g, |Bytes(old(fs.dir)[id])|, |buf|);
            var sure := old(Assured(fs, WithMeta(fs.g, |buf|)));
            !Gap(old(fs.dir), id, offset) && sure > 0 && sure >= need ==> st == OK && InStock(fs) + need >= sure
  {
    hide Mid, OnlyContent, SameUser, Flatten, Tight, Spare, SameLens, Torn, Hopeless, Quiet, Stalled, Exhausted, Gap, AppendNeed,
      Assured, InStock;
    st, stored, done := ObjectAppend(fs, f, id, offset, buf, room);
    if stored {
      StaysWhole(fs, old(fs.dir), id);
    } else {
      SurvivedMore(fs, id, f);
    }
  }

  lemma SurvivedMore(fs: Spiffs, id: half, f: nat)
    requires Survived(fs, id, {})
    ensures Survived(fs, id, {f})
  {
    if Torn(fs, id, {}) { TornMore(fs, id, f); }
  }

  /** The two parts of a write make up the whole. */
  lemma WriteJoins(was: seq<byte>, offset: nat, buf: seq<byte>, n: nat)
    requires n <= |buf| && (offset < |was| ==> n == if |was| - offset < |buf| then |was| - offset else |buf|)
    requires offset >= |was| ==> n == 0
    ensures var mid := if n == 0 then was else Spliced(was, offset, buf[..n]);
            Spliced(was, Landing(|was|, offset), buf) == if n == |buf| then mid else mid + buf[n..]
    ensures offset < |was| ==> |Spliced(was, offset, buf[..n])| == |was|
  {
    if n == 0 {
      assert buf[0..] == buf;
      SplicedNothing(was, offset);
    } else if n == |buf| {
      assert buf[..n] == buf;
    } else {
      SpliceSplice(was, offset, buf[..n], buf[n..]);
      assert buf[..n] + buf[n..] == buf;
      SpliceAppend(Splice(was, offset, buf[..n]), buf[n..]);
    }
  }

  lemma WriteJoined(was: seq<byte>, offset: nat, buf: seq<byte>, n: nat, done: nat)
    requires n <= |buf| && n + done <= |buf| && (offset < |was| ==> n == if |was| - offset < |buf| then |was| - offset else |buf|)
    requires offset >= |was| ==> n == 0
    requires n < |buf|
    ensures var mid := if n == 0 then was else Spliced(was, offset, buf[..n]);
            Spliced(was, Landing(|was|, offset), buf[..n + done]) == mid + buf[n..][..done]
  {
    if offset < |was| {
      WriteJoins(was, offset, buf[..n + done], n);
      assert buf[..n + done][..n] == buf[..n] && buf[..n + done][n..] == buf[n..][..done];
      if done == 0 { assert buf[n..][..0] == []; }
    } else {
      assert buf[n..][..done] == buf[..n + done];
      SpliceAppend(was, buf[..done]);
    }
  }

  /** Writing nothing inside a file. */
  predicate Pointless(size: nat, offset: nat, len: nat) { len == 0 && offset < size }

  /** What the collector is asked for first. */
  function FirstPart(size: nat, offset: nat, len: nat): nat {
    if offset < size && size - offset < len then size - offset else len
  }

  /** A write that begins within the file and ends behind it. */
  predicate Straddles(size: nat, offset: nat, len: nat) { offset < size < offset + len }

  /** A write of `len` bytes at `offset` to file `id` loses no page: nothing of it is within the file, or that part is safe. */
  ghost predicate SafeWrite(fs: Spiffs, id: half, offset: nat, len: nat)
    reads fs`dir, fs`lu, fs`pages, fs`freeBlk, fs`freeEnt, fs`freeBlocks, fs`nAlloc, fs`nDel, fs`surplus, fs`eraseCnt, fs`maxErase
  {
    id in fs.dir && (offset >= |Bytes(fs.dir[id])| || Safe(fs, offset, FirstPart(|Bytes(fs.dir[id])|, offset, len)))
  }

  /** How many pages a write of n bytes at `offset` to a file of `size` bytes takes, within the file and behind it. */
  function WriteNeed(g: Geo, size: nat, offset: nat, n: nat): int {
    if n == 0 then 0
    else if offset >= size then AppendNeed(g, size, n)
    else if offset + n <= size then Need(g, offset, n)
    else Need(g, offset, size - offset) + AppendNeed(g, size, offset + n - size)
  }

  /** What a write can be sure of when it begins. */
  ghost function Sure(fs: Spiffs, id: half, offset: nat, n: nat): nat
    reads fs`dir, fs`lu, fs`pages, fs`freeBlk, fs`freeEnt, fs`freeBlocks, fs`nAlloc, fs`nDel, fs`surplus, fs`eraseCnt, fs`maxErase
  {
    if id in fs.dir then Assured(fs, WithMeta(fs.g, FirstPart(|Bytes(fs.dir[id])|, offset, n))) else 0
  }

  /** The pages that a write takes are sure to be had.  A write that goes on behind the end asks for room twice: more than two
      blocks have to be left for the second time. */
  ghost predicate Granted(fs: Spiffs, id: half, offset: nat, n: nat)
    reads fs`dir, fs`lu, fs`pages, fs`freeBlk, fs`freeEnt, fs`freeBlocks, fs`nAlloc, fs`nDel, fs`surplus, fs`eraseCnt, fs`maxErase
  {
    && id in fs.dir && 0 < n && !Gap(fs.dir, id, offset) && Sure(fs, id, offset, n) > 0
    && Sure(fs, id, offset, n) >= WriteNeed(fs.g, |Bytes(fs.dir[id])|, offset, n) +
                                  (if Straddles(|Bytes(fs.dir[id])|, offset, n) then TwoBlocks(fs.g) else 0)
  }

  /** ... or there is nothing to write. */
  ghost predicate Stores(fs: Spiffs, id: half, offset: nat, n: nat)
    reads fs`dir, fs`lu, fs`pages, fs`freeBlk, fs`freeEnt, fs`freeBlocks, fs`nAlloc, fs`nDel, fs`surplus, fs`eraseCnt, fs`maxErase
  {
    n == 0 || Granted(fs, id, offset, n)
  }

  ghost function StoreSure(fs: Spiffs, id: half, offset: nat, n: nat): nat
    reads fs`dir, fs`lu, fs`pages, fs`freeBlk, fs`freeEnt, fs`freeBlocks, fs`nAlloc, fs`nDel, fs`surplus, fs`eraseCnt, fs`maxErase
  {
    if n == 0 then InStock(fs) else Sure(fs, id, offset, n)
  }

  function TwoBlocks(g: Geo): int { 2 * g.Entries() + 3 }

  /** n bytes are on no more pages than lie between the first and the last. */
  lemma DivSpan(d: nat, a: nat, n: nat)
    requires 0 < d && 0 < n
    ensures a / d <= (a + n - 1) / d && n <= ((a + n - 1) / d - a / d + 1) * d
  {
    DivMono(d, a, a + n - 1);
    var first, end := a / d, (a + n - 1) / d;
    assert a == first * d + a % d && a + n - 1 == end * d + (a + n - 1) % d;
    assert (end - first + 1) * d == end * d - first * d + d;
  }

  lemma AppendAtLeast(g: Geo, size: nat, n: nat)
    requires g.Valid() && 0 < n
    ensures AppendNeed(g, size, n) >= (size + n - 1) / g.dps - size / g.dps >= 0
  {
    var first, end := size / g.dps, (size + n - 1) / g.dps;
    DivMono(g.dps, size, size + n - 1);
    IxMono(g, first, end);
    if size > 0 {
      DivMono(g.dps, size - 1, size + n - 1);
      IxMono(g, (size - 1) / g.dps, end);
    }
  }

  /** An append takes as many pages as there are bytes to be put on them. */
  lemma AppendCovers(g: Geo, size: nat, n: nat)
    requires g.Valid() && 0 < n
    ensures AppendNeed(g, size, n) >= 0 && n <= (AppendNeed(g, size, n) + 1) * g.dps
  {
    hide AppendNeed;
    AppendAtLeast(g, size, n);
    DivSpan(g.dps, size, n);
    MulMono((size + n - 1) / g.dps - size / g.dps + 1, AppendNeed(g, size, n) + 1, g.dps);
  }

  /** ... and an overwrite. */
  lemma NeedCovers(g: Geo, offset: nat, n: nat)
    requires g.Valid() && 0 < n
    ensures n <= Need(g, offset, n) * g.dps
  {
    DivSpan(g.dps, offset, n);
    MulMono((offset + n - 1) / g.dps - offset / g.dps + 1, Need(g, offset, n), g.dps);
  }

  /** With the pages of two blocks more in stock than a write takes, they are sure to be had. */
  lemma StockGrants(fs: Spiffs, id: half, offset: nat, n: nat)
    requires fs.Ok() && id in fs.dir && 0 < n && !Gap(fs.dir, id, offset)
    requires InStock(fs) >= WriteNeed(fs.g, |Bytes(fs.dir[id])|, offset, n) + TwoBlocks(fs.g)
    ensures Granted(fs, id, offset, n) && Sure(fs, id, offset, n) == InStock(fs)
  {
    hide Inv, Flatten, Gap, AppendNeed, Need, Stocked, Assured;
    InvShape(fs.g, fs.P, fs.S());
    var size := |Bytes(fs.dir[id])|;
    var part := FirstPart(size, offset, n);
    if offset < size {
      NeedCovers(fs.g, offset, part);
      if Straddles(size, offset, n) { AppendCovers(fs.g, size, offset + n - size); }
      Below(part, Need(fs.g, offset, part), InStock(fs) - 2, fs.g.dps);
    } else {
      AppendCovers(fs.g, size, n);
      Below(part, AppendNeed(fs.g, size, n) + 1, InStock(fs) - 2, fs.g.dps);
    }
    StockAssures(fs, part);
  }

  lemma Below(n: nat, a: nat, b: nat, d: nat)
    requires n <= a * d && a < b && 0 < d
    ensures n < b * d
  {
    MulMono(a + 1, b, d);
    assert (a + 1) * d == a * d + d;
  }

  /** No write of n bytes takes more pages, whatever the file and the offset. */
  function Most(g: Geo, n: nat): nat { if 0 < g.dps then 3 * (n / g.dps) + 8 else 0 }

  lemma QuotientBound(d: nat, a: nat, q: nat)
    requires 0 < d && a < (q + 1) * d
    ensures a / d <= q
  {
    if a / d > q { MulMono(q + 1, a / d, d); }
  }

  lemma SpanAtMost(d: nat, a: nat, n: nat)
    requires 0 < d && 0 < n
    ensures (a + n - 1) / d <= a / d + n / d + 1
  {
    var q, p := a / d, n / d;
    assert a < q * d + d by { assert a == q * d + a % d; }
    assert n < p * d + d by { assert n == p * d + n % d; }
    assert (q + p + 2) * d == q * d + p * d + d + d;
    QuotientBound(d, a + n - 1, q + p + 1);
  }

  /** There are no more index pages between two data pages than there are data pages. */
  lemma IxStep(g: Geo, a: nat, b: nat)
    requires 0 < g.ixLen && a <= b
    ensures g.IxOf(a) <= g.IxOf(b) <= g.IxOf(a) + b - a
  {
    IxMono(g, a, b);
    if a >= g.hdrLen {
      var x := a - g.hdrLen;
      var q := x / g.ixLen;
      MulMono(1, g.ixLen, b - a);
      assert (q + (b - a) + 1) * g.ixLen == q * g.ixLen + (b - a) * g.ixLen + g.ixLen;
      QuotientBound(g.ixLen, b - g.hdrLen, q + (b - a));
    } else if b >= g.hdrLen {
      MulMono(1, g.ixLen, b - g.hdrLen + 1);
      QuotientBound(g.ixLen, b - g.hdrLen, b - g.hdrLen);
    }
  }

  lemma AppendAtMost(g: Geo, size: nat, n: nat)
    requires g.Valid() && 0 < n
    ensures AppendNeed(g, size, n) <= 3 * ((size + n - 1) / g.dps - size / g.dps) + 3
  {
    var first, end := size / g.dps, (size + n - 1) / g.dps;
    DivMono(g.dps, size, size + n - 1);
    IxStep(g, first, end);
    if size > 0 {
      DivMono(g.dps, size - 1, size);
      SpanAtMost(g.dps, size - 1, 1);
      LastBefore(g.dps, size);
      IxStep(g, (size - 1) / g.dps, first);
    }
  }

  lemma LastBefore(d: nat, size: nat)
    requires 0 < d && 0 < size
    ensures size / d <= (size - 1) / d + 1
  {
    assert size - 1 == (size - 1) / d * d + (size - 1) % d;
    assert ((size - 1) / d + 2) * d == (size - 1) / d * d + 2 * d;
    QuotientBound(d, size, (size - 1) / d + 1);
  }

  lemma NeedAtMost(g: Geo, offset: nat, n: nat)
    requires g.Valid() && 0 < n
    ensures Need(g, offset, n) <= 2 * ((offset + n - 1) / g.dps - offset / g.dps) + 2
  {
    DivMono(g.dps, offset, offset + n - 1);
    IxStep(g, offset / g.dps, (offset + n - 1) / g.dps);
  }

  lemma WriteAtMost(g: Geo, size: nat, offset: nat, n: nat)
    requires g.Valid()
    ensures WriteNeed(g, size, offset, n) <= Most(g, n)
  {
    hide Need, AppendNeed;
    if n > 0 {
      SpanAtMost(g.dps, offset, n);
      if offset >= size {
        AppendAtMost(g, size, n);
        SpanAtMost(g.dps, size, n);
      } else if offset + n <= size {
        NeedAtMost(g, offset, n);
        DivMono(g.dps, offset, offset + n - 1);
      } else {
        NeedAtMost(g, offset, size - offset);
        AppendAtMost(g, size, offset + n - size);
        DivMono(g.dps, offset, size - 1);
        DivMono(g.dps, size - 1, size);
        DivMono(g.dps, size, offset + n - 1);
      }
    }
  }

  lemma MostGrows(g: Geo, m: nat, n: nat)
    requires m <= n
    ensures Most(g, m) <= Most(g, n)
  {
    if 0 < g.dps { DivMono(g.dps, m, n); }
  }

  lemma NoNeed(g: Geo, size: nat, offset: nat)
    ensures WriteNeed(g, size, offset, 0) == 0
  {
  }

  /** The parts of what a write takes. */
  lemma WriteParts(fs: Spiffs, id: half, offset: nat, n: nat)
    requires Ready(fs) && 0 < n && id in fs.dir
    ensures var size, need := |Bytes(fs.dir[id])|, WriteNeed(fs.g, |Bytes(fs.dir[id])|, offset, n);
            && TwoBlocks(fs.g) > 0
            && (offset < size && !Straddles(size, offset, n) ==> need == Need(fs.g, offset, n))
            && (Straddles(size, offset, n) ==>
                  need == Need(fs.g, offset, size - offset) + AppendNeed(fs.g, size, offset + n - size) >= Need(fs.g, offset, size - offset))
            && (offset >= size ==> need == AppendNeed(fs.g, size, n))
  {
    hide Rep, FdsOk, Inv, Flatten, AllTight, NoneDoomed, AppendNeed, Need;
    MidShape(fs, IDLE);
    if Straddles(|Bytes(fs.dir[id])|, offset, n) { AppendCovers(fs.g, |Bytes(fs.dir[id])|, offset + n - |Bytes(fs.dir[id])|); }
  }

  /** spiffs_hydro_write, to a file that has lost no page.  The first `done` bytes of `buf` are put over the file, all of them on
      success, but for pages that are lost; everything else is untouched.  `stored` tells that flash and directory agree; when
      they do not, at most this object is torn, unless no page at all is free.  A write that even the deleted pages make no room
      for touches nothing.  Pages are lost only where the part within the file replaces them as a whole, exactly those for
      which there was no page to have; see ObjectModify.  When the pages it takes are sure to be had, it succeeds and loses none.
      Writing nothing inside a file is another matter: see
      ModifyNothing. */
  method HydroWrite(fs: Spiffs, f: nat, id: half, offset: nat, buf: seq<byte>, room: nat, ghost c: Course := NO_RUN)
    returns (st: Status, ghost stored: bool, ghost done: nat, dropped: bool, ghost had: seq<bool>)
    requires Ready(fs) && 0 < room && OpenOn(fs, f, id) && id in fs.dir && fs.dir[id].lost == {}
    requires |Bytes(fs.dir[id])| == 0 ==> offset < fs.g.dps
    requires Straddles(|Bytes(fs.dir[id])|, offset, |buf|) ==> Ample(fs.g)
    modifies fs
    ensures !Pointless(|Bytes(old(fs.dir)[id])|, offset, |buf|) ==>
              Spacious(st) || (st == ERR_INDEX_REF_FREE && Gap(old(fs.dir), id, offset))
    ensures !Pointless(|Bytes(old(fs.dir)[id])|, offset, |buf|) ==>
              && !fs.cleaning && done <= |buf| && (st == OK <==> stored && done == |buf|)
              && (if stored then Whole(fs, id) else Survived(fs, id, {f})) && (st == OK ==> Ready(fs))
    ensures !Pointless(|Bytes(old(fs.dir)[id])|, offset, |buf|) ==>
              Wrote(old(fs.dir), old(fs.fds), old(fs.wc), fs, id,
                    Spliced(Bytes(old(fs.dir)[id]), Landing(|Bytes(old(fs.dir)[id])|, offset), buf[..done]))
    ensures |buf| > 0 && old(Hopeless(fs, WithMeta(fs.g, FirstPart(|Bytes(fs.dir[id])|, offset, |buf|)))) ==>
              st == ERR_FULL && stored && done == 0 && unchanged(fs)
    ensures |buf| > 0 && Gap(old(fs.dir), id, offset) ==> done == 0
    ensures |buf| > 0 && Gap(old(fs.dir), id, offset) && old(Quiet(fs, WithMeta(fs.g, |buf|))) ==>
              stored && st == ERR_INDEX_REF_FREE
    ensures Pointless(|Bytes(old(fs.dir)[id])|, offset, |buf|) && old(Quiet(fs, WithMeta(fs.g, 0))) ==>
              StoredWork(old(fs.dir), old(fs.work), old(PageToHave(fs)), fs, f, id, st)
    ensures !Pointless(|Bytes(old(fs.dir)[id])|, offset, |buf|) ==> id in fs.dir && (dropped <==> fs.dir[id].lost != {})
    ensures |buf| > 0 && offset < |Bytes(old(fs.dir)[id])| ==>
              Tally(fs.g.dps, offset, FirstPart(|Bytes(old(fs.dir)[id])|, offset, |buf|), FirstSpan(fs.g.dps, offset), had, fs.dir[id].lost, dropped)
    ensures old(SafeWrite(fs, id, offset, |buf|)) ==> !dropped
    ensures |buf| > 0 && offset + |buf| <= |Bytes(old(fs.dir)[id])| ==>
              Foretold(fs, id, offset, |buf|, c, st, dropped, old(Quiet(fs, WithMeta(fs.g, |buf|))), old(Exhausted(fs)),
                       old(OnCourse(fs, id, c, c.s0)))
    ensures !Pointless(|Bytes(old(fs.dir)[id])|, offset, |buf|) && old(Stores(fs, id, offset, |buf|)) ==>
              st == OK && !dropped && InStock(fs) + WriteNeed(fs.g, |Bytes(old(fs.dir)[id])|, offset, |buf|) >= old(StoreSure(fs, id, offset, |buf|))
  {
    hide Mid, OnlyContent, SameUser, Flatten, Spliced, Tight, SameLens, Survived, Hopeless, Quiet, Gap, PageToHave, HeaderIs,
      StillHas, Ready, Whole, AllTight, NoneDoomed, Safe, Exhausted, InStock, OnCourse, Foretold, Tally, FirstSpan, Ample,
      Assured, AppendNeed, Need, WriteNeed, TwoBlocks;
    WriteStart(fs, f, id, offset, buf);
    if |buf| > 0 { WriteParts(fs, id, offset, |buf|); } else { NoNeed(fs.g, |Bytes(fs.dir[id])|, offset); }
    ghost var was, dir, fds, wc := Bytes(fs.dir[id]), fs.dir, fs.fds, fs.wc;
    st, stored, done, dropped, had := OK, true, 0, false, [];
    var pos, n := offset, 0;
    if fs.fds[f].size != UNDEFINED_LEN && offset < fs.fds[f].size {
      n := if fs.fds[f].size - offset < |buf| then fs.fds[f].size - offset else |buf|;
      if n == 0 {
        st := ModifyNothing(fs, f, id, room);
        return;
      }
      st, stored, done, dropped, had := WriteOver(fs, f, id, offset, buf[..n], room, c);
      assert buf[..n][..done] == buf[..done];
      ReadyWhole(fs, id);
      TallyDropped(fs.g.dps, offset, n, had, fs.dir[id].lost, dropped);
      if st != OK { return; }
      pos := offset + n;
      WrittenSize(was, offset, buf, n);
    }
    if |buf| - n > 0 {
      st, stored, done := WriteSecond(fs, f, id, pos, buf, n, room, offset, was, dir, fds, wc);
    }
  }

  lemma TallyDropped(dps: nat, offset: nat, n: nat, had: seq<bool>, lost: set<nat>, dropped: bool)
    requires Tally(dps, offset, n, FirstSpan(dps, offset), had, lost, dropped)
    ensures dropped <==> lost != {}
  {
  }

  lemma WriteStart(fs: Spiffs, f: nat, id: half, offset: nat, buf: seq<byte>)
    requires Ready(fs) && OpenOn(fs, f, id) && id in fs.dir
    ensures |Bytes(fs.dir[id])| < 0x8000_0000 && fs.fds[f].size == SizeField(|Bytes(fs.dir[id])|)
    ensures Wrote(fs.dir, fs.fds, fs.wc, fs, id, Spliced(Bytes(fs.dir[id]), Landing(|Bytes(fs.dir[id])|, offset), buf[..0]))
    ensures Whole(fs, id) && !fs.cleaning
    ensures Gap(fs.dir, id, offset) <==> |Bytes(fs.dir[id])| == 0 && offset > 0
    ensures Spliced(Bytes(fs.dir[id]), Landing(|Bytes(fs.dir[id])|, offset), buf[..0]) == Bytes(fs.dir[id])
  {
    FdSizeField(fs, f, id);
    SplicedNothing(Bytes(fs.dir[id]), Landing(|Bytes(fs.dir[id])|, offset));
    assert buf[..0] == [];
    WroteRefl(fs, id);
    ReadyWhole(fs, id);
  }

  lemma SecondSure(fs: Spiffs, size: nat, n: nat)
    requires Ready(fs) && 0 < n && InStock(fs) >= AppendNeed(fs.g, size, n) + TwoBlocks(fs.g)
    ensures Assured(fs, WithMeta(fs.g, n)) == InStock(fs) > 0 && InStock(fs) >= AppendNeed(fs.g, size, n)
  {
    hide Inv, Rep, FdsOk, AppendNeed, Assured, NoneDoomed, AllTight, Stocked;
    MidShape(fs, IDLE);
    AppendCovers(fs.g, size, n);
    Below(n, AppendNeed(fs.g, size, n) + 1, InStock(fs) - 2, fs.g.dps);
    StockAssures(fs, n);
  }

  /** The second half of a write whose first n bytes are done. */
  method WriteSecond(fs: Spiffs, f: nat, id: half, pos: nat, buf: seq<byte>, n: nat, room: nat, ghost offset: nat,
                     ghost was: seq<byte>, ghost dir: Dir, ghost fds: seq<Fd>, ghost wc: seq<CPage>)
    returns (st: Status, ghost stored: bool, ghost done: nat)
    requires Ready(fs) && 0 < room && OpenOn(fs, f, id) && n < |buf| && id in fs.dir && Fits(fs.g, fs.dir[id])
    requires if offset < |was| then n == |was| - offset && pos == |was| else n == 0 && pos == offset
    requires |was| == 0 ==> offset < fs.g.dps
    requires Wrote(dir, fds, wc, fs, id, if n == 0 then was else Spliced(was, offset, buf[..n]))
    requires id in dir && Bytes(dir[id]) == was
    requires |Bytes(fs.dir[id])| == |was|
    modifies fs
    ensures id in fs.dir && fs.dir[id].lost == old(fs.dir)[id].lost
    ensures Spacious(st) || (st == ERR_INDEX_REF_FREE && Gap(dir, id, offset))
    ensures !fs.cleaning && done <= |buf| && (st == OK <==> stored && done == |buf|)
    ensures (if stored then Whole(fs, id) else Survived(fs, id, {f})) && (st == OK ==> Ready(fs))
    ensures Wrote(dir, fds, wc, fs, id, Spliced(was, Landing(|was|, offset), buf[..done]))
    ensures n == 0 && old(Hopeless(fs, WithMeta(fs.g, |buf|))) ==> st == ERR_FULL && stored && done == 0 && unchanged(fs)
    ensures Gap(dir, id, offset) ==> done == 0
    ensures Gap(dir, id, offset) && old(Quiet(fs, WithMeta(fs.g, |buf|))) ==> stored && st == ERR_INDEX_REF_FREE
    ensures var need := AppendNeed(fs.g, |was|, |buf| - n);
            n == 0 && !Gap(dir, id, offset) && old(Assured(fs, WithMeta(fs.g, |buf|))) > 0 && old(Assured(fs, WithMeta(fs.g, |buf|))) >= need ==>
              st == OK && InStock(fs) + need >= old(Assured(fs, WithMeta(fs.g, |buf|)))
    ensures var need := AppendNeed(fs.g, |was|, |buf| - n);
            n > 0 && old(InStock(fs)) >= need + TwoBlocks(fs.g) ==> st == OK && InStock(fs) + need >= old(InStock(fs))
  {
    hide Mid, OnlyContent, SameUser, Flatten, Spliced, Tight, SameLens, Survived, Hopeless, Quiet, Whole, AllTight, NoneDoomed,
      AppendNeed, Assured, InStock;
    ghost var dir1, fds1 := fs.dir, fs.fds;
    if InStock(fs) >= AppendNeed(fs.g, |was|, |buf| - n) + TwoBlocks(fs.g) { SecondSure(fs, |was|, |buf| - n); }
    if n == 0 { assert buf[n..] == buf; }
    st, stored, done := WriteEnd(fs, f, id, pos, buf[n..], room);
    WriteJoined(was, offset, buf, n, done);
    WroteTransitive(dir, fds, wc, dir1, fds1, fs, id, Bytes(dir1[id]) + buf[n..][..done]);
    done := n + done;
  }

  /** How long the file is once the part within it has been written. */
  lemma WrittenSize(was: seq<byte>, offset: nat, buf: seq<byte>, n: nat)
    requires n <= |buf| && offset + n <= |was|
    ensures |Spliced(was, offset, buf[..n])| == |was|
  {
  }

  // ---------------------------------------------------------------- writing nothing

  /** The flash represents the directory, with page q as header of the object. */
  ghost predicate StillHas(fs: Spiffs, dir: Dir, id: half, q: half)
    reads fs
  {
    Rep(fs.g, fs.P, fs.lu, fs.pages, WithIx(dir, id, 0, q), {})
  }

  ghost predicate HeaderIs(g: Geo, id: half, dir: Dir, p: Page) {
    && id in dir && id < IX_FLAG && |dir[id].name| == NAME_LEN && |Bytes(dir[id])| < UNDEFINED_LEN
    && p == IxPage(g, id, dir[id], 0)
  }

  /** Which is to say: it is what the header page on flash holds. */
  lemma HeaderOnFlash(fs: Spiffs, id: half, p: Page)
    requires Ready(fs) && id in fs.dir
    ensures |fs.dir[id].ix| > 0 && fs.dir[id].ix[0] as nat < |fs.pages|
    ensures HeaderIs(fs.g, id, fs.dir, p) <==> p == fs.pages[fs.dir[id].ix[0]]
  {
    assert IxOk(fs.g, fs.P, fs.lu, fs.pages, {}, id, fs.dir[id], 0);
  }

  /** After the header of an object has been replaced by `stored`, the flash represents the directory if and
      only if `stored` is the header of that object. */
  lemma HeaderExact(g: Geo, P: set<nat>, lu: seq<half>, pages: seq<Page>, mlu: seq<half>, mpages: seq<Page>, dir: Dir,
                    id: half, q: half, stored: Page)
    requires Rep(g, P, lu, pages, dir, {}) && id in dir && |dir[id].ix| > 0 && OnlyDeletedErased(P, lu, pages, mlu, mpages)
    requires q as nat in P && q as nat < |mlu| && mlu[q] == FREE_ID && dir[id].ix[0] as nat < |mlu|
    ensures var src := dir[id].ix[0];
            Rep(g, P, mlu[q := id + IX_FLAG][src := DELETED_ID], mpages[q := stored][src := Deleted(mpages[src])],
                WithIx(dir, id, 0, q), {})
            <==> stored == IxPage(g, id, dir[id], 0)
  {
    var src := dir[id].ix[0];
    var lu', pages' := mlu[q := id + IX_FLAG][src := DELETED_ID], mpages[q := stored][src := Deleted(mpages[src])];
    var dir' := WithIx(dir, id, 0, q);
    EraseStep(g, P, lu, pages, dir, {}, mlu, mpages);
    assert IxOk(g, P, mlu, mpages, {}, id, dir[id], 0);
    if Rep(g, P, lu', pages', dir', {}) { assert IxOk(g, P, lu', pages', {}, id, dir'[id], 0); }
    if stored == IxPage(g, id, dir[id], 0) {
      MovedIx(g, P, lu, pages, mlu, mpages, dir, {}, id, 0, q);
      assert {} - {src as nat} == {};
    }
  }

  /** spiffs_object_modify with nothing to write: the work buffer, whatever it was last used for, is stored as the
      header of the object, provided it looks like a header.  When there is no need to collect, the file is kept if and
      only if the work buffer holds the header that is on flash.  `was` and `work` are the directory and the work
      buffer after the collector. */
  method ModifyNothing(fs: Spiffs, f: nat, id: half, room: nat) returns (st: Status)
    requires Ready(fs) && 0 < room && OpenOn(fs, f, id) && id in fs.dir
    modifies fs
    ensures old(Hopeless(fs, WithMeta(fs.g, 0))) ==> st == ERR_FULL && unchanged(fs)
    ensures old(Quiet(fs, WithMeta(fs.g, 0))) ==> StoredWork(old(fs.dir), old(fs.work), old(PageToHave(fs)), fs, f, id, st)
    ensures st == OK ==> exists was: Dir, work :: StoredInstead(fs, f, id, old(fs.dir), was, work)
  {
    hide RunsEnded, Hopeless, Quiet, Rep, FdsOk, Inv, PageToHave, HeaderIs, StillHas;
    ghost var runs;
    st, runs := GcCheck(fs, WithMeta(fs.g, 0), room);
    if st != OK { return; }
    IntactMeans(old(fs.dir), old(fs.fds), old(fs.wc), fs, f, id);
    ghost var was, work := fs.dir, fs.work;
    st := StoreWork(fs, f, id);
    assert st == OK ==> StoredInstead(fs, f, id, old(fs.dir), was, work);
  }

  /** The header of object `id` has been replaced by the work buffer; the file is kept if and only if that was it. */
  ghost predicate StoredInstead(fs: Spiffs, f: nat, id: half, dir: Dir, was: Dir, work: Page)
    reads fs
  {
    && SameMeaning(dir, was) && f < |fs.fds|
    && (StillHas(fs, was, id, fs.fds[f].hdrPix) <==> HeaderIs(fs.g, id, was, Moved(work)))
  }

  /** The header of object `id` has been replaced by what the work buffer held, if that looks like a header and there was
      a page for it; otherwise flash still represents the directory.  The file is kept if and only if that was its
      header. */
  ghost predicate StoredWork(dir: Dir, work: Page, had: bool, fs: Spiffs, f: nat, id: half, st: Status)
    requires id < IX_FLAG
    reads fs
  {
    && (st == OK <==> ValidateIx(work, id + IX_FLAG, 0) == OK && had)
    && (ValidateIx(work, id + IX_FLAG, 0) != OK ==> st == ValidateIx(work, id + IX_FLAG, 0))
    && (st != OK ==> Mid(fs, IDLE) && fs.dir == dir)
    && (st == OK ==>
          && f < |fs.fds| && fs.fds[f].hdrPix as nat < |fs.pages| && fs.pages[fs.fds[f].hdrPix] == Moved(work)
          && (StillHas(fs, dir, id, fs.fds[f].hdrPix) <==> HeaderIs(fs.g, id, dir, Moved(work))))
  }

  /** The header page that the descriptor remembers. */
  lemma WorkHeader(fs: Spiffs, f: nat, id: half)
    requires Mid(fs, IDLE) && OpenOn(fs, f, id) && id in fs.dir
    ensures 0 < id < 0x7FFF && |fs.dir[id].ix| > 0 && fs.fds[f].hdrPix == fs.dir[id].ix[0] && |Bytes(fs.dir[id])| < UNDEFINED_LEN
    ensures fs.dir[id].ix[0] as nat in fs.P && fs.dir[id].ix[0] as nat < |fs.lu| == |fs.pages| && fs.lu[fs.dir[id].ix[0]] == id + IX_FLAG
    ensures IxOk(fs.g, fs.P, fs.lu, fs.pages, {}, id, fs.dir[id], 0)
  {
    assert FdPix(fs.fds[f], fs.dir);
    assert IxOk(fs.g, fs.P, fs.lu, fs.pages, {}, id, fs.dir[id], 0);
  }

  method StoreWork(fs: Spiffs, f: nat, id: half) returns (st: Status)
    requires Mid(fs, IDLE) && OpenOn(fs, f, id) && id in fs.dir
    modifies fs
    ensures StoredWork(old(fs.dir), old(fs.work), old(PageToHave(fs)), fs, f, id, st)
  {
    hide FreeSuffix, CursorOk, LivePages, DeletedPages, FreeBlocks, Entries, Flatten, SameUser, FreePages, SomeDeletedBlock, Rep,
      FdsPix, FdsSize, FdsOff, FlashOk;
    WorkHeader(fs, f, id);
    ghost var lu, pages, dir, w := fs.lu, fs.pages, fs.dir, fs.work;
    var hdr := fs.fds[f].hdrPix;
    st := PrepareHdr(fs, id, hdr, true, None, 0);
    if st != OK { return; }
    assert HdrPatched(w, None, 0) == w;
    var q;
    ghost var mlu, mpages;
    st, q, mlu, mpages := PageMove(fs, true, id + IX_FLAG, hdr);
    if st != OK {
      EraseStep(fs.g, fs.P, lu, pages, dir, {}, mlu, mpages);
      return;
    }
    HeaderExact(fs.g, fs.P, lu, pages, mlu, mpages, dir, id, q, Moved(w));
    ObjectEvent(fs, IxUpd, id + IX_FLAG, 0, q, fs.work.size);
    fs.fds := fs.fds[f := fs.fds[f].(hdrPix := q)];
  }
}
