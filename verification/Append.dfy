/** Writing at the end of a file: spiffs_object_append. */
module Append {
  import opened Nor
  import opened Layout
  import opened Chunks
  import opened Image
  import opened Core
  import opened Descriptors
  import opened State
  import opened Alloc
  import opened Stock
  import opened Events
  import opened Objects
  import opened Gc
  import opened Collect
  import opened Modify

  // ---------------------------------------------------------------- how many pages an append takes

  /** Storing index page k takes a page, but for the header of a file that was empty (`blank`): it is written in place. */
  function StoreCost(k: nat, blank: bool): nat { if blank && k == 0 then 0 else 1 }

  /** What a data page at spix takes, when it is begun (at == 0), and the index page that names it: the last one, number k,
      or a new one, for which the last has to be stored if this append has used it. */
  function TurnCost(g: Geo, first: bool, k: nat, spix: nat, at: nat, blank: bool): nat
    requires 0 < g.ixLen
  {
    (if at == 0 then 1 else 0) + (if g.IxOf(spix) <= k then 0 else if first then 1 else StoreCost(k, blank) + 1)
  }

  lemma TurnSplit(g: Geo, first: bool, k: nat, spix: nat, at: nat, blank: bool)
    requires g.Valid()
    ensures TurnCost(g, first, k, spix, at, blank) == TurnCost(g, first, k, spix, 1, blank) + if at == 0 then 1 else 0
  {
  }

  /** What is to come when the data pages from spix to end are due and index page k is at hand: the data pages, the new index
      pages, and the storing of every index page from k on. */
  function AppendAhead(g: Geo, spix: nat, end: nat, k: nat, blank: bool): int
    requires 0 < g.ixLen
  {
    (end + 1 - spix) + (g.IxOf(end) - k) + (g.IxOf(end) - k) + StoreCost(k, blank)
  }

  /** How many pages appending n bytes to a file of `size` bytes takes: one for every new data page, one for every new index
      page, and one for every index page that has to be stored, from the one that names the page the append begins in. */
  function AppendNeed(g: Geo, size: nat, n: nat): int {
    if 0 < g.dps && 0 < g.ixLen && 0 < n then
      var first, end := size / g.dps, (size + n - 1) / g.dps;
      var newData := end - first + if size % g.dps == 0 then 1 else 0;
      var newIx := g.IxOf(end) - EndIx(g, size);
      var stores := g.IxOf(end) - g.IxOf(first) + if size == 0 then 0 else 1;
      newData + newIx + stores
    else 0
  }

  /** The index page that names the last data page of a file of `size` bytes. */
  function EndIx(g: Geo, size: nat): nat { if 0 < size && 0 < g.dps && 0 < g.ixLen then g.IxOf((size - 1) / g.dps) else 0 }

  lemma EndCovers(g: Geo, size: nat, n: nat, spix: nat, at: nat)
    requires 0 < g.dps && 0 < g.ixLen && 0 < n && At(g.dps, size, spix, at)
    ensures spix <= (size + n - 1) / g.dps && g.IxOf(spix) <= g.IxOf((size + n - 1) / g.dps)
  {
    AtDiv(g.dps, size, spix, at);
    DivMono(g.dps, size, size + n - 1);
    IxMono(g, spix, (size + n - 1) / g.dps);
  }

  /** The first turn of the loop: what it takes, and what is to come then. */
  lemma FirstTurnPays(g: Geo, size: nat, n: nat, spix: nat, at: nat, k: nat)
    requires 0 < g.dps && 0 < g.hdrLen && 0 < g.ixLen && 0 < n && At(g.dps, size, spix, at)
    requires k == EndIx(g, size) && k <= g.IxOf(spix) <= k + 1
    ensures AppendNeed(g, size, n) == TurnCost(g, true, k, spix, at, size == 0)
                                      + AppendAhead(g, spix + 1, (size + n - 1) / g.dps, g.IxOf(spix), size == 0)
    ensures AppendAhead(g, spix + 1, (size + n - 1) / g.dps, g.IxOf(spix), size == 0) >= 0
  {
    AtDiv(g.dps, size, spix, at);
    EndCovers(g, size, n, spix, at);
    if size == 0 { AtStart(g.dps, 0); }
  }

  /** A later turn. */
  lemma TurnPays(g: Geo, spix: nat, end: nat, k: nat, blank: bool)
    requires 0 < g.ixLen && spix <= end && k <= g.IxOf(spix) <= k + 1
    ensures AppendAhead(g, spix, end, k, blank) == TurnCost(g, false, k, spix, 0, blank) + AppendAhead(g, spix + 1, end, g.IxOf(spix), blank)
    ensures AppendAhead(g, spix + 1, end, g.IxOf(spix), blank) >= 0
  {
    IxMono(g, spix, end);
  }

  // ---------------------------------------------------------------- a file fits its numbers

  lemma FitsIx(g: Geo, P: set<nat>, lu: seq<half>, pages: seq<Page>, dir: Dir, dirty: set<nat>, id: half, q: nat)
    requires Entries(g, P) && Rep(g, P, lu, pages, dir, dirty) && id in dir
    requires q in P && lu[q] == FREE_ID
    ensures |dir[id].ix| < 0xFFFE
  {
    var o := dir[id];
    forall k | 0 <= k < |o.ix| ensures o.ix[k] as nat in P && lu[o.ix[k]] == id + IX_FLAG && pages[o.ix[k]].span == k {
      assert IxOk(g, P, lu, pages, dirty, id, o, k);
    }
    OneMore(o.ix, P, q, {});
    BelowCard(P, g.Pages());
  }

  /** The end of a file: the page and the place in it where the next byte goes. */
  lemma EndOf(g: Geo, o: Obj, spix: nat, at: nat)
    requires ObjShape(g, o) && At(g.dps, |Bytes(o)|, spix, at)
    ensures at == 0 ==> spix == |o.data| && (|o.data| > 0 ==> |o.chunks[|o.data| - 1]| == g.dps)
    ensures at > 0 ==> |o.data| > 0 && spix == |o.data| - 1 && |o.chunks[spix]| == at
  {
    FlattenLen(o.chunks, g.dps);
    var n := |o.data|;
    if n > 0 {
      var last := |o.chunks[n - 1]|;
      if spix < n - 1 { StartMono(g.dps, spix, n - 1); }
      if spix > n { StartMono(g.dps, n, spix); }
      if spix == n - 1 { assert at == last; }
    } else {
      StartMono(g.dps, 0, spix);
    }
  }

  // ---------------------------------------------------------------- the last index page

  /** Page `p` on flash can be brought up to `want` in place, apart from its size field. */
  ghost predicate Behind(p: Page, want: Page) {
    p == want.(slots := p.slots, size := p.size) && HalvesOverlay(p.slots, want.slots)
  }

  /** The work buffer holds the last index page of the object, the flash an older version of it; the
      size field is brought up to date last.  `blank`: the object was empty when the operation began. */
  ghost predicate GrowShape(g: Geo, pages: seq<Page>, work: Page, id: half, o: Obj, blank: bool) {
    && ObjShape(g, o) && id < IX_FLAG
    && var k := |o.ix| - 1;
       var want := IxPage(g, id, o, k);
       && o.ix[k] as nat < |pages| && o.ix[0] as nat < |pages|
       && Behind(pages[o.ix[k]], want)
       && work == want.(size := work.size)
       && if k == 0 then blank ==> pages[o.ix[0]].size == UNDEFINED_LEN
          else
            && pages[o.ix[k]].size == UNDEFINED_LEN && work.size == UNDEFINED_LEN
            && pages[o.ix[0]] == IxPage(g, id, o, 0).(size := pages[o.ix[0]].size)
  }

  /** An append in progress. */
  ghost predicate Growing(fs: Spiffs, id: half, blank: bool)
    reads fs
  {
    && id in fs.dir && |fs.dir[id].ix| > 0
    && Mid(fs, Op({fs.dir[id].ix[0] as nat, fs.dir[id].ix[|fs.dir[id].ix| - 1] as nat}, {}, id))
    && GrowShape(fs.g, fs.pages, fs.work, id, fs.dir[id], blank)
  }

  /** The object with one data page more. */
  function Longer(o: Obj, q: half, buf: seq<byte>): Obj {
    o.(data := o.data + [q], chunks := o.chunks + [buf])
  }

  /** The object with its last data page filled up further. */
  function Fuller(o: Obj, buf: seq<byte>): Obj {
    if |o.chunks| == 0 then o else o.(chunks := o.chunks[|o.chunks| - 1 := o.chunks[|o.chunks| - 1] + buf])
  }

  /** The index pages of the longer object. */
  lemma LongerIx(g: Geo, id: half, o: Obj, q: half, buf: seq<byte>)
    requires g.Valid() && ObjShape(g, o) && ObjShape(g, Longer(o, q, buf)) && id < IX_FLAG
    requires g.IxOf(|o.data|) == |o.ix| - 1
    ensures var o', k, slot := Longer(o, q, buf), |o.ix| - 1, g.SlotOf(|o.data|);
            && slot < g.Cap() && slot == (if k == 0 then |o.data| else g.SlotOf(|o.data|))
            && IxPage(g, id, o, k).slots[slot] == FREE_PIX
            && IxPage(g, id, o', k) == IxPage(g, id, o, k).(slots := IxPage(g, id, o, k).slots[slot := q],
                                                            size := IxPage(g, id, o', k).size)
            && (k > 0 ==> IxPage(g, id, o', 0) == IxPage(g, id, o, 0).(size := IxPage(g, id, o', 0).size))
  {
    SlotLaw(g, |o.data|);
    SlotsForAppend(g, o.data, q, |o.ix| - 1);
    SlotsForAppend(g, o.data, q, 0);
  }

  // ---------------------------------------------------------------- data pages

  ghost function WithObj(dir: Dir, id: half, o: Obj): Dir { dir[id := o] }

  /** The object may grow by `buf` where it ends. */
  ghost predicate CanGrow(g: Geo, o: Obj, spix: nat, at: nat, buf: seq<byte>) {
    && 0 < g.ixLen && ObjShape(g, o) && At(g.dps, |Bytes(o)|, spix, at) && g.IxOf(spix) == |o.ix| - 1
    && 0 < |buf| && at + |buf| <= g.dps && Fits(g, o)
  }

  /** The numbers of a file fit their fields for sure as long as it has lost no page. */
  ghost predicate Fits(g: Geo, o: Obj) { o.lost == {} || Ample(g) }

  /** A page that is not full is not lost. */
  lemma LastKept(g: Geo, o: Obj, s: nat, at: nat)
    requires ObjShape(g, o) && s < |o.chunks| && |o.chunks[s]| == at < g.dps
    ensures s !in o.lost
  {
  }


  /** An index page is not affected by what happens to pages that were not in use. */
  ghost predicate IxKept(pages: seq<Page>, pages': seq<Page>, o: Obj) {
    && |pages'| == |pages|
    && forall k :: 0 <= k < |o.ix| && o.ix[k] as nat < |pages| ==> pages'[o.ix[k]] == pages[o.ix[k]]
  }

  lemma IxKeptTwice(pages: seq<Page>, mpages: seq<Page>, pages': seq<Page>, o: Obj)
    requires IxKept(pages, mpages, o) && IxKept(mpages, pages', o)
    ensures IxKept(pages, pages', o)
  {
  }

  lemma ErasedKeepsIx(g: Geo, P: set<nat>, lu: seq<half>, pages: seq<Page>, mlu: seq<half>, mpages: seq<Page>,
                      dir: Dir, dirty: set<nat>, id: half)
    requires Rep(g, P, lu, pages, dir, dirty) && id in dir && OnlyDeletedErased(P, lu, pages, mlu, mpages)
    ensures IxKept(pages, mpages, dir[id]) && Rep(g, P, mlu, mpages, dir, dirty)
  {
    EraseStep(g, P, lu, pages, dir, dirty, mlu, mpages);
    forall k | 0 <= k < |dir[id].ix| && dir[id].ix[k] as nat < |pages| ensures mpages[dir[id].ix[k]] == pages[dir[id].ix[k]] {
      assert IxOk(g, P, lu, pages, dirty, id, dir[id], k);
    }
  }

  /** What allocating the new page does to the object. */
  lemma Lengthened(g: Geo, P: set<nat>, lu: seq<half>, pages: seq<Page>, dir: Dir, dirty: set<nat>, id: half, q: half,
                   buf: seq<byte>)
    requires Entries(g, P) && Rep(g, P, lu, pages, dir, dirty) && id in dir
    requires CanGrow(g, dir[id], |dir[id].data|, 0, buf)
    requires dir[id].ix[0] as nat in dirty && dir[id].ix[|dir[id].ix| - 1] as nat in dirty
    requires q as nat in P && lu[q] == FREE_ID
    ensures |dir[id].data| < 0xFFFE && ObjShape(g, Longer(dir[id], q, buf))
    ensures Bytes(Longer(dir[id], q, buf)) == Bytes(dir[id]) + buf
    ensures var lu', pages' := lu[q := id], pages[q := DataPage(g, id, |dir[id].data|, buf)];
            Rep(g, P, lu', pages', WithObj(dir, id, Longer(dir[id], q, buf)), dirty) && IxKept(pages, pages', dir[id])
  {
    var o := dir[id];
    FitsData(g, P, lu, pages, dir, dirty, id);
    EndOf(g, o, |o.data|, 0);
    FlattenAppend(o.chunks, g.dps, buf);
    AppendDataStep(g, P, lu, pages, dir, dirty, lu[q := id], pages[q := DataPage(g, id, |o.data|, buf)], id, q, buf);
    forall k | 0 <= k < |o.ix| ensures o.ix[k] != q {
      assert IxOk(g, P, lu, pages, dirty, id, o, k);
    }
  }

  lemma EntriesOf(fs: Spiffs, dirty: set<nat>)
    requires fs.Ok() && Rep(fs.g, fs.P, fs.lu, fs.pages, fs.dir, dirty)
    ensures Entries(fs.g, fs.P) && (forall x :: x in fs.dir ==> 0 < x < 0x7FFF)
  {
  }

  lemma NewDataPage(g: Geo, id: half, s: half, buf: seq<byte>)
    requires |buf| <= g.dps && s < 0xFFFF
    ensures NewPage(g, id, s, ERASED_FLAGS.(final := false), buf, true) == DataPage(g, id, s, buf)
  {
  }

  /** A new data page at the end. */
  method AppendNew(fs: Spiffs, id: half, s: half, buf: seq<byte>, ghost dirty: set<nat>) returns (st: Status, q: half)
    requires fs.Ok() && Rep(fs.g, fs.P, fs.lu, fs.pages, fs.dir, dirty) && id in fs.dir
    requires s as nat == |fs.dir[id].data| && CanGrow(fs.g, fs.dir[id], s, 0, buf)
    requires fs.dir[id].ix[0] as nat in dirty && fs.dir[id].ix[|fs.dir[id].ix| - 1] as nat in dirty
    modifies fs`lu, fs`pages, fs`freeBlocks, fs`surplus, fs`maxErase, fs`eraseCnt, fs`nDel, fs`freeBlk, fs`freeEnt,
             fs`nAlloc, fs`dir
    ensures Spacious(st)
    ensures st == OK <==> old(PageToHave(fs))
    ensures fs.Ok() && Rep(fs.g, fs.P, fs.lu, fs.pages, fs.dir, dirty)
    ensures IxKept(old(fs.pages), fs.pages, old(fs.dir)[id])
    ensures st != OK ==> fs.dir == old(fs.dir)
    ensures st == OK ==> fs.dir == WithObj(old(fs.dir), id, Longer(old(fs.dir)[id], q, buf))
    ensures st == OK ==> ObjShape(fs.g, fs.dir[id]) && Bytes(fs.dir[id]) == Bytes(old(fs.dir)[id]) + buf
    ensures old(InStock(fs)) >= 1 ==> st == OK && InStock(fs) + 1 >= old(InStock(fs))
  {
    hide PageToHave, FlashOk, FreeSuffix, CursorOk, ObjShape, Flatten, IxOk, DataOk, Owned, DataPage, TakesNext, Stocked,
      LivePages, DeletedPages, FreeBlocks, FreePages, OnlyDeletedErased, IxKept, Entries, NewPage, DirOk, PageShape, Inv, Rep;
    if InStock(fs) >= 1 { StockGives(fs); }
    ghost var dir, lu, pages, t := fs.dir, fs.lu, fs.pages, fs.S();
    EntriesOf(fs, dirty);
    ghost var mlu, mpages;
    st, q, mlu, mpages := PageAllocate(fs, id, s, ERASED_FLAGS.(final := false), buf, true);
    ErasedKeepsIx(fs.g, fs.P, lu, pages, mlu, mpages, dir, dirty, id);
    if st != OK { return; }
    Lengthened(fs.g, fs.P, mlu, mpages, dir, dirty, id, q, buf);
    NewDataPage(fs.g, id, s, buf);
    if t.freeBlocks >= 2 { StockTaken(fs.g, fs.P, t, fs.S(), q as nat); }
    IxKeptTwice(pages, mpages, fs.pages, dir[id]);
    fs.dir := WithObj(dir, id, Longer(dir[id], q, buf));
  }

  /** What filling up the last data page does to the object. */
  lemma FilledUp(g: Geo, P: set<nat>, lu: seq<half>, pages: seq<Page>, dir: Dir, dirty: set<nat>, id: half, at: nat,
                 buf: seq<byte>)
    requires Entries(g, P) && Rep(g, P, lu, pages, dir, dirty) && id in dir
    requires |dir[id].data| > 0 && at > 0 && CanGrow(g, dir[id], |dir[id].data| - 1, at, buf)
    requires dir[id].ix[0] as nat in dirty && dir[id].data[|dir[id].data| - 1] as nat < |pages|
    ensures ObjShape(g, Fuller(dir[id], buf)) && Bytes(Fuller(dir[id], buf)) == Bytes(dir[id]) + buf
    ensures |dir[id].chunks[|dir[id].data| - 1]| == at && |dir[id].data| - 1 !in dir[id].lost
    ensures var s := |dir[id].data| - 1;
            var pages' := pages[dir[id].data[s] := DataPage(g, id, s, dir[id].chunks[s] + buf)];
            Rep(g, P, lu, pages', WithObj(dir, id, Fuller(dir[id], buf)), dirty) && IxKept(pages, pages', dir[id])
  {
    var o, s := dir[id], |dir[id].data| - 1;
    FitsData(g, P, lu, pages, dir, dirty, id);
    EndOf(g, o, s, at);
    LastKept(g, o, s, at);
    FlattenLen(o.chunks, g.dps);
    FlattenGrowLast(o.chunks, g.dps, buf);
    assert DataOk(g, P, lu, pages, id, o, s);
    GrowTailStep(g, P, lu, pages, dir, dirty, pages[o.data[s] := DataPage(g, id, s, o.chunks[s] + buf)], id, buf);
    forall k | 0 <= k < |o.ix| ensures o.ix[k] != o.data[s] {
      assert IxOk(g, P, lu, pages, dirty, id, o, k);
    }
  }

  /** Writing behind what a data page holds. */
  lemma FilledPage(g: Geo, id: half, s: half, c: seq<byte>, buf: seq<byte>)
    requires s < 0xFFFF && |c| + |buf| <= g.dps
    ensures var p := DataPage(g, id, s, c);
            && BytesOverlay(p.data[|c|..|c| + |buf|], buf)
            && Filled(p, |c|, buf) == DataPage(g, id, s, c + buf)
  {
    var p := DataPage(g, id, s, c);
    assert Filled(p, |c|, buf).data == c + buf + Ones(g.dps - |c + buf|);
  }

  /** The last data page is filled up further. */
  method AppendFill(fs: Spiffs, id: half, s: half, src: half, at: nat, buf: seq<byte>, ghost dirty: set<nat>)
    requires fs.Ok() && Rep(fs.g, fs.P, fs.lu, fs.pages, fs.dir, dirty) && id in fs.dir && at > 0
    requires s as nat == |fs.dir[id].data| - 1 && CanGrow(fs.g, fs.dir[id], s, at, buf) && src == fs.dir[id].data[s]
    requires fs.dir[id].ix[0] as nat in dirty
    modifies fs`pages, fs`dir
    ensures fs.Ok() && Rep(fs.g, fs.P, fs.lu, fs.pages, fs.dir, dirty)
    ensures IxKept(old(fs.pages), fs.pages, old(fs.dir)[id])
    ensures fs.dir == WithObj(old(fs.dir), id, Fuller(old(fs.dir)[id], buf))
    ensures ObjShape(fs.g, fs.dir[id]) && Bytes(fs.dir[id]) == Bytes(old(fs.dir)[id]) + buf
  {
    ghost var dir, pages := fs.dir, fs.pages;
    EndOf(fs.g, dir[id], s, at);
    LastKept(fs.g, dir[id], s, at);
    assert DataOk(fs.g, fs.P, fs.lu, pages, id, dir[id], s as nat);
    FilledUp(fs.g, fs.P, fs.lu, pages, dir, dirty, id, at, buf);
    FilledPage(fs.g, id, s, dir[id].chunks[s], buf);
    WriteData(fs, src, at, buf);
    fs.dir := WithObj(dir, id, Fuller(dir[id], buf));
  }

  // ---------------------------------------------------------------- one piece

  /** The work buffer once it names page q in the slot of data page s; a header also gets the size so far. */
  function Named(g: Geo, work: Page, k: nat, s: nat, q: half, size: word): Page
    requires 0 < g.ixLen && g.SlotOf(s) < |work.slots|
  {
    work.(slots := work.slots[g.SlotOf(s) := q], size := if k == 0 then size else work.size)
  }

  lemma LongerShape(g: Geo, pages: seq<Page>, pages': seq<Page>, work: Page, id: half, o: Obj, q: half, buf: seq<byte>,
                    blank: bool, size: word)
    requires g.Valid() && GrowShape(g, pages, work, id, o, blank) && CanGrow(g, o, |o.data|, 0, buf)
    requires ObjShape(g, Longer(o, q, buf)) && IxKept(pages, pages', o)
    ensures g.SlotOf(|o.data|) < |work.slots|
    ensures GrowShape(g, pages', Named(g, work, |o.ix| - 1, |o.data|, q, size), id, Longer(o, q, buf), blank)
  {
    LongerIx(g, id, o, q, buf);
  }

  lemma FullerShape(g: Geo, pages: seq<Page>, pages': seq<Page>, work: Page, id: half, o: Obj, s: nat, at: nat,
                    buf: seq<byte>, blank: bool, size: word)
    requires g.Valid() && GrowShape(g, pages, work, id, o, blank) && at > 0 && CanGrow(g, o, s, at, buf)
    requires ObjShape(g, Fuller(o, buf)) && IxKept(pages, pages', o)
    ensures s == |o.data| - 1 && g.SlotOf(s) < |work.slots| && work.slots[g.SlotOf(s)] == o.data[s]
    ensures GrowShape(g, pages', Named(g, work, |o.ix| - 1, s, o.data[s], size), id, Fuller(o, buf), blank)
  {
    EndOf(g, o, s, at);
    SlotNames(g, id, o, s);
    assert SlotsFor(g, Fuller(o, buf).data, |o.ix| - 1) == SlotsFor(g, o.data, |o.ix| - 1);
  }

  /** No page could be allocated: nothing has changed. */
  lemma SameShape(g: Geo, pages: seq<Page>, pages': seq<Page>, work: Page, id: half, o: Obj, blank: bool)
    requires GrowShape(g, pages, work, id, o, blank) && IxKept(pages, pages', o)
    ensures GrowShape(g, pages', work, id, o, blank)
  {
  }

  lemma GrowingShape(fs: Spiffs, id: half, blank: bool)
    requires Growing(fs, id, blank)
    ensures id in fs.dir && fs.g.Valid() && 0 < id < 0x7FFF && 0 !in fs.dir && |fs.dir[id].ix| > 0
    ensures ObjShape(fs.g, fs.dir[id]) && GrowShape(fs.g, fs.pages, fs.work, id, fs.dir[id], blank)
  {
  }

  lemma GrownContent(fds: seq<Fd>, wc: seq<CPage>, dir: Dir, id: half, o: Obj)
    requires FdsOk(fds, wc, dir, id, {}) && id in dir && 0 !in dir
    requires o.ix == dir[id].ix && o.name == dir[id].name && o.lost == dir[id].lost && o.doomed == dir[id].doomed && |Bytes(dir[id])| <= |Bytes(o)|
    ensures FdsOk(fds, wc, WithObj(dir, id, o), id, {}) && OnlyContent(dir, WithObj(dir, id, o), id)
  {
    FdsFrame(fds, wc, dir, WithObj(dir, id, o), id, id, {});
  }

  /** The new page, and its slot in the work buffer. */
  method GrowNew(fs: Spiffs, id: half, blank: bool, k: half, s: half, buf: seq<byte>, size: word) returns (st: Status)
    requires Growing(fs, id, blank) && k as nat == |fs.dir[id].ix| - 1
    requires s as nat == |fs.dir[id].data| && CanGrow(fs.g, fs.dir[id], s, 0, buf)
    modifies fs`lu, fs`pages, fs`freeBlocks, fs`surplus, fs`maxErase, fs`eraseCnt, fs`nDel, fs`freeBlk, fs`freeEnt,
             fs`nAlloc, fs`dir, fs`work
    ensures Spacious(st)
    ensures st == OK <==> old(PageToHave(fs))
    ensures Growing(fs, id, blank) && OnlyContent(old(fs.dir), fs.dir, id) && fs.dir[id].ix == old(fs.dir)[id].ix
    ensures st != OK ==> fs.dir == old(fs.dir)
    ensures st == OK ==> Bytes(fs.dir[id]) == Bytes(old(fs.dir)[id]) + buf
    ensures st == OK ==> |fs.dir[id].data| == |old(fs.dir)[id].data| + 1
    ensures fs.dir[id].lost == old(fs.dir)[id].lost
    ensures old(InStock(fs)) >= 1 ==> st == OK && InStock(fs) + 1 >= old(InStock(fs))
  {
    hide PageToHave, Rep, FdsOk, Inv, GrowShape, IxPage, Flatten, CanGrow, ObjShape, IxKept, Stocked, OnlyContent;
    GrowingShape(fs, id, blank);
    ghost var dir, pages, o := fs.dir, fs.pages, fs.dir[id];
    var q;
    st, q := AppendNew(fs, id, s, buf, {o.ix[0] as nat, o.ix[k] as nat});
    if st != OK {
      ContentRefl(dir, id);
      SameShape(fs.g, pages, fs.pages, fs.work, id, o, blank);
      return;
    }
    LongerShape(fs.g, pages, fs.pages, fs.work, id, o, q, buf, blank, size);
    fs.work := Named(fs.g, fs.work, k, s, q, size);
    GrownContent(fs.fds, fs.wc, dir, id, Longer(o, q, buf));
  }

  /** ... or the last page, filled up further. */
  method GrowFill(fs: Spiffs, id: half, blank: bool, k: half, s: half, at: nat, buf: seq<byte>, size: word) returns (st: Status)
    requires Growing(fs, id, blank) && k as nat == |fs.dir[id].ix| - 1
    requires at > 0 && CanGrow(fs.g, fs.dir[id], s, at, buf)
    modifies fs`pages, fs`dir, fs`work
    ensures Growing(fs, id, blank) && OnlyContent(old(fs.dir), fs.dir, id) && fs.dir[id].ix == old(fs.dir)[id].ix
    ensures st == OK
    ensures Bytes(fs.dir[id]) == Bytes(old(fs.dir)[id]) + buf
    ensures |fs.dir[id].data| == |old(fs.dir)[id].data|
    ensures fs.dir[id].lost == old(fs.dir)[id].lost
  {
    hide Rep, FdsOk, Inv, GrowShape, IxPage, Flatten, ObjShape, IxKept, PageDataCheck, Full, OnlyContent, CanGrow, FdsPix,
      FdsSize, FdsOff, CacheRefs;
    GrowingShape(fs, id, blank);
    ghost var dir, pages, o := fs.dir, fs.pages, fs.dir[id];
    WorkNames(fs.g, pages, fs.work, id, o, s, at, buf, blank);
    var src := fs.work.slots[if k == 0 then s as nat else fs.g.SlotOf(s)];
    CheckLast(fs, id, s, {o.ix[0] as nat, o.ix[k] as nat});
    st := PageDataCheck(fs.g, fs.pages, id, src, s);
    AppendFill(fs, id, s, src, at, buf, {o.ix[0] as nat, o.ix[k] as nat});
    FullerShape(fs.g, pages, fs.pages, fs.work, id, o, s, at, buf, blank, size);
    fs.work := Named(fs.g, fs.work, k, s, src, size);
    GrownContent(fs.fds, fs.wc, dir, id, Fuller(o, buf));
  }

  lemma WorkNames(g: Geo, pages: seq<Page>, work: Page, id: half, o: Obj, s: nat, at: nat, buf: seq<byte>, blank: bool)
    requires g.Valid() && GrowShape(g, pages, work, id, o, blank) && at > 0 && CanGrow(g, o, s, at, buf)
    ensures s == |o.data| - 1 && |o.chunks| == |o.data| && (if |o.ix| == 1 then s else g.SlotOf(s)) == g.SlotOf(s) < |work.slots|
    ensures work.slots[g.SlotOf(s)] == o.data[s] && s !in o.lost
  {
    EndOf(g, o, s, at);
    LastKept(g, o, s, at);
    SlotNames(g, id, o, s);
  }

  lemma CheckLast(fs: Spiffs, id: half, s: nat, dirty: set<nat>)
    requires fs.Ok() && Rep(fs.g, fs.P, fs.lu, fs.pages, fs.dir, dirty) && id in fs.dir && s < |fs.dir[id].data| && s !in fs.dir[id].lost
    ensures |fs.pages| == fs.g.Pages() && PageDataCheck(fs.g, fs.pages, id, fs.dir[id].data[s], s) == OK
  {
    assert DataOk(fs.g, fs.P, fs.lu, fs.pages, id, fs.dir[id], s);
    DataCheckOk(fs.g, fs.P, fs.lu, fs.pages, fs.dir, dirty, id, s);
  }

  // ---------------------------------------------------------------- index pages

  /** Descriptors agree while the size of `id` is not announced yet. */
  lemma BusyFds(fds: seq<Fd>, wc: seq<CPage>, dir: Dir, busy: half, id: half)
    requires FdsOk(fds, wc, dir, busy, {}) && 0 !in dir && (busy == 0 || busy == id)
    ensures FdsOk(fds, wc, dir, id, {})
  {
    OpenHaveIds(fds, dir, {});
    SizeFrame(fds, dir, dir, busy, id, {});
  }

  /** A last index page that has just been loaded can grow. */
  lemma ViewGrows(fs: Spiffs, id: half, k: nat)
    requires Mid(fs, IDLE) && Viewing(fs, id, k) && k == |fs.dir[id].ix| - 1
    ensures Growing(fs, id, |Bytes(fs.dir[id])| == 0)
  {
    var o := fs.dir[id];
    assert IxOk(fs.g, fs.P, fs.lu, fs.pages, {}, id, o, k);
    assert IxOk(fs.g, fs.P, fs.lu, fs.pages, {}, id, o, 0);
    RepWeaken(fs.g, fs.P, fs.lu, fs.pages, fs.dir, {}, {o.ix[0] as nat, o.ix[k] as nat});
    BusyFds(fs.fds, fs.wc, fs.dir, 0, id);
  }

  /** An index page that names no page yet. */
  lemma NewIndexPage(g: Geo, id: half, o: Obj, k: half)
    requires g.Valid() && ObjShape(g, o) && id < IX_FLAG && 0 < k < 0xFFFF && |o.data| <= g.First(k)
    ensures NewPage(g, id + IX_FLAG, k, INDEX_FLAGS.(used := true), [], true) == IxPage(g, id, o, k)
    ensures Blank(g).(id := id + IX_FLAG, span := k, flags := INDEX_FLAGS) == IxPage(g, id, o, k)
  {
    assert SlotsFor(g, o.data, k) == FreeSlots(g.Cap());
  }

  /** The object with one index page more. */
  ghost function WithNewIx(dir: Dir, id: half, q: half): Dir {
    if id in dir then dir[id := dir[id].(ix := dir[id].ix + [q])] else dir
  }

  /** What allocating an index page does to the object. */
  lemma Extended(g: Geo, P: set<nat>, lu: seq<half>, pages: seq<Page>, mlu: seq<half>, mpages: seq<Page>, dir: Dir,
                 id: half, q: half)
    requires Entries(g, P) && Rep(g, P, lu, pages, dir, {}) && id in dir && OnlyDeletedErased(P, lu, pages, mlu, mpages)
    requires |dir[id].ix| < 0xFFFF && q as nat in P && q as nat < |mlu| && mlu[q] == FREE_ID
    ensures Rep(g, P, mlu[q := id + IX_FLAG], mpages[q := IxPage(g, id, dir[id], |dir[id].ix|)], WithNewIx(dir, id, q), {})
  {
    EraseStep(g, P, lu, pages, dir, {}, mlu, mpages);
    FitsIx(g, P, mlu, mpages, dir, {}, id, q);
    NewIxStep(g, P, mlu, mpages, dir, {}, mlu[q := id + IX_FLAG], mpages[q := IxPage(g, id, dir[id], |dir[id].ix|)], id, q);
  }

  /** A new index page is allocated behind the last, and put into the work buffer. */
  method AllocateIndex(fs: Spiffs, id: half, k: half) returns (st: Status, q: half)
    requires fs.Ok() && Rep(fs.g, fs.P, fs.lu, fs.pages, fs.dir, {}) && id in fs.dir
    requires k as nat == |fs.dir[id].ix| && k < 0xFFFF && |fs.dir[id].data| <= fs.g.First(k)
    modifies fs`lu, fs`pages, fs`freeBlocks, fs`surplus, fs`maxErase, fs`eraseCnt, fs`nDel, fs`freeBlk, fs`freeEnt,
             fs`nAlloc, fs`dir, fs`work
    ensures Spacious(st)
    ensures fs.Ok() && Rep(fs.g, fs.P, fs.lu, fs.pages, fs.dir, {})
    ensures fs.dir == if st == OK then WithNewIx(old(fs.dir), id, q) else old(fs.dir)
    ensures st == OK ==> fs.work == IxPage(fs.g, id, old(fs.dir)[id], k)
    ensures old(InStock(fs)) >= 1 ==> st == OK && InStock(fs) + 1 >= old(InStock(fs))
  {
    hide FlashOk, FreeSuffix, CursorOk, IxOk, DataOk, Owned, PageToHave, TakesNext, Stocked, LivePages, DeletedPages, FreeBlocks,
      FreePages, OnlyDeletedErased, IxPage, PageShape, Entries, NewPage, Flatten, WithNewIx, Inv;
    if InStock(fs) >= 1 { StockGives(fs); }
    ghost var dir, lu, pages, t := fs.dir, fs.lu, fs.pages, fs.S();
    EntriesOf(fs, {});
    NewIndexPage(fs.g, id, dir[id], k);
    ghost var mlu, mpages;
    st, q, mlu, mpages := PageAllocate(fs, id + IX_FLAG, k, INDEX_FLAGS.(used := true), [], true);
    EraseStep(fs.g, fs.P, lu, pages, dir, {}, mlu, mpages);
    if st != OK { return; }
    Extended(fs.g, fs.P, lu, pages, mlu, mpages, dir, id, q);
    if t.freeBlocks >= 2 { StockTaken(fs.g, fs.P, t, fs.S(), q as nat); }
    fs.work := Blank(fs.g).(id := id + IX_FLAG, span := k, flags := INDEX_FLAGS);
    fs.dir := WithNewIx(dir, id, q);
  }

  /** The descriptors are told about a new index page. */
  method TellNew(fs: Spiffs, id: half, k: half, q: half, ghost dir: Dir)
    requires FdsOk(fs.fds, fs.wc, dir, id, {}) && 0 !in dir && id in dir && 0 < id < 0x7FFF
    requires k as nat == |dir[id].ix| > 0 && fs.dir == WithNewIx(dir, id, q)
    modifies fs`fds, fs`wc
    ensures FdsOk(fs.fds, fs.wc, fs.dir, id, {})
    ensures SameUser(old(fs.fds), fs.fds) && fs.wc == old(fs.wc)
  {
    ghost var fds := fs.fds;
    ObjectEvent(fs, IxNew, id + IX_FLAG, k, q, 0);
    EventAfterNewIx(fds, fs.fds, fs.wc, dir, {}, IxNew, id + IX_FLAG, k, q, 0);
    EventKeepsUser(fds, fs.fds, fs.wc, dir, IxNew, id + IX_FLAG, k, q, 0);
    OffFrame(fds, fs.fds, fs.wc, dir, fs.dir, 0);
    OpenHaveIds(fds, dir, {});
    SizeFrame(fds, dir, fs.dir, id, id, {});
    EventKeepsSize(fds, fs.fds, fs.wc, fs.dir, IxNew, id + IX_FLAG, k, q, id, {});
  }

  /** The state between two index pages: everything is on flash, but for the announcement of the size. */
  ghost predicate Between(fs: Spiffs, id: half)
    reads fs
  {
    id in fs.dir && Mid(fs, Op({}, {}, id))
  }

  lemma BetweenGrows(fs: Spiffs, id: half, k: nat, o: Obj)
    requires Between(fs, id) && k > 0 && |fs.dir[id].ix| == k + 1 && k < 0xFFFF
    requires o.name == fs.dir[id].name && o.data == fs.dir[id].data && |o.name| == NAME_LEN && |Bytes(o)| < UNDEFINED_LEN
    requires id < IX_FLAG && fs.work == IxPage(fs.g, id, o, k)
    ensures Growing(fs, id, false) && Growing(fs, id, true)
  {
    var o' := fs.dir[id];
    assert IxOk(fs.g, fs.P, fs.lu, fs.pages, {}, id, o', k);
    assert IxOk(fs.g, fs.P, fs.lu, fs.pages, {}, id, o', 0);
    assert IxPage(fs.g, id, o', k) == IxPage(fs.g, id, o, k);
    RepWeaken(fs.g, fs.P, fs.lu, fs.pages, fs.dir, {}, {o'.ix[0] as nat, o'.ix[k] as nat});
  }

  /** Every data page of `id` is full up to where a new index page begins. */
  method NewIndex(fs: Spiffs, f: nat, id: half, k: half, ghost blank: bool) returns (st: Status, q: half)
    requires Between(fs, id) && OpenOn(fs, f, id)
    requires k as nat == |fs.dir[id].ix| && k < 0xFFFF && |fs.dir[id].data| <= fs.g.First(k)
    modifies fs
    ensures Spacious(st)
    ensures fs.cleaning == old(fs.cleaning)
    ensures st == OK ==> Growing(fs, id, blank) && OnlyContent(old(fs.dir), fs.dir, id)
    ensures st == OK ==> |fs.dir[id].ix| == |old(fs.dir)[id].ix| + 1 && fs.dir[id].data == old(fs.dir)[id].data
    ensures st == OK ==> fs.dir[id].chunks == old(fs.dir)[id].chunks && fs.dir[id].ix[k] == q && fs.dir[id].lost == old(fs.dir)[id].lost
    ensures st == OK ==> SameUser(old(fs.fds), fs.fds) && fs.wc == old(fs.wc)
    ensures st != OK ==> Refused(old(fs.dir), old(fs.fds), old(fs.wc), fs, Op({}, {}, id))
    ensures old(InStock(fs)) >= 1 ==> st == OK && InStock(fs) + 1 >= old(InStock(fs))
  {
    hide Rep, FdsOk, Inv, IxPage, Flatten, SameUser, GrowShape, ObjShape, FdPix, FdSize, PageShape, Full, Stocked;
    MidShape(fs, Op({}, {}, id));
    ghost var dir := fs.dir;
    ShapeBounds(fs.g, dir[id]);
    st, q := AllocateIndex(fs, id, k);
    if st != OK { return; }
    TellNew(fs, id, k, q, dir);
    ghost var fds := fs.fds;
    SetCursor(fs, f, id, k, q, Op({}, {}, id));
    SameUserTransitive(old(fs.fds), fds, fs.fds);
    BetweenGrows(fs, id, k, dir[id]);
  }

  // ---------------------------------------------------------------- storing the last index page

  /** The index page in the work buffer is written over its older version. */
  method StoreInPlace(fs: Spiffs, id: half, k: half, pix: half, ghost dirty: set<nat>)
    requires fs.Ok() && Rep(fs.g, fs.P, fs.lu, fs.pages, fs.dir, dirty) && id in fs.dir && k as nat < |fs.dir[id].ix|
    requires pix == fs.dir[id].ix[k] && fs.work == IxPage(fs.g, id, fs.dir[id], k)
    requires pix as nat < |fs.pages| && Behind(fs.pages[pix], fs.work)
    requires fs.pages[pix].size == UNDEFINED_LEN
    modifies fs`pages
    ensures fs.Ok() && Rep(fs.g, fs.P, fs.lu, fs.pages, fs.dir, dirty - {pix as nat})
    ensures fs.pages == old(fs.pages)[pix := fs.work]
  {
    ghost var s, pages := fs.S(), fs.pages;
    assert IxOk(fs.g, fs.P, fs.lu, fs.pages, dirty, id, fs.dir[id], k);
    BehindOverlay(fs.g, fs.pages[pix], fs.work);
    WritePage(fs, pix, fs.work);
    Rewrite(fs.g, fs.P, s, pix, fs.work);
    CleanIxStep(fs.g, fs.P, fs.lu, pages, fs.dir, dirty, fs.pages, id, k);
  }

  lemma BehindOverlay(g: Geo, p: Page, want: Page)
    requires PageShape(g, p) && PageShape(g, want) && Behind(p, want) && p.size == UNDEFINED_LEN
    ensures Overlay(g, p, want)
  {
    assert NorFlags(want.flags, want.flags) == want.flags;
  }

  lemma WithIxSame(dir: Dir, id: half, k: nat)
    requires id in dir && k < |dir[id].ix|
    ensures WithIx(dir, id, k, dir[id].ix[k]) == dir
  {
    assert dir[id].ix[k := dir[id].ix[k]] == dir[id].ix;
  }

  /** What the work buffer and the header on flash hold once the size is put in. */
  lemma GrowStores(fs: Spiffs, id: half, blank: bool)
    requires Growing(fs, id, blank) && |Bytes(fs.dir[id])| > 0
    ensures id in fs.dir && |fs.dir[id].ix| > 0 && |Bytes(fs.dir[id])| < UNDEFINED_LEN && 0 < id < 0x7FFF
    ensures |fs.pages| == fs.g.Pages() && fs.g.Valid() && |fs.dir[id].name| == NAME_LEN && 0 !in fs.dir
    ensures var o, k, size := fs.dir[id], |fs.dir[id].ix| - 1, |Bytes(fs.dir[id])|;
            && k < 0xFFFF && o.ix[k] as nat < |fs.pages| && o.ix[0] as nat < |fs.pages|
            && Behind(fs.pages[o.ix[k]], IxPage(fs.g, id, o, k))
            && (k == 0 ==> fs.work.(size := size) == IxPage(fs.g, id, o, 0))
            && (k == 0 && blank ==> fs.pages[o.ix[0]].size == UNDEFINED_LEN)
            && (k > 0 ==> fs.work == IxPage(fs.g, id, o, k) && fs.pages[o.ix[k]].size == UNDEFINED_LEN
                          && o.ix[0] != o.ix[k]
                          && HdrPatched(fs.pages[o.ix[0]], None, size) == IxPage(fs.g, id, o, 0))
  {
    var o, k := fs.dir[id], |fs.dir[id].ix| - 1;
    var dirty := {o.ix[0] as nat, o.ix[k] as nat};
    assert IxOk(fs.g, fs.P, fs.lu, fs.pages, dirty, id, o, k);
    assert IxOk(fs.g, fs.P, fs.lu, fs.pages, dirty, id, o, 0);
  }

  /** An empty file has been filled within its header page, which is written in place. */
  method StoreBlankHeader(fs: Spiffs, id: half, pix: half, last: bool) returns (st: Status)
    requires Growing(fs, id, true) && |fs.dir[id].ix| == 1 && pix == fs.dir[id].ix[0] && |Bytes(fs.dir[id])| > 0
    requires fs.work.size == |Bytes(fs.dir[id])|
    modifies fs
    ensures st == OK && fs.cleaning == old(fs.cleaning)
    ensures Mid(fs, Op({}, {}, if last then 0 else id)) && fs.dir == old(fs.dir)
    ensures SameUser(old(fs.fds), fs.fds) && fs.wc == old(fs.wc)
    ensures InStock(fs) == old(InStock(fs))
  {
    hide Rep, FdsOk, Inv, GrowShape, IxPage, Flatten, SameUser;
    GrowStores(fs, id, true);
    SameUserRefl(fs.fds);
    GrowingChecks(fs, id, true, 0);
    st := PageIndexCheck(fs.g, fs.pages, id + IX_FLAG, pix, 0);
    assert {pix as nat, pix as nat} - {pix as nat} == {};
    StoreInPlace(fs, id, 0, pix, {pix as nat, pix as nat});
    if last {
      WithIxSame(fs.dir, id, 0);
      TellMove(fs, id, 0, pix, fs.work.size, IxUpdHdr, fs.dir, {}, id);
    }
  }

  /** The index pages of a growing object pass the check that guards their use. */
  lemma GrowingChecks(fs: Spiffs, id: half, blank: bool, k: half)
    requires Growing(fs, id, blank) && k as nat < |fs.dir[id].ix|
    ensures fs.g.Valid() && |fs.pages| == fs.g.Pages() && id < IX_FLAG
    ensures PageIndexCheck(fs.g, fs.pages, id + IX_FLAG, fs.dir[id].ix[k], k) == OK
  {
    var o := fs.dir[id];
    var dirty := {o.ix[0] as nat, o.ix[|o.ix| - 1] as nat};
    assert IxOk(fs.g, fs.P, fs.lu, fs.pages, dirty, id, o, k as nat);
    IndexCheckOk(fs.g, fs.P, fs.lu, fs.pages, fs.dir, dirty, id, k as nat);
  }

  /** A later index page is written in place; the header is still to be brought up to date. */
  method StoreTailPage(fs: Spiffs, f: nat, id: half, k: half, pix: half, size: word, ghost blank: bool) returns (st: Status)
    requires Growing(fs, id, blank) && k as nat == |fs.dir[id].ix| - 1 > 0 && pix == fs.dir[id].ix[k]
    requires size == |Bytes(fs.dir[id])| > 0
    modifies fs`pages, fs`fds, fs`wc
    ensures st == OK && SameUser(old(fs.fds), fs.fds) && fs.wc == old(fs.wc)
    ensures Mid(fs, Op({fs.dir[id].ix[0] as nat}, {}, id)) && HeaderReady(fs, id, size)
  {
    hide Rep, FdsOk, Inv, GrowShape, IxPage, Flatten, SameUser, Full, ObjShape, PageShape, FreePages, Behind, HdrPatched, FdPix,
      FdSize, DirOk;
    ghost var dir, hdr := fs.dir, fs.dir[id].ix[0];
    GrowStores(fs, id, blank);
    GrowingChecks(fs, id, blank, k);
    st := PageIndexCheck(fs.g, fs.pages, id + IX_FLAG, pix, k);
    StoreInPlace(fs, id, k, pix, {hdr as nat, pix as nat});
    WithIxSame(dir, id, k);
    TellMove(fs, id, k, pix, 0, IxUpd, dir, {}, id);
    assert {hdr as nat, pix as nat} - {pix as nat} == {hdr as nat};
  }

  /** The header page on flash becomes the right one once the size is put in. */
  ghost predicate HeaderReady(fs: Spiffs, id: half, size: word)
    reads fs
  {
    && id in fs.dir && id < IX_FLAG && |fs.dir[id].ix| > 0 && |fs.dir[id].name| == NAME_LEN && |Bytes(fs.dir[id])| < UNDEFINED_LEN
    && fs.dir[id].ix[0] as nat < |fs.pages| && HdrPatched(fs.pages[fs.dir[id].ix[0]], None, size) == IxPage(fs.g, id, fs.dir[id], 0)
  }

  /** The size goes into the header. */
  method StoreSize(fs: Spiffs, f: nat, id: half, size: word) returns (st: Status)
    requires id in fs.dir && |fs.dir[id].ix| > 0 && Mid(fs, Op({fs.dir[id].ix[0] as nat}, {}, id)) && HeaderReady(fs, id, size)
    requires size == |Bytes(fs.dir[id])| > 0 && OpenOn(fs, f, id)
    modifies fs
    ensures Spacious(st)
    ensures fs.cleaning == old(fs.cleaning)
    ensures if st == OK then Mid(fs, IDLE) else Torn(fs, id, {})
    ensures SameMeaning(old(fs.dir), fs.dir) && SameUser(old(fs.fds), fs.fds) && fs.wc == old(fs.wc)
    ensures old(InStock(fs)) >= 1 ==> st == OK && InStock(fs) + 1 >= old(InStock(fs))
  {
    hide Rep, FdsOk, Inv, IxPage, Flatten, SameUser, Full, Torn, ObjShape, PageShape, FreePages, SomeDeletedBlock, Stocked,
      PageToHave, FdPix, FdSize, DirOk;
    ghost var dir, hdr := fs.dir, fs.dir[id].ix[0];
    SameUserRefl(fs.fds);
    OpenHdr(fs, f, id, Op({hdr as nat}, {}, id));
    if InStock(fs) >= 1 { StockGives(fs); }
    var q;
    st, q := UpdateIndexHdr(fs, Some(f), id, fs.fds[f].hdrPix, false, None, size, Op({hdr as nat}, {}, id));
    WithIxMeaning(dir, id, 0, q);
    assert {hdr as nat} - {hdr as nat} == {};
    if st != OK { MidTorn(fs, Op({hdr as nat}, {}, id), id, {}); }
  }

  /** A later index page is written in place, then the size goes into the header. */
  method StoreTail(fs: Spiffs, f: nat, id: half, k: half, pix: half, size: word, ghost blank: bool) returns (st: Status)
    requires Growing(fs, id, blank) && k as nat == |fs.dir[id].ix| - 1 > 0 && pix == fs.dir[id].ix[k]
    requires size == |Bytes(fs.dir[id])| > 0 && OpenOn(fs, f, id)
    modifies fs
    ensures Spacious(st)
    ensures fs.cleaning == old(fs.cleaning)
    ensures if st == OK then Mid(fs, IDLE) else Torn(fs, id, {})
    ensures SameMeaning(old(fs.dir), fs.dir) && SameUser(old(fs.fds), fs.fds) && fs.wc == old(fs.wc)
    ensures old(InStock(fs)) >= 1 ==> st == OK && InStock(fs) + 1 >= old(InStock(fs))
  {
    hide Mid, GrowShape, Flatten, SameUser, Full, Torn, FreePages, SomeDeletedBlock, Stocked, HeaderReady, SameMeaning;
    st := StoreTailPage(fs, f, id, k, pix, size, blank);
    ghost var fds := fs.fds;
    UserOpen(old(fs.fds), fs, f, id);
    st := StoreSize(fs, f, id, size);
    SameUserTransitive(old(fs.fds), fds, fs.fds);
  }

  lemma OpenHdr(fs: Spiffs, f: nat, id: half, op: Op)
    requires Mid(fs, op) && op.except == {} && id in fs.dir && f < |fs.fds| && fs.fds[f].fileNbr != 0
    requires IdOf(fs.fds[f].objId) == id
    ensures |fs.dir[id].ix| > 0 && fs.fds[f].hdrPix == fs.dir[id].ix[0]
  {
    assert FdPix(fs.fds[f], fs.dir);
  }

  /** The size is put into the header page in the work buffer. */
  method SizeHeader(fs: Spiffs, id: half, blank: bool, size: word)
    requires Growing(fs, id, blank) && |fs.dir[id].ix| == 1
    modifies fs`work
    ensures Growing(fs, id, blank) && fs.work == old(fs.work).(size := size)
  {
    fs.work := fs.work.(size := size);
  }

  /** The header page of a file that held something is moved, with the size put in. */
  method StoreHeader(fs: Spiffs, f: nat, id: half, pix: half, size: word) returns (st: Status)
    requires Growing(fs, id, false) && |fs.dir[id].ix| == 1 && pix == fs.dir[id].ix[0] && OpenOn(fs, f, id)
    requires size == |Bytes(fs.dir[id])| > 0 && fs.work.size == size
    modifies fs
    ensures Spacious(st)
    ensures fs.cleaning == old(fs.cleaning)
    ensures if st == OK then Mid(fs, IDLE) else Torn(fs, id, {})
    ensures SameMeaning(old(fs.dir), fs.dir) && SameUser(old(fs.fds), fs.fds) && fs.wc == old(fs.wc)
    ensures old(InStock(fs)) >= 1 ==> st == OK && InStock(fs) + 1 >= old(InStock(fs))
  {
    hide Rep, FdsOk, Inv, GrowShape, IxPage, Flatten, SameUser, Stocked, PageToHave, Full, Torn, ObjShape, PageShape, FreePages,
      FdPix, FdSize, DirOk, Behind;
    ghost var dir := fs.dir;
    SameUserRefl(fs.fds);
    OpenHdr(fs, f, id, Op({pix as nat, pix as nat}, {}, id));
    GrowStores(fs, id, false);
    assert {pix as nat, pix as nat} - {pix as nat} == {};
    if InStock(fs) >= 1 { StockGives(fs); }
    var q;
    st, q := UpdateIndexHdr(fs, Some(f), id, fs.fds[f].hdrPix, true, None, size, Op({pix as nat, pix as nat}, {}, id));
    WithIxMeaning(dir, id, 0, q);
    if st != OK { MidTorn(fs, Op({pix as nat, pix as nat}, {}, id), id, {}); }
  }

  /** The last index page is stored, with the size the file has got so far.  `last`: the append is over. */
  method StoreGrown(fs: Spiffs, f: nat, id: half, blank: bool, k: half, pix: half, size: word, last: bool) returns (st: Status)
    requires Growing(fs, id, blank) && k as nat == |fs.dir[id].ix| - 1 && pix == fs.dir[id].ix[k] && OpenOn(fs, f, id)
    requires size == |Bytes(fs.dir[id])| > 0
    modifies fs
    ensures Spacious(st)
    ensures fs.cleaning == old(fs.cleaning)
    ensures if st == OK then Between(fs, id) && (last ==> Mid(fs, IDLE)) else Torn(fs, id, {})
    ensures SameMeaning(old(fs.dir), fs.dir) && SameUser(old(fs.fds), fs.fds) && fs.wc == old(fs.wc)
    ensures old(InStock(fs)) >= StoreCost(k as nat, blank) ==> st == OK && InStock(fs) + StoreCost(k as nat, blank) >= old(InStock(fs))
  {
    hide Mid, GrowShape, Flatten, SameUser, Stocked, Torn, Full;
    if k == 0 {
      SizeHeader(fs, id, blank, size);
      if blank {
        st := StoreBlankHeader(fs, id, pix, last);
      } else {
        st := StoreHeader(fs, f, id, pix, size);
      }
    } else {
      st := StoreTail(fs, f, id, k, pix, size, blank);
    }
    if st == OK && (last || k != 0 || !blank) { BusyMid(fs, id); }
  }

  lemma BusyMid(fs: Spiffs, id: half)
    requires Mid(fs, IDLE)
    ensures Mid(fs, Op({}, {}, id))
  {
    BusyFds(fs.fds, fs.wc, fs.dir, 0, id);
  }

  // ---------------------------------------------------------------- which index page

  /** An object has just the index pages its data pages need. */
  ghost predicate Tight(g: Geo, o: Obj) {
    0 < g.ixLen && |o.ix| == if |o.data| == 0 then 1 else g.IxOf(|o.data| - 1) + 1
  }

  /** ... or one index page more, which names nothing yet. */
  ghost predicate Spare(g: Geo, o: Obj) {
    && 0 < g.ixLen && |o.chunks| == |o.data| > 0 && |o.chunks[|o.data| - 1]| == g.dps
    && |o.ix| == g.IxOf(|o.data| - 1) + 2 && |o.data| == g.First(|o.ix| - 1)
  }

  /** The next data page is named by the same index page, or is the first that the next one names. */
  lemma NextIx(g: Geo, s: nat)
    requires g.Valid()
    ensures g.IxOf(s + 1) == g.IxOf(s) || (g.IxOf(s + 1) == g.IxOf(s) + 1 && g.First(g.IxOf(s) + 1) == s + 1)
  {
    SlotLaw(g, s);
    SlotLaw(g, s + 1);
    var k := g.IxOf(s);
    if g.SlotOf(s) + 1 < g.Slots(k) {
      SlotUnique(g, s + 1, k, g.SlotOf(s) + 1);
    } else {
      SlotUnique(g, s + 1, k + 1, 0);
    }
  }

  /** The index page an append needs is the last one, or comes right behind it. */
  lemma NeededIx(g: Geo, o: Obj, spix: nat, at: nat)
    requires g.Valid() && ObjShape(g, o) && Tight(g, o) && At(g.dps, |Bytes(o)|, spix, at)
    ensures g.IxOf(spix) == |o.ix| - 1 || g.IxOf(spix) == |o.ix|
    ensures g.IxOf(spix) == |o.ix| ==> at == 0 && |o.data| > 0 && spix == |o.data|
    ensures |o.data| > 0 ==> |Bytes(o)| > 0 && |o.ix| == g.IxOf((|Bytes(o)| - 1) / g.dps) + 1
    ensures |o.data| == 0 ==> |Bytes(o)| == 0 && g.IxOf(spix) == 0
  {
    EndOf(g, o, spix, at);
    FlattenLen(o.chunks, g.dps);
    if |o.data| > 0 {
      var n := |o.data| - 1;
      NextIx(g, n);
      StartIsProduct(g.dps, n);
      DivModUnique(|Bytes(o)| - 1, g.dps, n, |o.chunks[n]| - 1);
    }
  }

  /** What an append leaves when there is no page for the next data page. */
  lemma TightOrSpare(g: Geo, o: Obj, spix: nat, at: nat)
    requires g.Valid() && ObjShape(g, o) && At(g.dps, |Bytes(o)|, spix, at) && at == 0 && |o.ix| - 1 == g.IxOf(spix)
    ensures Tight(g, o) || Spare(g, o)
  {
    EndOf(g, o, spix, at);
    if |o.data| > 0 { NextIx(g, |o.data| - 1); }
  }

  /** Two live pages that claim to be the same index page: such flash represents no directory. */
  lemma TwinsAreNone(g: Geo, P: set<nat>, lu: seq<half>, pages: seq<Page>, p: nat, q: nat, dir: Dir, dirty: set<nat>)
    requires p in P && q in P && p != q && p < |lu| == |pages| && q < |lu| && Live(lu[p]) && IsIx(lu[p])
    requires lu[q] == lu[p] && pages[q].span == pages[p].span
    ensures !Rep(g, P, lu, pages, dir, dirty)
  {
    if Rep(g, P, lu, pages, dir, dirty) { Owners(g, P, lu, pages, dir, dirty, p, q); }
  }

  lemma Owners(g: Geo, P: set<nat>, lu: seq<half>, pages: seq<Page>, dir: Dir, dirty: set<nat>, p: nat, q: nat)
    requires Rep(g, P, lu, pages, dir, dirty) && p in P && q in P && Live(lu[p]) && IsIx(lu[p])
    requires lu[q] == lu[p] && pages[q].span == pages[p].span
    ensures p == q
  {
    assert Owned(lu[p], pages[p].span, p, dir) && Owned(lu[q], pages[q].span, q, dir);
  }

  ghost predicate Twins(fs: Spiffs, p: nat, q: nat)
    reads fs
  {
    && p in fs.P && q in fs.P && p != q && p < |fs.lu| == |fs.pages| && q < |fs.lu|
    && Live(fs.lu[p]) && IsIx(fs.lu[p]) && fs.lu[q] == fs.lu[p] && fs.pages[q].span == fs.pages[p].span
  }

  /** The start of an append to a file with a spare index page: the code works out from the size that a new index
      page is due, and makes it a second time. */
  method IndexTwice(fs: Spiffs, f: nat, id: half) returns (st: Status, ghost p: half, q: half)
    requires Mid(fs, IDLE) && OpenOn(fs, f, id) && id in fs.dir && Spare(fs.g, fs.dir[id])
    modifies fs
    ensures st == OK <==> old(PageToHave(fs))
    ensures st == OK ==> Twins(fs, p as nat, q as nat)
  {
    hide FreeSuffix, CursorOk, LivePages, DeletedPages, FreeBlocks, PageToHave, Spare, Rep, FdsOk, Flatten, PageShape;
    p, q := 0, 0;
    SpareState(fs, f, id);
    var k := fs.g.IxOf(fs.fds[f].size / fs.g.dps);
    var lenIx := fs.g.IxOf((fs.fds[f].size - 1) / fs.g.dps);
    p := fs.dir[id].ix[k];
    st := OK;
    if k > lenIx {
      ghost var mlu, mpages;
      st, q, mlu, mpages := PageAllocate(fs, id + IX_FLAG, k, INDEX_FLAGS.(used := true), [], true);
    }
  }

  lemma SpareState(fs: Spiffs, f: nat, id: half)
    requires Mid(fs, IDLE) && OpenOn(fs, f, id) && id in fs.dir && Spare(fs.g, fs.dir[id])
    ensures 0 < fs.g.dps && 0 < fs.g.ixLen && fs.fds[f].size > 0 && 0 < id < 0x7FFF && fs.Ok()
    ensures var k := fs.g.IxOf(fs.fds[f].size / fs.g.dps);
            && fs.g.IxOf((fs.fds[f].size - 1) / fs.g.dps) < k < 0xFFFF && k < |fs.dir[id].ix|
            && var p := fs.dir[id].ix[k];
               && p as nat in fs.P && p as nat < |fs.lu| == |fs.pages|
               && fs.lu[p] == id + IX_FLAG && fs.pages[p].span == k
  {
    var o := fs.dir[id];
    SpareNeeds(fs.g, o);
    OpenSize(fs, f, id);
    assert IxOk(fs.g, fs.P, fs.lu, fs.pages, {}, id, o, |o.ix| - 1);
  }

  lemma SpareNeeds(g: Geo, o: Obj)
    requires g.Valid() && ObjShape(g, o) && Spare(g, o)
    ensures |Bytes(o)| > 0 && g.IxOf((|Bytes(o)| - 1) / g.dps) + 2 == |o.ix|
    ensures g.IxOf(|Bytes(o)| / g.dps) + 1 == |o.ix|
  {
    FlattenLen(o.chunks, g.dps);
    var n := |o.data| - 1;
    StartIsProduct(g.dps, n);
    StartIsProduct(g.dps, n + 1);
    DivModUnique(|Bytes(o)| - 1, g.dps, n, g.dps - 1);
    DivModUnique(|Bytes(o)|, g.dps, n + 1, 0);
    SlotUnique(g, |o.data|, |o.ix| - 1, 0);
  }

  /** The size in a descriptor is set by the operation under way. */
  method SetSize(fs: Spiffs, f: nat, id: half, size: word)
    requires FdsOk(fs.fds, fs.wc, fs.dir, id, {}) && f < |fs.fds| && IdOf(fs.fds[f].objId) == id
    modifies fs`fds
    ensures FdsOk(fs.fds, fs.wc, fs.dir, id, {}) && SameUser(old(fs.fds), fs.fds)
  {
    ghost var fds := fs.fds;
    fs.fds := fs.fds[f := fs.fds[f].(size := size)];
    forall i | 0 <= i < |fds| ensures FdPix(fs.fds[i], fs.dir) { assert FdPix(fds[i], fs.dir); }
    forall i | 0 <= i < |fds| && IdOf(fds[i].objId) != id ensures FdSize(fs.fds[i], fs.dir) {
      assert FdSize(fds[i], fs.dir);
    }
    forall i | 0 <= i < |fds| && IdOf(fds[i].objId) != 0 ensures FdOff(fs.fds[i], fs.dir, fs.wc) {
      assert FdOff(fds[i], fs.dir, fs.wc);
    }
  }

  /** The last index page of the object, number k, is in the work buffer, and pix is where it is. */
  ghost predicate GrowingAt(fs: Spiffs, id: half, blank: bool, k: nat, pix: half)
    reads fs
  {
    Growing(fs, id, blank) && k == |fs.dir[id].ix| - 1 && pix == fs.dir[id].ix[k]
  }

  /** Nothing but where pages are and how many index pages object `id` has is different. */
  ghost predicate SameBytes(dir: Dir, fds: seq<Fd>, wc: seq<CPage>, fs: Spiffs, id: half)
    reads fs
  {
    && id in dir && id in fs.dir && OnlyContent(dir, fs.dir, id) && SameUser(fds, fs.fds) && fs.wc == wc
    && fs.dir[id].chunks == dir[id].chunks && |fs.dir[id].data| == |dir[id].data| && fs.dir[id].lost == dir[id].lost
  }

  lemma SameBytesTransitive(dir: Dir, fds: seq<Fd>, wc: seq<CPage>, dir': Dir, fds': seq<Fd>, fs: Spiffs, id: half)
    requires OnlyContent(dir, dir', id) && id in dir && id in dir' && SameUser(fds, fds')
    requires dir'[id].chunks == dir[id].chunks && |dir'[id].data| == |dir[id].data| && dir'[id].lost == dir[id].lost
    requires SameBytes(dir', fds', wc, fs, id)
    ensures SameBytes(dir, fds, wc, fs, id)
  {
    ContentTransitive(dir, dir', fs.dir, id);
    SameUserTransitive(fds, fds', fs.fds);
  }

  lemma SameBytesRefl(fs: Spiffs, id: half)
    requires id in fs.dir
    ensures SameBytes(fs.dir, fs.fds, fs.wc, fs, id)
  {
  }

  /** The last index page is loaded. */
  method ViewLast(fs: Spiffs, f: nat, id: half, k: half, ghost blank: bool) returns (st: Status, pix: half)
    requires Mid(fs, IDLE) && NoneDoomed(fs.dir) && OpenOn(fs, f, id) && id in fs.dir
    requires k as nat == |fs.dir[id].ix| - 1 && k < 0xFFFF && blank == (|Bytes(fs.dir[id])| == 0)
    modifies fs`work, fs`curBlk, fs`curEnt, fs`fds
    ensures st == OK && GrowingAt(fs, id, blank, k, pix) && InStock(fs) == old(InStock(fs))
    ensures SameBytes(old(fs.dir), old(fs.fds), old(fs.wc), fs, id)
  {
    hide Rep, FdsOk, Inv, IxPage, Flatten, SameUser, GrowShape;
    ContentRefl(fs.dir, id);
    st, pix := ViewIndex(fs, f, id, k);
    ViewGrows(fs, id, k);
  }

  /** A new last index page is made. */
  method NewLast(fs: Spiffs, f: nat, id: half, k: half, ghost blank: bool) returns (st: Status, pix: half)
    requires Between(fs, id) && OpenOn(fs, f, id)
    requires k as nat == |fs.dir[id].ix| && k < 0xFFFF && |fs.dir[id].data| <= fs.g.First(k)
    modifies fs
    ensures Spacious(st)
    ensures fs.cleaning == old(fs.cleaning)
    ensures if st == OK then GrowingAt(fs, id, blank, k, pix) else Torn(fs, id, {})
    ensures SameBytes(old(fs.dir), old(fs.fds), old(fs.wc), fs, id)
    ensures old(InStock(fs)) >= 1 ==> st == OK && InStock(fs) + 1 >= old(InStock(fs))
  {
    hide Stocked;
    SameBytesRefl(fs, id);
    st, pix := NewIndex(fs, f, id, k, blank);
    if st != OK {
      MidTorn(fs, Op({}, {}, id), id, {});
    }
  }

  /** The first index page of an append: it is there, or a new one is due. */
  method FirstIndex(fs: Spiffs, f: nat, id: half, k: half, spix: nat, at: nat, ghost blank: bool)
    returns (st: Status, pix: half)
    requires Mid(fs, IDLE) && NoneDoomed(fs.dir) && OpenOn(fs, f, id) && id in fs.dir
    requires Tight(fs.g, fs.dir[id]) && At(fs.g.dps, |Bytes(fs.dir[id])|, spix, at)
    requires k as nat == fs.g.IxOf(spix) && blank == (|Bytes(fs.dir[id])| == 0)
    modifies fs
    ensures Spacious(st)
    ensures fs.cleaning == old(fs.cleaning)
    ensures if st == OK then GrowingAt(fs, id, blank, k, pix) else Torn(fs, id, {})
    ensures SameBytes(old(fs.dir), old(fs.fds), old(fs.wc), fs, id)
    ensures blank ==> st == OK && old(PageToHave(fs)) == PageToHave(fs)
    ensures k as nat <= |old(fs.dir)[id].ix|
    ensures var c := if k as nat == |old(fs.dir)[id].ix| then 1 else 0;
            old(InStock(fs)) >= c ==> st == OK && InStock(fs) + c >= old(InStock(fs))
  {
    hide Rep, FdsOk, Inv, IxPage, Flatten, SameUser, GrowShape, Full, FreePages, SomeDeletedBlock, Stocked;
    MidShape(fs, IDLE);
    NeededIx(fs.g, fs.dir[id], spix, at);
    ShapeBounds(fs.g, fs.dir[id]);
    if k == 0 {
      st, pix := ViewLast(fs, f, id, k, blank);
    } else {
      OpenSize(fs, f, id);
      var lenIx := fs.g.IxOf((fs.fds[f].size - 1) / fs.g.dps);
      if k as nat > lenIx {
        BusyMid(fs, id);
        st, pix := NewLast(fs, f, id, k, blank);
      } else {
        st, pix := ViewLast(fs, f, id, k, blank);
      }
    }
  }

  lemma ShapeBounds(g: Geo, o: Obj)
    requires ObjShape(g, o)
    ensures 0 < |o.ix| < 0xFFFF && |o.data| < 0xFFFF && |o.data| <= g.First(|o.ix|) && |Bytes(o)| < 0x8000_0000
    ensures |o.data| == |o.chunks| && |o.name| == NAME_LEN
  {
  }

  lemma FdSizeField(fs: Spiffs, f: nat, id: half)
    requires Mid(fs, IDLE) && OpenOn(fs, f, id) && id in fs.dir
    ensures |Bytes(fs.dir[id])| < 0x8000_0000 && fs.fds[f].size == SizeField(|Bytes(fs.dir[id])|)
  {
    assert FdSize(fs.fds[f], fs.dir);
  }

  lemma OpenSize(fs: Spiffs, f: nat, id: half)
    requires Mid(fs, IDLE) && OpenOn(fs, f, id) && id in fs.dir && 0 < |Bytes(fs.dir[id])|
    ensures fs.fds[f].size == |Bytes(fs.dir[id])|
  {
    assert FdSize(fs.fds[f], fs.dir);
  }

  /** A later index page: the one before is stored, and a new one made. */
  method LaterIndex(fs: Spiffs, f: nat, id: half, blank: bool, prev: half, was: half, k: half, size: word)
    returns (st: Status, pix: half)
    requires GrowingAt(fs, id, blank, prev, was) && OpenOn(fs, f, id) && size == |Bytes(fs.dir[id])| > 0
    requires k as nat == prev as nat + 1
    modifies fs
    ensures Spacious(st)
    ensures fs.cleaning == old(fs.cleaning)
    ensures if st == OK then GrowingAt(fs, id, blank, k, pix) else Torn(fs, id, {})
    ensures SameBytes(old(fs.dir), old(fs.fds), old(fs.wc), fs, id)
    ensures var c := StoreCost(prev as nat, blank) + 1;
            old(InStock(fs)) >= c ==> st == OK && InStock(fs) + c >= old(InStock(fs))
  {
    hide Rep, FdsOk, Inv, IxPage, Flatten, SameUser, GrowShape, Full, Stocked;
    pix := was;
    st := StoreGrown(fs, f, id, blank, prev, was, size, false);
    ghost var dir, fds := fs.dir, fs.fds;
    MeaningIsContent(old(fs.dir), dir, id);
    if st != OK { return; }
    UserOpen(old(fs.fds), fs, f, id);
    SetSize(fs, f, id, size);
    SameUserTransitive(old(fs.fds), fds, fs.fds);
    fds := fs.fds;
    UserOpen(old(fs.fds), fs, f, id);
    MidShape(fs, Op({}, {}, id));
    ShapeBounds(fs.g, dir[id]);
    st, pix := NewLast(fs, f, id, k, blank);
    SameBytesTransitive(old(fs.dir), old(fs.fds), old(fs.wc), dir, fds, fs, id);
  }

  // ---------------------------------------------------------------- the loop

  /** The index page that the next piece needs is in the work buffer. */
  method AppendIndex(fs: Spiffs, f: nat, id: half, blank: bool, first: bool, prev: half, was: half, spix: nat, at: nat,
                     size: word) returns (st: Status, k: half, pix: half)
    requires if first then Mid(fs, IDLE) && id in fs.dir && blank == (|Bytes(fs.dir[id])| == 0)
             else GrowingAt(fs, id, blank, prev, was) && |Bytes(fs.dir[id])| > 0
    requires OpenOn(fs, f, id) && NoneDoomed(fs.dir) && Tight(fs.g, fs.dir[id])
    requires size == |Bytes(fs.dir[id])| && At(fs.g.dps, size, spix, at)
    modifies fs
    ensures Spacious(st)
    ensures fs.cleaning == old(fs.cleaning)
    ensures if st == OK then GrowingAt(fs, id, blank, k, pix) && k as nat == fs.g.IxOf(spix) else Torn(fs, id, {})
    ensures SameBytes(old(fs.dir), old(fs.fds), old(fs.wc), fs, id)
    ensures size == 0 ==> st == OK && k == 0 && old(PageToHave(fs)) == PageToHave(fs)
    ensures 0 < fs.g.ixLen && |old(fs.dir)[id].ix| > 0 && |old(fs.dir)[id].ix| - 1 <= fs.g.IxOf(spix) <= |old(fs.dir)[id].ix|
    ensures var c := TurnCost(fs.g, first, |old(fs.dir)[id].ix| - 1, spix, 1, blank);
            old(InStock(fs)) >= c ==> st == OK && InStock(fs) + c >= old(InStock(fs))
  {
    hide Rep, FdsOk, Inv, IxPage, Flatten, SameUser, GrowShape, Full, FreePages, SomeDeletedBlock, Stocked, Tight, At, ObjShape,
      NoneDoomed, PageToHave, Torn, OnlyContent;
    HeadShape(fs, id, first, blank, prev, was);
    NeededIx(fs.g, fs.dir[id], spix, at);
    ShapeBounds(fs.g, fs.dir[id]);
    SameBytesRefl(fs, id);
    st, pix := OK, was;
    k := fs.g.IxOf(spix);
    if first || k != prev {
      if first {
        st, pix := FirstIndex(fs, f, id, k, spix, at, blank);
      } else {
        st, pix := LaterIndex(fs, f, id, blank, prev, was, k, size);
      }
      if st != OK { return; }
      if k != 0 {
        ghost var fds := fs.fds;
        UserOpen(old(fs.fds), fs, f, id);
        SetSize(fs, f, id, size);
        SameUserTransitive(old(fs.fds), fds, fs.fds);
      }
    }
  }

  lemma HeadShape(fs: Spiffs, id: half, first: bool, blank: bool, prev: half, was: half)
    requires if first then Mid(fs, IDLE) && id in fs.dir else GrowingAt(fs, id, blank, prev, was)
    ensures fs.g.Valid() && id in fs.dir && ObjShape(fs.g, fs.dir[id])
  {
  }

  /** A new data page, or more in the last one. */
  method PutPiece(fs: Spiffs, id: half, blank: bool, k: half, spix: nat, at: nat, size: word, buf: seq<byte>) returns (st: Status)
    requires Growing(fs, id, blank) && k as nat == |fs.dir[id].ix| - 1 && 0 < fs.g.ixLen && k as nat == fs.g.IxOf(spix)
    requires At(fs.g.dps, |Bytes(fs.dir[id])|, spix, at) && 0 < |buf| && at + |buf| <= fs.g.dps && Fits(fs.g, fs.dir[id])
    modifies fs`lu, fs`pages, fs`freeBlocks, fs`surplus, fs`maxErase, fs`eraseCnt, fs`nDel, fs`freeBlk, fs`freeEnt,
             fs`nAlloc, fs`dir, fs`work
    ensures Spacious(st)
    ensures if at == 0 then st == OK <==> old(PageToHave(fs)) else st == OK
    ensures id in fs.dir
    ensures Growing(fs, id, blank) && OnlyContent(old(fs.dir), fs.dir, id) && fs.dir[id].ix == old(fs.dir)[id].ix
    ensures fs.dir[id].lost == old(fs.dir)[id].lost
    ensures st != OK ==> fs.dir == old(fs.dir)
    ensures st == OK ==> Bytes(fs.dir[id]) == Bytes(old(fs.dir)[id]) + buf && Tight(fs.g, fs.dir[id])
    ensures st != OK ==> Tight(fs.g, fs.dir[id]) || Spare(fs.g, fs.dir[id])
    ensures |Bytes(old(fs.dir)[id])| == 0 ==> (st == OK <==> old(PageToHave(fs)))
    ensures var c := if at == 0 then 1 else 0; old(InStock(fs)) >= c ==> st == OK && InStock(fs) + c >= old(InStock(fs))
  {
    hide Mid, Flatten, GrowShape, Full, ObjShape, OnlyContent, At, PageToHave, Stocked;
    GrowingShape(fs, id, blank);
    EndOf(fs.g, fs.dir[id], spix, at);
    ShapeBounds(fs.g, fs.dir[id]);
    if |Bytes(fs.dir[id])| == 0 { AtZero(fs.g.dps, |Bytes(fs.dir[id])|, spix, at); }
    if at == 0 {
      TightOrSpare(fs.g, fs.dir[id], spix, at);
      st := GrowNew(fs, id, blank, k, spix, buf, size);
    } else {
      st := GrowFill(fs, id, blank, k, spix, at, buf, size);
    }
  }

  /** One turn of the loop: the index page, and a new data page or more in the last one.  `broke` tells that
      no data page could be allocated: the loop ends, but what has been written is still to be stored. */
  method AppendStep(fs: Spiffs, f: nat, id: half, blank: bool, first: bool, prev: half, was: half, spix: nat, at: nat,
                    size: word, buf: seq<byte>) returns (st: Status, k: half, pix: half, broke: bool)
    requires if first then Mid(fs, IDLE) && id in fs.dir && blank == (|Bytes(fs.dir[id])| == 0)
             else GrowingAt(fs, id, blank, prev, was) && |Bytes(fs.dir[id])| > 0
    requires OpenOn(fs, f, id) && NoneDoomed(fs.dir) && Tight(fs.g, fs.dir[id])
    requires size == |Bytes(fs.dir[id])| && At(fs.g.dps, size, spix, at)
    requires 0 < |buf| && at + |buf| <= fs.g.dps && Fits(fs.g, fs.dir[id])
    modifies fs
    ensures Spacious(st)
    ensures id in fs.dir && fs.dir[id].lost == old(fs.dir)[id].lost
    ensures fs.cleaning == old(fs.cleaning) && (broke ==> st != OK)
    ensures if st == OK || broke then GrowingAt(fs, id, blank, k, pix) else Torn(fs, id, {})
    ensures OpenOn(fs, f, id) && NoneDoomed(fs.dir)
    ensures Wrote(old(fs.dir), old(fs.fds), old(fs.wc), fs, id, Bytes(old(fs.dir)[id]) + if st == OK then buf else [])
    ensures st == OK ==> Tight(fs.g, fs.dir[id])
    ensures broke ==> Tight(fs.g, fs.dir[id]) || Spare(fs.g, fs.dir[id])
    ensures size == 0 ==> (broke <==> st != OK) && (st == OK <==> old(PageToHave(fs))) && (broke ==> k == 0)
    ensures 0 < fs.g.ixLen && |old(fs.dir)[id].ix| > 0 && |old(fs.dir)[id].ix| - 1 <= fs.g.IxOf(spix) <= |old(fs.dir)[id].ix|
    ensures st == OK ==> k as nat == fs.g.IxOf(spix) == |fs.dir[id].ix| - 1
    ensures var c := TurnCost(fs.g, first, |old(fs.dir)[id].ix| - 1, spix, at, blank);
            old(InStock(fs)) >= c ==> st == OK && InStock(fs) + c >= old(InStock(fs))
  {
    hide Mid, Growing, Flatten, SameUser, OnlyContent, NoneDoomed, Tight, Spare, Torn, PageToHave, At, GrowShape, Full, ObjShape,
      Stocked, Rep, Inv, FdsOk, TurnCost, Geo.Valid;
    broke := false;
    HeadShape(fs, id, first, blank, prev, was);
    ShapeBounds(fs.g, fs.dir[id]);
    TurnSplit(fs.g, first, |fs.dir[id].ix| - 1, spix, at, blank);
    st, k, pix := StepIndex(fs, f, id, blank, first, prev, was, spix, at, size);
    if st != OK { return; }
    ghost var dir := fs.dir;
    st := PutPiece(fs, id, blank, k, spix, at, size, buf);
    broke := st != OK;
    NothingAdded(Bytes(dir[id]));
    StepWrote(old(fs.dir), old(fs.fds), old(fs.wc), dir, fs, id, Bytes(dir[id]) + if broke then [] else buf);
    ContentUndoomed(dir, fs.dir, id);
  }

  /** The index page for the piece; nothing has been written yet. */
  method StepIndex(fs: Spiffs, f: nat, id: half, blank: bool, first: bool, prev: half, was: half, spix: nat, at: nat,
                   size: word) returns (st: Status, k: half, pix: half)
    requires if first then Mid(fs, IDLE) && id in fs.dir && blank == (|Bytes(fs.dir[id])| == 0)
             else GrowingAt(fs, id, blank, prev, was) && |Bytes(fs.dir[id])| > 0
    requires OpenOn(fs, f, id) && NoneDoomed(fs.dir) && Tight(fs.g, fs.dir[id])
    requires size == |Bytes(fs.dir[id])| && At(fs.g.dps, size, spix, at)
    modifies fs
    ensures Spacious(st)
    ensures fs.cleaning == old(fs.cleaning)
    ensures if st == OK then GrowingAt(fs, id, blank, k, pix) && k as nat == fs.g.IxOf(spix) else Torn(fs, id, {})
    ensures id in fs.dir && fs.dir[id].lost == old(fs.dir)[id].lost
    ensures OpenOn(fs, f, id) && NoneDoomed(fs.dir)
    ensures Wrote(old(fs.dir), old(fs.fds), old(fs.wc), fs, id, Bytes(old(fs.dir)[id]) + [])
    ensures Bytes(fs.dir[id]) == Bytes(old(fs.dir)[id])
    ensures size == 0 ==> st == OK && k == 0 && old(PageToHave(fs)) == PageToHave(fs)
    ensures 0 < fs.g.ixLen && |old(fs.dir)[id].ix| > 0 && |old(fs.dir)[id].ix| - 1 <= fs.g.IxOf(spix) <= |old(fs.dir)[id].ix|
    ensures var c := TurnCost(fs.g, first, |old(fs.dir)[id].ix| - 1, spix, 1, blank);
            old(InStock(fs)) >= c ==> st == OK && InStock(fs) + c >= old(InStock(fs))
  {
    hide Mid, Growing, Flatten, SameUser, OnlyContent, NoneDoomed, Tight, Torn, PageToHave, At, GrowShape, Full, ObjShape,
      Stocked, SameBytes, TurnCost;
    st, k, pix := AppendIndex(fs, f, id, blank, first, prev, was, spix, at, size);
    StepBytes(old(fs.dir), old(fs.fds), old(fs.wc), fs, id);
    UserOpen(old(fs.fds), fs, f, id);
    ContentUndoomed(old(fs.dir), fs.dir, id);
    NothingAdded(Bytes(old(fs.dir)[id]));
  }

  lemma NothingAdded(s: seq<byte>)
    ensures s + [] == s
  {
  }

  lemma StepWrote(dir: Dir, fds: seq<Fd>, wc: seq<CPage>, dir': Dir, fs: Spiffs, id: half, bytes: seq<byte>)
    requires OnlyContent(dir, dir', id) && OnlyContent(dir', fs.dir, id) && id in fs.dir && Bytes(fs.dir[id]) == bytes
    requires SameUser(fds, fs.fds) && fs.wc == wc
    ensures Wrote(dir, fds, wc, fs, id, bytes)
  {
    hide OnlyContent, SameUser, Flatten;
    ContentTransitive(dir, dir', fs.dir, id);
  }

  lemma AtZero(dps: nat, pos: nat, spix: nat, at: nat)
    requires At(dps, pos, spix, at) && pos == 0
    ensures at == 0
  {
  }

  lemma StepBytes(dir: Dir, fds: seq<Fd>, wc: seq<CPage>, fs: Spiffs, id: half)
    requires SameBytes(dir, fds, wc, fs, id)
    ensures id in dir && id in fs.dir && OnlyContent(dir, fs.dir, id) && Bytes(fs.dir[id]) == Bytes(dir[id]) && fs.dir[id].lost == dir[id].lost
    ensures SameUser(fds, fs.fds) && fs.wc == wc
  {
  }

  /** The size field in the header page of the object holds 0. */
  ghost predicate Hollow(fs: Spiffs, id: half)
    reads fs
  {
    id in fs.dir && |fs.dir[id].ix| > 0 && fs.dir[id].ix[0] as nat < |fs.pages| && fs.pages[fs.dir[id].ix[0]].size == 0
  }

  /** A size field of 0 stays 0 whatever is written over it. */
  lemma HollowStays(g: Geo, a: Page, b: Page)
    requires PageShape(g, a) && PageShape(g, b) && a.size == 0
    ensures NorPage(g, a, b).size == 0
  {
  }

  lemma HeaderHasSize(g: Geo, P: set<nat>, lu: seq<half>, pages: seq<Page>, dir: Dir, p: nat)
    requires Rep(g, P, lu, pages, dir, {}) && p in P && Live(lu[p]) && IsIx(lu[p]) && pages[p].span == 0
    ensures pages[p].size != 0
  {
    assert Owned(lu[p], pages[p].span, p, dir);
    assert IxOk(g, P, lu, pages, {}, lu[p] - IX_FLAG, dir[lu[p] - IX_FLAG], 0);
  }

  /** Flash with such a header represents no directory at all. */
  lemma HollowIsNone(g: Geo, P: set<nat>, lu: seq<half>, pages: seq<Page>, p: nat, dir: Dir)
    requires p in P && p < |lu| == |pages| && Live(lu[p]) && IsIx(lu[p]) && pages[p].span == 0 && pages[p].size == 0
    ensures !Rep(g, P, lu, pages, dir, {})
  {
    if Rep(g, P, lu, pages, dir, {}) { HeaderHasSize(g, P, lu, pages, dir, p); }
  }

  /** No data page could be allocated for an empty file: its size field is set to 0, not left erased. */
  method StoreNothing(fs: Spiffs, id: half, pix: half) returns (st: Status)
    requires Growing(fs, id, true) && |fs.dir[id].ix| == 1 && pix == fs.dir[id].ix[0]
    modifies fs
    ensures st == OK && fs.cleaning == old(fs.cleaning)
    ensures Torn(fs, id, {}) && Hollow(fs, id) && fs.dir == old(fs.dir) && fs.lu == old(fs.lu)
    ensures fs.freeBlocks == old(fs.freeBlocks) && InStock(fs) == old(InStock(fs))
    ensures SameUser(old(fs.fds), fs.fds) && fs.wc == old(fs.wc)
  {
    hide Rep, FdsOk, Inv, PageIndexCheck, NorPage, GrowShape, Stocked;
    GrowStart(fs, id, pix);
    GrowingChecks(fs, id, true, 0);
    fs.work := fs.work.(size := 0);
    st := PageIndexCheck(fs.g, fs.pages, id + IX_FLAG, pix, 0);
    ghost var s, pages := fs.S(), fs.pages;
    fs.pages := fs.pages[pix := NorPage(fs.g, fs.pages[pix], fs.work)];
    Emptied(fs.g, fs.P, s, fs.dir, id, fs.work);
    WithIxSame(fs.dir, id, 0);
    TellMove(fs, id, 0, pix, 0, IxUpdHdr, fs.dir, {}, id);
    MidTorn(fs, Op({pix as nat, pix as nat}, {}, id), id, {});
  }

  /** The header page once the size 0 is written over it. */
  lemma Emptied(g: Geo, P: set<nat>, s: St, dir: Dir, id: half, work: Page)
    requires Inv(g, P, s) && id in dir && |dir[id].ix| == 1 && PageShape(g, work) && work.size == 0
    requires var pix := dir[id].ix[0];
             && Rep(g, P, s.lu, s.pages, dir, {pix as nat, pix as nat}) && pix as nat < |s.pages| && PageShape(g, s.pages[pix])
             && work.id == s.pages[pix].id && work.span == s.pages[pix].span && work.flags == s.pages[pix].flags
    ensures var pix := dir[id].ix[0];
            var pages := s.pages[pix := NorPage(g, s.pages[pix], work)];
            Inv(g, P, s.(pages := pages)) && Rep(g, P, s.lu, pages, dir, {pix as nat, pix as nat}) && pages[pix].size == 0
  {
    hide FreeSuffix, CursorOk, LivePages, DeletedPages, FreeBlocks, ObjShape, DataPage, IxPage;
    var pix := dir[id].ix[0];
    var p := NorPage(g, s.pages[pix], work);
    var pages := s.pages[pix := p];
    var dirty := {pix as nat, pix as nat};
    AndSelf(work.id);
    AndSelf(work.span);
    assert IxOk(g, P, s.lu, s.pages, dirty, id, dir[id], 0);
    Rewrite(g, P, s, pix as nat, p);
    forall x, k | x in dir && 0 <= k < |dir[x].ix| ensures IxOk(g, P, s.lu, pages, dirty, x, dir[x], k) {
      assert IxOk(g, P, s.lu, s.pages, dirty, x, dir[x], k);
    }
    forall x, t | x in dir && 0 <= t < |dir[x].data| ensures DataOk(g, P, s.lu, pages, x, dir[x], t) {
      assert DataOk(g, P, s.lu, s.pages, x, dir[x], t);
    }
    forall q | q in P && Live(s.lu[q]) ensures Owned(s.lu[q], pages[q].span, q, dir) {
      assert Owned(s.lu[q], s.pages[q].span, q, dir);
    }
  }

  lemma GrowStart(fs: Spiffs, id: half, pix: half)
    requires Growing(fs, id, true) && |fs.dir[id].ix| == 1 && pix == fs.dir[id].ix[0]
    ensures fs.g.Valid() && |fs.pages| == fs.g.Pages() && pix as nat < |fs.pages| && 0 < id < 0x7FFF && 0 !in fs.dir
    ensures PageShape(fs.g, fs.pages[pix]) && PageShape(fs.g, fs.work) && Inv(fs.g, fs.P, fs.S())
    ensures Rep(fs.g, fs.P, fs.lu, fs.pages, fs.dir, {pix as nat, pix as nat})
    ensures FdsOk(fs.fds, fs.wc, fs.dir, id, {})
    ensures var p := fs.pages[pix]; fs.work.id == p.id && fs.work.span == p.span && fs.work.flags == p.flags
  {
    assert IxOk(fs.g, fs.P, fs.lu, fs.pages, {pix as nat, pix as nat}, id, fs.dir[id], 0);
  }

  /** The end of an append: the descriptor gets its size and cursor, and the last index page is stored. */
  method AppendEnd(fs: Spiffs, f: nat, id: half, blank: bool, k: half, pix: half, size: word)
    returns (st: Status, ghost stored: bool)
    requires GrowingAt(fs, id, blank, k, pix) && OpenOn(fs, f, id) && size == |Bytes(fs.dir[id])|
    requires size == 0 ==> blank && k == 0
    modifies fs
    ensures Spacious(st)
    ensures fs.cleaning == old(fs.cleaning)
    ensures if size == 0 then st == OK && !stored && Hollow(fs, id) else st == OK <==> stored
    ensures size == 0 ==> fs.freeBlocks == old(fs.freeBlocks)
    ensures if stored then Mid(fs, IDLE) else Torn(fs, id, {})
    ensures SameMeaning(old(fs.dir), fs.dir) && SameUser(old(fs.fds), fs.fds) && fs.wc == old(fs.wc)
    ensures old(InStock(fs)) >= StoreCost(k as nat, blank) ==> st == OK && InStock(fs) + StoreCost(k as nat, blank) >= old(InStock(fs))
  {
    hide Rep, FdsOk, Inv, IxPage, Flatten, SameUser, GrowShape, Full, Torn, Stocked;
    stored := false;
    GrowingShape(fs, id, blank);
    SetSize(fs, f, id, size);
    ghost var fds := fs.fds;
    SetCursor(fs, f, id, k, pix, Op({}, {}, id));
    SameUserTransitive(old(fs.fds), fds, fs.fds);
    fds := fs.fds;
    UserOpen(old(fs.fds), fs, f, id);
    if size == 0 {
      st := StoreNothing(fs, id, pix);
    } else {
      st := StoreGrown(fs, f, id, blank, k, pix, size, true);
      stored := st == OK;
    }
    SameUserTransitive(old(fs.fds), fds, fs.fds);
  }

  lemma PieceAppended(was: seq<byte>, data: seq<byte>, w: nat, n: nat)
    requires w + n <= |data|
    ensures was + data[..w] + data[w..w + n] == was + data[..w + n]
  {
    assert data[..w] + data[w..w + n] == data[..w + n];
  }

  lemma HeadBounds(fs: Spiffs, id: half, first: bool, blank: bool, k: half, pix: half)
    requires if first then Mid(fs, IDLE) && id in fs.dir else GrowingAt(fs, id, blank, k, pix)
    ensures id in fs.dir && |Bytes(fs.dir[id])| < 0x8000_0000
  {
    HeadShape(fs, id, first, blank, k, pix);
  }

  lemma AppendStart(fs: Spiffs, id: half, data: seq<byte>)
    requires id in fs.dir
    ensures Wrote(fs.dir, fs.fds, fs.wc, fs, id, Bytes(fs.dir[id]) + data[..0])
  {
    assert Bytes(fs.dir[id]) + data[..0] == Bytes(fs.dir[id]);
  }

  lemma AppendEnded(g: Geo, dir: Dir, dir': Dir, id: half)
    requires SameMeaning(dir, dir') && NoneDoomed(dir) && id in dir
    ensures id in dir' && dir'[id].lost == dir[id].lost && NoneDoomed(dir') && (Tight(g, dir[id]) ==> Tight(g, dir'[id]))
    ensures (Spare(g, dir[id]) ==> Spare(g, dir'[id])) && (Fits(g, dir[id]) ==> Fits(g, dir'[id]))
  {
  }

  /** One turn of the loop, on the piece that is due. */
  method AppendTurn(fs: Spiffs, f: nat, id: half, blank: bool, offset: nat, data: seq<byte>, written: nat, prev: half,
                    was: half, spix: nat, at: nat, ghost bytes: seq<byte>, ghost stock: int)
    returns (st: Status, k: half, pix: half, broke: bool, now: nat)
    requires if written == 0 then Mid(fs, IDLE) && id in fs.dir && blank == (|Bytes(fs.dir[id])| == 0)
             else GrowingAt(fs, id, blank, prev, was)
    requires OpenOn(fs, f, id) && NoneDoomed(fs.dir) && Tight(fs.g, fs.dir[id]) && Fits(fs.g, fs.dir[id])
    requires written < |data| && offset == |bytes| && Bytes(fs.dir[id]) == bytes + data[..written]
    requires At(fs.g.dps, offset + written, spix, at)
    requires Paid(fs.g, offset, |data|, written, spix, |fs.dir[id].ix| - 1, at, InStock(fs), stock) && blank == (offset == 0)
    modifies fs
    ensures Spacious(st)
    ensures id in fs.dir && fs.dir[id].lost == old(fs.dir)[id].lost
    ensures fs.cleaning == old(fs.cleaning) && (broke ==> st != OK) && written <= now <= |data| && (st != OK <==> now == written)
    ensures if st == OK || broke then GrowingAt(fs, id, blank, k, pix) else Torn(fs, id, {})
    ensures OpenOn(fs, f, id) && NoneDoomed(fs.dir)
    ensures Wrote(old(fs.dir), old(fs.fds), old(fs.wc), fs, id, bytes + data[..now])
    ensures st == OK ==> Tight(fs.g, fs.dir[id])
    ensures broke ==> Tight(fs.g, fs.dir[id]) || Spare(fs.g, fs.dir[id])
    ensures offset + written == 0 ==> (broke <==> st != OK) && (st == OK <==> old(PageToHave(fs))) && (broke ==> k == 0)
    ensures st == OK && now < |data| ==> At(fs.g.dps, offset + now, spix + 1, 0)
    ensures stock >= AppendNeed(fs.g, offset, |data|) ==> st == OK
    ensures st == OK ==> |fs.dir[id].ix| > 0 && Paid(fs.g, offset, |data|, now, spix + 1, |fs.dir[id].ix| - 1, 0, InStock(fs), stock)
  {
    hide Mid, OnlyContent, SameUser, NoneDoomed, Flatten, Tight, Spare, Torn, PageToHave, Stocked, TurnCost, Paid, AppendNeed,
      GrowShape, EndIx, Fits, ObjShape;
    ghost var ix, left := |fs.dir[id].ix| - 1, InStock(fs);
    TurnStarts(fs, id, offset, written, blank, prev, was);
    var toWrite := if |data| - written < fs.g.dps - at then |data| - written else fs.g.dps - at;
    HeadBounds(fs, id, written == 0, blank, prev, was);
    PieceAppended(bytes, data, written, toWrite);
    PieceAppended(bytes, data, written, 0);
    NothingLeft(data, written);
    st, k, pix, broke := AppendStep(fs, f, id, blank, written == 0, prev, was, spix, at, offset + written,
                                    data[written..written + toWrite]);
    now := if st != OK then written else written + toWrite;
    CanPay(fs.g, offset, |data|, written, spix, ix, at, left, stock);
    if st == OK { StillPaid(fs.g, offset, |data|, written, now, spix, ix, at, left, InStock(fs), stock); }
  }

  lemma TurnStarts(fs: Spiffs, id: half, offset: nat, written: nat, blank: bool, prev: half, was: half)
    requires if written == 0 then Mid(fs, IDLE) && id in fs.dir else GrowingAt(fs, id, blank, prev, was)
    requires Tight(fs.g, fs.dir[id]) && |Bytes(fs.dir[id])| == offset + written
    ensures 0 < fs.g.dps && 0 < fs.g.hdrLen && 0 < fs.g.ixLen && |fs.dir[id].ix| > 0
    ensures written == 0 ==> |fs.dir[id].ix| == EndIx(fs.g, offset) + 1
  {
    hide Mid, Growing, Flatten, Tight, EndIx, ObjShape;
    HeadShape(fs, id, written == 0, blank, prev, was);
    ShapeBounds(fs.g, fs.dir[id]);
    if written == 0 { LastIx(fs, id, offset); }
  }

  /** Of the stock that was there at the start, enough is left for what is to come. */
  ghost predicate Paid(g: Geo, offset: nat, n: nat, written: nat, spix: nat, k: nat, at: nat, left: int, stock: int) {
    && 0 < g.ixLen && 0 < g.dps && 0 < n
    && if written == 0 then left == stock
       else
         var end := (offset + n - 1) / g.dps;
         && at == 0 && (if written < n then spix <= end else spix == end + 1 && k == g.IxOf(end))
         && (stock >= AppendNeed(g, offset, n) ==> left + AppendNeed(g, offset, n) >= stock + AppendAhead(g, spix, end, k, offset == 0))
  }

  lemma PaidStart(g: Geo, offset: nat, n: nat, spix: nat, k: nat, at: nat, stock: int)
    requires 0 < g.ixLen && 0 < g.dps && 0 < n
    ensures Paid(g, offset, n, 0, spix, k, at, stock, stock)
  {
  }

  /** A turn can be paid for ... */
  lemma CanPay(g: Geo, offset: nat, n: nat, written: nat, spix: nat, k: nat, at: nat, left: int, stock: int)
    requires Paid(g, offset, n, written, spix, k, at, left, stock) && written < n && 0 < g.hdrLen
    requires At(g.dps, offset + written, spix, at) && k <= g.IxOf(spix) <= k + 1
    requires written == 0 ==> k == EndIx(g, offset)
    ensures stock >= AppendNeed(g, offset, n) ==> left >= TurnCost(g, written == 0, k, spix, at, offset == 0)
  {
    if written == 0 {
      FirstTurnPays(g, offset, n, spix, at, k);
    } else {
      TurnPays(g, spix, (offset + n - 1) / g.dps, k, offset == 0);
    }
  }

  /** ... and what is to come afterwards as well. */
  lemma StillPaid(g: Geo, offset: nat, n: nat, written: nat, now: nat, spix: nat, k: nat, at: nat, left: int, left': int, stock: int)
    requires Paid(g, offset, n, written, spix, k, at, left, stock) && written < now <= n && 0 < g.hdrLen
    requires At(g.dps, offset + written, spix, at) && k <= g.IxOf(spix) <= k + 1
    requires written == 0 ==> k == EndIx(g, offset)
    requires now < n ==> At(g.dps, offset + now, spix + 1, 0)
    requires now == n ==> at + (n - written) <= g.dps
    requires left >= TurnCost(g, written == 0, k, spix, at, offset == 0) ==> left' + TurnCost(g, written == 0, k, spix, at, offset == 0) >= left
    ensures Paid(g, offset, n, now, spix + 1, g.IxOf(spix), 0, left', stock)
  {
    CanPay(g, offset, n, written, spix, k, at, left, stock);
    var end := (offset + n - 1) / g.dps;
    if now < n {
      AtDiv(g.dps, offset + now, spix + 1, 0);
      DivMono(g.dps, offset + now, offset + n - 1);
    } else {
      LastOf(g.dps, offset + written, n - written, spix, at);
    }
    if written == 0 {
      FirstTurnPays(g, offset, n, spix, at, k);
    } else {
      TurnPays(g, spix, end, k, offset == 0);
    }
  }

  lemma LastOf(dps: nat, pos: nat, n: nat, spix: nat, at: nat)
    requires At(dps, pos, spix, at) && 0 < n && at + n <= dps
    ensures (pos + n - 1) / dps == spix
  {
    StartIsProduct(dps, spix);
    DivModUnique(pos + n - 1, dps, spix, at + n - 1);
  }

  /** In the end there is enough to store the last index page. */
  lemma LastPaid(g: Geo, offset: nat, n: nat, spix: nat, k: nat, at: nat, left: int, stock: int)
    requires Paid(g, offset, n, n, spix, k, at, left, stock)
    ensures stock >= AppendNeed(g, offset, n) ==> left + AppendNeed(g, offset, n) >= stock + StoreCost(k, offset == 0)
  {
  }

  /** The last index page of a file that an append begins with. */
  lemma LastIx(fs: Spiffs, id: half, offset: nat)
    requires Mid(fs, IDLE) && id in fs.dir && Tight(fs.g, fs.dir[id]) && offset == |Bytes(fs.dir[id])|
    ensures 0 < fs.g.dps && 0 < fs.g.hdrLen && 0 < fs.g.ixLen && |fs.dir[id].ix| == EndIx(fs.g, offset) + 1
  {
    hide Rep, FdsOk, Inv, Flatten, ObjShape, At, Tight;
    MidShape(fs, IDLE);
    AtStart(fs.g.dps, offset);
    NeededIx(fs.g, fs.dir[id], offset / fs.g.dps, offset % fs.g.dps);
    TightCount(fs.g, fs.dir[id]);
  }

  lemma TightCount(g: Geo, o: Obj)
    requires Tight(g, o)
    ensures |o.data| == 0 ==> |o.ix| == 1
  {
  }

  /** The loop of spiffs_object_append.  `ended` tells that the last index page is in the work buffer and still to be stored;
      st is the error that ended the loop, if any. */
  method AppendPieces(fs: Spiffs, f: nat, id: half, offset: nat, data: seq<byte>)
    returns (st: Status, ended: bool, k: half, pix: half, written: nat)
    requires Mid(fs, IDLE) && NoneDoomed(fs.dir) && OpenOn(fs, f, id) && id in fs.dir && Tight(fs.g, fs.dir[id]) && Fits(fs.g, fs.dir[id])
    requires 0 < |data| && offset == |Bytes(fs.dir[id])|
    modifies fs
    ensures Spacious(st) && fs.cleaning == old(fs.cleaning) && NoneDoomed(fs.dir)
    ensures id in fs.dir && fs.dir[id].lost == old(fs.dir)[id].lost
    ensures written <= |data| && (st == OK <==> ended && written == |data|)
    ensures Wrote(old(fs.dir), old(fs.fds), old(fs.wc), fs, id, Bytes(old(fs.dir)[id]) + data[..written])
    ensures if ended then OpenOn(fs, f, id) && GrowingAt(fs, id, offset == 0, k, pix) else Torn(fs, id, {})
    ensures ended ==> Tight(fs.g, fs.dir[id]) || (st != OK && Spare(fs.g, fs.dir[id]))
    ensures offset == 0 && written > 0 ==> old(PageToHave(fs))
    ensures offset == 0 && written == 0 ==> ended && k == 0 && !old(PageToHave(fs))
    ensures old(InStock(fs)) >= AppendNeed(fs.g, offset, |data|) ==>
              st == OK && InStock(fs) + AppendNeed(fs.g, offset, |data|) >= old(InStock(fs)) + StoreCost(k as nat, offset == 0)
  {
    hide Mid, OnlyContent, SameUser, NoneDoomed, Flatten, Growing, Tight, Spare, At, Spacious, Torn, PageToHave, Stocked,
      TurnCost, AppendNeed, AppendAhead, Paid, StoreCost, EndIx, ObjShape, DirOk, Rep, Inv, FdsOk;
    OkSpacious();
    ghost var stock := InStock(fs);
    st, ended := OK, true;
    MidShape(fs, IDLE);
    AtStart(fs.g.dps, offset);
    ghost var was := Bytes(fs.dir[id]);
    AppendStart(fs, id, data);
    LastIx(fs, id, offset);
    var blank := offset == 0;
    var spix: nat, pageOffs: nat := offset / fs.g.dps, offset % fs.g.dps;
    written, k, pix := 0, 0, 0;
    PaidStart(fs.g, offset, |data|, spix, |fs.dir[id].ix| - 1, pageOffs, stock);
    while st == OK && written < |data|
      invariant written <= |data| && fs.cleaning == old(fs.cleaning) && NoneDoomed(fs.dir) && OpenOn(fs, f, id)
      invariant st == OK || written < |data|
      invariant id in fs.dir && fs.dir[id].lost == old(fs.dir)[id].lost
      invariant Wrote(old(fs.dir), old(fs.fds), old(fs.wc), fs, id, was + data[..written])
      invariant if st == OK && written == 0 then Mid(fs, IDLE) else GrowingAt(fs, id, blank, k, pix)
      invariant st == OK && written == 0 ==> PageToHave(fs) == old(PageToHave(fs))
      invariant offset == 0 && written > 0 ==> old(PageToHave(fs))
      invariant offset == 0 && st != OK && written == 0 ==> k == 0 && !old(PageToHave(fs))
      invariant Spacious(st) && (Tight(fs.g, fs.dir[id]) || (st != OK && Spare(fs.g, fs.dir[id])))
      invariant st == OK && written < |data| ==> At(fs.g.dps, offset + written, spix, pageOffs)
      invariant st == OK ==> |fs.dir[id].ix| > 0 && Paid(fs.g, offset, |data|, written, spix, |fs.dir[id].ix| - 1, pageOffs, InStock(fs), stock)
      invariant stock >= AppendNeed(fs.g, offset, |data|) ==> st == OK
      decreases |data| - written, st == OK
    {
      ghost var dir, fds := fs.dir, fs.fds;
      var broke, now;
      st, k, pix, broke, now := AppendTurn(fs, f, id, blank, offset, data, written, k, pix, spix, pageOffs, was, stock);
      WroteTransitive(old(fs.dir), old(fs.fds), old(fs.wc), dir, fds, fs, id, was + data[..now]);
      ended := st == OK || broke;
      if !ended { return; }
      pageOffs := 0;
      spix := spix + 1;
      written := now;
    }
    if st == OK { LastPaid(fs.g, offset, |data|, spix, k as nat, pageOffs, InStock(fs), stock); }
  }

  /** The loop of spiffs_object_append and the storing of the last index page.  The first `done` bytes of data have
      been appended; `stored` tells that the index pages on flash are up to date, too.  An empty file for which there
      is no page is left with a size field of 0. */
  method AppendLoop(fs: Spiffs, f: nat, id: half, offset: nat, data: seq<byte>)
    returns (st: Status, ghost stored: bool, ghost done: nat)
    requires Mid(fs, IDLE) && NoneDoomed(fs.dir) && OpenOn(fs, f, id) && id in fs.dir && Tight(fs.g, fs.dir[id]) && Fits(fs.g, fs.dir[id])
    requires 0 < |data| && offset == |Bytes(fs.dir[id])|
    modifies fs
    ensures Spacious(st)
    ensures id in fs.dir && fs.dir[id].lost == old(fs.dir)[id].lost
    ensures fs.cleaning == old(fs.cleaning) && done <= |data| && (st == OK <==> stored && done == |data|)
    ensures if stored then Mid(fs, IDLE) else Torn(fs, id, {})
    ensures NoneDoomed(fs.dir)
    ensures Wrote(old(fs.dir), old(fs.fds), old(fs.wc), fs, id, Bytes(old(fs.dir)[id]) + data[..done])
    ensures st == OK ==> Tight(fs.g, fs.dir[id])
    ensures stored ==> Tight(fs.g, fs.dir[id]) || Spare(fs.g, fs.dir[id])
    ensures offset == 0 ==> if old(PageToHave(fs)) then done > 0 else done == 0 && st != OK && Hollow(fs, id)
    ensures old(InStock(fs)) >= AppendNeed(fs.g, offset, |data|) ==>
              st == OK && InStock(fs) + AppendNeed(fs.g, offset, |data|) >= old(InStock(fs))
  {
    hide Mid, OnlyContent, SameUser, NoneDoomed, Flatten, Growing, Tight, Spare, Spacious, Torn, PageToHave, Hollow, Stocked,
      AppendNeed, StoreCost, Fits;
    stored := false;
    ghost var was := Bytes(fs.dir[id]);
    var ended, k, pix, written;
    st, ended, k, pix, written := AppendPieces(fs, f, id, offset, data);
    done := written;
    if !ended { return; }
    ghost var dir, fds := fs.dir, fs.fds;
    HeadBounds(fs, id, false, offset == 0, k, pix);
    var st2;
    st2, stored := AppendEnd(fs, f, id, offset == 0, k, pix, offset + written);
    IntactWrote(old(fs.dir), old(fs.fds), old(fs.wc), dir, fds, fs, id, was + data[..written]);
    AppendEnded(fs.g, dir, fs.dir, id);
    if st2 != OK { st := st2; }
  }

  /** spiffs_object_append to an empty file, but not at its start: the header page names no data page yet, which ends
      the append at once. */
  method AppendGap(fs: Spiffs, f: nat, id: half, offset: nat) returns (st: Status)
    requires Mid(fs, IDLE) && NoneDoomed(fs.dir) && OpenOn(fs, f, id) && id in fs.dir
    requires |Bytes(fs.dir[id])| == 0 && 0 < offset < fs.g.dps
    modifies fs`work, fs`curBlk, fs`curEnt, fs`fds
    ensures st == ERR_INDEX_REF_FREE && Mid(fs, IDLE) && SameUser(old(fs.fds), fs.fds)
  {
    hide Rep, FdsOk, Inv, SameUser, NoneDoomed, Full;
    GapShape(fs, id, offset);
    var pix;
    st, pix := ViewIndex(fs, f, id, 0);
    st := PageDataCheck(fs.g, fs.pages, id, fs.work.slots[offset / fs.g.dps], offset / fs.g.dps);
  }

  lemma GapShape(fs: Spiffs, id: half, offset: nat)
    requires Mid(fs, IDLE) && id in fs.dir && |Bytes(fs.dir[id])| == 0 && 0 < offset < fs.g.dps
    ensures fs.g.Valid() && |fs.pages| == fs.g.Pages() && |fs.dir[id].ix| > 0 && offset / fs.g.dps == 0 && 0 < fs.g.Cap()
    ensures id < IX_FLAG && |fs.dir[id].name| == NAME_LEN
    ensures IxPage(fs.g, id, fs.dir[id], 0).slots[0] == FREE_PIX
  {
    hide Rep, FdsOk, Inv, Flatten, IxPage;
    assert fs.Ok();
    GapPages(fs.g, fs.P, fs.S());
    MidShape(fs, IDLE);
    ShapeBounds(fs.g, fs.dir[id]);
    EmptyHasNone(fs.g, fs.dir[id]);
    NoSlots(fs.g, id, fs.dir[id]);
    DivModUnique(offset, fs.g.dps, 0, offset);
  }

  lemma GapPages(g: Geo, P: set<nat>, s: St)
    requires Inv(g, P, s)
    ensures |s.pages| == g.Pages() && 0 < g.Cap()
  {
  }

  lemma NoSlots(g: Geo, id: half, o: Obj)
    requires |o.data| == 0 && id < IX_FLAG && |o.name| == NAME_LEN && |Bytes(o)| < UNDEFINED_LEN && 0 < g.Cap() && g.Valid()
    ensures IxPage(g, id, o, 0).slots[0] == FREE_PIX
  {
  }

  lemma EmptyHasNone(g: Geo, o: Obj)
    requires ObjShape(g, o) && |Bytes(o)| == 0
    ensures |o.data| == 0
  {
    if |o.data| > 0 { HasBytes(g, o); }
  }

  /** A write behind the start of an empty file. */
  ghost predicate Gap(dir: Dir, id: half, offset: nat) { id in dir && |Bytes(dir[id])| == 0 && offset > 0 }

  /** What spiffs_object_append does once there is room. */
  method AppendGranted(fs: Spiffs, f: nat, id: half, from: nat, gap: bool, data: seq<byte>)
    returns (st: Status, ghost stored: bool, ghost done: nat)
    requires Mid(fs, IDLE) && NoneDoomed(fs.dir) && !fs.cleaning
    requires OpenOn(fs, f, id) && id in fs.dir && Tight(fs.g, fs.dir[id]) && Fits(fs.g, fs.dir[id]) && gap == Gap(fs.dir, id, from)
    requires 0 < |data| && if gap then from < fs.g.dps else from == |Bytes(fs.dir[id])|
    modifies fs
    ensures if gap then st == ERR_INDEX_REF_FREE && stored && done == 0 else Spacious(st)
    ensures id in fs.dir && fs.dir[id].lost == old(fs.dir)[id].lost
    ensures !fs.cleaning && done <= |data| && (st == OK <==> stored && done == |data|)
    ensures if stored then Mid(fs, IDLE) else Torn(fs, id, {})
    ensures NoneDoomed(fs.dir)
    ensures Wrote(old(fs.dir), old(fs.fds), old(fs.wc), fs, id, Bytes(old(fs.dir)[id]) + data[..done])
    ensures st == OK ==> Tight(fs.g, fs.dir[id])
    ensures stored ==> Tight(fs.g, fs.dir[id]) || Spare(fs.g, fs.dir[id])
    ensures !gap && from == 0 ==> if old(PageToHave(fs)) then done > 0 else done == 0 && st != OK && Hollow(fs, id)
    ensures !gap && old(InStock(fs)) >= AppendNeed(fs.g, from, |data|) ==>
              st == OK && InStock(fs) + AppendNeed(fs.g, from, |data|) >= old(InStock(fs))
  {
    hide Mid, OnlyContent, SameUser, Flatten, Torn, Hollow, PageToHave, Spacious, Tight, Spare, Stocked, AppendNeed;
    if gap {
      stored, done := true, 0;
      st := AppendGap(fs, f, id, from);
      AppendStart(fs, id, data);
      GapWrote(fs, old(fs.fds), id, data);
    } else {
      st, stored, done := AppendLoop(fs, f, id, from, data);
    }
  }

  lemma GapWrote(fs: Spiffs, fds: seq<Fd>, id: half, data: seq<byte>)
    requires id in fs.dir && SameUser(fds, fs.fds)
    ensures Wrote(fs.dir, fds, fs.wc, fs, id, Bytes(fs.dir[id]) + data[..0])
  {
    assert Bytes(fs.dir[id]) + data[..0] == Bytes(fs.dir[id]);
  }

  /** spiffs_object_append with something to write.  The first `done` bytes of `data` are put behind the file, all of
      them on success; an offset beyond the end of a file that is not empty counts as its end.  `stored` tells that
      flash and directory agree; when they do not, at most this object is torn, unless no page at all is free.
      An append to an empty file that finds no page behind gc_check leaves the size field of its header at 0.
      When as many pages are sure to be had as the append takes, all of `data` is appended. */
  method ObjectAppend(fs: Spiffs, f: nat, id: half, offset: nat, data: seq<byte>, room: nat)
    returns (st: Status, ghost stored: bool, ghost done: nat)
    requires Mid(fs, IDLE) && NoneDoomed(fs.dir) && !fs.cleaning && 0 < room
    requires OpenOn(fs, f, id) && id in fs.dir && Tight(fs.g, fs.dir[id]) && Fits(fs.g, fs.dir[id])
    requires 0 < |data| && offset >= |Bytes(fs.dir[id])| && (|Bytes(fs.dir[id])| == 0 ==> offset < fs.g.dps)
    modifies fs
    ensures id in fs.dir && fs.dir[id].lost == old(fs.dir)[id].lost
    ensures Spacious(st) || (st == ERR_INDEX_REF_FREE && Gap(old(fs.dir), id, offset))
    ensures !fs.cleaning && done <= |data| && (st == OK <==> stored && done == |data|)
    ensures if stored then Mid(fs, IDLE) else Survived(fs, id, {})
    ensures NoneDoomed(fs.dir)
    ensures Wrote(old(fs.dir), old(fs.fds), old(fs.wc), fs, id, Bytes(old(fs.dir)[id]) + data[..done])
    ensures st == OK ==> Tight(fs.g, fs.dir[id])
    ensures stored ==> Tight(fs.g, fs.dir[id]) || Spare(fs.g, fs.dir[id])
    ensures old(Hopeless(fs, WithMeta(fs.g, |data|))) ==> st == ERR_FULL && stored && done == 0 && unchanged(fs)
    ensures Gap(old(fs.dir), id, offset) ==> done == 0
    ensures Gap(old(fs.dir), id, offset) && old(Quiet(fs, WithMeta(fs.g, |data|))) ==> stored && st == ERR_INDEX_REF_FREE
    ensures |Bytes(old(fs.dir)[id])| == 0 && offset == 0 && old(Quiet(fs, WithMeta(fs.g, |data|))) ==>
              if old(Exhausted(fs)) then done == 0 && st != OK && Hollow(fs, id) else done > 0
    ensures var need := AppendNeed(fs.g, |Bytes(old(fs.dir)[id])|, |data|);
            var sure := old(Assured(fs, WithMeta(fs.g, |data|)));
            !Gap(old(fs.dir), id, offset) && sure > 0 && sure >= need ==> st == OK && InStock(fs) + need >= sure
  {
    hide Mid, OnlyContent, SameMeaning, SameUser, Flatten, Torn, Hopeless, Hollow, Exhausted, Spare, Tight, Fits, NoneDoomed,
      FreePages, SomeDeletedBlock, Stalled, Assured, Stocked, AppendNeed, RunsEnded, FlashOk, FreeSuffix, CursorOk, Rep;
    stored, done := false, 0;
    FdSizeField(fs, f, id);
    ClipOffset(fs, f, id, offset);
    var from := if offset > fs.fds[f].size then fs.fds[f].size else offset;
    var gap := fs.fds[f].size == UNDEFINED_LEN && from > 0;
    ghost var runs;
    st, runs := GcCheck(fs, WithMeta(fs.g, |data|), room);
    ghost var dir, fds := fs.dir, fs.fds;
    IntactMeans(old(fs.dir), old(fs.fds), old(fs.wc), fs, f, id);
    AppendEnded(fs.g, old(fs.dir), dir, id);
    assert Bytes(old(fs.dir)[id]) + data[..0] == Bytes(old(fs.dir)[id]);
    if st != OK {
      stored := Mid(fs, IDLE);
      return;
    }
    st, stored, done := AppendGranted(fs, f, id, from, gap, data);
    WroteTransitive(old(fs.dir), old(fs.fds), old(fs.wc), dir, fds, fs, id, Bytes(old(fs.dir)[id]) + data[..done]);
  }

  lemma ClipOffset(fs: Spiffs, f: nat, id: half, offset: nat)
    requires Mid(fs, IDLE) && OpenOn(fs, f, id) && id in fs.dir && offset >= |Bytes(fs.dir[id])|
    requires |Bytes(fs.dir[id])| == 0 ==> offset < fs.g.dps
    ensures fs.fds[f].size == SizeField(|Bytes(fs.dir[id])|) && |Bytes(fs.dir[id])| < UNDEFINED_LEN
    ensures fs.g.dps < UNDEFINED_LEN && 0 < fs.g.dps
  {
    FdSizeField(fs, f, id);
    MulMono(1, fs.g.blocks * fs.g.ppb, fs.g.dps);
  }
}
