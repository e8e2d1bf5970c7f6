/** Cutting a file down to nothing: spiffs_object_truncate with size 0, which empties an object or removes it. */
module Truncate {
  import opened Nor
  import opened Layout
  import opened Chunks
  import opened Image
  import opened Core
  import opened Descriptors
  import opened State
  import opened Alloc
  import opened Stock
  import opened Events
  import opened Objects
  import opened Gc
  import opened Collect
  import opened Modify
  import opened Append
  import opened Hydro

  // ---------------------------------------------------------------- descriptors meanwhile

  /** What descriptors agree on with the directory while object `id` gets shorter. */
  ghost predicate CutFds(fds: seq<Fd>, wc: seq<CPage>, dir: Dir, id: half) {
    FdsPix(fds, dir, {}) && FdsSize(fds, dir, id, {}) && CacheRefs(fds, wc) && FdsOff(fds, dir, wc, id)
  }

  /** Every other object is what it was. */
  ghost predicate OthersSame(dir: Dir, dir': Dir, id: half) {
    dir'.Keys == dir.Keys && forall x :: x in dir && x != id ==> dir'[x] == dir[x]
  }

  /** Data pages of `id` do not concern descriptors. */
  lemma CutFrame(fds: seq<Fd>, wc: seq<CPage>, dir: Dir, dir': Dir, id: half)
    requires CutFds(fds, wc, dir, id) && 0 !in dir && id in dir && id < IX_FLAG
    requires OthersSame(dir, dir', id) && dir'[id].ix == dir[id].ix
    ensures CutFds(fds, wc, dir', id)
  {
    PixFrame(fds, dir, dir', {});
    OpenHaveIds(fds, dir, {});
    SizeFrame(fds, dir, dir', id, id, {});
    OthersOff(fds, fds, wc, wc, dir, dir', id);
  }

  /** Offsets in other files stay within them. */
  lemma OthersOff(fds: seq<Fd>, fds': seq<Fd>, wc: seq<CPage>, wc': seq<CPage>, dir: Dir, dir': Dir, id: half)
    requires FdsOff(fds, dir, wc, id) && CacheRefs(fds, wc) && OthersSame(dir, dir', id) && id != 0
    requires OthersKeep(fds, fds', id) && GivenUp(wc, wc', id) && id < IX_FLAG
    requires forall i :: 0 <= i < |fds| && IdOf(fds[i].objId) == id ==> IdOf(fds'[i].objId) == id || fds'[i].fileNbr == 0
    ensures FdsOff(fds', dir', wc', id)
  {
    forall i | 0 <= i < |fds'| && IdOf(fds'[i].objId) != id ensures FdOff(fds'[i], dir', wc') {
      if IdOf(fds[i].objId) != id { assert FdOff(fds[i], dir, wc); }
    }
  }

  /** An open descriptor on object `id` refers to cache page w. */
  ghost predicate Names(fds: seq<Fd>, i: nat, id: half, w: nat) {
    RefersBy(fds, i, w) && IdOf(fds[i].objId) == id
  }

  /** The write pages of object `id` that begin at `least` or behind it and that one of its descriptors refers to are
      given up, and no other; a descriptor refers to the page it did as long as that is there. */
  ghost predicate PagesDropped(fds: seq<Fd>, fds': seq<Fd>, wc: seq<CPage>, wc': seq<CPage>, id: half, least: nat) {
    && |wc'| == |wc|
    && (forall w :: 0 <= w < |wc| ==>
                      wc'[w] == if wc[w].WrPage? && wc[w].offset >= least && exists i :: Names(fds, i, id, w) then Other else wc[w])
    && RefsLeft(fds, fds', wc')
  }

  ghost predicate RefsLeft(fds: seq<Fd>, fds': seq<Fd>, wc: seq<CPage>) {
    && |fds'| == |fds|
    && forall i :: 0 <= i < |fds| ==>
                     fds'[i].cache == match fds[i].cache
                                      case NoCache => NoCache
                                      case Cached(w) => if w < |wc| && wc[w].WrPage? then Cached(w) else NoCache
  }

  /** Every descriptor that is open on the object is at its start. */
  ghost predicate Rewound(fds: seq<Fd>, id: half) {
    forall i :: 0 <= i < |fds| && fds[i].fileNbr != 0 && IdOf(fds[i].objId) == id ==> fds[i].fdoffset == 0
  }

  /** Every descriptor refers to the cache page it did. */
  ghost predicate SameRefs(fds: seq<Fd>, fds': seq<Fd>) {
    |fds'| == |fds| && forall i :: 0 <= i < |fds| ==> fds'[i].cache == fds[i].cache
  }

  /** The pages a removal, or a truncation to nothing, takes. */
  lemma TakenNames(fds: seq<Fd>, fds': seq<Fd>, wc: seq<CPage>, wc': seq<CPage>, dir: Dir, ev: Event, id: half)
    requires FdsPix(fds, dir, {}) && CacheRefs(fds, wc) && 0 < id < 0x7FFF && |fds'| == |fds|
    requires var taken := Taken(fds, wc, ev, id + IX_FLAG, 0, if ev == IxDel then 0 else UNDEFINED_LEN, |fds|);
             WithoutPages(wc, wc', taken) && forall i :: 0 <= i < |fds'| ==> fds'[i].cache == CacheAfter(fds[i].cache, taken)
    ensures PagesDropped(fds, fds', wc, wc', id, if ev == IxDel then 0 else 2)
  {
    var size: word, least := if ev == IxDel then 0 else UNDEFINED_LEN, if ev == IxDel then 0 else 2;
    forall w | 0 <= w < |wc|
      ensures w in Taken(fds, wc, ev, id + IX_FLAG, 0, size, |fds|) <==>
                wc[w].WrPage? && wc[w].offset >= least && exists i :: Names(fds, i, id, w)
    {
      if w in Taken(fds, wc, ev, id + IX_FLAG, 0, size, |fds|) {
        var i :| 0 <= i < |fds| && DropsCache(fds[i], wc, ev, id + IX_FLAG, 0, size) && fds[i].cache.slot == w;
        assert Names(fds, i, id, w);
      }
      if exists i :: Names(fds, i, id, w) {
        var i: nat :| Names(fds, i, id, w);
        assert FdPix(fds[i], dir);
        assert wc[w].WrPage? && wc[w].offset >= least ==> DropsCache(fds[i], wc, ev, id + IX_FLAG, 0, size);
      }
    }
  }

  lemma OthersKeepRefl(fds: seq<Fd>, wc: seq<CPage>, id: half)
    ensures OthersKeep(fds, fds, id) && GivenUp(wc, wc, id)
  {
  }

  /** The descriptors after the last index page, number k > 0, has been deleted. */
  method TellDrop(fs: Spiffs, id: half, k: half, pix: half, ghost dir: Dir)
    requires CutFds(fs.fds, fs.wc, dir, id) && 0 !in dir && id in dir && 0 < id < 0x7FFF
    requires k as nat == |dir[id].ix| - 1 > 0 && fs.dir == dir[id := dir[id].(ix := dir[id].ix[..k])]
    modifies fs`fds, fs`wc
    ensures CutFds(fs.fds, fs.wc, fs.dir, id) && fs.wc == old(fs.wc) && OthersKeep(old(fs.fds), fs.fds, id)
    ensures SameUser(old(fs.fds), fs.fds) && SameHdr(old(fs.fds), fs.fds)
  {
    ghost var fds := fs.fds;
    ObjectEvent(fs, IxDel, id + IX_FLAG, k, pix, 0);
    EventAfterDropIx(fds, fs.fds, fs.wc, dir, {}, id + IX_FLAG, k, pix);
    OpenHaveIds(fds, dir, {});
    SizeFrame(fds, dir, fs.dir, id, id, {});
    EventKeepsSize(fds, fs.fds, fs.wc, fs.dir, IxDel, id + IX_FLAG, k, pix, id, {});
    OthersOff(fds, fs.fds, fs.wc, fs.wc, dir, fs.dir, id);
  }

  ghost predicate SameHdr(fds: seq<Fd>, fds': seq<Fd>) {
    |fds'| == |fds| && forall i :: 0 <= i < |fds| ==> fds'[i].hdrPix == fds[i].hdrPix
  }

  /** The descriptors after the header of the shorter object has moved to page q. */
  method TellCut(fs: Spiffs, id: half, q: half, newSize: word, ev: Event, ghost dir: Dir)
    requires CutFds(fs.fds, fs.wc, dir, id) && 0 !in dir && id in dir && 0 < id < 0x7FFF
    requires |dir[id].ix| > 0 && ev != IxDel && fs.dir == WithIx(dir, id, 0, q)
    requires |Bytes(dir[id])| < UNDEFINED_LEN && newSize == SizeField(|Bytes(dir[id])|)
    modifies fs`fds, fs`wc
    ensures CutFds(fs.fds, fs.wc, fs.dir, id) && OthersKeep(old(fs.fds), fs.fds, id) && GivenUp(old(fs.wc), fs.wc, id)
    ensures if newSize == UNDEFINED_LEN
            then FdsOk(fs.fds, fs.wc, fs.dir, 0, {}) && PagesDropped(old(fs.fds), fs.fds, old(fs.wc), fs.wc, id, 2) && Rewound(fs.fds, id)
            else fs.wc == old(fs.wc) && SameRefs(old(fs.fds), fs.fds)
    ensures SameFiles(old(fs.fds), fs.fds)
  {
    hide Taken, PagesDropped, Rewound, Flatten, FdsSize;
    ghost var fds, wc := fs.fds, fs.wc;
    ObjectEvent(fs, ev, id + IX_FLAG, 0, q, newSize);
    EventAfterMove(fds, fs.fds, wc, dir, {}, ev, id + IX_FLAG, 0, q, newSize);
    OpenHaveIds(fds, dir, {});
    SizeFrame(fds, dir, fs.dir, id, id, {});
    EventSetsSize(fds, fs.fds, wc, dir, fs.dir, ev, id + IX_FLAG, q, newSize, {});
    forall i | 0 <= i < |fds|
      ensures fs.fds[i].objId == fds[i].objId && fs.fds[i].fileNbr == fds[i].fileNbr && fs.fds[i].flags == fds[i].flags
    {
      assert Bare(fs.fds[i]).objId == fs.fds[i].objId;
    }
    OthersOff(fds, fs.fds, wc, fs.wc, dir, fs.dir, id);
    if newSize == UNDEFINED_LEN {
      EmptyOff(fds, fs.fds, wc, fs.wc, dir, fs.dir, ev, id, q);
      TakenNames(fds, fs.fds, wc, fs.wc, dir, ev, id);
    }
    OpenHaveIds(fs.fds, fs.dir, {});
    SizeFrame(fs.fds, fs.dir, fs.dir, 0, id, {});
  }

  /** Offsets in an emptied file are 0. */
  lemma EmptyOff(fds: seq<Fd>, fds': seq<Fd>, wc: seq<CPage>, wc': seq<CPage>, dir: Dir, dir': Dir, ev: Event, id: half, q: half)
    requires FdsPix(fds, dir, {}) && FdsOff(fds', dir', wc', id) && ev != IxDel && id < IX_FLAG
    requires FdsAfter(fds, fds', wc, ev, id + IX_FLAG, 0, q, UNDEFINED_LEN)
    ensures FdsOff(fds', dir', wc', 0) && Rewound(fds', id)
  {
    forall i | 0 <= i < |fds'| && IdOf(fds'[i].objId) == id ensures FdOff(fds'[i], dir', wc') && (fds'[i].fileNbr != 0 ==> fds'[i].fdoffset == 0) {
      assert FdPix(fds[i], dir);
      assert Bare(fds'[i]).fdoffset == fds'[i].fdoffset;
    }
    forall i | 0 <= i < |fds'| ensures FdOff(fds'[i], dir', wc') {}
  }

  // ---------------------------------------------------------------- the object meanwhile

  /** The header page on flash is right, but for the size. */
  ghost predicate HdrStale(g: Geo, pages: seq<Page>, id: half, o: Obj) {
    && ObjShape(g, o) && id < IX_FLAG && o.ix[0] as nat < |pages|
    && pages[o.ix[0]] == IxPage(g, id, o, 0).(size := pages[o.ix[0]].size)
  }

  /** Object `id` is being cut down; descriptor f points to its header. */
  ghost predicate Cut(fs: Spiffs, f: nat, id: half, dirty: set<nat>)
    reads fs
  {
    && id in fs.dir && 0 < id < 0x7FFF && |fs.dir[id].ix| > 0 && fs.dir[id].lost == {}
    && fs.Ok() && Rep(fs.g, fs.P, fs.lu, fs.pages, fs.dir, dirty) && CutFds(fs.fds, fs.wc, fs.dir, id)
    && f < |fs.fds| && IdOf(fs.fds[f].objId) == id && fs.fds[f].hdrPix == fs.dir[id].ix[0]
  }

  /** ... and nothing is in the work buffer. */
  ghost predicate Held(fs: Spiffs, f: nat, id: half)
    reads fs
  {
    && id in fs.dir && |fs.dir[id].ix| > 0
    && Cut(fs, f, id, {fs.dir[id].ix[0] as nat}) && HdrStale(fs.g, fs.pages, id, fs.dir[id])
    && fs.g.First(|fs.dir[id].ix| - 1) <= |fs.dir[id].data|
  }

  /** ... or its last index page, number k, is. */
  ghost predicate CutLoaded(fs: Spiffs, f: nat, id: half, k: nat)
    reads fs
  {
    && id in fs.dir && k == |fs.dir[id].ix| - 1 && ObjShape(fs.g, fs.dir[id])
    && var o := fs.dir[id];
       && Cut(fs, f, id, {o.ix[0] as nat, o.ix[k] as nat})
       && fs.work == IxPage(fs.g, id, o, k).(size := fs.work.size)
       && (k > 0 ==> HdrStale(fs.g, fs.pages, id, o))
       && fs.g.First(k) <= |o.data|
  }

  /** Only pages of object `id` have been deleted, and no other page has changed. */
  ghost predicate OnlyCut(P: set<nat>, lu: seq<half>, pages: seq<Page>, lu': seq<half>, pages': seq<Page>, id: half) {
    && |lu'| == |lu| == |pages'| == |pages|
    && forall p :: p in P && p < |lu| ==>
                     || (lu'[p] == lu[p] && (OfObj(lu[p], id) || pages'[p] == pages[p]))
                     || (OfObj(lu[p], id) && lu'[p] == DELETED_ID)
  }

  lemma OnlyCutTransitive(P: set<nat>, lu: seq<half>, pages: seq<Page>, lu': seq<half>, pages': seq<Page>,
                          lu'': seq<half>, pages'': seq<Page>, id: half)
    requires OnlyCut(P, lu, pages, lu', pages', id) && OnlyCut(P, lu', pages', lu'', pages'', id)
    ensures OnlyCut(P, lu, pages, lu'', pages'', id)
  {
  }

  lemma OneCut(P: set<nat>, lu: seq<half>, pages: seq<Page>, p: half, id: half, page: Page)
    requires |lu| == |pages| && p as nat < |lu| && OfObj(lu[p], id)
    ensures OnlyCut(P, lu, pages, lu[p := DELETED_ID], pages[p := page], id)
    ensures OnlyCut(P, lu, pages, lu, pages[p := page], id)
    ensures OnlyCut(P, lu, pages, lu, pages, id)
  {
  }

  /** The object without its last data page. */
  function Shorter(o: Obj): Obj {
    if |o.data| == 0 || |o.chunks| == 0 then o
    else o.(data := o.data[..|o.data| - 1], chunks := o.chunks[..|o.chunks| - 1])
  }

  lemma ShorterShape(g: Geo, o: Obj)
    requires g.Valid() && ObjShape(g, o) && |o.data| > 0 && g.IxOf(|o.data| - 1) == |o.ix| - 1 && o.lost == {}
    ensures ObjShape(g, Shorter(o)) && g.First(|o.ix| - 1) <= |o.data| - 1
    ensures |Bytes(Shorter(o))| + |o.chunks[|o.data| - 1]| == |Bytes(o)|
  {
    SlotLaw(g, |o.data| - 1);
    assert Flatten(o.chunks) == Flatten(o.chunks[..|o.data| - 1]) + o.chunks[|o.data| - 1];
  }

  /** The index pages of the shorter object. */
  lemma ShorterIx(g: Geo, id: half, o: Obj)
    requires g.Valid() && ObjShape(g, o) && id < IX_FLAG && |o.data| > 0 && g.IxOf(|o.data| - 1) == |o.ix| - 1 && o.lost == {}
    ensures ObjShape(g, Shorter(o)) && g.First(|o.ix| - 1) <= |o.data| - 1
    ensures |Bytes(Shorter(o))| + |o.chunks[|o.data| - 1]| == |Bytes(o)|
    ensures var k, slot := |o.ix| - 1, g.SlotOf(|o.data| - 1);
            && k < 0xFFFF && slot < g.Cap() && slot == (if k == 0 then |o.data| - 1 else slot)
            && IxPage(g, id, o, k).slots[slot] == o.data[|o.data| - 1]
            && IxPage(g, id, Shorter(o), k) == IxPage(g, id, o, k).(slots := IxPage(g, id, o, k).slots[slot := FREE_PIX],
                                                                    size := IxPage(g, id, Shorter(o), k).size)
            && (k > 0 ==> IxPage(g, id, Shorter(o), 0) == IxPage(g, id, o, 0).(size := IxPage(g, id, Shorter(o), 0).size))
  {
    hide Flatten, Full;
    var s, q := |o.data| - 1, o.data[|o.data| - 1];
    ShorterShape(g, o);
    SlotLaw(g, s);
    SlotNames(g, id, o, s);
    assert Shorter(o).data + [q] == o.data;
    SlotsForAppend(g, Shorter(o).data, q, |o.ix| - 1);
    SlotsForAppend(g, Shorter(o).data, q, 0);
    assert SlotAt(g, Shorter(o).data, |o.ix| - 1, g.SlotOf(s)) == FREE_PIX;
    assert SlotsFor(g, Shorter(o).data, |o.ix| - 1) == SlotsFor(g, o.data, |o.ix| - 1)[g.SlotOf(s) := FREE_PIX];
  }

  // ---------------------------------------------------------------- steps

  /** Descriptor f remembers the index page that is being cut. */
  method CutCursor(fs: Spiffs, f: nat, id: half, k: half, pix: half, size: word)
    requires f < |fs.fds| && CutFds(fs.fds, fs.wc, fs.dir, id) && IdOf(fs.fds[f].objId) == id
    requires id in fs.dir && k as nat < |fs.dir[id].ix| && fs.dir[id].ix[k] == pix
    modifies fs`fds
    ensures CutFds(fs.fds, fs.wc, fs.dir, id) && SameHdr(old(fs.fds), fs.fds) && OthersKeep(old(fs.fds), fs.fds, id)
    ensures SameUser(old(fs.fds), fs.fds)
  {
    ghost var fds := fs.fds;
    fs.fds := fs.fds[f := fs.fds[f].(curPix := pix, curSpix := k, size := size)];
    forall i | 0 <= i < |fds| ensures FdPix(fs.fds[i], fs.dir) { assert FdPix(fds[i], fs.dir); }
    forall i | 0 <= i < |fds| && IdOf(fds[i].objId) != id ensures FdSize(fs.fds[i], fs.dir) {
      assert FdSize(fds[i], fs.dir);
    }
    forall i | 0 <= i < |fds| && IdOf(fds[i].objId) != id ensures FdOff(fs.fds[i], fs.dir, fs.wc) {
      assert FdOff(fds[i], fs.dir, fs.wc);
    }
  }

  /** The index page a cut starts from is where the lookup, or the descriptor, says. */
  method LocateCut(fs: Spiffs, f: nat, id: half, k: half) returns (st: Status, pix: half)
    requires Held(fs, f, id) && k as nat == |fs.dir[id].ix| - 1
    modifies fs`curBlk, fs`curEnt
    ensures Spacious(st)
    ensures Held(fs, f, id) && st == OK && pix == fs.dir[id].ix[k]
  {
    st := OK;
    if k == 0 {
      pix := fs.fds[f].hdrPix;
    } else {
      st, pix := FindIx(fs, id, k, {fs.dir[id].ix[0] as nat});
    }
  }

  lemma HeldPage(fs: Spiffs, f: nat, id: half, k: half)
    requires Held(fs, f, id) && k as nat == |fs.dir[id].ix| - 1
    ensures ObjShape(fs.g, fs.dir[id]) && id < IX_FLAG && fs.dir[id].ix[k] as nat < |fs.pages|
    ensures var p := fs.pages[fs.dir[id].ix[k]];
            && p == IxPage(fs.g, id, fs.dir[id], k).(size := p.size) && PageShape(fs.g, p)
            && ValidateIx(p, id + IX_FLAG, k) == OK
  {
    var o := fs.dir[id];
    assert IxOk(fs.g, fs.P, fs.lu, fs.pages, {o.ix[0] as nat}, id, o, k);
    if k > 0 {
      assert IxOk(fs.g, fs.P, fs.lu, fs.pages, {o.ix[0] as nat}, id, o, 0);
      assert o.ix[k] != o.ix[0];
    }
  }

  /** The last index page is put into the work buffer. */
  method LoadCut(fs: Spiffs, f: nat, id: half, k: half, size: word) returns (st: Status, pix: half)
    requires Held(fs, f, id) && k as nat == |fs.dir[id].ix| - 1
    modifies fs`curBlk, fs`curEnt, fs`work, fs`fds
    ensures st == OK && CutLoaded(fs, f, id, k) && pix == fs.dir[id].ix[k] && OthersKeep(old(fs.fds), fs.fds, id)
    ensures SameUser(old(fs.fds), fs.fds)
  {
    hide Flatten, Full, FreeSuffix, CursorOk, LivePages, DeletedPages, FreeBlocks;
    st, pix := LocateCut(fs, f, id, k);
    HeldPage(fs, f, id, k);
    fs.work := fs.pages[pix];
    st := ValidateIx(fs.work, id + IX_FLAG, k);
    CutCursor(fs, f, id, k, pix, size);
    RepWeaken(fs.g, fs.P, fs.lu, fs.pages, fs.dir, {fs.dir[id].ix[0] as nat}, {fs.dir[id].ix[0] as nat, pix as nat});
  }

  /** Deleting the last data page, as the directory sees it. */
  method DropData(fs: Spiffs, id: half, s: nat, src: half, ghost dirty: set<nat>) returns (st: Status)
    requires fs.Ok() && Rep(fs.g, fs.P, fs.lu, fs.pages, fs.dir, dirty) && id in fs.dir && |fs.dir[id].data| > 0 && fs.dir[id].lost == {}
    requires s == |fs.dir[id].data| - 1 && src == fs.dir[id].data[s] && 0 < fs.g.ixLen
    requires fs.g.IxOf(|fs.dir[id].data| - 1) < |fs.dir[id].ix| && fs.dir[id].ix[0] as nat in dirty
    requires fs.dir[id].ix[fs.g.IxOf(|fs.dir[id].data| - 1)] as nat in dirty
    modifies fs`lu, fs`pages, fs`nDel, fs`nAlloc, fs`dir
    ensures Spacious(st)
    ensures fs.Ok() && Rep(fs.g, fs.P, fs.lu, fs.pages, fs.dir, dirty)
    ensures fs.dir == WithObj(old(fs.dir), id, Shorter(old(fs.dir)[id])) && st == OK
    ensures OnlyCut(fs.P, old(fs.lu), old(fs.pages), fs.lu, fs.pages, id)
    ensures IxKept(old(fs.pages), fs.pages, old(fs.dir)[id])
  {
    hide FreeSuffix, CursorOk, ObjShape, IxOk, DataOk, Owned, OnlyCut, IxKept;
    Dropped(fs.g, fs.P, fs.lu, fs.pages, fs.dir, dirty, id, s);
    st := PageDataCheck(fs.g, fs.pages, id, src, s);
    PageDelete(fs, src);
    fs.dir := WithObj(fs.dir, id, Shorter(fs.dir[id]));
  }

  lemma Dropped(g: Geo, P: set<nat>, lu: seq<half>, pages: seq<Page>, dir: Dir, dirty: set<nat>, id: half, s: nat)
    requires FlashOk(g, P, lu, pages) && Rep(g, P, lu, pages, dir, dirty) && id in dir && s == |dir[id].data| - 1 && dir[id].lost == {}
    requires g.IxOf(s) < |dir[id].ix| && dir[id].ix[0] as nat in dirty && dir[id].ix[g.IxOf(s)] as nat in dirty
    ensures var src := dir[id].data[s];
            && src as nat in P && src as nat < |lu| && Live(lu[src])
            && PageDataCheck(g, pages, id, src, s) == OK
            && var lu', pages' := lu[src := DELETED_ID], pages[src := Deleted(pages[src])];
               && Rep(g, P, lu', pages', WithObj(dir, id, Shorter(dir[id])), dirty)
               && OnlyCut(P, lu, pages, lu', pages', id) && IxKept(pages, pages', dir[id])
  {
    hide Flatten, Full, PageDataCheck, OnlyCut;
    var o, src := dir[id], dir[id].data[s];
    assert DataOk(g, P, lu, pages, id, o, s);
    DataCheckOk(g, P, lu, pages, dir, dirty, id, s);
    OneCut(P, lu, pages, src, id, Deleted(pages[src]));
    DropDataStep(g, P, lu, pages, dir, dirty, lu[src := DELETED_ID], pages[src := Deleted(pages[src])], id);
    forall k | 0 <= k < |o.ix| ensures o.ix[k] != src { assert IxOk(g, P, lu, pages, dirty, id, o, k); }
  }

  lemma CutShape(fs: Spiffs, f: nat, id: half, dirty: set<nat>)
    requires Cut(fs, f, id, dirty)
    ensures fs.g.Valid() && 0 !in fs.dir && id in fs.dir && ObjShape(fs.g, fs.dir[id]) && |fs.pages| == fs.g.Pages()
    ensures PageShape(fs.g, fs.work)
  {
  }

  lemma CutLoadedShape(fs: Spiffs, f: nat, id: half, k: nat)
    requires CutLoaded(fs, f, id, k)
    ensures fs.g.Valid() && 0 !in fs.dir && id in fs.dir && ObjShape(fs.g, fs.dir[id]) && k == |fs.dir[id].ix| - 1
    ensures 0 < id < 0x7FFF && fs.Ok() && CutFds(fs.fds, fs.wc, fs.dir, id)
    ensures Rep(fs.g, fs.P, fs.lu, fs.pages, fs.dir, {fs.dir[id].ix[0] as nat, fs.dir[id].ix[k] as nat})
    ensures fs.work == IxPage(fs.g, id, fs.dir[id], k).(size := fs.work.size)
    ensures k > 0 ==> HdrStale(fs.g, fs.pages, id, fs.dir[id])
    ensures fs.g.First(k) <= |fs.dir[id].data| && fs.dir[id].lost == {}
    ensures f < |fs.fds| && IdOf(fs.fds[f].objId) == id && fs.fds[f].hdrPix == fs.dir[id].ix[0]
  {
  }

  /** Data pages that index page k names: which page, and which slot. */
  lemma LastIx(g: Geo, o: Obj, k: nat)
    requires g.Valid() && ObjShape(g, o) && k == |o.ix| - 1 && g.First(k) < |o.data|
    ensures g.IxOf(|o.data| - 1) == k
  {
    var s := |o.data| - 1;
    SlotLaw(g, s);
    var k' := g.IxOf(s);
    if k' < k { FirstMono(g, k', k); }
    if k' > k { FirstMono(g, k + 1, k'); }
  }

  /** The last data page of the object is deleted, and its slot in the work buffer cleared. */
  method CutData(fs: Spiffs, f: nat, id: half, k: half, s: nat) returns (st: Status)
    requires CutLoaded(fs, f, id, k) && s == |fs.dir[id].data| - 1 && fs.g.First(k) < |fs.dir[id].data|
    modifies fs`lu, fs`pages, fs`nDel, fs`nAlloc, fs`dir, fs`work
    ensures Spacious(st)
    ensures CutLoaded(fs, f, id, k) && st == OK
    ensures fs.dir == WithObj(old(fs.dir), id, Shorter(old(fs.dir)[id]))
    ensures OnlyCut(fs.P, old(fs.lu), old(fs.pages), fs.lu, fs.pages, id)
  {
    hide Rep, FdsPix, FdsSize, FdsOff, CacheRefs, FlashOk, FreeSuffix, CursorOk, IxPage, Flatten, Full, Inv;
    CutLoadedShape(fs, f, id, k);
    ghost var dir, pages, o := fs.dir, fs.pages, fs.dir[id];
    LastIx(fs.g, o, k);
    ShorterIx(fs.g, id, o);
    var slot := if k == 0 then s else fs.g.SlotOf(s);
    var src := fs.work.slots[slot];
    fs.work := fs.work.(slots := fs.work.slots[slot := FREE_PIX]);
    st := DropData(fs, id, s, src, {o.ix[0] as nat, o.ix[k] as nat});
    CutFrame(fs.fds, fs.wc, dir, fs.dir, id);
  }

  /** Deleting the last index page, as the directory sees it. */
  lemma IxDropped(g: Geo, P: set<nat>, lu: seq<half>, pages: seq<Page>, dir: Dir, dirty: set<nat>, id: half, k: nat)
    requires FlashOk(g, P, lu, pages) && Rep(g, P, lu, pages, dir, dirty) && id in dir && k == |dir[id].ix| - 1 > 0
    requires |dir[id].data| <= g.First(k) && dir[id].ix[0] as nat < |pages|
    ensures var pix := dir[id].ix[k];
            && pix as nat in P && pix as nat < |lu| && Live(lu[pix]) && pix != dir[id].ix[0]
            && PageIndexCheck(g, pages, id + IX_FLAG, pix, k) == OK
            && var lu', pages' := lu[pix := DELETED_ID], pages[pix := Deleted(pages[pix])];
               && Rep(g, P, lu', pages', WithObj(dir, id, dir[id].(ix := dir[id].ix[..k])), dirty - {pix as nat})
               && OnlyCut(P, lu, pages, lu', pages', id) && pages'[dir[id].ix[0]] == pages[dir[id].ix[0]]
  {
    var o, pix := dir[id], dir[id].ix[k];
    assert IxOk(g, P, lu, pages, dirty, id, o, k) && IxOk(g, P, lu, pages, dirty, id, o, 0);
    IndexCheckOk(g, P, lu, pages, dir, dirty, id, k);
    OneCut(P, lu, pages, pix, id, Deleted(pages[pix]));
    DropIxStep(g, P, lu, pages, dir, dirty, lu[pix := DELETED_ID], pages[pix := Deleted(pages[pix])], id);
  }

  lemma InvFlash(fs: Spiffs)
    requires fs.Ok()
    ensures FlashOk(fs.g, fs.P, fs.lu, fs.pages)
  {
  }

  /** The last index page, which names no data page any more, is deleted, and the descriptors told. */
  method CutIndex(fs: Spiffs, f: nat, id: half, k: half, pix: half) returns (st: Status)
    requires CutLoaded(fs, f, id, k) && k > 0 && pix == fs.dir[id].ix[k] && |fs.dir[id].data| == fs.g.First(k)
    modifies fs`lu, fs`pages, fs`nDel, fs`nAlloc, fs`dir, fs`fds, fs`wc
    ensures Spacious(st)
    ensures Held(fs, f, id) && st == OK && |fs.dir[id].ix| == k as nat && Tight(fs.g, fs.dir[id])
    ensures fs.dir == WithObj(old(fs.dir), id, old(fs.dir)[id].(ix := old(fs.dir)[id].ix[..k]))
    ensures OnlyCut(fs.P, old(fs.lu), old(fs.pages), fs.lu, fs.pages, id)
    ensures fs.wc == old(fs.wc) && OthersKeep(old(fs.fds), fs.fds, id) && SameUser(old(fs.fds), fs.fds)
  {
    hide Rep, FdsPix, FdsSize, FdsOff, CacheRefs, Inv, Flatten, Full, OnlyCut, IxPage, SameUser, Tight, HdrStale, ObjShape;
    CutLoadedShape(fs, f, id, k);
    InvFlash(fs);
    ghost var dir, o, pages := fs.dir, fs.dir[id], fs.pages;
    ShapeBounds(fs.g, o);
    StaleBounds(fs.g, fs.pages, id, o);
    IxDropped(fs.g, fs.P, fs.lu, fs.pages, dir, {o.ix[0] as nat, pix as nat}, id, k);
    assert {o.ix[0] as nat, pix as nat} - {pix as nat} == {o.ix[0] as nat};
    st := PageIndexCheck(fs.g, fs.pages, id + IX_FLAG, pix, k);
    PageDelete(fs, pix);
    fs.dir := WithObj(dir, id, o.(ix := o.ix[..k]));
    TellDrop(fs, id, k, pix, dir);
    CutTight(fs.g, o, k);
    StaleKept(fs.g, pages, fs.pages, id, o, k);
  }

  lemma StaleBounds(g: Geo, pages: seq<Page>, id: half, o: Obj)
    requires HdrStale(g, pages, id, o)
    ensures |o.ix| > 0 && o.ix[0] as nat < |pages|
  {
  }

  lemma StaleKept(g: Geo, pages: seq<Page>, pages': seq<Page>, id: half, o: Obj, k: nat)
    requires HdrStale(g, pages, id, o) && |pages'| == |pages| && pages'[o.ix[0]] == pages[o.ix[0]]
    requires k == |o.ix| - 1 > 0 && |o.data| == g.First(k)
    ensures HdrStale(g, pages', id, o.(ix := o.ix[..k])) && ObjShape(g, o.(ix := o.ix[..k]))
  {
  }

  /** An object that has just lost an index page has as many as it needs. */
  lemma CutTight(g: Geo, o: Obj, k: nat)
    requires g.Valid() && k == |o.ix| - 1 > 0 && |o.data| == g.First(k)
    ensures Tight(g, o.(ix := o.ix[..k])) && g.First(k - 1) <= |o.data| && 0 < |o.data|
  {
    FirstMono(g, k - 1, k);
    SlotUnique(g, |o.data| - 1, k - 1, g.Slots(k - 1) - 1);
  }

  /** Setting what descriptor f remembers of the header. */
  method CutHdrPix(fs: Spiffs, f: nat, id: half, q: half, ghost busy: half)
    requires f < |fs.fds| && IdOf(fs.fds[f].objId) == id && id != 0 && CutFds(fs.fds, fs.wc, fs.dir, id)
    requires id in fs.dir && |fs.dir[id].ix| > 0 && fs.dir[id].ix[0] == q
    requires busy == 0 ==> FdsOk(fs.fds, fs.wc, fs.dir, 0, {})
    modifies fs`fds
    ensures CutFds(fs.fds, fs.wc, fs.dir, id) && (busy == 0 ==> FdsOk(fs.fds, fs.wc, fs.dir, 0, {}))
    ensures OthersKeep(old(fs.fds), fs.fds, id) && fs.fds == old(fs.fds)[f := old(fs.fds)[f].(hdrPix := q)]
  {
    ghost var fds := fs.fds;
    fs.fds := fs.fds[f := fs.fds[f].(hdrPix := q)];
    forall i | 0 <= i < |fds| ensures FdPix(fs.fds[i], fs.dir) { assert FdPix(fds[i], fs.dir); }
    forall i | 0 <= i < |fds| && (busy == 0 || IdOf(fds[i].objId) != id)
      ensures IdOf(fds[i].objId) != 0 ==> FdSize(fs.fds[i], fs.dir) && FdOff(fs.fds[i], fs.dir, fs.wc)
    {
      if IdOf(fds[i].objId) != 0 { assert FdSize(fds[i], fs.dir) && FdOff(fds[i], fs.dir, fs.wc); }
    }
    forall i | 0 <= i < |fds| && IdOf(fds[i].objId) == 0
      ensures FdSize(fs.fds[i], fs.dir) == FdSize(fds[i], fs.dir)
      ensures FdOff(fs.fds[i], fs.dir, fs.wc) == FdOff(fds[i], fs.dir, fs.wc)
    {
    }
  }

  /** A header that only lacks its size passes the check before it is stored. */
  lemma PatchedValid(g: Geo, p: Page, id: half, o: Obj, size: word)
    requires ObjShape(g, o) && id < IX_FLAG && HdrPatched(p, None, size) == IxPage(g, id, o, 0)
    ensures ValidateIx(p, id + IX_FLAG, 0) == OK
  {
  }

  lemma CutTorn(fs: Spiffs, f: nat, id: half, dirty: set<nat>)
    requires Cut(fs, f, id, dirty) && dirty <= IxSet(fs.dir[id])
    ensures Torn(fs, id, {})
  {
    RepWeaken(fs.g, fs.P, fs.lu, fs.pages, fs.dir, dirty, IxSet(fs.dir[id]));
  }

  lemma DroppedStays(fds: seq<Fd>, fds1: seq<Fd>, fds2: seq<Fd>, wc: seq<CPage>, wc': seq<CPage>, id: half, least: nat)
    requires PagesDropped(fds, fds1, wc, wc', id, least) && SameRefs(fds1, fds2)
    ensures PagesDropped(fds, fds2, wc, wc', id, least)
  {
  }

  /** The header is patched and goes to a new page. */
  method MoveCutHdr(fs: Spiffs, f: nat, id: half, fromWork: bool, size: word) returns (st: Status, q: half)
    requires id in fs.dir && |fs.dir[id].ix| > 0 && Cut(fs, f, id, {fs.dir[id].ix[0] as nat})
    requires ObjShape(fs.g, fs.dir[id]) && size == SizeField(|Bytes(fs.dir[id])|) && fs.fds[f].hdrPix as nat < |fs.pages|
    requires HdrPatched(if fromWork then fs.work else fs.pages[fs.fds[f].hdrPix], None, size) == IxPage(fs.g, id, fs.dir[id], 0)
    modifies fs`lu, fs`pages, fs`freeBlocks, fs`surplus, fs`maxErase, fs`eraseCnt, fs`nDel, fs`freeBlk, fs`freeEnt,
             fs`nAlloc, fs`work, fs`dir
    ensures Spacious(st) && fs.Ok()
    ensures st == OK ==> Rep(fs.g, fs.P, fs.lu, fs.pages, fs.dir, {}) && fs.dir == WithIx(old(fs.dir), id, 0, q)
    ensures st != OK ==> Cut(fs, f, id, {old(fs.dir)[id].ix[0] as nat}) && fs.dir == old(fs.dir)
    ensures old(InStock(fs)) >= 1 ==> st == OK && InStock(fs) + 1 >= old(InStock(fs))
  {
    hide Rep, CutFds, Inv, IxPage, Flatten, PageShape, Spacious, PageToHave, Stocked;
    OkSpacious();
    if InStock(fs) >= 1 { StockGives(fs); }
    q := 0;
    var hdr := fs.fds[f].hdrPix;
    CutShape(fs, f, id, {hdr as nat});
    PatchedValid(fs.g, if fromWork then fs.work else fs.pages[hdr], id, fs.dir[id], size);
    st := PrepareHdr(fs, id, hdr, fromWork, None, size);
    st, q := MoveIx(fs, id, 0, hdr, {hdr as nat});
    assert {hdr as nat} - {hdr as nat} == {};
  }

  /** spiffs_object_update_index_hdr while an object is being emptied. */
  method UpdateCutHdr(fs: Spiffs, f: nat, id: half, fromWork: bool, size: word) returns (st: Status)
    requires id in fs.dir && |fs.dir[id].ix| > 0 && Cut(fs, f, id, {fs.dir[id].ix[0] as nat})
    requires ObjShape(fs.g, fs.dir[id]) && size == SizeField(|Bytes(fs.dir[id])|) && fs.fds[f].hdrPix as nat < |fs.pages|
    requires HdrPatched(if fromWork then fs.work else fs.pages[fs.fds[f].hdrPix], None, size) == IxPage(fs.g, id, fs.dir[id], 0)
    modifies fs
    ensures Spacious(st)
    ensures fs.cleaning == old(fs.cleaning)
    ensures st == OK ==> Cut(fs, f, id, {}) && OthersKeep(old(fs.fds), fs.fds, id) && GivenUp(old(fs.wc), fs.wc, id)
    ensures st == OK ==> SameMeaning(old(fs.dir), fs.dir) && OthersSame(old(fs.dir), fs.dir, id)
    ensures st == OK ==> if size == UNDEFINED_LEN
                         then FdsOk(fs.fds, fs.wc, fs.dir, 0, {}) && PagesDropped(old(fs.fds), fs.fds, old(fs.wc), fs.wc, id, 2)
                              && Rewound(fs.fds, id)
                         else fs.wc == old(fs.wc) && SameRefs(old(fs.fds), fs.fds)
    ensures st == OK ==> SameFiles(old(fs.fds), fs.fds)
    ensures st != OK ==> Torn(fs, id, {}) && fs.dir == old(fs.dir) && fs.fds == old(fs.fds) && fs.wc == old(fs.wc)
    ensures old(InStock(fs)) >= 1 ==> st == OK && InStock(fs) + 1 >= old(InStock(fs))
  {
    hide Rep, FdsPix, FdsSize, FdsOff, CacheRefs, Inv, IxPage, Flatten, Full, SameMeaning, GivenUp, Spacious, Torn, PagesDropped,
      Stocked, Rewound, OthersKeep, SameRefs, FdsOk, HdrStale, ObjShape, SizeField, CutFds, HdrPatched;
    CutShape(fs, f, id, {fs.dir[id].ix[0] as nat});
    ghost var dir := fs.dir;
    var q;
    st, q := MoveCutHdr(fs, f, id, fromWork, size);
    if st != OK {
      CutTorn(fs, f, id, {fs.dir[id].ix[0] as nat});
      return;
    }
    WithIxMeaning(dir, id, 0, q);
    TellCutHdr(fs, f, id, q, size, if fromWork then IxUpd else IxUpdHdr, dir);
  }

  /** Telling all descriptors, and descriptor f in any case. */
  method TellCutHdr(fs: Spiffs, f: nat, id: half, q: half, size: word, ev: Event, ghost dir: Dir)
    requires CutFds(fs.fds, fs.wc, dir, id) && 0 !in dir && id in dir && 0 < id < 0x7FFF
    requires f < |fs.fds| && IdOf(fs.fds[f].objId) == id
    requires |dir[id].ix| > 0 && ev != IxDel && fs.dir == WithIx(dir, id, 0, q)
    requires |Bytes(dir[id])| < UNDEFINED_LEN && size == SizeField(|Bytes(dir[id])|)
    modifies fs`fds, fs`wc
    ensures CutFds(fs.fds, fs.wc, fs.dir, id) && OthersKeep(old(fs.fds), fs.fds, id) && GivenUp(old(fs.wc), fs.wc, id)
    ensures if size == UNDEFINED_LEN
            then FdsOk(fs.fds, fs.wc, fs.dir, 0, {}) && PagesDropped(old(fs.fds), fs.fds, old(fs.wc), fs.wc, id, 2) && Rewound(fs.fds, id)
            else fs.wc == old(fs.wc) && SameRefs(old(fs.fds), fs.fds)
    ensures SameFiles(old(fs.fds), fs.fds) && fs.fds[f].hdrPix == q
  {
    hide CutFds, FdsOk, GivenUp, PagesDropped, Flatten;
    TellCut(fs, id, q, size, ev, dir);
    ghost var told := fs.fds;
    CutHdrPix(fs, f, id, q, if size == UNDEFINED_LEN then 0 else id);
    if size == UNDEFINED_LEN { DroppedStays(old(fs.fds), told, fs.fds, old(fs.wc), fs.wc, id, 2); }
  }

  /** The same descriptors are open on the same objects. */
  ghost predicate SameFiles(fds: seq<Fd>, fds': seq<Fd>) {
    && |fds'| == |fds|
    && forall i :: 0 <= i < |fds| ==>
                     fds'[i].objId == fds[i].objId && fds'[i].fileNbr == fds[i].fileNbr && fds'[i].flags == fds[i].flags
  }

  // ---------------------------------------------------------------- the loop

  /** What cutting leaves alone: every other object, every descriptor on one, and the name of this one. */
  ghost predicate CutSoFar(dir: Dir, fds: seq<Fd>, wc: seq<CPage>, fs: Spiffs, id: half)
    reads fs
  {
    && id in dir && id in fs.dir && OthersSame(dir, fs.dir, id)
    && fs.dir[id].name == dir[id].name && fs.dir[id].doomed == dir[id].doomed && fs.dir[id].lost == dir[id].lost
    && OthersKeep(fds, fs.fds, id) && SameFiles(fds, fs.fds) && SameRefs(fds, fs.fds) && fs.wc == wc
  }

  lemma CutTransitive(dir: Dir, fds: seq<Fd>, wc: seq<CPage>, dir': Dir, fds': seq<Fd>, fs: Spiffs, id: half)
    requires id in dir && id in dir' && OthersSame(dir, dir', id) && OthersKeep(fds, fds', id) && SameFiles(fds, fds')
    requires SameRefs(fds, fds')
    requires dir'[id].name == dir[id].name && dir'[id].doomed == dir[id].doomed && dir'[id].lost == dir[id].lost
    requires CutSoFar(dir', fds', wc, fs, id)
    ensures CutSoFar(dir, fds, wc, fs, id)
  {
  }

  /** The header on flash with a new size. */
  lemma StalePatched(g: Geo, pages: seq<Page>, id: half, o: Obj, size: word)
    requires HdrStale(g, pages, id, o) && |Bytes(o)| < UNDEFINED_LEN && size == SizeField(|Bytes(o)|) != 0
    ensures HdrPatched(pages[o.ix[0]], None, size) == IxPage(g, id, o, 0)
  {
  }

  /** A header that has just been stored is what it should be. */
  lemma StoredHeld(fs: Spiffs, f: nat, id: half)
    requires Cut(fs, f, id, {}) && fs.g.First(|fs.dir[id].ix| - 1) <= |fs.dir[id].data|
    ensures Held(fs, f, id)
  {
    assert IxOk(fs.g, fs.P, fs.lu, fs.pages, {}, id, fs.dir[id], 0);
    RepWeaken(fs.g, fs.P, fs.lu, fs.pages, fs.dir, {}, {fs.dir[id].ix[0] as nat});
  }

  lemma SameFilesOf(fds: seq<Fd>, fds': seq<Fd>)
    requires SameUser(fds, fds')
    ensures SameFiles(fds, fds') && SameRefs(fds, fds')
  {
  }

  /** The last index page is done with: it is deleted and, unless the object is being removed, the header
      updated. */
  method CutBack(fs: Spiffs, f: nat, id: half, remove: bool, prev: half, was: half, size: word) returns (st: Status)
    requires CutLoaded(fs, f, id, prev) && prev > 0 && was == fs.dir[id].ix[prev]
    requires |fs.dir[id].data| == fs.g.First(prev) && size == |Bytes(fs.dir[id])| > 0
    modifies fs
    ensures Spacious(st)
    ensures fs.cleaning == old(fs.cleaning) && (remove ==> st == OK)
    ensures st == OK ==> Held(fs, f, id) && |fs.dir[id].ix| == prev as nat && Tight(fs.g, fs.dir[id])
    ensures CutSoFar(old(fs.dir), old(fs.fds), old(fs.wc), fs, id)
    ensures st == OK ==> fs.dir[id].chunks == old(fs.dir)[id].chunks && |fs.dir[id].data| == |old(fs.dir)[id].data|
    ensures st != OK ==> Torn(fs, id, {})
    ensures remove ==> OnlyCut(fs.P, old(fs.lu), old(fs.pages), fs.lu, fs.pages, id)
    ensures remove ==> InStock(fs) == old(InStock(fs))
    ensures !remove && old(InStock(fs)) >= 1 ==> st == OK && InStock(fs) + 1 >= old(InStock(fs))
  {
    hide Cut, CutLoaded, SameUser, OnlyCut, Flatten, IxPage, HdrStale, Tight, Full, Spacious, Torn, Stocked;
    OkSpacious();
    CutLoadedShape(fs, f, id, prev);
    CutTight(fs.g, fs.dir[id], prev);
    st := CutIndex(fs, f, id, prev, was);
    SameFilesOf(old(fs.fds), fs.fds);
    if !remove {
      ghost var dir, fds := fs.dir, fs.fds;
      st := StoreCut(fs, f, id, size);
      CutTransitive(old(fs.dir), old(fs.fds), old(fs.wc), dir, fds, fs, id);
    }
  }

  /** The header of the shorter object is stored. */
  method StoreCut(fs: Spiffs, f: nat, id: half, size: word) returns (st: Status)
    requires Held(fs, f, id) && size == |Bytes(fs.dir[id])| > 0 && Tight(fs.g, fs.dir[id])
    modifies fs
    ensures Spacious(st) && fs.cleaning == old(fs.cleaning)
    ensures st == OK ==> Held(fs, f, id) && |fs.dir[id].ix| == |old(fs.dir)[id].ix| && Tight(fs.g, fs.dir[id])
    ensures CutSoFar(old(fs.dir), old(fs.fds), old(fs.wc), fs, id)
    ensures st == OK ==> fs.dir[id].chunks == old(fs.dir)[id].chunks && |fs.dir[id].data| == |old(fs.dir)[id].data|
    ensures st != OK ==> Torn(fs, id, {})
    ensures old(InStock(fs)) >= 1 ==> st == OK && InStock(fs) + 1 >= old(InStock(fs))
  {
    hide Cut, SameUser, Flatten, IxPage, HdrStale, Tight, Full, Spacious, Torn, Stocked;
    ghost var dir := fs.dir;
    HeldHdr(fs, f, id);
    LoadedSoFarRefl(fs, id);
    StalePatched(fs.g, fs.pages, id, dir[id], size);
    st := UpdateCutHdr(fs, f, id, false, size);
    if st != OK { return; }
    StoredHeld(fs, f, id);
    SameTight(fs.g, dir[id], fs.dir[id]);
  }

  lemma LoadedSoFarRefl(fs: Spiffs, id: half)
    requires id in fs.dir
    ensures CutSoFar(fs.dir, fs.fds, fs.wc, fs, id)
  {
  }

  lemma SameTight(g: Geo, o: Obj, o': Obj)
    requires Tight(g, o) && |o'.ix| == |o.ix| && |o'.data| == |o.data|
    ensures Tight(g, o')
  {
  }

  lemma HeldHdr(fs: Spiffs, f: nat, id: half)
    requires Held(fs, f, id)
    ensures id in fs.dir && |fs.dir[id].ix| > 0
    ensures Cut(fs, f, id, {fs.dir[id].ix[0] as nat}) && HdrStale(fs.g, fs.pages, id, fs.dir[id]) && ObjShape(fs.g, fs.dir[id])
    ensures f < |fs.fds| && fs.fds[f].hdrPix == fs.dir[id].ix[0] && fs.fds[f].hdrPix as nat < |fs.pages|
    ensures IdOf(fs.fds[f].objId) == id && 0 < id < 0x7FFF && fs.g.Valid()
  {
  }

  /** Where the last data page ends a file, in terms of its size. */
  function CutSize(dps: nat, cur: nat): int
    requires 0 < dps
  {
    if cur % dps == 0 then cur - dps else cur - cur % dps
  }

  lemma CutSizeIs(g: Geo, o: Obj)
    requires g.Valid() && ObjShape(g, o) && |o.data| > 0
    ensures |Bytes(Shorter(o))| == CutSize(g.dps, |Bytes(o)|) && |Bytes(o)| > 0
    ensures |o.data| == 1 ==> |Bytes(Shorter(o))| == 0
    ensures |o.data| > 1 ==> |Bytes(Shorter(o))| > 0
  {
    var n := |o.data| - 1;
    assert Flatten(o.chunks) == Flatten(o.chunks[..n]) + o.chunks[n];
    FlattenLen(o.chunks, g.dps);
    StartIsProduct(g.dps, n);
    StartIsProduct(g.dps, n + 1);
    if |o.chunks[n]| == g.dps {
      DivModUnique(|Bytes(o)|, g.dps, n + 1, 0);
    } else {
      DivModUnique(|Bytes(o)|, g.dps, n, |o.chunks[n]|);
    }
    if n > 0 { StartMono(g.dps, 0, n); }
  }

  /** The data page a file ends in. */
  lemma LastSpan(g: Geo, o: Obj)
    requires g.Valid() && ObjShape(g, o) && |Bytes(o)| > 0
    ensures |o.data| > 0 && |o.data| - 1 == (|Bytes(o)| - 1) / g.dps
  {
    var n := |o.data| - 1;
    FlattenLen(o.chunks, g.dps);
    StartIsProduct(g.dps, n);
    DivModUnique(|Bytes(o)| - 1, g.dps, n, |o.chunks[n]| - 1);
  }

  /** The span index of the last data page, as the code works it out from the size field. */
  method StartSpan(g: Geo, size: word, ghost o: Obj) returns (cur: int, spix: int)
    requires g.Valid() && ObjShape(g, o) && |Bytes(o)| < UNDEFINED_LEN && size == SizeField(|Bytes(o)|)
    ensures cur == |Bytes(o)|
    ensures cur > 0 ==> spix == |o.data| - 1 && spix >= 0
  {
    cur := if size == UNDEFINED_LEN then 0 else size;
    spix := (if size > 0 then size - 1 else 0) / g.dps;
    if cur > 0 { LastSpan(g, o); }
  }

  /** One turn of the loop: the index page at hand, and the last data page deleted. */
  method CutStep(fs: Spiffs, f: nat, id: half, remove: bool, first: bool, prev: half, was: half, spix: nat, cur: word)
    returns (st: Status, k: half, pix: half)
    requires if first then Held(fs, f, id) && Tight(fs.g, fs.dir[id])
             else CutLoaded(fs, f, id, prev) && was == fs.dir[id].ix[prev]
    requires id in fs.dir && spix == |fs.dir[id].data| - 1 && cur == |Bytes(fs.dir[id])|
    modifies fs
    ensures Spacious(st)
    ensures fs.cleaning == old(fs.cleaning) && (remove ==> st == OK)
    ensures st == OK ==> CutLoaded(fs, f, id, k) && pix == fs.dir[id].ix[k]
    ensures CutSoFar(old(fs.dir), old(fs.fds), old(fs.wc), fs, id) && (st != OK ==> Torn(fs, id, {}))
    ensures st == OK ==> fs.dir[id].chunks == Shorter(old(fs.dir)[id]).chunks && |fs.dir[id].data| == spix
    ensures remove ==> OnlyCut(fs.P, old(fs.lu), old(fs.pages), fs.lu, fs.pages, id)
    ensures remove ==> InStock(fs) == old(InStock(fs))
    ensures id in fs.dir
    ensures !remove && old(InStock(fs)) >= 1 ==> st == OK
    ensures st == OK ==> |fs.dir[id].ix| <= |old(fs.dir)[id].ix|
    ensures !remove && st == OK && old(InStock(fs)) >= 1 ==> InStock(fs) + |old(fs.dir)[id].ix| >= old(InStock(fs)) + |fs.dir[id].ix|
  {
    hide Cut, CutLoaded, SameUser, OnlyCut, Flatten, IxPage, HdrStale, Held, Tight, Full, ObjShape, Torn, CutSoFar, OthersKeep,
      OthersSame, Stocked, SameFiles, SameRefs, Rep, Inv, CutFds;
    st, k, pix := CutIndexFor(fs, f, id, remove, first, prev, was, spix, cur);
    SoFarParts(old(fs.dir), old(fs.fds), old(fs.wc), fs, id);
    if st != OK { return; }
    ghost var dir, fds, lu, pages := fs.dir, fs.fds, fs.lu, fs.pages;
    CutLoadedShape(fs, f, id, k);
    ShapeBounds(fs.g, dir[id]);
    st := CutData(fs, f, id, k, spix);
    ShorterSoFar(dir, fds, fs, id);
    CutTransitive(old(fs.dir), old(fs.fds), old(fs.wc), dir, fds, fs, id);
    if remove {
      OnlyCutTransitive(fs.P, old(fs.lu), old(fs.pages), lu, pages, fs.lu, fs.pages, id);
    }
  }

  lemma ShorterSoFar(dir: Dir, fds: seq<Fd>, fs: Spiffs, id: half)
    requires id in dir && |dir[id].data| > 0 && |dir[id].chunks| > 0 && fs.dir == WithObj(dir, id, Shorter(dir[id])) && fs.fds == fds
    ensures CutSoFar(dir, fds, fs.wc, fs, id)
  {
    OthersKeepRefl(fds, fs.wc, id);
    ShorterRest(dir, id);
  }

  lemma ShorterRest(dir: Dir, id: half)
    requires id in dir && |dir[id].data| > 0 && |dir[id].chunks| > 0
    ensures OthersSame(dir, WithObj(dir, id, Shorter(dir[id])), id)
  {
  }

  /** The index page that names the last data page is in the work buffer. */
  method CutIndexFor(fs: Spiffs, f: nat, id: half, remove: bool, first: bool, prev: half, was: half, spix: nat, cur: word)
    returns (st: Status, k: half, pix: half)
    requires if first then Held(fs, f, id) && Tight(fs.g, fs.dir[id])
             else CutLoaded(fs, f, id, prev) && was == fs.dir[id].ix[prev]
    requires id in fs.dir && spix == |fs.dir[id].data| - 1 && cur == |Bytes(fs.dir[id])|
    modifies fs
    ensures Spacious(st)
    ensures fs.cleaning == old(fs.cleaning) && (remove ==> st == OK)
    ensures st == OK ==> CutLoaded(fs, f, id, k) && pix == fs.dir[id].ix[k] && fs.g.First(k) < |fs.dir[id].data|
    ensures CutSoFar(old(fs.dir), old(fs.fds), old(fs.wc), fs, id) && (st != OK ==> Torn(fs, id, {}))
    ensures st == OK ==> fs.dir[id].chunks == old(fs.dir)[id].chunks && |fs.dir[id].data| == spix + 1
    ensures remove ==> OnlyCut(fs.P, old(fs.lu), old(fs.pages), fs.lu, fs.pages, id)
    ensures remove ==> InStock(fs) == old(InStock(fs))
    ensures id in fs.dir
    ensures !remove && old(InStock(fs)) >= 1 ==> st == OK
    ensures st == OK ==> |fs.dir[id].ix| <= |old(fs.dir)[id].ix|
    ensures !remove && st == OK && old(InStock(fs)) >= 1 ==> InStock(fs) + |old(fs.dir)[id].ix| >= old(InStock(fs)) + |fs.dir[id].ix|
  {
    hide Cut, CutLoaded, SameUser, OnlyCut, Flatten, IxPage, HdrStale, Held, Full, Tight, ObjShape, OthersKeep, OthersSame,
      Stocked, SameFiles, Torn;
    CutHeadShape(fs, f, id, first, prev, was);
    CutNeeds(fs.g, fs.dir[id], first, spix);
    HasBytes(fs.g, fs.dir[id]);
    CutRefl(fs, id);
    st, pix := OK, was;
    k := fs.g.IxOf(spix);
    if first || k != prev {
      if !first {
        st := CutBack(fs, f, id, remove, prev, was, cur);
        if st != OK { return; }
      }
      ghost var dir, fds := fs.dir, fs.fds;
      st, pix := LoadCut(fs, f, id, k, cur);
      SameFilesOf(fds, fs.fds);
      LoadedSoFar(dir, fds, fs, id);
      CutTransitive(old(fs.dir), old(fs.fds), old(fs.wc), dir, fds, fs, id);
    }
  }

  lemma CutHeadShape(fs: Spiffs, f: nat, id: half, first: bool, prev: half, was: half)
    requires if first then Held(fs, f, id) else CutLoaded(fs, f, id, prev)
    requires id in fs.dir
    ensures fs.g.Valid() && ObjShape(fs.g, fs.dir[id]) && |fs.lu| == |fs.pages|
    ensures |fs.dir[id].ix| > 0 && fs.g.First(|fs.dir[id].ix| - 1) <= |fs.dir[id].data|
    ensures !first ==> prev as nat == |fs.dir[id].ix| - 1
  {
  }

  lemma LoadedSoFar(dir: Dir, fds: seq<Fd>, fs: Spiffs, id: half)
    requires id in dir && fs.dir == dir && OthersKeep(fds, fs.fds, id) && SameFiles(fds, fs.fds) && SameRefs(fds, fs.fds)
    ensures CutSoFar(dir, fds, fs.wc, fs, id)
  {
  }

  lemma CutRefl(fs: Spiffs, id: half)
    requires id in fs.dir && |fs.lu| == |fs.pages|
    ensures CutSoFar(fs.dir, fs.fds, fs.wc, fs, id) && OnlyCut(fs.P, fs.lu, fs.pages, fs.lu, fs.pages, id)
  {
  }

  /** The index page that names the last data page is the last one, or the one before it. */
  lemma CutNeeds(g: Geo, o: Obj, first: bool, spix: nat)
    requires g.Valid() && ObjShape(g, o) && spix == |o.data| - 1 && g.First(|o.ix| - 1) <= |o.data|
    requires first ==> Tight(g, o)
    ensures g.First(g.IxOf(spix)) < |o.data| && g.IxOf(spix) < 0xFFFF
    ensures g.IxOf(spix) == |o.ix| - 1 || (!first && g.IxOf(spix) + 2 == |o.ix| && |o.data| == g.First(|o.ix| - 1))
  {
    var k := |o.ix| - 1;
    SlotLaw(g, spix);
    if g.First(k) < |o.data| {
      LastIx(g, o, k);
    } else if k > 0 {
      FirstMono(g, k - 1, k);
      SlotUnique(g, spix, k - 1, g.Slots(k - 1) - 1);
    }
  }

  /** An empty object has its header page only. */
  lemma EmptyShape(g: Geo, o: Obj)
    requires g.Valid() && ObjShape(g, o) && |Bytes(o)| == 0 && g.First(|o.ix| - 1) <= |o.data|
    ensures |o.ix| == 1 && |o.data| == 0
  {
    if |o.data| > 0 { HasBytes(g, o); }
    if |o.ix| > 1 { FirstMono(g, 0, |o.ix| - 1); }
  }

  /** Where the loop is: `first` before its first turn, then with index page k loaded; data page spix is the
      last one, and the file has cur bytes left. */
  ghost predicate AtCut(fs: Spiffs, f: nat, id: half, first: bool, k: half, pix: half, spix: int, cur: int)
    reads fs
  {
    && id in fs.dir && |fs.dir[id].ix| > 0 && (!first ==> k as nat == |fs.dir[id].ix| - 1)
    && (if first then Held(fs, f, id) && Tight(fs.g, fs.dir[id]) else CutLoaded(fs, f, id, k))
    && pix == fs.dir[id].ix[if first then 0 else k]
    && cur == |Bytes(fs.dir[id])| && (cur > 0 ==> spix == |fs.dir[id].data| - 1 && spix >= 0)
  }

  /** One turn of the loop, with the descriptor's and the loop's own sizes brought down. */
  method CutTurn(fs: Spiffs, f: nat, id: half, remove: bool, first: bool, prev: half, was: half, spix: int, cur: int)
    returns (st: Status, k: half, pix: half, now: int)
    requires AtCut(fs, f, id, first, prev, was, spix, cur) && cur > 0
    modifies fs
    ensures Spacious(st)
    ensures fs.cleaning == old(fs.cleaning) && (remove ==> st == OK)
    ensures st == OK ==> AtCut(fs, f, id, false, k, pix, spix - 1, now) && 0 <= now < cur
    ensures CutSoFar(old(fs.dir), old(fs.fds), old(fs.wc), fs, id) && (st != OK ==> Torn(fs, id, {}))
    ensures remove ==> OnlyCut(fs.P, old(fs.lu), old(fs.pages), fs.lu, fs.pages, id)
    ensures remove ==> InStock(fs) == old(InStock(fs))
    ensures id in fs.dir
    ensures !remove && old(InStock(fs)) >= 1 ==> st == OK
    ensures st == OK ==> |fs.dir[id].ix| <= |old(fs.dir)[id].ix|
    ensures !remove && st == OK && old(InStock(fs)) >= 1 ==> InStock(fs) + |old(fs.dir)[id].ix| >= old(InStock(fs)) + |fs.dir[id].ix|
  {
    hide Cut, CutLoaded, OnlyCut, Flatten, IxPage, HdrStale, Held, Full, Tight, ObjShape, OthersKeep, OthersSame, SameFiles,
      Stocked, CutSize, CutSoFar, Torn;
    now := cur;
    CutHeadShape(fs, f, id, first, prev, was);
    ShapeBounds(fs.g, fs.dir[id]);
    CutSizeIs(fs.g, fs.dir[id]);
    ghost var o := fs.dir[id];
    st, k, pix := CutStep(fs, f, id, remove, first, prev, was, spix, cur);
    if st != OK { return; }
    SoFarHas(old(fs.dir), old(fs.fds), old(fs.wc), fs, id);
    CutHeadShape(fs, f, id, false, k, pix);
    now := CutSize(fs.g.dps, cur);
    ShorterLess(fs.g, o);
    if now > 0 { CutSizeHas(fs.g, fs.dir[id]); }
  }

  lemma SoFarHas(dir: Dir, fds: seq<Fd>, wc: seq<CPage>, fs: Spiffs, id: half)
    requires CutSoFar(dir, fds, wc, fs, id)
    ensures id in fs.dir && id in dir
  {
  }

  lemma ShorterLess(g: Geo, o: Obj)
    requires ObjShape(g, o) && |o.data| > 0
    ensures |Bytes(Shorter(o))| < |Bytes(o)|
  {
    var n := |o.data| - 1;
    assert Flatten(o.chunks) == Flatten(o.chunks[..n]) + o.chunks[n];
  }

  /** The loop of spiffs_object_truncate for size 0: every data page and every index page but the header is
      deleted.  `first` tells that there was nothing to delete. */
  method CutLoop(fs: Spiffs, f: nat, id: half, remove: bool) returns (st: Status, first: bool, pix: half)
    requires Held(fs, f, id) && Tight(fs.g, fs.dir[id]) && fs.fds[f].size == SizeField(|Bytes(fs.dir[id])|)
    modifies fs
    ensures Spacious(st)
    ensures fs.cleaning == old(fs.cleaning) && (remove ==> st == OK)
    ensures st == OK ==> if first then Held(fs, f, id) else CutLoaded(fs, f, id, 0)
    ensures CutSoFar(old(fs.dir), old(fs.fds), old(fs.wc), fs, id) && (st != OK ==> Torn(fs, id, {}))
    ensures st == OK ==> pix == fs.dir[id].ix[0]
    ensures st == OK ==> fs.dir[id].chunks == [] && fs.dir[id].data == [] && |fs.dir[id].ix| == 1
    ensures remove ==> OnlyCut(fs.P, old(fs.lu), old(fs.pages), fs.lu, fs.pages, id)
    ensures remove ==> InStock(fs) == old(InStock(fs))
    ensures st == OK && first ==> |Bytes(old(fs.dir)[id])| == 0
    ensures !remove && old(InStock(fs)) >= |old(fs.dir)[id].ix| ==> st == OK && InStock(fs) + |old(fs.dir)[id].ix| >= old(InStock(fs)) + 1
  {
    hide AtCut, OnlyCut, CutSoFar, Cut, HdrStale, ObjShape, IxPage, Torn, Stocked;
    HeldHdr(fs, f, id);
    ghost var stock, ixs := InStock(fs), |fs.dir[id].ix|;
    CutHeadShape(fs, f, id, true, 0, 0);
    CutRefl(fs, id);
    ShapeBounds(fs.g, fs.dir[id]);
    st, pix := OK, fs.fds[f].hdrPix;
    var k: half := 0;
    first := true;
    var cur, spix := StartSpan(fs.g, fs.fds[f].size, fs.dir[id]);
    AtCutStart(fs, f, id, pix, spix, cur);
    while cur > 0
      invariant st == OK && fs.cleaning == old(fs.cleaning) && AtCut(fs, f, id, first, k, pix, spix, cur)
      invariant first ==> |Bytes(old(fs.dir)[id])| == cur
      invariant id in fs.dir && |fs.dir[id].ix| <= ixs
      invariant !remove && stock >= ixs ==> InStock(fs) + ixs >= stock + |fs.dir[id].ix|
      invariant CutSoFar(old(fs.dir), old(fs.fds), old(fs.wc), fs, id)
      invariant remove ==> OnlyCut(fs.P, old(fs.lu), old(fs.pages), fs.lu, fs.pages, id) && InStock(fs) == stock
      decreases cur
    {
      ghost var dir, fds, lu, pages := fs.dir, fs.fds, fs.lu, fs.pages;
      SoFarParts(old(fs.dir), old(fs.fds), old(fs.wc), fs, id);
      AtCutIx(fs, f, id, first, k, pix, spix, cur);
      st, k, pix, cur := CutTurn(fs, f, id, remove, first, k, pix, spix, cur);
      CutTransitive(old(fs.dir), old(fs.fds), old(fs.wc), dir, fds, fs, id);
      if st != OK { return; }
      first := false;
      spix := spix - 1;
      if remove { OnlyCutTransitive(fs.P, old(fs.lu), old(fs.pages), lu, pages, fs.lu, fs.pages, id); }
    }
    AtCutEnd(fs, f, id, first, k, pix, spix, cur);
  }

  lemma SoFarParts(dir: Dir, fds: seq<Fd>, wc: seq<CPage>, fs: Spiffs, id: half)
    requires CutSoFar(dir, fds, wc, fs, id)
    ensures id in dir && id in fs.dir && OthersSame(dir, fs.dir, id) && OthersKeep(fds, fs.fds, id)
    ensures SameFiles(fds, fs.fds) && fs.dir[id].name == dir[id].name && fs.dir[id].doomed == dir[id].doomed && fs.dir[id].lost == dir[id].lost
    ensures SameRefs(fds, fs.fds) && fs.wc == wc
  {
  }

  lemma AtCutStart(fs: Spiffs, f: nat, id: half, pix: half, spix: int, cur: int)
    requires Held(fs, f, id) && Tight(fs.g, fs.dir[id]) && pix == fs.dir[id].ix[0]
    requires cur == |Bytes(fs.dir[id])| && (cur > 0 ==> spix == |fs.dir[id].data| - 1 && spix >= 0)
    ensures AtCut(fs, f, id, true, 0, pix, spix, cur)
  {
  }

  lemma AtCutIx(fs: Spiffs, f: nat, id: half, first: bool, k: half, pix: half, spix: int, cur: int)
    requires AtCut(fs, f, id, first, k, pix, spix, cur)
    ensures id in fs.dir && |fs.dir[id].ix| > 0
  {
  }

  lemma AtCutEnd(fs: Spiffs, f: nat, id: half, first: bool, k: half, pix: half, spix: int, cur: int)
    requires AtCut(fs, f, id, first, k, pix, spix, cur) && cur <= 0
    ensures id in fs.dir && |fs.dir[id].ix| == 1 && pix == fs.dir[id].ix[0]
    ensures if first then Held(fs, f, id) else CutLoaded(fs, f, id, 0)
    ensures fs.dir[id].chunks == [] && fs.dir[id].data == []
  {
    hide Cut, HdrStale, IxPage, Flatten;
    CutHeadShape(fs, f, id, first, k, pix);
    EmptyShape(fs.g, fs.dir[id]);
    ShapeBounds(fs.g, fs.dir[id]);
  }

  lemma CutSizeHas(g: Geo, o: Obj)
    requires ObjShape(g, o) && |Bytes(o)| > 0
    ensures |o.data| > 0
  {
  }

  // ---------------------------------------------------------------- removing an object

  /** Descriptor f, open or not, names object `id` and its header page. */
  ghost predicate Points(fs: Spiffs, f: nat, id: half)
    reads fs
  {
    && f < |fs.fds| && id in fs.dir && |fs.dir[id].ix| > 0 && |Bytes(fs.dir[id])| < UNDEFINED_LEN
    && IdOf(fs.fds[f].objId) == id && fs.fds[f].hdrPix == fs.dir[id].ix[0]
    && fs.fds[f].size == SizeField(|Bytes(fs.dir[id])|)
  }

  lemma FdsCut(fds: seq<Fd>, wc: seq<CPage>, dir: Dir, id: half)
    requires FdsOk(fds, wc, dir, 0, {}) && 0 !in dir
    ensures CutFds(fds, wc, dir, id)
  {
    OpenHaveIds(fds, dir, {});
    SizeFrame(fds, dir, dir, 0, id, {});
    forall i | 0 <= i < |fds| && IdOf(fds[i].objId) != id ensures FdOff(fds[i], dir, wc) {
      if IdOf(fds[i].objId) != 0 { assert FdOff(fds[i], dir, wc); }
    }
  }

  /** Before the loop. */
  lemma ReadyHeld(fs: Spiffs, f: nat, id: half)
    requires Mid(fs, IDLE) && AllTight(fs.g, fs.dir) && Points(fs, f, id) && fs.dir[id].lost == {}
    ensures Held(fs, f, id) && Tight(fs.g, fs.dir[id])
  {
    var o := fs.dir[id];
    assert IxOk(fs.g, fs.P, fs.lu, fs.pages, {}, id, o, 0);
    RepWeaken(fs.g, fs.P, fs.lu, fs.pages, fs.dir, {}, {o.ix[0] as nat});
    FdsCut(fs.fds, fs.wc, fs.dir, id);
    assert Tight(fs.g, o);
    TightLoose(fs.g, o);
  }

  lemma TightLoose(g: Geo, o: Obj)
    requires g.Valid() && Tight(g, o)
    ensures g.First(|o.ix| - 1) <= |o.data|
  {
    if |o.data| > 0 { SlotLaw(g, |o.data| - 1); }
  }

  /** The header is marked: the object is being removed. */
  method Doom(fs: Spiffs, f: nat, id: half)
    requires Ready(fs) && Points(fs, f, id) && fs.dir[id].lost == {}
    modifies fs`pages, fs`dir
    ensures Held(fs, f, id) && Tight(fs.g, fs.dir[id]) && fs.dir == WithObj(old(fs.dir), id, old(fs.dir)[id].(doomed := true))
    ensures OnlyCut(fs.P, fs.lu, old(fs.pages), fs.lu, fs.pages, id)
  {
    hide Held, OnlyCut, FdsOk, AllTight, Tight, Flatten, Full, FreeSuffix, CursorOk, LivePages, DeletedPages, FreeBlocks;
    ghost var s, pages, dir, o := fs.S(), fs.pages, fs.dir, fs.dir[id];
    var hdr := fs.fds[f].hdrPix;
    assert IxOk(fs.g, fs.P, fs.lu, fs.pages, {}, id, o, 0);
    fs.pages := fs.pages[hdr := fs.pages[hdr].(flags := NorFlags(fs.pages[hdr].flags, DOOMED_FLAGS))];
    Rewrite(fs.g, fs.P, s, hdr as nat, fs.pages[hdr]);
    OneCut(fs.P, fs.lu, pages, hdr, id, fs.pages[hdr]);
    DoomStep(fs.g, fs.P, fs.lu, pages, dir, fs.pages, id);
    fs.dir := WithObj(dir, id, o.(doomed := true));
    DoomedFds(fs.fds, fs.wc, dir, id);
    DoomedTight(fs.g, dir, id);
    ReadyHeld(fs, f, id);
  }

  lemma DoomedFds(fds: seq<Fd>, wc: seq<CPage>, dir: Dir, id: half)
    requires FdsOk(fds, wc, dir, 0, {}) && 0 !in dir && id in dir
    ensures FdsOk(fds, wc, WithObj(dir, id, dir[id].(doomed := true)), 0, {})
  {
    FdsFrame(fds, wc, dir, WithObj(dir, id, dir[id].(doomed := true)), 0, 0, {});
  }

  lemma DoomedTight(g: Geo, dir: Dir, id: half)
    requires AllTight(g, dir) && id in dir
    ensures AllTight(g, WithObj(dir, id, dir[id].(doomed := true)))
  {
    assert Tight(g, dir[id]);
  }

  /** Descriptors once object `id` is gone. */
  method TellGone(fs: Spiffs, id: half, pix: half, ghost dir: Dir)
    requires CutFds(fs.fds, fs.wc, dir, id) && 0 < id < 0x7FFF && 0 !in dir && fs.dir == dir - {id}
    modifies fs`fds, fs`wc
    ensures FdsOk(fs.fds, fs.wc, fs.dir, 0, {}) && OthersKeep(old(fs.fds), fs.fds, id)
    ensures PagesDropped(old(fs.fds), fs.fds, old(fs.wc), fs.wc, id, 0)
    ensures forall i :: 0 <= i < |fs.fds| && IdOf(old(fs.fds)[i].objId) == id ==> fs.fds[i].fileNbr == 0
  {
    hide PagesDropped, Taken;
    ghost var fds, wc := fs.fds, fs.wc;
    ObjectEvent(fs, IxDel, id + IX_FLAG, 0, pix, 0);
    TakenNames(fds, fs.fds, wc, fs.wc, dir, IxDel, id);
    forall i | 0 <= i < |fds| ensures IdOf(fds[i].objId) == id ==> fs.fds[i].fileNbr == 0 {
      assert Bare(fs.fds[i]).fileNbr == fs.fds[i].fileNbr;
    }
    forall i | 0 <= i < |fds| ensures FdPix(fs.fds[i], fs.dir) { assert FdPix(fds[i], dir); }
    forall i | 0 <= i < |fds| ensures FdSize(fs.fds[i], fs.dir) {
      if IdOf(fds[i].objId) != id { assert FdSize(fds[i], dir); }
    }
    forall i | 0 <= i < |fds| ensures FdOff(fs.fds[i], fs.dir, fs.wc) {
      if IdOf(fds[i].objId) != id { assert FdOff(fds[i], dir, wc); }
    }
  }

  /** The header of the emptied object is deleted: the object is gone. */
  method DropHeader(fs: Spiffs, f: nat, id: half, first: bool, pix: half) returns (st: Status)
    requires if first then Held(fs, f, id) else CutLoaded(fs, f, id, 0)
    requires id in fs.dir && |fs.dir[id].ix| == 1 && fs.dir[id].data == [] && pix == fs.dir[id].ix[0]
    modifies fs
    ensures Spacious(st)
    ensures fs.cleaning == old(fs.cleaning) && st == OK && Mid(fs, IDLE) && fs.dir == old(fs.dir) - {id}
    ensures OnlyCut(fs.P, old(fs.lu), old(fs.pages), fs.lu, fs.pages, id)
    ensures OthersKeep(old(fs.fds), fs.fds, id) && PagesDropped(old(fs.fds), fs.fds, old(fs.wc), fs.wc, id, 0)
    ensures forall i :: 0 <= i < |fs.fds| && IdOf(old(fs.fds)[i].objId) == id ==> fs.fds[i].fileNbr == 0
    ensures InStock(fs) == old(InStock(fs))
  {
    hide Held, Stocked, Cut, CutLoaded, Rep, CutFds, OnlyCut, OthersKeep, PagesDropped, PageIndexCheck, IxPage, Flatten,
      PageShape, FlashOk, FreeSuffix, CursorOk, LivePages, DeletedPages, FreeBlocks, Entries, FdsPix, FdsSize, FdsOff, CacheRefs,
      Inv;
    ghost var lu, pages, dir := fs.lu, fs.pages, fs.dir;
    LastHeld(fs, f, id, first, pix);
    InvFlash(fs);
    HeaderDropped(fs.g, fs.P, lu, pages, dir, id);
    st := PageIndexCheck(fs.g, fs.pages, id + IX_FLAG, pix, 0);
    PageDelete(fs, pix);
    fs.dir := dir - {id};
    TellGone(fs, id, pix, dir);
  }

  lemma LastHeld(fs: Spiffs, f: nat, id: half, first: bool, pix: half)
    requires if first then Held(fs, f, id) else CutLoaded(fs, f, id, 0)
    requires id in fs.dir && |fs.dir[id].ix| == 1 && pix == fs.dir[id].ix[0]
    ensures Cut(fs, f, id, {pix as nat}) && 0 < id < 0x7FFF && 0 !in fs.dir
    ensures fs.Ok() && Rep(fs.g, fs.P, fs.lu, fs.pages, fs.dir, {pix as nat}) && CutFds(fs.fds, fs.wc, fs.dir, id)
    ensures f < |fs.fds| && fs.fds[f].hdrPix == pix && IdOf(fs.fds[f].objId) == id
    ensures |fs.eraseCnt| == fs.g.blocks && fs.curBlk < fs.g.blocks && PageShape(fs.g, fs.work) && fs.g.Valid()
    ensures |fs.lu| == |fs.pages| == fs.g.Pages() && pix as nat < |fs.pages|
  {
    assert {pix as nat, pix as nat} == {pix as nat};
    assert IxOk(fs.g, fs.P, fs.lu, fs.pages, {pix as nat}, id, fs.dir[id], 0);
  }

  lemma HeaderDropped(g: Geo, P: set<nat>, lu: seq<half>, pages: seq<Page>, dir: Dir, id: half)
    requires id in dir && |dir[id].ix| == 1 && dir[id].data == []
    requires FlashOk(g, P, lu, pages) && Rep(g, P, lu, pages, dir, {dir[id].ix[0] as nat})
    ensures var pix := dir[id].ix[0];
            && pix as nat in P && pix as nat < |lu| && Live(lu[pix]) && PageIndexCheck(g, pages, id + IX_FLAG, pix, 0) == OK
            && var lu', pages' := lu[pix := DELETED_ID], pages[pix := Deleted(pages[pix])];
               Rep(g, P, lu', pages', dir - {id}, {}) && OnlyCut(P, lu, pages, lu', pages', id)
  {
    var pix := dir[id].ix[0];
    assert IxOk(g, P, lu, pages, {pix as nat}, id, dir[id], 0);
    IndexCheckOk(g, P, lu, pages, dir, {pix as nat}, id, 0);
    OneCut(P, lu, pages, pix, id, Deleted(pages[pix]));
    RemoveStep(g, P, lu, pages, dir, {pix as nat}, lu[pix := DELETED_ID], pages[pix := Deleted(pages[pix])], id);
  }

  /** No page of an object that is not in the directory is live. */
  lemma NoneLeft(g: Geo, P: set<nat>, lu: seq<half>, pages: seq<Page>, dir: Dir, lu0: seq<half>, pages0: seq<Page>, id: half)
    requires Rep(g, P, lu, pages, dir, {}) && id !in dir && 0 < id < 0x7FFF && OnlyCut(P, lu0, pages0, lu, pages, id)
    ensures forall p :: p in P && p < |lu0| && OfObj(lu0[p], id) ==> lu[p] == DELETED_ID
  {
    forall p | p in P && p < |lu0| && OfObj(lu0[p], id) ensures lu[p] == DELETED_ID {
      if lu[p] == lu0[p] { assert Owned(lu[p], pages[p].span, p, dir); }
    }
  }

  /** spiffs_object_truncate with removal.  It cannot fail: every page of the object becomes deleted, no other
      page changes, every other object and every descriptor on one stays as it is, and descriptors on
      the object are closed. */
  method RemoveObject(fs: Spiffs, f: nat, id: half) returns (st: Status)
    requires Ready(fs) && Points(fs, f, id) && fs.dir[id].lost == {}
    modifies fs
    ensures st == OK && Ready(fs) && fs.dir == old(fs.dir) - {id}
    ensures OnlyCut(fs.P, old(fs.lu), old(fs.pages), fs.lu, fs.pages, id)
    ensures forall p :: p in fs.P && p < |fs.lu| && OfObj(old(fs.lu)[p], id) ==> fs.lu[p] == DELETED_ID
    ensures OthersKeep(old(fs.fds), fs.fds, id) && PagesDropped(old(fs.fds), fs.fds, old(fs.wc), fs.wc, id, 0)
    ensures forall i :: 0 <= i < |fs.fds| && IdOf(old(fs.fds)[i].objId) == id ==> fs.fds[i].fileNbr == 0
    ensures InStock(fs) == old(InStock(fs))
  {
    hide Held, Stocked, Cut, CutLoaded, Tight, Rep, FdsOk, Inv, Flatten;
    ghost var lu, pages, dir, fds := fs.lu, fs.pages, fs.dir, fs.fds;
    RepIds(fs.g, fs.P, lu, pages, dir, {});
    Doom(fs, f, id);
    ghost var lu1, pages1 := fs.lu, fs.pages;
    HeldHdr(fs, f, id);
    PointsSize(fs, f, id, dir);
    var first, pix;
    st, first, pix := CutLoop(fs, f, id, true);
    OnlyCutTransitive(fs.P, lu, pages, lu1, pages1, fs.lu, fs.pages, id);
    ghost var lu2, pages2, fds2 := fs.lu, fs.pages, fs.fds;
    st := DropHeader(fs, f, id, first, pix);
    DroppedThen(fds, fds2, fs.fds, old(fs.wc), fs.wc, id, 0);
    OnlyCutTransitive(fs.P, lu, pages, lu2, pages2, fs.lu, fs.pages, id);
    NoneLeft(fs.g, fs.P, fs.lu, fs.pages, fs.dir, lu, pages, id);
    Gone(dir, fs.dir, id);
    assert fs.dir == dir - {id};
  }

  lemma DroppedThen(fds: seq<Fd>, fds1: seq<Fd>, fds2: seq<Fd>, wc: seq<CPage>, wc': seq<CPage>, id: half, least: nat)
    requires SameFiles(fds, fds1) && SameRefs(fds, fds1) && PagesDropped(fds1, fds2, wc, wc', id, least)
    ensures PagesDropped(fds, fds2, wc, wc', id, least)
  {
    forall i, w ensures Names(fds1, i, id, w) <==> Names(fds, i, id, w) {}
  }

  lemma PointsSize(fs: Spiffs, f: nat, id: half, dir: Dir)
    requires id in dir && fs.dir == WithObj(dir, id, dir[id].(doomed := true)) && f < |fs.fds|
    requires |Bytes(dir[id])| < UNDEFINED_LEN && fs.fds[f].size == SizeField(|Bytes(dir[id])|)
    ensures id in fs.dir && |Bytes(fs.dir[id])| < UNDEFINED_LEN && fs.fds[f].size == SizeField(|Bytes(fs.dir[id])|)
  {
  }

  lemma Gone(dir: Dir, dir': Dir, id: half)
    requires forall x :: x in dir' <==> x in dir && x != id
    requires forall x :: x in dir' ==> dir'[x] == dir[x]
    ensures dir' == dir - {id}
  {
  }

  // ---------------------------------------------------------------- emptying an object

  /** The emptied header is stored, with no size. */
  method StoreEmpty(fs: Spiffs, f: nat, id: half, pix: half) returns (st: Status)
    requires CutLoaded(fs, f, id, 0) && |fs.dir[id].ix| == 1 && pix == fs.dir[id].ix[0]
    requires fs.dir[id].data == [] && fs.dir[id].chunks == []
    modifies fs
    ensures Spacious(st)
    ensures fs.cleaning == old(fs.cleaning)
    ensures st == OK ==> Mid(fs, IDLE) && SameMeaning(old(fs.dir), fs.dir) && OthersSame(old(fs.dir), fs.dir, id)
    ensures st == OK ==> OthersKeep(old(fs.fds), fs.fds, id) && SameFiles(old(fs.fds), fs.fds)
    ensures st == OK ==> PagesDropped(old(fs.fds), fs.fds, old(fs.wc), fs.wc, id, 2) && Rewound(fs.fds, id)
    ensures st != OK ==> Torn(fs, id, {}) && fs.dir == old(fs.dir) && fs.fds == old(fs.fds) && fs.wc == old(fs.wc)
    ensures old(InStock(fs)) >= 1 ==> st == OK && InStock(fs) + 1 >= old(InStock(fs))
  {
    hide Rep, CutFds, FdsOk, Inv, Flatten, Torn, PagesDropped, Stocked;
    LastHeld(fs, f, id, false, pix);
    ShapeBounds(fs.g, fs.dir[id]);
    EmptyBytes(fs.dir[id]);
    ClearSlots(fs.g, id, fs.dir[id], fs.work);
    fs.work := fs.work.(slots := FreeSlots(fs.g.Cap()));
    st := UpdateCutHdr(fs, f, id, true, UNDEFINED_LEN);
    if st == OK { CutMid(fs, f, id); }
  }

  lemma EmptyBytes(o: Obj)
    requires o.chunks == []
    ensures |Bytes(o)| == 0
  {
  }

  lemma ClearSlots(g: Geo, id: half, o: Obj, work: Page)
    requires ObjShape(g, o) && id < IX_FLAG && o.data == [] && o.chunks == []
    requires work == IxPage(g, id, o, 0).(size := work.size)
    ensures work.slots == FreeSlots(g.Cap())
    ensures HdrPatched(work.(slots := FreeSlots(g.Cap())), None, UNDEFINED_LEN) == IxPage(g, id, o, 0)
  {
    assert SlotsFor(g, o.data, 0) == FreeSlots(g.Cap());
  }

  lemma CutMid(fs: Spiffs, f: nat, id: half)
    requires Cut(fs, f, id, {}) && FdsOk(fs.fds, fs.wc, fs.dir, 0, {})
    ensures Mid(fs, IDLE)
  {
  }

  /** What users of descriptors on other objects see is unchanged. */
  ghost predicate OthersUser(fds: seq<Fd>, fds': seq<Fd>, id: half) {
    && |fds'| == |fds|
    && forall i :: 0 <= i < |fds| && IdOf(fds[i].objId) != id ==>
                     && (fds[i].fileNbr != 0 ==> fds'[i].fdoffset == fds[i].fdoffset)
                     && fds'[i].flags == fds[i].flags && fds'[i].cache == fds[i].cache
  }

  lemma UserThenOthers(fds: seq<Fd>, fds1: seq<Fd>, fds2: seq<Fd>, id: half)
    requires SameUser(fds, fds1) && OthersKeep(fds1, fds2, id) && 0 < id < IX_FLAG
    ensures OthersUser(fds, fds2, id)
  {
  }

  /** spiffs_object_truncate to nothing without removal.  A file without stored content is left alone, cached writes
      included.  Any other file is empty afterwards and keeps its name; of its write pages those that begin at offset
      2 or behind it are dropped.  That succeeds when a page for every index page of the file is sure to be had.  Every
      other object keeps its name and its bytes, whether the operation succeeds or not, and users of descriptors on other
      objects notice nothing. */
  method ClearObject(fs: Spiffs, f: nat, id: half, room: nat) returns (st: Status)
    requires Ready(fs) && OpenOn(fs, f, id) && id in fs.dir && 0 < room && fs.dir[id].lost == {}
    modifies fs
    ensures Spacious(st) && !fs.cleaning
    ensures |Bytes(old(fs.dir)[id])| == 0 ==> st == OK && unchanged(fs)
    ensures |Bytes(old(fs.dir)[id])| > 0 && old(Hopeless(fs, fs.g.dps * 2 % 0x1_0000_0000)) ==> st == ERR_FULL && unchanged(fs)
    ensures st == OK ==> Ready(fs) && id in fs.dir && Bytes(fs.dir[id]) == []
    ensures st == OK && |Bytes(old(fs.dir)[id])| > 0 ==>
              PagesDropped(old(fs.fds), fs.fds, old(fs.wc), fs.wc, id, 2) && Rewound(fs.fds, id)
    ensures st != OK ==> Survived(fs, id, {}) && fs.wc == old(fs.wc) && SameRefs(old(fs.fds), fs.fds)
    ensures id in fs.dir && fs.dir[id].name == old(fs.dir)[id].name && fs.dir[id].lost == {}
    ensures OthersContent(old(fs.dir), fs.dir, id) && (st == OK ==> OnlyContent(old(fs.dir), fs.dir, id))
    ensures SameFiles(old(fs.fds), fs.fds) && OthersUser(old(fs.fds), fs.fds, id)
    ensures |Bytes(old(fs.dir)[id])| > 0 && old(ClearSure(fs)) >= |old(fs.dir)[id].ix| ==>
              st == OK && InStock(fs) + |old(fs.dir)[id].ix| >= old(ClearSure(fs))
  {
    hide ClearSure, Stocked, Rep, FdsOk, Inv, Flatten, Tight, Cut, CutLoaded, Held, Torn, PagesDropped, Stalled, FreePages,
      SameUser, SameFiles, OthersUser;
    UserIds(fs, id);
    MidDir(fs, IDLE);
    FdSizeField(fs, f, id);
    ContentRefl(fs.dir, id);
    UserRefl(fs.fds, id);
    if fs.fds[f].size == UNDEFINED_LEN || fs.fds[f].size == 0 {
      NoBytes(fs.dir[id]);
      return OK;
    }
    st := ClearRoom(fs, f, id, room);
    ghost var dir, fds := fs.dir, fs.fds;
    UserRefl(fds, id);
    UserThenOthers(old(fs.fds), fds, fds, id);
    if st != OK { return; }
    st := ClearLoop(fs, f, id);
    UserThenOthers(old(fs.fds), fds, fs.fds, id);
    FilesThen(old(fs.fds), fds, fs.fds);
    if st != OK { return; }
    DroppedThen(old(fs.fds), fds, fs.fds, old(fs.wc), fs.wc, id, 2);
    ClearedContent(fs.g, old(fs.dir), dir, fs.dir, id);
  }

  /** The pages that emptying a file is sure of. */
  ghost function ClearSure(fs: Spiffs): nat
    reads fs`lu, fs`pages, fs`freeBlk, fs`freeEnt, fs`freeBlocks, fs`nAlloc, fs`nDel, fs`surplus, fs`eraseCnt, fs`maxErase
  {
    Assured(fs, fs.g.dps * 2 % 0x1_0000_0000)
  }

  /** Making room for the new header, before anything is deleted. */
  method ClearRoom(fs: Spiffs, f: nat, id: half, room: nat) returns (st: Status)
    requires Ready(fs) && OpenOn(fs, f, id) && id in fs.dir && 0 < room && fs.dir[id].lost == {}
    modifies fs
    ensures Spacious(st) && !fs.cleaning
    ensures old(Hopeless(fs, fs.g.dps * 2 % 0x1_0000_0000)) ==> st == ERR_FULL && unchanged(fs)
    ensures Intact(old(fs.dir), old(fs.fds), old(fs.wc), fs) && NoneDoomed(fs.dir)
    ensures SameFiles(old(fs.fds), fs.fds) && SameRefs(old(fs.fds), fs.fds)
    ensures id in fs.dir && |Bytes(fs.dir[id])| == |Bytes(old(fs.dir)[id])| && fs.dir[id].lost == {}
    ensures st == OK ==> Held(fs, f, id) && Tight(fs.g, fs.dir[id]) && fs.fds[f].size == SizeField(|Bytes(fs.dir[id])|)
    ensures st != OK ==> Survived(fs, id, {})
    ensures |fs.dir[id].ix| == |old(fs.dir)[id].ix|
    ensures old(ClearSure(fs)) > 0 ==> st == OK && InStock(fs) >= old(ClearSure(fs))
  {
    hide RunsEnded, Rep, FdsOk, Inv, Flatten, Cut, Torn, Stalled, FreePages, SameUser, Tight, Hopeless, Stocked, Assured;
    ghost var runs;
    st, runs := GcCheck(fs, fs.g.dps * 2 % 0x1_0000_0000, room);
    IntactMeans(old(fs.dir), old(fs.fds), old(fs.wc), fs, f, id);
    SameFilesOf(old(fs.fds), fs.fds);
    if st != OK {
      if Mid(fs, IDLE) { MidTorn(fs, IDLE, id, {}); }
      return;
    }
    StaysTight(fs.g, old(fs.dir), fs.dir, id);
    OpenPoints(fs, f, id);
    ReadyHeld(fs, f, id);
  }

  lemma UserIds(fs: Spiffs, id: half)
    requires Ready(fs) && id in fs.dir
    ensures 0 < id < IX_FLAG
  {
  }

  /** Every other object has the name and the bytes it had. */
  ghost predicate OthersContent(dir: Dir, dir': Dir, id: half) {
    && dir'.Keys == dir.Keys
    && forall x :: x in dir && x != id ==>
                     dir'[x].name == dir[x].name && dir'[x].chunks == dir[x].chunks && dir'[x].lost == dir[x].lost
  }

  lemma UserRefl(fds: seq<Fd>, id: half)
    ensures OthersUser(fds, fds, id) && SameFiles(fds, fds) && OthersKeep(fds, fds, id)
  {
  }

  lemma FilesThen(fds: seq<Fd>, fds1: seq<Fd>, fds2: seq<Fd>)
    requires SameFiles(fds, fds1) && SameFiles(fds1, fds2)
    ensures SameFiles(fds, fds2)
  {
  }

  lemma NoBytes(o: Obj)
    requires |Bytes(o)| == 0
    ensures Bytes(o) == []
  {
  }

  lemma OpenPoints(fs: Spiffs, f: nat, id: half)
    requires Mid(fs, IDLE) && OpenOn(fs, f, id) && id in fs.dir
    ensures Points(fs, f, id)
  {
    assert FdPix(fs.fds[f], fs.dir);
    FdSizeField(fs, f, id);
  }

  lemma ClearedContent(g: Geo, a: Dir, b: Dir, c: Dir, id: half)
    requires AllTight(g, a) && SameMeaning(a, b) && OthersSame(b, c, id) && id in a && c[id].name == b[id].name
    requires c[id].doomed == b[id].doomed && NoneDoomed(b) && c[id].chunks == [] && Tight(g, c[id])
    ensures OnlyContent(a, c, id) && NoneDoomed(c) && AllTight(g, c) && Bytes(c[id]) == []
  {
    forall x | x in c ensures Tight(g, c[x]) {
      if x != id { assert Tight(g, a[x]); }
    }
  }

  /** The loop, and the storing of the empty header. */
  method ClearLoop(fs: Spiffs, f: nat, id: half) returns (st: Status)
    requires Held(fs, f, id) && Tight(fs.g, fs.dir[id]) && fs.fds[f].size == SizeField(|Bytes(fs.dir[id])|)
    requires id in fs.dir && |Bytes(fs.dir[id])| > 0
    modifies fs
    ensures Spacious(st)
    ensures fs.cleaning == old(fs.cleaning)
    ensures id in fs.dir && OthersSame(old(fs.dir), fs.dir, id)
    ensures OthersKeep(old(fs.fds), fs.fds, id) && SameFiles(old(fs.fds), fs.fds)
    ensures st == OK ==> Mid(fs, IDLE) && PagesDropped(old(fs.fds), fs.fds, old(fs.wc), fs.wc, id, 2) && Rewound(fs.fds, id)
    ensures st == OK ==> fs.dir[id].chunks == [] && Tight(fs.g, fs.dir[id])
    ensures fs.dir[id].name == old(fs.dir)[id].name && fs.dir[id].doomed == old(fs.dir)[id].doomed && fs.dir[id].lost == old(fs.dir)[id].lost
    ensures st != OK ==> Torn(fs, id, {}) && fs.wc == old(fs.wc) && SameRefs(old(fs.fds), fs.fds)
    ensures old(InStock(fs)) >= |old(fs.dir)[id].ix| ==> st == OK && InStock(fs) + |old(fs.dir)[id].ix| >= old(InStock(fs))
  {
    hide Held, Cut, CutLoaded, Flatten, Rep, FdsOk, Inv, Torn, PagesDropped, Stocked;
    HeldHdr(fs, f, id);
    var first, pix;
    st, first, pix := CutLoop(fs, f, id, false);
    if st != OK { return; }
    ghost var fds := fs.fds;
    st := StoreEmpty(fs, f, id, pix);
    if st == OK { DroppedThen(old(fs.fds), fds, fs.fds, old(fs.wc), fs.wc, id, 2); }
  }
}
