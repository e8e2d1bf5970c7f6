/** The write cache: SPIFFS_write, spiffs_fflush_cache and spiffs_hydro_read. */
module WriteCache {
  import opened Nor
  import opened Layout
  import opened Chunks
  import opened Image
  import opened Core
  import opened Descriptors
  import opened State
  import opened Alloc
  import opened Stock
  import opened Events
  import opened Objects
  import opened Gc
  import opened Collect
  import opened Modify
  import opened Append
  import opened Hydro
  import opened Read

  // ---------------------------------------------------------------- what a file holds, cached writes included

  /** Write page w is where the cache keeps what has been written to object `id` but not yet stored. */
  predicate Keeps(wc: seq<CPage>, w: nat, id: half) {
    w < |wc| && wc[w].WrPage? && IsIx(wc[w].objId) && IdOf(wc[w].objId) == id
  }

  /** spiffs_cache_page_get_by_fd: the first write page of the object from slot `from` on, or |wc|. */
  function PageOf(wc: seq<CPage>, id: half, from: nat): (r: nat)
    requires from <= |wc|
    ensures from <= r <= |wc| && (r < |wc| ==> Keeps(wc, r, id))
    ensures forall w :: from <= w < r ==> !Keeps(wc, w, id)
    decreases |wc| - from
  {
    if from == |wc| || Keeps(wc, from, id) then from else PageOf(wc, id, from + 1)
  }

  /** The bytes of the object as its users have written them. */
  ghost function Logical(wc: seq<CPage>, dir: Dir, id: half): seq<byte>
    requires id in dir
  {
    var w := PageOf(wc, id, 0);
    if w < |wc| then Spliced(Bytes(dir[id]), wc[w].offset, wc[w].data) else Bytes(dir[id])
  }

  /** A write page begins within its file, holds something unless it begins at the end, and is the only one
      of its object. */
  ghost predicate PagesOk(wc: seq<CPage>, dir: Dir, psz: nat) {
    && (forall w :: 0 <= w < |wc| && wc[w].WrPage? ==>
                      && IsIx(wc[w].objId) && IdOf(wc[w].objId) in dir
                      && wc[w].offset <= |Bytes(dir[IdOf(wc[w].objId)])| && |wc[w].data| <= psz
                      && (|wc[w].data| > 0 || wc[w].offset == |Bytes(dir[IdOf(wc[w].objId)])|))
    && (forall v, w :: 0 <= v < w < |wc| && wc[v].WrPage? && wc[w].WrPage? ==> wc[v].objId != wc[w].objId)
  }

  /** Between calls, with cached writes. */
  ghost predicate Good(fs: Spiffs, psz: nat)
    reads fs
  {
    Ready(fs) && PagesOk(fs.wc, fs.dir, psz) && Referenced(fs.fds, fs.wc) && Ample(fs.g)
  }

  /** Write pages stay referred to while descriptors keep their references. */
  lemma RefsStay(fds: seq<Fd>, fds': seq<Fd>, wc: seq<CPage>, wc': seq<CPage>)
    requires Referenced(fds, wc) && |fds'| == |fds| && |wc'| == |wc|
    requires forall w :: 0 <= w < |wc| && wc'[w].WrPage? ==> wc[w].WrPage?
    requires forall i :: 0 <= i < |fds| && fds[i].fileNbr != 0 && fds[i].cache.Cached? ==>
                           fds'[i].fileNbr != 0 && fds'[i].cache == fds[i].cache
    ensures Referenced(fds', wc')
  {
    forall w | 0 <= w < |wc'| && wc'[w].WrPage? ensures exists i: nat :: RefersBy(fds', i, w) {
      var i: nat :| RefersBy(fds, i, w);
      assert RefersBy(fds', i, w);
    }
  }

  lemma RefsUser(fds: seq<Fd>, fds': seq<Fd>, wc: seq<CPage>)
    requires SameUser(fds, fds') && Referenced(fds, wc)
    ensures Referenced(fds', wc)
  {
    RefsStay(fds, fds', wc, wc);
  }

  /** Flash, directory and descriptors agree, but descriptors on object `id` may be beyond its end. */
  ghost predicate Loose(fs: Spiffs, id: half)
    reads fs
  {
    && id in fs.dir && fs.Ok() && Rep(fs.g, fs.P, fs.lu, fs.pages, fs.dir, {}) && NoneDoomed(fs.dir)
    && FdsPix(fs.fds, fs.dir, {}) && FdsSize(fs.fds, fs.dir, 0, {}) && CacheRefs(fs.fds, fs.wc)
    && FdsOff(fs.fds, fs.dir, fs.wc, id)
  }

  lemma MidLoose(fs: Spiffs, id: half)
    requires Mid(fs, IDLE) && NoneDoomed(fs.dir) && id in fs.dir
    ensures Loose(fs, id)
  {
    forall i | 0 <= i < |fs.fds| && IdOf(fs.fds[i].objId) != id ensures FdOff(fs.fds[i], fs.dir, fs.wc) {
      if IdOf(fs.fds[i].objId) != 0 { assert FdOff(fs.fds[i], fs.dir, fs.wc); }
    }
  }

  /** What a write to object `id` through descriptor f may leave that got no page, or lost one: nothing has changed for users of
      other objects, and flash and directory agree or at most this object is torn, unless no page at all is free. */
  ghost predicate Failed(wc: seq<CPage>, dir: Dir, fds: seq<Fd>, fs: Spiffs, f: nat, id: half, psz: nat)
    reads fs
  {
    && OnlyContent(dir, fs.dir, id) && id in dir && OthersLogical(wc, dir, fs.wc, fs.dir, id) && PagesOk(fs.wc, fs.dir, psz)
    && SameUserBut(fds, fs.fds, f) && (Loose(fs, id) || Survived(fs, id, {f}))
  }

  lemma OnlyPage(wc: seq<CPage>, dir: Dir, psz: nat, id: half, w: nat)
    requires PagesOk(wc, dir, psz) && Keeps(wc, w, id)
    ensures PageOf(wc, id, 0) == w
  {
  }

  lemma OnlyOne(wc: seq<CPage>, dir: Dir, psz: nat, id: half, v: nat, w: nat)
    requires PagesOk(wc, dir, psz)
    ensures Keeps(wc, v, id) && Keeps(wc, w, id) ==> v == w
  {
  }

  lemma PageFits(wc: seq<CPage>, dir: Dir, psz: nat, id: half, w: nat)
    requires PagesOk(wc, dir, psz) && Keeps(wc, w, id) && id in dir
    ensures wc[w].offset <= |Bytes(dir[id])| && |wc[w].data| <= psz
  {
  }

  /** What a user of another object sees does not change. */
  ghost predicate OthersLogical(wc: seq<CPage>, dir: Dir, wc': seq<CPage>, dir': Dir, id: half) {
    dir'.Keys == dir.Keys && forall x :: x in dir && x != id ==> Logical(wc', dir', x) == Logical(wc, dir, x)
  }

  /** Write pages of other objects are the same. */
  ghost predicate OthersPages(wc: seq<CPage>, wc': seq<CPage>, id: half) {
    && |wc'| == |wc|
    && forall w :: 0 <= w < |wc| ==>
                     wc'[w] == wc[w] || ((wc[w].Other? || Keeps(wc, w, id)) && (wc'[w].Other? || Keeps(wc', w, id)))
  }

  lemma OthersKept(wc: seq<CPage>, dir: Dir, wc': seq<CPage>, dir': Dir, psz: nat, id: half)
    requires PagesOk(wc, dir, psz) && PagesOk(wc', dir', psz) && OnlyContent(dir, dir', id) && OthersPages(wc, wc', id)
    ensures OthersLogical(wc, dir, wc', dir', id)
  {
    forall x | x in dir && x != id ensures Logical(wc', dir', x) == Logical(wc, dir, x) {
      var v, w := PageOf(wc, x, 0), PageOf(wc', x, 0);
      if v < |wc| { OnlyPage(wc', dir', psz, x, v); } else if w < |wc'| { OnlyPage(wc, dir, psz, x, w); }
    }
  }

  // ---------------------------------------------------------------- giving up a write page

  /** The write page has been stored, so the descriptors that refer to it may let go of it. */
  method Release(fs: Spiffs, w: nat, id: half)
    requires Ready(fs) && Keeps(fs.wc, w, id) && id in fs.dir && Referenced(fs.fds, fs.wc)
    requires |Bytes(fs.dir[id])| >= fs.wc[w].End()
    modifies fs`fds, fs`wc
    ensures Ready(fs) && Referenced(fs.fds, fs.wc)
    ensures fs.wc == old(fs.wc)[w := Other] && SameUserButCache(old(fs.fds), fs.fds)
    ensures forall i :: 0 <= i < |fs.fds| ==>
                          fs.fds[i].cache == if old(fs.fds)[i].cache == Cached(w) then NoCache else old(fs.fds)[i].cache
  {
    hide FlashOk, FreeSuffix, CursorOk, Inv, Rep, Flatten;
    ghost var fds, wc := fs.fds, fs.wc;
    CacheRelease(fs, w);
    ReleasedRefs(fds, fs.fds, wc, w);
  }

  lemma ReleasedRefs(fds: seq<Fd>, fds': seq<Fd>, wc: seq<CPage>, w: nat)
    requires Referenced(fds, wc) && w < |wc| && |fds'| == |fds|
    requires forall i :: 0 <= i < |fds| ==> fds'[i] == Released(fds[i], w)
    ensures Referenced(fds', wc[w := Other])
  {
    forall v | 0 <= v < |wc| && v != w && wc[v].WrPage? ensures exists i: nat :: RefersBy(fds', i, v) {
      var i: nat :| RefersBy(fds, i, v);
      assert RefersBy(fds', i, v);
    }
  }

  /** ... or not, and then what was in it is lost. */
  method GiveUp(fs: Spiffs, f: nat, id: half, w: nat, ghost stored: bool)
    requires Keeps(fs.wc, w, id) && id in fs.dir && (if stored then Whole(fs, id) else Survived(fs, id, {f}))
    modifies fs`fds, fs`wc
    ensures fs.wc == old(fs.wc)[w := Other] && SameUserButCache(old(fs.fds), fs.fds) && |fs.fds| == |old(fs.fds)|
    ensures forall i :: 0 <= i < |fs.fds| ==> fs.fds[i] == Released(old(fs.fds)[i], w)
    ensures if stored then Loose(fs, id) else Survived(fs, id, {f})
  {
    hide Inv, Rep, FreePages, NoneDoomed, Tight, Spare;
    ghost var fds, wc, x: half := fs.fds, fs.wc, id;
    ghost var own := Torn(fs, id, {f});
    if stored {
      MidLoose(fs, id);
    } else if !own {
      if Mid(fs, IDLE) { MidTorn(fs, IDLE, id, {f}); }
      x :| Torn(fs, x, {});
    }
    CacheRelease(fs, w);
    ReleasedLoose(fds, fs.fds, wc, fs.dir, id, w);
    if !stored { assert if own then Torn(fs, id, {f}) else Torn(fs, x, {}); }
  }

  lemma ReleasedLoose(fds: seq<Fd>, fds': seq<Fd>, wc: seq<CPage>, dir: Dir, id: half, w: nat)
    requires |fds'| == |fds| && (forall i :: 0 <= i < |fds| ==> fds'[i] == Released(fds[i], w))
    requires CacheRefs(fds, wc) && Keeps(wc, w, id)
    ensures CacheRefs(fds', wc[w := Other])
    ensures forall except :: FdsPix(fds, dir, except) ==> FdsPix(fds', dir, except)
    ensures forall busy, except :: FdsSize(fds, dir, busy, except) ==> FdsSize(fds', dir, busy, except)
    ensures FdsOff(fds, dir, wc, id) ==> FdsOff(fds', dir, wc[w := Other], id)
  {
    forall i | 0 <= i < |fds|
      ensures FdPix(fds[i], dir) ==> FdPix(fds'[i], dir)
      ensures FdSize(fds[i], dir) ==> FdSize(fds'[i], dir)
      ensures IdOf(fds[i].objId) != id && FdOff(fds[i], dir, wc) ==> FdOff(fds'[i], dir, wc[w := Other])
    {
    }
  }

  /** What the user of a descriptor sees, its cache page aside. */
  ghost predicate SameUserButCache(fds: seq<Fd>, fds': seq<Fd>) {
    && |fds'| == |fds|
    && forall i :: 0 <= i < |fds| ==>
                     && fds'[i].fileNbr == fds[i].fileNbr && fds'[i].objId == fds[i].objId
                     && (fds[i].fileNbr != 0 ==> fds'[i].fdoffset == fds[i].fdoffset)
                     && fds'[i].flags == fds[i].flags
  }

  lemma UserUncached(fds: seq<Fd>, fds': seq<Fd>)
    requires SameUser(fds, fds')
    ensures SameUserButCache(fds, fds')
  {
  }

  /** Since then only the bytes of object `id` are different, and no user of a descriptor has noticed. */
  ghost predicate Since(wc: seq<CPage>, dir: Dir, fds: seq<Fd>, fs: Spiffs, id: half)
    reads fs
  {
    && id in dir && id in fs.dir && OnlyContent(dir, fs.dir, id) && OthersLogical(wc, dir, fs.wc, fs.dir, id)
    && SameUserButCache(fds, fs.fds)
  }

  /** Writing back a write page of a file that has lost no page.  On success the file holds what its users have written, but for
      pages that are lost, of which `dropped` tells.  Otherwise, too, the write page is given up, and what is left of it are the
      first `done` bytes. */
  method Dump(fs: Spiffs, f: nat, id: half, w: nat, psz: nat, room: nat)
    returns (st: Status, ghost stored: bool, ghost done: nat, dropped: bool)
    requires Good(fs, psz) && Keeps(fs.wc, w, id) && OpenOn(fs, f, id) && id in fs.dir && fs.dir[id].lost == {} && 0 < room
    modifies fs
    ensures Spacious(st) && done <= |old(fs.wc)[w].data| && (st == OK <==> stored && done == |old(fs.wc)[w].data|)
    ensures fs.wc == old(fs.wc)[w := Other] && PageOf(fs.wc, id, 0) == |fs.wc| && PagesOk(fs.wc, fs.dir, psz)
    ensures Since(old(fs.wc), old(fs.dir), old(fs.fds), fs, id)
    ensures Bytes(fs.dir[id]) == Spliced(Bytes(old(fs.dir)[id]), old(fs.wc)[w].offset, old(fs.wc)[w].data[..done])
    ensures st == OK ==> Good(fs, psz) && Bytes(fs.dir[id]) == Logical(old(fs.wc), old(fs.dir), id)
    ensures st == OK ==> forall i :: 0 <= i < |fs.fds| && IdOf(fs.fds[i].objId) == id ==> fs.fds[i].cache.NoCache?
    ensures st != OK ==> if stored then Loose(fs, id) else Survived(fs, id, {f})
    ensures old(CannotStore(fs, id, w)) ==> st == ERR_FULL && stored && done == 0
    ensures dropped <==> fs.dir[id].lost != {}
    ensures old(SafeWrite(fs, id, fs.wc[w].offset, |fs.wc[w].data|)) ==> !dropped
    ensures old(Stores(fs, id, fs.wc[w].offset, |fs.wc[w].data|)) ==>
              && st == OK && !dropped
              && InStock(fs) + WriteNeed(fs.g, |Bytes(old(fs.dir)[id])|, old(fs.wc)[w].offset, |old(fs.wc)[w].data|)
                 >= old(StoreSure(fs, id, fs.wc[w].offset, |fs.wc[w].data|))
  {
    hide Ready, OnlyContent, SameUser, Flatten, Whole, Survived, Hopeless, Loose, Spliced, Referenced, SafeWrite, Foretold, Tally,
      Ample, Stores, StoreSure, WriteNeed, InStock;
    ghost var wc, dir := fs.wc, fs.dir;
    OnlyPage(wc, dir, psz, id, w);
    PageFits(wc, dir, psz, id, w);
    DumpStarts(fs, id, w);
    var page := fs.wc[w];
    ghost var had;
    st, stored, done, dropped, had := HydroWrite(fs, f, id, page.offset, page.data, room);
    ghost var fds := fs.fds;
    UserUncached(old(fs.fds), fds);
    DumpedPages(wc, dir, fs.dir, psz, id, w);
    OthersKept(wc, dir, wc[w := Other], fs.dir, psz, id);
    if st != OK {
      ContentHas(dir, fs.dir, id);
      GiveUp(fs, f, id, w, stored);
      return;
    }
    assert page.data[..done] == page.data;
    SplicedReaches(Bytes(dir[id]), page.offset, page.data);
    RefsUser(old(fs.fds), fds, wc);
    Release(fs, w, id);
    NoRefs(fs, id);
  }

  lemma ContentHas(dir: Dir, dir': Dir, id: half)
    requires OnlyContent(dir, dir', id) && id in dir
    ensures id in dir'
  {
  }

  /** Not even the deleted pages make room for what the write page holds. */
  ghost predicate CannotStore(fs: Spiffs, id: half, w: nat)
    reads fs
  {
    && w < |fs.wc| && fs.wc[w].WrPage? && |fs.wc[w].data| > 0 && id in fs.dir
    && Hopeless(fs, WithMeta(fs.g, FirstPart(|Bytes(fs.dir[id])|, fs.wc[w].offset, |fs.wc[w].data|)))
  }

  lemma DumpStarts(fs: Spiffs, id: half, w: nat)
    requires Ready(fs) && id in fs.dir && w < |fs.wc| && fs.wc[w].WrPage? && fs.wc[w].offset <= |Bytes(fs.dir[id])|
    ensures |Bytes(fs.dir[id])| == 0 ==> fs.wc[w].offset < fs.g.dps
    ensures !Gap(fs.dir, id, fs.wc[w].offset) && Landing(|Bytes(fs.dir[id])|, fs.wc[w].offset) == fs.wc[w].offset
    ensures CannotStore(fs, id, w) ==> Spliced(Bytes(fs.dir[id]), fs.wc[w].offset, fs.wc[w].data[..0]) == Bytes(fs.dir[id])
  {
    SplicedNothing(Bytes(fs.dir[id]), fs.wc[w].offset);
    assert fs.wc[w].data[..0] == [];
  }

  lemma SplicedReaches(was: seq<byte>, off: nat, buf: seq<byte>)
    requires off <= |was|
    ensures |Spliced(was, off, buf)| >= off + |buf|
  {
  }

  /** Bytes of other objects do not change, so their write pages stay in place. */
  lemma DumpedPages(wc: seq<CPage>, dir: Dir, dir': Dir, psz: nat, id: half, w: nat)
    requires PagesOk(wc, dir, psz) && Keeps(wc, w, id) && OnlyContent(dir, dir', id)
    ensures PagesOk(wc[w := Other], dir', psz) && OthersPages(wc, wc[w := Other], id)
    ensures PageOf(wc[w := Other], id, 0) == |wc|
  {
    var wc' := wc[w := Other];
    forall v | 0 <= v < |wc'| ensures !Keeps(wc', v, id) { OnlyOne(wc, dir, psz, id, v, w); }
  }

  /** Without a write page no descriptor refers to one. */
  lemma NoRefs(fs: Spiffs, id: half)
    requires Ready(fs) && PageOf(fs.wc, id, 0) == |fs.wc| && id in fs.dir
    ensures forall i :: 0 <= i < |fs.fds| && IdOf(fs.fds[i].objId) == id ==> fs.fds[i].cache.NoCache?
  {
    forall i | 0 <= i < |fs.fds| && IdOf(fs.fds[i].objId) == id ensures fs.fds[i].cache.NoCache? {
      if fs.fds[i].cache.Cached? {
        assert FdPix(fs.fds[i], fs.dir);
        assert Keeps(fs.wc, fs.fds[i].cache.slot, id);
      }
    }
  }

  // ---------------------------------------------------------------- SPIFFS_write

  /** The descriptor finds the write page of its object, if there is one. */
  method FindPage(fs: Spiffs, f: nat, id: half, ghost psz: nat)
    requires Good(fs, psz) && OpenOn(fs, f, id) && id in fs.dir
    modifies fs`fds
    ensures Good(fs, psz) && OpenOn(fs, f, id) && SameUserButCache(old(fs.fds), fs.fds)
    ensures fs.fds[f].flags == old(fs.fds)[f].flags && fs.fds[f].fdoffset == old(fs.fds)[f].fdoffset
    ensures fs.fds[f].size == old(fs.fds)[f].size
    ensures var w := PageOf(fs.wc, id, 0); fs.fds[f].cache == if w < |fs.wc| then Cached(w) else NoCache
  {
    assert FdPix(fs.fds[f], fs.dir);
    if fs.fds[f].cache.NoCache? {
      var w := PageOf(fs.wc, id, 0);
      ghost var fds := fs.fds;
      if w < |fs.wc| {
        SetCache(fs, f, id, w);
        RefsStay(fds, fs.fds, fs.wc, fs.wc);
      }
    } else {
      OnlyPage(fs.wc, fs.dir, psz, id, fs.fds[f].cache.slot);
    }
  }

  method SetCache(fs: Spiffs, f: nat, id: half, w: nat)
    requires Ready(fs) && OpenOn(fs, f, id) && Keeps(fs.wc, w, id) && IsIx(fs.fds[f].objId) && fs.fds[f].cache.NoCache?
    modifies fs`fds
    ensures Ready(fs) && fs.fds == old(fs.fds)[f := old(fs.fds)[f].(cache := Cached(w))]
  {
    ghost var fds := fs.fds;
    fs.fds := fs.fds[f := fs.fds[f].(cache := Cached(w))];
    SameButCacheAndOffset(fds, fs.fds, fs.wc, fs.wc, fs.dir, f);
  }

  /** Descriptors agree with the directory whatever write page they refer to, as long as that is one of
      their object, and they stay within the file. */
  lemma SameButCacheAndOffset(fds: seq<Fd>, fds': seq<Fd>, wc: seq<CPage>, wc': seq<CPage>, dir: Dir, f: nat)
    requires FdsOk(fds, wc, dir, 0, {}) && f < |fds| == |fds'|
    requires forall i :: 0 <= i < |fds| && i != f ==> fds'[i] == fds[i]
    requires fds'[f] == fds[f].(cache := fds'[f].cache, fdoffset := fds'[f].fdoffset)
    requires fds'[f].cache.Cached? ==> fds'[f].fileNbr != 0 && RefersTo(wc', fds'[f].cache.slot, fds'[f].objId)
    requires IdOf(fds[f].objId) != 0 ==> FdOff(fds'[f], dir, wc')
    requires |wc'| == |wc|
    requires forall w :: 0 <= w < |wc| && wc[w].WrPage? ==> wc'[w].WrPage? && wc'[w].objId == wc[w].objId && wc[w].End() <= wc'[w].End()
    ensures FdsOk(fds', wc', dir, 0, {})
  {
    forall i | 0 <= i < |fds'| ensures FdPix(fds'[i], dir) { assert FdPix(fds[i], dir); }
    forall i | 0 <= i < |fds'| && IdOf(fds'[i].objId) != 0 ensures FdSize(fds'[i], dir) && FdOff(fds'[i], dir, wc') {
      assert FdSize(fds[i], dir) && FdOff(fds[i], dir, wc);
    }
  }

  /** Where a write goes: where the descriptor is, or, when appending, the end of what has been written. */
  ghost function WriteAt(fs: Spiffs, f: nat, id: half): nat
    requires f < |fs.fds| && id in fs.dir
    reads fs
  {
    if fs.fds[f].flags.append then |Logical(fs.wc, fs.dir, id)| else fs.fds[f].fdoffset
  }

  /** Where a write leaves the descriptor it goes through, less the length: an appending one counts from the
      end of the stored file. */
  ghost function Before(fs: Spiffs, f: nat, id: half): nat
    requires f < |fs.fds| && id in fs.dir
    reads fs
  {
    if fs.fds[f].flags.append then |Bytes(fs.dir[id])| else fs.fds[f].fdoffset
  }

  /** When appending, the descriptor is put to the end of the stored file, and the write to the end of the
      write page if that reaches further. */
  method WriteOffset(fs: Spiffs, f: nat, id: half, ghost psz: nat) returns (offset: nat)
    requires Good(fs, psz) && OpenOn(fs, f, id) && id in fs.dir
    modifies fs`fds
    ensures Good(fs, psz) && OpenOn(fs, f, id) && offset == WriteAt(fs, f, id) == old(WriteAt(fs, f, id))
    ensures offset <= |Logical(fs.wc, fs.dir, id)| && fs.fds[f].fdoffset <= offset
    ensures fs.fds[f].flags == old(fs.fds)[f].flags && fs.fds[f].fdoffset == old(Before(fs, f, id))
    ensures SameUserBut(old(fs.fds), fs.fds, f)
    ensures var w := PageOf(fs.wc, id, 0); fs.fds[f].cache == if w < |fs.wc| then Cached(w) else NoCache
  {
    FdSizeField(fs, f, id);
    if fs.fds[f].flags.append {
      ghost var fds := fs.fds;
      SetOffset(fs, f, id, if fs.fds[f].size == UNDEFINED_LEN then 0 else fs.fds[f].size);
      RefsStay(fds, fs.fds, fs.wc, fs.wc);
    }
    offset := fs.fds[f].fdoffset;
    FindPage(fs, f, id, psz);
    WithinLogical(fs, f, id, psz);
    if fs.fds[f].flags.append {
      offset := if fs.fds[f].size == UNDEFINED_LEN then 0 else fs.fds[f].size;
      if fs.fds[f].cache.Cached? {
        var end := fs.wc[fs.fds[f].cache.slot].End();
        offset := if offset < end then end else offset;
      }
    }
  }

  ghost predicate SameUserBut(fds: seq<Fd>, fds': seq<Fd>, f: nat) {
    && |fds'| == |fds|
    && forall i :: 0 <= i < |fds| ==>
                     && fds'[i].fileNbr == fds[i].fileNbr && fds'[i].objId == fds[i].objId
                     && (fds[i].fileNbr != 0 && i != f ==> fds'[i].fdoffset == fds[i].fdoffset)
                     && fds'[i].flags == fds[i].flags
  }

  method SetOffset(fs: Spiffs, f: nat, id: half, n: nat)
    requires Ready(fs) && OpenOn(fs, f, id) && id in fs.dir
    requires n <= |Bytes(fs.dir[id])| || (fs.fds[f].cache.Cached? && RefersTo(fs.wc, fs.fds[f].cache.slot, fs.fds[f].objId)
                                          && n <= fs.wc[fs.fds[f].cache.slot].End())
    modifies fs`fds
    ensures Ready(fs) && fs.fds == old(fs.fds)[f := old(fs.fds)[f].(fdoffset := n)]
  {
    ghost var fds := fs.fds;
    fs.fds := fs.fds[f := fs.fds[f].(fdoffset := n)];
    SameButCacheAndOffset(fds, fs.fds, fs.wc, fs.wc, fs.dir, f);
  }

  /** A descriptor is within what has been written. */
  lemma WithinLogical(fs: Spiffs, f: nat, id: half, psz: nat)
    requires Good(fs, psz) && OpenOn(fs, f, id) && id in fs.dir
    ensures fs.fds[f].fdoffset <= |Logical(fs.wc, fs.dir, id)|
    ensures fs.fds[f].size == SizeField(|Bytes(fs.dir[id])|) && |Bytes(fs.dir[id])| < 0x8000_0000
    ensures var w := PageOf(fs.wc, id, 0);
            |Logical(fs.wc, fs.dir, id)| ==
            if w < |fs.wc| && fs.wc[w].End() > |Bytes(fs.dir[id])| then fs.wc[w].End() else |Bytes(fs.dir[id])|
  {
    assert FdOff(fs.fds[f], fs.dir, fs.wc) && FdPix(fs.fds[f], fs.dir);
    FdSizeField(fs, f, id);
    if fs.fds[f].cache.Cached? {
      OnlyPage(fs.wc, fs.dir, psz, id, fs.fds[f].cache.slot);
    }
  }

  /** Only object `id`, now holding `bytes` for its users, and the offset of descriptor f are different. */
  ghost predicate Written(wc: seq<CPage>, dir: Dir, fds: seq<Fd>, fs: Spiffs, f: nat, id: half, bytes: seq<byte>)
    reads fs
  {
    && id in dir && id in fs.dir && OnlyContent(dir, fs.dir, id) && OthersLogical(wc, dir, fs.wc, fs.dir, id)
    && SameUserBut(fds, fs.fds, f) && Logical(fs.wc, fs.dir, id) == bytes
  }

  lemma SinceWritten(wc: seq<CPage>, dir: Dir, fds: seq<Fd>, wc': seq<CPage>, dir': Dir, fds': seq<Fd>, fs: Spiffs, f: nat,
                     id: half, bytes: seq<byte>)
    requires OnlyContent(dir, dir', id) && OthersLogical(wc, dir, wc', dir', id) && SameUserBut(fds, fds', f) && id in dir
    requires Written(wc', dir', fds', fs, f, id, bytes)
    ensures Written(wc, dir, fds, fs, f, id, bytes)
  {
    ContentTransitive(dir, dir', fs.dir, id);
  }

  /** Writing into what a write page already covers, or right behind it. */
  lemma NestedSplice(was: seq<byte>, off: nat, data: seq<byte>, offset: nat, buf: seq<byte>)
    requires off <= |was| && off <= offset <= off + |data|
    ensures Spliced(was, off, Splice(data, offset - off, buf)) == Spliced(Spliced(was, off, data), offset, buf)
  {
  }

  /** Write page p with `buf` put in at `offset` of the file. */
  function PutIn(p: CPage, offset: nat, buf: seq<byte>): CPage
    requires p.WrPage? && p.offset <= offset <= p.End()
  {
    p.(data := Splice(p.data, offset - p.offset, buf))
  }

  /** A small write that fits into the write page of the object. */
  method PutInPage(fs: Spiffs, f: nat, id: half, w: nat, offset: nat, buf: seq<byte>, psz: nat)
    requires Good(fs, psz) && OpenOn(fs, f, id) && id in fs.dir && Keeps(fs.wc, w, id) && fs.fds[f].cache == Cached(w)
    requires fs.wc[w].offset <= offset <= fs.wc[w].End() && offset + |buf| <= fs.wc[w].offset + psz
    requires fs.fds[f].fdoffset <= offset
    modifies fs`wc, fs`fds
    ensures Good(fs, psz) && f < |fs.fds| && fs.fds[f].fdoffset == old(fs.fds)[f].fdoffset + |buf|
    ensures Written(old(fs.wc), fs.dir, old(fs.fds), fs, f, id, Spliced(Logical(old(fs.wc), fs.dir, id), offset, buf))
    ensures fs.wc == old(fs.wc)[w := PutIn(old(fs.wc)[w], offset, buf)]
  {
    hide Rep, Inv, FdsPix, FdsSize, FdsOff, CacheRefs, PagesOk, OthersPages, AllTight, Flatten, OthersLogical, Spliced,
      Referenced;
    ghost var wc, fds := fs.wc, fs.fds;
    var page := fs.wc[w];
    OnlyPage(wc, fs.dir, psz, id, w);
    PageFits(wc, fs.dir, psz, id, w);
    fs.wc := fs.wc[w := page.(data := Splice(page.data, offset - page.offset, buf))];
    fs.fds := fs.fds[f := fs.fds[f].(fdoffset := fs.fds[f].fdoffset + |buf|)];
    NestedSplice(Bytes(fs.dir[id]), page.offset, page.data, offset, buf);
    PutFds(fds, fs.fds, wc, fs.wc, fs.dir, f, w);
    RefsStay(fds, fs.fds, wc, fs.wc);
    PagePut(wc, fs.wc[w], fs.dir, psz, id, w);
    OthersKept(wc, fs.dir, fs.wc, fs.dir, psz, id);
  }

  lemma PutFds(fds: seq<Fd>, fds': seq<Fd>, wc: seq<CPage>, wc': seq<CPage>, dir: Dir, f: nat, w: nat)
    requires FdsOk(fds, wc, dir, 0, {}) && f < |fds| == |fds'| && w < |wc| == |wc'| && wc[w].WrPage? && fds[f].cache == Cached(w)
    requires wc' == wc[w := wc'[w]] && wc'[w].WrPage? && wc'[w].objId == wc[w].objId && wc[w].End() <= wc'[w].End()
    requires fds' == fds[f := fds[f].(fdoffset := fds'[f].fdoffset)] && fds'[f].fdoffset <= wc'[w].End()
    ensures FdsOk(fds', wc', dir, 0, {})
  {
    SameButCacheAndOffset(fds, fds', wc, wc', dir, f);
  }

  lemma PagePut(wc: seq<CPage>, page: CPage, dir: Dir, psz: nat, id: half, w: nat)
    requires PagesOk(wc, dir, psz) && Keeps(wc, w, id) && id in dir
    requires page.WrPage? && page.objId == wc[w].objId && page.offset == wc[w].offset && |wc[w].data| <= |page.data| <= psz
    ensures PagesOk(wc[w := page], dir, psz) && OthersPages(wc, wc[w := page], id) && PageOf(wc[w := page], id, 0) == w
    ensures OnlyContent(dir, dir, id)
  {
    assert Keeps(wc[w := page], w, id);
    OnlyPage(wc[w := page], dir, psz, id, w);
  }

  /** A small write that goes into a new write page. */
  method NewPageFor(fs: Spiffs, f: nat, id: half, w: nat, offset: nat, buf: seq<byte>, psz: nat)
    requires Good(fs, psz) && OpenOn(fs, f, id) && id in fs.dir && PageOf(fs.wc, id, 0) == |fs.wc|
    requires w < |fs.wc| && fs.wc[w].Other? && |buf| <= psz && fs.fds[f].fdoffset <= offset <= |Bytes(fs.dir[id])|
    modifies fs`wc, fs`fds
    ensures f < |fs.fds| && fs.fds[f].fdoffset == old(fs.fds)[f].fdoffset + |buf| && SameUserBut(old(fs.fds), fs.fds, f)
    ensures |buf| > 0 || offset == |Bytes(fs.dir[id])| ==> Good(fs, psz)
    ensures |buf| > 0 || offset == |Bytes(fs.dir[id])| ==>
              Written(old(fs.wc), fs.dir, old(fs.fds), fs, f, id, Spliced(Logical(old(fs.wc), fs.dir, id), offset, buf))
    ensures Keeps(fs.wc, w, id) && fs.wc == old(fs.wc)[w := WrPage(old(fs.fds)[f].objId, offset, buf)]
  {
    hide Rep, Inv, FdsSize, FdsOff, CacheRefs, OthersPages, AllTight, Flatten, OthersLogical, Referenced, PagesOk;
    ghost var wc, fds := fs.wc, fs.fds;
    assert FdPix(fds[f], fs.dir);
    fs.wc := fs.wc[w := WrPage(fs.fds[f].objId, offset, buf)];
    fs.fds := fs.fds[f := fs.fds[f].(cache := Cached(w), fdoffset := fs.fds[f].fdoffset + |buf|)];
    if |buf| > 0 || offset == |Bytes(fs.dir[id])| {
      PageAdded(wc, fs.wc[w], fs.dir, psz, id, w);
      NewPageFds(fds, fs.fds, wc, fs.wc, fs.dir, f, w);
      NoOldRef(fds, wc, fs.dir, f, id);
      RefsNew(fds, fs.fds, wc, fs.wc, f, w);
      OthersKept(wc, fs.dir, fs.wc, fs.dir, psz, id);
    }
  }

  /** A descriptor of an object without a write page refers to none. */
  lemma NoOldRef(fds: seq<Fd>, wc: seq<CPage>, dir: Dir, f: nat, id: half)
    requires FdsOk(fds, wc, dir, 0, {}) && f < |fds| && fds[f].fileNbr != 0 && IdOf(fds[f].objId) == id
    requires PageOf(wc, id, 0) == |wc|
    ensures fds[f].cache.NoCache?
  {
    assert FdPix(fds[f], dir);
    if fds[f].cache.Cached? { assert Keeps(wc, fds[f].cache.slot, id); }
  }

  lemma RefsNew(fds: seq<Fd>, fds': seq<Fd>, wc: seq<CPage>, wc': seq<CPage>, f: nat, w: nat)
    requires f < |fds| == |fds'| && fds[f].cache.NoCache? && fds[f].fileNbr != 0 && Referenced(fds, wc)
    requires fds' == fds[f := fds[f].(cache := Cached(w), fdoffset := fds'[f].fdoffset)]
    requires w < |wc| == |wc'| && wc' == wc[w := wc'[w]]
    ensures Referenced(fds', wc')
  {
    assert RefersBy(fds', f, w);
    forall v | 0 <= v < |wc'| && v != w && wc'[v].WrPage? ensures exists i: nat :: RefersBy(fds', i, v) {
      var i: nat :| RefersBy(fds, i, v);
      assert RefersBy(fds', i, v);
    }
  }

  lemma PageAdded(wc: seq<CPage>, page: CPage, dir: Dir, psz: nat, id: half, w: nat)
    requires PagesOk(wc, dir, psz) && PageOf(wc, id, 0) == |wc| && id in dir && w < |wc| && wc[w].Other?
    requires page.WrPage? && IsIx(page.objId) && IdOf(page.objId) == id && |page.data| <= psz
    requires page.offset <= |Bytes(dir[id])| && (|page.data| > 0 || page.offset == |Bytes(dir[id])|)
    ensures PagesOk(wc[w := page], dir, psz) && OthersPages(wc, wc[w := page], id) && PageOf(wc[w := page], id, 0) == w
    ensures OnlyContent(dir, dir, id)
  {
    forall v | 0 <= v < |wc| && wc[v].WrPage? ensures wc[v].objId != page.objId { assert !Keeps(wc, v, id); }
    assert Keeps(wc[w := page], w, id);
    OnlyPage(wc[w := page], dir, psz, id, w);
  }

  lemma NewPageFds(fds: seq<Fd>, fds': seq<Fd>, wc: seq<CPage>, wc': seq<CPage>, dir: Dir, f: nat, w: nat)
    requires FdsOk(fds, wc, dir, 0, {}) && f < |fds| == |fds'| && w < |wc| == |wc'| && wc[w].Other? && fds[f].fileNbr != 0
    requires wc' == wc[w := wc'[w]] && wc'[w].WrPage? && wc'[w].objId == fds[f].objId
    requires fds' == fds[f := fds[f].(cache := Cached(w), fdoffset := fds'[f].fdoffset)] && fds'[f].fdoffset <= wc'[w].End()
    ensures FdsOk(fds', wc', dir, 0, {})
  {
    SameButCacheAndOffset(fds, fds', wc, wc', dir, f);
  }

  /** A write that goes to the file at once. */
  method PlainWrite(fs: Spiffs, f: nat, id: half, offset: nat, buf: seq<byte>, psz: nat, room: nat) returns (st: Status, dropped: bool)
    requires Good(fs, psz) && OpenOn(fs, f, id) && id in fs.dir && PageOf(fs.wc, id, 0) == |fs.wc| && 0 < room
    requires fs.fds[f].fdoffset <= offset <= |Bytes(fs.dir[id])| && fs.dir[id].lost == {}
    modifies fs
    ensures |buf| > 0 || offset == |Bytes(old(fs.dir)[id])| ==> id in fs.dir && (dropped <==> fs.dir[id].lost != {})
    ensures old(SafeWrite(fs, id, offset, |buf|)) ==> !dropped
    ensures |buf| > 0 || offset == |Bytes(old(fs.dir)[id])| ==> Spacious(st)
    ensures |buf| > 0 || offset == |Bytes(old(fs.dir)[id])| ==> st == OK ==>
              && Good(fs, psz) && f < |fs.fds| && fs.fds[f].fdoffset == old(fs.fds)[f].fdoffset + |buf|
              && Written(old(fs.wc), old(fs.dir), old(fs.fds), fs, f, id,
                         Spliced(Logical(old(fs.wc), old(fs.dir), id), offset, buf))
    ensures |buf| > 0 || offset == |Bytes(old(fs.dir)[id])| ==> st != OK || dropped ==>
              Failed(old(fs.wc), old(fs.dir), old(fs.fds), fs, f, id, psz)
    ensures |buf| == 0 && offset < |Bytes(old(fs.dir)[id])| && old(Quiet(fs, WithMeta(fs.g, 0))) && id < IX_FLAG ==>
              StoredWork(old(fs.dir), old(fs.work), old(PageToHave(fs)), fs, f, id, st)
    ensures (|buf| > 0 || offset == |Bytes(old(fs.dir)[id])|) && old(Stores(fs, id, offset, |buf|)) ==>
              && st == OK && !dropped
              && InStock(fs) + WriteNeed(fs.g, |Bytes(old(fs.dir)[id])|, offset, |buf|) >= old(StoreSure(fs, id, offset, |buf|))
  {
    hide Stores, StoreSure, WriteNeed, InStock, Ready, OnlyContent, SameUser, Flatten, PagesOk, OthersPages, Whole, Survived,
      Hopeless, Quiet, Loose, OthersLogical, Referenced, Gap, Spliced, StoredWork, FreePages, SomeDeletedBlock, SafeWrite,
      Foretold, Tally, Ample;
    ghost var wc, dir := fs.wc, fs.dir;
    PlainStarts(fs, f, id, offset);
    ghost var stored, done, had;
    st, stored, done, dropped, had := HydroWrite(fs, f, id, offset, buf, room);
    ghost var fds := fs.fds;
    if |buf| > 0 || offset == |Bytes(dir[id])| {
      UserUncached(old(fs.fds), fds);
      UserOpen(old(fs.fds), fs, f, id);
      SamePages(wc, dir, fs.dir, psz, id);
      OthersKept(wc, dir, wc, fs.dir, psz, id);
      if st != OK && stored { WholeLoose(fs, id); }
      RefsUser(old(fs.fds), fds, wc);
      assert buf[..done] == buf || st != OK;
    }
    if st != OK { return; }
    if |buf| > 0 {
      SplicedReaches(Bytes(dir[id]), offset, buf);
      SetOffset(fs, f, id, fs.fds[f].fdoffset + |buf|);
      RefsStay(fds, fs.fds, wc, wc);
    }
    if |buf| > 0 || offset == |Bytes(dir[id])| { ReadyLoose(fs, id); }
  }

  lemma ReadyLoose(fs: Spiffs, id: half)
    requires Ready(fs) && id in fs.dir
    ensures Loose(fs, id)
  {
    MidLoose(fs, id);
  }

  lemma WholeLoose(fs: Spiffs, id: half)
    requires Whole(fs, id)
    ensures Loose(fs, id)
  {
    MidLoose(fs, id);
  }

  lemma PlainStarts(fs: Spiffs, f: nat, id: half, offset: nat)
    requires Ready(fs) && OpenOn(fs, f, id) && id in fs.dir && offset <= |Bytes(fs.dir[id])|
    ensures |Bytes(fs.dir[id])| == 0 ==> offset < fs.g.dps
    ensures !Gap(fs.dir, id, offset) && Landing(|Bytes(fs.dir[id])|, offset) == offset
  {
  }

  lemma SamePages(wc: seq<CPage>, dir: Dir, dir': Dir, psz: nat, id: half)
    requires PagesOk(wc, dir, psz) && PageOf(wc, id, 0) == |wc| && OnlyContent(dir, dir', id)
    ensures PagesOk(wc, dir', psz) && OthersPages(wc, wc, id)
  {
    forall w | 0 <= w < |wc| && wc[w].WrPage? ensures IdOf(wc[w].objId) != id { assert !Keeps(wc, w, id); }
  }

  /** Writing nothing inside what has been written, and not into the write page of the object. */
  ghost predicate Idle(fs: Spiffs, f: nat, id: half, n: nat, psz: nat)
    requires f < |fs.fds| && id in fs.dir
    reads fs
  {
    !Serious(fs.wc, fs.dir, id, fs.fds[f].flags.direct, WriteAt(fs, f, id), n, psz)
  }

  /** A write at `offset` of something, or at the end, or where the write page of the object takes it. */
  ghost predicate Serious(wc: seq<CPage>, dir: Dir, id: half, direct: bool, offset: nat, n: nat, psz: nat)
    requires id in dir
  {
    || n > 0 || offset >= |Logical(wc, dir, id)|
    || (!direct && n < psz && OwnPage(wc, id).WrPage? && OwnPage(wc, id).offset <= offset <= OwnPage(wc, id).End())
  }

  /** A write of n bytes through descriptor f loses no page: there is no write page, and the write is safe; or neither the write
      page nor the write covers a data page as a whole. */
  ghost predicate SafeCall(fs: Spiffs, f: nat, id: half, n: nat)
    requires f < |fs.fds| && id in fs.dir
    reads fs
  {
    var w, at := PageOf(fs.wc, id, 0), WriteAt(fs, f, id);
    if w < |fs.wc| then CoversNone(fs.g.dps, fs.wc[w].offset, |fs.wc[w].data|) && CoversNone(fs.g.dps, at, n)
    else SafeWrite(fs, id, at, n)
  }

  ghost predicate CoversNone(dps: nat, offset: nat, n: nat) { forall s :: !Replaces(dps, offset, n, s) }

  lemma CoversSafe(fs: Spiffs, id: half, offset: nat, n: nat)
    requires CoversNone(fs.g.dps, offset, n) && id in fs.dir
    ensures SafeWrite(fs, id, offset, n)
  {
    forall s ensures offset < |Bytes(fs.dir[id])| ==> !Replaces(fs.g.dps, offset, FirstPart(|Bytes(fs.dir[id])|, offset, n), s) {
      assert !Replaces(fs.g.dps, offset, n, s);
    }
  }

  // ---------------------------------------------------------------- when a write succeeds

  /** A write that may go into a write page. */
  predicate Small(fd: Fd, n: nat, psz: nat) { !fd.flags.direct && n < psz }

  /** Write page p takes n bytes at `offset` of the file. */
  predicate Takes(p: CPage, offset: nat, n: nat, psz: nat) {
    p.WrPage? && p.offset <= offset <= p.End() && offset + n <= p.offset + psz
  }

  /** The slot that the cache hands out is free, or will be when write page w is given up. */
  predicate SlotFree(wc: seq<CPage>, slot: Option<nat>, w: nat) {
    slot.Some? && slot.value < |wc| && (wc[slot.value].Other? || slot.value == w)
  }

  /** How many pages a write takes: nothing when the write page takes it; otherwise what storing the old write page takes, and
      what the piece itself takes unless a new write page does. */
  ghost function CallNeed(g: Geo, wc: seq<CPage>, dir: Dir, id: half, slot: Option<nat>, small: bool, offset: nat, n: nat, psz: nat): int
    requires id in dir
  {
    if small && Takes(OwnPage(wc, id), offset, n, psz) then 0
    else FlushNeed(g, wc, dir, id) +
         if small && SlotFree(wc, slot, PageOf(wc, id, 0)) then 0 else WriteNeed(g, |Logical(wc, dir, id)|, offset, n)
  }

  /** They are sure to be had.  When the old write page and the piece both go to the file, room is asked for twice. */
  ghost predicate CallStores(fs: Spiffs, id: half, slot: Option<nat>, small: bool, offset: nat, n: nat, psz: nat)
    reads fs`wc, fs`dir, fs`lu, fs`pages, fs`freeBlk, fs`freeEnt, fs`freeBlocks, fs`nAlloc, fs`nDel, fs`surplus, fs`eraseCnt, fs`maxErase
  {
    && id in fs.dir
    && if small && Takes(OwnPage(fs.wc, id), offset, n, psz) then true
       else if OwnPage(fs.wc, id).WrPage? then
         FlushStores(fs, id) && (n == 0 || (small && SlotFree(fs.wc, slot, PageOf(fs.wc, id, 0))) ||
                                 FlushSure(fs, id) >= CallNeed(fs.g, fs.wc, fs.dir, id, slot, small, offset, n, psz) + TwoBlocks(fs.g))
       else (small && SlotFree(fs.wc, slot, |fs.wc|)) || Stores(fs, id, offset, n)
  }

  ghost function CallSure(fs: Spiffs, id: half, slot: Option<nat>, small: bool, offset: nat, n: nat, psz: nat): nat
    reads fs`wc, fs`dir, fs`lu, fs`pages, fs`freeBlk, fs`freeEnt, fs`freeBlocks, fs`nAlloc, fs`nDel, fs`surplus, fs`eraseCnt, fs`maxErase
  {
    if small && Takes(OwnPage(fs.wc, id), offset, n, psz) then InStock(fs)
    else if OwnPage(fs.wc, id).WrPage? then FlushSure(fs, id)
    else if small && SlotFree(fs.wc, slot, |fs.wc|) then InStock(fs) else StoreSure(fs, id, offset, n)
  }

  lemma NeedNatural(g: Geo, size: nat, offset: nat, n: nat)
    requires g.Valid()
    ensures WriteNeed(g, size, offset, n) >= 0
  {
    hide AppendNeed, Need;
    if n > 0 && offset >= size { AppendCovers(g, size, n); }
    if Straddles(size, offset, n) { AppendCovers(g, size, offset + n - size); }
  }

  lemma WithinIsNoGap(fs: Spiffs, id: half, offset: nat)
    requires id in fs.dir && offset <= |Bytes(fs.dir[id])|
    ensures !Gap(fs.dir, id, offset)
  {
  }

  lemma ReadyOk(fs: Spiffs)
    requires Ready(fs)
    ensures fs.Ok() && fs.g.Valid()
  {
  }

  /** With the pages of two blocks more in stock than a call takes, they are sure to be had. */
  lemma StockCalls(fs: Spiffs, id: half, slot: Option<nat>, small: bool, offset: nat, n: nat, psz: nat)
    requires Good(fs, psz) && id in fs.dir && offset <= |Logical(fs.wc, fs.dir, id)|
    requires InStock(fs) >= CallNeed(fs.g, fs.wc, fs.dir, id, slot, small, offset, n, psz) + TwoBlocks(fs.g)
    ensures CallStores(fs, id, slot, small, offset, n, psz) && CallSure(fs, id, slot, small, offset, n, psz) == InStock(fs)
  {
    hide Ready, PagesOk, Referenced, Flatten, Spliced, WriteNeed, Granted, Sure, InStock, Gap, TwoBlocks;
    ReadyOk(fs);
    NeedNatural(fs.g, |Logical(fs.wc, fs.dir, id)|, offset, n);
    var p, own := OwnPage(fs.wc, id), PageOf(fs.wc, id, 0) < |fs.wc|;
    if small && Takes(p, offset, n, psz) {
    } else if own {
      StockFlushes(fs, id, psz);
    } else {
      WithinIsNoGap(fs, id, offset);
      if n > 0 && !(small && SlotFree(fs.wc, slot, |fs.wc|)) { StockGrants(fs, id, offset, n); }
    }
  }

  lemma StockFlushes(fs: Spiffs, id: half, psz: nat)
    requires Good(fs, psz) && id in fs.dir && InStock(fs) >= FlushNeed(fs.g, fs.wc, fs.dir, id) + TwoBlocks(fs.g)
    ensures FlushStores(fs, id) && FlushSure(fs, id) == InStock(fs)
  {
    hide Ready, PagesOk, Referenced, Flatten, WriteNeed, Granted, Sure, InStock, Gap, TwoBlocks;
    ReadyOk(fs);
    var w := PageOf(fs.wc, id, 0);
    if w < |fs.wc| {
      PageFits(fs.wc, fs.dir, psz, id, w);
      WithinIsNoGap(fs, id, fs.wc[w].offset);
      if |fs.wc[w].data| > 0 { StockGrants(fs, id, fs.wc[w].offset, |fs.wc[w].data|); }
    }
  }

  /** A flush takes no more than a write of one page. */
  lemma FlushAtMost(g: Geo, wc: seq<CPage>, dir: Dir, psz: nat, id: half)
    requires g.Valid() && PagesOk(wc, dir, psz) && id in dir
    ensures FlushNeed(g, wc, dir, id) <= Most(g, psz)
  {
    hide WriteNeed, Most, Flatten;
    var w := PageOf(wc, id, 0);
    if w < |wc| {
      PageFits(wc, dir, psz, id, w);
      WriteAtMost(g, |Bytes(dir[id])|, wc[w].offset, |wc[w].data|);
      MostGrows(g, |wc[w].data|, psz);
    }
  }

  lemma StockedFlush(fs: Spiffs, id: half, psz: nat)
    requires Good(fs, psz) && id in fs.dir && InStock(fs) >= Most(fs.g, psz) + TwoBlocks(fs.g)
    ensures FlushStores(fs, id) && FlushSure(fs, id) == InStock(fs) && FlushNeed(fs.g, fs.wc, fs.dir, id) <= Most(fs.g, psz)
  {
    hide Ready, PagesOk, Referenced, Flatten, Most, InStock, TwoBlocks, FlushStores, FlushSure, FlushNeed;
    ReadyOk(fs);
    FlushAtMost(fs.g, fs.wc, fs.dir, psz, id);
    StockFlushes(fs, id, psz);
  }

  /** ... and a call no more than that and what is written. */
  lemma StockedCall(fs: Spiffs, id: half, slot: Option<nat>, small: bool, offset: nat, n: nat, psz: nat)
    requires Good(fs, psz) && id in fs.dir && offset <= |Logical(fs.wc, fs.dir, id)|
    requires InStock(fs) >= Most(fs.g, psz) + Most(fs.g, n) + TwoBlocks(fs.g)
    ensures CallStores(fs, id, slot, small, offset, n, psz) && CallSure(fs, id, slot, small, offset, n, psz) == InStock(fs)
    ensures CallNeed(fs.g, fs.wc, fs.dir, id, slot, small, offset, n, psz) <= Most(fs.g, psz) + Most(fs.g, n)
  {
    hide Ready, PagesOk, Referenced, Flatten, Most, InStock, TwoBlocks, Logical, WriteNeed, FlushNeed, CallStores, CallSure;
    ReadyOk(fs);
    FlushAtMost(fs.g, fs.wc, fs.dir, psz, id);
    WriteAtMost(fs.g, |Logical(fs.wc, fs.dir, id)|, offset, n);
    StockCalls(fs, id, slot, small, offset, n, psz);
  }

  /** SPIFFS_write on an open descriptor of a file that has lost no page.  `psz` is the page size, `slot` the cache slot that the
      cache can hand out, if any.  On success, and when no page is lost on the way, what users of the object see is what they
      saw with `buf` put over it; nothing changes for users of other objects, whether it succeeds or not.  `dropped` tells that
      a page of the file has been lost; when that comes from writing back the old write page, and the rest of the write would
      go to the file at once, the contract tells the state at that point.  Writing nothing inside a file is another matter,
      unless the write page takes it: when it goes to the file at once, the work buffer is stored as its header. */
  method Write(fs: Spiffs, f: nat, id: half, buf: seq<byte>, psz: nat, slot: Option<nat>, room: nat) returns (st: Status, dropped: bool)
    requires Good(fs, psz) && OpenOn(fs, f, id) && id in fs.dir && fs.dir[id].lost == {} && 0 < room
    requires fs.fds[f].flags.direct ==> PageOf(fs.wc, id, 0) == |fs.wc|
    modifies fs
    ensures !old(fs.fds)[f].flags.wr ==> st == ERR_NOT_WRITABLE && !dropped && unchanged(fs)
    ensures old(fs.fds)[f].flags.wr && !old(Idle(fs, f, id, |buf|, psz)) ==> Spacious(st)
    ensures st == OK && !dropped && !old(Idle(fs, f, id, |buf|, psz)) ==>
              && Good(fs, psz) && f < |fs.fds| && fs.fds[f].fdoffset == old(Before(fs, f, id)) + |buf|
              && Written(old(fs.wc), old(fs.dir), old(fs.fds), fs, f, id,
                         Spliced(Logical(old(fs.wc), old(fs.dir), id), old(WriteAt(fs, f, id)), buf))
    ensures (st != OK || dropped) && old(fs.fds)[f].flags.wr && !old(Idle(fs, f, id, |buf|, psz)) ==>
              Failed(old(fs.wc), old(fs.dir), old(fs.fds), fs, f, id, psz)
    ensures !old(Idle(fs, f, id, |buf|, psz)) ==> id in fs.dir && (dropped <==> fs.dir[id].lost != {})
    ensures old(SafeCall(fs, f, id, |buf|)) ==> !dropped
    ensures old(fs.fds)[f].flags.wr && old(Idle(fs, f, id, |buf|, psz)) && PageOf(old(fs.wc), id, 0) == |old(fs.wc)| && 0 < psz &&
            (old(fs.fds)[f].flags.direct || slot.None?) && old(Quiet(fs, WithMeta(fs.g, 0))) && id < IX_FLAG ==>
              StoredWork(old(fs.dir), old(fs.work), old(PageToHave(fs)), fs, f, id, st)
    ensures old(fs.fds)[f].flags.wr && Small(old(fs.fds)[f], |buf|, psz) && Takes(OwnPage(old(fs.wc), id), old(WriteAt(fs, f, id)), |buf|, psz) ==>
              && st == OK && !dropped && fs.lu == old(fs.lu) && fs.pages == old(fs.pages) && fs.dir == old(fs.dir)
              && fs.wc == old(fs.wc)[PageOf(old(fs.wc), id, 0) := PutIn(OwnPage(old(fs.wc), id), old(WriteAt(fs, f, id)), buf)]
    ensures old(fs.fds)[f].flags.wr && Small(old(fs.fds)[f], |buf|, psz) && OwnPage(old(fs.wc), id).Other? &&
            SlotFree(old(fs.wc), slot, |old(fs.wc)|) ==>
              && st == OK && !dropped && fs.lu == old(fs.lu) && fs.pages == old(fs.pages) && fs.dir == old(fs.dir)
              && fs.wc == old(fs.wc)[slot.value := WrPage(old(fs.fds)[f].objId, old(WriteAt(fs, f, id)), buf)]
    ensures old(fs.fds)[f].flags.wr && !old(Idle(fs, f, id, |buf|, psz)) &&
            old(CallStores(fs, id, slot, Small(fs.fds[f], |buf|, psz), WriteAt(fs, f, id), |buf|, psz)) ==>
              && st == OK && !dropped
              && InStock(fs) + CallNeed(fs.g, old(fs.wc), old(fs.dir), id, slot, Small(old(fs.fds)[f], |buf|, psz),
                                        old(WriteAt(fs, f, id)), |buf|, psz)
                 >= old(CallSure(fs, id, slot, Small(fs.fds[f], |buf|, psz), WriteAt(fs, f, id), |buf|, psz))
  {
    hide Good, OnlyContent, Flatten, PagesOk, OthersLogical, Spliced, Keeps, Loose, Survived, StoredWork, FreePages,
      SomeDeletedBlock, CoversNone, Stocked, Need, CallNeed, CallStores, CallSure, SameUserBut, PutIn, Quiet, PageToHave,
      ObjShape, DirOk, PageShape;
    dropped := false;
    if !fs.fds[f].flags.wr { return ERR_NOT_WRITABLE, dropped; }
    var offset := WriteOffset(fs, f, id, psz);
    ghost var wc, dir, fds := fs.wc, fs.dir, fs.fds;
    SameBefore(wc, dir, id);
    if !fs.fds[f].flags.direct && |buf| < psz {
      st, dropped := SmallWrite(fs, f, id, offset, buf, psz, slot, room);
    } else {
      st, dropped := BigWrite(fs, f, id, offset, buf, psz, slot, room);
    }
    if Serious(wc, dir, id, fds[f].flags.direct, offset, |buf|, psz) {
      if st == OK && !dropped {
        SinceWritten(old(fs.wc), old(fs.dir), old(fs.fds), wc, dir, fds, fs, f, id,
                     Spliced(Logical(wc, dir, id), offset, buf));
      } else {
        FailedSince(old(fs.wc), old(fs.dir), old(fs.fds), wc, dir, fds, fs, f, id, psz);
      }
    }
  }

  lemma FailedSince(wc: seq<CPage>, dir: Dir, fds: seq<Fd>, wc': seq<CPage>, dir': Dir, fds': seq<Fd>, fs: Spiffs, f: nat,
                    id: half, psz: nat)
    requires OnlyContent(dir, dir', id) && OthersLogical(wc, dir, wc', dir', id) && SameUserBut(fds, fds', f) && id in dir
    requires Failed(wc', dir', fds', fs, f, id, psz)
    ensures Failed(wc, dir, fds, fs, f, id, psz)
  {
    ContentTransitive(dir, dir', fs.dir, id);
  }

  lemma SameBefore(wc: seq<CPage>, dir: Dir, id: half)
    ensures OnlyContent(dir, dir, id) && OthersLogical(wc, dir, wc, dir, id)
  {
  }

  /** A write page that does not fit is written back first. */
  method DumpFirst(fs: Spiffs, f: nat, id: half, w: nat, offset: nat, psz: nat, room: nat) returns (st: Status, dropped: bool)
    requires Good(fs, psz) && OpenOn(fs, f, id) && id in fs.dir && fs.dir[id].lost == {} && 0 < room && Keeps(fs.wc, w, id)
    requires fs.fds[f].fdoffset <= offset <= |Logical(fs.wc, fs.dir, id)|
    modifies fs
    ensures Spacious(st)
    ensures st == OK ==> Good(fs, psz) && OpenOn(fs, f, id) && Since(old(fs.wc), old(fs.dir), old(fs.fds), fs, id)
    ensures st == OK ==> PageOf(fs.wc, id, 0) == |fs.wc| && Bytes(fs.dir[id]) == Logical(old(fs.wc), old(fs.dir), id)
    ensures st == OK ==> Logical(fs.wc, fs.dir, id) == Logical(old(fs.wc), old(fs.dir), id)
    ensures st == OK ==> fs.fds[f].fdoffset == old(fs.fds)[f].fdoffset
    ensures st != OK || dropped ==> Failed(old(fs.wc), old(fs.dir), old(fs.fds), fs, f, id, psz)
    ensures id in fs.dir && (dropped <==> fs.dir[id].lost != {})
    ensures old(CoversNone(fs.g.dps, fs.wc[w].offset, |fs.wc[w].data|)) ==> !dropped
    ensures old(Stores(fs, id, fs.wc[w].offset, |fs.wc[w].data|)) ==>
              && st == OK && !dropped && fs.wc == old(fs.wc)[w := Other]
              && InStock(fs) + WriteNeed(fs.g, |Bytes(old(fs.dir)[id])|, old(fs.wc)[w].offset, |old(fs.wc)[w].data|)
                 >= old(StoreSure(fs, id, fs.wc[w].offset, |fs.wc[w].data|))
  {
    hide Good, OnlyContent, Flatten, OthersLogical, Spliced, PagesOk, Loose, Survived, CannotStore, SafeWrite, CoversNone, Stores,
      StoreSure, WriteNeed, InStock;
    ghost var stored, done;
    if CoversNone(fs.g.dps, fs.wc[w].offset, |fs.wc[w].data|) { CoversSafe(fs, id, fs.wc[w].offset, |fs.wc[w].data|); }
    st, stored, done, dropped := Dump(fs, f, id, w, psz, room);
    if st == OK { GoodLoose(fs, id, psz); }
  }

  lemma GoodLoose(fs: Spiffs, id: half, psz: nat)
    requires Good(fs, psz) && id in fs.dir
    ensures Loose(fs, id)
  {
    ReadyLoose(fs, id);
  }

  lemma GoodFailed(wc: seq<CPage>, dir: Dir, fds: seq<Fd>, fs: Spiffs, f: nat, id: half, psz: nat, bytes: seq<byte>)
    requires Good(fs, psz) && Written(wc, dir, fds, fs, f, id, bytes)
    ensures Failed(wc, dir, fds, fs, f, id, psz)
  {
    hide Ready, OnlyContent, OthersLogical, PagesOk, Loose, Survived;
    GoodLoose(fs, id, psz);
  }

  method SmallWrite(fs: Spiffs, f: nat, id: half, offset: nat, buf: seq<byte>, psz: nat, slot: Option<nat>, room: nat)
    returns (st: Status, dropped: bool)
    requires Good(fs, psz) && OpenOn(fs, f, id) && id in fs.dir && fs.dir[id].lost == {} && 0 < room && |buf| < psz
    requires fs.fds[f].fdoffset <= offset <= |Logical(fs.wc, fs.dir, id)|
    requires var w := PageOf(fs.wc, id, 0); fs.fds[f].cache == if w < |fs.wc| then Cached(w) else NoCache
    modifies fs
    ensures Serious(old(fs.wc), old(fs.dir), id, false, offset, |buf|, psz) ==>
              && Spacious(st) && id in fs.dir && (dropped <==> fs.dir[id].lost != {})
              && (st == OK && !dropped ==>
                    && Good(fs, psz) && f < |fs.fds| && fs.fds[f].fdoffset == old(fs.fds)[f].fdoffset + |buf|
                    && Written(old(fs.wc), old(fs.dir), old(fs.fds), fs, f, id,
                               Spliced(Logical(old(fs.wc), old(fs.dir), id), offset, buf)))
              && (st != OK || dropped ==> Failed(old(fs.wc), old(fs.dir), old(fs.fds), fs, f, id, psz))
    ensures old(Careful(fs, id, offset, |buf|)) ==> !dropped
    ensures |buf| == 0 && offset < |Bytes(old(fs.dir)[id])| && PageOf(old(fs.wc), id, 0) == |old(fs.wc)| && slot.None? &&
            old(Quiet(fs, WithMeta(fs.g, 0))) && id < IX_FLAG ==>
              StoredWork(old(fs.dir), old(fs.work), old(PageToHave(fs)), fs, f, id, st)
    ensures Takes(OwnPage(old(fs.wc), id), offset, |buf|, psz) ==>
              && st == OK && !dropped && fs.lu == old(fs.lu) && fs.pages == old(fs.pages) && fs.dir == old(fs.dir)
              && fs.wc == old(fs.wc)[PageOf(old(fs.wc), id, 0) := PutIn(OwnPage(old(fs.wc), id), offset, buf)]
    ensures OwnPage(old(fs.wc), id).Other? && SlotFree(old(fs.wc), slot, |old(fs.wc)|) ==>
              && st == OK && !dropped && fs.lu == old(fs.lu) && fs.pages == old(fs.pages) && fs.dir == old(fs.dir)
              && fs.wc == old(fs.wc)[slot.value := WrPage(old(fs.fds)[f].objId, offset, buf)]
    ensures Serious(old(fs.wc), old(fs.dir), id, false, offset, |buf|, psz) && old(CallStores(fs, id, slot, true, offset, |buf|, psz)) ==>
              && st == OK && !dropped
              && InStock(fs) + CallNeed(fs.g, old(fs.wc), old(fs.dir), id, slot, true, offset, |buf|, psz)
                 >= old(CallSure(fs, id, slot, true, offset, |buf|, psz))
  {
    hide Good, OnlyContent, Flatten, PagesOk, OthersLogical, Spliced, Loose, Survived, SafeWrite, CoversNone, FreePages,
      SomeDeletedBlock, Written, Failed, StoredWork, Quiet, PageToHave, Stores, StoreSure, WriteNeed, InStock, TwoBlocks, PutIn;
    dropped := false;
    SameBefore(fs.wc, fs.dir, id);
    if fs.fds[f].cache.Cached? {
      var w := fs.fds[f].cache.slot;
      var page := fs.wc[w];
      GoodPages(fs, psz);
      PageFits(fs.wc, fs.dir, psz, id, w);
      if !(offset < page.offset || offset > page.End() || offset + |buf| > page.offset + psz) {
        PutInPage(fs, f, id, w, offset, buf, psz);
        return OK, dropped;
      }
      st, dropped := StoreAndPlace(fs, f, id, w, offset, buf, psz, slot, room);
    } else {
      st, dropped := PlaceSmall(fs, f, id, offset, buf, psz, slot, room, false);
    }
  }

  /** The write page does not take the piece: it is written back, and the piece goes elsewhere. */
  method StoreAndPlace(fs: Spiffs, f: nat, id: half, w: nat, offset: nat, buf: seq<byte>, psz: nat, slot: Option<nat>, room: nat)
    returns (st: Status, dropped: bool)
    requires Good(fs, psz) && OpenOn(fs, f, id) && id in fs.dir && fs.dir[id].lost == {} && 0 < room && |buf| < psz
    requires fs.fds[f].fdoffset <= offset <= |Logical(fs.wc, fs.dir, id)|
    requires w == PageOf(fs.wc, id, 0) < |fs.wc| && Keeps(fs.wc, w, id) && !Takes(fs.wc[w], offset, |buf|, psz)
    modifies fs
    ensures |buf| > 0 || offset >= |Logical(old(fs.wc), old(fs.dir), id)| ==>
              && Spacious(st) && id in fs.dir && (dropped <==> fs.dir[id].lost != {})
              && (st == OK && !dropped ==>
                    && Good(fs, psz) && f < |fs.fds| && fs.fds[f].fdoffset == old(fs.fds)[f].fdoffset + |buf|
                    && Written(old(fs.wc), old(fs.dir), old(fs.fds), fs, f, id,
                               Spliced(Logical(old(fs.wc), old(fs.dir), id), offset, buf)))
              && (st != OK || dropped ==> Failed(old(fs.wc), old(fs.dir), old(fs.fds), fs, f, id, psz))
    ensures old(Careful(fs, id, offset, |buf|)) ==> !dropped
    ensures (|buf| > 0 || offset >= |Logical(old(fs.wc), old(fs.dir), id)|) && old(CallStores(fs, id, slot, true, offset, |buf|, psz)) ==>
              && st == OK && !dropped
              && InStock(fs) + CallNeed(fs.g, old(fs.wc), old(fs.dir), id, slot, true, offset, |buf|, psz)
                 >= old(CallSure(fs, id, slot, true, offset, |buf|, psz))
  {
    hide Good, OnlyContent, Flatten, PagesOk, OthersLogical, Spliced, Loose, Survived, SafeWrite, CoversNone, FreePages,
      SomeDeletedBlock, Written, Failed, StoredWork, Quiet, PageToHave, Stores, StoreSure, WriteNeed, InStock, TwoBlocks, PutIn,
      SameUserBut, ObjShape, DirOk, PageShape, Inv;
    st, dropped := DumpFirst(fs, f, id, w, offset, psz, room);
    if st != OK { return; }
    if old(Careful(fs, id, offset, |buf|)) { CoversSafe(fs, id, offset, |buf|); }
    AfterDump(fs, id, offset, |buf|, psz);
    ghost var wc, dir, fds := fs.wc, fs.dir, fs.fds;
    st, dropped := PlaceSmall(fs, f, id, offset, buf, psz, slot, room, dropped);
    if |buf| > 0 || offset >= |Logical(wc, dir, id)| {
      if st == OK && !dropped {
        SinceWritten(old(fs.wc), old(fs.dir), old(fs.fds), wc, dir, fds, fs, f, id,
                     Spliced(Logical(wc, dir, id), offset, buf));
      } else {
        FailedSince(old(fs.wc), old(fs.dir), old(fs.fds), wc, dir, fds, fs, f, id, psz);
      }
    }
  }

  /** What is in stock after the old write page has been stored is enough for the piece. */
  lemma AfterDump(fs: Spiffs, id: half, offset: nat, n: nat, psz: nat)
    requires Good(fs, psz) && id in fs.dir && offset <= |Bytes(fs.dir[id])|
    ensures InStock(fs) >= WriteNeed(fs.g, |Bytes(fs.dir[id])|, offset, n) + TwoBlocks(fs.g) || n == 0 ==>
              Stores(fs, id, offset, n) && StoreSure(fs, id, offset, n) == InStock(fs)
  {
    hide Ready, PagesOk, Referenced, Flatten, WriteNeed, Granted, Sure, InStock, Gap, TwoBlocks;
    ReadyOk(fs);
    WithinIsNoGap(fs, id, offset);
    if n > 0 && InStock(fs) >= WriteNeed(fs.g, |Bytes(fs.dir[id])|, offset, n) + TwoBlocks(fs.g) { StockGrants(fs, id, offset, n); }
  }

  /** A small write to a file without a write page goes into a new one, or to the file at once.  `lossy` tells that pages of the
      file have been lost. */
  method PlaceSmall(fs: Spiffs, f: nat, id: half, offset: nat, buf: seq<byte>, psz: nat, slot: Option<nat>, room: nat, lossy: bool)
    returns (st: Status, dropped: bool)
    requires Good(fs, psz) && OpenOn(fs, f, id) && id in fs.dir && PageOf(fs.wc, id, 0) == |fs.wc| && 0 < room && |buf| < psz
    requires fs.fds[f].fdoffset <= offset <= |Bytes(fs.dir[id])| && (lossy <==> fs.dir[id].lost != {})
    modifies fs
    ensures |buf| > 0 || offset == |Bytes(old(fs.dir)[id])| ==>
              && Spacious(st) && id in fs.dir && (dropped <==> fs.dir[id].lost != {})
              && (st == OK && !dropped ==>
                    && Good(fs, psz) && f < |fs.fds| && fs.fds[f].fdoffset == old(fs.fds)[f].fdoffset + |buf|
                    && Written(old(fs.wc), old(fs.dir), old(fs.fds), fs, f, id,
                               Spliced(Logical(old(fs.wc), old(fs.dir), id), offset, buf)))
              && (st != OK || dropped ==> Failed(old(fs.wc), old(fs.dir), old(fs.fds), fs, f, id, psz))
    ensures !lossy && old(SafeWrite(fs, id, offset, |buf|)) ==> !dropped
    ensures |buf| == 0 && offset < |Bytes(old(fs.dir)[id])| && slot.None? && !lossy && old(Quiet(fs, WithMeta(fs.g, 0))) && id < IX_FLAG ==>
              StoredWork(old(fs.dir), old(fs.work), old(PageToHave(fs)), fs, f, id, st)
    ensures SlotFree(old(fs.wc), slot, |old(fs.wc)|) ==>
              && st == OK && dropped == lossy && fs.lu == old(fs.lu) && fs.pages == old(fs.pages) && fs.dir == old(fs.dir)
              && InStock(fs) == old(InStock(fs))
              && fs.wc == old(fs.wc)[slot.value := WrPage(old(fs.fds)[f].objId, offset, buf)]
    ensures !lossy && (|buf| > 0 || offset == |Bytes(old(fs.dir)[id])|) && !SlotFree(old(fs.wc), slot, |old(fs.wc)|) &&
            old(Stores(fs, id, offset, |buf|)) ==>
              && st == OK && !dropped
              && InStock(fs) + WriteNeed(fs.g, |Bytes(old(fs.dir)[id])|, offset, |buf|) >= old(StoreSure(fs, id, offset, |buf|))
  {
    hide Good, OnlyContent, Flatten, PagesOk, OthersLogical, Spliced, Loose, Survived, SafeWrite, Written, Failed, StoredWork,
      Quiet, PageToHave, Stores, StoreSure, WriteNeed, InStock;
    dropped := lossy;
    st := OK;
    if slot.Some? && slot.value < |fs.wc| && fs.wc[slot.value].Other? {
      NewPageFor(fs, f, id, slot.value, offset, buf, psz);
      if |buf| > 0 || offset == |Bytes(fs.dir[id])| {
        GoodFailed(old(fs.wc), old(fs.dir), old(fs.fds), fs, f, id, psz, Spliced(Logical(old(fs.wc), old(fs.dir), id), offset, buf));
      }
    } else if lossy {
      UntouchedFailed(fs, f, id, psz);
    } else {
      st, dropped := PlainWrite(fs, f, id, offset, buf, psz, room);
    }
  }

  lemma UntouchedFailed(fs: Spiffs, f: nat, id: half, psz: nat)
    requires Good(fs, psz) && id in fs.dir
    ensures Failed(fs.wc, fs.dir, fs.fds, fs, f, id, psz)
  {
    hide Ready, Loose, Survived, PagesOk;
    GoodLoose(fs, id, psz);
    SameBefore(fs.wc, fs.dir, id);
  }

  /** ... at the place where the write goes. */
  ghost predicate Careful(fs: Spiffs, id: half, offset: nat, n: nat)
    reads fs`wc, fs`dir, fs`lu, fs`pages, fs`freeBlk, fs`freeEnt, fs`freeBlocks, fs`nAlloc, fs`nDel, fs`surplus, fs`eraseCnt, fs`maxErase
  {
    var w := PageOf(fs.wc, id, 0);
    if w < |fs.wc| then CoversNone(fs.g.dps, fs.wc[w].offset, |fs.wc[w].data|) && CoversNone(fs.g.dps, offset, n)
    else SafeWrite(fs, id, offset, n)
  }

  method BigWrite(fs: Spiffs, f: nat, id: half, offset: nat, buf: seq<byte>, psz: nat, ghost slot: Option<nat>, room: nat)
    returns (st: Status, dropped: bool)
    requires Good(fs, psz) && OpenOn(fs, f, id) && id in fs.dir && fs.dir[id].lost == {} && 0 < room
    requires fs.fds[f].fdoffset <= offset <= |Logical(fs.wc, fs.dir, id)|
    requires fs.fds[f].flags.direct ==> PageOf(fs.wc, id, 0) == |fs.wc|
    requires var w := PageOf(fs.wc, id, 0); fs.fds[f].cache == if w < |fs.wc| then Cached(w) else NoCache
    modifies fs
    ensures Serious(old(fs.wc), old(fs.dir), id, true, offset, |buf|, psz) ==>
              && Spacious(st) && id in fs.dir && (dropped <==> fs.dir[id].lost != {})
              && (st == OK && !dropped ==>
                    && Good(fs, psz) && f < |fs.fds| && fs.fds[f].fdoffset == old(fs.fds)[f].fdoffset + |buf|
                    && Written(old(fs.wc), old(fs.dir), old(fs.fds), fs, f, id,
                               Spliced(Logical(old(fs.wc), old(fs.dir), id), offset, buf)))
              && (st != OK || dropped ==> Failed(old(fs.wc), old(fs.dir), old(fs.fds), fs, f, id, psz))
    ensures old(Careful(fs, id, offset, |buf|)) ==> !dropped
    ensures |buf| == 0 && offset < |Bytes(old(fs.dir)[id])| && PageOf(old(fs.wc), id, 0) == |old(fs.wc)| &&
            old(Quiet(fs, WithMeta(fs.g, 0))) && id < IX_FLAG ==>
              StoredWork(old(fs.dir), old(fs.work), old(PageToHave(fs)), fs, f, id, st)
    ensures Serious(old(fs.wc), old(fs.dir), id, true, offset, |buf|, psz) && old(CallStores(fs, id, slot, false, offset, |buf|, psz)) ==>
              && st == OK && !dropped
              && InStock(fs) + CallNeed(fs.g, old(fs.wc), old(fs.dir), id, slot, false, offset, |buf|, psz)
                 >= old(CallSure(fs, id, slot, false, offset, |buf|, psz))
  {
    hide Good, OnlyContent, Flatten, PagesOk, OthersLogical, Spliced, Loose, Survived, SafeWrite, CoversNone, FreePages,
      SomeDeletedBlock, Written, Failed, StoredWork, Quiet, PageToHave, Stores, StoreSure, WriteNeed, InStock, TwoBlocks;
    dropped := false;
    SameBefore(fs.wc, fs.dir, id);
    if !fs.fds[f].flags.direct && fs.fds[f].cache.Cached? {
      st, dropped := DumpFirst(fs, f, id, fs.fds[f].cache.slot, offset, psz, room);
      if st != OK || dropped { return; }
      if old(Careful(fs, id, offset, |buf|)) { CoversSafe(fs, id, offset, |buf|); }
      AfterDump(fs, id, offset, |buf|, psz);
    }
    ghost var wc, dir, fds := fs.wc, fs.dir, fs.fds;
    st, dropped := PlainWrite(fs, f, id, offset, buf, psz, room);
    if |buf| > 0 || offset >= |Logical(wc, dir, id)| {
      if st == OK && !dropped {
        SinceWritten(old(fs.wc), old(fs.dir), old(fs.fds), wc, dir, fds, fs, f, id,
                     Spliced(Logical(wc, dir, id), offset, buf));
      } else {
        FailedSince(old(fs.wc), old(fs.dir), old(fs.fds), wc, dir, fds, fs, f, id, psz);
      }
    }
  }

  // ---------------------------------------------------------------- flushing and reading

  /** The write page of the object, if it has one. */
  ghost function OwnPage(wc: seq<CPage>, id: half): CPage {
    var w := PageOf(wc, id, 0);
    if w < |wc| then wc[w] else Other
  }

  /** What a flush leaves on flash when it can store the first `done` bytes of the write page. */
  ghost function Flushed(wc: seq<CPage>, dir: Dir, id: half, done: nat): seq<byte>
    requires id in dir
  {
    var p := OwnPage(wc, id);
    if p.WrPage? && done <= |p.data| then Spliced(Bytes(dir[id]), p.offset, p.data[..done]) else Bytes(dir[id])
  }

  /** spiffs_fflush_cache, of a file that has lost no page, or has nothing cached: on success the file holds what its users
      have written, but for pages that are lost, of which `dropped` tells; otherwise, too, the write page is gone, and what is
      left of it are the first `done` bytes. */
  method Flush(fs: Spiffs, f: nat, id: half, psz: nat, room: nat)
    returns (st: Status, ghost stored: bool, ghost done: nat, dropped: bool)
    requires Good(fs, psz) && OpenOn(fs, f, id) && id in fs.dir && 0 < room && Flushable(fs, id)
    requires fs.fds[f].flags.direct ==> PageOf(fs.wc, id, 0) == |fs.wc|
    modifies fs
    ensures Spacious(st) && Since(old(fs.wc), old(fs.dir), old(fs.fds), fs, id) && PageOf(fs.wc, id, 0) == |fs.wc|
    ensures PagesOk(fs.wc, fs.dir, psz) && OpenOn(fs, f, id)
    ensures Bytes(fs.dir[id]) == Flushed(old(fs.wc), old(fs.dir), id, done)
    ensures st == OK ==> Good(fs, psz) && Bytes(fs.dir[id]) == Logical(old(fs.wc), old(fs.dir), id)
    ensures st != OK ==> OwnPage(old(fs.wc), id).WrPage? && done <= |OwnPage(old(fs.wc), id).data|
    ensures st != OK ==> if stored then Loose(fs, id) && done < |OwnPage(old(fs.wc), id).data| else Survived(fs, id, {f})
    ensures old(CannotStore(fs, id, PageOf(fs.wc, id, 0))) ==> st == ERR_FULL && stored && done == 0
    ensures dropped <==> fs.dir[id].lost != old(fs.dir)[id].lost
    ensures old(SafeFlush(fs, id)) ==> !dropped
    ensures fs.fds[f].fdoffset == old(fs.fds)[f].fdoffset
    ensures OwnPage(old(fs.wc), id).Other? ==>
              st == OK && !dropped && fs.lu == old(fs.lu) && fs.pages == old(fs.pages) && fs.dir == old(fs.dir) && fs.wc == old(fs.wc)
    ensures old(FlushStores(fs, id)) ==>
              st == OK && !dropped && InStock(fs) + FlushNeed(fs.g, old(fs.wc), old(fs.dir), id) >= old(FlushSure(fs, id))
  {
    hide Good, OnlyContent, Flatten, PagesOk, OthersLogical, Spliced, Loose, Survived, SafeWrite, Stores, StoreSure, WriteNeed,
      InStock, PageOf;
    st, stored, done, dropped := OK, true, 0, false;
    SameBefore(fs.wc, fs.dir, id);
    GoodPages(fs, psz);
    if !fs.fds[f].flags.direct {
      FindPage(fs, f, id, psz);
      ghost var fds := fs.fds;
      if fs.fds[f].cache.Cached? {
        st, stored, done, dropped := Dump(fs, f, id, fs.fds[f].cache.slot, psz, room);
      }
    }
  }

  /** The pages that storing what is cached for the file takes are sure to be had. */
  ghost predicate FlushStores(fs: Spiffs, id: half)
    reads fs`wc, fs`dir, fs`lu, fs`pages, fs`freeBlk, fs`freeEnt, fs`freeBlocks, fs`nAlloc, fs`nDel, fs`surplus, fs`eraseCnt, fs`maxErase
  {
    OwnPage(fs.wc, id).WrPage? ==> Stores(fs, id, OwnPage(fs.wc, id).offset, |OwnPage(fs.wc, id).data|)
  }

  ghost function FlushSure(fs: Spiffs, id: half): nat
    reads fs`wc, fs`dir, fs`lu, fs`pages, fs`freeBlk, fs`freeEnt, fs`freeBlocks, fs`nAlloc, fs`nDel, fs`surplus, fs`eraseCnt, fs`maxErase
  {
    if OwnPage(fs.wc, id).WrPage? then StoreSure(fs, id, OwnPage(fs.wc, id).offset, |OwnPage(fs.wc, id).data|) else InStock(fs)
  }

  ghost function FlushNeed(g: Geo, wc: seq<CPage>, dir: Dir, id: half): int
    requires id in dir
  {
    if OwnPage(wc, id).WrPage? then WriteNeed(g, |Bytes(dir[id])|, OwnPage(wc, id).offset, |OwnPage(wc, id).data|) else 0
  }

  /** The file has lost no page, or nothing is cached for it. */
  ghost predicate Flushable(fs: Spiffs, id: half)
    requires id in fs.dir
    reads fs
  {
    OwnPage(fs.wc, id).WrPage? ==> fs.dir[id].lost == {}
  }

  /** Writing back what is cached for the file loses none of its pages. */
  ghost predicate SafeFlush(fs: Spiffs, id: half)
    reads fs`wc, fs`dir, fs`lu, fs`pages, fs`freeBlk, fs`freeEnt, fs`freeBlocks, fs`nAlloc, fs`nDel, fs`surplus, fs`eraseCnt, fs`maxErase
  {
    OwnPage(fs.wc, id).WrPage? ==> SafeWrite(fs, id, OwnPage(fs.wc, id).offset, |OwnPage(fs.wc, id).data|)
  }

  lemma GoodPages(fs: Spiffs, psz: nat)
    requires Good(fs, psz)
    ensures PagesOk(fs.wc, fs.dir, psz)
  {
  }

  /** Pages that are lost aside, a flush that fails keeps what has been written if and only if the bytes it did not store change
      nothing; it never does when the write page reaches beyond the stored file. */
  lemma FlushLoses(wc: seq<CPage>, dir: Dir, id: half, done: nat)
    requires id in dir && OwnPage(wc, id).WrPage? && done < |OwnPage(wc, id).data|
    requires OwnPage(wc, id).offset <= |Bytes(dir[id])|
    ensures OwnPage(wc, id).End() > |Bytes(dir[id])| ==> Flushed(wc, dir, id, done) != Logical(wc, dir, id)
    ensures Flushed(wc, dir, id, done) == Logical(wc, dir, id) <==>
              OwnPage(wc, id).End() <= |Bytes(dir[id])| &&
              forall i :: done <= i < |OwnPage(wc, id).data| ==> Bytes(dir[id])[OwnPage(wc, id).offset + i] == OwnPage(wc, id).data[i]
  {
    hide Flatten, Spliced, PageOf;
    var p, was := OwnPage(wc, id), Bytes(dir[id]);
    SpliceLoses(was, p.offset, p.data, done);
  }

  lemma SpliceLoses(was: seq<byte>, off: nat, data: seq<byte>, done: nat)
    requires off <= |was| && done < |data|
    ensures Spliced(was, off, data[..done]) == Spliced(was, off, data) <==>
              off + |data| <= |was| && forall i :: done <= i < |data| ==> was[off + i] == data[i]
  {
    var a, b := Splice(was, off, data[..done]), Splice(was, off, data);
    if off + |data| > |was| {
      assert |b| == off + |data| > |a|;
    } else {
      forall j | 0 <= j < |was|
        ensures a[j] == if off <= j < off + done then data[j - off] else was[j]
        ensures b[j] == if off <= j < off + |data| then data[j - off] else was[j]
      {
      }
      if a == b {
        forall i | done <= i < |data| ensures was[off + i] == data[i] { assert a[off + i] == b[off + i]; }
      }
    }
  }

  /** How much of `len` bytes can be read from `at` on. */
  function Readable(size: nat, at: nat, len: nat): nat {
    if at + len <= size then len else if at <= size then size - at else 0
  }

  /** What a read of `len` bytes from `at` on gives in a file of these bytes. */
  function ReadFrom(bytes: seq<byte>, at: nat, len: nat): seq<byte> { Slice(bytes, at, Readable(|bytes|, at, len)) }

  /** spiffs_hydro_read on an open descriptor.  The write page of the object is flushed first, and the read goes on
      whatever came of that: it reads what is on flash then, from where the descriptor is and as far as that goes, unless it
      comes upon a page that is lost.  That is what users of the object have written exactly if the flush succeeds or what it
      lost changes nothing (see FlushLoses).  A file without stored content counts as ended, even when there are cached writes
      to it.  `flushed` is what the flush leaves in the error code, `stored`, `done` and `dropped` are what came of it. */
  method HydroRead(fs: Spiffs, f: nat, id: half, len: nat, psz: nat, room: nat)
    returns (st: Status, dst: seq<byte>, flushed: Status, ghost stored: bool, ghost done: nat, dropped: bool)
    requires Good(fs, psz) && OpenOn(fs, f, id) && id in fs.dir && 0 < room && Flushable(fs, id)
    requires fs.fds[f].flags.direct ==> PageOf(fs.wc, id, 0) == |fs.wc|
    modifies fs
    ensures !old(fs.fds)[f].flags.rd ==> st == ERR_NOT_READABLE && unchanged(fs)
    ensures old(fs.fds)[f].flags.rd && |Bytes(old(fs.dir)[id])| == 0 && len > 0 ==>
              st == ERR_END_OF_OBJECT && dst == [] && flushed == OK && unchanged(fs)
    ensures OnlyContent(old(fs.dir), fs.dir, id) && OthersLogical(old(fs.wc), old(fs.dir), fs.wc, fs.dir, id) && id in fs.dir
    ensures SameUserBut(old(fs.fds), fs.fds, f)
    ensures Reads(old(fs.fds)[f], old(fs.dir), id, len) ==>
              && Bytes(fs.dir[id]) == Flushed(old(fs.wc), old(fs.dir), id, done) && PageOf(fs.wc, id, 0) == |fs.wc|
              && (flushed == OK ==> Good(fs, psz) && Bytes(fs.dir[id]) == Logical(old(fs.wc), old(fs.dir), id))
              && (flushed != OK ==> OwnPage(old(fs.wc), id).WrPage? && done <= |OwnPage(old(fs.wc), id).data|)
              && (flushed != OK ==> if stored then Loose(fs, id) && done < |OwnPage(old(fs.wc), id).data| else fs.Ok())
    ensures old(CannotStore(fs, id, PageOf(fs.wc, id, 0))) && Reads(old(fs.fds)[f], old(fs.dir), id, len) ==>
              flushed == ERR_FULL && stored && done == 0
    ensures Reads(old(fs.fds)[f], old(fs.dir), id, len) && (flushed == OK || stored) ==>
              ReadWell(fs, f, id, old(fs.fds)[f].fdoffset, len, st, dst)
    ensures dropped <==> fs.dir[id].lost != old(fs.dir)[id].lost
    ensures old(SafeFlush(fs, id)) ==> !dropped
    ensures old(FlushStores(fs, id)) && Reads(old(fs.fds)[f], old(fs.dir), id, len) ==>
              flushed == OK && !dropped && InStock(fs) + FlushNeed(fs.g, old(fs.wc), old(fs.dir), id) >= old(FlushSure(fs, id))
  {
    hide OnlyContent, Flatten, PagesOk, OthersLogical, Good, Loose, Survived, Flushed, CannotStore, SafeFlush, ReadWell,
      FlushStores, FlushSure, FlushNeed, InStock;
    dst, flushed, stored, done, dropped := [], OK, true, 0, false;
    WithinLogical(fs, f, id, psz);
    SameBefore(fs.wc, fs.dir, id);
    if !fs.fds[f].flags.rd { return ERR_NOT_READABLE, dst, flushed, stored, done, dropped; }
    if fs.fds[f].size == UNDEFINED_LEN && len > 0 { return ERR_END_OF_OBJECT, dst, flushed, stored, done, dropped; }
    st, dst, flushed, stored, done, dropped := FlushAndRead(fs, f, id, len, psz, room);
  }

  /** A read of `len` bytes from `at` on through descriptor f gives what the file holds there, if that is clear of pages that
      are lost, and moves the descriptor on. */
  ghost predicate ReadWell(fs: Spiffs, f: nat, id: half, at: nat, len: nat, st: Status, dst: seq<byte>)
    requires id in fs.dir
    reads fs
  {
    var bytes := Bytes(fs.dir[id]);
    && f < |fs.fds| && (|bytes| > 0 && at >= |bytes| ==> st == ERR_END_OF_OBJECT && dst == [] && fs.fds[f].fdoffset == at)
    && (Apart(fs.g.dps, fs.dir[id].lost, at, at + Readable(|bytes|, at, len)) ==>
          && (if |bytes| > 0 then at < |bytes| ==> st == OK else len == 0 && at == 0 ==> st == OK)
          && fs.fds[f].fdoffset == at + |dst| && dst == if st == OK then ReadFrom(bytes, at, len) else [])
  }

  /** ... from the flush on. */
  method FlushAndRead(fs: Spiffs, f: nat, id: half, len: nat, psz: nat, room: nat)
    returns (st: Status, dst: seq<byte>, flushed: Status, ghost stored: bool, ghost done: nat, dropped: bool)
    requires Good(fs, psz) && OpenOn(fs, f, id) && id in fs.dir && 0 < room && Flushable(fs, id)
    requires fs.fds[f].flags.direct ==> PageOf(fs.wc, id, 0) == |fs.wc|
    requires |Bytes(fs.dir[id])| == 0 ==> len == 0
    modifies fs
    ensures OnlyContent(old(fs.dir), fs.dir, id) && OthersLogical(old(fs.wc), old(fs.dir), fs.wc, fs.dir, id) && id in fs.dir
    ensures SameUserBut(old(fs.fds), fs.fds, f)
    ensures Bytes(fs.dir[id]) == Flushed(old(fs.wc), old(fs.dir), id, done) && PageOf(fs.wc, id, 0) == |fs.wc|
    ensures flushed == OK ==> Good(fs, psz) && Bytes(fs.dir[id]) == Logical(old(fs.wc), old(fs.dir), id)
    ensures flushed != OK ==> OwnPage(old(fs.wc), id).WrPage? && done <= |OwnPage(old(fs.wc), id).data|
    ensures flushed != OK ==> if stored then Loose(fs, id) && done < |OwnPage(old(fs.wc), id).data| else fs.Ok()
    ensures old(CannotStore(fs, id, PageOf(fs.wc, id, 0))) ==> flushed == ERR_FULL && stored && done == 0
    ensures flushed == OK || stored ==> ReadWell(fs, f, id, old(fs.fds)[f].fdoffset, len, st, dst)
    ensures dropped <==> fs.dir[id].lost != old(fs.dir)[id].lost
    ensures old(SafeFlush(fs, id)) ==> !dropped
    ensures old(FlushStores(fs, id)) ==>
              flushed == OK && !dropped && InStock(fs) + FlushNeed(fs.g, old(fs.wc), old(fs.dir), id) >= old(FlushSure(fs, id))
  {
    hide OnlyContent, Flatten, PagesOk, OthersLogical, Good, Loose, Survived, Flushed, CannotStore, Spliced, SafeFlush, ReadWell,
      FlushStores, FlushSure, FlushNeed, InStock;
    GrownSize(fs, id, psz);
    flushed, stored, done, dropped := Flush(fs, f, id, psz, room);
    FlushedSize(old(fs.wc), old(fs.dir), id, done);
    st, dst := ReadAfter(fs, f, id, len, psz, flushed == OK, stored);
  }

  /** ... and the reading itself, after a flush that was good, or else left the object whole or not. */
  method ReadAfter(fs: Spiffs, f: nat, id: half, len: nat, ghost psz: nat, ghost good: bool, ghost whole: bool)
    returns (st: Status, dst: seq<byte>)
    requires OpenOn(fs, f, id) && id in fs.dir && (|Bytes(fs.dir[id])| == 0 ==> len == 0)
    requires if good then Good(fs, psz) else if whole then Loose(fs, id) else Survived(fs, id, {f})
    modifies fs`work, fs`curBlk, fs`curEnt, fs`fds
    ensures if good then Good(fs, psz) else if whole then Loose(fs, id) else fs.Ok()
    ensures good || whole ==> ReadWell(fs, f, id, old(fs.fds)[f].fdoffset, len, st, dst)
    ensures OnlyPlace(old(fs.fds), fs.fds, f)
  {
    hide Flatten, PagesOk, Good, Loose, Survived, Sound, FdsPix, FdsSize, FdsOff, CacheRefs, Referenced, AllTight, ReadFrom;
    ghost var fds := fs.fds;
    AfterFlush(fs, f, id, psz, good, whole);
    st, dst := ReadOn(fs, f, id, len);
    if good || whole { ReadKeeps(fds, fs, f, id, psz, good); }
  }

  lemma GrownSize(fs: Spiffs, id: half, psz: nat)
    requires Good(fs, psz) && id in fs.dir
    ensures OwnPage(fs.wc, id).WrPage? ==> OwnPage(fs.wc, id).offset <= |Bytes(fs.dir[id])|
  {
  }

  lemma FlushedSize(wc: seq<CPage>, dir: Dir, id: half, done: nat)
    requires id in dir && (OwnPage(wc, id).WrPage? ==> OwnPage(wc, id).offset <= |Bytes(dir[id])|)
    ensures |Flushed(wc, dir, id, done)| >= |Bytes(dir[id])|
  {
    hide Flatten;
  }

  /** A flush leaves descriptor f sound, unless the object is torn. */
  lemma AfterFlush(fs: Spiffs, f: nat, id: half, psz: nat, good: bool, stored: bool)
    requires OpenOn(fs, f, id) && id in fs.dir
    requires if good then Good(fs, psz) else if stored then Loose(fs, id) else Survived(fs, id, {f})
    ensures fs.Ok() && 0 < id < 0x7FFF && (good || stored ==> Sound(fs, f, id))
    ensures good || stored ==>
              && FdsPix(fs.fds, fs.dir, {}) && FdsSize(fs.fds, fs.dir, 0, {}) && CacheRefs(fs.fds, fs.wc)
              && if good then FdsOff(fs.fds, fs.dir, fs.wc, 0) && Referenced(fs.fds, fs.wc) && PagesOk(fs.wc, fs.dir, psz)
                              && AllTight(fs.g, fs.dir) && !fs.cleaning && Ample(fs.g)
                 else FdsOff(fs.fds, fs.dir, fs.wc, id)
  {
    if good {
      MidSound(fs, f, id);
    } else if stored {
      assert FdPix(fs.fds[f], fs.dir);
      assert FdSize(fs.fds[f], fs.dir) by { assert IdOf(fs.fds[f].objId) != 0; }
    } else {
      SurvivedOk(fs, id, {f});
    }
  }

  lemma SurvivedOk(fs: Spiffs, id: half, lost: set<nat>)
    requires Survived(fs, id, lost) && id in fs.dir
    ensures fs.Ok() && 0 < id < 0x7FFF
  {
    if !Torn(fs, id, lost) && !Mid(fs, Op({}, {}, 0)) {
      var x :| Torn(fs, x, {});
    }
  }

  /** Only the cursor and the offset of descriptor f are different. */
  ghost predicate OnlyPlace(fds: seq<Fd>, fds': seq<Fd>, f: nat) {
    && f < |fds| == |fds'|
    && fds' == fds[f := fds[f].(curPix := fds'[f].curPix, curSpix := fds'[f].curSpix, fdoffset := fds'[f].fdoffset)]
  }

  /** The reading part: what the descriptor takes the file to hold is read from where it is. */
  method ReadOn(fs: Spiffs, f: nat, id: half, len: nat) returns (st: Status, dst: seq<byte>)
    requires fs.Ok() && f < |fs.fds| && 0 < id < 0x7FFF
    modifies fs`work, fs`curBlk, fs`curEnt, fs`fds
    ensures fs.Ok() && OnlyPlace(old(fs.fds), fs.fds, f)
    ensures old(Sound(fs, f, id)) && (|Bytes(fs.dir[id])| == 0 ==> len == 0) ==>
              && Sound(fs, f, id) && ReadWell(fs, f, id, old(fs.fds)[f].fdoffset, len, st, dst)
              && (fs.fds[f].fdoffset <= |Bytes(fs.dir[id])| || fs.fds[f].fdoffset == old(fs.fds)[f].fdoffset)
  {
    hide Flatten, Rep, Inv, NoneDoomed;
    ghost var sound := Sound(fs, f, id);
    if sound { SoundSize(fs, f, id); }
    var at := fs.fds[f].fdoffset;
    var n: int := len;
    if at + len >= fs.fds[f].size {
      n := fs.fds[f].size - at;
      if n <= 0 { return ERR_END_OF_OBJECT, []; }
    }
    st, dst := ObjectRead(fs, f, id, at, n);
    if st != OK { return; }
    fs.fds := fs.fds[f := fs.fds[f].(fdoffset := at + n)];
  }

  lemma SoundSize(fs: Spiffs, f: nat, id: half)
    requires Sound(fs, f, id)
    ensures |Bytes(fs.dir[id])| < 0x8000_0000 && fs.fds[f].size == SizeField(|Bytes(fs.dir[id])|)
  {
    assert ObjShape(fs.g, fs.dir[id]);
  }

  /** A descriptor that has moved on within the file agrees with the directory as before. */
  lemma ReadKeeps(fds: seq<Fd>, fs: Spiffs, f: nat, id: half, psz: nat, good: bool)
    requires OnlyPlace(fds, fs.fds, f) && Sound(fs, f, id)
    requires fs.fds[f].fdoffset <= |Bytes(fs.dir[id])| || fs.fds[f].fdoffset == fds[f].fdoffset
    requires FdsPix(fds, fs.dir, {}) && FdsSize(fds, fs.dir, 0, {}) && CacheRefs(fds, fs.wc)
    requires if good then FdsOff(fds, fs.dir, fs.wc, 0) && Referenced(fds, fs.wc) && PagesOk(fs.wc, fs.dir, psz)
                          && AllTight(fs.g, fs.dir) && !fs.cleaning && Ample(fs.g)
             else FdsOff(fds, fs.dir, fs.wc, id)
    ensures if good then Good(fs, psz) else Loose(fs, id)
  {
    hide Flatten, Rep, Inv, NoneDoomed, PagesOk, AllTight, Referenced, ObjShape;
    forall i | 0 <= i < |fds| ensures FdPix(fs.fds[i], fs.dir) { if i != f { assert FdPix(fds[i], fs.dir); } }
    forall i | 0 <= i < |fds|
      ensures IdOf(fs.fds[i].objId) != 0 ==> FdSize(fs.fds[i], fs.dir)
      ensures IdOf(fs.fds[i].objId) != 0 && FdOff(fds[i], fs.dir, fs.wc) ==> FdOff(fs.fds[i], fs.dir, fs.wc)
    {
      assert IdOf(fds[i].objId) != 0 ==> FdSize(fds[i], fs.dir);
    }
    if good { RefsStay(fds, fs.fds, fs.wc, fs.wc); }
  }

  /** The read gets as far as the flush. */
  ghost predicate Reads(fd: Fd, dir: Dir, id: half, len: nat) {
    fd.flags.rd && id in dir && (|Bytes(dir[id])| > 0 || len == 0)
  }
}
