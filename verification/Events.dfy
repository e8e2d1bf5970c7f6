/** spiffs_cb_object_event: telling every descriptor about a new, moved or deleted index page. */
module Events {
  import opened Nor
  import opened Layout
  import opened Image
  import opened State
  import opened Descriptors

  /** spiffs_cache_fd_release: no open descriptor refers to the cache page any more, and it is free. */
  method CacheRelease(fs: Spiffs, slot: nat)
    requires slot < |fs.wc|
    modifies fs`fds, fs`wc
    ensures |fs.fds| == |old(fs.fds)| && fs.wc == old(fs.wc)[slot := Other]
    ensures forall i :: 0 <= i < |fs.fds| ==> fs.fds[i] == Released(old(fs.fds)[i], slot)
  {
    var i := 0;
    while i < |fs.fds|
      invariant i <= |fs.fds| == |old(fs.fds)| && fs.wc == old(fs.wc)
      invariant forall j :: 0 <= j < |fs.fds| ==>
                              fs.fds[j] == if j < i then Released(old(fs.fds)[j], slot) else old(fs.fds)[j]
    {
      if fs.fds[i].fileNbr != 0 && fs.fds[i].cache == Cached(slot) {
        fs.fds := fs.fds[i := fs.fds[i].(cache := NoCache)];
      }
      i := i + 1;
    }
    fs.wc := fs.wc[slot := Other];
  }

  function Released(fd: Fd, slot: nat): Fd {
    if fd.fileNbr != 0 && fd.cache == Cached(slot) then fd.(cache := NoCache) else fd
  }

  /** The cache pages that the event takes from the first n descriptors. */
  ghost function Taken(fds: seq<Fd>, wc: seq<CPage>, ev: Event, id: half, spix: half, newSize: word, n: nat): set<nat> {
    set i | 0 <= i < n && i < |fds| && DropsCache(fds[i], wc, ev, id, spix, newSize) :: fds[i].cache.slot
  }

  /** What is in the cache once the pages `taken` have been given up. */
  ghost predicate WithoutPages(wc: seq<CPage>, wc': seq<CPage>, taken: set<nat>) {
    |wc'| == |wc| && forall w :: 0 <= w < |wc| ==> wc'[w] == if w in taken then Other else wc[w]
  }

  /** The cache page of a descriptor once the pages `taken` have been given up. */
  function CacheAfter(c: CacheRef, taken: set<nat>): CacheRef {
    if c.Cached? && c.slot in taken then NoCache else c
  }

  /** Cache pages that have been given up, because the event takes them from their object. */
  ghost predicate GivenUp(wc: seq<CPage>, wc': seq<CPage>, id: half) {
    && |wc'| == |wc|
    && forall w :: 0 <= w < |wc| ==>
                     || wc'[w] == wc[w]
                     || (wc'[w].Other? && wc[w].WrPage? && IdOf(wc[w].objId) == IdOf(id))
  }

  /** Descriptors on other objects keep their cache pages. */
  ghost predicate OthersKeep(fds: seq<Fd>, fds': seq<Fd>, id: half) {
    && |fds'| == |fds|
    && forall i :: 0 <= i < |fds| && IdOf(fds[i].objId) != IdOf(id) ==> fds'[i] == fds[i]
  }

  /** Whether an event of this kind leaves every cache page alone. */
  predicate KeepsCache(ev: Event, spix: half, newSize: word) {
    spix != 0 || (ev != IxDel && newSize != UNDEFINED_LEN)
  }

  /** The event on descriptor i. */
  method EventOne(fs: Spiffs, i: nat, ev: Event, id: half, spix: half, newPix: half, newSize: word)
    requires i < |fs.fds| && CacheRefs(fs.fds, fs.wc) && IdOf(id) != 0
    modifies fs`fds, fs`wc
    ensures |fs.fds| == |old(fs.fds)| && CacheRefs(fs.fds, fs.wc)
    ensures Bare(fs.fds[i]) == Bare(AfterEvent(old(fs.fds)[i], old(fs.wc), ev, id, spix, newPix, newSize))
    ensures forall j :: 0 <= j < |fs.fds| && j != i ==> Bare(fs.fds[j]) == Bare(old(fs.fds)[j])
    ensures var taken := OneTaken(old(fs.fds)[i], old(fs.wc), ev, id, spix, newSize);
            && WithoutPages(old(fs.wc), fs.wc, taken)
            && forall j :: 0 <= j < |fs.fds| ==> fs.fds[j].cache == CacheAfter(old(fs.fds)[j].cache, taken)
  {
    hide ObjShape, DirOk, PageShape;
    var wc := fs.wc;
    if DropsCache(fs.fds[i], fs.wc, ev, id, spix, newSize) {
      CacheRelease(fs, fs.fds[i].cache.slot);
    }
    fs.fds := fs.fds[i := AfterEvent(fs.fds[i], wc, ev, id, spix, newPix, newSize)];
  }

  ghost function OneTaken(fd: Fd, wc: seq<CPage>, ev: Event, id: half, spix: half, newSize: word): set<nat> {
    if DropsCache(fd, wc, ev, id, spix, newSize) then {fd.cache.slot} else {}
  }

  /** A descriptor that lost its cache page to this event is updated in the same way, and loses no other. */
  lemma EventBare(fd: Fd, fd': Fd, wc: seq<CPage>, wc': seq<CPage>, taken: set<nat>, ev: Event, id: half, spix: half,
                  newPix: half, newSize: word)
    requires Bare(fd) == Bare(fd') && fd'.cache == CacheAfter(fd.cache, taken) && WithoutPages(wc, wc', taken)
    requires KeepsCache(ev, spix, newSize) ==> taken == {}
    ensures Bare(AfterEvent(fd', wc', ev, id, spix, newPix, newSize))
         == Bare(AfterEvent(fd, wc, ev, id, spix, newPix, newSize))
    ensures DropsCache(fd', wc', ev, id, spix, newSize) <==>
              DropsCache(fd, wc, ev, id, spix, newSize) && fd.cache.slot !in taken
    ensures OneTaken(fd', wc', ev, id, spix, newSize) + taken == OneTaken(fd, wc, ev, id, spix, newSize) + taken
  {
    if KeepsCache(ev, spix, newSize) { assert wc' == wc; }
  }

  lemma TakenNext(fds: seq<Fd>, wc: seq<CPage>, ev: Event, id: half, spix: half, newSize: word, i: nat)
    requires i < |fds|
    ensures Taken(fds, wc, ev, id, spix, newSize, i + 1)
         == Taken(fds, wc, ev, id, spix, newSize, i) + OneTaken(fds[i], wc, ev, id, spix, newSize)
  {
    var was, now := Taken(fds, wc, ev, id, spix, newSize, i), Taken(fds, wc, ev, id, spix, newSize, i + 1);
    forall w ensures w in now <==> w in was + OneTaken(fds[i], wc, ev, id, spix, newSize) {}
  }

  /** Only pages of the object are taken, and none by an event of a kind that keeps them. */
  lemma TakenIs(fds: seq<Fd>, wc: seq<CPage>, ev: Event, id: half, spix: half, newSize: word, n: nat)
    requires CacheRefs(fds, wc)
    ensures var taken := Taken(fds, wc, ev, id, spix, newSize, n);
            && (n == 0 ==> taken == {})
            && (KeepsCache(ev, spix, newSize) ==> taken == {})
            && forall w :: w in taken ==> w < |wc| && wc[w].WrPage? && IdOf(wc[w].objId) == IdOf(id)
  {
  }

  /** What the effect on cache pages and descriptors comes to. */
  lemma AfterTaken(fds: seq<Fd>, fds': seq<Fd>, wc: seq<CPage>, wc': seq<CPage>, ev: Event, id: half, spix: half,
                   newPix: half, newSize: word)
    requires CacheRefs(fds, wc) && FdsAfter(fds, fds', wc, ev, id, spix, newPix, newSize)
    requires var taken := Taken(fds, wc, ev, id, spix, newSize, |fds|);
             && WithoutPages(wc, wc', taken)
             && forall i :: 0 <= i < |fds'| ==> fds'[i].cache == CacheAfter(fds[i].cache, taken)
    ensures GivenUp(wc, wc', id) && OthersKeep(fds, fds', id)
    ensures KeepsCache(ev, spix, newSize) ==> wc' == wc
    ensures KeepsCache(ev, spix, newSize) ==>
              forall i :: 0 <= i < |fds'| ==> fds'[i] == AfterEvent(fds[i], wc', ev, id, spix, newPix, newSize)
  {
    hide Taken, DropsCache;
    TakenIs(fds, wc, ev, id, spix, newSize, |fds|);
    if KeepsCache(ev, spix, newSize) { assert wc' == wc; }
    forall i | 0 <= i < |fds'|
      ensures IdOf(fds[i].objId) != IdOf(id) ==> fds'[i] == fds[i]
      ensures KeepsCache(ev, spix, newSize) ==> fds'[i] == AfterEvent(fds[i], wc', ev, id, spix, newPix, newSize)
    {
      assert fds'[i] == Bare(fds'[i]).(cache := fds'[i].cache);
    }
  }

  /** Every descriptor is updated, and gives up its cache page as the kind of event says; no other cache page
      is touched. */
  method ObjectEvent(fs: Spiffs, ev: Event, id: half, spix: half, newPix: half, newSize: word)
    requires CacheRefs(fs.fds, fs.wc) && IdOf(id) != 0
    modifies fs`fds, fs`wc
    ensures |fs.fds| == |old(fs.fds)| && CacheRefs(fs.fds, fs.wc)
    ensures FdsAfter(old(fs.fds), fs.fds, old(fs.wc), ev, id, spix, newPix, newSize)
    ensures var taken := Taken(old(fs.fds), old(fs.wc), ev, id, spix, newSize, |old(fs.fds)|);
            && WithoutPages(old(fs.wc), fs.wc, taken)
            && forall i :: 0 <= i < |fs.fds| ==> fs.fds[i].cache == CacheAfter(old(fs.fds)[i].cache, taken)
    ensures GivenUp(old(fs.wc), fs.wc, id)
    ensures OthersKeep(old(fs.fds), fs.fds, id)
    ensures forall i :: 0 <= i < |fs.fds| ==> fs.fds[i].cache == old(fs.fds)[i].cache || fs.fds[i].cache.NoCache?
    ensures KeepsCache(ev, spix, newSize) ==> fs.wc == old(fs.wc)
    ensures KeepsCache(ev, spix, newSize) ==>
              forall i :: 0 <= i < |fs.fds| ==>
                            fs.fds[i] == AfterEvent(old(fs.fds)[i], fs.wc, ev, id, spix, newPix, newSize)
  {
    hide AfterEvent, DropsCache, Taken, OneTaken, CacheRefs, GivenUp, OthersKeep, KeepsCache;
    ghost var fds, wc := fs.fds, fs.wc;
    TakenIs(fds, wc, ev, id, spix, newSize, 0);
    var i := 0;
    while i < |fs.fds|
      invariant i <= |fs.fds| == |fds| && CacheRefs(fs.fds, fs.wc)
      invariant WithoutPages(wc, fs.wc, Taken(fds, wc, ev, id, spix, newSize, i))
      invariant forall j :: 0 <= j < |fs.fds| ==>
                              fs.fds[j].cache == CacheAfter(fds[j].cache, Taken(fds, wc, ev, id, spix, newSize, i))
      invariant forall j :: 0 <= j < i ==>
                              Bare(fs.fds[j]) == Bare(AfterEvent(fds[j], wc, ev, id, spix, newPix, newSize))
      invariant forall j :: i <= j < |fs.fds| ==> Bare(fs.fds[j]) == Bare(fds[j])
    {
      ghost var was := Taken(fds, wc, ev, id, spix, newSize, i);
      TakenIs(fds, wc, ev, id, spix, newSize, i);
      EventBare(fds[i], fs.fds[i], wc, fs.wc, was, ev, id, spix, newPix, newSize);
      TakenNext(fds, wc, ev, id, spix, newSize, i);
      EventOne(fs, i, ev, id, spix, newPix, newSize);
      i := i + 1;
    }
    AfterTaken(fds, fs.fds, wc, fs.wc, ev, id, spix, newPix, newSize);
  }
}
