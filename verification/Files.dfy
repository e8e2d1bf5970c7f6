/** Files by name: finding, creating, opening and removing them. */
module Files {
  import opened Nor
  import opened Layout
  import opened Chunks
  import opened Image
  import opened Core
  import opened Descriptors
  import opened State
  import opened Alloc
  import opened Stock
  import opened Events
  import opened Objects
  import opened Gc
  import opened Collect
  import opened Modify
  import opened Append
  import opened Hydro
  import opened Truncate
  import opened FreeId
  import WriteCache
  import Search

  /** No two objects have the same name. */
  ghost predicate UniqueNames(dir: Dir) {
    forall x, y :: x in dir && y in dir && SameName(dir[x].name, dir[y].name) ==> x == y
  }

  /** The object of that name, if there is one. */
  ghost predicate Has(dir: Dir, name: seq<byte>, id: half) {
    id in dir && SameName(dir[id].name, name)
  }

  // ---------------------------------------------------------------- finding

  /** The visitor's verdict on page p when a header of that name is looked for. */
  predicate NameAt(lu: seq<half>, pages: seq<Page>, name: seq<byte>, p: nat) {
    p < |lu| && p < |pages| && Live(lu[p]) && IsNamed(lu[p], pages[p]) && SameName(name, pages[p].name)
  }

  lemma NameAtIs(g: Geo, P: set<nat>, lu: seq<half>, pages: seq<Page>, dir: Dir, name: seq<byte>, p: nat)
    requires Rep(g, P, lu, pages, dir, {}) && NoneDoomed(dir) && p in P && NameAt(lu, pages, name, p)
    ensures Has(dir, name, IdOf(lu[p])) && |dir[IdOf(lu[p])].ix| > 0 && dir[IdOf(lu[p])].ix[0] as nat == p
  {
    assert Owned(lu[p], pages[p].span, p, dir);
    assert IxOk(g, P, lu, pages, {}, IdOf(lu[p]), dir[IdOf(lu[p])], 0);
  }

  lemma HasNameAt(g: Geo, P: set<nat>, lu: seq<half>, pages: seq<Page>, dir: Dir, name: seq<byte>, id: half)
    requires Entries(g, P) && Rep(g, P, lu, pages, dir, {}) && NoneDoomed(dir)
    ensures Has(dir, name, id) ==>
              exists b, e :: Search.IsEntry(g, b, e) && NameAt(lu, pages, name, g.PixOf(b, e))
  {
    if Has(dir, name, id) {
      assert IxOk(g, P, lu, pages, {}, id, dir[id], 0);
      var p := dir[id].ix[0];
      assert Search.IsEntry(g, g.BlockOf(p), g.EntryOf(p)) && NameAt(lu, pages, name, p as nat);
    }
  }

  /** spiffs_object_find_object_index_header_by_name: it finds the header page of the object of that name,
      wherever the search happens to start, and fails only if there is none. */
  method FindByName(fs: Spiffs, name: seq<byte>) returns (st: Status, pix: half, ghost id: half)
    requires Ready(fs)
    modifies fs`curBlk, fs`curEnt
    ensures Ready(fs) && (st == OK || st == ERR_NOT_FOUND)
    ensures st == OK ==> Has(fs.dir, name, id) && |fs.dir[id].ix| > 0 && pix == fs.dir[id].ix[0]
    ensures st != OK ==> forall x :: !Has(fs.dir, name, x)
  {
    hide FreeSuffix, CursorOk, FdsOk, AllTight, Has, NoneDoomed, LivePages, DeletedPages, FreeBlocks, PageShape;
    var lu, pages := fs.lu, fs.pages;
    pix, id := 0, 0;
    var found, b, e := Search.FindEntry(fs.g, fs.curBlk, fs.curEnt, false, (p: nat) => NameAt(lu, pages, name, p));
    if !found {
      forall x ensures !Has(fs.dir, name, x) { HasNameAt(fs.g, fs.P, lu, pages, fs.dir, name, x); }
      return ERR_NOT_FOUND, pix, id;
    }
    pix := fs.g.PixOf(b, e);
    NameAtIs(fs.g, fs.P, lu, pages, fs.dir, name, pix as nat);
    id := IdOf(lu[pix]);
    fs.curBlk, fs.curEnt := b, e;
    st := OK;
  }

  /** When names are unique the answer does not depend on where the search starts. */
  lemma NameUnique(dir: Dir, name: seq<byte>, x: half, y: half)
    requires UniqueNames(dir) && Has(dir, name, x) && Has(dir, name, y)
    ensures x == y
  {
  }

  // ---------------------------------------------------------------- creating

  /** An object that has just been created, with its header on page q. */
  function NewObj(name: seq<byte>, q: half): Obj { Obj(name, [q], [], [], false) }

  /** The header of a new object is written to a reserved page. */
  method PlaceHeader(fs: Spiffs, id: half, name: seq<byte>, q: half)
    requires Reserved(fs.g, fs.P, fs.S(), q as nat) && 0 < id < 0x7FFF && |name| == NAME_LEN
    modifies fs`lu, fs`pages, fs`nAlloc
    ensures Inv(fs.g, fs.P, fs.S())
    ensures fs.lu == old(fs.lu)[q := id + IX_FLAG]
    ensures fs.pages == old(fs.pages)[q := IxPage(fs.g, id, NewObj(name, q), 0)]
  {
    var page := HeaderOnly(fs.g, id + IX_FLAG, 0, INDEX_FLAGS).(name := name);
    NewHeader(fs.g, id, name, q);
    Occupy(fs.g, fs.P, fs.S(), q as nat, id + IX_FLAG, page);
    WriteLu(fs, q, id + IX_FLAG);
    fs.nAlloc := fs.nAlloc + 1;
    BlankOverlay(fs.g, page);
    WritePage(fs, q, page);
  }

  lemma NewHeader(g: Geo, id: half, name: seq<byte>, q: half)
    requires 0 < id < 0x7FFF && |name| == NAME_LEN
    ensures |Bytes(NewObj(name, q))| == 0
    ensures HeaderOnly(g, id + IX_FLAG, 0, INDEX_FLAGS).(name := name) == IxPage(g, id, NewObj(name, q), 0)
  {
    assert SlotsFor(g, [], 0) == FreeSlots(g.Cap());
  }

  /** The descriptors are told about a new object; none of them is open on it, so no user notices. */
  method TellCreated(fs: Spiffs, id: half, q: half, ghost dir: Dir, ghost name: seq<byte>)
    requires FdsOk(fs.fds, fs.wc, dir, 0, {}) && 0 !in dir && id !in dir && 0 < id < 0x7FFF
    requires fs.dir == dir[id := NewObj(name, q)]
    modifies fs`fds, fs`wc
    ensures FdsOk(fs.fds, fs.wc, fs.dir, 0, {}) && SameUser(old(fs.fds), fs.fds) && fs.wc == old(fs.wc)
  {
    ghost var fds, wc := fs.fds, fs.wc;
    ObjectEvent(fs, IxNew, id + IX_FLAG, 0, q, UNDEFINED_LEN);
    NoneConcerned(fds, wc, dir, id);
    assert fs.wc == wc;
    forall i | 0 <= i < |fds| ensures SameUser([fds[i]], [fs.fds[i]]) {
      assert fs.fds[i].cache == fds[i].cache;
      assert FdPix(fds[i], dir);
      assert fs.fds[i] == Bare(fs.fds[i]).(cache := fds[i].cache);
    }
    ByOne(fds, fs.fds);
    forall i | 0 <= i < |fds| ensures FdPix(fs.fds[i], fs.dir) { assert FdPix(fds[i], dir); }
    forall i | 0 <= i < |fds| ensures IdOf(fs.fds[i].objId) != 0 ==> FdSize(fs.fds[i], fs.dir) && FdOff(fs.fds[i], fs.dir, fs.wc) {
      assert FdPix(fds[i], dir);
      if IdOf(fds[i].objId) != 0 { assert FdSize(fds[i], dir) && FdOff(fds[i], dir, wc); }
    }
  }

  lemma ByOne(fds: seq<Fd>, fds': seq<Fd>)
    requires |fds'| == |fds| && forall i :: 0 <= i < |fds| ==> SameUser([fds[i]], [fds'[i]])
    ensures SameUser(fds, fds')
  {
    forall i | 0 <= i < |fds|
      ensures fds'[i].fileNbr == fds[i].fileNbr && fds'[i].objId == fds[i].objId && fds'[i].flags == fds[i].flags
      ensures fds[i].fileNbr != 0 ==> fds'[i].fdoffset == fds[i].fdoffset
      ensures fds'[i].cache == fds[i].cache && fds'[i].score == fds[i].score && fds'[i].nameHash == fds[i].nameHash
    {
      var a, b := [fds[i]], [fds'[i]];
      assert a[0] == fds[i] && b[0] == fds'[i] && SameUser(a, b);
    }
  }

  /** The event of a new object takes no cache page. */
  lemma NoneConcerned(fds: seq<Fd>, wc: seq<CPage>, dir: Dir, id: half)
    requires FdsPix(fds, dir, {}) && CacheRefs(fds, wc) && id !in dir && 0 < id < 0x7FFF
    ensures Taken(fds, wc, IxNew, id + IX_FLAG, 0, UNDEFINED_LEN, |fds|) == {}
  {
    forall i | 0 <= i < |fds| ensures !DropsCache(fds[i], wc, IxNew, id + IX_FLAG, 0, UNDEFINED_LEN) {
      assert FdPix(fds[i], dir);
    }
  }

  lemma ReservedFree(fs: Spiffs, q: half)
    requires Reserved(fs.g, fs.P, fs.S(), q as nat)
    ensures q as nat in fs.P && q as nat < |fs.lu| && fs.lu[q] == FREE_ID && |fs.pages| == |fs.lu|
  {
  }

  /** A page is picked; no object loses anything. */
  method PickHeader(fs: Spiffs) returns (st: Status, q: half)
    requires fs.Ok() && Rep(fs.g, fs.P, fs.lu, fs.pages, fs.dir, {})
    modifies fs`lu, fs`pages, fs`freeBlocks, fs`surplus, fs`maxErase, fs`eraseCnt, fs`nDel, fs`freeBlk, fs`freeEnt
    ensures Spacious(st) && (st == OK <==> old(PageToHave(fs)))
    ensures if st == OK then Reserved(fs.g, fs.P, fs.S(), q as nat) else fs.Ok()
    ensures Rep(fs.g, fs.P, fs.lu, fs.pages, fs.dir, {}) && |fs.eraseCnt| == fs.g.blocks
    ensures st == OK ==> q as nat in fs.P && q as nat < |fs.lu| == |fs.pages| && fs.lu[q] == FREE_ID
    ensures old(InStock(fs)) >= 1 ==> st == OK && InStock(fs) + 1 >= old(InStock(fs))
  {
    hide Rep, Inv, Reserved, OnlyDeletedErased, PageToHave, TakesNext, Stocked, PageShape, FreePages;
    if InStock(fs) >= 1 { StockGives(fs); }
    ghost var lu, pages, t := fs.lu, fs.pages, fs.S();
    st, q := FindFree(fs);
    EraseStep(fs.g, fs.P, lu, pages, fs.dir, {}, fs.lu, fs.pages);
    if st != OK { return; }
    ReservedFree(fs, q);
    if t.freeBlocks >= 2 { StockTaken(fs.g, fs.P, t, fs.S(), q as nat); }
  }

  /** The header page is picked and written. */
  method MakeHeader(fs: Spiffs, id: half, name: seq<byte>) returns (st: Status, q: half)
    requires fs.Ok() && Rep(fs.g, fs.P, fs.lu, fs.pages, fs.dir, {})
    requires id !in fs.dir && 0 < id < 0x7FFF && |name| == NAME_LEN
    modifies fs`lu, fs`pages, fs`freeBlocks, fs`surplus, fs`maxErase, fs`eraseCnt, fs`nDel, fs`freeBlk, fs`freeEnt,
             fs`nAlloc, fs`dir
    ensures Spacious(st)
    ensures fs.Ok() && Rep(fs.g, fs.P, fs.lu, fs.pages, fs.dir, {})
    ensures fs.dir == if st == OK then old(fs.dir)[id := NewObj(name, q)] else old(fs.dir)
    ensures st == OK <==> old(PageToHave(fs))
    ensures old(InStock(fs)) >= 1 ==> st == OK && InStock(fs) + 1 >= old(InStock(fs))
  {
    hide Rep, Inv, Reserved, IxPage, PageToHave, Stocked, PageShape, Flatten;
    st, q := PickHeader(fs);
    if st != OK { return; }
    ghost var lu, pages := fs.lu, fs.pages;
    NewHeader(fs.g, id, name, q);
    PlaceHeader(fs, id, name, q);
    CreateStep(fs.g, fs.P, lu, pages, fs.dir, fs.lu, fs.pages, id, name, q);
    fs.dir := fs.dir[id := NewObj(name, q)];
  }

  method MakeObject(fs: Spiffs, id: half, name: seq<byte>) returns (st: Status, q: half)
    requires Ready(fs) && id !in fs.dir && 0 < id < 0x7FFF && |name| == NAME_LEN
    modifies fs
    ensures Spacious(st)
    ensures fs.cleaning == old(fs.cleaning)
    ensures Mid(fs, IDLE) && fs.dir == if st == OK then old(fs.dir)[id := NewObj(name, q)] else old(fs.dir)
    ensures SameUser(old(fs.fds), fs.fds) && fs.wc == old(fs.wc)
    ensures st == OK <==> old(PageToHave(fs))
    ensures old(InStock(fs)) >= 1 ==> st == OK && InStock(fs) + 1 >= old(InStock(fs))
  {
    hide Rep, FdsOk, Inv, SameUser, PageToHave, Stocked;
    ghost var dir := fs.dir;
    RepIds(fs.g, fs.P, fs.lu, fs.pages, dir, {});
    SameUserRefl(fs.fds);
    st, q := MakeHeader(fs, id, name);
    if st != OK { return; }
    TellCreated(fs, id, q, dir, name);
  }

  /** spiffs_object_create: on success there is one object more, empty and of that name.  Every object that was there
      keeps its name and bytes, and no user of a descriptor notices, whether it succeeds or not; and flash, directory and
      descriptors agree afterwards, unless no page at all is free. */
  method ObjectCreate(fs: Spiffs, id: half, name: seq<byte>, room: nat) returns (st: Status, q: half)
    requires Ready(fs) && id !in fs.dir && 0 < id < 0x7FFF && |name| == NAME_LEN && 0 < room
    modifies fs
    ensures Spacious(st) && !fs.cleaning
    ensures st == OK ==> Ready(fs) && id in fs.dir && fs.dir[id] == NewObj(name, q)
    ensures st == OK ==> SameMeaning(old(fs.dir), fs.dir - {id})
    ensures st != OK ==> SameMeaning(old(fs.dir), fs.dir) && (Ready(fs) || (Exhausted(fs) && Stalled(fs)))
    ensures SameUser(old(fs.fds), fs.fds) && fs.wc == old(fs.wc)
    ensures old(Hopeless(fs, WithMeta(fs.g, 0))) ==> st == ERR_FULL && unchanged(fs)
    ensures old(Quiet(fs, WithMeta(fs.g, 0))) ==> (st == OK <==> !old(Exhausted(fs)))
    ensures old(Assured(fs, WithMeta(fs.g, 0))) > 0 ==> st == OK && InStock(fs) + 1 >= old(Assured(fs, WithMeta(fs.g, 0)))
  {
    hide RunsEnded, Rep, FdsOk, Inv, Flatten, Tight, Hopeless, Exhausted, Stalled, SameUser, Quiet, Assured, Stocked, PageToHave,
      NoneDoomed;
    if Quiet(fs, WithMeta(fs.g, 0)) { QuietPage(fs, WithMeta(fs.g, 0)); }
    q := 0;
    ghost var runs;
    st, runs := GcCheck(fs, WithMeta(fs.g, 0), room);
    ghost var dir, fds := fs.dir, fs.fds;
    MeaningTight(fs.g, old(fs.dir), dir);
    if st != OK { return; }
    st, q := MakeObject(fs, id, name);
    SameUserTransitive(old(fs.fds), fds, fs.fds);
    if st != OK { return; }
    MidShape(fs, IDLE);
    CreatedReady(fs.g, dir, fs.dir, id, name, q);
    assert fs.dir - {id} == dir;
  }

  lemma MeaningTight(g: Geo, dir: Dir, dir': Dir)
    requires AllTight(g, dir) && SameMeaning(dir, dir')
    ensures AllTight(g, dir')
  {
    forall x | x in dir' ensures Tight(g, dir'[x]) { assert Tight(g, dir[x]); }
  }

  lemma CreatedReady(g: Geo, dir: Dir, dir': Dir, id: half, name: seq<byte>, q: half)
    requires AllTight(g, dir) && NoneDoomed(dir) && dir' == dir[id := NewObj(name, q)] && 0 < g.ixLen
    ensures AllTight(g, dir') && NoneDoomed(dir')
  {
    forall x | x in dir' ensures Tight(g, dir'[x]) {
      if x != id { assert Tight(g, dir[x]); }
    }
  }

  // ---------------------------------------------------------------- opening

  /** Between calls, with names and ids as the functions below keep them; `n` lookup entries in all, work
      buffer of `ps` bytes. */
  ghost predicate Settled(fs: Spiffs, n: nat, ps: nat)
    requires 0 < ps
    reads fs
  {
    Ready(fs) && UniqueNames(fs.dir) && AllAllotted(fs.dir, n, ps)
  }

  /** A path as it is stored. */
  function Pad(path: seq<byte>): (r: seq<byte>)
    requires |path| < NAME_LEN
    ensures |r| == NAME_LEN
  {
    path + seq(NAME_LEN - |path|, i => 0)
  }

  /** A stored path reads back. */
  lemma {:induction false} PadReads(path: seq<byte>, rest: seq<byte>)
    requires forall i :: 0 <= i < |path| ==> path[i] != 0
    requires |rest| > 0 && rest[0] == 0
    ensures CStr(path + rest) == path
  {
    if |path| > 0 {
      assert (path + rest)[1..] == path[1..] + rest;
      PadReads(path[1..], rest);
    } else {
      assert path + rest == rest;
    }
  }

  /** So two paths are stored as the same name exactly if they are the same. */
  lemma NamesTell(p: seq<byte>, q: seq<byte>)
    requires |p| < NAME_LEN && |q| < NAME_LEN
    requires (forall i :: 0 <= i < |p| ==> p[i] != 0) && forall i :: 0 <= i < |q| ==> q[i] != 0
    ensures SameName(Pad(p), Pad(q)) <==> p == q
  {
    PadReads(p, seq(NAME_LEN - |p|, i => 0));
    PadReads(q, seq(NAME_LEN - |q|, i => 0));
  }

  const HIT_SCORE := 4

  /** What spiffs_fd_find_new makes of the score of the descriptor it picks. */
  function NewScore(fd: Fd, hash: nat): (r: nat)
    ensures 0 < r
  {
    if fd.nameHash == hash && fd.score > 0 then
      if fd.score < 0xFFFF - HIT_SCORE then fd.score + HIT_SCORE else 0xFFFF
    else HIT_SCORE
  }

  /** spiffs_object_open_by_page, into a closed descriptor. */
  method OpenByPage(fs: Spiffs, f: nat, ghost id: half, pix: half, flags: OpenFlags, hash: nat) returns (st: Status)
    requires Ready(fs) && f < |fs.fds| && fs.fds[f].fileNbr == 0 && fs.fds[f].cache.NoCache?
    requires id in fs.dir && |fs.dir[id].ix| > 0 && pix == fs.dir[id].ix[0]
    modifies fs`fds
    ensures Ready(fs) && st == OK && OpenOn(fs, f, id) && fs.fds[f].fdoffset == 0 && fs.fds[f].cache.NoCache?
    ensures fs.fds[f].flags == flags
    ensures |fs.fds| == |old(fs.fds)| && forall i :: 0 <= i < |fs.fds| && i != f ==> fs.fds[i] == old(fs.fds)[i]
  {
    ghost var fds := fs.fds;
    OpenedPage(fs.g, fs.P, fs.lu, fs.pages, fs.dir, id);
    var page, objId := fs.pages[pix], fs.lu[pix];
    st := ValidateIx(page, objId, 0);
    fs.fds := fs.fds[f := Fd(f + 1, objId, page.size, pix, pix, 0, 0, flags, NoCache, hash, NewScore(fs.fds[f], hash))];
    OpenedFds(fs.g, fds, fs.fds, fs.wc, fs.dir, f, id);
  }

  lemma OpenedPage(g: Geo, P: set<nat>, lu: seq<half>, pages: seq<Page>, dir: Dir, id: half)
    requires Rep(g, P, lu, pages, dir, {}) && id in dir && |dir[id].ix| > 0
    ensures var p := dir[id].ix[0];
            && 0 < id < 0x7FFF && p as nat < |lu| == |pages| && lu[p] == id + IX_FLAG && |Bytes(dir[id])| < UNDEFINED_LEN
            && pages[p].size == SizeField(|Bytes(dir[id])|) && ValidateIx(pages[p], lu[p], 0) == OK
  {
    assert IxOk(g, P, lu, pages, {}, id, dir[id], 0);
  }

  lemma OpenedFds(g: Geo, fds: seq<Fd>, fds': seq<Fd>, wc: seq<CPage>, dir: Dir, f: nat, id: half)
    requires FdsOk(fds, wc, dir, 0, {}) && f < |fds| && id in dir && 0 < id < 0x7FFF && |Bytes(dir[id])| < UNDEFINED_LEN
    requires |fds'| == |fds| && fds' == fds[f := fds'[f]] && |dir[id].ix| > 0
    requires var d := fds'[f];
             && d.objId == id + IX_FLAG && d.size == SizeField(|Bytes(dir[id])|) && d.hdrPix == dir[id].ix[0]
             && d.curPix == dir[id].ix[0] && d.curSpix == 0 && d.fdoffset == 0 && d.cache.NoCache? && d.score > 0
    ensures FdsOk(fds', wc, dir, 0, {})
  {
    forall i | 0 <= i < |fds'| ensures FdPix(fds'[i], dir) { if i != f { assert FdPix(fds[i], dir); } }
    forall i | 0 <= i < |fds'| && IdOf(fds'[i].objId) != 0 ensures FdSize(fds'[i], dir) && FdOff(fds'[i], dir, wc) {
      if i != f { assert FdSize(fds[i], dir) && FdOff(fds[i], dir, wc); }
    }
  }

  // ---------------------------------------------------------------- what others notice

  /** Nobody who uses an open descriptor on another object than `id` notices anything, and descriptors that were
      closed are closed, but perhaps descriptor f. */
  ghost predicate Unnoticed(fds: seq<Fd>, fds': seq<Fd>, f: nat, id: half) {
    && |fds'| == |fds|
    && forall i :: 0 <= i < |fds| && i != f ==>
                     if fds[i].fileNbr == 0 then fds'[i].fileNbr == 0
                     else IdOf(fds[i].objId) != id ==>
                       && fds'[i].fileNbr == fds[i].fileNbr && fds'[i].objId == fds[i].objId && fds'[i].flags == fds[i].flags
                       && fds'[i].fdoffset == fds[i].fdoffset && fds'[i].cache == fds[i].cache
  }

  lemma UnnoticedThen(a: seq<Fd>, b: seq<Fd>, c: seq<Fd>, f: nat, id: half)
    requires Unnoticed(a, b, f, 0) && Unnoticed(b, c, f, id) && id != 0
    requires forall i :: 0 <= i < |a| && a[i].fileNbr != 0 ==> IdOf(a[i].objId) != 0
    ensures Unnoticed(a, c, f, id)
  {
  }

  /** Open descriptors have objects. */
  lemma OpenIds(fs: Spiffs)
    requires Mid(fs, IDLE)
    ensures forall i :: 0 <= i < |fs.fds| && fs.fds[i].fileNbr != 0 ==> IdOf(fs.fds[i].objId) != 0
  {
    forall i | 0 <= i < |fs.fds| && fs.fds[i].fileNbr != 0 ensures IdOf(fs.fds[i].objId) != 0 {
      assert FdPix(fs.fds[i], fs.dir);
    }
  }

  /** Every object but `id` holds for its users what it held. */
  ghost predicate OthersSeen(wc: seq<CPage>, dir: Dir, wc': seq<CPage>, dir': Dir, id: half) {
    forall x :: x in dir && x != id ==> x in dir' && WriteCache.Logical(wc', dir', x) == WriteCache.Logical(wc, dir, x)
  }

  /** Write pages of other objects stay, so these objects hold what they held. */
  lemma SeenWithout(wc: seq<CPage>, dir: Dir, wc': seq<CPage>, dir': Dir, id: half)
    requires GivenUp(wc, wc', id) && id < IX_FLAG
    requires forall x :: x in dir && x != id ==> x in dir' && dir'[x].chunks == dir[x].chunks
    ensures OthersSeen(wc, dir, wc', dir', id)
  {
    hide Flatten;
    forall x | x in dir && x != id ensures WriteCache.Logical(wc', dir', x) == WriteCache.Logical(wc, dir, x) {
      forall w | 0 <= w < |wc| ensures WriteCache.Keeps(wc', w, x) <==> WriteCache.Keeps(wc, w, x) {}
      assert WriteCache.PageOf(wc', x, 0) == WriteCache.PageOf(wc, x, 0);
    }
  }

  lemma DroppedGivenUp(fds: seq<Fd>, fds': seq<Fd>, wc: seq<CPage>, wc': seq<CPage>, id: half, least: nat)
    requires PagesDropped(fds, fds', wc, wc', id, least) && CacheRefs(fds, wc) && id < IX_FLAG
    ensures GivenUp(wc, wc', id)
  {
    forall w | 0 <= w < |wc| && wc'[w] != wc[w] ensures wc[w].WrPage? && IdOf(wc[w].objId) == IdOf(id) {
      var i: nat :| Names(fds, i, id, w);
    }
  }

  /** Every write page of the object that begins at `least` or behind it is dropped: some descriptor refers to it. */
  lemma AllDropped(fds: seq<Fd>, fds': seq<Fd>, wc: seq<CPage>, wc': seq<CPage>, id: half, least: nat, w: nat)
    requires PagesDropped(fds, fds', wc, wc', id, least) && Referenced(fds, wc) && CacheRefs(fds, wc)
    requires w < |wc| && wc[w].WrPage? && IdOf(wc[w].objId) == id && wc[w].offset >= least
    ensures wc'[w].Other?
  {
    var i: nat :| RefersBy(fds, i, w);
    assert Names(fds, i, id, w);
  }

  /** Pages that are not dropped are still referred to, when the descriptors stay open or lose only such pages. */
  lemma RefsRemain(fds: seq<Fd>, fds': seq<Fd>, wc: seq<CPage>, wc': seq<CPage>, id: half, least: nat)
    requires PagesDropped(fds, fds', wc, wc', id, least) && Referenced(fds, wc) && CacheRefs(fds, wc)
    requires forall i :: 0 <= i < |fds| && fds[i].fileNbr != 0 && (IdOf(fds[i].objId) != id || least > 0) ==> fds'[i].fileNbr != 0
    ensures Referenced(fds', wc')
  {
    forall w | 0 <= w < |wc'| && wc'[w].WrPage? ensures exists i: nat :: RefersBy(fds', i, w) {
      var i: nat :| RefersBy(fds, i, w);
      if IdOf(fds[i].objId) == id { assert Names(fds, i, id, w); }
      assert RefersBy(fds', i, w);
    }
  }

  // ---------------------------------------------------------------- opening

  /** What a file holds for its users once it has been opened: a truncation forgets all but a write page that begins at
      the start of the file. */
  ghost function Opened(wc: seq<CPage>, dir: Dir, id: half, trunc: bool): seq<byte> {
    if id !in dir then []
    else if !trunc then WriteCache.Logical(wc, dir, id)
    else
      var p := WriteCache.OwnPage(wc, id);
      if p.WrPage? && p.offset == 0 then p.data else []
  }

  /** A truncation leaves a write page behind that begins where the file no longer reaches. */
  ghost predicate Stranded(wc: seq<CPage>, dir: Dir, id: half) {
    id in dir && |Bytes(dir[id])| > 0 && WriteCache.OwnPage(wc, id).WrPage? && WriteCache.OwnPage(wc, id).offset == 1
  }

  /** Descriptors other than f that were open are open on the same file, where they were or at the start. */
  ghost predicate Stayed(fds: seq<Fd>, fds': seq<Fd>, f: nat) {
    && |fds'| == |fds|
    && forall i :: 0 <= i < |fds| && i != f && fds[i].fileNbr != 0 ==>
                     && fds'[i].fileNbr == fds[i].fileNbr && fds'[i].objId == fds[i].objId && fds'[i].flags == fds[i].flags
                     && (fds'[i].fdoffset == fds[i].fdoffset || fds'[i].fdoffset == 0)
  }

  lemma UnnoticedStayed(fds: seq<Fd>, fds': seq<Fd>, f: nat)
    requires Unnoticed(fds, fds', f, 0) && forall i :: 0 <= i < |fds| && fds[i].fileNbr != 0 ==> IdOf(fds[i].objId) != 0
    ensures Stayed(fds, fds', f)
  {
  }

  lemma StayedThen(a: seq<Fd>, b: seq<Fd>, c: seq<Fd>, f: nat)
    requires Stayed(a, b, f) && Stayed(b, c, f)
    ensures Stayed(a, c, f)
  {
  }

  /** The file of that name, if there is one, has lost no page. */
  ghost predicate NoneLost(dir: Dir, name: seq<byte>) { forall x :: Has(dir, name, x) ==> dir[x].lost == {} }

  /** SPIFFS_open, with the closed descriptor that spiffs_fd_find_new picks, if there is one.  On success the
      descriptor is open at the start of the object of that name, which is empty if it is new or was to be
      truncated.  Every other object keeps its name and its bytes, cached or not, whether the call succeeds or not, and
      users of other descriptors notice nothing but the truncation.  A truncation does not forget everything: a write page
      that begins at offset 0 stays as the content of the file, and one at offset 1 is left stranded, and exactly then
      the write cache no longer fits the files.  The file to be truncated must not have lost a page. */
  method Open(fs: Spiffs, slot: Option<nat>, path: seq<byte>, flags: OpenFlags, hash: nat, n: nat, ps: nat, room: nat)
    returns (st: Status, ghost id: half)
    requires 129 <= ps <= 2048 && Settled(fs, n, ps) && 0 < room
    requires slot.Some? ==> slot.value < |fs.fds| && fs.fds[slot.value].fileNbr == 0
    requires flags.trunc && |path| < NAME_LEN ==> NoneLost(fs.dir, Pad(path))
    modifies fs
    ensures |path| >= NAME_LEN ==> st == ERR_NAME_TOO_LONG
    ensures |path| < NAME_LEN && slot.None? ==> st == ERR_OUT_OF_FILE_DESCS
    ensures st == OK ==> id in fs.dir && fs.dir[id].lost == if id in old(fs.dir) then old(fs.dir)[id].lost else {}
    ensures st == OK ==> Settled(fs, n, ps) && OpenOn(fs, slot.value, id) && Has(fs.dir, Pad(path), id)
    ensures st == OK ==> fs.fds[slot.value].fdoffset == 0 && fs.fds[slot.value].flags == flags
    ensures st == OK ==> OthersMeaning(old(fs.dir), fs.dir, id)
    ensures |path| < NAME_LEN && slot.Some? && (forall x :: !Has(old(fs.dir), Pad(path), x)) && !flags.creat ==>
              st == ERR_NOT_FOUND
    ensures |path| < NAME_LEN && slot.Some? && (exists x :: Has(old(fs.dir), Pad(path), x)) ==>
              if flags.creat && flags.excl then st == ERR_FILE_EXISTS
              else Spacious(st) && (!flags.trunc ==> st == OK)
    ensures st == OK && id !in old(fs.dir) ==>
              && flags.creat && (forall x :: !Has(old(fs.dir), Pad(path), x))
              && fs.dir[id].name == Pad(path) && Bytes(fs.dir[id]) == []
    ensures st == OK && id in old(fs.dir) ==>
              && Has(old(fs.dir), Pad(path), id) && fs.dir[id].name == old(fs.dir)[id].name
              && Bytes(fs.dir[id]) == if flags.trunc then [] else Bytes(old(fs.dir)[id])
    ensures OthersSeen(old(fs.wc), old(fs.dir), fs.wc, fs.dir, id)
    ensures Unnoticed(old(fs.fds), fs.fds, if slot.Some? then slot.value else |fs.fds|, if flags.trunc then id else 0)
    ensures st == OK && flags.trunc && id in old(fs.dir) && |Bytes(old(fs.dir)[id])| > 0 ==> Rewound(fs.fds, id)
    ensures st == OK && old(WriteCache.Good(fs, ps)) ==>
              && (WriteCache.Good(fs, ps) <==> !(flags.trunc && Stranded(old(fs.wc), old(fs.dir), id)))
              && (WriteCache.Good(fs, ps) ==>
                    WriteCache.Logical(fs.wc, fs.dir, id) == Opened(old(fs.wc), old(fs.dir), id, flags.trunc))
    ensures st == OK && flags.trunc ==> Stayed(old(fs.fds), fs.fds, slot.value)
    ensures st != OK ==> OnlyNamed(old(fs.dir), fs.dir, id) && fs.wc == old(fs.wc) && (Settled(fs, n, ps) || Survived(fs, id, {}))
    ensures st != OK ==>
              || (SameMeaning(old(fs.dir), fs.dir) && Unnoticed(old(fs.fds), fs.fds, if slot.Some? then slot.value else |fs.fds|, 0))
              || (|path| < NAME_LEN && flags.trunc && Has(old(fs.dir), Pad(path), id))
    ensures st != OK && slot.Some? ==> fs.fds[slot.value].fileNbr == 0
    ensures |path| < NAME_LEN && slot.Some? && (forall x :: !Has(old(fs.dir), Pad(path), x)) && flags.creat ==>
              CreateResult(fs, st, old(CanCreate(fs, n, ps)), old(Quiet(fs, WithMeta(fs.g, 0))), old(Exhausted(fs)),
                           old(Assured(fs, WithMeta(fs.g, 0))))
    ensures |path| < NAME_LEN && slot.Some? && !(flags.creat && flags.excl) ==>
              forall x :: Has(old(fs.dir), Pad(path), x) ==> OpenResult(fs, st, old(fs.dir)[x], flags.trunc, old(InStock(fs)), old(ClearSure(fs)))
  {
    hide OpenResult, CreateResult, Assured, Quiet, Stocked, ClearSure, Ready, Rep, UniqueNames, AllAllotted, OthersMeaning, Pad,
      Flatten, OthersSeen, Survived, Rewound, Stranded, Opened, OnlyNamed, WriteCache.PagesOk, WriteCache.Logical,
      WriteCache.OwnPage, Referenced;
    id := 0;
    NothingYet(fs, if slot.Some? then slot.value else |fs.fds|);
    if |path| > NAME_LEN - 1 { return ERR_NAME_TOO_LONG, id; }
    if slot.None? { return ERR_OUT_OF_FILE_DESCS, id; }
    var pix;
    st, pix, id := FindByName(fs, Pad(path));
    if !flags.creat && st != OK { id := 0; return; }
    if st == OK && flags.creat && flags.excl { return ERR_FILE_EXISTS, 0; }
    if st == OK {
      OnlyFound(fs.dir, Pad(path), id);
      st := OpenFound(fs, slot.value, path, id, pix, flags, hash, n, ps, room);
    } else {
      st, id := OpenNew(fs, slot.value, path, flags, hash, n, ps, room);
    }
  }

  lemma OnlyFound(dir: Dir, name: seq<byte>, id: half)
    requires UniqueNames(dir) && Has(dir, name, id)
    ensures forall x :: Has(dir, name, x) ==> x == id
  {
    forall x | Has(dir, name, x) ensures x == id { NameUnique(dir, name, x, id); }
  }

  /** What comes of opening a file that is there: it takes no page, unless it is to be truncated, and then one for every index
      page.  `stock` and `sure` are what held before. */
  ghost predicate OpenResult(fs: Spiffs, st: Status, o: Obj, trunc: bool, stock: nat, sure: nat)
    reads fs`freeEnt, fs`freeBlocks, fs`surplus
  {
    && (!trunc || |Bytes(o)| == 0 ==> st == OK && InStock(fs) == stock)
    && (trunc && |Bytes(o)| > 0 && sure >= |o.ix| ==> st == OK && InStock(fs) + |o.ix| >= sure)
  }

  /** Every object is there, with the name it had, and every object but `id` with the bytes it had. */
  ghost predicate OnlyNamed(dir: Dir, dir': Dir, id: half) {
    OthersContent(dir, dir', id) && (id in dir ==> dir'[id].name == dir[id].name)
  }

  lemma NothingYet(fs: Spiffs, f: nat)
    ensures OthersSeen(fs.wc, fs.dir, fs.wc, fs.dir, 0) && Unnoticed(fs.fds, fs.fds, f, 0) && OnlyNamed(fs.dir, fs.dir, 0)
    ensures forall id :: Unnoticed(fs.fds, fs.fds, f, id)
  {
  }

  /** Every object but `id` has the name and the bytes it had, and has lost no page since; none has gone. */
  ghost predicate OthersMeaning(dir: Dir, dir': Dir, id: half) {
    && (forall x :: x in dir' <==> x in dir || x == id)
    && forall x :: x in dir && x != id ==>
                     dir'[x].name == dir[x].name && dir'[x].chunks == dir[x].chunks && dir'[x].lost == dir[x].lost
  }

  lemma NamesKept(dir: Dir, dir': Dir, id: half, n: nat, ps: nat)
    requires UniqueNames(dir) && 0 < ps && AllAllotted(dir, n, ps) && OnlyNamed(dir, dir', id) && id in dir
    ensures UniqueNames(dir') && AllAllotted(dir', n, ps) && OthersMeaning(dir, dir', id) && dir'[id].name == dir[id].name
  {
  }

  method OpenFound(fs: Spiffs, f: nat, path: seq<byte>, ghost id: half, pix: half, flags: OpenFlags, hash: nat,
                   ghost n: nat, ghost ps: nat, room: nat) returns (st: Status)
    requires 129 <= ps <= 2048 && Settled(fs, n, ps) && 0 < room && f < |fs.fds| && fs.fds[f].fileNbr == 0
    requires |path| < NAME_LEN && Has(fs.dir, Pad(path), id) && |fs.dir[id].ix| > 0 && pix == fs.dir[id].ix[0]
    requires flags.trunc ==> fs.dir[id].lost == {}
    modifies fs
    ensures Spacious(st) && (!flags.trunc ==> st == OK)
    ensures st == OK ==> id in fs.dir && fs.dir[id].lost == old(fs.dir)[id].lost
    ensures st == OK ==> Settled(fs, n, ps) && OpenOn(fs, f, id) && Has(fs.dir, Pad(path), id)
    ensures st == OK ==> fs.fds[f].fdoffset == 0 && fs.fds[f].flags == flags && OthersMeaning(old(fs.dir), fs.dir, id)
    ensures st == OK ==> Bytes(fs.dir[id]) == if flags.trunc then [] else Bytes(old(fs.dir)[id])
    ensures st == OK ==> fs.dir[id].name == old(fs.dir)[id].name
    ensures OthersSeen(old(fs.wc), old(fs.dir), fs.wc, fs.dir, id)
    ensures Unnoticed(old(fs.fds), fs.fds, f, if flags.trunc then id else 0)
    ensures st == OK && flags.trunc && |Bytes(old(fs.dir)[id])| > 0 ==> Rewound(fs.fds, id)
    ensures st == OK ==> Stayed(old(fs.fds), fs.fds, f)
    ensures st == OK && old(WriteCache.Good(fs, ps)) ==>
              && (WriteCache.Good(fs, ps) <==> !(flags.trunc && Stranded(old(fs.wc), old(fs.dir), id)))
              && (WriteCache.Good(fs, ps) ==>
                    WriteCache.Logical(fs.wc, fs.dir, id) == Opened(old(fs.wc), old(fs.dir), id, flags.trunc))
    ensures st != OK ==> OnlyNamed(old(fs.dir), fs.dir, id) && fs.wc == old(fs.wc) && Survived(fs, id, {}) && fs.fds[f].fileNbr == 0
    ensures OpenResult(fs, st, old(fs.dir)[id], flags.trunc, old(InStock(fs)), old(ClearSure(fs)))
  {
    hide Stocked, ClearSure, Ready, UniqueNames, AllAllotted, OnlyContent, OthersMeaning, Flatten, Pad, OthersSeen, Survived,
      Rewound, Stranded, Opened, WriteCache.PagesOk, WriteCache.Logical, WriteCache.OwnPage, Referenced, PagesDropped, OnlyNamed,
      ObjShape, DirOk, PageShape, FlashOk, FreeSuffix, CursorOk, LivePages, DeletedPages, FreeBlocks, FreePages, SomeDeletedBlock,
      Rep;
    ghost var dir, wc, fds := fs.dir, fs.wc, fs.fds;
    ClosedNoCache(fs, f);
    ReadyMid(fs);
    OpenIds(fs);
    st := OpenByPage(fs, f, id, pix, flags, hash);
    OpenedGood(dir, wc, fds, fs, f, id, ps);
    UnnoticedStayed(fds, fs.fds, f);
    if flags.trunc {
      ghost var fds1 := fs.fds;
      st := Truncated(fs, f, id, room, ps);
      UnnoticedThen(fds, fds1, fs.fds, f, id);
      if st != OK { return; }
      StayedThen(fds, fds1, fs.fds, f);
    }
    NamesKept(dir, fs.dir, id, n, ps);
  }

  lemma ReadyMid(fs: Spiffs)
    requires Ready(fs)
    ensures Mid(fs, IDLE) && (forall x :: x in fs.dir ==> 0 < x < 0x7FFF) && CacheRefs(fs.fds, fs.wc)
  {
  }

  lemma ClosedNoCache(fs: Spiffs, f: nat)
    requires Ready(fs) && f < |fs.fds| && fs.fds[f].fileNbr == 0
    ensures fs.fds[f].cache.NoCache?
  {
  }

  /** Opening a closed descriptor changes nothing for anybody else. */
  lemma OpenedGood(dir: Dir, wc: seq<CPage>, fds: seq<Fd>, fs: Spiffs, f: nat, id: half, ps: nat)
    requires fs.dir == dir && fs.wc == wc && |fs.fds| == |fds| && f < |fds| && fds[f].fileNbr == 0 && Ready(fs) && id in dir
    requires forall i :: 0 <= i < |fds| && i != f ==> fs.fds[i] == fds[i]
    ensures OthersSeen(wc, dir, fs.wc, fs.dir, id) && Unnoticed(fds, fs.fds, f, 0) && OnlyNamed(dir, fs.dir, id)
    ensures OnlyContent(dir, fs.dir, id)
    ensures WriteCache.PagesOk(wc, dir, ps) && Referenced(fds, wc) && Ample(fs.g) ==> WriteCache.Good(fs, ps)
    ensures Opened(wc, dir, id, false) == WriteCache.Logical(wc, dir, id)
  {
    hide Flatten, WriteCache.Logical, WriteCache.PagesOk;
    if Referenced(fds, wc) {
      forall w | 0 <= w < |wc| && wc[w].WrPage? ensures exists i: nat :: RefersBy(fs.fds, i, w) {
        var i: nat :| RefersBy(fds, i, w);
        assert RefersBy(fs.fds, i, w);
      }
    }
  }

  /** The object is truncated, and the descriptor put to its start, or closed again. */
  method Truncated(fs: Spiffs, f: nat, ghost id: half, room: nat, ghost ps: nat) returns (st: Status)
    requires Ready(fs) && OpenOn(fs, f, id) && id in fs.dir && fs.dir[id].lost == {} && 0 < room && fs.fds[f].cache.NoCache?
    modifies fs
    ensures Spacious(st)
    ensures st == OK ==> Ready(fs) && OpenOn(fs, f, id) && id in fs.dir && Bytes(fs.dir[id]) == [] && fs.dir[id].lost == {}
    ensures st == OK ==> fs.fds[f].fdoffset == 0 && fs.fds[f].flags == old(fs.fds)[f].flags
    ensures OnlyNamed(old(fs.dir), fs.dir, id) && OthersSeen(old(fs.wc), old(fs.dir), fs.wc, fs.dir, id)
    ensures Unnoticed(old(fs.fds), fs.fds, f, id)
    ensures st == OK && |Bytes(old(fs.dir)[id])| > 0 ==> Rewound(fs.fds, id)
    ensures st == OK ==> Stayed(old(fs.fds), fs.fds, f)
    ensures st == OK && old(WriteCache.Good(fs, ps)) ==>
              && (WriteCache.Good(fs, ps) <==> !Stranded(old(fs.wc), old(fs.dir), id))
              && (WriteCache.Good(fs, ps) ==> WriteCache.Logical(fs.wc, fs.dir, id) == Opened(old(fs.wc), old(fs.dir), id, true))
    ensures st != OK ==> fs.wc == old(fs.wc) && Survived(fs, id, {}) && f < |fs.fds| && fs.fds[f].fileNbr == 0
    ensures |Bytes(old(fs.dir)[id])| == 0 ==> st == OK && InStock(fs) == old(InStock(fs))
    ensures |Bytes(old(fs.dir)[id])| > 0 && old(ClearSure(fs)) >= |old(fs.dir)[id].ix| ==>
              st == OK && InStock(fs) + |old(fs.dir)[id].ix| >= old(ClearSure(fs))
  {
    hide Stocked, ClearSure, Ready, Flatten, WriteCache.PagesOk, WriteCache.Logical, WriteCache.OwnPage, Referenced, PagesDropped,
      Survived, Stranded, Opened, OnlyContent, OthersSeen, Rep, Inv, FdsPix, FdsSize, FdsOff, CacheRefs, AllTight, NoneDoomed;
    ghost var dir, wc, fds := fs.dir, fs.wc, fs.fds;
    ReadyMid(fs);
    st := ClearObject(fs, f, IdOf(fs.fds[f].objId), room);
    ghost var fds1 := fs.fds;
    ClearedSeen(dir, wc, fds, fs.fds, fs.wc, fs.dir, id, st == OK && |Bytes(dir[id])| > 0);
    if st != OK {
      CloseTorn(fs, f, id);
      return;
    }
    WriteCache.SetOffset(fs, f, IdOf(fs.fds[f].objId), 0);
    ClearedGood(dir, wc, fds, fds1, fs, f, id, ps);
  }

  lemma ClearedSeen(dir: Dir, wc: seq<CPage>, fds: seq<Fd>, fds': seq<Fd>, wc': seq<CPage>, dir': Dir, id: half, dropped: bool)
    requires OthersContent(dir, dir', id) && CacheRefs(fds, wc) && 0 < id < IX_FLAG
    requires if dropped then PagesDropped(fds, fds', wc, wc', id, 2) else wc' == wc
    ensures OthersSeen(wc, dir, wc', dir', id)
  {
    if dropped { DroppedGivenUp(fds, fds', wc, wc', id, 2); }
    SeenWithout(wc, dir, wc', dir', id);
  }

  /** What is left of the write cache of a truncated file. */
  lemma ClearedGood(dir: Dir, wc: seq<CPage>, fds: seq<Fd>, fds1: seq<Fd>, fs: Spiffs, f: nat, id: half, ps: nat)
    requires Ready(fs) && id in dir && id in fs.dir && OnlyContent(dir, fs.dir, id) && Bytes(fs.dir[id]) == [] && CacheRefs(fds, wc)
    requires if |Bytes(dir[id])| == 0 then fs.wc == wc && fs.dir == dir && fds1 == fds else PagesDropped(fds, fds1, wc, fs.wc, id, 2)
    requires SameFiles(fds, fds1) && f < |fds1| && fs.fds == fds1[f := fds1[f].(fdoffset := 0)]
    ensures WriteCache.PagesOk(wc, dir, ps) && Referenced(fds, wc) && Ample(fs.g) ==>
              && (WriteCache.Good(fs, ps) <==> !Stranded(wc, dir, id))
              && (WriteCache.Good(fs, ps) ==> WriteCache.Logical(fs.wc, fs.dir, id) == Opened(wc, dir, id, true))
  {
    hide Ready, Flatten;
    if WriteCache.PagesOk(wc, dir, ps) && Referenced(fds, wc) {
      if |Bytes(dir[id])| > 0 { RefsRemain(fds, fds1, wc, fs.wc, id, 2); }
      WriteCache.RefsStay(fds1, fs.fds, fs.wc, fs.wc);
      ClearedPages(dir, wc, fds, fds1, fs.wc, fs.dir, id, ps);
    }
  }

  lemma ClearedPages(dir: Dir, wc: seq<CPage>, fds: seq<Fd>, fds': seq<Fd>, wc': seq<CPage>, dir': Dir, id: half, ps: nat)
    requires WriteCache.PagesOk(wc, dir, ps) && Referenced(fds, wc) && CacheRefs(fds, wc)
    requires id in dir && OnlyContent(dir, dir', id) && Bytes(dir'[id]) == [] 
    requires if |Bytes(dir[id])| == 0 then wc' == wc else PagesDropped(fds, fds', wc, wc', id, 2)
    ensures WriteCache.PagesOk(wc', dir', ps) <==> !Stranded(wc, dir, id)
    ensures WriteCache.PagesOk(wc', dir', ps) ==> WriteCache.Logical(wc', dir', id) == Opened(wc, dir, id, true)
  {
    hide Flatten, PagesDropped;
    var v := WriteCache.PageOf(wc, id, 0);
    forall w | 0 <= w < |wc| && WriteCache.Keeps(wc, w, id) ensures w == v { WriteCache.OnlyPage(wc, dir, ps, id, w); }
    if |Bytes(dir[id])| > 0 {
      DroppedOnly(fds, fds', wc, wc', id, 2);
      if v < |wc| && wc[v].offset >= 2 { AllDropped(fds, fds', wc, wc', id, 2, v); }
    } else if v < |wc| {
      WriteCache.PageFits(wc, dir, ps, id, v);
    }
    forall w | 0 <= w < |wc| && w != v ensures wc'[w] == wc[w] {
      assert wc[w].WrPage? && IdOf(wc[w].objId) == id ==> WriteCache.Keeps(wc, w, id);
    }
    forall w | 0 <= w < |wc'| && WriteCache.Keeps(wc', w, id) ensures w == v { assert w != v ==> WriteCache.Keeps(wc, w, id); }
    LeftPages(dir, wc, wc', dir', id, ps, v);
  }

  /** At most the write page v of the object is gone, and it is if it begins at offset 2 or behind it. */
  lemma LeftPages(dir: Dir, wc: seq<CPage>, wc': seq<CPage>, dir': Dir, id: half, ps: nat, v: nat)
    requires WriteCache.PagesOk(wc, dir, ps) && id in dir && OnlyContent(dir, dir', id) && Bytes(dir'[id]) == []
    requires v == WriteCache.PageOf(wc, id, 0) && |wc'| == |wc| && forall w :: 0 <= w < |wc| && w != v ==> wc'[w] == wc[w]
    requires forall w :: 0 <= w < |wc'| && WriteCache.Keeps(wc', w, id) ==> w == v
    requires v < |wc| ==> wc'[v] == if wc[v].offset >= 2 then Other else wc[v]
    requires |Bytes(dir[id])| == 0 ==> wc' == wc
    ensures WriteCache.PagesOk(wc', dir', ps) <==> !Stranded(wc, dir, id)
    ensures WriteCache.PagesOk(wc', dir', ps) ==> WriteCache.Logical(wc', dir', id) == Opened(wc, dir, id, true)
  {
    hide Flatten;
    var v' := WriteCache.PageOf(wc', id, 0);
    if v < |wc| && wc'[v].WrPage? {
      assert WriteCache.Keeps(wc', v, id) && v' == v;
      assert wc'[v].offset == 0 ==> Spliced([], 0, wc'[v].data) == wc'[v].data;
    } else {
      assert v' == |wc'|;
    }
    forall w | 0 <= w < |wc| && wc[w].WrPage? && w != v ensures IdOf(wc[w].objId) != id {
      assert IdOf(wc[w].objId) == id ==> WriteCache.Keeps(wc', w, id);
    }
  }

  lemma DroppedOnly(fds: seq<Fd>, fds': seq<Fd>, wc: seq<CPage>, wc': seq<CPage>, id: half, least: nat)
    requires PagesDropped(fds, fds', wc, wc', id, least) && CacheRefs(fds, wc)
    ensures |wc'| == |wc|
    ensures forall w :: 0 <= w < |wc| && !(wc[w].WrPage? && IdOf(wc[w].objId) == id && wc[w].offset >= least) ==> wc'[w] == wc[w]
    ensures forall w :: 0 <= w < |wc| ==> wc'[w] == wc[w] || wc'[w].Other?
  {
    forall w | 0 <= w < |wc| && wc'[w] != wc[w] ensures wc[w].WrPage? && IdOf(wc[w].objId) == id && wc[w].offset >= least {
      var i: nat :| Names(fds, i, id, w);
    }
  }

  /** spiffs_fd_return after an error. */
  method CloseTorn(fs: Spiffs, f: nat, ghost id: half)
    requires f < |fs.fds| && fs.fds[f].cache.NoCache? && Survived(fs, id, {})
    modifies fs`fds
    ensures fs.fds == old(fs.fds)[f := old(fs.fds)[f].(fileNbr := 0)] && Survived(fs, id, {})
  {
    hide Inv, Rep, FreePages, NoneDoomed, Flatten, FdsOff;
    ghost var fds, x: half := fs.fds, id;
    ghost var mid, own := Mid(fs, IDLE), Torn(fs, id, {});
    if !own && !mid { x :| Torn(fs, x, {}); }
    fs.fds := fs.fds[f := fs.fds[f].(fileNbr := 0)];
    ClosedFds(fds, fs.fds, fs.wc, fs.dir, f);
    if !own { assert if mid then Mid(fs, IDLE) else Torn(fs, x, {}); }
  }

  lemma ClosedFds(fds: seq<Fd>, fds': seq<Fd>, wc: seq<CPage>, dir: Dir, f: nat)
    requires f < |fds| && fds[f].cache.NoCache? && fds' == fds[f := fds[f].(fileNbr := 0)]
    ensures FdsPix(fds, dir, {}) ==> FdsPix(fds', dir, {})
    ensures forall busy :: FdsSize(fds, dir, busy, {}) ==> FdsSize(fds', dir, busy, {})
    ensures FdsOff(fds, dir, wc, 0) ==> FdsOff(fds', dir, wc, 0)
    ensures CacheRefs(fds, wc) ==> CacheRefs(fds', wc)
  {
    forall i | 0 <= i < |fds|
      ensures FdPix(fds[i], dir) ==> FdPix(fds'[i], dir)
      ensures FdSize(fds[i], dir) ==> FdSize(fds'[i], dir)
      ensures FdOff(fds[i], dir, wc) ==> FdOff(fds'[i], dir, wc)
    {
    }
  }

  /** One object more, with a name of its own and an id that was allotted to it. */
  lemma NamesAdded(dir: Dir, dir': Dir, id: half, name: seq<byte>, q: half, n: nat, ps: nat)
    requires UniqueNames(dir) && 0 < ps && AllAllotted(dir, n, ps) && id !in dir && Allotted(id, n, ps)
    requires SameMeaning(dir, dir' - {id}) && id in dir' && dir'[id] == NewObj(name, q)
    requires forall x :: !Has(dir, name, x)
    ensures UniqueNames(dir') && AllAllotted(dir', n, ps) && OthersMeaning(dir, dir', id)
    ensures Has(dir', name, id) && Bytes(dir'[id]) == []
  {
    forall x | x in dir' && x != id
      ensures x in dir && dir'[x].name == dir[x].name && dir'[x].chunks == dir[x].chunks && dir'[x].lost == dir[x].lost
      ensures x in dir && !SameName(dir[x].name, name)
    {
      assert x in dir' - {id};
      assert !Has(dir, name, x);
    }
    forall x | x in dir ensures x in dir' { assert x in dir' - {id}; }
  }

  /** No name and no id has changed. */
  lemma NamesSame(dir: Dir, dir': Dir, id: half, n: nat, ps: nat)
    requires UniqueNames(dir) && 0 < ps && AllAllotted(dir, n, ps) && SameMeaning(dir, dir')
    ensures UniqueNames(dir') && AllAllotted(dir', n, ps) && OnlyNamed(dir, dir', id)
  {
  }

  /** One object more does not concern the write cache. */
  lemma AddedGood(dir: Dir, wc: seq<CPage>, fds: seq<Fd>, dir': Dir, fds': seq<Fd>, id: half, ps: nat)
    requires OthersMeaning(dir, dir', id) && id !in dir && Bytes(dir'[id]) == [] && SameUser(fds, fds') && 0 < id < IX_FLAG
    ensures OthersSeen(wc, dir, wc, dir', id)
    ensures WriteCache.PagesOk(wc, dir, ps) && Referenced(fds, wc) ==>
              && WriteCache.PagesOk(wc, dir', ps) && Referenced(fds', wc) && WriteCache.Logical(wc, dir', id) == []
    ensures Opened(wc, dir, id, true) == Opened(wc, dir, id, false) == [] && !Stranded(wc, dir, id)
  {
    hide Flatten;
    assert GivenUp(wc, wc, id);
    SeenWithout(wc, dir, wc, dir', id);
    if WriteCache.PagesOk(wc, dir, ps) && Referenced(fds, wc) {
      WriteCache.RefsUser(fds, fds', wc);
      forall w | 0 <= w < |wc| && wc[w].WrPage? ensures IdOf(wc[w].objId) != id {}
    }
  }

  /** ... and neither does a failure to add one. */
  lemma SameSeen(dir: Dir, wc: seq<CPage>, dir': Dir, id: half)
    requires SameMeaning(dir, dir')
    ensures OthersSeen(wc, dir, wc, dir', id)
  {
  }

  /** There is an id for one more object. */
  ghost predicate CanCreate(fs: Spiffs, n: nat, ps: nat)
    requires 0 < ps
    reads fs`dir
  {
    !AllUsed(Ids(fs.dir), n, ps)
  }

  /** What comes of creating an object whose name is not taken: it needs an id and a page.  `free`, `quiet`, `spent` and `sure`
      are what held before. */
  ghost predicate CreateResult(fs: Spiffs, st: Status, free: bool, quiet: bool, spent: bool, sure: nat)
    reads fs`freeEnt, fs`freeBlocks, fs`surplus
  {
    && (!free ==> st == ERR_FULL)
    && (free && quiet ==> (st == OK <==> !spent))
    && (free && sure > 0 ==> st == OK && InStock(fs) + 1 >= sure)
  }

  /** An unused id is looked for and an empty object of that name created, unless the name is looked for too and taken. */
  method CreateFree(fs: Spiffs, clash: Option<seq<byte>>, name: seq<byte>, n: nat, ps: nat, room: nat)
    returns (st: Status, q: half, ghost id: half)
    requires 129 <= ps <= 2048 && Settled(fs, n, ps) && 0 < room && |name| == NAME_LEN
    requires if clash.Some? then clash.value == name else forall x :: !Has(fs.dir, name, x)
    modifies fs
    ensures Spacious(st) || (st == ERR_CONFLICTING_NAME && clash.Some? && unchanged(fs) && exists x :: Has(fs.dir, name, x))
    ensures st == OK ==> Settled(fs, n, ps) && id !in old(fs.dir) && Has(fs.dir, name, id) && Bytes(fs.dir[id]) == []
    ensures st == OK ==> id in fs.dir && fs.dir[id].name == name && |fs.dir[id].ix| > 0 && q == fs.dir[id].ix[0] && 0 < id < IX_FLAG
    ensures st == OK ==> fs.dir[id].lost == {}
    ensures st == OK ==> OthersMeaning(old(fs.dir), fs.dir, id) && forall x :: !Has(old(fs.dir), name, x)
    ensures OthersSeen(old(fs.wc), old(fs.dir), fs.wc, fs.dir, id) && SameUser(old(fs.fds), fs.fds) && fs.wc == old(fs.wc)
    ensures st == OK && old(WriteCache.Good(fs, ps)) ==> WriteCache.Good(fs, ps) && WriteCache.Logical(fs.wc, fs.dir, id) == []
    ensures st == OK ==> !Stranded(old(fs.wc), old(fs.dir), id)
    ensures st == OK ==> forall trunc :: Opened(old(fs.wc), old(fs.dir), id, trunc) == []
    ensures st != OK ==> SameMeaning(old(fs.dir), fs.dir) && OnlyNamed(old(fs.dir), fs.dir, id)
    ensures st != OK ==> Settled(fs, n, ps) || (Exhausted(fs) && Stalled(fs))
    ensures clash.Some? && (exists x :: Has(old(fs.dir), name, x)) ==> st == ERR_CONFLICTING_NAME && unchanged(fs)
    ensures (forall x :: !Has(old(fs.dir), name, x)) ==> CreateResult(fs, st, old(CanCreate(fs, n, ps)), old(Quiet(fs, WithMeta(fs.g, 0))),
                                                                     old(Exhausted(fs)), old(Assured(fs, WithMeta(fs.g, 0))))
  {
    hide UniqueNames, AllAllotted, Allotted, OthersMeaning, Flatten, Rep, FdsOk, Inv, AllTight, SameName, OthersSeen, Stalled,
      Exhausted, Stranded, Opened, OnlyNamed, WriteCache.PagesOk, WriteCache.Logical, Referenced, SameUser, NoClash, Quiet,
      Assured, Stocked;
    id, q := 0, 0;
    NothingYet(fs, 0);
    ghost var dir, fds := fs.dir, fs.fds;
    SameUserRefl(fds);
    NamesSame(dir, dir, 0, n, ps);
    var newId;
    st, newId := FindFreeObjId(fs, clash, n, ps);
    NotTaken(dir, name);
    if st != OK { return; }
    AllottedBounds(newId, n, ps);
    id := newId;
    st, q := ObjectCreate(fs, newId, name, room);
    if st != OK {
      NamesSame(dir, fs.dir, id, n, ps);
      SameSeen(dir, fs.wc, fs.dir, id);
      return;
    }
    NamesAdded(dir, fs.dir, id, name, q, n, ps);
    AddedGood(dir, fs.wc, fds, fs.dir, fs.fds, id, ps);
  }

  method OpenNew(fs: Spiffs, f: nat, path: seq<byte>, flags: OpenFlags, hash: nat, n: nat, ps: nat, room: nat)
    returns (st: Status, ghost id: half)
    requires 129 <= ps <= 2048 && Settled(fs, n, ps) && 0 < room && f < |fs.fds| && fs.fds[f].fileNbr == 0
    requires |path| < NAME_LEN && forall x :: !Has(fs.dir, Pad(path), x)
    modifies fs
    ensures st == OK ==> Settled(fs, n, ps) && OpenOn(fs, f, id) && Has(fs.dir, Pad(path), id)
    ensures st == OK ==> fs.fds[f].fdoffset == 0 && fs.fds[f].flags == flags && OthersMeaning(old(fs.dir), fs.dir, id)
    ensures st == OK ==> id !in old(fs.dir) && Bytes(fs.dir[id]) == [] && fs.dir[id].name == Pad(path) && fs.dir[id].lost == {}
    ensures OthersSeen(old(fs.wc), old(fs.dir), fs.wc, fs.dir, id) && Unnoticed(old(fs.fds), fs.fds, f, 0) && fs.wc == old(fs.wc)
    ensures Unnoticed(old(fs.fds), fs.fds, f, id)
    ensures st == OK && old(WriteCache.Good(fs, ps)) ==> WriteCache.Good(fs, ps) && WriteCache.Logical(fs.wc, fs.dir, id) == []
    ensures st == OK ==> !Stranded(old(fs.wc), old(fs.dir), id) && Opened(old(fs.wc), old(fs.dir), id, flags.trunc) == []
    ensures st == OK ==> Stayed(old(fs.fds), fs.fds, f)
    ensures st != OK ==> SameMeaning(old(fs.dir), fs.dir)
    ensures st != OK ==> OnlyNamed(old(fs.dir), fs.dir, id) && (Settled(fs, n, ps) || Survived(fs, id, {})) && fs.fds[f].fileNbr == 0
    ensures CreateResult(fs, st, old(CanCreate(fs, n, ps)), old(Quiet(fs, WithMeta(fs.g, 0))), old(Exhausted(fs)),
                         old(Assured(fs, WithMeta(fs.g, 0))))
  {
    hide CreateResult, Assured, Quiet, UniqueNames, AllAllotted, OthersMeaning, Flatten, Pad, Ready, Has, OthersSeen, Stalled,
      Exhausted, Stranded, Opened, OnlyNamed, WriteCache.PagesOk, WriteCache.Logical, Referenced, SameUser, SameMeaning;
    ghost var dir, wc, fds := fs.dir, fs.wc, fs.fds;
    var q;
    ClosedNoCache(fs, f);
    st, q, id := CreateFree(fs, None, Pad(path), n, ps, room);
    ghost var dir1, fds1 := fs.dir, fs.fds;
    NewUnnoticed(fds, fds1, dir, f, id);
    if st != OK { return; }
    ClosedNoCache(fs, f);
    st := OpenByPage(fs, f, id, q, flags, hash);
    OpenedGood(dir1, wc, fds1, fs, f, id, ps);
    NewUnnoticed(fds, fds1, dir, f, id);
  }

  lemma NewUnnoticed(fds: seq<Fd>, fds': seq<Fd>, dir: Dir, f: nat, id: half)
    requires SameUser(fds, fds') && f < |fds| && fds[f].fileNbr == 0
    ensures |fds'| == |fds| && fds'[f].fileNbr == 0
    ensures forall fds2 :: |fds2| == |fds'| && (forall i :: 0 <= i < |fds2| && i != f ==> fds2[i] == fds'[i]) ==>
                             Unnoticed(fds, fds2, f, 0) && Unnoticed(fds, fds2, f, id)
  {
  }

  /** SPIFFS_creat: one more empty file of that name, unless the name is taken, or there is no id or no page for it.  Whether it
      succeeds or not, every other file keeps its name and its bytes, cached or not, and users of descriptors notice nothing. */
  method Creat(fs: Spiffs, path: seq<byte>, n: nat, ps: nat, room: nat) returns (st: Status, ghost id: half)
    requires 129 <= ps <= 2048 && Settled(fs, n, ps) && 0 < room
    modifies fs
    ensures |path| >= NAME_LEN ==> st == ERR_NAME_TOO_LONG && unchanged(fs)
    ensures |path| < NAME_LEN ==> Spacious(st) || st == ERR_CONFLICTING_NAME
    ensures |path| < NAME_LEN ==> (st == ERR_CONFLICTING_NAME <==> exists x :: Has(old(fs.dir), Pad(path), x))
    ensures st == ERR_CONFLICTING_NAME ==> unchanged(fs)
    ensures |path| < NAME_LEN && (forall x :: !Has(old(fs.dir), Pad(path), x)) ==>
              CreateResult(fs, st, old(CanCreate(fs, n, ps)), old(Quiet(fs, WithMeta(fs.g, 0))), old(Exhausted(fs)),
                           old(Assured(fs, WithMeta(fs.g, 0))))
    ensures st == OK ==> (forall x :: !Has(old(fs.dir), Pad(path), x)) && id !in old(fs.dir)
    ensures st == OK ==> Settled(fs, n, ps) && Has(fs.dir, Pad(path), id) && fs.dir[id].name == Pad(path) && Bytes(fs.dir[id]) == []
    ensures st == OK ==> fs.dir[id].lost == {}
    ensures st == OK ==> OthersMeaning(old(fs.dir), fs.dir, id)
    ensures OthersSeen(old(fs.wc), old(fs.dir), fs.wc, fs.dir, id) && SameUser(old(fs.fds), fs.fds) && fs.wc == old(fs.wc)
    ensures st == OK && old(WriteCache.Good(fs, ps)) ==> WriteCache.Good(fs, ps) && WriteCache.Logical(fs.wc, fs.dir, id) == []
    ensures st != OK ==> SameMeaning(old(fs.dir), fs.dir) && (Settled(fs, n, ps) || (Exhausted(fs) && Stalled(fs)))
  {
    hide UniqueNames, AllAllotted, OthersMeaning, Flatten, Pad, Ready, SameName, OthersSeen, Stalled, Exhausted, Stranded, Opened,
      OnlyNamed, WriteCache.PagesOk, WriteCache.Logical, Referenced, SameUser, CreateResult, Assured, Quiet;
    id := 0;
    SameUserRefl(fs.fds);
    NothingYet(fs, 0);
    if |path| > NAME_LEN - 1 { return ERR_NAME_TOO_LONG, id; }
    var q;
    st, q, id := CreateFree(fs, Some(Pad(path)), Pad(path), n, ps, room);
  }

  lemma NotTaken(dir: Dir, name: seq<byte>)
    ensures NoClash(dir, Ids(dir), Some(name)) <==> forall x :: !Has(dir, name, x)
    ensures (exists x :: x in dir && Clashes(Some(name), dir[x].name)) <==> exists x :: Has(dir, name, x)
  {
    forall x | x in dir ensures Clashes(Some(name), dir[x].name) == Has(dir, name, x) && x in Ids(dir) {}
  }

  /** SPIFFS_remove, with the closed descriptor that is used on the way, if there is one: the object of that name is gone,
      with all its pages on flash and in the cache, its descriptors are closed, and nothing else has changed.  It fails
      only if there is no such object or no descriptor, and then nothing has changed at all.  The object must not have lost
      a page. */
  method Remove(fs: Spiffs, slot: Option<nat>, path: seq<byte>, n: nat, ps: nat) returns (st: Status, ghost id: half)
    requires 129 <= ps <= 2048 && Settled(fs, n, ps)
    requires slot.Some? ==> slot.value < |fs.fds| && fs.fds[slot.value].fileNbr == 0
    requires |path| < NAME_LEN ==> NoneLost(fs.dir, Pad(path))
    modifies fs
    ensures Settled(fs, n, ps)
    ensures if |path| >= NAME_LEN then st == ERR_NAME_TOO_LONG
            else if slot.None? then st == ERR_OUT_OF_FILE_DESCS
            else (st == OK <==> exists x :: Has(old(fs.dir), Pad(path), x))
    ensures st == OK ==>
              && Has(old(fs.dir), Pad(path), id) && fs.dir == old(fs.dir) - {id}
              && OnlyCut(fs.P, old(fs.lu), old(fs.pages), fs.lu, fs.pages, id)
              && PagesDropped(old(fs.fds), fs.fds, old(fs.wc), fs.wc, id, 0)
              && forall i :: 0 <= i < |fs.fds| && IdOf(old(fs.fds)[i].objId) == id ==> fs.fds[i].fileNbr == 0
    ensures OthersSeen(old(fs.wc), old(fs.dir), fs.wc, fs.dir, id)
    ensures Unnoticed(old(fs.fds), fs.fds, if slot.Some? then slot.value else |fs.fds|, id)
    ensures slot.Some? ==> fs.fds[slot.value].fileNbr == 0
    ensures old(WriteCache.Good(fs, ps)) ==> WriteCache.Good(fs, ps)
    ensures st != OK ==> fs.dir == old(fs.dir) && fs.lu == old(fs.lu) && fs.pages == old(fs.pages)
    ensures st != OK ==> fs.fds == old(fs.fds) && fs.wc == old(fs.wc)
    ensures InStock(fs) == old(InStock(fs))
  {
    hide Stocked, UniqueNames, AllAllotted, Flatten, Pad, Ready, OnlyCut, PagesDropped, OthersSeen, WriteCache.PagesOk,
      WriteCache.Logical, Referenced;
    id := 0;
    NothingYet(fs, if slot.Some? then slot.value else |fs.fds|);
    if |path| > NAME_LEN - 1 { return ERR_NAME_TOO_LONG, id; }
    if slot.None? { return ERR_OUT_OF_FILE_DESCS, id; }
    var pix;
    st, pix, id := FindByName(fs, Pad(path));
    if st != OK { id := 0; return; }
    NamesLess(fs.dir, id, n, ps);
    st := RemoveFound(fs, slot.value, id, pix, ps);
  }

  /** The part of it after the name has been found. */
  method RemoveFound(fs: Spiffs, f: nat, ghost id: half, pix: half, ghost ps: nat) returns (st: Status)
    requires Ready(fs) && f < |fs.fds| && fs.fds[f].fileNbr == 0 && id in fs.dir && |fs.dir[id].ix| > 0
    requires pix == fs.dir[id].ix[0] && fs.dir[id].lost == {}
    modifies fs
    ensures st == OK && Ready(fs) && fs.dir == old(fs.dir) - {id}
    ensures OnlyCut(fs.P, old(fs.lu), old(fs.pages), fs.lu, fs.pages, id)
    ensures PagesDropped(old(fs.fds), fs.fds, old(fs.wc), fs.wc, id, 0)
    ensures forall i :: 0 <= i < |fs.fds| && IdOf(old(fs.fds)[i].objId) == id ==> fs.fds[i].fileNbr == 0
    ensures OthersSeen(old(fs.wc), old(fs.dir), fs.wc, fs.dir, id) && Unnoticed(old(fs.fds), fs.fds, f, id)
    ensures f < |fs.fds| && fs.fds[f].fileNbr == 0
    ensures old(WriteCache.Good(fs, ps)) ==> WriteCache.Good(fs, ps)
    ensures InStock(fs) == old(InStock(fs))
  {
    hide Flatten, Ready, OnlyCut, PagesDropped, OthersSeen, WriteCache.PagesOk, WriteCache.Logical, Referenced, Points, CacheRefs,
      Stocked;
    ghost var dir, wc, fds := fs.dir, fs.wc, fs.fds;
    ReadyMid(fs);
    PointTo(fs, f, id, pix);
    ghost var fds1 := fs.fds;
    ReadyMid(fs);
    st := RemoveObject(fs, f, IdOf(fs.fds[f].objId));
    RemovedSeen(dir, wc, fds, fds1, fs.fds, fs.wc, f, id);
    RemovedGood(dir, wc, fds, fs.fds, fs.wc, id, ps);
  }

  lemma RemovedSeen(dir: Dir, wc: seq<CPage>, fds: seq<Fd>, fds1: seq<Fd>, fds2: seq<Fd>, wc': seq<CPage>, f: nat, id: half)
    requires f < |fds| && fds[f].fileNbr == 0 && |fds1| == |fds| && fds1[f].fileNbr == 0 && IdOf(fds1[f].objId) == id
    requires fds1 == fds[f := fds1[f]] && fds1[f].cache == fds[f].cache
    requires PagesDropped(fds1, fds2, wc, wc', id, 0) && OthersKeep(fds1, fds2, id) && CacheRefs(fds, wc) && 0 < id < IX_FLAG
    requires forall i :: 0 <= i < |fds1| && IdOf(fds1[i].objId) == id ==> fds2[i].fileNbr == 0
    ensures PagesDropped(fds, fds2, wc, wc', id, 0) && Unnoticed(fds, fds2, f, id) && fds2[f].fileNbr == 0
    ensures OthersSeen(wc, dir, wc', dir - {id}, id)
    ensures forall i :: 0 <= i < |fds2| && IdOf(fds[i].objId) == id ==> fds2[i].fileNbr == 0
    ensures forall i :: 0 <= i < |fds2| && fds[i].fileNbr != 0 && IdOf(fds[i].objId) != id ==> fds2[i].fileNbr != 0
  {
    forall i, w ensures Names(fds1, i, id, w) <==> Names(fds, i, id, w) {}
    DroppedGivenUp(fds, fds2, wc, wc', id, 0);
    SeenWithout(wc, dir, wc', dir - {id}, id);
  }

  lemma RemovedGood(dir: Dir, wc: seq<CPage>, fds: seq<Fd>, fds': seq<Fd>, wc': seq<CPage>, id: half, ps: nat)
    requires PagesDropped(fds, fds', wc, wc', id, 0) && CacheRefs(fds, wc)
    requires forall i :: 0 <= i < |fds| && fds[i].fileNbr != 0 && IdOf(fds[i].objId) != id ==> fds'[i].fileNbr != 0
    ensures WriteCache.PagesOk(wc, dir, ps) && Referenced(fds, wc) ==> WriteCache.PagesOk(wc', dir - {id}, ps) && Referenced(fds', wc')
  {
    hide Flatten, PagesDropped, Referenced, CacheRefs;
    if WriteCache.PagesOk(wc, dir, ps) && Referenced(fds, wc) {
      RefsRemain(fds, fds', wc, wc', id, 0);
      DroppedOnly(fds, fds', wc, wc', id, 0);
      forall w | 0 <= w < |wc| && wc[w].WrPage? && IdOf(wc[w].objId) == id ensures wc'[w].Other? {
        AllDropped(fds, fds', wc, wc', id, 0, w);
      }
    }
  }

  lemma NamesLess(dir: Dir, id: half, n: nat, ps: nat)
    requires UniqueNames(dir) && 0 < ps && AllAllotted(dir, n, ps)
    ensures UniqueNames(dir - {id}) && AllAllotted(dir - {id}, n, ps)
  {
  }

  /** spiffs_object_open_by_page, for a descriptor that is made to point to the object while that is removed or renamed: it is
      closed again afterwards, and its file number is not looked at in between. */
  method PointTo(fs: Spiffs, f: nat, ghost id: half, pix: half)
    requires Ready(fs) && f < |fs.fds| && fs.fds[f].fileNbr == 0 && id in fs.dir && |fs.dir[id].ix| > 0
    requires pix == fs.dir[id].ix[0]
    modifies fs`fds
    ensures Ready(fs) && Points(fs, f, id)
    ensures fs.fds == old(fs.fds)[f := fs.fds[f]] && fs.fds[f].fileNbr == 0 && fs.fds[f].cache == old(fs.fds)[f].cache
    ensures fs.fds[f].score == old(fs.fds)[f].score && fs.fds[f].nameHash == old(fs.fds)[f].nameHash
  {
    ghost var fds := fs.fds;
    OpenedPage(fs.g, fs.P, fs.lu, fs.pages, fs.dir, id);
    fs.fds := fs.fds[f := fs.fds[f].(objId := fs.lu[pix], size := fs.pages[pix].size, hdrPix := pix, curPix := pix, curSpix := 0,
                                               flags := OpenFlags(false, false, false, false, false, false, false))];
    forall i | 0 <= i < |fds| ensures FdPix(fs.fds[i], fs.dir) { assert FdPix(fds[i], fs.dir); }
    forall i | 0 <= i < |fds| && IdOf(fs.fds[i].objId) != 0 ensures FdSize(fs.fds[i], fs.dir) && FdOff(fs.fds[i], fs.dir, fs.wc) {
      if i != f { assert FdSize(fds[i], fs.dir) && FdOff(fds[i], fs.dir, fs.wc); }
    }
  }
}
