/** Reading a file: spiffs_object_read. */
module Read {
  import opened Nor
  import opened Layout
  import opened Chunks
  import opened Image
  import opened Core
  import opened Descriptors
  import opened State
  import opened Alloc
  import opened Objects
  import opened Gc
  import opened Modify

  function Slice(b: seq<byte>, from: nat, n: nat): seq<byte> {
    if from + n <= |b| then b[from..from + n] else []
  }

  /** What page `pix` holds from `at` on is what the file holds there. */
  lemma DataRead(g: Geo, P: set<nat>, lu: seq<half>, pages: seq<Page>, dir: Dir, id: half, s: nat, at: nat, n: nat)
    requires FlashOk(g, P, lu, pages) && Rep(g, P, lu, pages, dir, {}) && id in dir && s < |dir[id].data|
    requires at + n <= |dir[id].chunks[s]| && s !in dir[id].lost
    ensures var p := dir[id].data[s];
            && PageDataCheck(g, pages, id, p, s) == OK && p as nat < |pages| && |pages[p].data| == g.dps && at + n <= g.dps
            && Slice(pages[p].data, at, n) == Slice(Bytes(dir[id]), Start(g.dps, s) + at, n)
  {
    hide FlashOk, Rep, DataOk, Flatten, Full, PageDataCheck, Start;
    var o := dir[id];
    RepGives(g, P, lu, pages, dir, id, s);
    DataCheckOk(g, P, lu, pages, dir, {}, id, s);
    PageHolds(g, P, lu, pages, dir, id, s);
    SliceOfPage(o.chunks[s], Ones(g.dps - |o.chunks[s]|), at, n);
    FlattenSlice(o.chunks, g.dps, s, at, at + n);
  }

  lemma RepGives(g: Geo, P: set<nat>, lu: seq<half>, pages: seq<Page>, dir: Dir, id: half, s: nat)
    requires FlashOk(g, P, lu, pages) && Rep(g, P, lu, pages, dir, {}) && id in dir && s < |dir[id].data|
    ensures g.Valid() && |pages| == g.Pages() && ObjShape(g, dir[id]) && |lu| == |pages|
    ensures DataOk(g, P, lu, pages, id, dir[id], s)
  {
  }

  lemma PageHolds(g: Geo, P: set<nat>, lu: seq<half>, pages: seq<Page>, dir: Dir, id: half, s: nat)
    requires Rep(g, P, lu, pages, dir, {}) && id in dir && s < |dir[id].data| && s !in dir[id].lost
    ensures DataOk(g, P, lu, pages, id, dir[id], s) && ObjShape(g, dir[id])
    ensures dir[id].data[s] as nat < |pages| && |dir[id].chunks[s]| <= g.dps
    ensures pages[dir[id].data[s]].data == dir[id].chunks[s] + Ones(g.dps - |dir[id].chunks[s]|)
  {
  }

  lemma SliceOfPage(c: seq<byte>, rest: seq<byte>, at: nat, n: nat)
    requires at + n <= |c|
    ensures Slice(c + rest, at, n) == c[at..at + n]
  {
  }

  /** A data page is looked up in the index page in the work buffer, checked and read. */
  method ReadPage(fs: Spiffs, id: half, s: nat, at: nat, n: nat) returns (st: Status, dst: seq<byte>)
    requires fs.Ok() && at + n <= fs.g.dps && fs.g.SlotOf(s) < fs.g.Cap() && 0 < id < 0x7FFF
    requires fs.g.IxOf(s) == 0 ==> s == fs.g.SlotOf(s)
    ensures Viewing(fs, id, fs.g.IxOf(s)) && InFile(fs.dir, id, s, at, n) ==>
              st == OK && dst == Slice(Bytes(fs.dir[id]), Start(fs.g.dps, s) + at, n)
  {
    hide FlashOk, FreeSuffix, CursorOk, Rep, Flatten, Start, Viewing, InFile, IxPage;
    dst := [];
    OkShape(fs);
    var pix := fs.work.slots[if fs.g.IxOf(s) == 0 then s else fs.g.SlotOf(s)];
    if Viewing(fs, id, fs.g.IxOf(s)) && InFile(fs.dir, id, s, at, n) { PageRead(fs, id, s, at, n); }
    st := PageDataCheck(fs.g, fs.pages, id, pix, s);
    if st != OK { return; }
    if pix as nat >= |fs.pages| || !PageShape(fs.g, fs.pages[pix]) { return ERR_OUT_OF_FLASH, dst; }
    dst := fs.pages[pix].data[at..at + n];
  }

  lemma PageRead(fs: Spiffs, id: half, s: nat, at: nat, n: nat)
    requires 0 < fs.g.ixLen && Viewing(fs, id, fs.g.IxOf(s)) && InFile(fs.dir, id, s, at, n)
    ensures fs.g.Valid() && |fs.pages| == fs.g.Pages() && fs.g.SlotOf(s) < |fs.work.slots|
    ensures var pix := fs.work.slots[fs.g.SlotOf(s)];
            && PageDataCheck(fs.g, fs.pages, id, pix, s) == OK && pix as nat < |fs.pages| && PageShape(fs.g, fs.pages[pix])
            && at + n <= fs.g.dps
            && fs.pages[pix].data[at..at + n] == Slice(Bytes(fs.dir[id]), Start(fs.g.dps, s) + at, n)
  {
    RepGives(fs.g, fs.P, fs.lu, fs.pages, fs.dir, id, s);
    SlotNames(fs.g, id, fs.dir[id], s);
    DataRead(fs.g, fs.P, fs.lu, fs.pages, fs.dir, id, s, at, n);
  }

  /** Bytes at..at + n of data page s are in the file, and the page is not lost. */
  ghost predicate InFile(dir: Dir, id: half, s: nat, at: nat, n: nat) {
    id in dir && s < |dir[id].data| && s < |dir[id].chunks| && at + n <= |dir[id].chunks[s]| && s !in dir[id].lost
  }

  /** No lost page is among those that hold the bytes from..to. */
  ghost predicate Apart(dps: nat, lost: set<nat>, from: nat, to: nat) {
    forall s :: s in lost ==> Start(dps, s) + dps <= from || to <= Start(dps, s)
  }

  lemma ApartPage(dps: nat, lost: set<nat>, from: nat, to: nat, cur: nat, s: nat, at: nat)
    requires Apart(dps, lost, from, to) && At(dps, cur, s, at) && from <= cur < to
    ensures s !in lost
  {
  }

  /** The start of the next page. */
  lemma NextPage(dps: nat, pos: nat, spix: nat, at: nat, next: nat)
    requires At(dps, pos, spix, at) && next == pos + (dps - at)
    ensures At(dps, next, spix + 1, next % dps)
  {
    StartIsProduct(dps, spix + 1);
    DivModUnique(next, dps, spix + 1, 0);
  }

  lemma SliceNext(b: seq<byte>, from: nat, a: nat, n: nat)
    requires from + a + n <= |b|
    ensures Slice(b, from, a) + Slice(b, from + a, n) == Slice(b, from, a + n)
  {
  }

  /** One turn of the loop: the index page is looked up if it is not the last one, and part of a data
      page read. */
  method ReadStep(fs: Spiffs, f: nat, id: half, first: bool, prev: half, s: half, at: nat, n: nat)
    returns (st: Status, k: half, dst: seq<byte>)
    requires fs.Ok() && f < |fs.fds| && 0 < id < 0x7FFF
    requires 0 < n && at + n <= fs.g.dps
    modifies fs`work, fs`curBlk, fs`curEnt, fs`fds
    ensures fs.Ok() && OnlyCursor(old(fs.fds), fs.fds, f)
    ensures old(ReadingOn(fs, f, id, first, prev)) && Start(fs.g.dps, s) + at + n <= |Bytes(fs.dir[id])| ==>
              && ReadingOn(fs, f, id, false, k) && k as nat == fs.g.IxOf(s)
              && (s as nat !in fs.dir[id].lost ==> st == OK && dst == Slice(Bytes(fs.dir[id]), Start(fs.g.dps, s) + at, n))
  {
    hide Rep, Inv, NoneDoomed, IxPage, Flatten, Start, FdPix, FdSize;
    ReadShape(fs, s);
    CursorRefl(fs.fds, f);
    if old(ReadingOn(fs, f, id, first, prev)) && Start(fs.g.dps, s) + at + n <= |Bytes(fs.dir[id])| {
      SoundShape(fs, f, id);
      ChunkHolds(fs.g, fs.dir[id], s, at, n);
      ShapeCount(fs.g, fs.dir[id]);
    }
    st, dst := OK, [];
    k := fs.g.IxOf(s);
    if first || k != prev {
      var pix;
      st, pix := FetchIndex(fs, f, id, k);
      if st != OK { return; }
    }
    st, dst := ReadPage(fs, id, s, at, n);
  }

  /** The descriptor is sound and, after the first turn, index page k is in the work buffer. */
  ghost predicate ReadingOn(fs: Spiffs, f: nat, id: half, first: bool, k: half)
    reads fs
  {
    Sound(fs, f, id) && (!first ==> Viewing(fs, id, k as nat))
  }

  lemma SoundShape(fs: Spiffs, f: nat, id: half)
    requires Sound(fs, f, id)
    ensures fs.g.Valid() && id in fs.dir && ObjShape(fs.g, fs.dir[id])
  {
  }

  lemma ShapeCount(g: Geo, o: Obj)
    requires ObjShape(g, o)
    ensures |o.data| == |o.chunks|
  {
  }

  lemma ReadShape(fs: Spiffs, s: half)
    requires fs.Ok()
    ensures fs.g.Valid() && fs.g.IxOf(s) <= 0xFFFF && fs.g.SlotOf(s) < fs.g.Cap() && (fs.g.IxOf(s) == 0 ==> s == fs.g.SlotOf(s))
  {
    OkShape(fs);
    SlotShape(fs.g, s);
  }

  lemma SlotShape(g: Geo, s: half)
    requires g.Valid()
    ensures g.IxOf(s) <= 0xFFFF && g.SlotOf(s) < g.Cap() && (g.IxOf(s) == 0 ==> s == g.SlotOf(s))
  {
    SlotLaw(g, s);
  }

  /** A place within a file is on a page whose number fits. */
  lemma SpanFits(g: Geo, o: Obj, pos: nat)
    requires g.Valid() && ObjShape(g, o) && pos < |Bytes(o)|
    ensures pos / g.dps < 0xFFFF
  {
    AtStart(g.dps, pos);
    ChunkHolds(g, o, pos / g.dps, pos % g.dps, 1);
  }

  /** The index page that names the data page a place is on. */
  function IxAt(g: Geo, pos: nat): nat { if 0 < g.dps && 0 < g.ixLen then g.IxOf(pos / g.dps) else 0 }

  lemma SamePage(dps: nat, cur: nat, n: nat, spix: nat)
    requires 0 < dps && At(dps, cur, spix, cur % dps) && 0 < n <= dps - cur % dps
    ensures (cur + n - 1) / dps == spix
  {
    StartIsProduct(dps, spix);
    DivModUnique(cur + n - 1, dps, spix, cur % dps + n - 1);
  }

  /** What a read that is sound so far knows before its next turn, at place `cur` of a read that began at `offset`. */
  ghost predicate ReadSoFar(fs: Spiffs, f: nat, id: half, offset: nat, cur: nat, end: nat, k: half, spix: half)
    reads fs
  {
    && ReadingOn(fs, f, id, cur == offset, k) && end <= |Bytes(fs.dir[id])| && fs.g.Valid()
    && (cur > offset ==> k as nat == IxAt(fs.g, cur - 1))
    && (cur < end ==> At(fs.g.dps, cur, spix, cur % fs.g.dps))
  }

  lemma SoFarIn(fs: Spiffs, f: nat, id: half, offset: nat, cur: nat, end: nat, k: half, spix: half)
    requires ReadSoFar(fs, f, id, offset, cur, end, k, spix) && offset <= cur < end
    ensures id in fs.dir && At(fs.g.dps, cur, spix, cur % fs.g.dps)
  {
  }

  /** One turn of the loop, on the piece that is due. */
  method ReadTurn(fs: Spiffs, f: nat, id: half, ghost offset: nat, first: bool, cur: nat, end: nat, prev: half, spix: half)
    returns (st: Status, k: half, dst: seq<byte>, n: nat)
    requires fs.Ok() && f < |fs.fds| && 0 < id < 0x7FFF && cur < end <= fs.fds[f].size && offset <= cur && first == (cur == offset)
    modifies fs`work, fs`curBlk, fs`curEnt, fs`fds
    ensures fs.Ok() && OnlyCursor(old(fs.fds), fs.fds, f) && 0 < n <= end - cur
    ensures old(ReadSoFar(fs, f, id, offset, cur, end, prev, spix)) ==>
              && ReadSoFar(fs, f, id, offset, cur + n, end, k, (spix + 1) % 0x1_0000) && id in fs.dir
              && (Apart(fs.g.dps, fs.dir[id].lost, offset, end) ==> st == OK && dst == Slice(Bytes(fs.dir[id]), cur, n))
  {
    hide Rep, Sound, Inv, NoneDoomed, IxPage, Flatten, Start, Viewing, Slice;
    ghost var sound := ReadSoFar(fs, f, id, offset, cur, end, prev, spix);
    if sound { SoFarIn(fs, f, id, offset, cur, end, prev, spix); }
    OkShape(fs);
    var rest := if end - cur < fs.fds[f].size - cur then end - cur else fs.fds[f].size - cur;
    n := if rest < fs.g.dps - cur % fs.g.dps then rest else fs.g.dps - cur % fs.g.dps;
    st, k, dst := ReadStep(fs, f, id, first, prev, spix, cur % fs.g.dps, n);
    if sound {
      if Apart(fs.g.dps, fs.dir[id].lost, offset, end) { ApartPage(fs.g.dps, fs.dir[id].lost, offset, end, cur, spix, cur % fs.g.dps); }
      SamePage(fs.g.dps, cur, n, spix);
      if cur + n < end {
        NextPage(fs.g.dps, cur, spix, cur % fs.g.dps, cur + n);
        NextFits(fs, f, id, k, cur + n, spix);
      }
    }
  }

  /** spiffs_object_read, of no more than the descriptor takes the file to hold.  Within a sound file, clear of pages that are
      lost, it succeeds and reads exactly its bytes.  In any other case it gives an error or what else it finds, and in no
      case does it change more than the cursor of the descriptor, which stays right on a sound file. */
  method ObjectRead(fs: Spiffs, f: nat, id: half, offset: nat, len: nat) returns (st: Status, dst: seq<byte>)
    requires fs.Ok() && f < |fs.fds| && 0 < id < 0x7FFF && offset + len <= fs.fds[f].size
    modifies fs`work, fs`curBlk, fs`curEnt, fs`fds
    ensures fs.Ok() && OnlyCursor(old(fs.fds), fs.fds, f)
    ensures old(Sound(fs, f, id)) && offset + len <= |Bytes(fs.dir[id])| ==> Sound(fs, f, id)
    ensures old(Sound(fs, f, id)) && offset + len <= |Bytes(fs.dir[id])| && Apart(fs.g.dps, fs.dir[id].lost, offset, offset + len) ==>
              && st == OK && dst == Bytes(fs.dir[id])[offset..offset + len]
              && (len > 0 ==> Viewing(fs, id, IxAt(fs.g, offset + len - 1)))
    ensures len == 0 ==> st == OK && dst == [] && fs.fds == old(fs.fds) && (old(Sound(fs, f, id)) ==> Sound(fs, f, id))
  {
    hide Rep, Inv, NoneDoomed, IxPage, Flatten, Start, Viewing, ReadSoFar, IxAt, Apart, OpenOn, FdPix, FdSize, PageShape;
    ghost var sound := Sound(fs, f, id) && offset + len <= |Bytes(fs.dir[id])|;
    ghost var clear := sound && Apart(fs.g.dps, fs.dir[id].lost, offset, offset + len);
    ghost var bytes := if sound then Bytes(fs.dir[id]) else [];
    OkShape(fs);
    CursorRefl(fs.fds, f);
    if sound { ReadStarts(fs, f, id, offset, len); }
    var cur: nat, spix: half, k: half := offset, (offset / fs.g.dps) % 0x1_0000, 0;
    dst, st := [], OK;
    while cur < offset + len
      invariant offset <= cur <= offset + len && st == OK && fs.Ok() && OnlyCursor(old(fs.fds), fs.fds, f)
      invariant cur == offset ==> fs.fds == old(fs.fds) && dst == [] && Sound(fs, f, id) == old(Sound(fs, f, id))
      invariant sound ==> ReadSoFar(fs, f, id, offset, cur, offset + len, k, spix)
      invariant clear ==> dst == Slice(bytes, offset, cur - offset)
    {
      var part, n;
      ghost var fds := fs.fds;
      st, k, part, n := ReadTurn(fs, f, id, offset, cur == offset, cur, offset + len, k, spix);
      CursorThen(old(fs.fds), fds, fs.fds, f);
      if sound { SliceNext(bytes, offset, cur - offset, n); }
      if st != OK {
        if sound { ReadEnds(fs, f, id, offset, cur + n, offset + len, k, (spix + 1) % 0x1_0000); }
        return;
      }
      dst := dst + part;
      cur := cur + n;
      spix := (spix + 1) % 0x1_0000;
    }
    if sound {
      ReadEnds(fs, f, id, offset, cur, offset + len, k, spix);
      SliceAll(bytes, offset, len);
    }
  }

  lemma SliceAll(b: seq<byte>, from: nat, n: nat)
    requires from + n <= |b|
    ensures Slice(b, from, n) == b[from..from + n]
  {
  }

  lemma OkShape(fs: Spiffs)
    requires fs.Ok()
    ensures fs.g.Valid() && |fs.pages| == fs.g.Pages() && PageShape(fs.g, fs.work)
  {
  }

  lemma ReadStarts(fs: Spiffs, f: nat, id: half, offset: nat, len: nat)
    requires Sound(fs, f, id) && offset + len <= |Bytes(fs.dir[id])| && 0 < fs.g.dps
    ensures ReadSoFar(fs, f, id, offset, offset, offset + len, 0, (offset / fs.g.dps) % 0x1_0000)
  {
    hide Flatten, Sound, ObjShape, Viewing, Apart, Start;
    SoundShape(fs, f, id);
    if len > 0 {
      AtStart(fs.g.dps, offset);
      SpanFits(fs.g, fs.dir[id], offset);
    }
  }

  lemma NextFits(fs: Spiffs, f: nat, id: half, k: half, pos: nat, spix: half)
    requires ReadingOn(fs, f, id, false, k) && pos < |Bytes(fs.dir[id])|
    requires 0 < fs.g.dps && At(fs.g.dps, pos, spix as nat + 1, pos % fs.g.dps)
    ensures spix < 0xFFFF
  {
    SpanFits(fs.g, fs.dir[id], pos);
    StartIsProduct(fs.g.dps, spix as nat + 1);
    DivModUnique(pos, fs.g.dps, spix as nat + 1, pos % fs.g.dps);
  }

  lemma ReadEnds(fs: Spiffs, f: nat, id: half, offset: nat, cur: nat, end: nat, k: half, spix: half)
    requires ReadSoFar(fs, f, id, offset, cur, end, k, spix)
    ensures Sound(fs, f, id) && (cur > offset ==> Viewing(fs, id, IxAt(fs.g, cur - 1)))
  {
  }
}
