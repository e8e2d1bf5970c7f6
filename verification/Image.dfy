/** What is on the flash, and what it means.

    The flash is two arrays indexed by page number: `lu`, the lookup entry of each page, and
    `pages`, the page itself.  A directory `dir` says which objects exist, where their index and
    data pages are, and what they hold.  Rep ties the two together; the step lemmas say how every
    flash update of the file system moves from one directory to the next. */
module Image {
  import opened Nor
  import opened Layout
  import opened Chunks

  /** Header flags; a bit that is false has been pulled to zero.
      used: written to; final: writing is finalized; index: an index page;
      delet: deleted; ixdele: the index header is being deleted. */
  datatype Flags = Flags(used: bool, final: bool, index: bool, delet: bool, ixdele: bool)

  const ERASED_FLAGS := Flags(true, true, true, true, true)
  const DATA_FLAGS := Flags(false, false, true, true, true)
  const INDEX_FLAGS := Flags(false, false, false, true, true)
  const DOOMED_FLAGS := Flags(false, false, false, true, false)

  const NAME_LEN: nat := 32

  /** A page: the common header, then the fields of an index page and the content of a data page.
      Fields a page does not use stay erased. */
  datatype Page = Page(id: half, span: half, flags: Flags, size: word, name: seq<byte>, slots: seq<half>,
                       data: seq<byte>)

  function Ones(n: nat): (r: seq<byte>)
    ensures |r| == n && forall i :: 0 <= i < n ==> r[i] == 0xFF
  {
    seq(n, i => 0xFF)
  }

  function FreeSlots(n: nat): (r: seq<half>)
    ensures |r| == n && forall i :: 0 <= i < n ==> r[i] == FREE_PIX
  {
    seq(n, i => 0xFFFF)
  }

  /** An erased page. */
  function Blank(g: Geo): Page {
    Page(0xFFFF, 0xFFFF, ERASED_FLAGS, 0xFFFF_FFFF, Ones(NAME_LEN), FreeSlots(g.Cap()), Ones(g.dps))
  }

  predicate PageShape(g: Geo, p: Page) {
    |p.name| == NAME_LEN && |p.slots| == g.Cap() && |p.data| == g.dps
  }

  function NorFlags(a: Flags, b: Flags): Flags {
    Flags(a.used && b.used, a.final && b.final, a.index && b.index, a.delet && b.delet, a.ixdele && b.ixdele)
  }

  /** What a page holds after `b` has been written over `a`. */
  function NorPage(g: Geo, a: Page, b: Page): (r: Page)
    requires PageShape(g, a) && PageShape(g, b)
    ensures PageShape(g, r)
  {
    Page(AndHalf(a.id, b.id), AndHalf(a.span, b.span), NorFlags(a.flags, b.flags), AndWord(a.size, b.size),
         AndBytes(a.name, b.name), AndHalves(a.slots, b.slots), AndBytes(a.data, b.data))
  }

  /** `b` can be written over `a` as it is: it pulls bits to zero, or leaves them. */
  ghost predicate Overlay(g: Geo, a: Page, b: Page) {
    && PageShape(g, a) && PageShape(g, b)
    && (a.id == b.id || a.id == 0xFFFF)
    && (a.span == b.span || a.span == 0xFFFF)
    && NorFlags(a.flags, b.flags) == b.flags
    && (a.size == b.size || a.size == 0xFFFF_FFFF)
    && BytesOverlay(a.name, b.name) && HalvesOverlay(a.slots, b.slots) && BytesOverlay(a.data, b.data)
  }

  lemma NorPageOverlay(g: Geo, a: Page, b: Page)
    requires Overlay(g, a, b)
    ensures NorPage(g, a, b) == b
  {
    HalfOverlay(a.id, b.id);
    HalfOverlay(a.span, b.span);
    WordOverlay(a.size, b.size);
    AndBytesOverlay(a.name, b.name);
    AndHalvesOverlay(a.slots, b.slots);
    AndBytesOverlay(a.data, b.data);
  }

  // ---------------------------------------------------------------- lookup entries

  predicate Live(e: nat) { e != FREE_ID && e != DELETED_ID }

  predicate IsIx(e: nat) { e >= IX_FLAG }

  // ---------------------------------------------------------------- objects

  /** An object: its name, its index pages, its data pages and what these hold.
      `doomed` is set while the object is being removed.  `lost` are the data pages that are on the flash no more: an
      overwrite that got no new page for them has deleted the old one.  `chunks` still says what they should hold, and
      `data` what the index names in their place, which is some other page. */
  datatype Obj = Obj(name: seq<byte>, ix: seq<half>, data: seq<half>, chunks: seq<seq<byte>>, doomed: bool,
                     lost: set<nat> := {})

  type Dir = map<half, Obj>

  function Bytes(o: Obj): seq<byte> { Flatten(o.chunks) }

  /** What the size field of an index header holds for n bytes. */
  function SizeField(n: nat): (r: word)
    requires n < UNDEFINED_LEN
  {
    if n == 0 then UNDEFINED_LEN else n
  }

  /** Slot j of index page k: the data page it names, if the file reaches that far. */
  function SlotAt(g: Geo, data: seq<half>, k: nat, j: nat): half {
    if j < g.Slots(k) && g.First(k) + j < |data| then data[g.First(k) + j] else FREE_PIX
  }

  function SlotsFor(g: Geo, data: seq<half>, k: nat): (r: seq<half>)
    ensures |r| == g.Cap()
    ensures forall j :: 0 <= j < g.Cap() ==> r[j] == SlotAt(g, data, k, j)
  {
    seq(g.Cap(), j requires 0 <= j < g.Cap() => SlotAt(g, data, k, j))
  }

  function IxFlags(o: Obj, k: nat): Flags {
    if k == 0 && o.doomed then DOOMED_FLAGS else INDEX_FLAGS
  }

  ghost predicate ObjShape(g: Geo, o: Obj) {
    && |o.name| == NAME_LEN
    && |o.data| == |o.chunks|
    && 0 < |o.ix| < 0xFFFF && |o.data| < 0xFFFF
    && |o.data| <= g.First(|o.ix|)
    && Full(o.chunks, g.dps)
    && |Bytes(o)| < 0x8000_0000
    && (forall s :: s in o.lost ==> s < |o.data| && s < g.Pages() && |o.chunks[s]| == g.dps)
  }

  /** Index page k of object `id`, as it must be on flash. */
  function IxPage(g: Geo, id: half, o: Obj, k: nat): (r: Page)
    requires id < IX_FLAG && k < 0xFFFF && |o.name| == NAME_LEN && |Bytes(o)| < UNDEFINED_LEN
    ensures PageShape(g, r)
  {
    Page(id + IX_FLAG, k, IxFlags(o, k), if k == 0 then SizeField(|Bytes(o)|) else UNDEFINED_LEN,
         if k == 0 then o.name else Ones(NAME_LEN), SlotsFor(g, o.data, k), Ones(g.dps))
  }

  /** Data page s of object `id` holding `c`; the rest of the page is erased. */
  function DataPage(g: Geo, id: half, s: nat, c: seq<byte>): (r: Page)
    requires s < 0xFFFF && |c| <= g.dps
    ensures PageShape(g, r)
  {
    Page(id, s, DATA_FLAGS, UNDEFINED_LEN, Ones(NAME_LEN), FreeSlots(g.Cap()), c + Ones(g.dps - |c|))
  }

  // ---------------------------------------------------------------- representation

  ghost predicate IxOk(g: Geo, P: set<nat>, lu: seq<half>, pages: seq<Page>, dirty: set<nat>, id: half, o: Obj, k: nat)
    requires ObjShape(g, o) && id < IX_FLAG && k < |o.ix| && |lu| == |pages|
  {
    var p := o.ix[k];
    && p in P && p < |lu|
    && lu[p] == id + IX_FLAG
    && pages[p].id == id + IX_FLAG && pages[p].span == k && pages[p].flags == IxFlags(o, k)
    && (p !in dirty ==> pages[p] == IxPage(g, id, o, k))
  }

  ghost predicate DataOk(g: Geo, P: set<nat>, lu: seq<half>, pages: seq<Page>, id: half, o: Obj, s: nat)
    requires ObjShape(g, o) && s < |o.data| && |lu| == |pages|
  {
    var p := o.data[s];
    s !in o.lost ==>
      && p in P && p < |lu|
      && lu[p] == id
      && |o.chunks[s]| <= g.dps && pages[p] == DataPage(g, id, s, o.chunks[s])
  }

  /** A live lookup entry belongs to an object, in the place its page header names. */
  ghost predicate Owned(e: half, span: nat, p: nat, dir: Dir) {
    if IsIx(e) then
      e - IX_FLAG in dir && span < |dir[e - IX_FLAG].ix| && dir[e - IX_FLAG].ix[span] == p
    else
      e in dir && span < |dir[e].data| && dir[e].data[span] == p && span !in dir[e].lost
  }

  ghost predicate DirOk(g: Geo, dir: Dir) {
    forall id :: id in dir ==> 0 < id < 0x7FFF && ObjShape(g, dir[id])
  }

  /** The flash represents the directory.  The content of the index pages in `dirty` is out of date:
      the operation in progress holds it in its work buffer. */
  ghost predicate Rep(g: Geo, P: set<nat>, lu: seq<half>, pages: seq<Page>, dir: Dir, dirty: set<nat>) {
    && |lu| == |pages|
    && (forall p :: p in P ==> p < |lu|)
    && DirOk(g, dir)
    && (forall id, k :: id in dir && 0 <= k < |dir[id].ix| ==> IxOk(g, P, lu, pages, dirty, id, dir[id], k))
    && (forall id, s :: id in dir && 0 <= s < |dir[id].data| ==> DataOk(g, P, lu, pages, id, dir[id], s))
    && (forall p :: p in P && Live(lu[p]) ==> Owned(lu[p], pages[p].span, p, dir))
  }

  /** Nothing but the pages in `ps` differs. */
  ghost predicate SameExcept(P: set<nat>, lu: seq<half>, pages: seq<Page>, lu': seq<half>, pages': seq<Page>, ps: set<nat>) {
    && |lu'| == |lu| == |pages'| == |pages|
    && forall p :: p in P && p !in ps && p < |lu| ==> lu'[p] == lu[p] && pages'[p] == pages[p]
  }

  predicate OfObj(e: half, id: half) { id < IX_FLAG && (e == id || e == id + IX_FLAG) }

  /** The obligations an update of one object leaves when it touches no page of another. */
  lemma StepFrame(g: Geo, P: set<nat>, lu: seq<half>, pages: seq<Page>, dir: Dir, dirty: set<nat>,
                  lu': seq<half>, pages': seq<Page>, dirty': set<nat>, ps: set<nat>, id: half, o': Obj)
    requires Rep(g, P, lu, pages, dir, dirty)
    requires SameExcept(P, lu, pages, lu', pages', ps)
    requires 0 < id < 0x7FFF && ObjShape(g, o')
    requires forall p :: p in ps && p in P ==> !Live(lu[p]) || OfObj(lu[p], id)
    requires forall p :: p in dirty && p !in dirty' && p in P ==> OfObj(lu[p], id)
    requires forall k :: 0 <= k < |o'.ix| ==> IxOk(g, P, lu', pages', dirty', id, o', k)
    requires forall s :: 0 <= s < |o'.data| ==> DataOk(g, P, lu', pages', id, o', s)
    requires forall p :: p in P && Live(lu'[p]) && (p in ps || OfObj(lu[p], id)) ==>
                           Owned(lu'[p], pages'[p].span, p, dir[id := o'])
    ensures Rep(g, P, lu', pages', dir[id := o'], dirty')
  {
    var dir' := dir[id := o'];
    forall id', k | id' in dir' && 0 <= k < |dir'[id'].ix|
      ensures IxOk(g, P, lu', pages', dirty', id', dir'[id'], k)
    {
      if id' != id { assert IxOk(g, P, lu, pages, dirty, id', dir[id'], k); }
    }
    forall id', s | id' in dir' && 0 <= s < |dir'[id'].data|
      ensures DataOk(g, P, lu', pages', id', dir'[id'], s)
    {
      if id' != id { assert DataOk(g, P, lu, pages, id', dir[id'], s); }
    }
    forall p | p in P && Live(lu'[p]) ensures Owned(lu'[p], pages'[p].span, p, dir') {
      if !(p in ps || OfObj(lu[p], id)) { assert Owned(lu[p], pages[p].span, p, dir); }
    }
  }

  /** Replacing page s of a file by a page of the same length leaves every other index page as it is. */
  lemma SlotsForUpdate(g: Geo, data: seq<half>, s: nat, q: half, k: nat)
    requires g.Valid() && s < |data|
    ensures k != g.IxOf(s) ==> SlotsFor(g, data[s := q], k) == SlotsFor(g, data, k)
    ensures k == g.IxOf(s) ==> SlotsFor(g, data[s := q], k) == SlotsFor(g, data, k)[g.SlotOf(s) := q]
  {
    SlotLaw(g, s);
    forall j | 0 <= j < g.Cap()
      ensures SlotAt(g, data[s := q], k, j) ==
              if k == g.IxOf(s) && j == g.SlotOf(s) then q else SlotAt(g, data, k, j)
    {
      if j < g.Slots(k) && g.First(k) + j == s { SlotUnique(g, s, k, j); }
    }
  }

  /** A data page is replaced by page q holding `c`, of the same length. */
  lemma PutDataStep(g: Geo, P: set<nat>, lu: seq<half>, pages: seq<Page>, dir: Dir, dirty: set<nat>,
                    lu': seq<half>, pages': seq<Page>, id: half, s: nat, q: half, c: seq<byte>)
    requires g.Valid() && Rep(g, P, lu, pages, dir, dirty)
    requires id in dir && s < |dir[id].data| && |c| == |dir[id].chunks[s]|
    requires g.IxOf(s) < |dir[id].ix| && dir[id].ix[g.IxOf(s)] as nat in dirty
    requires q as nat in P && lu[q] == FREE_ID
    requires DataOk(g, P, lu, pages, id, dir[id], s) && s !in dir[id].lost
    requires var p := dir[id].data[s];
             && SameExcept(P, lu, pages, lu', pages', {p as nat, q as nat})
             && lu'[p] == DELETED_ID && lu'[q] == id && pages'[q] == DataPage(g, id, s, c)
    ensures var o := dir[id];
            Rep(g, P, lu', pages', dir[id := o.(data := o.data[s := q], chunks := o.chunks[s := c])], dirty)
  {
    hide Flatten, Full, SlotsFor;
    var o := dir[id];
    var p := o.data[s];
    var o' := o.(data := o.data[s := q], chunks := o.chunks[s := c]);
    FlattenSame(o.chunks, g.dps, s, c);
    forall k | 0 <= k < |o'.ix| ensures IxOk(g, P, lu', pages', dirty, id, o', k) {
      assert IxOk(g, P, lu, pages, dirty, id, o, k);
      SlotsForUpdate(g, o.data, s, q, k);
    }
    forall t | 0 <= t < |o'.data| ensures DataOk(g, P, lu', pages', id, o', t) {
      assert DataOk(g, P, lu, pages, id, o, t);
    }
    forall p0 | p0 in P && Live(lu'[p0]) && (p0 in {p as nat, q as nat} || OfObj(lu[p0], id))
      ensures Owned(lu'[p0], pages'[p0].span, p0, dir[id := o'])
    {
      if p0 != q as nat { assert Owned(lu[p0], pages[p0].span, p0, dir); }
    }
    StepFrame(g, P, lu, pages, dir, dirty, lu', pages', dirty, {p as nat, q as nat}, id, o');
  }

  /** The object when its data page s is deleted and nothing put in its place: the slot is set to `q`, and `c` is what
      the page should hold. */
  function Losing(o: Obj, s: nat, q: half, c: seq<byte>): Obj
    requires s < |o.data| == |o.chunks|
  {
    o.(data := o.data[s := q], chunks := o.chunks[s := c], lost := o.lost + {s})
  }

  /** A full data page is deleted, and the slot that named it set to some other page. */
  lemma LoseDataStep(g: Geo, P: set<nat>, lu: seq<half>, pages: seq<Page>, dir: Dir, dirty: set<nat>,
                     lu': seq<half>, pages': seq<Page>, id: half, s: nat, q: half, c: seq<byte>)
    requires g.Valid() && Rep(g, P, lu, pages, dir, dirty)
    requires id in dir && s < |dir[id].data| && s < g.Pages() && |c| == |dir[id].chunks[s]| == g.dps
    requires g.IxOf(s) < |dir[id].ix| && dir[id].ix[g.IxOf(s)] as nat in dirty
    requires DataOk(g, P, lu, pages, id, dir[id], s) && s !in dir[id].lost
    requires var p := dir[id].data[s];
             SameExcept(P, lu, pages, lu', pages', {p as nat}) && lu'[p] == DELETED_ID
    ensures Rep(g, P, lu', pages', dir[id := Losing(dir[id], s, q, c)], dirty)
  {
    hide Flatten, Full, SlotsFor;
    var o := dir[id];
    var p, o' := o.data[s], Losing(o, s, q, c);
    FlattenSame(o.chunks, g.dps, s, c);
    forall k | 0 <= k < |o'.ix| ensures IxOk(g, P, lu', pages', dirty, id, o', k) {
      assert IxOk(g, P, lu, pages, dirty, id, o, k);
      SlotsForUpdate(g, o.data, s, q, k);
    }
    forall t | 0 <= t < |o'.data| ensures DataOk(g, P, lu', pages', id, o', t) {
      assert DataOk(g, P, lu, pages, id, o, t);
    }
    forall p0 | p0 in P && Live(lu'[p0]) && (p0 in {p as nat} || OfObj(lu[p0], id))
      ensures Owned(lu'[p0], pages'[p0].span, p0, dir[id := o'])
    {
      assert Owned(lu[p0], pages[p0].span, p0, dir);
    }
    StepFrame(g, P, lu, pages, dir, dirty, lu', pages', dirty, {p as nat}, id, o');
  }

  /** No file has lost a page. */
  ghost predicate Unharmed(dir: Dir) { forall id :: id in dir ==> dir[id].lost == {} }

  /** No page on the flash claims to be a lost data page. */
  lemma LostIsGone(g: Geo, P: set<nat>, lu: seq<half>, pages: seq<Page>, dir: Dir, dirty: set<nat>, id: half, s: nat, p: nat)
    requires Rep(g, P, lu, pages, dir, dirty) && id in dir && s in dir[id].lost && p in P && lu[p] == id
    ensures pages[p].span != s
  {
    assert Owned(lu[p], pages[p].span, p, dir);
  }

  /** Index page k moves to page q, its content brought up to date. */
  lemma MoveIxStep(g: Geo, P: set<nat>, lu: seq<half>, pages: seq<Page>, dir: Dir, dirty: set<nat>,
                   lu': seq<half>, pages': seq<Page>, id: half, k: nat, q: half)
    requires Rep(g, P, lu, pages, dir, dirty)
    requires id in dir && k < |dir[id].ix|
    requires IxOk(g, P, lu, pages, dirty, id, dir[id], k)
    requires q as nat in P && lu[q] == FREE_ID
    requires var p := dir[id].ix[k];
             && SameExcept(P, lu, pages, lu', pages', {p as nat, q as nat})
             && lu'[p] == DELETED_ID && lu'[q] == id + IX_FLAG && pages'[q] == IxPage(g, id, dir[id], k)
    ensures var o := dir[id];
            Rep(g, P, lu', pages', dir[id := o.(ix := o.ix[k := q])], dirty - {o.ix[k] as nat})
  {
    var o := dir[id];
    var p := o.ix[k];
    var o', ps, dirty' := o.(ix := o.ix[k := q]), {p as nat, q as nat}, dirty - {p as nat};
    forall k' | 0 <= k' < |o'.ix| ensures IxOk(g, P, lu', pages', dirty', id, o', k') {
      assert IxOk(g, P, lu, pages, dirty, id, o, k');
    }
    forall t | 0 <= t < |o'.data| ensures DataOk(g, P, lu', pages', id, o', t) {
      assert DataOk(g, P, lu, pages, id, o, t);
    }
    forall p0 | p0 in P && Live(lu'[p0]) && (p0 in ps || OfObj(lu[p0], id))
      ensures Owned(lu'[p0], pages'[p0].span, p0, dir[id := o'])
    {
      if p0 != q as nat { assert Owned(lu[p0], pages[p0].span, p0, dir); }
    }
    StepFrame(g, P, lu, pages, dir, dirty, lu', pages', dirty', ps, id, o');
  }

  /** Index page k is brought up to date in place. */
  lemma CleanIxStep(g: Geo, P: set<nat>, lu: seq<half>, pages: seq<Page>, dir: Dir, dirty: set<nat>,
                    pages': seq<Page>, id: half, k: nat)
    requires Rep(g, P, lu, pages, dir, dirty)
    requires id in dir && k < |dir[id].ix|
    requires IxOk(g, P, lu, pages, dirty, id, dir[id], k)
    requires var p := dir[id].ix[k];
             SameExcept(P, lu, pages, lu, pages', {p as nat}) && pages'[p] == IxPage(g, id, dir[id], k)
    ensures Rep(g, P, lu, pages', dir, dirty - {dir[id].ix[k] as nat})
  {
    var o := dir[id];
    var p := o.ix[k];
    var ps, dirty' := {p as nat}, dirty - {p as nat};
    forall k' | 0 <= k' < |o.ix| ensures IxOk(g, P, lu, pages', dirty', id, o, k') {
      assert IxOk(g, P, lu, pages, dirty, id, o, k');
    }
    forall t | 0 <= t < |o.data| ensures DataOk(g, P, lu, pages', id, o, t) {
      assert DataOk(g, P, lu, pages, id, o, t);
    }
    forall p0 | p0 in P && Live(lu[p0]) && (p0 in ps || OfObj(lu[p0], id))
      ensures Owned(lu[p0], pages'[p0].span, p0, dir[id := o])
    {
      assert Owned(lu[p0], pages[p0].span, p0, dir);
    }
    StepFrame(g, P, lu, pages, dir, dirty, lu, pages', dirty', ps, id, o);
    assert dir[id := o] == dir;
  }

  /** A new, empty index page is added behind the last. */
  lemma NewIxStep(g: Geo, P: set<nat>, lu: seq<half>, pages: seq<Page>, dir: Dir, dirty: set<nat>,
                  lu': seq<half>, pages': seq<Page>, id: half, q: half)
    requires Rep(g, P, lu, pages, dir, dirty)
    requires id in dir && |dir[id].ix| < 0xFFFE
    requires q as nat in P && lu[q] == FREE_ID && q as nat !in dirty
    requires SameExcept(P, lu, pages, lu', pages', {q as nat})
    requires lu'[q] == id + IX_FLAG && pages'[q] == IxPage(g, id, dir[id], |dir[id].ix|)
    ensures var o := dir[id];
            Rep(g, P, lu', pages', dir[id := o.(ix := o.ix + [q])], dirty)
  {
    var o := dir[id];
    var o', ps := o.(ix := o.ix + [q]), {q as nat};
    forall k' | 0 <= k' < |o'.ix| ensures IxOk(g, P, lu', pages', dirty, id, o', k') {
      if k' < |o.ix| { assert IxOk(g, P, lu, pages, dirty, id, o, k'); }
    }
    forall t | 0 <= t < |o'.data| ensures DataOk(g, P, lu', pages', id, o', t) {
      assert DataOk(g, P, lu, pages, id, o, t);
    }
    forall p0 | p0 in P && Live(lu'[p0]) && (p0 in ps || OfObj(lu[p0], id))
      ensures Owned(lu'[p0], pages'[p0].span, p0, dir[id := o'])
    {
      if p0 != q as nat { assert Owned(lu[p0], pages[p0].span, p0, dir); }
    }
    StepFrame(g, P, lu, pages, dir, dirty, lu', pages', dirty, ps, id, o');
  }

  lemma SlotsForAppend(g: Geo, data: seq<half>, q: half, k: nat)
    requires g.Valid()
    ensures k != g.IxOf(|data|) ==> SlotsFor(g, data + [q], k) == SlotsFor(g, data, k)
    ensures k == g.IxOf(|data|) ==> SlotsFor(g, data + [q], k) == SlotsFor(g, data, k)[g.SlotOf(|data|) := q]
  {
    var s := |data|;
    SlotLaw(g, s);
    forall j | 0 <= j < g.Cap()
      ensures SlotAt(g, data + [q], k, j) ==
              if k == g.IxOf(s) && j == g.SlotOf(s) then q else SlotAt(g, data, k, j)
    {
      if j < g.Slots(k) && g.First(k) + j == s { SlotUnique(g, s, k, j); }
    }
  }

  lemma AppendShape(g: Geo, o: Obj, q: half, c: seq<byte>)
    requires g.Valid() && ObjShape(g, o) && |o.data| < 0xFFFE && g.IxOf(|o.data|) < |o.ix|
    requires |o.data| > 0 ==> |o.chunks[|o.data| - 1]| == g.dps
    requires 0 < |c| <= g.dps && |Bytes(o)| + |c| < 0x8000_0000
    ensures ObjShape(g, o.(data := o.data + [q], chunks := o.chunks + [c]))
  {
    FlattenAppend(o.chunks, g.dps, c);
    SlotLaw(g, |o.data|);
    FirstMono(g, g.IxOf(|o.data|), |o.ix|);
  }

  /** A new data page is added behind the last. */
  lemma AppendDataStep(g: Geo, P: set<nat>, lu: seq<half>, pages: seq<Page>, dir: Dir, dirty: set<nat>,
                       lu': seq<half>, pages': seq<Page>, id: half, q: half, c: seq<byte>)
    requires g.Valid() && Rep(g, P, lu, pages, dir, dirty)
    requires id in dir && |dir[id].data| < 0xFFFE
    requires var o := dir[id]; var s := |o.data|;
             && g.IxOf(s) < |o.ix| && o.ix[g.IxOf(s)] as nat in dirty && o.ix[0] as nat in dirty
             && (s > 0 ==> |o.chunks[s - 1]| == g.dps) && 0 < |c| <= g.dps && |Bytes(o)| + |c| < 0x8000_0000
    requires q as nat in P && lu[q] == FREE_ID
    requires SameExcept(P, lu, pages, lu', pages', {q as nat})
    requires lu'[q] == id && pages'[q] == DataPage(g, id, |dir[id].data|, c)
    ensures var o := dir[id];
            Rep(g, P, lu', pages', dir[id := o.(data := o.data + [q], chunks := o.chunks + [c])], dirty)
  {
    hide Flatten, Full, SlotsFor;
    var o := dir[id];
    var s, ps := |o.data|, {q as nat};
    var o' := o.(data := o.data + [q], chunks := o.chunks + [c]);
    AppendShape(g, o, q, c);
    forall k | 0 <= k < |o'.ix| ensures IxOk(g, P, lu', pages', dirty, id, o', k) {
      assert IxOk(g, P, lu, pages, dirty, id, o, k);
      SlotsForAppend(g, o.data, q, k);
    }
    forall t | 0 <= t < |o'.data| ensures DataOk(g, P, lu', pages', id, o', t) {
      if t < s { assert DataOk(g, P, lu, pages, id, o, t); }
    }
    forall p0 | p0 in P && Live(lu'[p0]) && (p0 in ps || OfObj(lu[p0], id))
      ensures Owned(lu'[p0], pages'[p0].span, p0, dir[id := o'])
    {
      if p0 != q as nat { assert Owned(lu[p0], pages[p0].span, p0, dir); }
    }
    StepFrame(g, P, lu, pages, dir, dirty, lu', pages', dirty, ps, id, o');
  }

  /** The last data page is filled up further. */
  lemma GrowTailStep(g: Geo, P: set<nat>, lu: seq<half>, pages: seq<Page>, dir: Dir, dirty: set<nat>,
                     pages': seq<Page>, id: half, buf: seq<byte>)
    requires Rep(g, P, lu, pages, dir, dirty)
    requires id in dir && |dir[id].data| > 0 && dir[id].ix[0] as nat in dirty
    requires DataOk(g, P, lu, pages, id, dir[id], |dir[id].data| - 1) && |dir[id].data| - 1 !in dir[id].lost
    requires var o := dir[id]; var s := |o.data| - 1;
             && |o.chunks[s]| + |buf| <= g.dps && |Bytes(o)| + |buf| < 0x8000_0000
             && SameExcept(P, lu, pages, lu, pages', {o.data[s] as nat})
             && pages'[o.data[s]] == DataPage(g, id, s, o.chunks[s] + buf)
    ensures var o := dir[id]; var s := |o.data| - 1;
            Rep(g, P, lu, pages', dir[id := o.(chunks := o.chunks[s := o.chunks[s] + buf])], dirty)
  {
    var o := dir[id];
    var s := |o.data| - 1;
    var p, o' := o.data[s], o.(chunks := o.chunks[s := o.chunks[s] + buf]);
    FlattenGrowLast(o.chunks, g.dps, buf);
    forall k | 0 <= k < |o'.ix| ensures IxOk(g, P, lu, pages', dirty, id, o', k) {
      assert IxOk(g, P, lu, pages, dirty, id, o, k);
    }
    forall t | 0 <= t < |o'.data| ensures DataOk(g, P, lu, pages', id, o', t) {
      assert DataOk(g, P, lu, pages, id, o, t);
    }
    forall p0 | p0 in P && Live(lu[p0]) && (p0 in {p as nat} || OfObj(lu[p0], id))
      ensures Owned(lu[p0], pages'[p0].span, p0, dir[id := o'])
    {
      assert Owned(lu[p0], pages[p0].span, p0, dir);
    }
    StepFrame(g, P, lu, pages, dir, dirty, lu, pages', dirty, {p as nat}, id, o');
  }

  /** The last data page is deleted. */
  lemma DropDataStep(g: Geo, P: set<nat>, lu: seq<half>, pages: seq<Page>, dir: Dir, dirty: set<nat>,
                     lu': seq<half>, pages': seq<Page>, id: half)
    requires g.Valid() && Rep(g, P, lu, pages, dir, dirty)
    requires id in dir && |dir[id].data| > 0 && dir[id].lost == {}
    requires DataOk(g, P, lu, pages, id, dir[id], |dir[id].data| - 1)
    requires var o := dir[id]; var s := |o.data| - 1;
             && g.IxOf(s) < |o.ix| && o.ix[g.IxOf(s)] as nat in dirty && o.ix[0] as nat in dirty
             && SameExcept(P, lu, pages, lu', pages', {o.data[s] as nat}) && lu'[o.data[s]] == DELETED_ID
    ensures var o := dir[id]; var s := |o.data| - 1;
            Rep(g, P, lu', pages', dir[id := o.(data := o.data[..s], chunks := o.chunks[..s])], dirty)
  {
    var o := dir[id];
    var s := |o.data| - 1;
    var p, o' := o.data[s], o.(data := o.data[..s], chunks := o.chunks[..s]);
    assert Flatten(o.chunks) == Flatten(o'.chunks) + o.chunks[s];
    forall k | 0 <= k < |o'.ix| ensures IxOk(g, P, lu', pages', dirty, id, o', k) {
      assert IxOk(g, P, lu, pages, dirty, id, o, k);
      SlotsForAppend(g, o'.data, o.data[s], k);
      assert o'.data + [o.data[s]] == o.data;
    }
    forall t | 0 <= t < |o'.data| ensures DataOk(g, P, lu', pages', id, o', t) {
      assert DataOk(g, P, lu, pages, id, o, t);
    }
    forall p0 | p0 in P && Live(lu'[p0]) && (p0 in {p as nat} || OfObj(lu[p0], id))
      ensures Owned(lu'[p0], pages'[p0].span, p0, dir[id := o'])
    {
      assert Owned(lu[p0], pages[p0].span, p0, dir);
    }
    StepFrame(g, P, lu, pages, dir, dirty, lu', pages', dirty, {p as nat}, id, o');
  }

  /** The last index page, which names no data page any more, is deleted. */
  lemma DropIxStep(g: Geo, P: set<nat>, lu: seq<half>, pages: seq<Page>, dir: Dir, dirty: set<nat>,
                   lu': seq<half>, pages': seq<Page>, id: half)
    requires Rep(g, P, lu, pages, dir, dirty)
    requires id in dir && |dir[id].ix| > 1 && |dir[id].data| <= g.First(|dir[id].ix| - 1)
    requires IxOk(g, P, lu, pages, dirty, id, dir[id], |dir[id].ix| - 1)
    requires var o := dir[id]; var p := o.ix[|o.ix| - 1];
             SameExcept(P, lu, pages, lu', pages', {p as nat}) && lu'[p] == DELETED_ID
    ensures var o := dir[id]; var k := |o.ix| - 1;
            Rep(g, P, lu', pages', dir[id := o.(ix := o.ix[..k])], dirty - {o.ix[k] as nat})
  {
    var o := dir[id];
    var k := |o.ix| - 1;
    var p, o' := o.ix[k], o.(ix := o.ix[..k]);
    var dirty' := dirty - {p as nat};
    forall k' | 0 <= k' < |o'.ix| ensures IxOk(g, P, lu', pages', dirty', id, o', k') {
      assert IxOk(g, P, lu, pages, dirty, id, o, k');
    }
    forall t | 0 <= t < |o'.data| ensures DataOk(g, P, lu', pages', id, o', t) {
      assert DataOk(g, P, lu, pages, id, o, t);
    }
    forall p0 | p0 in P && Live(lu'[p0]) && (p0 in {p as nat} || OfObj(lu[p0], id))
      ensures Owned(lu'[p0], pages'[p0].span, p0, dir[id := o'])
    {
      assert Owned(lu[p0], pages[p0].span, p0, dir);
    }
    StepFrame(g, P, lu, pages, dir, dirty, lu', pages', dirty', {p as nat}, id, o');
  }

  /** The header of an object is marked as being removed. */
  lemma DoomStep(g: Geo, P: set<nat>, lu: seq<half>, pages: seq<Page>, dir: Dir, pages': seq<Page>, id: half)
    requires Rep(g, P, lu, pages, dir, {})
    requires id in dir && IxOk(g, P, lu, pages, {}, id, dir[id], 0)
    requires var p := dir[id].ix[0];
             SameExcept(P, lu, pages, lu, pages', {p as nat}) && pages'[p] == pages[p].(flags := DOOMED_FLAGS)
    ensures Rep(g, P, lu, pages', dir[id := dir[id].(doomed := true)], {})
  {
    var o := dir[id];
    var p, o' := o.ix[0], o.(doomed := true);
    forall k' | 0 <= k' < |o'.ix| ensures IxOk(g, P, lu, pages', {}, id, o', k') {
      assert IxOk(g, P, lu, pages, {}, id, o, k');
    }
    forall t | 0 <= t < |o'.data| ensures DataOk(g, P, lu, pages', id, o', t) {
      assert DataOk(g, P, lu, pages, id, o, t);
    }
    forall p0 | p0 in P && Live(lu[p0]) && (p0 in {p as nat} || OfObj(lu[p0], id))
      ensures Owned(lu[p0], pages'[p0].span, p0, dir[id := o'])
    {
      assert Owned(lu[p0], pages[p0].span, p0, dir);
    }
    StepFrame(g, P, lu, pages, dir, {}, lu, pages', {}, {p as nat}, id, o');
  }

  /** A new object with an empty header page appears. */
  lemma CreateStep(g: Geo, P: set<nat>, lu: seq<half>, pages: seq<Page>, dir: Dir,
                   lu': seq<half>, pages': seq<Page>, id: half, name: seq<byte>, q: half)
    requires Rep(g, P, lu, pages, dir, {})
    requires id !in dir && 0 < id < 0x7FFF && |name| == NAME_LEN
    requires q as nat in P && lu[q] == FREE_ID
    requires SameExcept(P, lu, pages, lu', pages', {q as nat})
    requires lu'[q] == id + IX_FLAG && pages'[q] == IxPage(g, id, Obj(name, [q], [], [], false), 0)
    ensures Rep(g, P, lu', pages', dir[id := Obj(name, [q], [], [], false)], {})
  {
    var o' := Obj(name, [q], [], [], false);
    forall p0 | p0 in P && Live(lu[p0]) ensures !OfObj(lu[p0], id) {
      assert Owned(lu[p0], pages[p0].span, p0, dir);
    }
    StepFrame(g, P, lu, pages, dir, {}, lu', pages', {}, {q as nat}, id, o');
  }

  /** The header of an object without data is deleted: the object is gone. */
  lemma RemoveStep(g: Geo, P: set<nat>, lu: seq<half>, pages: seq<Page>, dir: Dir, dirty: set<nat>,
                   lu': seq<half>, pages': seq<Page>, id: half)
    requires Rep(g, P, lu, pages, dir, dirty)
    requires id in dir && |dir[id].ix| == 1 && |dir[id].data| == 0
    requires IxOk(g, P, lu, pages, dirty, id, dir[id], 0) && dirty <= {dir[id].ix[0] as nat}
    requires var p := dir[id].ix[0];
             SameExcept(P, lu, pages, lu', pages', {p as nat}) && lu'[p] == DELETED_ID
    ensures Rep(g, P, lu', pages', dir - {id}, {})
  {
    var dir' := dir - {id};
    forall id', k | id' in dir' && 0 <= k < |dir'[id'].ix|
      ensures IxOk(g, P, lu', pages', {}, id', dir'[id'], k)
    {
      assert IxOk(g, P, lu, pages, dirty, id', dir[id'], k);
    }
    forall id', s | id' in dir' && 0 <= s < |dir'[id'].data|
      ensures DataOk(g, P, lu', pages', id', dir'[id'], s)
    {
      assert DataOk(g, P, lu, pages, id', dir[id'], s);
    }
    forall p | p in P && Live(lu'[p]) ensures Owned(lu'[p], pages'[p].span, p, dir') {
      assert Owned(lu[p], pages[p].span, p, dir);
    }
  }

  /** The name in a header that is about to be rewritten may be changed. */
  lemma RenameStep(g: Geo, P: set<nat>, lu: seq<half>, pages: seq<Page>, dir: Dir, dirty: set<nat>, id: half,
                   name: seq<byte>)
    requires Rep(g, P, lu, pages, dir, dirty)
    requires id in dir && dir[id].ix[0] as nat in dirty && |name| == NAME_LEN
    ensures Rep(g, P, lu, pages, dir[id := dir[id].(name := name)], dirty)
  {
    var o := dir[id];
    var o' := o.(name := name);
    forall k' | 0 <= k' < |o'.ix| ensures IxOk(g, P, lu, pages, dirty, id, o', k') {
      assert IxOk(g, P, lu, pages, dirty, id, o, k');
    }
    forall t | 0 <= t < |o'.data| ensures DataOk(g, P, lu, pages, id, o', t) {
      assert DataOk(g, P, lu, pages, id, o, t);
    }
    forall p0 | p0 in P && Live(lu[p0]) && OfObj(lu[p0], id)
      ensures Owned(lu[p0], pages[p0].span, p0, dir[id := o'])
    {
      assert Owned(lu[p0], pages[p0].span, p0, dir);
    }
    StepFrame(g, P, lu, pages, dir, dirty, lu, pages, dirty, {}, id, o');
  }

  /** Only deleted pages differ, and those are deleted or free. */
  ghost predicate OnlyDeletedErased(P: set<nat>, lu: seq<half>, pages: seq<Page>, lu': seq<half>, pages': seq<Page>) {
    && |lu'| == |lu| == |pages'| == |pages|
    && forall p :: p in P && p < |lu| ==>
                     || (lu'[p] == lu[p] && pages'[p] == pages[p])
                     || (lu[p] == DELETED_ID && lu'[p] == FREE_ID)
  }

  /** Erasing deleted pages takes nothing from any object. */
  lemma EraseStep(g: Geo, P: set<nat>, lu: seq<half>, pages: seq<Page>, dir: Dir, dirty: set<nat>,
                  lu': seq<half>, pages': seq<Page>)
    requires Rep(g, P, lu, pages, dir, dirty) && OnlyDeletedErased(P, lu, pages, lu', pages')
    ensures Rep(g, P, lu', pages', dir, dirty)
  {
    forall id, k | id in dir && 0 <= k < |dir[id].ix| ensures IxOk(g, P, lu', pages', dirty, id, dir[id], k) {
      assert IxOk(g, P, lu, pages, dirty, id, dir[id], k);
    }
    forall id, s | id in dir && 0 <= s < |dir[id].data| ensures DataOk(g, P, lu', pages', id, dir[id], s) {
      assert DataOk(g, P, lu, pages, id, dir[id], s);
    }
    forall p | p in P && Live(lu'[p]) ensures Owned(lu'[p], pages'[p].span, p, dir) {
      assert Owned(lu[p], pages[p].span, p, dir);
    }
  }

  // ---------------------------------------------------------------- a file fits its numbers

  /** Different members of P, one more of them than `s` lists, places in `lost` aside. */
  lemma {:induction false} OneMore(s: seq<half>, P: set<nat>, q: nat, lost: set<nat>)
    requires forall i :: 0 <= i < |s| && i !in lost ==> s[i] as nat in P && s[i] as nat != q
    requires forall i, j :: 0 <= i < j < |s| && i !in lost && j !in lost ==> s[i] != s[j]
    requires q in P
    ensures |s| + 1 <= |P| + |lost|
  {
    if |s| == 0 {
      assert |P - {q}| == |P| - 1;
    } else if |s| - 1 in lost {
      OneMore(s[..|s| - 1], P, q, lost - {|s| - 1});
    } else {
      OneMore(s[..|s| - 1], P - {s[|s| - 1] as nat}, q, lost);
    }
  }

  lemma {:induction false} BelowCard(P: set<nat>, n: nat)
    requires forall p :: p in P ==> p < n
    ensures |P| <= n
  {
    if n == 0 {
      assert P == {};
    } else {
      BelowCard(P - {n - 1}, n - 1);
    }
  }

  /** A file of twice as many pages as there are would still fit the fields for span indices and sizes. */
  ghost predicate Ample(g: Geo) { 2 * g.Pages() < 0xFFFE && 2 * g.Pages() * g.dps < 0x8000_0000 }

  /** A file on the flash has no more pages than there are, those it has lost aside, and is small enough for all its fields, even
      with its last page filled up. */
  lemma FitsData(g: Geo, P: set<nat>, lu: seq<half>, pages: seq<Page>, dir: Dir, dirty: set<nat>, id: half)
    requires Entries(g, P) && Rep(g, P, lu, pages, dir, dirty) && id in dir
    ensures dir[id].lost == {} ==> |dir[id].data| < g.Pages()
    ensures dir[id].lost == {} || Ample(g) ==> |dir[id].data| < 0xFFFE && Start(g.dps, |dir[id].data| + 1) < 0x8000_0000
  {
    var o := dir[id];
    assert IxOk(g, P, lu, pages, dirty, id, o, 0);
    forall s | 0 <= s < |o.data| && s !in o.lost ensures o.data[s] as nat in P && lu[o.data[s]] == id && pages[o.data[s]].span == s {
      assert DataOk(g, P, lu, pages, id, o, s);
    }
    OneMore(o.data, P, o.ix[0], o.lost);
    BelowCard(P, g.Pages());
    BelowCard(o.lost, g.Pages());
    StartIsProduct(g.dps, |o.data| + 1);
    MulMono(|o.data| + 1, if o.lost == {} then g.Pages() else 2 * g.Pages(), g.dps);
  }
}
