/** Finding an unused object id: spiffs_obj_lu_find_free_obj_id. */
module FreeId {
  import opened Nor
  import opened Layout
  import opened Image
  import opened Core
  import opened Descriptors
  import opened State
  import opened Alloc
  import opened Objects
  import opened Gc
  import Search

  // ---------------------------------------------------------------- names

  /** A name up to its terminating zero. */
  function CStr(b: seq<byte>): seq<byte> {
    if b == [] || b[0] == 0 then [] else [b[0]] + CStr(b[1..])
  }

  /** strcmp says equal. */
  predicate SameName(a: seq<byte>, b: seq<byte>) { CStr(a) == CStr(b) }

  predicate Clashes(name: Option<seq<byte>>, b: seq<byte>) { name.Some? && SameName(name.value, b) }

  // ---------------------------------------------------------------- what a scan has seen

  /** Objects whose header page comes before entry (b, e). */
  ghost function Seen(g: Geo, dir: Dir, b: nat, e: nat): set<nat>
    requires 0 < g.ppb
  {
    set id | id in dir && |dir[id].ix| > 0 && 0 <= g.EntryOf(dir[id].ix[0])
             && Search.Precedes(g.BlockOf(dir[id].ix[0]), g.EntryOf(dir[id].ix[0]), b, e)
  }

  /** An entry that stands for the header page of an object. */
  predicate IsHeader(lu: seq<half>, pages: seq<Page>, p: nat) {
    && p < |lu| && p < |pages| && Live(lu[p]) && IsIx(lu[p])
    && pages[p].span == 0 && !pages[p].flags.index && !pages[p].flags.final && pages[p].flags.delet
  }

  lemma SeenStart(g: Geo, dir: Dir)
    requires 0 < g.ppb
    ensures Seen(g, dir, 0, 0) == {}
  {
  }

  lemma SeenRow(g: Geo, P: set<nat>, lu: seq<half>, pages: seq<Page>, dir: Dir, b: nat)
    requires Entries(g, P) && Rep(g, P, lu, pages, dir, {})
    ensures Seen(g, dir, b, g.Entries()) == Seen(g, dir, b + 1, 0)
    ensures b + 1 == g.blocks ==> Seen(g, dir, b, g.Entries()) == dir.Keys
  {
    forall id | id in dir
      ensures |dir[id].ix| > 0 && dir[id].ix[0] as nat in P
    {
      assert IxOk(g, P, lu, pages, {}, id, dir[id], 0);
    }
  }

  /** One more entry: an object more, if it stands for a header page, and nothing else otherwise. */
  lemma SeenNext(g: Geo, P: set<nat>, lu: seq<half>, pages: seq<Page>, dir: Dir, b: nat, e: nat)
    requires Entries(g, P) && Rep(g, P, lu, pages, dir, {}) && b < g.blocks && e < g.Entries()
    ensures var p := g.PixOf(b, e);
            && p in P && p < |lu| == |pages|
            && (Live(lu[p]) ==> IdOf(lu[p]) in dir)
            && (if IsHeader(lu, pages, p) then
                  && lu[p] - IX_FLAG !in Seen(g, dir, b, e)
                  && Seen(g, dir, b, e + 1) == Seen(g, dir, b, e) + {lu[p] - IX_FLAG}
                  && pages[p].name == dir[lu[p] - IX_FLAG].name
                  && pages[p].flags == IxFlags(dir[lu[p] - IX_FLAG], 0)
                else Seen(g, dir, b, e + 1) == Seen(g, dir, b, e))
  {
    hide Rep, ObjShape, IxPage;
    var p := g.PixOf(b, e);
    LiveOwner(g, P, lu, pages, dir, p);
    forall id | id in dir
      ensures |dir[id].ix| > 0 && dir[id].ix[0] as nat in P && IsHeader(lu, pages, dir[id].ix[0])
      ensures lu[dir[id].ix[0]] == id + IX_FLAG
      ensures g.BlockOf(dir[id].ix[0]) == b && g.EntryOf(dir[id].ix[0]) == e ==> dir[id].ix[0] as nat == p
    {
      HeaderAt(g, P, lu, pages, dir, id);
    }
  }

  lemma HeaderAt(g: Geo, P: set<nat>, lu: seq<half>, pages: seq<Page>, dir: Dir, id: half)
    requires Rep(g, P, lu, pages, dir, {}) && id in dir
    ensures |dir[id].ix| > 0 && dir[id].ix[0] as nat in P && IsHeader(lu, pages, dir[id].ix[0])
    ensures lu[dir[id].ix[0]] == id + IX_FLAG && pages[dir[id].ix[0]].name == dir[id].name
    ensures pages[dir[id].ix[0]].flags == IxFlags(dir[id], 0) && 0 < id < 0x7FFF
  {
    assert IxOk(g, P, lu, pages, {}, id, dir[id], 0);
  }

  lemma LiveOwner(g: Geo, P: set<nat>, lu: seq<half>, pages: seq<Page>, dir: Dir, p: nat)
    requires Rep(g, P, lu, pages, dir, {}) && p in P
    ensures p < |lu| == |pages| && (Live(lu[p]) ==> IdOf(lu[p]) in dir)
    ensures IsHeader(lu, pages, p) ==>
              var id := lu[p] - IX_FLAG;
              && id in dir && |dir[id].ix| > 0 && dir[id].ix[0] as nat == p
              && pages[p].name == dir[id].name && pages[p].flags == IxFlags(dir[id], 0)
  {
    if Live(lu[p]) { assert Owned(lu[p], pages[p].span, p, dir); }
    if IsHeader(lu, pages, p) { HeaderAt(g, P, lu, pages, dir, lu[p] - IX_FLAG); }
  }

  // ---------------------------------------------------------------- the compacted table

  /** Ids of `seen` that fall into group i of `comp` ids each, from `min` on. */
  ghost function Group(seen: set<nat>, min: nat, comp: nat, i: nat): set<nat> {
    set id | id in seen && InGroup(id, min, comp, i)
  }

  ghost predicate InGroup(id: nat, min: nat, comp: nat, i: nat) {
    min + Search.Rows(comp, i) <= id < min + Search.Rows(comp, i) + comp
  }

  /** The group of an id, as the code works it out. */
  lemma GroupOf(id: nat, min: nat, comp: nat)
    requires 0 < comp && min <= id
    ensures InGroup(id, min, comp, (id - min) / comp)
    ensures forall i: nat :: InGroup(id, min, comp, i) ==> i == (id - min) / comp
  {
    var q := (id - min) / comp;
    Search.RowsIsProduct(comp, q);
    forall i: nat | InGroup(id, min, comp, i) ensures i == q {
      if i < q { Search.RowsMono(comp, i, q); } else if q < i { Search.RowsMono(comp, q, i); }
    }
  }

  lemma {:induction false} RangeCard(s: set<nat>, lo: nat, n: nat)
    requires forall x :: x in s ==> lo <= x < lo + n
    ensures |s| <= n
    ensures |s| < n ==> exists x :: lo <= x < lo + n && x !in s
    ensures |s| == n ==> forall x :: lo <= x < lo + n ==> x in s
  {
    if n == 0 {
      assert s == {};
    } else {
      var last := lo + n - 1;
      RangeCard(s - {last}, lo, n - 1);
      if last !in s { assert s - {last} == s; }
    }
  }

  /** A group holds at most `comp` ids, and if fewer, one of them is not used. */
  lemma GroupSize(seen: set<nat>, min: nat, comp: nat, i: nat)
    ensures |Group(seen, min, comp, i)| <= comp
    ensures |Group(seen, min, comp, i)| < comp ==> exists id: nat :: InGroup(id, min, comp, i) && id !in seen
  {
    RangeCard(Group(seen, min, comp, i), min + Search.Rows(comp, i), comp);
  }

  /** map[i] counts the ids of `seen` in group i. */
  ghost predicate Counts(map': seq<byte>, seen: set<nat>, min: nat, comp: nat) {
    forall i :: 0 <= i < |map'| ==> map'[i] == |Group(seen, min, comp, i)|
  }

  lemma CountsNext(map': seq<byte>, seen: set<nat>, min: nat, comp: nat, id: nat)
    requires Counts(map', seen, min, comp) && id !in seen && 0 < comp < 0xFF
    ensures id < min || (id - min) / comp >= |map'| ==> Counts(map', seen + {id}, min, comp)
    ensures id >= min && (id - min) / comp < |map'| ==>
              var i := (id - min) / comp;
              map'[i] < 0xFF && Counts(map'[i := map'[i] + 1], seen + {id}, min, comp)
  {
    if id >= min { GroupOf(id, min, comp); }
    forall i | 0 <= i < |map'|
      ensures id >= min && i == (id - min) / comp ==>
                |Group(seen + {id}, min, comp, i)| == |Group(seen, min, comp, i)| + 1 <= comp
      ensures !(id >= min && i == (id - min) / comp) ==>
                Group(seen + {id}, min, comp, i) == Group(seen, min, comp, i)
    {
      if id >= min && i == (id - min) / comp {
        assert Group(seen + {id}, min, comp, i) == Group(seen, min, comp, i) + {id};
        GroupSize(seen + {id}, min, comp, i);
      }
    }
  }

  /** Ids in use. */
  ghost function Ids(dir: Dir): set<nat> { set id | id in dir }

  ghost predicate NoClash(dir: Dir, ids: set<nat>, name: Option<seq<byte>>) {
    forall id :: id in ids && id in dir ==> !Clashes(name, dir[id].name)
  }

  lemma ClashNext(dir: Dir, seen: set<nat>, name: Option<seq<byte>>, id: half)
    requires NoClash(dir, seen, name) && id in dir && !Clashes(name, dir[id].name)
    ensures NoClash(dir, seen + {id as nat}, name)
  {
  }

  /** Every id is where the compacted table has room for it. */
  ghost predicate InWindow(ids: set<nat>, min: nat, max: nat, comp: nat, ps: nat)
    requires 0 < comp
  {
    forall id :: id in ids ==> min <= id <= max && (id - min) / comp < ps
  }

  /** The verdict on one entry of the compacting scan. */
  method CompactEntry(fs: Spiffs, name: Option<seq<byte>>, min: nat, max: nat, comp: nat, b: nat, e: nat, table: seq<byte>)
    returns (st: Status, table': seq<byte>)
    requires fs.Ok() && Rep(fs.g, fs.P, fs.lu, fs.pages, fs.dir, {}) && b < fs.g.blocks && e < fs.g.Entries()
    requires 0 < comp < 0xFF && InWindow(Ids(fs.dir), min, max, comp, |table|)
    requires Counts(table, Seen(fs.g, fs.dir, b, e), min, comp) && NoClash(fs.dir, Seen(fs.g, fs.dir, b, e), name)
    ensures |table'| == |table| && (st == OK || st == ERR_CONFLICTING_NAME)
    ensures st == OK ==>
              Counts(table', Seen(fs.g, fs.dir, b, e + 1), min, comp) && NoClash(fs.dir, Seen(fs.g, fs.dir, b, e + 1), name)
    ensures st != OK ==> exists id :: id in fs.dir && Clashes(name, fs.dir[id].name)
  {
    hide Inv, Rep, Counts, Seen, NoClash, SameName;
    InvShape(fs.g, fs.P, fs.S());
    SeenNext(fs.g, fs.P, fs.lu, fs.pages, fs.dir, b, e);
    var p := fs.g.PixOf(b, e);
    table' := table;
    if IsHeader(fs.lu, fs.pages, p) {
      if Clashes(name, fs.pages[p].name) { return ERR_CONFLICTING_NAME, table; }
      var id := fs.lu[p] - IX_FLAG;
      assert id as nat in Ids(fs.dir);
      ClashNext(fs.dir, Seen(fs.g, fs.dir, b, e), name, id);
      CountsNext(table, Seen(fs.g, fs.dir, b, e), min, comp, id);
      if min <= id <= max {
        var i := (id - min) / comp;
        table' := table[i := table[i] + 1];
      }
    }
    st := OK;
  }

  /** The scan that counts object headers in groups of ids. */
  method CompactScan(fs: Spiffs, name: Option<seq<byte>>, min: nat, max: nat, comp: nat, ps: nat)
    returns (st: Status, table: seq<byte>)
    requires fs.Ok() && Rep(fs.g, fs.P, fs.lu, fs.pages, fs.dir, {})
    requires 0 < comp < 0xFF && InWindow(Ids(fs.dir), min, max, comp, ps)
    ensures |table| == ps && (st == OK || st == ERR_CONFLICTING_NAME)
    ensures st == OK ==> Counts(table, Ids(fs.dir), min, comp) && NoClash(fs.dir, Ids(fs.dir), name)
    ensures st != OK ==> exists id :: id in fs.dir && Clashes(name, fs.dir[id].name)
  {
    hide Rep, Inv, Seen, InWindow, Counts, NoClash;
    table := seq(ps, i => 0);
    st := OK;
    CountStart(fs, table, min, comp, name);
    var b := 0;
    while b < fs.g.blocks
      invariant b <= fs.g.blocks && |table| == ps && st == OK
      invariant Counts(table, Seen(fs.g, fs.dir, b, 0), min, comp) && NoClash(fs.dir, Seen(fs.g, fs.dir, b, 0), name)
      invariant b == fs.g.blocks ==> Seen(fs.g, fs.dir, b, 0) == Ids(fs.dir)
    {
      var e := 0;
      while e < fs.g.Entries()
        invariant e <= fs.g.Entries() && |table| == ps && st == OK
        invariant Counts(table, Seen(fs.g, fs.dir, b, e), min, comp) && NoClash(fs.dir, Seen(fs.g, fs.dir, b, e), name)
      {
        st, table := CompactEntry(fs, name, min, max, comp, b, e, table);
        if st != OK { return; }
        e := e + 1;
      }
      RowDone(fs, b);
      b := b + 1;
    }
  }

  lemma CountStart(fs: Spiffs, table: seq<byte>, min: nat, comp: nat, name: Option<seq<byte>>)
    requires fs.Ok() && forall i :: 0 <= i < |table| ==> table[i] == 0
    ensures fs.g.Valid() && 0 < fs.g.blocks && 0 < fs.g.Entries()
    ensures Counts(table, Seen(fs.g, fs.dir, 0, 0), min, comp) && NoClash(fs.dir, Seen(fs.g, fs.dir, 0, 0), name)
  {
    SeenStart(fs.g, fs.dir);
    forall i | 0 <= i < |table| ensures table[i] == |Group({}, min, comp, i)| {
      assert Group({}, min, comp, i) == {};
    }
  }

  lemma RowDone(fs: Spiffs, b: nat)
    requires fs.Ok() && Rep(fs.g, fs.P, fs.lu, fs.pages, fs.dir, {}) && b < fs.g.blocks
    ensures Seen(fs.g, fs.dir, b, fs.g.Entries()) == Seen(fs.g, fs.dir, b + 1, 0)
    ensures b + 1 == fs.g.blocks ==> Seen(fs.g, fs.dir, b + 1, 0) == Ids(fs.dir)
  {
    SeenRow(fs.g, fs.P, fs.lu, fs.pages, fs.dir, b);
  }

  /** The entry of the table with the lowest count; the first that is 0, if there is one. */
  method SelectGroup(table: seq<byte>) returns (count: byte, i: nat)
    requires 0 < |table|
    ensures i < |table| && (count == table[i] || (count == 0xFF && i == 0))
    ensures forall j :: 0 <= j < |table| ==> count <= table[j]
  {
    count, i := 0xFF, 0;
    var j := 0;
    while j < |table| && count != 0
      invariant 0 <= j <= |table| && i < |table| && (count == table[i] || (count == 0xFF && i == 0))
      invariant forall k :: 0 <= k < j ==> count <= table[k]
      decreases |table| - j
    {
      if table[j] < count { count, i := table[j], j; }
      j := j + 1;
    }
  }

  // ---------------------------------------------------------------- the bitmap

  /** The bits from `min` on are set for the ids of `seen`, and for no unused id. */
  ghost predicate Marks(bits: seq<bool>, seen: set<nat>, all: set<nat>, min: nat) {
    forall k :: 0 <= k < |bits| ==> (min + k in seen ==> bits[k]) && (bits[k] ==> min + k in all)
  }

  /** A page whose name counts for the bitmap scan. */
  predicate IsNamed(e: half, p: Page) {
    IsIx(e) && p.span == 0 && p.flags.delet && !p.flags.final && p.flags.ixdele
  }

  /** On an object that is not being removed, the two scans agree on which page is the header. */
  lemma NamedIsHeader(g: Geo, P: set<nat>, lu: seq<half>, pages: seq<Page>, dir: Dir, p: nat)
    requires Rep(g, P, lu, pages, dir, {}) && NoneDoomed(dir) && p in P && Live(lu[p])
    ensures IsNamed(lu[p], pages[p]) == IsHeader(lu, pages, p)
  {
    assert Owned(lu[p], pages[p].span, p, dir);
    if IsIx(lu[p]) {
      assert IxOk(g, P, lu, pages, {}, lu[p] - IX_FLAG, dir[lu[p] - IX_FLAG], pages[p].span as nat);
    }
  }

  /** The verdict on one entry of the bitmap scan. */
  method BitmapEntry(fs: Spiffs, name: Option<seq<byte>>, min: nat, b: nat, e: nat, bits: seq<bool>)
    returns (st: Status, bits': seq<bool>)
    requires fs.Ok() && Rep(fs.g, fs.P, fs.lu, fs.pages, fs.dir, {}) && NoneDoomed(fs.dir)
    requires b < fs.g.blocks && e < fs.g.Entries()
    requires Marks(bits, Seen(fs.g, fs.dir, b, e), Ids(fs.dir), min) && NoClash(fs.dir, Seen(fs.g, fs.dir, b, e), name)
    ensures |bits'| == |bits| && (st == OK || st == ERR_CONFLICTING_NAME)
    ensures st == OK ==> Marks(bits', Seen(fs.g, fs.dir, b, e + 1), Ids(fs.dir), min)
    ensures st == OK ==> NoClash(fs.dir, Seen(fs.g, fs.dir, b, e + 1), name)
    ensures st != OK ==> exists id :: id in fs.dir && Clashes(name, fs.dir[id].name)
  {
    hide Inv, Rep, Seen, NoneDoomed, NoClash, SameName;
    InvShape(fs.g, fs.P, fs.S());
    SeenNext(fs.g, fs.P, fs.lu, fs.pages, fs.dir, b, e);
    var p := fs.g.PixOf(b, e);
    var id := fs.lu[p];
    bits' := bits;
    if id != FREE_ID && id != DELETED_ID {
      NamedIsHeader(fs.g, fs.P, fs.lu, fs.pages, fs.dir, p);
      if IsNamed(id, fs.pages[p]) && Clashes(name, fs.pages[p].name) { return ERR_CONFLICTING_NAME, bits; }
      if IsNamed(id, fs.pages[p]) { ClashNext(fs.dir, Seen(fs.g, fs.dir, b, e), name, id - IX_FLAG); }
      var k := IdOf(id) - min;
      if 0 <= k < |bits| { bits' := bits[k := true]; }
    }
    st := OK;
  }

  /** The scan that marks the ids of a window. */
  method BitmapScan(fs: Spiffs, name: Option<seq<byte>>, min: nat, n: nat) returns (st: Status, bits: seq<bool>)
    requires fs.Ok() && Rep(fs.g, fs.P, fs.lu, fs.pages, fs.dir, {}) && NoneDoomed(fs.dir)
    ensures |bits| == n && (st == OK || st == ERR_CONFLICTING_NAME)
    ensures st == OK ==> Marks(bits, Ids(fs.dir), Ids(fs.dir), min) && NoClash(fs.dir, Ids(fs.dir), name)
    ensures st != OK ==> exists id :: id in fs.dir && Clashes(name, fs.dir[id].name)
  {
    hide Rep, Inv, Seen, Marks, NoClash, NoneDoomed;
    bits := seq(n, i => false);
    st := OK;
    MarkStart(fs, bits, min, name);
    var b := 0;
    while b < fs.g.blocks
      invariant b <= fs.g.blocks && |bits| == n && st == OK
      invariant Marks(bits, Seen(fs.g, fs.dir, b, 0), Ids(fs.dir), min) && NoClash(fs.dir, Seen(fs.g, fs.dir, b, 0), name)
      invariant b == fs.g.blocks ==> Seen(fs.g, fs.dir, b, 0) == Ids(fs.dir)
    {
      var e := 0;
      while e < fs.g.Entries()
        invariant e <= fs.g.Entries() && |bits| == n && st == OK
        invariant Marks(bits, Seen(fs.g, fs.dir, b, e), Ids(fs.dir), min) && NoClash(fs.dir, Seen(fs.g, fs.dir, b, e), name)
      {
        st, bits := BitmapEntry(fs, name, min, b, e, bits);
        if st != OK { return; }
        e := e + 1;
      }
      RowDone(fs, b);
      b := b + 1;
    }
  }

  lemma MarkStart(fs: Spiffs, bits: seq<bool>, min: nat, name: Option<seq<byte>>)
    requires fs.Ok() && forall i :: 0 <= i < |bits| ==> !bits[i]
    ensures fs.g.Valid() && 0 < fs.g.blocks && 0 < fs.g.Entries()
    ensures Marks(bits, Seen(fs.g, fs.dir, 0, 0), Ids(fs.dir), min) && NoClash(fs.dir, Seen(fs.g, fs.dir, 0, 0), name)
  {
    SeenStart(fs.g, fs.dir);
  }

  /** The lowest clear bit, looked for byte by byte. */
  method FirstClear(bits: seq<bool>, ps: nat) returns (found: bool, k: nat)
    requires |bits| == 8 * ps
    ensures found ==> k < |bits| && !bits[k] && forall j :: 0 <= j < k ==> bits[j]
    ensures !found ==> forall j :: 0 <= j < |bits| ==> bits[j]
  {
    var i := 0;
    while i < ps
      invariant i <= ps && forall j :: 0 <= j < 8 * i ==> bits[j]
    {
      var j := 0;
      while j < 8
        invariant j <= 8 && forall m :: 0 <= m < 8 * i + j ==> bits[m]
      {
        if !bits[8 * i + j] { return true, 8 * i + j; }
        j := j + 1;
      }
      i := i + 1;
    }
    return false, 0;
  }

  // ---------------------------------------------------------------- the search

  /** The largest id handed out, for n lookup entries in all. */
  function MaxId(n: nat): nat {
    if n / 2 + 1 >= IX_FLAG then 0x7FFF else n / 2 + 1
  }

  /** Ids in a group of the compacted table, when the ids do not fit into a bitmap of ps bytes; 0 if they do. */
  function Compaction(n: nat, ps: nat): nat
    requires 0 < ps
  {
    if MaxId(n) - 1 <= 8 * ps then 0 else (MaxId(n) - 1) / ps
  }

  /** Where ids come from: the window of the bitmap, or that of the compacted table. */
  ghost predicate Allotted(id: nat, n: nat, ps: nat)
    requires 0 < ps
  {
    var comp := Compaction(n, ps);
    if comp == 0 then 1 <= id <= 8 * ps else exists i :: 0 <= i < ps && InGroup(id, 1, comp, i)
  }

  lemma AllottedBounds(id: nat, n: nat, ps: nat)
    requires 129 <= ps <= 2048 && Allotted(id, n, ps)
    ensures 0 < id < 0x7FFF
    ensures Compaction(n, ps) > 0 ==> 1 <= id <= MaxId(n) && (id - 1) / Compaction(n, ps) < ps && Compaction(n, ps) < 0xFF
  {
    var comp := Compaction(n, ps);
    if comp > 0 {
      var i :| 0 <= i < ps && InGroup(id, 1, comp, i);
      Search.RowsMono(comp, i + 1, ps);
      Search.RowsIsProduct(comp, ps);
      GroupOf(id, 1, comp);
      CompactionSmall(n, ps);
    }
  }

  lemma CompactionSmall(n: nat, ps: nat)
    requires 129 <= ps <= 2048 && Compaction(n, ps) > 0
    ensures 8 <= Compaction(n, ps) < 0xFF && Compaction(n, ps) * ps <= MaxId(n) - 1
    ensures MaxId(n) - 1 > 8 * ps
  {
    var comp, m := Compaction(n, ps), MaxId(n) - 1;
    assert m == m / ps * ps + m % ps;
    if comp >= 0xFF { MulMono(0xFF, comp, ps); }
    if comp < 8 { MulMono(comp, 7, ps); }
  }

  /** Every object has an id that was handed out. */
  ghost predicate AllAllotted(dir: Dir, n: nat, ps: nat)
    requires 0 < ps
  {
    forall id :: id in dir ==> Allotted(id, n, ps)
  }

  /** What the search knows between two passes. */
  ghost predicate Narrowed(ids: set<nat>, n: nat, ps: nat, min: nat, max: nat, comp: nat, table: seq<byte>)
    requires 0 < ps
  {
    if comp == 0 then min == 1 && max == MaxId(n)
    else
      && comp == Compaction(n, ps)
      && if max - min > 8 * ps then min == 1 && max == MaxId(n) && |table| == ps && Counts(table, ids, 1, comp)
         else
           && max == min + comp
           && exists i, free :: 0 <= i < ps && min == 1 + Search.Rows(comp, i) && free !in ids && InGroup(free, 1, comp, i)
  }

  /** The last pass: the lowest unused id of the window. */
  method SearchBitmap(fs: Spiffs, name: Option<seq<byte>>, min: nat, ps: nat) returns (st: Status, id: nat)
    requires fs.Ok() && Rep(fs.g, fs.P, fs.lu, fs.pages, fs.dir, {}) && NoneDoomed(fs.dir)
    ensures st == OK || st == ERR_CONFLICTING_NAME || st == ERR_FULL
    ensures st == OK ==> min <= id < min + 8 * ps && id !in Ids(fs.dir) && NoClash(fs.dir, Ids(fs.dir), name)
    ensures st == OK ==> forall x :: min <= x < id ==> x in Ids(fs.dir)
    ensures st == ERR_FULL ==> (forall x :: min <= x < min + 8 * ps ==> x in Ids(fs.dir)) && NoClash(fs.dir, Ids(fs.dir), name)
    ensures st == ERR_CONFLICTING_NAME ==> exists x :: x in fs.dir && Clashes(name, fs.dir[x].name)
  {
    hide Rep, Inv, NoClash, NoneDoomed;
    id := 0;
    var bits, found, k;
    st, bits := BitmapScan(fs, name, min, 8 * ps);
    if st != OK { return; }
    found, k := FirstClear(bits, ps);
    if !found {
      forall x | min <= x < min + 8 * ps ensures x in Ids(fs.dir) { assert bits[x - min]; }
      return ERR_FULL, id;
    }
    forall x | min <= x < min + k ensures x in Ids(fs.dir) { assert bits[x - min]; }
    id := min + k;
    assert !bits[k];
  }

  /** A group that the table shows not to be full. */
  lemma GroupChosen(ids: set<nat>, table: seq<byte>, comp: nat, i: nat)
    requires Counts(table, ids, 1, comp) && i < |table| && 0 < comp
    ensures table[i] == 0 ==> 1 + Search.Rows(comp, i) !in ids && InGroup(1 + Search.Rows(comp, i), 1, comp, i)
    ensures table[i] < comp ==> exists free: nat :: InGroup(free, 1, comp, i) && free !in ids
    ensures table[i] <= comp
  {
    GroupSize(ids, 1, comp, i);
    if table[i] == 0 {
      assert Group(ids, 1, comp, i) == {};
      assert 1 + Search.Rows(comp, i) !in Group(ids, 1, comp, i);
    }
  }

  /** A full group: all its ids are in use. */
  lemma GroupFull(ids: set<nat>, comp: nat, i: nat, id: nat)
    requires |Group(ids, 1, comp, i)| >= comp && InGroup(id, 1, comp, i)
    ensures id in ids
  {
    RangeCard(Group(ids, 1, comp, i), 1 + Search.Rows(comp, i), comp);
    assert id in Group(ids, 1, comp, i);
  }

  /** The lowest unused id of the window was allotted like all others. */
  lemma BitmapOk(ids: set<nat>, n: nat, ps: nat, min: nat, max: nat, comp: nat, table: seq<byte>, id: nat)
    requires 129 <= ps <= 2048 && Narrowed(ids, n, ps, min, max, comp, table) && max - min <= 8 * ps
    requires min <= id < min + 8 * ps && id !in ids && forall x :: min <= x < id ==> x in ids
    ensures Allotted(id, n, ps)
  {
    if comp > 0 {
      var i, free :| 0 <= i < ps && min == 1 + Search.Rows(comp, i) && free !in ids && InGroup(free, 1, comp, i);
      assert id <= free;
      assert InGroup(id, 1, comp, i);
    }
  }

  /** If every id of the window is in use, every id is. */
  lemma BitmapFull(ids: set<nat>, n: nat, ps: nat, min: nat, max: nat, comp: nat, table: seq<byte>)
    requires 129 <= ps <= 2048 && Narrowed(ids, n, ps, min, max, comp, table) && max - min <= 8 * ps
    requires forall x :: min <= x < min + 8 * ps ==> x in ids
    ensures comp == 0 && forall x: nat :: Allotted(x, n, ps) ==> x in ids
  {
    UnusedInWindow(ids, n, ps, min, max, comp, table);
  }

  /** A group that has been chosen holds an unused id. */
  lemma UnusedInWindow(ids: set<nat>, n: nat, ps: nat, min: nat, max: nat, comp: nat, table: seq<byte>)
    requires 0 < ps
    ensures Narrowed(ids, n, ps, min, max, comp, table) && comp > 0 && max - min <= 8 * ps ==>
              exists x :: min <= x < min + 8 * ps && x !in ids
  {
  }

  /** The group with the lowest count, if not full, holds an unused id. */
  lemma Selected(ids: set<nat>, n: nat, ps: nat, max: nat, comp: nat, table: seq<byte>, count: byte, i: nat)
    requires 129 <= ps <= 2048 && Narrowed(ids, n, ps, 1, max, comp, table) && max - 1 > 8 * ps && comp > 0
    requires i < |table| && (count == table[i] || (count == 0xFF && i == 0))
    requires forall j :: 0 <= j < |table| ==> count <= table[j]
    ensures comp < 0xFF && count <= comp && count == table[i]
    ensures count == comp ==> forall x: nat :: Allotted(x, n, ps) ==> x in ids
    ensures count == 0 ==> Allotted(1 + i * comp, n, ps) && 1 + i * comp !in ids
    ensures count < comp ==> Narrowed(ids, n, ps, 1 + i * comp, 1 + i * comp + comp, comp, table) && comp <= 8 * ps
  {
    CompactionSmall(n, ps);
    GroupChosen(ids, table, comp, i);
    Search.RowsIsProduct(comp, i);
    if count == comp {
      forall x: nat | Allotted(x, n, ps) ensures x in ids {
        var j :| 0 <= j < ps && InGroup(x, 1, comp, j);
        GroupFull(ids, comp, j, x);
      }
    }
  }

  ghost predicate AllUsed(ids: set<nat>, n: nat, ps: nat)
    requires 0 < ps
  {
    forall x: nat :: Allotted(x, n, ps) ==> x in ids
  }

  lemma WindowFor(fs: Spiffs, n: nat, ps: nat)
    requires 129 <= ps <= 2048 && AllAllotted(fs.dir, n, ps) && Compaction(n, ps) > 0
    ensures 0 < Compaction(n, ps) < 0xFF && InWindow(Ids(fs.dir), 1, MaxId(n), Compaction(n, ps), ps)
  {
    CompactionSmall(n, ps);
    forall id | id in Ids(fs.dir) ensures 1 <= id <= MaxId(n) && (id - 1) / Compaction(n, ps) < ps {
      AllottedBounds(id, n, ps);
    }
  }

  /** spiffs_obj_lu_find_free_obj_id, with n lookup entries and a work buffer of ps bytes: an id that no
      object has, allotted in the same way as theirs; the search fails only when every id it could
      return is in use, or when the name is taken. */
  method FindFreeObjId(fs: Spiffs, name: Option<seq<byte>>, n: nat, ps: nat) returns (st: Status, id: nat)
    requires fs.Ok() && Rep(fs.g, fs.P, fs.lu, fs.pages, fs.dir, {}) && NoneDoomed(fs.dir) && 129 <= ps <= 2048
    requires AllAllotted(fs.dir, n, ps)
    ensures st == OK || st == ERR_CONFLICTING_NAME || st == ERR_FULL
    ensures st == OK ==> id !in Ids(fs.dir) && Allotted(id, n, ps) && NoClash(fs.dir, Ids(fs.dir), name)
    ensures st == ERR_FULL ==> AllUsed(Ids(fs.dir), n, ps) && NoClash(fs.dir, Ids(fs.dir), name)
    ensures st == ERR_CONFLICTING_NAME ==> exists x :: x in fs.dir && Clashes(name, fs.dir[x].name)
  {
    hide Rep, Inv, NoClash, NoneDoomed, Counts, InGroup, Narrowed, Allotted, AllAllotted, InWindow;
    var min: nat, max: nat, comp: nat := 1, MaxId(n), 0;
    var table: seq<byte> := [];
    st, id := OK, 0;
    NarrowStart(Ids(fs.dir), n, ps);
    while true
      invariant 1 <= min <= max && Narrowed(Ids(fs.dir), n, ps, min, max, comp, table)
      invariant comp > 0 ==> NoClash(fs.dir, Ids(fs.dir), name)
      decreases max - min, comp == 0
    {
      if max - min <= 8 * ps {
        st, id := SearchBitmap(fs, name, min, ps);
        if st == OK { BitmapOk(Ids(fs.dir), n, ps, min, max, comp, table, id); }
        if st == ERR_FULL { BitmapFull(Ids(fs.dir), n, ps, min, max, comp, table); }
        return;
      }
      NarrowWide(Ids(fs.dir), n, ps, min, max, comp, table);
      if comp != 0 {
        var count, i := SelectGroup(table);
        Selected(Ids(fs.dir), n, ps, max, comp, table, count, i);
        if count == comp { return ERR_FULL, id; }
        if count == 0 { return OK, i * comp + min; }
        min := min + i * comp;
        max := min + comp;  // a group always fits into the bitmap, so nothing is compacted a second time
      } else {
        comp := (max - min) / ps;
        WindowFor(fs, n, ps);
        st, table := CompactScan(fs, name, min, max, comp, ps);
        if st != OK { return; }
        NarrowCounted(Ids(fs.dir), n, ps, max, comp, table);
      }
    }
  }

  lemma NarrowStart(ids: set<nat>, n: nat, ps: nat)
    requires 0 < ps
    ensures Narrowed(ids, n, ps, 1, MaxId(n), 0, []) && 1 <= MaxId(n)
  {
  }

  lemma NarrowWide(ids: set<nat>, n: nat, ps: nat, min: nat, max: nat, comp: nat, table: seq<byte>)
    requires 129 <= ps && Narrowed(ids, n, ps, min, max, comp, table) && max - min > 8 * ps
    ensures min == 1 && max == MaxId(n) && Compaction(n, ps) == (max - min) / ps
    ensures comp > 0 ==> comp == Compaction(n, ps) && |table| == ps
    ensures Compaction(n, ps) > 0
  {
    QuotientPositive(max - min, ps);
  }

  lemma QuotientPositive(a: nat, d: nat)
    requires 0 < d <= a
    ensures a / d > 0
  {
  }

  lemma NarrowCounted(ids: set<nat>, n: nat, ps: nat, max: nat, comp: nat, table: seq<byte>)
    requires 0 < ps && comp == Compaction(n, ps) > 0 && max == MaxId(n) && |table| == ps && Counts(table, ids, 1, comp)
    ensures max - 1 > 8 * ps && Narrowed(ids, n, ps, 1, max, comp, table)
  {
  }
}
