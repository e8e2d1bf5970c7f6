/**
 * Bracket counting: the reader finds the end of a nested value by counting one
 * kind of bracket, and that end is the end the grammar gives the value.
 */
module JsonBrackets {
  import opened JsonGrammar

  datatype Option<T> = None | Some(value: T)

  function Rise(k: Kind, c: char): int {
    if c == Open(k) then 1 else if c == Close(k) then -1 else 0
  }

  // Opening minus closing brackets of kind `k` in t[p..q].
  ghost function Depth(k: Kind, t: string, p: nat, q: nat): int
    requires q <= |t|
    decreases q
  {
    if q <= p then 0 else Depth(k, t, p, q - 1) + Rise(k, t[q - 1])
  }

  lemma {:induction false} DepthJoin(k: Kind, t: string, p: nat, q: nat, r: nat)
    requires p <= q <= r <= |t|
    ensures Depth(k, t, p, r) == Depth(k, t, p, q) + Depth(k, t, q, r)
    decreases r
  {
    if q < r {
      DepthJoin(k, t, p, q, r - 1);
    }
  }

  // No prefix of t[p..q] closes more than it opens, and the whole closes all.
  ghost predicate Flat(k: Kind, t: string, p: nat, q: nat) {
    p <= q <= |t| && Depth(k, t, p, q) == 0 && forall j | p <= j <= q :: Depth(k, t, p, j) >= 0
  }

  lemma FlatJoin(k: Kind, t: string, p: nat, q: nat, r: nat)
    requires Flat(k, t, p, q) && Flat(k, t, q, r)
    ensures Flat(k, t, p, r)
  {
    forall j | p <= j <= r ensures Depth(k, t, p, j) >= 0 {
      if j > q {
        DepthJoin(k, t, p, q, j);
      }
    }
    DepthJoin(k, t, p, q, r);
  }

  lemma {:induction false} FlatQuiet(k: Kind, t: string, p: nat, q: nat)
    requires p <= q <= |t| && forall j | p <= j < q :: Rise(k, t[j]) == 0
    ensures Flat(k, t, p, q)
    decreases q
  {
    if p < q {
      FlatQuiet(k, t, p, q - 1);
    }
  }

  // A run of characters that are no brackets.
  lemma FlatRun(k: Kind, t: string, p: nat, run: Run, x: string)
    requires Here(t, p, x) && AllIn(run, x)
    ensures Flat(k, t, p, p + |x|)
  {
    forall j | p <= j < p + |x| ensures Rise(k, t[j]) == 0 {
      assert t[j] == t[p..p + |x|][j - p] == x[j - p];
    }
    FlatQuiet(k, t, p, p + |x|);
  }

  lemma FlatChar(k: Kind, t: string, p: nat, c: char)
    requires Here(t, p, [c]) && Rise(k, c) == 0
    ensures Flat(k, t, p, p + 1)
  {
    HereChar(t, p, c);
    FlatQuiet(k, t, p, p + 1);
  }

  // Inside a pair of brackets of kind `k` the count stays above zero.
  lemma InsideBrackets(k: Kind, t: string, p: nat, q: nat)
    requires p < q < |t| && t[p] == Open(k) && t[q] == Close(k) && Flat(k, t, p + 1, q)
    ensures Flat(k, t, p, q + 1) && forall j | p < j <= q :: Depth(k, t, p, j) > 0
  {
    forall j | p < j <= q ensures Depth(k, t, p, j) > 0 {
      DepthJoin(k, t, p, p + 1, j);
      assert Depth(k, t, p, p + 1) == Depth(k, t, p, p) + 1;
    }
    DepthJoin(k, t, p, p + 1, q);
    assert Depth(k, t, p, p + 1) == Depth(k, t, p, p) + 1;
  }

  // ------------------------------------------------------------- printed trees are balanced

  lemma {:induction false} NodeFlat(k: Kind, t: string, p: nat, n: Node)
    requires NodeOk(n) && Here(t, p, Print(n))
    ensures Flat(k, t, p, p + |Print(n)|)
    decreases n
  {
    hide Flat, Here, AllIn;
    match n
    case Str(s) =>
      HereSplit(t, p, ['"'] + s, ['"']);
      HereSplit(t, p, ['"'], s);
      FlatChar(k, t, p, '"');
      FlatRun(k, t, p + 1, Plains, s);
      FlatChar(k, t, p + 1 + |s|, '"');
      FlatJoin(k, t, p, p + 1, p + 1 + |s|);
      FlatJoin(k, t, p, p + 1 + |s|, p + 2 + |s|);
    case Num(s) => NumFlat(k, t, p, s);
    case Empty(_, _) => ContainerFlat(k, t, p, n);
    case Full(_, _) => ContainerFlat(k, t, p, n);
  }

  lemma NumFlat(k: Kind, t: string, p: nat, s: string)
    requires NodeOk(Num(s)) && Here(t, p, s)
    ensures Flat(k, t, p, p + |s|)
  {
    hide Flat, Here, AllIn;
    assert s == [s[0]] + s[1..];
    HereSplit(t, p, [s[0]], s[1..]);
    FlatChar(k, t, p, s[0]);
    FlatRun(k, t, p + 1, Digits, s[1..]);
    FlatJoin(k, t, p, p + 1, p + |s|);
  }

  // The body of a container is balanced; the brackets around it are two more characters.
  lemma {:induction false} BodyFlat(k: Kind, t: string, p: nat, n: Node)
    requires (n.Empty? || n.Full?) && NodeOk(n) && Here(t, p, Print(n))
    ensures var q := p + |Print(n)| - 1;
            p < q < |t| && t[p] == Open(n.k) && t[q] == Close(n.k) && Flat(k, t, p + 1, q)
    decreases n, 0
  {
    hide Flat, Here, AllIn, ItemsOk, PrintItems;
    var body := if n.Empty? then n.gap else PrintItems(n.items);
    HereSplit(t, p, [Open(n.k)] + body, [Close(n.k)]);
    HereSplit(t, p, [Open(n.k)], body);
    HereChar(t, p, Open(n.k));
    HereChar(t, p + 1 + |body|, Close(n.k));
    if n.Empty? {
      FlatRun(k, t, p + 1, Blanks, body);
    } else {
      ItemsFlat(k, n.k, t, p + 1, n.items);
    }
  }

  lemma {:induction false} ContainerFlat(k: Kind, t: string, p: nat, n: Node)
    requires (n.Empty? || n.Full?) && NodeOk(n) && Here(t, p, Print(n))
    ensures Flat(k, t, p, p + |Print(n)|)
    decreases n, 1
  {
    hide Flat, Here, AllIn, ItemsOk, PrintItems;
    BodyFlat(k, t, p, n);
    var q := p + |Print(n)| - 1;
    if n.k == k {
      InsideBrackets(k, t, p, q);
    } else {
      HereChar(t, p, Open(n.k));
      HereChar(t, q, Close(n.k));
      FlatChar(k, t, p, Open(n.k));
      FlatChar(k, t, q, Close(n.k));
      FlatJoin(k, t, p, p + 1, q);
      FlatJoin(k, t, p, q, q + 1);
    }
  }

  lemma {:induction false} ItemsFlat(k: Kind, kind: Kind, t: string, p: nat, xs: Items)
    requires ItemsOk(kind, xs) && Here(t, p, PrintItems(xs))
    ensures Flat(k, t, p, p + |PrintItems(xs)|)
    decreases xs
  {
    hide Flat, Here, ItemOk, PrintItem;
    match xs
    case Last(item) => ItemFlat(k, kind, t, p, item);
    case More(item, rest) =>
      var d := p + |PrintItem(item)|;
      HereSplit(t, p, PrintItem(item) + [','], PrintItems(rest));
      HereSplit(t, p, PrintItem(item), [',']);
      ItemFlat(k, kind, t, p, item);
      FlatChar(k, t, d, ',');
      ItemsFlat(k, kind, t, d + 1, rest);
      FlatJoin(k, t, p, d, d + 1);
      FlatJoin(k, t, p, d + 1, d + 1 + |PrintItems(rest)|);
  }

  lemma {:induction false} ItemFlat(k: Kind, kind: Kind, t: string, p: nat, i: Item)
    requires ItemOk(kind, i) && Here(t, p, PrintItem(i))
    ensures Flat(k, t, p, p + |PrintItem(i)|)
    decreases i
  {
    hide Flat, Here, AllIn, HeadOk, NodeOk, PrintHead, Print;
    var v := p + |PrintHead(i.head)|;
    var n := v + |Print(i.value)|;
    HereSplit(t, p, PrintHead(i.head) + Print(i.value), i.tail);
    HereSplit(t, p, PrintHead(i.head), Print(i.value));
    HeadFlat(k, kind, t, p, i.head);
    NodeFlat(k, t, v, i.value);
    FlatRun(k, t, n, Blanks, i.tail);
    FlatJoin(k, t, p, v, n);
    FlatJoin(k, t, p, n, n + |i.tail|);
  }

  lemma HeadFlat(k: Kind, kind: Kind, t: string, p: nat, h: Head)
    requires HeadOk(kind, h) && Here(t, p, PrintHead(h))
    ensures Flat(k, t, p, p + |PrintHead(h)|)
  {
    hide Flat, Here, AllIn;
    if h.Gap? {
      FlatRun(k, t, p, Blanks, h.b0);
    } else {
      var q := p + |h.b0|;
      var n := q + 1 + |h.name|;
      var c := n + 1 + |h.b1|;
      KeySplit(t, p, h.b0, h.name, h.b1, h.b2);
      FlatRun(k, t, p, Blanks, h.b0);
      FlatChar(k, t, q, '"');
      FlatRun(k, t, q + 1, Plains, h.name);
      FlatChar(k, t, n, '"');
      FlatRun(k, t, n + 1, Blanks, h.b1);
      FlatChar(k, t, c, ':');
      FlatRun(k, t, c + 1, Blanks, h.b2);
      FlatJoin(k, t, p, q, q + 1);
      FlatJoin(k, t, p, q + 1, n);
      FlatJoin(k, t, p, n, n + 1);
      FlatJoin(k, t, p, n + 1, c);
      FlatJoin(k, t, p, c, c + 1);
      FlatJoin(k, t, p, c + 1, c + 1 + |h.b2|);
    }
  }

  // ------------------------------------------------------------- finding the end

  // The first position from `q` on where a count that stands at `d` comes back to zero.
  ghost function EndFrom(k: Kind, t: string, q: nat, d: int): (r: Option<nat>)
    requires q <= |t|
    ensures r.Some? ==> q <= r.value < |t| && t[r.value] == Close(k)
    decreases |t| - q
  {
    if q == |t| then None
    else if t[q] == Close(k) && d == 1 then Some(q)
    else EndFrom(k, t, q + 1, d + Rise(k, t[q]))
  }

  // The end of the value whose opening bracket is at `p`.
  ghost function End(k: Kind, t: string, p: nat): (r: Option<nat>)
    requires p <= |t|
    ensures r.Some? ==> p <= r.value < |t| && t[r.value] == Close(k)
  {
    EndFrom(k, t, p, 0)
  }

  // The count is positive strictly before `q` and zero just after it.
  ghost predicate Encloses(k: Kind, t: string, p: nat, q: nat) {
    p < q < |t| && t[p] == Open(k) && t[q] == Close(k)
    && Depth(k, t, p, q + 1) == 0 && forall j | p < j <= q :: Depth(k, t, p, j) > 0
  }

  lemma {:induction false} EndFromIff(k: Kind, t: string, p: nat, i: nat, q: nat)
    requires p < i <= q < |t| && t[p] == Open(k)
    requires forall j | p < j <= i :: Depth(k, t, p, j) > 0
    ensures EndFrom(k, t, i, Depth(k, t, p, i)) == Some(q) <==> Encloses(k, t, p, q)
    decreases q - i
  {
    var d := Depth(k, t, p, i);
    assert Depth(k, t, p, i + 1) == d + Rise(k, t[i]);
    if t[i] == Close(k) && d == 1 {
      assert Depth(k, t, p, i + 1) == 0;
    } else if i < q {
      EndFromIff(k, t, p, i + 1, q);
    }
  }

  lemma EndIff(k: Kind, t: string, p: nat, q: nat)
    requires p < |t| && t[p] == Open(k)
    ensures End(k, t, p) == Some(q) <==> Encloses(k, t, p, q)
  {
    assert Depth(k, t, p, p + 1) == Depth(k, t, p, p) + 1;
    assert EndFrom(k, t, p, 0) == EndFrom(k, t, p + 1, 1);
    if p < q < |t| {
      EndFromIff(k, t, p, p + 1, q);
    }
  }

  // Counting brackets finds the end the grammar gives a container.
  lemma EndOfContainer(t: string, p: nat, n: Node)
    requires (n.Empty? || n.Full?) && NodeOk(n) && Here(t, p, Print(n))
    ensures p < |t| && t[p] == Open(n.k) && End(n.k, t, p) == Some(p + |Print(n)| - 1)
  {
    hide Flat, Here, NodeOk, Print;
    BodyFlat(n.k, t, p, n);
    var q := p + |Print(n)| - 1;
    InsideBrackets(n.k, t, p, q);
    FlatIs(n.k, t, p, q + 1);
    EndIff(n.k, t, p, q);
  }

  lemma FlatIs(k: Kind, t: string, p: nat, q: nat)
    requires Flat(k, t, p, q)
    ensures p <= q <= |t| && Depth(k, t, p, q) == 0 && forall j | p <= j <= q :: Depth(k, t, p, j) >= 0
  {
  }

  // A well-formed value that starts inside a bracketed text ends inside it.
  lemma NoOverrun(k: Kind, t: string, s: nat, end: nat, p: nat, n: Node)
    requires s < |t| && t[s] == Open(k) && End(k, t, s) == Some(end) && s < p < end
    requires NodeOk(n) && Here(t, p, Print(n))
    ensures p + |Print(n)| <= end
  {
    hide Flat, Here, NodeOk, Print;
    EndIff(k, t, s, end);
    NodeFlat(k, t, p, n);
    DepthJoin(k, t, s, p, end + 1);
    FlatAt(k, t, p, p + |Print(n)|, end + 1);
  }

  lemma FlatAt(k: Kind, t: string, p: nat, q: nat, j: nat)
    requires j <= |t|
    ensures Flat(k, t, p, q) && p <= j <= q ==> Depth(k, t, p, j) >= 0
  {
  }

  // ------------------------------------------------------------- texts the reader is given

  // A text of the reader: `len` characters from `s` on, reaching to the terminator of
  // the whole text `t` or cut out of it by counting brackets.
  ghost predicate Bounded(t: string, s: nat, len: int) {
    && s <= |t| && '\0' !in t
    && (len >= 0 ==> s + len <= |t|)
    && (len >= 0 && s + len < |t| ==>
          exists k :: t[s] == Open(k) && End(k, t, s) == Some(s + len - 1))
  }

  // The accepted texts: one container between blanks; after an empty container
  // anything may follow.
  ghost predicate Accept(k: Kind, t: string, s: nat, len: int) {
    && 0 <= len <= |t| - s
    && var q := Scan(Blanks, t, s, s + len);
       q < s + len && t[q] == Open(k) && Ends(k, t, q, s + len)
  }

  ghost predicate Ends(k: Kind, t: string, q: nat, e: nat)
    requires q < e <= |t|
  {
    var r := ParseContainer(k, t, q, e);
    r.Done? && (r.value.Empty? || Scan(Blanks, t, r.next, e) == e)
  }

  // Checking the slice that bracket counting cuts out is the same as parsing the
  // value in place, and never runs past the enclosing text.
  lemma NestedAgrees(t: string, s: nat, e: nat, k: Kind, p: nat)
    requires s < p < e <= |t| && Bounded(t, s, e - s) && t[p] == Open(k)
    ensures var end := End(k, t, p);
            (end.Some? && Accept(k, t, p, end.value + 1 - p)) <==> ParseContainer(k, t, p, e).Done?
    ensures ParseContainer(k, t, p, e).Done? ==> End(k, t, p) == Some(ParseContainer(k, t, p, e).next - 1)
  {
    hide Scan, ParseContainer, Here, NodeOk, Print, End;
    if ParseContainer(k, t, p, e).Done? {
      ContainerSound(k, t, p, e);
      var n := ParseContainer(k, t, p, e).value;
      ContainerKind(k, t, p, e);
      EndOfContainer(t, p, n);
      ContainerComplete(k, t, p, p + |Print(n)|, n);
      SliceAccepted(k, t, p, p + |Print(n)|);
    }
    var end := End(k, t, p);
    if end.Some? && Accept(k, t, p, end.value + 1 - p) {
      SliceParses(t, s, e, k, p, end.value + 1);
    }
  }

  lemma ContainerKind(k: Kind, t: string, p: nat, e: nat)
    requires p < e <= |t| && ParseContainer(k, t, p, e).Done?
    ensures var n := ParseContainer(k, t, p, e).value; (n.Empty? || n.Full?) && n.k == k
  {
  }

  lemma SliceAccepted(k: Kind, t: string, p: nat, e: nat)
    requires p < e <= |t| && t[p] == Open(k)
    requires ParseContainer(k, t, p, e).Done? && ParseContainer(k, t, p, e).next == e
    ensures Accept(k, t, p, e - p)
  {
  }

  lemma SliceParses(t: string, s: nat, e: nat, k: Kind, p: nat, f: nat)
    requires s < p < e <= |t| && Bounded(t, s, e - s) && t[p] == Open(k)
    requires p < f <= |t| && End(k, t, p) == Some(f - 1) && Accept(k, t, p, f - p)
    ensures ParseContainer(k, t, p, e).Done?
  {
    hide Scan, ParseContainer, Here, NodeOk, Print, End;
    ScanNone(Blanks, t, p, f);
    ContainerSound(k, t, p, f);
    ContainerKind(k, t, p, f);
    var n := ParseContainer(k, t, p, f).value;
    if e < |t| {
      var k0 :| t[s] == Open(k0) && End(k0, t, s) == Some(e - 1);
      EndCloses(k0, t, s);
      NoOverrun(k0, t, s, e - 1, p, n);
    } else {
      HereFits(t, p, Print(n));
    }
    ContainerComplete(k, t, p, e, n);
  }

  lemma EndCloses(k: Kind, t: string, p: nat)
    requires p <= |t|
    ensures End(k, t, p).Some? ==> p <= End(k, t, p).value < |t| && t[End(k, t, p).value] == Close(k)
  {
  }

  lemma ScanNone(run: Run, t: string, p: nat, e: nat)
    requires p < e <= |t| && !In(run, t[p])
    ensures Scan(run, t, p, e) == p
  {
  }
}
