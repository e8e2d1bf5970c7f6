/**
 * The language of the JSON reader, as trees and their printed form: strings
 * without escapes or structural characters, numbers of digits and dots, objects
 * and arrays, and blanks between the tokens.  `ParseNode` is a plain recursive
 * descent parser of that language; it is the reference for the validator and the
 * walkers, which skip nested values by counting brackets instead.
 */
module JsonGrammar {

  // ------------------------------------------------------------- characters

  // Runs of characters the reader skips over.
  datatype Run = Blanks | Plains | Digits

  predicate Mark(c: char) {
    c == '{' || c == '}' || c == '[' || c == ']' || c == ':' || c == ','
  }

  predicate In(run: Run, c: char) {
    match run
    case Blanks => c == ' ' || c == '\r' || c == '\n'
    case Plains => c != '"' && !Mark(c)
    case Digits => '0' <= c <= '9' || c == '.'
  }

  ghost predicate AllIn(run: Run, s: string) {
    forall i | 0 <= i < |s| :: In(run, s[i])
  }

  predicate NumStart(c: char) { '0' <= c <= '9' || c == '-' }

  // Where the run starting at `p` ends.
  ghost function Scan(run: Run, t: string, p: nat, e: nat): (q: nat)
    requires p <= e <= |t|
    ensures p <= q <= e
    ensures AllIn(run, t[p..q])
    ensures q < e ==> !In(run, t[q])
    decreases e - p
  {
    if p < e && In(run, t[p]) then
      var q := Scan(run, t, p + 1, e);
      AllInCons(run, t, p, q);
      q
    else p
  }

  lemma AllInCons(run: Run, t: string, p: nat, q: nat)
    requires p < q <= |t| && In(run, t[p]) && AllIn(run, t[p + 1..q])
    ensures AllIn(run, t[p..q])
  {
    forall i | 0 <= i < q - p ensures In(run, t[p..q][i]) {
      assert i > 0 ==> t[p..q][i] == t[p + 1..q][i - 1];
    }
  }

  // The piece `x` stands in `t` at `p`.
  ghost predicate Here(t: string, p: nat, x: string) {
    p + |x| <= |t| && t[p..p + |x|] == x
  }

  lemma {:induction false} ScanHere(run: Run, t: string, p: nat, e: nat, x: string)
    requires Here(t, p, x) && p + |x| <= e <= |t|
    requires AllIn(run, x) && (p + |x| < e ==> !In(run, t[p + |x|]))
    ensures Scan(run, t, p, e) == p + |x|
    decreases |x|
  {
    if x != "" {
      assert t[p] == t[p..p + |x|][0] == x[0];
      assert t[p + 1..p + 1 + |x[1..]|] == t[p..p + |x|][1..];
      ScanHere(run, t, p + 1, e, x[1..]);
    }
  }

  // ------------------------------------------------------------- trees

  datatype Kind = Curly | Square

  function Open(k: Kind): char { if k == Curly then '{' else '[' }

  function Close(k: Kind): char { if k == Curly then '}' else ']' }

  // What comes before a value: a name in an object, blanks in an array.
  datatype Head = Key(b0: string, name: string, b1: string, b2: string) | Gap(b0: string)

  datatype Item = Item(head: Head, value: Node, tail: string)

  datatype Items = Last(item: Item) | More(item: Item, rest: Items)

  datatype Node = Str(s: string) | Num(s: string) | Empty(k: Kind, gap: string) | Full(k: Kind, items: Items)

  ghost predicate HeadOk(k: Kind, h: Head) {
    && AllIn(Blanks, h.b0)
    && h.Key? == (k == Curly)
    && (h.Key? ==> AllIn(Blanks, h.b1) && AllIn(Blanks, h.b2) && AllIn(Plains, h.name) && h.name != "")
  }

  ghost predicate NodeOk(n: Node)
    decreases n
  {
    match n
    case Str(s) => AllIn(Plains, s)
    case Num(s) => s != "" && NumStart(s[0]) && AllIn(Digits, s[1..])
    case Empty(_, gap) => AllIn(Blanks, gap)
    case Full(k, items) => ItemsOk(k, items)
  }

  ghost predicate ItemOk(k: Kind, i: Item)
    decreases i
  {
    HeadOk(k, i.head) && NodeOk(i.value) && AllIn(Blanks, i.tail)
  }

  ghost predicate ItemsOk(k: Kind, xs: Items)
    decreases xs
  {
    ItemOk(k, xs.item) && (xs.More? ==> ItemsOk(k, xs.rest))
  }

  ghost function PrintHead(h: Head): string {
    match h
    case Key(b0, name, b1, b2) => b0 + ['"'] + name + ['"'] + b1 + [':'] + b2
    case Gap(b0) => b0
  }

  ghost function Print(n: Node): (s: string)
    ensures n.Str? || n.Empty? || n.Full? ==> |s| >= 2
  {
    match n
    case Str(s) => ['"'] + s + ['"']
    case Num(s) => s
    case Empty(k, gap) => [Open(k)] + gap + [Close(k)]
    case Full(k, items) => [Open(k)] + PrintItems(items) + [Close(k)]
  }

  ghost function PrintItem(i: Item): string {
    PrintHead(i.head) + Print(i.value) + i.tail
  }

  ghost function PrintItems(xs: Items): string {
    match xs
    case Last(item) => PrintItem(item)
    case More(item, rest) => PrintItem(item) + [','] + PrintItems(rest)
  }

  // ------------------------------------------------------------- the reference parser

  datatype Parsed<T> = Fail | Done(value: T, next: nat)

  ghost function ParseHead(k: Kind, t: string, p: nat, e: nat): (r: Parsed<Head>)
    requires p <= e <= |t|
    ensures r.Done? ==> p <= r.next <= e
  {
    var q := Scan(Blanks, t, p, e);
    if k == Square then Done(Gap(t[p..q]), q)
    else if q < e && t[q] == '"' then
      var n := Scan(Plains, t, q + 1, e);
      if q + 1 < n < e && t[n] == '"' then
        var c := Scan(Blanks, t, n + 1, e);
        if c < e && t[c] == ':' then
          var v := Scan(Blanks, t, c + 1, e);
          Done(Key(t[p..q], t[q + 1..n], t[n + 1..c], t[c + 1..v]), v)
        else Fail
      else Fail
    else Fail
  }

  ghost function ParseNode(t: string, p: nat, e: nat): (r: Parsed<Node>)
    requires p <= e <= |t|
    ensures r.Done? ==> p < r.next <= e
    decreases e - p, 0
  {
    if p == e then Fail
    else if t[p] == '"' then
      var q := Scan(Plains, t, p + 1, e);
      if q < e && t[q] == '"' then Done(Str(t[p + 1..q]), q + 1) else Fail
    else if NumStart(t[p]) then
      var q := Scan(Digits, t, p + 1, e);
      Done(Num(t[p..q]), q)
    else if t[p] == '{' then ParseContainer(Curly, t, p, e)
    else if t[p] == '[' then ParseContainer(Square, t, p, e)
    else Fail
  }

  // A container whose opening bracket is at `p`.
  ghost function ParseContainer(k: Kind, t: string, p: nat, e: nat): (r: Parsed<Node>)
    requires p < e <= |t|
    ensures r.Done? ==> p + 1 < r.next <= e
    decreases e - p - 1, 3
  {
    var q := Scan(Blanks, t, p + 1, e);
    if q < e && t[q] == Close(k) then Done(Empty(k, t[p + 1..q]), q + 1)
    else
      match ParseItems(k, t, p + 1, e)
      case Fail => Fail
      case Done(items, n) => Done(Full(k, items), n)
  }

  // The items from `p` to the closing bracket of their container.
  ghost function ParseItems(k: Kind, t: string, p: nat, e: nat): (r: Parsed<Items>)
    requires p <= e <= |t|
    ensures r.Done? ==> p < r.next <= e
    decreases e - p, 2
  {
    match ParseItem(k, t, p, e)
    case Fail => Fail
    case Done(item, d) =>
      if d == e then Fail
      else if t[d] == Close(k) then Done(Last(item), d + 1)
      else if t[d] == ',' then
        match ParseItems(k, t, d + 1, e)
        case Fail => Fail
        case Done(rest, n) => Done(More(item, rest), n)
      else Fail
  }

  ghost function ParseItem(k: Kind, t: string, p: nat, e: nat): (r: Parsed<Item>)
    requires p <= e <= |t|
    ensures r.Done? ==> p < r.next <= e
    decreases e - p, 1
  {
    match ParseHead(k, t, p, e)
    case Fail => Fail
    case Done(head, v) =>
      match ParseNode(t, v, e)
      case Fail => Fail
      case Done(value, n) =>
        var d := Scan(Blanks, t, n, e);
        Done(Item(head, value, t[n..d]), d)
  }

  // ------------------------------------------------------------- parsing is sound

  lemma HereSplit(t: string, p: nat, a: string, b: string)
    ensures Here(t, p, a + b) <==> Here(t, p, a) && Here(t, p + |a|, b)
  {
    if p + |a| + |b| <= |t| {
      assert t[p..p + |a + b|] == t[p..p + |a|] + t[p + |a|..p + |a| + |b|];
      if Here(t, p, a + b) {
        assert a == (a + b)[..|a|] && b == (a + b)[|a|..];
      }
    }
  }

  lemma HereFits(t: string, p: nat, x: string)
    requires Here(t, p, x)
    ensures p + |x| <= |t| && t[p..p + |x|] == x
  {
  }

  lemma HereChar(t: string, p: nat, c: char)
    ensures Here(t, p, [c]) <==> p < |t| && t[p] == c
  {
    if p < |t| {
      assert t[p..p + 1] == [t[p]];
    }
  }

  lemma HereSlice(t: string, p: nat, q: nat)
    requires p <= q <= |t|
    ensures Here(t, p, t[p..q])
  {
  }

  // What was parsed is well formed and its printed form is what was read.
  lemma {:induction false} NodeSound(t: string, p: nat, e: nat)
    requires p <= e <= |t| && ParseNode(t, p, e).Done?
    ensures var r := ParseNode(t, p, e);
            NodeOk(r.value) && Here(t, p, Print(r.value)) && p + |Print(r.value)| == r.next
    decreases e - p, 0
  {
    hide Scan, Here, AllIn;
    if t[p] == '"' {
      StrSound(t, p, e);
    } else if NumStart(t[p]) {
      NumSound(t, p, e);
    } else {
      ContainerSound(if t[p] == '{' then Curly else Square, t, p, e);
    }
  }

  lemma StrSound(t: string, p: nat, e: nat)
    requires p < e <= |t| && t[p] == '"' && ParseNode(t, p, e).Done?
    ensures var r := ParseNode(t, p, e);
            NodeOk(r.value) && Here(t, p, Print(r.value)) && p + |Print(r.value)| == r.next
  {
    hide Scan, Here, AllIn;
    var q := Scan(Plains, t, p + 1, e);
    var s := t[p + 1..q];
    HereSlice(t, p + 1, q);
    HereChar(t, p, '"');
    HereChar(t, q, '"');
    HereSplit(t, p, ['"'], s);
    HereSplit(t, p, ['"'] + s, ['"']);
  }

  lemma NumSound(t: string, p: nat, e: nat)
    requires p < e <= |t| && t[p] != '"' && NumStart(t[p])
    ensures var r := ParseNode(t, p, e);
            r.Done? && NodeOk(r.value) && Here(t, p, Print(r.value)) && p + |Print(r.value)| == r.next
  {
    hide Scan, Here, AllIn;
    var q := Scan(Digits, t, p + 1, e);
    HereSlice(t, p, q);
    assert t[p..q][1..] == t[p + 1..q];
  }

  lemma {:induction false} ContainerSound(k: Kind, t: string, p: nat, e: nat)
    requires p < e <= |t| && t[p] == Open(k) && ParseContainer(k, t, p, e).Done?
    ensures var r := ParseContainer(k, t, p, e);
            NodeOk(r.value) && Here(t, p, Print(r.value)) && p + |Print(r.value)| == r.next
    decreases e - p - 1, 3
  {
    hide Scan, ParseItems, ItemsOk, PrintItems, Here, AllIn;
    var n := ParseContainer(k, t, p, e).value;
    var body := if n.Empty? then n.gap else PrintItems(n.items);
    if n.Full? {
      ItemsSound(k, t, p + 1, e);
      HereSplit(t, p + 1, body, [Close(k)]);
    } else {
      HereSlice(t, p + 1, p + 1 + |body|);
      HereChar(t, p + 1 + |body|, Close(k));
    }
    HereChar(t, p, Open(k));
    HereSplit(t, p, [Open(k)], body);
    HereSplit(t, p, [Open(k)] + body, [Close(k)]);
  }

  lemma {:induction false} ItemsSound(k: Kind, t: string, p: nat, e: nat)
    requires p <= e <= |t| && ParseItems(k, t, p, e).Done?
    ensures var r := ParseItems(k, t, p, e);
            ItemsOk(k, r.value) && Here(t, p, PrintItems(r.value) + [Close(k)])
            && p + |PrintItems(r.value)| + 1 == r.next
    decreases e - p, 2
  {
    hide Scan, ParseItem, ItemOk, PrintItem, Here;
    ItemSound(k, t, p, e);
    var i := ParseItem(k, t, p, e).value;
    var d := ParseItem(k, t, p, e).next;
    if t[d] == Close(k) {
      HereChar(t, d, Close(k));
      HereSplit(t, p, PrintItem(i), [Close(k)]);
    } else {
      ItemsSound(k, t, d + 1, e);
      var rest := ParseItems(k, t, d + 1, e).value;
      HereChar(t, d, ',');
      HereSplit(t, p, PrintItem(i), [',']);
      HereSplit(t, d + 1, PrintItems(rest), [Close(k)]);
      HereSplit(t, p, PrintItem(i) + [','], PrintItems(rest));
      HereSplit(t, p, PrintItem(i) + [','] + PrintItems(rest), [Close(k)]);
    }
  }

  lemma {:induction false} ItemSound(k: Kind, t: string, p: nat, e: nat)
    requires p <= e <= |t| && ParseItem(k, t, p, e).Done?
    ensures var r := ParseItem(k, t, p, e);
            ItemOk(k, r.value) && Here(t, p, PrintItem(r.value)) && p + |PrintItem(r.value)| == r.next
    decreases e - p, 1
  {
    hide Scan, ParseHead, ParseNode, HeadOk, NodeOk, PrintHead, Print, Here, AllIn;
    HeadSound(k, t, p, e);
    var v := ParseHead(k, t, p, e).next;
    NodeSound(t, v, e);
    var n := ParseNode(t, v, e).next;
    var i := ParseItem(k, t, p, e).value;
    HereSlice(t, n, Scan(Blanks, t, n, e));
    HereSplit(t, p, PrintHead(i.head), Print(i.value));
    HereSplit(t, p, PrintHead(i.head) + Print(i.value), i.tail);
  }

  lemma HeadSound(k: Kind, t: string, p: nat, e: nat)
    requires p <= e <= |t| && ParseHead(k, t, p, e).Done?
    ensures var r := ParseHead(k, t, p, e);
            HeadOk(k, r.value) && Here(t, p, PrintHead(r.value)) && p + |PrintHead(r.value)| == r.next
  {
    hide Scan, AllIn, Here;
    var q := Scan(Blanks, t, p, e);
    HereSlice(t, p, q);
    if k == Curly {
      KeySound(t, p, e);
    }
  }

  lemma KeySound(t: string, p: nat, e: nat)
    requires p <= e <= |t| && ParseHead(Curly, t, p, e).Done?
    ensures var r := ParseHead(Curly, t, p, e);
            HeadOk(Curly, r.value) && Here(t, p, PrintHead(r.value)) && p + |PrintHead(r.value)| == r.next
  {
    hide Scan, AllIn, Here;
    var q := Scan(Blanks, t, p, e);
    var n := Scan(Plains, t, q + 1, e);
    var c := Scan(Blanks, t, n + 1, e);
    HereSlice(t, p, q);
    HereSlice(t, q + 1, n);
    HereSlice(t, n + 1, c);
    HereSlice(t, c + 1, Scan(Blanks, t, c + 1, e));
    HereChar(t, q, '"');
    HereChar(t, n, '"');
    HereChar(t, c, ':');
    var h := ParseHead(Curly, t, p, e).value;
    KeySplit(t, p, h.b0, h.name, h.b1, h.b2);
  }

  // The pieces of a name in front of a value.
  lemma KeySplit(t: string, p: nat, b0: string, name: string, b1: string, b2: string)
    ensures Here(t, p, PrintHead(Key(b0, name, b1, b2))) <==>
            && Here(t, p, b0) && Here(t, p + |b0|, ['"']) && Here(t, p + |b0| + 1, name)
            && Here(t, p + |b0| + 1 + |name|, ['"']) && Here(t, p + |b0| + |name| + 2, b1)
            && Here(t, p + |b0| + |name| + 2 + |b1|, [':']) && Here(t, p + |b0| + |name| + |b1| + 3, b2)
  {
    hide Here;
    HereSplit(t, p, b0, ['"']);
    HereSplit(t, p, b0 + ['"'], name);
    HereSplit(t, p, b0 + ['"'] + name, ['"']);
    HereSplit(t, p, b0 + ['"'] + name + ['"'], b1);
    HereSplit(t, p, b0 + ['"'] + name + ['"'] + b1, [':']);
    HereSplit(t, p, b0 + ['"'] + name + ['"'] + b1 + [':'], b2);
  }

  // ------------------------------------------------------------- parsing is complete

  // A printed tree parses to itself; a number needs something after it that ends it.
  lemma {:induction false} NodeComplete(t: string, p: nat, e: nat, n: Node)
    requires NodeOk(n) && Here(t, p, Print(n)) && p + |Print(n)| <= e <= |t|
    requires n.Num? && p + |Print(n)| < e ==> !In(Digits, t[p + |Print(n)|])
    ensures ParseNode(t, p, e) == Done(n, p + |Print(n)|)
    decreases n
  {
    hide AllIn, Here;
    match n
    case Str(s) => StrComplete(t, p, e, s);
    case Num(s) => NumComplete(t, p, e, s);
    case Empty(k, _) => ContainerComplete(k, t, p, e, n);
    case Full(k, _) => ContainerComplete(k, t, p, e, n);
  }

  lemma StrComplete(t: string, p: nat, e: nat, s: string)
    requires AllIn(Plains, s) && Here(t, p, ['"'] + s + ['"']) && p + |s| + 2 <= e <= |t|
    ensures ParseNode(t, p, e) == Done(Str(s), p + |s| + 2)
  {
    hide Scan, Here, AllIn;
    HereSplit(t, p, ['"'] + s, ['"']);
    HereSplit(t, p, ['"'], s);
    HereFits(t, p + 1, s);
    HereChar(t, p, '"');
    HereChar(t, p + 1 + |s|, '"');
    ScanHere(Plains, t, p + 1, e, s);
  }

  lemma NumComplete(t: string, p: nat, e: nat, s: string)
    requires NodeOk(Num(s)) && Here(t, p, s) && p + |s| <= e <= |t|
    requires p + |s| < e ==> !In(Digits, t[p + |s|])
    ensures ParseNode(t, p, e) == Done(Num(s), p + |s|)
  {
    hide Scan, Here, AllIn;
    assert s == [s[0]] + s[1..];
    HereSplit(t, p, [s[0]], s[1..]);
    HereFits(t, p, s);
    HereChar(t, p, s[0]);
    ScanHere(Digits, t, p + 1, e, s[1..]);
  }

  lemma {:induction false} ContainerComplete(k: Kind, t: string, p: nat, e: nat, n: Node)
    requires (n.Empty? || n.Full?) && n.k == k
    requires NodeOk(n) && Here(t, p, Print(n)) && p + |Print(n)| <= e <= |t|
    ensures t[p] == Open(k) && ParseContainer(k, t, p, e) == Done(n, p + |Print(n)|)
    decreases n, 0
  {
    hide Scan, ParseItems, ItemsOk, PrintItems, Here, AllIn;
    var body := if n.Empty? then n.gap else PrintItems(n.items);
    HereFits(t, p, Print(n));
    HereSplit(t, p + 1, body, [Close(k)]);
    HereSplit(t, p, [Open(k)] + body, [Close(k)]);
    HereSplit(t, p, [Open(k)], body);
    HereChar(t, p, Open(k));
    HereChar(t, p + 1 + |body|, Close(k));
    HereFits(t, p + 1, body);
    if n.Empty? {
      ScanHere(Blanks, t, p + 1, e, body);
    } else {
      ItemsComplete(k, t, p + 1, e, n.items);
      FirstNotClose(k, t, p + 1, e);
    }
  }

  lemma FirstNotClose(k: Kind, t: string, p: nat, e: nat)
    requires p <= e <= |t| && ParseItems(k, t, p, e).Done?
    ensures var q := Scan(Blanks, t, p, e); q < e && t[q] != Close(k)
  {
    hide Scan, ParseContainer;
    var q := Scan(Blanks, t, p, e);
    assert ParseItem(k, t, p, e).Done?;
    assert ParseHead(k, t, p, e).Done?;
    if k == Square {
      assert ParseNode(t, q, e).Done?;
    }
  }

  lemma {:induction false} ItemsComplete(k: Kind, t: string, p: nat, e: nat, xs: Items)
    requires ItemsOk(k, xs) && Here(t, p, PrintItems(xs) + [Close(k)]) && p + |PrintItems(xs)| + 1 <= e <= |t|
    ensures ParseItems(k, t, p, e) == Done(xs, p + |PrintItems(xs)| + 1)
    decreases xs
  {
    hide Scan, ParseItem, ItemOk, PrintItem, Here;
    HereSplit(t, p, PrintItems(xs), [Close(k)]);
    HereChar(t, p + |PrintItems(xs)|, Close(k));
    match xs
    case Last(item) =>
      ItemComplete(k, t, p, e, item);
    case More(item, rest) =>
      var d := p + |PrintItem(item)|;
      HereSplit(t, p, PrintItem(item) + [','], PrintItems(rest));
      HereSplit(t, p, PrintItem(item), [',']);
      HereChar(t, d, ',');
      HereSplit(t, d + 1, PrintItems(rest), [Close(k)]);
      ItemComplete(k, t, p, e, item);
      ItemsComplete(k, t, d + 1, e, rest);
  }

  lemma {:induction false} ItemComplete(k: Kind, t: string, p: nat, e: nat, i: Item)
    requires ItemOk(k, i) && Here(t, p, PrintItem(i)) && p + |PrintItem(i)| < e <= |t|
    requires t[p + |PrintItem(i)|] == ',' || t[p + |PrintItem(i)|] == Close(k)
    ensures ParseItem(k, t, p, e) == Done(i, p + |PrintItem(i)|)
    decreases i
  {
    hide Scan, ParseHead, ParseNode, HeadOk, NodeOk, PrintHead, Print, Here;
    HereSplit(t, p, PrintHead(i.head) + Print(i.value), i.tail);
    HereSplit(t, p, PrintHead(i.head), Print(i.value));
    var v := p + |PrintHead(i.head)|;
    var n := v + |Print(i.value)|;
    NodeFirst(i.value);
    HereFits(t, v, Print(i.value));
    HereFits(t, n, i.tail);
    assert t[v] == t[v..n][0];
    HeadComplete(k, t, p, e, i.head);
    if i.tail != "" {
      assert t[n] == t[n..n + |i.tail|][0];
    }
    NodeComplete(t, v, e, i.value);
    ScanHere(Blanks, t, n, e, i.tail);
  }

  lemma NodeFirst(n: Node)
    requires NodeOk(n)
    ensures Print(n) != "" && !In(Blanks, Print(n)[0]) && Print(n)[0] != ']' && Print(n)[0] != '}'
  {
  }

  lemma HeadComplete(k: Kind, t: string, p: nat, e: nat, h: Head)
    requires HeadOk(k, h) && Here(t, p, PrintHead(h)) && p + |PrintHead(h)| < e <= |t|
    requires !In(Blanks, t[p + |PrintHead(h)|])
    ensures ParseHead(k, t, p, e) == Done(h, p + |PrintHead(h)|)
  {
    if h.Gap? {
      ScanHere(Blanks, t, p, e, h.b0);
    } else {
      KeyComplete(t, p, e, h);
    }
  }

  lemma KeyComplete(t: string, p: nat, e: nat, h: Head)
    requires h.Key? && HeadOk(Curly, h) && Here(t, p, PrintHead(h)) && p + |PrintHead(h)| < e <= |t|
    requires !In(Blanks, t[p + |PrintHead(h)|])
    ensures ParseHead(Curly, t, p, e) == Done(h, p + |PrintHead(h)|)
  {
    hide Scan, Here, AllIn;
    var q := p + |h.b0|;
    var n := q + 1 + |h.name|;
    var c := n + 1 + |h.b1|;
    KeySplit(t, p, h.b0, h.name, h.b1, h.b2);
    HereFits(t, p, h.b0);
    HereFits(t, q + 1, h.name);
    HereFits(t, n + 1, h.b1);
    HereFits(t, c + 1, h.b2);
    HereChar(t, q, '"');
    HereChar(t, n, '"');
    HereChar(t, c, ':');
    ScanHere(Blanks, t, p, e, h.b0);
    ScanHere(Plains, t, q + 1, e, h.name);
    ScanHere(Blanks, t, n + 1, e, h.b1);
    ScanHere(Blanks, t, c + 1, e, h.b2);
  }
}
