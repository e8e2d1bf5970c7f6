/**
 * The JSON reader: the validators of JSONP and JSONP_ARRAY, which check nested
 * values on slices cut out by bracket counting, and the cursor walkers, which
 * trust those slices and never look inside them.
 */
module JsonReader {
  import opened JsonGrammar
  import opened JsonBrackets
  import opened JsonEntries

  const OUT_OF_BOUNDARY := -8
  const EMPTY := -7
  const PAIR_FOUND := -6
  const PAIR_NOT_FOUND := -5
  const FOUND := -4
  const NOT_FOUND := -3
  const TYPE_MISMATCH := -2
  const NO_ERR := -1

  // What one turn of a validator's loop came to: an error position, the end of an
  // empty container, a comma, or the closing bracket.
  datatype Turn = Bad(code: nat) | Ended | Another(next: nat) | Closed(next: nat)

  // ------------------------------------------------------------- scanning

  method ScanRun(run: Run, t: string, p: nat, e: int) returns (q: nat)
    requires e <= |t|
    ensures q == if p <= e then Scan(run, t, p, e) else p
  {
    q := p;
    while q < e && In(run, t[q])
      invariant p <= e ==> q <= e && Scan(run, t, q, e) == Scan(run, t, p, e)
      invariant p > e ==> q == p
    {
      q := q + 1;
    }
  }

  method FindEnd(k: Kind, t: string, p: nat) returns (r: Option<nat>)
    requires p <= |t|
    ensures r == End(k, t, p)
  {
    var paired := 0;
    var q := p;
    while q < |t|
      invariant p <= q <= |t|
      invariant EndFrom(k, t, q, paired) == End(k, t, p)
    {
      if t[q] == Open(k) {
        paired := paired + 1;
      }
      if t[q] == Close(k) {
        paired := paired - 1;
        if paired == 0 {
          return Some(q);
        }
      }
      q := q + 1;
    }
    r := None;
  }

  // ------------------------------------------------------------- one turn, as the grammar sees it

  // An item and the comma or bracket after it.
  ghost predicate Continues(k: Kind, t: string, p: nat, e: nat)
    requires p <= e <= |t|
  {
    var r := ParseItem(k, t, p, e);
    r.Done? && r.next < e && (t[r.next] == ',' || t[r.next] == Close(k))
  }

  ghost predicate EndsEmpty(k: Kind, t: string, p: nat, e: nat, first: bool)
    requires p <= e <= |t|
  {
    var q := Scan(Blanks, t, p, e);
    first && q < e && t[q] == Close(k)
  }

  ghost predicate TurnOk(k: Kind, t: string, p: nat, e: nat, first: bool, r: Turn)
    requires p <= e <= |t|
  {
    match r
    case Ended => EndsEmpty(k, t, p, e, first)
    case Bad(_) => !EndsEmpty(k, t, p, e, first) && !Continues(k, t, p, e)
    case Another(n) =>
      !EndsEmpty(k, t, p, e, first) && Continues(k, t, p, e)
      && n == ParseItem(k, t, p, e).next + 1 && t[n - 1] == ','
    case Closed(n) =>
      !EndsEmpty(k, t, p, e, first) && Continues(k, t, p, e)
      && n == ParseItem(k, t, p, e).next + 1 && t[n - 1] == Close(k)
  }

  // From `p` on the text is what the container still needs.
  ghost predicate Remains(k: Kind, t: string, p: nat, e: nat, first: bool)
    requires p <= e <= |t|
  {
    EndsEmpty(k, t, p, e, first)
    || (ParseItems(k, t, p, e).Done? && Scan(Blanks, t, ParseItems(k, t, p, e).next, e) == e)
  }

  lemma RemainsStep(k: Kind, t: string, p: nat, e: nat, first: bool, r: Turn)
    requires p <= e <= |t| && TurnOk(k, t, p, e, first, r)
    ensures r.Bad? ==> !Remains(k, t, p, e, first)
    ensures r.Ended? ==> Remains(k, t, p, e, first)
    ensures r.Another? ==> r.next <= e && (Remains(k, t, p, e, first) <==> Remains(k, t, r.next, e, false))
    ensures r.Closed? ==> r.next <= e && (Remains(k, t, p, e, first) <==> Scan(Blanks, t, r.next, e) == e)
  {
    hide Scan, ParseItem;
  }

  lemma AcceptRemains(k: Kind, t: string, s: nat, e: nat)
    requires s <= e <= |t|
    ensures var q := Scan(Blanks, t, s, e);
            Accept(k, t, s, e - s) <==> q < e && t[q] == Open(k) && Remains(k, t, q + 1, e, true)
  {
    hide Scan, ParseItems;
    var q := Scan(Blanks, t, s, e);
    if q < e && t[q] == Open(k) && ParseItems(k, t, q + 1, e).Done? {
      FirstNotClose(k, t, q + 1, e);
    }
  }

  // A number is followed by a character that ends it: skipping a blank more makes no difference.
  lemma ScanPast(t: string, q: nat, e: nat)
    requires q < e <= |t| && In(Blanks, t[q])
    ensures Scan(Blanks, t, q + 1, e) == Scan(Blanks, t, q, e)
  {
  }

  // ------------------------------------------------------------- the value of an item

  datatype Value = BadValue(code: nat) | GoodValue(next: nat)

  // A delimiter follows the blanks from `n` on.
  ghost predicate Delimited(k: Kind, t: string, n: nat, e: nat)
    requires n <= e <= |t|
  {
    var d := Scan(Blanks, t, n, e);
    d < e && (t[d] == ',' || t[d] == Close(k))
  }

  ghost predicate ValueOk(k: Kind, t: string, v: nat, e: nat, r: Value)
    requires v <= e <= |t|
  {
    var n := ParseNode(t, v, e);
    match r
    case GoodValue(next) =>
      n.Done? && n.next <= next <= e && Scan(Blanks, t, next, e) == Scan(Blanks, t, n.next, e)
    case BadValue(_) => n.Done? ==> !Delimited(k, t, n.next, e)
  }

  predicate NumEnd(k: Kind, c: char) {
    c == ',' || c == '}' || (k == Square && c == ']') || In(Blanks, c)
  }

  method CheckNumber(k: Kind, t: string, s: nat, e: nat, v: nat) returns (r: Value)
    requires s <= v < e <= |t| && NumStart(t[v])
    ensures ValueOk(k, t, v, e, r)
  {
    var q := ScanRun(Digits, t, v + 1, e);
    if q == e || !NumEnd(k, t[q]) {
      return BadValue(q - s + 1);
    }
    if In(Blanks, t[q]) {
      ScanPast(t, q, e);
      r := GoodValue(q + 1);
    } else {
      r := GoodValue(q);
    }
  }

  method CheckText(k: Kind, t: string, s: nat, e: nat, v: nat) returns (r: Value)
    requires s <= v < e <= |t| && t[v] == '"'
    ensures ValueOk(k, t, v, e, r)
  {
    if v + 1 == e {
      return BadValue(v + 1 - s + 1);
    }
    var q := ScanRun(Plains, t, v + 1, e);
    if q == e || t[q] != '"' {
      return BadValue(q - s + 1);
    }
    r := GoodValue(q + 1);
  }

  // A nested container is checked on its own slice; one without an end gets a
  // negative length, which no check accepts.
  method CheckNested(k: Kind, t: string, s: nat, e: nat, v: nat, inner: Kind) returns (r: Value)
    requires s < v < e <= |t| && Bounded(t, s, e - s) && t[v] == Open(inner)
    ensures ValueOk(k, t, v, e, r)
    decreases |t| - s, 0
  {
    hide Scan, ParseNode, ParseContainer, Accept, Bounded, Contents, End, JsonArray.Valid;
    NestedAgrees(t, s, e, inner, v);
    NestedIs(t, v, e, inner);
    var end := FindEnd(inner, t, v);
    var len := if end.Some? then end.value + 1 - v else -1;
    NestedBounded(inner, t, s, e, v);
    AcceptLen(inner, t, v, len);
    var res;
    if inner == Curly {
      var o := new JsonObject(t, v, len);
      res := o.err;
      if k == Curly {
        res := o.SyntaxCheck();
      }
    } else {
      var a := new JsonArray(t, v, len);
      res := a.err;
      if k == Square {
        res := a.SyntaxCheck();
      }
    }
    if res > NO_ERR {
      return BadValue(v - s + res);
    }
    r := GoodValue(end.value + 1);
  }

  lemma AcceptLen(k: Kind, t: string, s: nat, len: int)
    ensures Accept(k, t, s, len) ==> 0 <= len && s + len <= |t|
  {
  }

  lemma NestedIs(t: string, v: nat, e: nat, inner: Kind)
    requires v < e <= |t| && t[v] == Open(inner)
    ensures ParseNode(t, v, e) == ParseContainer(inner, t, v, e)
  {
  }

  lemma NestedBounded(k: Kind, t: string, s: nat, e: nat, v: nat)
    requires s <= e && Bounded(t, s, e - s) && v < |t| && t[v] == Open(k)
    ensures var end := End(k, t, v);
            Bounded(t, v, if end.Some? then end.value + 1 - v else -1)
  {
    hide End;
    EndCloses(k, t, v);
  }

  method CheckValue(k: Kind, t: string, s: nat, e: nat, v: nat) returns (r: Value)
    requires s < v <= e <= |t| && Bounded(t, s, e - s)
    requires v < e ==> !In(Blanks, t[v])
    ensures ValueOk(k, t, v, e, r)
    decreases |t| - s, 1
  {
    if v == e {
      r := BadValue(v - s + 1);
    } else if t[v] == '"' {
      r := CheckText(k, t, s, e, v);
    } else if NumStart(t[v]) {
      r := CheckNumber(k, t, s, e, v);
    } else if t[v] == '{' {
      r := CheckNested(k, t, s, e, v, Curly);
    } else if t[v] == '[' {
      r := CheckNested(k, t, s, e, v, Square);
    } else {
      r := BadValue(v - s + 1);
    }
  }

  lemma ScanEmpty(run: Run, t: string, p: nat, e: nat)
    requires p <= e <= |t|
    ensures Scan(run, t, p, e) == p <==> p == e || !In(run, t[p])
  {
  }

  // The name of a pair up to the first character of its value.
  method CheckName(t: string, s: nat, e: nat, p: nat) returns (r: Value)
    requires s <= p <= e <= |t|
    ensures var h := ParseHead(Curly, t, p, e);
            h.Done? == r.GoodValue? && (h.Done? ==> h.next == r.next)
  {
    hide Scan, AllIn;
    var q := ScanRun(Blanks, t, p, e);
    if q == e || t[q] != '"' {
      return BadValue(q - s + 1);
    }
    ScanEmpty(Plains, t, q + 1, e);
    if q + 1 == e || t[q + 1] == '"' || Mark(t[q + 1]) {
      return BadValue(q + 1 - s + 1);
    }
    var n := ScanRun(Plains, t, q + 1, e);
    if n == e || t[n] != '"' {
      return BadValue(n - s + 1);
    }
    var c := ScanRun(Blanks, t, n + 1, e);
    if c == e || t[c] != ':' {
      return BadValue(c - s + 1);
    }
    var v := ScanRun(Blanks, t, c + 1, e);
    r := GoodValue(v);
  }

  // The comma or bracket after a value.
  method CheckDelimiter(k: Kind, t: string, s: nat, e: nat, p: nat) returns (r: Turn)
    requires s <= p <= e <= |t|
    ensures var d := Scan(Blanks, t, p, e);
            !r.Ended? && (r.Bad? <==> !Delimited(k, t, p, e))
            && (r.Another? ==> r.next == d + 1 && t[d] == ',') && (r.Closed? ==> r.next == d + 1 && t[d] == Close(k))
  {
    var d := ScanRun(Blanks, t, p, e);
    if d == e {
      r := Bad(d - s + 1);
    } else if t[d] == Close(k) {
      r := Closed(d + 1);
    } else if t[d] == ',' {
      r := Another(d + 1);
    } else {
      r := Bad(d - s + 1);
    }
  }

  lemma ItemTurn(k: Kind, t: string, p: nat, e: nat)
    requires p <= e <= |t|
    ensures Continues(k, t, p, e) <==>
            var h := ParseHead(k, t, p, e);
            h.Done? && var n := ParseNode(t, h.next, e); n.Done? && Delimited(k, t, n.next, e)
    ensures Continues(k, t, p, e) ==>
            ParseItem(k, t, p, e).next == Scan(Blanks, t, ParseNode(t, ParseHead(k, t, p, e).next, e).next, e)
  {
    hide Scan, ParseHead, ParseNode;
  }

  lemma HeadStops(k: Kind, t: string, p: nat, e: nat)
    requires p <= e <= |t| && ParseHead(k, t, p, e).Done?
    ensures var v := ParseHead(k, t, p, e).next; v < e ==> !In(Blanks, t[v])
  {
    hide Scan;
  }

  // Value and delimiter of an item whose value starts at `v`.
  method CheckRest(k: Kind, t: string, s: nat, e: nat, p: nat, v: nat, first: bool) returns (r: Turn)
    requires s < p <= v <= e <= |t| && Bounded(t, s, e - s)
    requires ParseHead(k, t, p, e).Done? && ParseHead(k, t, p, e).next == v
    requires !EndsEmpty(k, t, p, e, first)
    ensures TurnOk(k, t, p, e, first, r)
    decreases |t| - s, 2
  {
    hide Scan, ParseNode, ParseHead;
    ItemTurn(k, t, p, e);
    HeadStops(k, t, p, e);
    var w := CheckValue(k, t, s, e, v);
    if w.BadValue? {
      return Bad(w.code);
    }
    r := CheckDelimiter(k, t, s, e, w.next);
  }

  // One turn of the object loop.
  method CheckPair(t: string, s: nat, e: nat, p: nat, first: bool) returns (r: Turn)
    requires s < p <= e <= |t| && Bounded(t, s, e - s)
    ensures TurnOk(Curly, t, p, e, first, r)
    decreases |t| - s, 3
  {
    hide Scan, ParseNode;
    var q := ScanRun(Blanks, t, p, e);
    if first && q < e && t[q] == '}' {
      return Ended;
    }
    ItemTurn(Curly, t, p, e);
    var h := CheckName(t, s, e, p);
    if h.BadValue? {
      return Bad(h.code);
    }
    r := CheckRest(Curly, t, s, e, p, h.next, first);
  }

  // One turn of the array loop.
  method CheckElem(t: string, s: nat, e: nat, p: nat, first: bool) returns (r: Turn)
    requires s < p <= e <= |t| && Bounded(t, s, e - s)
    ensures TurnOk(Square, t, p, e, first, r)
    decreases |t| - s, 3
  {
    hide Scan, ParseNode;
    var v := ScanRun(Blanks, t, p, e);
    if first && v < e && t[v] == ']' {
      return Ended;
    }
    r := CheckRest(Square, t, s, e, p, v, first);
  }

  // ------------------------------------------------------------- walking over a value

  // A value the walker went over: its text is t[from..from + len], and `next` is
  // where it looks for the delimiter.
  datatype Skipped = NoValue | Skipped(kind: ValueKind, from: nat, len: nat, next: nat)

  ghost predicate SkipOk(k: Kind, t: string, v: nat, e: nat, r: Skipped)
    requires v <= e <= |t|
  {
    var n := ParseNode(t, v, e);
    (r.Skipped? ==> v < r.next) &&
    (n.Done? && Delimited(k, t, n.next, e) ==>
      && r.Skipped? && r.kind == KindOf(n.value)
      && r.from + r.len <= |t| && t[r.from..r.from + r.len] == TextOf(n.value)
      && n.next <= r.next <= e && Scan(Blanks, t, r.next, e) == Scan(Blanks, t, n.next, e))
  }

  method SkipNumber(k: Kind, t: string, e: nat, v: nat) returns (r: Skipped)
    requires v < e <= |t| && NumStart(t[v])
    ensures SkipOk(k, t, v, e, r)
  {
    hide Scan;
    ValueTextIf(t, v, e);
    var q := ScanRun(Digits, t, v + 1, e);
    DelimitedEnds(k, t, q, e);
    if q == e || !NumEnd(k, t[q]) {
      return NoValue;
    }
    if In(Blanks, t[q]) {
      ScanPast(t, q, e);
      r := Skipped(Number, v, q - v, q + 1);
    } else {
      r := Skipped(Number, v, q - v, q);
    }
  }

  lemma ValueTextIf(t: string, v: nat, e: nat)
    requires v <= e <= |t|
    ensures var r := ParseNode(t, v, e);
            r.Done? ==>
            && (r.value.Str? ==> r.next >= v + 2 && TextOf(r.value) == t[v + 1..r.next - 1])
            && (!r.value.Str? ==> TextOf(r.value) == t[v..r.next])
  {
    if ParseNode(t, v, e).Done? {
      ValueText(t, v, e);
    }
  }

  lemma DelimitedEnds(k: Kind, t: string, q: nat, e: nat)
    requires q <= e <= |t|
    ensures Delimited(k, t, q, e) ==> q < e && NumEnd(k, t[q])
  {
    ScanEmpty(Blanks, t, q, e);
  }

  method SkipText(k: Kind, t: string, e: nat, v: nat) returns (r: Skipped)
    requires v < e <= |t| && t[v] == '"'
    ensures SkipOk(k, t, v, e, r)
  {
    hide Scan;
    ValueTextIf(t, v, e);
    if v + 1 == e {
      return NoValue;
    }
    var q := ScanRun(Plains, t, v + 1, e);
    if q == e || t[q] != '"' {
      return NoValue;
    }
    r := Skipped(Text, v + 1, q - (v + 1), q + 1);
  }

  method SkipNested(k: Kind, t: string, s: nat, e: nat, v: nat, inner: Kind) returns (r: Skipped)
    requires s < v < e <= |t| && Bounded(t, s, e - s) && t[v] == Open(inner)
    ensures SkipOk(k, t, v, e, r)
  {
    hide Scan, ParseContainer;
    NestedAgrees(t, s, e, inner, v);
    NestedIs(t, v, e, inner);
    NestedKind(inner, t, v, e);
    ValueTextIf(t, v, e);
    var end := FindEnd(inner, t, v);
    if end.None? {
      return NoValue;
    }
    r := Skipped(if inner == Curly then Object else Array, v, end.value + 1 - v, end.value + 1);
  }

  lemma NestedKind(k: Kind, t: string, v: nat, e: nat)
    requires v < e <= |t|
    ensures ParseContainer(k, t, v, e).Done? ==>
            var n := ParseContainer(k, t, v, e).value; (n.Empty? || n.Full?) && n.k == k
  {
  }

  method SkipValue(k: Kind, t: string, s: nat, e: nat, v: nat) returns (r: Skipped)
    requires s < v <= e <= |t| && Bounded(t, s, e - s)
    ensures SkipOk(k, t, v, e, r)
  {
    if v == e {
      r := NoValue;
    } else if t[v] == '"' {
      r := SkipText(k, t, e, v);
    } else if NumStart(t[v]) {
      r := SkipNumber(k, t, e, v);
    } else if t[v] == '{' {
      r := SkipNested(k, t, s, e, v, Curly);
    } else if t[v] == '[' {
      r := SkipNested(k, t, s, e, v, Square);
    } else {
      r := NoValue;
    }
  }

  datatype NameRead = NoName | NameAt(from: nat, len: nat, next: nat)

  method FindName(t: string, e: nat, p: nat) returns (r: NameRead)
    requires p <= e <= |t|
    ensures var h := ParseHead(Curly, t, p, e);
            h.Done? == r.NameAt?
            && (h.Done? ==> h.next == r.next && r.from + r.len <= |t| && t[r.from..r.from + r.len] == h.value.name)
  {
    hide Scan, AllIn;
    var q := ScanRun(Blanks, t, p, e);
    if q == e || t[q] != '"' {
      return NoName;
    }
    ScanEmpty(Plains, t, q + 1, e);
    if q + 1 == e || t[q + 1] == '"' || Mark(t[q + 1]) {
      return NoName;
    }
    var n := ScanRun(Plains, t, q + 1, e);
    if n == e || t[n] != '"' {
      return NoName;
    }
    var c := ScanRun(Blanks, t, n + 1, e);
    if c == e || t[c] != ':' {
      return NoName;
    }
    var v := ScanRun(Blanks, t, c + 1, e);
    r := NameAt(q + 1, n - (q + 1), v);
  }

  // A place between pairs: either pairs follow, or no quote does.
  ghost predicate Settled(t: string, c: nat, e: nat)
    requires c <= e <= |t|
  {
    ParseItems(Curly, t, c, e).Done? || !ParseHead(Curly, t, c, e).Done?
  }

  lemma SettledParts(t: string, c: nat, e: nat)
    requires c <= e <= |t| && Settled(t, c, e)
    ensures ParseItems(Curly, t, c, e).Done? <==> ParseHead(Curly, t, c, e).Done?
    ensures ParseHead(Curly, t, c, e).Done? ==>
            var n := ParseNode(t, ParseHead(Curly, t, c, e).next, e);
            n.Done? && Delimited(Curly, t, n.next, e)
            && var i := ParseItem(Curly, t, c, e);
            i.Done? && i.next == Scan(Blanks, t, n.next, e) && i.value.head == ParseHead(Curly, t, c, e).value
            && i.value.value == n.value
  {
    hide Scan, ParseHead, ParseNode;
  }

  // A place between pairs, or after the last one with only blanks to come.
  ghost predicate Between(t: string, c: nat, e: nat)
    requires c <= e <= |t|
  {
    Settled(t, c, e)
    && (ParseItems(Curly, t, c, e).Done? ==> Scan(Blanks, t, ParseItems(Curly, t, c, e).next, e) == e)
  }

  lemma OpenBetween(t: string, s: nat, e: nat)
    requires s <= e <= |t| && Accept(Curly, t, s, e - s)
    ensures var q := Scan(Blanks, t, s, e); q < e && Between(t, q + 1, e)
  {
    hide Scan, ParseItems;
    var q := Scan(Blanks, t, s, e);
    if ParseItems(Curly, t, q + 1, e).Done? {
      FirstNotClose(Curly, t, q + 1, e);
    }
  }

  // The first pair from a place between pairs, and the place after it.
  lemma FromFirst(t: string, c: nat, e: nat)
    requires c <= e <= |t| && Between(t, c, e)
    ensures From(Curly, t, c, e) == [] <==> !ParseHead(Curly, t, c, e).Done?
    ensures ParseHead(Curly, t, c, e).Done? ==>
            var h := ParseHead(Curly, t, c, e);
            var n := ParseNode(t, h.next, e);
            && n.Done? && Delimited(Curly, t, n.next, e)
            && var d := Scan(Blanks, t, n.next, e);
               Between(t, d + 1, e)
               && From(Curly, t, c, e) == [Entry(h.value.name, KindOf(n.value), TextOf(n.value))] + From(Curly, t, d + 1, e)
  {
    hide Scan, ParseHead, ParseNode, ParseItem, ParseItems;
    SettledParts(t, c, e);
    HeadIsKey(t, c, e);
    if ParseItems(Curly, t, c, e).Done? {
      SettledNext(t, c, e);
    }
  }

  lemma HeadIsKey(t: string, c: nat, e: nat)
    requires c <= e <= |t|
    ensures ParseHead(Curly, t, c, e).Done? ==> ParseHead(Curly, t, c, e).value.Key?
  {
  }

  // After the delimiter of a pair the walker stands between pairs again.
  lemma SettledNext(t: string, c: nat, e: nat)
    requires c <= e <= |t| && ParseItems(Curly, t, c, e).Done?
    requires Scan(Blanks, t, ParseItems(Curly, t, c, e).next, e) == e
    ensures var d := ParseItem(Curly, t, c, e).next;
            ParseItem(Curly, t, c, e).Done? && d < e && Settled(t, d + 1, e)
            && From(Curly, t, c, e) == [EntryOf(ParseItem(Curly, t, c, e).value)] + From(Curly, t, d + 1, e)
            && (ParseItems(Curly, t, d + 1, e).Done? ==> Scan(Blanks, t, ParseItems(Curly, t, d + 1, e).next, e) == e)
  {
    hide Scan, ParseItem;
    FromStep(Curly, t, c, e);
    var d := ParseItem(Curly, t, c, e).next;
    if t[d] == '}' {
      NothingAfter(t, d + 1, e);
    }
  }

  lemma NothingAfter(t: string, c: nat, e: nat)
    requires c <= e <= |t| && Scan(Blanks, t, c, e) == e
    ensures !ParseHead(Curly, t, c, e).Done? && !ParseItems(Curly, t, c, e).Done?
  {
    hide Scan;
    assert !ParseHead(Curly, t, c, e).Done?;
    assert !ParseItem(Curly, t, c, e).Done?;
  }

  lemma LookupRest(en: Entry, rest: seq<Entry>, name: string)
    requires en.name != name
    ensures Lookup([en] + rest, name) == Lookup(rest, name)
    ensures rest != [] ==> rest == [rest[0]] + rest[1..]
  {
    assert ([en] + rest)[1..] == rest;
  }

  // ------------------------------------------------------------- getters

  datatype Result<T> = Read(value: T) | Failed(code: int)

  function Digit(c: char): int { c as int - '0' as int }

  // Decimal digits, most significant first.
  function Nat(s: string): int {
    if s == "" then 0 else Nat(s[..|s| - 1]) * 10 + Digit(s[|s| - 1])
  }

  // atoi of a number without a dot.
  function Atoi(s: string): int {
    if s != "" && s[0] == '-' then -Nat(s[1..]) else Nat(s)
  }

  // What an int of the program can hold; atoi promises nothing beyond it.
  predicate Int32(i: int) { -0x8000_0000 <= i < 0x8000_0000 }

  ghost function IntOf(o: Option<Entry>): Result<int> {
    if o.None? then Failed(NOT_FOUND)
    else if o.value.kind != Number || '.' in o.value.text || |o.value.text| > 15 then Failed(TYPE_MISMATCH)
    else Read(Atoi(o.value.text))
  }

  ghost function StrOf(o: Option<Entry>, size: nat): Result<string> {
    if o.None? then Failed(NOT_FOUND)
    else if o.value.kind != Text || |o.value.text| > size then Failed(TYPE_MISMATCH)
    else Read(o.value.text)
  }

  function Zeros(n: nat): string { seq(n, _ => '\0') }

  method ReadInt(t: string, kind: ValueKind, from: nat, len: nat) returns (v: int, err: int)
    requires from + len <= |t|
    ensures match IntOf(Some(Entry("", kind, t[from..from + len])))
            case Read(i) => (Int32(i) ==> v == i) && err == NO_ERR
            case Failed(code) => v == 0 && err == code
  {
    if kind != Number {
      return 0, TYPE_MISMATCH;
    }
    var i := 0;
    while i < len
      invariant 0 <= i <= len && '.' !in t[from..from + i]
    {
      if t[from + i] == '.' {
        assert t[from..from + len][i] == '.';
        return 0, TYPE_MISMATCH;
      }
      assert t[from..from + i + 1] == t[from..from + i] + [t[from + i]];
      i := i + 1;
    }
    if len > 15 {
      return 0, TYPE_MISMATCH;
    }
    v, err := Atoi(t[from..from + len]), NO_ERR;
  }

  method CopyText(t: string, from: nat, n: nat, dest: array<char>, size: nat)
    requires from + n <= |t| && n <= size <= dest.Length
    modifies dest
    ensures dest[..size] == t[from..from + n] + Zeros(size - n)
    ensures dest[size..] == old(dest[size..])
  {
    for i := 0 to size
      invariant forall j | 0 <= j < i :: dest[j] == '\0'
      invariant dest[size..] == old(dest[size..])
    {
      dest[i] := '\0';
    }
    for i := 0 to n
      invariant forall j | 0 <= j < i :: dest[j] == t[from + j]
      invariant forall j | i <= j < size :: dest[j] == '\0'
      invariant dest[size..] == old(dest[size..])
    {
      dest[i] := t[from + i];
    }
  }

  class JsonObject {
    const t: string
    const start: nat
    const len: int
    var cursor: nat
    var curName: nat
    var curNameLen: nat
    var curType: ValueKind
    var curValue: nat
    var curValueLen: nat
    var err: int

    // The cursor stands before the object or between its pairs.
    ghost predicate Walking()
      reads this
    {
      && Bounded(t, start, len) && Accept(Curly, t, start, len) && start + len <= |t|
      && (cursor == start ||
          (start < cursor <= start + len && Between(t, cursor, start + len)))
    }

    // The pairs still to come.
    ghost function Rest(): seq<Entry>
      requires Walking()
      reads this
    {
      if cursor == start then Contents(Curly, t, start, len) else From(Curly, t, cursor, start + len)
    }

    // The current fields show an entry.
    ghost predicate Shows(en: Entry)
      reads this
    {
      && curName + curNameLen <= |t| && t[curName..curName + curNameLen] == en.name
      && curType == en.kind
      && curValue + curValueLen <= |t| && t[curValue..curValue + curValueLen] == en.text
    }

    constructor (t: string, start: nat, len: int)
      requires Bounded(t, start, len)
      ensures this.t == t && this.start == start && this.len == len
      ensures cursor == start
      ensures err >= NO_ERR && (err == NO_ERR <==> Accept(Curly, t, start, len))
      decreases |t| - start, 5
    {
      this.t := t;
      this.start := start;
      this.len := len;
      cursor := start;
      curName := 0;
      curNameLen := 0;
      curType := Unknown;
      curValue := 0;
      curValueLen := 0;
      err := NO_ERR;
      new;
      err := SyntaxCheck();
    }

    method SyntaxCheck() returns (r: int)
      requires Bounded(t, start, len)
      ensures r >= NO_ERR && (r == NO_ERR <==> Accept(Curly, t, start, len))
      decreases |t| - start, 4
    {
      hide Scan, Remains;
      var ptr := ScanRun(Blanks, t, start, start + len);
      if len < 0 {
        return 3;
      }
      var e := start + len;
      AcceptRemains(Curly, t, start, e);
      if ptr == e || t[ptr] != '{' {
        return ptr - start;
      }
      ptr := ptr + 1;
      var first := true;
      var turn := Another(ptr);
      while turn.Another?
        invariant start < ptr <= e && turn != Ended
        invariant turn.Another? ==> (Accept(Curly, t, start, len) <==> Remains(Curly, t, ptr, e, first))
        invariant turn.Closed? ==> (Accept(Curly, t, start, len) <==> Scan(Blanks, t, ptr, e) == e)
        invariant !turn.Bad?
        decreases turn.Another?, e - ptr
      {
        turn := CheckPair(t, start, e, ptr, first);
        RemainsStep(Curly, t, ptr, e, first, turn);
        if turn.Ended? {
          return NO_ERR;
        }
        if turn.Bad? {
          return turn.code;
        }
        ptr := turn.next;
        first := false;
      }
      var q := ScanRun(Blanks, t, ptr, e);
      r := if q < e then q - start + 1 else NO_ERR;
    }

    // Moves past the opening bracket on the first call.
    method OpenObject()
      requires Walking() && cursor == start
      modifies this`cursor
      ensures start < cursor <= start + len && Between(t, cursor, start + len)
      ensures From(Curly, t, cursor, start + len) == old(Rest())
    {
      hide Scan, Contents, From, Between, Accept, Bounded;
      AcceptLen(Curly, t, start, len);
      var e := start + len;
      ContentsFrom(Curly, t, start, e);
      OpenBetween(t, start, e);
      cursor := ScanRun(Blanks, t, start, e);
      cursor := cursor + 1;
    }

    method FindPair() returns (r: int)
      requires Walking()
      modifies this`cursor, this`curName, this`curNameLen, this`curType, this`curValue, this`curValueLen
      ensures r == PAIR_FOUND || r == PAIR_NOT_FOUND
      ensures old(Rest()) == [] <==> r == PAIR_NOT_FOUND
      ensures r == PAIR_FOUND ==> Walking() && Shows(old(Rest())[0]) && Rest() == old(Rest())[1..]
      ensures r == PAIR_FOUND ==> old(cursor) < cursor <= start + len
    {
      hide Scan, ParseHead, ParseNode, Between, From, Contents, Accept, KindOf, TextOf, Bounded;
      curName, curNameLen, curType, curValue, curValueLen := 0, 0, Unknown, 0, 0;
      var e := start + len;
      if cursor == start {
        OpenObject();
      }
      ghost var c := cursor;
      FromFirst(t, c, e);
      var n := FindName(t, e, cursor);
      if n.NoName? {
        return PAIR_NOT_FOUND;
      }
      curName, curNameLen := n.from, n.len;
      var v := SkipValue(Curly, t, start, e, n.next);
      if v.NoValue? {
        return PAIR_NOT_FOUND;
      }
      curType, curValue, curValueLen := v.kind, v.from, v.len;
      cursor := ScanRun(Blanks, t, v.next, e);
      if cursor == e || (t[cursor] != ',' && t[cursor] != '}') {
        return PAIR_NOT_FOUND;
      }
      cursor := cursor + 1;
      r := PAIR_FOUND;
    }

    // What a lookup of the text finds; nothing in a text that is not accepted.
    ghost function Find(name: string): Option<Entry>
      requires Bounded(t, start, len)
    {
      if Accept(Curly, t, start, len) then Lookup(Contents(Curly, t, start, len), name) else None
    }

    method FindKey(name: string) returns (r: int)
      requires Bounded(t, start, len)
      modifies this`cursor, this`curName, this`curNameLen, this`curType, this`curValue, this`curValueLen
      ensures r == if Find(name).Some? then FOUND else NOT_FOUND
      ensures Find(name).Some? ==> Shows(Find(name).value)
    {
      hide Contents, From, Between;
      cursor := start;
      var ok := SyntaxCheck();
      if ok != NO_ERR {
        return NOT_FOUND;
      }
      var p := FindPair();
      while p == PAIR_FOUND
        invariant Bounded(t, start, len) && Accept(Curly, t, start, len)
        invariant p == PAIR_FOUND || p == PAIR_NOT_FOUND
        invariant p == PAIR_NOT_FOUND ==> Find(name) == None
        invariant p == PAIR_FOUND ==> Walking() && start < cursor <= start + len
        invariant p == PAIR_FOUND ==> curName + curNameLen <= |t| && curValue + curValueLen <= |t|
        invariant p == PAIR_FOUND ==> Find(name) == Lookup([Current()] + Rest(), name)
        decreases p == PAIR_FOUND, start + len - cursor
      {
        if curNameLen == |name| && t[curName..curName + curNameLen] == name {
          return FOUND;
        }
        LookupRest(Current(), Rest(), name);
        p := FindPair();
      }
      r := NOT_FOUND;
    }

    // The entry the current fields show.
    ghost function Current(): Entry
      requires curName + curNameLen <= |t| && curValue + curValueLen <= |t|
      reads this
    {
      Entry(t[curName..curName + curNameLen], curType, t[curValue..curValue + curValueLen])
    }

    // The integer getter: absent names, other kinds, fractions and more than 15
    // characters are errors that stay until cleared.
    method GetInt(name: string) returns (v: int)
      requires Bounded(t, start, len)
      modifies this`cursor, this`curName, this`curNameLen, this`curType, this`curValue, this`curValueLen, this`err
      ensures old(err) != NO_ERR ==> v == 0 && err == old(err)
      ensures old(err) == NO_ERR ==>
              match IntOf(Find(name))
              case Read(i) => (Int32(i) ==> v == i) && err == NO_ERR
              case Failed(code) => v == 0 && err == code
    {
      if err != NO_ERR {
        return 0;
      }
      var f := FindKey(name);
      if f == NOT_FOUND {
        err := NOT_FOUND;
        return 0;
      }
      v, err := ReadInt(t, curType, curValue, curValueLen);
    }

    // The string getter clears `len` characters of the destination and copies the
    // text; a text that fills it exactly leaves no terminator.
    method GetStr(name: string, dest: array<char>, size: nat)
      requires Bounded(t, start, len) && size <= dest.Length
      modifies this`cursor, this`curName, this`curNameLen, this`curType, this`curValue, this`curValueLen, this`err, dest
      ensures old(err) != NO_ERR ==> dest[..] == old(dest[..]) && err == old(err)
      ensures old(err) == NO_ERR ==>
              match StrOf(Find(name), size)
              case Read(s) =>
                && |s| <= size && dest[..size] == s + Zeros(size - |s|) && dest[size..] == old(dest[size..])
                && (forall c | c in s :: c in t) && err == NO_ERR
              case Failed(code) => dest[..] == old(dest[..]) && err == code
    {
      if err != NO_ERR {
        return;
      }
      var f := FindKey(name);
      if f == NOT_FOUND {
        err := NOT_FOUND;
        return;
      }
      if curType != Text {
        err := TYPE_MISMATCH;
        return;
      }
      if curValueLen > size {
        err := TYPE_MISMATCH;
        return;
      }
      CopyText(t, curValue, curValueLen, dest, size);
    }
  }

  lemma ElementsFrom(t: string, s: nat, e: nat)
    requires s <= e <= |t|
    ensures Accept(Square, t, s, e - s) ==>
            var q := Scan(Blanks, t, s, e);
            && q < e && t[q] == '[' && Contents(Square, t, s, e - s) == From(Square, t, q + 1, e)
            && (From(Square, t, q + 1, e) != [] || EndsEmpty(Square, t, q + 1, e, true))
  {
    hide Scan, ParseItems;
    if Accept(Square, t, s, e - s) {
      ContentsFrom(Square, t, s, e);
      FromSome(t, Scan(Blanks, t, s, e) + 1, e);
    }
  }

  lemma FromSome(t: string, c: nat, e: nat)
    requires c <= e <= |t|
    ensures ParseItems(Square, t, c, e).Done? <==> From(Square, t, c, e) != []
  {
  }

  // Each turn of the array loop accounts for one element.
  lemma CountStep(t: string, p: nat, e: nat, first: bool, r: Turn)
    requires p <= e <= |t| && TurnOk(Square, t, p, e, first, r)
    ensures r.Another? ==> r.next <= e && (Remains(Square, t, p, e, first) ==>
                           |From(Square, t, p, e)| == 1 + |From(Square, t, r.next, e)|)
    ensures r.Closed? && Remains(Square, t, p, e, first) ==> |From(Square, t, p, e)| == 1
    ensures r.Ended? ==> From(Square, t, p, e) == []
  {
    hide Scan, ParseItem, ParseItems;
    if ParseItems(Square, t, p, e).Done? {
      FromStep(Square, t, p, e);
      FirstNotClose(Square, t, p, e);
    }
  }

  // The first element from `c`, and the elements after the comma that follows it.
  lemma ElemFirst(t: string, c: nat, e: nat)
    requires c <= e <= |t|
    ensures From(Square, t, c, e) != [] ==>
            var n := ParseNode(t, Scan(Blanks, t, c, e), e);
            && n.Done? && Delimited(Square, t, n.next, e)
            && var d := Scan(Blanks, t, n.next, e);
               From(Square, t, c, e) == [Entry("", KindOf(n.value), TextOf(n.value))]
                                        + (if t[d] == ',' then From(Square, t, d + 1, e) else [])
               && (t[d] == ',' ==> From(Square, t, d + 1, e) != [])
  {
    hide Scan, ParseNode, ParseItems;
    FromSome(t, c, e);
    if ParseItems(Square, t, c, e).Done? {
      FromStep(Square, t, c, e);
      FromSome(t, ParseItem(Square, t, c, e).next + 1, e);
    }
  }

  lemma FromNone(t: string, c: nat, e: nat, first: bool)
    requires c <= e <= |t|
    ensures EndsEmpty(Square, t, c, e, first) ==> From(Square, t, c, e) == []
  {
    hide Scan, ParseItems;
    if ParseItems(Square, t, c, e).Done? {
      FirstNotClose(Square, t, c, e);
    }
  }

  class JsonArray {
    const t: string
    const start: nat
    const len: int
    var elCount: nat
    var curId: int
    var curEl: nat
    var curLen: nat
    var curType: ValueKind
    var err: int

    // The element count is exact, and the current fields show element `curId`.
    ghost predicate Valid()
      reads this
    {
      && Bounded(t, start, len)
      && elCount == |Elements()|
      && -1 <= curId < elCount
      && (curId >= 0 ==> Shows(Elements()[curId]))
    }

    // The elements of the array; none in a text that is not accepted.
    ghost function Elements(): seq<Entry>
      requires Bounded(t, start, len)
    {
      if Accept(Square, t, start, len) then Contents(Square, t, start, len) else []
    }

    ghost predicate Shows(en: Entry)
      reads this
    {
      && curEl + curLen <= |t| && t[curEl..curEl + curLen] == en.text
      && curType == en.kind
    }

    constructor (t: string, start: nat, len: int)
      requires Bounded(t, start, len)
      ensures this.t == t && this.start == start && this.len == len
      ensures Valid()
      ensures err >= NO_ERR && (err == NO_ERR <==> Accept(Square, t, start, len))
      decreases |t| - start, 5
    {
      this.t := t;
      this.start := start;
      this.len := len;
      elCount := 0;
      curId := -1;
      curEl := 0;
      curLen := 0;
      curType := Unknown;
      err := NO_ERR;
      new;
      err := SyntaxCheck();
    }

    method SyntaxCheck() returns (r: int)
      requires Bounded(t, start, len)
      modifies this`elCount
      ensures r >= NO_ERR && (r == NO_ERR <==> Accept(Square, t, start, len))
      ensures elCount == if r == NO_ERR then |Elements()| else old(elCount)
      decreases |t| - start, 4
    {
      hide Scan, Remains, Contents, From;
      var ptr := ScanRun(Blanks, t, start, start + len);
      if len < 0 {
        return 3;
      }
      var e := start + len;
      AcceptRemains(Square, t, start, e);
      ElementsFrom(t, start, e);
      if ptr == e || t[ptr] != '[' {
        return ptr - start;
      }
      ptr := ptr + 1;
      var count := 1;
      var first := true;
      var turn := Another(ptr);
      while turn.Another?
        invariant start < ptr <= e && turn != Ended
        invariant turn.Another? ==> (Accept(Square, t, start, len) <==> Remains(Square, t, ptr, e, first))
        invariant turn.Closed? ==> (Accept(Square, t, start, len) <==> Scan(Blanks, t, ptr, e) == e)
        invariant !turn.Bad? && elCount == old(elCount) && (first ==> count == 1)
        invariant Accept(Square, t, start, len) ==>
                  |Elements()| == count - 1 + if turn.Another? then |From(Square, t, ptr, e)| else 1
        decreases turn.Another?, e - ptr
      {
        turn := CheckElem(t, start, e, ptr, first);
        RemainsStep(Square, t, ptr, e, first, turn);
        CountStep(t, ptr, e, first, turn);
        if turn.Ended? {
          elCount := 0;
          return NO_ERR;
        }
        if turn.Bad? {
          return turn.code;
        }
        if turn.Another? {
          count := count + 1;
        }
        ptr := turn.next;
        first := false;
      }
      var q := ScanRun(Blanks, t, ptr, e);
      if q < e {
        return q - start + 1;
      }
      elCount := count;
      r := NO_ERR;
    }

    // Marks the element that starts after the blanks at `ptr`.
    method WalkElem(ptr: nat, first: bool) returns (w: Skipped)
      requires Bounded(t, start, len) && 0 <= len && start < ptr <= start + len <= |t|
      modifies this`curEl, this`curLen, this`curType
      ensures EndsEmpty(Square, t, ptr, start + len, first) ==> w.NoValue?
      ensures w.Skipped? ==> ptr < w.next
      ensures var e := start + len;
              From(Square, t, ptr, e) != [] && !EndsEmpty(Square, t, ptr, e, first) ==>
              && w.Skipped? && w.next <= e && Shows(From(Square, t, ptr, e)[0])
              && var d := Scan(Blanks, t, w.next, e);
                 && d < e && (t[d] == ',' ==> From(Square, t, d + 1, e) != [])
                 && From(Square, t, ptr, e)[1..] == if t[d] == ',' then From(Square, t, d + 1, e) else []
    {
      hide Scan, ParseNode, From, KindOf, TextOf, Bounded;
      var e := start + len;
      ElemFirst(t, ptr, e);
      var v := ScanRun(Blanks, t, ptr, e);
      if first && v < e && t[v] == ']' {
        return NoValue;
      }
      w := SkipValue(Square, t, start, e, v);
      if w.Skipped? {
        curEl, curLen, curType := w.from, w.len, w.kind;
      }
    }

    // Looks an element up by its number: found exactly below the element count.
    method FindElem(idx: int) returns (r: int)
      requires Bounded(t, start, len) && Accept(Square, t, start, len)
      modifies this`curEl, this`curLen, this`curType
      ensures r == if 0 <= idx < |Elements()| then idx else -1
      ensures 0 <= idx < |Elements()| ==> Shows(Elements()[idx])
    {
      hide Scan, Contents, From, Accept, Bounded, EndsEmpty;
      AcceptLen(Square, t, start, len);
      var e := start + len;
      ElementsFrom(t, start, e);
      var ptr := ScanRun(Blanks, t, start, e);
      if ptr == e || t[ptr] != '[' {
        return -1;
      }
      ptr := ptr + 1;
      var count: nat := 0;
      var first := true;
      while true
        invariant start < ptr <= e && count <= |Elements()| && (idx < 0 || count <= idx)
        invariant From(Square, t, ptr, e) == Elements()[count..]
        invariant From(Square, t, ptr, e) != [] || EndsEmpty(Square, t, ptr, e, first)
        decreases e - ptr
      {
        FromNone(t, ptr, e, first);
        var w := WalkElem(ptr, first);
        if w.NoValue? {
          return -1;
        }
        if count == idx {
          return idx;
        }
        var d := ScanRun(Blanks, t, w.next, e);
        if d == e || t[d] != ',' {
          return -1;
        }
        ptr := d + 1;
        count := count + 1;
        first := false;
      }
    }

    method GetInt(idx: int) returns (v: int)
      requires Valid()
      modifies this`curId, this`curEl, this`curLen, this`curType, this`err
      ensures Valid()
      ensures old(err) != NO_ERR ==> v == 0 && err == old(err)
      ensures old(err) == NO_ERR ==>
              if 0 <= idx < |Elements()| then
                match IntOf(Some(Elements()[idx]))
                case Read(i) => (Int32(i) ==> v == i) && err == NO_ERR
                case Failed(code) => v == 0 && err == code
              else v == 0 && err == OUT_OF_BOUNDARY
    {
      hide Accept, Contents, Bounded, IntOf;
      if err != NO_ERR {
        return 0;
      }
      if idx < 0 || idx >= elCount {
        err := OUT_OF_BOUNDARY;
        return 0;
      }
      if idx != curId {
        curId := FindElem(idx);
      }
      v, err := ReadInt(t, curType, curEl, curLen);
      SameInt(Elements()[idx], t[curEl..curEl + curLen]);
    }
  }

  // The integer of an entry does not depend on its name.
  lemma SameInt(en: Entry, text: string)
    ensures en.text == text ==> IntOf(Some(en)) == IntOf(Some(Entry("", en.kind, text)))
  {
  }
}
