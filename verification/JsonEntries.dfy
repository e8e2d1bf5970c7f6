/** What an accepted text says: the entries of its top-level container, in order. */
module JsonEntries {
  import opened JsonGrammar
  import opened JsonBrackets

  datatype ValueKind = Unknown | Number | Text | Object | Array

  // The text of a string is what stands between its quotes.
  datatype Entry = Entry(name: string, kind: ValueKind, text: string)

  ghost function KindOf(n: Node): ValueKind {
    match n
    case Str(_) => Text
    case Num(_) => Number
    case Empty(k, _) => if k == Curly then Object else Array
    case Full(k, _) => if k == Curly then Object else Array
  }

  ghost function TextOf(n: Node): string {
    if n.Str? then n.s else Print(n)
  }

  ghost function EntryOf(i: Item): Entry {
    Entry(if i.head.Key? then i.head.name else "", KindOf(i.value), TextOf(i.value))
  }

  ghost function EntriesOf(xs: Items): seq<Entry> {
    match xs
    case Last(item) => [EntryOf(item)]
    case More(item, rest) => [EntryOf(item)] + EntriesOf(rest)
  }

  ghost function EntriesIn(n: Node): seq<Entry> {
    if n.Full? then EntriesOf(n.items) else []
  }

  // The container of an accepted text.
  ghost function Tree(k: Kind, t: string, s: nat, len: int): (n: Node)
    requires Accept(k, t, s, len)
  {
    ParseContainer(k, t, Scan(Blanks, t, s, s + len), s + len).value
  }

  ghost function Contents(k: Kind, t: string, s: nat, len: int): seq<Entry>
    requires Accept(k, t, s, len)
  {
    EntriesIn(Tree(k, t, s, len))
  }

  // The entries from `c` to the end of the container.
  ghost function From(k: Kind, t: string, c: nat, e: nat): seq<Entry>
    requires c <= e <= |t|
  {
    var r := ParseItems(k, t, c, e);
    if r.Done? then EntriesOf(r.value) else []
  }

  lemma ContentsFrom(k: Kind, t: string, s: nat, e: nat)
    requires s <= e <= |t| && Accept(k, t, s, e - s)
    ensures var q := Scan(Blanks, t, s, e);
            q < e && t[q] == Open(k) && Contents(k, t, s, e - s) == From(k, t, q + 1, e)
  {
    hide Scan, ParseItems;
    var q := Scan(Blanks, t, s, e);
    if ParseItems(k, t, q + 1, e).Done? {
      FirstNotClose(k, t, q + 1, e);
    }
  }

  // The first entry, the delimiter after it, and the entries after that.
  lemma FromStep(k: Kind, t: string, c: nat, e: nat)
    requires c <= e <= |t| && ParseItems(k, t, c, e).Done?
    ensures var r := ParseItem(k, t, c, e);
            && r.Done? && r.next < e && (t[r.next] == ',' || t[r.next] == Close(k))
            && From(k, t, c, e) == [EntryOf(r.value)] + (if t[r.next] == ',' then From(k, t, r.next + 1, e) else [])
            && (t[r.next] == ',' ==> ParseItems(k, t, r.next + 1, e).Done?)
            && (t[r.next] == Close(k) ==> r.next + 1 == ParseItems(k, t, c, e).next)
  {
    hide ParseItem;
  }

  // Where the walker finds the text of a value that starts at `v`.
  lemma ValueText(t: string, v: nat, e: nat)
    requires v <= e <= |t| && ParseNode(t, v, e).Done?
    ensures var r := ParseNode(t, v, e);
            && (r.value.Str? ==> r.next >= v + 2 && TextOf(r.value) == t[v + 1..r.next - 1])
            && (!r.value.Str? ==> TextOf(r.value) == t[v..r.next])
  {
    hide Scan, Here, AllIn, ParseContainer;
    NodeSound(t, v, e);
    HereFits(t, v, Print(ParseNode(t, v, e).value));
  }

  function Lookup(es: seq<Entry>, name: string): (r: Option<Entry>)
  {
    if es == [] then None
    else if es[0].name == name then Some(es[0])
    else Lookup(es[1..], name)
  }

  // A lookup answers with the first entry of that name, and only if there is one.
  lemma {:induction false} LookupFirst(es: seq<Entry>, name: string)
    ensures Lookup(es, name).Some? <==> exists i :: 0 <= i < |es| && es[i].name == name
    ensures Lookup(es, name).Some? ==>
            exists i :: 0 <= i < |es| && es[i] == Lookup(es, name).value && es[i].name == name
                        && forall j | 0 <= j < i :: es[j].name != name
  {
    if es != [] && es[0].name != name {
      LookupFirst(es[1..], name);
      if Lookup(es[1..], name).Some? {
        var i :| 0 <= i < |es[1..]| && es[1..][i] == Lookup(es[1..], name).value && es[1..][i].name == name
                 && forall j | 0 <= j < i :: es[1..][j].name != name;
        assert es[i + 1] == Lookup(es, name).value;
        forall j | 0 <= j < i + 1 ensures es[j].name != name {
          assert j > 0 ==> es[j] == es[1..][j - 1];
        }
      } else {
        forall i | 0 <= i < |es| ensures es[i].name != name {
          assert i > 0 ==> es[i] == es[1..][i - 1];
        }
      }
    }
  }

  // ------------------------------------------------------------- the accepted language

  ghost predicate Container(k: Kind, n: Node) {
    NodeOk(n) && (n.Empty? || n.Full?) && n.k == k
  }

  // A printed container between blanks is accepted and read back as itself; what
  // follows it must be blank unless it is empty.
  lemma AcceptedTexts(k: Kind, a: string, n: Node, b: string)
    requires AllIn(Blanks, a) && Container(k, n)
    ensures var t := a + Print(n) + b;
            && (Accept(k, t, 0, |t|) <==> n.Empty? || AllIn(Blanks, b))
            && (Accept(k, t, 0, |t|) ==> Tree(k, t, 0, |t|) == n)
  {
    hide Scan, ParseContainer, Here, AllIn, NodeOk, Print;
    var t := a + Print(n) + b;
    HereFull(t);
    HereSplit(t, 0, a + Print(n), b);
    HereSplit(t, 0, a, Print(n));
    ContainerComplete(k, t, |a|, |t|, n);
    OpenNotBlank(k, t, |a|);
    ScanHere(Blanks, t, 0, |t|, a);
    BlankTail(t, |a + Print(n)|, b);
  }

  lemma HereFull(t: string)
    ensures Here(t, 0, t)
  {
    assert t[0..|t|] == t;
  }

  lemma OpenNotBlank(k: Kind, t: string, p: nat)
    requires p < |t| && t[p] == Open(k)
    ensures !In(Blanks, t[p])
  {
  }

  lemma BlankTail(t: string, p: nat, b: string)
    requires Here(t, p, b) && p + |b| == |t|
    ensures Scan(Blanks, t, p, |t|) == |t| <==> AllIn(Blanks, b)
  {
    HereFits(t, p, b);
    if AllIn(Blanks, b) {
      ScanHere(Blanks, t, p, |t|, b);
    }
  }

  // Every accepted text is such a print.
  lemma AcceptedIsPrint(k: Kind, t: string)
    requires Accept(k, t, 0, |t|)
    ensures Container(k, Tree(k, t, 0, |t|))
    ensures exists a, b :: t == a + Print(Tree(k, t, 0, |t|)) + b && AllIn(Blanks, a)
                           && (Tree(k, t, 0, |t|).Full? ==> AllIn(Blanks, b))
  {
    hide Scan, ParseContainer, AllIn, NodeOk, Print;
    var q := Scan(Blanks, t, 0, |t|);
    var n := Tree(k, t, 0, |t|);
    ContainerSound(k, t, q, |t|);
    ContainerKind(k, t, q, |t|);
    var f := q + |Print(n)|;
    assert t == t[0..q] + t[q..f] + t[f..|t|];
    HereSlice(t, f, |t|);
    BlankTail(t, f, t[f..|t|]);
  }
}
