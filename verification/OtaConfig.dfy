/**
 * The OTA configuration: what ota_cfg_json_stringify prints and what
 * ota_restore_cfg reads back from it.  The character buffers are modelled by the
 * strings they hold.
 */
module OtaConfig {
  import opened JsonGrammar
  import opened JsonBrackets
  import opened JsonEntries
  import opened JsonReader

  const UINT32 := 0x1_0000_0000

  // The buffers of host and path hold 15 and 127 characters and a terminator.
  datatype Config = Config(host: string, port: nat, path: string, checkVersion: bool, reboot: bool)

  ghost predicate Fits(c: Config) {
    |c.host| <= 15 && |c.path| <= 127 && c.port < UINT32
  }

  // Strings the reader can hold: no quotes and no structural characters.
  ghost predicate Readable(c: Config) {
    AllIn(Plains, c.host) && AllIn(Plains, c.path)
  }

  // ------------------------------------------------------------- decimal numbers

  function DecNat(n: nat): string {
    if n < 10 then [(n + '0' as int) as char] else DecNat(n / 10) + [(n % 10 + '0' as int) as char]
  }

  // %d of a 32-bit word.
  function Dec(word: nat): string
    requires word < UINT32
  {
    if word < 0x8000_0000 then DecNat(word) else "-" + DecNat(UINT32 - word)
  }

  function Bit(b: bool): string { if b then "1" else "0" }

  // A signed value stored in an unsigned 32-bit word.
  function Word(i: int): nat { i % UINT32 }

  lemma {:induction false} DecNatReads(n: nat)
    ensures Nat(DecNat(n)) == n
    ensures AllIn(Digits, DecNat(n)) && DecNat(n) != "" && '0' <= DecNat(n)[0] <= '9' && '.' !in DecNat(n)
  {
    var s := DecNat(n);
    var digit := [(n % 10 + '0' as int) as char];
    if n < 10 {
      assert s[..|s| - 1] == "";
    } else {
      DecNatReads(n / 10);
      assert s[..|s| - 1] == DecNat(n / 10);
    }
  }

  function Pow10(k: nat): nat { if k == 0 then 1 else 10 * Pow10(k - 1) }

  lemma {:induction false} DecNatLength(n: nat, k: nat)
    requires k > 0 && n < Pow10(k)
    ensures |DecNat(n)| <= k
  {
    if n >= 10 {
      DecNatLength(n / 10, k - 1);
    }
  }

  lemma PowersOfTen()
    ensures Pow10(10) == 10_000_000_000 && Pow10(15) == 1_000_000_000_000_000
  {
    assert Pow10(5) == 100_000;
    assert Pow10(10) == 10_000_000_000;
  }

  lemma DecReads(word: nat)
    requires word < UINT32
    ensures NodeOk(Num(Dec(word))) && '.' !in Dec(word) && |Dec(word)| <= 11
    ensures Word(Atoi(Dec(word))) == word && Int32(Atoi(Dec(word)))
  {
    hide DecNat, Nat, Pow10;
    var m: nat := if word < 0x8000_0000 then word else UINT32 - word;
    DecNatReads(m);
    PowersOfTen();
    DecNatLength(m, 10);
    assert ("-" + DecNat(m))[1..] == DecNat(m);
    assert AllIn(Digits, DecNat(m)[1..]);
  }

  // Numbers of up to fifteen digits are accepted, though an int holds ten at most.
  lemma TooBig(n: nat)
    requires 0x8000_0000 <= n < 1_000_000_000_000_000
    ensures NodeOk(Num(DecNat(n))) && IntOf(Some(Entry("", Number, DecNat(n)))) == Read(n) && !Int32(n)
  {
    DecNatReads(n);
    PowersOfTen();
    DecNatLength(n, 15);
    assert AllIn(Digits, DecNat(n)[1..]);
  }

  // ------------------------------------------------------------- printing

  function Print0(c: Config): string
    requires Fits(c)
  {
    "{\"host\":\"" + c.host + "\",\"port\":" + Dec(c.port) + ",\"path\":\"" + c.path + "\","
  }

  function Stringified(c: Config): string
    requires Fits(c)
  {
    Print0(c) + "\"check_version\":" + Bit(c.checkVersion) + ",\"reboot_on_completion\":" + Bit(c.reboot) + "}"
  }

  // The length the printer allows for, one terminator included.
  function MsgLen(c: Config): nat { 90 + |c.path| + 1 }

  // The printed text fits that length exactly when host and port are short enough together.
  lemma StringifiedLength(c: Config)
    requires Fits(c)
    ensures |Stringified(c)| + 1 == MsgLen(c) + |c.host| + |Dec(c.port)| - 18
    ensures |Stringified(c)| + 1 <= MsgLen(c) <==> |c.host| + |Dec(c.port)| <= 18
    ensures |Stringified(c)| + 1 <= MsgLen(c) + 8
  {
    DecReads(c.port);
  }

  // The buffer a configuration is printed into before it is saved, for a path of any
  // length that fits.
  const SAVE_LEN: nat := 90 + 128 + 1

  lemma SavedLength(c: Config)
    requires Fits(c)
    ensures MsgLen(c) <= SAVE_LEN
    ensures |Stringified(c)| + 1 <= SAVE_LEN <==> |c.host| + |Dec(c.port)| + |c.path| <= 146
  {
    StringifiedLength(c);
  }

  // A long address and a common port are two characters too many; a port that prints
  // as the most negative number, eight.
  lemma Overruns(path: string, check: bool, reboot: bool)
    requires |path| <= 127
    ensures var c := Config("192.168.100.201", 20090, path, check, reboot);
            Fits(c) && |Stringified(c)| + 1 == MsgLen(c) + 2
    ensures var c := Config("192.168.100.201", 0x8000_0000, path, check, reboot);
            Fits(c) && |Stringified(c)| + 1 == MsgLen(c) + 8
  {
    assert DecNat(2) == "2" && |DecNat(20)| == 2 && |DecNat(200)| == 3 && |DecNat(2009)| == 4 && |DecNat(20090)| == 5;
    assert |DecNat(21)| == 2 && |DecNat(214)| == 3 && |DecNat(2147)| == 4 && |DecNat(21474)| == 5 && |DecNat(214748)| == 6;
    assert |DecNat(2147483)| == 7 && |DecNat(21474836)| == 8 && |DecNat(214748364)| == 9 && |DecNat(2147483648)| == 10;
    StringifiedLength(Config("192.168.100.201", 20090, path, check, reboot));
    StringifiedLength(Config("192.168.100.201", 0x8000_0000, path, check, reboot));
  }

  // ------------------------------------------------------------- the printed text as a tree

  ghost function Pair(name: string, value: Node): Item {
    Item(Key("", name, "", ""), value, "")
  }

  ghost function Pairs(c: Config): Items
    requires Fits(c)
  {
    More(Pair("host", Str(c.host)),
         More(Pair("port", Num(Dec(c.port))),
              More(Pair("path", Str(c.path)),
                   More(Pair("check_version", Num(Bit(c.checkVersion))),
                        Last(Pair("reboot_on_completion", Num(Bit(c.reboot))))))))
  }

  lemma PairText(name: string, value: Node)
    ensures PrintItem(Pair(name, value)) == "\"" + name + "\":" + Print(value)
  {
    assert "" + ['"'] + name + ['"'] + "" + [':'] + "" == "\"" + name + "\":";
  }

  lemma StrText(s: string)
    ensures Print(Str(s)) == "\"" + s + "\""
  {
  }

  lemma NumText(s: string)
    ensures Print(Num(s)) == s
  {
  }

  lemma FullText(xs: Items)
    ensures Print(Full(Curly, xs)) == ['{'] + PrintItems(xs) + ['}']
  {
  }

  lemma MoreText(item: Item, rest: Items)
    ensures PrintItems(More(item, rest)) == PrintItem(item) + [','] + PrintItems(rest)
  {
  }

  lemma LastText(item: Item)
    ensures PrintItems(Last(item)) == PrintItem(item)
  {
  }

  // A bracket in front of a list, and one more item in front of the rest.
  lemma Append(x: string, a: string, rest: string)
    ensures x + (a + [','] + rest) == (x + a + [',']) + rest
  {
  }

  // Text, two pieces of punctuation and a name before a value.
  lemma Merge(x: string, a: string, b: string, c: string, y: string)
    ensures x + a + b + (c + y) == x + (a + b + c) + y
  {
    assert x + (a + b + c) == x + a + b + c;
  }

  lemma PairsText(c: Config)
    requires Fits(c)
    ensures Print(Full(Curly, Pairs(c))) == Stringified(c)
  {
    var a, b, p, d, e := Pair("host", Str(c.host)), Pair("port", Num(Dec(c.port))), Pair("path", Str(c.path)),
      Pair("check_version", Num(Bit(c.checkVersion))), Pair("reboot_on_completion", Num(Bit(c.reboot)));
    FullText(Pairs(c));
    Spread(a, b, p, d, e);
    TextOfPairs(c);
  }

  // The items of a five-pair object in one row.
  lemma Spread(a: Item, b: Item, p: Item, d: Item, e: Item)
    ensures ['{'] + PrintItems(More(a, More(b, More(p, More(d, Last(e))))))
            == ['{'] + PrintItem(a) + [','] + PrintItem(b) + [','] + PrintItem(p) + [',']
               + PrintItem(d) + [','] + PrintItem(e)
  {
    hide PrintItem, PrintItems;
    var e1 := Last(e);
    var d1 := More(d, e1);
    var p1 := More(p, d1);
    var b1 := More(b, p1);
    LastText(e);
    MoreText(d, e1);
    MoreText(p, d1);
    MoreText(b, p1);
    MoreText(a, b1);
    var x := ['{'];
    Append(x, PrintItem(a), PrintItems(b1));
    x := x + PrintItem(a) + [','];
    Append(x, PrintItem(b), PrintItems(p1));
    x := x + PrintItem(b) + [','];
    Append(x, PrintItem(p), PrintItems(d1));
    x := x + PrintItem(p) + [','];
    Append(x, PrintItem(d), PrintItems(e1));
  }

  lemma TextOfPairs(c: Config)
    requires Fits(c)
    ensures ['{'] + PrintItem(Pair("host", Str(c.host))) + [','] + PrintItem(Pair("port", Num(Dec(c.port)))) + [',']
            + PrintItem(Pair("path", Str(c.path))) + [','] + PrintItem(Pair("check_version", Num(Bit(c.checkVersion))))
            + [','] + PrintItem(Pair("reboot_on_completion", Num(Bit(c.reboot)))) + ['}']
            == Stringified(c)
  {
    hide Print, PrintItem, Dec, Bit;
    PairText("host", Str(c.host));
    PairText("port", Num(Dec(c.port)));
    PairText("path", Str(c.path));
    PairText("check_version", Num(Bit(c.checkVersion)));
    PairText("reboot_on_completion", Num(Bit(c.reboot)));
    StrText(c.host);
    StrText(c.path);
    NumText(Dec(c.port));
    NumText(Bit(c.checkVersion));
    NumText(Bit(c.reboot));
    Glue(c.host, Dec(c.port), c.path, Bit(c.checkVersion), Bit(c.reboot));
  }

  lemma Glue(host: string, port: string, path: string, check: string, reboot: string)
    ensures ['{'] + ("\"" + "host" + "\":" + ("\"" + host + "\"")) + [',']
            + ("\"" + "port" + "\":" + port) + [',']
            + ("\"" + "path" + "\":" + ("\"" + path + "\"")) + [',']
            + ("\"" + "check_version" + "\":" + check) + [',']
            + ("\"" + "reboot_on_completion" + "\":" + reboot) + ['}']
            == "{\"host\":\"" + host + "\",\"port\":" + port + ",\"path\":\"" + path + "\","
               + "\"check_version\":" + check + ",\"reboot_on_completion\":" + reboot + "}"
  {
    Glue1(host);
    var x := "{\"host\":\"" + host;
    Glue2(x, port);
    x := x + "\",\"port\":" + port;
    Glue3(x, path);
    x := x + ",\"path\":\"" + path;
    Glue4(x, check);
    x := x + "\"," + "\"check_version\":" + check;
    Glue5(x, reboot);
  }

  lemma Glue1(host: string)
    ensures ['{'] + ("\"" + "host" + "\":" + ("\"" + host + "\"")) == "{\"host\":\"" + host + "\""
  {
  }

  lemma Glue2(x: string, port: string)
    ensures x + "\"" + [','] + ("\"" + "port" + "\":" + port) == x + "\",\"port\":" + port
  {
    Merge(x, "\"", [','], "\"" + "port" + "\":", port);
    assert "\"" + [','] + ("\"" + "port" + "\":") == "\",\"port\":";
  }

  lemma Glue3(x: string, path: string)
    ensures x + [','] + ("\"" + "path" + "\":" + ("\"" + path + "\"")) == x + ",\"path\":\"" + path + "\""
  {
    assert "\"" + "path" + "\":" + ("\"" + path + "\"") == ("\"" + "path" + "\":" + "\"") + (path + "\"");
    Merge(x, "", [','], "\"" + "path" + "\":" + "\"", path + "\"");
    assert "" + [','] + ("\"" + "path" + "\":" + "\"") == ",\"path\":\"";
    assert x + "" == x;
    assert x + ",\"path\":\"" + (path + "\"") == x + ",\"path\":\"" + path + "\"";
  }

  lemma Glue4(x: string, check: string)
    ensures x + "\"" + [','] + ("\"" + "check_version" + "\":" + check)
            == x + "\"," + "\"check_version\":" + check
  {
    Merge(x, "\"", [','], "\"" + "check_version" + "\":", check);
    assert "\"" + [','] + ("\"" + "check_version" + "\":") == "\"," + "\"check_version\":";
    assert x + ("\"," + "\"check_version\":") == x + "\"," + "\"check_version\":";
  }

  lemma Glue5(x: string, reboot: string)
    ensures x + [','] + ("\"" + "reboot_on_completion" + "\":" + reboot) + ['}']
            == x + ",\"reboot_on_completion\":" + reboot + "}"
  {
    Merge(x, "", [','], "\"" + "reboot_on_completion" + "\":", reboot);
    assert "" + [','] + ("\"" + "reboot_on_completion" + "\":") == ",\"reboot_on_completion\":";
    assert x + "" == x;
  }

  // ------------------------------------------------------------- reading back

  ghost function Field(t: string, name: string): Option<Entry> {
    if Accept(Curly, t, 0, |t|) then Lookup(Contents(Curly, t, 0, |t|), name) else None
  }

  function Clip(s: string, n: nat): string { if |s| <= n then s else s[..n] }

  // The configuration a file restores: every field has to be readable.
  ghost function Restored(t: string): Option<Config> {
    match (StrOf(Field(t, "host"), 16), IntOf(Field(t, "port")), StrOf(Field(t, "path"), 128),
           IntOf(Field(t, "check_version")), IntOf(Field(t, "reboot_on_completion")))
    case (Read(host), Read(port), Read(path), Read(check), Read(reboot)) =>
      Some(Config(Clip(host, 15), Word(port), Clip(path, 127), check != 0, reboot != 0))
    case _ => None
  }

  // The numbers of the file are ones that atoi can read.
  ghost predicate InRange(t: string) {
    && (IntOf(Field(t, "port")).Read? ==> Int32(IntOf(Field(t, "port")).value))
    && (IntOf(Field(t, "check_version")).Read? ==> Int32(IntOf(Field(t, "check_version")).value))
    && (IntOf(Field(t, "reboot_on_completion")).Read? ==> Int32(IntOf(Field(t, "reboot_on_completion")).value))
  }

  // What is saved and restored again is what it was: the printed text fits into the
  // buffer it is saved from, and restoring it gives the configuration back.  This is
  // for configurations that fit; the others overrun the buffer (SavedLength).
  lemma SavedRoundTrip(c: Config)
    requires Fits(c) && Readable(c) && |c.host| + |Dec(c.port)| + |c.path| <= 146
    ensures |Stringified(c)| + 1 <= SAVE_LEN
    ensures Restored(Stringified(c)) == Some(c) && InRange(Stringified(c))
  {
    SavedLength(c);
    RoundTrip(c);
  }

  // The same for the buffer that is allocated for the text.
  lemma PrintedRoundTrip(c: Config)
    requires Fits(c) && Readable(c) && |c.host| + |Dec(c.port)| <= 18
    ensures |Stringified(c)| + 1 <= MsgLen(c)
    ensures Restored(Stringified(c)) == Some(c) && InRange(Stringified(c))
  {
    StringifiedLength(c);
    RoundTrip(c);
  }

  // Printing a configuration and restoring the printed text gives it back, whatever
  // buffer holds the text.
  lemma RoundTrip(c: Config)
    requires Fits(c) && Readable(c)
    ensures Restored(Stringified(c)) == Some(c) && InRange(Stringified(c))
  {
    hide Print, Stringified, Accept, AllIn, Dec;
    var t := Stringified(c);
    var n := Full(Curly, Pairs(c));
    PairsText(c);
    PairsOk(c);
    assert "" + Print(n) + "" == t;
    NoBlanks();
    AcceptedTexts(Curly, "", n, "");
    FieldsRead(c, t);
  }

  lemma NoBlanks()
    ensures AllIn(Blanks, "")
  {
  }

  lemma PairsOk(c: Config)
    requires Fits(c) && Readable(c)
    ensures Container(Curly, Full(Curly, Pairs(c)))
  {
    hide Dec, Bit, AllIn, NodeOk;
    DecReads(c.port);
    BitReads(c.checkVersion);
    BitReads(c.reboot);
    StrOk(c.host);
    StrOk(c.path);
    NamesPlain();
    PairOk("reboot_on_completion", Num(Bit(c.reboot)));
    PairOk("check_version", Num(Bit(c.checkVersion)));
    PairOk("path", Str(c.path));
    PairOk("port", Num(Dec(c.port)));
    PairOk("host", Str(c.host));
    var e := Last(Pair("reboot_on_completion", Num(Bit(c.reboot))));
    var d := More(Pair("check_version", Num(Bit(c.checkVersion))), e);
    var p := More(Pair("path", Str(c.path)), d);
    assert ItemsOk(Curly, d);
    assert ItemsOk(Curly, p);
    FullOk(Pairs(c));
  }

  lemma FullOk(xs: Items)
    requires ItemsOk(Curly, xs)
    ensures NodeOk(Full(Curly, xs))
  {
  }

  lemma StrOk(s: string)
    ensures AllIn(Plains, s) <==> NodeOk(Str(s))
  {
  }

  lemma PairOk(name: string, value: Node)
    requires AllIn(Plains, name) && name != "" && NodeOk(value)
    ensures ItemOk(Curly, Pair(name, value))
  {
    hide NodeOk;
  }

  lemma NamesPlain()
    ensures AllIn(Plains, "host") && AllIn(Plains, "port") && AllIn(Plains, "path")
    ensures AllIn(Plains, "check_version") && AllIn(Plains, "reboot_on_completion")
  {
  }

  lemma FieldsRead(c: Config, t: string)
    requires Fits(c) && Accept(Curly, t, 0, |t|) && Tree(Curly, t, 0, |t|) == Full(Curly, Pairs(c))
    ensures Restored(t) == Some(c) && InRange(t)
  {
    hide Accept, Dec, Atoi;
    var es := EntriesOf(Pairs(c));
    assert Contents(Curly, t, 0, |t|) == es;
    EntriesRow(c);
    LookupRow(c);
    DecReads(c.port);
    BitReads(c.checkVersion);
    BitReads(c.reboot);
  }

  ghost function Row(c: Config): seq<Entry>
    requires Fits(c)
  {
    [Entry("host", Text, c.host), Entry("port", Number, Dec(c.port)), Entry("path", Text, c.path),
     Entry("check_version", Number, Bit(c.checkVersion)), Entry("reboot_on_completion", Number, Bit(c.reboot))]
  }

  lemma EntriesRow(c: Config)
    requires Fits(c)
    ensures EntriesOf(Pairs(c)) == Row(c)
  {
    hide Dec;
    var e := Last(Pair("reboot_on_completion", Num(Bit(c.reboot))));
    var d := More(Pair("check_version", Num(Bit(c.checkVersion))), e);
    var p := More(Pair("path", Str(c.path)), d);
    assert EntriesOf(e) == Row(c)[4..];
    assert EntriesOf(d) == Row(c)[3..];
    assert EntriesOf(p) == Row(c)[2..];
  }

  lemma LookupRow(c: Config)
    requires Fits(c)
    ensures Lookup(Row(c), "host") == Some(Row(c)[0]) && Lookup(Row(c), "port") == Some(Row(c)[1])
    ensures Lookup(Row(c), "path") == Some(Row(c)[2]) && Lookup(Row(c), "check_version") == Some(Row(c)[3])
    ensures Lookup(Row(c), "reboot_on_completion") == Some(Row(c)[4])
  {
    hide Dec;
    LookupAt(Row(c), "host", 0);
    LookupAt(Row(c), "port", 1);
    LookupAt(Row(c), "path", 2);
    LookupAt(Row(c), "check_version", 3);
    LookupAt(Row(c), "reboot_on_completion", 4);
  }

  lemma {:induction false} LookupAt(es: seq<Entry>, name: string, i: nat)
    requires i < |es| && es[i].name == name && forall j | 0 <= j < i :: es[j].name != name
    ensures Lookup(es, name) == Some(es[i])
  {
    if i > 0 {
      LookupAt(es[1..], name, i - 1);
    }
  }

  lemma BitReads(b: bool)
    ensures NodeOk(Num(Bit(b))) && '.' !in Bit(b) && |Bit(b)| <= 15 && (Atoi(Bit(b)) != 0 <==> b) && Int32(Atoi(Bit(b)))
  {
    assert Bit(b)[..|Bit(b)| - 1] == "";
    assert Nat(Bit(b)) == Digit(Bit(b)[0]);
  }

  // ------------------------------------------------------------- the program

  const CFG_OK := 0
  const CFG_CANT_RESTORE := 1
  const CFG_ERROR := 2

  // The characters of a buffer up to its terminator.
  function Held(buffer: seq<char>): string {
    if buffer == [] || buffer[0] == '\0' then "" else [buffer[0]] + Held(buffer[1..])
  }

  lemma {:induction false} HeldZeros(s: string, n: nat)
    requires '\0' !in s
    ensures Held(s + Zeros(n)) == s
  {
    if s != "" {
      assert (s + Zeros(n))[1..] == s[1..] + Zeros(n);
      HeldZeros(s[1..], n);
    }
  }

  class Ota {
    var cfg: Config

    method SetHost(s: string)
      modifies this
      ensures cfg == old(cfg).(host := Clip(s, 15))
    {
      cfg := cfg.(host := Clip(s, 15));
    }

    method SetPath(s: string)
      modifies this
      ensures cfg == old(cfg).(path := Clip(s, 127))
    {
      cfg := cfg.(path := Clip(s, 127));
    }

    // Restores the configuration from the text of the file, if there is one, or
    // reports an error and leaves it alone.  Numbers beyond 32 bits are accepted, and
    // what becomes of them is not told.
    method RestoreCfg(text: Option<string>) returns (r: int)
      requires text.Some? ==> '\0' !in text.value
      modifies this
      ensures text.None? ==> r == CFG_CANT_RESTORE && cfg == old(cfg)
      ensures text.Some? ==> r == if Restored(text.value).Some? then CFG_OK else CFG_ERROR
      ensures text.Some? && Restored(text.value).None? ==> cfg == old(cfg)
      ensures text.Some? && Restored(text.value).Some? ==>
                && cfg.host == Restored(text.value).value.host && cfg.path == Restored(text.value).value.path
                && (InRange(text.value) ==> cfg == Restored(text.value).value)
    {
      hide Accept, Contents, Atoi, Held, Clip, Restored, InRange;
      if text.None? {
        return CFG_CANT_RESTORE;
      }
      var ok, host, path, port, check, reboot := ReadFields(text.value);
      if !ok {
        return CFG_ERROR;
      }
      SetHost(Held(host));
      cfg := cfg.(port := Word(port));
      SetPath(Held(path));
      cfg := cfg.(checkVersion := check != 0, reboot := reboot != 0);
      r := CFG_OK;
    }
  }

  // Reads the five fields of a configuration into buffers and numbers.
  method ReadFields(t: string) returns (ok: bool, hostBuf: seq<char>, pathBuf: seq<char>, port: int, check: int, reboot: int)
    requires '\0' !in t
    ensures ok <==> Restored(t).Some?
    ensures ok ==> Clip(Held(hostBuf), 15) == Restored(t).value.host && Clip(Held(pathBuf), 127) == Restored(t).value.path
    ensures ok && InRange(t) ==>
              && Word(port) == Restored(t).value.port && (check != 0) == Restored(t).value.checkVersion
              && (reboot != 0) == Restored(t).value.reboot
  {
    hide Accept, Contents, Atoi, Held, Clip;
    WholeBounded(t);
    var file := new JsonObject(t, 0, |t|);
    FieldIs(t);
    var host := new char[16];
    file.GetStr("host", host, 16);
    hostBuf := host[..];
    port := file.GetInt("port");
    var path := new char[128];
    file.GetStr("path", path, 128);
    pathBuf := path[..];
    check := file.GetInt("check_version");
    reboot := file.GetInt("reboot_on_completion");
    RestoredIf(t);
    ok := file.err == NO_ERR;
    HeldText(t, hostBuf, 16, StrOf(Field(t, "host"), 16));
    HeldText(t, pathBuf, 128, StrOf(Field(t, "path"), 128));
  }

  lemma WholeBounded(t: string)
    requires '\0' !in t
    ensures Bounded(t, 0, |t|)
  {
  }

  // Nothing is found in a text that is not accepted, so restoring it fails.
  lemma FieldIs(t: string)
    ensures !Accept(Curly, t, 0, |t|) ==> Restored(t) == None
  {
  }

  lemma RestoredIf(t: string)
    ensures Restored(t).Some? <==>
            && StrOf(Field(t, "host"), 16).Read? && IntOf(Field(t, "port")).Read?
            && StrOf(Field(t, "path"), 128).Read? && IntOf(Field(t, "check_version")).Read?
            && IntOf(Field(t, "reboot_on_completion")).Read?
  {
    hide Field, StrOf, IntOf;
  }

  lemma HeldText(t: string, buffer: seq<char>, size: nat, r: Result<string>)
    requires '\0' !in t && |buffer| == size
    ensures (r.Read? && |r.value| <= size && (forall c | c in r.value :: c in t)
             && buffer == r.value + Zeros(size - |r.value|)) ==> Held(buffer) == r.value
  {
    if r.Read? && |r.value| <= size && (forall c | c in r.value :: c in t) {
      HeldZeros(r.value, size - |r.value|);
    }
  }
}
