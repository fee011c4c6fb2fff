/** The link-format parser (LinkFormatParser.c) against the language it accepts. */
module LinkFormat {
  import opened Bytes

  /** One name=value item, and which of the two quotes around the value are there. */
  datatype Item = Item(name: string, value: string, opening: bool, closing: bool)

  datatype Link = Link(path: string, items: seq<Item>)

  datatype Attr = Attr(name: string, value: string)

  /** A resource with its attributes in the order of its list. */
  datatype Resource = Resource(uri: string, attrs: seq<Attr>)

  predicate Alnum(c: char) {
    '0' <= c <= '9' || 'A' <= c <= 'Z' || 'a' <= c <= 'z'
  }

  predicate Word(s: string) {
    forall i :: 0 <= i < |s| ==> Alnum(s[i]) || s[i] == '-'
  }

  predicate PathWord(s: string) {
    forall i :: 0 <= i < |s| ==> Alnum(s[i]) || s[i] == '/' || s[i] == '-'
  }

  // ----- the language, by what it prints

  predicate WellFormedItem(it: Item) {
    && it.name != [] && Word(it.name) && Word(it.value)
    && (it.value != [] || (it.opening && it.closing))
  }

  predicate WellFormed(l: Link) {
    && l.path != [] && PathWord(l.path) && l.path[0] != '/' && l.path[|l.path| - 1] != '/'
    && l.items != [] && WellFormedItems(l.items)
  }

  predicate WellFormedItems(items: seq<Item>) {
    forall i :: 0 <= i < |items| ==> WellFormedItem(items[i])
  }

  function Quote(there: bool): string {
    if there then "\"" else ""
  }

  /** What stands behind the equals sign. */
  function Raw(it: Item): string {
    Quote(it.opening) + it.value + Quote(it.closing)
  }

  function PrintItem(it: Item): string {
    it.name + ("=" + Raw(it))
  }

  function PrintItems(items: seq<Item>): string {
    if items == [] then "" else ";" + (PrintItem(items[0]) + PrintItems(items[1..]))
  }

  function Print(l: Link): string {
    "<" + l.path + ">" + PrintItems(l.items)
  }

  // ----- the language, by how it is taken apart

  predicate Free(s: string, c: char) {
    forall i :: 0 <= i < |s| ==> s[i] != c
  }

  /** Offset of the first c, or the length (strchr, strcspn). */
  function Cut(s: string, c: char): (i: nat)
    ensures i <= |s|
    ensures forall j :: 0 <= j < i ==> s[j] != c
    ensures i < |s| ==> s[i] == c
  {
    if s == [] || s[0] == c then 0 else 1 + Cut(s[1..], c)
  }

  function Count(s: string, c: char): nat {
    if s == [] then 0 else (if s[0] == c then 1 else 0) + Count(s[1..], c)
  }

  /** parsePath: the path between the angle brackets. */
  function PathOf(s: string): Option<string> {
    if && |s| > 2 && s[0] == '<' && s[1] != '/' && s[|s| - 2] != '/' && s[|s| - 1] == '>'
       && PathWord(s[1..|s| - 1])
    then Some(s[1..|s| - 1]) else None
  }

  /** optionValidation */
  predicate OneEquals(s: string) {
    |s| >= 3 && s[0] != '=' && s[|s| - 1] != '=' && Count(s, '=') == 1
  }

  /** The value without the quotes at its ends. */
  function Inner(raw: string): string
    requires raw != []
  {
    var data := if raw[0] == '"' then raw[1..] else raw;
    if raw[|raw| - 1] == '"' && data != [] then data[..|data| - 1] else data
  }

  predicate Lone(raw: string) {
    |raw| == 1 && raw[0] == '"'
  }

  function ItemFrom(name: string, raw: string): (r: Option<Item>)
    ensures r.Some? ==> r.value.name == name
  {
    if raw == [] || Lone(raw) || !Word(name) || !Word(Inner(raw)) then None
    else Some(Item(name, Inner(raw), raw[0] == '"', raw[|raw| - 1] == '"'))
  }

  /** optionRegister; a value of one lone quote is no item. */
  function ItemOf(s: string): Option<Item> {
    var k := Cut(s, '=');
    if !OneEquals(s) || k == |s| then None else ItemFrom(s[..k], s[k + 1..])
  }

  /** The items of a text that follows a semicolon. */
  function ItemsOf(s: string): Option<seq<Item>>
    decreases |s|
  {
    var k := Cut(s, ';');
    if k == |s| then
      var it := ItemOf(s);
      if it.None? then None else Some([it.value])
    else
      var it := ItemOf(s[..k]);
      var rest := ItemsOf(s[k + 1..]);
      if it.None? || rest.None? then None else Some([it.value] + rest.value)
  }

  function LinkOf(s: string): Option<Link> {
    var k := Cut(s, ';');
    if !Free(s, ',') || k == 0 || k == |s| then None else
      var path := PathOf(s[..k]);
      var items := ItemsOf(s[k + 1..]);
      if path.None? || items.None? then None else Some(Link(path.value, items.value))
  }

  // ----- both are the same language

  /** Finding the seam between a part free of c and one that starts with it. */
  lemma CutConcat(head: string, tail: string, c: char)
    requires Free(head, c) && (tail == [] || tail[0] == c)
    ensures Cut(head + tail, c) == |head| && (head + tail)[..|head|] == head
    ensures tail != [] ==> (head + tail)[|head| + 1..] == tail[1..]
  {
  }

  lemma CutSplits(s: string, c: char)
    requires Cut(s, c) < |s|
    ensures s == s[..Cut(s, c)] + ([c] + s[Cut(s, c) + 1..])
  {
    hide Cut;
    var k := Cut(s, c);
    assert s[k..] == [c] + s[k + 1..];
    assert s == s[..k] + s[k..];
  }

  lemma FreeConcat(s: string, t: string, c: char)
    ensures Free(s + t, c) <==> Free(s, c) && Free(t, c)
  {
    if Free(s + t, c) {
      forall i | 0 <= i < |s| ensures s[i] != c {
        assert (s + t)[i] == s[i];
      }
      forall i | 0 <= i < |t| ensures t[i] != c {
        assert (s + t)[|s| + i] == t[i];
      }
    }
  }

  lemma {:induction false} CountFree(s: string, c: char)
    ensures Count(s, c) == 0 <==> Free(s, c)
  {
    if s != [] {
      CountFree(s[1..], c);
      assert s == [s[0]] + s[1..];
      FreeConcat([s[0]], s[1..], c);
      assert Free([s[0]], c) <==> s[0] != c;
    }
  }

  lemma {:induction false} CountConcat(s: string, t: string, c: char)
    ensures Count(s + t, c) == Count(s, c) + Count(t, c)
  {
    if s == [] {
      assert s + t == t;
    } else {
      CountConcat(s[1..], t, c);
      assert (s + t)[1..] == s[1..] + t;
    }
  }

  /** The delimiters are in no word. */
  lemma WordFree(s: string, c: char)
    requires (Word(s) || PathWord(s)) && !Alnum(c) && c != '/' && c != '-'
    ensures Free(s, c)
  {
  }

  lemma ItemFromRaw(it: Item)
    requires WellFormedItem(it)
    ensures Raw(it) != [] && ItemFrom(it.name, Raw(it)) == Some(it)
  {
    hide Word, Inner, Free;
    var raw, value := Raw(it), it.value;
    WordFree(value, '"');
    if it.opening && it.closing {
      assert raw == "\"" + (value + "\"");
      InnerOfBoth(value);
    } else if it.opening {
      assert raw == "\"" + value;
      InnerOfOpening(value);
    } else if it.closing {
      assert raw == value + "\"";
      InnerOfClosing(value);
    } else {
      assert raw == value;
      InnerOfPlain(value);
    }
  }

  lemma InnerOfBoth(value: string)
    ensures (var raw := "\"" + (value + "\"");
             raw[0] == '"' && raw[|raw| - 1] == '"' && !Lone(raw) && Inner(raw) == value)
  {
    assert ("\"" + (value + "\""))[1..] == value + "\"";
    assert (value + "\"")[..|value|] == value;
  }

  lemma InnerOfOpening(value: string)
    requires Free(value, '"') && value != []
    ensures (var raw := "\"" + value;
             raw[0] == '"' && raw[|raw| - 1] != '"' && !Lone(raw) && Inner(raw) == value)
  {
    assert ("\"" + value)[1..] == value;
  }

  lemma InnerOfClosing(value: string)
    requires Free(value, '"') && value != []
    ensures (var raw := value + "\"";
             raw[0] != '"' && raw[|raw| - 1] == '"' && !Lone(raw) && Inner(raw) == value)
  {
    assert (value + "\"")[..|value|] == value;
  }

  lemma InnerOfPlain(value: string)
    requires Free(value, '"') && value != []
    ensures value[0] != '"' && value[|value| - 1] != '"' && !Lone(value) && Inner(value) == value
  {
  }

  lemma RawOfItem(name: string, raw: string)
    requires name != [] && ItemFrom(name, raw).Some?
    ensures WellFormedItem(ItemFrom(name, raw).value) && Raw(ItemFrom(name, raw).value) == raw
  {
  }

  lemma PrintItemFree(it: Item, c: char)
    requires WellFormedItem(it) && !Alnum(c) && c !in "/-=\""
    ensures Free(PrintItem(it), c)
  {
  }

  lemma OneEqualsOf(name: string, raw: string)
    requires name != [] && raw != [] && Free(name, '=') && Free(raw, '=')
    ensures OneEquals(name + ("=" + raw))
  {
    CountFree(name, '=');
    CountFree(raw, '=');
    CountConcat("=", raw, '=');
    CountConcat(name, "=" + raw, '=');
    assert name[0] != '=' && raw[|raw| - 1] != '=';
  }

  lemma RawFree(it: Item)
    requires WellFormedItem(it)
    ensures Free(Raw(it), '=') && Free(it.name, '=')
  {
  }

  lemma ItemRoundTrip(it: Item)
    requires WellFormedItem(it)
    ensures ItemOf(PrintItem(it)) == Some(it)
  {
    RawFree(it);
    ItemFromRaw(it);
    hide Inner, OneEquals, Word, Free, Cut, Raw, ItemFrom;
    OneEqualsOf(it.name, Raw(it));
    CutConcat(it.name, "=" + Raw(it), '=');
    assert ("=" + Raw(it))[1..] == Raw(it);
  }

  lemma FirstItem(head: string, tail: string)
    requires Free(head, ';') && ItemOf(head).Some?
    requires tail == [] || (tail[0] == ';' && ItemsOf(tail[1..]).Some?)
    ensures ItemsOf(head + tail)
         == Some([ItemOf(head).value] + if tail == [] then [] else ItemsOf(tail[1..]).value)
  {
    hide ItemOf, Free, Cut;
    CutConcat(head, tail, ';');
    if tail == [] {
      assert head + tail == head;
      assert [ItemOf(head).value] + [] == [ItemOf(head).value];
    }
  }

  lemma PrintCons(it: Item, rest: seq<Item>)
    ensures PrintItems([it] + rest) == ";" + (PrintItem(it) + PrintItems(rest))
    ensures WellFormedItem(it) && WellFormedItems(rest) ==> WellFormedItems([it] + rest)
  {
  }

  lemma {:induction false} ItemsRoundTrip(items: seq<Item>)
    requires items != [] && WellFormedItems(items)
    ensures PrintItems(items) != [] && PrintItems(items)[0] == ';'
    ensures ItemsOf(PrintItems(items)[1..]) == Some(items)
  {
    var it, rest := items[0], items[1..];
    assert items == [it] + rest;
    assert rest == [] ==> PrintItems(rest) == "";
    assert WellFormedItem(it) && WellFormedItems(rest);
    hide *;
    ItemRoundTrip(it);
    PrintItemFree(it, ';');
    if rest != [] {
      ItemsRoundTrip(rest);
    }
    FirstItem(PrintItem(it), PrintItems(rest));
    PrintCons(it, rest);
    assert (";" + (PrintItem(it) + PrintItems(rest)))[1..] == PrintItem(it) + PrintItems(rest);
  }

  lemma {:induction false} PrintItemsFree(items: seq<Item>)
    requires WellFormedItems(items)
    ensures Free(PrintItems(items), ',')
  {
    if items != [] {
      PrintItemsFree(items[1..]);
      assert Free(";", ',');
      hide PrintItem, WellFormedItem, Free;
      var head, tail := PrintItem(items[0]), PrintItems(items[1..]);
      PrintItemFree(items[0], ',');
      FreeConcat(head, tail, ',');
      FreeConcat(";", head + tail, ',');
    }
  }

  lemma PathRoundTrip(path: string)
    requires path != [] && PathWord(path) && path[0] != '/' && path[|path| - 1] != '/'
    ensures PathOf("<" + path + ">") == Some(path)
    ensures Free("<" + path + ">", ';') && Free("<" + path + ">", ',')
  {
  }

  /** Printing then parsing gives the link back. */
  lemma ParsePrint(l: Link)
    requires WellFormed(l)
    ensures LinkOf(Print(l)) == Some(l)
  {
    hide LinkOf, PathOf, ItemsOf, PathWord, WellFormedItems, PrintItems;
    LinkOfPrinted(l.path, l.items);
  }

  lemma LinkOfPrinted(path: string, items: seq<Item>)
    requires path != [] && PathWord(path) && path[0] != '/' && path[|path| - 1] != '/'
    requires items != [] && WellFormedItems(items)
    ensures LinkOf("<" + path + ">" + PrintItems(items)) == Some(Link(path, items))
  {
    hide *;
    var head, tail := "<" + path + ">", PrintItems(items);
    ItemsRoundTrip(items);
    PrintItemsFree(items);
    PathRoundTrip(path);
    FreeConcat(head, tail, ',');
    LinkOfParts(head, tail, path, items);
  }

  lemma LinkOfParts(head: string, tail: string, path: string, items: seq<Item>)
    requires head != [] && tail != [] && tail[0] == ';' && Free(head, ';') && Free(head + tail, ',')
    requires PathOf(head) == Some(path) && ItemsOf(tail[1..]) == Some(items)
    ensures LinkOf(head + tail) == Some(Link(path, items))
  {
    hide PathOf, ItemsOf, Free, Cut;
    CutConcat(head, tail, ';');
  }

  lemma ItemParts(s: string)
    requires ItemOf(s).Some?
    ensures (var k := Cut(s, '=');
             0 < k < |s| && ItemOf(s) == ItemFrom(s[..k], s[k + 1..]) && ItemOf(s).value.name == s[..k])
  {
    hide ItemFrom;
  }

  lemma ItemPrinted(s: string)
    requires ItemOf(s).Some?
    ensures WellFormedItem(ItemOf(s).value) && PrintItem(ItemOf(s).value) == s
  {
    hide ItemOf, Cut, ItemFrom, Raw, WellFormedItem;
    ItemParts(s);
    CutSplits(s, '=');
    RawOfItem(s[..Cut(s, '=')], s[Cut(s, '=') + 1..]);
  }

  lemma ItemsParts(s: string)
    requires ItemsOf(s).Some?
    ensures (var k := Cut(s, ';');
             && ItemOf(s[..k]).Some?
             && (k == |s| ==> ItemsOf(s).value == [ItemOf(s[..k]).value] + [])
             && (k < |s| ==> ItemsOf(s[k + 1..]).Some?
                             && ItemsOf(s).value == [ItemOf(s[..k]).value] + ItemsOf(s[k + 1..]).value))
  {
    hide ItemOf, Cut;
    assert s[..|s|] == s;
  }

  lemma {:induction false} ItemsPrinted(s: string)
    requires ItemsOf(s).Some?
    ensures (var items := ItemsOf(s).value;
             items != [] && PrintItems(items) == ";" + s && WellFormedItems(items))
    decreases |s|
  {
    hide *;
    var k := Cut(s, ';');
    ItemsParts(s);
    ItemPrinted(s[..k]);
    var it := ItemOf(s[..k]).value;
    if k == |s| {
      LastPrinted(s, it);
    } else {
      ItemsPrinted(s[k + 1..]);
      MorePrinted(s, k, it, ItemsOf(s[k + 1..]).value);
    }
  }

  lemma LastPrinted(s: string, it: Item)
    requires PrintItem(it) == s[..|s|] && WellFormedItem(it)
    ensures PrintItems([it] + []) == ";" + s && WellFormedItems([it] + [])
  {
  }

  lemma MorePrinted(s: string, k: nat, it: Item, rest: seq<Item>)
    requires k < |s| && s[k] == ';'
    requires PrintItem(it) == s[..k] && WellFormedItem(it)
    requires PrintItems(rest) == ";" + s[k + 1..] && WellFormedItems(rest)
    ensures PrintItems([it] + rest) == ";" + s && WellFormedItems([it] + rest)
  {
  }

  lemma PathPrinted(s: string)
    requires PathOf(s).Some?
    ensures (var path := PathOf(s).value;
             && path != [] && PathWord(path) && path[0] != '/' && path[|path| - 1] != '/'
             && s == "<" + path + ">")
  {
  }

  /** What the parser takes is what prints back to it. */
  lemma PrintParse(s: string)
    requires LinkOf(s).Some?
    ensures WellFormed(LinkOf(s).value) && Print(LinkOf(s).value) == s
  {
    var k := Cut(s, ';');
    CutSplits(s, ';');
    PathPrinted(s[..k]);
    ItemsPrinted(s[k + 1..]);
    hide ItemsOf, PathOf, PathWord, WellFormedItems, Cut, Free;
  }

  /** The parser's language: exactly the printed well-formed links. */
  lemma Accepts(s: string)
    ensures LinkOf(s).Some? <==> exists l :: WellFormed(l) && Print(l) == s
  {
    if LinkOf(s).Some? {
      PrintParse(s);
    }
    hide LinkOf, WellFormed, Print;
    forall l | WellFormed(l) && Print(l) == s ensures LinkOf(s).Some? {
      ParsePrint(l);
    }
  }

  // ----- the parser itself

  /** optionValidation: how many equals signs, or 0 for a text that cannot be an item. */
  method OptionValidation(source: string) returns (counter: nat)
    ensures counter == 1 <==> OneEquals(source)
  {
    hide Count;
    counter := CountEquals(source);
    if |source| < 3 || source[0] == '=' || source[|source| - 1] == '=' {
      return 0;
    }
  }

  /** The loop of optionValidation over strchr. */
  method CountEquals(source: string) returns (counter: nat)
    ensures counter == Count(source, '=')
  {
    hide Count, Cut;
    counter := 0;
    var pch := Cut(source, '=');
    CountTail(source, 0, pch);
    assert source[0..] == source;
    while pch < |source|
      invariant pch <= |source| && (pch < |source| ==> source[pch] == '=')
      invariant Count(source, '=') == counter + Count(source[pch..], '=')
      decreases |source| - pch
    {
      counter := counter + 1;
      var from := pch + 1;
      CountTail(source, pch, from);
      pch := from + Cut(source[from..], '=');
      CountTail(source, from, pch);
    }
    CountFree(source[pch..], '=');
  }

  lemma CountFirst(s: string, c: char)
    requires s != []
    ensures Count(s, c) == (if s[0] == c then 1 else 0) + Count(s[1..], c)
  {
  }

  /** Moving on over text with at most its first character an equals sign. */
  lemma CountTail(s: string, from: nat, to: nat)
    requires from <= to <= |s|
    ensures from < to && s[from] == '=' && Free(s[from + 1..to], '=')
            ==> Count(s[from..], '=') == 1 + Count(s[to..], '=')
    ensures Free(s[from..to], '=') ==> Count(s[from..], '=') == Count(s[to..], '=')
  {
    hide Count;
    assert s[from..] == s[from..to] + s[to..];
    CountConcat(s[from..to], s[to..], '=');
    CountFree(s[from..to], '=');
    if from < to {
      CountFree(s[from + 1..to], '=');
      CountFirst(s[from..to], '=');
      assert s[from..to][1..] == s[from + 1..to];
    }
  }

  method IsWord(s: string) returns (ok: bool)
    ensures ok == Word(s)
  {
    for i := 0 to |s|
      invariant Word(s[..i])
    {
      if !Alnum(s[i]) && s[i] != '-' {
        return false;
      }
    }
    assert s[..|s|] == s;
    ok := true;
  }

  method IsPathWord(s: string) returns (ok: bool)
    ensures ok == PathWord(s)
  {
    for i := 0 to |s|
      invariant PathWord(s[..i])
    {
      if !Alnum(s[i]) && s[i] != '/' && s[i] != '-' {
        return false;
      }
    }
    assert s[..|s|] == s;
    ok := true;
  }

  /** optionRegister with calOptionSize and parseOption. */
  method ParseOption(source: string) returns (r: Option<Attr>)
    ensures r.Some? <==> ItemOf(source).Some?
    ensures r.Some? ==> r.value == AttrOf(ItemOf(source).value)
  {
    var counter := OptionValidation(source);
    if counter != 1 {
      return None;
    }
    hide Count;
    var at := Cut(source, '=');
    if at == |source| {
      return None;
    }
    var kind, raw := source[..at], source[at + 1..];
    var ok := IsWord(kind);
    if !ok || raw == [] || Lone(raw) {
      return None;
    }
    var data := raw;
    if raw[0] == '"' {
      data := raw[1..];
    }
    if raw[|raw| - 1] == '"' && data != [] {
      data := data[..|data| - 1];
    }
    ok := IsWord(data);
    r := if ok then Some(Attr(kind, data)) else None;
  }

  function AttrOf(it: Item): Attr {
    Attr(it.name, it.value)
  }

  /** pathRegister with calPathSize and parsePath. */
  method ParsePath(source: string) returns (r: Option<string>)
    ensures r == PathOf(source)
  {
    if !(source != [] && source[0] == '<' && |source| > 1 && source[1] != '/'
         && source[|source| - 2] != '/' && source[|source| - 1] == '>') {
      return None;
    }
    if |source| - 2 == 0 {
      return None;
    }
    var path := source[1..|source| - 1];
    var ok := IsPathWord(path);
    r := if ok then Some(path) else None;
  }

  /** coap_add_attr for every item: each goes to the front of the list. */
  function AddAttrs(attrs: seq<Attr>, items: seq<Item>): seq<Attr>
    decreases items
  {
    if items == [] then attrs else AddAttrs([AttrOf(items[0])] + attrs, items[1..])
  }

  /** The resource a text makes below its parent. */
  function Made(parent: string, l: Option<Link>): Option<Resource> {
    if l.None? then None else Some(Resource(parent + "/" + l.value.path, AddAttrs([], l.value.items)))
  }

  /** What is left to do once the path and some attributes are known. */
  ghost function Pending(uri: string, attrs: seq<Attr>, rest: string): Option<Resource> {
    var items := ItemsOf(rest);
    if items.None? then None else Some(Resource(uri, AddAttrs(attrs, items.value)))
  }

  lemma PendingLast(uri: string, attrs: seq<Attr>, rest: string)
    requires Cut(rest, ';') == |rest|
    ensures Pending(uri, attrs, rest)
         == if ItemOf(rest).None? then None else Some(Resource(uri, [AttrOf(ItemOf(rest).value)] + attrs))
  {
    hide ItemOf, Cut;
    if ItemOf(rest).Some? {
      var items := [ItemOf(rest).value];
      assert ItemsOf(rest) == Some(items);
      assert items[1..] == [];
      assert AddAttrs(attrs, items) == AddAttrs([AttrOf(items[0])] + attrs, []);
    }
  }

  lemma PendingMore(uri: string, attrs: seq<Attr>, rest: string)
    requires Cut(rest, ';') < |rest|
    ensures (var k := Cut(rest, ';');
             Pending(uri, attrs, rest)
             == if ItemOf(rest[..k]).None? then None
                else Pending(uri, [AttrOf(ItemOf(rest[..k]).value)] + attrs, rest[k + 1..]))
  {
    hide ItemOf, Cut;
    var k := Cut(rest, ';');
    if ItemOf(rest[..k]).Some? && ItemsOf(rest[k + 1..]).Some? {
      var it, items := ItemOf(rest[..k]).value, ItemsOf(rest[k + 1..]).value;
      assert ([it] + items)[1..] == items;
    }
  }

  lemma StartsPending(parent: string, str: string, path: string)
    requires (var k := Cut(str, ';');
              Free(str, ',') && 0 < k < |str| && PathOf(str[..k]) == Some(path))
    ensures Made(parent, LinkOf(str)) == Pending(parent + "/" + path, [], str[Cut(str, ';') + 1..])
  {
  }

  lemma NoLink(parent: string, str: string)
    ensures (var k := Cut(str, ';');
             !Free(str, ',') || k == 0 || k == |str| || PathOf(str[..k]).None? ==> Made(parent, LinkOf(str)) == None)
  {
  }

  method HasComma(str: string) returns (found: bool)
    ensures found == !Free(str, ',')
  {
    var i := Cut(str, ',');
    found := i < |str|;
  }

  /** parseLinkFormat */
  method ParseLinkFormat(str: string, parent: string) returns (r: Option<Resource>)
    ensures r == Made(parent, LinkOf(str))
  {
    hide *;
    NoLink(parent, str);
    var comma := HasComma(str);
    if comma {
      return None;
    }
    var counter := Cut(str, ';');
    if counter == 0 || counter == |str| {
      return None;
    }
    var path := ParsePath(str[..counter]);
    if path.None? {
      return None;
    }
    StartsPending(parent, str, path.value);
    var attrs: seq<Attr> := [];
    while true
      invariant counter < |str|
      invariant Made(parent, LinkOf(str)) == Pending(parent + "/" + path.value, attrs, str[counter + 1..])
      decreases |str| - counter
    {
      var rest := str[counter + 1..];
      var k := Cut(rest, ';');
      var item := ParseOption(rest[..k]);
      if k == |rest| {
        assert rest[..k] == rest;
        PendingLast(parent + "/" + path.value, attrs, rest);
        return if item.None? then None else Some(Resource(parent + "/" + path.value, [item.value] + attrs));
      }
      PendingMore(parent + "/" + path.value, attrs, rest);
      if item.None? {
        return None;
      }
      attrs := [item.value] + attrs;
      counter := counter + 1 + k;
      assert rest[k + 1..] == str[counter + 1..];
    }
  }

  // ----- coap_find_attr

  function FindAttr(attrs: seq<Attr>, name: string): (r: Option<Attr>)
    ensures r.Some? ==> r.value in attrs && r.value.name == name
    ensures r.None? ==> forall i :: 0 <= i < |attrs| ==> attrs[i].name != name
  {
    if attrs == [] then None
    else if attrs[0].name == name then Some(attrs[0])
    else FindAttr(attrs[1..], name)
  }

  /** Of several attributes with one name the last one given is found. */
  lemma {:induction false} FindLastGiven(attrs: seq<Attr>, items: seq<Item>, name: string, k: nat)
    requires k < |items| && items[k].name == name
    requires forall j :: k < j < |items| ==> items[j].name != name
    ensures FindAttr(AddAttrs(attrs, items), name) == Some(AttrOf(items[k]))
    decreases items
  {
    var more := [AttrOf(items[0])] + attrs;
    if k == 0 {
      KeepsFound(more, items[1..], name);
    } else {
      FindLastGiven(more, items[1..], name, k - 1);
    }
  }

  lemma {:induction false} KeepsFound(attrs: seq<Attr>, items: seq<Item>, name: string)
    requires forall j :: 0 <= j < |items| ==> items[j].name != name
    ensures FindAttr(AddAttrs(attrs, items), name) == FindAttr(attrs, name)
    decreases items
  {
    if items != [] {
      var more := [AttrOf(items[0])] + attrs;
      assert more[1..] == attrs;
      KeepsFound(more, items[1..], name);
    }
  }
}
