/** What requests are answered, what they store and until when, in terms of the requests
    and the topics alone. */
module BrokerAnswers {
  import opened Bytes
  import opened LinkFormat
  import opened Messages
  import opened Topics
  import opened VarInt
  import opened BrokerStates
  import opened BrokerRuns
  import opened BrokerTheorems

  // ----- numbers in text

  /** The decimal text of a number reads back as the number, has no leading zero, and as
      many digits as it takes. */
  lemma {:induction false} DecimalOfText(n: nat)
    ensures Digits(Text10(n)) && Decimal(Text10(n)) == n
    ensures Text10(n) != [] && (n > 0 ==> Text10(n)[0] != '0')
    decreases n
  {
    if n >= 10 {
      DecimalOfText(n / 10);
      DigitReads(n % 10);
      TextAppended(Text10(n / 10), Digit(n % 10));
    } else {
      DigitReads(n);
      TextAppended("", Digit(n));
      assert "" + [Digit(n)] == [Digit(n)];
    }
  }

  lemma DigitReads(d: nat)
    requires d < 10
    ensures '0' <= Digit(d) <= '9' && (Digit(d) - '0') as nat == d && (d > 0 ==> Digit(d) != '0')
  {
  }

  lemma TextAppended(s: string, c: char)
    requires Digits(s) && '0' <= c <= '9'
    ensures Digits(s + [c]) && Decimal(s + [c]) == 10 * Decimal(s) + (c - '0') as nat && Decimal("") == 0
  {
    assert (s + [c])[..|s|] == s;
  }

  /** A ct attribute with the text of a number names that content format, and is one
      exactly up to 65535. A text with any other character is none. */
  lemma FormatOfText(r: Resource, n: nat)
    requires FindAttr(r.attrs, "ct").Some? && FindAttr(r.attrs, "ct").value.value == Text10(n) && n < 0x8000_0000
    ensures FormatOk(r) <==> n <= 65535
    ensures n <= 65535 ==> Format(r) == n
  {
    hide FindAttr, Decimal, Text10;
    DecimalOfText(n);
  }

  lemma OtherText(r: Resource, i: nat)
    requires FindAttr(r.attrs, "ct").Some? && i < |FindAttr(r.attrs, "ct").value.value|
    requires !('0' <= FindAttr(r.attrs, "ct").value.value[i] <= '9')
    ensures !FormatOk(r)
  {
    hide FindAttr;
  }

  /** atoi keeps the lowest 32 bits, so a number 2^32 larger names the same format. */
  lemma FormatWraps(r: Resource, n: nat)
    requires FindAttr(r.attrs, "ct").Some? && FindAttr(r.attrs, "ct").value.value == Text10(0x1_0000_0000 + n)
    requires n <= 65535
    ensures FormatOk(r) && Format(r) == n
  {
    hide FindAttr, Decimal, Text10;
    DecimalOfText(0x1_0000_0000 + n);
  }

  // ----- GET

  /** A notification, or a request for the topic's content format. */
  predicate Asks(format: nat, get: Option<Request>, observed: bool) {
    if observed && get.None? then true
    else get.Some? && FirstValue(get.value.opts, 12) == Some(format)
  }

  /** The codes of GET: 4.00 without a content format, 4.15 with another one than the
      topic's, 2.04 when nothing is stored or it has expired, else 2.05. */
  lemma GetDecides(s: State, uri: string, get: Option<Request>, observed: bool, observe: uint32, at: int)
    requires uri in s.resources && FormatOk(s.resources[uri])
    ensures (var r, format, t := GetReply(s, uri, get, observed, observe, at), Format(s.resources[uri]), Find(s.topics, uri);
             var ct := if get.None? then None else FirstValue(get.value.opts, 12);
             var unasked := !(observed && get.None?);
             && r.code in {204, 205, 400, 404, 415}
             && (r.code == 400 <==> unasked && ct.None?)
             && (r.code == 415 <==> unasked && ct.Some? && ct.value != format)
             && (r.code == 404 <==> Asks(format, get, observed) && t.None?)
             && (r.code == 204 <==> Asks(format, get, observed) && t.Some?
                                    && (t.value.data.None? || (t.value.dataMa != 0 && t.value.dataMa < at)))
             && (r.code >= 400 ==> r.opts == []))
  {
    hide FirstValue, Format, FormatOk, Find, VarBytes;
  }

  /** An answer depends on nothing but the topic's entry and its format. */
  lemma GetSame(s: State, t: State, uri: string, get: Option<Request>, observed: bool, observe: uint32, at: int)
    requires uri in s.resources && FormatOk(s.resources[uri]) && uri in t.resources && t.resources[uri] == s.resources[uri]
    requires Find(t.topics, uri) == Find(s.topics, uri)
    ensures GetReply(t, uri, get, observed, observe, at) == GetReply(s, uri, get, observed, observe, at)
  {
  }

  /** What a GET in the topic's format makes of an entry. */
  lemma GetReads(s: State, uri: string, get: Option<Request>, observed: bool, observe: uint32, at: int, t: Topic)
    requires uri in s.resources && FormatOk(s.resources[uri]) && Asks(Format(s.resources[uri]), get, observed)
    requires Find(s.topics, uri) == Some(t) && t.dataMa < at + TWO32
    ensures (var r := GetReply(s, uri, get, observed, observe, at);
             && FirstValue(r.opts, 6) == (if observed then Some(observe) else None)
             && if t.data.None? || (t.dataMa != 0 && t.dataMa < at) then r.code == 204
             else && r.code == 205 && r.payload == t.data.value
                  && FirstValue(r.opts, 12) == Some(Format(s.resources[uri]))
                  && FirstValue(r.opts, 14) == if t.dataMa == 0 then None else Some(t.dataMa - at))
  {
    hide FirstValue, Format, FormatOk, Find, VarBytes;
    var format := Format(s.resources[uri]);
    assert GetReply(s, uri, get, observed, observe, at) == Answer(t, format, observed, observe, at);
    ObserveRead(t, format, observed, observe, at);
    if t.data.Some? && !Expired(t.dataMa, at) {
      AnswerValues(t, format, observed, observe, at);
    }
  }

  /** The observe counter is in the answer exactly for an observer. */
  lemma ObserveRead(t: Topic, format: uint16, observed: bool, observe: uint32, at: int)
    ensures FirstValue(Answer(t, format, observed, observe, at).opts, 6) == if observed then Some(observe) else None
  {
    var opts := Answer(t, format, observed, observe, at).opts;
    var left := (t.dataMa - at) % TWO32;
    var ma := if t.data.None? || Expired(t.dataMa, at) || t.dataMa == 0 then [] else [Opt(MAX_AGE, VarBytes(left))] + [];
    var rest := [Opt(CONTENT_TYPE, VarBytes(format))] + ma;
    assert opts == if observed then [Opt(OBSERVE, VarBytes(observe))] + rest else rest;
    hide FirstValue, VarBytes, Answer;
    NoValue(6);
    FirstValueBehind(Opt(MAX_AGE, VarBytes(left)), [], 6);
    FirstValueBehind(Opt(CONTENT_TYPE, VarBytes(format)), ma, 6);
    FirstValueHere(6, observe, rest);
  }

  // ----- changing one entry

  /** Replacing an entry by one of the same path leaves the others where they are. */
  lemma FindReplaced(ts: seq<Topic>, i: nat, t: Topic, u: string)
    requires i < |ts| && t.path == ts[i].path && i == IndexOf(ts, t.path)
    ensures Find(ts[i := t], t.path) == Some(t)
    ensures u != t.path ==> Find(ts[i := t], u) == Find(ts, u)
  {
    hide IndexOf;
    var us := ts[i := t];
    SameIndex(ts, us, t.path);
    SameIndex(ts, us, u);
  }

  lemma SameIndex(ts: seq<Topic>, us: seq<Topic>, u: string)
    requires |us| == |ts| && forall i :: 0 <= i < |ts| ==> us[i].path == ts[i].path
    ensures IndexOf(us, u) == IndexOf(ts, u)
  {
    hide IndexOf;
    var a, b := IndexOf(ts, u), IndexOf(us, u);
    assert a < |ts| ==> us[a].path == u;
    assert b < |ts| ==> ts[b].path == u;
  }

  // ----- PUT

  /** A PUT is refused with 4.00 without a content format and with 4.15 with another
      one than the topic's, and taken with 2.04 otherwise. */
  lemma PutDecides(s: State, uri: string, req: Request)
    requires Invariant(s) && uri in s.resources && IsTopic(uri)
    ensures FormatOk(s.resources[uri])
    ensures (var code, ct := PutCode(s, uri, req), FirstValue(req.opts, 12);
             && (code == 400 <==> ct.None?)
             && (code == 415 <==> ct.Some? && ct.value != Format(s.resources[uri]))
             && (code == 204 <==> ct == Some(Format(s.resources[uri]))))
  {
    hide FirstValue, Format, FormatOk, Has, Invariant, Find;
    TopicKnown(s, uri);
  }

  /** What a PUT stores, and that it touches nothing else. */
  lemma PutStored(s: State, uri: string, req: Request, at: int, u: string)
    requires Invariant(s) && uri in s.resources && IsTopic(uri) && FormatOk(s.resources[uri])
    ensures (var t, ma := AfterPut(s, uri, req, at), FirstValue(req.opts, 14);
             && t.resources == s.resources && t.now == at && t.earliestTopic == s.earliestTopic
             && (t.earliestData == s.earliestData || (ma.Some? && t.earliestData == at + ma.value)))
    ensures u != uri ==> Find(AfterPut(s, uri, req, at).topics, u) == Find(s.topics, u)
    ensures PutCode(s, uri, req) != 204 ==> AfterPut(s, uri, req, at).topics == s.topics
    ensures Has(s.topics, uri)
    ensures PutCode(s, uri, req) == 204 ==>
      (var was, ma := Find(s.topics, uri).value, FirstValue(req.opts, 14);
       var d := if req.payload.None? || req.payload.value == [] then None else Some(CString(req.payload.value));
       Find(AfterPut(s, uri, req, at).topics, uri)
       == Some(Topic(uri, d, was.topicMa, if ma.None? then 0 else at + ma.value)))
  {
    hide FirstValue, Format, FormatOk, Invariant, PutCode, CString;
    TopicKnown(s, uri);
    if PutCode(s, uri, req) == 204 {
      var i, ma := IndexOf(s.topics, uri), FirstValue(req.opts, 14);
      if req.payload.Some? { assert req.payload.value[..|req.payload.value|] == req.payload.value; }
      var t := Topic(uri, Stored(req.payload, Size(req.payload)), s.topics[i].topicMa, if ma.None? then 0 else at + ma.value);
      FindReplaced(s.topics, i, t, u);
      assert AfterPut(s, uri, req, at).topics == s.topics[i := t];
    }
  }

  /** Data published are read back until their Max-Age has run out, with the time left,
      and without a Max-Age for ever. */
  lemma PublishThenRead(s: State, uri: string, req: Request, at: int, get: Option<Request>, observed: bool,
                        observe: uint32, later: int)
    requires Invariant(s) && Enabled(s, Event.Put(uri, req, at)) && at <= later
    requires FormatOk(s.resources[uri]) && PutCode(s, uri, req) == 204
    requires req.payload.Some? && req.payload.value != [] && 0 !in req.payload.value
    requires Asks(Format(s.resources[uri]), get, observed)
    ensures AfterPut(s, uri, req, at).resources == s.resources
    ensures (var r, ma := GetReply(AfterPut(s, uri, req, at), uri, get, observed, observe, later), FirstValue(req.opts, 14);
             if ma.None? || at + ma.value == 0 then
               r.code == 205 && r.payload == req.payload.value && FirstValue(r.opts, 14) == None
             else if later <= at + ma.value then
               r.code == 205 && r.payload == req.payload.value && FirstValue(r.opts, 14) == Some(ma.value - (later - at))
             else r.code == 204)
  {
    hide FirstValue, Format, FormatOk, Invariant, PutCode, Find, GetReply, AfterPut, CString, Has, Asks;
    TopicKnown(s, uri);
    PutStored(s, uri, req, at, uri);
    var t := AfterPut(s, uri, req, at);
    GetReads(t, uri, get, observed, observe, later, Find(t.topics, uri).value);
  }

  /** A PUT without a payload, or with an empty one, leaves nothing to read. */
  lemma PublishNothing(s: State, uri: string, req: Request, at: int, get: Option<Request>, observed: bool,
                       observe: uint32, later: int)
    requires Invariant(s) && Enabled(s, Event.Put(uri, req, at)) && at <= later
    requires FormatOk(s.resources[uri]) && PutCode(s, uri, req) == 204
    requires req.payload.None? || req.payload.value == []
    requires Asks(Format(s.resources[uri]), get, observed)
    ensures AfterPut(s, uri, req, at).resources == s.resources
    ensures GetReply(AfterPut(s, uri, req, at), uri, get, observed, observe, later).code == 204
  {
    hide FirstValue, Format, FormatOk, Invariant, PutCode, Find, GetReply, AfterPut, CString, Has, Asks;
    TopicKnown(s, uri);
    PutStored(s, uri, req, at, uri);
    var t := AfterPut(s, uri, req, at);
    GetReads(t, uri, get, observed, observe, later, Find(t.topics, uri).value);
  }

  /** No PUT changes what other topics answer, and a refused one changes no answer. */
  lemma PutElsewhere(s: State, uri: string, req: Request, at: int, u: string, get: Option<Request>, observed: bool,
                     observe: uint32, later: int)
    requires Invariant(s) && Enabled(s, Event.Put(uri, req, at)) && u in s.resources && IsTopic(u)
    requires FormatOk(s.resources[uri]) && FormatOk(s.resources[u])
    requires u != uri || PutCode(s, uri, req) != 204
    ensures AfterPut(s, uri, req, at).resources == s.resources
    ensures GetReply(AfterPut(s, uri, req, at), u, get, observed, observe, later)
         == GetReply(s, u, get, observed, observe, later)
  {
    hide FirstValue, Format, FormatOk, Invariant, PutCode, GetReply, AfterPut, CString, Has;
    PutStored(s, uri, req, at, u);
    GetSame(s, AfterPut(s, uri, req, at), u, get, observed, observe, later);
  }

  // ----- MQTT

  /** What an arrival stores: other data than those there replace them and never expire;
      the same data change nothing, and no other topic is touched. */
  lemma ArrivalStores(s: State, name: string, payload: seq<byte>, u: string)
    requires Invariant(s) && IsTopic(name)
    ensures (var t := AfterArrival(s, name, payload);
             && t.resources == s.resources && t.now == s.now
             && t.earliestTopic == s.earliestTopic && t.earliestData == s.earliestData
             && (name !in s.resources ==> t == s)
             && (u != name ==> Find(t.topics, u) == Find(s.topics, u)))
    ensures name in s.resources && payload != [] && 0 !in payload ==>
      (var t, was := AfterArrival(s, name, payload), Find(s.topics, name);
       && was.Some?
       && (was.value.data == Some(payload) ==> t == s)
       && (was.value.data != Some(payload) ==>
             Find(t.topics, name) == Some(Topic(name, Some(payload), was.value.topicMa, 0))))
  {
    hide Invariant, CString;
    if name in s.resources {
      TopicKnown(s, name);
      var i := IndexOf(s.topics, name);
      assert payload[..|payload|] == payload;
      FindReplaced(s.topics, i, Topic(name, Stored(Some(payload), |payload|), s.topics[i].topicMa, 0), u);
    }
  }

  /** Data that have arrived are read, without a Max-Age, unless the very same were there
      already: then a GET is answered as before. */
  lemma ArrivalThenRead(s: State, name: string, payload: seq<byte>, get: Option<Request>, observed: bool,
                        observe: uint32, later: int)
    requires Invariant(s) && IsTopic(name) && name in s.resources && payload != [] && 0 !in payload && s.now <= later
    requires FormatOk(s.resources[name]) && Asks(Format(s.resources[name]), get, observed)
    ensures AfterArrival(s, name, payload).resources == s.resources && Find(s.topics, name).Some?
    ensures Find(AfterArrival(s, name, payload).topics, name).Some?
    ensures Find(AfterArrival(s, name, payload).topics, name).value.data == Some(payload)
    ensures (var r := GetReply(AfterArrival(s, name, payload), name, get, observed, observe, later);
             if Find(s.topics, name).value.data != Some(payload) then
               r.code == 205 && r.payload == payload && FirstValue(r.opts, 14) == None
             else r == GetReply(s, name, get, observed, observe, later))
  {
    hide FirstValue, Format, FormatOk, Invariant, Find, GetReply, AfterArrival, Has, Asks;
    TopicKnown(s, name);
    ArrivalStores(s, name, payload, name);
    var t := AfterArrival(s, name, payload);
    if Find(s.topics, name).value.data != Some(payload) {
      GetReads(t, name, get, observed, observe, later, Find(t.topics, name).value);
    }
  }

  /** So the arrival of the very data that have expired does not bring them back. */
  lemma ExpiredStays(s: State, name: string, payload: seq<byte>, get: Option<Request>, observed: bool,
                     observe: uint32, later: int)
    requires Invariant(s) && IsTopic(name) && name in s.resources && payload != [] && 0 !in payload && s.now <= later
    requires FormatOk(s.resources[name]) && Asks(Format(s.resources[name]), get, observed)
    requires Find(s.topics, name).Some? && Find(s.topics, name).value.data == Some(payload)
    requires 0 < Find(s.topics, name).value.dataMa < later
    ensures AfterArrival(s, name, payload).resources == s.resources
    ensures GetReply(AfterArrival(s, name, payload), name, get, observed, observe, later).code == 204
  {
    hide FirstValue, Format, FormatOk, Invariant, Find, AfterArrival, Has, Asks;
    ArrivalThenRead(s, name, payload, get, observed, observe, later);
    GetDecides(s, name, get, observed, observe, later);
  }

  // ----- POST

  /** The attributes of a link, the last one given first. */
  lemma {:induction false} AttrsReversed(attrs: seq<Attr>, items: seq<Item>)
    ensures (var r, n := AddAttrs(attrs, items), |items|;
             && |r| == n + |attrs| && r[n..] == attrs
             && forall i :: 0 <= i < n ==> r[i].name == items[n - 1 - i].name && r[i].value == items[n - 1 - i].value)
    decreases items
  {
    if items != [] {
      AttrsReversed([AttrOf(items[0])] + attrs, items[1..]);
      var r, n := AddAttrs(attrs, items), |items|;
      assert r[n - 1..] == [AttrOf(items[0])] + attrs;
      assert r[n - 1] == r[n - 1..][0] && r[n..] == r[n - 1..][1..];
    }
  }

  predicate Printable(s: string) {
    forall i :: 0 <= i < |s| ==> 0 < s[i] as int < 0x80
  }

  lemma PrintableConcat(a: string, b: string)
    requires Printable(a) && Printable(b)
    ensures Printable(a + b)
  {
  }

  lemma ItemPrintable(it: Item)
    requires WellFormedItem(it)
    ensures Printable(PrintItem(it))
  {
    assert Printable(it.name) && Printable(it.value) && Printable("=");
    PrintableConcat(Quote(it.opening) + it.value, Quote(it.closing));
    PrintableConcat("=", Raw(it));
    PrintableConcat(it.name, "=" + Raw(it));
  }

  lemma {:induction false} ItemsPrintable(items: seq<Item>)
    requires WellFormedItems(items)
    ensures Printable(PrintItems(items))
  {
    if items != [] {
      ItemPrintable(items[0]);
      ItemsPrintable(items[1..]);
      hide WellFormedItem, PrintItem;
      PrintableConcat(PrintItem(items[0]), PrintItems(items[1..]));
      PrintableConcat(";", PrintItem(items[0]) + PrintItems(items[1..]));
    }
  }

  /** A POST of a printed link describes the resource of that path below its parent, with
      the attributes of the link. */
  lemma LinkDescribes(parent: string, l: Link, req: Request)
    requires WellFormed(l) && req.payload == Some(Ascii(Print(l)))
    ensures Described(parent, req).Some?
    ensures (var r, n := Described(parent, req).value, |l.items|;
             && r.uri == parent + "/" + l.path && |r.attrs| == n
             && forall i :: 0 <= i < n ==> r.attrs[i] == Attr(l.items[n - 1 - i].name, l.items[n - 1 - i].value))
  {
    hide LinkOf, CString, Text, Ascii, AddAttrs, PrintItems, WellFormedItems;
    ItemsPrintable(l.items);
    assert Printable(l.path);
    PrintableConcat("<" + l.path + ">", PrintItems(l.items));
    AsciiText(Print(l));
    ParsePrint(l);
    AttrsReversed([], l.items);
  }

  /** The codes of POST in the order of the checks: 4.00 unless the payload is a link with
      a ct attribute and the content format is link-format, 4.06 if that attribute names
      no content format, 4.03 if the resource is there, else 2.01. */
  lemma PostDecides(s: State, parent: string, req: Request, at: int)
    ensures (var d, code := Described(parent, req), PostReply(s, parent, req).code;
             var linked := FirstValue(req.opts, 12) == Some(40) && d.Some? && FindAttr(d.value.attrs, "ct").Some?;
             && (code == 400 <==> !linked)
             && (code == 406 <==> linked && !FormatOk(d.value))
             && (code == 403 <==> linked && FormatOk(d.value) && d.value.uri in s.resources)
             && (code == 201 <==> linked && FormatOk(d.value) && d.value.uri !in s.resources)
             && (code == 400 || code == 406 ==> AfterPost(s, parent, req, at) == s.(now := at)))
  {
    hide FirstValue, Described, FindAttr, FormatOk;
  }

  /** What a POST stores: a new topic without data, or another expiry time for one that is
      there, whose empty data it drops; every other topic stays as it was. */
  lemma PostStored(s: State, parent: string, req: Request, at: int, u: string)
    requires Invariant(s) && Enabled(s, Posted(parent, req, at))
    ensures AfterPost(s, parent, req, at).now == at && AfterPost(s, parent, req, at).earliestData == s.earliestData
    ensures (var t, code, ma := AfterPost(s, parent, req, at), PostReply(s, parent, req).code, FirstValue(req.opts, 14);
             var expiry := if ma.None? || ma.value == 0 then 0 else at + ma.value;
             && (t.earliestTopic == s.earliestTopic || t.earliestTopic == expiry)
             && (code == 201 ==>
                   var r := Described(parent, req).value;
                   && t.resources == s.resources[r.uri := r]
                   && Find(t.topics, r.uri) == Some(Topic(r.uri, None, expiry, 0))
                   && (u != r.uri ==> Find(t.topics, u) == Find(s.topics, u)))
             && (code == 403 ==>
                   var uri := Described(parent, req).value.uri;
                   && t.resources == s.resources && Find(s.topics, uri).Some?
                   && (var was := Find(s.topics, uri).value;
                       Find(t.topics, uri) == Some(Topic(uri, if was.data == Some([]) then None else was.data, expiry, was.dataMa)))
                   && (u != uri ==> Find(t.topics, u) == Find(s.topics, u))))
  {
    hide FirstValue, Described, FindAttr, FormatOk, Has, Invariant, IndexOf;
    var ma := TopicExpiry(req, at);
    match Judge(s, parent, req)
    case Creates(r) =>
      DescribedBelow(parent, req);
      NotThere(s, r.uri);
      UpsertNew(s.topics, r.uri, ma);
      FindAppended(s.topics, Topic(r.uri, None, ma, 0), u);
    case Exists(uri) =>
      DescribedBelow(parent, req);
      TopicKnown(s, uri);
      InfoFind(s.topics, uri, ma, u);
      CleanEntry(s, uri);
    case _ =>
  }

  lemma NotThere(s: State, uri: string)
    requires Invariant(s) && IsTopic(uri) && uri !in s.resources
    ensures !Has(s.topics, uri)
  {
    hide Has;
  }

  /** A topic's data hold no NUL byte, so storing them again changes nothing but that
      empty ones go. */
  lemma CleanEntry(s: State, uri: string)
    requires Invariant(s) && Has(s.topics, uri)
    ensures (var d := Find(s.topics, uri).value.data;
             Stored(d, if d.None? then 0 else |d.value|) == if d == Some([]) then None else d)
  {
    hide Agree, Sound, Bounded, Formats, IndexOf;
    var d := s.topics[IndexOf(s.topics, uri)].data;
    if d.Some? {
      assert 0 !in d.value;
      assert d.value[..|d.value|] == d.value;
    }
  }

  lemma InfoFind(ts: seq<Topic>, uri: string, ma: int, u: string)
    requires Has(ts, uri)
    ensures (var was := Find(ts, uri).value;
             Find(WithInfo(ts, uri, ma), uri)
             == Some(Topic(uri, Stored(was.data, if was.data.None? then 0 else |was.data.value|), ma, was.dataMa)))
    ensures u != uri ==> Find(WithInfo(ts, uri, ma), u) == Find(ts, u)
  {
    hide IndexOf, Stored;
    var was := ts[IndexOf(ts, uri)];
    FindReplaced(ts, IndexOf(ts, uri), Topic(uri, Stored(was.data, if was.data.None? then 0 else |was.data.value|), ma, was.dataMa), u);
  }

  lemma {:induction false} FindAppended(ts: seq<Topic>, t: Topic, u: string)
    requires !Has(ts, t.path)
    ensures Find(ts + [t], t.path) == Some(t)
    ensures u != t.path ==> Find(ts + [t], u) == Find(ts, u)
  {
    IndexAppended(ts, t, t.path);
    IndexAppended(ts, t, u);
  }

  lemma IndexAppended(ts: seq<Topic>, t: Topic, u: string)
    ensures IndexOf(ts + [t], u) == if Has(ts, u) then IndexOf(ts, u) else if t.path == u then |ts| else |ts| + 1
  {
    hide IndexOf;
    var us := ts + [t];
    var a, b := IndexOf(ts, u), IndexOf(us, u);
    assert forall i :: 0 <= i < |ts| ==> us[i] == ts[i];
    assert us[|ts|] == t;
    assert b < |ts| ==> ts[b].path == u;
    assert a < |ts| ==> us[a].path == u;
  }

  /** A topic posted with a Max-Age goes in the first pass of the topic monitor that starts
      after it, stays in every pass that ends by then, and without one stays in every pass. */
  lemma PostedTopicLives(s: State, parent: string, req: Request, at: int, readings: seq<int>)
    requires Invariant(s) && Enabled(s, Posted(parent, req, at)) && PostReply(s, parent, req).code in {201, 403}
    requires Readings(AfterPost(s, parent, req, at), readings)
    ensures (var t, ma := AfterTopicMonitor(AfterPost(s, parent, req, at), readings), FirstValue(req.opts, 14);
             var uri := Described(parent, req).value.uri;
             if ma.None? || ma.value == 0 then Has(t.topics, uri) && uri in t.resources
             else && (readings[0] > at + ma.value ==> !Has(t.topics, uri) && uri !in t.resources)
                  && (readings[|readings| - 1] <= at + ma.value ==> Has(t.topics, uri) && uri in t.resources))
  {
    hide FirstValue, Described, Invariant, AfterPost, AfterTopicMonitor, PostReply, IndexOf, Readings;
    ClockRuns(s);
    DescribedUri(s, parent, req);
    PostStored(s, parent, req, at, "");
    PostKeeps(s, parent, req, at);
    var s' := AfterPost(s, parent, req, at);
    var uri := Described(parent, req).value.uri;
    var t := Find(s'.topics, uri).value;
    assert t in s'.topics;
    TopicMonitorRemoves(s', readings, t);
    TopicMonitorKeeps(s', readings);
    AgreeOn(AfterTopicMonitor(s', readings), uri, t);
  }

  lemma ClockRuns(s: State)
    requires Invariant(s)
    ensures s.now >= 0
  {
  }

  lemma DescribedUri(s: State, parent: string, req: Request)
    requires PostReply(s, parent, req).code in {201, 403} && (parent == "ps" || IsTopic(parent))
    ensures Described(parent, req).Some? && IsTopic(Described(parent, req).value.uri)
  {
    hide Described, FirstValue, FindAttr, FormatOk;
    PostDecides(s, parent, req, 0);
    DescribedBelow(parent, req);
  }

  lemma AgreeOn(s: State, uri: string, t: Topic)
    requires Invariant(s) && IsTopic(uri)
    ensures Has(s.topics, uri) <==> uri in s.resources
    ensures t in s.topics && t.path == uri ==> Has(s.topics, uri)
  {
    hide Has;
    PathIn(s.topics, uri);
    HasPath(s.topics, uri);
  }

  // ----- the cached times

  /** The next cached value is the least expiry time but for none and the old one. */
  lemma {:induction false} NextDataLeast(ts: seq<Topic>, stale: int)
    ensures (var next := NextData(ts, stale);
             && next <= LONG_MAX
             && (forall i :: 0 <= i < |ts| && ts[i].dataMa != 0 && ts[i].dataMa != stale ==> next <= ts[i].dataMa)
             && (next == LONG_MAX || exists i :: 0 <= i < |ts| && ts[i].dataMa == next && next != 0 && next != stale))
  {
    if ts != [] {
      NextDataLeast(ts[..|ts| - 1], stale);
    }
  }

  lemma {:induction false} NextTopicLeast(ts: seq<Topic>, stale: int)
    ensures (var next := NextTopic(ts, stale);
             && next <= LONG_MAX
             && (forall i :: 0 <= i < |ts| && ts[i].topicMa != 0 && ts[i].topicMa != stale ==> next <= ts[i].topicMa)
             && (next == LONG_MAX || exists i :: 0 <= i < |ts| && ts[i].topicMa == next && next != 0 && next != stale))
  {
    if ts != [] {
      NextTopicLeast(ts[..|ts| - 1], stale);
    }
  }
}
