/** Error responses sized in one pass and written in another (net.c,
    coap_new_error_response). */
module ErrorResponse {
  import opened Bytes
  import opened OptionCodec
  import opened Messages
  import opened OptionFilter
  import opened OptionIterator
  import opened Pdus

  const CON := 0
  const NON := 1
  const ACK := 2
  const CONTENT_TYPE: uint16 := 12

  predicate HasToken(bs: seq<byte>) {
    4 <= |bs| && 4 + bs[0] % 16 <= |bs|
  }

  /** The options of the message `bs` whose numbers are in `types`. */
  function Found(bs: seq<byte>, types: set<uint16>): seq<Opt>
    requires HasToken(bs)
  {
    Select(ScanOpts(bs[4 + bs[0] % 16..], 0), Some(types))
  }

  /** Bytes the first pass counts for a delta; unlike the encoder it compares
      with 269. */
  function DeltaCost(delta: uint16): nat {
    if delta < 13 then 1 else if delta < 269 then 2 else 3
  }

  /** What the first pass counts covers what the encoder writes, and exactly so
      off the boundary. `first` is the option's first byte in the request. */
  lemma CostCovers(delta: uint16, raw: seq<byte>, value: seq<byte>)
    requires ParseOption(raw).Some? && ParseOption(raw).value.value == value
    ensures var cost := DeltaCost(delta) + |value| + ExtSize(raw[0] % 16);
            && |Encode(delta, value)| <= cost <= |Encode(delta, value)| + 2
            && (delta != 269 && |value| != 269 ==> cost == |Encode(delta, value)|)
  {
  }

  predicate Boundary(o: Opt, prev: uint16)
    requires prev <= o.number
  {
    o.number - prev == 269 || |o.value| == 269
  }

  /** Options off the boundary, whatever their length. */
  predicate Clear(opts: seq<Opt>, prev: uint16)
    requires Sorted(opts, prev)
  {
    opts == [] || (!Boundary(opts[0], prev) && Clear(opts[1..], opts[0].number))
  }

  lemma {:induction false} ClearAppend(opts: seq<Opt>, prev: uint16, o: Opt)
    requires Sorted(opts, prev) && Last(opts, prev) <= o.number
    requires Sorted(opts + [o], prev)
    ensures Clear(opts + [o], prev) <==> Clear(opts, prev) && !Boundary(o, Last(opts, prev))
  {
    if opts == [] {
      assert (opts + [o])[1..] == [];
    } else {
      assert (opts + [o])[1..] == opts[1..] + [o];
      assert Last(opts[1..], opts[0].number) == Last(opts, prev);
      ClearAppend(opts[1..], opts[0].number, o);
    }
  }

  /** A list is sorted exactly when each prefix extended by the next option is. */
  lemma {:induction false} SortedSplit(a: seq<Opt>, b: seq<Opt>, prev: uint16)
    ensures Sorted(a + b, prev) <==> Sorted(a, prev) && Sorted(b, Last(a, prev))
  {
    if a == [] {
      assert a + b == b;
    } else {
      assert (a + b)[1..] == a[1..] + b;
      assert Last(a[1..], a[0].number) == Last(a, prev);
      SortedSplit(a[1..], b, a[0].number);
    }
  }

  /** The value of the option at `at`, read with coap_opt_length and coap_opt_value. */
  method ValueAt(buf: array<byte>, at: nat, ghost raw: seq<byte>, ghost value: seq<byte>) returns (v: seq<byte>)
    requires OptionAt(buf, at, raw, value) && |value| < 0x1_0000
    ensures v == value
  {
    hide ParseOption, HeaderSize;
    ValueShape(buf, at, raw, value);
    var off := OptValue(buf, at, raw);
    var length := OptLength(buf, at, raw);
    v := buf[off.value..off.value + length];
  }

  lemma ValueShape(buf: array<byte>, at: nat, raw: seq<byte>, value: seq<byte>)
    requires OptionAt(buf, at, raw, value)
    ensures Holds(buf, at, raw) && ParseOption(raw).Some? && ParseOption(raw).value.value == value
    ensures |raw| > 0 && |raw| >= HeaderSize(raw[0])
  {
  }

  /** coap_option_next with the value of the option it delivers. */
  method NextValue(it: OptIterator) returns (found: bool, value: seq<byte>, first: byte, ghost opt: Opt, ghost raw: seq<byte>)
    requires it.Valid() && it.buf.Length <= MAX_PDU_SIZE
    modifies it
    ensures it.Valid() && it.Types() == old(it.Types())
    ensures Select(old(it.Remaining()), it.Types())
         == if found then [opt] + Select(it.Remaining(), it.Types()) else []
    ensures found ==> opt == Opt(it.number, value) && raw != [] && raw[0] == first
    ensures found ==> ParseOption(raw).Some? && ParseOption(raw).value.value == value
    ensures found ==> it.length < old(it.length)
  {
    hide ScanOpts, Select, ParseOption, OptionAt;
    found, value, first := false, [], 0;
    var r;
    r, opt, raw := it.Next();
    if r.None? { return; }
    RawShape(it.buf, r.value, raw, opt.value);
    value := ValueAt(it.buf, r.value, raw, opt.value);
    found, first := true, it.buf[r.value];
  }

  lemma RawShape(buf: array<byte>, at: nat, raw: seq<byte>, value: seq<byte>)
    requires OptionAt(buf, at, raw, value)
    requires buf.Length <= MAX_PDU_SIZE
    ensures |value| < 0x1_0000 && at < buf.Length && raw != [] && buf[at] == raw[0]
    ensures ParseOption(raw).Some? && ParseOption(raw).value.value == value
  {
  }

  /** The size is never too small for the options, and too large by at most two
      bytes each. */
  ghost predicate Bounds(base: nat, size: nat, done: seq<Opt>) {
    Sorted(done, 0) ==>
      var exact := base + |EncodeOpts(done, 0)|;
      exact <= size <= exact + 2 * |done| && (Clear(done, 0) ==> size == exact)
  }

  /** The loop of the first pass, starting from `base`; `done` are the options found. */
  method EstimateSize(request: Pdu, filter: OptFilter, base: nat) returns (size: nat, ghost done: seq<Opt>)
    requires request.Valid() && HasToken(request.View().bytes) && filter.Valid()
    ensures done == Found(request.View().bytes, filter.Types())
    ensures Bounds(base, size, done) && size >= base
  {
    hide ScanOpts, Select, ParseOption, Bounds, ExtSize, DeltaCost, OptIterator.Valid, OptFilter.Valid, OptFilter.Types, Holds, Found;
    FoundIs(request.View().bytes, filter.Types());
    var it := new OptIterator(request, filter);
    ghost var all, types := Select(it.Remaining(), it.Types()), it.Types();
    size, done := base, [];
    var prev: uint16 := 0;
    BoundsEmpty(base);
    while true
      invariant it.Valid() && it.buf == request.buf && it.Types() == types && fresh(it)
      invariant done + Select(it.Remaining(), types) == all
      invariant prev == Last(done, 0)
      invariant Bounds(base, size, done) && size >= base
      decreases it.length
    {
      var found, value, first, opt, raw := NextValue(it);
      if !found { break; }
      var delta := (it.number - prev) % 0x1_0000;
      var cost := DeltaCost(delta) + |value| + ExtSize(first % 16);
      BoundsStep(base, size, cost, done, opt, raw);
      size := size + cost;
      Regroup(done, opt, Select(it.Remaining(), types));
      done := done + [opt];
      prev := it.number;
    }
  }

  lemma FoundIs(bs: seq<byte>, types: set<uint16>)
    requires HasToken(bs)
    ensures Found(bs, types) == Select(ScanOpts(bs[4 + bs[0] % 16..], 0), Some(types))
  {
  }

  lemma Regroup<T>(a: seq<T>, x: T, b: seq<T>)
    ensures a + ([x] + b) == a + [x] + b
  {
  }

  lemma BoundsEmpty(base: nat)
    ensures Bounds(base, base, [])
  {
  }

  lemma BoundsStep(base: nat, size: nat, cost: nat, done: seq<Opt>, o: Opt, raw: seq<byte>)
    requires ParseOption(raw).Some? && ParseOption(raw).value.value == o.value
    requires Last(done, 0) <= o.number ==>
               cost == DeltaCost(o.number - Last(done, 0)) + |o.value| + ExtSize(raw[0] % 16)
    requires Bounds(base, size, done)
    ensures Bounds(base, size + cost, done + [o])
  {
    SortedSplit(done, [o], 0);
    if Sorted(done + [o], 0) {
      assert Last(done, 0) <= o.number;
      var delta := o.number - Last(done, 0);
      hide Encode, ParseOption, EncodeOpts, Clear, Sorted, Last, DeltaCost, ExtSize;
      CostCovers(delta, raw, o.value);
      EncodeOptsAppend(done, 0, o);
      ClearAppend(done, 0, o);
    }
  }

  lemma {:induction false} EncodeOptsConcat(a: seq<Opt>, b: seq<Opt>, prev: uint16)
    requires Sorted(a + b, prev)
    ensures Sorted(a, prev) && Sorted(b, Last(a, prev))
    ensures EncodeOpts(a + b, prev) == EncodeOpts(a, prev) + EncodeOpts(b, Last(a, prev))
  {
    hide Encode;
    SortedSplit(a, b, prev);
    if a == [] {
      assert a + b == b;
    } else {
      assert (a + b)[1..] == a[1..] + b;
      assert Last(a[1..], a[0].number) == Last(a, prev);
      EncodeOptsConcat(a[1..], b, a[0].number);
      ConcatAssociative(Encode(a[0].number - prev, a[0].value), EncodeOpts(a[1..], a[0].number),
                        EncodeOpts(b, Last(a, prev)));
    }
  }

  lemma ConcatAssociative(a: seq<byte>, b: seq<byte>, c: seq<byte>)
    ensures a + (b + c) == a + b + c
  {
  }

  /** The second pass: `ok` records whether every coap_add_option succeeded,
      which is when the option numbers never decrease. */
  method CopyOptions(request: Pdu, filter: OptFilter, response: Pdu, ghost m: Message, ghost opts: seq<Opt>)
    returns (ghost ok: bool)
    requires request.Valid() && HasToken(request.View().bytes) && filter.Valid()
    requires opts == Found(request.View().bytes, filter.Types())
    requires response.Valid() && response != request && response.buf != request.buf
    requires Built(response.View(), m) && m.opts == [] && m.payload == []
    requires Sorted(opts, 0) ==> |Serialize(m)| + |EncodeOpts(opts, 0)| <= response.buf.Length
    modifies response, response.buf
    ensures response.Valid() && ok == Sorted(opts, 0) && old(response.View().bytes) <= response.View().bytes
    ensures ok ==> Built(response.View(), m.(opts := opts))
  {
    hide ScanOpts, Select, ParseOption, Encode, Serialize, EncodeOpts, Sorted, Built, WithOption, OptionFits,
         OptFilter.Valid, OptFilter.Types, Holds, PduState.Valid;
    var it := new OptIterator(request, filter);
    ghost var types, done: seq<Opt>, start := it.Types(), [], response.View().bytes;
    ok := true;
    CopyBase(m, opts);
    BuiltValid(response.View(), m);
    AtMostMax(request.View());
    while true
      invariant it.Valid() && it.buf == request.buf && it.Types() == types && fresh(it)
      invariant done + Select(it.Remaining(), types) == opts
      invariant response.Valid() && start <= response.View().bytes
      invariant ok ==> Sorted(done, 0) && Built(response.View(), m.(opts := done))
      invariant Sorted(opts, 0) ==> ok
      decreases it.length
    {
      var found, value, _, opt, _ := NextValue(it);
      ghost var rest := Select(it.Remaining(), types);
      if !found {
        assert done + [] == done;
        break;
      }
      Regroup(done, opt, rest);
      ok := CopyOne(response, it.number, value, m, done, rest, ok);
      done := done + [opt];
    }
  }

  /** One option of the second pass, behind those copied and before those to come. */
  method CopyOne(response: Pdu, number: uint16, value: seq<byte>, ghost m: Message, ghost done: seq<Opt>,
                 ghost rest: seq<Opt>, ghost ok: bool)
    returns (ghost ok': bool)
    requires response.Valid() && m.opts == [] && m.payload == []
    requires ok ==> Sorted(done, 0) && Built(response.View(), m.(opts := done))
    requires var all := done + [Opt(number, value)] + rest;
             Sorted(all, 0) ==> ok && m.Valid() && |Serialize(m)| + |EncodeOpts(all, 0)| <= response.buf.Length
    modifies response, response.buf
    ensures response.Valid() && old(response.View().bytes) <= response.View().bytes
    ensures ok' ==> Sorted(done + [Opt(number, value)], 0) && Built(response.View(), m.(opts := done + [Opt(number, value)]))
    ensures Sorted(done + [Opt(number, value)] + rest, 0) ==> ok'
  {
    hide Encode, Serialize, EncodeOpts, Sorted, Built, WithOption, OptionFits;
    ghost var before := response.View();
    if ok {
      CopyStep(before, m, done, Opt(number, value), rest);
    }
    OptionBehind(before, number, value);
    var size := response.AddOption(number, value);
    ok' := ok && OptionFits(before, number, value);
  }

  lemma AtMostMax(p: PduState)
    requires p.Valid()
    ensures |p.bytes| <= p.max <= MAX_PDU_SIZE
  {
  }

  lemma BuiltValid(p: PduState, m: Message)
    requires Built(p, m)
    ensures m.Valid()
  {
  }

  lemma OptionBehind(p: PduState, number: uint16, value: seq<byte>)
    requires p.Valid()
    ensures p.bytes <= WithOption(p, number, value).bytes
  {
    hide Encode;
  }

  lemma DataBehind(p: PduState, payload: seq<byte>)
    requires p.Valid()
    ensures p.bytes <= WithData(p, payload).bytes
  {
  }

  lemma CopyBase(m: Message, opts: seq<Opt>)
    requires m.opts == []
    ensures Sorted([], 0) && m.(opts := []) == m && [] + opts == opts
  {
  }

  /** With numbers in order there is room for the next option; without room or
      out of order the list as a whole cannot be copied. */
  lemma CopyStep(p: PduState, m: Message, done: seq<Opt>, o: Opt, rest: seq<Opt>)
    requires Sorted(done, 0) && m.opts == [] && m.payload == []
    requires Built(p, m.(opts := done))
    requires var all := done + [o] + rest;
             Sorted(all, 0) ==> |Serialize(m)| + |EncodeOpts(all, 0)| <= p.max
    ensures Sorted(done + [o] + rest, 0) ==> OptionFits(p, o.number, o.value)
    ensures OptionFits(p, o.number, o.value) ==>
              Sorted(done + [o], 0) && Built(WithOption(p, o.number, o.value), m.(opts := done + [o]))
  {
    var all := done + [o] + rest;
    SerializeLength(m, done);
    hide Serialize;
    SortedSplit(done, [o], 0);
    if Sorted(all, 0) {
      EncodeOptsConcat(done + [o], rest, 0);
      EncodeOptsAppend(done, 0, o);
    }
    if OptionFits(p, o.number, o.value) {
      hide Encode, Serialize, EncodeOpts;
      BuiltOption(p, m.(opts := done), o.number, o.value);
      assert o == Opt(o.number, o.value);
    }
  }

  function PhraseRoom(phrase: Option<seq<byte>>): nat {
    if phrase.None? then 0 else |phrase.value| + 1
  }

  /** The response to the request bytes `bs` that carries these options. */
  function Expected(bs: seq<byte>, code: byte, opts: seq<Opt>, phrase: Option<seq<byte>>): Message
    requires HasToken(bs)
  {
    Message(1, if bs[0] / 16 % 4 == CON then ACK else NON, code, (bs[2], bs[3]),
            bs[4..4 + bs[0] % 16], opts, if phrase.None? then [] else phrase.value)
  }

  /** Header and token of a response, byte by byte: version 1, an acknowledgement (2)
      exactly for a confirmable request (0) and a non-confirmable message (1) otherwise,
      the code, and message id, token length and token of the request. */
  ghost predicate HeaderAnswers(rs: seq<byte>, bs: seq<byte>, code: byte)
    requires HasToken(bs)
  {
    && |rs| >= 4 + bs[0] % 16
    && rs[0] / 64 == 1 && rs[0] / 16 % 4 == (if bs[0] / 16 % 4 == 0 then 2 else 1) && rs[0] % 16 == bs[0] % 16
    && rs[1] == code && rs[2] == bs[2] && rs[3] == bs[3]
    && rs[4..4 + bs[0] % 16] == bs[4..4 + bs[0] % 16]
  }

  lemma HeaderWritten(p: PduState, bs: seq<byte>, code: byte)
    requires HasToken(bs) && Built(p, Expected(bs, code, [], None))
    ensures HeaderAnswers(p.bytes, bs, code)
  {
    hide Serialize, EncodeOpts;
    var m := Expected(bs, code, [], None);
    BodyOf(m);
    HeaderFields(m, EncodeOpts(m.opts, 0) + PayloadPart(m.payload));
  }

  lemma HeaderStays(rs: seq<byte>, rs': seq<byte>, bs: seq<byte>, code: byte)
    requires HasToken(bs) && HeaderAnswers(rs, bs, code) && rs <= rs'
    ensures HeaderAnswers(rs', bs, code)
  {
    assert rs'[4..4 + bs[0] % 16] == rs[4..4 + bs[0] % 16];
  }

  /** What a client parses of the response: an acknowledgement exactly for a confirmable
      request, with the request's id and token, these options and the phrase. */
  ghost predicate Parses(rs: seq<byte>, bs: seq<byte>, code: byte, opts: seq<Opt>, phrase: seq<byte>)
    requires HasToken(bs)
  {
    ParseMessage(rs) == Some(Message(1, if bs[0] / 16 % 4 == 0 then 2 else 1, code, (bs[2], bs[3]),
                                     bs[4..4 + bs[0] % 16], opts, phrase))
  }

  lemma ErrorRead(p: PduState, bs: seq<byte>, code: byte, opts: seq<Opt>, phrase: Option<seq<byte>>)
    requires HasToken(bs) && Built(p, Expected(bs, code, opts, phrase)) && OffBoundary(opts, 0) && code != 0
    ensures Parses(p.bytes, bs, code, opts, if phrase.None? then [] else phrase.value)
  {
    hide ParseMessage, Serialize, OffBoundary;
    BuiltReads(p, Expected(bs, code, opts, phrase));
  }

  /** coap_new_error_response. `filter` loses the content type; `null` stands for
      a failed allocation or a bad token. Every later write succeeds exactly when
      the copied option numbers are in order, and then the response holds just
      the token, those options and the phrase. */
  method NewErrorResponse(request: Pdu, code: byte, phrase: Option<seq<byte>>, filter: OptFilter)
    returns (response: Pdu?, ghost ok: bool, ghost size: nat)
    requires request.Valid() && HasToken(request.View().bytes) && filter.Valid()
    requires request.buf !in filter.Footprint()
    modifies filter.Footprint()
    ensures filter.Valid() && filter.Types() == old(filter.Types()) - {12}
    ensures Bounds(4 + request.View().bytes[0] % 16 + PhraseRoom(phrase), size, Found(request.View().bytes, filter.Types()))
    ensures response == null <==> size > MAX_PDU_SIZE || request.View().bytes[0] % 16 > 8
    ensures response != null ==>
              var opts := Found(request.View().bytes, filter.Types());
              && response.Valid() && ok == Sorted(opts, 0)
              && (ok ==> Built(response.View(), Expected(request.View().bytes, code, opts, phrase)))
    ensures response != null ==> HeaderAnswers(response.View().bytes, request.View().bytes, code)
    ensures response != null ==>
              var opts := Found(request.View().bytes, filter.Types());
              Sorted(opts, 0) && OffBoundary(opts, 0) && code != 0 ==>
                Parses(response.View().bytes, request.View().bytes, code, opts, if phrase.None? then [] else phrase.value)
  {
    hide Found, Bounds, Expected, HeaderAnswers, Parses, OffBoundary, Built, Sorted;
    var base := 4 + request.buf[0] % 16 + PhraseRoom(phrase);
    var _ := filter.Unset(CONTENT_TYPE);
    ghost var opts;
    var total;
    total, opts := EstimateSize(request, filter, base);
    size, ok, response := total, false, null;
    if total > MAX_PDU_SIZE { return; }
    response, ok := WriteResponse(request, code, phrase, filter, total, opts);
    if response != null && ok && OffBoundary(opts, 0) && code != 0 {
      ErrorRead(response.View(), request.View().bytes, code, opts, phrase);
    }
  }

  /** What follows once the size is known. */
  method WriteResponse(request: Pdu, code: byte, phrase: Option<seq<byte>>, filter: OptFilter,
                       size: nat, ghost opts: seq<Opt>)
    returns (response: Pdu?, ghost ok: bool)
    requires request.Valid() && HasToken(request.View().bytes) && filter.Valid()
    requires opts == Found(request.View().bytes, filter.Types())
    requires size <= MAX_PDU_SIZE && size >= 4 + request.View().bytes[0] % 16 + PhraseRoom(phrase)
    requires Bounds(4 + request.View().bytes[0] % 16 + PhraseRoom(phrase), size, opts)
    ensures response == null <==> request.View().bytes[0] % 16 > 8
    ensures response != null ==>
              && fresh(response) && response.Valid() && ok == Sorted(opts, 0)
              && HeaderAnswers(response.View().bytes, request.View().bytes, code)
              && (ok ==> Built(response.View(), Expected(request.View().bytes, code, opts, phrase)))
  {
    hide Found, Bounds, Sorted, Serialize, EncodeOpts, Built, WithData, DataFits, HeaderAnswers;
    response := StartResponse(request, code, size);
    ok := false;
    if response == null { return; }
    ghost var m := Expected(request.View().bytes, code, [], None);
    SizeSuffices(size, response.View(), m, opts, phrase);
    ghost var start := response.View().bytes;
    HeaderWritten(response.View(), request.View().bytes, code);
    ok := CopyOptions(request, filter, response, m, opts);
    if phrase.Some? {
      if ok { PhraseFits(response.View(), m, opts, phrase.value); }
      DataBehind(response.View(), phrase.value);
      var _ := response.AddData(phrase.value);
    }
    HeaderStays(start, response.View().bytes, request.View().bytes, code);
  }

  lemma TokenBytes(pdu: Pdu, tkl: nat)
    requires pdu.Valid() && 4 + tkl <= pdu.length
    ensures pdu.buf[4..4 + tkl] == pdu.View().bytes[4..4 + tkl]
  {
  }

  /** coap_pdu_init and coap_add_token of the response. */
  method StartResponse(request: Pdu, code: byte, size: nat) returns (response: Pdu?)
    requires request.Valid() && HasToken(request.View().bytes)
    requires 4 + request.View().bytes[0] % 16 <= size <= MAX_PDU_SIZE
    ensures response == null <==> request.View().bytes[0] % 16 > 8
    ensures response != null ==>
              && fresh(response) && fresh(response.buf) && response.buf.Length == size && response.Valid()
              && Built(response.View(), Expected(request.View().bytes, code, [], None))
  {
    hide Built;
    var tkl := request.buf[0] % 16;
    var kind := if request.buf[0] / 16 % 4 == CON then ACK else NON;
    var id := (request.buf[2], request.buf[3]);
    var r := new Pdu(kind, code, id, size);
    BuiltFresh(kind, code, id, size);
    ghost var p := r.View();
    var token := request.buf[4..4 + tkl];
    var added := r.AddToken(token);
    if !added { return null; }
    BuiltToken(p, Message(1, kind, code, id, [], [], []), token);
    TokenBytes(request, tkl);
    response := r;
  }

  lemma PhraseFits(p: PduState, m: Message, opts: seq<Opt>, phrase: seq<byte>)
    requires m.opts == [] && m.payload == [] && Built(p, m.(opts := opts)) && m.Valid()
    requires |Serialize(m)| + |EncodeOpts(opts, 0)| + |phrase| + 1 <= p.max
    ensures DataFits(p, phrase)
    ensures Built(WithData(p, phrase), m.(opts := opts, payload := phrase))
  {
    SerializeLength(m, opts);
    hide Serialize;
    BuiltData(p, m.(opts := opts), phrase);
  }

  lemma SerializeLength(m: Message, opts: seq<Opt>)
    requires m.Valid() && m.opts == [] && m.payload == [] && Sorted(opts, 0)
    ensures |Serialize(m.(opts := opts))| == |Serialize(m)| + |EncodeOpts(opts, 0)|
    ensures |Serialize(m)| == 4 + |m.token|
  {
  }

  lemma SizeSuffices(size: nat, p: PduState, m: Message, opts: seq<Opt>, phrase: Option<seq<byte>>)
    requires m.opts == [] && m.payload == [] && Built(p, m)
    requires Bounds(4 + |m.token| + PhraseRoom(phrase), size, opts)
    ensures m.Valid()
    ensures Sorted(opts, 0) ==> |Serialize(m)| + |EncodeOpts(opts, 0)| + PhraseRoom(phrase) <= size
  {
  }
}
