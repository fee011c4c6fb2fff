/** CoAP messages as values, their wire form and the parser's view of any byte
    string (section 3 of RFC 7252; pdu.c and option.c). */
module Messages {
  import opened Bytes
  import opened OptionCodec

  const MARKER: byte := 0xFF

  datatype Opt = Opt(number: uint16, value: seq<byte>)

  datatype Message = Message(version: nat, kind: nat, code: byte, id: (byte, byte),
                             token: seq<byte>, opts: seq<Opt>, payload: seq<byte>)
  {
    predicate Valid() {
      version < 4 && kind < 4 && |token| <= 8 && Sorted(opts, 0)
    }
  }

  /** Option numbers do not decrease, starting from `prev`. */
  predicate Sorted(opts: seq<Opt>, prev: uint16) {
    opts == [] || (prev <= opts[0].number && Sorted(opts[1..], opts[0].number))
  }

  function Last(opts: seq<Opt>, prev: uint16): uint16 {
    if opts == [] then prev else opts[|opts| - 1].number
  }

  // ----- writing

  function EncodeOpts(opts: seq<Opt>, prev: uint16): seq<byte>
    requires Sorted(opts, prev)
  {
    if opts == [] then []
    else Encode(opts[0].number - prev, opts[0].value) + EncodeOpts(opts[1..], opts[0].number)
  }

  function FixedHeader(m: Message): seq<byte>
    requires m.Valid()
  {
    [m.version * 64 + m.kind * 16 + |m.token|, m.code, m.id.0, m.id.1]
  }

  function PayloadPart(payload: seq<byte>): seq<byte> {
    if payload == [] then [] else [MARKER] + payload
  }

  function Serialize(m: Message): seq<byte>
    requires m.Valid()
  {
    FixedHeader(m) + m.token + EncodeOpts(m.opts, 0) + PayloadPart(m.payload)
  }

  /** Appending an option appends its encoding, relative to the last number. */
  lemma {:induction false} EncodeOptsAppend(opts: seq<Opt>, prev: uint16, o: Opt)
    requires Sorted(opts, prev) && Last(opts, prev) <= o.number
    ensures Sorted(opts + [o], prev)
    ensures EncodeOpts(opts + [o], prev)
         == EncodeOpts(opts, prev) + Encode(o.number - Last(opts, prev), o.value)
  {
    hide Encode, EncodeOpts, Sorted, Last;
    if opts == [] {
      OptsCons(o, [], prev);
      OptsCons(o, [], o.number);
      assert opts + [o] == [o] + [];
      assert [] + Encode(o.number - prev, o.value) == Encode(o.number - prev, o.value) + [];
    } else {
      var rest := opts[1..];
      assert opts == [opts[0]] + rest && opts + [o] == [opts[0]] + (rest + [o]);
      OptsCons(opts[0], rest, prev);
      OptsCons(opts[0], rest + [o], prev);
      EncodeOptsAppend(rest, opts[0].number, o);
    }
  }

  /** Taking a list of options apart at its head. */
  lemma OptsCons(o: Opt, rest: seq<Opt>, prev: uint16)
    ensures Sorted([o] + rest, prev) <==> prev <= o.number && Sorted(rest, o.number)
    ensures Last([o] + rest, prev) == Last(rest, o.number) && Last([], prev) == prev
    ensures Sorted([], prev) && EncodeOpts([], prev) == []
    ensures Sorted([o] + rest, prev) ==>
              EncodeOpts([o] + rest, prev) == Encode(o.number - prev, o.value) + EncodeOpts(rest, o.number)
  {
    hide Encode;
    assert ([o] + rest)[1..] == rest;
  }

  // ----- reading

  /** The options found from the front of `bs`, up to its end, the payload
      marker or a malformed option; option numbers are 16-bit sums of deltas. */
  function ScanOpts(bs: seq<byte>, prev: uint16): (opts: seq<Opt>)
    decreases |bs|
  {
    if bs == [] || ParseOption(bs).None? then []
    else
      var p := ParseOption(bs).value;
      var number: uint16 := (prev + p.delta) % 0x1_0000;
      [Opt(number, p.value)] + ScanOpts(bs[p.size..], number)
  }

  /** The bytes at which that scan stops. */
  function ScanRest(bs: seq<byte>): (rest: seq<byte>)
    ensures |rest| <= |bs|
    decreases |bs|
  {
    if bs == [] || ParseOption(bs).None? then bs
    else ScanRest(bs[ParseOption(bs).value.size..])
  }

  lemma ScanRestStuck(bs: seq<byte>)
    requires bs == [] || ParseOption(bs).None?
    ensures ScanRest(bs) == bs
  {
  }

  lemma {:induction false} ScanRestIsSuffix(bs: seq<byte>)
    ensures ScanRest(bs) == bs[|bs| - |ScanRest(bs)|..]
    decreases |bs|
  {
    if bs != [] && ParseOption(bs).Some? {
      var n := ParseOption(bs).value.size;
      ScanRestIsSuffix(bs[n..]);
      hide ParseOption, ScanRest;
      var r := |ScanRest(bs[n..])|;
      assert bs[n..][|bs[n..]| - r..] == bs[|bs| - r..];
    }
  }

  /** The checks coap_pdu_parse makes before it looks at the options. */
  predicate HeaderOk(bs: seq<byte>) {
    && |bs| >= 4
    && bs[0] % 16 <= 8 && |bs| >= 4 + bs[0] % 16
    && (bs[1] == 0 ==> |bs| == 4)
  }

  /** coap_pdu_parse as a function of the datagram. */
  function ParseMessage(bs: seq<byte>): Option<Message> {
    if !HeaderOk(bs) then None
    else
      var body := bs[4 + bs[0] % 16..];
      var rest := ScanRest(body);
      if rest != [] && (rest[0] != MARKER || |rest| == 1) then None
      else Some(Message(bs[0] / 64, bs[0] / 16 % 4, bs[1], (bs[2], bs[3]),
                        bs[4..4 + bs[0] % 16], ScanOpts(body, 0),
                        if rest == [] then [] else rest[1..]))
  }

  // ----- what is accepted

  /** The first k bytes are complete options, one after the other. */
  predicate OptionsFill(bs: seq<byte>, k: nat)
    decreases k
  {
    k == 0
    || (bs != [] && ParseOption(bs).Some? && ParseOption(bs).value.size <= k
        && OptionsFill(bs[ParseOption(bs).value.size..], k - ParseOption(bs).value.size))
  }

  lemma {:induction false} RestBehind(bs: seq<byte>, k: nat)
    requires k <= |bs| && OptionsFill(bs, k)
    ensures ScanRest(bs) == ScanRest(bs[k..])
    decreases k
  {
    hide ParseOption;
    if k > 0 {
      var n := ParseOption(bs).value.size;
      RestBehind(bs[n..], k - n);
      assert bs[n..][k - n..] == bs[k..];
    } else {
      assert bs[0..] == bs;
    }
  }

  lemma {:induction false} FilledToRest(bs: seq<byte>)
    ensures OptionsFill(bs, |bs| - |ScanRest(bs)|)
    ensures ScanRest(bs) != [] ==> ParseOption(ScanRest(bs)).None?
    decreases |bs|
  {
    hide ParseOption;
    if bs != [] && ParseOption(bs).Some? {
      FilledToRest(bs[ParseOption(bs).value.size..]);
    }
  }

  /** Where the options of a message end: at the end of the datagram, or at a marker
      with a payload behind it. */
  predicate BodyEnds(body: seq<byte>, k: nat) {
    k <= |body| && OptionsFill(body, k) && (k == |body| || (body[k] == 0xFF && k + 1 < |body|))
  }

  /** coap_pdu_parse accepts exactly the datagrams with a header, a token of at most 8
      bytes, nothing behind code 0, and a body of complete options that ends so. */
  lemma Accepted(bs: seq<byte>)
    ensures ParseMessage(bs).Some?
       <==> && |bs| >= 4 && bs[0] % 16 <= 8 && |bs| >= 4 + bs[0] % 16
            && (bs[1] == 0 ==> |bs| == 4)
            && BodyOk(bs[4 + bs[0] % 16..])
  {
    hide ParseOption, ScanRest, ScanOpts, BodyOk;
    if |bs| >= 4 && |bs| >= 4 + bs[0] % 16 {
      BodyAccepted(bs[4 + bs[0] % 16..]);
    }
  }

  ghost predicate BodyOk(body: seq<byte>) {
    exists k: nat :: BodyEnds(body, k)
  }

  /** The end of the options is where the scan stops. */
  lemma BodyAccepted(body: seq<byte>)
    ensures BodyOk(body) <==> ScanRest(body) == [] || (ScanRest(body)[0] == MARKER && |ScanRest(body)| > 1)
  {
    hide ParseOption, ScanRest;
    if k: nat :| BodyEnds(body, k) {
      RestBehind(body, k);
      EndsScan(body[k..], 0);
    }
    if ScanRest(body) == [] || (ScanRest(body)[0] == MARKER && |ScanRest(body)| > 1) {
      FilledToRest(body);
      ScanRestIsSuffix(body);
      assert BodyEnds(body, |body| - |ScanRest(body)|);
    }
  }

  /** The fields of an accepted message, bit by bit and from its bytes. */
  lemma Fields(bs: seq<byte>, k: nat)
    requires ParseMessage(bs).Some? && BodyEnds(bs[4 + bs[0] % 16..], k)
    ensures (var m, body := ParseMessage(bs).value, bs[4 + bs[0] % 16..];
             && m.version * 64 + m.kind * 16 + |m.token| == bs[0]
             && m.code == bs[1] && m.id == (bs[2], bs[3]) && m.token == bs[4..4 + |m.token|]
             && m.payload == if k == |body| then [] else body[k + 1..])
  {
    hide ScanRest, ScanOpts, BodyEnds;
    RestAt(bs[4 + bs[0] % 16..], k);
    ByteParts(bs[0]);
  }

  lemma RestAt(body: seq<byte>, k: nat)
    requires BodyEnds(body, k)
    ensures k <= |body| && ScanRest(body) == body[k..]
  {
    hide ParseOption, ScanRest, OptionsFill;
    RestBehind(body, k);
    EndsScan(body[k..], 0);
  }

  lemma ByteParts(b: byte)
    ensures b / 64 * 64 + b / 16 % 4 * 16 + b % 16 == b
  {
    assert b / 16 / 4 == b / 64;
  }

  /** What is refused: a token length above 8, anything behind code 0, a marker with
      nothing behind it, and a malformed option behind well-formed ones. */
  lemma Refused(bs: seq<byte>, k: nat)
    requires |bs| >= 4
    ensures bs[0] % 16 > 8 ==> ParseMessage(bs).None?
    ensures bs[1] == 0 && |bs| > 4 ==> ParseMessage(bs).None?
    ensures |bs| > 4 + bs[0] % 16 && BodyBroken(bs[4 + bs[0] % 16..], k) ==> ParseMessage(bs).None?
  {
    hide ScanOpts, ScanRest, BodyBroken;
    if |bs| > 4 + bs[0] % 16 && BodyBroken(bs[4 + bs[0] % 16..], k) {
      RestBroken(bs[4 + bs[0] % 16..], k);
    }
  }

  /** Behind well-formed options there is a bare marker or no option. */
  predicate BodyBroken(body: seq<byte>, k: nat) {
    && k < |body| && OptionsFill(body, k)
    && (body[k..] == [0xFF] || (body[k] != 0xFF && ParseOption(body[k..]).None?))
  }

  lemma RestBroken(body: seq<byte>, k: nat)
    requires BodyBroken(body, k)
    ensures (var rest := ScanRest(body); rest == [0xFF] || (rest != [] && rest[0] != MARKER))
  {
    hide ParseOption, ScanRest, OptionsFill;
    RestBehind(body, k);
    if body[k] == 0xFF { EndsScan(body[k..], 0); } else { ScanRestStuck(body[k..]); }
  }

  // ----- the round trip

  /** No delta and no length sits on the encoder's wrong boundary or is too long. */
  predicate OffBoundary(opts: seq<Opt>, prev: uint16) {
    opts == []
    || (&& opts[0].number - prev != 269 && |opts[0].value| != 269 && |opts[0].value| <= 65804
        && OffBoundary(opts[1..], opts[0].number))
  }

  lemma {:induction false} OffBoundaryAppend(opts: seq<Opt>, prev: uint16, o: Opt)
    requires Sorted(opts, prev) && OffBoundary(opts, prev) && Last(opts, prev) <= o.number
    requires o.number - Last(opts, prev) != 269 && |o.value| != 269 && |o.value| <= 65804
    ensures OffBoundary(opts + [o], prev)
  {
    if opts == [] {
      assert (opts + [o])[1..] == [];
    } else {
      assert (opts + [o])[1..] == opts[1..] + [o];
      assert Last(opts[1..], opts[0].number) == Last(opts, prev);
      OffBoundaryAppend(opts[1..], opts[0].number, o);
    }
  }

  predicate Ends(tail: seq<byte>) {
    tail == [] || tail[0] == MARKER
  }

  lemma EndsScan(tail: seq<byte>, prev: uint16)
    requires Ends(tail)
    ensures ScanOpts(tail, prev) == [] && ScanRest(tail) == tail
  {
  }

  /** Scanning encoded options recovers them exactly off the boundary. */
  lemma {:induction false} ScanEncoded(opts: seq<Opt>, prev: uint16, tail: seq<byte>)
    requires Sorted(opts, prev) && Ends(tail)
    ensures ScanOpts(EncodeOpts(opts, prev) + tail, prev) == opts <==> OffBoundary(opts, prev)
    ensures OffBoundary(opts, prev) ==> ScanRest(EncodeOpts(opts, prev) + tail) == tail
    decreases |opts|
  {
    hide Encode, ParseOption, ScanOpts, ScanRest;
    if opts == [] {
      assert EncodeOpts(opts, prev) + tail == tail;
      EndsScan(tail, prev);
    } else {
      var o, delta := opts[0], opts[0].number - prev;
      var rest := EncodeOpts(opts[1..], o.number) + tail;
      var bs := EncodeOpts(opts, prev) + tail;
      assert bs == Encode(delta, o.value) + rest;
      ScanEncoded(opts[1..], o.number, tail);
      ScanFirst(delta, o.value, rest, prev);
      assert opts == [o] + opts[1..];
    }
  }

  lemma ScanFirst(delta: uint16, value: seq<byte>, rest: seq<byte>, prev: uint16)
    requires prev + delta < 0x1_0000
    ensures var bs, ok := Encode(delta, value) + rest, delta != 269 && |value| != 269 && |value| <= 65804;
            if ok then ScanOpts(bs, prev) == [Opt(prev + delta, value)] + ScanOpts(rest, prev + delta)
                       && ScanRest(bs) == ScanRest(rest)
            else ScanOpts(bs, prev) == [] || ScanOpts(bs, prev)[0] != Opt(prev + delta, value)
  {
    ParseInvertsEncode(delta, value, rest);
    ParseDiffers(delta, value, rest);
    hide Encode, ParseOption;
    var bs := Encode(delta, value) + rest;
    assert bs != [];
    if delta != 269 && |value| != 269 && |value| <= 65804 {
      assert bs[|Encode(delta, value)|..] == rest;
    } else if ParseOption(bs).Some? {
      var p := ParseOption(bs).value;
      assert (prev + p.delta) % 0x1_0000 == prev + delta ==> p.delta == delta;
    }
  }

  /** A missed round trip shows in the delta or in the value. */
  lemma ParseDiffers(delta: uint16, value: seq<byte>, rest: seq<byte>)
    ensures var bs := Encode(delta, value) + rest;
            && bs != []
            && (ParseOption(bs).Some? ==>
                  && ParseOption(bs).value.delta <= delta
                  && (ParseOption(bs).value.delta == delta && ParseOption(bs).value.value == value
                      ==> ParseOption(bs).value.size == |Encode(delta, value)|))
  {
    ParseOfEncode(delta, value, rest);
  }

  /** Parsing a serialised message gives it back exactly when its options are
      off the boundary and an Empty message (code 0) really is empty. */
  lemma RoundTrip(m: Message)
    requires m.Valid()
    ensures ParseMessage(Serialize(m)) == Some(m)
       <==> && OffBoundary(m.opts, 0)
            && (m.code == 0 ==> m.token == [] && m.opts == [] && m.payload == [])
  {
    hide Encode, ParseOption, ScanOpts, ScanRest, OffBoundary, Sorted, FixedHeader, Last;
    var bs, tail := Serialize(m), PayloadPart(m.payload);
    var body := EncodeOpts(m.opts, 0) + tail;
    BodyOf(m);
    HeaderFields(m, body);
    ScanEncoded(m.opts, 0, tail);
  }

  /** If a serialised message is accepted at all, its options are read as they were
      written exactly off the boundary. */
  lemma OptionsRead(m: Message)
    requires m.Valid() && ParseMessage(Serialize(m)).Some?
    ensures ParseMessage(Serialize(m)).value.opts == m.opts <==> OffBoundary(m.opts, 0)
  {
    hide Encode, ParseOption, ScanOpts, ScanRest, OffBoundary, Sorted, FixedHeader, Last;
    BodyOf(m);
    HeaderFields(m, EncodeOpts(m.opts, 0) + PayloadPart(m.payload));
    ScanEncoded(m.opts, 0, PayloadPart(m.payload));
  }

  /** Header and token, then what is empty only without options and payload. */
  lemma BodyOf(m: Message)
    requires m.Valid()
    ensures (var bs, body := Serialize(m), EncodeOpts(m.opts, 0) + PayloadPart(m.payload);
             && |FixedHeader(m)| == 4 && bs == FixedHeader(m) + m.token + body
             && bs[4 + |m.token|..] == body
             && (|body| == 0 <==> m.opts == [] && m.payload == []))
  {
    hide Encode;
    var body := EncodeOpts(m.opts, 0) + PayloadPart(m.payload);
    assert Serialize(m) == FixedHeader(m) + m.token + body;
    if m.opts != [] {
      NotEmpty(m.opts, 0);
    }
  }

  lemma NotEmpty(opts: seq<Opt>, prev: uint16)
    requires Sorted(opts, prev) && opts != []
    ensures EncodeOpts(opts, prev) != []
  {
  }

  lemma HeaderFields(m: Message, body: seq<byte>)
    requires m.Valid()
    ensures var bs := FixedHeader(m) + m.token + body;
            && bs[0] / 64 == m.version && bs[0] / 16 % 4 == m.kind && bs[0] % 16 == |m.token|
            && bs[1] == m.code && (bs[2], bs[3]) == m.id
            && bs[4..4 + |m.token|] == m.token
  {
    hide Sorted, FixedHeader;
    HeaderBits(m);
    var h := FixedHeader(m);
    var bs := h + m.token + body;
    assert bs[0] == h[0] && bs[1] == h[1] && bs[2] == h[2] && bs[3] == h[3];
    assert bs[4..4 + |m.token|] == m.token;
  }

  lemma HeaderBits(m: Message)
    requires m.Valid()
    ensures (var h := FixedHeader(m);
             && |h| == 4 && h[0] / 64 == m.version && h[0] / 16 % 4 == m.kind && h[0] % 16 == |m.token|
             && h[1] == m.code && (h[2], h[3]) == m.id)
  {
    hide Sorted;
    BitFields(m.version, m.kind, |m.token|);
  }

  lemma BitFields(version: nat, kind: nat, tokenLength: nat)
    requires version < 4 && kind < 4 && tokenLength < 16
    ensures (var h := version * 64 + kind * 16 + tokenLength;
             h / 64 == version && h / 16 % 4 == kind && h % 16 == tokenLength)
  {
    assert (version * 64 + kind * 16 + tokenLength) / 16 == version * 4 + kind;
  }
}
