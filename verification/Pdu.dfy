/** Building and parsing a PDU in its buffer (pdu.c). */
module Pdus {
  import opened Bytes
  import opened OptionCodec
  import opened Messages

  const MAX_PDU_SIZE := 1400

  // ----- the PDU as a value

  /** What a PDU holds: the bytes written so far, the number of the last option
      and the offset of the payload, if any. */
  datatype PduState = PduState(max: nat, bytes: seq<byte>, maxDelta: uint16, data: Option<nat>)
  {
    predicate Valid() {
      && 4 <= |bytes| <= max <= MAX_PDU_SIZE
      && (data.Some? ==> 4 < data.value < |bytes|)
    }
  }

  /** coap_pdu_init: version 1, no token, no options, no data. */
  function Fresh(kind: nat, code: byte, id: (byte, byte), size: nat): (p: PduState)
    requires kind < 4 && 4 <= size <= MAX_PDU_SIZE
    ensures p.Valid()
  {
    PduState(size, [1 * 64 + kind * 16, code, id.0, id.1], 0, None)
  }

  /** coap_add_token drops everything after the header; `None` is its failure. */
  function WithToken(p: PduState, token: seq<byte>): (r: Option<PduState>)
    requires p.Valid()
    ensures r.Some? ==> r.value.Valid()
  {
    if |token| > 8 || p.max < |token| + 4 then None
    else Some(PduState(p.max, [p.bytes[0] / 16 * 16 + |token|] + p.bytes[1..4] + token, 0, None))
  }

  predicate OptionFits(p: PduState, number: uint16, value: seq<byte>)
    requires p.Valid()
  {
    p.maxDelta <= number && |p.bytes| + |Encode(number - p.maxDelta, value)| <= p.max
  }

  /** coap_add_option; even a failure forgets where the data was. */
  function WithOption(p: PduState, number: uint16, value: seq<byte>): (r: PduState)
    requires p.Valid()
    ensures r.Valid()
  {
    if OptionFits(p, number, value) then
      PduState(p.max, p.bytes + Encode(number - p.maxDelta, value), number, None)
    else p.(data := None)
  }

  predicate DataFits(p: PduState, payload: seq<byte>)
    requires p.Valid()
  {
    payload == [] || |p.bytes| + |payload| + 1 <= p.max
  }

  /** coap_add_data */
  function WithData(p: PduState, payload: seq<byte>): (r: PduState)
    requires p.Valid()
    ensures r.Valid()
  {
    if payload == [] || !DataFits(p, payload) then p
    else PduState(p.max, p.bytes + [MARKER] + payload, p.maxDelta, Some(|p.bytes| + 1))
  }

  /** coap_get_data */
  function DataOf(p: PduState): seq<byte>
    requires p.Valid()
  {
    if p.data.None? then [] else p.bytes[p.data.value..]
  }

  // ----- the PDU as the image of a message

  ghost predicate Built(p: PduState, m: Message) {
    && p.Valid() && m.Valid()
    && p.bytes == Serialize(m)
    && p.maxDelta == Last(m.opts, 0)
    && p.data == if m.payload == [] then None else Some(|p.bytes| - |m.payload|)
  }

  lemma BuiltFresh(kind: nat, code: byte, id: (byte, byte), size: nat)
    requires kind < 4 && 4 <= size <= MAX_PDU_SIZE
    ensures Built(Fresh(kind, code, id, size), Message(1, kind, code, id, [], [], []))
  {
  }

  lemma BuiltToken(p: PduState, m: Message, token: seq<byte>)
    requires Built(p, m) && WithToken(p, token).Some?
    ensures Built(WithToken(p, token).value, m.(token := token, opts := [], payload := []))
  {
    hide EncodeOpts, PayloadPart;
    var m' := m.(token := token, opts := [], payload := []);
    var h, h' := FixedHeader(m), FixedHeader(m');
    OnlyToken(m');
    assert h[0] / 16 * 16 + |token| == h'[0] && h[1] == h'[1] && h[2] == h'[2] && h[3] == h'[3];
    assert Serialize(m) == h + (m.token + EncodeOpts(m.opts, 0) + PayloadPart(m.payload));
    NewToken(p.bytes, h, h', token, m.token + EncodeOpts(m.opts, 0) + PayloadPart(m.payload));
    hide Serialize, FixedHeader;
  }

  lemma OnlyToken(m: Message)
    requires m.Valid() && m.opts == [] && m.payload == []
    ensures Serialize(m) == FixedHeader(m) + m.token
  {
  }

  lemma NewToken(bs: seq<byte>, h: seq<byte>, h': seq<byte>, token: seq<byte>, rest: seq<byte>)
    requires |h| == |h'| == 4 && bs == h + rest
    requires h'[0] == h[0] / 16 * 16 + |token| && h'[1] == h[1] && h'[2] == h[2] && h'[3] == h[3]
    ensures [bs[0] / 16 * 16 + |token|] + bs[1..4] + token == h' + token
  {
  }

  lemma BuiltOption(p: PduState, m: Message, number: uint16, value: seq<byte>)
    requires Built(p, m) && m.payload == [] && OptionFits(p, number, value)
    ensures Built(WithOption(p, number, value), m.(opts := m.opts + [Opt(number, value)]))
  {
    hide Encode;
    EncodeOptsAppend(m.opts, 0, Opt(number, value));
    assert Serialize(m) == FixedHeader(m) + m.token + EncodeOpts(m.opts, 0);
  }

  lemma BuiltData(p: PduState, m: Message, payload: seq<byte>)
    requires Built(p, m) && m.payload == [] && DataFits(p, payload)
    ensures Built(WithData(p, payload), m.(payload := payload))
  {
  }

  /** Whether the payload fits or not, the PDU stands for what went into it. */
  lemma BuiltTry(p: PduState, m: Message, payload: seq<byte>)
    requires Built(p, m) && m.payload == []
    ensures Built(WithData(p, payload), m.(payload := DataOf(WithData(p, payload))))
  {
    if DataFits(p, payload) {
      BuiltData(p, m, payload);
    }
  }

  /** Such a PDU reads back as its message. */
  lemma BuiltReads(p: PduState, m: Message)
    requires Built(p, m) && OffBoundary(m.opts, 0) && m.code != 0
    ensures ParseMessage(p.bytes) == Some(m)
  {
    hide ParseMessage, Serialize, OffBoundary;
    RoundTrip(m);
  }

  lemma DataOfAdded(q: PduState, chunk: seq<byte>)
    requires q.Valid() && q.data == None && chunk != []
    ensures DataOf(WithData(q, chunk)) == if DataFits(q, chunk) then chunk else []
  {
  }

  // ----- additions whose results nobody looks at

  /** Setting the code of the header. */
  function WithCode(p: PduState, code: byte): (r: PduState)
    requires p.Valid()
    ensures r.Valid()
  {
    p.(bytes := p.bytes[1 := code])
  }

  lemma BuiltCode(p: PduState, m: Message, code: byte)
    requires Built(p, m)
    ensures Built(WithCode(p, code), m.(code := code))
  {
    hide EncodeOpts, PayloadPart, Sorted;
    var rest := m.token + EncodeOpts(m.opts, 0) + PayloadPart(m.payload);
    assert Serialize(m) == FixedHeader(m) + rest;
    assert Serialize(m.(code := code)) == FixedHeader(m)[1 := code] + rest;
  }

  lemma CodeCommutes(p: PduState, code: byte, number: uint16, value: seq<byte>)
    requires p.Valid()
    ensures WithCode(WithOption(p, number, value), code) == WithOption(WithCode(p, code), number, value)
  {
    hide Encode;
    if OptionFits(p, number, value) {
      var e := Encode(number - p.maxDelta, value);
      assert (p.bytes + e)[1 := code] == p.bytes[1 := code] + e;
    }
  }

  /** Each option in turn, whether the ones before it went in or not. */
  function AddEach(p: PduState, opts: seq<Opt>): (r: PduState)
    requires p.Valid()
    ensures r.Valid()
    decreases |opts|
  {
    if opts == [] then p else AddEach(WithOption(p, opts[0].number, opts[0].value), opts[1..])
  }

  lemma {:induction false} EachAppended(p: PduState, opts: seq<Opt>, o: Opt)
    requires p.Valid()
    ensures AddEach(p, opts + [o]) == WithOption(AddEach(p, opts), o.number, o.value)
    decreases |opts|
  {
    hide WithOption, OptionFits;
    if opts == [] {
      var q := WithOption(p, o.number, o.value);
      assert opts + [o] == [o] && [o][1..] == [] && AddEach(q, []) == q;
    } else {
      assert (opts + [o])[1..] == opts[1..] + [o];
      EachAppended(WithOption(p, opts[0].number, opts[0].value), opts[1..], o);
    }
  }

  /** Setting the code behind the options is setting it in front of them. */
  lemma {:induction false} CodeAfterEach(p: PduState, opts: seq<Opt>, code: byte)
    requires p.Valid()
    ensures WithCode(AddEach(p, opts), code) == AddEach(WithCode(p, code), opts)
    decreases |opts|
  {
    hide WithOption, OptionFits, WithCode;
    if opts != [] {
      CodeCommutes(p, code, opts[0].number, opts[0].value);
      CodeAfterEach(WithOption(p, opts[0].number, opts[0].value), opts[1..], code);
    }
  }

  /** The options that go in. */
  function Taken(p: PduState, opts: seq<Opt>): (r: seq<Opt>)
    requires p.Valid()
    ensures |r| <= |opts| && forall o :: o in r ==> o in opts
    decreases |opts|
  {
    if opts == [] then []
    else
      var rest := Taken(WithOption(p, opts[0].number, opts[0].value), opts[1..]);
      if OptionFits(p, opts[0].number, opts[0].value) then [opts[0]] + rest else rest
  }

  lemma {:induction false} BuiltEach(p: PduState, m: Message, opts: seq<Opt>)
    requires Built(p, m) && m.payload == []
    ensures Built(AddEach(p, opts), m.(opts := m.opts + Taken(p, opts)))
    decreases |opts|
  {
    hide Serialize, Encode;
    if opts == [] {
      assert m.opts + [] == m.opts;
    } else {
      var o := opts[0];
      var q := WithOption(p, o.number, o.value);
      if OptionFits(p, o.number, o.value) {
        BuiltOption(p, m, o.number, o.value);
        assert Opt(o.number, o.value) == o;
        BuiltEach(q, m.(opts := m.opts + [o]), opts[1..]);
        assert m.opts + [o] + Taken(q, opts[1..]) == m.opts + ([o] + Taken(q, opts[1..]));
      } else {
        assert q == p;
        BuiltEach(q, m, opts[1..]);
      }
    }
  }

  /** All options go in exactly when there is room for all of them. */
  lemma {:induction false} TakenAll(p: PduState, opts: seq<Opt>)
    requires p.Valid() && Sorted(opts, p.maxDelta)
    ensures Taken(p, opts) == opts <==> |p.bytes| + |EncodeOpts(opts, p.maxDelta)| <= p.max
    ensures Taken(p, opts) == opts ==> |AddEach(p, opts).bytes| == |p.bytes| + |EncodeOpts(opts, p.maxDelta)|
    decreases |opts|
  {
    hide Encode;
    if opts != [] {
      var o := opts[0];
      var q := WithOption(p, o.number, o.value);
      assert Sorted(opts[1..], o.number);
      if OptionFits(p, o.number, o.value) {
        TakenAll(q, opts[1..]);
        assert opts == [o] + opts[1..];
      }
    }
  }

  lemma EachKeeps(p: PduState, opts: seq<Opt>)
    requires p.Valid() && p.data.None?
    ensures AddEach(p, opts).data.None? && AddEach(p, opts).max == p.max
    decreases |opts|
  {
    hide Encode;
    if opts != [] {
      EachKeeps(WithOption(p, opts[0].number, opts[0].value), opts[1..]);
    }
  }

  // ----- whole runs

  /** Adds the options one after the other; `None` as soon as one fails. */
  function AddAll(p: PduState, opts: seq<Opt>): (r: Option<PduState>)
    requires p.Valid()
    ensures r.Some? ==> r.value.Valid()
    decreases |opts|
  {
    if opts == [] then Some(p)
    else if !OptionFits(p, opts[0].number, opts[0].value) then None
    else AddAll(WithOption(p, opts[0].number, opts[0].value), opts[1..])
  }

  /** coap_add_token, coap_add_option for each option, coap_add_data. */
  function Run(p: PduState, token: seq<byte>, opts: seq<Opt>, payload: seq<byte>): (r: Option<PduState>)
    requires p.Valid()
    ensures r.Some? ==> r.value.Valid()
  {
    var t := WithToken(p, token);
    if t.None? then None
    else
      var o := AddAll(t.value, opts);
      if o.None? || !DataFits(o.value, payload) then None
      else Some(WithData(o.value, payload))
  }

  lemma {:induction false} BuiltAll(p: PduState, m: Message, opts: seq<Opt>)
    requires Built(p, m) && m.payload == [] && AddAll(p, opts).Some?
    ensures Built(AddAll(p, opts).value, m.(opts := m.opts + opts))
    decreases |opts|
  {
    if opts == [] {
      assert m.opts + opts == m.opts;
    } else {
      BuiltOption(p, m, opts[0].number, opts[0].value);
      var m' := m.(opts := m.opts + [opts[0]]);
      assert [Opt(opts[0].number, opts[0].value)] == [opts[0]];
      BuiltAll(WithOption(p, opts[0].number, opts[0].value), m', opts[1..]);
      assert m.opts + opts == m'.opts + opts[1..];
    }
  }

  /** Every successful run yields bytes that parse back to the same token,
      options and payload, exactly when the options are off the boundary and
      a message with code 0 is empty. */
  lemma RunRoundTrip(kind: nat, code: byte, id: (byte, byte), size: nat,
                     token: seq<byte>, opts: seq<Opt>, payload: seq<byte>)
    requires kind < 4 && 4 <= size <= MAX_PDU_SIZE
    requires Run(Fresh(kind, code, id, size), token, opts, payload).Some?
    ensures ParseMessage(Run(Fresh(kind, code, id, size), token, opts, payload).value.bytes)
            == Some(Message(1, kind, code, id, token, opts, payload))
       <==> && OffBoundary(opts, 0)
            && (code == 0 ==> token == [] && opts == [] && payload == [])
  {
    var p := Fresh(kind, code, id, size);
    BuiltFresh(kind, code, id, size);
    var m := Message(1, kind, code, id, [], [], []);
    BuiltToken(p, m, token);
    var m1 := m.(token := token);
    BuiltAll(WithToken(p, token).value, m1, opts);
    var m2 := m1.(opts := opts);
    assert m1.opts + opts == opts;
    BuiltData(AddAll(WithToken(p, token).value, opts).value, m2, payload);
    RoundTrip(m2.(payload := payload));
  }

  // ----- the PDU in memory

  class Pdu {
    const buf: array<byte>
    var length: nat
    var maxDelta: uint16
    var data: Option<nat>

    ghost predicate Valid()
      reads this, buf
    {
      length <= buf.Length && View().Valid()
    }

    ghost function View(): PduState
      requires length <= buf.Length
      reads this, buf
    {
      PduState(buf.Length, buf[..length], maxDelta, data)
    }

    /** coap_pdu_init for a size it accepts. */
    constructor (kind: nat, code: byte, id: (byte, byte), size: nat)
      requires kind < 4 && 4 <= size <= MAX_PDU_SIZE
      ensures Valid() && fresh(buf) && View() == Fresh(kind, code, id, size)
    {
      buf := new byte[size](_ => 0);
      length, maxDelta, data := 4, 0, None;
      new;
      buf[0], buf[1], buf[2], buf[3] := 1 * 64 + kind * 16, code, id.0, id.1;
    }

    method SetCode(code: byte)
      requires Valid()
      modifies buf
      ensures Valid() && View() == WithCode(old(View()), code)
    {
      buf[1] := code;
    }

    method AddToken(token: seq<byte>) returns (ok: bool)
      requires Valid()
      modifies this, buf
      ensures Valid()
      ensures ok == WithToken(old(View()), token).Some?
      ensures View() == if ok then WithToken(old(View()), token).value else old(View())
    {
      if |token| > 8 || buf.Length < |token| + 4 { return false; }
      buf[0] := buf[0] / 16 * 16 + |token|;
      CopyInto(buf, 4, token);
      maxDelta, length, data := 0, |token| + 4, None;
      ok := true;
    }

    method AddOption(number: uint16, value: seq<byte>) returns (size: nat)
      requires Valid()
      modifies this, buf
      ensures Valid()
      ensures View() == WithOption(old(View()), number, value)
      ensures size == if OptionFits(old(View()), number, value)
                      then |Encode(number - old(maxDelta), value)| else 0
    {
      data := None;
      if number < maxDelta { return 0; }
      assert |Encode(number - maxDelta, value)| > 0;
      hide Encode;
      size := OptEncode(buf, length, buf.Length - length, number - maxDelta, value);
      if size != 0 {
        maxDelta, length := number, length + size;
      }
    }

    method AddData(payload: seq<byte>) returns (ok: bool)
      requires Valid()
      modifies this, buf
      ensures Valid()
      ensures View() == WithData(old(View()), payload)
      ensures ok == DataFits(old(View()), payload)
    {
      if payload == [] { return true; }
      if length + |payload| + 1 > buf.Length { return false; }
      ghost var p := View();
      buf[length] := MARKER;
      data := Some(length + 1);
      CopyInto(buf, length + 1, payload);
      length := length + |payload| + 1;
      ok := true;
    }

    /** coap_get_data as an offset and a length. */
    method GetData() returns (ok: bool, off: nat, len: nat)
      requires Valid()
      ensures ok == data.Some?
      ensures off + len <= length && buf[off..off + len] == DataOf(View())
    {
      if data.Some? {
        ok, off, len := true, data.value, length - data.value;
      } else {
        ok, off, len := false, 0, 0;
      }
    }

    /** coap_pdu_parse; a discarded datagram leaves the PDU in an unspecified state. */
    method Parse(bs: seq<byte>) returns (ok: bool)
      requires Valid()
      modifies this, buf
      ensures ok == (|bs| <= buf.Length && ParseMessage(bs).Some?)
      ensures ok ==> Valid() && View().bytes == bs && DataOf(View()) == ParseMessage(bs).value.payload
    {
      hide ScanRest, ScanOpts, ParseOption, Holds;
      var tkl, fits := CheckHeader(bs);
      if !fits { return false; }
      data := None;
      CopyInto(buf, 0, bs);
      length := |bs|;
      var left := SkipOptions(4 + tkl, bs);
      DataAfterMarker(bs, 4 + tkl);
      if left < 0 || left == 1 { return false; }
      if left != 0 {
        data := Some(length - left + 1);
      }
      assert buf[..length] == bs;
      ok := true;
    }

    /** The checks of coap_pdu_parse before it looks at the options. */
    method CheckHeader(bs: seq<byte>) returns (tkl: nat, ok: bool)
      ensures ok == (|bs| <= buf.Length && HeaderOk(bs))
      ensures ok ==> tkl == bs[0] % 16
    {
      tkl, ok := 0, false;
      if buf.Length < |bs| || |bs| < 4 { return; }
      tkl := bs[0] % 16;
      if bs[1] == 0 && (|bs| != 4 || tkl != 0) { return; }
      if |bs| < 4 + tkl || tkl > 8 { return; }
      ok := true;
    }

    /** The loop of coap_pdu_parse over next_option_safe: the number of bytes
        left at the end or at the payload marker, -1 at a malformed option. */
    method SkipOptions(start: nat, ghost bs: seq<byte>) returns (left: int)
      requires start <= length == |bs| && Holds(buf, 0, bs)
      ensures var rest := ScanRest(bs[start..]);
              left == if Ends(rest) then |rest| else -1
    {
      hide ScanRest, ParseOption;
      var opt := start;
      left := length - start;
      while left != 0 && buf[opt] != MARKER
        invariant 0 <= left && opt + left == length && opt >= start
        invariant ScanRest(bs[opt..]) == ScanRest(bs[start..])
        decreases left
      {
        var size, _, _, _ := OptParse(buf, opt, left, bs[opt..]);
        if size == 0 {
          ScanRestStuck(bs[opt..]);
          return -1;
        }
        ScanRestStep(bs, opt, size);
        opt, left := opt + size, left - size;
      }
      EndsScan(bs[opt..], 0);
    }
  }

  lemma ScanRestStep(bs: seq<byte>, opt: nat, size: nat)
    requires opt < |bs| && ParseOption(bs[opt..]).Some? && size == ParseOption(bs[opt..]).value.size
    ensures opt + size <= |bs| && ScanRest(bs[opt..]) == ScanRest(bs[opt + size..])
  {
    assert bs[opt..][size..] == bs[opt + size..];
  }

  lemma DataAfterMarker(bs: seq<byte>, start: nat)
    requires start <= |bs|
    ensures var left := |ScanRest(bs[start..])|;
            start + left <= |bs| && (left > 1 ==> ScanRest(bs[start..])[1..] == bs[|bs| - left + 1..])
  {
    ScanRestIsSuffix(bs[start..]);
    hide ScanRest, ParseOption;
    var left := |ScanRest(bs[start..])|;
    if left > 1 {
      assert bs[start..][|bs| - start - left..][1..] == bs[|bs| - left + 1..];
    }
  }
}
