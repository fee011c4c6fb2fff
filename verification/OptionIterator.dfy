/** Walking the options of a PDU, all of them or those in a filter (option.c). */
module OptionIterator {
  import opened Bytes
  import opened OptionCodec
  import opened Messages
  import opened OptionFilter
  import opened Pdus

  /** `None` stands for COAP_OPT_ALL. */
  predicate Wanted(types: Option<set<uint16>>, number: uint16) {
    types.None? || number in types.value
  }

  /** The options whose number is wanted, in order. */
  function Select(opts: seq<Opt>, types: Option<set<uint16>>): seq<Opt> {
    if opts == [] then []
    else (if Wanted(types, opts[0].number) then [opts[0]] else []) + Select(opts[1..], types)
  }

  lemma {:induction false} SelectAll(opts: seq<Opt>)
    ensures Select(opts, None) == opts
  {
    if opts != [] { SelectAll(opts[1..]); }
  }

  /** The buffer holds `raw` at `at`, which starts with an option of this value. */
  ghost predicate OptionAt(buf: array<byte>, at: nat, raw: seq<byte>, value: seq<byte>)
    reads buf
  {
    Holds(buf, at, raw) && ParseOption(raw).Some? && ParseOption(raw).value.value == value
  }

  lemma ScanOptsStep(bs: seq<byte>, prev: uint16)
    requires bs != []
    ensures ScanOpts(bs, prev)
         == match ParseOption(bs)
            case None => []
            case Some(p) =>
              var n := (prev + p.delta) % 0x1_0000;
              [Opt(n, p.value)] + ScanOpts(bs[p.size..], n)
  {
  }

  /** Exactly the options of these types are selected, each as often as it occurs. */
  lemma {:induction false} SelectCounts(opts: seq<Opt>, types: set<uint16>, o: Opt)
    ensures multiset(Select(opts, Some(types)))[o] == if o.number in types then multiset(opts)[o] else 0
  {
    if opts != [] {
      SelectCounts(opts[1..], types, o);
      assert opts == [opts[0]] + opts[1..];
      if opts[0].number !in types {
        assert [] + Select(opts[1..], Some(types)) == Select(opts[1..], Some(types));
      }
    }
  }

  /** They keep their order. */
  lemma {:induction false} SelectConcat(a: seq<Opt>, b: seq<Opt>, types: Option<set<uint16>>)
    ensures Select(a + b, types) == Select(a, types) + Select(b, types)
  {
    hide Select;
    SelectNothing(types);
    if a == [] {
      assert a + b == b && [] + Select(b, types) == Select(b, types);
    } else {
      var o, rest := a[0], a[1..];
      SelectConcat(rest, b, types);
      SelectStep(o, rest, types);
      SelectStep(o, rest + b, types);
      assert [o] + rest == a && [o] + (rest + b) == a + b;
      var first := if Wanted(types, o.number) then [o] else [];
      assert first + (Select(rest, types) + Select(b, types)) == first + Select(rest, types) + Select(b, types);
    }
  }

  lemma SelectStep(o: Opt, rest: seq<Opt>, types: Option<set<uint16>>)
    ensures Select([o] + rest, types)
         == (if Wanted(types, o.number) then [o] else []) + Select(rest, types)
  {
  }

  class OptIterator {
    const buf: array<byte>
    const filter: OptFilter?
    var next: nat
    var length: nat
    var number: uint16
    var bad: bool
    ghost var rest: seq<byte>  // the bytes still to be parsed

    ghost predicate Valid()
      reads this, buf
      reads if filter == null then {} else {filter, filter.long, filter.short} + filter.Footprint()
    {
      && |rest| == length && Holds(buf, next, rest)
      && (filter != null ==> filter.Valid())
    }

    /** The options the iterator has not passed yet. */
    ghost function Remaining(): seq<Opt>
      reads this
    {
      if bad then [] else ScanOpts(rest, number)
    }

    ghost function Types(): Option<set<uint16>>
      reads this
      reads if filter == null then {} else {filter, filter.long, filter.short}
    {
      if filter == null then None else Some(filter.Types())
    }

    /** coap_option_iterator_init; an iterator over no options starts out bad. */
    constructor (pdu: Pdu, types: OptFilter?)
      requires pdu.Valid() && 4 + pdu.buf[0] % 16 <= pdu.length
      requires types != null ==> types.Valid()
      ensures Valid() && buf == pdu.buf
      ensures filter != null ==> fresh(filter) && fresh(filter.Footprint())
      ensures Types() == if types == null then None else Some(types.Types())
      ensures Remaining() == ScanOpts(pdu.View().bytes[4 + pdu.buf[0] % 16..], 0)
    {
      hide ScanOpts;
      buf := pdu.buf;
      var start := 4 + pdu.buf[0] % 16;
      next, number := start, 0;
      length, bad := pdu.length - start, pdu.length <= start;
      rest := pdu.View().bytes[start..];
      var copy: OptFilter? := null;
      if types != null {
        copy := new OptFilter.Copy(types);
      }
      filter := copy;
      new;
      if bad { EndsScan([], 0); }
    }

    /** coap_option_next: the offset of the next wanted option, and the option. */
    method Next() returns (r: Option<nat>, ghost opt: Opt, ghost raw: seq<byte>)
      requires Valid()
      modifies this
      ensures Valid() && Types() == old(Types())
      ensures Select(old(Remaining()), Types())
           == if r.None? then [] else [opt] + Select(Remaining(), Types())
      ensures r.None? ==> Remaining() == []
      ensures r.Some? ==> opt.number == number && OptionAt(buf, r.value, raw, opt.value)
      ensures length <= old(length) && (r.Some? ==> length < old(length))
    {
      hide ScanOpts, Select, OptionAt;
      opt, raw, r := Opt(0, []), rest, None;
      SelectNothing(Types());
      if bad { return; }
      if length == 0 || buf[next] == MARKER {
        EndsScan(rest, number);
        bad := true;
        return;
      }
      while true
        invariant Valid() && !bad && Types() == old(Types())
        invariant Select(Remaining(), Types()) == Select(old(Remaining()), Types())
        invariant length <= old(length)
        decreases length
      {
        var ok, current;
        ok, current, opt, raw := Advance();
        if !ok { return; }
        SelectStep(opt, Remaining(), Types());
        var wanted := true;
        if filter != null {
          wanted := filter.Get(number);
        }
        if wanted {
          r := Some(current);
          return;
        }
        DropEmpty(Select(Remaining(), Types()));
      }
    }

    /** One turn of that loop without the filter: past the next option, if there
        is a well-formed one. */
    method Advance() returns (ok: bool, current: nat, ghost opt: Opt, ghost raw: seq<byte>)
      requires Valid() && !bad
      modifies this`next, this`length, this`number, this`bad, this`rest
      ensures Valid() && ok == !bad
      ensures old(Remaining()) == if ok then [opt] + Remaining() else []
      ensures ok ==> opt.number == number && OptionAt(buf, current, raw, opt.value)
      ensures length <= old(length) && (ok ==> length < old(length))
    {
      hide ParseOption, ScanOpts, Holds, OptFilter.Valid;
      ok, current, opt, raw := false, next, Opt(0, []), rest;
      if length == 0 {
        EndsScan(rest, number);
        bad := true;
        return;
      }
      ScanOptsStep(rest, number);
      var size, delta, _, _ := OptParse(buf, next, length, rest);
      if size == 0 {
        bad := true;
        return;
      }
      opt := Opt((number + delta) % 0x1_0000, ParseOption(rest).value.value);
      HoldsRest(buf, next, rest, size);
      next, length, number := next + size, length - size, (number + delta) % 0x1_0000;
      rest := rest[size..];
      ok := true;
    }
  }

  lemma HoldsRest(buf: array<byte>, at: nat, bs: seq<byte>, n: nat)
    requires Holds(buf, at, bs) && n <= |bs|
    ensures Holds(buf, at + n, bs[n..])
  {
  }

  lemma DropEmpty<T>(s: seq<T>)
    ensures [] + s == s
  {
  }

  lemma SelectNothing(types: Option<set<uint16>>)
    ensures Select([], types) == []
  {
  }

  /** The first option with this number, if any. */
  function FirstOf(opts: seq<Opt>, number: uint16): (r: Option<Opt>)
    ensures r.Some? <==> exists o :: o in opts && o.number == number
    ensures r.Some? ==> r.value in opts && r.value.number == number
  {
    if opts == [] then None
    else if opts[0].number == number then Some(opts[0])
    else FirstOf(opts[1..], number)
  }

  lemma FirstOfAppended(opts: seq<Opt>, o: Opt)
    requires FirstOf(opts, o.number).None?
    ensures FirstOf(opts + [o], o.number) == Some(o)
  {
  }

  lemma {:induction false} FirstOfSelect(opts: seq<Opt>, number: uint16)
    ensures var s := Select(opts, Some({number}));
            FirstOf(opts, number) == if s == [] then None else Some(s[0])
  {
    if opts != [] {
      FirstOfSelect(opts[1..], number);
    }
  }

  /** The filter coap_check_option builds. */
  method SingleFilter(number: uint16) returns (f: OptFilter)
    ensures f.Valid() && f.Types() == {number}
    ensures fresh(f) && fresh(f.Footprint())
  {
    f := new OptFilter();
    ghost var none: set<uint16> := {};
    assert (set t | t in none && t > 255) == {} && (set t | t in none && t <= 255) == {};
    var ok := f.Set(number);
    assert ok;
  }

  /** coap_check_option */
  method CheckOption(pdu: Pdu, number: uint16) returns (r: Option<nat>, ghost opt: Opt, ghost raw: seq<byte>)
    requires pdu.Valid() && 4 + pdu.buf[0] % 16 <= pdu.length
    ensures r.Some? <==> FirstOf(ScanOpts(pdu.View().bytes[4 + pdu.buf[0] % 16..], 0), number).Some?
    ensures FirstOf(ScanOpts(pdu.View().bytes[4 + pdu.buf[0] % 16..], 0), number)
         == if r.None? then None else Some(opt)
    ensures r.Some? ==> OptionAt(pdu.buf, r.value, raw, opt.value)
  {
    hide ScanOpts, Select, FirstOf, OptionAt;
    var f := SingleFilter(number);
    var it := new OptIterator(pdu, f);
    ghost var opts := it.Remaining();
    FirstOfSelect(opts, number);
    r, opt, raw := it.Next();
  }
}
