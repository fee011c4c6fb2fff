/** One option on the wire (option.c): a byte with two nibbles, the extended
    delta, the extended length and the value (section 3.1 of RFC 7252). */
module OptionCodec {
  import opened Bytes

  // ----- what the encoder writes

  /** Nibble announcing `v`. The source compares with 270 where section 3.1 of
      RFC 7252 asks for 269, so 269 is announced like 13. */
  function Nibble(v: nat): nat {
    if v < 13 then v else if v < 270 then 13 else 14
  }

  /** Extended bytes of `v`, each cut to eight bits. */
  function Ext(v: nat): seq<byte> {
    if v < 13 then []
    else if v < 270 then [(v - 13) % 0x100]
    else [(v - 269) / 0x100 % 0x100, (v - 269) % 0x100]
  }

  function Header(delta: nat, length: nat): seq<byte>
  {
    [Nibble(delta) * 16 + Nibble(length)] + Ext(delta) + Ext(length)
  }

  function Encode(delta: nat, value: seq<byte>): seq<byte> {
    Header(delta, |value|) + value
  }

  // ----- what the parser reads

  datatype Parsed = Parsed(delta: uint16, value: seq<byte>, size: nat)

  function ExtSize(nibble: nat): nat {
    if nibble == 14 then 2 else if nibble == 13 then 1 else 0
  }

  function HeaderSize(first: byte): nat {
    1 + ExtSize(first / 16) + ExtSize(first % 16)
  }

  /** The number announced by `nibble` with its extended bytes at `at`. */
  function Number(bs: seq<byte>, nibble: nat, at: nat): nat
    requires at + ExtSize(nibble) <= |bs|
  {
    if nibble == 14 then bs[at] * 0x100 + 269 + bs[at + 1]
    else if nibble == 13 then 13 + bs[at]
    else nibble
  }

  /** coap_opt_parse as a function of the bytes left. The delta is kept in 16
      bits: a first extended byte of 255 is refused, but 254 followed by 243 or
      more silently wraps. */
  function ParseOption(bs: seq<byte>): (r: Option<Parsed>)
    ensures r.Some? ==> |r.value.value| < r.value.size <= |bs|
  {
    if |bs| < 1 || |bs| < HeaderSize(bs[0]) then None
    else if bs[0] / 16 == 15 || bs[0] % 16 == 15 then None
    else if bs[0] / 16 == 14 && bs[1] == 0xFF then None
    else
      var h := HeaderSize(bs[0]);
      var length := Number(bs, bs[0] % 16, 1 + ExtSize(bs[0] / 16));
      if |bs| < h + length then None
      else Some(Parsed(Number(bs, bs[0] / 16, 1) % 0x1_0000, bs[h..h + length], h + length))
  }

  // ----- both directions

  /** The number a reader finds where the encoder announced `v`. */
  function Announced(v: nat): nat {
    if v == 269 then 13 else if v < 269 then v else (v - 269) % 0x1_0000 + 269
  }

  /** A reader that finds the nibble and the extended bytes of `v` in place. */
  lemma NumberOfExt(v: nat, b: seq<byte>, at: nat)
    requires at + |Ext(v)| <= |b| && b[at..at + |Ext(v)|] == Ext(v)
    ensures |Ext(v)| == ExtSize(Nibble(v))
    ensures Number(b, Nibble(v), at) == Announced(v)
    ensures Nibble(v) == 14 && v < 0x1_0000 ==> b[at] != 0xFF
  {
    var e := b[at..at + |Ext(v)|];
    if v >= 270 {
      assert b[at] == e[0] && b[at + 1] == e[1];
      SplitWord(v - 269);
    } else if v >= 13 {
      assert b[at] == e[0];
    }
  }

  lemma HeaderBytes(delta: uint16, length: nat, rest: seq<byte>)
    ensures var b := Header(delta, length) + rest;
            && b[0] / 16 == Nibble(delta) && b[0] % 16 == Nibble(length)
            && HeaderSize(b[0]) == |Header(delta, length)| > 0
            && b[0] != 0xFF
            && Number(b, Nibble(delta), 1) == Announced(delta)
            && Number(b, Nibble(length), 1 + ExtSize(Nibble(delta))) == Announced(length)
            && (Nibble(delta) == 14 ==> b[1] != 0xFF)
  {
    var b := Header(delta, length) + rest;
    var n := |Ext(delta)|;
    assert b[1..1 + n] == Ext(delta);
    NumberOfExt(delta, b, 1);
    assert b[1 + n..1 + n + |Ext(length)|] == Ext(length);
    NumberOfExt(length, b, 1 + n);
  }

  lemma SplitWord(n: nat)
    ensures n / 0x100 % 0x100 * 0x100 + n % 0x100 == n % 0x1_0000
  {
  }

  /** What the parser makes of any encoded option. */
  lemma ParseOfEncode(delta: uint16, value: seq<byte>, rest: seq<byte>)
    ensures var b, h, l := Encode(delta, value) + rest, |Header(delta, |value|)|, Announced(|value|);
            ParseOption(b) == if |b| < h + l then None
                              else Some(Parsed(Announced(delta), b[h..h + l], h + l))
  {
    hide Header, ParseOption, HeaderSize, Number, Ext;
    var b, h := Encode(delta, value) + rest, Header(delta, |value|);
    assert b == h + (value + rest);
    HeaderBytes(delta, |value|, value + rest);
    assert Nibble(delta) < 15 && Nibble(|value|) < 15 && Announced(delta) <= delta;
    ParseByHeader(b, Nibble(delta), Nibble(|value|), |h|, Announced(delta), Announced(|value|));
  }

  /** The parser's last step, once the header is understood. */
  lemma ParseByHeader(b: seq<byte>, dn: nat, ln: nat, h: nat, d: uint16, l: nat)
    requires |b| >= h > 0 && HeaderSize(b[0]) == h
    requires b[0] / 16 == dn < 15 && b[0] % 16 == ln < 15 && (dn == 14 ==> b[1] != 0xFF)
    requires Number(b, dn, 1) == d && Number(b, ln, 1 + ExtSize(dn)) == l
    ensures ParseOption(b) == if |b| < h + l then None else Some(Parsed(d, b[h..h + l], h + l))
  {
  }

  /** Parsing inverts encoding for exactly these deltas and values. */
  lemma ParseInvertsEncode(delta: uint16, value: seq<byte>, rest: seq<byte>)
    ensures ParseOption(Encode(delta, value) + rest) == Some(Parsed(delta, value, |Encode(delta, value)|))
       <==> delta != 269 && |value| != 269 && |value| <= 65804
  {
    hide ParseOption, Encode, Header;
    ParseOfEncode(delta, value, rest);
    var b, n, l := Encode(delta, value) + rest, |Header(delta, |value|)|, Announced(|value|);
    EncodedValue(delta, value, rest, n);
    if l != |value| && |b| >= n + l {
      assert |b[n..n + l]| == l;
    }
  }

  lemma EncodedValue(delta: uint16, value: seq<byte>, rest: seq<byte>, n: nat)
    requires n == |Header(delta, |value|)|
    ensures |Encode(delta, value)| == n + |value|
    ensures (Encode(delta, value) + rest)[n..n + |value|] == value
  {
  }

  /** No encoded option can be taken for the payload marker. */
  lemma EncodeNotMarker(delta: uint16, value: seq<byte>)
    ensures Encode(delta, value)[0] != 0xFF
  {
  }

  /** A number read back from its nibble and extended bytes is written the same
      way, if two extended bytes announced more than 269. */
  lemma ExtOfNumber(bs: seq<byte>, nibble: nat, at: nat)
    requires nibble < 15 && at + ExtSize(nibble) <= |bs|
    ensures var v := Number(bs, nibble, at);
            v != 269 || nibble != 14 ==> Nibble(v) == nibble && Ext(v) == bs[at..at + ExtSize(nibble)]
  {
  }

  /** Encoding inverts parsing exactly when the two-byte extensions announce
      more than 269; a delta that wrapped is below 269. */
  lemma EncodeInvertsParse(bs: seq<byte>)
    requires ParseOption(bs).Some?
    ensures var p := ParseOption(bs).value;
            (Encode(p.delta, p.value) == bs[..p.size]
             <==> (bs[0] / 16 == 14 ==> p.delta > 269) && (bs[0] % 16 == 14 ==> |p.value| > 269))
  {
    var p := ParseOption(bs).value;
    if (bs[0] / 16 == 14 ==> p.delta > 269) && (bs[0] % 16 == 14 ==> |p.value| > 269) {
      ReencodeCanonical(bs, p);
    } else {
      HeaderBytes(p.delta, |p.value|, p.value);
      assert Encode(p.delta, p.value)[0] == (Header(p.delta, |p.value|) + p.value)[0];
      assert Nibble(p.delta) != bs[0] / 16 || Nibble(|p.value|) != bs[0] % 16;
      assert bs[..p.size][0] == bs[0];
    }
  }

  lemma Pieces(bs: seq<byte>, m: nat, h: nat, n: nat)
    requires 1 <= m <= h <= n <= |bs|
    ensures bs[..n] == [bs[0]] + bs[1..m] + bs[m..h] + bs[h..n]
  {
  }

  lemma ReencodeCanonical(bs: seq<byte>, p: Parsed)
    requires ParseOption(bs) == Some(p)
    requires (bs[0] / 16 == 14 ==> p.delta > 269) && (bs[0] % 16 == 14 ==> |p.value| > 269)
    ensures Encode(p.delta, p.value) == bs[..p.size]
  {
    hide ParseOption, Nibble, Ext, Number;
    ParsedFields(bs);
    var dn, ln := bs[0] / 16, bs[0] % 16;
    var m := 1 + ExtSize(dn);
    var h := HeaderSize(bs[0]);
    NumberBounds(bs, dn, 1);
    NumberBounds(bs, ln, m);
    ExtOfNumber(bs, dn, 1);
    ExtOfNumber(bs, ln, m);
    Pieces(bs, m, h, p.size);
  }

  lemma NumberBounds(bs: seq<byte>, nibble: nat, at: nat)
    requires nibble < 15 && at + ExtSize(nibble) <= |bs|
    ensures nibble < 13 ==> Number(bs, nibble, at) == nibble
    ensures nibble == 13 ==> 13 <= Number(bs, nibble, at) <= 268
    ensures nibble == 14 ==> 269 <= Number(bs, nibble, at) <= 65804
  {
  }

  /** A concrete option the round trip misses: a delta of 269 comes back as 13. */
  lemma Delta269ComesBackAs13()
    ensures ParseOption(Encode(269, [])) == Some(Parsed(13, [], 2))
  {
  }

  /** A concrete wrap the parser accepts: 65536 comes back as 0. */
  lemma WrappedDeltaAccepted()
    ensures ParseOption([0xE0, 0xFE, 0xF3]) == Some(Parsed(0, [], 3))
  {
  }

  // ----- the operations on a buffer

  /** `bs` is what the buffer holds at `at`. */
  ghost predicate Holds(buf: array<byte>, at: nat, bs: seq<byte>)
    reads buf
  {
    at + |bs| <= buf.Length && forall i :: at <= i < at + |bs| ==> buf[i] == bs[i - at]
  }

  /** coap_opt_parse on the `length` bytes `bs` at `off`; `size` is 0 on failure. */
  method OptParse(buf: array<byte>, off: nat, length: nat, ghost bs: seq<byte>)
    returns (size: nat, delta: uint16, valueOff: nat, valueLen: nat)
    requires Holds(buf, off, bs) && |bs| == length
    ensures match ParseOption(bs)
            case None => size == 0
            case Some(p) =>
              && size == p.size > 0 && delta == p.delta && valueLen == |p.value|
              && valueOff + valueLen == off + size
              && Holds(buf, valueOff, p.value)
  {
    size, delta, valueOff, valueLen := 0, 0, off, 0;
    if length < 1 { return; }
    var dn, ln := buf[off] / 16, buf[off] % 16;
    var d := ReadDelta(buf, off, length, dn, bs);
    if d.None? { return; }
    var at := 1 + ExtSize(dn);
    if ln == 15 { return; }
    var l := ReadLength(buf, off, length, ln, at, bs);
    if l.None? { return; }
    var h := at + ExtSize(ln);
    if length < h { return; }
    valueOff, valueLen, delta := off + h, l.value, d.value;
    if length - h < l.value { return; }
    size := h + l.value;
  }

  /** The first switch of coap_opt_parse: `None` when it returns 0. */
  method ReadDelta(buf: array<byte>, off: nat, length: nat, dn: nat, ghost bs: seq<byte>)
    returns (d: Option<uint16>)
    requires Holds(buf, off, bs) && |bs| == length >= 1 && dn < 16
    ensures d == if dn == 15 || length < 1 + ExtSize(dn) || (dn == 14 && bs[1] == 0xFF) then None
                 else Some(Number(bs, dn, 1) % 0x1_0000)
  {
    var opt, left := off, length;
    var v: nat := dn;
    if dn == 15 { return None; }
    if dn == 14 {
      opt, left := opt + 1, left - 1;
      if left < 1 { return None; }
      var msb: nat := buf[opt];
      v := (msb * 0x100 + 269) % 0x1_0000;
      if v < 269 { return None; }
    }
    if dn >= 13 {
      opt, left := opt + 1, left - 1;
      if left < 1 { return None; }
      var lsb: nat := buf[opt];
      v := (v + lsb) % 0x1_0000;
    }
    d := Some(v);
  }

  /** The second switch of coap_opt_parse, with `at` bytes consumed. */
  method ReadLength(buf: array<byte>, off: nat, length: nat, ln: nat, at: nat, ghost bs: seq<byte>)
    returns (l: Option<nat>)
    requires Holds(buf, off, bs) && |bs| == length && 1 <= at <= length && ln < 15
    ensures l == if length < at + ExtSize(ln) then None else Some(Number(bs, ln, at))
  {
    var opt, left := off + at, length - at;
    var v: nat := ln;
    if ln == 14 {
      if left < 1 { return None; }
      var msb: nat := buf[opt];
      v := msb * 0x100 + 269;
      opt, left := opt + 1, left - 1;
    }
    if ln >= 13 {
      if left < 1 { return None; }
      var lsb: nat := buf[opt];
      v := v + lsb;
    }
    l := Some(v);
  }

  /** What the parser makes of an option, by the two nibbles of its first byte. */
  lemma ParsedFields(bs: seq<byte>)
    requires ParseOption(bs).Some?
    ensures |bs| > 0 && |bs| >= HeaderSize(bs[0]) && bs[0] / 16 < 15 && bs[0] % 16 < 15
    ensures (var p, m := ParseOption(bs).value, 1 + ExtSize(bs[0] / 16);
             && p.delta == Number(bs, bs[0] / 16, 1) % 0x1_0000
             && |p.value| == Number(bs, bs[0] % 16, m)
             && p.size == HeaderSize(bs[0]) + |p.value|
             && p.value == bs[HeaderSize(bs[0])..p.size])
  {
  }

  /** The switch that coap_opt_delta and coap_opt_length end with, in 16-bit arithmetic:
      two extended bytes fall through to the case of one. */
  method Extended(buf: array<byte>, start: nat, nibble: nat, ghost bs: seq<byte>, ghost at: nat) returns (n: uint16)
    requires at <= start && Holds(buf, start - at, bs) && nibble < 15 && at + ExtSize(nibble) <= |bs|
    ensures n == Number(bs, nibble, at) % 0x1_0000
  {
    var opt := start;
    n := nibble;
    var two := n == 14;
    if two {
      var msb: nat := buf[opt];
      n := (msb * 0x100 + 269) % 0x1_0000;
      CutTwice(msb * 0x100 + 269, buf[opt + 1]);
      opt := opt + 1;
    }
    if two || n == 13 {
      var lsb: nat := buf[opt];
      n := (n + lsb) % 0x1_0000;
    }
  }

  /** Cutting to 16 bits early makes no difference to the sum. */
  lemma CutTwice(a: nat, b: nat)
    ensures (a % 0x1_0000 + b) % 0x1_0000 == (a + b) % 0x1_0000
  {
  }

  /** coap_opt_delta, in 16-bit arithmetic. It agrees with the parser on every option
      the parser accepts. */
  method OptDelta(buf: array<byte>, off: nat, ghost bs: seq<byte>) returns (n: uint16)
    requires Holds(buf, off, bs) && |bs| > 0 && |bs| >= HeaderSize(bs[0])
    ensures ParseOption(bs).Some? ==> n == ParseOption(bs).value.delta
    ensures bs[0] / 16 == 15 ==> n == 0
  {
    hide ParseOption;
    if ParseOption(bs).Some? { ParsedFields(bs); }
    var opt := off;
    n := buf[opt] / 16;
    opt := opt + 1;
    if n == 15 { return 0; }
    n := Extended(buf, opt, n, bs, 1);
  }

  /** coap_opt_length, in 16-bit arithmetic. It agrees with the parser exactly on values
      of less than 65536 bytes. */
  method OptLength(buf: array<byte>, off: nat, ghost bs: seq<byte>) returns (n: uint16)
    requires Holds(buf, off, bs) && |bs| > 0 && |bs| >= HeaderSize(bs[0])
    ensures ParseOption(bs).Some? ==> n == |ParseOption(bs).value.value| % 0x1_0000
    ensures ParseOption(bs).Some? ==> (n == |ParseOption(bs).value.value| <==> |ParseOption(bs).value.value| < 0x1_0000)
    ensures bs[0] / 16 == 15 || bs[0] % 16 == 15 ==> n == 0
  {
    hide ParseOption;
    if ParseOption(bs).Some? { ParsedFields(bs); }
    var opt := off;
    n := buf[opt] % 16;
    var high := buf[opt] / 16;
    if high == 15 { return 0; }
    if high == 14 { opt := opt + 1; }
    if high >= 13 { opt := opt + 1; }
    opt := opt + 1;
    if n == 15 { return 0; }
    n := Extended(buf, opt, n, bs, opt - off);
  }

  /** coap_opt_value as an offset in the buffer: where the parser finds the value. */
  method OptValue(buf: array<byte>, off: nat, ghost bs: seq<byte>) returns (r: Option<nat>)
    requires Holds(buf, off, bs) && |bs| > 0
    ensures r.None? <==> bs[0] / 16 == 15 || bs[0] % 16 == 15
    ensures ParseOption(bs).Some? ==>
              && r.Some? && r.value + |ParseOption(bs).value.value| == off + ParseOption(bs).value.size
              && Holds(buf, r.value, ParseOption(bs).value.value)
  {
    hide ParseOption;
    if ParseOption(bs).Some? { ParsedFields(bs); }
    var ofs := 1;
    var high, low := buf[off] / 16, buf[off] % 16;
    if high == 15 { return None; }
    if high == 14 { ofs := ofs + 1; }
    if high >= 13 { ofs := ofs + 1; }
    if low == 15 { return None; }
    if low == 14 { ofs := ofs + 1; }
    if low >= 13 { ofs := ofs + 1; }
    r := Some(off + ofs);
  }

  /** Nothing outside the `room` bytes at `at` has changed. */
  twostate predicate SameOutside(buf: array<byte>, at: nat, room: nat)
    reads buf
  {
    forall i :: 0 <= i < buf.Length && !(at <= i < at + room) ==> buf[i] == old(buf[i])
  }

  /** coap_opt_setheader; on failure only the `maxlen` bytes may be overwritten. */
  method SetHeader(buf: array<byte>, off: nat, maxlen: nat, delta: uint16, length: nat)
    returns (size: nat)
    requires off + maxlen <= buf.Length
    modifies buf
    ensures size == if maxlen < |Header(delta, length)| then 0 else |Header(delta, length)|
    ensures size > 0 ==> Holds(buf, off, Header(delta, length))
    ensures SameOutside(buf, off, maxlen)
  {
    assert |Header(delta, length)| == 1 + |Ext(delta)| + |Ext(length)|;
    hide Header, Ext, Nibble;
    if maxlen == 0 { return 0; }
    var skip := PutDelta(buf, off, maxlen, delta);
    if skip < 0 { return 0; }
    var more := PutLength(buf, off, maxlen, skip, length);
    if more < 0 { return 0; }
    size := skip + more + 1;
    HeaderHeld(buf, off, delta, length);
  }

  lemma HeaderHeld(buf: array<byte>, off: nat, delta: uint16, length: nat)
    requires off < buf.Length && buf[off] == Nibble(delta) * 16 + Nibble(length)
    requires Holds(buf, off + 1, Ext(delta)) && Holds(buf, off + 1 + |Ext(delta)|, Ext(length))
    ensures Holds(buf, off, Header(delta, length))
  {
  }

  /** The delta switch of coap_opt_setheader; -1 stands for its failures. */
  method PutDelta(buf: array<byte>, off: nat, maxlen: nat, delta: uint16) returns (skip: int)
    requires off + maxlen <= buf.Length && maxlen > 0
    modifies buf
    ensures skip == if maxlen < 1 + |Ext(delta)| then -1 else |Ext(delta)|
    ensures skip >= 0 ==> buf[off] == Nibble(delta) * 16 && Holds(buf, off + 1, Ext(delta))
    ensures SameOutside(buf, off, maxlen)
  {
    if delta < 13 {
      buf[off] := delta * 16;
      skip := 0;
    } else if delta < 270 {
      if maxlen < 2 { return -1; }
      buf[off] := 0xD0;
      buf[off + 1] := (delta - 13) % 0x100;
      skip := 1;
    } else {
      if maxlen < 3 { return -1; }
      buf[off] := 0xE0;
      buf[off + 1] := (delta - 269) / 0x100 % 0x100;
      buf[off + 2] := (delta - 269) % 0x100;
      skip := 2;
    }
  }

  /** The length switch of coap_opt_setheader, `skip` bytes after the first. */
  method PutLength(buf: array<byte>, off: nat, maxlen: nat, skip: nat, length: nat) returns (more: int)
    requires off + maxlen <= buf.Length && skip < maxlen && buf[off] % 16 == 0
    modifies buf
    ensures more == if maxlen < skip + 1 + |Ext(length)| then -1 else |Ext(length)|
    ensures more >= 0 ==> buf[off] == old(buf[off]) + Nibble(length) && Holds(buf, off + 1 + skip, Ext(length))
    ensures SameOutside(buf, off, maxlen)
    ensures forall i :: off < i <= off + skip ==> buf[i] == old(buf[i])
  {
    if length < 13 {
      buf[off] := buf[off] + length;
      more := 0;
    } else if length < 270 {
      if maxlen < skip + 2 { return -1; }
      buf[off] := buf[off] + 0x0D;
      buf[off + skip + 1] := (length - 13) % 0x100;
      more := 1;
    } else {
      if maxlen < skip + 3 { return -1; }
      buf[off] := buf[off] + 0x0E;
      buf[off + skip + 1] := (length - 269) / 0x100 % 0x100;
      buf[off + skip + 2] := (length - 269) % 0x100;
      more := 2;
    }
  }

  /** coap_opt_encode */
  method OptEncode(buf: array<byte>, off: nat, maxlen: nat, delta: uint16, value: seq<byte>)
    returns (size: nat)
    requires off + maxlen <= buf.Length
    modifies buf
    ensures size == if maxlen < |Encode(delta, value)| then 0 else |Encode(delta, value)|
    ensures size > 0 ==> Holds(buf, off, Encode(delta, value))
    ensures SameOutside(buf, off, maxlen)
  {
    ghost var h := Header(delta, |value|);
    assert Encode(delta, value) == h + value && |h| > 0;
    hide Header, Encode;
    var l := SetHeader(buf, off, maxlen, delta, |value|);
    if l == 0 || maxlen - l < |value| {
      return 0;
    }
    CopyInto(buf, off + l, value);
    size := l + |value|;
  }

  /** memcpy into a buffer */
  method CopyInto(buf: array<byte>, at: nat, value: seq<byte>)
    requires at + |value| <= buf.Length
    modifies buf
    ensures Holds(buf, at, value) && SameOutside(buf, at, |value|)
  {
    forall i | at <= i < at + |value| {
      buf[i] := value[i - at];
    }
  }
}
