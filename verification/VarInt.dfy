/** Variable-length unsigned integers and the highest set bit (encode.c). */
module VarInt {
  import opened Bytes

  /** The big-endian number written in `s`. */
  function Value(s: seq<byte>): nat {
    if s == [] then 0 else Value(s[..|s| - 1]) * 0x100 + s[|s| - 1]
  }

  /** The shortest big-endian writing of `v`; zero takes no byte. */
  function VarBytes(v: nat): (s: seq<byte>) {
    if v == 0 then [] else VarBytes(v / 0x100) + [v % 0x100]
  }

  lemma {:induction false} ValueOfVarBytes(v: nat)
    ensures Value(VarBytes(v)) == v
    ensures VarBytes(v) != [] ==> VarBytes(v)[0] != 0
  {
    if v > 0 {
      ValueOfVarBytes(v / 0x100);
      assert VarBytes(v)[..|VarBytes(v)| - 1] == VarBytes(v / 0x100);
    }
  }

  lemma {:induction false} ValueZero(s: seq<byte>)
    requires Value(s) == 0
    ensures s != [] ==> s[0] == 0
  {
    if |s| > 1 {
      ValueZero(s[..|s| - 1]);
    }
  }

  /** The encoder and decoder invert each other exactly on the writings without
      a leading zero byte. */
  lemma {:induction false} VarBytesOfValue(s: seq<byte>)
    ensures VarBytes(Value(s)) == s <==> s == [] || s[0] != 0
  {
    if s != [] {
      var p, b := s[..|s| - 1], s[|s| - 1];
      assert s == p + [b];
      assert Value(s) == Value(p) * 0x100 + b;
      if s[0] == 0 {
        ValueOfVarBytes(Value(s));
      } else {
        VarBytesOfValue(p);
        if Value(p) == 0 { ValueZero(p); }
        hide Value;
        assert Value(s) == Value(p) * 0x100 + b;
      }
    }
  }

  lemma {:induction false} VarBytesLength(v: nat, k: nat)
    ensures |VarBytes(v)| <= k <==> v < Pow2(8 * k)
    decreases k
  {
    hide Pow2;
    PowerOfBytes(k);
    if k > 0 && v > 0 {
      VarBytesLength(v / 0x100, k - 1);
      Below(v, Pow2(8 * (k - 1)));
    }
  }

  lemma PowerOfBytes(k: nat)
    ensures Pow2(0) == 1 && (k > 0 ==> Pow2(8 * k) == 0x100 * Pow2(8 * (k - 1)))
  {
    hide Pow2;
    Pow2Constants();
    if k > 0 {
      Pow2Add(8, 8 * (k - 1));
    }
  }

  lemma Below(v: nat, p: nat)
    ensures v / 0x100 < p <==> v < 0x100 * p
  {
  }

  lemma AtMostFour(v: nat)
    requires v < TWO32
    ensures |VarBytes(v)| <= 4
  {
    VarBytesLength(v, 4);
    Pow2Constants();
    hide Pow2;
  }

  function Fls(i: nat): nat {
    if i == 0 then 0 else 1 + Fls(i / 2)
  }

  lemma {:induction false} FlsBounds(i: nat)
    ensures i < Pow2(Fls(i))
    ensures i > 0 ==> Fls(i) > 0 && Pow2(Fls(i) - 1) <= i
  {
    if i > 1 {
      FlsBounds(i / 2);
    }
  }

  lemma {:induction false} FlsAtLeast(i: nat, n: nat)
    requires Pow2(n) <= i
    ensures Fls(i) >= n + 1
  {
    FlsBounds(i);
    if Fls(i) <= n { Pow2Monotone(Fls(i), n); }
  }

  /** coap_fls */
  method FindLastSet(val: uint32) returns (n: nat)
    ensures n == Fls(val)
  {
    n := 0;
    var i: nat := val;
    while i != 0
      invariant n + Fls(i) == Fls(val)
    {
      i := i / 2;
      n := n + 1;
    }
  }

  /** coap_decode_var_bytes; the accumulator is a 32-bit unsigned integer. */
  method DecodeVarBytes(buf: array<byte>, off: nat, len: nat) returns (n: uint32)
    requires off + len <= buf.Length
    ensures n == Value(buf[off..off + len]) % TWO32
  {
    n := 0;
    for i := 0 to len
      invariant n == Value(buf[off..off + i]) % TWO32
    {
      var s := buf[off..off + i + 1];
      assert s[..|s| - 1] == buf[off..off + i];
      WrapStep(Value(buf[off..off + i]), buf[off + i]);
      n := (n * 0x100 + buf[off + i]) % TWO32;
    }
  }

  lemma WrapStep(v: nat, b: byte)
    ensures (v * 0x100 + b) % TWO32 == (v % TWO32 * 0x100 + b) % TWO32
  {
    var q, r := v / TWO32, v % TWO32;
    assert v * 0x100 + b == (q * 0x100) * TWO32 + (r * 0x100 + b);
    ModShift(r * 0x100 + b, q * 0x100);
  }

  lemma {:induction false} ModShift(a: nat, k: nat)
    ensures (k * TWO32 + a) % TWO32 == a % TWO32
  {
  }

  lemma VarBytesStep(v: nat)
    ensures |VarBytes(v)| == 0 <==> v == 0
    ensures v > 0 ==>
      (var s := VarBytes(v); s[..|s| - 1] == VarBytes(v / 0x100) && s[|s| - 1] == v % 0x100)
  {
  }

  /** coap_encode_var_bytes */
  method EncodeVarBytes(buf: array<byte>, val: uint32) returns (n: nat)
    requires buf.Length >= |VarBytes(val)|
    modifies buf
    ensures n == |VarBytes(val)| <= 4
    ensures buf[..n] == VarBytes(val) && buf[n..] == old(buf[n..])
  {
    hide VarBytes;
    n := 0;
    var i: nat := val;
    AtMostFour(val);
    while i != 0 && n < 4
      invariant n + |VarBytes(i)| == |VarBytes(val)|
      invariant buf[..] == old(buf[..])
      decreases 4 - n
    {
      VarBytesStep(i);
      i := i / 0x100;
      n := n + 1;
    }
    VarBytesStep(i);
    i := n;
    var v: nat := val;
    ghost var whole := VarBytes(val);
    assert whole[..n] == whole;
    while i != 0
      invariant 0 <= i <= n == |whole| <= buf.Length
      invariant VarBytes(v) == whole[..i]
      invariant forall k :: i <= k < n ==> buf[k] == whole[k]
      invariant forall k :: n <= k < buf.Length ==> buf[k] == old(buf[k])
    {
      i := i - 1;
      VarBytesStep(v);
      assert whole[..i + 1][..i] == whole[..i];
      buf[i] := v % 0x100;
      v := v / 0x100;
    }
  }
}
