/** The bounded option-number filter (option.c, coap_opt_filter_t). */
module OptionFilter {
  import opened Bytes
  import VarInt

  const LONG := 2
  const SHORT := 6

  predicate IsLong(number: uint16) {
    number > 255
  }

  // ----- the mask as a number, searched with coap_fls

  function BitsValue(bits: seq<bool>): nat {
    if bits == [] then 0 else (if bits[0] then 1 else 0) + 2 * BitsValue(bits[1..])
  }

  /** coap_fls finds the highest bit that is set, counting from one. */
  lemma {:induction false} FlsIsHighestBit(bits: seq<bool>)
    ensures var n := VarInt.Fls(BitsValue(bits));
            && n <= |bits|
            && (n > 0 ==> bits[n - 1])
            && (forall i :: n <= i < |bits| ==> !bits[i])
  {
    if bits != [] {
      FlsIsHighestBit(bits[1..]);
      var v, n := BitsValue(bits), VarInt.Fls(BitsValue(bits[1..]));
      assert v / 2 == BitsValue(bits[1..]);
      forall i | (if v == 0 then 0 else n + 1) <= i < |bits|
        ensures !bits[i]
      {
        if i > 0 { assert bits[1..][i - 1] == bits[i]; }
      }
    }
  }

  lemma {:induction false} BitsValueBound(bits: seq<bool>)
    ensures BitsValue(bits) < Pow2(|bits|)
  {
    if bits != [] { BitsValueBound(bits[1..]); }
  }

  // ----- the set stored in a run of slots

  /** The numbers in the slots whose mask bit is set. */
  function Stored(mask: seq<bool>, slots: seq<uint16>): set<uint16>
    requires |mask| == |slots|
  {
    set i | 0 <= i < |mask| && mask[i] :: slots[i]
  }

  predicate NoDuplicates(mask: seq<bool>, slots: seq<uint16>)
    requires |mask| == |slots|
  {
    forall i, j :: 0 <= i < j < |mask| && mask[i] && mask[j] ==> slots[i] != slots[j]
  }

  lemma StoredSplit(mask: seq<bool>, slots: seq<uint16>)
    requires |mask| == |slots| > 0 && NoDuplicates(mask, slots)
    ensures var n := |mask| - 1;
            && NoDuplicates(mask[..n], slots[..n])
            && (mask[n] ==> slots[n] !in Stored(mask[..n], slots[..n]))
            && Stored(mask, slots) == Stored(mask[..n], slots[..n]) + if mask[n] then {slots[n]} else {}
  {
  }

  /** Duplicate-free slots are all in use exactly when the set has their number. */
  lemma {:induction false} FullWhen(mask: seq<bool>, slots: seq<uint16>)
    requires |mask| == |slots| && NoDuplicates(mask, slots)
    ensures |Stored(mask, slots)| <= |mask|
    ensures |Stored(mask, slots)| == |mask| <==> forall i :: 0 <= i < |mask| ==> mask[i]
  {
    if mask != [] {
      var n := |mask| - 1;
      StoredSplit(mask, slots);
      FullWhen(mask[..n], slots[..n]);
      hide Stored, NoDuplicates;
      assert (forall i :: 0 <= i < |mask| ==> mask[i]) <==> mask[n] && (forall i :: 0 <= i < n ==> mask[..n][i]);
    }
  }

  /** One half of the filter: its mask bits and its slots. */
  class Section {
    const mask: array<bool>
    const slots: array<uint16>
    ghost var types: set<uint16>  // the numbers stored

    ghost predicate Valid()
      reads this, mask, slots
    {
      && mask.Length == slots.Length <= 8
      && NoDuplicates(mask[..], slots[..])
      && types == Stored(mask[..], slots[..])
    }

    constructor (size: nat)
      requires size <= 8
      ensures Valid() && fresh(mask) && fresh(slots) && mask.Length == size
      ensures types == {}
    {
      mask := new bool[size](_ => false);
      slots := new uint16[size](_ => 0);
      types := {};
    }

    constructor Copy(other: Section)
      requires other.Valid()
      ensures Valid() && fresh(mask) && fresh(slots) && mask.Length == other.mask.Length
      ensures types == other.types
    {
      var m, s := other.mask[..], other.slots[..];
      mask := new bool[|m|](i requires 0 <= i < |m| => m[i]);
      slots := new uint16[|s|](i requires 0 <= i < |s| => s[i]);
      types := other.types;
      new;
      assert mask[..] == m && slots[..] == s;
    }

    /** The search loops of coap_option_filter_op. */
    method Find(number: uint16) returns (index: int)
      requires Valid()
      ensures index < 0 <==> number !in types
      ensures index >= 0 ==> index < mask.Length && mask[index] && slots[index] == number
    {
      index := 0;
      while index < mask.Length
        invariant 0 <= index <= mask.Length
        invariant forall i :: 0 <= i < index ==> !(mask[i] && slots[i] == number)
      {
        if mask[index] && slots[index] == number { return; }
        index := index + 1;
      }
      index := -1;
    }

    /** FILTER_SET */
    method Set(number: uint16) returns (ok: bool)
      requires Valid()
      modifies this, mask, slots
      ensures Valid()
      ensures ok == (number in old(types) || |old(types)| < mask.Length)
      ensures types == if ok then old(types) + {number} else old(types)
    {
      FullWhen(mask[..], slots[..]);
      var index := Find(number);
      if index >= 0 {
        types := types + {number};
        return true;
      }
      ghost var m, s := mask[..], slots[..];
      var n := FreeSlot();
      if n == 0 {
        return false;
      }
      slots[n - 1] := number;
      mask[n - 1] := true;
      types := types + {number};
      StoredAfterSet(m, s, n - 1, number);
      assert mask[..] == m[n - 1 := true] && slots[..] == s[n - 1 := number];
      ok := true;
    }

    /** The highest slot not in use, counted from 1, or 0 when all are: the highest bit of
        the inverted mask. */
    method FreeSlot() returns (n: nat)
      requires mask.Length <= 8
      ensures n <= mask.Length
      ensures if n == 0 then forall i :: 0 <= i < mask.Length ==> mask[i] else !mask[n - 1]
    {
      hide Pow2, BitsValue;
      var free := seq(mask.Length, i requires 0 <= i < mask.Length reads mask => !mask[i]);
      FlsIsHighestBit(free);
      BitsValueBound(free);
      Pow2Monotone(|free|, 8);
      Pow2Constants();
      n := VarInt.FindLastSet(BitsValue(free));
      if n == 0 {
        forall i | 0 <= i < mask.Length ensures mask[i] { assert !free[i]; }
      } else {
        assert free[n - 1];
      }
    }

    /** FILTER_CLEAR */
    method Clear(number: uint16) returns (found: bool)
      requires Valid()
      modifies this, mask
      ensures Valid()
      ensures found == (number in old(types))
      ensures types == old(types) - {number}
    {
      ghost var m, s := mask[..], slots[..];
      var index := Find(number);
      if index < 0 { return false; }
      mask[index] := false;
      types := types - {number};
      StoredAfterClear(m, s, index);
      assert mask[..] == m[index := false];
      found := true;
    }
  }

  lemma StoredAfterSet(m: seq<bool>, s: seq<uint16>, i: nat, number: uint16)
    requires |m| == |s| && i < |m| && !m[i] && NoDuplicates(m, s) && number !in Stored(m, s)
    ensures var m', s' := m[i := true], s[i := number];
            NoDuplicates(m', s') && Stored(m', s') == Stored(m, s) + {number}
  {
    var m', s' := m[i := true], s[i := number];
    forall t | t in Stored(m, s) ensures t in Stored(m', s') {
      var j :| 0 <= j < |m| && m[j] && s[j] == t;
      assert m'[j] && s'[j] == t;
    }
    assert m'[i] && s'[i] == number;
    assert forall j :: 0 <= j < |m| && m[j] ==> s[j] in Stored(m, s);
  }

  lemma StoredAfterClear(m: seq<bool>, s: seq<uint16>, i: nat)
    requires |m| == |s| && i < |m| && m[i] && NoDuplicates(m, s)
    ensures var m' := m[i := false];
            NoDuplicates(m', s) && Stored(m', s) == Stored(m, s) - {s[i]}
  {
  }

  /** coap_opt_filter_t: at most two numbers above 255 and six others. */
  class OptFilter {
    const long: Section
    const short: Section

    ghost predicate Valid()
      reads this, long, short, long.mask, long.slots, short.mask, short.slots
    {
      && long.Valid() && short.Valid()
      && long != short && long.mask != short.mask && long.slots != short.slots
      && long.mask.Length == LONG && short.mask.Length == SHORT
      && (forall t :: t in long.types ==> IsLong(t))
      && (forall t :: t in short.types ==> !IsLong(t))
    }

    ghost function Types(): set<uint16>
      reads this, long, short
    {
      long.types + short.types
    }

    ghost function Footprint(): set<object>
      reads this, long, short
    {
      {long, short, long.mask, long.slots, short.mask, short.slots}
    }

    constructor ()
      ensures Valid() && fresh(Footprint())
      ensures Types() == {}
    {
      long := new Section(LONG);
      short := new Section(SHORT);
    }

    constructor Copy(other: OptFilter)
      requires other.Valid()
      ensures Valid() && fresh(Footprint())
      ensures Types() == other.Types()
    {
      long := new Section.Copy(other.long);
      short := new Section.Copy(other.short);
    }

    /** coap_option_filter_set: the two capacities are separate, and a full
        filter is left as it was. */
    method Set(number: uint16) returns (ok: bool)
      requires Valid()
      modifies Footprint()
      ensures Valid()
      ensures ok == (number in old(Types())
                     || (if number > 255 then |set t | t in old(Types()) && t > 255| < 2
                         else |set t | t in old(Types()) && t <= 255| < 6))
      ensures Types() == if ok then old(Types()) + {number} else old(Types())
    {
      hide Stored, NoDuplicates, BitsValue;
      Halves();
      if IsLong(number) {
        ok := long.Set(number);
      } else {
        ok := short.Set(number);
      }
    }

    /** coap_option_filter_unset */
    method Unset(number: uint16) returns (found: bool)
      requires Valid()
      modifies Footprint()
      ensures Valid()
      ensures found == (number in old(Types()))
      ensures Types() == old(Types()) - {number}
    {
      if IsLong(number) {
        found := long.Clear(number);
      } else {
        found := short.Clear(number);
      }
    }

    /** coap_option_filter_get */
    method Get(number: uint16) returns (found: bool)
      requires Valid()
      ensures found == (number in Types())
    {
      var index;
      if IsLong(number) {
        index := long.Find(number);
      } else {
        index := short.Find(number);
      }
      found := index >= 0;
    }

    lemma Halves()
      requires Valid()
      ensures (set t | t in Types() && t > 255) == long.types
      ensures (set t | t in Types() && t <= 255) == short.types
    {
    }
  }
}
