/** Block options and block adjustment (block.c; sections 2.2 to 2.4 of RFC 7959). */
module Blocks {
  import opened Bytes
  import opened OptionCodec
  import opened Pdus
  import VarInt

  const MAX_NUM := 0xF_FFFF

  datatype Block = Block(num: nat, m: bool, szx: nat)
  {
    predicate Valid() {
      num < TWO32 && szx < 8
    }

    /** Bytes in a block of this size exponent. */
    function Size(): nat {
      Pow2(szx + 4)
    }

    /** Offset of the block in the body. */
    function Start(): nat {
      num * Size()
    }

    /** The option value as a number: num, m and szx from the top. */
    function Code(): nat {
      num * 16 + (if m then 8 else 0) + szx
    }
  }

  /** The value of a block option, in 32-bit arithmetic. */
  function Value(b: Block): seq<byte> {
    VarInt.VarBytes(b.Code() % TWO32)
  }

  /** coap_opt_block_num, COAP_OPT_BLOCK_MORE and COAP_OPT_BLOCK_SZX on an option
      value; the number is a 32-bit integer. */
  function Decode(v: seq<byte>): (b: Block)
    ensures b.Valid()
  {
    if v == [] then Block(0, false, 0)
    else
      var last := v[|v| - 1];
      Block((VarInt.Value(v[..|v| - 1]) * 16 + last / 16) % TWO32, last / 8 % 2 == 1, last % 8)
  }

  /** coap_get_block refuses numbers of more than 20 bits. */
  function GetBlock(v: Option<seq<byte>>): Option<Block> {
    if v.None? || Decode(v.value).num > MAX_NUM then None else Some(Decode(v.value))
  }

  /** Writing a block option and reading it gives back the same block, for every
      number the encoder's 32-bit arithmetic can hold. */
  lemma DecodeOfCode(b: Block)
    requires b.szx < 8 && b.num < TWO32 / 16
    ensures Decode(VarInt.VarBytes(b.Code())) == b
  {
    var c := b.Code();
    var v := VarInt.VarBytes(c);
    if c > 0 {
      assert v == VarInt.VarBytes(c / 0x100) + [c % 0x100];
      assert v[..|v| - 1] == VarInt.VarBytes(c / 0x100);
      VarInt.ValueOfVarBytes(c / 0x100);
      CodeDigits(b);
    }
  }

  lemma CodeDigits(b: Block)
    requires b.szx < 8
    ensures var last := b.Code() % 0x100;
            && b.Code() / 0x100 * 16 + last / 16 == b.num
            && (last / 8 % 2 == 1 <==> b.m) && last % 8 == b.szx
  {
    var low := (if b.m then 8 else 0) + b.szx;
    assert b.Code() == b.num * 16 + low && low < 16;
    hide Block.Code;
    Digits(b.Code(), b.num, low);
    assert low / 8 % 2 == (if b.m then 1 else 0) && low % 8 == b.szx;
  }

  lemma Digits(c: nat, num: nat, low: nat)
    requires c == num * 16 + low && low < 16
    ensures (var last := c % 0x100;
             c / 0x100 * 16 + last / 16 == num && last / 8 % 2 == low / 8 % 2 && last % 8 == low % 8)
  {
    var high, mid := num / 16, num % 16;
    assert c / 0x100 == high && c % 0x100 == mid * 16 + low;
  }

  // ----- coap_write_block_opt

  datatype Written = BadBlock | NoRoom | Written(block: Block, pdu: PduState)

  /** Space left for a block, with 4 bytes set aside; an unsigned 64-bit difference. */
  function Avail(p: PduState): nat
    requires p.Valid()
  {
    if p.max - |p.bytes| >= 4 then p.max - |p.bytes| - 4
    else 0x1_0000_0000_0000_0000 + p.max - |p.bytes| - 4
  }

  /** The block that is announced instead of `b`. */
  function Adjust(b: Block, avail: nat, left: nat): Option<Block> {
    if b.Size() <= avail then Some(b.(m := b.Size() < left))
    else if left <= avail then Some(b.(m := false))
    else if avail < 16 then None
    else
      ShrunkSize(avail, b.szx);
      var szx := VarInt.Fls(avail) - 5;
      Some(Block(b.num * Pow2(b.szx - szx) % TWO32, true, szx))
  }

  function WriteBlockOpt(b: Block, number: uint16, p: PduState, dataLength: nat): (r: Written)
    requires p.Valid() && b.Valid()
    ensures r.Written? ==> r.pdu.Valid()
  {
    var start := b.num * b.Size() % TWO32;
    if dataLength <= start then BadBlock
    else
      var a := Adjust(b, Avail(p), dataLength - start);
      if a.None? then NoRoom
      else Written(a.value, WithOption(p, number, Value(a.value)))
  }

  /** coap_add_block; when nothing of the body lies in the block, or the PDU has
      no room for it, nothing is added. */
  function AddBlock(p: PduState, data: seq<byte>, num: nat, szx: nat): (r: PduState)
    requires p.Valid()
    ensures r.Valid()
  {
    WithData(p, Chunk(data, num * Pow2(szx + 4) % TWO32, szx))
  }

  /** The part of the body in the block of size 2^(szx+4) at `start`. */
  function Chunk(data: seq<byte>, start: nat, szx: nat): seq<byte> {
    if |data| <= start then [] else data[start..start + Min(|data| - start, Pow2(szx + 4))]
  }

  lemma NoWrap(x: nat)
    requires x < TWO32
    ensures x % TWO32 == x
  {
  }

  // ----- what adjustment keeps

  lemma SizeBounds(szx: nat)
    requires szx < 8
    ensures 16 <= Pow2(szx + 4) <= 2048
  {
    Pow2Monotone(4, szx + 4);
    Pow2Monotone(szx + 4, 11);
    Pow2Constants();
  }

  lemma ChunkOf(data: seq<byte>, c: Block)
    requires c.szx < 8 && c.Start() < |data|
    ensures |Chunk(data, c.Start(), c.szx)| == Min(|data| - c.Start(), c.Size()) > 0
    ensures c.Size() >= 16
  {
    SizeBounds(c.szx);
    hide Pow2;
  }

  /** The shrunk size is the largest that is available. */
  lemma ShrunkSize(avail: nat, szx: nat)
    requires 16 <= avail < Pow2(szx + 4)
    ensures var s := VarInt.Fls(avail) - 5;
            0 <= s < szx && Pow2(s + 4) <= avail < Pow2(s + 5)
  {
    VarInt.FlsBounds(avail);
    assert Pow2(4) == 16;
    VarInt.FlsAtLeast(avail, 4);
    if VarInt.Fls(avail) - 1 >= szx + 4 { Pow2Monotone(szx + 4, VarInt.Fls(avail) - 1); }
  }

  lemma ShrinkKeeps(b: Block, s: nat)
    requires s <= b.szx < 8 && b.num <= MAX_NUM
    ensures var c := Block(b.num * Pow2(b.szx - s) % TWO32, true, s);
            c.Start() == b.Start() && c.num < TWO32 / 16
  {
    hide Pow2;
    assert (b.szx - s) + (s + 4) == b.szx + 4;
    ShiftTwice(b.num, b.szx - s, s + 4);
    ShrunkNumber(b.num, b.szx - s);
  }

  lemma ShrunkNumber(num: nat, k: nat)
    requires num <= MAX_NUM && k < 8
    ensures num * Pow2(k) % TWO32 == num * Pow2(k) < TWO32 / 16
  {
    hide Pow2;
    Pow2Monotone(k, 7);
    Pow2Constants();
    ProductBound(num, Pow2(k), MAX_NUM, 128);
  }

  /** Adjusting keeps the offset, never raises the size, announces more exactly
      when the body goes on past this block, and leaves a chunk that fits in the
      space set aside, of the largest size that does. It fails only below 16 bytes
      of space. */
  lemma AdjustKeeps(b: Block, avail: nat, dataLength: nat)
    requires b.szx < 8 && b.num <= MAX_NUM && b.Start() < dataLength
    ensures var a := Adjust(b, avail, dataLength - b.Start());
            && (a.None? <==> avail < b.Size() && avail < dataLength - b.Start() && avail < 16)
            && (a.Some? ==>
                  var c := a.value;
                  && c.Start() == b.Start() && c.szx <= b.szx && c.num < TWO32 / 16
                  && (c.m <==> c.Start() + c.Size() < dataLength)
                  && Min(dataLength - c.Start(), c.Size()) <= avail
                  && (c.szx < b.szx ==> avail < 2 * c.Size()))
  {
    hide Pow2, VarInt.Fls, Block.Start;
    SizeBounds(b.szx);
    if avail < b.Size() && avail < dataLength - b.Start() && avail >= 16 {
      ShrunkSize(avail, b.szx);
      Doubled(VarInt.Fls(avail) - 1);
      ShrinkKeeps(b, VarInt.Fls(avail) - 5);
    } else {
      SameStart(b, b.Size() < dataLength - b.Start());
    }
  }

  lemma Doubled(n: nat)
    ensures Pow2(n + 1) == 2 * Pow2(n)
  {
  }

  lemma SameStart(b: Block, m: bool)
    requires b.num <= MAX_NUM
    ensures b.(m := m).Start() == b.Start() && b.num < TWO32 / 16
  {
  }

  lemma ProductBound(a: nat, b: nat, am: nat, bm: nat)
    requires a <= am && b <= bm
    ensures a * b <= am * bm
  {
  }

  lemma StartBound(b: Block)
    requires b.szx < 8 && b.num <= MAX_NUM
    ensures b.Start() < TWO32
  {
    SizeBounds(b.szx);
    ProductBound(b.num, b.Size(), MAX_NUM, 2048);
  }

  /** Length of the option value: at most two bytes below block 4096, three below 2^20. */
  lemma CodeLength(b: Block)
    requires b.szx < 8
    ensures |VarInt.VarBytes(b.Code())| <= 2 <==> b.num < 4096
    ensures |VarInt.VarBytes(b.Code())| <= 3 <==> b.num <= MAX_NUM
  {
    VarInt.VarBytesLength(b.Code(), 2);
    VarInt.VarBytesLength(b.Code(), 3);
    Pow2Constants();
    hide Pow2;
  }

  /** The 4 bytes set aside hold the option and the payload marker except for one
      case: a block number from 4096 on with a chunk that takes all the space. */
  lemma ChunkFits(p: PduState, number: uint16, b: Block, chunk: seq<byte>)
    requires p.Valid() && p.max - |p.bytes| >= 20
    requires p.maxDelta <= number < p.maxDelta + 13
    requires b.szx < 8 && b.num <= MAX_NUM && 0 < |chunk| <= Avail(p)
    ensures var v := VarInt.VarBytes(b.Code());
            && OptionFits(p, number, v)
            && (DataFits(WithOption(p, number, v), chunk) <==> b.num < 4096 || |chunk| < Avail(p))
  {
    var v := VarInt.VarBytes(b.Code());
    CodeLength(b);
    assert |Encode(number - p.maxDelta, v)| == 1 + |v|;
    hide Encode;
    if b.num >= 4096 { assert |v| == 3; }
  }

  // ----- in memory

  /** coap_block_t */
  class BlockBox {
    var num: nat
    var m: bool
    var szx: nat

    ghost function View(): Block
      reads this
    {
      Block(num, m, szx)
    }

    constructor (num: nat, m: bool, szx: nat)
      ensures View() == Block(num, m, szx)
    {
      this.num, this.m, this.szx := num, m, szx;
    }
  }

  method WriteBlock(block: BlockBox, number: uint16, pdu: Pdu, dataLength: nat) returns (result: int)
    requires pdu.Valid() && block.View().Valid() && block.num <= MAX_NUM
    modifies block, pdu, pdu.buf
    ensures pdu.Valid()
    ensures match WriteBlockOpt(old(block.View()), number, old(pdu.View()), dataLength)
            case BadBlock => result == -2 && block.View() == old(block.View()) && pdu.View() == old(pdu.View())
            case NoRoom => result == -3 && block.View() == old(block.View()) && pdu.View() == old(pdu.View())
            case Written(b, p) => result == 1 && block.View() == b && pdu.View() == p
  {
    hide WithOption, OptionFits, Encode, Pow2, VarInt.Fls, Adjust;
    var start := block.num * Pow2(block.szx + 4) % TWO32;
    if dataLength <= start { return -2; }
    var free := pdu.buf.Length - pdu.length - 4;
    var avail := if free >= 0 then free else 0x1_0000_0000_0000_0000 + free;
    var fits := FitBlock(block, avail, dataLength - start);
    if !fits { return -3; }
    AddBlockOption(pdu, number, block);
    result := 1;
  }

  /** The part of coap_write_block_opt that settles flag, size and number. */
  method FitBlock(block: BlockBox, avail: nat, left: nat) returns (fits: bool)
    requires block.View().Valid()
    modifies block
    ensures (match Adjust(old(block.View()), avail, left)
             case None => !fits && block.View() == old(block.View())
             case Some(b) => fits && block.View() == b)
  {
    hide Pow2, VarInt.Fls;
    var want := Pow2(block.szx + 4);
    SizeBounds(block.szx);
    if want <= avail {
      block.m := want < left;
    } else if left <= avail {
      block.m := false;
    } else {
      if avail < 16 { return false; }
      ShrunkSize(avail, block.szx);
      var fls := VarInt.FindLastSet(avail);
      var szx := block.szx;
      block.szx := fls - 5;
      block.m := true;
      block.num := block.num * Pow2(szx - block.szx) % TWO32;
    }
    fits := true;
  }

  /** The block as an option of the PDU. */
  method AddBlockOption(pdu: Pdu, number: uint16, block: BlockBox)
    requires pdu.Valid()
    modifies pdu, pdu.buf
    ensures pdu.Valid()
    ensures pdu.View() == WithOption(old(pdu.View()), number, Value(block.View()))
  {
    hide WithOption, OptionFits, Encode, VarInt.VarBytes;
    var buf := new byte[4];
    var code := (block.num * 16 + (if block.m then 8 else 0) + block.szx) % TWO32;
    VarInt.AtMostFour(code);
    var n := VarInt.EncodeVarBytes(buf, code);
    var _ := pdu.AddOption(number, buf[..n]);
  }

  method AddBlockData(pdu: Pdu, data: seq<byte>, num: nat, szx: nat) returns (ok: bool)
    requires pdu.Valid()
    modifies pdu, pdu.buf
    ensures pdu.Valid()
    ensures pdu.View() == AddBlock(old(pdu.View()), data, num, szx)
    ensures var chunk := Chunk(data, num * Pow2(szx + 4) % TWO32, szx);
            ok == (chunk != [] && DataFits(old(pdu.View()), chunk))
  {
    var start := num * Pow2(szx + 4) % TWO32;
    if |data| <= start { return false; }
    ok := pdu.AddData(data[start..start + Min(|data| - start, Pow2(szx + 4))]);
  }
}
