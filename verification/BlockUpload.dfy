/** Block1 uploads: the client's message handler against any server that may ask
    for another block size in each response (client.c; sections 2.3 and 2.5 of
    RFC 7959). */
module BlockUpload {
  import opened Bytes
  import opened OptionCodec
  import opened Messages
  import opened OptionIterator
  import opened Pdus
  import opened Blocks
  import VarInt

  const BLOCK1: uint16 := 27

  /** The client's block state and whether the upload is through. */
  datatype Upload = Upload(block: Block, ready: bool)

  /** The end of the current block in the body, in 32-bit arithmetic. */
  function BytesSent(b: Block): nat {
    (b.num + 1) * Pow2(b.szx + 4) % TWO32
  }

  /** The client takes the size the server asks for, unless what it has sent so
      far is not a whole number of such blocks. */
  function Renegotiate(b: Block, szx: nat): (r: Block)
    requires b.Valid() && szx < 8
    ensures r.Valid()
  {
    if szx != b.szx && BytesSent(b) % Pow2(szx + 4) == 0
    then Block((BytesSent(b) / Pow2(szx + 4) - 1) % TWO32, b.m, szx)
    else b
  }

  /** The block after this one, of a body of this length. */
  function Following(b: Block, length: nat): Block {
    var next := Block((b.num + 1) % TWO32, b.m, b.szx);
    next.(m := BytesSent(next) < length)
  }

  /** The Block1 part of message_handler, up to the next request. */
  function Receive(u: Upload, szx: nat, length: nat): Upload
    requires u.block.Valid() && szx < 8
  {
    var b := Renegotiate(u.block, szx);
    if length <= BytesSent(b) then Upload(b, true) else Upload(Following(b, length), u.ready)
  }

  /** The request PDU `p` with the Block1 option and the chunk of the current block. */
  function Request(b: Block, payload: seq<byte>, p: PduState): (r: PduState)
    requires p.Valid()
    ensures r.Valid()
  {
    AddBlock(WithOption(p, BLOCK1, Value(b)), payload, b.num, b.szx)
  }

  // ----- the client in memory

  class UploadClient {
    const payload: seq<byte>
    const block: BlockBox
    var ready: bool

    ghost predicate Valid()
      reads this, block
    {
      block.View().Valid()
    }

    ghost function View(): Upload
      reads this, block
    {
      Upload(block.View(), ready)
    }

    /** set_blocksize for a method with a body */
    constructor (payload: seq<byte>, szx: nat)
      requires szx < 8
      ensures Valid() && fresh(block) && this.payload == payload
      ensures View() == Upload(Block(0, Pow2(szx + 4) < |payload|, szx), false)
    {
      this.payload := payload;
      block := new BlockBox(0, Pow2(szx + 4) < |payload|, szx);
      ready := false;
    }

    /** The Block1 part of message_handler; `pdu` is the next request so far. */
    method Handle(szx: nat, pdu: Pdu)
      requires Valid() && pdu.Valid() && szx < 8
      modifies this, block, pdu, pdu.buf
      ensures Valid() && pdu.Valid()
      ensures View() == Receive(old(View()), szx, |payload|)
      ensures pdu.View() == if |payload| <= BytesSent(Renegotiate(old(block.View()), szx)) then old(pdu.View())
                            else Request(block.View(), payload, old(pdu.View()))
    {
      hide WithOption, AddBlock, Pow2, VarInt.VarBytes, Renegotiate, Following, BytesSent;
      Resize(szx);
      var done := Advance();
      if done {
        ready := true;
      } else {
        AddBlockOption(pdu, BLOCK1, block);
        var _ := AddBlockData(pdu, payload, block.num, block.szx);
      }
    }

    /** Takes the size the server asks for, where it can. */
    method Resize(szx: nat)
      requires Valid() && szx < 8
      modifies block
      ensures Valid() && block.View() == Renegotiate(old(block.View()), szx)
    {
      hide Pow2;
      if szx != block.szx {
        var bytesSent := (block.num + 1) * Pow2(block.szx + 4) % TWO32;
        if bytesSent % Pow2(szx + 4) == 0 {
          block.num := (bytesSent / Pow2(szx + 4) - 1) % TWO32;
          block.szx := szx;
        }
      }
    }

    /** Goes on to the next block, unless all has been sent. */
    method Advance() returns (done: bool)
      requires Valid()
      modifies block
      ensures Valid() && done == (|payload| <= BytesSent(old(block.View())))
      ensures block.View() == if done then old(block.View()) else Following(old(block.View()), |payload|)
    {
      hide Pow2;
      done := |payload| <= (block.num + 1) * Pow2(block.szx + 4) % TWO32;
      if !done {
        block.num := (block.num + 1) % TWO32;
        block.m := (block.num + 1) * Pow2(block.szx + 4) % TWO32 < |payload|;
      }
    }
  }

  // ----- renegotiation

  /** The end of the block without wrapping. */
  function End(b: Block): nat {
    (b.num + 1) * b.Size()
  }

  predicate InRange(b: Block) {
    b.szx < 8 && b.num < TWO32 && End(b) < TWO32
  }

  /** A change of size keeps the end of what was sent; it is refused exactly when
      that end is not on a boundary of the new size, which needs a larger size. */
  lemma RenegotiateKeeps(b: Block, szx: nat)
    requires InRange(b) && szx < 8
    ensures var r := Renegotiate(b, szx);
            && InRange(r) && End(r) == End(b) && r.m == b.m
            && (r.szx == szx <==> szx == b.szx || End(b) % Pow2(szx + 4) == 0)
            && (r.szx != szx ==> r == b && szx > b.szx)
  {
    hide Renegotiate, InRange, End, Pow2;
    if szx == b.szx {
      SizeStays(b, szx);
    } else if End(b) % Pow2(szx + 4) == 0 {
      SizeTaken(b, szx);
    } else {
      SizeStays(b, szx);
      if szx < b.szx {
        SmallerDivides(b, szx);
      }
    }
  }

  lemma SizeStays(b: Block, szx: nat)
    requires InRange(b) && szx < 8 && (szx == b.szx || End(b) % Pow2(szx + 4) != 0)
    ensures Renegotiate(b, szx) == b
  {
    hide BytesSent, End, Pow2;
    SentIsEnd(b);
  }

  lemma SizeTaken(b: Block, szx: nat)
    requires InRange(b) && szx < 8 && szx != b.szx && End(b) % Pow2(szx + 4) == 0
    ensures (var r := Renegotiate(b, szx);
             InRange(r) && End(r) == End(b) && r.m == b.m && r.szx == szx)
  {
    hide BytesSent, Pow2;
    SentIsEnd(b);
    NewNumber(b, szx);
    NoWrap(End(b) / Pow2(szx + 4) - 1);
  }

  /** The size divides the end, so there is a block of that size that ends there. */
  lemma NewNumber(b: Block, szx: nat)
    requires InRange(b) && szx < 8 && End(b) % Pow2(szx + 4) == 0
    ensures (var n := End(b) / Pow2(szx + 4) - 1;
             0 <= n < TWO32 && (n + 1) * Pow2(szx + 4) == End(b))
  {
    EndPositive(b);
    hide End, Pow2, Block.Size;
    Quotient(End(b), Pow2(szx + 4));
  }

  lemma EndPositive(b: Block)
    requires b.szx < 8
    ensures End(b) >= 16
  {
    hide Pow2;
    SizeBounds(b.szx);
    MulMonotone(b.Size(), 1, b.num + 1);
  }

  lemma Quotient(e: nat, s: nat)
    requires s > 0 && e > 0 && e % s == 0
    ensures e / s * s == e && 1 <= e / s <= e
  {
    var q := e / s;
    assert e == s * q + e % s;
    MulMonotone(q, 1, s);
  }

  lemma SmallerDivides(b: Block, szx: nat)
    requires szx < b.szx
    ensures End(b) % Pow2(szx + 4) == 0
  {
    assert (b.szx - szx) + (szx + 4) == b.szx + 4;
    ShiftTwice(b.num + 1, b.szx - szx, szx + 4);
    var k, d := (b.num + 1) * Pow2(b.szx - szx), Pow2(szx + 4);
    assert End(b) == k * d;
    hide Pow2, End;
    assert k * d == d * k + 0;
    DivisionUnique(k * d, d, k, 0);
  }

  // ----- whole runs

  /** A run so far: the client, what its requests have carried, and whether some
      option or chunk did not fit in its request. */
  datatype Progress = Progress(client: Upload, sent: seq<byte>, lost: bool)

  /** The first request carries block 0. */
  function Start(payload: seq<byte>, szx: nat, p: PduState): Progress
    requires p.Valid() && szx < 8
  {
    var b := Block(0, Pow2(szx + 4) < |payload|, szx);
    Progress(Upload(b, false), Carried(b, payload, p), Loses(b, payload, p))
  }

  /** The server asks for size exponent `szx`; the client answers into `p`. */
  function Step(s: Progress, payload: seq<byte>, szx: nat, p: PduState): Progress
    requires s.client.block.Valid() && p.Valid() && szx < 8
  {
    if s.client.ready then s
    else
      var u := Receive(s.client, szx, |payload|);
      if u.ready then s.(client := u)
      else Progress(u, s.sent + Carried(u.block, payload, p), s.lost || Loses(u.block, payload, p))
  }

  /** What a request brings to the server as a block: without its Block1 option it is
      none, whatever payload it has. */
  function Carried(b: Block, payload: seq<byte>, p: PduState): seq<byte>
    requires p.Valid()
  {
    if OptionFits(p, BLOCK1, Value(b)) then DataOf(Request(b, payload, p)) else []
  }

  /** The option does not fit in the request, or the chunk not behind it. */
  predicate Loses(b: Block, payload: seq<byte>, p: PduState)
    requires p.Valid()
  {
    || !OptionFits(p, BLOCK1, Value(b))
    || !DataFits(WithOption(p, BLOCK1, Value(b)), Chunk(payload, b.num * Pow2(b.szx + 4) % TWO32, b.szx))
  }

  const MAX_BODY := 0xFFFF_F000

  /** What holds after every message of every run: everything up to the end of
      the current block has been sent and nothing else, and the block announces
      more exactly while there is more. */
  predicate Invariant(s: Progress, payload: seq<byte>) {
    var b := s.client.block;
    && InRange(b) && End(b) < |payload| + 2049
    && (s.client.ready ==> End(b) >= |payload|)
    && (b.m <==> End(b) < |payload|)
    && (if s.lost then |s.sent| < Min(End(b), |payload|) else s.sent == payload[..Min(End(b), |payload|)])
  }

  /** One request appends the chunk that follows what was sent. */
  lemma Appended(s: Progress, u: Upload, payload: seq<byte>, p: PduState)
    requires p.Valid() && |payload| < MAX_BODY
    requires u.block.szx < 8 && u.block.Start() < |payload| && !u.ready
    requires u.block.m <==> End(u.block) < |payload|
    requires if s.lost then |s.sent| < u.block.Start() else s.sent == payload[..u.block.Start()]
    ensures Invariant(Progress(u, s.sent + Carried(u.block, payload, p), s.lost || Loses(u.block, payload, p)), payload)
  {
    hide Carried, Loses, Pow2, Block.Start, End, Block.Size, Chunk;
    var b := u.block;
    RequestData(b, payload, p);
    ChunkIs(payload, b);
    EndOf(b);
    NumFits(b);
    TakeMore(payload, b.Start(), Chunk(payload, b.Start(), b.szx));
  }

  lemma ChunkIs(payload: seq<byte>, b: Block)
    requires b.szx < 8 && b.Start() < |payload|
    ensures (var chunk := Chunk(payload, b.Start(), b.szx);
             && |chunk| == Min(|payload| - b.Start(), b.Size()) > 0
             && chunk == payload[b.Start()..b.Start() + |chunk|])
  {
    hide Pow2;
    ChunkOf(payload, b);
  }

  lemma EndOf(b: Block)
    ensures End(b) == b.Start() + b.Size()
    ensures b.szx < 8 ==> 16 <= b.Size() <= 2048
  {
    if b.szx < 8 { SizeBounds(b.szx); }
    hide Pow2;
  }

  lemma NumFits(b: Block)
    requires b.szx < 8 && b.Start() < TWO32
    ensures b.num < TWO32
  {
  }

  /** What a request carries is its chunk, unless option or chunk does not fit. */
  lemma RequestData(b: Block, payload: seq<byte>, p: PduState)
    requires p.Valid() && b.szx < 8 && b.Start() < |payload| < TWO32
    ensures Carried(b, payload, p)
         == if Loses(b, payload, p) then [] else Chunk(payload, b.Start(), b.szx)
  {
    hide Pow2, Chunk, Value, WithOption, OptionFits, DataOf, WithData, DataFits, Block.Start;
    StartUnwrapped(b);
    ChunkOf(payload, b);
    NoDataBehind(p, BLOCK1, Value(b));
    DataOfAdded(WithOption(p, BLOCK1, Value(b)), Chunk(payload, b.Start(), b.szx));
  }

  lemma StartUnwrapped(b: Block)
    requires b.Start() < TWO32
    ensures b.num * Pow2(b.szx + 4) % TWO32 == b.Start()
  {
    hide Pow2;
    NoWrap(b.Start());
  }

  lemma NoDataBehind(p: PduState, number: uint16, value: seq<byte>)
    requires p.Valid()
    ensures WithOption(p, number, value).data == None
  {
    hide Encode;
  }

  lemma StartKeeps(payload: seq<byte>, szx: nat, p: PduState)
    requires p.Valid() && szx < 8 && 0 < |payload| < MAX_BODY
    ensures Invariant(Start(payload, szx, p), payload)
  {
    var b := Block(0, Pow2(szx + 4) < |payload|, szx);
    assert b.Start() == 0 && End(b) == Pow2(szx + 4);
    hide Pow2, Request, Loses, Invariant, Block.Start, End;
    var s := Progress(Upload(b, false), [], false);
    Appended(s, s.client, payload, p);
    assert s.sent + Carried(b, payload, p) == Carried(b, payload, p);
  }

  /** Every answer either ends the upload or is followed by the next 16 bytes at least. */
  lemma StepKeeps(s: Progress, payload: seq<byte>, szx: nat, p: PduState)
    requires p.Valid() && szx < 8 && 0 < |payload| < MAX_BODY && Invariant(s, payload)
    ensures s.client.block.Valid()
    ensures var t := Step(s, payload, szx, p);
            && Invariant(t, payload)
            && (t.client.ready || End(t.client.block) >= End(s.client.block) + 16)
            && (s.client.ready ==> t == s)
  {
    hide Renegotiate, BytesSent, End, Block.Start, Block.Size, Request, Loses, Pow2;
    var b := s.client.block;
    if !s.client.ready {
      RenegotiateKeeps(b, szx);
      var r := Renegotiate(b, szx);
      SentIsEnd(r);
      if |payload| > End(r) {
        NextBlock(s, r, payload, p);
      }
    }
  }

  lemma SentIsEnd(r: Block)
    requires InRange(r)
    ensures BytesSent(r) == End(r)
  {
    hide Pow2;
    NoWrap(End(r));
  }

  lemma NextBlock(s: Progress, r: Block, payload: seq<byte>, p: PduState)
    requires p.Valid() && |payload| < MAX_BODY && InRange(r) && End(r) < |payload|
    requires if s.lost then |s.sent| < End(r) else s.sent == payload[..End(r)]
    ensures var next := Block((r.num + 1) % TWO32, r.m, r.szx);
            var b := next.(m := BytesSent(next) < |payload|);
            && End(b) >= End(r) + 16
            && Invariant(Progress(Upload(b, false), s.sent + Carried(b, payload, p),
                                  s.lost || Loses(b, payload, p)), payload)
  {
    var next := Block(r.num + 1, r.m, r.szx);
    assert next.Start() == End(r);
    EndOf(next);
    NumFits(next);
    NoWrap(next.num);
    NoWrap(End(next));
    assert BytesSent(next) == End(next);
    hide Pow2, Request, Loses, BytesSent, Block.Size;
    var b := next.(m := End(next) < |payload|);
    SameEnd(next, b);
    hide End, Block.Start;
    Appended(s, Upload(b, false), payload, p);
  }

  lemma SameEnd(b: Block, c: Block)
    requires b.num == c.num && b.szx == c.szx
    ensures End(b) == End(c) && b.Start() == c.Start()
  {
  }

  /** The server's size requests and the requests they are answered in. */
  type Script = seq<(nat, PduState)>

  predicate Playable(script: Script) {
    script == [] || (script[0].0 < 8 && script[0].1.Valid() && Playable(script[1..]))
  }

  function Run(s: Progress, payload: seq<byte>, script: Script): Progress
    requires Playable(script) && Invariant(s, payload)
    requires 0 < |payload| < MAX_BODY
    decreases |script|
  {
    if script == [] then s
    else
      StepKeeps(s, payload, script[0].0, script[0].1);
      Run(Step(s, payload, script[0].0, script[0].1), payload, script[1..])
  }

  lemma {:induction false} RunEnds(s: Progress, payload: seq<byte>, script: Script)
    requires Playable(script) && Invariant(s, payload) && 0 < |payload| < MAX_BODY
    requires s.client.ready || (script != [] && End(s.client.block) + 16 * (|script| - 1) >= |payload|)
    ensures Invariant(Run(s, payload, script), payload) && Run(s, payload, script).client.ready
    decreases |script|
  {
    hide Invariant, End;
    if script != [] {
      StepKeeps(s, payload, script[0].0, script[0].1);
      if !s.client.ready && |script| == 1 { ReadyAtEnd(s, payload, script[0].0, script[0].1); }
      hide Step;
      RunEnds(Step(s, payload, script[0].0, script[0].1), payload, script[1..]);
    }
  }

  /** A client that has sent everything is through after the next response. */
  lemma ReadyAtEnd(s: Progress, payload: seq<byte>, szx: nat, p: PduState)
    requires p.Valid() && szx < 8 && 0 < |payload| < MAX_BODY && Invariant(s, payload)
    requires s.client.block.Valid() && End(s.client.block) >= |payload|
    ensures Step(s, payload, szx, p).client.ready
  {
    if !s.client.ready {
      var b := s.client.block;
      RenegotiateKeeps(b, szx);
      var r := Renegotiate(b, szx);
      hide Renegotiate;
      NoWrap(End(r));
      assert BytesSent(r) == End(r);
    }
  }

  /** For any sizes the server asks for, the upload ends within one response per
      16 bytes, and its requests have carried the payload exactly when every option
      and every chunk fitted in its request. */
  lemma UploadCompletes(payload: seq<byte>, szx: nat, p: PduState, script: Script)
    requires p.Valid() && szx < 8 && Playable(script) && 0 < |payload| < MAX_BODY
    requires 16 * |script| >= |payload|
    ensures Invariant(Start(payload, szx, p), payload)
    ensures var e := Run(Start(payload, szx, p), payload, script);
            e.client.ready && (e.sent == payload <==> !e.lost)
  {
    StartKeeps(payload, szx, p);
    EndOf(Start(payload, szx, p).client.block);
    assert End(Start(payload, szx, p).client.block) >= 16;
    RunEnds(Start(payload, szx, p), payload, script);
    hide Run, Start;
    assert payload[..|payload|] == payload;
  }

  /** Requests with room for a block of 1024 bytes lose nothing at these sizes. */
  predicate Spacious(p: PduState) {
    p.Valid() && p.maxDelta <= BLOCK1 && p.max - |p.bytes| >= 1024 + 7
  }

  lemma SpaciousFits(b: Block, payload: seq<byte>, p: PduState)
    requires Spacious(p) && b.szx <= 6
    ensures !Loses(b, payload, p)
  {
    var v := VarInt.VarBytes(b.Code() % TWO32);
    VarInt.AtMostFour(b.Code() % TWO32);
    assert |Encode(BLOCK1 - p.maxDelta, v)| <= 2 + |v|;
    Pow2Monotone(b.szx + 4, 10);
    assert Pow2(10) == 1024 by { Pow2Add(6, 4); assert Pow2(6) == 64; Pow2Constants(); }
    hide Pow2, Encode, VarInt.VarBytes;
  }

  predicate AllSpacious(script: Script) {
    script == [] || (script[0].0 <= 6 && Spacious(script[0].1) && AllSpacious(script[1..]))
  }

  lemma {:induction false} NothingLost(s: Progress, payload: seq<byte>, script: Script)
    requires AllSpacious(script) && Playable(script) && Invariant(s, payload) && 0 < |payload| < MAX_BODY
    requires s.client.block.szx <= 6 && !s.lost
    ensures !Run(s, payload, script).lost
    decreases |script|
  {
    if script != [] {
      StepKeeps(s, payload, script[0].0, script[0].1);
      var t := Step(s, payload, script[0].0, script[0].1);
      SpaciousFits(t.client.block, payload, script[0].1);
      assert t.client.block.szx <= 6 && !t.lost;
      hide Invariant, Step, Spacious;
      NothingLost(t, payload, script[1..]);
    }
  }

  /** With sizes of up to 1024 bytes and room for them, every upload delivers its payload. */
  lemma SpaciousUpload(payload: seq<byte>, szx: nat, p: PduState, script: Script)
    requires Spacious(p) && szx <= 6 && Playable(script) && AllSpacious(script)
    requires 0 < |payload| < MAX_BODY && 16 * |script| >= |payload|
    ensures Invariant(Start(payload, szx, p), payload)
    ensures var e := Run(Start(payload, szx, p), payload, script);
            e.client.ready && e.sent == payload
  {
    UploadCompletes(payload, szx, p, script);
    SpaciousFits(Block(0, Pow2(szx + 4) < |payload|, szx), payload, p);
    NothingLost(Start(payload, szx, p), payload, script);
  }

  /** The reserved size exponent 7 loses every full block in a PDU of the usual size. */
  lemma ReservedSizeLoses(b: Block, payload: seq<byte>, p: PduState)
    requires p.Valid() && b.szx == 7 && b.Start() < TWO32 && b.Start() + 2048 <= |payload|
    ensures Loses(b, payload, p)
  {
    Pow2Constants();
    NoWrap(b.Start());
    ChunkOf(payload, b);
    hide Encode, Pow2, VarInt.VarBytes;
  }

  // ----- on the wire

  /** What a server reads off the bytes of a request: the block and its chunk, if there
      is a Block1 option. */
  function BlockRead(bs: seq<byte>): Option<(Block, seq<byte>)> {
    var m := ParseMessage(bs);
    if m.None? then None else
      var o := FirstOf(m.value.opts, BLOCK1);
      if o.None? then None else Some((Decode(o.value.value), m.value.payload))
  }

  /** A request message so far, its options off the boundary and none of them Block1. */
  ghost predicate Sendable(p: PduState, m: Message) {
    && Built(p, m) && m.payload == [] && m.code != 0
    && OffBoundary(m.opts, 0) && FirstOf(m.opts, BLOCK1).None?
  }

  /** The server reads exactly the block the client has in mind and the chunk that was
      carried, or, when the option did not fit, no block at all. */
  lemma RequestOnWire(b: Block, payload: seq<byte>, p: PduState, m: Message)
    requires Sendable(p, m) && b.szx < 8 && b.num < TWO32 / 16
    ensures BlockRead(Request(b, payload, p).bytes)
         == if OptionFits(p, BLOCK1, Value(b)) then Some((b, Carried(b, payload, p))) else None
  {
    hide ParseMessage, Serialize, Last, Decode, Chunk, Encode, OffBoundary, DataOf, WithData, DataFits, Pow2, VarInt.VarBytes, WithOption, OptionFits, Sorted;
    var q := WithOption(p, BLOCK1, Value(b));
    var m' := if OptionFits(p, BLOCK1, Value(b)) then m.(opts := m.opts + [Opt(BLOCK1, Value(b))]) else m;
    OptionGoesIn(b, p, m);
    BuiltTry(q, m', Chunk(payload, b.num * Pow2(b.szx + 4) % TWO32, b.szx));
    var r := Request(b, payload, p);
    BuiltReads(r, m'.(payload := DataOf(r)));
  }

  lemma OptionGoesIn(b: Block, p: PduState, m: Message)
    requires Sendable(p, m) && b.szx < 8 && b.num < TWO32 / 16
    ensures (var q := WithOption(p, BLOCK1, Value(b));
             if OptionFits(p, BLOCK1, Value(b)) then
               var m' := m.(opts := m.opts + [Opt(BLOCK1, Value(b))]);
               && Built(q, m') && OffBoundary(m'.opts, 0)
               && FirstOf(m'.opts, BLOCK1) == Some(Opt(BLOCK1, Value(b))) && Decode(Value(b)) == b
             else Built(q, m))
  {
    hide Decode, Encode, OffBoundary, VarInt.VarBytes, Serialize, Pow2, FirstOf;
    CodeFits(b);
    DecodeOfCode(b);
    VarInt.AtMostFour(b.Code());
    if OptionFits(p, BLOCK1, Value(b)) {
      BuiltOption(p, m, BLOCK1, Value(b));
      OffBoundaryAppend(m.opts, 0, Opt(BLOCK1, Value(b)));
      FirstOfAppended(m.opts, Opt(BLOCK1, Value(b)));
    }
  }

  lemma CodeFits(b: Block)
    requires b.szx < 8 && b.num < TWO32 / 16
    ensures b.Code() < TWO32 && Value(b) == VarInt.VarBytes(b.Code())
  {
    NoWrap(b.Code());
  }

  function Heard(bs: seq<byte>): seq<byte> {
    if BlockRead(bs).None? then [] else BlockRead(bs).value.1
  }

  /** The chunks a server reads off the requests of a run, after those it has `heard`. */
  function HeardRun(s: Progress, heard: seq<byte>, payload: seq<byte>, script: Script): seq<byte>
    requires Playable(script) && Invariant(s, payload) && 0 < |payload| < MAX_BODY
    decreases |script|
  {
    if script == [] then heard
    else
      StepKeeps(s, payload, script[0].0, script[0].1);
      var t := Step(s, payload, script[0].0, script[0].1);
      var more := if t.client.ready then [] else Heard(Request(t.client.block, payload, script[0].1).bytes);
      HeardRun(t, heard + more, payload, script[1..])
  }

  ghost predicate AllSendable(script: Script, ms: seq<Message>) {
    |ms| == |script| && forall i :: 0 <= i < |ms| ==> Sendable(script[i].1, ms[i])
  }

  /** What a server puts together from the bytes of the requests is what the run has
      sent. */
  lemma {:induction false} SentIsHeard(s: Progress, payload: seq<byte>, script: Script, ms: seq<Message>)
    requires Playable(script) && AllSendable(script, ms) && Invariant(s, payload) && 0 < |payload| < MAX_BODY
    ensures HeardRun(s, s.sent, payload, script) == Run(s, payload, script).sent
    decreases |script|
  {
    hide Invariant, Sendable, Heard, Request, Step;
    if script != [] {
      StepKeeps(s, payload, script[0].0, script[0].1);
      StepHeard(s, payload, script[0].0, script[0].1, ms[0]);
      SentIsHeard(Step(s, payload, script[0].0, script[0].1), payload, script[1..], ms[1..]);
    }
  }

  lemma StepHeard(s: Progress, payload: seq<byte>, szx: nat, p: PduState, m: Message)
    requires p.Valid() && szx < 8 && 0 < |payload| < MAX_BODY && Invariant(s, payload) && Sendable(p, m)
    ensures (StepKeeps(s, payload, szx, p);
             var t := Step(s, payload, szx, p);
             t.sent == s.sent + if t.client.ready then [] else Heard(Request(t.client.block, payload, p).bytes))
  {
    StepKeeps(s, payload, szx, p);
    hide Renegotiate, BytesSent, End, Block.Start, Block.Size, Request, Loses, Pow2, Sendable, OptionFits, Carried, BlockRead;
    var t := Step(s, payload, szx, p);
    NumBelow(t.client.block);
    if !t.client.ready {
      RequestOnWire(t.client.block, payload, p, m);
      if !OptionFits(p, BLOCK1, Value(t.client.block)) {
        NothingCarried(t.client.block, payload, p);
      }
    }
  }

  lemma NumBelow(b: Block)
    requires InRange(b)
    ensures b.num < TWO32 / 16
  {
    hide Pow2;
    SizeBounds(b.szx);
    MulMonotone(b.num + 1, 16, b.Size());
  }

  lemma NothingCarried(b: Block, payload: seq<byte>, p: PduState)
    requires p.Valid() && !OptionFits(p, BLOCK1, Value(b))
    ensures Carried(b, payload, p) == []
  {
  }

  /** A server that goes by the block numbers: it takes a chunk that starts where what
      it has ends, and no other. */
  function Placed(store: seq<byte>, bs: seq<byte>): seq<byte> {
    var r := BlockRead(bs);
    if r.Some? && r.value.0.Start() == |store| then store + r.value.1 else store
  }

  function PlacedRun(s: Progress, store: seq<byte>, payload: seq<byte>, script: Script): seq<byte>
    requires Playable(script) && Invariant(s, payload) && 0 < |payload| < MAX_BODY
    decreases |script|
  {
    if script == [] then store
    else
      StepKeeps(s, payload, script[0].0, script[0].1);
      var t := Step(s, payload, script[0].0, script[0].1);
      var store' := if t.client.ready then store else Placed(store, Request(t.client.block, payload, script[0].1).bytes);
      PlacedRun(t, store', payload, script[1..])
  }

  /** The next block starts at the end of what was sent. */
  lemma StepStart(s: Progress, payload: seq<byte>, szx: nat, p: PduState)
    requires p.Valid() && szx < 8 && 0 < |payload| < MAX_BODY && Invariant(s, payload)
    ensures s.client.block.Valid()
    ensures (var t := Step(s, payload, szx, p);
             !t.client.ready && !s.lost ==> t.client.block.Start() == |s.sent|)
  {
    hide Renegotiate, BytesSent, End, Block.Start, Block.Size, Request, Loses, Pow2;
    var b := s.client.block;
    if !s.client.ready {
      RenegotiateKeeps(b, szx);
      var r := Renegotiate(b, szx);
      SentIsEnd(r);
      NumBelow(r);
      NoWrap(r.num + 1);
      FollowingStart(r, |payload|);
    }
  }

  lemma FollowingStart(r: Block, length: nat)
    requires r.num + 1 < TWO32
    ensures Following(r, length).Start() == End(r)
  {
    hide BytesSent;
    NoWrap(r.num + 1);
  }

  /** What that server has is what the run has sent, as long as nothing was lost, and
      too little from then on. */
  lemma StepPlaced(s: Progress, store: seq<byte>, payload: seq<byte>, szx: nat, p: PduState, m: Message)
    requires p.Valid() && szx < 8 && 0 < |payload| < MAX_BODY && Sendable(p, m)
    requires Invariant(s, payload) && Invariant(s.(sent := store), payload)
    ensures s.client.block.Valid()
    ensures (var t := Step(s, payload, szx, p);
             !t.client.ready ==>
               Invariant(t.(sent := Placed(store, Request(t.client.block, payload, p).bytes)), payload))
  {
    hide Renegotiate, BytesSent, End, Block.Start, Block.Size, Request, Loses, Pow2, Sendable, OptionFits, Carried, BlockRead;
    var s' := s.(sent := store);
    StepKeeps(s', payload, szx, p);
    StepStart(s', payload, szx, p);
    var t, t' := Step(s, payload, szx, p), Step(s', payload, szx, p);
    NumBelow(t.client.block);
    if !t.client.ready {
      RequestOnWire(t.client.block, payload, p, m);
      if !OptionFits(p, BLOCK1, Value(t.client.block)) {
        NothingCarried(t.client.block, payload, p);
      }
    }
  }

  lemma {:induction false} RunPlaced(s: Progress, store: seq<byte>, payload: seq<byte>, script: Script, ms: seq<Message>)
    requires Playable(script) && AllSendable(script, ms) && 0 < |payload| < MAX_BODY
    requires Invariant(s, payload) && Invariant(s.(sent := store), payload)
    ensures Invariant(Run(s, payload, script).(sent := PlacedRun(s, store, payload, script)), payload)
    decreases |script|
  {
    hide Invariant, Sendable, Placed, Request;
    if script != [] {
      var szx, p := script[0].0, script[0].1;
      StepKeeps(s, payload, szx, p);
      StepKeeps(s.(sent := store), payload, szx, p);
      StepPlaced(s, store, payload, szx, p, ms[0]);
      var t := Step(s, payload, szx, p);
      var store' := if t.client.ready then store else Placed(store, Request(t.client.block, payload, p).bytes);
      assert t.client.ready ==> t.(sent := store) == Step(s.(sent := store), payload, szx, p);
      hide Step;
      RunPlaced(t, store', payload, script[1..], ms[1..]);
    }
  }

  /** The server puts together exactly the payload if and only if nothing was lost,
      whether it takes the chunks as they come or places them by their numbers. */
  lemma {:induction false} UploadOnWire(payload: seq<byte>, szx: nat, p: PduState, m: Message,
                                        script: Script, ms: seq<Message>)
    requires szx < 8 && Playable(script) && 0 < |payload| < MAX_BODY && 16 * |script| >= |payload|
    requires Sendable(p, m) && AllSendable(script, ms)
    ensures Invariant(Start(payload, szx, p), payload)
    ensures (var s := Start(payload, szx, p);
             var first := Request(s.client.block, payload, p).bytes;
             && (HeardRun(s, Heard(first), payload, script) == payload <==> !Run(s, payload, script).lost)
             && (PlacedRun(s, Placed([], first), payload, script) == payload <==> !Run(s, payload, script).lost))
  {
    hide Run, HeardRun, PlacedRun, Invariant, Request, Carried, Loses, BlockRead, OptionFits, Pow2;
    var s := Start(payload, szx, p);
    UploadCompletes(payload, szx, p, script);
    RequestOnWire(s.client.block, payload, p, m);
    if !OptionFits(p, BLOCK1, Value(s.client.block)) {
      NothingCarried(s.client.block, payload, p);
    }
    SentIsHeard(s, payload, script, ms);
    var first := Request(s.client.block, payload, p).bytes;
    assert s.client.block.Start() == 0;
    assert Placed([], first) == s.sent;
    assert s.(sent := s.sent) == s;
    RunPlaced(s, s.sent, payload, script, ms);
    AtTheEnd(Run(s, payload, script), PlacedRun(s, s.sent, payload, script), payload);
  }

  lemma AtTheEnd(e: Progress, store: seq<byte>, payload: seq<byte>)
    requires Invariant(e.(sent := store), payload) && e.client.ready
    ensures store == payload <==> !e.lost
  {
    assert payload[..|payload|] == payload;
  }
}
