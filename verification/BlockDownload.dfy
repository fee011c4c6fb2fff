/** Block2 downloads: the server side of the topic listing (coap-broker.c,
    hnd_get_broker) against the client's message handler (client.c), run over
    any sequence of exchanges (sections 2.2 and 2.4 of RFC 7959). */
module BlockDownload {
  import opened Bytes
  import opened OptionCodec
  import opened Messages
  import opened OptionIterator
  import opened Pdus
  import opened Blocks
  import VarInt

  const BLOCK2: uint16 := 23

  // ----- the server

  datatype Response = Response(code: nat, block2: Option<seq<byte>>, pdu: PduState)

  /** The listing `data` answered into the response `p`; `ask` is the value of
      the request's Block2 option. */
  function Respond(ask: Option<seq<byte>>, data: seq<byte>, p: PduState): (r: Response)
    requires p.Valid()
    ensures r.pdu.Valid()
  {
    match GetBlock(ask)
    case Some(b) => (
      match WriteBlockOpt(b, BLOCK2, p, |data|)
      case BadBlock => Response(400, None, WithData(p, Ascii("Bad Request")))
      case NoRoom => Response(500, None, WithData(p, Ascii("Internal Server Error")))
      case Written(c, q) => Response(205, Some(Value(c)), AddBlock(q, data, c.num, c.szx)))
    case None =>
      if DataFits(p, data) then Response(205, None, WithData(p, data))
      else
        match WriteBlockOpt(Block(0, false, 6), BLOCK2, p, |data|)
        case Written(c, q) => Response(205, Some(Value(c)), AddBlock(q, data, c.num, c.szx))
        case _ => Response(205, None, AddBlock(p, data, 0, 6))
  }

  /** The block part of hnd_get_broker, on the response in memory. */
  method RespondInto(ask: Option<seq<byte>>, data: seq<byte>, pdu: Pdu) returns (code: nat)
    requires pdu.Valid()
    modifies pdu, pdu.buf
    ensures pdu.Valid()
    ensures var r := Respond(ask, data, old(pdu.View())); code == r.code && pdu.View() == r.pdu
  {
    hide WriteBlockOpt, WithData, DataFits, AddBlock;
    var got := GetBlock(ask);
    if got.Some? {
      var block := new BlockBox(got.value.num, got.value.m, got.value.szx);
      var res := WriteBlock(block, BLOCK2, pdu, |data|);
      if res == -2 {
        var _ := pdu.AddData(Ascii("Bad Request"));
        return 400;
      }
      if res == -3 {
        var _ := pdu.AddData(Ascii("Internal Server Error"));
        return 500;
      }
      var _ := AddBlockData(pdu, data, block.num, block.szx);
    } else {
      ghost var p := pdu.View();
      var ok := pdu.AddData(data);
      if !ok {
        AddDataFailed(p, data);
        var block := new BlockBox(0, false, 6);
        var _ := WriteBlock(block, BLOCK2, pdu, |data|);
        var _ := AddBlockData(pdu, data, block.num, block.szx);
      }
    }
    code := 205;
  }

  lemma AddDataFailed(p: PduState, data: seq<byte>)
    requires p.Valid() && !DataFits(p, data)
    ensures WithData(p, data) == p
  {
  }

  // ----- the client

  /** What the client has written out, the Block2 value of the request it sends
      next, and whether it is through. */
  datatype Download = Download(output: seq<byte>, ask: Option<seq<byte>>, done: bool)

  /** The Block2 part of message_handler. */
  function Receive(d: Download, code: nat, block2: Option<seq<byte>>, payload: seq<byte>): Download {
    if code / 100 != 2 then d.(done := true)
    else if block2.None? then Download(d.output + payload, d.ask, true)
    else
      var b := Decode(block2.value);
      if b.m then Download(d.output + payload, Some(VarInt.VarBytes(((b.num + 1) * 16 + b.szx) % TWO32)), false)
      else Download(d.output + payload, d.ask, true)
  }

  /** The client's global state, updated as responses arrive. */
  class DownloadClient {
    var output: seq<byte>
    var ask: Option<seq<byte>>
    var done: bool

    ghost function View(): Download
      reads this
    {
      Download(output, ask, done)
    }

    constructor (ask: Option<seq<byte>>)
      ensures View() == Download([], ask, false)
    {
      output, this.ask, done := [], ask, false;
    }

    method Handle(code: nat, block2: Option<seq<byte>>, payload: seq<byte>)
      modifies this
      ensures View() == Receive(old(View()), code, block2, payload)
    {
      if code / 100 == 2 {
        output := output + payload;
        if block2.Some? {
          var b := Decode(block2.value);
          if b.m {
            ask := Some(VarInt.VarBytes(((b.num + 1) * 16 + b.szx) % TWO32));
            done := false;
            return;
          }
        }
      }
      done := true;
    }
  }

  // ----- one exchange

  /** A response PDU before the block part: options up to Content-Format, no
      data yet, and room for the smallest block. */
  predicate Ready(p: PduState) {
    && p.Valid() && p.data.None?
    && p.maxDelta <= BLOCK2 < p.maxDelta + 13
    && p.max - |p.bytes| >= 20
  }

  function Exchange(d: Download, data: seq<byte>, p: PduState): Download
    requires p.Valid()
  {
    var r := Respond(d.ask, data, p);
    if d.done then d else Receive(d, r.code, r.block2, DataOf(r.pdu))
  }

  /** The request asks for the bytes from `off` on. */
  predicate AsksAt(ask: Option<seq<byte>>, off: nat) {
    match ask
    case None => off == 0
    case Some(v) => GetBlock(ask).Some? && Decode(v).Start() == off
  }

  /** The block the server announces to this request, if it answers in blocks. */
  function Announced(ask: Option<seq<byte>>, data: seq<byte>, p: PduState): Option<Block>
    requires p.Valid()
  {
    if GetBlock(ask).None? && DataFits(p, data) then None
    else
      var b := if GetBlock(ask).Some? then GetBlock(ask).value else Block(0, false, 6);
      if b.Start() < |data| then Adjust(b, Avail(p), |data| - b.Start()) else None
  }

  /** The number of the block announced, and of the one after it if there is one, can
      be asked for. */
  predicate Numbered(ask: Option<seq<byte>>, data: seq<byte>, p: PduState)
    requires p.Valid()
  {
    match Announced(ask, data, p)
    case None => true
    case Some(c) => InNumbers(c)
  }

  predicate InNumbers(c: Block) {
    c.num <= MAX_NUM && (c.m ==> c.num < MAX_NUM)
  }

  lemma WrittenBlock(b: Block, p: PduState, n: nat)
    requires p.Valid() && p.max - |p.bytes| >= 20
    requires b.Valid() && b.num <= MAX_NUM && b.Start() < n
    ensures var a := Adjust(b, Avail(p), n - b.Start());
            && a.Some? && a.value.num < TWO32 / 16 && a.value.szx < 8
            && WriteBlockOpt(b, BLOCK2, p, n) == Written(a.value, WithOption(p, BLOCK2, Value(a.value)))
  {
    StartBound(b);
    AdjustKeeps(b, Avail(p), n);
    assert b.num * b.Size() % TWO32 == b.Start();
    hide Pow2, WithOption, Adjust, Block.Start, Block.Size, VarInt.VarBytes;
  }

  /** The response to an honest request: the announced block starts at the offset
      asked for, tells truly whether more follows, and carries its chunk unless
      the option took the last byte of room. */
  lemma ServeBlock(b: Block, data: seq<byte>, p: PduState)
    requires Ready(p) && b.Valid() && b.num <= MAX_NUM && b.Start() < |data|
    requires var a := Adjust(b, Avail(p), |data| - b.Start());
             a.Some? ==> InNumbers(a.value)
    ensures var a := Adjust(b, Avail(p), |data| - b.Start());
            a.Some? && Served(b, data, p, a.value)
  {
    hide Adjust, Pow2, Block.Start, Block.Size, Chunk, WithOption, AddBlock, WriteBlockOpt, Value, DataOf, Avail;
    WrittenBlock(b, p, |data|);
    AdjustKeeps(b, Avail(p), |data|);
    var c := Adjust(b, Avail(p), |data| - b.Start()).value;
    ChunkOf(data, c);
    AddedChunk(data, p, c);
  }

  predicate Served(b: Block, data: seq<byte>, p: PduState, c: Block)
    requires p.Valid() && b.Valid()
  {
    var q := WithOption(p, BLOCK2, Value(c));
    var chunk := Chunk(data, b.Start(), c.szx);
    && WriteBlockOpt(b, BLOCK2, p, |data|) == Written(c, q)
    && c.Start() == b.Start() && c.szx < 8 && c.num <= MAX_NUM
    && 0 < |chunk| <= |data| - b.Start()
    && (c.m <==> b.Start() + |chunk| < |data|) && (c.m ==> |chunk| == c.Size() >= 16)
    && DataOf(AddBlock(q, data, c.num, c.szx))
       == if c.num >= 4096 && |chunk| == Avail(p) then [] else chunk
  }

  lemma AddedChunk(data: seq<byte>, p: PduState, c: Block)
    requires Ready(p) && c.szx < 8 && c.num <= MAX_NUM && c.Start() < |data|
    requires 0 < |Chunk(data, c.Start(), c.szx)| <= Avail(p)
    ensures var q := WithOption(p, BLOCK2, Value(c));
            var chunk := Chunk(data, c.Start(), c.szx);
            DataOf(AddBlock(q, data, c.num, c.szx))
            == if c.num >= 4096 && |chunk| == Avail(p) then [] else chunk
  {
    hide Pow2, Chunk, Encode, Block.Size, Block.Code, VarInt.VarBytes, Value;
    Unwrapped(c);
    hide Block.Start;
    var chunk := Chunk(data, c.Start(), c.szx);
    ChunkFits(p, BLOCK2, c, chunk);
    var q := WithOption(p, BLOCK2, Value(c));
    assert q.data == None && AddBlock(q, data, c.num, c.szx) == WithData(q, chunk);
    hide WithOption;
    DataOfAdded(q, chunk);
  }

  /** In range, the 32-bit arithmetic of block.c does not wrap. */
  lemma Unwrapped(c: Block)
    requires c.szx < 8 && c.num <= MAX_NUM
    ensures Value(c) == VarInt.VarBytes(c.Code())
    ensures c.num * Pow2(c.szx + 4) % TWO32 == c.Start()
  {
    StartBound(c);
    hide Pow2, VarInt.VarBytes;
    NoWrap(c.Start());
    NoWrap(c.Code());
  }

  // ----- what is refused

  /** A block from beyond the end of the listing is answered with 4.00, one that not even
      16 bytes are left for with 5.00, and everything else with 2.05. */
  lemma RespondCodes(ask: Option<seq<byte>>, data: seq<byte>, p: PduState)
    requires p.Valid()
    ensures (var r := Respond(ask, data, p);
             && r.code in {205, 400, 500}
             && (r.code == 400 <==> GetBlock(ask).Some? && GetBlock(ask).value.Start() >= |data|)
             && (r.code == 500 <==>
                   && GetBlock(ask).Some? && GetBlock(ask).value.Start() < |data|
                   && var b, room := GetBlock(ask).value, p.max - |p.bytes|;
                      4 <= room < 20 && b.Size() > room - 4 && |data| - b.Start() > room - 4)
             && (r.code != 205 ==> r.block2.None?))
  {
    hide WithOption, AddBlock, Decode, Pow2, Block.Start, Block.Size, WithData, DataFits, Adjust;
    DecodeValid(ask);
    if GetBlock(ask).Some? {
      var b := GetBlock(ask).value;
      StartBound(b);
      StartIs(b);
      if b.Start() < |data| { NoRoomWhen(b, p, |data|); }
    }
  }

  /** Without a block asked for, a listing that fits is sent whole, and of a longer one
      block 0 is sent, of 1024 bytes or as many as there is room for. */
  lemma UnaskedServed(ask: Option<seq<byte>>, data: seq<byte>, p: PduState)
    requires Ready(p) && GetBlock(ask).None?
    ensures var r, room := Respond(ask, data, p), p.max - |p.bytes|;
            if data == [] || |data| + 1 <= room then r.block2.None? && DataOf(r.pdu) == data
            else r.block2.Some? && FirstBlock(Decode(r.block2.value), DataOf(r.pdu), data, room)
  {
    hide FirstBlock, Adjust, Pow2, Chunk, WriteBlockOpt, WithOption, AddBlock, Decode, Block.Start, Block.Size, Value, DataOf, WithData;
    if DataFits(p, data) {
      WholeAdded(data, p);
    } else {
      BlockZero(data, p);
    }
  }

  lemma WholeAdded(data: seq<byte>, p: PduState)
    requires Ready(p) && DataFits(p, data)
    ensures DataOf(WithData(p, data)) == data
  {
    if data != [] { DataOfAdded(p, data); }
  }

  /** Block 0 of a longer listing, with as much of it as there is room for up to 1024 bytes. */
  predicate FirstBlock(c: Block, chunk: seq<byte>, data: seq<byte>, room: int) {
    && c.num == 0 && c.m && c.Size() < |data| && chunk == data[..c.Size()]
    && c.Size() <= 1024 && (c.Size() < 1024 ==> room - 4 < 2 * c.Size())
  }

  /** The block served to a client that asked for none. */
  lemma BlockZero(data: seq<byte>, p: PduState)
    requires Ready(p) && |data| + 1 > p.max - |p.bytes| && data != []
    ensures Block(0, false, 6).Start() == 0
    ensures var b := Block(0, false, 6);
            match WriteBlockOpt(b, BLOCK2, p, |data|)
            case Written(c, q) =>
              Decode(Value(c)) == c && FirstBlock(c, DataOf(AddBlock(q, data, c.num, c.szx)), data, p.max - |p.bytes|)
            case _ => false
  {
    hide Adjust, WriteBlockOpt, Chunk, WithOption, AddBlock, Decode, Block.Size, Value, DataOf;
    var b := Block(0, false, 6);
    StartOfZero();
    AdjustKeeps(b, Avail(p), |data|);
    var c := Adjust(b, Avail(p), |data|).value;
    ZeroNumber(c);
    ServeBlock(b, data, p);
    ValueReads(c);
    ChunkOf(data, c);
    ChunkZero(data, c);
    ExponentSix(c);
  }

  lemma ZeroNumber(c: Block)
    requires c.Start() == 0
    ensures c.num == 0
  {
    hide Pow2;
    MulMonotone(c.Size(), 0, c.num);
  }

  lemma ChunkZero(data: seq<byte>, c: Block)
    requires c.num == 0 && c.Size() < |data|
    ensures Chunk(data, 0, c.szx) == data[..c.Size()]
  {
    hide Pow2;
  }

  lemma ExponentSix(c: Block)
    requires c.szx <= 6
    ensures c.Size() <= 1024 && (c.szx == 6 ==> c.Size() == 1024)
  {
    SizeAtMost(c.szx);
    assert Pow2(10) == 1024 by { Pow2Add(6, 4); assert Pow2(6) == 64; Pow2Constants(); }
    hide Pow2;
  }

  lemma StartIs(b: Block)
    requires b.Start() < TWO32
    ensures b.num * b.Size() % TWO32 == b.Start()
  {
    hide Pow2, Block.Size;
    NoWrap(b.Start());
  }

  lemma NoRoomWhen(b: Block, p: PduState, n: nat)
    requires p.Valid() && b.Valid() && b.num <= MAX_NUM && b.Start() < n
    ensures Adjust(b, Avail(p), n - b.Start()).None?
       <==> var room := p.max - |p.bytes|;
            4 <= room < 20 && b.Size() > room - 4 && n - b.Start() > room - 4
  {
    AdjustKeeps(b, Avail(p), n);
    SizeBounds(b.szx);
    hide Pow2, Adjust, Block.Start;
  }

  /** A client that is refused stops with what it has. */
  lemma RefusedStops(d: Download, data: seq<byte>, p: PduState)
    requires p.Valid() && p.data.None? && !d.done && Respond(d.ask, data, p).code != 205
    ensures Exchange(d, data, p) == Download(d.output, d.ask, true)
    ensures p.max - |p.bytes| >= 22 ==>
              Respond(d.ask, data, p).code == 400 && DataOf(Respond(d.ask, data, p).pdu) == Ascii("Bad Request")
  {
    hide WithOption, AddBlock, Decode, Pow2, Block.Start, Block.Size, WriteBlockOpt, WithData, DataFits, DataOf;
    RespondCodes(d.ask, data, p);
    if p.max - |p.bytes| >= 22 {
      TextFits(p);
    }
  }

  lemma TextFits(p: PduState)
    requires p.Valid() && p.data.None? && p.max - |p.bytes| >= 22
    ensures DataOf(WithData(p, Ascii("Bad Request"))) == Ascii("Bad Request")
  {
    DataOfAdded(p, Ascii("Bad Request"));
  }

  // ----- whole runs

  /** The bytes the client gains in one exchange, had nothing been lost. */
  function Due(ask: Option<seq<byte>>, off: nat, data: seq<byte>, p: PduState): seq<byte>
    requires p.Valid() && off <= |data|
  {
    match Announced(ask, data, p)
    case None => data[off..]
    case Some(c) => Chunk(data, off, c.szx)
  }

  /** The one way to lose a block: the number takes three bytes and the chunk all
      the space that coap_write_block_opt saw. */
  predicate Loses(ask: Option<seq<byte>>, off: nat, data: seq<byte>, p: PduState)
    requires p.Valid() && off <= |data|
  {
    match Announced(ask, data, p)
    case None => false
    case Some(c) => c.num >= 4096 && |Due(ask, off, data, p)| == Avail(p)
  }

  /** One exchange moves the client on by what is due, at least 16 bytes unless
      the body ends there, and appends it unless it is lost. */
  lemma ExchangeStep(d: Download, off: nat, data: seq<byte>, p: PduState)
    requires Ready(p) && !d.done && AsksAt(d.ask, off) && off < |data| && Numbered(d.ask, data, p)
    ensures var e, due := Exchange(d, data, p), Due(d.ask, off, data, p);
            && e.output == d.output + (if Loses(d.ask, off, data, p) then [] else due)
            && 0 < |due| <= |data| - off && due == data[off..off + |due|]
            && (e.done <==> off + |due| == |data|)
            && (!e.done ==> |due| >= 16 && AsksAt(e.ask, off + |due|))
  {
    if GetBlock(d.ask).Some? {
      BlockStep(d, off, data, p, GetBlock(d.ask).value);
    } else if DataFits(p, data) {
      DataOfAdded(p, data);
      assert data[off..] == data;
    } else {
      BlockStep(d, off, data, p, Block(0, false, 6));
    }
  }

  lemma BlockStep(d: Download, off: nat, data: seq<byte>, p: PduState, b: Block)
    requires Ready(p) && !d.done && off < |data| && Numbered(d.ask, data, p)
    requires b.Valid() && b.num <= MAX_NUM && b.Start() == off
    requires GetBlock(d.ask) == Some(b) || (GetBlock(d.ask).None? && !DataFits(p, data) && b == Block(0, false, 6))
    ensures var e, due := Exchange(d, data, p), Due(d.ask, off, data, p);
            && e.output == d.output + (if Loses(d.ask, off, data, p) then [] else due)
            && 0 < |due| <= |data| - off && due == data[off..off + |due|]
            && (e.done <==> off + |due| == |data|)
            && (!e.done ==> |due| >= 16 && AsksAt(e.ask, off + |due|))
  {
    hide Pow2, Adjust, VarInt.VarBytes, Block.Start, Block.Size, Decode, WithOption, AddBlock, DataFits;
    ServeBlock(b, data, p);
    var c := Adjust(b, Avail(p), |data| - off).value;
    hide WriteBlockOpt, Block.Code;
    Unwrapped(c);
    InRange(c);
    DecodeOfCode(c);
    if c.m { NextAsk(c); }
  }

  lemma InRange(c: Block)
    requires c.num <= MAX_NUM
    ensures c.num < TWO32 / 16
  {
  }

  /** The next request names the block right after this one. */
  lemma NextAsk(c: Block)
    requires c.szx < 8 && c.num < MAX_NUM
    ensures var ask := Some(VarInt.VarBytes(((c.num + 1) * 16 + c.szx) % TWO32));
            GetBlock(ask).Some? && Decode(ask.value).Start() == c.Start() + c.Size()
  {
    hide Decode, VarInt.VarBytes, Pow2, Block.Start, Block.Size;
    var next := Block(c.num + 1, false, c.szx);
    NextStart(c);
    InRange(next);
    DecodeOfCode(next);
    NoWrap(next.Code());
  }

  lemma NextStart(c: Block)
    ensures Block(c.num + 1, false, c.szx).Start() == c.Start() + c.Size()
  {
  }

  /** A run so far: the client, the offset it has got to and whether a block was
      lost on the way. */
  datatype Progress = Progress(client: Download, off: nat, lost: bool)

  function Step(s: Progress, data: seq<byte>, p: PduState): Progress
    requires Ready(p)
  {
    if s.client.done || s.off > |data| then s
    else Progress(Exchange(s.client, data, p), s.off + |Due(s.client.ask, s.off, data, p)|,
                  s.lost || Loses(s.client.ask, s.off, data, p))
  }

  /** No exchange of the run needs a number of more than 20 bits. */
  predicate AllNumbered(s: Progress, data: seq<byte>, ps: seq<PduState>)
    requires AllReady(ps)
    decreases |ps|
  {
    ps == []
    || ((s.client.done || Numbered(s.client.ask, data, ps[0])) && AllNumbered(Step(s, data, ps[0]), data, ps[1..]))
  }

  predicate AllReady(ps: seq<PduState>) {
    ps == [] || (Ready(ps[0]) && AllReady(ps[1..]))
  }

  /** The run in which these responses are written one after the other. */
  function Run(s: Progress, data: seq<byte>, ps: seq<PduState>): Progress
    requires AllReady(ps)
    decreases |ps|
  {
    if ps == [] then s else Run(Step(s, data, ps[0]), data, ps[1..])
  }

  /** What holds after every exchange of every run. */
  predicate Invariant(s: Progress, data: seq<byte>) {
    && s.off <= |data|
    && (s.client.done <==> s.off == |data|)
    && (!s.client.done ==> AsksAt(s.client.ask, s.off))
    && (if s.lost then |s.client.output| < s.off else s.client.output == data[..s.off])
  }

  lemma StepKeeps(s: Progress, data: seq<byte>, p: PduState)
    requires Ready(p) && Invariant(s, data) && 0 < |data|
    requires s.client.done || Numbered(s.client.ask, data, p)
    ensures var t := Step(s, data, p);
            && Invariant(t, data)
            && (!s.client.done ==> t.client.done || t.off >= s.off + 16)
            && (s.client.done ==> t == s)
  {
    hide Exchange, Due, Loses, AsksAt, PduState.Valid, Numbered;
    if !s.client.done {
      ExchangeStep(s.client, s.off, data, p);
      var e, due := Exchange(s.client, data, p), Due(s.client.ask, s.off, data, p);
      GainKeeps(s, data, e, due, Loses(s.client.ask, s.off, data, p));
    }
  }

  /** The invariant survives a client that gains `due`, or loses it. */
  lemma GainKeeps(s: Progress, data: seq<byte>, e: Download, due: seq<byte>, loses: bool)
    requires Invariant(s, data) && s.off + |due| <= |data| && due == data[s.off..s.off + |due|] && due != []
    requires e.output == s.client.output + if loses then [] else due
    requires e.done <==> s.off + |due| == |data|
    requires !e.done ==> AsksAt(e.ask, s.off + |due|)
    ensures Invariant(Progress(e, s.off + |due|, s.lost || loses), data)
  {
  }

  lemma {:induction false} RunKeeps(s: Progress, data: seq<byte>, ps: seq<PduState>)
    requires AllReady(ps) && Invariant(s, data) && 0 < |data| && AllNumbered(s, data, ps)
    ensures Invariant(Run(s, data, ps), data)
    ensures s.off + 16 * |ps| >= |data| ==> Run(s, data, ps).client.done
    decreases |ps|
  {
    hide Invariant, Step, Ready, Numbered;
    if ps == [] {
      DoneAtEnd(s, data);
    } else {
      StepKeeps(s, data, ps[0]);
      DoneAtEnd(Step(s, data, ps[0]), data);
      RunKeeps(Step(s, data, ps[0]), data, ps[1..]);
    }
  }

  lemma DoneAtEnd(s: Progress, data: seq<byte>)
    requires Invariant(s, data)
    ensures s.off <= |data| && (s.client.done <==> s.off == |data|)
  {
  }

  /** Whatever the room in each response, a download whose block numbers stay within
      20 bits ends within one exchange per 16 bytes, and its output is the listing
      exactly when no block was lost. */
  lemma {:induction false} DownloadCompletes(ask: Option<seq<byte>>, data: seq<byte>, ps: seq<PduState>)
    requires AllReady(ps) && AsksAt(ask, 0) && 0 < |data|
    requires AllNumbered(Progress(Download([], ask, false), 0, false), data, ps)
    requires 16 * |ps| >= |data|
    ensures var e := Run(Progress(Download([], ask, false), 0, false), data, ps);
            && e.client.done
            && (e.client.output == data <==> !e.lost)
  {
    var s := Progress(Download([], ask, false), 0, false);
    assert Invariant(s, data);
    RunKeeps(s, data, ps);
    hide Run, AllNumbered;
    assert data[..|data|] == data;
  }

  /** 2^20 blocks of 16 bytes */
  const MAX_BODY := 0x100_0000

  lemma NumBound(c: Block, n: nat)
    requires c.szx < 8 && c.Start() < n <= MAX_BODY
    ensures c.num <= MAX_NUM
  {
    SizeBounds(c.szx);
    hide Pow2;
    MulMonotone(c.num, 16, c.Size());
  }

  /** Bodies of up to 16 MiB never need a larger number. */
  lemma BodyNumbered(ask: Option<seq<byte>>, off: nat, data: seq<byte>, p: PduState)
    requires Ready(p) && AsksAt(ask, off) && off < |data| <= MAX_BODY
    ensures Numbered(ask, data, p)
  {
    hide Pow2, Adjust, Block.Start, Block.Size, Decode, DataFits, Avail;
    StartOfZero();
    DecodeValid(ask);
    var b := if GetBlock(ask).Some? then GetBlock(ask).value else Block(0, false, 6);
    AdjustKeeps(b, Avail(p), |data|);
    var a := Adjust(b, Avail(p), |data| - off);
    if a.Some? {
      NumBound(a.value, |data|);
      if a.value.m {
        NextStart(a.value);
        NumBound(Block(a.value.num + 1, false, a.value.szx), |data|);
      }
    }
  }

  lemma {:induction false} BodiesNumbered(s: Progress, data: seq<byte>, ps: seq<PduState>)
    requires AllReady(ps) && Invariant(s, data) && 0 < |data| <= MAX_BODY
    ensures AllNumbered(s, data, ps)
    decreases |ps|
  {
    hide Step, Ready, Numbered, AsksAt;
    if ps != [] {
      if !s.client.done {
        BodyNumbered(s.client.ask, s.off, data, ps[0]);
      }
      StepKeeps(s, data, ps[0]);
      BodiesNumbered(Step(s, data, ps[0]), data, ps[1..]);
    }
  }

  lemma StartHolds(ask: Option<seq<byte>>, data: seq<byte>)
    requires AsksAt(ask, 0) && 0 < |data|
    ensures Invariant(Progress(Download([], ask, false), 0, false), data)
  {
    hide AsksAt;
  }

  lemma StartOfZero()
    ensures Block(0, false, 6).Start() == 0
  {
  }

  lemma SmallNum(c: Block, n: nat)
    requires c.szx < 8 && c.Start() < n <= 0x1_0000
    ensures c.num < 4096
  {
    SizeBounds(c.szx);
    hide Pow2;
    MulMonotone(c.num, 16, c.Size());
  }

  lemma SmallNumber(ask: Option<seq<byte>>, off: nat, data: seq<byte>, p: PduState)
    requires Ready(p) && AsksAt(ask, off) && off < |data| <= 0x1_0000
    ensures !Loses(ask, off, data, p)
  {
    hide Pow2, Adjust, Block.Start, Block.Size, Decode, Chunk;
    StartOfZero();
    if Announced(ask, data, p).Some? {
      var b := if GetBlock(ask).Some? then GetBlock(ask).value else Block(0, false, 6);
      AdjustKeeps(b, Avail(p), |data|);
      SmallNum(Announced(ask, data, p).value, |data|);
    }
  }

  lemma {:induction false} SmallBodyLosesNothing(s: Progress, data: seq<byte>, ps: seq<PduState>)
    requires AllReady(ps) && Invariant(s, data) && !s.lost && 0 < |data| <= 0x1_0000
    ensures !Run(s, data, ps).lost
    decreases |ps|
  {
    if ps != [] {
      if !s.client.done { BodyNumbered(s.client.ask, s.off, data, ps[0]); }
      StepKeeps(s, data, ps[0]);
      if !s.client.done { SmallNumber(s.client.ask, s.off, data, ps[0]); }
      assert !Step(s, data, ps[0]).lost;
      hide Invariant, Step, Ready;
      SmallBodyLosesNothing(Step(s, data, ps[0]), data, ps[1..]);
    }
  }

  /** A listing of up to 64 KiB always arrives whole, however the server shrinks
      its blocks on the way. */
  lemma {:induction false} SmallDownload(ask: Option<seq<byte>>, data: seq<byte>, ps: seq<PduState>)
    requires AllReady(ps) && AsksAt(ask, 0) && 0 < |data| <= 0x1_0000
    requires 16 * |ps| >= |data|
    ensures var e := Run(Progress(Download([], ask, false), 0, false), data, ps);
            e.client.done && e.client.output == data
  {
    assert Invariant(Progress(Download([], ask, false), 0, false), data);
    SmallBodyLosesNothing(Progress(Download([], ask, false), 0, false), data, ps);
    BodiesNumbered(Progress(Download([], ask, false), 0, false), data, ps);
    DownloadCompletes(ask, data, ps);
  }

  // ----- the room the broker has

  /** Room for a block of 1024 bytes with its option and one byte more. */
  predicate Roomy(p: PduState) {
    Ready(p) && p.max - |p.bytes| >= 1029
  }

  predicate AllRoomy(ps: seq<PduState>) {
    ps == [] || (Roomy(ps[0]) && AllRoomy(ps[1..]))
  }

  lemma {:induction false} RoomyReady(ps: seq<PduState>)
    requires AllRoomy(ps)
    ensures AllReady(ps)
  {
    if ps != [] {
      RoomyReady(ps[1..]);
    }
  }

  /** hnd_get_broker writes into a response of the usual size, behind a token and
      Content-Format. */
  lemma BrokerIsRoomy(kind: nat, id: (byte, byte), token: seq<byte>)
    requires kind < 4 && |token| <= 8
    ensures Roomy(WithOption(WithToken(Fresh(kind, 0, id, MAX_PDU_SIZE), token).value, 12, [40]))
  {
  }

  /** The size exponent of the blocks that such a server answers with. */
  function Wanted(ask: Option<seq<byte>>): nat {
    if GetBlock(ask).None? then 6 else Min(GetBlock(ask).value.szx, 6)
  }

  /** The blocks of a download with room keep one size, but for a first request with the
      reserved exponent that takes the whole listing, and so none is lost. */
  lemma RoomyStep(d: Download, off: nat, data: seq<byte>, p: PduState, z: nat)
    requires Roomy(p) && !d.done && AsksAt(d.ask, off) && off < |data| <= (MAX_NUM + 1) * Pow2(z + 4)
    requires Wanted(d.ask) == z && (off == 0 || GetBlock(d.ask).value.szx == z)
    ensures Numbered(d.ask, data, p) && !Loses(d.ask, off, data, p)
    ensures var e := Exchange(d, data, p);
            !e.done ==> e.ask.Some? && GetBlock(e.ask).Some? && GetBlock(e.ask).value.szx == z
  {
    hide Pow2, Adjust, Block.Start, Block.Size, Decode, DataFits, WriteBlockOpt, WithOption, AddBlock, Chunk, VarInt.VarBytes;
    StartOfZero();
    DecodeValid(d.ask);
    if GetBlock(d.ask).Some? || !DataFits(p, data) {
      var b := if GetBlock(d.ask).Some? then GetBlock(d.ask).value else Block(0, false, 6);
      RoomyBlock(b, data, p, z);
      var c := Adjust(b, Avail(p), |data| - off).value;
      ServeBlock(b, data, p);
      ChunkOf(data, c);
      BlockHeard(d, b, data, p, c, z);
    }
  }

  /** The next request names the size of the block served. */
  lemma BlockHeard(d: Download, b: Block, data: seq<byte>, p: PduState, c: Block, z: nat)
    requires Ready(p) && !d.done && b.Valid() && b.num <= MAX_NUM && b.Start() < |data| && Served(b, data, p, c)
    requires InNumbers(c) && (c.m ==> c.szx == z)
    requires GetBlock(d.ask) == Some(b) || (GetBlock(d.ask).None? && !DataFits(p, data) && b == Block(0, false, 6))
    ensures var e := Exchange(d, data, p);
            !e.done ==> e.ask.Some? && GetBlock(e.ask).Some? && GetBlock(e.ask).value.szx == z
  {
    hide Pow2, Block.Start, Block.Size, Decode, DataFits, WriteBlockOpt, WithOption, AddBlock, Chunk, VarInt.VarBytes, Block.Code, Value;
    ValueReads(c);
    if c.m {
      AskedSize(c);
    }
  }

  /** What is announced for a block when there is room for 1024 bytes. */
  lemma RoomyBlock(b: Block, data: seq<byte>, p: PduState, z: nat)
    requires Roomy(p) && b.Valid() && b.num <= MAX_NUM && b.Start() < |data| <= (MAX_NUM + 1) * Pow2(z + 4)
    requires z == Min(b.szx, 6) && (b.szx != z ==> b.Start() == 0)
    ensures var a := Adjust(b, Avail(p), |data| - b.Start());
            && a.Some? && InNumbers(a.value)
            && (a.value.m ==> a.value.szx == z)
            && (a.value.num >= 4096 ==> a.value.Size() <= 1024 < Avail(p))
  {
    SizeAtMost(z);
    SevenIsLarge(b, p);
    AdjustKeeps(b, Avail(p), |data|);
    hide Pow2, Block.Start;
    var c := Adjust(b, Avail(p), |data| - b.Start()).value;
    if c.szx == z {
      CountsUpTo(c, |data|, z);
    } else {
      ZeroStart(c);
    }
  }

  lemma SizeAtMost(z: nat)
    requires z <= 6
    ensures 16 <= Pow2(z + 4) <= 1024
  {
    SizeBounds(z);
    Pow2Monotone(z + 4, 10);
    assert Pow2(10) == 1024 by { Pow2Add(6, 4); assert Pow2(6) == 64; Pow2Constants(); }
  }

  /** Exponent 7 never fits, and shrinks to 6. */
  lemma SevenIsLarge(b: Block, p: PduState)
    requires Roomy(p) && b.szx < 8
    ensures 1025 <= Avail(p) < 2048 && VarInt.Fls(Avail(p)) == 11
    ensures b.szx == 7 ==> b.Size() == 2048
  {
    var n := Avail(p);
    Pow2Constants();
    assert Pow2(10) == 1024 by { Pow2Add(6, 4); assert Pow2(6) == 64; }
    VarInt.FlsBounds(n);
    VarInt.FlsAtLeast(n, 10);
    if VarInt.Fls(n) > 11 {
      Pow2Monotone(11, VarInt.Fls(n) - 1);
    }
  }

  /** 2^20 blocks of one size cover this much of a body. */
  lemma CountsUpTo(c: Block, n: nat, z: nat)
    requires c.szx == z && c.Start() < n <= (MAX_NUM + 1) * Pow2(z + 4)
    requires c.m <==> c.Start() + c.Size() < n
    ensures InNumbers(c)
  {
    if c.num > MAX_NUM {
      MulMonotone(c.Size(), MAX_NUM + 1, c.num);
    }
    if c.m && c.num >= MAX_NUM {
      MulMonotone(c.Size(), MAX_NUM + 1, c.num + 1);
    }
  }

  lemma ZeroStart(c: Block)
    requires c.Start() == 0
    ensures c.num == 0
  {
  }

  lemma AskedSize(c: Block)
    requires c.szx < 8 && c.num < MAX_NUM
    ensures var ask := Some(VarInt.VarBytes(((c.num + 1) * 16 + c.szx) % TWO32));
            GetBlock(ask).Some? && GetBlock(ask).value.szx == c.szx
  {
    hide Decode, VarInt.VarBytes, Pow2;
    var next := Block(c.num + 1, false, c.szx);
    DecodeOfCode(next);
    NoWrap(next.Code());
  }

  lemma {:induction false} RoomyRun(s: Progress, data: seq<byte>, ps: seq<PduState>, z: nat)
    requires AllRoomy(ps) && AllReady(ps) && Invariant(s, data) && !s.lost && 0 < |data| <= (MAX_NUM + 1) * Pow2(z + 4)
    requires s.client.done || (Wanted(s.client.ask) == z && (s.off == 0 || GetBlock(s.client.ask).value.szx == z))
    ensures AllNumbered(s, data, ps) && !Run(s, data, ps).lost
    decreases |ps|
  {
    hide Roomy, Ready, Numbered, AsksAt, Exchange, Loses, Due, Decode, Pow2;
    if ps != [] {
      if !s.client.done {
        RoomyStep(s.client, s.off, data, ps[0], z);
      }
      StepKeeps(s, data, ps[0]);
      RoomyRun(Step(s, data, ps[0]), data, ps[1..], z);
    }
  }

  /** With the room the broker has, every download of up to 2^20 blocks of the size asked
      for, or of 1024 bytes, arrives whole. */
  lemma {:induction false} SpaciousDownload(ask: Option<seq<byte>>, data: seq<byte>, ps: seq<PduState>)
    requires AllRoomy(ps) && AsksAt(ask, 0) && 16 * |ps| >= |data|
    requires 0 < |data| <= (MAX_NUM + 1) * Pow2(Wanted(ask) + 4)
    ensures AllReady(ps)
    ensures var e := Run(Progress(Download([], ask, false), 0, false), data, ps);
            e.client.done && e.client.output == data
  {
    hide Run, AllNumbered, Wanted, Pow2;
    RoomyReady(ps);
    var s := Progress(Download([], ask, false), 0, false);
    StartHolds(ask, data);
    RoomyRun(s, data, ps, Wanted(ask));
    DownloadCompletes(ask, data, ps);
  }

  // ----- a run that loses a block

  /** Exactly the 20 bytes of room that coap_write_block_opt deems enough. */
  predicate Tight(p: PduState) {
    Ready(p) && p.max - |p.bytes| == 20
  }

  predicate AllTight(ps: seq<PduState>) {
    ps == [] || (Tight(ps[0]) && AllTight(ps[1..]))
  }

  lemma {:induction false} TightReady(ps: seq<PduState>)
    requires AllTight(ps)
    ensures AllReady(ps)
  {
    if ps != [] {
      TightReady(ps[1..]);
    }
  }

  /** In such a response 16 bytes are due, and they are lost from block 4096 on. */
  lemma TightStep(d: Download, off: nat, data: seq<byte>, p: PduState)
    requires Tight(p) && !d.done && AsksAt(d.ask, off) && off + 16 < |data| <= MAX_BODY && |data| > 19
    ensures |Due(d.ask, off, data, p)| == 16
    ensures off % 16 == 0 ==> (Loses(d.ask, off, data, p) <==> off / 16 >= 4096)
  {
    hide Pow2, Adjust, Decode, Chunk, WriteBlockOpt, Block.Start, Block.Size, WithOption, AddBlock, DataFits;
    StartOfZero();
    NoFit(p, data);
    var b := if GetBlock(d.ask).Some? then GetBlock(d.ask).value else Block(0, false, 6);
    DecodeValid(d.ask);
    AdjustKeeps(b, Avail(p), |data|);
    BodyNumbered(d.ask, off, data, p);
    ServeBlock(b, data, p);
    var c := Adjust(b, Avail(p), |data| - off).value;
    ChunkOf(data, c);
    SixteenAt(c, off);
  }

  lemma NoFit(p: PduState, data: seq<byte>)
    requires Tight(p) && |data| > 19
    ensures !DataFits(p, data) && Avail(p) == 16
  {
  }

  lemma DecodeValid(ask: Option<seq<byte>>)
    ensures GetBlock(ask).Some? ==> GetBlock(ask).value.Valid() && GetBlock(ask).value.num <= MAX_NUM
  {
  }

  lemma SixteenAt(c: Block, off: nat)
    requires c.Start() == off
    ensures c.Size() == 16 ==> c.num == off / 16
  {
    hide Pow2;
  }

  lemma {:induction false} LostStays(s: Progress, data: seq<byte>, ps: seq<PduState>)
    requires AllReady(ps) && s.lost
    ensures Run(s, data, ps).lost
    decreases |ps|
  {
    hide Exchange, Due, Loses, Ready;
    if ps != [] {
      LostStays(Step(s, data, ps[0]), data, ps[1..]);
    }
  }

  lemma {:induction false} TightRun(s: Progress, data: seq<byte>, ps: seq<PduState>)
    requires AllTight(ps) && Invariant(s, data) && 0x1_0010 < |data| <= MAX_BODY
    requires !s.lost && s.off % 16 == 0 && s.off <= 0x1_0000 < s.off + 16 * |ps|
    ensures AllReady(ps) && Run(s, data, ps).lost
    decreases |ps|
  {
    hide Exchange, Due, Loses, AsksAt, Tight, Ready;
    TightReady(ps);
    var t := Step(s, data, ps[0]);
    BodyNumbered(s.client.ask, s.off, data, ps[0]);
    StepKeeps(s, data, ps[0]);
    TightStep(s.client, s.off, data, ps[0]);
    if s.off == 0x1_0000 {
      LostStays(t, data, ps[1..]);
    } else {
      TightRun(t, data, ps[1..]);
    }
  }

  /** Every download of a listing longer than 64 KiB and 16 bytes, from its start and
      with 20 bytes of room in each response, loses block 4096. */
  lemma {:induction false} LossPossible(ask: Option<seq<byte>>, data: seq<byte>, ps: seq<PduState>)
    requires AllTight(ps) && AsksAt(ask, 0) && 0x1_0010 < |data| <= MAX_BODY && 16 * |ps| >= |data|
    ensures AllReady(ps)
    ensures (var e := Run(Progress(Download([], ask, false), 0, false), data, ps);
             e.client.done && e.lost && e.client.output != data)
  {
    hide Run, AsksAt, Tight, Ready;
    TightReady(ps);
    var s := Progress(Download([], ask, false), 0, false);
    assert Invariant(s, data);
    TightRun(s, data, ps);
    BodiesNumbered(s, data, ps);
    DownloadCompletes(ask, data, ps);
  }

  /** Beyond 16 MiB the client can ask for a number of 21 bits, which the server
      takes for no Block2 option at all. */
  lemma NumberTooLarge(szx: nat)
    requires szx < 8
    ensures GetBlock(Some(VarInt.VarBytes(0x10_0000 * 16 + szx))).None?
  {
    DecodeOfCode(Block(0x10_0000, false, szx));
  }

  // ----- on the wire

  /** A response message so far: 2.05, its options off the boundary, none of them Block2. */
  ghost predicate Sendable(p: PduState, m: Message) {
    && Built(p, m) && m.payload == [] && m.code == 2 * 32 + 5
    && OffBoundary(m.opts, 0) && FirstOf(m.opts, BLOCK2).None?
  }

  /** What is served reads back as the message so far with one more option and the
      payload, and the option holds the block value announced. */
  lemma ServedOnWire(b: Block, data: seq<byte>, p: PduState, m: Message)
    requires Ready(p) && b.Valid() && b.num <= MAX_NUM && b.Start() < |data| && Sendable(p, m)
    requires var a := Adjust(b, Avail(p), |data| - b.Start());
             a.Some? ==> InNumbers(a.value)
    ensures (var c := Adjust(b, Avail(p), |data| - b.Start()).value;
             var q := AddBlock(WithOption(p, BLOCK2, Value(c)), data, c.num, c.szx);
             var m' := m.(opts := m.opts + [Opt(BLOCK2, Value(c))], payload := DataOf(q));
             && ParseMessage(q.bytes) == Some(m')
             && FirstOf(m'.opts, BLOCK2) == Some(Opt(BLOCK2, Value(c))) && Decode(Value(c)) == c)
  {
    hide Adjust, WriteBlockOpt, Block.Start, Block.Size, Chunk, Encode, Pow2, OffBoundary, FirstOf, WithOption, OptionFits,
         DataOf, WithData, DataFits, Serialize, ParseMessage, Value, Decode, Block.Code, VarInt.VarBytes, Sorted, Last;
    ServeBlock(b, data, p);
    var c := Adjust(b, Avail(p), |data| - b.Start()).value;
    AdjustKeepsRoom(b, data, p, c);
    ValueReads(c);
    var o, q := Opt(BLOCK2, Value(c)), WithOption(p, BLOCK2, Value(c));
    OptionKeepsOff(p, m, Value(c));
    FirstOfAppended(m.opts, o);
    var m' := m.(opts := m.opts + [o]);
    var r := AddBlock(q, data, c.num, c.szx);
    BuiltTry(q, m', Chunk(data, c.num * Pow2(c.szx + 4) % TWO32, c.szx));
    BuiltReads(r, m'.(payload := DataOf(r)));
  }

  lemma OptionKeepsOff(p: PduState, m: Message, v: seq<byte>)
    requires Sendable(p, m) && OptionFits(p, BLOCK2, v) && |v| <= 4
    ensures (var m' := m.(opts := m.opts + [Opt(BLOCK2, v)]);
             Built(WithOption(p, BLOCK2, v), m') && OffBoundary(m'.opts, 0))
  {
    hide Encode, OffBoundary, Serialize, FirstOf;
    BuiltOption(p, m, BLOCK2, v);
    OffBoundaryAppend(m.opts, 0, Opt(BLOCK2, v));
  }

  lemma ValueReads(c: Block)
    requires c.szx < 8 && c.num <= MAX_NUM
    ensures Decode(Value(c)) == c && |Value(c)| <= 4
  {
    hide Decode, Pow2, VarInt.VarBytes;
    Unwrapped(c);
    InRange(c);
    DecodeOfCode(c);
    VarInt.AtMostFour(c.Code());
  }

  lemma AdjustKeepsRoom(b: Block, data: seq<byte>, p: PduState, c: Block)
    requires Ready(p) && b.Valid() && b.num <= MAX_NUM && b.Start() < |data| && Served(b, data, p, c)
    requires Adjust(b, Avail(p), |data| - b.Start()) == Some(c)
    ensures OptionFits(p, BLOCK2, Value(c))
    ensures var chunk := Chunk(data, c.Start(), c.szx);
            var q := WithOption(p, BLOCK2, Value(c));
            chunk != [] && q.data == None && AddBlock(q, data, c.num, c.szx) == WithData(q, chunk)
  {
    AdjustKeeps(b, Avail(p), |data|);
    hide Adjust, WriteBlockOpt;
    ChunkOf(data, c);
    hide Encode, Pow2, Block.Size, Block.Code, VarInt.VarBytes, Value;
    Unwrapped(c);
    hide Block.Start;
    ChunkFits(p, BLOCK2, c, Chunk(data, c.Start(), c.szx));
    hide Chunk;
  }

  /** The client's handler on a datagram: what message_handler reads off it. */
  function Hear(d: Download, bs: seq<byte>): Download {
    match ParseMessage(bs)
    case None => d
    case Some(m) =>
      var o := FirstOf(m.opts, BLOCK2);
      Receive(d, m.code / 32 * 100 + m.code % 32, if o.None? then None else Some(o.value.value), m.payload)
  }

  /** Exchanging bytes is the exchange of the runs above. */
  lemma ExchangeOnWire(d: Download, off: nat, data: seq<byte>, p: PduState, m: Message)
    requires Ready(p) && !d.done && AsksAt(d.ask, off) && off < |data| && Numbered(d.ask, data, p) && Sendable(p, m)
    ensures Hear(d, Respond(d.ask, data, p).pdu.bytes) == Exchange(d, data, p)
  {
    hide ParseMessage, WriteBlockOpt, AddBlock, WithOption, WithData, DataOf, Adjust, Decode, Block.Start, Block.Size, Value,
         OffBoundary, Serialize, DataFits, Avail, Pow2, VarInt.VarBytes;
    StartOfZero();
    DecodeValid(d.ask);
    var b := if GetBlock(d.ask).Some? then GetBlock(d.ask).value else Block(0, false, 6);
    if GetBlock(d.ask).None? && DataFits(p, data) {
      WholeOnWire(data, p, m);
    } else {
      BlockOnWire(d, b, data, p, m);
    }
  }

  lemma BlockOnWire(d: Download, b: Block, data: seq<byte>, p: PduState, m: Message)
    requires Ready(p) && !d.done && b.Valid() && b.num <= MAX_NUM && b.Start() < |data| && Sendable(p, m)
    requires Numbered(d.ask, data, p)
    requires GetBlock(d.ask) == Some(b) || (GetBlock(d.ask).None? && !DataFits(p, data) && b == Block(0, false, 6))
    ensures Hear(d, Respond(d.ask, data, p).pdu.bytes) == Exchange(d, data, p)
  {
    hide ParseMessage, WriteBlockOpt, AddBlock, WithOption, WithData, DataOf, Adjust, Decode, Block.Start, Block.Size, Value,
         Serialize, DataFits, Avail, Pow2, VarInt.VarBytes, GetBlock, Receive, Ready, Sendable, Chunk, FirstOf;
    SendableCode(p, m);
    ServeBlock(b, data, p);
    ServedOnWire(b, data, p, m);
  }

  lemma SendableCode(p: PduState, m: Message)
    requires Sendable(p, m)
    ensures m.code / 32 * 100 + m.code % 32 == 205
  {
    hide Serialize, OffBoundary, FirstOf;
  }

  lemma WholeOnWire(data: seq<byte>, p: PduState, m: Message)
    requires Sendable(p, m)
    ensures ParseMessage(WithData(p, data).bytes) == Some(m.(payload := DataOf(WithData(p, data))))
  {
    hide ParseMessage, WithData, DataOf, Serialize, OffBoundary, FirstOf;
    BuiltTry(p, m, data);
    BuiltReads(WithData(p, data), m.(payload := DataOf(WithData(p, data))));
  }

  /** The client that hears nothing but the bytes of these responses. */
  function HearRun(d: Download, data: seq<byte>, ps: seq<PduState>): Download
    requires AllReady(ps)
    decreases |ps|
  {
    if ps == [] then d
    else HearRun(if d.done then d else Hear(d, Respond(d.ask, data, ps[0]).pdu.bytes), data, ps[1..])
  }

  ghost predicate AllSendable(ps: seq<PduState>, ms: seq<Message>) {
    |ms| == |ps| && forall i :: 0 <= i < |ms| ==> Sendable(ps[i], ms[i])
  }

  lemma {:induction false} RunOnWire(s: Progress, data: seq<byte>, ps: seq<PduState>, ms: seq<Message>)
    requires AllReady(ps) && AllSendable(ps, ms) && Invariant(s, data) && 0 < |data| && AllNumbered(s, data, ps)
    ensures HearRun(s.client, data, ps) == Run(s, data, ps).client
    decreases |ps|
  {
    hide Sendable, Ready, Exchange, Hear, Due, Loses, AsksAt, Respond, Numbered;
    if ps != [] {
      StepKeeps(s, data, ps[0]);
      if !s.client.done {
        ExchangeOnWire(s.client, s.off, data, ps[0], ms[0]);
      }
      RunOnWire(Step(s, data, ps[0]), data, ps[1..], ms[1..]);
    }
  }

  /** A client that parses the responses off the wire ends with exactly the listing if
      and only if no block was lost. */
  lemma {:induction false} DownloadOnWire(ask: Option<seq<byte>>, data: seq<byte>, ps: seq<PduState>, ms: seq<Message>)
    requires AllReady(ps) && AllSendable(ps, ms) && AsksAt(ask, 0) && 0 < |data| && 16 * |ps| >= |data|
    requires AllNumbered(Progress(Download([], ask, false), 0, false), data, ps)
    ensures (var e := HearRun(Download([], ask, false), data, ps);
             && e.done
             && (e.output == data <==> !Run(Progress(Download([], ask, false), 0, false), data, ps).lost))
  {
    hide Run, HearRun, AsksAt, AllSendable, AllReady, AllNumbered;
    var s := Progress(Download([], ask, false), 0, false);
    assert Invariant(s, data);
    RunOnWire(s, data, ps, ms);
    DownloadCompletes(ask, data, ps);
  }
}
