/** The request a handler sees of a received PDU. */
module BrokerRequests {
  import opened Bytes
  import opened Messages
  import opened OptionCodec
  import opened OptionIterator
  import opened Pdus
  import opened BrokerStates
  import ErrorResponse

  /** What the loops over coap_option_next and coap_get_data find in a PDU that
      coap_pdu_parse has accepted: exactly the options and the payload of its message. */
  method ReadRequest(pdu: Pdu) returns (req: Request)
    requires pdu.Valid() && ParseMessage(pdu.View().bytes).Some?
    requires DataOf(pdu.View()) == ParseMessage(pdu.View().bytes).value.payload
    ensures (var m := ParseMessage(pdu.View().bytes).value;
             req == Request(m.opts, if m.payload == [] then None else Some(m.payload)))
  {
    hide ScanOpts, ScanRest, Select, ParseOption, ParseMessage;
    ghost var m := ParseMessage(pdu.View().bytes).value;
    MessageParts(pdu.View().bytes);
    var it := new OptIterator(pdu, null);
    SelectAll(m.opts);
    var opts: seq<Opt> := [];
    while true
      invariant it.Valid() && it.buf == pdu.buf && it.Types() == None && fresh(it)
      invariant opts + Select(it.Remaining(), None) == m.opts
      decreases it.length
    {
      var found, value, _, opt, _ := ErrorResponse.NextValue(it);
      if !found { break; }
      ErrorResponse.Regroup(opts, opt, Select(it.Remaining(), None));
      opts := opts + [Opt(it.number, value)];
    }
    var ok, off, length := pdu.GetData();
    req := Request(opts, if ok then Some(pdu.buf[off..off + length]) else None);
  }

  lemma MessageParts(bs: seq<byte>)
    requires ParseMessage(bs).Some?
    ensures |bs| >= 4 + bs[0] % 16 && ParseMessage(bs).value.opts == ScanOpts(bs[4 + bs[0] % 16..], 0)
  {
    hide ScanOpts, ScanRest;
  }
}
