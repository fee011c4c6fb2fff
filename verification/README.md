# Verified model of a CoAP publish-subscribe broker

A CoAP broker keeps topics that clients create, publish to, read and delete. This project
models the parts of it that carry state or arithmetic across several functions, and proves
what they keep and what they give back:

* **The message codec** (`OptionCodec`, `VarInt`, `Message`, `Pdu`, `OptionFilter`,
  `OptionIterator`, `ErrorResponse`). A PDU is a byte array with a length, the number of its
  last option and the offset of its payload. Every write is tied to a message value, and
  parsing is proved to give that value back.
* **The send queue and retransmission** (`SendQueue`, `Observers`, `Retransmission`). A linked
  list of nodes with times relative to the node before. A ghost deadline on each node says what
  the relative times stand for. Giving up a notification can drop its observer and cancel more.
* **Block-wise transfer** (`Block`, `BlockDownload`, `BlockUpload`). One step of server and
  client each, and whole runs made of them.
* **Topics and the broker** (`Topics`, `TopicList`, `LinkFormat`, `BrokerState`, `BrokerRuns`,
  `BrokerTheorems`, `BrokerAnswers`, `BrokerRequest`, `BrokerWire`, `Broker`). The topic list is a linked list with read-write
  locks and refines a map in insertion order. The broker is a state machine over the resource
  table, that list, two cached expiry times and a clock that does not run backwards. The class
  `Broker` performs its steps on the heap.

Objects that the program updates in place are classes whose methods are proved against
functions on values; the lemmas about those functions carry the results. `dafny verify
dfyconfig.toml` checks everything.

## Results

* Any successful run of token, options and data parses back to the same message exactly when
  no option delta or length is 269, no value exceeds 65804 bytes, and a message with code 0 has
  nothing but its header (`Pdus.RunRoundTrip`).
  `coap_opt_setheader` tests `< 270` where section 3.1 of RFC 7252 has 269 as the first
  two-byte number, so 269 comes back as 13.
* A Block2 download whose block numbers stay within 20 bits ends with exactly the served data if
  and only if no block was lost; a block is lost only from block number 4096 on, when its chunk
  takes all of the space that `coap_write_block_opt` saw. Bodies of up to 64 KiB always arrive
  whole. The broker answers with enough room to lose nothing (`BlockDownload.SpaciousDownload`).
  A Block1 upload ends with exactly the payload if and only if no request lost its Block1 option
  or its chunk for want of room, under every sequence of sizes the server asks for. Both hold for
  peers that hand each other nothing but bytes, and for a server that places chunks by their
  numbers (`BlockDownload.DownloadOnWire`, `BlockUpload.UploadOnWire`).
* Insert, pop and remove keep every other deadline of the send queue; cancelling moves each
  deadline up by exactly the relative times of the removed nodes before it. Draining ends.
  Over every sequence of sends, drains, answers, cancellations and base-time changes each message
  goes out at most five times. As long as there are only requests and nothing is cancelled or
  rebased, no deadline is moved up (`Retransmission.Play`).
* In every reachable state of the broker the topic list and the resource table agree, the cached
  expiry times are not above any expiry time, and the 404 branches of GET and PUT on a topic are
  dead. Removing expired data early cannot be told from a GET. DELETE removes exactly the subtree
  if and only if no path contains the deleted path with a slash without starting with it.
* Data published are read back exactly until their Max-Age has passed, with the time left; data
  that arrive from MQTT replace different ones and never expire; nothing but the topic concerned
  changes its answers (`BrokerAnswers.PublishThenRead`, `BrokerAnswers.ArrivalThenRead`). A DELETE
  is answered with 2.02 and the number of topics gone (`BrokerWire.DeleteOnWire`).
* The handlers do not look at whether options and data fit. An answer to a GET reaches the client
  as it was meant if and only if the sizes of token, options and data leave room for it; in the
  responses of the broker it is the data alone that may be missing (`BrokerWire.AnswerArrives`,
  `BrokerWire.ContentOnWire`).
* The link-format parser accepts exactly the printed well-formed links, and printing and parsing
  are inverse.

## Where the code and its documentation differ

The model follows the code.

* The header comment of `coap_add_option` says that it destroys the PDU's data. It only forgets
  where they start; the bytes stay, so the pointer is all `Pdus.WithOption` clears.
* `coap_adjust_basetime` stores, for the first message not overdue, the time elapsed since the
  deadline before it where the time left is meant. The messages not overdue keep their time
  exactly when the two coincide (`SendQueue.StaysWhen`); `SendQueue.ElapsedStored` is a queue
  where they do not.
* Section 4.2 of RFC 7252 doubles the wait after each retransmission. The code counts the doubled
  timeout from the base time of the queue, which the client's loop does not move on: all of the
  wait is left only when no time has passed since, and at most half of it exactly when
  timeout * 2^cnt has (`Retransmission.WaitLeft`). That is so for every message that is due while
  deadlines are not moved up; cancelling others moves them up (`Retransmission.MovedUp`).
* `coap_remove_failed_observers` is documented to remove the observer whose notifications keep
  failing. Its loop stops after the first observer of each resource, so an observer is removed
  exactly when it is the first and fails more than three times (`Observers.FailuresRemove`,
  `Observers.SecondStays`).
* A GET is answered with 2.05 for data that are stored; when they do not fit behind the token and
  the options, the 2.05 goes out without them. `BrokerWire.ContentLost` is a run in which a PUT
  stores 1388 bytes that a client with a token of eight bytes cannot get.
* An MQTT message with the data that a topic holds already changes nothing, also when those have
  expired: a GET is still answered with 2.04 (`BrokerAnswers.ExpiredStays`).
* DELETE of a topic is meant for the topic and those below it; the code looks for the path as a
  substring (`BrokerTheorems.SubstringGoesToo`).

## Model

| member | source | states |
|---|---|---|
| VarInt.FindLastSet | misc/library/libcoap/src/encode.c:17-22 | returns the position of the highest set bit, characterised by FlsBounds |
| VarInt.FlsBounds | misc/library/libcoap/src/encode.c:17-22 | a positive number lies between the power of two at its highest bit and the next one |
| VarInt.DecodeVarBytes | misc/library/libcoap/src/encode.c:25-31 | the big-endian value of the bytes modulo 2^32 |
| VarInt.EncodeVarBytes | misc/library/libcoap/src/encode.c:34-47 | writes the shortest big-endian form and touches nothing else |
| VarInt.ValueOfVarBytes | misc/library/libcoap/src/encode.c:25-47 | decoding an encoded number gives it back, and no encoding starts with a zero byte |
| VarInt.VarBytesOfValue | misc/library/libcoap/src/encode.c:25-47 | encoding a decoded string gives it back exactly when it has no leading zero |
| VarInt.VarBytesLength | misc/library/libcoap/src/encode.c:34-47 | an encoding has at most k bytes exactly below 2^(8k) |
| OptionCodec.OptParse | misc/library/libcoap/src/option.c:39-117 | the in-place parser returns the size, delta, length and value offset of the specification, or 0 for a malformed option |
| OptionCodec.OptEncode | misc/library/libcoap/src/option.c:384-408 | writes the encoding when it fits, returns its size, changes nothing outside it and fails exactly when it does not fit |
| OptionCodec.SetHeader | misc/library/libcoap/src/option.c:329-381 | writes the option header or returns 0 exactly when there is no room |
| OptionCodec.ParseOfEncode | misc/library/libcoap/src/option.c:39-117 | what the parser makes of every encoded option, on and off the boundary |
| OptionCodec.ParseInvertsEncode | misc/library/libcoap/src/option.c:329-408 | parsing inverts encoding exactly for delta and length other than 269 and lengths up to 65804 |
| OptionCodec.EncodeInvertsParse | misc/library/libcoap/src/option.c:39-117 | re-encoding a parsed option gives its bytes exactly when its two-byte extensions announce more than 269 |
| OptionCodec.EncodeNotMarker | misc/library/libcoap/src/option.c:329-408 | no encoded option starts with 0xFF |
| OptionCodec.Delta269ComesBackAs13 | misc/library/libcoap/src/option.c:340-346 | a concrete option on the boundary and what is read back |
| OptionCodec.WrappedDeltaAccepted | misc/library/libcoap/src/option.c:55-75 | a concrete delta that wraps past 16 bits and is accepted |
| OptionCodec.OptDelta | misc/library/libcoap/src/option.c:222-248 | the fall-through switch in 16-bit arithmetic returns the delta the parser gives, for every option it accepts |
| OptionCodec.OptLength | misc/library/libcoap/src/option.c:251-283 | returns the length the parser gives modulo 2^16, for every option it accepts |
| OptionCodec.OptValue | misc/library/libcoap/src/option.c:286-318 | points at the value the parser gives, for every option it accepts |
| Messages.ScanEncoded | misc/library/libcoap/src/option.c:159-206 | iterating over encoded options yields them again exactly when they are off the boundary |
| Messages.RoundTrip | misc/library/libcoap/src/pdu.c:344-433 | a serialised message parses back exactly when its options are off the boundary and a message with code 0 is empty |
| Messages.Accepted | misc/library/libcoap/src/pdu.c:325-433 | exactly the datagrams with a header, a token of at most 8 bytes, nothing behind code 0 and complete options up to the end or a marker with a payload are accepted |
| Messages.Fields | misc/library/libcoap/src/pdu.c:344-433 | version, type, token length, code, id, token and payload of an accepted message from its bytes |
| Messages.Refused | misc/library/libcoap/src/pdu.c:344-433 | refuses a token length above 8, anything behind code 0, a marker with nothing behind it and a malformed option |
| Pdus.RunRoundTrip | misc/library/libcoap/src/pdu.c:153-271 | every successful run of adding token, options and data gives bytes that parse back to the same message, under the exact condition |
| Pdus.BuiltOption | misc/library/libcoap/src/pdu.c:171-200 | adding an option appends it to the message the PDU stands for |
| Pdus.BuiltData | misc/library/libcoap/src/pdu.c:234-254 | adding data sets the payload of the message the PDU stands for |
| Pdus.BuiltToken | misc/library/libcoap/src/pdu.c:153-168 | adding a token keeps the header and drops what followed it |
| Pdus.DataAfterMarker | misc/library/libcoap/src/pdu.c:344-433 | the payload offset the parser derives from the bytes left is right behind the marker |
| Pdus.Pdu.AddToken | misc/library/libcoap/src/pdu.c:153-168 | the PDU in memory changes as WithToken says, and fails as it says |
| Pdus.Pdu.AddOption | misc/library/libcoap/src/pdu.c:171-200 | the PDU in memory changes as WithOption says; 0 exactly when the option does not fit or its number decreases |
| Pdus.Pdu.AddData | misc/library/libcoap/src/pdu.c:234-254 | the PDU in memory changes as WithData says; 0 exactly when the data do not fit |
| Pdus.Pdu.GetData | misc/library/libcoap/src/pdu.c:257-271 | offset and length of exactly the payload |
| Pdus.Pdu.Parse | misc/library/libcoap/src/pdu.c:344-433 | accepts exactly the datagrams that are messages, and then holds their bytes and payload |
| Pdus.Pdu.SkipOptions | misc/library/libcoap/src/pdu.c:325-341 | stops at the end, at the marker or at the first malformed option |
| OptionFilter.FullWhen | misc/library/libcoap/src/option.c:449-506 | a section is full exactly when it holds as many types as it has slots |
| OptionFilter.FlsIsHighestBit | misc/library/libcoap/src/option.c:483-495 | the highest set bit of a mask is found; of the mask of the slots not in use that is a free slot |
| OptionFilter.OptFilter.Set | misc/library/libcoap/src/option.c:509-511 | adds the type unless its section, long or short, is full; then nothing changes |
| OptionFilter.OptFilter.Unset | misc/library/libcoap/src/option.c:514-516 | removes the type and no other |
| OptionFilter.OptFilter.Get | misc/library/libcoap/src/option.c:519-521 | membership in the set the filter stands for |
| OptionIterator.OptIterator.Next | misc/library/libcoap/src/option.c:159-206 | delivers the next option of the filtered list, in order, with its bytes in place, or reports the end |
| OptionIterator.OptIterator.constructor | misc/library/libcoap/src/option.c:120-144 | starts with all options the scan of the PDU finds |
| OptionIterator.SelectAll | misc/library/libcoap/src/option.c:120-144 | the filter for all options leaves none out |
| OptionIterator.SelectCounts | misc/library/libcoap/src/option.c:159-206 | a filter selects exactly the options of its types, each as often as it occurs |
| OptionIterator.SelectConcat | misc/library/libcoap/src/option.c:159-206 | the options selected keep their order |
| OptionIterator.FirstOfSelect | misc/library/libcoap/src/option.c:209-219 | the first of the options of one type is the first of that type |
| OptionIterator.CheckOption | misc/library/libcoap/src/option.c:209-219 | the first option of the type, or none exactly when there is none |
| ErrorResponse.EstimateSize | misc/library/libcoap/src/net.c:1038-1075 | the first pass yields a bound on the space for the options found |
| ErrorResponse.CopyOptions | misc/library/libcoap/src/net.c:1094-1110 | the second pass succeeds exactly when the option numbers are in order, and then the options are the ones selected |
| ErrorResponse.CopyStep | misc/library/libcoap/src/net.c:1094-1110 | with the numbers in order there is room for each next option |
| ErrorResponse.SizeSuffices | misc/library/libcoap/src/net.c:1038-1090 | header, token, options and phrase fit in the computed size |
| ErrorResponse.NewErrorResponse | misc/library/libcoap/src/net.c:1028-1118 | no response exactly when too large or with a bad token; otherwise an acknowledgement exactly for a confirmable request, with code, id and token as they should be byte by byte, and with options in order and off the boundary a client parses exactly those selected and the phrase |
| SendQueue.Queue.Insert | misc/library/libcoap/src/net.c:217-251 | the node gets its deadline behind all up to it, the others keep theirs |
| SendQueue.Queue.Pop | misc/library/libcoap/src/net.c:298-311 | removes the first node and keeps every other deadline |
| SendQueue.Queue.Remove | misc/library/libcoap/src/net.c:930-971 | removes the first node with the id, or nothing, and keeps every other deadline |
| SendQueue.Queue.Ordered | misc/library/libcoap/src/net.c:217-251 | deadlines never decrease along the queue |
| SendQueue.Queue.CancelAll | misc/library/libcoap/src/net.c:973-1017 | exactly the nodes to this peer with this token go, the others keep their order, each is due earlier by the times of the removed ones before it, and at the same time with none before it |
| SendQueue.KeptFields | misc/library/libcoap/src/net.c:973-1010 | a node stays if and only if its peer or its token is another |
| SendQueue.KeptTimes | misc/library/libcoap/src/net.c:980-1017 | relative times left as they are stand for those earlier deadlines |
| SendQueue.RemovedAtMost | misc/library/libcoap/src/net.c:980-1017 | no deadline moves before the base time |
| SendQueue.Queue.AdjustBasetime | misc/library/libcoap/src/net.c:180-213 | counts the deadlines that have passed and zeroes their nodes; the others keep their time exactly when the time left is the time elapsed since the deadline before |
| SendQueue.StaysWhen | misc/library/libcoap/src/net.c:203-206 | after the shift every message not overdue is due when it was if and only if, of the deadlines before the call, the first one left plus the one before it make twice the time passed |
| SendQueue.ElapsedStored | misc/library/libcoap/src/net.c:203-206 | a queue with a message due at 10 is rebased after 3 ticks and stores 3, where 7 are left |
| Retransmission.TimeoutBounds | misc/library/libcoap/src/net.c:673-692 | for every random byte, and every tick rate whose product stays in 32 bits, the timeout lies between 2 and 3 seconds, both reached |
| Retransmission.TimeoutExactly | misc/library/libcoap/src/net.c:673-692 | exactly those tick rates keep the timeout in that range for every random byte |
| Retransmission.TimeoutNear | misc/library/libcoap/src/net.c:673-692 | the timeout is 2 + r/256 seconds up to a 64th of a second and half a tick |
| Retransmission.SendConfirmed | misc/library/libcoap/src/net.c:699-768 | queues the message with its first deadline |
| Observers.Registry.RemoveFailed | misc/library/libcoap/src/resource.c:707-745 | counts a failure of the first observer of a resource, or removes it and cancels the messages to it |
| Observers.FailureFields | misc/library/libcoap/src/resource.c:712-743 | a failure changes a list only if peer and token of its first observer match; it counts up to three and then takes that observer off |
| Observers.Registry.HandleFailedNotify | misc/library/libcoap/src/resource.c:748-755 | every list is as one failure leaves it; exactly the messages with this peer and token go, and only if some resource removes the observer |
| Observers.FailuresRemove | misc/library/libcoap/src/resource.c:712-743 | n failures in a row take an observer off its resource if and only if it is the first of the list and has then failed more than three times in all |
| Observers.SecondStays | misc/library/libcoap/src/resource.c:712-743 | a second observer stays for any number of failures |
| Retransmission.Retransmit | misc/library/libcoap/src/net.c:771-815 | sends again and queues at timeout times 2^k from the base time, or gives up after the fourth time; giving up a notification cancels exactly the messages to the observer that is dropped, if one is |
| Retransmission.DrainStep | misc/library/libcoap/examples/client.c:1252-1256 | one turn lowers the work left, the sum of 5 less the retransmissions |
| Retransmission.Drain | misc/library/libcoap/examples/client.c:1252-1256 | ends; each message is queued ahead, was given up after five times, or was cancelled with a notification given up; among requests each was sent once for each passed deadline; what is left can be drained again |
| Retransmission.AllAtOnce | misc/library/libcoap/examples/client.c:1252-1256 | a due message is given up within a single drain exactly when that comes timeout times 16 or more after the base time |
| Retransmission.WaitLeft | misc/library/libcoap/src/net.c:776-779 | for every due message: the wait of section 4.2 is left whole exactly at the base time, and at most half of it exactly from timeout times 2^cnt on |
| Retransmission.ScheduleKept | misc/library/libcoap/src/net.c:776-779 | a message with a deadline not moved up keeps such a deadline and has at most half of the wait left after each retransmission |
| Retransmission.HappenDrain | misc/library/libcoap/examples/client.c:1252-1256 | a drain of such a queue leaves one, and every message it retransmitted has at most half of the wait left |
| Retransmission.MovedUp | misc/library/libcoap/src/net.c:980-1017 | a run with a cancellation after which 3500 of 4000 ticks are left |
| Retransmission.Play | misc/library/libcoap/src/net.c:699-815 | over any run of sends, drains, answers, cancellations, base-time changes and changes of observers each message ever sent goes out one to five times, those taken out included; with requests only, and no cancellation or base-time change, no queued message is due before timeout times 2^cnt |
| Blocks.DecodeOfCode | misc/library/libcoap/src/block.c:26-69 | a written block value is read back as the same number, flag and size |
| Blocks.AdjustKeeps | misc/library/libcoap/src/block.c:73-125 | adjusting keeps the offset, never raises the size, sets M exactly when data remain, leaves a chunk that fits, and fails exactly below 16 bytes |
| Blocks.ChunkFits | misc/library/libcoap/src/block.c:73-139 | option and chunk fit exactly when the number is below 4096 or the chunk leaves a byte |
| Blocks.WriteBlock | misc/library/libcoap/src/block.c:73-125 | block and PDU in memory change as WriteBlockOpt says, with its return codes |
| Blocks.AddBlockData | misc/library/libcoap/src/block.c:128-139 | adds the chunk of the block, or nothing from beyond the end |
| BlockDownload.RespondInto | src/c/main/coap-broker.c:326-362 | the response is written as the specification of the block part says |
| BlockDownload.RespondCodes | src/c/main/coap-broker.c:326-354 | 4.00 exactly for a block from beyond the end, 5.00 exactly when not even 16 bytes of a longer rest fit, 2.05 otherwise |
| BlockDownload.UnaskedServed | src/c/main/coap-broker.c:355-362 | without a block asked for, a listing that fits goes out whole, and of a longer one block 0 with as much as fits up to 1024 bytes |
| BlockDownload.RefusedStops | misc/library/libcoap/examples/client.c:364-424 | a client that is refused stops and keeps what it has |
| BlockDownload.DownloadClient.Handle | misc/library/libcoap/examples/client.c:364-424 | the client appends the payload and asks for the next block at the size it was given |
| BlockDownload.ServeBlock | src/c/main/coap-broker.c:329-354 | a served block starts where it was asked for and carries the next bytes |
| BlockDownload.ExchangeStep | misc/library/libcoap/examples/client.c:364-424 | one exchange moves on by the due bytes, at least 16 unless the body ends, and appends them unless lost |
| BlockDownload.StepKeeps | misc/library/libcoap/examples/client.c:364-424 | every exchange keeps the run's invariant and makes progress |
| BlockDownload.DownloadCompletes | misc/library/libcoap/examples/client.c:364-424 | every long enough run whose block numbers stay within 20 bits ends, with exactly the data if and only if nothing was lost |
| BlockDownload.BodiesNumbered | misc/library/libcoap/src/block.c:53-66 | bodies of up to 16 MiB never need a larger number, whatever the room |
| BlockDownload.SmallDownload | misc/library/libcoap/examples/client.c:364-424 | bodies of up to 64 KiB always arrive whole |
| BlockDownload.BrokerIsRoomy | misc/library/libcoap/src/net.c:1432-1442 | behind any token and Content-Format the broker's response has room for 1024 bytes, the option and one byte more |
| BlockDownload.SpaciousDownload | src/c/main/coap-broker.c:326-362 | with such room every download of up to 2^20 blocks arrives whole |
| BlockDownload.LossPossible | misc/library/libcoap/src/block.c:94-107 | every run from offset 0 with 20 bytes of room per response over more than 64 KiB and 16 bytes ends with a block lost and the wrong output |
| BlockDownload.NumberTooLarge | misc/library/libcoap/src/block.c:53-66 | the server takes a number of 21 bits for no option |
| BlockDownload.ServedOnWire | src/c/main/coap-broker.c:329-354 | parsing the bytes of the response gives a message whose Block2 option and payload are this block and chunk |
| BlockDownload.DownloadOnWire | misc/library/libcoap/examples/client.c:364-424 | a client that is handed only bytes ends with exactly the listing if and only if no block was lost |
| BlockUpload.UploadClient.Handle | misc/library/libcoap/examples/client.c:428-495 | client and next request change as Receive and Request say |
| BlockUpload.UploadClient.constructor | misc/library/libcoap/examples/client.c:780-797 | starts at block 0 with M exactly when the payload is longer than a block |
| BlockUpload.RenegotiateKeeps | misc/library/libcoap/examples/client.c:432-446 | a change of size keeps the end of what was sent and is refused exactly when that is not aligned |
| BlockUpload.StepKeeps | misc/library/libcoap/examples/client.c:428-495 | every answer ends the upload or is followed by the next 16 bytes at least |
| BlockUpload.UploadCompletes | misc/library/libcoap/examples/client.c:428-509 | every long enough run ends, with exactly the payload if and only if the Block1 option and the chunk fitted in every request |
| BlockUpload.RequestOnWire | misc/library/libcoap/examples/client.c:466-493 | parsing the bytes of a request gives its block value and the chunk it carries, or no block at all exactly when the option did not fit |
| BlockUpload.UploadOnWire | misc/library/libcoap/examples/client.c:428-509 | a server that is handed only bytes puts together exactly the payload if and only if nothing was lost, whether it joins the chunks or places them by their numbers |
| BlockUpload.SpaciousUpload | misc/library/libcoap/examples/client.c:428-509 | with sizes up to 1024 and room for them nothing is lost |
| BlockUpload.ReservedSizeLoses | misc/library/libcoap/examples/client.c:428-438 | size exponent 7 loses every full block |
| TopicLists.TopicList.Seek | src/c/LinkedListDB.c:10-56 | the lock-coupled search finds the first node with the path and holds only its lock |
| TopicLists.TopicList.GetTopic | src/c/LinkedListDB.c:10-56 | the node of the topic, all locks free again |
| TopicLists.TopicList.CloneTopic | src/c/LinkedListDB.c:59-173 | a copy of the topic's entry |
| TopicLists.TopicList.SetTopic | src/c/LinkedListDB.c:289-320 | overwrites that entry and no other |
| TopicLists.TopicList.AddTopic | src/c/LinkedListDB.c:330-399 | appends the path cut to its size; refuses an empty one |
| TopicLists.TopicList.AddTopicWEC | src/c/LinkedListDB.c:401-414 | updates the entry or appends it |
| TopicLists.TopicList.DeleteTopic | src/c/LinkedListDB.c:415-484 | unlinks the first node with the path; no held lock is destroyed |
| TopicLists.TopicList.DeleteTopicData | src/c/LinkedListDB.c:486-502 | clears data and data expiry of that entry |
| TopicLists.TopicList.UpdateTopicInfo | src/c/LinkedListDB.c:504-522 | changes the topic expiry of that entry |
| TopicLists.TopicList.UpdateTopicData | src/c/LinkedListDB.c:526-538 | changes data and data expiry of that entry |
| TopicLists.TopicList.CleanDB | src/c/LinkedListDB.c:579-596 | empties the list, each node freed with its locks free |
| TopicLists.Node.Store | src/c/LinkedListDB.c:295-316 | writes data and times and leaves both locks as it found them |
| TopicLists.Node.Erase | src/c/LinkedListDB.c:489-498 | clears the data and leaves both locks as it found them |
| TopicLists.TopicList.Parted | src/c/LinkedListDB.c:460-479 | without its k-th node the list is still a sound one |
| Topics.PutRefines | src/c/LinkedListDB.c:289-320 | setTopic is the map update of an existing key and keeps paths and order |
| Topics.NewDataRefines | src/c/LinkedListDB.c:526-538 | updateTopicData keeps the topic's own expiry |
| Topics.InfoRefines | src/c/LinkedListDB.c:504-522 | updateTopicInfo keeps the data exactly when they are not the empty string |
| Topics.WithoutDataRefines | src/c/LinkedListDB.c:486-502 | deleteTopicData changes only data and data expiry of one key |
| Topics.WithoutRefines | src/c/LinkedListDB.c:415-484 | deleteTopic removes one key and keeps the order of the rest |
| Topics.AppendRefines | src/c/LinkedListDB.c:330-399 | addTopic keeps paths distinct exactly when the stored path is new or none is stored |
| LinkFormat.OptionValidation | src/c/LinkFormatParser.c:4-15 | 1 exactly for texts with one equals sign inside |
| LinkFormat.ParseOption | src/c/LinkFormatParser.c:17-70 | the attribute of an item, or none exactly for what is no item |
| LinkFormat.ParsePath | src/c/LinkFormatParser.c:72-101 | the path between the brackets, or none |
| LinkFormat.ParseLinkFormat | src/c/LinkFormatParser.c:144-209 | the resource below the parent with the attributes of the link, or none |
| LinkFormat.ParsePrint | src/c/LinkFormatParser.c:144-209 | printing any well-formed link and parsing it gives it back |
| LinkFormat.PrintParse | src/c/LinkFormatParser.c:144-209 | what is accepted is well formed and prints back to the input |
| LinkFormat.Accepts | src/c/LinkFormatParser.c:144-209 | the accepted texts are exactly the printed well-formed links |
| LinkFormat.FindLastGiven | misc/library/libcoap/src/resource.c:314-363 | of several attributes with one name the last one given is found |
| BrokerRequests.ReadRequest | src/c/main/coap-broker.c:412-438 | iterating over a received PDU and taking its data yields exactly the options and the payload of its message |
| Brokers.FirstTwo | src/c/main/coap-broker.c:412-438 | the values of the first option of each of two kinds |
| Brokers.CheckFormat | src/c/main/coap-broker.c:464-483 | exactly the digit strings whose integer is a content format |
| Brokers.CountDigits | src/c/main/coap-broker.c:835-842 | as many digits as the printed counter has |
| Brokers.Broker.Examine | src/c/main/coap-broker.c:386-508 | the outcome of a POST in the order of the checks |
| Brokers.Broker.Post | src/c/main/coap-broker.c:379-555 | state and response after a POST, for both handlers |
| Brokers.AnswerTopic | src/c/main/coap-broker.c:651-692 | the options, the code and the data are added to the response in memory one by one, and what does not fit is left out |
| Brokers.Broker.Get | src/c/main/coap-broker.c:567-695 | the response in memory after a GET or for a notification: code, and of the reply whatever fits; the state is unchanged |
| Brokers.Broker.Put | src/c/main/coap-broker.c:697-793 | state and response after a PUT; BrokerAnswers.PutStored and PublishThenRead say what that stores and until when |
| Brokers.Broker.Delete | src/c/main/coap-broker.c:795-852 | the topics that fall are gone with their resources; the response is the one that BrokerWire.DeleteOnWire reads |
| Brokers.Broker.Arrive | src/c/main/coap-broker.c:1192-1220 | an MQTT message changes the state as BrokerAnswers.ArrivalStores says |
| Brokers.Broker.DataMonitor | src/c/main/coap-broker.c:1036-1085 | state after the data monitor, the locks free again |
| Brokers.Broker.TopicMonitor | src/c/main/coap-broker.c:1087-1151 | state after the topic monitor, the locks free again |
| Brokers.Broker.RemoveTopic | src/c/main/coap-broker.c:1111-1129 | the locks of an expired topic are given back exactly when the table has its resource |
| Brokers.WithoutDrop | src/c/main/coap-broker.c:815-826 | deleting the topics one by one in any order leaves the same list |
| BrokerRuns.PostKeeps | src/c/main/coap-broker.c:501-544 | POST keeps the invariant |
| BrokerRuns.PutKeeps | src/c/main/coap-broker.c:771-792 | PUT keeps the invariant |
| BrokerRuns.DeleteKeeps | src/c/main/coap-broker.c:802-827 | DELETE keeps the invariant |
| BrokerRuns.ArrivalKeeps | src/c/main/coap-broker.c:1196-1214 | an MQTT arrival keeps the invariant |
| BrokerRuns.SweepKeeps | src/c/main/coap-broker.c:1046-1072 | the new cached time may leave out the old value, as whatever carried it goes in the same pass |
| BrokerRuns.DataMonitorKeeps | src/c/main/coap-broker.c:1036-1085 | the data monitor keeps the invariant, whether it scans or not |
| BrokerRuns.TopicMonitorKeeps | src/c/main/coap-broker.c:1087-1151 | the topic monitor keeps the invariant, whether it scans or not |
| BrokerRuns.StepKeeps | src/c/main/coap-broker.c:188-203 | every event keeps agreement, sound cached times and usable content formats |
| BrokerRuns.RunKeeps | src/c/main/coap-broker.c:188-203 | the invariant holds in every state of every run |
| BrokerTheorems.NeverNotFound | src/c/main/coap-broker.c:641-648 | GET and PUT on a topic resource never answer 4.04 and find the ct attribute they read |
| BrokerTheorems.CreatedMeansNew | src/c/main/coap-broker.c:526-543 | 2.01 exactly when a topic is added, which was not there |
| BrokerTheorems.DataMonitorClears | src/c/main/coap-broker.c:1043-1072 | no data that had expired on entry are left, no others are touched, also when the scan is skipped |
| BrokerTheorems.TopicMonitorRemoves | src/c/main/coap-broker.c:1094-1138 | no topic that had expired on entry is left nor its resource, and no other goes |
| BrokerTheorems.TurnClears | src/c/main/coap-broker.c:188-203 | after both monitors nothing is left that had expired when they started |
| BrokerTheorems.EagerExpiryInvisible | src/c/main/coap-broker.c:651-692 | a GET is answered alike whether the data monitor ran before it or not |
| BrokerTheorems.ContentIsFresh | src/c/main/coap-broker.c:667-691 | the handler means a 2.05 to carry the stored data, not expired, and exactly the time left; BrokerWire.ContentOnWire says what goes out |
| BrokerTheorems.DeleteRemoves | src/c/main/coap-broker.c:802-827 | the topics left are exactly those other than u whose path does not contain u/ |
| BrokerTheorems.DeletesSubtreeExactly | src/c/main/coap-broker.c:815-826 | exactly the subtree goes if and only if every path that contains u/ starts with it |
| BrokerTheorems.SubtreeWhenPrefixIsUnique | src/c/main/coap-broker.c:815-826 | paths with "ps/" only at the start rule the other case out |
| BrokerTheorems.SubstringGoesToo | src/c/main/coap-broker.c:816 | a run from the empty broker that posts ps/a and ps/ops/a/b and deletes ps/a; the other topic, outside its subtree, is gone |
| BrokerAnswers.DecimalOfText | src/c/main/coap-broker.c:835-845 | the text of a number is digits without a leading zero, and its decimal value is the number |
| BrokerAnswers.FormatOfText | src/c/main/coap-broker.c:464-483 | a ct attribute with the text of a number names that format, and is accepted exactly up to 65535 |
| BrokerAnswers.OtherText | src/c/main/coap-broker.c:464-483 | a ct attribute with any character but a digit is refused |
| BrokerAnswers.FormatWraps | src/c/main/coap-broker.c:464-483 | a number 2^32 larger names the same format |
| BrokerAnswers.GetDecides | src/c/main/coap-broker.c:591-692 | for which requests and entries a GET is answered 4.00, 4.15, 4.04, 2.04 and 2.05 |
| BrokerAnswers.GetReads | src/c/main/coap-broker.c:651-692 | what a GET in the topic's format makes of an entry: the data, the time left and the observe counter |
| BrokerAnswers.PutDecides | src/c/main/coap-broker.c:733-765 | a PUT is refused with 4.00 or 4.15 exactly without the content format or with another one, and taken otherwise |
| BrokerAnswers.PutStored | src/c/main/coap-broker.c:718-774 | a PUT that is taken stores its payload until its Max-Age has passed and keeps the topic's own expiry; nothing else changes, and a refused one changes nothing |
| BrokerAnswers.PublishThenRead | src/c/main/coap-broker.c:651-774 | data published are read by a later GET exactly until their Max-Age has passed, with the time left, and without a Max-Age for ever |
| BrokerAnswers.PublishNothing | src/c/main/coap-broker.c:651-774 | after a PUT without payload a GET is answered 2.04 |
| BrokerAnswers.PutElsewhere | src/c/main/coap-broker.c:771-774 | a PUT changes no other topic's answers, and a refused one none at all |
| BrokerAnswers.ArrivalStores | src/c/main/coap-broker.c:1196-1214 | other data that arrive replace those there and never expire; the same data change nothing; no other topic is touched |
| BrokerAnswers.ArrivalThenRead | src/c/main/coap-broker.c:1196-1214 | a later GET reads data that arrived, without a Max-Age, and is answered as before if they were there already |
| BrokerAnswers.ExpiredStays | src/c/main/coap-broker.c:1203-1205 | the arrival of the very data that have expired does not bring them back |
| BrokerAnswers.LinkDescribes | src/c/LinkFormatParser.c:102-209 | a POST of a printed link describes the resource of that path below its parent with the link's attributes, the last one first |
| BrokerAnswers.PostDecides | src/c/main/coap-broker.c:442-555 | for which requests a POST is answered 4.00, 4.06, 4.03 and 2.01; the first two change nothing |
| BrokerAnswers.PostStored | src/c/main/coap-broker.c:501-544 | a POST makes the topic, without data and until its Max-Age has passed, or gives the one there that expiry and drops its empty data; no other topic changes |
| BrokerAnswers.PostedTopicLives | src/c/main/coap-broker.c:1087-1151 | a posted topic goes in the first pass of the topic monitor that starts after its Max-Age, and stays in every pass that ends by then |
| BrokerAnswers.NextDataLeast | src/c/main/coap-broker.c:1046-1072 | the next cached time is the least expiry time but for none and the old one |
| BrokerAnswers.NextTopicLeast | src/c/main/coap-broker.c:1097-1138 | the same for the topics' own expiry times |
| BrokerWire.SentReads | src/c/main/coap-broker.c:651-692 | the client reads exactly the options and the payload that went in, which is the whole reply if and only if there is room for it |
| BrokerWire.AnswerArrives | src/c/main/coap-broker.c:651-692 | an answer to a GET is read by the client as it was meant if and only if header, token, options and payload fit in the response |
| BrokerWire.ContentOnWire | src/c/main/coap-broker.c:667-691 | a client reads off a 2.05 the content format, exactly the time left, and the stored data exactly when they fit, or else no payload |
| BrokerWire.ContentLost | src/c/main/coap-broker.c:667-691 | a run from the empty broker whose PUT fits in a datagram and whose data are missing in the 2.05 |
| BrokerWire.BufferSuffices | src/c/main/coap-broker.c:571-686 | every option value of the answer fits in the handler's three bytes exactly when the observe counter and the Max-Age left, where sent, are below 2^24 |
| BrokerWire.CreatedArrives | src/c/main/coap-broker.c:539-542 | path and phrase of a new topic are read back exactly when both fit and the path is not 269 bytes long |
| BrokerWire.PathMissing | src/c/main/coap-broker.c:539-542 | a path that does not fit is left out of a reply that still says 2.01 |
| BrokerWire.PlainArrives | src/c/main/coap-broker.c:733-765 | code and phrase of an answer without options reach the client |
| BrokerWire.CountReads | src/c/main/coap-broker.c:828-852 | the answer to a DELETE is 2.02 exactly for a positive count, with one empty content format and the count in decimal digits |
| BrokerWire.DeleteOnWire | src/c/main/coap-broker.c:795-852 | in every state that keeps the invariant a client reads 2.02 off the answer to a DELETE, and how many topics are gone |

## Left out

- Sockets, select, addresses, logging, signals, usage text, shutdown (lines 205-235 of `coap-broker.c`, the DELETE handler of the broker resource): input and output.
- MQTT subscriptions, publications and the bridge's start; an arrival is a message for a topic, since only topics are subscribed to.
- Interleavings of threads on the topic list; the locks are modelled for one thread, and their preconditions are what lets one thread go on.
- Allocation failures and freeing, in particular that POST with a wrong content format frees a resource that was never made when the payload is malformed as well.
- The resource table is a map by URI; hash keys, and the loops that look one URI up in it, are lookups. A loop over the whole table goes in any order.
- The query filter and the listing text of the broker's GET handler; the block part serves any text.
- Resources of the resource directory are the event Elsewhere, an arbitrary change of resources that are no topics.
- For the broker's handlers observers are a flag and the observe counter a parameter; `coap_check_notify` sends what BrokerTheorems and Brokers.Broker.Get describe and changes no modelled state. In a run of the send queue observers come and go by the event Observe, in any way.
- `coap_add_option_later`, Block1 on the server side, well-known listings, `uri.c`, and the lwIP and Contiki variants.
- The C++ port, whose monitors are switched off.
- Strings are sequences without their terminator; `CString` cuts at the first NUL where the code copies with `%s`.
- Reads before the first byte of a buffer: where the code compares such a byte and then refuses the input for another reason, the model refuses it.
- Encoding into the three-byte buffers of the GET handler: values are taken as encoded in full, which BrokerWire.BufferSuffices shows to be so exactly below 2^24.
- Clock readings are parameters that do not decrease, and Retransmission.Play starts at or after the base time; ticks of the send queue do not overflow.
- The occupied-slot mask of an option filter is two arrays of bits, for the long and the short slots.
- A class method may be split into several; the rows above name the part that models the cited lines.
- LinkFormat.ParseOption: a value of one lone quote makes the code write before its buffer; the model refuses such an item.
- Brokers.CheckFormat: `atoi` is taken as the GNU C library has it, strtol cut to 32 bits.
- SendQueue.Queue.AdjustBasetime: states exactly when deadlines are kept, not that they are, because the code stores the time elapsed.
- BlockDownload.DownloadCompletes: for runs whose block numbers stay within 20 bits, which NumberTooLarge shows to be the last that the server accepts; BodiesNumbered and SpaciousDownload say which lengths that covers. Responses have at least 16 bytes for data beside the 4 that `coap_write_block_opt` sets aside.
- BlockUpload.UploadCompletes: for payloads whose length leaves room for one more block below 2^32, as the client's arithmetic is 32 bits wide.
- BrokerWire.CountReads: the count is stated for less than 2^31 topics, the range of the handler's counter; beyond it the counter would wrap.
- Brokers.Broker.Arrive: for names that are topics; for a resource that is none the code would read through a null pointer.
- Brokers.Broker.ScanTopics: needs the agreement of list and table; without it RemoveTopic shows the locks that stay held.
