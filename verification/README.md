# Verification model of the CoAP stack and three companion cores

The project models, in Dafny, the parts of the repository that carry its hardest logic, and proves what they keep.

* **The CoAP message object** (`CoapPDU`, RFC 7252). It is one byte buffer that is built and rewritten in place. The
  model is a class over an array; a pointer is a position together with the block it points into, a reallocation keeps
  the block or moves to another, and the host is little-endian. The specification is a list of records (delta, value) and its encoding. `addOption` opens a
  gap, re-bases the delta of the option behind it and writes the new option into the gap; the model proves that this
  leaves exactly the encoding of the record list with one insertion, that a run of insertions is the stable sort of the
  calls, that the two parsers invert the encoding, and that `validate` decides the grammar of section 3.1 when nothing is
  narrowed to 16 bits. `Bytes.dfy`, `OptionCodec.dfy`, `OptionList.dfy`, `Grammar.dfy` and `CoapPdu.dfy` hold this part;
  `Narrowing.dfy` what larger deltas and lengths do to `validate`; `Uri.dfy` and `UriRoundTrip.dfy` the URI splitter and
  printer; `Exchange.dfy` sending and receiving a whole message; `Boundaries.dfy` runs at which the object departs from
  its documentation.
* **The client above it.** `BlockOption.dfy` is the Block2 codec (RFC 7959), `Packages.dfy` the client's packages and the
  messages they are sent as, `ClientList.dfy` the linked list of requests in flight with its head and tail,
  `Requests.dfy` what a package's options arrive as and a request from the input loop to the server, `ClientReceive.dfy`
  the receive routine with its acknowledgement, `BlockTransfer.dfy` the runs of the client as a state machine and the
  block-wise transfer.
* **String search, split and replace** (`Strings.dfy`), **the YUV420 conversion of four layouts** (`Yuv.dfy`) and **the
  message queue of a session** between the threads that put messages and the worker (`WorkerQueue.dfy`).

How the main results fit together: the method on the array equates the new state with a function of the old one
(`AddOption` with `AddRecord`, `Validate` with `Scan`, `GetOptions` with `Walk`, `HandleAck` with `OnAck`, `SetURI` with
`UriCalls`, `GetURI` with `PrintUri`, `Yuv420ToRgb` with `Rows`), and lemmas prove what the source promises about those
functions. A ghost field of an object (`recs`, `payload`, `list`, `nodes`) is tied to its bytes or nodes by `Valid` or
`Linked`.

Where the code does less than its documentation says, the model follows the code and states when it does the rest:

* `insertOption` copies the value by a length that it has already reduced by 269, so a value arrives whole exactly when
  it is shorter than 269 bytes (`ValueStoredIffShort`).
* `addOption` overwrites `_maxAddedOptionNumber` before it knows whether the option fits. It inserts correctly exactly
  when that field is the last number or is not consulted (`AddRecordInsertsIffTracked`); a failed call breaks this
  (`FailedAddMisnumbersTheNext`), exactly when its number was above the last (`AddToRun`).
* `mallocPayload` does not take its pointer to an existing payload anew when the reallocation moves the block, and
  `setPayload` copies through it. From a valid object the pointer stays good unless an existing payload was resized and
  the block moved (`SetPayload`); with a stale pointer the value arrives, whatever the memory held, exactly when it is a
  prefix of the old payload (`PayloadArrivesIff`, `ResizedPayloadIsLost`).
* `setToken` keeps the old PDU length in eight bits. Its shift stays inside the buffer exactly up to 255 bytes
  (`TokenShiftInsideIffShort`); above, a failing call in a full fixed buffer stores the cut length (`SetToken`). A token of
  more than eight bytes is stored and reported as success, but its length is not set (`TokenSetIffShort`).
* `addOption` with a number not below the maximum appends behind an existing payload, where the option is read as more
  payload; any other number goes to its place, but the pointer to the payload stays where it was, so the object stays
  valid exactly when neither the block nor the length changed (`AddOption`). The size of the option is added up in 16
  bits, which is exact for every delta up to 65530 bytes (`OptionSizeExactIff`).
* `validate` narrows extended deltas and lengths to 16 bits, while section 3.1 of RFC 7252 allows up to 65804. It decides
  the grammar when none is narrowed (`ScanDecidesGrammar`), and an option is judged right behind every header exactly
  when neither of its values is narrowed (`JudgedRightIffUnwrapped`). Otherwise it can accept what is no message
  (`NarrowedLengthIsAccepted`), reject a message (`NarrowedDeltaIsRejected`), and let bytes behind the PDU decide
  (`BytesBehindDecide`).
* `getOptionValueById` copies without knowing the room: the copies stay inside exactly when all options of the number fit
  (`GetOptionValueById`), ten bytes for Block2 and a hundred for the Uri-Path of any received message (`RecvResolve`).
* `setURI` drops a part of one character at the end. For a URI of non-empty parts the round trip holds exactly when it
  does not have a single one-character query (`UriSurvivesIff`). For a URI of one character it reports success also when
  the option did not fit (`SetOneThenGet`).
* The renewed message ID of a request is not checked: it stays unique exactly when no other request holds the value of
  the counter (`RenewalKeepsDistinctIff`), which is so until the counter wraps (`RunKeepsFresh`).
* The Block2 codec inverts exactly on 20-bit numbers (`BlockRoundTripIff`).
* The colour conversion accepts odd sizes. The interleaved layouts then read behind the buffer, exactly unless width and
  height are even (`InterleavedReadsInsideIff`, `OddWidthReadsBehind`); the planar ones do so for most odd heights
  (`PlanarReadsInsideIff`).
* `yuv_lenght_check` computes in 32 bits and is exact exactly when the size fits (`LengthCheckExactIff`).
* The worker waits only on the condition, not on the queue: messages stay behind exactly when more signals were lost than
  messages cleared and spurious wake-ups together (`StrandedIff`), and a wake-up kills the worker exactly when there were
  more spurious ones than signals lost and not cleared (`PopMeetsEmptyQueueIff`).
* An input line with an unknown method takes an ID and leaves an item in the list that is never sent (`NewRequest`).

## Model

| member | source | states |
|---|---|---|
| Bytes.MasksReadNibbles | C_Cpp/cdemo/coap/mbtk_coap.cpp:1324-1372 | the masks and shifts that read the two nibbles of a header byte are its quotient and remainder by 16 |
| Bytes.MasksReplaceNibble | C_Cpp/cdemo/coap/mbtk_coap.cpp:1438-1518 | the masks that replace one nibble leave the other |
| Bytes.MasksHeader | C_Cpp/cdemo/coap/mbtk_coap.cpp:640-700 | the masks for version and type read and replace their bits of the first byte and no others |
| Bytes.MasksLoad16 | C_Cpp/cdemo/coap/mbtk_coap.h:24-26 | `endian_load16` in 16-bit arithmetic is the number in network order |
| Bytes.MasksStore16 | C_Cpp/cdemo/coap/mbtk_coap.h:44-45 | `endian_store16` on a little-endian host leaves the high octet first |
| Bytes.LoadStore16 | C_Cpp/cdemo/coap/mbtk_coap.h:24-45 | storing and loading a word invert each other in both directions |
| OptionCodec.ReadEncoded | C_Cpp/cdemo/coap/mbtk_coap.cpp:1324-1372 | at an encoded record the readers return its delta, length, size and value |
| OptionCodec.HeaderVectors | C_Cpp/cdemo/coap/mbtk_coap.cpp:1469-1515 | option headers on both sides of the boundaries 13 and 269, byte by byte (section 3.1 of RFC 7252) |
| OptionCodec.EncodeRead | C_Cpp/cdemo/coap/mbtk_coap.cpp:1324-1372 | conversely, bytes without a reserved nibble or a narrowed value are the encoding of what the readers return |
| OptionCodec.TotalIsGrammarSizeIffUnwrapped | C_Cpp/cdemo/coap/mbtk_coap.cpp:310-335 | the size the loops step by is the grammar's exactly when neither extended value is narrowed |
| OptionCodec.Rebase | C_Cpp/cdemo/coap/mbtk_coap.cpp:1049-1069 | rewriting only the delta part of a record yields the record with the new delta; length nibble, extended length and all that follows survive |
| OptionCodec.RebaseInPlace | C_Cpp/cdemo/coap/mbtk_coap.cpp:1049-1069 | the same in the buffer: the moved header of the next option lands directly behind the gap and nothing in front changes |
| OptionCodec.EncodeSplit | C_Cpp/cdemo/coap/mbtk_coap.cpp:1382-1417 | the encoding of a list splits at every record |
| OptionList.OptionsInjective | C_Cpp/cdemo/coap/mbtk_coap.cpp:910-953 | different record lists denote different option lists |
| OptionList.RoomForInsertion | C_Cpp/cdemo/coap/mbtk_coap.cpp:1024-1046 | the next option's extra bytes shrink, and by no more than the new option brings, so the space asked for is never negative |
| OptionList.InsertRecordAt | C_Cpp/cdemo/coap/mbtk_coap.cpp:1382-1417 | inserting at the position the search finds is the insertion into the delta list |
| OptionList.InsertRecordInserts | C_Cpp/cdemo/coap/mbtk_coap.cpp:966-1096 | insertion into the delta list is insertion into the option list behind every option with a number not above the new one; all others keep absolute number and value |
| OptionList.AddRecordInsertsIffTracked | C_Cpp/cdemo/coap/mbtk_coap.cpp:982-1018 | what `addOption` leaves is that insertion exactly when `_maxAddedOptionNumber` is the last number or is not consulted |
| OptionList.AddRecordKeepsMax | C_Cpp/cdemo/coap/mbtk_coap.cpp:982-1018 | after a successful call the field is again the last number |
| OptionList.StableSortUnique | C_Cpp/cdemo/coap/mbtk_coap.cpp:957-961 | a list sorted by number with the same options in the same order within each number is unique |
| OptionList.RunIsStableSort | C_Cpp/cdemo/coap/mbtk_coap.cpp:957-1096 | any run of successful calls from an empty PDU leaves the stable sort of the calls, and the field is its last number |
| OptionList.RunsAgreeIff | C_Cpp/cdemo/coap/mbtk_coap.cpp:957-1096 | two runs leave the same records exactly when they make the calls of each number in the same order |
| OptionList.DistinctNumbersAnyOrder | C_Cpp/cdemo/coap/mbtk_coap.cpp:957-961 | options of distinct numbers added in any order give the same bytes |
| OptionList.AddAllCounts | C_Cpp/cdemo/coap/mbtk_coap.cpp:1015-1096 | each successful call adds one option |
| OptionList.PrefixIsShorter | C_Cpp/cdemo/coap/mbtk_coap.cpp:1024-1046 | no call makes the options shorter, so the first calls of a run need no more room than more of them |
| OptionList.FittingIsLongest | C_Cpp/cdemo/coap/mbtk_coap.cpp:440-502 | a run that stores calls up to the first that does not fit stores exactly those first calls whose result fits |
| OptionList.AddAllShape | C_Cpp/cdemo/coap/mbtk_coap.cpp:1469-1515 | the room a run needs depends on the numbers and lengths of its options alone, so also where values of 269 bytes and more are not copied whole |
| Grammar.ScanEncoded | C_Cpp/cdemo/coap/mbtk_coap.cpp:254-350 | every encoding of records and payload is accepted with their count and length, whatever follows it |
| Grammar.ScanSound | C_Cpp/cdemo/coap/mbtk_coap.cpp:254-350 | an accepted PDU without narrowed values is the encoding of some records and payload |
| Grammar.ScanDecidesGrammar | C_Cpp/cdemo/coap/mbtk_coap.cpp:254-350 | whenever the loop narrows nothing, it accepts exactly the option parts of section 3.1 of RFC 7252, with deltas and lengths of up to 65804 |
| Grammar.ScanDecidesEncoded | C_Cpp/cdemo/coap/mbtk_coap.cpp:254-350 | on every input: the bytes are the encoding of 16-bit records and a payload if and only if the loop accepts and narrows nothing, if and only if they are in the grammar and nothing is narrowed |
| Grammar.WellFormedInside | C_Cpp/cdemo/coap/mbtk_coap.cpp:254-350 | the grammar depends only on the bytes of the PDU |
| Grammar.ScanIgnoresRest | C_Cpp/cdemo/coap/mbtk_coap.cpp:254-350 | without narrowed values the verdict does not depend on bytes behind the PDU |
| Narrowing.NarrowedLengthIsAccepted | C_Cpp/cdemo/coap/mbtk_coap.cpp:1324-1350 | fifteen bytes whose only option claims 65549 bytes of value are accepted |
| Narrowing.NarrowedDeltaIsRejected | C_Cpp/cdemo/coap/mbtk_coap.cpp:1357-1372 | one option of delta 65536 and no value is in the grammar and rejected |
| Narrowing.JudgedRightIffUnwrapped | C_Cpp/cdemo/coap/mbtk_coap.cpp:305-345 | for every option header: acceptance agrees with the grammar in all PDUs that begin with it and narrow nothing behind it if and only if neither value of the header is narrowed |
| Narrowing.BytesBehindDecide | C_Cpp/cdemo/coap/mbtk_coap.cpp:310-335 | with narrowed values two buffers that differ only behind the PDU get different verdicts |
| Grammar.WalkDecodes | C_Cpp/cdemo/coap/mbtk_coap.cpp:910-953 | the second walk recovers from an encoding the options with absolute number and value |
| Grammar.AcceptedIsConserved | C_Cpp/cdemo/coap/mbtk_coap.cpp:254-350 | after any acceptance, narrowed values included, the walk's options lie end to end from the token, and header, options, marker and payload add up to the PDU length |
| Grammar.ReadingUnique | C_Cpp/cdemo/coap/mbtk_coap.cpp:910-953 | an option part has one reading |
| CoapPdu.ValueStoredIffShort | C_Cpp/cdemo/coap/mbtk_coap.cpp:1500-1517 | a value is stored whole, whatever the buffer held, exactly when it has fewer than 269 bytes |
| CoapPdu.StoresIff | C_Cpp/cdemo/coap/mbtk_coap.cpp:1500-1517 | which bytes of a value are stored: all below 269 bytes, all but the last 269 from there on |
| CoapPdu.TokenShiftInsideIffShort | C_Cpp/cdemo/coap/mbtk_coap.cpp:736-770 | the upward shift that `setToken` computes reads inside the buffer exactly for PDUs of at most 255 bytes |
| CoapPdu.TokenSetIffShort | C_Cpp/cdemo/coap/mbtk_coap.cpp:687-694 | the stored token is the message's token, with its length in the header, exactly up to eight bytes; version and type, code, ID and all behind the old token stay |
| CoapPdu.PayloadArrivesIff | C_Cpp/cdemo/coap/mbtk_coap.cpp:1164-1201 | a copied payload is the message's payload, whatever the memory held, exactly when the pointer points into the buffer or the value is a prefix of what was there |
| CoapPdu.CoapPDU.Dynamic | C_Cpp/cdemo/coap/mbtk_coap.cpp:71-90 | a new object holds the four-byte header with version 1 and no options |
| CoapPdu.CoapPDU.FromBuffer | C_Cpp/cdemo/coap/mbtk_coap.cpp:115-143 | an object on an external buffer keeps its bytes, or starts a new message when the length is 0 |
| CoapPdu.CoapPDU.Reset | C_Cpp/cdemo/coap/mbtk_coap.cpp:166-181 | an empty message with version 0 |
| CoapPdu.CoapPDU.SetVersion | C_Cpp/cdemo/coap/mbtk_coap.cpp:645-656 | only the version bits change; versions above 3 change nothing |
| CoapPdu.CoapPDU.SetCode | C_Cpp/cdemo/coap/mbtk_coap.cpp:802-806 | only the code byte changes, to the low eight bits |
| CoapPdu.CoapPDU.SetMessageID | C_Cpp/cdemo/coap/mbtk_coap.cpp:881-887 | only bytes 2 and 3 change, to the ID in network order |
| CoapPdu.CoapPDU.ShiftPDUUp | C_Cpp/cdemo/coap/mbtk_coap.cpp:1290-1299 | the overlapping upward copy moves the block and leaves what is in front of it |
| CoapPdu.CoapPDU.ShiftPDUDown | C_Cpp/cdemo/coap/mbtk_coap.cpp:1309-1317 | the overlapping downward copy moves the block and leaves what is in front of it |
| CoapPdu.CoapPDU.GetOptionDelta | C_Cpp/cdemo/coap/mbtk_coap.cpp:1357-1372 | the delta at a position, in 16 bits |
| CoapPdu.CoapPDU.GetOptionValueLength | C_Cpp/cdemo/coap/mbtk_coap.cpp:1324-1350 | the length at a position, in 16 bits, behind the extended delta |
| CoapPdu.CoapPDU.FindInsertionPosition | C_Cpp/cdemo/coap/mbtk_coap.cpp:1382-1417 | the end of the PDU for a number not below the maximum, else the byte position of the first option numbered above the new one or of the end of the options, and the number in front of it |
| CoapPdu.CoapPDU.SetOptionDelta | C_Cpp/cdemo/coap/mbtk_coap.cpp:1438-1458 | the upper nibble and the extended delta are overwritten, nothing else |
| CoapPdu.CoapPDU.InsertOption | C_Cpp/cdemo/coap/mbtk_coap.cpp:1469-1518 | exactly the header of the option and the copied value bytes are overwritten |
| CoapPdu.CoapPDU.InsertBefore | C_Cpp/cdemo/coap/mbtk_coap.cpp:1020-1096 | the branch with a following option: space check, shift, re-basing and writing replace one record by two, in front of any payload, whose pointer is not moved |
| CoapPdu.CoapPDU.AppendOption | C_Cpp/cdemo/coap/mbtk_coap.cpp:992-1018 | the branch at the end appends one record, or, behind a payload, the same bytes to the payload |
| CoapPdu.CoapPDU.AddOption | C_Cpp/cdemo/coap/mbtk_coap.cpp:966-1096 | on success the message is the old one with the record inserted, header, token and payload bytes untouched, and the object valid if and only if it has no payload or neither block nor length changed; behind a payload a number not below the maximum lengthens the payload instead; with a fixed buffer it succeeds if and only if the result fits; on failure bytes, length and count are kept |
| CoapPdu.OptionSizeExactIff | C_Cpp/cdemo/coap/mbtk_coap.cpp:978-984 | the 16-bit size of an option is right for every delta if and only if the value has at most 65530 bytes |
| CoapPdu.CoapPDU.SetToken | C_Cpp/cdemo/coap/mbtk_coap.cpp:716-799 | a longer, shorter or equal token replaces the old one and everything behind it stays; above eight bytes it is stored while the old length nibble stays; with a fixed buffer it succeeds if and only if the result fits, and a failure changes nothing up to 255 bytes and cuts the stored length to 8 bits above |
| CoapPdu.CoapPDU.Reserve | C_Cpp/cdemo/coap/mbtk_coap.cpp:1141-1160 | a fixed buffer is only checked; a reallocation keeps the bytes in the same block or in a moved one |
| CoapPdu.CoapPDU.MallocPayload | C_Cpp/cdemo/coap/mbtk_coap.cpp:1108-1176 | room for the payload behind one marker, the old payload kept as far as it fits, everything in front unchanged; the pointer to an existing payload stays in the block it was taken from; nothing changes when it does not fit; the present length always succeeds |
| CoapPdu.CoapPDU.SetPayload | C_Cpp/cdemo/coap/mbtk_coap.cpp:1188-1204 | the message gets a payload of the length or nothing changes, with the exact condition for fixed buffers and success for the present length in any; the value arrives when the pointer points into the buffer, which from a valid object holds if and only if there was no payload before or the block did not move |
| CoapPdu.CoapPDU.HeaderAccepted | C_Cpp/cdemo/coap/mbtk_coap.cpp:192-252 | the header checks accept exactly version 1, a token length of at most 8 with room for it, and the accepted codes |
| CoapPdu.CodeOkIff | C_Cpp/cdemo/coap/mbtk_coap.cpp:233-246 | the accepted codes by class and detail |
| CoapPdu.CoapPDU.ScanOptions | C_Cpp/cdemo/coap/mbtk_coap.cpp:254-350 | the option loop reaches the specified verdict and records count and payload |
| CoapPdu.CoapPDU.Validate | C_Cpp/cdemo/coap/mbtk_coap.cpp:192-353 | it returns 1 exactly when header checks and option loop accept, and the options can then be walked; when nothing is narrowed, exactly when the bytes are a message of section 3 of RFC 7252, and the object is then valid |
| CoapPdu.CoapPDU.ReadOption | C_Cpp/cdemo/coap/mbtk_coap.cpp:928-950 | one entry of the option array |
| CoapPdu.CoapPDU.GetOptions | C_Cpp/cdemo/coap/mbtk_coap.cpp:910-953 | the entries of the specified walk |
| CoapPdu.CoapPDU.OptionsShown | C_Cpp/cdemo/coap/mbtk_coap.cpp:910-953 | on a valid object these are exactly the options of the message |
| Boundaries.FailedAddMisnumbersTheNext | C_Cpp/cdemo/coap/mbtk_coap.cpp:990-1012 | after a call that did not fit, option 100 is stored as option 0 |
| Boundaries.ResizedPayloadIsLost | C_Cpp/cdemo/coap/mbtk_coap.cpp:1141-1173 | a payload of three bytes and then one of five, both successful: the message keeps the old bytes when the buffer is no longer the block of the first call, and has the new ones when it is |
| Uri.AddToRun | C_Cpp/cdemo/coap/mbtk_coap.cpp:966-1096 | a call of `addOption` on a built PDU extends the run by one call; after a failed call the PDU is built if and only if the number is not above the last |
| Uri.TakePart | C_Cpp/cdemo/coap/mbtk_coap.cpp:447-499 | the next part of the URI, and when the splitter turns from path to query |
| Uri.AddParts | C_Cpp/cdemo/coap/mbtk_coap.cpp:440-502 | the loop makes the calls of the splitter in order and stops at the first failure; in a fixed buffer it stores exactly the first calls whose result fits |
| Uri.SetURI | C_Cpp/cdemo/coap/mbtk_coap.cpp:425-505 | the options stored are a prefix of the splitter's calls, all of them exactly on success, and in a fixed buffer exactly the longest prefix that fits behind header and token |
| Uri.PrintAll | C_Cpp/cdemo/coap/mbtk_coap.cpp:560-638 | the loop writes the printed URI of the options shown, and fails exactly when it does not fit |
| Uri.GetURI | C_Cpp/cdemo/coap/mbtk_coap.cpp:531-638 | for any accepted message: text, length and terminating zero, and the exact condition on the buffer |
| UriRoundTrip.SplitPaths | C_Cpp/cdemo/coap/mbtk_coap.cpp:425-505 | a URI of non-empty segments and queries is split into exactly these, but for a single one-character query |
| UriRoundTrip.UriOptionsAfter | C_Cpp/cdemo/coap/mbtk_coap.cpp:425-505 | added to a PDU with any other options, the URI options are the paths and then the queries, in order |
| UriRoundTrip.PrintParts | C_Cpp/cdemo/coap/mbtk_coap.cpp:531-638 | these options are printed as the URI |
| UriRoundTrip.UriSurvivesIff | C_Cpp/cdemo/coap/mbtk_coap.cpp:425-638 | the URI survives exactly when it does not have a single one-character query (sections 6.4 and 6.5 of RFC 7252) |
| UriRoundTrip.SetThenGet | C_Cpp/cdemo/coap/mbtk_coap.cpp:425-638 | the same for the two methods on one object, with length and terminating zero; in a fixed buffer the first succeeds if and only if the options fit |
| UriRoundTrip.TwoSegmentsTwoQueries | C_Cpp/cdemo/coap/mbtk_coap.cpp:425-505 | "/a/b?c&d", with its separators spelled out, becomes two Uri-Path and two Uri-Query options |
| UriRoundTrip.PathConserved | C_Cpp/cdemo/coap/mbtk_coap.cpp:425-505 | any path, with empty segments or not, is its options joined by slashes, but for a slash at its end |
| UriRoundTrip.CutAtSlash | C_Cpp/cdemo/coap/mbtk_coap.cpp:602-608 | behind a lone "/" component nothing more is printed |
| UriRoundTrip.SetOneThenGet | C_Cpp/cdemo/coap/mbtk_coap.cpp:432-438 | a one-character URI: success is reported also when the option did not fit; when it did, "/" is printed as it is and any other character behind a slash |
| Exchange.MessageRoundTrip | C_Cpp/cdemo/coap/mbtk_coap.cpp:192-353 | whatever follows an encoded message in the buffer, header checks, both walks and payload read back what was put in |
| Exchange.MessageVectors | C_Cpp/cdemo/coap/mbtk_coap.cpp:640-960 | the request and the response of Figure 16 in appendix A of RFC 7252, byte by byte |
| Exchange.HeaderOkIffHead | C_Cpp/cdemo/coap/mbtk_coap.cpp:192-252 | the header checks accept exactly the bytes that begin with header and token of some message |
| Exchange.AddInOrder | C_Cpp/cdemo/coap/mbtk_coap.cpp:966-1096 | on a built object, for a value below 269 bytes: after success the options are the old ones with the new one behind all numbered no higher, header and token untouched; otherwise bytes and options are the old ones, and the object is still built if and only if the number is not above the last |
| Exchange.SendOptions | C_Cpp/cdemo/coap/mbtk_coap_base.c:490-495 | the option loop leaves the run's records and does not touch header and token; in a fixed buffer all calls succeed exactly when the result fits |
| Exchange.Send | C_Cpp/cdemo/coap/mbtk_coap_base.c:475-500 | reset, header, token, options and payload leave exactly the bytes of the message; in a fixed buffer all of it succeeds if and only if the message fits |
| Exchange.Receive | C_Cpp/cdemo/coap/mbtk_coap_api.cpp:223-239 | a fresh object on received bytes is accepted as `validate` decides |
| Exchange.ReceiveMessage | C_Cpp/cdemo/coap/mbtk_coap_api.cpp:223-239 | bytes that read as a message are accepted, and getters, options and payload of the object are the message's; the options are the stable sort of those sent |
| Exchange.Transmit | C_Cpp/cdemo/coap/mbtk_coap_base.c:475-519 | build, transmit and parse: the received object is accepted, and its getters and options return what was put in, the options in their stable order; with a fixed buffer this is so for every message that fits |
| Exchange.SetPayloads | C_Cpp/cdemo/coap/mbtk_coap.cpp:1108-1204 | any run of payload calls leaves everything in front and behind it one marker with a payload of the length of the last accepted call, or what was there if none was; it is that call's payload while the object is valid, so always in a fixed buffer and for payloads of one length in any; in a fixed buffer a call is accepted if and only if its payload is not empty and fits, in any buffer at least when it has the present length |
| BlockOption.MasksLowByte | C_Cpp/cdemo/coap/mbtk_coap_base.c:411-433 | the masks of the last byte place number, flag and size |
| BlockOption.BlockRoundTripIff | C_Cpp/cdemo/coap/mbtk_coap_base.c:404-438 | reading a written block gives it back exactly for numbers below 2^20, a flag bit and a size below 8 (section 2.2 of RFC 7959) |
| BlockOption.BlockOnWire | C_Cpp/cdemo/coap/mbtk_coap_base.c:404-438 | the value of a block is number, flag and size as one number in network order (section 2.2 of RFC 7959) |
| BlockOption.BlockFromWire | C_Cpp/cdemo/coap/mbtk_coap_api.cpp:686-714 | a value of one to three bytes, and no other, is read as the number, flag and size of that number |
| BlockOption.EncodingShortest | C_Cpp/cdemo/coap/mbtk_coap_base.c:404-438 | no shorter value denotes the block |
| BlockOption.LastValueOfOnly | C_Cpp/cdemo/coap/mbtk_coap.cpp:1520-1540 | with one option of the number the lookup finds it |
| BlockOption.GetOptionValueById | C_Cpp/cdemo/coap/mbtk_coap.cpp:1520-1540 | for any accepted message: the copies stay inside the destination if and only if every option of the number fits; the last one is then there |
| BlockOption.GetRecvBlock2 | C_Cpp/cdemo/coap/mbtk_coap_api.cpp:686-714 | the ten-byte buffer suffices if and only if every Block2 option has at most ten bytes; the result is then the block of the last one, or nothing |
| Packages.SetOptionKeepsOthers | C_Cpp/cdemo/coap/mbtk_coap_base.c:216-288 | setting an option leaves exactly one of its kind, with the new content, and all others as they were |
| ClientList.Package.PutOption | C_Cpp/cdemo/coap/mbtk_coap_base.c:216-288 | the search changes the first option of the kind or puts a new one in front |
| ClientList.Client.GetByMsgId | C_Cpp/cdemo/coap/mbtk_coap_base.c:306-319 | the node of the first request with the ID, or null |
| ClientList.Client.ListAdd | C_Cpp/cdemo/coap/mbtk_coap_base.c:321-347 | null exactly when the ID is taken; otherwise a new node is appended and the chain stays acyclic with its tail at the end |
| ClientList.Client.ListDel | C_Cpp/cdemo/coap/mbtk_coap_base.c:349-381 | the node with the ID leaves the chain, the order of the others and the tail are right |
| ClientList.Client.SendPackage | C_Cpp/cdemo/coap/mbtk_coap_base.c:475-519 | the PDU is exactly the package's message when all of it had room, in a fixed buffer if and only if the message fits; only a package that expects no acknowledgement leaves the list |
| ClientList.Client.AskNextBlock | C_Cpp/cdemo/coap/mbtk_coap_base.c:114-121 | the request gets the counter's ID and the Block2 option with the size of the answer, its number plus one and no flag, and is sent; all else stays |
| ClientList.Client.HandleAck | C_Cpp/cdemo/coap/mbtk_coap_base.c:102-137 | the acknowledgement branch is the specified step on list, counter and sent messages, unless the ID is known and a Block2 option overruns its buffer; an answer with the flag sends the request on under the counter's ID for the next block in its size, any other sends nothing |
| ClientList.Package.Fill | C_Cpp/cdemo/coap/mbtk_coap_base.c:562-590 | type, code, payload and the three options, each in front of the others |
| ClientList.Client.NewRequest | C_Cpp/cdemo/coap/mbtk_coap_base.c:556-592 | unless the counter's ID is in use: a confirmable request under it with the caller's method and payload and the three options is appended and sent, the PDU holding it whole in a fixed buffer if and only if it fits; for an unknown method the bare item is appended and not sent |
| BlockTransfer.RenewalKeepsDistinctIff | C_Cpp/cdemo/coap/mbtk_coap_base.c:116-118 | renewing an ID keeps the IDs distinct exactly when no other request holds the counter's value |
| BlockTransfer.UnknownAckIff | C_Cpp/cdemo/coap/mbtk_coap_base.c:104-136 | an acknowledgement changes nothing exactly when its ID is unknown |
| BlockTransfer.RunKeepsFresh | C_Cpp/cdemo/coap/mbtk_coap_base.c:104-136 | over any interleaving before the counter wraps: IDs in the list are distinct and below the counter, the counter counts the IDs taken, and the messages sent carry increasing IDs, consecutive ones without unknown methods |
| BlockTransfer.InFlightWasSent | C_Cpp/cdemo/coap/mbtk_coap_base.c:475-592 | every request in flight is a message that was sent, or the item of an unknown method |
| BlockTransfer.AnswerMore | C_Cpp/cdemo/coap/mbtk_coap_base.c:114-121 | an answer with the flag set sends the next request under the counter's ID and keeps it in the list |
| BlockTransfer.AnswerLast | C_Cpp/cdemo/coap/mbtk_coap_base.c:122-131 | an answer without the flag sends nothing and retires the request |
| BlockTransfer.TransferRun | C_Cpp/cdemo/coap/mbtk_coap_base.c:102-137 | under any interleaving with other traffic and for answers of any sizes: blocks up to the last are asked for once each, in order, under fresh increasing IDs, each with one Block2 option in the size of the answer before it and the other fields kept; the request leaves the list with the answer of the last block and not before (section 2.4 of RFC 7959) |
| BlockTransfer.TransferOnWire | C_Cpp/cdemo/coap/mbtk_coap_base.c:475-519 | for fewer than 2^20 blocks, the receiver of message j of a transfer reads it as the message sent, and its Block2 option as exactly block first + j + 1, in the size of answer j and without the flag |
| Packages.BlockKeepsReady | C_Cpp/cdemo/coap/mbtk_coap_base.c:114-121 | a package the message object can hold stays one when the next block is asked for |
| Packages.CallsOfKind | C_Cpp/cdemo/coap/mbtk_coap_base.c:383-473 | the options a package adds with a number come from its options of that kind, Uri-Query aside, which a Uri-Path can make too |
| Packages.AskedBlockIsRead | C_Cpp/cdemo/coap/mbtk_coap_base.c:475-500 | a request for a block, sent with any other options, is read by the receiver as asking for exactly this block |
| Requests.NumbersArrive | C_Cpp/cdemo/coap/mbtk_coap_base.c:439-467 | of any package, Observe, Max-Age and Content-Format arrive one for one and in order, as the lowest byte of their value; Content-Format 0 arrives empty |
| Requests.BlocksArrive | C_Cpp/cdemo/coap/mbtk_coap_base.c:404-438 | of any package, Block1 and Block2 arrive one for one as number, flag and size in network order, in one, two or three bytes by the number |
| Requests.OthersAbsent | C_Cpp/cdemo/coap/mbtk_coap_base.c:383-473 | no option of another number arrives |
| Requests.QueryCalls | C_Cpp/cdemo/coap/mbtk_coap_base.c:453-457 | the Uri-Query options of a package whose path has no query arrive one for one with their text |
| Requests.PathIsPrinted | C_Cpp/cdemo/coap/mbtk_coap_base.c:458-462 | of any package with one Uri-Path and no Uri-Query, the receiver prints the path given, with its queries but for a single one of one character |
| Requests.PathAndQueriesArePrinted | C_Cpp/cdemo/coap/mbtk_coap_base.c:453-462 | of any package with a path and Uri-Query options, the receiver prints them as one URI |
| Requests.RequestIsRead | C_Cpp/cdemo/coap/mbtk_coap_base.c:556-592 | the request of an input line, in any receive buffer: type, method, ID and payload bytes, an empty Content-Format, Max-Age 1, the URI, and no other option |
| Requests.Ask | C_Cpp/cdemo/coap/mbtk_coap_base.c:556-592 | from the input loop over the wire to `getURI` of the server: when the PDU had room, exactly when it fits in a fixed buffer, the server has the method, ID and payload, and prints the URI typed, but for a single one-character query |
| ClientReceive.SendAck | C_Cpp/cdemo/coap/mbtk_coap_base.c:18-55 | when the token fits, the PDU becomes the acknowledgement byte by byte: version 1, type and token length, 2.04 exactly for POST and PUT and 0.00 otherwise, the message ID in network order, the token, and nothing behind it; in a fixed buffer it fits if and only if header and token do |
| ClientReceive.AckRetires | C_Cpp/cdemo/coap/mbtk_coap_base.c:93-137 | the acknowledgement of a request, in any receive buffer, is accepted and read back, and the ID read from its bytes makes its sender retire that request and no other |
| ClientReceive.HandleAccepted | C_Cpp/cdemo/coap/mbtk_coap_base.c:86-137 | copies, acknowledgement with the bytes of code, ID and token, and list step of an accepted message |
| ClientReceive.RecvResolve | C_Cpp/cdemo/coap/mbtk_coap_base.c:57-144 | for any received bytes: rejected exactly when `validate` rejects; memory is overrun exactly by a Uri-Path option above 100 bytes or, for an acknowledgement of a known ID, a Block2 option above ten; otherwise a confirmable message is acknowledged with the very bytes of its ID and token and the code for its method, an acknowledgement makes its step on the list and everything else leaves list and sender alone |
| Strings.IndexIsLeftmost | C_Cpp/cdemo/lib/m_string.c:83-102 | the index is the leftmost occurrence, and -1 means there is none |
| Strings.SplitIff | C_Cpp/cdemo/lib/m_string.c:487-523 | the pieces are the only split that joins back to the string with each separator found at its first occurrence |
| Strings.PiecesClean | C_Cpp/cdemo/lib/m_string.c:487-523 | no piece contains the separator |
| Strings.ReplaceLength | C_Cpp/cdemo/lib/m_string.c:346-346 | the replaced string has the length the code computes in advance |
| Strings.ContainsCount | C_Cpp/cdemo/lib/m_string.c:284-307 | the count is one less than the number of pieces |
| Strings.SplitByString | C_Cpp/cdemo/lib/m_string.c:487-523 | null exactly without an occurrence; otherwise the pieces with the null entry behind them, in an array of that size |
| Strings.Replace | C_Cpp/cdemo/lib/m_string.c:323-357 | the destination holds the pieces joined by the replacement, the terminating zero, and nothing else changes |
| Yuv.PlanesOfArrange | C_Cpp/cdemo/demo/yuv_demo.c:147-194 | from each of the four layouts of a picture of even sizes the conversion's positions recover the picture |
| Yuv.LayoutsAgree | C_Cpp/cdemo/demo/yuv_demo.c:147-223 | the same picture in two layouts gives identical colours from buffers of width * height * 3 / 2 bytes |
| Yuv.RowsAt | C_Cpp/cdemo/demo/yuv_demo.c:156-221 | every byte of the result by its value: for the luma byte and the two chroma bytes of the pixel, 0 for a negative sum of its channel, 255 for one above 262143, else the sum divided by 1024 |
| Yuv.MasksPickByte | C_Cpp/cdemo/demo/yuv_demo.c:218-220 | the three shift-and-mask forms all divide an 18-bit channel by 1024 |
| Yuv.ReadsInside | C_Cpp/cdemo/demo/yuv_demo.c:156-195 | at even sizes every read of every layout is inside a buffer of the checked length |
| Yuv.InterleavedReadsInsideIff | C_Cpp/cdemo/demo/yuv_demo.c:156-195 | for positive sizes: all reads of the interleaved layouts are inside a buffer of the checked length if and only if width and height are both even |
| Yuv.PlanarReadsInsideIff | C_Cpp/cdemo/demo/yuv_demo.c:156-195 | for positive sizes: those of the planar layouts are inside if and only if the height is even, the width is 2, or the width is odd and below the height |
| Yuv.SampleInside | C_Cpp/cdemo/demo/yuv_demo.c:156-195 | where the loop reads every sample of the picture, from the reads of the pixels that share it |
| Yuv.OddWidthReadsBehind | C_Cpp/cdemo/demo/yuv_demo.c:156-195 | a picture of three by two pixels passes the length check with nine bytes, and byte 9 is read |
| Yuv.ReadChroma | C_Cpp/cdemo/demo/yuv_demo.c:173-195 | the chroma read of each layout takes the sample's two bytes in the right order and steps to the next sample |
| Yuv.ConvertRow | C_Cpp/cdemo/demo/yuv_demo.c:166-221 | the inner loop writes one row, with the chroma carried from even to odd pixels, for odd widths too |
| Yuv.Yuv420ToRgb | C_Cpp/cdemo/demo/yuv_demo.c:147-223 | for every size whose reads stay inside the buffer, every output byte is that value, with luma and chroma at the places of the buffer that each of the four layouts gives them; an unknown layout writes nothing |
| Yuv.LengthCheckExactIff | C_Cpp/cdemo/demo/yuv_demo.c:334-350 | the check accepts the needed length and no other exactly when the size fits 32 bits |
| WorkerQueue.Session.Append | C_Cpp/cdemo/stanet/stanet_daemon.c:81-90 | the message is appended to the chain, which stays acyclic |
| WorkerQueue.Session.Put | C_Cpp/cdemo/stanet/stanet_daemon.c:78-94 | the put step of the interleavings, with its signal, on the linked list |
| WorkerQueue.Session.Pop | C_Cpp/cdemo/stanet/stanet_daemon.c:69-76 | the first message is unlinked |
| WorkerQueue.Session.PopWoken | C_Cpp/cdemo/stanet/stanet_daemon.c:418-419 | the step of the woken worker on the linked list: exactly the first node is unlinked and its message handled, or the null dereference exactly without one |
| WorkerQueue.Session.Clear | C_Cpp/cdemo/stanet/stanet_daemon.c:96-106 | the queue is empty |
| WorkerQueue.Session.ResetSession | C_Cpp/cdemo/stanet/stanet_daemon.c:109-127 | the reset step on the linked list, which leaves it empty |
| WorkerQueue.RunConserves | C_Cpp/cdemo/stanet/stanet_daemon.c:69-106 | over every interleaving the messages put are those gone, in order, followed by the queue, and each is handled at most once and in put order |
| WorkerQueue.HandledOrCleared | C_Cpp/cdemo/stanet/stanet_daemon.c:69-127 | over every interleaving: a message put is in the queue, or was handled, or a reset found it in the queue, and only one of these |
| WorkerQueue.WithoutResetAllHandled | C_Cpp/cdemo/stanet/stanet_daemon.c:69-94 | in a run without a reset the messages that have left the queue are exactly the first handled, in the order put |
| WorkerQueue.ResetEmpties | C_Cpp/cdemo/stanet/stanet_daemon.c:109-127 | directly behind a reset the queue is empty, and nothing else has changed |
| WorkerQueue.GoneIsHandledAndCleared | C_Cpp/cdemo/stanet/stanet_daemon.c:69-127 | the messages gone are as many as those handled and those the resets found together |
| WorkerQueue.WakeUpsBalance | C_Cpp/cdemo/stanet/stanet_daemon.c:413-421 | until the worker dies, puts and spurious wake-ups together are as many as lost signals, handled messages and the pending wake-up |
| WorkerQueue.WakeUpsHaveMessages | C_Cpp/cdemo/stanet/stanet_daemon.c:413-421 | without spurious wake-ups a pending wake-up implies a message, so no pop meets an empty queue |
| WorkerQueue.PopMeetsEmptyQueueIff | C_Cpp/cdemo/stanet/stanet_daemon.c:413-421 | over every run: the next pop meets an empty queue exactly when there were more spurious wake-ups than lost signals less the messages the resets found |
| WorkerQueue.StrandedIff | C_Cpp/cdemo/stanet/stanet_daemon.c:413-421 | over every run: a worker waits in front of a non-empty queue exactly when more signals were lost than messages found by resets and spurious wake-ups together |
| WorkerQueue.SpuriousWakeUpKills | C_Cpp/cdemo/stanet/stanet_daemon.c:413-421 | a run in which one spurious wake-up makes the worker pop from an empty queue |
| WorkerQueue.SpuriousWakeUpHandles | C_Cpp/cdemo/stanet/stanet_daemon.c:413-421 | a run in which a spurious wake-up makes up for a lost signal |

## Left out

- CoapPdu.CoapPDU.AddOption: with a payload, a number below the maximum but not below the last option is excluded: the code then takes the marker for an option. With a maximum that is the last number, or 0 as after `validate`, nothing is excluded. Lengths above 65530 are excluded, where the size computed at line 984 wraps (CoapPdu.OptionSizeExactIff), and running numbers above 16 bits. The contents of values of 269 bytes and more are left open behind the copied part, as the code leaves them.
- CoapPdu.CoapPDU.InsertBefore and CoapPdu.CoapPDU.AppendOption exclude lengths above 65530, and CoapPdu.CoapPDU.FindInsertionPosition running numbers above 16 bits, as AddOption does.
- CoapPdu.CoapPDU.SetToken: for more than 255 bytes and another token length it is stated only where the call fails before its shift; the shift would read in front of the buffer. When a payload is present the payload pointer is not moved, as in the code, so the object is then not valid. When the shortening reallocation of a dynamic buffer fails, the code has already changed the bytes; nothing is stated about them.
- CoapPdu.CoapPDU.SetPayload: writes through a stale pointer into the old block only as far as that block reaches; what the freed memory is used for is not modelled.
- CoapPdu.CoapPDU.Validate: requires two bytes of slack behind the PDU, because the code reads an extended value before it checks that it is inside.
- Grammar.ScanIgnoresRest: requires that nothing is narrowed in either buffer; Narrowing.BytesBehindDecide shows that it fails otherwise.
- Grammar.WellFormed leaves the running option number unbounded, as section 3.1 of RFC 7252 does; the code keeps it modulo 2^16.
- Exchange.Send: says nothing of the bytes after a call that fails, where the source goes on with the next one. The client's own object allocates, so this happens only for want of memory.
- Exchange.Transmit: assumes that the client's option calls succeed; the sender itself ignores their results.
- ClientList.Client.SendPackage: says nothing about the PDU when a call of the message object fails; the source sends what there is. The socket result only changes the send counter.
- ClientList.Client.HandleAck: requires packages that the message object can hold (accepted code, token of at most 8 bytes, option values below 269 bytes), which every step keeps.
- ClientList.Client.NewRequest: requires a URI below 128 bytes, the room of an option's text field; reading and splitting the input line are left out.
- ClientReceive.RecvResolve: logging is not modelled; after an overrun nothing is said. When the acknowledgement cannot be built whole, for want of memory, nothing is said of its bytes; the source sends what there is.
- BlockTransfer.TransferRun: is stated up to the wrap of the 16-bit counter; behind it renewed IDs can collide, as RenewalKeepsDistinctIff says. Loss of requests has no retransmission in the source.
- Strings.Replace: works on whole strings rather than zero-terminated memory; null pointers and lengths beyond a C int are left out.
- Yuv.Yuv420ToRgb: requires that the reads stay inside the buffer, which Yuv.InterleavedReadsInsideIff and Yuv.PlanarReadsInsideIff decide for the checked length, and an output below 2^32 bytes.
- WorkerQueue.RunConserves: the session's state machine, its sockets and the choice of a free session are left out; the steps are those of one session's mutex, condition and queue.
- Liveness of the worker: a signal before the worker waits is lost, so no statement that every message is handled holds.
- Freeing of memory; an allocation succeeds or fails without other effect.
- The Block1 reader and the integer option readers: they do not invert the writers.
- Printing (`printHuman`, `printHex`, `coapPrintHuman`), `httpStatusToCode` and log tables: constant tables and output.
- `yuv_data_parse` and `yuv_2_rgb`: their chroma strides and output order differ from the modelled conversion.
- Sockets, epoll, file input and BMP output, command-line loops.
- `str_trim`, `str_split_by_char`, case helpers and the generic list and queue: none of the modelled code calls them, and each is one loop without state between calls.
