/** Building a message the way the client sends it, and reading it in a fresh object. */
module Exchange {
  import opened Bytes
  import opened OptionCodec
  import opened OptionList
  import opened Grammar
  import opened CoapPdu
  import opened Uri

  /** What a sender puts into a message; `calls` are the options in the order they are added. */
  datatype Message = Message(kind: byte, code: byte, messageID: uint16, token: seq<byte>,
                             calls: seq<CoapOption>, payload: seq<byte>)

  predicate Sendable(m: Message) {
    && m.kind in {0x00, 0x10, 0x20, 0x30} && CodeOk(m.code) && |m.token| <= 8
    && forall o :: o in m.calls ==> |o.value| < 269
  }

  /** Header and token: version 1, type, token length, code, message ID in network order. */
  function MessageHead(m: Message): seq<byte>
    requires Sendable(m)
  {
    [0x40 + m.kind + |m.token|, m.code] + Store16(m.messageID) + m.token
  }

  /** The records the calls leave. */
  function Records(m: Message): seq<Record> { AddAll([], 0, m.calls).0 }

  /** The bytes of a message. */
  function EncodeMessage(m: Message): seq<byte>
    requires Sendable(m)
  {
    MessageHead(m) + (Encode(Records(m)) + Tail(m.payload))
  }

  /** What the getters and the two walks read from a buffer is what was put in. */
  ghost predicate Reads(s: seq<byte>, len: nat, m: Message) {
    && HDR_SIZE <= len && len + 2 <= |s| && Lower(s[0]) == |m.token| && HDR_SIZE + |m.token| <= len
    && s[0] / 64 == 1 && s[0] % 64 / 16 * 16 == m.kind && s[1] == m.code && Load16(s[2], s[3]) == m.messageID
    && At(s, HDR_SIZE, m.token)
    && HeaderOk(s[..len])
    && var start := HDR_SIZE + |m.token|;
    && Scan(s, len, start, 0) == Accept(|m.calls|, |m.payload|) && NoWrap(s, len, start)
    && |m.payload| <= len && s[len - |m.payload|..len] == m.payload
    && ReadsOptions(s, start, m)
  }

  /** The second walk shows the stable sort of the calls. */
  ghost predicate ReadsOptions(s: seq<byte>, start: nat, m: Message) {
    && Walkable(s, start, |m.calls|)
    && exists opts :: StableSortOf(opts, m.calls) && Shows(s, Walk(s, start, |m.calls|, 0), opts)
  }

  lemma HeadReads(m: Message, s: seq<byte>)
    requires Sendable(m) && MessageHead(m) <= s
    ensures |s| >= HDR_SIZE + |m.token| && Lower(s[0]) == |m.token|
    ensures s[0] / 64 == 1 && s[0] % 64 / 16 * 16 == m.kind && s[1] == m.code && Load16(s[2], s[3]) == m.messageID
    ensures At(s, HDR_SIZE, m.token)
    ensures CodeOk(m.code)
  {
    var h := MessageHead(m);
    assert h[0] == 0x40 + m.kind + |m.token| && h[1] == m.code;
    assert h[2] == Store16(m.messageID)[0] && h[3] == Store16(m.messageID)[1];
    assert h[HDR_SIZE..] == m.token;
    assert s[HDR_SIZE..HDR_SIZE + |m.token|] == h[HDR_SIZE..];
  }

  /** The request and the response of Figure 16 in appendix A of RFC 7252: GET /temperature, and "22.3 C". */
  lemma MessageVectors()
    ensures var path := [0x74, 0x65, 0x6d, 0x70, 0x65, 0x72, 0x61, 0x74, 0x75, 0x72, 0x65];
            EncodeMessage(Message(0x00, 0x01, 0x7d34, [], [Opt(11, path)], [])) == [0x40, 0x01, 0x7d, 0x34, 0xbb] + path
    ensures var text := [0x32, 0x32, 0x2e, 0x33, 0x20, 0x43];
            EncodeMessage(Message(0x20, 0x45, 0x7d34, [], [], text)) == [0x60, 0x45, 0x7d, 0x34, 0xff] + text
  {
    var path: seq<byte> := [0x74, 0x65, 0x6d, 0x70, 0x65, 0x72, 0x61, 0x74, 0x75, 0x72, 0x65];
    var calls, r := [Opt(11, path)], Record(11, path);
    assert calls[1..] == [] && [r][1..] == [];
    assert AddRecord([], 0, 11, path) == [r] && AddAll([], 0, calls).0 == [r];
    assert EncodeRecord(r) == [0xbb] + path && Encode([r]) == EncodeRecord(r) + [] == EncodeRecord(r);
    assert Store16(0x7d34) == [0x7d, 0x34];
  }

  /** The header checks accept exactly the bytes that begin with the header and token of some message. */
  lemma HeaderOkIffHead(b: seq<byte>)
    ensures HeaderOk(b) <==>
            exists m: Message :: Sendable(m) && m.calls == [] && m.payload == [] && MessageHead(m) <= b
  {
    if HeaderOk(b) {
      var m := HeadOf(b);
      assert MessageHead(m) <= b;
    }
    if m: Message :| Sendable(m) && m.calls == [] && m.payload == [] && MessageHead(m) <= b {
      HeadReads(m, b);
    }
  }

  lemma HeadOf(b: seq<byte>) returns (m: Message)
    requires HeaderOk(b)
    ensures Sendable(m) && m.calls == [] && m.payload == [] && MessageHead(m) <= b
  {
    hide CodeOk, Load16, Store16;
    var n := Lower(b[0]);
    m := Message(b[0] % 64 / 16 * 16, b[1], Load16(b[2], b[3]), b[HDR_SIZE..HDR_SIZE + n], [], []);
    LoadStore16(0, b[2], b[3]);
    FirstByte(b[0]);
    assert MessageHead(m) == [b[0], b[1], b[2], b[3]] + b[HDR_SIZE..HDR_SIZE + n] == b[..HDR_SIZE + n];
  }

  lemma FirstByte(x: byte)
    requires x / 64 == 1
    ensures x == 0x40 + x % 64 / 16 * 16 + Lower(x) && x % 64 / 16 * 16 in {0x00, 0x10, 0x20, 0x30}
  {}

  /** The build and parse round trip of section 3 of RFC 7252, whatever follows the message in the buffer:
      everything is accepted and read back, the options in their stable order by number. */
  lemma MessageRoundTrip(m: Message, s: seq<byte>)
    requires Sendable(m) && EncodeMessage(m) <= s && |EncodeMessage(m)| + 2 <= |s|
    ensures Reads(s, |EncodeMessage(m)|, m)
  {
    hide Scan, NoWrap, Encode, AddAll, ReadsOptions, MessageHead, EncodeMessage, CodeOk, Tail;
    var len, start := |EncodeMessage(m)|, HDR_SIZE + |m.token|;
    HeadIsPrefix(m, s);
    HeadReads(m, s);
    AddAllCounts([], 0, m.calls);
    PartsOfMessage(m, s);
    ScanEncoded(s, len, start, 0, Records(m), m.payload);
    OptionsAreRead(m, s, start);
  }

  lemma HeadIsPrefix(m: Message, s: seq<byte>)
    requires Sendable(m) && EncodeMessage(m) <= s
    ensures MessageHead(m) <= s && HDR_SIZE + |m.token| <= |EncodeMessage(m)|
    ensures EncodeMessage(m)[0] == s[0] && EncodeMessage(m)[1] == s[1]
  {
    hide Encode, AddAll, Tail;
    var h, b := MessageHead(m), EncodeMessage(m);
    assert b[..|h|] == h && s[..|b|] == b;
    assert s[..|h|] == s[..|b|][..|h|];
    assert b[0] == s[..|b|][0] && b[1] == s[..|b|][1];
  }

  lemma OptionsAreRead(m: Message, s: seq<byte>, start: nat)
    requires At(s, start, Encode(Records(m)))
    ensures ReadsOptions(s, start, m)
  {
    hide Walk, Walkable, Shows, StableSortOf, Encode, AddAll, Options;
    var recs := Records(m);
    AddAllCounts([], 0, m.calls);
    RunIsStableSort(m.calls);
    WalkDecodes(s, start, recs, 0);
    assert StableSortOf(Options(0, recs), m.calls) && Shows(s, Walk(s, start, |m.calls|, 0), Options(0, recs));
  }

  lemma PartsOfMessage(m: Message, s: seq<byte>)
    requires Sendable(m) && EncodeMessage(m) <= s
    ensures var len, start := |EncodeMessage(m)|, HDR_SIZE + |m.token|;
            && start <= len && s[start..len] == Encode(Records(m)) + Tail(m.payload)
            && At(s, start, Encode(Records(m)))
            && |m.payload| <= len && s[len - |m.payload|..len] == m.payload
            && s[..len] == EncodeMessage(m)
  {
    hide Encode, AddAll, Tail, At;
    var b, h, e, t := EncodeMessage(m), MessageHead(m), Encode(Records(m)), Tail(m.payload);
    var len, start := |b|, |h|;
    assert s[..len] == b;
    BehindHead(s, b, h, e, t);
    AtConcat(s, start, e, t);
    AtIs(s, start + |e|, t);
    TailIs(m.payload);
    PayloadAtEnd(s, len, t, m.payload);
  }

  lemma BehindHead(s: seq<byte>, b: seq<byte>, h: seq<byte>, e: seq<byte>, t: seq<byte>)
    requires b <= s && b == h + (e + t)
    ensures s[|h|..|b|] == e + t && At(s, |h|, e + t) && |b| == |h| + |e| + |t|
  {
    assert s[|h|..|b|] == b[|h|..];
  }

  lemma AtIs(s: seq<byte>, p: nat, e: seq<byte>)
    requires At(s, p, e)
    ensures p + |e| <= |s| && s[p..p + |e|] == e
  {}

  lemma PayloadAtEnd(s: seq<byte>, len: nat, t: seq<byte>, payload: seq<byte>)
    requires t == if payload == [] then [] else [PAYLOAD_MARKER] + payload
    requires |t| <= len <= |s| && s[len - |t|..len] == t
    ensures s[len - |payload|..len] == payload
  {
    if payload != [] {
      assert s[len - |payload|..len] == s[len - |t|..len][1..] == payload;
    }
  }

  // The sender

  /** Header and token of a message, in the order the client sets them. */
  method SendHead(c: CoapPDU, m: Message) returns (ok: bool)
    requires c.Sized() && Sendable(m)
    modifies c, c.pdu
    ensures c.pdu == old(c.pdu) || fresh(c.pdu)
    ensures c.constructedFromBuffer == old(c.constructedFromBuffer)
    ensures c.constructedFromBuffer ==> c.bufferLength == old(c.bufferLength)
    ensures c.constructedFromBuffer ==> (ok <==> HDR_SIZE + |m.token| <= c.bufferLength)
    ensures ok ==> Built(c) && c.recs == [] && c.Bytes() == MessageHead(m)
    ensures c.Sized()
  {
    SendHeader(c, m);
    ghost var b := c.Bytes();
    TokenOfHead(m, b);
    hide Encode, ReplaceToken, Wire;
    ok := true;
    if |m.token| > 0 {
      var r := c.SetToken(m.token);
      ok := r == 0;
    }
  }

  /** The four header bytes. */
  method SendHeader(c: CoapPDU, m: Message)
    requires c.Sized() && Sendable(m)
    modifies c, c.pdu
    ensures Built(c) && c.recs == [] && c.pdu == old(c.pdu) && c.bufferLength == old(c.bufferLength)
    ensures c.constructedFromBuffer == old(c.constructedFromBuffer)
    ensures c.Bytes() == [0x40 + m.kind, m.code] + Store16(m.messageID)
  {
    hide Encode, Tail, Wire;
    var _ := c.Reset();
    var _ := c.SetVersion(1);
    assert c.Bytes() == [0x40, 0, 0, 0] && c.pdu[0] == c.Bytes()[0];
    c.SetType(m.kind);
    assert c.Bytes() == [0x40 + m.kind, 0, 0, 0];
    c.SetCode(m.code);
    assert c.Bytes() == [0x40 + m.kind, m.code, 0, 0];
    var _ := c.SetMessageID(m.messageID);
    assert Last(0, []) == 0;
  }

  lemma TokenOfHead(m: Message, b: seq<byte>)
    requires Sendable(m) && b == [0x40 + m.kind, m.code] + Store16(m.messageID)
    ensures Lower(b[0]) == 0 && ReplaceToken(b, m.token) == MessageHead(m)
    ensures m.token == [] ==> b == MessageHead(m)
  {
    assert Upper(b[0]) * 16 == b[0];
    assert b[1..HDR_SIZE] == [m.code] + Store16(m.messageID) && b[HDR_SIZE..] == [];
  }

  /** `addOption` on a built PDU, with a value below 269 bytes: the options are the old ones with the new one behind all
      numbered no higher, and header and token stay; or nothing has changed. */
  method AddInOrder(c: CoapPDU, n: uint16, value: OptionValue) returns (res: int)
    requires Built(c) && |value| < 269
    modifies c, c.pdu
    ensures c.Valid() && (c.pdu == old(c.pdu) || fresh(c.pdu)) && (res == 0 || res == 1)
    ensures res == 0 ==>
              && Built(c) && c.Contents() == Insert(old(c.Contents()), Opt(n, value))
              && Head(c.Bytes()) == old(Head(c.Bytes()))
    ensures res == 1 ==>
              && c.Contents() == old(c.Contents()) && c.Bytes() == old(c.Bytes())
              && (Built(c) <==> n <= Last(0, old(c.recs)))
    ensures c.constructedFromBuffer ==>
              (res == 0 <==>
                 |old(Head(c.Bytes()))| + |Encode(AddRecord(old(c.recs), Last(0, old(c.recs)), n, value))|
                 <= c.bufferLength)
  {
    AddRecordInsertsIffTracked(c.recs, Last(0, c.recs), n, value);
    AddRecordKeepsMax(c.recs, n, value);
    ValueStoredIffShort(value);
    FailureMoves(c.recs, n);
    hide Encode, AddRecord, NextMax, Wire, Options, Insert, Last;
    ghost var stored;
    res, stored := c.AddOption(n, value);
  }

  /** The option loop of the client. */
  method SendOptions(c: CoapPDU, calls: seq<CoapOption>) returns (ok: bool)
    requires Built(c) && c.recs == [] && forall o :: o in calls ==> |o.value| < 269
    modifies c, c.pdu
    ensures c.Valid() && c.payload == [] && (c.pdu == old(c.pdu) || fresh(c.pdu))
    ensures c.constructedFromBuffer == old(c.constructedFromBuffer)
    ensures c.constructedFromBuffer ==>
              && c.bufferLength == old(c.bufferLength)
              && (ok <==> |old(Head(c.Bytes()))| + |Encode(AddAll([], 0, calls).0)| <= c.bufferLength)
    ensures ok ==> c.recs == AddAll([], 0, calls).0 && Head(c.Bytes()) == old(Head(c.Bytes()))
  {
    hide AddAll, AddRecord, Encode, Head;
    BuiltIsValid(c);
    AddNone();
    ghost var stored: seq<CoapOption> := [];
    for i := 0 to |calls|
      invariant Built(c) && (c.pdu == old(c.pdu) || fresh(c.pdu))
      invariant c.constructedFromBuffer == old(c.constructedFromBuffer)
      invariant c.constructedFromBuffer ==> c.bufferLength == old(c.bufferLength)
      invariant stored == calls[..i] && (c.recs, c.maxAddedOptionNumber) == AddAll([], 0, stored)
      invariant Head(c.Bytes()) == old(Head(c.Bytes()))
    {
      var r;
      ghost var more;
      AddAllSnoc([], 0, stored, calls[i]);
      assert stored + [calls[i]] == calls[..i + 1];
      PrefixIsShorter([], calls, i + 1, |calls|);
      assert calls[..|calls|] == calls;
      r, more := AddToRun(c, calls[i].number, calls[i].value, [], stored);
      if r != 0 {
        return false;
      }
      ValueStoredIffShort(calls[i].value);
      assert more == more[..i] + [more[i]] == calls[..i] + [calls[i]] == calls[..i + 1];
      stored := more;
    }
    assert calls[..|calls|] == calls;
    LengthOfParts(c.Bytes(), c.recs, []);
    return true;
  }

  lemma AddNone()
    ensures AddAll([], 0, []) == ([], 0) && Last(0, []) == 0 && Numbered([])
  {}

  /** The client's send routine: reset, header, token, options, payload. In a fixed buffer all of it succeeds exactly
      when the message fits. */
  method Send(c: CoapPDU, m: Message) returns (ok: bool)
    requires c.Sized() && Sendable(m)
    modifies c, c.pdu
    ensures c.pdu == old(c.pdu) || fresh(c.pdu)
    ensures ok ==> c.Valid() && c.Bytes() == EncodeMessage(m)
    ensures c.Sized() && c.constructedFromBuffer == old(c.constructedFromBuffer)
    ensures c.constructedFromBuffer ==>
              c.bufferLength == old(c.bufferLength) && (ok <==> |EncodeMessage(m)| <= c.bufferLength)
  {
    hide Encode, AddAll, Wire, Head, MessageHead, EncodeMessage, BodyEnd, Tail;
    SizeOfMessage(m);
    ok := SendHead(c, m);
    if !ok {
      return;
    }
    HeadIs(m, c.Bytes());
    ok := SendOptions(c, m.calls);
    if ok && |m.payload| > 0 {
      WireTail(c.Bytes(), c.recs, []);
      LengthOfParts(c.Bytes(), c.recs, []);
      TailIs([]);
      ghost var before := c.Bytes();
      var r := c.SetPayload(m.payload);
      ok := r == 0;
      if ok {
        assert c.Bytes()[..|before|] == before;
        HeadOfPrefix(before, c.Bytes(), c.recs);
      }
    }
    if ok {
      BytesOfMessage(m, c.Bytes(), c.recs);
    }
  }

  lemma SizeOfMessage(m: Message)
    requires Sendable(m)
    ensures |MessageHead(m)| == HDR_SIZE + |m.token|
    ensures |EncodeMessage(m)|
         == |MessageHead(m)| + |Encode(Records(m))| + if m.payload == [] then 0 else 1 + |m.payload|
  {}

  lemma HeadIs(m: Message, b: seq<byte>)
    requires Sendable(m) && b == MessageHead(m)
    ensures |b| > 0 && OptionsStart(b) <= |b| && Head(b) == b
  {}

  lemma BytesOfMessage(m: Message, b: seq<byte>, recs: seq<Record>)
    requires Sendable(m) && recs == AddAll([], 0, m.calls).0 && Wire(b, recs, m.payload) && Head(b) == MessageHead(m)
    ensures b == EncodeMessage(m)
  {
    hide Encode, AddAll, MessageHead, Tail;
    assert b == Head(b) + b[OptionsStart(b)..];
  }

  lemma HeadOfPrefix(b: seq<byte>, c: seq<byte>, recs: seq<Record>)
    requires Wire(b, recs, []) && |b| <= |c| && c[..|b|] == b
    ensures OptionsStart(c) == OptionsStart(b) <= |b| && Head(c) == Head(b)
  {
    assert c[0] == c[..|b|][0];
    assert c[..OptionsStart(b)] == c[..|b|][..OptionsStart(b)];
  }

  lemma ReadsIsMessage(m: Message, s: seq<byte>, len: nat)
    requires Reads(s, len, m)
    ensures IsMessage(s[..len]) && OptionsStart(s[..len]) == HDR_SIZE + |m.token|
  {
    hide Scan, NoWrap, WellFormed, Walk, Walkable, Shows, StableSortOf, CodeOk;
    VerdictIsMeaning(s[..len], s, len);
  }

  predicate OfLength(values: seq<seq<byte>>, n: nat) { forall v :: v in values ==> |v| == n }

  /** The payload of the last accepted call of a run, or what was there before. */
  function LastAccepted(before: seq<byte>, values: seq<seq<byte>>, accepted: seq<bool>): seq<byte>
    requires |accepted| == |values|
  {
    if values == [] then before else
      var n := |values| - 1;
      if accepted[n] then values[n] else LastAccepted(before, values[..n], accepted[..n])
  }

  lemma LastAcceptedSnoc(before: seq<byte>, values: seq<seq<byte>>, i: nat, accepted: seq<bool>, next: bool)
    requires i < |values| && |accepted| == i
    ensures LastAccepted(before, values[..i + 1], accepted + [next])
         == if next then values[i] else LastAccepted(before, values[..i], accepted)
  {
    assert values[..i + 1][..i] == values[..i] && (accepted + [next])[..i] == accepted;
  }

  /** What decides the calls of a run: an empty payload is refused; a fixed buffer takes exactly those that are no
      longer than its room; and any buffer takes one of the present length, for which nothing is allocated. */
  predicate Decided(before: seq<byte>, values: seq<seq<byte>>, accepted: seq<bool>, fixed: bool, room: int) {
    && |accepted| == |values|
    && forall i :: 0 <= i < |values| ==>
         && (accepted[i] ==> values[i] != [])
         && (fixed ==> (accepted[i] <==> values[i] != [] && |values[i]| <= room))
         && (values[i] != [] && |values[i]| == |LastAccepted(before, values[..i], accepted[..i])| ==> accepted[i])
  }

  lemma DecidedSnoc(before: seq<byte>, values: seq<seq<byte>>, i: nat, accepted: seq<bool>, next: bool, fixed: bool,
                    room: int)
    requires i < |values| && Decided(before, values[..i], accepted, fixed, room)
    requires next ==> values[i] != []
    requires fixed ==> (next <==> values[i] != [] && |values[i]| <= room)
    requires values[i] != [] && |values[i]| == |LastAccepted(before, values[..i], accepted)| ==> next
    ensures Decided(before, values[..i + 1], accepted + [next], fixed, room)
  {
    hide LastAccepted;
    var vs, more := values[..i + 1], accepted + [next];
    assert forall k :: 0 <= k <= i ==> vs[..k] == values[..i][..k] && more[..k] == accepted[..k];
    assert values[..i][..i] == values[..i] && accepted[..i] == accepted;
  }

  /** One call of the run. An object whose pointer is stale stays so. */
  method PayloadCall(c: CoapPDU, value: seq<byte>, ghost front: seq<byte>) returns (r: int)
    requires c.Shaped() && c.Bytes() == front + Tail(c.payload)
    modifies c, c.pdu, c.payloadBlock
    ensures c.Shaped() && c.Sized() && c.Bytes() == front + Tail(c.payload)
    ensures c.pdu == old(c.pdu) || fresh(c.pdu)
    ensures c.payloadBlock == old(c.payloadBlock) || c.payloadBlock == c.pdu
    ensures c.constructedFromBuffer == old(c.constructedFromBuffer)
    ensures c.constructedFromBuffer ==>
              && c.pdu == old(c.pdu) && c.bufferLength == old(c.bufferLength)
              && (r == 0 <==> value != [] && |value| <= c.bufferLength - |front| - 1)
    ensures r == 0 ==> value != [] && |c.payload| == |value|
    ensures r != 0 ==> c.payload == old(c.payload)
    ensures value != [] && |value| == old(|c.payload|) ==> r == 0
    ensures c.Valid() ==> old(c.Valid()) && (r == 0 ==> c.payload == value)
    ensures old(c.Valid()) && (c.constructedFromBuffer || old(c.payload) == [] || |value| == old(|c.payload|)) ==>
              c.Valid()
  {
    hide Encode, Wire, At;
    TailIs(c.payload);
    ghost var before := c.Bytes();
    assert before[..|front|] == front;
    r := c.SetPayload(value);
    if r == 0 {
      PayloadBehind(front, c.Bytes(), c.payload);
    }
  }

  lemma PayloadBehind(front: seq<byte>, b: seq<byte>, payload: seq<byte>)
    requires HasPayload(b, |front|, payload) && b[..|front|] == front && payload != []
    ensures b == front + Tail(payload)
  {
    assert b == b[..|front|] + [b[|front|]] + b[|front| + 1..];
  }

  /** Any run of `setPayload` calls: header, token and options stay, and behind them stands one marker with a payload of
      the length of the last call that succeeded. It is that call's payload as long as the object stays valid: always
      for a fixed buffer, and for any object while all payloads have one length. */
  method SetPayloads(c: CoapPDU, values: seq<seq<byte>>) returns (ghost accepted: seq<bool>)
    requires c.Valid()
    modifies c, c.pdu
    ensures c.Shaped() && (c.pdu == old(c.pdu) || fresh(c.pdu)) && |accepted| == |values|
    ensures Decided(old(c.payload), values, accepted, c.constructedFromBuffer,
                    old(c.bufferLength) - old(BodyEnd(c.Bytes(), c.payload)) - 1)
    ensures var body, last := old(BodyEnd(c.Bytes(), c.payload)), LastAccepted(old(c.payload), values, accepted);
            && 0 <= body <= old(|c.Bytes()|) && c.Bytes() == old(c.Bytes())[..body] + Tail(c.payload)
            && |c.payload| == |last| && (c.Valid() ==> c.payload == last)
    ensures c.constructedFromBuffer ==> c.Valid()
    ensures (exists n: nat :: OfLength(values, n) && (old(c.payload) == [] || |old(c.payload)| == n)) ==> c.Valid()
  {
    hide Encode, Wire, At, LastAccepted, Decided, Tail, BodyEnd, CoapPDU.Shaped;
    ghost var before := c.payload;
    accepted := [];
    ghost var last := before;
    BodyOf(c);
    ghost var front := c.Bytes()[..BodyEnd(c.Bytes(), c.payload)];
    ghost var room := c.bufferLength - |front| - 1;
    DecidedNone(before, c.constructedFromBuffer, room);
    for i := 0 to |values|
      invariant c.Shaped() && c.Sized() && (c.pdu == old(c.pdu) || fresh(c.pdu))
      invariant c.payloadBlock == null || c.payloadBlock == old(c.payloadBlock) || fresh(c.payloadBlock)
                || c.payloadBlock == old(c.pdu)
      invariant c.constructedFromBuffer == old(c.constructedFromBuffer)
      invariant c.constructedFromBuffer ==> c.Valid() && c.bufferLength == old(c.bufferLength)
      invariant |accepted| == i && last == LastAccepted(before, values[..i], accepted)
      invariant Decided(before, values[..i], accepted, c.constructedFromBuffer, room)
      invariant c.Bytes() == front + Tail(c.payload)
      invariant |c.payload| == |last| && (c.Valid() ==> c.payload == last)
      invariant forall n: nat :: OfLength(values, n) && (before == [] || |before| == n) ==>
                  c.Valid() && (last == [] || |last| == n)
    {
      assert values[i] in values;
      var r := PayloadCall(c, values[i], front);
      LastAcceptedSnoc(before, values, i, accepted, r == 0);
      DecidedSnoc(before, values, i, accepted, r == 0, c.constructedFromBuffer, room);
      accepted := accepted + [r == 0];
      if r == 0 {
        last := values[i];
      }
    }
    assert values[..|values|] == values;
  }

  lemma BodyOf(c: CoapPDU)
    requires c.Shaped()
    ensures var body := BodyEnd(c.Bytes(), c.payload);
            0 <= body <= |c.Bytes()| && c.Bytes() == c.Bytes()[..body] + Tail(c.payload)
    ensures c.Sized() && (c.Valid() && c.payload != [] ==> c.payloadBlock == c.pdu)
    ensures c.payload == [] ==> c.payloadBlock == null
  {
    WireTail(c.Bytes(), c.recs, c.payload);
    hide Encode;
    var body, b := BodyEnd(c.Bytes(), c.payload), c.Bytes();
    if c.payload != [] {
      PayloadBehind(b[..body], b, c.payload);
    }
  }

  lemma DecidedNone(before: seq<byte>, fixed: bool, room: int)
    ensures LastAccepted(before, [], []) == before && Decided(before, [], [], fixed, room)
  {}

  // The receiver

  /** `coapCreateRecv`: a fresh object on the received bytes, validated. */
  method Receive(buffer: array<byte>, len: int) returns (c: CoapPDU, res: int)
    requires 0 < len && len + 2 <= buffer.Length
    modifies buffer
    ensures fresh(c) && c.pdu == buffer && c.pduLength == len && buffer[..] == old(buffer[..])
    ensures res == 0 || res == 1
    ensures res == 1 <==>
              HeaderOk(buffer[..len]) && Scan(buffer[..], len, OptionsStart(buffer[..len]), 0).Accept?
    ensures res == 1 ==>
              && HeaderOk(buffer[..len])
              && var v := Scan(buffer[..], len, OptionsStart(buffer[..len]), 0);
              && v.Accept? && c.numOptions == v.numOptions && c.payloadLength == v.payloadLength
              && c.payloadPointer == (if c.payloadLength == 0 then NULL else len - c.payloadLength)
              && c.payloadBlock == if c.payloadLength == 0 then null else buffer
    ensures res == 1 ==> c.Parsed()
    ensures HeaderOk(buffer[..len]) && NoWrap(buffer[..], len, OptionsStart(buffer[..len])) ==>
              (IsMessage(buffer[..len]) <==> res == 1) && (res == 1 ==> c.Valid())
  {
    c := new CoapPDU.FromBuffer(buffer, len, len);
    res := c.Validate();
  }

  /** The network: the bytes of a PDU arrive at the front of the receiver's buffer. */
  method Deliver(c: CoapPDU, buffer: array<byte>) returns (len: int)
    requires c.Sized() && c.pdu != buffer && c.pduLength <= buffer.Length
    modifies buffer
    ensures len == c.pduLength && buffer[..len] == c.Bytes()
  {
    len := c.pduLength;
    forall i | 0 <= i < len {
      buffer[i] := c.pdu[i];
    }
  }

  /** What the getters and the walk of a received object say of a message. */
  ghost predicate Carries(c: CoapPDU, options: seq<OptionView>, m: Message)
    reads c, c.pdu
  {
    && c.Valid()
    && c.GetVersion() == 1 && c.GetType() == m.kind && c.GetCode() == m.code
    && c.GetMessageID() == m.messageID && c.GetTokenLength() == |m.token|
    && c.pdu[HDR_SIZE..HDR_SIZE + |m.token|] == m.token
    && c.payloadLength == |m.payload|
    && (m.payload != [] ==>
          && 0 <= c.payloadPointer && c.payloadPointer + c.payloadLength <= c.pdu.Length
          && c.pdu[c.payloadPointer..c.payloadPointer + c.payloadLength] == m.payload)
    && exists opts :: StableSortOf(opts, m.calls) && Shows(c.pdu[..], options, opts)
  }

  /** A buffer that reads as a message is accepted, and what is read is the message. */
  method ReceiveMessage(buffer: array<byte>, len: int, ghost m: Message)
      returns (received: CoapPDU, accepted: int, options: seq<OptionView>)
    requires 0 < len && len + 2 <= buffer.Length && Reads(buffer[..], len, m)
    modifies buffer
    ensures accepted == 1 && fresh(received) && received.pdu == buffer && buffer[..] == old(buffer[..])
    ensures Carries(received, options, m)
    ensures received.pduLength == len
    ensures received.Parsed() && StableSortOf(received.Read(), m.calls) && Shows(buffer[..], options, received.Read())
  {
    hide Scan, NoWrap, Walk, Walkable, Shows, StableSortOf, Encode, WellFormed, CodeOk, Wire, CoapPDU.Read;
    ghost var s := buffer[..];
    ReadsIsMessage(m, s, len);
    received, accepted := Receive(buffer, len);
    options := received.GetOptions();
    received.ReadShown();
    ShownOnce(s, options, received.Read());
    PayloadSlice(s, len, len - |m.payload|, m.payload);
  }

  /** What is shown is unique. */
  lemma ShownOnce(s: seq<byte>, views: seq<OptionView>, opts: seq<CoapOption>)
    requires Shows(s, views, opts)
    ensures forall other :: Shows(s, views, other) ==> other == opts
  {
    forall other | Shows(s, views, other)
      ensures other == opts
    {
      assert forall k :: 0 <= k < |opts| ==> other[k] == opts[k];
    }
  }

  lemma PayloadSlice(s: seq<byte>, len: nat, at: int, x: seq<byte>)
    requires len <= |s| && |x| <= len && at == len - |x| && s[len - |x|..len] == x
    ensures 0 <= at && at + |x| == len && s[at..at + |x|] == x
  {}

  /** Build, transmit and parse: what is read from the received object is what was put into the sent one. */
  method Transmit(c: CoapPDU, m: Message, buffer: array<byte>)
      returns (ok: bool, received: CoapPDU, accepted: int, options: seq<OptionView>)
    requires c.Sized() && Sendable(m) && buffer != c.pdu && |EncodeMessage(m)| + 2 <= buffer.Length
    modifies c, c.pdu, buffer
    ensures c.constructedFromBuffer ==> (ok <==> |EncodeMessage(m)| <= old(c.bufferLength))
    ensures ok ==> accepted == 1 && received.pdu == buffer && Carries(received, options, m)
  {
    hide EncodeMessage, Reads, Encode, Carries, CoapPDU.Valid;
    received, accepted, options := c, 0, [];
    ok := Send(c, m);
    if ok {
      EncodingHasHeader(m);
      var len := Deliver(c, buffer);
      MessageRoundTrip(m, buffer[..]);
      received, accepted, options := ReceiveMessage(buffer, len, m);
    }
  }

  lemma EncodingHasHeader(m: Message)
    requires Sendable(m)
    ensures |EncodeMessage(m)| >= HDR_SIZE
  {}
}
