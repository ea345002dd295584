/** The receive routine of the client. */
module ClientReceive {
  import opened Bytes
  import opened OptionCodec
  import opened OptionList
  import opened Grammar
  import opened CoapPdu
  import opened Uri
  import opened Exchange
  import opened BlockOption
  import opened Packages
  import opened ClientList
  import opened BlockTransfer

  const ACKNOWLEDGEMENT: byte := 0x20
  const EMPTY: byte := 0x00
  const POST: byte := 0x02
  const PUT: byte := 0x03
  const CHANGED: byte := 0x44
  const URI_BUFFER := 100

  // The acknowledgement

  /** The acknowledgement of a confirmable message: its ID and token, and a code by the method. */
  function AckOf(code: byte, messageID: uint16, token: seq<byte>): Message {
    Message(ACKNOWLEDGEMENT, if code == POST || code == PUT then CHANGED else EMPTY, messageID, token, [], [])
  }

  /** `mbtk_coap_send_ack`: the PDU is built anew; in a fixed buffer whole exactly when it has room for the token. */
  method SendAck(code: byte, messageID: uint16, token: seq<byte>, c: CoapPDU) returns (whole: bool)
    requires c.Sized() && |token| <= 8
    modifies c, c.pdu
    ensures c.Sized() && (c.pdu == old(c.pdu) || fresh(c.pdu))
    ensures c.constructedFromBuffer == old(c.constructedFromBuffer)
    ensures c.constructedFromBuffer ==>
              c.bufferLength == old(c.bufferLength) && (whole <==> HDR_SIZE + |token| <= c.bufferLength)
    ensures whole ==>
              && c.Valid() && c.recs == [] && c.payload == []
              && c.Bytes() == [0x60 + |token|, if code == 0x02 || code == 0x03 then 0x44 else 0x00,
                               messageID / 0x100, messageID % 0x100] + token
              && c.Bytes() == EncodeMessage(AckOf(code, messageID, token))
  {
    hide Encode, ReplaceToken, StoredToken, Wire, Tail, MessageHead, EncodeMessage, Head;
    ghost var m := AckOf(code, messageID, token);
    AckHeader(code, messageID, c);
    ghost var b := c.Bytes();
    TokenOfHead(m, b);
    AckBytes(code, messageID, token);
    whole := true;
    if |token| > 0 {
      var r := c.SetToken(token);
      whole := r == 0;
    }
  }

  /** The four header bytes, in the order of the source: the message ID before the code. */
  method AckHeader(code: byte, messageID: uint16, c: CoapPDU)
    requires c.Sized()
    modifies c, c.pdu
    ensures c.Valid() && c.recs == [] && c.payload == []
    ensures c.pdu == old(c.pdu) && c.bufferLength == old(c.bufferLength)
    ensures c.constructedFromBuffer == old(c.constructedFromBuffer)
    ensures c.Bytes() == [0x40 + ACKNOWLEDGEMENT, AckOf(code, messageID, []).code] + Store16(messageID)
  {
    hide Encode, Tail, Wire;
    var _ := c.Reset();
    var _ := c.SetVersion(1);
    assert c.Bytes() == [0x40, 0, 0, 0] && c.pdu[0] == c.Bytes()[0];
    c.SetType(ACKNOWLEDGEMENT);
    assert c.Bytes() == [0x60, 0, 0, 0];
    var _ := c.SetMessageID(messageID);
    assert c.Bytes() == [0x60, 0] + Store16(messageID);
    if code == POST || code == PUT {
      c.SetCode(CHANGED);
    } else {
      c.SetCode(EMPTY);
    }
  }

  lemma AckBytes(code: byte, messageID: uint16, token: seq<byte>)
    requires |token| <= 8
    ensures var m := AckOf(code, messageID, token);
            && EncodeMessage(m) == MessageHead(m)
            && MessageHead(m) == [0x60 + |token|, if code == 0x02 || code == 0x03 then 0x44 else 0x00,
                                  messageID / 0x100, messageID % 0x100] + token
  {
    var m := AckOf(code, messageID, token);
    assert Records(m) == [] && Encode([]) == [] && Tail([]) == [];
    assert Store16(messageID) == [messageID / 0x100, messageID % 0x100];
  }

  /** The acknowledgement of a request, read by its sender, retires the request and no other. */
  lemma AckRetires(now: State, q: Request, s: seq<byte>)
    requires DistinctIDs(now.list) && q in now.list && |q.token| <= 8
    requires var b := EncodeMessage(AckOf(q.code, q.messageID, q.token)); b <= s && |b| + 2 <= |s|
    ensures var m := AckOf(q.code, q.messageID, q.token);
            && Reads(s, |EncodeMessage(m)|, m)
            && |s| >= HDR_SIZE && s[0] % 64 / 16 * 16 == ACKNOWLEDGEMENT
            && forall opts :: StableSortOf(opts, m.calls) ==>
                 var t := OnAck(now, Load16(s[2], s[3]), Received(opts));
                 && t == now.(list := t.list)
                 && (forall r :: r in t.list <==> r in now.list && r != q)
  {
    hide EncodeMessage, Scan, NoWrap, HeaderOk, ReadsOptions;
    var m := AckOf(q.code, q.messageID, q.token);
    MessageRoundTrip(m, s);
    assert Load16(s[2], s[3]) == q.messageID;
    RemoveKeeps(now.list, q.messageID);
    forall opts | StableSortOf(opts, [])
      ensures Received(opts) == None
    {
      NothingReceived(opts);
    }
    OnlyHolder(now.list, q);
  }

  lemma NothingReceived(opts: seq<CoapOption>)
    requires StableSortOf(opts, [])
    ensures Received(opts) == None
  {
    assert WithNumber(opts, BLOCK2) == WithNumber([], BLOCK2) == [];
    LastValueOfNone(opts, BLOCK2);
  }

  lemma OnlyHolder(list: seq<Request>, q: Request)
    requires DistinctIDs(list) && q in list
    ensures HasID(list, q.messageID) && forall r :: r in list && r.messageID == q.messageID ==> r == q
  {}

  // The routine

  /** Not accepted, memory overrun by a copied option value, or done. */
  datatype Outcome = Rejected | Overrun | Done

  /** `mbtk_coap_recv_resolve` for any received bytes: the Uri-Path is copied for the log, then a confirmable message is
      acknowledged and an acknowledgement goes to its request. The copies stay inside their buffers exactly when the
      options fit. `acked` says whether the acknowledgement was built whole. */
  method RecvResolve(client: Client, sender: CoapPDU, buffer: array<byte>, len: int)
      returns (c: CoapPDU, outcome: Outcome, acked: bool)
    requires client.Linked() && AllReady(client.list) && sender.Sized() && sender.pdu != buffer
    requires 0 < len && len + 2 <= buffer.Length
    modifies client, client.nodes, buffer, sender, sender.pdu
    ensures client.Linked() && AllReady(client.list) && sender.Sized()
    ensures buffer[..] == old(buffer[..]) && fresh(c)
    ensures !outcome.Rejected? <==>
            HeaderOk(buffer[..len]) && Scan(buffer[..], len, OptionsStart(buffer[..len]), 0).Accept?
    ensures !outcome.Rejected? ==>
              && c.Parsed() && c.pdu == buffer && buffer.Length >= HDR_SIZE + c.GetTokenLength()
              && (outcome.Overrun? <==>
                    || !CopiesFit(c.Read(), 11, 100)
                    || (c.GetType() == ACKNOWLEDGEMENT && HasID(old(client.list), c.GetMessageID())
                        && !CopiesFit(c.Read(), 23, 10)))
    ensures client.Snapshot() ==
              if outcome.Done? && c.GetType() == ACKNOWLEDGEMENT
              then OnAck(old(client.Snapshot()), c.GetMessageID(), Received(c.Read()))
              else old(client.Snapshot())
    ensures acked ==>
              && outcome.Done? && buffer.Length >= 4 + buffer[0] % 16
              && buffer[0] % 64 / 16 == 0 && buffer[0] % 16 <= 8
              && sender.Bytes() == [0x60 + buffer[0] % 16,
                                    if buffer[1] == 0x02 || buffer[1] == 0x03 then 0x44 else 0x00,
                                    buffer[2], buffer[3]] + buffer[4..4 + buffer[0] % 16]
              && sender.Valid() && sender.recs == [] && sender.payload == []
    ensures outcome.Done? && c.GetType() == CONFIRMABLE && sender.constructedFromBuffer ==>
              (acked <==> HDR_SIZE + c.GetTokenLength() <= old(sender.bufferLength))
    ensures outcome.Rejected? || c.GetType() !in {CONFIRMABLE, ACKNOWLEDGEMENT} ==>
              sender.Bytes() == old(sender.Bytes())
  {
    hide Scan, NoWrap, WellFormed, CodeOk, OnAck, Received, LastValue, AllReady, CopiesFit, HasID, EncodeMessage,
         CoapPDU.Read, CoapPDU.Parsed, Client.Linked, CoapPDU.Valid;
    var res;
    c, res := Receive(buffer, len);
    if res != 1 {
      return c, Rejected, false;
    }
    PduHasHeader(c);
    FieldsOfHeader(c);
    outcome, acked := HandleAccepted(client, sender, c);
  }

  /** What the routine does with an accepted message. */
  method HandleAccepted(client: Client, sender: CoapPDU, c: CoapPDU) returns (outcome: Outcome, acked: bool)
    requires client.Linked() && AllReady(client.list) && sender.Sized()
    requires c.Parsed() && c.pdu.Length > 0 && c.pdu.Length >= HDR_SIZE + c.GetTokenLength() && c.GetTokenLength() <= 8
    requires c != sender && c.pdu != sender.pdu
    modifies client, client.nodes, sender, sender.pdu
    ensures client.Linked() && AllReady(client.list) && sender.Sized() && !outcome.Rejected?
    ensures outcome.Overrun? <==>
            || !CopiesFit(c.Read(), URI_PATH, URI_BUFFER)
            || (c.GetType() == ACKNOWLEDGEMENT && HasID(old(client.list), c.GetMessageID())
                && !CopiesFit(c.Read(), BLOCK2, BLOCK_BUFFER))
    ensures client.Snapshot() ==
              if outcome.Done? && c.GetType() == ACKNOWLEDGEMENT
              then OnAck(old(client.Snapshot()), c.GetMessageID(), Received(c.Read()))
              else old(client.Snapshot())
    ensures acked ==>
              && outcome.Done? && c.GetType() == CONFIRMABLE && sender.Valid()
              && sender.Bytes() == [0x60 + c.GetTokenLength(),
                                    if c.GetCode() == 0x02 || c.GetCode() == 0x03 then 0x44 else 0x00,
                                    c.GetMessageID() / 0x100, c.GetMessageID() % 0x100]
                                   + c.pdu[HDR_SIZE..HDR_SIZE + c.GetTokenLength()]
              && sender.recs == [] && sender.payload == []
    ensures outcome.Done? && c.GetType() == CONFIRMABLE && sender.constructedFromBuffer ==>
              (acked <==> HDR_SIZE + c.GetTokenLength() <= old(sender.bufferLength))
    ensures c.GetType() !in {CONFIRMABLE, ACKNOWLEDGEMENT} ==> sender.Bytes() == old(sender.Bytes())
  {
    hide OnAck, Received, AllReady, CopiesFit, HasID, EncodeMessage, CoapPDU.Read, CoapPDU.Parsed, Client.Linked,
         CoapPDU.Valid;
    acked := false;
    var token := c.pdu[HDR_SIZE..HDR_SIZE + c.GetTokenLength()];
    var uriPath := new byte[URI_BUFFER](_ => 0);
    var inside, _ := GetOptionValueById(c, URI_PATH, uriPath);
    if !inside {
      return Overrun, false;
    }
    if c.GetType() == CONFIRMABLE {
      acked := SendAck(c.GetCode(), c.GetMessageID(), token, sender);
    } else if c.GetType() == ACKNOWLEDGEMENT {
      inside := client.HandleAck(c.GetMessageID(), c, sender);
    }
    outcome := if inside then Done else Overrun;
  }

  lemma FieldsOfHeader(c: CoapPDU)
    requires c.pdu.Length >= HDR_SIZE
    ensures c.GetTokenLength() == c.pdu[0] % 16 && c.GetCode() == c.pdu[1]
    ensures c.GetType() == 0 <==> c.pdu[0] % 64 / 16 == 0
    ensures c.GetMessageID() / 0x100 == c.pdu[2] && c.GetMessageID() % 0x100 == c.pdu[3]
  {
    hide Load16;
    WordBytes(c.pdu[2], c.pdu[3]);
    TypeIsZero(c.pdu[0] % 64);
  }

  lemma WordBytes(hi: byte, lo: byte)
    ensures Load16(hi, lo) / 0x100 == hi && Load16(hi, lo) % 0x100 == lo
  {}

  lemma TypeIsZero(x: int)
    ensures x / 16 * 16 == 0 <==> x / 16 == 0
  {}

  lemma PduHasHeader(c: CoapPDU)
    requires 0 <= c.pduLength <= c.pdu.Length && HeaderOk(c.Bytes())
    ensures c.pdu.Length > 0 && c.pdu.Length >= HDR_SIZE + c.GetTokenLength() && c.GetTokenLength() <= 8
  {}
}
