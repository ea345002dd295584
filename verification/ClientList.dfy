/** The client's requests in flight: a linked list of packages that is updated in place, the message ID counter, and
    what an arriving acknowledgement does to them. */
module ClientList {
  import opened Bytes
  import opened OptionCodec
  import opened OptionList
  import opened CoapPdu
  import opened Uri
  import opened Exchange
  import opened BlockOption
  import opened Packages

  // The abstract list

  predicate HasID(list: seq<Request>, id: uint16) { exists k :: 0 <= k < |list| && list[k].messageID == id }

  /** Position of the request with this ID, or the length of the list. */
  function IndexOf(list: seq<Request>, id: uint16): (i: nat)
    ensures i <= |list| && (i < |list| ==> list[i].messageID == id)
    ensures forall k :: 0 <= k < i ==> list[k].messageID != id
    ensures i < |list| <==> HasID(list, id)
  {
    if list == [] then 0
    else if list[0].messageID == id then assert HasID(list, id); 0
    else
      var i := IndexOf(list[1..], id);
      assert HasID(list[1..], id) ==> HasID(list, id);
      1 + i
  }

  function Remove(list: seq<Request>, id: uint16): seq<Request> {
    var i := IndexOf(list, id);
    if i == |list| then list else Without(list, i)
  }

  /** s without its element k. */
  function Without<T>(s: seq<T>, k: nat): (t: seq<T>)
    requires k < |s|
    ensures |t| == |s| - 1 && forall j :: 0 <= j < |t| ==> t[j] == s[if j < k then j else j + 1]
  {
    s[..k] + s[k + 1..]
  }

  /** List, counter, everything sent so far, and how many items were put into the list and not sent. */
  datatype State = State(list: seq<Request>, counter: uint16, sent: seq<Request>, unsent: nat)

  /** The request that asks for the block behind b: a new ID and the Block2 option. */
  function NextRequest(r: Request, id: uint16, b: Block): Request {
    r.(messageID := id, options := SetOption(r.options, BLOCK2, BlockOf(Block(b.size, b.number + 1, 0))))
  }

  /** An acknowledgement with this ID and Block2 option, if it has one, arrives. */
  function OnAck(s: State, id: uint16, block: Option<Block>): State {
    var i := IndexOf(s.list, id);
    if i == |s.list| then s
    else if block.Some? && block.value.more != 0 then
      var next := NextRequest(s.list[i], s.counter, block.value);
      var list := s.list[i := next];
      s.(list := if next.kind == CONFIRMABLE then list else Remove(list, next.messageID),
         counter := Wrap16(s.counter + 1), sent := s.sent + [next])
    else s.(list := Remove(s.list, id))
  }

  /** The user asks for a new confirmable request; nothing happens when the next ID is in use. */
  function OnNew(s: State, code: byte, options: seq<PackageOption>, payload: seq<byte>): State {
    if HasID(s.list, s.counter) then s
    else
      var r := Request(s.counter, CONFIRMABLE, code, [], options, payload);
      s.(list := s.list + [r], counter := Wrap16(s.counter + 1), sent := s.sent + [r])
  }

  /** What an input line with an unknown method leaves in the list. */
  function Bare(id: uint16): Request { Request(id, CONFIRMABLE, 0, [], [], []) }

  /** The user names an unknown method: the next ID is taken and its item stays in the list, but nothing is sent. */
  function OnUnknown(s: State): State {
    if HasID(s.list, s.counter) then s
    else s.(list := s.list + [Bare(s.counter)], counter := Wrap16(s.counter + 1), unsent := s.unsent + 1)
  }

  /** The options the input loop sets, each in front of the others: Content-Format, Max-Age, Uri-Path. */
  function RequestOptions(uri: OptionValue): seq<PackageOption> {
    [PackageOption(CONTENT_FORMAT, Number(0)), PackageOption(MAX_AGE, Number(1)), PackageOption(URI_PATH, Text(uri))]
  }

  lemma OptionsOfRequest(uri: OptionValue)
    ensures SetOption(SetOption(SetOption([], URI_PATH, Text(uri)), MAX_AGE, Number(1)), CONTENT_FORMAT, Number(0))
         == RequestOptions(uri)
  {
    var a := [PackageOption(URI_PATH, Text(uri))];
    assert SetOption([], URI_PATH, Text(uri)) == a;
    assert SetOption(a, MAX_AGE, Number(1)) == [PackageOption(MAX_AGE, Number(1))] + a;
  }

  // The linked list

  class Package {
    var messageID: uint16
    var kind: byte
    var code: byte
    var token: seq<byte>
    var options: seq<PackageOption>
    var payload: seq<byte>
    var sendCount: nat
    var next: Package?

    /** `mbtk_coap_list_item_init`. */
    constructor (id: uint16)
      ensures Value() == Request(id, CONFIRMABLE, 0, [], [], []) && next == null
    {
      messageID, kind, code, token, options, payload, sendCount, next := id, 0, 0, [], [], [], 0, null;
    }

    function Value(): Request
      reads `messageID, `kind, `code, `token, `options, `payload
    {
      Request(messageID, kind, code, token, options, payload)
    }

    /** `mbtk_coap_set_option`. */
    method PutOption(kind: uint16, content: OptionContent)
      modifies `options
      ensures options == SetOption(old(options), kind, content)
    {
      var k := 0;
      while k < |options|
        invariant k <= |options| && forall i :: 0 <= i < k ==> options[i].kind != kind
      {
        if options[k].kind == kind {
          break;
        }
        k := k + 1;
      }
      if k == |options| {
        options := [PackageOption(kind, content)] + options;
      } else {
        ChangeOptionAt(options, kind, content, k);
        options := options[k := PackageOption(kind, content)];
      }
    }

    /** `mbtk_coap_set_type`, `mbtk_coap_set_code`, the three calls of `mbtk_coap_set_option` and
        `mbtk_coap_set_payload` on a new package. */
    method Fill(code: byte, uri: OptionValue, payload: seq<byte>)
      requires options == []
      modifies `kind, `code, `options, `payload
      ensures Value() == Request(messageID, CONFIRMABLE, code, token, RequestOptions(uri), payload)
    {
      hide SetOption, RequestOptions;
      OptionsOfRequest(uri);
      kind, this.code := CONFIRMABLE, code;
      PutOption(URI_PATH, Text(uri));
      PutOption(MAX_AGE, Number(1));
      PutOption(CONTENT_FORMAT, Number(0));
      this.payload := payload;
    }
  }

  class Client {
    var head: Package?
    var tail: Package?
    var counter: uint16
    ghost var nodes: seq<Package>
    ghost var list: seq<Request>
    ghost var sent: seq<Request>
    ghost var unsent: nat

    constructor ()
      ensures Linked() && nodes == [] && Snapshot() == State([], 1, [], 0)
    {
      head, tail, counter := null, null, 1;
      nodes, list, sent, unsent := [], [], [], 0;
    }

    static ghost function After(ns: seq<Package>, i: nat): Package?
      requires i < |ns|
    {
      if i + 1 < |ns| then ns[i + 1] else null
    }

    /** The list is the chain of the nodes, without a cycle, and ends in the tail. */
    ghost predicate Linked()
      reads `head, `tail, `nodes, `list
      reads nodes`next, nodes`messageID, nodes`kind, nodes`code, nodes`token, nodes`options, nodes`payload
    {
      && (forall i, j :: 0 <= i < j < |nodes| ==> nodes[i] != nodes[j])
      && head == (if nodes == [] then null else nodes[0])
      && (forall i {:trigger nodes[i].next} :: 0 <= i < |nodes| ==> nodes[i].next == After(nodes, i))
      && (nodes != [] ==> tail == nodes[|nodes| - 1])
      && |list| == |nodes|
      && (forall i :: 0 <= i < |nodes| ==> list[i] == nodes[i].Value())
    }

    ghost function Snapshot(): State
      reads this
    {
      State(list, counter, sent, unsent)
    }

    /** `mbtk_coap_get_by_msg_id`. */
    method GetByMsgId(id: uint16) returns (p: Package?, ghost i: nat)
      requires Linked()
      ensures i == IndexOf(list, id) && |list| == |nodes|
      ensures p == if IndexOf(list, id) < |nodes| then nodes[IndexOf(list, id)] else null
    {
      hide IndexOf, HasID;
      p, i := head, 0;
      while p != null
        invariant i <= |nodes| && p == (if i < |nodes| then nodes[i] else null)
        invariant forall k :: 0 <= k < i ==> list[k].messageID != id
        decreases |nodes| - i
      {
        assert p.messageID == list[i].messageID;
        if p.messageID == id {
          FirstIndex(list, id, i);
          return;
        }
        p, i := p.next, i + 1;
      }
      FirstIndex(list, id, i);
    }

    /** `mbtk_coap_list_add`: null when the ID is taken. */
    method ListAdd(id: uint16) returns (p: Package?)
      requires Linked()
      modifies this, nodes
      ensures Linked() && counter == old(counter) && sent == old(sent) && unsent == old(unsent)
      ensures p == null <==> HasID(old(list), id)
      ensures p == null ==> nodes == old(nodes) && list == old(list)
      ensures p != null ==>
                && fresh(p) && nodes == old(nodes) + [p]
                && p.Value() == Request(id, CONFIRMABLE, 0, [], [], []) && list == old(list) + [p.Value()]
    {
      hide IndexOf, HasID, Linked;
      Emptiness();
      if head == null {
        FirstIndex(list, id, 0);
        p := new Package(id);
        LinkLast(p);
        return;
      }
      var found, _ := GetByMsgId(id);
      FirstIndexIs(list, id);
      if found != null {
        return null;
      }
      p := new Package(id);
      LinkLast(p);
    }

    lemma Emptiness()
      requires Linked()
      ensures (head == null <==> nodes == []) && |list| == |nodes|
    {}

    /** A new node becomes the last. */
    method LinkLast(q: Package)
      requires Linked() && q !in nodes && q.next == null
      modifies this`head, this`tail, this`nodes, this`list, nodes
      ensures Linked() && nodes == old(nodes) + [q] && list == old(list) + [q.Value()]
      ensures unchanged(q)
    {
      if head == null {
        head := q;
      } else {
        tail.next := q;
      }
      tail := q;
      nodes, list := nodes + [q], list + [q.Value()];
    }

    /** `mbtk_coap_list_del`. */
    method ListDel(id: uint16) returns (found: bool)
      requires Linked()
      modifies this, nodes
      ensures Linked() && counter == old(counter) && sent == old(sent) && unsent == old(unsent)
      ensures found <==> HasID(old(list), id)
      ensures list == Remove(old(list), id)
      ensures forall p :: p in nodes ==> p in old(nodes)
    {
      hide IndexOf, HasID, Without;
      if head == null {
        FirstIndex(list, id, 0);
        return false;
      }
      var coap := head;
      assert coap.Value() == list[0];
      if head.messageID == id {
        FirstIndex(list, id, 0);
        UnlinkHead();
        return true;
      }
      ghost var i := 0;
      while coap.next != null
        invariant 0 <= i < |nodes| && coap == nodes[i]
        invariant forall k :: 0 <= k <= i ==> list[k].messageID != id
        decreases |nodes| - i
      {
        assert coap.next == nodes[i + 1] && nodes[i + 1].Value() == list[i + 1];
        if coap.next.messageID == id {
          FirstIndex(list, id, i + 1);
          Unlink(coap, i);
          return true;
        }
        coap, i := coap.next, i + 1;
      }
      FirstIndex(list, id, |list|);
      return false;
    }

    /** The first node leaves the chain; the tail is left as it is also when it was the only one. */
    method UnlinkHead()
      requires Linked() && nodes != []
      modifies `head, `nodes, `list
      ensures Linked() && nodes == Without(old(nodes), 0) && list == Without(old(list), 0)
      ensures forall q :: q in nodes ==> q in old(nodes)
    {
      head := head.next;
      nodes, list := Without(nodes, 0), Without(list, 0);
    }

    /** The node behind position i leaves the chain. */
    method Unlink(coap: Package, ghost i: nat)
      requires Linked() && i + 1 < |nodes| && coap == nodes[i]
      modifies `tail, `nodes, `list, coap`next
      ensures Linked() && nodes == Without(old(nodes), i + 1) && list == Without(old(list), i + 1)
      ensures forall q :: q in nodes ==> q in old(nodes)
    {
      hide Without;
      var victim := coap.next;
      assert victim == nodes[i + 1];
      if tail == victim {
        tail := coap;
      }
      coap.next := victim.next;
      nodes, list := Without(nodes, i + 1), Without(list, i + 1);
    }

    /** `mbtk_coap_coap_send`: the PDU is built from the package and goes out; a package that expects no
        acknowledgement is not kept. The result says whether the PDU had room for all of it. */
    method SendPackage(p: Package, c: CoapPDU) returns (whole: bool)
      requires Linked() && p in nodes && c.Sized() && Ready(p.Value())
      modifies this, nodes, c, c.pdu
      ensures c.Sized() && (c.pdu == old(c.pdu) || fresh(c.pdu))
      ensures whole ==> c.Valid() && c.Bytes() == EncodeMessage(MessageOf(old(p.Value())))
      ensures c.constructedFromBuffer ==>
                (whole <==> |EncodeMessage(MessageOf(old(p.Value())))| <= old(c.bufferLength))
      ensures Linked() && counter == old(counter) && sent == old(sent) + [old(p.Value())] && unsent == old(unsent)
      ensures list == if old(p.kind) == CONFIRMABLE then old(list) else Remove(old(list), old(p.messageID))
      ensures forall q :: q in nodes ==> q in old(nodes)
    {
      hide IndexOf, HasID, Remove, Linked, EncodeMessage, MessageOf, CoapPDU.Valid, Sendable;
      whole := Send(c, MessageOf(p.Value()));
      sent := sent + [p.Value()];
      var incomplete: bool := *;
      if incomplete {
        p.sendCount := (p.sendCount + 1) % 0x100;
      }
      if p.kind != CONFIRMABLE {
        var _ := ListDel(p.messageID);
      }
    }

    /** The request at position i asks for the block behind b: under a new ID, with the Block2 option, it is sent
        again. */
    method AskNextBlock(coapSend: Package, ghost i: nat, b: Block, c: CoapPDU)
      requires Linked() && i < |nodes| && coapSend == nodes[i] && c.Sized() && Ready(NextRequest(list[i], counter, b))
      modifies this, nodes, c, c.pdu
      ensures c.Sized() && (c.pdu == old(c.pdu) || fresh(c.pdu))
      ensures Linked() && forall q :: q in nodes ==> q in old(nodes)
      ensures var next := NextRequest(old(list[i]), old(counter), b);
              && counter == Wrap16(old(counter) + 1) && sent == old(sent) + [next] && unsent == old(unsent)
              && list == var l := old(list)[i := next];
                         if next.kind == CONFIRMABLE then l else Remove(l, next.messageID)
      ensures var next := sent[|old(sent)|];
              && next == old(list[i]).(messageID := next.messageID, options := next.options)
              && next.messageID == old(counter)
              && next.options == SetOption(old(list[i]).options, BLOCK2, BlockOf(Block(b.size, b.number + 1, 0)))
    {
      NextIs(list[i], counter, b);
      hide IndexOf, HasID, Remove, NextRequest, Linked, Ready;
      Renew(coapSend, i, b);
      var _ := SendPackage(coapSend, c);
    }

    /** The package at position i becomes the request for the block behind b. */
    method Renew(coapSend: Package, ghost i: nat, b: Block)
      requires Linked() && i < |nodes| && coapSend == nodes[i]
      modifies `list, `counter, coapSend
      ensures Linked() && counter == Wrap16(old(counter) + 1)
      ensures coapSend.Value() == NextRequest(old(list[i]), old(counter), b) && list == old(list)[i := coapSend.Value()]
    {
      hide SetOption, After;
      assert coapSend.Value() == list[i];
      coapSend.messageID := counter;
      counter := Wrap16(counter + 1);
      coapSend.PutOption(BLOCK2, BlockOf(Block(b.size, b.number + 1, 0)));
      list := list[i := coapSend.Value()];
    }

    /** The acknowledgement branch of `mbtk_coap_recv_resolve`. The Block2 option is looked up for a known ID only;
        where that overruns its buffer nothing more is said. */
    method HandleAck(messageID: uint16, received: CoapPDU, c: CoapPDU) returns (inside: bool)
      requires Linked() && AllReady(list) && c.Sized()
      requires received.Parsed() && received != c && received.pdu != c.pdu
      modifies this, nodes, c, c.pdu
      ensures c.Sized() && (c.pdu == old(c.pdu) || fresh(c.pdu))
      ensures Linked() && AllReady(list)
      ensures inside <==> !HasID(old(list), messageID) || CopiesFit(old(received.Read()), BLOCK2, BLOCK_BUFFER)
      ensures Snapshot() == if inside then OnAck(old(Snapshot()), messageID, Received(old(received.Read())))
                            else old(Snapshot())
      ensures inside && HasID(old(list), messageID) ==>
                match Received(old(received.Read()))
                case None => sent == old(sent)
                case Some(b) =>
                  if b.more == 0 then sent == old(sent)
                  else
                    var r := old(list)[IndexOf(old(list), messageID)];
                    sent == old(sent) + [Request(old(counter), r.kind, r.code, r.token,
                                                 SetOption(r.options, BLOCK2, BlockOf(Block(b.size, b.number + 1, 0))),
                                                 r.payload)]
      ensures forall q :: q in nodes ==> q in old(nodes)
    {
      hide IndexOf, HasID, Remove, SetOption, Linked, AllReady, Ready, Received, CopiesFit, NextRequest, CoapPDU.Read,
           CoapPDU.Parsed;
      ghost var before := list;
      var coapSend, i := GetByMsgId(messageID);
      FirstIndexIs(list, messageID);
      if coapSend == null {
        return true;
      }
      var block;
      inside, block := GetRecvBlock2(received);
      if !inside {
        return;
      }
      StaysReady(before, counter, messageID, block);
      if block.Some? && block.value.more != 0 {
        AskNextBlock(coapSend, i, block.value, c);
      } else {
        var _ := ListDel(messageID);
      }
    }

    /** The fields of a new package are set; what stands in the list changes with them. */
    method Compose(p: Package, code: byte, uri: OptionValue, payload: seq<byte>, ghost before: seq<Request>)
      requires Linked() && nodes != [] && p == nodes[|nodes| - 1] && list == before + [p.Value()] && p.options == []
      modifies `list, p
      ensures Linked()
      ensures list == before + [p.Value()]
      ensures p.Value() == Request(old(p.messageID), CONFIRMABLE, code, old(p.token), RequestOptions(uri), payload)
    {
      hide After, SetOption, RequestOptions;
      p.Fill(code, uri, payload);
      list := before + [p.Value()];
    }

    /** The input loop of the client: a new confirmable request under the next ID; None stands for an unknown method. */
    method NewRequest(requestMethod: Option<byte>, uri: OptionValue, payload: seq<byte>, c: CoapPDU)
        returns (whole: bool)
      requires Linked() && AllReady(list) && c.Sized() && |uri| < 128
      requires requestMethod.Some? ==> CodeOk(requestMethod.value)
      modifies this, nodes, c, c.pdu
      ensures c.Sized() && (c.pdu == old(c.pdu) || fresh(c.pdu))
      ensures Linked() && AllReady(list)
      ensures Snapshot() == match requestMethod
                            case None => OnUnknown(old(Snapshot()))
                            case Some(code) => OnNew(old(Snapshot()), code, RequestOptions(uri), payload)
      ensures whole ==> requestMethod.Some? && !HasID(old(list), old(counter)) && c.Valid()
      ensures HasID(old(list), old(counter)) ==>
                list == old(list) && sent == old(sent) && counter == old(counter)
      ensures requestMethod.None? && !HasID(old(list), old(counter)) ==>
                && list == old(list) + [Request(old(counter), 0x00, 0, [], [], [])] && sent == old(sent)
                && counter == (old(counter) + 1) % 0x1_0000
      ensures requestMethod.Some? && !HasID(old(list), old(counter)) ==>
                var q := Request(old(counter), 0x00, requestMethod.value, [], RequestOptions(uri), payload);
                && list == old(list) + [q] && sent == old(sent) + [q] && counter == (old(counter) + 1) % 0x1_0000
                && Ready(q)
                && (whole ==> c.Bytes() == EncodeMessage(MessageOf(q)))
                && (c.constructedFromBuffer ==> (whole <==> |EncodeMessage(MessageOf(q))| <= old(c.bufferLength)))
      ensures forall q :: q in nodes ==> q in old(nodes) || fresh(q)
    {
      hide IndexOf, HasID, Remove, SetOption, RequestOptions, Linked, Ready, AllReady, EncodeMessage, MessageOf,
           CoapPDU.Valid, CodeOk;
      whole := false;
      ghost var before := list;
      OneMoreReady(list, Bare(counter));
      var p := ListAdd(counter);
      if p != null {
        counter := Wrap16(counter + 1);
        if requestMethod.None? {
          unsent := unsent + 1;
          return;
        }
        RequestIsReady(p.messageID, requestMethod.value, uri, payload);
        OneMoreReady(before, Request(p.messageID, CONFIRMABLE, requestMethod.value, [], RequestOptions(uri), payload));
        Compose(p, requestMethod.value, uri, payload, before);
        whole := SendPackage(p, c);
      }
    }
  }

  lemma NextIs(r: Request, id: uint16, b: Block)
    ensures NextRequest(r, id, b)
         == r.(messageID := id, options := SetOption(r.options, BLOCK2, BlockOf(Block(b.size, b.number + 1, 0))))
  {}

  lemma FirstIndexIs(list: seq<Request>, id: uint16)
    ensures IndexOf(list, id) <= |list| && (IndexOf(list, id) < |list| <==> HasID(list, id))
  {}

  predicate AllReady(list: seq<Request>) { forall q :: q in list ==> Ready(q) }

  lemma OneMoreReady(list: seq<Request>, r: Request)
    requires AllReady(list) && (Ready(r) || r == Bare(r.messageID))
    ensures AllReady(list + [r])
  {
    assert PackageCalls([]) == [];
    assert Ready(Bare(r.messageID));
    hide Ready;
  }

  lemma RequestIsReady(id: uint16, code: byte, uri: OptionValue, payload: seq<byte>)
    requires CodeOk(code) && |uri| < 128
    ensures Ready(Request(id, CONFIRMABLE, code, [], RequestOptions(uri), payload))
  {
    hide UriCalls;
    PartsAreShort(uri);
    CallsOfRequest(uri);
  }

  /** The calls for the options of a request. */
  lemma CallsOfRequest(uri: OptionValue)
    ensures PackageCalls(RequestOptions(uri)) == [Opt(CONTENT_FORMAT, []), Opt(MAX_AGE, [1])] + UriCalls(uri)
  {
    hide UriCalls;
    var options := RequestOptions(uri);
    assert options[1..] == [options[1], options[2]] && options[1..][1..] == [options[2]] && [options[2]][1..] == [];
    assert PackageCalls([options[2]]) == UriCalls(uri) + [] == UriCalls(uri);
    assert PackageCalls(options[1..]) == [Opt(MAX_AGE, [1])] + UriCalls(uri);
  }

  lemma PartsAreShort(uri: OptionValue)
    ensures forall o :: o in UriCalls(uri) ==> |o.value| <= |uri|
  {
    if |uri| > 1 {
      PartsAreShortFrom(uri, START);
    }
  }

  lemma {:induction false} PartsAreShortFrom(uri: OptionValue, st: Splitter)
    ensures forall o :: o in Calls(uri, st) ==> |o.value| <= |uri|
    decreases |uri| - st.startP
  {
    if InTurn(uri, st) {
      PartsAreShortFrom(uri, Next(uri, st));
    }
  }

  lemma StaysReady(list: seq<Request>, counter: uint16, id: uint16, block: Option<Block>)
    requires AllReady(list) && IndexOf(list, id) < |list|
    ensures var i := IndexOf(list, id);
            && AllReady(Remove(list, id))
            && (block.Some? ==>
                  var next := NextRequest(list[i], counter, block.value);
                  && next.messageID == counter && Ready(next)
                  && AllReady(list[i := next]) && AllReady(Remove(list[i := next], counter)))
  {
    hide SetOption, Ready, AllReady, Remove;
    RemoveKeepsReady(list, id);
    if block.Some? {
      NextIsReady(list, IndexOf(list, id), counter, block.value);
    }
  }

  lemma RemoveKeepsReady(list: seq<Request>, id: uint16)
    requires AllReady(list)
    ensures AllReady(Remove(list, id))
  {
    hide Ready;
  }

  lemma NextIsReady(list: seq<Request>, i: nat, counter: uint16, b: Block)
    requires AllReady(list) && i < |list|
    ensures var next := NextRequest(list[i], counter, b);
            && next.messageID == counter && Ready(next)
            && AllReady(list[i := next]) && AllReady(Remove(list[i := next], counter))
  {
    var next := NextRequest(list[i], counter, b);
    BlockKeepsReady(list[i], counter, Block(b.size, b.number + 1, 0));
    hide SetOption, Ready, NextRequest, Remove;
    UpdateKeepsReady(list, i, next);
    RemoveKeepsReady(list[i := next], counter);
  }

  lemma UpdateKeepsReady(list: seq<Request>, i: nat, r: Request)
    requires AllReady(list) && i < |list| && Ready(r)
    ensures AllReady(list[i := r])
  {
    hide Ready;
  }

  lemma FirstIndex(list: seq<Request>, id: uint16, i: nat)
    requires i <= |list| && forall k :: 0 <= k < i ==> list[k].messageID != id
    requires i < |list| ==> list[i].messageID == id
    ensures IndexOf(list, id) == i && (HasID(list, id) <==> i < |list|)
  {}
}
