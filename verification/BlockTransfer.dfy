/** Runs of the client: what the list of requests in flight and the sent messages keep over any interleaving of new
    requests and acknowledgements, and how a block-wise transfer (section 2.4 of RFC 7959) gets through. */
module BlockTransfer {
  import opened Bytes
  import opened OptionList
  import opened Exchange
  import opened BlockOption
  import opened Packages
  import opened ClientList

  datatype Event = Ack(id: uint16, block: Option<ReadBlock>)
                 | New(code: byte, options: seq<PackageOption>, payload: seq<byte>)
                 | Unknown

  function Step(s: State, e: Event): State {
    match e
    case Ack(id, block) => OnAck(s, id, block)
    case New(code, options, payload) => OnNew(s, code, options, payload)
    case Unknown => OnUnknown(s)
  }

  function Run(s: State, es: seq<Event>): State {
    if es == [] then s else Step(Run(s, es[..|es| - 1]), es[|es| - 1])
  }

  // The list

  predicate DistinctIDs(list: seq<Request>) {
    forall i, j :: 0 <= i < j < |list| ==> list[i].messageID != list[j].messageID
  }

  /** IDs are distinct and all below the counter. */
  predicate Fresh(s: State) {
    DistinctIDs(s.list) && forall q :: q in s.list ==> q.messageID < s.counter
  }

  /** The renewed ID is not checked: it stays unique exactly when no other request holds the counter's value. */
  lemma RenewalKeepsDistinctIff(list: seq<Request>, i: nat, next: Request)
    requires DistinctIDs(list) && i < |list|
    ensures DistinctIDs(list[i := next]) <==>
            forall k :: 0 <= k < |list| && k != i ==> list[k].messageID != next.messageID
  {
    var after := list[i := next];
    if DistinctIDs(after) {
      forall k | 0 <= k < |list| && k != i
        ensures list[k].messageID != next.messageID
      {
        assert after[k] == list[k] && after[i] == next;
      }
    }
  }

  lemma RemoveKeeps(list: seq<Request>, id: uint16)
    requires DistinctIDs(list)
    ensures DistinctIDs(Remove(list, id)) && !HasID(Remove(list, id), id)
    ensures forall q :: q in Remove(list, id) <==> q in list && q.messageID != id
  {
    var i, res := IndexOf(list, id), Remove(list, id);
    if i < |list| {
      forall q | q in list && q.messageID != id
        ensures q in res
      {
        var k :| 0 <= k < |list| && list[k] == q;
        assert res[if k < i then k else k - 1] == q;
      }
    }
  }

  /** An acknowledgement changes nothing exactly when its ID is unknown. */
  lemma UnknownAckIff(s: State, id: uint16, block: Option<Block>)
    ensures OnAck(s, id, block) == s <==> !HasID(s.list, id)
  {}

  /** The IDs taken between two states. */
  function Taken(s: State, t: State): int { |t.sent| - |s.sent| + t.unsent - s.unsent }

  /** One step takes at most one ID, that of the counter, and the message it sends, if it does, carries it. */
  lemma StepSends(s: State, e: Event)
    ensures var t := Step(s, e);
            && 0 <= Taken(s, t) <= 1 && s.unsent <= t.unsent && t.counter == Wrap16(s.counter + Taken(s, t))
            && (t.sent == s.sent
                || (t.sent == s.sent + [t.sent[|t.sent| - 1]] && t.sent[|t.sent| - 1].messageID == s.counter))
  {}

  /** The counter has not wrapped between the two states. */
  predicate InRange(s: State, t: State) { s.counter + Taken(s, t) <= 0xFFFF }

  lemma StepKeepsFresh(s: State, e: Event)
    requires Fresh(s) && InRange(s, Step(s, e))
    ensures Fresh(Step(s, e))
  {
    hide SetOption, IndexOf, HasID, Remove;
    if e.Ack? {
      var i := IndexOf(s.list, e.id);
      RemoveKeeps(s.list, e.id);
      if i < |s.list| && e.block.Some? && e.block.value.more != 0 {
        var next := NextRequest(s.list[i], s.counter, e.block.value);
        RenewedStaysFresh(s.list, i, next, s.counter);
        RemoveKeeps(s.list[i := next], s.counter);
      }
    }
  }

  lemma RenewedStaysFresh(list: seq<Request>, i: nat, next: Request, counter: uint16)
    requires DistinctIDs(list) && i < |list| && next.messageID == counter
    requires forall q :: q in list ==> q.messageID < counter
    ensures DistinctIDs(list[i := next]) && forall q :: q in list[i := next] ==> q.messageID <= counter
  {
    RenewalKeepsDistinctIff(list, i, next);
  }

  lemma {:induction false} RunSends(s: State, es: seq<Event>)
    ensures s.sent <= Run(s, es).sent && s.unsent <= Run(s, es).unsent
  {
    hide Step;
    if es != [] {
      RunSends(s, es[..|es| - 1]);
      StepSends(Run(s, es[..|es| - 1]), es[|es| - 1]);
    }
  }

  /** The messages sent since the first n carry increasing IDs of the range. */
  predicate Increasing(sent: seq<Request>, n: nat, low: nat, high: nat) {
    && (forall k :: n <= k < |sent| ==> low <= sent[k].messageID < high)
    && (forall j, k :: n <= j < k < |sent| ==> sent[j].messageID < sent[k].messageID)
  }

  /** Over any run before the counter wraps: the messages sent carry increasing IDs, so no two carry the same, and the
      list keeps distinct IDs below the counter. The IDs are consecutive when no input line named an unknown method. */
  lemma {:induction false} RunKeepsFresh(s: State, es: seq<Event>)
    requires Fresh(s) && InRange(s, Run(s, es))
    ensures var t := Run(s, es);
            && s.sent <= t.sent && Fresh(t) && t.counter == s.counter + Taken(s, t)
            && Increasing(t.sent, |s.sent|, s.counter, t.counter)
            && (t.unsent == s.unsent ==>
                  forall k :: |s.sent| <= k < |t.sent| ==> t.sent[k].messageID == s.counter + k - |s.sent|)
  {
    hide Step, Fresh;
    if es != [] {
      var p, e := es[..|es| - 1], es[|es| - 1];
      var t := Run(s, p);
      RunSends(s, p);
      StepSends(t, e);
      RunKeepsFresh(s, p);
      StepKeepsFresh(t, e);
    }
  }

  /** Every request in flight is a message that was sent, or the item of an unknown method. */
  lemma {:induction false} InFlightWasSent(s: State, es: seq<Event>)
    requires forall q :: q in s.list ==> q in s.sent || q == Bare(q.messageID)
    ensures forall q :: q in Run(s, es).list ==> q in Run(s, es).sent || q == Bare(q.messageID)
    ensures Unknown !in es && (forall q :: q in s.list ==> q in s.sent) ==>
              forall q :: q in Run(s, es).list ==> q in Run(s, es).sent
  {
    if es != [] {
      InFlightWasSent(s, es[..|es| - 1]);
      StepSends(Run(s, es[..|es| - 1]), es[|es| - 1]);
      StepLists(Run(s, es[..|es| - 1]), es[|es| - 1]);
    }
  }

  // One transfer in a run

  /** A request followed through a run: its ID now, what was sent for it since, how many answers it got, and whether
      an answer was its last. */
  datatype Transfer = Transfer(id: uint16, asked: seq<Request>, answers: nat, done: bool)

  predicate Answers(t: Transfer, e: Event) { !t.done && e.Ack? && e.id == t.id }

  /** An answer either makes the client send, or is the last. */
  function Follow(t: Transfer, before: State, e: Event, after: State): Transfer {
    if !Answers(t, e) then t
    else if |after.sent| > |before.sent| then
      var q := after.sent[|before.sent|];
      Transfer(q.messageID, t.asked + [q], t.answers + 1, false)
    else t.(answers := t.answers + 1, done := true)
  }

  function Track(s: State, id: uint16, es: seq<Event>): Transfer {
    if es == [] then Transfer(id, [], 0, false)
    else
      var p, e := es[..|es| - 1], es[|es| - 1];
      Follow(Track(s, id, p), Run(s, p), e, Run(s, es))
  }

  /** The server answers the k-th request of the transfer with block first + k, of a size of its own choice, and sets
      the flag before the last. */
  predicate Served(t: Transfer, first: nat, last: nat, sizes: seq<nat>, e: Event) {
    Answers(t, e) ==>
      && e.block.Some? && e.block.value.number == first + t.answers
      && (e.block.value.more != 0 <==> e.block.value.number < last)
      && t.answers < |sizes| && e.block.value.size == sizes[t.answers]
  }

  predicate Server(s: State, id: uint16, first: nat, last: nat, sizes: seq<nat>, es: seq<Event>) {
    forall n :: 0 <= n < |es| ==> Served(Track(s, id, es[..n]), first, last, sizes, es[n])
  }

  /** The message q asks for block b on behalf of r: one Block2 option, nothing else changed but the ID; it fits the
      message object if r does. */
  predicate AsksFor(r: Request, q: Request, b: Block) {
    && q == r.(messageID := q.messageID, options := q.options)
    && NotOfKind(q.options, BLOCK2) == NotOfKind(r.options, BLOCK2)
    && OfKind(q.options, BLOCK2) == [PackageOption(BLOCK2, BlockOf(b))] && b.size < 8
    && (Ready(r) ==> Ready(q))
  }

  /** What holds of a transfer of r at every point of a run. */
  predicate Going(s: State, r: Request, first: nat, last: nat, sizes: seq<nat>, t: Transfer, now: State) {
    && |t.asked| == (if t.done then last - first else t.answers)
    && t.answers <= last - first + 1 == |sizes| && (t.done <==> t.answers == last - first + 1)
    && (forall j :: 0 <= j < |t.asked| ==> AsksFor(r, t.asked[j], Block(sizes[j], first + j + 1, 0)))
    && (forall j :: 0 <= j < |t.asked| ==> t.asked[j] in now.sent && s.counter <= t.asked[j].messageID < now.counter)
    && (forall i, j :: 0 <= i < j < |t.asked| ==> t.asked[i].messageID < t.asked[j].messageID)
    && t.id == Current(r, t).messageID
    && (t.done ==> t.id < now.counter && !HasID(now.list, t.id))
    && (!t.done ==> Current(r, t) in now.list)
  }

  /** The request that stands in the list for the transfer. */
  function Current(r: Request, t: Transfer): Request { if t.asked == [] then r else t.asked[|t.asked| - 1] }

  lemma FindsIt(list: seq<Request>, q: Request)
    requires DistinctIDs(list) && q in list
    ensures IndexOf(list, q.messageID) < |list| && list[IndexOf(list, q.messageID)] == q
  {
    var k :| 0 <= k < |list| && list[k] == q;
  }

  lemma OtherStepKeeps(now: State, e: Event, q: Request)
    requires Fresh(now) && q in now.list && !(e.Ack? && e.id == q.messageID)
    requires InRange(now, Step(now, e))
    ensures q in Step(now, e).list
  {
    hide SetOption, Remove;
    if e.Ack? {
      var i := IndexOf(now.list, e.id);
      RemoveKeeps(now.list, e.id);
      if i < |now.list| && e.block.Some? && e.block.value.more != 0 {
        var next := NextRequest(now.list[i], now.counter, e.block.value);
        RenewalKeepsDistinctIff(now.list, i, next);
        RemoveKeeps(now.list[i := next], now.counter);
        var k :| 0 <= k < |now.list| && now.list[k] == q;
        assert now.list[i := next][k] == q;
      }
    }
  }

  /** Only the message just sent can be new in the list. */
  lemma StepLists(now: State, e: Event)
    ensures var t := Step(now, e);
            forall q :: q in t.list ==>
              || q in now.list
              || (q.messageID == now.counter && (t.sent == now.sent + [q] || (e == Unknown && q == Bare(now.counter))))
  {
    hide SetOption, IndexOf, HasID;
  }

  lemma GoneStaysGone(now: State, e: Event, id: uint16)
    requires id < now.counter && !HasID(now.list, id)
    ensures !HasID(Step(now, e).list, id)
  {
    hide OnAck, OnNew, OnUnknown;
    StepLists(now, e);
    forall q | q in now.list
      ensures q.messageID != id
    {
      var k :| 0 <= k < |now.list| && now.list[k] == q;
    }
    forall k | 0 <= k < |Step(now, e).list|
      ensures Step(now, e).list[k].messageID != id
    {
      assert Step(now, e).list[k] in Step(now, e).list;
    }
  }

  /** An answer with the flag set: the next block is asked for under the counter's value. */
  lemma AnswerMore(now: State, q: Request, b: Block)
    requires Fresh(now) && q in now.list && q.kind == CONFIRMABLE && b.more != 0
    ensures var t, next := OnAck(now, q.messageID, Some(b)), NextRequest(q, now.counter, b);
            t.sent == now.sent + [next] && next in t.list && t.counter == Wrap16(now.counter + 1)
  {
    FindsIt(now.list, q);
    var i, next := IndexOf(now.list, q.messageID), NextRequest(q, now.counter, b);
    assert now.list[i := next][i] == next;
  }

  /** An answer without the flag: the request leaves the list. */
  lemma AnswerLast(now: State, q: Request, b: Block)
    requires Fresh(now) && q in now.list && b.more == 0
    ensures var t := OnAck(now, q.messageID, Some(b));
            t.sent == now.sent && t.counter == now.counter && !HasID(t.list, q.messageID)
  {
    RemoveKeeps(now.list, q.messageID);
  }

  /** The next request keeps the size of the answer and asks for the block behind it. */
  lemma NextAsksFor(r: Request, q: Request, now: Block, id: uint16, b: Block)
    requires |OfKind(r.options, BLOCK2)| <= 1 && (q == r || AsksFor(r, q, now)) && b.size < 8
    ensures AsksFor(r, NextRequest(q, id, b), Block(b.size, b.number + 1, 0))
    ensures NextRequest(q, id, b).messageID == id
  {
    hide Ready, SetOption, OfKind, NotOfKind;
    SetOptionKeepsOthers(q.options, BLOCK2, BlockOf(Block(b.size, b.number + 1, 0)));
    if Ready(q) {
      BlockKeepsReady(q, id, Block(b.size, b.number + 1, 0));
    }
  }

  /** A block-wise transfer under any interleaving with other requests, other acknowledgements and repeated ones:
      answer j makes the client ask for block first + j + 1 in the size of that answer, each once and under a fresh ID,
      and the request leaves the list with the answer that carries block last, no sooner and no later. */
  lemma {:induction false} TransferRun(s: State, r: Request, first: nat, last: nat, sizes: seq<nat>, es: seq<Event>)
    requires Fresh(s) && r in s.list && r.kind == CONFIRMABLE && |OfKind(r.options, BLOCK2)| <= 1
    requires first <= last && |sizes| == last - first + 1
    requires Server(s, r.messageID, first, last, sizes, es) && InRange(s, Run(s, es))
    ensures Going(s, r, first, last, sizes, Track(s, r.messageID, es), Run(s, es))
  {
    if es != [] {
      var p, e := es[..|es| - 1], es[|es| - 1];
      RunSends(s, p);
      StepSends(Run(s, p), e);
      RunKeepsFresh(s, p);
      assert Server(s, r.messageID, first, last, sizes, p) by {
        assert forall n :: 0 <= n < |p| ==> p[..n] == es[..n];
      }
      TransferRun(s, r, first, last, sizes, p);
      assert Served(Track(s, r.messageID, p), first, last, sizes, e);
      TransferStep(s, r, first, last, sizes, Track(s, r.messageID, p), Run(s, p), e);
    }
  }

  lemma TransferStep(s: State, r: Request, first: nat, last: nat, sizes: seq<nat>, t: Transfer, now: State, e: Event)
    requires r.kind == CONFIRMABLE && |OfKind(r.options, BLOCK2)| <= 1 && r.messageID < s.counter <= now.counter
    requires Fresh(now) && InRange(now, Step(now, e)) && first <= last
    requires Going(s, r, first, last, sizes, t, now) && Served(t, first, last, sizes, e)
    ensures Going(s, r, first, last, sizes, Follow(t, now, e, Step(now, e)), Step(now, e))
  {
    hide OnAck, OnNew, OnUnknown, NextRequest, AsksFor;
    var q, next := Current(r, t), Step(now, e);
    StepSends(now, e);
    SameKind(s, r, first, last, sizes, t, now);
    if !Answers(t, e) {
      if t.done {
        GoneStaysGone(now, e, t.id);
      } else {
        OtherStepKeeps(now, e, q);
      }
      GoingKept(s, r, first, last, sizes, t, now, next);
    } else if e.block.value.more != 0 {
      AnswerMore(now, q, e.block.value);
      var asked := Block(if t.answers > 0 then sizes[t.answers - 1] else 0, first + t.answers, 0);
      NextAsksFor(r, q, asked, now.counter, e.block.value);
      GoingAsked(s, r, first, last, sizes, t, now, next, NextRequest(q, now.counter, e.block.value));
    } else {
      AnswerLast(now, q, e.block.value);
      GoingDone(s, r, first, last, sizes, t, now, next);
    }
  }

  /** The request keeps its type through a transfer. */
  lemma SameKind(s: State, r: Request, first: nat, last: nat, sizes: seq<nat>, t: Transfer, now: State)
    requires Going(s, r, first, last, sizes, t, now)
    ensures Current(r, t).kind == r.kind
  {
    hide OfKind, NotOfKind, Ready;
  }

  /** A step that is no answer. */
  lemma GoingKept(s: State, r: Request, first: nat, last: nat, sizes: seq<nat>, t: Transfer, now: State, next: State)
    requires Going(s, r, first, last, sizes, t, now) && now.sent <= next.sent && now.counter <= next.counter
    requires if t.done then !HasID(next.list, t.id) else Current(r, t) in next.list
    ensures Going(s, r, first, last, sizes, t, next)
  {
    hide AsksFor, HasID;
  }

  /** An answer that makes the client ask on. */
  lemma GoingAsked(s: State, r: Request, first: nat, last: nat, sizes: seq<nat>, t: Transfer, now: State, next: State,
                   q: Request)
    requires Going(s, r, first, last, sizes, t, now) && !t.done && first + t.answers < last
    requires next.sent == now.sent + [q] && next.counter == now.counter + 1 && s.counter <= now.counter
    requires q.messageID == now.counter && q in next.list
    requires AsksFor(r, q, Block(sizes[t.answers], first + t.answers + 1, 0))
    ensures Going(s, r, first, last, sizes, Transfer(q.messageID, t.asked + [q], t.answers + 1, false), next)
  {
    hide AsksFor, HasID;
  }

  /** The last answer. */
  lemma GoingDone(s: State, r: Request, first: nat, last: nat, sizes: seq<nat>, t: Transfer, now: State, next: State)
    requires Going(s, r, first, last, sizes, t, now) && !t.done && first + t.answers == last
    requires next.sent == now.sent && next.counter == now.counter && !HasID(next.list, t.id) && t.id < now.counter
    ensures Going(s, r, first, last, sizes, t.(answers := t.answers + 1, done := true), next)
  {
    hide AsksFor, HasID;
  }

  // The transfer on the wire

  /** Every message of the transfer, as the server reads it: message j is accepted behind any bytes of its buffer, and
      its Block2 option asks for block first + j + 1 in the size of answer j, without the flag, as long as the blocks
      have numbers of 20 bits. */
  lemma TransferOnWire(s: State, r: Request, first: nat, last: nat, sizes: seq<nat>, es: seq<Event>, j: nat,
                       received: seq<byte>)
    requires Fresh(s) && r in s.list && r.kind == CONFIRMABLE && |OfKind(r.options, BLOCK2)| <= 1 && Ready(r)
    requires first <= last < 0x10_0000 && |sizes| == last - first + 1
    requires Server(s, r.messageID, first, last, sizes, es) && InRange(s, Run(s, es))
    requires j < |Track(s, r.messageID, es).asked|
    ensures j < |sizes|
    ensures var q := Track(s, r.messageID, es).asked[j];
            && q in Run(s, es).sent && Ready(q)
            && (var b := EncodeMessage(MessageOf(q));
                b <= received && |b| + 2 <= |received| ==>
                  && Reads(received, |b|, MessageOf(q))
                  && forall opts :: StableSortOf(opts, PackageCalls(q.options)) ==>
                       Received(opts) == Some(Block(sizes[j], first + j + 1, 0)))
  {
    hide Fresh, Server, OfKind, NotOfKind, PackageCalls, EncodeMessage, Reads, StableSortOf, Received, Run, Sendable;
    TransferRun(s, r, first, last, sizes, es);
    var q := Track(s, r.messageID, es).asked[j];
    var asked := Block(sizes[j], first + j + 1, 0);
    assert AsksFor(r, q, asked);
    var b := EncodeMessage(MessageOf(q));
    if b <= received && |b| + 2 <= |received| {
      AskedBlockIsRead(q, asked, received);
    }
  }
}
