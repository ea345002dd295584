/** The message queue of a session: the linked list under the session's mutex, and the interleavings of the threads
    that put messages with the worker that waits, pops, handles and resets. */
module WorkerQueue {
  import opened Bytes

  datatype Msg = Msg(id: nat, data: seq<byte>)

  // Interleavings

  /** Where the worker is: before its first lock, holding the mutex, waiting, woken but without the mutex, or dead on
      the null pointer that a pop from an empty queue follows. */
  datatype Phase = Starting | Busy | Waiting | Woken | Dead

  /** The session, with everything ever put and which of it is gone: the first `gone` messages were popped or cleared,
      those at the positions `handled` were popped. Each put signals; a signal wakes a waiting worker or is lost. */
  datatype State = State(phase: Phase, queue: seq<Msg>, put: seq<Msg>, gone: nat, handled: seq<nat>,
                         lost: nat)

  datatype Event = Put(msg: Msg) | Lock | Wait | Spurious | Resume | Reset

  /** A put needs the mutex, which the worker holds while it is busy. */
  predicate Enabled(s: State, e: Event) {
    match e
    case Put(_) => s.phase in {Starting, Waiting, Woken}
    case Lock => s.phase == Starting
    case Wait => s.phase == Busy
    case Spurious => s.phase == Waiting
    case Resume => s.phase == Woken
    case Reset => s.phase == Busy
  }

  function Step(s: State, e: Event): State {
    match e
    case Put(m) =>
      var t := s.(queue := s.queue + [m], put := s.put + [m]);
      if s.phase == Waiting then t.(phase := Woken) else t.(lost := s.lost + 1)
    case Lock => s.(phase := Busy)
    case Wait => s.(phase := Waiting)
    case Spurious => s.(phase := Woken)
    case Resume =>
      if s.queue == [] then s.(phase := Dead)
      else s.(phase := Busy, queue := s.queue[1..], gone := s.gone + 1, handled := s.handled + [s.gone])
    case Reset => s.(queue := [], gone := s.gone + |s.queue|)
  }

  const START := State(Starting, [], [], 0, [], 0)

  function Run(es: seq<Event>): State {
    if es == [] then START else Step(Run(es[..|es| - 1]), es[|es| - 1])
  }

  /** Every step of the run is enabled. */
  predicate Legal(es: seq<Event>) {
    es == [] || (Legal(es[..|es| - 1]) && Enabled(Run(es[..|es| - 1]), es[|es| - 1]))
  }

  /** Everything put is gone, in order, or in the queue; messages are handled at most once and in the order put. */
  predicate Conserved(s: State) {
    && s.gone <= |s.put| && s.queue == s.put[s.gone..]
    && (forall k :: 0 <= k < |s.handled| ==> s.handled[k] < s.gone)
    && (forall j, k :: 0 <= j < k < |s.handled| ==> s.handled[j] < s.handled[k])
  }

  lemma StepConserves(s: State, e: Event)
    requires Conserved(s)
    ensures Conserved(Step(s, e))
  {}

  /** Over every interleaving, with spurious wake-ups or without. */
  lemma {:induction false} RunConserves(es: seq<Event>)
    ensures Conserved(Run(es))
  {
    hide Conserved, Step;
    if es == [] {
      StartConserves();
    } else {
      RunConserves(es[..|es| - 1]);
      StepConserves(Run(es[..|es| - 1]), es[|es| - 1]);
    }
  }

  lemma StartConserves()
    ensures Conserved(START)
  {}

  /** The messages put in a run. */
  function Puts(es: seq<Event>): seq<Msg> {
    if es == [] then []
    else
      var e := es[|es| - 1];
      Puts(es[..|es| - 1]) + if e.Put? then [e.msg] else []
  }

  /** Some reset of the run found the message at put position k in the queue. */
  predicate ClearedIn(es: seq<Event>, k: nat) {
    exists n :: 0 <= n < |es| && es[n] == Reset && Run(es[..n]).gone <= k < |Run(es[..n]).put|
  }

  lemma ClearedSnoc(es: seq<Event>, k: nat)
    requires es != []
    ensures var p, e := es[..|es| - 1], es[|es| - 1];
            ClearedIn(es, k) <==> ClearedIn(p, k) || (e == Reset && Run(p).gone <= k < |Run(p).put|)
  {
    hide Run;
    var p := es[..|es| - 1];
    assert forall n :: 0 <= n < |p| ==> p[..n] == es[..n] && p[n] == es[n];
    assert es[..|p|] == p;
  }

  /** No message gets lost: over every run each one that is not in the queue any more was handled, or a reset found it
      in the queue, and not both. The others are in the queue. */
  lemma HandledOrCleared(es: seq<Event>)
    ensures var s := Run(es);
            && s.put == Puts(es) && s.gone <= |s.put| && s.queue == s.put[s.gone..]
            && (forall k: nat :: k in s.handled ==> k < s.gone)
            && (forall k: nat :: ClearedIn(es, k) ==> k < s.gone)
            && (forall k: nat :: k < s.gone ==> (k in s.handled <==> !ClearedIn(es, k)))
  {
    hide ClearedIn, Run, Puts;
    RunConserves(es);
    PutsAreAll(es);
    forall k: nat
      ensures var s := Run(es);
              && (k in s.handled ==> k < s.gone) && (ClearedIn(es, k) ==> k < s.gone)
              && (k < s.gone ==> (k in s.handled <==> !ClearedIn(es, k)))
    {
      HandledOrClearedAt(es, k);
    }
  }

  lemma {:induction false} PutsAreAll(es: seq<Event>)
    ensures Run(es).put == Puts(es)
  {
    if es != [] {
      PutsAreAll(es[..|es| - 1]);
    }
  }

  lemma {:induction false} HandledOrClearedAt(es: seq<Event>, k: nat)
    ensures var s := Run(es);
            && (k in s.handled ==> k < s.gone) && (ClearedIn(es, k) ==> k < s.gone)
            && (k < s.gone ==> (k in s.handled <==> !ClearedIn(es, k)))
  {
    hide ClearedIn, Step, Conserved;
    if es == [] {
      NothingCleared();
    } else {
      var p, e := es[..|es| - 1], es[|es| - 1];
      HandledOrClearedAt(p, k);
      ClearedSnoc(es, k);
      RunConserves(p);
      StepHandles(Run(p), e, k);
    }
  }

  lemma StepHandles(s: State, e: Event, k: nat)
    requires Conserved(s)
    ensures var t := Step(s, e);
            && (k in t.handled <==> k in s.handled || (e == Resume && s.queue != [] && k == s.gone))
            && t.gone == (if e == Resume && s.queue != [] then s.gone + 1 else if e == Reset then |s.put| else s.gone)
            && (e == Resume && s.queue != [] ==> s.gone < |s.put|) && s.gone <= |s.put|
  {}

  lemma NothingCleared()
    ensures forall k: nat :: !ClearedIn([], k)
  {}

  /** Without a reset every message that has left the queue was handled, in the order put. */
  lemma {:induction false} WithoutResetAllHandled(es: seq<Event>)
    requires Reset !in es
    ensures var s := Run(es); |s.handled| == s.gone && forall k :: 0 <= k < s.gone ==> s.handled[k] == k
  {
    if es != [] {
      WithoutResetAllHandled(es[..|es| - 1]);
    }
  }

  /** Directly behind a reset the queue is empty, and nothing else has happened. */
  lemma ResetEmpties(es: seq<Event>)
    requires Legal(es + [Reset])
    ensures var s, t := Run(es), Run(es + [Reset]);
            && t.queue == [] && t.gone == |t.put| && t.put == s.put && t.handled == s.handled && t.lost == s.lost
            && t.phase == s.phase == Busy
  {
    RunSnoc(es, Reset);
    RunConserves(es);
  }

  /** How many messages the resets of a run found in the queue. */
  function Clears(es: seq<Event>): nat {
    if es == [] then 0
    else Clears(es[..|es| - 1]) + if es[|es| - 1] == Reset then |Run(es[..|es| - 1]).queue| else 0
  }

  lemma {:induction false} GoneIsHandledAndCleared(es: seq<Event>)
    ensures Run(es).gone == |Run(es).handled| + Clears(es)
  {
    if es != [] {
      GoneIsHandledAndCleared(es[..|es| - 1]);
    }
  }

  /** The spurious wake-ups of a run. */
  function Spurs(es: seq<Event>): nat {
    if es == [] then 0 else Spurs(es[..|es| - 1]) + if es[|es| - 1] == Spurious then 1 else 0
  }

  /** Until the worker dies: every wake-up, by a signal that was not lost or spurious, has handled one message or is
      pending. */
  lemma {:induction false} WakeUpsBalance(es: seq<Event>)
    requires Legal(es) && Run(es).phase != Dead
    ensures var s := Run(es);
            |s.put| + Spurs(es) == s.lost + |s.handled| + if s.phase == Woken then 1 else 0
  {
    if es != [] {
      WakeUpsBalance(es[..|es| - 1]);
    }
  }

  /** Without spurious wake-ups a pending wake-up has a message to pop, so no pop meets an empty queue. */
  lemma {:induction false} WakeUpsHaveMessages(es: seq<Event>)
    requires Legal(es) && Spurious !in es
    ensures var s := Run(es);
            && s.phase != Dead && (s.phase == Woken ==> s.queue != [])
            && |s.put| == s.lost + |s.handled| + if s.phase == Woken then 1 else 0
  {
    if es != [] {
      WakeUpsHaveMessages(es[..|es| - 1]);
    }
  }

  /** A pop meets an empty queue exactly when there were more spurious wake-ups than signals lost, not counting those
      whose messages were cleared unhandled. */
  lemma PopMeetsEmptyQueueIff(es: seq<Event>)
    requires Legal(es) && Run(es).phase == Woken
    ensures Legal(es + [Resume])
    ensures var s := Run(es);
            Run(es + [Resume]).phase == Dead <==> Spurs(es) > s.lost - Clears(es)
  {
    GoneIsHandledAndCleared(es);
    RunConserves(es);
    WakeUpsBalance(es);
    RunSnoc(es, Resume);
  }

  /** A worker waits with messages in its queue exactly when more signals were lost than messages cleared unhandled and
      spurious wake-ups together. */
  lemma StrandedIff(es: seq<Event>)
    requires Legal(es) && Run(es).phase == Waiting
    ensures var s := Run(es);
            && |s.queue| == s.lost - Clears(es) - Spurs(es)
            && (s.queue != [] <==> s.lost > Clears(es) + Spurs(es))
  {
    GoneIsHandledAndCleared(es);
    RunConserves(es);
    WakeUpsBalance(es);
  }

  lemma RunSnoc(es: seq<Event>, e: Event)
    ensures Run(es + [e]) == Step(Run(es), e)
    ensures Legal(es + [e]) <==> Legal(es) && Enabled(Run(es), e)
  {
    assert (es + [e])[..|es|] == es;
  }

  /** One spurious wake-up can kill the worker ... */
  lemma SpuriousWakeUpKills()
    ensures Legal([Lock, Wait, Spurious, Resume]) && Run([Lock, Wait, Spurious, Resume]).phase == Dead
  {
    RunSnoc([], Lock);
    RunSnoc([Lock], Wait);
    RunSnoc([Lock, Wait], Spurious);
    RunSnoc([Lock, Wait, Spurious], Resume);
    assert [] + [Lock] == [Lock] && [Lock] + [Wait] == [Lock, Wait];
    assert [Lock, Wait] + [Spurious] == [Lock, Wait, Spurious];
    assert [Lock, Wait, Spurious] + [Resume] == [Lock, Wait, Spurious, Resume];
  }

  /** ... and need not: it can make up for a signal that was lost. */
  lemma SpuriousWakeUpHandles(m: Msg)
    ensures var es := [Put(m), Lock, Wait, Spurious, Resume];
            Legal(es) && Run(es).phase == Busy && Run(es).queue == []
  {
    hide Step;
    var a, b, c, d := [Put(m)], [Put(m), Lock], [Put(m), Lock, Wait], [Put(m), Lock, Wait, Spurious];
    RunSnoc([], Put(m));
    RunSnoc(a, Lock);
    RunSnoc(b, Wait);
    RunSnoc(c, Spurious);
    RunSnoc(d, Resume);
    assert [] + [Put(m)] == a && a + [Lock] == b && b + [Wait] == c && c + [Spurious] == d;
    assert d + [Resume] == [Put(m), Lock, Wait, Spurious, Resume];
    StepsOfHandled(m);
  }

  lemma StepsOfHandled(m: Msg)
    ensures var s := Step(Step(Step(START, Put(m)), Lock), Wait);
            && Enabled(START, Put(m)) && Enabled(Step(START, Put(m)), Lock)
            && Enabled(Step(Step(START, Put(m)), Lock), Wait)
            && Enabled(s, Spurious) && Enabled(Step(s, Spurious), Resume)
            && Step(Step(s, Spurious), Resume).phase == Busy && Step(Step(s, Spurious), Resume).queue == []
  {}

  // The linked list

  class Node {
    const msg: Msg
    var next: Node?

    constructor (msg: Msg)
      ensures this.msg == msg && next == null
    {
      this.msg, next := msg, null;
    }
  }

  class Session {
    var msgQ: Node?
    ghost var nodes: seq<Node>
    ghost var queue: seq<Msg>
    ghost var phase: Phase
    ghost var put: seq<Msg>
    ghost var gone: nat
    ghost var handled: seq<nat>
    ghost var lost: nat

    constructor ()
      ensures Linked() && nodes == [] && Snapshot() == START
    {
      msgQ, nodes, queue := null, [], [];
      phase, put, gone, handled, lost := Starting, [], 0, [], 0;
    }

    ghost function Snapshot(): State
      reads this
    {
      State(phase, queue, put, gone, handled, lost)
    }

    static ghost function After(ns: seq<Node>, i: nat): Node?
      requires i < |ns|
    {
      if i + 1 < |ns| then ns[i + 1] else null
    }

    ghost predicate Linked()
      reads this, nodes
    {
      && (forall i, j :: 0 <= i < j < |nodes| ==> nodes[i] != nodes[j])
      && msgQ == (if nodes == [] then null else nodes[0])
      && (forall i {:trigger nodes[i].next} :: 0 <= i < |nodes| ==> nodes[i].next == After(nodes, i))
      && |queue| == |nodes| && (forall i :: 0 <= i < |nodes| ==> nodes[i].msg == queue[i])
    }

    /** `msg_queue_put`, up to the signal. */
    method Append(node: Node)
      requires Linked() && node !in nodes
      modifies this`msgQ, this`nodes, this`queue, nodes, node
      ensures Linked() && nodes == old(nodes) + [node] && queue == old(queue) + [node.msg]
    {
      node.next := null;
      if msgQ == null {
        msgQ := node;
      } else {
        var p := msgQ;
        ghost var i := 0;
        while p.next != null
          invariant 0 <= i < |nodes| && p == nodes[i]
          decreases |nodes| - i
        {
          p, i := p.next, i + 1;
        }
        p.next := node;
      }
      nodes, queue := nodes + [node], queue + [node.msg];
    }

    /** `msg_queue_pop`: it does not look whether there is a message. */
    method Pop() returns (node: Node)
      requires Linked() && queue != []
      modifies this`msgQ, this`nodes, this`queue, nodes
      ensures Linked() && node == old(nodes[0]) && node.msg == old(queue[0]) && node.next == null
      ensures nodes == old(nodes[1..]) && queue == old(queue[1..])
    {
      node := msgQ;
      msgQ := msgQ.next;
      node.next := null;
      nodes, queue := nodes[1..], queue[1..];
    }

    /** `msg_queue_clear`. */
    method Clear()
      requires Linked()
      modifies this`msgQ, this`nodes, this`queue
      ensures Linked() && queue == []
    {
      var msg := msgQ;
      while msg != null
        invariant Linked() && msg == msgQ && forall n :: n in nodes ==> n in old(nodes)
        decreases |nodes|
      {
        msgQ := msgQ.next;
        nodes, queue := nodes[1..], queue[1..];
        msg := msgQ;
      }
      msgQ := null;
    }

    /** `msg_queue_put`: the message is appended, and the signal wakes the worker if it waits. */
    method Put(node: Node)
      requires Linked() && node !in nodes && Enabled(Snapshot(), Event.Put(node.msg))
      modifies this, nodes, node
      ensures Linked() && nodes == old(nodes) + [node] && put == old(put) + [node.msg]
      ensures Snapshot() == Step(old(Snapshot()), Event.Put(node.msg))
    {
      Append(node);
      put := put + [node.msg];
      if phase == Waiting {
        phase := Woken;
      } else {
        lost := lost + 1;
      }
    }

    /** The worker between two messages: the first lock, the wait, and a wake-up nobody signalled. */
    ghost method Worker(e: Event)
      requires Linked() && e in {Lock, Wait, Spurious} && Enabled(Snapshot(), e)
      modifies this
      ensures Linked() && Snapshot() == Step(old(Snapshot()), e)
    {
      phase := if e == Lock then Busy else if e == Wait then Waiting else Woken;
    }

    /** The worker comes back from the wait and pops: without a message it dereferences the null pointer. */
    method PopWoken() returns (node: Node?)
      requires Linked() && Enabled(Snapshot(), Resume)
      modifies this, nodes
      ensures Linked() && Snapshot() == Step(old(Snapshot()), Resume)
      ensures node == null <==> phase == Dead
      ensures node == null <==> old(nodes) == []
      ensures node == null ==> nodes == []
      ensures node != null ==>
                && node == old(nodes[0]) && node.msg == old(queue[0]) && nodes == old(nodes[1..])
                && gone == old(gone) + 1 && handled == old(handled) + [old(gone)] && phase == Busy
      ensures put == old(put) && lost == old(lost)
    {
      if msgQ == null {
        phase := Dead;
        return null;
      }
      node := Pop();
      phase, gone, handled := Busy, gone + 1, handled + [gone];
    }

    /** `session_reset`, as far as the queue is concerned. */
    method ResetSession()
      requires Linked() && Enabled(Snapshot(), Reset)
      modifies this
      ensures Linked() && Snapshot() == Step(old(Snapshot()), Reset)
      ensures nodes == [] && queue == [] && handled == old(handled) && put == old(put)
    {
      gone := gone + |queue|;
      Clear();
    }
  }
}
