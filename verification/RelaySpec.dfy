/** A relay as its peers see it: one FIFO of deferred datagrams, one received datagram, and a ledger. */
module RelaySpec {

  type Byte = b: int | 0 <= b < 256

  type Datagram = seq<Byte>

  /** The capacity of a receive buffer. */
  const BUF_SZ: nat := 0x1_0000

  /** What sendto may do: take the datagram, ask to wait, give up on this one, or give up altogether. */
  datatype SendResult = Transferred | WouldBlock | Undeliverable | SendBroken

  /** What recvfrom may do; an empty datagram makes it return 0, which the caller takes for an error. */
  datatype RecvResult = Received(bytes: Datagram) | Nothing | RecvBroken

  /** Where every datagram handed to the relay went. */
  datatype Ledger = Ledger(
    offered: seq<Datagram>,   // handed to relay_enqueue
    taken: seq<Datagram>,     // of these, those for which it returned 0
    sent: seq<Datagram>,      // given to the network
    dropped: seq<Datagram>,   // no remote address, or undeliverable
    vanished: seq<Datagram>,  // deferred into the buffer with length 0, which reads as an empty buffer
    deferred: seq<Datagram>,  // those put into the FIFO
    departed: seq<Datagram>)  // those that left it

  datatype State = State(remote: bool, dynamicOut: bool, pending: seq<Datagram>, unread: Datagram, ledger: Ledger)

  datatype Outcome = Outcome(state: State, ok: bool)

  function Init(remote: bool): State {
    State(remote, !remote, [], [], Ledger([], [], [], [], [], [], []))
  }

  /** relay_enqueue: send at once if possible, even past what is pending; defer only when it would block. */
  function Enqueue(s: State, d: Datagram, result: SendResult): Outcome {
    var l := s.ledger.(offered := s.ledger.offered + [d]);
    var t := l.(taken := l.taken + [d]);
    if !s.remote then Outcome(s.(ledger := t.(dropped := t.dropped + [d])), true)
    else match result
      case Transferred =>
        if d != [] then Outcome(s.(ledger := t.(sent := t.sent + [d])), true)
        else Outcome(s.(ledger := l), false)
      case Undeliverable => Outcome(s.(ledger := t.(dropped := t.dropped + [d])), true)
      case SendBroken => Outcome(s.(ledger := l), false)
      case WouldBlock =>
        if d == [] && s.pending == [] then Outcome(s.(ledger := t.(vanished := t.vanished + [d])), true)
        else Outcome(s.(pending := s.pending + [d], ledger := t.(deferred := t.deferred + [d])), true)
  }

  /** relay_receive: hands out the received datagram once. */
  function Receive(s: State): State {
    s.(unread := [])
  }

  /** The read half of relay_handle. */
  function HandleRead(s: State, readable: bool, result: RecvResult): Outcome {
    if !readable || s.unread != [] then Outcome(s, true)
    else match result
      case Nothing => Outcome(s, true)
      case RecvBroken => Outcome(s, false)
      case Received(bytes) =>
        if bytes == [] then Outcome(s, false)
        else
          var got := if |bytes| <= BUF_SZ then bytes else bytes[..BUF_SZ];
          Outcome(s.(unread := got, remote := s.remote || s.dynamicOut), true)
  }

  /** The oldest pending datagram is off: to the network, or for nothing. */
  function Depart(s: State, delivered: bool): State
    requires s.pending != []
  {
    var d, l := s.pending[0], s.ledger;
    s.(pending := s.pending[1..],
       ledger := l.(departed := l.departed + [d],
                    sent := if delivered then l.sent + [d] else l.sent,
                    dropped := if delivered then l.dropped else l.dropped + [d]))
  }

  /** The write half of relay_handle. */
  function HandleWrite(s: State, writable: bool, result: SendResult): Outcome {
    if !writable || s.pending == [] then Outcome(s, true)
    else match result
      case Transferred => if s.pending[0] != [] then Outcome(Depart(s, true), true) else Outcome(s, false)
      case Undeliverable => Outcome(Depart(s, false), true)
      case WouldBlock => Outcome(s, true)
      case SendBroken => Outcome(s, false)
  }

  /** What select and the sockets answer for one relay in one iteration of the main loop. */
  datatype Event = Event(readable: bool, received: RecvResult, writable: bool, written: SendResult)

  /** relay_handle: a hard read error skips the write half. */
  function Handle(s: State, e: Event): Outcome {
    var r := HandleRead(s, e.readable, e.received);
    if r.ok then HandleWrite(r.state, e.writable, e.written) else r
  }

  // ---------------------------------------------------------------------------------------------
  // What every run keeps

  /** As many copies of each datagram were taken as are sent, dropped, pending or vanished. */
  ghost predicate Accounted(taken: seq<Datagram>, sent: seq<Datagram>, dropped: seq<Datagram>,
                            pending: seq<Datagram>, vanished: seq<Datagram>)
  {
    multiset(taken) == multiset(sent) + multiset(dropped) + multiset(pending) + multiset(vanished)
  }

  /** Every datagram taken is in exactly one place, and the FIFO order of the deferred is kept. */
  ghost predicate Conserved(s: State) {
    var l := s.ledger;
    && Accounted(l.taken, l.sent, l.dropped, s.pending, l.vanished)
    && l.deferred == l.departed + s.pending
    && (forall i :: 0 <= i < |l.vanished| ==> l.vanished[i] == [])
    && (s.pending != [] ==> s.remote)
  }

  datatype Step = Offer(d: Datagram, result: SendResult) | Fetch | React(e: Event)

  function Next(s: State, step: Step): Outcome {
    match step
    case Offer(d, result) => Enqueue(s, d, result)
    case Fetch => Outcome(Receive(s), true)
    case React(e) => Handle(s, e)
  }

  /** A run of a live relay: it ends with the first step that fails. */
  function Run(s: State, steps: seq<Step>): State
    decreases |steps|
  {
    if steps == [] then s
    else
      var o := Next(s, steps[0]);
      if o.ok then Run(o.state, steps[1..]) else o.state
  }

  lemma TakeAccounted(t: seq<Datagram>, s: seq<Datagram>, x: seq<Datagram>, p: seq<Datagram>, v: seq<Datagram>, d: Datagram)
    requires Accounted(t, s, x, p, v)
    ensures Accounted(t + [d], s + [d], x, p, v) && Accounted(t + [d], s, x + [d], p, v)
    ensures Accounted(t + [d], s, x, p + [d], v) && Accounted(t + [d], s, x, p, v + [d])
  {
  }

  lemma DepartAccounted(t: seq<Datagram>, s: seq<Datagram>, x: seq<Datagram>, p: seq<Datagram>, v: seq<Datagram>)
    requires Accounted(t, s, x, p, v) && p != []
    ensures Accounted(t, s + [p[0]], x, p[1..], v) && Accounted(t, s, x + [p[0]], p[1..], v)
  {
    assert p == [p[0]] + p[1..];
  }

  lemma OfferConserves(s: State, d: Datagram, result: SendResult)
    requires Conserved(s)
    ensures Conserved(Enqueue(s, d, result).state)
  {
    hide Accounted;
    var l := s.ledger;
    TakeAccounted(l.taken, l.sent, l.dropped, s.pending, l.vanished, d);
    assert l.deferred + [d] == l.departed + (s.pending + [d]);
  }

  lemma DepartConserves(s: State, delivered: bool)
    requires Conserved(s) && s.pending != []
    ensures Conserved(Depart(s, delivered))
  {
    hide Accounted;
    var d, l := s.pending[0], s.ledger;
    DepartAccounted(l.taken, l.sent, l.dropped, s.pending, l.vanished);
    assert l.deferred == (l.departed + [d]) + s.pending[1..];
  }

  lemma SamePending(s: State, s': State)
    requires Conserved(s) && s'.ledger == s.ledger && s'.pending == s.pending && (s.remote ==> s'.remote)
    ensures Conserved(s')
  {
  }

  lemma HandleConserves(s: State, e: Event)
    requires Conserved(s)
    ensures Conserved(Handle(s, e).state)
  {
    hide Conserved;
    hide Depart;
    var r := HandleRead(s, e.readable, e.received);
    SamePending(s, r.state);
    if r.ok && r.state.pending != [] {
      DepartConserves(r.state, true);
      DepartConserves(r.state, false);
    }
  }

  lemma StepConserves(s: State, step: Step)
    requires Conserved(s)
    ensures Conserved(Next(s, step).state)
  {
    hide Conserved;
    hide Enqueue;
    hide Handle;
    match step
    case Offer(d, result) => OfferConserves(s, d, result);
    case Fetch => SamePending(s, Receive(s));
    case React(e) => HandleConserves(s, e);
  }

  /** Over every run from a conserved state, what was taken is sent, dropped, pending or an empty that vanished. */
  lemma {:induction false} RunConserves(s: State, steps: seq<Step>)
    requires Conserved(s)
    ensures Conserved(Run(s, steps))
    decreases |steps|
  {
    if steps != [] {
      StepConserves(s, steps[0]);
      if Next(s, steps[0]).ok {
        RunConserves(Next(s, steps[0]).state, steps[1..]);
      }
    }
  }

  ghost predicate OffersNonEmpty(steps: seq<Step>) {
    forall i :: 0 <= i < |steps| ==> steps[i].Offer? ==> steps[i].d != []
  }

  /** Only an empty datagram deferred with nothing pending is lost without a trace. */
  lemma VanishesIff(s: State, step: Step)
    ensures Next(s, step).state.ledger.vanished != s.ledger.vanished
            <==> step.Offer? && step.d == [] && step.result == WouldBlock && s.remote && s.pending == []
  {
    if step.Offer? {
      var v := s.ledger.vanished;
      assert |v + [step.d]| > |v|;
    }
  }

  lemma {:induction false} NonEmptyNeverVanishes(s: State, steps: seq<Step>)
    requires OffersNonEmpty(steps)
    ensures Run(s, steps).ledger.vanished == s.ledger.vanished
    decreases |steps|
  {
    if steps != [] {
      VanishesIff(s, steps[0]);
      if Next(s, steps[0]).ok {
        NonEmptyNeverVanishes(Next(s, steps[0]).state, steps[1..]);
      }
    }
  }

  /** A new relay given no empty datagrams: all it took is sent, dropped or pending, in whole. */
  lemma Conservation(remote: bool, steps: seq<Step>)
    requires OffersNonEmpty(steps)
    ensures var s := Run(Init(remote), steps); var l := s.ledger;
            && multiset(l.taken) == multiset(l.sent) + multiset(l.dropped) + multiset(s.pending)
            && l.deferred == l.departed + s.pending
  {
    RunConserves(Init(remote), steps);
    NonEmptyNeverVanishes(Init(remote), steps);
  }

  /** A deferred datagram can be overtaken: sends are tried at once whatever is pending. */
  lemma DeferredIsOvertaken(d: Datagram, e: Datagram)
    requires d != [] && e != []
    ensures var s := Run(Init(true), [Offer(d, WouldBlock), Offer(e, Transferred)]);
            s.ledger.sent == [e] && s.pending == [d]
  {
    var s0 := Init(true);
    var s1 := Next(s0, Offer(d, WouldBlock)).state;
    var steps := [Offer(d, WouldBlock), Offer(e, Transferred)];
    assert steps[1..] == [Offer(e, Transferred)];
    assert Run(s1, steps[1..]) == Next(s1, Offer(e, Transferred)).state;
  }

  // ---------------------------------------------------------------------------------------------
  // When a relay fails, and when its FIFO moves

  /** An event on which a relay fails: a hard error of its socket, or receiving or sending nothing at all. */
  predicate Breaks(s: State, e: Event) {
    || (e.readable && s.unread == [] && (e.received == RecvBroken || e.received == Received([])))
    || (e.writable && s.pending != [] && (e.written == SendBroken || (e.written == Transferred && s.pending[0] == [])))
  }

  /** A relay fails exactly on such an event, or when an offer meets a hard error or sends nothing at all. */
  lemma FailsIff(s: State, step: Step)
    ensures !Next(s, step).ok <==>
            match step
            case Offer(d, result) => s.remote && (result == SendBroken || (result == Transferred && d == []))
            case Fetch => false
            case React(e) => Breaks(s, e)
  {
    if step.React? {
      ReadKeepsPending(s, step.e.readable, step.e.received);
    }
  }

  lemma ReadKeepsPending(s: State, readable: bool, result: RecvResult)
    ensures HandleRead(s, readable, result).state.pending == s.pending
    ensures HandleRead(s, readable, result).state.ledger == s.ledger
  {
  }

  /** The oldest pending datagram leaves, to the network exactly if the socket took it, and only then. */
  lemma DepartsIff(s: State, e: Event)
    requires Handle(s, e).ok
    ensures var t, leaves := Handle(s, e).state, e.writable && s.pending != [] && e.written in {Transferred, Undeliverable};
            && t.pending == (if leaves then s.pending[1..] else s.pending)
            && t.ledger.sent == s.ledger.sent + (if leaves && e.written == Transferred then s.pending[..1] else [])
            && t.ledger.dropped == s.ledger.dropped + (if leaves && e.written == Undeliverable then s.pending[..1] else [])
  {
    ReadKeepsPending(s, e.readable, e.received);
  }

  /** k iterations in which the socket takes whatever it is given. */
  function Accepting(k: nat): (steps: seq<Step>)
    ensures |steps| == k && forall i :: 0 <= i < k ==> steps[i] == React(Event(false, Nothing, true, Transferred))
  {
    seq(k, i => React(Event(false, Nothing, true, Transferred)))
  }

  /** A socket that takes what it is given empties the FIFO, in order, one datagram an iteration. */
  lemma {:induction false} Drains(s: State)
    requires forall i :: 0 <= i < |s.pending| ==> s.pending[i] != []
    ensures Run(s, Accepting(|s.pending|)).pending == []
    ensures Run(s, Accepting(|s.pending|)).ledger.sent == s.ledger.sent + s.pending
    decreases |s.pending|
  {
    var steps := Accepting(|s.pending|);
    if s.pending != [] {
      hide Handle;
      FailsIff(s, steps[0]);
      DepartsIff(s, steps[0].e);
      var t := Next(s, steps[0]).state;
      assert steps[1..] == Accepting(|t.pending|);
      assert s.ledger.sent + s.pending == s.ledger.sent + s.pending[..1] + s.pending[1..];
      Drains(t);
    }
  }

  // ---------------------------------------------------------------------------------------------
  // What a relay reads, and how it learns where to send

  /** What an event gives to read: at most 65536 bytes of a datagram, and nothing else. */
  lemma ReadsWhole(s: State, e: Event)
    ensures s.unread != [] ==> Handle(s, e).state.unread == s.unread
    ensures s.unread == [] && !(e.readable && e.received.Received?) ==> Handle(s, e).state.unread == []
    ensures s.unread == [] && e.readable && e.received.Received? ==>
              var bytes, got := e.received.bytes, Handle(s, e).state.unread;
              if |bytes| < 65536 then got == bytes else got == bytes[..65536]
  {
  }

  /** A step that reads a datagram, which tells a relay without a remote address where to send. */
  predicate Hears(s: State, step: Step) {
    && step.React? && step.e.readable && s.unread == []
    && step.e.received.Received? && step.e.received.bytes != []
  }

  /** A relay has a remote address exactly if it had one, or learns it from the sender of what it reads. */
  lemma LearnsIff(s: State, step: Step)
    ensures var t := Next(s, step).state;
            t.dynamicOut == s.dynamicOut && (t.remote <==> s.remote || (s.dynamicOut && Hears(s, step)))
  {
  }

  /** Some step of a run reads a datagram. */
  predicate EverHears(s: State, steps: seq<Step>)
    decreases |steps|
  {
    steps != [] && (Hears(s, steps[0]) || (Next(s, steps[0]).ok && EverHears(Next(s, steps[0]).state, steps[1..])))
  }

  lemma {:induction false} RunLearns(s: State, steps: seq<Step>)
    ensures var t := Run(s, steps);
            t.dynamicOut == s.dynamicOut && (t.remote <==> s.remote || (s.dynamicOut && EverHears(s, steps)))
    decreases |steps|
  {
    hide Next;
    hide Hears;
    if steps != [] {
      LearnsIff(s, steps[0]);
      if Next(s, steps[0]).ok {
        RunLearns(Next(s, steps[0]).state, steps[1..]);
      }
    }
  }

  /** Without a remote address nothing is pending or sent, and all that was offered is dropped. */
  ghost predicate Deaf(s: State) {
    && !s.remote && s.pending == [] && s.ledger.sent == [] && s.ledger.taken == s.ledger.offered
    && s.ledger.dropped == s.ledger.offered
  }

  lemma {:induction false} DeafRun(s: State, steps: seq<Step>)
    requires Deaf(s) && !EverHears(s, steps)
    ensures Deaf(Run(s, steps))
    decreases |steps|
  {
    if steps != [] {
      assert Deaf(Next(s, steps[0]).state);
      if Next(s, steps[0]).ok {
        DeafRun(Next(s, steps[0]).state, steps[1..]);
      }
    }
  }

  /**
    * Over every run of a new relay: one that is given a remote address keeps it; any other has one exactly once it has
    * read a datagram, and until then drops whatever it is offered.
    */
  lemma AddressIff(remote: bool, steps: seq<Step>)
    ensures var s := Run(Init(remote), steps);
            && (s.remote <==> remote || EverHears(Init(remote), steps))
            && (!s.remote ==> s.ledger.dropped == s.ledger.offered && s.pending == [] && s.ledger.sent == [])
  {
    RunLearns(Init(remote), steps);
    if !remote && !EverHears(Init(remote), steps) {
      DeafRun(Init(remote), steps);
    }
  }
}
