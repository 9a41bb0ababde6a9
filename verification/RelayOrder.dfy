/**
  * In which order datagrams leave a relay. Values cannot tell, since two datagrams may be alike, so every datagram
  * goes by the number of those offered before it.
  */
module RelayOrder {
  import opened RelaySpec

  /** The datagram with this index left: to the network, or for nothing. */
  datatype Exit = Exit(index: nat, delivered: bool)

  /** The indices of those taken, of those put into the FIFO, of those in it, and all exits in order. */
  datatype Marks = Marks(taken: seq<nat>, deferred: seq<nat>, pending: seq<nat>, left: seq<Exit>)

  /** A step as its effect on the ledger shows it. An exit on an offer is the offered's, on an event the oldest pending's. */
  function Mark(m: Marks, s: State, step: Step): Marks {
    var index, l, l' := |s.ledger.offered|, s.ledger, Next(s, step).state.ledger;
    var oldest := if step.Offer? || m.pending == [] then index else m.pending[0];
    Marks(if |l'.taken| > |l.taken| then m.taken + [index] else m.taken,
          if |l'.deferred| > |l.deferred| then m.deferred + [index] else m.deferred,
          (if |l'.departed| > |l.departed| && m.pending != [] then m.pending[1..] else m.pending)
          + (if |l'.deferred| > |l.deferred| then [index] else []),
          m.left + (if |l'.sent| > |l.sent| then [Exit(oldest, true)] else [])
          + (if |l'.dropped| > |l.dropped| then [Exit(oldest, false)] else []))
  }

  /** The marks of a whole run, which ends with the first step that fails. */
  function Marked(m: Marks, s: State, steps: seq<Step>): Marks
    decreases |steps|
  {
    if steps == [] then m
    else
      var o := Next(s, steps[0]);
      if o.ok then Marked(Mark(m, s, steps[0]), o.state, steps[1..]) else Mark(m, s, steps[0])
  }

  const UNMARKED: Marks := Marks([], [], [], [])

  function Indices(left: seq<Exit>): (r: seq<nat>)
    ensures |r| == |left| && forall i :: 0 <= i < |r| ==> r[i] == left[i].index
  {
    seq(|left|, i requires 0 <= i < |left| => left[i].index)
  }

  // ---------------------------------------------------------------------------------------------
  // The marks are true

  ghost predicate Below(tags: seq<nat>, n: nat) {
    forall i :: 0 <= i < |tags| ==> tags[i] < n
  }

  /** The datagrams with these indices. */
  function Named(offered: seq<Datagram>, tags: seq<nat>): (r: seq<Datagram>)
    requires Below(tags, |offered|)
    ensures |r| == |tags| && forall i :: 0 <= i < |r| ==> r[i] == offered[tags[i]]
  {
    seq(|tags|, i requires 0 <= i < |tags| => offered[tags[i]])
  }

  /** The indices of the exits to the network, or of the others, in order. */
  function Those(left: seq<Exit>, delivered: bool): seq<nat> {
    if left == [] then []
    else
      var k := |left| - 1;
      Those(left[..k], delivered) + if left[k].delivered == delivered then [left[k].index] else []
  }

  /** The exits of datagrams that had been deferred, in the order of leaving. */
  function Waited(left: seq<Exit>, deferred: seq<nat>): seq<nat> {
    if left == [] then []
    else
      var k := |left| - 1;
      Waited(left[..k], deferred) + if left[k].index in deferred then [left[k].index] else []
  }

  ghost predicate Ascending(tags: seq<nat>) {
    forall i, j :: 0 <= i < j < |tags| ==> tags[i] < tags[j]
  }

  ghost predicate InRange(m: Marks, n: nat) {
    && Below(m.taken, n) && Below(m.deferred, n) && Below(m.pending, n) && Below(Indices(m.left), n)
    && Below(Those(m.left, true), n) && Below(Those(m.left, false), n)
  }

  /** The marks name the ledger's datagrams; the deferred leave in the order in which they were offered. */
  ghost predicate True(m: Marks, s: State) {
    var l := s.ledger;
    && InRange(m, |l.offered|)
    && Named(l.offered, m.taken) == l.taken
    && Named(l.offered, m.deferred) == l.deferred
    && Named(l.offered, m.pending) == s.pending
    && Named(l.offered, Those(m.left, true)) == l.sent
    && Named(l.offered, Those(m.left, false)) == l.dropped
    && Ascending(m.taken) && Ascending(m.deferred)
    && m.deferred == Waited(m.left, m.deferred) + m.pending
    && |m.left| + |m.pending| <= |m.taken|
  }

  lemma NamedGrows(offered: seq<Datagram>, tags: seq<nat>, d: Datagram)
    requires Below(tags, |offered|)
    ensures Below(tags, |offered| + 1) && Below(tags + [|offered|], |offered| + 1)
    ensures Named(offered + [d], tags) == Named(offered, tags)
    ensures Named(offered + [d], tags + [|offered|]) == Named(offered, tags) + [d]
  {
  }

  lemma NamedMoves(offered: seq<Datagram>, tags: seq<nat>, others: seq<nat>)
    requires Below(tags, |offered|) && Below(others, |offered|) && tags != []
    ensures Below(tags[1..], |offered|) && Named(offered, tags[1..]) == Named(offered, tags)[1..]
    ensures tags[0] < |offered| && Below(others + [tags[0]], |offered|)
    ensures Named(offered, others + [tags[0]]) == Named(offered, others) + [Named(offered, tags)[0]]
  {
  }

  lemma BelowAppend(tags: seq<nat>, a: nat, n: nat)
    requires Below(tags, n) && a < n
    ensures Below(tags + [a], n)
  {
  }

  lemma NotIn(tags: seq<nat>, n: nat)
    requires Below(tags, n)
    ensures n !in tags
  {
  }

  lemma AscendingGrows(tags: seq<nat>, n: nat)
    requires Ascending(tags) && Below(tags, n)
    ensures Ascending(tags + [n])
  {
  }

  lemma ExitTells(left: seq<Exit>, e: Exit, deferred: seq<nat>)
    ensures Indices(left + [e]) == Indices(left) + [e.index]
    ensures Those(left + [e], e.delivered) == Those(left, e.delivered) + [e.index]
    ensures Those(left + [e], !e.delivered) == Those(left, !e.delivered)
    ensures Waited(left + [e], deferred) == Waited(left, deferred) + if e.index in deferred then [e.index] else []
  {
    assert (left + [e])[..|left|] == left;
  }

  lemma {:induction false} WaitedGrows(left: seq<Exit>, deferred: seq<nat>, n: nat)
    requires Below(Indices(left), n)
    ensures Waited(left, deferred + [n]) == Waited(left, deferred)
  {
    if left != [] {
      var k := |left| - 1;
      assert Indices(left)[k] == left[k].index;
      assert Indices(left[..k]) == Indices(left)[..k];
      WaitedGrows(left[..k], deferred, n);
    }
  }

  // ---------------------------------------------------------------------------------------------
  // What each kind of step does to the marks

  /** A datagram is offered, and that is all that is known of it; or nothing happens. */
  lemma Passes(m: Marks, s: State, s': State)
    requires True(m, s) && s'.pending == s.pending
    requires s'.ledger == s.ledger || exists d :: s'.ledger == s.ledger.(offered := s.ledger.offered + [d])
    ensures True(m, s')
  {
    if s'.ledger != s.ledger {
      var d :| s'.ledger == s.ledger.(offered := s.ledger.offered + [d]);
      hide Those;
      hide Waited;
      hide Ascending;
      NamedGrows(s.ledger.offered, m.taken, d);
      NamedGrows(s.ledger.offered, m.deferred, d);
      NamedGrows(s.ledger.offered, m.pending, d);
      NamedGrows(s.ledger.offered, Those(m.left, true), d);
      NamedGrows(s.ledger.offered, Those(m.left, false), d);
    }
  }

  lemma AllGrow(m: Marks, s: State, d: Datagram)
    requires True(m, s)
    ensures True(m, s.(ledger := s.ledger.(offered := s.ledger.offered + [d])))
  {
    Passes(m, s, s.(ledger := s.ledger.(offered := s.ledger.offered + [d])));
  }

  /** What is sent or dropped at once leaves after all that left before. */
  lemma LeavesAtOnce(m: Marks, s: State, s': State, d: Datagram, delivered: bool)
    requires True(m, s) && s'.pending == s.pending
    requires var l, l' := s.ledger, s'.ledger;
             && l'.offered == l.offered + [d] && l'.taken == l.taken + [d] && l'.deferred == l.deferred
             && l'.sent == (if delivered then l.sent + [d] else l.sent)
             && l'.dropped == (if delivered then l.dropped else l.dropped + [d])
    ensures True(m.(taken := m.taken + [|s.ledger.offered|], left := m.left + [Exit(|s.ledger.offered|, delivered)]), s')
  {
    hide Those;
    hide Waited;
    hide Ascending;
    hide Named;
    hide Below;
    hide Indices;
    var i, l := |s.ledger.offered|, s.ledger;
    AllGrow(m, s, d);
    BelowAppend(Indices(m.left), i, i + 1);
    NamedGrows(l.offered, m.taken, d);
    NamedGrows(l.offered, Those(m.left, delivered), d);
    AscendingGrows(m.taken, i);
    NotIn(m.deferred, i);
    if delivered {
      ExitTells(m.left, Exit(i, true), m.deferred);
    } else {
      ExitTells(m.left, Exit(i, false), m.deferred);
    }
    assert Waited(m.left, m.deferred) + [] == Waited(m.left, m.deferred);
  }

  lemma IsDeferred(m: Marks, s: State, s': State, d: Datagram)
    requires True(m, s) && s'.pending == s.pending + [d]
    requires var l, l' := s.ledger, s'.ledger;
             && l'.offered == l.offered + [d] && l'.taken == l.taken + [d] && l'.deferred == l.deferred + [d]
             && l'.sent == l.sent && l'.dropped == l.dropped
    ensures var i := |s.ledger.offered|;
            True(m.(taken := m.taken + [i], deferred := m.deferred + [i], pending := m.pending + [i]), s')
  {
    hide Those;
    hide Waited;
    hide Ascending;
    var i, l := |s.ledger.offered|, s.ledger;
    AllGrow(m, s, d);
    NamedGrows(l.offered, m.taken, d);
    NamedGrows(l.offered, m.deferred, d);
    NamedGrows(l.offered, m.pending, d);
    AscendingGrows(m.taken, i);
    AscendingGrows(m.deferred, i);
    WaitedGrows(m.left, m.deferred, i);
    assert Waited(m.left, m.deferred) + (m.pending + [i]) == m.deferred + [i];
  }

  lemma IsLost(m: Marks, s: State, s': State, d: Datagram)
    requires True(m, s) && s'.pending == s.pending
    requires var l, l' := s.ledger, s'.ledger;
             && l'.offered == l.offered + [d] && l'.taken == l.taken + [d] && l'.deferred == l.deferred
             && l'.sent == l.sent && l'.dropped == l.dropped
    ensures True(m.(taken := m.taken + [|s.ledger.offered|]), s')
  {
    hide Those;
    hide Waited;
    hide Ascending;
    AllGrow(m, s, d);
    NamedGrows(s.ledger.offered, m.taken, d);
    AscendingGrows(m.taken, |s.ledger.offered|);
  }

  lemma Departs(m: Marks, s: State, s': State, delivered: bool)
    requires True(m, s) && s.pending != [] && s'.pending == s.pending[1..]
    requires var l, l', d := s.ledger, s'.ledger, s.pending[0];
             && l'.offered == l.offered && l'.taken == l.taken && l'.deferred == l.deferred
             && l'.sent == (if delivered then l.sent + [d] else l.sent)
             && l'.dropped == (if delivered then l.dropped else l.dropped + [d])
    ensures m.pending != []
    ensures True(m.(pending := m.pending[1..], left := m.left + [Exit(m.pending[0], delivered)]), s')
  {
    hide Those;
    hide Waited;
    hide Ascending;
    hide Named;
    hide Below;
    hide Indices;
    var e := Exit(m.pending[0], delivered);
    ExitTells(m.left, e, m.deferred);
    NamedMoves(s.ledger.offered, m.pending, Those(m.left, delivered));
    BelowAppend(Indices(m.left), e.index, |s.ledger.offered|);
    var w := Waited(m.left, m.deferred);
    assert m.deferred[|w|] == m.pending[0];
    assert w + m.pending == (w + [m.pending[0]]) + m.pending[1..];
  }

  lemma MarkOffer(m: Marks, s: State, d: Datagram, result: SendResult)
    ensures var i := |s.ledger.offered|;
            Mark(m, s, Offer(d, result)) ==
            if !s.remote || result == Undeliverable then m.(taken := m.taken + [i], left := m.left + [Exit(i, false)])
            else if result == Transferred && d != [] then m.(taken := m.taken + [i], left := m.left + [Exit(i, true)])
            else if result != WouldBlock then m
            else if d == [] && s.pending == [] then m.(taken := m.taken + [i])
            else m.(taken := m.taken + [i], deferred := m.deferred + [i], pending := m.pending + [i])
  {
    var l := s.ledger;
    assert |l.taken + [d]| > |l.taken| && |l.deferred + [d]| > |l.deferred|;
    assert |l.sent + [d]| > |l.sent| && |l.dropped + [d]| > |l.dropped|;
    assert m.pending + [] == m.pending && m.left + [] == m.left;
    assert forall e: Exit :: m.left + [e] + [] == m.left + [e];
  }

  /** Whether an event takes the oldest pending datagram off the FIFO. */
  predicate Releases(s: State, e: Event) {
    && HandleRead(s, e.readable, e.received).ok && e.writable && s.pending != []
    && (e.written == Undeliverable || (e.written == Transferred && s.pending[0] != []))
  }

  lemma MarkReact(m: Marks, s: State, e: Event)
    requires s.pending != [] ==> m.pending != []
    ensures Mark(m, s, React(e)) ==
            if Releases(s, e) then m.(pending := m.pending[1..], left := m.left + [Exit(m.pending[0], e.written == Transferred)])
            else m
  {
    var l := s.ledger;
    ReadKeepsPending(s, e.readable, e.received);
    assert m.pending + [] == m.pending && m.left + [] == m.left;
    if Releases(s, e) {
      var d := s.pending[0];
      assert |l.departed + [d]| > |l.departed| && |l.sent + [d]| > |l.sent| && |l.dropped + [d]| > |l.dropped|;
      assert forall e: Exit :: m.left + [e] + [] == m.left + [e];
      assert m.pending[1..] + [] == m.pending[1..];
    }
  }

  /** A step of a relay keeps the marks true. */
  lemma MarkTrue(m: Marks, s: State, step: Step)
    requires True(m, s)
    ensures True(Mark(m, s, step), Next(s, step).state)
  {
    hide Those;
    hide Waited;
    hide Ascending;
    match step
    case Offer(d, result) => OfferTrue(m, s, d, result);
    case React(e) => ReactTrue(m, s, e);
    case Fetch =>
      MarkFetch(m, s);
      Passes(m, s, Receive(s));
  }

  lemma OfferTrue(m: Marks, s: State, d: Datagram, result: SendResult)
    requires True(m, s)
    ensures True(Mark(m, s, Offer(d, result)), Enqueue(s, d, result).state)
  {
    hide True;
    hide Mark;
    var t, l := Enqueue(s, d, result).state, s.ledger;
    MarkOffer(m, s, d, result);
    if !s.remote || result == Undeliverable {
      LeavesAtOnce(m, s, t, d, false);
    } else if result == Transferred && d != [] {
      LeavesAtOnce(m, s, t, d, true);
    } else if result != WouldBlock {
      assert t.ledger == l.(offered := l.offered + [d]);
      Passes(m, s, t);
    } else if d == [] && s.pending == [] {
      IsLost(m, s, t, d);
    } else {
      IsDeferred(m, s, t, d);
    }
  }

  lemma SomePending(m: Marks, s: State)
    requires True(m, s)
    ensures |m.pending| == |s.pending|
  {
  }

  lemma ReactTrue(m: Marks, s: State, e: Event)
    requires True(m, s)
    ensures True(Mark(m, s, React(e)), Handle(s, e).state)
  {
    hide True;
    hide Mark;
    ReadKeepsPending(s, e.readable, e.received);
    SomePending(m, s);
    MarkReact(m, s, e);
    if Releases(s, e) {
      Departs(m, s, Handle(s, e).state, e.written == Transferred);
    } else {
      Passes(m, s, Handle(s, e).state);
    }
  }

  // ---------------------------------------------------------------------------------------------
  // When the order is kept

  /** What has left and what is pending is, in this order, what was taken. */
  predicate Ordered(m: Marks) {
    m.taken == Indices(m.left) + m.pending
  }

  /**
    * Past what is pending, the socket takes a datagram or refuses it for good; or an empty one vanishes. For datagrams
    * that are not empty: an offer is answered Transferred or Undeliverable while something is pending.
    */
  predicate OutOfTurn(s: State, step: Step) {
    && step.Offer? && s.remote
    && if s.pending == [] then step.d == [] && step.result == WouldBlock
       else step.result == Undeliverable || (step.result == Transferred && step.d != [])
  }

  /** None of the steps of a run is out of turn. */
  predicate InTurn(s: State, steps: seq<Step>)
    decreases |steps|
  {
    steps == [] ||
    (!OutOfTurn(s, steps[0]) && (Next(s, steps[0]).ok ==> InTurn(Next(s, steps[0]).state, steps[1..])))
  }

  lemma SameEnd(x: seq<nat>, y: seq<nat>, a: nat)
    ensures x + [a] == y + [a] <==> x == y
  {
    assert (x + [a])[..|x|] == x && (y + [a])[..|y|] == y;
  }

  /** A step out of turn breaks the order, and no other step does or mends it. */
  lemma MarkOrdered(m: Marks, s: State, step: Step)
    requires True(m, s) && Conserved(s)
    ensures Ordered(Mark(m, s, step)) <==> Ordered(m) && !OutOfTurn(s, step)
  {
    hide Those;
    hide Waited;
    hide Ascending;
    hide Mark;
    SomePending(m, s);
    match step
    case Offer(d, result) =>
      var i, x := |s.ledger.offered|, Indices(m.left);
      MarkOffer(m, s, d, result);
      SameEnd(m.taken, x + m.pending, i);
      assert x + (m.pending + [i]) == x + m.pending + [i];
      forall b: bool
        ensures Indices(m.left + [Exit(i, b)]) + m.pending == x + [i] + m.pending
      {
        ExitTells(m.left, Exit(i, b), []);
      }
      if m.pending == [] {
        assert x + [i] + m.pending == x + m.pending + [i];
      } else {
        assert (x + [i] + m.pending)[|x| + |m.pending|] != i;
      }
    case React(e) =>
      MarkReact(m, s, e);
      if Releases(s, e) {
        ExitTells(m.left, Exit(m.pending[0], e.written == Transferred), []);
        assert Indices(m.left) + [m.pending[0]] + m.pending[1..] == Indices(m.left) + m.pending;
      }
    case Fetch =>
      MarkFetch(m, s);
  }

  lemma MarkFetch(m: Marks, s: State)
    ensures Mark(m, s, Fetch) == m
  {
    assert m.pending + [] == m.pending && m.left + [] + [] == m.left;
  }

  lemma NothingMarked(remote: bool)
    ensures True(UNMARKED, Init(remote)) && Ordered(UNMARKED)
  {
    assert Indices([]) == [] && Waited([], []) == [];
  }

  /** Over every run the marks are true, and the order is kept if and only if no step was out of turn. */
  lemma {:induction false} RunOrdered(m: Marks, s: State, steps: seq<Step>)
    requires True(m, s) && Conserved(s)
    ensures True(Marked(m, s, steps), Run(s, steps)) && Conserved(Run(s, steps))
    ensures Ordered(Marked(m, s, steps)) <==> Ordered(m) && InTurn(s, steps)
    decreases |steps|
  {
    hide True;
    hide Conserved;
    hide Ordered;
    hide OutOfTurn;
    hide Mark;
    hide Next;
    if steps != [] {
      MarkTrue(m, s, steps[0]);
      StepConserves(s, steps[0]);
      MarkOrdered(m, s, steps[0]);
      if Next(s, steps[0]).ok {
        RunOrdered(Mark(m, s, steps[0]), Next(s, steps[0]).state, steps[1..]);
      }
    }
  }

  /** No offer of a run is answered with the datagram taken or refused while something is pending. */
  predicate NeverOvertakes(s: State, steps: seq<Step>)
    decreases |steps|
  {
    steps == [] ||
    (!(steps[0].Offer? && s.pending != [] && steps[0].result in {Transferred, Undeliverable})
     && (Next(s, steps[0]).ok ==> NeverOvertakes(Next(s, steps[0]).state, steps[1..])))
  }

  lemma {:induction false} NonEmptyInTurn(s: State, steps: seq<Step>)
    requires OffersNonEmpty(steps) && Conserved(s)
    ensures InTurn(s, steps) <==> NeverOvertakes(s, steps)
    decreases |steps|
  {
    hide Next;
    if steps != [] {
      StepConserves(s, steps[0]);
      if Next(s, steps[0]).ok {
        NonEmptyInTurn(Next(s, steps[0]).state, steps[1..]);
      }
    }
  }

  /**
    * Over every run of a new relay, datagrams leave in the order offered, those pending last, if and only if no offer
    * was out of turn; if none is empty, if and only if none was answered with Transferred or Undeliverable while
    * something was pending. Those that were deferred leave in the order offered whatever happens.
    */
  lemma OrderIff(remote: bool, steps: seq<Step>)
    ensures var m, s := Marked(UNMARKED, Init(remote), steps), Run(Init(remote), steps);
            && (m.taken == Indices(m.left) + m.pending <==> InTurn(Init(remote), steps))
            && (OffersNonEmpty(steps) ==>
                  (m.taken == Indices(m.left) + m.pending <==> NeverOvertakes(Init(remote), steps)))
            && m.deferred == Waited(m.left, m.deferred) + m.pending && Ascending(m.deferred) && Ascending(m.taken)
            && True(m, s)
  {
    NothingMarked(remote);
    RunOrdered(UNMARKED, Init(remote), steps);
    if OffersNonEmpty(steps) {
      NonEmptyInTurn(Init(remote), steps);
    }
  }

  /** The order is lost when a second datagram is sent while the first waits. */
  lemma OvertakenOutOfOrder(d: Datagram, e: Datagram)
    requires d != [] && e != []
    ensures !Ordered(Marked(UNMARKED, Init(true), [Offer(d, WouldBlock), Offer(e, Transferred)]))
  {
    var steps := [Offer(d, WouldBlock), Offer(e, Transferred)];
    assert steps[1..][0] == Offer(e, Transferred);
    OrderIff(true, steps);
  }
}
