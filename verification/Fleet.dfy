/** Several relays side by side: what one of them does leaves the others as they are. */
module Fleet {
  import opened RelaySpec
  import opened RelayObject

  /** No relay's memory is another's. */
  ghost predicate Apart(p: Relay, q: Relay)
    reads p, q
  {
    && p != q
    && (p.sendBuffer != null ==> p.sendBuffer != q.sendBuffer && p.sendBuffer != q.recvBuffer)
    && (p.recvBuffer != null ==> p.recvBuffer != q.sendBuffer && p.recvBuffer != q.recvBuffer)
  }

  ghost function Buffers(rs: seq<Relay>): set<object>
    reads rs
  {
    (set i | 0 <= i < |rs| && rs[i].sendBuffer != null :: rs[i].sendBuffer as object)
    + (set i | 0 <= i < |rs| && rs[i].recvBuffer != null :: rs[i].recvBuffer as object)
  }

  /** Valid relays with memory of their own, each in the state listed for it. */
  ghost predicate Holds(rs: seq<Relay>, states: seq<State>)
    reads rs, Buffers(rs)
  {
    && |rs| == |states|
    && (forall i :: 0 <= i < |rs| ==> rs[i].Valid() && rs[i].State() == states[i])
    && (forall i, j :: 0 <= i < |rs| && 0 <= j < |rs| && i != j ==> Apart(rs[i], rs[j]))
  }

  method EnqueueAt(ghost rs: seq<Relay>, ghost states: seq<State>, ghost i: nat, r: Relay, d: Datagram, result: SendResult)
    returns (ok: bool)
    requires Holds(rs, states) && i < |rs| && r == rs[i]
    modifies r, r.sendBuffer
    ensures Holds(rs, states[i := Enqueue(states[i], d, result).state]) && ok == Enqueue(states[i], d, result).ok
    ensures fresh(Buffers(rs) - old(Buffers(rs)))
  {
    hide Relay.Valid;
    hide Relay.State;
    hide Enqueue;
    ok := r.Enqueue(d, result);
  }

  method HandleAt(ghost rs: seq<Relay>, ghost states: seq<State>, ghost i: nat, r: Relay, e: Event)
    returns (ok: bool)
    requires Holds(rs, states) && i < |rs| && r == rs[i]
    modifies r, r.recvBuffer
    ensures Holds(rs, states[i := Handle(states[i], e).state]) && ok == Handle(states[i], e).ok
    ensures fresh(Buffers(rs) - old(Buffers(rs)))
  {
    hide Relay.Valid;
    hide Relay.State;
    hide Handle;
    ok := r.Handle(e);
  }

  method ReceiveAt(ghost rs: seq<Relay>, ghost states: seq<State>, ghost i: nat, r: Relay)
    returns (sz: nat, buffer: array?<Byte>)
    requires Holds(rs, states) && i < |rs| && r == rs[i]
    modifies r
    ensures Holds(rs, states[i := Receive(states[i])]) && sz == |states[i].unread|
    ensures sz > 0 ==> buffer != null && sz <= buffer.Length && buffer[..sz] == states[i].unread
    ensures Buffers(rs) == old(Buffers(rs))
  {
    hide Relay.Valid;
    hide Relay.State;
    sz, buffer := r.Receive();
  }

  /** Any of the three calls, as RelaySpec names them. */
  method StepAt(ghost rs: seq<Relay>, ghost states: seq<State>, ghost i: nat, r: Relay, step: Step) returns (ok: bool)
    requires Holds(rs, states) && i < |rs| && r == rs[i]
    modifies r, r.sendBuffer, r.recvBuffer
    ensures Holds(rs, states[i := Next(states[i], step).state]) && ok == Next(states[i], step).ok
    ensures fresh(Buffers(rs) - old(Buffers(rs)))
  {
    hide Holds;
    hide Enqueue;
    hide Handle;
    match step
    case Offer(d, result) => ok := EnqueueAt(rs, states, i, r, d, result);
    case React(e) => ok := HandleAt(rs, states, i, r, e);
    case Fetch =>
      var sz, buffer := ReceiveAt(rs, states, i, r);
      ok := true;
  }

  /** A new relay is apart from all that exist. */
  method Enlist(hasRemote: bool, ghost rs: seq<Relay>, ghost states: seq<State>) returns (r: Relay)
    requires Holds(rs, states)
    ensures fresh(r) && Holds(rs + [r], states + [Init(hasRemote)])
    ensures Buffers(rs + [r]) == Buffers(rs)
  {
    hide Relay.Valid;
    hide Relay.State;
    r := new Relay(hasRemote);
    assert forall i :: 0 <= i < |rs| ==> (rs + [r])[i] == rs[i];
  }

  lemma HoldsTells(rs: seq<Relay>, states: seq<State>)
    requires Holds(rs, states)
    ensures |rs| == |states|
    ensures forall i :: 0 <= i < |rs| ==> rs[i].remote == states[i].remote && rs[i].dynamicOut == states[i].dynamicOut
  {
  }

  /** Distinct members of a fleet are a fleet. */
  lemma Select(rs: seq<Relay>, states: seq<State>, rs': seq<Relay>, states': seq<State>, picks: seq<nat>)
    requires Holds(rs, states) && |rs'| == |states'| == |picks|
    requires forall k :: 0 <= k < |picks| ==> picks[k] < |rs| && rs'[k] == rs[picks[k]] && states'[k] == states[picks[k]]
    requires forall k, l :: 0 <= k < l < |picks| ==> picks[k] != picks[l]
    ensures Holds(rs', states') && Buffers(rs') <= Buffers(rs)
  {
    hide Relay.Valid;
    hide Relay.State;
    hide Apart;
    forall i, j | 0 <= i < |rs'| && 0 <= j < |rs'| && i != j
      ensures Apart(rs'[i], rs'[j])
    {
      assert Apart(rs[picks[i]], rs[picks[j]]);
    }
  }
}
