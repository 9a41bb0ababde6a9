/** The node of udprelayd.c: its ring of relays, its outward relay, its lookup and its counter. */
module NodeObject {
  import opened CList
  import opened Fleet
  import opened NodeRuns
  import opened NodeSpec
  import opened RelayRing
  import opened RelayObject
  import opened RelaySpec
  import opened RoundRobin
  import opened SeenLookup
  import opened Survival
  import opened Window

  class Udprelay {
    var outward: Relay
    var relays: Node?<Relay>
    var lookup: Lookup
    var relaysNum: int
    var counter: nat

    ghost var ring: seq<Node<Relay>>
    ghost var members: seq<Relay>  // the outward relay, then the ring's
    ghost var states: seq<State>   // of the members

    /** The ring and the relays, apart from the lookup and the counter. */
    ghost predicate Linked()
      reads this`outward, this`relays, this`relaysNum, this`ring, this`members, this`states, ring, members, Buffers(members)
    {
      && Ring(relays, ring) && relaysNum == |ring|
      && |states| == |members| == |ring| + 1 && members[0] == outward
      && Carry(ring, members) && Holds(members, states)
    }

    ghost predicate Valid()
      reads this, ring, members, Buffers(members), lookup, lookup.pool
    {
      Linked() && counter < WRAP && lookup.Usable()
    }

    /** udprelay_init: one relay for each configured remote address or lack of one. */
    constructor (hasRemote: bool, remotes: seq<bool>, track: nat)
      ensures (track > 0 ==> Valid()) && Linked() && lookup.Valid() && |ring| == |remotes| && |lookup.pool| == track && lookup.accepted == [] && counter == 0
      ensures states == InitAll([hasRemote] + remotes)
      ensures outward.remote == hasRemote && outward.dynamicOut == !hasRemote
      ensures forall i :: 0 <= i < |ring| ==> ring[i].data.remote == remotes[i] && ring[i].data.dynamicOut == !remotes[i]
    {
      hide Ring;
      hide Carry;
      hide Holds;
      hide Buffers;
      hide Lookup.Valid;
      hide InitAll;
      var out, list, n;
      ghost var nodes, rs;
      out, list, n, nodes, rs := NewRelays(hasRemote, remotes);
      assert allocated(rs) && allocated(nodes) && allocated(Buffers(rs));
      var lu := new Lookup(track);
      outward, relays, lookup, relaysNum, counter := out, list, lu, n, 0;
      ring, members, states := nodes, rs, InitAll([hasRemote] + remotes);
      CarryTells(nodes, rs);
    }

    /** A step for every relay, after which those that failed are gone. */
    method StepRelays(steps: nat -> Step)
      requires Linked()
      modifies this`relays, this`relaysNum, this`ring, this`members, this`states
      modifies ring`prev, ring`next, members, Buffers(members)
      ensures Linked() && fresh(Buffers(members) - old(Buffers(members)))
      ensures Holds(old(members), Stepped(old(states), steps))
      ensures ring == Kept(old(ring), Outcomes(old(states)[1..], steps))
      ensures members == KeepRest(old(members), Outcomes(old(states)[1..], steps))
      ensures states == Swept(old(states), steps)
      ensures forall k :: 0 <= k < |ring| ==> ring[k] in old(ring)
      ensures forall k :: 0 <= k < |members| ==> members[k] in old(members)
    {
      hide Ring;
      hide Holds;
      hide Buffers;
      hide Carry;
      hide Outcomes;
      hide Kept;
      hide KeepRest;
      hide Swept;
      hide Stepped;
      ghost var nodes, rs, ss, os := ring, members, states, Outcomes(states[1..], steps);
      NodeIsApart(this, rs);
      var list, count := Sweep(relays, relaysNum, steps, nodes, rs, ss);
      NodeIsApart(this, rs);
      ring, members, states := Kept(nodes, os), KeepRest(rs, os), Swept(ss, steps);
      relays, relaysNum := list, count;
    }

    /** The round-robin step: the next relay leads the ring. */
    method RotateRelays()
      requires Linked() && relays != null
      modifies this`relays, this`ring, this`members, this`states
      ensures Linked() && ring == Rotate(old(ring)) && states == RotateRest(old(states))
      ensures members == RotateRest(old(members)) && Buffers(members) == old(Buffers(members))
      ensures forall k :: 0 <= k < |ring| ==> ring[k] in old(ring)
      ensures forall k :: 0 <= k < |members| ==> members[k] in old(members)
    {
      hide Ring;
      hide Holds;
      hide Buffers;
      hide Carry;
      hide Rotate;
      hide RotateRest;
      NodeIsApart(this, members);
      RotateNodes(relays, ring, members, states);
      NoneNewRotated(ring);
      NoneNewRotated(members);
      relays := relays.next;
      ring, members, states := Rotate(ring), RotateRest(members), RotateRest(states);
    }

    /** udprelay_dispatch_inbound; `crashed` is the NULL dereference that follows when no relay is left. */
    method DispatchInbound(buffer: array<Byte>, sz: nat, sends: nat -> SendResult) returns (crashed: bool)
      requires Linked() && counter < WRAP && sz <= buffer.Length
      modifies this`relays, this`relaysNum, this`ring, this`members, this`states, this`counter
      modifies ring`prev, ring`next, members, Buffers(members)
      ensures var steps := Offers(Packet(old(counter), old(buffer[..sz])), sends);
              Dispatched(old(ring), old(members), old(states), steps, crashed)
      ensures BroadcastSpares(old(ring), ring, old(states), sends)
      ensures counter == (old(counter) + 1) % WRAP
      ensures Linked() && fresh(Buffers(members) - old(Buffers(members)))
      ensures forall k :: 0 <= k < |ring| ==> ring[k] in old(ring)
      ensures forall k :: 0 <= k < |members| ==> members[k] in old(members)
    {
      hide NoDuplicates;
      hide BroadcastSpares;
      hide Ring;
      hide Holds;
      hide Buffers;
      hide Carry;
      hide Stepped;
      hide Outcomes;
      hide Kept;
      hide KeepRest;
      hide Rotate;
      hide RotateRest;
      hide Packet;
      var pkt := Packet(counter, buffer[..sz]);
      ghost var rs := members;
      RingIsDistinct(relays, ring);
      HeaderRoundTrip(counter, buffer[..sz]);
      BroadcastLeaves(ring, states, pkt, sends);
      NodeIsApart(this, rs);
      StepRelays(Offers(pkt, sends));
      NodeIsApart(this, rs);
      NodeIsApart(this, members);
      assert allocated(rs) && allocated(Buffers(rs));
      counter := (counter + 1) % WRAP;
      crashed := relays == null;
      EmptyRing(relays, ring);
      if !crashed {
        RotateRelays();
      }
    }

    /**
      * Every relay that was present was offered the packet once and holds the outcome; those that did not fail
      * are the ring, rotated by one.
      */
    ghost predicate Dispatched(ring0: seq<Node<Relay>>, members0: seq<Relay>, states0: seq<State>, steps: nat -> Step,
                               crashed: bool)
      reads this`ring, this`members, this`states, members0, Buffers(members0)
    {
      && |states0| == |members0| == |ring0| + 1
      && var os := Outcomes(states0[1..], steps);
         && Holds(members0, Stepped(states0, steps))
         && crashed == (Kept(ring0, os) == [])
         && (!crashed ==> ring == Rotate(Kept(ring0, os)))
         && (!crashed ==> members == RotateRest(KeepRest(members0, os)))
         && (!crashed ==> states == RotateRest(Swept(states0, steps)))
    }

    /** relay_handle on the outward relay. */
    method HandleOutward(e: Event) returns (ok: bool)
      requires Linked()
      modifies this`states, members, Buffers(members)
      ensures Linked() && fresh(Buffers(members) - old(Buffers(members)))
      ensures states == old(states)[0 := Handle(old(states)[0], e).state] && ok == Handle(old(states)[0], e).ok
    {
      hide Ring;
      hide Holds;
      hide Handle;
      ghost var rs, ss := members, states;
      LinksAreApart(ring, rs);
      NodeIsApart(this, rs);
      ok := HandleAt(rs, ss, 0, outward, e);
      NodeIsApart(this, rs);
      states := ss[0 := Handle(ss[0], e).state];
    }

    /** relay_receive on the outward relay. */
    method FetchOutward() returns (sz: nat, buffer: array?<Byte>)
      requires Linked()
      modifies this`states, members
      ensures Linked() && Buffers(members) == old(Buffers(members))
      ensures states == old(states)[0 := Receive(old(states)[0])] && sz == |old(states)[0].unread|
      ensures sz > 0 ==> buffer != null && sz <= buffer.Length && buffer[..sz] == old(states)[0].unread
    {
      hide Ring;
      hide Holds;
      ghost var rs, ss := members, states;
      LinksAreApart(ring, rs);
      NodeIsApart(this, rs);
      sz, buffer := ReceiveAt(rs, ss, 0, outward);
      NodeIsApart(this, rs);
      states := ss[0 := Receive(ss[0])];
    }

    /** The receiving loop of the main loop: every datagram received goes through the lookup, once. */
    method DispatchReceived(results: nat -> SendResult)
      requires Linked() && lookup.Usable()
      modifies this`relays, this`relaysNum, this`ring, this`members, this`states
      modifies ring`prev, ring`next, members, Buffers(members), lookup, lookup.pool
      ensures Linked() && lookup.Usable() && fresh(Buffers(members) - old(Buffers(members)))
      ensures var n, s := |lookup.pool|, Sink(old(states)[0], old(lookup.accepted));
              var os, sink := Verdicts(n, s, old(states)[1..], results), SinkAt(n, s, old(states)[1..], results, |old(states)| - 1);
              && lookup.accepted == sink.accepted
              && ring == Kept(old(ring), os)
              && states == KeepRest(Settled(sink.out, old(states), os), os)
      ensures var n, s := |lookup.pool|, Sink(old(states)[0], old(lookup.accepted));
              ReceivingSpares(old(ring), ring, n, s, old(states)[1..], results)
      ensures forall k :: 0 <= k < |ring| ==> ring[k] in old(ring)
      ensures forall k :: 0 <= k < |members| ==> members[k] in old(members)
    {
      hide NoDuplicates;
      hide Ring;
      hide Holds;
      hide Buffers;
      hide Carry;
      hide Kept;
      hide KeepRest;
      hide Settled;
      hide Verdicts;
      hide SinkAt;
      hide ReceivingSpares;
      hide Lookup.Usable;
      ghost var nodes, rs, ss, n, s := ring, members, states, |lookup.pool|, Sink(states[0], lookup.accepted);
      ghost var os, sink := Verdicts(n, s, ss[1..], results), SinkAt(n, s, ss[1..], results, |nodes|);
      RingIsDistinct(relays, nodes);
      ReceivingKeepsIff(nodes, n, s, ss[1..], results);
      NodeIsApart(this, rs);
      var list, count := ReceiveSweep(relays, relaysNum, outward, lookup, results, s, nodes, rs, ss);
      NodeIsApart(this, rs);
      LookupIsApart(lookup, nodes, rs);
      ring, members, states := Kept(nodes, os), KeepRest(rs, os), KeepRest(Settled(sink.out, ss, os), os);
      relays, relaysNum := list, count;
    }

    /** The first half of an iteration: the outward relay and the ring's relays are handled. */
    method HandleAll(env: Env) returns (ok: bool)
      requires Linked()
      modifies this`relays, this`relaysNum, this`ring, this`members, this`states
      modifies ring`prev, ring`next, members, Buffers(members)
      ensures ok == NodeSpec.HandleAll(old(states), env).ok
      ensures ok ==> Linked() && fresh(Buffers(members) - old(Buffers(members)))
      ensures ok ==> states == NodeSpec.HandleAll(old(states), env).states && From(old(ring), old(members))
      ensures ok ==> ring == Kept(old(ring), Outcomes(old(states)[1..], Reactions(env)))
      ensures ok <==> !Breaks(old(states)[0], env.outward)
      ensures ok ==> forall i :: 0 <= i < |old(ring)| ==>
                (old(ring)[i] in ring <==> !Breaks(old(states)[i + 1], env.relays(i)))
    {
      hide NoDuplicates;
      hide Ring;
      hide Holds;
      hide Carry;
      hide Buffers;
      hide Handle;
      hide Swept;
      hide Breaks;
      RingIsDistinct(relays, ring);
      HandlingKeepsIff(ring, states, env);
      FailsIff(states[0], React(env.outward));
      NodeIsApart(this, members);
      ghost var before := Buffers(members);
      ok := HandleOutward(env.outward);
      NodeIsApart(this, members);
      assert states[1..] == old(states)[1..];
      if ok {
        ghost var between := Buffers(members);
        label Outward:
        StepRelays(Reactions(env));
        forall o | o in Buffers(members) && o !in before
          ensures fresh(o)
        {
          if o !in between {
            assert o in Buffers(members) - between;
            assert fresh@Outward(o);
          } else {
            assert o in between - before;
          }
        }
      }
    }

    /** Nothing but nodes and relays that were there before. */
    ghost predicate From(ring0: seq<Node<Relay>>, members0: seq<Relay>)
      reads this`ring, this`members
    {
      && (forall k :: 0 <= k < |ring| ==> ring[k] in ring0)
      && (forall k :: 0 <= k < |members| ==> members[k] in members0)
    }

    /** What the outward relay received is fetched and broadcast. */
    method Inbound(env: Env) returns (crashed: bool)
      requires Linked() && counter < WRAP
      modifies this`relays, this`relaysNum, this`ring, this`members, this`states, this`counter
      modifies ring`prev, ring`next, members, Buffers(members)
      ensures var b := NodeSpec.Inbound(old(states), old(counter), env.broadcast);
              crashed == !b.ok && (b.ok ==> states == b.states && counter == b.counter)
      ensures Linked() && fresh(Buffers(members) - old(Buffers(members))) && From(old(ring), old(members))
      ensures var d := old(states)[0].unread;
              !crashed ==> ring == if d == [] then old(ring)
                                   else Rotate(Kept(old(ring), Outcomes(old(states)[1..], Offers(Packet(old(counter), d), env.broadcast))))
    {
      hide Ring;
      hide Holds;
      hide Carry;
      hide Buffers;
      hide Packet;
      hide Swept;
      hide Stepped;
      hide Outcomes;
      hide Kept;
      hide KeepRest;
      hide Rotate;
      hide RotateRest;
      NodeIsApart(this, members);
      var sz, buffer := FetchOutward();
      NodeIsApart(this, members);
      assert states[1..] == old(states)[1..];
      if sz == 0 {
        return false;
      }
      NoneLeft(ring, states, Offers(Packet(counter, buffer[..sz]), env.broadcast));
      ghost var before := Buffers(members);
      label Fetched:
      crashed := DispatchInbound(buffer, sz, env.broadcast);
      forall o | o in Buffers(members) && o !in before
        ensures fresh(o)
      {
        assert o in Buffers(members) - before;
        assert fresh@Fetched(o);
      }
    }

    /** The iteration up to the receiving loop; the lookup has no part in it. */
    method Exchange(env: Env) returns (ok: bool, crashed: bool)
      requires Linked() && counter < WRAP
      modifies this`relays, this`relaysNum, this`ring, this`members, this`states, this`counter
      modifies ring`prev, ring`next, members, Buffers(members)
      ensures var h := NodeSpec.HandleAll(old(states), env); var b := NodeSpec.Inbound(h.states, old(counter), env.broadcast);
              ok == h.ok && crashed == (ok && !b.ok) && (ok && b.ok ==> states == b.states && counter == b.counter)
      ensures ok ==> Linked() && fresh(Buffers(members) - old(Buffers(members))) && From(old(ring), old(members))
      ensures ok && !crashed ==> ring == Stay(old(ring), old(states), old(counter), env)
    {
      hide Linked;
      hide Buffers;
      hide NodeSpec.Inbound;
      hide NodeSpec.HandleAll;
      NodeIsApart(this, members);
      crashed := false;
      ok := HandleAll(env);
      NodeIsApart(this, members);
      if ok {
        ghost var before := Buffers(members);
        label Handled:
        crashed := Inbound(env);
        forall o | o in Buffers(members) && o !in old(Buffers(members))
          ensures fresh(o)
        {
          if o !in before {
            assert o in Buffers(members) - before;
            assert fresh@Handled(o);
          } else {
            assert o in before - old(Buffers(members));
          }
        }
      }
    }

    /** One iteration of the main loop, after a select that found something to do. */
    method Iterate(env: Env) returns (ghost done: Iteration, running: bool)
      requires Valid()
      modifies this`relays, this`relaysNum, this`ring, this`members, this`states, this`counter
      modifies ring`prev, ring`next, members, Buffers(members), lookup, lookup.pool
      ensures done == NodeSpec.Iterate(|lookup.pool|, old(states), old(lookup.accepted), old(counter), env)
      ensures running == done.Went?
      ensures running ==> Valid() && states == done.states && lookup.accepted == done.accepted && counter == done.counter
      ensures running ==> fresh(Buffers(members) - old(Buffers(members))) && From(old(ring), old(members))
      ensures running ==> ring == Left(old(ring), |lookup.pool|, old(states), old(lookup.accepted), old(counter), env)
      ensures lookup == old(lookup)
    {
      hide Ring;
      hide Holds;
      hide Carry;
      hide Buffers;
      hide Lookup.Usable;
      hide NodeSpec.Iterate;
      hide NodeSpec.Inbound;
      hide Left;
      hide Stay;
      hide Kept;
      hide NodeSpec.HandleAll;
      hide KeepRest;
      hide Verdicts;
      hide SinkAt;
      hide Settled;
      done := NodeSpec.Iterate(|lookup.pool|, states, lookup.accepted, counter, env);
      IterationParts(ring, |lookup.pool|, states, lookup.accepted, counter, env);
      LookupIsApart(lookup, ring, members);
      NodeIsApart(this, members);
      var ok, crashed := Exchange(env);
      if !ok || crashed {
        return done, false;
      }
      LookupIsApart(lookup, ring, members);
      NodeIsApart(this, members);
      ghost var before := Buffers(members);
      label Exchanged:
      DispatchReceived(env.forward);
      running := true;
      forall o | o in Buffers(members) && o !in old(Buffers(members))
        ensures fresh(o)
      {
        if o !in before {
          assert o in Buffers(members) - before;
          assert fresh@Exchanged(o);
        } else {
          assert o in before - old(Buffers(members));
        }
      }
    }

    /** The main loop, for as long as the answers of select and the sockets last or until it stops. */
    method Serve(envs: seq<Env>) returns (ghost h: History, running: bool)
      requires Valid()
      modifies this`relays, this`relaysNum, this`ring, this`members, this`states, this`counter
      modifies ring`prev, ring`next, members, Buffers(members), lookup, lookup.pool
      ensures h == NodeRuns.Serve(|lookup.pool|, History(old(states), old(lookup.accepted), old(counter), [], []), envs)
      ensures running == Runs(|lookup.pool|, History(old(states), old(lookup.accepted), old(counter), [], []), envs)
      ensures running ==> Valid() && states == h.states && lookup.accepted == h.accepted && counter == h.counter
      ensures running ==> ring == Present(old(ring), |lookup.pool|,
                                          History(old(states), old(lookup.accepted), old(counter), [], []), envs)
    {
      hide Ring;
      hide Holds;
      hide Carry;
      hide Buffers;
      hide Lookup.Usable;
      hide NodeSpec.Iterate;
      hide Left;
      hide Present;
      hide NodeRuns.Serve;
      hide Runs;
      h, running := History(states, lookup.accepted, counter, [], []), true;
      ghost var start, n, nodes := h, |lookup.pool|, ring;
      assert envs[0..] == envs;
      for i := 0 to |envs|
        invariant Valid() && states == h.states && lookup.accepted == h.accepted && counter == h.counter
        invariant From(old(ring), old(members)) && lookup == old(lookup) && running
        invariant forall o :: o in Buffers(members) && o !in old(Buffers(members)) ==> fresh(o)
        invariant h.states != [] && h.counter < WRAP && NodeRuns.Serve(n, h, envs[i..]) == NodeRuns.Serve(n, start, envs)
        invariant Present(ring, n, h, envs[i..]) == Present(nodes, n, start, envs)
        invariant Runs(n, h, envs[i..]) == Runs(n, start, envs)
      {
        RunUnfolds(ring, n, h, envs[i..]);
        assert envs[i..][0] == envs[i] && envs[i..][1..] == envs[i + 1..];
        ghost var done, before := Stopped, Buffers(members);
        label Turn:
        done, running := Iterate(envs[i]);
        if !running {
          return;
        }
        forall o | o in Buffers(members) && o !in old(Buffers(members))
          ensures fresh(o)
        {
          if o !in before {
            assert o in Buffers(members) - before;
            assert fresh@Turn(o);
          }
        }
        h := Advance(h, done);
      }
      RunUnfolds(ring, n, h, []);
    }
  }

  lemma RingIsDistinct(list: Node?<Relay>, ring: seq<Node<Relay>>)
    requires Ring(list, ring)
    ensures NoDuplicates(ring)
  {
  }

  /** No relay is left exactly when the ring is empty. */
  lemma NoneLeft(ring: seq<Node<Relay>>, states: seq<State>, steps: nat -> Step)
    requires |states| == |ring| + 1
    ensures Kept(ring, Outcomes(states[1..], steps)) == [] <==> |Swept(states, steps)| == 1
  {
    hide Kept;
    hide Picks;
    hide Outcomes;
    hide Stepped;
    KeptArePicked(ring, Outcomes(states[1..], steps));
    KeptArePicked(Stepped(states, steps)[1..], Outcomes(states[1..], steps));
  }

  lemma NodeIsApart(node: Udprelay, rs: seq<Relay>)
    ensures node as object !in Buffers(rs) && forall i :: 0 <= i < |rs| ==> rs[i] as object != node
  {
  }

  // ---------------------------------------------------------------------------------------------
  // The receiving side

  /** The lookup is no part of the relays or of the ring. */
  lemma LookupIsApart(lookup: Lookup, ring: seq<Node<Relay>>, rs: seq<Relay>)
    ensures lookup as object !in Buffers(rs) && forall i :: 0 <= i < |rs| ==> rs[i] as object != lookup
    ensures forall i :: 0 <= i < |lookup.pool| ==> lookup.pool[i] as object !in Buffers(rs)
    ensures forall i, j :: 0 <= i < |lookup.pool| && 0 <= j < |rs| ==> lookup.pool[i] as object != rs[j]
    ensures forall i, j :: 0 <= i < |lookup.pool| && 0 <= j < |ring| ==> lookup.pool[i] as object != ring[j]
    ensures forall j :: 0 <= j < |ring| ==> ring[j] as object != lookup
  {
  }

  /** udprelay_dispatch_relayed; `ok` is a return value that is not negative. */
  method DispatchRelayed(outward: Relay, lookup: Lookup, buffer: array<Byte>, sz: nat, result: SendResult,
                         ghost members: seq<Relay>, ghost states: seq<State>)
    returns (ok: bool, ghost more: set<object>)
    requires Holds(members, states) && |members| > 0 && members[0] == outward && |states| == |members|
    requires lookup.Usable() && sz <= buffer.Length
    modifies lookup, lookup.pool, outward, outward.sendBuffer
    ensures lookup.Usable() && Buffers(members) <= old(Buffers(members)) + more && fresh(more)
    ensures var v := NodeSpec.DispatchRelayed(|lookup.pool|, Sink(states[0], old(lookup.accepted)), old(buffer[..sz]), result);
            && Holds(members, states[0 := v.sink.out]) && lookup.accepted == v.sink.accepted && ok == v.ok
  {
    hide Holds;
    hide Buffers;
    hide Lookup.Usable;
    hide Enqueue;
    hide Last;
    assert states[0 := states[0]] == states;
    if sz < HEADER {
      return true, {};
    }
    ghost var d := buffer[..sz];
    var high: int, low: int := buffer[0], buffer[1];
    var num := high * 256 + low;
    var payload := buffer[HEADER..sz];
    assert num == Decode(d) && payload == d[HEADER..];
    var added := Suppress(lookup, num, members, states);
    if !added {
      return true, {};
    }
    ok, more := Forward(outward, lookup, payload, result, members, states);
  }

  /** The lookup's verdict leaves the relays as they are. */
  method Suppress(lookup: Lookup, num: nat, ghost members: seq<Relay>, ghost states: seq<State>) returns (added: bool)
    requires lookup.Usable() && num < WRAP && Holds(members, states)
    modifies lookup, lookup.pool
    ensures lookup.Usable() && Holds(members, states) && Buffers(members) == old(Buffers(members))
    ensures added == (num !in Last(|lookup.pool|, old(lookup.accepted)))
    ensures lookup.accepted == Push(|lookup.pool|, old(lookup.accepted), num)
    ensures forall r :: r in members ==> unchanged(r)
  {
    hide Holds;
    hide Lookup.Usable;
    LookupIsApart(lookup, [], members);
    assert allocated(members) && allocated(Buffers(members));
    ghost var steps;
    added, steps := lookup.Push(num);
  }

  /** Sending outward leaves the lookup as it is. */
  method Forward(outward: Relay, lookup: Lookup, payload: Datagram, result: SendResult,
                 ghost members: seq<Relay>, ghost states: seq<State>)
    returns (ok: bool, ghost more: set<object>)
    requires Holds(members, states) && |members| > 0 && members[0] == outward && |states| == |members| && lookup.Usable()
    modifies outward, outward.sendBuffer
    ensures Holds(members, states[0 := Enqueue(states[0], payload, result).state])
    ensures ok == Enqueue(states[0], payload, result).ok && Buffers(members) <= old(Buffers(members)) + more && fresh(more)
    ensures lookup.Usable() && unchanged(lookup)
  {
    hide Holds;
    hide Lookup.Usable;
    hide Enqueue;
    LookupIsApart(lookup, [], members);
    ok := EnqueueAt(members, states, 0, outward, payload, result);
    more := Buffers(members) - old(Buffers(members));
  }

  /** The receiving loop when the datagrams of the first j relays are dispatched and the first i are settled. */
  ghost predicate Receiving(list: Node?<Relay>, count: int, i: nat, j: nat, lookup: Lookup, s: Sink, results: nat -> SendResult,
                            ring: seq<Node<Relay>>, members: seq<Relay>, states: seq<State>)
    reads ring`prev, ring`next, ring`data, members, Buffers(members), lookup, lookup.pool
  {
    && |states| == |members| == |ring| + 1 && j <= |ring| && lookup.Usable()
    && var sink := SinkAt(|lookup.pool|, s, states[1..], results, j);
       && Turning(list, count, i, j, Verdicts(|lookup.pool|, s, states[1..], results), sink.out, ring, members, states)
       && lookup.accepted == sink.accepted
  }

  /** The i-th relay's received datagram is fetched and dispatched. */
  method RelayNode(list: Node?<Relay>, n: Node<Relay>, outward: Relay, lookup: Lookup, result: SendResult, ghost count: int,
                   ghost i: nat, ghost s: Sink, ghost results: nat -> SendResult, ghost ring: seq<Node<Relay>>,
                   ghost members: seq<Relay>, ghost states: seq<State>)
    returns (ok: bool, ghost more: set<object>)
    requires Receiving(list, count, i, i, lookup, s, results, ring, members, states)
    requires i < |ring| && n == ring[i] && outward == members[0] && result == results(i)
    modifies members, Buffers(members), lookup, lookup.pool
    ensures Receiving(list, count, i, i + 1, lookup, s, results, ring, members, states)
    ensures ok == Verdicts(|lookup.pool|, s, states[1..], results)[i].ok
    ensures Buffers(members) <= old(Buffers(members)) + more && fresh(more)
  {
    hide Ring;
    hide Holds;
    hide Partly;
    hide Current;
    hide NodeSpec.DispatchRelayed;
    hide SinkAt;
    hide Verdicts;
    hide Lookup.Usable;
    ghost var os := Verdicts(|lookup.pool|, s, states[1..], results);
    ghost var sink := SinkAt(|lookup.pool|, s, states[1..], results, i);
    LinksAreApart(Current(ring, os, i), members);
    LinksAreApart(ring, members);
    LookupIsApart(lookup, ring, members);
    LookupIsApart(lookup, Current(ring, os, i), members);
    SinkNext(|lookup.pool|, s, states[1..], results, i);
    PartlyNext(sink.out, SinkAt(|lookup.pool|, s, states[1..], results, i + 1).out, states, os, i);
    assert allocated(members) && allocated(Buffers(members));
    var sz, buffer := ReceiveAt(members, Partly(sink.out, states, os, i), i + 1, n.data);
    if sz == 0 {
      ok, more := true, {};
    } else {
      ok, more := DispatchRelayed(outward, lookup, buffer, sz, result, members, Partly(sink.out, states, os, i + 1));
    }
  }

  /** A relay whose forward failed leaves the ring. */
  method SettleNode(list: Node?<Relay>, count: int, n: Node<Relay>, ok: bool, ghost i: nat, ghost lookup: Lookup, ghost s: Sink,
                    ghost results: nat -> SendResult, ghost ring: seq<Node<Relay>>,
                    ghost members: seq<Relay>, ghost states: seq<State>)
    returns (list': Node?<Relay>, count': int)
    requires Receiving(list, count, i, i + 1, lookup, s, results, ring, members, states)
    requires i < |ring| && n == ring[i] && ok == Verdicts(|lookup.pool|, s, states[1..], results)[i].ok
    modifies ring`prev, ring`next
    ensures Receiving(list', count', i + 1, i + 1, lookup, s, results, ring, members, states)
    ensures Buffers(members) == old(Buffers(members))
  {
    hide Turning;
    hide SinkAt;
    hide Verdicts;
    hide Lookup.Usable;
    hide Buffers;
    LookupIsApart(lookup, ring, members);
    list', count' := Settle(list, count, n, ok, i, Verdicts(|lookup.pool|, s, states[1..], results),
                            SinkAt(|lookup.pool|, s, states[1..], results, i + 1).out, ring, members, states);
  }

  lemma ReceivingBegins(list: Node?<Relay>, count: int, lookup: Lookup, s: Sink, results: nat -> SendResult,
                        ring: seq<Node<Relay>>, members: seq<Relay>, states: seq<State>)
    requires Ring(list, ring) && count == |ring| && Carry(ring, members) && Holds(members, states)
    requires |states| == |members| == |ring| + 1 && lookup.Usable() && s == Sink(states[0], lookup.accepted)
    ensures Receiving(list, count, 0, 0, lookup, s, results, ring, members, states) && list == At(ring, 0)
  {
    TurningBegins(list, count, Verdicts(|lookup.pool|, s, states[1..], results), ring, members, states);
  }

  lemma ReceivingLookahead(list: Node?<Relay>, count: int, i: nat, lookup: Lookup, s: Sink, results: nat -> SendResult,
                           ring: seq<Node<Relay>>, members: seq<Relay>, states: seq<State>)
    requires Receiving(list, count, i, i, lookup, s, results, ring, members, states)
    ensures Lookahead(list, At(ring, i)) == At(ring, i + 1)
  {
    TurningLookahead(list, count, i, i, Verdicts(|lookup.pool|, s, states[1..], results),
                     SinkAt(|lookup.pool|, s, states[1..], results, i).out, ring, members, states);
  }

  /** One turn of the receiving loop. */
  method ReceiveOne(list: Node?<Relay>, count: int, n: Node<Relay>, outward: Relay, lookup: Lookup, result: SendResult,
                    ghost i: nat, ghost s: Sink, ghost results: nat -> SendResult, ghost ring: seq<Node<Relay>>,
                    ghost members: seq<Relay>, ghost states: seq<State>)
    returns (list': Node?<Relay>, count': int, ghost more: set<object>)
    requires Receiving(list, count, i, i, lookup, s, results, ring, members, states)
    requires i < |ring| && n == ring[i] && outward == members[0] && result == results(i)
    modifies ring`prev, ring`next, members, Buffers(members), lookup, lookup.pool
    ensures Receiving(list', count', i + 1, i + 1, lookup, s, results, ring, members, states)
    ensures Buffers(members) <= old(Buffers(members)) + more && fresh(more)
    ensures Lookahead(list', At(ring, i + 1)) == At(ring, i + 2)
  {
    hide Receiving;
    hide Buffers;
    hide Verdicts;
    hide At;
    hide Lookahead;
    var ok;
    ok, more := RelayNode(list, n, outward, lookup, result, count, i, s, results, ring, members, states);
    list', count' := SettleNode(list, count, n, ok, i, lookup, s, results, ring, members, states);
    ReceivingLookahead(list', count', i + 1, lookup, s, results, ring, members, states);
  }

  /** The receiving loop of the main loop. */
  method ReceiveEach(list: Node?<Relay>, count: int, outward: Relay, lookup: Lookup, results: nat -> SendResult, ghost s: Sink,
                     ghost ring: seq<Node<Relay>>, ghost members: seq<Relay>, ghost states: seq<State>)
    returns (list': Node?<Relay>, count': int)
    requires Receiving(list, count, 0, 0, lookup, s, results, ring, members, states)
    requires list == At(ring, 0) && outward == members[0]
    modifies ring`prev, ring`next, members, Buffers(members), lookup, lookup.pool
    ensures Receiving(list', count', |ring|, |ring|, lookup, s, results, ring, members, states)
    ensures fresh(Buffers(members) - old(Buffers(members)))
  {
    hide Receiving;
    hide Buffers;
    hide Verdicts;
    ghost var buffers, grown := Buffers(members), {};
    ReceivingLookahead(list, count, 0, lookup, s, results, ring, members, states);
    list', count' := list, count;
    var item, token, i := list, Lookahead(list, list), 0;
    while item != null
      invariant Receiving(list', count', i, i, lookup, s, results, ring, members, states) && i <= |ring|
      invariant item == At(ring, i) && token == At(ring, i + 1)
      invariant Buffers(members) <= buffers + grown && fresh(grown)
      decreases |ring| - i
    {
      var r: Node<Relay> := item;
      ghost var more;
      list', count', more := ReceiveOne(list', count', r, outward, lookup, results(i), i, s, results, ring, members, states);
      grown, i := grown + more, i + 1;
      item, token := token, Lookahead(list', token);
    }
  }

  /** The receiving loop, told by what it leaves. */
  method ReceiveSweep(list: Node?<Relay>, count: int, outward: Relay, lookup: Lookup, results: nat -> SendResult, ghost s: Sink,
                      ghost ring: seq<Node<Relay>>, ghost members: seq<Relay>, ghost states: seq<State>)
    returns (list': Node?<Relay>, count': int)
    requires Ring(list, ring) && count == |ring| && Carry(ring, members) && Holds(members, states)
    requires |states| == |members| == |ring| + 1 && outward == members[0]
    requires lookup.Usable() && s == Sink(states[0], lookup.accepted)
    modifies ring`prev, ring`next, members, Buffers(members), lookup, lookup.pool
    ensures var n := |lookup.pool|; var os, sink := Verdicts(n, s, states[1..], results), SinkAt(n, s, states[1..], results, |ring|);
            var ring', members', states' := Kept(ring, os), KeepRest(members, os), KeepRest(Settled(sink.out, states, os), os);
            && Ring(list', ring') && count' == |ring'| && Carry(ring', members') && Holds(members', states')
            && |states'| == |members'| == |ring'| + 1 && members'[0] == members[0]
            && lookup.Usable() && lookup.accepted == sink.accepted
            && fresh(Buffers(members') - old(Buffers(members)))
            && (forall k :: 0 <= k < |members'| ==> members'[k] in members)
  {
    hide Ring;
    hide Holds;
    hide Buffers;
    hide Carry;
    hide Kept;
    hide KeepRest;
    hide Settled;
    hide Turning;
    hide Verdicts;
    hide SinkAt;
    hide Lookup.Usable;
    ReceivingBegins(list, count, lookup, s, results, ring, members, states);
    list', count' := ReceiveEach(list, count, outward, lookup, results, s, ring, members, states);
    ghost var n := |lookup.pool|;
    ghost var os := Verdicts(n, s, states[1..], results);
    TurningEnds(list', count', os, SinkAt(n, s, states[1..], results, |ring|).out, ring, members, states);
    NoneNew(members, os);
  }
}
