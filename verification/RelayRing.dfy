/**
  * The ring of relays of udprelayd.c, and its CLIST_FOREACH loops that let every relay act and drop those that
  * fail. What the relays do is told by NodeSpec and RelaySpec; this module proves the pointer loops against it.
  */
module RelayRing {
  import opened CList
  import opened Fleet
  import opened NodeSpec
  import opened RelayObject
  import opened RelaySpec

  /** The ring's nodes are the relays after the first of `members`. */
  ghost predicate Carry(ring: seq<Node<Relay>>, members: seq<Relay>)
    reads ring`data
  {
    && |members| == |ring| + 1
    && forall i :: 0 <= i < |ring| ==> ring[i].data == members[i + 1]
  }

  lemma CarryTells(ring: seq<Node<Relay>>, members: seq<Relay>)
    requires Carry(ring, members)
    ensures |members| == |ring| + 1 && forall i :: 0 <= i < |ring| ==> ring[i].data == members[i + 1]
  {
  }

  /** The links of the ring are no part of any relay's memory. */
  lemma LinksAreApart(ring: seq<Node<Relay>>, rs: seq<Relay>)
    ensures forall i, j :: 0 <= i < |ring| && 0 <= j < |rs| ==> ring[i] as object != rs[j]
    ensures forall i :: 0 <= i < |ring| ==> ring[i] as object !in Buffers(rs)
  {
  }

  lemma NothingLinked()
    ensures Ring<Relay>(null, [])
  {
  }

  method NewRelays(hasRemote: bool, remotes: seq<bool>)
    returns (out: Relay, list: Node?<Relay>, n: int, ghost nodes: seq<Node<Relay>>, ghost rs: seq<Relay>)
    ensures Ring(list, nodes) && n == |nodes| == |remotes| && Carry(nodes, rs) && rs[0] == out
    ensures Holds(rs, InitAll([hasRemote] + remotes)) && |rs| == n + 1
    ensures out.remote == hasRemote && out.dynamicOut == !hasRemote
    ensures forall i :: 0 <= i < n ==> rs[i + 1].remote == remotes[i] && rs[i + 1].dynamicOut == !remotes[i]
  {
    hide Ring;
    hide Carry;
    assert [] + [Init(hasRemote)] == InitAll([hasRemote]);
    assert InitAll([hasRemote]) + InitAll(remotes) == InitAll([hasRemote] + remotes);
    out := Enlist(hasRemote, [], []);
    assert [] + [out] == [out];
    list, n, nodes, rs := AddRelays(out, remotes, InitAll([hasRemote]));
    HoldsTells(rs, InitAll([hasRemote] + remotes));
  }

  /** The loop of udprelay_init over the configured relays. */
  method AddRelays(out: Relay, remotes: seq<bool>, ghost first: seq<State>)
    returns (list: Node?<Relay>, n: int, ghost nodes: seq<Node<Relay>>, ghost rs: seq<Relay>)
    requires Holds([out], first)
    ensures Ring(list, nodes) && n == |nodes| == |remotes| && Carry(nodes, rs) && rs[0] == out
    ensures Holds(rs, first + InitAll(remotes)) && (forall k :: 0 <= k < n ==> fresh(nodes[k]))
    ensures forall k :: 0 < k <= n ==> fresh(rs[k])
    ensures Buffers(rs) == Buffers([out])
    ensures forall i :: 0 <= i < n ==> rs[i + 1].remote == remotes[i] && rs[i + 1].dynamicOut == !remotes[i]
  {
    hide Holds;
    hide Ring;
    hide Buffers;
    HoldsTells([out], first);
    list, n, nodes, rs := null, 0, [], [out];
    NothingLinked();
    assert first + InitAll(remotes[..0]) == first;
    for i := 0 to |remotes|
      invariant n == i == |nodes| && Ring(list, nodes) && Carry(nodes, rs) && rs[0] == out
      invariant Holds(rs, first + InitAll(remotes[..i])) && Buffers(rs) == Buffers([out])
      invariant forall k :: 0 <= k < i ==> fresh(nodes[k])
      invariant forall k :: 0 < k <= i ==> fresh(rs[k])
    {
      ghost var ss := first + InitAll(remotes[..i]);
      assert ss + [Init(remotes[i])] == first + InitAll(remotes[..i + 1]);
      var node, r;
      list, node, r := AddRelay(list, remotes[i], nodes, rs, ss);
      nodes, rs, n := nodes + [node], rs + [r], n + 1;
    }
    assert remotes[..|remotes|] == remotes;
    HoldsTells(rs, first + InitAll(remotes));
  }

  method AddRelay(list: Node?<Relay>, hasRemote: bool, ghost nodes: seq<Node<Relay>>, ghost rs: seq<Relay>, ghost ss: seq<State>)
    returns (list': Node?<Relay>, node: Node<Relay>, r: Relay)
    requires Ring(list, nodes) && Carry(nodes, rs) && Holds(rs, ss)
    modifies nodes`prev, nodes`next
    ensures Ring(list', nodes + [node]) && Carry(nodes + [node], rs + [r]) && Holds(rs + [r], ss + [Init(hasRemote)])
    ensures fresh(node) && fresh(r) && Buffers(rs + [r]) == Buffers(rs) == old(Buffers(rs))
  {
    hide Holds;
    hide Ring;
    hide Buffers;
    r := Enlist(hasRemote, rs, ss);
    assert allocated(rs + [r]) && allocated(Buffers(rs + [r]));
    node := new Node(0, r);
    LinksAreApart(nodes, rs + [r]);
    LinksAreApart([node], rs + [r]);
    assert [node][0] == node;
    list' := AddLast(list, node, nodes);
  }

  // ---------------------------------------------------------------------------------------------
  // Which relays stay, and in what order

  /** Where they stood. */
  ghost function RestPicks(os: seq<Outcome>): (r: seq<nat>)
    ensures forall k :: 0 <= k < |r| ==> r[k] <= |os|
    ensures forall k, l :: 0 <= k < l < |r| ==> r[k] != r[l]
  {
    var picks := Picks(os, |os|);
    seq(|picks| + 1, k requires 0 <= k <= |picks| => if k == 0 then 0 else picks[k - 1] + 1)
  }

  lemma RestArePicked<T>(s: seq<T>, os: seq<Outcome>)
    requires |s| == |os| + 1
    ensures |KeepRest(s, os)| == |RestPicks(os)|
    ensures forall k :: 0 <= k < |KeepRest(s, os)| ==> KeepRest(s, os)[k] == s[RestPicks(os)[k]]
  {
    KeptArePicked(s[1..], os);
  }

  lemma KeepRestHolds(members: seq<Relay>, states: seq<State>, os: seq<Outcome>)
    requires Holds(members, states) && |states| == |members| == |os| + 1
    ensures Holds(KeepRest(members, os), KeepRest(states, os)) && Buffers(KeepRest(members, os)) <= Buffers(members)
    ensures |KeepRest(states, os)| == |KeepRest(members, os)|
  {
    hide Holds;
    hide KeepRest;
    hide RestPicks;
    hide Buffers;
    RestArePicked(members, os);
    RestArePicked(states, os);
    Select(members, states, KeepRest(members, os), KeepRest(states, os), RestPicks(os));
  }

  lemma KeepRestCarries(ring: seq<Node<Relay>>, members: seq<Relay>, os: seq<Outcome>)
    requires Carry(ring, members) && |os| == |ring|
    ensures Carry(Kept(ring, os), KeepRest(members, os)) && KeepRest(members, os)[0] == members[0]
  {
    hide Kept;
    KeptArePicked(ring, os);
    KeptArePicked(members[1..], os);
  }

  lemma RotateNodes(list: Node<Relay>, ring: seq<Node<Relay>>, members: seq<Relay>, states: seq<State>)
    requires Ring(list, ring) && Carry(ring, members) && Holds(members, states) && |states| == |members|
    ensures ring != [] && |Rotate(ring)| == |ring| && Ring(list.next, Rotate(ring))
    ensures Carry(Rotate(ring), RotateRest(members)) && Holds(RotateRest(members), RotateRest(states))
    ensures |RotateRest(members)| == |RotateRest(states)| == |members| && RotateRest(members)[0] == members[0]
    ensures Buffers(RotateRest(members)) == Buffers(members)
  {
    hide Ring;
    hide Holds;
    assert ring != [] by { EmptyRing(list, ring); }
    RingRotates(list, ring);
    RotatedFleet(members, states);
  }

  lemma EmptyRing(list: Node?<Relay>, ring: seq<Node<Relay>>)
    requires Ring(list, ring)
    ensures list == null <==> ring == []
  {
  }

  /** Where the k-th of the rotated sequence stood, and where it stands of the original. */
  ghost function RotatedFrom(n: nat): (r: seq<nat>)
    requires n > 1
    ensures |r| == n && forall k :: 0 <= k < n ==> r[k] == if k == 0 then 0 else if k + 1 < n then k + 1 else 1
  {
    seq(n, k requires 0 <= k < n => if k == 0 then 0 else if k + 1 < n then k + 1 else 1)
  }

  ghost function RotatedTo(n: nat): (r: seq<nat>)
    requires n > 1
    ensures |r| == n && forall k :: 0 <= k < n ==> r[k] == if k == 0 then 0 else if k > 1 then k - 1 else n - 1
  {
    seq(n, k requires 0 <= k < n => if k == 0 then 0 else if k > 1 then k - 1 else n - 1)
  }

  lemma RotateRestMoves<T>(s: seq<T>)
    requires |s| > 1
    ensures |RotateRest(s)| == |s|
    ensures forall k :: 0 <= k < |s| ==> RotateRest(s)[k] == s[RotatedFrom(|s|)[k]]
    ensures forall k :: 0 <= k < |s| ==> s[k] == RotateRest(s)[RotatedTo(|s|)[k]]
  {
  }

  lemma RotatedFleet(members: seq<Relay>, states: seq<State>)
    requires Holds(members, states) && |states| == |members| > 1
    ensures Holds(RotateRest(members), RotateRest(states)) && Buffers(RotateRest(members)) == Buffers(members)
  {
    hide Holds;
    hide Buffers;
    hide RotateRest;
    hide RotatedFrom;
    hide RotatedTo;
    RotateRestMoves(members);
    RotateRestMoves(states);
    Select(members, states, RotateRest(members), RotateRest(states), RotatedFrom(|members|));
    Select(RotateRest(members), RotateRest(states), members, states, RotatedTo(|members|));
  }

  // ---------------------------------------------------------------------------------------------
  // One turn of a loop

  lemma PartlyNext(first: State, first': State, states: seq<State>, os: seq<Outcome>, i: nat)
    requires i < |os| && |states| == |os| + 1
    ensures Partly(first, states, os, i)[i + 1] == states[i + 1] && Partly(first, states, os, i)[0] == first
    ensures Partly(first, states, os, i + 1) == Partly(first, states, os, i)[i + 1 := os[i].state]
    ensures Partly(first', states, os, i + 1) == Partly(first, states, os, i + 1)[0 := first']
  {
  }

  /** The ring while the first i outcomes are in. */
  ghost function Current(ring: seq<Node<Relay>>, os: seq<Outcome>, i: nat): (r: seq<Node<Relay>>)
    requires i <= |ring| == |os|
    ensures forall k :: 0 <= k < |r| ==> r[k] in ring
  {
    Kept(ring[..i], os) + ring[i..]
  }

  /**
    * The loop when the first j relays have acted and the first i of them have been kept or dropped: the ring
    * holds those kept and those still to come.
    */
  ghost predicate Turning(list: Node?<Relay>, count: int, i: nat, j: nat, os: seq<Outcome>, first: State,
                          ring: seq<Node<Relay>>, members: seq<Relay>, states: seq<State>)
    reads ring`prev, ring`next, ring`data, members, Buffers(members)
  {
    && i <= j <= |ring| == |os| && |states| == |members| == |ring| + 1
    && Carry(ring, members) && Holds(members, Partly(first, states, os, j))
    && Ring(list, Current(ring, os, i)) && count == |Current(ring, os, i)|
  }

  lemma TurningBegins(list: Node?<Relay>, count: int, os: seq<Outcome>,
                      ring: seq<Node<Relay>>, members: seq<Relay>, states: seq<State>)
    requires Ring(list, ring) && count == |ring| == |os| && Carry(ring, members) && Holds(members, states)
    requires |states| == |members|
    ensures Turning(list, count, 0, 0, os, states[0], ring, members, states) && list == At(ring, 0)
  {
    assert Partly(states[0], states, os, 0) == states;
    assert Current(ring, os, 0) == ring;
  }

  lemma TurningLookahead(list: Node?<Relay>, count: int, i: nat, j: nat, os: seq<Outcome>, first: State,
                         ring: seq<Node<Relay>>, members: seq<Relay>, states: seq<State>)
    requires Turning(list, count, i, j, os, first, ring, members, states)
    ensures Lookahead(list, At(ring, i)) == At(ring, i + 1)
  {
    LookaheadIsNext(list, Kept(ring[..i], os), ring[i..]);
  }

  /** What a loop leaves: the ring and the relays kept; the dropped ones hold their outcome too. */
  lemma TurningEnds(list: Node?<Relay>, count: int, os: seq<Outcome>, first: State,
                    ring: seq<Node<Relay>>, members: seq<Relay>, states: seq<State>)
    requires Turning(list, count, |ring|, |ring|, os, first, ring, members, states)
    ensures var after, ring', members' := Settled(first, states, os), Kept(ring, os), KeepRest(members, os);
            && Holds(members, after) && Ring(list, ring') && count == |ring'| && Carry(ring', members')
            && Holds(members', KeepRest(after, os)) && |KeepRest(after, os)| == |members'| == |ring'| + 1
            && members'[0] == members[0] && Buffers(members') <= Buffers(members)
  {
    hide Ring;
    hide Holds;
    hide Buffers;
    assert ring[..|ring|] == ring && Current(ring, os, |ring|) == Kept(ring, os);
    KeepRestHolds(members, Settled(first, states, os), os);
    KeepRestCarries(ring, members, os);
  }

  /** The i-th relay takes a step. */
  method StepNode(list: Node?<Relay>, n: Node<Relay>, step: Step, ghost count: int, ghost i: nat, ghost os: seq<Outcome>,
                  ghost first: State, ghost ring: seq<Node<Relay>>, ghost members: seq<Relay>, ghost states: seq<State>)
    returns (ok: bool, ghost more: set<object>)
    requires Turning(list, count, i, i, os, first, ring, members, states)
    requires i < |ring| && n == ring[i] && os[i] == Next(states[i + 1], step)
    modifies members, Buffers(members)
    ensures Turning(list, count, i, i + 1, os, first, ring, members, states) && ok == os[i].ok
    ensures Buffers(members) <= old(Buffers(members)) + more && fresh(more)
  {
    hide Ring;
    hide Holds;
    hide Next;
    hide Partly;
    hide Current;
    LinksAreApart(Current(ring, os, i), members);
    LinksAreApart(ring, members);
    PartlyNext(first, first, states, os, i);
    ok := StepAt(members, Partly(first, states, os, i), i + 1, n.data, step);
    more := Buffers(members) - old(Buffers(members));
  }

  /** A relay that failed is taken out of the ring; the others, and the relays themselves, stay as they are. */
  method Settle(list: Node?<Relay>, count: int, n: Node<Relay>, ok: bool, ghost i: nat, ghost os: seq<Outcome>,
                ghost first: State, ghost ring: seq<Node<Relay>>, ghost members: seq<Relay>, ghost states: seq<State>)
    returns (list': Node?<Relay>, count': int)
    requires i < |ring| && n == ring[i] && Turning(list, count, i, i + 1, os, first, ring, members, states) && ok == os[i].ok
    modifies ring`prev, ring`next
    ensures Turning(list', count', i + 1, i + 1, os, first, ring, members, states)
    ensures Buffers(members) == old(Buffers(members))
  {
    hide Ring;
    hide Holds;
    hide Kept;
    hide Carry;
    hide Partly;
    list', count' := list, count;
    ghost var kept, rest := Kept(ring[..i], os), ring[i + 1..];
    assert Current(ring, os, i) == kept + [n] + rest;
    KeptNext(ring, os, i);
    if !ok {
      list' := DropNode(list, n, kept, rest, ring, members, Partly(first, states, os, i + 1));
      count' := count' - 1;
    }
  }

  method DropNode(list: Node?<Relay>, n: Node<Relay>, ghost kept: seq<Node<Relay>>, ghost rest: seq<Node<Relay>>,
                  ghost ring: seq<Node<Relay>>, ghost members: seq<Relay>, ghost states: seq<State>)
    returns (list': Node?<Relay>)
    requires Ring(list, kept + [n] + rest) && Carry(ring, members) && Holds(members, states)
    modifies kept`prev, kept`next, n`prev, n`next, rest`prev, rest`next
    ensures Ring(list', kept + rest) && Carry(ring, members) && Holds(members, states)
    ensures Buffers(members) == old(Buffers(members))
  {
    hide Ring;
    hide Holds;
    LinksAreApart(kept, members);
    LinksAreApart([n], members);
    LinksAreApart(rest, members);
    assert [n][0] == n && allocated(members) && allocated(Buffers(members));
    list' := Del(list, n, kept, rest);
  }

  // ---------------------------------------------------------------------------------------------
  // The loop in which every relay takes a step

  method EachRelay(list: Node?<Relay>, count: int, steps: nat -> Step,
                   ghost ring: seq<Node<Relay>>, ghost members: seq<Relay>, ghost states: seq<State>)
    returns (list': Node?<Relay>, count': int)
    requires Ring(list, ring) && count == |ring| && Carry(ring, members) && Holds(members, states)
    requires |states| == |members| == |ring| + 1
    modifies ring`prev, ring`next, members, Buffers(members)
    ensures Turning(list', count', |ring|, |ring|, Outcomes(states[1..], steps), states[0], ring, members, states)
    ensures fresh(Buffers(members) - old(Buffers(members)))
  {
    hide Ring;
    hide Holds;
    hide Turning;
    hide Buffers;
    hide Carry;
    ghost var os, first := Outcomes(states[1..], steps), states[0];
    ghost var buffers, grown := Buffers(members), {};
    TurningBegins(list, count, os, ring, members, states);
    TurningLookahead(list, count, 0, 0, os, first, ring, members, states);
    list', count' := list, count;
    var item, token, i := list, Lookahead(list, list), 0;
    while item != null
      invariant Turning(list', count', i, i, os, first, ring, members, states) && i <= |ring|
      invariant item == At(ring, i) && token == At(ring, i + 1)
      invariant Buffers(members) <= buffers + grown && fresh(grown)
      decreases |ring| - i
    {
      var r: Node<Relay> := item;
      ghost var more;
      var ok;
      ok, more := StepNode(list', r, steps(i), count', i, os, first, ring, members, states);
      list', count' := Settle(list', count', r, ok, i, os, first, ring, members, states);
      grown := grown + more;
      i := i + 1;
      TurningLookahead(list', count', i, i, os, first, ring, members, states);
      item, token := token, Lookahead(list', token);
    }
  }

  /** That loop, told by what it leaves. */
  method Sweep(list: Node?<Relay>, count: int, steps: nat -> Step,
               ghost ring: seq<Node<Relay>>, ghost members: seq<Relay>, ghost states: seq<State>)
    returns (list': Node?<Relay>, count': int)
    requires Ring(list, ring) && count == |ring| && Carry(ring, members) && Holds(members, states)
    requires |states| == |members| == |ring| + 1
    modifies ring`prev, ring`next, members, Buffers(members)
    ensures var os := Outcomes(states[1..], steps); var ring', members' := Kept(ring, os), KeepRest(members, os);
            && Holds(members, Stepped(states, steps)) && Ring(list', ring') && count' == |ring'| && Carry(ring', members')
            && Holds(members', Swept(states, steps)) && |Swept(states, steps)| == |members'| == |ring'| + 1
            && members'[0] == members[0] && fresh(Buffers(members') - old(Buffers(members)))
            && (forall k :: 0 <= k < |members'| ==> members'[k] in members)
  {
    hide Ring;
    hide Holds;
    hide Buffers;
    hide Carry;
    hide Turning;
    hide Settled;
    hide Outcomes;
    hide Kept;
    hide KeepRest;
    ghost var os := Outcomes(states[1..], steps);
    list', count' := EachRelay(list, count, steps, ring, members, states);
    TurningEnds(list', count', os, states[0], ring, members, states);
    NoneNew(members, os);
  }
}
