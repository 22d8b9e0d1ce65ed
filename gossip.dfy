/**
 The broadcast node as an abstract state machine: the delivered set and one
 FIFO queue of pending values per registered peer, with one function per
 message the node processes. The imperative model in module BroadcastNode is
 proved to follow these functions; the lemmas here state what holds of every
 run of them.
 */
module Gossip {
  import opened Messages

  /** Capacity of every per-peer channel (`make(chan int, 100)`). */
  const QueueCapacity: nat := 100

  /** `messages` is the delivered set; `queues` maps each registered peer to the values still to be sent to it. */
  datatype NodeState = NodeState(messages: set<int>, queues: map<NodeId, seq<int>>)

  /** A new state together with the gossip RPCs emitted on the way. */
  datatype Outcome = Outcome(state: NodeState, rpcs: seq<Rpc>)

  // ---------------------------------------------------------------- invariant

  /** The skipped id `self` never has a queue. */
  predicate NoSelfQueue(self: NodeId, st: NodeState)
  {
    self !in st.queues
  }

  /** No queue holds more than the channel capacity. */
  predicate Bounded(st: NodeState)
  {
    forall p :: p in st.queues ==> |st.queues[p]| <= QueueCapacity
  }

  /** Only accepted values are ever queued for a peer. */
  predicate QueuedAccepted(st: NodeState)
  {
    forall p, v :: p in st.queues && v in st.queues[p] ==> v in st.messages
  }

  predicate Inv(self: NodeId, st: NodeState)
  {
    NoSelfQueue(self, st) && Bounded(st) && QueuedAccepted(st)
  }

  // ---------------------------------------------------------------- broadcast

  /** Fanning `v` out from `src` blocks on no channel: it is a duplicate, or every peer queue other than `src`'s has room. */
  predicate CanAccept(st: NodeState, src: NodeId, v: int)
  {
    v in st.messages || forall p :: p in st.queues && p != src ==> |st.queues[p]| < QueueCapacity
  }

  /** A `broadcast` of `v` received from `src`. */
  function Accept(st: NodeState, src: NodeId, v: int): (r: NodeState)
    ensures r.messages == st.messages + {v}
    ensures v in st.messages ==> r == st
    ensures r.queues.Keys == st.queues.Keys
    ensures src in st.queues ==> r.queues[src] == st.queues[src]
    ensures v !in st.messages ==> forall p :: p in st.queues && p != src ==> r.queues[p] == st.queues[p] + [v]
  {
    if v in st.messages then st
    else NodeState(st.messages + {v}, map p | p in st.queues :: if p == src then st.queues[p] else st.queues[p] + [v])
  }

  /** The reply a `broadcast` of `v` gets: none for a value already delivered. */
  function AcceptReplies(st: NodeState, v: int): (r: seq<Reply>)
    ensures |r| == (if v in st.messages then 0 else 1)
    ensures forall i :: 0 <= i < |r| ==> r[i].Type() == "broadcast_ok"
  {
    if v in st.messages then [] else [BroadcastOk]
  }

  /** A second delivery of the same value, from any source, changes nothing and is not answered. */
  lemma AcceptIdempotent(st: NodeState, src: NodeId, src': NodeId, v: int)
    ensures Accept(Accept(st, src, v), src', v) == Accept(st, src, v)
    ensures AcceptReplies(Accept(st, src, v), v) == []
  {
  }

  lemma AcceptPreservesInv(self: NodeId, st: NodeState, src: NodeId, v: int)
    requires Inv(self, st) && CanAccept(st, src, v)
    ensures Inv(self, Accept(st, src, v))
  {
    var r := Accept(st, src, v);
    forall p, w | p in r.queues && w in r.queues[p] ensures w in r.messages {
      assert w in st.queues[p] || w == v;
    }
  }

  // ---------------------------------------------------------------- topology

  /** A `topology` message naming `nodes`: each of them other than `self` gets a fresh empty queue, replacing any queue it had. */
  function Install(st: NodeState, self: NodeId, nodes: set<NodeId>): (r: NodeState)
    ensures r.messages == st.messages
    ensures r.queues.Keys == st.queues.Keys + (nodes - {self})
    ensures forall p :: p in nodes && p != self ==> r.queues[p] == []
    ensures forall p :: p in st.queues && (p !in nodes || p == self) ==> r.queues[p] == st.queues[p]
  {
    NodeState(st.messages, st.queues + map p | p in nodes && p != self :: [])
  }

  lemma InstallPreservesInv(self: NodeId, st: NodeState, nodes: set<NodeId>)
    requires Inv(self, st)
    ensures Inv(self, Install(st, self, nodes))
  {
    var r := Install(st, self, nodes);
    forall p, w | p in r.queues && w in r.queues[p] ensures w in r.messages {
      if !(p in nodes && p != self) {
        assert r.queues[p] == st.queues[p];
      }
    }
  }

  /** Install's contract determines it: a state that meets it is the installed state. */
  lemma InstallDetermined(st: NodeState, self: NodeId, nodes: set<NodeId>, r: NodeState)
    requires r.messages == st.messages
    requires r.queues.Keys == st.queues.Keys + (nodes - {self})
    requires forall p :: p in r.queues ==> r.queues[p] == if p in nodes && p != self then [] else st.queues[p]
    ensures r == Install(st, self, nodes)
  {
    var i := Install(st, self, nodes);
    assert forall p :: p in r.queues ==> r.queues[p] == i.queues[p];
  }

  /** Installing one more node after a set of nodes is installing the set with that node. */
  lemma InstallOneMore(st: NodeState, self: NodeId, nodes: set<NodeId>, p: NodeId)
    ensures Install(Install(st, self, nodes), self, {p}) == Install(st, self, nodes + {p})
  {
    var a := Install(Install(st, self, nodes), self, {p});
    InstallDetermined(st, self, nodes + {p}, a);
  }

  // ---------------------------------------------------------------- sending

  /** One iteration of the sender for `dest`: take the front of its queue and emit it as one `broadcast` RPC; with nothing queued the sender waits. */
  function SendOne(st: NodeState, dest: NodeId): (r: Outcome)
    ensures r.state.messages == st.messages
    ensures r.state.queues.Keys == st.queues.Keys
    ensures forall p :: p in st.queues && p != dest ==> r.state.queues[p] == st.queues[p]
    ensures |r.rpcs| == (if dest in st.queues && st.queues[dest] != [] then 1 else 0)
    ensures forall i :: 0 <= i < |r.rpcs| ==> r.rpcs[i].dest == dest && r.rpcs[i].body.msgType == BroadcastType
    ensures dest in st.queues ==> ValuesTo(dest, r.rpcs) + r.state.queues[dest] == st.queues[dest]
  {
    if dest in st.queues && st.queues[dest] != [] then
      var q := st.queues[dest];
      var out := [Rpc(dest, NewBroadcastMsg(q[0]))];
      assert ValuesTo(dest, out) == [q[0]] by {
        assert out[1..] == [];
      }
      Outcome(NodeState(st.messages, st.queues[dest := q[1..]]), out)
    else
      Outcome(st, [])
  }

  lemma SendOnePreservesInv(self: NodeId, st: NodeState, dest: NodeId)
    requires Inv(self, st)
    ensures Inv(self, SendOne(st, dest).state)
  {
    var r := SendOne(st, dest).state;
    forall p, w | p in r.queues && w in r.queues[p] ensures w in r.messages {
      if p == dest && st.queues[dest] != [] {
        assert r.queues[p] == st.queues[p][1..];
      }
    }
  }

  // ---------------------------------------------------------------- runs

  /** Every message the node processes, in the order it processes them. */
  datatype Event =
    | Broadcast(src: NodeId, value: int)
    | Topology(topology: map<NodeId, seq<NodeId>>)
    | Send(dest: NodeId)
    | Read

  function Step(self: NodeId, st: NodeState, e: Event): Outcome
  {
    match e
    case Broadcast(src, v) => Outcome(Accept(st, src, v), [])
    case Topology(t) => Outcome(Install(st, self, t.Keys), [])
    case Send(dest) => SendOne(st, dest)
    case Read => Outcome(st, [])
  }

  /** A handler step is enabled unless one of its channel sends would block. */
  predicate Enabled(st: NodeState, e: Event)
  {
    e.Broadcast? ==> CanAccept(st, e.src, e.value)
  }

  function Run(self: NodeId, st: NodeState, es: seq<Event>): Outcome
    decreases |es|
  {
    if es == [] then Outcome(st, [])
    else
      var first := Step(self, st, es[0]);
      var rest := Run(self, first.state, es[1..]);
      Outcome(rest.state, first.rpcs + rest.rpcs)
  }

  /** Every event of `es` is enabled in the state it is processed in. */
  predicate Admissible(self: NodeId, st: NodeState, es: seq<Event>)
    decreases |es|
  {
    es == [] || (Enabled(st, es[0]) && Admissible(self, Step(self, st, es[0]).state, es[1..]))
  }

  /** The values broadcast to the node in `es`. */
  function BroadcastValues(es: seq<Event>): set<int>
  {
    set i | 0 <= i < |es| && es[i].Broadcast? :: es[i].value
  }

  /** No queue for the skipped id `self`, no queue over capacity and only accepted values queued, after every admissible run. */
  lemma {:induction false} RunPreservesInv(self: NodeId, st: NodeState, es: seq<Event>)
    requires Inv(self, st) && Admissible(self, st, es)
    ensures Inv(self, Run(self, st, es).state)
    decreases |es|
  {
    if es != [] {
      match es[0] {
        case Broadcast(src, v) => AcceptPreservesInv(self, st, src, v);
        case Topology(t) => InstallPreservesInv(self, st, t.Keys);
        case Send(dest) => SendOnePreservesInv(self, st, dest);
        case Read =>
      }
      RunPreservesInv(self, Step(self, st, es[0]).state, es[1..]);
    }
  }

  /** The delivered set after a run is exactly the initial set plus every value broadcast in it: nothing is lost, nothing else appears. */
  lemma {:induction false} RunDelivers(self: NodeId, st: NodeState, es: seq<Event>)
    ensures Run(self, st, es).state.messages == st.messages + BroadcastValues(es)
    decreases |es|
  {
    if es != [] {
      var s1 := Step(self, st, es[0]).state;
      RunDelivers(self, s1, es[1..]);
      assert s1.messages == st.messages + (if es[0].Broadcast? then {es[0].value} else {});
      var tail := es[1..];
      assert BroadcastValues(es) == (if es[0].Broadcast? then {es[0].value} else {}) + BroadcastValues(tail) by {
        forall x | x in BroadcastValues(es)
          ensures x in (if es[0].Broadcast? then {es[0].value} else {}) + BroadcastValues(tail)
        {
          var i :| 0 <= i < |es| && es[i].Broadcast? && es[i].value == x;
          if i > 0 {
            assert tail[i - 1] == es[i];
          }
        }
        forall x | x in BroadcastValues(tail) ensures x in BroadcastValues(es) {
          var i :| 0 <= i < |tail| && tail[i].Broadcast? && tail[i].value == x;
          assert es[i + 1] == tail[i];
        }
      }
    }
  }

  /** Every gossip RPC of an admissible run goes to a peer other than the skipped id `self` and carries a delivered value. */
  lemma {:induction false} RunGossipsDelivered(self: NodeId, st: NodeState, es: seq<Event>)
    requires Inv(self, st) && Admissible(self, st, es)
    ensures forall i :: 0 <= i < |Run(self, st, es).rpcs| ==>
              var m := Run(self, st, es).rpcs[i];
              m.dest != self && m.body.msgType == BroadcastType && m.body.value in Run(self, st, es).state.messages
    decreases |es|
  {
    if es != [] {
      var first := Step(self, st, es[0]);
      var rest := Run(self, first.state, es[1..]);
      assert Inv(self, first.state) by {
        RunPreservesInv(self, st, es[..1]);
        assert es[..1][1..] == [];
        assert Run(self, first.state, []).state == first.state;
      }
      RunGossipsDelivered(self, first.state, es[1..]);
      RunDelivers(self, first.state, es[1..]);
      forall i | 0 <= i < |first.rpcs|
        ensures first.rpcs[i].dest != self && first.rpcs[i].body.msgType == BroadcastType
        ensures first.rpcs[i].body.value in rest.state.messages
      {
        assert es[0].Send?;
        var q := st.queues[es[0].dest];
        assert first.rpcs[i].body.value == q[0];
      }
    }
  }

  /** The value a single event pushes onto `p`'s queue: a newly accepted value not received from `p` itself. */
  function PushedBy(st: NodeState, e: Event, p: NodeId): seq<int>
  {
    if e.Broadcast? && e.value !in st.messages && e.src != p then [e.value] else []
  }

  /** The values pushed onto `p`'s queue during a run, in order. */
  function PushedTo(self: NodeId, st: NodeState, es: seq<Event>, p: NodeId): seq<int>
    decreases |es|
  {
    if es == [] then []
    else PushedBy(st, es[0], p) + PushedTo(self, Step(self, st, es[0]).state, es[1..], p)
  }

  /** `es` never re-registers `p` (which would replace its queue). */
  predicate KeepsQueue(es: seq<Event>, p: NodeId)
  {
    forall i :: 0 <= i < |es| && es[i].Topology? ==> p !in es[i].topology
  }

  /** One event keeps `p`'s FIFO balance: sent to `p` then still queued equals queued before then pushed. */
  lemma StepIsFifo(self: NodeId, st: NodeState, e: Event, p: NodeId)
    requires p in st.queues && (e.Topology? ==> p !in e.topology)
    ensures p in Step(self, st, e).state.queues
    ensures ValuesTo(p, Step(self, st, e).rpcs) + Step(self, st, e).state.queues[p]
            == st.queues[p] + PushedBy(st, e, p)
  {
    match e
    case Broadcast(src, v) =>
    case Topology(t) =>
    case Send(dest) =>
      var out := SendOne(st, dest).rpcs;
      if dest != p && out != [] {
        assert out[1..] == [];
        assert ValuesTo(p, out) == [];
      }
    case Read =>
  }

  /** A run that never re-registers `p` starts with an event that does not, and continues with a run that does not. */
  lemma KeepsQueueTail(es: seq<Event>, p: NodeId)
    requires es != [] && KeepsQueue(es, p)
    ensures KeepsQueue(es[1..], p) && (es[0].Topology? ==> p !in es[0].topology)
  {
    forall i | 0 <= i < |es[1..]| && es[1..][i].Topology? ensures p !in es[1..][i].topology {
      assert es[1..][i] == es[i + 1];
    }
  }

  /** Two balanced stretches of a queue's history compose into one. */
  lemma Balance(sent0: seq<int>, sent1: seq<int>, q0: seq<int>, q1: seq<int>, q2: seq<int>, push0: seq<int>, push1: seq<int>)
    requires sent0 + q1 == q0 + push0 && sent1 + q2 == q1 + push1
    ensures (sent0 + sent1) + q2 == q0 + (push0 + push1)
  {
    calc {
      (sent0 + sent1) + q2;
      sent0 + (q1 + push1);
      (q0 + push0) + push1;
    }
  }

  /** Each queue drains in FIFO order with nothing lost or duplicated: what was sent to `p` followed by what is still queued for it is what was queued at the start followed by everything pushed since. */
  lemma {:induction false} RunIsFifo(self: NodeId, st: NodeState, es: seq<Event>, p: NodeId)
    requires p in st.queues && KeepsQueue(es, p)
    ensures p in Run(self, st, es).state.queues
    ensures ValuesTo(p, Run(self, st, es).rpcs) + Run(self, st, es).state.queues[p]
            == st.queues[p] + PushedTo(self, st, es, p)
    decreases |es|
  {
    if es != [] {
      var first := Step(self, st, es[0]);
      var rest := Run(self, first.state, es[1..]);
      KeepsQueueTail(es, p);
      StepIsFifo(self, st, es[0], p);
      RunIsFifo(self, first.state, es[1..], p);
      ValuesToAppend(p, first.rpcs, rest.rpcs);
      Balance(ValuesTo(p, first.rpcs), ValuesTo(p, rest.rpcs),
              st.queues[p], first.state.queues[p], rest.state.queues[p],
              PushedBy(st, es[0], p), PushedTo(self, first.state, es[1..], p));
    }
  }

  // ---------------------------------------------------------------- the skipped id

  /** The id a Maelstrom node reports before its `init` message has been handled. */
  const UnsetId: NodeId := ""

  /**
   With the id left unset, as the server is built before the node's message
   loop runs, a topology that names the node itself under a real id gives it
   a queue for that id, and the next new value is gossiped back to it.
   */
  lemma SelfGossipAsWritten(st: NodeState, t: map<NodeId, seq<NodeId>>, me: NodeId, src: NodeId, v: int)
    requires me != UnsetId && me in t && src != me && v !in st.messages
    ensures me in Install(st, UnsetId, t.Keys).queues
    ensures SendOne(Accept(Install(st, UnsetId, t.Keys), src, v), me).rpcs == [Rpc(me, NewBroadcastMsg(v))]
  {
    var s1 := Install(st, UnsetId, t.Keys);
    assert s1.queues[me] == [];
    var s2 := Accept(s1, src, v);
    assert s2.queues[me] == [v];
  }

  // ---------------------------------------------------------------- read

  predicate Distinct(xs: seq<int>)
  {
    forall i, j :: 0 <= i < j < |xs| ==> xs[i] != xs[j]
  }

  /** `xs` lists the members of `s`, each exactly once. */
  predicate Lists(xs: seq<int>, s: set<int>)
  {
    (forall x :: x in xs ==> x in s) && (forall x :: x in s ==> x in xs) && Distinct(xs)
  }

  lemma NonEmptyHasMember(s: set<int>)
    requires s != {}
    ensures exists x :: x in s
  {
    if forall x :: x !in s {
      assert false;
    }
  }

  /** The head of a listing of `s` is a member of `s`. */
  lemma ListsHead(xs: seq<int>, s: set<int>)
    requires xs != [] && Lists(xs, s)
    ensures xs[0] in s
  {
    assert xs[0] in xs;
  }

  /** Dropping the head of a listing of `s` lists `s` without that head. */
  lemma ListsTail(xs: seq<int>, s: set<int>)
    requires xs != [] && Lists(xs, s)
    ensures xs[0] in s && Lists(xs[1..], s - {xs[0]})
  {
    var tail := xs[1..];
    ListsHead(xs, s);
    forall x | x in tail ensures x in s - {xs[0]} {
      var k :| 0 <= k < |tail| && tail[k] == x;
      assert xs[k + 1] == x && xs[0] != xs[k + 1];
    }
    forall x | x in s - {xs[0]} ensures x in tail {
      var k :| 0 <= k < |xs| && xs[k] == x;
      assert k != 0 && tail[k - 1] == x;
    }
    forall i, j | 0 <= i < j < |tail| ensures tail[i] != tail[j] {
      assert tail[i] == xs[i + 1] && tail[j] == xs[j + 1];
    }
  }

  lemma CardRemove(s: set<int>, x: int)
    requires x in s
    ensures |s - {x}| == |s| - 1
  {
    var r := s - {x};
    assert s == r + {x};
    assert r * {x} == {};
  }

  /** A duplicate-free listing of a set is as long as the set is large. */
  lemma {:induction false} ListsLength(xs: seq<int>, s: set<int>)
    requires Lists(xs, s)
    ensures |xs| == |s|
    decreases |xs|
  {
    if xs == [] {
      assert forall x :: x !in s;
      assert s == {};
    } else {
      ListsTail(xs, s);
      ListsLength(xs[1..], s - {xs[0]});
      CardRemove(s, xs[0]);
    }
  }
}
