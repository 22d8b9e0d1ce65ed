/**
 The broadcast node of maelstrom-broadcast/main.go as objects: the server
 with its delivered set and its map from peer id to channel, the bounded
 channels themselves, and the transport the node replies and gossips
 through. Each handler runs as one atomic step; each sender goroutine and
 the inserter goroutine are modelled by a method performing one iteration
 of their loop.
 */
module BroadcastNode {
  import opened Messages
  import opened Gossip

  /** A buffered channel of ints, `make(chan int, capacity)`. */
  class Channel {
    const capacity: nat
    var buffer: seq<int>

    constructor (capacity: nat)
      ensures this.capacity == capacity && buffer == []
    {
      this.capacity := capacity;
      buffer := [];
    }

    /** `c <- v`; a full channel would block the caller, so the step needs room. */
    method Push(v: int)
      requires |buffer| < capacity
      modifies this
      ensures buffer == old(buffer) + [v]
    {
      buffer := buffer + [v];
    }

    /** `<-c` when a value is ready; with nothing buffered the receiver keeps waiting and nothing changes. */
    method TryReceive() returns (received: bool, v: int)
      modifies this
      ensures received == (old(buffer) != [])
      ensures received ==> v == old(buffer)[0] && buffer == old(buffer)[1..]
      ensures !received ==> buffer == old(buffer)
    {
      if buffer == [] {
        received, v := false, 0;
      } else {
        received, v := true, buffer[0];
        buffer := buffer[1..];
      }
    }
  }

  /** The Maelstrom node as a transport: the replies and the gossip RPCs handed to it, in order. */
  class Transport {
    var replies: seq<ReplyTo>
    var rpcs: seq<Rpc>

    constructor ()
      ensures replies == [] && rpcs == []
    {
      replies, rpcs := [], [];
    }

    method Reply(dest: NodeId, r: Reply)
      modifies this
      ensures replies == old(replies) + [ReplyTo(dest, r)] && rpcs == old(rpcs)
    {
      replies := replies + [ReplyTo(dest, r)];
    }

    /** `SyncRPC`; its answer is discarded by the only caller, so it is not modelled. */
    method SyncRpc(dest: NodeId, body: BroadcastMsg)
      modifies this
      ensures rpcs == old(rpcs) + [Rpc(dest, body)] && replies == old(replies)
    {
      rpcs := rpcs + [Rpc(dest, body)];
    }
  }

  /** A running `broadcastToNode` goroutine: the peer it sends to and the channel it drains. */
  datatype Sender = Sender(dest: NodeId, queue: Channel)

  /**
   How registered peers, their channels and the sender goroutines fit
   together: no channel and no sender for the skipped id `self`; distinct
   peers have distinct channels of capacity 100; each registered channel is
   drained by a sender for that same peer.
   */
  ghost predicate Wired(self: NodeId, chans: map<NodeId, Channel>, senders: set<Sender>)
  {
    self !in chans
    && (forall p, q :: p in chans && q in chans && p != q ==> chans[p] != chans[q])
    && (forall p :: p in chans ==> chans[p].capacity == QueueCapacity && Sender(p, chans[p]) in senders)
    && (forall s, p :: s in senders && p in chans && s.queue == chans[p] ==> s.dest == p)
    && (forall s :: s in senders ==> s.dest != self)
  }

  /** Registering a fresh channel for `p`, with its sender, keeps the wiring. */
  lemma WiredRegister(self: NodeId, chans: map<NodeId, Channel>, senders: set<Sender>, p: NodeId, c: Channel)
    requires Wired(self, chans, senders) && p != self && c.capacity == QueueCapacity
    requires c !in chans.Values && forall s :: s in senders ==> s.queue != c
    ensures Wired(self, chans[p := c], senders + {Sender(p, c)})
  {
    var chans', senders' := chans[p := c], senders + {Sender(p, c)};
    forall s, q | s in senders' && q in chans' && s.queue == chans'[q] ensures s.dest == q {
      if q != p && s != Sender(p, c) && p in chans {
        assert chans[q] != chans[p];
      }
    }
  }

  /**
   What the topology loop has done for the nodes of `nodes` outside `pending`,
   starting from channels `chans0` and senders `senders0`: every earlier
   registration of a node not yet processed, or of `self`, is kept; every
   sender started is for a processed node and drains its current channel.
   */
  ghost predicate Registered(self: NodeId, nodes: set<NodeId>, pending: set<NodeId>,
                             chans0: map<NodeId, Channel>, senders0: set<Sender>,
                             chans: map<NodeId, Channel>, senders: set<Sender>)
  {
    (forall p :: p in chans0 && (p !in nodes || p in pending || p == self) ==> p in chans && chans[p] == chans0[p])
    && senders0 <= senders
    && (forall s :: s in senders && s !in senders0 ==>
          s.dest in nodes && s.dest !in pending && s.dest in chans && chans[s.dest] == s.queue)
  }

  lemma RegisteredStep(self: NodeId, nodes: set<NodeId>, pending: set<NodeId>,
                       chans0: map<NodeId, Channel>, senders0: set<Sender>,
                       chans: map<NodeId, Channel>, senders: set<Sender>, p: NodeId, c: Channel)
    requires Registered(self, nodes, pending, chans0, senders0, chans, senders)
    requires p in pending && pending <= nodes && p != self
    ensures Registered(self, nodes, pending - {p}, chans0, senders0, chans[p := c], senders + {Sender(p, c)})
  {
  }

  /**
   The queues after the topology loop has processed the nodes of `nodes`
   outside `pending`, starting from `queues0`: each processed node other than
   `self` has an empty queue, every other queue is as it was.
   */
  ghost predicate Installed(self: NodeId, nodes: set<NodeId>, pending: set<NodeId>,
                            queues0: map<NodeId, seq<int>>, queues: map<NodeId, seq<int>>)
  {
    (forall q :: q in queues <==> q in queues0 || (q in nodes && q !in pending && q != self))
    && forall q :: q in queues ==> queues[q] == if q in nodes && q !in pending && q != self then [] else queues0[q]
  }

  lemma InstalledStep(self: NodeId, nodes: set<NodeId>, pending: set<NodeId>,
                      queues0: map<NodeId, seq<int>>, queues: map<NodeId, seq<int>>, p: NodeId)
    requires Installed(self, nodes, pending, queues0, queues) && p in pending && pending <= nodes
    ensures p != self ==> Installed(self, nodes, pending - {p}, queues0, queues[p := []])
    ensures p == self ==> Installed(self, nodes, pending - {p}, queues0, queues)
  {
  }

  class Server {
    const node: Transport
    /** The id the topology loop skips: what the transport reported when the server was built (main.go:43). */
    const nodeId: NodeId
    var messages: set<int>
    var broadcastChans: map<NodeId, Channel>
    /** Every sender goroutine started so far, including those whose channel a later topology replaced. */
    var senders: set<Sender>
    /** The contents of each registered peer's channel. */
    ghost var queues: map<NodeId, seq<int>>

    /** The abstract state: the delivered set and the contents of each registered peer's channel. */
    ghost function State(): NodeState
      reads this
    {
      NodeState(messages, queues)
    }

    /** `queues` is what the registered channels hold. */
    ghost predicate Synced()
      reads this, broadcastChans.Values
    {
      queues.Keys == broadcastChans.Keys
      && forall p :: p in broadcastChans ==> broadcastChans[p].buffer == queues[p]
    }

    /** The channels of every sender started so far, current or replaced. */
    ghost function Channels(): set<Channel>
      reads this
    {
      set s | s in senders :: s.queue
    }

    /** Every value waiting in any sender's channel, including a channel a later topology replaced, was delivered. */
    ghost predicate SendersDelivered()
      reads this, Channels()
    {
      forall s, w :: s in senders && w in s.queue.buffer ==> w in messages
    }

    /**
     The server invariant: the wiring, the abstract view, the abstract
     invariant (no own queue, within capacity, only delivered values queued)
     and the same for the channels of replaced senders.
     */
    ghost predicate Valid()
      reads this, broadcastChans.Values, Channels()
    {
      Wired(nodeId, broadcastChans, senders) && Synced() && Inv(nodeId, State()) && SendersDelivered()
    }

    /** `s` is the sender whose channel is the one currently registered for its peer. */
    ghost predicate IsCurrent(s: Sender)
      reads this
    {
      s.dest in broadcastChans && broadcastChans[s.dest] == s.queue
    }

    /**
     The server as `main` builds it, before any message arrives. `main`
     passes `n.ID()` before the node's message loop has handled `init`, so
     in the program `nodeId` is `UnsetId`.
     */
    constructor (node: Transport, nodeId: NodeId)
      ensures Valid()
      ensures this.node == node && this.nodeId == nodeId
      ensures State() == NodeState({}, map[]) && senders == {}
    {
      this.node := node;
      this.nodeId := nodeId;
      messages := {};
      broadcastChans := map[];
      senders := {};
      queues := map[];
    }

    /** One iteration of the inserter goroutine. */
    method InsertMessage(v: int)
      modifies this`messages
      ensures messages == old(messages) + {v}
    {
      messages := messages + {v};
    }

    /**
     The `broadcast` handler: a value already delivered is dropped without a
     reply; a new one is delivered, pushed to the channel of every registered
     peer other than the sender and acknowledged with `broadcast_ok`. The
     step needs room in every channel it pushes to.
     */
    method HandleBroadcastMsg(src: NodeId, body: Decoded<BroadcastMsg>) returns (ok: bool)
      requires Valid()
      requires body.Decoded? ==> CanAccept(State(), src, body.body.value)
      modifies this, node, broadcastChans.Values
      ensures Valid()
      ensures ok == body.Decoded?
      ensures broadcastChans == old(broadcastChans) && senders == old(senders) && node.rpcs == old(node.rpcs)
      ensures !ok ==> State() == old(State()) && node.replies == old(node.replies)
      ensures ok ==> State() == Accept(old(State()), src, body.body.value)
      ensures ok ==> node.replies == old(node.replies) + Addressed(src, AcceptReplies(old(State()), body.body.value))
    {
      if body.Malformed? {
        return false;
      }
      ok := true;
      var v := body.body.value;
      if v in messages {
        assert Addressed(src, []) == [];
        return;
      }
      Deliver(src, v);
      node.Reply(src, BroadcastOk);
      assert Addressed(src, [BroadcastOk]) == [ReplyTo(src, BroadcastOk)];
    }

    /** The first sight of `v` in the `broadcast` handler: hand it to the inserter, then fan it out. */
    method Deliver(src: NodeId, v: int)
      requires Valid() && v !in messages && CanAccept(State(), src, v)
      modifies this, broadcastChans.Values
      ensures Valid()
      ensures broadcastChans == old(broadcastChans) && senders == old(senders)
      ensures State() == Accept(old(State()), src, v)
    {
      ghost var st := State();
      InsertMessage(v);
      FanOut(src, v);
      forall s, w | s in senders && w in s.queue.buffer ensures w in messages {
        if exists p :: p in broadcastChans && broadcastChans[p] == s.queue {
          var p :| p in broadcastChans && broadcastChans[p] == s.queue;
          assert s.queue.buffer == st.queues[p] || s.queue.buffer == st.queues[p] + [v];
        } else {
          assert s.queue !in broadcastChans.Values;
          assert w in old(s.queue.buffer);
        }
      }
      queues := Accept(st, src, v).queues;
      AcceptPreservesInv(nodeId, st, src, v);
    }

    /** The fan-out loop of the `broadcast` handler: `v` is pushed to the channel of every registered peer except `src`. */
    method FanOut(src: NodeId, v: int)
      requires Wired(nodeId, broadcastChans, senders) && Synced()
      requires forall p :: p in queues && p != src ==> |queues[p]| < QueueCapacity
      modifies broadcastChans.Values
      ensures forall p :: p in broadcastChans ==>
                broadcastChans[p].buffer == if p == src then queues[p] else queues[p] + [v]
    {
      var pending := broadcastChans.Keys;
      while pending != {}
        invariant pending <= broadcastChans.Keys
        invariant forall p :: p in broadcastChans ==>
                    broadcastChans[p].buffer == if p in pending || p == src then queues[p] else queues[p] + [v]
        decreases pending
      {
        var p :| p in pending;
        if p != src {
          broadcastChans[p].Push(v);
        }
        pending := pending - {p};
      }
    }

    /** The append loop of the `read` handler: the delivered values, each once. */
    method ReadMessages() returns (list: seq<int>)
      ensures Lists(list, messages)
      ensures |list| == |messages|
    {
      list := [];
      var rest := messages;
      while rest != {}
        invariant rest <= messages
        invariant forall m :: m in list ==> m in messages && m !in rest
        invariant forall m :: m in messages ==> m in list || m in rest
        invariant Distinct(list)
        decreases |rest|
      {
        NonEmptyHasMember(rest);
        var m :| m in rest;
        list := list + [m];
        rest := rest - {m};
      }
      ListsLength(list, messages);
    }

    /** The `read` handler: replies `read_ok` with the delivered values and changes no state. */
    method HandleReadMsg(src: NodeId)
      modifies node
      ensures |node.replies| == |old(node.replies)| + 1 && node.replies[..|old(node.replies)|] == old(node.replies)
      ensures node.replies[|old(node.replies)|].dest == src
      ensures node.replies[|old(node.replies)|].reply.ReadOk?
      ensures Lists(node.replies[|old(node.replies)|].reply.messages, messages)
      ensures node.rpcs == old(node.rpcs)
      ensures State() == old(State()) && broadcastChans == old(broadcastChans)
    {
      var list := ReadMessages();
      node.Reply(src, ReadOk(list));
    }

    /**
     The `topology` handler: every key of the topology map other than the
     server's `nodeId` gets a fresh, empty channel of capacity 100 and a sender
     draining it, replacing any channel registered for it before; the reply
     is `topology_ok`.
     */
    method HandleTopologyMsg(src: NodeId, body: Decoded<TopologyMsg>) returns (ok: bool)
      requires Valid()
      modifies this, node
      ensures Valid()
      ensures ok == body.Decoded?
      ensures messages == old(messages) && node.rpcs == old(node.rpcs)
      ensures !ok ==> broadcastChans == old(broadcastChans) && senders == old(senders) && node.replies == old(node.replies)
      ensures ok ==> State() == Install(old(State()), nodeId, body.body.topology.Keys)
      ensures ok ==> forall p :: p in body.body.topology && p != nodeId ==> fresh(broadcastChans[p])
      ensures ok ==> forall p :: p in old(broadcastChans) && (p !in body.body.topology || p == nodeId) ==>
                       p in broadcastChans && broadcastChans[p] == old(broadcastChans[p])
      ensures ok ==> old(senders) <= senders
      ensures ok ==> forall s :: s in senders && s !in old(senders) ==> s.dest in body.body.topology && IsCurrent(s)
      ensures ok ==> node.replies == old(node.replies) + [ReplyTo(src, TopologyOk)]
    {
      if body.Malformed? {
        return false;
      }
      ok := true;
      var topology := body.body.topology;
      ghost var st := State();
      RegisterAll(topology.Keys);
      assert forall p :: p in old(broadcastChans) && (p !in topology || p == nodeId) ==>
               p in broadcastChans && broadcastChans[p] == old(broadcastChans[p]);
      node.Reply(src, TopologyOk);
      InstallPreservesInv(nodeId, st, topology.Keys);
    }

    /** The loop of the `topology` handler: every node of `nodes` but `nodeId` gets a fresh channel and sender. */
    method RegisterAll(nodes: set<NodeId>)
      requires Wired(nodeId, broadcastChans, senders) && Synced() && SendersDelivered()
      modifies this
      ensures Wired(nodeId, broadcastChans, senders) && Synced() && SendersDelivered()
      ensures State() == Install(old(State()), nodeId, nodes)
      ensures forall p :: p in nodes && p != nodeId ==> p in broadcastChans && fresh(broadcastChans[p])
      ensures Registered(nodeId, nodes, {}, old(broadcastChans), old(senders), broadcastChans, senders)
    {
      var pending := nodes;
      while pending != {}
        invariant pending <= nodes
        invariant Wired(nodeId, broadcastChans, senders) && Synced() && SendersDelivered()
        invariant messages == old(messages)
        invariant Installed(nodeId, nodes, pending, old(queues), queues)
        invariant Registered(nodeId, nodes, pending, old(broadcastChans), old(senders), broadcastChans, senders)
        invariant forall p :: p in nodes && p !in pending && p != nodeId ==> fresh(broadcastChans[p])
        decreases pending
      {
        var p :| p in pending;
        InstalledStep(nodeId, nodes, pending, old(queues), queues, p);
        if p != nodeId {
          ghost var chans, started := broadcastChans, senders;
          var c := Register(p);
          RegisteredStep(nodeId, nodes, pending, old(broadcastChans), old(senders), chans, started, p, c);
        }
        pending := pending - {p};
      }
      assert Installed(nodeId, nodes, {}, old(queues), queues);
      InstallDetermined(old(State()), nodeId, nodes, State());
    }

    /** One iteration of the topology loop: a fresh channel of capacity 100 for `p`, registered in place of any earlier one, and its sender started. */
    method Register(p: NodeId) returns (c: Channel)
      requires p != nodeId && Wired(nodeId, broadcastChans, senders) && Synced() && SendersDelivered()
      modifies this
      ensures fresh(c)
      ensures broadcastChans == old(broadcastChans)[p := c] && senders == old(senders) + {Sender(p, c)}
      ensures Wired(nodeId, broadcastChans, senders) && Synced() && SendersDelivered()
      ensures messages == old(messages) && queues == old(queues)[p := []]
    {
      c := new Channel(QueueCapacity);
      WiredRegister(nodeId, broadcastChans, senders, p, c);
      broadcastChans := broadcastChans[p := c];
      senders := senders + {Sender(p, c)};
      queues := queues[p := []];
    }

    /**
     One iteration of the sender goroutine `s`: take the front value of its
     channel and emit it to its peer as a single-value `broadcast` RPC; with
     an empty channel it waits and nothing changes. Only that channel and the
     RPC log change.
     */
    method BroadcastToNodeStep(s: Sender) returns (sent: bool)
      requires Valid() && s in senders
      modifies this`queues, s.queue, node
      ensures Valid()
      ensures sent == (old(s.queue.buffer) != [])
      ensures sent ==> s.queue.buffer == old(s.queue.buffer)[1..]
                       && node.rpcs == old(node.rpcs) + [Rpc(s.dest, NewBroadcastMsg(old(s.queue.buffer)[0]))]
      ensures !sent ==> s.queue.buffer == old(s.queue.buffer) && node.rpcs == old(node.rpcs)
      ensures node.replies == old(node.replies)
      ensures IsCurrent(s) ==> State() == SendOne(old(State()), s.dest).state
                               && node.rpcs == old(node.rpcs) + SendOne(old(State()), s.dest).rpcs
      ensures !IsCurrent(s) ==> State() == old(State())
      ensures sent ==> old(s.queue.buffer)[0] in messages && s.dest != nodeId
    {
      ghost var st := State();
      var v;
      sent, v := s.queue.TryReceive();
      if sent {
        node.SyncRpc(s.dest, NewBroadcastMsg(v));
      }
      if IsCurrent(s) {
        queues := SendOne(st, s.dest).state.queues;
        SendOnePreservesInv(nodeId, st, s.dest);
      } else {
        assert forall p :: p in broadcastChans ==> broadcastChans[p] != s.queue;
      }
      forall s', w | s' in senders && w in s'.queue.buffer ensures w in messages {
        assert w in old(s'.queue.buffer);
      }
    }
  }

  /** The replies `rs`, each addressed to `dest`. */
  function Addressed(dest: NodeId, rs: seq<Reply>): (r: seq<ReplyTo>)
    ensures |r| == |rs|
    ensures forall i :: 0 <= i < |rs| ==> r[i] == ReplyTo(dest, rs[i])
  {
    seq(|rs|, i requires 0 <= i < |rs| => ReplyTo(dest, rs[i]))
  }
}
