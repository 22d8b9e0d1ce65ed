/**
 Message bodies of the broadcast node (maelstrom-broadcast/main.go).

 JSON decoding is not modelled: a handler receives either the decoded body
 or `Malformed`, which stands for a failed `json.Unmarshal`.
 */
module Messages {

  /** Maelstrom node and client identifiers ("n0", "c1", ...). */
  type NodeId = string

  /** The `type` tag of a gossip message sent to a peer. */
  const BroadcastType: string := "broadcast"

  /** Body of a `broadcast` message: its type tag and the single value under JSON key `message`. */
  datatype BroadcastMsg = BroadcastMsg(msgType: string, value: int)

  /** Body of a `topology` message: node id to the ids of its neighbours. */
  datatype TopologyMsg = TopologyMsg(topology: map<NodeId, seq<NodeId>>)

  /** A request body after decoding. */
  datatype Decoded<T> = Decoded(body: T) | Malformed

  /** Reply bodies; `Type` is the `type` field the reply carries. */
  datatype Reply = BroadcastOk | ReadOk(messages: seq<int>) | TopologyOk
  {
    function Type(): (r: string)
      ensures (r == "broadcast_ok") == BroadcastOk?
      ensures (r == "read_ok") == ReadOk?
      ensures (r == "topology_ok") == TopologyOk?
    {
      match this
      case BroadcastOk => "broadcast_ok"
      case ReadOk(_) => "read_ok"
      case TopologyOk => "topology_ok"
    }
  }

  /** Replies of different kinds carry different `type` tags. */
  lemma TypeIdentifiesReply(a: Reply, b: Reply)
    ensures (a.Type() == b.Type()) == ((a.BroadcastOk? && b.BroadcastOk?) || (a.ReadOk? && b.ReadOk?) || (a.TopologyOk? && b.TopologyOk?))
  {
  }

  /** A reply handed to the transport, addressed to the sender of the request. */
  datatype ReplyTo = ReplyTo(dest: NodeId, reply: Reply)

  /** A gossip RPC handed to the transport. */
  datatype Rpc = Rpc(dest: NodeId, body: BroadcastMsg)

  /** The gossip message a sender emits for one queued value. */
  function NewBroadcastMsg(value: int): (m: BroadcastMsg)
    ensures m.msgType == BroadcastType && m.value == value
  {
    BroadcastMsg(BroadcastType, value)
  }

  /** The values carried by the RPCs addressed to `p`, in the order they were sent. */
  function ValuesTo(p: NodeId, rpcs: seq<Rpc>): seq<int>
  {
    if rpcs == [] then []
    else (if rpcs[0].dest == p then [rpcs[0].body.value] else []) + ValuesTo(p, rpcs[1..])
  }

  lemma {:induction false} ValuesToAppend(p: NodeId, a: seq<Rpc>, b: seq<Rpc>)
    ensures ValuesTo(p, a + b) == ValuesTo(p, a) + ValuesTo(p, b)
    decreases |a|
  {
    if a == [] {
      assert a + b == b;
    } else {
      var head := if a[0].dest == p then [a[0].body.value] else [];
      assert (a + b)[1..] == a[1..] + b;
      ValuesToAppend(p, a[1..], b);
      calc {
        ValuesTo(p, a + b);
        head + ValuesTo(p, a[1..] + b);
        head + (ValuesTo(p, a[1..]) + ValuesTo(p, b));
        (head + ValuesTo(p, a[1..])) + ValuesTo(p, b);
      }
    }
  }
}
