# Broadcast node of maelstrom-broadcast, modelled in Dafny

The program is a Maelstrom node for the broadcast workload. It keeps a set
of delivered integer values and one bounded channel (capacity 100) per
registered peer. Each channel is drained by a sender goroutine that gossips
one value per `broadcast` RPC. The node handles three requests:

- `broadcast`: a value already delivered is dropped without a reply. A new
  value is delivered, pushed to the channel of every registered peer except
  the sender, and answered with `broadcast_ok`.
- `read`: the reply `read_ok` lists the delivered values.
- `topology`: every key of the topology map except the server's `nodeId`
  gets a fresh channel and its own sender goroutine. The reply is
  `topology_ok`.

`nodeId` is the id the server was built with (main.go:43). `main` reads it
from the Maelstrom node before the node's message loop has handled `init`
(main.go:55), so in the program it is the empty string. The model keeps
`nodeId` as a parameter of the server, and of the `Gossip` functions as
`self`. Every "no queue for self" and "never gossips to self" property is
a property of that id only. See "## Findings" for what this means when the
id is the empty string.

The project has three files:

- `messages.dfy` (module `Messages`): the message bodies, the replies, the
  gossip message built by `NewBroadcastMsg`, and `ValuesTo`, which gives the
  values sent to one peer in order.
- `gossip.dfy` (module `Gossip`): the node as an abstract state machine.
  The state is the delivered set plus one FIFO queue per registered peer.
  There is one function per step: `Accept` for broadcast, `Install` for
  topology and `SendOne` for one sender iteration. Lemmas cover single
  steps and whole runs.
- `broadcast_node.dfy` (module `BroadcastNode`): the imperative node.
  - `Channel` is a buffered Go channel.
  - `Transport` is the Maelstrom node, seen as logs of the replies and RPCs
    handed to it.
  - `Server` has the delivered set, the map from peer id to channel, and
    the set of sender goroutines started so far.
  - Each handler and each goroutine iteration is a method.
    `HandleBroadcastMsg` and `Deliver` are proved against `Accept`.
    `HandleTopologyMsg` and `RegisterAll` are proved against `Install`.
    `BroadcastToNodeStep` is proved against `SendOne`. `HandleBroadcastMsg`,
    `Deliver`, `HandleTopologyMsg` and `BroadcastToNodeStep` keep the
    server invariant `Valid()`. `RegisterAll` keeps only its wiring part
    (`Wired`, `Synced` and `SendersDelivered`). `HandleTopologyMsg`
    re-establishes the rest of `Valid()` through `InstallPreservesInv`.
  - `InsertMessage`, `FanOut`, `Register`, `ReadMessages` and
    `HandleReadMsg` state their results directly. `ReadMessages` and
    `HandleReadMsg` change nothing the invariant reads.

Points about the code's behaviour that the model follows:

- The `topology` handler registers every KEY of the topology map, which
  means every node of the cluster. It does not use this node's neighbour
  list (main.go:119).
- A second `topology` message gives each named node a fresh channel and a
  new sender. The old channel is dropped from the map, but its sender keeps
  draining it. The model keeps every started sender in `Server.senders`.
  `BroadcastToNodeStep` works for any of them, and a sender whose channel
  has been replaced leaves the abstract state unchanged. The server
  invariant also covers these replaced channels: everything waiting in
  any sender's channel has been delivered.
- Gossip is one value per RPC. It is never retried, batched or
  acknowledged. The RPC's answer is discarded (main.go:141).
- A channel send blocks while the channel is full (main.go:92). The
  handler step is only enabled when every channel it pushes to has room:
  `CanAccept` in `Gossip`, and the precondition of `HandleBroadcastMsg`.

## Model

| member | source | states |
|---|---|---|
| Gossip.Accept | maelstrom-broadcast/main.go:79-93 | A value already delivered leaves the state unchanged. A new value is added to the delivered set and nothing else is added. It is appended to the queue of every registered peer except the sender. The sender's queue and the set of registered peers are unchanged. |
| Gossip.AcceptReplies | maelstrom-broadcast/main.go:80-97 | A broadcast of a value already delivered gets no reply. A new value gets exactly one reply, of type `broadcast_ok`. |
| Gossip.AcceptIdempotent | maelstrom-broadcast/main.go:79-84 | Broadcasting a value a second time, from any sender, gives the same state as broadcasting it once, and gets no reply. |
| Gossip.AcceptPreservesInv | maelstrom-broadcast/main.go:84-93 | Accepting keeps the invariant: when no channel is full, no queue exceeds 100 values, only delivered values are queued, and the skipped id `self` has no queue. |
| Gossip.Install | maelstrom-broadcast/main.go:119-129 | Every key except the skipped id `self` gets an empty queue, whether or not it had one. Other queues and the delivered set are unchanged. The registered peers become the old ones plus the new keys. |
| Gossip.InstallDetermined | maelstrom-broadcast/main.go:119-129 | Any state with those keys, those empty queues and those unchanged queues is the installed state. |
| Gossip.InstallOneMore | maelstrom-broadcast/main.go:119-129 | Installing one more key after a set of keys gives the same result as installing the set with that key. |
| Gossip.InstallPreservesInv | maelstrom-broadcast/main.go:119-129 | Installing a topology keeps the invariant. In particular the skipped id `self` never gets a queue. |
| Gossip.SendOne | maelstrom-broadcast/main.go:136-145 | The sender for `dest` takes the front value of its queue. It emits exactly one RPC to `dest`, of type `broadcast` (built as in main.go:31-36), carrying that value. Other queues, the registered peers and the delivered set are unchanged. With an empty queue nothing is sent. The value sent followed by the new queue is the old queue. |
| Gossip.SendOnePreservesInv | maelstrom-broadcast/main.go:136-145 | A sender step keeps the invariant. |
| Gossip.RunPreservesInv | maelstrom-broadcast/main.go:73-145 | Every run of enabled broadcast, topology, send and read steps keeps the invariant. In particular no queue ever holds more than 100 values. |
| Gossip.RunDelivers | maelstrom-broadcast/main.go:79-84 | After any run, the delivered set is the initial set plus exactly the values broadcast during the run. |
| Gossip.RunGossipsDelivered | maelstrom-broadcast/main.go:136-145 | Every RPC emitted in an enabled run has type `broadcast`, goes to a node other than the skipped id `self`, and carries a delivered value. |
| Gossip.StepIsFifo | maelstrom-broadcast/main.go:87-145 | For any single step that does not re-register `p`: the values sent to `p` followed by `p`'s new queue equal `p`'s old queue followed by the value the step pushed. |
| Gossip.RunIsFifo | maelstrom-broadcast/main.go:87-145 | For any run that never re-registers `p`: the values sent to `p`, in order, followed by what is still queued for `p`, equal the starting queue followed by every value pushed for `p`, in order. Nothing is lost, duplicated or reordered. |
| Gossip.ListsLength | maelstrom-broadcast/main.go:104-107 | A duplicate-free listing of a set has exactly as many elements as the set. |
| BroadcastNode.WiredRegister | maelstrom-broadcast/main.go:124-128 | Registering a new channel of capacity 100 for a peer other than the skipped id, with a sender started for it, keeps the wiring. The skipped id has no channel and no sender, distinct peers keep distinct channels, and each registered channel has a sender for that same peer. |
| Messages.NewBroadcastMsg | maelstrom-broadcast/main.go:31-36 | The gossip message for a value has type `broadcast` and carries exactly that value. |
| Messages.Reply.Type | maelstrom-broadcast/main.go:95-133 | The `type` tag of a reply is `broadcast_ok` exactly for the broadcast acknowledgement, `read_ok` exactly for the read reply, and `topology_ok` exactly for the topology acknowledgement (main.go:96, 102, 132). |
| Messages.TypeIdentifiesReply | maelstrom-broadcast/main.go:95-133 | Two replies carry the same `type` tag exactly when they are of the same kind. |
| BroadcastNode.Channel.constructor | maelstrom-broadcast/main.go:124 | A new channel is empty, with the given capacity. |
| BroadcastNode.Channel.Push | maelstrom-broadcast/main.go:92 | A send needs room and appends the value to the buffer. |
| BroadcastNode.Channel.TryReceive | maelstrom-broadcast/main.go:139-140 | A receive takes the front value when one is buffered. Otherwise the receiver waits and the buffer is unchanged. |
| BroadcastNode.Transport.Reply | maelstrom-broadcast/main.go:97 | A reply is appended to the reply log. The RPC log is unchanged. |
| BroadcastNode.Transport.SyncRpc | maelstrom-broadcast/main.go:141 | An RPC is appended to the RPC log. The reply log is unchanged. |
| BroadcastNode.Server.constructor | maelstrom-broadcast/main.go:41-47 | The new server has the given `nodeId`, no delivered values, no channels and no senders, and satisfies the invariant. |
| Gossip.SelfGossipAsWritten | maelstrom-broadcast/main.go:119-141 | With `self` the empty string, a topology that names the node under a real id `me` gives `me` a queue. The next new value from another sender is then gossiped to `me` as one `broadcast` RPC. |
| BroadcastNode.Server.InsertMessage | maelstrom-broadcast/main.go:60-65 | One iteration of the inserter adds the value to the delivered set. |
| BroadcastNode.Server.HandleBroadcastMsg | maelstrom-broadcast/main.go:73-98 | A malformed body changes nothing and yields an error. Otherwise the new abstract state is `Accept` of the old one. The replies gained are `AcceptReplies` addressed to the sender: none for a duplicate, `broadcast_ok` for a new value. No RPC is sent, no channel is replaced, and the invariant holds. |
| BroadcastNode.Server.Deliver | maelstrom-broadcast/main.go:84-93 | For a value not yet delivered, and with room in every channel: the new abstract state is `Accept` of the old one, no channel or sender is replaced, and the invariant holds. |
| BroadcastNode.Server.FanOut | maelstrom-broadcast/main.go:86-93 | Every registered channel except the sender's gets the value appended. The sender's channel is unchanged. |
| BroadcastNode.Server.ReadMessages | maelstrom-broadcast/main.go:104-107 | The list holds every delivered value exactly once: nothing missing, nothing extra, no duplicates. Its length is the size of the set. |
| BroadcastNode.Server.HandleReadMsg | maelstrom-broadcast/main.go:100-111 | Exactly one reply is appended. It is addressed to the requester and is `read_ok`, listing the delivered set exactly once. The server state and the RPC log are unchanged. |
| BroadcastNode.Server.HandleTopologyMsg | maelstrom-broadcast/main.go:113-134 | A malformed body changes nothing and yields an error. Otherwise: the new abstract state is `Install` over the keys of the topology; every key except the server's `nodeId` has a freshly allocated channel; entries not named (and the one for `nodeId`, if any) keep their channel; every sender started is for a named node and drains that node's current channel; the reply `topology_ok` is appended; delivered values and RPCs are unchanged; the invariant holds. |
| BroadcastNode.Server.RegisterAll | maelstrom-broadcast/main.go:119-129 | The loop over the topology keys gives the same result as `Install`. Each key except the server's `nodeId` gets a fresh channel. Every earlier registration not named is kept, and every new sender drains its peer's current channel. |
| BroadcastNode.Server.Register | maelstrom-broadcast/main.go:124-128 | A fresh channel for `p` replaces any earlier entry, a sender for it is started, and `p`'s queue becomes empty. Nothing else in the map changes, and the wiring is kept. |
| BroadcastNode.Server.BroadcastToNodeStep | maelstrom-broadcast/main.go:136-145 | When its channel holds a value, the sender pops the front and emits one `broadcast` RPC with it to its peer. Otherwise nothing changes. For the peer's current sender, this is `SendOne` on the abstract state. A sender whose channel was replaced leaves the abstract state unchanged. The value sent, from a current or a replaced channel, is a delivered value, and the peer it goes to is not `nodeId`. The invariant holds, and no reply is sent. |

## Findings

| source | as written | input that shows it | evidently intended | confidence | as-written member | corrected member |
|---|---|---|---|---|---|---|
| maelstrom-broadcast/main.go:43 | `nodeId: n.ID()` is read while the server is built, before `n.Run()` (main.go:55) handles `init`, so `nodeId` is `""` and the skip at main.go:120 never matches. | A topology with a key `"n0"` that is the node's own id. The node registers a channel and a sender for `"n0"`. The next new value broadcast from another sender is pushed to that channel (main.go:92) and gossiped back to `"n0"` (main.go:141). The node already holds that value (main.go:84), so it drops the echo without a reply (main.go:81-83). As the `BroadcastNode.Transport.SyncRpc` line under "## Left out" says, that sender then waits forever, and later values stay in its channel until it is full (100 values) and the broadcast handler blocks at main.go:92. | The loop skips the id the node got in `init`, so the node never queues for or gossips to itself. | not executed | Gossip.SelfGossipAsWritten | Gossip.RunGossipsDelivered |

The corrected behaviour is the model as it stands, with `self` (the server's
`nodeId`) taken as the id from `init`. `Gossip.InstallPreservesInv`,
`Gossip.RunPreservesInv` and `Gossip.RunGossipsDelivered` then show that the
node has no queue for itself and never gossips to itself.
`Gossip.SelfGossipAsWritten` shows the code as written, with `self`
equal to `UnsetId`.

## Left out

- maelstrom-counter and maelstrom-unique-ids are separate programs and are not part of this model.
- JSON decoding is not modelled. A handler receives either the decoded body or `Malformed`, which stands for a failed `json.Unmarshal` (main.go:74-77, 114-117). The model only states that an error changes nothing.
- Goroutines, scheduling and data races are not modelled. Each handler runs as one atomic step, and each goroutine iteration is a separate method the environment may call.
- BroadcastNode.Server.HandleBroadcastMsg: the hand-off to the inserter goroutine over an unbuffered channel (main.go:84) is modelled as a synchronous insert. In the code the insert may happen after the handler returns, so a second broadcast of the same value that arrives in between can be fanned out again. Reads and writes of the Go map from different goroutines are unsynchronised. The model does not capture either effect.
- BroadcastNode.Server.HandleBroadcastMsg: a send to a full channel blocks the handler (main.go:92). The model requires room in every channel it pushes to, rather than modelling a blocked handler.
- BroadcastNode.Server.BroadcastToNodeStep: on an empty channel the goroutine blocks. The model returns `false` and changes nothing.
- BroadcastNode.Transport.SyncRpc: the answer, the error and the blocking of `SyncRPC` are not modelled, because the caller discards them (main.go:141). A duplicate broadcast gets no reply (main.go:81-83). `SyncRPC` is called with `context.Background()`, so the peer's sender that gossiped the duplicate can wait for that reply forever. This is a liveness property across nodes, and the model does not state it.
- The closed-channel branches (main.go:64-67, 139-140 with `ok` false) are not modelled, because no channel is ever closed.
- Go's `int` is 64 bits wide. Values are only stored and compared, never computed with, so the model uses unbounded `int`.
- The order of Go's map iteration is not modelled. The loops pick keys in an arbitrary order, and the contracts hold for every order. The order of the `read_ok` list is left unspecified, as in the code.
- The Maelstrom node's own message loop, message ids and `Reply`/`SyncRPC` internals are not modelled. Replies and RPCs are logs on `Transport`.
- Retry, acknowledgement, batching and shutdown do not exist in the code, so they are not modelled.
