/**
 What each event does to a mock layer-1 node, as functions on its whole state
 (integration/ethereummock/node.go). Node.dfy proves that the code computes them; Network.dfy
 follows them over whole runs.
 */
module NodeSteps {
  import opened Wrappers
  import opened Blocks
  import opened TxIndex
  import opened ForkChoice

  /** A mining round in progress: the block it builds on and the time it was started. */
  datatype Round = Round(canonical: Block, time: nat)

  /**
   `rounds` are scheduled and have not fired; `mined` are blocks dropped on the mining channel
   and not yet handled.
   */
  datatype NodeState = NodeState(chain: ChainState, mempool: seq<Tx>, cache: Cache, rounds: seq<Round>, mined: seq<Block>)

  const INIT_NODE: NodeState := NodeState(INIT, [], map[], [], [])

  ghost function Fault(n: NodeState): NodeState {
    n.(chain := n.chain.(faulted := true))
  }

  ghost function ReceiveTx(n: NodeState, tx: Tx): NodeState {
    n.(mempool := n.mempool + [tx])
  }

  /** The miner takes a new canonical block, collects garbage and schedules a round on it. */
  ghost function StartRound(n: NodeState, time: nat): NodeState
    requires n.chain.canonical != []
  {
    var cb := n.chain.canonical[0];
    match WithoutCommitted(n.chain.store, n.cache, cb, n.mempool)
    case None => Fault(n)
    case Some(m) =>
      n.(chain := n.chain.(canonical := n.chain.canonical[1..]), mempool := m, rounds := n.rounds + [Round(cb, time)])
  }

  function RemoveAt<T>(s: seq<T>, k: nat): (r: seq<T>)
    requires k < |s|
    ensures |r| == |s| - 1 && forall i :: 0 <= i < |r| ==> r[i] == s[if i < k then i else i + 1]
  {
    s[..k] + s[k + 1..]
  }

  /** A scheduled round fires: a block on top of its canonical block, with what is not yet included. */
  ghost function FireRound(n: NodeState, id: nat, k: nat): NodeState
    requires k < |n.rounds|
  {
    var r := n.rounds[k];
    match NotIncluded(n.chain.store, n.cache, r.canonical, n.mempool)
    case None => Fault(n)
    case Some(txs) =>
      n.(cache := Filled(n.chain.store, n.cache, r.canonical),
         rounds := RemoveAt(n.rounds, k),
         mined := n.mined + [NewBlock(Some(r.canonical), id, txs, r.time)])
  }

  ghost function HandlePeer(n: NodeState, b: Block): NodeState {
    n.(chain := Step(n.chain, Peer(b)))
  }

  ghost function HandleMined(n: NodeState, k: nat): NodeState
    requires k < |n.mined|
  {
    n.(chain := Step(n.chain, Mined(n.mined[k])), mined := RemoveAt(n.mined, k))
  }

  /** After handling a mined block the node broadcasts it iff it is now the head. */
  ghost predicate Broadcasts(n: NodeState, k: nat)
    requires k < |n.mined|
  {
    var t := HandleMined(n, k);
    !t.chain.faulted && t.chain.head == n.mined[k]
  }
}
