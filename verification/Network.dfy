/**
 The gossip network of mock nodes (integration/ethereummock/mock_l1_network.go): any
 interleaving of transactions, mining rounds, broadcasts and deliveries.
 */
module Network {
  import opened Wrappers
  import opened Blocks
  import opened TxIndex
  import opened ForkChoice
  import opened NodeSteps

  /** A broadcast on its way to one node: first the parent is dropped on its channel, then the block. */
  datatype Message = Both(to: nat, parent: Block, block: Block) | Second(to: nat, block: Block)

  datatype Net = Net(nodes: seq<NodeState>, inFlight: multiset<Message>)

  ghost function InitNet(n: nat): Net {
    Net(seq(n, _ => INIT_NODE), multiset{})
  }

  /** Who is sent what when node `sender` of `n` broadcasts `b` and its parent `p`. */
  function Recipients(n: nat, sender: nat, p: Block, b: Block): seq<Message> {
    if n == 0 then []
    else Recipients(n - 1, sender, p, b) + (if n - 1 == sender then [] else [Both(n - 1, p, b)])
  }

  method BroadcastBlock(n: nat, sender: nat, p: Block, b: Block) returns (scheduled: seq<Message>)
    ensures scheduled == Recipients(n, sender, p, b)
  {
    scheduled := [];
    for i := 0 to n
      invariant scheduled == Recipients(i, sender, p, b)
    {
      if i != sender {
        scheduled := scheduled + [Both(i, p, b)];
      }
    }
  }

  /** Every node but the sender is sent the pair once, in order, and nothing else is sent. */
  lemma {:induction false} RecipientsExactly(n: nat, sender: nat, p: Block, b: Block, m: Message)
    ensures m in Recipients(n, sender, p, b) <==> m == Both(m.to, p, b) && m.to < n && m.to != sender
  {
    if n != 0 {
      RecipientsExactly(n - 1, sender, p, b, m);
    }
  }

  ghost predicate Ascending(sent: seq<Message>) {
    forall i, j :: 0 <= i < j < |sent| ==> sent[i].to < sent[j].to
  }

  lemma {:induction false} RecipientsOnce(n: nat, sender: nat, p: Block, b: Block)
    ensures Ascending(Recipients(n, sender, p, b))
  {
    if n != 0 {
      RecipientsOnce(n - 1, sender, p, b);
      var earlier := Recipients(n - 1, sender, p, b);
      forall i | 0 <= i < |earlier|
        ensures earlier[i].to < n - 1
      {
        RecipientsExactly(n - 1, sender, p, b, earlier[i]);
      }
    }
  }

  datatype Action =
    | Gossip(i: nat, tx: Tx)
    | TakeCanonical(i: nat, time: nat)
    | Fire(i: nat, k: nat)
    | ProcessMined(i: nat, k: nat)
    | DeliverParent(m: Message)
    | DeliverBlock(m: Message)

  function Target(a: Action): nat {
    match a
    case DeliverParent(m) => m.to
    case DeliverBlock(m) => m.to
    case _ => a.i
  }

  ghost predicate Enabled(net: Net, a: Action) {
    Target(a) < |net.nodes| && !net.nodes[Target(a)].chain.faulted &&
    var n := net.nodes[Target(a)];
    match a
    case Gossip(_, _) => true
    case TakeCanonical(_, _) => n.chain.canonical != []
    case Fire(_, k) => k < |n.rounds|
    case ProcessMined(_, k) => k < |n.mined|
    case DeliverParent(m) => m in net.inFlight && m.Both?
    case DeliverBlock(m) => m in net.inFlight && m.Second?
  }

  ghost function NextNode(net: Net, a: Action): NodeState
    requires Enabled(net, a)
  {
    var n := net.nodes[Target(a)];
    match a
    case Gossip(_, tx) => ReceiveTx(n, tx)
    case TakeCanonical(_, time) => StartRound(n, time)
    case Fire(i, k) => FireRound(n, i, k)
    case ProcessMined(_, k) => HandleMined(n, k)
    case DeliverParent(m) => HandlePeer(n, m.parent)
    case DeliverBlock(m) => HandlePeer(n, m.block)
  }

  ghost function NextInFlight(net: Net, a: Action): multiset<Message>
    requires Enabled(net, a)
  {
    match a
    case ProcessMined(i, k) =>
      var n := net.nodes[i];
      var p := FetchBlock(HandleMined(n, k).chain.store, n.mined[k].parentHash);
      if Broadcasts(n, k) && p.Some?
      then net.inFlight + multiset(Recipients(|net.nodes|, i, p.value, n.mined[k]))
      else net.inFlight
    case DeliverParent(m) => net.inFlight - multiset{m} + multiset{Second(m.to, m.block)}
    case DeliverBlock(m) => net.inFlight - multiset{m}
    case _ => net.inFlight
  }

  ghost function Next(net: Net, a: Action): Net
    requires Enabled(net, a)
  {
    Net(net.nodes[Target(a) := NextNode(net, a)], NextInFlight(net, a))
  }

  /** A sequence of actions each of which is possible when its turn comes. */
  ghost predicate Legal(net: Net, run: seq<Action>)
    decreases |run|, 0
  {
    run == [] || (Legal(net, run[..|run| - 1]) && Enabled(Exec(net, run[..|run| - 1]), run[|run| - 1]))
  }

  ghost function Exec(net: Net, run: seq<Action>): Net
    requires Legal(net, run)
    decreases |run|, 1
  {
    if run == [] then net else Next(Exec(net, run[..|run| - 1]), run[|run| - 1])
  }

  // ----- the invariant of one node -----

  ghost predicate Anchored(store: Store, b: Block) {
    WellFormed(b) && HashOf(b) in store && Rooted(store, b)
  }

  /** A block the node mined and has not handled: it builds on an anchored block. */
  ghost predicate Fresh(store: Store, b: Block) {
    WellFormed(b) && b.parentHash in store && Rooted(store, store[b.parentHash])
  }

  ghost predicate NodeInv(n: NodeState) {
    && Inv(n.chain)
    && (n.chain.faulted ==> n.chain.head == GENESIS)
    && (forall c :: c in n.chain.canonical ==> Anchored(n.chain.store, c))
    && (forall r :: r in n.rounds ==> Anchored(n.chain.store, r.canonical))
    && (forall b :: b in n.mined ==> Fresh(n.chain.store, b))
    && CacheCorrect(n.cache)
  }

  lemma AnchoredGrows(small: Store, big: Store)
    requires small.Keys <= big.Keys
    ensures forall b :: Anchored(small, b) ==> Anchored(big, b)
    ensures forall b :: Fresh(small, b) ==> Fresh(big, b)
  {
    forall b | Anchored(small, b)
      ensures Anchored(big, b)
    {
      ReachesMonotone(small, big, b, GENESIS);
    }
    forall b | Fresh(small, b)
      ensures Fresh(big, b)
    {
      assert b.parentHash == HashOf(small[b.parentHash]) == HashOf(big[b.parentHash]);
      ReachesMonotone(small, big, small[b.parentHash], GENESIS);
    }
  }

  /** Handling a block adds that block to the store and nothing else. */
  lemma StepStore(s: ChainState, e: Event)
    requires !s.faulted
    ensures Step(s, e).store == Stored(s, e.block)
  {
    if HashOf(e.block) in s.store {
      assert s.store[HashOf(e.block)] == e.block;
      assert s.store == Stored(s, e.block);
    }
  }

  lemma StepAnchors(s: ChainState, e: Event)
    requires Inv(s) && !s.faulted && Proper(e)
    requires forall c :: c in s.canonical ==> Anchored(s.store, c)
    ensures forall c :: c in Step(s, e).canonical ==> Anchored(Step(s, e).store, c)
  {
    StepSafe(s, e);
    StepStore(s, e);
    AnchoredGrows(s.store, Step(s, e).store);
    HeadWellFormed(Step(s, e));
  }

  lemma PeerKeepsInv(n: NodeState, b: Block)
    requires NodeInv(n) && !n.chain.faulted && WellFormed(b)
    ensures NodeInv(HandlePeer(n, b))
    ensures HandlePeer(n, b).chain.faulted <==> Faults(n.chain, Peer(b))
  {
    StepSafe(n.chain, Peer(b));
    StepStore(n.chain, Peer(b));
    StepAnchors(n.chain, Peer(b));
    AnchoredGrows(n.chain.store, HandlePeer(n, b).chain.store);
  }

  /** A block of the node's own never faults it: its ancestry is all stored. */
  lemma MinedKeepsInv(n: NodeState, k: nat)
    requires NodeInv(n) && !n.chain.faulted && k < |n.mined|
    ensures NodeInv(HandleMined(n, k)) && !HandleMined(n, k).chain.faulted
    ensures Anchored(HandleMined(n, k).chain.store, n.mined[k])
    ensures n.mined[k].parentHash in HandleMined(n, k).chain.store
  {
    var b := n.mined[k];
    assert b in n.mined;
    assert b != GENESIS;
    var e := Mined(b);
    StepSafe(n.chain, e);
    StepStore(n.chain, e);
    StepAnchors(n.chain, e);
    var store := Stored(n.chain, b);
    AnchoredGrows(n.chain.store, store);
    assert Rooted(store, b);
    assert forall c :: c in RemoveAt(n.mined, k) ==> c in n.mined;
  }

  /** A step that concerns only the miner: the chain of `n` is as it was. */
  ghost predicate Quiet(n: NodeState, t: NodeState) {
    && t.chain.store == n.chain.store && t.chain.head == n.chain.head
    && t.chain.issued == n.chain.issued && t.chain.faulted == n.chain.faulted
  }

  lemma ReceiveTxKeepsInv(n: NodeState, tx: Tx)
    requires NodeInv(n)
    ensures NodeInv(ReceiveTx(n, tx)) && Quiet(n, ReceiveTx(n, tx))
  {
  }

  lemma StartRoundKeepsInv(n: NodeState, time: nat)
    requires NodeInv(n) && n.chain.canonical != []
    ensures NodeInv(StartRound(n, time)) && Quiet(n, StartRound(n, time))
  {
    var cb := n.chain.canonical[0];
    assert cb in n.chain.canonical;
    GcDropsExactly(n.chain.store, n.cache, cb, n.mempool, Tx(0, 0));
    var t := StartRound(n, time);
    assert forall c :: c in n.chain.canonical[1..] ==> c in n.chain.canonical;
  }

  lemma FireRoundKeepsInv(n: NodeState, id: nat, k: nat)
    requires NodeInv(n) && k < |n.rounds|
    ensures NodeInv(FireRound(n, id, k)) && Quiet(n, FireRound(n, id, k))
    ensures
      var c := n.rounds[k].canonical;
      var t := FireRound(n, id, k);
      t.mined == n.mined + [NewBlock(Some(c), id, Without(n.mempool, Included(c).Keys), n.rounds[k].time)]
  {
    var r := n.rounds[k];
    assert r in n.rounds;
    MemoRefinesUnion(n.chain.store, n.cache, r.canonical);
    var t := FireRound(n, id, k);
    var b := t.mined[|n.mined|];
    assert n.chain.store[b.parentHash] == r.canonical;
    assert forall x :: x in RemoveAt(n.rounds, k) ==> x in n.rounds;
  }

  // ----- the invariant of the network -----

  /** Some node stores a block with this hash. */
  ghost predicate Known(nodes: seq<NodeState>, h: Hash) {
    exists j :: 0 <= j < |nodes| && h in nodes[j].chain.store
  }

  ghost predicate MessageInv(nodes: seq<NodeState>, m: Message) {
    && m.to < |nodes|
    && WellFormed(m.block) && Known(nodes, HashOf(m.block))
    && (m.Both? ==> WellFormed(m.parent) && Known(nodes, HashOf(m.parent)) && m.block.parentHash == HashOf(m.parent))
  }

  /** The parent of every stored block is stored by some node. */
  ghost predicate Closed(nodes: seq<NodeState>) {
    forall i, h :: 0 <= i < |nodes| && h in nodes[i].chain.store ==>
      nodes[i].chain.store[h] == GENESIS || Known(nodes, nodes[i].chain.store[h].parentHash)
  }

  ghost predicate NodesInv(nodes: seq<NodeState>) {
    forall i :: 0 <= i < |nodes| ==> NodeInv(nodes[i])
  }

  ghost predicate MessagesInv(nodes: seq<NodeState>, inFlight: multiset<Message>) {
    forall m :: m in inFlight ==> MessageInv(nodes, m)
  }

  ghost predicate NetInv(net: Net) {
    NodesInv(net.nodes) && MessagesInv(net.nodes, net.inFlight) && Closed(net.nodes)
  }

  lemma KnownParent(nodes: seq<NodeState>, b: Block)
    requires Closed(nodes) && Known(nodes, HashOf(b)) && b != GENESIS
    ensures Known(nodes, b.parentHash)
  {
    var j :| 0 <= j < |nodes| && HashOf(b) in nodes[j].chain.store;
    assert nodes[j].chain.store[HashOf(b)] == b;
  }

  /** The whole ancestry of a stored block is spread over the stores of the network. */
  lemma {:induction false} UnionHoldsAncestry(net: Net, b: Block, a: Block)
    requires NetInv(net) && Known(net.nodes, HashOf(b)) && OnChain(b, a)
    ensures Known(net.nodes, HashOf(a))
    ensures WellFormed(b) && a.number <= b.number && (a.number == 0 <==> a == GENESIS)
    ensures b != GENESIS ==> b.parentHash == HashOf(Parent(b)) && b.number == Parent(b).number + 1
  {
    var j :| 0 <= j < |net.nodes| && HashOf(b) in net.nodes[j].chain.store;
    assert NodeInv(net.nodes[j]);
    assert net.nodes[j].chain.store[HashOf(b)] == b;
    OnChainHeight(b, a);
    OnChainHeight(a, a);
    if a != b {
      KnownParent(net.nodes, b);
      UnionHoldsAncestry(net, Parent(b), a);
    }
  }

  lemma KnownGrows(nodes: seq<NodeState>, i: nat, n: NodeState)
    requires i < |nodes| && nodes[i].chain.store.Keys <= n.chain.store.Keys
    ensures forall h :: Known(nodes, h) ==> Known(nodes[i := n], h)
    ensures forall h :: h in n.chain.store ==> Known(nodes[i := n], h)
  {
    var t := nodes[i := n];
    assert t[i] == n;
    forall h | Known(nodes, h)
      ensures Known(t, h)
    {
      var j :| 0 <= j < |nodes| && h in nodes[j].chain.store;
      assert h in t[j].chain.store;
    }
  }

  lemma ReplaceClosed(nodes: seq<NodeState>, i: nat, n: NodeState)
    requires Closed(nodes) && i < |nodes|
    requires nodes[i].chain.store.Keys <= n.chain.store.Keys
    requires forall h :: h in n.chain.store && h !in nodes[i].chain.store ==>
               n.chain.store[h] == GENESIS || Known(nodes, n.chain.store[h].parentHash)
    ensures Closed(nodes[i := n])
  {
    var t := nodes[i := n];
    KnownGrows(nodes, i, n);
    forall j, h | 0 <= j < |t| && h in t[j].chain.store
      ensures t[j].chain.store[h] == GENESIS || Known(t, t[j].chain.store[h].parentHash)
    {
      var b := t[j].chain.store[h];
      if h in nodes[j].chain.store {
        assert nodes[j].chain.store[h] == b;
        assert b == GENESIS || Known(nodes, b.parentHash);
      } else {
        assert j == i;
      }
    }
  }

  /** Replacing one node by a successor with a larger store, closed over what was known. */
  lemma ReplaceNode(nodes: seq<NodeState>, i: nat, n: NodeState, inFlight: multiset<Message>)
    requires NodesInv(nodes) && Closed(nodes) && MessagesInv(nodes, inFlight)
    requires i < |nodes| && NodeInv(n) && nodes[i].chain.store.Keys <= n.chain.store.Keys
    requires forall h :: h in n.chain.store && h !in nodes[i].chain.store ==>
               n.chain.store[h] == GENESIS || Known(nodes, n.chain.store[h].parentHash)
    ensures NetInv(Net(nodes[i := n], inFlight))
  {
    ReplaceClosed(nodes, i, n);
    ReplaceMessages(nodes, i, n, inFlight);
    ReplaceNodes(nodes, i, n);
  }

  lemma ReplaceNodes(nodes: seq<NodeState>, i: nat, n: NodeState)
    requires NodesInv(nodes) && i < |nodes| && NodeInv(n)
    ensures NodesInv(nodes[i := n])
  {
  }

  lemma ReplaceMessages(nodes: seq<NodeState>, i: nat, n: NodeState, inFlight: multiset<Message>)
    requires MessagesInv(nodes, inFlight) && i < |nodes| && nodes[i].chain.store.Keys <= n.chain.store.Keys
    ensures MessagesInv(nodes[i := n], inFlight)
  {
    KnownGrows(nodes, i, n);
    forall m | m in inFlight
      ensures MessageInv(nodes[i := n], m)
    {
      assert MessageInv(nodes, m);
    }
  }

  /** A node stores one more block, whose parent is known. */
  lemma StoreKeepsInv(net: Net, i: nat, t: NodeState, b: Block, inFlight: multiset<Message>)
    requires NetInv(net) && MessagesInv(net.nodes, inFlight)
    requires i < |net.nodes| && NodeInv(t) && t.chain.store == Stored(net.nodes[i].chain, b)
    requires b == GENESIS || Known(net.nodes, b.parentHash)
    ensures NetInv(Net(net.nodes[i := t], inFlight))
  {
    ReplaceNode(net.nodes, i, t, inFlight);
  }

  lemma DeliverKeepsInv(net: Net, to: nat, b: Block, inFlight: multiset<Message>)
    requires NetInv(net) && to < |net.nodes| && !net.nodes[to].chain.faulted
    requires WellFormed(b) && Known(net.nodes, HashOf(b))
    requires MessagesInv(net.nodes, inFlight)
    ensures NetInv(Net(net.nodes[to := HandlePeer(net.nodes[to], b)], inFlight))
  {
    var n := net.nodes[to];
    assert NodeInv(n);
    PeerKeepsInv(n, b);
    StepStore(n.chain, Peer(b));
    if b != GENESIS {
      KnownParent(net.nodes, b);
    }
    StoreKeepsInv(net, to, HandlePeer(n, b), b, inFlight);
  }

  lemma SendingKeepsInv(net: Net, i: nat, p: Block, b: Block)
    requires NetInv(net) && WellFormed(b) && WellFormed(p) && b.parentHash == HashOf(p)
    requires Known(net.nodes, HashOf(b)) && Known(net.nodes, HashOf(p))
    ensures NetInv(Net(net.nodes, net.inFlight + multiset(Recipients(|net.nodes|, i, p, b))))
  {
    var sent := Recipients(|net.nodes|, i, p, b);
    forall m | m in net.inFlight + multiset(sent)
      ensures MessageInv(net.nodes, m)
    {
      RecipientsExactly(|net.nodes|, i, p, b, m);
      assert m in net.inFlight || m in sent;
    }
  }

  lemma MinedNode(n: NodeState, k: nat)
    requires NodeInv(n) && !n.chain.faulted && k < |n.mined|
    ensures
      var b, t := n.mined[k], HandleMined(n, k);
      && NodeInv(t) && t.chain.store == Stored(n.chain, b) && WellFormed(b) && b != GENESIS
      && b.parentHash in n.chain.store && FetchBlock(t.chain.store, b.parentHash) == Some(Parent(b))
  {
    MinedKeepsInv(n, k);
    assert n.mined[k] in n.mined;
    assert Fresh(n.chain.store, n.mined[k]);
    StepStore(n.chain, Mined(n.mined[k]));
  }

  /** What is sent when a mined block has been handled: the block and its parent to all others, or nothing. */
  lemma MinedSends(net: Net, i: nat, k: nat)
    requires NetInv(net) && Enabled(net, ProcessMined(i, k))
    ensures net.nodes[i].mined[k].parentHash.Digest?
    ensures
      var b := net.nodes[i].mined[k];
      NextInFlight(net, ProcessMined(i, k)) ==
        if Broadcasts(net.nodes[i], k)
        then net.inFlight + multiset(Recipients(|net.nodes|, i, Parent(b), b))
        else net.inFlight
  {
    assert NodeInv(net.nodes[i]);
    MinedNode(net.nodes[i], k);
  }

  lemma ProcessMinedKeepsInv(net: Net, i: nat, k: nat)
    requires NetInv(net) && Enabled(net, ProcessMined(i, k))
    ensures NetInv(Next(net, ProcessMined(i, k)))
  {
    var n := net.nodes[i];
    assert NodeInv(n);
    MinedNode(n, k);
    MinedSends(net, i, k);
    var b, t := n.mined[k], HandleMined(n, k);
    assert Known(net.nodes, b.parentHash);
    StoreKeepsInv(net, i, t, b, net.inFlight);
    KnownGrows(net.nodes, i, t);
    SendingKeepsInv(Net(net.nodes[i := t], net.inFlight), i, Parent(b), b);
  }

  lemma QuietKeepsInv(net: Net, i: nat, n: NodeState)
    requires NetInv(net) && i < |net.nodes| && NodeInv(n) && Quiet(net.nodes[i], n)
    ensures NetInv(Net(net.nodes[i := n], net.inFlight))
  {
    ReplaceNode(net.nodes, i, n, net.inFlight);
  }

  lemma DeliverParentKeepsInv(net: Net, m: Message)
    requires NetInv(net) && Enabled(net, DeliverParent(m))
    ensures NetInv(Next(net, DeliverParent(m)))
  {
    assert MessageInv(net.nodes, m) && MessageInv(net.nodes, Second(m.to, m.block));
    DeliverKeepsInv(net, m.to, m.parent, NextInFlight(net, DeliverParent(m)));
  }

  lemma DeliverBlockKeepsInv(net: Net, m: Message)
    requires NetInv(net) && Enabled(net, DeliverBlock(m))
    ensures NetInv(Next(net, DeliverBlock(m)))
  {
    assert MessageInv(net.nodes, m);
    DeliverKeepsInv(net, m.to, m.block, NextInFlight(net, DeliverBlock(m)));
  }

  /** The steps of the miner. */
  predicate IsLocal(a: Action) {
    a.Gossip? || a.TakeCanonical? || a.Fire?
  }

  lemma LocalIsQuiet(net: Net, a: Action)
    requires NetInv(net) && Enabled(net, a) && IsLocal(a)
    ensures NodeInv(NextNode(net, a)) && Quiet(net.nodes[a.i], NextNode(net, a))
  {
    var n := net.nodes[a.i];
    assert NodeInv(n);
    match a
    case Gossip(_, tx) => ReceiveTxKeepsInv(n, tx);
    case TakeCanonical(_, time) => StartRoundKeepsInv(n, time);
    case Fire(i, k) => FireRoundKeepsInv(n, i, k);
  }

  /** Every step of the network keeps the invariant. */
  lemma NextKeepsInv(net: Net, a: Action)
    requires NetInv(net) && Enabled(net, a)
    ensures NetInv(Next(net, a))
  {
    match a
    case DeliverParent(m) => DeliverParentKeepsInv(net, m);
    case DeliverBlock(m) => DeliverBlockKeepsInv(net, m);
    case ProcessMined(i, k) => ProcessMinedKeepsInv(net, i, k);
    case _ =>
      LocalIsQuiet(net, a);
      QuietKeepsInv(net, a.i, NextNode(net, a));
  }

  /** The block a step hands to a node: from a peer, from its own miner, or none. */
  ghost function Handed(net: Net, a: Action): Option<Event>
    requires Enabled(net, a)
  {
    match a
    case DeliverParent(m) => Some(Peer(m.parent))
    case DeliverBlock(m) => Some(Peer(m.block))
    case ProcessMined(i, k) => Some(Mined(net.nodes[i].mined[k]))
    case _ => None
  }

  /** A step that hands over a block makes one step of the fork choice. */
  lemma HandedSteps(net: Net, a: Action)
    requires NetInv(net) && Enabled(net, a) && Handed(net, a).Some?
    ensures
      var e := Handed(net, a).value;
      Proper(e) && NextNode(net, a).chain == Step(net.nodes[Target(a)].chain, e)
  {
    var n := net.nodes[Target(a)];
    assert NodeInv(n);
    match a
    case DeliverParent(m) => assert MessageInv(net.nodes, m);
    case DeliverBlock(m) => assert MessageInv(net.nodes, m);
    case ProcessMined(_, k) =>
      assert n.mined[k] in n.mined;
      assert n.mined[k] != GENESIS;
    case _ =>
  }

  lemma TargetFaults(net: Net, a: Action)
    requires NetInv(net) && Enabled(net, a)
    ensures NextNode(net, a).chain.faulted <==>
            Handed(net, a).Some? && Handed(net, a).value.Peer? &&
            Faults(net.nodes[Target(a)].chain, Handed(net, a).value)
  {
    var n := net.nodes[Target(a)];
    assert NodeInv(n);
    if a.ProcessMined? {
      MinedKeepsInv(n, a.k);
    } else if Handed(net, a).Some? {
      HandedSteps(net, a);
      StepSafe(n.chain, Handed(net, a).value);
    } else {
      LocalIsQuiet(net, a);
    }
  }

  /**
   A node faults in a step exactly when it is handed a peer's block while its head is genesis,
   the block's parent is stored and its ancestry is broken. Mining, garbage collection and the
   memoised lookup never fault, and no other node is touched.
   */
  lemma FaultsExactly(net: Net, a: Action, i: nat)
    requires NetInv(net) && Enabled(net, a) && i < |net.nodes| && !net.nodes[i].chain.faulted
    ensures Next(net, a).nodes[i].chain.faulted <==>
            i == Target(a) && Handed(net, a).Some? && Handed(net, a).value.Peer? &&
            Faults(net.nodes[i].chain, Handed(net, a).value)
  {
    TargetFaults(net, a);
  }

  /** A node's head only moves up, its store only grows, and above genesis it does not fault. */
  ghost predicate Advances(s: ChainState, t: ChainState) {
    && (t.head == s.head || t.head.number > s.head.number)
    && s.store.Keys <= t.store.Keys
    && (s.head != GENESIS && !s.faulted ==> t.head != GENESIS && !t.faulted)
  }

  lemma StepAdvances(s: ChainState, e: Event)
    requires Inv(s) && !s.faulted && Proper(e)
    ensures Advances(s, Step(s, e))
  {
    StepSafe(s, e);
    HeadWellFormed(s);
    HeadWellFormed(Step(s, e));
  }

  lemma NextAdvances(net: Net, a: Action, i: nat)
    requires NetInv(net) && Enabled(net, a) && i < |net.nodes|
    ensures Advances(net.nodes[i].chain, Next(net, a).nodes[i].chain)
  {
    if i == Target(a) {
      assert NodeInv(net.nodes[i]);
      if Handed(net, a).Some? {
        HandedSteps(net, a);
        StepAdvances(net.nodes[i].chain, Handed(net, a).value);
      } else {
        LocalIsQuiet(net, a);
      }
    }
  }

  /** Every run of the network: the invariant holds throughout, heads only rise, and a node above genesis never faults. */
  lemma {:induction false} NetworkSafe(net: Net, run: seq<Action>)
    requires NetInv(net) && Legal(net, run)
    ensures NetInv(Exec(net, run))
    ensures |Exec(net, run).nodes| == |net.nodes|
    ensures forall i :: 0 <= i < |net.nodes| ==> Advances(net.nodes[i].chain, Exec(net, run).nodes[i].chain)
    decreases |run|
  {
    if run != [] {
      var init, last := run[..|run| - 1], run[|run| - 1];
      NetworkSafe(net, init);
      var before := Exec(net, init);
      NextKeepsInv(before, last);
      forall i | 0 <= i < |net.nodes|
        ensures Advances(net.nodes[i].chain, Next(before, last).nodes[i].chain)
      {
        NextAdvances(before, last, i);
      }
    }
  }

  lemma InitNetSafe(n: nat)
    ensures NetInv(InitNet(n))
  {
    forall i | 0 <= i < n
      ensures NodeInv(InitNet(n).nodes[i])
    {
      assert InitNet(n).nodes[i] == INIT_NODE;
    }
  }
}
