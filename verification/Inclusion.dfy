/**
 No transaction is included twice: in every run of the network, whichever rounds fire late on
 superseded heads, a chain carries each transaction hash at most once.
 */
module Inclusion {
  import opened Blocks
  import opened TxIndex
  import opened ForkChoice
  import opened NodeSteps
  import opened Network
  import opened NodeEffects

  ghost predicate CleanNode(n: NodeState) {
    && Distinct(n.mempool)
    && (forall h :: h in n.chain.store ==> Distinct(ChainTxs(n.chain.store[h])))
    && (forall b :: b in n.mined ==> Distinct(ChainTxs(b)))
  }

  ghost predicate Clean(net: Net) {
    forall i :: 0 <= i < |net.nodes| ==> CleanNode(net.nodes[i])
  }

  /** A gossiped transaction is not already waiting in the mempool it reaches. */
  ghost predicate FreshGossip(net: Net, a: Action) {
    a.Gossip? && a.i < |net.nodes| ==> !Has(net.nodes[a.i].mempool, a.tx.hash)
  }

  ghost predicate FreshRun(net: Net, run: seq<Action>)
    requires Legal(net, run)
    decreases |run|
  {
    run == [] ||
    (FreshRun(net, run[..|run| - 1]) && FreshGossip(Exec(net, run[..|run| - 1]), run[|run| - 1]))
  }

  lemma KnownIsDistinct(net: Net, b: Block)
    requires Clean(net) && Known(net.nodes, HashOf(b))
    ensures Distinct(ChainTxs(b))
  {
    var j :| 0 <= j < |net.nodes| && HashOf(b) in net.nodes[j].chain.store;
    assert CleanNode(net.nodes[j]);
    assert net.nodes[j].chain.store[HashOf(b)] == b;
  }

  lemma StepKeepsClean(s: ChainState, e: Event)
    requires !s.faulted && Distinct(ChainTxs(e.block))
    requires forall h :: h in s.store ==> Distinct(ChainTxs(s.store[h]))
    ensures forall h :: h in Step(s, e).store ==> Distinct(ChainTxs(Step(s, e).store[h]))
  {
    StepStore(s, e);
  }

  lemma DeliveryClean(net: Net, n: NodeState, b: Block)
    requires Clean(net) && CleanNode(n) && !n.chain.faulted && Known(net.nodes, HashOf(b))
    ensures CleanNode(HandlePeer(n, b))
  {
    KnownIsDistinct(net, b);
    StepKeepsClean(n.chain, Peer(b));
  }

  lemma ProcessingClean(n: NodeState, k: nat)
    requires CleanNode(n) && !n.chain.faulted && k < |n.mined|
    ensures CleanNode(HandleMined(n, k))
  {
    assert n.mined[k] in n.mined;
    StepKeepsClean(n.chain, Mined(n.mined[k]));
    assert forall b :: b in RemoveAt(n.mined, k) ==> b in n.mined;
  }

  lemma FiringClean(n: NodeState, id: nat, k: nat)
    requires NodeInv(n) && CleanNode(n) && k < |n.rounds|
    ensures CleanNode(FireRound(n, id, k))
  {
    var r := n.rounds[k];
    assert r in n.rounds;
    FireRoundKeepsInv(n, id, k);
    assert n.chain.store[HashOf(r.canonical)] == r.canonical;
    MinedBlockRepeatsNothing(r.canonical, id, n.mempool, r.time);
  }

  lemma CollectingClean(n: NodeState, time: nat)
    requires NodeInv(n) && CleanNode(n) && n.chain.canonical != []
    ensures CleanNode(StartRound(n, time))
  {
    var cb := n.chain.canonical[0];
    assert cb in n.chain.canonical;
    GcDropsExactly(n.chain.store, n.cache, cb, n.mempool, Tx(0, 0));
    if cb.number > HEIGHT_COMMITTED_BLOCKS {
      WithoutDistinctExactly(n.mempool, CachedKeys(n.cache, Down(n.chain.store, cb, HEIGHT_COMMITTED_BLOCKS).value));
    }
  }

  lemma ReceivingClean(n: NodeState, tx: Tx)
    requires CleanNode(n) && !Has(n.mempool, tx.hash)
    ensures CleanNode(ReceiveTx(n, tx))
  {
    DistinctConcat(n.mempool, [tx]);
    assert forall h :: Has([tx], h) ==> h == tx.hash;
  }

  lemma NextNodeClean(net: Net, a: Action)
    requires NetInv(net) && Clean(net) && Enabled(net, a) && FreshGossip(net, a)
    ensures CleanNode(NextNode(net, a))
  {
    var n := net.nodes[Target(a)];
    assert NodeInv(n) && CleanNode(n);
    match a
    case Gossip(_, tx) => ReceivingClean(n, tx);
    case TakeCanonical(_, time) => CollectingClean(n, time);
    case Fire(i, k) => FiringClean(n, i, k);
    case ProcessMined(_, k) => ProcessingClean(n, k);
    case DeliverParent(m) =>
      assert MessageInv(net.nodes, m);
      DeliveryClean(net, n, m.parent);
    case DeliverBlock(m) =>
      assert MessageInv(net.nodes, m);
      DeliveryClean(net, n, m.block);
  }

  lemma NextKeepsClean(net: Net, a: Action)
    requires NetInv(net) && Clean(net) && Enabled(net, a) && FreshGossip(net, a)
    ensures Clean(Next(net, a))
  {
    NextNodeClean(net, a);
  }

  lemma {:induction false} RunKeepsClean(net: Net, run: seq<Action>)
    requires NetInv(net) && Clean(net) && Legal(net, run) && FreshRun(net, run)
    ensures Clean(Exec(net, run))
    decreases |run|
  {
    if run != [] {
      var init := run[..|run| - 1];
      RunKeepsClean(net, init);
      NetworkSafe(net, init);
      NextKeepsClean(Exec(net, init), run[|run| - 1]);
    }
  }

  /** From the start, every chain any node has ever stored carries each transaction at most once. */
  lemma NoDoubleInclusion(n: nat, run: seq<Action>)
    requires Legal(InitNet(n), run) && FreshRun(InitNet(n), run)
    ensures
      var net := Exec(InitNet(n), run);
      forall i, h :: 0 <= i < |net.nodes| && h in net.nodes[i].chain.store ==>
        Distinct(ChainTxs(net.nodes[i].chain.store[h])) && ChainDistinct(net.nodes[i].chain.store[h])
  {
    InitNetSafe(n);
    RunKeepsClean(InitNet(n), run);
    NetworkSafe(InitNet(n), run);
    var net := Exec(InitNet(n), run);
    forall i, h | 0 <= i < |net.nodes| && h in net.nodes[i].chain.store
      ensures Distinct(ChainTxs(net.nodes[i].chain.store[h])) && ChainDistinct(net.nodes[i].chain.store[h])
    {
      assert CleanNode(net.nodes[i]) && NodeInv(net.nodes[i]);
      ChainTxsDistinct(net.nodes[i].chain.store[h]);
    }
  }

  // ----- nothing is lost either -----

  /** The transaction is on a chain the node holds, deep enough to be considered committed. */
  ghost predicate Committed(store: Store, t: Tx) {
    exists c, a :: Anchored(store, c) && CommittedBy(c, a, t)
  }

  ghost predicate CommittedBy(c: Block, a: Block, t: Tx) {
    OnChain(c, a) && a.number + HEIGHT_COMMITTED_BLOCKS <= c.number && Has(a.txs, t.hash)
  }

  lemma CommittedStays(small: Store, big: Store, t: Tx)
    requires small.Keys <= big.Keys && Committed(small, t)
    ensures Committed(big, t)
  {
    var c, a :| Anchored(small, c) && CommittedBy(c, a, t);
    AnchoredGrows(small, big);
    assert Anchored(big, c);
  }

  lemma CollectingLosesNothing(n: NodeState, time: nat, t: Tx)
    requires NodeInv(n) && n.chain.canonical != [] && t in n.mempool
    ensures t in StartRound(n, time).mempool || Committed(n.chain.store, t)
  {
    var cb := n.chain.canonical[0];
    assert cb in n.chain.canonical;
    GcDropsExactly(n.chain.store, n.cache, cb, n.mempool, t);
    if t !in StartRound(n, time).mempool {
      GcDropsOnlyDeep(n.chain.store, n.cache, cb, n.mempool, t);
      var a :| OnChain(cb, a) && a.number + HEIGHT_COMMITTED_BLOCKS <= cb.number && Has(a.txs, t.hash);
      assert CommittedBy(cb, a, t);
    }
  }

  lemma OthersKeepMempool(net: Net, act: Action, t: Tx)
    requires Enabled(net, act) && !act.TakeCanonical? && t in net.nodes[Target(act)].mempool
    ensures t in NextNode(net, act).mempool
  {
  }

  lemma NextLosesNothing(net: Net, act: Action, i: nat, t: Tx)
    requires NetInv(net) && Enabled(net, act) && i < |net.nodes| && t in net.nodes[i].mempool
    ensures
      var n := Next(net, act).nodes[i];
      t in n.mempool || Committed(n.chain.store, t)
  {
    if i == Target(act) {
      if act.TakeCanonical? {
        assert NodeInv(net.nodes[i]);
        LocalIsQuiet(net, act);
        CollectingLosesNothing(net.nodes[i], act.time, t);
      } else {
        OthersKeepMempool(net, act, t);
      }
    }
  }

  /** The transaction waits in the node's mempool, or is committed on a chain the node holds. */
  ghost predicate Held(n: NodeState, t: Tx) {
    t in n.mempool || Committed(n.chain.store, t)
  }

  lemma NextKeepsHeld(net: Net, act: Action, i: nat, t: Tx)
    requires NetInv(net) && Enabled(net, act) && i < |net.nodes| && Held(net.nodes[i], t)
    ensures Held(Next(net, act).nodes[i], t)
  {
    if t in net.nodes[i].mempool {
      NextLosesNothing(net, act, i, t);
    } else {
      NextAdvances(net, act, i);
      CommittedStays(net.nodes[i].chain.store, Next(net, act).nodes[i].chain.store, t);
    }
  }

  lemma HeldAfterLast(net: Net, run: seq<Action>, i: nat, t: Tx)
    requires NetInv(net) && Legal(net, run) && run != []
    requires i < |Exec(net, run[..|run| - 1]).nodes| && Held(Exec(net, run[..|run| - 1]).nodes[i], t)
    ensures i < |Exec(net, run).nodes| && Held(Exec(net, run).nodes[i], t)
  {
    var init := run[..|run| - 1];
    NetworkSafe(net, init);
    NextKeepsHeld(Exec(net, init), run[|run| - 1], i, t);
  }

  /** Every run: what a node holds, it goes on holding. */
  lemma {:induction false} HeldThroughout(net: Net, run: seq<Action>, i: nat, t: Tx)
    requires NetInv(net) && Legal(net, run) && i < |net.nodes| && Held(net.nodes[i], t)
    ensures i < |Exec(net, run).nodes| && Held(Exec(net, run).nodes[i], t)
    decreases |run|
  {
    if run != [] {
      HeldThroughout(net, run[..|run| - 1], i, t);
      HeldAfterLast(net, run, i, t);
    }
  }

  /**
   Every run: a transaction gossiped to a node at any step is, at the end, still in its mempool,
   or is fifteen deep on a chain the node holds.
   */
  lemma {:induction false} NothingLost(net: Net, run: seq<Action>, k: nat, i: nat, t: Tx)
    requires NetInv(net) && Legal(net, run) && k < |run| && run[k] == Gossip(i, t)
    ensures i < |Exec(net, run).nodes| && Held(Exec(net, run).nodes[i], t)
    decreases |run|
  {
    if k == |run| - 1 {
      GossipIsHeld(Exec(net, run[..k]), i, t);
    } else {
      NothingLost(net, run[..|run| - 1], k, i, t);
      HeldAfterLast(net, run, i, t);
    }
  }

  lemma GossipIsHeld(net: Net, i: nat, t: Tx)
    requires Enabled(net, Gossip(i, t))
    ensures i < |net.nodes| && Held(Next(net, Gossip(i, t)).nodes[i], t)
  {
    GossipExactly(net, i, t);
    assert t in Next(net, Gossip(i, t)).nodes[i].mempool;
  }
}
