/**
 What each step of a node does to all of its state, told without the functions of NodeSteps: what
 changes, to what, and that nothing else does.
 */
module NodeEffects {
  import opened Wrappers
  import opened Blocks
  import opened TxIndex
  import opened ForkChoice
  import opened NodeSteps
  import opened Network

  /** Whatever waits at a running node may come next: nothing has to keep its turn. */
  lemma AnyOrder(net: Net, i: nat)
    requires i < |net.nodes| && !net.nodes[i].chain.faulted
    ensures forall tx :: Enabled(net, Gossip(i, tx))
    ensures forall k: nat :: k < |net.nodes[i].rounds| ==> Enabled(net, Fire(i, k))
    ensures forall k: nat :: k < |net.nodes[i].mined| ==> Enabled(net, ProcessMined(i, k))
    ensures forall m :: m in net.inFlight && m.to == i ==> Enabled(net, if m.Both? then DeliverParent(m) else DeliverBlock(m))
  {
  }

  /** A gossiped transaction goes to the end of the mempool of its node, and that is all. */
  lemma GossipExactly(net: Net, i: nat, tx: Tx)
    requires Enabled(net, Gossip(i, tx))
    ensures
      var n, t := net.nodes[i], Next(net, Gossip(i, tx)).nodes[i];
      && |t.mempool| == |n.mempool| + 1 && t.mempool[|n.mempool|] == tx
      && (forall k :: 0 <= k < |n.mempool| ==> t.mempool[k] == n.mempool[k])
      && t == n.(mempool := t.mempool)
  {
  }

  /** No step touches a node it is not for. */
  lemma OthersUntouched(net: Net, a: Action, j: nat)
    requires Enabled(net, a) && j < |net.nodes| && j != Target(a)
    ensures |Next(net, a).nodes| == |net.nodes| && Next(net, a).nodes[j] == net.nodes[j]
  {
  }

  /**
   The miner takes the oldest pending canonical block and leaves the others; the new round is the
   last, on that block; the mempool is collected for that block; nothing else changes.
   */
  lemma TakenExactly(n: NodeState, time: nat)
    requires NodeInv(n) && n.chain.canonical != []
    ensures
      var cb, t := n.chain.canonical[0], StartRound(n, time);
      && n.chain.canonical == [cb] + t.chain.canonical
      && |t.rounds| == |n.rounds| + 1 && t.rounds[|n.rounds|] == Round(cb, time)
      && (forall k :: 0 <= k < |n.rounds| ==> t.rounds[k] == n.rounds[k])
      && t == n.(chain := n.chain.(canonical := t.chain.canonical), mempool := t.mempool, rounds := t.rounds)
      && (cb.number <= 15 ==> t.mempool == n.mempool)
      && (cb.number > 15 ==> forall d :: IsDeep(cb, d) ==>
            t.mempool == if HashOf(d) in n.cache then Without(n.mempool, Included(d).Keys) else n.mempool)
  {
    var cb := n.chain.canonical[0];
    assert cb in n.chain.canonical;
    GcDropsExactly(n.chain.store, n.cache, cb, n.mempool, Tx(0, 0));
    GcKeepsOrder(n.chain.store, n.cache, cb, n.mempool);
  }

  /** In any state, taking a canonical block faults exactly when the block fifteen below it cannot be reached, and changes nothing then. */
  lemma TakingFaults(n: NodeState, time: nat)
    requires n.chain.canonical != [] && !n.chain.faulted && WellFormed(n.chain.canonical[0])
    ensures
      var cb, t := n.chain.canonical[0], StartRound(n, time);
      && (t.chain.faulted <==> cb.number > 15 && forall d :: Reaches(n.chain.store, cb, d) ==> d.number + 15 != cb.number)
      && (t.chain.faulted ==> t == n.(chain := n.chain.(faulted := true)))
  {
    GcExitsExactly(n.chain.store, n.cache, n.chain.canonical[0], n.mempool);
  }

  /** In any state, a round faults exactly when the lookup gets to a missing parent first, and changes nothing then. */
  lemma FiringFaults(n: NodeState, id: nat, k: nat)
    requires k < |n.rounds| && !n.chain.faulted && WellFormed(n.rounds[k].canonical)
    ensures
      var c, t := n.rounds[k].canonical, FireRound(n, id, k);
      && (t.chain.faulted <==> forall a :: Reaches(n.chain.store, c, a) ==> HashOf(a) !in n.cache && a != GENESIS)
      && (t.chain.faulted ==> t == n.(chain := n.chain.(faulted := true)))
  {
    LookupPanicsExactly(n.chain.store, n.cache, n.rounds[k].canonical);
  }

  /** What a round on `c` mines: a child of `c` with all that waits and is not on the chain of `c`. */
  ghost predicate MinedFrom(b: Block, c: Block, mempool: seq<Tx>) {
    && b.parentHash == HashOf(c) && b.number == c.number + 1
    && (forall tx :: tx in b.txs <==> tx in mempool && !Has(ChainTxs(c), tx.hash))
    && b.txs == Without(mempool, Included(c).Keys)
  }

  lemma MinedHolds(b: Block, c: Block, mempool: seq<Tx>)
    requires b.parentHash == HashOf(c) && b.number == c.number + 1 && b.txs == Without(mempool, Included(c).Keys)
    ensures MinedFrom(b, c, mempool)
  {
    forall tx
      ensures tx in b.txs <==> tx in mempool && !Has(ChainTxs(c), tx.hash)
    {
      WithoutMembers(mempool, Included(c).Keys, tx);
      IncludedExactly(c, tx.hash);
    }
  }

  /** The cache entry of a block above genesis is there after a lookup, and no entry goes or changes. */
  lemma CacheFilled(store: Store, cache: Cache, c: Block)
    requires CacheCorrect(cache) && WellFormed(c) && Rooted(store, c)
    ensures
      var filled := Filled(store, cache, c);
      && (c == GENESIS || (HashOf(c) in filled && filled[HashOf(c)] == Included(c)))
      && forall h :: h in cache ==> h in filled && filled[h] == cache[h]
  {
    MemoRefinesUnion(store, cache, c);
    OnChainHeight(c, c);
    forall h | h in cache
      ensures h in Filled(store, cache, c) && Filled(store, cache, c)[h] == cache[h]
    {
      FilledExactly(store, cache, c, h.preimage);
    }
  }

  /**
   A round that fires is gone and the others stay; its block is the last on the mining channel; its
   canonical block has a cache entry, unless it is genesis; nothing else changes.
   */
  lemma FiredExactly(n: NodeState, id: nat, k: nat)
    requires NodeInv(n) && k < |n.rounds|
    ensures
      var r, t := n.rounds[k], FireRound(n, id, k);
      && t == n.(cache := t.cache, rounds := t.rounds, mined := t.mined)
      && multiset(n.rounds) == multiset(t.rounds) + multiset{r}
      && |t.mined| == |n.mined| + 1 && t.mined[..|n.mined|] == n.mined
      && MinedFrom(t.mined[|n.mined|], r.canonical, n.mempool)
      && t.mined[|n.mined|].miner == id && t.mined[|n.mined|].time == r.time
      && (r.canonical == GENESIS || (HashOf(r.canonical) in t.cache && t.cache[HashOf(r.canonical)] == Included(r.canonical)))
      && (forall h :: h in n.cache ==> h in t.cache && t.cache[h] == n.cache[h])
  {
    var r := n.rounds[k];
    assert r in n.rounds;
    FireRoundKeepsInv(n, id, k);
    CacheFilled(n.chain.store, n.cache, r.canonical);
    MemoRefinesUnion(n.chain.store, n.cache, r.canonical);
    MinedHolds(FireRound(n, id, k).mined[|n.mined|], r.canonical, n.mempool);
    RemovedOne(n.rounds, k);
  }

  lemma RemovedOne<T>(s: seq<T>, k: nat)
    requires k < |s|
    ensures multiset(s) == multiset(RemoveAt(s, k)) + multiset{s[k]}
  {
    assert s == s[..k] + [s[k]] + s[k + 1..];
  }

  /** A mined block is sent to the others exactly when it is higher than the head, or is the head already. */
  lemma BroadcastsExactly(n: NodeState, k: nat)
    requires NodeInv(n) && !n.chain.faulted && k < |n.mined|
    ensures Broadcasts(n, k) <==> n.mined[k].number > n.chain.head.number || n.mined[k] == n.chain.head
    ensures
      var t := HandleMined(n, k);
      t == n.(chain := t.chain, mined := t.mined) && multiset(n.mined) == multiset(t.mined) + multiset{n.mined[k]}
  {
    var b := n.mined[k];
    assert b in n.mined;
    MinedKeepsInv(n, k);
    StepStore(n.chain, Mined(b));
    StepExactly(n.chain, Mined(b));
    RemovedOne(n.mined, k);
  }

  /** A delivery is one event of the fork choice, of the parent and then of the block, and leaves the miner alone. */
  lemma DeliveredExactly(net: Net, m: Message)
    requires Enabled(net, DeliverParent(m)) || Enabled(net, DeliverBlock(m))
    ensures
      var n := net.nodes[m.to];
      if m.Both? then NextNode(net, DeliverParent(m)) == n.(chain := Step(n.chain, Peer(m.parent)))
      else NextNode(net, DeliverBlock(m)) == n.(chain := Step(n.chain, Peer(m.block)))
  {
  }
}
