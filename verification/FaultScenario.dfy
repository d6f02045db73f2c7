/**
 The fault of FaultsExactly can happen in the protocol itself: a node that is still at genesis
 receives the third block and its parent before the first one.
 */
module FaultScenario {
  import opened Wrappers
  import opened Blocks
  import opened TxIndex
  import opened ForkChoice
  import opened NodeSteps
  import opened Network

  /** A node that has mined up to `top`, has nothing else under way and no transactions. */
  ghost predicate Idle(n: NodeState, top: Block) {
    && NodeInv(n) && !n.chain.faulted
    && n.chain.head == top && n.chain.canonical == [top]
    && n.rounds == [] && n.mined == [] && n.mempool == []
  }

  /** Node 0 is idle on `top` and node 1 has heard of nothing. */
  ghost predicate Ready(net: Net, top: Block) {
    |net.nodes| == 2 && Idle(net.nodes[0], top) && net.nodes[1] == INIT_NODE
  }

  ghost function Child(top: Block): Block {
    NewBlock(Some(top), 0, [], 0)
  }

  /** `run` and then one more action. */
  lemma OneMore(net: Net, run: seq<Action>, a: Action)
    requires Legal(net, run) && Enabled(Exec(net, run), a)
    ensures Legal(net, run + [a]) && Exec(net, run + [a]) == Next(Exec(net, run), a)
  {
    assert (run + [a])[..|run + [a]| - 1] == run;
  }

  /** A node whose round on `top` has fired. */
  ghost predicate HasMined(n: NodeState, top: Block) {
    && NodeInv(n) && !n.chain.faulted
    && n.chain.head == top && n.chain.canonical == []
    && n.rounds == [] && n.mined == [Child(top)] && n.mempool == []
  }

  lemma Taken(n: NodeState, top: Block)
    requires Idle(n, top)
    ensures StartRound(n, 0) == n.(chain := n.chain.(canonical := []), rounds := [Round(top, 0)])
    ensures NodeInv(StartRound(n, 0))
  {
    StartRoundKeepsInv(n, 0);
    if top.number > HEIGHT_COMMITTED_BLOCKS {
      assert Without([], CachedKeys(n.cache, Down(n.chain.store, top, HEIGHT_COMMITTED_BLOCKS).value)) == [];
    }
  }

  lemma Fired(n: NodeState, top: Block)
    requires NodeInv(n) && !n.chain.faulted && n.chain.head == top && n.chain.canonical == []
    requires n.rounds == [Round(top, 0)] && n.mined == [] && n.mempool == []
    ensures
      var t := FireRound(n, 0, 0);
      t == n.(cache := t.cache, rounds := [], mined := [Child(top)]) && NodeInv(t)
  {
    FireRoundKeepsInv(n, 0, 0);
  }

  lemma Handled(n: NodeState, top: Block)
    requires HasMined(n, top)
    ensures Idle(HandleMined(n, 0), Child(top)) && Broadcasts(n, 0)
    ensures FetchBlock(HandleMined(n, 0).chain.store, HashOf(top)) == Some(top)
  {
    var b := Child(top);
    HeadWellFormed(n.chain);
    MinedKeepsInv(n, 0);
    StepStore(n.chain, Mined(b));
    assert Accept(n.chain, b).head == b && Accept(n.chain, b).canonical == [b];
  }

  lemma TakeAndFire(net: Net, top: Block)
    requires Ready(net, top)
    ensures Enabled(net, TakeCanonical(0, 0)) && Enabled(Next(net, TakeCanonical(0, 0)), Fire(0, 0))
    ensures
      var next := Next(Next(net, TakeCanonical(0, 0)), Fire(0, 0));
      && |next.nodes| == 2 && next.nodes[1] == INIT_NODE && next.inFlight == net.inFlight
      && HasMined(next.nodes[0], top)
  {
    Taken(net.nodes[0], top);
    Fired(StartRound(net.nodes[0], 0), top);
  }

  /** One round of node 0 extends its chain by one block and sends it, with its parent, to node 1. */
  lemma MineOne(net: Net, run: seq<Action>, top: Block) returns (longer: seq<Action>)
    requires Legal(net, run) && Ready(Exec(net, run), top)
    ensures Legal(net, longer) && Ready(Exec(net, longer), Child(top))
    ensures Exec(net, longer).inFlight == Exec(net, run).inFlight + multiset{Both(1, top, Child(top))}
  {
    var net0 := Exec(net, run);
    TakeAndFire(net0, top);
    OneMore(net, run, TakeCanonical(0, 0));
    longer := run + [TakeCanonical(0, 0)];
    OneMore(net, longer, Fire(0, 0));
    longer := longer + [Fire(0, 0)];
    MinedAndSent(Exec(net, longer), top);
    OneMore(net, longer, ProcessMined(0, 0));
    longer := longer + [ProcessMined(0, 0)];
  }

  lemma MinedAndSent(net: Net, top: Block)
    requires |net.nodes| == 2 && net.nodes[1] == INIT_NODE
    requires HasMined(net.nodes[0], top)
    ensures Enabled(net, ProcessMined(0, 0)) && Ready(Next(net, ProcessMined(0, 0)), Child(top))
    ensures Next(net, ProcessMined(0, 0)).inFlight == net.inFlight + multiset{Both(1, top, Child(top))}
  {
    Handled(net.nodes[0], top);
    RecipientsOfTwo(top, Child(top));
  }

  lemma RecipientsOfTwo(p: Block, b: Block)
    ensures Recipients(2, 0, p, b) == [Both(1, p, b)]
  {
    assert Recipients(1, 0, p, b) == [];
  }

  /** Two honest nodes, three blocks, one overtaking delivery: node 1 panics. */
  lemma NetworkFaultReachable() returns (run: seq<Action>)
    ensures Legal(InitNet(2), run)
    ensures |Exec(InitNet(2), run).nodes| == 2 && Exec(InitNet(2), run).nodes[1].chain.faulted
  {
    var net := InitNet(2);
    InitNetSafe(2);
    var b1, b2, b3 := Child(GENESIS), Child(Child(GENESIS)), Child(Child(Child(GENESIS)));
    assert NodeInv(net.nodes[0]);
    run := MineOne(net, [], GENESIS);
    run := MineOne(net, run, b1);
    run := MineOne(net, run, b2);
    Overtaken(Exec(net, run), b1, b2, b3);
    OneMore(net, run, DeliverParent(Both(1, b2, b3)));
    run := run + [DeliverParent(Both(1, b2, b3))];
    OneMore(net, run, DeliverBlock(Second(1, b3)));
    run := run + [DeliverBlock(Second(1, b3))];
  }

  lemma Overtaken(net: Net, b1: Block, b2: Block, b3: Block)
    requires b1 == Child(GENESIS) && b2 == Child(b1) && b3 == Child(b2)
    requires |net.nodes| == 2 && net.nodes[1] == INIT_NODE && Both(1, b2, b3) in net.inFlight
    ensures Enabled(net, DeliverParent(Both(1, b2, b3)))
    ensures
      var next := Next(net, DeliverParent(Both(1, b2, b3)));
      && Enabled(next, DeliverBlock(Second(1, b3)))
      && Next(next, DeliverBlock(Second(1, b3))).nodes[1].chain.faulted
  {
    var next := Next(net, DeliverParent(Both(1, b2, b3)));
    var s := next.nodes[1].chain;
    assert s.store == map[HashOf(GENESIS) := GENESIS, HashOf(b2) := b2] && !s.faulted && s.head == GENESIS;
    var store := Stored(s, b3);
    assert store[b3.parentHash] == b2 && b2.parentHash !in store;
    assert !Reaches(store, b2, GENESIS);
    assert !Rooted(store, b3);
  }
}
