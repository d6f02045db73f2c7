/**
 Runs in which every delivered block finds its parent stored: all nodes follow a longest chain
 and tell their subscribers about all of it.
 */
module OrderedDelivery {
  import opened Blocks
  import opened ForkChoice
  import opened NodeSteps
  import opened Network

  ghost predicate InOrder(net: Net, a: Action)
    requires Enabled(net, a)
  {
    Handed(net, a).Some? && Handed(net, a).value.Peer? ==> ParentFirst(net.nodes[Target(a)].chain, Handed(net, a).value)
  }

  ghost predicate OrderedRun(net: Net, run: seq<Action>)
    requires Legal(net, run)
    decreases |run|
  {
    run == [] ||
    (OrderedRun(net, run[..|run| - 1]) && InOrder(Exec(net, run[..|run| - 1]), run[|run| - 1]))
  }

  ghost predicate Good(s: ChainState) {
    Longest(s) && Published(s)
  }

  ghost predicate AllGood(net: Net) {
    forall i :: 0 <= i < |net.nodes| ==> Good(net.nodes[i].chain)
  }

  ghost predicate SameStore(net: Net, i: nat, j: nat)
    requires i < |net.nodes| && j < |net.nodes|
  {
    net.nodes[i].chain.store == net.nodes[j].chain.store
  }

  lemma StepGood(s: ChainState, e: Event)
    requires Good(s) && Proper(e) && ParentFirst(s, e)
    ensures Good(Step(s, e))
  {
    StepLongest(s, e);
    StepKeepsPublished(s, e);
  }

  lemma QuietGood(n: NodeState, t: NodeState)
    requires Good(n.chain) && Quiet(n, t)
    ensures Good(t.chain)
  {
  }

  lemma NextNodeGood(net: Net, a: Action)
    requires NetInv(net) && AllGood(net) && Enabled(net, a) && InOrder(net, a)
    ensures Good(NextNode(net, a).chain)
  {
    var n := net.nodes[Target(a)];
    assert NodeInv(n) && Good(n.chain);
    if Handed(net, a).Some? {
      HandedSteps(net, a);
      if a.ProcessMined? {
        assert n.mined[a.k] in n.mined;
      }
      StepGood(n.chain, Handed(net, a).value);
    } else {
      LocalIsQuiet(net, a);
      QuietGood(n, NextNode(net, a));
    }
  }

  lemma NextKeepsGood(net: Net, a: Action)
    requires NetInv(net) && AllGood(net) && Enabled(net, a) && InOrder(net, a)
    ensures AllGood(Next(net, a))
  {
    NextNodeGood(net, a);
  }

  lemma {:induction false} OrderedKeepsGood(net: Net, run: seq<Action>)
    requires NetInv(net) && AllGood(net) && Legal(net, run) && OrderedRun(net, run)
    ensures AllGood(Exec(net, run))
    decreases |run|
  {
    if run != [] {
      var init := run[..|run| - 1];
      OrderedKeepsGood(net, init);
      NetworkSafe(net, init);
      NextKeepsGood(Exec(net, init), run[|run| - 1]);
    }
  }

  /**
   From the start: no node ever faults, each node's head is as high as anything it stores, its
   subscribers have been sent the whole canonical chain parents first, and nodes with equal
   stores have heads of equal height.
   */
  lemma OrderedNetworkAgrees(n: nat, run: seq<Action>)
    requires Legal(InitNet(n), run) && OrderedRun(InitNet(n), run)
    ensures
      var net := Exec(InitNet(n), run);
      && AllGood(net)
      && (forall i :: 0 <= i < |net.nodes| ==> !net.nodes[i].chain.faulted)
      && (forall i, j :: 0 <= i < |net.nodes| && 0 <= j < |net.nodes| && SameStore(net, i, j) ==>
            net.nodes[i].chain.head.number == net.nodes[j].chain.head.number)
  {
    InitNetSafe(n);
    InitLongest();
    InitPublished();
    OrderedKeepsGood(InitNet(n), run);
    var net := Exec(InitNet(n), run);
    forall i, j | 0 <= i < |net.nodes| && 0 <= j < |net.nodes| && SameStore(net, i, j)
      ensures net.nodes[i].chain.head.number == net.nodes[j].chain.head.number
    {
      var s, t := net.nodes[i].chain, net.nodes[j].chain;
      assert Good(s) && Good(t);
      assert t.store[HashOf(s.head)] == s.head;
      assert s.store[HashOf(t.head)] == t.head;
    }
  }
}
