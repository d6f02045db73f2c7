/**
 Messages are neither lost nor made up (integration/ethereummock/mock_l1_network.go and
 `P2PReceiveBlock` in node.go): in every run, what has been delivered and what is on its way add up
 to what was broadcast.
 */
module Delivery {
  import opened Blocks
  import opened ForkChoice
  import opened NodeSteps
  import opened Network

  /** This step broadcasts the pair `m` holds, and the node `m` is for is not the sender. */
  ghost predicate SendsTo(net: Net, a: Action, m: Message)
    requires Enabled(net, a)
  {
    && a.ProcessMined? && Broadcasts(net.nodes[a.i], a.k) && m.Both?
    && m.block == net.nodes[a.i].mined[a.k] && m.block.parentHash == HashOf(m.parent)
    && m.to < |net.nodes| && m.to != a.i
  }

  /** How many steps of the run broadcast the pair to that node. */
  ghost function Sent(net: Net, run: seq<Action>, m: Message): nat
    requires Legal(net, run)
    decreases |run|
  {
    if run == [] then 0
    else
      var init, last := run[..|run| - 1], run[|run| - 1];
      Sent(net, init, m) + if SendsTo(Exec(net, init), last, m) then 1 else 0
  }

  lemma CountAppend<T>(s: seq<T>, x: T, y: T)
    ensures multiset(s + [x])[y] == multiset(s)[y] + if x == y then 1 else 0
  {
  }

  /** `m` is the pair, for a node below `n` that is not the sender. */
  ghost predicate IsCopy(n: nat, sender: nat, p: Block, b: Block, m: Message) {
    m == Both(m.to, p, b) && m.to < n && m.to != sender
  }

  lemma {:induction false} RecipientsCount(n: nat, sender: nat, p: Block, b: Block, m: Message)
    ensures multiset(Recipients(n, sender, p, b))[m] == if IsCopy(n, sender, p, b, m) then 1 else 0
  {
    if n != 0 {
      var earlier, x := Recipients(n - 1, sender, p, b), Both(n - 1, p, b);
      RecipientsCount(n - 1, sender, p, b, m);
      CountAppend(earlier, x, m);
      OneMoreCopy(n, sender, p, b, m);
      assert Recipients(n, sender, p, b) == if n - 1 == sender then earlier else earlier + [x];
    }
  }

  lemma OneMoreCopy(n: nat, sender: nat, p: Block, b: Block, m: Message)
    requires n > 0
    ensures IsCopy(n, sender, p, b, m) <==> IsCopy(n - 1, sender, p, b, m) || (n - 1 != sender && m == Both(n - 1, p, b))
    ensures m == Both(n - 1, p, b) ==> !IsCopy(n - 1, sender, p, b, m)
  {
  }

  /** What a mined block, when handled, adds to what is on its way. */
  lemma MinedAdds(net: Net, i: nat, k: nat, m: Message)
    requires NetInv(net) && Enabled(net, ProcessMined(i, k))
    ensures Next(net, ProcessMined(i, k)).inFlight[m] ==
            net.inFlight[m] + if SendsTo(net, ProcessMined(i, k), m) then 1 else 0
  {
    var b := net.nodes[i].mined[k];
    MinedSends(net, i, k);
    if Broadcasts(net.nodes[i], k) {
      RecipientsCount(|net.nodes|, i, Parent(b), b, m);
      assert SendsTo(net, ProcessMined(i, k), m) <==> IsCopy(|net.nodes|, i, Parent(b), b, m);
    }
  }

  /** The parent of `d` is delivered: the pair becomes its second half. */
  lemma HalfDelivered(inFlight: multiset<Message>, d: Message, m: Message)
    requires d in inFlight && d.Both?
    ensures
      var after := inFlight - multiset{d} + multiset{Second(d.to, d.block)};
      after[m] + (if m == d then 1 else 0) == inFlight[m] + if m == Second(d.to, d.block) then 1 else 0
  {
  }

  /** One step: a pair comes from a broadcast and goes when its parent is delivered. */
  lemma PairStep(net: Net, a: Action, m: Message)
    requires NetInv(net) && Enabled(net, a) && m.Both?
    ensures Next(net, a).inFlight[m] + (if a == DeliverParent(m) then 1 else 0) ==
            net.inFlight[m] + (if SendsTo(net, a, m) then 1 else 0)
  {
    match a
    case ProcessMined(i, k) => MinedAdds(net, i, k, m);
    case DeliverParent(d) => HalfDelivered(net.inFlight, d, m);
    case _ =>
  }

  /** The pair whose second half is due at `to` is that of `b` and its parent. */
  lemma PairOf(net: Net, d: Message, to: nat, b: Block)
    requires NetInv(net) && d in net.inFlight && d.Both? && b.parentHash.Digest?
    ensures Second(d.to, d.block) == Second(to, b) <==> d == Both(to, Parent(b), b)
  {
    assert MessageInv(net.nodes, d);
  }

  /** One step: a block is due when its parent was delivered, and goes when it is delivered itself. */
  lemma SecondStep(net: Net, a: Action, to: nat, b: Block)
    requires NetInv(net) && Enabled(net, a) && b.parentHash.Digest?
    ensures Next(net, a).inFlight[Second(to, b)] + (if a == DeliverBlock(Second(to, b)) then 1 else 0) ==
            net.inFlight[Second(to, b)] + (if a == DeliverParent(Both(to, Parent(b), b)) then 1 else 0)
  {
    match a
    case ProcessMined(i, k) => MinedAdds(net, i, k, Second(to, b));
    case DeliverParent(d) =>
      PairOf(net, d, to, b);
      HalfDelivered(net.inFlight, d, Second(to, b));
    case _ =>
  }

  /** How often an action occurs in a run. */
  ghost function Times(run: seq<Action>, a: Action): nat {
    multiset(run)[a]
  }

  lemma TimesLast(run: seq<Action>, a: Action)
    requires run != []
    ensures Times(run, a) == Times(run[..|run| - 1], a) + if run[|run| - 1] == a then 1 else 0
  {
    assert run == run[..|run| - 1] + [run[|run| - 1]];
  }

  /** Every run: the pairs delivered to a node and those on their way to it are the pairs broadcast to it. */
  lemma {:induction false} PairsConserved(net: Net, run: seq<Action>, m: Message)
    requires NetInv(net) && Legal(net, run) && m.Both?
    ensures Exec(net, run).inFlight[m] + Times(run, DeliverParent(m)) == net.inFlight[m] + Sent(net, run, m)
    decreases |run|
  {
    if run != [] {
      var init := run[..|run| - 1];
      PairsConserved(net, init, m);
      NetworkSafe(net, init);
      PairStep(Exec(net, init), run[|run| - 1], m);
      TimesLast(run, DeliverParent(m));
    }
  }

  /** Every run: the blocks delivered to a node and those still due are the ones whose parent was delivered with them. */
  lemma {:induction false} BlocksConserved(net: Net, run: seq<Action>, to: nat, b: Block)
    requires NetInv(net) && Legal(net, run) && b.parentHash.Digest?
    ensures Exec(net, run).inFlight[Second(to, b)] + Times(run, DeliverBlock(Second(to, b))) ==
            net.inFlight[Second(to, b)] + Times(run, DeliverParent(Both(to, Parent(b), b)))
    decreases |run|
  {
    if run != [] {
      var init := run[..|run| - 1];
      BlocksConserved(net, init, to, b);
      NetworkSafe(net, init);
      SecondStep(Exec(net, init), run[|run| - 1], to, b);
      TimesLast(run, DeliverBlock(Second(to, b)));
      TimesLast(run, DeliverParent(Both(to, Parent(b), b)));
    }
  }

  /**
   From the start: a block reaches a node no more often than it was broadcast to it, each time after
   its parent; and once nothing is on its way, exactly as often.
   */
  lemma DeliveredAsSent(n: nat, run: seq<Action>, to: nat, b: Block)
    requires Legal(InitNet(n), run) && b.parentHash.Digest?
    ensures
      var pair := Both(to, Parent(b), b);
      var sent, parents, blocks := Sent(InitNet(n), run, pair), Times(run, DeliverParent(pair)), Times(run, DeliverBlock(Second(to, b)));
      && blocks <= parents <= sent
      && (Exec(InitNet(n), run).inFlight == multiset{} ==> blocks == parents == sent)
  {
    InitNetSafe(n);
    PairsConserved(InitNet(n), run, Both(to, Parent(b), b));
    BlocksConserved(InitNet(n), run, to, b);
  }
}
