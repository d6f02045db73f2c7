/**
 How a node chooses its head (integration/ethereummock/node.go).

 `Accept` is the rule in its simplest form: a block whose ancestry is all stored becomes the
 head when it is higher than the head. Node.dfy proves that the code, with its ancestor test,
 common-ancestor search and walk between blocks, does exactly this. Here the rule is followed
 over whole runs.
 */
module ForkChoice {
  import opened Wrappers
  import opened Blocks
  import opened Lca

  /**
   `issued` lists the blocks handed to subscribers, in order; `canonical` holds the heads sent
   to the miner and not yet taken; `faulted` stands for a panic.
   */
  datatype ChainState = ChainState(store: Store, head: Block, issued: seq<Block>, canonical: seq<Block>, faulted: bool)

  const INIT: ChainState := ChainState(map[HashOf(GENESIS) := GENESIS], GENESIS, [GENESIS], [GENESIS], false)

  /** The first block on the way down from `b` that is also on the chain of `a`. */
  ghost function Meet(store: Store, a: Block, b: Block): Block
    decreases b
  {
    if Reaches(store, a, b) || b.parentHash !in store then b else Meet(store, a, store[b.parentHash])
  }

  /** The blocks from `x` up to `b`, both included. */
  ghost function Segment(store: Store, x: Block, b: Block): seq<Block>
    decreases b
  {
    if b == x || b.parentHash !in store then [b] else Segment(store, x, store[b.parentHash]) + [b]
  }

  /** What subscribers are sent when `b` replaces `head`. */
  ghost function Publication(store: Store, head: Block, b: Block): seq<Block> {
    if Reaches(store, b, head) then [b] else Segment(store, Meet(store, head, b), b)
  }

  ghost function Stored(s: ChainState, b: Block): Store {
    s.store[HashOf(b) := b]
  }

  ghost predicate Candidate(s: ChainState, b: Block) {
    b.parentHash in Stored(s, b) && b.number > s.head.number
  }

  ghost function Accept(s: ChainState, b: Block): ChainState {
    var store := Stored(s, b);
    if !Candidate(s, b) then s.(store := store)
    else if !Rooted(store, b) then s.(store := store, faulted := s.head == GENESIS)
    else ChainState(store, b, s.issued + Publication(store, s.head, b), s.canonical + [b], false)
  }

  // ----- events and runs -----

  datatype Event = Peer(block: Block) | Mined(block: Block)

  ghost function Step(s: ChainState, e: Event): ChainState {
    if s.faulted then s
    else
      match e
      case Peer(b) => if HashOf(b) in s.store then s else Accept(s, b)
      case Mined(b) =>
        var t := Accept(s, b);
        if !t.faulted && t.head == b && b.parentHash !in t.store then t.(faulted := true) else t
  }

  ghost function Run(s: ChainState, es: seq<Event>): ChainState
    decreases |es|
  {
    if es == [] then s else Run(Step(s, es[0]), es[1..])
  }

  /** Blocks are well formed, and nobody mines genesis. */
  ghost predicate Proper(e: Event) {
    WellFormed(e.block) && (e.Mined? ==> e.block != GENESIS)
  }

  ghost predicate Inv(s: ChainState) {
    && StoreWellFormed(s.store)
    && HashOf(GENESIS) in s.store
    && HashOf(s.head) in s.store
    && Rooted(s.store, s.head)
  }

  lemma HeadWellFormed(s: ChainState)
    requires Inv(s)
    ensures WellFormed(s.head) && (s.head.number == 0 <==> s.head == GENESIS)
  {
    assert s.store[HashOf(s.head)] == s.head;
    OnChainHeight(s.head, s.head);
  }

  // ----- the meeting point is the latest common ancestor -----

  lemma {:induction false} MeetIsLatestCommon(store: Store, a: Block, b: Block, y: Block)
    requires WellFormed(a) && WellFormed(b) && Common(store, a, b, y)
    ensures IsLatestCommon(store, Meet(store, a, b), a, b)
    decreases b
  {
    if Reaches(store, a, b) {
    } else {
      var p := store[b.parentHash];
      MeetIsLatestCommon(store, a, p, y);
      assert forall z :: Common(store, a, b, z) ==> Common(store, a, p, z);
    }
  }

  /** A segment starts at `x`, ends at `b`, and each block is the parent of the next. */
  lemma {:induction false} SegmentShape(store: Store, x: Block, b: Block)
    requires Reaches(store, b, x)
    ensures
      var seg := Segment(store, x, b);
      && |seg| >= 1 && seg[0] == x && seg[|seg| - 1] == b
      && forall i :: 0 < i < |seg| ==> seg[i].parentHash == HashOf(seg[i - 1])
    decreases b
  {
    if b != x {
      SegmentShape(store, x, store[b.parentHash]);
    }
  }

  lemma {:induction false} SegmentCovers(store: Store, x: Block, b: Block, a: Block)
    requires WellFormed(b) && Reaches(store, b, x) && OnChain(b, a)
    ensures a in Segment(store, x, b) || OnChain(x, a)
    decreases b
  {
    if b != x && a != b {
      SegmentCovers(store, x, store[b.parentHash], a);
    }
  }

  // ----- head safety, for blocks arriving in any order -----

  lemma StoredGrows(s: ChainState, b: Block)
    requires Inv(s) && WellFormed(b)
    ensures StoreWellFormed(Stored(s, b)) && s.store.Keys <= Stored(s, b).Keys
    ensures Rooted(Stored(s, b), s.head)
  {
    ReachesMonotone(s.store, Stored(s, b), s.head, GENESIS);
  }

  /** The one way to fault: the head is still genesis and the new block hangs off a broken chain. */
  ghost predicate Faults(s: ChainState, e: Event) {
    var b := e.block;
    && (e.Peer? ==> HashOf(b) !in s.store)
    && s.head == GENESIS
    && b.parentHash in Stored(s, b)
    && !Rooted(Stored(s, b), b)
  }

  lemma StepSafe(s: ChainState, e: Event)
    requires Inv(s) && !s.faulted && Proper(e)
    ensures Inv(Step(s, e))
    ensures Step(s, e).faulted <==> Faults(s, e)
    ensures Step(s, e).faulted ==> Step(s, e).head == s.head
    ensures Step(s, e).head == s.head || Step(s, e).head.number > s.head.number
    ensures s.store.Keys <= Step(s, e).store.Keys
  {
    var b := e.block;
    StoredGrows(s, b);
    HeadWellFormed(s);
    OnChainHeight(b, b);
    assert b == GENESIS ==> b.parentHash !in Stored(s, b);
    if Accept(s, b).head == b && b != GENESIS {
      assert b.parentHash in Accept(s, b).store by {
        if b == s.head {
          assert Reaches(s.store, b, GENESIS);
        }
      }
    }
  }

  /** Every run: the head stays linked to genesis, only moves up, and above genesis nothing faults. */
  lemma {:induction false} HeadSafety(s: ChainState, es: seq<Event>)
    requires Inv(s)
    requires forall i :: 0 <= i < |es| ==> Proper(es[i])
    ensures Inv(Run(s, es))
    ensures Run(s, es).head == s.head || Run(s, es).head.number > s.head.number
    ensures s.store.Keys <= Run(s, es).store.Keys
    ensures s.faulted ==> Run(s, es) == s
    ensures !s.faulted && s.head != GENESIS ==> !Run(s, es).faulted
    ensures Run(s, es).faulted && !s.faulted ==> Run(s, es).head == GENESIS
    decreases |es|
  {
    if es != [] {
      if !s.faulted {
        StepSafe(s, es[0]);
        HeadWellFormed(s);
        HeadWellFormed(Step(s, es[0]));
      }
      HeadSafety(Step(s, es[0]), es[1..]);
      HeadWellFormed(Run(s, es));
    }
  }

  lemma InitSafe()
    ensures Inv(INIT)
  {
  }

  /** Out-of-order arrival can reach the fault: block 2, then block 3, with block 1 still on its way. */
  lemma FaultIsReachable(b1: Block, b2: Block, b3: Block)
    requires WellFormed(b1) && b1.parentHash == HashOf(GENESIS)
    requires b2.parentHash == HashOf(b1) && b2.number == 2
    requires b3.parentHash == HashOf(b2) && b3.number == 3
    ensures Run(INIT, [Peer(b2), Peer(b3)]).faulted
  {
    var s := Step(INIT, Peer(b2));
    assert s.store == map[HashOf(GENESIS) := GENESIS, HashOf(b2) := b2];
    var store := Stored(s, b3);
    assert !Rooted(store, b3) by {
      assert b1.number == 1;
      assert b2.parentHash !in store;
      assert !Reaches(store, b2, GENESIS);
      assert store[b3.parentHash] == b2;
    }
    var es := [Peer(b2), Peer(b3)];
    assert es[1..] == [Peer(b3)];
    assert Run(INIT, es) == Run(s, [Peer(b3)]);
    assert Run(s, [Peer(b3)]) == Run(Step(s, Peer(b3)), []) by {
      assert [Peer(b3)][1..] == [];
    }
  }

  // ----- longest chain, when parents arrive first -----

  ghost predicate ParentFirst(s: ChainState, e: Event) {
    HashOf(e.block) in s.store || e.block.parentHash in s.store
  }

  ghost predicate ParentFirstRun(s: ChainState, es: seq<Event>)
    decreases |es|
  {
    es == [] || (ParentFirst(s, es[0]) && ParentFirstRun(Step(s, es[0]), es[1..]))
  }

  /** Every stored block is rooted and none is higher than the head. */
  ghost predicate Longest(s: ChainState) {
    && Inv(s) && !s.faulted
    && forall h :: h in s.store ==> Rooted(s.store, s.store[h]) && s.store[h].number <= s.head.number
  }

  lemma StoredRooted(s: ChainState, b: Block)
    requires Longest(s) && WellFormed(b)
    requires HashOf(b) in s.store || b.parentHash in s.store
    ensures forall h :: h in Stored(s, b) ==> Rooted(Stored(s, b), Stored(s, b)[h])
    ensures b.number <= s.head.number + 1
  {
    var store := Stored(s, b);
    forall h | h in s.store
      ensures Rooted(store, s.store[h])
    {
      ReachesMonotone(s.store, store, s.store[h], GENESIS);
    }
    if HashOf(b) in s.store {
      assert s.store[HashOf(b)] == b;
    } else {
      assert store[b.parentHash] == s.store[b.parentHash] == Parent(b);
      OnChainHeight(b, b);
      assert b != GENESIS;
    }
  }

  /**
   With its parent stored, a block raises the head by exactly one or not at all, the node does
   not fault, the head is as high as anything stored, and the common-ancestor search would succeed.
   */
  lemma StepLongest(s: ChainState, e: Event)
    requires Longest(s) && Proper(e) && ParentFirst(s, e)
    ensures Longest(Step(s, e))
    ensures Step(s, e).head == s.head || (Step(s, e).head == e.block && e.block.number == s.head.number + 1)
    ensures LCA(Stored(s, e.block), s.head, e.block).Ok?
    ensures !(e.block.number > s.head.number + 1)
  {
    var b := e.block;
    StepSafe(s, e);
    StoredGrows(s, b);
    StoredRooted(s, b);
    assert Stored(s, b)[HashOf(b)] == b;
    HeadWellFormed(s);
    LCAExact(Stored(s, b), s.head, b);
    forall h | h in Step(s, e).store
      ensures Rooted(Step(s, e).store, Step(s, e).store[h]) && Step(s, e).store[h].number <= Step(s, e).head.number
    {
      if h != HashOf(b) && h in s.store {
        assert s.store[h].number <= s.head.number;
      }
    }
  }

  /** Parent-first delivery is exactly what keeps the head a longest chain. */
  lemma LongestNeedsParentFirst(s: ChainState, e: Event)
    requires Longest(s) && Proper(e)
    ensures Longest(Step(s, e)) <==> ParentFirst(s, e)
  {
    if ParentFirst(s, e) {
      StepLongest(s, e);
    } else {
      var b := e.block;
      var store := Stored(s, b);
      assert b != GENESIS && b.parentHash !in store;
      assert !Rooted(store, b);
      assert Step(s, e).store == store && store[HashOf(b)] == b;
    }
  }

  /** Every parent-first run keeps the head a longest chain and never faults. */
  lemma {:induction false} LongestChain(s: ChainState, es: seq<Event>)
    requires Longest(s) && ParentFirstRun(s, es)
    requires forall i :: 0 <= i < |es| ==> Proper(es[i])
    ensures Longest(Run(s, es))
    decreases |es|
  {
    if es != [] {
      StepLongest(s, es[0]);
      LongestChain(Step(s, es[0]), es[1..]);
    }
  }

  lemma InitLongest()
    ensures Longest(INIT)
  {
  }

  /** Nodes that have heard of the same blocks, each in its own parent-first order, agree on the height. */
  lemma EqualStoresEqualHeight(es: seq<Event>, fs: seq<Event>)
    requires ParentFirstRun(INIT, es) && ParentFirstRun(INIT, fs)
    requires forall i :: 0 <= i < |es| ==> Proper(es[i])
    requires forall i :: 0 <= i < |fs| ==> Proper(fs[i])
    requires Run(INIT, es).store == Run(INIT, fs).store
    ensures Run(INIT, es).head.number == Run(INIT, fs).head.number
  {
    LongestChain(INIT, es);
    LongestChain(INIT, fs);
    var s, t := Run(INIT, es), Run(INIT, fs);
    assert t.store[HashOf(s.head)] == s.head;
    assert s.store[HashOf(t.head)] == t.head;
  }

  // ----- what subscribers see -----

  ghost predicate ParentIssued(issued: seq<Block>, k: nat)
    requires k < |issued|
  {
    issued[k] == GENESIS || exists j :: 0 <= j < k && HashOf(issued[j]) == issued[k].parentHash
  }

  /** No block is issued before its parent, and the whole canonical chain has been issued. */
  ghost predicate Published(s: ChainState) {
    && (forall k :: 0 <= k < |s.issued| ==> ParentIssued(s.issued, k))
    && (forall a :: OnChain(s.head, a) ==> a in s.issued)
  }

  lemma ParentIssuedAppend(issued: seq<Block>, more: seq<Block>)
    requires forall k :: 0 <= k < |issued| ==> ParentIssued(issued, k)
    requires |more| > 0
    requires more[0] == GENESIS || exists j :: 0 <= j < |issued| && HashOf(issued[j]) == more[0].parentHash
    requires forall i :: 0 < i < |more| ==> more[i].parentHash == HashOf(more[i - 1])
    ensures forall k :: 0 <= k < |issued + more| ==> ParentIssued(issued + more, k)
  {
    var all := issued + more;
    forall k | 0 <= k < |all|
      ensures ParentIssued(all, k)
    {
      if k < |issued| {
        assert ParentIssued(issued, k);
        if issued[k] != GENESIS {
          var j :| 0 <= j < k && HashOf(issued[j]) == issued[k].parentHash;
          assert all[j] == issued[j];
        }
      } else if k == |issued| {
        if more[0] != GENESIS {
          var j :| 0 <= j < |issued| && HashOf(issued[j]) == more[0].parentHash;
          assert all[j] == issued[j];
        }
      } else {
        assert all[k - 1] == more[k - 1 - |issued|];
        assert all[k].parentHash == HashOf(all[k - 1]);
      }
    }
  }

  lemma IssuedIndex(issued: seq<Block>, a: Block, h: Hash)
    requires a in issued && h == HashOf(a)
    ensures exists j :: 0 <= j < |issued| && HashOf(issued[j]) == h
  {
    var j :| 0 <= j < |issued| && issued[j] == a;
  }

  /** If a closed list holds the parent of `b`, it holds every ancestor. */
  lemma {:induction false} ClosedHoldsAncestors(issued: seq<Block>, k: nat, a: Block)
    requires forall k :: 0 <= k < |issued| ==> ParentIssued(issued, k)
    requires k < |issued| && OnChain(issued[k], a)
    ensures a in issued
    decreases k
  {
    if issued[k] != a {
      assert ParentIssued(issued, k);
      var j :| 0 <= j < k && HashOf(issued[j]) == issued[k].parentHash;
      ClosedHoldsAncestors(issued, j, a);
    }
  }

  /** The block gets past the first guards: it is not a known block from a peer, its parent is stored, it is higher. */
  ghost predicate Offered(s: ChainState, e: Event) {
    (e.Peer? ==> HashOf(e.block) !in s.store) && Candidate(s, e.block)
  }

  /** An offered block above the old head, whose child it need not be. */
  ghost predicate Extends(s: ChainState, e: Event) {
    Offered(s, e) && Reaches(Stored(s, e.block), e.block, s.head)
  }

  /** An offered block with all its ancestry stored, on another branch. */
  ghost predicate Reorganises(s: ChainState, e: Event) {
    Offered(s, e) && Rooted(Stored(s, e.block), e.block) && !Reaches(Stored(s, e.block), e.block, s.head)
  }

  /** The head changes in just these two cases, and then to the block. */
  lemma HeadChangesExactly(s: ChainState, e: Event)
    requires Inv(s) && !s.faulted && Proper(e)
    ensures Step(s, e).head != s.head <==> Extends(s, e) || Reorganises(s, e)
    ensures Extends(s, e) || Reorganises(s, e) ==> Step(s, e).head == e.block && e.block != GENESIS
  {
    var b := e.block;
    StoredGrows(s, b);
    HeadWellFormed(s);
    OnChainHeight(b, b);
    if Extends(s, e) {
      ReachesTransitive(Stored(s, b), b, s.head, GENESIS);
    }
  }

  /** What a higher block with all its ancestry stored does to the head, the miner's channel and the subscribers. */
  lemma HeadRaised(s: ChainState, b: Block)
    requires Inv(s) && !s.faulted && WellFormed(b)
    requires b.number > s.head.number && Rooted(Stored(s, b), b)
    ensures
      var t := Accept(s, b);
      && t.head == b && t.canonical == s.canonical + [b] && !t.faulted && b.parentHash in t.store
      && if Reaches(t.store, b, s.head) then t.issued == s.issued + [b]
         else s.issued < t.issued && t.issued[|t.issued| - 1] == b
  {
    var store := Stored(s, b);
    StoredGrows(s, b);
    HeadWellFormed(s);
    OnChainHeight(b, b);
    if !Reaches(store, b, s.head) {
      MeetIsLatestCommon(store, s.head, b, GENESIS);
      SegmentShape(store, Meet(store, s.head, b), b);
    }
  }

  /**
   All that one event does. A known block from a peer is ignored. Any other is stored. If it is
   higher than the head and its ancestry is all stored, it becomes the head and is sent to the
   miner, once, and last in what is issued. If not, nothing else changes; but the node faults when
   its head is genesis and the block's parent is stored while its ancestry is broken.
   */
  lemma StepExactly(s: ChainState, e: Event)
    requires Inv(s) && !s.faulted && Proper(e)
    ensures e.Peer? && HashOf(e.block) in s.store ==> Step(s, e) == s
    ensures !(e.Peer? && HashOf(e.block) in s.store) ==>
      var b, t := e.block, Step(s, e);
      && t.store == s.store[HashOf(b) := b]
      && (if b.number > s.head.number && Rooted(t.store, b) then
            t.head == b && t.canonical == s.canonical + [b] && !t.faulted &&
            if Reaches(t.store, b, s.head) then t.issued == s.issued + [b]
            else s.issued < t.issued && t.issued[|t.issued| - 1] == b
          else t == s.(store := t.store, faulted := s.head == GENESIS && b.parentHash in t.store && !Rooted(t.store, b)))
  {
    var b := e.block;
    StepSafe(s, e);
    OnChainHeight(b, b);
    if b.number > s.head.number && Rooted(Stored(s, b), b) {
      HeadRaised(s, b);
    } else if Candidate(s, b) {
      assert !Rooted(Stored(s, b), b);
    }
  }

  lemma ForkPublished(s: ChainState, b: Block)
    requires Inv(s) && WellFormed(b) && Published(s) && Candidate(s, b)
    requires Rooted(Stored(s, b), b) && !Reaches(Stored(s, b), b, s.head)
    ensures Published(Accept(s, b))
  {
    var store := Stored(s, b);
    StoredGrows(s, b);
    HeadWellFormed(s);
    MeetIsLatestCommon(store, s.head, b, GENESIS);
    var x := Meet(store, s.head, b);
    var seg := Segment(store, x, b);
    SegmentShape(store, x, b);
    ReachesOnChain(store, s.head, x);
    ReachesHeight(store, b, x);
    if x != GENESIS {
      OnChainTransitive(s.head, x, Parent(x));
      IssuedIndex(s.issued, Parent(x), x.parentHash);
    }
    ParentIssuedAppend(s.issued, seg);
    forall a | OnChain(b, a)
      ensures a in s.issued + seg
    {
      SegmentCovers(store, x, b, a);
      if OnChain(x, a) {
        OnChainTransitive(s.head, x, a);
      }
    }
  }

  lemma ExtensionPublished(s: ChainState, b: Block)
    requires Inv(s) && WellFormed(b) && Published(s) && b != GENESIS
    ensures
      var t := s.(head := b, issued := s.issued + [b]);
      Published(t) <==> Parent(b) in s.issued
  {
    var all := s.issued + [b];
    var t := s.(head := b, issued := all);
    if Parent(b) in s.issued {
      IssuedIndex(s.issued, Parent(b), b.parentHash);
      ParentIssuedAppend(s.issued, [b]);
      forall a | OnChain(b, a)
        ensures a in all
      {
        ClosedHoldsAncestors(all, |s.issued|, a);
      }
    }
    if Published(t) {
      assert OnChain(b, Parent(b));
      assert Parent(b) in all;
      assert Parent(b) != b;
    }
  }

  /**
   A step keeps publication closed and complete exactly when it does not put the head on top of
   the old one while a block in between was never issued.
   */
  lemma StepPublished(s: ChainState, e: Event)
    requires Inv(s) && !s.faulted && Proper(e) && Published(s)
    ensures Published(Step(s, e)) <==> (Extends(s, e) ==> e.block.parentHash.Digest? && Parent(e.block) in s.issued)
  {
    var b := e.block;
    HeadChangesExactly(s, e);
    StoredGrows(s, b);
    if Extends(s, e) {
      ReachesTransitive(Stored(s, b), b, s.head, GENESIS);
      ExtensionPublished(s, b);
      var t := s.(head := b, issued := s.issued + [b]);
      assert Step(s, e).issued == t.issued && Step(s, e).head == t.head;
    } else if Reorganises(s, e) {
      ForkPublished(s, b);
      assert Step(s, e).issued == Accept(s, b).issued;
    } else {
      assert Step(s, e).issued == s.issued;
    }
  }

  /** Whatever the order of arrival, a reorg is issued as one unbroken chain from the latest common ancestor up. */
  lemma ReorgBatch(s: ChainState, e: Event) returns (batch: seq<Block>)
    requires Inv(s) && !s.faulted && Proper(e)
    requires Reorganises(s, e)
    ensures Step(s, e).issued == s.issued + batch
    ensures |batch| >= 2 && batch[|batch| - 1] == e.block == Step(s, e).head
    ensures IsLatestCommon(Stored(s, e.block), batch[0], s.head, e.block)
    ensures forall i :: 0 < i < |batch| ==> batch[i].parentHash == HashOf(batch[i - 1])
  {
    var store := Stored(s, e.block);
    HeadChangesExactly(s, e);
    StoredGrows(s, e.block);
    HeadWellFormed(s);
    MeetIsLatestCommon(store, s.head, e.block, GENESIS);
    var x := Meet(store, s.head, e.block);
    batch := Segment(store, x, e.block);
    SegmentShape(store, x, e.block);
    ReachesHeight(store, s.head, x);
  }

  lemma StepKeepsPublished(s: ChainState, e: Event)
    requires Longest(s) && Published(s) && Proper(e) && ParentFirst(s, e)
    ensures Published(Step(s, e))
  {
    StepLongest(s, e);
    StepPublished(s, e);
    if Extends(s, e) {
      var store := Stored(s, e.block);
      assert store[e.block.parentHash] == Parent(e.block);
      ReachesHeight(store, Parent(e.block), s.head);
      assert Parent(e.block) == s.head;
      assert OnChain(s.head, s.head);
    }
  }

  /** Parent-first runs: subscribers are sent every block of the canonical chain, parents first. */
  lemma {:induction false} PublicationClosed(s: ChainState, es: seq<Event>)
    requires Longest(s) && Published(s) && ParentFirstRun(s, es)
    requires forall i :: 0 <= i < |es| ==> Proper(es[i])
    ensures Published(Run(s, es))
    decreases |es|
  {
    if es != [] {
      StepLongest(s, es[0]);
      StepKeepsPublished(s, es[0]);
      PublicationClosed(Step(s, es[0]), es[1..]);
    }
  }

  lemma InitPublished()
    ensures Published(INIT)
  {
    assert ParentIssued(INIT.issued, 0);
  }

  /** Without parent-first delivery a block can be skipped: block 2, block 1, block 3. */
  lemma PublicationGap(b1: Block, b2: Block, b3: Block)
    requires WellFormed(b3)
    requires b1.parentHash == HashOf(GENESIS) && b2.parentHash == HashOf(b1) && b3.parentHash == HashOf(b2)
    ensures
      var s := Run(INIT, [Peer(b2), Peer(b1), Peer(b3)]);
      s.issued == [GENESIS, b1, b3] && s.head == b3 && !Published(s)
  {
    assert WellFormed(b2) && WellFormed(b1);
    assert b1.number == 1 && b2.number == 2 && b3.number == 3;
    var s1 := Step(INIT, Peer(b2));
    assert s1 == INIT.(store := map[HashOf(GENESIS) := GENESIS, HashOf(b2) := b2]);
    var s2 := Step(s1, Peer(b1));
    GapFirst(s1, b1, b2);
    var s3 := Step(s2, Peer(b3));
    GapSecond(s2, b1, b2, b3);
    RunOfThree(INIT, Peer(b2), Peer(b1), Peer(b3));
    assert OnChain(b3, b2) && b2 !in s3.issued;
  }

  lemma RunOfThree(s: ChainState, a: Event, b: Event, c: Event)
    ensures Run(s, [a, b, c]) == Step(Step(Step(s, a), b), c)
  {
    assert [a, b, c][1..] == [b, c] && [b, c][1..] == [c] && [c][1..] == [];
    var s1, s2, s3 := Step(s, a), Step(Step(s, a), b), Step(Step(Step(s, a), b), c);
    assert Run(s3, []) == s3;
    assert Run(s2, [c]) == s3;
    assert Run(s1, [b, c]) == s3;
  }

  lemma GapFirst(s: ChainState, b1: Block, b2: Block)
    requires s == INIT.(store := map[HashOf(GENESIS) := GENESIS, HashOf(b2) := b2])
    requires b1.parentHash == HashOf(GENESIS) && b1.number == 1 && b2.parentHash == HashOf(b1)
    ensures
      var t := Step(s, Peer(b1));
      && t.store == map[HashOf(GENESIS) := GENESIS, HashOf(b2) := b2, HashOf(b1) := b1]
      && t.head == b1 && t.issued == [GENESIS, b1] && !t.faulted
  {
    var store := Stored(s, b1);
    assert store[b1.parentHash] == GENESIS && Reaches(store, b1, GENESIS);
  }

  lemma GapSecond(s: ChainState, b1: Block, b2: Block, b3: Block)
    requires s.store == map[HashOf(GENESIS) := GENESIS, HashOf(b2) := b2, HashOf(b1) := b1]
    requires s.head == b1 && s.issued == [GENESIS, b1] && !s.faulted
    requires b1.parentHash == HashOf(GENESIS) && b2.parentHash == HashOf(b1) && b3.parentHash == HashOf(b2)
    requires b1.number == 1 && b3.number == 3
    ensures Step(s, Peer(b3)).head == b3 && Step(s, Peer(b3)).issued == [GENESIS, b1, b3]
  {
    var store := Stored(s, b3);
    assert store[b3.parentHash] == b2 && store[b2.parentHash] == b1 && store[b1.parentHash] == GENESIS;
    assert Reaches(store, b2, b1) && Reaches(store, b3, b1);
    assert Reaches(store, b1, GENESIS) && Reaches(store, b2, GENESIS) && Reaches(store, b3, GENESIS);
  }
}
