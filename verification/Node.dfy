/**
 A mock layer-1 node (integration/ethereummock/node.go): the loop that handles blocks from
 peers and from the local miner, and the mining rounds. Each handler is proved to compute one
 of the functions of NodeSteps.
 */
module Node {
  import opened Wrappers
  import opened Blocks
  import opened Ancestry
  import opened Lca
  import opened TxIndex
  import opened ForkChoice
  import opened NodeSteps

  // ----- the three cases of a higher block whose parent is stored -----

  /** The head is an ancestor: the block is rooted. */
  lemma AncestorCase(store: Store, head: Block, b: Block)
    requires Rooted(store, head) && Reaches(store, b, head)
    ensures Rooted(store, b)
  {
    ReachesTransitive(store, b, head, GENESIS);
  }

  /** A head above genesis: the search succeeds exactly on rooted blocks, and finds where the chains meet. */
  lemma ForkCase(store: Store, head: Block, b: Block)
    requires WellFormed(head) && WellFormed(b) && head != GENESIS && b != GENESIS
    requires Rooted(store, head)
    ensures LCA(store, head, b).Ok? <==> Rooted(store, b)
    ensures LCA(store, head, b).Ok? ==>
      var x := LCA(store, head, b).value.commonAncestor;
      x == Meet(store, head, b) && Reaches(store, b, x)
  {
    LCACorrect(store, head, b);
    if Rooted(store, b) {
      assert Common(store, head, b, GENESIS);
    }
    if LCA(store, head, b).Ok? {
      var x := LCA(store, head, b).value.commonAncestor;
      ReachesOnChain(store, head, x);
      RootedReachesAll(store, head, x);
      ReachesTransitive(store, b, x, GENESIS);
      MeetIsLatestCommon(store, head, b, x);
      LatestCommonUnique(store, x, Meet(store, head, b), head, b);
    }
  }

  /** The head is genesis: the search stops at once with genesis itself. */
  lemma GenesisCase(store: Store, b: Block)
    ensures LCA(store, GENESIS, b).Ok? && LCA(store, GENESIS, b).value.commonAncestor == GENESIS
  {
  }

  class Node {
    const id: nat
    const db: TxDB
    var store: Store
    var head: Block
    var mempool: seq<Tx>
    var rounds: seq<Round>
    /** Blocks published to subscribers, the canonical channel and the mining channel. */
    var issued: seq<Block>
    var canonical: seq<Block>
    var mined: seq<Block>
    /** Set by a panic or a `logger.Crit` exit. */
    var faulted: bool

    ghost function View(): NodeState
      reads this, db
    {
      NodeState(ChainState(store, head, issued, canonical, faulted), mempool, db.cache, rounds, mined)
    }

    /** What every step keeps: see `Inv`. */
    ghost predicate Valid()
      reads this, db
    {
      Inv(View().chain)
    }

    constructor (id: nat)
      ensures View() == INIT_NODE && Valid()
      ensures store == map[HashOf(GENESIS) := GENESIS] && head == GENESIS && issued == canonical == [GENESIS] && !faulted
      ensures mempool == [] && rounds == [] && mined == [] && db.cache == map[]
      ensures this.id == id && fresh(db)
    {
      this.id := id;
      db := new TxDB();
      store := map[HashOf(GENESIS) := GENESIS];
      head := GENESIS;
      issued, canonical := [GENESIS], [GENESIS];
      mempool, rounds, mined := [], [], [];
      faulted := false;
    }

    /** The highest stored block; `Err` only on an empty store. */
    method FetchHeadBlock() returns (r: Result<Block>)
      ensures r.Err? <==> store == map[]
      ensures r.Ok? ==> HashOf(r.value) in store && forall h :: h in store ==> store[h].number <= r.value.number
      ensures Longest(View().chain) ==> r.Ok? && r.value.number == head.number
    {
      var max: Option<Block> := None;
      var left := store.Keys;
      while left != {}
        invariant left <= store.Keys
        invariant max.None? <==> left == store.Keys
        invariant max.Some? ==> HashOf(max.value) in store &&
                                forall h :: h in store && h !in left ==> store[h].number <= max.value.number
      {
        var k :| k in left;
        var b := store[k];
        if max.None? || max.value.number < b.number {
          max := Some(b);
        }
        left := left - {k};
      }
      if max.None? {
        return Err;
      }
      if Longest(View().chain) {
        assert store[HashOf(max.value)] == max.value;
        assert store[HashOf(head)] == head;
      }
      return Ok(max.value);
    }

    /** The chain from `a` up to `b`; `None` is the panic on a missing parent. */
    method BlocksBetween(a: Block, b: Block) returns (result: Option<seq<Block>>)
      ensures result == if Reaches(store, b, a) then Some(Segment(store, a, b)) else None
    {
      if HashOf(a) == HashOf(b) {
        return Some([b]);
      }
      var blocks: seq<Block> := [];
      var temp := b;
      while true
        invariant Reaches(store, b, a) <==> Reaches(store, temp, a)
        invariant Reaches(store, temp, a) ==> Segment(store, a, b) == Segment(store, a, temp) + Reversed(blocks)
        decreases temp
      {
        ghost var below := Reversed(blocks);
        blocks := blocks + [temp];
        assert Reversed(blocks) == [temp] + below;
        if HashOf(temp) == HashOf(a) {
          break;
        }
        var p := FetchBlock(store, temp.parentHash);
        if p.None? {
          return None;
        }
        temp := p.value;
      }
      assert Segment(store, a, b) == Reversed(blocks);
      var n := |blocks|;
      var r: array<Block> := new Block[n](_ => b);
      for i := 0 to n
        invariant forall k :: 0 <= k < i ==> r[n - k - 1] == blocks[k]
      {
        r[n - i - 1] := blocks[i];
      }
      assert r[..] == Reversed(blocks);
      return Some(r[..]);
    }

    method SetHead(b: Block)
      modifies this
      ensures View() == old(View()).(chain := old(View()).chain.(
                head := b, issued := old(issued) + [b], canonical := old(canonical) + [b]))
    {
      issued := issued + [b];
      canonical := canonical + [b];
      head := b;
    }

    method SetFork(blocks: seq<Block>)
      requires blocks != []
      modifies this
      ensures
        var b := blocks[|blocks| - 1];
        View() == old(View()).(chain := old(View()).chain.(
          head := b, issued := old(issued) + blocks, canonical := old(canonical) + [b]))
    {
      issued := issued + blocks;
      canonical := canonical + [blocks[|blocks| - 1]];
      head := blocks[|blocks| - 1];
    }

    /** The code's fork choice is the simple rule `Accept`. */
    method ProcessBlock(b: Block)
      requires Valid() && !faulted && WellFormed(b)
      modifies this
      ensures View() == old(View()).(chain := Accept(old(View()).chain, b))
    {
      ghost var s := View().chain;
      StoredGrows(s, b);
      HeadWellFormed(s);
      OnChainHeight(b, b);
      store := store[HashOf(b) := b];
      if FetchBlock(store, b.parentHash).None? {
        return;
      }
      if b.number <= head.number {
        return;
      }
      IsAncestorIsReachability(store, b, head);
      if !IsAncestor(store, b, head) {
        if head == GENESIS {
          GenesisCase(store, b);
        } else {
          ForkCase(store, head, b);
        }
        var fork := LCA(store, head, b);
        if fork.Err? {
          return;
        }
        var blocks := BlocksBetween(fork.value.commonAncestor, b);
        if blocks.None? {
          faulted := true;
          return;
        }
        SegmentShape(store, fork.value.commonAncestor, b);
        SetFork(blocks.value);
        return;
      }
      AncestorCase(store, head, b);
      SetHead(b);
    }

    method OnPeerBlock(b: Block)
      requires Valid() && !faulted && WellFormed(b)
      modifies this
      ensures View() == HandlePeer(old(View()), b) && Valid()
    {
      StepSafe(View().chain, Peer(b));
      if FetchBlock(store, HashOf(b)).None? {
        ProcessBlock(b);
      }
    }

    /** Handles block `k` of the mining channel; `sent` is the block and parent to broadcast, if any. */
    method OnMinedBlock(k: nat) returns (sent: Option<(Block, Block)>)
      requires Valid() && !faulted
      requires k < |mined| && WellFormed(mined[k]) && mined[k] != GENESIS
      modifies this
      ensures View() == HandleMined(old(View()), k) && Valid()
      ensures sent.Some? <==> Broadcasts(old(View()), k)
      ensures sent.Some? ==> sent.value.0 == old(mined[k]) && HashOf(sent.value.1) == sent.value.0.parentHash
    {
      var mb := mined[k];
      StepSafe(View().chain, Mined(mb));
      mined := RemoveAt(mined, k);
      ProcessBlock(mb);
      if faulted || HashOf(head) != HashOf(mb) {
        return None;
      }
      var p := FetchBlock(store, mb.parentHash);
      if p.None? {
        assert false; // the panic on a missing parent cannot happen here
      }
      return Some((mb, p.value));
    }

    method OnTransaction(tx: Tx)
      modifies this
      ensures View() == ReceiveTx(old(View()), tx)
    {
      mempool := mempool + [tx];
    }

    method OnCanonicalBlock(time: nat)
      requires canonical != []
      modifies this
      ensures View() == StartRound(old(View()), time)
    {
      var cb := canonical[0];
      var kept := RemoveCommittedTransactions(cb, mempool, store, db);
      if kept.None? {
        faulted := true;
        return;
      }
      canonical := canonical[1..];
      mempool := kept.value;
      rounds := rounds + [Round(cb, time)];
    }

    method OnRoundFired(k: nat)
      requires k < |rounds|
      modifies this, db
      ensures View() == FireRound(old(View()), id, k)
    {
      var r := rounds[k];
      var toInclude := FindNotIncludedTxs(r.canonical, mempool, store, db);
      if toInclude.None? {
        FilledOnPanic(store, old(db.cache), r.canonical);
        faulted := true;
        return;
      }
      rounds := RemoveAt(rounds, k);
      mined := mined + [NewBlock(Some(r.canonical), id, toInclude.value, r.time)];
    }
  }

  function Reversed(s: seq<Block>): seq<Block> {
    seq(|s|, i requires 0 <= i < |s| => s[|s| - 1 - i])
  }
}
