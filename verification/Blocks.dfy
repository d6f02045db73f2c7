/**
 Layer-1 blocks, their hashes and the node's block store
 (integration/ethereummock/mock_blocks.go and db.go).

 Hashes are ideal: the hash of a block is a constructor applied to the block, so it is
 injective and no block can contain its own hash. Operations never look inside a hash;
 only specifications do.
 */
module Blocks {
  import opened Wrappers

  datatype Tx = Tx(hash: nat, body: nat)

  datatype Hash = ZeroHash | Digest(preimage: Block)

  datatype Block = Block(parentHash: Hash, number: nat, miner: nat, txs: seq<Tx>, time: nat)

  function HashOf(b: Block): Hash {
    Digest(b)
  }

  const GENESIS_HEIGHT: nat := 0

  /** A block on top of `parent`, or a block of height zero when there is none. */
  function NewBlock(parent: Option<Block>, miner: nat, txs: seq<Tx>, time: nat): Block {
    match parent
    case None => Block(ZeroHash, GENESIS_HEIGHT, miner, txs, time)
    case Some(p) => Block(HashOf(p), p.number + 1, miner, txs, time)
  }

  const GENESIS: Block := NewBlock(None, 0, [], 0)

  ghost function Parent(b: Block): Block
    requires b.parentHash.Digest?
  {
    b.parentHash.preimage
  }

  /** Every block below and including `b` was built by `NewBlock` on a parent, down to genesis. */
  ghost predicate WellFormed(b: Block) {
    b == GENESIS ||
    (b.parentHash.Digest? && b.number == Parent(b).number + 1 && WellFormed(Parent(b)))
  }

  /** `a` is `b` or one of its ancestors, whoever stores them. */
  ghost predicate OnChain(b: Block, a: Block) {
    a == b || (b.parentHash.Digest? && OnChain(Parent(b), a))
  }

  lemma NewBlockWellFormed(p: Block, miner: nat, txs: seq<Tx>, time: nat)
    requires WellFormed(p)
    ensures
      var b := NewBlock(Some(p), miner, txs, time);
      && WellFormed(b) && b != GENESIS && Parent(b) == p && b.number == p.number + 1
      && b.miner == miner && b.txs == txs && b.time == time
    ensures GENESIS.number == 0 && GENESIS.parentHash == ZeroHash && GENESIS.txs == []
  {
  }

  /** `path` leads from `b` to `a`, each block followed by its parent. */
  ghost predicate IsPath(path: seq<Block>, b: Block, a: Block) {
    && path != [] && path[0] == b && path[|path| - 1] == a
    && forall i :: 0 <= i < |path| - 1 ==> path[i].parentHash == HashOf(path[i + 1])
  }

  lemma PathStep(path: seq<Block>, b: Block, a: Block)
    requires IsPath(path, b, a)
    ensures |path| == 1 ==> a == b
    ensures |path| > 1 ==> path[1] == path[1..][0] && b.parentHash == HashOf(path[1]) && IsPath(path[1..], path[1], a)
  {
    assert |path| > 1 ==> path[0].parentHash == HashOf(path[1]);
  }

  lemma {:induction false} OnChainIsPath(b: Block, a: Block)
    ensures OnChain(b, a) <==> exists path :: IsPath(path, b, a)
  {
    if a == b {
      assert IsPath([b], b, a);
    } else {
      if b.parentHash.Digest? {
        OnChainIsPath(Parent(b), a);
        if OnChain(Parent(b), a) {
          var path :| IsPath(path, Parent(b), a);
          assert IsPath([b] + path, b, a);
        }
      }
      if exists path :: IsPath(path, b, a) {
        var path :| IsPath(path, b, a);
        PathStep(path, b, a);
      }
    }
  }

  lemma {:induction false} OnChainHeight(b: Block, a: Block)
    requires WellFormed(b) && OnChain(b, a)
    ensures WellFormed(a) && a.number <= b.number
    ensures a.number == b.number <==> a == b
    ensures b.number == 0 <==> b == GENESIS
    ensures OnChain(b, GENESIS)
  {
    if b != GENESIS {
      if a == b {
        OnChainHeight(Parent(b), Parent(b));
      } else {
        OnChainHeight(Parent(b), a);
      }
    }
  }

  lemma {:induction false} OnChainTransitive(c: Block, b: Block, a: Block)
    requires OnChain(c, b) && OnChain(b, a)
    ensures OnChain(c, a)
  {
    if c != b {
      OnChainTransitive(Parent(c), b, a);
    }
  }

  // ----- the block store -----

  /** Blocks by hash; every block sits under its own hash. */
  type Store = m: map<Hash, Block> | forall h :: h in m ==> h == HashOf(m[h])

  function FetchBlock(store: Store, h: Hash): Option<Block> {
    if h in store then Some(store[h]) else None
  }

  ghost predicate StoreWellFormed(store: Store) {
    forall h :: h in store ==> WellFormed(store[h])
  }

  /** One can walk from `b` to `a` along parent hashes, every parent being found in the store. */
  ghost predicate Reaches(store: Store, b: Block, a: Block)
    decreases b
  {
    a == b || (b.parentHash in store && Reaches(store, store[b.parentHash], a))
  }

  /** The whole ancestry of `b` is in the store. */
  ghost predicate Rooted(store: Store, b: Block) {
    Reaches(store, b, GENESIS)
  }

  /** A path whose blocks but the first are all stored. */
  ghost predicate StoredPath(store: Store, path: seq<Block>, b: Block, a: Block) {
    IsPath(path, b, a) && forall i :: 0 < i < |path| ==> HashOf(path[i]) in store
  }

  lemma {:induction false} ReachesIsPath(store: Store, b: Block, a: Block)
    ensures Reaches(store, b, a) <==> exists path :: StoredPath(store, path, b, a)
    decreases b
  {
    if a == b {
      assert StoredPath(store, [b], b, a);
    } else {
      if b.parentHash in store {
        var p := store[b.parentHash];
        ReachesIsPath(store, p, a);
        if Reaches(store, p, a) {
          var path :| StoredPath(store, path, p, a);
          assert StoredPath(store, [b] + path, b, a);
        }
      }
      if exists path :: StoredPath(store, path, b, a) {
        var path :| StoredPath(store, path, b, a);
        PathStep(path, b, a);
        assert StoredPath(store, path[1..], path[1], a);
      }
    }
  }

  lemma {:induction false} ReachesOnChain(store: Store, b: Block, a: Block)
    requires Reaches(store, b, a)
    ensures OnChain(b, a)
    decreases b
  {
    if b != a {
      ReachesOnChain(store, store[b.parentHash], a);
    }
  }

  /** In a rooted chain, walking the store finds every ancestor there is. */
  lemma {:induction false} RootedReachesAll(store: Store, b: Block, a: Block)
    requires WellFormed(b) && Rooted(store, b) && OnChain(b, a)
    ensures Reaches(store, b, a) && Rooted(store, a)
    decreases b
  {
    if b != a {
      RootedReachesAll(store, store[b.parentHash], a);
    }
  }

  lemma ReachesHeight(store: Store, b: Block, a: Block)
    requires WellFormed(b) && Reaches(store, b, a)
    ensures WellFormed(a) && a.number <= b.number
    ensures a.number == b.number <==> a == b
    ensures b.number == 0 <==> b == GENESIS
  {
    ReachesOnChain(store, b, a);
    OnChainHeight(b, a);
  }

  lemma {:induction false} ReachesTransitive(store: Store, c: Block, b: Block, a: Block)
    requires Reaches(store, c, b) && Reaches(store, b, a)
    ensures Reaches(store, c, a)
    decreases c
  {
    if c != b {
      ReachesTransitive(store, store[c.parentHash], b, a);
    }
  }

  /** Two blocks on one chain are themselves on one chain. */
  lemma {:induction false} ReachesLinear(store: Store, b: Block, x: Block, y: Block)
    requires WellFormed(b) && Reaches(store, b, x) && Reaches(store, b, y)
    requires y.number <= x.number
    ensures Reaches(store, x, y)
    decreases b
  {
    if b == x {
    } else if b == y {
      ReachesHeight(store, b, x);
    } else {
      ReachesLinear(store, store[b.parentHash], x, y);
    }
  }

  lemma {:induction false} ReachesMonotone(small: Store, big: Store, b: Block, a: Block)
    requires small.Keys <= big.Keys && Reaches(small, b, a)
    ensures Reaches(big, b, a)
    decreases b
  {
    if b != a {
      assert b.parentHash == HashOf(small[b.parentHash]) == HashOf(big[b.parentHash]);
      ReachesMonotone(small, big, small[b.parentHash], a);
    }
  }
}
