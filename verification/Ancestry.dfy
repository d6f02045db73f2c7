/**
 The three ancestor tests of the code base: the height-pruned `IsAncestor`, the mock node's
 `IsBlockAncestor` (both integration/ethereummock/db.go) and the geth client's
 `IsBlockAncestor` (go/ethadapter/geth_rpc_client.go). Each is compared with plain
 reachability along parent hashes.
 */
module Ancestry {
  import opened Wrappers
  import opened Blocks

  function IsAncestor(store: Store, block: Block, maybeAncestor: Block): bool
    decreases block
  {
    if HashOf(maybeAncestor) == HashOf(block) then true
    else if maybeAncestor.number >= block.number then false
    else
      match FetchBlock(store, block.parentHash)
      case None => false
      case Some(p) => IsAncestor(store, p, maybeAncestor)
  }

  function MockIsBlockAncestor(store: Store, block: Block, maybeAncestor: Hash): bool
    decreases block
  {
    if maybeAncestor == HashOf(block) then true
    else if maybeAncestor == HashOf(GENESIS) then true
    else if block.number == GENESIS_HEIGHT then false
    else
      var resolved := FetchBlock(store, maybeAncestor);
      if resolved.Some? && resolved.value.number >= block.number then false
      else
        match FetchBlock(store, block.parentHash)
        case None => false
        case Some(p) => MockIsBlockAncestor(store, p, maybeAncestor)
  }

  /** `Err` is the `logger.Crit` exit on a block the client cannot fetch. */
  function GethIsBlockAncestor(chain: Store, block: Block, maybeAncestor: Hash): Result<bool>
    decreases block
  {
    if maybeAncestor == HashOf(block) || maybeAncestor == ZeroHash then Ok(true)
    else if block.number == GENESIS_HEIGHT then Ok(false)
    else if FetchBlock(chain, maybeAncestor).None? then Err
    else
      match FetchBlock(chain, block.parentHash)
      case None => Err
      case Some(p) => GethIsBlockAncestor(chain, p, maybeAncestor)
  }

  /** The pruned search decides reachability exactly, in any store. */
  lemma {:induction false} IsAncestorIsReachability(store: Store, b: Block, a: Block)
    requires WellFormed(b)
    ensures IsAncestor(store, b, a) <==> Reaches(store, b, a)
    decreases b
  {
    if Reaches(store, b, a) {
      ReachesHeight(store, b, a);
    }
    if a != b && b.parentHash in store {
      IsAncestorIsReachability(store, store[b.parentHash], a);
    }
  }

  /** The mock test answers reachability, except that it takes genesis for everyone's ancestor. */
  lemma {:induction false} MockIsReachability(store: Store, b: Block, h: Hash)
    requires WellFormed(b)
    ensures MockIsBlockAncestor(store, b, h) <==>
            h == HashOf(GENESIS) || (h.Digest? && Reaches(store, b, h.preimage))
    decreases b
  {
    if h.Digest? && Reaches(store, b, h.preimage) {
      ReachesHeight(store, b, h.preimage);
    }
    if h != HashOf(b) && b.parentHash in store {
      MockIsReachability(store, store[b.parentHash], h);
    }
  }

  /** On a rooted block the geth test answers reachability for every hash it can resolve. */
  lemma {:induction false} GethIsReachability(chain: Store, b: Block, h: Hash)
    requires WellFormed(b) && Rooted(chain, b) && h in chain
    ensures GethIsBlockAncestor(chain, b, h) == Ok(Reaches(chain, b, chain[h]))
    decreases b
  {
    if h != HashOf(b) && b != GENESIS {
      GethIsReachability(chain, chain[b.parentHash], h);
    }
  }

  /** For a rooted block the mock's answer is the true ancestor relation. */
  lemma MockIsTrueAncestry(store: Store, b: Block, a: Block)
    requires WellFormed(b) && Rooted(store, b)
    ensures MockIsBlockAncestor(store, b, HashOf(a)) <==> OnChain(b, a)
    ensures IsAncestor(store, b, a) <==> OnChain(b, a)
  {
    MockIsReachability(store, b, HashOf(a));
    IsAncestorIsReachability(store, b, a);
    if OnChain(b, a) {
      RootedReachesAll(store, b, a);
    } else if Reaches(store, b, a) {
      ReachesOnChain(store, b, a);
    }
    ReachesOnChain(store, b, GENESIS);
  }

  /** Exactly when the two implementations give the same answer on a rooted block. */
  lemma MockAndGethAgree(store: Store, b: Block, h: Hash)
    requires WellFormed(b) && Rooted(store, b)
    ensures GethIsBlockAncestor(store, b, h) == Ok(MockIsBlockAncestor(store, b, h)) <==>
            h != ZeroHash && (h in store || h == HashOf(b) || b == GENESIS)
  {
    MockIsReachability(store, b, h);
    if h in store {
      GethIsReachability(store, b, h);
      if h == HashOf(GENESIS) {
        assert store[h] == GENESIS;
      }
    } else if b == GENESIS {
    } else if h == HashOf(GENESIS) {
      RootedStoresGenesis(store, b);
    }
  }

  lemma {:induction false} RootedStoresGenesis(store: Store, b: Block)
    requires Rooted(store, b) && b != GENESIS
    ensures HashOf(GENESIS) in store
    decreases b
  {
    var p := store[b.parentHash];
    if p != GENESIS {
      RootedStoresGenesis(store, p);
    }
  }

  /** The zero hash is an ancestor of every block for geth, and of none for the mock. */
  lemma ZeroHashDiffers(store: Store, b: Block)
    requires WellFormed(b)
    ensures GethIsBlockAncestor(store, b, ZeroHash) == Ok(true) && !MockIsBlockAncestor(store, b, ZeroHash)
  {
    MockIsReachability(store, b, ZeroHash);
  }
}
