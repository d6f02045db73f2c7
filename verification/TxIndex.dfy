/**
 Which transactions a chain already holds: the memoised index, the mempool filter and the
 mempool garbage collection (integration/ethereummock/utils.go and db.go).
 */
module TxIndex {
  import opened Wrappers
  import opened Blocks

  type TxMap = map<nat, Tx>
  type Cache = map<Hash, TxMap>

  const HEIGHT_COMMITTED_BLOCKS: nat := 15

  // ----- what a chain holds -----

  function Indexed(txs: seq<Tx>): TxMap {
    if txs == [] then map[] else Indexed(txs[..|txs| - 1])[txs[|txs| - 1].hash := txs[|txs| - 1]]
  }

  /** The union of the transactions from genesis to `b`, with no cache and no store involved. */
  ghost function Included(b: Block): TxMap {
    if b.parentHash.Digest? then Included(Parent(b)) + Indexed(b.txs) else Indexed(b.txs)
  }

  ghost function ChainTxs(b: Block): seq<Tx> {
    if b.parentHash.Digest? then ChainTxs(Parent(b)) + b.txs else b.txs
  }

  ghost predicate Has(txs: seq<Tx>, h: nat) {
    exists i :: 0 <= i < |txs| && txs[i].hash == h
  }

  ghost predicate Distinct(txs: seq<Tx>) {
    forall i, j :: 0 <= i < j < |txs| ==> txs[i].hash != txs[j].hash
  }

  lemma HasConcat(s: seq<Tx>, t: seq<Tx>, h: nat)
    ensures Has(s + t, h) <==> Has(s, h) || Has(t, h)
  {
    var u := s + t;
    if Has(s, h) {
      var i :| 0 <= i < |s| && s[i].hash == h;
      assert u[i].hash == h;
    }
    if Has(t, h) {
      var i :| 0 <= i < |t| && t[i].hash == h;
      assert u[|s| + i].hash == h;
    }
    if Has(u, h) {
      var i :| 0 <= i < |u| && u[i].hash == h;
      assert if i < |s| then s[i].hash == h else t[i - |s|].hash == h;
    }
  }

  lemma {:induction false} IndexedKeys(txs: seq<Tx>, h: nat)
    ensures h in Indexed(txs) <==> Has(txs, h)
  {
    if txs != [] {
      var init, last := txs[..|txs| - 1], txs[|txs| - 1];
      IndexedKeys(init, h);
      HasConcat(init, [last], h);
      assert txs == init + [last];
      assert Has([last], h) <==> [last][0].hash == h;
    }
  }

  /** The last transaction of the list with hash `h`. */
  ghost predicate IsLast(txs: seq<Tx>, h: nat, t: Tx) {
    exists i :: 0 <= i < |txs| && txs[i] == t && t.hash == h && forall j :: i < j < |txs| ==> txs[j].hash != h
  }

  lemma {:induction false} IndexedIsLast(txs: seq<Tx>, h: nat)
    requires h in Indexed(txs)
    ensures IsLast(txs, h, Indexed(txs)[h])
  {
    var init, last := txs[..|txs| - 1], txs[|txs| - 1];
    if last.hash == h {
      assert txs[|txs| - 1] == last;
    } else {
      IndexedIsLast(init, h);
      var i :| 0 <= i < |init| && init[i] == Indexed(init)[h] && forall j :: i < j < |init| ==> init[j].hash != h;
      assert txs[i] == init[i];
      assert forall j :: i < j < |txs| ==> txs[j].hash != h;
    }
  }

  /** A hash is in the index exactly when some block on the chain carries it. */
  lemma {:induction false} IncludedExactly(b: Block, h: nat)
    ensures h in Included(b) <==> exists a :: OnChain(b, a) && Has(a.txs, h)
    ensures h in Included(b) <==> Has(ChainTxs(b), h)
  {
    IndexedKeys(b.txs, h);
    assert OnChain(b, b);
    if b.parentHash.Digest? {
      var p := Parent(b);
      IncludedExactly(p, h);
      HasConcat(ChainTxs(p), b.txs, h);
      if h in Included(p) {
        var a :| OnChain(p, a) && Has(a.txs, h);
        assert OnChain(b, a);
      }
    }
  }

  lemma {:induction false} IncludedMonotone(b: Block, a: Block)
    requires OnChain(b, a)
    ensures Included(a).Keys <= Included(b).Keys
  {
    if a != b {
      IncludedMonotone(Parent(b), a);
    }
  }

  /** `a` is the last block on the chain of `b` that carries `h`. */
  ghost predicate CarriedLast(b: Block, a: Block, h: nat) {
    OnChain(b, a) && Has(a.txs, h) && forall c :: OnChain(b, c) && c != a && OnChain(c, a) ==> !Has(c.txs, h)
  }

  /** Under a hash sits the transaction of the newest block that carries it, the last one with that hash there. */
  lemma {:induction false} IncludedNewest(b: Block, h: nat)
    requires WellFormed(b) && h in Included(b)
    ensures exists a :: CarriedLast(b, a, h) && IsLast(a.txs, h, Included(b)[h])
  {
    IndexedKeys(b.txs, h);
    if Has(b.txs, h) {
      IndexedIsLast(b.txs, h);
      forall c | OnChain(b, c) && OnChain(c, b)
        ensures c == b
      {
        OnChainHeight(b, c);
        OnChainHeight(c, b);
      }
      assert CarriedLast(b, b, h);
    } else {
      IncludedNewest(Parent(b), h);
      var a :| CarriedLast(Parent(b), a, h) && IsLast(a.txs, h, Included(b)[h]);
      assert CarriedLast(b, a, h);
    }
  }

  /** No hash twice on the chain: not in one block, and not in two blocks of it. */
  ghost predicate ChainDistinct(b: Block) {
    && (forall a :: OnChain(b, a) ==> Distinct(a.txs))
    && (forall a, c, h :: OnChain(b, a) && OnChain(b, c) && Has(a.txs, h) && Has(c.txs, h) ==> a == c)
  }

  lemma {:induction false} ChainTxsDistinct(b: Block)
    requires WellFormed(b)
    ensures Distinct(ChainTxs(b)) <==> ChainDistinct(b)
  {
    if b.parentHash.Digest? {
      var p := Parent(b);
      ChainTxsDistinct(p);
      DistinctConcat(ChainTxs(p), b.txs);
      ChainDistinctStep(b);
      forall h
        ensures Has(ChainTxs(p), h) <==> exists a :: OnChain(p, a) && Has(a.txs, h)
      {
        IncludedExactly(p, h);
      }
    } else {
      assert forall a :: OnChain(b, a) <==> a == b;
    }
  }

  lemma ChainDistinctStep(b: Block)
    requires WellFormed(b) && b.parentHash.Digest?
    ensures ChainDistinct(b) <==>
            ChainDistinct(Parent(b)) && Distinct(b.txs) &&
            forall h :: (exists a :: OnChain(Parent(b), a) && Has(a.txs, h)) ==> !Has(b.txs, h)
  {
    var p := Parent(b);
    forall a | OnChain(p, a)
      ensures a != b
    {
      OnChainHeight(p, a);
    }
    assert forall a :: OnChain(b, a) <==> a == b || OnChain(p, a);
  }

  // ----- the memoised lookup -----

  /** What the lookup returns under a given cache; `None` is its panic on a missing parent. */
  function LookupTxs(store: Store, cache: Cache, b: Block): Option<TxMap>
    decreases b
  {
    if HashOf(b) in cache then Some(cache[HashOf(b)])
    else if b.number == GENESIS_HEIGHT then Some(Indexed(b.txs))
    else
      match FetchBlock(store, b.parentHash)
      case None => None
      case Some(p) =>
        match LookupTxs(store, cache, p)
        case None => None
        case Some(m) => Some(m + Indexed(b.txs))
  }

  /** The cache after the lookup: one entry for each block walked, none if it panics. */
  function Filled(store: Store, cache: Cache, b: Block): Cache
    decreases b
  {
    if HashOf(b) in cache || b.number == GENESIS_HEIGHT || LookupTxs(store, cache, b).None? then cache
    else Filled(store, cache, store[b.parentHash])[HashOf(b) := LookupTxs(store, cache, b).value]
  }

  /** Every entry equals the plain union. */
  ghost predicate CacheCorrect(cache: Cache) {
    forall h :: h in cache ==> h.Digest? && WellFormed(h.preimage) && cache[h] == Included(h.preimage)
  }

  /** The memo refines the plain union, and keeps the cache correct. */
  lemma {:induction false} MemoRefinesUnion(store: Store, cache: Cache, b: Block)
    requires CacheCorrect(cache) && WellFormed(b)
    ensures LookupTxs(store, cache, b).Some? ==> LookupTxs(store, cache, b).value == Included(b)
    ensures CacheCorrect(Filled(store, cache, b))
    ensures Rooted(store, b) ==> LookupTxs(store, cache, b).Some?
    decreases b
  {
    OnChainHeight(b, b);
    if HashOf(b) !in cache && b != GENESIS && b.parentHash in store {
      MemoRefinesUnion(store, cache, store[b.parentHash]);
    }
  }

  /** The lookup panics exactly when it meets a missing parent before a cached block. */
  lemma {:induction false} LookupPanicsExactly(store: Store, cache: Cache, b: Block)
    requires WellFormed(b)
    ensures LookupTxs(store, cache, b).Some? <==>
            exists a :: Reaches(store, b, a) && (HashOf(a) in cache || a == GENESIS)
    decreases b
  {
    OnChainHeight(b, b);
    if HashOf(b) in cache || b == GENESIS {
      assert Reaches(store, b, b);
    } else {
      if b.parentHash in store {
        var p := store[b.parentHash];
        LookupPanicsExactly(store, cache, p);
        if LookupTxs(store, cache, p).Some? {
          var a :| Reaches(store, p, a) && (HashOf(a) in cache || a == GENESIS);
          assert Reaches(store, b, a);
        }
      }
      if exists a :: Reaches(store, b, a) && (HashOf(a) in cache || a == GENESIS) {
        var a :| Reaches(store, b, a) && (HashOf(a) in cache || a == GENESIS);
        assert b.parentHash in store && Reaches(store, store[b.parentHash], a);
      }
    }
  }

  /** The walk from `b` gets to `a`, above genesis, and no block from `b` down to `a` has an entry. */
  ghost predicate Walked(store: Store, cache: Cache, b: Block, a: Block) {
    && Reaches(store, b, a) && a.number != GENESIS_HEIGHT
    && forall c :: Reaches(store, b, c) && Reaches(store, c, a) ==> HashOf(c) !in cache
  }

  lemma WalkedStep(store: Store, cache: Cache, b: Block, a: Block)
    requires WellFormed(b) && HashOf(b) !in cache && b.number != GENESIS_HEIGHT && b.parentHash in store
    ensures Walked(store, cache, b, a) <==> a == b || Walked(store, cache, store[b.parentHash], a)
  {
    var p := store[b.parentHash];
    forall c | Reaches(store, b, c) && Reaches(store, c, b)
      ensures c == b
    {
      ReachesHeight(store, b, c);
      ReachesHeight(store, c, b);
    }
    assert forall c :: Reaches(store, b, c) <==> c == b || Reaches(store, p, c);
  }

  /**
   The entries after a lookup: those from before, as they were, and, unless it panics, one for each
   block walked above genesis down to the first that had an entry, holding what is included there.
   */
  lemma {:induction false} FilledExactly(store: Store, cache: Cache, b: Block, a: Block)
    requires WellFormed(b)
    ensures HashOf(a) in Filled(store, cache, b) <==>
            HashOf(a) in cache || (LookupTxs(store, cache, b).Some? && Walked(store, cache, b, a))
    ensures HashOf(a) in cache ==> Filled(store, cache, b)[HashOf(a)] == cache[HashOf(a)]
    ensures HashOf(a) in Filled(store, cache, b) && HashOf(a) !in cache ==>
            LookupTxs(store, cache, a) == Some(Filled(store, cache, b)[HashOf(a)])
    decreases b
  {
    OnChainHeight(b, b);
    if HashOf(b) in cache {
      assert Reaches(store, b, b);
    } else if b.number == GENESIS_HEIGHT {
      if Reaches(store, b, a) {
        ReachesHeight(store, b, a);
      }
    } else if LookupTxs(store, cache, b).Some? {
      FilledExactly(store, cache, store[b.parentHash], a);
      WalkedStep(store, cache, b, a);
    }
  }

  // ----- filtering a mempool -----

  /** The transactions whose hash is not in `keys`, in order. */
  function Without(base: seq<Tx>, keys: set<nat>): seq<Tx> {
    if base == [] then []
    else
      var last := base[|base| - 1];
      Without(base[..|base| - 1], keys) + (if last.hash in keys then [] else [last])
  }

  lemma {:induction false} WithoutMembers(base: seq<Tx>, keys: set<nat>, t: Tx)
    ensures t in Without(base, keys) <==> t in base && t.hash !in keys
  {
    if base != [] {
      WithoutMembers(base[..|base| - 1], keys, t);
      assert base == base[..|base| - 1] + [base[|base| - 1]];
    }
  }

  lemma {:induction false} WithoutTwice(base: seq<Tx>, a: set<nat>, b: set<nat>)
    ensures Without(Without(base, a), b) == Without(base, a + b)
  {
    if base != [] {
      var init, last := base[..|base| - 1], base[|base| - 1];
      WithoutTwice(init, a, b);
      var kept := Without(base, a);
      if last.hash in a {
        assert kept == Without(init, a);
      } else {
        assert kept[..|kept| - 1] == Without(init, a);
      }
    }
  }

  /** A larger filter gives the same list exactly when it drops nothing more. */
  lemma WithoutSame(base: seq<Tx>, a: set<nat>, b: set<nat>)
    requires a <= b
    ensures Without(base, a) == Without(base, b) <==> forall t :: t in base && t.hash in b ==> t.hash in a
  {
    if Without(base, a) == Without(base, b) {
      forall t | t in base && t.hash in b
        ensures t.hash in a
      {
        WithoutMembers(base, a, t);
        WithoutMembers(base, b, t);
      }
    }
    if forall t :: t in base && t.hash in b ==> t.hash in a {
      WithoutAgree(base, a, b);
    }
  }

  lemma {:induction false} WithoutAgree(base: seq<Tx>, a: set<nat>, b: set<nat>)
    requires forall t :: t in base ==> (t.hash in a <==> t.hash in b)
    ensures Without(base, a) == Without(base, b)
  {
    if base != [] {
      WithoutAgree(base[..|base| - 1], a, b);
    }
  }

  /** What a mining round on `head` puts into its block; `None` is the lookup's panic. */
  function NotIncluded(store: Store, cache: Cache, head: Block, txs: seq<Tx>): Option<seq<Tx>> {
    match LookupTxs(store, cache, head)
    case None => None
    case Some(m) => Some(Without(txs, m.Keys))
  }

  lemma DistinctConcat(s: seq<Tx>, t: seq<Tx>)
    ensures Distinct(s + t) <==> Distinct(s) && Distinct(t) && forall h :: Has(s, h) ==> !Has(t, h)
  {
    var u := s + t;
    assert forall i :: 0 <= i < |s| ==> u[i] == s[i];
    assert forall i :: |s| <= i < |u| ==> u[i] == t[i - |s|];
    if Distinct(u) {
      forall i, j | 0 <= i < j < |t|
        ensures t[i].hash != t[j].hash
      {
        assert u[|s| + i].hash != u[|s| + j].hash;
      }
      forall h | Has(s, h)
        ensures !Has(t, h)
      {
        var i :| 0 <= i < |s| && s[i].hash == h;
        forall j | 0 <= j < |t|
          ensures t[j].hash != h
        {
          assert u[i].hash != u[|s| + j].hash;
        }
      }
    } else {
      var i, j :| 0 <= i < j < |u| && u[i].hash == u[j].hash;
      assert i < |s| ==> Has(s, s[i].hash);
      assert |s| <= j ==> Has(t, t[j - |s|].hash);
    }
  }

  /** Every hash that occurs twice in the list is one of `keys`. */
  ghost predicate RepeatsOnly(txs: seq<Tx>, keys: set<nat>) {
    forall i, j :: 0 <= i < j < |txs| && txs[i].hash == txs[j].hash ==> txs[i].hash in keys
  }

  lemma RepeatsOnlyAppend(init: seq<Tx>, last: Tx, keys: set<nat>)
    ensures RepeatsOnly(init + [last], keys) <==> RepeatsOnly(init, keys) && (last.hash in keys || !Has(init, last.hash))
  {
    var all := init + [last];
    assert forall i :: 0 <= i < |init| ==> all[i] == init[i];
    if RepeatsOnly(all, keys) {
      forall i, j | 0 <= i < j < |init| && init[i].hash == init[j].hash
        ensures init[i].hash in keys
      {
        assert all[i].hash == all[j].hash;
      }
      if Has(init, last.hash) {
        var i :| 0 <= i < |init| && init[i].hash == last.hash;
        assert all[i].hash == all[|init|].hash;
      }
    } else if RepeatsOnly(init, keys) {
      var i, j :| 0 <= i < j < |all| && all[i].hash == all[j].hash && all[i].hash !in keys;
      assert j == |init|;
      assert init[i].hash == last.hash;
    }
  }

  /** What the filter keeps has distinct hashes exactly when only filtered hashes repeat. */
  lemma {:induction false} WithoutDistinctExactly(base: seq<Tx>, keys: set<nat>)
    ensures Distinct(Without(base, keys)) <==> RepeatsOnly(base, keys)
  {
    if base != [] {
      var init, last := base[..|base| - 1], base[|base| - 1];
      WithoutDistinctExactly(init, keys);
      assert base == init + [last];
      RepeatsOnlyAppend(init, last, keys);
      var kept := Without(init, keys);
      if last.hash in keys {
        assert Without(base, keys) == kept;
      } else {
        DistinctConcat(kept, [last]);
        OneHash(last);
        WithoutHas(init, keys, last.hash);
      }
    }
  }

  lemma OneHash(t: Tx)
    ensures Distinct([t]) && forall h :: Has([t], h) <==> h == t.hash
  {
    assert [t][0].hash == t.hash;
  }

  lemma WithoutHas(base: seq<Tx>, keys: set<nat>, h: nat)
    requires h !in keys
    ensures Has(Without(base, keys), h) <==> Has(base, h)
  {
    var kept := Without(base, keys);
    if Has(kept, h) {
      var i :| 0 <= i < |kept| && kept[i].hash == h;
      WithoutMembers(base, keys, kept[i]);
      var k :| 0 <= k < |base| && base[k] == kept[i];
    }
    if Has(base, h) {
      var i :| 0 <= i < |base| && base[i].hash == h;
      WithoutMembers(base, keys, base[i]);
      var k :| 0 <= k < |kept| && kept[k] == base[i];
    }
  }

  /**
   A block mined on a chain that repeats no transaction keeps that so exactly when the mempool
   repeats only hashes the chain already holds.
   */
  lemma MinedBlockRepeatsNothing(p: Block, miner: nat, mempool: seq<Tx>, time: nat)
    requires Distinct(ChainTxs(p))
    ensures
      var taken := Without(mempool, Included(p).Keys);
      Distinct(ChainTxs(NewBlock(Some(p), miner, taken, time))) <==> RepeatsOnly(mempool, Included(p).Keys)
  {
    var taken := Without(mempool, Included(p).Keys);
    DistinctConcat(ChainTxs(p), taken);
    WithoutDistinctExactly(mempool, Included(p).Keys);
    forall h | Has(ChainTxs(p), h)
      ensures !Has(taken, h)
    {
      IncludedExactly(p, h);
      if Has(taken, h) {
        var i :| 0 <= i < |taken| && taken[i].hash == h;
        WithoutMembers(mempool, Included(p).Keys, taken[i]);
      }
    }
  }

  /** The filter does not look for duplicates: any mempool that holds a new hash twice gets it mined twice. */
  lemma DuplicateIsMinedTwice(p: Block, miner: nat, mempool: seq<Tx>, i: nat, j: nat, time: nat)
    requires i < j < |mempool| && mempool[i].hash == mempool[j].hash && mempool[i].hash !in Included(p)
    ensures
      var taken := Without(mempool, Included(p).Keys);
      && !Distinct(taken)
      && !Distinct(ChainTxs(NewBlock(Some(p), miner, taken, time)))
  {
    var taken := Without(mempool, Included(p).Keys);
    WithoutDistinctExactly(mempool, Included(p).Keys);
    DistinctConcat(ChainTxs(p), taken);
  }

  // ----- mempool garbage collection -----

  /** The `k`-th parent of `b`, walking the store. */
  function Down(store: Store, b: Block, k: nat): Option<Block> {
    if k == 0 then Some(b)
    else
      match FetchBlock(store, b.parentHash)
      case None => None
      case Some(p) => Down(store, p, k - 1)
  }

  function CachedKeys(cache: Cache, b: Block): set<nat> {
    if HashOf(b) in cache then cache[HashOf(b)].Keys else {}
  }

  /** The mempool after a new canonical block `cb`; `None` is the `logger.Crit` exit. */
  function WithoutCommitted(store: Store, cache: Cache, cb: Block, mempool: seq<Tx>): Option<seq<Tx>> {
    if cb.number <= HEIGHT_COMMITTED_BLOCKS then Some(mempool)
    else
      match Down(store, cb, HEIGHT_COMMITTED_BLOCKS)
      case None => None
      case Some(deep) => Some(Without(mempool, CachedKeys(cache, deep)))
  }

  lemma {:induction false} DownRooted(store: Store, b: Block, k: nat)
    requires WellFormed(b) && Rooted(store, b) && k <= b.number
    ensures Down(store, b, k).Some?
    ensures
      var d := Down(store, b, k).value;
      OnChain(b, d) && d.number == b.number - k && WellFormed(d) && Rooted(store, d)
  {
    OnChainHeight(b, b);
    if k != 0 {
      DownRooted(store, store[b.parentHash], k - 1);
    }
  }

  /** The walk finds the block that is `k` below in the store, and fails exactly when there is none to be reached. */
  lemma {:induction false} DownExactly(store: Store, b: Block, k: nat, d: Block)
    requires WellFormed(b)
    ensures Down(store, b, k) == Some(d) <==> Reaches(store, b, d) && d.number + k == b.number
  {
    OnChainHeight(b, b);
    if k != 0 {
      if Reaches(store, b, d) {
        ReachesHeight(store, b, d);
      }
      if b.parentHash in store {
        DownExactly(store, store[b.parentHash], k - 1, d);
      }
    } else if Reaches(store, b, d) {
      ReachesHeight(store, b, d);
    }
  }

  /** Collecting exits exactly when the block fifteen below cannot be reached. */
  lemma GcExitsExactly(store: Store, cache: Cache, cb: Block, mempool: seq<Tx>)
    requires WellFormed(cb)
    ensures WithoutCommitted(store, cache, cb, mempool).None? <==>
            cb.number > 15 && forall d :: Reaches(store, cb, d) ==> d.number + 15 != cb.number
  {
    forall d
      ensures Down(store, cb, HEIGHT_COMMITTED_BLOCKS) == Some(d) <==>
              Reaches(store, cb, d) && d.number + HEIGHT_COMMITTED_BLOCKS == cb.number
    {
      DownExactly(store, cb, HEIGHT_COMMITTED_BLOCKS, d);
    }
    if Down(store, cb, HEIGHT_COMMITTED_BLOCKS).Some? {
      var d := Down(store, cb, HEIGHT_COMMITTED_BLOCKS).value;
      assert Reaches(store, cb, d);
    }
  }

  /** `d` is the block fifteen below `cb`. */
  ghost predicate IsDeep(cb: Block, d: Block) {
    OnChain(cb, d) && d.number + HEIGHT_COMMITTED_BLOCKS == cb.number
  }

  /** There is one block of each height on a chain. */
  lemma DeepIsDown(store: Store, cb: Block, d: Block)
    requires WellFormed(cb) && Rooted(store, cb) && IsDeep(cb, d)
    ensures Down(store, cb, HEIGHT_COMMITTED_BLOCKS) == Some(d)
  {
    DownRooted(store, cb, HEIGHT_COMMITTED_BLOCKS);
    var down := Down(store, cb, HEIGHT_COMMITTED_BLOCKS).value;
    RootedReachesAll(store, cb, d);
    RootedReachesAll(store, cb, down);
    OnChainHeight(cb, d);
    ReachesLinear(store, cb, d, down);
    ReachesHeight(store, d, down);
  }

  /**
   Collecting garbage on a connected block never fails, adds nothing, and drops a transaction
   exactly when the block fifteen below has a cache entry and the transaction is on the chain up
   to that block: at that depth or anywhere deeper.
   */
  lemma GcDropsExactly(store: Store, cache: Cache, cb: Block, mempool: seq<Tx>, t: Tx)
    requires CacheCorrect(cache) && WellFormed(cb) && Rooted(store, cb)
    ensures WithoutCommitted(store, cache, cb, mempool).Some?
    ensures t in WithoutCommitted(store, cache, cb, mempool).value ==> t in mempool
    ensures t in mempool ==>
      (t !in WithoutCommitted(store, cache, cb, mempool).value <==>
       cb.number > HEIGHT_COMMITTED_BLOCKS && exists d :: IsDeep(cb, d) && HashOf(d) in cache && t.hash in Included(d))
  {
    if cb.number > HEIGHT_COMMITTED_BLOCKS {
      DownRooted(store, cb, HEIGHT_COMMITTED_BLOCKS);
      var deep := Down(store, cb, HEIGHT_COMMITTED_BLOCKS).value;
      WithoutMembers(mempool, CachedKeys(cache, deep), t);
      assert IsDeep(cb, deep);
      forall d | IsDeep(cb, d)
        ensures d == deep
      {
        DeepIsDown(store, cb, d);
      }
    }
  }

  /** The list that is left: the mempool in its order, without what the chain holds up to the cached block fifteen below. */
  lemma GcKeepsOrder(store: Store, cache: Cache, cb: Block, mempool: seq<Tx>)
    requires CacheCorrect(cache) && WellFormed(cb) && Rooted(store, cb)
    ensures cb.number <= 15 ==> WithoutCommitted(store, cache, cb, mempool) == Some(mempool)
    ensures cb.number > 15 ==> forall d :: IsDeep(cb, d) ==>
      WithoutCommitted(store, cache, cb, mempool) ==
        Some(if HashOf(d) in cache then Without(mempool, Included(d).Keys) else mempool)
  {
    if cb.number > 15 {
      forall d | IsDeep(cb, d)
        ensures WithoutCommitted(store, cache, cb, mempool) ==
                  Some(if HashOf(d) in cache then Without(mempool, Included(d).Keys) else mempool)
      {
        DeepIsDown(store, cb, d);
        WithoutNothing(mempool);
      }
    }
  }

  lemma {:induction false} WithoutNothing(base: seq<Tx>)
    ensures Without(base, {}) == base
  {
    if base != [] {
      WithoutNothing(base[..|base| - 1]);
    }
  }

  /** What is dropped is carried by a block at least fifteen below. */
  lemma GcDropsOnlyDeep(store: Store, cache: Cache, cb: Block, mempool: seq<Tx>, t: Tx)
    requires CacheCorrect(cache) && WellFormed(cb) && Rooted(store, cb)
    requires WithoutCommitted(store, cache, cb, mempool).Some?
    requires t in mempool && t !in WithoutCommitted(store, cache, cb, mempool).value
    ensures exists a :: OnChain(cb, a) && a.number + HEIGHT_COMMITTED_BLOCKS <= cb.number && Has(a.txs, t.hash)
  {
    GcDropsExactly(store, cache, cb, mempool, t);
    var d :| IsDeep(cb, d) && HashOf(d) in cache && t.hash in Included(d);
    IncludedExactly(d, t.hash);
    var a :| OnChain(d, a) && Has(a.txs, t.hash);
    OnChainTransitive(cb, d, a);
    OnChainHeight(cb, d);
    OnChainHeight(d, a);
  }

  // A chain of `k` blocks whose first block carries `t`, and the store that holds it.

  ghost function Tower(t: Tx, k: nat): Block {
    if k == 0 then GENESIS else NewBlock(Some(Tower(t, k - 1)), 0, if k == 1 then [t] else [], 0)
  }

  ghost function TowerStore(t: Tx, k: nat): Store {
    var b := Tower(t, k);
    if k == 0 then map[HashOf(b) := b] else TowerStore(t, k - 1)[HashOf(b) := b]
  }

  lemma {:induction false} TowerRooted(t: Tx, k: nat)
    ensures WellFormed(Tower(t, k)) && Tower(t, k).number == k && HashOf(Tower(t, k)) in TowerStore(t, k)
    ensures Rooted(TowerStore(t, k), Tower(t, k))
  {
    if k != 0 {
      TowerRooted(t, k - 1);
      ReachesMonotone(TowerStore(t, k - 1), TowerStore(t, k), Tower(t, k - 1), GENESIS);
      assert TowerStore(t, k)[Tower(t, k).parentHash] == Tower(t, k - 1);
    }
  }

  lemma {:induction false} TowerOnChain(t: Tx, k: nat, j: nat)
    requires j <= k
    ensures OnChain(Tower(t, k), Tower(t, j))
  {
    if j < k {
      TowerOnChain(t, k - 1, j);
    }
  }

  lemma TowerIncludes(t: Tx, k: nat)
    requires k >= 1
    ensures Has(Tower(t, 1).txs, t.hash) && t.hash in Included(Tower(t, k))
  {
    TowerOnChain(t, k, 1);
    assert Tower(t, 1).txs[0].hash == t.hash;
    IncludedExactly(Tower(t, k), t.hash);
  }

  /**
   Not "exactly fifteen deep": on a chain of seventeen blocks, a transaction that is sixteen
   deep is dropped when block two has a cache entry, and kept when it has none.
   */
  lemma GcIsNotByDepthAlone(t: Tx)
    ensures
      var cb, store := Tower(t, 17), TowerStore(t, 17);
      var cached := map[HashOf(Tower(t, 2)) := Included(Tower(t, 2))];
      && cb.number - Tower(t, 1).number == 16 && Has(Tower(t, 1).txs, t.hash)
      && WithoutCommitted(store, cached, cb, [t]) == Some([])
      && WithoutCommitted(store, map[], cb, [t]) == Some([t])
  {
    var cb, store := Tower(t, 17), TowerStore(t, 17);
    TowerRooted(t, 17);
    TowerRooted(t, 2);
    TowerRooted(t, 1);
    TowerOnChain(t, 17, 2);
    TowerIncludes(t, 2);
    DeepIsDown(store, cb, Tower(t, 2));
    OneTransaction(t, Included(Tower(t, 2)).Keys);
    OneTransaction(t, {});
  }

  lemma OneTransaction(t: Tx, keys: set<nat>)
    ensures Without([t], keys) == if t.hash in keys then [] else [t]
  {
    assert [t][..0] == [];
    assert Without([], keys) == [];
  }

  lemma {:induction false} WithoutConcat(s: seq<Tx>, t: seq<Tx>, keys: set<nat>)
    ensures Without(s + t, keys) == Without(s, keys) + Without(t, keys)
  {
    if t == [] {
      assert s + t == s;
    } else {
      WithoutConcat(s, t[..|t| - 1], keys);
      assert (s + t)[..|s + t| - 1] == s + t[..|t| - 1];
    }
  }

  /**
   Garbage collection cannot be seen by a mining round that fires later, whatever has been stored,
   cached and gossiped in between: on any head that keeps the deep ancestor the round takes the
   same transactions from the collected mempool as from the full one. On any other head the two
   differ exactly when a collected transaction is not on it.
   */
  lemma GcInvisible(store: Store, cache: Cache, cb: Block, mempool: seq<Tx>,
                    later: Store, laterCache: Cache, head: Block, more: seq<Tx>)
    requires CacheCorrect(cache) && WellFormed(cb) && Rooted(store, cb)
    requires cb.number > HEIGHT_COMMITTED_BLOCKS
    requires CacheCorrect(laterCache) && WellFormed(head) && Rooted(later, head)
    ensures WithoutCommitted(store, cache, cb, mempool).Some? && Down(store, cb, HEIGHT_COMMITTED_BLOCKS).Some?
    ensures
      var deep := Down(store, cb, HEIGHT_COMMITTED_BLOCKS).value;
      var collected := WithoutCommitted(store, cache, cb, mempool).value;
      var same := NotIncluded(later, laterCache, head, collected + more) == NotIncluded(later, laterCache, head, mempool + more);
      && NotIncluded(later, laterCache, head, mempool + more).Some?
      && (OnChain(head, deep) ==> same)
      && (same <==> forall t :: t in mempool && t.hash in CachedKeys(cache, deep) ==> t.hash in Included(head))
  {
    DownRooted(store, cb, HEIGHT_COMMITTED_BLOCKS);
    var deep := Down(store, cb, HEIGHT_COMMITTED_BLOCKS).value;
    MemoRefinesUnion(later, laterCache, head);
    CollectedTakesSame(mempool, CachedKeys(cache, deep), Included(head).Keys, more);
    if OnChain(head, deep) {
      IncludedMonotone(head, deep);
    }
  }

  lemma CollectedTakesSame(mempool: seq<Tx>, gone: set<nat>, onHead: set<nat>, more: seq<Tx>)
    ensures Without(Without(mempool, gone) + more, onHead) == Without(mempool + more, onHead) <==>
            forall t :: t in mempool && t.hash in gone ==> t.hash in onHead
  {
    WithoutConcat(Without(mempool, gone), more, onHead);
    WithoutConcat(mempool, more, onHead);
    WithoutTwice(mempool, gone, onHead);
    WithoutSame(mempool, onHead, gone + onHead);
    SameSuffix(Without(mempool, gone + onHead), Without(mempool, onHead), Without(more, onHead));
  }

  lemma SameSuffix(a: seq<Tx>, b: seq<Tx>, c: seq<Tx>)
    ensures a + c == b + c <==> a == b
  {
    if a + c == b + c {
      assert |a + c| == |b + c|;
      assert a == (a + c)[..|a|] && b == (b + c)[..|b|];
    }
  }

  // ----- the code -----

  /** The cache of included transactions. */
  class TxDB {
    var cache: Cache

    constructor ()
      ensures cache == map[]
    {
      cache := map[];
    }

    method Txs(b: Block) returns (val: TxMap, found: bool)
      ensures found <==> HashOf(b) in cache
      ensures val == if found then cache[HashOf(b)] else map[]
    {
      found := HashOf(b) in cache;
      val := if found then cache[HashOf(b)] else map[];
    }

    method AddTxs(b: Block, newMap: TxMap)
      modifies this
      ensures cache == old(cache)[HashOf(b) := newMap]
    {
      cache := cache[HashOf(b) := newMap];
    }
  }

  /** Each hash of the list, with the last transaction that has it. */
  method MakeMap(txs: seq<Tx>) returns (m: TxMap)
    ensures m == Indexed(txs)
    ensures forall h :: h in m <==> Has(txs, h)
    ensures forall h :: h in m ==> IsLast(txs, h, m[h])
  {
    m := map[];
    for i := 0 to |txs|
      invariant m == Indexed(txs[..i])
    {
      m := m[txs[i].hash := txs[i]];
      assert txs[..i + 1][..i] == txs[..i];
    }
    assert txs[..|txs|] == txs;
    forall h ensures h in m <==> Has(txs, h) { IndexedKeys(txs, h); }
    forall h | h in m ensures IsLast(txs, h, m[h]) { IndexedIsLast(txs, h); }
  }

  method RemoveExisting(base: seq<Tx>, toRemove: TxMap) returns (r: seq<Tx>)
    ensures r == Without(base, toRemove.Keys)
  {
    r := [];
    for i := 0 to |base|
      invariant r == Without(base[..i], toRemove.Keys)
    {
      assert base[..i + 1][..i] == base[..i];
      if base[i].hash !in toRemove {
        r := r + [base[i]];
      }
    }
    assert base[..|base|] == base;
  }

  /** `None` is the panic on a missing parent. */
  method AllIncludedTransactions(b: Block, store: Store, db: TxDB) returns (r: Option<TxMap>)
    modifies db
    ensures r == LookupTxs(store, old(db.cache), b)
    ensures db.cache == Filled(store, old(db.cache), b)
    ensures r.Some? && b.number != GENESIS_HEIGHT ==> HashOf(b) in db.cache && db.cache[HashOf(b)] == r.value
    ensures r.None? ==> db.cache == old(db.cache)
    decreases b
  {
    var val, found := db.Txs(b);
    if found {
      return Some(val);
    }
    if b.number == GENESIS_HEIGHT {
      var m := MakeMap(b.txs);
      return Some(m);
    }
    var p := FetchBlock(store, b.parentHash);
    if p.None? {
      return None;
    }
    var below := AllIncludedTransactions(p.value, store, db);
    if below.None? {
      FilledOnPanic(store, old(db.cache), p.value);
      return None;
    }
    var newMap := below.value;
    for i := 0 to |b.txs|
      invariant newMap == below.value + Indexed(b.txs[..i])
      invariant db.cache == Filled(store, old(db.cache), p.value)
    {
      newMap := newMap[b.txs[i].hash := b.txs[i]];
      assert b.txs[..i + 1][..i] == b.txs[..i];
    }
    assert b.txs[..|b.txs|] == b.txs;
    db.AddTxs(b, newMap);
    return Some(newMap);
  }

  lemma FilledOnPanic(store: Store, cache: Cache, b: Block)
    requires LookupTxs(store, cache, b).None?
    ensures Filled(store, cache, b) == cache
  {
  }

  method FindNotIncludedTxs(head: Block, txs: seq<Tx>, store: Store, db: TxDB) returns (r: Option<seq<Tx>>)
    modifies db
    ensures r == NotIncluded(store, old(db.cache), head, txs)
    ensures db.cache == Filled(store, old(db.cache), head)
    ensures r.Some? && head.number != GENESIS_HEIGHT ==> HashOf(head) in db.cache
    ensures r.Some? && WellFormed(head) && CacheCorrect(old(db.cache)) ==> r == Some(Without(txs, Included(head).Keys))
  {
    if WellFormed(head) && CacheCorrect(db.cache) {
      MemoRefinesUnion(store, db.cache, head);
    }
    var included := AllIncludedTransactions(head, store, db);
    if included.None? {
      return None;
    }
    var kept := RemoveExisting(txs, included.value);
    return Some(kept);
  }

  /** `None` is the `logger.Crit` exit on a missing parent. */
  method RemoveCommittedTransactions(cb: Block, mempool: seq<Tx>, store: Store, db: TxDB)
    returns (r: Option<seq<Tx>>)
    ensures r == WithoutCommitted(store, db.cache, cb, mempool)
  {
    if cb.number <= HEIGHT_COMMITTED_BLOCKS {
      return Some(mempool);
    }
    var b, i := cb, 0;
    while i != HEIGHT_COMMITTED_BLOCKS
      invariant i <= HEIGHT_COMMITTED_BLOCKS
      invariant Down(store, cb, HEIGHT_COMMITTED_BLOCKS) == Down(store, b, HEIGHT_COMMITTED_BLOCKS - i)
      decreases HEIGHT_COMMITTED_BLOCKS - i
    {
      var p := FetchBlock(store, b.parentHash);
      if p.None? {
        return None;
      }
      b := p.value;
      i := i + 1;
    }
    var val, _ := db.Txs(b);
    var kept := RemoveExisting(mempool, val);
    assert val.Keys == CachedKeys(db.cache, b);
    return Some(kept);
  }
}
