/**
 The latest common ancestor search and the two paths it reports
 (integration/ethereummock/gethutil.go, `ChainFork` in go/common/types.go).
 */
module Lca {
  import opened Wrappers
  import opened Blocks

  datatype ChainFork = ChainFork(
    newCanonical: Block,
    oldCanonical: Block,
    commonAncestor: Block,
    canonicalPath: seq<Hash>,
    nonCanonicalPath: seq<Hash>)
  {
    predicate IsFork() {
      |nonCanonicalPath| > 0
    }
  }

  datatype Walk = Walk(ancestor: Block, canonical: seq<Hash>, nonCanonical: seq<Hash>)

  function InternalLCA(store: Store, newB: Block, oldB: Block, cp: seq<Hash>, ncp: seq<Hash>): Result<Walk>
    decreases newB, oldB
  {
    if newB.number == GENESIS_HEIGHT || oldB.number == GENESIS_HEIGHT then Ok(Walk(newB, cp, ncp))
    else if HashOf(newB) == HashOf(oldB) then Ok(Walk(newB, cp + [HashOf(newB)], ncp))
    else if newB.number > oldB.number then
      match FetchBlock(store, newB.parentHash)
      case None => Err
      case Some(p) => InternalLCA(store, p, oldB, cp + [HashOf(newB)], ncp)
    else if oldB.number > newB.number then
      match FetchBlock(store, oldB.parentHash)
      case None => Err
      case Some(p) => InternalLCA(store, newB, p, cp, ncp + [HashOf(oldB)])
    else
      match FetchBlock(store, newB.parentHash)
      case None => Err
      case Some(pa) =>
        match FetchBlock(store, oldB.parentHash)
        case None => Err
        case Some(pb) => InternalLCA(store, pa, pb, cp + [HashOf(newB)], ncp + [HashOf(oldB)])
  }

  function LCA(store: Store, newB: Block, oldB: Block): Result<ChainFork> {
    match InternalLCA(store, newB, oldB, [], [])
    case Err => Err
    case Ok(w) => Ok(ChainFork(newB, oldB, w.ancestor, w.canonical, w.nonCanonical))
  }

  // ----- what it should compute -----

  ghost predicate Common(store: Store, a: Block, b: Block, y: Block) {
    Reaches(store, a, y) && Reaches(store, b, y)
  }

  /** `x` is on both chains, and every block on both chains is below `x`. */
  ghost predicate IsLatestCommon(store: Store, x: Block, a: Block, b: Block) {
    Common(store, a, b, x) && forall y :: Common(store, a, b, y) ==> Reaches(store, x, y)
  }

  /** The hashes met on the way from `b` down to `x`, without `x`. */
  ghost function PathAbove(store: Store, b: Block, x: Block): seq<Hash>
    requires Reaches(store, b, x)
    decreases b
  {
    if b == x then [] else [HashOf(b)] + PathAbove(store, store[b.parentHash], x)
  }

  ghost function CanonicalTail(x: Block): seq<Hash> {
    if x == GENESIS then [] else [HashOf(x)]
  }

  /** Each hash is that of a block whose parent hash comes next. */
  ghost predicate HashChain(hs: seq<Hash>) {
    forall i :: 0 <= i < |hs| - 1 ==> hs[i].Digest? && hs[i].preimage.parentHash == hs[i + 1]
  }

  lemma HashChainPrefix(hs: seq<Hash>, h: Hash)
    requires HashChain(hs + [h])
    ensures HashChain(hs)
  {
    assert forall i :: 0 <= i < |hs| ==> (hs + [h])[i] == hs[i];
  }

  /** A path down from `b` is as long as the height difference and links hash to parent hash. */
  lemma {:induction false} PathAboveShape(store: Store, b: Block, x: Block)
    requires WellFormed(b) && Reaches(store, b, x)
    ensures |PathAbove(store, b, x)| == b.number - x.number
    ensures HashChain(PathAbove(store, b, x) + [HashOf(x)])
    ensures (PathAbove(store, b, x) + [HashOf(x)])[0] == HashOf(b)
    decreases b
  {
    if b != x {
      var p := store[b.parentHash];
      PathAboveShape(store, p, x);
      var rest := PathAbove(store, p, x) + [HashOf(x)];
      assert PathAbove(store, b, x) + [HashOf(x)] == [HashOf(b)] + rest;
      assert b.parentHash == rest[0];
    }
  }

  lemma LatestCommonUnique(store: Store, x: Block, y: Block, a: Block, b: Block)
    requires WellFormed(a)
    requires IsLatestCommon(store, x, a, b) && IsLatestCommon(store, y, a, b)
    ensures x == y
  {
    ReachesHeight(store, a, x);
    ReachesHeight(store, a, y);
    ReachesHeight(store, x, y);
    ReachesHeight(store, y, x);
  }

  ghost predicate WalkCorrect(store: Store, r: Result<Walk>, a: Block, b: Block, cp: seq<Hash>, ncp: seq<Hash>) {
    match r
    case Err => forall y :: !Common(store, a, b, y)
    case Ok(Walk(x, c, n)) =>
      && IsLatestCommon(store, x, a, b)
      && c == cp + PathAbove(store, a, x) + CanonicalTail(x)
      && n == ncp + PathAbove(store, b, x)
  }

  /** A block that is not on the lower chain can be stepped over. */
  lemma StepDown(store: Store, a: Block, b: Block)
    requires WellFormed(a) && WellFormed(b) && a != b && a.number >= b.number
    ensures !Reaches(store, b, a)
    ensures a.parentHash !in store ==> forall y :: !Common(store, a, b, y)
    ensures a.parentHash in store ==>
      forall y :: Common(store, a, b, y) <==> Common(store, store[a.parentHash], b, y)
  {
    if Reaches(store, b, a) {
      ReachesHeight(store, b, a);
    }
  }

  lemma CommonSymmetric(store: Store)
    ensures forall a, b, y :: Common(store, a, b, y) <==> Common(store, b, a, y)
  {
  }

  /** The walk, from two blocks that are both above genesis or both genesis. */
  lemma {:induction false} InternalLCACorrect(store: Store, a: Block, b: Block, cp: seq<Hash>, ncp: seq<Hash>)
    requires WellFormed(a) && WellFormed(b)
    requires a == GENESIS <==> b == GENESIS
    ensures WalkCorrect(store, InternalLCA(store, a, b, cp, ncp), a, b, cp, ncp)
    decreases a, b
  {
    OnChainHeight(a, a);
    OnChainHeight(b, b);
    if a == b {
    } else if a.number > b.number {
      StepDown(store, a, b);
      if a.parentHash in store {
        InternalLCACorrect(store, store[a.parentHash], b, cp + [HashOf(a)], ncp);
      }
    } else if b.number > a.number {
      StepDown(store, b, a);
      CommonSymmetric(store);
      if b.parentHash in store {
        InternalLCACorrect(store, a, store[b.parentHash], cp, ncp + [HashOf(b)]);
      }
    } else {
      StepDown(store, a, b);
      StepDown(store, b, a);
      CommonSymmetric(store);
      if a.parentHash in store && b.parentHash in store {
        var pa, pb := store[a.parentHash], store[b.parentHash];
        OnChainHeight(pa, pa);
        OnChainHeight(pb, pb);
        StepDown(store, b, pa);
        InternalLCACorrect(store, pa, pb, cp + [HashOf(a)], ncp + [HashOf(b)]);
      }
    }
  }

  // ----- main results -----

  /** Above genesis: the search succeeds exactly when there is a common ancestor, and then finds the latest. */
  lemma LCACorrect(store: Store, a: Block, b: Block)
    requires WellFormed(a) && WellFormed(b)
    requires a != GENESIS && b != GENESIS
    ensures LCA(store, a, b).Ok? <==> exists y :: Common(store, a, b, y)
    ensures LCA(store, a, b).Ok? ==>
      var f := LCA(store, a, b).value;
      && f.newCanonical == a && f.oldCanonical == b
      && IsLatestCommon(store, f.commonAncestor, a, b)
      && f.canonicalPath == PathAbove(store, a, f.commonAncestor) + CanonicalTail(f.commonAncestor)
      && f.nonCanonicalPath == PathAbove(store, b, f.commonAncestor)
  {
    InternalLCACorrect(store, a, b, [], []);
  }

  /**
   On rooted blocks the search never fails, and it names the latest common ancestor except
   when its second argument is genesis and its first is not: the walk then stops at once and
   returns the first argument.
   */
  lemma LCAExact(store: Store, a: Block, b: Block)
    requires WellFormed(a) && WellFormed(b)
    requires Rooted(store, a) && Rooted(store, b)
    ensures LCA(store, a, b).Ok?
    ensures IsLatestCommon(store, LCA(store, a, b).value.commonAncestor, a, b) <==> !(b == GENESIS && a != GENESIS)
  {
    OnChainHeight(a, a);
    OnChainHeight(b, b);
    if a != GENESIS && b != GENESIS {
      LCACorrect(store, a, b);
      assert Common(store, a, b, GENESIS);
    } else if a == GENESIS {
      assert LCA(store, a, b).value.commonAncestor == a;
    } else {
      assert LCA(store, a, b).value.commonAncestor == a;
      if Reaches(store, b, a) {
        ReachesHeight(store, b, a);
      }
    }
  }

  /**
   The exceptions at work: for any block above genesis, the search with genesis second names that
   block, which genesis does not reach; with genesis first it reports no fork, though the block
   is left behind.
   */
  lemma GenesisExceptions(store: Store, b: Block)
    requires WellFormed(b) && b != GENESIS
    ensures LCA(store, b, GENESIS) == Ok(ChainFork(b, GENESIS, b, [], [])) && !Reaches(store, GENESIS, b)
    ensures LCA(store, GENESIS, b) == Ok(ChainFork(GENESIS, b, GENESIS, [], []))
    ensures !LCA(store, GENESIS, b).value.IsFork()
  {
    if Reaches(store, GENESIS, b) {
      ReachesHeight(store, GENESIS, b);
    }
  }

  /** Above genesis the answer does not depend on the order of the arguments; the paths swap. */
  lemma LCASymmetric(store: Store, a: Block, b: Block)
    requires WellFormed(a) && WellFormed(b)
    requires a != GENESIS && b != GENESIS
    ensures LCA(store, a, b).Ok? <==> LCA(store, b, a).Ok?
    ensures LCA(store, a, b).Ok? ==>
      var f, g := LCA(store, a, b).value, LCA(store, b, a).value;
      && f.commonAncestor == g.commonAncestor
      && f.canonicalPath == g.nonCanonicalPath + CanonicalTail(f.commonAncestor)
      && g.canonicalPath == f.nonCanonicalPath + CanonicalTail(f.commonAncestor)
  {
    LCACorrect(store, a, b);
    LCACorrect(store, b, a);
    CommonSymmetric(store);
    if LCA(store, a, b).Ok? {
      LatestCommonUnique(store, LCA(store, a, b).value.commonAncestor, LCA(store, b, a).value.commonAncestor, a, b);
    }
  }

  /** Both paths are unbroken hash chains as long as the height differences. */
  lemma ForkPathShapes(store: Store, a: Block, b: Block)
    requires WellFormed(a) && WellFormed(b)
    requires a != GENESIS && b != GENESIS
    requires LCA(store, a, b).Ok?
    ensures
      var f := LCA(store, a, b).value;
      var x := f.commonAncestor;
      && |f.canonicalPath| == a.number - x.number + (if x == GENESIS then 0 else 1)
      && |f.nonCanonicalPath| == b.number - x.number
      && HashChain(f.canonicalPath) && f.canonicalPath != [] && f.canonicalPath[0] == HashOf(a)
      && (x != GENESIS ==> f.canonicalPath[|f.canonicalPath| - 1] == HashOf(x))
      && HashChain(f.nonCanonicalPath + [HashOf(x)]) && (f.nonCanonicalPath + [HashOf(x)])[0] == HashOf(b)
  {
    LCACorrect(store, a, b);
    var f := LCA(store, a, b).value;
    var x := f.commonAncestor;
    PathAboveShape(store, a, x);
    PathAboveShape(store, b, x);
    if x == GENESIS {
      assert f.canonicalPath == PathAbove(store, a, x);
      HashChainPrefix(f.canonicalPath, HashOf(x));
    }
  }

  /**
   `IsFork` tells whether the old head was left behind, for every pair of rooted blocks but
   one kind: a genesis first argument with a second one above it.
   */
  lemma IsForkExact(store: Store, a: Block, b: Block)
    requires WellFormed(a) && WellFormed(b)
    requires Rooted(store, a) && Rooted(store, b)
    ensures LCA(store, a, b).Ok?
    ensures (LCA(store, a, b).value.IsFork() <==> !Reaches(store, a, b)) <==> !(a == GENESIS && b != GENESIS)
  {
    LCAExact(store, a, b);
    OnChainHeight(a, a);
    OnChainHeight(b, b);
    if a != GENESIS && b != GENESIS {
      LCACorrect(store, a, b);
      var x := LCA(store, a, b).value.commonAncestor;
      PathAboveShape(store, b, x);
      ReachesHeight(store, b, x);
      if Reaches(store, a, b) {
        ReachesHeight(store, x, b);
      }
    } else if a == GENESIS && Reaches(store, a, b) {
      ReachesHeight(store, a, b);
    }
  }
}
