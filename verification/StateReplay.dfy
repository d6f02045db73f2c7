/**
 Rebuilding missing batch states after a restart (go/enclave/enclave.go): walk back from the
 head batch to the newest batch whose state is available, then execute forward, oldest first.

 The state of a batch is stored under the state root in its header. Execution, the root of a
 state and the genesis state are parameters.
 */
module StateReplay {
  import opened Wrappers

  /** Batch hashes are ideal, like block hashes. */
  datatype BatchHash = NoBatch | Digest(preimage: Batch)

  datatype Batch = Batch(parentHash: BatchHash, number: nat, seqNo: nat, root: nat, payload: nat)

  function HashOf(b: Batch): BatchHash {
    Digest(b)
  }

  /** What the enclave executes with: `run` is `None` when a batch cannot be recomputed as it was sent. */
  datatype Machine<!S> = Machine(genesis: Option<S>, run: (S, Batch) -> Option<S>, rootOf: S -> nat)

  type Batches = m: map<BatchHash, Batch> | forall h :: h in m ==> h == HashOf(m[h])

  /** The parents of `b` are batches, one height apart, down to height zero. */
  ghost predicate Linked(b: Batch) {
    b.number > 0 ==>
      b.parentHash.Digest? && Parent(b).number == b.number - 1 && Linked(Parent(b))
  }

  ghost function Parent(b: Batch): Batch
    requires b.parentHash.Digest?
  {
    b.parentHash.preimage
  }

  ghost predicate OnChain(b: Batch, a: Batch)
    requires Linked(b)
    decreases b.number
  {
    a == b || (b.number > 0 && OnChain(Parent(b), a))
  }

  ghost function Checked<S>(m: Machine<S>, s: Option<S>, root: nat): Option<S> {
    if s.Some? && m.rootOf(s.value) == root then s else None
  }

  /**
   The state after `b`, by executing every batch from genesis; `None` if some batch cannot be
   executed or does not lead to the root in its header.
   */
  ghost function StateAfter<S>(m: Machine<S>, b: Batch): Option<S>
    requires Linked(b)
    decreases b.number
  {
    if b.number == 0 then Checked(m, m.genesis, b.root)
    else
      match StateAfter(m, Parent(b))
      case None => None
      case Some(s) => Checked(m, m.run(s, b), b.root)
  }

  /** The batches without a state from `b` down to the first available one, newest first. */
  ghost function Missing<S>(states: map<nat, S>, b: Batch): seq<Batch>
    requires Linked(b)
    decreases b.number
  {
    if b.root in states then []
    else if b.number == 0 then [b]
    else [b] + Missing(states, Parent(b))
  }

  /** Storage has every batch met on that walk. */
  ghost predicate WalkStored<S>(batches: Batches, states: map<nat, S>, b: Batch)
    requires Linked(b)
    decreases b.number
  {
    b.root in states || b.number == 0 || (b.parentHash in batches && WalkStored(batches, states, Parent(b)))
  }

  /** Each state sits under its own root, and available states of the chain are the right ones. */
  ghost predicate StatesCorrect<S>(m: Machine<S>, states: map<nat, S>, b: Batch)
    requires Linked(b)
  {
    && RootsCorrect(m, states)
    && forall a {:trigger OnChain(b, a)} :: OnChain(b, a) && Linked(a) && a.root in states ==>
         StateAfter(m, a) == Some(states[a.root])
  }

  ghost predicate RootsCorrect<S>(m: Machine<S>, states: map<nat, S>) {
    forall r :: r in states ==> m.rootOf(states[r]) == r
  }

  /** A genesis batch is created with the root of the genesis state. */
  ghost predicate GenesisRoot<S>(m: Machine<S>, b: Batch) {
    b.number == 0 && m.genesis.Some? ==> m.rootOf(m.genesis.value) == b.root
  }

  /** State roots are ideal hashes. */
  ghost predicate RootsInjective<S(!new)>(m: Machine<S>) {
    forall s, t :: SameRoot(m, s, t) ==> s == t
  }

  ghost predicate SameRoot<S>(m: Machine<S>, s: S, t: S) {
    m.rootOf(s) == m.rootOf(t)
  }

  /** The batches to execute, oldest first: those listed from `i` on but genesis. */
  ghost function ReplayedFrom(missing: seq<Batch>, i: nat): seq<Batch>
    requires i <= |missing|
    decreases |missing| - i
  {
    if i == |missing| then []
    else ReplayedFrom(missing, i + 1) + (if missing[i].number == 0 then [] else [missing[i]])
  }

  /** Each missing batch has its parent next in the list, and the last one's parent has a state. */
  ghost predicate MissingAt<S>(states: map<nat, S>, missing: seq<Batch>, b: Batch, k: nat)
    requires Linked(b) && k < |missing|
  {
    var x := missing[k];
    && x.root !in states && Linked(x) && OnChain(b, x) && x.number == b.number - k
    && (x.number > 0 ==> OnChain(b, Parent(x)))
    && (k + 1 < |missing| ==> x.number > 0 && Parent(x) == missing[k + 1])
    && (k + 1 == |missing| && x.number > 0 ==> Parent(x).root in states)
  }

  lemma {:induction false} MissingShape<S>(states: map<nat, S>, b: Batch, k: nat)
    requires Linked(b) && k < |Missing(states, b)|
    ensures MissingAt(states, Missing(states, b), b, k)
    decreases b.number
  {
    if b.number > 0 {
      assert OnChain(Parent(b), Parent(b));
      if k > 0 {
        MissingShape(states, Parent(b), k - 1);
        assert MissingAt(states, Missing(states, Parent(b)), Parent(b), k - 1);
      }
    }
  }

  lemma MissingLinked<S>(states: map<nat, S>, b: Batch)
    requires Linked(b)
    ensures forall k :: 0 <= k < |Missing(states, b)| ==> Linked(Missing(states, b)[k]) && OnChain(b, Missing(states, b)[k])
  {
    forall k | 0 <= k < |Missing(states, b)|
      ensures Linked(Missing(states, b)[k]) && OnChain(b, Missing(states, b)[k])
    {
      MissingShape(states, b, k);
    }
  }

  lemma {:induction false} WalkStoredAt<S>(batches: Batches, states: map<nat, S>, b: Batch, k: nat)
    requires Linked(b) && WalkStored(batches, states, b) && k < |Missing(states, b)|
    ensures Missing(states, b)[k].number > 0 ==> Missing(states, b)[k].parentHash in batches
    ensures HashOf(b) in batches ==> HashOf(Missing(states, b)[k]) in batches
    decreases b.number
  {
    if b.number > 0 && k > 0 {
      WalkStoredAt(batches, states, Parent(b), k - 1);
    }
  }

  /** The walk is stored exactly when storage has the parent of every missing batch above genesis. */
  lemma {:induction false} WalkStoredExactly<S>(batches: Batches, states: map<nat, S>, b: Batch)
    requires Linked(b)
    ensures WalkStored(batches, states, b) <==>
            forall x :: x in Missing(states, b) && x.number > 0 ==> x.parentHash in batches
    decreases b.number
  {
    if b.root !in states && b.number > 0 {
      WalkStoredExactly(batches, states, Parent(b));
      assert b in Missing(states, b);
      assert forall x :: x in Missing(states, b) <==> x == b || x in Missing(states, Parent(b));
    }
  }

  /** Storage has the whole chain of `b`. */
  ghost predicate ChainStored(batches: Batches, b: Batch)
    requires Linked(b)
  {
    forall a :: OnChain(b, a) ==> HashOf(a) in batches
  }

  /** A chain that is all in storage can be walked, whichever states are missing: down to genesis if need be. */
  lemma {:induction false} StoredChainWalks<S>(batches: Batches, states: map<nat, S>, b: Batch)
    requires Linked(b) && ChainStored(batches, b)
    ensures WalkStored(batches, states, b)
    decreases b.number
  {
    if b.number > 0 {
      assert OnChain(Parent(b), Parent(b)) && OnChain(b, Parent(b));
      StoredChainWalks(batches, states, Parent(b));
    }
  }

  /** `chain` lists the batches from height zero up to `b`. */
  ghost predicate IsChain(b: Batch, chain: seq<Batch>) {
    && chain != [] && chain[0].number == 0 && chain[|chain| - 1] == b
    && forall i :: 0 < i < |chain| ==> chain[i].number > 0 && chain[i].parentHash == HashOf(chain[i - 1])
  }

  /** `trace[i]` is the state after `chain[i]`: genesis first, then one batch after the other, each with the root it announced. */
  ghost predicate IsExecution<S>(m: Machine<S>, chain: seq<Batch>, trace: seq<S>) {
    && |trace| == |chain| > 0 && m.genesis == Some(trace[0])
    && (forall i :: 0 <= i < |chain| ==> m.rootOf(trace[i]) == chain[i].root)
    && (forall i :: 0 < i < |chain| ==> m.run(trace[i - 1], chain[i]) == Some(trace[i]))
  }

  lemma {:induction false} ChainExists(b: Batch) returns (chain: seq<Batch>)
    requires Linked(b)
    ensures IsChain(b, chain)
    decreases b.number
  {
    if b.number == 0 {
      return [b];
    }
    var below := ChainExists(Parent(b));
    chain := below + [b];
  }

  /** The state after a batch is the last one of the execution of its chain, and is undefined when there is no such execution. */
  lemma {:induction false} StateAfterIsExecution<S(!new)>(m: Machine<S>, b: Batch, chain: seq<Batch>, s: S)
    requires Linked(b) && IsChain(b, chain)
    ensures StateAfter(m, b) == Some(s) <==>
            exists trace :: IsExecution(m, chain, trace) && trace[|trace| - 1] == s
    decreases b.number
  {
    if StateAfter(m, b) == Some(s) {
      var trace := ExecutionOf(m, b, chain);
    }
    if exists trace :: IsExecution(m, chain, trace) && trace[|trace| - 1] == s {
      var trace :| IsExecution(m, chain, trace) && trace[|trace| - 1] == s;
      ExecutionIs(m, b, chain, trace);
    }
  }

  lemma ChainInit(b: Batch, chain: seq<Batch>)
    requires Linked(b) && IsChain(b, chain)
    ensures b.number == 0 <==> |chain| == 1
    ensures b.number > 0 ==> IsChain(Parent(b), chain[..|chain| - 1])
  {
  }

  lemma {:induction false} ExecutionOf<S>(m: Machine<S>, b: Batch, chain: seq<Batch>) returns (trace: seq<S>)
    requires Linked(b) && IsChain(b, chain) && StateAfter(m, b).Some?
    ensures IsExecution(m, chain, trace) && trace[|trace| - 1] == StateAfter(m, b).value
    decreases b.number
  {
    ChainInit(b, chain);
    if b.number == 0 {
      return [m.genesis.value];
    }
    var below := ExecutionOf(m, Parent(b), chain[..|chain| - 1]);
    trace := below + [StateAfter(m, b).value];
  }

  lemma {:induction false} ExecutionIs<S>(m: Machine<S>, b: Batch, chain: seq<Batch>, trace: seq<S>)
    requires Linked(b) && IsChain(b, chain) && IsExecution(m, chain, trace)
    ensures StateAfter(m, b) == Some(trace[|trace| - 1])
    decreases b.number
  {
    ChainInit(b, chain);
    if b.number > 0 {
      ExecutionIs(m, Parent(b), chain[..|chain| - 1], trace[..|trace| - 1]);
    }
  }

  /** A defined state has the root of its batch, and so has every state below it. */
  lemma {:induction false} StateAfterRoots<S>(m: Machine<S>, b: Batch, a: Batch)
    requires Linked(b) && OnChain(b, a) && StateAfter(m, b).Some?
    ensures Linked(a) && StateAfter(m, a).Some? && m.rootOf(StateAfter(m, a).value) == a.root
    decreases b.number
  {
    if a != b {
      StateAfterRoots(m, Parent(b), a);
    }
  }

  /** Once the head's state is defined, every available state of its chain is right. */
  lemma DefinedIsCorrect<S(!new)>(m: Machine<S>, states: map<nat, S>, b: Batch)
    requires RootsInjective(m) && RootsCorrect(m, states)
    requires Linked(b) && StateAfter(m, b).Some?
    ensures StatesCorrect(m, states, b)
  {
    forall a | OnChain(b, a) && Linked(a) && a.root in states
      ensures StateAfter(m, a) == Some(states[a.root])
    {
      StateAfterRoots(m, b, a);
      assert SameRoot(m, StateAfter(m, a).value, states[a.root]);
    }
  }

  /** Exactly the missing batches above genesis are replayed. */
  lemma {:induction false} ReplayedAre(missing: seq<Batch>, i: nat, x: Batch)
    requires i <= |missing|
    ensures x in ReplayedFrom(missing, i) <==> x in missing[i..] && x.number > 0
    decreases |missing| - i
  {
    if i < |missing| {
      ReplayedAre(missing, i + 1, x);
      assert missing[i..] == [missing[i]] + missing[i + 1..];
    }
  }

  /** The replay runs upwards without a gap: each batch comes once, right after its parent if that is replayed too. */
  lemma {:induction false} ReplayOrder<S>(states: map<nat, S>, b: Batch, i: nat)
    requires Linked(b) && i <= |Missing(states, b)|
    ensures Consecutive(ReplayedFrom(Missing(states, b), i))
    ensures i < |Missing(states, b)| ==> EndsWith(ReplayedFrom(Missing(states, b), i), Missing(states, b)[i])
    decreases |Missing(states, b)| - i
  {
    var missing := Missing(states, b);
    if i < |missing| {
      ReplayOrder(states, b, i + 1);
      MissingShape(states, b, i);
      assert MissingAt(states, missing, b, i);
      ConsecutiveAppend(ReplayedFrom(missing, i + 1), missing[i]);
    }
  }

  /** Each batch is the parent of the next, one height below it. */
  ghost predicate Consecutive(ran: seq<Batch>) {
    forall k :: 0 < k < |ran| ==> ran[k].parentHash == HashOf(ran[k - 1]) && ran[k].number == ran[k - 1].number + 1
  }

  /** The list ends with `x`, or is empty when `x` is genesis. */
  ghost predicate EndsWith(ran: seq<Batch>, x: Batch) {
    if x.number == 0 then ran == [] else ran != [] && ran[|ran| - 1] == x
  }

  lemma ConsecutiveAppend(ran: seq<Batch>, x: Batch)
    requires Consecutive(ran)
    requires x.number > 0 && ran != [] ==> x.parentHash == HashOf(ran[|ran| - 1]) && x.number == ran[|ran| - 1].number + 1
    ensures Consecutive(ran + [x]) || x.number == 0
  {
  }

  /** How far down the list the states are defined, counting from its oldest batch, at index `i - 1`. */
  ghost function DefinedFrom<S>(m: Machine<S>, missing: seq<Batch>, i: nat): (j: nat)
    requires i <= |missing|
    ensures j <= i
  {
    if i == 0 || !Linked(missing[i - 1]) || StateAfter(m, missing[i - 1]).None? then i
    else DefinedFrom(m, missing, i - 1)
  }

  /** The index of the first batch, oldest first, whose state is not defined, plus one; zero if there is none. */
  ghost function StopsAt<S>(m: Machine<S>, missing: seq<Batch>): (j: nat)
    ensures j <= |missing|
  {
    DefinedFrom(m, missing, |missing|)
  }

  /** `r` is the root of a batch listed from `j` on. */
  ghost predicate RootListed(missing: seq<Batch>, j: nat, r: nat) {
    exists k :: j <= k < |missing| && missing[k].root == r
  }

  /** The replay of a missing head runs to the end exactly when the head's state is defined. */
  lemma StopsExactly<S>(m: Machine<S>, states: map<nat, S>, b: Batch)
    requires Linked(b) && b.root !in states
    ensures StopsAt(m, Missing(states, b)) == 0 <==> StateAfter(m, b).Some?
  {
    var missing := Missing(states, b);
    MissingLinked(states, b);
    DefinedFromIs(m, missing, |missing|);
    var j := StopsAt(m, missing);
    assert missing[0] == b;
    if j > 0 && StateAfter(m, b).Some? {
      StateAfterRoots(m, b, missing[j - 1]);
    }
  }

  lemma {:induction false} DefinedFromIs<S>(m: Machine<S>, missing: seq<Batch>, i: nat)
    requires i <= |missing| && forall k :: 0 <= k < |missing| ==> Linked(missing[k])
    ensures
      var j := DefinedFrom(m, missing, i);
      && (j > 0 ==> StateAfter(m, missing[j - 1]).None?)
      && forall k :: j <= k < i ==> StateAfter(m, missing[k]).Some?
  {
    if i > 0 && StateAfter(m, missing[i - 1]).Some? {
      DefinedFromIs(m, missing, i - 1);
    }
  }

  /** What a replay leaves when it stops at `j`: the states from before, and those of the batches below. */
  ghost predicate ReplayedTo<S>(m: Machine<S>, missing: seq<Batch>, j: nat, before: map<nat, S>, after: map<nat, S>) {
    && (forall r :: r in after ==> r in before || RootListed(missing, j, r))
    && (forall r :: r in before ==> r in after && after[r] == before[r])
    && (forall k :: j <= k < |missing| ==>
          missing[k].root in after && Linked(missing[k]) && StateAfter(m, missing[k]) == Some(after[missing[k].root]))
  }

  lemma ReplayedOneMore<S(!new)>(m: Machine<S>, missing: seq<Batch>, i: nat, before: map<nat, S>, mid: map<nat, S>, t: S)
    requires RootsInjective(m) && RootsCorrect(m, mid)
    requires i < |missing| && ReplayedTo(m, missing, i + 1, before, mid)
    requires Linked(missing[i]) && StateAfter(m, missing[i]) == Some(t) && m.rootOf(t) == missing[i].root
    ensures ReplayedTo(m, missing, i, before, mid[missing[i].root := t])
  {
    var after := mid[missing[i].root := t];
    assert RootListed(missing, i, missing[i].root);
    assert forall r :: RootListed(missing, i + 1, r) ==> RootListed(missing, i, r);
    if missing[i].root in mid {
      assert SameRoot(m, t, mid[missing[i].root]);
    }
  }

  /** When a batch's turn comes, its parent's state is there and is the right one. */
  lemma ParentReady<S>(m: Machine<S>, head: Batch, before: map<nat, S>, now: map<nat, S>, i: nat)
    requires Linked(head) && StatesCorrect(m, before, head) && i < |Missing(before, head)|
    requires ReplayedTo(m, Missing(before, head), i + 1, before, now)
    ensures
      var b := Missing(before, head)[i];
      && Linked(b) && b.number == head.number - i && OnChain(head, b)
      && (b.number > 0 ==> Parent(b).root in now && StateAfter(m, Parent(b)) == Some(now[Parent(b).root]))
  {
    MissingShape(before, head, i);
    assert MissingAt(before, Missing(before, head), head, i);
  }

  /** The batches executed when a replay stops at `j`: the failing one is the last. */
  ghost function Attempted(missing: seq<Batch>, j: nat): seq<Batch>
    requires j <= |missing|
  {
    ReplayedFrom(missing, if j == 0 then 0 else j - 1)
  }

  /** How a replay ends; `Panic` is an index out of range. */
  datatype Outcome = Done | Failed | Panic

  class Enclave<S(!new)> {
    const m: Machine<S>
    var batches: Batches
    var bySeq: map<nat, BatchHash>
    var headSeq: Option<nat>
    var states: map<nat, S>
    /** The batches handed to the executor, in order. */
    var executed: seq<Batch>

    ghost predicate Valid()
      reads this
    {
      && RootsInjective(m) && RootsCorrect(m, states)
      && (forall h :: h in batches ==> Linked(batches[h]) && GenesisRoot(m, batches[h]))
    }

    constructor (m: Machine<S>)
      requires RootsInjective(m)
      ensures Valid() && this.m == m && headSeq == None && executed == []
      ensures batches == map[] && bySeq == map[] && states == map[]
    {
      this.m := m;
      batches, bySeq, headSeq, states, executed := map[], map[], None, map[], [];
    }

    /** The head batch, if the registry names one and storage has it. */
    ghost function Head(): Option<Batch>
      reads this
    {
      if headSeq.Some? && headSeq.value in bySeq && bySeq[headSeq.value] in batches
      then Some(batches[bySeq[headSeq.value]])
      else None
    }

    /** Executes a batch on the state of its parent, checks the root and commits the result. */
    method ExecuteBatch(b: Batch) returns (ok: bool)
      requires Valid()
      modifies this`states, this`executed
      ensures Valid() && executed == old(executed) + [b]
      ensures ok <==>
        b.parentHash in batches && batches[b.parentHash].root in old(states) &&
        Checked(m, m.run(old(states)[batches[b.parentHash].root], b), b.root).Some?
      ensures !ok ==> states == old(states)
      ensures ok ==> states == old(states)[b.root := m.run(old(states)[batches[b.parentHash].root], b).value]
    {
      executed := executed + [b];
      if b.parentHash !in batches || batches[b.parentHash].root !in states {
        return false;
      }
      var t := m.run(states[batches[b.parentHash].root], b);
      if t.None? || m.rootOf(t.value) != b.root {
        return false;
      }
      states := states[b.root := t.value];
      return true;
    }

    method CommitGenesisState() returns (ok: bool)
      requires Valid()
      modifies this`states
      ensures Valid()
      ensures ok <==> m.genesis.Some?
      ensures states == if ok then old(states)[m.rootOf(m.genesis.value) := m.genesis.value] else old(states)
    {
      if m.genesis.None? {
        return false;
      }
      states := states[m.rootOf(m.genesis.value) := m.genesis.value];
      return true;
    }

    /** Collects the batches to replay, newest first; `None` when storage lacks one. */
    method WalkBack(head: Batch) returns (toReplay: Option<seq<Batch>>)
      requires Valid() && Linked(head)
      ensures toReplay == if WalkStored(batches, states, head) then Some(Missing(states, head)) else None
    {
      var stack: seq<Batch> := [];
      var b := head;
      while b.root !in states
        invariant Linked(b)
        invariant Missing(states, head) == stack + Missing(states, b)
        invariant WalkStored(batches, states, head) <==> WalkStored(batches, states, b)
        decreases b.number
      {
        stack := stack + [b];
        if b.number == 0 {
          assert Missing(states, head) == stack;
          break;
        }
        assert Missing(states, head) == stack + Missing(states, Parent(b));
        if b.parentHash !in batches {
          return None;
        }
        b := batches[b.parentHash];
      }
      assert Missing(states, head) == stack;
      return Some(stack);
    }

    /** A replay of `missing`, started from the states `before`, that has done all but its first `i` batches. */
    ghost predicate Replaying(head: Batch, missing: seq<Batch>, i: nat, before: map<nat, S>, ran: seq<Batch>)
      reads this
    {
      && Valid() && HashOf(head) in batches && Linked(head) && StatesCorrect(m, before, head)
      && missing == Missing(before, head) && WalkStored(batches, before, head)
      && i <= |missing| && ReplayedTo(m, missing, i, before, states)
      && executed == ran + ReplayedFrom(missing, i)
    }

    /** A replay that has stopped at `j`. */
    ghost predicate Stopped(missing: seq<Batch>, j: nat, before: map<nat, S>, ran: seq<Batch>)
      reads this
    {
      Valid() && j <= |missing| && ReplayedTo(m, missing, j, before, states) && executed == ran + Attempted(missing, j)
    }

    lemma StoppedAt(missing: seq<Batch>, j: nat, before: map<nat, S>, ran: seq<Batch>)
      requires Valid() && j <= |missing| && ReplayedTo(m, missing, j, before, states)
      requires executed == ran + ReplayedFrom(missing, if j == 0 then 0 else j - 1)
      ensures Stopped(missing, j, before, ran)
    {
    }

    lemma ReplayStarts(head: Batch, missing: seq<Batch>)
      requires Valid() && HashOf(head) in batches && Linked(head) && StatesCorrect(m, states, head)
      requires missing == Missing(states, head) && WalkStored(batches, states, head)
      ensures Replaying(head, missing, |missing|, states, executed)
    {
      assert executed == executed + ReplayedFrom(missing, |missing|);
    }

    /** Replays one batch; fails exactly when its state is not defined. */
    method ReplayOne(head: Batch, missing: seq<Batch>, i: nat, ghost before: map<nat, S>, ghost ran: seq<Batch>) returns (ok: bool)
      requires i < |missing| && Replaying(head, missing, i + 1, before, ran)
      modifies this`states, this`executed
      ensures ok ==> Replaying(head, missing, i, before, ran) && DefinedFrom(m, missing, i + 1) == DefinedFrom(m, missing, i)
      ensures !ok ==> Valid() && ReplayedTo(m, missing, i + 1, before, states) && executed == ran + ReplayedFrom(missing, i)
      ensures !ok ==> DefinedFrom(m, missing, i + 1) == i + 1
    {
      var b := missing[i];
      ParentReady(m, head, before, states, i);
      WalkStoredAt(batches, before, head, i);
      ghost var mid := states;
      if b.number == 0 {
        assert GenesisRoot(m, batches[HashOf(b)]);
        ok := CommitGenesisState();
      } else {
        ok := ExecuteBatch(b);
      }
      assert executed == ran + ReplayedFrom(missing, i);
      assert ok <==> StateAfter(m, b).Some?;
      if ok {
        assert states == mid[b.root := StateAfter(m, b).value];
        ReplayedOneMore(m, missing, i, before, mid, StateAfter(m, b).value);
      }
    }

    /** The second loop: from the oldest missing batch up to the head, or to the first that fails. */
    method ReplayForward(head: Batch, missing: seq<Batch>) returns (ok: bool)
      requires Valid() && HashOf(head) in batches && Linked(head) && StatesCorrect(m, states, head)
      requires missing == Missing(states, head) && WalkStored(batches, states, head)
      modifies this`states, this`executed
      ensures ok <==> StopsAt(m, missing) == 0
      ensures Stopped(missing, StopsAt(m, missing), old(states), old(executed))
    {
      ghost var before, ran := states, executed;
      ReplayStarts(head, missing);
      var i := |missing|;
      while i > 0
        invariant 0 <= i <= |missing|
        invariant StopsAt(m, missing) == DefinedFrom(m, missing, i)
        invariant Replaying(head, missing, i, before, ran)
      {
        i := i - 1;
        ok := ReplayOne(head, missing, i, before, ran);
        if !ok {
          StoppedAt(missing, i + 1, before, ran);
          return;
        }
      }
      StoppedAt(missing, 0, before, ran);
      ok := true;
    }

    /**
     From a correct, partial set of states: executes the missing batches once each, oldest first,
     up to the head or to the first whose state is not defined, and keeps all other states. It
     succeeds exactly when storage has the walk and the head's state is defined; then the head's
     state is what executing everything from genesis gives.
     */
    method ReplayBatchesToValidState() returns (r: Outcome)
      requires Valid() && headSeq.Some?
      requires Head().Some? ==> StatesCorrect(m, states, Head().value)
      modifies this`states, this`executed
      ensures Valid()
      ensures old(Head()).None? ==> r == Failed
      ensures old(Head()).Some? ==>
        var head := old(Head()).value;
        && (r == Panic <==> head.root in old(states))
        && (head.root !in old(states) ==> (r == Done <==> WalkStored(batches, old(states), head) && StateAfter(m, head).Some?))
        && (r == Done ==>
          StatesCorrect(m, states, head) && head.root in states && StateAfter(m, head) == Some(states[head.root]))
      ensures
        if old(Head()).Some? && WalkStored(batches, old(states), old(Head()).value) then
          var missing := Missing(old(states), old(Head()).value);
          && ReplayedTo(m, missing, StopsAt(m, missing), old(states), states)
          && executed == old(executed) + Attempted(missing, StopsAt(m, missing))
        else
          states == old(states) && executed == old(executed)
      ensures headSeq.value in bySeq && bySeq[headSeq.value] in batches ==>
        var head := batches[bySeq[headSeq.value]];
        ChainStored(batches, head) && StateAfter(m, head).Some? && head.root !in old(states) ==> r == Done
    {
      if headSeq.value !in bySeq || bySeq[headSeq.value] !in batches {
        return Failed;
      }
      var head := batches[bySeq[headSeq.value]];
      if ChainStored(batches, head) {
        StoredChainWalks(batches, states, head);
      }
      var walk := WalkBack(head);
      if walk.None? {
        return Failed;
      }
      var missing := walk.value;
      if |missing| == 0 {
        return Panic; // the log line names the last element of the list
      }
      StopsExactly(m, states, head);
      var ok := ReplayForward(head, missing);
      if !ok {
        return Failed;
      }
      assert missing[0] == head;
      DefinedIsCorrect(m, states, head);
      return Done;
    }

    /** After a restart: never panics, and leaves the head with its right state or reports an error. */
    method RestoreStateDBCache() returns (r: Outcome)
      requires Valid()
      requires Head().Some? ==> StatesCorrect(m, states, Head().value)
      modifies this`states, this`executed
      ensures Valid() && r != Panic
      ensures old(Head()).None? ==> r == Done && states == old(states) && executed == old(executed)
      ensures old(Head()).Some? ==>
        var head := old(Head()).value;
        && (r == Done <==> head.root in old(states) || (WalkStored(batches, old(states), head) && StateAfter(m, head).Some?))
        && (r == Done ==> head.root in states && StateAfter(m, head) == Some(states[head.root]))
        && (head.root in old(states) ==> executed == old(executed) && states == old(states))
      ensures headSeq.Some? && headSeq.value in bySeq && bySeq[headSeq.value] in batches ==>
        var head := batches[bySeq[headSeq.value]];
        ChainStored(batches, head) && StateAfter(m, head).Some? ==>
          r == Done && head.root in states && StateAfter(m, head) == Some(states[head.root])
    {
      if headSeq.None? {
        return Done;
      }
      if headSeq.value !in bySeq || bySeq[headSeq.value] !in batches {
        return Done;
      }
      var head := batches[bySeq[headSeq.value]];
      if head.root in states {
        assert OnChain(head, head);
        return Done;
      }
      r := ReplayBatchesToValidState();
    }
  }
}
