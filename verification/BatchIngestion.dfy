/**
 Concurrent batch submissions (go/enclave/enclave.go): each call checks that the previous
 batch is stored before it takes the lock, and stores its own batch after. Any number of calls
 interleave.
 */
module BatchIngestion {

  const L2_GENESIS_SEQ_NO: nat := 1

  /** A call that has arrived, or one that has passed the check and waits for the lock. */
  datatype Call = Arrived(seqNo: nat) | Passed(seqNo: nat)

  datatype State = State(stored: set<nat>, calls: multiset<Call>)

  const EMPTY: State := State({}, multiset{})

  /** `Abort` is a failed conversion, signature check or store, at any point of a call. */
  datatype Action = Submit(seqNo: nat) | Check(seqNo: nat) | Store(seqNo: nat) | Abort(call: Call)

  predicate Enabled(s: State, a: Action) {
    match a
    case Submit(_) => true
    case Check(n) => Arrived(n) in s.calls
    case Store(n) => Passed(n) in s.calls
    case Abort(c) => c in s.calls
  }

  /** The check of the previous sequence number. */
  predicate Admissible(stored: set<nat>, n: nat) {
    n > L2_GENESIS_SEQ_NO + 1 ==> n - 1 in stored
  }

  function Next(s: State, a: Action): State
    requires Enabled(s, a)
  {
    match a
    case Submit(n) => s.(calls := s.calls + multiset{Arrived(n)})
    case Check(n) =>
      var rest := s.calls - multiset{Arrived(n)};
      if Admissible(s.stored, n) then s.(calls := rest + multiset{Passed(n)}) else s.(calls := rest)
    case Store(n) => State(s.stored + {n}, s.calls - multiset{Passed(n)})
    case Abort(c) => s.(calls := s.calls - multiset{c})
  }

  predicate Legal(s: State, run: seq<Action>)
    decreases |run|
  {
    run == [] || (Enabled(s, run[0]) && Legal(Next(s, run[0]), run[1..]))
  }

  function Exec(s: State, run: seq<Action>): State
    requires Legal(s, run)
    decreases |run|
  {
    if run == [] then s else Exec(Next(s, run[0]), run[1..])
  }

  /** Calls arrive at any time, and any call may be the next to go on or to fail. */
  lemma AnyCallNext(s: State, n: nat)
    ensures Enabled(s, Submit(n))
    ensures forall c :: c in s.calls ==> Enabled(s, Abort(c)) && Enabled(s, if c.Arrived? then Check(c.seqNo) else Store(c.seqNo))
  {
  }

  /** A check stores nothing, ends the wait of one call, and passes it exactly when its number is at most 2 or has its predecessor stored. */
  lemma CheckExactly(s: State, n: nat)
    requires Arrived(n) in s.calls
    ensures Next(s, Check(n)).stored == s.stored
    ensures Next(s, Check(n)).calls[Arrived(n)] == s.calls[Arrived(n)] - 1
    ensures Next(s, Check(n)).calls[Passed(n)] == s.calls[Passed(n)] + (if n <= 2 || n - 1 in s.stored then 1 else 0)
  {
  }

  /** Every stored number but the first few has its predecessor stored. */
  ghost predicate GapFree(stored: set<nat>) {
    forall n {:trigger Admissible(stored, n)} :: n in stored ==> Admissible(stored, n)
  }

  /** A check that was passed stays valid while the call waits for the lock: storage only grows. */
  ghost predicate Inv(s: State) {
    GapFree(s.stored) && forall c :: c in s.calls && c.Passed? ==> Admissible(s.stored, c.seqNo)
  }

  lemma NextKeepsInv(s: State, a: Action)
    requires Inv(s) && Enabled(s, a)
    ensures Inv(Next(s, a)) && s.stored <= Next(s, a).stored
  {
    var t := Next(s, a);
    assert forall n :: Admissible(s.stored, n) ==> Admissible(t.stored, n);
    match a
    case Store(n) => assert Admissible(s.stored, Passed(n).seqNo);
    case _ =>
  }

  lemma {:induction false} InvKept(s: State, run: seq<Action>)
    requires Inv(s) && Legal(s, run)
    ensures Inv(Exec(s, run)) && s.stored <= Exec(s, run).stored
    decreases |run|
  {
    if run != [] {
      NextKeepsInv(s, run[0]);
      InvKept(Next(s, run[0]), run[1..]);
    }
  }

  lemma {:induction false} DownToTwo(stored: set<nat>, n: nat, k: nat)
    requires GapFree(stored) && n in stored && 2 <= k <= n
    ensures k in stored
    decreases n
  {
    if k < n {
      assert Admissible(stored, n);
      DownToTwo(stored, n - 1, k);
    }
  }

  /** In every interleaving, a stored batch has all batches from number 2 up to it stored. */
  lemma NoGaps(run: seq<Action>, n: nat, k: nat)
    requires Legal(EMPTY, run) && n in Exec(EMPTY, run).stored && 2 <= k <= n
    ensures k in Exec(EMPTY, run).stored
  {
    InvKept(EMPTY, run);
    DownToTwo(Exec(EMPTY, run).stored, n, k);
  }

  lemma {:induction false} ExecConcat(s: State, p: seq<Action>, q: seq<Action>)
    requires Legal(s, p) && Legal(Exec(s, p), q)
    ensures Legal(s, p + q) && Exec(s, p + q) == Exec(Exec(s, p), q)
    decreases |p|
  {
    if p == [] {
      assert p + q == q;
    } else {
      assert (p + q)[0] == p[0] && (p + q)[1..] == p[1..] + q;
      ExecConcat(Next(s, p[0]), p[1..], q);
    }
  }

  lemma {:induction false} LegalSplit(s: State, p: seq<Action>, q: seq<Action>)
    requires Legal(s, p + q)
    ensures Legal(s, p) && Legal(Exec(s, p), q)
    decreases |p|
  {
    if p == [] {
      assert p + q == q;
    } else {
      assert (p + q)[0] == p[0] && (p + q)[1..] == p[1..] + q;
      LegalSplit(Next(s, p[0]), p[1..], q);
    }
  }

  /** A batch with this number is stored, or waits for the lock. */
  ghost predicate Held(s: State, n: nat) {
    n in s.stored || Passed(n) in s.calls
  }

  lemma NewlyHeld(s: State, a: Action, n: nat)
    requires Enabled(s, a) && !Held(s, n) && Held(Next(s, a), n)
    ensures a == Check(n) && (n <= 2 || n - 1 in s.stored)
  {
  }

  /** Step `i` of the run is a check of `n` that finds what it needs. */
  ghost predicate ChecksAt(run: seq<Action>, i: nat, n: nat) {
    && i < |run| && run[i] == Check(n)
    && Legal(EMPTY, run[..i]) && (n <= 2 || n - 1 in Exec(EMPTY, run[..i]).stored)
  }

  /** In every interleaving, what is stored or waits for the lock was checked before, with its predecessor stored by then. */
  lemma {:induction false} StoredWasChecked(run: seq<Action>, n: nat)
    requires Legal(EMPTY, run)
    requires Held(Exec(EMPTY, run), n)
    ensures exists i :: ChecksAt(run, i, n)
    decreases |run|
  {
    if run != [] {
      var init, last := run[..|run| - 1], run[|run| - 1];
      assert run == init + [last];
      LegalSplit(EMPTY, init, [last]);
      ExecConcat(EMPTY, init, [last]);
      var before := Exec(EMPTY, init);
      assert Exec(before, [last]) == Next(before, last);
      if Held(before, n) {
        StoredWasChecked(init, n);
        var i: nat :| ChecksAt(init, i, n);
        assert run[..i] == init[..i];
        assert ChecksAt(run, i, n);
      } else {
        NewlyHeld(before, last, n);
        assert ChecksAt(run, |init|, n);
      }
    }
  }

  lemma OneCall(s: State, n: nat)
    requires s.calls == multiset{} && Admissible(s.stored, n)
    ensures Legal(s, [Submit(n), Check(n), Store(n)])
    ensures Exec(s, [Submit(n), Check(n), Store(n)]) == State(s.stored + {n}, multiset{})
  {
    var run := [Submit(n), Check(n), Store(n)];
    assert run[1..] == [Check(n), Store(n)] && run[1..][1..] == [Store(n)] && run[1..][1..][1..] == [];
    var s1 := Next(s, Submit(n));
    var s2 := Next(s1, Check(n));
    var s3 := Next(s2, Store(n));
    assert s3 == State(s.stored + {n}, multiset{});
    assert Legal(s3, []) && Legal(s2, [Store(n)]) && Legal(s1, [Check(n), Store(n)]);
    assert Exec(s2, [Store(n)]) == s3 && Exec(s1, [Check(n), Store(n)]) == s3;
  }

  lemma {:induction false} Maximum(t: set<nat>) returns (m: nat)
    requires t != {}
    ensures m in t && forall n :: n in t ==> n <= m
    decreases |t|
  {
    var x :| x in t;
    var rest := t - {x};
    assert t == rest + {x};
    if rest == {} {
      return x;
    }
    var other := Maximum(rest);
    m := if x < other then other else x;
  }

  /** The gap-free sets are exactly the ones some run stores. */
  lemma {:induction false} EveryGapFreeSetReached(t: set<nat>) returns (run: seq<Action>)
    requires GapFree(t)
    ensures Legal(EMPTY, run) && Exec(EMPTY, run) == State(t, multiset{})
    decreases |t|
  {
    if t == {} {
      return [];
    }
    var m := Maximum(t);
    var rest := t - {m};
    assert GapFree(rest) by {
      forall n | n in rest
        ensures Admissible(rest, n)
      {
        assert Admissible(t, n);
      }
    }
    run := EveryGapFreeSetReached(rest);
    var s := Exec(EMPTY, run);
    assert Admissible(t, m);
    OneCall(s, m);
    assert rest + {m} == t;
    ExecConcat(EMPTY, run, [Submit(m), Check(m), Store(m)]);
    run := run + [Submit(m), Check(m), Store(m)];
  }
}
