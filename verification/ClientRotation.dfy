/**
 The round-robin pool of blob sources and the fetch that rotates over it
 (go/ethadapter/blob_beacon_client.go).
 */
module ClientRotation {
  import opened Wrappers

  /** The `j`-th client asked when starting from `start`. */
  function At(n: nat, start: nat, j: nat): nat
    requires start < n && j <= n
  {
    if start + j < n then start + j else start + j - n
  }

  lemma AtIsModular(n: nat, start: nat, j: nat)
    requires start < n && j <= n
    ensures At(n, start, j) == (start + j) % n
  {
    var q := (start + j) / n;
    assert start + j == n * q + (start + j) % n;
    assert q < 2;
    assert q == 1 ==> n * q == n;
  }

  /** How many clients fail before one answers; `n` when none does. */
  ghost function Failing<T>(n: nat, start: nat, ask: nat -> Result<T>, j: nat): (k: nat)
    requires start < n && j <= n
    ensures j <= k <= n
    ensures forall i :: j <= i < k ==> ask(At(n, start, i)).Err?
    ensures k < n ==> ask(At(n, start, k)).Ok?
    decreases n - j
  {
    if j == n || ask(At(n, start, j)).Ok? then j else Failing(n, start, ask, j + 1)
  }

  /** The first `k` clients in turn. */
  ghost function Cycle(n: nat, start: nat, k: nat): seq<nat>
    requires start < n && k <= n
  {
    seq(k, j requires 0 <= j <= n => At(n, start, j))
  }

  /** The clients asked in one fetch, in order. */
  ghost function Asked<T>(n: nat, start: nat, ask: nat -> Result<T>): seq<nat>
    requires start < n
  {
    var k := Failing(n, start, ask, 0);
    Cycle(n, start, if k < n then k + 1 else n)
  }

  ghost function IndexAfter<T>(n: nat, start: nat, ask: nat -> Result<T>): (i: nat)
    requires start < n
    ensures i < n
  {
    var k := Failing(n, start, ask, 0);
    if k < n then At(n, start, k) else start
  }

  /** One fetch asks no client twice, and asks all of them before it fails. */
  lemma AskedOnce<T>(n: nat, start: nat, ask: nat -> Result<T>, c: nat)
    requires start < n && c < n
    ensures forall i, j :: 0 <= i < j < |Asked(n, start, ask)| ==> Asked(n, start, ask)[i] != Asked(n, start, ask)[j]
    ensures (forall j :: 0 <= j < n ==> ask(At(n, start, j)).Err?) ==> c in Asked(n, start, ask)
    ensures (forall d :: 0 <= d < n ==> ask(d).Err?) <==> Failing(n, start, ask, 0) == n
  {
    var asked := Asked(n, start, ask);
    var j := if c >= start then c - start else c + n - start;
    assert At(n, start, j) == c;
    if forall j :: 0 <= j < n ==> ask(At(n, start, j)).Err? {
      assert asked[j] == c;
    }
    if Failing(n, start, ask, 0) == n {
      forall d | 0 <= d < n
        ensures ask(d).Err?
      {
        assert At(n, start, if d >= start then d - start else d + n - start) == d;
      }
    }
  }

  /**
   The clients are asked one after the other: first the one the pool rests on, then each time the
   next one, or client 0 after the last. All but the last asked fail; a fetch that gets an answer
   stops with it and rests on that client, and one that gets none is back where it began.
   */
  lemma AskedInTurn<T>(n: nat, start: nat, ask: nat -> Result<T>)
    requires start < n
    ensures
      var asked := Asked(n, start, ask);
      var last := |asked| - 1;
      && last >= 0 && asked[0] == start
      && (forall j :: 0 <= j < last ==> asked[j + 1] == if asked[j] + 1 == n then 0 else asked[j] + 1)
      && (forall j :: 0 <= j < last ==> ask(asked[j]).Err?)
      && (if ask(asked[last]).Ok? then IndexAfter(n, start, ask) == asked[last]
          else |asked| == n && IndexAfter(n, start, ask) == start)
  {
  }

  ghost function RunIndex<T>(n: nat, start: nat, asks: seq<nat -> Result<T>>): (i: nat)
    requires start < n
    ensures i < n
  {
    if asks == [] then start
    else IndexAfter(n, RunIndex(n, start, asks[..|asks| - 1]), asks[|asks| - 1])
  }

  /**
   Over any sequence of fetches: the pool rests on the client that answered the last fetch
   that got an answer, whatever failed before and after it.
   */
  lemma {:induction false} RestsOnLastAnswer<T>(n: nat, start: nat, asks: seq<nat -> Result<T>>, k: nat)
    requires start < n && k < |asks|
    requires exists c :: 0 <= c < n && asks[k](c).Ok?
    requires forall i :: k < i < |asks| ==> forall c :: 0 <= c < n ==> asks[i](c).Err?
    ensures asks[k](RunIndex(n, start, asks)).Ok?
    ensures RunIndex(n, start, asks) == IndexAfter(n, RunIndex(n, start, asks[..k]), asks[k])
    decreases |asks|
  {
    var init, last := asks[..|asks| - 1], asks[|asks| - 1];
    var at := RunIndex(n, start, init);
    AskedOnce(n, at, last, 0);
    if k < |asks| - 1 {
      assert init[k] == asks[k] && init[..k] == asks[..k];
      RestsOnLastAnswer(n, start, init, k);
      assert asks[|asks| - 1] == last;
    }
  }

  /** Fetches that all fail leave the pool where it was. */
  lemma {:induction false} RestsWithoutAnswer<T>(n: nat, start: nat, asks: seq<nat -> Result<T>>)
    requires start < n
    requires forall i :: 0 <= i < |asks| ==> forall c :: 0 <= c < n ==> asks[i](c).Err?
    ensures RunIndex(n, start, asks) == start
  {
    if asks != [] {
      var init, last := asks[..|asks| - 1], asks[|asks| - 1];
      assert forall i :: 0 <= i < |init| ==> init[i] == asks[i];
      RestsWithoutAnswer(n, start, init);
      AskedOnce(n, start, last, 0);
    }
  }

  /** A round-robin pool; `asked` records the clients called. */
  class ClientPool {
    const len: nat
    var index: nat
    var asked: seq<nat>

    ghost predicate Valid()
      reads this
    {
      len == 0 || index < len
    }

    constructor (len: nat)
      ensures Valid() && this.len == len && index == 0 && asked == []
    {
      this.len := len;
      index := 0;
      asked := [];
    }

    method Next()
      requires len > 0 && index < len
      modifies this`index
      ensures Valid() && index == At(len, old(index), 1) == (old(index) + 1) % len
    {
      AtIsModular(len, index, 1);
      index := index + 1;
      if index == len {
        index := 0;
      }
    }

    /**
     Asks the clients in turn, starting where the last fetch stopped. `ask` is what each client
     answers to this request. An empty pool reports success with nothing in it.
     */
    method FetchSidecars<T>(ask: nat -> Result<T>, nothing: T) returns (r: Result<T>)
      requires Valid()
      modifies this
      ensures Valid()
      ensures len == 0 ==> r == Ok(nothing) && asked == old(asked)
      ensures len > 0 ==>
        && index == IndexAfter(len, old(index), ask)
        && asked == old(asked) + Asked(len, old(index), ask)
        && r == (if Failing(len, old(index), ask, 0) < len then ask(index) else Err)
    {
      if len == 0 {
        return Ok(nothing);
      }
      ghost var k := Failing(len, index, ask, 0);
      for i := 0 to len
        invariant i <= k
        invariant index == if i == len then old(index) else At(len, old(index), i)
        invariant asked == old(asked) + Cycle(len, old(index), i)
      {
        asked := asked + [index];
        var resp := ask(index);
        if resp.Ok? {
          assert i == k;
          return resp;
        }
        assert i != k;
        Next();
      }
      return Err;
    }
  }
}
