/**
 Publishing blobs and getting them back from beacon nodes (go/ethadapter/blob.go and
 go/ethadapter/blob_beacon_client.go).
 */
module BlobRetrieval {
  import opened Wrappers
  import opened Bits
  import opened BlobCodec
  import opened ClientRotation
  import Rlp

  datatype Sidecar = Sidecar(blob: Blob, commitment: nat, proof: nat)

  /** The commitment scheme: commitments, proofs and versioned hashes are opaque numbers. */
  datatype Scheme = Scheme(
    commit: Blob -> Option<nat>,
    prove: (Blob, nat) -> Option<nat>,
    versionedHash: nat -> nat,
    verify: (Blob, nat, nat) -> bool)
  {
    function HashOfSidecar(s: Sidecar): nat {
      versionedHash(s.commitment)
    }
  }

  /** A blob of the code's size whose field elements are all below the modulus. */
  ghost predicate Canonical(b: Blob) {
    |b| == MAX_BLOB_BYTES &&
    forall i :: 0 <= i < FIELD_ELEMENTS ==> Rlp.FromBigEndian(b[32 * i..32 * i + 32]) < BLS_MODULUS
  }

  /** What is taken for granted of the cryptography. */
  ghost predicate Trusted(k: Scheme) {
    && (forall b :: Canonical(b) ==> k.commit(b).Some?)
    && (forall b :: k.commit(b).Some? ==> k.prove(b, k.commit(b).value).Some?)
    && (forall b :: k.commit(b).Some? ==> k.verify(b, k.commit(b).value, k.prove(b, k.commit(b).value).value))
    && (forall b, c: nat, p: nat :: k.verify(b, c, p) ==> k.commit(b) == Some(c))
    && (forall a, b :: k.commit(a).Some? && k.commit(a) == k.commit(b) ==> a == b)
    && (forall c: nat, d: nat :: k.versionedHash(c) == k.versionedHash(d) ==> c == d)
  }

  /** The assumptions do not contradict each other. */
  lemma TrustedIsPossible() returns (k: Scheme)
    ensures Trusted(k)
  {
    var number := (b: Blob) => Rlp.FromBigEndian([1] + b);
    k := Scheme(b => Some(number(b)), (b, c) => Some(0), c => c, (b, c, p) => c == number(b));
    forall a: Blob, b: Blob | number(a) == number(b)
      ensures a == b
    {
      Rlp.BigEndianCanonical([1] + a);
      Rlp.BigEndianCanonical([1] + b);
      assert ([1] + a)[1..] == a && ([1] + b)[1..] == b;
    }
  }

  // ----- publishing -----

  datatype BlobTxSidecar = BlobTxSidecar(blobs: seq<Blob>, commitments: seq<nat>, proofs: seq<nat>)

  ghost predicate Provable(k: Scheme, b: Blob) {
    k.commit(b).Some? && k.prove(b, k.commit(b).value).Some?
  }

  /** The blobs, each with its own commitment and proof, in order. */
  ghost predicate IsSidecarOf(k: Scheme, blobs: seq<Blob>, sidecar: BlobTxSidecar) {
    && sidecar.blobs == blobs
    && |sidecar.commitments| == |sidecar.proofs| == |blobs|
    && forall i :: 0 <= i < |blobs| ==>
         && k.commit(blobs[i]) == Some(sidecar.commitments[i])
         && k.prove(blobs[i], sidecar.commitments[i]) == Some(sidecar.proofs[i])
  }

  /** The versioned hashes of the blobs' commitments, in order. */
  ghost predicate HashesOf(k: Scheme, blobs: seq<Blob>, hashes: seq<nat>) {
    && |hashes| == |blobs|
    && forall i :: 0 <= i < |blobs| ==> k.commit(blobs[i]).Some? && hashes[i] == k.versionedHash(k.commit(blobs[i]).value)
  }

  method MakeSidecar(k: Scheme, blobs: seq<Blob>) returns (r: Result<(BlobTxSidecar, seq<nat>)>)
    ensures r.Ok? <==> forall i :: 0 <= i < |blobs| ==> Provable(k, blobs[i])
    ensures r.Ok? ==> IsSidecarOf(k, blobs, r.value.0) && HashesOf(k, blobs, r.value.1)
  {
    var commitments: seq<nat>, proofs: seq<nat>, hashes: seq<nat> := [], [], [];
    for i := 0 to |blobs|
      invariant |commitments| == |proofs| == |hashes| == i
      invariant forall j :: 0 <= j < i ==>
        && Provable(k, blobs[j])
        && k.commit(blobs[j]) == Some(commitments[j])
        && k.prove(blobs[j], commitments[j]) == Some(proofs[j])
        && hashes[j] == k.versionedHash(commitments[j])
    {
      var commitment := k.commit(blobs[i]);
      if commitment.None? {
        assert !Provable(k, blobs[i]);
        return Err;
      }
      var proof := k.prove(blobs[i], commitment.value);
      if proof.None? {
        assert !Provable(k, blobs[i]);
        return Err;
      }
      commitments := commitments + [commitment.value];
      proofs := proofs + [proof.value];
      hashes := hashes + [k.versionedHash(commitment.value)];
    }
    return Ok((BlobTxSidecar(blobs, commitments, proofs), hashes));
  }

  // ----- matching -----

  /** The last sidecar with a given hash: the one left in a map filled in order. */
  function LastWith(k: Scheme, s: seq<Sidecar>, h: nat): Option<Sidecar> {
    if s == [] then None
    else if k.HashOfSidecar(s[|s| - 1]) == h then Some(s[|s| - 1])
    else LastWith(k, s[..|s| - 1], h)
  }

  /** The first one: where a search stops. */
  function FirstWith(k: Scheme, s: seq<Sidecar>, h: nat): Option<Sidecar> {
    if s == [] then None
    else if k.HashOfSidecar(s[0]) == h then Some(s[0])
    else FirstWith(k, s[1..], h)
  }

  /** Sidecar `i` has hash `h` and no later one has. */
  ghost predicate LastAt(k: Scheme, s: seq<Sidecar>, h: nat, i: int) {
    0 <= i < |s| && k.HashOfSidecar(s[i]) == h && forall j :: i < j < |s| ==> k.HashOfSidecar(s[j]) != h
  }

  /** Sidecar `i` has hash `h` and no earlier one has. */
  ghost predicate FirstAt(k: Scheme, s: seq<Sidecar>, h: nat, i: int) {
    0 <= i < |s| && k.HashOfSidecar(s[i]) == h && forall j :: 0 <= j < i ==> k.HashOfSidecar(s[j]) != h
  }

  lemma {:induction false} LastWithIs(k: Scheme, s: seq<Sidecar>, h: nat)
    ensures LastWith(k, s, h).Some? ==> LastWith(k, s, h).value in s && k.HashOfSidecar(LastWith(k, s, h).value) == h
    ensures LastWith(k, s, h).Some? ==> exists i :: LastAt(k, s, h, i) && s[i] == LastWith(k, s, h).value
    ensures LastWith(k, s, h).None? ==> forall x :: x in s ==> k.HashOfSidecar(x) != h
  {
    if s != [] {
      var init, last := s[..|s| - 1], s[|s| - 1];
      LastWithIs(k, init, h);
      assert s == init + [last];
      if k.HashOfSidecar(last) == h {
        assert LastAt(k, s, h, |s| - 1);
      } else if LastWith(k, init, h).Some? {
        var i :| LastAt(k, init, h, i) && init[i] == LastWith(k, init, h).value;
        assert LastAt(k, s, h, i);
      }
    }
  }

  lemma {:induction false} FirstWithIs(k: Scheme, s: seq<Sidecar>, h: nat)
    ensures FirstWith(k, s, h).Some? ==> FirstWith(k, s, h).value in s && k.HashOfSidecar(FirstWith(k, s, h).value) == h
    ensures FirstWith(k, s, h).Some? ==> exists i :: FirstAt(k, s, h, i) && s[i] == FirstWith(k, s, h).value
    ensures FirstWith(k, s, h).None? ==> forall x :: x in s ==> k.HashOfSidecar(x) != h
  {
    if s != [] {
      FirstWithIs(k, s[1..], h);
      assert s == [s[0]] + s[1..];
      if k.HashOfSidecar(s[0]) == h {
        assert FirstAt(k, s, h, 0);
      } else if FirstWith(k, s[1..], h).Some? {
        var i :| FirstAt(k, s[1..], h, i) && s[1..][i] == FirstWith(k, s[1..], h).value;
        assert FirstAt(k, s, h, i + 1);
      }
    }
  }

  /** One sidecar per hash, in the order of the hashes; `Err` iff some hash has none. */
  method MatchSidecarsWithHashes(k: Scheme, fetched: seq<Sidecar>, hashes: seq<nat>) returns (r: Result<seq<Sidecar>>)
    ensures r.Ok? <==> forall i :: 0 <= i < |hashes| ==> LastWith(k, fetched, hashes[i]).Some?
    ensures r.Ok? ==>
      && |r.value| == |hashes|
      && forall i :: 0 <= i < |hashes| ==> LastWith(k, fetched, hashes[i]) == Some(r.value[i])
  {
    var byHash: map<nat, Sidecar> := map[];
    for i := 0 to |fetched|
      invariant forall h :: h in byHash <==> LastWith(k, fetched[..i], h).Some?
      invariant forall h :: h in byHash ==> LastWith(k, fetched[..i], h) == Some(byHash[h])
    {
      byHash := byHash[k.HashOfSidecar(fetched[i]) := fetched[i]];
      assert fetched[..i + 1][..i] == fetched[..i];
    }
    assert fetched[..|fetched|] == fetched;
    var out: seq<Sidecar> := [];
    for i := 0 to |hashes|
      invariant |out| == i
      invariant forall j :: 0 <= j < i ==> LastWith(k, fetched, hashes[j]) == Some(out[j])
    {
      if hashes[i] !in byHash {
        return Err;
      }
      out := out + [byHash[hashes[i]]];
    }
    return Ok(out);
  }

  /** The blob for hash `h` can be taken from these sidecars. */
  predicate Usable(k: Scheme, sidecars: seq<Sidecar>, h: nat) {
    var s := FirstWith(k, sidecars, h);
    s.Some? && k.verify(s.value.blob, s.value.commitment, s.value.proof)
  }

  method BlobsFromSidecars(k: Scheme, sidecars: seq<Sidecar>, hashes: seq<nat>) returns (r: Result<seq<Blob>>)
    ensures r.Ok? <==> |sidecars| == |hashes| && forall i :: 0 <= i < |hashes| ==> Usable(k, sidecars, hashes[i])
    ensures r.Ok? ==>
      && |r.value| == |hashes|
      && forall i :: 0 <= i < |hashes| ==> r.value[i] == FirstWith(k, sidecars, hashes[i]).value.blob
  {
    if |sidecars| != |hashes| {
      return Err;
    }
    var out: seq<Blob> := [];
    for i := 0 to |hashes|
      invariant |out| == i
      invariant forall j :: 0 <= j < i ==>
        Usable(k, sidecars, hashes[j]) && out[j] == FirstWith(k, sidecars, hashes[j]).value.blob
    {
      var matched: Option<Sidecar> := None;
      for j := 0 to |sidecars|
        invariant matched.None?
        invariant FirstWith(k, sidecars, hashes[i]) == FirstWith(k, sidecars[j..], hashes[i])
      {
        if k.HashOfSidecar(sidecars[j]) == hashes[i] {
          matched := Some(sidecars[j]);
          break;
        }
      }
      assert matched == FirstWith(k, sidecars, hashes[i]);
      if matched.None? {
        assert !Usable(k, sidecars, hashes[i]);
        return Err;
      }
      var s := matched.value;
      if !k.verify(s.blob, s.commitment, s.proof) {
        assert !Usable(k, sidecars, hashes[i]);
        return Err;
      }
      out := out + [s.blob];
    }
    return Ok(out);
  }

  /** With hashes, blob `i` comes from the last sidecar with hash `i`, and only if its proof holds. */
  ghost predicate Genuine(k: Scheme, resp: seq<Sidecar>, h: nat) {
    var s := LastWith(k, resp, h);
    s.Some? && k.verify(s.value.blob, s.value.commitment, s.value.proof)
  }

  /**
   What a fetch makes of an answer: with hashes, one blob for each, in their order, or an error
   if any is missing or fails its proof; without hashes, one blob for each sidecar.
   */
  ghost predicate FetchedIs(k: Scheme, resp: seq<Sidecar>, hashes: seq<nat>, r: Result<seq<Blob>>) {
    if hashes != [] then
      && (r.Ok? <==> forall i :: 0 <= i < |hashes| ==> Genuine(k, resp, hashes[i]))
      && (r.Ok? ==>
        && |r.value| == |hashes|
        && forall i :: 0 <= i < |hashes| ==> r.value[i] == LastWith(k, resp, hashes[i]).value.blob)
    else
      && (r.Ok? <==> forall i :: 0 <= i < |resp| ==> Usable(k, resp, k.HashOfSidecar(resp[i])))
      && (r.Ok? ==>
        && |r.value| == |resp|
        && forall i :: 0 <= i < |resp| ==> r.value[i] == FirstWith(k, resp, k.HashOfSidecar(resp[i])).value.blob)
  }

  method FetchBlobs(k: Scheme, resp: seq<Sidecar>, hashes: seq<nat>) returns (r: Result<seq<Blob>>)
    ensures FetchedIs(k, resp, hashes, r)
  {
    if |hashes| == 0 {
      var all := seq(|resp|, i requires 0 <= i < |resp| => k.HashOfSidecar(resp[i]));
      assert forall i :: 0 <= i < |resp| ==> all[i] == k.HashOfSidecar(resp[i]);
      r := BlobsFromSidecars(k, resp, all);
      return;
    }
    var matched := MatchSidecarsWithHashes(k, resp, hashes);
    if matched.Err? {
      assert exists i :: 0 <= i < |hashes| && !Genuine(k, resp, hashes[i]);
      return Err;
    }
    forall i | 0 <= i < |hashes|
      ensures FirstWith(k, matched.value, hashes[i]) == LastWith(k, resp, hashes[i])
    {
      FirstIsLast(k, resp, hashes, matched.value, i);
    }
    assert forall i :: 0 <= i < |hashes| ==> (Usable(k, matched.value, hashes[i]) <==> Genuine(k, resp, hashes[i]));
    r := BlobsFromSidecars(k, matched.value, hashes);
  }

  /** The same, asking the clients of a pool in turn. */
  method FetchBlobsVia(pool: ClientPool, k: Scheme, ask: nat -> Result<seq<Sidecar>>, hashes: seq<nat>)
    returns (r: Result<seq<Blob>>)
    requires pool.Valid()
    modifies pool
    ensures pool.Valid()
    ensures pool.len == 0 ==> FetchedIs(k, [], hashes, r)
    ensures pool.len > 0 ==>
      && pool.index == IndexAfter(pool.len, old(pool.index), ask)
      && pool.asked == old(pool.asked) + Asked(pool.len, old(pool.index), ask)
      && (if ask(pool.index).Ok? then FetchedIs(k, ask(pool.index).value, hashes, r) else r.Err?)
  {
    var resp := pool.FetchSidecars(ask, []);
    if resp.Err? {
      return Err;
    }
    r := FetchBlobs(k, resp.value, hashes);
  }

  lemma FirstIsLast(k: Scheme, resp: seq<Sidecar>, hashes: seq<nat>, matched: seq<Sidecar>, i: nat)
    requires |matched| == |hashes| && i < |hashes|
    requires forall j :: 0 <= j < |hashes| ==> LastWith(k, resp, hashes[j]) == Some(matched[j])
    ensures FirstWith(k, matched, hashes[i]) == LastWith(k, resp, hashes[i])
  {
    var h := hashes[i];
    FirstWithIs(k, matched, h);
    LastWithIs(k, resp, h);
    assert matched[i] in matched;
    var s := FirstWith(k, matched, h).value;
    var j :| 0 <= j < |matched| && matched[j] == s;
    LastWithIs(k, resp, hashes[j]);
  }

  // ----- end to end -----

  /** Whatever a beacon node answers, a fetch by hash gives the published blob or an error. */
  lemma FetchIsSafe(k: Scheme, b: Blob, resp: seq<Sidecar>, h: nat)
    requires Trusted(k) && k.commit(b).Some? && h == k.versionedHash(k.commit(b).value)
    requires Genuine(k, resp, h)
    ensures LastWith(k, resp, h).value.blob == b
  {
    LastWithIs(k, resp, h);
  }

  /** Some sidecar of the answer has hash `h`, and none that has it is forged. */
  ghost predicate Unforged(k: Scheme, resp: seq<Sidecar>, h: nat) {
    && (exists s :: s in resp && k.HashOfSidecar(s) == h)
    && (forall s :: s in resp && k.HashOfSidecar(s) == h ==> k.verify(s.blob, s.commitment, s.proof))
  }

  /** If the blob's sidecar is in the answer and no forged one has its hash, the blob itself is found. */
  lemma FetchFinds(k: Scheme, b: Blob, resp: seq<Sidecar>, h: nat)
    requires Trusted(k) && k.commit(b).Some? && h == k.versionedHash(k.commit(b).value)
    requires Unforged(k, resp, h)
    ensures Genuine(k, resp, h) && LastWith(k, resp, h).value.blob == b
  {
    LastWithIs(k, resp, h);
    FetchIsSafe(k, b, resp, h);
  }

  /**
   Without hashes: every blob returned is one its sidecar's commitment was made for, in the order
   of the answer; and when no sidecar of the answer is forged, they are the blobs of the answer.
   */
  lemma FetchAll(k: Scheme, resp: seq<Sidecar>, fetched: Result<seq<Blob>>)
    requires Trusted(k) && FetchedIs(k, resp, [], fetched)
    ensures fetched.Ok? ==> |fetched.value| == |resp| && forall i :: 0 <= i < |resp| ==> k.commit(fetched.value[i]) == Some(resp[i].commitment)
    ensures (forall i :: 0 <= i < |resp| ==> k.verify(resp[i].blob, resp[i].commitment, resp[i].proof)) ==>
      fetched.Ok? && forall i :: 0 <= i < |resp| ==> fetched.value[i] == resp[i].blob
  {
    forall i | 0 <= i < |resp|
      ensures FirstWith(k, resp, k.HashOfSidecar(resp[i])).Some?
      ensures
        var s := FirstWith(k, resp, k.HashOfSidecar(resp[i])).value;
        s in resp && s.commitment == resp[i].commitment
    {
      FirstWithIs(k, resp, k.HashOfSidecar(resp[i]));
    }
    assert fetched.Ok? ==> forall i :: 0 <= i < |resp| ==> Usable(k, resp, k.HashOfSidecar(resp[i]));
  }

  lemma BlobsCanonical(data: seq<byte>, i: nat)
    requires Shape(FIELD_ELEMENTS) && i < |Blobs(FIELD_ELEMENTS, data)|
    ensures Canonical(Blobs(FIELD_ELEMENTS, data)[i])
    decreases |data|
  {
    var n := FIELD_ELEMENTS;
    if |data| <= Capacity(n) {
      BlobCanonical(data);
    } else if i == 0 {
      BlobCanonical(data[..Capacity(n)]);
    } else {
      BlobsCanonical(data[Capacity(n)..], i - 1);
    }
  }

  lemma BlobCanonical(chunk: seq<byte>)
    ensures Canonical(BlobOf(FIELD_ELEMENTS, chunk))
  {
    forall i | 0 <= i < FIELD_ELEMENTS
      ensures Rlp.FromBigEndian(BlobOf(FIELD_ELEMENTS, chunk)[32 * i..32 * i + 32]) < BLS_MODULUS
    {
      ElementsBelowModulus(FIELD_ELEMENTS, chunk, i);
    }
  }

  /** The blobs published for `data`. */
  ghost function BlobsFor(data: seq<byte>): seq<Blob>
    requires |data| < Rlp.LENGTH_LIMIT
  {
    assert Shape(FIELD_ELEMENTS);
    Blobs(FIELD_ELEMENTS, Rlp.Encode(data))
  }

  /**
   Fetching by the hashes of the blobs of `data`, whatever the beacon node answers: it succeeds
   exactly when every hash has a last sidecar that verifies; then it returns those blobs in
   order and they decode to `data`; and it does succeed when each blob's sidecar is in the
   answer, in any order and among any others, with no forged one under its hash.
   */
  lemma EndToEnd(k: Scheme, data: seq<byte>, hashes: seq<nat>, resp: seq<Sidecar>, fetched: Result<seq<Blob>>)
    requires Trusted(k) && |data| < Rlp.LENGTH_LIMIT
    requires HashesOf(k, BlobsFor(data), hashes) && FetchedIs(k, resp, hashes, fetched)
    ensures fetched.Ok? <==> forall i :: 0 <= i < |hashes| ==> Genuine(k, resp, hashes[i])
    ensures fetched.Ok? ==>
      && fetched.value == BlobsFor(data) && AreBlobs(FIELD_ELEMENTS, fetched.value)
      && Decoded(FIELD_ELEMENTS, fetched.value) == Ok(data)
    ensures (forall i :: 0 <= i < |hashes| ==> Unforged(k, resp, hashes[i])) ==> fetched.Ok?
  {
    var blobs := BlobsFor(data);
    assert Shape(FIELD_ELEMENTS);
    BlobRoundTrip(FIELD_ELEMENTS, data);
    if fetched.Ok? {
      forall i | 0 <= i < |blobs|
        ensures fetched.value[i] == blobs[i]
      {
        FetchIsSafe(k, blobs[i], resp, hashes[i]);
      }
      assert fetched.value == blobs;
    }
    if forall i :: 0 <= i < |hashes| ==> Unforged(k, resp, hashes[i]) {
      forall i | 0 <= i < |hashes|
        ensures Genuine(k, resp, hashes[i])
      {
        FetchFinds(k, blobs[i], resp, hashes[i]);
      }
    }
  }

  /**
   Encode, publish, fetch, decode: publishing succeeds on every data that is accepted, with the
   blobs of the data and their hashes; the fetch is by those hashes; and what is decoded is the
   data, exactly when the fetch succeeds (see `EndToEnd`).
   */
  method PublishAndRecover(k: Scheme, data: seq<byte>, answer: seq<nat> -> seq<Sidecar>)
    returns (published: Result<(BlobTxSidecar, seq<nat>)>, recovered: Result<seq<byte>>)
    requires Trusted(k) && |data| < Rlp.LENGTH_LIMIT
    ensures published.Ok? <==> |data| <= 131067
    ensures published.Err? ==> recovered.Err?
    ensures published.Ok? ==>
      var (sidecar, hashes) := published.value;
      && IsSidecarOf(k, BlobsFor(data), sidecar) && HashesOf(k, BlobsFor(data), hashes) && 1 <= |hashes| <= 2
      && (recovered.Ok? <==> forall i :: 0 <= i < |hashes| ==> Genuine(k, answer(hashes), hashes[i]))
      && (recovered.Ok? ==> recovered.value == data)
      && ((forall i :: 0 <= i < |hashes| ==> Unforged(k, answer(hashes), hashes[i])) ==> recovered == Ok(data))
  {
    AcceptedExactly(data);
    assert Shape(FIELD_ELEMENTS);
    var encoded := EncodeBlobs(FIELD_ELEMENTS, data);
    if encoded.Err? {
      return Err, Err;
    }
    var blobs := encoded.value;
    BlobCount(Rlp.Encode(data));
    forall i | 0 <= i < |blobs|
      ensures Provable(k, blobs[i])
    {
      BlobsCanonical(Rlp.Encode(data), i);
    }
    published := MakeSidecar(k, blobs);
    var hashes := published.value.1;
    var fetched := FetchBlobs(k, answer(hashes), hashes);
    EndToEnd(k, data, hashes, answer(hashes), fetched);
    if fetched.Err? {
      recovered := Err;
    } else {
      recovered := DecodeBlobs(FIELD_ELEMENTS, fetched.value);
    }
  }
}
