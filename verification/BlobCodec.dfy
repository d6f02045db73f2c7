/**
 Packing bytes into EIP-4844 blobs and unpacking them (go/ethadapter/blob.go).

 A blob is `n` field elements of 32 bytes. The 31 low bytes of each element carry whole data
 bytes; the top bytes carry a stream of six bits each. The number of elements is a parameter,
 a positive multiple of four; the code uses `FIELD_ELEMENTS`.
 */
module BlobCodec {
  import opened Wrappers
  import opened Bits
  import Rlp

  const FIELD_ELEMENTS: nat := 4096
  const EXCESS_BLOB_BITS: nat := 6

  type Blob = seq<byte>

  predicate Shape(n: nat) {
    n > 0 && n % 4 == 0
  }

  /** How many top bytes' worth of whole bytes a blob holds, and how many bytes in all. */
  function TopCapacity(n: nat): nat {
    3 * (n / 4)
  }

  function Capacity(n: nat): nat {
    31 * n + TopCapacity(n)
  }

  // ----- what a blob should hold, in closed form -----

  /** Bit `j` of the data, read byte by byte from the least significant bit; zero past the end. */
  predicate DataBit(data: seq<byte>, j: nat) {
    j / 8 < |data| && Bit(data[j / 8], j % 8)
  }

  /** `t` carries the six bits of the data stream that belong to element `i`. */
  ghost predicate IsTopByte(t: byte, data: seq<byte>, i: nat) {
    t < 64 && forall b: nat :: b < 6 ==> (Bit(t, b) <==> DataBit(data, 6 * i + b))
  }

  ghost function TopByte(data: seq<byte>, i: nat): (t: byte)
    ensures IsTopByte(t, data, i)
  {
    TopByteExists(data, i);
    var t :| IsTopByte(t, data, i);
    t
  }

  lemma TopByteExists(data: seq<byte>, i: nat)
    ensures exists t :: IsTopByte(t, data, i)
  {
    var t := Gathered((b: nat) => DataBit(data, 6 * i + b), 6);
    assert Pow2(6) == 64;
    assert IsTopByte(t, data, i);
  }

  lemma TopByteUnique(t: byte, data: seq<byte>, i: nat)
    requires IsTopByte(t, data, i)
    ensures t == TopByte(data, i)
  {
    var u := TopByte(data, i);
    assert Pow2(6) == 64;
    forall b: nat | b < 6 ensures Bit(t, b) <==> Bit(u, b) {
      assert Bit(t, b) <==> DataBit(data, 6 * i + b);
    }
    SameBits(t, u, 6);
  }

  function ByteAt(data: seq<byte>, j: nat): byte {
    if j < |data| then data[j] else 0
  }

  /** The data left for the top bytes. */
  function Tail(n: nat, data: seq<byte>): seq<byte> {
    if |data| <= 31 * n then [] else data[31 * n..]
  }

  /** The data index that lands on byte `p` of a blob, for a `p` that is not a top byte. */
  function LowIndex(p: nat): nat
    requires p % 32 != 0
  {
    31 * (p / 32) + p % 32 - 1
  }

  ghost function BlobOf(n: nat, chunk: seq<byte>): Blob {
    seq(32 * n, p requires 0 <= p < 32 * n =>
      if p % 32 == 0 then TopByte(Tail(n, chunk), p / 32) else ByteAt(chunk, LowIndex(p)))
  }

  /** The data cut into blobs. */
  ghost function Blobs(n: nat, data: seq<byte>): seq<Blob>
    requires Shape(n)
    decreases |data|
  {
    if data == [] then []
    else if |data| <= Capacity(n) then [BlobOf(n, data)]
    else [BlobOf(n, data[..Capacity(n)])] + Blobs(n, data[Capacity(n)..])
  }

  /**
   Bit `j` of the stream read from the top bytes of the first `i` elements. A top byte of
   64 or more spills its two high bits over the next one.
   */
  predicate StreamBit(blob: Blob, i: nat, j: nat)
    requires 32 * i <= |blob|
  {
    (j / 6 < i && Bit(blob[32 * (j / 6)], j % 6)) ||
    (1 <= j / 6 <= i && j % 6 < 2 && Bit(blob[32 * (j / 6 - 1)], j % 6 + 6))
  }

  ghost predicate IsStreamByte(t: byte, blob: Blob, n: nat, k: nat)
    requires 32 * n <= |blob|
  {
    forall b: nat :: b < 8 ==> (Bit(t, b) <==> StreamBit(blob, n, 8 * k + b))
  }

  ghost function StreamByte(blob: Blob, n: nat, k: nat): (t: byte)
    requires 32 * n <= |blob|
    ensures IsStreamByte(t, blob, n, k)
  {
    StreamByteExists(blob, n, k);
    var t :| IsStreamByte(t, blob, n, k);
    t
  }

  lemma StreamByteExists(blob: Blob, n: nat, k: nat)
    requires 32 * n <= |blob|
    ensures exists t :: IsStreamByte(t, blob, n, k)
  {
    var t := Gathered((b: nat) => StreamBit(blob, n, 8 * k + b), 8);
    assert Pow2(8) == 256;
    assert IsStreamByte(t, blob, n, k);
  }

  lemma StreamByteUnique(t: byte, blob: Blob, n: nat, k: nat)
    requires 32 * n <= |blob| && IsStreamByte(t, blob, n, k)
    ensures t == StreamByte(blob, n, k)
  {
    var u := StreamByte(blob, n, k);
    assert Pow2(8) == 256;
    forall b: nat | b < 8 ensures Bit(t, b) <==> Bit(u, b) {
      assert Bit(t, b) <==> StreamBit(blob, n, 8 * k + b);
    }
    SameBits(t, u, 8);
  }

  function Lows(n: nat, blob: Blob): seq<byte>
    requires |blob| == 32 * n
  {
    seq(31 * n, j requires 0 <= j < 31 * n => blob[j + j / 31 + 1])
  }

  ghost function Tops(n: nat, blob: Blob): seq<byte>
    requires |blob| == 32 * n
  {
    seq(TopCapacity(n), k requires 0 <= k => StreamByte(blob, n, k))
  }

  ghost function Payload(n: nat, blob: Blob): seq<byte>
    requires |blob| == 32 * n
  {
    Lows(n, blob) + Tops(n, blob)
  }

  predicate AreBlobs(n: nat, blobs: seq<Blob>) {
    forall i :: 0 <= i < |blobs| ==> |blobs[i]| == 32 * n
  }

  ghost function Payloads(n: nat, blobs: seq<Blob>): seq<byte>
    requires AreBlobs(n, blobs)
  {
    if blobs == [] then [] else Payloads(n, blobs[..|blobs| - 1]) + Payload(n, blobs[|blobs| - 1])
  }

  // ----- encoding -----

  /** `s` with the low bytes of its first `e` elements overwritten by as much of the data as there is. */
  ghost function WithLows(s: Blob, data: seq<byte>, e: nat): Blob {
    seq(|s|, p requires 0 <= p < |s| =>
      if p < 32 * e && p % 32 != 0 && LowIndex(p) < |data| then data[LowIndex(p)] else s[p])
  }

  /** `s` with the top bytes of its first `i` elements overwritten. */
  ghost function WithTops(s: Blob, data: seq<byte>, i: nat): Blob {
    seq(|s|, p requires 0 <= p < |s| =>
      if p % 32 == 0 && p / 32 < i then TopByte(data, p / 32) else s[p])
  }

  lemma OneMoreTop(s: Blob, data: seq<byte>, i: nat)
    requires 32 * i < |s|
    ensures WithTops(s, data, i)[32 * i := TopByte(data, i)] == WithTops(s, data, i + 1)
  {
  }

  lemma OneMoreLow(s: Blob, data: seq<byte>, e: nat, t: Blob)
    requires 32 * e + 32 <= |s| && |t| == |s|
    requires forall p :: 0 <= p < |s| ==>
      t[p] == if 32 * e < p < 32 * e + 32 && p - e - 1 < |data| then data[p - e - 1] else WithLows(s, data, e)[p]
    ensures t == WithLows(s, data, e + 1)
  {
    forall p | 0 <= p < |s|
      ensures t[p] == WithLows(s, data, e + 1)[p]
    {
      if 32 * e < p < 32 * e + 32 {
        assert LowIndex(p) == p - e - 1;
      }
    }
  }

  method FillBlobBytes(n: nat, blob: array<byte>, data: seq<byte>) returns (rest: seq<byte>)
    requires blob.Length == 32 * n
    modifies blob
    ensures rest == Tail(n, data)
    ensures blob[..] == WithLows(old(blob[..]), data, n)
  {
    rest := data;
    for e := 0 to n
      invariant 31 * e <= |data| && rest == data[31 * e..]
      invariant blob[..] == WithLows(old(blob[..]), data, e)
    {
      var start := e * 32 + 1;
      var count := if |rest| < 31 then |rest| else 31;
      ghost var before := blob[..];
      forall k | 0 <= k < count {
        blob[start + k] := rest[k];
      }
      forall p | 0 <= p < 32 * n
        ensures blob[p] == if 32 * e < p < 32 * e + 32 && p - e - 1 < |data| then data[p - e - 1] else before[p]
      {
        if 32 * e < p < 32 * e + 32 && p - e - 1 < |data| {
          assert blob[start + (p - start)] == rest[p - start];
        }
      }
      OneMoreLow(old(blob[..]), data, e, blob[..]);
      if |rest| <= 31 {
        NoMoreLows(old(blob[..]), data, e + 1, n);
        return [];
      }
      rest := rest[31..];
    }
  }

  lemma NoMoreLows(s: Blob, data: seq<byte>, e: nat, n: nat)
    requires |data| <= 31 * e && e <= n
    ensures WithLows(s, data, e) == WithLows(s, data, n)
  {
  }

  /** How many top bytes are written: the write that runs out of bits is the last one. */
  function Written(n: nat, data: seq<byte>): nat {
    if 8 * |data| / 6 + 1 < n then 8 * |data| / 6 + 1 else n
  }

  /** The accumulator holds the next `bits` bits of the stream, from element `i` on. */
  ghost predicate Holds(acc: nat, bits: int, data: seq<byte>, i: nat) {
    forall b: nat :: Bit(acc, b) <==> b < bits && DataBit(data, 6 * i + b)
  }

  lemma AddByte(data: seq<byte>, i: nat, c: nat, acc: nat, bits: nat)
    requires c < |data| && bits == 8 * c - 6 * i && bits <= 8
    requires Holds(acc, bits, data, i)
    ensures Holds(Or(acc, Shl16(data[c], bits)), bits + 8, data, i)
  {
    forall b: nat
      ensures Bit(Or(acc, Shl16(data[c], bits)), b) <==> b < bits + 8 && DataBit(data, 6 * i + b)
    {
      OrBits(acc, Shl16(data[c], bits), b);
      ShiftedByte(data[c], bits, b);
      assert Bit(acc, b) <==> b < bits && DataBit(data, 6 * i + b);
      if bits <= b < bits + 8 {
        ByteInStream(data, c, b - bits);
        assert 6 * i + b == 8 * c + (b - bits);
      }
    }
  }

  /** Shifting a byte by at most eight loses nothing of it in sixteen bits. */
  lemma ShiftedByte(x: byte, k: nat, b: nat)
    requires k <= 8
    ensures Bit(Shl16(x, k), b) <==> k <= b < k + 8 && Bit(x, b - k)
  {
    LowBits(Shl(x, k), 16, b);
    ShlBits(x, k, b);
    if b >= k + 8 {
      assert Pow2(8) == 256;
      HighBits(x, 8, b - k);
    }
  }

  lemma ByteInStream(data: seq<byte>, c: nat, b: nat)
    requires c < |data| && b < 8
    ensures DataBit(data, 8 * c + b) <==> Bit(data[c], b)
  {
    assert (8 * c + b) / 8 == c && (8 * c + b) % 8 == b;
  }

  lemma TakeSix(data: seq<byte>, i: nat, acc: nat, bits: nat)
    requires Holds(acc, bits, data, i)
    requires bits >= 6 || 6 * i + bits == 8 * |data|
    ensures Low(acc, 6) == TopByte(data, i)
  {
    LowBits(acc, 6, 0);
    assert Pow2(6) == 64;
    forall b: nat | b < 6
      ensures Bit(Low(acc, 6), b) <==> DataBit(data, 6 * i + b)
    {
      LowBits(acc, 6, b);
      assert Bit(acc, b) <==> b < bits && DataBit(data, 6 * i + b);
    }
    TopByteUnique(Low(acc, 6), data, i);
  }

  lemma DropSix(data: seq<byte>, i: nat, acc: nat, bits: nat)
    requires Holds(acc, bits, data, i)
    ensures Holds(Shr(acc, 6), bits - 6, data, i + 1)
  {
    forall b: nat
      ensures Bit(Shr(acc, 6), b) <==> b < bits - 6 && DataBit(data, 6 * (i + 1) + b)
    {
      ShrBits(acc, 6, b);
    }
  }

  /** The accumulator after topping it up with a byte, when one is needed and there is one. */
  function ToppedUp(data: seq<byte>, c: nat, acc: nat, bits: nat): (nat, nat)
    requires c <= |data|
  {
    if bits < EXCESS_BLOB_BITS && c < |data| then (Or(acc, Shl16(data[c], bits)), bits + 8) else (acc, bits)
  }

  /** One turn of the loop: the six bits taken are the right ones, and so is what stays. */
  lemma OneTurn(data: seq<byte>, i: nat, c: nat, acc: nat, bits: nat)
    requires c <= |data| && bits == 8 * c - 6 * i && bits <= 6 && Holds(acc, bits, data, i)
    ensures
      var (full, n) := ToppedUp(data, c, acc, bits);
      Low(full, 6) == TopByte(data, i) && Holds(Shr(full, 6), n - 6, data, i + 1)
  {
    if bits < 6 && c < |data| {
      AddByte(data, i, c, acc, bits);
    }
    var (full, n) := ToppedUp(data, c, acc, bits);
    TakeSix(data, i, full, n);
    DropSix(data, i, full, n);
  }

  /** The loop stops early: it has written the top byte that ran out of bits. */
  lemma StopsEarly(n: nat, data: seq<byte>, i: nat)
    requires Shape(n) && 1 <= i <= n && 6 * (i - 1) <= 8 * |data| < 6 * i
    ensures Written(n, data) == i && |data| <= TopCapacity(n)
  {
  }

  /** The loop runs to the end: every bit of its bytes has been written. */
  lemma RunsToEnd(n: nat, data: seq<byte>, c: nat, bits: nat)
    requires Shape(n) && c <= |data| && bits <= 6 && bits == 8 * c - 6 * n
    ensures bits == 0 && c == TopCapacity(n) && Written(n, data) == n
  {
    var q := n / 4;
    assert n == 4 * q;
    assert bits == 8 * (c - 3 * q);
    assert c == 3 * q;
    assert 8 * |data| >= 6 * n;
    assert 8 * |data| / 6 >= n;
  }

  /** The error for spare bits is never returned. */
  method FillBlobBits(n: nat, blob: array<byte>, data: seq<byte>) returns (r: Result<seq<byte>>)
    requires Shape(n) && blob.Length == 32 * n
    modifies blob
    ensures r == Ok(if |data| <= TopCapacity(n) then [] else data[TopCapacity(n)..])
    ensures blob[..] == WithTops(old(blob[..]), data, Written(n, data))
  {
    ghost var start := blob[..];
    var rest := data;
    var acc: nat, accBits: int := 0, 0;
    ghost var c := 0;
    var i := 0;
    forall b: nat ensures !Bit(0, b) { ZeroBits(b); }
    while i < n
      invariant 0 <= i <= n && 0 <= c <= |data| && rest == data[c..]
      invariant 0 <= accBits <= 6 && accBits == 8 * c - 6 * i
      invariant Holds(acc, accBits, data, i)
      invariant blob[..] == WithTops(start, data, i)
    {
      OneTurn(data, i, c, acc, accBits);
      if accBits < EXCESS_BLOB_BITS && |rest| > 0 {
        acc := Or(acc, Shl16(rest[0], accBits));
        accBits := accBits + 8;
        rest := rest[1..];
        c := c + 1;
      }
      OneMoreTop(start, data, i);
      blob[i * 32] := Low(acc, EXCESS_BLOB_BITS);
      assert blob[..] == WithTops(start, data, i)[32 * i := TopByte(data, i)];
      accBits := accBits - EXCESS_BLOB_BITS;
      i := i + 1;
      if accBits < 0 {
        StopsEarly(n, data, i);
        break;
      }
      acc := Shr(acc, EXCESS_BLOB_BITS);
    }
    if accBits >= 0 {
      RunsToEnd(n, data, c, accBits);
    }
    if accBits > 0 {
      assert false; // no bits are ever left over
    }
    return Ok(rest);
  }

  /** Both fills together turn a zeroed blob into the blob of the next chunk. */
  method FillBlob(n: nat, data: seq<byte>) returns (blob: array<byte>, r: Result<seq<byte>>)
    requires Shape(n)
    ensures fresh(blob) && blob.Length == 32 * n
    ensures |data| <= Capacity(n) ==> r == Ok([]) && blob[..] == BlobOf(n, data)
    ensures |data| > Capacity(n) ==> r == Ok(data[Capacity(n)..]) && blob[..] == BlobOf(n, data[..Capacity(n)])
  {
    blob := new byte[32 * n](_ => 0);
    var rest := FillBlobBytes(n, blob, data);
    ghost var lows := blob[..];
    r := FillBlobBits(n, blob, rest);
    ghost var chunk := if |data| <= Capacity(n) then data else data[..Capacity(n)];
    forall p | 0 <= p < 32 * n
      ensures blob[p] == BlobOf(n, chunk)[p]
    {
      if p % 32 == 0 {
        TopByteOfPrefix(n, rest, Tail(n, chunk), p / 32);
        if p / 32 >= Written(n, rest) {
          TopByteZero(rest, p / 32);
        }
      }
    }
    assert blob[..] == BlobOf(n, chunk);
  }

  /** The bits of `n` top bytes depend on the first `TopCapacity(n)` bytes only. */
  lemma TopByteOfPrefix(n: nat, long: seq<byte>, short: seq<byte>, i: nat)
    requires Shape(n) && i < n && short <= long
    requires |short| == |long| || |short| == TopCapacity(n)
    ensures TopByte(long, i) == TopByte(short, i)
  {
    var t := TopByte(short, i);
    forall b: nat | b < 6
      ensures Bit(t, b) <==> DataBit(long, 6 * i + b)
    {
      var j := 6 * i + b;
      assert j < 6 * n;
      assert j / 8 < TopCapacity(n);
      assert Bit(t, b) <==> DataBit(short, j);
    }
    TopByteUnique(t, long, i);
  }

  lemma TopByteZero(data: seq<byte>, i: nat)
    requires 6 * i >= 8 * |data|
    ensures TopByte(data, i) == 0
  {
    forall b: nat | b < 6
      ensures Bit(0, b) <==> DataBit(data, 6 * i + b)
    {
      ZeroBits(b);
    }
    TopByteUnique(0, data, i);
  }

  /** The blobs published for `data`; too long an encoding is refused. */
  method EncodeBlobs(n: nat, data: seq<byte>) returns (r: Result<seq<Blob>>)
    requires Shape(n) && |data| < Rlp.LENGTH_LIMIT
    ensures r.Err? <==> |Rlp.Encode(data)| >= 32 * n
    ensures r.Ok? ==> r.value == Blobs(n, Rlp.Encode(data))
  {
    var rest := Rlp.Encode(data);
    ghost var all := rest;
    if |rest| >= 32 * n {
      return Err;
    }
    var blobs: seq<Blob> := [];
    while |rest| > 0
      invariant blobs + Blobs(n, rest) == Blobs(n, all)
      decreases |rest|
    {
      var b, left := FillBlob(n, rest);
      blobs := blobs + [b[..]];
      rest := left.value;
    }
    return Ok(blobs);
  }

  // ----- decoding -----

  /** The accumulator holds what the first `i` top bytes give, from stream byte `o` on. */
  ghost predicate Reads(acc: nat, blob: Blob, i: nat, o: nat)
    requires 32 * i <= |blob|
  {
    forall b: nat :: Bit(acc, b) <==> StreamBit(blob, i, 8 * o + b)
  }

  /** One more element adds its top byte at bit `6 * i` and changes nothing else. */
  lemma StreamStep(blob: Blob, i: nat, j: nat)
    requires 32 * (i + 1) <= |blob|
    ensures StreamBit(blob, i + 1, j) <==>
            StreamBit(blob, i, j) || (6 * i <= j < 6 * i + 8 && Bit(blob[32 * i], j - 6 * i))
  {
    if j / 6 == i {
      assert j - 6 * i == j % 6;
    } else if j / 6 == i + 1 {
      assert j - 6 * i == j % 6 + 6;
    }
  }

  lemma ReadTop(blob: Blob, i: nat, o: nat, acc: nat, bits: nat)
    requires 32 * (i + 1) <= |blob| && bits == 6 * i - 8 * o && bits <= 6
    requires Reads(acc, blob, i, o)
    ensures Reads(Or(acc, Shl16(blob[32 * i], bits)), blob, i + 1, o)
  {
    forall b: nat
      ensures Bit(Or(acc, Shl16(blob[32 * i], bits)), b) <==> StreamBit(blob, i + 1, 8 * o + b)
    {
      OrBits(acc, Shl16(blob[32 * i], bits), b);
      ShiftedByte(blob[32 * i], bits, b);
      StreamStep(blob, i, 8 * o + b);
      assert Bit(acc, b) <==> StreamBit(blob, i, 8 * o + b);
    }
  }

  /** Bits below `6 * i` are final once `i` elements are read. */
  lemma StreamFinal(blob: Blob, i: nat, n: nat, j: nat)
    requires i <= n && 32 * n <= |blob| && j < 6 * i
    ensures StreamBit(blob, i, j) <==> StreamBit(blob, n, j)
  {
  }

  lemma EmitByte(blob: Blob, i: nat, n: nat, o: nat, acc: nat)
    requires i <= n && 32 * n <= |blob| && 8 * o + 8 <= 6 * i
    requires Reads(acc, blob, i, o)
    ensures Low(acc, 8) == StreamByte(blob, n, o)
    ensures Reads(Shr(acc, 8), blob, i, o + 1)
  {
    LowBits(acc, 8, 0);
    assert Pow2(8) == 256;
    forall b: nat | b < 8
      ensures Bit(Low(acc, 8), b) <==> StreamBit(blob, n, 8 * o + b)
    {
      LowBits(acc, 8, b);
      StreamFinal(blob, i, n, 8 * o + b);
      assert Bit(acc, b) <==> StreamBit(blob, i, 8 * o + b);
    }
    StreamByteUnique(Low(acc, 8), blob, n, o);
    forall b: nat
      ensures Bit(Shr(acc, 8), b) <==> StreamBit(blob, i, 8 * (o + 1) + b)
    {
      ShrBits(acc, 8, b);
      assert Bit(acc, b + 8) <==> StreamBit(blob, i, 8 * o + (b + 8));
    }
  }

  /** The bytes spread over the top bytes of a blob; the error for spare bits is never returned. */
  method ReadTops(n: nat, blob: Blob) returns (out: Result<seq<byte>>)
    requires Shape(n) && |blob| == 32 * n
    ensures out == Ok(Tops(n, blob))
  {
    var bytes: seq<byte> := [];
    var acc: nat, cumulativeBits := 0, 0;
    forall b: nat ensures !Bit(0, b) { ZeroBits(b); }
    for i := 0 to n
      invariant cumulativeBits == 6 * i - 8 * |bytes| && cumulativeBits in {0, 2, 4, 6}
      invariant Reads(acc, blob, i, |bytes|)
      invariant forall k :: 0 <= k < |bytes| ==> bytes[k] == StreamByte(blob, n, k)
    {
      ReadTop(blob, i, |bytes|, acc, cumulativeBits);
      acc := Or(acc, Shl16(blob[i * 32], cumulativeBits));
      cumulativeBits := cumulativeBits + EXCESS_BLOB_BITS;
      if cumulativeBits >= 8 {
        EmitByte(blob, i + 1, n, |bytes|, acc);
        bytes := bytes + [Low(acc, 8)];
        acc := Shr(acc, 8);
        cumulativeBits := cumulativeBits - 8;
      }
    }
    if cumulativeBits != 0 {
      assert false; // no bits are ever left over
    }
    assert bytes == Tops(n, blob);
    return Ok(bytes);
  }

  method ReadLows(n: nat, blob: Blob) returns (out: seq<byte>)
    requires |blob| == 32 * n
    ensures out == Lows(n, blob)
  {
    out := [];
    for e := 0 to n
      invariant out == Lows(n, blob)[..31 * e]
    {
      ghost var was := out;
      out := out + blob[e * 32 + 1..(e + 1) * 32];
      forall j | 0 <= j < 31 * (e + 1)
        ensures out[j] == Lows(n, blob)[j]
      {
        if j < 31 * e {
          assert out[j] == was[j];
        } else {
          assert j / 31 == e;
        }
      }
    }
  }

  /** What decoding returns: the first item of everything the blobs carry. */
  ghost function Decoded(n: nat, blobs: seq<Blob>): Result<seq<byte>>
    requires AreBlobs(n, blobs)
  {
    Rlp.DecodeFirst(Payloads(n, blobs))
  }

  method DecodeBlobs(n: nat, blobs: seq<Blob>) returns (r: Result<seq<byte>>)
    requires Shape(n) && AreBlobs(n, blobs)
    ensures r == Decoded(n, blobs)
  {
    var rlpData: seq<byte> := [];
    for k := 0 to |blobs|
      invariant rlpData == Payloads(n, blobs[..k])
    {
      var lows := ReadLows(n, blobs[k]);
      var tops := ReadTops(n, blobs[k]);
      rlpData := rlpData + lows + tops.value;
      assert blobs[..k + 1][..k] == blobs[..k];
    }
    assert blobs[..|blobs|] == blobs;
    return Rlp.DecodeFirst(rlpData);
  }

  // ----- round trip -----

  ghost predicate StartsWith(s: seq<byte>, data: seq<byte>) {
    && |data| <= |s| && s[..|data|] == data
    && forall k :: |data| <= k < |s| ==> s[k] == 0
  }

  /** The top byte of element `t` has the six bits of the stream, and no others. */
  lemma BlobTop(n: nat, chunk: seq<byte>, t: nat, b: nat)
    requires t < n && b < 8
    ensures Bit(BlobOf(n, chunk)[32 * t], b) <==> b < 6 && DataBit(Tail(n, chunk), 6 * t + b)
  {
    var p := 32 * t;
    assert p % 32 == 0 && p / 32 == t;
    var top := TopByte(Tail(n, chunk), t);
    assert BlobOf(n, chunk)[p] == top;
    if b >= 6 {
      assert Pow2(6) == 64;
      HighBits(top, 6, b);
    }
  }

  /** A stream bit comes from one top byte when the one before it does not spill. */
  lemma SpelledBit(blob: Blob, n: nat, data: seq<byte>, t: nat, b: nat)
    requires 32 * n <= |blob| && t < n && b < 6
    requires Bit(blob[32 * t], b) <==> DataBit(data, 6 * t + b)
    requires t >= 1 && b < 2 ==> !Bit(blob[32 * (t - 1)], b + 6)
    ensures StreamBit(blob, n, 6 * t + b) <==> DataBit(data, 6 * t + b)
  {
    var j := 6 * t + b;
    assert j / 6 == t && j % 6 == b;
  }

  lemma StreamOfTops(n: nat, chunk: seq<byte>, t: nat, b: nat)
    requires t < n && b < 6
    ensures StreamBit(BlobOf(n, chunk), n, 6 * t + b) <==> DataBit(Tail(n, chunk), 6 * t + b)
  {
    var blob, data := BlobOf(n, chunk), Tail(n, chunk);
    assert Bit(blob[32 * t], b) <==> DataBit(data, 6 * t + b) by { BlobTop(n, chunk, t, b); }
    if t >= 1 && b < 2 {
      assert !Bit(blob[32 * (t - 1)], b + 6) by { BlobTop(n, chunk, t - 1, b + 6); }
    }
    SpelledBit(blob, n, data, t, b);
  }

  /** A blob carries exactly its chunk, then zeros. */
  lemma PayloadOfBlob(n: nat, chunk: seq<byte>)
    requires Shape(n) && |chunk| <= Capacity(n)
    ensures StartsWith(Payload(n, BlobOf(n, chunk)), chunk)
    ensures |Payload(n, BlobOf(n, chunk))| == Capacity(n)
  {
    var blob := BlobOf(n, chunk);
    var p := Payload(n, blob);
    forall k | 0 <= k < Capacity(n)
      ensures p[k] == ByteAt(chunk, k)
    {
      if k < 31 * n {
        LowOfBlob(n, chunk, k);
      } else {
        TopOfBlob(n, chunk, k - 31 * n);
      }
    }
  }

  lemma LowOfBlob(n: nat, chunk: seq<byte>, j: nat)
    requires j < 31 * n
    ensures Lows(n, BlobOf(n, chunk))[j] == ByteAt(chunk, j)
  {
    var p := j + j / 31 + 1;
    assert p == 32 * (j / 31) + (j % 31 + 1);
    assert p / 32 == j / 31 && p % 32 == j % 31 + 1;
  }

  lemma TopBitOfBlob(n: nat, chunk: seq<byte>, k: nat, b: nat)
    requires Shape(n) && k < TopCapacity(n) && b < 8
    ensures StreamBit(BlobOf(n, chunk), n, 8 * k + b) <==> Bit(ByteAt(Tail(n, chunk), k), b)
  {
    var j := 8 * k + b;
    assert j < 6 * n;
    var t, c := j / 6, j % 6;
    assert j == 6 * t + c;
    StreamOfTops(n, chunk, t, c);
    DataBitAt(Tail(n, chunk), k, b);
  }

  lemma DataBitAt(data: seq<byte>, k: nat, b: nat)
    requires b < 8
    ensures DataBit(data, 8 * k + b) <==> Bit(ByteAt(data, k), b)
  {
    if k < |data| {
      ByteInStream(data, k, b);
    } else {
      ZeroBits(b);
      assert (8 * k + b) / 8 == k;
    }
  }

  lemma TopOfBlob(n: nat, chunk: seq<byte>, k: nat)
    requires Shape(n) && k < TopCapacity(n)
    ensures StreamByte(BlobOf(n, chunk), n, k) == ByteAt(Tail(n, chunk), k)
  {
    var t := ByteAt(Tail(n, chunk), k);
    forall b: nat | b < 8
      ensures Bit(t, b) <==> StreamBit(BlobOf(n, chunk), n, 8 * k + b)
    {
      TopBitOfBlob(n, chunk, k, b);
    }
    StreamByteUnique(t, BlobOf(n, chunk), n, k);
  }

  lemma PayloadsCons(n: nat, b: Blob, blobs: seq<Blob>)
    requires |b| == 32 * n && AreBlobs(n, blobs)
    ensures AreBlobs(n, [b] + blobs)
    ensures Payloads(n, [b] + blobs) == Payload(n, b) + Payloads(n, blobs)
    decreases |blobs|
  {
    var all := [b] + blobs;
    if blobs == [] {
      assert all[..0] == [];
    } else {
      assert all[..|all| - 1] == [b] + blobs[..|blobs| - 1];
      PayloadsCons(n, b, blobs[..|blobs| - 1]);
    }
  }

  /** The blobs together carry the data, then zeros. */
  lemma {:induction false} PayloadsOfBlobs(n: nat, data: seq<byte>)
    requires Shape(n)
    ensures AreBlobs(n, Blobs(n, data)) && StartsWith(Payloads(n, Blobs(n, data)), data)
    decreases |data|
  {
    if data == [] {
    } else if |data| <= Capacity(n) {
      PayloadOfBlob(n, data);
      PayloadsCons(n, BlobOf(n, data), []);
      assert [BlobOf(n, data)] + [] == [BlobOf(n, data)];
    } else {
      var chunk, rest := data[..Capacity(n)], data[Capacity(n)..];
      PayloadOfBlob(n, chunk);
      PayloadsOfBlobs(n, rest);
      PayloadsCons(n, BlobOf(n, chunk), Blobs(n, rest));
      FullThenRest(Payload(n, BlobOf(n, chunk)), chunk, Payloads(n, Blobs(n, rest)), rest);
      assert data == chunk + rest;
    }
  }

  lemma FullThenRest(p: seq<byte>, chunk: seq<byte>, q: seq<byte>, rest: seq<byte>)
    requires StartsWith(p, chunk) && |p| == |chunk| && StartsWith(q, rest)
    ensures StartsWith(p + q, chunk + rest)
  {
    assert p == chunk;
    assert (p + q)[..|chunk + rest|] == chunk + q[..|rest|];
  }

  /** Whatever is encoded is decoded, for every data and every blob shape. */
  lemma BlobRoundTrip(n: nat, data: seq<byte>)
    requires Shape(n) && |data| < Rlp.LENGTH_LIMIT
    ensures
      var blobs := Blobs(n, Rlp.Encode(data));
      AreBlobs(n, blobs) && Decoded(n, blobs) == Ok(data)
  {
    var e := Rlp.Encode(data);
    PayloadsOfBlobs(n, e);
    var p := Payloads(n, Blobs(n, e));
    assert p == e + p[|e|..];
    Rlp.DecodesEncoding(data, p[|e|..]);
  }

  /** Any blobs at all decode to `d` exactly when what they carry starts with the encoding of `d`. */
  lemma DecodedExactly(n: nat, blobs: seq<Blob>, d: seq<byte>)
    requires AreBlobs(n, blobs)
    ensures Decoded(n, blobs) == Ok(d) <==> |d| < Rlp.LENGTH_LIMIT && Rlp.Encode(d) <= Payloads(n, blobs)
  {
    Rlp.DecodeExactly(Payloads(n, blobs), d);
  }

  // ----- the layout, byte by byte and bit by bit -----

  /** Data byte `31 * e + j` is byte `1 + j` of element `e`; elements past the data hold zeros. */
  lemma LowLayout(n: nat, chunk: seq<byte>, e: nat, j: nat)
    requires e < n && j < 31
    ensures BlobOf(n, chunk)[32 * e + 1 + j] == if 31 * e + j < |chunk| then chunk[31 * e + j] else 0
  {
    var p := 32 * e + 1 + j;
    assert p / 32 == e && p % 32 == 1 + j;
  }

  /** Bit `b` of the top byte of element `e` is bit `6 * e + b` of the data past the low bytes, least significant bit first. */
  lemma TopLayout(n: nat, chunk: seq<byte>, e: nat, b: nat)
    requires e < n && b < 8
    ensures
      var k := 31 * n + (6 * e + b) / 8;
      Bit(BlobOf(n, chunk)[32 * e], b) <==> b < 6 && k < |chunk| && Bit(chunk[k], (6 * e + b) % 8)
  {
    BlobTop(n, chunk, e, b);
  }

  /** What is read back: first the low bytes of all elements, in order. */
  lemma LowsLayout(n: nat, blob: Blob, e: nat, j: nat)
    requires |blob| == 32 * n && e < n && j < 31
    ensures |Payload(n, blob)| == 31 * n + 3 * (n / 4)
    ensures Payload(n, blob)[31 * e + j] == blob[32 * e + 1 + j]
  {
    assert (31 * e + j) / 31 == e;
  }

  /** Then the six low bits of the top bytes, in order, eight to a byte; two high bits, if set, fall on the next top byte's. */
  lemma TopsLayout(n: nat, blob: Blob, k: nat, b: nat)
    requires |blob| == 32 * n && k < 3 * (n / 4) && b < 8
    ensures
      var t, c := (8 * k + b) / 6, (8 * k + b) % 6;
      Bit(Payload(n, blob)[31 * n + k], b) <==> Bit(blob[32 * t], c) || (t >= 1 && c < 2 && Bit(blob[32 * (t - 1)], c + 6))
  {
    assert (8 * k + b) / 6 < n;
    assert IsStreamByte(Payload(n, blob)[31 * n + k], blob, n, k);
  }

  /** Filling the low bytes changes exactly those the data reaches. */
  lemma FilledLows(s: Blob, data: seq<byte>, n: nat, e: nat, j: nat)
    requires |s| == 32 * n && e < n && j < 32
    ensures WithLows(s, data, n)[32 * e + j] ==
            if 1 <= j && 31 * e + j - 1 < |data| then data[31 * e + j - 1] else s[32 * e + j]
  {
    var p := 32 * e + j;
    assert p / 32 == e && p % 32 == j;
  }

  /** The top bytes written are those that start before the data is exhausted, and one more if there is room. */
  lemma WrittenExactly(n: nat, data: seq<byte>, i: nat)
    ensures i < Written(n, data) <==> i < n && 6 * i <= 8 * |data|
  {
  }

  /** Filling the top bytes changes exactly the ones written, each to its six bits. */
  lemma FilledTops(s: Blob, data: seq<byte>, n: nat, p: nat)
    requires |s| == 32 * n && p < 32 * n
    ensures
      var t := WithTops(s, data, Written(n, data))[p];
      if p % 32 == 0 && 6 * (p / 32) <= 8 * |data| then IsTopByte(t, data, p / 32) else t == s[p]
  {
    WrittenExactly(n, data, p / 32);
  }

  lemma Multiples(i: nat, c: nat)
    ensures (i + 1) * c == i * c + c
    ensures i >= 1 ==> (i - 1) * c == i * c - c && i * c >= c
  {
    if i >= 1 {
      assert i * c == (i - 1) * c + c;
    }
  }

  /** Where the `i`-th run of `c` bytes ends. */
  function RunEnd(data: seq<byte>, i: nat, c: nat): nat {
    if (i + 1) * c < |data| then (i + 1) * c else |data|
  }

  /** Blob `i` is made from the `i`-th run of `Capacity(n)` bytes, and there are as many as the data reaches. */
  lemma {:induction false} BlobsAt(n: nat, data: seq<byte>, i: nat)
    requires Shape(n)
    ensures i < |Blobs(n, data)| <==> i * Capacity(n) < |data|
    ensures i * Capacity(n) < |data| ==>
      i * Capacity(n) <= RunEnd(data, i, Capacity(n)) &&
      Blobs(n, data)[i] == BlobOf(n, data[i * Capacity(n)..RunEnd(data, i, Capacity(n))])
    decreases |data|
  {
    var c := Capacity(n);
    Multiples(i, c);
    if i == 0 {
      assert data[0..|data|] == data;
    } else if |data| > c {
      BlobsAt(n, data[c..], i - 1);
      if i * c < |data| {
        RunInRest(data, i, c);
      }
    }
  }

  lemma RunInRest(data: seq<byte>, i: nat, c: nat)
    requires i >= 1 && c < |data| && i * c < |data|
    ensures 0 <= (i - 1) * c <= RunEnd(data[c..], i - 1, c) <= |data[c..]| && i * c <= RunEnd(data, i, c)
    ensures data[c..][(i - 1) * c..RunEnd(data[c..], i - 1, c)] == data[i * c..RunEnd(data, i, c)]
  {
    Multiples(i, c);
    Multiples(i - 1, c);
  }

  lemma {:induction false} PayloadsLength(n: nat, blobs: seq<Blob>)
    requires AreBlobs(n, blobs)
    ensures |Payloads(n, blobs)| == |blobs| * Capacity(n)
    decreases |blobs|
  {
    if blobs != [] {
      PayloadsLength(n, blobs[..|blobs| - 1]);
      Multiples(|blobs|, Capacity(n));
    }
  }

  /** `part` sits in `s` at `start`. */
  ghost predicate SitsAt(s: seq<byte>, start: nat, part: seq<byte>) {
    start + |part| <= |s| && s[start..start + |part|] == part
  }

  lemma SitsInLonger(s: seq<byte>, more: seq<byte>, start: nat, part: seq<byte>)
    requires SitsAt(s, start, part)
    ensures SitsAt(s + more, start, part)
  {
    assert (s + more)[start..start + |part|] == s[start..start + |part|];
  }

  /** The payload of blob `i` is the `i`-th run of `Capacity(n)` bytes that is read back. */
  lemma {:induction false} PayloadsAt(n: nat, blobs: seq<Blob>, i: nat, start: nat)
    requires AreBlobs(n, blobs) && i < |blobs| && start == i * Capacity(n)
    ensures |Payload(n, blobs[i])| == Capacity(n)
    ensures SitsAt(Payloads(n, blobs), start, Payload(n, blobs[i]))
    decreases |blobs|
  {
    var init, last := blobs[..|blobs| - 1], blobs[|blobs| - 1];
    if i < |init| {
      PayloadsAt(n, init, i, start);
      SitsInLonger(Payloads(n, init), Payload(n, last), start, Payload(n, blobs[i]));
    } else {
      PayloadsLength(n, init);
      SitsLast(Payloads(n, init), Payload(n, last));
    }
  }

  lemma SitsLast(s: seq<byte>, part: seq<byte>)
    ensures SitsAt(s + part, |s|, part)
  {
  }

  // ----- the size used by the code -----

  const MAX_BLOB_BYTES: nat := 32 * FIELD_ELEMENTS

  /** What is accepted needs one blob or two: as many as its bytes fill. */
  lemma BlobCount(data: seq<byte>)
    requires 0 < |data| < MAX_BLOB_BYTES
    ensures Shape(FIELD_ELEMENTS) && Capacity(FIELD_ELEMENTS) == 130048
    ensures |Blobs(FIELD_ELEMENTS, data)| == (|data| + 130047) / 130048
    ensures 1 <= |Blobs(FIELD_ELEMENTS, data)| <= 2
  {
    var n := FIELD_ELEMENTS;
    if |data| > Capacity(n) {
      var rest := data[Capacity(n)..];
      assert |Blobs(n, rest)| == 1;
    }
  }

  /** The longest data the code accepts is 131067 bytes. */
  lemma AcceptedExactly(data: seq<byte>)
    requires |data| < Rlp.LENGTH_LIMIT
    ensures |Rlp.Encode(data)| < MAX_BLOB_BYTES <==> |data| <= 131067
  {
    if |data| > 55 {
      var len := Rlp.ToBigEndian(|data|);
      if 65536 <= |data| < 131072 {
        var m := |data|;
        assert Rlp.ToBigEndian(m / 256 / 256 / 256) == [];
        assert |Rlp.ToBigEndian(m / 256 / 256)| == 1;
        assert |Rlp.ToBigEndian(m / 256)| == 2;
        assert |len| == 3;
      } else if |data| < 65536 {
        assert Rlp.Pow256(2) == 65536;
        Rlp.BigEndianLength(|data|, 2);
      }
    }
  }

  const BLS_MODULUS: nat := 0x73eda753299d7d483339d80809a1d80553bda402fffe5bfeffffffff00000001

  /** Every field element written, read as a big-endian number, is below the BLS modulus. */
  lemma ElementsBelowModulus(n: nat, chunk: seq<byte>, i: nat)
    requires i < n
    ensures Rlp.FromBigEndian(BlobOf(n, chunk)[32 * i..32 * i + 32]) < BLS_MODULUS
  {
    var element := BlobOf(n, chunk)[32 * i..32 * i + 32];
    assert element[0] == BlobOf(n, chunk)[32 * i] < 64 by { assert (32 * i) % 32 == 0; }
    TopBelowModulus(element);
  }

  lemma TopBelowModulus(element: seq<byte>)
    requires |element| == 32 && element[0] < 64
    ensures Rlp.FromBigEndian(element) < BLS_MODULUS
  {
    Rlp.BigEndianTop(element);
    AtMost(element[0] + 1, 64, Rlp.Pow256(31));
    ModulusBound();
  }

  lemma AtMost(a: nat, b: nat, p: nat)
    requires a <= b
    ensures a * p <= b * p
  {
  }

  /** The modulus in decimal. */
  lemma ModulusBound()
    ensures BLS_MODULUS == 52435875175126190479447740508185965837690552500527637822603658699938581184513
    ensures 64 * Rlp.Pow256(31) < BLS_MODULUS
  {
    assert Rlp.Pow256(8) == 0x1_0000_0000_0000_0000 by { assert Rlp.Pow256(4) == 0x1_0000_0000; }
    assert Rlp.Pow256(7) == 0x100_0000_0000_0000;
    Rlp.Pow256Sum(8, 8);
    Rlp.Pow256Sum(16, 8);
    Rlp.Pow256Sum(24, 7);
  }
}
