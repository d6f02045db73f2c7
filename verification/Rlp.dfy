/**
 RLP for byte strings (Appendix B of the Ethereum Yellow Paper), as the blob codec uses it:
 encoding a string, and decoding the first item of a stream whatever follows it.
 */
module Rlp {
  import opened Wrappers
  import opened Bits

  // ----- big-endian numbers -----

  function ToBigEndian(n: nat): seq<byte> {
    if n == 0 then [] else ToBigEndian(n / 256) + [(n % 256)]
  }

  function FromBigEndian(s: seq<byte>): nat {
    if s == [] then 0 else FromBigEndian(s[..|s| - 1]) * 256 + s[|s| - 1]
  }

  function Pow256(k: nat): nat {
    if k == 0 then 1 else 256 * Pow256(k - 1)
  }

  lemma {:induction false} BigEndianRoundTrip(n: nat)
    ensures FromBigEndian(ToBigEndian(n)) == n
    ensures n != 0 ==> ToBigEndian(n) != [] && ToBigEndian(n)[0] != 0
  {
    if n != 0 {
      BigEndianRoundTrip(n / 256);
      var s := ToBigEndian(n);
      assert s[..|s| - 1] == ToBigEndian(n / 256);
    }
  }

  lemma {:induction false} BigEndianCanonical(s: seq<byte>)
    requires s != [] ==> s[0] != 0
    ensures ToBigEndian(FromBigEndian(s)) == s
    ensures s != [] ==> FromBigEndian(s) != 0
  {
    if s != [] {
      var init, last := s[..|s| - 1], s[|s| - 1];
      BigEndianCanonical(init);
      assert FromBigEndian(s) / 256 == FromBigEndian(init) && FromBigEndian(s) % 256 == last;
      assert s == init + [last];
    }
  }

  lemma {:induction false} BigEndianBound(s: seq<byte>)
    ensures FromBigEndian(s) < Pow256(|s|)
  {
    if s != [] {
      BigEndianBound(s[..|s| - 1]);
    }
  }

  /** The first byte bounds the number. */
  lemma {:induction false} BigEndianTop(s: seq<byte>)
    requires s != []
    ensures FromBigEndian(s) < (s[0] + 1) * Pow256(|s| - 1)
  {
    var init := s[..|s| - 1];
    if init != [] {
      BigEndianTop(init);
      assert (s[0] + 1) * Pow256(|s| - 1) == 256 * ((s[0] + 1) * Pow256(|s| - 2));
    }
  }

  lemma {:induction false} Pow256Sum(j: nat, k: nat)
    ensures Pow256(j + k) == Pow256(j) * Pow256(k)
  {
    if j != 0 {
      Pow256Sum(j - 1, k);
      assert Pow256(j) * Pow256(k) == 256 * (Pow256(j - 1) * Pow256(k));
    }
  }

  lemma {:induction false} BigEndianLength(n: nat, k: nat)
    requires n < Pow256(k)
    ensures |ToBigEndian(n)| <= k
    decreases k
  {
    if n != 0 {
      assert k != 0;
      assert n / 256 < Pow256(k - 1);
      BigEndianLength(n / 256, k - 1);
    }
  }

  // ----- strings -----

  /** The longest string whose length RLP can write down. */
  const LENGTH_LIMIT: nat := 0x1_0000_0000_0000_0000

  lemma LengthBytes(n: nat)
    requires n < LENGTH_LIMIT
    ensures |ToBigEndian(n)| <= 8
  {
    assert Pow256(4) == 0x1_0000_0000;
    assert Pow256(8) == LENGTH_LIMIT;
    BigEndianLength(n, 8);
  }

  function Encode(d: seq<byte>): seq<byte>
    requires |d| < LENGTH_LIMIT
  {
    if |d| == 1 && d[0] < 0x80 then d
    else if |d| <= 55 then [(0x80 + |d|)] + d
    else
      LengthBytes(|d|);
      var len := ToBigEndian(|d|);
      [(0xb7 + |len|)] + len + d
  }

  /** The first item of `s` read as a string; what follows it is not looked at. */
  function DecodeFirst(s: seq<byte>): Result<seq<byte>> {
    if s == [] then Err
    else
      var b := s[0];
      if b < 0x80 then Ok([s[0]])
      else if b < 0xb8 then
        var size := b - 0x80;
        if |s| < 1 + size then Err
        else if size == 1 && s[1] < 0x80 then Err
        else Ok(s[1..1 + size])
      else if b < 0xc0 then
        var ll := b - 0xb7;
        if |s| < 1 + ll || s[1] == 0 then Err
        else
          var size := FromBigEndian(s[1..1 + ll]);
          if size < 56 || |s| < 1 + ll + size then Err
          else Ok(s[1 + ll..1 + ll + size])
      else Err
  }

  /** A string is read back from any stream that starts with its encoding. */
  lemma DecodesEncoding(d: seq<byte>, rest: seq<byte>)
    requires |d| < LENGTH_LIMIT
    ensures DecodeFirst(Encode(d) + rest) == Ok(d)
  {
    var s := Encode(d) + rest;
    if |d| == 1 && d[0] < 0x80 {
      assert [s[0]] == d;
    } else if |d| <= 55 {
      assert s[1..1 + |d|] == d;
    } else {
      LengthBytes(|d|);
      var len := ToBigEndian(|d|);
      DecodesLong(d, len, rest);
      assert s == [0xb7 + |len|] + len + d + rest;
    }
  }

  lemma DecodesLong(d: seq<byte>, len: seq<byte>, rest: seq<byte>)
    requires 55 < |d| && len == ToBigEndian(|d|) && |len| <= 8
    ensures DecodeFirst([0xb7 + |len|] + len + d + rest) == Ok(d)
  {
    BigEndianRoundTrip(|d|);
    var s := [0xb7 + |len|] + len + d + rest;
    var ll := s[0] - 0xb7;
    assert ll == |len| && s[1] == len[0];
    assert s[1..1 + ll] == len;
    assert FromBigEndian(s[1..1 + ll]) == |d|;
    assert s[1 + ll..1 + ll + |d|] == d;
  }

  /** Nothing but an encoding is accepted. */
  lemma DecodesOnlyEncodings(s: seq<byte>)
    requires DecodeFirst(s).Ok?
    ensures
      var d := DecodeFirst(s).value;
      |d| < LENGTH_LIMIT && Encode(d) <= s
  {
    var d := DecodeFirst(s).value;
    if s[0] < 0x80 {
    } else if s[0] < 0xb8 {
      assert s[..1 + |d|] == [s[0]] + d;
    } else {
      OnlyLongEncodings(s);
    }
  }

  lemma OnlyLongEncodings(s: seq<byte>)
    requires DecodeFirst(s).Ok? && s[0] >= 0xb8
    ensures
      var d := DecodeFirst(s).value;
      |d| < LENGTH_LIMIT && Encode(d) <= s
  {
    var d := DecodeFirst(s).value;
    var ll := s[0] - 0xb7;
    var len := s[1..1 + ll];
    LongLength(len);
    assert |d| == FromBigEndian(len) && ToBigEndian(|d|) == len;
    assert Encode(d) == [0xb7 + |len|] + len + d;
    var e := [s[0]] + len + d;
    assert s[..|e|] == e;
  }

  /** At most eight bytes without a leading zero are the length they spell, written canonically. */
  lemma LongLength(len: seq<byte>)
    requires 1 <= |len| <= 8 && len[0] != 0
    ensures FromBigEndian(len) < LENGTH_LIMIT && ToBigEndian(FromBigEndian(len)) == len
  {
    BigEndianCanonical(len);
    BigEndianBound(len);
    Pow256Monotone(|len|, 8);
    assert Pow256(4) == 0x1_0000_0000;
    assert Pow256(8) == LENGTH_LIMIT;
  }

  lemma {:induction false} Pow256Monotone(j: nat, k: nat)
    requires j <= k
    ensures 1 <= Pow256(j) <= Pow256(k)
    decreases k
  {
    if j < k {
      Pow256Monotone(j, k - 1);
    } else if j != 0 {
      Pow256Monotone(j - 1, k - 1);
    }
  }

  /** Decoding gives `d` exactly when the stream starts with the encoding of `d`. */
  lemma DecodeExactly(s: seq<byte>, d: seq<byte>)
    ensures DecodeFirst(s) == Ok(d) <==> |d| < LENGTH_LIMIT && Encode(d) <= s
  {
    if DecodeFirst(s).Ok? {
      DecodesOnlyEncodings(s);
    }
    if |d| < LENGTH_LIMIT && Encode(d) <= s {
      DecodesEncoding(d, s[|Encode(d)|..]);
      assert Encode(d) + s[|Encode(d)|..] == s;
    }
  }

  /** A number is its first byte, weighted, and the rest. */
  lemma {:induction false} BigEndianFirst(s: seq<byte>)
    requires s != []
    ensures FromBigEndian(s) == s[0] * Pow256(|s| - 1) + FromBigEndian(s[1..])
  {
    var init, last := s[..|s| - 1], s[|s| - 1];
    if init != [] {
      BigEndianFirst(init);
      assert s[1..][..|s| - 2] == init[1..];
      assert s[0] * Pow256(|s| - 1) == 256 * (s[0] * Pow256(|s| - 2));
    }
  }

  /** The header of a long string spells its length, with no leading zero, in as many bytes as its first byte says. */
  lemma LongHeader(d: seq<byte>)
    requires 55 < |d| < LENGTH_LIMIT
    ensures
      var e := Encode(d);
      var size := |e| - |d| - 1;
      && 1 <= size <= 8 && e[0] == 183 + size && e[1] != 0
      && FromBigEndian(e[1..1 + size]) == |d| && e[1 + size..] == d
  {
    LengthBytes(|d|);
    BigEndianRoundTrip(|d|);
    var len := ToBigEndian(|d|);
    assert Encode(d)[1..1 + |len|] == len;
  }

  /** Examples of the Yellow Paper's rule for strings. */
  lemma ShortExamples()
    ensures Encode([]) == [128] && Encode([0]) == [0] && Encode([127]) == [127] && Encode([128]) == [129, 128]
    ensures Encode([100, 111, 103]) == [131, 100, 111, 103]
  {
  }
}
