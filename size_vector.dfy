/** The file-size part of the fallback feature vector in
    `extract_video_features`: eight entries `(size >> i) & 0xff` for
    `i = 0, 8, ..., 56`, the little-endian bytes of the size's low 64 bits.
    The division by the norm that follows is floating point and is not
    modelled. */
module SizeVector {
  import opened Arith

  function Pow2(k: nat): (r: nat)
    ensures r >= 1
  {
    if k == 0 then 1 else 2 * Pow2(k - 1)
  }

  /** `x >> k` on a non-negative integer. */
  function ShiftRight(x: nat, k: nat): (r: nat)
    ensures r * Pow2(k) <= x < (r + 1) * Pow2(k)
  {
    DivNonNeg(x, Pow2(k));
    DivModDef(x, Pow2(k));
    MulSplit(Pow2(k), x / Pow2(k) + 1, x / Pow2(k));
    x / Pow2(k)
  }

  /** `x & 0xff` on a non-negative integer. */
  function LowByte(x: nat): (r: nat)
    ensures r < 256 && (x - r) % 256 == 0
  {
    DivModDef(x, 256);
    DivModUnique(x - x % 256, 256, x / 256, 0);
    x % 256
  }

  /** The number of entries, `len(range(0, 64, 8))`. */
  const SizeEntries: nat := 8

  /** `[(size >> i) & 0xff for i in range(0, 64, 8)]`; a file size is never negative. */
  function SizeBytes(size: nat): (v: seq<nat>)
    ensures |v| == SizeEntries
    ensures forall j :: 0 <= j < |v| ==> v[j] < 256
  {
    seq(SizeEntries, j requires 0 <= j < SizeEntries => LowByte(ShiftRight(size, 8 * j)))
  }

  /** The little-endian reading of a sequence of bytes. */
  function DecodeLE(b: seq<nat>): nat {
    if b == [] then 0 else b[0] + 256 * DecodeLE(b[1..])
  }

  /** Repeatedly peel off the low byte: the reference encoder. */
  function Bytes(x: nat, k: nat): (r: seq<nat>)
    ensures |r| == k
  {
    if k == 0 then [] else [x % 256] + Bytes(x / 256, k - 1)
  }

  predicate IsBytes(b: seq<nat>) {
    forall j :: 0 <= j < |b| ==> b[j] < 256
  }

  // ---------------------------------------------------------------------
  // Arithmetic helpers

  lemma {:induction false} Pow2Add(a: nat, b: nat)
    ensures Pow2(a + b) == Pow2(a) * Pow2(b)
  {
    if a > 0 {
      Pow2Add(a - 1, b);
      assert Pow2(a + b) == 2 * Pow2(a - 1 + b);
    }
  }

  lemma Pow2Eight()
    ensures Pow2(8) == 256
  {
    assert Pow2(2) == 4;
    assert Pow2(4) == 16;
    assert Pow2(6) == 64;
  }

  lemma Pow2Step(j: nat)
    ensures Pow2(8 * (j + 1)) == 256 * Pow2(8 * j)
  {
    Pow2Add(8, 8 * j);
    Pow2Eight();
  }

  // ---------------------------------------------------------------------
  // Lemmas

  /** Entry `j` of the reference encoder is the byte at bit offset `8 j`. */
  lemma {:induction false} BytesAt(x: nat, k: nat, j: nat)
    requires j < k
    ensures Bytes(x, k)[j] == LowByte(ShiftRight(x, 8 * j))
  {
    if j > 0 {
      BytesAt(x / 256, k - 1, j - 1);
      Pow2Step(j - 1);
      DivModNested(x, 256, Pow2(8 * (j - 1)));
    }
  }

  lemma SizeBytesIsBytes(size: nat)
    ensures SizeBytes(size) == Bytes(size, SizeEntries)
  {
    forall j | 0 <= j < SizeEntries
      ensures SizeBytes(size)[j] == Bytes(size, SizeEntries)[j]
    {
      BytesAt(size, SizeEntries, j);
    }
  }

  /** Reading `k` peeled bytes back gives the value modulo `2^(8k)`. */
  lemma {:induction false} DecodeBytes(x: nat, k: nat)
    ensures DecodeLE(Bytes(x, k)) == x % Pow2(8 * k)
  {
    if k > 0 {
      DecodeBytes(x / 256, k - 1);
      Pow2Step(k - 1);
      DivModNested(x, 256, Pow2(8 * (k - 1)));
      assert Bytes(x, k)[1..] == Bytes(x / 256, k - 1);
    }
  }

  /** Peeling the bytes of a decoded value gives the bytes back. */
  lemma {:induction false} BytesOfDecode(b: seq<nat>)
    requires IsBytes(b)
    ensures Bytes(DecodeLE(b), |b|) == b
  {
    if b != [] {
      var y := DecodeLE(b[1..]);
      DivModUnique(DecodeLE(b), 256, y, b[0]);
      BytesOfDecode(b[1..]);
    }
  }

  /** Decoding the eight entries gives the size modulo `2^64`. */
  lemma SizeBytesDecode(size: nat)
    ensures DecodeLE(SizeBytes(size)) == size % Pow2(64)
  {
    SizeBytesIsBytes(size);
    DecodeBytes(size, SizeEntries);
  }

  /** For a size below `2^64` the eight entries determine it. */
  lemma SizeBytesRoundTrip(size: nat)
    requires size < Pow2(64)
    ensures DecodeLE(SizeBytes(size)) == size
  {
    SizeBytesDecode(size);
    DivModUnique(size, Pow2(64), 0, size);
  }

  /** Every eight bytes are the entries of exactly the size they encode. */
  lemma DecodeRoundTrip(b: seq<nat>)
    requires |b| == SizeEntries && IsBytes(b)
    ensures SizeBytes(DecodeLE(b)) == b
  {
    SizeBytesIsBytes(DecodeLE(b));
    BytesOfDecode(b);
  }

  /** Two sizes have the same entries exactly when they agree modulo `2^64`. */
  lemma SizeBytesEqualIff(s1: nat, s2: nat)
    ensures SizeBytes(s1) == SizeBytes(s2) <==> s1 % Pow2(64) == s2 % Pow2(64)
  {
    SizeBytesDecode(s1);
    SizeBytesDecode(s2);
    if s1 % Pow2(64) == s2 % Pow2(64) {
      DecodeRoundTrip(SizeBytes(s1));
      DecodeRoundTrip(SizeBytes(s2));
    }
  }
}
