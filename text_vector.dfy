/** The hashed bag-of-words vector of `_text_vector_from_name`: every token
    adds one to the bucket `sum(ord(c)) % dim`. The model keeps the integer
    counts and the test that decides whether they are then divided by their
    Euclidean norm; the division itself is floating point and is not modelled. */
module TextVector {
  import opened Tokens

  /** The dimension every caller in the source passes. */
  const TextDim: nat := 64

  /** `f` summed over the elements of `s`. */
  function SumOf<T>(s: seq<T>, f: T -> nat): nat {
    if s == [] then 0 else f(s[0]) + SumOf(s[1..], f)
  }

  /** `ord(c)`: the character's code point, which determines it. */
  function Ord(c: char): (r: nat)
    ensures r < 0x11_0000 && !(0xD800 <= r < 0xE000) && r as char == c
  {
    c as nat
  }

  /** `sum(ord(c) for c in t)`: every character's code is part of it. */
  function OrdSum(t: string): (r: nat)
    ensures t == [] ==> r == 0
    ensures forall k :: 0 <= k < |t| ==> Ord(t[k]) <= r
  {
    SumOfBounds(t, Ord);
    SumOf(t, Ord)
  }

  /** The bucket a token increments. */
  function Bucket(t: string, dim: nat): (h: nat)
    requires dim > 0
    ensures h < dim
  {
    OrdSum(t) % dim
  }

  /** The number of tokens that land in bucket `b`. */
  function Count(toks: seq<string>, dim: nat, b: nat): nat
    requires dim > 0
  {
    SumOf(toks, t => if Bucket(t, dim) == b then 1 else 0)
  }

  /** The integer vector before normalisation. */
  function CountVector(toks: seq<string>, dim: nat): (v: seq<nat>)
    requires dim > 0
    ensures |v| == dim
  {
    seq(dim, b requires 0 <= b < dim => Count(toks, dim, b))
  }

  function Sum(v: seq<nat>): nat {
    if v == [] then 0 else v[0] + Sum(v[1..])
  }

  /** The square of the Euclidean norm, `np.linalg.norm(vec) ** 2`. */
  function SquaredNorm(v: seq<nat>): (r: nat)
    ensures forall k :: 0 <= k < |v| ==> v[k] * v[k] <= r
  {
    if v == [] then 0
    else
      assert forall k :: 1 <= k < |v| ==> v[k] == v[1..][k - 1];
      v[0] * v[0] + SquaredNorm(v[1..])
  }

  /** The `for t in toks` loop: one increment per token, in place. */
  method CountTokens(toks: seq<string>, dim: nat) returns (counts: seq<nat>)
    requires dim > 0
    ensures counts == CountVector(toks, dim)
  {
    var vec := new nat[dim](_ => 0);
    CountVectorEmpty(dim);
    assert toks[..0] == [];
    for i := 0 to |toks|
      invariant vec[..] == CountVector(toks[..i], dim)
    {
      var h := Bucket(toks[i], dim);
      CountVectorSnoc(toks[..i], toks[i], dim);
      assert toks[..i + 1] == toks[..i] + [toks[i]];
      vec[h] := vec[h] + 1;
    }
    assert toks[..|toks|] == toks;
    counts := vec[..];
  }

  /** `_text_vector_from_name(name, dim)` up to the final division: the count
      vector, and whether `n > 0` sends it through the in-place division. */
  method TextCounts(name: string, dim: nat) returns (counts: seq<nat>, normalised: bool)
    requires dim > 0
    ensures counts == CountVector(Tokenize(name), dim)
    ensures normalised <==> Tokenize(name) != []
  {
    var toks := Tokenize(name);
    counts := CountTokens(toks, dim);
    normalised := SquaredNorm(counts) > 0;
    NormalisedIffTokens(toks, dim);
  }

  // ---------------------------------------------------------------------
  // Lemmas

  lemma {:induction false} SumOfConcat<T>(a: seq<T>, b: seq<T>, f: T -> nat)
    ensures SumOf(a + b, f) == SumOf(a, f) + SumOf(b, f)
  {
    if a == [] {
      assert a + b == b;
    } else {
      assert (a + b)[0] == a[0] && (a + b)[1..] == a[1..] + b;
      SumOfConcat(a[1..], b, f);
    }
  }

  /** Each term is at most the sum. */
  lemma {:induction false} SumOfBounds<T>(s: seq<T>, f: T -> nat)
    ensures forall k :: 0 <= k < |s| ==> f(s[k]) <= SumOf(s, f)
  {
    if s != [] {
      SumOfBounds(s[1..], f);
      assert forall k :: 1 <= k < |s| ==> s[k] == s[1..][k - 1];
    }
  }

  /** Taking one element out of a sum. */
  lemma SumOfRemove<T>(b: seq<T>, j: nat, f: T -> nat)
    requires j < |b|
    ensures SumOf(b, f) == f(b[j]) + SumOf(b[..j] + b[j + 1..], f)
  {
    var front, x, back := b[..j], b[j], b[j + 1..];
    assert b == (front + [x]) + back;
    SumOfConcat(front + [x], back, f);
    SumOfConcat(front, [x], f);
    SumOfConcat(front, back, f);
    assert SumOf([x], f) == f(x) + SumOf([x][1..], f);
  }

  /** Taking one element out of a multiset. */
  lemma MultisetRemove<T>(b: seq<T>, j: nat)
    requires j < |b|
    ensures multiset(b[..j] + b[j + 1..]) == multiset(b) - multiset{b[j]}
  {
    assert b == b[..j] + [b[j]] + b[j + 1..];
  }

  lemma PermTail<T>(a: seq<T>, b: seq<T>, j: nat)
    requires multiset(a) == multiset(b) && a != [] && j < |b| && b[j] == a[0]
    ensures multiset(a[1..]) == multiset(b[..j] + b[j + 1..])
  {
    MultisetRemove(a, 0);
    MultisetRemove(b, j);
    assert a[..0] + a[1..] == a[1..];
  }

  /** A sum over a sequence depends only on the multiset of its elements. */
  lemma {:induction false} SumOfPerm<T>(a: seq<T>, b: seq<T>, f: T -> nat)
    requires multiset(a) == multiset(b)
    ensures SumOf(a, f) == SumOf(b, f)
    decreases |a|
  {
    if a == [] {
      assert |b| == |multiset(b)| == 0;
    } else {
      assert a[0] in multiset(a);
      assert a[0] in b;
      var j :| 0 <= j < |b| && b[j] == a[0];
      PermTail(a, b, j);
      SumOfPerm(a[1..], b[..j] + b[j + 1..], f);
      SumOfRemove(b, j, f);
    }
  }

  /** Anagram tokens always land in the same bucket. */
  lemma AnagramsShareBucket(t1: string, t2: string, dim: nat)
    requires dim > 0
    requires multiset(t1) == multiset(t2)
    ensures OrdSum(t1) == OrdSum(t2)
    ensures Bucket(t1, dim) == Bucket(t2, dim)
  {
    SumOfPerm(t1, t2, Ord);
  }

  /** The counts do not depend on the order of the tokens. */
  lemma CountVectorOrderFree(toks1: seq<string>, toks2: seq<string>, dim: nat)
    requires dim > 0
    requires multiset(toks1) == multiset(toks2)
    ensures CountVector(toks1, dim) == CountVector(toks2, dim)
  {
    forall b | 0 <= b < dim
      ensures Count(toks1, dim, b) == Count(toks2, dim, b)
    {
      SumOfPerm(toks1, toks2, t => if Bucket(t, dim) == b then 1 else 0);
    }
  }

  lemma CountVectorEmpty(dim: nat)
    requires dim > 0
    ensures CountVector([], dim) == seq(dim, _ => 0)
  {
  }

  /** One more token adds one to its own bucket and leaves every other alone. */
  lemma CountVectorSnoc(toks: seq<string>, t: string, dim: nat)
    requires dim > 0
    ensures CountVector(toks + [t], dim) ==
            CountVector(toks, dim)[Bucket(t, dim) := CountVector(toks, dim)[Bucket(t, dim)] + 1]
  {
    forall b | 0 <= b < dim
      ensures Count(toks + [t], dim, b) == Count(toks, dim, b) + (if Bucket(t, dim) == b then 1 else 0)
    {
      var f := t' => if Bucket(t', dim) == b then 1 else 0;
      SumOfConcat(toks, [t], f);
      assert SumOf([t], f) == f(t);
    }
  }

  lemma {:induction false} SumIncrement(v: seq<nat>, h: nat)
    requires h < |v|
    ensures Sum(v[h := v[h] + 1]) == Sum(v) + 1
  {
    if h > 0 {
      SumIncrement(v[1..], h - 1);
      assert v[h := v[h] + 1][1..] == v[1..][h - 1 := v[h] + 1];
    }
  }

  lemma {:induction false} SumZeros(v: seq<nat>)
    requires forall k :: 0 <= k < |v| ==> v[k] == 0
    ensures Sum(v) == 0
  {
    if v != [] {
      SumZeros(v[1..]);
    }
  }

  /** The entries of the count vector add up to the number of tokens. */
  lemma {:induction false} CountVectorSum(toks: seq<string>, dim: nat)
    requires dim > 0
    ensures Sum(CountVector(toks, dim)) == |toks|
    decreases |toks|
  {
    if toks == [] {
      SumZeros(CountVector(toks, dim));
    } else {
      var init, last := toks[..|toks| - 1], toks[|toks| - 1];
      assert toks == init + [last];
      CountVectorSum(init, dim);
      CountVectorSnoc(init, last, dim);
      SumIncrement(CountVector(init, dim), Bucket(last, dim));
    }
  }

  lemma {:induction false} SquaredNormPositive(v: seq<nat>)
    ensures SquaredNorm(v) > 0 <==> exists k :: 0 <= k < |v| && v[k] > 0
  {
    if v != [] {
      SquaredNormPositive(v[1..]);
      if v[0] > 0 {
        assert v[0] * v[0] > 0;
      }
      assert forall k :: 1 <= k < |v| ==> v[k] == v[1..][k - 1];
      if exists k :: 1 <= k < |v| && v[k] > 0 {
        var k :| 1 <= k < |v| && v[k] > 0;
        assert v[1..][k - 1] > 0;
      }
    }
  }

  /** No token gives the all-zero vector; any token makes some entry positive. */
  lemma CountVectorZeroIff(toks: seq<string>, dim: nat)
    requires dim > 0
    ensures toks == [] <==> forall b :: 0 <= b < dim ==> CountVector(toks, dim)[b] == 0
  {
    if toks != [] {
      var h := Bucket(toks[0], dim);
      var f := t => if Bucket(t, dim) == h then 1 else 0;
      assert f(toks[0]) == 1;
      assert Count(toks, dim, h) == SumOf(toks, f) >= 1;
      assert CountVector(toks, dim)[h] == Count(toks, dim, h);
    }
  }

  /** `n > 0`, the test before the division, holds exactly when there is a token. */
  lemma NormalisedIffTokens(toks: seq<string>, dim: nat)
    requires dim > 0
    ensures SquaredNorm(CountVector(toks, dim)) > 0 <==> toks != []
  {
    CountVectorZeroIff(toks, dim);
    SquaredNormPositive(CountVector(toks, dim));
  }

  /** A name with no alphanumeric character in its basename gives the
      all-zero vector and skips the division. */
  lemma NoAlnumGivesZero(name: string, dim: nat)
    requires dim > 0
    requires forall k :: 0 <= k < |Basename(name)| ==> !IsAlnum(Basename(name)[k])
    ensures forall b :: 0 <= b < dim ==> CountVector(Tokenize(name), dim)[b] == 0
    ensures SquaredNorm(CountVector(Tokenize(name), dim)) == 0
  {
    TokenizeEmptyIff(name);
    var toks := Tokenize(name);
    assert toks == [];
    CountVectorZeroIff(toks, dim);
    NormalisedIffTokens(toks, dim);
  }
}
