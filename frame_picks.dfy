/** The frame indices `extract_video_features` seeks to once a capture has
    opened and reported a positive frame count:
    `[min(total - 1, int(i * total / max(1, n))) for i in range(n)]`.
    Every value involved is non-negative, so `int(... / ...)` is floor
    division. */
module FramePicks {
  import opened Arith

  /** The `i`-th pick. */
  function Pick(i: nat, total: int, n: int): (f: int)
    requires total >= 1
    ensures 0 <= f <= total - 1
  {
    MulMono(0, i, total);
    Min(total - 1, (i * total) / Max(1, n))
  }

  /** All picks; `range(n)` is empty when `n <= 0`. */
  function Picks(total: int, n: int): (r: seq<int>)
    requires total >= 1
    ensures |r| == Max(0, n)
    ensures forall k :: 0 <= k < |r| ==> 0 <= r[k] < total
  {
    seq(Max(0, n), i requires 0 <= i < Max(0, n) => Pick(i, total, n))
  }

  // ---------------------------------------------------------------------
  // Lemmas

  lemma MulPred(n: int, t: int)
    ensures n * t - 1 == n * (t - 1) + (n - 1)
    ensures (n - 1) * t == n * t - t
  {
  }

  /** For `i < n` the quotient `i * total / n` is below `total`. */
  lemma ProportionBelowTotal(i: nat, total: int, n: int)
    requires total >= 1 && i < n
    ensures (i * total) / n <= total - 1
  {
    MulMono(i, n - 1, total);
    MulPred(n, total);
    DivModUnique(n * total - 1, n, total - 1, n - 1);
    DivMono(i * total, n * total - 1, n);
  }

  /** The clamp to `total - 1` never takes effect: for `i < n` the pick is
      the floor of `i * total / n`, i.e. the frame at fraction `i / n` of the
      video. */
  lemma PickIsProportional(i: nat, total: int, n: int)
    requires total >= 1 && i < n
    ensures Pick(i, total, n) == (i * total) / n
    ensures Pick(i, total, n) * n <= i * total < (Pick(i, total, n) + 1) * n
  {
    ProportionBelowTotal(i, total, n);
    var q := (i * total) / n;
    DivModDef(i * total, n);
    MulSplit(n, q + 1, q);
  }

  /** The first pick is frame 0. */
  lemma PicksStartAtZero(total: int, n: int)
    requires total >= 1 && n >= 1
    ensures Picks(total, n)[0] == 0
  {
  }

  /** The picks never go backwards. */
  lemma PicksNonDecreasing(total: int, n: int)
    requires total >= 1
    ensures forall j, k :: 0 <= j <= k < |Picks(total, n)| ==> Picks(total, n)[j] <= Picks(total, n)[k]
  {
    var r := Picks(total, n);
    forall j, k | 0 <= j <= k < |r|
      ensures r[j] <= r[k]
    {
      MulMono(j, k, total);
      DivMono(j * total, k * total, Max(1, n));
    }
  }

  /** With at least as many frames as picks, the picks are distinct frames. */
  lemma PicksStrictlyIncreasing(total: int, n: int)
    requires 1 <= n <= total
    ensures forall j, k :: 0 <= j < k < |Picks(total, n)| ==> Picks(total, n)[j] < Picks(total, n)[k]
  {
    var r := Picks(total, n);
    forall j, k | 0 <= j < k < |r|
      ensures r[j] < r[k]
    {
      PickIsProportional(j, total, n);
      PickIsProportional(k, total, n);
      MulMono(j + 1, k, total);
      assert (j + 1) * total == j * total + total;
      DivGap(j * total, k * total, n);
    }
  }
}
