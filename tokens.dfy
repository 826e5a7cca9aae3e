/** Tokenising a video file name: the basename, lower-cased, cut into its
    alphanumeric runs (the first two lines of `_text_vector_from_name`).

    Characters are modelled as ASCII: a letter or a digit is alphanumeric,
    lower-casing maps `A`..`Z` to `a`..`z` and leaves every other character
    alone, and the path separator is `/`. */
module Tokens {

  /** `str.isalnum` on one character, restricted to ASCII letters and digits. */
  predicate IsAlnum(c: char)
    ensures IsAlnum(c) ==> ' ' < c && c as int < 128
  {
    'a' <= c <= 'z' || 'A' <= c <= 'Z' || '0' <= c <= '9'
  }

  predicate IsUpper(c: char) {
    'A' <= c <= 'Z'
  }

  /** `str.lower` on one character. */
  function LowerChar(c: char): (r: char)
    ensures !IsUpper(r)
    ensures IsAlnum(r) <==> IsAlnum(c)
    ensures !IsUpper(c) ==> r == c
    ensures IsUpper(c) ==> 'a' <= r <= 'z' && r as int - 'a' as int == c as int - 'A' as int
  {
    if IsUpper(c) then (c as int + 32) as char else c
  }

  /** `str.lower` on a string: character by character. */
  function Lower(s: string): (r: string)
    ensures |r| == |s|
    ensures forall i :: 0 <= i < |s| ==> r[i] == LowerChar(s[i])
  {
    seq(|s|, i requires 0 <= i < |s| => LowerChar(s[i]))
  }

  /** `os.path.basename`: the part of the path after its last `/`. */
  function Basename(p: string): (r: string)
    ensures '/' !in r
    ensures |r| <= |p| && r == p[|p| - |r|..]
    ensures |r| < |p| ==> p[|p| - |r| - 1] == '/'
  {
    if p == [] || p[|p| - 1] == '/' then []
    else Basename(p[..|p| - 1]) + [p[|p| - 1]]
  }

  /** Every character that is not alphanumeric becomes a space. */
  function Mask(s: string): (r: string)
    ensures |r| == |s|
    ensures forall i :: 0 <= i < |s| && IsAlnum(s[i]) ==> r[i] == s[i]
    ensures forall i :: 0 <= i < |s| && !IsAlnum(s[i]) ==> r[i] == ' '
  {
    seq(|s|, i requires 0 <= i < |s| => if IsAlnum(s[i]) then s[i] else ' ')
  }

  /** `str.split()` with no argument, on a string whose only separator is
      the space (the output of `Mask`): scans left to right, `cur` holds the
      token read so far, and a separator ends a non-empty token. */
  function SplitFrom(s: string, cur: string): (r: seq<string>)
    requires ' ' !in cur
    ensures forall t :: t in r ==> t != [] && ' ' !in t
    decreases |s|
  {
    if s == [] then (if cur == [] then [] else [cur])
    else if s[0] == ' ' then (if cur == [] then [] else [cur]) + SplitFrom(s[1..], [])
    else SplitFrom(s[1..], cur + [s[0]])
  }

  /** The pieces are non-empty and hold no separator. */
  function Split(s: string): (r: seq<string>)
    ensures forall t :: t in r ==> t != [] && ' ' !in t
  {
    SplitFrom(s, [])
  }

  /** The comprehension's `if t` filter: drops the empty tokens and keeps
      every other one, in order. */
  function DropEmpty(ts: seq<string>): (r: seq<string>)
    ensures forall t :: t in r <==> t in ts && t != []
    ensures multiset(r) == multiset(ts)[[] := 0]
    ensures |r| <= |ts|
    ensures (forall k :: 0 <= k < |ts| ==> ts[k] != []) ==> r == ts
  {
    if ts == [] then []
    else
      assert multiset(ts) == multiset{ts[0]} + multiset(ts[1..]) by {
        assert ts == [ts[0]] + ts[1..];
      }
      if ts[0] == [] then DropEmpty(ts[1..])
      else [ts[0]] + DropEmpty(ts[1..])
  }

  /** The tokens `_text_vector_from_name` counts: the maximal alphanumeric
      runs of the lower-cased basename. */
  function Tokenize(name: string): (r: seq<string>)
    ensures r == Runs(Lower(Basename(name)))
  {
    var s := Lower(Basename(name));
    SplitMaskIsRuns(s);
    RunsWellFormed(s);
    DropEmpty(Split(Mask(s)))
  }

  // ---------------------------------------------------------------------
  // Reference definition: the maximal alphanumeric runs of a string.

  /** The longest alphanumeric prefix of `s`. */
  function LeadingRun(s: string): (r: string)
    ensures |r| <= |s| && r == s[..|r|]
    ensures forall k :: 0 <= k < |r| ==> IsAlnum(r[k])
    ensures |r| < |s| ==> !IsAlnum(s[|r|])
    ensures s != [] && IsAlnum(s[0]) ==> |r| >= 1
  {
    if s != [] && IsAlnum(s[0]) then [s[0]] + LeadingRun(s[1..]) else []
  }

  /** The maximal alphanumeric runs of `s`, left to right. */
  function Runs(s: string): seq<string>
    decreases |s|
  {
    if s == [] then []
    else if !IsAlnum(s[0]) then Runs(s[1..])
    else
      var w := LeadingRun(s);
      [w] + Runs(s[|w|..])
  }

  /** All the alphanumeric characters of `s`, in order. */
  function AlnumChars(s: string): string {
    if s == [] then []
    else if IsAlnum(s[0]) then [s[0]] + AlnumChars(s[1..])
    else AlnumChars(s[1..])
  }

  function Concat(ts: seq<string>): string {
    if ts == [] then [] else ts[0] + Concat(ts[1..])
  }

  predicate AllAlnum(t: string) {
    forall k :: 0 <= k < |t| ==> IsAlnum(t[k])
  }

  // ---------------------------------------------------------------------
  // Lemmas

  lemma MaskTail(s: string)
    requires s != []
    ensures Mask(s)[1..] == Mask(s[1..])
  {
  }

  /** What `SplitFrom(Mask(s), cur)` is, in terms of the runs of `s`. */
  function SplitMaskSpec(s: string, cur: string): seq<string> {
    if cur == [] then Runs(s)
    else [cur + LeadingRun(s)] + Runs(s[|LeadingRun(s)|..])
  }

  /** The scanner step at a separator. */
  lemma SplitMaskSeparator(s: string, cur: string)
    requires s != [] && !IsAlnum(s[0]) && ' ' !in cur
    requires SplitFrom(Mask(s[1..]), []) == Runs(s[1..])
    ensures SplitFrom(Mask(s), cur) == SplitMaskSpec(s, cur)
  {
    MaskTail(s);
    assert Mask(s)[0] == ' ';
    assert LeadingRun(s) == [];
    assert s[|LeadingRun(s)|..] == s && cur + [] == cur;
  }

  /** The scanner step at a letter or digit. */
  lemma SplitMaskAlnum(s: string, cur: string)
    requires s != [] && IsAlnum(s[0]) && ' ' !in cur
    requires SplitFrom(Mask(s[1..]), cur + [s[0]]) == SplitMaskSpec(s[1..], cur + [s[0]])
    ensures SplitFrom(Mask(s), cur) == SplitMaskSpec(s, cur)
  {
    MaskTail(s);
    assert Mask(s)[0] == s[0] && s[0] != ' ';
    var w := LeadingRun(s[1..]);
    assert LeadingRun(s) == [s[0]] + w;
    assert s[|LeadingRun(s)|..] == s[1..][|w|..];
    assert cur + [s[0]] + w == cur + LeadingRun(s);
    if cur == [] {
      assert cur + [s[0]] == [s[0]] && [s[0]] != [];
      assert SplitMaskSpec(s[1..], [s[0]]) == [[s[0]] + w] + Runs(s[1..][|w|..]);
      assert Runs(s) == [LeadingRun(s)] + Runs(s[|LeadingRun(s)|..]);
    }
  }

  /** The scanner, started with a partial token `cur`, produces that token
      extended by the leading run, then the remaining runs. */
  lemma {:induction false} SplitMaskFrom(s: string, cur: string)
    requires ' ' !in cur
    ensures SplitFrom(Mask(s), cur) == SplitMaskSpec(s, cur)
    decreases |s|
  {
    if s == [] {
      assert Mask(s) == [] && LeadingRun(s) == [] && cur + [] == cur;
    } else if !IsAlnum(s[0]) {
      SplitMaskFrom(s[1..], []);
      SplitMaskSeparator(s, cur);
    } else {
      SplitMaskFrom(s[1..], cur + [s[0]]);
      SplitMaskAlnum(s, cur);
    }
  }

  /** Splitting the masked string yields exactly the maximal alphanumeric runs. */
  lemma SplitMaskIsRuns(s: string)
    ensures Split(Mask(s)) == Runs(s)
  {
    SplitMaskFrom(s, []);
  }

  /** Every run is non-empty and alphanumeric. */
  lemma {:induction false} RunsWellFormed(s: string)
    ensures forall k :: 0 <= k < |Runs(s)| ==> Runs(s)[k] != [] && AllAlnum(Runs(s)[k])
    decreases |s|
  {
    if s != [] {
      if !IsAlnum(s[0]) {
        RunsWellFormed(s[1..]);
      } else {
        var w := LeadingRun(s);
        RunsWellFormed(s[|w|..]);
      }
    }
  }

  lemma {:induction false} AlnumCharsConcat(a: string, b: string)
    ensures AlnumChars(a + b) == AlnumChars(a) + AlnumChars(b)
  {
    if a == [] {
      assert a + b == b;
    } else {
      assert (a + b)[0] == a[0] && (a + b)[1..] == a[1..] + b;
      AlnumCharsConcat(a[1..], b);
      if IsAlnum(a[0]) {
        calc {
          AlnumChars(a + b);
          [a[0]] + AlnumChars(a[1..] + b);
          [a[0]] + (AlnumChars(a[1..]) + AlnumChars(b));
          ([a[0]] + AlnumChars(a[1..])) + AlnumChars(b);
        }
      }
    }
  }

  lemma {:induction false} AlnumCharsOfRun(w: string)
    requires AllAlnum(w)
    ensures AlnumChars(w) == w
  {
    if w != [] {
      AlnumCharsOfRun(w[1..]);
    }
  }

  /** No alphanumeric character is lost, duplicated or reordered. */
  lemma {:induction false} RunsCoverAlnum(s: string)
    ensures Concat(Runs(s)) == AlnumChars(s)
    decreases |s|
  {
    if s != [] {
      if !IsAlnum(s[0]) {
        RunsCoverAlnum(s[1..]);
      } else {
        var w := LeadingRun(s);
        RunsCoverAlnum(s[|w|..]);
        assert s == w + s[|w|..];
        AlnumCharsConcat(w, s[|w|..]);
        AlnumCharsOfRun(w);
        assert Runs(s) == [w] + Runs(s[|w|..]);
        assert Runs(s)[1..] == Runs(s[|w|..]);
      }
    }
  }

  lemma {:induction false} AlnumCharsEmpty(s: string)
    ensures AlnumChars(s) == [] <==> forall k :: 0 <= k < |s| ==> !IsAlnum(s[k])
  {
    if s != [] {
      AlnumCharsEmpty(s[1..]);
      assert forall k :: 1 <= k < |s| ==> s[k] == s[1..][k - 1];
    }
  }

  /** A string has no runs exactly when it has no alphanumeric character. */
  lemma RunsEmptyIff(s: string)
    ensures Runs(s) == [] <==> forall k :: 0 <= k < |s| ==> !IsAlnum(s[k])
  {
    RunsWellFormed(s);
    RunsCoverAlnum(s);
    AlnumCharsEmpty(s);
    if Runs(s) != [] {
      assert Concat(Runs(s)) == Runs(s)[0] + Concat(Runs(s)[1..]);
    }
  }

  lemma LowerKeepsAlnum(s: string)
    ensures forall k :: 0 <= k < |s| ==> (IsAlnum(Lower(s)[k]) <==> IsAlnum(s[k]))
  {
  }

  /** The tokens are exactly the maximal alphanumeric runs of the lower-cased
      basename, in order; each is non-empty and alphanumeric, and together they
      hold every alphanumeric character of it. */
  lemma TokenizeIsRuns(name: string)
    ensures Tokenize(name) == Runs(Lower(Basename(name)))
    ensures forall k :: 0 <= k < |Tokenize(name)| ==>
              Tokenize(name)[k] != [] && AllAlnum(Tokenize(name)[k])
    ensures Concat(Tokenize(name)) == AlnumChars(Lower(Basename(name)))
  {
    var s := Lower(Basename(name));
    SplitMaskIsRuns(s);
    RunsWellFormed(s);
    RunsCoverAlnum(s);
  }

  /** A name yields no tokens exactly when its basename has no alphanumeric character. */
  lemma TokenizeEmptyIff(name: string)
    ensures Tokenize(name) == [] <==>
            forall k :: 0 <= k < |Basename(name)| ==> !IsAlnum(Basename(name)[k])
  {
    TokenizeIsRuns(name);
    RunsEmptyIff(Lower(Basename(name)));
    LowerKeepsAlnum(Basename(name));
  }
}
