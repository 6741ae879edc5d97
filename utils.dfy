/** Synthesis and post-processing of stochastic-expression text: rounding,
    the dot-accessor rewrite of characterisation suffixes, the expression of
    a linear regression, the nested conditional expression of a J48 decision
    tree dump, and the replacement of decimal literals by two-point integer
    distributions. */
module Utils {
  import opened Common
  import opened Text

  // ---------------------------------------------------------------------
  // round
  // ---------------------------------------------------------------------

  function Pow10(n: nat): (r: nat)
    ensures r >= 1
  {
    if n == 0 then 1 else 10 * Pow10(n - 1)
  }

  /** HALF_UP rounding of `y` to an integer: the nearest integer, a tie
      going away from zero. */
  function RoundHalfUp(y: real): (n: int)
    ensures -0.5 <= n as real - y <= 0.5
    ensures n as real - y == 0.5 ==> y > 0.0
    ensures n as real - y == -0.5 ==> y < 0.0
  {
    if y >= 0.0 then (y + 0.5).Floor else -((-y + 0.5).Floor)
  }

  /** An integer is its own HALF_UP rounding. */
  lemma RoundHalfUpInteger(n: int)
    ensures RoundHalfUp(n as real) == n
  {
    if n >= 0 {
      assert (n as real + 0.5).Floor == n;
    } else {
      assert (-(n as real) + 0.5).Floor == -n;
    }
  }

  /** `r` has at most `places` decimals: scaled by `10^places` it is an integer. */
  predicate HasPlaces(r: real, places: nat) {
    (r * Pow10(places) as real).Floor as real == r * Pow10(places) as real
  }

  lemma IntegerScaled(r: real, places: nat, n: int)
    requires r * Pow10(places) as real == n as real
    ensures HasPlaces(r, places)
  {
    assert (n as real).Floor == n;
  }

  /** Half a unit in the last of `places` decimals. */
  function HalfUnit(places: nat): real {
    0.5 / Pow10(places) as real
  }

  lemma DivideAtMostHalf(x: real, p: real)
    requires p >= 1.0 && x <= 0.5
    ensures x / p <= 0.5 / p
  {
    assert (0.5 - x) / p >= 0.0;
  }

  lemma DivideDifference(n: real, value: real, p: real)
    requires p >= 1.0
    ensures n / p - value == (n - value * p) / p
    ensures (n / p) * p == n
  {
  }

  /** Scaling an integer rounding of `value * p` back by `p` stays within
      half a unit of `1 / p` of `value`. */
  lemma ScaleBack(n: int, value: real, p: real)
    requires p >= 1.0 && -0.5 <= n as real - value * p <= 0.5
    ensures -0.5 / p <= n as real / p - value <= 0.5 / p
    ensures (n as real / p) * p == n as real
  {
    var d := n as real - value * p;
    DivideDifference(n as real, value, p);
    DivideAtMostHalf(d, p);
    DivideAtMostHalf(-d, p);
    assert -d / p == -(d / p);
  }

  /** `value` rounded HALF_UP to `places` decimals, for a non-negative
      number of places: a multiple of the last place that is at most half a
      unit of the last place away, a tie going away from zero. */
  function RoundTo(value: real, places: nat): (r: real)
    ensures -HalfUnit(places) <= r - value <= HalfUnit(places)
    ensures r - value == HalfUnit(places) ==> value > 0.0
    ensures r - value == -HalfUnit(places) ==> value < 0.0
    ensures HasPlaces(r, places)
  {
    var p := Pow10(places) as real;
    var n := RoundHalfUp(value * p);
    ScaledRounding(value, places, p, n);
    ScaledOnGrid(places, p, n);
    n as real / p
  }

  /** An integer rounding of `value * 10^places`, scaled back, is at most
      half a unit away, and a tie goes away from zero. */
  lemma ScaledRounding(value: real, places: nat, p: real, n: int)
    requires p == Pow10(places) as real
    requires -0.5 <= n as real - value * p <= 0.5
    requires n as real - value * p == 0.5 ==> value * p > 0.0
    requires n as real - value * p == -0.5 ==> value * p < 0.0
    ensures var r := n as real / p;
      && -HalfUnit(places) <= r - value <= HalfUnit(places)
      && (r - value == HalfUnit(places) ==> value > 0.0)
      && (r - value == -HalfUnit(places) ==> value < 0.0)
  {
    assert p >= 1.0 && HalfUnit(places) == 0.5 / p;
    ScaleBack(n, value, p);
    ScaleBackTies(n, value, p);
  }

  /** An integer scaled back by `10^places` has at most `places` decimals. */
  lemma ScaledOnGrid(places: nat, p: real, n: int)
    requires p == Pow10(places) as real
    ensures HasPlaces(n as real / p, places)
  {
    assert p >= 1.0;
    assert (n as real / p) * p == n as real;
    IntegerScaled(n as real / p, places, n);
  }

  /** `round`: throws for a negative number of places, otherwise rounds
      HALF_UP to that many decimals. */
  function Round(value: real, places: int): (r: Result<real>)
    ensures places < 0 <==> r.Failure?
    ensures r.Failure? ==> r.error.IllegalArgument?
    ensures r.Success? ==> -HalfUnit(places) <= r.value - value <= HalfUnit(places)
    ensures r.Success? && r.value - value == HalfUnit(places) ==> value > 0.0
    ensures r.Success? && r.value - value == -HalfUnit(places) ==> value < 0.0
    ensures r.Success? ==> HasPlaces(r.value, places)
  {
    if places < 0 then Failure(IllegalArgument(""))
    else Success(RoundTo(value, places))
  }

  /** Division by a scale factor keeps equality and sign. */
  lemma ScaledFacts(d: real, value: real, p: real)
    requires p >= 1.0
    ensures d / p == 0.5 / p ==> d == 0.5
    ensures d / p == -0.5 / p ==> d == -0.5
    ensures value * p > 0.0 ==> value > 0.0
    ensures value * p < 0.0 ==> value < 0.0
  {
    if d / p == 0.5 / p {
      assert d == (d / p) * p;
    }
    if d / p == -0.5 / p {
      assert d == (d / p) * p;
    }
  }

  /** A tie at the integer scale stays a tie after scaling back, so the tie
      rule of `RoundHalfUp` carries over to `n / p`. */
  lemma ScaleBackTies(n: int, value: real, p: real)
    requires p >= 1.0
    requires n as real - value * p == 0.5 ==> value * p > 0.0
    requires n as real - value * p == -0.5 ==> value * p < 0.0
    ensures n as real / p - value == 0.5 / p ==> value > 0.0
    ensures n as real / p - value == -0.5 / p ==> value < 0.0
  {
    DivideDifference(n as real, value, p);
    ScaledFacts(n as real - value * p, value, p);
  }

  /** A value that already has `places` decimals is left unchanged. */
  lemma RoundToKeepsGridValue(r: real, places: nat)
    requires HasPlaces(r, places)
    ensures RoundTo(r, places) == r
  {
    var n := (r * Pow10(places) as real).Floor;
    assert r * Pow10(places) as real == n as real;
    RoundHalfUpInteger(n);
    DivideDifference(n as real, r, Pow10(places) as real);
  }

  /** Rounding an already rounded value to the same number of places
      leaves it unchanged. */
  lemma RoundIdempotent(value: real, places: int)
    requires places >= 0
    ensures Round(Round(value, places).value, places) == Round(value, places)
  {
    RoundToKeepsGridValue(RoundTo(value, places), places);
  }

  // ---------------------------------------------------------------------
  // replaceUnderscoreWithDot
  // ---------------------------------------------------------------------

  const ValueSuffix: string := "_VALUE"
  const ByteSizeSuffix: string := "_BYTESIZE"
  const ElementsSuffix: string := "_NUMBER_OF_ELEMENTS"

  /** A suffix pattern as the rewrite needs it: it starts with an
      underscore, has no dot, and no proper suffix of it starts like it
      (so two occurrences never overlap). */
  predicate SuffixPattern(p: string) {
    && |p| >= 2
    && p[0] == '_'
    && '.' !in p
    && NoClash(p, p, 1)
  }

  /** `p` cannot occur in a string at an offset `d >= from` inside an
      occurrence of `q`: the two characters `p` would put there differ from
      those of `q`. */
  predicate NoClash(q: string, p: string, from: nat)
    requires |p| >= 2
  {
    forall d :: from <= d < |q| ==> q[d] != p[0] || (d + 1 < |q| && q[d + 1] != p[1])
  }

  /** `replaceAll(p, "." + p[1..])`: left to right, each occurrence of `p`
      gets its leading underscore turned into a dot. */
  function ReplaceSuffix(s: string, p: string): (r: string)
    requires |p| >= 1
    ensures |r| == |s|
    decreases |s|
  {
    if |s| < |p| then s
    else if s[..|p|] == p then ['.'] + p[1..] + ReplaceSuffix(s[|p|..], p)
    else [s[0]] + ReplaceSuffix(s[1..], p)
  }

  /** `u` is `t` with some underscores turned into dots, and nothing else changed. */
  predicate DotsOnly(t: string, u: string) {
    |t| == |u| && forall k :: 0 <= k < |t| ==> u[k] == t[k] || (t[k] == '_' && u[k] == '.')
  }

  lemma {:induction false} ReplaceSuffixDotsOnly(s: string, p: string)
    requires SuffixPattern(p)
    ensures DotsOnly(s, ReplaceSuffix(s, p))
    decreases |s|
  {
    var r := ReplaceSuffix(s, p);
    if |s| < |p| {
    } else if s[..|p|] == p {
      ReplaceSuffixDotsOnly(s[|p|..], p);
      forall k | 0 <= k < |s| ensures r[k] == s[k] || (s[k] == '_' && r[k] == '.') {
        if k < |p| {
          assert s[k] == p[k];
        } else {
          assert r[k] == ReplaceSuffix(s[|p|..], p)[k - |p|];
        }
      }
    } else {
      ReplaceSuffixDotsOnly(s[1..], p);
      forall k | 0 <= k < |s| ensures r[k] == s[k] || (s[k] == '_' && r[k] == '.') {
        if k > 0 {
          assert r[k] == ReplaceSuffix(s[1..], p)[k - 1];
        }
      }
    }
  }

  /** Only the first character of an occurrence of `p` is ever changed. */
  lemma {:induction false} ReplaceSuffixChangesOnlyStarts(s: string, p: string, k: nat)
    requires |p| >= 1
    requires k < |s| && ReplaceSuffix(s, p)[k] != s[k]
    ensures OccursAt(s, p, k)
    decreases |s|, 2
  {
    if |s| < |p| {
    } else if s[..|p|] == p {
      ChangesOnlyStartsAfterMatch(s, p, k);
    } else {
      ChangesOnlyStartsAfterSkip(s, p, k);
    }
  }

  /** On an input that starts with `p`, the rewrite keeps the rest of the
      occurrence and continues after it. */
  lemma ReplaceSuffixAfterMatch(s: string, p: string)
    requires 1 <= |p| <= |s| && s[..|p|] == p
    ensures forall j :: 0 < j < |p| ==> ReplaceSuffix(s, p)[j] == s[j]
    ensures forall j :: |p| <= j < |s| ==> ReplaceSuffix(s, p)[j] == ReplaceSuffix(s[|p|..], p)[j - |p|]
  {
    ReplaceSuffixUnfoldMatch(s, p);
    DottedHead(s, p, ReplaceSuffix(s, p), ReplaceSuffix(s[|p|..], p));
  }

  /** `r` is `s` with its leading `p` dotted, followed by `rt`. */
  lemma DottedHead(s: string, p: string, r: string, rt: string)
    requires 1 <= |p| <= |s| && s[..|p|] == p
    requires r == ['.'] + p[1..] + rt
    ensures forall j :: 0 < j < |p| ==> r[j] == s[j]
    ensures forall j :: |p| <= j < |r| ==> r[j] == rt[j - |p|]
  {
    var head := ['.'] + p[1..];
    ConcatIndex(head, rt, r);
    forall j | 0 < j < |p| ensures r[j] == s[j] {
      assert head[j] == p[j] == s[..|p|][j];
    }
  }

  lemma ReplaceSuffixUnfoldMatch(s: string, p: string)
    requires 1 <= |p| <= |s| && s[..|p|] == p
    ensures ReplaceSuffix(s, p) == ['.'] + p[1..] + ReplaceSuffix(s[|p|..], p)
  {
  }

  lemma ReplaceSuffixUnfoldSkip(s: string, p: string)
    requires 1 <= |p| <= |s| && s[..|p|] != p
    ensures ReplaceSuffix(s, p) == [s[0]] + ReplaceSuffix(s[1..], p)
  {
  }

  /** Indexing into a concatenation. */
  lemma ConcatIndex<T>(a: seq<T>, b: seq<T>, c: seq<T>)
    requires c == a + b
    ensures forall j :: 0 <= j < |a| ==> c[j] == a[j]
    ensures forall j :: |a| <= j < |c| ==> c[j] == b[j - |a|]
  {
  }

  /** The case of an input that starts with `p`. */
  lemma {:induction false} ChangesOnlyStartsAfterMatch(s: string, p: string, k: nat)
    requires 1 <= |p| <= |s| && s[..|p|] == p
    requires k < |s| && ReplaceSuffix(s, p)[k] != s[k]
    ensures OccursAt(s, p, k)
    decreases |s|, 1
  {
    ReplaceSuffixAfterMatch(s, p);
    if k == 0 {
      assert s[0..|p|] == p;
    } else if k >= |p| {
      ChangesOnlyStartsInTail(s, p, k);
    }
  }

  /** A change after the leading occurrence is one in the rest of the input. */
  lemma {:induction false} ChangesOnlyStartsInTail(s: string, p: string, k: nat)
    requires 1 <= |p| <= k < |s| && s[..|p|] == p
    requires ReplaceSuffix(s[|p|..], p)[k - |p|] != s[k]
    ensures OccursAt(s, p, k)
    decreases |s|, 0
  {
    var t := s[|p|..];
    var j := k - |p|;
    assert t[j] == s[k];
    ReplaceSuffixChangesOnlyStarts(t, p, j);
    SliceOfSuffix(s, |p|, j, |p|);
  }

  /** A slice of a suffix is a slice of the whole. */
  lemma SliceOfSuffix<T>(s: seq<T>, m: nat, j: nat, len: nat)
    requires m + j + len <= |s|
    ensures s[m..][j..j + len] == s[m + j..m + j + len]
  {
  }

  /** The case of an input that does not start with `p`. */
  lemma {:induction false} ChangesOnlyStartsAfterSkip(s: string, p: string, k: nat)
    requires 1 <= |p| <= |s| && s[..|p|] != p
    requires k < |s| && ReplaceSuffix(s, p)[k] != s[k]
    ensures OccursAt(s, p, k)
    decreases |s|, 0
  {
    var t := s[1..];
    ReplaceSuffixUnfoldSkip(s, p);
    if k > 0 {
      assert ReplaceSuffix(s, p)[k] == ReplaceSuffix(t, p)[k - 1] && t[k - 1] == s[k];
      ReplaceSuffixChangesOnlyStarts(t, p, k - 1);
      SliceOfSuffix(s, 1, k - 1, |p|);
    }
  }

  /** Two occurrences of an unclashing pattern cannot overlap. */
  lemma NoOverlap(s: string, q: string, p: string, i: nat, j: nat)
    requires |p| >= 2 && NoClash(q, p, 1)
    requires OccursAt(s, q, i) && i < j < i + |q|
    ensures !OccursAt(s, p, j)
  {
    var d := j - i;
    assert q[d] != p[0] || (d + 1 < |q| && q[d + 1] != p[1]);
    if j + |p| <= |s| {
      assert s[j] == s[i..i + |q|][d] == q[d];
      if q[d] != p[0] {
        assert s[j..j + |p|][0] != p[0];
      } else {
        assert s[j + 1] == s[i..i + |q|][d + 1] == q[d + 1];
        assert s[j..j + |p|][1] != p[1];
      }
    }
  }

  /** Every occurrence of `p` in the input has its underscore turned into a dot. */
  lemma {:induction false} ReplaceSuffixReplacesEveryOccurrence(s: string, p: string, k: nat)
    requires SuffixPattern(p)
    requires OccursAt(s, p, k)
    ensures ReplaceSuffix(s, p)[k] == '.'
    decreases |s|, 1
  {
    if s[..|p|] == p {
      ReplacesEveryOccurrenceAfterMatch(s, p, k);
    } else {
      ReplacesEveryOccurrenceAfterSkip(s, p, k);
    }
  }

  /** The case of an input that starts with `p`. */
  lemma {:induction false} ReplacesEveryOccurrenceAfterMatch(s: string, p: string, k: nat)
    requires SuffixPattern(p)
    requires OccursAt(s, p, k) && s[..|p|] == p
    ensures ReplaceSuffix(s, p)[k] == '.'
    decreases |s|, 0
  {
    var r, t := ReplaceSuffix(s, p), s[|p|..];
    ReplaceSuffixUnfoldMatch(s, p);
    ConcatIndex(['.'] + p[1..], ReplaceSuffix(t, p), r);
    if k == 0 {
    } else if k < |p| {
      assert OccursAt(s, p, 0);
      NoOverlap(s, p, p, 0, k);
    } else {
      assert t[k - |p|..k - |p| + |p|] == s[k..k + |p|];
      ReplaceSuffixReplacesEveryOccurrence(t, p, k - |p|);
    }
  }

  /** The case of an input that does not start with `p`. */
  lemma {:induction false} ReplacesEveryOccurrenceAfterSkip(s: string, p: string, k: nat)
    requires SuffixPattern(p)
    requires OccursAt(s, p, k) && s[..|p|] != p
    ensures ReplaceSuffix(s, p)[k] == '.'
    decreases |s|, 0
  {
    if k == 0 {
      assert false;
    } else {
      var r, t := ReplaceSuffix(s, p), s[1..];
      ReplaceSuffixUnfoldSkip(s, p);
      ConcatIndex([s[0]], ReplaceSuffix(t, p), r);
      assert t[k - 1..k - 1 + |p|] == s[k..k + |p|];
      ReplaceSuffixReplacesEveryOccurrence(t, p, k - 1);
    }
  }

  /** An occurrence of a dot-free `q` in `u` where `u` only turned
      underscores of `t` into dots is an occurrence in `t`. */
  lemma OccurrenceInDotted(t: string, u: string, q: string, k: nat)
    requires DotsOnly(t, u) && '.' !in q
    requires OccursAt(u, q, k)
    ensures OccursAt(t, q, k)
  {
    forall i | 0 <= i < |q| ensures t[k + i] == q[i] {
      assert u[k + i] == q[i];
    }
    assert t[k..k + |q|] == q;
  }

  /** A dot-free pattern absent from `t` stays absent when underscores turn into dots. */
  lemma AbsentInDotted(t: string, u: string, q: string)
    requires DotsOnly(t, u) && '.' !in q
    requires Absent(t, q)
    ensures Absent(u, q)
  {
    forall k | 0 <= k <= |u| - |q| ensures !OccursAt(u, q, k) {
      if OccursAt(u, q, k) {
        OccurrenceInDotted(t, u, q, k);
      }
    }
  }

  /** After the rewrite no occurrence of the pattern is left. */
  lemma {:induction false} ReplaceSuffixLeavesNone(s: string, p: string)
    requires SuffixPattern(p)
    ensures Absent(ReplaceSuffix(s, p), p)
    decreases |s|
  {
    var r := ReplaceSuffix(s, p);
    ReplaceSuffixDotsOnly(s, p);
    forall k | 0 <= k <= |r| - |p| ensures !OccursAt(r, p, k) {
      if OccursAt(r, p, k) {
        OccurrenceInDotted(s, r, p, k);
        ReplaceSuffixReplacesEveryOccurrence(s, p, k);
        assert false;
      }
    }
  }

  /** A string without the pattern is left as it is. */
  lemma {:induction false} ReplaceSuffixWithoutPattern(s: string, p: string)
    requires SuffixPattern(p)
    requires Absent(s, p)
    ensures ReplaceSuffix(s, p) == s
  {
    var r := ReplaceSuffix(s, p);
    ReplaceSuffixDotsOnly(s, p);
    forall k | 0 <= k < |s| ensures r[k] == s[k] {
      if r[k] != s[k] {
        ReplaceSuffixChangesOnlyStarts(s, p, k);
      }
    }
  }

  /** `replaceUnderscoreWithDot`: `_VALUE`, then `_BYTESIZE`, then
      `_NUMBER_OF_ELEMENTS` rewritten into the dot-accessor form. */
  function ReplaceUnderscoreWithDot(stoEx: string): string {
    ReplaceSuffix(ReplaceSuffix(ReplaceSuffix(stoEx, ValueSuffix), ByteSizeSuffix), ElementsSuffix)
  }

  /** The three suffixes are patterns the rewrite handles. */
  lemma SuffixesWellFormed()
    ensures SuffixPattern(ValueSuffix) && SuffixPattern(ByteSizeSuffix) && SuffixPattern(ElementsSuffix)
  {
  }

  lemma DotsOnlyTransitive(t: string, u: string, v: string)
    requires DotsOnly(t, u) && DotsOnly(u, v)
    ensures DotsOnly(t, v)
  {
  }

  /** The rewrite only turns underscores into dots, and afterwards none of
      the three suffixes is left in its underscore form. */
  lemma {:induction false} ReplaceUnderscoreWithDotRewritesAll(stoEx: string)
    ensures DotsOnly(stoEx, ReplaceUnderscoreWithDot(stoEx))
    ensures Absent(ReplaceUnderscoreWithDot(stoEx), ValueSuffix)
    ensures Absent(ReplaceUnderscoreWithDot(stoEx), ByteSizeSuffix)
    ensures Absent(ReplaceUnderscoreWithDot(stoEx), ElementsSuffix)
  {
    SuffixesWellFormed();
    var s1 := ReplaceSuffix(stoEx, ValueSuffix);
    var s2 := ReplaceSuffix(s1, ByteSizeSuffix);
    var s3 := ReplaceSuffix(s2, ElementsSuffix);
    ReplaceSuffixDotsOnly(stoEx, ValueSuffix);
    ReplaceSuffixDotsOnly(s1, ByteSizeSuffix);
    ReplaceSuffixDotsOnly(s2, ElementsSuffix);
    DotsOnlyTransitive(stoEx, s1, s2);
    DotsOnlyTransitive(stoEx, s2, s3);
    ReplaceSuffixLeavesNone(stoEx, ValueSuffix);
    ReplaceSuffixLeavesNone(s1, ByteSizeSuffix);
    ReplaceSuffixLeavesNone(s2, ElementsSuffix);
    AbsentInDotted(s1, s2, ValueSuffix);
    AbsentInDotted(s2, s3, ValueSuffix);
    AbsentInDotted(s2, s3, ByteSizeSuffix);
  }

  /** A stochastic expression without any of the suffixes is returned as it is. */
  lemma {:induction false} ReplaceUnderscoreWithDotIdentity(stoEx: string)
    requires Absent(stoEx, ValueSuffix) && Absent(stoEx, ByteSizeSuffix) && Absent(stoEx, ElementsSuffix)
    ensures ReplaceUnderscoreWithDot(stoEx) == stoEx
  {
    SuffixesWellFormed();
    ReplaceSuffixWithoutPattern(stoEx, ValueSuffix);
    ReplaceSuffixWithoutPattern(stoEx, ByteSizeSuffix);
    ReplaceSuffixWithoutPattern(stoEx, ElementsSuffix);
  }

  /** The rewrite keeps the length, and a second rewrite changes nothing. */
  lemma ReplaceUnderscoreWithDotIdempotent(stoEx: string)
    ensures |ReplaceUnderscoreWithDot(stoEx)| == |stoEx|
    ensures ReplaceUnderscoreWithDot(ReplaceUnderscoreWithDot(stoEx)) == ReplaceUnderscoreWithDot(stoEx)
  {
    ReplaceUnderscoreWithDotRewritesAll(stoEx);
    ReplaceUnderscoreWithDotIdentity(ReplaceUnderscoreWithDot(stoEx));
  }

  // ---------------------------------------------------------------------
  // getStoExLinReg
  // ---------------------------------------------------------------------

  /** Decimals a regression coefficient is rounded to. */
  const CoefficientPlaces: nat := 3

  /** Separator between the summands of the regression expression. */
  const PlusParenthesis: string := " + ("

  /** Number of coefficients that weigh an attribute: all but the last two
      (the class attribute's slot and the intercept). */
  function RegressorCount(coefficients: seq<real>): (n: nat)
    ensures n == 0 || n + 2 == |coefficients|
  {
    if |coefficients| >= 2 then |coefficients| - 2 else 0
  }

  /** The indices below `n` whose coefficient does not round to zero, in
      increasing order (`TermIndicesMeaning`). */
  function TermIndices(coefficients: seq<real>, n: nat): (r: seq<nat>)
    requires n <= |coefficients|
    ensures forall i :: 0 <= i < |r| ==> r[i] < n
  {
    if n == 0 then []
    else
      var last := if RoundTo(coefficients[n - 1], CoefficientPlaces) != 0.0 then [n - 1] else [];
      TermIndices(coefficients, n - 1) + last
  }

  predicate Increasing(r: seq<nat>) {
    forall i, j :: 0 <= i < j < |r| ==> r[i] < r[j]
  }

  /** Exactly the indices below `n` whose coefficient rounded to three
      places is non-zero, each once, in increasing order. */
  lemma TermIndicesMeaning(coefficients: seq<real>, n: nat)
    requires n <= |coefficients|
    ensures forall k :: k in TermIndices(coefficients, n) <==>
      0 <= k < n && RoundTo(coefficients[k], CoefficientPlaces) != 0.0
    ensures Increasing(TermIndices(coefficients, n))
  {
    TermIndicesMembers(coefficients, n);
    TermIndicesIncreasing(coefficients, n);
  }

  lemma {:induction false} TermIndicesMembers(coefficients: seq<real>, n: nat)
    requires n <= |coefficients|
    ensures forall k :: k in TermIndices(coefficients, n) <==>
      0 <= k < n && RoundTo(coefficients[k], CoefficientPlaces) != 0.0
  {
    if n > 0 {
      TermIndicesMembers(coefficients, n - 1);
      var prefix := TermIndices(coefficients, n - 1);
      var kept := RoundTo(coefficients[n - 1], CoefficientPlaces) != 0.0;
      var last := if kept then [n - 1] else [];
      var r := TermIndices(coefficients, n);
      assert r == prefix + last;
      forall k ensures k in r <==> 0 <= k < n && RoundTo(coefficients[k], CoefficientPlaces) != 0.0 {
        assert k in r <==> k in prefix || k in last;
        assert k in last <==> k == n - 1 && kept;
      }
    }
  }

  lemma {:induction false} TermIndicesIncreasing(coefficients: seq<real>, n: nat)
    requires n <= |coefficients|
    ensures Increasing(TermIndices(coefficients, n))
  {
    if n > 0 {
      TermIndicesIncreasing(coefficients, n - 1);
      var prefix := TermIndices(coefficients, n - 1);
      var last := if RoundTo(coefficients[n - 1], CoefficientPlaces) != 0.0 then [n - 1] else [];
      var r := TermIndices(coefficients, n);
      assert r == prefix + last;
      forall i, j | 0 <= i < j < |r| ensures r[i] < r[j] {
        if j < |prefix| {
          assert r[i] == prefix[i] && r[j] == prefix[j];
        } else {
          assert r[j] == n - 1 && r[i] == prefix[i];
        }
      }
    }
  }

  /** One more index: the indices below `i + 1` extend those below `i`. */
  lemma TermIndicesStep(coefficients: seq<real>, i: nat)
    requires i < |coefficients|
    ensures TermIndices(coefficients, i + 1) == TermIndices(coefficients, i) +
      (if RoundTo(coefficients[i], CoefficientPlaces) != 0.0 then [i] else [])
  {
  }

  /** A kept index without an attribute name leaves the indices uncovered. */
  lemma UncoveredIndex(coefficients: seq<real>, n: nat, names: seq<string>, i: nat)
    requires i < n <= |coefficients| && |names| <= i
    requires RoundTo(coefficients[i], CoefficientPlaces) != 0.0
    ensures !NamesCover(TermIndices(coefficients, n), names)
  {
    TermIndicesMeaning(coefficients, n);
    var idx := TermIndices(coefficients, n);
    assert i in idx;
    var j :| 0 <= j < |idx| && idx[j] == i;
  }

  /** Every index has an attribute name. */
  predicate NamesCover(idx: seq<nat>, names: seq<string>) {
    forall i :: 0 <= i < |idx| ==> idx[i] < |names|
  }

  /** The summand `<rounded coefficient> * <attribute name>`. */
  function TermText(coefficients: seq<real>, names: seq<string>, k: nat, toText: real -> string): string
    requires k < |coefficients| && k < |names|
  {
    toText(RoundTo(coefficients[k], CoefficientPlaces)) + " * " + names[k]
  }

  /** The summands for the given indices, in their order. */
  function TermTexts(coefficients: seq<real>, names: seq<string>, idx: seq<nat>, toText: real -> string): (r: seq<string>)
    requires forall i :: 0 <= i < |idx| ==> idx[i] < |coefficients|
    requires NamesCover(idx, names)
    ensures |r| == |idx|
    ensures forall i :: 0 <= i < |idx| ==> r[i] == TermText(coefficients, names, idx[i], toText)
  {
    if idx == [] then []
    else TermTexts(coefficients, names, idx[..|idx| - 1], toText) + [TermText(coefficients, names, idx[|idx| - 1], toText)]
  }

  lemma TermTextsSnoc(coefficients: seq<real>, names: seq<string>, idx: seq<nat>, k: nat, toText: real -> string)
    requires forall i :: 0 <= i < |idx| ==> idx[i] < |coefficients|
    requires NamesCover(idx, names)
    requires k < |coefficients| && k < |names|
    ensures TermTexts(coefficients, names, idx + [k], toText) ==
      TermTexts(coefficients, names, idx, toText) + [TermText(coefficients, names, k, toText)]
  {
    assert (idx + [k])[..|idx|] == idx;
  }

  /** A kept coefficient with an attribute name adds its summand. */
  lemma CollectTermsKeep(coefficients: seq<real>, names: seq<string>, i: nat, toText: real -> string)
    requires i < |coefficients| && i < |names|
    requires RoundTo(coefficients[i], CoefficientPlaces) != 0.0
    requires NamesCover(TermIndices(coefficients, i), names)
    ensures NamesCover(TermIndices(coefficients, i + 1), names)
    ensures TermTexts(coefficients, names, TermIndices(coefficients, i + 1), toText) ==
      TermTexts(coefficients, names, TermIndices(coefficients, i), toText) + [TermText(coefficients, names, i, toText)]
  {
    var before := TermIndices(coefficients, i);
    TermIndicesStep(coefficients, i);
    assert TermIndices(coefficients, i + 1) == before + [i];
    TermTextsSnoc(coefficients, names, before, i, toText);
  }

  /** The expression `getStoExLinReg` builds from the coefficients and the
      attribute names: the summands of the attributes with a non-zero
      rounded coefficient, then the rounded intercept, joined by ` + (`,
      followed by one closing parenthesis per summand. An empty coefficient
      array, or a kept coefficient without an attribute, throws. */
  function LinRegExpression(coefficients: seq<real>, names: seq<string>, toText: real -> string): (r: Result<string>)
    ensures r.Failure? <==>
      |coefficients| == 0 ||
      exists k :: 0 <= k < RegressorCount(coefficients) && k >= |names| && RoundTo(coefficients[k], CoefficientPlaces) != 0.0
    ensures r.Failure? ==> r.error == IndexOutOfBounds
  {
    var idx := TermIndices(coefficients, RegressorCount(coefficients));
    NamesCoverIff(coefficients, RegressorCount(coefficients), names);
    if |coefficients| == 0 || !NamesCover(idx, names) then Failure(IndexOutOfBounds)
    else Success(LinRegText(coefficients, names, toText))
  }

  /** The summands, then the intercept. */
  function LinRegParts(coefficients: seq<real>, names: seq<string>, toText: real -> string): (r: seq<string>)
    requires |coefficients| > 0
    requires NamesCover(TermIndices(coefficients, RegressorCount(coefficients)), names)
    ensures |r| == |TermIndices(coefficients, RegressorCount(coefficients))| + 1
  {
    var idx := TermIndices(coefficients, RegressorCount(coefficients));
    TermTexts(coefficients, names, idx, toText) + [toText(RoundTo(coefficients[|coefficients| - 1], CoefficientPlaces))]
  }

  /** The text of a regression whose kept attributes all exist. */
  function LinRegText(coefficients: seq<real>, names: seq<string>, toText: real -> string): string
    requires |coefficients| > 0
    requires NamesCover(TermIndices(coefficients, RegressorCount(coefficients)), names)
  {
    var idx := TermIndices(coefficients, RegressorCount(coefficients));
    Join(LinRegParts(coefficients, names, toText), PlusParenthesis) + Repeat(')', |idx|)
  }

  lemma NamesCoverIff(coefficients: seq<real>, n: nat, names: seq<string>)
    requires n <= |coefficients|
    ensures NamesCover(TermIndices(coefficients, n), names) <==>
      forall k :: 0 <= k < n && RoundTo(coefficients[k], CoefficientPlaces) != 0.0 ==> k < |names|
  {
    TermIndicesMeaning(coefficients, n);
    var idx := TermIndices(coefficients, n);
    if NamesCover(idx, names) {
      forall k | 0 <= k < n && RoundTo(coefficients[k], CoefficientPlaces) != 0.0 ensures k < |names| {
        assert k in idx;
      }
    } else {
      var i :| 0 <= i < |idx| && idx[i] >= |names|;
      assert idx[i] in idx;
    }
  }

  /** The first loop of `getStoExLinReg`: the summand of every attribute
      whose coefficient does not round to zero, failing on the first such
      attribute the data set does not have. */
  method CollectTerms(coefficients: seq<real>, names: seq<string>, toText: real -> string)
      returns (r: Result<seq<string>>)
    ensures var idx := TermIndices(coefficients, RegressorCount(coefficients));
      && (r.Success? <==> NamesCover(idx, names))
      && (r.Failure? ==> r.error == IndexOutOfBounds)
      && (r.Success? ==> r.value == TermTexts(coefficients, names, idx, toText))
  {
    var parts: seq<string> := [];
    var i := 0;
    while i < |coefficients| - 2
      invariant 0 <= i <= RegressorCount(coefficients)
      invariant NamesCover(TermIndices(coefficients, i), names)
      invariant parts == TermTexts(coefficients, names, TermIndices(coefficients, i), toText)
    {
      var coefficient := RoundTo(coefficients[i], CoefficientPlaces);
      if coefficient != 0.0 {
        if i >= |names| {
          UncoveredIndex(coefficients, RegressorCount(coefficients), names, i);
          return Failure(IndexOutOfBounds);
        }
        CollectTermsKeep(coefficients, names, i, toText);
        assert TermText(coefficients, names, i, toText) == toText(coefficient) + " * " + names[i];
        parts := parts + [toText(coefficient) + " * " + names[i]];
      } else {
        TermIndicesStep(coefficients, i);
      }
      i := i + 1;
    }
    assert i == RegressorCount(coefficients);
    r := Success(parts);
  }

  /** The last loop of `getStoExLinReg`: one closing parenthesis per summand. */
  method CloseBraces(text: string, braces: nat) returns (r: string)
    ensures r == text + Repeat(')', braces)
  {
    r := text;
    var i := 0;
    while i < braces
      invariant 0 <= i <= braces
      invariant r == text + Repeat(')', i)
    {
      r := r + ")";
      i := i + 1;
    }
  }

  /** `getStoExLinReg`: the classifier's coefficient array and the data
      set's attribute names are passed in; `toText` is Double.toString. */
  method GetStoExLinReg(coefficients: seq<real>, names: seq<string>, toText: real -> string) returns (r: Result<string>)
    ensures r == LinRegExpression(coefficients, names, toText)
  {
    var terms := CollectTerms(coefficients, names, toText);
    if terms.Failure? {
      return Failure(terms.error);
    }
    if |coefficients| == 0 {
      return Failure(IndexOutOfBounds);
    }
    var intercept := toText(RoundTo(coefficients[|coefficients| - 1], CoefficientPlaces));
    var text := CloseBraces(Join(terms.value + [intercept], PlusParenthesis), |terms.value|);
    assert terms.value + [intercept] == LinRegParts(coefficients, names, toText);
    r := Success(text);
  }

  /** The parentheses of the regression expression are balanced: each
      summand opens one and one is closed for it at the end, provided the
      number texts and attribute names contain none. */
  lemma LinRegBalanced(coefficients: seq<real>, names: seq<string>, toText: real -> string)
    requires forall x :: '(' !in toText(x) && ')' !in toText(x)
    requires forall k :: 0 <= k < |names| ==> '(' !in names[k] && ')' !in names[k]
    requires LinRegExpression(coefficients, names, toText).Success?
    ensures var e := LinRegExpression(coefficients, names, toText).value;
      Count(e, '(') == Count(e, ')') == |TermIndices(coefficients, RegressorCount(coefficients))|
  {
    var idx := TermIndices(coefficients, RegressorCount(coefficients));
    var parts := LinRegParts(coefficients, names, toText);
    forall i | 0 <= i < |parts| ensures '(' !in parts[i] && ')' !in parts[i] {
      if i < |idx| {
        var t := toText(RoundTo(coefficients[idx[i]], CoefficientPlaces));
        assert parts[i] == t + " * " + names[idx[i]];
      }
    }
    JoinThenCloseBalanced(parts, |idx|);
  }

  /** The separator ` + (` opens one parenthesis and closes none. */
  lemma PlusParenthesisCounts()
    ensures Count(PlusParenthesis, '(') == 1 && Count(PlusParenthesis, ')') == 0
  {
    assert PlusParenthesis == [' '] + "+ (";
    assert "+ (" == ['+'] + " (";
    assert " (" == [' '] + "(";
  }

  /** Summands without parentheses joined by ` + (`, then one `)` per
      separator: as many opening as closing parentheses. */
  lemma JoinThenCloseBalanced(parts: seq<string>, n: nat)
    requires |parts| == n + 1
    requires forall i :: 0 <= i < |parts| ==> '(' !in parts[i] && ')' !in parts[i]
    ensures Count(Join(parts, PlusParenthesis) + Repeat(')', n), '(') == n
    ensures Count(Join(parts, PlusParenthesis) + Repeat(')', n), ')') == n
  {
    var joined := Join(parts, PlusParenthesis);
    var closing := Repeat(')', n);
    PlusParenthesisCounts();
    NoCharNoCounts(parts, '(');
    NoCharNoCounts(parts, ')');
    CountJoin(parts, PlusParenthesis, '(');
    CountJoin(parts, PlusParenthesis, ')');
    assert Count(joined, '(') == n * 1;
    assert Count(joined, ')') == 0;
    CountRepeat(')', '(', n);
    CountRepeat(')', ')', n);
    CountConcat(joined, closing, '(');
    CountConcat(joined, closing, ')');
  }

  lemma {:induction false} NoCharNoCounts(parts: seq<string>, c: char)
    requires forall i :: 0 <= i < |parts| ==> c !in parts[i]
    ensures SumCounts(parts, c) == 0
  {
    if parts != [] {
      NoCharNoCounts(parts[1..], c);
    }
  }

  /** When every attribute coefficient rounds to zero the expression is
      the rounded intercept alone. */
  lemma LinRegInterceptOnly(coefficients: seq<real>, names: seq<string>, toText: real -> string)
    requires |coefficients| > 0
    requires forall k :: 0 <= k < RegressorCount(coefficients) ==> RoundTo(coefficients[k], CoefficientPlaces) == 0.0
    ensures LinRegExpression(coefficients, names, toText) ==
      Success(toText(RoundTo(coefficients[|coefficients| - 1], CoefficientPlaces)))
  {
    var idx := TermIndices(coefficients, RegressorCount(coefficients));
    NoTermIndices(coefficients, RegressorCount(coefficients));
    var intercept := toText(RoundTo(coefficients[|coefficients| - 1], CoefficientPlaces));
    assert LinRegParts(coefficients, names, toText) == [intercept];
    assert idx == [] && NamesCover(idx, names);
    assert Join([intercept], PlusParenthesis) == intercept;
    assert LinRegText(coefficients, names, toText) == intercept + Repeat(')', 0);
    assert Repeat(')', 0) == [];
    assert LinRegText(coefficients, names, toText) == intercept;
    assert LinRegExpression(coefficients, names, toText) == Success(LinRegText(coefficients, names, toText));
  }

  lemma {:induction false} NoTermIndices(coefficients: seq<real>, n: nat)
    requires n <= |coefficients|
    requires forall k :: 0 <= k < n ==> RoundTo(coefficients[k], CoefficientPlaces) == 0.0
    ensures TermIndices(coefficients, n) == []
  {
    if n > 0 {
      NoTermIndices(coefficients, n - 1);
    }
  }

  lemma {:induction false} TermIndicesPrefix(c1: seq<real>, c2: seq<real>, n: nat)
    requires n <= |c1| && n <= |c2| && c1[..n] == c2[..n]
    ensures TermIndices(c1, n) == TermIndices(c2, n)
  {
    if n > 0 {
      assert c1[..n - 1] == c2[..n - 1] by {
        assert c1[..n - 1] == c1[..n][..n - 1];
        assert c2[..n - 1] == c2[..n][..n - 1];
      }
      assert c1[n - 1] == c1[..n][n - 1] == c2[..n][n - 1] == c2[n - 1];
      TermIndicesPrefix(c1, c2, n - 1);
    }
  }

  /** The coefficient in the class attribute's slot never shows in the
      expression. */
  lemma LinRegIgnoresClassCoefficient(coefficients: seq<real>, names: seq<string>, toText: real -> string, x: real)
    requires |coefficients| >= 2
    ensures LinRegExpression(coefficients[|coefficients| - 2 := x], names, toText) ==
      LinRegExpression(coefficients, names, toText)
  {
    var other := coefficients[|coefficients| - 2 := x];
    var n := RegressorCount(coefficients);
    assert other[..n] == coefficients[..n];
    TermIndicesPrefix(other, coefficients, n);
    if NamesCover(TermIndices(coefficients, n), names) {
      LinRegTextAgree(other, coefficients, names, toText);
    }
  }

  /** Two coefficient lists of the same length that keep the same
      attributes with the same coefficients, and have the same intercept,
      give the same text. */
  lemma LinRegTextAgree(c1: seq<real>, c2: seq<real>, names: seq<string>, toText: real -> string)
    requires |c1| == |c2| >= 2
    requires TermIndices(c1, |c1| - 2) == TermIndices(c2, |c2| - 2)
    requires NamesCover(TermIndices(c2, |c2| - 2), names)
    requires forall i :: 0 <= i < |c1| - 2 ==> c1[i] == c2[i]
    requires c1[|c1| - 1] == c2[|c2| - 1]
    ensures LinRegText(c1, names, toText) == LinRegText(c2, names, toText)
  {
    var idx := TermIndices(c2, |c2| - 2);
    TermTextsAgree(c1, c2, names, idx, toText);
    assert LinRegParts(c1, names, toText) == LinRegParts(c2, names, toText);
  }

  lemma TermTextsAgree(c1: seq<real>, c2: seq<real>, names: seq<string>, idx: seq<nat>, toText: real -> string)
    requires forall i :: 0 <= i < |idx| ==> idx[i] < |c1| && idx[i] < |c2| && c1[idx[i]] == c2[idx[i]]
    requires NamesCover(idx, names)
    ensures TermTexts(c1, names, idx, toText) == TermTexts(c2, names, idx, toText)
  {
    var t1 := TermTexts(c1, names, idx, toText);
    var t2 := TermTexts(c2, names, idx, toText);
    forall i | 0 <= i < |idx| ensures t1[i] == t2[i] {
      assert TermText(c1, names, idx[i], toText) == TermText(c2, names, idx[i], toText);
    }
  }

  // ---------------------------------------------------------------------
  // countPipes and cleanStoEx
  // ---------------------------------------------------------------------

  const Pipe: char := '|'

  /** `countPipes`: the number of `|` characters. */
  function CountPipes(str: string): (n: nat)
    ensures n <= |str|
    ensures n == 0 <==> Pipe !in str
  {
    Count(str, Pipe)
  }

  /** The regular expression `(?<!!)=` replaced by `==`: every `=` that does
      not follow a `!` of the input is doubled. `afterBang` tells whether the
      character before `s` is a `!`. */
  function DoubleEqualsAfter(s: string, afterBang: bool): (r: string)
    ensures |r| >= |s|
  {
    if s == [] then []
    else (if s[0] == '=' && !afterBang then "==" else [s[0]]) + DoubleEqualsAfter(s[1..], s[0] == '!')
  }

  function DoubleEquals(s: string): string {
    DoubleEqualsAfter(s, false)
  }

  /** Inverse of the doubling: a `==` that doubling produced collapses back
      to `=`. */
  function UndoubleEqualsAfter(r: string, afterBang: bool): string {
    if r == [] then []
    else if r[0] == '=' && !afterBang && |r| >= 2 then "=" + UndoubleEqualsAfter(r[2..], false)
    else [r[0]] + UndoubleEqualsAfter(r[1..], r[0] == '!')
  }

  /** Doubling loses nothing: undoing it gives the input back. */
  lemma {:induction false} DoubleEqualsRoundTrip(s: string, afterBang: bool)
    ensures UndoubleEqualsAfter(DoubleEqualsAfter(s, afterBang), afterBang) == s
  {
    if s != [] {
      var rest := DoubleEqualsAfter(s[1..], s[0] == '!');
      DoubleEqualsRoundTrip(s[1..], s[0] == '!');
      if s[0] == '=' && !afterBang {
        assert DoubleEqualsAfter(s, afterBang) == "==" + rest;
        assert ("==" + rest)[2..] == rest;
      } else {
        assert DoubleEqualsAfter(s, afterBang) == [s[0]] + rest;
        assert ([s[0]] + rest)[1..] == rest;
      }
    }
  }

  /** Only `=` characters are added. */
  lemma {:induction false} DoubleEqualsCounts(s: string, afterBang: bool, c: char)
    requires c != '='
    ensures Count(DoubleEqualsAfter(s, afterBang), c) == Count(s, c)
  {
    if s != [] {
      var head := if s[0] == '=' && !afterBang then "==" else [s[0]];
      var rest := DoubleEqualsAfter(s[1..], s[0] == '!');
      assert DoubleEqualsAfter(s, afterBang) == head + rest;
      DoubleEqualsCounts(s[1..], s[0] == '!', c);
      CountConcat(head, rest, c);
      assert Count(head, c) == Count([s[0]], c);
      assert s == [s[0]] + s[1..];
      CountConcat([s[0]], s[1..], c);
    }
  }

  /** `<=` turns into `<==`, while `!=` is kept. */
  lemma DoubleEqualsExamples()
    ensures DoubleEquals("a<=b") == "a<==b"
    ensures DoubleEquals("a!=b") == "a!=b"
    ensures DoubleEquals("a=b") == "a==b"
  {
  }

  /** End of the run of digits that starts at `i`. */
  function DigitRunEnd(s: string, i: nat): (j: nat)
    requires i <= |s|
    ensures i <= j <= |s|
    ensures forall k :: i <= k < j ==> IsDigit(s[k])
    ensures j == |s| || !IsDigit(s[j])
    decreases |s| - i
  {
    if i == |s| || !IsDigit(s[i]) then i else DigitRunEnd(s, i + 1)
  }

  /** Length of the match of `[(]\d+\.\d+[)]` at the start of `s`, or 0.
      Backtracking cannot help the greedy digit runs: a shorter run is
      followed by a digit, not by `.` or `)`. */
  function DecimalGroupLength(s: string): (n: nat)
    ensures n == 0 || 5 <= n <= |s|
  {
    if s != [] && s[0] == '(' then
      var a := DigitRunEnd(s, 1);
      if a > 1 && a < |s| && s[a] == '.' then
        var b := DigitRunEnd(s, a + 1);
        if b > a + 1 && b < |s| && s[b] == ')' then b + 1 else 0
      else 0
    else 0
  }

  /** The regular expression `[(]\d+\.\d+[)]` replaced by nothing, left
      to right. */
  function RemoveDecimalGroups(s: string): (r: string)
    ensures |r| <= |s|
    decreases |s|
  {
    if s == [] then []
    else
      var n := DecimalGroupLength(s);
      if n > 0 then RemoveDecimalGroups(s[n..]) else [s[0]] + RemoveDecimalGroups(s[1..])
  }

  lemma NoCharInDigits(s: string, i: nat, j: nat, c: char)
    requires i <= j <= |s|
    requires forall k :: i <= k < j ==> IsDigit(s[k])
    requires !IsDigit(c)
    ensures Count(s[i..j], c) == 0
  {
    assert c !in s[i..j] by {
      forall k | 0 <= k < j - i ensures s[i..j][k] != c {
        assert IsDigit(s[i + k]);
      }
    }
  }

  /** A removed group holds one `(`, one `)`, and otherwise digits and a dot. */
  lemma DecimalGroupCounts(s: string, c: char)
    requires DecimalGroupLength(s) > 0
    requires !IsDigit(c) && c != '.'
    ensures Count(s[..DecimalGroupLength(s)], c) == if c == '(' || c == ')' then 1 else 0
  {
    var n := DecimalGroupLength(s);
    var a := DigitRunEnd(s, 1);
    var b := DigitRunEnd(s, a + 1);
    assert s[..n] == [s[0]] + s[1..a] + [s[a]] + s[a + 1..b] + [s[b]];
    NoCharInDigits(s, 1, a, c);
    NoCharInDigits(s, a + 1, b, c);
    CountConcat([s[0]], s[1..a], c);
    CountConcat([s[0]] + s[1..a], [s[a]], c);
    CountConcat([s[0]] + s[1..a] + [s[a]], s[a + 1..b], c);
    CountConcat([s[0]] + s[1..a] + [s[a]] + s[a + 1..b], [s[b]], c);
  }

  /** Removing the groups removes as many `(` as `)` and no other character
      than digits and dots. */
  lemma RemoveDecimalGroupsCounts(s: string, c: char)
    requires !IsDigit(c) && c != '.'
    ensures c != '(' && c != ')' ==> Count(RemoveDecimalGroups(s), c) == Count(s, c)
    ensures Count(s, '(') - Count(RemoveDecimalGroups(s), '(') == Count(s, ')') - Count(RemoveDecimalGroups(s), ')')
  {
    if c != '(' && c != ')' {
      RemoveDecimalGroupsKeepsOthers(s, c);
    }
    RemoveDecimalGroupsBalanced(s);
  }

  lemma {:induction false} RemoveDecimalGroupsKeepsOthers(s: string, c: char)
    requires !IsDigit(c) && c != '.' && c != '(' && c != ')'
    ensures Count(RemoveDecimalGroups(s), c) == Count(s, c)
    decreases |s|
  {
    if s != [] {
      var n := DecimalGroupLength(s);
      if n > 0 {
        assert s == s[..n] + s[n..];
        CountConcat(s[..n], s[n..], c);
        DecimalGroupCounts(s, c);
        RemoveDecimalGroupsKeepsOthers(s[n..], c);
      } else {
        assert s == [s[0]] + s[1..];
        CountConcat([s[0]], s[1..], c);
        CountConcat([s[0]], RemoveDecimalGroups(s[1..]), c);
        RemoveDecimalGroupsKeepsOthers(s[1..], c);
      }
    }
  }

  lemma {:induction false} RemoveDecimalGroupsBalanced(s: string)
    ensures Count(s, '(') - Count(RemoveDecimalGroups(s), '(') == Count(s, ')') - Count(RemoveDecimalGroups(s), ')')
    decreases |s|
  {
    if s != [] {
      var n := DecimalGroupLength(s);
      if n > 0 {
        GroupRemovedStep(s);
        RemoveDecimalGroupsBalanced(s[n..]);
      } else {
        CharKeptStep(s, '(');
        CharKeptStep(s, ')');
        RemoveDecimalGroupsBalanced(s[1..]);
      }
    }
  }

  /** A leading group takes one `(` and one `)` with it. */
  lemma GroupRemovedStep(s: string)
    requires DecimalGroupLength(s) > 0
    ensures var n := DecimalGroupLength(s);
      && RemoveDecimalGroups(s) == RemoveDecimalGroups(s[n..])
      && Count(s, '(') == 1 + Count(s[n..], '(')
      && Count(s, ')') == 1 + Count(s[n..], ')')
  {
    var n := DecimalGroupLength(s);
    assert s == s[..n] + s[n..];
    CountConcat(s[..n], s[n..], '(');
    CountConcat(s[..n], s[n..], ')');
    DecimalGroupCounts(s, '(');
    DecimalGroupCounts(s, ')');
  }

  /** A leading character outside a group is kept, so it counts on both sides. */
  lemma CharKeptStep(s: string, c: char)
    requires s != [] && DecimalGroupLength(s) == 0
    ensures Count(s, c) - Count(RemoveDecimalGroups(s), c) ==
      Count(s[1..], c) - Count(RemoveDecimalGroups(s[1..]), c)
  {
    var rest := RemoveDecimalGroups(s[1..]);
    assert RemoveDecimalGroups(s) == [s[0]] + rest;
    assert s == [s[0]] + s[1..];
    CountConcat([s[0]], s[1..], c);
    CountConcat([s[0]], rest, c);
  }

  /** Text without an opening parenthesis holds no group. */
  lemma {:induction false} RemoveDecimalGroupsWithoutParen(s: string)
    requires '(' !in s
    ensures RemoveDecimalGroups(s) == s
    decreases |s|
  {
    if s != [] {
      assert s[0] != '(';
      RemoveDecimalGroupsWithoutParen(s[1..]);
    }
  }

  /** A group such as `(3.0)` goes, while a ratio such as `(4.0/8.0)` stays,
      since the pattern allows a single number between the parentheses. */
  lemma RemoveDecimalGroupsExamples()
    ensures RemoveDecimalGroups("(3.0)") == ""
    ensures RemoveDecimalGroups("(4.0/8.0)") == "(4.0/8.0)"
  {
    var single := "(3.0)";
    assert DigitRunEnd(single, 1) == 2;
    assert DigitRunEnd(single, 3) == 4;
    assert DecimalGroupLength(single) == 5;
    assert single[5..] == [];
    var ratio := "(4.0/8.0)";
    assert DigitRunEnd(ratio, 1) == 2;
    assert DigitRunEnd(ratio, 3) == 4;
    assert DecimalGroupLength(ratio) == 0;
    RemoveDecimalGroupsWithoutParen(ratio[1..]);
    assert ratio == [ratio[0]] + ratio[1..];
  }

  /** `cleanStoEx` as written. Its first step hands `"|"` to `replaceAll`,
      which reads it as a regular expression: an alternation of two empty
      branches, matching only the empty string, so replacing every match by
      `""` leaves the text as it is and every pipe stays. Then `=` is
      doubled outside `!=`, and decimal groups in parentheses are removed. */
  function CleanStoEx(stoEx: string): (r: string)
    ensures Count(r, Pipe) == Count(stoEx, Pipe)
  {
    var afterPipeStep := stoEx;
    var doubled := DoubleEquals(afterPipeStep);
    DoubleEqualsCounts(afterPipeStep, false, Pipe);
    RemoveDecimalGroupsCounts(doubled, Pipe);
    RemoveDecimalGroups(doubled)
  }

  /** Cleaning keeps the surplus of opening over closing parentheses. */
  lemma CleanStoExKeepsParenSurplus(stoEx: string)
    ensures Count(CleanStoEx(stoEx), '(') - Count(CleanStoEx(stoEx), ')') == Count(stoEx, '(') - Count(stoEx, ')')
  {
    var doubled := DoubleEquals(stoEx);
    DoubleEqualsCounts(stoEx, false, '(');
    DoubleEqualsCounts(stoEx, false, ')');
    RemoveDecimalGroupsCounts(doubled, '(');
  }

  /** The pipe step removes nothing: `|a` comes back as it is. */
  lemma CleanStoExKeepsPipe()
    ensures CleanStoEx("|a") == "|a"
  {
    var s := "|a";
    assert DoubleEqualsAfter(s[1..], false) == s[1..];
    assert DoubleEquals(s) == s;
    RemoveDecimalGroupsWithoutParen(s);
  }

  /** `cleanStoEx` as its comment describes it: every pipe removed first
      (as `replace("|", "")` would do), then the same two rewrites. */
  function CleanStoExIntended(stoEx: string): (r: string)
    ensures Pipe !in r
    ensures Count(r, '(') - Count(r, ')') == Count(stoEx, '(') - Count(stoEx, ')')
  {
    var noPipes := RemoveChar(stoEx, Pipe);
    CleanStoExKeepsParenSurplus(noPipes);
    CleanStoEx(noPipes)
  }

  // ---------------------------------------------------------------------
  // getStoExTree
  // ---------------------------------------------------------------------

  /** Number of lines of J48's dump of a tree that is a single leaf. */
  const ConstantTreeLines: nat := 6

  /** Index of the first line of the tree in J48's dump. */
  const FirstTreeLine: nat := 3

  /** A line read with a `|` in front has at least one pipe and the same colons. */
  lemma PipedLine(text: string)
    ensures CountPipes([Pipe] + text) >= 1
    ensures ':' in [Pipe] + text <==> ':' in text
  {
    assert ([Pipe] + text)[0] == Pipe;
    assert ([Pipe] + text)[1..] == text;
  }

  /** What one line of the tree appends to the expression, and the nesting
      depth (`numPipes`) after it. The line is read with a `|` in front.
      A line without `:` is a condition: at the current depth it is the
      second branch (`:`), otherwise it opens a conditional. A line with `:`
      is a leaf: at the current depth it closes the conditional with its
      value, otherwise it opens one with the leaf as first branch. A leaf
      line without text after the `:` throws. */
  function TreeLine(text: string, numPipes: nat): (r: Result<(string, nat)>)
    ensures r.Failure? ==> r.error == IndexOutOfBounds && ':' in text
    ensures r.Success? && ':' !in text ==> r.value.1 == numPipes || r.value.1 == numPipes + 1
    ensures r.Success? && ':' in text ==> r.value.1 + 1 == numPipes || r.value.1 == numPipes + 1
  {
    var line := [Pipe] + text;
    PipedLine(text);
    var deeper: nat := numPipes + 1;
    if ':' !in line then
      if CountPipes(line) == numPipes then Success((":", numPipes))
      else Success(("((" + RemoveWhitespace(line) + ")?", deeper))
    else if CountPipes(line) == numPipes then
      var lineParts := JavaSplit(line, ':');
      var shallower: nat := numPipes - 1;
      if |lineParts| < 2 then Failure(IndexOutOfBounds)
      else Success((":" + RemoveWhitespace(lineParts[1]) + ")", shallower))
    else
      var lineParts := JavaSplit(text, ':');
      if |lineParts| < 2 then Failure(IndexOutOfBounds)
      else Success(("((" + RemoveWhitespace(lineParts[0]) + ")?" + RemoveWhitespace(lineParts[1]), deeper))
  }

  /** The lines from `current` up to the first empty one, appended to
      `builder`: the final text and depth. Running out of lines before an
      empty one throws. */
  function TreeBody(lines: seq<string>, current: nat, numPipes: nat, builder: string): (r: Result<(string, nat)>)
    ensures r.Failure? ==> r.error == IndexOutOfBounds
    decreases |lines| - current
  {
    if current >= |lines| then Failure(IndexOutOfBounds)
    else if lines[current] == [] then Success((builder, numPipes))
    else match TreeLine(lines[current], numPipes)
      case Failure(e) => Failure(e)
      case Success((text, depth)) => TreeBody(lines, current + 1, depth, builder + text)
  }

  lemma TreeBodyStep(lines: seq<string>, current: nat, numPipes: nat, builder: string, appended: string, depth: nat)
    requires current < |lines| && lines[current] != []
    requires TreeLine(lines[current], numPipes) == Success((appended, depth))
    ensures TreeBody(lines, current, numPipes, builder) == TreeBody(lines, current + 1, depth, builder + appended)
  {
  }

  /** `getStoExTree` on the text of the J48 dump. */
  function TreeExpression(dump: string): (r: Result<string>)
    ensures r.Failure? ==> r.error == IndexOutOfBounds
  {
    var lines := JavaSplit(dump, '\n');
    if |lines| == ConstantTreeLines then Success(RemoveWhitespace(RemoveChar(lines[FirstTreeLine], ':')))
    else match TreeBody(lines, FirstTreeLine, 0, "")
      case Failure(e) => Failure(e)
      case Success((builder, _)) => Success(CleanStoEx(builder))
  }

  /** `getStoExTree`: walks the lines of the dump with a StringBuilder and
      the current depth; the text and depth change of one line is `TreeLine`. */
  method GetStoExTree(dump: string) returns (r: Result<string>)
    ensures r == TreeExpression(dump)
  {
    var lines := JavaSplit(dump, '\n');
    if |lines| == ConstantTreeLines {
      return Success(RemoveWhitespace(RemoveChar(lines[FirstTreeLine], ':')));
    }
    var builder := "";
    var numPipes: nat := 0;
    var currentLine := FirstTreeLine;
    while currentLine >= |lines| || lines[currentLine] != []
      invariant TreeBody(lines, currentLine, numPipes, builder) == TreeBody(lines, FirstTreeLine, 0, "")
      decreases |lines| - currentLine
    {
      if currentLine >= |lines| {
        return Failure(IndexOutOfBounds);
      }
      var step := TreeLine(lines[currentLine], numPipes);
      if step.Failure? {
        return Failure(step.error);
      }
      var (appended, depth) := step.value;
      TreeBodyStep(lines, currentLine, numPipes, builder, appended, depth);
      builder, numPipes := builder + appended, depth;
      currentLine := currentLine + 1;
    }
    r := Success(CleanStoEx(builder));
  }

  /** A six-line dump gives line 3 without colons and whitespace. */
  /** The characters of `s` that are neither `:` nor whitespace, in their
      order: a one-pass reference for the two removals of the six-line case. */
  function TreeChars(s: string): string {
    if s == [] then ""
    else (if s[0] != ':' && !IsWhitespace(s[0]) then [s[0]] else "") + TreeChars(s[1..])
  }

  /** Removing `:` and then whitespace keeps exactly the other characters,
      in their order. */
  lemma {:induction false} StripIsTreeChars(s: string)
    ensures RemoveWhitespace(RemoveChar(s, ':')) == TreeChars(s)
  {
    if s != [] {
      StripIsTreeChars(s[1..]);
      if s[0] == ':' {
        assert RemoveChar(s, ':') == RemoveChar(s[1..], ':');
      } else {
        assert RemoveChar(s, ':') == [s[0]] + RemoveChar(s[1..], ':');
        assert ([s[0]] + RemoveChar(s[1..], ':'))[1..] == RemoveChar(s[1..], ':');
      }
    }
  }

  lemma TreeConstant(dump: string)
    requires |JavaSplit(dump, '\n')| == ConstantTreeLines
    ensures TreeExpression(dump).Success?
    ensures var line, e := JavaSplit(dump, '\n')[FirstTreeLine], TreeExpression(dump).value;
      e == TreeChars(line) &&
      ':' !in e && (forall i :: 0 <= i < |e| ==> !IsWhitespace(e[i])) &&
      forall d :: d != ':' && !IsWhitespace(d) ==> Count(e, d) == Count(line, d)
  {
    StripIsTreeChars(JavaSplit(dump, '\n')[FirstTreeLine]);
  }

  /** Outside the six-line case the cleaning keeps every `|` the walk
      wrote: a nested conditional keeps its leading pipes. */
  lemma TreeKeepsPipes(dump: string)
    requires |JavaSplit(dump, '\n')| != ConstantTreeLines
    requires TreeExpression(dump).Success?
    ensures var walk := TreeBody(JavaSplit(dump, '\n'), FirstTreeLine, 0, "");
      walk.Success? && Count(TreeExpression(dump).value, Pipe) == Count(walk.value.0, Pipe)
  {
  }

  /** `getStoExTree` with the cleaning its comment describes. */
  function TreeExpressionIntended(dump: string): (r: Result<string>)
    ensures r.Success? <==> TreeExpression(dump).Success?
  {
    var lines := JavaSplit(dump, '\n');
    if |lines| == ConstantTreeLines then TreeExpression(dump)
    else match TreeBody(lines, FirstTreeLine, 0, "")
      case Failure(e) => Failure(e)
      case Success((builder, _)) => Success(CleanStoExIntended(builder))
  }

  /** With the intended cleaning, the expression of a larger tree holds no `|`,
      and its surplus of `(` is the one the walk wrote. */
  lemma TreeIntendedHasNoPipes(dump: string)
    requires |JavaSplit(dump, '\n')| != ConstantTreeLines
    requires TreeExpressionIntended(dump).Success?
    ensures var walk := TreeBody(JavaSplit(dump, '\n'), FirstTreeLine, 0, "");
      && walk.Success?
      && Pipe !in TreeExpressionIntended(dump).value
      && Surplus(TreeExpressionIntended(dump).value) == Surplus(walk.value.0)
  {
  }

  /** Lines after the first empty line are never looked at. */
  lemma {:induction false} TreeBodyStopsAtEmptyLine(lines1: seq<string>, lines2: seq<string>, current: nat, numPipes: nat, builder: string, stop: nat)
    requires current <= stop < |lines1| && stop < |lines2|
    requires lines1[..stop + 1] == lines2[..stop + 1]
    requires lines1[stop] == []
    ensures TreeBody(lines1, current, numPipes, builder) == TreeBody(lines2, current, numPipes, builder)
    decreases stop - current
  {
    assert lines1[current] == lines1[..stop + 1][current] == lines2[..stop + 1][current] == lines2[current];
    var step := TreeLine(lines1[current], numPipes);
    if lines1[current] != [] && step.Success? {
      var (text, depth) := step.value;
      assert current < stop;
      TreeBodyStep(lines1, current, numPipes, builder, text, depth);
      TreeBodyStep(lines2, current, numPipes, builder, text, depth);
      TreeBodyStopsAtEmptyLine(lines1, lines2, current + 1, depth, builder + text, stop);
    }
  }

  /** Opening minus closing parentheses. */
  function Surplus(s: string): int {
    Count(s, '(') - Count(s, ')')
  }

  lemma SurplusConcat(a: string, b: string)
    ensures Surplus(a + b) == Surplus(a) + Surplus(b)
  {
    CountConcat(a, b, '(');
    CountConcat(a, b, ')');
  }

  /** Every `:`-separated piece of a line has balanced parentheses, as the
      leaf statistics such as `(3.0)` of a J48 dump do. */
  predicate PiecesBalanced(text: string) {
    forall p :: p in SplitAll(text, ':') ==> Surplus(p) == 0
  }

  lemma SplitAllPiped(t: string, c: char)
    requires c != Pipe
    ensures SplitAll([Pipe] + t, c)[1..] == SplitAll(t, c)[1..]
  {
    assert ([Pipe] + t)[1..] == t;
  }

  /** The text a line appends opens one parenthesis more than it closes
      exactly when the line deepens the nesting, and one fewer exactly when
      it closes a conditional. */
  lemma TreeLineSurplus(text: string, numPipes: nat)
    requires PiecesBalanced(text)
    requires TreeLine(text, numPipes).Success?
    ensures var (appended, depth) := TreeLine(text, numPipes).value;
      Surplus(appended) == depth - numPipes
  {
    var line := [Pipe] + text;
    PipedLine(text);
    if ':' !in line {
      if CountPipes(line) != numPipes {
        ConditionLineSurplus(text);
      }
    } else if CountPipes(line) == numPipes {
      LeafCloseSurplus(text);
    } else {
      LeafOpenSurplus(text);
    }
  }

  lemma RemoveWhitespaceSurplus(s: string)
    ensures Surplus(RemoveWhitespace(s)) == Surplus(s)
  {
    assert !IsWhitespace('(') && !IsWhitespace(')');
  }

  /** Each `:`-separated piece of a balanced line, without whitespace, is balanced. */
  lemma BalancedPiece(text: string, i: nat)
    requires PiecesBalanced(text) && i < |SplitAll(text, ':')|
    ensures Surplus(RemoveWhitespace(SplitAll(text, ':')[i])) == 0
  {
    assert SplitAll(text, ':')[i] in SplitAll(text, ':');
  }

  /** A condition line that opens a conditional. */
  lemma ConditionLineSurplus(text: string)
    requires ':' !in text && PiecesBalanced(text)
    ensures Surplus("((" + RemoveWhitespace([Pipe] + text) + ")?") == 1
  {
    SplitAllWithout(text, ':');
    assert text in SplitAll(text, ':');
    SurplusConcat([Pipe], text);
    assert Surplus([Pipe]) == 0;
    RemoveWhitespaceSurplus([Pipe] + text);
    var w := RemoveWhitespace([Pipe] + text);
    SurplusConcat("((", w);
    SurplusConcat("((" + w, ")?");
  }

  /** A leaf line that closes the conditional at the current depth. */
  lemma LeafCloseSurplus(text: string)
    requires ':' in text && PiecesBalanced(text)
    requires |JavaSplit([Pipe] + text, ':')| >= 2
    ensures Surplus(":" + RemoveWhitespace(JavaSplit([Pipe] + text, ':')[1]) + ")") == -1
  {
    var line := [Pipe] + text;
    PipedLine(text);
    var parts := JavaSplit(line, ':');
    SplitAllPiped(text, ':');
    assert parts[1] == SplitAll(line, ':')[1] == SplitAll(line, ':')[1..][0] == SplitAll(text, ':')[1];
    BalancedPiece(text, 1);
    var w := RemoveWhitespace(parts[1]);
    SurplusConcat(":", w);
    SurplusConcat(":" + w, ")");
  }

  /** A leaf line that opens a conditional with the leaf as first branch. */
  lemma LeafOpenSurplus(text: string)
    requires ':' in text && PiecesBalanced(text)
    requires |JavaSplit(text, ':')| >= 2
    ensures var parts := JavaSplit(text, ':');
      Surplus("((" + RemoveWhitespace(parts[0]) + ")?" + RemoveWhitespace(parts[1])) == 1
  {
    var parts := JavaSplit(text, ':');
    assert parts[0] == SplitAll(text, ':')[0] && parts[1] == SplitAll(text, ':')[1];
    BalancedPiece(text, 0);
    BalancedPiece(text, 1);
    var w0 := RemoveWhitespace(parts[0]);
    var w1 := RemoveWhitespace(parts[1]);
    SurplusConcat("((", w0);
    SurplusConcat("((" + w0, ")?");
    SurplusConcat("((" + w0 + ")?", w1);
  }

  lemma {:induction false} TreeBodySurplus(lines: seq<string>, current: nat, numPipes: nat, builder: string)
    requires forall k :: 0 <= k < |lines| ==> PiecesBalanced(lines[k])
    requires TreeBody(lines, current, numPipes, builder).Success?
    ensures var (text, depth) := TreeBody(lines, current, numPipes, builder).value;
      Surplus(text) - depth == Surplus(builder) - numPipes
    decreases |lines| - current
  {
    if lines[current] != [] {
      var (appended, depth) := TreeLine(lines[current], numPipes).value;
      TreeLineSurplus(lines[current], numPipes);
      SurplusConcat(builder, appended);
      TreeBodySurplus(lines, current + 1, depth, builder + appended);
    }
  }

  /** The expression of a tree opens one parenthesis more than it closes
      for every conditional still open when the walk stops: nothing closes
      the conditionals whose second branch is a subtree. */
  lemma TreeUnclosedParens(dump: string)
    requires |JavaSplit(dump, '\n')| != ConstantTreeLines
    requires forall k :: 0 <= k < |JavaSplit(dump, '\n')| ==> PiecesBalanced(JavaSplit(dump, '\n')[k])
    requires TreeExpression(dump).Success?
    ensures Surplus(TreeExpression(dump).value) == TreeBody(JavaSplit(dump, '\n'), FirstTreeLine, 0, "").value.1
  {
    var lines := JavaSplit(dump, '\n');
    TreeBodySurplus(lines, FirstTreeLine, 0, "");
    var builder := TreeBody(lines, FirstTreeLine, 0, "").value.0;
    CleanStoExKeepsParenSurplus(builder);
  }

  // ---------------------------------------------------------------------
  // replaceDoubles
  // ---------------------------------------------------------------------

  const MaxInt: int := 0x7FFF_FFFF
  const MinInt: int := -0x8000_0000

  function Min(a: nat, b: nat): nat {
    if a <= b then a else b
  }

  /** A match of `\d+\.\d+` starts at `i`: the greedy run of digits from
      `i` is followed by a dot and a digit. A shorter run cannot help, as it
      is followed by a digit. */
  predicate MatchAt(s: string, i: nat) {
    i < |s| && IsDigit(s[i]) &&
    var dot := DigitRunEnd(s, i);
    dot + 1 < |s| && s[dot] == '.' && IsDigit(s[dot + 1])
  }

  /** A match of `\d+\.\d+` in a text: where it starts, where its dot is,
      and where it ends. */
  datatype Literal = Literal(start: nat, dot: nat, end: nat)

  /** `l` is a match in `s`: digits, a dot, digits, the last run maximal. */
  predicate WellFormedLiteral(s: string, l: Literal) {
    && l.start < l.dot && l.dot + 1 < l.end <= |s|
    && s[l.dot] == '.'
    && (forall k :: l.start <= k < l.dot ==> IsDigit(s[k]))
    && (forall k :: l.dot < k < l.end ==> IsDigit(s[k]))
    && (l.end == |s| || !IsDigit(s[l.end]))
  }

  /** The match that starts at `i`. */
  function LiteralAt(s: string, i: nat): (l: Literal)
    requires MatchAt(s, i)
    ensures l.start == i && WellFormedLiteral(s, l)
  {
    var dot := DigitRunEnd(s, i);
    Literal(i, dot, DigitRunEnd(s, dot + 1))
  }

  /** `Matcher.find()` with the matcher at `from`: the leftmost match that
      starts at or after `from`. */
  function FindFrom(s: string, from: nat): (r: Option<Literal>)
    ensures r.None? ==> forall i: nat :: from <= i ==> !MatchAt(s, i)
    ensures r.Some? ==> from <= r.value.start && MatchAt(s, r.value.start) && r.value == LiteralAt(s, r.value.start)
    ensures r.Some? ==> forall i :: from <= i < r.value.start ==> !MatchAt(s, i)
    decreases |s| - from
  {
    if from >= |s| then None
    else if MatchAt(s, from) then Some(LiteralAt(s, from))
    else FindFrom(s, from + 1)
  }

  /** Every match from `from` on, as successive `find` calls return them. */
  function Literals(s: string, from: nat): (r: seq<Literal>)
    ensures forall k :: 0 <= k < |r| ==> WellFormedLiteral(s, r[k]) && from <= r[k].start
    ensures forall k :: 0 < k < |r| ==> r[k - 1].end <= r[k].start
    decreases |s| - from
  {
    match FindFrom(s, from)
    case None => []
    case Some(l) => [l] + Literals(s, l.end)
  }

  /** The text of a match splits at its dot into the digits before and after it. */
  lemma LiteralSplit(s: string, l: Literal)
    requires WellFormedLiteral(s, l)
    ensures JavaSplit(s[l.start..l.end], '.') == [s[l.start..l.dot], s[l.dot + 1..l.end]]
    ensures AllDigits(s[l.start..l.dot]) && AllDigits(s[l.dot + 1..l.end])
  {
    var a, b := s[l.start..l.dot], s[l.dot + 1..l.end];
    LiteralDigits(s, l);
    DigitsHaveNoDot(a);
    DigitsHaveNoDot(b);
    assert s[l.start..l.end] == a + ['.'] + b;
    JavaSplitAround(a, b, '.');
  }

  lemma DigitsHaveNoDot(a: string)
    requires AllDigits(a)
    ensures '.' !in a
  {
    forall i | 0 <= i < |a| ensures a[i] != '.' {
      assert IsDigit(a[i]);
    }
  }

  /** `Integer.parseInt` (and `Integer.valueOf`) of a run of digits. */
  function ParseInt(digits: string): (r: Result<int>)
    requires AllDigits(digits)
    ensures r.Success? <==> digits != [] && DigitsValue(digits) <= MaxInt
    ensures r.Success? ==> r.value == DigitsValue(digits)
    ensures r.Failure? ==> r.error == NumberFormat
  {
    if digits == [] || DigitsValue(digits) > MaxInt then Failure(NumberFormat)
    else Success(DigitsValue(digits))
  }

  /** `n + 1` in 32-bit two's-complement arithmetic. */
  function IntSucc(n: int): int
    requires MinInt <= n <= MaxInt
  {
    if n == MaxInt then MinInt else n + 1
  }

  /** A distribution over two integers with their masses. */
  datatype Pmf = Pmf(lower: int, lowerMass: real, upper: int, upperMass: real)

  /** The distribution that stands for the literal `intPart.fracPart`: the
      integer part with mass `1 - f` and its successor with mass `f`, `f`
      being the fractional digits read as an integer over `10^length`. */
  function PmfOf(intPart: string, fracPart: string): (r: Result<Pmf>)
    requires AllDigits(intPart) && AllDigits(fracPart)
    ensures r.Failure? ==> r.error == NumberFormat
  {
    var lower :- ParseInt(intPart);
    var fraction :- ParseInt(fracPart);
    var f := DecimalShift(fraction, |fracPart|);
    Success(Pmf(lower, 1.0 - f, IntSucc(lower), f))
  }

  /** `n / 10^digits`, one decimal place at a time (`DecimalShiftIsQuotient`). */
  function DecimalShift(n: int, digits: nat): real {
    if digits == 0 then n as real else DecimalShift(n, digits - 1) / 10.0
  }

  lemma {:induction false} DecimalShiftIsQuotient(n: int, digits: nat)
    ensures DecimalShift(n, digits) == n as real / Pow10(digits) as real
  {
    if digits > 0 {
      DecimalShiftIsQuotient(n, digits - 1);
      var p := Pow10(digits - 1) as real;
      assert Pow10(digits) as real == p * 10.0;
      assert (n as real / p) / 10.0 == n as real / (p * 10.0);
    }
  }

  /** The decimal number that the literal `intPart.fracPart` denotes. */
  function LiteralValue(intPart: string, fracPart: string): real
    requires AllDigits(intPart) && AllDigits(fracPart)
  {
    DigitsValue(intPart) as real + DigitsValue(fracPart) as real / Pow10(|fracPart|) as real
  }

  lemma {:induction false} DigitsValueBelowPow10(s: string)
    requires AllDigits(s)
    ensures DigitsValue(s) < Pow10(|s|)
  {
    if s != [] {
      var init := s[..|s| - 1];
      assert AllDigits(init) by {
        forall i | 0 <= i < |init| ensures IsDigit(init[i]) {
          assert init[i] == s[i];
        }
      }
      DigitsValueBelowPow10(init);
      assert IsDigit(s[|s| - 1]);
    }
  }

  /** The masses sum to 1 and the fraction mass is below 1; the upper value
      is the lower one plus 1, except at 2^31 - 1, where the increment
      wraps around to -2^31; and the distribution's mean over the lower
      value and its mathematical successor is the literal's value. Digit
      runs above 2^31 - 1 throw. */
  lemma PmfOfMeaning(intPart: string, fracPart: string)
    requires AllDigits(intPart) && AllDigits(fracPart) && intPart != [] && fracPart != []
    ensures PmfOf(intPart, fracPart).Failure? <==> DigitsValue(intPart) > MaxInt || DigitsValue(fracPart) > MaxInt
    ensures PmfOf(intPart, fracPart).Success? ==>
      var p := PmfOf(intPart, fracPart).value;
      && p.lower == DigitsValue(intPart)
      && p.lowerMass + p.upperMass == 1.0
      && 0.0 <= p.upperMass < 1.0
      && (p.lower < MaxInt ==> p.upper == p.lower + 1)
      && (p.lower == MaxInt ==> p.upper == MinInt)
      && MeanOverSuccessor(p) == LiteralValue(intPart, fracPart)
  {
    if PmfOf(intPart, fracPart).Success? {
      var p := PmfOf(intPart, fracPart).value;
      var scale := Pow10(|fracPart|) as real;
      var f := DigitsValue(fracPart) as real / scale;
      DecimalShiftIsQuotient(DigitsValue(fracPart), |fracPart|);
      assert p == Pmf(DigitsValue(intPart), 1.0 - f, IntSucc(DigitsValue(intPart)), f);
      DigitsValueBelowPow10(fracPart);
      DivideBelowOne(DigitsValue(fracPart) as real, scale);
      TwoPointMean(p, f);
      assert LiteralValue(intPart, fracPart) == p.lower as real + f;
    }
  }

  /** The mean of a distribution with the masses of `p` on its lower value
      and on that value plus 1. */
  function MeanOverSuccessor(p: Pmf): real {
    p.lower as real * p.lowerMass + (p.lower + 1) as real * p.upperMass
  }

  lemma TwoPointMean(p: Pmf, f: real)
    requires p.lowerMass == 1.0 - f && p.upperMass == f
    ensures MeanOverSuccessor(p) == p.lower as real + f
  {
    var n := p.lower as real;
    assert (p.lower + 1) as real == n + 1.0;
    assert n * (1.0 - f) + (n + 1.0) * f == n + f;
  }

  lemma DivideBelowOne(x: real, y: real)
    requires 0.0 <= x < y
    ensures 0.0 <= x / y < 1.0
  {
  }

  /** `Integer.toString` of the two values and the formatted masses, as
      `IntPMF[(lower;mass)(upper;mass)]`. `fmt` is `DecimalFormat("0.00")`. */
  function PmfText(p: Pmf, fmt: real -> string): string {
    "IntPMF[(" + IntToString(p.lower) + ";" + fmt(p.lowerMass) + ")(" + IntToString(p.upper) + ";" + fmt(p.upperMass) + ")]"
  }

  /** Both digit runs of a match are digits. */
  lemma LiteralDigits(s: string, l: Literal)
    requires WellFormedLiteral(s, l)
    ensures AllDigits(s[l.start..l.dot]) && AllDigits(s[l.dot + 1..l.end])
  {
    var a, b := s[l.start..l.dot], s[l.dot + 1..l.end];
    forall i | 0 <= i < |a| ensures IsDigit(a[i]) {
      assert a[i] == s[l.start + i];
    }
    forall i | 0 <= i < |b| ensures IsDigit(b[i]) {
      assert b[i] == s[l.dot + 1 + i];
    }
  }

  /** The replacement text for a match: the two parts its text splits into
      at the dot (the digit runs before and after it, `LiteralSplit`) give
      the distribution. */
  function LiteralPmf(s: string, l: Literal, fmt: real -> string): (r: Result<string>)
    requires WellFormedLiteral(s, l)
    ensures r.Failure? ==> r.error == NumberFormat
    ensures r.Success? && WritesNoPlus(fmt) ==> '+' !in r.value
  {
    LiteralDigits(s, l);
    PmfTextOf(s[l.start..l.dot], s[l.dot + 1..l.end], fmt)
  }

  /** The text of the distribution of the literal `intPart.fracPart`. */
  function PmfTextOf(intPart: string, fracPart: string, fmt: real -> string): (r: Result<string>)
    requires AllDigits(intPart) && AllDigits(fracPart)
    ensures r.Failure? ==> r.error == NumberFormat
    ensures r.Success? && WritesNoPlus(fmt) ==> '+' !in r.value
  {
    var p :- PmfOf(intPart, fracPart);
    PmfTextHasNoPlus(p, fmt);
    Success(PmfText(p, fmt))
  }

  /** What the loop of `replaceDoubles` adds for `pieces`, the matcher being
      at `from`: each piece for which `find` succeeds, with the first match
      of that literal's text (read as a pattern) replaced by its
      distribution. Once `find` fails it fails for every later piece, so
      nothing more is added. */
  function ReplacedPieces(s: string, pieces: seq<string>, from: nat, fmt: real -> string): (r: Result<seq<string>>)
    ensures r.Failure? ==> r.error == NumberFormat
    decreases |pieces|
  {
    if pieces == [] then Success([])
    else match FindFrom(s, from)
      case None => Success([])
      case Some(l) =>
        var text :- LiteralPmf(s, l, fmt);
        var rest :- ReplacedPieces(s, pieces[1..], l.end, fmt);
        Success([ReplaceFirstPattern(pieces[0], s[l.start..l.end], text)] + rest)
  }

  /** `replaceDoubles`: the pieces of the expression between `+` signs,
      treated as above and joined with `+`. */
  function ReplaceDoublesSpec(stoEx: string, fmt: real -> string): (r: Result<string>)
    ensures r.Failure? ==> r.error == NumberFormat
  {
    var added :- ReplacedPieces(stoEx, JavaSplit(stoEx, '+'), 0, fmt);
    Success(Join(added, "+"))
  }

  /** The pieces `front` added before those of `r`, unless `r` threw. */
  function Prepend(front: seq<string>, r: Result<seq<string>>): (p: Result<seq<string>>)
    ensures r.Failure? ==> p == r
    ensures r.Success? ==> p.Success? && |p.value| == |front| + |r.value| && p.value[..|front|] == front && p.value[|front|..] == r.value
  {
    if r.Failure? then r else Success(front + r.value)
  }

  /** One turn of the loop of `replaceDoubles` in which `find` fails: the
      piece adds nothing. */
  lemma ReplacedPiecesSkip(s: string, pieces: seq<string>, k: nat, from: nat, fmt: real -> string)
    requires k < |pieces| && FindFrom(s, from).None?
    ensures ReplacedPieces(s, pieces[k..], from, fmt) == ReplacedPieces(s, pieces[k + 1..], from, fmt)
  {
    assert pieces[k..] != [];
  }

  /** One turn of the loop of `replaceDoubles` in which `find` succeeds but
      the literal cannot be read: the whole call throws. */
  lemma ReplacedPiecesThrow(s: string, pieces: seq<string>, k: nat, from: nat, l: Literal, text: Result<string>, fmt: real -> string)
    requires k < |pieces| && FindFrom(s, from) == Some(l)
    requires text == LiteralPmf(s, l, fmt) && text.Failure?
    ensures ReplacedPieces(s, pieces[k..], from, fmt) == Failure(text.error)
  {
    assert pieces[k..] != [];
  }

  /** One turn of the loop of `replaceDoubles` in which `find` succeeds: the
      piece with its first match of the literal replaced is added. */
  lemma ReplacedPiecesStep(s: string, pieces: seq<string>, k: nat, from: nat, added: seq<string>, l: Literal, text: Result<string>, fmt: real -> string)
    requires k < |pieces| && FindFrom(s, from) == Some(l) && WellFormedLiteral(s, l)
    requires text == LiteralPmf(s, l, fmt) && text.Success?
    ensures Prepend(added, ReplacedPieces(s, pieces[k..], from, fmt)) ==
      Prepend(added + [ReplaceFirstPattern(pieces[k], s[l.start..l.end], text.value)], ReplacedPieces(s, pieces[k + 1..], l.end, fmt))
  {
    var tail := pieces[k..];
    assert tail[0] == pieces[k] && tail[1..] == pieces[k + 1..];
    var x := ReplaceFirstPattern(pieces[k], s[l.start..l.end], text.value);
    var rest := ReplacedPieces(s, pieces[k + 1..], l.end, fmt);
    ReplacedPiecesUnfold(s, tail, from, l, text, fmt);
    PrependPrepend(added, x, rest);
  }

  /** `ReplacedPieces` on a non-empty list whose first literal is read. */
  lemma ReplacedPiecesUnfold(s: string, pieces: seq<string>, from: nat, l: Literal, text: Result<string>, fmt: real -> string)
    requires pieces != [] && FindFrom(s, from) == Some(l) && WellFormedLiteral(s, l)
    requires text == LiteralPmf(s, l, fmt) && text.Success?
    ensures ReplacedPieces(s, pieces, from, fmt) ==
      Prepend([ReplaceFirstPattern(pieces[0], s[l.start..l.end], text.value)], ReplacedPieces(s, pieces[1..], l.end, fmt))
  {
  }

  lemma PrependPrepend(front: seq<string>, x: string, r: Result<seq<string>>)
    ensures Prepend(front, Prepend([x], r)) == Prepend(front + [x], r)
  {
    if r.Success? {
      assert front + ([x] + r.value) == front + [x] + r.value;
    }
  }

  /** `replaceDoubles`, with the Matcher as the position it continues from
      and the StringJoiner as the list of pieces added so far. */
  method ReplaceDoubles(stoEx: string, fmt: real -> string) returns (r: Result<string>)
    ensures r == ReplaceDoublesSpec(stoEx, fmt)
  {
    var splitString := JavaSplit(stoEx, '+');
    var added: seq<string> := [];
    var matcherFrom: nat := 0;
    assert splitString[0..] == splitString;
    for k := 0 to |splitString|
      invariant Prepend(added, ReplacedPieces(stoEx, splitString[k..], matcherFrom, fmt)) ==
        ReplacedPieces(stoEx, splitString, 0, fmt)
    {
      var found := FindFrom(stoEx, matcherFrom);
      if found.None? {
        ReplacedPiecesSkip(stoEx, splitString, k, matcherFrom, fmt);
      } else {
        var l := found.value;
        var resultEx := LiteralPmf(stoEx, l, fmt);
        if resultEx.Failure? {
          ReplacedPiecesThrow(stoEx, splitString, k, matcherFrom, l, resultEx, fmt);
          return Failure(resultEx.error);
        }
        ReplacedPiecesStep(stoEx, splitString, k, matcherFrom, added, l, resultEx, fmt);
        added := added + [ReplaceFirstPattern(splitString[k], stoEx[l.start..l.end], resultEx.value)];
        matcherFrom := l.end;
      }
    }
    assert ReplacedPieces(stoEx, splitString[|splitString|..], matcherFrom, fmt) == Success([]);
    assert added + [] == added;
    r := Success(Join(added, "+"));
  }

  /** Every literal of the list is a match in `s`. */
  predicate AllWellFormed(s: string, lits: seq<Literal>) {
    forall k :: 0 <= k < |lits| ==> WellFormedLiteral(s, lits[k])
  }

  /** A pattern to replace and its replacement, or the exception computing
      the replacement throws. */
  type Item = (string, Result<string>)

  predicate PatternsNonEmpty(items: seq<Item>) {
    forall k :: 0 <= k < |items| ==> items[k].0 != []
  }

  /** The pieces paired with the items, the k-th piece with the k-th item,
      as far as both reach. */
  function ZipPieces(pieces: seq<string>, items: seq<Item>): (r: Result<seq<string>>)
    requires PatternsNonEmpty(items)
    decreases |pieces|
  {
    if pieces == [] || items == [] then Success([])
    else
      var text :- items[0].1;
      var rest :- ZipPieces(pieces[1..], items[1..]);
      Success([ReplaceFirstPattern(pieces[0], items[0].0, text)] + rest)
  }

  /** Each literal's text with its distribution. */
  function LiteralItems(s: string, lits: seq<Literal>, fmt: real -> string): (r: seq<Item>)
    requires AllWellFormed(s, lits)
    ensures |r| == |lits| && PatternsNonEmpty(r)
  {
    if lits == [] then []
    else
      var pattern := s[lits[0].start..lits[0].end];
      assert |pattern| > 0;
      var rest := LiteralItems(s, lits[1..], fmt);
      var r := [(pattern, LiteralPmf(s, lits[0], fmt))] + rest;
      assert forall k :: 0 < k < |r| ==> r[k] == rest[k - 1];
      r
  }

  lemma {:induction false} LiteralItemAt(s: string, lits: seq<Literal>, fmt: real -> string, k: nat)
    requires AllWellFormed(s, lits) && k < |lits|
    ensures LiteralItems(s, lits, fmt)[k] == (s[lits[k].start..lits[k].end], LiteralPmf(s, lits[k], fmt))
  {
    if k > 0 {
      LiteralItemAt(s, lits[1..], fmt, k - 1);
      assert lits[k] == lits[1..][k - 1];
    }
  }

  /** The loop pairs the pieces with the literals successive `find` calls
      return. */
  lemma {:induction false} ReplacedPiecesAsZip(s: string, pieces: seq<string>, from: nat, fmt: real -> string)
    ensures AllWellFormed(s, Literals(s, from))
    ensures ReplacedPieces(s, pieces, from, fmt) == ZipPieces(pieces, LiteralItems(s, Literals(s, from), fmt))
    decreases |pieces|
  {
    var lits := Literals(s, from);
    if pieces != [] && FindFrom(s, from).Some? {
      var l := FindFrom(s, from).value;
      var later := Literals(s, l.end);
      assert lits == [l] + later;
      assert lits[0] == l && lits[1..] == later;
      ReplacedPiecesAsZip(s, pieces[1..], l.end, fmt);
    }
  }

  /** Pairing throws exactly when one of the paired items does. */
  lemma {:induction false} ZipPiecesFailure(pieces: seq<string>, items: seq<Item>)
    requires PatternsNonEmpty(items)
    ensures ZipPieces(pieces, items).Failure? <==>
      exists k :: 0 <= k < Min(|pieces|, |items|) && items[k].1.Failure?
    decreases |pieces|
  {
    if pieces != [] && items != [] {
      var n := Min(|pieces|, |items|);
      if items[0].1.Success? {
        var rest := items[1..];
        ZipPiecesFailure(pieces[1..], rest);
        assert n == Min(|pieces[1..]|, |rest|) + 1;
        if ZipPieces(pieces, items).Failure? {
          var k :| 0 <= k < n - 1 && rest[k].1.Failure?;
          assert items[k + 1] == rest[k];
        }
        if exists k :: 0 <= k < n && items[k].1.Failure? {
          var k :| 0 <= k < n && items[k].1.Failure?;
          assert items[k] == rest[k - 1];
        }
      }
    }
  }

  /** A successful pairing has one entry per paired piece: the piece with
      the first match of its item's pattern replaced. */
  lemma {:induction false} ZipPiecesSuccess(pieces: seq<string>, items: seq<Item>)
    requires PatternsNonEmpty(items)
    requires ZipPieces(pieces, items).Success?
    ensures var r := ZipPieces(pieces, items).value;
      && |r| == Min(|pieces|, |items|)
      && forall k :: 0 <= k < |r| ==>
           items[k].1.Success? && r[k] == ReplaceFirstPattern(pieces[k], items[k].0, items[k].1.value)
    decreases |pieces|
  {
    if pieces != [] && items != [] {
      var rest := items[1..];
      var tail := ZipPieces(pieces[1..], rest);
      ZipPiecesSuccess(pieces[1..], rest);
      var r := ZipPieces(pieces, items).value;
      assert r == [ReplaceFirstPattern(pieces[0], items[0].0, items[0].1.value)] + tail.value;
      forall k | 1 <= k < |r|
        ensures items[k].1.Success? && r[k] == ReplaceFirstPattern(pieces[k], items[k].0, items[k].1.value)
      {
        assert items[k] == rest[k - 1] && r[k] == tail.value[k - 1] && pieces[k] == pieces[1..][k - 1];
      }
    }
  }

  /** The loop throws exactly when one of the literals it uses, the first
      `min(pieces, literals)` of them, has a digit run above 2^31 - 1. */
  lemma ReplacedPiecesFailure(s: string, pieces: seq<string>, from: nat, fmt: real -> string)
    ensures var lits := Literals(s, from);
      ReplacedPieces(s, pieces, from, fmt).Failure? <==>
        exists k :: 0 <= k < Min(|pieces|, |lits|) && LiteralPmf(s, lits[k], fmt).Failure?
  {
    var lits := Literals(s, from);
    var n := Min(|pieces|, |lits|);
    ReplacedPiecesAsZip(s, pieces, from, fmt);
    var items := LiteralItems(s, lits, fmt);
    ZipPiecesFailure(pieces, items);
    if ReplacedPieces(s, pieces, from, fmt).Failure? {
      var k :| 0 <= k < n && items[k].1.Failure?;
      LiteralItemAt(s, lits, fmt, k);
      assert LiteralPmf(s, lits[k], fmt).Failure?;
    }
    if exists k :: 0 <= k < n && LiteralPmf(s, lits[k], fmt).Failure? {
      var k :| 0 <= k < n && LiteralPmf(s, lits[k], fmt).Failure?;
      LiteralItemAt(s, lits, fmt, k);
      assert items[k].1.Failure?;
    }
  }

  /** The k-th piece receives the k-th literal of the whole expression,
      whichever piece that literal lies in, and as many pieces are kept as
      there are pieces and literals, whichever is fewer: the pieces after
      the last literal are dropped. */
  lemma ReplacedPiecesZip(s: string, pieces: seq<string>, from: nat, fmt: real -> string)
    requires ReplacedPieces(s, pieces, from, fmt).Success?
    ensures var lits := Literals(s, from);
      var r := ReplacedPieces(s, pieces, from, fmt).value;
      && |r| == Min(|pieces|, |lits|)
      && forall k :: 0 <= k < |r| ==>
           LiteralPmf(s, lits[k], fmt).Success? &&
           r[k] == ReplaceFirstPattern(pieces[k], s[lits[k].start..lits[k].end], LiteralPmf(s, lits[k], fmt).value)
  {
    var lits := Literals(s, from);
    ReplacedPiecesAsZip(s, pieces, from, fmt);
    var items := LiteralItems(s, lits, fmt);
    ZipPiecesSuccess(pieces, items);
    var r := ReplacedPieces(s, pieces, from, fmt).value;
    forall k | 0 <= k < |r|
      ensures LiteralPmf(s, lits[k], fmt).Success? &&
        r[k] == ReplaceFirstPattern(pieces[k], s[lits[k].start..lits[k].end], LiteralPmf(s, lits[k], fmt).value)
    {
      LiteralItemAt(s, lits, fmt, k);
    }
  }

  /** An expression without decimal literals comes back empty: no `find`
      succeeds, so no piece is added. */
  lemma ReplaceDoublesWithoutLiterals(stoEx: string, fmt: real -> string)
    requires forall i: nat :: !MatchAt(stoEx, i)
    ensures ReplaceDoublesSpec(stoEx, fmt) == Success("")
  {
    var pieces := JavaSplit(stoEx, '+');
    assert FindFrom(stoEx, 0).None?;
  }

  /** The pieces of `5 + 1.5` are `5 ` and ` 1.5`. The first `find` returns
      `1.5`, which the first piece does not contain, so that piece is kept
      as it is; the second `find` fails, so the second piece, the term that
      holds the literal, is dropped together with its `+`. */
  lemma ReplaceDoublesDropsLaterTerm(fmt: real -> string)
    ensures ReplaceDoublesSpec("5 + 1.5", fmt) == Success("5 ")
  {
    var s := "5 + 1.5";
    var pieces := ExampleSplit();
    var l := ExampleLiteral(fmt);
    TwoPiecesOneLiteral(s, "5 ", " 1.5", l, fmt);
    assert Join(["5 "], "+") == "5 ";
  }

  /** Two pieces and a single literal, longer than the first piece: the
      first piece is kept unchanged and the second is dropped. */
  lemma TwoPiecesOneLiteral(s: string, a: string, b: string, l: Literal, fmt: real -> string)
    requires FindFrom(s, 0) == Some(l) && WellFormedLiteral(s, l) && FindFrom(s, l.end) == None
    requires LiteralPmf(s, l, fmt).Success? && |a| < l.end - l.start
    ensures ReplacedPieces(s, [a, b], 0, fmt) == Success([a])
  {
    var text := LiteralPmf(s, l, fmt);
    var pat := s[l.start..l.end];
    ReplacedPiecesUnfold(s, [a, b], 0, l, text, fmt);
    ReplaceFirstPatternShorter(a, pat, text.value);
    assert [a, b][1..] == [b];
    assert ReplacedPieces(s, [b], l.end, fmt) == Success([]);
    assert [a] + [] == [a];
  }

  /** The pieces of `5 + 1.5` between `+` signs. */
  lemma ExampleSplit() returns (pieces: seq<string>)
    ensures pieces == ["5 ", " 1.5"] && JavaSplit("5 + 1.5", '+') == pieces
  {
    pieces := ["5 ", " 1.5"];
    assert "5 " + ['+'] + " 1.5" == "5 + 1.5";
    JavaSplitAround("5 ", " 1.5", '+');
  }

  /** The only literal of `5 + 1.5`, and its distribution. */
  lemma ExampleLiteral(fmt: real -> string) returns (l: Literal)
    ensures WellFormedLiteral("5 + 1.5", l) && l == Literal(4, 5, 7)
    ensures FindFrom("5 + 1.5", 0) == Some(l) && FindFrom("5 + 1.5", 7) == None
    ensures LiteralPmf("5 + 1.5", l, fmt) == Success(PmfText(Pmf(1, 0.5, 2, 0.5), fmt))
  {
    var s := "5 + 1.5";
    l := ExampleMatch();
    assert s[4..5] == "1" && s[6..7] == "5";
    ExamplePmf();
    assert PmfTextOf("1", "5", fmt) == Success(PmfText(Pmf(1, 0.5, 2, 0.5), fmt));
  }

  /** The text of `5 + 1.5` before and after its literal. */
  lemma ExampleSlices()
    ensures "5 + 1.5"[..4] == "5 + " && "5 + 1.5"[7..] == ""
  {
  }

  /** `find` on `5 + 1.5` skips the integer `5` and stops at `1.5`. */
  lemma ExampleMatch() returns (l: Literal)
    ensures WellFormedLiteral("5 + 1.5", l) && l == Literal(4, 5, 7)
    ensures FindFrom("5 + 1.5", 0) == Some(l) && FindFrom("5 + 1.5", 7) == None
  {
    var s := "5 + 1.5";
    assert !MatchAt(s, 0) by {
      assert DigitRunEnd(s, 0) == 1;
    }
    assert MatchAt(s, 4) by {
      assert DigitRunEnd(s, 4) == 5;
    }
    assert !IsDigit(s[1]) && !IsDigit(s[2]) && !IsDigit(s[3]);
    assert FindFrom(s, 0) == Some(LiteralAt(s, 4));
    l := LiteralAt(s, 4);
  }

  /** `1.5` lies between 1 and 2, at weight one half each. */
  lemma ExamplePmf()
    ensures PmfOf("1", "5") == Success(Pmf(1, 0.5, 2, 0.5))
  {
    assert DigitsValue("1") == 1 && DigitsValue("5") == 5 by {
      assert "1"[..0] == [] && "5"[..0] == [];
    }
    assert Pow10(1) == 10;
  }

  /** What `replaceDoubles` evidently means: every decimal literal of the
      expression, from `from` on, replaced in place by its distribution,
      and all text around the literals kept. */
  function ReplaceLiteralsFrom(s: string, from: nat, fmt: real -> string): (r: Result<string>)
    requires from <= |s|
    ensures r.Failure? ==> r.error == NumberFormat
    decreases |s| - from
  {
    match FindFrom(s, from)
    case None => Success(s[from..])
    case Some(l) =>
      var text :- LiteralPmf(s, l, fmt);
      var rest :- ReplaceLiteralsFrom(s, l.end, fmt);
      Success(s[from..l.start] + text + rest)
  }

  lemma ReplaceLiteralsFromStep(s: string, from: nat, l: Literal, fmt: real -> string)
    requires from <= |s| && FindFrom(s, from) == Some(l)
    requires LiteralPmf(s, l, fmt).Success? && ReplaceLiteralsFrom(s, l.end, fmt).Success?
    ensures ReplaceLiteralsFrom(s, from, fmt) ==
      Success(s[from..l.start] + LiteralPmf(s, l, fmt).value + ReplaceLiteralsFrom(s, l.end, fmt).value)
  {
  }

  function ReplaceDoublesIntended(stoEx: string, fmt: real -> string): Result<string> {
    ReplaceLiteralsFrom(stoEx, 0, fmt)
  }

  lemma {:induction false} NatToStringHasNoPlus(n: nat)
    ensures '+' !in NatToString(n)
  {
    var t := NatToString(n);
    forall i | 0 <= i < |t| ensures t[i] != '+' {
      assert IsDigit(t[i]);
    }
  }

  /** The number format never writes a `+`. */
  ghost predicate WritesNoPlus(fmt: real -> string) {
    forall x: real :: '+' !in fmt(x)
  }

  /** With a number format that writes no `+`, a distribution's text has none. */
  lemma PmfTextHasNoPlus(p: Pmf, fmt: real -> string)
    ensures WritesNoPlus(fmt) ==> '+' !in PmfText(p, fmt)
  {
    NatToStringHasNoPlus(if p.lower < 0 then -p.lower else p.lower);
    NatToStringHasNoPlus(if p.upper < 0 then -p.upper else p.upper);
    if WritesNoPlus(fmt) {
      assert '+' !in fmt(p.lowerMass) && '+' !in fmt(p.upperMass);
    }
  }

  lemma LiteralHasNoPlus(s: string, l: Literal)
    requires WellFormedLiteral(s, l)
    ensures Count(s[l.start..l.end], '+') == 0
  {
    var t := s[l.start..l.end];
    forall i | 0 <= i < |t| ensures t[i] != '+' {
      assert t[i] == s[l.start + i];
    }
  }

  lemma SliceInThree(s: string, i: nat, j: nat, k: nat)
    requires i <= j <= k <= |s|
    ensures s[i..] == s[i..j] + s[j..k] + s[k..]
  {
  }

  /** The corrected rewrite keeps every `+` of the expression, so no term is lost. */
  lemma {:induction false} ReplaceLiteralsKeepsPlusSigns(s: string, from: nat, fmt: real -> string)
    requires from <= |s|
    requires WritesNoPlus(fmt)
    requires ReplaceLiteralsFrom(s, from, fmt).Success?
    ensures Count(ReplaceLiteralsFrom(s, from, fmt).value, '+') == Count(s[from..], '+')
    decreases |s| - from
  {
    match FindFrom(s, from)
    case None =>
    case Some(l) =>
      var text := LiteralPmf(s, l, fmt).value;
      var rest := ReplaceLiteralsFrom(s, l.end, fmt).value;
      ReplaceLiteralsKeepsPlusSigns(s, l.end, fmt);
      SliceInThree(s, from, l.start, l.end);
      CountConcat(s[from..l.start], s[l.start..l.end], '+');
      CountConcat(s[from..l.start] + s[l.start..l.end], s[l.end..], '+');
      LiteralHasNoPlus(s, l);
      CountConcat(s[from..l.start], text, '+');
      CountConcat(s[from..l.start] + text, rest, '+');
  }

  /** The corrected rewrite keeps both terms of `5 + 1.5`. */
  lemma ReplaceDoublesIntendedKeepsTerm(fmt: real -> string)
    ensures ReplaceDoublesIntended("5 + 1.5", fmt) == Success("5 + " + PmfText(Pmf(1, 0.5, 2, 0.5), fmt))
  {
    var s := "5 + 1.5";
    var l := ExampleLiteral(fmt);
    var t := PmfText(Pmf(1, 0.5, 2, 0.5), fmt);
    ExampleSlices();
    var rest := ReplaceLiteralsFrom(s, 7, fmt);
    assert rest == Success("");
    ReplaceLiteralsFromStep(s, 0, l, fmt);
    assert s[0..4] == s[..4];
    assert "5 + " + t + "" == "5 + " + t;
  }
}
