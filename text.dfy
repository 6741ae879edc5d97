/** String operations of the Java library that the modelled code relies on
    (character counts, joining, splitting, whitespace removal, integer
    printing), written out over `seq<char>`. */
module Text {

  /** Number of occurrences of `c` in `s`. */
  function Count(s: string, c: char): (n: nat)
    ensures n <= |s|
    ensures n == 0 <==> c !in s
  {
    if s == [] then 0 else (if s[0] == c then 1 else 0) + Count(s[1..], c)
  }

  lemma {:induction false} CountConcat(a: string, b: string, c: char)
    ensures Count(a + b, c) == Count(a, c) + Count(b, c)
  {
    if a == [] {
      assert a + b == b;
    } else {
      assert (a + b)[1..] == a[1..] + b;
      CountConcat(a[1..], b, c);
    }
  }

  /** `s` with every occurrence of `c` removed, as `String.replace` with a one-character text does. */
  function RemoveChar(s: string, c: char): (r: string)
    ensures c !in r
    ensures |r| == |s| - Count(s, c)
    ensures forall d :: d != c ==> Count(r, d) == Count(s, d)
  {
    if s == [] then []
    else if s[0] == c then RemoveChar(s[1..], c)
    else [s[0]] + RemoveChar(s[1..], c)
  }

  /** The characters matched by the Java regular-expression class `\s`. */
  predicate IsWhitespace(c: char) {
    c == ' ' || c == '\t' || c == '\n' || c == '\U{B}' || c == '\U{C}' || c == '\r'
  }

  /** `s.replaceAll("\\s+", "")`: every whitespace character removed. */
  function RemoveWhitespace(s: string): (r: string)
    ensures forall i :: 0 <= i < |r| ==> !IsWhitespace(r[i])
    ensures |r| <= |s|
    ensures forall d :: !IsWhitespace(d) ==> Count(r, d) == Count(s, d)
  {
    if s == [] then []
    else if IsWhitespace(s[0]) then RemoveWhitespace(s[1..])
    else [s[0]] + RemoveWhitespace(s[1..])
  }

  /** StringJoiner: the parts separated by `sep`. */
  function Join(parts: seq<string>, sep: string): string {
    if parts == [] then ""
    else if |parts| == 1 then parts[0]
    else parts[0] + sep + Join(parts[1..], sep)
  }

  lemma {:induction false} CountJoin(parts: seq<string>, sep: string, c: char)
    requires parts != []
    ensures Count(Join(parts, sep), c) == SumCounts(parts, c) + (|parts| - 1) * Count(sep, c)
  {
    if |parts| > 1 {
      var rest := parts[1..];
      var n, m := Count(sep, c), |rest|;
      CountJoin(rest, sep, c);
      assert Count(Join(rest, sep), c) == SumCounts(rest, c) + (m - 1) * n;
      CountConcat(parts[0], sep, c);
      CountConcat(parts[0] + sep, Join(rest, sep), c);
      assert Count(Join(parts, sep), c) == Count(parts[0], c) + n + Count(Join(rest, sep), c);
      assert SumCounts(parts, c) == Count(parts[0], c) + SumCounts(rest, c);
      assert n + (m - 1) * n == m * n;
    }
  }

  /** Sum of the occurrences of `c` over all parts. */
  function SumCounts(parts: seq<string>, c: char): nat {
    if parts == [] then 0 else Count(parts[0], c) + SumCounts(parts[1..], c)
  }

  /** `n` copies of `c`. */
  function Repeat(c: char, n: nat): (r: string)
    ensures |r| == n
    ensures forall i :: 0 <= i < n ==> r[i] == c
  {
    if n == 0 then [] else Repeat(c, n - 1) + [c]
  }

  lemma {:induction false} CountRepeat(c: char, d: char, n: nat)
    ensures Count(Repeat(c, n), d) == if c == d then n else 0
  {
    if n > 0 {
      CountConcat(Repeat(c, n - 1), [c], d);
      CountRepeat(c, d, n - 1);
    }
  }

  /** All pieces of `s` between occurrences of `c`, empty pieces included. */
  function SplitAll(s: string, c: char): (r: seq<string>)
    ensures |r| >= 1
    ensures |r| == Count(s, c) + 1
  {
    if s == [] then [[]]
    else if s[0] == c then [[]] + SplitAll(s[1..], c)
    else
      var rest := SplitAll(s[1..], c);
      [[s[0]] + rest[0]] + rest[1..]
  }

  lemma {:induction false} SplitAllWithout(t: string, c: char)
    requires c !in t
    ensures SplitAll(t, c) == [t]
  {
    if t != [] {
      SplitAllWithout(t[1..], c);
      assert t == [t[0]] + t[1..];
    }
  }

  /** A string with one occurrence of `c` splits into the text before and after it. */
  lemma {:induction false} SplitAllAround(a: string, b: string, c: char)
    requires c !in a && c !in b
    ensures SplitAll(a + [c] + b, c) == [a, b]
  {
    if a == [] {
      assert a + [c] + b == [c] + b;
      assert ([c] + b)[1..] == b;
      SplitAllWithout(b, c);
    } else {
      assert (a + [c] + b)[1..] == a[1..] + [c] + b;
      SplitAllAround(a[1..], b, c);
      assert [a[0]] + a[1..] == a;
    }
  }

  /** `split` of a string with one occurrence of `c`, followed by text. */
  lemma JavaSplitAround(a: string, b: string, c: char)
    requires c !in a && c !in b && b != []
    ensures JavaSplit(a + [c] + b, c) == [a, b]
  {
    assert (a + [c] + b)[|a|] == c;
    SplitAllAround(a, b, c);
  }

  /** Drops the empty strings at the end of `parts`. */
  function DropTrailingEmpty(parts: seq<string>): (r: seq<string>)
    ensures |r| <= |parts| && r == parts[..|r|]
    ensures r == [] || r[|r| - 1] != []
  {
    if parts == [] then []
    else if parts[|parts| - 1] == [] then DropTrailingEmpty(parts[..|parts| - 1])
    else parts
  }

  /** `s.split(c)` for a one-character pattern: the input itself when `c`
      does not occur, otherwise the pieces without the trailing empty ones. */
  function JavaSplit(s: string, c: char): (r: seq<string>)
    ensures c !in s ==> r == [s]
  {
    if c !in s then [s] else DropTrailingEmpty(SplitAll(s, c))
  }

  /** `s` has `p` starting at index `k`. */
  predicate OccursAt(s: string, p: string, k: int) {
    0 <= k && k + |p| <= |s| && s[k..k + |p|] == p
  }

  /** `s` does not contain `p` anywhere. */
  predicate Absent(s: string, p: string) {
    forall k :: 0 <= k <= |s| - |p| ==> !OccursAt(s, p, k)
  }

  /** The characters the regular-expression `.` does not match: the line
      terminators of java.util.regex. */
  predicate IsLineTerminator(c: char) {
    c == '\n' || c == '\r' || c == '\U{85}' || c == '\U{2028}' || c == '\U{2029}'
  }

  /** A character of the text matches a character of a pattern made of
      literal characters and the wildcard `.`. */
  predicate CharMatches(c: char, pc: char) {
    if pc == '.' then !IsLineTerminator(c) else c == pc
  }

  /** The pattern `pat` (literal characters and `.`) matches all of `t`. */
  predicate MatchesAll(t: string, pat: string) {
    |t| == |pat| && (t == [] || (CharMatches(t[0], pat[0]) && MatchesAll(t[1..], pat[1..])))
  }

  /** The pattern `pat` matches `s` at `k`. */
  predicate MatchesAt(s: string, pat: string, k: int) {
    0 <= k && k + |pat| <= |s| && MatchesAll(s[k..k + |pat|], pat)
  }

  /** `s.replaceFirst(pat, rep)` for a pattern of literal characters and
      `.`, with a replacement free of `$` and `\`: the leftmost match
      replaced by `rep`. */
  function ReplaceFirstPattern(s: string, pat: string, rep: string): string
    requires pat != []
  {
    ReplaceFirstFrom(s, pat, rep, 0)
  }

  /** The matcher's scan from position `i` on: the text from `i`, with its
      leftmost match at or after `i` replaced. */
  function ReplaceFirstFrom(s: string, pat: string, rep: string, i: nat): string
    requires pat != [] && i <= |s|
    decreases |s| - i
  {
    if |s| - i < |pat| then s[i..]
    else if MatchesAt(s, pat, i) then rep + s[i + |pat|..]
    else [s[i]] + ReplaceFirstFrom(s, pat, rep, i + 1)
  }

  /** Without a match at or after `i` the rest of the text is unchanged. */
  lemma {:induction false} ReplaceFirstFromNoMatch(s: string, pat: string, rep: string, i: nat)
    requires pat != [] && i <= |s|
    requires forall k :: i <= k <= |s| - |pat| ==> !MatchesAt(s, pat, k)
    ensures ReplaceFirstFrom(s, pat, rep, i) == s[i..]
    decreases |s| - i
  {
    if |s| - i >= |pat| {
      assert !MatchesAt(s, pat, i);
      ReplaceFirstFromNoMatch(s, pat, rep, i + 1);
      assert [s[i]] + s[i + 1..] == s[i..];
    }
  }

  /** Without a match the text is unchanged. */
  lemma ReplaceFirstPatternNoMatch(s: string, pat: string, rep: string)
    requires pat != []
    requires forall k :: 0 <= k <= |s| - |pat| ==> !MatchesAt(s, pat, k)
    ensures ReplaceFirstPattern(s, pat, rep) == s
  {
    ReplaceFirstFromNoMatch(s, pat, rep, 0);
  }

  /** A text shorter than the pattern holds no match and is unchanged. */
  lemma ReplaceFirstPatternShorter(s: string, pat: string, rep: string)
    requires pat != [] && |s| < |pat|
    ensures ReplaceFirstPattern(s, pat, rep) == s
  {
    assert s[0..] == s;
  }

  /** Scanning from `i`, exactly the leftmost match `k` is replaced. */
  lemma {:induction false} ReplaceFirstFromLeftmost(s: string, pat: string, rep: string, i: nat, k: nat)
    requires pat != [] && i <= k
    requires MatchesAt(s, pat, k)
    requires forall j :: i <= j < k ==> !MatchesAt(s, pat, j)
    ensures ReplaceFirstFrom(s, pat, rep, i) == s[i..k] + rep + s[k + |pat|..]
    decreases k - i
  {
    assert k + |pat| <= |s|;
    if i == k {
      assert ReplaceFirstFrom(s, pat, rep, i) == rep + s[k + |pat|..];
      assert s[i..k] == [];
    } else {
      assert !MatchesAt(s, pat, i);
      var tail := ReplaceFirstFrom(s, pat, rep, i + 1);
      assert ReplaceFirstFrom(s, pat, rep, i) == [s[i]] + tail;
      ReplaceFirstFromLeftmost(s, pat, rep, i + 1, k);
      assert tail == s[i + 1..k] + rep + s[k + |pat|..];
      assert [s[i]] + s[i + 1..k] == s[i..k];
    }
  }

  /** Exactly the leftmost match is replaced. */
  lemma ReplaceFirstPatternLeftmost(s: string, pat: string, rep: string, k: nat)
    requires pat != []
    requires MatchesAt(s, pat, k)
    requires forall j :: 0 <= j < k ==> !MatchesAt(s, pat, j)
    ensures ReplaceFirstPattern(s, pat, rep) == s[..k] + rep + s[k + |pat|..]
  {
    ReplaceFirstFromLeftmost(s, pat, rep, 0, k);
  }

  /** The dot of a decimal literal used as a pattern matches any digit. */
  lemma ReplaceFirstWildcard()
    ensures ReplaceFirstPattern("105", "1.5", "x") == "x"
  {
    assert "105"[0..3] == "105";
    assert MatchesAll("5", "5");
    assert "05"[1..] == "5" && ".5"[1..] == "5";
    assert MatchesAll("05", ".5");
    assert "105"[1..] == "05" && "1.5"[1..] == ".5";
    assert MatchesAt("105", "1.5", 0);
  }

  function DigitChar(d: nat): char
    requires d < 10
  {
    ('0' as int + d) as char
  }

  predicate IsDigit(c: char) {
    '0' <= c <= '9'
  }

  predicate AllDigits(s: string) {
    forall i :: 0 <= i < |s| ==> IsDigit(s[i])
  }

  /** Decimal digits of `n` without leading zeros. */
  function NatToString(n: nat): (r: string)
    ensures r != []
    ensures forall i :: 0 <= i < |r| ==> IsDigit(r[i])
    decreases n
  {
    if n < 10 then [DigitChar(n)] else NatToString(n / 10) + [DigitChar(n % 10)]
  }

  /** Integer.toString. */
  function IntToString(i: int): string {
    if i < 0 then "-" + NatToString(-i) else NatToString(i)
  }

  /** Value of a run of decimal digits (leading zeros allowed). */
  function DigitsValue(s: string): nat
    requires forall i :: 0 <= i < |s| ==> IsDigit(s[i])
  {
    if s == [] then 0
    else
      assert IsDigit(s[|s| - 1]);
      DigitsValue(s[..|s| - 1]) * 10 + (s[|s| - 1] as int - '0' as int)
  }
}
