/** Sequence and string functions the cleaning rules are built from: Python's `str.split`,
    `str.isspace`, `str(n)` and `int(s)`, and the effect of the few regular expressions the
    notebook uses, each written out by hand. */
module Text {

  function Last<T>(s: seq<T>): T
    requires |s| > 0
  {
    s[|s| - 1]
  }

  function DropLast<T>(s: seq<T>): seq<T>
    requires |s| > 0
  {
    s[..|s| - 1]
  }

  /** `sub` is `s` with some elements deleted and the others kept in their order. */
  predicate SubsequenceOf<T(==)>(sub: seq<T>, s: seq<T>)
    decreases |s|
  {
    sub == [] ||
    (s != [] &&
     ((Last(sub) == Last(s) && SubsequenceOf(DropLast(sub), DropLast(s))) ||
      SubsequenceOf(sub, DropLast(s))))
  }

  lemma {:induction false} SubsequenceOfMembers<T>(sub: seq<T>, s: seq<T>)
    requires SubsequenceOf(sub, s)
    ensures |sub| <= |s|
    ensures forall x :: x in sub ==> x in s
    decreases |s|
  {
    if sub != [] {
      if Last(sub) == Last(s) && SubsequenceOf(DropLast(sub), DropLast(s)) {
        SubsequenceOfMembers(DropLast(sub), DropLast(s));
        assert sub == DropLast(sub) + [Last(sub)];
        assert s == DropLast(s) + [Last(s)];
      } else {
        SubsequenceOfMembers(sub, DropLast(s));
        assert s == DropLast(s) + [Last(s)];
      }
    }
  }

  /** Maps `f` over every element. */
  function MapSeq<T, U>(s: seq<T>, f: T -> U): (r: seq<U>)
    ensures |r| == |s|
    ensures forall i :: 0 <= i < |s| ==> r[i] == f(s[i])
  {
    seq(|s|, i requires 0 <= i < |s| => f(s[i]))
  }

  // ---------------------------------------------------------------------------
  // Digits: the regex class [0-9] and what `re.sub(r'[^0-9]+', '', s)` leaves.

  predicate IsDigit(c: char) {
    '0' <= c <= '9'
  }

  predicate AllDigits(s: string) {
    forall i :: 0 <= i < |s| ==> IsDigit(s[i])
  }

  /** The ASCII digits of `s`, in their order: every run of non-digits replaced by nothing. */
  function KeepDigits(s: string): (r: string)
    ensures AllDigits(r)
    ensures SubsequenceOf(r, s)
  {
    if s == [] then []
    else
      var init := KeepDigits(DropLast(s));
      if IsDigit(Last(s)) then
        assert DropLast(init + [Last(s)]) == init;
        init + [Last(s)]
      else init
  }

  /** Stripping non-digits works piece by piece; with the one-character case below this fixes
      `KeepDigits` completely. */
  lemma {:induction false} KeepDigitsConcat(a: string, b: string)
    ensures KeepDigits(a + b) == KeepDigits(a) + KeepDigits(b)
    decreases |b|
  {
    if b != [] {
      assert Last(a + b) == Last(b);
      assert DropLast(a + b) == a + DropLast(b);
      KeepDigitsConcat(a, DropLast(b));
    } else {
      assert a + b == a;
    }
  }

  lemma KeepDigitsOfChar(c: char)
    ensures KeepDigits([c]) == if IsDigit(c) then [c] else []
  {
    assert DropLast([c]) == [];
  }

  lemma {:induction false} KeepDigitsOfDigits(s: string)
    requires AllDigits(s)
    ensures KeepDigits(s) == s
    decreases |s|
  {
    if s != [] {
      var s' := DropLast(s);
      assert AllDigits(s') by {
        forall i | 0 <= i < |s'| ensures IsDigit(s'[i]) {
          assert s'[i] == s[i];
        }
      }
      KeepDigitsOfDigits(s');
      assert IsDigit(s[|s| - 1]);
      assert s == s' + [Last(s)];
    }
  }

  /** A string is left unchanged exactly when it is all digits. */
  lemma KeepDigitsFixpoint(s: string)
    ensures KeepDigits(s) == s <==> AllDigits(s)
  {
    if AllDigits(s) {
      KeepDigitsOfDigits(s);
    }
  }

  lemma KeepDigitsIdempotent(s: string)
    ensures KeepDigits(KeepDigits(s)) == KeepDigits(s)
  {
    KeepDigitsOfDigits(KeepDigits(s));
  }

  /** A string without digits leaves nothing. */
  lemma {:induction false} KeepDigitsOfNonDigits(s: string)
    requires forall i :: 0 <= i < |s| ==> !IsDigit(s[i])
    ensures KeepDigits(s) == []
    decreases |s|
  {
    if s != [] {
      KeepDigitsOfNonDigits(DropLast(s));
    }
  }

  // ---------------------------------------------------------------------------
  // Whitespace and the first token: `re.split(r'\s+', s)[0]`.

  /** Python's `str.isspace`, which is what `\s` matches in a str pattern. */
  predicate IsWhitespace(c: char) {
    c == ' ' || ('\t' <= c <= '\r') || ('\U{1C}' <= c <= '\U{1F}') ||
    c == '\U{85}' || c == '\U{A0}' || c == '\U{1680}' || ('\U{2000}' <= c <= '\U{200A}') ||
    c == '\U{2028}' || c == '\U{2029}' || c == '\U{202F}' || c == '\U{205F}' || c == '\U{3000}'
  }

  /** The text before the first whitespace character (all of `s` if there is none; empty if
      `s` starts with one). */
  function FirstToken(s: string): (r: string)
    ensures r <= s
    ensures forall i :: 0 <= i < |r| ==> !IsWhitespace(r[i])
    ensures |r| < |s| ==> IsWhitespace(s[|r|])
  {
    if s == [] || IsWhitespace(s[0]) then []
    else [s[0]] + FirstToken(s[1..])
  }

  // ---------------------------------------------------------------------------
  // `s.split(c)` for a one-character separator, and its inverse `c.join(parts)`.

  function Split(s: string, c: char): (parts: seq<string>)
    ensures |parts| >= 1
    ensures forall i :: 0 <= i < |parts| ==> c !in parts[i]
  {
    if s == [] then [[]]
    else
      var init := Split(DropLast(s), c);
      if Last(s) == c then init + [[]]
      else DropLast(init) + [Last(init) + [Last(s)]]
  }

  function JoinWith(parts: seq<string>, c: char): string
    requires |parts| >= 1
  {
    if |parts| == 1 then parts[0]
    else JoinWith(DropLast(parts), c) + [c] + Last(parts)
  }

  /** Splitting loses nothing: joining the parts with the separator gives `s` back. */
  lemma {:induction false} JoinSplit(s: string, c: char)
    ensures JoinWith(Split(s, c), c) == s
    decreases |s|
  {
    if s != [] {
      var init := Split(DropLast(s), c);
      JoinSplit(DropLast(s), c);
      var parts := Split(s, c);
      if Last(s) == c {
        assert DropLast(parts) == init;
      } else if |init| > 1 {
        assert DropLast(parts) == DropLast(init);
        assert JoinWith(init, c) == JoinWith(DropLast(init), c) + [c] + Last(init);
      }
      assert s == DropLast(s) + [Last(s)];
    }
  }

  /** Without the separator there is a single part, `s` itself. */
  lemma {:induction false} SplitWithoutSeparator(s: string, c: char)
    requires c !in s
    ensures Split(s, c) == [s]
    decreases |s|
  {
    if s != [] {
      assert c !in DropLast(s);
      SplitWithoutSeparator(DropLast(s), c);
      assert s == DropLast(s) + [Last(s)];
    }
  }

  /** `t` ends `s`, and `c` (or the start of `s`) comes right before it. */
  predicate LastPart(s: string, c: char, t: string) {
    |t| <= |s| && t == s[|s| - |t|..] && (|t| < |s| ==> s[|s| - |t| - 1] == c)
  }

  /** The last part is the text after the last separator (all of `s` if there is none). */
  lemma {:induction false} SplitLast(s: string, c: char)
    ensures var t := Last(Split(s, c));
      LastPart(s, c, t) && (|t| == |s| <==> c !in s)
    decreases |s|
  {
    if s != [] {
      SplitLast(DropLast(s), c);
      SplitLastStep(s, c);
      SplitCountStep(s, c);
      if Last(s) == c {
        LastPartAtSeparator(s, c);
      } else {
        LastPartExtend(s, c, Last(Split(DropLast(s), c)));
      }
    }
  }

  /** How one more character changes the last part. */
  lemma SplitLastStep(s: string, c: char)
    requires s != []
    ensures Last(Split(s, c)) ==
      if Last(s) == c then [] else Last(Split(DropLast(s), c)) + [Last(s)]
  {
  }

  lemma LastPartAtSeparator(s: string, c: char)
    requires s != [] && Last(s) == c
    ensures LastPart(s, c, [])
  {
  }

  lemma LastPartExtend(s: string, c: char, t: string)
    requires s != [] && Last(s) != c && LastPart(DropLast(s), c, t)
    ensures LastPart(s, c, t + [Last(s)])
    ensures |t + [Last(s)]| == |s| <==> |t| == |DropLast(s)|
  {
    assert s == DropLast(s) + [Last(s)];
    assert s[|s| - |t| - 1..] == DropLast(s)[|s| - |t| - 1..] + [Last(s)];
  }

  /** There are at least two parts exactly when the separator occurs. */
  lemma {:induction false} SplitCount(s: string, c: char)
    ensures |Split(s, c)| >= 2 <==> c in s
    decreases |s|
  {
    if s != [] {
      SplitCount(DropLast(s), c);
      SplitCountStep(s, c);
    }
  }

  /** One more character adds a part exactly when it is the separator. */
  lemma SplitCountStep(s: string, c: char)
    requires s != []
    ensures |Split(s, c)| == |Split(DropLast(s), c)| + (if Last(s) == c then 1 else 0)
    ensures c in s <==> c in DropLast(s) || Last(s) == c
  {
    assert s == DropLast(s) + [Last(s)];
  }

  /** `s` ends with `u`, the separator `c` and `t`, and `c` (or the start of `s`) comes right
      before `u`. */
  predicate LastTwoParts(s: string, c: char, u: string, t: string) {
    |u| + 1 + |t| <= |s| &&
    s[|s| - |t| - 1 - |u|..] == u + [c] + t &&
    (|u| + 1 + |t| < |s| ==> s[|s| - |t| - 2 - |u|] == c)
  }

  /** The second-to-last part is the text between the last two separators, or from the start
      to the only one. */
  lemma {:induction false} SplitSecondLast(s: string, c: char)
    requires |Split(s, c)| >= 2
    ensures var parts := Split(s, c);
      LastTwoParts(s, c, parts[|parts| - 2], parts[|parts| - 1])
    decreases |s|
  {
    var p := Split(DropLast(s), c);
    SplitSecondLastStep(s, c);
    if Last(s) == c {
      SplitLast(DropLast(s), c);
      LastTwoPartsAtSeparator(s, c, Last(p));
    } else {
      SplitSecondLast(DropLast(s), c);
      LastTwoPartsExtend(s, c, p[|p| - 2], Last(p));
    }
  }

  /** How one more character changes the last two parts. */
  lemma SplitSecondLastStep(s: string, c: char)
    requires |Split(s, c)| >= 2
    ensures s != []
    ensures var p, q := Split(DropLast(s), c), Split(s, c);
      if Last(s) == c then q[|q| - 2] == Last(p) && q[|q| - 1] == []
      else |p| >= 2 && q[|q| - 2] == p[|p| - 2] && q[|q| - 1] == Last(p) + [Last(s)]
  {
    if s != [] {
      var p, q := Split(DropLast(s), c), Split(s, c);
      if Last(s) == c {
        assert q == p + [[]];
      } else {
        assert q == DropLast(p) + [Last(p) + [Last(s)]];
        assert |q| == |p|;
        assert q[|q| - 2] == DropLast(p)[|p| - 2];
      }
    }
  }

  lemma LastTwoPartsAtSeparator(s: string, c: char, u: string)
    requires s != [] && Last(s) == c && LastPart(DropLast(s), c, u)
    ensures LastTwoParts(s, c, u, [])
  {
    assert s == DropLast(s) + [c];
    assert s[|s| - 1 - |u|..] == DropLast(s)[|s| - 1 - |u|..] + [c];
  }

  lemma LastTwoPartsExtend(s: string, c: char, u: string, t: string)
    requires s != [] && LastTwoParts(DropLast(s), c, u, t)
    ensures LastTwoParts(s, c, u, t + [Last(s)])
  {
    var s', x := DropLast(s), Last(s);
    assert s == s' + [x];
    assert s[|s'| - |t| - 1 - |u|..] == s'[|s'| - |t| - 1 - |u|..] + [x];
    assert u + [c] + t + [x] == u + [c] + (t + [x]);
  }

  // ---------------------------------------------------------------------------
  // First and last occurrence of a fixed string.

  /** An occurrence of `p` in `s` ends at position `k`. */
  predicate EndsAt(s: string, k: nat, p: string) {
    |p| <= k <= |s| && forall j :: 0 <= j < |p| ==> s[k - |p| + j] == p[j]
  }

  /** The text before the first occurrence of `p`; all of `s` if `p` does not occur. */
  function BeforeFirst(s: string, p: string): (r: string)
    requires |p| > 0
    ensures r <= s
    ensures |r| < |s| ==> p <= s[|r|..]
    ensures forall k :: 0 <= k < |r| ==> !(p <= s[k..])
  {
    if |s| < |p| then s
    else if p <= s then []
    else
      var rest := BeforeFirst(s[1..], p);
      assert forall k :: 1 <= k <= |s| ==> s[k..] == s[1..][k - 1..];
      [s[0]] + rest
  }

  /** The text after the last occurrence of `p`; all of `s` if `p` does not occur.  This is
      what `re.sub('.*' + p, '', line)` leaves of a line: the greedy `.*` reaches the last `p`. */
  function AfterLast(s: string, p: string): string
    requires |p| > 0
  {
    if |s| < |p| then s
    else if EndsAt(s, |s|, p) then []
    else AfterLast(DropLast(s), p) + [Last(s)]
  }

  /** `AfterLast` is a suffix of `s`. */
  lemma {:induction false} AfterLastSuffix(s: string, p: string)
    requires |p| > 0
    ensures var r := AfterLast(s, p); |r| <= |s| && r == s[|s| - |r|..]
    decreases |s|
  {
    if |s| >= |p| && !EndsAt(s, |s|, p) {
      var s', x := DropLast(s), Last(s);
      AfterLastSuffix(s', p);
      var rest := AfterLast(s', p);
      assert s == s' + [x];
      assert s[|s'| - |rest|..] == s'[|s'| - |rest|..] + [x];
    }
  }

  /** The suffix `AfterLast` leaves is preceded by an occurrence of `p` unless it is all of
      `s`, and no occurrence of `p` ends inside it: it starts after the last `p`. */
  lemma {:induction false} AfterLastSpec(s: string, p: string)
    requires |p| > 0
    ensures var r := AfterLast(s, p);
      |r| <= |s| && r == s[|s| - |r|..] &&
      (|r| < |s| ==> EndsAt(s, |s| - |r|, p)) &&
      (forall k: nat :: |s| - |r| < k <= |s| ==> !EndsAt(s, k, p))
    decreases |s|
  {
    AfterLastSuffix(s, p);
    if |s| >= |p| && !EndsAt(s, |s|, p) {
      var s', x := DropLast(s), Last(s);
      assert s == s' + [x];
      AfterLastSpec(s', p);
      var rest := AfterLast(s', p);
      assert AfterLast(s, p) == rest + [x];
      var start := |s'| - |rest|;
      assert |s| - |AfterLast(s, p)| == start;
      forall k: nat | start < k <= |s|
        ensures !EndsAt(s, k, p)
      {
        if k < |s| {
          EndsAtExtend(s', x, k, p);
        }
      }
      if |rest| < |s'| {
        EndsAtExtend(s', x, start, p);
      }
    }
  }

  /** A `p` that ends in a non-digit never occurs in a digit string, so nothing is cut. */
  lemma {:induction false} AfterLastOfDigits(d: string, p: string)
    requires |p| > 0 && AllDigits(d) && !IsDigit(Last(p))
    ensures AfterLast(d, p) == d
    decreases |d|
  {
    if |d| >= |p| {
      assert d[|d| - |p| + (|p| - 1)] != p[|p| - 1];
      assert !EndsAt(d, |d|, p);
      AfterLastOfDigits(DropLast(d), p);
      assert DropLast(d) + [Last(d)] == d;
    }
  }

  /** An occurrence that ends inside `s` is not affected by appending to `s`. */
  lemma EndsAtExtend(s: string, x: char, k: nat, p: string)
    requires k <= |s|
    ensures EndsAt(s + [x], k, p) <==> EndsAt(s, k, p)
  {
    assert (s + [x])[..k] == s[..k];
  }

  /** Applies `f` to every line of `s` (the pieces between line breaks) and keeps the breaks:
      how a regular expression rewrites `s` when its matches cannot cross a line break. */
  function PerLine(s: string, f: string -> string): (r: string)
    ensures '\n' !in s ==> r == f(s)
  {
    if '\n' !in s then SplitWithoutSeparator(s, '\n'); f(s)
    else JoinWith(MapSeq(Split(s, '\n'), f), '\n')
  }

  // ---------------------------------------------------------------------------
  // `str(n)` for a natural number and `int(s)` for a digit string.

  function DigitChar(d: nat): (c: char)
    requires d < 10
    ensures IsDigit(c)
  {
    ('0' as int + d) as char
  }

  function DigitValue(c: char): (d: nat)
    requires IsDigit(c)
    ensures d < 10
  {
    c as int - '0' as int
  }

  function NatToString(n: nat): (s: string)
    ensures |s| >= 1 && AllDigits(s)
  {
    if n < 10 then [DigitChar(n)]
    else NatToString(n / 10) + [DigitChar(n % 10)]
  }

  function DigitsValue(s: string): nat
    requires AllDigits(s)
  {
    if s == [] then 0
    else DigitsValue(DropLast(s)) * 10 + DigitValue(Last(s))
  }

  function Pow10(k: nat): (p: nat)
    ensures p >= 1
  {
    if k == 0 then 1 else 10 * Pow10(k - 1)
  }

  lemma {:induction false} Pow10Monotone(j: nat, k: nat)
    requires j <= k
    ensures Pow10(j) <= Pow10(k)
  {
    if j < k {
      Pow10Monotone(j, k - 1);
    }
  }

  lemma {:induction false} Pow10Sum(j: nat, k: nat)
    ensures Pow10(j + k) == Pow10(j) * Pow10(k)
  {
    if k > 0 {
      Pow10Sum(j, k - 1);
      assert Pow10(j + k) == 10 * Pow10(j + k - 1);
    }
  }

  /** A digit string of length `k` denotes a number below 10^k. */
  lemma {:induction false} DigitsValueBound(s: string)
    requires AllDigits(s)
    ensures DigitsValue(s) < Pow10(|s|)
  {
    if s != [] {
      DigitsValueBound(DropLast(s));
    }
  }

  /** Reading back what `str` wrote gives the number again. */
  lemma {:induction false} DigitsValueOfNatToString(n: nat)
    ensures DigitsValue(NatToString(n)) == n
  {
    if n >= 10 {
      DigitsValueOfNatToString(n / 10);
      var s := NatToString(n);
      assert DropLast(s) == NatToString(n / 10);
    }
  }

  lemma NatToStringInjective(a: nat, b: nat)
    requires NatToString(a) == NatToString(b)
    ensures a == b
  {
    DigitsValueOfNatToString(a);
    DigitsValueOfNatToString(b);
  }

  lemma DigitAtBoundary(a1: string, r1: string, a2: string, r2: string)
    requires AllDigits(a2) && |a1| < |a2| && r1 != [] && a1 + r1 == a2 + r2
    ensures IsDigit(r1[0])
  {
    assert (a1 + r1)[|a1|] == r1[0];
    assert (a2 + r2)[|a1|] == a2[|a1|];
  }

  /** A run of digits followed by a non-digit is recovered from the concatenation. */
  lemma DigitPrefixUnique(a1: string, r1: string, a2: string, r2: string)
    requires AllDigits(a1) && AllDigits(a2)
    requires r1 != [] && !IsDigit(r1[0]) && r2 != [] && !IsDigit(r2[0])
    requires a1 + r1 == a2 + r2
    ensures a1 == a2 && r1 == r2
  {
    if |a1| < |a2| {
      DigitAtBoundary(a1, r1, a2, r2);
      assert false;
    } else if |a2| < |a1| {
      DigitAtBoundary(a2, r2, a1, r1);
      assert false;
    }
    assert a1 == (a1 + r1)[..|a1|];
    assert a2 == (a2 + r2)[..|a2|];
  }
}
