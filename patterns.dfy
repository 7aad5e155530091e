/** The regular expressions of the cleaning cells all have a fixed length once their `.*`
    parts are handled separately (see `Text.AfterLast`, `Text.BeforeFirst`, `Text.PerLine`):
    literals, and `.` for "any character but a line break".  This module gives `re.search`,
    `re.sub` and pandas' list form of `Series.replace` for such patterns. */
module Patterns {
  import opened Text

  /** One position of a pattern: a literal character, or `.`. */
  datatype Sym = Lit(c: char) | AnyButNewline

  type Pattern = seq<Sym>

  predicate Fits(x: char, y: Sym) {
    match y
    case Lit(c) => x == c
    case AnyButNewline => x != '\n'
  }

  /** The pattern matches a prefix of `s`. */
  predicate MatchesAtStart(s: string, p: Pattern) {
    |p| <= |s| && forall k :: 0 <= k < |p| ==> Fits(s[k], p[k])
  }

  /** `re.search(p, s) is not None`. */
  predicate Search(s: string, p: Pattern) {
    MatchesAtStart(s, p) || (s != [] && Search(s[1..], p))
  }

  /** The pattern of a string without metacharacters. */
  function Literal(t: string): (p: Pattern)
    ensures |p| == |t|
    ensures forall k :: 0 <= k < |t| ==> p[k] == Lit(t[k])
  {
    seq(|t|, k requires 0 <= k < |t| => Lit(t[k]))
  }

  /** A string matches its own literal pattern. */
  lemma LiteralMatchesItself(t: string)
    ensures MatchesAtStart(t, Literal(t))
  {
  }

  /** `re.sub(p, repl, s)`: scanning from the left, every match is replaced by `repl` and the
      scan resumes after it. */
  function SubAll(s: string, p: Pattern, repl: string): string
    requires |p| > 0
    decreases |s|
  {
    if s == [] then []
    else if MatchesAtStart(s, p) then repl + SubAll(s[|p|..], p, repl)
    else [s[0]] + SubAll(s[1..], p, repl)
  }

  /** pandas' `Series.replace([p1, ..., pn], repl, regex=True)` on one cell.  pandas decides
      for every pattern, from the ORIGINAL value, whether the cell matches it; it then applies
      the patterns in order to the value as rewritten so far, each one only where its own
      decision was yes. */
  function ReplaceList(original: string, current: string, ps: seq<Pattern>, repl: string): string
    requires forall k :: 0 <= k < |ps| ==> |ps[k]| > 0
    decreases |ps|
  {
    if ps == [] then current
    else
      var next := if Search(original, ps[0]) then SubAll(current, ps[0], repl) else current;
      ReplaceList(original, next, ps[1..], repl)
  }

  /** A value the pattern does not match is left as it is. */
  lemma {:induction false} SubAllWithoutMatch(s: string, p: Pattern, repl: string)
    requires |p| > 0 && !Search(s, p)
    ensures SubAll(s, p, repl) == s
    decreases |s|
  {
    if s != [] {
      SubAllWithoutMatch(s[1..], p, repl);
    }
  }

  /** A value that matches none of the patterns is left as it is. */
  lemma {:induction false} ReplaceListWithoutMatch(original: string, current: string, ps: seq<Pattern>, repl: string)
    requires forall k :: 0 <= k < |ps| ==> |ps[k]| > 0
    requires forall k :: 0 <= k < |ps| ==> !Search(original, ps[k])
    ensures ReplaceList(original, current, ps, repl) == current
    decreases |ps|
  {
    if ps != [] {
      ReplaceListWithoutMatch(original, current, ps[1..], repl);
    }
  }

  /** Searching for a one-character literal is membership. */
  lemma {:induction false} SearchChar(s: string, c: char)
    ensures Search(s, Literal([c])) <==> c in s
    decreases |s|
  {
    if s != [] {
      SearchChar(s[1..], c);
      assert s == [s[0]] + s[1..];
    }
  }

  /** `t` occurs in `s` at position `i`. */
  predicate OccursAt(s: string, i: int, t: string) {
    0 <= i && i + |t| <= |s| && s[i..i + |t|] == t
  }

  /** Searching for a literal finds exactly its occurrences. */
  lemma {:induction false} SearchLiteral(s: string, t: string)
    ensures Search(s, Literal(t)) <==> exists i :: OccursAt(s, i, t)
    decreases |s|
  {
    LiteralAtStart(s, t);
    if s != [] {
      SearchLiteral(s[1..], t);
      OccursAfterFirst(s, t);
    } else if exists i :: OccursAt(s, i, t) {
      var i :| OccursAt(s, i, t);
      assert i == 0;
    }
  }

  /** The literal pattern of `t` matches at the start of `s` exactly when `t` occurs there. */
  lemma LiteralAtStart(s: string, t: string)
    ensures MatchesAtStart(s, Literal(t)) <==> OccursAt(s, 0, t)
  {
    if OccursAt(s, 0, t) {
      assert forall k :: 0 <= k < |t| ==> s[k] == s[..|t|][k];
    }
    if MatchesAtStart(s, Literal(t)) {
      assert forall k :: 0 <= k < |t| ==> s[..|t|][k] == t[k];
    }
  }

  /** An occurrence in `s` is at position 0 or is an occurrence in `s[1..]` moved by one. */
  lemma OccursAfterFirst(s: string, t: string)
    requires s != []
    ensures (exists i :: OccursAt(s, i, t)) <==> OccursAt(s, 0, t) || exists i :: OccursAt(s[1..], i, t)
  {
    if exists i :: OccursAt(s, i, t) {
      var i :| OccursAt(s, i, t);
      if i > 0 {
        assert s[1..][i - 1..i - 1 + |t|] == t;
        assert OccursAt(s[1..], i - 1, t);
      }
    }
    if exists i :: OccursAt(s[1..], i, t) {
      var i :| OccursAt(s[1..], i, t);
      assert s[i + 1..i + 1 + |t|] == t;
      assert OccursAt(s, i + 1, t);
    }
  }

  /** Replacing a one-character literal by one character rewrites exactly its occurrences. */
  lemma {:induction false} SubAllChar(s: string, c: char, d: char)
    ensures var r := SubAll(s, Literal([c]), [d]);
      |r| == |s| && forall i :: 0 <= i < |s| ==> r[i] == if s[i] == c then d else s[i]
    decreases |s|
  {
    if s != [] {
      SubAllChar(s[1..], c, d);
    }
  }

  /** A pattern made of non-digit literals. */
  predicate NonDigitLiteral(p: Pattern) {
    forall k :: 0 <= k < |p| ==> p[k].Lit? && !IsDigit(p[k].c)
  }

  /** Deleting matches of a non-digit literal does not change the digits of a value. */
  lemma {:induction false} SubAllKeepsDigits(s: string, p: Pattern)
    requires |p| > 0 && NonDigitLiteral(p)
    ensures KeepDigits(SubAll(s, p, [])) == KeepDigits(s)
    decreases |s|
  {
    if s != [] {
      if MatchesAtStart(s, p) {
        SubAllKeepsDigits(s[|p|..], p);
        assert s == s[..|p|] + s[|p|..];
        KeepDigitsConcat(s[..|p|], s[|p|..]);
        assert forall i :: 0 <= i < |p| ==> s[..|p|][i] == p[i].c;
        KeepDigitsOfNonDigits(s[..|p|]);
        assert [] + SubAll(s[|p|..], p, []) == SubAll(s[|p|..], p, []);
      } else {
        SubAllKeepsDigits(s[1..], p);
        assert s == [s[0]] + s[1..];
        KeepDigitsConcat([s[0]], s[1..]);
        KeepDigitsConcat([s[0]], SubAll(s[1..], p, []));
      }
    }
  }

  lemma {:induction false} ReplaceListKeepsDigits(original: string, current: string, ps: seq<Pattern>)
    requires forall k :: 0 <= k < |ps| ==> |ps[k]| > 0 && NonDigitLiteral(ps[k])
    ensures KeepDigits(ReplaceList(original, current, ps, [])) == KeepDigits(current)
    decreases |ps|
  {
    if ps != [] {
      var next := if Search(original, ps[0]) then SubAll(current, ps[0], []) else current;
      if Search(original, ps[0]) {
        SubAllKeepsDigits(current, ps[0]);
      }
      ReplaceListKeepsDigits(original, next, ps[1..]);
    }
  }

  // ---------------------------------------------------------------------------
  // Locating matches, for values whose layout is known.

  /** A match at any position is found. */
  lemma {:induction false} SearchFrom(s: string, i: nat, p: Pattern)
    requires i <= |s| && MatchesAtStart(s[i..], p)
    ensures Search(s, p)
    decreases i
  {
    if i > 0 {
      assert s[1..][i - 1..] == s[i..];
      SearchFrom(s[1..], i - 1, p);
    }
  }

  /** A pattern that starts with a literal finds nothing where no position leaving room for
      the pattern holds that literal. */
  lemma {:induction false} NoStartNoSearch(s: string, p: Pattern)
    requires |p| > 0
    requires forall k :: 0 <= k && k + |p| <= |s| ==> !Fits(s[k], p[0])
    ensures !Search(s, p)
    decreases |s|
  {
    if |p| <= |s| {
      assert !Fits(s[0], p[0]);
    }
    assert !MatchesAtStart(s, p);
    if s != [] {
      forall k | 0 <= k && k + |p| <= |s[1..]| ensures !Fits(s[1..][k], p[0]) {
        assert s[1..][k] == s[k + 1];
      }
      NoStartNoSearch(s[1..], p);
    }
  }

  /** A pattern whose first symbol is a literal absent from `s` is not found in `s`. */
  lemma FirstLiteralAbsent(s: string, p: Pattern)
    requires |p| > 0 && p[0].Lit? && p[0].c !in s
    ensures !Search(s, p)
  {
    forall k | 0 <= k && k + |p| <= |s| ensures !Fits(s[k], p[0]) {
      assert s[k] in s;
    }
    NoStartNoSearch(s, p);
  }

  /** A prefix in which no match starts is copied unchanged. */
  lemma {:induction false} SubAllCopiesPrefix(a: string, rest: string, p: Pattern, repl: string)
    requires |p| > 0
    requires forall k :: 0 <= k < |a| ==> !MatchesAtStart((a + rest)[k..], p)
    ensures SubAll(a + rest, p, repl) == a + SubAll(rest, p, repl)
    decreases |a|
  {
    if a != [] {
      var s := a + rest;
      assert !MatchesAtStart(s, p) by { assert s[0..] == s; }
      assert s[1..] == a[1..] + rest;
      forall k | 0 <= k < |a[1..]| ensures !MatchesAtStart((a[1..] + rest)[k..], p) {
        assert (a[1..] + rest)[k..] == s[k + 1..];
      }
      SubAllCopiesPrefix(a[1..], rest, p, repl);
      assert s[0] == a[0];
      assert a == [a[0]] + a[1..];
    } else {
      assert a + rest == rest;
    }
  }

  /** No match starts in a text that lacks the pattern's first literal. */
  lemma NoStartNoMatch(a: string, rest: string, p: Pattern)
    requires |p| > 0 && p[0].Lit? && p[0].c !in a
    ensures forall k :: 0 <= k < |a| ==> !MatchesAtStart((a + rest)[k..], p)
  {
    forall k | 0 <= k < |a| ensures !MatchesAtStart((a + rest)[k..], p) {
      assert (a + rest)[k..][0] == a[k];
    }
  }

  /** A match at the start is replaced and the scan resumes after it. */
  lemma SubAllMatchHere(t: string, rest: string, p: Pattern, repl: string)
    requires |p| > 0 && |p| == |t| && MatchesAtStart(t, p)
    ensures SubAll(t + rest, p, repl) == repl + SubAll(rest, p, repl)
  {
    assert MatchesAtStart(t + rest, p) by {
      forall k | 0 <= k < |p| ensures Fits((t + rest)[k], p[k]) { assert (t + rest)[k] == t[k]; }
    }
    assert (t + rest)[|p|..] == rest;
  }

  lemma SubAllWithoutStart(b: string, p: Pattern)
    requires |p| > 0 && p[0].Lit? && p[0].c !in b
    ensures SubAll(b, p, []) == b
  {
    NoStartNoMatch(b, [], p);
    assert b + [] == b;
    SubAllCopiesPrefix(b, [], p, []);
  }

  /** Deleting the only match of a pattern that starts with a literal. */
  lemma SubAllOnce(a: string, t: string, b: string, p: Pattern)
    requires |p| == |t| && |p| > 0 && MatchesAtStart(t, p)
    requires p[0].Lit? && p[0].c !in a && p[0].c !in b
    ensures SubAll(a + t + b, p, []) == a + b
  {
    var tb := t + b;
    assert a + t + b == a + tb;
    NoStartNoMatch(a, tb, p);
    SubAllCopiesPrefix(a, tb, p, []);
    assert SubAll(a + tb, p, []) == a + SubAll(tb, p, []);
    SubAllMatchHere(t, b, p, []);
    assert SubAll(tb, p, []) == SubAll(b, p, []);
    SubAllWithoutStart(b, p);
  }
}
