/** The per-value rules of the cleaning cells of Projekt.py: what each column's rewrite does
    to one present (non-NaN) cell.  How a missing cell is treated is in `Table`. */
module Cells {
  import opened Wrappers
  import opened Text
  import opened Patterns

  // ---------------------------------------------------------------------------
  // Preis (cell 64): `replace('(,-).*', '', regex=True)`, then `str.replace(r'[^0-9]+', '')`.

  /** One line of a price without its first ",-" and all that follows it on the line. */
  function CutPriceTail(line: string): string {
    BeforeFirst(line, ",-")
  }

  /** The cleaned price: digits only; for a one-line value, the digits of the text before the
      first ",-" (a leasing rate shown after the sale price is dropped with it). */
  function CleanPrice(s: string): (r: string)
    ensures AllDigits(r)
    ensures '\n' !in s ==> r == KeepDigits(BeforeFirst(s, ",-"))
  {
    KeepDigits(PerLine(s, CutPriceTail))
  }

  /** Cleaning an already cleaned price changes nothing. */
  lemma CleanPriceIdempotent(s: string)
    ensures CleanPrice(CleanPrice(s)) == CleanPrice(s)
  {
    var d := CleanPrice(s);
    assert '\n' !in d;
    var b := BeforeFirst(d, ",-");
    if |b| < |d| {
      assert false;
    }
    assert b == d;
    KeepDigitsOfDigits(d);
  }

  // ---------------------------------------------------------------------------
  // Verbrauch_l_pro_100km (cell 65):
  // `replace(['\(l/100 km\)', 'l/100 km', '\(komb.\)'], '', regex=True)`.

  /** The three unit patterns, in the order the source lists them; in the last, `.` stands for
      any character but a line break. */
  function ConsumptionUnits(): (ps: seq<Pattern>)
    ensures forall k :: 0 <= k < |ps| ==> |ps[k]| > 0
  {
    [Literal("(l/100 km)"), Literal("l/100 km"), Literal("(komb") + [AnyButNewline] + Literal(")")]
  }

  /** The consumption text with the unit strings deleted.  Units the original value does not
      contain are not looked for (see `Patterns.ReplaceList`); a value with none of them is
      returned unchanged, and nothing is ever added. */
  function StripConsumptionUnits(s: string): (r: string)
    ensures (forall k :: 0 <= k < |ConsumptionUnits()| ==> !Search(s, ConsumptionUnits()[k])) ==> r == s
  {
    var units := ConsumptionUnits();
    ReplaceListWithoutMatchIf(s, units);
    ReplaceList(s, s, units, [])
  }

  lemma ReplaceListWithoutMatchIf(s: string, ps: seq<Pattern>)
    requires forall k :: 0 <= k < |ps| ==> |ps[k]| > 0
    ensures (forall k :: 0 <= k < |ps| ==> !Search(s, ps[k])) ==> ReplaceList(s, s, ps, []) == s
  {
    if forall k :: 0 <= k < |ps| ==> !Search(s, ps[k]) {
      ReplaceListWithoutMatch(s, s, ps, []);
    }
  }

  /** The unit strings as they follow a consumption figure. */
  const UnitTail: string := " l/100 km (komb.)"

  /** After a figure without '(', the bracketed unit "(l/100 km)" does not occur. */
  lemma NoBracketedUnit(num: string)
    requires '(' !in num
    ensures !Search(num + UnitTail, ConsumptionUnits()[0])
  {
    var units := ConsumptionUnits();
    var s := num + UnitTail;
    var n := |num|;
    forall k | 0 <= k && k + |units[0]| <= |s| ensures !Fits(s[k], units[0][0]) {
      if k >= n { assert s[k] == UnitTail[k - n]; }
    }
    NoStartNoSearch(s, units[0]);
  }

  lemma UnitFound(num: string)
    ensures Search(num + UnitTail, ConsumptionUnits()[1])
  {
    var s := num + UnitTail;
    assert s[|num| + 1..] == "l/100 km (komb.)";
    SearchFrom(s, |num| + 1, ConsumptionUnits()[1]);
  }

  lemma CombinedMarkFound(num: string)
    ensures Search(num + UnitTail, ConsumptionUnits()[2])
  {
    var s := num + UnitTail;
    assert s[|num| + 10..] == "(komb.)";
    SearchFrom(s, |num| + 10, ConsumptionUnits()[2]);
  }

  lemma UnitDeleted(num: string)
    requires 'l' !in num
    ensures SubAll(num + UnitTail, ConsumptionUnits()[1], []) == num + "  (komb.)"
  {
    var a, t, b := num + " ", "l/100 km", " (komb.)";
    var p := Literal(t);
    UnitIsLiteral();
    LiteralMatchesItself(t);
    assert p[0] == Lit('l');
    assert 'l' !in b;
    SubAllOnce(a, t, b, p);
    UnitTailPieces();
    Associate(num, " ", t, b);
  }

  lemma UnitTailPieces()
    ensures UnitTail == " " + "l/100 km" + " (komb.)"
    ensures "  (komb.)" == " " + " (komb.)"
  {
  }

  lemma Associate(w: string, x: string, y: string, z: string)
    ensures w + (x + y + z) == (w + x) + y + z
    ensures w + (x + z) == (w + x) + z
  {
  }

  lemma UnitIsLiteral()
    ensures ConsumptionUnits()[1] == Literal("l/100 km")
  {
  }

  lemma CombinedMarkDeleted(num: string)
    requires '(' !in num
    ensures SubAll(num + "  (komb.)", ConsumptionUnits()[2], []) == num + "  "
  {
    assert num + "  (komb.)" == (num + "  ") + "(komb.)" + [];
    SubAllOnce(num + "  ", "(komb.)", [], ConsumptionUnits()[2]);
  }

  /** A consumption figure shown with both units keeps only the figure (and the two spaces
      around the first unit). */
  lemma ConsumptionWithUnits(num: string)
    requires '(' !in num && 'l' !in num
    ensures StripConsumptionUnits(num + UnitTail) == num + "  "
  {
    var units := ConsumptionUnits();
    var s := num + UnitTail;
    NoBracketedUnit(num);
    UnitFound(num);
    CombinedMarkFound(num);
    UnitDeleted(num);
    CombinedMarkDeleted(num);
    var s1 := SubAll(s, units[1], []);
    var s2 := SubAll(s1, units[2], []);
    assert ReplaceList(s, s, units, []) == ReplaceList(s, s, units[1..], []);
    assert ReplaceList(s, s, units[1..], []) == ReplaceList(s, s1, units[2..], []);
    assert ReplaceList(s, s1, units[2..], []) == ReplaceList(s, s2, units[3..], []);
  }

  /** Stripping the units once more from what the site's layout leaves changes nothing. */
  lemma ConsumptionStripStable(num: string)
    requires '(' !in num && 'l' !in num
    ensures var once := StripConsumptionUnits(num + UnitTail);
      StripConsumptionUnits(once) == once
  {
    ConsumptionWithUnits(num);
    var once := num + "  ";
    assert '(' !in once && 'l' !in once;
    var units := ConsumptionUnits();
    UnitsStart();
    FirstLiteralAbsent(once, units[0]);
    FirstLiteralAbsent(once, units[1]);
    FirstLiteralAbsent(once, units[2]);
  }

  lemma UnitsStart()
    ensures |ConsumptionUnits()| == 3
    ensures ConsumptionUnits()[0][0] == Lit('(') && ConsumptionUnits()[1][0] == Lit('l')
    ensures ConsumptionUnits()[2][0] == Lit('(')
  {
  }

  /** Cells 65 and 70 on a consumption as displayed: the figure, with a decimal point. */
  lemma ConsumptionReading(num: string)
    requires '(' !in num && 'l' !in num
    ensures DecimalPoint(StripConsumptionUnits(num + UnitTail)) == DecimalPoint(num) + "  "
  {
    ConsumptionWithUnits(num);
    var r, d := DecimalPoint(num + "  "), DecimalPoint(num);
    assert forall i :: 0 <= i < |num| ==> r[i] == d[i];
  }

  /** "6,5 l/100 km (komb.)" reads as "6.5" (the spaces are ignored by the float conversion). */
  lemma ConsumptionExample(num: string)
    requires num == "6,5"
    ensures DecimalPoint(StripConsumptionUnits(num + UnitTail)) == "6.5  "
  {
    ConsumptionReading(num);
    var d := DecimalPoint(num);
    assert d[0] == '6' && d[1] == '.' && d[2] == '5';
    assert d == "6.5";
  }

  /** Cell 70: `replace(',', '.', regex=True)`: every decimal comma becomes a point and nothing
      else changes. */
  function DecimalPoint(s: string): (r: string)
    ensures |r| == |s|
    ensures forall i :: 0 <= i < |s| ==> r[i] == if s[i] == ',' then '.' else s[i]
    ensures ',' !in r
  {
    SubAllChar(s, ',', '.');
    SubAll(s, Literal([',']), ['.'])
  }

  // ---------------------------------------------------------------------------
  // Erstzulassung (cell 66): `replace('.*/', '', regex=True)`, then the digit strip.

  function AfterLastSlash(line: string): string {
    AfterLast(line, "/")
  }

  /** The registration year: digits only; for a one-line value, the digits after the last
      '/' (the month before it is dropped). */
  function CleanRegistration(s: string): (r: string)
    ensures AllDigits(r)
    ensures '\n' !in s ==> r == KeepDigits(AfterLast(s, "/"))
  {
    KeepDigits(PerLine(s, AfterLastSlash))
  }

  /** Cleaning an already cleaned registration changes nothing. */
  lemma CleanRegistrationIdempotent(s: string)
    ensures CleanRegistration(CleanRegistration(s)) == CleanRegistration(s)
  {
    var d := CleanRegistration(s);
    assert '\n' !in d;
    AfterLastOfDigits(d, "/");
    KeepDigitsOfDigits(d);
  }

  // ---------------------------------------------------------------------------
  // PS (cell 67): `replace(['.*kW', '\(', 'PS\)'], '', regex=True)`, then the digit strip.

  function AfterLastKw(line: string): string {
    AfterLast(line, "kW")
  }

  /** The two fixed parts of the power text that are deleted after the kW figure. */
  function PowerMarks(): (ps: seq<Pattern>)
    ensures forall k :: 0 <= k < |ps| ==> |ps[k]| > 0 && NonDigitLiteral(ps[k])
  {
    [Literal("("), Literal("PS)")]
  }

  /** The power in PS: digits only; for a one-line value, the digits after the last "kW" (the
      kW figure before it is dropped; deleting "(" and "PS)" loses no digit). */
  function CleanPower(s: string): (r: string)
    ensures AllDigits(r)
    ensures '\n' !in s ==> r == KeepDigits(AfterLast(s, "kW"))
  {
    var afterKw := PerLine(s, AfterLastKw);
    ReplaceListKeepsDigits(s, afterKw, PowerMarks());
    KeepDigits(ReplaceList(s, afterKw, PowerMarks(), []))
  }

  /** Cleaning an already cleaned power changes nothing. */
  lemma CleanPowerIdempotent(s: string)
    ensures CleanPower(CleanPower(s)) == CleanPower(s)
  {
    var d := CleanPower(s);
    assert '\n' !in d;
    AfterLastOfDigits(d, "kW");
    KeepDigitsOfDigits(d);
  }

  // ---------------------------------------------------------------------------
  // Missing markers (cell 68).  A non-empty pattern is a regular expression searched anywhere
  // in the cell; the empty pattern is compared for equality.

  /** `replace('', np.NaN, regex=True)` (km, PS, Erstzulassung). */
  function MissingIfBlank(s: string): (r: Option<string>)
    ensures r.None? <==> s == []
    ensures r.Some? ==> r.value == s
  {
    if s == [] then None else Some(s)
  }

  /** `replace(['-', ''], np.NaN, regex=True)` (Fahrzeughalter). */
  function MissingIfBlankOrDash(s: string): (r: Option<string>)
    ensures r.None? <==> s == [] || '-' in s
    ensures r.Some? ==> r.value == s
  {
    SearchChar(s, '-');
    if Search(s, Literal("-")) || s == [] then None else Some(s)
  }

  /** `replace(['-', '', '0'], np.NaN, regex=True)` (Verbrauch, Emissionen): a value holding a
      '-' or a '0' anywhere is marked missing, not only the values "-" and "0". */
  function MissingIfBlankDashOrZero(s: string): (r: Option<string>)
    ensures r.None? <==> s == [] || '-' in s || '0' in s
    ensures r.Some? ==> r.value == s
  {
    SearchChar(s, '-');
    SearchChar(s, '0');
    if Search(s, Literal("-")) || s == [] || Search(s, Literal("0")) then None else Some(s)
  }

  // ---------------------------------------------------------------------------
  // Derived columns.

  /** Marke (cell 63): `str.split('\s+').str[0]`, the text before the first whitespace. */
  function Brand(titel: string): (r: string)
    ensures r <= titel
    ensures forall i :: 0 <= i < |r| ==> !IsWhitespace(r[i])
    ensures |r| < |titel| ==> IsWhitespace(titel[|r|])
  {
    FirstToken(titel)
  }

  /** Stadt (cell 71): `str.split(' ').str[-1]`, the text after the last space. */
  function City(standort: string): (r: string)
    ensures ' ' !in r
    ensures |r| <= |standort| && r == standort[|standort| - |r|..]
    ensures |r| < |standort| ==> standort[|standort| - |r| - 1] == ' '
    ensures |r| == |standort| <==> ' ' !in standort
  {
    SplitLast(standort, ' ');
    Last(Split(standort, ' '))
  }

  /** PLZ (cell 71): the digits of the location. */
  function PostalCode(standort: string): (r: string)
    ensures AllDigits(r)
  {
    KeepDigits(standort)
  }

  /** Land (cell 71): `str.split('-').str[-2].str.split(' ').str[-1]`: missing when the location
      has no '-', otherwise the last space-separated word of the second-to-last '-' part. */
  function Country(standort: string): (r: Option<string>)
    ensures r.None? <==> '-' !in standort
  {
    SplitCount(standort, '-');
    var parts := Split(standort, '-');
    if |parts| < 2 then None
    else Some(Last(Split(parts[|parts| - 2], ' ')))
  }

  /** Moving from a part of `s` to a suffix of that part. */
  lemma SuffixOfPart(s: string, start: nat, u: string, c: char, t: string, v: string)
    requires start <= |s| && s[start..] == u + [c] + t
    requires |v| <= |u| && v == u[|u| - |v|..]
    ensures start + |u| - |v| <= |s| && s[start + |u| - |v|..] == v + [c] + t
    ensures |v| < |u| ==> s[start + |u| - |v| - 1] == u[|u| - |v| - 1]
  {
    assert s[start + |u| - |v|..] == (u + [c] + t)[|u| - |v|..];
  }

  /** `v` is the word directly in front of the separator that starts `t`, the last part of
      `s`: it holds neither ' ' nor '-', and it is preceded by a ' ' or '-' unless it starts
      `s`. */
  predicate WordBeforeLastDash(s: string, v: string, t: string) {
    ' ' !in v && '-' !in v &&
    |v| + 1 + |t| <= |s| &&
    s[|s| - |t| - 1 - |v|..] == v + ['-'] + t &&
    (|v| + 1 + |t| < |s| ==> s[|s| - |t| - 2 - |v|] == ' ' || s[|s| - |t| - 2 - |v|] == '-')
  }

  /** From the second-to-last '-' part `u` of `s` to its last word `v`. */
  lemma WordBeforeDash(s: string, u: string, t: string, v: string)
    requires '-' !in u && ' ' !in v && LastTwoParts(s, '-', u, t)
    requires LastPart(u, ' ', v)
    ensures WordBeforeLastDash(s, v, t)
  {
    SuffixOfPart(s, |s| - |t| - 1 - |u|, u, '-', t, v);
    NotInSuffix(u, v, '-');
  }

  lemma NotInSuffix(u: string, v: string, c: char)
    requires c !in u && |v| <= |u| && v == u[|u| - |v|..]
    ensures c !in v
  {
    forall i | 0 <= i < |v| ensures v[i] != c {
      assert v[i] == u[|u| - |v| + i];
    }
  }

  /** The country is the word directly in front of the last '-'. */
  lemma CountryBeforeLastDash(standort: string)
    requires '-' in standort
    ensures Country(standort).Some?
    ensures WordBeforeLastDash(standort, Country(standort).value, Last(Split(standort, '-')))
  {
    SplitCount(standort, '-');
    var parts := Split(standort, '-');
    var t, u := parts[|parts| - 1], parts[|parts| - 2];
    SplitSecondLast(standort, '-');
    SplitLast(u, ' ');
    var v := Last(Split(u, ' '));
    assert Country(standort) == Some(v);
    assert ' ' !in v;
    WordBeforeDash(standort, u, t, v);
  }

  /** The equipment keywords of cell 73, tested as substrings of Untertitel (case matters;
      "Einparkhilfe " with its trailing space). */
  predicate Contains(s: string, t: string) {
    Search(s, Literal(t))
  }

  lemma ContainsOccurrence(s: string, t: string)
    ensures Contains(s, t) <==> exists i :: OccursAt(s, i, t)
  {
    SearchLiteral(s, t);
  }
}
