/** The cleaning section of Projekt.py (lines 213-411): the crawled rows become `AutoDF`, whose
    columns are rewritten in place cell by cell, then the rows lacking consumption, emissions,
    mileage or power are dropped. */
module Table {
  import opened Wrappers
  import opened Text
  import opened Patterns
  import opened Cells
  import opened Extraction

  /** The five equipment flags of cells 73 and 74. */
  datatype Equipment = Equipment(
    alufelgen: bool,
    sitzheizung: bool,
    klimaanlage: bool,
    einparkhilfe: bool,
    navigationssystem: bool)

  /** A row of `AutoDF`.  `None` is a missing value (NaN); a derived column that has not been
      added yet also reads as `None`. */
  datatype Car = Car(
    titel: Option<string>,
    version: Option<string>,
    untertitel: Option<string>,
    preis: string,
    leasing: bool,
    standort: Option<string>,
    km: Option<string>,
    erstzulassung: Option<string>,
    ps: Option<string>,
    zustand: string,
    fahrzeughalter: Option<string>,
    getriebe: string,
    kraftstoff: string,
    verbrauch: Option<string>,
    emissionen: Option<string>,
    marke: Option<string>,
    stadt: Option<string>,
    plz: Option<string>,
    land: Option<string>,
    equipment: Option<Equipment>)

  /** A crawled row as it enters `AutoDF`: every scraped text present as scraped. */
  function FromPageRow(r: PageRow): (c: Car)
    ensures c.titel == r.listing.titel && c.version == r.listing.version
    ensures c.untertitel == r.listing.untertitel && c.preis == r.listing.preis
    ensures c.leasing == r.listing.leasing && c.standort == r.listing.standort
    ensures c.km == Some(r.details.km) && c.erstzulassung == Some(r.details.erstzulassung)
    ensures c.ps == Some(r.details.ps) && c.fahrzeughalter == Some(r.details.fahrzeughalter)
    ensures c.verbrauch == Some(r.details.verbrauch) && c.emissionen == Some(r.details.emissionen)
    ensures c.zustand == r.details.zustand && c.getriebe == r.details.getriebe
    ensures c.kraftstoff == r.details.kraftstoff
    ensures c.marke.None? && c.stadt.None? && c.plz.None? && c.land.None? && c.equipment.None?
  {
    var l, d := r.listing, r.details;
    Car(l.titel, l.version, l.untertitel, l.preis, l.leasing, l.standort,
      Some(d.km), Some(d.erstzulassung), Some(d.ps), d.zustand, Some(d.fahrzeughalter),
      d.getriebe, d.kraftstoff, Some(d.verbrauch), Some(d.emissionen), None, None, None, None, None)
  }

  /** A column rule that may mark a value missing, applied to a column; a missing value stays
      missing (pandas leaves NaN alone). */
  function Then(v: Option<string>, f: string -> Option<string>): (r: Option<string>)
    ensures v.None? ==> r.None?
    ensures v.Some? ==> r == f(v.value)
  {
    match v
    case None => None
    case Some(s) => f(s)
  }

  // ---------------------------------------------------------------------------
  // The per-row effect of each cell.

  /** Cell 63: Marke from Titel. */
  function AddBrand(c: Car): Car {
    c.(marke := c.titel.Map(Brand))
  }

  /** Cells 64-67: the text rewrites of Preis, km, Fahrzeughalter, Verbrauch, Emissionen,
      Erstzulassung and PS. */
  function CleanColumns(c: Car): Car {
    c.(preis := CleanPrice(c.preis),
       km := c.km.Map(KeepDigits),
       fahrzeughalter := c.fahrzeughalter.Map(KeepDigits),
       verbrauch := c.verbrauch.Map(StripConsumptionUnits),
       emissionen := c.emissionen.Map(KeepDigits),
       erstzulassung := c.erstzulassung.Map(CleanRegistration),
       ps := c.ps.Map(CleanPower))
  }

  /** Cell 68, lines 266-271: the missing markers. */
  function MarkMissing(c: Car): Car {
    c.(verbrauch := Then(c.verbrauch, MissingIfBlankDashOrZero),
       emissionen := Then(c.emissionen, MissingIfBlankDashOrZero),
       fahrzeughalter := Then(c.fahrzeughalter, MissingIfBlankOrDash),
       erstzulassung := Then(c.erstzulassung, MissingIfBlank),
       km := Then(c.km, MissingIfBlank),
       ps := Then(c.ps, MissingIfBlank))
  }

  /** The value written by the `.loc` assignments of lines 274-275 (the number 0). */
  const Zero: string := "0"

  /** Cell 68, lines 274-275: an electric car gets 0 consumption and 0 emissions whatever it
      held; any other row is unchanged. */
  function ZeroElectric(c: Car): (r: Car)
    ensures c.kraftstoff == "Elektro" ==> r == c.(verbrauch := Some(Zero), emissionen := Some(Zero))
    ensures c.kraftstoff != "Elektro" ==> r == c
  {
    if c.kraftstoff == "Elektro" then c.(verbrauch := Some(Zero), emissionen := Some(Zero))
    else c
  }

  /** Cell 70: the decimal comma of Verbrauch becomes a point. */
  function DecimalPointColumn(c: Car): Car {
    c.(verbrauch := c.verbrauch.Map(DecimalPoint))
  }

  /** Cell 71: Stadt, PLZ and Land from Standort. */
  function SplitLocation(c: Car): Car {
    c.(stadt := c.standort.Map(City),
       plz := c.standort.Map(PostalCode),
       land := Then(c.standort, Country))
  }

  /** Cells 73 and 74: the equipment flags from Untertitel.  Each flag holds exactly when its
      keyword occurs in the subtitle (case matters; "Einparkhilfe " with its trailing space);
      without a subtitle all five are false. */
  function Flags(untertitel: Option<string>): (e: Equipment)
    ensures untertitel.None? ==> e == Equipment(false, false, false, false, false)
    ensures untertitel.Some? ==>
      var u := untertitel.value;
      (e.alufelgen <==> exists i :: OccursAt(u, i, "Alufelgen")) &&
      (e.sitzheizung <==> exists i :: OccursAt(u, i, "Sitzheizung")) &&
      (e.klimaanlage <==>
        (exists i :: OccursAt(u, i, "Klimaanlage")) || (exists i :: OccursAt(u, i, "Klimaautomatik"))) &&
      (e.einparkhilfe <==> exists i :: OccursAt(u, i, "Einparkhilfe ")) &&
      (e.navigationssystem <==> exists i :: OccursAt(u, i, "Navigationssystem"))
  {
    match untertitel
    case None => Equipment(false, false, false, false, false)
    case Some(u) =>
      ContainsOccurrence(u, "Alufelgen");
      ContainsOccurrence(u, "Sitzheizung");
      ContainsOccurrence(u, "Klimaanlage");
      ContainsOccurrence(u, "Klimaautomatik");
      ContainsOccurrence(u, "Einparkhilfe ");
      ContainsOccurrence(u, "Navigationssystem");
      Equipment(Contains(u, "Alufelgen"), Contains(u, "Sitzheizung"),
        Contains(u, "Klimaanlage") || Contains(u, "Klimaautomatik"),
        Contains(u, "Einparkhilfe "), Contains(u, "Navigationssystem"))
  }

  function AddEquipment(c: Car): Car {
    c.(equipment := Some(Flags(c.untertitel)))
  }

  /** Every per-row rewrite, in the order of the cells. */
  function Normalise(c: Car): Car {
    AddEquipment(SplitLocation(DecimalPointColumn(ZeroElectric(MarkMissing(CleanColumns(AddBrand(c)))))))
  }

  // ---------------------------------------------------------------------------
  // The row filter (cell 79).

  /** The four columns the filter requires. */
  predicate Complete(c: Car) {
    c.verbrauch.Some? && c.emissionen.Some? && c.km.Some? && c.ps.Some?
  }

  predicate HasConsumption(c: Car) { c.verbrauch.Some? }
  predicate HasEmissions(c: Car) { c.emissionen.Some? }
  predicate HasMileage(c: Car) { c.km.Some? }
  predicate HasPower(c: Car) { c.ps.Some? }

  /** `df[mask]`: the rows for which `keep` holds, in their order. */
  function Keep(rows: seq<Car>, keep: Car -> bool): (r: seq<Car>)
    ensures SubsequenceOf(r, rows)
    ensures forall c :: c in r <==> c in rows && keep(c)
    ensures forall c :: multiset(r)[c] == if keep(c) then multiset(rows)[c] else 0
    decreases |rows|
  {
    if rows == [] then []
    else
      var init := DropLast(rows);
      var kept := Keep(init, keep);
      assert rows == init + [Last(rows)];
      assert multiset(rows) == multiset(init) + multiset{Last(rows)};
      if keep(Last(rows)) then
        assert DropLast(kept + [Last(rows)]) == kept;
        assert multiset(kept + [Last(rows)]) == multiset(kept) + multiset{Last(rows)};
        kept + [Last(rows)]
      else kept
  }

  /** Lines 394-397: the four filters one after the other. */
  function DropIncomplete(rows: seq<Car>): seq<Car> {
    Keep(Keep(Keep(Keep(rows, HasConsumption), HasEmissions), HasMileage), HasPower)
  }

  /** Filtering twice is filtering once by both conditions. */
  lemma {:induction false} KeepKeep(rows: seq<Car>, p: Car -> bool, q: Car -> bool, both: Car -> bool)
    requires forall c :: both(c) == (p(c) && q(c))
    ensures Keep(Keep(rows, p), q) == Keep(rows, both)
    decreases |rows|
  {
    if rows != [] {
      KeepKeep(DropLast(rows), p, q, both);
      var kp := Keep(DropLast(rows), p);
      if p(Last(rows)) {
        assert DropLast(kp + [Last(rows)]) == kp;
      }
    }
  }

  /** The four filters together keep exactly the complete rows, in order. */
  lemma DropIncompleteIsKeepComplete(rows: seq<Car>)
    ensures DropIncomplete(rows) == Keep(rows, Complete)
  {
    var p1 := (c: Car) => HasConsumption(c) && HasEmissions(c);
    var p2 := (c: Car) => p1(c) && HasMileage(c);
    KeepKeep(rows, HasConsumption, HasEmissions, p1);
    KeepKeep(rows, p1, HasMileage, p2);
    KeepKeep(rows, p2, HasPower, Complete);
  }

  /** The surviving rows: an order-preserving subsequence in which every complete row keeps
      all its copies and no incomplete row is left. */
  lemma DropIncompleteSpec(rows: seq<Car>)
    ensures SubsequenceOf(DropIncomplete(rows), rows)
    ensures forall c :: c in DropIncomplete(rows) <==> c in rows && Complete(c)
    ensures forall c :: multiset(DropIncomplete(rows))[c] == if Complete(c) then multiset(rows)[c] else 0
    ensures |DropIncomplete(rows)| <= |rows|
  {
    DropIncompleteIsKeepComplete(rows);
    SubsequenceOfMembers(DropIncomplete(rows), rows);
  }

  /** The whole cleaning section on the crawled rows. */
  function Pipeline(raw: seq<PageRow>): seq<Car> {
    DropIncomplete(MapSeq(raw, CleanRow))
  }

  /** One crawled row after all the per-row cells. */
  function CleanRow(r: PageRow): Car {
    Normalise(FromPageRow(r))
  }

  /** A row that survives the filter comes from some input row, and it is complete. */
  lemma KeptRow(rows: seq<PageRow>, f: PageRow -> Car, c: Car)
    requires c in DropIncomplete(MapSeq(rows, f))
    ensures Complete(c)
    ensures exists i :: 0 <= i < |rows| && c == f(rows[i])
  {
    DropIncompleteSpec(MapSeq(rows, f));
  }

  // ---------------------------------------------------------------------------
  // What the cleaning does to one crawled row.

  /** Each column of a cleaned row, in terms of the scraped value: the cells' rules composed
      column by column.  Dafny's `Option.Map` is pandas' "NaN stays NaN". */
  lemma CleanedColumns(r: PageRow)
    ensures var c, l, d := Normalise(FromPageRow(r)), r.listing, r.details;
      c.titel == l.titel && c.version == l.version && c.untertitel == l.untertitel &&
      c.preis == CleanPrice(l.preis) && c.leasing == l.leasing && c.standort == l.standort &&
      c.km == MissingIfBlank(KeepDigits(d.km)) &&
      c.erstzulassung == MissingIfBlank(CleanRegistration(d.erstzulassung)) &&
      c.ps == MissingIfBlank(CleanPower(d.ps)) &&
      c.fahrzeughalter == MissingIfBlankOrDash(KeepDigits(d.fahrzeughalter)) &&
      c.verbrauch == (if d.kraftstoff == "Elektro" then Some(Zero)
                      else MissingIfBlankDashOrZero(StripConsumptionUnits(d.verbrauch)).Map(DecimalPoint)) &&
      c.emissionen == (if d.kraftstoff == "Elektro" then Some(Zero)
                       else MissingIfBlankDashOrZero(KeepDigits(d.emissionen))) &&
      c.zustand == d.zustand && c.getriebe == d.getriebe && c.kraftstoff == d.kraftstoff &&
      c.marke == l.titel.Map(Brand) && c.stadt == l.standort.Map(City) &&
      c.plz == l.standort.Map(PostalCode) && c.land == Then(l.standort, Country) &&
      c.equipment == Some(Flags(l.untertitel))
  {
    assert DecimalPoint(Zero) == Zero;
  }

  /** km, PS and Erstzulassung become missing exactly when their digit text is empty. */
  lemma BlankMeansMissing(r: PageRow)
    ensures var c := Normalise(FromPageRow(r));
      (c.km.None? <==> KeepDigits(r.details.km) == []) &&
      (c.ps.None? <==> CleanPower(r.details.ps) == []) &&
      (c.erstzulassung.None? <==> CleanRegistration(r.details.erstzulassung) == []) &&
      (c.km.Some? ==> c.km.value == KeepDigits(r.details.km)) &&
      (c.ps.Some? ==> c.ps.value == CleanPower(r.details.ps)) &&
      (c.erstzulassung.Some? ==> c.erstzulassung.value == CleanRegistration(r.details.erstzulassung))
  {
    CleanedColumns(r);
  }

  /** After the digit strip a Fahrzeughalter value holds no '-', so the '-' marker never
      applies to it: it is missing exactly when it has no digits. */
  lemma OwnersMissingOnlyWhenBlank(r: PageRow)
    ensures var c := Normalise(FromPageRow(r));
      (c.fahrzeughalter.None? <==> KeepDigits(r.details.fahrzeughalter) == []) &&
      (c.fahrzeughalter.Some? ==> c.fahrzeughalter.value == KeepDigits(r.details.fahrzeughalter))
  {
    CleanedColumns(r);
  }

  /** An electric car ends with consumption and emissions 0, whatever was scraped. */
  lemma ElectricGetsZero(r: PageRow)
    requires r.details.kraftstoff == "Elektro"
    ensures Normalise(FromPageRow(r)).verbrauch == Some("0")
    ensures Normalise(FromPageRow(r)).emissionen == Some("0")
  {
    CleanedColumns(r);
  }

  /** Any other car keeps its marked consumption: missing when the text left after deleting
      the units is empty or holds a '-' or a '0', otherwise that text with '.' for ','. */
  lemma ConsumptionOfOtherCars(r: PageRow)
    requires r.details.kraftstoff != "Elektro"
    ensures var v, c := StripConsumptionUnits(r.details.verbrauch), Normalise(FromPageRow(r));
      (c.verbrauch.None? <==> v == [] || '-' in v || '0' in v) &&
      (c.verbrauch.Some? ==> c.verbrauch.value == DecimalPoint(v))
  {
    CleanedColumns(r);
  }

  /** Emissions of any other car: missing when they have no digits or contain the digit 0. */
  lemma EmissionsOfOtherCars(r: PageRow)
    requires r.details.kraftstoff != "Elektro"
    ensures var e, c := KeepDigits(r.details.emissionen), Normalise(FromPageRow(r));
      (c.emissionen.None? <==> e == [] || '0' in e) &&
      (c.emissionen.Some? ==> c.emissionen.value == e)
  {
    CleanedColumns(r);
  }

  /** A scraped emission of "120 g/km" is marked missing, because of its digit 0. */
  lemma EmissionWithZeroDigitIsMissing(r: PageRow)
    requires r.details.kraftstoff != "Elektro" && r.details.emissionen == "120 g/km"
    ensures Normalise(FromPageRow(r)).emissionen.None?
  {
    EmissionsOfOtherCars(r);
    EmissionDigits();
    assert "120"[2] == '0';
  }

  lemma EmissionDigits()
    ensures KeepDigits("120 g/km") == "120"
  {
    assert "120 g/km" == "" + "120" + " g/km";
    DigitsBetween("", "120", " g/km");
  }

  /** A sale price followed by a leasing rate keeps only the sale price's digits. */
  lemma PriceExample()
    ensures CleanPrice("€ 12.345,- 189,- mtl.") == "12345"
  {
    assert "€ 12.345,- 189,- mtl." == "€ 12.345" + ",- 189,- mtl.";
    CleanSalePrice("€ 12.345", ",- 189,- mtl.");
    PriceDigits();
  }

  /** A one-line price whose first ",-" follows the sale price `a`. */
  lemma CleanSalePrice(a: string, b: string)
    requires '\n' !in a + b && ',' !in a && ",-" <= b
    ensures CleanPrice(a + b) == KeepDigits(a)
  {
    BeforeFirstOccurrence(a, ",-", b);
  }

  lemma PriceDigits()
    ensures KeepDigits("€ 12.345") == "12345"
  {
    assert "€ 12.345" == "€ " + "12" + "." + "345";
    TwoDigitRuns("€ ", "12", ".", "345");
  }

  /** The digits of a text with two runs of digits. */
  lemma TwoDigitRuns(a: string, d: string, m: string, e: string)
    requires forall i :: 0 <= i < |a| ==> !IsDigit(a[i])
    requires forall i :: 0 <= i < |m| ==> !IsDigit(m[i])
    requires AllDigits(d) && AllDigits(e)
    ensures KeepDigits(a + d + m + e) == d + e
  {
    KeepDigitsConcat(a + d + m, e);
    DigitsBetween(a, d, m);
    KeepDigitsOfDigits(e);
  }

  /** The first occurrence of `p` when `a` holds no first character of `p` and `b` starts
      with `p`. */
  lemma BeforeFirstOccurrence(a: string, p: string, b: string)
    requires |p| > 0 && p[0] !in a && p <= b
    ensures BeforeFirst(a + b, p) == a
  {
    var s := a + b;
    assert s[|a|..] == b;
    assert BeforeFirst(s, p) == s[..|a|];
  }

  /** A car that is not electric and whose consumption is blank is dropped, never given a
      zero. */
  lemma BlankConsumptionDropped(raw: seq<PageRow>, i: nat)
    requires i < |raw| && raw[i].details.kraftstoff != "Elektro"
    requires StripConsumptionUnits(raw[i].details.verbrauch) == []
    ensures CleanRow(raw[i]) !in Pipeline(raw)
  {
    ConsumptionOfOtherCars(raw[i]);
    if CleanRow(raw[i]) in Pipeline(raw) {
      KeptRow(raw, CleanRow, CleanRow(raw[i]));
      assert false;
    }
  }

  /** The equipment flags of every cleaned row are the substring tests on its subtitle. */
  lemma EquipmentFromSubtitle(r: PageRow)
    ensures Normalise(FromPageRow(r)).equipment == Some(Flags(r.listing.untertitel))
  {
    CleanedColumns(r);
  }

  /** The derived location columns of a typical location text. */
  lemma LocationExample()
    ensures City("DE-70173 Stuttgart") == "Stuttgart"
    ensures PostalCode("DE-70173 Stuttgart") == "70173"
    ensures Country("DE-70173 Stuttgart") == Some("DE")
  {
    CityExample();
    PostalCodeExample();
    CountryExample();
  }

  lemma CityExample()
    ensures City("DE-70173 Stuttgart") == "Stuttgart"
  {
    assert "DE-70173 Stuttgart" == "DE-70173" + " " + "Stuttgart";
    SplitTwo("DE-70173", ' ', "Stuttgart");
  }

  lemma PostalCodeExample()
    ensures PostalCode("DE-70173 Stuttgart") == "70173"
  {
    assert "DE-70173 Stuttgart" == "DE-" + "70173" + " Stuttgart";
    DigitsBetween("DE-", "70173", " Stuttgart");
  }

  /** The digits of a text whose only digits form one run. */
  lemma DigitsBetween(a: string, d: string, b: string)
    requires forall i :: 0 <= i < |a| ==> !IsDigit(a[i])
    requires forall i :: 0 <= i < |b| ==> !IsDigit(b[i])
    requires AllDigits(d)
    ensures KeepDigits(a + d + b) == d
  {
    KeepDigitsConcat(a + d, b);
    KeepDigitsConcat(a, d);
    KeepDigitsOfNonDigits(a);
    KeepDigitsOfDigits(d);
    KeepDigitsOfNonDigits(b);
  }

  lemma CountryExample()
    ensures Country("DE-70173 Stuttgart") == Some("DE")
  {
    assert "DE-70173 Stuttgart" == "DE" + "-" + "70173 Stuttgart";
    CountryOfOneDash("DE", "70173 Stuttgart");
  }

  /** With a single '-', the country is the word in front of it. */
  lemma CountryOfOneDash(a: string, b: string)
    requires '-' !in a && '-' !in b && ' ' !in a
    ensures Country(a + "-" + b) == Some(a)
  {
    SplitTwo(a, '-', b);
    SplitWithoutSeparator(a, ' ');
  }

  /** Splitting `a + [c] + b` where only the given occurrence is a separator. */
  lemma SplitTwo(a: string, c: char, b: string)
    requires c !in a && c !in b
    ensures Split(a + [c] + b, c) == [a, b]
  {
    SplitWithoutSeparator(a, c);
    SplitAppend(a + [c], b, c);
    assert DropLast(a + [c]) == a;
  }

  /** Appending a text without the separator extends the last part. */
  lemma {:induction false} SplitAppend(s: string, t: string, c: char)
    requires c !in t && s != [] && Last(s) == c
    ensures Split(s + t, c) == Split(DropLast(s), c) + [t]
    decreases |t|
  {
    if t == [] {
      assert s + t == s;
    } else {
      SplitAppend(s, DropLast(t), c);
      assert DropLast(s + t) == s + DropLast(t);
      assert Last(s + t) == Last(t);
      assert DropLast(t) + [Last(t)] == t;
    }
  }

  // ---------------------------------------------------------------------------
  // The surviving rows (cell 79) and the integer conversions of cell 80.

  /** The largest value of numpy's default integer type, int64. */
  const Int64Max: nat := 0x7FFF_FFFF_FFFF_FFFF

  /** `astype('int')` on one digit text of these columns: defined when there is at least one
      digit (an empty text raises ValueError) and the value fits int64 (a larger one raises
      OverflowError). */
  function IntValue(s: string): (r: Option<nat>)
    ensures r.Some? <==> s != [] && AllDigits(s) && DigitsValue(s) <= Int64Max
    ensures r.Some? ==> r.value <= Int64Max
  {
    if s != [] && AllDigits(s) && DigitsValue(s) <= Int64Max then Some(DigitsValue(s)) else None
  }

  /** Converting back what `str` wrote for an int64 gives the number again. */
  lemma IntValueOfNatToString(n: nat)
    requires n <= Int64Max
    ensures IntValue(NatToString(n)) == Some(n)
  {
    DigitsValueOfNatToString(n);
  }

  /** Up to 18 digits always fit int64, whatever the digits are. */
  lemma ShortDigitsConvert(s: string)
    requires s != [] && AllDigits(s) && |s| <= 18
    ensures IntValue(s).Some?
  {
    DigitsValueBound(s);
    Pow10Monotone(|s|, 18);
    Pow10Sum(6, 6);
    Pow10Sum(12, 6);
    assert Pow10(6) == 1_000_000;
  }

  /** The numeric columns of a cleaned row, where present, are what `astype` needs: digit
      texts (non-empty for km, PS and Emissionen), and a consumption without a decimal
      comma. */
  predicate NumericShape(c: Car) {
    (c.km.Some? ==> c.km.value != [] && AllDigits(c.km.value)) &&
    (c.ps.Some? ==> c.ps.value != [] && AllDigits(c.ps.value)) &&
    (c.emissionen.Some? ==> c.emissionen.value != [] && AllDigits(c.emissionen.value)) &&
    (c.verbrauch.Some? ==> ',' !in c.verbrauch.value) &&
    AllDigits(c.preis)
  }

  lemma CleanedRowShape(r: PageRow)
    ensures NumericShape(CleanRow(r))
  {
    CleanedColumns(r);
    var c, d := CleanRow(r), r.details;
    assert c.km.Some? ==> c.km.value != [] && AllDigits(c.km.value);
    assert c.ps.Some? ==> c.ps.value != [] && AllDigits(c.ps.value);
    assert AllDigits(c.preis);
    if d.kraftstoff == "Elektro" {
      assert c.verbrauch == Some(Zero) && c.emissionen == Some(Zero);
    } else {
      assert c.emissionen.Some? ==> c.emissionen.value != [] && AllDigits(c.emissionen.value);
      assert c.verbrauch.Some? ==> ',' !in c.verbrauch.value;
    }
  }

  /** Every surviving row is complete and has the numeric shape. */
  lemma SurvivorsShape(raw: seq<PageRow>)
    ensures forall c :: c in Pipeline(raw) ==> Complete(c) && NumericShape(c)
  {
    forall c | c in Pipeline(raw) ensures Complete(c) && NumericShape(c) {
      KeptRow(raw, CleanRow, c);
      var i :| 0 <= i < |raw| && c == CleanRow(raw[i]);
      CleanedRowShape(raw[i]);
    }
  }

  /** Every surviving row has consumption, emissions, mileage and power; mileage, power and
      emissions are non-empty digit texts, so their conversion can only fail by overflowing
      int64; consumption has no decimal comma left. */
  lemma SurvivorsAreComplete(raw: seq<PageRow>)
    ensures forall c :: c in Pipeline(raw) ==> Complete(c)
    ensures forall c :: c in Pipeline(raw) ==>
      c.km.value != [] && AllDigits(c.km.value) &&
      c.ps.value != [] && AllDigits(c.ps.value) &&
      c.emissionen.value != [] && AllDigits(c.emissionen.value) &&
      ',' !in c.verbrauch.value
    ensures forall c :: c in Pipeline(raw) ==>
      (IntValue(c.km.value).Some? <==> DigitsValue(c.km.value) <= Int64Max) &&
      (IntValue(c.ps.value).Some? <==> DigitsValue(c.ps.value) <= Int64Max) &&
      (IntValue(c.emissionen.value).Some? <==> DigitsValue(c.emissionen.value) <= Int64Max)
  {
    SurvivorsShape(raw);
  }

  /** Line 406: Preis is never filtered, so `astype('int')` succeeds on the surviving rows
      exactly when none of them has an empty cleaned price or one beyond int64. */
  lemma PriceConversion(raw: seq<PageRow>)
    ensures forall c :: c in Pipeline(raw) ==> AllDigits(c.preis)
    ensures (forall c :: c in Pipeline(raw) ==> IntValue(c.preis).Some?) <==>
      (forall c :: c in Pipeline(raw) ==> c.preis != [] && DigitsValue(c.preis) <= Int64Max)
  {
    SurvivorsShape(raw);
    DigitPricesConvert(Pipeline(raw));
  }

  lemma DigitPricesConvert(rows: seq<Car>)
    requires forall c :: c in rows ==> AllDigits(c.preis)
    ensures (forall c :: c in rows ==> IntValue(c.preis).Some?) <==>
      (forall c :: c in rows ==> c.preis != [] && DigitsValue(c.preis) <= Int64Max)
  {
  }

  // ---------------------------------------------------------------------------
  // `AutoDF`, rewritten in place.

  /** The data frame of the cleaning section. */
  class CarTable {
    var rows: seq<Car>

    /** `AutoDF = AutoDFraw`. */
    constructor (raw: seq<PageRow>)
      ensures rows == MapSeq(raw, FromPageRow)
    {
      rows := MapSeq(raw, FromPageRow);
    }

    method AddBrandColumn()
      modifies this
      ensures rows == MapSeq(old(rows), AddBrand)
    {
      rows := MapSeq(rows, AddBrand);
    }

    method CleanTextColumns()
      modifies this
      ensures rows == MapSeq(old(rows), CleanColumns)
    {
      rows := MapSeq(rows, CleanColumns);
    }

    method MarkMissingValues()
      modifies this
      ensures rows == MapSeq(old(rows), MarkMissing)
    {
      rows := MapSeq(rows, MarkMissing);
    }

    method ZeroElectricCars()
      modifies this
      ensures rows == MapSeq(old(rows), ZeroElectric)
    {
      rows := MapSeq(rows, ZeroElectric);
    }

    method UseDecimalPoint()
      modifies this
      ensures rows == MapSeq(old(rows), DecimalPointColumn)
    {
      rows := MapSeq(rows, DecimalPointColumn);
    }

    method AddLocationColumns()
      modifies this
      ensures rows == MapSeq(old(rows), SplitLocation)
    {
      rows := MapSeq(rows, SplitLocation);
    }

    method AddEquipmentColumns()
      modifies this
      ensures rows == MapSeq(old(rows), AddEquipment)
    {
      rows := MapSeq(rows, AddEquipment);
    }

    method DropIncompleteRows()
      modifies this
      ensures rows == DropIncomplete(old(rows))
    {
      rows := Keep(rows, HasConsumption);
      rows := Keep(rows, HasEmissions);
      rows := Keep(rows, HasMileage);
      rows := Keep(rows, HasPower);
    }

    /** The cells in their order. */
    method Clean()
      modifies this
      ensures rows == DropIncomplete(MapSeq(old(rows), Normalise))
    {
      ghost var start := rows;
      AddBrandColumn();
      CleanTextColumns();
      MarkMissingValues();
      ZeroElectricCars();
      UseDecimalPoint();
      AddLocationColumns();
      AddEquipmentColumns();
      assert rows == MapSeq(start, Normalise);
      DropIncompleteRows();
    }
  }

  /** The cleaning section from the crawled rows to the filtered table. */
  method CleanCrawl(raw: seq<PageRow>) returns (cleaned: seq<Car>)
    ensures cleaned == Pipeline(raw)
  {
    var table := new CarTable(raw);
    table.Clean();
    cleaned := table.rows;
    assert MapSeq(MapSeq(raw, FromPageRow), Normalise) == MapSeq(raw, CleanRow);
  }
}
