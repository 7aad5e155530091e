/** One search-result page turned into table rows (`extractPageCarDF`, Projekt.py lines
    97-148).  The HTML is taken as already parsed: an `article` element is the record of the
    texts its sub-elements would give (missing when the element is absent), a vehicle detail
    table is the list of its child texts. */
module Extraction {
  import opened Wrappers
  import opened Text

  /** The `ListItem_wrapper` div of a listing: the texts of its `h2`, version span, subtitle
      span, price-row div and leasing-price span. */
  datatype Wrapper = Wrapper(
    heading: Option<string>,
    version: Option<string>,
    subtitle: Option<string>,
    priceRow: Option<string>,
    leasingPrice: Option<string>)

  /** An `article` element: its wrapper div, if any, and the text of its address span. */
  datatype Article = Article(wrapper: Option<Wrapper>, address: Option<string>)

  /** A parsed page: the articles and the child texts of each vehicle detail table, both in
      document order. */
  datatype Page = Page(articles: seq<Article>, detailTables: seq<seq<string>>)

  /** A row of the listing table: Titel, Version, Untertitel, Preis, Leasing, Standort. */
  datatype Listing = Listing(
    titel: Option<string>,
    version: Option<string>,
    untertitel: Option<string>,
    preis: string,
    leasing: bool,
    standort: Option<string>)

  /** A row of the vehicle detail table, one field per child text. */
  datatype Details = Details(
    km: string,
    erstzulassung: string,
    ps: string,
    zustand: string,
    fahrzeughalter: string,
    getriebe: string,
    kraftstoff: string,
    verbrauch: string,
    emissionen: string)

  /** A row of the joined page table. */
  datatype PageRow = PageRow(listing: Listing, details: Details)

  /** Why a page cannot be extracted, with the position of the article responsible: it has no
      wrapper div, or its wrapper has neither a price row nor a leasing price.  Either one
      makes the source raise an uncaught exception. */
  datatype ExtractError = NoWrapper(article: nat) | NoPrice(article: nat)

  // ---------------------------------------------------------------------------
  // The article loop (lines 102-131).

  /** The row built from the article at position `index`.  Each optional text is copied into
      its own field.  The price is the price row's text when that element exists (Leasing
      false), otherwise the leasing price's (Leasing true). */
  function ExtractListing(a: Article, index: nat): (r: Result<Listing, ExtractError>)
    ensures r.Err? <==>
      a.wrapper.None? || (a.wrapper.value.priceRow.None? && a.wrapper.value.leasingPrice.None?)
    ensures r.Err? ==> r.error.article == index
    ensures r.Err? ==> (r.error.NoWrapper? <==> a.wrapper.None?)
    ensures r.Ok? ==>
      var w, l := a.wrapper.value, r.value;
      l.titel == w.heading && l.version == w.version && l.untertitel == w.subtitle &&
      l.standort == a.address &&
      (l.leasing <==> w.priceRow.None?) &&
      l.preis == (if w.priceRow.Some? then w.priceRow.value else w.leasingPrice.value)
  {
    match a.wrapper
    case None => Err(NoWrapper(index))
    case Some(w) =>
      if w.priceRow.Some? then
        Ok(Listing(w.heading, w.version, w.subtitle, w.priceRow.value, false, a.address))
      else if w.leasingPrice.Some? then
        Ok(Listing(w.heading, w.version, w.subtitle, w.leasingPrice.value, true, a.address))
      else
        Err(NoPrice(index))
  }

  /** The listing table of a page: one row per article, in order, or the error of the first
      article that cannot be extracted. */
  function ListingRows(articles: seq<Article>): (r: Result<seq<Listing>, ExtractError>)
    ensures r.Ok? <==> forall i :: 0 <= i < |articles| ==> ExtractListing(articles[i], i).Ok?
    ensures r.Ok? ==> (|r.value| == |articles| &&
      forall i :: 0 <= i < |articles| ==> r.value[i] == ExtractListing(articles[i], i).value)
    ensures r.Err? ==>
      var k := r.error.article;
      k < |articles| && ExtractListing(articles[k], k) == Err(r.error) &&
      forall i :: 0 <= i < k ==> ExtractListing(articles[i], i).Ok?
    decreases |articles|
  {
    if articles == [] then Ok([])
    else
      var init := DropLast(articles);
      assert forall i :: 0 <= i < |init| ==> init[i] == articles[i];
      match ListingRows(init)
      case Err(e) => Err(e)
      case Ok(ls) =>
        match ExtractListing(Last(articles), |init|)
        case Err(e) => Err(e)
        case Ok(l) => Ok(ls + [l])
  }

  /** A missing sub-element makes only its own field missing: dropping the subtitle of one
      article changes nothing but that row's Untertitel. */
  lemma MissingSubtitleOnlyThatField(a: Article, index: nat)
    requires ExtractListing(a, index).Ok?
    ensures var a' := a.(wrapper := Some(a.wrapper.value.(subtitle := None)));
      ExtractListing(a', index) == Ok(ExtractListing(a, index).value.(untertitel := None))
  {
  }

  /** The same for the address: only Standort becomes missing. */
  lemma MissingAddressOnlyThatField(a: Article, index: nat)
    requires ExtractListing(a, index).Ok?
    ensures ExtractListing(a.(address := None), index) ==
      Ok(ExtractListing(a, index).value.(standort := None))
  {
  }

  // ---------------------------------------------------------------------------
  // The detail-table loop (lines 135-143).

  /** A detail table yields a row exactly when it has at least nine children; the row takes
      the first nine, in the fixed column order.  A shorter list is skipped (the IndexError is
      swallowed). */
  function DetailRow(children: seq<string>): (r: Option<Details>)
    ensures r.Some? <==> |children| >= 9
    ensures r.Some? ==> r.value == Details(children[0], children[1], children[2], children[3],
      children[4], children[5], children[6], children[7], children[8])
  {
    if |children| < 9 then None
    else Some(Details(children[0], children[1], children[2], children[3], children[4],
      children[5], children[6], children[7], children[8]))
  }

  /** The detail table of a page: the rows of the tables that yield one, in order. */
  function DetailRows(tables: seq<seq<string>>): (r: seq<Details>)
    ensures |r| <= |tables|
    decreases |tables|
  {
    if tables == [] then []
    else
      var init := DetailRows(DropLast(tables));
      match DetailRow(Last(tables))
      case None => init
      case Some(d) => init + [d]
  }

  /** Tables are handled one by one: the rows of a concatenation are the concatenation of
      the rows, so retained rows keep their relative order. */
  lemma {:induction false} DetailRowsConcat(a: seq<seq<string>>, b: seq<seq<string>>)
    ensures DetailRows(a + b) == DetailRows(a) + DetailRows(b)
    decreases |b|
  {
    if b == [] {
      assert a + b == a;
    } else {
      DetailRowsConcat(a, DropLast(b));
      assert DropLast(a + b) == a + DropLast(b);
      assert Last(a + b) == Last(b);
    }
  }

  /** When every table has nine children or more, the i-th row comes from the i-th table. */
  lemma {:induction false} DetailRowsAllLong(tables: seq<seq<string>>)
    requires forall i :: 0 <= i < |tables| ==> |tables[i]| >= 9
    ensures |DetailRows(tables)| == |tables|
    ensures forall i :: 0 <= i < |tables| ==> DetailRows(tables)[i] == DetailRow(tables[i]).value
    decreases |tables|
  {
    if tables != [] {
      var init := DropLast(tables);
      assert forall i :: 0 <= i < |init| ==> init[i] == tables[i];
      DetailRowsAllLong(init);
      var d := DetailRow(Last(tables));
      assert d.Some?;
      assert DetailRows(tables) == DetailRows(init) + [d.value];
    }
  }

  /** Every detail row comes from some table of nine children or more. */
  lemma {:induction false} DetailRowsFromTables(tables: seq<seq<string>>, d: Details)
    requires d in DetailRows(tables)
    ensures exists i :: 0 <= i < |tables| && DetailRow(tables[i]) == Some(d)
    decreases |tables|
  {
    var init := DropLast(tables);
    var last := |tables| - 1;
    if d in DetailRows(init) {
      DetailRowsFromTables(init, d);
      var i :| 0 <= i < |init| && DetailRow(init[i]) == Some(d);
      assert tables[i] == init[i];
    } else {
      assert DetailRow(tables[last]) == Some(d);
    }
  }

  /** Tables all shorter than nine give no rows. */
  lemma {:induction false} DetailRowsAllShort(tables: seq<seq<string>>)
    requires forall i :: 0 <= i < |tables| ==> |tables[i]| < 9
    ensures DetailRows(tables) == []
    decreases |tables|
  {
    if tables != [] {
      var init := DropLast(tables);
      assert forall i :: 0 <= i < |init| ==> init[i] == tables[i];
      DetailRowsAllShort(init);
    }
  }

  /** A leasing car's extra three-entry table between two full ones is skipped: the two full
      tables give the first and second row. */
  lemma LeasingExtraTableSkipped(t1: seq<string>, extra: seq<string>, t2: seq<string>)
    requires |t1| == 9 && |extra| == 3 && |t2| == 9
    ensures DetailRows([t1, extra, t2]) == [DetailRow(t1).value, DetailRow(t2).value]
  {
    var r1 := DetailRows([t1]);
    assert DropLast([t1]) == [];
    assert r1 == [DetailRow(t1).value];
    assert DropLast([t1, extra]) == [t1];
    assert DetailRows([t1, extra]) == r1;
    assert DropLast([t1, extra, t2]) == [t1, extra];
  }

  // ---------------------------------------------------------------------------
  // The index merge (line 146).

  /** `pd.merge` on the two 0..n-1 indices: the i-th listing row is paired with the i-th
      detail row, as far as both tables reach. */
  function Join(ls: seq<Listing>, ds: seq<Details>): (r: seq<PageRow>)
    ensures |r| == if |ls| <= |ds| then |ls| else |ds|
    ensures forall i :: 0 <= i < |r| ==> r[i] == PageRow(ls[i], ds[i])
  {
    if ls == [] || ds == [] then []
    else [PageRow(ls[0], ds[0])] + Join(ls[1..], ds[1..])
  }

  /** The page table: the listing rows joined with the detail rows, or the error of the
      first article that cannot be extracted. */
  function PageRows(page: Page): Result<seq<PageRow>, ExtractError> {
    match ListingRows(page.articles)
    case Err(e) => Err(e)
    case Ok(ls) => Ok(Join(ls, DetailRows(page.detailTables)))
  }

  /** A page whose articles all extract and whose detail tables are all full gives as many rows
      as the shorter of the two lists, each article paired with the table at the same position. */
  lemma PageRowsPositional(page: Page)
    requires forall i :: 0 <= i < |page.articles| ==> ExtractListing(page.articles[i], i).Ok?
    requires forall i :: 0 <= i < |page.detailTables| ==> |page.detailTables[i]| >= 9
    ensures PageRows(page).Ok?
    ensures var n := |page.articles|; var m := |page.detailTables|;
      |PageRows(page).value| == (if n <= m then n else m)
    ensures forall i :: 0 <= i < |PageRows(page).value| ==>
      PageRows(page).value[i] ==
        PageRow(ExtractListing(page.articles[i], i).value, DetailRow(page.detailTables[i]).value)
  {
    DetailRowsAllLong(page.detailTables);
  }

  /** The page extraction as the source runs it: an article loop that appends listing rows
      (stopping at the first article that raises), a detail loop that collects each table's
      children and appends a row when there are nine or more, and the merge. */
  method ExtractPage(page: Page) returns (r: Result<seq<PageRow>, ExtractError>)
    ensures r == PageRows(page)
  {
    var articles := page.articles;
    var listings: seq<Listing> := [];
    for i := 0 to |articles|
      invariant ListingRows(articles[..i]) == Ok(listings)
    {
      assert DropLast(articles[..i + 1]) == articles[..i];
      var row := ExtractListing(articles[i], i);
      if row.Err? {
        assert ListingRows(articles[..i + 1]) == Err(row.error);
        Stuck(articles, i, row.error);
        return Err(row.error);
      }
      listings := listings + [row.value];
    }
    assert articles[..|articles|] == articles;

    var tables := page.detailTables;
    var details: seq<Details> := [];
    for i := 0 to |tables|
      invariant details == DetailRows(tables[..i])
    {
      var children: seq<string> := [];
      for j := 0 to |tables[i]|
        invariant children == tables[i][..j]
      {
        children := children + [tables[i][j]];
      }
      assert children == tables[i];
      assert DropLast(tables[..i + 1]) == tables[..i];
      var d := DetailRow(children);
      if d.Some? {
        details := details + [d.value];
      }
    }
    assert tables[..|tables|] == tables;
    r := Ok(Join(listings, details));
  }

  /** Once a prefix of the articles fails, every longer prefix fails with the same error. */
  lemma {:induction false} Stuck(articles: seq<Article>, i: nat, e: ExtractError)
    requires i < |articles| && ListingRows(articles[..i + 1]) == Err(e)
    ensures ListingRows(articles) == Err(e)
    decreases |articles| - i
  {
    if i + 1 < |articles| {
      assert DropLast(articles[..i + 2]) == articles[..i + 1];
      Stuck(articles, i + 1, e);
    } else {
      assert articles[..i + 1] == articles;
    }
  }
}
