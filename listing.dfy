/** The listing-page row mapping of `get_from_link` (lines 18-34): each table row
    of the listing becomes an article stub `{title, link, pubDate}`. */
module Listing {
  import opened Results
  import opened Links

  /** What the row's DOM query yields: the anchor's text, its `href` attribute
      (absent when the anchor has none) and the date marker's text. */
  datatype Row = Row(anchorText: string, href: Option<string>, dateText: string)

  /** An article stub; `D` is whatever the date parser returns. */
  datatype Stub<D> = Stub(title: string, link: string, pubDate: D)

  predicate HasHref(row: Row) {
    row.href.Some?
  }

  /** The stub built from one row that has an `href`. */
  function StubOf<D>(row: Row, parseDate: string -> D): (s: Stub<D>)
    requires HasHref(row)
    ensures s.title == row.anchorText && s.pubDate == parseDate(row.dateText)
    ensures s.link == Normalize(row.href.value)
  {
    Stub(row.anchorText, Normalize(row.href.value), parseDate(row.dateText))
  }

  /** Maps the rows in document order. A row without `href` makes
      `articleLink.startsWith` throw, which aborts the whole page; the failure
      carries the index of the first such row. */
  function ExtractRows<D>(rows: seq<Row>, parseDate: string -> D): (r: Result<seq<Stub<D>>, nat>)
    ensures r.Success? ==> |r.value| == |rows|
    ensures r.Failure? ==> r.error < |rows|
  {
    if rows == [] then Success([])
    else if !HasHref(rows[0]) then Failure(0)
    else
      match ExtractRows(rows[1..], parseDate)
      case Failure(i) => Failure(i + 1)
      case Success(stubs) => Success([StubOf(rows[0], parseDate)] + stubs)
  }

  /** A page is extracted exactly when every row has an `href`, and then the
      stubs are the rows' stubs, one per row, in document order. */
  lemma {:induction false} ExtractRowsSucceeds<D>(rows: seq<Row>, parseDate: string -> D)
    ensures ExtractRows(rows, parseDate).Success? <==> forall i :: 0 <= i < |rows| ==> HasHref(rows[i])
    ensures ExtractRows(rows, parseDate).Success? ==>
      forall i :: 0 <= i < |rows| ==> ExtractRows(rows, parseDate).value[i] == StubOf(rows[i], parseDate)
  {
    if rows != [] {
      ExtractRowsSucceeds(rows[1..], parseDate);
      assert forall i :: 0 < i < |rows| ==> rows[i] == rows[1..][i - 1];
    }
  }

  /** A failed page names its first row without `href`. */
  lemma {:induction false} ExtractRowsFails<D>(rows: seq<Row>, parseDate: string -> D)
    requires ExtractRows(rows, parseDate).Failure?
    ensures var k := ExtractRows(rows, parseDate).error;
      !HasHref(rows[k]) && forall i :: 0 <= i < k ==> HasHref(rows[i])
  {
    if HasHref(rows[0]) {
      ExtractRowsFails(rows[1..], parseDate);
      assert forall i :: 0 < i < |rows| ==> rows[i] == rows[1..][i - 1];
    }
  }

  /** Every stub of an extracted page carries a canonical absolute link. */
  lemma ExtractedLinksCanonical<D>(rows: seq<Row>, parseDate: string -> D)
    requires ExtractRows(rows, parseDate).Success?
    ensures forall s :: s in ExtractRows(rows, parseDate).value ==> IsCanonical(s.link)
  {
    var stubs := ExtractRows(rows, parseDate).value;
    ExtractRowsSucceeds(rows, parseDate);
    forall s | s in stubs ensures IsCanonical(s.link) {
      var i :| 0 <= i < |stubs| && stubs[i] == s;
      NormalizeIsCanonical(rows[i].href.value);
    }
  }
}
