/**
 * The request side of the two scraping handlers that the extraction engine serves: the
 * selector query parameter (lines 100 and 119-124) and the split of the selector string into
 * one result bundle per comma-separated piece (lines 189-193).
 */
module Scrape {
  import opened Errors
  import opened Dom
  import opened StringUtil
  import opened ParseDom

  /** `req.query.x || default`: a missing or empty query parameter gives the default. */
  function OrDefault(q: Option<string>, default: string): (r: string)
    ensures q.Some? && q.value != "" ==> r == q.value
    ensures q.None? || q.value == "" ==> r == default
  {
    if q.Some? && q.value != "" then q.value else default
  }

  /** `.replace(/\$/g, '#')`: "$" stands for "#" in selectors passed in a URL. */
  function DollarToHash(s: string): (r: string)
    ensures |r| == |s| && '$' !in r
    ensures forall i :: 0 <= i < |s| ==> r[i] == if s[i] == '$' then '#' else s[i]
  {
    ReplaceAllSpec(s, '$', '#');
    ReplaceAll(s, '$', '#')
  }

  /** A selector without "$" is left as it is. */
  lemma DollarToHashIdentity(s: string)
    requires '$' !in s
    ensures DollarToHash(s) == s
  {
  }

  /** Line 100: the selector of `scrapePage`, `body` when none is given. */
  function PageSelector(q: Option<string>): (r: string)
    ensures '$' !in r
  {
    DollarToHash(OrDefault(q, "body"))
  }

  /** Lines 121-123, the three default selectors (written with their common prefix). */
  const UWRow := ".uw-site-main--content" + " .views-row"
  const UWDate := UWRow + " .date"
  const UWTitle := UWRow + " > .views-field-title"
  const UWBody := UWRow + " > .views-field-body"

  /** Lines 120-123: the default selector of `scrapeUWFeds`, three selectors joined by ",". */
  const UWDefault := UWDate + "," + UWTitle + "," + UWBody

  /** Lines 119-124: the selector of `scrapeUWFeds`. */
  function UWSelector(q: Option<string>): (r: string)
    ensures '$' !in r
  {
    DollarToHash(OrDefault(q, UWDefault))
  }

  /** One element of the array `scrapeHelper` resolves to (line 192). */
  datatype Bundle = Bundle(selector: string, count: nat, events: seq<Extracted>)

  /** Lines 189-193 once the page is fetched: `pageSelector.split(',')`, then `parseDOM` on
      every piece. `select` is the selector engine on the fetched document; it may reject a
      piece it cannot parse, which aborts the whole call. */
  function ScrapeResults(pageSelector: string, select: string -> Result<seq<Element>>,
                         complete: bool, deep: bool, serialize: Element -> string): (r: Result<seq<Bundle>>)
    ensures r.Success? ==> |r.value| == |Split(pageSelector, ',')|
    ensures r.Success? ==> forall i :: 0 <= i < |r.value| ==> r.value[i].selector == Split(pageSelector, ',')[i]
  {
    MapResult(Split(pageSelector, ','), BundleCallback(select, complete, deep, serialize))
  }

  /** The bundle of one selector piece (lines 190-191). */
  function BundleOf(piece: string, select: string -> Result<seq<Element>>,
                    complete: bool, deep: bool, serialize: Element -> string): (r: Result<Bundle>)
    ensures r.Success? ==> r.value.selector == piece && r.value.count == |r.value.events|
  {
    match select(piece)
    case Failure(err) => Failure(err)
    case Success(matched) =>
      match ParseDOM(matched, complete, deep, serialize)
      case Failure(err) => Failure(err)
      case Success(events) => Success(Bundle(piece, |events|, events))
  }

  /** The `.map` callback of line 190 with the document, the mode flags and the serialiser
      bound. */
  function BundleCallback(select: string -> Result<seq<Element>>, complete: bool, deep: bool,
                          serialize: Element -> string): string -> Result<Bundle>
  {
    piece => BundleOf(piece, select, complete, deep, serialize)
  }

  // ----- properties -----

  /** The selector parameter never contains "$": every "$" became "#", and every other
      character stays, so a missing or empty parameter gives "body". */
  lemma PageSelectorSpec(q: Option<string>)
    ensures '$' !in PageSelector(q)
    ensures q.None? || q.value == "" ==> PageSelector(q) == "body"
    ensures q.Some? && q.value != "" ==>
      (|PageSelector(q)| == |q.value| &&
       forall i :: 0 <= i < |q.value| ==> PageSelector(q)[i] == if q.value[i] == '$' then '#' else q.value[i])
  {
    var s := OrDefault(q, "body");
    if s == "body" {
      assert '$' !in s;
      DollarToHashIdentity(s);
    }
  }

  /** No default selector contains "," or "$". */
  lemma UWPlain()
    ensures ',' !in UWDate && ',' !in UWTitle && ',' !in UWBody
    ensures '$' !in UWDefault
  {
    UWRowPlain();
    assert ',' !in " .date" && '$' !in " .date";
    assert ',' !in " > .views-field-title" && '$' !in " > .views-field-title";
    assert ',' !in " > .views-field-body" && '$' !in " > .views-field-body";
  }

  lemma UWRowPlain()
    ensures ',' !in UWRow && '$' !in UWRow
  {
    assert ',' !in ".uw-site-main--content" && '$' !in ".uw-site-main--content";
    assert ',' !in " .views-row" && '$' !in " .views-row";
  }

  /** The selector parameter of `scrapeUWFeds` never contains "$": a missing or empty
      parameter gives the three default selectors unchanged, and any other parameter is kept
      with every "$" turned into "#" and every other character in place. */
  lemma UWSelectorSpec(q: Option<string>)
    ensures '$' !in UWSelector(q)
    ensures q.None? || q.value == "" ==> UWSelector(q) == UWDefault
    ensures q.Some? && q.value != "" ==>
      (|UWSelector(q)| == |q.value| &&
       forall i :: 0 <= i < |q.value| ==> UWSelector(q)[i] == if q.value[i] == '$' then '#' else q.value[i])
  {
    if q.None? || q.value == "" {
      UWPlain();
      DollarToHashIdentity(UWDefault);
    }
  }

  /** The default of `scrapeUWFeds` contains no "$" and splits into its three selectors:
      dates, titles and descriptions, in that order. */
  lemma UWDefaultPieces()
    ensures UWSelector(None) == UWDefault
    ensures Split(UWSelector(None), ',') == [UWDate, UWTitle, UWBody]
  {
    UWPlain();
    DollarToHashIdentity(UWDefault);
    UWDefaultJoin();
    SplitJoin([UWDate, UWTitle, UWBody], ',');
  }

  lemma UWDefaultJoin()
    ensures Join([UWDate, UWTitle, UWBody], ',') == UWDefault
  {
    var ps := [UWDate, UWTitle, UWBody];
    assert Join(ps[2..], ',') == UWBody;
    assert Join(ps[1..], ',') == UWTitle + "," + UWBody;
  }

  /** One bundle per selector piece, in order, duplicates kept: bundle `i` carries piece `i`
      of the split, the results of `parseDOM` for it, and their number. */
  lemma OneBundlePerPiece(pageSelector: string, select: string -> Result<seq<Element>>,
                          complete: bool, deep: bool, serialize: Element -> string)
    requires ScrapeResults(pageSelector, select, complete, deep, serialize).Success?
    ensures var bs := ScrapeResults(pageSelector, select, complete, deep, serialize).value;
      var pieces := Split(pageSelector, ',');
      && |bs| == |pieces| == Occurrences(pageSelector, ',') + 1
      && forall i :: 0 <= i < |bs| ==>
           && bs[i].selector == pieces[i]
           && select(pieces[i]).Success?
           && ParseDOM(select(pieces[i]).value, complete, deep, serialize) == Success(bs[i].events)
           && bs[i].count == |bs[i].events|
  {
    SplitCount(pageSelector, ',');
  }

  /** The selectors of the bundles, joined back with ",", are the selector string. */
  lemma SelectorsRoundTrip(pageSelector: string, select: string -> Result<seq<Element>>,
                           complete: bool, deep: bool, serialize: Element -> string)
    requires ScrapeResults(pageSelector, select, complete, deep, serialize).Success?
    ensures var bs := ScrapeResults(pageSelector, select, complete, deep, serialize).value;
      Join(seq(|bs|, i requires 0 <= i < |bs| => bs[i].selector), ',') == pageSelector
  {
    var bs := ScrapeResults(pageSelector, select, complete, deep, serialize).value;
    var names := seq(|bs|, i requires 0 <= i < |bs| => bs[i].selector);
    assert names == Split(pageSelector, ',');
    JoinSplit(pageSelector, ',');
  }

  /** A piece the selector engine rejects, or a deep traversal that throws, fails the call. */
  lemma FailurePropagates(pageSelector: string, select: string -> Result<seq<Element>>,
                          complete: bool, deep: bool, serialize: Element -> string, i: nat)
    requires i < |Split(pageSelector, ',')|
    requires BundleOf(Split(pageSelector, ',')[i], select, complete, deep, serialize).Failure?
    ensures ScrapeResults(pageSelector, select, complete, deep, serialize).Failure?
  {
  }
}
