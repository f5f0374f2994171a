/**
 * `constructEventObject` (lines 161-181) and `sendEvent` (lines 143-158): the bundles of the
 * three default selectors are zipped by index into event records, and every record, once
 * classified, is published as one `ADD` message on the `Events` topic.
 */
module Events {
  import opened Errors
  import opened ParseDom
  import opened Dom
  import opened StringUtil
  import opened Scrape

  /** `arr[i]` for a JavaScript array: `undefined` past its end. */
  function At(xs: seq<Extracted>, i: nat): (r: Option<Extracted>)
    ensures r.Some? <==> i < |xs|
    ensures r.Some? ==> r.value == xs[i]
  {
    if i < |xs| then Some(xs[i]) else None
  }

  /** The object built at lines 167-169: `Date`, `Title` and `Description`. */
  datatype EventRecord = EventRecord(date: Extracted, title: Option<Extracted>, description: Option<Extracted>)

  /** The records lines 166-170 build: one per date, with the title and the description of
      the same index, or `undefined` where those lists are shorter. */
  function Zip(times: seq<Extracted>, titles: seq<Extracted>, descriptions: seq<Extracted>): (r: seq<EventRecord>)
    ensures |r| == |times|
  {
    seq(|times|, i requires 0 <= i < |times| => EventRecord(times[i], At(titles, i), At(descriptions, i)))
  }

  /** Lines 162-164: the three lists come from the first three bundles; with fewer than
      three, reading `.events` of `undefined` throws. */
  function EventsOf(bundles: seq<Bundle>): (r: Result<seq<EventRecord>>)
    ensures r.Success? <==> |bundles| >= 3
    ensures r.Failure? ==> r.error == TypeError
    ensures r.Success? ==> |r.value| == |bundles[0].events|
  {
    if |bundles| < 3 then Failure(TypeError)
    else Success(Zip(bundles[0].events, bundles[1].events, bundles[2].events))
  }

  /** Lines 166-170, the loop building one record per date (the POST each record is sent in
      is not modelled; see `Publish`). */
  method ConstructEvents(bundles: seq<Bundle>) returns (r: Result<seq<EventRecord>>)
    ensures r == EventsOf(bundles)
  {
    if |bundles| < 3 {
      return Failure(TypeError);
    }
    var times := bundles[0].events;
    var titles := bundles[1].events;
    var descriptions := bundles[2].events;
    var records: seq<EventRecord> := [];
    for i := 0 to |times|
      invariant |records| == i
      invariant forall k :: 0 <= k < i ==> records[k] == EventRecord(times[k], At(titles, k), At(descriptions, k))
    {
      var title := if i < |titles| then Some(titles[i]) else None;
      var description := if i < |descriptions| then Some(descriptions[i]) else None;
      records := records + [EventRecord(times[i], title, description)];
    }
    assert records == Zip(times, titles, descriptions);
    r := Success(records);
  }

  /** A record after line 176 has added the category the classifier answered with. */
  datatype TaggedEvent = TaggedEvent(event: EventRecord, tag: string)

  /** The `eventMessage` of lines 144-147. */
  datatype EventMessage = EventMessage(kind: string, data: TaggedEvent)

  /** One entry of the `message` array of lines 149-151 (the payload is kept as a value
      rather than as its `JSON.stringify` text). */
  datatype KafkaRecord = KafkaRecord(topic: string, messages: EventMessage, partition: nat)

  /** `sendEvent(data)`: what it hands to `producer.send`. */
  function SendEvent(data: TaggedEvent): seq<KafkaRecord>
  {
    [KafkaRecord("Events", EventMessage("ADD", data), 0)]
  }

  /** What lines 171-178 publish for the records of one call, given the classifier's answer
      for each record: every record, tagged, through `sendEvent`. */
  function Publish(records: seq<EventRecord>, classify: EventRecord -> string): (r: seq<KafkaRecord>)
    ensures |r| == |records|
    decreases |records|
  {
    if records == [] then []
    else Publish(records[..|records| - 1], classify)
         + SendEvent(TaggedEvent(records[|records| - 1], classify(records[|records| - 1])))
  }

  // ----- properties -----

  /** The zip checks no lengths: record `i` has date `i`, and title and description `i`
      when those lists reach that far, `undefined` otherwise; extra titles or descriptions
      are ignored. */
  lemma ZipSpec(times: seq<Extracted>, titles: seq<Extracted>, descriptions: seq<Extracted>, i: nat)
    requires i < |times|
    ensures var r := Zip(times, titles, descriptions)[i];
      && r.date == times[i]
      && (r.title.Some? <==> i < |titles|) && (i < |titles| ==> r.title == Some(titles[i]))
      && (r.description.Some? <==> i < |descriptions|) && (i < |descriptions| ==> r.description == Some(descriptions[i]))
  {
  }

  /** When the three lists are of one length, the records hold them all: projecting the
      records gives the lists back. */
  lemma ZipUnzip(times: seq<Extracted>, titles: seq<Extracted>, descriptions: seq<Extracted>)
    requires |titles| == |times| && |descriptions| == |times|
    ensures var r := Zip(times, titles, descriptions);
      && seq(|r|, i requires 0 <= i < |r| => r[i].date) == times
      && seq(|r|, i requires 0 <= i < |r| => r[i].title.value) == titles
      && seq(|r|, i requires 0 <= i < |r| => r[i].description.value) == descriptions
  {
  }

  /** Every message goes to topic `Events`, partition 0, as an `ADD` of the tagged record:
      one message per record, record `i` in message `i`. */
  lemma {:induction false} PublishSpec(records: seq<EventRecord>, classify: EventRecord -> string)
    ensures var ms := Publish(records, classify);
      && |ms| == |records|
      && forall i :: 0 <= i < |ms| ==>
           ms[i] == KafkaRecord("Events", EventMessage("ADD", TaggedEvent(records[i], classify(records[i]))), 0)
    decreases |records|
  {
    if records != [] {
      var init := records[..|records| - 1];
      PublishSpec(init, classify);
      assert forall i :: 0 <= i < |init| ==> init[i] == records[i];
    }
  }

  /** With the default selectors, the dates, titles and descriptions are the bundles of
      `.date`, `.views-field-title` and `.views-field-body`, in that order. */
  lemma DefaultBundleOrder(select: string -> Result<seq<Element>>, complete: bool, deep: bool,
                           serialize: Element -> string)
    ensures var rs := ScrapeResults(UWSelector(None), select, complete, deep, serialize);
      rs.Success? ==>
        var bs := rs.value;
        && |bs| == 3 && bs[0].selector == UWDate && bs[1].selector == UWTitle && bs[2].selector == UWBody
        && EventsOf(bs).Success? && |EventsOf(bs).value| == |bs[0].events|
  {
    UWDefaultPieces();
  }

  /** A selector query parameter with fewer than two "," gives fewer than three bundles, and
      building the events then throws: lines 162-164 read `.events` of a missing bundle
      (reached from line 134, inside the promise whose rejection gives the 400 response). */
  lemma FewPiecesThrow(q: string, select: string -> Result<seq<Element>>, complete: bool, deep: bool,
                       serialize: Element -> string)
    requires q != "" && Occurrences(DollarToHash(q), ',') < 2
    requires ScrapeResults(UWSelector(Some(q)), select, complete, deep, serialize).Success?
    ensures EventsOf(ScrapeResults(UWSelector(Some(q)), select, complete, deep, serialize).value) == Failure(TypeError)
  {
    OneBundlePerPiece(UWSelector(Some(q)), select, complete, deep, serialize);
  }
}
