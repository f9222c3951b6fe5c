/** The numbering rules every A4 page must keep (tests/a4-pages.rules.test.mjs, first structure
    test): each page's nav-meta label gives a topic, a page index and a page total; the pages of
    one topic share the total, never repeat an index and together cover 1..total. The check
    stops at the first violation, as the assertions do. */
module Numbering {
  import opened Results

  /** What the check reads from one page: its file name and its parsed nav-meta label. */
  datatype PageRecord = PageRecord(file: string, topic: string, pageIndex: nat, pageTotal: nat)

  datatype NumberingError =
    | EmptyTopic(file: string)
    | BadIndex(file: string)
    | BadTotal(file: string)
    | IndexAfterTotal(file: string)
    | TotalMismatch(file: string, topic: string)
    | DuplicateIndex(file: string, topic: string, index: nat, firstFile: string)
    | MissingIndex(topic: string, index: nat, total: nat)

  /** One value of the `topicToPages` map: the topic's total and its pages by index. */
  datatype TopicInfo = TopicInfo(total: nat, pages: map<nat, string>)

  /** The `topicToPages` map; `order` is its insertion order, which `entries()` follows. */
  datatype Tally = Tally(order: seq<string>, info: map<string, TopicInfo>)

  datatype Scan = Stopped(error: NumberingError) | Running(tally: Tally)

  // ----- the rules, stated over the whole list of pages -------------------------------------

  predicate WellFormed(r: PageRecord) {
    r.topic != [] && 1 <= r.pageIndex <= r.pageTotal
  }

  predicate AllWellFormed(recs: seq<PageRecord>) {
    forall j :: 0 <= j < |recs| ==> WellFormed(recs[j])
  }

  predicate TotalsAgree(recs: seq<PageRecord>) {
    forall i, j :: 0 <= i < |recs| && 0 <= j < |recs| && recs[i].topic == recs[j].topic ==>
      recs[i].pageTotal == recs[j].pageTotal
  }

  predicate IndicesDistinct(recs: seq<PageRecord>) {
    forall i, j :: 0 <= i < j < |recs| && recs[i].topic == recs[j].topic ==>
      recs[i].pageIndex != recs[j].pageIndex
  }

  predicate HasTopic(recs: seq<PageRecord>, topic: string) {
    exists j :: 0 <= j < |recs| && recs[j].topic == topic
  }

  predicate HasPage(recs: seq<PageRecord>, topic: string, k: nat) {
    exists j :: 0 <= j < |recs| && recs[j].topic == topic && recs[j].pageIndex == k
  }

  /** Every index from 1 to a topic's total is used by some page of that topic. */
  predicate Complete(recs: seq<PageRecord>) {
    forall i, k :: 0 <= i < |recs| && 1 <= k <= recs[i].pageTotal ==> HasPage(recs, recs[i].topic, k)
  }

  /** What the per-page loop accepts. */
  predicate ScanValid(recs: seq<PageRecord>) {
    AllWellFormed(recs) && TotalsAgree(recs) && IndicesDistinct(recs)
  }

  predicate NumberingValid(recs: seq<PageRecord>) {
    ScanValid(recs) && Complete(recs)
  }

  // ----- the check as the test performs it ----------------------------------------------------

  /** The four assertions on one label: non-empty topic, positive index, positive total,
      index not beyond the total. */
  function CheckRecord(r: PageRecord): (o: Outcome<NumberingError>)
    ensures o.Pass? <==> WellFormed(r)
  {
    if r.topic == [] then Fail(EmptyTopic(r.file))
    else if r.pageIndex == 0 then Fail(BadIndex(r.file))
    else if r.pageTotal == 0 then Fail(BadTotal(r.file))
    else if r.pageIndex > r.pageTotal then Fail(IndexAfterTotal(r.file))
    else Pass
  }

  /** Entering one page into `topicToPages`: a new topic takes the page's total; the totals must
      agree and the index must be new to the topic. */
  function Admit(t: Tally, r: PageRecord): Scan {
    var t1 := if r.topic in t.info then t
              else Tally(t.order + [r.topic], t.info[r.topic := TopicInfo(r.pageTotal, map[])]);
    var info := t1.info[r.topic];
    if info.total != r.pageTotal then Stopped(TotalMismatch(r.file, r.topic))
    else if r.pageIndex in info.pages then
      Stopped(DuplicateIndex(r.file, r.topic, r.pageIndex, info.pages[r.pageIndex]))
    else Running(Tally(t1.order, t1.info[r.topic := TopicInfo(info.total, info.pages[r.pageIndex := r.file])]))
  }

  /** The per-page loop over the pages in order. */
  function ScanRecords(recs: seq<PageRecord>): Scan
    decreases |recs|
  {
    if recs == [] then Running(Tally([], map[]))
    else
      match ScanRecords(recs[..|recs| - 1])
      case Stopped(e) => Stopped(e)
      case Running(t) =>
        var r := recs[|recs| - 1];
        match CheckRecord(r)
        case Fail(e) => Stopped(e)
        case Pass => Admit(t, r)
  }

  /** The smallest index in `from..total` that has no page. */
  function FirstMissing(pages: map<nat, string>, from: nat, total: nat): (r: Option<nat>)
    ensures r.Some? ==> from <= r.value <= total && r.value !in pages
    ensures r.Some? ==> forall k :: from <= k < r.value ==> k in pages
    ensures r.None? ==> forall k :: from <= k <= total ==> k in pages
    decreases total + 1 - from
  {
    if from > total then None
    else if from !in pages then Some(from)
    else FirstMissing(pages, from + 1, total)
  }

  /** The coverage loop: topics in insertion order, indices 1..total in turn. */
  function MissingPage(order: seq<string>, info: map<string, TopicInfo>): (r: Option<NumberingError>)
    requires forall t :: t in order ==> t in info
    ensures r.None? <==> forall i, k :: 0 <= i < |order| && 1 <= k <= info[order[i]].total ==> k in info[order[i]].pages
  {
    if order == [] then None
    else
      var e := info[order[0]];
      match FirstMissing(e.pages, 1, e.total)
      case Some(k) => Some(MissingIndex(order[0], k, e.total))
      case None =>
        var rest := MissingPage(order[1..], info);
        assert forall i :: 1 <= i < |order| ==> order[i] == order[1..][i - 1];
        rest
  }

  /** The whole check: the per-page loop, then the coverage loop. It passes exactly when the
      pages keep every numbering rule. */
  function CheckNumbering(recs: seq<PageRecord>): (o: Outcome<NumberingError>)
    ensures o.Pass? <==> NumberingValid(recs)
  {
    ScanRecordsCorrect(recs);
    match ScanRecords(recs)
    case Stopped(e) => Fail(e)
    case Running(t) =>
      ScanKeepsOrder(recs);
      CoverageCorrect(recs, t);
      match MissingPage(t.order, t.info)
      case Some(e) => Fail(e)
      case None => Pass
  }

  // ----- correctness --------------------------------------------------------------------------

  /** The map's topics are exactly those listed in its insertion order. */
  predicate OrderMatches(t: Tally) {
    && (forall topic :: topic in t.order ==> topic in t.info)
    && (forall topic :: topic in t.info ==> topic in t.order)
  }

  lemma {:induction false} ScanKeepsOrder(recs: seq<PageRecord>)
    ensures ScanRecords(recs).Running? ==> OrderMatches(ScanRecords(recs).tally)
    decreases |recs|
  {
    if recs != [] {
      ScanKeepsOrder(recs[..|recs| - 1]);
    }
  }

  /** Every page of the prefix is entered in the map, under its topic's total. */
  predicate Covers(recs: seq<PageRecord>, t: Tally) {
    && (forall j :: 0 <= j < |recs| ==> recs[j].topic in t.info)
    && (forall j :: 0 <= j < |recs| ==> t.info[recs[j].topic].total == recs[j].pageTotal)
    && (forall j :: 0 <= j < |recs| ==> recs[j].pageIndex in t.info[recs[j].topic].pages)
  }

  /** Every topic and every page in the map comes from a page of the prefix. */
  predicate Sourced(recs: seq<PageRecord>, t: Tally) {
    && (forall topic :: topic in t.info ==> HasTopic(recs, topic))
    && (forall topic, k :: topic in t.info && k in t.info[topic].pages ==> HasPage(recs, topic, k))
  }

  /** How the map after a prefix of the pages reflects that prefix. */
  predicate Reflects(recs: seq<PageRecord>, t: Tally) {
    Covers(recs, t) && Sourced(recs, t)
  }

  /** The pages already entered for `topic`. */
  function PagesSoFar(t: Tally, topic: string): map<nat, string> {
    if topic in t.info then t.info[topic].pages else map[]
  }

  /** When `Admit` accepts a page, the only change is that page entered under its topic. */
  lemma AdmitEntry(t: Tally, r: PageRecord)
    requires Admit(t, r).Running?
    ensures Admit(t, r).tally.info ==
      t.info[r.topic := TopicInfo(r.pageTotal, PagesSoFar(t, r.topic)[r.pageIndex := r.file])]
  {
  }

  lemma ScanValidPrefix(init: seq<PageRecord>, r: PageRecord)
    requires ScanValid(init + [r])
    ensures ScanValid(init) && WellFormed(r)
  {
    var recs := init + [r];
    assert forall j :: 0 <= j < |init| ==> recs[j] == init[j];
    assert recs[|init|] == r;
  }

  /** Accepting one more page, stated over the records. */
  lemma ScanValidStep(init: seq<PageRecord>, r: PageRecord)
    requires ScanValid(init) && WellFormed(r)
    requires forall j :: 0 <= j < |init| && init[j].topic == r.topic ==> init[j].pageTotal == r.pageTotal
    requires forall j :: 0 <= j < |init| && init[j].topic == r.topic ==> init[j].pageIndex != r.pageIndex
    ensures ScanValid(init + [r])
  {
    var recs := init + [r];
    assert forall j :: 0 <= j < |init| ==> recs[j] == init[j];
    assert recs[|init|] == r;
  }

  /** A page that clashes with an earlier one breaks the rules. */
  lemma ScanInvalidStep(init: seq<PageRecord>, r: PageRecord, j: nat)
    requires j < |init| && init[j].topic == r.topic
    requires init[j].pageTotal != r.pageTotal || init[j].pageIndex == r.pageIndex
    ensures !ScanValid(init + [r])
  {
    var recs := init + [r];
    assert recs[j] == init[j] && recs[|init|] == r;
  }

  lemma CoversStep(init: seq<PageRecord>, t: Tally, r: PageRecord)
    requires Covers(init, t)
    requires Admit(t, r).Running?
    ensures Covers(init + [r], Admit(t, r).tally)
  {
    var recs := init + [r];
    AdmitEntry(t, r);
    var info2 := Admit(t, r).tally.info;
    forall j | 0 <= j < |recs|
      ensures recs[j].topic in info2
      ensures info2[recs[j].topic].total == recs[j].pageTotal
      ensures recs[j].pageIndex in info2[recs[j].topic].pages
    {
      if j < |init| {
        assert recs[j] == init[j];
      } else {
        assert recs[j] == r;
      }
    }
  }

  lemma SourcedStep(init: seq<PageRecord>, t: Tally, r: PageRecord)
    requires Sourced(init, t)
    requires Admit(t, r).Running?
    ensures Sourced(init + [r], Admit(t, r).tally)
  {
    var recs := init + [r];
    AdmitEntry(t, r);
    var info2 := Admit(t, r).tally.info;
    assert recs[|init|] == r;
    forall topic | topic in info2 ensures HasTopic(recs, topic) {
      if topic != r.topic {
        var j :| 0 <= j < |init| && init[j].topic == topic;
        assert recs[j] == init[j];
      }
    }
    forall topic, k | topic in info2 && k in info2[topic].pages ensures HasPage(recs, topic, k) {
      if topic != r.topic || k != r.pageIndex {
        assert k in PagesSoFar(t, topic);
        var j :| 0 <= j < |init| && init[j].topic == topic && init[j].pageIndex == k;
        assert recs[j] == init[j];
      }
    }
  }

  /** A clash between the new page and an earlier page of its topic. */
  predicate Clash(init: seq<PageRecord>, r: PageRecord) {
    exists j :: 0 <= j < |init| && init[j].topic == r.topic &&
      (init[j].pageTotal != r.pageTotal || init[j].pageIndex == r.pageIndex)
  }

  lemma AdmitStopsOnClash(init: seq<PageRecord>, t: Tally, r: PageRecord)
    requires Reflects(init, t)
    requires Admit(t, r).Stopped?
    ensures Clash(init, r)
  {
    assert r.topic in t.info;
    assert HasTopic(init, r.topic);
    var j :| 0 <= j < |init| && init[j].topic == r.topic;
    var info := t.info[r.topic];
    if info.total != r.pageTotal {
      assert init[j].pageTotal != r.pageTotal;
    } else {
      assert r.pageIndex in info.pages;
      assert HasPage(init, r.topic, r.pageIndex);
    }
  }

  lemma AdmitRunsWithoutClash(init: seq<PageRecord>, t: Tally, r: PageRecord)
    requires Covers(init, t)
    requires Admit(t, r).Running?
    ensures !Clash(init, r)
  {
    forall j | 0 <= j < |init| && init[j].topic == r.topic
      ensures init[j].pageTotal == r.pageTotal && init[j].pageIndex != r.pageIndex
    {
      assert init[j].topic in t.info;
    }
  }

  /** `Admit` stops exactly when the new page clashes with an earlier page of its topic. */
  lemma AdmitClash(init: seq<PageRecord>, t: Tally, r: PageRecord)
    requires Reflects(init, t)
    ensures Admit(t, r).Stopped? <==> Clash(init, r)
  {
    if Admit(t, r).Stopped? {
      AdmitStopsOnClash(init, t, r);
    } else {
      AdmitRunsWithoutClash(init, t, r);
    }
  }

  /** The per-page loop runs through exactly when the pages keep the per-page rules, and the map
      it builds then reflects them. */
  lemma {:induction false} ScanRecordsCorrect(recs: seq<PageRecord>)
    ensures ScanRecords(recs).Running? <==> ScanValid(recs)
    ensures ScanRecords(recs).Running? ==> Reflects(recs, ScanRecords(recs).tally)
    decreases |recs|
  {
    if recs != [] {
      var init, r := recs[..|recs| - 1], recs[|recs| - 1];
      assert recs == init + [r];
      ScanRecordsCorrect(init);
      match ScanRecords(init)
      case Stopped(_) =>
        if ScanValid(recs) { ScanValidPrefix(init, r); }
      case Running(t) =>
        if !WellFormed(r) {
          if ScanValid(recs) { ScanValidPrefix(init, r); }
        } else {
          ScanStepCorrect(init, t, r);
        }
    }
  }

  /** Entering a well-formed page after a valid prefix: the loop goes on exactly when the longer
      prefix is valid, and the map then reflects it. */
  lemma ScanStepCorrect(init: seq<PageRecord>, t: Tally, r: PageRecord)
    requires ScanValid(init) && Reflects(init, t) && WellFormed(r)
    ensures Admit(t, r).Running? <==> ScanValid(init + [r])
    ensures Admit(t, r).Running? ==> Reflects(init + [r], Admit(t, r).tally)
  {
    AdmitClash(init, t, r);
    if Admit(t, r).Stopped? {
      var j :| 0 <= j < |init| && init[j].topic == r.topic &&
        (init[j].pageTotal != r.pageTotal || init[j].pageIndex == r.pageIndex);
      ScanInvalidStep(init, r, j);
    } else {
      ScanValidStep(init, r);
      CoversStep(init, t, r);
      SourcedStep(init, t, r);
    }
  }

  lemma CoverageSound(recs: seq<PageRecord>, t: Tally)
    requires Covers(recs, t) && Sourced(recs, t) && OrderMatches(t)
    requires MissingPage(t.order, t.info).None?
    ensures Complete(recs)
  {
    forall i, k | 0 <= i < |recs| && 1 <= k <= recs[i].pageTotal
      ensures HasPage(recs, recs[i].topic, k)
    {
      var topic := recs[i].topic;
      assert topic in t.info;
      var n :| 0 <= n < |t.order| && t.order[n] == topic;
      assert k <= t.info[t.order[n]].total;
      assert k in t.info[topic].pages;
    }
  }

  lemma CoverageComplete(recs: seq<PageRecord>, t: Tally)
    requires Covers(recs, t) && Sourced(recs, t) && OrderMatches(t)
    requires MissingPage(t.order, t.info).Some?
    ensures !Complete(recs)
  {
    var n, k :| 0 <= n < |t.order| && 1 <= k <= t.info[t.order[n]].total && k !in t.info[t.order[n]].pages;
    var topic := t.order[n];
    assert HasTopic(recs, topic);
    var i :| 0 <= i < |recs| && recs[i].topic == topic;
    assert !HasPage(recs, topic, k) by {
      forall j | 0 <= j < |recs| && recs[j].topic == topic ensures recs[j].pageIndex != k {
        assert recs[j].pageIndex in t.info[topic].pages;
      }
    }
    assert 1 <= k <= recs[i].pageTotal;
  }

  /** With the map reflecting the pages, the coverage loop passes exactly when every topic is
      complete. */
  lemma CoverageCorrect(recs: seq<PageRecord>, t: Tally)
    requires Reflects(recs, t) && OrderMatches(t)
    ensures MissingPage(t.order, t.info).None? <==> Complete(recs)
  {
    if MissingPage(t.order, t.info).None? {
      CoverageSound(recs, t);
    } else {
      CoverageComplete(recs, t);
    }
  }
}
