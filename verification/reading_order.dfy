/** The global reading order of the A4 pages and the prev/next links it demands.

    Every page contributes an entry (file, topic, index, total, hints, links). The longest hint
    list seen first fixes the topic order; pages are grouped by topic, sorted by index inside a
    topic, topics are sorted (the fallback topic last, hinted topics first in hint order, the
    rest by a collation order), and the groups are laid end to end. Each page must then link to
    its neighbours in that sequence. */
module ReadingOrder {
  import opened Results
  import opened Strings
  import opened Sorting
  import opened PageMeta

  /** The fallback topic, "other". */
  const Other: string := "אחר"

  /** A prev/next control: a link to `href`, or a disabled placeholder. */
  datatype NavLink = NavLink(href: string, disabled: bool)

  /** One A4 page file as the reading-order rule sees it: its name, its markup and the two
      navigation controls found in it. */
  datatype PageSource = PageSource(file: string, html: string, prev: NavLink, next: NavLink)

  datatype Entry = Entry(
    file: string, topic: string, pageIndex: nat, pageTotal: nat,
    hints: seq<string>, prev: NavLink, next: NavLink)

  datatype PageRef = PageRef(file: string, pageIndex: nat)

  datatype TopicGroup = TopicGroup(name: string, total: nat, pages: seq<PageRef>)

  // ----- reading one page ------------------------------------------------------------------

  /** The topic a label yields: trimmed, with an empty topic becoming the fallback. */
  function TopicOf(raw: string): (r: string)
    ensures r != []
    ensures Trim(raw) != [] ==> r == Trim(raw)
    ensures Trim(raw) == [] ==> r == Other
  {
    var t := Trim(raw);
    if t == [] then Other else t
  }

  /** The entry of one page; `None` when its `nav-meta` element or label is missing. */
  function ReadEntry(src: PageSource): (r: Option<Entry>)
    ensures r.Some? ==> r.value.file == src.file && r.value.topic != []
    ensures r.Some? ==> r.value.prev == src.prev && r.value.next == src.next
    ensures NavMetaText(src.html).None? ==> r.None?
  {
    match NavMetaText(src.html)
    case None => None
    case Some(t) =>
      match ParseNavLabel(t)
      case None => None
      case Some(l) =>
        Some(Entry(src.file, TopicOf(l.topic), l.pageIndex, l.pageTotal,
                   ParseTopicOrderHints(src.html), src.prev, src.next))
  }

  /** A page whose label is `topic — עמוד i / n` is read with exactly that topic and those
      numbers. */
  lemma ReadEntryOfLabel(src: PageSource, topic: string, i: nat, n: nat)
    requires NavMetaText(src.html) == Some(RenderNavLabel(topic, i, n))
    requires IsTrimmed(topic) && '—' !in topic && SingleLine(topic) && topic != []
    ensures ReadEntry(src).Some?
    ensures ReadEntry(src).value.topic == topic
    ensures ReadEntry(src).value.pageIndex == i && ReadEntry(src).value.pageTotal == n
  {
    NavLabelRoundTrip(topic, i, n);
  }

  /** The results of reading every source, or the position of the first that cannot be read. */
  datatype Loaded<E> = Loaded(value: seq<E>) | Unreadable(at: nat)

  /** Reads every source in order and stops at the first that yields `None`. */
  function ReadAll<S, E>(read: S -> Option<E>, srcs: seq<S>): (r: Loaded<E>)
    ensures r.Loaded? ==> |r.value| == |srcs|
    ensures r.Unreadable? ==> r.at < |srcs|
  {
    if srcs == [] then Loaded([])
    else
      match read(srcs[0])
      case None => Unreadable(0)
      case Some(e) =>
        match ReadAll(read, srcs[1..])
        case Unreadable(at) => Unreadable(at + 1)
        case Loaded(rest) => Loaded([e] + rest)
  }

  /** The values are the sources' readings in order; a failure names the first source that
      cannot be read. */
  lemma {:induction false} ReadAllCorrect<S, E>(read: S -> Option<E>, srcs: seq<S>)
    ensures ReadAll(read, srcs).Loaded? ==>
      forall k :: 0 <= k < |srcs| ==> read(srcs[k]) == Some(ReadAll(read, srcs).value[k])
    ensures ReadAll(read, srcs).Unreadable? ==> read(srcs[ReadAll(read, srcs).at]).None?
    ensures ReadAll(read, srcs).Unreadable? ==>
      forall k :: 0 <= k < ReadAll(read, srcs).at ==> read(srcs[k]).Some?
  {
    if srcs != [] && read(srcs[0]).Some? {
      ReadAllCorrect(read, srcs[1..]);
      var r := ReadAll(read, srcs);
      if r.Loaded? {
        forall k | 0 <= k < |srcs| ensures read(srcs[k]) == Some(r.value[k]) {
          if k > 0 { assert srcs[k] == srcs[1..][k - 1]; }
        }
      } else {
        forall k | 0 <= k < r.at ensures read(srcs[k]).Some? {
          if k > 0 { assert srcs[k] == srcs[1..][k - 1]; }
        }
      }
    }
  }

  /** The entries of the page sources, `None` when some page cannot be read. */
  function ReadEntries(pages: seq<PageSource>): (r: Loaded<Entry>)
    ensures r.Loaded? ==> |r.value| == |pages|
  {
    ReadAll(ReadEntry, pages)
  }

  // ----- the longest hint list -------------------------------------------------------------

  /** The hint lists of the entries, in file order. */
  function Hints(es: seq<Entry>): (r: seq<seq<string>>)
    ensures |r| == |es| && forall k :: 0 <= k < |es| ==> r[k] == es[k].hints
  {
    seq(|es|, k requires 0 <= k < |es| => es[k].hints)
  }

  /** `bestTopicOrder` after the loop: it starts empty and is replaced only by a strictly
      longer list. */
  function BestTopicOrder(lists: seq<seq<string>>): (best: seq<string>)
    decreases |lists|
  {
    if lists == [] then []
    else
      var sofar := BestTopicOrder(lists[..|lists| - 1]);
      var h := lists[|lists| - 1];
      if |h| > |sofar| then h else sofar
  }

  /** The final value is the first list of maximal length: no list is longer, and unless every
      list is empty it is one of the lists and every earlier list is strictly shorter. */
  lemma {:induction false} BestTopicOrderIsFirstLongest(lists: seq<seq<string>>)
    ensures forall i :: 0 <= i < |lists| ==> |lists[i]| <= |BestTopicOrder(lists)|
    ensures BestTopicOrder(lists) != [] ==>
      exists i :: 0 <= i < |lists| && lists[i] == BestTopicOrder(lists)
        && forall j :: 0 <= j < i ==> |lists[j]| < |lists[i]|
    decreases |lists|
  {
    if lists != [] {
      var init := lists[..|lists| - 1];
      var sofar := BestTopicOrder(init);
      BestTopicOrderIsFirstLongest(init);
      var h := lists[|lists| - 1];
      if |h| > |sofar| {
        forall j | 0 <= j < |lists| - 1 ensures |lists[j]| < |h| {
          assert lists[j] == init[j];
        }
      } else {
        forall j | 0 <= j < |lists| ensures |lists[j]| <= |sofar| {
          if j < |init| { assert lists[j] == init[j]; }
        }
        if sofar != [] {
          var i :| 0 <= i < |init| && init[i] == sofar
            && forall j :: 0 <= j < i ==> |init[j]| < |init[i]|;
          assert lists[i] == sofar;
          forall j | 0 <= j < i ensures |lists[j]| < |lists[i]| {
            assert lists[j] == init[j];
          }
        }
      }
    }
  }

  // ----- grouping by topic -----------------------------------------------------------------

  /** `e.topic || 'אחר'`. */
  function Key(e: Entry): (r: string)
    ensures r != []
  {
    if e.topic == [] then Other else e.topic
  }

  function RefOf(e: Entry): PageRef {
    PageRef(e.file, e.pageIndex)
  }

  function GroupName(g: TopicGroup): string {
    g.name
  }

  /** The position of the group called `name`. */
  function FindGroup(gs: seq<TopicGroup>, name: string): (r: Option<nat>)
    ensures r.Some? ==> r.value < |gs| && gs[r.value].name == name
    ensures r.None? ==> forall i :: 0 <= i < |gs| ==> gs[i].name != name
    decreases |gs|
  {
    if gs == [] then None
    else if gs[0].name == name then Some(0)
    else
      match FindGroup(gs[1..], name)
      case None => None
      case Some(i) => Some(i + 1)
  }

  /** One step of the grouping loop: a new topic opens a group (with this page's total), a
      known topic gets the page appended. */
  function AddEntry(gs: seq<TopicGroup>, e: Entry): seq<TopicGroup> {
    match FindGroup(gs, Key(e))
    case None => gs + [TopicGroup(Key(e), e.pageTotal, [RefOf(e)])]
    case Some(i) => gs[i := gs[i].(pages := gs[i].pages + [RefOf(e)])]
  }

  /** `Array.from(topicsMap.values())`: groups in order of first appearance. */
  function Group(es: seq<Entry>): seq<TopicGroup>
    decreases |es|
  {
    if es == [] then [] else AddEntry(Group(es[..|es| - 1]), es[|es| - 1])
  }

  /** Reference definition: the pages of the entries whose key is `name`, in entry order. */
  function PagesOf(es: seq<Entry>, name: string): seq<PageRef>
    decreases |es|
  {
    if es == [] then []
    else
      var e := es[|es| - 1];
      PagesOf(es[..|es| - 1], name) + (if Key(e) == name then [RefOf(e)] else [])
  }

  /** Reference definition: the total of the first entry whose key is `name`. */
  function FirstTotal(es: seq<Entry>, name: string): nat
    decreases |es|
  {
    if es == [] then 0
    else
      var init, e := es[..|es| - 1], es[|es| - 1];
      if PagesOf(init, name) != [] then FirstTotal(init, name)
      else if Key(e) == name then e.pageTotal
      else 0
  }

  /** `gs` is the grouping of `es`: one group per key, holding exactly that key's pages in
      entry order and the total of the key's first entry. */
  predicate GroupedBy(es: seq<Entry>, gs: seq<TopicGroup>) {
    && DistinctBy(GroupName, gs)
    && (forall i :: 0 <= i < |gs| ==> gs[i].pages == PagesOf(es, gs[i].name) != [])
    && (forall i :: 0 <= i < |gs| ==> gs[i].total == FirstTotal(es, gs[i].name))
    && (forall k :: 0 <= k < |es| ==> FindGroup(gs, Key(es[k])).Some?)
  }

  lemma PagesOfSnoc(es: seq<Entry>, e: Entry, name: string)
    ensures PagesOf(es + [e], name) == PagesOf(es, name) + (if Key(e) == name then [RefOf(e)] else [])
    ensures FirstTotal(es + [e], name) ==
      if PagesOf(es, name) != [] then FirstTotal(es, name)
      else if Key(e) == name then e.pageTotal
      else 0
  {
    assert (es + [e])[..|es|] == es;
  }

  /** A key with pages belongs to some entry. */
  lemma {:induction false} PagesOfHasEntry(es: seq<Entry>, name: string)
    requires PagesOf(es, name) != []
    ensures exists k :: 0 <= k < |es| && Key(es[k]) == name
    decreases |es|
  {
    var init := es[..|es| - 1];
    if Key(es[|es| - 1]) != name {
      PagesOfHasEntry(init, name);
      var k :| 0 <= k < |init| && Key(init[k]) == name;
      assert es[k] == init[k];
    }
  }

  /** A group that exists under `name` is found again after the groups are updated in place or
      extended. */
  lemma FindGroupKept(gs: seq<TopicGroup>, gs2: seq<TopicGroup>, name: string)
    requires |gs| <= |gs2|
    requires forall i :: 0 <= i < |gs| ==> gs2[i].name == gs[i].name
    requires FindGroup(gs, name).Some?
    ensures FindGroup(gs2, name).Some?
  {
    var i := FindGroup(gs, name).value;
    assert gs2[i].name == name;
  }

  /** A key without a group has no pages yet. */
  lemma NewKeyHasNoPages(es: seq<Entry>, gs: seq<TopicGroup>, name: string)
    requires forall k :: 0 <= k < |es| ==> FindGroup(gs, Key(es[k])).Some?
    requires FindGroup(gs, name).None?
    ensures PagesOf(es, name) == []
  {
    if PagesOf(es, name) != [] {
      PagesOfHasEntry(es, name);
    }
  }

  lemma AddNewGroup(es: seq<Entry>, e: Entry, gs: seq<TopicGroup>)
    requires GroupedBy(es, gs) && FindGroup(gs, Key(e)).None?
    ensures GroupedBy(es + [e], AddEntry(gs, e))
  {
    var g := TopicGroup(Key(e), e.pageTotal, [RefOf(e)]);
    assert AddEntry(gs, e) == gs + [g];
    NewKeyHasNoPages(es, gs, Key(e));
    NewGroupDistinct(gs, g);
    NewGroupPages(es, e, gs);
    NewGroupFound(es, e, gs);
  }

  lemma NewGroupDistinct(gs: seq<TopicGroup>, g: TopicGroup)
    requires DistinctBy(GroupName, gs) && FindGroup(gs, g.name).None?
    ensures DistinctBy(GroupName, gs + [g])
  {
  }

  /** Every old group keeps its pages and total, and the new group holds just `e`. */
  lemma NewGroupPages(es: seq<Entry>, e: Entry, gs: seq<TopicGroup>)
    requires forall i :: 0 <= i < |gs| ==> gs[i].pages == PagesOf(es, gs[i].name) != []
    requires forall i :: 0 <= i < |gs| ==> gs[i].total == FirstTotal(es, gs[i].name)
    requires FindGroup(gs, Key(e)).None? && PagesOf(es, Key(e)) == []
    ensures var gs2 := gs + [TopicGroup(Key(e), e.pageTotal, [RefOf(e)])];
      && (forall i :: 0 <= i < |gs2| ==> gs2[i].pages == PagesOf(es + [e], gs2[i].name) != [])
      && (forall i :: 0 <= i < |gs2| ==> gs2[i].total == FirstTotal(es + [e], gs2[i].name))
  {
    var g := TopicGroup(Key(e), e.pageTotal, [RefOf(e)]);
    var gs2 := gs + [g];
    forall i | 0 <= i < |gs2|
      ensures gs2[i].pages == PagesOf(es + [e], gs2[i].name) != []
      ensures gs2[i].total == FirstTotal(es + [e], gs2[i].name)
    {
      if i < |gs| {
        assert gs2[i] == gs[i];
        SnocKeepsGroup(es, e, gs[i]);
      } else {
        assert gs2[i] == g;
        PagesOfSnoc(es, e, Key(e));
      }
    }
  }

  /** Every entry, `e` included, finds its group. */
  lemma NewGroupFound(es: seq<Entry>, e: Entry, gs: seq<TopicGroup>)
    requires forall k :: 0 <= k < |es| ==> FindGroup(gs, Key(es[k])).Some?
    ensures var gs2 := gs + [TopicGroup(Key(e), e.pageTotal, [RefOf(e)])];
      forall k :: 0 <= k < |es| + 1 ==> FindGroup(gs2, Key((es + [e])[k])).Some?
  {
    var gs2 := gs + [TopicGroup(Key(e), e.pageTotal, [RefOf(e)])];
    var es2 := es + [e];
    forall k | 0 <= k < |es2| ensures FindGroup(gs2, Key(es2[k])).Some? {
      if k < |es| {
        assert es2[k] == es[k];
        FindGroupKept(gs, gs2, Key(es[k]));
      } else {
        assert gs2[|gs|].name == Key(es2[k]);
      }
    }
  }

  /** A group of another key is still the group of its key once `e` is appended. */
  lemma SnocKeepsGroup(es: seq<Entry>, e: Entry, g: TopicGroup)
    requires g.pages == PagesOf(es, g.name) != [] && g.total == FirstTotal(es, g.name)
    requires Key(e) != g.name
    ensures g.pages == PagesOf(es + [e], g.name) && g.total == FirstTotal(es + [e], g.name)
  {
    PagesOfSnoc(es, e, g.name);
  }

  lemma AddToGroup(es: seq<Entry>, e: Entry, gs: seq<TopicGroup>)
    requires GroupedBy(es, gs) && FindGroup(gs, Key(e)).Some?
    ensures GroupedBy(es + [e], AddEntry(gs, e))
  {
    var es2, gs2 := es + [e], AddEntry(gs, e);
    var at := FindGroup(gs, Key(e)).value;
    assert |gs2| == |gs|;
    assert forall i :: 0 <= i < |gs| ==> gs2[i].name == gs[i].name;
    assert DistinctBy(GroupName, gs2);
    forall i | 0 <= i < |gs2|
      ensures gs2[i].pages == PagesOf(es2, gs2[i].name) != []
      ensures gs2[i].total == FirstTotal(es2, gs2[i].name)
    {
      PagesOfSnoc(es, e, gs2[i].name);
      if i != at {
        assert GroupName(gs[i]) != GroupName(gs[at]);
      }
    }
    forall k | 0 <= k < |es2| ensures FindGroup(gs2, Key(es2[k])).Some? {
      if k < |es| {
        assert es2[k] == es[k];
        FindGroupKept(gs, gs2, Key(es[k]));
      } else {
        FindGroupKept(gs, gs2, Key(e));
      }
    }
  }

  /** The grouping loop builds exactly the grouping of the entries. */
  lemma {:induction false} GroupCorrect(es: seq<Entry>)
    ensures GroupedBy(es, Group(es))
    decreases |es|
  {
    if es != [] {
      var init, e := es[..|es| - 1], es[|es| - 1];
      GroupCorrect(init);
      assert es == init + [e];
      if FindGroup(Group(init), Key(e)).None? {
        AddNewGroup(init, e, Group(init));
      } else {
        AddToGroup(init, e, Group(init));
      }
    }
  }

  // ----- sorting and flattening --------------------------------------------------------------

  function PageFile(p: PageRef): seq<string> {
    [p.file]
  }

  function EntryFile(e: Entry): seq<string> {
    [e.file]
  }

  /** The file names of the entries, in entry order. */
  function Files(es: seq<Entry>): (r: seq<string>)
    ensures |r| == |es|
  {
    FlatMapLength(EntryFile, es);
    FlatMap(EntryFile, es)
  }

  lemma {:induction false} FlatMapLength<T>(f: T -> seq<string>, s: seq<T>)
    requires forall x :: |f(x)| == 1
    ensures |FlatMap(f, s)| == |s|
    decreases |s|
  {
    if s != [] {
      FlatMapLength(f, s[1..]);
    }
  }

  /** The files of a group, in the order pages were appended. */
  function GroupFiles(g: TopicGroup): seq<string> {
    FlatMap(PageFile, g.pages)
  }

  /** `(a, b) => a.pageIndex - b.pageIndex` read as "strictly before". */
  predicate PageBefore(p: PageRef, q: PageRef) {
    p.pageIndex < q.pageIndex
  }

  function SortPages(ps: seq<PageRef>): (r: seq<PageRef>)
    ensures multiset(r) == multiset(ps)
  {
    Sort(PageBefore, ps)
  }

  /** The files of a group once its pages are sorted: `t.pages.map((p) => p.file)`. */
  function TopicFiles(g: TopicGroup): seq<string> {
    FlatMap(PageFile, SortPages(g.pages))
  }

  /** Within a topic the pages come in ascending index order. */
  lemma PagesAscending(ps: seq<PageRef>)
    ensures forall i, j :: 0 <= i < j < |SortPages(ps)| ==>
      SortPages(ps)[i].pageIndex <= SortPages(ps)[j].pageIndex
  {
    SortSorted(PageBefore, ps);
  }

  /** The first index of `name` in `best`, or -1: `best.indexOf(name)`. */
  function IndexIn(best: seq<string>, name: string): (r: int)
    ensures -1 <= r < |best|
    ensures r >= 0 ==> best[r] == name && forall j :: 0 <= j < r ==> best[j] != name
    ensures r == -1 ==> forall j :: 0 <= j < |best| ==> best[j] != name
    decreases |best|
  {
    if best == [] then -1
    else if best[0] == name then 0
    else
      var r := IndexIn(best[1..], name);
      if r == -1 then -1 else r + 1
  }

  /** The topic comparator read as "strictly before": the fallback topic after the rest, topics
      listed in `best` before unlisted ones and in listed order, unlisted ones by `collate`. */
  predicate TopicBefore(best: seq<string>, collate: (string, string) -> bool, a: TopicGroup, b: TopicGroup) {
    var aOther, bOther := a.name == Other, b.name == Other;
    if aOther != bOther then bOther
    else
      var ai, bi := IndexIn(best, a.name), IndexIn(best, b.name);
      if ai >= 0 && bi >= 0 then ai < bi
      else if (ai >= 0) != (bi >= 0) then ai >= 0
      else collate(a.name, b.name)
  }

  function TopicLt(best: seq<string>, collate: (string, string) -> bool): (TopicGroup, TopicGroup) -> bool {
    (a, b) => TopicBefore(best, collate, a, b)
  }

  /** The sorted topic groups: grouped entries ordered by the topic comparator. */
  function Layout(es: seq<Entry>, collate: (string, string) -> bool): (r: seq<TopicGroup>)
    ensures multiset(r) == multiset(Group(es))
  {
    Sort(TopicLt(BestTopicOrder(Hints(es)), collate), Group(es))
  }

  /** `flat`: the files of the sorted topics laid end to end. */
  function ReadingOrder(es: seq<Entry>, collate: (string, string) -> bool): seq<string> {
    FlatMap(TopicFiles, Layout(es, collate))
  }

  lemma AddEntryFiles(gs: seq<TopicGroup>, e: Entry)
    ensures multiset(FlatMap(GroupFiles, AddEntry(gs, e))) == multiset(FlatMap(GroupFiles, gs)) + multiset{e.file}
  {
    match FindGroup(gs, Key(e))
    case None => AddNewGroupFiles(gs, e);
    case Some(i) => AddToGroupFiles(gs, e, i);
  }

  lemma AddNewGroupFiles(gs: seq<TopicGroup>, e: Entry)
    requires FindGroup(gs, Key(e)).None?
    ensures multiset(FlatMap(GroupFiles, AddEntry(gs, e))) == multiset(FlatMap(GroupFiles, gs)) + multiset{e.file}
  {
    var g := TopicGroup(Key(e), e.pageTotal, [RefOf(e)]);
    assert GroupFiles(g) == [e.file] by {
      FlatMapSingle(PageFile, RefOf(e));
    }
    assert FlatMap(GroupFiles, gs + [g]) == FlatMap(GroupFiles, gs) + [e.file] by {
      FlatMapAppend(GroupFiles, gs, [g]);
      FlatMapSingle(GroupFiles, g);
    }
  }

  lemma AddToGroupFiles(gs: seq<TopicGroup>, e: Entry, i: nat)
    requires FindGroup(gs, Key(e)) == Some(i)
    ensures multiset(FlatMap(GroupFiles, AddEntry(gs, e))) == multiset(FlatMap(GroupFiles, gs)) + multiset{e.file}
  {
    var g := gs[i].(pages := gs[i].pages + [RefOf(e)]);
    assert GroupFiles(g) == GroupFiles(gs[i]) + [e.file] by {
      FlatMapAppend(PageFile, gs[i].pages, [RefOf(e)]);
      FlatMapSingle(PageFile, RefOf(e));
    }
    FlatMapUpdate(GroupFiles, gs, i, g);
    MultisetCancel(multiset(FlatMap(GroupFiles, gs[i := g])), multiset(FlatMap(GroupFiles, gs)),
                   multiset(GroupFiles(gs[i])), e.file);
  }

  lemma MultisetCancel(a: multiset<string>, b: multiset<string>, c: multiset<string>, x: string)
    requires a + c == b + (c + multiset{x})
    ensures a == b + multiset{x}
  {
    forall y ensures a[y] == (b + multiset{x})[y] {
      assert (a + c)[y] == (b + (c + multiset{x}))[y];
    }
  }

  /** Grouping loses and invents no page: the groups hold exactly the entries' files. */
  lemma {:induction false} GroupFilesAreFiles(es: seq<Entry>)
    ensures multiset(FlatMap(GroupFiles, Group(es))) == multiset(Files(es))
    decreases |es|
  {
    if es != [] {
      var init, e := es[..|es| - 1], es[|es| - 1];
      GroupFilesAreFiles(init);
      AddEntryFiles(Group(init), e);
      FlatMapLast(EntryFile, es);
    }
  }

  /** `flat` is a permutation of the entries' files, so `flat.length === entries.length`. */
  lemma ReadingOrderIsPermutation(es: seq<Entry>, collate: (string, string) -> bool)
    ensures multiset(ReadingOrder(es, collate)) == multiset(Files(es))
    ensures |ReadingOrder(es, collate)| == |es|
  {
    var gs := Group(es);
    var lt := TopicLt(BestTopicOrder(Hints(es)), collate);
    SortFlatMap(lt, TopicFiles, gs);
    forall i | 0 <= i < |gs| ensures multiset(TopicFiles(gs[i])) == multiset(GroupFiles(gs[i])) {
      SortFlatMap(PageBefore, PageFile, gs[i].pages);
    }
    FlatMapSameContents(TopicFiles, GroupFiles, gs);
    GroupFilesAreFiles(es);
    assert |multiset(ReadingOrder(es, collate))| == |multiset(Files(es))|;
  }

  // ----- what the order guarantees -----------------------------------------------------------

  /** With a collation that is a strict order, the topic comparator is one too. */
  lemma TopicBeforeIsStrict(best: seq<string>, collate: (string, string) -> bool)
    requires StrictOrder(collate)
    ensures StrictOrder(TopicLt(best, collate))
  {
    var lt := TopicLt(best, collate);
    forall a, b, c | lt(a, b) && lt(b, c) ensures lt(a, c) {
      assert TopicBefore(best, collate, a, b) && TopicBefore(best, collate, b, c);
    }
  }

  /** Sorting the grouped topics keeps their names distinct. */
  lemma LayoutNamesDistinct(es: seq<Entry>, collate: (string, string) -> bool)
    ensures DistinctBy(GroupName, Layout(es, collate))
  {
    GroupCorrect(es);
    SortKeepsDistinct(TopicLt(BestTopicOrder(Hints(es)), collate), GroupName, Group(es));
  }

  /** Two distinct topics in layout order `a` then `b`: `a` is not the fallback, a listed `b`
      forces a listed `a` with a smaller list position, and two unlisted topics are not in
      reverse collation order. */
  predicate InTopicOrder(best: seq<string>, collate: (string, string) -> bool, a: TopicGroup, b: TopicGroup) {
    && a.name != Other
    && (b.name != Other && IndexIn(best, b.name) >= 0 ==> 0 <= IndexIn(best, a.name) < IndexIn(best, b.name))
    && (b.name != Other && IndexIn(best, a.name) < 0 ==> IndexIn(best, b.name) < 0 && !collate(b.name, a.name))
  }

  lemma OrderedPair(best: seq<string>, collate: (string, string) -> bool, a: TopicGroup, b: TopicGroup)
    requires a.name != b.name && !TopicBefore(best, collate, b, a)
    ensures InTopicOrder(best, collate, a, b)
  {
    if IndexIn(best, a.name) >= 0 && IndexIn(best, b.name) >= 0 {
      assert IndexIn(best, a.name) != IndexIn(best, b.name);
    }
  }

  /** The layout puts the topics in the comparator's order: the fallback topic last, listed
      topics first and by list position, unlisted topics by collation. */
  lemma LayoutInTopicOrder(es: seq<Entry>, collate: (string, string) -> bool)
    requires StrictOrder(collate)
    ensures forall i, j :: 0 <= i < j < |Layout(es, collate)| ==>
      InTopicOrder(BestTopicOrder(Hints(es)), collate, Layout(es, collate)[i], Layout(es, collate)[j])
  {
    var best := BestTopicOrder(Hints(es));
    var lt := TopicLt(best, collate);
    var ts := Layout(es, collate);
    TopicBeforeIsStrict(best, collate);
    SortSorted(lt, Group(es));
    LayoutNamesDistinct(es, collate);
    forall i, j | 0 <= i < j < |ts| ensures InTopicOrder(best, collate, ts[i], ts[j]) {
      assert !lt(ts[j], ts[i]);
      assert GroupName(ts[i]) != GroupName(ts[j]);
      OrderedPair(best, collate, ts[i], ts[j]);
    }
  }

  /** Each topic's pages form one contiguous block of `flat`, in ascending page order, right
      after the blocks of the topics before it. */
  lemma TopicIsContiguous(es: seq<Entry>, collate: (string, string) -> bool, k: nat)
    requires k < |Layout(es, collate)|
    ensures var ts := Layout(es, collate);
      var start := |FlatMap(TopicFiles, ts[..k])|;
      && start + |TopicFiles(ts[k])| <= |ReadingOrder(es, collate)|
      && ReadingOrder(es, collate)[start..start + |TopicFiles(ts[k])|] == TopicFiles(ts[k])
  {
    FlatMapPiece(TopicFiles, Layout(es, collate), k);
  }

  // ----- the prev/next check ---------------------------------------------------------------

  datatype PageNav = PageNav(prev: NavLink, next: NavLink)

  /** `new Map(entries.map(...))`: each file's controls; a later entry for the same file
      overrides an earlier one. */
  function NavByFile(es: seq<Entry>): map<string, PageNav>
    decreases |es|
  {
    if es == [] then map[]
    else
      var e := es[|es| - 1];
      NavByFile(es[..|es| - 1])[e.file := PageNav(e.prev, e.next)]
  }

  /** Every entry's file has controls, namely those of its last entry. */
  lemma {:induction false} NavByFileLastWins(es: seq<Entry>, k: nat)
    requires k < |es|
    ensures es[k].file in NavByFile(es)
    ensures (forall j :: k < j < |es| ==> es[j].file != es[k].file) ==>
      NavByFile(es)[es[k].file] == PageNav(es[k].prev, es[k].next)
    decreases |es|
  {
    if k < |es| - 1 {
      var init := es[..|es| - 1];
      assert es[k] == init[k];
      NavByFileLastWins(init, k);
    }
  }

  /** Every file of the entries has controls. */
  lemma {:induction false} FilesHaveNav(es: seq<Entry>, f: string)
    requires f in multiset(Files(es))
    ensures f in NavByFile(es)
    decreases |es|
  {
    var init, e := es[..|es| - 1], es[|es| - 1];
    FlatMapLast(EntryFile, es);
    if f != e.file {
      FilesHaveNav(init, f);
    }
  }

  /** A file of the reading order always has controls, so the "missing nav" failure cannot
      occur. */
  lemma ReadingOrderHasNav(es: seq<Entry>, collate: (string, string) -> bool, i: nat)
    requires i < |ReadingOrder(es, collate)|
    ensures ReadingOrder(es, collate)[i] in NavByFile(es)
  {
    ReadingOrderIsPermutation(es, collate);
    var f := ReadingOrder(es, collate)[i];
    assert f in multiset(ReadingOrder(es, collate));
    FilesHaveNav(es, f);
  }

  datatype NavError =
    | MissingNav(file: string)
    | PrevNotDisabled(file: string)
    | WrongPrev(file: string, expected: string)
    | NextNotDisabled(file: string)
    | WrongNext(file: string, expected: string)

  /** The neighbour a control must point to; the empty name stands for "none". */
  function Neighbour(flat: seq<string>, j: int): string {
    if 0 <= j < |flat| then flat[j] else ""
  }

  /** The loop over `flat` from position `i`: the first failed expectation, if any. */
  function CheckNavFrom(flat: seq<string>, nav: map<string, PageNav>, i: nat): (r: Outcome<NavError>)
    decreases |flat| - i
  {
    if i >= |flat| then Pass
    else
      var file := flat[i];
      if file !in nav then Fail(MissingNav(file))
      else
        var prev, next := Neighbour(flat, i - 1), Neighbour(flat, i + 1);
        if prev == "" && !nav[file].prev.disabled then Fail(PrevNotDisabled(file))
        else if prev != "" && nav[file].prev.href != prev then Fail(WrongPrev(file, prev))
        else if next == "" && !nav[file].next.disabled then Fail(NextNotDisabled(file))
        else if next != "" && nav[file].next.href != next then Fail(WrongNext(file, next))
        else CheckNavFrom(flat, nav, i + 1)
  }

  /** Reference definition of a correctly linked sequence: every file has controls; the first
      page's "previous" and the last page's "next" are disabled; and for each adjacent pair
      the right page links back to the left one and the left page links on to the right one
      (a nameless neighbour demands a disabled control instead). */
  predicate LinkedInOrder(flat: seq<string>, nav: map<string, PageNav>) {
    && (forall i :: 0 <= i < |flat| ==> flat[i] in nav)
    && (|flat| > 0 ==> nav[flat[0]].prev.disabled && nav[flat[|flat| - 1]].next.disabled)
    && (forall i, j :: 0 <= i < |flat| && 0 <= j < |flat| && j == i + 1 ==>
          (flat[i] == "" ==> nav[flat[j]].prev.disabled) && (flat[i] != "" ==> nav[flat[j]].prev.href == flat[i]))
    && (forall i, j :: 0 <= i < |flat| && 0 <= j < |flat| && j == i + 1 ==>
          (flat[j] == "" ==> nav[flat[i]].next.disabled) && (flat[j] != "" ==> nav[flat[i]].next.href == flat[j]))
  }

  /** The expectations for position `i` alone. */
  predicate LinkedAt(flat: seq<string>, nav: map<string, PageNav>, i: nat)
    requires i < |flat|
  {
    var prev, next := Neighbour(flat, i - 1), Neighbour(flat, i + 1);
    && flat[i] in nav
    && (if prev == "" then nav[flat[i]].prev.disabled else nav[flat[i]].prev.href == prev)
    && (if next == "" then nav[flat[i]].next.disabled else nav[flat[i]].next.href == next)
  }

  lemma CheckNavStep(flat: seq<string>, nav: map<string, PageNav>, i: nat)
    requires i < |flat|
    ensures CheckNavFrom(flat, nav, i).Pass? <==> LinkedAt(flat, nav, i) && CheckNavFrom(flat, nav, i + 1).Pass?
  {
  }

  /** The loop passes exactly when every position from `i` on meets its expectations. */
  lemma {:induction false} CheckNavFromCorrect(flat: seq<string>, nav: map<string, PageNav>, i: nat)
    ensures CheckNavFrom(flat, nav, i).Pass? <==> forall k :: i <= k < |flat| ==> LinkedAt(flat, nav, k)
    decreases |flat| - i
  {
    if i < |flat| {
      CheckNavStep(flat, nav, i);
      CheckNavFromCorrect(flat, nav, i + 1);
    }
  }

  lemma LinkedEverywhereIsLinked(flat: seq<string>, nav: map<string, PageNav>)
    requires forall k :: 0 <= k < |flat| ==> LinkedAt(flat, nav, k)
    ensures LinkedInOrder(flat, nav)
  {
    forall i | 0 <= i < |flat| ensures flat[i] in nav {
      assert LinkedAt(flat, nav, i);
    }
    forall i, j | 0 <= i < |flat| && 0 <= j < |flat| && j == i + 1
      ensures flat[i] in nav && flat[j] in nav
      ensures (flat[i] == "" ==> nav[flat[j]].prev.disabled) && (flat[i] != "" ==> nav[flat[j]].prev.href == flat[i])
      ensures (flat[j] == "" ==> nav[flat[i]].next.disabled) && (flat[j] != "" ==> nav[flat[i]].next.href == flat[j])
    {
      assert LinkedAt(flat, nav, i) && LinkedAt(flat, nav, j);
    }
    if |flat| > 0 {
      assert LinkedAt(flat, nav, 0) && LinkedAt(flat, nav, |flat| - 1);
    }
  }

  lemma LinkedIsLinkedEverywhere(flat: seq<string>, nav: map<string, PageNav>, k: nat)
    requires LinkedInOrder(flat, nav) && k < |flat|
    ensures LinkedAt(flat, nav, k)
  {
    if k > 0 { assert flat[k - 1] == Neighbour(flat, k - 1); }
    if k + 1 < |flat| { assert flat[k + 1] == Neighbour(flat, k + 1); }
  }

  /** Position-wise expectations and the pairwise reference definition agree. */
  lemma LinkedAtEverywhere(flat: seq<string>, nav: map<string, PageNav>)
    ensures (forall k :: 0 <= k < |flat| ==> LinkedAt(flat, nav, k)) <==> LinkedInOrder(flat, nav)
  {
    if forall k :: 0 <= k < |flat| ==> LinkedAt(flat, nav, k) {
      LinkedEverywhereIsLinked(flat, nav);
    }
    if LinkedInOrder(flat, nav) {
      forall k | 0 <= k < |flat| ensures LinkedAt(flat, nav, k) {
        LinkedIsLinkedEverywhere(flat, nav, k);
      }
    }
  }

  /** The whole check on `flat`: passes exactly when the sequence is correctly linked. */
  function CheckNav(flat: seq<string>, nav: map<string, PageNav>): (r: Outcome<NavError>)
    ensures r.Pass? <==> LinkedInOrder(flat, nav)
  {
    CheckNavFromCorrect(flat, nav, 0);
    LinkedAtEverywhere(flat, nav);
    CheckNavFrom(flat, nav, 0)
  }

  /** With every file present, the loop never reports missing controls. */
  lemma {:induction false} NoMissingNav(flat: seq<string>, nav: map<string, PageNav>, i: nat)
    requires forall k :: 0 <= k < |flat| ==> flat[k] in nav
    ensures CheckNavFrom(flat, nav, i).Fail? ==> !CheckNavFrom(flat, nav, i).error.MissingNav?
    decreases |flat| - i
  {
    if i < |flat| {
      NoMissingNav(flat, nav, i + 1);
    }
  }

  // ----- the whole rule --------------------------------------------------------------------

  datatype OrderError =
    | NoPages
    | UnreadablePage(file: string)
    | LengthMismatch(flatLength: nat, entryCount: nat)
    | BadNav(nav: NavError)

  /** `htmlFiles.filter(isA4PageFile)`. */
  function A4Pages(srcs: seq<PageSource>): (r: seq<PageSource>)
    ensures |r| <= |srcs|
    ensures forall k :: 0 <= k < |r| ==> IsA4PageFile(r[k].file) && r[k] in srcs
    ensures forall k :: 0 <= k < |srcs| && IsA4PageFile(srcs[k].file) ==> srcs[k] in r
    decreases |srcs|
  {
    if srcs == [] then []
    else
      var rest := A4Pages(srcs[1..]);
      assert forall k :: 1 <= k < |srcs| ==> srcs[k] == srcs[1..][k - 1];
      if IsA4PageFile(srcs[0].file) then [srcs[0]] + rest else rest
  }

  /** The reading-order rule over the listed HTML files, `collate` standing for Hebrew
      `localeCompare`: at least one page, every page readable, `flat` as long as the entry
      list, and every page linked to its neighbours in `flat`. */
  function CheckReadingOrder(srcs: seq<PageSource>, collate: (string, string) -> bool): (r: Outcome<OrderError>)
    ensures var pages := A4Pages(srcs);
      r.Pass? ==>
        && pages != []
        && ReadEntries(pages).Loaded?
        && LinkedInOrder(ReadingOrder(ReadEntries(pages).value, collate), NavByFile(ReadEntries(pages).value))
    ensures r.Fail? && r.error.BadNav? ==> !r.error.nav.MissingNav?
  {
    var pages := A4Pages(srcs);
    if pages == [] then Fail(NoPages)
    else
      match ReadEntries(pages)
      case Unreadable(at) => Fail(UnreadablePage(pages[at].file))
      case Loaded(es) =>
        var flat := ReadingOrder(es, collate);
        if |flat| != |es| then Fail(LengthMismatch(|flat|, |es|))
        else
          LoadedOrderHasNav(es, collate);
          NoMissingNav(flat, NavByFile(es), 0);
          match CheckNav(flat, NavByFile(es))
          case Pass => Pass
          case Fail(e) => Fail(BadNav(e))
  }

  /** The rule passes exactly when there are pages, all of them are readable and the pages are
      linked in reading order; the length check never fires. */
  lemma CheckReadingOrderCorrect(srcs: seq<PageSource>, collate: (string, string) -> bool)
    ensures var pages := A4Pages(srcs);
      CheckReadingOrder(srcs, collate).Pass? <==>
        && pages != []
        && ReadEntries(pages).Loaded?
        && LinkedInOrder(ReadingOrder(ReadEntries(pages).value, collate), NavByFile(ReadEntries(pages).value))
    ensures CheckReadingOrder(srcs, collate).Fail? ==> !CheckReadingOrder(srcs, collate).error.LengthMismatch?
  {
    var pages := A4Pages(srcs);
    if pages != [] && ReadEntries(pages).Loaded? {
      LoadedOrderHasNav(ReadEntries(pages).value, collate);
    }
  }

  /** The flattened order of loaded pages is as long as the entry list, and every file in it has
      navigation controls. */
  lemma LoadedOrderHasNav(es: seq<Entry>, collate: (string, string) -> bool)
    ensures |ReadingOrder(es, collate)| == |es|
    ensures forall k :: 0 <= k < |ReadingOrder(es, collate)| ==> ReadingOrder(es, collate)[k] in NavByFile(es)
  {
    ReadingOrderIsPermutation(es, collate);
    forall k | 0 <= k < |ReadingOrder(es, collate)| ensures ReadingOrder(es, collate)[k] in NavByFile(es) {
      ReadingOrderHasNav(es, collate, k);
    }
  }
}
