/** The topic-order hints read back from a rendered `preview-nav-topics` block: the scan of
    the page module finds the block, reads each link's label in document order, strips it,
    drops the blank ones and ignores everything after the block's `</div>`. */
module TopicHints {
  import opened Chars
  import opened Results
  import opened Strings
  import opened HtmlText
  import opened Seqs
  import opened PageMeta

  // ----- reading the hints back from a rendered block --------------------------------------

  /** The opening tag of a topic-order block, and the tag that closes it. */
  const TopicBlockOpen: string := "<div" + " " + ("class=\"" + "preview-nav-topics\"") + ">"
  const BlockClose: string := "</div>"

  /** One topic link whose label is `text`. */
  function LinkHtml(text: string): string {
    "<" + "a" + " " + ("class=\"" + "topic-link") + "\"" + ">" + text + ("<" + "/a>")
  }

  /** The links for `labels`, one after the other. */
  function LinksHtml(labels: seq<string>): string
    decreases |labels|
  {
    if labels == [] then [] else LinkHtml(labels[0]) + LinksHtml(labels[1..])
  }

  /** A topic-order block holding one link per label. */
  function TopicBlockHtml(labels: seq<string>): string {
    TopicBlockOpen + LinksHtml(labels) + BlockClose
  }

  /** Labels without `<`, so that neither the `</a>` nor the `</div>` search stops inside one. */
  predicate PlainLabels(labels: seq<string>) {
    forall i :: 0 <= i < |labels| ==> '<' !in labels[i]
  }

  lemma PlainTail(labels: seq<string>)
    requires labels != [] && PlainLabels(labels)
    ensures '<' !in labels[0] && PlainLabels(labels[1..])
  {
    forall i | 0 <= i < |labels[1..]| ensures '<' !in labels[1..][i] {
      assert labels[1..][i] == labels[i + 1];
    }
  }

  predicate NonBlank(s: string) {
    s != []
  }

  /** The reference reading of a block: every label through `stripHtml`, blank results dropped. */
  function KeptLabels(labels: seq<string>): seq<string> {
    MapFilter(StripHtml, NonBlank, labels)
  }

  /** What one label contributes: its stripped text, or nothing when that is blank. */
  function LabelRead(text: string): (r: seq<string>)
    ensures |r| <= 1
  {
    if StripHtml(text) == [] then [] else [StripHtml(text)]
  }

  lemma KeptLabelsCons(labels: seq<string>)
    requires labels != []
    ensures KeptLabels(labels) == LabelRead(labels[0]) + KeptLabels(labels[1..])
  {
  }

  /** A hint passes through `stripHtml` unchanged. */
  lemma StripHtmlOfHint(name: string)
    requires IsHint(name)
    ensures StripHtml(name) == name
  {
    RemoveTagsFixed(name);
    NormalizedIsFixed(name);
  }

  /** Hints are their own reading. */
  lemma KeptLabelsOfHints(names: seq<string>)
    requires forall i :: 0 <= i < |names| ==> IsHint(names[i])
    ensures KeptLabels(names) == names
  {
    forall i | 0 <= i < |names| ensures StripHtml(names[i]) == names[i] && NonBlank(names[i]) {
      StripHtmlOfHint(names[i]);
    }
    MapFilterFixed(StripHtml, NonBlank, names);
  }

  /** Where the link pattern cannot start, it finds nothing. */
  lemma NoLinkAt(b: string, p: nat)
    requires !AtCI(b, p, "<a")
    ensures TopicLinkAt(b, p).None?
  {
    assert "<" + "a" == "<a";
  }

  /** A position holding a character other than `<` starts neither pattern's match. */
  lemma NotTagStart(s: string, p: nat)
    requires p < |s| && s[p] != '<'
    ensures !AtCI(s, p, "<a") && !AtCI(s, p, "</a>") && !AtCI(s, p, BlockClose)
  {
    NotAtCI(s, p, "<a", 0);
    NotAtCI(s, p, "</a>", 0);
    NotAtCI(s, p, BlockClose, 0);
  }

  /** The pieces of a rendered link, with their offsets. */
  lemma LinkPieces(b: string, k: nat, text: string)
    requires At(b, k, LinkHtml(text))
    ensures At(b, k, "<") && At(b, k + 1, "a") && At(b, k + 2, " ")
    ensures At(b, k + 3, "class=\"" + "topic-link") && At(b, k + 20, "\"") && At(b, k + 21, ">")
    ensures At(b, k + 22, text) && At(b, k + 22 + |text|, "<") && At(b, k + 23 + |text|, "/a>")
    ensures At(b, k + 22 + |text|, "<" + "/a>")
  {
    var cls := "class=\"" + "topic-link";
    var open := "<" + "a" + " " + cls + "\"" + ">";
    AtAppend(b, k, open + text, "<" + "/a>");
    AtAppend(b, k + 22 + |text|, "<", "/a>");
    AtAppend(b, k, open, text);
    AtAppend(b, k, "<" + "a" + " " + cls + "\"", ">");
    AtAppend(b, k, "<" + "a" + " " + cls, "\"");
    AtAppend(b, k, "<" + "a" + " ", cls);
    AtAppend(b, k, "<" + "a", " ");
    AtAppend(b, k, "<", "a");
  }

  /** The opening tag of a rendered link ends right after its class name. */
  lemma LinkOpenTagEnd(b: string, k: nat, text: string)
    requires At(b, k, LinkHtml(text))
    ensures OpenTagEnd(b, k, "a", "topic-link") == Some(k + 20)
  {
    LinkPieces(b, k, text);
    AtIsAtCI(b, k, "<");
    AtIsAtCI(b, k + 1, "a");
    assert AtCI(b, k, "<" + "a");
    AtCharIs(b, k + 2, " ", 0);
    AtCharIs(b, k + 3, "class=\"" + "topic-link", 0);
    SpaceRunAtIs(b, k + 2, 1);
    AtIsAtCI(b, k + 3, "class=\"" + "topic-link");
  }

  lemma LinkHtmlLength(text: string)
    ensures |LinkHtml(text)| == 26 + |text|
  {
  }

  /** A rendered link at `k` is the match the link pattern finds there, its label the group. */
  lemma TopicLinkAtRendered(b: string, k: nat, text: string)
    requires At(b, k, LinkHtml(text)) && '<' !in text
    ensures TopicLinkAt(b, k) == Some(LinkMatch(k + 22, k + 22 + |text|, k + 22 + |text| + 4))
    ensures b[k + 22..k + 22 + |text|] == text
  {
    LinkPieces(b, k, text);
    LinkOpenTagEnd(b, k, text);
    LinkLabelRendered(b, k + 22, text);
    FindIs(b, ">", k + 20 + 1, k + 21);
    assert LinkAfterQuote(b, k + 20 + 1) == LinkLabelFrom(b, k + 21 + 1);
    FindIs(b, "\"", k + 20, k + 20);
    assert LinkAfterClass(b, k + 20) == LinkAfterQuote(b, k + 20 + 1);
  }

  /** A label without `<` followed by `</a>` runs to that `</a>`. */
  lemma LinkLabelRendered(b: string, start: nat, text: string)
    requires At(b, start, text) && At(b, start + |text|, "<" + "/a>") && '<' !in text
    ensures LinkLabelFrom(b, start) == Some(LinkMatch(start, start + |text|, start + |text| + 4))
  {
    forall p | start <= p < start + |text| ensures !AtCI(b, p, "</a>") {
      AtKeepsOut(b, start, text, '<', p);
      NotTagStart(b, p);
    }
    assert "<" + "/a>" == "</a>";
    AtIsAtCI(b, start + |text|, "</a>");
    FindCIIs(b, "</a>", start, start + |text|);
  }

  /** The match found at `k`, with none between `from` and `k`, is the next one. */
  lemma NextLinkIs(b: string, from: nat, k: nat, m: LinkMatch)
    requires from <= k < |b| && TopicLinkAt(b, k) == Some(m)
    requires forall p :: from <= p < k ==> TopicLinkAt(b, p).None?
    ensures NextLink(b, from) == Some((k, m))
  {
    forall p | from <= p < k ensures LinkMatcher(b)(p).None? { }
    LeftmostIs(LinkMatcher(b), from, |b|, k, m);
  }

  /** The next match from a rendered link is that link. */
  lemma NextLinkRendered(b: string, k: nat, text: string)
    requires At(b, k, LinkHtml(text)) && '<' !in text
    ensures NextLink(b, k) == Some((k, LinkMatch(k + 22, k + 22 + |text|, k + |LinkHtml(text)|)))
    ensures b[k + 22..k + 22 + |text|] == text
  {
    TopicLinkAtRendered(b, k, text);
    LinkHtmlLength(text);
    NextLinkIs(b, k, k, LinkMatch(k + 22, k + 22 + |text|, k + |LinkHtml(text)|));
  }

  /** One step of the `exec` loop: the next match's stripped label, unless blank, then the rest. */
  lemma LinkLabelsNext(b: string, from: nat, k: nat, start: nat, stop: nat, end: nat)
    requires NextLink(b, from) == Some((k, LinkMatch(start, stop, end)))
    ensures start <= stop <= |b| && LinkLabels(b, from) == LabelRead(b[start..stop]) + LinkLabels(b, end)
  {
  }

  /** Positions where the link pattern finds nothing are skipped by the scan. */
  lemma LinkLabelsSkip(b: string, from: nat, k: nat)
    requires from <= k
    requires forall p :: from <= p < k ==> TopicLinkAt(b, p).None?
    ensures LinkLabels(b, from) == LinkLabels(b, k)
  {
    match NextLink(b, k)
    case None =>
      assert NextLink(b, from).None?;
    case Some((j, m)) =>
      NextLinkIs(b, from, j, m);
  }

  /** The scan finds no link in the closing tag. */
  lemma NoLinkAtClose(b: string, k: nat)
    requires At(b, k, BlockClose) && |b| == k + |BlockClose|
    ensures NextLink(b, k).None?
  {
    assert BlockClose == "<" + "/div>";
    AtAppend(b, k, "<", "/div>");
    forall p | k <= p < |b| ensures TopicLinkAt(b, p).None? {
      if p == k {
        AtCharIs(b, k + 1, "/div>", 0);
        NotAtCI(b, p, "<a", 1);
      } else {
        AtKeepsOut(b, k + 1, "/div>", '<', p);
        NotTagStart(b, p);
      }
      NoLinkAt(b, p);
    }
  }

  /** A run of links followed by the closing tag is its first link followed by the rest. */
  lemma LinksSplit(b: string, k: nat, labels: seq<string>)
    requires labels != [] && At(b, k, LinksHtml(labels) + BlockClose)
    requires |b| == k + |LinksHtml(labels)| + |BlockClose|
    ensures At(b, k, LinkHtml(labels[0]))
    ensures At(b, k + |LinkHtml(labels[0])|, LinksHtml(labels[1..]) + BlockClose)
    ensures |b| == k + |LinkHtml(labels[0])| + |LinksHtml(labels[1..])| + |BlockClose|
  {
    var head := LinkHtml(labels[0]);
    var tail := LinksHtml(labels[1..]);
    assert LinksHtml(labels) == head + tail;
    AppendAssoc(head, tail, BlockClose);
    AtAppend(b, k, head, tail + BlockClose);
  }

  /** `b` holds, from `k` on, one rendered link per label and then the closing tag, and nothing
      more. */
  predicate LinksAt(b: string, k: nat, labels: seq<string>)
    decreases |labels|
  {
    if labels == [] then At(b, k, BlockClose) && |b| == k + |BlockClose|
    else
      At(b, k, LinkHtml(labels[0])) && '<' !in labels[0]
      && LinksAt(b, k + |LinkHtml(labels[0])|, labels[1..])
  }

  /** Rendered links followed by the closing tag are read as such, one link at a time. */
  lemma {:induction false} RenderedLinksAt(b: string, k: nat, labels: seq<string>)
    requires At(b, k, LinksHtml(labels) + BlockClose) && |b| == k + |LinksHtml(labels)| + |BlockClose|
    requires PlainLabels(labels)
    ensures LinksAt(b, k, labels)
    decreases |labels|
  {
    if labels == [] {
      assert LinksHtml(labels) + BlockClose == BlockClose;
    } else {
      LinksSplit(b, k, labels);
      PlainTail(labels);
      RenderedLinksAt(b, k + |LinkHtml(labels[0])|, labels[1..]);
    }
  }

  /** Where each of the rendered links starts, and, last, where the closing tag starts. */
  function LinkStarts(k: nat, labels: seq<string>): (pos: seq<nat>)
    ensures |pos| == |labels| + 1 && pos[0] == k
    ensures forall j :: 0 <= j < |labels| ==> pos[j + 1] == pos[j] + |LinkHtml(labels[j])|
    decreases |labels|
  {
    if labels == [] then [k] else [k] + LinkStarts(k + |LinkHtml(labels[0])|, labels[1..])
  }

  /** The match the link pattern makes on a link rendered at `p` with label `text`. */
  function RenderedMatch(p: nat, text: string): LinkMatch {
    LinkMatch(p + 22, p + 22 + |text|, p + |LinkHtml(text)|)
  }

  /** The scan's next match from `p` is `m`, found at `p`, and its label is exactly `text`. */
  predicate LinkMatchedAt(b: string, p: nat, text: string, m: LinkMatch) {
    && m.labelStart <= m.labelEnd <= |b|
    && NextLink(b, p) == Some((p, m))
    && b[m.labelStart..m.labelEnd] == text
  }

  /** A link met by the scan adds its stripped label, or nothing when it strips to empty. */
  lemma LinkLabelsOver(b: string, p: nat, text: string, m: LinkMatch)
    requires LinkMatchedAt(b, p, text, m)
    ensures LinkLabels(b, p) == LabelRead(text) + LinkLabels(b, m.end)
  {
    LinkLabelsNext(b, p, p, m.labelStart, m.labelEnd, m.end);
  }

  /** A link whose label strips to nothing leaves the hints unchanged. */
  lemma BlankLinkAddsNothing(b: string, p: nat, text: string, m: LinkMatch)
    requires LinkMatchedAt(b, p, text, m) && StripHtml(text) == []
    ensures LinkLabels(b, p) == LinkLabels(b, m.end)
  {
    LinkLabelsOver(b, p, text, m);
  }

  /** The scan meets a rendered link as such. */
  lemma RenderedLinkMatched(b: string, k: nat, text: string)
    requires At(b, k, LinkHtml(text)) && '<' !in text
    ensures LinkMatchedAt(b, k, text, RenderedMatch(k, text))
  {
    NextLinkRendered(b, k, text);
  }

  /** From each position in `pos`, the scan meets the link rendered there with its label. */
  predicate MatchedFrom(b: string, pos: seq<nat>, labels: seq<string>) {
    && |pos| == |labels| + 1
    && forall j :: 0 <= j < |labels| ==> LinkMatchedAt(b, pos[j], labels[j], RenderedMatch(pos[j], labels[j]))
  }

  lemma MatchedCons(b: string, k: nat, labels: seq<string>, rest: seq<nat>)
    requires labels != [] && LinkMatchedAt(b, k, labels[0], RenderedMatch(k, labels[0]))
    requires MatchedFrom(b, rest, labels[1..])
    ensures MatchedFrom(b, [k] + rest, labels)
  {
    var pos := [k] + rest;
    forall j | 0 <= j < |labels|
      ensures LinkMatchedAt(b, pos[j], labels[j], RenderedMatch(pos[j], labels[j]))
    {
      if j > 0 {
        assert pos[j] == rest[j - 1] && labels[j] == labels[1..][j - 1];
      }
    }
  }

  /** Over rendered links, the scan meets each link in turn and nothing after the last. */
  lemma {:induction false} RenderedLinksMatched(b: string, k: nat, labels: seq<string>)
    requires LinksAt(b, k, labels)
    ensures MatchedFrom(b, LinkStarts(k, labels), labels)
    ensures NextLink(b, LinkStarts(k, labels)[|labels|]).None?
    decreases |labels|
  {
    if labels == [] {
      NoLinkAtClose(b, k);
    } else {
      var next := k + |LinkHtml(labels[0])|;
      var rest := LinkStarts(next, labels[1..]);
      assert LinkStarts(k, labels) == [k] + rest;
      RenderedLinkMatched(b, k, labels[0]);
      RenderedLinksMatched(b, next, labels[1..]);
      MatchedCons(b, k, labels, rest);
    }
  }

  /** Labels read link by link, each from the position the previous one ends at, add up to the
      kept labels. */
  lemma {:induction false} ChainedReads(f: nat -> seq<string>, pos: seq<nat>, labels: seq<string>)
    requires |pos| == |labels| + 1 && f(pos[|labels|]) == []
    requires forall j :: 0 <= j < |labels| ==> f(pos[j]) == LabelRead(labels[j]) + f(pos[j + 1])
    ensures f(pos[0]) == KeptLabels(labels)
    decreases |labels|
  {
    if labels != [] {
      forall j | 0 <= j < |labels| - 1
        ensures f(pos[1..][j]) == LabelRead(labels[1..][j]) + f(pos[1..][j + 1])
      {
        assert pos[1..][j] == pos[j + 1] && pos[1..][j + 1] == pos[j + 2];
      }
      ChainedReads(f, pos[1..], labels[1..]);
      KeptLabelsCons(labels);
    }
  }

  /** The scan from each position, as a function of the position. */
  function LabelsFrom(b: string): nat -> seq<string> {
    (p: nat) => LinkLabels(b, p)
  }

  /** A scan that meets one link per label, and nothing after the last, reads back those labels,
      stripped, blank ones dropped. */
  lemma LinkLabelsMatched(b: string, k: nat, labels: seq<string>)
    requires MatchedFrom(b, LinkStarts(k, labels), labels)
    requires NextLink(b, LinkStarts(k, labels)[|labels|]).None?
    ensures LinkLabels(b, k) == KeptLabels(labels)
  {
    var pos := LinkStarts(k, labels);
    var f := LabelsFrom(b);
    forall j | 0 <= j < |labels| ensures f(pos[j]) == LabelRead(labels[j]) + f(pos[j + 1]) {
      MatchedLinkRead(b, pos[j], labels[j], RenderedMatch(pos[j], labels[j]), pos[j + 1]);
    }
    NoLinkReadsNothing(b, pos[|labels|]);
    ChainedReads(f, pos, labels);
  }

  /** The scan from a link it meets reads its label and then goes on from where the link ends. */
  lemma MatchedLinkRead(b: string, p: nat, text: string, m: LinkMatch, q: nat)
    requires LinkMatchedAt(b, p, text, m) && m.end == q
    ensures LabelsFrom(b)(p) == LabelRead(text) + LabelsFrom(b)(q)
  {
    LinkLabelsOver(b, p, text, m);
  }

  /** Where the scan finds no further link it reads nothing. */
  lemma NoLinkReadsNothing(b: string, p: nat)
    requires NextLink(b, p).None?
    ensures LabelsFrom(b)(p) == []
  {
  }

  /** The scan over rendered links reads back their labels, stripped, blank ones dropped. */
  lemma LinkLabelsRendered(b: string, k: nat, labels: seq<string>)
    requires LinksAt(b, k, labels)
    ensures LinkLabels(b, k) == KeptLabels(labels)
  {
    RenderedLinksMatched(b, k, labels);
    LinkLabelsMatched(b, k, labels);
  }

  /** No `</div>` starts inside an occurrence of a text without `<`. */
  lemma NoCloseWithin(s: string, k: nat, u: string, p: nat)
    requires At(s, k, u) && '<' !in u && k <= p < k + |u|
    ensures !AtCI(s, p, BlockClose)
  {
    AtKeepsOut(s, k, u, '<', p);
    NotTagStart(s, p);
  }

  /** No `</div>` starts inside a rendered link. */
  lemma LinkHasNoClose(s: string, k: nat, text: string, p: nat)
    requires At(s, k, LinkHtml(text)) && '<' !in text
    requires k <= p < k + |LinkHtml(text)|
    ensures !AtCI(s, p, BlockClose)
  {
    LinkPieces(s, k, text);
    if p < k + 22 {
      LinkTagHasNoClose(s, k, p);
    } else {
      LinkLabelHasNoClose(s, k + 22, text, p);
    }
  }

  /** No `</div>` starts inside the opening tag of a rendered link. */
  lemma LinkTagHasNoClose(s: string, k: nat, p: nat)
    requires At(s, k, "<") && At(s, k + 1, "a") && At(s, k + 2, " ")
    requires At(s, k + 3, "class=\"" + "topic-link") && At(s, k + 20, "\"") && At(s, k + 21, ">")
    requires k <= p < k + 22
    ensures !AtCI(s, p, BlockClose)
  {
    if p == k {
      AtCharIs(s, k + 1, "a", 0);
      NotAtCI(s, p, BlockClose, 1);
    } else if p == k + 1 {
      NoCloseWithin(s, k + 1, "a", p);
    } else if p == k + 2 {
      NoCloseWithin(s, k + 2, " ", p);
    } else if p < k + 20 {
      NoCloseWithin(s, k + 3, "class=\"" + "topic-link", p);
    } else if p == k + 20 {
      NoCloseWithin(s, k + 20, "\"", p);
    } else {
      NoCloseWithin(s, k + 21, ">", p);
    }
  }

  /** No `</div>` starts inside a plain label or the `</a>` that closes it. */
  lemma LinkLabelHasNoClose(s: string, start: nat, text: string, p: nat)
    requires At(s, start, text) && '<' !in text
    requires At(s, start + |text|, "<") && At(s, start + |text| + 1, "/a>")
    requires start <= p < start + |text| + 4
    ensures !AtCI(s, p, BlockClose)
  {
    var e := start + |text|;
    if p < e {
      NoCloseWithin(s, start, text, p);
    } else if p == e {
      AtCharIs(s, e + 1, "/a>", 1);
      NotAtCI(s, p, BlockClose, 2);
    } else {
      NoCloseWithin(s, e + 1, "/a>", p);
    }
  }

  /** No `</div>` starts inside a run of rendered links. */
  lemma {:induction false} LinksHaveNoClose(s: string, k: nat, labels: seq<string>, p: nat)
    requires At(s, k, LinksHtml(labels)) && PlainLabels(labels)
    requires k <= p < k + |LinksHtml(labels)|
    ensures !AtCI(s, p, BlockClose)
    decreases |labels|
  {
    var head := LinkHtml(labels[0]);
    var tail := LinksHtml(labels[1..]);
    AtAppend(s, k, head, tail);
    PlainTail(labels);
    if p < k + |head| {
      LinkHasNoClose(s, k, labels[0], p);
    } else {
      LinksHaveNoClose(s, k + |head|, labels[1..], p);
    }
  }

  /** The opening tag of a rendered block ends right after its class attribute, before `>`. */
  lemma BlockOpenTagEnd(s: string, k: nat)
    requires At(s, k, TopicBlockOpen)
    ensures OpenTagEnd(s, k, "div", "preview-nav-topics\"") == Some(k + 31)
    ensures s[k + 31] == '>'
  {
    var cls := "class=\"" + "preview-nav-topics\"";
    AtAppend(s, k, "<div" + " " + cls, ">");
    AtAppend(s, k, "<div" + " ", cls);
    AtAppend(s, k, "<div", " ");
    assert "<" + "div" == "<div";
    AtIsAtCI(s, k, "<div");
    AtCharIs(s, k + 4, " ", 0);
    AtCharIs(s, k + 5, cls, 0);
    SpaceRunAtIs(s, k + 4, 1);
    AtIsAtCI(s, k + 5, cls);
    AtCharIs(s, k + 31, ">", 0);
  }

  /** A rendered block at `k` is the match the block pattern finds there, up to its `</div>`. */
  lemma TopicBlockAtRendered(s: string, k: nat, labels: seq<string>)
    requires At(s, k, TopicBlockHtml(labels)) && PlainLabels(labels)
    ensures TopicBlockAt(s, k) == Some(k + |TopicBlockHtml(labels)|)
  {
    var e := k + 32 + |LinksHtml(labels)|;
    BlockCloseFound(s, k, labels);
    BlockOpenTagEnd(s, k);
    TopicBlockAtIs(s, k, k + 31, e);
    BlockLength(labels, k, e);
  }

  /** The block pattern at `p` matches up to the first `</div>` after the opening tag. */
  lemma TopicBlockAtIs(s: string, p: nat, h: nat, e: nat)
    requires OpenTagEnd(s, p, "div", "preview-nav-topics\"") == Some(h)
    requires FindCI(s, BlockClose, h) == Some(e)
    ensures TopicBlockAt(s, p) == Some(e + 6)
  {
  }

  lemma BlockLength(labels: seq<string>, k: nat, e: nat)
    requires e == k + 32 + |LinksHtml(labels)|
    ensures e + 6 == k + |TopicBlockHtml(labels)|
  {
  }

  /** The first `</div>` after a rendered block's opening tag is the block's own. */
  lemma BlockCloseFound(s: string, k: nat, labels: seq<string>)
    requires At(s, k, TopicBlockHtml(labels)) && PlainLabels(labels)
    ensures At(s, k, TopicBlockOpen)
    ensures FindCI(s, BlockClose, k + 31) == Some(k + 32 + |LinksHtml(labels)|)
  {
    var links := LinksHtml(labels);
    AtAppend(s, k, TopicBlockOpen + links, BlockClose);
    AtAppend(s, k, TopicBlockOpen, links);
    BlockOpenTagEnd(s, k);
    var e := k + 32 + |links|;
    forall p | k + 31 <= p < e ensures !AtCI(s, p, BlockClose) {
      if p == k + 31 {
        NotTagStart(s, p);
      } else {
        LinksHaveNoClose(s, k + 32, labels, p);
      }
    }
    AtIsAtCI(s, e, BlockClose);
    FindCIIs(s, BlockClose, k + 31, e);
  }

  /** No link starts inside the opening tag of a block. */
  lemma NoLinkInBlockOpen(b: string, p: nat)
    requires At(b, 0, TopicBlockOpen) && p < |TopicBlockOpen|
    ensures TopicLinkAt(b, p).None?
  {
    BlockOpenShape();
    AtAppend(b, 0, "<", BlockTagRest);
    NoLinkInTag(b, BlockTagRest, p);
  }

  /** What follows the `<` of a block's opening tag. */
  const BlockTagRest: string := "div" + " " + ("class=\"" + "preview-nav-topics\"") + ">"

  lemma BlockOpenShape()
    ensures TopicBlockOpen == "<" + BlockTagRest && |BlockTagRest| == 31
    ensures '<' !in BlockTagRest && !FoldsTo(BlockTagRest[0], 'a')
  {
  }

  /** No link starts inside a tag `<` + `rest` whose rest starts with a letter other than `a`
      and holds no `<`. */
  lemma NoLinkInTag(b: string, rest: string, p: nat)
    requires At(b, 1, rest) && p <= |rest| && '<' !in rest && rest != [] && !FoldsTo(rest[0], 'a')
    ensures TopicLinkAt(b, p).None?
  {
    if p == 0 {
      AtCharIs(b, 1, rest, 0);
      NotAtCI(b, p, "<a", 1);
    } else {
      AtKeepsOut(b, 1, rest, '<', p);
      NotTagStart(b, p);
    }
    NoLinkAt(b, p);
  }

  /** The link scan over a whole rendered block reads back the labels. */
  lemma BlockLinkLabels(labels: seq<string>)
    requires PlainLabels(labels)
    ensures LinkLabels(TopicBlockHtml(labels), 0) == KeptLabels(labels)
  {
    var b := TopicBlockHtml(labels);
    var rest := LinksHtml(labels) + BlockClose;
    AppendAssoc(TopicBlockOpen, LinksHtml(labels), BlockClose);
    assert At(b, 0, TopicBlockOpen + rest);
    AtAppend(b, 0, TopicBlockOpen, rest);
    forall p | 0 <= p < |TopicBlockOpen| ensures TopicLinkAt(b, p).None? {
      NoLinkInBlockOpen(b, p);
    }
    LinkLabelsSkip(b, 0, |TopicBlockOpen|);
    RenderedLinksAt(b, |TopicBlockOpen|, labels);
    LinkLabelsRendered(b, |TopicBlockOpen|, labels);
  }

  /** The hints of a page holding a rendered topic-order block at `k`, with no block match
      starting before it, are that block's labels in document order, stripped, with labels that
      strip to nothing dropped; whatever follows the block's `</div>`, more links included, is
      ignored. The block is in the rendering of `TopicBlockHtml`: links with no attribute but the
      class, and labels without `<`. Links carrying an `href` are covered one at a time by
      `LinkLabelsOver` and `BlankLinkAddsNothing`. */
  lemma TopicHintsOfRendered(html: string, k: nat, labels: seq<string>)
    requires At(html, k, TopicBlockHtml(labels)) && PlainLabels(labels)
    requires forall p: nat :: p < k ==> TopicBlockAt(html, p).None?
    ensures ParseTopicOrderHints(html) == KeptLabels(labels)
  {
    var end := k + |TopicBlockHtml(labels)|;
    TopicBlockAtRendered(html, k, labels);
    FirstBlockIs(html, k, end);
    HintsOfFirstBlock(html, k, end);
    BlockLinkLabels(labels);
  }

  /** Hints rendered into a page's first block, in the rendering of `TopicBlockHtml`, are read
      back exactly. */
  lemma TopicHintsRoundTrip(html: string, k: nat, names: seq<string>)
    requires At(html, k, TopicBlockHtml(names)) && PlainLabels(names)
    requires forall i :: 0 <= i < |names| ==> IsHint(names[i])
    requires forall p: nat :: p < k ==> TopicBlockAt(html, p).None?
    ensures ParseTopicOrderHints(html) == names
  {
    TopicHintsOfRendered(html, k, names);
    KeptLabelsOfHints(names);
  }
}
