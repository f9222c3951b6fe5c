# Parabula worksheet tooling, modelled in Dafny

This project models the deterministic core of the Parabula repository. That repository holds
Hebrew A4 worksheet pages (the Pythagoras unit), a small preview server, and scripts that OCR the
scanned pages and turn them into SVG. The model covers four groups of logic:

- **The A4 page rules** (`tests/a4-pages.rules.test.mjs`):
  - markup stripping and regular-expression escaping (`HtmlText`);
  - the page file name, the `nav-meta` label `<topic> — עמוד i / t` and the topic-order hints of
    the `preview-nav-topics` block (`PageMeta`), with the hints read back from a rendered block
    (`TopicHints`);
  - the numbering check: one total per topic, no repeated index, indices 1..total all present
    (`Numbering`);
  - the global reading order: the longest-hint-list fold, grouping by topic with `אחר` as the
    fallback, both sorts, the flattened order and the prev/next expectations (`ReadingOrder`).
- **The preview server's policies** (`preview/server.mjs`, module `PreviewServer`):
  - the ignore and watch predicates;
  - the extension-to-content-type and cache-control choices;
  - the listing filter;
  - `safeResolve`'s containment check.
- **The vectorisation scripts** (`scripts/vectorize-pythagoras-pages.mjs`,
  `scripts/vectorize-pythagoras-figures.mjs`):
  - argument parsing and `pad2` (`CliArgs`);
  - `escapeXml` and `extractSvgInner` (`SvgText`);
  - `stripWhitePaths` in its exact-white and near-white forms (`WhitePaths`);
  - the Tesseract TSV reader (`TesseractTsv`);
  - the `<text>` layer (`TextLayer`);
  - `clampInt` and `fillRectWhite` over an RGBA byte sequence (`Raster`).
- **The OCR scripts** (`scripts/ocr-pythagoras.mjs`,
  `scripts/debug-ocr-pythagoras-page1-labels.mjs`):
  - `normalizeWhitespace` and `cleanHebrewWorksheetText` (`OcrText`);
  - the Hebrew sub-question label recogniser and the label sort (`SubpartLabels`).

Supporting modules:

- `Results` holds `Option` and `Outcome`.
- `Chars` holds the JavaScript `\s` class, digits and ASCII lower-casing.
- `Strings` holds searching, trimming, white-space collapsing, split and join, and decimal
  rendering and `parseInt`.
- `Seqs` holds `Map`, `Filter` and `Collect`.
- `Sorting` is a stable insertion sort against a strict-order parameter.

Global regular-expression replacements are modelled by their left-to-right scan. At each position
the pattern either matches there (the match is replaced and the scan resumes after it) or the
character is kept.

The environment is passed in as parameters:

- Hebrew `localeCompare` is a `collate` relation, required to be a strict order where a lemma
  needs one.
- `path.resolve` is a POSIX segment normaliser over the root's segments.
- `path.extname` follows the POSIX rule: the last `.` of the basename, not in front, and not for
  `..`.

## Model

| member | source | states |
|---|---|---|
| HtmlText.RemoveTags | tests/a4-pages.rules.test.mjs:27 | after the tag-removal pass no `<` has a `>` after it, the text is no longer, and a `>` survives only if the input had one |
| HtmlText.RemoveTagsFixed | tests/a4-pages.rules.test.mjs:27 | text with no tag span left passes through the tag-removal pass unchanged |
| HtmlText.StripHtml | tests/a4-pages.rules.test.mjs:25-30 | the stripped text is trimmed, has single spaces only and holds no tag span |
| HtmlText.StripHtmlIdempotent | tests/a4-pages.rules.test.mjs:25-30 | stripping twice gives the same result as stripping once |
| HtmlText.EscapeRegExpLiteral | tests/a4-pages.rules.test.mjs:70-73 | the result reads as a chain of literal atoms (plain characters or a backslash before a metacharacter), is no shorter, and text without metacharacters (`-` included) is unchanged |
| HtmlText.EscapeRegExpLiteralRoundTrip | tests/a4-pages.rules.test.mjs:70-73 | deleting the inserted backslashes gives back the input |
| PageMeta.PageFileNameRoundTrip | tests/a4-pages.rules.test.mjs:8-10 | every page number gives a name accepted as an A4 page file, and the number is read back from that name |
| PageMeta.NavMetaText | tests/a4-pages.rules.test.mjs:185-186 | the `nav-meta` content is normalised and holds no markup; it is missing only when no position starts a `nav-meta` element |
| PageMeta.ParseNavLabelTopic | tests/a4-pages.rules.test.mjs:187-188 | a parsed topic is trimmed and lies on one line |
| PageMeta.NavLabelRoundTrip | tests/a4-pages.rules.test.mjs:132-135 | a trimmed, dash-free, single-line topic with any index and total, written as a label, parses back to exactly that topic, index and total |
| PageMeta.NavLabelNeedsDashAndSlash | tests/a4-pages.rules.test.mjs:132 | text without the dash, or without the `/`, is not a label |
| PageMeta.LinkLabels | tests/a4-pages.rules.test.mjs:38-44 | every label the link loop keeps is non-empty, normalised and free of markup |
| PageMeta.ParseTopicOrderHints | tests/a4-pages.rules.test.mjs:32-46 | a page with no `preview-nav-topics` block gives no hints, and every hint is a non-empty stripped label |
| TopicHints.LinkLabelsOver | tests/a4-pages.rules.test.mjs:40-44 | one `exec` step: a link the scan meets puts its stripped label ahead of the labels read from where the link ends, or puts nothing when the label strips to empty |
| TopicHints.BlankLinkAddsNothing | tests/a4-pages.rules.test.mjs:42 | a link whose label strips to nothing is skipped: the labels are those read from where the link ends |
| TopicHints.LinkLabelsRendered | tests/a4-pages.rules.test.mjs:38-45 | over rendered links closed by `</div>`, the loop returns their labels in document order, stripped, with the blank ones dropped |
| TopicHints.TopicBlockAtRendered | tests/a4-pages.rules.test.mjs:33 | the lazy block pattern on a rendered block ends at the block's own `</div>`, the first one after its opening tag |
| TopicHints.TopicHintsOfRendered | tests/a4-pages.rules.test.mjs:32-46 | when the first block match of a page is a rendered block, the hints are that block's labels in document order, stripped, blank ones dropped; whatever follows its `</div>`, more links included, is ignored |
| TopicHints.TopicHintsRoundTrip | tests/a4-pages.rules.test.mjs:32-46 | names that are already hints, rendered as the first block of a page, are read back exactly and in order |
| Numbering.CheckRecord | tests/a4-pages.rules.test.mjs:142-145 | one label passes exactly when its topic is non-empty, index and total are positive, and the index does not exceed the total |
| Numbering.FirstMissing | tests/a4-pages.rules.test.mjs:166-168 | the result is the smallest absent index in the range, or there is none and every index is present |
| Numbering.MissingPage | tests/a4-pages.rules.test.mjs:165-169 | the coverage loop finds nothing exactly when every topic has every index from 1 to its total |
| Numbering.AdmitClash | tests/a4-pages.rules.test.mjs:150-157 | entering a page stops exactly when an earlier page of its topic has another total or the same index |
| Numbering.ScanRecordsCorrect | tests/a4-pages.rules.test.mjs:150-157 | the per-page loop runs through exactly when the pages keep the per-page rules, and its map then holds exactly those pages |
| Numbering.CoverageCorrect | tests/a4-pages.rules.test.mjs:164-169 | with the map reflecting the pages, the coverage loop passes exactly when every topic is complete |
| Numbering.CheckNumbering | tests/a4-pages.rules.test.mjs:142-169 | the numbering check passes exactly when every label is well formed, totals agree within a topic, no index repeats and every topic covers 1..total |
| ReadingOrder.TopicOf | tests/a4-pages.rules.test.mjs:188 | the topic is the trimmed label topic, or `אחר` when that is empty, and never empty |
| ReadingOrder.ReadEntryOfLabel | tests/a4-pages.rules.test.mjs:185-198 | a page whose label is `topic — עמוד i / n` is read with exactly that topic, index and total |
| ReadingOrder.ReadAllCorrect | tests/a4-pages.rules.test.mjs:182-199 | either every page is read, in order, or the failure names the first unreadable page |
| ReadingOrder.BestTopicOrderIsFirstLongest | tests/a4-pages.rules.test.mjs:180-193 | the final hint list is at least as long as every list, and unless it is empty it is a list of some page with every earlier page's list strictly shorter |
| ReadingOrder.FindGroup | tests/a4-pages.rules.test.mjs:206 | the group found carries the name; when none is found no group carries it |
| ReadingOrder.GroupCorrect | tests/a4-pages.rules.test.mjs:202-208 | the grouping has one group per key, holding exactly that key's pages in entry order and the total of the key's first page |
| ReadingOrder.PagesAscending | tests/a4-pages.rules.test.mjs:211 | within a topic the sorted pages have ascending indices |
| ReadingOrder.IndexIn | tests/a4-pages.rules.test.mjs:218-219 | the index is the first position of the name in the hint list, or -1 when it is absent |
| ReadingOrder.TopicBeforeIsStrict | tests/a4-pages.rules.test.mjs:213-225 | with a strict collation the topic comparator is a strict order |
| ReadingOrder.LayoutInTopicOrder | tests/a4-pages.rules.test.mjs:213-225 | `אחר` comes last, hinted topics come before unhinted ones and in hint order, and unhinted topics follow the collation |
| ReadingOrder.ReadingOrderIsPermutation | tests/a4-pages.rules.test.mjs:227-228 | the flattened order is a permutation of the pages' files, so the length check cannot fail |
| ReadingOrder.TopicIsContiguous | tests/a4-pages.rules.test.mjs:227 | each topic's files form one contiguous block of the flattened order, in the topic's sorted page order |
| ReadingOrder.NavByFileLastWins | tests/a4-pages.rules.test.mjs:231 | every page's file has controls, and they are that page's when no later page has the same file |
| ReadingOrder.ReadingOrderHasNav | tests/a4-pages.rules.test.mjs:233-236 | every file of the flattened order has controls, so the missing-controls failure never fires |
| ReadingOrder.CheckNavFromCorrect | tests/a4-pages.rules.test.mjs:233-252 | the link loop passes exactly when every position meets its prev and next expectations |
| ReadingOrder.LinkedAtEverywhere | tests/a4-pages.rules.test.mjs:238-251 | the position-wise expectations agree with the pairwise definition: the first page has a disabled prev, the last a disabled next, and every other control links to the neighbour |
| ReadingOrder.CheckNav | tests/a4-pages.rules.test.mjs:233-252 | the link check passes exactly when the flattened order is correctly linked |
| ReadingOrder.A4Pages | tests/a4-pages.rules.test.mjs:174 | the page filter keeps exactly the sources whose names are A4 page files |
| ReadingOrder.CheckReadingOrder | tests/a4-pages.rules.test.mjs:172-253 | a pass means there are pages, all are readable and they are linked in reading order; a link failure is never about missing controls |
| ReadingOrder.CheckReadingOrderCorrect | tests/a4-pages.rules.test.mjs:172-253 | the rule passes exactly when there are pages, all are readable and they are linked in reading order, and the length check never fires |
| PreviewServer.NormalizeSlashes | preview/server.mjs:16 | every backslash becomes `/`, every other character stays, and no backslash is left |
| PreviewServer.IsIgnoredPath | preview/server.mjs:15-25 | a path is ignored exactly when its first segment (after turning backslashes into `/`) is `.git`, `node_modules` or `.vscode`, so `node_modulesX` is not ignored |
| PreviewServer.IsIgnoredForListing | preview/server.mjs:27-30 | a path is left out of the listing exactly when its first segment is an ignored directory, or is `preview` with something below it |
| PreviewServer.IgnoredIsIgnoredForListing | preview/server.mjs:27-30 | every ignored path is ignored for the listing too |
| PreviewServer.IgnoredDirectoryCoversContents | preview/server.mjs:95-100 | everything below a directory ignored for the listing is itself ignored, so skipping the directory loses nothing |
| PreviewServer.ExtnameShape | preview/server.mjs:33 | an extension is empty or a `.` followed by text without `.` or `/` |
| PreviewServer.ExtnameOfName | preview/server.mjs:33 | a name ending in `.x` has the extension `.x` |
| PreviewServer.ExtnameOfDotfile | preview/server.mjs:33 | a dotfile `.x`, and a name without a dot, have no extension |
| PreviewServer.KindOf | preview/server.mjs:59-83 | the extension is classed as HTML, CSS, JS or MJS exactly when it equals `.html`, `.css`, `.js` or `.mjs` |
| PreviewServer.ContentTypeIgnoresCase | preview/server.mjs:59-83 | upper-case letters in the extension do not change the content type |
| PreviewServer.MimeOf | preview/server.mjs:61-81 | the type starts with `text/` exactly for HTML, CSS, JS and MJS, and is `application/octet-stream` exactly for an unlisted extension |
| PreviewServer.ContentTypeFor | preview/server.mjs:59-83 | the content type is textual exactly when the lower-cased extension is `.html`, `.css`, `.js` or `.mjs` |
| PreviewServer.IsWatchedFile | preview/server.mjs:32-35 | a file is watched exactly when it is served with a `text/` content type |
| PreviewServer.ListingFilterCorrect | preview/server.mjs:95-104 | the listing keeps exactly the `.html` files (any case) that are not ignored for the listing |
| PreviewServer.ListingFilterKeeps | preview/server.mjs:95-104 | each walked path is judged on its own, and the listed paths keep their walk order |
| PreviewServer.ListHtmlFilesCorrect | preview/server.mjs:85-111 | the sorted listing holds exactly the listed files, in collation order |
| PreviewServer.RequestPath | preview/server.mjs:50-51 | the request path holds no `?` and does not start with `/` |
| PreviewServer.Walk | preview/server.mjs:52 | resolving relative pieces from a normalised path gives a normalised path (no empty, `.` or `..` segment) |
| PreviewServer.SafeResolve | preview/server.mjs:48-57 | a returned path is the resolved request path |
| PreviewServer.SafeResolveStaysInside | preview/server.mjs:53-56 | whatever is returned lies inside the root |
| PreviewServer.SafeResolveAcceptsInside | preview/server.mjs:53-56 | for a root other than `/`, exactly the paths inside the root are accepted |
| PreviewServer.RenderInside | preview/server.mjs:53 | for a root other than `/`, "equals the root or starts with root plus separator" means "has the root's segments as a prefix" |
| PreviewServer.SafeResolveRejectsUnderSlash | preview/server.mjs:53 | served from `/`, every plain file `/q` is rejected although it lies inside the root |
| PreviewServer.SafeResolveFixedCorrect | preview/server.mjs:53-56 | with the separator added only when the root lacks one, exactly the paths inside the root are accepted, for every root |
| PreviewServer.SafeResolveFixed | preview/server.mjs:48-57 | the corrected resolver still returns only the resolved request path |
| PreviewServer.CacheControl | preview/server.mjs:175 | the policy is `no-store` exactly for the HTML and CSS kinds, and `no-cache` for every other file |
| PreviewServer.NoStoreExactlyForMarkup | preview/server.mjs:173-176 | a response is `no-store` exactly when its content type is HTML or CSS |
| CliArgs.ParseListArg | scripts/vectorize-pythagoras-figures.mjs:15-21 | a missing or empty value gives no items, and every item is non-empty and trimmed |
| CliArgs.ParseListArgRoundTrip | scripts/vectorize-pythagoras-figures.mjs:15-21 | non-empty trimmed items without commas, joined with commas, are read back one for one and in order |
| CliArgs.PositiveInts | scripts/vectorize-pythagoras-pages.mjs:20-21 | every kept number is positive, and there are no more numbers than items |
| CliArgs.PositiveIntsSkips | scripts/vectorize-pythagoras-pages.mjs:20-21 | an item that is not a positive integer is dropped without disturbing the others |
| CliArgs.ParsePagesArg | scripts/vectorize-pythagoras-pages.mjs:14-22 | a missing or empty value gives no pages, and every page number is positive |
| CliArgs.ParsePagesArgRoundTrip | scripts/ocr-pythagoras.mjs:12-20 | positive numbers written as `1,2,3` are read back one for one and in order |
| CliArgs.Pad2 | scripts/vectorize-pythagoras-pages.mjs:24-26 | the padded form is all digits, at least two long, a single digit gets exactly one leading `0`, and numbers from 10 up are written as plain decimal digits |
| CliArgs.Pad2Value | scripts/vectorize-pythagoras-pages.mjs:24-26 | the padded form denotes the same number and `parseInt` reads it back |
| OcrText.NormalizeWhitespace | scripts/ocr-pythagoras.mjs:22-29 | the result has no white space at either end |
| OcrText.CrlfToLfLeavesCrlf | scripts/ocr-pythagoras.mjs:24 | after the single `\r\n` pass a `\r\n` remains exactly where the input had `\r\r\n` |
| OcrText.ReplaceRunsLeavesNoRun | scripts/ocr-pythagoras.mjs:25-27 | a run-collapsing pass leaves no run of the collapsed class as long as its threshold |
| OcrText.ReplaceRunsFixed | scripts/ocr-pythagoras.mjs:25-27 | text without a run of the threshold length is unchanged by a run-collapsing pass |
| OcrText.NormalizeWhitespaceShape | scripts/ocr-pythagoras.mjs:22-29 | the result has no three newlines in a row, no tab, form feed or vertical tab, no two spaces in a row, and no white space at either end |
| OcrText.NormalizeWhitespaceCrlf | scripts/ocr-pythagoras.mjs:22-29 | the result has no `\r\n` when the input has no `\r\r\n` |
| OcrText.NormalizeWhitespaceFixed | scripts/ocr-pythagoras.mjs:22-29 | text already normal and without `\r\n` is unchanged |
| OcrText.NormalizeWhitespaceIdempotent | scripts/ocr-pythagoras.mjs:22-29 | normalising twice is normalising once, for input without `\r\r\n` |
| OcrText.CleanLines | scripts/ocr-pythagoras.mjs:37-48 | no output line is a header line, and there are no more lines than went in |
| OcrText.CleanHebrewWorksheetText | scripts/ocr-pythagoras.mjs:31-49 | there are no more output lines than lines in the normalised text |
| OcrText.CleanHebrewWorksheetTextShape | scripts/ocr-pythagoras.mjs:31-46 | every output line is non-empty, has single spaces only, none at either end, and is not a header |
| OcrText.CleanLinesKeepsOrder | scripts/ocr-pythagoras.mjs:37-48 | the output is a subsequence of the collapsed lines, so surviving lines keep their order |
| OcrText.CleanLinesKeepsText | scripts/ocr-pythagoras.mjs:39-45 | a line that is not a header survives, collapsed, in its place |
| OcrText.CleanLinesDropsHeader | scripts/ocr-pythagoras.mjs:41-43 | a title, question or answers header is dropped wherever it stands |
| OcrText.CleanTextIsFixed | scripts/ocr-pythagoras.mjs:31-49 | clean lines joined by newlines are read back as the same lines |
| OcrText.CleanHebrewWorksheetTextIdempotent | scripts/ocr-pythagoras.mjs:31-49 | cleaning the cleaned lines, rejoined by newlines, changes nothing |
| TesseractTsv.ParseTsvWords | scripts/vectorize-pythagoras-pages.mjs:74-112 | there are at most as many words as lines after the header |
| TesseractTsv.ParseTsvWordsOrigin | scripts/vectorize-pythagoras-pages.mjs:83-110 | every word comes from a line after the header that passes the row checks |
| TesseractTsv.ParseTsvWordsSkipsHeader | scripts/debug-ocr-pythagoras-page1-labels.mjs:4-7 | the header line is never parsed: only the lines after it count, whatever it says |
| TesseractTsv.RowWordOfColumns | scripts/vectorize-pythagoras-pages.mjs:84-109 | a level-5 row of twelve tab-separated columns gives the word with `x1 = left + width`, `y1 = top + height`, its confidence and its text |
| TesseractTsv.ColumnsWordOf | scripts/debug-ocr-pythagoras-page1-labels.mjs:12-32 | at least twelve columns at level 5 with integer geometry and trimmed non-empty text give the word those numbers describe |
| TesseractTsv.FieldsWordShape | scripts/vectorize-pythagoras-pages.mjs:88-109 | a row gives a word exactly when it is at level 5, has integer left, top, width and height, and (when trimming) non-empty text; the box runs from (left, top) to (left + width, top + height), and the confidence and text are the conf and text columns |
| TesseractTsv.TracedWords | scripts/vectorize-pythagoras-pages.mjs:209-211 | every kept word has non-empty trimmed text and confidence at least 30 |
| TesseractTsv.TracedWordsKeeps | scripts/vectorize-pythagoras-pages.mjs:209-211 | a word is kept exactly when its trimmed text is non-empty and its confidence is at least 30 (a missing one counting as 0), and the kept words stay in their order |
| SubpartLabels.NormalizeText | scripts/debug-ocr-pythagoras-page1-labels.mjs:37-39 | the normalised text has no white space at either end |
| SubpartLabels.NormalizeTextHasNoMarks | scripts/debug-ocr-pythagoras-page1-labels.mjs:38 | the normalised text holds none of U+200E, U+200F and U+200B |
| SubpartLabels.NormalizeTextIdempotent | scripts/debug-ocr-pythagoras-page1-labels.mjs:37-39 | normalising twice is normalising once |
| SubpartLabels.IsHebrewSubpartLabel | scripts/debug-ocr-pythagoras-page1-labels.mjs:41-44 | a text is a label exactly when, ignoring white space and marks anywhere, it is one of א–ו alone or followed by one `.` |
| SubpartLabels.NormalizeTextKeepsLabel | scripts/debug-ocr-pythagoras-page1-labels.mjs:41-44 | normalising a text does not change whether it is a label |
| SubpartLabels.HitsFilter | scripts/debug-ocr-pythagoras-page1-labels.mjs:59-62 | the two filters in a row keep exactly the words that are confident enough and labels |
| SubpartLabels.HitsKeeps | scripts/debug-ocr-pythagoras-page1-labels.mjs:59-62 | each word is judged alone: a hit contributes its normalised self in place, any other word nothing |
| SubpartLabels.HitsAreLabels | scripts/debug-ocr-pythagoras-page1-labels.mjs:59-62 | every hit has confidence at least 10, normalised text, and that text is a label |
| SubpartLabels.SortHits | scripts/debug-ocr-pythagoras-page1-labels.mjs:68 | sorting rearranges the hits without adding or losing any |
| SubpartLabels.SortHitsOrder | scripts/debug-ocr-pythagoras-page1-labels.mjs:68 | after sorting, `y0` never decreases, and on equal `y0` the `x0` never increases |
| SvgText.EscapeXml | scripts/vectorize-pythagoras-pages.mjs:28-35 | text with no `&` and no markup character comes back unchanged |
| SvgText.EscapeXmlIsEscapeEach | scripts/vectorize-pythagoras-pages.mjs:28-35 | because `&` goes first, the five passes replace each character by its entity exactly once |
| SvgText.EscapeXmlHasNoMarkup | scripts/vectorize-pythagoras-pages.mjs:28-35 | the escaped text has no raw `<`, `>`, `"` or `'` |
| SvgText.EscapeXmlAppend | scripts/vectorize-pythagoras-figures.mjs:23-30 | escaping distributes over concatenation |
| SvgText.EscapeXmlKeepsAbsent | scripts/vectorize-pythagoras-figures.mjs:23-30 | a character absent from the input and from every entity is absent from the output |
| SvgText.EscapeXmlRoundTrip | scripts/vectorize-pythagoras-pages.mjs:28-35 | unescaping the five entities gives back the input |
| SvgText.ExtractSvgInner | scripts/vectorize-pythagoras-pages.mjs:60-65 | extraction never grows the document: the input comes back unchanged, or the result is strictly shorter |
| SvgText.ExtractSvgInnerShape | scripts/vectorize-pythagoras-figures.mjs:55-60 | the input comes back unchanged, or the result is the trimmed text strictly between a `>` and the last `</svg>` |
| SvgText.ExtractSvgInnerOfDocument | scripts/vectorize-pythagoras-pages.mjs:60-65 | for a document `head<svg attrs>body</svg>tail` the result is the body, trimmed |
| WhitePaths.ChannelValue | scripts/vectorize-pythagoras-figures.mjs:65 | a channel is accepted exactly when it is three digits whose value lies between 248 (255 for the exact palette) and 255 |
| WhitePaths.ExactIsNearWhite | scripts/vectorize-pythagoras-pages.mjs:67-72 | every element the exact-white pattern removes is removed, with the same length, by the near-white pattern |
| WhitePaths.StripWhitePaths | scripts/vectorize-pythagoras-pages.mjs:67-72 | the two passes only remove text, so the result is never longer than the input |
| WhitePaths.StripWhitePathsWithoutFill | scripts/vectorize-pythagoras-figures.mjs:62-72 | text with no white fill anywhere, such as a path with a channel below 248, is unchanged |
| WhitePaths.RemoveAllKeepsPlain | scripts/vectorize-pythagoras-figures.mjs:65 | text before the next `<` is kept as it is |
| WhitePaths.PairedElementMatches | scripts/vectorize-pythagoras-figures.mjs:65 | the paired pattern matches a white `<path…></path>` exactly, with the white space after it |
| WhitePaths.SelfClosingElementMatches | scripts/vectorize-pythagoras-figures.mjs:69 | the self-closing pattern matches a white `<path…/>` exactly, with the white space after it |
| WhitePaths.RemoveAllDropsSelfClosing | scripts/vectorize-pythagoras-figures.mjs:68-71 | the self-closing pass removes a white self-closing element and the white space after it |
| WhitePaths.StripWhitePathsDropsPaired | scripts/vectorize-pythagoras-figures.mjs:62-72 | `stripWhitePaths` removes a white paired element and the white space after it, and keeps what comes before it |
| TextLayer.RoundFifth | scripts/vectorize-pythagoras-pages.mjs:129 | the value is `Math.round(h / 5)` for a whole `h` |
| TextLayer.RoundNineTenths | scripts/vectorize-pythagoras-pages.mjs:136 | the value is `Math.round(9h / 10)`, with halves rounded up |
| TextLayer.HasHebrewTrim | scripts/vectorize-pythagoras-pages.mjs:117-132 | trimming does not change whether the text has a character in U+0590..U+05FF |
| TextLayer.WordElementShape | scripts/vectorize-pythagoras-pages.mjs:116-142 | a word gives an element exactly when its trimmed text is non-empty; Hebrew text is anchored at `x1`, other text at `x0`; the baseline lies a rounded fifth of the height above `y1`; the font size is at least 10 |
| TextLayer.LayoutAppend | scripts/vectorize-pythagoras-pages.mjs:116-143 | each word is laid out on its own: the layout of a concatenation is the concatenation of the layouts |
| TextLayer.LayoutOrigin | scripts/vectorize-pythagoras-pages.mjs:116-143 | every element comes from some word |
| TextLayer.ElementBodyOfRender | scripts/vectorize-pythagoras-pages.mjs:140-142 | the text of a rendered element, read back between the tags and unescaped, is the element's text |
| TextLayer.LayerLines | scripts/vectorize-pythagoras-pages.mjs:114-145 | with no newline in any word, the layer has exactly one line per element, in order, and each line reads back as its word's trimmed text |
| TextLayer.BuildTextLayer | scripts/vectorize-pythagoras-pages.mjs:114-145 | the layer is empty exactly when no word has any text once trimmed |
| Raster.ClampInt | scripts/vectorize-pythagoras-pages.mjs:37-39 | with `min <= max` the result lies in the range, equals the value when it is already in range, and otherwise is the nearer bound; with `min > max` it is `min` |
| Raster.ClampedRect | scripts/vectorize-pythagoras-pages.mjs:44-47 | the clamped corners are ordered, non-negative, and inside the image on each axis with a positive size |
| Raster.PixelOfByte | scripts/vectorize-pythagoras-pages.mjs:51 | byte `i` belongs to pixel (x, y) exactly when it is one of the four bytes from `(width * y + x) * 4` |
| Raster.FillRectWhite | scripts/vectorize-pythagoras-pages.mjs:41-58 | exactly the bytes of the pixels in the clamped rectangle become 255 and every other byte is unchanged; swapping the corners gives the same image |
| Raster.WhitenedPixel | scripts/vectorize-pythagoras-figures.mjs:36-53 | in pixel coordinates, all four channels of a pixel inside the clamped rectangle are 255, and every byte of a pixel outside it is as it was |

## Left out

- The HTTP server, the SSE client set, the `fs.watch` live reload, stream piping and port handling
  (preview/server.mjs:37-46 and 113-203). These are I/O and event plumbing. Of the request handler,
  only the calls to `safeResolve` (line 158) and `contentTypeFor` (line 174) and the cache-control
  choice (line 175) are modelled. The routing of `/events`, `/api/files` and `/`, and the 400, 403
  and 404 statuses, are not.
- The directory walks and `readdir`/`readFile` helpers. The listing is modelled as the filter and
  sort applied to the walk's paths, which are given as input.
- `decodeURIComponent` in `safeResolve`. The request path is taken as already decoded.
- `path.resolve`. It is modelled as a segment normaliser, and the root as a sequence of segments.
- Hebrew `localeCompare`. It is the `collate` parameter.
- `parseNavHref` and the one-off structure regexes of the page tests, including the title and
  page-number circle checks. Each is a single pattern test. The prev/next controls are inputs of a
  page (`ReadingOrder.PageSource`).
- Tesseract, ImageTracer, PNG and JPEG decoding, `decodeImage`, and every `main` with its file
  writes. These are foreign libraries and I/O.
- `parseTsvWords` in the figures script (scripts/vectorize-pythagoras-figures.mjs:73-105), and the
  `finalSvg` fragment. The text of that function is not well-formed: a stray `const finalSvg =` and
  a template line sit inside it, and `.split` is missing. The page script's reader is modelled
  instead.
- The figures script as a whole does not parse as JavaScript. On line 73, `const finalSvg =` takes
  the following function declaration as its initializer. On lines 76-78, a binary `+` is followed by
  `.slice(1)`. Every row that cites scripts/vectorize-pythagoras-figures.mjs models the evident text
  of the function it names (`parseListArg`, `escapeXml`, `clampInt`, `fillRectWhite`,
  `extractSvgInner`, `stripWhitePaths`), not a module that loads.
- The `if (!bbox) continue` branch of `buildTextLayer`. Every word the reader produces has a box.
- Floating point:
  - `parseFloat` confidences are read by their integer part, which decides the integer thresholds
    10 and 30 the same way for numbers without an exponent. A confidence column spelled
    `Infinity` is read by `parseFloat` as infinite, and passes both thresholds; the model reads it
    as `None`, which passes neither. Tesseract does not write that spelling;
  - `NaN` is `None`;
  - `parseInt` gives `Infinity` for digit runs above about 1.8e308, and `Number.isFinite` then
    rejects them. The model reads such runs as exact whole numbers and keeps them (see the lines
    for `CliArgs.PositiveInts`, `CliArgs.ParsePagesArg`, `CliArgs.ParsePagesArgRoundTrip`,
    `TesseractTsv.RowWordOfColumns` and `TesseractTsv.ColumnsWordOf` below).
- CliArgs.Pad2: writes every number as plain decimal digits. JavaScript's `String(n)` writes
  numbers from 10^21 up in exponent form, so page 10^21 would be named `page-1e+21`; that form is
  not modelled. The coordinates and font size that `buildTextLayer` writes into the `x`, `y` and
  `font-size` attributes are likewise written as plain digits (`TextLayer.IntToString`).
- CliArgs.Pad2Value: holds for every n in the model. In JavaScript it holds only below 10^21 (and,
  through the rounding of `parseInt`, only up to 2^53): `parseInt("1e+21", 10)` is 1.
- TextLayer.RoundFifth: reads `height * 0.2` exactly, as `h / 5`. The binary rounding of the
  product is not modelled.
- TextLayer.RoundNineTenths: reads `height * 0.9` exactly, as `9h / 10`. The binary rounding of the
  product is not modelled.
- Raster.ClampInt: the int32 truncation of `value | 0` is not modelled. The inputs are whole
  numbers within range.
- Raster.FillRectWhite: the int32 wrap of `<< 2` is not modelled. Images are assumed to have fewer
  than 2^29 pixels.
- CliArgs.ParsePagesArg: reads numbers exactly. The loss of precision of `parseInt` above 2^53 is
  not modelled. Nor is `Infinity`: JavaScript reads digit runs above about 1.8e308 as `Infinity`
  and `Number.isFinite` drops that page (scripts/ocr-pythagoras.mjs:19), while the model keeps it.
- CliArgs.PositiveInts: digit runs above about 1.8e308 are kept as exact whole numbers. JavaScript
  reads them as `Infinity`, and `Number.isFinite` drops them (scripts/vectorize-pythagoras-pages.mjs:21);
  that test is modelled only for `NaN`.
- CliArgs.ParsePagesArgRoundTrip: promises the exact read-back for every positive number. JavaScript
  reads numbers above about 1.8e308 as `Infinity` and drops them, and rounds those above 2^53, so
  the source reads back exactly only the numbers up to 2^53.
- TesseractTsv.RowWordOfColumns: a row whose geometry columns are digit runs above about 1.8e308
  gives a word in the model. JavaScript reads those columns as `Infinity`, and `Number.isFinite`
  skips the row (scripts/vectorize-pythagoras-pages.mjs:98).
- TesseractTsv.ColumnsWordOf: a row whose geometry columns are digit runs above about 1.8e308 gives
  a word in the model. JavaScript reads those columns as `Infinity`, and `Number.isFinite` skips the
  row (scripts/debug-ocr-pythagoras-page1-labels.mjs:26).
- Numbering.CheckRecord: digit runs are read as exact whole numbers. JavaScript's `Number` rounds
  digit runs above 2^53 and reads those above about 1.8e308 as `Infinity`, which fails
  `Number.isInteger`; neither is modelled.
- OcrText.NormalizeWhitespaceCrlf: promises no `\r\n` only for input without `\r\r\n`. The single
  `\r\n` pass turns `\r\r\n` into `\r\n`, which `OcrText.CrlfToLfLeavesCrlf` states exactly.
- OcrText.NormalizeWhitespaceIdempotent: holds only for input without `\r\r\n`, for the same reason.
- tests/preview.rules.test.mjs is not part of this model. It only checks for substrings in files
  that are not modelled.

## Findings

| source | as written | input that shows it | evidently intended | confidence | as-written member | corrected member |
|---|---|---|---|---|---|---|
| preview/server.mjs:53 | the containment test checks the prefix `rootDir + path.sep` | a root of `/` and the request `/index.html`, which resolves to `/index.html` and is tested against the prefix `//` | every path inside the root is served, whatever the root | not executed; arises only when the server's root is `/` | PreviewServer.SafeResolveRejectsUnderSlash | PreviewServer.SafeResolveFixedCorrect |
