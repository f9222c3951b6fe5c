/** The path and URL policy of the preview server: which paths the watcher and the page listing
    ignore, which files trigger a reload, how a request path is confined to the served root, and
    which content type and cache policy a served file gets.

    Paths are POSIX paths (separator `/`). `path.extname` is modelled by Node's POSIX rule and
    `path.resolve` by segment normalisation against an already-normalised root. */
module PreviewServer {
  import opened Chars
  import opened Results
  import opened Strings
  import opened Sorting
  import opened Seqs

  // ----- ignored and watched paths ---------------------------------------------------------

  /** `relPath.replace(/\\/g, '/')`. */
  function NormalizeSlashes(p: string): (r: string)
    ensures |r| == |p| && '\\' !in r
    ensures forall i :: 0 <= i < |p| && p[i] != '\\' ==> r[i] == p[i]
    ensures forall i :: 0 <= i < |p| && p[i] == '\\' ==> r[i] == '/'
  {
    if p == [] then []
    else [if p[0] == '\\' then '/' else p[0]] + NormalizeSlashes(p[1..])
  }

  lemma NormalizeSlashesIdempotent(p: string)
    ensures NormalizeSlashes(NormalizeSlashes(p)) == NormalizeSlashes(p)
  {
  }

  lemma NormalizeSlashesAppend(a: string, b: string)
    ensures NormalizeSlashes(a + b) == NormalizeSlashes(a) + NormalizeSlashes(b)
  {
  }

  /** The directories the watcher and the listing skip. */
  const IgnoredDirs: seq<string> := [".git", "node_modules", ".vscode"]

  /** `isIgnoredPath`: a path is ignored exactly when its first segment is one of the ignored
      directories; so `node_modulesX` is not ignored, while `node_modules` and everything below
      it is. */
  predicate IsIgnoredPath(relPath: string)
    ensures IsIgnoredPath(relPath) <==> FirstSegment(NormalizeSlashes(relPath)) in IgnoredDirs
  {
    var n := NormalizeSlashes(relPath);
    InDirectory(n, ".git");
    assert ".git" + "/" == ".git/";
    InDirectory(n, "node_modules");
    assert "node_modules" + "/" == "node_modules/";
    InDirectory(n, ".vscode");
    assert ".vscode" + "/" == ".vscode/";
    || StartsWith(n, ".git/")
    || StartsWith(n, "node_modules/")
    || StartsWith(n, ".vscode/")
    || n == ".git"
    || n == "node_modules"
    || n == ".vscode"
  }

  /** The text before the first `/`, or all of it. */
  function FirstSegment(n: string): (r: string)
    ensures '/' !in r
    ensures StartsWith(n, r)
    ensures r == n || (|r| < |n| && n[|r|] == '/')
  {
    if '/' in n then n[..IndexOfChar(n, '/')] else n
  }

  lemma StartsWithSlashed(n: string, d: string)
    requires '/' !in d
    ensures StartsWith(n, d + "/") <==> '/' in n && FirstSegment(n) == d
  {
    if StartsWith(n, d + "/") {
      assert n[|d|] == '/';
      var k := IndexOfChar(n, '/');
      assert n[..|d|] == d;
    }
  }

  /** `n` is the directory `d` or lies below it exactly when its first segment is `d`. */
  lemma InDirectory(n: string, d: string)
    requires '/' !in d
    ensures StartsWith(n, d + "/") || n == d <==> FirstSegment(n) == d
  {
    StartsWithSlashed(n, d);
    if n == d || (FirstSegment(n) == d && '/' !in n) {
      assert FirstSegment(n) == n;
    }
  }

  /** `isIgnoredForListing`: ignored, or inside the server's own `preview/` directory; that is,
      the first segment is an ignored directory, or it is `preview` and something lies below it. */
  predicate IsIgnoredForListing(relPath: string)
    ensures var n := NormalizeSlashes(relPath);
      IsIgnoredForListing(relPath) <==>
        FirstSegment(n) in IgnoredDirs || ('/' in n && FirstSegment(n) == "preview")
  {
    var n := NormalizeSlashes(relPath);
    NormalizeSlashesIdempotent(relPath);
    StartsWithSlashed(n, "preview");
    assert "preview" + "/" == "preview/";
    IsIgnoredPath(n) || StartsWith(n, "preview/")
  }

  /** Everything the watcher ignores, the listing ignores too. */
  lemma IgnoredIsIgnoredForListing(relPath: string)
    requires IsIgnoredPath(relPath)
    ensures IsIgnoredForListing(relPath)
  {
    NormalizeSlashesIdempotent(relPath);
  }

  /** Appending `/` and more text leaves the first segment as it was. */
  lemma FirstSegmentAppend(d: string, x: string)
    ensures FirstSegment(d + "/" + x) == FirstSegment(d)
  {
    var n := d + "/" + x;
    assert n[..|d|] == d && n[|d|] == '/';
    if '/' in d {
      var k := IndexOfChar(d, '/');
      assert n[k] == '/' && n[..k] == d[..k];
    }
  }

  /** The listing walk skips an ignored directory without entering it; that loses nothing,
      because everything below an ignored directory is itself ignored. */
  lemma IgnoredDirectoryCoversContents(dir: string, rest: string)
    requires IsIgnoredForListing(dir)
    ensures IsIgnoredForListing(dir + "/" + rest)
  {
    var d, x := NormalizeSlashes(dir), NormalizeSlashes(rest);
    var n := d + "/" + x;
    NormalizeSlashesBelow(dir, rest);
    ListedBelow(d, x);
  }

  lemma NormalizeSlashesBelow(a: string, b: string)
    ensures NormalizeSlashes(a + "/" + b) == NormalizeSlashes(a) + "/" + NormalizeSlashes(b)
  {
    NormalizeSlashesAppend(a + "/", b);
    NormalizeSlashesAppend(a, "/");
    assert NormalizeSlashes("/") == "/";
  }

  /** The same, on the first segments of paths whose slashes are already normalised. */
  lemma ListedBelow(d: string, x: string)
    requires FirstSegment(d) in IgnoredDirs || ('/' in d && FirstSegment(d) == "preview")
    ensures var n := d + "/" + x;
      FirstSegment(n) in IgnoredDirs || ('/' in n && FirstSegment(n) == "preview")
  {
    FirstSegmentAppend(d, x);
    assert (d + "/" + x)[|d|] == '/';
  }

  // ----- extensions ------------------------------------------------------------------------

  /** The length of `p` without its trailing slashes. */
  function TrailingEnd(p: string): (e: nat)
    ensures e <= |p|
    ensures forall i :: e <= i < |p| ==> p[i] == '/'
    ensures e > 0 ==> p[e - 1] != '/'
    decreases |p|
  {
    if p == [] || p[|p| - 1] != '/' then |p| else TrailingEnd(p[..|p| - 1])
  }

  /** The last segment of `p`, trailing slashes ignored: what `path.basename` returns. */
  function Basename(p: string): (b: string)
    ensures '/' !in b
  {
    var t := p[..TrailingEnd(p)];
    match LastIndexOfChar(t, '/')
    case None => t
    case Some(k) => t[k + 1..]
  }

  /** `path.extname` (POSIX): from the last `.` of the basename to its end; empty when the
      basename has no `.`, has its only `.` in front (`.bashrc`), or is `..`. */
  function Extname(p: string): (r: string)
  {
    var b := Basename(p);
    match LastIndexOfChar(b, '.')
    case None => []
    case Some(d) => if d == 0 || b == ".." then [] else b[d..]
  }

  /** An extension is empty or a `.` followed by text without `.` or `/`. */
  lemma ExtnameShape(p: string)
    ensures var r := Extname(p);
      r == [] || (r[0] == '.' && '/' !in r && '.' !in r[1..])
  {
    var b := Basename(p);
    match LastIndexOfChar(b, '.')
    case None =>
    case Some(d) =>
      if d != 0 && b != ".." {
        assert b[d..][1..] == b[d + 1..];
      }
  }

  /** The last segment of a path that does not end in `/`. */
  function LastSegment(stem: string): (seg: string)
    requires stem != [] && stem[|stem| - 1] != '/'
    ensures seg != [] && '/' !in seg
  {
    match LastIndexOfChar(stem, '/')
    case None => stem
    case Some(k) => stem[k + 1..]
  }

  lemma BasenameOfName(stem: string, x: string)
    requires stem != [] && stem[|stem| - 1] != '/' && x != [] && '/' !in x
    ensures Basename(stem + x) == LastSegment(stem) + x
  {
    var p := stem + x;
    assert TrailingEnd(p) == |p| && p[..|p|] == p;
    LastIndexOfCharAppend(stem, x, '/');
    match LastIndexOfChar(stem, '/')
    case None =>
    case Some(k) => assert p[k + 1..] == stem[k + 1..] + x;
  }

  /** A name ending in `.x`, with `x` free of `.` and `/` and something other than `/` before
      the dot, has extension `.x`. */
  lemma ExtnameOfName(stem: string, x: string)
    requires x != [] && '.' !in x && '/' !in x
    requires stem != [] && stem[|stem| - 1] != '/'
    ensures Extname(stem + "." + x) == "." + x
  {
    var p, seg := stem + "." + x, LastSegment(stem);
    var b := seg + "." + x;
    BasenameDotted(stem, x, p, b);
    LastDotOf(seg, x, b);
    assert b != ".." by { assert |b| >= 3; }
    ExtnameAt(p, b, |seg|);
    AppendAssoc(seg, ".", x);
    SuffixAfter(seg, "." + x, b);
  }

  lemma BasenameDotted(stem: string, x: string, p: string, b: string)
    requires x != [] && '.' !in x && '/' !in x
    requires stem != [] && stem[|stem| - 1] != '/'
    requires p == stem + "." + x && b == LastSegment(stem) + "." + x
    ensures Basename(p) == b
  {
    var y := "." + x;
    assert '/' !in y by { ConcatKeepsOut(".", x, '/'); }
    BasenameOfName(stem, y);
    AppendAssoc(stem, ".", x);
    AppendAssoc(LastSegment(stem), ".", x);
  }

  lemma LastDotOf(seg: string, x: string, b: string)
    requires '.' !in x && b == seg + "." + x
    ensures LastIndexOfChar(b, '.') == Some(|seg|)
  {
    LastIndexOfCharAppend(seg + ".", x, '.');
    assert LastIndexOfChar(seg + ".", '.') == Some(|seg|);
  }

  /** `Extname` once the basename and its last `.` are known. */
  lemma ExtnameAt(p: string, b: string, d: nat)
    requires Basename(p) == b && LastIndexOfChar(b, '.') == Some(d) && d != 0 && b != ".."
    ensures d < |b| && Extname(p) == b[d..]
  {
  }

  /** A dotfile `.x` and a name `x` without a dot have no extension. */
  lemma ExtnameOfDotfile(x: string)
    requires x != [] && '.' !in x && '/' !in x
    ensures Extname("." + x) == []
    ensures Extname(x) == []
  {
    var d := "." + x;
    assert Basename(d) == d by {
      assert TrailingEnd(d) == |d| && d[..|d|] == d;
      assert '/' !in d;
    }
    assert LastIndexOfChar(d, '.') == Some(0) by {
      LastIndexOfCharAppend(".", x, '.');
      assert LastIndexOfChar(".", '.') == Some(0);
    }
    assert Basename(x) == x by {
      assert TrailingEnd(x) == |x| && x[..|x|] == x;
    }
  }

  /** The extension compared case-insensitively: `extname(p).toLowerCase()`. For the ASCII
      extensions compared against, lowering ASCII letters decides every comparison. */
  function LowerExt(p: string): string {
    LowerAscii(Extname(p))
  }

  /** The extensions the server tells apart. */
  datatype ExtKind = Html | Css | Js | Mjs | Json | Svg | Png | Jpg | Jpeg | Woff2 | Unlisted

  /** Which listed extension `ext` is. */
  function KindOf(ext: string): (k: ExtKind)
    ensures k == Html <==> ext == ".html"
    ensures k == Css <==> ext == ".css"
    ensures k == Js <==> ext == ".js"
    ensures k == Mjs <==> ext == ".mjs"
  {
    if ext == ".html" then Html
    else if ext == ".css" then Css
    else if ext == ".js" then Js
    else if ext == ".mjs" then Mjs
    else if ext == ".json" then Json
    else if ext == ".svg" then Svg
    else if ext == ".png" then Png
    else if ext == ".jpg" then Jpg
    else if ext == ".jpeg" then Jpeg
    else if ext == ".woff2" then Woff2
    else Unlisted
  }

  /** `isWatchedFile`: the watcher reloads on exactly the files served as text. */
  predicate IsWatchedFile(relPath: string)
    ensures IsWatchedFile(relPath) <==> StartsWith(ContentTypeFor(relPath), "text/")
  {
    var ext := LowerExt(relPath);
    ext == ".html" || ext == ".css" || ext == ".js" || ext == ".mjs"
  }

  /** The `case` labels of `contentTypeFor`. The type starts with `text/` exactly for markup,
      style and script, and only an unlisted extension falls back to `application/octet-stream`. */
  function MimeOf(k: ExtKind): (m: string)
    ensures StartsWith(m, "text/") <==> k in {Html, Css, Js, Mjs}
    ensures m == "application/octet-stream" <==> k == Unlisted
  {
    match k
    case Html => TextType("html; charset=utf-8")
    case Css => TextType("css; charset=utf-8")
    case Js | Mjs => TextType("javascript; charset=utf-8")
    case Json => OtherType("application/json; charset=utf-8")
    case Svg => OtherType("image/svg+xml")
    case Png => OtherType("image/png")
    case Jpg | Jpeg => OtherType("image/jpeg")
    case Woff2 => OtherType("font/woff2")
    case Unlisted => OtherType("application/octet-stream")
  }

  /** A `text/` type with the given subtype and parameters. */
  function TextType(rest: string): (m: string)
    ensures m == "text/" + rest && StartsWith(m, "text/")
  {
    assert ("text/" + rest)[..5] == "text/";
    "text/" + rest
  }

  /** A type outside `text/`. */
  function OtherType(m: string): (r: string)
    requires m != [] && m[0] != 't'
    ensures r == m && !StartsWith(r, "text/")
  {
    NotStartsWith(m, "text/");
    m
  }

  /** `contentTypeFor`: the `switch` over the lower-cased extension. The type is textual exactly
      for `.html`, `.css`, `.js` and `.mjs` in any case. */
  function ContentTypeFor(filePath: string): (t: string)
    ensures StartsWith(t, "text/") <==> LowerExt(filePath) in [".html", ".css", ".js", ".mjs"]
  {
    MimeOf(KindOf(LowerExt(filePath)))
  }

  lemma LowerAsciiOfLowered(a: string, b: string)
    requires |a| == |b| && forall i :: 0 <= i < |a| ==> b[i] == ToLowerAscii(a[i])
    ensures LowerAscii(a) == LowerAscii(b)
  {
  }

  /** Upper-case letters in the extension do not change the content type. */
  lemma ContentTypeIgnoresCase(stem: string, x: string)
    requires x != [] && '.' !in x && '/' !in x
    requires stem != [] && stem[|stem| - 1] != '/'
    ensures ContentTypeFor(stem + "." + x) == ContentTypeFor(stem + "." + LowerAscii(x))
  {
    LowerExtIgnoresCase(stem, x);
    SameExtSameType(stem + "." + x, stem + "." + LowerAscii(x));
  }

  lemma LowerExtIgnoresCase(stem: string, x: string)
    requires x != [] && '.' !in x && '/' !in x
    requires stem != [] && stem[|stem| - 1] != '/'
    ensures LowerExt(stem + "." + x) == LowerExt(stem + "." + LowerAscii(x))
  {
    var y := LowerAscii(x);
    LowerAsciiKeepsOut(x, '.');
    LowerAsciiKeepsOut(x, '/');
    ExtnameOfName(stem, x);
    ExtnameOfName(stem, y);
    LowerOfDotted(x, y, "." + x, "." + y);
  }

  /** Lowering adds no character other than a lower-case letter. */
  lemma LowerAsciiKeepsOut(x: string, c: char)
    requires c !in x && !('a' <= c <= 'z')
    ensures c !in LowerAscii(x)
  {
    var y := LowerAscii(x);
    forall i | 0 <= i < |y| ensures y[i] != c {
      assert y[i] == ToLowerAscii(x[i]);
    }
  }

  lemma LowerOfDotted(x: string, y: string, ex: string, ey: string)
    requires y == LowerAscii(x) && ex == "." + x && ey == "." + y
    ensures LowerAscii(ex) == LowerAscii(ey)
  {
    LowerAsciiOfLowered(ex, ey);
  }

  lemma SameExtSameType(p: string, q: string)
    requires LowerExt(p) == LowerExt(q)
    ensures ContentTypeFor(p) == ContentTypeFor(q)
  {
  }

  /** The `Cache-Control` choice: `no-store` for the HTML and CSS kinds, `no-cache` for every
      other file. */
  function CacheControl(filePath: string): (c: string)
    ensures c == "no-store" <==> KindOf(LowerExt(filePath)) in {Html, Css}
    ensures c != "no-store" ==> c == "no-cache"
  {
    var ext := LowerExt(filePath);
    if ext == ".html" || ext == ".css" then "no-store" else "no-cache"
  }

  /** Markup and style sheets are never stored: `no-store` exactly for the files whose content
      type is HTML or CSS. */
  lemma NoStoreExactlyForMarkup(filePath: string)
    ensures CacheControl(filePath) == "no-store" <==>
      ContentTypeFor(filePath) == MimeOf(Html) || ContentTypeFor(filePath) == MimeOf(Css)
  {
    MarkupTypes(KindOf(LowerExt(filePath)));
  }

  /** Only HTML is served with the HTML type, and only CSS with the CSS type. */
  lemma MarkupTypes(k: ExtKind)
    ensures MimeOf(k) == MimeOf(Html) <==> k == Html
    ensures MimeOf(k) == MimeOf(Css) <==> k == Css
  {
    var html, css := MimeOf(Html), MimeOf(Css);
    assert |html| == 24 && |css| == 23;
    if k in {Js, Mjs} {
      assert |MimeOf(k)| == 30;
    }
  }

  lemma TextPrefix(m: string)
    requires |m| >= 5 && m[0] == 't' && m[1] == 'e' && m[2] == 'x' && m[3] == 't' && m[4] == '/'
    ensures StartsWith(m, "text/")
  {
    assert m[..5] == "text/";
  }

  // ----- the page listing ------------------------------------------------------------------

  /** A file the listing reports: an `.html` file (any case) outside the ignored directories. */
  predicate IsListedHtml(relPath: string) {
    !IsIgnoredForListing(relPath) && LowerExt(relPath) == ".html"
  }

  /** The walk's filter over the relative paths of all files below the root, in walk order. */
  function ListingFilter(paths: seq<string>): seq<string> {
    Filter(IsListedHtml, paths)
  }

  /** The filter keeps exactly the listed files. */
  lemma ListingFilterCorrect(paths: seq<string>)
    ensures forall x :: x in ListingFilter(paths) <==> x in paths && IsListedHtml(x)
  {
    FilterMembers(IsListedHtml, paths);
  }

  /** Each path is judged on its own, and the kept paths stay in walk order. */
  lemma ListingFilterKeeps(a: seq<string>, x: string, b: seq<string>)
    ensures ListingFilter(a + [x] + b) ==
      ListingFilter(a) + (if IsListedHtml(x) then [x] else []) + ListingFilter(b)
  {
    FilterKeeps(IsListedHtml, a, x, b);
  }

  /** `listHtmlFiles`: the listed files sorted by `collate` (Hebrew `localeCompare`). */
  function ListHtmlFiles(paths: seq<string>, collate: (string, string) -> bool): (r: seq<string>)
    ensures multiset(r) == multiset(ListingFilter(paths))
  {
    Sort(collate, ListingFilter(paths))
  }

  /** Every listed file is an `.html` file outside the ignored directories, every such file is
      listed, and the list is in collation order. */
  lemma ListHtmlFilesCorrect(paths: seq<string>, collate: (string, string) -> bool)
    requires StrictOrder(collate)
    ensures forall x :: x in ListHtmlFiles(paths, collate) <==> x in paths && IsListedHtml(x)
    ensures SortedBy(collate, ListHtmlFiles(paths, collate))
  {
    ListingFilterCorrect(paths);
    var r, f := ListHtmlFiles(paths, collate), ListingFilter(paths);
    forall x ensures x in r <==> x in f {
      assert x in r <==> x in multiset(r);
      assert x in f <==> x in multiset(f);
    }
    SortSorted(collate, f);
  }

  // ----- confining a request path to the root ----------------------------------------------

  /** A normalised path segment: non-empty, without `/`, and neither `.` nor `..`. */
  predicate IsSegment(s: string) {
    s != [] && '/' !in s && s != "." && s != ".."
  }

  predicate AllSegments(segs: seq<string>) {
    forall i :: 0 <= i < |segs| ==> IsSegment(segs[i])
  }

  /** The absolute path with the given segments. */
  function Render(segs: seq<string>): string {
    "/" + Join(segs, '/')
  }

  /** `path.resolve`'s normalisation: walks the pieces of a relative path from `at`, skipping
      empty pieces and `.`, going up one level for `..` (never above `/`). */
  function Walk(at: seq<string>, pieces: seq<string>): (r: seq<string>)
    requires AllSegments(at)
    requires forall i :: 0 <= i < |pieces| ==> '/' !in pieces[i]
    ensures AllSegments(r)
    decreases |pieces|
  {
    if pieces == [] then at
    else
      var p := pieces[0];
      var next :=
        if p == "" || p == "." then at
        else if p == ".." then (if at == [] then [] else at[..|at| - 1])
        else at + [p];
      assert AllSegments(next) by {
        assert forall i :: 0 <= i < |next| ==> (i < |at| && next[i] == at[i]) || next[i] == p;
        assert '/' !in p;
      }
      Walk(next, pieces[1..])
  }

  /** `urlPathname` up to its first `?`, then without its leading `/` characters. */
  function RequestPath(urlPathname: string): (r: string)
    ensures r == [] || r[0] != '/'
    ensures '?' !in r
  {
    DropLeadingSlashes(Split(urlPathname, '?')[0])
  }

  function DropLeadingSlashes(s: string): (r: string)
    ensures r == [] || r[0] != '/'
    ensures |r| <= |s| && r == s[|s| - |r|..]
    decreases |s|
  {
    if s != [] && s[0] == '/' then DropLeadingSlashes(s[1..]) else s
  }

  /** The segments `path.resolve(rootDir, stripped)` names. */
  function Resolved(root: seq<string>, urlPathname: string): (r: seq<string>)
    requires AllSegments(root)
    ensures AllSegments(r)
  {
    Walk(root, Split(RequestPath(urlPathname), '/'))
  }

  /** `safeResolve` as written: the resolved path when it equals the root or starts with
      `root + "/"`, otherwise `None`. */
  function SafeResolve(root: seq<string>, urlPathname: string): (r: Option<string>)
    requires AllSegments(root)
    ensures r.Some? ==> r.value == Render(Resolved(root, urlPathname))
  {
    var full, rootDir := Render(Resolved(root, urlPathname)), Render(root);
    if !StartsWith(full, rootDir + "/") && full != rootDir then None else Some(full)
  }

  /** `safeResolve` with the separator appended only when the root does not already end in
      one, so that a root of `/` is handled like any other. */
  function SafeResolveFixed(root: seq<string>, urlPathname: string): (r: Option<string>)
    requires AllSegments(root)
    ensures r.Some? ==> r.value == Render(Resolved(root, urlPathname))
  {
    var full, rootDir := Render(Resolved(root, urlPathname)), Render(root);
    var prefix := if root == [] then rootDir else rootDir + "/";
    if !StartsWith(full, prefix) && full != rootDir then None else Some(full)
  }

  lemma JoinStartsWithFirst(parts: seq<string>, sep: char)
    requires parts != []
    ensures |Join(parts, sep)| >= |parts[0]|
  {
  }

  /** Paths below the root render as the root followed by a separator. */
  lemma RenderBelow(root: seq<string>, segs: seq<string>)
    requires root != [] && root <= segs
    ensures Render(segs) == Render(root) || StartsWith(Render(segs), Render(root) + "/")
  {
    var rest := segs[|root|..];
    assert segs == root + rest;
    if rest != [] {
      JoinAppend(root, rest, '/');
      assert Render(segs) == Render(root) + "/" + Join(rest, '/');
      assert Render(segs)[..|Render(root) + "/"|] == Render(root) + "/";
    } else {
      assert segs == root;
    }
  }

  lemma RenderSameIsSame(root: seq<string>, segs: seq<string>)
    requires AllSegments(root) && AllSegments(segs) && root != []
    requires Render(segs) == Render(root)
    ensures root == segs
  {
    var jr, js := Join(root, '/'), Join(segs, '/');
    JoinStartsWithFirst(root, '/');
    assert js == jr by { assert js == Render(segs)[1..] && jr == Render(root)[1..]; }
    assert segs != [];
    SplitJoin(root, '/');
    SplitJoin(segs, '/');
  }

  lemma RenderAfterIsBelow(root: seq<string>, segs: seq<string>)
    requires AllSegments(root) && AllSegments(segs) && root != []
    requires StartsWith(Render(segs), Render(root) + "/")
    ensures root <= segs
  {
    var jr, js := Join(root, '/'), Join(segs, '/');
    var y := Render(segs)[|Render(root) + "/"|..];
    assert Render(segs) == Render(root) + "/" + y;
    assert js == jr + "/" + y by { assert js == Render(segs)[1..]; }
    JoinStartsWithFirst(root, '/');
    assert segs != [];
    SplitJoin(segs, '/');
    SplitAfterJoin(root, '/', y);
    assert segs == root + Split(y, '/');
    assert segs[..|root|] == root;
  }

  /** For a root other than `/`: a resolved path equals the root or starts with the root and
      a separator exactly when the root's segments are a prefix of its segments. */
  lemma RenderInside(root: seq<string>, segs: seq<string>)
    requires AllSegments(root) && AllSegments(segs) && root != []
    ensures Render(segs) == Render(root) || StartsWith(Render(segs), Render(root) + "/") <==> root <= segs
  {
    if root <= segs {
      RenderBelow(root, segs);
    }
    if Render(segs) == Render(root) {
      RenderSameIsSame(root, segs);
    }
    if StartsWith(Render(segs), Render(root) + "/") {
      RenderAfterIsBelow(root, segs);
    }
  }

  /** Whatever `safeResolve` returns lies inside the root: the root's segments are a prefix of
      the returned path's segments. */
  lemma SafeResolveStaysInside(root: seq<string>, urlPathname: string)
    requires AllSegments(root)
    ensures SafeResolve(root, urlPathname).Some? ==> root <= Resolved(root, urlPathname)
  {
    if root != [] {
      RenderInside(root, Resolved(root, urlPathname));
    }
  }

  /** For a root other than `/`, `safeResolve` accepts exactly the paths that stay inside. */
  lemma SafeResolveAcceptsInside(root: seq<string>, urlPathname: string)
    requires AllSegments(root) && root != []
    ensures SafeResolve(root, urlPathname).Some? <==> root <= Resolved(root, urlPathname)
  {
    RenderInside(root, Resolved(root, urlPathname));
  }

  /** Served from `/`, `safeResolve` rejects `/q` for every plain file name `q`, although
      `/q` lies inside the root: the prefix it tests is `"/" + "/"`. */
  lemma SafeResolveRejectsUnderSlash(q: string)
    requires IsSegment(q) && '?' !in q
    ensures Resolved([], "/" + q) == [q]
    ensures SafeResolve([], "/" + q).None?
  {
    RequestPathUnderSlash(q);
    assert Walk([], Split(q, '/')) == [q] by {
      assert Split(q, '/') == [q];
      assert Walk([q], []) == [q];
    }
    assert Render([q]) == "/" + q;
    RootSlashRejects("/" + q);
  }

  lemma RequestPathUnderSlash(q: string)
    requires IsSegment(q) && '?' !in q
    ensures RequestPath("/" + q) == q
  {
    var u := "/" + q;
    assert '?' !in u by { ConcatKeepsOut("/", q, '?'); }
    assert Split(u, '?') == [u];
    assert u[1..] == q;
    assert q[0] != '/' by { assert q[0] in q; }
    assert DropLeadingSlashes(q) == q;
    assert DropLeadingSlashes(u) == DropLeadingSlashes(u[1..]);
  }

  /** Under the root `/` the tested prefix is `//`, which no path with a segment starts with. */
  lemma RootSlashRejects(full: string)
    requires |full| >= 2 && full[1] != '/'
    ensures !StartsWith(full, Render([]) + "/") && full != Render([])
  {
    assert Render([]) == "/";
  }

  /** The corrected check accepts exactly the paths inside the root, for every root. */
  lemma SafeResolveFixedCorrect(root: seq<string>, urlPathname: string)
    requires AllSegments(root)
    ensures SafeResolveFixed(root, urlPathname).Some? <==> root <= Resolved(root, urlPathname)
  {
    if root != [] {
      RenderInside(root, Resolved(root, urlPathname));
    } else {
      assert Render(root) == "/";
    }
  }
}
