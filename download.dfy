/** The crawler of scripts/download_WCAG22.py: which URLs it follows, where it
    stores each page, and the queue discipline of its main loop. The network,
    HTML parsing and the URL library's parsing and reference resolution are
    parameters. */
module Crawler {
  import opened Maybe
  import opened PyStr

  /** The three pages the crawl starts from; they are also the only prefixes
      it follows. */
  const StartUrls: seq<string> := [
    "https://www.w3.org/TR/WCAG22/",
    "https://www.w3.org/WAI/WCAG22/Understanding/",
    "https://www.w3.org/WAI/WCAG22/Techniques/"
  ]

  const OutDir: string := "data/raw"

  const SkipSchemes: set<string> := {"mailto", "tel", "javascript"}

  /** `is_allowed`: the URL starts with one of the start URLs. */
  predicate IsAllowed(url: string) {
    exists k :: 0 <= k < |StartUrls| && StartsWith(url, StartUrls[k])
  }

  const W3Origin: string := "https://www.w3.org/"

  lemma StartsWithTransitive(a: string, b: string, c: string)
    requires StartsWith(a, b) && StartsWith(b, c)
    ensures StartsWith(a, c)
  {
    assert a[..|c|] == a[..|b|][..|c|];
  }

  /** Every start page is on www.w3.org and is itself followed. */
  lemma StartUrlsAllowed()
    ensures forall k :: 0 <= k < |StartUrls| ==> StartsWith(StartUrls[k], W3Origin)
    ensures forall k :: 0 <= k < |StartUrls| ==> IsAllowed(StartUrls[k])
  {
    forall k | 0 <= k < |StartUrls| ensures StartsWith(StartUrls[k], W3Origin) && IsAllowed(StartUrls[k]) {
      assert StartUrls[k][..|W3Origin|] == W3Origin;
      assert StartsWith(StartUrls[k], StartUrls[k]);
    }
  }

  /** Everything the crawler follows is on www.w3.org, under one of the three
      start pages. */
  lemma AllowedIsW3(url: string)
    requires IsAllowed(url)
    ensures StartsWith(url, W3Origin)
  {
    var k :| 0 <= k < |StartUrls| && StartsWith(url, StartUrls[k]);
    StartUrlsAllowed();
    StartsWithTransitive(url, StartUrls[k], W3Origin);
  }

  /** The parts of `urllib.parse` the crawler uses: `urljoin`, and the
      `scheme`, `netloc` and `path` fields of `urlparse`. */
  datatype UrlLib = UrlLib(
    join: (string, string) -> string,
    scheme: string -> string,
    netloc: string -> string,
    path: string -> string)

  /** The position of the first `#` at or after `i`, or the length of `s`. */
  function HashFrom(s: string, i: nat): (r: nat)
    requires i <= |s|
    decreases |s| - i
    ensures i <= r <= |s|
    ensures forall k :: i <= k < r ==> s[k] != '#'
    ensures r < |s| ==> s[r] == '#'
  {
    if i == |s| || s[i] == '#' then i else HashFrom(s, i + 1)
  }

  /** `urldefrag(url)[0]`: the URL up to its first `#`. */
  function Defrag(url: string): (r: string)
    ensures forall k :: 0 <= k < |r| ==> r[k] != '#'
    ensures StartsWith(url, r)
    ensures '#' !in url ==> r == url
    ensures '#' in url ==> |r| < |url| && url[|r|] == '#'
  {
    url[..HashFrom(url, 0)]
  }

  /** `normalize_url(base, href)`. */
  function NormalizeUrl(lib: UrlLib, base: string, href: string): (r: Option<string>)
    ensures href == [] ==> r.None?
    ensures r.Some? ==> IsAllowed(r.value) && forall k :: 0 <= k < |r.value| ==> r.value[k] != '#'
  {
    if href == [] then None
    else
      var h := Strip(href, Whitespace);
      var scheme := lib.scheme(h);
      if scheme != [] && LowerAscii(scheme) in SkipSchemes then None
      else
        var absolute := Defrag(lib.join(base, h));
        if !IsAllowed(absolute) then None else Some(absolute)
  }

  /** A `mailto:`, `tel:` or `javascript:` link, in any case, is never followed;
      any other link is followed exactly when its resolved, defragmented form is
      allowed. */
  lemma NormalizeUrlDecides(lib: UrlLib, base: string, href: string)
    requires href != []
    ensures var scheme := lib.scheme(Strip(href, Whitespace));
      (FoldEq(scheme, "mailto") || FoldEq(scheme, "tel") || FoldEq(scheme, "javascript"))
        ==> NormalizeUrl(lib, base, href).None?
    ensures var h := Strip(href, Whitespace);
      LowerAscii(lib.scheme(h)) !in SkipSchemes ==>
        NormalizeUrl(lib, base, href) ==
          (if IsAllowed(Defrag(lib.join(base, h))) then Some(Defrag(lib.join(base, h))) else None)
  {
    var scheme := lib.scheme(Strip(href, Whitespace));
    var low := LowerAscii(scheme);
    if FoldEq(scheme, "mailto") {
      assert low == "mailto";
    } else if FoldEq(scheme, "tel") {
      assert low == "tel";
    } else if FoldEq(scheme, "javascript") {
      assert low == "javascript";
    }
  }

  /** `{u}` for a followed target `u`, nothing otherwise. */
  function Targets(u: Option<string>): set<string> {
    match u
    case Some(v) => {v}
    case None => {}
  }

  /** The targets followed from a sequence of link values. */
  function Followed(lib: UrlLib, base: string, hrefs: seq<string>): set<string> {
    if hrefs == [] then {}
    else
      Followed(lib, base, hrefs[..|hrefs| - 1]) + Targets(NormalizeUrl(lib, base, hrefs[|hrefs| - 1]))
  }

  /** A target is followed exactly when some link value normalizes to it. */
  lemma {:induction false} FollowedSpec(lib: UrlLib, base: string, hrefs: seq<string>)
    ensures forall u :: u in Followed(lib, base, hrefs) <==>
      exists h :: h in hrefs && NormalizeUrl(lib, base, h) == Some(u)
  {
    if hrefs != [] {
      var pre := hrefs[..|hrefs| - 1];
      var last := hrefs[|hrefs| - 1];
      FollowedSpec(lib, base, pre);
      assert hrefs == pre + [last];
      forall u | u in Followed(lib, base, hrefs)
        ensures exists h :: h in hrefs && NormalizeUrl(lib, base, h) == Some(u)
      {
        if u !in Followed(lib, base, pre) {
          assert NormalizeUrl(lib, base, last) == Some(u);
        }
      }
    }
  }

  /** Everything followed is allowed and has no fragment. */
  lemma FollowedAllowed(lib: UrlLib, base: string, hrefs: seq<string>, u: string)
    requires u in Followed(lib, base, hrefs)
    ensures IsAllowed(u) && forall k :: 0 <= k < |u| ==> u[k] != '#'
  {
    FollowedSpec(lib, base, hrefs);
    var h :| h in hrefs && NormalizeUrl(lib, base, h) == Some(u);
  }

  lemma FollowedSnoc(lib: UrlLib, base: string, hrefs: seq<string>, h: string)
    ensures Followed(lib, base, hrefs + [h]) ==
      Followed(lib, base, hrefs) + Targets(NormalizeUrl(lib, base, h))
  {
    assert (hrefs + [h])[..|hrefs|] == hrefs;
  }

  /** Reading one more element of `b` after `a`. */
  lemma PrefixSnoc<T>(a: seq<T>, b: seq<T>, i: nat)
    requires i < |b|
    ensures a + b[..i + 1] == (a + b[..i]) + [b[i]]
    ensures b[..i + 1] == b[..i] + [b[i]]
  {
    assert b[..i + 1] == b[..i] + [b[i]];
  }

  /** One step of either loop of `extract_links`: the link value `h` is
      normalized and its target, if any, added. */
  method AddTarget(lib: UrlLib, baseUrl: string, links: set<string>, ghost seen: seq<string>, h: string)
    returns (links': set<string>)
    requires links == Followed(lib, baseUrl, seen)
    ensures links' == Followed(lib, baseUrl, seen + [h])
  {
    FollowedSnoc(lib, baseUrl, seen, h);
    var u := NormalizeUrl(lib, baseUrl, h);
    links' := links;
    if u.Some? {
      links' := links' + {u.value};
    }
  }

  /** The loop of `extract_links` over the `link`, `script` and `img`
      resources, after the links already read (`seen`): a resource whose
      attribute is empty is skipped, which follows nothing anyway. */
  method AddResources(lib: UrlLib, baseUrl: string, links: set<string>, ghost seen: seq<string>,
                      resources: seq<string>)
    returns (links': set<string>)
    requires links == Followed(lib, baseUrl, seen)
    ensures links' == Followed(lib, baseUrl, seen + resources)
  {
    links' := links;
    assert seen + resources[..0] == seen;
    for i := 0 to |resources|
      invariant links' == Followed(lib, baseUrl, seen + resources[..i])
    {
      var href := resources[i];
      PrefixSnoc(seen, resources, i);
      if href != [] {
        links' := AddTarget(lib, baseUrl, links', seen + resources[..i], href);
      } else {
        FollowedSnoc(lib, baseUrl, seen + resources[..i], href);
      }
    }
    assert resources[..|resources|] == resources;
  }

  /** `extract_links`: the followed targets of the `a` links (`anchors`) and of
      the `link`, `script` and `img` resources (`resources`) of a page. */
  method ExtractLinks(lib: UrlLib, baseUrl: string, anchors: seq<string>, resources: seq<string>)
    returns (links: set<string>)
    ensures links == Followed(lib, baseUrl, anchors + resources)
  {
    links := {};
    for i := 0 to |anchors|
      invariant links == Followed(lib, baseUrl, anchors[..i])
    {
      links := AddTarget(lib, baseUrl, links, anchors[..i], anchors[i]);
      PrefixSnoc([], anchors, i);
    }
    assert anchors[..|anchors|] == anchors;
    links := AddResources(lib, baseUrl, links, anchors, resources);
  }

  /** The index of the last `c` before position `j`. */
  function LastIndex(s: string, c: char, j: nat): (r: Option<nat>)
    requires j <= |s|
    ensures r.Some? ==> r.value < j && s[r.value] == c && forall k :: r.value < k < j ==> s[k] != c
    ensures r.None? ==> forall k :: 0 <= k < j ==> s[k] != c
  {
    if j == 0 then None else if s[j - 1] == c then Some(j - 1) else LastIndex(s, c, j - 1)
  }

  /** Where the last path segment starts. */
  function BaseStart(p: string): (r: nat)
    ensures r <= |p| && forall k :: r <= k < |p| ==> p[k] != '/'
    ensures r > 0 ==> p[r - 1] == '/'
  {
    match LastIndex(p, '/', |p|)
    case Some(i) => i + 1
    case None => 0
  }

  /** `os.path.splitext(p)[1]` on POSIX: from the last dot of the last segment,
      provided something other than a dot comes before it in that segment. */
  function Ext(p: string): (r: string)
  {
    var start := BaseStart(p);
    match LastIndex(p, '.', |p|)
    case None => ""
    case Some(d) => if start <= d && SkipFrom(p, {'.'}, start) < d then p[d..] else ""
  }

  /** The extension is empty exactly when no dot of the last segment follows
      a character other than a dot; otherwise it is a dot-led suffix without
      any `/`. */
  lemma ExtSpec(p: string)
    ensures Ext(p) == [] <==>
      !exists i, j :: BaseStart(p) <= i < j < |p| && p[i] != '.' && p[j] == '.'
    ensures Ext(p) != [] ==>
      (Ext(p)[0] == '.' && EndsWith(p, Ext(p))
       && forall k :: 0 <= k < |Ext(p)| ==> Ext(p)[k] != '/')
  {
    var start := BaseStart(p);
    match LastIndex(p, '.', |p|)
    case None =>
    case Some(d) =>
      if start <= d {
        var f := SkipFrom(p, {'.'}, start);
        if f < d {
          assert p[f] != '.';
          assert p[|p| - |p[d..]|..] == p[d..];
        } else {
          forall i, j | start <= i < j < |p| && p[i] != '.' ensures p[j] != '.' {
          }
        }
      } else {
        forall i, j | start <= i < j < |p| && p[i] != '.' ensures p[j] != '.' {
        }
      }
  }

  /** The path after the two rewriting steps of `safe_path_from_url`. */
  function FinalPath(path: string): string {
    var p1 := if EndsWith(path, "/") then path + "index.html" else path;
    if Ext(p1) == [] then p1 + ".html" else p1
  }

  /** `os.path.join(a, b)` on POSIX. */
  function PathJoin(a: string, b: string): string {
    if StartsWith(b, "/") then b
    else if a == [] || EndsWith(a, "/") then a + b
    else a + "/" + b
  }

  /** `path.lstrip("/")`. */
  function LStripSlashes(p: string): (r: string)
    ensures r == [] || r[0] != '/'
    ensures EndsWith(p, r)
  {
    var i := SkipFrom(p, {'/'}, 0);
    assert p[|p| - |p[i..]|..] == p[i..];
    p[i..]
  }

  /** The local file a page with the given host and path is written to. */
  function LocalPath(host: string, path: string): string {
    PathJoin(PathJoin(OutDir, host), LStripSlashes(FinalPath(path)))
  }

  /** `safe_path_from_url`. */
  method SafePathFromUrl(lib: UrlLib, url: string) returns (localPath: string)
    ensures localPath == LocalPath(lib.netloc(url), lib.path(url))
  {
    var host := lib.netloc(url);
    var path := lib.path(url);
    if EndsWith(path, "/") {
      path := path + "index.html";
    }
    if Ext(path) == [] {
      path := path + ".html";
    }
    localPath := PathJoin(PathJoin(OutDir, host), LStripSlashes(path));
  }

  /** For a host name (non-empty, without `/`), the page is stored under
      `data/raw/<host>/`, at its path without leading slashes, with
      `index.html` added to a directory path and `.html` to a path without
      extension. */
  lemma LocalPathShape(host: string, path: string)
    requires host != [] && forall k :: 0 <= k < |host| ==> host[k] != '/'
    ensures LocalPath(host, path) == OutDir + "/" + host + "/" + LStripSlashes(FinalPath(path))
    ensures EndsWith(path, "/") ==> FinalPath(path) == path + "index.html"
    ensures !EndsWith(path, "/") && Ext(path) == [] ==> FinalPath(path) == path + ".html"
    ensures !EndsWith(path, "/") && Ext(path) != [] ==> FinalPath(path) == path
  {
    assert !StartsWith(host, "/") by {
      assert host[..1][0] == host[0];
    }
    assert !EndsWith(OutDir, "/");
    var a := OutDir + "/" + host;
    assert !EndsWith(a, "/") by {
      assert a[|a| - 1] == host[|host| - 1];
      assert a[|a| - 1..][0] == a[|a| - 1];
    }
    var b := LStripSlashes(FinalPath(path));
    assert !StartsWith(b, "/") by {
      if b != [] {
        assert b[..1][0] == b[0];
      }
    }
    if EndsWith(path, "/") {
      ExtOfIndexHtml(path);
    }
  }

  lemma ExtOfIndexHtml(path: string)
    requires EndsWith(path, "/")
    ensures Ext(path + "index.html") != []
  {
    var p := path + "index.html";
    ExtSpec(p);
    var n := |path|;
    assert p[n - 1] == '/';
    assert BaseStart(p) == n by {
      assert forall k :: n <= k < |p| ==> p[k] == "index.html"[k - n];
    }
    assert p[n] == 'i' && p[n + 5] == '.';
  }

  /** Appending a suffix without `/` keeps the last segment's start. */
  lemma BaseStartAppend(path: string, suffix: string)
    requires forall k :: 0 <= k < |suffix| ==> suffix[k] != '/'
    ensures BaseStart(path + suffix) == BaseStart(path)
  {
    var p := path + suffix;
    assert forall k :: |path| <= k < |p| ==> p[k] == suffix[k - |path|];
    match LastIndex(path, '/', |path|)
    case Some(i) =>
      LastIndexSkips(p, '/', i, |p|);
    case None =>
      assert forall k :: 0 <= k < |p| ==> p[k] != '/';
  }

  lemma LastIndexSkips(s: string, c: char, i: nat, j: nat)
    requires i < j <= |s| && s[i] == c && forall k :: i < k < j ==> s[k] != c
    ensures LastIndex(s, c, j) == Some(i)
    decreases j
  {
  }

  /** A path without extension that gets `.html` appended has an extension
      afterwards exactly when its last segment holds something other than
      dots. */
  lemma HtmlSuffixExtension(path: string)
    ensures Ext(path + ".html") == [] <==> forall k :: BaseStart(path) <= k < |path| ==> path[k] == '.'
  {
    var p := path + ".html";
    var n := |path|;
    BaseStartAppend(path, ".html");
    assert forall k :: n < k < |p| ==> p[k] != '.';
    LastIndexSkips(p, '.', n, |p|);
    assert forall k :: 0 <= k < n ==> p[k] == path[k];
    if forall k :: BaseStart(path) <= k < n ==> path[k] == '.' {
      DotsThenDotHaveNoExt(p, n);
    } else {
      var i :| BaseStart(path) <= i < n && path[i] != '.';
      DotAfterOtherIsExt(p, n, i);
    }
  }

  /** With the last dot at `d` and only dots before it in the last segment,
      there is no extension. */
  lemma DotsThenDotHaveNoExt(p: string, d: nat)
    requires LastIndex(p, '.', |p|) == Some(d) && BaseStart(p) <= d
    requires forall k :: BaseStart(p) <= k < d ==> p[k] == '.'
    ensures Ext(p) == []
  {
    assert SkipFrom(p, {'.'}, BaseStart(p)) > d;
  }

  /** With the last dot at `d` and something other than a dot before it in
      the last segment, the extension runs from `d`. */
  lemma DotAfterOtherIsExt(p: string, d: nat, i: nat)
    requires LastIndex(p, '.', |p|) == Some(d) && BaseStart(p) <= i < d && p[i] != '.'
    ensures Ext(p) == p[d..] && Ext(p) != []
  {
    assert SkipFrom(p, {'.'}, BaseStart(p)) <= i;
  }

  /** The stored path lacks an extension exactly when the URL's path does not
      end in `/` and its last segment is made of dots only (an empty path
      included). */
  lemma FinalPathExtension(path: string)
    ensures Ext(FinalPath(path)) == [] <==>
      !EndsWith(path, "/") && forall k :: BaseStart(path) <= k < |path| ==> path[k] == '.'
  {
    ExtSpec(path);
    if EndsWith(path, "/") {
      ExtOfIndexHtml(path);
    } else if Ext(path) == [] {
      HtmlSuffixExtension(path);
    } else {
      var i, j :| BaseStart(path) <= i < j < |path| && path[i] != '.' && path[j] == '.';
    }
  }

  /** A URL whose path is empty (a bare host) is stored as `.html` in the
      host's directory, a file name `os.path.splitext` does not see an
      extension in. */
  lemma BareHostHasNoExtension(host: string, path: string)
    requires host != [] && forall k :: 0 <= k < |host| ==> host[k] != '/'
    requires path == []
    ensures FinalPath(path) == ".html"
    ensures Ext(FinalPath(path)) == []
    ensures LocalPath(host, path) == OutDir + "/" + host + "/" + FinalPath(path)
  {
    var html := ".html";
    assert FinalPath(path) == html by {
      assert !EndsWith(path, "/") && Ext(path) == [];
      assert path + html == html;
    }
    assert BaseStart(html) == 0 by {
      assert forall k :: 0 <= k < |html| ==> html[k] != '/';
    }
    LastIndexSkips(html, '.', 0, |html|);
    DotsThenDotHaveNoExt(html, 0);
    assert LStripSlashes(html) == html by {
      SkipFromUnique(html, {'/'}, 0, 0);
    }
    LocalPathShape(host, path);
  }

  /** `lstrip("/")` of a path with exactly one leading slash drops that slash. */
  lemma LStripOneSlash(p: string)
    requires |p| >= 1 && p[0] == '/' && (|p| == 1 || p[1] != '/')
    ensures LStripSlashes(p) == p[1..]
  {
    SkipFromUnique(p, {'/'}, 0, 1);
  }

  /** A directory URL (path `/d/.../`) is stored as `index.html` in the
      matching directory under `data/raw/<host>/`. */
  lemma DirectoryPage(host: string, dir: string)
    requires host != [] && forall k :: 0 <= k < |host| ==> host[k] != '/'
    requires |dir| >= 1 && dir[0] == '/' && (|dir| == 1 || dir[1] != '/') && EndsWith(dir, "/")
    ensures LocalPath(host, dir) == OutDir + "/" + host + "/" + dir[1..] + "index.html"
  {
    LocalPathShape(host, dir);
    var q := dir + "index.html";
    LStripOneSlash(q);
    assert q[1..] == dir[1..] + "index.html";
  }

  /** A page URL whose file name has an extension is stored at its own path
      under `data/raw/<host>/`. */
  lemma PageWithExtension(host: string, path: string)
    requires host != [] && forall k :: 0 <= k < |host| ==> host[k] != '/'
    requires |path| >= 1 && path[0] == '/' && (|path| == 1 || path[1] != '/') && Ext(path) != []
    ensures LocalPath(host, path) == OutDir + "/" + host + "/" + path[1..]
  {
    ExtSpec(path);
    assert !EndsWith(path, "/") by {
      var e := Ext(path);
      assert path[|path| - 1] == e[|e| - 1];
    }
    LocalPathShape(host, path);
    LStripOneSlash(path);
  }

  /** What a download returns: the lower-cased `Content-Type` header, and the
      `href` values of the page's `a` tags and the `href`/`src` values of its
      `link`, `script` and `img` tags. */
  datatype Response = Response(contentType: string, anchors: seq<string>, resources: seq<string>)

  /** A file the crawl writes. */
  datatype Saved = Saved(url: string, localPath: string)

  /** The files written for a sequence of download attempts: one per attempt
      that succeeded, in order. */
  function SavedFor(lib: UrlLib, fetch: string -> Option<Response>, attempts: seq<string>): seq<Saved> {
    if attempts == [] then []
    else
      var u := attempts[|attempts| - 1];
      SavedFor(lib, fetch, attempts[..|attempts| - 1])
        + (if fetch(u).Some? then [Saved(u, LocalPath(lib.netloc(u), lib.path(u)))] else [])
  }

  lemma SavedForSnoc(lib: UrlLib, fetch: string -> Option<Response>, attempts: seq<string>, u: string)
    ensures SavedFor(lib, fetch, attempts + [u]) ==
      SavedFor(lib, fetch, attempts)
        + (if fetch(u).Some? then [Saved(u, LocalPath(lib.netloc(u), lib.path(u)))] else [])
  {
    assert (attempts + [u])[..|attempts|] == attempts;
  }

  predicate NoDuplicates(s: seq<string>) {
    forall i, j :: 0 <= i < j < |s| ==> s[i] != s[j]
  }

  lemma NoDuplicatesSnoc(s: seq<string>, u: string)
    requires NoDuplicates(s) && u !in s
    ensures NoDuplicates(s + [u])
  {
  }

  /** While not every start page has been popped, the attempts are the start
      pages popped so far, in order, and the remaining ones head the queue. */
  ghost predicate StartPhase(pops: nat, attempts: seq<string>, queue: seq<string>) {
    pops < |StartUrls| ==>
      && attempts == StartUrls[..pops]
      && |StartUrls| - pops <= |queue|
      && queue[..|StartUrls| - pops] == StartUrls[pops..]
  }

  /** The first `pops` start pages (all of them once `pops` reaches three) were
      attempted first, in order. */
  ghost predicate StartsAttempted(pops: nat, attempts: seq<string>) {
    var n := if pops < |StartUrls| then pops else |StartUrls|;
    n <= |attempts| && attempts[..n] == StartUrls[..n]
  }

  /** Popping during the start phase yields the next start page, which has not
      been seen, since the start pages are distinct. */
  lemma StartPhasePop(pops: nat, attempts: seq<string>, queue: seq<string>, seen: set<string>)
    requires pops < |StartUrls| && StartPhase(pops, attempts, queue)
    requires forall u :: u in seen <==> u in attempts
    ensures queue != [] && queue[0] == StartUrls[pops] && queue[0] !in seen
    ensures StartPhase(pops + 1, attempts + [queue[0]], queue[1..])
    ensures StartsAttempted(pops + 1, attempts + [queue[0]])
  {
    assert queue[0] == queue[..|StartUrls| - pops][0];
    assert StartUrls[..pops + 1] == StartUrls[..pops] + [StartUrls[pops]];
    if pops + 1 < |StartUrls| {
      assert queue[1..][..|StartUrls| - (pops + 1)] == queue[..|StartUrls| - pops][1..];
    }
  }

  /** After the start phase the attempts only grow at the back. */
  lemma StartsAttemptedLater(pops: nat, attempts: seq<string>, longer: seq<string>)
    requires pops >= |StartUrls| && StartsAttempted(pops, attempts)
    requires |attempts| <= |longer| && longer[..|attempts|] == attempts
    ensures StartsAttempted(pops + 1, longer)
  {
    assert longer[..|StartUrls|] == longer[..|attempts|][..|StartUrls|];
  }

  /** One pop of the crawl loop keeps the start-phase facts: the popped URL is
      attempted when it is new, and during the start phase it always is. */
  lemma StartStep(pops: nat, attempts: seq<string>, queue: seq<string>, seen: set<string>, after: seq<string>)
    requires queue != [] && StartPhase(pops, attempts, queue) && StartsAttempted(pops, attempts)
    requires forall u :: u in seen <==> u in attempts
    requires after == (if queue[0] in seen then attempts else attempts + [queue[0]])
    ensures StartPhase(pops + 1, after, queue[1..]) && StartsAttempted(pops + 1, after)
  {
    if pops < |StartUrls| {
      StartPhasePop(pops, attempts, queue, seen);
    } else {
      StartsAttemptedLater(pops, attempts, after);
    }
  }

  /** Appending to the queue keeps the start pages at its head. */
  lemma StartPhaseGrow(pops: nat, attempts: seq<string>, queue: seq<string>, q: seq<string>)
    requires StartPhase(pops, attempts, queue)
    requires |queue| <= |q| && q[..|queue|] == queue
    ensures StartPhase(pops, attempts, q)
  {
    if pops < |StartUrls| {
      assert q[..|StartUrls| - pops] == queue[..|StartUrls| - pops];
    }
  }

  /** When the crawl stops, either the fuel ran out or the queue emptied, and
      the queue can only empty after every start page was popped. */
  lemma StartsAttemptedAtEnd(pops: nat, fuel: nat, attempts: seq<string>, queue: seq<string>)
    requires StartPhase(pops, attempts, queue) && StartsAttempted(pops, attempts)
    requires queue == [] || pops == fuel
    ensures forall k :: 0 <= k < |StartUrls| && k < fuel ==> k < |attempts| && attempts[k] == StartUrls[k]
  {
    var n := if pops < |StartUrls| then pops else |StartUrls|;
    forall k | 0 <= k < |StartUrls| && k < fuel ensures k < |attempts| && attempts[k] == StartUrls[k] {
      assert attempts[k] == attempts[..n][k];
    }
  }

  /** The enqueueing loop: the new links in sorted order, those already seen
      left out. */
  method EnqueueNew(queue: seq<string>, newLinks: set<string>, seen: set<string>) returns (q: seq<string>)
    ensures |q| >= |queue| && q[..|queue|] == queue
    ensures StrictlySorted(q[|queue|..])
    ensures forall u :: u in q[|queue|..] <==> u in newLinks && u !in seen
  {
    var ordered := Sorted(newLinks);
    q := queue;
    for i := 0 to |ordered|
      invariant |q| >= |queue| && q[..|queue|] == queue
      invariant forall u :: u in q[|queue|..] <==> u in ordered[..i] && u !in seen
      invariant forall k :: |queue| <= k < |q| ==> exists m :: 0 <= m < i && q[k] == ordered[m]
      invariant StrictlySorted(q[|queue|..])
    {
      var link := ordered[i];
      assert ordered[..i + 1] == ordered[..i] + [link];
      if link !in seen {
        forall k | |queue| <= k < |q| ensures StrLt(q[k], link) {
          var m :| 0 <= m < i && q[k] == ordered[m];
        }
        ghost var prev := q;
        q := q + [link];
        assert q[|queue|..] == prev[|queue|..] + [link];
      }
    }
    assert ordered[..|ordered|] == ordered;
  }

  /** `q` is `queue` followed by the page's followed links that are not in
      `seen`, in sorted order: what the enqueueing loop of `main` leaves. */
  ghost predicate QueuedLinks(lib: UrlLib, url: string, resp: Response, queue: seq<string>,
                              seen: set<string>, q: seq<string>) {
    && |q| >= |queue| && q[..|queue|] == queue
    && StrictlySorted(q[|queue|..])
    && forall u :: u in q[|queue|..] <==>
         u !in seen && u in Followed(lib, url, resp.anchors + resp.resources)
  }

  /** A downloaded response whose links `main` follows: HTML content, or a
      local path ending in `.html`. */
  predicate IsPage(lib: UrlLib, url: string, resp: Response) {
    Contains(resp.contentType, "text/html") || EndsWith(LocalPath(lib.netloc(url), lib.path(url)), ".html")
  }

  /** The queue after visiting `url`: unchanged unless the download succeeds
      and is a page, in which case its new links are appended. */
  ghost predicate VisitedQueue(lib: UrlLib, fetch: string -> Option<Response>, url: string,
                               queue: seq<string>, seen: set<string>, q: seq<string>) {
    if fetch(url).Some? && IsPage(lib, url, fetch(url).value)
    then QueuedLinks(lib, url, fetch(url).value, queue, seen, q)
    else q == queue
  }

  /** The link-following step of `main`: the page's followed links, sorted,
      those already seen left out, go to the back of the queue. */
  method FollowLinks(lib: UrlLib, url: string, resp: Response, queue: seq<string>, seen: set<string>)
    returns (q: seq<string>)
    ensures |q| >= |queue| && q[..|queue|] == queue
    ensures StrictlySorted(q[|queue|..])
    ensures forall u :: u in q[|queue|..] <==>
      u !in seen && u in Followed(lib, url, resp.anchors + resp.resources)
    ensures forall u :: u in q ==> u in queue || IsAllowed(u)
  {
    var newLinks := ExtractLinks(lib, url, resp.anchors, resp.resources);
    q := EnqueueNew(queue, newLinks, seen);
    forall u | u in q ensures u in queue || IsAllowed(u) {
      assert q == queue + q[|queue|..];
      if u !in queue {
        FollowedAllowed(lib, url, resp.anchors + resp.resources, u);
      }
    }
  }

  /** One download of the crawl loop: a successful download is saved at its
      local path, and an HTML page's unseen links go to the back of the queue. */
  method Visit(lib: UrlLib, fetch: string -> Option<Response>, url: string,
               queue: seq<string>, seen: set<string>, saved: seq<Saved>)
    returns (queue': seq<string>, saved': seq<Saved>)
    requires forall u :: u in queue ==> IsAllowed(u)
    ensures saved' == saved + (if fetch(url).Some? then [Saved(url, LocalPath(lib.netloc(url), lib.path(url)))] else [])
    ensures VisitedQueue(lib, fetch, url, queue, seen, queue')
    ensures |queue| <= |queue'| && queue'[..|queue|] == queue
    ensures forall u :: u in queue' ==> IsAllowed(u)
  {
    queue', saved' := queue, saved;
    var resp := fetch(url);
    if resp.Some? {
      var localPath := SafePathFromUrl(lib, url);
      saved' := saved + [Saved(url, localPath)];
      if Contains(resp.value.contentType, "text/html") || EndsWith(localPath, ".html") {
        queue' := FollowLinks(lib, url, resp.value, queue, seen);
      }
    }
  }

  /** The crawl loop's work on a URL not seen before: it is marked seen,
      recorded as attempted and visited. */
  method Attempt(lib: UrlLib, fetch: string -> Option<Response>, url: string,
                 queue: seq<string>, seen: set<string>, attempts: seq<string>, saved: seq<Saved>)
    returns (queue': seq<string>, seen': set<string>, attempts': seq<string>, saved': seq<Saved>)
    requires url !in seen && IsAllowed(url)
    requires forall u :: u in queue ==> IsAllowed(u)
    requires NoDuplicates(attempts)
    requires forall u :: u in seen <==> u in attempts
    requires forall u :: u in attempts ==> IsAllowed(u)
    requires saved == SavedFor(lib, fetch, attempts)
    ensures attempts' == attempts + [url]
    ensures VisitedQueue(lib, fetch, url, queue, seen + {url}, queue')
    ensures |queue| <= |queue'| && queue'[..|queue|] == queue
    ensures forall u :: u in queue' ==> IsAllowed(u)
    ensures NoDuplicates(attempts')
    ensures forall u :: u in seen' <==> u in attempts'
    ensures forall u :: u in attempts' ==> IsAllowed(u)
    ensures saved' == SavedFor(lib, fetch, attempts')
  {
    seen' := seen + {url};
    NoDuplicatesSnoc(attempts, url);
    SavedForSnoc(lib, fetch, attempts, url);
    attempts' := attempts + [url];
    queue', saved' := Visit(lib, fetch, url, queue, seen', saved);
  }

  /** One pop of the crawl loop: the URL at the head of the queue is dropped
      when already seen, and attempted otherwise. */
  method Pop(lib: UrlLib, fetch: string -> Option<Response>, ghost pops: nat,
             queue: seq<string>, seen: set<string>, attempts: seq<string>, saved: seq<Saved>)
    returns (queue': seq<string>, seen': set<string>, attempts': seq<string>, saved': seq<Saved>)
    requires queue != []
    requires forall u :: u in queue ==> IsAllowed(u)
    requires NoDuplicates(attempts)
    requires forall u :: u in seen <==> u in attempts
    requires forall u :: u in attempts ==> IsAllowed(u)
    requires saved == SavedFor(lib, fetch, attempts)
    requires StartPhase(pops, attempts, queue) && StartsAttempted(pops, attempts)
    ensures attempts' == (if queue[0] in seen then attempts else attempts + [queue[0]])
    ensures queue[0] in seen ==> queue' == queue[1..]
    ensures queue[0] !in seen ==> VisitedQueue(lib, fetch, queue[0], queue[1..], seen + {queue[0]}, queue')
    ensures forall u :: u in queue' ==> IsAllowed(u)
    ensures NoDuplicates(attempts')
    ensures forall u :: u in seen' <==> u in attempts'
    ensures forall u :: u in attempts' ==> IsAllowed(u)
    ensures saved' == SavedFor(lib, fetch, attempts')
    ensures StartPhase(pops + 1, attempts', queue') && StartsAttempted(pops + 1, attempts')
  {
    var url := queue[0];
    var rest := queue[1..];
    if url !in seen {
      queue', seen', attempts', saved' := Attempt(lib, fetch, url, rest, seen, attempts, saved);
      StartStep(pops, attempts, queue, seen, attempts');
      StartPhaseGrow(pops + 1, attempts', rest, queue');
    } else {
      queue', seen', attempts', saved' := rest, seen, attempts, saved;
      StartStep(pops, attempts, queue, seen, attempts');
    }
  }

  /** The crawl starts in the start phase, with the start pages queued. */
  lemma CrawlStart()
    ensures forall u :: u in StartUrls ==> IsAllowed(u)
    ensures StartPhase(0, [], StartUrls) && StartsAttempted(0, [])
  {
    StartUrlsAllowed();
  }

  /** The loop of `main`. `fetch` stands for `download_url` (`None` where it
      raises), and `fuel` bounds the number of queue pops, which on a finite
      site the source needs no bound for. It returns the `seen` set, the URLs
      it tried to download, in order, and the files it wrote. */
  method Crawl(lib: UrlLib, fetch: string -> Option<Response>, fuel: nat)
    returns (seen: set<string>, attempts: seq<string>, saved: seq<Saved>)
    ensures NoDuplicates(attempts)
    ensures forall u :: u in seen <==> u in attempts
    ensures forall u :: u in attempts ==> IsAllowed(u)
    ensures saved == SavedFor(lib, fetch, attempts)
    ensures forall k :: 0 <= k < |StartUrls| && k < fuel ==> k < |attempts| && attempts[k] == StartUrls[k]
  {
    CrawlStart();
    var queue := StartUrls;
    seen := {};
    attempts := [];
    saved := [];
    var steps := fuel;
    ghost var pops: nat := 0;
    while queue != [] && steps > 0
      invariant forall u :: u in queue ==> IsAllowed(u)
      invariant NoDuplicates(attempts)
      invariant forall u :: u in seen <==> u in attempts
      invariant forall u :: u in attempts ==> IsAllowed(u)
      invariant saved == SavedFor(lib, fetch, attempts)
      invariant pops + steps == fuel
      invariant StartPhase(pops, attempts, queue)
      invariant StartsAttempted(pops, attempts)
      decreases steps
    {
      queue, seen, attempts, saved := Pop(lib, fetch, pops, queue, seen, attempts, saved);
      steps := steps - 1;
      pops := pops + 1;
    }
    StartsAttemptedAtEnd(pops, fuel, attempts, queue);
  }
}
