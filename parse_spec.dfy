/** The success-criterion segmenter of ingestion/parse_spec.py over a page that
    has already been parsed: the page is the sequence of its elements in
    document order (the order of `next_elements`), each with the text that
    `get_text(" ", strip=True)` gives it, its `id` and its parent's `id`. */
module ParseSpec {
  import opened Maybe
  import opened PyStr
  import opened Normalize
  import opened ScPatterns

  /** Text with no whitespace at either end, as `get_text(..., strip=True)` returns. */
  predicate Stripped(t: string) {
    t == [] || (t[0] !in Whitespace && t[|t| - 1] !in Whitespace)
  }

  type Text = t: string | Stripped(t)

  /** An element of the page. */
  datatype Node = Node(name: string, text: Text, id: Option<string>, parentId: Option<string>)

  /** The tags that may carry a success-criterion heading. */
  const HeadTags: set<string> := {"h2", "h3", "h4", "h5", "dt"}

  /** The tags whose text is collected into a body. */
  const BodyTags: set<string> := {"p", "li", "dt", "dd", "blockquote"}

  /** The tags the body walk passes over with `continue`. */
  const SkipTags: set<string> := {"nav", "header", "footer"}

  /** `is_sc_node`: a heading tag whose text parses as a success criterion. */
  function IsScNode(n: Node): (r: Option<Parsed>)
    ensures r.Some? ==> n.name in HeadTags && IsTriple(r.value.scId)
  {
    if n.name in HeadTags then
      var r := ParseScFromText(n.text);
      if r.Some? then ParsedIdIsTriple(n.text); r else r
    else None
  }

  /** `is_major_section_heading`. */
  predicate IsMajorSectionHeading(n: Node) {
    n.name == "h2"
  }

  /** Where a body ends: at the next success-criterion heading of any kind
      (a duplicate or a `5.` labelled one included) or at the next `h2`. */
  predicate IsStop(n: Node) {
    IsScNode(n).Some? || IsMajorSectionHeading(n)
  }

  /** Which elements of the page end a body. */
  function Stops(nodes: seq<Node>): (r: seq<bool>)
    ensures |r| == |nodes|
  {
    if nodes == [] then []
    else Stops(nodes[..|nodes| - 1]) + [IsStop(nodes[|nodes| - 1])]
  }

  lemma {:induction false} StopsSpec(nodes: seq<Node>, i: nat)
    requires i < |nodes|
    ensures Stops(nodes)[i] == IsStop(nodes[i])
  {
    var pre := nodes[..|nodes| - 1];
    if i < |nodes| - 1 {
      StopsSpec(pre, i);
      assert pre[i] == nodes[i];
    }
  }

  /** The stop test of the walk: `is_sc_node`, then `is_major_section_heading`. */
  method AtStop(nodes: seq<Node>, i: nat) returns (stop: bool)
    requires i < |nodes|
    ensures stop == Stops(nodes)[i]
  {
    StopsSpec(nodes, i);
    var el := nodes[i];
    if IsScNode(el).Some? {
      return true;
    }
    if IsMajorSectionHeading(el) {
      return true;
    }
    return false;
  }

  /** The first stop at or after `from`, or the end of the page; `stops[i]`
      says whether element `i` is a stop. */
  function StopIndex(stops: seq<bool>, from: nat): (r: nat)
    requires from <= |stops|
    decreases |stops| - from
    ensures from <= r <= |stops|
    ensures r < |stops| ==> stops[r]
    ensures forall j :: from <= j < r ==> !stops[j]
  {
    if from == |stops| then from
    else if stops[from] then from
    else StopIndex(stops, from + 1)
  }

  /** A run of non-stops ended by a stop (or the end of the page) is where
      `StopIndex` stops. */
  lemma StopIndexUnique(stops: seq<bool>, from: nat, r: nat)
    requires from <= r <= |stops|
    requires forall j :: from <= j < r ==> !stops[j]
    requires r == |stops| || stops[r]
    ensures StopIndex(stops, from) == r
  {
  }

  lemma SkipTagsAreNotBodyTags(name: string)
    ensures name in SkipTags ==> name !in BodyTags
  {
  }

  predicate Collectable(n: Node) {
    n.name in BodyTags && n.text != []
  }

  /** The texts of the collectable elements of `nodes[lo..hi]`, in order. */
  function BodyParts(nodes: seq<Node>, lo: nat, hi: nat): seq<string>
    requires lo <= hi <= |nodes|
    decreases hi
  {
    if hi == lo then []
    else BodyParts(nodes, lo, hi - 1) + (if Collectable(nodes[hi - 1]) then [nodes[hi - 1].text] else [])
  }

  /** The body consists of exactly the non-empty texts of `p`/`li`/`dt`/`dd`/
      `blockquote` elements in the range, each appearing once per element. */
  lemma {:induction false} BodyPartsContents(nodes: seq<Node>, lo: nat, hi: nat)
    requires lo <= hi <= |nodes|
    ensures forall x :: x in BodyParts(nodes, lo, hi) ==>
      exists j :: lo <= j < hi && Collectable(nodes[j]) && nodes[j].text == x
    ensures forall j :: lo <= j < hi && Collectable(nodes[j]) ==> nodes[j].text in BodyParts(nodes, lo, hi)
    decreases hi
  {
    if hi > lo {
      BodyPartsContents(nodes, lo, hi - 1);
    }
  }

  /** The text `collect_until_next_sc` returns for the heading at `start`. */
  function CollectedText(nodes: seq<Node>, start: nat): string
    requires start < |nodes|
  {
    var stop := StopIndex(Stops(nodes), start + 1);
    NormalizeText(Join("\n", [nodes[start].text] + BodyParts(nodes, start + 1, stop)))
  }

  /** The walk of `collect_until_next_sc` over the elements after the
      heading: the heading's text, then the texts it collects, up to the
      first stop. */
  method CollectParts(nodes: seq<Node>, start: nat) returns (parts: seq<string>)
    requires start < |nodes|
    ensures parts == [nodes[start].text] + BodyParts(nodes, start + 1, StopIndex(Stops(nodes), start + 1))
  {
    ghost var stops := Stops(nodes);
    parts := [nodes[start].text];
    var i := start + 1;
    while i < |nodes|
      invariant start + 1 <= i <= |nodes|
      invariant forall j :: start + 1 <= j < i ==> !stops[j]
      invariant parts == [nodes[start].text] + BodyParts(nodes, start + 1, i)
    {
      var stop := AtStop(nodes, i);
      if stop {
        break;
      }
      var el := nodes[i];
      if el.name in SkipTags {
        assert !Collectable(el) by {
          SkipTagsAreNotBodyTags(el.name);
        }
        i := i + 1;
        continue;
      }
      if el.name in BodyTags {
        var txt := el.text;
        if txt != [] {
          parts := parts + [txt];
        }
      }
      i := i + 1;
    }
    StopIndexUnique(stops, start + 1, i);
  }

  /** `collect_until_next_sc`: the heading's own text, then the text of every
      collectable element up to the next stop, joined by newlines and normalized. */
  method CollectUntilNextSc(nodes: seq<Node>, start: nat) returns (text: string)
    requires start < |nodes|
    ensures text == CollectedText(nodes, start)
  {
    var parts := CollectParts(nodes, start);
    text := NormalizeText(Join("\n", parts));
  }

  /** A chunk's text begins with the heading's own text (normalized). */
  lemma CollectedTextStartsWithHead(nodes: seq<Node>, start: nat)
    requires start < |nodes|
    ensures StartsWith(CollectedText(nodes, start), NormalizeText(nodes[start].text))
  {
    var h := nodes[start].text;
    var rest := BodyParts(nodes, start + 1, StopIndex(Stops(nodes), start + 1));
    if h == [] {
      assert NormalizeText(h) == [];
    } else if rest == [] {
      assert [h] + rest == [h];
    } else {
      JoinCons("\n", h, rest);
      assert h + "\n" + Join("\n", rest) == h + ("\n" + Join("\n", rest));
      NormalizeTextKeepsHead(h, "\n" + Join("\n", rest));
    }
  }

  /** A chunk's text is normalized, and every character other than whitespace
      in it comes, in order, from the heading and the collected elements. */
  lemma CollectedTextNormalized(nodes: seq<Node>, start: nat)
    requires start < |nodes|
    ensures Normalized(CollectedText(nodes, start))
    ensures var parts := [nodes[start].text] + BodyParts(nodes, start + 1, StopIndex(Stops(nodes), start + 1));
      Visible(CollectedText(nodes, start)) == Visible(Join("\n", parts))
  {
    var parts := [nodes[start].text] + BodyParts(nodes, start + 1, StopIndex(Stops(nodes), start + 1));
    NormalizeTextNormalized(Join("\n", parts));
    NormalizeTextKeepsVisible(Join("\n", parts));
  }

  /** A heading found on the page: where it is and what it parsed to. */
  datatype Head = Head(at: nat, scId: string, title: string)

  /** What `is_sc_node` says of each element of the page. */
  function Marks(nodes: seq<Node>): (r: seq<Option<Parsed>>)
    ensures |r| == |nodes|
  {
    if nodes == [] then []
    else Marks(nodes[..|nodes| - 1]) + [IsScNode(nodes[|nodes| - 1])]
  }

  lemma {:induction false} MarksSpec(nodes: seq<Node>, i: nat)
    requires i < |nodes|
    ensures Marks(nodes)[i] == IsScNode(nodes[i])
  {
    var pre := nodes[..|nodes| - 1];
    if i < |nodes| - 1 {
      MarksSpec(pre, i);
      assert pre[i] == nodes[i];
    }
  }

  /** Every heading on the page has a dotted-triple id. */
  lemma MarksAreTriples(nodes: seq<Node>)
    ensures forall i :: 0 <= i < |nodes| && Marks(nodes)[i].Some? ==> IsTriple(Marks(nodes)[i].value.scId)
  {
    forall i | 0 <= i < |nodes| && Marks(nodes)[i].Some? ensures IsTriple(Marks(nodes)[i].value.scId) {
      MarksSpec(nodes, i);
    }
  }

  /** The filter of `find_all` on the heading tags, then `is_sc_node`. */
  method HeadingAt(nodes: seq<Node>, i: nat) returns (parsed: Option<Parsed>)
    requires i < |nodes|
    ensures parsed == Marks(nodes)[i]
  {
    MarksSpec(nodes, i);
    var tag := nodes[i];
    if tag.name in HeadTags {
      parsed := IsScNode(tag);
    } else {
      parsed := None;
    }
  }

  /** The success-criterion headings among the first `n` elements, in document
      order, as `find_all` followed by `is_sc_node` lists them; `marks[i]` is
      what `is_sc_node` says of element `i`. */
  function Candidates(marks: seq<Option<Parsed>>, n: nat): seq<Head>
    requires n <= |marks|
  {
    if n == 0 then []
    else
      var pre := Candidates(marks, n - 1);
      match marks[n - 1]
      case None => pre
      case Some(p) => pre + [Head(n - 1, p.scId, p.title)]
  }

  /** Every candidate records its element's position and parse, and candidates
      appear in page order. */
  lemma {:induction false} CandidatesSound(marks: seq<Option<Parsed>>, n: nat)
    requires n <= |marks|
    ensures forall k :: 0 <= k < |Candidates(marks, n)| ==>
      var h := Candidates(marks, n)[k]; h.at < n && marks[h.at] == Some(Parsed(h.scId, h.title))
    ensures forall k, k' :: 0 <= k < k' < |Candidates(marks, n)| ==>
      Candidates(marks, n)[k].at < Candidates(marks, n)[k'].at
  {
    if n > 0 {
      CandidatesSound(marks, n - 1);
      var pre := Candidates(marks, n - 1);
      var c := Candidates(marks, n);
      if marks[n - 1].Some? {
        assert c == pre + [Head(n - 1, marks[n - 1].value.scId, marks[n - 1].value.title)];
        forall k | 0 <= k < |c| ensures c[k].at < n && marks[c[k].at] == Some(Parsed(c[k].scId, c[k].title)) {
          if k < |pre| {
            assert c[k] == pre[k];
          }
        }
        forall k, k' | 0 <= k < k' < |c| ensures c[k].at < c[k'].at {
          assert c[k] == pre[k];
          if k' < |pre| {
            assert c[k'] == pre[k'];
          }
        }
      }
    }
  }

  /** No heading is missed. */
  lemma {:induction false} CandidatesComplete(marks: seq<Option<Parsed>>, n: nat, i: nat)
    requires i < n <= |marks| && marks[i].Some?
    ensures exists k :: 0 <= k < |Candidates(marks, n)| && Candidates(marks, n)[k].at == i
  {
    var c := Candidates(marks, n);
    if i == n - 1 {
      assert c[|c| - 1].at == i;
    } else {
      CandidatesComplete(marks, n - 1, i);
      var k :| 0 <= k < |Candidates(marks, n - 1)| && Candidates(marks, n - 1)[k].at == i;
      assert c[k] == Candidates(marks, n - 1)[k];
    }
  }

  /** The loop of `main` that collects the headings. */
  method FindCandidates(nodes: seq<Node>) returns (cands: seq<Head>)
    ensures cands == Candidates(Marks(nodes), |nodes|)
  {
    ghost var marks := Marks(nodes);
    cands := [];
    for i := 0 to |nodes|
      invariant cands == Candidates(marks, i)
    {
      var parsed := HeadingAt(nodes, i);
      if parsed.Some? {
        cands := cands + [Head(i, parsed.value.scId, parsed.value.title)];
      }
    }
  }

  /** The ids occurring in `c`. */
  function Ids(c: seq<Head>): set<string> {
    if c == [] then {} else Ids(c[..|c| - 1]) + {c[|c| - 1].scId}
  }

  lemma {:induction false} IdsSpec(c: seq<Head>)
    ensures forall k :: 0 <= k < |c| ==> c[k].scId in Ids(c)
    ensures forall id :: id in Ids(c) ==> exists k :: 0 <= k < |c| && c[k].scId == id
  {
    if c != [] {
      IdsSpec(c[..|c| - 1]);
      forall k | 0 <= k < |c| - 1 ensures c[k].scId in Ids(c) {
        assert c[..|c| - 1][k] == c[k];
      }
      forall id | id in Ids(c) ensures exists k :: 0 <= k < |c| && c[k].scId == id {
        if id != c[|c| - 1].scId {
          var k :| 0 <= k < |c| - 1 && c[..|c| - 1][k].scId == id;
          assert c[k] == c[..|c| - 1][k];
        }
      }
    }
  }

  lemma IdsAppend(c: seq<Head>, h: Head)
    ensures Ids(c + [h]) == Ids(c) + {h.scId}
  {
    assert (c + [h])[..|c|] == c;
  }

  /** Deduplication by id, keeping each id's first occurrence. */
  function FirstOnly(c: seq<Head>): seq<Head> {
    if c == [] then []
    else
      var pre := c[..|c| - 1];
      if c[|c| - 1].scId in Ids(pre) then FirstOnly(pre) else FirstOnly(pre) + [c[|c| - 1]]
  }

  /** The index of the first element of `c` with id `id`. */
  function FirstIndex(c: seq<Head>, id: string): (r: nat)
    requires id in Ids(c)
    ensures r < |c| && c[r].scId == id
    ensures forall k :: 0 <= k < r ==> c[k].scId != id
  {
    var pre := c[..|c| - 1];
    if id in Ids(pre) then
      var r := FirstIndex(pre, id);
      assert forall k :: 0 <= k <= r ==> c[k] == pre[k];
      r
    else
      IdsSpec(pre);
      |c| - 1
  }

  /** The loop of `main` that drops repeated ids. */
  method Dedup(cands: seq<Head>) returns (ordered: seq<Head>)
    ensures ordered == FirstOnly(cands)
  {
    var seen: set<string> := {};
    ordered := [];
    for i := 0 to |cands|
      invariant seen == Ids(cands[..i])
      invariant ordered == FirstOnly(cands[..i])
    {
      var h := cands[i];
      assert cands[..i + 1][..i] == cands[..i];
      if h.scId in seen {
        continue;
      }
      seen := seen + {h.scId};
      ordered := ordered + [h];
    }
    assert cands[..|cands|] == cands;
  }

  /** Deduplication keeps every id. */
  lemma {:induction false} FirstOnlyIds(c: seq<Head>)
    ensures Ids(FirstOnly(c)) == Ids(c)
  {
    if c != [] {
      var pre := c[..|c| - 1];
      FirstOnlyIds(pre);
      if c[|c| - 1].scId !in Ids(pre) {
        IdsAppend(FirstOnly(pre), c[|c| - 1]);
      }
    }
  }

  /** Each kept record is the first occurrence of its id. */
  lemma {:induction false} FirstOnlyFirst(c: seq<Head>)
    ensures forall k :: 0 <= k < |FirstOnly(c)| ==>
      FirstOnly(c)[k].scId in Ids(c) && FirstOnly(c)[k] == c[FirstIndex(c, FirstOnly(c)[k].scId)]
  {
    if c != [] {
      var pre := c[..|c| - 1];
      var last := c[|c| - 1];
      FirstOnlyFirst(pre);
      var r := FirstOnly(c);
      var rp := FirstOnly(pre);
      forall k | 0 <= k < |r| ensures r[k].scId in Ids(c) && r[k] == c[FirstIndex(c, r[k].scId)] {
        if k < |rp| {
          assert r[k] == rp[k];
          assert FirstIndex(c, r[k].scId) == FirstIndex(pre, r[k].scId);
        } else {
          assert r[k] == last;
        }
      }
    }
  }

  /** Kept records appear in the order of their first occurrences. */
  lemma {:induction false} FirstOnlyOrder(c: seq<Head>)
    ensures forall k :: 0 <= k < |FirstOnly(c)| ==> FirstOnly(c)[k].scId in Ids(c)
    ensures forall k, k' :: 0 <= k < k' < |FirstOnly(c)| ==>
      FirstIndex(c, FirstOnly(c)[k].scId) < FirstIndex(c, FirstOnly(c)[k'].scId)
  {
    FirstOnlyFirst(c);
    if c != [] {
      var pre := c[..|c| - 1];
      var last := c[|c| - 1];
      FirstOnlyOrder(pre);
      var r := FirstOnly(c);
      var rp := FirstOnly(pre);
      forall k, k' | 0 <= k < k' < |r|
        ensures FirstIndex(c, r[k].scId) < FirstIndex(c, r[k'].scId)
      {
        assert r[k] == rp[k];
        assert FirstIndex(c, r[k].scId) == FirstIndex(pre, r[k].scId);
        if k' < |rp| {
          assert r[k'] == rp[k'];
          assert FirstIndex(c, r[k'].scId) == FirstIndex(pre, r[k'].scId);
        } else {
          assert r[k'] == last;
        }
      }
    }
  }

  /** Ids kept by deduplication are pairwise distinct. */
  lemma FirstOnlyDistinct(c: seq<Head>)
    ensures forall k, k' :: 0 <= k < k' < |FirstOnly(c)| ==> FirstOnly(c)[k].scId != FirstOnly(c)[k'].scId
  {
    FirstOnlyFirst(c);
    FirstOnlyOrder(c);
  }

  /** The page a chunk cites when no anchor is known. */
  const BaseUrl: string := "https://www.w3.org/TR/WCAG22/"

  /** Python truthiness of an optional string: present and not empty. */
  predicate Truthy(v: Option<string>) {
    v.Some? && v.value != []
  }

  /** `anchor_for`: the element's own id, else its parent's, when non-empty. */
  function AnchorFor(n: Node): (r: Option<string>)
    ensures r.Some? ==> r.value != []
    ensures Truthy(n.id) ==> r == n.id
    ensures !Truthy(n.id) && Truthy(n.parentId) ==> r == n.parentId
    ensures !Truthy(n.id) && !Truthy(n.parentId) ==> r.None?
  {
    if Truthy(n.id) then n.id
    else if Truthy(n.parentId) then n.parentId
    else None
  }

  /** The chunk's `url`: the specification page, with the anchor as fragment. */
  function UrlFor(anchor: Option<string>): string {
    match anchor
    case Some(a) => BaseUrl + "#" + a
    case None => BaseUrl
  }

  /** The fragment of a URL: what follows its first `#`. */
  function Fragment(url: string): Option<string> {
    match Find(url, "#")
    case Some(k) => Some(url[k + 1..])
    case None => None
  }

  /** The URL always points into the specification page, and its fragment gives
      back exactly the anchor it was built from. */
  lemma UrlForFragment(anchor: Option<string>)
    ensures StartsWith(UrlFor(anchor), BaseUrl)
    ensures Fragment(UrlFor(anchor)) == anchor
  {
    var u := UrlFor(anchor);
    assert u[..|BaseUrl|] == BaseUrl;
    assert forall k :: 0 <= k < |BaseUrl| ==> BaseUrl[k] != '#';
    assert forall k :: 0 <= k < |BaseUrl| ==> !OccursAt(u, "#", k) by {
      forall k | 0 <= k < |BaseUrl| ensures !OccursAt(u, "#", k) {
        assert u[k] == BaseUrl[k];
        assert u[k..k + 1][0] == u[k];
      }
    }
    match anchor
    case Some(a) =>
      assert OccursAt(u, "#", |BaseUrl|) by {
        assert u[|BaseUrl|..|BaseUrl| + 1] == "#";
      }
      assert u[|BaseUrl| + 1..] == a;
    case None =>
  }

  /** A record of the output file. */
  datatype Chunk = Chunk(
    docSet: string, source: string, normativity: string, version: string,
    scId: string, scTitle: string, level: Option<string>, url: string, text: string)

  /** The record `main` writes for a heading. */
  function ChunkFor(nodes: seq<Node>, h: Head): Chunk
    requires h.at < |nodes|
  {
    var text := CollectedText(nodes, h.at);
    Chunk("wcag22", "wcag_spec", "normative", "2.2",
          h.scId, h.title, InferLevel(text), UrlFor(AnchorFor(nodes[h.at])), text)
  }

  /** Every record carries the same provenance, the heading's id and title, a
      level that is absent or one of A, AA and AAA, and a URL into the
      specification page whose fragment is the heading's anchor. */
  lemma ChunkForFields(nodes: seq<Node>, h: Head)
    requires h.at < |nodes|
    ensures var c := ChunkFor(nodes, h);
      && c.docSet == "wcag22" && c.source == "wcag_spec"
      && c.normativity == "normative" && c.version == "2.2"
      && c.scId == h.scId && c.scTitle == h.title
      && (c.level.None? || c.level.value in {"A", "AA", "AAA"})
      && StartsWith(c.url, BaseUrl) && Fragment(c.url) == AnchorFor(nodes[h.at])
      && StartsWith(c.text, NormalizeText(nodes[h.at].text))
  {
    UrlForFragment(AnchorFor(nodes[h.at]));
    CollectedTextStartsWithHead(nodes, h.at);
  }

  /** The records for a sequence of headings, in order. */
  function ChunksFor(nodes: seq<Node>, hs: seq<Head>): (r: seq<Chunk>)
    requires forall k :: 0 <= k < |hs| ==> hs[k].at < |nodes|
    ensures |r| == |hs|
  {
    if hs == [] then []
    else ChunksFor(nodes, hs[..|hs| - 1]) + [ChunkFor(nodes, hs[|hs| - 1])]
  }

  lemma {:induction false} ChunksForSpec(nodes: seq<Node>, hs: seq<Head>, k: nat)
    requires forall k :: 0 <= k < |hs| ==> hs[k].at < |nodes|
    requires k < |hs|
    ensures ChunksFor(nodes, hs)[k] == ChunkFor(nodes, hs[k])
  {
    var pre := hs[..|hs| - 1];
    if k < |hs| - 1 {
      ChunksForSpec(nodes, pre, k);
      assert pre[k] == hs[k];
    }
  }

  /** The body of the record-building loop of `main` for one heading. */
  method ChunkAt(nodes: seq<Node>, h: Head) returns (c: Chunk)
    requires h.at < |nodes|
    ensures c == ChunkFor(nodes, h)
  {
    var text := CollectUntilNextSc(nodes, h.at);
    var level := InferLevel(text);
    var anchorId := AnchorFor(nodes[h.at]);
    var url := if anchorId.Some? then BaseUrl + "#" + anchorId.value else BaseUrl;
    c := Chunk("wcag22", "wcag_spec", "normative", "2.2", h.scId, h.title, level, url, text);
  }

  /** The loop of `main` that builds the records. */
  method BuildChunks(nodes: seq<Node>, ordered: seq<Head>) returns (chunks: seq<Chunk>)
    requires forall k :: 0 <= k < |ordered| ==> ordered[k].at < |nodes|
    ensures chunks == ChunksFor(nodes, ordered)
  {
    chunks := [];
    for i := 0 to |ordered|
      invariant chunks == ChunksFor(nodes, ordered[..i])
    {
      var c := ChunkAt(nodes, ordered[i]);
      assert ordered[..i + 1][..i] == ordered[..i];
      chunks := chunks + [c];
    }
    assert ordered[..|ordered|] == ordered;
  }

  /** The headings `main` keeps, in the order it emits them. */
  function Ordered(nodes: seq<Node>): seq<Head> {
    FirstOnly(Candidates(Marks(nodes), |nodes|))
  }

  /** Each heading kept by `main` records its element's position and parse,
      and the kept headings are in page order. */
  lemma KeptSound(marks: seq<Option<Parsed>>)
    ensures var kept := FirstOnly(Candidates(marks, |marks|));
      && (forall k :: 0 <= k < |kept| ==>
            kept[k].at < |marks| && marks[kept[k].at] == Some(Parsed(kept[k].scId, kept[k].title)))
      && (forall k, k' :: 0 <= k < k' < |kept| ==> kept[k].at < kept[k'].at)
  {
    var cands := Candidates(marks, |marks|);
    var kept := FirstOnly(cands);
    CandidatesSound(marks, |marks|);
    FirstOnlyFirst(cands);
    FirstOnlyOrder(cands);
    forall k | 0 <= k < |kept|
      ensures kept[k].at < |marks| && marks[kept[k].at] == Some(Parsed(kept[k].scId, kept[k].title))
    {
      assert kept[k] == cands[FirstIndex(cands, kept[k].scId)];
    }
    forall k, k' | 0 <= k < k' < |kept| ensures kept[k].at < kept[k'].at {
      assert kept[k] == cands[FirstIndex(cands, kept[k].scId)];
      assert kept[k'] == cands[FirstIndex(cands, kept[k'].scId)];
    }
  }

  /** Deduplication keeps, for every record, the first record with its id. */
  lemma FirstOnlyRepresents(c: seq<Head>, j: nat)
    requires j < |c|
    ensures exists k, f ::
      (0 <= k < |FirstOnly(c)| && 0 <= f <= j && FirstOnly(c)[k] == c[f] && c[f].scId == c[j].scId)
  {
    var kept := FirstOnly(c);
    var id := c[j].scId;
    IdsSpec(c);
    FirstOnlyIds(c);
    IdsSpec(kept);
    var k :| 0 <= k < |kept| && kept[k].scId == id;
    FirstOnlyFirst(c);
    var f := FirstIndex(c, id);
    assert kept[k] == c[f];
  }

  /** Every heading on the page is represented among the kept ones by the
      first heading with its id, which is never later than it. */
  lemma KeptComplete(marks: seq<Option<Parsed>>, i: nat)
    requires i < |marks| && marks[i].Some?
    ensures var kept := FirstOnly(Candidates(marks, |marks|));
      exists k :: 0 <= k < |kept| && kept[k].scId == marks[i].value.scId && kept[k].at <= i
  {
    var cands := Candidates(marks, |marks|);
    CandidatesSound(marks, |marks|);
    CandidatesComplete(marks, |marks|, i);
    var j :| 0 <= j < |cands| && cands[j].at == i;
    FirstOnlyRepresents(cands, j);
    var k, f :| 0 <= k < |FirstOnly(cands)| && 0 <= f <= j
      && FirstOnly(cands)[k] == cands[f] && cands[f].scId == cands[j].scId;
    assert cands[f].at <= i;
  }

  /** `main` without the file handling: headings, deduplication, records. */
  method Segment(nodes: seq<Node>) returns (chunks: seq<Chunk>)
    ensures |chunks| == |Ordered(nodes)|
    ensures forall k :: 0 <= k < |Ordered(nodes)| ==>
      Ordered(nodes)[k].at < |nodes| && chunks[k] == ChunkFor(nodes, Ordered(nodes)[k])
  {
    var cands := FindCandidates(nodes);
    var ordered := Dedup(cands);
    KeptSound(Marks(nodes));
    chunks := BuildChunks(nodes, ordered);
    forall k | 0 <= k < |ordered| ensures chunks[k] == ChunkFor(nodes, ordered[k]) {
      ChunksForSpec(nodes, ordered, k);
    }
  }

  /** What `main` keeps from any parse of a page whose headings all carry
      dotted-triple ids. */
  lemma KeptIds(marks: seq<Option<Parsed>>)
    requires forall i :: 0 <= i < |marks| && marks[i].Some? ==> IsTriple(marks[i].value.scId)
    ensures var kept := FirstOnly(Candidates(marks, |marks|));
      && (forall k, k' :: 0 <= k < k' < |kept| ==> kept[k].scId != kept[k'].scId)
      && (forall k, k' :: 0 <= k < k' < |kept| ==> kept[k].at < kept[k'].at)
      && (forall k :: 0 <= k < |kept| ==>
            (kept[k].at < |marks| && IsTriple(kept[k].scId)
             && marks[kept[k].at] == Some(Parsed(kept[k].scId, kept[k].title))))
      && (forall i :: 0 <= i < |marks| && marks[i].Some? ==>
            exists k :: 0 <= k < |kept| && kept[k].scId == marks[i].value.scId && kept[k].at <= i)
  {
    var kept := FirstOnly(Candidates(marks, |marks|));
    KeptSound(marks);
    FirstOnlyDistinct(Candidates(marks, |marks|));
    forall i | 0 <= i < |marks| && marks[i].Some?
      ensures exists k :: 0 <= k < |kept| && kept[k].scId == marks[i].value.scId && kept[k].at <= i
    {
      KeptComplete(marks, i);
    }
  }

  /** The records of a page carry pairwise distinct ids, each a dotted triple,
      each taken from the first heading on the page that carries it, in page
      order; every heading's id is among them. */
  lemma SegmentIds(nodes: seq<Node>)
    ensures var kept := Ordered(nodes); var marks := Marks(nodes);
      && (forall k, k' :: 0 <= k < k' < |kept| ==> kept[k].scId != kept[k'].scId)
      && (forall k, k' :: 0 <= k < k' < |kept| ==> kept[k].at < kept[k'].at)
      && (forall k :: 0 <= k < |kept| ==>
            (kept[k].at < |nodes| && IsTriple(kept[k].scId)
             && marks[kept[k].at] == Some(Parsed(kept[k].scId, kept[k].title))))
      && (forall i :: 0 <= i < |nodes| && marks[i].Some? ==>
            exists k :: 0 <= k < |kept| && kept[k].scId == marks[i].value.scId && kept[k].at <= i)
  {
    MarksAreTriples(nodes);
    KeptIds(Marks(nodes));
    assert Ordered(nodes) == FirstOnly(Candidates(Marks(nodes), |Marks(nodes)|));
  }
}
