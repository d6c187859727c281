/** The three regular expressions of ingestion/parse_spec.py, written out as
    scanners over `seq<char>`, each beside a declarative description of what
    the pattern accepts, and `parse_sc_from_text`, which combines two of them.

    `\d` is read as an ASCII digit, `\w` (and so `\b`) as an ASCII letter, digit
    or underscore, and IGNORECASE as ASCII case folding; `\s` is the set of
    characters for which `str.isspace` holds. */
module ScPatterns {
  import opened Maybe
  import opened PyStr

  /** `\b`: a word character on exactly one side of position `p`. */
  predicate WordBoundary(s: string, p: nat)
    requires p <= |s|
  {
    (p > 0 && IsWordChar(s[p - 1])) != (p < |s| && IsWordChar(s[p]))
  }

  /** The end of the maximal run of digits that starts at `i`. */
  function DigitsEnd(s: string, i: nat): (r: nat)
    requires i <= |s|
    decreases |s| - i
    ensures i <= r <= |s|
    ensures forall k :: i <= k < r ==> IsDigit(s[k])
    ensures r == |s| || !IsDigit(s[r])
  {
    if i < |s| && IsDigit(s[i]) then DigitsEnd(s, i + 1) else i
  }

  lemma DigitsEndUnique(s: string, i: nat, r: nat)
    requires i <= r <= |s|
    requires forall k :: i <= k < r ==> IsDigit(s[k])
    requires r == |s| || !IsDigit(s[r])
    ensures DigitsEnd(s, i) == r
  {
  }

  predicate DigitsIn(s: string, i: nat, j: nat)
    requires i <= j <= |s|
  {
    forall k :: i <= k < j ==> IsDigit(s[k])
  }

  /** `s[p..e]` reads `\d+\.\d+\.\d+` with the two dots at `a` and `b`. */
  predicate TripleSpan(s: string, p: nat, a: nat, b: nat, e: nat) {
    && p < a && a + 1 < b && b + 1 < e <= |s|
    && DigitsIn(s, p, a) && s[a] == '.'
    && DigitsIn(s, a + 1, b) && s[b] == '.'
    && DigitsIn(s, b + 1, e)
  }

  /** `s[p..e]` is a whole match of `\d+\.\d+\.\d+`. */
  predicate TripleAtSpan(s: string, p: nat, e: nat) {
    exists a: nat, b: nat | p < a < b < e :: TripleSpan(s, p, a, b, e)
  }

  /** `t` is an id such as `1.4.3`: three runs of digits joined by dots. */
  predicate IsTriple(t: string) {
    TripleAtSpan(t, 0, |t|)
  }

  /** A span that reads as a triple is, cut out, a triple. */
  lemma TripleOfSpan(s: string, p: nat, e: nat)
    requires TripleAtSpan(s, p, e)
    ensures IsTriple(s[p..e])
  {
    var a: nat, b: nat :| p < a < b < e && TripleSpan(s, p, a, b, e);
    var t := s[p..e];
    assert forall k :: 0 <= k < |t| ==> t[k] == s[p + k];
    assert TripleSpan(t, 0, a - p, b - p, |t|);
  }

  /** `\d+\.\d+\.\d+` matched greedily from `p`: where the match ends. */
  function TripleEnd(s: string, p: nat): Option<nat>
    requires p <= |s|
  {
    var e1 := DigitsEnd(s, p);
    if e1 == p || e1 == |s| || s[e1] != '.' then None
    else
      var e2 := DigitsEnd(s, e1 + 1);
      if e2 == e1 + 1 || e2 == |s| || s[e2] != '.' then None
      else
        var e3 := DigitsEnd(s, e2 + 1);
        if e3 == e2 + 1 then None else Some(e3)
  }

  lemma TripleEndSound(s: string, p: nat)
    requires p <= |s| && TripleEnd(s, p).Some?
    ensures var e := TripleEnd(s, p).value;
      p < e <= |s| && TripleAtSpan(s, p, e) && (e == |s| || !IsDigit(s[e]))
  {
    var e1 := DigitsEnd(s, p);
    var e2 := DigitsEnd(s, e1 + 1);
    assert TripleSpan(s, p, e1, e2, TripleEnd(s, p).value);
  }

  /** Greedy matching finds every triple that is not followed by a further digit. */
  lemma TripleEndComplete(s: string, p: nat, e: nat)
    requires TripleAtSpan(s, p, e) && (e == |s| || !IsDigit(s[e]))
    ensures TripleEnd(s, p) == Some(e)
  {
    var a: nat, b: nat :| p < a < b < e && TripleSpan(s, p, a, b, e);
    DigitsEndUnique(s, p, a);
    DigitsEndUnique(s, a + 1, b);
    DigitsEndUnique(s, b + 1, e);
  }

  /** `\b(\d+\.\d+\.\d+)\b` matches `s[p..e]`. */
  predicate TripleMatch(s: string, p: nat, e: nat) {
    p <= e <= |s| && TripleAtSpan(s, p, e) && WordBoundary(s, p) && WordBoundary(s, e)
  }

  /** The end of the match that `SC_ANYWHERE_RE` makes when tried at `p`. */
  function TripleAt(s: string, p: nat): Option<nat>
    requires p <= |s|
  {
    if !WordBoundary(s, p) then None
    else match TripleEnd(s, p)
      case None => None
      case Some(e) => if WordBoundary(s, e) then Some(e) else None
  }

  /** Tried at `p`, the pattern matches exactly the triples that `TripleMatch`
      describes: one at most, since the end is forced. */
  lemma TripleAtCharacterized(s: string, p: nat)
    requires p <= |s|
    ensures TripleAt(s, p).Some? ==> TripleMatch(s, p, TripleAt(s, p).value)
    ensures forall e: nat :: TripleMatch(s, p, e) ==> TripleAt(s, p) == Some(e)
  {
    if TripleAt(s, p).Some? {
      TripleEndSound(s, p);
    }
    forall e: nat | TripleMatch(s, p, e) ensures TripleAt(s, p) == Some(e) {
      var a: nat, b: nat :| p < a < b < e && TripleSpan(s, p, a, b, e);
      assert IsDigit(s[e - 1]);
      TripleEndComplete(s, p, e);
    }
  }

  /** `SC_ANYWHERE_RE.search(s[from..])` as positions in `s`: the leftmost match. */
  function SearchTripleFrom(s: string, from: nat): (r: Option<(nat, nat)>)
    requires from <= |s|
    decreases |s| - from
    ensures r.Some? ==> from <= r.value.0 <= |s| && TripleAt(s, r.value.0) == Some(r.value.1)
    ensures r.Some? ==> forall p :: from <= p < r.value.0 ==> TripleAt(s, p).None?
    ensures r.None? ==> forall p :: from <= p <= |s| ==> TripleAt(s, p).None?
  {
    match TripleAt(s, from)
    case Some(e) => Some((from, e))
    case None => if from == |s| then None else SearchTripleFrom(s, from + 1)
  }

  function SearchTriple(s: string): Option<(nat, nat)> {
    SearchTripleFrom(s, 0)
  }

  /** `SC_ANYWHERE_RE.search` finds the leftmost word-bounded triple, and finds
      nothing only when there is none. */
  lemma SearchTripleLeftmost(s: string)
    ensures SearchTriple(s).Some? ==>
      var (p, e) := SearchTriple(s).value;
      TripleMatch(s, p, e) && forall p': nat, e': nat :: p' < p ==> !TripleMatch(s, p', e')
    ensures SearchTriple(s).None? ==> forall p: nat, e: nat :: !TripleMatch(s, p, e)
  {
    forall p': nat, e': nat | TripleMatch(s, p', e') ensures TripleAt(s, p') == Some(e') {
      TripleAtCharacterized(s, p');
    }
    if SearchTriple(s).Some? {
      TripleAtCharacterized(s, SearchTriple(s).value.0);
    }
  }

  /** What `.strip(" :-–—")` removes from a fallback title. */
  const TitlePunct: set<char> := {' ', ':', '-', '\U{2013}', '\U{2014}'}

  /** A recognised heading: the success-criterion id and its title. */
  datatype Parsed = Parsed(scId: string, title: string)

  /** The second strategy of `parse_sc_from_text`: the first word-bounded triple
      anywhere, refused when it starts with `5.` (a conformance subsection), with
      the text after the first occurrence of that id as title. */
  function Fallback(s: string): (r: Option<Parsed>)
    ensures r.Some? <==>
      && SearchTriple(s).Some?
      && var id := s[SearchTriple(s).value.0..SearchTriple(s).value.1];
         !StartsWith(id, "5.") && Strip(AfterFirst(s, id), TitlePunct) != []
    ensures r.Some? ==>
      && r.value.scId == s[SearchTriple(s).value.0..SearchTriple(s).value.1]
      && r.value.title == Strip(AfterFirst(s, r.value.scId), TitlePunct)
  {
    match SearchTriple(s)
    case None => None
    case Some((p, e)) =>
      var id := s[p..e];
      if StartsWith(id, "5.") then None
      else
        var title := Strip(AfterFirst(s, id), TitlePunct);
        if title == [] then None else Some(Parsed(id, title))
  }

  /** A fallback result is the leftmost triple of the text, not a `5.` id, and its
      title is non-empty with none of ` :-–—` at either end. */
  lemma FallbackResult(s: string)
    requires Fallback(s).Some?
    ensures IsTriple(Fallback(s).value.scId)
    ensures !StartsWith(Fallback(s).value.scId, "5.")
    ensures Fallback(s).value.title != []
    ensures Fallback(s).value.title[0] !in TitlePunct
    ensures Fallback(s).value.title[|Fallback(s).value.title| - 1] !in TitlePunct
    ensures exists p: nat, e: nat ::
      && TripleMatch(s, p, e) && s[p..e] == Fallback(s).value.scId
      && forall p': nat, e': nat :: p' < p ==> !TripleMatch(s, p', e')
  {
    SearchTripleLeftmost(s);
    var (p, e) := SearchTriple(s).value;
    assert TripleMatch(s, p, e);
    TripleOfSpan(s, p, e);
    StripEnds(AfterFirst(s, s[p..e]), TitlePunct);
  }

  /** A `5.` first triple makes the whole fallback fail, whatever triples
      follow it. */
  lemma FallbackRejectsFive(s: string, p: nat, e: nat)
    requires TripleMatch(s, p, e) && StartsWith(s[p..e], "5.")
    requires forall p': nat, e': nat :: p' < p ==> !TripleMatch(s, p', e')
    ensures Fallback(s).None?
  {
    SearchTripleLeftmost(s);
    TripleAtCharacterized(s, p);
    var (p0, e0) := SearchTriple(s).value;
    TripleAtCharacterized(s, p0);
    assert p0 == p;
  }

  /** Both of the above, for every text. */
  lemma FallbackProperties(s: string)
    ensures Fallback(s).Some? ==>
      && IsTriple(Fallback(s).value.scId)
      && !StartsWith(Fallback(s).value.scId, "5.")
      && Fallback(s).value.title != []
      && Fallback(s).value.title[0] !in TitlePunct
      && Fallback(s).value.title[|Fallback(s).value.title| - 1] !in TitlePunct
      && exists p: nat, e: nat ::
           && TripleMatch(s, p, e) && s[p..e] == Fallback(s).value.scId
           && forall p': nat, e': nat :: p' < p ==> !TripleMatch(s, p', e')
    ensures forall p: nat, e: nat ::
      (TripleMatch(s, p, e) && StartsWith(s[p..e], "5.") &&
       (forall p': nat, e': nat :: p' < p ==> !TripleMatch(s, p', e'))) ==> Fallback(s).None?
  {
    if Fallback(s).Some? {
      FallbackResult(s);
    }
    forall p: nat, e: nat | TripleMatch(s, p, e) && StartsWith(s[p..e], "5.") &&
      (forall p': nat, e': nat :: p' < p ==> !TripleMatch(s, p', e'))
      ensures Fallback(s).None?
    {
      FallbackRejectsFive(s, p, e);
    }
  }

  /** The literal of `SC_LABEL_RE`, matched up to case. */
  const Label: string := "Success Criterion"

  /** Every character of `s[i..j]` is whitespace. */
  predicate AllSpace(s: string, i: nat, j: nat)
    requires i <= j <= |s|
  {
    forall u :: i <= u < j ==> s[u] in Whitespace
  }

  /** No character of `s[i..j]` is a newline, as `.` requires. */
  predicate NewlineFree(s: string, i: nat, j: nat)
    requires i <= j <= |s|
  {
    forall u :: i <= u < j ==> s[u] != '\n'
  }

  /** `^\s*Success Criterion\s+` can match `s[..k]`, the literal starting at `i0`. */
  predicate LabelLead(s: string, i0: nat, k: nat) {
    && i0 + |Label| < k <= |s|
    && AllSpace(s, 0, i0)
    && FoldEq(s[i0..i0 + |Label|], Label)
    && AllSpace(s, i0 + |Label|, k)
  }

  /** `\s+(.+?)\s*$` can match `s[e..]` with the title at `s[t0..t1]`. */
  predicate TitleFits(s: string, e: nat, t0: nat, t1: nat) {
    && e < t0 < t1 <= |s|
    && AllSpace(s, e, t0)
    && NewlineFree(s, t0, t1)
    && AllSpace(s, t1, |s|)
  }

  /** `SC_LABEL_RE.match(s)` can match with group 1 at `s[k..e]` and group 2 at
      `s[t0..t1]`: leading whitespace, the literal, whitespace, a triple,
      whitespace, a title of at least one character other than a newline, and
      nothing but whitespace after it. */
  predicate LabelMatch(s: string, i0: nat, k: nat, e: nat, t0: nat, t1: nat) {
    LabelLead(s, i0, k) && k <= e <= |s| && TripleAtSpan(s, k, e) && TitleFits(s, e, t0, t1)
  }

  /** Where `^\s*Success Criterion\s+` leaves off, if it matches: every piece is
      forced, as whitespace is neither a letter nor a digit. */
  function LabelHead(s: string): (r: Option<nat>)
    ensures r.Some? ==> LabelLead(s, SkipFrom(s, Whitespace, 0), r.value)
    ensures r.Some? ==> r.value == |s| || s[r.value] !in Whitespace
  {
    var i0 := SkipFrom(s, Whitespace, 0);
    var i1 := i0 + |Label|;
    if i1 > |s| || !FoldEq(s[i0..i1], Label) then None
    else
      var k := SkipFrom(s, Whitespace, i1);
      if k == i1 then None else Some(k)
  }

  lemma LabelHeadComplete(s: string, i0: nat, k: nat)
    requires LabelLead(s, i0, k) && k < |s| && s[k] !in Whitespace
    ensures LabelHead(s) == Some(k)
  {
    assert s[i0..i0 + |Label|][0] == s[i0];
    SkipFromUnique(s, Whitespace, 0, i0);
    SkipFromUnique(s, Whitespace, i0 + |Label|, k);
  }

  /** The largest `t` in `[lo, j)` with `s[t] != '\n'`. */
  function LastNonNewline(s: string, lo: nat, j: nat): (r: Option<nat>)
    requires lo <= j <= |s|
    decreases j
    ensures r.Some? ==> lo <= r.value < j && s[r.value] != '\n'
    ensures r.None? ==> NewlineFree(s, lo, j) == (lo == j)
    ensures r.None? ==> forall u :: lo <= u < j ==> s[u] == '\n'
  {
    if j == lo then None
    else if s[j - 1] != '\n' then Some(j - 1)
    else LastNonNewline(s, lo, j - 1)
  }

  /** The title the backtracking matcher settles on after the id ends at `e`:
      when something other than whitespace follows, the title runs from there
      to the last such character; otherwise the greedy `\s+` gives back one
      character at a time, and the title is the last character after the id
      that is not a newline. */
  function TitleSpan(s: string, e: nat): (r: Option<(nat, nat)>)
    requires e <= |s|
    ensures r.Some? ==> TitleFits(s, e, r.value.0, r.value.1)
  {
    var w := SkipFrom(s, Whitespace, e);
    if w == e then None
    else if w < |s| then
      var l := TrimTo(s, Whitespace, w, |s|);
      if NewlineFree(s, w, l) then Some((w, l)) else None
    else match LastNonNewline(s, e + 1, w)
      case None => None
      case Some(t) => Some((t, t + 1))
  }

  lemma TitleSpanComplete(s: string, e: nat, t0: nat, t1: nat)
    requires TitleFits(s, e, t0, t1)
    ensures TitleSpan(s, e).Some?
  {
    var w := SkipFrom(s, Whitespace, e);
    assert t0 <= w;
    if w < |s| {
      var l := TrimTo(s, Whitespace, w, |s|);
      assert w < t1;
      assert l <= t1;
    } else {
      assert s[t0] != '\n';
    }
  }

  /** When text other than whitespace follows the id, the title is that text
      with the surrounding whitespace removed. */
  lemma TitleSpanTrimmed(s: string, e: nat)
    requires e <= |s| && TitleSpan(s, e).Some? && SkipFrom(s, Whitespace, e) < |s|
    ensures var (t0, t1) := TitleSpan(s, e).value;
      && t0 == SkipFrom(s, Whitespace, e)
      && s[t0] !in Whitespace && s[t1 - 1] !in Whitespace
  {
  }

  /** `SC_LABEL_RE.match(s)`: where its two groups lie. */
  function LabelScan(s: string): Option<(nat, nat, nat, nat)> {
    match LabelHead(s)
    case None => None
    case Some(k) =>
      match TripleEnd(s, k)
      case None => None
      case Some(e) =>
        match TitleSpan(s, e)
        case None => None
        case Some((t0, t1)) => Some((k, e, t0, t1))
  }

  lemma LabelScanSound(s: string)
    requires LabelScan(s).Some?
    ensures var (k, e, t0, t1) := LabelScan(s).value;
      LabelMatch(s, SkipFrom(s, Whitespace, 0), k, e, t0, t1)
  {
    TripleEndSound(s, LabelScan(s).value.0);
  }

  /** Whenever the pattern can match at all, the scan finds a match, and its id
      is the one every possible match has. */
  lemma LabelScanComplete(s: string, i0: nat, k: nat, e: nat, t0: nat, t1: nat)
    requires LabelMatch(s, i0, k, e, t0, t1)
    ensures LabelScan(s).Some?
    ensures LabelScan(s).value.0 == k && LabelScan(s).value.1 == e
  {
    var a: nat, b: nat :| k < a < b < e && TripleSpan(s, k, a, b, e);
    assert IsDigit(s[k]);
    LabelHeadComplete(s, i0, k);
    DigitNotWhitespace(s[e]);
    TripleEndComplete(s, k, e);
    TitleSpanComplete(s, e, t0, t1);
    var (u0, u1) := TitleSpan(s, e).value;
    assert LabelScan(s) == Some((k, e, u0, u1));
  }

  /** `parse_sc_from_text`: the labelled form first, the fallback otherwise. */
  function ParseScFromText(s: string): Option<Parsed> {
    match LabelScan(s)
    case Some((k, e, t0, t1)) => Some(Parsed(s[k..e], s[t0..t1]))
    case None => Fallback(s)
  }

  /** The labelled form has priority: whenever it matches, its id is returned,
      a `5.` id included, with a non-empty title. */
  lemma LabelledFormWins(s: string, i0: nat, k: nat, e: nat, t0: nat, t1: nat)
    requires LabelMatch(s, i0, k, e, t0, t1)
    ensures ParseScFromText(s).Some?
    ensures ParseScFromText(s).value.scId == s[k..e]
    ensures ParseScFromText(s).value.title != []
  {
    LabelScanComplete(s, i0, k, e, t0, t1);
  }

  /** The fallback is consulted only when the labelled form cannot match. */
  lemma FallbackOnlyWithoutLabel(s: string)
    ensures (forall i0: nat, k: nat, e: nat, t0: nat, t1: nat :: !LabelMatch(s, i0, k, e, t0, t1)) ==>
      ParseScFromText(s) == Fallback(s)
    ensures ParseScFromText(s) != Fallback(s) ==> LabelScan(s).Some?
  {
    if LabelScan(s).Some? {
      LabelScanSound(s);
    }
  }

  /** Every id `parse_sc_from_text` returns is three dot-separated digit runs. */
  lemma ParsedIdIsTriple(s: string)
    requires ParseScFromText(s).Some?
    ensures IsTriple(ParseScFromText(s).value.scId)
  {
    if LabelScan(s).Some? {
      LabelScanSound(s);
      TripleOfSpan(s, LabelScan(s).value.0, LabelScan(s).value.1);
    } else {
      FallbackProperties(s);
    }
  }

  /** `\bLevel\s+(A{1,3})\b` (ignoring case) matches at `p`, the whitespace
      running to `q` and the group being `s[q..e]`. */
  predicate LevelMatch(s: string, p: nat, q: nat, e: nat) {
    && p + 5 < q < e <= q + 3 && e <= |s|
    && WordBoundary(s, p)
    && FoldEq(s[p..p + 5], "Level")
    && (forall u :: p + 5 <= u < q ==> s[u] in Whitespace)
    && (forall u :: q <= u < e ==> s[u] == 'A' || s[u] == 'a')
    && WordBoundary(s, e)
  }

  /** The end of the run of `A`/`a` that starts at `i`. */
  function ARunEnd(s: string, i: nat): (r: nat)
    requires i <= |s|
    decreases |s| - i
    ensures i <= r <= |s|
    ensures forall u :: i <= u < r ==> s[u] == 'A' || s[u] == 'a'
    ensures r == |s| || (s[r] != 'A' && s[r] != 'a')
  {
    if i < |s| && (s[i] == 'A' || s[i] == 'a') then ARunEnd(s, i + 1) else i
  }

  /** The group `LEVEL_RE` captures when tried at `p`. */
  function LevelAt(s: string, p: nat): Option<(nat, nat)>
    requires p <= |s|
  {
    if p + 5 > |s| || !WordBoundary(s, p) || !FoldEq(s[p..p + 5], "Level") then None
    else
      var q := SkipFrom(s, Whitespace, p + 5);
      var e := ARunEnd(s, q);
      if q == p + 5 || e == q || e > q + 3 || !WordBoundary(s, e) then None
      else Some((q, e))
  }

  /** Tried at `p`, the pattern matches exactly as `LevelMatch` describes, and
      the whitespace and the group are forced. */
  lemma LevelAtCharacterized(s: string, p: nat)
    requires p <= |s|
    ensures LevelAt(s, p).Some? ==> LevelMatch(s, p, LevelAt(s, p).value.0, LevelAt(s, p).value.1)
    ensures forall q: nat, e: nat :: LevelMatch(s, p, q, e) ==> LevelAt(s, p) == Some((q, e))
  {
    forall q: nat, e: nat | LevelMatch(s, p, q, e) ensures LevelAt(s, p) == Some((q, e)) {
      SkipFromUnique(s, Whitespace, p + 5, q);
    }
  }

  function SearchLevelFrom(s: string, from: nat): (r: Option<nat>)
    requires from <= |s|
    decreases |s| - from
    ensures r.Some? ==> from <= r.value <= |s| && LevelAt(s, r.value).Some?
    ensures r.Some? ==> forall p :: from <= p < r.value ==> LevelAt(s, p).None?
    ensures r.None? ==> forall p :: from <= p <= |s| ==> LevelAt(s, p).None?
  {
    if LevelAt(s, from).Some? then Some(from)
    else if from == |s| then None
    else SearchLevelFrom(s, from + 1)
  }

  /** `infer_level`: the first "Level A/AA/AAA" mention, upper-cased. */
  function InferLevel(s: string): (r: Option<string>)
    ensures r.Some? ==> r.value in {"A", "AA", "AAA"}
  {
    match SearchLevelFrom(s, 0)
    case None => None
    case Some(p) =>
      var (q, e) := LevelAt(s, p).value;
      LevelGroupUpper(s, p);
      Some(UpperAscii(s[q..e]))
  }

  /** The group of a level mention, upper-cased, is `A`, `AA` or `AAA`. */
  lemma LevelGroupUpper(s: string, p: nat)
    requires p <= |s| && LevelAt(s, p).Some?
    ensures UpperAscii(s[LevelAt(s, p).value.0..LevelAt(s, p).value.1]) in {"A", "AA", "AAA"}
  {
    var (q, e) := LevelAt(s, p).value;
    var level := UpperAscii(s[q..e]);
    assert forall u :: 0 <= u < |level| ==> level[u] == 'A';
    assert level == "A" || level == "AA" || level == "AAA";
  }

  /** `infer_level` reports the leftmost mention, upper-cased, and nothing only
      when the text mentions no level. */
  lemma InferLevelLeftmost(s: string)
    ensures InferLevel(s).Some? ==> exists p: nat, q: nat, e: nat ::
      && LevelMatch(s, p, q, e)
      && InferLevel(s).value == UpperAscii(s[q..e])
      && forall p': nat, q': nat, e': nat :: p' < p ==> !LevelMatch(s, p', q', e')
    ensures InferLevel(s).None? ==> forall p: nat, q: nat, e: nat :: !LevelMatch(s, p, q, e)
  {
    forall p': nat, q': nat, e': nat | LevelMatch(s, p', q', e') ensures LevelAt(s, p') == Some((q', e')) {
      LevelAtCharacterized(s, p');
    }
    if InferLevel(s).Some? {
      var p := SearchLevelFrom(s, 0).value;
      LevelAtCharacterized(s, p);
      var (q, e) := LevelAt(s, p).value;
      assert LevelMatch(s, p, q, e);
    }
  }
}
