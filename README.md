# WCAG 2.2 RAG pipeline, modelled in Dafny

This project models the logic of a small retrieval-augmented question
answerer for the WCAG 2.2 specification, from crawling the W3C pages to
answering a question. It covers five stages:

- **The crawler** (`scripts/download_WCAG22.py`). It starts from the three
  WCAG 2.2 start pages. It follows only links under those prefixes, with
  `mailto:`, `tel:` and `javascript:` links and fragments dropped. Each page
  is stored under `data/raw/<host>/<path>`. The frontier is a FIFO queue
  plus a `seen` set.
- **The segmenter** (`ingestion/parse_spec.py`). It turns the specification
  page into one record per success criterion (SC). It recognises SC headings
  with three regular expressions and keeps the first heading of each id.
  Each body is collected up to the next SC heading or `h2`. It infers the
  conformance level and builds the record's URL from the heading's anchor.
- **The index builder** (`retrieval/build_index.py`). It reads the records
  from a JSON-lines file, skipping blank lines. It then resets the vector
  store and fills it with aligned `ids`, `documents` and `metadatas`.
- **The extractive answerer** (`rag/spec_rag.py`). A confidence gate at
  distance 0.40 decides whether to answer. An answer quotes the best hit
  (1200 characters and an ellipsis) and cites the top three hits.
- **The model-backed answerer** (`rag/llm_rag.py`). Its gate is at 0.55. It
  builds a context of blocks labelled `[S1]`..`[Sn]` and sends one request
  to a language model. It cites the top three hits.

The modules follow the source files:

| module | file | source |
|---|---|---|
| `Maybe` | `maybe.dfy` | `Option` |
| `PyStr` | `pystr.dfy` | the parts of Python's `str` the pipeline uses: `isspace`, `strip`, `find`, `split(t, 1)`, `join`, `sorted`, `str(int)` |
| `Normalize` | `normalize.dfy` | `normalize_text` |
| `ScPatterns` | `patterns.dfy` | `SC_LABEL_RE`, `SC_ANYWHERE_RE`, `LEVEL_RE`, `parse_sc_from_text`, `infer_level` |
| `ParseSpec` | `parse_spec.dfy` | the rest of `ingestion/parse_spec.py` |
| `Results` | `results.dfy` | the hit, citation and answer records both answerers share |
| `SpecRag` | `spec_rag.dfy` | `rag/spec_rag.py` |
| `LlmRag` | `llm_rag.dfy` | `rag/llm_rag.py` |
| `BuildIndex` | `build_index.dfy` | `retrieval/build_index.py` |
| `Crawler` | `download.dfy` | `scripts/download_WCAG22.py` |

The modelling choices are these:

- **The page.** The segmenter works on a parsed page. The page is the
  sequence of its elements in `next_elements` order. Each element carries
  its tag name, its `get_text(" ", strip=True)` text, its `id` and its
  parent's `id`.
- **The regular expressions.** Each is a hand-written scanner, proved equal
  to a declarative description of the strings the pattern matches. It
  respects `\b`, `IGNORECASE`, greedy `\d+` and `A{1,3}\b`. For the
  labelled form it also models the title that backtracking settles on.
- **Loops.** The source's loops are `method`s with loop invariants. Each is
  proved equal to a recursive specification function:
  - the body walk, `CollectParts` and `CollectUntilNextSc`;
  - the heading, dedup and record loops of `main`: `FindCandidates`,
    `Dedup` and `BuildChunks`;
  - `_format_context`, and the citation loop of `answer_with_llm`;
  - `load_jsonl`;
  - `extract_links`;
  - the enqueueing loop and the crawl loop.

  The properties are then proved about those functions.
- **Mutable state.** The vector store and the language-model client are
  classes whose methods update their fields. The client records every
  request sent to it.
- **External collaborators.** The retriever's results, `json.loads`, the
  URL library, the downloader and the model's reply are parameters.

The `continue` in `collect_until_next_sc` passes over a navigation, header
or footer element itself; its descendants are still visited, and the model
does the same. The two answerers keep their
two thresholds, 0.40 and 0.55, as the code has them.
`LlmRag.GateMoreLenient` relates the two.

One observation about `safe_path_from_url`. A path without an extension
gets `.html` appended. This does not always give the stored file an
extension. When the URL's last path segment is empty or made only of dots,
`os.path.splitext` sees no extension in the result. A bare host is stored
as `data/raw/<host>/.html`. `Crawler.FinalPathExtension` states exactly
when an extension results, and `Crawler.BareHostHasNoExtension` shows the
bare-host case. The site's pages are not expected to link to such paths,
but nothing in the crawler rules them out: a relative link `...` or an
absolute link ending in `/..` under an allowed prefix is accepted and stored
without an extension.

## Model

| member | source | states |
|---|---|---|
| Normalize.CollapseBlanks | ingestion/parse_spec.py:21 | collapsing runs of spaces and tabs keeps emptiness, keeps a first or last character that is not blank, and turns a leading blank run into one space |
| Normalize.CollapseBlanksShape | ingestion/parse_spec.py:21 | after collapsing spaces and tabs there is no tab and no two adjacent spaces |
| Normalize.CollapseNewlines | ingestion/parse_spec.py:22 | collapsing newline runs keeps emptiness, the first character, and a last character that is not a newline |
| Normalize.CollapseNewlinesNoTriple | ingestion/parse_spec.py:22 | after collapsing newlines there is no run of three newlines |
| Normalize.CollapseNewlinesNoNewChars | ingestion/parse_spec.py:22 | collapsing newlines introduces no character other than the newline |
| Normalize.CollapseNewlinesNoDoubleSpace | ingestion/parse_spec.py:21-22 | the second substitution does not undo the first: no two adjacent spaces appear |
| Normalize.StripKeepsShape | ingestion/parse_spec.py:23 | stripping keeps the string free of tabs, double spaces and triple newlines, and leaves no whitespace at either end |
| Normalize.NormalizeTextNormalized | ingestion/parse_spec.py:20-23 | the output of `normalize_text` has no whitespace at either end, no tab, no two adjacent spaces and no run of three newlines |
| Normalize.CollapseBlanksFixed | ingestion/parse_spec.py:21 | a string without tabs or double spaces is left unchanged by the first substitution |
| Normalize.CollapseNewlinesFixed | ingestion/parse_spec.py:22 | a string without triple newlines is left unchanged by the second substitution |
| Normalize.NormalizedIsFixedPoint | ingestion/parse_spec.py:20-23 | a normalized string is its own normal form |
| Normalize.NormalizeTextIdempotent | ingestion/parse_spec.py:20-23 | normalizing twice gives the same result as normalizing once |
| Normalize.CollapseBlanksVisible | ingestion/parse_spec.py:21 | the first substitution keeps every character other than whitespace, in order |
| Normalize.CollapseNewlinesVisible | ingestion/parse_spec.py:22 | the second substitution keeps every character other than whitespace, in order |
| Normalize.StripVisible | ingestion/parse_spec.py:23 | stripping keeps every character other than whitespace, in order |
| Normalize.NormalizeTextKeepsVisible | ingestion/parse_spec.py:20-23 | `normalize_text` only rewrites whitespace: the characters other than whitespace are exactly those of the input, in order |
| Normalize.CollapseBlanksAppend | ingestion/parse_spec.py:21 | collapsing blanks distributes over a concatenation whose first part does not end in a blank |
| Normalize.CollapseNewlinesAppend | ingestion/parse_spec.py:22 | collapsing newlines distributes over a concatenation whose first part does not end in a newline |
| Normalize.NormalizeTextKeepsHead | ingestion/parse_spec.py:20-23 | normalizing a text that starts with an already trimmed part keeps that part's normal form at the front |
| ScPatterns.TripleEndSound | ingestion/parse_spec.py:16 | the greedy scan for `\d+\.\d+\.\d+` only reports spans that read as a dotted triple, not followed by a further digit |
| ScPatterns.TripleEndComplete | ingestion/parse_spec.py:16 | every dotted triple not followed by a digit is found by the greedy scan, with that end |
| ScPatterns.TripleAtCharacterized | ingestion/parse_spec.py:16 | tried at a position, `\b(\d+\.\d+\.\d+)\b` matches exactly the word-bounded triples starting there, and their end is forced |
| ScPatterns.SearchTripleFrom | ingestion/parse_spec.py:30 | `search` reports the first position where the pattern matches, and nothing only when it matches nowhere |
| ScPatterns.SearchTripleLeftmost | ingestion/parse_spec.py:30 | `SC_ANYWHERE_RE.search` finds the leftmost word-bounded triple, and finds nothing only when there is none |
| ScPatterns.Fallback | ingestion/parse_spec.py:30-39 | the fallback succeeds exactly when there is a first triple, it does not start with `5.`, and the stripped text after its first occurrence is non-empty; the id and title are then that triple and that text |
| ScPatterns.FallbackResult | ingestion/parse_spec.py:30-39 | a fallback result is the leftmost word-bounded triple, is a dotted triple, does not start with `5.`, and has a non-empty title with none of ` :-–—` at either end |
| ScPatterns.FallbackRejectsFive | ingestion/parse_spec.py:33-35 | when the leftmost triple starts with `5.` the fallback fails, whatever triples follow it |
| ScPatterns.FallbackProperties | ingestion/parse_spec.py:30-39 | both of the above, for every text |
| ScPatterns.LabelHead | ingestion/parse_spec.py:13 | `^\s*Success Criterion\s+` (any case) leaves off after the whitespace that follows the literal |
| ScPatterns.LabelHeadComplete | ingestion/parse_spec.py:13 | whenever the lead of the labelled form can match up to a character other than whitespace, the scanner ends exactly there |
| ScPatterns.TitleSpan | ingestion/parse_spec.py:13 | the title span the scanner reports fits `\s+(.+?)\s*$`: whitespace before it, no newline in it, only whitespace after it |
| ScPatterns.TitleSpanComplete | ingestion/parse_spec.py:13 | whenever some title fits after the id, the scanner finds one |
| ScPatterns.TitleSpanTrimmed | ingestion/parse_spec.py:13 | when text other than whitespace follows the id, the title is that text without the surrounding whitespace |
| ScPatterns.LabelScanSound | ingestion/parse_spec.py:12-15 | a labelled-form scan result is a match of `SC_LABEL_RE` as described declaratively |
| ScPatterns.LabelScanComplete | ingestion/parse_spec.py:12-15 | whenever `SC_LABEL_RE` can match, the scan succeeds, with the id every match has |
| ScPatterns.LabelledFormWins | ingestion/parse_spec.py:26-28 | when the labelled form matches, `parse_sc_from_text` returns its id, a `5.` id included, with a non-empty title |
| ScPatterns.FallbackOnlyWithoutLabel | ingestion/parse_spec.py:25-39 | the fallback decides the result only when the labelled form cannot match |
| ScPatterns.ParsedIdIsTriple | ingestion/parse_spec.py:25-39 | every id `parse_sc_from_text` returns is three dot-separated digit runs |
| ScPatterns.LevelAtCharacterized | ingestion/parse_spec.py:18 | tried at a position, `\bLevel\s+(A{1,3})\b` (any case) matches exactly as described declaratively, with the group forced |
| ScPatterns.SearchLevelFrom | ingestion/parse_spec.py:78 | `LEVEL_RE.search` reports the first position where the pattern matches, and nothing only when it matches nowhere |
| ScPatterns.InferLevel | ingestion/parse_spec.py:77-79 | the level inferred is absent or one of `A`, `AA`, `AAA` |
| ScPatterns.LevelGroupUpper | ingestion/parse_spec.py:79 | the captured group, upper-cased, is `A`, `AA` or `AAA` |
| ScPatterns.InferLevelLeftmost | ingestion/parse_spec.py:77-79 | the level is the group of the leftmost `Level` mention, upper-cased, and is absent only when the text has no such mention |
| ParseSpec.IsScNode | ingestion/parse_spec.py:41-46 | an element recognised as an SC heading is an `h2`..`h5` or `dt` whose text parses, and its id is a dotted triple |
| ParseSpec.StopsSpec | ingestion/parse_spec.py:58-63 | an element ends a body exactly when it is an SC heading or an `h2` |
| ParseSpec.AtStop | ingestion/parse_spec.py:59-63 | the walk's stop test is `is_sc_node` followed by `is_major_section_heading` |
| ParseSpec.StopIndex | ingestion/parse_spec.py:58-63 | the body ends at the first stop after the heading, or at the end of the page |
| ParseSpec.BodyPartsContents | ingestion/parse_spec.py:69-73 | the body holds exactly the non-empty texts of the `p`, `li`, `dt`, `dd` and `blockquote` elements in its range |
| ParseSpec.CollectParts | ingestion/parse_spec.py:52-74 | the walk yields the heading's text, then the collectable texts of the elements strictly between the heading and the first later stop, in page order |
| ParseSpec.CollectUntilNextSc | ingestion/parse_spec.py:52-75 | `collect_until_next_sc` returns the normalized newline-join of those parts |
| ParseSpec.CollectedTextStartsWithHead | ingestion/parse_spec.py:56 | a chunk's text begins with the heading's own normalized text |
| ParseSpec.CollectedTextNormalized | ingestion/parse_spec.py:75 | a chunk's text is normalized, and its characters other than whitespace are those of the heading and collected texts, in order |
| ParseSpec.MarksSpec | ingestion/parse_spec.py:105-106 | the parse recorded for element `i` is `is_sc_node` of that element |
| ParseSpec.MarksAreTriples | ingestion/parse_spec.py:41-46 | every SC heading on the page has a dotted-triple id |
| ParseSpec.HeadingAt | ingestion/parse_spec.py:105-106 | `find_all` on the heading tags followed by `is_sc_node` gives the recorded parse of each element |
| ParseSpec.CandidatesSound | ingestion/parse_spec.py:104-108 | every candidate records its element's position and parse, and candidates are in page order |
| ParseSpec.CandidatesComplete | ingestion/parse_spec.py:104-108 | no SC heading is missed by the candidate loop |
| ParseSpec.FindCandidates | ingestion/parse_spec.py:104-108 | the candidate loop lists the SC headings in page order |
| ParseSpec.IdsSpec | ingestion/parse_spec.py:111-116 | the `seen` set holds exactly the ids of the candidates read so far |
| ParseSpec.Dedup | ingestion/parse_spec.py:111-117 | the dedup loop keeps the first candidate of each id, in order |
| ParseSpec.FirstOnlyIds | ingestion/parse_spec.py:111-117 | deduplication loses no id |
| ParseSpec.FirstOnlyFirst | ingestion/parse_spec.py:111-117 | each kept candidate is the first candidate with its id |
| ParseSpec.FirstOnlyOrder | ingestion/parse_spec.py:111-117 | kept candidates appear in the order of their first occurrences, so the output is a subsequence of the candidates |
| ParseSpec.FirstOnlyDistinct | ingestion/parse_spec.py:111-117 | the kept ids are pairwise distinct |
| ParseSpec.FirstOnlyRepresents | ingestion/parse_spec.py:111-117 | every candidate is represented among the kept ones by the first candidate with its id |
| ParseSpec.AnchorFor | ingestion/parse_spec.py:81-87 | the anchor is the element's own non-empty id, else its parent's non-empty id, else absent |
| ParseSpec.UrlForFragment | ingestion/parse_spec.py:129 | the URL is the specification page, and its fragment is exactly the anchor, absent when the anchor is |
| ParseSpec.ChunkForFields | ingestion/parse_spec.py:124-141 | every record has the fixed provenance fields, the heading's id and title, a level that is absent or `A`/`AA`/`AAA`, a URL whose fragment is the anchor, and text that starts with the heading's text |
| ParseSpec.ChunksForSpec | ingestion/parse_spec.py:124-141 | record `k` is built from kept heading `k` |
| ParseSpec.ChunkAt | ingestion/parse_spec.py:125-141 | one iteration of the record loop builds the record for its heading |
| ParseSpec.BuildChunks | ingestion/parse_spec.py:124-141 | the record loop builds one record per kept heading, in order |
| ParseSpec.KeptSound | ingestion/parse_spec.py:103-117 | each kept heading records its element's position and parse, and kept headings are in page order |
| ParseSpec.KeptComplete | ingestion/parse_spec.py:103-117 | every SC heading on the page is represented by a kept heading with the same id that is not later than it |
| ParseSpec.Segment | ingestion/parse_spec.py:103-141 | `main` emits exactly one record per kept heading, in order |
| ParseSpec.KeptIds | ingestion/parse_spec.py:103-117 | given triple ids, the kept headings have distinct triple ids, are in page order, and represent every heading |
| ParseSpec.SegmentIds | ingestion/parse_spec.py:103-117 | the records of a page carry pairwise distinct dotted-triple ids from the first heading of each id, in page order, and every heading's id is among them |
| PyStr.AfterFirst | ingestion/parse_spec.py:36 | `split(id, 1)[-1]` is what follows the first occurrence of the id, or the whole text |
| PyStr.StripEnds | ingestion/parse_spec.py:36 | after `strip(chars)` neither end is in `chars`, and only characters of `chars` were cut |
| PyStr.Sorted | scripts/download_WCAG22.py:144 | `sorted` of a set of links lists exactly its members, strictly increasing |
| PyStr.DecimalRoundTrip | retrieval/build_index.py:58 | `str` of a non-negative integer reads back as that integer |
| PyStr.NatToStringInjective | retrieval/build_index.py:58 | distinct numbers print differently |
| Results.Get | rag/spec_rag.py:6-9 | `meta.get(key, default)` is the value when present and the default otherwise |
| Results.CitationOf | rag/spec_rag.py:4-10 | a citation maps `sc_id`, `sc_title`, `level` and `url` to the metadata value, or `""` when absent |
| Results.CitationOfReadsFourKeys | rag/spec_rag.py:4-10 | a citation depends on these four keys only |
| Results.TopCitations | rag/spec_rag.py:53 | the citations are those of the first min(3, n) hits, in order |
| SpecRag.ShouldRefuse | rag/spec_rag.py:12-18 | refuse when there is no hit, otherwise exactly when the best distance exceeds 0.40 |
| SpecRag.ShouldRefuseReadsTopOnly | rag/spec_rag.py:16-18 | only the first hit's distance is consulted |
| SpecRag.ShouldRefuseBoundary | rag/spec_rag.py:18 | a best distance of exactly 0.40 is answered, and lowering it keeps the answer |
| SpecRag.Excerpt | rag/spec_rag.py:28 | the excerpt is the text when at most 1200 characters, otherwise its first 1200 characters and `…` |
| SpecRag.ExcerptShape | rag/spec_rag.py:28 | the excerpt has at most 1201 characters, starts with the first 1200 characters of the text, and differs from it only by a cut-off ellipsis |
| SpecRag.BuildAnswerFromTopResult | rag/spec_rag.py:20-34 | the answer starts with the fixed intro and the id (`Unknown` by default) and ends with the excerpt of the best hit; between them stand the title (`""` by default), ` (Level `, the level (`Unknown` by default) and `)**` with a blank line |
| SpecRag.AnswerDefaults | rag/spec_rag.py:20-34 | a hit without title and level is announced as `<id> —  (Level Unknown)`, and one without an id as `Unknown —  (Level Unknown)`, followed by its excerpt |
| SpecRag.Answer | rag/spec_rag.py:36-56 | refused answers carry the refusal text and no citations; accepted ones carry the composed answer and the top citations; both echo the hits |
| SpecRag.AnswerCitations | rag/spec_rag.py:50-56 | an accepted answer cites min(3, n) hits in order, the first being the quoted hit; a refused one cites nothing |
| SpecRag.AnswerIgnoresTail | rag/spec_rag.py:36-56 | hits after the third never change the answer, its citations or the verdict |
| LlmRag.ShouldRefuse | rag/llm_rag.py:28-32 | refuse when there is no hit, otherwise exactly when the best distance exceeds 0.55 |
| LlmRag.GateMoreLenient | rag/llm_rag.py:32 | whatever this gate refuses the 0.40 gate refuses too, and a best distance in (0.40, 0.55] is answered only here |
| LlmRag.LabelsDistinct | rag/llm_rag.py:15-24 | different positions get different `[S<i>]` labels |
| LlmRag.Block | rag/llm_rag.py:23-25 | a block starts with its label and ends with the hit's text |
| LlmRag.FormatContext | rag/llm_rag.py:10-26 | the context is the join by `\n---\n` of one block per hit, in order, the `i`-th labelled `[S<i+1>]` |
| LlmRag.BlockHolds | rag/llm_rag.py:15-25 | block `j` starts with its label and holds hit `j`'s text |
| LlmRag.ContextHoldsEveryHit | rag/llm_rag.py:10-26 | the context holds every label `[S1]`..`[Sn]` and every hit's text |
| LlmRag.ContextShape | rag/llm_rag.py:26 | the context is empty exactly when there are no hits, and otherwise starts with the `[S1]` block |
| LlmRag.UserPrompt | rag/llm_rag.py:58-63 | the user prompt starts with the question followed by the sources |
| LlmRag.ResponsesClient.constructor | rag/llm_rag.py:65 | a new client has sent nothing |
| LlmRag.ResponsesClient.Create | rag/llm_rag.py:68-76 | a request is recorded as sent, and its output text is the model's reply to it |
| LlmRag.CollectCitations | rag/llm_rag.py:78-87 | the citation loop builds the citations of the first min(3, n) hits, in order, with `""` defaults |
| LlmRag.AnswerWithLlm | rag/llm_rag.py:34-95 | a refusal sends nothing to the model and returns the refusal text, no citations and no model; otherwise exactly one request, holding the labelled context, is sent, and its reply, the top citations and the model name are returned; the hits are echoed in both cases |
| BuildIndex.GetValue | retrieval/build_index.py:62-68 | `d.get(key)` is the value when present and `None` otherwise |
| BuildIndex.SafeStr | retrieval/build_index.py:57-58 | `safe_str` is `""` for `None` and `str(x)` otherwise |
| BuildIndex.SafeStrSeparates | retrieval/build_index.py:57-58 | distinct integers, or distinct strings, stay distinct under `safe_str`, and only the empty string prints as `""` |
| BuildIndex.KeptLine | retrieval/build_index.py:18-19 | a line contributes at most one non-empty stripped line |
| BuildIndex.KeptConcat | retrieval/build_index.py:17-20 | lines are kept or dropped one by one, in file order |
| BuildIndex.KeptNonBlank | retrieval/build_index.py:18-19 | every kept line is non-empty |
| BuildIndex.BlankIsAllWhitespace | retrieval/build_index.py:18-19 | a line is dropped exactly when it is whitespace only, and is otherwise kept stripped |
| BuildIndex.DecodedSpec | retrieval/build_index.py:19-20 | loading fails exactly when some kept line is rejected; otherwise there is one record per kept line, record `k` decoded from line `k` |
| BuildIndex.DecodedStaysNone | retrieval/build_index.py:17-20 | once a line is rejected, the lines after it do not matter |
| BuildIndex.LoadFailsAt | retrieval/build_index.py:17-20 | a line rejected at any position makes the whole load fail |
| BuildIndex.LoadJsonl | retrieval/build_index.py:14-21 | `load_jsonl` returns the decodings of the non-blank stripped lines in order, or fails when one is rejected |
| BuildIndex.Metadata | retrieval/build_index.py:60-71 | a metadata record has exactly the seven keys, each mapped to `safe_str` of the record's value |
| BuildIndex.MetadataKeys | retrieval/build_index.py:60-71 | metadata never holds `doc_set` or `text`, and depends on the seven keys only |
| BuildIndex.Column | retrieval/build_index.py:49 | `[d[key] for d in docs]` fails exactly when some record lacks the key, and otherwise has entry `k` from record `k` |
| BuildIndex.Metadatas | retrieval/build_index.py:60-71 | one metadata record per record, aligned |
| BuildIndex.VectorStore.constructor | retrieval/build_index.py:36 | the store opens with the collection it persisted |
| BuildIndex.VectorStore.DeleteCollection | retrieval/build_index.py:39-42 | after deleting there is no collection, whether or not there was one |
| BuildIndex.VectorStore.CreateCollection | retrieval/build_index.py:44-47 | a new empty collection with cosine distance |
| BuildIndex.VectorStore.Add | retrieval/build_index.py:72-77 | `add` appends the ids, documents and metadata to the collection |
| BuildIndex.FillStore | retrieval/build_index.py:38-77 | the store is reset, then holds the records' ids, texts and metadata aligned, or stays empty when a record lacks `text` or `sc_id` |
| BuildIndex.BuildIndexMain | retrieval/build_index.py:23-77 | a missing input or a rejected line leaves the store untouched; otherwise the store ends up empty on a missing key, or holding one aligned entry per non-blank line |
| Crawler.StartUrlsAllowed | scripts/download_WCAG22.py:12-19 | every start page is on `https://www.w3.org/` and is itself allowed |
| Crawler.AllowedIsW3 | scripts/download_WCAG22.py:53-54 | everything allowed is on `https://www.w3.org/` |
| Crawler.Defrag | scripts/download_WCAG22.py:67 | the defragmented URL is the URL up to its first `#`, and holds no `#` |
| Crawler.NormalizeUrl | scripts/download_WCAG22.py:57-72 | an empty `href` yields nothing, and every result is allowed and fragment-free |
| Crawler.NormalizeUrlDecides | scripts/download_WCAG22.py:57-72 | a `mailto`, `tel` or `javascript` scheme in any case is never followed; any other link is followed exactly when its resolved, defragmented form is allowed |
| Crawler.FollowedSpec | scripts/download_WCAG22.py:75-96 | a URL is among a page's links exactly when some link value normalizes to it |
| Crawler.FollowedAllowed | scripts/download_WCAG22.py:75-96 | every link of a page is allowed and fragment-free |
| Crawler.AddTarget | scripts/download_WCAG22.py:81-83 | one link value adds its normalized target, if any |
| Crawler.AddResources | scripts/download_WCAG22.py:85-94 | the resource loop adds the targets of the `link`, `script` and `img` values, empty ones skipped |
| Crawler.ExtractLinks | scripts/download_WCAG22.py:75-96 | `extract_links` returns exactly the normalized targets of the anchors and resources |
| Crawler.BaseStart | scripts/download_WCAG22.py:46 | the last path segment starts after the last `/` |
| Crawler.ExtSpec | scripts/download_WCAG22.py:46 | `splitext` finds no extension exactly when no dot of the last segment follows a character other than a dot; an extension is a dot-led suffix without `/` |
| Crawler.LStripSlashes | scripts/download_WCAG22.py:49 | `lstrip("/")` leaves a suffix that does not start with `/` |
| Crawler.SafePathFromUrl | scripts/download_WCAG22.py:32-50 | the local path is built from the URL's host and path by the two rewriting steps and the joins |
| Crawler.LocalPathShape | scripts/download_WCAG22.py:43-50 | a page is stored at `data/raw/<host>/` followed by its path without leading slashes, with `index.html` added to a directory path and `.html` to a path without extension |
| Crawler.ExtOfIndexHtml | scripts/download_WCAG22.py:43-44 | a directory path with `index.html` appended has an extension |
| Crawler.HtmlSuffixExtension | scripts/download_WCAG22.py:46-47 | appending `.html` gives an extension exactly when the last segment holds something other than dots |
| Crawler.FinalPathExtension | scripts/download_WCAG22.py:43-47 | the stored path lacks an extension exactly when the URL's path does not end in `/` and its last segment is empty or made of dots |
| Crawler.BareHostHasNoExtension | scripts/download_WCAG22.py:46-49 | a bare host is stored as `data/raw/<host>/.html`, which has no extension |
| Crawler.LStripOneSlash | scripts/download_WCAG22.py:49 | a path with one leading slash loses exactly that slash |
| Crawler.DirectoryPage | scripts/download_WCAG22.py:36 | a directory URL such as `https://www.w3.org/TR/WCAG22/` is stored as `data/raw/<host>/<dir>/index.html` |
| Crawler.PageWithExtension | scripts/download_WCAG22.py:37 | a page whose file name has an extension, such as `.../focus-visible.html`, is stored at its own path under `data/raw/<host>/` |
| Crawler.EnqueueNew | scripts/download_WCAG22.py:144-146 | the queue keeps its old contents in front, and gains exactly the new links not yet seen, in sorted order |
| Crawler.FollowLinks | scripts/download_WCAG22.py:140-148 | the page's links not yet seen are appended in sorted order, and everything queued is allowed |
| Crawler.Visit | scripts/download_WCAG22.py:128-148 | a successful download writes one file at its local path; the queue is unchanged unless the download succeeds and is HTML or has a `.html` path, and then exactly the page's followed links not in `seen` are appended, in sorted order |
| Crawler.Attempt | scripts/download_WCAG22.py:123-148 | a URL not seen before is added to `seen` and to the attempts before it is downloaded, so the attempts stay distinct and allowed; the queue is then what Crawler.Visit makes of it, with the URL already counted as seen |
| Crawler.Pop | scripts/download_WCAG22.py:121-148 | one pop of the queue: a URL already in `seen` is dropped and the queue is its old tail; a new one is added to `seen` and attempted, and the queue is the old tail followed by the page's unseen followed links in sorted order (or the old tail when nothing is followed); the attempted URLs stay distinct and allowed, with a file written for each successful download |
| Crawler.Crawl | scripts/download_WCAG22.py:115-150 | every URL is attempted at most once, a failed one included; `seen` is exactly the attempted URLs; every attempted URL is allowed; a file is written for each successful download, in order, at its local path; the three start pages are the first URLs attempted, in order, as far as the pop bound reaches |

## Left out

- LlmRag.AnswerWithLlm: the default arguments `k=5` and `model=DEFAULT_MODEL` ("gpt-4o-mini") are not modelled; the retrieved hits and the model name are parameters.
- HTML parsing (BeautifulSoup, `get_text`, `next_elements`, `find_all`) is outside the model. The page is a given sequence of elements with their text already extracted.
- File reading and writing, `json.loads` and `json.dumps`, `os.path.exists` and `os.makedirs` are left out. `json.loads` is a parameter that returns a record or rejects the line. A rejected line fails the load, where the source raises.
- A JSON line that decodes to something other than an object is not modelled. Nor are JSON arrays, nested objects or floats as field values.
- Console output (`print`, `tqdm`) and the early return after the missing-file message in `parse_spec.main` are left out.
- The embedding model, the vector store's search and `retrieve` are left out. The answerers take the retriever's hits as a parameter, and distances are `real`.
- The vector store's own errors, such as duplicate ids in `add`, and the embeddings passed to `add` are not modelled.
- The language-model call is a function from request to reply. The client is not constructed inside `answer_with_llm` as in the source but passed in.
- The network (`download_url`, the session, timeouts), `write_file` and `time.sleep` are left out. The download is a parameter returning the content type and the link values of the page, or nothing when it fails.
- `urljoin` and `urlparse` are left uninterpreted. `urldefrag` is modelled as cutting the URL at its first `#`. This differs from `urldefrag`'s parse-and-rebuild round trip when the query or the path parameters before the `#` are empty: `urldefrag("https://h/p?#x")` gives `https://h/p`, the model `https://h/p?`, and an empty `;` before the `#` is likewise dropped by the library but kept by the model.
- Crawler.Crawl: bounded by a fuel parameter on the number of queue pops. The source loops until the queue is empty, which on a finite site it eventually is.
- Crawler.Crawl: states the order of attempts only for the start pages; the first-in-first-out order of the later ones is stated one pop at a time by Crawler.Pop, not for the whole run.
- Crawler.Crawl: does not model the "link parse failed" exception path or the byte decoding of the page. A page that downloads is parsed successfully.
- Regular-expression classes are read as ASCII. `\d` is an ASCII digit, `\w` an ASCII letter, digit or underscore, and `IGNORECASE` and `.lower()`/`.upper()` are ASCII case mappings. `\s` and argument-less `strip()` use the 29 characters `str.isspace` accepts.
- `safe_str` of a float is not modelled.
