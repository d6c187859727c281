/** The records the retriever hands to both answerers (retrieval/retrieve.py),
    and the citation and answer records the answerers build from them. */
module Results {
  import opened Maybe

  /** One hit of the vector search: its id, its distance to the question
      (lower is closer), the chunk text and the chunk's metadata. */
  datatype SearchResult = SearchResult(id: string, distance: real, text: string, meta: map<string, string>)

  /** `meta.get(key, default)`. */
  function Get(meta: map<string, string>, key: string, default: string): (r: string)
    ensures key in meta ==> r == meta[key]
    ensures key !in meta ==> r == default
  {
    if key in meta then meta[key] else default
  }

  /** What an answer cites for one hit. */
  datatype Citation = Citation(scId: string, scTitle: string, level: string, url: string)

  /** `citation(meta)`: the four citation fields of the metadata, each `""` when absent. */
  function CitationOf(meta: map<string, string>): (c: Citation)
    ensures c.scId == Get(meta, "sc_id", "") && c.scTitle == Get(meta, "sc_title", "")
    ensures c.level == Get(meta, "level", "") && c.url == Get(meta, "url", "")
  {
    Citation(Get(meta, "sc_id", ""), Get(meta, "sc_title", ""), Get(meta, "level", ""), Get(meta, "url", ""))
  }

  /** A citation only depends on the four keys it reads: metadata that agree on
      them (absent in both or equal in both) give the same citation. */
  lemma CitationOfReadsFourKeys(m1: map<string, string>, m2: map<string, string>)
    requires forall key :: key in {"sc_id", "sc_title", "level", "url"} ==>
      (key in m1 <==> key in m2) && (key in m1 ==> m1[key] == m2[key])
    ensures CitationOf(m1) == CitationOf(m2)
  {
    assert "sc_id" in {"sc_id", "sc_title", "level", "url"};
    assert "sc_title" in {"sc_id", "sc_title", "level", "url"};
    assert "level" in {"sc_id", "sc_title", "level", "url"};
    assert "url" in {"sc_id", "sc_title", "level", "url"};
  }

  function Min(a: nat, b: nat): nat {
    if a <= b then a else b
  }

  /** How many hits an accepted answer cites. */
  const CitedCount: nat := 3

  /** `[citation(r["meta"]) for r in results[:3]]`. */
  function TopCitations(results: seq<SearchResult>): (cs: seq<Citation>)
    ensures |cs| == Min(CitedCount, |results|)
    ensures forall i :: 0 <= i < |cs| ==> cs[i] == CitationOf(results[i].meta)
  {
    var top := results[..Min(CitedCount, |results|)];
    seq(|top|, i requires 0 <= i < |top| => CitationOf(top[i].meta))
  }

  /** What an answerer returns: the answer text, its citations, whether it
      refused, the hits it was given, and the model used (absent for the
      answerer that calls no model). */
  datatype AnswerRecord = AnswerRecord(
    answer: string, citations: seq<Citation>, refused: bool,
    results: seq<SearchResult>, model: Option<string>)
}
