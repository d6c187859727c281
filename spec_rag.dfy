/** The extractive answerer of rag/spec_rag.py: a confidence gate on the best
    hit, then an answer quoting the best hit, with citations for the top hits.
    The retrieval call is replaced by its result, a parameter. */
module SpecRag {
  import opened Maybe
  import opened PyStr
  import opened Results

  /** The largest distance of the best hit that is still answered. */
  const RefuseAbove: real := 0.40

  /** `should_refuse`: no hit at all, or a best hit farther than the threshold. */
  function ShouldRefuse(results: seq<SearchResult>): (r: bool)
    ensures results == [] ==> r
    ensures results != [] ==> (r <==> results[0].distance > RefuseAbove)
  {
    if results == [] then true else results[0].distance > RefuseAbove
  }

  /** The gate reads only the first hit: lists with the same first distance get
      the same verdict, whatever follows. */
  lemma ShouldRefuseReadsTopOnly(a: seq<SearchResult>, b: seq<SearchResult>)
    requires a != [] && b != [] && a[0].distance == b[0].distance
    ensures ShouldRefuse(a) == ShouldRefuse(b)
  {
  }

  /** A best hit exactly at the threshold is answered, and a closer best hit is
      answered whenever a farther one is. */
  lemma ShouldRefuseBoundary(results: seq<SearchResult>, closer: real)
    requires results != []
    ensures results[0].distance == RefuseAbove ==> !ShouldRefuse(results)
    ensures !ShouldRefuse(results) && closer <= results[0].distance ==>
      !ShouldRefuse([results[0].(distance := closer)] + results[1..])
  {
  }

  /** The number of characters of the best hit quoted in the answer. */
  const ExcerptLength: nat := 1200

  const Ellipsis: string := "\U{2026}"

  /** `text[:1200] + ("…" if len(text) > 1200 else "")`. */
  function Excerpt(text: string): (r: string)
    ensures |text| <= ExcerptLength ==> r == text
    ensures |text| > ExcerptLength ==> |r| == ExcerptLength + 1 && r == text[..ExcerptLength] + Ellipsis
  {
    if |text| <= ExcerptLength then text else text[..ExcerptLength] + Ellipsis
  }

  /** An excerpt is never longer than 1201 characters, always begins with the
      first 1200 characters of the text (all of it when shorter), and is the
      whole text exactly when it does not end in a cut-off ellipsis. */
  lemma ExcerptShape(text: string)
    ensures |Excerpt(text)| <= ExcerptLength + 1
    ensures StartsWith(Excerpt(text), text[..Min(ExcerptLength, |text|)])
    ensures Excerpt(text) == text || (|text| > ExcerptLength && EndsWith(Excerpt(text), Ellipsis))
  {
    var r := Excerpt(text);
    if |text| > ExcerptLength {
      assert r[..ExcerptLength] == text[..ExcerptLength];
      assert r[|r| - 1..] == Ellipsis;
    }
  }

  const AnswerIntro: string :=
    "Based on the WCAG 2.2 normative text I retrieved, the most relevant requirement is:\n"

  /** `build_answer_from_top_result`: the best hit's id, title and level (the
      id and the level `"Unknown"` and the title `""` when absent), then its excerpt. */
  function BuildAnswerFromTopResult(question: string, top: SearchResult): (r: string)
    ensures StartsWith(r, AnswerIntro + "**" + Get(top.meta, "sc_id", "Unknown") + " \U{2014} ")
    ensures EndsWith(r, "**Normative excerpt:**\n" + Excerpt(top.text))
    ensures var headLen := |AnswerIntro + "**" + Get(top.meta, "sc_id", "Unknown") + " \U{2014} "|;
      var tailLen := |"**Normative excerpt:**\n" + Excerpt(top.text)|;
      && headLen + tailLen <= |r|
      && r[headLen..|r| - tailLen]
         == Get(top.meta, "sc_title", "") + " (Level " + Get(top.meta, "level", "Unknown") + ")**\n\n"
  {
    var scId := Get(top.meta, "sc_id", "Unknown");
    var title := Get(top.meta, "sc_title", "");
    var level := Get(top.meta, "level", "Unknown");
    var head := AnswerIntro + "**" + scId + " \U{2014} ";
    var tail := "**Normative excerpt:**\n" + Excerpt(top.text);
    var r := head + (title + " (Level " + level + ")**\n\n") + tail;
    assert r[..|head|] == head;
    assert r[|r| - |tail|..] == tail;
    assert r[|head|..|r| - |tail|] == title + " (Level " + level + ")**\n\n";
    r
  }

  /** A hit whose metadata carries no title and no level is announced with an
      empty title, so that two spaces follow the dash, and the level `Unknown`;
      one with no id either is announced as `Unknown`. */
  lemma AnswerDefaults(question: string, top: SearchResult)
    requires "sc_title" !in top.meta && "level" !in top.meta
    ensures BuildAnswerFromTopResult(question, top)
         == AnswerIntro + "**" + Get(top.meta, "sc_id", "Unknown") + " \U{2014} " + " (Level Unknown)**\n\n"
            + "**Normative excerpt:**\n" + Excerpt(top.text)
    ensures "sc_id" !in top.meta ==>
              BuildAnswerFromTopResult(question, top)
              == AnswerIntro + "**" + "Unknown" + " \U{2014} " + " (Level Unknown)**\n\n"
                 + "**Normative excerpt:**\n" + Excerpt(top.text)
  {
    var mid := "" + " (Level " + "Unknown" + ")**\n\n";
    assert mid == " (Level Unknown)**\n\n";
  }

  const RefusalText: string :=
    "I can\U{2019}t answer that confidently from the WCAG 2.2 normative text I retrieved. "
    + "Try rephrasing or mention the relevant success criterion number (e.g., 2.4.11)."

  /** `answer` given the hits the retriever returned for the question. */
  function Answer(question: string, results: seq<SearchResult>): (r: AnswerRecord)
    ensures r.results == results && r.model.None?
    ensures r.refused <==> ShouldRefuse(results)
    ensures r.refused ==> r.answer == RefusalText && r.citations == []
    ensures !r.refused ==> r.answer == BuildAnswerFromTopResult(question, results[0])
    ensures !r.refused ==> r.citations == TopCitations(results)
  {
    if ShouldRefuse(results) then
      AnswerRecord(RefusalText, [], true, results, None)
    else
      AnswerRecord(BuildAnswerFromTopResult(question, results[0]), TopCitations(results), false, results, None)
  }

  /** An accepted answer cites the first min(3, n) hits in order, the first
      citation being the hit the answer quotes; a refused one cites nothing. */
  lemma AnswerCitations(question: string, results: seq<SearchResult>)
    ensures var r := Answer(question, results);
      && |r.citations| == (if r.refused then 0 else Min(CitedCount, |results|))
      && (forall i :: 0 <= i < |r.citations| ==> r.citations[i] == CitationOf(results[i].meta))
      && (!r.refused ==> r.citations != [] && r.citations[0].scId == Get(results[0].meta, "sc_id", ""))
  {
  }

  /** Hits after the third never change an answer. */
  lemma AnswerIgnoresTail(question: string, results: seq<SearchResult>, more: seq<SearchResult>)
    requires |results| >= CitedCount
    ensures Answer(question, results + more).answer == Answer(question, results).answer
    ensures Answer(question, results + more).citations == Answer(question, results).citations
    ensures Answer(question, results + more).refused == Answer(question, results).refused
  {
    var all := results + more;
    assert all[0] == results[0];
    assert TopCitations(all) == TopCitations(results) by {
      assert forall i :: 0 <= i < CitedCount ==> all[i] == results[i];
    }
  }
}
