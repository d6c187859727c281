/** The model-backed answerer of rag/llm_rag.py: a confidence gate on the best
    hit, a context block labelling every hit `[S1]`..`[Sn]`, one request to the
    language model, and citations for the top hits. The retrieval call is
    replaced by its result, a parameter; the model is a client object whose
    replies are outside this model. */
module LlmRag {
  import opened Maybe
  import opened PyStr
  import opened Results

  /** The largest distance of the best hit that is still answered. */
  const RefuseAbove: real := 0.55

  /** `_should_refuse`: no hit at all, or a best hit farther than the threshold. */
  function ShouldRefuse(results: seq<SearchResult>): (r: bool)
    ensures results == [] ==> r
    ensures results != [] ==> (r <==> results[0].distance > RefuseAbove)
  {
    if results == [] then true else results[0].distance > RefuseAbove
  }

  /** This gate is the more lenient of the two answerers': whatever it refuses
      the extractive answerer refuses too, and a best hit between the two
      thresholds is answered here and refused there. */
  lemma GateMoreLenient(results: seq<SearchResult>)
    ensures ShouldRefuse(results) ==> results == [] || results[0].distance > 0.40
    ensures results != [] && 0.40 < results[0].distance <= RefuseAbove ==> !ShouldRefuse(results)
  {
  }

  /** The label of the `i`-th source, counting from 1. */
  function Label(i: nat): string {
    "[S" + NatToString(i) + "]"
  }

  /** Different positions get different labels. */
  lemma LabelsDistinct(i: nat, j: nat)
    requires i != j
    ensures Label(i) != Label(j)
  {
    NatToStringInjective(i, j);
    assert Label(i)[2..|Label(i)| - 1] == NatToString(i);
    assert Label(j)[2..|Label(j)| - 1] == NatToString(j);
  }

  /** The context block for the `i`-th hit. */
  function Block(i: nat, r: SearchResult): (b: string)
    ensures StartsWith(b, Label(i) + " ")
    ensures EndsWith(b, "\n\n" + r.text + "\n")
  {
    var m := r.meta;
    var head := Label(i) + " ";
    var tail := "\n\n" + r.text + "\n";
    var b := head + (Get(m, "sc_id", "") + " \U{2014} " + Get(m, "sc_title", "")
                     + " (Level " + Get(m, "level", "") + ")\nURL: " + Get(m, "url", "")) + tail;
    assert b[..|head|] == head;
    assert b[|b| - |tail|..] == tail;
    b
  }

  const Separator: string := "\n---\n"

  /** One block per hit, in order, the `i`-th labelled `[S<i+1>]`. */
  function Blocks(results: seq<SearchResult>): seq<string> {
    seq(|results|, i requires 0 <= i < |results| => Block(i + 1, results[i]))
  }

  /** `_format_context`. */
  method FormatContext(results: seq<SearchResult>) returns (context: string)
    ensures context == Join(Separator, Blocks(results))
  {
    var blocks: seq<string> := [];
    var i := 0;
    while i < |results|
      invariant 0 <= i <= |results|
      invariant |blocks| == i
      invariant forall k :: 0 <= k < i ==> blocks[k] == Block(k + 1, results[k])
    {
      var r := results[i];
      blocks := blocks + [Block(i + 1, r)];
      i := i + 1;
    }
    assert blocks == Blocks(results);
    context := Join(Separator, blocks);
  }

  /** The block of hit `j` (from 0) starts with its label `[S<j+1>]` and
      holds the hit's text. */
  lemma BlockHolds(results: seq<SearchResult>, j: nat)
    requires j < |results|
    ensures OccursAt(Blocks(results)[j], Label(j + 1), 0)
    ensures exists k: nat :: OccursAt(Blocks(results)[j], results[j].text, k)
  {
    var b := Blocks(results)[j];
    assert b == Block(j + 1, results[j]);
    assert b[..|Label(j + 1)|] == (Label(j + 1) + " ")[..|Label(j + 1)|];
    var t := results[j].text;
    var tail := "\n\n" + t + "\n";
    var k := |b| - |tail| + 2;
    assert b[k..k + |t|] == tail[2..2 + |t|];
    assert OccursAt(b, t, k);
  }

  lemma ContextHoldsHit(results: seq<SearchResult>, j: nat)
    requires j < |results|
    ensures Contains(Join(Separator, Blocks(results)), Label(j + 1))
    ensures Contains(Join(Separator, Blocks(results)), results[j].text)
  {
    var bs := Blocks(results);
    BlockHolds(results, j);
    OccursInJoin(Separator, bs, j, Label(j + 1), 0);
    var k: nat :| OccursAt(bs[j], results[j].text, k);
    OccursInJoin(Separator, bs, j, results[j].text, k);
  }

  /** The context holds every hit's label `[S1]`..`[Sn]` and every hit's text. */
  lemma ContextHoldsEveryHit(results: seq<SearchResult>)
    ensures forall i :: 1 <= i <= |results| ==> Contains(Join(Separator, Blocks(results)), Label(i))
    ensures forall j :: 0 <= j < |results| ==> Contains(Join(Separator, Blocks(results)), results[j].text)
  {
    forall i | 1 <= i <= |results| ensures Contains(Join(Separator, Blocks(results)), Label(i)) {
      ContextHoldsHit(results, i - 1);
    }
    forall j | 0 <= j < |results| ensures Contains(Join(Separator, Blocks(results)), results[j].text) {
      ContextHoldsHit(results, j);
    }
  }

  /** The context is empty exactly when there are no hits; otherwise it starts
      with the first hit's block, labelled `[S1]`. */
  lemma ContextShape(results: seq<SearchResult>)
    ensures Join(Separator, Blocks(results)) == [] <==> results == []
    ensures results != [] ==> StartsWith(Join(Separator, Blocks(results)), Blocks(results)[0])
    ensures results != [] ==> StartsWith(Blocks(results)[0], Label(1) + " ")
  {
    var bs := Blocks(results);
    if results != [] {
      assert bs[0] == Block(1, results[0]);
      JoinNonEmpty(Separator, bs);
      JoinStartsWithFirst(Separator, bs);
    }
  }

  /** What is sent to the model. */
  datatype Request = Request(model: string, system: string, user: string)

  const SystemInstructions: string :=
    "You are a WCAG 2.2 compliance assistant.\n"
    + "You MUST answer using only the provided "
    + "Sources.\n"
    + "If the Sources do not contain the answer, say you don\U{2019}t have enough information.\n"
    + "When you make a claim, cite it using the source labels like [S1], [S2].\n"
    + "Do not cite anything outside the provided "
    + "Sources.\n"

  /** The user prompt: the question, then the labelled sources. */
  function UserPrompt(question: string, context: string): (p: string)
    ensures StartsWith(p, "Question: " + question + "\n\nSources:\n" + context)
  {
    var head := "Question: " + question + "\n\nSources:\n" + context;
    var p := head + "\n\n" + "Write a concise answer. Then include a 'Citations' section listing the cited sources "
      + "with SC id + title + URL.";
    assert p[..|head|] == head;
    p
  }

  function RequestFor(question: string, results: seq<SearchResult>, model: string): Request {
    Request(model, SystemInstructions, UserPrompt(question, Join(Separator, Blocks(results))))
  }

  /** The Responses API client: it records every request it is sent and
      answers each with `respond`, which stands for the remote model. */
  class ResponsesClient {
    const respond: Request -> string
    var requests: seq<Request>

    constructor(respond: Request -> string)
      ensures this.respond == respond && requests == []
    {
      this.respond := respond;
      requests := [];
    }

    /** `client.responses.create(...).output_text`. */
    method Create(req: Request) returns (outputText: string)
      modifies this
      ensures requests == old(requests) + [req]
      ensures outputText == respond(req)
    {
      requests := requests + [req];
      outputText := respond(req);
    }
  }

  /** The citation loop of `answer_with_llm`. */
  method CollectCitations(results: seq<SearchResult>) returns (citations: seq<Citation>)
    ensures citations == TopCitations(results)
  {
    citations := [];
    var top := results[..Min(CitedCount, |results|)];
    for i := 0 to |top|
      invariant |citations| == i
      invariant forall k :: 0 <= k < i ==> citations[k] == CitationOf(results[k].meta)
    {
      var m := top[i].meta;
      citations := citations + [Citation(Get(m, "sc_id", ""), Get(m, "sc_title", ""),
                                         Get(m, "level", ""), Get(m, "url", ""))];
    }
  }

  const RefusalText: string :=
    "I can\U{2019}t answer that confidently from the WCAG 2.2 normative text I retrieved. "
    + "Try rephrasing or include the suspected SC number (e.g., 2.4.11)."

  /** `answer_with_llm` given the hits the retriever returned. A refusal sends
      nothing to the model; an accepted question sends exactly one request,
      whose reply is the answer. */
  method AnswerWithLlm(question: string, results: seq<SearchResult>, model: string, client: ResponsesClient)
    returns (r: AnswerRecord)
    modifies client
    ensures r.results == results
    ensures r.refused <==> ShouldRefuse(results)
    ensures r.refused ==>
      (r.answer == RefusalText && r.citations == [] && r.model.None?
       && client.requests == old(client.requests))
    ensures !r.refused ==>
      (client.requests == old(client.requests) + [RequestFor(question, results, model)]
       && r.answer == client.respond(RequestFor(question, results, model))
       && r.citations == TopCitations(results) && r.model == Some(model))
  {
    if ShouldRefuse(results) {
      return AnswerRecord(RefusalText, [], true, results, None);
    }
    var context := FormatContext(results);
    var answerText := client.Create(Request(model, SystemInstructions, UserPrompt(question, context)));
    var citations := CollectCitations(results);
    r := AnswerRecord(answerText, citations, false, results, Some(model));
  }
}
