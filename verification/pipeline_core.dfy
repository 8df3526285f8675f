/** The question-answering pipeline (backend/main/pipeline_core.py): an intent check that
    may answer at once, retrieval from the knowledge base, and a prompt to the language
    model built from what was retrieved.

    The pipeline's fields are only set when it is created, so it is a value. The intent
    detector, the retriever and the language model are parameters; the factories that
    choose them (`get_reranker`, `get_llm`, `get_retriever`) are not modelled. */
module PipelineCore {
  import opened Wrappers
  import opened PyStr
  import opened Settings
  import opened VectorStoreManager
  import opened PromptBuilder
  import FaissIndexer

  /** The retriever as the pipeline sees it: its `index` attribute (absent, None, or a
      store) and its `retrieve(query_text, top_k=…, reranker=…)`, which may raise and may
      answer None. */
  datatype Retriever = Retriever(
    index: Option<Option<FaissIndexer.FaissStore>>,
    retrieve: (string, int, Option<Reranker>) -> Result<Option<seq<string>>>)

  datatype RAGPipeline = RAGPipeline(
    retrieverType: string,
    retriever: Retriever,
    detectIntent: string -> string,
    topKFaiss: int,
    topNRerank: int,
    scoreThreshold: real)

  /** `RAGPipeline(force_index, retriever_type)`: the retriever type is the first non-empty
      of the argument, the configured type and "faiss"; the limits come from the settings. */
  function NewPipeline(retrieverType: Option<string>, configuredType: string, retriever: Retriever,
                       detectIntent: string -> string): (p: RAGPipeline)
    ensures p.retrieverType != ""
    ensures retrieverType.Some? && retrieverType.value != "" ==> p.retrieverType == retrieverType.value
    ensures (retrieverType.None? || retrieverType.value == "") && configuredType != "" ==> p.retrieverType == configuredType
    ensures p.topKFaiss == 40 && p.topNRerank == 10 && p.scoreThreshold == 0.2
  {
    var chosen :=
      if retrieverType.Some? && retrieverType.value != "" then retrieverType.value
      else if configuredType != "" then configuredType
      else "faiss";
    RAGPipeline(chosen, retriever, detectIntent, TopKFaiss, TopNRerank, FaissScoreThreshold)
  }

  /** `refresh_index`: the retriever's index when it has one that is not None. */
  function RefreshIndex(p: RAGPipeline): (r: Option<FaissIndexer.FaissStore>)
    ensures r.Some? <==> p.retriever.index.Some? && p.retriever.index.value.Some?
    ensures r.Some? ==> p.retriever.index == Some(r)
  {
    match p.retriever.index
    case None => None
    case Some(idx) => idx
  }

  /** `top_k or self.top_k_faiss` */
  function EffectiveTopK(topK: Option<int>, fallback: int): (k: int)
    ensures topK.None? || topK.value == 0 ==> k == fallback
    ensures topK.Some? && topK.value != 0 ==> k == topK.value
  {
    if topK.Some? && topK.value != 0 then topK.value else fallback
  }

  /** `query_knowledge_base`: the retriever's documents; a failure, None or nothing gives []. */
  function QueryKnowledgeBase(p: RAGPipeline, query: string, reranker: Option<Reranker>, topK: Option<int>)
    : (r: seq<string>)
    ensures var answer := p.retriever.retrieve(query, EffectiveTopK(topK, p.topKFaiss), reranker);
      (r != [] <==> answer.Ok? && answer.value.Some? && answer.value.value != []) &&
      (r != [] ==> answer == Ok(Some(r)))
  {
    match p.retriever.retrieve(query, EffectiveTopK(topK, p.topKFaiss), reranker)
    case Err(_) => []
    case Ok(None) => []
    case Ok(Some(results)) => results
  }

  /** A `top_k` of 0 is the same as none: both ask for `top_k_faiss` results. */
  lemma ZeroTopKFallsBack(p: RAGPipeline, query: string, reranker: Option<Reranker>)
    ensures QueryKnowledgeBase(p, query, reranker, Some(0)) == QueryKnowledgeBase(p, query, reranker, None)
    ensures QueryKnowledgeBase(p, query, reranker, None) == QueryKnowledgeBase(p, query, reranker, Some(p.topKFaiss))
  {
  }

  const DefaultResponse := "The retrieved documents do not provide enough information."
  const NothingFoundResponse := "Sorry, I couldn't find relevant information in the documents."

  /** The intents answered without retrieval; "empty" has no reply of its own. */
  const QuickResponses: map<string, Option<string>> := map[
    "greeting" := Some("Hello! I'm your Armstrong assistant. Ask me a technical question and I\U{2019}ll look it up for you."),
    "thanks" := Some("You're welcome! Let me know if you have more questions."),
    "goodbye" := Some("Goodbye! Feel free to come back with more questions anytime."),
    "help" := Some("I can help answer questions about your HVAC questions and Armstrong products. Ask me something specific!"),
    "vague" := Some("Could you please rephrase your question or ask something more specific?"),
    "empty" := None]

  /** `quick_responses[intent] or response`: an empty reply counts as none. */
  function QuickReply(intent: string): (r: string)
    requires intent in QuickResponses
    ensures r != ""
    ensures intent == "empty" ==> r == DefaultResponse
  {
    var reply := QuickResponses[intent];
    if reply.Some? && reply.value != "" then reply.value else DefaultResponse
  }

  /** `generate_response`: a quick reply for a known intent; otherwise the retrieved
      documents, joined by blank lines, become the context of the prompt, and the model's
      answer is returned; with nothing retrieved, an apology. An exception the model
      raises is passed on. */
  function GenerateResponse(p: RAGPipeline, query: string, llm: string -> Result<string>,
                            history: seq<(string, string)>, reranker: Option<Reranker>): (r: Result<string>)
    ensures p.detectIntent(query) in QuickResponses ==> r == Ok(QuickReply(p.detectIntent(query)))
    ensures p.detectIntent(query) !in QuickResponses && QueryKnowledgeBase(p, query, reranker, None) == [] ==>
      r == Ok(NothingFoundResponse)
    ensures p.detectIntent(query) !in QuickResponses && QueryKnowledgeBase(p, query, reranker, None) != [] ==>
      r == llm(Prompt(Join("\n\n", QueryKnowledgeBase(p, query, reranker, None)), query, history))
  {
    var intent := p.detectIntent(query);
    if intent in QuickResponses then Ok(QuickReply(intent))
    else
      var finalDocs := QueryKnowledgeBase(p, query, reranker, None);
      if finalDocs == [] then Ok(NothingFoundResponse)
      else
        var context := Join("\n\n", finalDocs);
        llm(Prompt(context, query, history))
  }

  /** The prompt the model is asked opens with the instructions and contains every
      retrieved document. */
  lemma PromptHoldsEveryDoc(docs: seq<string>, query: string, history: seq<(string, string)>)
    ensures StartsWith(Prompt(Join("\n\n", docs), query, history), Instructions)
    ensures forall d :: d in docs ==> Contains(Prompt(Join("\n\n", docs), query, history), d)
  {
    var context := Join("\n\n", docs);
    var prompt := Prompt(context, query, history);
    PartsOfThree(Instructions, Conversation(history), ContextSection(context, query));
    PromptHoldsContext(context, query, history);
    JoinHoldsParts("\n\n", docs);
    forall d | d in docs ensures Contains(prompt, d) {
      ContainsTransitive(prompt, context, d);
    }
  }

  /** A known intent is answered without consulting the retriever or the model. */
  lemma QuickRepliesSkipRetrieval(p: RAGPipeline, query: string, llm: string -> Result<string>,
                                  history: seq<(string, string)>, reranker: Option<Reranker>,
                                  other: Retriever, otherLlm: string -> Result<string>)
    requires p.detectIntent(query) in QuickResponses
    ensures GenerateResponse(p, query, llm, history, reranker) ==
      GenerateResponse(p.(retriever := other), query, otherLlm, history, reranker)
  {
  }

  /** The prompt contains the context. */
  lemma PromptHoldsContext(context: string, query: string, history: seq<(string, string)>)
    ensures Contains(Prompt(context, query, history), context)
  {
    var head := "\n\nContext:\n";
    var section := ContextSection(context, query);
    assert section == head + context + ("\n\nQuestion: " + query);
    PartsOfThree(head, context, "\n\nQuestion: " + query);
    assert OccursAt(section, context, |head|);
    var front := Instructions + Conversation(history);
    var p := Prompt(context, query, history);
    assert p[|front|..] == section;
    assert OccursAt(p, section, |front|);
    ContainsTransitive(p, section, context);
  }

  /** Every part of a joined string occurs in it. */
  lemma {:induction false} JoinHoldsParts(sep: string, parts: seq<string>)
    ensures forall d :: d in parts ==> Contains(Join(sep, parts), d)
  {
    if |parts| == 1 {
      assert OccursAt(Join(sep, parts), parts[0], 0);
    } else if |parts| > 1 {
      var rest := parts[1..];
      JoinHoldsParts(sep, rest);
      var j := Join(sep, parts);
      var lead := parts[0] + sep;
      assert j == lead + Join(sep, rest);
      forall d | d in parts ensures Contains(j, d) {
        if d == parts[0] {
          assert j == parts[0] + (sep + Join(sep, rest));
          assert OccursAt(j, d, 0);
        } else {
          assert d in rest;
          var i: nat :| i <= |Join(sep, rest)| && OccursAt(Join(sep, rest), d, i);
          assert j[|lead| + i..|lead| + i + |d|] == Join(sep, rest)[i..i + |d|];
          assert OccursAt(j, d, |lead| + i);
        }
      }
    }
  }

  lemma ContainsTransitive(a: string, b: string, c: string)
    requires Contains(a, b) && Contains(b, c)
    ensures Contains(a, c)
  {
    var i: nat :| i <= |a| && OccursAt(a, b, i);
    var k: nat :| k <= |b| && OccursAt(b, c, k);
    forall j | 0 <= j < |c| ensures a[i + k + j] == c[j] {
      assert b[k..k + |c|][j] == c[j];
      assert a[i..i + |b|][k + j] == b[k + j];
    }
    assert OccursAt(a, c, i + k);
  }
}
