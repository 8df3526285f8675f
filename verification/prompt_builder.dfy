/** The prompt sent to the language model (main/llm/prompt_builder.py): fixed instructions,
    the numbered conversation so far, the retrieved context and the question. */
module PromptBuilder {
  import opened PyStr

  /** The instruction text every prompt opens with. */
  const Instructions: string :=
    "You are a professional HVAC systems consultant. "
    + "Use ONLY the context below to answer the following customer question.\n"
    + "Some content in the context may come from graphs, tables, or images; interpret this information accurately.\n"
    + "Answer in a concise, informative paragraph. If the context does not contain the answer, "
    + "say 'The context does not provide enough information.'\n\n"

  /** `f"\nQ{i}: {prev_q}\nA{i}: {prev_a}"` */
  function Turn(i: nat, qa: (string, string)): string {
    "\nQ" + NatToString(i) + ": " + qa.0 + "\nA" + NatToString(i) + ": " + qa.1
  }

  /** The conversation string after the loop over `history`, numbering the pairs from 1. */
  function Conversation(history: seq<(string, string)>): (r: string)
    ensures history == [] ==> r == ""
  {
    if history == [] then ""
    else Conversation(history[..|history| - 1]) + Turn(|history|, history[|history| - 1])
  }

  /** The part of the prompt after the conversation. */
  function ContextSection(context: string, query: string): string {
    "\n\nContext:\n" + context + "\n\nQuestion: " + query
  }

  /** The prompt for a context, a question and a history. */
  function Prompt(context: string, query: string, history: seq<(string, string)>): string {
    Instructions + Conversation(history) + ContextSection(context, query)
  }

  /** The three parts of a concatenation can be read back from it. */
  lemma PartsOfThree(a: string, b: string, c: string)
    ensures (a + b + c)[..|a|] == a
    ensures (a + b + c)[|a|..|a| + |b|] == b
    ensures (a + b + c)[|a| + |b|..] == c
  {
  }

  /** `build_prompt(context, query, history)` */
  method BuildPrompt(context: string, query: string, history: seq<(string, string)>) returns (prompt: string)
    ensures prompt == Prompt(context, query, history)
    // the instructions open the prompt, and the question closes it after the context
    ensures StartsWith(prompt, Instructions)
    ensures EndsWith(prompt, ContextSection(context, query))
  {
    var conversation := "";
    for i := 0 to |history|
      invariant conversation == Conversation(history[..i])
    {
      ConversationSnoc(history[..i], history[i]);
      assert history[..i] + [history[i]] == history[..i + 1];
      conversation := conversation + Turn(i + 1, history[i]);
    }
    assert history[..|history|] == history;
    prompt := Instructions + conversation + ContextSection(context, query);
    PartsOfThree(Instructions, conversation, ContextSection(context, query));
  }

  /** Appending a pair to the history appends its turn, numbered one past the earlier
      pairs, and keeps the earlier conversation as a prefix. */
  lemma ConversationSnoc(history: seq<(string, string)>, qa: (string, string))
    ensures Conversation(history + [qa]) == Conversation(history) + Turn(|history| + 1, qa)
  {
    var h := history + [qa];
    assert h != [] && |h| == |history| + 1;
    assert h[..|h| - 1] == history;
    assert h[|h| - 1] == qa;
  }

  /** Numbering starts at 1: a non-empty conversation opens with the first pair's turn. */
  lemma {:induction false} ConversationStartsAtOne(history: seq<(string, string)>)
    requires history != []
    ensures StartsWith(Conversation(history), Turn(1, history[0]))
  {
    if |history| == 1 {
      assert Conversation(history) == Conversation([]) + Turn(1, history[0]);
    } else {
      var init := history[..|history| - 1];
      ConversationStartsAtOne(init);
      assert init[0] == history[0];
      var t, a, b := Turn(1, history[0]), Conversation(init), Turn(|history|, history[|history| - 1]);
      assert Conversation(history) == a + b;
      assert a[..|t|] == t;
      assert (a + b)[..|t|] == t;
    }
  }

  /** The conversation sits between the instructions and the context section: the prompt
      is the instructions, then exactly the conversation, then the context section. */
  lemma PromptLayout(context: string, query: string, history: seq<(string, string)>)
    ensures var p := Prompt(context, query, history);
      var c := Conversation(history);
      p[..|Instructions|] == Instructions &&
      p[|Instructions|..|Instructions| + |c|] == c &&
      p[|Instructions| + |c|..] == ContextSection(context, query)
  {
    PartsOfThree(Instructions, Conversation(history), ContextSection(context, query));
  }
}
