/** The summariser `_summarize_text`: a summary of at most `target_words` words. The
    language-model branch is not modelled as code: its reply is a parameter. */
module Summarizer {
  import opened PyStr
  import opened Wrappers

  /** Whether the model's reply is used: only with a non-empty key, and only when the request
      produced a reply (`reply` is `None` when it raised, which falls back). */
  predicate UsesModel(apiKey: Option<string>, reply: Option<string>) {
    apiKey.Some? && apiKey.value != "" && reply.Some?
  }

  /** The fallback summary: the first `target` tokens of the text, joined by single spaces. */
  function Fallback(text: string, target: int): string {
    Join(SliceTo(Words(text), target), " ")
  }

  /** The fallback keeps exactly the first `target` tokens (all of them when there are fewer),
      in order, unchanged, and separates them by single spaces with nothing at either end. */
  lemma {:induction false} FallbackSpec(text: string, target: int)
    ensures var ws, r := Words(text), Fallback(text, target);
      && Words(r) == SliceTo(ws, target)
      && SingleSpaced(r)
      && (0 <= target ==> |Words(r)| == if target < |ws| then target else |ws|)
      && (r == "" <==> SliceTo(ws, target) == [])
  {
    var ws := SliceTo(Words(text), target);
    assert forall k :: 0 <= k < |ws| ==> ws[k] == Words(text)[k];
    WordsOfJoin(ws);
    JoinWordsSingleSpaced(ws);
  }

  /** `_summarize_text(text, api_key, target_words)`, with the model's reply given. */
  function Summarize(text: string, apiKey: Option<string>, reply: Option<string>, target: int): string {
    if Words(text) == [] then ""
    else if UsesModel(apiKey, reply) then Strip(reply.value)
    else Fallback(text, target)
  }

  /** What the summariser promises: nothing for a text without tokens; otherwise the model's
      reply stripped of surrounding whitespace when it is used, and the first `target` tokens
      joined by single spaces when it is not. */
  lemma {:induction false} SummarizeSpec(text: string, apiKey: Option<string>, reply: Option<string>, target: int)
    ensures var r := Summarize(text, apiKey, reply, target);
      && (AllWhitespace(text) ==> r == "")
      && (!AllWhitespace(text) && UsesModel(apiKey, reply) ==> StrippedFrom(r, reply.value))
      && (!AllWhitespace(text) && !UsesModel(apiKey, reply) ==>
            Words(r) == SliceTo(Words(text), target) && SingleSpaced(r))
  {
    if UsesModel(apiKey, reply) {
      StripIsStrippedFrom(reply.value);
    }
    FallbackSpec(text, target);
  }
}
