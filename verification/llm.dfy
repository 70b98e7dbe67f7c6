/** `get_llm_score_and_justification`: the missing-key guard and the way
    the chat-completion outcome becomes a `(score, justification)` pair. The
    request, the JSON decoding and the float conversion are one
    uninterpreted call whose failures surface as `Err(message)`. */
module Llm {
  import opened Types
  import opened Text

  /** The decoded JSON object; a key the reply lacks is `None`. */
  datatype LlmReply = LlmReply(fitScore: Option<real>, justification: Option<string>)

  /** The chat-completion call on `(resume text, job text, api key)`. */
  type LlmCall = (string, string, string) -> Result<LlmReply, string>

  datatype Assessment = Assessment(score: real, justification: string)

  const NoKeyMessage: string := "OpenAI API key not provided."
  const UnparsedJustification: string := "Could not parse justification from LLM response."
  const FailureMarker: string := "LLM API call failed"

  /** The scorer: no call at all without a key; the reply's fields with
      their defaults on success; a zero score and the failure text on any
      exception. */
  function LlmScore(call: LlmCall, resume: string, job: string, apiKey: string): (a: Assessment)
    ensures apiKey == "" ==> a == Assessment(0.0, NoKeyMessage)
    ensures apiKey != "" && call(resume, job, apiKey).Err? ==>
      a == Assessment(0.0, FailureMarker + ": " + call(resume, job, apiKey).error)
    ensures apiKey != "" && call(resume, job, apiKey).Ok? ==>
      var reply := call(resume, job, apiKey).value;
      a == Assessment(reply.fitScore.GetOr(0.0), reply.justification.GetOr(UnparsedJustification))
  {
    if apiKey == "" then Assessment(0.0, NoKeyMessage)
    else
      match call(resume, job, apiKey)
      case Ok(reply) => Assessment(reply.fitScore.GetOr(0.0), reply.justification.GetOr(UnparsedJustification))
      case Err(e) => Assessment(0.0, FailureMarker + ": " + e)
  }

  /** The test the ranking applies before falling back to the similarity
      rating. */
  predicate IsLlmFailure(a: Assessment) {
    a.score == 0.0 && Contains(a.justification, FailureMarker)
  }

  /** A missing key yields a zero score that is not taken for a failed
      call, so no fallback happens and the rating stays 0.0. */
  lemma MissingKeyNoFallback(call: LlmCall, resume: string, job: string)
    ensures LlmScore(call, resume, job, "") == Assessment(0.0, NoKeyMessage)
    ensures !IsLlmFailure(LlmScore(call, resume, job, ""))
  {
    NoKeyMessageIsNotFailure();
  }

  lemma NoKeyMessageIsNotFailure()
    ensures !Contains(NoKeyMessage, FailureMarker)
  {
    assert FailureMarker[0] !in NoKeyMessage;
    if Contains(NoKeyMessage, FailureMarker) {
      ContainsFirstChar(NoKeyMessage, FailureMarker);
      assert false;
    }
  }

  /** Every exception from the call is recognised as a failure. */
  lemma CallErrorIsFailure(call: LlmCall, resume: string, job: string, apiKey: string)
    requires apiKey != "" && call(resume, job, apiKey).Err?
    ensures IsLlmFailure(LlmScore(call, resume, job, apiKey))
  {
    var e := call(resume, job, apiKey).error;
    assert FailureMarker + ": " + e == FailureMarker + (": " + e);
    ContainsPrefix(FailureMarker, ": " + e);
  }

  /** Exactly when the fallback fires: a key was given, and the call either
      raised or replied with a zero (or missing) score and a justification
      that itself mentions the failure text. */
  lemma FailureIff(call: LlmCall, resume: string, job: string, apiKey: string)
    ensures IsLlmFailure(LlmScore(call, resume, job, apiKey)) <==>
      apiKey != "" &&
      (call(resume, job, apiKey).Err? ||
       (call(resume, job, apiKey).value.fitScore.GetOr(0.0) == 0.0 &&
        Contains(call(resume, job, apiKey).value.justification.GetOr(UnparsedJustification), FailureMarker)))
  {
    if apiKey == "" {
      MissingKeyNoFallback(call, resume, job);
    } else if call(resume, job, apiKey).Err? {
      CallErrorIsFailure(call, resume, job, apiKey);
    }
  }
}
