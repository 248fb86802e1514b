/** The guard and error handling around the text-generation call that writes
    the insight beneath each chart. The call itself is a parameter. */
module Insight {
  import opened Wrappers

  const MissingKeyMessage := "Vennligst oppgi en Google Gemini API-nøkkel for å generere innsikt."
  const FailurePrefix := "Kunne ikke generere KI-innsikt: "
  const InvalidKeyMarker := "API key not valid"
  const InvalidKeyHint := "\nVennligst sjekk om API-nøkkelen er korrekt."
  const DataHeading := "\n\nData:\n"

  /** What the generation service does with a prompt: answers with text, or
      raises an error with a message. */
  datatype Reply = Answer(text: string) | Failure(error: string)

  /** `sub` occurs somewhere in `s`. */
  predicate Contains(s: string, sub: string) {
    exists i {:trigger s[i..]} :: 0 <= i <= |s| - |sub| && s[i..][..|sub|] == sub
  }

  /** A key counts only when it is present and not empty. */
  predicate HasKey(key: Option<string>) { key.Some? && key.value != "" }

  /** The prompt: the chart's context, a heading, then the data as text. */
  function FullPrompt(context: string, dataText: string): (p: string)
    ensures |p| == |context| + |DataHeading| + |dataText|
    ensures p[..|context|] == context && p[|p| - |dataText|..] == dataText
  {
    context + DataHeading + dataText
  }

  /** The message shown when the call fails. */
  function FailureMessage(error: string): (m: string)
    ensures |m| == |FailurePrefix| + |error| + (if Contains(error, InvalidKeyMarker) then |InvalidKeyHint| else 0)
    ensures m[..|FailurePrefix|] == FailurePrefix
    ensures m[|FailurePrefix|..][..|error|] == error
  {
    var m := FailurePrefix + error;
    if Contains(error, InvalidKeyMarker) then m + InvalidKeyHint else m
  }

  /** The text shown beneath a chart. */
  function InsightText(key: Option<string>, context: string, dataText: string, generate: string -> Reply): (text: string)
  {
    if !HasKey(key) then MissingKeyMessage
    else
      match generate(FullPrompt(context, dataText))
      case Answer(t) => t
      case Failure(e) => FailureMessage(e)
  }

  /** Without a key the service is never consulted: every generator gives
      the same fixed message. */
  lemma NoKeyNoCall(key: Option<string>, context: string, dataText: string, g: string -> Reply, g': string -> Reply)
    requires !HasKey(key)
    ensures InsightText(key, context, dataText, g) == InsightText(key, context, dataText, g') == MissingKeyMessage
  {
  }

  /** With a key, the answer for the full prompt is shown unchanged; a
      failure is reported with its own message, never as an answer. */
  lemma WithKey(key: Option<string>, context: string, dataText: string, g: string -> Reply)
    requires HasKey(key)
    ensures g(FullPrompt(context, dataText)).Answer? ==> InsightText(key, context, dataText, g) == g(FullPrompt(context, dataText)).text
    ensures g(FullPrompt(context, dataText)).Failure? ==> InsightText(key, context, dataText, g)[..|FailurePrefix|] == FailurePrefix
  {
  }

  /** The hint about an invalid key is added exactly when the error says so. */
  lemma {:induction false} HintIffInvalidKey(error: string)
    ensures FailureMessage(error) == FailurePrefix + error + InvalidKeyHint <==> Contains(error, InvalidKeyMarker)
  {
    if !Contains(error, InvalidKeyMarker) {
      assert |FailureMessage(error)| < |FailurePrefix + error + InvalidKeyHint|;
    }
  }

  /** An error text carrying the service's invalid-key wording gets the hint. */
  lemma InvalidKeyExample(status: string, detail: string)
    ensures FailureMessage(status + InvalidKeyMarker + detail) == FailurePrefix + status + InvalidKeyMarker + detail + InvalidKeyHint
  {
    var e := status + InvalidKeyMarker + detail;
    assert e[|status|..][..|InvalidKeyMarker|] == InvalidKeyMarker;
    assert FailurePrefix + e == FailurePrefix + status + InvalidKeyMarker + detail;
  }
}
