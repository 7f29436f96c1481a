/** The result shaping of `run_with_logging`: the agent's raw answer is passed through
    unchanged and the sources are the URLs `extract_sources` finds in it. The call to the
    agent itself is outside the model, so the raw answer is a parameter. */
module AgentCore {
  import opened Sources

  /** The returned dictionary's `answer` and `sources` entries. */
  datatype Response = Response(answer: string, sources: seq<string>)

  /** `u` occurs in `t` as a contiguous substring. */
  ghost predicate Occurs(u: string, t: string) {
    exists i, j :: 0 <= i <= j <= |t| && t[i..j] == u
  }

  /** `run_with_logging` once `agent.run(question)` has returned `rawAnswer`. */
  function RunWithLogging(rawAnswer: string): (r: Response)
    ensures r.answer == rawAnswer
    ensures r.sources == ExtractSources(r.answer)
    ensures forall k :: 0 <= k < |r.sources| ==> IsUrl(r.sources[k]) && Occurs(r.sources[k], rawAnswer)
    ensures r.sources == [] <==> NoMatchBetween(rawAnswer, 0, |rawAnswer|)
  {
    ExtractSourcesInText(rawAnswer);
    ExtractSourcesEmpty(rawAnswer);
    Response(rawAnswer, ExtractSources(rawAnswer))
  }
}
