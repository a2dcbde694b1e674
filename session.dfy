/**
 * One practice round of app.py: a snippet is chosen for the language picked
 * in the sidebar, the attempt is scored when it is submitted, and the
 * comparison report is produced when the sidebar asks for it.  The random
 * snippet draw and the simulated duration are inputs; the sidebar's slider
 * keeps the time limit between 30 and 180 seconds and the duration is drawn
 * between 5 seconds and that limit.
 */
module Session {
  import opened Wrappers
  import Lines
  import Catalog
  import Scoring
  import Differ

  /** What the page shows after a submission. */
  datatype Round = Round(snippet: string, duration: int, metrics: Scoring.Metrics, report: Option<string>)

  /**
   * Choosing the snippet, then scoring the typed text against it, then (when
   * the report checkbox is ticked) the ndiff comparison report.
   */
  function Submit(language: string, draw: nat, timeLimit: int, duration: int, typed: string,
                  showReport: bool, similarity: Differ.Similarity): (r: Result<Round, Catalog.CatalogError>)
    requires 30 <= timeLimit <= 180
    requires 5 <= duration <= timeLimit
    ensures r.Success? <==> language in Catalog.LANGUAGES
    ensures r.Success? ==> r.value.snippet in Catalog.LANGUAGES[language] && r.value.duration == duration
    ensures r.Success? ==>
      var metrics := r.value.metrics;
      && 0.0 <= metrics.accuracy <= 100.0
      && (metrics.accuracy == 100.0 <==> typed == r.value.snippet)
      && 0.0 <= metrics.wpm
      && (metrics.wpm == 0.0 <==> typed == [])
    ensures r.Success? ==> (r.value.report.Some? <==> showReport)
    ensures r.Success? && showReport ==>
      var shown := Differ.ParseAll(Lines.SplitLines(r.value.report.value));
      Differ.Before(shown) == Lines.SplitLines(r.value.snippet) && Differ.After(shown) == Lines.SplitLines(typed)
  {
    if language in Catalog.LANGUAGES then
      Catalog.EveryLanguageHasSnippets(language);
      var snippet := Catalog.SelectSnippet(language, draw).value;
      var metrics := Scoring.CalculateMetrics(snippet, typed, duration).value;
      var report := if showReport then Some(Differ.ComparisonReport(snippet, typed, similarity)) else None;
      Success(Round(snippet, duration, metrics, report))
    else
      Failure(Catalog.UnknownLanguage(language))
  }
}
