/**
 * The three-way decision of `_post_extraction_update`: an extraction error,
 * a loaded document, or nothing to read.
 */
module Classification {
  import opened Text
  import opened Extraction

  /** The text `.replace` removes from the sentinel to get the message shown. */
  const ErrorPrefix: string := ErrorTag + ": "

  datatype Classification =
    | Failed(message: string)       // status "Extraction Failed: <message>", start disabled
    | Loaded(pages: seq<Page>)      // status "Extraction complete. <n> pages loaded.", start enabled
    | NothingLoaded                 // status "Extraction failed or PDF is empty.", start disabled

  /** The branch `_post_extraction_update` takes for a content list. */
  function Classify(content: seq<Page>): Classification
  {
    if |content| > 0 && content[0].number == 0 && StartsWith(content[0].text, ErrorTag) then
      Failed(RemoveAll(content[0].text, ErrorPrefix))
    else if |content| > 0 then
      Loaded(content)
    else
      NothingLoaded
  }

  /** `current_content` after the update. */
  function ContentAfter(c: Classification): seq<Page>
  {
    if c.Loaded? then c.pages else []
  }

  /** Whether the start button is enabled after the update. */
  predicate StartEnabledAfter(c: Classification)
  {
    c.Loaded?
  }

  /**
   * Classifying what extraction returns: a reported error is shown as
   * `<ClassName>: <msg>` (with any further occurrence of the prefix removed
   * too, as `str.replace` removes every occurrence) and loads nothing; a
   * successful list is never mistaken for the sentinel, since its first page
   * number is 1; it is loaded when non-empty, and an empty document loads
   * nothing.
   */
  lemma ClassifyExtraction(fileExists: bool, path: string, doc: OpenResult, order: seq<Completion>)
    ensures var r := ExtractionResult(fileExists, path, doc, order);
      var c := Classify(r);
      && (ReportedError(fileExists, path, doc, order).Some? ==>
            var e := ReportedError(fileExists, path, doc, order).value;
            && c == Failed(RemoveAll(e.className + ": " + e.message, ErrorPrefix))
            && (!Contains(e.className + ": " + e.message, ErrorPrefix) ==> c.message == e.className + ": " + e.message))
      && (ReportedError(fileExists, path, doc, order).None? ==>
            && (doc.pageCount > 0 ==> c == Loaded(r))
            && (doc.pageCount == 0 ==> c == NothingLoaded))
      && (StartEnabledAfter(c) <==> ReportedError(fileExists, path, doc, order).None? && doc.pageCount > 0)
      && ContentAfter(c) == (if StartEnabledAfter(c) then r else [])
  {
    match ReportedError(fileExists, path, doc, order)
    case Some(e) =>
      var shown := e.className + ": " + e.message;
      var t := ErrorTag + ": " + e.className + ": " + e.message;
      assert t == ErrorPrefix + shown;
      assert t[..|ErrorTag|] == ErrorTag;
      RemoveAllLeading(ErrorPrefix, shown);
      if !Contains(shown, ErrorPrefix) {
        RemoveAllAbsent(shown, ErrorPrefix);
      }
    case None =>
  }
}
