/**
 * Concurrent page extraction (`_get_extracted_content_concurrently`).
 *
 * The PDF library and the thread pool are abstracted: whether the file
 * exists, what opening the document yields, and the order in which the
 * per-page tasks complete (with each task's text or exception) are inputs.
 */
module Extraction {
  import opened Common
  import opened Text

  /** One entry of the content list: `(page_number, text)`. */
  datatype Page = Page(number: nat, text: string)

  /** A Python exception, by its class name and `str(e)`. */
  datatype ErrorInfo = ErrorInfo(className: string, message: string)

  /** What one `extract_page_text(i)` future ends with. */
  datatype PageOutcome = Extracted(text: string) | Raised(error: ErrorInfo)

  /** A future yielded by `as_completed`: the page index it was submitted for and its outcome. */
  datatype Completion = Completion(index: nat, outcome: PageOutcome)

  /** `PdfReader(path)` followed by `len(reader.pages)`: a page count, or the exception raised. */
  datatype OpenResult = Opened(pageCount: nat) | OpenFailed(error: ErrorInfo)

  const ErrorTag: string := "EXTRACTION_ERROR"

  /** The exception raised when `os.path.exists` is false. */
  function FileNotFound(path: string): ErrorInfo
  {
    ErrorInfo("FileNotFoundError", "File not found: " + path)
  }

  /** The single-entry list returned from the `except` clause. */
  function ErrorSentinel(e: ErrorInfo): seq<Page>
  {
    [Page(0, ErrorTag + ": " + e.className + ": " + e.message)]
  }

  /** The whole result is the error sentinel. */
  predicate IsErrorSentinel(content: seq<Page>)
  {
    |content| == 1 && content[0].number == 0 && StartsWith(content[0].text, ErrorTag)
  }

  /**
   * `as_completed` yields every submitted future exactly once: the
   * completion order is a permutation of the page indices `0..n-1`.
   */
  ghost predicate IsCompletionOrder(order: seq<Completion>, n: nat)
  {
    && (forall k :: 0 <= k < |order| ==> order[k].index < n)
    && (forall k, l :: 0 <= k < l < |order| ==> order[k].index != order[l].index)
    && (forall j :: 0 <= j < n ==> Completes(order, j))
  }

  /** Some future for page index `j` is among the completions. */
  ghost predicate Completes(order: seq<Completion>, j: nat)
  {
    exists k :: 0 <= k < |order| && order[k].index == j
  }

  /** The first exception in completion order, if any. */
  function FirstError(order: seq<Completion>): Option<ErrorInfo>
  {
    if order == [] then None
    else if order[0].outcome.Raised? then Some(order[0].outcome.error)
    else FirstError(order[1..])
  }

  /** The text most recently extracted for page index `j` among the completions, if any. */
  function ExtractedText(order: seq<Completion>, j: nat): Option<string>
  {
    if order == [] then None
    else
      var c := order[|order| - 1];
      if c.index == j && c.outcome.Extracted? then Some(c.outcome.text)
      else ExtractedText(order[..|order| - 1], j)
  }

  /** Page index `j` as the list stores it: `(j + 1, text)`. */
  function PageAt(order: seq<Completion>, j: nat): Page
  {
    Page(j + 1, match ExtractedText(order, j) case Some(t) => t case None => "")
  }

  /** The error the extraction reports, if it fails at all. */
  function ReportedError(fileExists: bool, path: string, doc: OpenResult, order: seq<Completion>): Option<ErrorInfo>
  {
    if !fileExists then Some(FileNotFound(path))
    else if doc.OpenFailed? then Some(doc.error)
    else FirstError(order)
  }

  /**
   * What extraction returns: the error sentinel for the reported error, or
   * page `j` at position `j` for every page of the document.
   */
  function ExtractionResult(fileExists: bool, path: string, doc: OpenResult, order: seq<Completion>): seq<Page>
  {
    match ReportedError(fileExists, path, doc, order)
    case Some(e) => ErrorSentinel(e)
    case None => seq(doc.pageCount, j requires 0 <= j < doc.pageCount => PageAt(order, j))
  }

  /** `[item for item in slots if item is not None]` */
  function Present(slots: seq<Option<Page>>): seq<Page>
  {
    if slots == [] then []
    else (if slots[0].Some? then [slots[0].value] else []) + Present(slots[1..])
  }

  /** What slot `j` holds once the completions in `order` have been handled. */
  function SlotAfter(order: seq<Completion>, j: nat): Option<Page>
  {
    match ExtractedText(order, j)
    case Some(t) => Some(Page(j + 1, t))
    case None => None
  }

  /**
   * `_get_extracted_content_concurrently`: pre-size the slot list, handle
   * the futures in completion order (keep the first exception, store every
   * success in its own slot), then either raise the kept exception into the
   * sentinel or return the filled slots.
   */
  method GetExtractedContentConcurrently(fileExists: bool, path: string, doc: OpenResult, order: seq<Completion>)
    returns (content: seq<Page>)
    requires doc.Opened? ==> IsCompletionOrder(order, doc.pageCount)
    ensures content == ExtractionResult(fileExists, path, doc, order)
  {
    if !fileExists {
      return ErrorSentinel(FileNotFound(path));
    }
    if doc.OpenFailed? {
      return ErrorSentinel(doc.error);
    }
    var n := doc.pageCount;
    var slots := new Option<Page>[n](_ => None);
    var error: Option<ErrorInfo> := None;
    for k := 0 to |order|
      invariant error == FirstError(order[..k])
      invariant forall j :: 0 <= j < n ==> slots[j] == SlotAfter(order[..k], j)
    {
      var c := order[k];
      FirstErrorSnoc(order[..k], c);
      assert order[..k + 1] == order[..k] + [c];
      assert order[..k + 1][..k] == order[..k];
      match c.outcome
      case Raised(e) =>
        if error.None? {
          error := Some(e);
        }
      case Extracted(t) =>
        slots[c.index] := Some(Page(c.index + 1, t));
    }
    assert order[..|order|] == order;
    if error.Some? {
      return ErrorSentinel(error.value);
    }
    forall j | 0 <= j < n
      ensures slots[j] == Some(PageAt(order, j))
    {
      assert Completes(order, j);
      var k :| 0 <= k < |order| && order[k].index == j;
      NoErrorAllExtracted(order, k);
      ExtractedTextFound(order, k);
    }
    PresentAllSome(slots[..]);
    content := Present(slots[..]);
  }

  /** Handling one more completion: the kept error changes only if none was kept yet. */
  lemma {:induction false} FirstErrorSnoc(order: seq<Completion>, c: Completion)
    ensures FirstError(order + [c]) ==
      if FirstError(order).Some? then FirstError(order)
      else if c.outcome.Raised? then Some(c.outcome.error)
      else None
  {
    if order != [] {
      assert (order + [c])[1..] == order[1..] + [c];
      FirstErrorSnoc(order[1..], c);
    }
  }

  /** Without a first error, every completion carries text. */
  lemma {:induction false} NoErrorAllExtracted(order: seq<Completion>, k: nat)
    requires k < |order| && FirstError(order) == None
    ensures order[k].outcome.Extracted?
  {
    if k > 0 {
      NoErrorAllExtracted(order[1..], k - 1);
    }
  }

  /** A text completion for page `j` is what `ExtractedText` finds for `j`, unless a later one replaces it. */
  lemma {:induction false} ExtractedTextFound(order: seq<Completion>, k: nat)
    requires k < |order| && order[k].outcome.Extracted?
    requires forall l :: k < l < |order| ==> order[l].index != order[k].index
    ensures ExtractedText(order, order[k].index) == Some(order[k].outcome.text)
    decreases |order|
  {
    if k < |order| - 1 {
      ExtractedTextFound(order[..|order| - 1], k);
    }
  }

  /** When every slot is filled, the filter keeps them all, in slot order. */
  lemma {:induction false} PresentAllSome(slots: seq<Option<Page>>)
    requires forall j :: 0 <= j < |slots| ==> slots[j].Some?
    ensures Present(slots) == seq(|slots|, j requires 0 <= j < |slots| => slots[j].value)
  {
    if slots != [] {
      PresentAllSome(slots[1..]);
    }
  }

  /** There is no first error exactly when no completion raised. */
  lemma {:induction false} FirstErrorNoneIff(order: seq<Completion>)
    ensures FirstError(order) == None <==> forall k :: 0 <= k < |order| ==> order[k].outcome.Extracted?
  {
    if order != [] {
      FirstErrorNoneIff(order[1..]);
      assert forall k :: 1 <= k < |order| ==> order[k] == order[1..][k - 1];
    }
  }

  /**
   * Without a page error, slot `i` holds `(i + 1, text)` where `text` is
   * what the future submitted for page index `i` returned: the list has one
   * entry per page, numbered 1..n in strictly ascending order, whatever the
   * completion order.
   */
  lemma SuccessInPageOrder(path: string, n: nat, order: seq<Completion>)
    requires IsCompletionOrder(order, n) && FirstError(order) == None
    ensures var r := ExtractionResult(true, path, Opened(n), order);
      && |r| == n
      && (forall i :: 0 <= i < n ==> r[i].number == i + 1)
      && (forall i, j :: 0 <= i < j < n ==> r[i].number < r[j].number)
      && (forall i :: 0 <= i < n ==> exists k :: 0 <= k < |order| && order[k] == Completion(i, Extracted(r[i].text)))
  {
    var r := ExtractionResult(true, path, Opened(n), order);
    forall i | 0 <= i < n
      ensures exists k :: 0 <= k < |order| && order[k] == Completion(i, Extracted(r[i].text))
    {
      assert Completes(order, i);
      var k :| 0 <= k < |order| && order[k].index == i;
      NoErrorAllExtracted(order, k);
      ExtractedTextFound(order, k);
      assert order[k] == Completion(i, Extracted(r[i].text));
    }
  }

  /** With distinct indices, the text stored for page `j` is that of the one completion for `j`. */
  lemma ExtractedTextOfMember(order: seq<Completion>, n: nat, k: nat)
    requires IsCompletionOrder(order, n) && k < |order| && order[k].outcome.Extracted?
    ensures ExtractedText(order, order[k].index) == Some(order[k].outcome.text)
  {
    ExtractedTextFound(order, k);
  }

  /**
   * Two completion orders of the same futures give the same successful
   * result: the order in which pages finish never shows in the content.
   */
  lemma CompletionOrderIrrelevant(path: string, n: nat, order1: seq<Completion>, order2: seq<Completion>)
    requires IsCompletionOrder(order1, n) && IsCompletionOrder(order2, n)
    requires multiset(order1) == multiset(order2)
    requires FirstError(order1) == None
    ensures FirstError(order2) == None
    ensures ExtractionResult(true, path, Opened(n), order1) == ExtractionResult(true, path, Opened(n), order2)
  {
    FirstErrorNoneIff(order1);
    FirstErrorNoneIff(order2);
    forall k | 0 <= k < |order2|
      ensures order2[k].outcome.Extracted?
    {
      assert order2[k] in multiset(order1);
    }
    forall j | 0 <= j < n
      ensures PageAt(order1, j) == PageAt(order2, j)
    {
      assert Completes(order1, j);
      var k1 :| 0 <= k1 < |order1| && order1[k1].index == j;
      assert order1[k1] in multiset(order2);
      var k2 :| 0 <= k2 < |order2| && order2[k2] == order1[k1];
      ExtractedTextOfMember(order1, n, k1);
      ExtractedTextOfMember(order2, n, k2);
    }
  }

  /** A raising completion decides the first error unless an earlier one raised. */
  lemma {:induction false} FirstErrorOfPrefix(prefix: seq<Completion>, c: Completion, rest: seq<Completion>)
    requires FirstError(prefix) == None && c.outcome.Raised?
    ensures FirstError(prefix + [c] + rest) == Some(c.outcome.error)
  {
    if prefix == [] {
      assert ([c] + rest)[0] == c;
    } else {
      assert (prefix + [c] + rest)[1..] == prefix[1..] + [c] + rest;
      FirstErrorOfPrefix(prefix[1..], c, rest);
    }
  }

  /**
   * First error wins: the reported error is the first one in completion
   * order, whatever the completions after it (later errors included).
   */
  lemma FirstErrorWins(path: string, n: nat, prefix: seq<Completion>, c: Completion, rest: seq<Completion>)
    requires FirstError(prefix) == None && c.outcome.Raised?
    ensures ExtractionResult(true, path, Opened(n), prefix + [c] + rest) == ErrorSentinel(c.outcome.error)
  {
    FirstErrorOfPrefix(prefix, c, rest);
  }

  /** A single failing page turns the whole result into the error sentinel. */
  lemma AnyPageErrorFails(path: string, n: nat, order: seq<Completion>, k: nat)
    requires k < |order| && order[k].outcome.Raised?
    ensures IsErrorSentinel(ExtractionResult(true, path, Opened(n), order))
  {
    FirstErrorNoneIff(order);
  }

  /**
   * All or nothing: the result is the error sentinel exactly when an error
   * is reported; otherwise every entry is a real page, numbered from 1.
   */
  lemma AllOrNothing(fileExists: bool, path: string, doc: OpenResult, order: seq<Completion>)
    ensures var r := ExtractionResult(fileExists, path, doc, order);
      && (IsErrorSentinel(r) <==> ReportedError(fileExists, path, doc, order).Some?)
      && (!IsErrorSentinel(r) ==> forall i :: 0 <= i < |r| ==> r[i].number == i + 1)
  {
    match ReportedError(fileExists, path, doc, order)
    case Some(e) =>
      var t := ErrorTag + ": " + e.className + ": " + e.message;
      assert t[..|ErrorTag|] == ErrorTag;
    case None =>
  }
}
