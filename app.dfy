/**
 * The reader's application object (`AudioBookApp`): the reading-control
 * fields that the buttons and the background narration thread share, the
 * loaded content, and the trace of what it shows, says and reports.
 */
module App {
  import opened Common
  import opened Text
  import opened Extraction
  import opened Classification
  import opened Controls
  import opened Narration
  import opened Voice
  import opened Schedule

  const FinishedText: string := "Reading finished."
  const StoppedText: string := "Reading stopped."
  const ExtractingText: string := "Extracting content..."

  class AudioBookApp {
    var pdfFilePath: string
    var isReading: bool
    var isPaused: bool
    var stopFlag: bool               // the threading.Event, set or clear
    var currentContent: seq<Page>
    const engineVoice: string
    const engineRate: int
    /** Everything sent to the display, the status bar and the speech engine, in order. */
    var trace: seq<Event>
    /** Whether the start, pause and stop buttons are enabled. */
    ghost var startEnabled: bool
    ghost var pauseEnabled: bool
    ghost var stopEnabled: bool

    function Controls(): ControlState
      reads this
    {
      ControlState(isReading, isPaused, stopFlag)
    }

    /** `__init__` with `setup_tts_voice`: no document, controls idle, preferred voice and default rate. */
    constructor (voices: seq<Voice>, engineDefaultVoice: string)
      ensures Controls() == Initial && pdfFilePath == "" && currentContent == [] && trace == []
      ensures engineVoice == ConfiguredVoice(voices, engineDefaultVoice) && engineRate == DefaultRate
      ensures !startEnabled && !pauseEnabled && !stopEnabled
    {
      pdfFilePath := "";
      isReading, isPaused, stopFlag := false, false, false;
      currentContent := [];
      engineVoice := ConfiguredVoice(voices, engineDefaultVoice);
      engineRate := DefaultRate;
      trace := [];
      startEnabled, pauseEnabled, stopEnabled := false, false, false;
    }

    /** `_post_extraction_update`: keep the content only when it is a loaded document. */
    method PostExtractionUpdate(content: seq<Page>)
      modifies this
      ensures currentContent == ContentAfter(Classify(content))
      ensures startEnabled == StartEnabledAfter(Classify(content))
      ensures trace == old(trace) + match Classify(content)
        case Failed(msg) => [Status(FailureStatus(msg)), Display(FailureDisplay(msg))]
        case Loaded(pages) =>
          [Status("Extraction complete. " + NatToString(|pages|) + " pages loaded. Ready to read.")]
        case NothingLoaded =>
          [Status("Extraction failed or PDF is empty.")]
      ensures Controls() == old(Controls()) && pdfFilePath == old(pdfFilePath)
      ensures pauseEnabled == old(pauseEnabled) && stopEnabled == old(stopEnabled)
      ensures NothingSaid(trace[|old(trace)|..])
    {
      match Classify(content)
      case Failed(msg) =>
        trace := trace + [Status(FailureStatus(msg))];
        currentContent := [];
        startEnabled := false;
        trace := trace + [Display(FailureDisplay(msg))];
      case Loaded(pages) =>
        currentContent := content;
        startEnabled := true;
        trace := trace + [Status("Extraction complete. " + NatToString(|currentContent|) + " pages loaded. Ready to read.")];
      case NothingLoaded =>
        trace := trace + [Status("Extraction failed or PDF is empty.")];
        startEnabled := false;
        currentContent := [];
    }

    /** `_initial_extraction`: extract the selected file, then update the application. */
    method InitialExtraction(fileExists: bool, doc: OpenResult, order: seq<Completion>)
      requires doc.Opened? ==> IsCompletionOrder(order, doc.pageCount)
      modifies this
      ensures currentContent == ContentAfter(Classify(ExtractionResult(fileExists, pdfFilePath, doc, order)))
      ensures startEnabled <==> ReportedError(fileExists, pdfFilePath, doc, order).None? && doc.pageCount > 0
      ensures !fileExists ==> currentContent == [] && !startEnabled
      ensures !fileExists ==>
        var msg := MissingFileMessage(pdfFilePath);
        trace == old(trace) + [Status(FailureStatus(msg)), Display(FailureDisplay(msg))]
      ensures Controls() == old(Controls()) && pdfFilePath == old(pdfFilePath)
      ensures old(trace) <= trace && NothingSaid(trace[|old(trace)|..])
    {
      var content := GetExtractedContentConcurrently(fileExists, pdfFilePath, doc, order);
      ClassifyExtraction(fileExists, pdfFilePath, doc, order);
      PostExtractionUpdate(content);
    }

    /**
     * `select_pdf_file`: `chosen` is the dialog's answer, `""` when it was
     * cancelled. A chosen file becomes the document, start is disabled and
     * the status says extraction is under way; the extraction that follows
     * on its own thread is taken to run to its end at once.
     */
    method SelectPdfFile(chosen: string, fileExists: bool, doc: OpenResult, order: seq<Completion>)
      requires doc.Opened? ==> IsCompletionOrder(order, doc.pageCount)
      modifies this
      ensures chosen == "" ==> unchanged(this)
      ensures chosen != "" ==>
        && pdfFilePath == chosen
        && old(trace) + [Status(ExtractingText)] <= trace
        && NothingSaid(trace[|old(trace)|..])
        && currentContent == ContentAfter(Classify(ExtractionResult(fileExists, chosen, doc, order)))
        && (startEnabled <==> ReportedError(fileExists, chosen, doc, order).None? && doc.pageCount > 0)
        && Controls() == old(Controls())
      ensures chosen != "" && !fileExists ==>
        var msg := MissingFileMessage(chosen);
        trace == old(trace) + [Status(ExtractingText), Status(FailureStatus(msg)), Display(FailureDisplay(msg))]
    {
      if chosen != "" {
        pdfFilePath := chosen;
        startEnabled := false;
        trace := trace + [Status(ExtractingText)];
        ghost var selected := trace;
        InitialExtraction(fileExists, doc, order);
        assert trace[|old(trace)|..] == [Status(ExtractingText)] + trace[|selected|..];
      }
    }

    /**
     * Choosing a file that does not exist: extraction fails and loads
     * nothing, so pressing start afterwards runs a session that finishes at
     * once. From the choice on, nothing is said and no page is displayed.
     */
    method StartAfterMissingFile(chosen: string, doc: OpenResult, order: seq<Completion>, busyTicks: seq<nat>, actions: seq<Action>)
      returns (outcome: SessionEnd)
      requires chosen != ""
      requires doc.Opened? ==> IsCompletionOrder(order, doc.pageCount)
      requires !isReading
      modifies this
      ensures pdfFilePath == chosen && currentContent == [] && outcome == Finished && !isReading
      ensures old(trace) <= trace
      ensures forall k :: |old(trace)| <= k < |trace| ==> ShowsNoPage(trace[k])
    {
      ghost var before := trace;
      SelectPdfFile(chosen, false, doc, order);
      ghost var extracted := trace;
      outcome := StartEmptySession(busyTicks, actions);
      ghost var msg := MissingFileMessage(chosen);
      FailureShowsNoPage(msg);
      assert ShowsNoPage(Status(ExtractingText));
      NoPageAfterReport(before, [Status(ExtractingText), Status(FailureStatus(msg)), Display(FailureDisplay(msg))], extracted, trace);
    }

    /** Pressing start with nothing loaded: the session finishes at once and shows no page. */
    method StartEmptySession(busyTicks: seq<nat>, actions: seq<Action>) returns (outcome: SessionEnd)
      requires currentContent == [] && !isReading
      modifies this
      ensures outcome == Finished && !isReading
      ensures currentContent == [] && pdfFilePath == old(pdfFilePath)
      ensures old(trace) <= trace && PageEvents(trace) == PageEvents(old(trace)) + []
    {
      var started := StartReading();
      var visited, used;
      outcome, visited, used := ReadingProcess(busyTicks, actions);
      assert currentContent[..visited] == [];
    }

    /** `start_reading`: ignored during a session; otherwise opens one (the thread is started iff `started`). */
    method StartReading() returns (started: bool)
      modifies this
      ensures started == !old(isReading)
      ensures Controls() == Start(old(Controls()))
      ensures trace == old(trace) + (if started then [Status("Reading started...")] else [])
      ensures started ==> !startEnabled && pauseEnabled && stopEnabled
      ensures !started ==> startEnabled == old(startEnabled) && pauseEnabled == old(pauseEnabled) && stopEnabled == old(stopEnabled)
      ensures currentContent == old(currentContent) && pdfFilePath == old(pdfFilePath)
    {
      if isReading {
        return false;
      }
      isReading := true;
      stopFlag := false;
      startEnabled, pauseEnabled, stopEnabled := false, true, true;
      trace := trace + [Status("Reading started...")];
      started := true;
    }

    /** `pause_resume_reading`: ignored outside a session; otherwise flips the pause flag. */
    method PauseResumeReading()
      modifies this
      ensures Controls() == PauseResume(old(Controls()))
      ensures trace == old(trace) +
        if !old(isReading) then []
        else if old(isPaused) then [Status("Reading resumed.")]
        else [Status("Reading paused.")]
      ensures currentContent == old(currentContent) && pdfFilePath == old(pdfFilePath)
      ensures startEnabled == old(startEnabled) && pauseEnabled == old(pauseEnabled) && stopEnabled == old(stopEnabled)
    {
      if !isReading {
        return;
      }
      if isPaused {
        isPaused := false;
        trace := trace + [Status("Reading resumed.")];
      } else {
        isPaused := true;
        trace := trace + [Status("Reading paused.")];
      }
    }

    /** `stop_reading`: set the stop flag, flush the engine, end the session, reset the buttons. */
    method StopReading()
      modifies this
      ensures Controls() == Stop(old(Controls()))
      ensures trace == old(trace) + [EngineStop, Status(StoppedText)]
      ensures startEnabled == (pdfFilePath != "") && !pauseEnabled && !stopEnabled
      ensures currentContent == old(currentContent) && pdfFilePath == old(pdfFilePath)
    {
      stopFlag := true;
      trace := trace + [EngineStop];
      isReading := false;
      startEnabled, pauseEnabled, stopEnabled := pdfFilePath != "", false, false;
      trace := trace + [Status(StoppedText)];
    }

    /**
     * What the user does while the narration thread sleeps: press the pause
     * button, press the stop button, or nothing.
     */
    method Observe(a: Action)
      modifies this
      ensures Controls() == ApplyAction(a, old(Controls()))
      ensures old(trace) <= trace
      ensures forall e :: e in trace[|old(trace)|..] ==> !IsPageEvent(e)
      ensures EngineStop in trace[|old(trace)|..] <==> a == PressStop
      ensures a == PressStop ==> startEnabled == (pdfFilePath != "") && !pauseEnabled && !stopEnabled
      ensures currentContent == old(currentContent) && pdfFilePath == old(pdfFilePath)
    {
      ghost var before := trace;
      match a
      case Idle =>
        assert trace[|before|..] == [];
      case PressPause =>
        PauseResumeReading();
      case PressStop =>
        StopReading();
        assert trace[|before|..] == [EngineStop, Status(StoppedText)];
    }

    /** The next user action, if the schedule has one left. */
    method ObserveNext(actions: seq<Action>, tick: nat) returns (next: nat)
      requires tick <= |actions|
      modifies this
      ensures next == if tick < |actions| then tick + 1 else tick
      ensures Controls() == if tick < |actions| then ApplyAction(actions[tick], old(Controls())) else old(Controls())
      ensures old(trace) <= trace
      ensures forall e :: e in trace[|old(trace)|..] ==> !IsPageEvent(e)
      ensures stopFlag <==> old(stopFlag) || EngineStop in trace[|old(trace)|..]
      ensures currentContent == old(currentContent) && pdfFilePath == old(pdfFilePath)
    {
      next := tick;
      if tick < |actions| {
        Observe(actions[tick]);
        next := tick + 1;
      } else {
        assert trace[|old(trace)|..] == [];
      }
    }

    /**
     * What holds of a running narration thread since its trace position
     * `from`: the reading flag is the negation of the stop flag, the stop flag
     * is set exactly when an engine stop has been issued, and nothing has been
     * displayed or said after one.
     */
    ghost predicate Consistent(from: nat)
      reads this
    {
      && from <= |trace|
      && isReading == !stopFlag
      && (StoppedSince(trace, from) <==> stopFlag)
      && QuietAfterStop(trace, from)
    }

    /** The controls are those reached from `c0` by the first `tick` user actions. */
    ghost predicate Replayed(c0: ControlState, actions: seq<Action>, tick: nat)
      reads this
    {
      tick <= |actions| && Controls() == Replay(c0, actions[..tick])
    }

    /**
     * A point where the narration thread can see a button press: each sleep,
     * and the stop check before each page. The next user action, if any, is
     * taken here.
     */
    method ObservationPoint(actions: seq<Action>, tick: nat, ghost from: nat, ghost c0: ControlState) returns (next: nat)
      requires Replayed(c0, actions, tick) && Consistent(from)
      modifies this
      ensures Consistent(from) && Replayed(c0, actions, next)
      ensures next == if tick < |actions| then tick + 1 else tick
      ensures old(trace) <= trace && PageEvents(trace) == PageEvents(old(trace))
      ensures currentContent == old(currentContent) && pdfFilePath == old(pdfFilePath)
    {
      ghost var before := trace;
      next := ObserveNext(actions, tick);
      ObservedEvents(before, trace, from);
      if tick < |actions| {
        ReplayStep(c0, actions, tick);
      }
    }

    /**
     * `while self.is_paused and not self.stop_flag.is_set(): time.sleep(...)`.
     * Ends `suspended` when the actions run out while still paused.
     */
    method WaitWhilePaused(actions: seq<Action>, tick0: nat, ghost from: nat, ghost c0: ControlState)
      returns (tick: nat, suspended: bool)
      requires Replayed(c0, actions, tick0) && Consistent(from)
      modifies this
      ensures Consistent(from) && Replayed(c0, actions, tick) && tick0 <= tick
      ensures suspended ==> isPaused && !stopFlag && tick == |actions|
      ensures !suspended ==> !isPaused || stopFlag
      ensures tick == PauseEnd(c0, actions, tick0)
      ensures old(trace) <= trace && PageEvents(trace) == PageEvents(old(trace))
      ensures currentContent == old(currentContent) && pdfFilePath == old(pdfFilePath)
    {
      tick, suspended := tick0, false;
      while isPaused && !stopFlag && !suspended
        invariant Consistent(from) && Replayed(c0, actions, tick) && tick0 <= tick
        invariant suspended ==> isPaused && !stopFlag && tick == |actions|
        invariant PauseEnd(c0, actions, tick) == PauseEnd(c0, actions, tick0)
        invariant old(trace) <= trace && PageEvents(trace) == PageEvents(old(trace))
        invariant currentContent == old(currentContent) && pdfFilePath == old(pdfFilePath)
        decreases |actions| - tick, !suspended
      {
        if tick < |actions| {
          tick := ObservationPoint(actions, tick, from, c0);
        } else {
          suspended := true;
        }
      }
    }

    /**
     * `while self.tts_engine.isBusy() and not self.stop_flag.is_set()`: the
     * engine answers busy `remaining` more times; each busy answer is followed
     * by the pause wait and one sleep. `polls` counts the busy answers used:
     * all of them unless the stop flag was seen or the pause never ended.
     */
    method WaitWhileBusy(remaining: nat, actions: seq<Action>, tick0: nat, ghost from: nat, ghost c0: ControlState)
      returns (tick: nat, suspended: bool, ghost polls: nat)
      requires Replayed(c0, actions, tick0) && Consistent(from)
      modifies this
      ensures Consistent(from) && Replayed(c0, actions, tick) && tick0 <= tick
      ensures suspended ==> isPaused && !stopFlag && tick == |actions|
      ensures polls <= remaining && (!suspended && !stopFlag ==> polls == remaining)
      ensures !suspended && !stopFlag ==> tick == |actions| || tick >= tick0 + remaining
      ensures Wait(tick, suspended) == BusyEnd(c0, actions, tick0, remaining)
      ensures old(trace) <= trace && PageEvents(trace) == PageEvents(old(trace))
      ensures currentContent == old(currentContent) && pdfFilePath == old(pdfFilePath)
    {
      var left := remaining;
      tick, suspended, polls := tick0, false, 0;
      while left > 0 && !stopFlag && !suspended
        invariant Consistent(from) && Replayed(c0, actions, tick) && tick0 <= tick
        invariant suspended ==> isPaused && !stopFlag && tick == |actions|
        invariant polls + left == remaining
        invariant tick == |actions| || tick >= tick0 + polls
        invariant !suspended ==> BusyEnd(c0, actions, tick, left) == BusyEnd(c0, actions, tick0, remaining)
        invariant suspended ==> Wait(tick, true) == BusyEnd(c0, actions, tick0, remaining)
        invariant old(trace) <= trace && PageEvents(trace) == PageEvents(old(trace))
        invariant currentContent == old(currentContent) && pdfFilePath == old(pdfFilePath)
        decreases left
      {
        left, polls := left - 1, polls + 1;
        tick, suspended := WaitWhilePaused(actions, tick, from, c0);
        if !suspended {
          tick := ObservationPoint(actions, tick, from, c0);
        }
      }
    }

    /**
     * One spoken page: show `"PAGE n\n\ntext"`, say the text, wait while the
     * engine is busy, then clear the highlight (unless the wait never ends).
     */
    method SpeakPage(page: Page, busy: nat, actions: seq<Action>, tick0: nat, ghost from: nat, ghost c0: ControlState)
      returns (tick: nat, suspended: bool)
      requires Replayed(c0, actions, tick0) && Consistent(from) && !stopFlag
      modifies this
      ensures Consistent(from) && Replayed(c0, actions, tick) && tick0 <= tick
      ensures suspended ==> isPaused && !stopFlag && tick == |actions|
      ensures old(trace) <= trace
      ensures suspended ==> PageEvents(trace) == PageEvents(old(trace)) + PageOpening(page)
      ensures !suspended ==> PageEvents(trace) == PageEvents(old(trace)) + PageOpening(page) + [HighlightClear]
      ensures !suspended && !stopFlag ==> tick == |actions| || tick >= tick0 + busy
      ensures Wait(tick, suspended) == BusyEnd(c0, actions, tick0, busy)
      ensures currentContent == old(currentContent) && pdfFilePath == old(pdfFilePath)
    {
      ShowPage(page, from);
      ghost var polls;
      tick, suspended, polls := WaitWhileBusy(busy, actions, tick0, from, c0);
      if !suspended {
        ClearHighlight(from);
      }
    }

    /** `update_display` of the page header and text, then `say` of the text, before any stop. */
    method ShowPage(page: Page, ghost from: nat)
      requires Consistent(from) && !stopFlag
      modifies this
      ensures Consistent(from) && trace == old(trace) + PageOpening(page)
      ensures PageEvents(trace) == PageEvents(old(trace)) + PageOpening(page)
      ensures Controls() == old(Controls()) && currentContent == old(currentContent) && pdfFilePath == old(pdfFilePath)
    {
      ghost var before := trace;
      trace := trace + PageOpening(page);
      AppendPageEvents(before, PageOpening(page));
      AppendBeforeStop(before, from, PageOpening(page));
      AppendStopped(before, from, PageOpening(page));
    }

    /** `tag_remove('highlight', ...)` after a page. */
    method ClearHighlight(ghost from: nat)
      requires Consistent(from)
      modifies this
      ensures Consistent(from) && trace == old(trace) + [HighlightClear]
      ensures PageEvents(trace) == PageEvents(old(trace)) + [HighlightClear]
      ensures Controls() == old(Controls()) && currentContent == old(currentContent) && pdfFilePath == old(pdfFilePath)
    {
      ghost var before := trace;
      trace := trace + [HighlightClear];
      AppendPageEvents(before, [HighlightClear]);
      AppendQuiet(before, from, [HighlightClear]);
      AppendStopped(before, from, [HighlightClear]);
    }

    /**
     * The narration loop's invariant after handling the first `i` entries of
     * `pages`, with the trace started at `trace0`: every spoken entry has been
     * displayed, said and cleared in order; a loop that stops running has seen
     * the stop flag unless it is suspended in the pause wait of entry `i`.
     */
    ghost predicate Narrating(pages: seq<Page>, trace0: seq<Event>, i: nat, running: bool, suspended: bool)
      reads this
    {
      && i <= |pages| && currentContent == pages
      && trace0 <= trace && Consistent(|trace0|)
      && (running ==> !stopFlag && !suspended)
      && (!running && !suspended ==> stopFlag)
      && (!suspended ==> PageEvents(trace) == PageEvents(trace0) + Script(NonBlank(pages[..i])))
      && (suspended ==>
            && i < |pages| && !IsBlank(pages[i].text) && isPaused && !stopFlag
            && PageEvents(trace) == PageEvents(trace0) + Script(NonBlank(pages[..i])) + PageOpening(pages[i]))
    }

    /**
     * One iteration of `for page_num, raw_text in self.current_content`:
     * break on the stop flag, skip a blank page, or speak the page.
     */
    method VisitEntry(pages: seq<Page>, busy: nat, actions: seq<Action>, i: nat, tick0: nat,
                      ghost trace0: seq<Event>, ghost c0: ControlState)
      returns (next: nat, tick: nat, running: bool, suspended: bool)
      requires Narrating(pages, trace0, i, true, false) && i < |pages| && Replayed(c0, actions, tick0)
      modifies this
      ensures Narrating(pages, trace0, next, running, suspended) && Replayed(c0, actions, tick)
      ensures suspended ==> tick == |actions|
      ensures next == i + 1 || (next == i && !running)
      ensures tick == |actions| || tick > tick0
      ensures running ==> tick == |actions| || tick >= tick0 + 1 + (if IsBlank(pages[i].text) then 0 else busy)
      ensures Visit(next, tick, running, suspended) == VisitEnd(c0, pages[i], busy, actions, i, tick0)
      ensures pdfFilePath == old(pdfFilePath)
    {
      ghost var from := |trace0|;
      next, running, suspended := i, true, false;
      tick := ObservationPoint(actions, tick0, from, c0);
      if stopFlag {
        running := false;
      } else if IsBlank(pages[i].text) {
        NonBlankStep(pages, i);
        assert NonBlank(pages[..i + 1]) == NonBlank(pages[..i]);
        next := i + 1;
      } else {
        next, tick, running, suspended := SpeakEntry(pages, busy, actions, i, tick, trace0, c0);
      }
    }

    /** A page that is not blank, reached with the stop flag clear: speak it and move on unless the wait never ends. */
    method SpeakEntry(pages: seq<Page>, busy: nat, actions: seq<Action>, i: nat, tick0: nat,
                      ghost trace0: seq<Event>, ghost c0: ControlState)
      returns (next: nat, tick: nat, running: bool, suspended: bool)
      requires Narrating(pages, trace0, i, true, false) && i < |pages| && Replayed(c0, actions, tick0)
      requires !IsBlank(pages[i].text)
      modifies this
      ensures Narrating(pages, trace0, next, running, suspended) && Replayed(c0, actions, tick)
      ensures suspended ==> tick == |actions|
      ensures next == i + 1 || (next == i && !running)
      ensures tick0 <= tick && (running ==> tick == |actions| || tick >= tick0 + busy)
      ensures Visit(next, tick, running, suspended) == SpeakEnd(c0, busy, actions, i, tick0)
      ensures pdfFilePath == old(pdfFilePath)
    {
      tick, suspended := SpeakPage(pages[i], busy, actions, tick0, |trace0|, c0);
      if suspended {
        next, running := i, false;
      } else {
        SpokenStep(pages, i, PageEvents(trace0), PageEvents(trace));
        next := i + 1;
        running := !stopFlag;
      }
    }

    /**
     * `_reading_process`: walk `current_content` in order; skip blank
     * pages; display and say each other page, then poll the engine until it
     * is idle, sleeping in place while paused; clear the highlight after each
     * spoken page; leave as soon as the stop flag is seen.
     *
     * The engine answers `isBusy()` with true `busyTicks[u]` times for the
     * `u`-th utterance; `actions[t]` is what the user does at the `t`-th
     * observation point (each sleep, and the stop check before each page);
     * `used` actions are taken. When the actions run out while the loop is
     * paused, it would sleep for ever: the run ends as `StillPaused`.
     */
    method ReadingProcess(busyTicks: seq<nat>, actions: seq<Action>) returns (outcome: SessionEnd, visited: nat, used: nat)
      requires isReading && !stopFlag
      modifies this
      ensures used <= |actions|
      ensures Run(visited, used, outcome == StillPaused) == Narrate(old(Controls()), currentContent, busyTicks, actions, 0, 0, 0)
      ensures outcome == StillPaused ==> used == |actions| && Controls() == Replay(old(Controls()), actions)
      ensures outcome != StillPaused ==> Controls() == Replay(old(Controls()), actions[..used]).(isReading := false)
      ensures outcome == Stopped <==> PressStop in actions[..used]
      ensures PressStop !in actions ==> outcome == StillPaused || (outcome == Finished && visited == |currentContent|)
      ensures currentContent == [] ==> outcome == Finished && used == 0
      ensures outcome == Finished ==> used == |actions| || used >= StopHorizon(currentContent, busyTicks)
      ensures forall k :: 0 <= k < |actions| && k < StopHorizon(currentContent, busyTicks) && actions[k] == PressStop ==>
        outcome == Stopped
      ensures currentContent == old(currentContent) && pdfFilePath == old(pdfFilePath)
      ensures old(trace) <= trace
      ensures visited <= |currentContent|
      ensures outcome != StillPaused ==>
        PageEvents(trace) == PageEvents(old(trace)) + Script(NonBlank(currentContent[..visited]))
      ensures outcome == StillPaused ==>
        && visited < |currentContent| && !IsBlank(currentContent[visited].text)
        && PageEvents(trace) == PageEvents(old(trace)) + Script(NonBlank(currentContent[..visited])) + PageOpening(currentContent[visited])
        && isReading && isPaused && !stopFlag
      ensures outcome == Finished ==> visited == |currentContent|
      ensures outcome != StillPaused ==>
        && !isReading
        && (outcome == Finished <==> !stopFlag)
        && |trace| > 0 && trace[|trace| - 1] == Status(if stopFlag then StoppedText else FinishedText)
        && startEnabled == (pdfFilePath != "") && !pauseEnabled && !stopEnabled
      ensures QuietAfterStop(trace, |old(trace)|)
      ensures StoppedSince(trace, |old(trace)|) <==> stopFlag
    {
      var pages := currentContent;
      ghost var trace0, c0 := trace, Controls();
      var i, tick, suspended := NarratePages(pages, busyTicks, actions, trace0, c0);
      visited, used := i, tick;
      ReplayStopFlag(c0, actions[..used]);
      if suspended {
        assert actions[..used] == actions;
        outcome := StillPaused;
      } else {
        FinishSession(|trace0|);
        outcome := if stopFlag then Stopped else Finished;
      }
      if PressStop in actions[..used] {
        assert PressStop in actions;
      }
      forall k | 0 <= k < |actions| && k < StopHorizon(pages, busyTicks) && actions[k] == PressStop
        ensures PressStop in actions[..used]
      {
        StopTaken(actions, used, StopHorizon(pages, busyTicks), k);
      }
    }

    /**
     * The `for` loop of `_reading_process` over `pages`, from a running
     * session with the trace at `trace0` and the controls at `c0`. A loop
     * that ends neither stopped nor paused has visited every page and,
     * unless the actions ran out, passed its `StopHorizon`.
     */
    method NarratePages(pages: seq<Page>, busyTicks: seq<nat>, actions: seq<Action>, ghost trace0: seq<Event>, ghost c0: ControlState)
      returns (i: nat, tick: nat, suspended: bool)
      requires trace == trace0 && Controls() == c0 && currentContent == pages
      requires isReading && !stopFlag && QuietAfterStop(trace, |trace|)
      modifies this
      ensures Narrating(pages, trace0, i, !stopFlag && !suspended, suspended)
      ensures Replayed(c0, actions, tick) && (suspended ==> tick == |actions|)
      ensures !stopFlag && !suspended ==> i == |pages| && (tick == |actions| || tick >= StopHorizon(pages, busyTicks))
      ensures |pages| == 0 ==> tick == 0 && !stopFlag && !suspended
      ensures Run(i, tick, suspended) == Narrate(c0, pages, busyTicks, actions, 0, 0, 0)
      ensures pdfFilePath == old(pdfFilePath)
    {
      var utterance: nat, running := 0, true;
      i, tick, suspended := 0, 0, false;
      assert pages[..0] == [] && actions[..0] == [];
      while running && i < |pages|
        invariant Narrating(pages, trace0, i, running, suspended) && Replayed(c0, actions, tick)
        invariant suspended ==> tick == |actions|
        invariant |pages| == 0 ==> running && tick == 0
        invariant utterance == |NonBlank(pages[..i])|
        invariant running ==> tick == |actions| || tick >= i + BusySum(busyTicks, utterance)
        invariant running ==> Narrate(c0, pages, busyTicks, actions, i, tick, utterance) == Narrate(c0, pages, busyTicks, actions, 0, 0, 0)
        invariant !running ==> Run(i, tick, suspended) == Narrate(c0, pages, busyTicks, actions, 0, 0, 0)
        invariant pdfFilePath == old(pdfFilePath)
        decreases |pages| - i, running
      {
        i, tick, utterance, running, suspended := NarrateEntry(pages, busyTicks, actions, i, tick, utterance, trace0, c0);
      }
      if running {
        assert pages[..i] == pages;
      }
    }

    /** One turn of the loop in `NarratePages`, with `utterance` counting the pages spoken so far. */
    method NarrateEntry(pages: seq<Page>, busyTicks: seq<nat>, actions: seq<Action>, i: nat, tick0: nat, utterance0: nat,
                        ghost trace0: seq<Event>, ghost c0: ControlState)
      returns (next: nat, tick: nat, utterance: nat, running: bool, suspended: bool)
      requires Narrating(pages, trace0, i, true, false) && i < |pages| && Replayed(c0, actions, tick0)
      requires utterance0 == |NonBlank(pages[..i])|
      requires tick0 == |actions| || tick0 >= i + BusySum(busyTicks, utterance0)
      modifies this
      ensures Narrating(pages, trace0, next, running, suspended) && Replayed(c0, actions, tick)
      ensures suspended ==> tick == |actions|
      ensures next == i + 1 || (next == i && !running)
      ensures utterance == |NonBlank(pages[..next])|
      ensures running ==> tick == |actions| || tick >= next + BusySum(busyTicks, utterance)
      ensures running ==> Narrate(c0, pages, busyTicks, actions, next, tick, utterance) == Narrate(c0, pages, busyTicks, actions, i, tick0, utterance0)
      ensures !running ==> Run(next, tick, suspended) == Narrate(c0, pages, busyTicks, actions, i, tick0, utterance0)
      ensures pdfFilePath == old(pdfFilePath)
    {
      var busy := BusyAt(busyTicks, utterance0);
      next, tick, running, suspended := VisitEntry(pages, busy, actions, i, tick0, trace0, c0);
      utterance := utterance0;
      if next == i + 1 {
        NonBlankStep(pages, i);
        if !IsBlank(pages[i].text) {
          assert BusySum(busyTicks, utterance0 + 1) == BusySum(busyTicks, utterance0) + busy;
          utterance := utterance0 + 1;
        }
      }
    }

    /**
     * The end of `_reading_process`: reset the buttons, report whether the
     * session finished or was stopped, and leave the reading state.
     */
    method FinishSession(ghost from: nat)
      requires Consistent(from)
      modifies this
      ensures Controls() == old(Controls()).(isReading := false)
      ensures trace == old(trace) + [Status(if stopFlag then StoppedText else FinishedText)]
      ensures PageEvents(trace) == PageEvents(old(trace))
      ensures QuietAfterStop(trace, from) && (StoppedSince(trace, from) <==> stopFlag)
      ensures startEnabled == (pdfFilePath != "") && !pauseEnabled && !stopEnabled
      ensures currentContent == old(currentContent) && pdfFilePath == old(pdfFilePath)
    {
      var final := Status(if stopFlag then StoppedText else FinishedText);
      startEnabled, pauseEnabled, stopEnabled := pdfFilePath != "", false, false;
      trace := trace + [final];
      AppendNonPage(old(trace), [final]);
      AppendQuiet(old(trace), from, [final]);
      AppendStopped(old(trace), from, [final]);
      isReading := false;
    }

    /** What one observation appends keeps the page events, the quiet-after-stop property and the stop bookkeeping. */
    lemma ObservedEvents(before: seq<Event>, after: seq<Event>, from: nat)
      requires from <= |before| && before <= after
      requires forall e :: e in after[|before|..] ==> !IsPageEvent(e)
      requires QuietAfterStop(before, from)
      ensures PageEvents(after) == PageEvents(before)
      ensures QuietAfterStop(after, from)
      ensures StoppedSince(after, from) <==> StoppedSince(before, from) || EngineStop in after[|before|..]
    {
      var extra := after[|before|..];
      assert after == before + extra;
      AppendNonPage(before, extra);
      AppendQuiet(before, from, extra);
      AppendStopped(before, from, extra);
    }
  }

  /**
   * A stop press at position `k` below the horizon is among the actions a
   * session took, when the session took them all, reached the horizon, or
   * took a stop press anyway.
   */
  lemma StopTaken(actions: seq<Action>, used: nat, horizon: nat, k: nat)
    requires used <= |actions| && k < |actions| && k < horizon && actions[k] == PressStop
    requires used == |actions| || used >= horizon || PressStop in actions[..used]
    ensures PressStop in actions[..used]
  {
    if used == |actions| || used >= horizon {
      assert actions[..used][k] == PressStop;
    }
  }

  /** The status bar text after a failed extraction with message `msg`. */
  function FailureStatus(msg: string): string
  {
    "\U{274C} Extraction Failed: " + msg
  }

  /** The display text after a failed extraction with message `msg`. */
  function FailureDisplay(msg: string): string
  {
    "Extraction failed. " + "Please check your PDF file.\nError: " + msg
  }

  /** The message reported for a file that does not exist. */
  function MissingFileMessage(path: string): string
  {
    RemoveAll(FileNotFound(path).className + ": " + FileNotFound(path).message, ErrorPrefix)
  }

  /** An event that neither says anything nor displays a page. */
  predicate ShowsNoPage(e: Event)
  {
    !e.Say? && !(e.Display? && StartsWith(e.text, "PAGE "))
  }

  /** The failure report shows no page. */
  lemma FailureShowsNoPage(msg: string)
    ensures ShowsNoPage(Status(FailureStatus(msg)))
    ensures ShowsNoPage(Display(FailureDisplay(msg)))
  {
    var head := "Extraction failed. ";
    assert head[0] == 'E';
    assert FailureDisplay(msg)[0] == head[0];
    assert FailureDisplay(msg)[..5][0] != "PAGE "[0];
  }

  /**
   * After a report that shows no page, a run whose page events are
   * unchanged says nothing and displays no page.
   */
  lemma NoPageAfterReport(before: seq<Event>, report: seq<Event>, mid: seq<Event>, after: seq<Event>)
    requires mid == before + report && forall e :: e in report ==> ShowsNoPage(e)
    requires mid <= after && PageEvents(after) == PageEvents(mid) + []
    ensures forall k :: |before| <= k < |after| ==> ShowsNoPage(after[k])
  {
    var session := after[|mid|..];
    assert after == mid + session;
    UnchangedPageEvents(mid, session);
    forall k | |before| <= k < |after|
      ensures ShowsNoPage(after[k])
    {
      if k >= |mid| {
        assert after[k] == session[k - |mid|];
        assert session[k - |mid|] in session;
      } else {
        assert after[k] == report[k - |before|];
        assert report[k - |before|] in report;
      }
    }
  }


}
