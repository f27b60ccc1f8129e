/**
 * What the narration loop (`_reading_process`) tells the outside world,
 * as a trace of events, and the page script a session follows.
 */
module Narration {
  import opened Text
  import opened Extraction

  /** An outward effect: a display update, an engine command, or a status bar text. */
  datatype Event =
    | Display(text: string)     // update_display(text)
    | Say(text: string)         // tts_engine.say(text)
    | HighlightClear            // tag_remove('highlight', ...)
    | Status(message: string)   // status_bar.config(text=message)
    | EngineStop                // tts_engine.stop()

  /** How a run of the narration loop ended. */
  datatype SessionEnd =
    | Finished      // every page visited, stop flag clear
    | Stopped       // left because the stop flag was observed
    | StillPaused   // paused when the user actions ran out: the loop would keep sleeping

  /** How many times the engine answers busy for the `u`-th utterance (none past the schedule). */
  function BusyAt(busyTicks: seq<nat>, u: nat): nat
  {
    if u < |busyTicks| then busyTicks[u] else 0
  }

  /** The busy answers of the first `u` utterances together. */
  function BusySum(busyTicks: seq<nat>, u: nat): nat
  {
    if u == 0 then 0 else BusySum(busyTicks, u - 1) + BusyAt(busyTicks, u - 1)
  }

  /**
   * The observation points a session over `pages` passes when it is neither
   * stopped nor paused: one stop check per page and one sleep per busy answer.
   */
  function StopHorizon(pages: seq<Page>, busyTicks: seq<nat>): nat
  {
    |pages| + BusySum(busyTicks, |NonBlank(pages)|)
  }

  /** The displayed text `"PAGE n\n\ntext"`. */
  function Header(p: Page): string
  {
    "PAGE " + NatToString(p.number) + "\n\n" + p.text
  }

  /** The pages the loop speaks: those whose text is not whitespace only, in order. */
  function NonBlank(pages: seq<Page>): seq<Page>
  {
    if pages == [] then []
    else
      var last := pages[|pages| - 1];
      NonBlank(pages[..|pages| - 1]) + (if IsBlank(last.text) then [] else [last])
  }

  /** The start of one spoken page: it is displayed, then said. */
  function PageOpening(p: Page): seq<Event>
  {
    [Display(Header(p)), Say(p.text)]
  }

  /** The page events of a session that speaks `pages` to the end of each. */
  function Script(pages: seq<Page>): seq<Event>
  {
    if pages == [] then []
    else Script(pages[..|pages| - 1]) + PageOpening(pages[|pages| - 1]) + [HighlightClear]
  }

  predicate IsPageEvent(e: Event)
  {
    e.Display? || e.Say? || e.HighlightClear?
  }

  /** The page events of a trace, in order (status texts and engine stops dropped). */
  function PageEvents(trace: seq<Event>): seq<Event>
  {
    if trace == [] then []
    else
      var last := trace[|trace| - 1];
      PageEvents(trace[..|trace| - 1]) + (if IsPageEvent(last) then [last] else [])
  }

  /** An engine stop occurs in the trace at or after position `from`. */
  ghost predicate StoppedSince(trace: seq<Event>, from: nat)
  {
    exists j :: from <= j < |trace| && trace[j] == EngineStop
  }

  /** After `from`, nothing is displayed or said once the engine has been stopped. */
  ghost predicate QuietAfterStop(trace: seq<Event>, from: nat)
  {
    forall j, l :: from <= j < l < |trace| && trace[j] == EngineStop ==> !trace[l].Display? && !trace[l].Say?
  }

  lemma {:induction false} PageEventsAppend(t: seq<Event>, u: seq<Event>)
    ensures PageEvents(t + u) == PageEvents(t) + PageEvents(u)
    decreases |u|
  {
    if u == [] {
      assert t + u == t;
    } else {
      var u' := u[..|u| - 1];
      var last := u[|u| - 1];
      assert (t + u)[..|t + u| - 1] == t + u';
      assert (t + u)[|t + u| - 1] == last;
      PageEventsAppend(t, u');
      var x := if IsPageEvent(last) then [last] else [];
      calc {
        PageEvents(t + u);
        PageEvents(t + u') + x;
        PageEvents(t) + PageEvents(u') + x;
        PageEvents(t) + (PageEvents(u') + x);
      }
    }
  }

  /** Page events appended to a trace are appended to its page events. */
  lemma {:induction false} AppendPageEvents(trace: seq<Event>, extra: seq<Event>)
    requires forall e :: e in extra ==> IsPageEvent(e)
    ensures PageEvents(trace + extra) == PageEvents(trace) + extra
    decreases |extra|
  {
    if extra != [] {
      var init := extra[..|extra| - 1];
      assert (trace + extra)[..|trace + extra| - 1] == trace + init;
      assert (trace + extra)[|trace + extra| - 1] == extra[|extra| - 1];
      assert extra[|extra| - 1] in extra;
      AppendPageEvents(trace, init);
      assert init + [extra[|extra| - 1]] == extra;
    } else {
      assert trace + extra == trace;
    }
  }

  /** One more entry of the content list extends the spoken pages by it unless it is blank. */
  lemma NonBlankStep(pages: seq<Page>, i: nat)
    requires i < |pages|
    ensures NonBlank(pages[..i + 1]) == NonBlank(pages[..i]) + (if IsBlank(pages[i].text) then [] else [pages[i]])
  {
    assert pages[..i + 1][..i] == pages[..i];
  }

  /** One more spoken page extends the script by its opening and a highlight clear. */
  lemma ScriptStep(pages: seq<Page>, p: Page)
    ensures Script(pages + [p]) == Script(pages) + PageOpening(p) + [HighlightClear]
  {
    assert (pages + [p])[..|pages|] == pages;
  }

  /** Speaking the next entry, which is not blank, extends the script by it. */
  lemma SpokenStep(pages: seq<Page>, i: nat, before: seq<Event>, after: seq<Event>)
    requires i < |pages| && !IsBlank(pages[i].text)
    requires after == before + Script(NonBlank(pages[..i])) + PageOpening(pages[i]) + [HighlightClear]
    ensures after == before + Script(NonBlank(pages[..i + 1]))
  {
    NonBlankStep(pages, i);
    ScriptAppend(NonBlank(pages[..i]), pages[i], before, after);
  }

  /** `ScriptStep` with the trace around it, kept apart so that `NonBlank` stays out of its context. */
  lemma ScriptAppend(ns: seq<Page>, p: Page, before: seq<Event>, after: seq<Event>)
    requires after == before + Script(ns) + PageOpening(p) + [HighlightClear]
    ensures after == before + Script(ns + [p])
  {
    ScriptStep(ns, p);
  }

  /**
   * The loop visits pages in content order and skips none: what it speaks
   * after `i` entries is a prefix of what it speaks after `j >= i`.
   */
  lemma {:induction false} NonBlankPrefix(pages: seq<Page>, i: nat, j: nat)
    requires i <= j <= |pages|
    ensures NonBlank(pages[..i]) <= NonBlank(pages[..j])
    decreases j - i
  {
    if i < j {
      NonBlankPrefix(pages, i, j - 1);
      NonBlankStep(pages, j - 1);
    }
  }

  /** Whitespace-only pages are never spoken; every other page is, in content order. */
  lemma {:induction false} NonBlankMembers(pages: seq<Page>)
    ensures forall p :: p in NonBlank(pages) <==> p in pages && !IsBlank(p.text)
  {
    if pages != [] {
      var init := pages[..|pages| - 1];
      NonBlankMembers(init);
      assert pages == init + [pages[|pages| - 1]];
    }
  }

  /**
   * The script speaks page `k` at positions `3k..3k+2`: its display comes
   * first, then its text is said, then the highlight is cleared.
   */
  lemma {:induction false} ScriptAt(pages: seq<Page>, k: nat)
    requires k < |pages|
    ensures |Script(pages)| == 3 * |pages|
    ensures Script(pages)[3 * k] == Display(Header(pages[k]))
    ensures Script(pages)[3 * k + 1] == Say(pages[k].text)
    ensures Script(pages)[3 * k + 2] == HighlightClear
    decreases |pages|
  {
    var init := pages[..|pages| - 1];
    if k < |pages| - 1 {
      ScriptAt(init, k);
    } else if init != [] {
      ScriptAt(init, 0);
    }
  }

  /** Appending events that are neither displays nor says keeps the page events. */
  lemma {:induction false} AppendNonPage(trace: seq<Event>, extra: seq<Event>)
    requires forall e :: e in extra ==> !IsPageEvent(e)
    ensures PageEvents(trace + extra) == PageEvents(trace)
    decreases |extra|
  {
    if extra != [] {
      var init := extra[..|extra| - 1];
      assert (trace + extra)[..|trace + extra| - 1] == trace + init;
      assert (trace + extra)[|trace + extra| - 1] == extra[|extra| - 1];
      assert extra[|extra| - 1] in extra;
      AppendNonPage(trace, init);
    } else {
      assert trace + extra == trace;
    }
  }

  /** No utterance among `events`. */
  predicate NothingSaid(events: seq<Event>)
  {
    forall i :: 0 <= i < |events| ==> !events[i].Say?
  }

  /** If appending the page events as they were, `extra` holds no page event. */
  lemma {:induction false} UnchangedPageEvents(trace: seq<Event>, extra: seq<Event>)
    requires PageEvents(trace + extra) == PageEvents(trace)
    ensures forall e :: e in extra ==> !IsPageEvent(e)
    decreases |extra|
  {
    PageEventsAppend(trace, extra);
    if extra != [] {
      var init := extra[..|extra| - 1];
      var last := extra[|extra| - 1];
      PageEventsAppend(trace, init);
      assert PageEvents(init) == [] && !IsPageEvent(last);
      UnchangedPageEvents(trace, init);
      assert extra == init + [last];
    }
  }

  /** Appending events that are neither displays nor says keeps the trace quiet after stops. */
  lemma AppendQuiet(trace: seq<Event>, from: nat, extra: seq<Event>)
    requires QuietAfterStop(trace, from)
    requires forall e :: e in extra ==> !e.Display? && !e.Say?
    ensures QuietAfterStop(trace + extra, from)
  {
    var t := trace + extra;
    forall j, l | from <= j < l < |t| && t[j] == EngineStop
      ensures !t[l].Display? && !t[l].Say?
    {
      if l >= |trace| {
        assert t[l] == extra[l - |trace|];
      }
    }
  }

  /** An engine stop is found after `from` in a longer trace iff it was there before or is among the new events. */
  lemma AppendStopped(trace: seq<Event>, from: nat, extra: seq<Event>)
    requires from <= |trace|
    ensures StoppedSince(trace + extra, from) <==> StoppedSince(trace, from) || EngineStop in extra
  {
    var t := trace + extra;
    if StoppedSince(trace, from) {
      var j :| from <= j < |trace| && trace[j] == EngineStop;
      assert t[j] == EngineStop;
    }
    if EngineStop in extra {
      var m :| 0 <= m < |extra| && extra[m] == EngineStop;
      assert t[|trace| + m] == EngineStop;
    }
    if StoppedSince(t, from) {
      var j :| from <= j < |t| && t[j] == EngineStop;
      if j >= |trace| {
        assert extra[j - |trace|] == EngineStop;
      }
    }
  }

  /** Appending events before any engine stop keeps the trace quiet after stops. */
  lemma AppendBeforeStop(trace: seq<Event>, from: nat, extra: seq<Event>)
    requires !StoppedSince(trace, from) && EngineStop !in extra
    ensures !StoppedSince(trace + extra, from)
    ensures QuietAfterStop(trace + extra, from)
  {
    var t := trace + extra;
    forall j | from <= j < |t|
      ensures t[j] != EngineStop
    {
      if j >= |trace| {
        assert t[j] == extra[j - |trace|];
      }
    }
  }
}
