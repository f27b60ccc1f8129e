# Audiobook reader: extraction and narration core

A Dafny model of the coordination core of `gui_advance_audiobook.py`, a
desktop audiobook reader that extracts the pages of a PDF concurrently and
then reads them aloud on a background thread, with start, pause/resume and
stop buttons.

The model covers three parts of the `AudioBookApp` class:

- **Concurrent extraction** (`_get_extracted_content_concurrently`). The
  thread pool is replaced by its observable input: the order in which the
  page futures complete, each with either the page's text or the exception
  it raised (`Extraction.Completion`). That order is any arrangement of the
  page indices, each appearing once (`Extraction.IsCompletionOrder`). The
  method is written imperatively over an array of slots, as in the source.
  It is proved equal to a specification function, `ExtractionResult`. The
  lemmas about that function show the all-or-nothing outcome, page order,
  that the completion order does not matter on success, and that the first
  error completed wins.
- **Classification of the result** (`_post_extraction_update`): the error
  sentinel, a loaded document, or nothing loaded. It is modelled as the
  function `Classification.Classify`, the method
  `App.AudioBookApp.PostExtractionUpdate`, and the lemma
  `Classification.ClassifyExtraction`, which ties extraction to
  classification.
- **The control state machine and the narration loop**. These are
  `start_reading`, `pause_resume_reading`, `stop_reading` and
  `_reading_process`, held in the class `App.AudioBookApp`. Its fields are
  the source's `is_reading`, `is_paused`, `stop_flag` and
  `current_content`, plus a `trace` of everything sent to the display, the
  status bar and the speech engine. The pure transitions live in
  `Controls`. The narration loop is a `while` loop with invariants:
  - the speech engine's `isBusy()` answers come from a parameter
    `busyTicks`;
  - user button presses come from an action schedule `actions`. One action
    is taken at each observation point of the background thread: each sleep
    of its wait loops, and the stop check before each page;
  - the control state after a session is the replay of the actions taken
    (`Controls.Replay`). A session stops exactly when a stop press was
    taken, and without one it reads every page unless a pause outlasts the
    schedule. Each visited page takes one action at its stop check, and
    each busy answer of a spoken page takes one busy-wait sleep on top of
    any pause-loop sleeps, so a stop pressed within that horizon
    (`Narration.StopHorizon`) always ends the session;
  - the session ends exactly where the source's would on the same
    schedule (`Schedule.Narrate`, built from `Schedule.PauseEnd` and
    `Schedule.BusyEnd`). The pause loop takes an action at every point where
    it is paused and not stopped, and lets go at the first point where it
    is not. A busy wait that ends on its own has released exactly once per
    busy answer and last slept in the busy loop, so a paused page is held
    until resume or stop;
  - the loop is proved against the specification function
    `Narration.Script`. Each non-blank page, in order, gets a display of
    `PAGE n`, a say of its text and a highlight clear. No display or say
    follows a stop taken at an observation point.

Voice setup (`setup_tts_voice`) is modelled as the pure function
`Voice.FemaleVoiceId` and is applied in the constructor.

Python's `str.strip()` blank test, `startswith` and `replace` are modelled
in `Text`. Whitespace is the set of characters Python's `str.isspace`
accepts.

Behaviours of the code worth noting:

- `stop_reading` leaves `is_paused` as it was. A session started after a
  stop issued while paused begins paused (`Controls.RestartAfterPausedStop`).
- Pause is only honoured inside the busy-wait of a page. A page whose turn
  comes is displayed and said even if pause was pressed just before it.
- A missing file comes back as the error sentinel whose message is
  `FileNotFoundError: File not found: <path>`, not as a separate error
  kind.
- On success the result holds exactly one entry per page, numbered 1 to N.
- `replace("EXTRACTION_ERROR: ", "")` removes every occurrence of the
  prefix, not only the leading one (`Text.RemoveAll`).
- The reading speed is passed to the engine as given, without clamping.
  This path is left out below.

## Model

| member | source | states |
|---|---|---|
| Extraction.GetExtractedContentConcurrently | gui_advance_audiobook.py:250-288 | Given any completion order of the page futures, the content equals `ExtractionResult`: the FileNotFoundError sentinel for a missing path, the open failure's sentinel, the first completed error's sentinel, or one `(i+1, text)` entry per page in page order |
| Extraction.AllOrNothing | gui_advance_audiobook.py:255-288 | The result is the error sentinel exactly when an error was reported (missing file, open failure or a failed page); otherwise entry i is numbered i+1 and no partial content is returned |
| Extraction.SuccessInPageOrder | gui_advance_audiobook.py:262-285 | With no failed page, the result has one entry per page, numbered i+1 in strictly ascending order, each holding the text that page's future completed with |
| Extraction.CompletionOrderIrrelevant | gui_advance_audiobook.py:269-285 | Two completion orders that are permutations of each other give the same successful result: the order in which futures complete does not change the content |
| Extraction.FirstErrorWins | gui_advance_audiobook.py:274-283 | When the first failed future to complete raised e, the result is e's sentinel, whatever completes after it |
| Extraction.AnyPageErrorFails | gui_advance_audiobook.py:274-288 | A single failed page makes the whole extraction return the error sentinel |
| Extraction.FirstErrorNoneIff | gui_advance_audiobook.py:274-282 | No error is recorded exactly when every completed future returned text |
| Extraction.FirstErrorSnoc | gui_advance_audiobook.py:275-277 | A recorded error is kept when more futures complete; only the first failure is recorded |
| Extraction.FirstErrorOfPrefix | gui_advance_audiobook.py:275-277 | The recorded error is the first failure in completion order, whatever follows it |
| Classification.ClassifyExtraction | gui_advance_audiobook.py:152-167 | Extraction with an error classifies as Failed with the message "Class: message" (after removing every "EXTRACTION_ERROR: "), equal to it when the prefix does not occur; a non-empty success classifies as Loaded with that content; an empty document as nothing loaded; start is enabled and the content kept exactly when there was no error and at least one page |
| Text.RemoveAllAbsent | gui_advance_audiobook.py:155 | Removing a pattern that does not occur leaves the message unchanged |
| Text.RemoveAllLeading | gui_advance_audiobook.py:155 | Removing the pattern from a string that starts with it drops that occurrence and treats the rest the same way |
| App.AudioBookApp.PostExtractionUpdate | gui_advance_audiobook.py:152-167 | The new content and start-button state follow the classification; the status and display messages for each of the three cases are appended; the reading controls and the other buttons are unchanged, and nothing is said |
| App.AudioBookApp.SelectPdfFile | gui_advance_audiobook.py:135-145 | A cancelled dialog changes nothing; a chosen file becomes the document path, "Extracting content..." is reported, and the extraction of that path decides the content and the start button (a missing file appends exactly that status, the failure status and the failure display); the reading controls are unchanged and nothing is said |
| App.AudioBookApp.InitialExtraction | gui_advance_audiobook.py:147-150 | Extraction of the current path followed by its update: start is enabled exactly when there was no error and at least one page; a missing file leaves no content and start disabled and appends exactly the failure status and display; nothing is said |
| App.AudioBookApp.StartAfterMissingFile | gui_advance_audiobook.py:135-167 | Choosing a missing file and then pressing start runs a session that finishes at once with no content and reading off; from the choice on nothing is said and no `PAGE` display appears |
| App.FailureShowsNoPage | gui_advance_audiobook.py:156-159 | The failure status and the failure display say nothing and do not read as a `PAGE` header |
| App.AudioBookApp.constructor | gui_advance_audiobook.py:25-29 | A new app has no document (the default path is empty), idle controls, no content and an empty trace, the default rate 180 and the configured voice; the start, pause and stop buttons begin disabled, as `setup_gui` creates them at lines 98-102 |
| Voice.FemaleVoiceId | gui_advance_audiobook.py:77 | None exactly when no voice name contains "female" or "zira" (lower-cased); otherwise the id of the first such voice |
| Voice.ConfiguredVoice | gui_advance_audiobook.py:76-79 | The first preferred voice's id is installed whenever it is non-empty; otherwise (no preferred voice, or an empty id) the engine's default is kept; any voice other than the default is a preferred one |
| App.AudioBookApp.StartReading | gui_advance_audiobook.py:211-222 | Ignored while reading; otherwise reading is on, the stop flag clear, pause and stop enabled, start disabled, and "Reading started..." is reported |
| Controls.StartSemantics | gui_advance_audiobook.py:211-216 | Start is a no-op while reading; otherwise it sets reading, clears the stop flag and keeps the pause flag |
| App.AudioBookApp.PauseResumeReading | gui_advance_audiobook.py:224-236 | Ignored when not reading; otherwise toggles the pause flag and reports "Reading paused." or "Reading resumed." accordingly |
| Controls.PauseResumeParity | gui_advance_audiobook.py:224-236 | Pressing pause k times while reading flips the pause flag exactly when k is odd; while not reading it changes nothing |
| Controls.PauseResumeTwice | gui_advance_audiobook.py:224-236 | Pause then resume restores the control state |
| App.AudioBookApp.StopReading | gui_advance_audiobook.py:238-246 | Sets the stop flag, stops the engine, turns reading off, resets the buttons and reports "Reading stopped."; the pause flag is left as it was |
| Controls.StopIdempotent | gui_advance_audiobook.py:238-246 | Stopping twice is the same as stopping once; stop keeps the pause flag, turns reading off and sets the stop flag |
| Controls.RestartAfterPausedStop | gui_advance_audiobook.py:213-244 | Start, pause, stop, start gives a session that is reading and already paused, since stop never clears the pause flag |
| App.AudioBookApp.Observe | gui_advance_audiobook.py:224-246 | A user action applies its control transition, shows and says nothing, and stops the engine exactly when it is a stop |
| Controls.ReplayStopFlag | gui_advance_audiobook.py:238-246 | After a run of user actions the stop flag is set exactly when it was set before or one of the actions is a stop |
| Controls.ReplayWithoutStop | gui_advance_audiobook.py:224-236 | A run of actions without a stop keeps the session open and leaves it paused exactly when it started paused xor pause was pressed an odd number of times |
| App.AudioBookApp.ObservationPoint | gui_advance_audiobook.py:299-318 | At a sleep or a page's stop check, the next scheduled action (if any) is taken: the controls become the replay of one more action, and no page event is added |
| App.AudioBookApp.WaitWhilePaused | gui_advance_audiobook.py:313-315 | The pause loop ends at `PauseEnd`: it takes an action at every point where it is paused and not stopped and leaves at the first point where it is not, or suspends still paused once every action is used; the controls are the replay of the actions taken, and nothing is shown or said |
| App.AudioBookApp.WaitWhileBusy | gui_advance_audiobook.py:311-318 | The busy wait ends at `BusyEnd`: each busy answer waits out the pause loop and then sleeps once, and the stop flag ends it; so unless it stops or suspends it has used every busy answer and at least `remaining` actions (or all of them). It shows and says nothing, keeps no display or say after a stop, and its controls are the replay of the actions taken |
| App.AudioBookApp.SpeakPage | gui_advance_audiobook.py:303-326 | Speaking a page adds its `PAGE n` display and its say, waits until `BusyEnd`, then (unless suspended while paused) adds one highlight clear; a page that is neither stopped nor suspended has used at least one action per busy answer |
| App.AudioBookApp.VisitEntry | gui_advance_audiobook.py:298-326 | One loop iteration ends at `VisitEnd`: it takes the stop-check action, then breaks on the stop flag, skips a blank page, or speaks the page until its busy wait ends; it goes on only with the stop flag clear, and the page events stay those of the non-blank pages visited |
| App.AudioBookApp.FinishSession | gui_advance_audiobook.py:328-331 | At the end, reading is off, the buttons are reset, and "Reading stopped." or "Reading finished." is reported according to the stop flag |
| App.AudioBookApp.ReadingProcess | gui_advance_audiobook.py:291-331 | The pages visited, the actions used and whether the run is stuck paused are exactly `Narrate` of the starting controls, pages, busy answers and schedule. The page events added are `Script` of the non-blank pages visited, in order, and finishing means every page was visited. The final controls are the replay of the actions taken, with reading off. The session ends Stopped exactly when a stop press was taken; a finished session used every action or at least `StopHorizon` of them (one per page and per busy answer of each non-blank page), so any stop scheduled within that horizon ends it Stopped. Without a stop every non-blank page is read unless a pause outlasts the schedule (`StillPaused`, which holds the next non-blank page open with every action used). No display or say follows the engine stop, and the final status matches the stop flag |
| Schedule.PauseEndHeld | gui_advance_audiobook.py:313-315 | Every point the pause loop passes is paused and not stopped, and the point where it lets go (before the schedule ends) is not |
| Schedule.BusyEndSuspended | gui_advance_audiobook.py:311-315 | A busy wait is stuck only in its pause loop, paused and not stopped, with every action used |
| Schedule.BusyEndReleases | gui_advance_audiobook.py:311-318 | A busy wait releases (sleeps outside the pause loop) at most once per busy answer, and exactly once per answer when it ends on its own, unstopped, before the schedule does |
| Schedule.BusyEndLastRelease | gui_advance_audiobook.py:311-318 | A busy wait that ends before the schedule does, and not stuck paused, ends on a busy-loop sleep: it never leaves a page from inside the pause loop |
| Schedule.PauseHoldsPage | gui_advance_audiobook.py:309-318 | On two non-blank pages, the first answered busy twice, a pause pressed at the first busy sleep holds that page through three idle sleeps until resume, so the session visits both pages, uses all six actions and ends unpaused |
| Narration.NonBlankMembers | gui_advance_audiobook.py:298-301 | The pages narrated are exactly the pages whose text is not blank |
| Narration.NonBlankPrefix | gui_advance_audiobook.py:298-301 | Pages are narrated in order: the pages narrated up to page i are a prefix of those narrated up to any later page |
| Narration.ScriptAt | gui_advance_audiobook.py:303-326 | The k-th narrated page contributes, at positions 3k to 3k+2, its `PAGE n` display, its say and a highlight clear, so each page is displayed before it is said |

## Left out

- The Tk layout, fonts, the speed slider and the speed label are not modelled; display, status-bar and engine calls become events in `trace`.
- `_set_speed_from_slider` is not modelled: it converts the slider's floating-point value to an integer rate, and floating point is outside the model.
- Word highlighting (`_on_tts_word`, `_highlight_word`) is not modelled, because its Tk text indices and engine callbacks are presentation.
- App.AudioBookApp.SelectPdfFile: the file dialog is replaced by its answer `chosen`, and the path label (line 140) is not modelled. The extraction thread started at line 145 is taken to run at once, so the window in which start is disabled and "Extracting content..." shows is marked only by that status event.
- `on_closing` is not modelled; it only shuts down the engine and window.
- `master.after` marshalling onto the GUI thread is treated as immediate. The lambda at line 304 reads `self.current_page_text` late, and the one at line 330 reads `self.stop_flag` late. The model uses the values at the time of the call.
- Threads, the engine lock and real sleep times are not modelled. Interleavings are limited to user actions taken at the narration thread's observation points (each sleep of its wait loops, and the stop check before each page), and to the completion order of extraction futures.
- App.AudioBookApp.ReadingProcess: a stop pressed between a page's stop check (line 299) and its `say` (line 308) is not modelled. In the source the engine is then stopped at line 243 before the page is displayed at line 304 and queued at line 308, so that page is still shown and queued after the stop. The model has no observation point there, so its "no display or say after a stop" covers only stops taken at observation points.
- A start pressed while an earlier narration thread is still winding down is not modelled, since only one narration thread runs at a time here.
- pypdf and pyttsx3 are external. Page texts, open failures and page exceptions are inputs. `isBusy()` answers come from `busyTicks`, and the speech itself is the `Say` event.
- The crash handler at lines 333-337 is not modelled, since nothing in the model raises.
- App.AudioBookApp.ReadingProcess: a pause that never ends (the source spins forever) ends the model's run as `StillPaused` once the action schedule is exhausted.
- Voice.FemaleVoiceId: `lower()` is modelled on ASCII letters only; other Unicode case mappings are not modelled.
