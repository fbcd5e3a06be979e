/**
 * The selection guard of the browser client (static/app.js): two globals,
 * `lastSelectionTime` and `savedSelection` (lines 15-16), updated by the
 * terminal's selection-change handler (lines 226-236) and by the copy branch
 * of the keydown handler (lines 191-208), and read by the input handler
 * (lines 289-303), which drops a ^C that arrives within 500 ms of selection
 * activity. `Date.now()` is the parameter `now`, in milliseconds.
 */
module Guard {
  import opened Wrappers
  import opened Utf16
  import opened Codec
  import opened Protocol

  /** The grace window, in milliseconds. */
  const GraceWindow: int := 500

  /** The input a ^C keystroke produces: the single control character 0x03. */
  const Interrupt: JsString := [0x03]

  /** The two globals the guard owns. */
  datatype GuardState = GuardState(lastSelectionTime: int, savedSelection: JsString)

  /** The selection-change handler: a non-empty selection is saved and timestamped; an empty one clears the saved text only once the grace window has passed. */
  function SelectionChanged(st: GuardState, sel: JsString, now: int): GuardState {
    if sel != [] then GuardState(now, sel)
    else if now - st.lastSelectionTime > GraceWindow then st.(savedSelection := [])
    else st
  }

  /** `savedSelection || terminal.getSelection()`: the saved text if there is any, else the live selection. */
  function CopyText(st: GuardState, live: JsString): JsString {
    if st.savedSelection != [] then st.savedSelection else live
  }

  /** The copy shortcut: the new state, and the text copied, if any. */
  function CopyShortcut(st: GuardState, live: JsString, now: int): (GuardState, Option<JsString>) {
    var text := CopyText(st, live);
    if text != [] then (GuardState(now, []), Some(text)) else (st, None)
  }

  /** The input filter: only a ^C within the grace window is dropped. */
  predicate Forwards(st: GuardState, data: JsString, now: int) {
    !(data == Interrupt && now - st.lastSelectionTime < GraceWindow)
  }

  /** An event that changes the guard, with its time. */
  datatype GuardEvent = SelectionChange(sel: JsString, at: int) | CopyKey(live: JsString, at: int)

  function Step(st: GuardState, ev: GuardEvent): GuardState {
    match ev
    case SelectionChange(sel, at) => SelectionChanged(st, sel, at)
    case CopyKey(live, at) => CopyShortcut(st, live, at).0
  }

  /** The state after a sequence of events, the last one applied last. */
  function Run(st: GuardState, evs: seq<GuardEvent>): GuardState {
    if evs == [] then st else Step(Run(st, evs[..|evs| - 1]), evs[|evs| - 1])
  }

  /** No event moves the selection time back before a bound that every event time respects. */
  lemma {:induction false} RunKeepsRecent(st: GuardState, evs: seq<GuardEvent>, t0: int)
    requires st.lastSelectionTime >= t0
    requires forall i :: 0 <= i < |evs| ==> evs[i].at >= t0
    ensures Run(st, evs).lastSelectionTime >= t0
  {
    if evs != [] {
      RunKeepsRecent(st, evs[..|evs| - 1], t0);
    }
  }

  /**
   * After a non-empty selection at t0, and whatever selection or copy events
   * follow it, a ^C that comes before t0 + 500 is dropped.
   */
  lemma InterruptDroppedWithinWindow(st: GuardState, sel: JsString, t0: int, evs: seq<GuardEvent>, t: int)
    requires sel != []
    requires forall i :: 0 <= i < |evs| ==> evs[i].at >= t0
    requires t < t0 + GraceWindow
    ensures !Forwards(Run(SelectionChanged(st, sel, t0), evs), Interrupt, t)
  {
    RunKeepsRecent(SelectionChanged(st, sel, t0), evs, t0);
  }

  ghost predicate OnlyCollapses(evs: seq<GuardEvent>) {
    forall i :: 0 <= i < |evs| ==> evs[i].SelectionChange? && evs[i].sel == []
  }

  /** Selection changes to an empty selection never touch the selection time. */
  lemma {:induction false} CollapsesKeepTime(st: GuardState, evs: seq<GuardEvent>)
    requires OnlyCollapses(evs)
    ensures Run(st, evs).lastSelectionTime == st.lastSelectionTime
  {
    if evs != [] {
      CollapsesKeepTime(st, evs[..|evs| - 1]);
    }
  }

  /**
   * After a non-empty selection at t0 followed only by the selection
   * collapsing, a ^C at t0 + 500 or later is forwarded.
   */
  lemma InterruptForwardedAfterWindow(st: GuardState, sel: JsString, t0: int, evs: seq<GuardEvent>, t: int)
    requires sel != []
    requires OnlyCollapses(evs)
    requires t >= t0 + GraceWindow
    ensures Forwards(Run(SelectionChanged(st, sel, t0), evs), Interrupt, t)
  {
    CollapsesKeepTime(SelectionChanged(st, sel, t0), evs);
  }

  /** Any input other than a lone ^C is forwarded, at any time. */
  lemma OtherInputForwarded(st: GuardState, data: JsString, now: int)
    requires data != Interrupt
    ensures Forwards(st, data, now)
  {
  }

  /**
   * A selection that collapses within the grace window is still what the
   * copy shortcut copies, whatever the live selection is by then.
   */
  lemma CollapseWithinWindowKeepsSaved(st: GuardState, sel: JsString, t0: int, t1: int, live: JsString, t2: int)
    requires sel != [] && t1 - t0 <= GraceWindow
    ensures CopyShortcut(SelectionChanged(SelectionChanged(st, sel, t0), [], t1), live, t2) == (GuardState(t2, []), Some(sel))
  {
  }

  /** Once the grace window has passed, a collapse forgets the saved text and the copy shortcut falls back to the live selection. */
  lemma CollapseAfterWindowForgets(st: GuardState, sel: JsString, t0: int, t1: int, live: JsString, t2: int)
    requires sel != [] && t1 - t0 > GraceWindow
    ensures CopyShortcut(SelectionChanged(SelectionChanged(st, sel, t0), [], t1), live, t2).1 == (if live == [] then None else Some(live))
  {
  }

  /** A copy that found text empties the saved selection and drops a ^C for the next 500 ms. */
  lemma CopyThenInterruptDropped(st: GuardState, live: JsString, t: int, t': int)
    requires CopyText(st, live) != [] && t' < t + GraceWindow
    ensures CopyShortcut(st, live, t).0.savedSelection == []
    ensures !Forwards(CopyShortcut(st, live, t).0, Interrupt, t')
  {
  }

  /** The outcome of a keydown in the terminal. */
  datatype KeyOutcome =
    | Copied(text: JsString)  // the text goes to the clipboard and the event is suppressed
    | PasteRequested          // the clipboard is read; its text is sent as input
    | Unhandled               // the event reaches the terminal

  function IsChord(ctrl: bool, meta: bool, key: JsString, lower: JsString, upper: JsString): bool {
    (ctrl || meta) && (key == lower || key == upper)
  }

  predicate IsCopyChord(ctrl: bool, meta: bool, key: JsString) {
    IsChord(ctrl, meta, key, Ascii("c"), Ascii("C"))
  }

  predicate IsPasteChord(ctrl: bool, meta: bool, key: JsString) {
    IsChord(ctrl, meta, key, Ascii("v"), Ascii("V"))
  }

  class SelectionGuard {
    var lastSelectionTime: int
    var savedSelection: JsString

    function State(): GuardState
      reads this
    {
      GuardState(lastSelectionTime, savedSelection)
    }

    /** The globals as the page loads them. */
    constructor ()
      ensures State() == GuardState(0, [])
    {
      lastSelectionTime := 0;
      savedSelection := [];
    }

    method OnSelectionChange(sel: JsString, now: int)
      modifies this
      ensures State() == SelectionChanged(old(State()), sel, now)
      ensures sel != [] ==> lastSelectionTime == now && savedSelection == sel
      ensures sel == [] ==> lastSelectionTime == old(lastSelectionTime)
    {
      if sel != [] {
        lastSelectionTime := now;
        savedSelection := sel;
      } else if now - lastSelectionTime > GraceWindow {
        savedSelection := [];
      }
    }

    method OnCopyShortcut(liveSel: JsString, now: int) returns (copied: Option<JsString>)
      modifies this
      ensures (State(), copied) == CopyShortcut(old(State()), liveSel, now)
      ensures copied.Some? ==> copied.value != [] && lastSelectionTime == now && savedSelection == []
      ensures copied.None? ==> State() == old(State())
    {
      var selection := if savedSelection != [] then savedSelection else liveSel;
      if selection != [] {
        lastSelectionTime := now;
        savedSelection := [];
        copied := Some(selection);
      } else {
        copied := None;
      }
    }

    /** The keydown handler: the copy chord goes through the guard, the paste chord asks for the clipboard. */
    method OnKeyDown(ctrl: bool, meta: bool, key: JsString, liveSel: JsString, now: int) returns (outcome: KeyOutcome)
      modifies this
      ensures IsCopyChord(ctrl, meta, key) ==>
                var (st, c) := CopyShortcut(old(State()), liveSel, now);
                State() == st && outcome == (if c.Some? then Copied(c.value) else Unhandled)
      ensures !IsCopyChord(ctrl, meta, key) ==>
                State() == old(State()) && outcome == (if IsPasteChord(ctrl, meta, key) then PasteRequested else Unhandled)
    {
      if IsCopyChord(ctrl, meta, key) {
        var copied := OnCopyShortcut(liveSel, now);
        outcome := if copied.Some? then Copied(copied.value) else Unhandled;
      } else if IsPasteChord(ctrl, meta, key) {
        outcome := PasteRequested;
      } else {
        outcome := Unhandled;
      }
    }

    /**
     * The input handler: the `stdin` message it sends for the data the
     * terminal produced, or None when it sends nothing.
     */
    method OnData(data: JsString, now: int, socketOpen: bool) returns (sent: Option<ClientMessage>)
      ensures sent.Some? <==> socketOpen && Forwards(State(), data, now) && WellFormed(data)
      ensures sent.Some? ==> sent.value == Stdin(Utf8ToBase64(data).value)
      ensures sent.Some? ==> Base64ToUtf8(sent.value.data) == Success(data)
    {
      sent := None;
      if socketOpen {
        var timeSinceSelection := now - lastSelectionTime;
        if data == Interrupt && timeSinceSelection < GraceWindow {
          return;
        }
        sent := StdinMessage(data, socketOpen);
      }
    }
  }
}
