/**
 * The sampling period `INTERVAL_MS` and the button callback that steps it:
 * button 2 pressed adds a second, button 1 pressed takes one away unless the
 * period is already one second.
 */
module IntervalControl {

  const INITIAL_INTERVAL_MS := 1000
  const STEP_MS := 1000
  const MIN_INTERVAL_MS := 1000

  /** `btn_cb`'s `args`: the button number and the kind of event (1 is a press). */
  datatype ButtonEvent = ButtonEvent(btn: int, kind: int)

  const BUTTON_DOWN := 1
  const BUTTON_UP := 2
  const PRESSED := 1

  /** A period the buttons can reach: a whole number of seconds, at least one. */
  predicate IntervalOk(ms: int)
  {
    ms >= MIN_INTERVAL_MS && ms % STEP_MS == 0
  }

  /** Whether the event changes the period, and so re-publishes it. */
  predicate Steps(ms: int, e: ButtonEvent)
  {
    (e.btn == BUTTON_UP && e.kind == PRESSED) || (e.btn == BUTTON_DOWN && e.kind == PRESSED && ms > MIN_INTERVAL_MS)
  }

  /**
   * The period after one button event: an up press adds a second, a down
   * press above the minimum takes one away, and every other event leaves it.
   */
  function NextInterval(ms: int, e: ButtonEvent): (r: int)
    ensures IntervalOk(ms) ==> IntervalOk(r)
    ensures Steps(ms, e) <==> r != ms
    ensures e.btn == BUTTON_UP && e.kind == PRESSED ==> r == ms + STEP_MS
    ensures e.btn == BUTTON_DOWN && e.kind == PRESSED && ms > MIN_INTERVAL_MS ==> r == ms - STEP_MS
  {
    if e.btn == BUTTON_UP && e.kind == PRESSED then ms + STEP_MS
    else if e.btn == BUTTON_DOWN && e.kind == PRESSED && ms > MIN_INTERVAL_MS then ms - STEP_MS
    else ms
  }

  /** The period after a run of button events, starting from the initial one. */
  function IntervalAfter(events: seq<ButtonEvent>): int
  {
    if |events| == 0 then INITIAL_INTERVAL_MS
    else NextInterval(IntervalAfter(events[..|events| - 1]), events[|events| - 1])
  }

  /** Whatever the buttons do, the period stays a whole number of seconds, at least one. */
  lemma {:induction false} IntervalAfterOk(events: seq<ButtonEvent>)
    ensures IntervalOk(IntervalAfter(events))
  {
    if |events| > 0 {
      IntervalAfterOk(events[..|events| - 1]);
    }
  }
}
