/**
 * The peripheral's side of the passkey step of LE Secure Connections
 * pairing: which value it hands to `gap_passkey` for each passkey action.
 * The device has neither display nor keyboard, so it accepts every numeric
 * comparison, always "displays" the same passkey and echoes an input request.
 */
module Pairing {
  import opened Types

  const PASSKEY_ACTION_INPUT := 2
  const PASSKEY_ACTION_DISP := 3
  const PASSKEY_ACTION_NUMCMP := 4

  /** The answer to a numeric comparison: accept. */
  const NUMCMP_ACCEPT := 1

  /** The passkey offered for display, the same in every pairing. */
  const FIXED_PASSKEY := 1234

  /**
   * The value passed to `gap_passkey` for a passkey action and the passkey
   * that came with it, or None when the action is unknown and nothing is
   * sent: a numeric comparison is accepted with 1, a display request shows
   * 1234, an input request echoes the passkey received.
   */
  function PasskeyResponse(action: int, passkey: int): (r: Option<int>)
    ensures r.Some? <==> action in {2, 3, 4}
    ensures action == 4 ==> r == Some(1)
    ensures action == 3 ==> r == Some(1234)
    ensures action == 2 ==> r == Some(passkey)
  {
    if action == PASSKEY_ACTION_NUMCMP then Some(NUMCMP_ACCEPT)
    else if action == PASSKEY_ACTION_DISP then Some(FIXED_PASSKEY)
    else if action == PASSKEY_ACTION_INPUT then Some(passkey)
    else None
  }

  /**
   * Only an input request looks at the passkey it carries; every other
   * response is the same whatever passkey arrived.
   */
  lemma OnlyInputEchoes(action: int, p: int, q: int)
    ensures action != PASSKEY_ACTION_INPUT ==> PasskeyResponse(action, p) == PasskeyResponse(action, q)
    ensures p != q ==> (PasskeyResponse(action, p) == PasskeyResponse(action, q) <==> action != PASSKEY_ACTION_INPUT)
  {
  }
}
