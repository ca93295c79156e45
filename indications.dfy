/**
 * What the `set_*` methods tell the BLE stack and how they record in-flight
 * indications. Each call loops over the connected handles; for each one it
 * sends a notification if asked and, if asked to indicate, stamps the
 * handle's single pending-indication slot with the current tick and sends
 * an indication.
 */
module Indications {

  /** A stack-assigned connection handle. */
  type ConnHandle = int

  /** The three characteristics of the environmental-sensing service. */
  datatype Characteristic = Temperature | Distance | Interval

  /** The calls the peripheral makes on the BLE stack, in the order it makes them. */
  datatype StackCall =
    | Notify(conn: ConnHandle, ch: Characteristic)       // gatts_notify
    | Indicate(conn: ConnHandle, ch: Characteristic)     // gatts_indicate
    | Passkey(conn: ConnHandle, action: int, value: int) // gap_passkey
    | Advertise                                          // gap_advertise

  /**
   * `_pending_indications[c] = now` for every c in `conns`: those slots hold
   * `now` whatever they held before, and every other slot is left alone.
   */
  function Stamp(pending: map<ConnHandle, int>, conns: set<ConnHandle>, now: int): (r: map<ConnHandle, int>)
    ensures r.Keys == pending.Keys + conns
    ensures forall c :: c in conns ==> r[c] == now
    ensures forall c :: c in pending && c !in conns ==> r[c] == pending[c]
  {
    map c | c in pending.Keys + conns :: if c in conns then now else pending[c]
  }

  lemma StampOneMore(pending: map<ConnHandle, int>, done: set<ConnHandle>, c: ConnHandle, now: int)
    ensures Stamp(pending, done + {c}, now) == Stamp(pending, done, now)[c := now]
  {
  }

  /** A non-empty set of handles has a handle to pick. */
  lemma SomeConnection(conns: set<ConnHandle>)
    requires conns != {}
    ensures exists c :: c in conns
  {
    if forall c :: c !in conns {
      assert false;
    }
  }

  predicate NoDuplicates(order: seq<ConnHandle>)
  {
    forall i, j :: 0 <= i < j < |order| ==> order[i] != order[j]
  }

  /** `order` is one way of going through the set `conns`: each handle exactly once. */
  ghost predicate Enumerates(order: seq<ConnHandle>, conns: set<ConnHandle>)
  {
    NoDuplicates(order) && (forall c :: c in order <==> c in conns)
  }

  /** How many calls each handle gets: one per flag that is set. */
  function CallsPerHandle(notify: bool, indicate: bool): nat
  {
    (if notify then 1 else 0) + (if indicate then 1 else 0)
  }

  /** The calls made for one handle: a notification if asked, then an indication if asked. */
  function HandleCalls(c: ConnHandle, ch: Characteristic, notify: bool, indicate: bool): (r: seq<StackCall>)
    ensures |r| == CallsPerHandle(notify, indicate)
  {
    (if notify then [Notify(c, ch)] else []) + (if indicate then [Indicate(c, ch)] else [])
  }

  /** The stack calls made for the handles of `order`, taken one after the other. */
  function CallsFor(order: seq<ConnHandle>, ch: Characteristic, notify: bool, indicate: bool): seq<StackCall>
  {
    if |order| == 0 then []
    else HandleCalls(order[0], ch, notify, indicate) + CallsFor(order[1..], ch, notify, indicate)
  }

  /** A pass makes as many calls per handle as there are flags set, and no others. */
  lemma {:induction false} CallsForLength(order: seq<ConnHandle>, ch: Characteristic, notify: bool, indicate: bool)
    ensures |CallsFor(order, ch, notify, indicate)| == CallsPerHandle(notify, indicate) * |order|
  {
    if |order| > 0 {
      CallsForLength(order[1..], ch, notify, indicate);
    }
  }

  lemma {:induction false} CallsForAppend(order: seq<ConnHandle>, c: ConnHandle, ch: Characteristic, notify: bool, indicate: bool)
    ensures CallsFor(order + [c], ch, notify, indicate)
         == CallsFor(order, ch, notify, indicate) + HandleCalls(c, ch, notify, indicate)
  {
    if |order| == 0 {
      assert order + [c] == [c];
    } else {
      assert (order + [c])[0] == order[0];
      assert (order + [c])[1..] == order[1..] + [c];
      CallsForAppend(order[1..], c, ch, notify, indicate);
    }
  }

  lemma NoDuplicatesTail(order: seq<ConnHandle>)
    requires |order| > 0 && NoDuplicates(order)
    ensures NoDuplicates(order[1..]) && order[0] !in order[1..]
  {
    forall i, j | 0 <= i < j < |order[1..]| ensures order[1..][i] != order[1..][j] {
      assert order[1..][i] == order[i + 1] && order[1..][j] == order[j + 1];
    }
    forall i | 0 <= i < |order[1..]| ensures order[1..][i] != order[0] {
      assert order[1..][i] == order[i + 1];
    }
  }

  /**
   * Going once through the connections sends each connected handle exactly
   * one indication of the characteristic when asked to indicate, and none
   * otherwise; a handle that is not connected gets none.
   */
  lemma {:induction false} IndicatedOnce(order: seq<ConnHandle>, ch: Characteristic, notify: bool, indicate: bool, c: ConnHandle)
    requires NoDuplicates(order)
    ensures multiset(CallsFor(order, ch, notify, indicate))[Indicate(c, ch)] == if indicate && c in order then 1 else 0
  {
    if |order| > 0 {
      NoDuplicatesTail(order);
      IndicatedOnce(order[1..], ch, notify, indicate, c);
    }
  }

  /** The same for notifications. */
  lemma {:induction false} NotifiedOnce(order: seq<ConnHandle>, ch: Characteristic, notify: bool, indicate: bool, c: ConnHandle)
    requires NoDuplicates(order)
    ensures multiset(CallsFor(order, ch, notify, indicate))[Notify(c, ch)] == if notify && c in order then 1 else 0
  {
    if |order| > 0 {
      NoDuplicatesTail(order);
      NotifiedOnce(order[1..], ch, notify, indicate, c);
    }
  }

  /** Nothing else is sent: only notifications and indications of this characteristic, to the handles of `order`. */
  lemma {:induction false} CallsForOnly(order: seq<ConnHandle>, ch: Characteristic, notify: bool, indicate: bool, call: StackCall)
    requires call in CallsFor(order, ch, notify, indicate)
    ensures call.Notify? || call.Indicate?
    ensures call.conn in order && call.ch == ch
    ensures (call.Notify? ==> notify) && (call.Indicate? ==> indicate)
  {
    var head := HandleCalls(order[0], ch, notify, indicate);
    if call !in head {
      CallsForOnly(order[1..], ch, notify, indicate, call);
    }
  }
}
