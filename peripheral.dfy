/**
 * The `BLETemperature` peripheral object: the process state that the BLE
 * event handler `_irq`, the button callback `btn_cb` and the `set_*`
 * methods update in place. Radio, sensor, timers and files are outside the
 * model: the current tick comes in as `now`, the calls made on the BLE stack
 * are recorded in `sent`, and the contents of `secrets.json` are the triple
 * list `savedSecrets`.
 */
module Peripheral {
  import opened Types
  import opened SecretStore
  import Persistence
  import Wire
  import Pairing
  import opened IntervalControl
  import opened Indications

  /** The events `_irq` receives, with the fields of their `data` tuples. */
  datatype Event =
    | CentralConnect(conn: ConnHandle)                                  // _IRQ_CENTRAL_CONNECT (1)
    | CentralDisconnect(conn: ConnHandle)                               // _IRQ_CENTRAL_DISCONNECT (2)
    | GattsIndicateDone(conn: ConnHandle, valueHandle: int, status: int) // _IRQ_GATTS_INDICATE_DONE (20)
    | EncryptionUpdate(conn: ConnHandle, encrypted: bool, authenticated: bool, bonded: bool, keySize: int) // _IRQ_ENCRYPTION_UPDATE (28)
    | GetSecret(secType: int, index: int, wanted: Option<Bytes>)         // _IRQ_GET_SECRET (29)
    | SetSecret(secType: int, key: Bytes, value: Option<Bytes>)          // _IRQ_SET_SECRET (30)
    | PasskeyAction(conn: ConnHandle, action: int, passkey: int)         // _IRQ_PASSKEY_ACTION (31)
    | OtherEvent(code: int)                                              // any other event code

  /** What `_irq` returns to the stack: `None`, a boolean, or a secret value. */
  datatype IrqResult = NoResult | Flag(ok: bool) | Value(value: Bytes)

  function Returned(v: Option<Bytes>): IrqResult
  {
    match v
    case None => NoResult
    case Some(b) => Value(b)
  }

  /** `bytes(value) if value else None`: an empty value counts as no value. */
  predicate Present(value: Option<Bytes>)
  {
    value.Some? && value.value != []
  }

  /** The `gap_passkey` call made for a passkey action, if any. */
  function PasskeyCalls(conn: ConnHandle, action: int, passkey: int): seq<StackCall>
  {
    match Pairing.PasskeyResponse(action, passkey)
    case Some(v) => [Passkey(conn, action, v)]
    case None => []
  }

  /** The calls `_irq` makes on the stack for an event other than a connection. */
  function IrqCalls(ev: Event): seq<StackCall>
  {
    match ev
    case CentralDisconnect(_) => [Advertise]
    case PasskeyAction(conn, action, passkey) => PasskeyCalls(conn, action, passkey)
    case _ => []
  }

  lemma AppendAssoc<T>(a: seq<T>, b: seq<T>, c: seq<T>)
    ensures (a + b) + c == a + (b + c)
  {
  }

  /** One turn of the `set_*` loop keeps its invariants. */
  lemma StepInvariant(pending: map<ConnHandle, int>, conns: set<ConnHandle>, todo: set<ConnHandle>,
                      order: seq<ConnHandle>, c: ConnHandle, ch: Characteristic, notify: bool, indicate: bool, now: int)
    requires c in todo && todo <= conns
    requires NoDuplicates(order)
    requires forall x :: x in order <==> x in conns && x !in todo
    ensures NoDuplicates(order + [c])
    ensures forall x :: x in order + [c] <==> x in conns && x !in todo - {c}
    ensures Stamp(pending, conns - (todo - {c}), now) == Stamp(pending, conns - todo, now)[c := now]
    ensures CallsFor(order + [c], ch, notify, indicate)
         == CallsFor(order, ch, notify, indicate) + HandleCalls(c, ch, notify, indicate)
  {
    CallsForAppend(order, c, ch, notify, indicate);
    assert conns - (todo - {c}) == (conns - todo) + {c};
    StampOneMore(pending, conns - todo, c, now);
  }

  class BLETemperature {
    var secrets: Store                          // _secrets
    var connections: set<ConnHandle>            // _connections
    var pendingIndications: map<ConnHandle, int> // _pending_indications
    var pendingSleep: int                       // pending_sleep
    var intervalMs: int                         // INTERVAL_MS
    var temperatureValue: Bytes                 // local value of the temperature characteristic
    var distanceValue: Bytes                    // local value of the distance characteristic
    var intervalValue: Bytes                    // local value of the interval characteristic
    var savedSecrets: seq<Persistence.SavedSecret> // the triples in secrets.json
    var sent: seq<StackCall>                    // calls made on the BLE stack so far

    /** The secret dict has distinct keys and the period is one the buttons can reach. */
    predicate Valid()
      reads this
    {
      UniqueKeys(secrets) && IntervalOk(intervalMs)
    }

    /**
     * `__init__`: loads the secrets from the saved triples, starts with a
     * one-second period, no connections and nothing pending, and advertises.
     */
    constructor (saved: seq<Persistence.SavedSecret>)
      ensures Valid()
      ensures secrets == Persistence.Load(saved) && savedSecrets == saved
      ensures connections == {} && pendingIndications == map[] && pendingSleep == 0
      ensures intervalMs == INITIAL_INTERVAL_MS
      ensures temperatureValue == [] && distanceValue == [] && intervalValue == []
      ensures sent == [Advertise]
    {
      secrets := Persistence.Load(saved);
      savedSecrets := saved;
      intervalMs := INITIAL_INTERVAL_MS;
      pendingSleep := 0;
      connections := {};
      pendingIndications := map[];
      temperatureValue, distanceValue, intervalValue := [], [], [];
      sent := [Advertise];
    }

    /**
     * The part the three `set_*` methods share: when asked to notify or to
     * indicate, go through the connections.
     */
    method Publish(ch: Characteristic, notify: bool, indicate: bool, now: int) returns (ghost order: seq<ConnHandle>)
      modifies this`pendingIndications, this`sent
      ensures if notify || indicate then Enumerates(order, connections) else order == []
      ensures sent == old(sent) + CallsFor(order, ch, notify, indicate)
      ensures pendingIndications == if indicate then Stamp(old(pendingIndications), connections, now) else old(pendingIndications)
    {
      if notify || indicate {
        order := PublishToEach(ch, notify, indicate, now);
      } else {
        order := [];
      }
    }

    /**
     * The loop over `_connections`: for every connected handle, notify if
     * asked, and if asked to indicate stamp its pending slot with `now` and
     * indicate. A set has no fixed order; `order` is the one the loop took.
     */
    method PublishToEach(ch: Characteristic, notify: bool, indicate: bool, now: int) returns (ghost order: seq<ConnHandle>)
      modifies this`pendingIndications, this`sent
      ensures Enumerates(order, connections)
      ensures sent == old(sent) + CallsFor(order, ch, notify, indicate)
      ensures pendingIndications == if indicate then Stamp(old(pendingIndications), connections, now) else old(pendingIndications)
    {
      order := [];
      var todo := connections;
      while todo != {}
        invariant todo <= connections
        invariant NoDuplicates(order)
        invariant forall c :: c in order <==> c in connections && c !in todo
        invariant sent == old(sent) + CallsFor(order, ch, notify, indicate)
        invariant pendingIndications == if indicate then Stamp(old(pendingIndications), connections - todo, now) else old(pendingIndications)
        decreases todo
      {
        SomeConnection(todo);
        var c :| c in todo;
        ghost var before := sent;
        if notify {
          sent := sent + [Notify(c, ch)];
        }
        if indicate {
          pendingIndications := pendingIndications[c := now];
          sent := sent + [Indicate(c, ch)];
        }
        assert sent == before + HandleCalls(c, ch, notify, indicate);
        AppendAssoc(old(sent), CallsFor(order, ch, notify, indicate), HandleCalls(c, ch, notify, indicate));
        StepInvariant(old(pendingIndications), connections, todo, order, c, ch, notify, indicate, now);
        order := order + [c];
        todo := todo - {c};
      }
      assert connections - todo == connections;
    }

    /** `set_temperature`: writes the signed 16-bit hundredths of a degree, then publishes. */
    method SetTemperature(hundredths: int, notify: bool, indicate: bool, now: int) returns (ghost order: seq<ConnHandle>)
      modifies this`temperatureValue, this`pendingIndications, this`sent
      ensures temperatureValue == Wire.PackInt16(hundredths)
      ensures if notify || indicate then Enumerates(order, connections) else order == []
      ensures sent == old(sent) + CallsFor(order, Temperature, notify, indicate)
      ensures pendingIndications == if indicate then Stamp(old(pendingIndications), connections, now) else old(pendingIndications)
    {
      temperatureValue := Wire.PackInt16(hundredths);
      order := Publish(Temperature, notify, indicate, now);
    }

    /** `set_distance`: writes the unsigned 16-bit tenths of a centimetre, then publishes. */
    method SetDistance(tenths: int, notify: bool, indicate: bool, now: int) returns (ghost order: seq<ConnHandle>)
      modifies this`distanceValue, this`pendingIndications, this`sent
      ensures distanceValue == Wire.PackUint16(tenths)
      ensures if notify || indicate then Enumerates(order, connections) else order == []
      ensures sent == old(sent) + CallsFor(order, Distance, notify, indicate)
      ensures pendingIndications == if indicate then Stamp(old(pendingIndications), connections, now) else old(pendingIndications)
    {
      distanceValue := Wire.PackUint16(tenths);
      order := Publish(Distance, notify, indicate, now);
    }

    /** `set_interval`: writes the unsigned 32-bit milliseconds, then publishes. */
    method SetInterval(ms: int, notify: bool, indicate: bool, now: int) returns (ghost order: seq<ConnHandle>)
      modifies this`intervalValue, this`pendingIndications, this`sent
      ensures intervalValue == Wire.PackUint32(ms)
      ensures if notify || indicate then Enumerates(order, connections) else order == []
      ensures sent == old(sent) + CallsFor(order, Interval, notify, indicate)
      ensures pendingIndications == if indicate then Stamp(old(pendingIndications), connections, now) else old(pendingIndications)
    {
      intervalValue := Wire.PackUint32(ms);
      order := Publish(Interval, notify, indicate, now);
    }

    /**
     * Central connected: the handle joins the connections, and the current
     * period is indicated to every connection, the new one included.
     */
    method OnConnect(conn: ConnHandle, now: int) returns (ghost order: seq<ConnHandle>)
      requires Valid()
      modifies this`connections, this`intervalValue, this`pendingIndications, this`sent
      ensures Valid()
      ensures connections == old(connections) + {conn}
      ensures intervalValue == Wire.PackUint32(intervalMs)
      ensures pendingIndications == Stamp(old(pendingIndications), connections, now)
      ensures Enumerates(order, connections)
      ensures sent == old(sent) + CallsFor(order, Interval, false, true)
      ensures forall c :: c in connections ==> multiset(sent[|old(sent)|..])[Indicate(c, Interval)] == 1
    {
      connections := connections + {conn};
      order := SetInterval(intervalMs, false, true, now);
      assert sent[|old(sent)|..] == CallsFor(order, Interval, false, true);
      forall c | c in connections
        ensures multiset(sent[|old(sent)|..])[Indicate(c, Interval)] == 1
      {
        IndicatedOnce(order, Interval, false, true, c);
      }
    }

    /**
     * Central disconnected: the handle leaves the connections (it must be
     * there: `set.remove` raises otherwise), the secrets are saved and
     * advertising starts again. Pending-indication slots are not cleared.
     * What is saved loads back to the same dict: see `Persistence.LoadSave`,
     * whose requirement `Valid()` keeps.
     */
    method OnDisconnect(conn: ConnHandle)
      requires Valid()
      requires conn in connections
      modifies this`connections, this`savedSecrets, this`sent
      ensures Valid()
      ensures connections == old(connections) - {conn}
      ensures savedSecrets == Persistence.Save(secrets)
      ensures sent == old(sent) + [Advertise]
    {
      connections := connections - {conn};
      savedSecrets := Persistence.Save(secrets);
      sent := sent + [Advertise];
    }

    /** Passkey action: answers through `gap_passkey` as the pairing policy says, or not at all. */
    method OnPasskeyAction(conn: ConnHandle, action: int, passkey: int)
      modifies this`sent
      ensures sent == old(sent) + PasskeyCalls(conn, action, passkey)
    {
      var response := Pairing.PasskeyResponse(action, passkey);
      if response.Some? {
        sent := sent + [Passkey(conn, action, response.value)];
      }
    }

    /**
     * Indication done: the connection's pending slot is cleared whatever the
     * status; a successful confirmation starts the quiet period unless one
     * is already running.
     */
    method OnIndicateDone(conn: ConnHandle, valueHandle: int, status: int, now: int)
      modifies this`pendingSleep, this`pendingIndications
      ensures pendingIndications == old(pendingIndications) - {conn}
      ensures pendingSleep == if status == 0 && old(pendingSleep) == 0 then now else old(pendingSleep)
    {
      if status == 0 {
        if pendingSleep == 0 {
          pendingSleep := now;
        }
      }
      if conn in pendingIndications {
        pendingIndications := pendingIndications - {conn};
      }
    }

    /**
     * Set secret: a non-empty value is stored under the key, replacing any
     * old one, and the answer is True; no value (or an empty one) deletes the
     * entry, and the answer says whether there was one.
     */
    method OnSetSecret(secType: int, key: Bytes, value: Option<Bytes>) returns (ok: bool)
      requires Valid()
      modifies this`secrets
      ensures Valid()
      ensures Present(value) ==> ok && secrets == Put(old(secrets), SecretKey(secType, key), value.value)
      ensures !Present(value) ==> ok == (SecretKey(secType, key) in Keys(old(secrets)))
                                  && secrets == Remove(old(secrets), SecretKey(secType, key))
    {
      var k := SecretKey(secType, key);
      if !Present(value) {
        if k in Keys(secrets) {
          secrets := Remove(secrets, k);
          return true;
        } else {
          return false;
        }
      } else {
        secrets := Put(secrets, k, value.value);
      }
      return true;
    }

    /**
     * Get secret: with a key, the value stored under exactly that key; with
     * none, the `index`-th entry of the security type in insertion order,
     * found by counting the matching entries one by one.
     */
    method OnGetSecret(secType: int, index: int, key: Option<Bytes>) returns (r: Option<Bytes>)
      ensures key.Some? ==> r == Lookup(secrets, SecretKey(secType, key.value))
      ensures key.None? ==> r == NthOfType(secrets, secType, index)
    {
      if key.None? {
        var i := 0;
        var j := 0;
        while j < |secrets|
          invariant 0 <= j <= |secrets|
          invariant i == |ValuesOfType(secrets[..j], secType)|
          invariant index < 0 || i <= index
        {
          var e := secrets[j];
          ValuesOfTypeConcat(secrets[..j], [e], secType);
          assert secrets[..j + 1] == secrets[..j] + [e];
          if e.key.secType == secType {
            if i == index {
              NthOfTypeAt(secrets, secType, j);
              return Some(e.value);
            }
            i := i + 1;
          }
          j := j + 1;
        }
        assert secrets[..j] == secrets;
        return None;
      } else {
        return Lookup(secrets, SecretKey(secType, key.value));
      }
    }

    /**
     * `btn_cb`: steps the period and, when it changed, re-publishes it with
     * an indication to every connection.
     */
    method BtnCb(e: ButtonEvent, now: int) returns (ghost order: seq<ConnHandle>)
      requires Valid()
      modifies this`intervalMs, this`intervalValue, this`pendingIndications, this`sent
      ensures Valid()
      ensures intervalMs == NextInterval(old(intervalMs), e)
      ensures Steps(old(intervalMs), e) ==>
                && intervalValue == Wire.PackUint32(intervalMs)
                && pendingIndications == Stamp(old(pendingIndications), connections, now)
                && Enumerates(order, connections)
                && sent == old(sent) + CallsFor(order, Interval, false, true)
      ensures !Steps(old(intervalMs), e) ==>
                && intervalValue == old(intervalValue)
                && pendingIndications == old(pendingIndications)
                && sent == old(sent)
    {
      order := [];
      var next := NextInterval(intervalMs, e);
      if e.btn == BUTTON_UP && e.kind == PRESSED {
        intervalMs := intervalMs + STEP_MS;
        order := SetInterval(intervalMs, false, true, now);
      } else if e.btn == BUTTON_DOWN && e.kind == PRESSED && intervalMs > MIN_INTERVAL_MS {
        intervalMs := intervalMs - STEP_MS;
        order := SetInterval(intervalMs, false, true, now);
      }
      assert intervalMs == next && IntervalOk(next);
    }

    /**
     * `_irq`: dispatches one event to its branch and returns what the branch
     * returns. Each event changes only the state its branch changes, as its
     * branch method says; no event changes the period.
     */
    method Irq(ev: Event, now: int) returns (r: IrqResult, ghost order: seq<ConnHandle>)
      requires Valid()
      requires ev.CentralDisconnect? ==> ev.conn in connections
      modifies this
      ensures Valid()
      // what `_irq` returns
      ensures ev.SetSecret? ==> r == Flag(Present(ev.value) || SecretKey(ev.secType, ev.key) in Keys(old(secrets)))
      ensures ev.GetSecret? && ev.wanted.Some? ==> r == Returned(Lookup(secrets, SecretKey(ev.secType, ev.wanted.value)))
      ensures ev.GetSecret? && ev.wanted.None? ==> r == Returned(NthOfType(secrets, ev.secType, ev.index))
      ensures !ev.SetSecret? && !ev.GetSecret? ==> r == NoResult
      // `_secrets`
      ensures ev.SetSecret? && Present(ev.value) ==> secrets == Put(old(secrets), SecretKey(ev.secType, ev.key), ev.value.value)
      ensures ev.SetSecret? && !Present(ev.value) ==> secrets == Remove(old(secrets), SecretKey(ev.secType, ev.key))
      ensures !ev.SetSecret? ==> secrets == old(secrets)
      // `_connections`
      ensures ev.CentralConnect? ==> connections == old(connections) + {ev.conn}
      ensures ev.CentralDisconnect? ==> connections == old(connections) - {ev.conn}
      ensures !ev.CentralConnect? && !ev.CentralDisconnect? ==> connections == old(connections)
      // `_pending_indications` and `pending_sleep`
      ensures ev.CentralConnect? ==> pendingIndications == Stamp(old(pendingIndications), connections, now)
      ensures ev.GattsIndicateDone? ==> pendingIndications == old(pendingIndications) - {ev.conn}
      ensures !ev.CentralConnect? && !ev.GattsIndicateDone? ==> pendingIndications == old(pendingIndications)
      ensures ev.GattsIndicateDone? ==> pendingSleep == if ev.status == 0 && old(pendingSleep) == 0 then now else old(pendingSleep)
      ensures !ev.GattsIndicateDone? ==> pendingSleep == old(pendingSleep)
      // `INTERVAL_MS` and the characteristic values
      ensures intervalMs == old(intervalMs)
      ensures ev.CentralConnect? ==> intervalValue == Wire.PackUint32(intervalMs)
      ensures !ev.CentralConnect? ==> intervalValue == old(intervalValue)
      ensures temperatureValue == old(temperatureValue) && distanceValue == old(distanceValue)
      // `secrets.json`
      ensures ev.CentralDisconnect? ==> savedSecrets == Persistence.Save(secrets)
      ensures !ev.CentralDisconnect? ==> savedSecrets == old(savedSecrets)
      // calls on the BLE stack
      ensures ev.CentralConnect? ==> Enumerates(order, connections) && sent == old(sent) + CallsFor(order, Interval, false, true)
      ensures !ev.CentralConnect? ==> order == [] && sent == old(sent) + IrqCalls(ev)
    {
      r, order := NoResult, [];
      match ev {
        case CentralConnect(conn) =>
          order := OnConnect(conn, now);
        case CentralDisconnect(conn) =>
          OnDisconnect(conn);
        case EncryptionUpdate(_, _, _, _, _) =>
        case PasskeyAction(conn, action, passkey) =>
          OnPasskeyAction(conn, action, passkey);
        case GattsIndicateDone(conn, valueHandle, status) =>
          OnIndicateDone(conn, valueHandle, status, now);
        case SetSecret(secType, key, value) =>
          var ok := OnSetSecret(secType, key, value);
          r := Flag(ok);
        case GetSecret(secType, index, key) =>
          var v := OnGetSecret(secType, index, key);
          r := Returned(v);
        case OtherEvent(_) =>
      }
    }
  }
}
