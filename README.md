# BLE temperature/distance peripheral: a Dafny model

This project models the core of a MicroPython Bluetooth Low Energy peripheral
(`src/start.py`, class `BLETemperature`). The device exposes three
characteristics of an environmental-sensing service (temperature, distance,
sampling interval), bonds with centrals and keeps their pairing secrets in a
file. The model covers the state that the BLE event handler `_irq`, the
button callback `btn_cb` and the `set_*` methods update in place:

- the secret store `_secrets`, a dict from `(sec_type, key)` to `value`,
  modelled as iterated in insertion order (see "## Left out"), with its set-secret and
  get-secret handling;
- its persistence as a list of `[sec_type, base64(key), base64(value)]`
  triples, with base64 as in section 4 of RFC 4648 plus the newline that
  `b2a_base64` appends;
- the connection set `_connections`, the per-connection pending-indication
  slots `_pending_indications` and the quiet-period mark `pending_sleep`;
- the passkey policy for the pairing handshake;
- the sampling period `INTERVAL_MS` and its button control;
- the little-endian wire encodings of the three characteristic values.

Files, one module each: `types.dfy` (bytes, Option), `base64.dfy`,
`wire.dfy`, `secret_store.dfy`, `persistence.dfy`, `pairing.dfy`,
`interval.dfy`, `indications.dfy` and `peripheral.dfy`. The last holds the
class `BLETemperature`. Its fields are the object's fields. Its methods are
the `_irq` branches, `btn_cb` and `set_*`, dispatched by `Irq`.

Outside collaborators become data:
- The current `time.ticks_ms()` is a parameter `now`.
- The calls made on the BLE stack (`gatts_notify`, `gatts_indicate`,
  `gap_passkey`, `gap_advertise`) are appended to the field `sent`.
- The triples in `secrets.json` are the field `savedSecrets`.
- The value last written with `gatts_write` is kept per characteristic
  (`temperatureValue`, `distanceValue`, `intervalValue`).
- Iterating over the set `_connections` has no fixed order. Each loop
  returns the order it took as a ghost `order`, which lists every connection
  exactly once.

In these places the model keeps what the code does:
- On connect, the interval is indicated to every connection, not only to
  the new one.
- A triple that fails to decode while loading keeps the entries loaded
  before it. The dict is not reset to empty (`LoadStopsAtBadEntry`).
- Disconnect does not clear the connection's pending-indication slot.
- A new indication overwrites a connection's single pending slot even when
  one is outstanding. Nothing stops a second indication while one is
  pending.
- Distance is sent as `int(distance_cm * 10)`, that is in millimetres.

## Model

| member | source | states |
|---|---|---|
| `Base64.Encode` | src/start.py:266 | `b2a_base64` output is symbols of the alphabet or '=' padding, then one newline |
| `Base64.EncodeRfcPadded` | src/start.py:266 | the empty string, "f" and "fo" are written "\n", "Zg==\n" and "Zm8=\n", as in section 10 of RFC 4648 with the newline |
| `Base64.EncodeRfcFoo` | src/start.py:266 | "foo" is written "Zm9v\n" |
| `Base64.EncodeRfcFoobar` | src/start.py:266 | "foobar" is written "Zm9vYmFy\n" |
| `Base64.EncodeHighSymbols` | src/start.py:266 | the octets FB FF are written "+/8=\n", the last two symbols of the alphabet |
| `Base64.EncodedLength` | src/start.py:266 | `b2a_base64` emits four characters per started group of three bytes, then a newline |
| `Base64.DecodeEncode` | src/start.py:258-266 | `a2b_base64` of what `b2a_base64` produced, trailing newline included, gives back the original bytes |
| `Base64.Decode` | src/start.py:258 | no contract of its own (one would be unfolded at every load): `a2b_base64` on padded groups of four characters with an optional final newline, None for the exception; `DecodeEncode` is its property |
| `Wire.PackInt16` | src/start.py:201 | the temperature field is two bytes whose signed little-endian reading is the hundredths value reduced to 16 bits, and exactly that value when it fits |
| `Wire.PackUint16` | src/start.py:217 | the distance field is two bytes whose unsigned little-endian reading is the tenths value modulo 2^16 |
| `Wire.PackUint32` | src/start.py:229 | the interval field is four bytes whose unsigned little-endian reading is the milliseconds modulo 2^32 |
| `Wire.IntervalExample` | src/start.py:229 | 1000 ms packs to E8 03 00 00 |
| `Wire.TemperatureExamples` | src/start.py:201 | 2500 hundredths pack to C4 09 and -1 to FF FF |
| `Wire.DistanceExample` | src/start.py:217 | 123 tenths pack to 7B 00 |
| `Wire.FromLittleEndianOf` | src/start.py:229 | reading back the low `width` little-endian bytes of a number gives the number modulo 256^width |
| `SecretStore.Lookup` | src/start.py:183-184 | `_secrets.get(key, None)` finds a value exactly when the key is in the dict, and the value is stored with that key |
| `SecretStore.LookupExact` | src/start.py:183-184 | with distinct keys, get-by-key returns v exactly when the item (key, v) is in the dict |
| `SecretStore.Put` | src/start.py:169 | after `d[k] = v`, k maps to v and every other key maps as before; keys stay distinct; an existing key keeps its place, a new one goes last |
| `SecretStore.Remove` | src/start.py:162-165 | after `del d[k]`, k is gone, every other key maps as before and keys stay distinct; an absent key leaves the dict as it was |
| `SecretStore.RemoveOne` | src/start.py:164 | deleting a present key takes out exactly one item and keeps the others in order |
| `SecretStore.NthOfType` | src/start.py:174-181 | the index-by-type enumeration gives a value exactly for indices from 0 up to the number of items of that type, and the value is one of that type's values |
| `SecretStore.NthOfTypeAt` | src/start.py:174-181 | the item at position j is returned for index n when n items of its type come before it |
| `SecretStore.NthOfTypeIsEntry` | src/start.py:174-181 | a value returned for an index belongs to an item of the requested type with exactly index items of that type before it |
| `SecretStore.PutNewKeyEnumeratesLast` | src/start.py:169-181 | a newly set key is enumerated after all earlier items of its type, which keep their indices |
| `Persistence.SaveOne` | src/start.py:266 | no contract of its own: the triple for one item, type then the two `b2a_base64` texts; `SaveOneReadsBack` is its property |
| `Persistence.Save` | src/start.py:265-268 | the comprehension writes one triple per item |
| `Persistence.SaveReadsBack` | src/start.py:265-268 | the i-th triple carries the i-th item's type, and its key and value texts decode to the item's key and value |
| `Persistence.SaveOneReadsBack` | src/start.py:266 | one item's triple decodes back to that item |
| `Persistence.LoadInto` | src/start.py:257-258 | loading triples into a dict with distinct keys keeps them distinct and loses no key already there |
| `Persistence.Load` | src/start.py:252-260 | `_load_secrets` always yields a dict with distinct keys |
| `Persistence.LoadSave` | src/start.py:252-271 | loading what `_save_secrets` wrote gives back the same dict: same items, same values, same order |
| `Persistence.LoadIntoSave` | src/start.py:257-268 | loading saved items followed by more triples equals loading the rest after those items |
| `Persistence.LoadStopsAtBadEntry` | src/start.py:254-260 | a triple that does not decode ends the load, keeping the items inserted before it |
| `Pairing.PasskeyResponse` | src/start.py:134-145 | action 4 answers 1, action 3 answers 1234, action 2 echoes the received passkey, any other action gets no answer |
| `Pairing.OnlyInputEchoes` | src/start.py:134-145 | only the input action depends on the received passkey |
| `IntervalControl.NextInterval` | src/start.py:186-197 | an up press adds a second; a down press above one second takes one away; the period changes exactly on those two events and stays a whole number of seconds of at least one |
| `IntervalControl.IntervalAfterOk` | src/start.py:186-197 | from the initial 1000 ms, any run of button events leaves the period a positive multiple of 1000 and at least 1000 |
| `Indications.Stamp` | src/start.py:207-208 | after stamping, every connection's slot holds now, and every other slot keeps its old value |
| `Indications.HandleCalls` | src/start.py:204-209 | one handle gets one call per flag that is set |
| `Indications.CallsFor` | src/start.py:203-210 | no contract of its own: the calls of one pass, handle by handle in the order taken; `CallsForLength`, `IndicatedOnce`, `NotifiedOnce` and `CallsForOnly` are its properties |
| `Indications.CallsForLength` | src/start.py:203-210 | a pass makes as many calls per handle as there are flags set |
| `Indications.IndicatedOnce` | src/start.py:203-209 | one pass over the connections indicates each connected handle exactly once when asked to indicate, and others never |
| `Indications.NotifiedOnce` | src/start.py:203-206 | one pass notifies each connected handle exactly once when asked to notify, and others never |
| `Indications.CallsForOnly` | src/start.py:203-210 | a pass sends nothing but notifications and indications of its characteristic to connected handles |
| `Peripheral.BLETemperature.constructor` | src/start.py:83-111 | starts with the loaded secrets, period 1000, no connections, nothing pending, and advertises |
| `Peripheral.BLETemperature.Publish` | src/start.py:202-210 | with notify or indicate set, goes through every connection once, stamps their slots when indicating and sends the matching calls; otherwise does nothing |
| `Peripheral.BLETemperature.PublishToEach` | src/start.py:203-210 | the loop over `_connections` makes exactly the calls of one pass in the order it took, and stamps exactly the connections' slots |
| `Peripheral.BLETemperature.SetTemperature` | src/start.py:199-210 | writes the int16 encoding of the hundredths and publishes it |
| `Peripheral.BLETemperature.SetDistance` | src/start.py:215-225 | writes the uint16 encoding of the tenths and publishes it |
| `Peripheral.BLETemperature.SetInterval` | src/start.py:228-237 | writes the uint32 encoding of the milliseconds and publishes it |
| `Peripheral.BLETemperature.OnConnect` | src/start.py:115-120 | adds the handle, then indicates the current period to every connection, the new one included, exactly once each |
| `Peripheral.BLETemperature.OnDisconnect` | src/start.py:121-127 | removes exactly the handle, writes the triples `_save_secrets` writes for the secrets (which load back to the same dict by `LoadSave`), and advertises again |
| `Peripheral.BLETemperature.OnPasskeyAction` | src/start.py:131-145 | answers through `gap_passkey` with the policy's value, or sends nothing |
| `Peripheral.BLETemperature.OnIndicateDone` | src/start.py:146-156 | clears only this connection's pending slot, whatever the status; arms `pending_sleep` with now only on status 0 when it was 0 |
| `Peripheral.BLETemperature.OnSetSecret` | src/start.py:157-170 | a non-empty value is stored and True returned; no or an empty value deletes, returning whether the key existed |
| `Peripheral.BLETemperature.OnGetSecret` | src/start.py:171-184 | by key, the stored value or None; by index, the index-th item of the type in insertion order, or None past the end |
| `Peripheral.BLETemperature.BtnCb` | src/start.py:186-197 | steps the period as the button says and re-publishes it by indication exactly when it changed |
| `Peripheral.BLETemperature.Irq` | src/start.py:113-184 | per event, the value returned (set-secret's flag, get-secret's lookup) and the whole new state: the secrets after set or delete, the connections, the pending slots and `pending_sleep`, the interval value and the calls made on connect, the triples saved on disconnect, the `gap_passkey` answer; no event changes the period, and encryption updates and unknown events change nothing |

## Left out

- The BLE stack itself: service registration, the advertising payload, the
  MAC address text and the IRQ registration (src/start.py:90-111, 239-246).
  They are foreign calls; advertising is recorded as one `Advertise` call.
- Encryption-update events only log (src/start.py:128-130). `Irq` leaves the
  state unchanged for them. All `print` output is left out.
- The sensor driver and `measure_distance` (hardware), and the random
  temperature drift in `update_temperature` (random, floating point).
- The asyncio tasks `update_temperature`, `update_distance`, `loops`,
  `check_buttons`, `go_sleep` and `start`. They are sleeps, `lightsleep` and
  task cancellation. `go_sleep` is never started. So the power scheduler's
  use of `pending_sleep` and the `ticks_diff` wrap-around are not modelled.
- `time.ticks_ms()` is read once per modelled call (`now`). The source reads
  it again for every connection inside the `set_*` loops.
- File and JSON I/O in `_load_secrets`/`_save_secrets`. A missing or
  unparseable `secrets.json` gives an empty dict, the same as loading no
  triples. A failed write is not modelled.
- `Base64.Decode` accepts only padded groups of four characters, optionally
  followed by one newline. MicroPython's lenient `a2b_base64` also skips
  other stray characters. That only matters for hand-edited files.
- `_reset_secrets` is never called, and it assigns a list where a dict is
  expected. It is not modelled.
- The float conversions `int(temp_deg_c * 100)` and `int(distance_cm * 10)`.
  The setters take integer hundredths and tenths.
- Dict order: the secret store iterates in the order keys were first
  inserted, as Python-language dicts do. MicroPython's built-in `dict`
  does not promise that order; only `collections.OrderedDict` does. On the
  device, the index enumeration of get-secret and the order of the saved
  triples may follow hash order. `SecretStore.Put`'s placement of a new
  key, `PutNewKeyEnumeratesLast` and the "same order" part of `LoadSave`
  hold of the model's ordered dict, not of that runtime.
- `struct.pack` on a value outside its field is modelled as MicroPython
  does it: only the low-order bytes are kept. CPython would raise instead.
- `boot.py` (storage and memory diagnostics) and the web client under
  `vite-project/` are not part of this model.
