/**
 * Persistence of the secret store in `secrets.json`: a JSON array of
 * `[sec_type, base64(key), base64(value)]` triples. The file itself, and the
 * JSON text around the triples, are not part of this model.
 */
module Persistence {
  import opened Types
  import Base64
  import opened SecretStore

  /** One element of the saved array; key and value are the text `b2a_base64` returns. */
  datatype SavedSecret = SavedSecret(secType: int, key: string, value: string)

  /** Whether a saved triple reads back as the given item. */
  predicate ReadsAs(saved: SavedSecret, e: Secret)
  {
    saved.secType == e.key.secType
    && Base64.Decode(saved.key) == Some(e.key.peer) && Base64.Decode(saved.value) == Some(e.value)
  }

  /** The triple written for one item. */
  function SaveOne(e: Secret): SavedSecret
  {
    SavedSecret(e.key.secType, Base64.Encode(e.key.peer), Base64.Encode(e.value))
  }

  /** The list comprehension of `_save_secrets`: one triple per item, in dict order. */
  function Save(s: Store): (r: seq<SavedSecret>)
    ensures |r| == |s|
  {
    if |s| == 0 then [] else [SaveOne(s[0])] + Save(s[1..])
  }

  /** The i-th saved triple reads back as the i-th item of the dict. */
  lemma {:induction false} SaveReadsBack(s: Store, i: int)
    requires 0 <= i < |s|
    ensures ReadsAs(Save(s)[i], s[i])
  {
    if i == 0 {
      SaveOneReadsBack(s[0]);
    } else {
      SaveReadsBack(s[1..], i - 1);
      assert Save(s)[i] == Save(s[1..])[i - 1];
    }
  }

  /** The triple written for one item reads back as that item. */
  lemma SaveOneReadsBack(e: Secret)
    ensures ReadsAs(SaveOne(e), e)
  {
    Base64.DecodeEncode(e.key.peer);
    Base64.DecodeEncode(e.value);
  }

  /**
   * The loop of `_load_secrets`, continuing from the items already inserted.
   * A triple whose key or value is not base64 raises inside the loop; the
   * bare `except` swallows it, so the items inserted before it stay and the
   * rest of the file is ignored.
   */
  function LoadInto(acc: Store, entries: seq<SavedSecret>): (r: Store)
    ensures UniqueKeys(acc) ==> UniqueKeys(r)
    ensures Keys(acc) <= Keys(r)
    decreases |entries|
  {
    if |entries| == 0 then acc
    else
      match (Base64.Decode(entries[0].key), Base64.Decode(entries[0].value))
      case (Some(k), Some(v)) => LoadInto(Put(acc, SecretKey(entries[0].secType, k), v), entries[1..])
      case _ => acc
  }

  /**
   * `_load_secrets`: starts from an empty dict. A missing or unreadable file
   * leaves the dict empty, which is what loading no triples gives.
   */
  function Load(entries: seq<SavedSecret>): (s: Store)
    ensures UniqueKeys(s)
  {
    LoadInto([], entries)
  }

  /** One saved item, loaded into a store that lacks its key, is appended to it. */
  lemma LoadOne(acc: Store, e: Secret, rest: seq<SavedSecret>)
    requires e.key !in Keys(acc)
    ensures LoadInto(acc, [SaveOne(e)] + rest) == LoadInto(acc + [e], rest)
  {
    Base64.DecodeEncode(e.key.peer);
    Base64.DecodeEncode(e.value);
    var entries := [SaveOne(e)] + rest;
    assert entries[0] == SaveOne(e) && entries[1..] == rest;
    assert Put(acc, e.key, e.value) == acc + [e];
  }

  lemma ShiftFirst(acc: Store, s: Store)
    requires |s| > 0 && UniqueKeys(acc + s)
    ensures s[0].key !in Keys(acc)
    ensures (acc + [s[0]]) + s[1..] == acc + s
  {
    UniqueKeysConcat(acc, s);
    assert s[0].key in Keys(s);
    assert (acc + [s[0]]) + s[1..] == acc + s;
  }

  /** Loading saved items, then more triples, is loading the rest into the store with those items appended. */
  lemma {:induction false} LoadIntoSave(acc: Store, s: Store, tail: seq<SavedSecret>)
    requires UniqueKeys(acc + s)
    ensures LoadInto(acc, Save(s) + tail) == LoadInto(acc + s, tail)
    decreases |s|
  {
    if |s| == 0 {
      assert acc + s == acc;
      assert Save(s) + tail == tail;
    } else {
      ShiftFirst(acc, s);
      LoadIntoSave(acc + [s[0]], s[1..], tail);
      LoadFirstSaved(acc, s, tail);
    }
  }

  /** The step of LoadIntoSave: the first saved item loads, then the rest as before. */
  lemma LoadFirstSaved(acc: Store, s: Store, tail: seq<SavedSecret>)
    requires |s| > 0 && s[0].key !in Keys(acc)
    ensures LoadInto(acc, Save(s) + tail) == LoadInto(acc + [s[0]], Save(s[1..]) + tail)
  {
    SaveFirst(s, tail);
    LoadOne(acc, s[0], Save(s[1..]) + tail);
  }

  lemma SaveFirst(s: Store, tail: seq<SavedSecret>)
    requires |s| > 0
    ensures Save(s) + tail == [SaveOne(s[0])] + (Save(s[1..]) + tail)
  {
    assert Save(s) == [SaveOne(s[0])] + Save(s[1..]);
  }

  /**
   * Loading what `_save_secrets` wrote gives back the same dict: the same
   * items, with the same values, in the same order.
   */
  lemma LoadSave(s: Store)
    requires UniqueKeys(s)
    ensures Load(Save(s)) == s
  {
    assert [] + s == s;
    assert Save(s) + [] == Save(s);
    LoadIntoSave([], s, []);
  }

  /**
   * A triple that does not decode ends the load: the items before it are
   * kept and nothing after it is read.
   */
  lemma LoadStopsAtBadEntry(s: Store, bad: SavedSecret, rest: seq<SavedSecret>)
    requires UniqueKeys(s)
    requires Base64.Decode(bad.key).None? || Base64.Decode(bad.value).None?
    ensures Load(Save(s) + [bad] + rest) == s
  {
    assert [] + s == s;
    assert Save(s) + [bad] + rest == Save(s) + ([bad] + rest);
    LoadIntoSave([], s, [bad] + rest);
    assert ([bad] + rest)[0] == bad;
  }
}
