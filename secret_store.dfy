/**
 * The pairing-secret store: a Python dict from `(sec_type, key)` to `value`.
 * It is modelled with the Python language's dict semantics, which keep the
 * order in which keys were first inserted: the store is an insertion-ordered
 * sequence of entries with pairwise distinct keys.
 */
module SecretStore {
  import opened Types

  /** The dict key `(sec_type, bytes(key))`. */
  datatype SecretKey = SecretKey(secType: int, peer: Bytes)

  /** One dict item. */
  datatype Secret = Secret(key: SecretKey, value: Bytes)

  /** The dict's items in insertion order. */
  type Store = seq<Secret>

  function Keys(s: Store): set<SecretKey>
  {
    if |s| == 0 then {} else {s[0].key} + Keys(s[1..])
  }

  /** No key occurs twice, as in every dict. */
  predicate UniqueKeys(s: Store)
  {
    |s| == 0 || (s[0].key !in Keys(s[1..]) && UniqueKeys(s[1..]))
  }

  lemma {:induction false} KeysConcat(a: Store, b: Store)
    ensures Keys(a + b) == Keys(a) + Keys(b)
  {
    if |a| > 0 {
      assert (a + b)[0] == a[0];
      assert (a + b)[1..] == a[1..] + b;
      KeysConcat(a[1..], b);
    } else {
      assert a + b == b;
    }
  }

  /** Two stores glued together have distinct keys when each has and they share none. */
  lemma {:induction false} UniqueKeysConcat(a: Store, b: Store)
    ensures UniqueKeys(a + b) <==> UniqueKeys(a) && UniqueKeys(b) && Keys(a) !! Keys(b)
  {
    if |a| > 0 {
      assert (a + b)[0] == a[0];
      assert (a + b)[1..] == a[1..] + b;
      UniqueKeysConcat(a[1..], b);
      KeysConcat(a[1..], b);
    } else {
      assert a + b == b;
    }
  }

  /** `d.get(k, None)` */
  function Lookup(s: Store, k: SecretKey): (r: Option<Bytes>)
    ensures r.Some? <==> k in Keys(s)
    ensures r.Some? ==> Secret(k, r.value) in s
  {
    if |s| == 0 then None
    else if s[0].key == k then Some(s[0].value)
    else Lookup(s[1..], k)
  }

  /** With distinct keys, a lookup finds exactly the value stored with the key. */
  lemma {:induction false} LookupExact(s: Store, k: SecretKey, v: Bytes)
    requires UniqueKeys(s)
    ensures Lookup(s, k) == Some(v) <==> Secret(k, v) in s
  {
    if |s| > 0 {
      LookupExact(s[1..], k, v);
      if Secret(k, v) in s[1..] {
        KeyOfMember(s[1..], Secret(k, v));
      }
    }
  }

  lemma {:induction false} KeyOfMember(s: Store, e: Secret)
    requires e in s
    ensures e.key in Keys(s)
  {
    if s[0] != e {
      KeyOfMember(s[1..], e);
    }
  }

  /**
   * `d[k] = v`: an existing key keeps its place and takes the new value; a
   * new key goes to the end.
   */
  function Put(s: Store, k: SecretKey, v: Bytes): (r: Store)
    ensures Lookup(r, k) == Some(v)
    ensures forall k' :: k' != k ==> Lookup(r, k') == Lookup(s, k')
    ensures Keys(r) == Keys(s) + {k}
    ensures UniqueKeys(s) ==> UniqueKeys(r)
    ensures k !in Keys(s) ==> r == s + [Secret(k, v)]
    ensures k in Keys(s) ==> |r| == |s| && forall i :: 0 <= i < |s| ==> r[i].key == s[i].key
  {
    if |s| == 0 then [Secret(k, v)]
    else if s[0].key == k then [Secret(k, v)] + s[1..]
    else [s[0]] + Put(s[1..], k, v)
  }

  /**
   * `del d[k]`: the entry for `k` goes, the others keep their order. The
   * caller checks first that `k` is present.
   */
  function Remove(s: Store, k: SecretKey): (r: Store)
    ensures forall k' :: k' != k ==> Lookup(r, k') == Lookup(s, k')
    ensures UniqueKeys(s) ==> UniqueKeys(r) && Lookup(r, k) == None && Keys(r) == Keys(s) - {k}
    ensures k !in Keys(s) ==> r == s
  {
    if |s| == 0 then []
    else if s[0].key == k then s[1..]
    else [s[0]] + Remove(s[1..], k)
  }

  /** Removing a present key takes out exactly one entry and keeps the order of the rest. */
  lemma {:induction false} RemoveOne(s: Store, k: SecretKey)
    requires k in Keys(s)
    ensures exists i :: 0 <= i < |s| && s[i].key == k && Remove(s, k) == s[..i] + s[i + 1..]
  {
    if s[0].key == k {
      assert Remove(s, k) == s[..0] + s[1..];
    } else {
      RemoveOne(s[1..], k);
      var i :| 0 <= i < |s[1..]| && s[1..][i].key == k && Remove(s[1..], k) == s[1..][..i] + s[1..][i + 1..];
      RemoveOneStep(s, k, i);
    }
  }

  lemma RemoveOneStep(s: Store, k: SecretKey, i: int)
    requires |s| > 0 && s[0].key != k
    requires 0 <= i < |s| - 1 && s[i + 1].key == k && Remove(s[1..], k) == s[1..][..i] + s[1..][i + 1..]
    ensures Remove(s, k) == s[..i + 1] + s[i + 2..]
  {
    assert Remove(s, k) == [s[0]] + Remove(s[1..], k);
    assert [s[0]] + s[1..][..i] == s[..i + 1];
    assert s[1..][i + 1..] == s[i + 2..];
  }

  /** How many entries have security type `t`. */
  function CountOfType(s: Store, t: int): (n: nat)
  {
    if |s| == 0 then 0 else (if s[0].key.secType == t then 1 else 0) + CountOfType(s[1..], t)
  }

  /** The values of the entries of one security type, in insertion order: one per such entry. */
  function ValuesOfType(s: Store, t: int): (r: seq<Bytes>)
    ensures |r| == CountOfType(s, t) <= |s|
  {
    if |s| == 0 then []
    else (if s[0].key.secType == t then [s[0].value] else []) + ValuesOfType(s[1..], t)
  }

  lemma {:induction false} ValuesOfTypeConcat(a: Store, b: Store, t: int)
    ensures ValuesOfType(a + b, t) == ValuesOfType(a, t) + ValuesOfType(b, t)
  {
    if |a| > 0 {
      assert (a + b)[0] == a[0];
      assert (a + b)[1..] == a[1..] + b;
      ValuesOfTypeConcat(a[1..], b, t);
    } else {
      assert a + b == b;
    }
  }

  /** The `index`-th entry of type `t`, counting from 0 in insertion order, or None. */
  function NthOfType(s: Store, t: int, index: int): (r: Option<Bytes>)
    ensures r.Some? <==> 0 <= index < CountOfType(s, t)
    ensures r.Some? ==> r.value in ValuesOfType(s, t)
  {
    var vs := ValuesOfType(s, t);
    if 0 <= index < |vs| then Some(vs[index]) else None
  }

  /**
   * The entry at position j of type t is the one NthOfType returns for the
   * number of entries of type t before it.
   */
  lemma NthOfTypeAt(s: Store, t: int, j: int)
    requires 0 <= j < |s| && s[j].key.secType == t
    ensures NthOfType(s, t, |ValuesOfType(s[..j], t)|) == Some(s[j].value)
  {
    assert s == s[..j] + [s[j]] + s[j + 1..];
    ValuesOfTypeConcat(s[..j] + [s[j]], s[j + 1..], t);
    ValuesOfTypeConcat(s[..j], [s[j]], t);
    assert ValuesOfType([s[j]], t) == [s[j].value];
  }

  /** Every value NthOfType returns sits in an entry of the requested type. */
  lemma {:induction false} NthOfTypeIsEntry(s: Store, t: int, index: int)
    requires NthOfType(s, t, index).Some?
    ensures exists j :: 0 <= j < |s| && s[j].key.secType == t && s[j].value == NthOfType(s, t, index).value
              && |ValuesOfType(s[..j], t)| == index
  {
    if s[0].key.secType == t && index == 0 {
      assert s[..0] == [];
    } else {
      var index' := if s[0].key.secType == t then index - 1 else index;
      assert NthOfType(s[1..], t, index') == NthOfType(s, t, index);
      NthOfTypeIsEntry(s[1..], t, index');
      var j :| 0 <= j < |s[1..]| && s[1..][j].key.secType == t && s[1..][j].value == NthOfType(s, t, index).value
                && |ValuesOfType(s[1..][..j], t)| == index';
      assert s[..j + 1] == [s[0]] + s[1..][..j];
      ValuesOfTypeConcat([s[0]], s[1..][..j], t);
    }
  }

  /**
   * Insertion order: a new key is enumerated after every entry of its type
   * already present, and the earlier entries keep their indices.
   */
  lemma PutNewKeyEnumeratesLast(s: Store, k: SecretKey, v: Bytes)
    requires k !in Keys(s)
    ensures ValuesOfType(Put(s, k, v), k.secType) == ValuesOfType(s, k.secType) + [v]
    ensures NthOfType(Put(s, k, v), k.secType, |ValuesOfType(s, k.secType)|) == Some(v)
    ensures forall i :: 0 <= i < |ValuesOfType(s, k.secType)| ==>
              NthOfType(Put(s, k, v), k.secType, i) == NthOfType(s, k.secType, i)
  {
    ValuesOfTypeConcat(s, [Secret(k, v)], k.secType);
  }
}
