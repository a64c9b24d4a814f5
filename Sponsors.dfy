/**
 * The sponsors dictionary `{cleaned_name: original_name}`: written by the Python
 * builder, serialised as JSON, and read by the browser matcher. It is modelled as
 * the sequence of its entries in iteration order, which is insertion order for a
 * Python `dict` and the order `for...in` visits the parsed JSON object.
 */
module Sponsors {

  import opened Wrappers

  /** A key (cleaned name) and its value (the name as registered). */
  type Entry = (string, string)

  /** No key occurs twice, as in any dictionary or object. */
  ghost predicate DistinctKeys(dict: seq<Entry>) {
    forall i, j :: 0 <= i < j < |dict| ==> dict[i].0 != dict[j].0
  }

  /** `key in dict` / `hasOwnProperty(key)`, then `dict[key]`. */
  function Lookup(dict: seq<Entry>, key: string): Option<string>
    decreases |dict|
  {
    if dict == [] then None
    else if dict[0].0 == key then Some(dict[0].1)
    else Lookup(dict[1..], key)
  }

  /**
   * `dict[key] = value`: a new key goes to the end; an existing key keeps its
   * place and takes the new value.
   */
  function Put(dict: seq<Entry>, key: string, value: string): seq<Entry>
    decreases |dict|
  {
    if dict == [] then [(key, value)]
    else if dict[0].0 == key then [(key, value)] + dict[1..]
    else [dict[0]] + Put(dict[1..], key, value)
  }

  /** A lookup finds a value exactly when the key is present, and the value is that entry's. */
  lemma {:induction false} LookupSpec(dict: seq<Entry>, key: string)
    ensures Lookup(dict, key).None? <==> forall i :: 0 <= i < |dict| ==> dict[i].0 != key
    ensures Lookup(dict, key).Some? ==>
              exists i :: 0 <= i < |dict| && dict[i] == (key, Lookup(dict, key).value)
    decreases |dict|
  {
    if dict != [] && dict[0].0 != key {
      LookupSpec(dict[1..], key);
      if Lookup(dict, key).Some? {
        var i :| 0 <= i < |dict[1..]| && dict[1..][i] == (key, Lookup(dict, key).value);
        assert dict[i + 1] == (key, Lookup(dict, key).value);
      }
      assert forall i :: 1 <= i < |dict| ==> dict[i] == dict[1..][i - 1];
    }
  }

  /** With distinct keys, the entry holding a key is the one a lookup returns. */
  lemma {:induction false} LookupEntry(dict: seq<Entry>, i: nat)
    requires DistinctKeys(dict) && i < |dict|
    ensures Lookup(dict, dict[i].0) == Some(dict[i].1)
    decreases i
  {
    if i > 0 {
      assert DistinctKeys(dict[1..]) by {
        assert forall k :: 0 <= k < |dict[1..]| ==> dict[1..][k] == dict[k + 1];
      }
      LookupEntry(dict[1..], i - 1);
    }
  }

  /** After `dict[key] = value`, the key maps to the value and every other key is unchanged. */
  lemma {:induction false} LookupPut(dict: seq<Entry>, key: string, value: string, other: string)
    ensures Lookup(Put(dict, key, value), key) == Some(value)
    ensures other != key ==> Lookup(Put(dict, key, value), other) == Lookup(dict, other)
    decreases |dict|
  {
    if dict != [] && dict[0].0 != key {
      LookupPut(dict[1..], key, value, other);
    }
  }

  /**
   * `dict[key] = value` keeps keys distinct, adds an entry only for a new key,
   * and leaves every other entry where it was.
   */
  lemma {:induction false} PutShape(dict: seq<Entry>, key: string, value: string)
    requires DistinctKeys(dict)
    ensures DistinctKeys(Put(dict, key, value))
    ensures |Put(dict, key, value)| == if Lookup(dict, key).Some? then |dict| else |dict| + 1
    ensures forall i :: 0 <= i < |dict| && dict[i].0 != key ==> Put(dict, key, value)[i] == dict[i]
    ensures forall i :: 0 <= i < |Put(dict, key, value)| ==>
              Put(dict, key, value)[i].0 == key || Put(dict, key, value)[i] in dict
    decreases |dict|
  {
    if dict != [] {
      var rest := dict[1..];
      assert DistinctKeys(rest) by {
        assert forall k :: 0 <= k < |rest| ==> rest[k] == dict[k + 1];
      }
      assert forall k :: 0 <= k < |rest| ==> rest[k] == dict[k + 1];
      if dict[0].0 != key {
        PutShape(rest, key, value);
        var p := Put(rest, key, value);
        assert Put(dict, key, value) == [dict[0]] + p;
        forall k | 0 <= k < |p| ensures p[k].0 != dict[0].0 {
          if p[k].0 != key {
            assert p[k] in rest;
            var m :| 0 <= m < |rest| && rest[m] == p[k];
            assert dict[m + 1] == p[k];
          }
        }
      } else {
        LookupSpec(rest, key);
      }
    }
  }

  /** After `dict[key] = value`, each entry is the new pair or an untouched entry with another key. */
  lemma PutEntries(dict: seq<Entry>, key: string, value: string)
    requires DistinctKeys(dict)
    ensures forall i :: 0 <= i < |Put(dict, key, value)| ==>
              Put(dict, key, value)[i] == (key, value) ||
              (Put(dict, key, value)[i].0 != key && Put(dict, key, value)[i] in dict)
  {
    var p := Put(dict, key, value);
    PutShape(dict, key, value);
    LookupPut(dict, key, value, key);
    forall i | 0 <= i < |p| && p[i].0 == key ensures p[i] == (key, value) {
      LookupEntry(p, i);
    }
  }
}
