/**
 * Python dicts keyed by strings, modelled as the sequence of their
 * (key, value) items in insertion order. Iteration order matters to the
 * normaliser (abbreviations are applied in table order and term keys are
 * tried in declaration order), so a `map` would lose information.
 */
module Tables {
  import opened Wrappers

  /** A dict from phrases to replacement phrases. */
  type Table = seq<(string, string)>

  /** The keys of a dict, in iteration order (`d.keys()`). */
  function Keys<V>(t: seq<(string, V)>): (r: seq<string>)
    ensures |r| == |t|
    ensures forall i :: 0 <= i < |t| ==> r[i] == t[i].0
  {
    seq(|t|, i requires 0 <= i < |t| => t[i].0)
  }

  /** A dict never holds the same key twice. */
  predicate DistinctKeys<V>(t: seq<(string, V)>) {
    forall i, j :: 0 <= i < j < |t| ==> t[i].0 != t[j].0
  }

  /** `key in d`. */
  predicate HasKey<V>(t: seq<(string, V)>, key: string) {
    exists i :: 0 <= i < |t| && t[i].0 == key
  }

  /** `v` is what `d[key]` returns: the value of the first item whose key is `key`. */
  ghost predicate StoredUnder<V>(t: seq<(string, V)>, key: string, v: V) {
    exists i :: 0 <= i < |t| && t[i] == (key, v) && forall j :: 0 <= j < i ==> t[j].0 != key
  }

  /**
   * `d.get(key)`: the value stored for `key`, or `None` when `key` is not a
   * key of the dict.
   */
  function Get<V>(t: seq<(string, V)>, key: string): (r: Option<V>)
    ensures r.None? <==> !HasKey(t, key)
    ensures r.Some? ==> StoredUnder(t, key, r.value)
  {
    if |t| == 0 then None
    else if t[0].0 == key then Some(t[0].1)
    else
      var r := Get(t[1..], key);
      assert r.Some? ==> exists i :: 1 <= i < |t| && t[i] == (key, r.value)
                                     && forall j :: 0 <= j < i ==> t[j].0 != key
      by {
        if r.Some? {
          var i :| 0 <= i < |t[1..]| && t[1..][i] == (key, r.value)
                   && forall j :: 0 <= j < i ==> t[1..][j].0 != key;
          assert t[i + 1] == (key, r.value);
          assert forall j :: 0 <= j < i + 1 ==> t[j].0 != key by {
            forall j | 0 <= j < i + 1 ensures t[j].0 != key {
              if j > 0 { assert t[j] == t[1..][j - 1]; }
            }
          }
        }
      }
      r
  }

  /** Looking up the key of an item yields that item's value when no earlier item has the same key. */
  lemma GetFirst<V>(t: seq<(string, V)>, i: nat)
    requires i < |t|
    requires forall j :: 0 <= j < i ==> t[j].0 != t[i].0
    ensures Get(t, t[i].0) == Some(t[i].1)
  {
  }

  /** In a dict, looking up the key of an item yields that item's value. */
  lemma GetItem<V>(t: seq<(string, V)>, i: nat)
    requires DistinctKeys(t)
    requires i < |t|
    ensures Get(t, t[i].0) == Some(t[i].1)
  {
  }
}
