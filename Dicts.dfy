/**
 * A Python `dict` from strings to strings, keeping insertion order: the
 * rows of the request log are such dicts, and the order of their keys is
 * what becomes the CSV header when the log is rewritten.
 */
module Dicts {
  import opened Wrappers

  type Dict = seq<(string, string)>

  /** `list(d.keys())`. */
  function Keys(d: Dict): (ks: seq<string>)
    ensures |ks| == |d|
    ensures forall i :: 0 <= i < |d| ==> ks[i] == d[i].0
  {
    if d == [] then [] else [d[0].0] + Keys(d[1..])
  }

  predicate UniqueKeys(d: Dict)
  {
    forall i, j :: 0 <= i < j < |d| ==> d[i].0 != d[j].0
  }

  /** No string appears twice in `s`. */
  predicate NoDuplicates(s: seq<string>)
  {
    forall i, j :: 0 <= i < j < |s| ==> s[i] != s[j]
  }

  /**
   * A dict literal `{keys[0]: values[0], ...}`, written with its keys in
   * the given order.
   */
  function FromPairs(keys: seq<string>, values: seq<string>): (d: Dict)
    requires |keys| == |values|
    ensures |d| == |keys|
  {
    seq(|keys|, i requires 0 <= i < |keys| => (keys[i], values[i]))
  }

  /**
   * A literal with distinct keys lists exactly those keys, in order, and
   * looking up each key gives the value written beside it.
   */
  lemma FromPairsLookup(keys: seq<string>, values: seq<string>)
    requires |keys| == |values| && NoDuplicates(keys)
    ensures Keys(FromPairs(keys, values)) == keys
    ensures forall i :: 0 <= i < |keys| ==> Lookup(FromPairs(keys, values), keys[i]) == Some(values[i])
  {
    var d := FromPairs(keys, values);
    assert Keys(d) == keys;
    UniqueKeysNoDuplicates(d);
    forall i | 0 <= i < |keys| ensures Lookup(d, keys[i]) == Some(values[i]) {
      LookupAt(d, i);
    }
  }

  /** `d[k]` if `k in d`, otherwise nothing. */
  function Lookup(d: Dict, k: string): (r: Option<string>)
    ensures r.None? <==> k !in Keys(d)
  {
    if d == [] then None
    else if d[0].0 == k then Some(d[0].1)
    else Lookup(d[1..], k)
  }

  /** `d.get(k, default)`. */
  function Get(d: Dict, k: string, default: string): string
  {
    match Lookup(d, k)
    case Some(v) => v
    case None => default
  }

  /** `d.get(k, default)` is the stored value when `k` is a key, and the default otherwise. */
  lemma GetStoredOrDefault(d: Dict, k: string, default: string)
    ensures k in Keys(d) ==> Lookup(d, k) == Some(Get(d, k, default))
    ensures k !in Keys(d) ==> Get(d, k, default) == default
  {
  }

  /**
   * `d[k] = v`: an existing key keeps its position and takes the new value;
   * a new key goes to the end.
   */
  function Set(d: Dict, k: string, v: string): (r: Dict)
    ensures Lookup(r, k) == Some(v)
    ensures forall k' :: k' != k ==> Lookup(r, k') == Lookup(d, k')
    ensures Keys(r) == if k in Keys(d) then Keys(d) else Keys(d) + [k]
  {
    if d == [] then [(k, v)]
    else if d[0].0 == k then
      var r := [(k, v)] + d[1..];
      assert r[1..] == d[1..];
      r
    else
      var rest := Set(d[1..], k, v);
      var r := [d[0]] + rest;
      assert r[1..] == rest;
      r
  }

  /** Assignment keeps the keys of a dict unique. */
  lemma {:induction false} SetKeepsUnique(d: Dict, k: string, v: string)
    requires UniqueKeys(d)
    ensures UniqueKeys(Set(d, k, v))
  {
    if d != [] {
      if d[0].0 == k {
        assert Keys(Set(d, k, v)) == Keys(d);
        UniqueKeysNoDuplicates(d);
        UniqueKeysNoDuplicates(Set(d, k, v));
      } else {
        SetKeepsUnique(d[1..], k, v);
        assert d[0].0 !in Keys(d[1..]);
        assert Set(d, k, v) == [d[0]] + Set(d[1..], k, v);
        ConsUnique(d[0], Set(d[1..], k, v));
      }
    }
  }

  /** Putting a pair with a fresh key in front keeps the keys unique. */
  lemma ConsUnique(p: (string, string), rest: Dict)
    requires UniqueKeys(rest) && p.0 !in Keys(rest)
    ensures UniqueKeys([p] + rest)
  {
    var r := [p] + rest;
    forall i, j | 0 <= i < j < |r| ensures r[i].0 != r[j].0 {
      if i == 0 {
        assert r[j].0 == Keys(rest)[j - 1];
      } else {
        assert r[i] == rest[i - 1] && r[j] == rest[j - 1];
      }
    }
  }

  /** Keys are unique exactly when the key list has no duplicates. */
  lemma UniqueKeysNoDuplicates(d: Dict)
    ensures UniqueKeys(d) <==> NoDuplicates(Keys(d))
  {
  }

  /** With unique keys, the value found for the key at position `i` is the one stored there. */
  lemma {:induction false} LookupAt(d: Dict, i: nat)
    requires UniqueKeys(d) && i < |d|
    ensures Lookup(d, d[i].0) == Some(d[i].1)
  {
    if i > 0 {
      assert d[1..][i - 1] == d[i];
      LookupAt(d[1..], i - 1);
    }
  }

  /** A second assignment to the same key overrides the first. */
  lemma {:induction false} SetTwice(d: Dict, k: string, v1: string, v2: string)
    ensures Set(Set(d, k, v1), k, v2) == Set(d, k, v2)
  {
    if d != [] && d[0].0 != k {
      SetTwice(d[1..], k, v1, v2);
    }
  }
}
