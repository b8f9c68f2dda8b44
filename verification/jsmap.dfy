/**
 The JavaScript `Map<string, string>` the filter keeps for its forward and
 reverse mappings, as an association list in insertion order: `set` on a key
 already present replaces its value where it stands, `set` on a new key
 appends it, and iteration (`values()`, `Object.fromEntries`) follows that
 order. `ToMap` is the mapping the list denotes.
 */
module JsMap {
  import opened Wrappers

  type StringMap = seq<(string, string)>

  function Keys(m: StringMap): (r: seq<string>)
    ensures |r| == |m| && forall i :: 0 <= i < |m| ==> r[i] == m[i].0
    decreases |m|
  {
    if |m| == 0 then [] else [m[0].0] + Keys(m[1..])
  }

  /** `Array.from(m.values())`: the values in insertion order. */
  function Values(m: StringMap): (r: seq<string>)
    ensures |r| == |m| && forall i :: 0 <= i < |m| ==> r[i] == m[i].1
    decreases |m|
  {
    if |m| == 0 then [] else [m[0].1] + Values(m[1..])
  }

  /** No key is listed twice, as in every JavaScript Map. */
  predicate DistinctKeys(m: StringMap)
    decreases |m|
  {
    |m| == 0 || (m[0].0 !in Keys(m[1..]) && DistinctKeys(m[1..]))
  }

  /** The mapping the list denotes (an earlier entry for a key shadows a later one). */
  function ToMap(m: StringMap): (r: map<string, string>)
    ensures forall k :: k in r <==> k in Keys(m)
    decreases |m|
  {
    if |m| == 0 then map[] else ToMap(m[1..])[m[0].0 := m[0].1]
  }

  /** In a map with distinct keys, every entry is what the mapping says. */
  lemma {:induction false} ToMapAt(m: StringMap, i: nat)
    requires DistinctKeys(m) && i < |m|
    ensures m[i].0 in ToMap(m) && ToMap(m)[m[i].0] == m[i].1
    decreases |m|
  {
    if i > 0 {
      ToMapAt(m[1..], i - 1);
    }
  }

  /** With distinct keys, the values listed are exactly the values of the mapping. */
  lemma ValuesAreMapValues(m: StringMap)
    requires DistinctKeys(m)
    ensures forall v :: v in Values(m) <==> v in ToMap(m).Values
  {
    forall v | v in Values(m) ensures v in ToMap(m).Values {
      var i :| 0 <= i < |m| && Values(m)[i] == v;
      ToMapAt(m, i);
    }
    forall v | v in ToMap(m).Values ensures v in Values(m) {
      var k :| k in ToMap(m) && ToMap(m)[k] == v;
      var i :| 0 <= i < |m| && Keys(m)[i] == k;
      ToMapAt(m, i);
    }
  }

  /** `m.get(k)` (undefined as None). */
  function Get(m: StringMap, k: string): (r: Option<string>)
    ensures r.Some? <==> k in ToMap(m)
    ensures r.Some? ==> r.value == ToMap(m)[k]
    decreases |m|
  {
    if |m| == 0 then None
    else if m[0].0 == k then Some(m[0].1)
    else Get(m[1..], k)
  }

  /** `m.set(k, v)` */
  function Set(m: StringMap, k: string, v: string): (r: StringMap)
    ensures |r| == if k in Keys(m) then |m| else |m| + 1
    decreases |m|
  {
    if |m| == 0 then [(k, v)]
    else if m[0].0 == k then [(k, v)] + m[1..]
    else [m[0]] + Set(m[1..], k, v)
  }

  /** After `set`, the key maps to the new value and every other key keeps its value. */
  lemma {:induction false} SetToMap(m: StringMap, k: string, v: string)
    ensures ToMap(Set(m, k, v)) == ToMap(m)[k := v]
    decreases |m|
  {
    if |m| > 0 {
      var r := Set(m, k, v);
      if m[0].0 == k {
        assert r[1..] == m[1..];
      } else {
        SetToMap(m[1..], k, v);
        assert r[1..] == Set(m[1..], k, v);
      }
    }
  }

  /** `set` keeps the key order and appends a new key at the end. */
  lemma {:induction false} SetKeys(m: StringMap, k: string, v: string)
    ensures Keys(Set(m, k, v)) == if k in Keys(m) then Keys(m) else Keys(m) + [k]
    decreases |m|
  {
    if |m| > 0 {
      var r := Set(m, k, v);
      if m[0].0 == k {
        assert r[1..] == m[1..];
      } else {
        SetKeys(m[1..], k, v);
        assert r[1..] == Set(m[1..], k, v);
        assert k in Keys(m) <==> k in Keys(m[1..]);
      }
    }
  }

  /** After `set`, every value listed was listed before or is the new value. */
  lemma {:induction false} SetValues(m: StringMap, k: string, v: string)
    ensures forall x :: x in Values(Set(m, k, v)) ==> x in Values(m) || x == v
    decreases |m|
  {
    if |m| > 0 {
      var r := Set(m, k, v);
      if m[0].0 == k {
        assert r[1..] == m[1..];
        assert Values(r) == [v] + Values(m[1..]);
      } else {
        SetValues(m[1..], k, v);
        assert r[1..] == Set(m[1..], k, v);
        assert Values(r) == [m[0].1] + Values(Set(m[1..], k, v));
        assert Values(m) == [m[0].1] + Values(m[1..]);
      }
    }
  }

  /** `set` keeps the keys distinct. */
  lemma {:induction false} SetKeepsDistinct(m: StringMap, k: string, v: string)
    ensures DistinctKeys(m) ==> DistinctKeys(Set(m, k, v))
    decreases |m|
  {
    if |m| > 0 && DistinctKeys(m) {
      var r := Set(m, k, v);
      if m[0].0 == k {
        assert r[1..] == m[1..];
      } else {
        SetKeepsDistinct(m[1..], k, v);
        SetKeys(m[1..], k, v);
        assert r[1..] == Set(m[1..], k, v);
      }
    }
  }

  /** Setting a new key appends its entry. */
  lemma {:induction false} SetNewKeyAppends(m: StringMap, k: string, v: string)
    requires k !in Keys(m)
    ensures Set(m, k, v) == m + [(k, v)]
    decreases |m|
  {
    if |m| > 0 {
      assert Keys(m) == [m[0].0] + Keys(m[1..]);
      assert m[0].0 != k;
      assert Set(m, k, v) == [m[0]] + Set(m[1..], k, v);
      SetNewKeyAppends(m[1..], k, v);
      assert [m[0]] + (m[1..] + [(k, v)]) == m + [(k, v)];
    }
  }

  /** The keys of a list with one more entry at the end. */
  lemma KeysSnoc(init: StringMap, e: (string, string))
    ensures Keys(init + [e]) == Keys(init) + [e.0]
  {
    assert forall i :: 0 <= i < |init| ==> (init + [e])[i] == init[i];
  }

  /**
   `new Map(entries)`: the entries set one after another. Of entries with
   distinct keys, as `Object.entries` yields them, every one is in the map.
   */
  function FromEntries(es: seq<(string, string)>): (r: StringMap)
    ensures DistinctKeys(r)
    ensures forall k :: k in ToMap(r) <==> k in Keys(es)
    ensures DistinctKeys(es) ==> ToMap(r) == ToMap(es)
    decreases |es|
  {
    if |es| == 0 then []
    else
      var last := es[|es| - 1];
      var init := FromEntries(es[..|es| - 1]);
      KeysSnoc(es[..|es| - 1], last);
      assert es[..|es| - 1] + [last] == es;
      SetToMap(init, last.0, last.1);
      SetKeepsDistinct(init, last.0, last.1);
      DistinctKeysSnoc(es[..|es| - 1], last);
      ToMapSnoc(es[..|es| - 1], last);
      Set(init, last.0, last.1)
  }

  /** The mapping of a list with one more entry at the end, for a key not listed before. */
  lemma {:induction false} ToMapSnoc(init: StringMap, e: (string, string))
    ensures e.0 !in Keys(init) ==> ToMap(init + [e]) == ToMap(init)[e.0 := e.1]
    decreases |init|
  {
    if |init| > 0 && e.0 !in Keys(init) {
      var m := init + [e];
      assert m[1..] == init[1..] + [e];
      ToMapSnoc(init[1..], e);
    }
  }

  /** Distinctness of keys, read from the end of the list. */
  lemma {:induction false} DistinctKeysSnoc(init: StringMap, e: (string, string))
    ensures DistinctKeys(init + [e]) <==> DistinctKeys(init) && e.0 !in Keys(init)
    decreases |init|
  {
    var m := init + [e];
    if |init| > 0 {
      assert m[1..] == init[1..] + [e];
      DistinctKeysSnoc(init[1..], e);
      KeysSnoc(init[1..], e);
    }
  }

  /** Rebuilding a map from its own entries gives the same map, order included. */
  lemma {:induction false} FromEntriesOfDistinct(m: StringMap)
    requires DistinctKeys(m)
    ensures FromEntries(m) == m
    decreases |m|
  {
    if |m| > 0 {
      var init := m[..|m| - 1];
      var last := m[|m| - 1];
      assert init + [last] == m;
      DistinctKeysSnoc(init, last);
      FromEntriesOfDistinct(init);
      SetNewKeyAppends(init, last.0, last.1);
      assert last.0 !in Keys(init);
      assert init + [last] == m;
    }
  }
}
