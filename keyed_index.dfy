/**
 * The shape shared by `mergeLibraries` and `mergeCabinets`: walk a sequence
 * and fill a `Map` keyed by id, storing a new key as is and, on a clash,
 * storing `combine(stored, incoming)`.
 */
module KeyedIndex {
  import opened Seqs
  import opened OrderedMaps

  function Keys<V>(s: seq<V>, key: V -> string): (ks: seq<string>)
    ensures |ks| == |s|
    ensures forall i :: 0 <= i < |s| ==> ks[i] == key(s[i])
  {
    seq(|s|, i requires 0 <= i < |s| => key(s[i]))
  }

  lemma KeysAppend<V>(s: seq<V>, t: seq<V>, key: V -> string)
    ensures Keys(s + t, key) == Keys(s, key) + Keys(t, key)
  {
  }

  /** One `addOrUpdate` call. */
  function Upsert<V>(m: OrderedMap<V>, v: V, key: V -> string, combine: (V, V) -> V): (r: OrderedMap<V>)
    requires m.Valid()
    ensures r.Valid()
  {
    if key(v) in m.entries then m.Set(key(v), combine(m.entries[key(v)], v))
    else m.Set(key(v), v)
  }

  /** The map after `s.forEach(addOrUpdate)`, starting from an empty map. */
  function Index<V>(s: seq<V>, key: V -> string, combine: (V, V) -> V): (m: OrderedMap<V>)
    ensures m.Valid()
    ensures forall k :: k in m.entries <==> k in Keys(s, key)
  {
    if s == [] then EmptyMap()
    else
      var init := s[..|s| - 1];
      assert Keys(s, key) == Keys(init, key) + [key(s[|s| - 1])];
      Upsert(Index(init, key, combine), s[|s| - 1], key, combine)
  }

  /** Walking one more element is one more `addOrUpdate` call. */
  lemma IndexSnoc<V>(s: seq<V>, v: V, key: V -> string, combine: (V, V) -> V)
    ensures Index(s + [v], key, combine) == Upsert(Index(s, key, combine), v, key, combine)
  {
    assert (s + [v])[..|s + [v]| - 1] == s;
  }

  /** The same step, for a walk that has already covered `s` and the first `j` elements of `t`. */
  lemma IndexStep<V>(s: seq<V>, t: seq<V>, j: int, key: V -> string, combine: (V, V) -> V)
    requires 0 <= j < |t|
    ensures Index(s + t[..j + 1], key, combine) == Upsert(Index(s + t[..j], key, combine), t[j], key, combine)
  {
    assert s + t[..j + 1] == (s + t[..j]) + [t[j]];
    IndexSnoc(s + t[..j], t[j], key, combine);
  }

  /** The entries of `s` whose key is `k`, in order. */
  function WithKey<V>(s: seq<V>, key: V -> string, k: string): (r: seq<V>)
    ensures forall i :: 0 <= i < |r| ==> key(r[i]) == k
    ensures |r| > 0 <==> k in Keys(s, key)
    ensures |r| <= |s|
  {
    if s == [] then []
    else
      var init, last := s[..|s| - 1], s[|s| - 1];
      assert Keys(s, key) == Keys(init, key) + [key(last)];
      WithKey(init, key, k) + (if key(last) == k then [last] else [])
  }

  lemma {:induction false} WithKeyAppend<V>(s: seq<V>, t: seq<V>, key: V -> string, k: string)
    ensures WithKey(s + t, key, k) == WithKey(s, key, k) + WithKey(t, key, k)
  {
    if t == [] {
      assert s + t == s;
    } else {
      var t0, last := t[..|t| - 1], t[|t| - 1];
      var tail := if key(last) == k then [last] else [];
      WithKeyAppend(s, t0, key, k);
      assert (s + t)[..|s + t| - 1] == s + t0;
      assert (s + t)[|s + t| - 1] == last;
      assert WithKey(s + t, key, k) == WithKey(s + t0, key, k) + tail;
      assert WithKey(t, key, k) == WithKey(t0, key, k) + tail;
    }
  }

  /** An entry whose key no other entry shares is alone with its key. */
  lemma {:induction false} WithKeyAlone<V>(s: seq<V>, key: V -> string, i: int)
    requires 0 <= i < |s|
    requires forall j :: 0 <= j < |s| && j != i ==> key(s[j]) != key(s[i])
    ensures WithKey(s, key, key(s[i])) == [s[i]]
  {
    var init := s[..|s| - 1];
    if i == |s| - 1 {
      assert key(s[i]) !in Keys(init, key);
    } else {
      WithKeyAlone(init, key, i);
    }
  }

  lemma WithKeyUnique<V>(s: seq<V>, key: V -> string, i: int)
    requires Distinct(Keys(s, key))
    requires 0 <= i < |s|
    ensures WithKey(s, key, key(s[i])) == [s[i]]
  {
    forall j | 0 <= j < |s| && j != i
      ensures key(s[j]) != key(s[i])
    {
      assert Keys(s, key)[j] == key(s[j]) && Keys(s, key)[i] == key(s[i]);
    }
    WithKeyAlone(s, key, i);
  }

  /** The value a key ends with: `combine` folded over that key's entries, left to right. */
  function Fold1<V>(vs: seq<V>, combine: (V, V) -> V): V
    requires |vs| > 0
  {
    if |vs| == 1 then vs[0] else combine(Fold1(vs[..|vs| - 1], combine), vs[|vs| - 1])
  }

  /** `combine` keeps the key of what it merges. */
  ghost predicate KeepsKey<V(!new)>(key: V -> string, combine: (V, V) -> V) {
    forall a, b :: key(a) == key(b) ==> key(combine(a, b)) == key(b)
  }

  lemma {:induction false} Fold1Key<V(!new)>(vs: seq<V>, key: V -> string, combine: (V, V) -> V, k: string)
    requires KeepsKey(key, combine)
    requires |vs| > 0 && forall i :: 0 <= i < |vs| ==> key(vs[i]) == k
    ensures key(Fold1(vs, combine)) == k
  {
    if |vs| > 1 {
      Fold1Key(vs[..|vs| - 1], key, combine, k);
    }
  }

  /** The keys of the map are the distinct keys of `s`, in order of first appearance. */
  lemma {:induction false} IndexKeys<V>(s: seq<V>, key: V -> string, combine: (V, V) -> V)
    ensures Index(s, key, combine).keys == Dedup(Keys(s, key))
  {
    if s != [] {
      var init := s[..|s| - 1];
      IndexKeys(init, key, combine);
      assert Keys(s, key)[..|s| - 1] == Keys(init, key);
    }
  }

  /** The map is empty exactly when nothing was walked. */
  lemma IndexEmpty<V>(s: seq<V>, key: V -> string, combine: (V, V) -> V)
    ensures |Index(s, key, combine).keys| == 0 <==> s == []
  {
    IndexKeys(s, key, combine);
    if s != [] {
      assert Keys(s, key)[0] in Dedup(Keys(s, key));
    }
  }

  /** A key's value depends only on the entries with that key. */
  lemma {:induction false} IndexAt<V>(s: seq<V>, key: V -> string, combine: (V, V) -> V, k: string)
    requires k in Keys(s, key)
    ensures |WithKey(s, key, k)| > 0
    ensures Index(s, key, combine).entries[k] == Fold1(WithKey(s, key, k), combine)
  {
    var init, last := s[..|s| - 1], s[|s| - 1];
    assert Keys(s, key) == Keys(init, key) + [key(last)];
    var before := Index(init, key, combine);
    assert Index(s, key, combine) == Upsert(before, last, key, combine);
    if key(last) != k {
      IndexAt(init, key, combine, k);
      assert WithKey(s, key, k) == WithKey(init, key, k);
      assert Index(s, key, combine).entries[k] == before.entries[k];
      assert Index(s, key, combine).entries[k] == Fold1(WithKey(s, key, k), combine);
    } else if k in Keys(init, key) {
      IndexAt(init, key, combine, k);
      var w := WithKey(init, key, k);
      assert WithKey(s, key, k) == w + [last];
      assert (w + [last])[..|w + [last]| - 1] == w;
      assert Fold1(w + [last], combine) == combine(Fold1(w, combine), last);
      assert Index(s, key, combine).entries[k] == combine(before.entries[k], last);
      assert Index(s, key, combine).entries[k] == Fold1(WithKey(s, key, k), combine);
    } else {
      assert WithKey(init, key, k) == [];
      assert WithKey(s, key, k) == [last];
      assert Index(s, key, combine).entries[k] == last;
      assert Index(s, key, combine).entries[k] == Fold1(WithKey(s, key, k), combine);
    }
  }

  /**
   * What the merge returns: for each key of `s`, the folded value appears in
   * `Values()`, and it is the only listed value with that key.
   */
  lemma IndexValue<V(!new)>(s: seq<V>, key: V -> string, combine: (V, V) -> V, k: string)
    requires KeepsKey(key, combine)
    requires k in Keys(s, key)
    ensures |WithKey(s, key, k)| > 0
    ensures Fold1(WithKey(s, key, k), combine) in Index(s, key, combine).Values()
    ensures forall v :: v in Index(s, key, combine).Values() && key(v) == k ==>
              v == Fold1(WithKey(s, key, k), combine)
  {
    var m := Index(s, key, combine);
    IndexAt(s, key, combine, k);
    ValuesAre(m, m.entries[k]);
    forall v | v in m.Values() && key(v) == k
      ensures v == Fold1(WithKey(s, key, k), combine)
    {
      ValuesAre(m, v);
      var k' :| k' in m.entries && m.entries[k'] == v;
      IndexAt(s, key, combine, k');
      Fold1Key(WithKey(s, key, k'), key, combine, k');
    }
  }

  /** Each listed value carries the key it is stored under. */
  lemma IndexValuesKeys<V(!new)>(s: seq<V>, key: V -> string, combine: (V, V) -> V)
    requires KeepsKey(key, combine)
    ensures Keys(Index(s, key, combine).Values(), key) == Index(s, key, combine).keys
  {
    var m := Index(s, key, combine);
    forall i | 0 <= i < |m.keys|
      ensures key(m.Values()[i]) == m.keys[i]
    {
      var k := m.keys[i];
      IndexAt(s, key, combine, k);
      Fold1Key(WithKey(s, key, k), key, combine, k);
    }
  }
}
