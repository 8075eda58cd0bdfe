/** The insertion-ordered map the crawler keeps pins in (a JavaScript `Map`):
    the keys in the order they were first set, and the current value of each. */
module OrderedMaps {

  datatype OMap<K, V> = OMap(keys: seq<K>, items: map<K, V>) {

    /** Every key appears once, and exactly the listed keys have a value. */
    predicate Valid() {
      && (forall i, j :: 0 <= i < j < |keys| ==> keys[i] != keys[j])
      && (forall k :: k in items ==> k in keys)
      && (forall k :: k in keys ==> k in items)
    }

    /** `map.size`. */
    function Size(): nat {
      |keys|
    }

    /** `map.set(k, v)`: a key already present keeps its position and takes
        the new value; a new key goes after all others. */
    function Put(k: K, v: V): (m: OMap<K, V>)
      requires Valid()
      ensures m.Valid()
      ensures k in keys ==> m.keys == keys
      ensures k !in keys ==> m.keys == keys + [k]
      ensures k in m.items && m.items[k] == v
      ensures forall k' :: k' in items ==> k' in m.items
      ensures forall k' :: k' in m.items ==> k' == k || k' in items
      ensures forall k' :: k' != k && k' in items ==> m.items[k'] == items[k']
    {
      if k in items then OMap(keys, items[k := v]) else OMap(keys + [k], items[k := v])
    }

    /** `Array.from(map.values())`. */
    function Values(): (vs: seq<V>)
      requires Valid()
      ensures |vs| == |keys|
      ensures forall i :: 0 <= i < |keys| ==> vs[i] == items[keys[i]]
    {
      ValuesOf(keys, items)
    }

    /** `Array.from(map.entries())`. */
    function Entries(): (es: seq<(K, V)>)
      requires Valid()
      ensures |es| == |keys|
      ensures forall i :: 0 <= i < |keys| ==> es[i] == (keys[i], items[keys[i]])
    {
      EntriesOf(keys, items)
    }
  }

  function Empty<K, V>(): (m: OMap<K, V>)
    ensures m.Valid() && m.Size() == 0
  {
    OMap([], map[])
  }

  function ValuesOf<K, V>(ks: seq<K>, items: map<K, V>): (vs: seq<V>)
    requires forall k :: k in ks ==> k in items
    ensures |vs| == |ks|
    ensures forall i :: 0 <= i < |ks| ==> vs[i] == items[ks[i]]
  {
    if |ks| == 0 then [] else [items[ks[0]]] + ValuesOf(ks[1..], items)
  }

  function EntriesOf<K, V>(ks: seq<K>, items: map<K, V>): (es: seq<(K, V)>)
    requires forall k :: k in ks ==> k in items
    ensures |es| == |ks|
    ensures forall i :: 0 <= i < |ks| ==> es[i] == (ks[i], items[ks[i]])
  {
    if |ks| == 0 then [] else [(ks[0], items[ks[0]])] + EntriesOf(ks[1..], items)
  }

  /** The keys of a list of entries, in order. */
  function KeysOf<K, V>(es: seq<(K, V)>): (ks: seq<K>)
    ensures |ks| == |es|
    ensures forall i :: 0 <= i < |es| ==> ks[i] == es[i].0
  {
    if |es| == 0 then [] else KeysOf(es[..|es| - 1]) + [es[|es| - 1].0]
  }

  /** `for (const [k, v] of es) map.set(k, v)`. */
  function PutAll<K, V>(m: OMap<K, V>, es: seq<(K, V)>): (r: OMap<K, V>)
    requires m.Valid()
    ensures r.Valid()
    decreases |es|
  {
    if |es| == 0 then m else PutAll(m, es[..|es| - 1]).Put(es[|es| - 1].0, es[|es| - 1].1)
  }

  /** A reference order: each element at the place it was first seen,
      later repetitions dropped. */
  function FirstSeen<K(==)>(s: seq<K>): seq<K> {
    if |s| == 0 then []
    else FirstSeen(s[..|s| - 1]) + (if s[|s| - 1] in s[..|s| - 1] then [] else [s[|s| - 1]])
  }

  lemma {:induction false} FirstSeenMembers<K>(s: seq<K>)
    ensures forall x :: x in FirstSeen(s) <==> x in s
  {
    if |s| > 0 {
      FirstSeenMembers(s[..|s| - 1]);
      assert s == s[..|s| - 1] + [s[|s| - 1]];
    }
  }

  /** A list without repetitions is its own first-seen order. */
  lemma {:induction false} FirstSeenOfDistinct<K>(s: seq<K>)
    requires forall i, j :: 0 <= i < j < |s| ==> s[i] != s[j]
    ensures FirstSeen(s) == s
  {
    if |s| > 0 {
      var init := s[..|s| - 1];
      FirstSeenOfDistinct(init);
      assert s[|s| - 1] !in init by {
        forall i | 0 <= i < |init| ensures init[i] != s[|s| - 1] {
          assert init[i] == s[i];
        }
      }
      assert s == init + [s[|s| - 1]];
    }
  }

  /** Setting a run of entries leaves the keys in first-seen order: the old
      keys first, unchanged, then every new key where it first appeared. */
  lemma {:induction false} PutAllKeys<K, V>(m: OMap<K, V>, es: seq<(K, V)>)
    requires m.Valid()
    ensures PutAll(m, es).keys == FirstSeen(m.keys + KeysOf(es))
  {
    if |es| == 0 {
      assert m.keys + KeysOf(es) == m.keys;
      FirstSeenOfDistinct(m.keys);
    } else {
      var init := es[..|es| - 1];
      var e := es[|es| - 1];
      PutAllKeys(m, init);
      var s := m.keys + KeysOf(init);
      assert KeysOf(es) == KeysOf(init) + [e.0];
      assert m.keys + KeysOf(es) == s + [e.0];
      assert (s + [e.0])[..|s|] == s;
      FirstSeenMembers(s);
      var r := PutAll(m, init);
      assert e.0 in r.items <==> e.0 in r.keys;
    }
  }

  /** The old keys keep their positions. */
  lemma {:induction false} PutAllPrefix<K, V>(m: OMap<K, V>, es: seq<(K, V)>)
    requires m.Valid()
    ensures |m.keys| <= |PutAll(m, es).keys|
    ensures PutAll(m, es).keys[..|m.keys|] == m.keys
  {
    if |es| > 0 {
      PutAllPrefix(m, es[..|es| - 1]);
    }
  }

  /** The value kept for a key is the one its last entry carries. */
  lemma {:induction false} PutAllLastWins<K, V>(m: OMap<K, V>, es: seq<(K, V)>, i: nat)
    requires m.Valid()
    requires i < |es|
    requires forall j :: i < j < |es| ==> es[j].0 != es[i].0
    ensures es[i].0 in PutAll(m, es).items
    ensures PutAll(m, es).items[es[i].0] == es[i].1
  {
    if i < |es| - 1 {
      PutAllLastWins(m, es[..|es| - 1], i);
    }
  }

  /** A key no entry mentions keeps its old value, or stays absent. */
  lemma {:induction false} PutAllUntouched<K, V>(m: OMap<K, V>, es: seq<(K, V)>, k: K)
    requires m.Valid()
    requires forall j :: 0 <= j < |es| ==> es[j].0 != k
    ensures k in PutAll(m, es).items <==> k in m.items
    ensures k in m.items ==> PutAll(m, es).items[k] == m.items[k]
  {
    if |es| > 0 {
      PutAllUntouched(m, es[..|es| - 1], k);
    }
  }

  /** Setting entries with distinct new keys appends them in order, each
      with its own value. */
  lemma {:induction false} PutAllDistinct<K, V>(m: OMap<K, V>, es: seq<(K, V)>)
    requires m.Valid()
    requires forall i, j :: 0 <= i < j < |es| ==> es[i].0 != es[j].0
    requires forall i :: 0 <= i < |es| ==> es[i].0 !in m.items
    ensures PutAll(m, es).keys == m.keys + KeysOf(es)
    ensures forall i :: 0 <= i < |es| ==> PutAll(m, es).items[es[i].0] == es[i].1
  {
    if |es| > 0 {
      var init := es[..|es| - 1];
      PutAllDistinct(m, init);
      PutAllUntouched(m, init, es[|es| - 1].0);
      assert KeysOf(es) == KeysOf(init) + [es[|es| - 1].0];
    }
    forall i | 0 <= i < |es| ensures PutAll(m, es).items[es[i].0] == es[i].1 {
      PutAllLastWins(m, es, i);
    }
  }

  /** `for (const [k, v] of other.entries()) m.set(k, v)`. */
  function SetAll<K, V>(m: OMap<K, V>, other: OMap<K, V>): (r: OMap<K, V>)
    requires m.Valid() && other.Valid()
    ensures r.Valid()
  {
    PutAll(m, other.Entries())
  }

  /** Copying one map into another: the keys in first-seen order with the
      old keys in place, the copied map's value for each of its keys, and
      the old value for every other key. */
  lemma SetAllSpec<K, V>(m: OMap<K, V>, other: OMap<K, V>)
    requires m.Valid() && other.Valid()
    ensures SetAll(m, other).keys == FirstSeen(m.keys + other.keys)
    ensures |m.keys| <= |SetAll(m, other).keys| && SetAll(m, other).keys[..|m.keys|] == m.keys
    ensures forall k :: k in SetAll(m, other).items <==> k in m.items || k in other.items
    ensures forall k :: k in other.items ==> SetAll(m, other).items[k] == other.items[k]
    ensures forall k :: k in m.items && k !in other.items ==> SetAll(m, other).items[k] == m.items[k]
  {
    SetAllKeys(m, other);
    SetAllMembers(m, other);
    SetAllValues(m, other);
  }

  lemma SetAllKeys<K, V>(m: OMap<K, V>, other: OMap<K, V>)
    requires m.Valid() && other.Valid()
    ensures SetAll(m, other).keys == FirstSeen(m.keys + other.keys)
    ensures |m.keys| <= |SetAll(m, other).keys| && SetAll(m, other).keys[..|m.keys|] == m.keys
  {
    var es := other.Entries();
    PutAllKeys(m, es);
    PutAllPrefix(m, es);
    assert KeysOf(es) == other.keys;
  }

  lemma SetAllMembers<K, V>(m: OMap<K, V>, other: OMap<K, V>)
    requires m.Valid() && other.Valid()
    ensures forall k :: k in SetAll(m, other).items <==> k in m.items || k in other.items
  {
    var r := SetAll(m, other);
    SetAllKeys(m, other);
    FirstSeenMembers(m.keys + other.keys);
    forall k ensures k in r.items <==> k in m.items || k in other.items {
      assert k in r.items <==> k in r.keys;
      assert k in m.keys + other.keys <==> k in m.keys || k in other.keys;
    }
  }

  lemma SetAllValues<K, V>(m: OMap<K, V>, other: OMap<K, V>)
    requires m.Valid() && other.Valid()
    ensures forall k :: k in other.items ==> k in SetAll(m, other).items && SetAll(m, other).items[k] == other.items[k]
    ensures forall k :: k in m.items && k !in other.items ==>
              k in SetAll(m, other).items && SetAll(m, other).items[k] == m.items[k]
  {
    var es := other.Entries();
    var r := SetAll(m, other);
    forall k | k in other.items ensures k in r.items && r.items[k] == other.items[k] {
      var i :| 0 <= i < |other.keys| && other.keys[i] == k;
      PutAllLastWins(m, es, i);
    }
    forall k | k in m.items && k !in other.items ensures k in r.items && r.items[k] == m.items[k] {
      PutAllUntouched(m, es, k);
    }
  }

  /** A list without repetitions has as many elements as its set. */
  lemma {:induction false} DistinctCard<K>(a: seq<K>)
    requires forall i, j :: 0 <= i < j < |a| ==> a[i] != a[j]
    ensures |set x | x in a| == |a|
  {
    if |a| > 0 {
      var init := a[..|a| - 1];
      DistinctCard(init);
      assert (set x | x in a) == (set x | x in init) + {a[|a| - 1]};
      assert a[|a| - 1] !in init;
    }
  }

  /** A list has at least as many elements as its set. */
  lemma {:induction false} SetCardBound<K>(b: seq<K>)
    ensures |set x | x in b| <= |b|
  {
    if |b| > 0 {
      var init := b[..|b| - 1];
      SetCardBound(init);
      assert (set x | x in b) == (set x | x in init) + {b[|b| - 1]};
    }
  }
}
