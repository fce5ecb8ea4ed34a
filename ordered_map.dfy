/** JavaScript's `Map`: a dictionary that remembers the order in which keys
    were first inserted. `set` on a present key replaces its value and keeps
    its position, `delete` removes a key, and `forEach` visits the keys in
    insertion order. */
module OrderedMaps {

  /** No element of `s` occurs twice. */
  ghost predicate Distinct<T>(s: seq<T>)
  {
    forall i, j :: 0 <= i < j < |s| ==> s[i] != s[j]
  }

  /** The elements of `s` that are not in `drop`, in their order in `s`. */
  function Minus<T(==,!new)>(s: seq<T>, drop: seq<T>): (r: seq<T>)
    ensures forall x :: x in r <==> x in s && x !in drop
    ensures |r| <= |s|
  {
    if s == [] then []
    else (if s[0] in drop then [] else [s[0]]) + Minus(s[1..], drop)
  }

  /** The elements of `s`, each at the place of its first occurrence. */
  function Dedup<T(==,!new)>(s: seq<T>): (r: seq<T>)
    ensures forall x :: x in r <==> x in s
    ensures Distinct(r)
  {
    if s == [] then []
    else
      var rest := Minus(Dedup(s[1..]), [s[0]]);
      MinusDistinct(Dedup(s[1..]), [s[0]]);
      ConsDistinct(s[0], rest);
      [s[0]] + rest
  }

  lemma ConsDistinct<T>(x: T, r: seq<T>)
    requires Distinct(r) && x !in r
    ensures Distinct([x] + r)
  {
    forall i, j | 0 <= i < j < |[x] + r| ensures ([x] + r)[i] != ([x] + r)[j] {
      assert ([x] + r)[j] == r[j - 1];
      if i > 0 { assert ([x] + r)[i] == r[i - 1]; }
    }
  }

  /** `Minus` keeps a sequence free of repetitions. */
  lemma {:induction false} MinusDistinct<T(!new)>(s: seq<T>, drop: seq<T>)
    requires Distinct(s)
    ensures Distinct(Minus(s, drop))
  {
    if s != [] {
      MinusDistinct(s[1..], drop);
      assert s[0] !in s[1..] by {
        forall i | 0 <= i < |s[1..]| ensures s[1..][i] != s[0] {
          assert s[1..][i] == s[i + 1];
        }
      }
    }
  }

  lemma {:induction false} MinusAppend<T(!new)>(a: seq<T>, b: seq<T>, drop: seq<T>)
    ensures Minus(a + b, drop) == Minus(a, drop) + Minus(b, drop)
  {
    if a == [] {
      assert a + b == b;
    } else {
      assert (a + b)[1..] == a[1..] + b;
      MinusAppend(a[1..], b, drop);
    }
  }

  /** Dropping `d` and then `k` is dropping `d + [k]`. */
  lemma {:induction false} MinusMinus<T(!new)>(s: seq<T>, d: seq<T>, k: T)
    ensures Minus(Minus(s, d), [k]) == Minus(s, d + [k])
  {
    if s != [] {
      MinusMinus(s[1..], d, k);
      var head := if s[0] in d then [] else [s[0]];
      MinusAppend(head, Minus(s[1..], d), [k]);
    }
  }

  /** Dropping everything leaves nothing. */
  lemma {:induction false} MinusAll<T(!new)>(s: seq<T>, drop: seq<T>)
    requires forall x :: x in s ==> x in drop
    ensures Minus(s, drop) == []
  {
    if s != [] {
      MinusAll(s[1..], drop);
    }
  }

  /** Dropping nothing changes nothing. */
  lemma {:induction false} MinusNothing<T(!new)>(s: seq<T>, drop: seq<T>)
    requires forall x :: x in s ==> x !in drop
    ensures Minus(s, drop) == s
  {
    if s != [] {
      MinusNothing(s[1..], drop);
    }
  }

  /** Deduplicating a sequence extended by one element: the element joins
      the end only if it was new. */
  lemma {:induction false} DedupSnoc<T(!new)>(s: seq<T>, x: T)
    ensures Dedup(s + [x]) == if x in s then Dedup(s) else Dedup(s) + [x]
  {
    if s != [] {
      var t := s + [x];
      assert t[0] == s[0] && t[1..] == s[1..] + [x];
      var d1 := Dedup(s[1..]);
      var head := [s[0]];
      assert Dedup(t) == head + Minus(Dedup(s[1..] + [x]), head);
      assert Dedup(s) == head + Minus(d1, head);
      DedupSnoc(s[1..], x);
      if x in s[1..] {
        assert Dedup(s[1..] + [x]) == d1;
        assert x in s;
      } else {
        assert Dedup(s[1..] + [x]) == d1 + [x];
        MinusAppend(d1, [x], head);
        if x == s[0] {
          assert Minus([x], head) == [];
          assert Minus(d1 + [x], head) == Minus(d1, head);
        } else {
          assert Minus([x], head) == [x];
          assert x !in s;
          AppendAssoc(head, Minus(d1, head), [x]);
        }
      }
    }
  }

  lemma AppendAssoc<T>(a: seq<T>, b: seq<T>, c: seq<T>)
    ensures a + (b + c) == (a + b) + c
  {
  }

  lemma TakeOneMore<T>(s: seq<T>, i: int)
    requires 0 <= i < |s|
    ensures s[..i + 1] == s[..i] + [s[i]]
  {
  }

  lemma SplitLast<T>(s: seq<T>)
    requires s != []
    ensures s == s[..|s| - 1] + [s[|s| - 1]]
  {
  }

  lemma AppendRight<T>(a: seq<T>, b: seq<T>, j: int)
    requires |a| <= j < |a| + |b|
    ensures (a + b)[j] == b[j - |a|]
  {
  }

  /** A sequence without repetitions is its own deduplication. */
  lemma {:induction false} DedupDistinct<T(!new)>(s: seq<T>)
    requires Distinct(s)
    ensures Dedup(s) == s
  {
    if s != [] {
      assert Distinct(s[1..]) by {
        forall i, j | 0 <= i < j < |s[1..]| ensures s[1..][i] != s[1..][j] {
          assert s[1..][i] == s[i + 1] && s[1..][j] == s[j + 1];
        }
      }
      DedupDistinct(s[1..]);
      assert s[0] !in s[1..] by {
        forall i | 0 <= i < |s[1..]| ensures s[1..][i] != s[0] {
          assert s[1..][i] == s[i + 1];
        }
      }
      MinusNothing(s[1..], [s[0]]);
    }
  }

  /** The position of the last occurrence of `k` in `ks`. */
  function LastIndex<T(==)>(ks: seq<T>, k: T): (i: nat)
    requires k in ks
    ensures i < |ks| && ks[i] == k
    ensures forall j :: i < j < |ks| ==> ks[j] != k
  {
    if ks[|ks| - 1] == k then |ks| - 1
    else
      assert k in ks[..|ks| - 1] by {
        var i :| 0 <= i < |ks| && ks[i] == k;
        assert ks[..|ks| - 1][i] == k;
      }
      LastIndex(ks[..|ks| - 1], k)
  }

  /** In a sequence without repetitions the last occurrence is the only one. */
  lemma LastIndexDistinct<T>(ks: seq<T>, i: int)
    requires Distinct(ks) && 0 <= i < |ks|
    ensures LastIndex(ks, ks[i]) == i
  {
  }

  /** Appending a different element does not move the last occurrence. */
  lemma LastIndexSnoc<T>(ks: seq<T>, x: T, k: T)
    requires k in ks && k != x
    ensures LastIndex(ks + [x], k) == LastIndex(ks, k)
  {
    assert (ks + [x])[..|ks|] == ks;
  }

  /** The keys of a list of key/value pairs. */
  function Firsts<K, V>(kvs: seq<(K, V)>): (r: seq<K>)
    ensures |r| == |kvs|
    ensures forall i :: 0 <= i < |kvs| ==> r[i] == kvs[i].0
  {
    if kvs == [] then [] else [kvs[0].0] + Firsts(kvs[1..])
  }

  lemma {:induction false} FirstsAppend<K, V>(a: seq<(K, V)>, b: seq<(K, V)>)
    ensures Firsts(a + b) == Firsts(a) + Firsts(b)
  {
  }

  lemma FirstsSnoc<K, V>(kvs: seq<(K, V)>)
    requires kvs != []
    ensures Firsts(kvs) == Firsts(kvs[..|kvs| - 1]) + [kvs[|kvs| - 1].0]
  {
    var init, last := kvs[..|kvs| - 1], kvs[|kvs| - 1];
    assert kvs == init + [last];
    FirstsAppend(init, [last]);
    assert Firsts([last]) == [last.0];
  }

  datatype OrderedMap<K(==,!new), V> = OrderedMap(keys: seq<K>, vals: map<K, V>)
  {
    /** The order lists every key once, and only the keys. */
    ghost predicate Valid()
    {
      Distinct(keys) && forall k :: k in vals <==> k in keys
    }

    /** `map.set(k, v)`. */
    function Set(k: K, v: V): (m: OrderedMap<K, V>)
      requires Valid()
      ensures m.Valid()
      ensures m.vals == vals[k := v]
      ensures m.keys == if k in vals then keys else keys + [k]
    {
      if k in vals then OrderedMap(keys, vals[k := v]) else OrderedMap(keys + [k], vals[k := v])
    }

    /** `map.delete(k)`. */
    function Delete(k: K): (m: OrderedMap<K, V>)
      requires Valid()
      ensures m.Valid()
      ensures m.vals == vals - {k}
      ensures m.keys == Minus(keys, [k])
    {
      MinusDistinct(keys, [k]);
      OrderedMap(Minus(keys, [k]), vals - {k})
    }
  }

  /** `new Map()`. */
  function Empty<K(==,!new), V>(): (m: OrderedMap<K, V>)
    ensures m.Valid() && m.keys == [] && m.vals == map[]
  {
    OrderedMap([], map[])
  }

  /** The map that `set` calls for the pairs of `kvs`, in order, build from
      an empty map: `new Map(kvs)`. */
  function FromPairs<K(==,!new), V>(kvs: seq<(K, V)>): (m: OrderedMap<K, V>)
    ensures m.Valid()
  {
    if kvs == [] then Empty()
    else FromPairs(kvs[..|kvs| - 1]).Set(kvs[|kvs| - 1].0, kvs[|kvs| - 1].1)
  }

  /** One more pair is one more `set`. */
  lemma FromPairsSnoc<K(!new), V>(kvs: seq<(K, V)>, p: (K, V))
    ensures FromPairs(kvs + [p]) == FromPairs(kvs).Set(p.0, p.1)
  {
    assert (kvs + [p])[..|kvs|] == kvs;
  }

  /** The keys of the built map are the keys of the pairs in order of first
      appearance. */
  lemma {:induction false} FromPairsKeys<K(!new), V>(kvs: seq<(K, V)>)
    ensures FromPairs(kvs).keys == Dedup(Firsts(kvs))
  {
    if kvs != [] {
      var init, last := kvs[..|kvs| - 1], kvs[|kvs| - 1];
      var m0 := FromPairs(init);
      var fi := Firsts(init);
      assert FromPairs(kvs) == m0.Set(last.0, last.1);
      FromPairsKeys(init);
      FirstsSnoc(kvs);
      DedupSnoc(fi, last.0);
      assert last.0 in m0.vals <==> last.0 in fi by {
        assert last.0 in m0.vals <==> last.0 in m0.keys;
      }
    }
  }

  /** Each key of the built map holds the value of its LAST pair. */
  lemma {:induction false} FromPairsVals<K(!new), V>(kvs: seq<(K, V)>)
    ensures forall k :: k in FromPairs(kvs).vals <==> k in Firsts(kvs)
    ensures forall k :: k in FromPairs(kvs).vals ==>
      FromPairs(kvs).vals[k] == kvs[LastIndex(Firsts(kvs), k)].1
  {
    if kvs != [] {
      var init, last := kvs[..|kvs| - 1], kvs[|kvs| - 1];
      FromPairsVals(init);
      var fi, fs := Firsts(init), Firsts(kvs);
      assert fs == fi + [last.0];
      var m0, m := FromPairs(init), FromPairs(kvs);
      assert m.vals == m0.vals[last.0 := last.1];
      forall k | k in m.vals
        ensures m.vals[k] == kvs[LastIndex(fs, k)].1
      {
        if k != last.0 {
          LastIndexSnoc(fi, last.0, k);
          assert kvs[LastIndex(fi, k)] == init[LastIndex(fi, k)];
        }
      }
    }
  }
}
