/** Python dictionaries. A dict remembers the order in which its keys were
    first inserted: assigning to an existing key keeps its place, assigning to a
    new key appends it. The model is the list of items in that order; `IsDict`
    says the keys are distinct, and `ToMap` forgets the order. */
module Dicts {

  type Dict<K, V> = seq<(K, V)>

  function Keys<K, V>(d: Dict<K, V>): seq<K>
  {
    seq(|d|, i requires 0 <= i < |d| => d[i].0)
  }

  predicate IsDict<K(==), V>(d: Dict<K, V>)
  {
    forall i, j :: 0 <= i < j < |d| ==> d[i].0 != d[j].0
  }

  /** Position of key `k` among the items. */
  function IndexOf<K(==), V>(d: Dict<K, V>, k: K): (i: nat)
    requires k in Keys(d)
    ensures i < |d| && d[i].0 == k
    ensures forall j :: 0 <= j < i ==> d[j].0 != k
  {
    if d[0].0 == k then 0
    else
      assert k in Keys(d[1..]) by {
        var j :| 0 <= j < |d| && Keys(d)[j] == k;
        assert Keys(d[1..])[j - 1] == k;
      }
      IndexOf(d[1..], k) + 1
  }

  /** A position holding `k` with no earlier `k` is the position of `k`. */
  lemma IndexOfFirst<K, V>(d: Dict<K, V>, k: K, i: nat)
    requires i < |d| && d[i].0 == k && forall j :: 0 <= j < i ==> d[j].0 != k
    ensures k in Keys(d) && IndexOf(d, k) == i
  {
    assert Keys(d)[i] == k;
  }

  /** `d[k]` for a key that is present. */
  function Lookup<K(==), V>(d: Dict<K, V>, k: K): V
    requires k in Keys(d)
  {
    d[IndexOf(d, k)].1
  }

  /** `d.get(k, default)`. */
  function Get<K(==), V>(d: Dict<K, V>, k: K, default: V): V
  {
    if k in Keys(d) then Lookup(d, k) else default
  }

  /** The dictionary's contents without their order. */
  function ToMap<K(==), V>(d: Dict<K, V>): map<K, V>
  {
    map k | k in Keys(d) :: Lookup(d, k)
  }

  /** No key occurs before its own item. */
  lemma KeyNotInPrefix<K, V>(d: Dict<K, V>, i: nat)
    requires IsDict(d) && i < |d|
    ensures d[i].0 !in Keys(d[..i])
  {
    forall j | 0 <= j < i
      ensures Keys(d[..i])[j] != d[i].0
    {
      assert d[..i][j] == d[j];
    }
  }

  lemma LookupAt<K, V>(d: Dict<K, V>, i: nat)
    requires IsDict(d) && i < |d|
    ensures d[i].0 in Keys(d) && IndexOf(d, d[i].0) == i
    ensures Lookup(d, d[i].0) == d[i].1 && d[i].0 in ToMap(d) && ToMap(d)[d[i].0] == d[i].1
  {
    assert Keys(d)[i] == d[i].0;
  }

  lemma ToMapItems<K, V>(d: Dict<K, V>)
    requires IsDict(d)
    ensures forall i :: 0 <= i < |d| ==> d[i].0 in ToMap(d) && ToMap(d)[d[i].0] == d[i].1
    ensures forall k :: k in ToMap(d) <==> k in Keys(d)
  {
    forall i | 0 <= i < |d|
      ensures d[i].0 in ToMap(d) && ToMap(d)[d[i].0] == d[i].1
    {
      LookupAt(d, i);
    }
  }

  /** `d[k] = v`: an existing key keeps its position, a new key is appended. */
  function Put<K(==), V>(d: Dict<K, V>, k: K, v: V): (r: Dict<K, V>)
    ensures |r| == if k in Keys(d) then |d| else |d| + 1
  {
    if d == [] then [(k, v)]
    else
      KeysOfTail(d);
      if d[0].0 == k then [(k, v)] + d[1..]
      else [d[0]] + Put(d[1..], k, v)
  }

  lemma KeysOfTail<K, V>(d: Dict<K, V>)
    requires d != []
    ensures Keys(d)[0] == d[0].0
    ensures forall k :: k in Keys(d) <==> k == d[0].0 || k in Keys(d[1..])
  {
    var r := Keys(d[1..]);
    forall k | k in Keys(d)
      ensures k == d[0].0 || k in r
    {
      var i :| 0 <= i < |d| && Keys(d)[i] == k;
      if i > 0 {
        assert r[i - 1] == k;
      }
    }
    forall k | k in r
      ensures k in Keys(d)
    {
      var i :| 0 <= i < |r| && r[i] == k;
      assert Keys(d)[i + 1] == k;
    }
  }

  /** The two cases of `Put`, by position. */
  lemma {:induction false} PutExisting<K, V>(d: Dict<K, V>, k: K, v: V)
    requires k in Keys(d)
    ensures Put(d, k, v) == d[IndexOf(d, k) := (k, v)]
    decreases |d|
  {
    if d[0].0 != k {
      KeysOfTail(d);
      PutExisting(d[1..], k, v);
      assert d[IndexOf(d, k) := (k, v)] == [d[0]] + d[1..][IndexOf(d[1..], k) := (k, v)];
    }
  }

  lemma {:induction false} PutNew<K, V>(d: Dict<K, V>, k: K, v: V)
    requires k !in Keys(d)
    ensures Put(d, k, v) == d + [(k, v)]
    decreases |d|
  {
    if d != [] {
      KeysOfTail(d);
      PutNew(d[1..], k, v);
      assert d + [(k, v)] == [d[0]] + (d[1..] + [(k, v)]);
    }
  }

  lemma AppendKeepsDict<K, V>(d: Dict<K, V>, x: (K, V))
    requires IsDict(d) && x.0 !in Keys(d)
    ensures IsDict(d + [x])
  {
    PutKeepsDict(d, x.0, x.1, d + [x], |d|);
  }

  /** Dictionaries with the same keys and the same `get` agree as maps. */
  lemma ToMapByGet<K, V>(a: Dict<K, V>, b: Dict<K, V>, default: V)
    requires forall k :: k in Keys(a) <==> k in Keys(b)
    requires forall k :: Get(a, k, default) == Get(b, k, default)
    ensures ToMap(a) == ToMap(b)
  {
    forall k | k in Keys(a)
      ensures Lookup(a, k) == Lookup(b, k)
    {
      assert Get(a, k, default) == Get(b, k, default);
    }
  }

  /** Assignment keeps the keys distinct and updates the one key's value. */
  lemma PutFacts<K, V>(d: Dict<K, V>, k: K, v: V)
    requires IsDict(d)
    ensures IsDict(Put(d, k, v)) && ToMap(Put(d, k, v)) == ToMap(d)[k := v]
  {
    if k in Keys(d) {
      PutExisting(d, k, v);
    } else {
      PutNew(d, k, v);
    }
    PutMap(d, k, v, Put(d, k, v));
  }

  /** Helper for `Put`: the item list that agrees with `d` except that `k`
      now holds `v` still has distinct keys. */
  lemma PutMap<K, V>(d: Dict<K, V>, k: K, v: V, r: Dict<K, V>)
    requires k in Keys(d) ==> r == d[IndexOf(d, k) := (k, v)]
    requires k !in Keys(d) ==> r == d + [(k, v)]
    ensures IsDict(d) ==> IsDict(r) && ToMap(r) == ToMap(d)[k := v]
  {
    if IsDict(d) {
      var at := if k in Keys(d) then IndexOf(d, k) else |d|;
      PutKeepsDict(d, k, v, r, at);
      PutUpdatesMap(d, k, v, r, at);
    }
  }

  lemma PutKeepsDict<K, V>(d: Dict<K, V>, k: K, v: V, r: Dict<K, V>, at: nat)
    requires IsDict(d) && at <= |d|
    requires at < |d| ==> d[at].0 == k && r == d[at := (k, v)]
    requires at == |d| ==> k !in Keys(d) && r == d + [(k, v)]
    ensures IsDict(r)
  {
    forall i | 0 <= i < |d| && i != at
      ensures d[i].0 != k
    {
      assert Keys(d)[i] == d[i].0;
    }
    forall a, b | 0 <= a < b < |r|
      ensures r[a].0 != r[b].0
    {
      if a != at && b != at {
        assert r[a] == d[a] && r[b] == d[b];
      } else if a == at {
        assert r[b] == d[b];
      } else {
        assert r[a] == d[a];
      }
    }
  }

  lemma PutUpdatesMap<K, V>(d: Dict<K, V>, k: K, v: V, r: Dict<K, V>, at: nat)
    requires IsDict(d) && IsDict(r) && at <= |d|
    requires at < |d| ==> d[at].0 == k && r == d[at := (k, v)]
    requires at == |d| ==> r == d + [(k, v)]
    ensures ToMap(r) == ToMap(d)[k := v]
  {
    var m := ToMap(d)[k := v];
    forall x | x in ToMap(r)
      ensures x in m && ToMap(r)[x] == m[x]
    {
      var j :| 0 <= j < |r| && Keys(r)[j] == x;
      PutItem(d, k, v, r, at, j);
    }
    forall x | x in m
      ensures x in ToMap(r)
    {
      if x != k {
        var j :| 0 <= j < |d| && Keys(d)[j] == x;
        PutItem(d, k, v, r, at, j);
      } else {
        LookupAt(r, at);
      }
    }
  }

  /** Item `j` after `d[k] = v` placed `k` at position `at`. */
  lemma PutItem<K, V>(d: Dict<K, V>, k: K, v: V, r: Dict<K, V>, at: nat, j: nat)
    requires IsDict(d) && IsDict(r) && at <= |d| && j < |r|
    requires at < |d| ==> d[at].0 == k && r == d[at := (k, v)]
    requires at == |d| ==> r == d + [(k, v)]
    ensures r[j].0 in ToMap(r) && ToMap(r)[r[j].0] == r[j].1
    ensures j == at ==> r[j] == (k, v)
    ensures j != at ==> r[j] == d[j] && d[j].0 != k && d[j].0 in ToMap(d) && ToMap(d)[d[j].0] == d[j].1
  {
    LookupAt(r, j);
    if j != at {
      assert r[j] == d[j];
      assert r[j].0 != r[at].0;
      LookupAt(d, j);
    }
  }

  /** Removing one item removes its key from the map view. */
  lemma ToMapRemove<K, V>(d: Dict<K, V>, j: nat)
    requires IsDict(d) && j < |d|
    ensures IsDict(d[..j] + d[j + 1..])
    ensures ToMap(d[..j] + d[j + 1..]) == ToMap(d) - {d[j].0}
  {
    var r := d[..j] + d[j + 1..];
    RemoveKeepsDict(d, j);
    var m := ToMap(d) - {d[j].0};
    forall x | x in ToMap(r)
      ensures x in m && ToMap(r)[x] == m[x]
    {
      var i :| 0 <= i < |r| && Keys(r)[i] == x;
      RemovedItem(d, j, i);
    }
    forall x | x in m
      ensures x in ToMap(r)
    {
      var i :| 0 <= i < |d| && Keys(d)[i] == x;
      assert i != j;
      RemovedItem(d, j, if i < j then i else i - 1);
    }
  }

  /** Item `i` of `d` with item `j` removed. */
  lemma RemovedItem<K, V>(d: Dict<K, V>, j: nat, i: nat)
    requires IsDict(d) && j < |d| && i < |d| - 1
    ensures var r, i' := d[..j] + d[j + 1..], if i < j then i else i + 1;
      r[i] == d[i'] && d[i'].0 != d[j].0 &&
      d[i'].0 in ToMap(d) && ToMap(d)[d[i'].0] == d[i'].1 &&
      d[i'].0 in ToMap(r) && ToMap(r)[d[i'].0] == d[i'].1
  {
    var r, i' := d[..j] + d[j + 1..], if i < j then i else i + 1;
    assert r[i] == d[i'];
    RemoveKeepsDict(d, j);
    LookupAt(r, i);
    LookupAt(d, i');
  }

  lemma RemoveKeepsDict<K, V>(d: Dict<K, V>, j: nat)
    requires IsDict(d) && j < |d|
    ensures IsDict(d[..j] + d[j + 1..])
  {
    var r := d[..j] + d[j + 1..];
    forall a, b | 0 <= a < b < |r|
      ensures r[a].0 != r[b].0
    {
      var a' := if a < j then a else a + 1;
      var b' := if b < j then b else b + 1;
      assert r[a] == d[a'] && r[b] == d[b'];
    }
  }

  /** The multiset of a list with one item taken out. */
  lemma MultisetRemove<T>(s: seq<T>, j: nat)
    requires j < |s|
    ensures multiset(s) == multiset(s[..j] + s[j + 1..]) + multiset{s[j]}
  {
    assert s == s[..j] + [s[j]] + s[j + 1..];
  }

  /** Two dictionaries with the same contents iterate the same items, possibly
      in a different order. */
  lemma {:induction false} SameContentsSameItems<K, V>(a: Dict<K, V>, b: Dict<K, V>)
    requires IsDict(a) && IsDict(b) && ToMap(a) == ToMap(b)
    ensures multiset(a) == multiset(b)
    decreases |a|
  {
    if a == [] {
      if b != [] {
        LookupAt(b, 0);
      }
    } else {
      var n := |a| - 1;
      var x := a[n];
      LookupAt(a, n);
      assert x.0 in Keys(b);
      var j := IndexOf(b, x.0);
      LookupAt(b, j);
      assert b[j] == x;
      ToMapRemove(a, n);
      ToMapRemove(b, j);
      assert a[..n] + a[n + 1..] == a[..n];
      SameContentsSameItems(a[..n], b[..j] + b[j + 1..]);
      MultisetRemove(a, n);
      MultisetRemove(b, j);
    }
  }
}
