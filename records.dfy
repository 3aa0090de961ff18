/**
  A table row as a Python dict: an ordered sequence of (key, value) pairs.
  Insertion order is part of the value, as it is for a Python dict, and a
  well-formed row has distinct keys.
 */
module Records {
  import opened Wrappers

  /** A cell value: text, an integer, or any other scalar (float, bool, None, ...), kept opaque. */
  datatype Value = Str(s: string) | Int(i: int) | Other(tag: nat)

  type Key = string

  type Record = seq<(Key, Value)>

  /** The keys of a record, in order. */
  function Keys(r: Record): seq<Key>
  {
    seq(|r|, i requires 0 <= i < |r| => r[i].0)
  }

  predicate Distinct(ks: seq<Key>)
  {
    forall i, j :: 0 <= i < j < |ks| ==> ks[i] != ks[j]
  }

  /** `ks` with every key that occurs in `drop` filtered out, order kept. */
  function Without(ks: seq<Key>, drop: seq<Key>): (r: seq<Key>)
    ensures forall k :: k in r <==> k in ks && k !in drop
    ensures Distinct(ks) ==> Distinct(r)
  {
    if ks == [] then []
    else
      var rest := Without(ks[1..], drop);
      assert ks[0] !in ks[1..] ==> ks[0] !in rest;
      if ks[0] in drop then rest else [ks[0]] + rest
  }

  /** `d[k]` on a dict: the value of the first pair with key `k`, if there is one. */
  function Lookup(d: Record, k: Key): (v: Option<Value>)
    ensures v.None? <==> k !in Keys(d)
    ensures v.Some? ==> (k, v.value) in d
  {
    if d == [] then None
    else
      KeysCons(d);
      if d[0].0 == k then Some(d[0].1) else Lookup(d[1..], k)
  }

  /** In a dict with distinct keys, `d[k]` is the value of the one pair with key `k`. */
  lemma {:induction false} LookupPaired(d: Record, k: Key, x: Value)
    requires Distinct(Keys(d)) && (k, x) in d
    ensures Lookup(d, k) == Some(x)
  {
    KeysCons(d);
    DistinctCons(Keys(d));
    if d[0].0 != k {
      assert (k, x) in d[1..];
      assert forall j :: 0 <= j < |d[1..]| ==> Keys(d[1..])[j] == d[1..][j].0;
      LookupPaired(d[1..], k, x);
    } else {
      PairKey(d[1..], k, x);
    }
  }

  /**
    `d[k] = v` on a dict: an existing key keeps its position and takes the
    new value; a new key is added at the end.
   */
  function Assign(d: Record, k: Key, v: Value): Record
  {
    if d == [] then [(k, v)]
    else if d[0].0 == k then [(k, v)] + d[1..]
    else [d[0]] + Assign(d[1..], k, v)
  }

  /** After `d[k] = v`, key `k` holds `v` and every other key holds what it held. */
  lemma {:induction false} AssignLookup(d: Record, k: Key, v: Value, j: Key)
    ensures Lookup(Assign(d, k, v), j) == if j == k then Some(v) else Lookup(d, j)
  {
    if d != [] && d[0].0 != k {
      AssignLookup(d[1..], k, v, j);
    }
  }

  /** `d[k] = v` keeps the key order and appends `k` only when it is new; keys stay distinct. */
  lemma AssignKeys(d: Record, k: Key, v: Value)
    ensures Keys(Assign(d, k, v)) == if k in Keys(d) then Keys(d) else Keys(d) + [k]
    ensures Distinct(Keys(d)) ==> Distinct(Keys(Assign(d, k, v)))
  {
    AssignKeyOrder(d, k, v);
  }

  lemma {:induction false} AssignKeyOrder(d: Record, k: Key, v: Value)
    ensures Keys(Assign(d, k, v)) == if k in Keys(d) then Keys(d) else Keys(d) + [k]
  {
    if d != [] {
      var r := Assign(d, k, v);
      KeysCons(d);
      KeysCons(r);
      assert r[0] == if d[0].0 == k then (k, v) else d[0];
      if d[0].0 != k {
        AssignKeyOrder(d[1..], k, v);
        assert r[1..] == Assign(d[1..], k, v);
        assert k in Keys(d) <==> k in Keys(d[1..]);
      } else {
        assert r[1..] == d[1..];
      }
    }
  }

  /** `d.update(items)`: the pairs of `items` assigned into `d` one after the other. */
  function Update(d: Record, items: Record): Record
    decreases |items|
  {
    if items == [] then d else Update(Assign(d, items[0].0, items[0].1), items[1..])
  }

  /** The dict display `{**a, **b}`: an empty dict updated with `a`, then with `b`. */
  function Merge(a: Record, b: Record): Record
  {
    Update(Update([], a), b)
  }

  /** `d.pop(k, None)` with the popped value discarded: `d` without key `k`, a missing key being no error. */
  function Remove(d: Record, k: Key): (r: Record)
    ensures Lookup(r, k) == None
    ensures forall j :: j != k ==> Lookup(r, j) == Lookup(d, j)
    ensures Keys(r) == Without(Keys(d), [k])
  {
    if d == [] then []
    else
      var rest := Remove(d[1..], k);
      KeysCons(d);
      if d[0].0 == k then rest
      else
        KeysCons([d[0]] + rest);
        assert ([d[0]] + rest)[1..] == rest;
        [d[0]] + rest
  }

  lemma PairKey(d: Record, k: Key, x: Value)
    ensures (k, x) in d ==> k in Keys(d)
  {
    if (k, x) in d {
      var j :| 0 <= j < |d| && d[j] == (k, x);
      assert Keys(d)[j] == k;
    }
  }

  lemma KeysCons(r: Record)
    requires r != []
    ensures Keys(r) == [r[0].0] + Keys(r[1..])
  {
  }

  lemma DistinctCons(ks: seq<Key>)
    requires ks != []
    ensures Distinct(ks) <==> ks[0] !in ks[1..] && Distinct(ks[1..])
  {
  }

  lemma KeysAppend(a: Record, b: Record)
    ensures Keys(a + b) == Keys(a) + Keys(b)
  {
  }

  /** Assigning a key the dict does not hold appends the pair. */
  lemma {:induction false} AssignNewKey(d: Record, k: Key, v: Value)
    requires k !in Keys(d)
    ensures Assign(d, k, v) == d + [(k, v)]
  {
    if d != [] {
      assert Keys(d) == [d[0].0] + Keys(d[1..]);
      AssignNewKey(d[1..], k, v);
      assert d == [d[0]] + d[1..];
    }
  }

  /** Updating with pairs whose keys are new and distinct appends them in order: `dict(a) == a`. */
  lemma {:induction false} UpdateFreshKeys(d: Record, items: Record)
    requires Distinct(Keys(d) + Keys(items))
    ensures Update(d, items) == d + items
    decreases |items|
  {
    if items != [] {
      var k := items[0].0;
      KeysAppend(d, items);
      KeysCons(items);
      assert k == (Keys(d) + Keys(items))[|d|];
      assert forall i :: 0 <= i < |d| ==> Keys(d)[i] == (Keys(d) + Keys(items))[i];
      assert k !in Keys(d);
      AssignNewKey(d, k, items[0].1);
      var d' := d + [items[0]];
      assert Keys(d') + Keys(items[1..]) == Keys(d) + Keys(items) by {
        KeysAppend(d, [items[0]]);
        assert Keys(items) == [k] + Keys(items[1..]);
      }
      UpdateFreshKeys(d', items[1..]);
      assert d' + items[1..] == d + items;
    }
  }

  /** Every key of `items` takes its value in `items`; every other key keeps its value in `d`. */
  lemma {:induction false} UpdateLookup(d: Record, items: Record, k: Key)
    requires Distinct(Keys(items))
    ensures Lookup(Update(d, items), k) == if k in Keys(items) then Lookup(items, k) else Lookup(d, k)
    decreases |items|
  {
    if items != [] {
      var k0 := items[0].0;
      KeysCons(items);
      DistinctCons(Keys(items));
      UpdateLookup(Assign(d, k0, items[0].1), items[1..], k);
      AssignLookup(d, k0, items[0].1, k);
      if k in Keys(items) && k != k0 {
        assert k in Keys(items[1..]);
      }
    }
  }

  /** The keys of `d` keep their positions and the new keys of `items` follow, in their order. */
  lemma {:induction false} UpdateKeys(d: Record, items: Record)
    requires Distinct(Keys(items))
    ensures Keys(Update(d, items)) == Keys(d) + Without(Keys(items), Keys(d))
    ensures Distinct(Keys(d)) ==> Distinct(Keys(Update(d, items)))
    decreases |items|
  {
    if items != [] {
      var k0 := items[0].0;
      var rest := items[1..];
      var d' := Assign(d, k0, items[0].1);
      KeysCons(items);
      DistinctCons(Keys(items));
      AssignKeys(d, k0, items[0].1);
      UpdateKeys(d', rest);
      WithoutExtend(Keys(rest), Keys(d), k0);
    }
  }

  /** Dropping one more key that `ks` does not hold changes nothing. */
  lemma {:induction false} WithoutExtend(ks: seq<Key>, drop: seq<Key>, k: Key)
    requires k !in ks
    ensures Without(ks, drop + [k]) == Without(ks, drop)
    ensures Without(ks, if k in drop then drop else drop + [k]) == Without(ks, drop)
  {
    if ks != [] {
      WithoutExtend(ks[1..], drop, k);
    }
  }

  /** Filtering twice is filtering once by the larger key list. */
  lemma {:induction false} WithoutTwice(ks: seq<Key>, inner: seq<Key>, outer: seq<Key>)
    requires forall k :: k in inner ==> k in outer
    ensures Without(Without(ks, inner), outer) == Without(ks, outer)
  {
    if ks != [] {
      WithoutTwice(ks[1..], inner, outer);
    }
  }

  /**
    Python dict-merge semantics of `{**a, **b}`: a key of `a` keeps its
    position, a key of `b` takes the value it has in `b` (the later dict
    wins), keys only in `b` follow in `b`'s order, and the keys stay distinct.
   */
  lemma MergeFields(a: Record, b: Record)
    requires Distinct(Keys(a)) && Distinct(Keys(b))
    ensures forall k :: Lookup(Merge(a, b), k) == if k in Keys(b) then Lookup(b, k) else Lookup(a, k)
    ensures Keys(Merge(a, b)) == Keys(a) + Without(Keys(b), Keys(a))
    ensures Distinct(Keys(Merge(a, b)))
  {
    UpdateFreshKeys([], a);
    assert [] + a == a;
    forall k
      ensures Lookup(Merge(a, b), k) == if k in Keys(b) then Lookup(b, k) else Lookup(a, k)
    {
      UpdateLookup(a, b, k);
    }
    UpdateKeys(a, b);
  }
}
