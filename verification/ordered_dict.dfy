/** Python's `dict` as the script uses it: a list of (key, value) entries in
    insertion order, one entry per key. Assigning to a key that is already
    present replaces its value where it stands; a new key goes to the end. */
module OrderedDict {
  import opened Outcomes

  type Dict<V> = seq<(string, V)>

  function Keys<V>(d: Dict<V>): (ks: seq<string>)
    ensures |ks| == |d|
    ensures forall i :: 0 <= i < |d| ==> ks[i] == d[i].0
  {
    if d == [] then [] else [d[0].0] + Keys(d[1..])
  }

  predicate DistinctKeys<V>(d: Dict<V>) {
    forall i, j :: 0 <= i < j < |d| ==> d[i].0 != d[j].0
  }

  /** Whether keys are distinct depends on the key list alone. */
  lemma DistinctByKeys<A, B>(a: Dict<A>, b: Dict<B>)
    requires Keys(a) == Keys(b)
    ensures DistinctKeys(a) <==> DistinctKeys(b)
  {
    assert forall i :: 0 <= i < |a| ==> a[i].0 == Keys(a)[i] == b[i].0;
  }

  lemma KeysCons<V>(e: (string, V), d: Dict<V>)
    ensures Keys([e] + d) == [e.0] + Keys(d)
  {
    assert ([e] + d)[1..] == d;
  }

  lemma KeysSnoc<V>(d: Dict<V>, e: (string, V))
    ensures Keys(d + [e]) == Keys(d) + [e.0]
  {
  }

  /** `d[k]` when `k in d`, `None` otherwise. */
  function Find<V>(d: Dict<V>, k: string): (r: Option<V>)
    ensures r.Some? <==> k in Keys(d)
    ensures r.Some? ==> (k, r.value) in d
  {
    if d == [] then None
    else if d[0].0 == k then Some(d[0].1)
    else
      assert d == [d[0]] + d[1..];
      Find(d[1..], k)
  }

  /** Looking up in a dict with one more entry in front. */
  lemma FindCons<V>(e: (string, V), d: Dict<V>, k: string)
    ensures Find([e] + d, k) == if e.0 == k then Some(e.1) else Find(d, k)
  {
    assert ([e] + d)[0] == e && ([e] + d)[1..] == d;
  }

  /** With distinct keys the entry for `k` is the one `Find` reports. */
  lemma {:induction false} FindDistinct<V>(d: Dict<V>, i: nat)
    requires DistinctKeys(d)
    requires i < |d|
    ensures Find(d, d[i].0) == Some(d[i].1)
  {
    if i > 0 {
      FindDistinct(d[1..], i - 1);
    }
  }

  /** `d[k] = v`. */
  function Set<V>(d: Dict<V>, k: string, v: V): (r: Dict<V>)
    ensures Find(r, k) == Some(v)
    ensures forall k' :: k' != k ==> Find(r, k') == Find(d, k')
  {
    if d == [] then [(k, v)]
    else if d[0].0 == k then [(k, v)] + d[1..]
    else
      var rest := Set(d[1..], k, v);
      assert ([d[0]] + rest)[1..] == rest;
      [d[0]] + rest
  }

  /** The key list after `d[k] = v`: unchanged when `k` is present, otherwise
      `k` at the end. */
  function AddKey(keys: seq<string>, k: string): seq<string> {
    if k in keys then keys else keys + [k]
  }

  /** Assignment to a present key keeps the key list; a new key is added last. */
  lemma {:induction false} SetKeys<V>(d: Dict<V>, k: string, v: V)
    ensures Keys(Set(d, k, v)) == AddKey(Keys(d), k)
  {
    if d == [] {
      assert Keys(Set(d, k, v)) == [k];
    } else if d[0].0 == k {
      assert Set(d, k, v) == [(k, v)] + d[1..];
      KeysCons((k, v), d[1..]);
      KeysCons(d[0], d[1..]);
      assert d == [d[0]] + d[1..];
      assert k == Keys(d)[0];
    } else {
      SetKeys(d[1..], k, v);
      assert Set(d, k, v) == [d[0]] + Set(d[1..], k, v);
      KeysCons(d[0], Set(d[1..], k, v));
      assert d == [d[0]] + d[1..];
      KeysCons(d[0], d[1..]);
      KeysFront(d[0].0, k, Keys(d[1..]), Keys(Set(d[1..], k, v)));
    }
  }

  /** The key-list step of `SetKeys` past a first key other than `k`. */
  lemma KeysFront(x: string, k: string, tail: seq<string>, set_tail: seq<string>)
    requires x != k
    requires set_tail == if k in tail then tail else tail + [k]
    ensures [x] + set_tail == if k in [x] + tail then [x] + tail else ([x] + tail) + [k]
  {
    assert k in [x] + tail <==> k in tail;
  }

  /** A new key is appended at the end. */
  lemma {:induction false} SetNewKey<V>(d: Dict<V>, k: string, v: V)
    requires k !in Keys(d)
    ensures Set(d, k, v) == d + [(k, v)]
  {
    if d != [] {
      assert d == [d[0]] + d[1..];
      SetNewKey(d[1..], k, v);
    }
  }

  /** Every entry after an assignment is an old entry or the new one. */
  lemma {:induction false} SetEntries<V>(d: Dict<V>, k: string, v: V)
    ensures forall e :: e in Set(d, k, v) ==> e in d || e == (k, v)
  {
    if d != [] && d[0].0 != k {
      SetEntries(d[1..], k, v);
    }
  }

  /** Assignment keeps keys distinct. */
  lemma SetDistinct<V>(d: Dict<V>, k: string, v: V)
    requires DistinctKeys(d)
    ensures DistinctKeys(Set(d, k, v))
  {
    var r := Set(d, k, v);
    SetKeys(d, k, v);
    assert forall i :: 0 <= i < |r| ==> Keys(r)[i] == r[i].0;
  }

  /** The position of `k` in a key list (Python's `list.index`). */
  function IndexOf(ks: seq<string>, k: string): (i: nat)
    requires k in ks
    ensures i < |ks| && ks[i] == k
    ensures k !in ks[..i]
  {
    if ks[0] == k then 0
    else
      var j := IndexOf(ks[1..], k);
      assert ks[..1 + j] == [ks[0]] + ks[1..][..j];
      1 + j
  }

  /** The value of the last pair with key `k`: the one a dict built from
      the pairs keeps. */
  function LastValue<V>(ps: seq<(string, V)>, k: string): Option<V> {
    if ps == [] then None
    else if ps[|ps| - 1].0 == k then Some(ps[|ps| - 1].1)
    else LastValue(ps[..|ps| - 1], k)
  }

  /** Each key once, at the position of its first occurrence. */
  function FirstOccurrences(ks: seq<string>): seq<string> {
    if ks == [] then []
    else if ks[|ks| - 1] in ks[..|ks| - 1] then FirstOccurrences(ks[..|ks| - 1])
    else FirstOccurrences(ks[..|ks| - 1]) + [ks[|ks| - 1]]
  }

  /** `dict(pairs)`: the pairs are assigned one after another. */
  function FromPairs<V>(ps: seq<(string, V)>): (d: Dict<V>)
    ensures DistinctKeys(d)
    ensures forall k :: k in Keys(d) <==> k in Keys(ps)
    ensures forall e :: e in d ==> e in ps
  {
    if ps == [] then []
    else
      var last := ps[|ps| - 1];
      KeysSnoc(ps[..|ps| - 1], last);
      assert ps == ps[..|ps| - 1] + [last];
      SetDistinct(FromPairs(ps[..|ps| - 1]), last.0, last.1);
      SetKeys(FromPairs(ps[..|ps| - 1]), last.0, last.1);
      SetEntries(FromPairs(ps[..|ps| - 1]), last.0, last.1);
      Set(FromPairs(ps[..|ps| - 1]), last.0, last.1)
  }

  /** A repeated key ends up with the value of its last occurrence. */
  lemma {:induction false} FromPairsLastWins<V>(ps: seq<(string, V)>, k: string)
    ensures Find(FromPairs(ps), k) == LastValue(ps, k)
  {
    if ps != [] {
      FromPairsLastWins(ps[..|ps| - 1], k);
    }
  }

  /** Keys keep the order in which they were first inserted. */
  lemma {:induction false} FromPairsKeyOrder<V>(ps: seq<(string, V)>)
    ensures Keys(FromPairs(ps)) == FirstOccurrences(Keys(ps))
  {
    if ps != [] {
      var init := ps[..|ps| - 1];
      var last := ps[|ps| - 1];
      var ks := Keys(ps);
      assert ks[..|ks| - 1] == Keys(init) && ks[|ks| - 1] == last.0 by {
        assert ps == init + [last];
        KeysSnoc(init, last);
      }
      FromPairsKeyOrder(init);
      SetKeys(FromPairs(init), last.0, last.1);
    }
  }

  /** Pairs with distinct keys already are the dict they build. */
  lemma {:induction false} FromDistinctPairs<V>(ps: seq<(string, V)>)
    requires DistinctKeys(ps)
    ensures FromPairs(ps) == ps
  {
    if ps != [] {
      var init := ps[..|ps| - 1];
      var last := ps[|ps| - 1];
      assert DistinctKeys(init);
      FromDistinctPairs(init);
      assert last.0 !in Keys(init);
      SetNewKey(init, last.0, last.1);
    }
  }

  /** A dict comprehension keeping the entries whose key is not in `ks`. */
  function Without<V>(d: Dict<V>, ks: set<string>): (r: Dict<V>)
    ensures forall k :: Find(r, k) == if k in ks then None else Find(d, k)
    ensures forall e :: e in r ==> e in d
    ensures DistinctKeys(d) ==> DistinctKeys(r)
  {
    if d == [] then []
    else
      KeysCons(d[0], d[1..]);
      assert d == [d[0]] + d[1..];
      var rest := Without(d[1..], ks);
      if d[0].0 in ks then rest
      else
        KeysCons(d[0], rest);
        [d[0]] + rest
  }

  /** The filtered dict has exactly the keys of `d` outside `ks`. */
  lemma WithoutKeys<V>(d: Dict<V>, ks: set<string>)
    ensures forall k :: k in Keys(Without(d, ks)) <==> k in Keys(d) && k !in ks
  {
    forall k ensures k in Keys(Without(d, ks)) <==> k in Keys(d) && k !in ks {
      assert Find(Without(d, ks), k) == if k in ks then None else Find(d, k);
    }
  }

  /** The keys of `ks` removed from a key list, the rest in order. */
  function DropKeys(keys: seq<string>, ks: set<string>): seq<string> {
    if keys == [] then []
    else (if keys[0] in ks then [] else [keys[0]]) + DropKeys(keys[1..], ks)
  }

  lemma {:induction false} DropKeysAppend(a: seq<string>, b: seq<string>, ks: set<string>)
    ensures DropKeys(a + b, ks) == DropKeys(a, ks) + DropKeys(b, ks)
  {
    if a == [] {
      assert a + b == b;
    } else {
      var head := if a[0] in ks then [] else [a[0]];
      assert (a + b)[0] == a[0] && (a + b)[1..] == a[1..] + b;
      DropKeysAppend(a[1..], b, ks);
      assert DropKeys(a + b, ks) == head + (DropKeys(a[1..], ks) + DropKeys(b, ks));
    }
  }

  /** Filtering after an assignment: a filtered or already present key adds
      nothing, any other key is added at the end. */
  lemma DropAddKey(keys: seq<string>, k: string, ks: set<string>)
    ensures DropKeys(AddKey(keys, k), ks) == if k in ks || k in keys then DropKeys(keys, ks) else DropKeys(keys, ks) + [k]
  {
    if k !in keys {
      DropKeysAppend(keys, [k], ks);
      assert DropKeys([k], ks) == (if k in ks then [] else [k]) + DropKeys([], ks);
    }
  }

  /** The filtered dict keeps the remaining keys in insertion order. */
  lemma {:induction false} WithoutKeyOrder<V>(d: Dict<V>, ks: set<string>)
    ensures Keys(Without(d, ks)) == DropKeys(Keys(d), ks)
  {
    if d != [] {
      WithoutKeyOrder(d[1..], ks);
      KeysCons(d[0], d[1..]);
      assert d == [d[0]] + d[1..];
      assert Keys(d)[1..] == Keys(d[1..]);
      if d[0].0 !in ks {
        KeysCons(d[0], Without(d[1..], ks));
      }
    }
  }
}
