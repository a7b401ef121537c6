/** Line 52 of the script: the records are sorted by the position of their
    model hash in `model_hash_files`, then by creation time. Python's
    `list.sort` is stable, so records with equal keys keep the order in
    which they were collected. The sort itself is stated for any key
    function; `KeyOf` is the one line 52 uses. */
module Ordering {
  import opened ModelTable
  import opened Records

  /** The line-52 sort key: the model's position in the file table, then the
      creation time. */
  datatype Key = Key(priority: nat, created: int)

  predicate AllEnriched(s: seq<Record>) {
    forall i :: 0 <= i < |s| ==> Enriched(s[i])
  }

  /** Every record's hash is in the model tables. */
  predicate AllKnown(s: seq<Record>) {
    forall i :: 0 <= i < |s| ==> Known(HashOf(s[i]))
  }

  /** The first component of the line-52 key: the position of the hash in
      `model_hash_files`. `list.index` would raise on an unknown hash, but no
      collected record has one (line 42 rejects it first); the model ranks
      such a hash after every known one. */
  function Rank(h: string): (p: nat)
    ensures p <= |HashFiles|
    ensures p < |HashFiles| <==> Known(h)
    ensures Known(h) ==> HashFiles[p].0 == h
  {
    if Known(h) then Priority(h) else |HashFiles|
  }

  /** The key of a collected record. */
  function KeyOf(r: Record): Key {
    Key(Rank(HashOf(r)), CreatedOf(r))
  }

  /** Python's tuple comparison `a <= b`: lexicographic. */
  predicate KeyLe(a: Key, b: Key) {
    a.priority < b.priority || (a.priority == b.priority && a.created <= b.created)
  }

  predicate Sorted<T>(s: seq<T>, key: T -> Key) {
    forall i, j :: 0 <= i < j < |s| ==> KeyLe(key(s[i]), key(s[j]))
  }

  /** The elements with key `k`, in their order in `s`. */
  function WithKey<T>(s: seq<T>, key: T -> Key, k: Key): seq<T> {
    if s == [] then []
    else (if key(s[0]) == k then [s[0]] else []) + WithKey(s[1..], key, k)
  }

  /** Places `x` in front of the first element whose key is not smaller. */
  function Insert<T(==)>(x: T, s: seq<T>, key: T -> Key): (r: seq<T>)
    ensures multiset(r) == multiset(s) + multiset{x}
  {
    if s == [] then [x]
    else if KeyLe(key(x), key(s[0])) then [x] + s
    else
      assert s == [s[0]] + s[1..];
      [s[0]] + Insert(x, s[1..], key)
  }

  /** `s.sort(key=key)`: an insertion sort that, like Python's, is stable. */
  function Sort<T(==)>(s: seq<T>, key: T -> Key): (r: seq<T>)
    ensures multiset(r) == multiset(s)
  {
    if s == [] then []
    else
      assert s == [s[0]] + s[1..];
      Insert(s[0], Sort(s[1..], key), key)
  }

  /** Inserting into a sorted sequence keeps it sorted. */
  lemma {:induction false} InsertSorted<T>(x: T, s: seq<T>, key: T -> Key)
    requires Sorted(s, key)
    ensures Sorted(Insert(x, s, key), key)
  {
    if s != [] && !KeyLe(key(x), key(s[0])) {
      var rest := Insert(x, s[1..], key);
      InsertSorted(x, s[1..], key);
      forall j | 0 <= j < |rest|
        ensures KeyLe(key(s[0]), key(rest[j]))
      {
        assert rest[j] in multiset(rest);
        assert rest[j] == x || rest[j] in s[1..];
      }
    }
  }

  /** The result of the sort is ordered by key. */
  lemma {:induction false} SortSorted<T>(s: seq<T>, key: T -> Key)
    ensures Sorted(Sort(s, key), key)
  {
    if s != [] {
      SortSorted(s[1..], key);
      InsertSorted(s[0], Sort(s[1..], key), key);
    }
  }

  lemma WithKeyCons<T>(y: T, t: seq<T>, key: T -> Key, k: Key)
    ensures WithKey([y] + t, key, k) == (if key(y) == k then [y] else []) + WithKey(t, key, k)
  {
    assert ([y] + t)[1..] == t;
  }

  /** Inserting `x` puts it ahead of every element with the same key. */
  lemma {:induction false} InsertWithKey<T>(x: T, s: seq<T>, key: T -> Key, k: Key)
    ensures WithKey(Insert(x, s, key), key, k) == (if key(x) == k then [x] else []) + WithKey(s, key, k)
  {
    if s == [] {
      WithKeyCons(x, [], key, k);
    } else if KeyLe(key(x), key(s[0])) {
      WithKeyCons(x, s, key, k);
    } else {
      InsertWithKey(x, s[1..], key, k);
      assert Insert(x, s, key) == [s[0]] + Insert(x, s[1..], key);
      assert s == [s[0]] + s[1..];
      WithKeyFront(s[0], x, Insert(x, s[1..], key), s[1..], key, k);
    }
  }

  /** Putting `y` in front of two sequences whose selections differ only by
      a leading `x` with another key keeps them that way. */
  lemma WithKeyFront<T>(y: T, x: T, rest: seq<T>, t: seq<T>, key: T -> Key, k: Key)
    requires key(x) != key(y)
    requires WithKey(rest, key, k) == (if key(x) == k then [x] else []) + WithKey(t, key, k)
    ensures WithKey([y] + rest, key, k) == (if key(x) == k then [x] else []) + WithKey([y] + t, key, k)
  {
    WithKeyCons(y, rest, key, k);
    WithKeyCons(y, t, key, k);
    var here := if key(y) == k then [y] else [];
    var mine := if key(x) == k then [x] else [];
    var later := WithKey(t, key, k);
    if here == [] {
      assert here + (mine + later) == mine + later;
      assert here + later == later;
    } else {
      assert mine == [];
      assert here + (mine + later) == here + later;
    }
  }

  /** Stability: elements with equal keys keep their relative order. */
  lemma {:induction false} SortStable<T>(s: seq<T>, key: T -> Key, k: Key)
    ensures WithKey(Sort(s, key), key, k) == WithKey(s, key, k)
  {
    if s != [] {
      SortStable(s[1..], key, k);
      InsertWithKey(s[0], Sort(s[1..], key), key, k);
    }
  }
}
