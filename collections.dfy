/**
 * Sequence and map vocabulary shared by the handlers: filtering, the
 * `maybeSingle` query rule, counting, the stable descending sort that
 * `Array.prototype.sort` performs with a numeric comparator, and the
 * insertion-ordered JavaScript `Map` used by the aggregation loops.
 */
module Collections {
  import opened Wrappers

  // ---------------------------------------------------------------------
  // Filtering and counting

  /** The elements of `s` satisfying `p`, in order (`Array.prototype.filter`). */
  function Filter<T(!new)>(s: seq<T>, p: T -> bool): (r: seq<T>)
    ensures |r| <= |s|
    ensures forall x :: x in r <==> x in s && p(x)
    ensures forall i :: 0 <= i < |r| ==> p(r[i])
  {
    if |s| == 0 then []
    else Filter(s[..|s| - 1], p) + (if p(s[|s| - 1]) then [s[|s| - 1]] else [])
  }

  lemma FilterSnoc<T(!new)>(s: seq<T>, i: int, p: T -> bool)
    requires 0 <= i < |s|
    ensures Filter(s[..i + 1], p) == Filter(s[..i], p) + (if p(s[i]) then [s[i]] else [])
  {
    assert s[..i + 1][..i] == s[..i];
  }

  lemma {:induction false} FilterAppend<T(!new)>(a: seq<T>, b: seq<T>, p: T -> bool)
    ensures Filter(a + b, p) == Filter(a, p) + Filter(b, p)
    decreases |b|
  {
    if |b| == 0 {
      assert a + b == a;
    } else {
      var b' := b[..|b| - 1];
      assert (a + b)[..|a + b| - 1] == a + b';
      FilterAppend(a, b', p);
    }
  }

  /** Number of occurrences of `x` in `s`. */
  function Occurrences<T(==)>(s: seq<T>, x: T): (n: nat)
    ensures n <= |s|
    ensures n > 0 <==> x in s
  {
    if |s| == 0 then 0
    else Occurrences(s[..|s| - 1], x) + (if s[|s| - 1] == x then 1 else 0)
  }

  lemma {:induction false} OccurrencesAppend<T>(a: seq<T>, b: seq<T>, x: T)
    ensures Occurrences(a + b, x) == Occurrences(a, x) + Occurrences(b, x)
    decreases |b|
  {
    if |b| == 0 {
      assert a + b == a;
    } else {
      assert (a + b)[..|a + b| - 1] == a + b[..|b| - 1];
      OccurrencesAppend(a, b[..|b| - 1], x);
    }
  }

  /** `maybeSingle()`: no row gives null, one row gives it, more than one is an error with null data. */
  function MaybeSingle<T>(rows: seq<T>): (r: Option<T>)
    ensures r.Some? <==> |rows| == 1
    ensures r.Some? ==> r.value == rows[0]
  {
    if |rows| == 1 then Some(rows[0]) else None
  }

  /** `.filter(Boolean)` over nullable entries: the present values, in order. */
  function Somes<T(!new)>(s: seq<Option<T>>): (r: seq<T>)
    ensures forall x :: x in r <==> Some(x) in s
  {
    if |s| == 0 then []
    else
      var init := Somes(s[..|s| - 1]);
      assert forall x :: Some(x) in s <==> Some(x) in s[..|s| - 1] || s[|s| - 1] == Some(x);
      match s[|s| - 1]
      case None => init
      case Some(x) => init + [x]
  }

  /** The elements of `s` without repeats, each where it first appears. */
  function FirstSeen<T(==,!new)>(s: seq<T>): (r: seq<T>)
    ensures forall x :: x in r <==> x in s
    ensures Distinct(r)
  {
    if |s| == 0 then []
    else
      var r := FirstSeen(s[..|s| - 1]);
      if s[|s| - 1] in r then r else r + [s[|s| - 1]]
  }

  predicate Distinct<T(==)>(s: seq<T>) {
    forall i, j :: 0 <= i < j < |s| ==> s[i] != s[j]
  }

  /** An element of a sequence without repeats occurs once. */
  lemma {:induction false} DistinctOnce<T>(s: seq<T>, x: T)
    requires Distinct(s)
    ensures multiset(s)[x] <= 1
  {
    if |s| > 0 {
      var init := s[..|s| - 1];
      assert s == init + [s[|s| - 1]];
      assert Distinct(init);
      DistinctOnce(init, x);
      if x == s[|s| - 1] {
        assert x !in init;
      }
    }
  }

  /** Two equal elements at different positions make the element occur at least twice. */
  lemma Twice<T>(s: seq<T>, i: int, j: int)
    requires 0 <= i < j < |s| && s[i] == s[j]
    ensures multiset(s)[s[i]] >= 2
  {
    assert s == s[..j] + [s[j]] + s[j + 1..];
    assert s[i] in s[..j];
    assert multiset(s[..j])[s[i]] >= 1;
  }

  /** A permutation of a sequence without repeats has none either. */
  lemma DistinctPermutation<T>(a: seq<T>, b: seq<T>)
    requires multiset(a) == multiset(b) && Distinct(a)
    ensures Distinct(b)
  {
    forall i, j | 0 <= i < j < |b|
      ensures b[i] != b[j]
    {
      if b[i] == b[j] {
        Twice(b, i, j);
        DistinctOnce(a, b[i]);
        assert false;
      }
    }
  }

  /** Where an element of a permutation came from. */
  lemma SourceIndex<T>(a: seq<T>, b: seq<T>, i: int) returns (k: int)
    requires multiset(a) == multiset(b) && 0 <= i < |b|
    ensures 0 <= k < |a| && a[k] == b[i]
  {
    assert b[i] in multiset(a);
    k :| 0 <= k < |a| && a[k] == b[i];
  }

  /** Permutations have the same members. */
  lemma PermutationMembers<T>(a: seq<T>, b: seq<T>)
    requires multiset(a) == multiset(b)
    ensures forall x :: x in a <==> x in b
  {
    forall x
      ensures x in a <==> x in b
    {
      assert x in a <==> x in multiset(a);
      assert x in b <==> x in multiset(b);
    }
  }

  // ---------------------------------------------------------------------
  // Stable sort by a numeric key, largest first

  predicate SortedDesc<T>(s: seq<T>, key: T -> int) {
    forall i, j :: 0 <= i < j < |s| ==> key(s[i]) >= key(s[j])
  }

  /** The elements of `s` whose key is `k`, in order. */
  function WithKey<T>(s: seq<T>, key: T -> int, k: int): (r: seq<T>)
    ensures |r| <= |s|
  {
    if |s| == 0 then []
    else WithKey(s[..|s| - 1], key, k) + (if key(s[|s| - 1]) == k then [s[|s| - 1]] else [])
  }

  /** Places `x` after every element whose key is at least its own. */
  function InsertDesc<T>(s: seq<T>, x: T, key: T -> int): (r: seq<T>)
    ensures |r| == |s| + 1
    ensures multiset(r) == multiset(s) + multiset{x}
    ensures forall i :: 0 <= i < |r| ==> r[i] == x || r[i] in s
  {
    if |s| == 0 then [x]
    else if key(s[|s| - 1]) >= key(x) then s + [x]
    else
      var r := InsertDesc(s[..|s| - 1], x, key) + [s[|s| - 1]];
      assert s == s[..|s| - 1] + [s[|s| - 1]];
      r
  }

  /**
   * `arr.sort((a, b) => key(b) - key(a))`: the ECMAScript sort is stable,
   * so equal keys keep their input order.
   */
  function SortDesc<T>(s: seq<T>, key: T -> int): (r: seq<T>)
    ensures |r| == |s|
    ensures multiset(r) == multiset(s)
  {
    if |s| == 0 then []
    else
      assert s == s[..|s| - 1] + [s[|s| - 1]];
      InsertDesc(SortDesc(s[..|s| - 1], key), s[|s| - 1], key)
  }

  lemma {:induction false} InsertDescSorted<T>(s: seq<T>, x: T, key: T -> int)
    requires SortedDesc(s, key)
    ensures SortedDesc(InsertDesc(s, x, key), key)
    decreases |s|
  {
    if |s| > 0 && key(s[|s| - 1]) < key(x) {
      var s' := s[..|s| - 1];
      var last := s[|s| - 1];
      InsertDescSorted(s', x, key);
      var r' := InsertDesc(s', x, key);
      forall i | 0 <= i < |r'|
        ensures key(r'[i]) >= key(last)
      {
        if r'[i] != x {
          var j :| 0 <= j < |s'| && s'[j] == r'[i];
          assert s[j] == s'[j];
        }
      }
      assert InsertDesc(s, x, key) == r' + [last];
    }
  }

  /** The result is sorted, largest key first. */
  lemma {:induction false} SortDescSorted<T>(s: seq<T>, key: T -> int)
    ensures SortedDesc(SortDesc(s, key), key)
  {
    if |s| > 0 {
      SortDescSorted(s[..|s| - 1], key);
      InsertDescSorted(SortDesc(s[..|s| - 1], key), s[|s| - 1], key);
    }
  }

  lemma {:induction false} WithKeyAppend<T>(a: seq<T>, b: seq<T>, key: T -> int, k: int)
    ensures WithKey(a + b, key, k) == WithKey(a, key, k) + WithKey(b, key, k)
    decreases |b|
  {
    if |b| == 0 {
      assert a + b == a;
    } else {
      assert (a + b)[..|a + b| - 1] == a + b[..|b| - 1];
      WithKeyAppend(a, b[..|b| - 1], key, k);
    }
  }

  lemma {:induction false} WithKeyNone<T>(s: seq<T>, key: T -> int, k: int)
    requires forall i :: 0 <= i < |s| ==> key(s[i]) != k
    ensures WithKey(s, key, k) == []
  {
    if |s| > 0 {
      WithKeyNone(s[..|s| - 1], key, k);
    }
  }

  /** `WithKey` of a one-element sequence. */
  lemma WithKeySingle<T>(y: T, key: T -> int, k: int)
    ensures WithKey([y], key, k) == if key(y) == k then [y] else []
  {
    assert [y][..0] == [];
  }

  lemma {:induction false} InsertDescWithKey<T>(s: seq<T>, x: T, key: T -> int, k: int)
    requires SortedDesc(s, key)
    ensures WithKey(InsertDesc(s, x, key), key, k)
         == WithKey(s, key, k) + (if key(x) == k then [x] else [])
    decreases |s|
  {
    WithKeySingle(x, key, k);
    if |s| == 0 {
      assert InsertDesc(s, x, key) == [x];
    } else if key(s[|s| - 1]) >= key(x) {
      assert InsertDesc(s, x, key) == s + [x];
      WithKeyAppend(s, [x], key, k);
    } else {
      var s' := s[..|s| - 1];
      assert SortedDesc(s', key);
      InsertDescWithKey(s', x, key, k);
      PassLarger(s', s[|s| - 1], x, key, k);
    }
  }

  /** One step of `InsertDesc` past a last element with a smaller key. */
  lemma PassLarger<T>(s': seq<T>, last: T, x: T, key: T -> int, k: int)
    requires key(last) < key(x)
    requires WithKey(InsertDesc(s', x, key), key, k) == WithKey(s', key, k) + (if key(x) == k then [x] else [])
    ensures WithKey(InsertDesc(s' + [last], x, key), key, k)
         == WithKey(s' + [last], key, k) + (if key(x) == k then [x] else [])
  {
    var s := s' + [last];
    assert s[..|s| - 1] == s';
    var r' := InsertDesc(s', x, key);
    assert InsertDesc(s, x, key) == r' + [last];
    WithKeySingle(last, key, k);
    WithKeyAppend(r', [last], key, k);
    WithKeyAppend(s', [last], key, k);
    var ws := WithKey(s', key, k);
    if key(x) == k {
      assert key(last) != k;
      assert WithKey(InsertDesc(s, x, key), key, k) == ws + [x];
      assert WithKey(s, key, k) == ws;
    } else {
      assert WithKey(InsertDesc(s, x, key), key, k) == ws + WithKey([last], key, k);
      assert WithKey(s, key, k) == ws + WithKey([last], key, k);
    }
  }

  /** Stability: the elements sharing any one key keep their relative order. */
  lemma {:induction false} SortDescStable<T>(s: seq<T>, key: T -> int, k: int)
    ensures WithKey(SortDesc(s, key), key, k) == WithKey(s, key, k)
  {
    if |s| > 0 {
      var s' := s[..|s| - 1];
      SortDescStable(s', key, k);
      SortDescSorted(s', key);
      InsertDescWithKey(SortDesc(s', key), s[|s| - 1], key, k);
    }
  }

  // ---------------------------------------------------------------------
  // The insertion-ordered JavaScript Map

  /** A `Map`: its keys in insertion order and the value of each. */
  datatype OMap<K(==,!new), V> = OMap(keys: seq<K>, vals: map<K, V>) {
    ghost predicate Valid() {
      Distinct(keys) && (forall k :: k in vals <==> k in keys)
    }

    /** `m.get(k)`, undefined as `None`. */
    function Get(k: K): Option<V> {
      if k in vals then Some(vals[k]) else None
    }

    /** `m.set(k, v)`: a new key goes to the end, an existing one keeps its place. */
    function Set(k: K, v: V): (m: OMap<K, V>)
      ensures Valid() ==> m.Valid()
      ensures m.Get(k) == Some(v)
      ensures forall j :: j != k ==> m.Get(j) == Get(j)
      ensures m.keys == if k in keys then keys else keys + [k]
    {
      OMap(if k in keys then keys else keys + [k], vals[k := v])
    }

    /** `Array.from(m.values())`. */
    function Values(): (r: seq<V>)
      requires Valid()
      ensures |r| == |keys|
      ensures forall i :: 0 <= i < |keys| ==> r[i] == vals[keys[i]]
    {
      seq(|keys|, i requires 0 <= i < |keys| => vals[keys[i]])
    }

    /** `Array.from(m.entries())`. */
    function Entries(): (r: seq<(K, V)>)
      requires Valid()
      ensures |r| == |keys|
      ensures forall i :: 0 <= i < |keys| ==> r[i] == (keys[i], vals[keys[i]])
    {
      seq(|keys|, i requires 0 <= i < |keys| => (keys[i], vals[keys[i]]))
    }
  }

  function EmptyMap<K(==,!new), V>(): (m: OMap<K, V>)
    ensures m.Valid() && m.keys == []
  {
    OMap([], map[])
  }

  /** `m.set(k, (m.get(k) ?? 0) + 1)`. */
  function Bump<K(==,!new)>(m: OMap<K, nat>, k: K): (r: OMap<K, nat>)
    ensures m.Valid() ==> r.Valid()
  {
    m.Set(k, m.Get(k).GetOr(0) + 1)
  }

  /** The map a counting `forEach` over `s` builds, one `Bump` per element. */
  function CountMap<K(==,!new)>(s: seq<K>): (m: OMap<K, nat>)
    ensures m.Valid()
  {
    if |s| == 0 then EmptyMap() else Bump(CountMap(s[..|s| - 1]), s[|s| - 1])
  }

  lemma CountMapSnoc<K(!new)>(s: seq<K>, i: int)
    requires 0 <= i < |s|
    ensures CountMap(s[..i + 1]) == Bump(CountMap(s[..i]), s[i])
  {
    assert s[..i + 1][..i] == s[..i];
  }

  lemma CountMapAppendOne<K(!new)>(s: seq<K>, x: K)
    ensures CountMap(s + [x]) == Bump(CountMap(s), x)
  {
    assert (s + [x])[..|s|] == s;
  }

  /** The counting map's keys are the elements in first-seen order. */
  lemma {:induction false} CountMapKeys<K(!new)>(s: seq<K>)
    ensures CountMap(s).keys == FirstSeen(s)
  {
    if |s| > 0 {
      CountMapKeys(s[..|s| - 1]);
    }
  }

  /** The counting map holds each element's number of occurrences and nothing else. */
  lemma {:induction false} CountMapCounts<K(!new)>(s: seq<K>)
    ensures forall k :: CountMap(s).Get(k) == if k in s then Some(Occurrences(s, k)) else None
  {
    if |s| > 0 {
      var s' := s[..|s| - 1];
      var last := s[|s| - 1];
      CountMapCounts(s');
      assert s == s' + [last];
      forall k
        ensures CountMap(s).Get(k) == if k in s then Some(Occurrences(s, k)) else None
      {
        assert k in s <==> k in s' || k == last;
      }
    }
  }

  /**
   * `new Map(rows.map(r => [key(r), r])).get(id)`: the map is built from
   * the rows in order, so of several rows with that key the last one wins.
   */
  function LastWithKey<T>(rows: seq<T>, key: T -> string, id: string): (r: Option<T>)
    ensures r.Some? ==> r.value in rows && key(r.value) == id
    ensures r.None? <==> forall i :: 0 <= i < |rows| ==> key(rows[i]) != id
  {
    if |rows| == 0 then None
    else if key(rows[|rows| - 1]) == id then Some(rows[|rows| - 1])
    else LastWithKey(rows[..|rows| - 1], key, id)
  }
}
