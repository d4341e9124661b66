/** Sequences read as the rows of a table: a `where` clause is `Filter`, a
    primary key or a unique constraint is `Injective`, and the lemmas relate
    `COUNT(DISTINCT key)` and `COUNT(*)` over the rows a clause selects. */
module Seqs {

  /** The rows of `s` that satisfy `p`, in table order. */
  function Filter<T(!new)>(s: seq<T>, p: T -> bool): (r: seq<T>)
    ensures |r| <= |s|
    ensures forall x :: x in r <==> x in s && p(x)
    ensures forall i :: 0 <= i < |r| ==> p(r[i])
  {
    if s == [] then []
    else (if p(s[0]) then [s[0]] else []) + Filter(s[1..], p)
  }

  /** No two rows of `s` (at different positions) share a key. */
  predicate Injective<T, K(==)>(s: seq<T>, key: T -> K)
  {
    forall i, j | 0 <= i < |s| && 0 <= j < |s| && key(s[i]) == key(s[j]) :: i == j
  }

  /** Appending one row to a table filters to appending it to the selection
      exactly when it satisfies the clause. */
  lemma {:induction false} FilterAppend<T(!new)>(s: seq<T>, x: T, p: T -> bool)
    ensures Filter(s + [x], p) == Filter(s, p) + (if p(x) then [x] else [])
  {
    if s == [] {
      assert s + [x] == [x];
    } else {
      assert (s + [x])[1..] == s[1..] + [x];
      FilterAppend(s[1..], x, p);
    }
  }

  /** A key that is unique in a table stays unique in any selection of it. */
  lemma {:induction false} FilterInjective<T(!new), K>(s: seq<T>, p: T -> bool, key: T -> K)
    requires Injective(s, key)
    ensures Injective(Filter(s, p), key)
  {
    if s != [] {
      var tail := s[1..];
      assert Injective(tail, key) by {
        forall i, j | 0 <= i < |tail| && 0 <= j < |tail| && key(tail[i]) == key(tail[j])
          ensures i == j
        {
          assert key(s[i + 1]) == key(s[j + 1]);
        }
      }
      FilterInjective(tail, p, key);
      var rest := Filter(tail, p);
      if p(s[0]) {
        var r := [s[0]] + rest;
        forall i, j | 0 <= i < |r| && 0 <= j < |r| && key(r[i]) == key(r[j])
          ensures i == j
        {
          if i != 0 && j != 0 {
            assert key(rest[i - 1]) == key(rest[j - 1]);
          }
        }
      }
    }
  }

  /** The keys of the rows that satisfy `p`. */
  ghost function Keys<T(!new), K>(s: seq<T>, p: T -> bool, key: T -> K): set<K>
  {
    set x | x in s && p(x) :: key(x)
  }

  /** `COUNT(DISTINCT key)` over the rows selected by `p` equals the number
      of those rows when `key` is a primary key of the table. */
  lemma {:induction false} DistinctKeysCount<T(!new), K>(s: seq<T>, p: T -> bool, key: T -> K)
    requires Injective(s, key)
    ensures |Keys(s, p, key)| == |Filter(s, p)|
  {
    if s != [] {
      var tail := s[1..];
      InjectiveTail(s, key);
      DistinctKeysCount(tail, p, key);
      assert s == [s[0]] + tail;
      var rest := Keys(tail, p, key);
      assert key(s[0]) !in rest by {
        forall x | x in tail
          ensures key(x) != key(s[0])
        {
          var i :| 0 <= i < |tail| && tail[i] == x;
          assert s[i + 1] == x;
        }
      }
      if p(s[0]) {
        assert Keys(s, p, key) == rest + {key(s[0])};
      } else {
        assert Keys(s, p, key) == rest;
      }
    }
  }

  /** Appending a row whose key is new keeps the key unique. */
  lemma AppendInjective<T, K>(s: seq<T>, x: T, key: T -> K)
    requires Injective(s, key)
    requires forall y | y in s :: key(y) != key(x)
    ensures Injective(s + [x], key)
  {
    var r := s + [x];
    forall i, j | 0 <= i < |r| && 0 <= j < |r| && key(r[i]) == key(r[j])
      ensures i == j
    {
      if i < |s| && j < |s| {
        assert key(s[i]) == key(s[j]);
      }
    }
  }

  /** A clause every row satisfies selects the whole table. */
  lemma {:induction false} FilterIdentity<T(!new)>(s: seq<T>, p: T -> bool)
    requires forall x | x in s :: p(x)
    ensures Filter(s, p) == s
  {
    if s != [] {
      FilterIdentity(s[1..], p);
    }
  }

  /** A `where` clause over a union of two tables selects from each. */
  lemma {:induction false} FilterConcat<T(!new)>(a: seq<T>, b: seq<T>, p: T -> bool)
    ensures Filter(a + b, p) == Filter(a, p) + Filter(b, p)
  {
    if a != [] {
      assert (a + b)[1..] == a[1..] + b;
      FilterConcat(a[1..], b, p);
    } else {
      assert a + b == b;
    }
  }

  /** A clause no row satisfies selects nothing. */
  lemma FilterNone<T(!new)>(s: seq<T>, p: T -> bool)
    requires forall x | x in s :: !p(x)
    ensures Filter(s, p) == []
  {
  }

  /** Dropping the first row keeps a key unique. */
  lemma InjectiveTail<T, K>(s: seq<T>, key: T -> K)
    requires Injective(s, key) && s != []
    ensures Injective(s[1..], key)
  {
    var tail := s[1..];
    forall i, j | 0 <= i < |tail| && 0 <= j < |tail| && key(tail[i]) == key(tail[j])
      ensures i == j
    {
      assert key(s[i + 1]) == key(s[j + 1]);
    }
  }

  /** Putting a row whose key is new in front keeps the key unique. */
  lemma PrependInjective<T, K>(x: T, s: seq<T>, key: T -> K)
    requires Injective(s, key)
    requires forall y | y in s :: key(y) != key(x)
    ensures Injective([x] + s, key)
  {
    var r := [x] + s;
    forall i, j | 0 <= i < |r| && 0 <= j < |r| && key(r[i]) == key(r[j])
      ensures i == j
    {
      if i != 0 && j != 0 {
        assert key(s[i - 1]) == key(s[j - 1]);
      }
    }
  }

  /** Two clauses that agree on every row select the same rows. */
  lemma {:induction false} FilterExt<T(!new)>(s: seq<T>, p: T -> bool, q: T -> bool)
    requires forall x | x in s :: p(x) == q(x)
    ensures Filter(s, p) == Filter(s, q)
  {
    if s != [] {
      FilterExt(s[1..], p, q);
    }
  }
}
