/** Sequences and maps as the graph uses them: an ArrayList of references and
    the removal of one element by reference, and a HashMap restricted by value. */
module Sequences {

  /** No element occurs twice (for references: no object is listed twice). */
  ghost predicate NoDup<T>(s: seq<T>) {
    forall i, j | 0 <= i < j < |s| :: s[i] != s[j]
  }

  /** The position of the first occurrence of `x`. */
  function IndexOf<T(==)>(s: seq<T>, x: T): (i: nat)
    requires x in s
    ensures i < |s| && s[i] == x && x !in s[..i]
  {
    if s[0] == x then 0 else 1 + IndexOf(s[1..], x)
  }

  /** ArrayList.remove(Object): drops the first occurrence of `x`, keeps the
      other elements in order, and leaves the list as it was if `x` is absent. */
  function RemoveFirst<T(==)>(s: seq<T>, x: T): (r: seq<T>)
    ensures x !in s ==> r == s
  {
    if s == [] then []
    else if s[0] == x then s[1..]
    else [s[0]] + RemoveFirst(s[1..], x)
  }

  /** When `x` is present, removing it splices the list around its first
      occurrence: everything before it and everything after it, in order. */
  lemma {:induction false} RemoveFirstSplices<T>(s: seq<T>, x: T)
    requires x in s
    ensures RemoveFirst(s, x) == s[..IndexOf(s, x)] + s[IndexOf(s, x) + 1..]
    decreases |s|
  {
    if s[0] != x {
      var i := IndexOf(s, x);
      assert x in s[1..];
      RemoveFirstSplices(s[1..], x);
      assert s[..i] == [s[0]] + s[1..][..i - 1];
      assert s[i + 1..] == s[1..][i..];
    }
  }

  /** What removing by reference does to membership, length and duplicates. */
  lemma {:induction false} RemoveFirstFacts<T>(s: seq<T>, x: T)
    ensures forall y | y != x :: y in RemoveFirst(s, x) <==> y in s
    ensures |RemoveFirst(s, x)| == if x in s then |s| - 1 else |s|
    ensures NoDup(s) ==> NoDup(RemoveFirst(s, x)) && x !in RemoveFirst(s, x)
    decreases |s|
  {
    if s != [] && s[0] != x {
      var tail := RemoveFirst(s[1..], x);
      RemoveFirstFacts(s[1..], x);
      assert RemoveFirst(s, x) == [s[0]] + tail;
      assert x in s <==> x in s[1..];
      forall y | y != x ensures y in RemoveFirst(s, x) <==> y in s {
        assert y in s <==> y == s[0] || y in s[1..];
      }
      if NoDup(s) {
        assert NoDup(s[1..]) && s[0] !in s[1..] by {
          forall i, j | 0 <= i < j < |s[1..]| ensures s[1..][i] != s[1..][j] {
            assert s[1..][i] == s[i + 1] && s[1..][j] == s[j + 1];
          }
        }
        NoDupCons(s[0], tail);
      }
    }
  }

  /** Putting an element in front of a duplicate-free list that lacks it keeps
      the list duplicate-free. */
  lemma NoDupCons<T>(a: T, r: seq<T>)
    requires NoDup(r) && a !in r
    ensures NoDup([a] + r)
  {
    forall i, j | 0 <= i < j < |[a] + r| ensures ([a] + r)[i] != ([a] + r)[j] {
      assert ([a] + r)[j] == r[j - 1];
    }
  }

  /** The elements of `s` that are not in `d`, in their order. */
  function Without<T>(s: seq<T>, d: set<T>): (r: seq<T>)
    ensures forall y | y in r :: y in s && y !in d
    ensures forall y | y in s && y !in d :: y in r
  {
    if s == [] then []
    else
      assert forall y | y in s :: y == s[0] || y in s[1..];
      (if s[0] in d then [] else [s[0]]) + Without(s[1..], d)
  }

  lemma {:induction false} WithoutNothing<T>(s: seq<T>)
    ensures Without(s, {}) == s
  {
    if s != [] {
      WithoutNothing(s[1..]);
    }
  }

  /** Filtering one more element out is removing it by reference, provided the
      filtered list holds no duplicate. */
  lemma {:induction false} WithoutOneMore<T>(s: seq<T>, d: set<T>, x: T)
    requires NoDup(Without(s, d))
    ensures Without(s, d + {x}) == RemoveFirst(Without(s, d), x)
  {
    if s != [] {
      var w := Without(s, d);
      var tail := Without(s[1..], d);
      if s[0] in d {
        assert w == tail;
        WithoutOneMore(s[1..], d, x);
      } else {
        assert w == [s[0]] + tail;
        assert NoDup(tail) by {
          forall i, j | 0 <= i < j < |tail| ensures tail[i] != tail[j] {
            assert tail[i] == w[i + 1] && tail[j] == w[j + 1];
          }
        }
        WithoutOneMore(s[1..], d, x);
        if s[0] == x {
          assert x !in tail by {
            forall k | 0 <= k < |tail| ensures tail[k] != x {
              assert w[0] == x && w[k + 1] == tail[k];
            }
          }
        }
      }
    }
  }

  /** HashMap entries whose value is not in `d`. */
  function RemoveValues<K, V>(m: map<K, V>, d: set<V>): map<K, V>
  {
    map k | k in m && m[k] !in d :: m[k]
  }

  /** Dropping the entries whose value is in `d` keeps every other entry as it
      was, and leaves exactly the values outside `d`. */
  lemma RemoveValuesFacts<K, V>(m: map<K, V>, d: set<V>)
    ensures forall k | k in RemoveValues(m, d) :: k in m && RemoveValues(m, d)[k] == m[k]
    ensures forall k | k in m && k !in RemoveValues(m, d) :: m[k] in d
    ensures RemoveValues(m, d).Values == m.Values - d
  {
    var r := RemoveValues(m, d);
    forall v | v in m.Values - d ensures v in r.Values {
      var k :| k in m && m[k] == v;
      assert r[k] == v;
    }
  }

  lemma RemoveValuesNothing<K, V>(m: map<K, V>)
    ensures RemoveValues(m, {}) == m
  {
  }

  /** Dropping the only key that holds `x` is filtering `x` out. */
  lemma RemoveOneMoreValue<K, V>(m: map<K, V>, d: set<V>, k: K, x: V)
    requires k in m && m[k] == x
    requires forall j | j in m && m[j] == x :: j == k
    ensures RemoveValues(m, d) - {k} == RemoveValues(m, d + {x})
  {
  }

  /** A map whose values are pairwise distinct has as many values as keys. */
  lemma {:induction false} InjectiveValuesCount<K, V>(m: map<K, V>)
    requires forall a, b | a in m && b in m && m[a] == m[b] :: a == b
    ensures |m.Values| == |m|
    decreases |m|
  {
    if m != map[] {
      var k :| k in m;
      var rest := m - {k};
      InjectiveValuesCount(rest);
      forall v | v in m.Values ensures v in rest.Values + {m[k]} {
        var j :| j in m && m[j] == v;
        if j != k {
          assert rest[j] == v;
        }
      }
      assert m.Values == rest.Values + {m[k]};
      assert m[k] !in rest.Values;
      assert |m| == |rest| + 1;
    }
  }
}
