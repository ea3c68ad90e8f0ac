/** Sorting of integer lists, as PHP's `sort` does it on the option ids a
    quiz answer and a question's correct options are compared by, the
    ascending id order in which the store returns rows, and the stable
    ordering of ids by a key that `ORDER BY` performs. */
module Sorting {

  predicate Sorted(s: seq<int>)
  {
    forall i, j :: 0 <= i < j < |s| ==> s[i] <= s[j]
  }

  predicate StrictlySorted(s: seq<int>)
  {
    forall i, j :: 0 <= i < j < |s| ==> s[i] < s[j]
  }

  /** `x` put in its place in a sorted list. */
  function Insert(x: int, s: seq<int>): (r: seq<int>)
    requires Sorted(s)
    ensures Sorted(r) && multiset(r) == multiset(s) + multiset{x}
  {
    if s == [] || x <= s[0] then
      SortedCons(x, s);
      [x] + s
    else
      assert s == [s[0]] + s[1..];
      var t := Insert(x, s[1..]);
      assert forall i :: 0 <= i < |t| ==> s[0] <= t[i] by {
        forall i | 0 <= i < |t| ensures s[0] <= t[i] {
          assert t[i] in multiset(t);
          if t[i] != x {
            assert t[i] in s[1..];
          }
        }
      }
      SortedCons(s[0], t);
      [s[0]] + t
  }

  /** A sorted list stays sorted with a lower element in front. */
  lemma SortedCons(m: int, t: seq<int>)
    requires Sorted(t) && forall i :: 0 <= i < |t| ==> m <= t[i]
    ensures Sorted([m] + t)
  {
  }

  /** The list in ascending order. */
  function Sort(s: seq<int>): (r: seq<int>)
    ensures Sorted(r) && multiset(r) == multiset(s)
  {
    if s == [] then []
    else
      assert s == [s[0]] + s[1..];
      Insert(s[0], Sort(s[1..]))
  }

  /** A sorted list is determined by its elements. */
  lemma {:induction false} SortedUnique(a: seq<int>, b: seq<int>)
    requires Sorted(a) && Sorted(b) && multiset(a) == multiset(b)
    ensures a == b
    decreases |a|
  {
    if a == [] {
      assert |multiset(b)| == 0;
    } else {
      assert |multiset(b)| == |a|;
      assert b != [];
      assert a[0] in multiset(b) && b[0] in multiset(a);
      HeadIsLeast(a, b[0]);
      HeadIsLeast(b, a[0]);
      TailsAgree(a, b);
      SortedUnique(a[1..], b[1..]);
      assert a == [a[0]] + a[1..] && b == [b[0]] + b[1..];
    }
  }

  /** The head of a sorted list is its least element. */
  lemma HeadIsLeast(s: seq<int>, x: int)
    requires Sorted(s) && x in multiset(s)
    ensures s[0] <= x
  {
    assert x in s;
    var j :| 0 <= j < |s| && s[j] == x;
    if j > 0 {
      assert s[0] <= s[j];
    }
  }

  /** Lists with the same elements and the same head have tails with the
      same elements. */
  lemma TailsAgree(a: seq<int>, b: seq<int>)
    requires a != [] && b != [] && a[0] == b[0] && multiset(a) == multiset(b)
    ensures multiset(a[1..]) == multiset(b[1..])
  {
    assert a == [a[0]] + a[1..] && b == [b[0]] + b[1..];
    assert multiset(a) == multiset([a[0]]) + multiset(a[1..]);
    assert multiset(b) == multiset([a[0]]) + multiset(b[1..]);
    forall e ensures multiset(a[1..])[e] == multiset(b[1..])[e] {
      assert multiset(a)[e] == multiset(b)[e];
    }
  }

  /** Two lists sort to the same list exactly when they hold the same
      elements the same number of times. */
  lemma SortEqualIff(a: seq<int>, b: seq<int>)
    ensures Sort(a) == Sort(b) <==> multiset(a) == multiset(b)
  {
    if multiset(a) == multiset(b) {
      SortedUnique(Sort(a), Sort(b));
    }
  }

  /** Sorting a sorted list changes nothing. */
  lemma SortSorted(s: seq<int>)
    requires Sorted(s)
    ensures Sort(s) == s
  {
    SortedUnique(Sort(s), s);
  }

  /** `m` is the least element of `s`. */
  predicate IsLeast(m: int, s: set<int>)
  {
    m in s && forall x :: x in s ==> m <= x
  }

  /** An integer set that is not empty has a least element. */
  lemma {:induction false} HasLeast(s: set<int>)
    requires s != {}
    ensures exists m :: IsLeast(m, s)
    decreases |s|
  {
    if forall y :: y !in s {
      assert false;
    }
    var y :| y in s;
    var rest := s - {y};
    if rest == {} {
      assert IsLeast(y, s) by {
        forall x | x in s ensures y <= x {
          assert x in rest || x == y;
        }
      }
    } else {
      HasLeast(rest);
      var m :| IsLeast(m, rest);
      LeastOfOneMore(y, m, rest, s);
    }
  }

  lemma LeastOfOneMore(y: int, m: int, rest: set<int>, s: set<int>)
    requires IsLeast(m, rest) && s == rest + {y}
    ensures IsLeast(if y < m then y else m, s)
  {
  }

  /** The least element of a set that is not empty. */
  function Least(s: set<int>): (m: int)
    requires s != {}
    ensures IsLeast(m, s)
  {
    HasLeast(s);
    var m :| IsLeast(m, s);
    m
  }

  /** The ids of a set in ascending order, as a primary-key scan returns them. */
  function SortedIds(s: set<int>): (r: seq<int>)
    ensures StrictlySorted(r) && |r| == |s|
    ensures forall x :: x in r <==> x in s
    decreases |s|
  {
    if s == {} then []
    else
      var m := Least(s);
      [m] + SortedIds(s - {m})
  }

  /** A strictly sorted list holds each element once. */
  lemma {:induction false} StrictlySortedMultiset(r: seq<int>)
    requires StrictlySorted(r)
    ensures multiset(r) == multiset(set x | x in r)
    decreases |r|
  {
    if r != [] {
      assert r == [r[0]] + r[1..];
      StrictlySortedMultiset(r[1..]);
      assert r[0] !in r[1..];
      assert (set x | x in r) == {r[0]} + (set x | x in r[1..]);
    }
  }

  /** Two strictly ascending lists with the same elements are equal. */
  lemma StrictlySortedUnique(a: seq<int>, b: seq<int>)
    requires StrictlySorted(a) && StrictlySorted(b)
    requires forall x :: x in a <==> x in b
    ensures a == b
  {
    StrictlySortedMultiset(a);
    StrictlySortedMultiset(b);
    assert (set x | x in a) == (set x | x in b);
    SortedUnique(a, b);
  }

  /** The ids `lo`, `lo + 1`, ..., `lo + n - 1`. */
  function Range(lo: int, n: nat): (r: seq<int>)
    ensures |r| == n && StrictlySorted(r)
    ensures forall i :: 0 <= i < n ==> r[i] == lo + i
    ensures forall x :: x in r <==> lo <= x < lo + n
  {
    var r := seq(n, i requires 0 <= i < n => lo + i);
    assert forall x :: lo <= x < lo + n ==> x in r by {
      forall x | lo <= x < lo + n ensures x in r {
        assert r[x - lo] == x;
      }
    }
    r
  }

  lemma SortMatchesIds(a: seq<int>, s: set<int>)
    ensures Sort(a) == SortedIds(s) <==> multiset(a) == multiset(s)
  {
    var r := SortedIds(s);
    StrictlySortedMultiset(r);
    assert (set x | x in r) == s;
    SortSorted(r);
    SortEqualIff(a, r);
  }

  // Ordering ids by a key, as `ORDER BY` does.

  /** The ids in ascending order of their keys. */
  predicate KeySorted(order: map<int, int>, s: seq<int>)
  {
    (forall i :: 0 <= i < |s| ==> s[i] in order)
    && forall i, j :: 0 <= i < j < |s| ==> order[s[i]] <= order[s[j]]
  }

  /** The elements of `s` whose key is `k`, in the order of `s`. */
  function WithKey(order: map<int, int>, s: seq<int>, k: int): seq<int>
    requires forall i :: 0 <= i < |s| ==> s[i] in order
  {
    if s == [] then [] else (if order[s[0]] == k then [s[0]] else []) + WithKey(order, s[1..], k)
  }

  /** The key's part of a list with one more element in front. */
  function Head(order: map<int, int>, x: int, k: int): seq<int>
    requires x in order
  {
    if order[x] == k then [x] else []
  }

  lemma WithKeyCons(order: map<int, int>, x: int, s: seq<int>, k: int)
    requires x in order && forall i :: 0 <= i < |s| ==> s[i] in order
    ensures WithKey(order, [x] + s, k) == Head(order, x, k) + WithKey(order, s, k)
  {
    assert ([x] + s)[1..] == s;
  }

  /** `x` put before the first element whose key is not smaller, so that
      equal keys keep their order. */
  function InsertByKey(order: map<int, int>, x: int, s: seq<int>): (r: seq<int>)
    requires x in order && KeySorted(order, s)
    ensures KeySorted(order, r) && multiset(r) == multiset(s) + multiset{x}
  {
    if s == [] || order[x] <= order[s[0]] then
      KeySortedCons(order, x, s);
      [x] + s
    else
      assert s == [s[0]] + s[1..];
      var t := InsertByKey(order, x, s[1..]);
      assert forall i :: 0 <= i < |t| ==> t[i] in order && order[s[0]] <= order[t[i]] by {
        forall i | 0 <= i < |t| ensures t[i] in order && order[s[0]] <= order[t[i]] {
          assert t[i] in multiset(t);
          if t[i] != x {
            assert t[i] in s[1..];
          }
        }
      }
      KeySortedCons(order, s[0], t);
      [s[0]] + t
  }

  lemma KeySortedCons(order: map<int, int>, m: int, t: seq<int>)
    requires m in order && KeySorted(order, t)
    requires forall i :: 0 <= i < |t| ==> order[m] <= order[t[i]]
    ensures KeySorted(order, [m] + t)
  {
  }

  /** Inserting `x` puts it in front of every element of its own key. */
  lemma {:induction false} InsertByKeyTies(order: map<int, int>, x: int, s: seq<int>, k: int)
    requires x in order && KeySorted(order, s)
    ensures WithKey(order, InsertByKey(order, x, s), k) == Head(order, x, k) + WithKey(order, s, k)
  {
    if s == [] || order[x] <= order[s[0]] {
      WithKeyCons(order, x, s, k);
    } else {
      var t := InsertByKey(order, x, s[1..]);
      assert s == [s[0]] + s[1..];
      InsertByKeyTies(order, x, s[1..], k);
      WithKeyCons(order, s[0], t, k);
      WithKeyCons(order, s[0], s[1..], k);
      assert Head(order, s[0], k) == [] || Head(order, x, k) == [];
    }
  }

  /** `ORDER BY key ASC`, ties left in the order given: the result is
      ascending by key, a permutation, and the elements of each key come in
      the order of the input. */
  function SortByKey(order: map<int, int>, s: seq<int>): (r: seq<int>)
    requires forall i :: 0 <= i < |s| ==> s[i] in order
    ensures KeySorted(order, r) && multiset(r) == multiset(s)
    ensures forall k :: WithKey(order, r, k) == WithKey(order, s, k)
  {
    if s == [] then []
    else
      assert s == [s[0]] + s[1..];
      var t := SortByKey(order, s[1..]);
      assert forall k :: WithKey(order, InsertByKey(order, s[0], t), k) == WithKey(order, s, k) by {
        forall k ensures WithKey(order, InsertByKey(order, s[0], t), k) == WithKey(order, s, k) {
          InsertByKeyTies(order, s[0], t, k);
          WithKeyCons(order, s[0], s[1..], k);
        }
      }
      InsertByKey(order, s[0], t)
  }

  lemma {:induction false} WithKeyIn(order: map<int, int>, s: seq<int>, k: int, x: int)
    requires forall i :: 0 <= i < |s| ==> s[i] in order
    requires x in WithKey(order, s, k)
    ensures x in s
  {
    assert s != [];
    WithKeyCons(order, s[0], s[1..], k);
    assert s == [s[0]] + s[1..];
    if x != s[0] {
      WithKeyIn(order, s[1..], k, x);
    }
  }

  /** The elements of one key taken from an ascending list are ascending. */
  lemma {:induction false} WithKeyStrictlySorted(order: map<int, int>, s: seq<int>, k: int)
    requires forall i :: 0 <= i < |s| ==> s[i] in order
    requires StrictlySorted(s)
    ensures StrictlySorted(WithKey(order, s, k))
  {
    if s != [] {
      var w := WithKey(order, s[1..], k);
      var h := Head(order, s[0], k);
      WithKeyStrictlySorted(order, s[1..], k);
      assert s == [s[0]] + s[1..];
      WithKeyCons(order, s[0], s[1..], k);
      forall p | 0 <= p < |w| ensures s[0] < w[p] {
        WithKeyIn(order, s[1..], k, w[p]);
        var i :| 0 <= i < |s[1..]| && s[1..][i] == w[p];
        assert s[i + 1] == w[p];
      }
      forall p, q | 0 <= p < q < |h + w| ensures (h + w)[p] < (h + w)[q] {
        if p < |h| {
          assert (h + w)[q] == w[q - |h|];
        } else {
          assert (h + w)[p] == w[p - |h|] && (h + w)[q] == w[q - |h|];
        }
      }
    }
  }

  lemma {:induction false} WithKeyHas(order: map<int, int>, s: seq<int>, k: int, n: int)
    requires forall i :: 0 <= i < |s| ==> s[i] in order
    requires 0 <= n < |s| && order[s[n]] == k
    ensures s[n] in WithKey(order, s, k)
  {
    WithKeyCons(order, s[0], s[1..], k);
    assert s == [s[0]] + s[1..];
    if n > 0 {
      WithKeyHas(order, s[1..], k, n - 1);
    }
  }

  /** Two elements of one key stand in `r` as in the list of that key. */
  lemma {:induction false} TieOrder(order: map<int, int>, r: seq<int>, i: int, j: int)
    requires forall n :: 0 <= n < |r| ==> r[n] in order
    requires 0 <= i < j < |r| && order[r[i]] == order[r[j]]
    requires StrictlySorted(WithKey(order, r, order[r[i]]))
    ensures r[i] < r[j]
  {
    var k := order[r[i]];
    var w := WithKey(order, r[1..], k);
    var h := Head(order, r[0], k);
    assert r == [r[0]] + r[1..];
    WithKeyCons(order, r[0], r[1..], k);
    WithKeyHas(order, r[1..], k, j - 1);
    if i == 0 {
      var q :| 0 <= q < |w| && w[q] == r[j];
      assert (h + w)[0] == r[0] && (h + w)[q + 1] == r[j];
    } else {
      assert StrictlySorted(w) by {
        forall p, q | 0 <= p < q < |w| ensures w[p] < w[q] {
          assert (h + w)[|h| + p] == w[p] && (h + w)[|h| + q] == w[q];
        }
      }
      TieOrder(order, r[1..], i - 1, j - 1);
    }
  }

  /** Sorting an ascending list by a key leaves equal keys in ascending
      order, which is the tie rule the listings rely on. */
  lemma SortByKeyTiesAscending(order: map<int, int>, s: seq<int>)
    requires forall i :: 0 <= i < |s| ==> s[i] in order
    requires StrictlySorted(s)
    ensures var r := SortByKey(order, s);
      forall i, j :: 0 <= i < j < |r| && order[r[i]] == order[r[j]] ==> r[i] < r[j]
  {
    var r := SortByKey(order, s);
    forall i, j | 0 <= i < j < |r| && order[r[i]] == order[r[j]] ensures r[i] < r[j] {
      WithKeyStrictlySorted(order, s, order[r[i]]);
      TieOrder(order, r, i, j);
    }
  }
}
