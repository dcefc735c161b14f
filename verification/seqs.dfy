/**
 * Sequence helpers shared by the reactor and the name tables: the first position
 * holding a key, and the filter that drops every element holding a key (the
 * list-rebuilding loops of remove_handle and remove_timer).
 */
module Seqs {
  import opened Wrappers

  /** The position of the first element of `s` whose key is `k`, if there is one. */
  function FirstIndex<T, K(==)>(s: seq<T>, key: T -> K, k: K): (r: Option<nat>)
    ensures r.Some? ==> r.value < |s| && key(s[r.value]) == k
    ensures r.Some? ==> forall j :: 0 <= j < r.value ==> key(s[j]) != k
    ensures r.None? ==> forall j :: 0 <= j < |s| ==> key(s[j]) != k
  {
    if s == [] then None
    else if key(s[0]) == k then Some(0)
    else match FirstIndex(s[1..], key, k)
      case None => None
      case Some(i) => Some(i + 1)
  }

  /** The elements of `s` whose key differs from `k`, in their original order. */
  function Without<T, K(==)>(s: seq<T>, key: T -> K, k: K): seq<T> {
    if s == [] then []
    else
      var last := s[|s| - 1];
      Without(s[..|s| - 1], key, k) + (if key(last) != k then [last] else [])
  }

  /** An element survives the filter exactly when it was there and does not hold the key. */
  lemma {:induction false} WithoutMembers<T, K>(s: seq<T>, key: T -> K, k: K)
    ensures forall x :: x in Without(s, key, k) <==> x in s && key(x) != k
  {
    if s != [] {
      var init, last := s[..|s| - 1], s[|s| - 1];
      WithoutMembers(init, key, k);
      assert s == init + [last];
    }
  }

  /** Every element the filter keeps comes from `s` and does not hold the key. */
  lemma WithoutElement<T, K>(s: seq<T>, key: T -> K, k: K, i: nat)
    requires i < |Without(s, key, k)|
    ensures Without(s, key, k)[i] in s && key(Without(s, key, k)[i]) != k
  {
    var r := Without(s, key, k);
    WithoutMembers(s, key, k);
    assert r[i] in r;
  }

  /** Filtering one element further extends the result by that element, unless it holds the key. */
  lemma WithoutSnoc<T, K>(s: seq<T>, key: T -> K, k: K, i: nat)
    requires i < |s|
    ensures Without(s[..i + 1], key, k) == Without(s[..i], key, k) + (if key(s[i]) != k then [s[i]] else [])
  {
    assert s[..i + 1][..i] == s[..i];
  }

  /** Keys strictly increase along `s`; in particular no key occurs twice. */
  ghost predicate Ascending<T>(s: seq<T>, key: T -> int) {
    forall i, j :: 0 <= i < j < |s| ==> key(s[i]) < key(s[j])
  }

  /** Dropping elements keeps the remaining keys in increasing order. */
  lemma {:induction false} WithoutAscending<T>(s: seq<T>, key: T -> int, k: int)
    requires Ascending(s, key)
    ensures Ascending(Without(s, key, k), key)
  {
    if s != [] {
      var init, last := s[..|s| - 1], s[|s| - 1];
      WithoutAscending(init, key, k);
      var w := Without(init, key, k);
      forall m | 0 <= m < |w| ensures key(w[m]) < key(last) {
        WithoutElement(init, key, k, m);
        var i :| 0 <= i < |init| && init[i] == w[m];
        assert s[i] == w[m];
      }
      if key(last) != k {
        forall i, j | 0 <= i < j < |w + [last]|
          ensures key((w + [last])[i]) < key((w + [last])[j])
        {
          if j == |w| {
            assert (w + [last])[i] == w[i];
          }
        }
      }
    }
  }

  /** Dropping elements keeps the remaining keys within any bounds they were in. */
  lemma WithoutBounded<T>(s: seq<T>, key: T -> int, k: int, lo: int, hi: int)
    requires forall i :: 0 <= i < |s| ==> lo <= key(s[i]) <= hi
    ensures forall i :: 0 <= i < |Without(s, key, k)| ==> lo <= key(Without(s, key, k)[i]) <= hi
  {
    var r := Without(s, key, k);
    forall i | 0 <= i < |r| ensures lo <= key(r[i]) <= hi {
      WithoutElement(s, key, k, i);
      var j :| 0 <= j < |s| && s[j] == r[i];
    }
  }

  /** When no element holds the key, nothing is dropped. */
  lemma {:induction false} WithoutAbsent<T, K>(s: seq<T>, key: T -> K, k: K)
    requires forall j :: 0 <= j < |s| ==> key(s[j]) != k
    ensures Without(s, key, k) == s
  {
    if s != [] {
      WithoutAbsent(s[..|s| - 1], key, k);
      assert s == s[..|s| - 1] + [s[|s| - 1]];
    }
  }

  /** Replacing an element by one with the same key keeps the keys ascending. */
  lemma AscendingUpdate<T>(s: seq<T>, key: T -> int, k: nat, x: T)
    requires Ascending(s, key) && k < |s| && key(x) == key(s[k])
    ensures Ascending(s[k := x], key)
  {
    var t := s[k := x];
    forall a, b | 0 <= a < b < |t| ensures key(t[a]) < key(t[b]) {
      assert key(t[a]) == key(s[a]) && key(t[b]) == key(s[b]);
    }
  }

  /** When keys are unique, the element holding a key is the first one holding it. */
  lemma AscendingFirstIndex<T>(s: seq<T>, key: T -> int, j: nat)
    requires Ascending(s, key) && j < |s|
    ensures FirstIndex(s, key, key(s[j])) == Some(j)
  {
    var r := FirstIndex(s, key, key(s[j]));
    assert r.Some? && key(s[r.value]) == key(s[j]);
  }

  /** A prefix of an ascending sequence is ascending. */
  lemma AscendingPrefix<T>(s: seq<T>, key: T -> int, n: nat)
    requires Ascending(s, key) && n <= |s|
    ensures Ascending(s[..n], key)
  {
    forall a, b | 0 <= a < b < n ensures key(s[..n][a]) < key(s[..n][b]) {
      assert s[..n][a] == s[a] && s[..n][b] == s[b];
    }
  }

  /**
   * When keys are unique, dropping the key of `s[i]` removes exactly that element
   * and keeps every other one in place and in order.
   */
  lemma {:induction false} WithoutUnique<T>(s: seq<T>, key: T -> int, i: nat)
    requires Ascending(s, key) && i < |s|
    ensures Without(s, key, key(s[i])) == s[..i] + s[i + 1..]
  {
    var init, last := s[..|s| - 1], s[|s| - 1];
    var k := key(s[i]);
    assert Without(s, key, k) == Without(init, key, k) + (if key(last) != k then [last] else []);
    if i == |s| - 1 {
      assert Without(init, key, k) == init by {
        forall j | 0 <= j < |init| ensures key(init[j]) != k {
          assert init[j] == s[j];
        }
        WithoutAbsent(init, key, k);
      }
      assert s[..i] + s[i + 1..] == init;
    } else {
      assert key(last) != k by { assert key(s[i]) < key(s[|s| - 1]); }
      assert Without(init, key, k) == s[..i] + s[i + 1..|s| - 1] by {
        AscendingPrefix(s, key, |s| - 1);
        assert init[i] == s[i];
        WithoutUnique(init, key, i);
        assert init[..i] == s[..i];
        assert init[i + 1..] == s[i + 1..|s| - 1];
      }
      assert s[i + 1..|s| - 1] + [last] == s[i + 1..];
    }
  }
}
