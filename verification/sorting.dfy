/** Python's `sorted(xs, key=...)` and `list.sort(key=...)` on a real-valued
    key: a stable sort. Modelled as insertion sort on sequences. */
module StableSort {

  ghost predicate Sorted<T>(xs: seq<T>, key: T -> real) {
    forall i, j :: 0 <= i < j < |xs| ==> key(xs[i]) <= key(xs[j])
  }

  /** The elements of `xs` whose key is `k`, in their order in `xs`. */
  function WithKey<T>(xs: seq<T>, key: T -> real, k: real): seq<T> {
    if |xs| == 0 then []
    else (if key(xs[0]) == k then [xs[0]] else []) + WithKey(xs[1..], key, k)
  }

  /** Where `Insert` puts `x`: after the last element whose key does not
      exceed `key(x)`, counting from the end. */
  function InsertPos<T>(s: seq<T>, x: T, key: T -> real): (m: nat)
    ensures m <= |s|
    ensures forall i :: m <= i < |s| ==> key(x) < key(s[i])
    ensures m == 0 || key(s[m - 1]) <= key(x)
  {
    if |s| == 0 || key(s[|s| - 1]) <= key(x) then |s| else InsertPos(s[..|s| - 1], x, key)
  }

  function Insert<T>(s: seq<T>, x: T, key: T -> real): (r: seq<T>)
    ensures |r| == |s| + 1
    ensures multiset(r) == multiset(s) + multiset{x}
  {
    var m := InsertPos(s, x, key);
    assert s == s[..m] + s[m..];
    s[..m] + [x] + s[m..]
  }

  lemma InsertSorted<T>(s: seq<T>, x: T, key: T -> real)
    requires Sorted(s, key)
    ensures Sorted(Insert(s, x, key), key)
  {
    var m := InsertPos(s, x, key);
    var r := Insert(s, x, key);
    assert r == s[..m] + [x] + s[m..];
    forall i, j | 0 <= i < j < |r| ensures key(r[i]) <= key(r[j]) {
      if j < m {
        assert r[i] == s[i] && r[j] == s[j];
      } else if j == m {
        assert r[i] == s[i] && r[j] == x;
        assert key(s[i]) <= key(s[m - 1]);
      } else if i < m {
        assert r[i] == s[i] && r[j] == s[j - 1];
      } else if i == m {
        assert r[i] == x && r[j] == s[j - 1];
      } else {
        assert r[i] == s[i - 1] && r[j] == s[j - 1];
      }
    }
  }

  function Sort<T>(xs: seq<T>, key: T -> real): (r: seq<T>)
    ensures |r| == |xs|
    ensures multiset(r) == multiset(xs)
    ensures Sorted(r, key)
  {
    if |xs| == 0 then []
    else
      var init := xs[..|xs| - 1];
      assert xs == init + [xs[|xs| - 1]];
      var r := Insert(Sort(init, key), xs[|xs| - 1], key);
      InsertSorted(Sort(init, key), xs[|xs| - 1], key);
      r
  }

  lemma {:induction false} WithKeyAppend<T>(a: seq<T>, b: seq<T>, key: T -> real, k: real)
    ensures WithKey(a + b, key, k) == WithKey(a, key, k) + WithKey(b, key, k)
  {
    if |a| == 0 {
      assert a + b == b;
    } else {
      assert (a + b)[0] == a[0];
      assert (a + b)[1..] == a[1..] + b;
      WithKeyAppend(a[1..], b, key, k);
    }
  }

  lemma WithKeyInsert<T>(s: seq<T>, x: T, key: T -> real, k: real)
    ensures WithKey(Insert(s, x, key), key, k) == WithKey(s, key, k) + WithKey([x], key, k)
  {
    var m := InsertPos(s, x, key);
    assert s == s[..m] + s[m..];
    WithKeyAppend(s[..m] + [x], s[m..], key, k);
    WithKeyAppend(s[..m], [x], key, k);
    WithKeyAppend(s[..m], s[m..], key, k);
    if key(x) == k {
      WithKeyAbove(s[m..], key, k);
    }
  }

  /** Stability: among elements with equal keys the input order survives. */
  lemma {:induction false} SortStable<T>(xs: seq<T>, key: T -> real, k: real)
    ensures WithKey(Sort(xs, key), key, k) == WithKey(xs, key, k)
  {
    if |xs| > 0 {
      var init := xs[..|xs| - 1];
      assert xs == init + [xs[|xs| - 1]];
      SortStable(init, key, k);
      WithKeyInsert(Sort(init, key), xs[|xs| - 1], key, k);
      WithKeyAppend(init, [xs[|xs| - 1]], key, k);
    }
  }

  /** A sorted sequence is determined by its per-key subsequences, so `Sort`
      is the one stable sort of its input. */
  lemma {:induction false} SortedUnique<T>(a: seq<T>, b: seq<T>, key: T -> real)
    requires Sorted(a, key) && Sorted(b, key)
    requires forall k :: WithKey(a, key, k) == WithKey(b, key, k)
    ensures a == b
    decreases |a|
  {
    if |a| == 0 || |b| == 0 {
      if |a| > 0 {
        WithKeyHead(a, key);
      } else if |b| > 0 {
        WithKeyHead(b, key);
      }
    } else {
      var m := key(a[0]);
      if key(b[0]) < m {
        WithKeyAbove(a, key, key(b[0]));
      } else if m < key(b[0]) {
        WithKeyAbove(b, key, m);
      } else {
        assert WithKey(a, key, m)[0] == a[0];
        assert WithKey(b, key, m)[0] == b[0];
        assert WithKey(a, key, m) == WithKey(b, key, m);
        assert a[0] == b[0];
        forall k ensures WithKey(a[1..], key, k) == WithKey(b[1..], key, k) {
          assert WithKey(a, key, k) == WithKey(b, key, k);
          assert WithKey(a, key, k) == (if m == k then [a[0]] else []) + WithKey(a[1..], key, k);
          assert WithKey(b, key, k) == (if m == k then [b[0]] else []) + WithKey(b[1..], key, k);
          var pre: seq<T> := if m == k then [a[0]] else [];
          assert WithKey(a[1..], key, k) == (pre + WithKey(a[1..], key, k))[|pre|..];
          assert WithKey(b[1..], key, k) == (pre + WithKey(b[1..], key, k))[|pre|..];
        }
        SortedUnique(a[1..], b[1..], key);
        assert a == [a[0]] + a[1..] && b == [b[0]] + b[1..];
      }
    }
  }

  lemma WithKeyHead<T>(xs: seq<T>, key: T -> real)
    requires |xs| > 0
    ensures WithKey(xs, key, key(xs[0])) != []
  {
  }

  lemma {:induction false} WithKeyAbove<T>(xs: seq<T>, key: T -> real, k: real)
    requires forall i :: 0 <= i < |xs| ==> k < key(xs[i])
    ensures WithKey(xs, key, k) == []
  {
    if |xs| > 0 {
      WithKeyAbove(xs[1..], key, k);
    }
  }

  /** `Sort` agrees with every other sort that is stable. */
  lemma SortIsTheStableSort<T>(xs: seq<T>, r: seq<T>, key: T -> real)
    requires Sorted(r, key)
    requires forall k :: WithKey(r, key, k) == WithKey(xs, key, k)
    ensures r == Sort(xs, key)
  {
    forall k ensures WithKey(Sort(xs, key), key, k) == WithKey(r, key, k) {
      SortStable(xs, key, k);
    }
    SortedUnique(Sort(xs, key), r, key);
  }
}
