/** Python's `sorted(xs, key=..., reverse=True)` on string keys: a stable
    sort into descending key order. CPython's sort is stable also when
    `reverse=True`: elements whose keys are equal keep their input order. */
module Sorting {
  import opened Text

  /** Descending by key: every later element's key is at most every earlier one's. */
  ghost predicate SortedDesc<T>(s: seq<T>, key: T -> string)
  {
    forall i, j :: 0 <= i < j < |s| ==> LexLe(key(s[j]), key(s[i]))
  }

  /** The elements of `s` whose key is `k`, in their order in `s`. Two
      sequences that agree on this for every `k` list tied elements in the
      same relative order. */
  function WithKey<T>(s: seq<T>, key: T -> string, k: string): (r: seq<T>)
    ensures |r| <= |s|
    ensures forall i :: 0 <= i < |r| ==> key(r[i]) == k
  {
    if |s| == 0 then []
    else (if key(s[0]) == k then [s[0]] else []) + WithKey(s[1..], key, k)
  }

  lemma {:induction false} WithKeyAppend<T>(a: seq<T>, b: seq<T>, key: T -> string, k: string)
    ensures WithKey(a + b, key, k) == WithKey(a, key, k) + WithKey(b, key, k)
    decreases |a|
  {
    if |a| == 0 {
      assert a + b == b;
    } else {
      var head := if key(a[0]) == k then [a[0]] else [];
      assert (a + b)[0] == a[0];
      assert (a + b)[1..] == a[1..] + b;
      WithKeyAppend(a[1..], b, key, k);
      assert WithKey(a + b, key, k) == head + WithKey(a[1..] + b, key, k);
      assert WithKey(a, key, k) == head + WithKey(a[1..], key, k);
    }
  }

  lemma {:induction false} WithKeyMembers<T>(s: seq<T>, key: T -> string, k: string, x: T)
    ensures x in WithKey(s, key, k) <==> x in s && key(x) == k
    decreases |s|
  {
    if |s| > 0 {
      WithKeyMembers(s[1..], key, k, x);
      assert s == [s[0]] + s[1..];
    }
  }

  lemma NoneOfKey<T>(s: seq<T>, key: T -> string, k: string)
    requires forall x :: x in s ==> key(x) != k
    ensures WithKey(s, key, k) == []
  {
  }

  /** With pairwise different keys, at most one element has key `k`. */
  lemma {:induction false} WithKeyAtMostOne<T>(s: seq<T>, key: T -> string, k: string)
    requires forall i, j :: 0 <= i < j < |s| ==> key(s[i]) != key(s[j])
    ensures |WithKey(s, key, k)| <= 1
    decreases |s|
  {
    if |s| > 0 {
      var t := s[1..];
      assert forall i, j :: 0 <= i < j < |t| ==> t[i] == s[i + 1] && t[j] == s[j + 1];
      WithKeyAtMostOne(t, key, k);
      if key(s[0]) == k {
        forall x | x in t ensures key(x) != k {
          var m :| 0 <= m < |t| && t[m] == x;
          assert key(s[m + 1]) != key(s[0]);
        }
        NoneOfKey(t, key, k);
      }
    }
  }

  /** Places `x` after the leading elements whose key is at least `x`'s. */
  function InsertAfter<T>(x: T, r: seq<T>, key: T -> string): seq<T>
  {
    if |r| == 0 then [x]
    else if LexLe(key(x), key(r[0])) then [r[0]] + InsertAfter(x, r[1..], key)
    else [x] + r
  }

  /** The reference sort: insert the elements one by one, first to last. */
  function SortDesc<T>(s: seq<T>, key: T -> string): seq<T>
  {
    if |s| == 0 then [] else InsertAfter(s[|s| - 1], SortDesc(s[..|s| - 1], key), key)
  }

  lemma {:induction false} InsertAfterElements<T>(x: T, r: seq<T>, key: T -> string)
    ensures multiset(InsertAfter(x, r, key)) == multiset(r) + multiset{x}
    decreases |r|
  {
    if |r| > 0 && LexLe(key(x), key(r[0])) {
      InsertAfterElements(x, r[1..], key);
      assert r == [r[0]] + r[1..];
    }
  }

  lemma {:induction false} InsertAfterSorted<T>(x: T, r: seq<T>, key: T -> string)
    requires SortedDesc(r, key)
    ensures SortedDesc(InsertAfter(x, r, key), key)
    decreases |r|
  {
    var res := InsertAfter(x, r, key);
    if |r| == 0 {
    } else if LexLe(key(x), key(r[0])) {
      var tail := InsertAfter(x, r[1..], key);
      SortedTail(r, key);
      InsertAfterSorted(x, r[1..], key);
      InsertAfterElements(x, r[1..], key);
      forall j | 0 <= j < |tail| ensures LexLe(key(tail[j]), key(r[0])) {
        assert tail[j] in multiset(tail);
        if tail[j] != x {
          assert tail[j] in multiset(r[1..]);
          var m :| 0 <= m < |r[1..]| && r[1..][m] == tail[j];
          assert r[m + 1] == tail[j];
        }
      }
      assert res == [r[0]] + tail;
    } else {
      LexLeTotal(key(x), key(r[0]));
      forall i, j | 0 <= i < j < |res| ensures LexLe(key(res[j]), key(res[i])) {
        if i == 0 {
          assert res[j] == r[j - 1];
          if j > 1 {
            LexLeTrans(key(r[j - 1]), key(r[0]), key(x));
          }
        } else {
          assert res[i] == r[i - 1] && res[j] == r[j - 1];
        }
      }
    }
  }

  /** Inserting `x` into a sorted sequence appends it to the elements that
      share its key, so ties stay in insertion order. */
  lemma {:induction false} InsertAfterWithKey<T>(x: T, r: seq<T>, key: T -> string, k: string)
    requires SortedDesc(r, key)
    ensures WithKey(InsertAfter(x, r, key), key, k) == WithKey(r, key, k) + Own(x, key, k)
    decreases |r|
  {
    if |r| == 0 {
      assert WithKey([x], key, k) == Own(x, key, k) + WithKey([x][1..], key, k);
    } else if LexLe(key(x), key(r[0])) {
      SortedTail(r, key);
      InsertAfterWithKey(x, r[1..], key, k);
      WithKeyCons(r[0], r[1..], InsertAfter(x, r[1..], key), key, k, Own(x, key, k));
    } else {
      WithKeyAppend([x], r, key, k);
      assert WithKey([x], key, k) == Own(x, key, k) + WithKey([x][1..], key, k);
      if key(x) == k {
        NoneWithLargerKey(r, key, k);
      }
    }
  }

  /** `[x]` when `x` has key `k`, else empty. */
  function Own<T>(x: T, key: T -> string, k: string): seq<T>
  {
    if key(x) == k then [x] else []
  }

  lemma WithKeyCons<T>(y: T, t: seq<T>, u: seq<T>, key: T -> string, k: string, extra: seq<T>)
    requires WithKey(u, key, k) == WithKey(t, key, k) + extra
    ensures WithKey([y] + u, key, k) == WithKey([y] + t, key, k) + extra
  {
    WithKeyHead(y, u, key, k);
    WithKeyHead(y, t, key, k);
    ConcatAssoc(Own(y, key, k), WithKey(t, key, k), extra);
  }

  lemma ConcatAssoc<T>(a: seq<T>, b: seq<T>, c: seq<T>)
    ensures a + (b + c) == (a + b) + c
  {
  }

  lemma WithKeyHead<T>(y: T, u: seq<T>, key: T -> string, k: string)
    ensures WithKey([y] + u, key, k) == Own(y, key, k) + WithKey(u, key, k)
  {
    var s := [y] + u;
    assert s[0] == y && s[1..] == u;
  }

  lemma SortedTail<T>(r: seq<T>, key: T -> string)
    requires SortedDesc(r, key) && |r| > 0
    ensures SortedDesc(r[1..], key)
  {
    var t := r[1..];
    forall i, j | 0 <= i < j < |t| ensures LexLe(key(t[j]), key(t[i])) {
      assert t[i] == r[i + 1] && t[j] == r[j + 1];
    }
  }

  /** In a sorted sequence whose first key is below `k`, nothing has key `k`. */
  lemma {:induction false} NoneWithLargerKey<T>(r: seq<T>, key: T -> string, k: string)
    requires SortedDesc(r, key)
    requires |r| > 0 && !LexLe(k, key(r[0]))
    ensures WithKey(r, key, k) == []
  {
    var w := WithKey(r, key, k);
    if |w| > 0 {
      WithKeyMembers(r, key, k, w[0]);
      var m :| 0 <= m < |r| && r[m] == w[0];
      if m == 0 {
        LexLeRefl(k);
      }
    }
  }

  /** The reference sort is descending. */
  lemma {:induction false} SortDescSorted<T>(s: seq<T>, key: T -> string)
    ensures SortedDesc(SortDesc(s, key), key)
    decreases |s|
  {
    if |s| > 0 {
      SortDescSorted(s[..|s| - 1], key);
      InsertAfterSorted(s[|s| - 1], SortDesc(s[..|s| - 1], key), key);
    }
  }

  /** The reference sort is a permutation of its input. */
  lemma {:induction false} SortDescPermutation<T>(s: seq<T>, key: T -> string)
    ensures multiset(SortDesc(s, key)) == multiset(s)
    decreases |s|
  {
    if |s| > 0 {
      var n := |s| - 1;
      SortDescPermutation(s[..n], key);
      InsertAfterElements(s[n], SortDesc(s[..n], key), key);
      assert s == s[..n] + [s[n]];
    }
  }

  /** The reference sort is stable: the elements sharing a key come out in
      the order they went in. */
  lemma {:induction false} SortDescStable<T>(s: seq<T>, key: T -> string, k: string)
    ensures WithKey(SortDesc(s, key), key, k) == WithKey(s, key, k)
    decreases |s|
  {
    if |s| > 0 {
      var n := |s| - 1;
      SortDescStable(s[..n], key, k);
      SortDescSorted(s[..n], key);
      InsertAfterWithKey(s[n], SortDesc(s[..n], key), key, k);
      assert s == s[..n] + [s[n]];
      WithKeyAppend(s[..n], [s[n]], key, k);
    }
  }

  /** A descending, stable arrangement is unique: two sorted sequences that
      list the elements of every key in the same order are equal. */
  lemma {:induction false} SortedUnique<T>(a: seq<T>, b: seq<T>, key: T -> string)
    requires SortedDesc(a, key) && SortedDesc(b, key)
    requires forall k :: WithKey(a, key, k) == WithKey(b, key, k)
    ensures a == b
    decreases |a| + |b|
  {
    if |a| == 0 || |b| == 0 {
      if |a| + |b| > 0 {
        var s := if |a| > 0 then a else b;
        FirstHasOwnKey(s, key);
        assert false;
      }
    } else {
      var ka, kb := key(a[0]), key(b[0]);
      TopKeyBound(a, b, key);
      TopKeyBound(b, a, key);
      LexLeAntisym(ka, kb);
      assert WithKey(a, key, ka) == [a[0]] + WithKey(a[1..], key, ka);
      assert WithKey(b, key, ka) == [b[0]] + WithKey(b[1..], key, ka);
      assert WithKey(a, key, ka)[0] == a[0];
      assert a[0] == b[0];
      forall k ensures WithKey(a[1..], key, k) == WithKey(b[1..], key, k) {
        var head := if key(a[0]) == k then [a[0]] else [];
        assert WithKey(a, key, k) == head + WithKey(a[1..], key, k);
        assert WithKey(b, key, k) == head + WithKey(b[1..], key, k);
        assert WithKey(a, key, k) == WithKey(b, key, k);
        assert WithKey(a[1..], key, k) == (head + WithKey(a[1..], key, k))[|head|..];
        assert WithKey(b[1..], key, k) == (head + WithKey(b[1..], key, k))[|head|..];
      }
      SortedUnique(a[1..], b[1..], key);
      assert a == [a[0]] + a[1..];
      assert b == [b[0]] + b[1..];
    }
  }

  lemma FirstHasOwnKey<T>(s: seq<T>, key: T -> string)
    requires |s| > 0
    ensures WithKey(s, key, key(s[0])) != []
  {
  }

  /** The first key of `b` also occurs in `a`, so it is at most `a`'s first key. */
  lemma TopKeyBound<T>(a: seq<T>, b: seq<T>, key: T -> string)
    requires SortedDesc(a, key) && |a| > 0 && |b| > 0
    requires forall k :: WithKey(a, key, k) == WithKey(b, key, k)
    ensures LexLe(key(b[0]), key(a[0]))
  {
    var k := key(b[0]);
    var w := WithKey(a, key, k);
    assert WithKey(b, key, k) != [];
    WithKeyMembers(a, key, k, w[0]);
    var m :| 0 <= m < |a| && a[m] == w[0];
    if m == 0 {
      LexLeRefl(k);
    } else {
      assert LexLe(key(a[m]), key(a[0]));
    }
  }

  /** One step of the scan for the insertion point: `r[j]` stays in front of `x`. */
  lemma InsertAfterSkip<T>(x: T, r: seq<T>, j: nat, key: T -> string)
    requires j < |r| && LexLe(key(x), key(r[j]))
    ensures r[..j] + InsertAfter(x, r[j..], key) == r[..j + 1] + InsertAfter(x, r[j + 1..], key)
  {
    var rest := InsertAfter(x, r[j + 1..], key);
    assert r[j..][1..] == r[j + 1..];
    assert InsertAfter(x, r[j..], key) == [r[j]] + rest;
    assert r[..j] + [r[j]] == r[..j + 1];
    ConcatAssoc(r[..j], [r[j]], rest);
  }

  /** `sorted(s, key=key, reverse=True)`: a stable insertion sort that
      builds a new list and leaves `s` alone. */
  method SortedReverse<T>(s: seq<T>, key: T -> string) returns (r: seq<T>)
    ensures r == SortDesc(s, key)
  {
    r := [];
    var i := 0;
    while i < |s|
      invariant 0 <= i <= |s|
      invariant r == SortDesc(s[..i], key)
    {
      var x := s[i];
      var j := 0;
      while j < |r| && LexLe(key(x), key(r[j]))
        invariant 0 <= j <= |r|
        invariant InsertAfter(x, r, key) == r[..j] + InsertAfter(x, r[j..], key)
      {
        InsertAfterSkip(x, r, j, key);
        j := j + 1;
      }
      assert r[..j] + InsertAfter(x, r[j..], key) == r[..j] + [x] + r[j..];
      r := r[..j] + [x] + r[j..];
      assert s[..i + 1][..i] == s[..i];
      i := i + 1;
    }
    assert s[..i] == s;
  }
}
