/**
 A stable sort by a numeric key, the behaviour `Array.prototype.sort` has been
 required to have since the 2019 edition of ECMA-262 when it is given a
 comparator of the form `(a, b) => key(a) - key(b)`: the result is ascending by
 key and elements with equal keys keep their relative order.
 */
module StableSort {

  /** Non-decreasing by key, over every pair of positions. */
  ghost predicate SortedBy<T>(s: seq<T>, key: T -> real)
  {
    forall i, j :: 0 <= i < j < |s| ==> key(s[i]) <= key(s[j])
  }

  /** The elements of `s` whose key is `k`, in the order they appear in `s`. */
  function WithKey<T>(s: seq<T>, key: T -> real, k: real): seq<T>
  {
    if |s| == 0 then []
    else (if key(s[0]) == k then [s[0]] else []) + WithKey(s[1..], key, k)
  }

  /** Every element with a given key appears in the same order in `a` as in `b`. */
  ghost predicate StableWrt<T>(a: seq<T>, b: seq<T>, key: T -> real)
  {
    forall k :: WithKey(a, key, k) == WithKey(b, key, k)
  }

  /**
   Put `x` in front of the first element whose key is at least `key(x)`.
   Going in front of equal keys is what makes `SortBy` below stable: `x` comes
   from earlier in the input than everything already sorted.
   */
  function Insert<T>(x: T, s: seq<T>, key: T -> real): (r: seq<T>)
    ensures |r| == |s| + 1
    ensures |s| > 0 ==> r[0] == x || r[0] == s[0]
  {
    if |s| == 0 then [x]
    else if key(x) <= key(s[0]) then [x] + s
    else [s[0]] + Insert(x, s[1..], key)
  }

  /** Inserting into a sorted sequence keeps it sorted. */
  lemma {:induction false} InsertSorted<T>(x: T, s: seq<T>, key: T -> real)
    requires SortedBy(s, key)
    ensures SortedBy(Insert(x, s, key), key)
    decreases |s|
  {
    if |s| > 0 && key(x) > key(s[0]) {
      var rest := Insert(x, s[1..], key);
      InsertSorted(x, s[1..], key);
      assert key(s[0]) <= key(rest[0]);
      var r := [s[0]] + rest;
      assert Insert(x, s, key) == r;
      forall i, j | 0 <= i < j < |r|
        ensures key(r[i]) <= key(r[j])
      {
        if i > 0 {
          assert r[i] == rest[i - 1] && r[j] == rest[j - 1];
        } else {
          assert r[j] == rest[j - 1];
        }
      }
    }
  }

  /** Inserting adds exactly `x`. */
  lemma {:induction false} InsertPermutes<T>(x: T, s: seq<T>, key: T -> real)
    ensures multiset(Insert(x, s, key)) == multiset(s) + multiset{x}
    decreases |s|
  {
    if |s| > 0 && key(x) > key(s[0]) {
      InsertPermutes(x, s[1..], key);
      assert s == [s[0]] + s[1..];
    }
  }

  /** Insertion sort, ascending by key. */
  function SortBy<T>(s: seq<T>, key: T -> real): (r: seq<T>)
    ensures SortedBy(r, key)
    ensures multiset(r) == multiset(s)
    ensures |r| == |s|
  {
    if |s| == 0 then []
    else
      var rest := SortBy(s[1..], key);
      InsertSorted(s[0], rest, key);
      InsertPermutes(s[0], rest, key);
      assert s == [s[0]] + s[1..];
      Insert(s[0], rest, key)
  }

  lemma {:induction false} WithKeyAppend<T>(a: seq<T>, b: seq<T>, key: T -> real, k: real)
    ensures WithKey(a + b, key, k) == WithKey(a, key, k) + WithKey(b, key, k)
    decreases |a|
  {
    if |a| == 0 {
      assert a + b == b;
    } else {
      var h := if key(a[0]) == k then [a[0]] else [];
      var ab := a + b;
      assert ab[0] == a[0];
      assert ab[1..] == a[1..] + b;
      WithKeyAppend(a[1..], b, key, k);
      calc {
        WithKey(ab, key, k);
        h + WithKey(a[1..] + b, key, k);
        h + (WithKey(a[1..], key, k) + WithKey(b, key, k));
        (h + WithKey(a[1..], key, k)) + WithKey(b, key, k);
      }
    }
  }

  lemma {:induction false} WithKeyMember<T>(s: seq<T>, key: T -> real, k: real, x: T)
    requires x in WithKey(s, key, k)
    ensures x in s && key(x) == k
    decreases |s|
  {
    if |s| > 0 && x in WithKey(s[1..], key, k) {
      WithKeyMember(s[1..], key, k, x);
    }
  }

  /** Inserting `x` adds it in front of the elements that share its key and disturbs no other key. */
  lemma {:induction false} InsertWithKey<T>(x: T, s: seq<T>, key: T -> real, k: real)
    ensures WithKey(Insert(x, s, key), key, k)
            == (if key(x) == k then [x] else []) + WithKey(s, key, k)
    decreases |s|
  {
    var hx := if key(x) == k then [x] else [];
    if |s| == 0 {
      assert Insert(x, s, key) == [x];
    } else if key(x) <= key(s[0]) {
      var r := [x] + s;
      assert Insert(x, s, key) == r;
      assert r[0] == x && r[1..] == s;
    } else {
      var rest := Insert(x, s[1..], key);
      var r := [s[0]] + rest;
      var hs := if key(s[0]) == k then [s[0]] else [];
      assert Insert(x, s, key) == r;
      assert r[0] == s[0] && r[1..] == rest;
      InsertWithKey(x, s[1..], key, k);
      assert WithKey(r, key, k) == hs + WithKey(rest, key, k);
      assert WithKey(s, key, k) == hs + WithKey(s[1..], key, k);
      // s[0] sorts strictly before x, so at most one of them has key k
      if key(x) == k {
        assert hs == [];
      } else {
        assert hx == [];
      }
    }
  }

  /** The sort is stable: for every key, the elements with that key keep their input order. */
  lemma {:induction false} SortByStable<T>(s: seq<T>, key: T -> real)
    ensures StableWrt(SortBy(s, key), s, key)
    decreases |s|
  {
    forall k
      ensures WithKey(SortBy(s, key), key, k) == WithKey(s, key, k)
    {
      if |s| > 0 {
        SortByStable(s[1..], key);
        InsertWithKey(s[0], SortBy(s[1..], key), key, k);
      }
    }
  }

  /** The first element of a sorted sequence is the first of those sharing its key. */
  lemma WithKeyHead<T>(s: seq<T>, key: T -> real)
    requires |s| > 0
    ensures WithKey(s, key, key(s[0])) == [s[0]] + WithKey(s[1..], key, key(s[0]))
  {
  }

  /**
   A sorted, stable rearrangement is unique: two sequences that are both sorted
   by key and agree on the order within every key are equal.
   */
  lemma {:induction false} SortedStableUnique<T>(a: seq<T>, b: seq<T>, key: T -> real)
    requires SortedBy(a, key) && SortedBy(b, key)
    requires StableWrt(a, b, key)
    ensures a == b
    decreases |a|
  {
    if |a| == 0 || |b| == 0 {
      // the key of a head element would have a non-empty group on one side only
      if |a| > 0 {
        WithKeyHead(a, key);
        assert false;
      } else if |b| > 0 {
        WithKeyHead(b, key);
        assert false;
      }
    } else {
      var ka, kb := key(a[0]), key(b[0]);
      // a[0]'s key occurs in b, so b's least key is at most ka; and symmetrically.
      WithKeyHead(a, key);
      WithKeyHead(b, key);
      var y := WithKey(b, key, ka)[0];
      WithKeyMember(b, key, ka, y);
      var j :| 0 <= j < |b| && b[j] == y;
      assert kb <= ka;
      var z := WithKey(a, key, kb)[0];
      WithKeyMember(a, key, kb, z);
      var i :| 0 <= i < |a| && a[i] == z;
      assert ka <= kb;
      assert a[0] == b[0];
      forall k
        ensures WithKey(a[1..], key, k) == WithKey(b[1..], key, k)
      {
        var h := if ka == k then [a[0]] else [];
        assert WithKey(a, key, k) == h + WithKey(a[1..], key, k);
        assert WithKey(b, key, k) == h + WithKey(b[1..], key, k);
        assert WithKey(a[1..], key, k) == WithKey(a, key, k)[|h|..];
      }
      SortedStableUnique(a[1..], b[1..], key);
      assert a == [a[0]] + a[1..];
      assert b == [b[0]] + b[1..];
    }
  }

  /** Any sorted, stable rearrangement of `s` is exactly what `SortBy` returns. */
  lemma SortByIsTheStableSort<T>(s: seq<T>, r: seq<T>, key: T -> real)
    requires SortedBy(r, key)
    requires StableWrt(r, s, key)
    ensures r == SortBy(s, key)
  {
    SortByStable(s, key);
    SortedStableUnique(r, SortBy(s, key), key);
  }

}
