/**
 Sorting by a text key. `sort.Slice` promises only that the result is sorted and
 holds the same elements: elements with equal keys may come out in any order, and
 everything built on `SortByKey` is proved from that promise alone.
 */
module Sorting {

  /** Go's `<` on strings. */
  predicate Less(s: string, t: string) {
    t != "" && (s == "" || s[0] < t[0] || (s[0] == t[0] && Less(s[1..], t[1..])))
  }

  lemma {:induction false} LessTotal(s: string, t: string)
    ensures s == t || Less(s, t) || Less(t, s)
    ensures !(Less(s, t) && Less(t, s)) && !Less(s, s)
  {
    if s != "" && t != "" {
      LessTotal(s[1..], t[1..]);
      LessTotal(s[1..], s[1..]);
      if s[0] == t[0] && s[1..] == t[1..] {
        assert s == [s[0]] + s[1..] && t == [t[0]] + t[1..];
      }
    } else if s != "" {
      LessTotal(s[1..], s[1..]);
    }
  }

  /** At the first difference, or where one text ends, `s` comes first. */
  ghost predicate Precedes(s: string, t: string, k: nat) {
    k <= |s| && k < |t| && s[..k] == t[..k] && (k == |s| || s[k] < t[k])
  }

  lemma {:induction false} LessIsLexicographic(s: string, t: string)
    ensures Less(s, t) <==> exists k: nat :: Precedes(s, t, k)
  {
    if s != "" && t != "" && s[0] == t[0] {
      LessIsLexicographic(s[1..], t[1..]);
      if Less(s, t) {
        var k: nat :| Precedes(s[1..], t[1..], k);
        assert s[..k + 1] == [s[0]] + s[1..][..k] && t[..k + 1] == [t[0]] + t[1..][..k];
        assert Precedes(s, t, k + 1);
      }
      if k: nat :| Precedes(s, t, k) {
        assert k > 0;
        assert s[1..][..k - 1] == s[..k][1..] && t[1..][..k - 1] == t[..k][1..];
        assert Precedes(s[1..], t[1..], k - 1);
      }
    } else {
      if Less(s, t) { assert Precedes(s, t, 0); }
      if k: nat :| Precedes(s, t, k) {
        if k > 0 { assert s[..k][0] == t[..k][0]; }
      }
    }
  }

  lemma {:induction false} LessTransitive(s: string, t: string, u: string)
    requires !Less(t, s) && !Less(u, t)
    ensures !Less(u, s)
  {
    if s != "" && t != "" && u != "" && s[0] == t[0] == u[0] {
      LessTransitive(s[1..], t[1..], u[1..]);
    }
  }

  /** No element has a smaller key than one before it. */
  ghost predicate Sorted<T>(xs: seq<T>, key: T -> string) {
    forall i, j :: 0 <= i < j < |xs| ==> !Less(key(xs[j]), key(xs[i]))
  }

  function Insert<T>(x: T, xs: seq<T>, key: T -> string): (r: seq<T>)
    ensures multiset(r) == multiset([x] + xs)
  {
    if xs == [] then [x]
    else if !Less(key(xs[0]), key(x)) then [x] + xs
    else
      assert xs == [xs[0]] + xs[1..];
      [xs[0]] + Insert(x, xs[1..], key)
  }

  function InsertionSort<T>(xs: seq<T>, key: T -> string): (r: seq<T>)
    ensures multiset(r) == multiset(xs)
  {
    if xs == [] then []
    else
      assert xs == [xs[0]] + xs[1..];
      Insert(xs[0], InsertionSort(xs[1..], key), key)
  }

  lemma SortedCons<T>(x: T, xs: seq<T>, key: T -> string)
    requires Sorted(xs, key) && (xs != [] ==> !Less(key(xs[0]), key(x)))
    ensures Sorted([x] + xs, key)
  {
    forall i, j | 0 <= i < j < |xs| + 1
      ensures !Less(key(([x] + xs)[j]), key(([x] + xs)[i]))
    {
      if i == 0 && j > 1 {
        LessTransitive(key(x), key(xs[0]), key(xs[j - 1]));
      }
    }
  }

  lemma {:induction false} InsertSorted<T>(x: T, xs: seq<T>, key: T -> string)
    requires Sorted(xs, key)
    ensures Sorted(Insert(x, xs, key), key)
    ensures xs != [] && Less(key(xs[0]), key(x)) ==> Insert(x, xs, key) != [] && Insert(x, xs, key)[0] == xs[0]
  {
    if xs != [] && Less(key(xs[0]), key(x)) {
      InsertSorted(x, xs[1..], key);
      var r := Insert(x, xs[1..], key);
      LessTotal(key(xs[0]), key(x));
      SortedCons(xs[0], r, key);
    } else {
      SortedCons(x, xs, key);
    }
  }

  lemma {:induction false} InsertionSortSorted<T>(xs: seq<T>, key: T -> string)
    ensures Sorted(InsertionSort(xs, key), key)
  {
    if xs != [] {
      InsertionSortSorted(xs[1..], key);
      InsertSorted(xs[0], InsertionSort(xs[1..], key), key);
    }
  }

  /** Stands for `sort.Slice` with a comparison of keys. */
  method SortByKey<T>(a: array<T>, key: T -> string)
    modifies a
    ensures Sorted(a[..], key) && multiset(a[..]) == multiset(old(a[..]))
  {
    var r := InsertionSort(a[..], key);
    InsertionSortSorted(a[..], key);
    assert |multiset(r)| == |multiset(a[..])|;
    forall i | 0 <= i < a.Length {
      a[i] := r[i];
    }
    assert a[..] == r;
  }

  /** Taking one element out of both sides. */
  lemma SameRest<T>(x: T, xs: seq<T>, ys: seq<T>)
    requires multiset([x] + xs) == multiset([x] + ys)
    ensures multiset(xs) == multiset(ys)
  {
    assert multiset([x] + xs) == multiset{x} + multiset(xs);
    assert multiset([x] + ys) == multiset{x} + multiset(ys);
    assert multiset(xs) == multiset([x] + xs) - multiset{x};
  }

  // -------------------------------------------------------------- sorted texts

  function Same(s: string): string { s }

  /** There is only one way to sort texts. */
  lemma {:induction false} SortedTextsUnique(xs: seq<string>, ys: seq<string>)
    requires Sorted(xs, Same) && Sorted(ys, Same) && multiset(xs) == multiset(ys)
    ensures xs == ys
  {
    assert |multiset(xs)| == |xs| && |multiset(ys)| == |ys|;
    if xs != [] {
      var x, y := xs[0], ys[0];
      assert x in multiset(xs) && y in multiset(ys);
      var i :| 0 <= i < |ys| && ys[i] == x;
      var j :| 0 <= j < |xs| && xs[j] == y;
      LessTotal(x, y);
      assert Same(x) == x && Same(y) == y;
      assert x == y;
      assert xs == [x] + xs[1..] && ys == [x] + ys[1..];
      SameRest(x, xs[1..], ys[1..]);
      SortedTextsUnique(xs[1..], ys[1..]);
    }
  }

  // -------------------------------------------------------------------- counting

  function CountIf<T>(xs: seq<T>, p: T -> bool): nat {
    if xs == [] then 0 else (if p(xs[0]) then 1 else 0) + CountIf(xs[1..], p)
  }

  lemma {:induction false} CountConcat<T>(xs: seq<T>, ys: seq<T>, p: T -> bool)
    ensures CountIf(xs + ys, p) == CountIf(xs, p) + CountIf(ys, p)
  {
    if xs == [] {
      assert xs + ys == ys;
    } else {
      assert (xs + ys)[1..] == xs[1..] + ys;
      CountConcat(xs[1..], ys, p);
    }
  }

  /** Counting does not see the order. */
  lemma {:induction false} CountPermutation<T>(xs: seq<T>, ys: seq<T>, p: T -> bool)
    requires multiset(xs) == multiset(ys)
    ensures CountIf(xs, p) == CountIf(ys, p)
  {
    assert |multiset(xs)| == |xs| && |multiset(ys)| == |ys|;
    if xs != [] {
      var x := xs[0];
      assert x in multiset(ys);
      var i :| 0 <= i < |ys| && ys[i] == x;
      var rest := ys[..i] + ys[i + 1..];
      assert xs == [x] + xs[1..];
      assert ys == ys[..i] + ([x] + ys[i + 1..]);
      assert multiset(ys) == multiset([x] + rest);
      SameRest(x, xs[1..], rest);
      CountPermutation(xs[1..], rest, p);
      CountConcat(ys[..i], [x] + ys[i + 1..], p);
      CountConcat([x], ys[i + 1..], p);
      CountConcat(ys[..i], ys[i + 1..], p);
    }
  }

  lemma {:induction false} CountPositive<T>(xs: seq<T>, p: T -> bool)
    ensures CountIf(xs, p) > 0 <==> exists i :: 0 <= i < |xs| && p(xs[i])
  {
    if xs != [] {
      CountPositive(xs[1..], p);
      if i :| 0 <= i < |xs| && p(xs[i]) {
        if i > 0 { assert p(xs[1..][i - 1]); }
      }
      if i :| 0 <= i < |xs| - 1 && p(xs[1..][i]) {
        assert p(xs[i + 1]);
      }
    }
  }

  lemma {:induction false} CountPointwise<T, U>(xs: seq<T>, ys: seq<U>, p: T -> bool, q: U -> bool)
    requires |xs| == |ys| && forall i :: 0 <= i < |xs| ==> p(xs[i]) == q(ys[i])
    ensures CountIf(xs, p) == CountIf(ys, q)
  {
    if xs != [] {
      CountPointwise(xs[1..], ys[1..], p, q);
    }
  }

  lemma {:induction false} CountIsMultiplicity<T>(xs: seq<T>, x: T, p: T -> bool)
    requires forall i :: 0 <= i < |xs| ==> (p(xs[i]) <==> xs[i] == x)
    ensures CountIf(xs, p) == multiset(xs)[x]
  {
    if xs != [] {
      CountIsMultiplicity(xs[1..], x, p);
      assert xs == [xs[0]] + xs[1..];
    }
  }
}
