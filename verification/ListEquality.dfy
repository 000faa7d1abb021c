/**
 Sort-then-compare equality: `PubKeys.Equals` and `Coins.EqualsEx`, which sort
 copies, and the two facts that decide what such a comparison means.
 */
module ListEquality {
  import opened Text
  import opened Assets
  import opened Coins
  import opened Sorting

  // -------------------------------------------------------------------- pub keys

  /** `PubKeys.Equals` is exactly equality as multisets. */
  method PubKeysEquals(p: seq<string>, newPks: seq<string>) returns (eq: bool)
    ensures eq <==> multiset(p) == multiset(newPks)
  {
    assert |multiset(p)| == |p| && |multiset(newPks)| == |newPks|;
    if |p| != |newPks| { return false; }
    var source := new string[|p|](i requires 0 <= i < |p| => p[i]);
    var dest := new string[|newPks|](i requires 0 <= i < |newPks| => newPks[i]);
    assert source[..] == p && dest[..] == newPks;
    SortByKey(source, Same);
    SortByKey(dest, Same);
    if multiset(p) == multiset(newPks) {
      SortedTextsUnique(source[..], dest[..]);
    }
    for i := 0 to source.Length
      invariant source[..i] == dest[..i]
    {
      if source[i] != dest[i] {
        assert source[..][i] != dest[..][i];
        return false;
      }
      assert source[..i + 1] == source[..i] + [source[i]] && dest[..i + 1] == dest[..i] + [dest[i]];
    }
    assert source[..] == source[..source.Length] && dest[..] == dest[..source.Length];
    return true;
  }

  // ----------------------------------------------------------------------- coins

  /** What the lists are sorted by. */
  function AssetText(c: Coin): string { String(c.asset) }

  /** The coins of a list that equal one coin. */
  function Copies(cs: seq<Coin>, c: Coin): nat { CountIf(cs, d => CoinEquals(d, c)) }

  /** The same coins in some order, up to `Coin.Equals`. */
  ghost predicate SameCoins(cs: seq<Coin>, ds: seq<Coin>) {
    forall c :: Copies(cs, c) == Copies(ds, c)
  }

  /** Coins that the sort cannot tell apart are equal. */
  predicate UniformTies(cs: seq<Coin>) {
    forall i, j :: 0 <= i < |cs| && 0 <= j < |cs| && AssetText(cs[i]) == AssetText(cs[j]) ==> CoinEquals(cs[i], cs[j])
  }

  predicate Pointwise(s: seq<Coin>, t: seq<Coin>) {
    |s| == |t| && forall i :: 0 <= i < |s| ==> CoinEquals(s[i], t[i])
  }

  /** A possible outcome of sorting the list. */
  ghost predicate Arrangement(s: seq<Coin>, cs: seq<Coin>) {
    Sorted(s, AssetText) && multiset(s) == multiset(cs)
  }

  lemma EqualCoinsSameText(c: Coin, d: Coin)
    requires CoinEquals(c, d)
    ensures AssetText(c) == AssetText(d)
  {
    UpperTwice(c.asset.chain);
    UpperTwice(d.asset.chain);
    UpperTwice(c.asset.symbol);
    UpperTwice(d.asset.symbol);
  }

  lemma CopiesArranged(s: seq<Coin>, cs: seq<Coin>, c: Coin)
    requires multiset(s) == multiset(cs)
    ensures Copies(s, c) == Copies(cs, c)
  {
    CountPermutation(s, cs, d => CoinEquals(d, c));
  }

  /** A comparison that succeeds has compared permutations of the same coins. */
  lemma PointwiseIsSame(cs: seq<Coin>, ds: seq<Coin>, s: seq<Coin>, t: seq<Coin>)
    requires multiset(s) == multiset(cs) && multiset(t) == multiset(ds) && Pointwise(s, t)
    ensures SameCoins(cs, ds)
  {
    forall c ensures Copies(cs, c) == Copies(ds, c) {
      CopiesArranged(s, cs, c);
      CopiesArranged(t, ds, c);
      CountPointwise(s, t, d => CoinEquals(d, c), d => CoinEquals(d, c));
    }
  }

  /** A coin of one list has an equal coin in the other. */
  lemma HasEqual(cs: seq<Coin>, ds: seq<Coin>, c: Coin) returns (d: Coin)
    requires c in cs && Copies(cs, c) == Copies(ds, c)
    ensures d in ds && CoinEquals(d, c)
  {
    var i :| 0 <= i < |cs| && cs[i] == c;
    CountPositive(cs, x => CoinEquals(x, c));
    CountPositive(ds, x => CoinEquals(x, c));
    var f := x => CoinEquals(x, c);
    assert f(cs[i]);
    var j :| 0 <= j < |ds| && f(ds[j]);
    d := ds[j];
  }

  function Texts(cs: seq<Coin>): (r: seq<string>)
    ensures |r| == |cs| && forall i :: 0 <= i < |cs| ==> r[i] == AssetText(cs[i])
  {
    seq(|cs|, i requires 0 <= i < |cs| => AssetText(cs[i]))
  }

  /** All coins of `cs` with the text of `c` equal `c`. */
  predicate OneKind(cs: seq<Coin>, c: Coin) {
    forall i :: 0 <= i < |cs| && AssetText(cs[i]) == AssetText(c) ==> CoinEquals(cs[i], c)
  }

  lemma TextCount(cs: seq<Coin>, c: Coin)
    requires OneKind(cs, c)
    ensures multiset(Texts(cs))[AssetText(c)] == Copies(cs, c)
  {
    var k := AssetText(c);
    var p := (y: string) => y == k;
    CountIsMultiplicity(Texts(cs), k, p);
    forall i | 0 <= i < |cs| ensures (Texts(cs)[i] == k) == CoinEquals(cs[i], c) {
      if CoinEquals(cs[i], c) { EqualCoinsSameText(cs[i], c); }
    }
    CountPointwise(Texts(cs), cs, p, d => CoinEquals(d, c));
  }

  lemma OneKindInBoth(cs: seq<Coin>, ds: seq<Coin>, c: Coin)
    requires UniformTies(cs) && SameCoins(cs, ds) && c in cs
    ensures OneKind(cs, c) && OneKind(ds, c)
  {
    forall i | 0 <= i < |ds| && AssetText(ds[i]) == AssetText(c)
      ensures CoinEquals(ds[i], c)
    {
      var e := HasEqual(ds, cs, ds[i]);
      EqualCoinsSameText(e, ds[i]);
    }
  }

  lemma SameTexts(cs: seq<Coin>, ds: seq<Coin>)
    requires UniformTies(cs) && SameCoins(cs, ds)
    ensures multiset(Texts(cs)) == multiset(Texts(ds))
  {
    forall k: string
      ensures multiset(Texts(cs))[k] == multiset(Texts(ds))[k]
    {
      if k in Texts(cs) {
        var i :| 0 <= i < |cs| && Texts(cs)[i] == k;
        SameTextCount(cs, ds, cs[i]);
      } else if k in Texts(ds) {
        var i :| 0 <= i < |ds| && Texts(ds)[i] == k;
        var c := HasEqual(ds, cs, ds[i]);
        EqualCoinsSameText(c, ds[i]);
        SameTextCount(cs, ds, c);
      }
    }
  }

  lemma SameTextCount(cs: seq<Coin>, ds: seq<Coin>, c: Coin)
    requires UniformTies(cs) && SameCoins(cs, ds) && c in cs
    ensures multiset(Texts(cs))[AssetText(c)] == multiset(Texts(ds))[AssetText(c)]
  {
    OneKindInBoth(cs, ds, c);
    TextCount(cs, c);
    TextCount(ds, c);
  }

  lemma TextCountArranged(s: seq<Coin>, cs: seq<Coin>, k: string)
    requires multiset(s) == multiset(cs)
    ensures multiset(Texts(s))[k] == multiset(Texts(cs))[k]
  {
    var p, q := (y: string) => y == k, (d: Coin) => AssetText(d) == k;
    CountIsMultiplicity(Texts(s), k, p);
    CountIsMultiplicity(Texts(cs), k, p);
    CountPointwise(Texts(s), s, p, q);
    CountPointwise(Texts(cs), cs, p, q);
    CountPermutation(s, cs, q);
  }

  lemma ArrangedTexts(s: seq<Coin>, cs: seq<Coin>)
    requires Arrangement(s, cs)
    ensures Sorted(Texts(s), Same)
    ensures multiset(Texts(s)) == multiset(Texts(cs))
  {
    forall k: string
      ensures multiset(Texts(s))[k] == multiset(Texts(cs))[k]
    {
      TextCountArranged(s, cs, k);
    }
    forall i, j | 0 <= i < j < |s|
      ensures !Less(Same(Texts(s)[j]), Same(Texts(s)[i]))
    {
      assert !Less(AssetText(s[j]), AssetText(s[i]));
    }
  }

  /** Whatever order the sort gives equal keys, permutations with uniform ties compare equal. */
  lemma SameIsPointwise(cs: seq<Coin>, ds: seq<Coin>, s: seq<Coin>, t: seq<Coin>)
    requires UniformTies(cs) && SameCoins(cs, ds) && Arrangement(s, cs) && Arrangement(t, ds)
    ensures Pointwise(s, t)
  {
    hide Texts, UniformTies, SameCoins, Arrangement;
    SameTexts(cs, ds);
    ArrangedTexts(s, cs);
    ArrangedTexts(t, ds);
    SortedTextsUnique(Texts(s), Texts(t));
    assert |s| == |Texts(s)| == |t|;
    forall i | 0 <= i < |s| ensures CoinEquals(s[i], t[i]) {
      assert Texts(s)[i] == Texts(t)[i];
      EqualAt(cs, ds, s, t, i);
    }
  }

  lemma EqualAt(cs: seq<Coin>, ds: seq<Coin>, s: seq<Coin>, t: seq<Coin>, i: nat)
    requires UniformTies(cs) && SameCoins(cs, ds) && Arrangement(s, cs) && Arrangement(t, ds)
    requires i < |s| && i < |t| && AssetText(s[i]) == AssetText(t[i])
    ensures CoinEquals(s[i], t[i])
  {
    assert s[i] in multiset(cs) && t[i] in multiset(ds);
    OneKindInBoth(cs, ds, s[i]);
    assert exists j :: 0 <= j < |ds| && ds[j] == t[i];
  }

  lemma SomeArrangement(cs: seq<Coin>)
    ensures Arrangement(InsertionSort(cs, AssetText), cs)
  {
    InsertionSortSorted(cs, AssetText);
  }

  /** Exchanging two elements with equal keys keeps an arrangement one. */
  lemma SwapTies(t: seq<Coin>, ds: seq<Coin>, u: nat, v: nat) returns (r: seq<Coin>)
    requires Arrangement(t, ds) && u < v < |t| && AssetText(t[u]) == AssetText(t[v])
    ensures Arrangement(r, ds) && |r| == |t| && r[u] == t[v] && r[v] == t[u]
  {
    hide AssetText, Less;
    r := t[u := t[v]][v := t[u]];
    assert multiset(r) == multiset(t);
    forall i, j | 0 <= i < j < |r|
      ensures !Less(AssetText(r[j]), AssetText(r[i]))
    {
      assert AssetText(r[i]) == AssetText(t[i]) && AssetText(r[j]) == AssetText(t[j]);
    }
  }

  /** An answer that some outcome of the two sorts leads to. */
  ghost predicate CanAnswer(cs: seq<Coin>, ds: seq<Coin>, eq: bool) {
    exists s, t :: Arrangement(s, cs) && Arrangement(t, ds) && (eq <==> Pointwise(s, t))
  }

  /** Every way the two sorts can come out makes the comparison succeed. */
  ghost predicate AlwaysEqual(cs: seq<Coin>, ds: seq<Coin>) { !CanAnswer(cs, ds, false) }

  /**
   The answer of a sort-then-compare on two lists is certain to be true exactly
   when they hold the same coins and no two unequal coins have the same asset text.
   With such a pair the answer for two permutations depends on the sort.
   */
  lemma AlwaysEqualIff(cs: seq<Coin>, ds: seq<Coin>)
    ensures AlwaysEqual(cs, ds) <==> SameCoins(cs, ds) && UniformTies(cs)
  {
    if SameCoins(cs, ds) && UniformTies(cs) {
      forall s, t | Arrangement(s, cs) && Arrangement(t, ds) ensures Pointwise(s, t) {
        SameIsPointwise(cs, ds, s, t);
      }
    }
    if AlwaysEqual(cs, ds) {
      var s, t := InsertionSort(cs, AssetText), InsertionSort(ds, AssetText);
      SomeArrangement(cs);
      SomeArrangement(ds);
      PointwiseIsSame(cs, ds, s, t);
      forall i, j | 0 <= i < |cs| && 0 <= j < |cs| && AssetText(cs[i]) == AssetText(cs[j])
        ensures CoinEquals(cs[i], cs[j])
      {
        if !CoinEquals(cs[i], cs[j]) {
          TieShows(cs, ds, s, t, cs[i], cs[j]);
        }
      }
    }
  }

  /** Two amounts of one asset in both orders: the answer is the sort's to choose. */
  lemma TwoAmounts(c: Coin, d: Coin)
    requires AssetText(c) == AssetText(d) && c.amount != d.amount
    ensures CanAnswer([c, d], [d, c], true) && CanAnswer([c, d], [d, c], false)
  {
    hide CanAnswer, AssetText;
    var cs, ds := [c, d], [d, c];
    assert multiset(cs) == multiset(ds);
    forall x ensures Copies(cs, x) == Copies(ds, x) { CopiesArranged(cs, ds, x); }
    CanBeEqualIff(cs, ds);
    AlwaysEqualIff(cs, ds);
    assert AssetText(cs[0]) == AssetText(cs[1]) && !CoinEquals(cs[0], cs[1]);
  }

  lemma InArrangement(s: seq<Coin>, cs: seq<Coin>, c: Coin)
    requires Arrangement(s, cs) && c in cs
    ensures c in s
  {
    assert c in multiset(s);
  }

  lemma NotEqualTo(c: Coin, d: Coin, e: Coin)
    requires !CoinEquals(c, d) && CoinEquals(d, e)
    ensures c != d && !CoinEquals(c, e)
  {}

  lemma TieShows(cs: seq<Coin>, ds: seq<Coin>, s: seq<Coin>, t: seq<Coin>, c: Coin, d: Coin)
    requires Arrangement(s, cs) && Arrangement(t, ds) && Pointwise(s, t)
    requires c in cs && d in cs && AssetText(c) == AssetText(d) && !CoinEquals(c, d)
    ensures !AlwaysEqual(cs, ds)
  {
    hide Arrangement, AssetText, CoinEquals;
    InArrangement(s, cs, c);
    InArrangement(s, cs, d);
    var u :| 0 <= u < |s| && s[u] == c;
    var v :| 0 <= v < |s| && s[v] == d;
    EqualCoinsSameText(s[u], t[u]);
    EqualCoinsSameText(s[v], t[v]);
    NotEqualTo(s[u], s[v], t[v]);
    var r: seq<Coin>;
    if u < v {
      r := SwapTies(t, ds, u, v);
    } else {
      r := SwapTies(t, ds, v, u);
    }
    assert Arrangement(s, cs) && Arrangement(r, ds) && !Pointwise(s, r);
  }

  /** One element matched by an equal one, whatever coin is counted. */
  lemma CopiesCons(c: Coin, cs: seq<Coin>, x: Coin)
    ensures Copies([c] + cs, x) == (if CoinEquals(c, x) then 1 else 0) + Copies(cs, x)
  {
    assert ([c] + cs)[1..] == cs;
  }

  /** A list with the same coins can be lined up with `s`. */
  lemma {:induction false} LineUp(s: seq<Coin>, ds: seq<Coin>) returns (t: seq<Coin>)
    requires SameCoins(s, ds)
    ensures multiset(t) == multiset(ds) && Pointwise(s, t) && |s| == |ds|
    decreases |s|
  {
    hide CoinEquals;
    if s == [] {
      if ds != [] {
        assert ds == [ds[0]] + ds[1..];
        CoinEqualsAlike(ds[0], ds[0], ds[0]);
        CopiesCons(ds[0], ds[1..], ds[0]);
      }
      t := [];
    } else {
      var c, rest := s[0], s[1..];
      assert s == [c] + rest;
      var d := HasEqual(s, ds, c);
      var j :| 0 <= j < |ds| && ds[j] == d;
      var ds' := ds[..j] + ds[j + 1..];
      assert ds == ds[..j] + ([d] + ds[j + 1..]);
      assert multiset(ds) == multiset([d] + ds');
      forall x ensures Copies(rest, x) == Copies(ds', x) {
        CopiesArranged(ds, [d] + ds', x);
        CopiesCons(c, rest, x);
        CopiesCons(d, ds', x);
        CoinEqualsAlike(d, c, x);
      }
      var t' := LineUp(rest, ds');
      t := [d] + t';
      assert multiset(t) == multiset{d} + multiset(t') == multiset(ds);
      LinedUpCons(c, d, rest, t');
    }
  }

  lemma LinedUpCons(c: Coin, d: Coin, s: seq<Coin>, t: seq<Coin>)
    requires CoinEquals(d, c) && Pointwise(s, t)
    ensures Pointwise([c] + s, [d] + t)
  {}

  lemma CoinEqualsAlike(d: Coin, c: Coin, x: Coin)
    ensures CoinEquals(c, c)
    ensures CoinEquals(d, c) ==> CoinEquals(c, d) && (CoinEquals(c, x) <==> CoinEquals(d, x))
  {}

  /** The answer can be true exactly for the same coins in some order. */
  lemma CanBeEqualIff(cs: seq<Coin>, ds: seq<Coin>)
    ensures CanAnswer(cs, ds, true) <==> SameCoins(cs, ds)
  {
    hide SameCoins, CoinEquals;
    if CanAnswer(cs, ds, true) {
      var s, t :| Arrangement(s, cs) && Arrangement(t, ds) && Pointwise(s, t);
      PointwiseIsSame(cs, ds, s, t);
    }
    if SameCoins(cs, ds) {
      SomeArrangement(cs);
      var s := InsertionSort(cs, AssetText);
      SameArranged(s, cs, ds);
      var t := LineUp(s, ds);
      LinedUpSorted(s, t);
      assert Arrangement(s, cs) && Arrangement(t, ds) && Pointwise(s, t);
    }
  }

  lemma SameArranged(s: seq<Coin>, cs: seq<Coin>, ds: seq<Coin>)
    requires SameCoins(cs, ds) && multiset(s) == multiset(cs)
    ensures SameCoins(s, ds)
  {
    forall c ensures Copies(s, c) == Copies(ds, c) { CopiesArranged(s, cs, c); }
  }

  lemma LinedUpSorted(s: seq<Coin>, t: seq<Coin>)
    requires Sorted(s, AssetText) && Pointwise(s, t)
    ensures Sorted(t, AssetText)
  {
    hide AssetText, Less, CoinEquals;
    forall i, j | 0 <= i < j < |t|
      ensures !Less(AssetText(t[j]), AssetText(t[i]))
    {
      EqualCoinsSameText(s[i], t[i]);
      EqualCoinsSameText(s[j], t[j]);
    }
  }

  // -------------------------------------------------- lists that sorting changes

  /** Coins with the same asset text are identical, decimals and spelling of the asset included. */
  predicate OneForm(cs: seq<Coin>) {
    forall i, j :: 0 <= i < |cs| && 0 <= j < |cs| && AssetText(cs[i]) == AssetText(cs[j]) ==> cs[i] == cs[j]
  }

  /** Sorted, with nothing to choose between. */
  ghost predicate Settled(cs: seq<Coin>) { Sorted(cs, AssetText) && OneForm(cs) }

  /** A settled list can be arranged in no other way. */
  lemma SettledStays(s: seq<Coin>, cs: seq<Coin>)
    requires Settled(cs) && Arrangement(s, cs)
    ensures s == cs
  {
    hide AssetText, OneForm;
    ArrangedTexts(s, cs);
    ArrangedTexts(cs, cs);
    SortedTextsUnique(Texts(s), Texts(cs));
    forall i | 0 <= i < |s| ensures s[i] == cs[i] {
      assert Texts(s)[i] == Texts(cs)[i];
      assert s[i] in multiset(cs);
      var j :| 0 <= j < |cs| && cs[j] == s[i];
      SameForm(cs, i, j);
    }
  }

  lemma SameForm(cs: seq<Coin>, i: nat, j: nat)
    requires OneForm(cs) && i < |cs| && j < |cs| && AssetText(cs[i]) == AssetText(cs[j])
    ensures cs[i] == cs[j]
  {}

  /** An arrangement that differs, unless the list is settled. */
  lemma Unsettle(cs: seq<Coin>) returns (s: seq<Coin>)
    ensures Arrangement(s, cs) && (s == cs ==> Settled(cs))
  {
    hide AssetText, Less, InsertionSort, Sorted;
    SomeArrangement(cs);
    s := InsertionSort(cs, AssetText);
    if s == cs && !OneForm(cs) {
      var i, j :| 0 <= i < |cs| && 0 <= j < |cs| && AssetText(cs[i]) == AssetText(cs[j]) && cs[i] != cs[j];
      if i < j { s := SwapTies(s, cs, i, j); } else { s := SwapTies(s, cs, j, i); }
    }
  }

  /**
   Sorting in place is certain to leave a list as it was exactly when it is sorted
   and its coins with equal text are identical; it is certain to change it exactly
   when it is not sorted.
   */
  lemma AlwaysLeftIff(cs: seq<Coin>)
    ensures (forall s :: Arrangement(s, cs) ==> s == cs) <==> Settled(cs)
    ensures (forall s :: Arrangement(s, cs) ==> s != cs) <==> !Sorted(cs, AssetText)
  {
    hide Settled, Sorted;
    if Settled(cs) {
      forall s | Arrangement(s, cs) ensures s == cs { SettledStays(s, cs); }
    }
    var s := Unsettle(cs);
    assert Arrangement(cs, cs) <==> Sorted(cs, AssetText);
  }

  /** Two asset texts are never the same: then ties are uniform. */
  predicate DistinctTexts(cs: seq<Coin>) {
    forall i, j :: 0 <= i < j < |cs| ==> AssetText(cs[i]) != AssetText(cs[j])
  }

  /** The loop after the two sorts. */
  method ComparePointwise(source: array<Coin>, dest: array<Coin>) returns (eq: bool)
    requires source.Length == dest.Length
    ensures eq <==> Pointwise(source[..], dest[..])
  {
    for i := 0 to source.Length
      invariant forall k :: 0 <= k < i ==> CoinEquals(source[k], dest[k])
    {
      if !CoinEquals(source[i], dest[i]) {
        assert !CoinEquals(source[..][i], dest[..][i]);
        return false;
      }
    }
    return true;
  }

  /** `Coins.EqualsEx` sorts copies: the lists themselves are values here. */
  method CoinsEqualsEx(cs: seq<Coin>, cs2: seq<Coin>) returns (eq: bool)
    ensures CanAnswer(cs, cs2, eq)
    ensures eq ==> SameCoins(cs, cs2)
    ensures SameCoins(cs, cs2) && UniformTies(cs) ==> eq
    ensures SameCoins(cs, cs2) && DistinctTexts(cs) ==> eq
  {
    hide SameCoins, UniformTies;
    if |cs| != |cs2| {
      DifferentLengths(cs, cs2);
      return false;
    }
    var source := new Coin[|cs|](i requires 0 <= i < |cs| => cs[i]);
    var dest := new Coin[|cs2|](i requires 0 <= i < |cs2| => cs2[i]);
    assert source[..] == cs && dest[..] == cs2;
    SortByKey(source, AssetText);
    SortByKey(dest, AssetText);
    eq := ComparePointwise(source, dest);
    Decide(cs, cs2, source[..], dest[..]);
  }

  lemma DistinctIsUniform(cs: seq<Coin>)
    requires DistinctTexts(cs)
    ensures UniformTies(cs)
  {}

  /** What the comparison of two arrangements says about the lists. */
  lemma Decide(cs: seq<Coin>, ds: seq<Coin>, s: seq<Coin>, t: seq<Coin>)
    requires Arrangement(s, cs) && Arrangement(t, ds)
    ensures Pointwise(s, t) ==> SameCoins(cs, ds)
    ensures SameCoins(cs, ds) && UniformTies(cs) ==> Pointwise(s, t)
    ensures DistinctTexts(cs) ==> UniformTies(cs)
  {
    hide UniformTies, SameCoins, DistinctTexts;
    if Pointwise(s, t) { PointwiseIsSame(cs, ds, s, t); }
    if SameCoins(cs, ds) && UniformTies(cs) { SameIsPointwise(cs, ds, s, t); }
    if DistinctTexts(cs) { DistinctIsUniform(cs); }
  }

  lemma DifferentLengths(cs: seq<Coin>, ds: seq<Coin>)
    requires |cs| != |ds|
    ensures CanAnswer(cs, ds, false) && !SameCoins(cs, ds)
  {
    hide SameCoins, CoinEquals, Sorted;
    SomeArrangement(cs);
    SomeArrangement(ds);
    var s, t := InsertionSort(cs, AssetText), InsertionSort(ds, AssetText);
    assert |multiset(s)| == |s| && |multiset(t)| == |t| && |multiset(cs)| == |cs| && |multiset(ds)| == |ds|;
    assert !Pointwise(s, t);
    if SameCoins(cs, ds) {
      var r := LineUp(cs, ds);
    }
  }
}
