/**
 Gas is a coin list that its methods change in place: `Equals` sorts both of its
 arguments, and `Adds_deprecated` adds into the receiver.
 */
module Gas {
  import opened Arithmetic
  import opened Assets
  import opened Coins
  import opened Sorting
  import opened ListEquality

  /**
   `Gas.Equals`. Unlike `Coins.EqualsEx` it sorts both arguments themselves when they
   have the same length: each is left as some arrangement of what it was. By
   `AlwaysLeftIff` that is certainly the same list exactly when it was settled, and
   certainly another one exactly when it was not sorted.
   */
  method GasEquals(g: array<Coin>, gas2: array<Coin>) returns (eq: bool)
    modifies g, gas2
    ensures g.Length != gas2.Length ==> !eq && g[..] == old(g[..]) && gas2[..] == old(gas2[..])
    ensures g.Length == gas2.Length ==> Arrangement(g[..], old(g[..])) && Arrangement(gas2[..], old(gas2[..]))
    ensures g.Length == gas2.Length ==> (eq <==> Pointwise(g[..], gas2[..]))
    ensures multiset(g[..]) == multiset(old(g[..])) && multiset(gas2[..]) == multiset(old(gas2[..]))
    ensures Settled(old(g[..])) ==> g[..] == old(g[..])
    ensures Settled(old(gas2[..])) ==> gas2[..] == old(gas2[..])
    ensures g.Length == gas2.Length && !Sorted(old(g[..]), AssetText) ==> g[..] != old(g[..])
    ensures g.Length == gas2.Length && !Sorted(old(gas2[..]), AssetText) ==> gas2[..] != old(gas2[..])
    ensures eq ==> SameCoins(old(g[..]), old(gas2[..]))
    ensures SameCoins(old(g[..]), old(gas2[..])) && UniformTies(old(g[..])) ==> eq
  {
    hide SameCoins, UniformTies, Settled, Pointwise;
    if g.Length != gas2.Length {
      DifferentLengths(g[..], gas2[..]);
      return false;
    }
    ghost var was, was2 := g[..], gas2[..];
    SortByKey(g, AssetText);
    SortByKey(gas2, AssetText);
    eq := ComparePointwise(g, gas2);
    Decide(was, was2, g[..], gas2[..]);
    if Settled(was) { SettledStays(g[..], was); }
    if Settled(was2) { SettledStays(gas2[..], was2); }
  }

  // ------------------------------------------------------------- Adds_deprecated

  /** Every entry of the asset grows, not only the first. */
  function Bump(cs: seq<Coin>, c: Coin): (r: seq<Coin>)
    ensures |r| == |cs|
    ensures forall i :: 0 <= i < |cs| ==>
      r[i] == if Equals(cs[i].asset, c.asset) then cs[i].(amount := cs[i].amount + c.amount) else cs[i]
  {
    seq(|cs|, i requires 0 <= i < |cs| =>
      if Equals(cs[i].asset, c.asset) then cs[i].(amount := cs[i].amount + c.amount) else cs[i])
  }

  function BumpAll(cs: seq<Coin>, adds: seq<Coin>): seq<Coin>
    decreases |adds|
  {
    if adds == [] then cs else BumpAll(Bump(cs, adds[0]), adds[1..])
  }

  predicate Has(cs: seq<Coin>, a: Asset) {
    exists i :: 0 <= i < |cs| && Equals(cs[i].asset, a)
  }

  /** The coins that found no entry to grow, not merged with each other. */
  function Unmatched(cs: seq<Coin>, adds: seq<Coin>): seq<Coin>
    decreases |adds|
  {
    if adds == [] then []
    else if Has(cs, adds[0].asset) then Unmatched(cs, adds[1..])
    else [adds[0]] + Unmatched(cs, adds[1..])
  }

  /** Coins that find no entry are kept as they are, in their order; the others leave nothing. */
  lemma {:induction false} UnmatchedConcat(cs: seq<Coin>, p: seq<Coin>, c: Coin, q: seq<Coin>)
    ensures Unmatched(cs, p + ([c] + q)) ==
            Unmatched(cs, p) + ((if Has(cs, c.asset) then [] else [c]) + Unmatched(cs, q))
    decreases |p|
  {
    hide Has;
    var rest := (if Has(cs, c.asset) then [] else [c]) + Unmatched(cs, q);
    if p == [] {
      assert p + ([c] + q) == [c] + q && ([c] + q)[1..] == q;
      assert [] + rest == rest;
    } else {
      assert (p + ([c] + q))[1..] == p[1..] + ([c] + q);
      UnmatchedConcat(cs, p[1..], c, q);
    }
  }

  /** The assets of a list decide what is unmatched. */
  lemma {:induction false} UnmatchedSame(cs: seq<Coin>, ds: seq<Coin>, adds: seq<Coin>)
    requires SameAssets(cs, ds)
    ensures Unmatched(cs, adds) == Unmatched(ds, adds)
    decreases |adds|
  {
    if adds != [] {
      assert Has(cs, adds[0].asset) <==> Has(ds, adds[0].asset) by {
        assert forall i :: 0 <= i < |cs| ==>
          (Equals(cs[i].asset, adds[0].asset) <==> Equals(ds[i].asset, adds[0].asset));
      }
      UnmatchedSame(cs, ds, adds[1..]);
    }
  }

  /** One turn of the outer loop. */
  method BumpInPlace(g: array<Coin>, c: Coin) returns (matched: bool)
    modifies g
    ensures g[..] == Bump(old(g[..]), c)
    ensures matched <==> Has(old(g[..]), c.asset)
  {
    ghost var was := g[..];
    matched := false;
    for i := 0 to g.Length
      invariant forall k :: 0 <= k < i ==> g[k] == Bump(was, c)[k]
      invariant forall k :: i <= k < g.Length ==> g[k] == was[k]
      invariant matched <==> exists k :: 0 <= k < i && Equals(was[k].asset, c.asset)
    {
      if Equals(g[i].asset, c.asset) {
        g[i] := g[i].(amount := g[i].amount + c.amount);
        matched := true;
      }
    }
  }

  /** A list added to itself: each coin is read after the ones before it have been added. */
  function BumpSelf(cs: seq<Coin>, i: nat): (r: seq<Coin>)
    requires i <= |cs|
    decreases |cs| - i
  {
    if i == |cs| then cs else BumpSelf(Bump(cs, cs[i]), i + 1)
  }

  /** The receiver is changed in place; the result also has the unmatched coins behind it. */
  method AddsDeprecated(g: array<Coin>, g2: array<Coin>) returns (r: seq<Coin>)
    modifies g
    ensures g != g2 ==> g[..] == BumpAll(old(g[..]), old(g2[..])) && r == g[..] + Unmatched(old(g[..]), old(g2[..]))
    ensures g == g2 ==> g[..] == BumpSelf(old(g[..]), 0) && r == g[..]
  {
    hide Bump, BumpAll, BumpSelf, Has, SameAssets, Unmatched;
    ghost var was, adds := g[..], g2[..];
    var newGasCoins: seq<Coin> := [];
    SameAsItself(was);
    assert adds[0..] == adds;
    for i := 0 to g2.Length
      invariant SameAssets(was, g[..])
      invariant g != g2 ==> g2[..] == adds && BumpAll(g[..], adds[i..]) == BumpAll(was, adds)
      invariant g != g2 ==> newGasCoins + Unmatched(was, adds[i..]) == Unmatched(was, adds)
      invariant g == g2 ==> newGasCoins == [] && BumpSelf(g[..], i) == BumpSelf(was, 0)
    {
      var gc2 := g2[i];
      ghost var now := g[..];
      ghost var done, rest := newGasCoins, Unmatched(was, adds[i + 1..]);
      BumpSameAssets(was, now, gc2);
      if g == g2 { SelfTurn(now, i); } else { OneTurn(was, now, adds, i); }
      var matched := BumpInPlace(g, gc2);
      if !matched {
        newGasCoins := newGasCoins + [gc2];
      }
      assert g != g2 ==> newGasCoins + rest == done + ((if matched then [] else [gc2]) + rest);
    }
    if g == g2 { SelfEnd(g[..]); } else { NoTurn(was, g[..], adds[g2.Length..]); }
    assert newGasCoins + [] == newGasCoins && g[..] + [] == g[..];
    return g[..] + newGasCoins;
  }

  lemma OneTurn(was: seq<Coin>, now: seq<Coin>, adds: seq<Coin>, i: nat)
    requires SameAssets(was, now) && i < |adds|
    ensures BumpAll(now, adds[i..]) == BumpAll(Bump(now, adds[i]), adds[i + 1..])
    ensures Unmatched(was, adds[i..]) ==
            (if Has(now, adds[i].asset) then [] else [adds[i]]) + Unmatched(was, adds[i + 1..])
  {
    hide Bump, Has, SameAssets;
    assert adds[i..][1..] == adds[i + 1..];
    UnmatchedSame(was, now, adds[i..]);
    UnmatchedSame(was, now, adds[i + 1..]);
  }

  lemma NoTurn(was: seq<Coin>, now: seq<Coin>, adds: seq<Coin>)
    requires adds == []
    ensures BumpAll(now, adds) == now && Unmatched(was, adds) == []
  {}

  lemma SelfTurn(now: seq<Coin>, i: nat)
    requires i < |now|
    ensures BumpSelf(now, i) == BumpSelf(Bump(now, now[i]), i + 1) && Has(now, now[i].asset)
  {
    assert Equals(now[i].asset, now[i].asset);
  }

  lemma SelfEnd(now: seq<Coin>)
    ensures BumpSelf(now, |now|) == now
  {}

  lemma SameAsItself(cs: seq<Coin>)
    ensures SameAssets(cs, cs)
  {}

  lemma BumpSameAssets(was: seq<Coin>, now: seq<Coin>, c: Coin)
    requires SameAssets(was, now)
    ensures SameAssets(was, Bump(now, c))
  {}

  /** The number of entries of an asset. */
  function Entries(cs: seq<Coin>, a: Asset): nat {
    if cs == [] then 0 else (if Equals(cs[0].asset, a) then 1 else 0) + Entries(cs[1..], a)
  }

  lemma {:induction false} BumpTotal(cs: seq<Coin>, c: Coin, a: Asset)
    ensures Total(Bump(cs, c), a) == Total(cs, a) + Entries(cs, a) * AmountIf(c, a)
    ensures Entries(Bump(cs, c), a) == Entries(cs, a)
  {
    if cs != [] {
      assert Bump(cs, c)[1..] == Bump(cs[1..], c);
      BumpTotal(cs[1..], c, a);
      OneMore(Entries(cs[1..], a), AmountIf(c, a));
    }
  }

  lemma OneMore(n: nat, x: nat)
    ensures (1 + n) * x == x + n * x
  {}

  lemma {:induction false} BumpAllTotal(cs: seq<Coin>, adds: seq<Coin>, a: Asset)
    ensures Total(BumpAll(cs, adds), a) == Total(cs, a) + Entries(cs, a) * Total(adds, a)
    decreases |adds|
  {
    hide Bump;
    if adds != [] {
      var n, x, y := Entries(cs, a), AmountIf(adds[0], a), Total(adds[1..], a);
      BumpTotal(cs, adds[0], a);
      BumpAllTotal(Bump(cs, adds[0]), adds[1..], a);
      Distribute(x, y, n);
    }
  }

  lemma {:induction false} EntriesIsHas(cs: seq<Coin>, a: Asset)
    ensures Entries(cs, a) > 0 <==> Has(cs, a)
  {
    if cs != [] {
      EntriesIsHas(cs[1..], a);
      if i :| 0 <= i < |cs| && Equals(cs[i].asset, a) {
        if i > 0 { assert Equals(cs[1..][i - 1].asset, a); }
      }
      if i :| 0 <= i < |cs| - 1 && Equals(cs[1..][i].asset, a) {
        assert Equals(cs[i + 1].asset, a);
      }
    }
  }

  lemma {:induction false} UnmatchedTotal(cs: seq<Coin>, adds: seq<Coin>, a: Asset)
    ensures Total(Unmatched(cs, adds), a) == if Has(cs, a) then 0 else Total(adds, a)
    decreases |adds|
  {
    if adds != [] {
      var c, rest := adds[0], Unmatched(cs, adds[1..]);
      UnmatchedTotal(cs, adds[1..], a);
      assert Equals(c.asset, a) ==> (Has(cs, c.asset) <==> Has(cs, a));
      assert ([c] + rest)[1..] == rest;
    }
  }

  lemma {:induction false} TotalConcat(cs: seq<Coin>, ds: seq<Coin>, a: Asset)
    ensures Total(cs + ds, a) == Total(cs, a) + Total(ds, a)
  {
    if cs == [] {
      assert cs + ds == ds;
    } else {
      assert (cs + ds)[1..] == cs[1..] + ds;
      TotalConcat(cs[1..], ds, a);
    }
  }

  /** The balances after `Adds_deprecated`, on any lists: an asset with several entries is added to each. */
  lemma AddsDeprecatedTotal(cs: seq<Coin>, adds: seq<Coin>, a: Asset)
    ensures Total(BumpAll(cs, adds) + Unmatched(cs, adds), a)
            == Total(cs, a) + (if Entries(cs, a) == 0 then 1 else Entries(cs, a)) * Total(adds, a)
  {
    TotalConcat(BumpAll(cs, adds), Unmatched(cs, adds), a);
    BumpAllTotal(cs, adds, a);
    UnmatchedTotal(cs, adds, a);
    EntriesIsHas(cs, a);
  }

  /** It agrees with `Gas.Add` on an asset exactly when the asset has at most one entry or nothing is added. */
  lemma AddsDeprecatedConservesIff(cs: seq<Coin>, adds: seq<Coin>, a: Asset)
    ensures Total(BumpAll(cs, adds) + Unmatched(cs, adds), a) == Total(AddAll(cs, adds), a)
            <==> Entries(cs, a) <= 1 || Total(adds, a) == 0
  {
    hide BumpAll, Unmatched, AddAll, Total, Entries;
    AddsDeprecatedTotal(cs, adds, a);
    AddConserves(cs, adds, a);
    Multiple(Entries(cs, a), Total(adds, a));
  }

  lemma {:induction false} SelfTotal(cs: seq<Coin>, i: nat, a: Asset)
    requires i <= |cs|
    ensures Total(BumpSelf(cs, i), a) >= Total(cs, a) + Entries(cs, a) * Total(cs[i..], a)
    ensures Entries(cs, a) <= 1 ==> Total(BumpSelf(cs, i), a) == Total(cs, a) + Entries(cs, a) * Total(cs[i..], a)
    ensures Total(cs, a) == 0 ==> Total(BumpSelf(cs, i), a) == 0
    decreases |cs| - i
  {
    hide Bump, Total, Entries, AmountIf;
    if i < |cs| {
      var c, n, rest := cs[i], Entries(cs, a), cs[i + 1..];
      var cs' := Bump(cs, c);
      assert cs'[i + 1..] == Bump(rest, c) by { BumpAfter(cs, c, i + 1); }
      BumpTotal(cs, c, a);
      BumpTotal(rest, c, a);
      SelfTotal(cs', i + 1, a);
      EntryAt(cs, i, a);
      TotalFrom(cs, i, a);
      MulMono(Total(rest, a), Total(cs'[i + 1..], a), n);
      Distribute(AmountIf(c, a), Total(rest, a), n);
    } else {
      assert cs[i..] == [] && Total([], a) == 0 by { NoTotal(a); }
    }
  }

  lemma NoTotal(a: Asset)
    ensures Total([], a) == 0
  {}

  lemma {:induction false} TotalFrom(cs: seq<Coin>, i: nat, a: Asset)
    requires i < |cs|
    ensures Total(cs[i..], a) == AmountIf(cs[i], a) + Total(cs[i + 1..], a) <= Total(cs, a)
  {
    assert cs[i..][1..] == cs[i + 1..];
    if i > 0 {
      TotalFrom(cs[1..], i - 1, a);
      assert cs[1..][i - 1..] == cs[i..] && cs[1..][i..] == cs[i + 1..];
    }
  }

  lemma BumpAfter(cs: seq<Coin>, c: Coin, k: nat)
    requires k <= |cs|
    ensures Bump(cs, c)[k..] == Bump(cs[k..], c)
  {}

  lemma {:induction false} OnlyEntry(cs: seq<Coin>, i: nat, a: Asset)
    requires i < |cs|
    ensures Entries(cs[i + 1..], a) + (if Equals(cs[i].asset, a) then 1 else 0) <= Entries(cs, a)
  {
    if i > 0 {
      OnlyEntry(cs[1..], i - 1, a);
      assert cs[1..][i..] == cs[i + 1..];
    }
  }

  /** When an asset has one entry there is none behind it. */
  lemma EntryAt(cs: seq<Coin>, i: nat, a: Asset)
    requires i < |cs|
    ensures Entries(cs, a) <= 1 ==> Entries(cs[i + 1..], a) * AmountIf(cs[i], a) == 0
  {
    hide Equals;
    OnlyEntry(cs, i, a);
  }

  /**
   A list added to itself doubles the balance of an asset exactly when the asset has
   at most one entry or no balance.
   */
  lemma SelfDoublesIff(cs: seq<Coin>, a: Asset)
    ensures Total(BumpSelf(cs, 0), a) == 2 * Total(cs, a) <==> Entries(cs, a) <= 1 || Total(cs, a) == 0
  {
    hide BumpSelf, Total, Entries;
    assert cs[0..] == cs;
    SelfTotal(cs, 0, a);
    NoEntries(cs, a);
    if Entries(cs, a) >= 2 { MulMono(2, Entries(cs, a), Total(cs, a)); }
  }

  lemma {:induction false} NoEntries(cs: seq<Coin>, a: Asset)
    ensures Entries(cs, a) == 0 ==> Total(cs, a) == 0
  {
    if cs != [] { NoEntries(cs[1..], a); }
  }

  /** One coin added to a list with two entries of its asset counts twice. */
  lemma AddedTwice(a: Asset)
    ensures var c := Coin(a, 1, 0); Total(BumpAll([c, c], [c]) + Unmatched([c, c], [c]), a) == 4
    ensures var c := Coin(a, 1, 0); Total(AddAll([c, c], [c]), a) == 3
  {
    var c := Coin(a, 1, 0);
    AddsDeprecatedTotal([c, c], [c], a);
    AddConserves([c, c], [c], a);
    assert [c, c][1..] == [c] && Total([c], a) == 1 && Entries([c], a) == 1;
  }

  /** Two entries of one unit each, added to themselves, come to eight units instead of four. */
  lemma AddedToItself(a: Asset)
    ensures var c := Coin(a, 1, 0); Total(BumpSelf([c, c], 0), a) == 8
  {
    var c, d, e := Coin(a, 1, 0), Coin(a, 2, 0), Coin(a, 4, 0);
    assert Equals(a, a);
    assert Bump([c, c], c) == [d, d] && Bump([d, d], d) == [e, e];
    SelfTurn([c, c], 0);
    SelfTurn([d, d], 1);
    SelfEnd([e, e]);
    assert [e, e][1..] == [e] && Total([e], a) == 4;
  }

  lemma Multiple(n: nat, x: nat)
    ensures n >= 2 ==> (n * x == x <==> x == 0)
  {
    if n >= 2 && x > 0 {
      assert (n - 1) * x > 0;
    }
  }
}
