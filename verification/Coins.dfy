/**
 Coins and coin lists: text, merging lists with `Add`, and taking amounts out
 with `SafeSub`. Amounts are naturals. A list may hold an asset more than once;
 both operations then touch only its first entry.
 */
module Coins {
  import opened Machine
  import opened Text
  import opened DecimalText
  import opened Assets

  datatype Coin = Coin(asset: Asset, amount: nat, decimals: int)

  predicate CoinEquals(c: Coin, d: Coin) {
    Equals(c.asset, d.asset) && c.amount == d.amount
  }

  /** The asset up to case and the amount; the decimals do not count. */
  lemma CoinEqualsIsFieldwise(c: Coin, d: Coin)
    ensures CoinEquals(c, d) <==>
            && c.amount == d.amount
            && EqualFold(c.asset.chain, d.asset.chain) && EqualFold(c.asset.symbol, d.asset.symbol)
            && EqualFold(c.asset.ticker, d.asset.ticker)
            && (c.asset.synth <==> d.asset.synth) && (c.asset.trade <==> d.asset.trade)
            && (c.asset.secured <==> d.asset.secured)
  {
    EqualsIsFieldwise(c.asset, d.asset);
    hide Equals, EqualFold;
  }

  // ----------------------------------------------------------------------- text

  predicate IsSpace(c: char) { c == ' ' }

  function CoinString(c: Coin): string {
    Decimal(c.amount) + [' '] + String(c.asset)
  }

  /** `parseUint` is the foreign `cosmos.ParseUint`. */
  function ParseCoin(parseUint: string -> Option<nat>, s: string): Option<Coin> {
    var k := Find(s, IsSpace);
    if k == |s| || ' ' in s[k + 1..] then None
    else
      match parseUint(s[..k])
      case None => None
      case Some(amount) =>
        match NewAsset(s[k + 1..])
        case None => None
        case Some(asset) => Some(Coin(asset, amount, 0))
  }

  lemma NoSpaceInAsset(a: Asset)
    requires Canonical(a)
    ensures ' ' !in String(a)
  {
    ValidChainUpper(a.chain);
    forall i | 0 <= i < |String(a)| ensures String(a)[i] != ' ' {
      if i > |a.chain| {
        assert String(a)[i] == Upper(a.symbol)[i - |a.chain| - 1];
      }
    }
  }

  /** A coin's text parses to an equal coin, given a parser that reads back this one amount. */
  lemma CoinTextRoundTrip(parseUint: string -> Option<nat>, c: Coin)
    requires Canonical(c.asset) && parseUint(Decimal(c.amount)) == Some(c.amount)
    ensures ParseCoin(parseUint, CoinString(c)).Some?
    ensures CoinEquals(ParseCoin(parseUint, CoinString(c)).value, c)
    ensures ParseCoin(parseUint, CoinString(c)).value == c.(decimals := 0)
  {
    var s, k := CoinString(c), |Decimal(c.amount)|;
    StringParsesBack(c.asset);
    NoSpaceInAsset(c.asset);
    hide Decimal, NewAsset, String, Canonical;
    assert s[..k] == Decimal(c.amount) && s[k + 1..] == String(c.asset);
    FindAt(s, IsSpace, k);
  }

  /** A plain decimal parser is such a parser for every amount. */
  lemma DecimalCoinTextRoundTrip(c: Coin)
    requires Canonical(c.asset)
    ensures ParseCoin(ParseDecimal, CoinString(c)).Some?
    ensures CoinEquals(ParseCoin(ParseDecimal, CoinString(c)).value, c)
    ensures ParseCoin(ParseDecimal, CoinString(c)).value == c.(decimals := 0)
  {
    hide ParseCoin, CoinString, CoinEquals, Canonical;
    ValueOfDecimal(c.amount);
    CoinTextRoundTrip(ParseDecimal, c);
  }

  /** Exactly which texts are accepted: one space, with a number before it and an asset behind it. */
  lemma ParseCoinIff(parseUint: string -> Option<nat>, s: string, c: Coin)
    ensures ParseCoin(parseUint, s) == Some(c) <==>
            exists x, y :: && s == x + " " + y && ' ' !in x && ' ' !in y
                           && parseUint(x) == Some(c.amount) && NewAsset(y) == Some(c.asset) && c.decimals == 0
  {
    hide NewAsset;
    var k := Find(s, IsSpace);
    if k < |s| { assert s == s[..k] + " " + s[k + 1..]; }
    forall x, y | s == x + " " + y && ' ' !in x ensures k == |x| < |s| && x == s[..k] && y == s[k + 1..] {
      assert s[|x|] == ' ' && forall i :: 0 <= i < |x| ==> s[i] == x[i];
      FindAt(s, IsSpace, |x|);
    }
  }

  /** The text of a coin is its amount, one space and the text of its asset. */
  lemma CoinStringParts(c: Coin)
    requires Canonical(c.asset)
    ensures exists k :: && 0 <= k < |CoinString(c)| && AllDigits(CoinString(c)[..k]) && CoinString(c)[k] == ' '
                        && Value(CoinString(c)[..k]) == c.amount && CoinString(c)[k + 1..] == String(c.asset)
                        && (k > 1 ==> CoinString(c)[0] != '0')
  {
    var s, k := CoinString(c), |Decimal(c.amount)|;
    hide Value, String;
    assert s[..k] == Decimal(c.amount) && s[k + 1..] == String(c.asset) && s[k] == ' ';
    ValueOfDecimal(c.amount);
    NoLeadingZero(c.amount);
  }

  // ---------------------------------------------------------------------- lists

  /** `SafeSub` of two amounts: never below zero. */
  function SafeSubAmount(x: nat, y: nat): nat {
    if y > x then 0 else x - y
  }

  /** The index of the first coin of an asset, or the length. */
  function First(cs: seq<Coin>, a: Asset): (k: nat)
    ensures k <= |cs|
    ensures forall i :: 0 <= i < k ==> !Equals(cs[i].asset, a)
    ensures k < |cs| ==> Equals(cs[k].asset, a)
  {
    if cs == [] || Equals(cs[0].asset, a) then 0 else 1 + First(cs[1..], a)
  }

  function AddOne(cs: seq<Coin>, c: Coin): seq<Coin> {
    var j := First(cs, c.asset);
    if j == |cs| then cs + [c] else cs[j := cs[j].(amount := cs[j].amount + c.amount)]
  }

  function AddAll(cs: seq<Coin>, adds: seq<Coin>): seq<Coin>
    decreases |adds|
  {
    if adds == [] then cs else AddAll(AddOne(cs, adds[0]), adds[1..])
  }

  function SubOne(cs: seq<Coin>, c: Coin): seq<Coin> {
    var j := First(cs, c.asset);
    if j == |cs| then cs else cs[j := cs[j].(amount := SafeSubAmount(cs[j].amount, c.amount))]
  }

  function SubAll(cs: seq<Coin>, subs: seq<Coin>): seq<Coin>
    decreases |subs|
  {
    if subs == [] then cs else SubAll(SubOne(cs, subs[0]), subs[1..])
  }

  /** `Coins.Add` */
  method Add(oldCoins: seq<Coin>, addCoins: seq<Coin>) returns (newCoins: seq<Coin>)
    ensures newCoins == AddAll(oldCoins, addCoins)
  {
    hide Equals, First;
    newCoins := oldCoins;
    assert addCoins[0..] == addCoins;
    for i := 0 to |addCoins|
      invariant AddAll(newCoins, addCoins[i..]) == AddAll(oldCoins, addCoins)
    {
      var c := addCoins[i];
      ghost var before := newCoins;
      assert addCoins[i..][1..] == addCoins[i + 1..];
      var matched := false;
      for j := 0 to |newCoins|
        invariant newCoins == before && !matched && j <= First(before, c.asset)
      {
        if !Equals(newCoins[j].asset, c.asset) { continue; }
        assert First(before, c.asset) == j;
        newCoins := newCoins[j := newCoins[j].(amount := newCoins[j].amount + c.amount)];
        matched := true;
        break;
      }
      if !matched { newCoins := newCoins + [c]; }
      assert newCoins == AddOne(before, c);
    }
    assert addCoins[|addCoins|..] == [];
  }

  /** `Coins.SafeSub` */
  method SafeSub(oldCoins: seq<Coin>, subCoins: seq<Coin>) returns (newCoins: seq<Coin>)
    ensures newCoins == SubAll(oldCoins, subCoins)
  {
    hide Equals, First;
    newCoins := oldCoins;
    assert subCoins[0..] == subCoins;
    for i := 0 to |subCoins|
      invariant SubAll(newCoins, subCoins[i..]) == SubAll(oldCoins, subCoins)
    {
      var c := subCoins[i];
      ghost var before := newCoins;
      assert subCoins[i..][1..] == subCoins[i + 1..];
      for j := 0 to |newCoins|
        invariant newCoins == before && j <= First(before, c.asset)
      {
        if !Equals(newCoins[j].asset, c.asset) { continue; }
        assert First(before, c.asset) == j;
        newCoins := newCoins[j := newCoins[j].(amount := SafeSubAmount(newCoins[j].amount, c.amount))];
        break;
      }
      assert newCoins == SubOne(before, c);
    }
    assert subCoins[|subCoins|..] == [];
  }

  // ------------------------------------------------------------------- balances

  function AmountIf(c: Coin, a: Asset): nat {
    if Equals(c.asset, a) then c.amount else 0
  }

  /** The sum over all entries of an asset. */
  function Total(cs: seq<Coin>, a: Asset): nat {
    if cs == [] then 0 else AmountIf(cs[0], a) + Total(cs[1..], a)
  }

  predicate DupFree(cs: seq<Coin>) {
    forall i, j :: 0 <= i < j < |cs| ==> !Equals(cs[i].asset, cs[j].asset)
  }

  /** The amount in the first entry of an asset. */
  function FirstAmount(cs: seq<Coin>, a: Asset): nat {
    if First(cs, a) < |cs| then cs[First(cs, a)].amount else 0
  }

  lemma {:induction false} TotalAppend(cs: seq<Coin>, c: Coin, a: Asset)
    ensures Total(cs + [c], a) == Total(cs, a) + AmountIf(c, a)
  {
    if cs == [] {
      assert cs + [c] == [c];
    } else {
      assert (cs + [c])[1..] == cs[1..] + [c];
      TotalAppend(cs[1..], c, a);
    }
  }

  lemma {:induction false} TotalUpdate(cs: seq<Coin>, j: nat, amount: nat, a: Asset)
    requires j < |cs|
    ensures Total(cs[j := cs[j].(amount := amount)], a) + AmountIf(cs[j], a)
            == Total(cs, a) + if Equals(cs[j].asset, a) then amount else 0
  {
    var ds := cs[j := cs[j].(amount := amount)];
    if j == 0 {
      assert ds[1..] == cs[1..];
    } else {
      assert ds[1..] == cs[1..][j - 1 := cs[j].(amount := amount)];
      TotalUpdate(cs[1..], j - 1, amount, a);
    }
  }

  /** `Add` conserves the total of every asset, whatever duplicates either list has. */
  lemma {:induction false} AddConserves(cs: seq<Coin>, adds: seq<Coin>, a: Asset)
    ensures Total(AddAll(cs, adds), a) == Total(cs, a) + Total(adds, a)
    decreases |adds|
  {
    hide Upper, First;
    if adds != [] {
      var c := adds[0];
      var j := First(cs, c.asset);
      if j == |cs| {
        TotalAppend(cs, c, a);
      } else {
        TotalUpdate(cs, j, cs[j].amount + c.amount, a);
      }
      AddConserves(AddOne(cs, c), adds[1..], a);
    }
  }

  /** `Add` never puts a second entry of an asset into a list that has none twice. */
  lemma {:induction false} AddKeepsDupFree(cs: seq<Coin>, adds: seq<Coin>)
    requires DupFree(cs)
    ensures DupFree(AddAll(cs, adds))
    decreases |adds|
  {
    if adds != [] {
      assert DupFree(AddOne(cs, adds[0]));
      AddKeepsDupFree(AddOne(cs, adds[0]), adds[1..]);
    }
  }

  /** Lists with the same assets in the same places. */
  predicate SameAssets(cs: seq<Coin>, ds: seq<Coin>) {
    |cs| == |ds| && forall i :: 0 <= i < |cs| ==> cs[i].asset == ds[i].asset
  }

  lemma SameFirst(cs: seq<Coin>, ds: seq<Coin>, a: Asset)
    requires SameAssets(cs, ds)
    ensures First(cs, a) == First(ds, a)
  {}

  lemma SubOneAmount(cs: seq<Coin>, c: Coin, a: Asset)
    ensures SameAssets(cs, SubOne(cs, c))
    ensures FirstAmount(SubOne(cs, c), a) == SafeSubAmount(FirstAmount(cs, a), AmountIf(c, a))
    ensures Total(SubOne(cs, c), a) + FirstAmount(cs, a) == Total(cs, a) + FirstAmount(SubOne(cs, c), a)
  {
    hide Upper, First, Total;
    var ds, j := SubOne(cs, c), First(cs, c.asset);
    SameFirst(cs, ds, a);
    var k := First(cs, a);
    if Equals(c.asset, a) {
      assert k == j;
    }
    if j < |cs| {
      TotalUpdate(cs, j, SafeSubAmount(cs[j].amount, c.amount), a);
    }
  }

  lemma {:induction false} FirstAmountAtMostTotal(cs: seq<Coin>, a: Asset)
    ensures FirstAmount(cs, a) <= Total(cs, a)
  {
    if cs != [] && !Equals(cs[0].asset, a) {
      FirstAmountAtMostTotal(cs[1..], a);
    }
  }

  /**
   What `SafeSub` leaves of an asset, on any list: the sum of the subtractions
   comes off the first entry, and no more than that entry holds.
   */
  lemma {:induction false} SafeSubLeaves(cs: seq<Coin>, subs: seq<Coin>, a: Asset)
    ensures FirstAmount(SubAll(cs, subs), a) == SafeSubAmount(FirstAmount(cs, a), Total(subs, a))
    ensures Total(SubAll(cs, subs), a) + FirstAmount(cs, a) == Total(cs, a) + FirstAmount(SubAll(cs, subs), a)
    decreases |subs|
  {
    hide SubOne, FirstAmount;
    if subs != [] {
      SubOneAmount(cs, subs[0], a);
      SafeSubLeaves(SubOne(cs, subs[0]), subs[1..], a);
    }
  }

  lemma {:induction false} DupFreeTotal(cs: seq<Coin>, a: Asset)
    requires DupFree(cs)
    ensures Total(cs, a) == FirstAmount(cs, a)
  {
    if cs != [] {
      DupFreeTotal(cs[1..], a);
      if Equals(cs[0].asset, a) {
        NoMore(cs[1..], a, cs[0].asset);
      }
    }
  }

  lemma {:induction false} NoMore(cs: seq<Coin>, a: Asset, b: Asset)
    requires Equals(b, a) && forall i :: 0 <= i < |cs| ==> !Equals(b, cs[i].asset)
    ensures Total(cs, a) == 0
  {
    if cs != [] {
      NoMore(cs[1..], a, b);
    }
  }

  /** On a list without duplicates: the old balance less the subtractions, or zero. */
  lemma SafeSubOfDupFree(cs: seq<Coin>, subs: seq<Coin>, a: Asset)
    requires DupFree(cs)
    ensures Total(SubAll(cs, subs), a) == SafeSubAmount(Total(cs, a), Total(subs, a))
  {
    SafeSubLeaves(cs, subs, a);
    DupFreeTotal(cs, a);
  }

  /** In general that holds exactly when the first entry can bear the subtraction or the whole balance. */
  lemma SafeSubExact(cs: seq<Coin>, subs: seq<Coin>, a: Asset)
    ensures Total(SubAll(cs, subs), a) == SafeSubAmount(Total(cs, a), Total(subs, a))
            <==> FirstAmount(cs, a) >= Total(subs, a) || FirstAmount(cs, a) == Total(cs, a)
  {
    hide FirstAmount, Total, SubAll;
    SafeSubLeaves(cs, subs, a);
    FirstAmountAtMostTotal(cs, a);
  }

  // -------------------------------------------------------------- add, then sub

  /** An old entry after `Add`: only the first of its asset grows, by all that was added. */
  lemma {:induction false} AddAt(x: seq<Coin>, y: seq<Coin>, j: nat)
    requires j < |x|
    ensures |x| <= |AddAll(x, y)|
    ensures AddAll(x, y)[j] ==
            x[j].(amount := x[j].amount + if First(x, x[j].asset) == j then Total(y, x[j].asset) else 0)
    decreases |y|
  {
    hide Upper, First;
    if y != [] {
      var x' := AddOne(x, y[0]);
      AddAt(x', y[1..], j);
      FirstOfGrown(x, y[0], x[j].asset);
    }
  }

  /** Adding a coin moves no first entry. */
  lemma FirstOfGrown(x: seq<Coin>, c: Coin, a: Asset)
    requires First(x, a) < |x|
    ensures First(AddOne(x, c), a) == First(x, a)
    ensures First(x, c.asset) == First(x, a) <==> Equals(c.asset, a)
  {
    hide Upper, First;
    var k := First(x, a);
    var x' := AddOne(x, c);
    assert forall i :: 0 <= i < |x| ==> x'[i].asset == x[i].asset;
    assert Equals(x'[k].asset, a);
    if Equals(c.asset, a) {
      assert First(x, c.asset) == k;
    }
  }

  /** A new entry after `Add`: the first of its asset, holding all that was added. */
  lemma {:induction false} AddedAt(x: seq<Coin>, y: seq<Coin>, j: nat)
    requires |x| <= j < |AddAll(x, y)|
    ensures var r := AddAll(x, y); First(r, r[j].asset) == j && r[j].amount == Total(y, r[j].asset)
    decreases |y|
  {
    hide Upper, First;
    var x', r := AddOne(x, y[0]), AddAll(x, y);
    if j < |x'| {
      var c := y[0];
      assert x' == x + [c] && j == |x|;
      AddAt(x', y[1..], j);
      assert First(x', c.asset) == j by {
        assert forall i :: 0 <= i < j ==> x'[i] == x[i];
      }
      AddKeepsFirst(x', y[1..], c.asset);
    } else {
      AddedAt(x', y[1..], j);
      var k := First(x', y[0].asset);
      assert k < |x'| by { MatchAfterAdd(x, y[0]); }
      AddAt(x', y[1..], k);
      assert !Equals(r[k].asset, r[j].asset);
      assert !Equals(y[0].asset, r[j].asset);
    }
  }

  lemma MatchAfterAdd(x: seq<Coin>, c: Coin)
    ensures First(AddOne(x, c), c.asset) < |AddOne(x, c)|
  {
    var j := First(x, c.asset);
    assert Equals(AddOne(x, c)[j].asset, c.asset);
  }

  lemma {:induction false} AddKeepsFirst(x: seq<Coin>, y: seq<Coin>, a: Asset)
    requires First(x, a) < |x|
    ensures First(AddAll(x, y), a) == First(x, a)
    decreases |y|
  {
    if y != [] {
      FirstOfGrown(x, y[0], a);
      AddKeepsFirst(AddOne(x, y[0]), y[1..], a);
    }
  }

  /** Every entry after `SafeSub`. */
  lemma {:induction false} SubAt(x: seq<Coin>, y: seq<Coin>, j: nat)
    requires j < |x|
    ensures |SubAll(x, y)| == |x|
    ensures SubAll(x, y)[j] ==
            x[j].(amount := SafeSubAmount(x[j].amount, if First(x, x[j].asset) == j then Total(y, x[j].asset) else 0))
    decreases |y|
  {
    hide Upper, First;
    if y != [] {
      var x' := SubOne(x, y[0]);
      SameFirst(x, x', x[j].asset);
      SubAt(x', y[1..], j);
      var a := x[j].asset;
      if First(x, a) == j && Equals(y[0].asset, a) {
        assert First(x, y[0].asset) == j;
      }
      if First(x, y[0].asset) == j {
        assert Equals(y[0].asset, a) && First(x, a) == j;
      }
    }
  }

  /**
   Adding and subtracting the same coins restores the old list entry by entry, in
   its order, duplicates included, followed by empty entries of the assets that
   were new.
   */
  lemma AddThenSubRestores(x: seq<Coin>, y: seq<Coin>)
    ensures var r := SubAll(AddAll(x, y), y);
            && |x| <= |r| && r[..|x|] == x
            && forall j :: |x| <= j < |r| ==> r[j].amount == 0
  {
    hide AddAll, SubAll, Total, First;
    var s := AddAll(x, y);
    var r := SubAll(s, y);
    AddGrows(x, y);
    forall j | 0 <= j < |x|
      ensures |r| == |s| && r[j] == x[j]
    {
      AddAt(x, y, j);
      SubAt(s, y, j);
      FirstAfterAdd(x, y, j);
    }
    forall j | |x| <= j < |s|
      ensures |r| == |s| && r[j].amount == 0
    {
      AddedAt(x, y, j);
      SubAt(s, y, j);
    }
    SubLength(s, y);
  }

  lemma FirstAfterAdd(x: seq<Coin>, y: seq<Coin>, j: nat)
    requires j < |x|
    ensures First(AddAll(x, y), x[j].asset) == First(x, x[j].asset)
  {
    AddKeepsFirst(x, y, x[j].asset);
  }

  lemma {:induction false} AddGrows(x: seq<Coin>, y: seq<Coin>)
    ensures |x| <= |AddAll(x, y)|
    decreases |y|
  {
    if y != [] { AddGrows(AddOne(x, y[0]), y[1..]); }
  }

  lemma {:induction false} SubLength(x: seq<Coin>, y: seq<Coin>)
    ensures |SubAll(x, y)| == |x|
    decreases |y|
  {
    if y != [] { SubLength(SubOne(x, y[0]), y[1..]); }
  }

  lemma {:induction false} TotalOfZeros(cs: seq<Coin>, n: nat, a: Asset)
    requires n <= |cs| && forall j :: n <= j < |cs| ==> cs[j].amount == 0
    ensures Total(cs, a) == Total(cs[..n], a)
    decreases |cs|
  {
    if |cs| > n {
      var ds := cs[..|cs| - 1];
      assert cs == ds + [cs[|cs| - 1]];
      TotalAppend(ds, cs[|cs| - 1], a);
      TotalOfZeros(ds, n, a);
      assert ds[..n] == cs[..n];
    } else {
      assert cs[..n] == cs;
    }
  }

  /** In terms of balances: every asset is back where it was. */
  lemma AddThenSubBalances(x: seq<Coin>, y: seq<Coin>, a: Asset)
    ensures Total(SubAll(AddAll(x, y), y), a) == Total(x, a)
  {
    hide AddAll, SubAll, Total;
    AddThenSubRestores(x, y);
    TotalOfZeros(SubAll(AddAll(x, y), y), |x|, a);
  }
}
