/** `Tx.EqualsEx`, which compares two transactions field by field and sorts their gas on the way. */
module Txs {
  import opened Text
  import opened Assets
  import opened Coins
  import opened Sorting
  import opened ListEquality
  import opened Gas

  class Tx {
    const id: string
    const chain: string
    const fromAddress: string
    const toAddress: string
    const coins: seq<Coin>
    const gas: array<Coin>
    const memo: string

    constructor (id: string, chain: string, fromAddress: string, toAddress: string,
                 coins: seq<Coin>, gas: array<Coin>, memo: string)
      ensures this.id == id && this.chain == chain && this.fromAddress == fromAddress && this.toAddress == toAddress
      ensures this.coins == coins && this.gas == gas && this.memo == memo
    {
      this.id, this.chain, this.fromAddress, this.toAddress := id, chain, fromAddress, toAddress;
      this.coins, this.gas, this.memo := coins, gas, memo;
    }

    /** The fields that are compared as text. */
    predicate SameText(tx2: Tx) {
      && EqualFold(id, tx2.id) && EqualFold(Upper(chain), Upper(tx2.chain))
      && EqualFold(fromAddress, tx2.fromAddress) && EqualFold(toAddress, tx2.toAddress)
    }

    /**
     What a call may leave in the two gas lists and answer, over every order that the
     sorts give equal keys; `g` and `g2` are the lists before it. The gas is compared,
     and so sorted, only when the texts are the same and the coins came out equal.
     */
    ghost predicate MayEnd(tx2: Tx, g: seq<Coin>, g2: seq<Coin>, s: seq<Coin>, t: seq<Coin>, eq: bool) {
      || (&& (!SameText(tx2) || CanAnswer(coins, tx2.coins, false) || |g| != |g2|)
          && s == g && t == g2 && !eq)
      || (&& SameText(tx2) && CanAnswer(coins, tx2.coins, true) && |g| == |g2|
          && Arrangement(s, g) && Arrangement(t, g2)
          && (eq <==> Pointwise(s, t) && EqualFold(memo, tx2.memo)))
    }

    /** When the comparison gets as far as the gas whatever order the sort gives equal keys. */
    ghost predicate ReachesGas(tx2: Tx) {
      SameText(tx2) && SameCoins(coins, tx2.coins) && UniformTies(coins)
    }

    /**
     The gas is left as it was when a text or the coins differ, when the lengths of the
     two gas lists differ, and when both are settled; `GasLeftIff` says that these are
     the only cases in which that is certain.
     */
    method EqualsEx(tx2: Tx) returns (eq: bool)
      modifies gas, tx2.gas
      ensures MayEnd(tx2, old(gas[..]), old(tx2.gas[..]), gas[..], tx2.gas[..], eq)
      ensures multiset(gas[..]) == multiset(old(gas[..])) && multiset(tx2.gas[..]) == multiset(old(tx2.gas[..]))
      ensures !SameText(tx2) || !SameCoins(coins, tx2.coins) || gas.Length != tx2.gas.Length ==>
                !eq && gas[..] == old(gas[..]) && tx2.gas[..] == old(tx2.gas[..])
      ensures Settled(old(gas[..])) ==> gas[..] == old(gas[..])
      ensures Settled(old(tx2.gas[..])) ==> tx2.gas[..] == old(tx2.gas[..])
      ensures eq || (ReachesGas(tx2) && gas.Length == tx2.gas.Length) ==>
                Sorted(gas[..], AssetText) && Sorted(tx2.gas[..], AssetText)
      ensures eq ==> EqualFold(id, tx2.id) && EqualFold(chain, tx2.chain) && EqualFold(memo, tx2.memo)
      ensures eq ==> EqualFold(fromAddress, tx2.fromAddress) && EqualFold(toAddress, tx2.toAddress)
      ensures eq ==> SameCoins(coins, tx2.coins) && SameCoins(old(gas[..]), old(tx2.gas[..]))
      ensures (&& ReachesGas(tx2) && EqualFold(memo, tx2.memo)
               && SameCoins(old(gas[..]), old(tx2.gas[..])) && UniformTies(old(gas[..])))
              ==> eq
    {
      hide SameCoins, UniformTies, EqualFold, Settled, Pointwise, CanAnswer;
      CanBeEqualIff(coins, tx2.coins);
      SameTextIs(this, tx2);
      if !EqualFold(id, tx2.id) { return false; }
      if !EqualFold(Upper(chain), Upper(tx2.chain)) { return false; }
      if !EqualFold(fromAddress, tx2.fromAddress) { return false; }
      if !EqualFold(toAddress, tx2.toAddress) { return false; }
      var sameCoins := CoinsEqualsEx(coins, tx2.coins);
      if !sameCoins { return false; }
      var sameGas := GasEquals(gas, tx2.gas);
      if !sameGas { return false; }
      if !EqualFold(memo, tx2.memo) { return false; }
      return true;
    }
  }

  /**
   A comparison is certain to leave the gas of both transactions as it was exactly
   when it does not get to the gas, or finds both lists settled.
   */
  lemma GasLeftIff(tx: Tx, tx2: Tx, g: seq<Coin>, g2: seq<Coin>)
    ensures (forall s, t, eq :: tx.MayEnd(tx2, g, g2, s, t, eq) ==> s == g && t == g2)
            <==> || !tx.SameText(tx2) || !SameCoins(tx.coins, tx2.coins) || |g| != |g2|
                 || (Settled(g) && Settled(g2))
  {
    hide SameCoins, Settled, Tx.SameText, Pointwise, CanAnswer, EqualFold;
    CanBeEqualIff(tx.coins, tx2.coins);
    forall s, t, eq | tx.MayEnd(tx2, g, g2, s, t, eq) && Settled(g) && Settled(g2)
      ensures s == g && t == g2
    {
      if Arrangement(s, g) && Arrangement(t, g2) {
        SettledStays(s, g);
        SettledStays(t, g2);
      }
    }
    if tx.SameText(tx2) && SameCoins(tx.coins, tx2.coins) && |g| == |g2| {
      var s := Unsettle(g);
      var t := Unsettle(g2);
      assert tx.MayEnd(tx2, g, g2, s, t, Pointwise(s, t) && EqualFold(tx.memo, tx2.memo));
    }
  }

  /** The texts and the memo agree, and both lists hold the same coins. */
  ghost predicate Alike(tx: Tx, tx2: Tx, g: seq<Coin>, g2: seq<Coin>) {
    && EqualFold(tx.id, tx2.id) && EqualFold(tx.chain, tx2.chain)
    && EqualFold(tx.fromAddress, tx2.fromAddress) && EqualFold(tx.toAddress, tx2.toAddress)
    && EqualFold(tx.memo, tx2.memo) && SameCoins(tx.coins, tx2.coins) && SameCoins(g, g2)
  }

  /** A difference in any one of the four texts is enough. */
  lemma SameTextIs(tx: Tx, tx2: Tx)
    ensures tx.SameText(tx2) <==>
            && EqualFold(tx.id, tx2.id) && EqualFold(tx.chain, tx2.chain)
            && EqualFold(tx.fromAddress, tx2.fromAddress) && EqualFold(tx.toAddress, tx2.toAddress)
  {
    UpperTwice(tx.chain);
    UpperTwice(tx2.chain);
  }

  /**
   The answer can be true exactly for transactions that agree in every field, lists up
   to their order; it is certain to be true exactly when in both lists, besides, coins
   that sort alike are equal.
   */
  lemma AnswerIff(tx: Tx, tx2: Tx, g: seq<Coin>, g2: seq<Coin>)
    ensures (exists s, t :: tx.MayEnd(tx2, g, g2, s, t, true)) <==> Alike(tx, tx2, g, g2)
    ensures !(exists s, t :: tx.MayEnd(tx2, g, g2, s, t, false))
            <==> Alike(tx, tx2, g, g2) && UniformTies(tx.coins) && UniformTies(g)
  {
    hide SameCoins, UniformTies, Tx.SameText, Pointwise, EqualFold, Arrangement, CanAnswer;
    SameTextIs(tx, tx2);
    CanBeFalseIff(tx, tx2, g, g2);
    AlwaysEqualIff(tx.coins, tx2.coins);
    AlwaysEqualIff(g, g2);
    CanBeEqualIff(tx.coins, tx2.coins);
    CanBeEqualIff(g, g2);
    if SameCoins(g, g2) { var t := LineUp(g, g2); }
    if s, t :| tx.MayEnd(tx2, g, g2, s, t, true) { CanAnswerIs(g, g2, s, t); }
    if Alike(tx, tx2, g, g2) {
      var s, t := AnswerOf(g, g2, true);
      assert tx.MayEnd(tx2, g, g2, s, t, true);
    }
  }

  lemma CanAnswerIs(g: seq<Coin>, g2: seq<Coin>, s: seq<Coin>, t: seq<Coin>)
    requires Arrangement(s, g) && Arrangement(t, g2)
    ensures CanAnswer(g, g2, Pointwise(s, t))
  {}

  lemma AnswerOf(g: seq<Coin>, g2: seq<Coin>, eq: bool) returns (s: seq<Coin>, t: seq<Coin>)
    requires CanAnswer(g, g2, eq)
    ensures Arrangement(s, g) && Arrangement(t, g2) && (eq <==> Pointwise(s, t))
  {
    s, t :| Arrangement(s, g) && Arrangement(t, g2) && (eq <==> Pointwise(s, t));
  }

  /** The answer can be false exactly when something differs or a sort can come out unequal. */
  lemma CanBeFalseIff(tx: Tx, tx2: Tx, g: seq<Coin>, g2: seq<Coin>)
    ensures (exists s, t :: tx.MayEnd(tx2, g, g2, s, t, false))
            <==> || !tx.SameText(tx2) || !EqualFold(tx.memo, tx2.memo) || |g| != |g2|
                 || CanAnswer(tx.coins, tx2.coins, false) || CanAnswer(g, g2, false)
  {
    hide SameCoins, UniformTies, Tx.SameText, Pointwise, EqualFold, Arrangement, CanAnswer;
    if s, t :| tx.MayEnd(tx2, g, g2, s, t, false) {
      if Arrangement(s, g) && Arrangement(t, g2) { CanAnswerIs(g, g2, s, t); }
    }
    AlwaysEqualIff(tx.coins, tx2.coins);
    CanBeEqualIff(tx.coins, tx2.coins);
    if !tx.SameText(tx2) || |g| != |g2| || CanAnswer(tx.coins, tx2.coins, false) {
      assert tx.MayEnd(tx2, g, g2, g, g2, false);
    } else if CanAnswer(g, g2, false) {
      var s, t := AnswerOf(g, g2, false);
      assert tx.MayEnd(tx2, g, g2, s, t, false);
    } else if !EqualFold(tx.memo, tx2.memo) {
      SomeArrangement(g);
      SomeArrangement(g2);
      assert tx.MayEnd(tx2, g, g2, InsertionSort(g, AssetText), InsertionSort(g2, AssetText), false);
    }
  }

  // ---------------------------------------------------------- a pair that is sorted

  const RUNE := Coin(Asset("THOR", "RUNE", "RUNE", false, false, false), 1, 8)
  const BTC := Coin(Asset("BTC", "BTC", "BTC", false, false, false), 1, 8)

  lemma SortsToBtcFirst(s: seq<Coin>)
    requires Arrangement(s, [RUNE, BTC])
    ensures s == [BTC, RUNE]
  {
    assert AssetText(RUNE)[0] == 'T' && AssetText(BTC)[0] == 'B';
    assert |multiset(s)| == |s| == 2;
    assert s[0] in multiset([RUNE, BTC]) && s[1] in multiset([RUNE, BTC]);
    assert multiset(s) == multiset{s[0], s[1]};
  }

  /** A transaction without coins that is compared with a copy of itself: both gas lists are turned round. */
  lemma CopyReordersGas(tx: Tx, copy: Tx, s: seq<Coin>, t: seq<Coin>, eq: bool)
    requires tx.SameText(copy) && tx.memo == copy.memo && tx.coins == copy.coins == []
    requires tx.MayEnd(copy, [RUNE, BTC], [RUNE, BTC], s, t, eq)
    ensures s == t == [BTC, RUNE] && eq
  {
    AlwaysEqualIff(tx.coins, copy.coins);
    SortsToBtcFirst(s);
    SortsToBtcFirst(t);
  }
}
