/**
 Asset text: the parser `NewAsset` with its chain, symbol and ticker checks, the
 printer `String`, and the bank denom `Native`.
 */
module Assets {
  import opened Machine
  import opened Text
  import opened DecimalText

  datatype Asset = Asset(chain: string, symbol: string, ticker: string, synth: bool, trade: bool, secured: bool)

  // ------------------------------------------------------- chain, symbol, ticker

  predicate IsUpperLetter(c: char) { 'A' <= c <= 'Z' }

  predicate IsLetter(c: char) { IsUpperLetter(UpperChar(c)) }

  predicate ValidChain(c: string) {
    3 <= |c| <= 10 && forall i :: 0 <= i < |c| ==> IsUpperLetter(c[i])
  }

  function NewChain(s: string): Option<string> {
    if ValidChain(Upper(s)) then Some(Upper(s)) else None
  }

  /** The class `[A-Za-z0-9-._]`. */
  predicate IsSymbolChar(c: char) {
    'a' <= c <= 'z' || 'A' <= c <= 'Z' || IsDigit(c) || c == '-' || c == '.' || c == '_'
  }

  predicate IsAlphaNumeric(s: string) {
    s != "" && forall i :: 0 <= i < |s| ==> IsSymbolChar(s[i])
  }

  function NewSymbol(s: string): Option<string> {
    if IsAlphaNumeric(s) then Some(Upper(s)) else None
  }

  function NewTicker(s: string): Option<string> {
    if 0 < |s| <= 13 && '/' !in s then Some(Upper(s)) else None
  }

  // --------------------------------------------------------------------- assets

  /** The class `[~./-]`. */
  predicate IsSeparator(c: char) { c == '~' || c == '.' || c == '/' || c == '-' }

  predicate IsHyphen(c: char) { c == '-' }

  /** The part of a symbol before its first hyphen. */
  function TickerPart(sym: string): string { sym[..Find(sym, IsHyphen)] }

  function Assemble(chain: string, sep: char, sym: string): Option<Asset> {
    match NewSymbol(sym)
    case None => None
    case Some(symbol) =>
      match NewTicker(TickerPart(sym))
      case None => None
      case Some(ticker) => Some(Asset(chain, symbol, ticker, sep == '/', sep == '~', sep == '-'))
  }

  function NewAsset(input: string): Option<Asset> {
    var k := Find(input, IsSeparator);
    if k == |input| then Assemble("THOR", '.', input)
    else
      match NewChain(input[..k])
      case None => None
      case Some(chain) => Assemble(chain, input[k], input[k + 1..])
  }

  /** The separator `String` prints: a later flag overrides an earlier one. */
  function Divider(a: Asset): char {
    if a.secured then '-' else if a.trade then '~' else if a.synth then '/' else '.'
  }

  function String(a: Asset): string {
    Upper(a.chain) + [Divider(a)] + Upper(a.symbol)
  }

  predicate Equals(a: Asset, b: Asset) {
    && EqualFold(Upper(a.chain), Upper(b.chain)) && EqualFold(Upper(a.symbol), Upper(b.symbol))
    && EqualFold(Upper(a.ticker), Upper(b.ticker))
    && a.synth == b.synth && a.trade == b.trade && a.secured == b.secured
  }

  /** Field by field and up to case, whether the assets were parsed or put together by hand. */
  lemma EqualsIsFieldwise(a: Asset, b: Asset)
    ensures Equals(a, b) <==>
            && EqualFold(a.chain, b.chain) && EqualFold(a.symbol, b.symbol) && EqualFold(a.ticker, b.ticker)
            && (a.synth <==> b.synth) && (a.trade <==> b.trade) && (a.secured <==> b.secured)
  {
    UpperTwice(a.chain);
    UpperTwice(b.chain);
    UpperTwice(a.symbol);
    UpperTwice(b.symbol);
    UpperTwice(a.ticker);
    UpperTwice(b.ticker);
  }

  /** The separators in literals: the flag that comes last in the printer wins. */
  predicate Separates(sep: char, a: Asset) {
    && (a.secured ==> sep == '-')
    && (a.trade && !a.secured ==> sep == '~')
    && (a.synth && !a.trade && !a.secured ==> sep == '/')
    && (!a.synth && !a.trade && !a.secured ==> sep == '.')
  }

  /** The text of an asset: upper case, and on parsed assets exactly the chain, the separator and the symbol. */
  lemma StringText(a: Asset)
    ensures forall c :: c in String(a) ==> c !in LOWER_CASE
    ensures exists sep :: Separates(sep, a) && String(a) == Upper(a.chain) + [sep] + Upper(a.symbol)
    ensures Canonical(a) ==> exists sep :: Separates(sep, a) && String(a) == a.chain + [sep] + a.symbol
  {
    assert Separates(Divider(a), a);
    forall c | c in String(a) ensures c !in LOWER_CASE {
      var i :| 0 <= i < |String(a)| && String(a)[i] == c;
      if i < |a.chain| {
        NotLower(a.chain[i]);
      } else if i > |a.chain| {
        assert c == Upper(a.symbol)[i - |a.chain| - 1];
        NotLower(a.symbol[i - |a.chain| - 1]);
      } else {
        SeparatorIsNoLetter(c);
      }
    }
    if Canonical(a) { ValidChainUpper(a.chain); }
  }

  lemma NotLower(c: char)
    ensures UpperChar(c) !in LOWER_CASE && LowerChar(c) !in UPPER_CASE
  {
    LetterRange(UpperChar(c));
    LetterRange(LowerChar(c));
  }

  lemma SeparatorIsNoLetter(c: char)
    requires IsSeparator(c)
    ensures c !in LOWER_CASE && c !in UPPER_CASE
  {
    LetterRange(c);
  }

  // ------------------------------------------------------ what the parser returns

  predicate IsUpperText(s: string) { Upper(s) == s }

  /** Exactly the assets that `NewAsset` returns. */
  predicate Canonical(a: Asset) {
    && ValidChain(a.chain)
    && IsAlphaNumeric(a.symbol) && IsUpperText(a.symbol)
    && a.ticker == TickerPart(a.symbol) && 0 < |a.ticker| <= 13
    && !(a.synth && a.trade) && !(a.trade && a.secured) && !(a.secured && a.synth)
  }

  lemma TickerOfUpper(sym: string)
    ensures TickerPart(Upper(sym)) == Upper(TickerPart(sym))
  {
    var k := Find(sym, IsHyphen);
    if k < |sym| {
      FindAt(Upper(sym), IsHyphen, k);
    } else {
      assert forall i :: 0 <= i < |sym| ==> Upper(sym)[i] != '-';
    }
  }

  /** Upper-casing keeps the symbol class. */
  lemma AlphaNumericUpper(sym: string)
    ensures IsAlphaNumeric(Upper(sym)) <==> IsAlphaNumeric(sym)
  {
    assert forall i :: 0 <= i < |sym| ==> (IsSymbolChar(UpperChar(sym[i])) <==> IsSymbolChar(sym[i]));
    if IsAlphaNumeric(Upper(sym)) {
      forall i | 0 <= i < |sym| ensures IsSymbolChar(sym[i]) {
        assert IsSymbolChar(Upper(sym)[i]);
      }
    }
  }

  lemma AssembleIsCanonical(chain: string, sep: char, sym: string)
    requires ValidChain(chain) && Assemble(chain, sep, sym).Some?
    ensures Canonical(Assemble(chain, sep, sym).value)
  {
    TickerOfUpper(sym);
    AlphaNumericUpper(sym);
    UpperTwice(sym);
  }

  lemma NewAssetIsCanonical(input: string)
    requires NewAsset(input).Some?
    ensures Canonical(NewAsset(input).value)
  {
    hide Assemble, Canonical;
    var k := Find(input, IsSeparator);
    if k == |input| {
      AssembleIsCanonical("THOR", '.', input);
    } else {
      AssembleIsCanonical(Upper(input[..k]), input[k], input[k + 1..]);
    }
  }

  // ---------------------------------------------------------------- round trips

  /** The text of an asset in any mixture of cases parses to the asset. */
  lemma ParseAnyCase(a: Asset, chain: string, sym: string)
    requires Canonical(a) && Upper(chain) == a.chain && Upper(sym) == a.symbol
    ensures NewAsset(chain + [Divider(a)] + sym) == Some(a)
  {
    var input, k := chain + [Divider(a)] + sym, |chain|;
    forall i | 0 <= i < k ensures !IsSeparator(input[i]) {
      assert input[i] == chain[i] && IsUpperLetter(Upper(chain)[i]);
    }
    FindAt(input, IsSeparator, k);
    assert input[..k] == chain && input[k + 1..] == sym;
    AlphaNumericUpper(sym);
    TickerOfUpper(sym);
    TickerHasNoSlash(sym);
  }

  lemma TickerHasNoSlash(sym: string)
    requires IsAlphaNumeric(sym)
    ensures '/' !in TickerPart(sym)
  {}

  /** Printing and parsing give the asset back. */
  lemma StringParsesBack(a: Asset)
    requires Canonical(a)
    ensures NewAsset(String(a)) == Some(a)
  {
    ValidChainUpper(a.chain);
    UpperTwice(a.symbol);
    ParseAnyCase(a, Upper(a.chain), Upper(a.symbol));
  }

  lemma ValidChainUpper(c: string)
    requires ValidChain(c)
    ensures Upper(c) == c && Upper(Upper(c)) == c
  {}

  /** The assets that `NewAsset` returns, for every input at once. */
  lemma NewAssetImage(a: Asset)
    ensures Canonical(a) <==> exists input :: NewAsset(input) == Some(a)
  {
    hide NewAsset, Canonical;
    if Canonical(a) { StringParsesBack(a); }
    forall input | NewAsset(input) == Some(a) ensures Canonical(a) { NewAssetIsCanonical(input); }
  }

  /** On parsed assets `Equals`, equal text and equality are the same. */
  lemma EqualsIsSameText(a: Asset, b: Asset)
    requires Canonical(a) && Canonical(b)
    ensures Equals(a, b) <==> String(a) == String(b)
    ensures Equals(a, b) <==> a == b
  {
    StringParsesBack(a);
    StringParsesBack(b);
    hide NewAsset;
    ValidChainUpper(a.chain);
    ValidChainUpper(b.chain);
    TickerOfUpper(a.symbol);
    TickerOfUpper(b.symbol);
    UpperTwice(a.symbol);
    UpperTwice(b.symbol);
    UpperTwice(a.ticker);
    UpperTwice(b.ticker);
  }

  // ------------------------------------------------------ exactly what is parsed

  /** The symbol and ticker that the text of a symbol gives. */
  ghost predicate NamesSymbol(sym: string, a: Asset) {
    && sym != "" && (forall i :: 0 <= i < |sym| ==> sym[i] in LOWER_CASE + UPPER_CASE + "0123456789" + "-._")
    && a.symbol == Upper(sym)
    && 1 <= |a.ticker| <= 13 && '-' !in a.ticker
    && (a.ticker == a.symbol || a.ticker + "-" <= a.symbol)
  }

  predicate AllLetters(s: string) { forall i :: 0 <= i < |s| ==> s[i] in LOWER_CASE + UPPER_CASE }

  /** A chain of three to ten letters, one of the four separators, and a symbol. */
  ghost predicate Reads(input: string, a: Asset, chain: string, sep: char, sym: string) {
    && input == chain + [sep] + sym && sep in "~./-"
    && 3 <= |chain| <= 10 && AllLetters(chain)
    && a.chain == Upper(chain) && NamesSymbol(sym, a)
    && (a.synth <==> sep == '/') && (a.trade <==> sep == '~') && (a.secured <==> sep == '-')
  }

  /** No separator: the whole text is a symbol of the THOR chain. */
  ghost predicate ReadsBare(input: string, a: Asset) {
    && (forall i :: 0 <= i < |input| ==> input[i] !in "~./-")
    && a.chain == "THOR" && NamesSymbol(input, a) && !a.synth && !a.trade && !a.secured
  }

  lemma SymbolClass(c: char)
    ensures IsSymbolChar(c) <==> c in LOWER_CASE + UPPER_CASE + "0123456789" + "-._"
  {
    LetterRange(c);
    DigitTable(c);
    assert c in "-._" <==> c == '-' || c == '.' || c == '_';
  }

  lemma NamesSymbolIs(sym: string, chain: string, sep: char, a: Asset)
    ensures Assemble(chain, sep, sym) == Some(a) <==>
            && NamesSymbol(sym, a) && a.chain == chain
            && (a.synth <==> sep == '/') && (a.trade <==> sep == '~') && (a.secured <==> sep == '-')
  {
    forall i | 0 <= i < |sym|
      ensures IsSymbolChar(sym[i]) <==> sym[i] in LOWER_CASE + UPPER_CASE + "0123456789" + "-._"
    {
      SymbolClass(sym[i]);
    }
    TickerOfUpper(sym);
    TickerIs(Upper(sym), a.ticker);
    if IsAlphaNumeric(sym) { TickerHasNoSlash(sym); }
  }

  lemma TickerIs(symbol: string, ticker: string)
    ensures ticker == TickerPart(symbol) <==> '-' !in ticker && (ticker == symbol || ticker + "-" <= symbol)
  {
    var k := Find(symbol, IsHyphen);
    if k < |symbol| { assert symbol[..k + 1] == symbol[..k] + "-"; } else { assert symbol[..k] == symbol; }
    if '-' !in ticker && ticker + "-" <= symbol {
      var n := |ticker|;
      assert symbol[..n + 1] == ticker + "-";
      assert symbol[n] == symbol[..n + 1][n] && forall i :: 0 <= i < n ==> symbol[i] == symbol[..n + 1][i];
      FindAt(symbol, IsHyphen, n);
    }
  }

  lemma ChainLetters(chain: string)
    ensures ValidChain(Upper(chain)) <==> 3 <= |chain| <= 10 && AllLetters(chain)
  {
    forall i | 0 <= i < |chain|
      ensures IsUpperLetter(Upper(chain)[i]) <==> chain[i] in LOWER_CASE + UPPER_CASE
    {
      LetterRange(chain[i]);
    }
  }

  lemma LettersDoNotSeparate(chain: string)
    requires AllLetters(chain)
    ensures forall i :: 0 <= i < |chain| ==> !IsSeparator(chain[i])
  {
    forall i | 0 <= i < |chain| ensures !IsSeparator(chain[i]) { LetterRange(chain[i]); }
  }

  lemma SeparatorFound(input: string, chain: string, sep: char, sym: string)
    requires input == chain + [sep] + sym && IsSeparator(sep) && forall i :: 0 <= i < |chain| ==> !IsSeparator(chain[i])
    ensures Find(input, IsSeparator) == |chain| < |input|
    ensures input[..|chain|] == chain && input[|chain|] == sep && input[|chain| + 1..] == sym
  {
    FindAt(input, IsSeparator, |chain|);
  }

  /** Exactly which texts are accepted, and the asset that each gives. */
  lemma NewAssetIff(input: string, a: Asset)
    ensures NewAsset(input) == Some(a) <==>
            ReadsBare(input, a) || exists chain, sep, sym :: Reads(input, a, chain, sep, sym)
  {
    hide NamesSymbol, Assemble, Upper, AllLetters, ValidChain;
    var k := Find(input, IsSeparator);
    assert forall c :: IsSeparator(c) <==> c in "~./-";
    forall chain, sep, sym | Reads(input, a, chain, sep, sym)
      ensures k == |chain| < |input| && chain == input[..k] && sep == input[k] && sym == input[k + 1..]
    {
      LettersDoNotSeparate(chain);
      SeparatorFound(input, chain, sep, sym);
    }
    if k == |input| {
      NamesSymbolIs(input, "THOR", '.', a);
    } else {
      var chain, sep, sym := input[..k], input[k], input[k + 1..];
      assert input == chain + [sep] + sym;
      NamesSymbolIs(sym, Upper(chain), sep, a);
      ChainLetters(chain);
      assert Reads(input, a, chain, sep, sym) <==> NewAsset(input) == Some(a);
    }
  }

  // --------------------------------------------------------------------- denoms

  function ThorAsset(name: string): Asset { Asset("THOR", name, name, false, false, false) }

  function Native(a: Asset): string {
    if Equals(ThorAsset("DECA"), a) then "deca"
    else if Equals(a, ThorAsset("TOR")) then "tor"
    else if Equals(a, ThorAsset("TCY")) then "tcy"
    else if Equals(a, ThorAsset("RUJI")) then "x/ruji"
    else if Equals(a, ThorAsset("NAMI")) then "thor.nami"
    else if Equals(a, ThorAsset("LQDY")) then "thor.lqdy"
    else if Equals(a, ThorAsset("XUSK")) then "thor.xusk"
    else if Equals(a, ThorAsset("AUTO")) then "thor.auto"
    else Lower(String(a))
  }

  predicate IsName(name: string) {
    0 < |name| <= 13 && forall i :: 0 <= i < |name| ==> IsUpperLetter(name[i])
  }

  lemma LettersHaveNoTail(s: string)
    requires forall i :: 0 <= i < |s| ==> IsLetter(s[i])
    ensures TickerPart(s) == s && Find(s, IsSeparator) == |s|
  {
    assert forall i :: 0 <= i < |s| ==> !IsHyphen(s[i]) && !IsSeparator(s[i]);
    assert s[..|s|] == s;
  }

  lemma ThorAssetCanonical(name: string)
    requires IsName(name)
    ensures Canonical(ThorAsset(name))
  {
    LettersHaveNoTail(name);
  }

  /** A bare name is an asset of the THOR chain. */
  lemma BareName(name: string, low: string)
    requires IsName(name) && Upper(low) == name
    ensures NewAsset(low) == Some(ThorAsset(name))
  {
    forall i | 0 <= i < |low| ensures IsLetter(low[i]) {
      assert UpperChar(low[i]) == name[i];
    }
    LettersHaveNoTail(low);
    AlphaNumericUpper(low);
    TickerHasNoSlash(low);
  }

  /** A whitelisted asset's denom is its text in lower case. */
  lemma DottedName(name: string, low: string)
    requires IsName(name) && Upper(low) == name
    ensures NewAsset("thor." + low) == Some(ThorAsset(name))
  {
    ThorAssetCanonical(name);
    assert Upper("thor") == "THOR";
    assert "thor." + low == "thor" + ['.'] + low;
    ParseAnyCase(ThorAsset(name), "thor", low);
  }

  lemma LowerTextParses(a: Asset)
    requires Canonical(a)
    ensures NewAsset(Lower(String(a))) == Some(a)
  {
    var c, s := Lower(Upper(a.chain)), Lower(Upper(a.symbol));
    assert Lower(String(a)) == c + [Divider(a)] + s;
    UpperLower(Upper(a.chain));
    UpperLower(Upper(a.symbol));
    UpperTwice(a.symbol);
    ValidChainUpper(a.chain);
    ParseAnyCase(a, c, s);
  }

  /** The chain name "x" is too short, so the denom of RUJI names no asset. */
  lemma RujiDenom()
    ensures NewAsset("x/ruji").None?
  {
    FindAt("x/ruji", IsSeparator, 1);
  }

  /** A parsed asset equals a named one only if it is that one. */
  lemma NamedIs(a: Asset)
    requires Canonical(a)
    ensures forall name :: name in {"DECA", "TOR", "TCY", "RUJI", "NAMI", "LQDY", "XUSK", "AUTO"} ==>
              && (Equals(a, ThorAsset(name)) <==> a == ThorAsset(name))
              && (Equals(ThorAsset(name), a) <==> a == ThorAsset(name))
  {
    hide Canonical, Equals, String;
    forall name | name in {"DECA", "TOR", "TCY", "RUJI", "NAMI", "LQDY", "XUSK", "AUTO"}
      ensures Equals(a, ThorAsset(name)) <==> a == ThorAsset(name)
      ensures Equals(ThorAsset(name), a) <==> a == ThorAsset(name)
    {
      ThorAssetCanonical(name);
      EqualsIsSameText(a, ThorAsset(name));
      EqualsIsSameText(ThorAsset(name), a);
    }
  }

  /** The bank denom in literals: the texts of eight named assets, and for the others their own text in lower case. */
  lemma NativeText(a: Asset)
    requires Canonical(a)
    ensures forall c :: c in Native(a) ==> c !in UPPER_CASE
    ensures a == Asset("THOR", "DECA", "DECA", false, false, false) ==> Native(a) == "deca"
    ensures a == Asset("THOR", "TOR", "TOR", false, false, false) ==> Native(a) == "tor"
    ensures a == Asset("THOR", "TCY", "TCY", false, false, false) ==> Native(a) == "tcy"
    ensures a == Asset("THOR", "RUJI", "RUJI", false, false, false) ==> Native(a) == "x/ruji"
    ensures a == Asset("THOR", "NAMI", "NAMI", false, false, false) ==> Native(a) == "thor.nami"
    ensures a == Asset("THOR", "LQDY", "LQDY", false, false, false) ==> Native(a) == "thor.lqdy"
    ensures a == Asset("THOR", "XUSK", "XUSK", false, false, false) ==> Native(a) == "thor.xusk"
    ensures a == Asset("THOR", "AUTO", "AUTO", false, false, false) ==> Native(a) == "thor.auto"
    ensures (forall name :: name in {"DECA", "TOR", "TCY", "RUJI", "NAMI", "LQDY", "XUSK", "AUTO"} ==>
               a != Asset("THOR", name, name, false, false, false))
            ==> exists sep :: Separates(sep, a) && Native(a) == Lower(a.chain) + [sep] + Lower(a.symbol)
  {
    hide Canonical, Equals, Upper, Lower;
    NamedIs(a);
    LowerText(a);
    DenomsAreLower();
    assert Lower(Native(a)) == Native(a);
    forall c | c in Native(a) ensures c !in UPPER_CASE {
      var i :| 0 <= i < |Native(a)| && Native(a)[i] == c;
      assert c == Lower(Native(a))[i];
      NotLower(Native(a)[i]);
    }
  }

  lemma LowerText(a: Asset)
    requires Canonical(a)
    ensures exists sep :: Separates(sep, a) && Lower(String(a)) == Lower(a.chain) + [sep] + Lower(a.symbol)
    ensures Lower(Lower(String(a))) == Lower(String(a))
  {
    StringText(a);
    var sep := Divider(a);
    ValidChainUpper(a.chain);
    assert Separates(sep, a) && Lower([sep]) == [sep];
    assert Lower(String(a)) == Lower(a.chain) + [sep] + Lower(a.symbol);
  }

  lemma DenomsAreLower()
    ensures Lower("deca") == "deca" && Lower("tor") == "tor" && Lower("tcy") == "tcy" && Lower("x/ruji") == "x/ruji"
    ensures Lower("thor.nami") == "thor.nami" && Lower("thor.lqdy") == "thor.lqdy"
    ensures Lower("thor.xusk") == "thor.xusk" && Lower("thor.auto") == "thor.auto"
  {}

  /** Every denom parses back to its asset, except the one of RUJI, which does not parse. */
  lemma NativeParsesBack(a: Asset)
    requires Canonical(a)
    ensures NewAsset(Native(a)) == if a == ThorAsset("RUJI") then None else Some(a)
  {
    hide NewAsset, Canonical, Equals, String;
    NamedIs(a);
    SpecialDenoms();
    RujiDenom();
    LowerTextParses(a);
  }

  lemma UpperNames()
    ensures Upper("deca") == "DECA" && Upper("tor") == "TOR" && Upper("tcy") == "TCY" && Upper("nami") == "NAMI"
    ensures Upper("lqdy") == "LQDY" && Upper("xusk") == "XUSK" && Upper("auto") == "AUTO"
  {}

  lemma SpecialDenoms()
    ensures NewAsset("deca") == Some(ThorAsset("DECA"))
    ensures NewAsset("tor") == Some(ThorAsset("TOR"))
    ensures NewAsset("tcy") == Some(ThorAsset("TCY"))
    ensures NewAsset("thor.nami") == Some(ThorAsset("NAMI"))
    ensures NewAsset("thor.lqdy") == Some(ThorAsset("LQDY"))
    ensures NewAsset("thor.xusk") == Some(ThorAsset("XUSK"))
    ensures NewAsset("thor.auto") == Some(ThorAsset("AUTO"))
  {
    hide NewAsset, Upper;
    UpperNames();
    BareName("DECA", "deca");
    BareName("TOR", "tor");
    BareName("TCY", "tcy");
    DottedName("NAMI", "nami");
    DottedName("LQDY", "lqdy");
    DottedName("XUSK", "xusk");
    DottedName("AUTO", "auto");
    assert "thor." + "nami" == "thor.nami" && "thor." + "lqdy" == "thor.lqdy";
    assert "thor." + "xusk" == "thor.xusk" && "thor." + "auto" == "thor.auto";
  }

  /** Two different assets never share a bank denom. */
  lemma NativeInjective(a: Asset, b: Asset)
    requires Canonical(a) && Canonical(b) && Native(a) == Native(b)
    ensures a == b
  {
    hide NewAsset, Native, Canonical;
    NativeParsesBack(a);
    NativeParsesBack(b);
  }
}
