/** Transaction ids: what `NewTxID` accepts, and how that depends on letter case. */
module TxIds {
  import opened Machine
  import opened Text
  import opened DecimalText

  const SIXTEEN_ZEROS: string := "0000000000000000"
  const BLANK_TX_ID: string := SIXTEEN_ZEROS + SIXTEEN_ZEROS + SIXTEEN_ZEROS + SIXTEEN_ZEROS

  predicate IsHex(c: char) { IsDigit(c) || 'a' <= c <= 'f' || 'A' <= c <= 'F' }

  /** 64 hex digits, a hyphen and a decimal index. */
  predicate IsCosmosIndexed(h: string) {
    && |h| > 65
    && (forall i :: 0 <= i < 64 ==> IsHex(h[i]))
    && h[64] == '-'
    && (forall i :: 65 <= i < |h| ==> IsDigit(h[i]))
  }

  function NewTxID(h: string): Option<string> {
    if |h| > 64 && IsCosmosIndexed(h) then Some(h)
    else
      match |h|
      case 64 => Some(Upper(h))
      case 66 => if h[0] == '0' && h[1] == 'x' then Some(Upper(h)) else None
      case 87 => Some(h)
      case 88 => Some(h)
      case _ => None
  }

  predicate Accepted(h: string) { NewTxID(h).Some? }

  predicate IsBlank(h: string) { EqualFold(h, BLANK_TX_ID) }

  /** The hex digits in literals. */
  lemma HexTable(c: char)
    ensures IsHex(c) <==> c in "0123456789abcdefABCDEF"
  {
    DigitTable(c);
    var t := "0123456789abcdefABCDEF";
    assert forall i :: 0 <= i < 10 ==> t[i] == "0123456789"[i];
    assert forall i :: 10 <= i < 16 ==> t[i] == 'a' + (i - 10) as char;
    assert forall i :: 16 <= i < 22 ==> t[i] == 'A' + (i - 16) as char;
    if 'a' <= c <= 'f' { assert t[10 + (c as int - 'a' as int)] == c; }
    if 'A' <= c <= 'F' { assert t[16 + (c as int - 'A' as int)] == c; }
    if c in "0123456789" {
      var i :| 0 <= i < 10 && "0123456789"[i] == c;
      assert t[i] == c;
    }
  }

  /** A hash of 64 hex digits with a decimal index behind it. */
  ghost predicate IsIndexed(h: string) {
    exists hash, index :: h == hash + "-" + index && IsHash(hash) && index != "" && AllDigits(index)
  }

  predicate IsHash(hash: string) { |hash| == 64 && forall i :: 0 <= i < 64 ==> IsHex(hash[i]) }

  lemma IndexedIs(h: string)
    ensures IsCosmosIndexed(h) <==> IsIndexed(h)
  {
    if IsCosmosIndexed(h) {
      var hash, index := h[..64], h[65..];
      assert h == hash + "-" + index;
      assert IsHash(hash) && AllDigits(index);
    }
    if hash, index :| h == hash + "-" + index && IsHash(hash) && index != "" && AllDigits(index) {
      forall i | 0 <= i < 64 ensures IsHex(h[i]) { assert h[i] == hash[i]; }
      forall i | 65 <= i < |h| ensures IsDigit(h[i]) { assert h[i] == index[i - 65]; }
    }
  }

  /** A text that is kept as it is: an indexed hash, or a base58 signature, whose case matters. */
  ghost predicate KeptAsIs(h: string) { IsIndexed(h) || |h| == 87 || |h| == 88 }

  /** The id that a text stands for: itself, or its upper-case spelling. */
  ghost predicate IsIdOf(id: string, h: string) {
    if KeptAsIs(h) then id == h else Upper(id) == id && EqualFold(id, h)
  }

  /** Exactly which texts are accepted, and the one id that each gives. */
  lemma NewTxIDIs(h: string)
    ensures Accepted(h) <==> KeptAsIs(h) || |h| == 64 || (|h| == 66 && h[..2] == "0x")
    ensures Accepted(h) ==> IsIdOf(NewTxID(h).value, h)
    ensures Accepted(h) ==> forall id :: IsIdOf(id, h) ==> id == NewTxID(h).value
  {
    IndexedIs(h);
    UpperTwice(h);
    assert |h| == 66 ==> (h[..2] == "0x" <==> h[0] == '0' && h[1] == 'x');
  }

  /** The blank id is 64 zeros, however it is spelled. */
  lemma BlankIs(h: string)
    ensures IsBlank(h) <==> |h| == 64 && forall i :: 0 <= i < 64 ==> h[i] == '0'
  {
    var blank := BLANK_TX_ID;
    assert forall i :: 0 <= i < 16 ==> SIXTEEN_ZEROS[i] == '0';
    assert |blank| == 64 && forall i :: 0 <= i < 64 ==> blank[i] == '0';
    assert forall c: char :: UpperChar(c) == '0' <==> c == '0';
    if IsBlank(h) {
      assert |Upper(h)| == |Upper(blank)|;
      forall i | 0 <= i < 64 ensures h[i] == '0' { assert Upper(h)[i] == Upper(blank)[i]; }
    }
    if |h| == 64 && forall i :: 0 <= i < 64 ==> h[i] == '0' { assert h == blank; }
  }

  /** An id is at most upper-cased: it stays equal to the text it came from. */
  lemma NewTxIDFolds(h: string)
    requires Accepted(h)
    ensures EqualFold(NewTxID(h).value, h)
  {
    UpperTwice(h);
  }

  /** The id made from an EVM hash is one that `NewTxID` itself rejects. */
  lemma EvmIdNotAcceptedAgain(h: string)
    requires |h| == 66 && h[0] == '0' && h[1] == 'x'
    ensures NewTxID(h) == Some(Upper(h)) && NewTxID(Upper(h)).None?
  {
    assert !IsHex(h[1]);
    assert Upper(h)[1] == 'X' && !IsHex(Upper(h)[1]);
  }

  /** That is the only id it rejects: every other result is accepted unchanged. */
  lemma OtherIdsAcceptedAgain(h: string)
    requires Accepted(h) && !(|h| == 66 && h[0] == '0' && h[1] == 'x')
    ensures NewTxID(NewTxID(h).value) == NewTxID(h)
  {
    UpperTwice(h);
  }

  lemma CosmosIndexedFolds(h: string, g: string)
    requires EqualFold(h, g) && IsCosmosIndexed(h)
    ensures IsCosmosIndexed(g)
  {
    forall i | 0 <= i < |h| ensures UpperChar(h[i]) == UpperChar(g[i]) {
      assert Upper(h)[i] == Upper(g)[i];
    }
    forall i | 0 <= i < 64 ensures IsHex(g[i]) {
      assert IsHex(h[i]) && UpperChar(h[i]) == UpperChar(g[i]);
    }
    assert UpperChar(h[64]) == UpperChar(g[64]);
    forall i | 65 <= i < |g| ensures IsDigit(g[i]) {
      assert IsDigit(h[i]) && UpperChar(h[i]) == UpperChar(g[i]);
    }
  }

  /** Two spellings of one id, only one of them accepted: exactly the EVM prefix in its two cases. */
  lemma AcceptanceFolds(h: string, g: string)
    requires EqualFold(h, g)
    ensures Accepted(h) && !Accepted(g) ==> |h| == 66 && h[0] == '0' && h[1] == 'x' && g[0] == '0' && g[1] == 'X'
  {
    assert |Upper(h)| == |Upper(g)|;
    if IsCosmosIndexed(h) { CosmosIndexedFolds(h, g); }
    if |h| == 66 {
      assert UpperChar(h[0]) == UpperChar(g[0]) && UpperChar(h[1]) == UpperChar(g[1]);
    }
  }
}
