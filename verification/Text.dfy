/** ASCII text: case mapping and search, as Go's strings package does them on ASCII. */
module Text {

  function UpperChar(c: char): char {
    if 'a' <= c <= 'z' then c - 32 as char else c
  }

  function LowerChar(c: char): char {
    if 'A' <= c <= 'Z' then c + 32 as char else c
  }

  function Upper(s: string): (r: string)
    ensures |r| == |s| && forall i :: 0 <= i < |s| ==> r[i] == UpperChar(s[i])
  {
    seq(|s|, i requires 0 <= i < |s| => UpperChar(s[i]))
  }

  function Lower(s: string): (r: string)
    ensures |r| == |s| && forall i :: 0 <= i < |s| ==> r[i] == LowerChar(s[i])
  {
    seq(|s|, i requires 0 <= i < |s| => LowerChar(s[i]))
  }

  /** `strings.EqualFold` */
  predicate EqualFold(s: string, t: string) {
    Upper(s) == Upper(t)
  }

  const LOWER_CASE: string := "abcdefghijklmnopqrstuvwxyz"
  const UPPER_CASE: string := "ABCDEFGHIJKLMNOPQRSTUVWXYZ"

  lemma LowerAt()
    ensures forall i :: 0 <= i < 26 ==> LOWER_CASE[i] == 'a' + i as char
  {}

  lemma UpperAt()
    ensures forall i :: 0 <= i < 26 ==> UPPER_CASE[i] == 'A' + i as char
  {}

  /** The letters as ranges. */
  lemma LetterRange(c: char)
    ensures c in LOWER_CASE <==> 'a' <= c <= 'z'
    ensures c in UPPER_CASE <==> 'A' <= c <= 'Z'
  {
    hide *;
    TableLengths();
    LowerAt();
    UpperAt();
    TableRange(LOWER_CASE, 'a', c);
    TableRange(UPPER_CASE, 'A', c);
  }

  lemma TableLengths()
    ensures |LOWER_CASE| == 26 && |UPPER_CASE| == 26
  {}

  lemma TableRange(table: string, first: char, c: char)
    requires |table| == 26 && first as int <= 1000
    requires forall i :: 0 <= i < 26 ==> table[i] == first + i as char
    ensures c in table <==> first <= c <= first + 25 as char
  {
    if first <= c <= first + 25 as char { assert table[c as int - first as int] == c; }
  }

  /** Case mapping in literals: letter by letter, and nothing but letters. */
  lemma CaseTable(i: nat, c: char)
    ensures i < 26 ==> UpperChar(LOWER_CASE[i]) == UPPER_CASE[i] == UpperChar(UPPER_CASE[i])
    ensures i < 26 ==> LowerChar(UPPER_CASE[i]) == LOWER_CASE[i] == LowerChar(LOWER_CASE[i])
    ensures c !in LOWER_CASE && c !in UPPER_CASE ==> UpperChar(c) == c == LowerChar(c)
  {
    LowerAt();
    UpperAt();
    LetterRange(c);
  }

  /** Equality up to case, seen from the lower-case side. */
  lemma EqualFoldIsSameLower(s: string, t: string)
    ensures EqualFold(s, t) <==> Lower(s) == Lower(t)
    ensures EqualFold(s, t) <==> |s| == |t| && forall i :: 0 <= i < |s| ==> UpperChar(s[i]) == UpperChar(t[i])
  {
    if EqualFold(s, t) {
      assert |Upper(s)| == |Upper(t)|;
      forall i | 0 <= i < |s| ensures UpperChar(s[i]) == UpperChar(t[i]) && LowerChar(s[i]) == LowerChar(t[i]) {
        assert Upper(s)[i] == Upper(t)[i];
      }
    }
    if Lower(s) == Lower(t) {
      assert |Lower(s)| == |Lower(t)|;
      forall i | 0 <= i < |s| ensures UpperChar(s[i]) == UpperChar(t[i]) {
        assert Lower(s)[i] == Lower(t)[i];
      }
    }
  }

  lemma UpperTwice(s: string)
    ensures Upper(Upper(s)) == Upper(s)
  {}

  /** Lower-casing loses nothing that upper-casing keeps. */
  lemma UpperLower(s: string)
    ensures Upper(Lower(s)) == Upper(s)
  {}

  /** The index of the first character that satisfies `p`, or the length. */
  function Find(s: string, p: char -> bool): (k: nat)
    ensures k <= |s|
    ensures forall i :: 0 <= i < k ==> !p(s[i])
    ensures k < |s| ==> p(s[k])
  {
    if s == [] || p(s[0]) then 0 else 1 + Find(s[1..], p)
  }

  /** A first match is found wherever it stands. */
  lemma FindAt(s: string, p: char -> bool, k: nat)
    requires k < |s| && p(s[k]) && forall i :: 0 <= i < k ==> !p(s[i])
    ensures Find(s, p) == k
  {
  }
}
