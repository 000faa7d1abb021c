/**
 An observed transaction collects signers and outbound hashes. The methods change
 it in place; what they keep is proved over whole runs of calls.
 */
module ObservedTxs {
  import opened Machine
  import opened Text
  import opened Sorting
  import opened TxIds

  datatype Status = Incomplete | Done

  /** The foreign bech32 text of account addresses. */
  datatype AddressCodec = AddressCodec(encode: bytes -> string, decode: string -> Option<bytes>)

  // ----------------------------------------------------- what the methods compute

  function Decoded(codec: AddressCodec, signers: seq<string>): seq<bytes> {
    if signers == [] then []
    else
      match codec.decode(signers[0])
      case None => Decoded(codec, signers[1..])
      case Some(a) => [a] + Decoded(codec, signers[1..])
  }

  predicate Signed(codec: AddressCodec, signers: seq<string>, a: bytes) {
    exists i :: 0 <= i < |signers| && codec.decode(signers[i]) == Some(a)
  }

  function AfterSign(codec: AddressCodec, signers: seq<string>, a: bytes): seq<string> {
    if Signed(codec, signers, a) then signers else signers + [codec.encode(a)]
  }

  function TxIDs(outs: seq<string>): seq<string> {
    if outs == [] then []
    else
      match NewTxID(outs[0])
      case None => TxIDs(outs[1..])
      case Some(id) => [id] + TxIDs(outs[1..])
  }

  /** An accepted out hash that equals `h` up to case. */
  predicate Recorded(outs: seq<string>, h: string) {
    exists i :: 0 <= i < |outs| && Accepted(outs[i]) && EqualFold(outs[i], h)
  }

  function AfterDone(outs: seq<string>, h: string): seq<string> {
    if !IsBlank(h) && Recorded(outs, h) then outs else outs + [h]
  }

  /** A call that appends marks the transaction when there are enough hashes. */
  function NextStatus(outs: seq<string>, status: Status, h: string, numOuts: int): Status {
    var next := AfterDone(outs, h);
    if |next| > |outs| && |next| >= numOuts then Done else status
  }

  lemma {:induction false} DecodedConcat(codec: AddressCodec, p: seq<string>, q: seq<string>)
    ensures Decoded(codec, p + q) == Decoded(codec, p) + Decoded(codec, q)
  {
    if p == [] {
      assert p + q == q;
    } else {
      assert (p + q)[1..] == p[1..] + q;
      DecodedConcat(codec, p[1..], q);
    }
  }

  lemma {:induction false} DecodedHas(codec: AddressCodec, signers: seq<string>, a: bytes)
    ensures a in Decoded(codec, signers) <==> Signed(codec, signers, a)
  {
    if signers != [] {
      DecodedHas(codec, signers[1..], a);
      if i :| 0 <= i < |signers| && codec.decode(signers[i]) == Some(a) {
        if i > 0 { assert codec.decode(signers[1..][i - 1]) == Some(a); }
      }
      if i :| 0 <= i < |signers| - 1 && codec.decode(signers[1..][i]) == Some(a) {
        assert codec.decode(signers[i + 1]) == Some(a);
      }
    }
  }

  lemma {:induction false} TxIDsConcat(p: seq<string>, q: seq<string>)
    ensures TxIDs(p + q) == TxIDs(p) + TxIDs(q)
  {
    if p == [] {
      assert p + q == q;
    } else {
      assert (p + q)[1..] == p[1..] + q;
      TxIDsConcat(p[1..], q);
    }
  }

  /** The accepted texts, in their order. */
  function Kept(outs: seq<string>): seq<string> {
    if outs == [] then [] else (if Accepted(outs[0]) then [outs[0]] else []) + Kept(outs[1..])
  }

  /** Entry by entry, the ids are those of the accepted texts. */
  lemma {:induction false} TxIDsOfKept(outs: seq<string>)
    ensures |TxIDs(outs)| == |Kept(outs)|
    ensures forall i :: 0 <= i < |Kept(outs)| ==> IsIdOf(TxIDs(outs)[i], Kept(outs)[i])
  {
    hide NewTxID, IsIdOf;
    if outs != [] {
      TxIDsOfKept(outs[1..]);
      NewTxIDIs(outs[0]);
    }
  }

  predicate HasId(ids: seq<string>, h: string) {
    exists i :: 0 <= i < |ids| && EqualFold(ids[i], h)
  }

  lemma HasIdCons(id: string, ids: seq<string>, h: string)
    ensures HasId([id] + ids, h) <==> EqualFold(id, h) || HasId(ids, h)
  {
    hide EqualFold;
    var all := [id] + ids;
    if i :| 0 <= i < |ids| && EqualFold(ids[i], h) { assert EqualFold(all[i + 1], h); }
    if EqualFold(id, h) { assert EqualFold(all[0], h); }
  }

  lemma RecordedCons(outs: seq<string>, h: string)
    requires outs != []
    ensures Recorded(outs, h) <==> (Accepted(outs[0]) && EqualFold(outs[0], h)) || Recorded(outs[1..], h)
  {
    hide EqualFold, Accepted;
    var rest := outs[1..];
    if i :| 0 <= i < |rest| && Accepted(rest[i]) && EqualFold(rest[i], h) {
      assert Accepted(outs[i + 1]) && EqualFold(outs[i + 1], h);
    }
    if i :| 0 < i < |outs| && Accepted(outs[i]) && EqualFold(outs[i], h) {
      assert Accepted(rest[i - 1]) && EqualFold(rest[i - 1], h);
    }
  }

  lemma {:induction false} TxIDsHas(outs: seq<string>, h: string)
    ensures HasId(TxIDs(outs), h) <==> Recorded(outs, h)
  {
    hide NewTxID, HasId, Recorded;
    if outs == [] {
      NothingHas(h);
    } else {
      TxIDsHas(outs[1..], h);
      RecordedCons(outs, h);
      if Accepted(outs[0]) {
        NewTxIDFolds(outs[0]);
        HasIdCons(NewTxID(outs[0]).value, TxIDs(outs[1..]), h);
      }
    }
  }

  lemma NothingHas(h: string)
    ensures !HasId([], h) && !Recorded([], h)
  {}

  // ------------------------------------------------------------------ the object

  class ObservedTx {
    const codec: AddressCodec
    var signers: seq<string>
    var outHashes: seq<string>
    var status: Status

    constructor (codec: AddressCodec)
      ensures this.codec == codec && signers == [] && outHashes == [] && status == Incomplete
    {
      this.codec := codec;
      signers, outHashes, status := [], [], Incomplete;
    }

    method GetSigners() returns (addrs: seq<bytes>)
      ensures addrs == Decoded(codec, signers)
    {
      addrs := [];
      for i := 0 to |signers|
        invariant addrs == Decoded(codec, signers[..i])
      {
        assert signers[..i + 1] == signers[..i] + [signers[i]];
        DecodedConcat(codec, signers[..i], [signers[i]]);
        var a := codec.decode(signers[i]);
        if a.None? { continue; }
        addrs := addrs + [a.value];
      }
      assert signers[..|signers|] == signers;
    }

    method HasSigned(signer: bytes) returns (b: bool)
      ensures b <==> Signed(codec, signers, signer)
    {
      var addrs := GetSigners();
      DecodedHas(codec, signers, signer);
      for i := 0 to |addrs|
        invariant signer !in addrs[..i]
      {
        if addrs[i] == signer { return true; }
      }
      return false;
    }

    method Sign(signer: bytes) returns (added: bool)
      modifies this`signers
      ensures signers == AfterSign(codec, old(signers), signer)
      ensures added <==> |signers| == |old(signers)| + 1
      ensures added <==> !Signed(codec, old(signers), signer)
    {
      var signed := HasSigned(signer);
      if signed { return false; }
      signers := signers + [codec.encode(signer)];
      return true;
    }

    method GetOutHashes() returns (txIDs: seq<string>)
      ensures txIDs == TxIDs(outHashes)
      ensures |txIDs| == |Kept(outHashes)|
      ensures forall i :: 0 <= i < |txIDs| ==> IsIdOf(txIDs[i], Kept(outHashes)[i])
    {
      hide Kept, IsIdOf;
      TxIDsOfKept(outHashes);
      txIDs := [];
      for i := 0 to |outHashes|
        invariant txIDs == TxIDs(outHashes[..i])
      {
        assert outHashes[..i + 1] == outHashes[..i] + [outHashes[i]];
        TxIDsConcat(outHashes[..i], [outHashes[i]]);
        var id := NewTxID(outHashes[i]);
        if id.None? { continue; }
        txIDs := txIDs + [id.value];
      }
      assert outHashes[..|outHashes|] == outHashes;
    }

    predicate IsDone(numOuts: int)
      reads this
    {
      |outHashes| >= numOuts
    }

    method SetDone(hash: string, numOuts: int)
      modifies this`outHashes, this`status
      ensures outHashes == AfterDone(old(outHashes), hash)
      ensures status == NextStatus(old(outHashes), old(status), hash, numOuts)
    {
      if !IsBlank(hash) {
        var done := GetOutHashes();
        TxIDsHas(outHashes, hash);
        for i := 0 to |done|
          invariant forall k :: 0 <= k < i ==> !EqualFold(done[k], hash)
        {
          if EqualFold(done[i], hash) { return; }
        }
      }
      outHashes := outHashes + [hash];
      if IsDone(numOuts) { status := Done; }
    }
  }

  // ------------------------------------------------------------- runs of SetDone

  /** The out hashes after a run of calls. */
  function AllDone(outs: seq<string>, hs: seq<string>): seq<string>
    decreases |hs|
  {
    if hs == [] then outs else AllDone(AfterDone(outs, hs[0]), hs[1..])
  }

  /** The status after a run of calls with the same `numOuts`. */
  function StatusAfter(outs: seq<string>, status: Status, hs: seq<string>, numOuts: int): Status
    decreases |hs|
  {
    if hs == [] then status
    else
      StatusAfter(AfterDone(outs, hs[0]), NextStatus(outs, status, hs[0], numOuts), hs[1..], numOuts)
  }

  /** Every call keeps it: done exactly when enough out hashes are recorded. */
  lemma {:induction false} DoneWhenEnough(outs: seq<string>, status: Status, hs: seq<string>, numOuts: int)
    requires status == Done <==> |outs| >= numOuts
    ensures StatusAfter(outs, status, hs, numOuts) == Done <==> |AllDone(outs, hs)| >= numOuts
    decreases |hs|
  {
    if hs != [] {
      DoneWhenEnough(AfterDone(outs, hs[0]), NextStatus(outs, status, hs[0], numOuts), hs[1..], numOuts);
    }
  }

  /** From a fresh transaction, whatever `numOuts`: enough hashes, and at least one call. */
  lemma FreshDoneIff(hs: seq<string>, numOuts: int)
    ensures StatusAfter([], Incomplete, hs, numOuts) == Done <==> hs != [] && |AllDone([], hs)| >= numOuts
  {
    if hs != [] {
      DoneWhenEnough(AfterDone([], hs[0]), NextStatus([], Incomplete, hs[0], numOuts), hs[1..], numOuts);
    }
  }

  lemma {:induction false} AllDoneAppend(outs: seq<string>, hs: seq<string>, h: string)
    ensures AllDone(outs, hs + [h]) == AfterDone(AllDone(outs, hs), h)
    decreases |hs|
  {
    if hs == [] {
      assert hs + [h] == [h] && AllDone(AfterDone(outs, h), []) == AfterDone(outs, h);
    } else {
      assert (hs + [h])[1..] == hs[1..] + [h];
      AllDoneAppend(AfterDone(outs, hs[0]), hs[1..], h);
    }
  }

  /** A run leaves the hashes recorded before it in front, and appends only hashes passed in. */
  lemma {:induction false} RunAppends(outs: seq<string>, hs: seq<string>)
    ensures outs <= AllDone(outs, hs)
    ensures forall i :: |outs| <= i < |AllDone(outs, hs)| ==> AllDone(outs, hs)[i] in hs
    decreases |hs|
  {
    hide IsBlank, Recorded;
    if hs != [] {
      var next := AfterDone(outs, hs[0]);
      RunAppends(next, hs[1..]);
      assert hs == [hs[0]] + hs[1..];
    }
  }

  /** A fresh transaction has recorded exactly the accepted hashes it was given. */
  lemma {:induction false} RunRecords(hs: seq<string>, h: string)
    ensures Recorded(AllDone([], hs), h) <==> Recorded(hs, h)
    decreases |hs|
  {
    if hs != [] {
      hide Accepted, EqualFold;
      var n := |hs| - 1;
      var p, x := hs[..n], hs[n];
      assert hs == p + [x];
      AllDoneAppend([], p, x);
      RunRecords(p, h);
      RecordedAppend(p, x, h);
      RecordedAppend(AllDone([], p), x, h);
      if !IsBlank(x) && Recorded(AllDone([], p), x) && Accepted(x) && EqualFold(x, h) {
        RecordedFolds(AllDone([], p), x, h);
      }
    }
  }

  lemma RecordedAppend(outs: seq<string>, x: string, h: string)
    ensures Recorded(outs + [x], h) <==> Recorded(outs, h) || (Accepted(x) && EqualFold(x, h))
  {
    hide Accepted, EqualFold;
    var all := outs + [x];
    if i :| 0 <= i < |outs| && Accepted(outs[i]) && EqualFold(outs[i], h) {
      assert Accepted(all[i]) && EqualFold(all[i], h);
    }
    if Accepted(x) && EqualFold(x, h) {
      assert Accepted(all[|outs|]) && EqualFold(all[|outs|], h);
    }
  }

  lemma RecordedFolds(outs: seq<string>, x: string, h: string)
    requires Recorded(outs, x) && EqualFold(x, h)
    ensures Recorded(outs, h)
  {
    hide Accepted;
    var i :| 0 <= i < |outs| && Accepted(outs[i]) && EqualFold(outs[i], x);
    assert EqualFold(outs[i], h);
  }

  /** Apart from blanks, no two recorded hashes are one id in two spellings. */
  predicate PairwiseDifferent(outs: seq<string>) {
    forall i, j :: 0 <= i < j < |outs| && EqualFold(outs[i], outs[j]) ==> IsBlank(outs[i])
  }

  predicate AllAccepted(hs: seq<string>) { forall i :: 0 <= i < |hs| ==> Accepted(hs[i]) }

  lemma {:induction false} RunKeepsDifferent(outs: seq<string>, hs: seq<string>)
    requires AllAccepted(outs) && AllAccepted(hs) && PairwiseDifferent(outs)
    ensures PairwiseDifferent(AllDone(outs, hs))
    decreases |hs|
  {
    hide Accepted;
    if hs != [] {
      var next := AfterDone(outs, hs[0]);
      forall i, j | 0 <= i < j < |next| && EqualFold(next[i], next[j])
        ensures IsBlank(next[i])
      {
        if j == |outs| {
          assert next[i] == outs[i] && Accepted(outs[i]);
        }
      }
      RunKeepsDifferent(next, hs[1..]);
    }
  }

  // ------------------------------------------------------- does the order matter?

  /** The ids among the accepted hashes, blank apart. */
  function Ids(hs: seq<string>): set<string> {
    set i | 0 <= i < |hs| && Accepted(hs[i]) && !IsBlank(hs[i]) :: Upper(hs[i])
  }

  /** A hash that `SetDone` never recognises, or the blank one that it always appends. */
  predicate Unchecked(h: string) { IsBlank(h) || !Accepted(h) }

  /** One id in two spellings, of which `NewTxID` accepts only one. */
  predicate Mixed(hs: seq<string>) {
    exists i, j :: 0 <= i < |hs| && 0 <= j < |hs| && EqualFold(hs[i], hs[j]) && Accepted(hs[i]) && !Accepted(hs[j])
  }

  lemma RecordedIsId(hs: seq<string>, h: string)
    requires !IsBlank(h)
    ensures Recorded(hs, h) <==> Upper(h) in Ids(hs)
  {
    hide Accepted;
    if Recorded(hs, h) {
      var i :| 0 <= i < |hs| && Accepted(hs[i]) && EqualFold(hs[i], h);
      assert !IsBlank(hs[i]);
    }
  }

  lemma IdsAppend(hs: seq<string>, h: string)
    ensures Ids(hs + [h]) == Ids(hs) + if Accepted(h) && !IsBlank(h) then {Upper(h)} else {}
  {
    hide Accepted, IsBlank, Upper;
    var all := hs + [h];
    assert forall i :: 0 <= i < |hs| ==> all[i] == hs[i];
    forall u | u in Ids(hs) ensures u in Ids(all) {
      var i :| 0 <= i < |hs| && Accepted(hs[i]) && !IsBlank(hs[i]) && u == Upper(hs[i]);
      assert all[i] == hs[i];
    }
    if Accepted(h) && !IsBlank(h) {
      assert all[|hs|] == h;
      assert Upper(h) in Ids(all);
    }
  }

  /** Without a mixed pair: each unchecked hash counts every time, each id counts once. */
  lemma {:induction false} RunCount(hs: seq<string>)
    requires !Mixed(hs)
    ensures |AllDone([], hs)| == CountIf(hs, Unchecked) + |Ids(hs)|
    decreases |hs|
  {
    hide Accepted, IsBlank, EqualFold, Ids;
    if hs == [] {
      assert Ids(hs) == {} by { EmptyIds(); }
    } else {
      var n := |hs| - 1;
      var p, x := hs[..n], hs[n];
      assert hs == p + [x];
      PrefixNotMixed(hs, n);
      RunCount(p);
      AllDoneAppend([], p, x);
      CountConcat(p, [x], Unchecked);
      assert CountIf([x], Unchecked) == if Unchecked(x) then 1 else 0;
      IdsAppend(p, x);
      assert Ids(p) + {} == Ids(p);
      RunRecords(p, x);
      if !IsBlank(x) {
        RecordedIsId(p, x);
        if !Accepted(x) {
          NotRecorded(hs, n);
        } else if Upper(x) in Ids(p) {
          assert Ids(p) + {Upper(x)} == Ids(p);
        }
      }
    }
  }

  lemma EmptyIds()
    ensures Ids([]) == {}
  {}

  lemma PrefixNotMixed(hs: seq<string>, n: nat)
    requires !Mixed(hs) && n <= |hs|
    ensures !Mixed(hs[..n])
  {
    hide Accepted, EqualFold;
    var p := hs[..n];
    forall i, j | 0 <= i < n && 0 <= j < n
      ensures !(EqualFold(p[i], p[j]) && Accepted(p[i]) && !Accepted(p[j]))
    {
      assert p[i] == hs[i] && p[j] == hs[j];
    }
  }

  lemma NotRecorded(hs: seq<string>, n: nat)
    requires !Mixed(hs) && n < |hs| && !Accepted(hs[n])
    ensures !Recorded(hs[..n], hs[n])
  {
    hide Accepted, EqualFold;
    var p := hs[..n];
    forall i | 0 <= i < n ensures !(Accepted(p[i]) && EqualFold(p[i], hs[n])) {
      assert p[i] == hs[i];
    }
  }

  lemma SameIds(p: seq<string>, q: seq<string>)
    requires multiset(p) == multiset(q)
    ensures Ids(p) <= Ids(q)
  {
    hide Accepted, IsBlank, Upper;
    forall u | u in Ids(p) ensures u in Ids(q) {
      var i :| 0 <= i < |p| && Accepted(p[i]) && !IsBlank(p[i]) && u == Upper(p[i]);
      assert p[i] in multiset(q);
      var j :| 0 <= j < |q| && q[j] == p[i];
      assert u == Upper(q[j]);
    }
  }

  lemma MixedPermutes(p: seq<string>, q: seq<string>)
    requires multiset(p) == multiset(q) && Mixed(p)
    ensures Mixed(q)
  {
    hide Accepted, EqualFold;
    var i, j :| 0 <= i < |p| && 0 <= j < |p| && EqualFold(p[i], p[j]) && Accepted(p[i]) && !Accepted(p[j]);
    assert p[i] in multiset(q) && p[j] in multiset(q);
    var k :| 0 <= k < |q| && q[k] == p[i];
    var l :| 0 <= l < |q| && q[l] == p[j];
    assert EqualFold(q[k], q[l]);
  }

  /** Outputs that recognise the same hashes append the same from there on. */
  lemma {:induction false} SameAppended(a: seq<string>, b: seq<string>, hs: seq<string>)
    requires forall h :: Recorded(a, h) <==> Recorded(b, h)
    ensures |AllDone(a, hs)| - |a| == |AllDone(b, hs)| - |b|
    decreases |hs|
  {
    hide Accepted, EqualFold, Recorded, IsBlank;
    if hs != [] {
      var a', b' := AfterDone(a, hs[0]), AfterDone(b, hs[0]);
      forall h ensures Recorded(a', h) <==> Recorded(b', h) {
        RecordedAppend(a, hs[0], h);
        RecordedAppend(b, hs[0], h);
      }
      SameAppended(a', b', hs[1..]);
    }
  }

  ghost predicate OrderMatters(hs: seq<string>) {
    exists p, q :: multiset(p) == multiset(hs) && multiset(q) == multiset(hs) && |AllDone([], p)| != |AllDone([], q)|
  }

  /**
   The number of out hashes that a fresh transaction ends up with depends on the
   order of the calls exactly when some id is passed in two spellings of which
   `NewTxID` accepts only one.
   */
  lemma OrderMattersIff(hs: seq<string>)
    ensures OrderMatters(hs) <==> Mixed(hs)
  {
    if !Mixed(hs) {
      forall p, q | multiset(p) == multiset(hs) && multiset(q) == multiset(hs)
        ensures |AllDone([], p)| == |AllDone([], q)|
      {
        SameCount(hs, p);
        SameCount(hs, q);
      }
    } else {
      var p, q := TwoOrders(hs);
    }
  }

  /** Some number of outbounds for which two orders end in different states. */
  ghost predicate StatusOrderMatters(hs: seq<string>) {
    exists p, q, numOuts :: DifferentStatus(hs, p, q, numOuts)
  }

  ghost predicate DifferentStatus(hs: seq<string>, p: seq<string>, q: seq<string>, numOuts: int) {
    && multiset(p) == multiset(hs) && multiset(q) == multiset(hs)
    && StatusAfter([], Incomplete, p, numOuts) != StatusAfter([], Incomplete, q, numOuts)
  }

  lemma StatusOrderMattersIff(hs: seq<string>)
    ensures StatusOrderMatters(hs) <==> Mixed(hs)
  {
    hide Mixed, AllDone, StatusAfter;
    OrderMattersIff(hs);
    if p, q, numOuts :| DifferentStatus(hs, p, q, numOuts) {
      FreshDoneIff(p, numOuts);
      FreshDoneIff(q, numOuts);
      assert |multiset(p)| == |p| && |multiset(q)| == |q|;
    }
    if p, q :| multiset(p) == multiset(hs) && multiset(q) == multiset(hs) && |AllDone([], p)| > |AllDone([], q)| {
      FreshDoneIff(p, |AllDone([], p)|);
      FreshDoneIff(q, |AllDone([], p)|);
      if p == [] { NothingDone(); }
      assert DifferentStatus(hs, p, q, |AllDone([], p)|);
    }
  }

  lemma NothingDone()
    ensures AllDone([], []) == []
  {}

  /** With accepted hashes no order matters, neither for the number nor for the status. */
  lemma AcceptedInAnyOrder(hs: seq<string>, p: seq<string>, numOuts: int)
    requires AllAccepted(hs) && multiset(p) == multiset(hs)
    ensures |AllDone([], p)| == |AllDone([], hs)|
    ensures StatusAfter([], Incomplete, p, numOuts) == StatusAfter([], Incomplete, hs, numOuts)
  {
    hide Accepted, AllDone, StatusAfter;
    OrderMattersIff(hs);
    StatusOrderMattersIff(hs);
    assert !DifferentStatus(hs, p, hs, numOuts);
  }

  /** An EVM hash passed with `0x` and with `0X`: the first is recognised, the second never is. */
  lemma BothPrefixes(h: string)
    requires |h| == 66 && h[0] == '0' && h[1] == 'x'
    ensures OrderMatters([h, Upper(h)])
  {
    hide OrderMatters;
    var hs := [h, Upper(h)];
    OrderMattersIff(hs);
    EvmIdNotAcceptedAgain(h);
    UpperTwice(h);
    assert EqualFold(hs[0], hs[1]) && Accepted(hs[0]) && !Accepted(hs[1]);
  }

  /** Ids that are not EVM hashes with a lower-case prefix are counted alike in every order. */
  lemma OrderFreeWithoutEvm(hs: seq<string>)
    requires forall i :: 0 <= i < |hs| ==> !(|hs[i]| == 66 && hs[i][0] == '0' && hs[i][1] == 'x')
    ensures !OrderMatters(hs)
  {
    OrderMattersIff(hs);
    hide OrderMatters;
    if i, j :| 0 <= i < |hs| && 0 <= j < |hs| && EqualFold(hs[i], hs[j]) && Accepted(hs[i]) && !Accepted(hs[j]) {
      AcceptanceFolds(hs[i], hs[j]);
    }
  }

  lemma SameCount(hs: seq<string>, p: seq<string>)
    requires multiset(p) == multiset(hs) && !Mixed(hs)
    ensures |AllDone([], p)| == CountIf(hs, Unchecked) + |Ids(hs)|
  {
    hide Mixed, AllDone, Ids;
    if Mixed(p) { MixedPermutes(p, hs); }
    RunCount(p);
    CountPermutation(p, hs, Unchecked);
    SameIds(p, hs);
    SameIds(hs, p);
    assert Ids(p) == Ids(hs);
  }

  /** The accepted spelling first, or the other one first. */
  lemma TwoOrders(hs: seq<string>) returns (p: seq<string>, q: seq<string>)
    requires Mixed(hs)
    ensures multiset(p) == multiset(hs) && multiset(q) == multiset(hs) && |AllDone([], p)| != |AllDone([], q)|
  {
    hide Accepted, EqualFold, IsBlank;
    var i, j :| 0 <= i < |hs| && 0 <= j < |hs| && EqualFold(hs[i], hs[j]) && Accepted(hs[i]) && !Accepted(hs[j]);
    var x, y := hs[i], hs[j];
    var rest := WithoutTwo(hs, i, j);
    p, q := [x, y] + rest, [y, x] + rest;
    FirstTwo(x, y);
    forall h ensures Recorded([x], h) <==> Recorded([y, x], h) {
      RecordedCons([x], h);
      RecordedCons([y, x], h);
      assert [y, x][1..] == [x];
    }
    SameAppended([x], [y, x], rest);
    TwoSteps(x, y, rest);
    TwoSteps(y, x, rest);
  }

  lemma TwoSteps(x: string, y: string, rest: seq<string>)
    ensures AllDone([], [x, y] + rest) == AllDone(AfterDone(AfterDone([], x), y), rest)
  {
    hide AfterDone;
    assert ([x, y] + rest)[1..] == [y] + rest && ([y] + rest)[1..] == rest;
    assert AllDone([], [x, y] + rest) == AllDone(AfterDone([], x), [y] + rest);
  }

  lemma FirstTwo(x: string, y: string)
    requires EqualFold(x, y) && Accepted(x) && !Accepted(y)
    ensures AfterDone(AfterDone([], x), y) == [x] && AfterDone(AfterDone([], y), x) == [y, x]
  {
    hide Accepted, EqualFold;
    BlankAccepted(y);
    BlankFolds(x, y);
    assert [] + [x] == [x] && [] + [y] == [y];
    assert AfterDone([], x) == [x] && AfterDone([], y) == [y];
    RecordedCons([x], y);
    RecordedCons([y], x);
    NothingHas(x);
  }

  lemma BlankAccepted(y: string)
    requires !Accepted(y)
    ensures !IsBlank(y)
  {
    assert IsBlank(y) ==> |y| == 64;
  }

  lemma BlankFolds(x: string, y: string)
    requires EqualFold(x, y)
    ensures (IsBlank(x) <==> IsBlank(y)) && EqualFold(y, x)
  {}

  /** The list without one of its places. */
  lemma Without(hs: seq<string>, i: nat) returns (rest: seq<string>)
    requires i < |hs|
    ensures multiset(hs) == multiset{hs[i]} + multiset(rest)
    ensures rest == hs[..i] + hs[i + 1..]
  {
    rest := hs[..i] + hs[i + 1..];
    assert hs == hs[..i] + ([hs[i]] + hs[i + 1..]);
  }

  lemma WithoutTwo(hs: seq<string>, i: nat, j: nat) returns (rest: seq<string>)
    requires i < |hs| && j < |hs| && i != j
    ensures multiset([hs[i], hs[j]] + rest) == multiset(hs) == multiset([hs[j], hs[i]] + rest)
  {
    var once := Without(hs, i);
    var k := if j < i then j else j - 1;
    assert once[k] == hs[j];
    rest := Without(once, k);
    assert multiset(once) == multiset{hs[j]} + multiset(rest);
    FrontTwo(hs[i], hs[j], rest);
    FrontTwo(hs[j], hs[i], rest);
    assert multiset(hs) == multiset{hs[i]} + (multiset{hs[j]} + multiset(rest));
  }

  lemma FrontTwo(x: string, y: string, rest: seq<string>)
    ensures multiset([x, y] + rest) == multiset{x} + (multiset{y} + multiset(rest))
    ensures multiset([x, y] + rest) == multiset{y} + (multiset{x} + multiset(rest))
  {
    assert [x, y] + rest == [x] + ([y] + rest);
    assert multiset([y] + rest) == multiset{y} + multiset(rest);
  }

  // ---------------------------------------------------------------- runs of Sign

  function AllSigned(codec: AddressCodec, signers: seq<string>, who: seq<bytes>): seq<string>
    decreases |who|
  {
    if who == [] then signers else AllSigned(codec, AfterSign(codec, signers, who[0]), who[1..])
  }

  /** How many of the calls return true. */
  function TimesAdded(codec: AddressCodec, signers: seq<string>, who: seq<bytes>): nat
    decreases |who|
  {
    if who == [] then 0
    else
      (if Signed(codec, signers, who[0]) then 0 else 1)
      + TimesAdded(codec, AfterSign(codec, signers, who[0]), who[1..])
  }

  /** The text of each of these addresses decodes back to it. */
  predicate ReadsBack(codec: AddressCodec, who: seq<bytes>) {
    forall i :: 0 <= i < |who| ==> codec.decode(codec.encode(who[i])) == Some(who[i])
  }

  predicate NoDuplicates(signers: seq<string>) {
    forall i, j :: 0 <= i < j < |signers| ==> signers[i] != signers[j]
  }

  lemma SignedAppend(codec: AddressCodec, signers: seq<string>, a: bytes, b: bytes)
    requires codec.decode(codec.encode(a)) == Some(a)
    ensures Signed(codec, AfterSign(codec, signers, a), b) <==> Signed(codec, signers, b) || a == b
  {
    var next := AfterSign(codec, signers, a);
    if i :| 0 <= i < |signers| && codec.decode(signers[i]) == Some(b) {
      assert codec.decode(next[i]) == Some(b);
    }
    if a == b && !Signed(codec, signers, a) {
      assert codec.decode(next[|signers|]) == Some(b);
    }
  }

  /**
   After any run: a signer is reported exactly when it signed before or is in the
   run, no text is listed twice, and each call that returned true added one entry.
   */
  lemma {:induction false} SignRun(codec: AddressCodec, signers: seq<string>, who: seq<bytes>, a: bytes)
    requires ReadsBack(codec, who) && NoDuplicates(signers)
    ensures Signed(codec, AllSigned(codec, signers, who), a) <==> Signed(codec, signers, a) || a in who
    ensures NoDuplicates(AllSigned(codec, signers, who))
    ensures |AllSigned(codec, signers, who)| == |signers| + TimesAdded(codec, signers, who)
    decreases |who|
  {
    if who != [] {
      var next := AfterSign(codec, signers, who[0]);
      SignedAppend(codec, signers, who[0], a);
      forall i, j | 0 <= i < j < |next| ensures next[i] != next[j] {
        if j == |signers| {
          assert codec.decode(signers[i]) != Some(who[0]);
        }
      }
      assert who == [who[0]] + who[1..];
      SignRun(codec, next, who[1..], a);
    }
  }

  /** A run leaves the signers from before it in front, and appends only texts of signers passed in. */
  lemma {:induction false} SignRunAppends(codec: AddressCodec, signers: seq<string>, who: seq<bytes>)
    ensures signers <= AllSigned(codec, signers, who)
    ensures forall i :: |signers| <= i < |AllSigned(codec, signers, who)| ==>
              exists a :: a in who && AllSigned(codec, signers, who)[i] == codec.encode(a)
    decreases |who|
  {
    hide Signed;
    if who != [] {
      var next, all := AfterSign(codec, signers, who[0]), AllSigned(codec, signers, who);
      SignRunAppends(codec, next, who[1..]);
      assert who == [who[0]] + who[1..];
      forall i | |signers| <= i < |all| ensures exists a :: a in who && all[i] == codec.encode(a) {
        if i < |next| { assert all[i] == codec.encode(who[0]); }
      }
    }
  }

  /** The assumption is needed call by call: an address signs twice exactly when its text does not read back. */
  lemma SignTwice(codec: AddressCodec, signers: seq<string>, a: bytes)
    requires !Signed(codec, signers, a)
    ensures |AllSigned(codec, signers, [a, a])| == |signers| + 2 <==> codec.decode(codec.encode(a)) != Some(a)
  {
    var next := AfterSign(codec, signers, a);
    assert [a, a][1..] == [a] && [a][1..] == [];
    assert AllSigned(codec, signers, [a, a]) == AllSigned(codec, next, [a]);
    assert AllSigned(codec, next, [a]) == AllSigned(codec, AfterSign(codec, next, a), []);
    if codec.decode(codec.encode(a)) == Some(a) {
      SignedAppend(codec, signers, a, a);
    } else {
      forall i | 0 <= i < |next| ensures codec.decode(next[i]) != Some(a) {}
    }
  }
}
