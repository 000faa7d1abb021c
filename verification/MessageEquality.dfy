/**
 `Equals` and `RemoveAttestations` of common/common.go. Equality decides which
 attestations count for the same message, while the signatures are over the
 encoded bytes: the two agree.
 */
module MessageEquality {
  import opened Machine
  import opened Messages
  import opened RoundTrips

  predicate AttestationEquals(a: Attestation, b: Attestation) {
    a.signature == b.signature && a.pubKey == b.pubKey
  }

  predicate NetworkFeeEquals(a: NetworkFee, b: NetworkFee) {
    && a.chain == b.chain
    && a.height == b.height
    && a.transactionSize == b.transactionSize
    && a.transactionRate == b.transactionRate
  }

  predicate ErrataTxEquals(a: ErrataTx, b: ErrataTx) {
    a.chain == b.chain && a.id == b.id
  }

  lemma AttestationEqualsIsSameBytes(a: Attestation, b: Attestation)
    requires |EncodeAttestation(a)| < TWO_63 && |EncodeAttestation(b)| < TWO_63
    ensures AttestationEquals(a, b) <==> EncodeAttestation(a) == EncodeAttestation(b)
  {
    hide EncodeAttestation, DecodeAttestation;
    AttestationRoundTrip(a);
    AttestationRoundTrip(b);
  }

  lemma NetworkFeeEqualsIsSameBytes(a: NetworkFee, b: NetworkFee)
    requires |EncodeNetworkFee(a)| < TWO_63 && |EncodeNetworkFee(b)| < TWO_63
    ensures NetworkFeeEquals(a, b) <==> EncodeNetworkFee(a) == EncodeNetworkFee(b)
  {
    hide EncodeNetworkFee, DecodeNetworkFee;
    NetworkFeeRoundTrip(a);
    NetworkFeeRoundTrip(b);
  }

  lemma ErrataTxEqualsIsSameBytes(a: ErrataTx, b: ErrataTx)
    requires |EncodeErrataTx(a)| < TWO_63 && |EncodeErrataTx(b)| < TWO_63
    ensures ErrataTxEquals(a, b) <==> EncodeErrataTx(a) == EncodeErrataTx(b)
  {
    hide EncodeErrataTx, DecodeErrataTx;
    ErrataTxRoundTrip(a);
    ErrataTxRoundTrip(b);
  }

  lemma SamePriceFeedBytes(a: PriceFeed, b: PriceFeed)
    requires |EncodePriceFeed(a)| < TWO_63 && |EncodePriceFeed(b)| < TWO_63
    ensures a == b <==> EncodePriceFeed(a) == EncodePriceFeed(b)
  {
    hide EncodePriceFeed, DecodePriceFeed;
    PriceFeedRoundTrip(a);
    PriceFeedRoundTrip(b);
  }

  /** `PriceFeed.Equals`; a nil feed equals nothing, not even nil. */
  method PriceFeedEquals(pf: Option<PriceFeed>, other: Option<PriceFeed>) returns (eq: bool)
    requires pf.Some? ==> |EncodePriceFeed(pf.value)| < TWO_63
    requires other.Some? ==> |EncodePriceFeed(other.value)| < TWO_63
    ensures eq <==> pf.Some? && other.Some? && EncodePriceFeed(pf.value) == EncodePriceFeed(other.value)
  {
    hide EncodePriceFeed;
    if pf.None? || other.None? { return false; }
    var a, b := pf.value, other.value;
    SamePriceFeedBytes(a, b);
    if a.time != b.time { return false; }
    if a.version != b.version { return false; }
    if |a.rates| != |b.rates| { return false; }
    for i := 0 to |a.rates|
      invariant a.rates[..i] == b.rates[..i]
    {
      if a.rates[i].amount != b.rates[i].amount { return false; }
      if a.rates[i].decimals != b.rates[i].decimals { return false; }
      assert a.rates[..i + 1] == a.rates[..i] + [a.rates[i]];
      assert b.rates[..i + 1] == b.rates[..i] + [b.rates[i]];
    }
    assert a.rates == a.rates[..|a.rates|] && b.rates == b.rates[..|b.rates|];
    return true;
  }

  // ------------------------------------------------------------- attestations

  /** The attestations that are not removed, in their order. */
  function Surviving(existing: seq<Attestation>, toRemove: seq<Attestation>): seq<Attestation> {
    if existing == [] then []
    else
      var rest := Surviving(existing[1..], toRemove);
      if exists j :: 0 <= j < |toRemove| && AttestationEquals(existing[0], toRemove[j]) then rest
      else [existing[0]] + rest
  }

  /** Nothing else is lost, nothing is gained: every attestation keeps all its copies or none. */
  lemma {:induction false} SurvivingCounts(existing: seq<Attestation>, toRemove: seq<Attestation>, a: Attestation)
    ensures multiset(Surviving(existing, toRemove))[a] == if a in toRemove then 0 else multiset(existing)[a]
  {
    if existing != [] {
      SurvivingCounts(existing[1..], toRemove, a);
      assert existing == [existing[0]] + existing[1..];
    }
  }

  lemma {:induction false} SurvivingConcat(p: seq<Attestation>, q: seq<Attestation>, toRemove: seq<Attestation>)
    ensures Surviving(p + q, toRemove) == Surviving(p, toRemove) + Surviving(q, toRemove)
  {
    if p == [] {
      assert p + q == q;
    } else {
      assert (p + q)[1..] == p[1..] + q;
      SurvivingConcat(p[1..], q, toRemove);
    }
  }

  /** Removing two batches in turn is removing them at once, in either order. */
  lemma {:induction false} SurvivingTwice(existing: seq<Attestation>, x: seq<Attestation>, y: seq<Attestation>)
    ensures Surviving(Surviving(existing, x), y) == Surviving(existing, x + y) == Surviving(existing, y + x)
  {
    if existing != [] {
      var a, rest := existing[0], Surviving(existing[1..], x);
      SurvivingTwice(existing[1..], x, y);
      assert (exists j :: 0 <= j < |x| && AttestationEquals(a, x[j])) <==> a in x;
      assert (exists j :: 0 <= j < |y| && AttestationEquals(a, y[j])) <==> a in y;
      assert (exists j :: 0 <= j < |x + y| && AttestationEquals(a, (x + y)[j])) <==> a in x + y;
      assert (exists j :: 0 <= j < |y + x| && AttestationEquals(a, (y + x)[j])) <==> a in y + x;
      assert ([a] + rest)[1..] == rest;
    }
  }

  method RemoveAttestationsFrom(existing: seq<Attestation>, toRemove: seq<Attestation>)
    returns (newAtts: seq<Attestation>)
    ensures newAtts == Surviving(existing, toRemove)
  {
    newAtts := [];
    for i := 0 to |existing|
      invariant newAtts == Surviving(existing[..i], toRemove)
    {
      var found := false;
      for j := 0 to |toRemove|
        invariant found <==> exists k :: 0 <= k < j && AttestationEquals(existing[i], toRemove[k])
      {
        if AttestationEquals(existing[i], toRemove[j]) { found := true; }
      }
      assert existing[..i + 1] == existing[..i] + [existing[i]];
      SurvivingConcat(existing[..i], [existing[i]], toRemove);
      if !found { newAtts := newAtts + [existing[i]]; }
    }
    assert existing[..|existing|] == existing;
  }

  class QuorumNetworkFee {
    var networkFee: NetworkFee
    var attestations: seq<Attestation>

    constructor (networkFee: NetworkFee, attestations: seq<Attestation>)
      ensures this.networkFee == networkFee && this.attestations == attestations
    {
      this.networkFee := networkFee;
      this.attestations := attestations;
    }

    /** True when no attestation is left, that is when every one was in the argument. */
    method RemoveAttestations(atts: seq<Attestation>) returns (empty: bool)
      modifies this`attestations
      ensures attestations == Surviving(old(attestations), atts)
      ensures empty <==> forall a :: a in old(attestations) ==> a in atts
    {
      var newAtts := RemoveAttestationsFrom(attestations, atts);
      forall a | a in attestations
        ensures a in newAtts <==> a !in atts
      {
        SurvivingCounts(attestations, atts, a);
        assert a in multiset(newAtts) <==> a in newAtts;
        assert a in multiset(attestations);
      }
      forall a | a in newAtts
        ensures a in attestations && a !in atts
      {
        SurvivingCounts(attestations, atts, a);
        assert a in multiset(newAtts);
        assert a in multiset(attestations);
      }
      if newAtts != [] { assert newAtts[0] in newAtts; }
      attestations := newAtts;
      return |newAtts| == 0;
    }
  }
}
