/**
 `PubKey.GetAddress` and the cache that all its callers share. Any number of
 callers run as interleaved steps: take the read lock, look the key up, release,
 derive with no lock held, take the write lock, store, release.
 */
module AddressCache {
  import opened Text
  import opened Machine

  type Address = string

  const NO_ADDRESS: Address := ""

  /** The branches of the `switch` on the chain. */
  datatype Kind = Bech32(chain: string) | Bitcoin | Zcash | Evm

  /** The foreign address derivations, deterministic; `None` is an error. */
  type Derivation = (Kind, string) -> Option<Address>

  const EVM_CHAINS: seq<string> := ["ETH", "AVAX", "BSC", "BASE", "POL"]

  predicate IsEvm(chain: string) {
    exists i :: 0 <= i < |EVM_CHAINS| && EqualFold(chain, EVM_CHAINS[i])
  }

  /** Which derivation a chain gets: the cases compare the raw text, the last test folds case. */
  function KindOf(chain: string): Option<Kind> {
    if chain == "GAIA" || chain == "THOR" || chain == "NOBLE" then Some(Bech32(chain))
    else if chain == "BTC" then Some(Bitcoin)
    else if chain == "ZEC" then Some(Zcash)
    else if IsEvm(chain) then Some(Evm)
    else None
  }

  datatype Outcome = Answer(address: Address) | Failed

  /** What `GetAddress` returns when there is no cache. */
  function Uncached(d: Derivation, chain: string, pubKey: string): Outcome {
    if pubKey == "" then Answer(NO_ADDRESS)
    else
      match KindOf(chain)
      case None => Answer(NO_ADDRESS)
      case Some(kind) =>
        match d(kind, pubKey)
        case None => Failed
        case Some(a) => Answer(a)
  }

  function OutcomeOf(derived: Option<Address>): Outcome {
    match derived case None => Failed case Some(a) => Answer(a)
  }

  /** What each chain gets, by its literal name; a spelling of an EVM name is enough, any other text gets nothing. */
  predicate Dispatched(d: Derivation, chain: string, pubKey: string, r: Outcome) {
    && (chain == "GAIA" ==> r == OutcomeOf(d(Bech32("GAIA"), pubKey)))
    && (chain == "THOR" ==> r == OutcomeOf(d(Bech32("THOR"), pubKey)))
    && (chain == "NOBLE" ==> r == OutcomeOf(d(Bech32("NOBLE"), pubKey)))
    && (chain == "BTC" ==> r == OutcomeOf(d(Bitcoin, pubKey)))
    && (chain == "ZEC" ==> r == OutcomeOf(d(Zcash, pubKey)))
    && (Upper(chain) in {"ETH", "AVAX", "BSC", "BASE", "POL"} ==> r == OutcomeOf(d(Evm, pubKey)))
    && (chain !in {"GAIA", "THOR", "NOBLE", "BTC", "ZEC"} && Upper(chain) !in {"ETH", "AVAX", "BSC", "BASE", "POL"}
        ==> r == Answer(""))
  }

  lemma EvmNames(chain: string)
    ensures IsEvm(chain) <==> Upper(chain) in {"ETH", "AVAX", "BSC", "BASE", "POL"}
  {
    assert Upper("ETH") == "ETH" && Upper("AVAX") == "AVAX" && Upper("BSC") == "BSC";
    assert Upper("BASE") == "BASE" && Upper("POL") == "POL";
    hide Upper;
    var names := EVM_CHAINS;
    assert names[0] == "ETH" && names[1] == "AVAX" && names[2] == "BSC" && names[3] == "BASE" && names[4] == "POL";
  }

  /** Without a cache the chain's own derivation answers; an empty key has no address. */
  lemma UncachedIsDispatched(d: Derivation, chain: string, pubKey: string)
    ensures pubKey == "" ==> Uncached(d, chain, pubKey) == Answer("")
    ensures pubKey != "" ==> Dispatched(d, chain, pubKey, Uncached(d, chain, pubKey))
  {
    EvmNames(chain);
    if chain in {"GAIA", "THOR", "NOBLE", "BTC", "ZEC"} {
      assert Upper("GAIA") == "GAIA" && Upper("THOR") == "THOR" && Upper("NOBLE") == "NOBLE";
      assert Upper("BTC") == "BTC" && Upper("ZEC") == "ZEC";
    }
    hide Upper, IsEvm;
  }

  /** The address a call derives and would store, if any. */
  function Derived(d: Derivation, chain: string, pubKey: string): Option<Address> {
    match KindOf(chain) case None => None case Some(kind) => d(kind, pubKey)
  }

  function Key(chain: string, pubKey: string): string {
    Upper(chain) + "-" + pubKey
  }

  // ---------------------------------------------------------------- the keys

  function IsDash(c: char): bool { c == '-' }

  /** A key read backwards: the chain up to the first dash and the public key after it. */
  function KeyChain(key: string): string { key[..Find(key, IsDash)] }

  function KeyPubKey(key: string): string {
    var k := Find(key, IsDash);
    if k < |key| then key[k + 1..] else ""
  }

  lemma EvmUpper(chain: string)
    ensures IsEvm(Upper(chain)) <==> IsEvm(chain)
  {
    UpperTwice(chain);
    forall i | 0 <= i < |EVM_CHAINS|
      ensures EqualFold(Upper(chain), EVM_CHAINS[i]) <==> EqualFold(chain, EVM_CHAINS[i])
    {}
  }

  const CASE_SENSITIVE: set<string> := {"GAIA", "THOR", "NOBLE", "BTC", "ZEC"}

  lemma UpperNames()
    ensures forall name :: name in CASE_SENSITIVE ==> Upper(name) == name
    ensures forall i :: 0 <= i < |EVM_CHAINS| ==> Upper(EVM_CHAINS[i]) == EVM_CHAINS[i]
  {
    assert Upper("GAIA") == "GAIA" && Upper("THOR") == "THOR" && Upper("NOBLE") == "NOBLE";
    assert Upper("BTC") == "BTC" && Upper("ZEC") == "ZEC";
    assert Upper("ETH") == "ETH" && Upper("AVAX") == "AVAX" && Upper("BSC") == "BSC";
    assert Upper("BASE") == "BASE" && Upper("POL") == "POL";
  }

  lemma NoDashInNames(chain: string)
    requires chain in CASE_SENSITIVE || IsEvm(chain)
    ensures '-' !in Upper(chain)
    ensures chain in CASE_SENSITIVE ==> Upper(chain) == chain && !IsEvm(chain)
  {
    UpperNames();
    hide Upper;
  }

  lemma SupportedChain(chain: string)
    requires KindOf(chain).Some?
    ensures KindOf(Upper(chain)) == KindOf(chain) && '-' !in Upper(chain)
  {
    hide Upper, IsEvm;
    EvmUpper(chain);
    NoDashInNames(chain);
    if Upper(chain) in CASE_SENSITIVE { UpperTwice(chain); NoDashInNames(Upper(chain)); }
  }

  /** A chain name without a dash is found again in the key. */
  lemma KeySplits(chain: string, pubKey: string)
    requires '-' !in Upper(chain)
    ensures KeyChain(Key(chain, pubKey)) == Upper(chain) && KeyPubKey(Key(chain, pubKey)) == pubKey
  {
    var key := Key(chain, pubKey);
    assert key[|chain|] == '-';
    assert forall i :: 0 <= i < |chain| ==> key[i] == Upper(chain)[i];
    FindAt(key, IsDash, |chain|);
  }

  /** The only address that can ever be stored under a key. */
  function Entry(d: Derivation, key: string): Option<Address> {
    if KeyPubKey(key) == "" then None else Derived(d, KeyChain(key), KeyPubKey(key))
  }

  lemma DerivedIsEntry(d: Derivation, chain: string, pubKey: string)
    requires KindOf(chain).Some? && pubKey != ""
    ensures Entry(d, Key(chain, pubKey)) == Derived(d, chain, pubKey)
  {
    SupportedChain(chain);
    KeySplits(chain, pubKey);
  }

  // ----------------------------------------------------------------- one caller

  predicate CacheOk(d: Derivation, cache: map<string, Address>) {
    forall key :: key in cache ==> Entry(d, key) == Some(cache[key])
  }

  class AddressBook {
    var cache: map<string, Address>

    constructor ()
      ensures cache == map[]
    {
      cache := map[];
    }

    /** A call that no other call overlaps. */
    method GetAddress(d: Derivation, chain: string, pubKey: string) returns (r: Outcome)
      requires CacheOk(d, cache)
      modifies this`cache
      ensures CacheOk(d, cache)
      ensures forall key :: key in old(cache) ==> key in cache && cache[key] == old(cache)[key]
      ensures r == if pubKey != "" && Key(chain, pubKey) in old(cache) then Answer(old(cache)[Key(chain, pubKey)])
                   else Uncached(d, chain, pubKey)
      ensures pubKey != "" && Key(chain, pubKey) !in old(cache) ==> Dispatched(d, chain, pubKey, r)
      ensures pubKey == "" ==> r == Answer("")
      ensures cache == if pubKey != "" && Key(chain, pubKey) !in old(cache) && Derived(d, chain, pubKey).Some?
                       then old(cache)[Key(chain, pubKey) := Derived(d, chain, pubKey).value]
                       else old(cache)
      ensures r.Failed? ==> cache == old(cache)
    {
      hide Dispatched;
      UncachedIsDispatched(d, chain, pubKey);
      if pubKey == "" { return Answer(NO_ADDRESS); }
      var key := Key(chain, pubKey);
      if key in cache { return Answer(cache[key]); }
      var kind := KindOf(chain);
      if kind.None? { return Answer(NO_ADDRESS); }
      var address := d(kind.value, pubKey);
      if address.None? { return Failed; }
      DerivedIsEntry(d, chain, pubKey);
      cache := cache[key := address.value];
      return Answer(address.value);
    }
  }

  // --------------------------------------------------------------- many callers

  datatype Call = Call(chain: string, pubKey: string)

  /** Where a caller stands; the address it carries, once it has one. */
  datatype Phase =
    | WaitRead
    | Reading
    | Hit(found: Address)
    | Miss
    | Deriving
    | WaitWrite(derived: Address)
    | Writing(derived: Address)
    | Written(derived: Address)
    | Returned(outcome: Outcome)

  datatype Caller = Caller(call: Call, phase: Phase)

  /** The callers, the shared map, and the read-write lock. */
  datatype State = State(callers: map<nat, Caller>, cache: map<string, Address>, readers: set<nat>, writer: Option<nat>)

  const START := State(map[], map[], {}, None)

  datatype Action =
    | Begin(t: nat, call: Call)
    | LockRead(t: nat)
    | LookUp(t: nat)
    | UnlockRead(t: nat)
    | Derive(t: nat)
    | LockWrite(t: nat)
    | Store(t: nat)
    | UnlockWrite(t: nat)

  predicate Enabled(s: State, a: Action) {
    if a.Begin? then a.t !in s.callers
    else
      && a.t in s.callers
      && var phase := s.callers[a.t].phase;
      match a
      case LockRead(_) => phase.WaitRead? && s.writer.None?
      case LookUp(_) => phase.Reading?
      case UnlockRead(_) => phase.Hit? || phase.Miss?
      case Derive(_) => phase.Deriving?
      case LockWrite(_) => phase.WaitWrite? && s.writer.None? && s.readers == {}
      case Store(_) => phase.Writing?
      case UnlockWrite(_) => phase.Written?
  }

  function At(s: State, t: nat, phase: Phase): State
    requires t in s.callers
  {
    s.(callers := s.callers[t := s.callers[t].(phase := phase)])
  }

  function Do(d: Derivation, s: State, a: Action): State
    requires Enabled(s, a)
  {
    if a.Begin? then
      var first := if a.call.pubKey == "" then Returned(Answer(NO_ADDRESS)) else WaitRead;
      s.(callers := s.callers[a.t := Caller(a.call, first)])
    else
      var Caller(call, phase) := s.callers[a.t];
      var key := Key(call.chain, call.pubKey);
      match a
      case LockRead(t) => At(s, t, Reading).(readers := s.readers + {t})
      case LookUp(t) => At(s, t, if key in s.cache then Hit(s.cache[key]) else Miss)
      case UnlockRead(t) =>
        At(s, t, if phase.Hit? then Returned(Answer(phase.found)) else Deriving).(readers := s.readers - {t})
      case Derive(t) =>
        At(s, t, match Derived(d, call.chain, call.pubKey)
                 case None => Returned(Uncached(d, call.chain, call.pubKey))
                 case Some(address) => WaitWrite(address))
      case LockWrite(t) => At(s, t, Writing(phase.derived)).(writer := Some(t))
      case Store(t) => At(s, t, Written(phase.derived)).(cache := s.cache[key := phase.derived])
      case UnlockWrite(t) => At(s, t, Returned(Answer(phase.derived))).(writer := None)
  }

  /** The state after a run, or `None` when some action was not possible at its turn. */
  function Run(d: Derivation, s: State, run: seq<Action>): Option<State>
    decreases |run|
  {
    if run == [] then Some(s)
    else if Enabled(s, run[0]) then Run(d, Do(d, s, run[0]), run[1..])
    else None
  }

  // ---------------------------------------------------------------- invariant

  predicate HoldsRead(p: Phase) { p.Reading? || p.Hit? || p.Miss? }

  predicate HoldsWrite(p: Phase) { p.Writing? || p.Written? }

  predicate CallerOk(d: Derivation, c: Caller) {
    var Call(chain, pubKey) := c.call;
    match c.phase
    case Hit(a) => pubKey != "" && Entry(d, Key(chain, pubKey)) == Some(a)
    case WaitWrite(a) => pubKey != "" && KindOf(chain).Some? && Derived(d, chain, pubKey) == Some(a)
    case Writing(a) => pubKey != "" && KindOf(chain).Some? && Derived(d, chain, pubKey) == Some(a)
    case Written(a) => pubKey != "" && KindOf(chain).Some? && Derived(d, chain, pubKey) == Some(a)
    case Returned(o) =>
      o == Uncached(d, chain, pubKey) ||
      (pubKey != "" && Entry(d, Key(chain, pubKey)).Some? && o == Answer(Entry(d, Key(chain, pubKey)).value))
    case _ => pubKey != ""
  }

  predicate LockOk(s: State) {
    && (forall t :: t in s.readers ==> t in s.callers)
    && (forall t :: t in s.callers ==> (t in s.readers <==> HoldsRead(s.callers[t].phase)))
    && (forall t :: t in s.callers ==> (s.writer == Some(t) <==> HoldsWrite(s.callers[t].phase)))
    && (s.writer.Some? ==> s.readers == {} && s.writer.value in s.callers)
  }

  predicate Inv(d: Derivation, s: State) {
    && CacheOk(d, s.cache)
    && (forall t :: t in s.callers ==> CallerOk(d, s.callers[t]))
    && LockOk(s)
  }

  lemma StepKeepsCallers(d: Derivation, s: State, a: Action)
    requires Inv(d, s) && Enabled(s, a)
    ensures CacheOk(d, Do(d, s, a).cache)
    ensures forall t :: t in Do(d, s, a).callers ==> CallerOk(d, Do(d, s, a).callers[t])
  {
    hide Key, Entry, LockOk;
    if !a.Begin? {
      var Call(chain, pubKey) := s.callers[a.t].call;
      if KindOf(chain).Some? && pubKey != "" { DerivedIsEntry(d, chain, pubKey); }
    }
  }

  lemma StepKeepsLocks(d: Derivation, s: State, a: Action)
    requires LockOk(s) && Enabled(s, a)
    ensures LockOk(Do(d, s, a))
  {
    hide Key, Derived, Uncached;
  }

  lemma {:induction false} RunKeepsInv(d: Derivation, s: State, run: seq<Action>)
    requires Inv(d, s) && Run(d, s, run).Some?
    ensures Inv(d, Run(d, s, run).value)
    decreases |run|
  {
    hide Do, Enabled, CacheOk, CallerOk, LockOk;
    if run != [] {
      StepKeepsCallers(d, s, run[0]);
      StepKeepsLocks(d, s, run[0]);
      RunKeepsInv(d, Do(d, s, run[0]), run[1..]);
    }
  }

  // ------------------------------------------------------------- what runs keep

  /** While one caller may write the map no other holds the lock in any way. */
  lemma NoRace(d: Derivation, run: seq<Action>, t: nat, u: nat)
    requires Run(d, START, run).Some?
    requires var s := Run(d, START, run).value;
             t in s.callers && u in s.callers && t != u && HoldsWrite(s.callers[t].phase)
    ensures var phase := Run(d, START, run).value.callers[u].phase;
            !HoldsRead(phase) && !HoldsWrite(phase)
  {
    hide Run, CallerOk;
    RunKeepsInv(d, START, run);
    var s := Run(d, START, run).value;
    assert s.writer == Some(t);
  }

  /** The caller that holds the lock can move, and without one whoever waits can take it. */
  lemma SomeoneMoves(d: Derivation, s: State, t: nat) returns (a: Action)
    requires Inv(d, s) && t in s.callers && !s.callers[t].phase.Returned?
    ensures !a.Begin? && Enabled(s, a)
  {
    hide CallerOk;
    var u := t;
    if s.writer.Some? {
      u := s.writer.value;
    } else if s.readers != {} {
      u :| u in s.readers;
    }
    a := match s.callers[u].phase
      case WaitRead => LockRead(u)
      case Reading => LookUp(u)
      case Hit(_) => UnlockRead(u)
      case Miss => UnlockRead(u)
      case Deriving => Derive(u)
      case WaitWrite(_) => LockWrite(u)
      case Writing(_) => Store(u)
      case Written(_) => UnlockWrite(u)
      case Returned(_) => Derive(u);
  }

  /** As long as a call has not returned some caller can move: the lock never blocks everybody. */
  lemma NoDeadlock(d: Derivation, run: seq<Action>, t: nat) returns (a: Action)
    requires Run(d, START, run).Some?
    requires var s := Run(d, START, run).value; t in s.callers && !s.callers[t].phase.Returned?
    ensures !a.Begin? && Enabled(Run(d, START, run).value, a)
  {
    hide Run, Inv, Enabled;
    StartInv(d);
    RunKeepsInv(d, START, run);
    a := SomeoneMoves(d, Run(d, START, run).value, t);
  }

  lemma StartInv(d: Derivation)
    ensures Inv(d, START)
  {}

  // ---------------------------------------------------------- every call returns

  /** How many actions a caller can still take. */
  function StepsLeft(p: Phase): nat {
    match p
    case WaitRead => 7
    case Reading => 6
    case Miss => 5
    case Deriving => 4
    case WaitWrite(_) => 3
    case Writing(_) => 2
    case Written(_) => 1
    case Hit(_) => 1
    case Returned(_) => 0
  }

  function StepsOf(s: State, t: nat): nat {
    if t in s.callers then StepsLeft(s.callers[t].phase) else 0
  }

  /** What the callers below `n` have left together. */
  function Pending(s: State, n: nat): nat {
    if n == 0 then 0 else Pending(s, n - 1) + StepsOf(s, n - 1)
  }

  lemma StepUsesOne(d: Derivation, s: State, a: Action, t: nat)
    requires Enabled(s, a)
    ensures t != a.t ==> StepsOf(Do(d, s, a), t) == StepsOf(s, t)
    ensures t == a.t && !a.Begin? ==> StepsOf(Do(d, s, a), t) < StepsOf(s, t)
    ensures t == a.t && a.Begin? ==> StepsOf(s, t) == 0 && StepsOf(Do(d, s, a), t) <= 7
  {
    hide Key, Derived, Uncached;
  }

  /** Every action but `Begin` lowers what is left; `Begin` adds one call. */
  lemma {:induction false} StepLowers(d: Derivation, s: State, a: Action, n: nat)
    requires Enabled(s, a)
    ensures Pending(Do(d, s, a), n) + (if a.t < n then 1 else 0)
            <= Pending(s, n) + (if a.Begin? && a.t < n then 8 else 0)
  {
    hide Enabled, Do, StepsOf;
    if n > 0 {
      StepLowers(d, s, a, n - 1);
      StepUsesOne(d, s, a, n - 1);
    }
  }

  /** The number of calls started in a run. */
  function Begins(run: seq<Action>): nat {
    if run == [] then 0 else Begins(run[1..]) + if run[0].Begin? then 1 else 0
  }

  predicate AllBelow(run: seq<Action>, n: nat) { forall i :: 0 <= i < |run| ==> run[i].t < n }

  lemma {:induction false} RunLowers(d: Derivation, s: State, run: seq<Action>, n: nat)
    requires Run(d, s, run).Some? && AllBelow(run, n)
    ensures |run| + Pending(Run(d, s, run).value, n) <= Pending(s, n) + 8 * Begins(run)
    decreases |run|
  {
    hide Enabled, Do, Pending;
    if run != [] {
      StepLowers(d, s, run[0], n);
      RunLowers(d, Do(d, s, run[0]), run[1..], n);
    }
  }

  lemma Above(ts: set<nat>) returns (n: nat)
    ensures forall t :: t in ts ==> t < n
  {
    if ts == {} {
      n := 0;
    } else {
      var t :| t in ts;
      n := Above(ts - {t});
      if n <= t { n := t + 1; }
      assert forall x :: x in ts ==> x == t || x in ts - {t};
    }
  }

  lemma {:induction false} NothingPending(n: nat)
    ensures Pending(START, n) == 0
  {
    if n > 0 { NothingPending(n - 1); }
  }

  /** No schedule keeps the callers busy for ever: a call takes at most seven actions after its first. */
  lemma RunsAreBounded(d: Derivation, run: seq<Action>)
    requires Run(d, START, run).Some?
    ensures |run| <= 8 * Begins(run)
  {
    var ts := set i | 0 <= i < |run| :: run[i].t;
    var n := Above(ts);
    assert forall i :: 0 <= i < |run| ==> run[i].t in ts;
    NothingPending(n);
    RunLowers(d, START, run, n);
  }

  predicate AllReturned(s: State) {
    forall t :: t in s.callers ==> s.callers[t].phase.Returned?
  }

  /** From a state that some run reaches, the calls under way can all be brought to an end. */
  lemma {:induction false} FinishFrom(d: Derivation, s: State, n: nat) returns (rest: seq<Action>)
    requires Inv(d, s) && forall t :: t in s.callers ==> t < n
    ensures Begins(rest) == 0 && Run(d, s, rest).Some? && AllReturned(Run(d, s, rest).value)
    ensures Run(d, s, rest).value.callers.Keys == s.callers.Keys
    decreases Pending(s, n)
  {
    hide Enabled, Do, CallerOk, LockOk, CacheOk, Pending, Inv;
    if AllReturned(s) {
      rest := [];
    } else {
      var t :| t in s.callers && !s.callers[t].phase.Returned?;
      var a := SomeoneMoves(d, s, t);
      var s' := Do(d, s, a);
      OneStep(d, s, a);
      StepLowers(d, s, a, n);
      var rest' := FinishFrom(d, s', n);
      rest := [a] + rest';
      RunOne(d, s, a, rest');
      assert rest[1..] == rest';
    }
  }

  lemma OneStep(d: Derivation, s: State, a: Action)
    requires Inv(d, s) && Enabled(s, a) && !a.Begin?
    ensures Inv(d, Do(d, s, a)) && a.t in s.callers && Do(d, s, a).callers.Keys == s.callers.Keys
  {
    StepKeepsCallers(d, s, a);
    StepKeepsLocks(d, s, a);
    hide CacheOk, CallerOk, LockOk, Key, Derived, Uncached;
  }

  /**
   Every run can go on, without a new call, to a state in which every call that was
   started has returned; with `NoDeadlock` and `RunsAreBounded`, a schedule that starts
   no new call and lets somebody move as long as it can ends there.
   */
  lemma EveryCallReturns(d: Derivation, run: seq<Action>) returns (rest: seq<Action>)
    requires Run(d, START, run).Some?
    ensures Begins(rest) == 0 && Run(d, START, run + rest).Some?
    ensures var s := Run(d, START, run + rest).value;
            AllReturned(s) && s.callers.Keys == Run(d, START, run).value.callers.Keys
  {
    hide Run, Inv, AllReturned;
    StartInv(d);
    RunKeepsInv(d, START, run);
    var s := Run(d, START, run).value;
    var n := Above(s.callers.Keys);
    rest := FinishFrom(d, s, n);
    RunConcat(d, START, run, rest);
  }

  lemma {:induction false} RunKeepsEntries(d: Derivation, s: State, run: seq<Action>, key: string)
    requires Inv(d, s) && Run(d, s, run).Some? && key in s.cache
    ensures key in Run(d, s, run).value.cache && Run(d, s, run).value.cache[key] == s.cache[key]
    decreases |run|
  {
    hide CallerOk, LockOk, Entry;
    if run != [] {
      StepKeepsCallers(d, s, run[0]);
      StepKeepsLocks(d, s, run[0]);
      RunKeepsEntries(d, Do(d, s, run[0]), run[1..], key);
    }
  }

  /**
   Every entry, whoever stored it, is the successful derivation for the chain and
   public key its text spells, and no later call changes it.
   */
  lemma EntriesAreDerivations(d: Derivation, run: seq<Action>, later: seq<Action>, key: string)
    requires Run(d, START, run).Some? && key in Run(d, START, run).value.cache
    requires Run(d, Run(d, START, run).value, later).Some?
    ensures var s := Run(d, START, run).value;
            var s' := Run(d, s, later).value;
            && Uncached(d, KeyChain(key), KeyPubKey(key)) == Answer(s.cache[key])
            && Derived(d, KeyChain(key), KeyPubKey(key)) == Some(s.cache[key])
            && key in s'.cache && s'.cache[key] == s.cache[key]
  {
    hide Run;
    RunKeepsInv(d, START, run);
    RunKeepsEntries(d, Run(d, START, run).value, later, key);
  }

  // ------------------------------------------------- when the cache is invisible

  /**
   The call shares its key with a chain and public key that derive to a different
   address than the call itself: a caller can see this from the two arguments.
   */
  predicate Shadowed(d: Derivation, chain: string, pubKey: string) {
    var entry := Entry(d, Key(chain, pubKey));
    pubKey != "" && entry.Some? && Answer(entry.value) != Uncached(d, chain, pubKey)
  }

  /** Some interleaving in which a call with these arguments returns something else than without a cache. */
  ghost predicate CanDiffer(d: Derivation, chain: string, pubKey: string) {
    exists run, t :: Differs(d, chain, pubKey, run, t)
  }

  ghost predicate Differs(d: Derivation, chain: string, pubKey: string, run: seq<Action>, t: nat) {
    && Run(d, START, run).Some?
    && var s := Run(d, START, run).value;
    && t in s.callers && s.callers[t].call == Call(chain, pubKey) && s.callers[t].phase.Returned?
    && s.callers[t].phase.outcome != Uncached(d, chain, pubKey)
  }

  /** A key is always spelled by the pair that is read off it. */
  lemma KeyOfParts(chain: string, pubKey: string)
    requires pubKey != ""
    ensures var key := Key(chain, pubKey); KeyPubKey(key) != "" && Key(KeyChain(key), KeyPubKey(key)) == key
  {
    var key := Key(chain, pubKey);
    var k := Find(key, IsDash);
    assert key[|chain|] == '-';
    assert k <= |chain|;
    assert KeyChain(key) == Upper(chain)[..k];
    assert Upper(KeyChain(key)) == KeyChain(key);
    assert key == key[..k] + "-" + key[k + 1..];
  }

  lemma RunConcat(d: Derivation, s: State, p: seq<Action>, q: seq<Action>)
    requires Run(d, s, p).Some?
    ensures Run(d, s, p + q) == Run(d, Run(d, s, p).value, q)
    decreases |p|
  {
    hide Do, Enabled;
    if p == [] {
      assert p + q == q;
    } else {
      assert (p + q)[1..] == p[1..] + q;
      RunConcat(d, Do(d, s, p[0]), p[1..], q);
    }
  }

  lemma RunOne(d: Derivation, s: State, a: Action, q: seq<Action>)
    requires Enabled(s, a)
    ensures Run(d, s, [a] + q) == Run(d, Do(d, s, a), q)
  {
    hide Do, Enabled;
    assert ([a] + q)[1..] == q;
  }

  /** A first call, up to its miss. */
  lemma MissAlone(d: Derivation, c: Call, rest: seq<Action>) returns (run: seq<Action>)
    requires c.pubKey != ""
    ensures Run(d, START, run) == Run(d, State(map[0 := Caller(c, Deriving)], map[], {}, None), rest)
  {
    hide Key, Derived, Uncached, Run;
    var s1 := Do(d, START, Begin(0, c));
    var s2 := Do(d, s1, LockRead(0));
    var s3 := Do(d, s2, LookUp(0));
    var r4 := [UnlockRead(0)] + rest;
    var r3 := [LookUp(0)] + r4;
    var r2 := [LockRead(0)] + r3;
    run := [Begin(0, c)] + r2;
    RunOne(d, START, Begin(0, c), r2);
    RunOne(d, s1, LockRead(0), r3);
    RunOne(d, s2, LookUp(0), r4);
    RunOne(d, s3, UnlockRead(0), rest);
    assert Do(d, s3, UnlockRead(0)) == State(map[0 := Caller(c, Deriving)], map[], {}, None);
  }

  /** A call that runs alone from the start and stores. */
  lemma StoreAlone(d: Derivation, chain: string, pubKey: string, address: Address) returns (run: seq<Action>)
    requires pubKey != "" && Derived(d, chain, pubKey) == Some(address)
    ensures Run(d, START, run) ==
            Some(State(map[0 := Caller(Call(chain, pubKey), Returned(Answer(address)))],
                       map[Key(chain, pubKey) := address], {}, None))
  {
    hide Key, Derived, Uncached, Run;
    var c := Call(chain, pubKey);
    var s4 := State(map[0 := Caller(c, Deriving)], map[], {}, None);
    var s5 := Do(d, s4, Derive(0));
    var s6 := Do(d, s5, LockWrite(0));
    var s7 := Do(d, s6, Store(0));
    var s8 := Do(d, s7, UnlockWrite(0));
    var r8 := [UnlockWrite(0)] + [];
    var r7 := [Store(0)] + r8;
    var r6 := [LockWrite(0)] + r7;
    run := MissAlone(d, c, [Derive(0)] + r6);
    RunOne(d, s4, Derive(0), r6);
    RunOne(d, s5, LockWrite(0), r7);
    RunOne(d, s6, Store(0), r8);
    RunOne(d, s7, UnlockWrite(0), []);
    RunNothing(d, s8);
    assert s8.callers == map[0 := Caller(c, Returned(Answer(address)))];
  }

  lemma RunNothing(d: Derivation, s: State)
    ensures Run(d, s, []) == Some(s)
  {}

  /** A second call that finds the entry. */
  lemma HitAlone(d: Derivation, s: State, chain: string, pubKey: string) returns (run: seq<Action>)
    requires pubKey != "" && 1 !in s.callers && s.writer.None? && Key(chain, pubKey) in s.cache
    ensures Run(d, s, run).Some?
    ensures var s', found := Run(d, s, run).value, s.cache[Key(chain, pubKey)];
            1 in s'.callers && s'.callers[1] == Caller(Call(chain, pubKey), Returned(Answer(found)))
  {
    hide Key, Derived, Run;
    var c := Call(chain, pubKey);
    var s1 := Do(d, s, Begin(1, c));
    var s2 := Do(d, s1, LockRead(1));
    var s3 := Do(d, s2, LookUp(1));
    var s4 := Do(d, s3, UnlockRead(1));
    var r4 := [UnlockRead(1)] + [];
    var r3 := [LookUp(1)] + r4;
    var r2 := [LockRead(1)] + r3;
    run := [Begin(1, c)] + r2;
    RunOne(d, s, Begin(1, c), r2);
    RunOne(d, s1, LockRead(1), r3);
    RunOne(d, s2, LookUp(1), r4);
    RunOne(d, s3, UnlockRead(1), []);
    RunNothing(d, s4);
  }

  /**
   In every interleaving of any number of callers every call returns what it would
   return with no cache, unless its arguments are shadowed; and if they are, some
   interleaving shows it.
   */
  lemma CacheVisibleIff(d: Derivation, chain: string, pubKey: string)
    ensures CanDiffer(d, chain, pubKey) <==> Shadowed(d, chain, pubKey)
  {
    forall run, t | Differs(d, chain, pubKey, run, t)
      ensures Shadowed(d, chain, pubKey)
    {
      hide Run, Key, Entry, Uncached;
      RunKeepsInv(d, START, run);
    }
    if Shadowed(d, chain, pubKey) {
      var run, t := ShowDifference(d, chain, pubKey);
      assert Differs(d, chain, pubKey, run, t);
    }
  }

  lemma ShowDifference(d: Derivation, chain: string, pubKey: string) returns (run: seq<Action>, t: nat)
    requires Shadowed(d, chain, pubKey)
    ensures Differs(d, chain, pubKey, run, t)
  {
    hide Run, Key, KeyChain, KeyPubKey, Derived, Uncached;
    var key := Key(chain, pubKey);
    var address := Entry(d, key).value;
    KeyOfParts(chain, pubKey);
    var first := StoreAlone(d, KeyChain(key), KeyPubKey(key), address);
    var s := Run(d, START, first).value;
    var second := HitAlone(d, s, chain, pubKey);
    RunConcat(d, START, first, second);
    run, t := first + second, 1;
  }

  // ------------------------------------------------------------------ a lone call

  /** At most one call, which has found nothing and is the only one to have stored anything. */
  predicate Lone(d: Derivation, s: State) {
    && |s.callers| <= 1
    && (forall t :: t in s.callers ==> LoneCaller(d, s.callers[t], s.cache))
    && (s.callers == map[] ==> s.cache == map[])
  }

  predicate LoneCaller(d: Derivation, c: Caller, cache: map<string, Address>) {
    var Call(chain, pubKey) := c.call;
    match c.phase
    case Hit(_) => false
    case Returned(o) => o == Uncached(d, chain, pubKey)
    case Written(a) => pubKey != "" && Derived(d, chain, pubKey) == Some(a)
    case Writing(a) => pubKey != "" && cache == map[] && Derived(d, chain, pubKey) == Some(a)
    case WaitWrite(a) => pubKey != "" && cache == map[] && Derived(d, chain, pubKey) == Some(a)
    case _ => pubKey != "" && cache == map[]
  }

  lemma StepKeepsLone(d: Derivation, s: State, a: Action)
    requires Lone(d, s) && Enabled(s, a) && (a.Begin? ==> s.callers == map[])
    ensures Lone(d, Do(d, s, a)) && Do(d, s, a).callers != map[]
    ensures s.callers == map[] ==> a.Begin?
  {
    hide Key, KindOf;
    var s' := Do(d, s, a);
    if a.Begin? {
      assert s'.callers == map[a.t := s'.callers[a.t]];
    } else {
      OnlyOne(s.callers, a.t);
      assert s'.callers.Keys == s.callers.Keys;
      assert |s'.callers.Keys| == |s'.callers|;
    }
  }

  lemma OnlyOne(callers: map<nat, Caller>, t: nat)
    requires |callers| <= 1 && t in callers
    ensures callers.Keys == {t} && |callers.Keys| == |callers|
  {
    var rest := callers.Keys - {t};
    assert callers.Keys == rest + {t};
    assert |callers.Keys| == |callers|;
  }

  lemma {:induction false} RunKeepsLone(d: Derivation, s: State, run: seq<Action>)
    requires Lone(d, s) && Run(d, s, run).Some?
    requires Begins(run) <= if s.callers == map[] then 1 else 0
    ensures Lone(d, Run(d, s, run).value)
    decreases |run|
  {
    hide Lone, Do, Enabled;
    if run != [] {
      StepKeepsLone(d, s, run[0]);
      RunKeepsLone(d, Do(d, s, run[0]), run[1..]);
    }
  }

  /** A call that no other call precedes or overlaps gets the derivation of its chain, whatever the run. */
  lemma LoneCallIsDispatched(d: Derivation, run: seq<Action>, t: nat)
    requires Run(d, START, run).Some? && Begins(run) == 1
    requires var s := Run(d, START, run).value; t in s.callers && s.callers[t].phase.Returned?
    ensures var c := Run(d, START, run).value.callers[t];
            if c.call.pubKey == "" then c.phase.outcome == Answer("")
            else Dispatched(d, c.call.chain, c.call.pubKey, c.phase.outcome)
  {
    hide Run, Dispatched, Uncached;
    RunKeepsLone(d, START, run);
    var c := Run(d, START, run).value.callers[t];
    UncachedIsDispatched(d, c.call.chain, c.call.pubKey);
  }

  /** `Chain.Valid` accepts only upper-case letters: on such chains the cache is never visible. */
  lemma ValidChainNotShadowed(d: Derivation, chain: string, pubKey: string)
    requires forall i :: 0 <= i < |chain| ==> 'A' <= chain[i] <= 'Z'
    ensures !CanDiffer(d, chain, pubKey)
  {
    assert Upper(chain) == chain;
    hide CanDiffer;
    KeySplits(chain, pubKey);
    CacheVisibleIff(d, chain, pubKey);
  }

  /** What the two parts of a call's key derive to. */
  function KeyDerives(d: Derivation, chain: string, pubKey: string): Option<Address> {
    var key := Key(chain, pubKey);
    Derived(d, KeyChain(key), KeyPubKey(key))
  }

  /** A text with a dash is no chain: its calls return nothing, unless the key reads as that of another chain. */
  lemma DashShadowed(d: Derivation, chain: string, pubKey: string)
    requires '-' in chain && pubKey != ""
    ensures Shadowed(d, chain, pubKey) <==>
            KeyDerives(d, chain, pubKey).Some? && KeyDerives(d, chain, pubKey).value != NO_ADDRESS
  {
    var i :| 0 <= i < |chain| && chain[i] == '-';
    assert Upper(chain)[i] == '-';
    hide Upper, IsEvm, Key;
    if KindOf(chain).Some? { SupportedChain(chain); }
    KeyOfParts(chain, pubKey);
  }

  lemma NameShadowed(d: Derivation, chain: string, pubKey: string)
    requires '-' !in Upper(chain) && pubKey != ""
    ensures Shadowed(d, chain, pubKey) <==>
            && chain != Upper(chain) && Upper(chain) in CASE_SENSITIVE
            && KeyDerives(d, chain, pubKey).Some? && KeyDerives(d, chain, pubKey).value != NO_ADDRESS
  {
    hide Upper, IsEvm;
    KeySplits(chain, pubKey);
    EvmUpper(chain);
    if chain in CASE_SENSITIVE { NoDashInNames(chain); }
    if Upper(chain) in CASE_SENSITIVE { NoDashInNames(Upper(chain)); }
  }

  lemma UpperDash(chain: string)
    ensures '-' in Upper(chain) ==> '-' in chain
  {
    if '-' in Upper(chain) {
      var i :| 0 <= i < |chain| && Upper(chain)[i] == '-';
      assert chain[i] == '-';
    }
  }

  /**
   The cache is visible exactly for another spelling of one of the five names that the
   `switch` compares as they are, and for a chain text with a dash, once the chain and
   public key that the call's key spells do derive.
   */
  lemma SpellingShadowed(d: Derivation, chain: string, pubKey: string)
    ensures CanDiffer(d, chain, pubKey) <==>
            && pubKey != "" && ('-' in chain || (chain != Upper(chain) && Upper(chain) in CASE_SENSITIVE))
            && KeyDerives(d, chain, pubKey).Some? && KeyDerives(d, chain, pubKey).value != NO_ADDRESS
  {
    hide CanDiffer, Upper, KeyDerives;
    CacheVisibleIff(d, chain, pubKey);
    if pubKey != "" {
      UpperDash(chain);
      if '-' in chain { DashShadowed(d, chain, pubKey); } else { NameShadowed(d, chain, pubKey); }
    }
  }

  /** `btc` returns no address on its own, and the one of `BTC` once that has been looked up. */
  lemma LowerBtcShadowed(pubKey: string)
    requires pubKey != ""
    ensures CanDiffer((kind, key) => Some("bc1" + key), "btc", pubKey)
  {
    hide CanDiffer;
    var d: Derivation := (kind, key) => Some("bc1" + key);
    assert Upper("btc") == "BTC";
    KeySplits("btc", pubKey);
    SpellingShadowed(d, "btc", pubKey);
  }
}
