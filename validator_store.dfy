// The stake component's per-validator bookkeeping: the keyed store a validator's
// definition, state, bonding state, voting power, rates and uptime live in,
// the reads that assemble them, the rule that schedules unbonding, and the
// setters that validate before they write.

module ValidatorStore {
  import opened Wrappers

  const U64_MAX: int := 0xFFFF_FFFF_FFFF_FFFF
  type U64 = x: int | 0 <= x <= U64_MAX

  /** `Amount` is an unsigned 128-bit quantity. */
  type Amount = x: int | 0 <= x < 0x1_0000_0000_0000_0000_0000_0000_0000_0000

  /** The largest voting power CometBFT accepts for a validator (2^60 - 1). */
  const MAX_VOTING_POWER: int := 1152921504606846975

  datatype IdentityKey = IdentityKey(bytes: seq<bv8>)
  datatype ConsensusKey = ConsensusKey(bytes: seq<bv8>)
  type Address = a: seq<bv8> | |a| == 20 witness seq(20, _ => 0)

  datatype State = Defined | Inactive | Active | Jailed | Tombstoned | Disabled
  datatype BondingState = Bonded | Unbonding(unbondsAtEpoch: U64) | Unbonded

  /** A validator definition; only the two keys are inspected here. */
  datatype Validator = Validator(identityKey: IdentityKey, consensusKey: ConsensusKey, details: seq<bv8>)
  datatype RateData = RateData(epochIndex: U64, rewardRate: Amount, exchangeRate: Amount)
  datatype Uptime = Uptime(asOfHeight: U64, signed: seq<bool>)
  datatype StakeParameters = StakeParameters(unbondingEpochs: U64)

  datatype Status = Status(identityKey: IdentityKey, state: State, votingPower: Amount, bondingState: BondingState)
  datatype Info = Info(validator: Validator, status: Status, rateData: RateData)

  datatype StoreError = BondingStateNotTracked | VotingPowerExceedsMaximum | InvalidInitialState

  /** The keyed state, one map per key family of the validator namespace. */
  datatype Store = Store(
    definitions: map<IdentityKey, Validator>,
    states: map<IdentityKey, State>,
    bondingStates: map<IdentityKey, BondingState>,
    powers: map<IdentityKey, Amount>,
    rates: map<IdentityKey, RateData>,
    prevRates: map<IdentityKey, RateData>,
    uptimes: map<IdentityKey, Uptime>,
    byConsensusKey: map<ConsensusKey, IdentityKey>,
    byCometbftAddress: map<Address, ConsensusKey>)

  /** A keyed read: the stored value, or nothing. */
  function Get<K, V>(m: map<K, V>, k: K): (r: Option<V>)
    ensures r.Some? <==> k in m
    ensures r.Some? ==> r.value == m[k]
  {
    if k in m then Some(m[k]) else None
  }

  // ---------------------------------------------------------------- reads

  function GetValidatorDefinition(s: Store, id: IdentityKey): Option<Validator> { Get(s.definitions, id) }
  function GetValidatorState(s: Store, id: IdentityKey): Option<State> { Get(s.states, id) }
  function GetValidatorBondingState(s: Store, id: IdentityKey): Option<BondingState> { Get(s.bondingStates, id) }
  function GetValidatorPower(s: Store, id: IdentityKey): Option<Amount> { Get(s.powers, id) }
  function GetValidatorRate(s: Store, id: IdentityKey): Option<RateData> { Get(s.rates, id) }
  function GetPrevValidatorRate(s: Store, id: IdentityKey): Option<RateData> { Get(s.prevRates, id) }
  function GetValidatorUptime(s: Store, id: IdentityKey): Option<Uptime> { Get(s.uptimes, id) }

  /** The status exists only when state, power and bonding state are all stored. */
  function GetValidatorStatus(s: Store, id: IdentityKey): (r: Option<Status>)
    ensures r.Some? <==> id in s.states && id in s.powers && id in s.bondingStates
    ensures r.Some? ==> (r.value.identityKey == id && r.value.state == s.states[id]
      && r.value.votingPower == s.powers[id] && r.value.bondingState == s.bondingStates[id])
  {
    match (GetValidatorState(s, id), GetValidatorPower(s, id), GetValidatorBondingState(s, id))
    case (Some(state), Some(power), Some(bonding)) => Some(Status(id, state, power, bonding))
    case _ => None
  }

  /** The info exists only when definition, status and current rate are all present. */
  function GetValidatorInfo(s: Store, id: IdentityKey): (r: Option<Info>)
    ensures r.Some? <==> id in s.definitions && GetValidatorStatus(s, id).Some? && id in s.rates
    ensures r.Some? ==> (r.value.validator == s.definitions[id]
      && r.value.status == GetValidatorStatus(s, id).value && r.value.rateData == s.rates[id])
  {
    match (GetValidatorDefinition(s, id), GetValidatorStatus(s, id), GetValidatorRate(s, id))
    case (Some(validator), Some(status), Some(rate)) => Some(Info(validator, status, rate))
    case _ => None
  }

  /** The consensus key of a defined validator, read from its definition. */
  function FetchValidatorConsensusKey(s: Store, id: IdentityKey): (r: Option<ConsensusKey>)
    ensures r.Some? <==> id in s.definitions
    ensures r.Some? ==> r.value == s.definitions[id].consensusKey
  {
    match GetValidatorDefinition(s, id)
    case Some(v) => Some(v.consensusKey)
    case None => None
  }

  /** Consensus key -> identity key -> definition; absent as soon as a link is. */
  function GetValidatorByConsensusKey(s: Store, ck: ConsensusKey): (r: Option<Validator>)
    ensures r.Some? <==> ck in s.byConsensusKey && s.byConsensusKey[ck] in s.definitions
    ensures r.Some? ==> r.value == s.definitions[s.byConsensusKey[ck]]
  {
    match Get(s.byConsensusKey, ck)
    case Some(id) => GetValidatorDefinition(s, id)
    case None => None
  }

  /** Address -> consensus key -> identity key -> definition. */
  function GetValidatorByCometbftAddress(s: Store, address: Address): (r: Option<Validator>)
    ensures r.Some? <==> (address in s.byCometbftAddress
      && s.byCometbftAddress[address] in s.byConsensusKey
      && s.byConsensusKey[s.byCometbftAddress[address]] in s.definitions)
    ensures r.Some? ==> r.value == s.definitions[s.byConsensusKey[s.byCometbftAddress[address]]]
  {
    match Get(s.byCometbftAddress, address)
    case Some(ck) => GetValidatorByConsensusKey(s, ck)
    case None => None
  }

  /** The lookup tables agree with the definitions they point at. */
  ghost predicate LookupsConsistent(s: Store) {
    forall ck | ck in s.byConsensusKey && s.byConsensusKey[ck] in s.definitions ::
      s.definitions[s.byConsensusKey[ck]].consensusKey == ck
  }

  /** With consistent lookups, a validator found by consensus key carries that
      key, and fetching its consensus key gives the key back. */
  lemma ConsensusLookupRoundTrip(s: Store, ck: ConsensusKey)
    requires LookupsConsistent(s)
    requires GetValidatorByConsensusKey(s, ck).Some?
    ensures GetValidatorByConsensusKey(s, ck).value.consensusKey == ck
    ensures FetchValidatorConsensusKey(s, s.byConsensusKey[ck]) == Some(ck)
  {
    assert s.byConsensusKey[ck] in s.definitions;
  }

  // ------------------------------------------------------------ unbonding

  /** Unsigned 64-bit addition that stops at the maximum instead of wrapping. */
  function SaturatingAdd(a: U64, b: U64): (r: U64)
    ensures a <= r && b <= r
    ensures a + b <= U64_MAX ==> r == a + b
    ensures a + b > U64_MAX ==> r == U64_MAX
  {
    if a + b <= U64_MAX then a + b else U64_MAX
  }

  function Min(a: U64, b: U64): (r: U64)
    ensures r <= a && r <= b && (r == a || r == b)
  {
    if a <= b then a else b
  }

  /** The epoch at which an undelegation begun at `startingEpoch` completes. */
  function ComputeUnbondingEpoch(s: Store, params: StakeParameters, id: IdentityKey, startingEpoch: U64): (r: Result<U64, StoreError>)
    ensures r.Err? <==> id !in s.bondingStates
    ensures r.Err? ==> r.error == BondingStateNotTracked
    ensures r.Ok? ==> r.value <= SaturatingAdd(startingEpoch, params.unbondingEpochs)
    ensures r.Ok? && s.bondingStates[id] == Bonded ==> r.value == SaturatingAdd(startingEpoch, params.unbondingEpochs)
    ensures r.Ok? && s.bondingStates[id].Unbonding? ==>
      r.value <= s.bondingStates[id].unbondsAtEpoch
      && (r.value == s.bondingStates[id].unbondsAtEpoch || r.value == SaturatingAdd(startingEpoch, params.unbondingEpochs))
    ensures r.Ok? && s.bondingStates[id] == Unbonded ==> r.value == startingEpoch
  {
    match GetValidatorBondingState(s, id)
    case None => Err(BondingStateNotTracked)
    case Some(bonding) =>
      var upperBound := SaturatingAdd(startingEpoch, params.unbondingEpochs);
      match bonding
      case Bonded => Ok(upperBound)
      case Unbonding(unbondsAt) => Ok(Min(unbondsAt, upperBound))
      case Unbonded => Ok(startingEpoch)
  }

  /** An undelegation started later never completes earlier. */
  lemma UnbondingEpochMonotone(s: Store, params: StakeParameters, id: IdentityKey, a: U64, b: U64)
    requires a <= b
    requires id in s.bondingStates
    ensures ComputeUnbondingEpoch(s, params, id, a).value <= ComputeUnbondingEpoch(s, params, id, b).value
  {
    var ua := SaturatingAdd(a, params.unbondingEpochs);
    var ub := SaturatingAdd(b, params.unbondingEpochs);
    assert ua <= ub;
  }

  /**
   * Scheduling is stable: once a bonded pool's unbonding epoch `e` is computed and stored
   * as `Unbonding(e)`, every undelegation begun at the same epoch or later gets `e` again.
   */
  lemma UnbondingScheduleStable(s: Store, params: StakeParameters, id: IdentityKey, start: U64, later: U64)
    requires Get(s.bondingStates, id) == Some(Bonded)
    requires start <= later
    ensures var e := ComputeUnbondingEpoch(s, params, id, start).value;
      ComputeUnbondingEpoch(s.(bondingStates := s.bondingStates[id := Unbonding(e)]), params, id, later) == Ok(e)
  {
    var e := ComputeUnbondingEpoch(s, params, id, start).value;
    assert e == SaturatingAdd(start, params.unbondingEpochs);
    assert e <= SaturatingAdd(later, params.unbondingEpochs);
  }

  // --------------------------------------------------------------- writes

  /** Voting power is written only when it does not pass the maximum. */
  function WithValidatorPower(s: Store, id: IdentityKey, power: Amount): (r: Result<Store, StoreError>)
    ensures r.Ok? <==> power <= MAX_VOTING_POWER
    ensures r.Err? ==> r.error == VotingPowerExceedsMaximum
    ensures r.Ok? ==> GetValidatorPower(r.value, id) == Some(power)
    ensures r.Ok? ==> forall k :: k != id ==> GetValidatorPower(r.value, k) == GetValidatorPower(s, k)
    ensures r.Ok? ==> r.value.(powers := s.powers) == s
  {
    if power > MAX_VOTING_POWER then Err(VotingPowerExceedsMaximum)
    else Ok(s.(powers := s.powers[id := power]))
  }

  /** Only `Active` and `Defined` may be a validator's first state. */
  function WithInitialValidatorState(s: Store, id: IdentityKey, initial: State): (r: Result<Store, StoreError>)
    ensures r.Ok? <==> initial == Active || initial == Defined
    ensures r.Err? ==> r.error == InvalidInitialState
    ensures r.Ok? ==> GetValidatorState(r.value, id) == Some(initial)
    ensures r.Ok? ==> forall k :: k != id ==> GetValidatorState(r.value, k) == GetValidatorState(s, k)
    ensures r.Ok? ==> r.value.(states := s.states) == s
  {
    if !(initial == Active || initial == Defined) then Err(InvalidInitialState)
    else Ok(s.(states := s.states[id := initial]))
  }

  /** Every stored voting power is within the maximum. */
  ghost predicate PowersBounded(s: Store) {
    forall k | k in s.powers :: s.powers[k] <= MAX_VOTING_POWER
  }

  /** Writing power through the checked setter keeps every stored power bounded,
      so every assembled status reports a bounded power. */
  lemma WithValidatorPowerKeepsBound(s: Store, id: IdentityKey, power: Amount, k: IdentityKey)
    requires PowersBounded(s)
    requires WithValidatorPower(s, id, power).Ok?
    ensures PowersBounded(WithValidatorPower(s, id, power).value)
    ensures GetValidatorStatus(WithValidatorPower(s, id, power).value, k).Some? ==>
      GetValidatorStatus(WithValidatorPower(s, id, power).value, k).value.votingPower <= MAX_VOTING_POWER
  {
    var s' := WithValidatorPower(s, id, power).value;
    forall j | j in s'.powers
      ensures s'.powers[j] <= MAX_VOTING_POWER
    {
      if j != id {
        assert GetValidatorPower(s', j) == GetValidatorPower(s, j);
      }
    }
  }

  /** After a power write, the status of that validator reports the new power,
      and exists exactly when its state and bonding state do. */
  lemma StatusAfterPowerWrite(s: Store, id: IdentityKey, power: Amount)
    requires power <= MAX_VOTING_POWER
    ensures GetValidatorStatus(WithValidatorPower(s, id, power).value, id) ==
      if id in s.states && id in s.bondingStates
      then Some(Status(id, s.states[id], power, s.bondingStates[id]))
      else None
  {
  }

  /**
   * An initial-state write shows through the assembled reads: the validator's status, when
   * it exists, carries the new state (Active or Defined), and every other validator's status
   * and info are unchanged.
   */
  lemma StatusAfterInitialState(s: Store, id: IdentityKey, initial: State, k: IdentityKey)
    requires WithInitialValidatorState(s, id, initial).Ok?
    ensures var s' := WithInitialValidatorState(s, id, initial).value;
      && (GetValidatorStatus(s', id).Some? <==> id in s.powers && id in s.bondingStates)
      && (GetValidatorStatus(s', id).Some? ==> GetValidatorStatus(s', id).value.state in {Active, Defined})
      && (k != id ==> GetValidatorStatus(s', k) == GetValidatorStatus(s, k) && GetValidatorInfo(s', k) == GetValidatorInfo(s, k))
  {
    var s' := WithInitialValidatorState(s, id, initial).value;
    if k != id {
      assert GetValidatorState(s', k) == GetValidatorState(s, k);
      assert s'.definitions == s.definitions && s'.rates == s.rates;
    }
  }

  /** The unbonding rule after a validator's bonding state is set to `Unbonding`. */
  lemma UnbondingAfterBondingWrite(s: Store, params: StakeParameters, id: IdentityKey, at: U64, start: U64)
    ensures ComputeUnbondingEpoch(s.(bondingStates := s.bondingStates[id := Unbonding(at)]), params, id, start)
      == Ok(Min(at, SaturatingAdd(start, params.unbondingEpochs)))
  {
  }

  /** The mutable state handle the setters write through. */
  class ValidatorData {
    var store: Store

    constructor (initial: Store)
      ensures store == initial
    {
      store := initial;
    }

    method SetValidatorUptime(id: IdentityKey, uptime: Uptime)
      modifies this
      ensures store == old(store).(uptimes := old(store).uptimes[id := uptime])
    {
      store := store.(uptimes := store.uptimes[id := uptime]);
    }

    method SetValidatorBondingState(id: IdentityKey, state: BondingState)
      modifies this
      ensures store == old(store).(bondingStates := old(store).bondingStates[id := state])
    {
      store := store.(bondingStates := store.bondingStates[id := state]);
    }

    /** Fails without writing when the power passes the maximum; otherwise
        writes the power key of `id` and nothing else. */
    method SetValidatorPower(id: IdentityKey, power: Amount) returns (r: Result<(), StoreError>)
      modifies this
      ensures r.Ok? <==> power <= MAX_VOTING_POWER
      ensures r.Err? ==> r.error == VotingPowerExceedsMaximum && store == old(store)
      ensures r.Ok? ==> store == WithValidatorPower(old(store), id, power).value
    {
      if power > MAX_VOTING_POWER {
        return Err(VotingPowerExceedsMaximum);
      }
      store := store.(powers := store.powers[id := power]);
      r := Ok(());
    }

    /** Fails without writing unless the state is Active or Defined; otherwise
        writes the state key of `id` and nothing else. */
    method SetInitialValidatorState(id: IdentityKey, initial: State) returns (r: Result<(), StoreError>)
      modifies this
      ensures r.Ok? <==> initial == Active || initial == Defined
      ensures r.Err? ==> r.error == InvalidInitialState && store == old(store)
      ensures r.Ok? ==> store == WithInitialValidatorState(old(store), id, initial).value
    {
      if !(initial == Active || initial == Defined) {
        return Err(InvalidInitialState);
      }
      store := store.(states := store.states[id := initial]);
      r := Ok(());
    }

    method SetValidatorRateData(id: IdentityKey, rate: RateData)
      modifies this
      ensures store == old(store).(rates := old(store).rates[id := rate])
    {
      store := store.(rates := store.rates[id := rate]);
    }

    method SetPrevValidatorRate(id: IdentityKey, rate: RateData)
      modifies this
      ensures store == old(store).(prevRates := old(store).prevRates[id := rate])
    {
      store := store.(prevRates := store.prevRates[id := rate]);
    }
  }
}
