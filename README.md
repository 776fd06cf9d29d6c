# Eternity commitment tree and validator bookkeeping, in Dafny

This project models two pieces of a shielded-pool node.

**The eternity tree** (`src/eternity.rs`). This is the top level of a sparse, append-only
quad-tree of note commitments. An eternity holds up to 65,536 epochs. An epoch holds up to
65,536 blocks, and a block holds up to 65,536 commitments. Next to the tree sits an index
from each commitment still witnessed to its position (epoch, block, item). `Eternity` is an
object whose methods update both in place, and it is modelled as a Dafny `class` with the
fields `index: map<Commitment, WithinEternity>` and `inner: Tier<Tier<Tier<Commitment>>>`.
The class invariant `Valid()` says two things:

- every tier fits its capacity;
- the index maps exactly the commitments that can still be witnessed, each to its own position.

Every public mutating method keeps `Valid()`. Each method states its new tier and index in terms of
specification functions on the old ones. For example, `ItemInsertion` says what a single
insertion does, and `ForgetSet` says what forgetting a set of positions does. Lemmas then
prove what the library promises about those functions:

- forgetting never changes the root or `len()`, and forgetting twice composes;
- keeping a commitment and inserting only its digest give the same root;
- a kept commitment is witnessed at the position it was given, and the proof recombines to the root;
- re-indexing an epoch or a block forgets exactly the positions the re-indexed commitments had before;
- `len()` behaves as the code computes it (see below).

Hashes are a free term algebra. A commitment's digest is `Leaf(c)`, and a tier's hash is
`Node(height, child digests)`. This makes a summarised child indistinguishable from the kept
one, which is what forgetting and root insertion rely on. It also makes hashing injective
(`Hashing.HashOfInjective`): the model assumes no collisions.

The code that `eternity.rs` calls, `Tier`, `EpochMut` and `Block`, is not part of this model.
Its behaviour is stated only as far as `eternity.rs` relies on it:

- a tier appends at its end and hands the child back when it is full;
- an epoch opens an empty block for a first item;
- an epoch refuses an item when its open block is full (`BlockFull`) or only a digest
  (`BlockForgotten`);
- inserting an item or a block reports the positions it displaces from the index.

**Validator bookkeeping** (`validator_store.rs` of the stake component). The keyed state is
a `Store`: one map per key family (definitions, states, bonding states, powers, rates,
previous rates, uptimes, and the two lookup tables). The reads are pure functions, and the
plain keyed reads all go through `Get`. The rule that schedules unbonding is a pure function.
The setters are methods of the class `ValidatorData`, which holds the store. The two setters
that validate are specified by pure functions (`WithValidatorPower`,
`WithInitialValidatorState`), and lemmas prove properties of those functions.

### What `len()` computes

The doc comment of `len()` (`src/eternity.rs:349-355`) calls it "the total number of
Commitments or Hashes represented". The formula below it (`src/eternity.rs:356-368`) computes
`((epochs as u64) << 32) + (((x as u32) << 16) as u64)`. Here `x` depends on the focus:

- 0 when there is no epoch;
- `u32::MAX` when the open epoch is only a digest;
- otherwise it comes from the open epoch's own focus: 0 when it has no block, `u16::MAX` when
  the open block is a digest, and the open block's size otherwise.

`Tier::len()` returns a 16-bit count, so `x` is a 16-bit value in every arm except the
`u32::MAX` one. The shift by 16 happens in 32 bits and loses bits only in that arm, where
`u32::MAX << 16` is `0xFFFF_0000`. The model counts slots with an unbounded `nat` and
truncates `(x << 16)` modulo 2^32. `EternityTier.LenBelowCapacity` proves that this is the
source's value whenever every count fits in 16 bits. That means fewer than 65,536 epochs, and
an open block of fewer than 65,536 items. For a full tier, see "## Left out".


The model follows the code, and its lemmas show that the value is not a count:

- `Eternity.LenAfterFirstItem`: the first insertion gives `0x1_0001_0000`, not 1;
- `Eternity.LenDropsOnEmptyBlock`: opening an empty block afterwards lowers the value.

### Errors

The code keeps separate errors for an open epoch or block that is only a digest
(`EpochForgotten`, `BlockForgotten`) and for one that is full (`EpochFull`, `BlockFull`).
The model keeps all four, with the conditions under which each is returned.

## Model

| member | source | states |
|---|---|---|
| Eternity.Eternity.constructor | src/eternity.rs:92-94 | A new eternity is valid, has an empty index and no epoch, `len()` is 0 and it is empty |
| Eternity.Eternity.Root | src/eternity.rs:104-106 | The root is the hash of the whole tier; the lemmas on `ForgetSet` and `WithItem` say when it is unchanged |
| Eternity.Eternity.Witness | src/eternity.rs:128-139 | No proof for an unindexed commitment; on a valid eternity every indexed commitment has one; the proof names the commitment and its indexed position, and its path recombines with the commitment's digest into the current root |
| Eternity.Eternity.Forget | src/eternity.rs:145-159 | Returns true iff the commitment was indexed; it leaves the index; its position is forgotten, or nothing changes when it was absent; root and `len()` are unchanged; it can no longer be witnessed; validity is kept |
| Eternity.Eternity.ForgetReplaced | src/eternity.rs:219-225 | The loop over replaced positions leaves the tier equal to `ForgetSet` of all of them, given each was a witnessable leaf |
| Eternity.Eternity.InsertCommitmentOrRoot | src/eternity.rs:162-188 | Matches `ItemInsertion` on the old state: it fails iff the specification fails, with the same error and no change; on success the tier and index are the specified ones; validity is kept. An empty eternity first gets an empty epoch |
| Eternity.Eternity.UpdateInsert | src/eternity.rs:168-187 | The `update` call of an insertion: maps the epoch's refusal to `EpochForgotten`, `BlockFull` or `BlockForgotten`, and forgets the replaced position, ending in `ItemInsertion`'s state |
| Eternity.Eternity.Insert | src/eternity.rs:117-123 | Succeeds iff the tier accepts an item; on error returns the same commitment and changes nothing; the new root is the same whether the commitment is kept or forgotten; a kept commitment is witnessed at the next position; a forgotten one adds no index entry |
| Eternity.Eternity.InsertBlock | src/eternity.rs:198-228 | Succeeds iff the tier accepts a block; on error the block comes back and nothing changes, with `EpochForgotten` iff the open epoch is a digest and `EpochFull` iff it is kept (and so full); on success every commitment of the block is indexed in the new block, and the positions they had are forgotten |
| Eternity.Eternity.InsertBlockRoot | src/eternity.rs:237-266 | Succeeds iff the tier accepts a block; `EpochForgotten` iff the open epoch is a digest; `EpochFull` iff it fails while the open epoch is kept; the index never changes; on success the block root is appended as a new block |
| Eternity.Eternity.InsertEpoch | src/eternity.rs:274-283 | Fails iff 65,536 epochs exist, returning the epoch with nothing changed; otherwise appends the epoch and indexes its commitments at the new epoch number, forgetting their previous positions |
| Eternity.Eternity.InsertEpochRoot | src/eternity.rs:291-303 | Fails iff full; the index never changes; on success the root is the old epoch digests followed by the given root |
| Eternity.Eternity.InsertEpochOrRoot | src/eternity.rs:306-347 | Fails iff full, returning the epoch rebuilt with its own index, with nothing changed; on success the index gains every epoch entry at the new epoch number, and the positions those commitments had are forgotten; a root adds no entries |
| Eternity.Eternity.Reindex | src/eternity.rs:324-343 | The loop of `insert_epoch_or_root`: the index becomes old index plus the relocated epoch entries, and the tier forgets exactly the evicted previous positions |
| Eternity.Eternity.Len | src/eternity.rs:356-369 | Zero exactly when there is no epoch; on a well-formed tier it fits 64 bits and its high 32 bits are the number of epochs |
| Eternity.Eternity.IsEmpty | src/eternity.rs:372-374 | True iff `len()` is 0 |
| Eternity.Eternity.Update | src/eternity.rs:378-397 | No handle iff there is no epoch or the last epoch is a digest; otherwise the handle is the last epoch, numbered `len - 1`, and its leaves are exactly the eternity's leaves in that epoch |
| Eternity.ItemInsertionOpened | src/eternity.rs:163-166 | Opening a first empty epoch does not change what inserting an item does |
| Eternity.ItemInsertionValid | src/eternity.rs:162-188 | A successful insertion keeps the tier well formed and the index exact |
| Eternity.ItemInsertionWitnessed | src/eternity.rs:128-139 | After keeping a commitment it is indexed at the next position, and that position holds it as a witnessable leaf |
| Eternity.ItemInsertionSameRoot | src/eternity.rs:117-123 | Keeping a commitment and inserting only its digest give the same root; the digest leaves the index unchanged |
| Eternity.ItemInsertionLen | src/eternity.rs:356-369 | After one insertion into a kept open block of `b` items, `len()` is epochs·2^32 plus `(b+1)·2^16`, taken modulo 2^32; the modulus matters only when the block reaches 65,536 items, a count the source's 16-bit `block.len()` cannot hold |
| Eternity.LenAfterFirstItem | src/eternity.rs:356-369 | The first insertion into a new eternity gives `len() == 0x1_0001_0000` |
| Eternity.LenDropsOnEmptyBlock | src/eternity.rs:356-369 | Opening an empty block after one item lowers `len()` to `0x1_0000_0000` |
| EternityTier.TierForget | src/eternity.rs:150-153 | Forgetting one position reports whether a witnessable leaf was there, and equals `ForgetSet` of that position |
| EternityTier.ForgetSetLeafAt | src/eternity.rs:145-159 | After forgetting a set, its positions hold no witnessable leaf and every other position is unchanged |
| EternityTier.ForgetPreservesRoot | src/eternity.rs:145-159 | Forgetting any set of positions leaves the root unchanged |
| EternityTier.ForgetSetTwice | src/eternity.rs:219-225 | Forgetting one set and then another equals forgetting their union |
| EternityTier.ForgetNothing | src/eternity.rs:180 | Forgetting no position changes nothing |
| EternityTier.ForgetSetWellFormed | src/eternity.rs:145-159 | Forgetting keeps every tier within capacity |
| EternityTier.ForgetPreservesLen | src/eternity.rs:356-369 | Forgetting never changes `len()` |
| EternityTier.ForgetKeepsIndexExact | src/eternity.rs:145-159 | Removing a commitment from the index and forgetting its position keeps the index exact |
| EternityTier.TierWitness | src/eternity.rs:131-132 | A path exists iff the position holds a witnessable leaf; its leaf hash is that commitment's digest, and it recombines into the root |
| EternityTier.LenBelowCapacity | src/eternity.rs:356-369 | While every count fits in 16 bits, `len()` is below 2^48 and equals epochs·2^32 plus `x·2^16`, with `0xFFFF_0000` for a digest epoch: only the `u32::MAX` arm loses bits |
| EternityTier.LenBounds | src/eternity.rs:356-369 | On a well-formed tier the count fits in 64 bits, is zero iff there is no epoch, and its high bits are the epoch count |
| EternityTier.WithItemLeaves | src/eternity.rs:168-176 | The next position was empty; after an item is appended it holds exactly that item's witnessable leaf, and every other position is unchanged |
| EternityTier.WithBlockLeaves | src/eternity.rs:204-210 | The next block's positions were empty, and afterwards they hold the new block's leaves; everything else is unchanged |
| EternityTier.PushEpochLeaves | src/eternity.rs:318-319 | Appending an epoch adds leaves only under the new epoch number |
| EternityTier.MergeKeepsIndexExact | src/eternity.rs:324-343 | Adding leaves in an empty region, indexing exactly them and forgetting the evicted previous positions keeps the index exact |
| EternityTier.InsertItemStep | src/eternity.rs:162-188 | Appending an item, adding its entry and forgetting its previous position keeps the tier well formed and the index exact |
| EternityTier.InsertItemEvicted | src/eternity.rs:181-184 | The replaced position is a witnessable leaf of the tier it is forgotten in |
| EternityTier.InsertBlockStep | src/eternity.rs:198-228 | Appending a block, indexing its commitments and forgetting their previous positions keeps the tier well formed and the index exact; every replaced position is a witnessable leaf |
| EternityTier.InsertEpochStep | src/eternity.rs:306-347 | Appending an epoch, indexing its commitments and forgetting their previous positions keeps the tier well formed and the index exact |
| EternityTier.WithItemSameRoot | src/eternity.rs:117-123 | Appending a commitment or its digest yields the same root |
| EternityTier.InsertItemRefusal | src/eternity.rs:168-179 | The open epoch accepts the item iff the eternity does; it never answers `Full`; it answers `BlockForgotten` or `BlockFull` exactly in the matching cases |
| EternityTier.InsertItemShape | src/eternity.rs:168-187 | A successful epoch insert, written back as the open epoch, is `WithItem`; its index is the old one plus the item's entry; the replaced position is exactly the evicted one |
| EternityTier.InsertBlockShape | src/eternity.rs:204-226 | The open epoch accepts a block iff the eternity does, hands the block back on refusal, and on success yields `WithBlock`, the block's entries and exactly the evicted positions |
| EternityTier.PushRootHash | src/eternity.rs:291-303 | Appending an epoch root makes the eternity root the old epoch digests followed by that root |
| EternityTier.ForgetStep | src/eternity.rs:219-225 | One step of the forget loop: the next position is still a leaf, and forgetting it extends the forgotten set by it |
| EternityTier.ReindexedStep | src/eternity.rs:330-342 | One step of the re-index loop: the commitment's current entry is its original one, and writing its new entry (forgetting the old position, if any) keeps the loop invariant for the remaining commitments |
| EternityTier.ReindexedDone | src/eternity.rs:324-345 | When no commitment is left, the index is the old index plus all relocated entries and the tier forgets exactly the evicted positions |
| EternityTier.EpochEntries | src/eternity.rs:310-313 | An epoch root contributes no entries; a kept epoch contributes its own index relocated to the new epoch number |
| Index.Evicted | src/eternity.rs:332-342 | A position is evicted iff it is the previous position of a re-indexed commitment that was indexed |
| Index.Relocated | src/eternity.rs:324-339 | Same commitments as the epoch index, each at `{epoch, block, item}` with the new epoch number |
| Index.ReindexStep | src/eternity.rs:332-342 | Inserting one more entry extends the merged index by it, and extends the evicted set by its previous position, if any |
| Tiers.TierHash | src/eternity.rs:104-106 | A tier's hash commits to its height and to every slot's digest, in order, and is never a single commitment's digest |
| Tiers.SetFocus | src/eternity.rs:386-396 | Writing back the open child replaces the last slot only: same size, new focus, earlier slots untouched |
| Hashing.HashOf | src/eternity.rs:120 | A commitment's digest is a leaf digest, never a tier's |
| Hashing.HashOfInjective | src/eternity.rs:131-132 | Distinct commitments have distinct digests, so a witnessed leaf identifies its commitment |
| Tiers.Push | src/eternity.rs:318-322 | Appending fails iff the tier holds 65,536 slots, handing back the same slot; otherwise the slot is appended |
| Tiers.Len | src/eternity.rs:372-374 | A tier's length is zero exactly when it has no slot |
| Tiers.Focus | src/eternity.rs:358-368 | The focus is absent iff the tier is empty, and otherwise is its last slot |
| Tiers.SummaryIsTransparent | src/eternity.rs:118-121 | A kept element and its digest contribute the same hash to their parent |
| Tiers.LastSlotSameHash | src/eternity.rs:117-123 | Two tiers differing only in a last slot of equal digest have equal hashes |
| Epochs.MutInsert | src/eternity.rs:168-175 | The epoch refuses an item iff its open block cannot take it, `BlockForgotten` iff that block is a digest, `BlockFull` iff it is full; on success the item is appended and a kept one is indexed, reporting the position it replaces |
| Epochs.MutInsertBlockOrRoot | src/eternity.rs:204-212 | Refuses iff the epoch holds 65,536 blocks, handing the block back; otherwise appends it, indexes its commitments, and reports exactly the evicted positions |
| Epochs.AppendItemLeaves | src/eternity.rs:168-176 | The next item position was empty, and after appending it holds the item's leaf, with every other position unchanged |
| Epochs.EmptyEpoch | src/eternity.rs:164 | A new epoch is valid, with no blocks and an empty index |
| ValidatorStore.Get | crates/core/component/stake/src/component/validator_handler/validator_store.rs:88-93 | A keyed read returns the stored value iff the key is present |
| ValidatorStore.GetValidatorInfo | crates/core/component/stake/src/component/validator_handler/validator_store.rs:20-36 | Some iff definition, status and current rate are all present, and then it carries exactly those three |
| ValidatorStore.GetValidatorStatus | crates/core/component/stake/src/component/validator_handler/validator_store.rs:55-72 | Some iff state, power and bonding state are all stored, and then it carries them with the queried identity key |
| ValidatorStore.FetchValidatorConsensusKey | crates/core/component/stake/src/component/validator_handler/validator_store.rs:176-184 | Some iff the validator is defined, and then it is the definition's consensus key |
| ValidatorStore.GetValidatorByConsensusKey | crates/core/component/stake/src/component/validator_handler/validator_store.rs:120-129 | Some iff the consensus key maps to an identity key that has a definition, and then it is that definition |
| ValidatorStore.GetValidatorByCometbftAddress | crates/core/component/stake/src/component/validator_handler/validator_store.rs:131-143 | Some iff address, consensus key and identity key all resolve in turn, and then it is the final definition |
| ValidatorStore.ConsensusLookupRoundTrip | crates/core/component/stake/src/component/validator_handler/validator_store.rs:118-129 | With consistent lookup tables, a validator found by consensus key carries that key, and fetching its consensus key gives it back |
| ValidatorStore.SaturatingAdd | crates/core/component/stake/src/component/validator_handler/validator_store.rs:160 | The sum when it fits in 64 bits, otherwise `u64::MAX`, and never below either operand |
| ValidatorStore.ComputeUnbondingEpoch | crates/core/component/stake/src/component/validator_handler/validator_store.rs:150-171 | Fails iff no bonding state is stored; never later than start plus the delay (saturating); bonded gives exactly that; unbonding gives the earlier of it and the scheduled epoch; unbonded gives the start |
| ValidatorStore.UnbondingEpochMonotone | crates/core/component/stake/src/component/validator_handler/validator_store.rs:158-168 | An undelegation started later never completes earlier |
| ValidatorStore.UnbondingScheduleStable | crates/core/component/stake/src/component/validator_handler/validator_store.rs:160-166 | Once a bonded pool's unbonding epoch is computed and stored as `Unbonding`, every undelegation begun at the same epoch or later gets that same epoch |
| ValidatorStore.UnbondingAfterBondingWrite | crates/core/component/stake/src/component/validator_handler/validator_store.rs:203-213 | After the bonding state is set to `Unbonding(at)`, the unbonding epoch is the earlier of `at` and start plus the delay |
| ValidatorStore.WithValidatorPower | crates/core/component/stake/src/component/validator_handler/validator_store.rs:216-231 | Succeeds iff the power is at most the maximum; then reads back that power for the validator, every other validator's power is unchanged, and no other key family changes |
| ValidatorStore.WithInitialValidatorState | crates/core/component/stake/src/component/validator_handler/validator_store.rs:234-246 | Succeeds iff the state is Active or Defined; then reads back that state, every other validator's state is unchanged, and no other key family changes |
| ValidatorStore.WithValidatorPowerKeepsBound | crates/core/component/stake/src/component/validator_handler/validator_store.rs:222-224 | Writing power through the checked setter keeps every stored power within the maximum, so every status reports a bounded voting power |
| ValidatorStore.StatusAfterPowerWrite | crates/core/component/stake/src/component/validator_handler/validator_store.rs:225-228 | After a power write, the validator's status reports the new power, and exists iff its state and bonding state do |
| ValidatorStore.StatusAfterInitialState | crates/core/component/stake/src/component/validator_handler/validator_store.rs:240-245 | After a successful initial-state write, the validator's status exists iff its power and bonding state do and then carries Active or Defined; every other validator's status and info are unchanged |
| ValidatorStore.ValidatorData.SetValidatorPower | crates/core/component/stake/src/component/validator_handler/validator_store.rs:216-231 | Errors with no write iff the power exceeds the maximum; otherwise the store becomes `WithValidatorPower`'s result |
| ValidatorStore.ValidatorData.SetInitialValidatorState | crates/core/component/stake/src/component/validator_handler/validator_store.rs:234-246 | Errors with no write unless the state is Active or Defined; otherwise the store becomes `WithInitialValidatorState`'s result |
| ValidatorStore.ValidatorData.SetValidatorUptime | crates/core/component/stake/src/component/validator_handler/validator_store.rs:199-201 | Writes the uptime key of that validator and nothing else |
| ValidatorStore.ValidatorData.SetValidatorBondingState | crates/core/component/stake/src/component/validator_handler/validator_store.rs:203-213 | Writes the bonding-state key of that validator and nothing else |
| ValidatorStore.ValidatorData.SetValidatorRateData | crates/core/component/stake/src/component/validator_handler/validator_store.rs:249-255 | Writes the current-rate key of that validator and nothing else |
| ValidatorStore.ValidatorData.SetPrevValidatorRate | crates/core/component/stake/src/component/validator_handler/validator_store.rs:259-262 | Writes the previous-rate key of that validator and nothing else |

## Left out

- Tiers.Len: `Tier::len()` returns a 16-bit count. The model returns the number of slots as
  an unbounded `nat`, which can be 65,536 for a full tier. What the source's 16-bit count
  returns for a full tier is decided in `tier.rs`, which is not part of this model.
- Eternity.Eternity.Len: for an eternity of 65,536 epochs, the model's value is at least 2^48.
  The source's 16-bit epoch count cannot express 65,536, so its result there is not modelled.
  Below that size, `EternityTier.LenBelowCapacity` proves the two agree.
- Eternity.Eternity.Update: numbers the open epoch `|slots| - 1`. With 65,536 epochs this is
  65,535. The source computes `self.inner.len().saturating_sub(1)` from a 16-bit count
  (`src/eternity.rs:379`). What that gives at 65,536 epochs depends on `Tier::len()` and is not
  modelled. The same holds for `this_epoch` at `src/eternity.rs:308`, but that value is only
  used after a push that succeeded, on a tier of at most 65,535 epochs.
- EternityTier.LenBounds: "the high bits are the epoch count" includes a count of 65,536,
  which the source's 16-bit `Tier::len()` cannot report.
- Eternity.ItemInsertionLen: the case where the open block reaches 65,536 items rests on an
  unbounded block length. The source's 16-bit `block.len()` cannot hold that count, so its
  `len()` for a full block is not modelled.
- The hash primitive behind `Hash::of` and the tier hash is a foreign cryptographic function.
  It is modelled as a free constructor, so distinct trees are assumed to have distinct hashes
  (no collisions).
- The internals of `Tier`, `EpochMut`, `Block` and the `proof` module are not part of this
  model. Their behaviour is specified only as `eternity.rs` uses it, and the tiers are flat
  sequences of 65,536 slots rather than 4-ary sub-trees. The authentication path is one list
  of sibling digests per level. Proof verification is not modelled.
- Forgetting turns a kept leaf into its digest. The pruning of fully forgotten subtrees is
  not modelled; it does not change the root or the index.
- The lazy hash cache and the `HashedMap` used for the index are not modelled. The index is a
  Dafny `map`, and `debug_assert!`s become assertions.
- The replaced positions of `insert_block` and `insert_block_root` are a set rather than a
  `Vec`. The loop forgets them in an arbitrary order, and the order does not affect the result.
- `InsertError::Full` after the first epoch is opened, `InsertError::EpochFull`, and the
  epoch's own `Full` refusal of a single item cannot occur. The epoch opens an empty block for
  a first item, and `EternityTier.InsertItemRefusal` proves that the epoch never answers
  `Full` to a single item.
- Eternity.Eternity.Insert: states the root and the witness of the inserted commitment rather
  than the whole new tier and index; `InsertCommitmentOrRoot` states those.
- Eternity.Eternity.Root: its contract names the hash of the tier. What the root means is
  stated by the lemmas about `ForgetSet` and `WithItem`.
- The plain keyed reads of the validator store (`get_validator_state`,
  `get_validator_bonding_state`, `get_validator_rate`, `get_prev_validator_rate`,
  `get_validator_power`, `get_validator_definition`, `get_validator_uptime`) are one-line
  applications of `ValidatorStore.Get`, which carries their contract.
- In the validator store, these are not modelled:
  - the async and future machinery, `tracing` and `#[instrument]`;
  - deserialization errors: a read either finds a value or does not;
  - `get_validator_pool_size`, which reads the shielded pool's token supply;
  - the prefix scan of `validator_definitions`.
- `get_stake_params` is a parameter of `ComputeUnbondingEpoch`, and its error path is not modelled.
- `MAX_VOTING_POWER` is defined outside `validator_store.rs`. The model uses CometBFT's limit,
  2^60 - 1 = 1152921504606846975.
- The fields of a validator definition, of rate data and of uptime are defined outside
  `validator_store.rs`. A definition keeps its identity key and consensus key, the only
  fields the store reads, and its other fields are one opaque byte string. `RateData` and
  `Uptime` have placeholder fields that the store never inspects.
