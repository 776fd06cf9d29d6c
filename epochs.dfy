/**
 * `Epoch` and the two operations of `EpochMut` that the eternity calls. The implementation of
 * epochs is not part of this model: `MutInsert` and `MutInsertBlockOrRoot` give the behaviour the
 * eternity relies on (its error mapping and the positions it forgets), following the same
 * pattern the eternity itself uses one level up: open a first child when the tier is empty,
 * refuse when the open child is only a digest, and write index entries straight into the
 * eternity's index through the handle it passes down.
 */
module Epochs {
  import opened Wrappers
  import opened Hashing
  import opened Tiers
  import opened Index
  import opened Blocks

  /** `Tier<Tier<Item>>`: the slots of one epoch. */
  type EpochTree = Tier<BlockTree>

  /** An epoch: its tier and the position of every commitment it keeps. */
  datatype Epoch = Epoch(index: map<Commitment, WithinEpoch>, inner: EpochTree)

  function EpochHash(e: EpochTree): Hash {
    TierHash(e, 2, BlockHash)
  }

  /** The commitment at `q` when the block slot and the item slot on the way are both kept. */
  function EpochLeafAt(e: EpochTree, q: WithinEpoch): Option<Commitment> {
    if q.block < |e.slots| && e.slots[q.block].Keep? then BlockLeafAt(e.slots[q.block].value, q.item)
    else None
  }

  predicate EpochWellFormed(e: EpochTree) {
    && |e.slots| <= CAPACITY
    && forall j :: 0 <= j < |e.slots| && e.slots[j].Keep? ==> BlockWellFormed(e.slots[j].value)
  }

  /** The index holds exactly the witnessable commitments, each at its own position. */
  ghost predicate EpochIndexExact(e: EpochTree, index: map<Commitment, WithinEpoch>) {
    && (forall c | c in index :: EpochLeafAt(e, index[c]) == Some(c))
    && (forall q | EpochLeafAt(e, q).Some? ::
          EpochLeafAt(e, q).value in index && index[EpochLeafAt(e, q).value] == q)
  }

  /** What every epoch built through its own interface satisfies. */
  ghost predicate EpochValid(epoch: Epoch) {
    EpochWellFormed(epoch.inner) && EpochIndexExact(epoch.inner, epoch.index)
  }

  /** `Epoch::new`. */
  function EmptyEpoch(): (e: Epoch)
    ensures EpochValid(e) && e.index == map[] && e.inner.slots == []
  {
    Epoch(map[], Tier([]))
  }

  // ---------------------------------------------------------------------------------------
  // Shape of a successful single insertion

  /** The epoch, with a first (empty, kept) block opened when it has none. */
  function WithOpenBlock(e: EpochTree): (r: EpochTree)
    ensures |r.slots| > 0 && (|e.slots| > 0 ==> r == e)
    ensures |e.slots| == 0 ==> r.slots == [Keep(EmptyBlock().inner)]
  {
    if |e.slots| == 0 then Tier([Keep(EmptyBlock().inner)]) else e
  }

  /** Whether a single commitment can go into this epoch: its open block is kept and not full. */
  predicate TakesItem(e: EpochTree) {
    || |e.slots| == 0
    || (Focus(e).value.Keep? && |Focus(e).value.value.slots| < CAPACITY)
  }

  /** Where the next single commitment lands. */
  function NextItem(e: EpochTree): WithinEpoch
    requires TakesItem(e)
  {
    var e0 := WithOpenBlock(e);
    WithinEpoch(|e0.slots| - 1, |Focus(e0).value.value.slots|)
  }

  /** The epoch after appending `x` to its open block. */
  function AppendItem(e: EpochTree, x: Insert<Commitment>): EpochTree
    requires TakesItem(e)
  {
    var e0 := WithOpenBlock(e);
    SetFocus(e0, Keep(Tier(Focus(e0).value.value.slots + [x])))
  }

  /** Appending changes the witnessable leaves at the new position only, which was empty. */
  lemma AppendItemLeaves(e: EpochTree, x: Insert<Commitment>, q: WithinEpoch)
    requires TakesItem(e)
    ensures EpochLeafAt(e, NextItem(e)) == None
    ensures EpochLeafAt(AppendItem(e, x), q) == if q == NextItem(e) then ItemLeaf(x) else EpochLeafAt(e, q)
  {
    var e0 := WithOpenBlock(e);
    var last := |e0.slots| - 1;
    var b := Focus(e0).value.value;
    var e1 := AppendItem(e, x);
    assert e1.slots[last] == Keep(Tier(b.slots + [x]));
    if q.block != last {
      if |e.slots| == 0 {
        assert EpochLeafAt(e1, q) == None;
      }
    } else if q.item != |b.slots| {
      assert BlockLeafAt(Tier(b.slots + [x]), q.item) == BlockLeafAt(b, q.item);
    }
  }

  lemma AppendItemWellFormed(e: EpochTree, x: Insert<Commitment>)
    requires TakesItem(e) && EpochWellFormed(e)
    ensures EpochWellFormed(AppendItem(e, x))
  {
    var e1 := AppendItem(e, x);
    forall j | 0 <= j < |e1.slots| && e1.slots[j].Keep?
      ensures BlockWellFormed(e1.slots[j].value)
    {
    }
  }

  // ---------------------------------------------------------------------------------------
  // EpochMut

  /** `epoch::InsertError`. */
  datatype InsertError = Full | BlockFull | BlockForgotten

  /**
   * The successful outcome of `EpochMut::insert`: the updated tier, the eternity's index after
   * the write made through the handle, and the position the commitment had before, if any.
   */
  datatype Inserted = Inserted(tree: EpochTree, index: map<Commitment, WithinEternity>, replaced: Option<WithinEternity>)

  /**
   * `EpochMut::insert` with an index handle into the eternity's index for epoch `thisEpoch`:
   * open a first block when there is none, refuse when the open block is only a digest or is
   * full, and otherwise append; a kept commitment is indexed at its new position.
   */
  function MutInsert(e: EpochTree, thisEpoch: nat, index: map<Commitment, WithinEternity>, x: Insert<Commitment>)
    : (r: Result<Inserted, InsertError>)
    ensures r.Err? <==> !TakesItem(e)
    ensures r == Err(BlockForgotten) <==> |e.slots| > 0 && Focus(e).value.Hash?
    ensures r == Err(BlockFull) <==> |e.slots| > 0 && Focus(e).value.Keep? && |Focus(e).value.value.slots| >= CAPACITY
    ensures r.Ok? ==> r.value.tree == AppendItem(e, x)
    ensures r.Ok? && x.Hash? ==> r.value.index == index && r.value.replaced == None
    ensures r.Ok? && x.Keep? ==>
              && r.value.index == index[x.value := InEpoch(thisEpoch, NextItem(e))]
              && r.value.replaced == (if x.value in index then Some(index[x.value]) else None)
  {
    var first := if |e.slots| == 0 then Push(e, Keep(EmptyBlock().inner)) else Ok(e);
    if first.Err? then Err(Full)
    else
      var e0 := first.value;
      match Focus(e0).value
      case Hash(_) => Err(BlockForgotten)
      case Keep(b) =>
        match Push(b, x)
        case Err(_) => Err(BlockFull)
        case Ok(b1) =>
          var tree := SetFocus(e0, Keep(b1));
          var here := WithinEternity(thisEpoch, |e0.slots| - 1, |b.slots|);
          match x
          case Hash(_) => Ok(Inserted(tree, index, None))
          case Keep(c) => Ok(Inserted(tree, index[c := here], if c in index then Some(index[c]) else None))
  }

  /** The positions given to a block's commitments when it becomes block `block` of epoch `epoch`. */
  function Located(block: Insert<Block>, epoch: nat, blockNo: nat): (r: map<Commitment, WithinEternity>)
    ensures block.Hash? ==> r == map[]
    ensures block.Keep? ==> r.Keys == block.value.index.Keys
    ensures block.Keep? ==> forall c | c in r :: r[c] == WithinEternity(epoch, blockNo, block.value.index[c])
  {
    match block
    case Keep(b) => map c | c in b.index :: WithinEternity(epoch, blockNo, b.index[c])
    case Hash(_) => map[]
  }

  /** The slot a block occupies in its epoch: its tier, or only its digest. */
  function BlockSlot(block: Insert<Block>): (s: Insert<BlockTree>)
    ensures s.Keep? <==> block.Keep?
    ensures s.Keep? ==> s.value == block.value.inner
    ensures s.Hash? ==> s.hash == block.hash
  {
    match block
    case Keep(b) => Keep(b.inner)
    case Hash(h) => Hash(h)
  }

  /** The successful outcome of `EpochMut::insert_block_or_root`. */
  datatype BlockInserted = BlockInserted(tree: EpochTree, index: map<Commitment, WithinEternity>, replaced: set<WithinEternity>)

  /**
   * `EpochMut::insert_block_or_root` with an index handle into the eternity's index for epoch
   * `thisEpoch`: append the block (or its root) as a new block of the epoch, or hand it back
   * unchanged when the epoch is full; every commitment of the block is indexed at its new
   * position, and the positions those commitments had before are returned.
   */
  function MutInsertBlockOrRoot(e: EpochTree, thisEpoch: nat, index: map<Commitment, WithinEternity>, block: Insert<Block>)
    : (r: Result<BlockInserted, Insert<Block>>)
    ensures r.Err? <==> |e.slots| >= CAPACITY
    ensures r.Err? ==> r.error == block
    ensures r.Ok? ==> r.value.tree.slots == e.slots + [BlockSlot(block)]
    ensures r.Ok? ==> r.value.index == index + Located(block, thisEpoch, |e.slots|)
    ensures r.Ok? ==> r.value.replaced == Evicted(index, Located(block, thisEpoch, |e.slots|).Keys)
  {
    match Push(e, BlockSlot(block))
    case Err(_) => Err(block)
    case Ok(tree) =>
      var located := Located(block, thisEpoch, |e.slots|);
      Ok(BlockInserted(tree, index + located, Evicted(index, located.Keys)))
  }
}
