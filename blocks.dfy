/**
 * `Block`: a tier of commitments together with its local index. The implementation of blocks is
 * not part of this model; a block enters the eternity only whole, through `insert_block`, so only
 * its shape and its index are modelled.
 */
module Blocks {
  import opened Wrappers
  import opened Hashing
  import opened Tiers

  /** `Tier<Item>`: the slots of one block. */
  type BlockTree = Tier<Commitment>

  /** A block: its tier and the item position of every commitment it keeps. */
  datatype Block = Block(index: map<Commitment, nat>, inner: BlockTree)

  function BlockHash(b: BlockTree): Hash {
    TierHash(b, 1, HashOf)
  }

  /** The commitment a slot holds when it is kept. */
  function ItemLeaf(x: Insert<Commitment>): (r: Option<Commitment>)
    ensures r.Some? <==> x.Keep?
    ensures r.Some? ==> r.value == x.value
  {
    match x
    case Keep(c) => Some(c)
    case Hash(_) => None
  }

  /** The commitment at `item` when that slot exists and is kept: the witnessable leaves. */
  function BlockLeafAt(b: BlockTree, item: nat): (r: Option<Commitment>)
    ensures r.Some? <==> item < |b.slots| && b.slots[item].Keep?
    ensures r.Some? ==> r.value == b.slots[item].value
  {
    if item < |b.slots| then ItemLeaf(b.slots[item]) else None
  }

  predicate BlockWellFormed(b: BlockTree) {
    |b.slots| <= CAPACITY
  }

  /** The index holds exactly the kept commitments, each at its own slot. */
  ghost predicate BlockIndexExact(b: BlockTree, index: map<Commitment, nat>) {
    && (forall c | c in index :: BlockLeafAt(b, index[c]) == Some(c))
    && (forall k: nat | BlockLeafAt(b, k).Some? ::
          BlockLeafAt(b, k).value in index && index[BlockLeafAt(b, k).value] == k)
  }

  /** What every block built through its own interface satisfies. */
  ghost predicate BlockValid(block: Block) {
    BlockWellFormed(block.inner) && BlockIndexExact(block.inner, block.index)
  }

  /** `Block::new`. */
  function EmptyBlock(): (b: Block)
    ensures BlockValid(b) && b.index == map[] && b.inner.slots == []
  {
    Block(map[], Tier([]))
  }
}
