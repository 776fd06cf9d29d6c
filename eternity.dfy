/**
 * `Eternity`: the sparse commitment tree of up to 65,536 epochs of 65,536 blocks of 65,536
 * commitments, together with the index from each witnessed commitment to its position. It is
 * a mutable object: every insertion and every `forget` updates the index and the tier in place.
 */
module Eternity {
  import opened Wrappers
  import opened Hashing
  import opened Tiers
  import opened Index
  import opened Blocks
  import opened Epochs
  import opened EternityTier
  import Witnesses

  /** `Root`: the root hash of an eternity. */
  datatype EternityRoot = EternityRoot(hash: Hash)

  /** `InsertError`: why a single commitment was refused. */
  datatype InsertError = Full | EpochFull | EpochForgotten | BlockFull | BlockForgotten

  /** `InsertBlockError`: why a block was refused; the block is handed back. */
  datatype InsertBlockError = Full(block: Block) | EpochFull(block: Block) | EpochForgotten(block: Block)

  /** `InsertBlockRootError`: why a block root was refused. */
  datatype InsertBlockRootError = Full | EpochFull | EpochForgotten

  /** `InsertEpochError`: the eternity was full; the epoch is handed back. */
  datatype InsertEpochError = InsertEpochError(epoch: Epoch)

  /** `InsertEpochRootError`: the eternity was full. */
  datatype InsertEpochRootError = InsertEpochRootError

  /** `Proof`: a commitment, its position and the authentication path to the root. */
  datatype Proof = Proof(index: WithinEternity, authPath: AuthPath, leaf: Commitment)

  /** `EpochMut`: the open epoch, with the number it has in the eternity. */
  datatype EpochMut = EpochMut(inner: EpochTree, thisEpoch: nat)

  /**
   * What `insert_commitment_or_root` does to an eternity with tier `t` and index `index`: the
   * refusal when the open epoch or its open block cannot take the item, and otherwise the tier
   * with the item appended (its previous position forgotten) and the index with its entry.
   */
  function ItemInsertion(t: EternityTree, index: map<Commitment, WithinEternity>, x: Tiers.Insert<Commitment>)
    : Result<(EternityTree, map<Commitment, WithinEternity>), InsertError>
  {
    if AcceptsItem(t) then
      var entries := ItemEntries(x, NextPosition(t));
      Ok((ForgetSet(WithItem(t, x), Evicted(index, entries.Keys)), index + entries))
    else if Focus(t).value.Hash? then Err(InsertError.EpochForgotten)
    else if Focus(OpenEpoch(t)).value.Hash? then Err(InsertError.BlockForgotten)
    else Err(InsertError.BlockFull)
  }

  /** Opening the first epoch of an empty eternity does not change what inserting an item does. */
  lemma ItemInsertionOpened(t: EternityTree, index: map<Commitment, WithinEternity>, x: Tiers.Insert<Commitment>)
    ensures ItemInsertion(WithOpenEpoch(t), index, x) == ItemInsertion(t, index, x)
  {
  }

  /** Inserting into a well-formed tier with an exact index keeps both. */
  lemma ItemInsertionValid(t: EternityTree, index: map<Commitment, WithinEternity>, x: Tiers.Insert<Commitment>)
    requires WellFormed(t) && IndexExact(t, index)
    ensures ItemInsertion(t, index, x).Ok? ==>
              WellFormed(ItemInsertion(t, index, x).value.0) &&
              IndexExact(ItemInsertion(t, index, x).value.0, ItemInsertion(t, index, x).value.1)
  {
    if AcceptsItem(t) {
      InsertItemStep(t, index, x);
    }
  }

  /** A kept commitment is indexed at the next position, where it is a witnessable leaf. */
  lemma ItemInsertionWitnessed(t: EternityTree, index: map<Commitment, WithinEternity>, c: Commitment)
    requires WellFormed(t) && IndexExact(t, index) && AcceptsItem(t)
    ensures var (t1, index1) := ItemInsertion(t, index, Keep(c)).value;
      c in index1 && index1[c] == NextPosition(t) && LeafAt(t1, NextPosition(t)) == Some(c)
  {
    ItemInsertionValid(t, index, Keep(c));
  }

  /**
   * Keeping a commitment or storing only its digest yields the same root, and the digest adds
   * no index entry.
   */
  lemma ItemInsertionSameRoot(t: EternityTree, index: map<Commitment, WithinEternity>, c: Commitment)
    requires AcceptsItem(t)
    ensures var kept := ItemInsertion(t, index, Keep(c)).value;
      var hashed := ItemInsertion(t, index, Tiers.Insert<Commitment>.Hash(HashOf(c))).value;
      && EternityHash(kept.0) == EternityHash(hashed.0)
      && hashed.1 == index
  {
    var digest := Tiers.Insert<Commitment>.Hash(HashOf(c));
    var evicted := Evicted(index, ItemEntries(Keep(c), NextPosition(t)).Keys);
    assert ItemInsertion(t, index, Keep(c)).value.0 == ForgetSet(WithItem(t, Keep(c)), evicted);
    assert ItemEntries(digest, NextPosition(t)) == map[] && ItemEntries(digest, NextPosition(t)).Keys == {};
    assert ItemInsertion(t, index, digest).value == (ForgetSet(WithItem(t, digest), Evicted(index, {})), index + map[]);
    ForgetPreservesRoot(WithItem(t, Keep(c)), evicted);
    ForgetEvictedNothing(WithItem(t, digest), index);
    assert index + map[] == index;
    WithItemSameRoot(t, c);
  }

  /**
   * `len()` after a single insertion into a kept open block of `b` slots: the number of epochs
   * in the high 32 bits, and `b + 1` shifted left by 16 in 32-bit arithmetic below, so that a
   * block reaching 65,536 items contributes nothing.
   */
  lemma ItemInsertionLen(t: EternityTree, index: map<Commitment, WithinEternity>, x: Tiers.Insert<Commitment>)
    requires AcceptsItem(t) && |t.slots| > 0
    requires |OpenEpoch(t).slots| > 0 && Focus(OpenEpoch(t)).value.Keep?
    ensures var b := Focus(OpenEpoch(t)).value.value;
      LenOf(ItemInsertion(t, index, x).value.0) == |t.slots| * 0x1_0000_0000 + ((|b.slots| + 1) * 0x1_0000) % 0x1_0000_0000
  {
    var entries := ItemEntries(x, NextPosition(t));
    ForgetPreservesLen(WithItem(t, x), Evicted(index, entries.Keys));
  }

  /**
   * The count after the first commitment of a new eternity is `2^32 + 2^16`, not 1: the epoch
   * opened for it counts `2^32` and the one-item block `2^16`.
   */
  lemma LenAfterFirstItem(x: Tiers.Insert<Commitment>)
    ensures LenOf(ItemInsertion(Tier([]), map[], x).value.0) == 0x1_0001_0000
  {
    var t1 := WithItem(Tier([]), x);
    FirstItemTier(x);
    var evicted := Evicted(map[], ItemEntries(x, NextPosition(Tier([]))).Keys);
    assert evicted == {};
    ForgetNothing(t1);
    assert ItemInsertion(Tier([]), map[], x).value.0 == t1;
    assert FocusTerm(t1) == 1;
  }

  /** The first item of a new eternity sits alone in the first block of the first epoch. */
  lemma FirstItemTier(x: Tiers.Insert<Commitment>)
    ensures WithItem(Tier([]), x) == Tier([Keep(Tier([Keep(Tier([x]))]))])
  {
    var e0 := WithOpenBlock(EmptyEpoch().inner);
    assert e0.slots == [Keep(Tier([]))];
    assert Focus(e0).value.value.slots + [x] == [x];
    assert AppendItem(EmptyEpoch().inner, x) == SetFocus(e0, Keep(Tier([x])));
    assert SetFocus(e0, Keep(Tier([x]))).slots == [Keep(Tier([x]))];
  }

  /**
   * Opening an empty block after one item lowers the count: the open block's term replaces
   * the previous block's.
   */
  lemma LenDropsOnEmptyBlock(x: Tiers.Insert<Commitment>)
    ensures var t1 := ItemInsertion(Tier([]), map[], x).value.0;
      LenOf(WithBlock(t1, Keep(EmptyBlock().inner))) == 0x1_0000_0000 < LenOf(t1)
  {
    var t1 := ItemInsertion(Tier([]), map[], x).value.0;
    LenAfterFirstItem(x);
    ForgetEvictedNothing(WithItem(Tier([]), x), map[]);
    var t2 := WithBlock(t1, Keep(EmptyBlock().inner));
    assert Focus(Focus(t2).value.value).value == Keep(EmptyBlock().inner);
  }

  class Eternity {
    var index: map<Commitment, WithinEternity>
    var inner: EternityTree

    /** The tier is well formed and the index holds exactly the witnessable leaves. */
    ghost predicate Valid()
      reads this
    {
      WellFormed(inner) && IndexExact(inner, index)
    }

    /** `Eternity::new`: an empty eternity. */
    constructor()
      ensures Valid()
      ensures index == map[] && inner == Tier([])
      ensures Len() == 0 && IsEmpty()
    {
      index := map[];
      inner := Tier([]);
    }

    /** `Eternity::root`. */
    function Root(): (r: EternityRoot)
      reads this
      ensures r.hash == EternityHash(inner)
    {
      EternityRoot(EternityHash(inner))
    }

    /**
     * `Eternity::witness`: a proof for an indexed commitment. The proof names the commitment
     * and its indexed position, and its path recombines with the commitment's digest into the
     * current root.
     */
    function Witness(c: Commitment): (r: Option<Proof>)
      reads this
      ensures c !in index ==> r.None?
      ensures Valid() && c in index ==> r.Some?
      ensures r.Some? ==> c in index && r.value.leaf == c && r.value.index == index[c]
      ensures Valid() && r.Some? ==> Recombine(r.value.authPath, HashOf(c)) == Root().hash
    {
      if c !in index then None
      else
        match TierWitness(inner, index[c])
        case None => None
        case Some((path, _)) => Some(Proof(index[c], path, c))
    }

    /** `Eternity::len`: zero exactly when there is no epoch, with the number of epochs in the high bits. */
    function Len(): (r: nat)
      reads this
      ensures r == 0 <==> |inner.slots| == 0
      ensures WellFormed(inner) ==> r < 0x1_0000_0000_0000_0000 && r / 0x1_0000_0000 == |inner.slots|
    {
      if WellFormed(inner) then LenBounds(inner); LenOf(inner) else LenOf(inner)
    }

    /** `Eternity::is_empty`. */
    function IsEmpty(): (r: bool)
      reads this
      ensures r <==> Len() == 0
    {
      |inner.slots| == 0
    }

    /**
     * `Eternity::update`: the handle on the open epoch, numbered `len - 1` (saturating), or
     * nothing when there is no epoch or the open one is only a digest.
     */
    function Update(): (r: Option<EpochMut>)
      reads this
      ensures r.None? <==> |inner.slots| == 0 || Focus(inner).value.Hash?
      ensures r.Some? ==> r.value.inner == OpenEpoch(inner) && r.value.thisEpoch == |inner.slots| - 1
      ensures r.Some? ==> forall q :: LeafAt(inner, InEpoch(r.value.thisEpoch, q)) == EpochLeafAt(r.value.inner, q)
    {
      var thisEpoch := if |inner.slots| == 0 then 0 else |inner.slots| - 1;
      match Focus(inner)
      case Some(Keep(e)) => Some(EpochMut(e, thisEpoch))
      case _ => None
    }

    /**
     * `Eternity::forget`: stop witnessing `c`. Reports whether it was witnessed; its leaf
     * becomes a digest, so neither the root nor the count changes.
     */
    method Forget(c: Commitment) returns (forgotten: bool)
      requires Valid()
      modifies this
      ensures Valid()
      ensures forgotten <==> c in old(index)
      ensures index == old(index) - {c}
      ensures inner == if c in old(index) then ForgetSet(old(inner), {old(index)[c]}) else old(inner)
      ensures Root() == old(Root()) && Len() == old(Len())
      ensures Witness(c).None?
    {
      forgotten := false;
      if c in index {
        var withinEpoch := index[c];
        forgotten := true;
        ghost var t0, index0 := inner, index;
        var (t1, done) := TierForget(inner, withinEpoch);
        inner := t1;
        assert done;
        index := index - {c};
        ForgetKeepsIndexExact(t0, index0, c);
        ForgetSetWellFormed(t0, {withinEpoch});
        ForgetPreservesRoot(t0, {withinEpoch});
        ForgetPreservesLen(t0, {withinEpoch});
      }
    }

    /** Forget each position in `replaced`, every one of them a witnessable leaf. */
    method ForgetReplaced(replaced: set<WithinEternity>)
      requires forall p | p in replaced :: LeafAt(inner, p).Some?
      modifies this`inner
      ensures inner == ForgetSet(old(inner), replaced)
    {
      ghost var base := inner;
      var todo := replaced;
      ForgetNothing(base);
      assert replaced - todo == {};
      while todo != {}
        invariant todo <= replaced
        invariant inner == ForgetSet(base, replaced - todo)
        decreases |todo|
      {
        var p :| p in todo;
        ForgetStep(base, replaced, todo, p);
        var (t1, forgotten) := TierForget(inner, p);
        assert forgotten;
        inner := t1;
        todo := todo - {p};
      }
      assert replaced - todo == replaced;
    }

    /**
     * `Eternity::insert_epoch_or_root`: append an epoch (or its root) as a new epoch, index
     * every commitment of the epoch at its new position, and forget the positions those
     * commitments had. When the eternity is full, nothing changes and the epoch comes back.
     */
    method InsertEpochOrRoot(epoch: Tiers.Insert<Epoch>) returns (r: Result<(), Tiers.Insert<Epoch>>)
      requires Valid()
      requires epoch.Keep? ==> EpochValid(epoch.value)
      modifies this
      ensures Valid()
      ensures r.Err? <==> |old(inner.slots)| >= CAPACITY
      ensures r.Err? ==> r.error == epoch && index == old(index) && inner == old(inner)
      ensures r.Ok? ==>
                var entries := EpochEntries(epoch, |old(inner.slots)|);
                && index == old(index) + entries
                && inner == ForgetSet(Tier(old(inner.slots) + [EpochSlot(epoch)]), Evicted(old(index), entries.Keys))
    {
      var thisEpoch := Tiers.Len(inner);
      var (slot, epochIndex) := match epoch
        case Hash(h) => (Tiers.Insert<EpochTree>.Hash(h), map[])
        case Keep(Epoch(idx, e)) => (Keep(e), idx);
      ghost var t0, index0 := inner, index;
      ghost var entries := EpochEntries(epoch, thisEpoch);
      match Push(inner, slot)
      case Err(back) =>
        r := Err(if back.Keep? then Keep(Epoch(epochIndex, back.value)) else Tiers.Insert<Epoch>.Hash(back.hash));
      case Ok(t1) =>
        inner := t1;
        Reindex(thisEpoch, epochIndex);
        InsertEpochStep(t0, index0, epoch);
        assert inner == ForgetSet(t1, Evicted(index0, entries.Keys)) && index == index0 + entries;
        r := Ok(());
    }

    /**
     * The loop of `insert_epoch_or_root`: index each commitment of an epoch's index at its
     * position in epoch `thisEpoch`, forgetting the position it had before, if any.
     */
    method Reindex(thisEpoch: nat, epochIndex: map<Commitment, WithinEpoch>)
      modifies this
      ensures var entries := Relocated(epochIndex, thisEpoch);
        && index == old(index) + entries
        && inner == ForgetSet(old(inner), Evicted(old(index), entries.Keys))
    {
      ghost var t1, index0 := inner, index;
      ghost var entries := Relocated(epochIndex, thisEpoch);
      var todo := epochIndex.Keys;
      ReindexedStart(t1, index0, entries);
      while todo != {}
        invariant Reindexed(t1, index0, entries, todo, index, inner)
        decreases |todo|
      {
        var c :| c in todo;
        ReindexedStep(t1, index0, entries, todo, index, inner, c);
        var replaced := if c in index then Some(index[c]) else None;
        index := index[c := InEpoch(thisEpoch, epochIndex[c])];
        if replaced.Some? {
          inner := TierForget(inner, replaced.value).0;
        }
        todo := todo - {c};
      }
      ReindexedDone(t1, index0, entries, index, inner);
    }

    /** `Eternity::insert_epoch`: as `InsertEpochOrRoot`, keeping the epoch's witnesses. */
    method InsertEpoch(epoch: Epoch) returns (r: Result<(), InsertEpochError>)
      requires Valid() && EpochValid(epoch)
      modifies this
      ensures Valid()
      ensures r.Err? <==> |old(inner.slots)| >= CAPACITY
      ensures r.Err? ==> r.error == InsertEpochError(epoch) && index == old(index) && inner == old(inner)
      ensures r.Ok? ==>
                var entries := EpochEntries(Keep(epoch), |old(inner.slots)|);
                && index == old(index) + entries
                && inner == ForgetSet(Tier(old(inner.slots) + [Keep(epoch.inner)]), Evicted(old(index), entries.Keys))
    {
      var res := InsertEpochOrRoot(Keep(epoch));
      if res.Err? {
        r := Err(InsertEpochError(res.error.value));
      } else {
        r := Ok(());
      }
    }

    /** `Eternity::insert_epoch_root`: append only the root of an epoch; nothing is indexed. */
    method InsertEpochRoot(root: Hash) returns (r: Result<(), InsertEpochRootError>)
      requires Valid()
      modifies this
      ensures Valid()
      ensures r.Err? <==> |old(inner.slots)| >= CAPACITY
      ensures index == old(index)
      ensures r.Err? ==> inner == old(inner)
      ensures r.Ok? ==> inner == Tier(old(inner.slots) + [Tiers.Insert<EpochTree>.Hash(root)])
      ensures r.Ok? ==> Root().hash == Node(3, ChildHashes(old(inner), EpochHash) + [root])
    {
      ghost var t0, index0 := inner, index;
      var res := InsertEpochOrRoot(Tiers.Insert<Epoch>.Hash(root));
      if res.Err? {
        assert res.error.Hash?;
        r := Err(InsertEpochRootError);
      } else {
        ghost var entries := EpochEntries(Tiers.Insert<Epoch>.Hash(root), |t0.slots|);
        assert entries == map[] && entries.Keys == {};
        assert EpochSlot(Tiers.Insert<Epoch>.Hash(root)) == Tiers.Insert<EpochTree>.Hash(root);
        assert index == index0 + entries == index0;
        ForgetEvictedNothing(Tier(t0.slots + [Tiers.Insert<EpochTree>.Hash(root)]), index0);
        assert inner == Tier(t0.slots + [Tiers.Insert<EpochTree>.Hash(root)]);
        PushRootHash(t0, root);
        r := Ok(());
      }
    }

    /**
     * `Eternity::insert_commitment_or_root`: add a commitment (or only its digest) to the open
     * block of the open epoch, opening a first epoch when there is none. A kept commitment is
     * indexed at its new position and its previous position is forgotten.
     */
    method InsertCommitmentOrRoot(item: Tiers.Insert<Commitment>) returns (r: Result<(), InsertError>)
      requires Valid()
      modifies this
      ensures Valid()
      ensures r.Err? <==> ItemInsertion(old(inner), old(index), item).Err?
      ensures r.Err? ==> r.error == ItemInsertion(old(inner), old(index), item).error && index == old(index) && inner == old(inner)
      ensures r.Ok? ==> (inner, index) == ItemInsertion(old(inner), old(index), item).value
    {
      ghost var t0, index0 := inner, index;
      if IsEmpty() {
        var added := InsertEpoch(EmptyEpoch());
        if added.Err? {
          return Err(InsertError.Full);
        }
        OpenFirstEpoch(t0, index0);
      }
      ItemInsertionOpened(t0, index0, item);
      r := UpdateInsert(item);
    }

    /**
     * The `update` call of `insert_commitment_or_root`, on an eternity that has an epoch: hand
     * the item to the open epoch, mapping the epoch's refusal to the eternity's, then forget the
     * position the item had.
     */
    method UpdateInsert(item: Tiers.Insert<Commitment>) returns (r: Result<(), InsertError>)
      requires Valid() && |inner.slots| > 0
      modifies this
      ensures Valid()
      ensures r.Err? <==> ItemInsertion(old(inner), old(index), item).Err?
      ensures r.Err? ==> r.error == ItemInsertion(old(inner), old(index), item).error && index == old(index) && inner == old(inner)
      ensures r.Ok? ==> (inner, index) == ItemInsertion(old(inner), old(index), item).value
    {
      ghost var t0, index0 := inner, index;
      match Update()
      case None =>
        r := Err(InsertError.EpochForgotten);
      case Some(handle) =>
        InsertItemRefusal(t0, index0, item);
        match MutInsert(handle.inner, handle.thisEpoch, index, item)
        case Err(err) =>
          r := Err(match err
            case Full => InsertError.EpochFull
            case BlockFull => InsertError.BlockFull
            case BlockForgotten => InsertError.BlockForgotten);
        case Ok(written) =>
          ghost var entries := ItemEntries(item, NextPosition(t0));
          ghost var target := ForgetSet(WithItem(t0, item), Evicted(index0, entries.Keys));
          InsertItemShape(t0, index0, item);
          InsertItemStep(t0, index0, item);
          InsertItemEvicted(t0, index0, item);
          inner := SetFocus(inner, Keep(written.tree));
          index := written.index;
          assert inner == WithItem(t0, item) && index == index0 + entries;
          match written.replaced {
            case None =>
              ForgetNothing(inner);
            case Some(replaced) =>
              var (t1, forgotten) := TierForget(inner, replaced);
              inner := t1;
              assert forgotten;
          }
          assert inner == target;
          r := Ok(());
    }

    /**
     * `Eternity::insert`: add a commitment, kept witnessable or forgotten at once. On refusal
     * nothing changes and the commitment comes back. Both choices yield the same root, and a
     * kept commitment is witnessed at the position it was given.
     */
    method Insert(mode: Witnesses.Witness, c: Commitment) returns (r: Result<(), Commitment>)
      requires Valid()
      modifies this
      ensures Valid()
      ensures r.Ok? <==> AcceptsItem(old(inner))
      ensures r.Err? ==> r.error == c && index == old(index) && inner == old(inner)
      ensures r.Ok? ==> Root().hash == EternityHash(WithItem(old(inner), Keep(c)))
      ensures r.Ok? && mode == Witnesses.Keep ==>
                Witness(c).Some? && Witness(c).value.index == NextPosition(old(inner))
      ensures mode == Witnesses.Forget ==> index == old(index)
    {
      ghost var t0 := inner;
      var item := match mode
        case Keep => Keep(c)
        case Forget => Tiers.Insert<Commitment>.Hash(HashOf(c));
      var res := InsertCommitmentOrRoot(item);
      if res.Err? {
        r := Err(c);
      } else {
        ghost var entries := ItemEntries(item, NextPosition(t0));
        ForgetPreservesRoot(WithItem(t0, item), Evicted(old(index), entries.Keys));
        WithItemSameRoot(t0, c);
        r := Ok(());
      }
    }

    /**
     * `Eternity::insert_block`: add a whole block as a new block of the open epoch, opening a
     * first epoch when there is none; every commitment of the block is indexed at its new
     * position and the positions those commitments had are forgotten.
     */
    method InsertBlock(block: Block) returns (r: Result<(), InsertBlockError>)
      requires Valid() && BlockValid(block)
      modifies this
      ensures Valid()
      ensures r.Ok? <==> AcceptsBlock(old(inner))
      ensures r.Err? ==> r.error.block == block && index == old(index) && inner == old(inner)
      ensures r.Err? ==> (r.error.EpochForgotten? <==> Focus(old(inner)).value.Hash?)
      ensures r.Err? ==> (r.error.EpochFull? <==> |old(inner.slots)| > 0 && Focus(old(inner)).value.Keep?)
      ensures r.Ok? ==>
                var entries := Located(Keep(block), NextBlock(old(inner)).0, NextBlock(old(inner)).1);
                && index == old(index) + entries
                && inner == ForgetSet(WithBlock(old(inner), Keep(block.inner)), Evicted(old(index), entries.Keys))
    {
      ghost var t0, index0 := inner, index;
      if IsEmpty() {
        var added := InsertEpoch(EmptyEpoch());
        if added.Err? {
          return Err(InsertBlockError.Full(block));
        }
        OpenFirstEpoch(t0, index0);
      }
      assert inner == WithOpenEpoch(t0) && index == index0;
      match Update()
      case None =>
        r := Err(InsertBlockError.EpochForgotten(block));
      case Some(handle) =>
        InsertBlockShape(t0, index0, Keep(block));
        match MutInsertBlockOrRoot(handle.inner, handle.thisEpoch, index, Keep(block))
        case Err(back) =>
          r := Err(InsertBlockError.EpochFull(back.value));
        case Ok(written) =>
          ghost var entries := Located(Keep(block), NextBlock(t0).0, NextBlock(t0).1);
          ghost var target := ForgetSet(WithBlock(t0, Keep(block.inner)), Evicted(index0, entries.Keys));
          InsertBlockStep(t0, index0, Keep(block));
          inner := SetFocus(inner, Keep(written.tree));
          index := written.index;
          assert inner == WithBlock(t0, Keep(block.inner)) && index == index0 + entries;
          ForgetReplaced(written.replaced);
          assert inner == target;
          r := Ok(());
    }

    /**
     * `Eternity::insert_block_root`: add only the root of a block as a new block of the open
     * epoch, opening a first epoch when there is none; nothing is indexed.
     */
    method InsertBlockRoot(root: Hash) returns (r: Result<(), InsertBlockRootError>)
      requires Valid()
      modifies this
      ensures Valid()
      ensures r.Ok? <==> AcceptsBlock(old(inner))
      ensures r == Err(InsertBlockRootError.EpochForgotten) <==> |old(inner.slots)| > 0 && Focus(old(inner)).value.Hash?
      ensures r == Err(InsertBlockRootError.EpochFull) <==> r.Err? && |old(inner.slots)| > 0 && Focus(old(inner)).value.Keep?
      ensures index == old(index)
      ensures r.Err? ==> inner == old(inner)
      ensures r.Ok? ==> inner == WithBlock(old(inner), Tiers.Insert<BlockTree>.Hash(root))
    {
      ghost var t0, index0 := inner, index;
      if IsEmpty() {
        var added := InsertEpoch(EmptyEpoch());
        if added.Err? {
          return Err(InsertBlockRootError.Full);
        }
        OpenFirstEpoch(t0, index0);
      }
      assert inner == WithOpenEpoch(t0) && index == index0;
      match Update()
      case None =>
        r := Err(InsertBlockRootError.EpochForgotten);
      case Some(handle) =>
        InsertBlockShape(t0, index0, Tiers.Insert<Block>.Hash(root));
        match MutInsertBlockOrRoot(handle.inner, handle.thisEpoch, index, Tiers.Insert<Block>.Hash(root))
        case Err(_) =>
          r := Err(InsertBlockRootError.EpochFull);
        case Ok(written) =>
          ghost var entries := Located(Tiers.Insert<Block>.Hash(root), NextBlock(t0).0, NextBlock(t0).1);
          ghost var pushed := WithBlock(t0, Tiers.Insert<BlockTree>.Hash(root));
          InsertBlockStep(t0, index0, Tiers.Insert<Block>.Hash(root));
          assert entries.Keys == {};
          ForgetEvictedNothing(pushed, index0);
          inner := SetFocus(inner, Keep(written.tree));
          index := written.index;
          assert inner == pushed && index == index0;
          ForgetReplaced(written.replaced);
          assert inner == pushed;
          r := Ok(());
    }
  }
}
