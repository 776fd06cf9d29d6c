/**
 * The eternity's tier `Tier<Tier<Tier<Item>>>` as a value: its witnessable leaves, how
 * forgetting, witnessing and the size count act on it, and the shapes a successful insertion
 * leaves behind. The eternity object (module `Eternity`) changes its tier only through these.
 */
module EternityTier {
  import opened Wrappers
  import opened Hashing
  import opened Tiers
  import opened Index
  import opened Blocks
  import opened Epochs

  type EternityTree = Tier<EpochTree>

  function EternityHash(t: EternityTree): Hash {
    TierHash(t, 3, EpochHash)
  }

  /** The commitment at `p` when every slot on the way to it is kept: the witnessable leaves. */
  function LeafAt(t: EternityTree, p: WithinEternity): Option<Commitment> {
    if p.epoch < |t.slots| && t.slots[p.epoch].Keep? then
      EpochLeafAt(t.slots[p.epoch].value, WithinEpoch(p.block, p.item))
    else None
  }

  /** Every tier on every level holds at most `CAPACITY` slots. */
  predicate WellFormed(t: EternityTree) {
    && |t.slots| <= CAPACITY
    && forall i :: 0 <= i < |t.slots| && t.slots[i].Keep? ==> EpochWellFormed(t.slots[i].value)
  }

  /** The index maps exactly the witnessable commitments, each to its position. */
  ghost predicate IndexExact(t: EternityTree, index: map<Commitment, WithinEternity>) {
    && (forall c | c in index :: LeafAt(t, index[c]) == Some(c))
    && (forall p | LeafAt(t, p).Some? :: LeafAt(t, p).value in index && index[LeafAt(t, p).value] == p)
  }

  // ---------------------------------------------------------------------------------------
  // Forgetting

  function ForgetInBlock(b: BlockTree, epoch: nat, block: nat, forgotten: set<WithinEternity>): (r: BlockTree)
    ensures |r.slots| == |b.slots|
  {
    Tier(seq(|b.slots|, k requires 0 <= k < |b.slots| =>
      if WithinEternity(epoch, block, k) in forgotten && b.slots[k].Keep? then Insert<Commitment>.Hash(HashOf(b.slots[k].value))
      else b.slots[k]))
  }

  function ForgetInEpoch(e: EpochTree, epoch: nat, forgotten: set<WithinEternity>): (r: EpochTree)
    ensures |r.slots| == |e.slots|
  {
    Tier(seq(|e.slots|, j requires 0 <= j < |e.slots| =>
      match e.slots[j]
      case Keep(b) => Keep(ForgetInBlock(b, epoch, j, forgotten))
      case Hash(_) => e.slots[j]))
  }

  /**
   * The tier with every witnessable leaf at a position in `forgotten` replaced by its digest
   * (`Tier::forget`, applied to each of those positions). Nothing else changes.
   */
  function ForgetSet(t: EternityTree, forgotten: set<WithinEternity>): (r: EternityTree)
    ensures |r.slots| == |t.slots|
  {
    Tier(seq(|t.slots|, i requires 0 <= i < |t.slots| =>
      match t.slots[i]
      case Keep(e) => Keep(ForgetInEpoch(e, i, forgotten))
      case Hash(_) => t.slots[i]))
  }

  /** `Tier::forget`: forget the leaf at `p`, reporting whether it was witnessable. */
  function TierForget(t: EternityTree, p: WithinEternity): (r: (EternityTree, bool))
    ensures r.1 <==> LeafAt(t, p).Some?
    ensures r.0 == ForgetSet(t, {p})
  {
    (ForgetSet(t, {p}), LeafAt(t, p).Some?)
  }

  /** Forgetting removes exactly the positions forgotten from the witnessable leaves. */
  lemma ForgetSetLeafAt(t: EternityTree, forgotten: set<WithinEternity>, p: WithinEternity)
    ensures LeafAt(ForgetSet(t, forgotten), p) == if p in forgotten then None else LeafAt(t, p)
  {
    var t1 := ForgetSet(t, forgotten);
    if p.epoch < |t.slots| && t.slots[p.epoch].Keep? {
      var e := t.slots[p.epoch].value;
      var e1 := ForgetInEpoch(e, p.epoch, forgotten);
      assert t1.slots[p.epoch] == Keep(e1);
      if p.block < |e.slots| && e.slots[p.block].Keep? {
        var b := e.slots[p.block].value;
        assert e1.slots[p.block] == Keep(ForgetInBlock(b, p.epoch, p.block, forgotten));
      }
    }
  }

  lemma ForgetInBlockHash(b: BlockTree, epoch: nat, block: nat, forgotten: set<WithinEternity>)
    ensures BlockHash(ForgetInBlock(b, epoch, block, forgotten)) == BlockHash(b)
  {
    assert ChildHashes(ForgetInBlock(b, epoch, block, forgotten), HashOf) == ChildHashes(b, HashOf);
  }

  lemma ForgetInEpochHash(e: EpochTree, epoch: nat, forgotten: set<WithinEternity>)
    ensures EpochHash(ForgetInEpoch(e, epoch, forgotten)) == EpochHash(e)
  {
    var e1 := ForgetInEpoch(e, epoch, forgotten);
    forall j | 0 <= j < |e.slots|
      ensures SlotHash(e1.slots[j], BlockHash) == SlotHash(e.slots[j], BlockHash)
    {
      if e.slots[j].Keep? {
        ForgetInBlockHash(e.slots[j].value, epoch, j, forgotten);
      }
    }
    assert ChildHashes(e1, BlockHash) == ChildHashes(e, BlockHash);
  }

  /** Forgetting never changes the root: a forgotten leaf still contributes its digest. */
  lemma ForgetPreservesRoot(t: EternityTree, forgotten: set<WithinEternity>)
    ensures EternityHash(ForgetSet(t, forgotten)) == EternityHash(t)
  {
    var t1 := ForgetSet(t, forgotten);
    forall i | 0 <= i < |t.slots|
      ensures SlotHash(t1.slots[i], EpochHash) == SlotHash(t.slots[i], EpochHash)
    {
      if t.slots[i].Keep? {
        ForgetInEpochHash(t.slots[i].value, i, forgotten);
      }
    }
    assert ChildHashes(t1, EpochHash) == ChildHashes(t, EpochHash);
  }

  lemma ForgetInBlockTwice(b: BlockTree, epoch: nat, block: nat, s1: set<WithinEternity>, s2: set<WithinEternity>)
    ensures ForgetInBlock(ForgetInBlock(b, epoch, block, s1), epoch, block, s2) == ForgetInBlock(b, epoch, block, s1 + s2)
  {
  }

  lemma ForgetInEpochTwice(e: EpochTree, epoch: nat, s1: set<WithinEternity>, s2: set<WithinEternity>)
    ensures ForgetInEpoch(ForgetInEpoch(e, epoch, s1), epoch, s2) == ForgetInEpoch(e, epoch, s1 + s2)
  {
    var lhs := ForgetInEpoch(ForgetInEpoch(e, epoch, s1), epoch, s2);
    var rhs := ForgetInEpoch(e, epoch, s1 + s2);
    forall j | 0 <= j < |e.slots| ensures lhs.slots[j] == rhs.slots[j] {
      if e.slots[j].Keep? {
        ForgetInBlockTwice(e.slots[j].value, epoch, j, s1, s2);
      }
    }
  }

  /** Forgetting in two steps is forgetting the union of both sets at once. */
  lemma ForgetSetTwice(t: EternityTree, s1: set<WithinEternity>, s2: set<WithinEternity>)
    ensures ForgetSet(ForgetSet(t, s1), s2) == ForgetSet(t, s1 + s2)
  {
    var lhs := ForgetSet(ForgetSet(t, s1), s2);
    var rhs := ForgetSet(t, s1 + s2);
    forall i | 0 <= i < |t.slots| ensures lhs.slots[i] == rhs.slots[i] {
      if t.slots[i].Keep? {
        ForgetInEpochTwice(t.slots[i].value, i, s1, s2);
      }
    }
  }

  lemma ForgetNothing(t: EternityTree)
    ensures ForgetSet(t, {}) == t
  {
    var t1 := ForgetSet(t, {});
    forall i | 0 <= i < |t.slots| ensures t1.slots[i] == t.slots[i] {
      if t.slots[i].Keep? {
        var e := t.slots[i].value;
        var e1 := ForgetInEpoch(e, i, {});
        forall j | 0 <= j < |e.slots| ensures e1.slots[j] == e.slots[j] {
          if e.slots[j].Keep? {
            assert ForgetInBlock(e.slots[j].value, i, j, {}) == e.slots[j].value;
          }
        }
        assert e1 == e;
      }
    }
  }

  lemma ForgetSetWellFormed(t: EternityTree, forgotten: set<WithinEternity>)
    requires WellFormed(t)
    ensures WellFormed(ForgetSet(t, forgotten))
  {
    var t1 := ForgetSet(t, forgotten);
    forall i | 0 <= i < |t1.slots| && t1.slots[i].Keep? ensures EpochWellFormed(t1.slots[i].value) {
      var e := t.slots[i].value;
      var e1 := t1.slots[i].value;
      assert e1 == ForgetInEpoch(e, i, forgotten);
      forall j | 0 <= j < |e1.slots| && e1.slots[j].Keep? ensures BlockWellFormed(e1.slots[j].value) {
        assert e1.slots[j].value == ForgetInBlock(e.slots[j].value, i, j, forgotten);
      }
    }
  }

  lemma ForgetSetFocus(t: EternityTree, forgotten: set<WithinEternity>)
    ensures FocusTerm(ForgetSet(t, forgotten)) == FocusTerm(t)
  {
    var t1 := ForgetSet(t, forgotten);
    if |t.slots| > 0 && Focus(t).value.Keep? {
      var last := |t.slots| - 1;
      var e := t.slots[last].value;
      var e1 := ForgetInEpoch(e, last, forgotten);
      assert t1.slots[last] == Keep(e1);
      if |e.slots| > 0 && Focus(e).value.Keep? {
        assert e1.slots[|e.slots| - 1] == Keep(ForgetInBlock(Focus(e).value.value, last, |e.slots| - 1, forgotten));
      }
    }
  }

  /** Forgetting never changes the size count. */
  lemma ForgetPreservesLen(t: EternityTree, forgotten: set<WithinEternity>)
    ensures LenOf(ForgetSet(t, forgotten)) == LenOf(t)
  {
    ForgetSetFocus(t, forgotten);
  }

  // ---------------------------------------------------------------------------------------
  // Witnessing

  /** The digests of the other slots of one tier, before and after the slot on the path. */
  datatype Siblings = Siblings(before: seq<Hash>, after: seq<Hash>)

  /** The siblings on each of the three levels, from the top tier down. */
  datatype AuthPath = AuthPath(eternity: Siblings, epoch: Siblings, block: Siblings)

  function SiblingsAt<X>(t: Tier<X>, i: nat, hash: X -> Hash): Siblings
    requires i < |t.slots|
  {
    var hs := ChildHashes(t, hash);
    Siblings(hs[..i], hs[i + 1..])
  }

  /** The root an authentication path yields for a leaf digest. */
  function Recombine(path: AuthPath, leaf: Hash): Hash {
    var block := Node(1, path.block.before + [leaf] + path.block.after);
    var epoch := Node(2, path.epoch.before + [block] + path.epoch.after);
    Node(3, path.eternity.before + [epoch] + path.eternity.after)
  }

  lemma SiblingsSplit<X>(t: Tier<X>, i: nat, hash: X -> Hash)
    requires i < |t.slots|
    ensures var s := SiblingsAt(t, i, hash);
      TierHash(t, 0, hash).children == s.before + [SlotHash(t.slots[i], hash)] + s.after
  {
    var hs := ChildHashes(t, hash);
    assert hs == hs[..i] + [hs[i]] + hs[i + 1..];
  }

  /**
   * `Tier::witness`: the authentication path and leaf digest of the leaf at `p`, absent as soon
   * as a slot on the way is only a digest.
   */
  function TierWitness(t: EternityTree, p: WithinEternity): (r: Option<(AuthPath, Hash)>)
    ensures r.Some? <==> LeafAt(t, p).Some?
    ensures r.Some? ==> r.value.1 == HashOf(LeafAt(t, p).value)
    ensures r.Some? ==> Recombine(r.value.0, r.value.1) == EternityHash(t)
  {
    if LeafAt(t, p).None? then None
    else
      var e := t.slots[p.epoch].value;
      var b := e.slots[p.block].value;
      var path := AuthPath(SiblingsAt(t, p.epoch, EpochHash), SiblingsAt(e, p.block, BlockHash), SiblingsAt(b, p.item, HashOf));
      var leaf := HashOf(b.slots[p.item].value);
      SiblingsSplit(b, p.item, HashOf);
      SiblingsSplit(e, p.block, BlockHash);
      SiblingsSplit(t, p.epoch, EpochHash);
      Some((path, leaf))
  }

  // ---------------------------------------------------------------------------------------
  // Size count

  /**
   * The 32-bit term of `len()` contributed by the open epoch: none, a digest-only epoch
   * (`u32::MAX`), or for a kept epoch the term of its open block (none, a digest-only block
   * (`u16::MAX`), or the block's number of slots).
   */
  function FocusTerm(t: EternityTree): nat {
    match Focus(t)
    case None => 0
    case Some(Hash(_)) => 0xFFFF_FFFF
    case Some(Keep(e)) =>
      match Focus(e)
      case None => 0
      case Some(Hash(_)) => 0xFFFF
      case Some(Keep(b)) => |b.slots|
  }

  /**
   * `len()`: the number of epochs shifted left by 32, plus the focus term shifted left by 16
   * in 32-bit arithmetic, so that the bits shifted past bit 31 are lost.
   */
  function LenOf(t: EternityTree): nat {
    |t.slots| * 0x1_0000_0000 + (FocusTerm(t) * 0x1_0000) % 0x1_0000_0000
  }

  /** The count fits its 64-bit result, is zero exactly for an empty tier, and keeps the number of epochs in its high bits. */
  lemma LenBounds(t: EternityTree)
    requires WellFormed(t)
    ensures LenOf(t) < 0x1_0000_0000_0000 + 0x1_0000_0000 < 0x1_0000_0000_0000_0000
    ensures LenOf(t) == 0 <==> |t.slots| == 0
    ensures LenOf(t) / 0x1_0000_0000 == |t.slots|
  {
    var low := (FocusTerm(t) * 0x1_0000) % 0x1_0000_0000;
    assert 0 <= low < 0x1_0000_0000;
  }

  /**
   * While every count fits the 16 bits of `Tier::len()` (fewer than 65,536 epochs, and an open
   * block of fewer than 65,536 items), the value is the source's 64-bit `len()` exactly: it
   * stays below 2^48, and the only bits lost are those of `u32::MAX << 16` for a digest epoch.
   */
  lemma LenBelowCapacity(t: EternityTree)
    requires |t.slots| < CAPACITY
    requires FocusTerm(t) < CAPACITY || FocusTerm(t) == 0xFFFF_FFFF
    ensures LenOf(t) < 0x1_0000_0000_0000
    ensures LenOf(t) == |t.slots| * 0x1_0000_0000 +
      (if FocusTerm(t) == 0xFFFF_FFFF then 0xFFFF_0000 else FocusTerm(t) * 0x1_0000)
  {
    if FocusTerm(t) == 0xFFFF_FFFF {
      assert (0xFFFF_FFFF * 0x1_0000) % 0x1_0000_0000 == 0xFFFF_0000;
    } else {
      assert FocusTerm(t) * 0x1_0000 < 0x1_0000_0000;
    }
  }

  // ---------------------------------------------------------------------------------------
  // Shapes left behind by a successful insertion

  /** The tier, with a first (empty, kept) epoch opened when it has none. */
  function WithOpenEpoch(t: EternityTree): (r: EternityTree)
    ensures |r.slots| > 0 && (|t.slots| > 0 ==> r == t)
    ensures |t.slots| == 0 ==> r.slots == [Keep(EmptyEpoch().inner)]
  {
    if |t.slots| == 0 then Tier([Keep(EmptyEpoch().inner)]) else t
  }

  /** The open epoch of a tier whose last slot is kept. */
  function OpenEpoch(t: EternityTree): EpochTree
    requires |t.slots| > 0 && Focus(t).value.Keep?
  {
    Focus(t).value.value
  }

  /** Whether a single commitment can be added: there is no epoch yet, or the open epoch is kept and takes it. */
  predicate AcceptsItem(t: EternityTree) {
    || |t.slots| == 0
    || (Focus(t).value.Keep? && TakesItem(OpenEpoch(t)))
  }

  /** Where the next single commitment lands. */
  function NextPosition(t: EternityTree): WithinEternity
    requires AcceptsItem(t)
  {
    var t0 := WithOpenEpoch(t);
    InEpoch(|t0.slots| - 1, NextItem(OpenEpoch(t0)))
  }

  /** The tier after appending `x` to the open block of the open epoch. */
  function WithItem(t: EternityTree, x: Insert<Commitment>): EternityTree
    requires AcceptsItem(t)
  {
    var t0 := WithOpenEpoch(t);
    SetFocus(t0, Keep(AppendItem(OpenEpoch(t0), x)))
  }

  /** Whether a whole block can be added: there is no epoch yet, or the open epoch is kept and not full. */
  predicate AcceptsBlock(t: EternityTree) {
    || |t.slots| == 0
    || (Focus(t).value.Keep? && |OpenEpoch(t).slots| < CAPACITY)
  }

  /** The number of the epoch and of the block that the next block becomes. */
  function NextBlock(t: EternityTree): (nat, nat)
    requires AcceptsBlock(t)
  {
    var t0 := WithOpenEpoch(t);
    (|t0.slots| - 1, |OpenEpoch(t0).slots|)
  }

  /** The tier after appending the slot `s` as a new block of the open epoch. */
  function WithBlock(t: EternityTree, s: Insert<BlockTree>): EternityTree
    requires AcceptsBlock(t)
  {
    var t0 := WithOpenEpoch(t);
    SetFocus(t0, Keep(Tier(OpenEpoch(t0).slots + [s])))
  }

  /** The leaves of a slot that is about to become epoch or block: none when it is only a digest. */
  function SlotEpochLeaf(s: Insert<EpochTree>, q: WithinEpoch): Option<Commitment> {
    if s.Keep? then EpochLeafAt(s.value, q) else None
  }

  function SlotBlockLeaf(s: Insert<BlockTree>, item: nat): Option<Commitment> {
    if s.Keep? then BlockLeafAt(s.value, item) else None
  }

  /** Replacing the open epoch changes the leaves of that epoch only. */
  lemma SetFocusLeaves(t: EternityTree, e: EpochTree, p: WithinEternity)
    requires |t.slots| > 0
    ensures LeafAt(SetFocus(t, Keep(e)), p) ==
      if p.epoch == |t.slots| - 1 then EpochLeafAt(e, WithinEpoch(p.block, p.item)) else LeafAt(t, p)
  {
  }

  /** Opening a first epoch adds no leaf. */
  lemma WithOpenEpochLeaves(t: EternityTree, p: WithinEternity)
    ensures LeafAt(WithOpenEpoch(t), p) == LeafAt(t, p)
  {
    if |t.slots| == 0 {
      assert EpochLeafAt(EmptyEpoch().inner, WithinEpoch(p.block, p.item)) == None;
    }
  }

  /** Appending a commitment changes the leaves at its new position only, which was empty. */
  lemma WithItemLeaves(t: EternityTree, x: Insert<Commitment>, p: WithinEternity)
    requires AcceptsItem(t)
    ensures LeafAt(t, NextPosition(t)) == None
    ensures LeafAt(WithItem(t, x), p) == if p == NextPosition(t) then ItemLeaf(x) else LeafAt(t, p)
  {
    var t0 := WithOpenEpoch(t);
    var e := OpenEpoch(t0);
    var q := WithinEpoch(p.block, p.item);
    AppendItemLeaves(e, x, q);
    AppendItemLeaves(e, x, NextItem(e));
    SetFocusLeaves(t0, AppendItem(e, x), p);
    WithOpenEpochLeaves(t, p);
    WithOpenEpochLeaves(t, NextPosition(t));
  }

  /** Appending a block changes the leaves inside the new block only, which was empty. */
  lemma WithBlockLeaves(t: EternityTree, s: Insert<BlockTree>, p: WithinEternity)
    requires AcceptsBlock(t)
    ensures var (epoch, block) := NextBlock(t);
      && (p.epoch == epoch && p.block == block ==> LeafAt(t, p) == None && LeafAt(WithBlock(t, s), p) == SlotBlockLeaf(s, p.item))
      && (p.epoch != epoch || p.block != block ==> LeafAt(WithBlock(t, s), p) == LeafAt(t, p))
  {
    var t0 := WithOpenEpoch(t);
    var e := OpenEpoch(t0);
    var e1 := Tier(e.slots + [s]);
    SetFocusLeaves(t0, e1, p);
    WithOpenEpochLeaves(t, p);
  }

  /** Appending an epoch changes the leaves inside the new epoch only, which was empty. */
  lemma PushEpochLeaves(t: EternityTree, s: Insert<EpochTree>, p: WithinEternity)
    ensures p.epoch == |t.slots| ==> LeafAt(t, p) == None && LeafAt(Tier(t.slots + [s]), p) == SlotEpochLeaf(s, WithinEpoch(p.block, p.item))
    ensures p.epoch != |t.slots| ==> LeafAt(Tier(t.slots + [s]), p) == LeafAt(t, p)
  {
  }

  lemma WithItemWellFormed(t: EternityTree, x: Insert<Commitment>)
    requires AcceptsItem(t) && WellFormed(t)
    ensures WellFormed(WithItem(t, x))
  {
    var t0 := WithOpenEpoch(t);
    AppendItemWellFormed(OpenEpoch(t0), x);
  }

  lemma WithBlockWellFormed(t: EternityTree, s: Insert<BlockTree>)
    requires AcceptsBlock(t) && WellFormed(t)
    requires s.Keep? ==> BlockWellFormed(s.value)
    ensures WellFormed(WithBlock(t, s))
  {
    var t0 := WithOpenEpoch(t);
    var e1 := Tier(OpenEpoch(t0).slots + [s]);
    assert EpochWellFormed(e1);
  }

  // ---------------------------------------------------------------------------------------
  // Index exactness across insertions

  /** The positions an insertion fills: one epoch, optionally one block of it, optionally one item of that. */
  datatype Region = Region(epoch: nat, block: Option<nat>, item: Option<nat>) {
    predicate Contains(p: WithinEternity) {
      && p.epoch == epoch
      && (block.None? || p.block == block.value)
      && (item.None? || p.item == item.value)
    }
  }

  /**
   * Adding leaves in a region that had none, indexing exactly those (`local`) and forgetting
   * the positions the re-indexed commitments had before keeps the index exact.
   */
  lemma MergeKeepsIndexExact(t: EternityTree, index: map<Commitment, WithinEternity>, t1: EternityTree,
                             region: Region, local: map<Commitment, WithinEternity>)
    requires IndexExact(t, index)
    requires forall p | region.Contains(p) :: LeafAt(t, p).None?
    requires forall p | !region.Contains(p) :: LeafAt(t1, p) == LeafAt(t, p)
    requires forall c | c in local :: region.Contains(local[c]) && LeafAt(t1, local[c]) == Some(c)
    requires forall p | region.Contains(p) && LeafAt(t1, p).Some? ::
               LeafAt(t1, p).value in local && local[LeafAt(t1, p).value] == p
    ensures IndexExact(ForgetSet(t1, Evicted(index, local.Keys)), index + local)
  {
    var evicted := Evicted(index, local.Keys);
    var t2 := ForgetSet(t1, evicted);
    var index2 := index + local;
    forall c | c in index2 ensures LeafAt(t2, index2[c]) == Some(c) {
      var p := index2[c];
      ForgetSetLeafAt(t1, evicted, p);
      forall c' | c' in local && c' in index ensures index[c'] != p {
        assert LeafAt(t, index[c']) == Some(c');
      }
    }
    forall p | LeafAt(t2, p).Some? ensures LeafAt(t2, p).value in index2 && index2[LeafAt(t2, p).value] == p {
      ForgetSetLeafAt(t1, evicted, p);
      var c := LeafAt(t2, p).value;
      assert p !in evicted && LeafAt(t1, p) == Some(c);
      if !region.Contains(p) {
        assert LeafAt(t, p) == Some(c);
        assert c in index && index[c] == p;
      }
    }
  }

  /** Forgetting an indexed commitment and dropping its index entry keeps the index exact. */
  lemma ForgetKeepsIndexExact(t: EternityTree, index: map<Commitment, WithinEternity>, c: Commitment)
    requires IndexExact(t, index) && c in index
    ensures IndexExact(ForgetSet(t, {index[c]}), index - {c})
  {
    var t1 := ForgetSet(t, {index[c]});
    forall c' | c' in index - {c} ensures LeafAt(t1, index[c']) == Some(c') {
      ForgetSetLeafAt(t, {index[c]}, index[c']);
    }
    forall p | LeafAt(t1, p).Some? ensures LeafAt(t1, p).value in index - {c} && (index - {c})[LeafAt(t1, p).value] == p {
      ForgetSetLeafAt(t, {index[c]}, p);
    }
  }

  /** The entries a single insertion adds to the index: one for a kept commitment, none for a digest. */
  function ItemEntries(x: Insert<Commitment>, p: WithinEternity): (r: map<Commitment, WithinEternity>)
    ensures x.Hash? ==> r == map[]
    ensures x.Keep? ==> r == map[x.value := p]
  {
    match x
    case Keep(c) => map[c := p]
    case Hash(_) => map[]
  }

  /** The slot an epoch occupies in the eternity: its tier, or only its digest. */
  function EpochSlot(epoch: Insert<Epoch>): (s: Insert<EpochTree>)
    ensures s.Keep? <==> epoch.Keep?
    ensures s.Keep? ==> s.value == epoch.value.inner
    ensures s.Hash? ==> s.hash == epoch.hash
  {
    match epoch
    case Keep(e) => Keep(e.inner)
    case Hash(h) => Hash(h)
  }

  /** The entries an epoch's local index contributes when it becomes epoch number `epochNo`. */
  function EpochEntries(epoch: Insert<Epoch>, epochNo: nat): (r: map<Commitment, WithinEternity>)
    ensures epoch.Hash? ==> r == map[]
    ensures epoch.Keep? ==> r == Relocated(epoch.value.index, epochNo)
  {
    match epoch
    case Keep(e) => Relocated(e.index, epochNo)
    case Hash(_) => map[]
  }

  /**
   * One step of forgetting the positions in `all` one at a time: the next position still has
   * its leaf, and forgetting it moves the loop on to `todo - {p}`.
   */
  lemma ForgetStep(t: EternityTree, all: set<WithinEternity>, todo: set<WithinEternity>, p: WithinEternity)
    requires todo <= all && p in todo
    ensures LeafAt(ForgetSet(t, all - todo), p) == LeafAt(t, p)
    ensures ForgetSet(ForgetSet(t, all - todo), {p}) == ForgetSet(t, all - (todo - {p}))
  {
    ForgetSetLeafAt(t, all - todo, p);
    ForgetSetTwice(t, all - todo, {p});
    assert (all - todo) + {p} == all - (todo - {p});
  }

  /**
   * The state of the re-indexing loop over `entries` with `todo` still to go, starting from
   * tier `t` and index `index0`: the entries done are written, and the positions they
   * evicted are forgotten.
   */
  ghost predicate Reindexed(t: EternityTree, index0: map<Commitment, WithinEternity>, entries: map<Commitment, WithinEternity>,
                            todo: set<Commitment>, index: map<Commitment, WithinEternity>, inner: EternityTree)
  {
    && todo <= entries.Keys
    && index == index0 + Restrict(entries, entries.Keys - todo)
    && inner == ForgetSet(t, Evicted(index0, entries.Keys - todo))
  }

  lemma ReindexedStart(t: EternityTree, index0: map<Commitment, WithinEternity>, entries: map<Commitment, WithinEternity>)
    ensures Reindexed(t, index0, entries, entries.Keys, index0, t)
  {
    assert entries.Keys - entries.Keys == {};
    assert Restrict(entries, {}) == map[];
    ForgetEvictedNothing(t, index0);
  }

  /**
   * One step of the re-indexing loop: `c` still has its original entry; writing its new entry
   * and forgetting the position it had, if any, moves the loop on to `todo - {c}`.
   */
  lemma ReindexedStep(t: EternityTree, index0: map<Commitment, WithinEternity>, entries: map<Commitment, WithinEternity>,
                      todo: set<Commitment>, index: map<Commitment, WithinEternity>, inner: EternityTree, c: Commitment)
    requires Reindexed(t, index0, entries, todo, index, inner) && c in todo
    ensures c in index <==> c in index0
    ensures c in index ==> index[c] == index0[c]
    ensures Reindexed(t, index0, entries, todo - {c}, index[c := entries[c]],
                      if c in index then ForgetSet(inner, {index[c]}) else inner)
  {
    var done := entries.Keys - todo;
    assert done + {c} == entries.Keys - (todo - {c});
    ReindexStep(index0, entries, done, c);
    if c in index0 {
      ForgetSetTwice(t, Evicted(index0, done), {index0[c]});
    } else {
      assert Evicted(index0, done) + {} == Evicted(index0, done);
    }
  }

  lemma ReindexedDone(t: EternityTree, index0: map<Commitment, WithinEternity>, entries: map<Commitment, WithinEternity>,
                      index: map<Commitment, WithinEternity>, inner: EternityTree)
    requires Reindexed(t, index0, entries, {}, index, inner)
    ensures index == index0 + entries && inner == ForgetSet(t, Evicted(index0, entries.Keys))
  {
    assert entries.Keys - {} == entries.Keys;
    assert Restrict(entries, entries.Keys) == entries;
  }

  /**
   * A single insertion keeps the tier well formed and the index exact, and every position it
   * evicts still holds a witnessable leaf just before it is forgotten.
   */
  lemma InsertItemStep(t: EternityTree, index: map<Commitment, WithinEternity>, x: Insert<Commitment>)
    requires WellFormed(t) && IndexExact(t, index) && AcceptsItem(t)
    ensures var entries := ItemEntries(x, NextPosition(t));
      && WellFormed(ForgetSet(WithItem(t, x), Evicted(index, entries.Keys)))
      && IndexExact(ForgetSet(WithItem(t, x), Evicted(index, entries.Keys)), index + entries)
  {
    var pos := NextPosition(t);
    var entries := ItemEntries(x, pos);
    var t1 := WithItem(t, x);
    var region := Region(pos.epoch, Some(pos.block), Some(pos.item));
    forall p ensures LeafAt(t1, p) == if p == pos then ItemLeaf(x) else LeafAt(t, p) {
      WithItemLeaves(t, x, p);
    }
    WithItemLeaves(t, x, pos);
    MergeKeepsIndexExact(t, index, t1, region, entries);
    WithItemWellFormed(t, x);
    ForgetSetWellFormed(t1, Evicted(index, entries.Keys));
  }

  /** The position a single insertion evicts still holds a witnessable leaf just before it is forgotten. */
  lemma InsertItemEvicted(t: EternityTree, index: map<Commitment, WithinEternity>, x: Insert<Commitment>)
    requires IndexExact(t, index) && AcceptsItem(t)
    ensures var entries := ItemEntries(x, NextPosition(t));
      forall p | p in Evicted(index, entries.Keys) :: LeafAt(WithItem(t, x), p).Some?
  {
    var pos := NextPosition(t);
    var entries := ItemEntries(x, pos);
    WithItemLeaves(t, x, pos);
    forall p | p in Evicted(index, entries.Keys) ensures LeafAt(WithItem(t, x), p).Some? {
      WithItemLeaves(t, x, p);
    }
  }

  /** Adding a block (or its root) keeps the tier well formed and the index exact, as `InsertItemStep`. */
  lemma InsertBlockStep(t: EternityTree, index: map<Commitment, WithinEternity>, block: Insert<Block>)
    requires WellFormed(t) && IndexExact(t, index) && AcceptsBlock(t)
    requires block.Keep? ==> BlockValid(block.value)
    ensures var (epoch, blockNo) := NextBlock(t);
      var entries := Located(block, epoch, blockNo);
      && WellFormed(ForgetSet(WithBlock(t, BlockSlot(block)), Evicted(index, entries.Keys)))
      && IndexExact(ForgetSet(WithBlock(t, BlockSlot(block)), Evicted(index, entries.Keys)), index + entries)
      && forall p | p in Evicted(index, entries.Keys) :: LeafAt(WithBlock(t, BlockSlot(block)), p).Some?
  {
    var (epoch, blockNo) := NextBlock(t);
    var entries := Located(block, epoch, blockNo);
    var slot := BlockSlot(block);
    var t1 := WithBlock(t, slot);
    var region := Region(epoch, Some(blockNo), None);
    forall p ensures region.Contains(p) ==> LeafAt(t, p) == None && LeafAt(t1, p) == SlotBlockLeaf(slot, p.item)
      ensures !region.Contains(p) ==> LeafAt(t1, p) == LeafAt(t, p)
    {
      WithBlockLeaves(t, slot, p);
    }
    MergeKeepsIndexExact(t, index, t1, region, entries);
    WithBlockWellFormed(t, slot);
    ForgetSetWellFormed(t1, Evicted(index, entries.Keys));
  }

  /** Adding an epoch (or its root) keeps the tier well formed and the index exact, as `InsertItemStep`. */
  lemma InsertEpochStep(t: EternityTree, index: map<Commitment, WithinEternity>, epoch: Insert<Epoch>)
    requires WellFormed(t) && IndexExact(t, index) && |t.slots| < CAPACITY
    requires epoch.Keep? ==> EpochValid(epoch.value)
    ensures var entries := EpochEntries(epoch, |t.slots|);
      var t1 := Tier(t.slots + [EpochSlot(epoch)]);
      && WellFormed(ForgetSet(t1, Evicted(index, entries.Keys)))
      && IndexExact(ForgetSet(t1, Evicted(index, entries.Keys)), index + entries)
  {
    var entries := EpochEntries(epoch, |t.slots|);
    var slot := EpochSlot(epoch);
    var t1 := Tier(t.slots + [slot]);
    var region := Region(|t.slots|, None, None);
    forall p ensures region.Contains(p) ==> LeafAt(t, p) == None && LeafAt(t1, p) == SlotEpochLeaf(slot, WithinEpoch(p.block, p.item))
      ensures !region.Contains(p) ==> LeafAt(t1, p) == LeafAt(t, p)
    {
      PushEpochLeaves(t, slot, p);
    }
    forall c | c in entries ensures region.Contains(entries[c]) && LeafAt(t1, entries[c]) == Some(c) {
      PushEpochLeaves(t, slot, entries[c]);
    }
    MergeKeepsIndexExact(t, index, t1, region, entries);
    assert WellFormed(t1);
    ForgetSetWellFormed(t1, Evicted(index, entries.Keys));
  }

  /**
   * Inserting a commitment kept or only as its digest yields the same root: whether a
   * commitment is witnessed never shows in the root.
   */
  lemma WithItemSameRoot(t: EternityTree, c: Commitment)
    requires AcceptsItem(t)
    ensures EternityHash(WithItem(t, Keep(c))) == EternityHash(WithItem(t, Insert<Commitment>.Hash(HashOf(c))))
  {
    var t0 := WithOpenEpoch(t);
    var e0 := WithOpenBlock(OpenEpoch(t0));
    var b := Focus(e0).value.value;
    var ba := Tier(b.slots + [Keep(c)]);
    var bb := Tier(b.slots + [Insert<Commitment>.Hash(HashOf(c))]);
    LastSlotSameHash(b.slots, Keep(c), Insert<Commitment>.Hash(HashOf(c)), 1, HashOf);
    var front := e0.slots[..|e0.slots| - 1];
    LastSlotSameHash(front, Keep(ba), Keep(bb), 2, BlockHash);
    var ea := Tier(front + [Keep(ba)]);
    var eb := Tier(front + [Keep(bb)]);
    LastSlotSameHash(t0.slots[..|t0.slots| - 1], Keep(ea), Keep(eb), 3, EpochHash);
  }

  // ---------------------------------------------------------------------------------------
  // What the epoch handle leaves behind, in the eternity's terms

  /** Evicting on behalf of no commitment forgets nothing. */
  lemma ForgetEvictedNothing(t: EternityTree, index: map<Commitment, WithinEternity>)
    ensures ForgetSet(t, Evicted(index, {})) == t
  {
    assert Evicted(index, {}) == {};
    ForgetNothing(t);
  }

  /** Adding `Epoch::new()` to an empty tier opens its first epoch and indexes nothing. */
  lemma OpenFirstEpoch(t: EternityTree, index: map<Commitment, WithinEternity>)
    requires |t.slots| == 0
    ensures var entries := EpochEntries(Keep(EmptyEpoch()), 0);
      && index + entries == index
      && ForgetSet(Tier(t.slots + [Keep(EmptyEpoch().inner)]), Evicted(index, entries.Keys)) == WithOpenEpoch(t)
  {
    assert EpochEntries(Keep(EmptyEpoch()), 0).Keys == {};
    ForgetEvictedNothing(Tier(t.slots + [Keep(EmptyEpoch().inner)]), index);
  }

  /**
   * `EpochMut::insert` on the open epoch (opened first when there is none), read back in the
   * eternity: it succeeds exactly when the tier accepts an item, and otherwise refuses with the
   * open block's condition (never with `Full`).
   */
  lemma InsertItemRefusal(t: EternityTree, index: map<Commitment, WithinEternity>, x: Insert<Commitment>)
    requires |t.slots| == 0 || Focus(t).value.Keep?
    ensures var t0 := WithOpenEpoch(t);
      var res := MutInsert(OpenEpoch(t0), |t0.slots| - 1, index, x);
      && (res.Ok? <==> AcceptsItem(t))
      && res != Err(Epochs.InsertError.Full)
      && (res == Err(BlockForgotten) <==> |t.slots| > 0 && |OpenEpoch(t).slots| > 0 && Focus(OpenEpoch(t)).value.Hash?)
      && (res == Err(BlockFull) <==>
            |t.slots| > 0 && |OpenEpoch(t).slots| > 0 && Focus(OpenEpoch(t)).value.Keep? &&
            |Focus(OpenEpoch(t)).value.value.slots| >= CAPACITY)
  {
  }

  /**
   * On success, `EpochMut::insert` on the open epoch leaves `WithItem` behind, indexes the
   * item at `NextPosition` and reports exactly the evicted position.
   */
  lemma InsertItemShape(t: EternityTree, index: map<Commitment, WithinEternity>, x: Insert<Commitment>)
    requires AcceptsItem(t)
    ensures var t0 := WithOpenEpoch(t);
      var res := MutInsert(OpenEpoch(t0), |t0.slots| - 1, index, x);
      var entries := ItemEntries(x, NextPosition(t));
      && res.Ok?
      && SetFocus(t0, Keep(res.value.tree)) == WithItem(t, x)
      && res.value.index == index + entries
      && Evicted(index, entries.Keys) == if res.value.replaced.Some? then {res.value.replaced.value} else {}
  {
    var t0 := WithOpenEpoch(t);
    var res := MutInsert(OpenEpoch(t0), |t0.slots| - 1, index, x);
    var entries := ItemEntries(x, NextPosition(t));
    if x.Keep? {
      assert res.value.index == index + entries;
      assert x.value in index ==> Evicted(index, entries.Keys) == {index[x.value]};
    }
  }

  /**
   * `EpochMut::insert_block_or_root` on the open epoch (opened first when there is none), read
   * back in the eternity: it succeeds exactly when the tier accepts a block, hands the block
   * back otherwise, and on success leaves `WithBlock` behind with the block's commitments
   * indexed in block `NextBlock`, reporting the positions they had.
   */
  lemma InsertBlockShape(t: EternityTree, index: map<Commitment, WithinEternity>, block: Insert<Block>)
    requires |t.slots| == 0 || Focus(t).value.Keep?
    ensures var t0 := WithOpenEpoch(t);
      var res := MutInsertBlockOrRoot(OpenEpoch(t0), |t0.slots| - 1, index, block);
      && (res.Ok? <==> AcceptsBlock(t))
      && (res.Err? ==> res.error == block)
      && (res.Ok? ==>
            var entries := Located(block, NextBlock(t).0, NextBlock(t).1);
            && SetFocus(t0, Keep(res.value.tree)) == WithBlock(t, BlockSlot(block))
            && res.value.index == index + entries
            && res.value.replaced == Evicted(index, entries.Keys))
  {
  }

  /** Appending an epoch root appends that digest to the top tier's children. */
  lemma PushRootHash(t: EternityTree, root: Hash)
    ensures EternityHash(Tier(t.slots + [Insert<EpochTree>.Hash(root)])) == Node(3, ChildHashes(t, EpochHash) + [root])
  {
    assert ChildHashes(Tier(t.slots + [Insert<EpochTree>.Hash(root)]), EpochHash) == ChildHashes(t, EpochHash) + [root];
  }
}
