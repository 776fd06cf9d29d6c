/**
 * The generic `Tier<X>`: an append-only sequence of at most 65,536 slots, each holding either
 * the element itself (`Keep`) or only its digest (`Hash`). The last slot is the focus, the only
 * one that may still be updated. Only the behaviour the eternity relies on is modelled.
 */
module Tiers {
  import opened Wrappers
  import opened Hashing

  /** Number of slots of every tier. */
  const CAPACITY: nat := 65536

  /** `Insert<X>`: a slot of a tier, either the element or only its digest. */
  datatype Insert<+X> = Keep(value: X) | Hash(hash: Hashing.Hash)

  datatype Tier<+X> = Tier(slots: seq<Insert<X>>)

  /** `Tier::len`: the number of slots, zero exactly for an empty tier. */
  function Len<X>(t: Tier<X>): (n: nat)
    ensures n == 0 <==> t.slots == []
  {
    |t.slots|
  }

  /**
   * `Tier::insert`: appends a new focus; when the tier is full, the slot is handed back
   * unchanged.
   */
  function Push<X>(t: Tier<X>, x: Insert<X>): (r: Result<Tier<X>, Insert<X>>)
    ensures r.Err? <==> |t.slots| >= CAPACITY
    ensures r.Err? ==> r.error == x
    ensures r.Ok? ==> r.value.slots == t.slots + [x]
  {
    if |t.slots| >= CAPACITY then Err(x) else Ok(Tier(t.slots + [x]))
  }

  /** `Tier::focus`: the most recently appended slot, if any. */
  function Focus<X>(t: Tier<X>): (r: Option<Insert<X>>)
    ensures r.None? <==> |t.slots| == 0
    ensures r.Some? ==> r.value == t.slots[|t.slots| - 1]
  {
    if |t.slots| == 0 then None else Some(t.slots[|t.slots| - 1])
  }

  /** The focus replaced by `x`, as left behind by `Tier::update`; earlier slots are untouched. */
  function SetFocus<X>(t: Tier<X>, x: Insert<X>): (r: Tier<X>)
    requires |t.slots| > 0
    ensures |r.slots| == |t.slots| && Focus(r) == Some(x)
    ensures forall i :: 0 <= i < |t.slots| - 1 ==> r.slots[i] == t.slots[i]
  {
    Tier(t.slots[..|t.slots| - 1] + [x])
  }

  /**
   * The digest a slot contributes to its tier. A `Hash` slot contributes its stored digest,
   * so a kept element and its summary contribute the same one (see `SummaryIsTransparent`).
   */
  function SlotHash<X>(s: Insert<X>, hash: X -> Hashing.Hash): Hashing.Hash {
    match s
    case Keep(x) => hash(x)
    case Hash(h) => h
  }

  function ChildHashes<X>(t: Tier<X>, hash: X -> Hashing.Hash): (hs: seq<Hashing.Hash>)
    ensures |hs| == |t.slots|
    ensures forall i :: 0 <= i < |hs| ==> hs[i] == SlotHash(t.slots[i], hash)
  {
    seq(|t.slots|, i requires 0 <= i < |t.slots| => SlotHash(t.slots[i], hash))
  }

  /**
   * `Tier::hash`: the combination of the slots' digests at the given height. It commits to
   * the height and to every slot's digest in order, and is never a single commitment's digest.
   */
  function TierHash<X>(t: Tier<X>, height: nat, hash: X -> Hashing.Hash): (h: Hashing.Hash)
    ensures h.Node? && h.height == height && |h.children| == |t.slots|
    ensures forall i :: 0 <= i < |t.slots| ==> h.children[i] == SlotHash(t.slots[i], hash)
  {
    Node(height, ChildHashes(t, hash))
  }

  /** Replacing a kept element by its digest never changes what its slot contributes. */
  lemma SummaryIsTransparent<X>(x: X, hash: X -> Hashing.Hash)
    ensures SlotHash(Keep(x), hash) == SlotHash(Insert<X>.Hash(hash(x)), hash)
  {
  }

  /** Two last slots that contribute the same digest give the same tier hash. */
  lemma LastSlotSameHash<X>(s: seq<Insert<X>>, a: Insert<X>, b: Insert<X>, height: nat, hash: X -> Hashing.Hash)
    requires SlotHash(a, hash) == SlotHash(b, hash)
    ensures TierHash(Tier(s + [a]), height, hash) == TierHash(Tier(s + [b]), height, hash)
  {
    assert ChildHashes(Tier(s + [a]), hash) == ChildHashes(Tier(s + [b]), hash);
  }
}
