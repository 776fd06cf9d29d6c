/** Positions of a commitment, as recorded in the indices of an epoch and of the eternity. */
module Index {
  import opened Hashing

  /** `index::within::Epoch`: a block of the epoch and an item of that block. */
  datatype WithinEpoch = WithinEpoch(block: nat, item: nat)

  /** `index::within::Eternity`: an epoch, a block of it and an item of that block. */
  datatype WithinEternity = WithinEternity(epoch: nat, block: nat, item: nat)

  /** The eternity position of a position within the epoch numbered `epoch`. */
  function InEpoch(epoch: nat, q: WithinEpoch): WithinEternity {
    WithinEternity(epoch, q.block, q.item)
  }

  /**
   * The positions an index gives up when the commitments in `keys` are re-indexed: the previous
   * position of every one of them that was already indexed.
   */
  function Evicted(index: map<Commitment, WithinEternity>, keys: set<Commitment>): (r: set<WithinEternity>)
    ensures forall c | c in keys && c in index :: index[c] in r
    ensures forall p | p in r :: exists c :: c in keys && c in index && index[c] == p
  {
    set c | c in keys && c in index :: index[c]
  }

  /** An epoch's index moved into the eternity as epoch number `epoch`. */
  function Relocated(epochIndex: map<Commitment, WithinEpoch>, epoch: nat): (r: map<Commitment, WithinEternity>)
    ensures r.Keys == epochIndex.Keys
    ensures forall c | c in r :: r[c] == InEpoch(epoch, epochIndex[c])
  {
    map c | c in epochIndex :: InEpoch(epoch, epochIndex[c])
  }

  /** The entries of `m` whose keys are in `keys`. */
  function Restrict<K, V>(m: map<K, V>, keys: set<K>): (r: map<K, V>)
    ensures r.Keys == keys * m.Keys
    ensures forall k | k in r :: r[k] == m[k]
  {
    map k | k in keys && k in m :: m[k]
  }

  /**
   * One step of re-indexing the commitments of `entries` one at a time over `index0`: the
   * commitment `c` still has its original entry, writing its new one extends the entries
   * written so far by `c`, and its original position, if any, joins the evicted ones.
   */
  lemma ReindexStep(index0: map<Commitment, WithinEternity>, entries: map<Commitment, WithinEternity>,
                    done: set<Commitment>, c: Commitment)
    requires c in entries && c !in done
    ensures var index := index0 + Restrict(entries, done);
      && (c in index <==> c in index0)
      && (c in index ==> index[c] == index0[c])
      && index[c := entries[c]] == index0 + Restrict(entries, done + {c})
      && Evicted(index0, done + {c}) == Evicted(index0, done) + (if c in index0 then {index0[c]} else {})
  {
    var index := index0 + Restrict(entries, done);
    assert index[c := entries[c]] == index0 + Restrict(entries, done + {c});
  }
}
