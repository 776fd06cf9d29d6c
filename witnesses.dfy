/** The crate-level `Witness` choice made for each inserted commitment. */
module Witnesses {
  /** Whether an inserted commitment is kept witnessable or only its digest is stored. */
  datatype Witness = Keep | Forget
}
