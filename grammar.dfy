/** The tags of the two value types of src/grammar.rs. */
module Grammar {

  /** `Number::TAG`. */
  const NUMBER_TAG: nat := 0

  /** `Pair::TAG`. */
  const PAIR_TAG: nat := 1
}
