/** The range of sequence numbers. */
module SequenceNumbers {
  /** kMaxSequenceNumber: sequence numbers use 56 bits, so that a type fits beside them. */
  const MAX_SEQUENCE: nat := 0xFF_FFFF_FFFF_FFFF
}
