/** Values shared by the tree model and the edit operations. */
module Ndef {

  /** Stands in for `null` / a present object reference. */
  datatype Option<+T> = None | Some(value: T)

  /**
   * Identity of an NDEF record object of the record graph. The model never looks
   * inside a record: it only compares identities.
   */
  type RecordId = nat
}
