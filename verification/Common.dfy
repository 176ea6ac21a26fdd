/** What several of the models share. */
module Common {

  datatype Option<T> = None | Some(value: T)

  /** The number of values of a 32-bit word */
  const WORD: nat := 0x1_0000_0000
}
