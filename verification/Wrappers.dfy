/** Types that several components share. */
module Wrappers {

  datatype Option<+T> = None | Some(value: T)

  /** What a trigger records about a row: the column TG_OP of every audit table. */
  datatype TgOp = INSERT | UPDATE | DELETE
}
