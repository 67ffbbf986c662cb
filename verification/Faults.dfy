/** What can befall one access to a store. */
module Faults {

  /** It works, or fails without its effect, or fails although it took effect. */
  datatype Fate = Works | FailsUndone | FailsDone
}
