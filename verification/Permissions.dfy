/** What an owner can allow (`crates/zbacs-core/src/header.rs`). */
module Permissions {
  datatype Permission = Deny | ReadOnly | Edit {
    /** The number on the wire and on the chain. */
    function Code(): nat {
      match this
      case Deny => 0
      case ReadOnly => 1
      case Edit => 2
    }
  }
}
