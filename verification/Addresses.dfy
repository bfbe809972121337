/** Normalised mailbox addresses; two addresses are the same mailbox when their values agree. */
module Addresses {

  datatype Address = Address(value: string, domain: string)
  {
    predicate Equals(other: Address) {
      value == other.value
    }
  }
}
