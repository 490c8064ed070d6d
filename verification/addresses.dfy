/**
 * The postal address that identifies a property. `Address` and `PostCode` are not part
 * of this model: an address is reduced to its printed form, which is its identity, its
 * sort key and the text that appears in error messages.
 */
module Addresses {
  import JavaStrings

  datatype Address = Address(text: string)

  /** The order of properties, taken here as `String.compareTo` on the printed address. */
  function CompareAddresses(a: Address, b: Address): int {
    JavaStrings.CompareTo(a.text, b.text)
  }
}
