/** Compile-time traits of element types that switch container methods
    between their working and their degraded forms. */
module Traits {

  /** For a vector these describe Value_T; for a map, `comparable` describes
      Mapped_T, `copyable` the entry type and `printable` both Key_T and
      Mapped_T; for a pair they describe both members together.
      - comparable: detail::is_comparable_v (operator== exists)
      - copyable: std::is_copy_constructible_v
      - defaultConstructible: std::is_default_constructible_v
      - printable: detail::is_ostreamable_v (operator<< exists) */
  datatype ElementTraits = ElementTraits(
    comparable: bool,
    copyable: bool,
    defaultConstructible: bool,
    printable: bool)

  /** What every to_s renders when the element type cannot be streamed. */
  const NotPrintable: string := "[Not printable]"
}
