module ExtendedReals {
  /** A real number or positive infinity. */
  datatype Extended = Finite(value: real) | Infinity {
    predicate LessThan(other: Extended) {
      Finite? && (other.Finite? ==> value < other.value)
    }
  }
}
