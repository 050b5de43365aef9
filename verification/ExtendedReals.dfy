/** Reals with a positive infinity, for ends of ranges and readings that may be infinite. */
module ExtendedReals {

  datatype Ext = Fin(value: real) | Inf {
    predicate Le(other: Ext) {
      other.Inf? || (Fin? && value <= other.value)
    }

    predicate Lt(other: Ext) {
      !other.Le(this)
    }
  }

  function MaxExt(a: Ext, b: Ext): (m: Ext)
    ensures a.Le(m) && b.Le(m) && (m == a || m == b)
  {
    if a.Le(b) then b else a
  }
}
