/** Nullable cells: a pandas NaN / NaT / None is `None`, a present value is `Some`. */
module Nullable {

  datatype Option<+T> = None | Some(value: T) {

    /** The value, or `default` when the cell is null (pandas `fillna` / `.get(col, default)`). */
    function GetOr(default: T): T {
      match this
      case Some(v) => v
      case None => default
    }
  }

  /** A pandas comparison `col >= t` on a nullable numeric cell: NaN compares false. */
  predicate AtLeast(v: Option<real>, t: real) {
    v.Some? && v.value >= t
  }
}
