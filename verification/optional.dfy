/** A cell of the catalog table that may be missing (pandas' NaN or NaT). */
module Optional {

  datatype Option<+T> = None | Some(value: T) {

    /** The value, or `default` when the cell is missing (pandas' fillna). */
    function GetOr(default: T): T {
      match this
      case Some(v) => v
      case None => default
    }
  }
}
