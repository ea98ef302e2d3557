/** Small value types shared by every module: optional values, results and
    the exceptions the modelled Python code can raise. */
module Base {

  /** An optional value. In a grid, None is an empty cell: numpy's NaN in a
      float64 grid, Python's None in an object grid. */
  datatype Option<+T> = None | Some(value: T)

  /** Either a value or the exception that the Python code raises instead. */
  datatype Result<+T, +E> = Success(value: T) | Failure(error: E)

  /** The exceptions raised by the layout code. */
  datatype Error =
    | IndexError          // an index past the end of a list or an array
    | AttributeError      // `.month` read on an empty (None) grid cell
    | EmptyReduction      // numpy's ValueError for min/max of a zero-size array
    | ValueError(message: string)  // a ValueError raised explicitly by the code
}
