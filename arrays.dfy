/** Array values as they travel from the server to the client. */
module Arrays {

  /**
   * A value produced by numpy's `tolist()` and read back by the client from
   * JSON: a number, or a list of such values (nested once per dimension).
   */
  datatype Nested = Num(value: real) | Arr(items: seq<Nested>)

  /** A decoded array: its shape and its contents as nested lists. */
  datatype NdArray = NdArray(shape: seq<nat>, data: Nested)

  /** The per-array summary the upload endpoint returns: `{size, ndim, data}`. */
  datatype Summary = Summary(size: seq<nat>, ndim: nat, data: Nested)
}
