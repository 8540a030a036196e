/** Values shared by every layer of the API: optional values, the outcome of a
    request handler, and Python's truthiness of optional arguments. */
module Common {

  /** An optional value; `None` stands for a Python argument, key or result that is absent. */
  datatype Option<+T> = None | Some(value: T)

  /** What a request handler produces: a value, or the status code and detail
      of the HTTPException it raises. */
  datatype Response<+T> = Ok(value: T) | HttpError(status: int, detail: string)

  /** `if x:` on an optional integer: `None` and `0` are falsy. */
  predicate TruthyInt(x: Option<int>)
  {
    x.Some? && x.value != 0
  }

  /** `if s:` on an optional string: `None` and `""` are falsy. */
  predicate TruthyStr(s: Option<string>)
  {
    s.Some? && s.value != ""
  }
}
