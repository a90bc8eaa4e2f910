/** The application's `Result` and `Result<T>` value types: immutable records
    built by their `Ok` and `Fail` factories. A C# `null` becomes
    `None`. */
module Common {

  datatype Option<T> = None | Some(value: T)

  /** `Result`: a success flag and an optional error message. */
  datatype Result = Result(success: bool, error: Option<string>) {

    /** The shape every factory-built result has: it failed exactly when it
        carries an error. */
    predicate WellFormed() {
      success <==> error.None?
    }

    static function Ok(): (r: Result)
      ensures r.success && r.error == None
      ensures r.WellFormed()
    {
      Result(true, None)
    }

    static function Fail(message: string): (r: Result)
      ensures !r.success && r.error == Some(message)
      ensures r.WellFormed()
    {
      Result(false, Some(message))
    }
  }

  /** `Result<T>`: as `Result`, plus the value a success carries. */
  datatype TypedResult<T> = TypedResult(success: bool, error: Option<string>, value: Option<T>) {

    predicate WellFormed() {
      if success then error.None? && value.Some? else error.Some? && value.None?
    }

    static function Ok(v: T): (r: TypedResult<T>)
      ensures r.success && r.value == Some(v) && r.error == None
      ensures r.WellFormed()
    {
      TypedResult(true, None, Some(v))
    }

    static function Fail(message: string): (r: TypedResult<T>)
      ensures !r.success && r.error == Some(message) && r.value == None
      ensures r.WellFormed()
    {
      TypedResult(false, Some(message), None)
    }
  }

  /** The factories are the only way to a well-formed `Result`: every one of
      them is `Ok()` or `Fail` of its own message. */
  lemma ResultIsFactoryBuilt(r: Result)
    requires r.WellFormed()
    ensures r.success ==> r == Result.Ok()
    ensures !r.success ==> r == Result.Fail(r.error.value)
  {
  }

  /** The same for `Result<T>`: a well-formed value is `Ok` of its value or
      `Fail` of its message. */
  lemma TypedResultIsFactoryBuilt<T>(r: TypedResult<T>)
    requires r.WellFormed()
    ensures r.success ==> r == TypedResult.Ok(r.value.value)
    ensures !r.success ==> r == TypedResult.Fail(r.error.value)
  {
  }
}
