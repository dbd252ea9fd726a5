/** Outcomes of the wrapper's operations: a value, or the JavaScript exception
    the original code would throw instead of returning. */
module Results {

  /** The two ways the core can throw. Both are TypeErrors in JavaScript:
      `undefined.replace` for a platform missing from the release table, and
      `choices.split` on a truthy option value that is neither a string nor an
      array. */
  datatype Error =
    | UnsupportedPlatform(platform: string)
    | NotSplittable(key: string)

  datatype Result<T> = Ok(value: T) | Err(error: Error)
}
