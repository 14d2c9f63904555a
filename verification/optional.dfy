/** A value that may be missing: the model's stand-in for a TypeScript
    `string | null` column, an unset query parameter, or no session. */
module Optional {

  datatype Opt<T> = Absent | Present(value: T)
}
