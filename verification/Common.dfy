/** wabt's Result, with the value its function stores through an out pointer on success. */
module Common {
  datatype Result<+T> = Ok(value: T) | Error
}
