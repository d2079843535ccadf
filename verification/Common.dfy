/** Small result types shared by every module, and the identifiers of the database rows. */
module Common {
  datatype Option<+T> = None | Some(value: T)

  datatype Result<+T, +E> = Ok(value: T) | Err(error: E)

  // Row identifiers (UUID columns). They are opaque: only equality matters,
  // except where a query orders by id, and then the order is stated there.
  type Id = string

  // Instants are nanoseconds on one UTC time line, as in Go's time.Time.
  type Instant = int
}
