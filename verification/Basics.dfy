/** What all layers share. */
module Basics {

  datatype Option<T> = None | Some(value: T)

  const PAGE_SIZE: nat := 4096

  /** Page id, next page id, number of tuples, number of deleted tuples and free space pointer, packed. */
  const HEADER_SIZE: nat := 14
}
