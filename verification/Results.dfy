/** Optional values, the outcomes of operations that may fail, and bytes. */
module Results {

  datatype Option<+T> = None | Some(value: T)

  datatype Error =
    | BadSize            // an index value is not an unsigned integer
    | BadDate            // an index value is not an RFC 3339 date
    | MissingSortField   // a matching item has no value for the sort field
    | MissingBlock       // an indexed message is not in the block store
    | Forbidden          // authorization failed
    | Conflict           // a more recent message exists
    | NotFound           // there is nothing to act on
    | Unexpected         // any other rejection

  datatype Result<+T> = Ok(value: T) | Err(error: Error)

  type Bytes = seq<bv8>
}
