/** What the cipher entry points take and return. */
module CryptoTypes {

  type Bytes = seq<bv8>

  datatype CryptoResult = Ok(value: Bytes) | InvalidArgument
}
