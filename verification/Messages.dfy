/** The two messages the download and upload engines exchange. */
module Messages {
  import opened Base

  /** Largest block a request may ask for, in bytes. */
  const REQUEST_SIZE: int := 1024 * 16

  datatype Request = Request(index: int, begin: int, length: int)

  datatype Piece = Piece(index: int, begin: int, block: Bytes)

  predicate InU32(x: int) {
    0 <= x < U32
  }

  predicate Validate(r: Request) {
    r.length <= REQUEST_SIZE
  }

  /** The request a received block answers, with the length cast to `uint32`. */
  function Answered(m: Piece): Request {
    Request(m.index, m.begin, ToU32(|m.block|))
  }
}
