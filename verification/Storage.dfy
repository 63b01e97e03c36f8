/** The piece files as a seeder reads them. */
module Storage {
  import opened Base
  import opened Messages

  /** What reading a request from a piece file comes to; `Panic` is Go's slice-bounds panic. */
  datatype ReadResult = NoFile | OffsetTooLarge | LengthTooLarge | Panic | Block(data: Bytes)

  /** The end of the block is a `uint32` sum, so it wraps for files of 4 GiB and more. */
  function ReadRequest(file: Option<Bytes>, r: Request): ReadResult
    requires 0 <= r.begin && 0 <= r.length
  {
    match file
    case None => NoFile
    case Some(b) =>
      if r.begin >= |b| then OffsetTooLarge
      else if r.length > |b| - r.begin then LengthTooLarge
      else
        var end := ToU32(r.begin + r.length);
        if r.begin <= end then Block(b[r.begin..end]) else Panic
  }

  /**
    A request is answered, with exactly the bytes it names, if and only if it lies inside the
    file, starts before its end, and its own end fits in 32 bits; past that point the seeder
    panics instead.
   */
  lemma ReadRequestExact(b: Bytes, r: Request)
    requires InU32(r.begin) && InU32(r.length)
    ensures ReadRequest(Some(b), r).Block? <==>
              r.begin < |b| && r.begin + r.length <= |b| && r.begin + r.length < U32
    ensures ReadRequest(Some(b), r).Block? ==>
              ReadRequest(Some(b), r).data == b[r.begin..r.begin + r.length]
    ensures ReadRequest(Some(b), r).Panic? <==>
              r.begin < |b| && r.begin + r.length <= |b| && U32 <= r.begin + r.length
    ensures ReadRequest(Some(b), r) == OffsetTooLarge <==> |b| <= r.begin
    ensures ReadRequest(Some(b), r) == LengthTooLarge <==> r.begin < |b| < r.begin + r.length
    ensures ReadRequest(None, r) == NoFile
  {
  }
}
