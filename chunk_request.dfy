// A request for one chunk of a file: valid when its size is at most 4 KiB.
module CoreModels {
  import opened Common

  const MaxChunkSize: int := 4096

  datatype ChunkRequest = ChunkRequest(fileId: string, offset: int64, size: int32)

  /** `IsValid`: the size is at most 4096 bytes; there is no lower bound. */
  predicate IsValid(request: ChunkRequest) {
    request.size <= MaxChunkSize
  }

  /** 4096 is the largest valid size. */
  lemma ChunkBoundary(fileId: string, offset: int64)
    ensures IsValid(ChunkRequest(fileId, offset, 4096))
    ensures !IsValid(ChunkRequest(fileId, offset, 4097))
  {
  }

  /** Zero and negative sizes are valid. */
  lemma NoLowerBound(request: ChunkRequest)
    requires request.size <= 0
    ensures IsValid(request)
  {
  }

  /** Validity depends on the size alone: the file id and the offset play no part. */
  lemma ValidityIgnoresFileAndOffset(a: ChunkRequest, b: ChunkRequest)
    requires a.size == b.size
    ensures IsValid(a) <==> IsValid(b)
  {
  }
}
