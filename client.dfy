/** Two ways a client reads a whole stored file through a fresh download
    object: piece by piece with downloadNumBytes until isEOF, and at once
    with downloadToStream. Both deliver exactly the file's bytes when its
    chunks collection is well formed, and report a CorruptFile error
    otherwise. */
module Client {
  import opened ChunkLayout
  import opened Session
  import opened Download

  /** Opens a download on `file` and reads it until end of file or the
      first error, asking for `sizes[0]`, `sizes[1]`, ... bytes in turn and
      starting over at the end of `sizes`: any split into call sizes. */
  method ReadFile(file: FileDoc, chunks: seq<Chunk>, sizes: seq<int>) returns (out: seq<byte>, failure: Option<CorruptFile>)
    requires file.chunkSize > 0 && |sizes| > 0 && forall i :: 0 <= i < |sizes| ==> sizes[i] > 0
    ensures failure.None? <==> WellFormed(file, chunks)
    ensures failure.None? ==>
              out == Bytes(chunks[..NumChunks(file)]) && |out| == if file.length > 0 then file.length else 0
  {
    var d := new GridFSDownload(file, chunks);
    StartIsValid(file, chunks);
    out, failure := [], None;
    var calls := 0;
    while !d.IsEOF()
      invariant d.Valid() && d.file == file && d.chunks == chunks
      invariant Streamed(d.Snap(), out) && d.intact
      invariant |out| <= if file.length > 0 then file.length else 0
      decreases (if file.length > 0 then file.length else 0) - |out|, if AtEOF(d.Snap()) then 0 else 1
    {
      var k := sizes[calls % |sizes|];
      calls := calls + 1;
      ghost var s := d.Snap();
      ReadKeepsInv(file, chunks, s, k);
      ReadStreams(file, chunks, s, k, out);
      ReadProgress(file, chunks, s, k);
      ReadKeepsIntact(file, chunks, s, k);
      if WellFormed(file, chunks) {
        ReadOnWellFormed(file, chunks, s, k);
      }
      var r := d.DownloadNumBytes(k);
      if r.Err? {
        return out, Some(r.error);
      }
      out := out + r.value;
      SeenBytes(file, chunks, d.Cur());
    }
    EOFMeansDelivered(file, chunks, d.Snap(), out);
    CompleteMeansWellFormed(file, chunks, d.Cur());
  }

  /** Opens a download on `file` and copies it to a destination at once. */
  method CopyFile(file: FileDoc, chunks: seq<Chunk>) returns (written: seq<byte>, failure: Option<CorruptFile>)
    requires file.chunkSize > 0
    ensures failure.None? <==> WellFormed(file, chunks)
    ensures failure.None? ==>
              written == Bytes(chunks[..NumChunks(file)]) && |written| == if file.length > 0 then file.length else 0
  {
    var d := new GridFSDownload(file, chunks);
    written, failure := d.DownloadToStream();
    CopyWholeFile(file, chunks);
  }
}
