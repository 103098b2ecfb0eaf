/** The GridFS download stream object: it walks the chunks of one file with
    a forward-only iterator, validating each chunk, and serves reads of any
    length through a leftover buffer, or copies the rest of the file out.
    Every method is proved to update the fields exactly as the matching
    function of module Session maps the old state to the new one; what the
    operations promise is proved there, about those functions. */
module Download {
  import opened ChunkLayout
  import opened Session

  class GridFSDownload {
    /** The file document the session reads. */
    const file: FileDoc
    /** What the query on the chunks collection, sorted by n, yields. */
    const chunks: seq<Chunk>
    const numChunks: nat

    // the chunks iterator: its position, and whether it was ever rewound
    var idx: nat
    var firstCheck: bool

    var chunkOffset: nat
    var bytesSeen: nat
    var iteratorEmpty: bool

    // the temporary buffer stream: contents, stream position and flags
    var buffer: seq<byte>
    var bufPos: nat
    var bufferFresh: bool
    var bufferEmpty: bool

    /** Chunks accepted so far, in the order accepted. */
    ghost var validated: seq<Chunk>
    /** Which accepted chunk the buffer was cut from. */
    ghost var bufferChunk: int
    /** No CorruptFile error has been raised in this session. */
    ghost var intact: bool

    /** The iterator and counter fields as a value of the state machine. */
    ghost function Cur(): Cursor
      reads this
    {
      Cursor(idx, firstCheck, chunkOffset, bytesSeen, iteratorEmpty, validated, intact)
    }

    /** The buffer fields as a value of the state machine. */
    ghost function Buf(): Buffer
      reads this
    {
      Buffer(buffer, bufPos, bufferFresh, bufferEmpty, bufferChunk)
    }

    ghost function Snap(): State
      reads this
    {
      State(Cur(), Buf())
    }

    ghost predicate Valid()
      reads this
    {
      file.chunkSize > 0 && numChunks == NumChunks(file) && Inv(file, chunks, Snap())
    }

    /** Opens the session: the chunk cursor is not yet rewound, the buffer
        is empty, and the number of chunks is the ceiling of length over
        chunkSize (none for a negative length). */
    constructor (file: FileDoc, chunks: seq<Chunk>)
      requires file.chunkSize > 0
      ensures Valid()
      ensures this.file == file && this.chunks == chunks && Snap() == Start()
    {
      this.file := file;
      this.chunks := chunks;
      numChunks := NumChunks(file);
      idx := 0;
      firstCheck := true;
      chunkOffset := 0;
      bytesSeen := 0;
      iteratorEmpty := false;
      buffer := [];
      bufPos := 0;
      bufferFresh := true;
      bufferEmpty := true;
      validated := [];
      bufferChunk := 0;
      intact := true;
      new;
      StartIsValid(file, chunks);
    }

    function GetFile(): FileDoc
    {
      file
    }

    function GetId(): string
    {
      file.id
    }

    function GetSize(): int
    {
      file.length
    }

    /** End of file: exhaustion was reported and the buffer was emptied;
        then every chunk is in and nothing is left to read. */
    function IsEOF(): (r: bool)
      reads this
      requires Valid()
      ensures r == AtEOF(Snap())
      ensures r ==> chunkOffset == numChunks && Pending(Buf()) == []
    {
      iteratorEmpty && bufferEmpty
    }

    /** Moves on to the next chunk once at least one is wanted, checking it
        for being there, for its index and for its size, in that order. */
    method AdvanceChunks() returns (r: Result<bool>)
      requires file.chunkSize > 0 && numChunks == NumChunks(file)
      modifies this
      ensures Cur() == Advance(file, chunks, old(Cur())).next
      ensures r == Advance(file, chunks, old(Cur())).out
      ensures Buf() == old(Buf())
    {
      if chunkOffset >= numChunks {
        iteratorEmpty := true;
        return Ok(false);
      }
      if firstCheck {
        idx := 0;
        firstCheck := false;
      } else {
        idx := idx + 1;
      }
      if idx >= |chunks| {
        intact := false;
        return Err(MissingChunk(chunkOffset));
      }
      var current := chunks[idx];
      if current.n != chunkOffset {
        intact := false;
        return Err(UnexpectedIndex(current.n, chunkOffset));
      }
      var actualChunkSize := |current.data|;
      var expectedChunkSize := if chunkOffset == numChunks - 1 then file.length - bytesSeen else file.chunkSize;
      if actualChunkSize != expectedChunkSize {
        intact := false;
        return Err(UnexpectedSize(actualChunkSize, expectedChunkSize));
      }
      bytesSeen := bytesSeen + actualChunkSize;
      chunkOffset := chunkOffset + 1;
      validated := validated + [current];
      return Ok(true);
    }

    /** Reads up to `numToRead` bytes: from the buffer first, then from the
        chunks, keeping the part of the last chunk that did not fit. */
    method DownloadNumBytes(numToRead: int) returns (r: Result<seq<byte>>)
      requires file.chunkSize > 0 && numChunks == NumChunks(file) && numToRead > 0
      modifies this
      ensures Snap() == Read(file, chunks, old(Snap()), numToRead).next
      ensures r == Read(file, chunks, old(Snap()), numToRead).out
    {
      ghost var s0 := Snap();
      if bufferFresh {
        bufPos, bufferFresh := 0, false;
      }
      var output := ReadAt(buffer, bufPos, numToRead);
      bufPos := bufPos + |output|;
      if |output| == numToRead {
        return Ok(output);
      }
      ReadBeyondBuffer(file, chunks, s0, numToRead);
      buffer, bufPos, bufferFresh, bufferEmpty := [], 0, true, true;
      r := ReadChunks(numToRead, output);
    }

    /** The read loop of downloadNumBytes and the write after it: append
        chunk data to `output` until `numToRead` bytes are there or the
        chunks are exhausted, then write what did not fit to the buffer. */
    method ReadChunks(numToRead: int, output: seq<byte>) returns (r: Result<seq<byte>>)
      requires file.chunkSize > 0 && numChunks == NumChunks(file) && |output| < numToRead
      modifies this
      ensures Snap() == Fill(file, chunks, old(Snap()), numToRead, output).next
      ensures r == Fill(file, chunks, old(Snap()), numToRead, output).out
    {
      ghost var s0 := Snap();
      ghost var target := Fill(file, chunks, s0, numToRead, output);
      var got := output;
      var bytesLeft := numToRead - |got|;
      while |got| < numToRead
        invariant |got| < numToRead ==> Fill(file, chunks, Snap(), numToRead, got) == target
        invariant |got| >= numToRead ==>
                    0 <= bytesLeft && idx < |chunks| && KeepRest(file, Snap(), chunks[idx].data, bytesLeft, got) == target
        decreases Remaining(file, Cur())
      {
        ghost var before := Snap();
        var more := AdvanceChunks();
        if more != Ok(true) {
          FillStops(file, chunks, before, numToRead, got, Advance(file, chunks, before.cur));
          return if more.Err? then Err(more.error) else Ok(got);
        }
        FillGoesOn(file, chunks, before, numToRead, got, Cur());
        assert State(Cur(), before.buf) == Snap();
        bytesLeft := numToRead - |got|;
        got := got + Prefix(chunks[idx].data, bytesLeft);
      }
      if !iteratorEmpty && file.length > 0 && bytesLeft < |chunks[idx].data| {
        buffer, bufPos, bufferEmpty, bufferChunk :=
          chunks[idx].data[bytesLeft..], |chunks[idx].data| - bytesLeft, false, |validated| - 1;
      }
      return Ok(got);
    }

    /** Writes the payload of every remaining chunk to the destination, in
        order, until the chunks are exhausted or one fails its checks; the
        written bytes are returned in place of the destination stream. */
    method DownloadToStream() returns (written: seq<byte>, failure: Option<CorruptFile>)
      requires Valid()
      modifies this
      ensures Valid()
      ensures Cur() == Copy(file, chunks, old(Cur()), []).next
      ensures written == Copy(file, chunks, old(Cur()), []).written
      ensures failure == Copy(file, chunks, old(Cur()), []).failure
      ensures Buf() == old(Buf())
    {
      ghost var c0 := Cur();
      written := [];
      while true
        invariant Valid() && Buf() == old(Buf())
        invariant Copy(file, chunks, Cur(), written) == Copy(file, chunks, c0, [])
        decreases Remaining(file, Cur())
      {
        AdvanceKeepsInv(file, chunks, Cur(), Buf());
        var more := AdvanceChunks();
        if more.Err? {
          return written, Some(more.error);
        }
        if !more.value {
          return written, None;
        }
        written := written + chunks[idx].data;
      }
    }
  }
}
