# GridFS download stream, modelled and verified in Dafny

This project models `GridFSDownload` of the MongoDB PHP library. That is
the object that reads one GridFS file back from MongoDB. It holds:

- the file document (`length`, `chunkSize`, `_id`);
- a forward-only iterator over the file's chunk documents, sorted by `n`;
- a temporary buffer stream for bytes that were fetched but not yet handed
  out.

`advanceChunks` moves the iterator on and checks the chunk it shows. It raises
a `CorruptFileException` for a missing chunk, an unexpected index or an
unexpected size, in that order. `downloadNumBytes(n)` serves reads of any
length: first from the buffer, then from the chunks, and it keeps the tail
of the last chunk in the buffer. `downloadToStream` copies every remaining
chunk to a destination. `isEOF` reports exhaustion of the iterator together
with an empty buffer.

The project has five modules:

- `ChunkLayout` (`layout.dfy`) holds the values and the layout a sound file
  has. It contains:
  - the chunk count (an exact integer ceiling);
  - the size demanded of each chunk;
  - the three CorruptFile errors;
  - `Scan`, a reference definition of what a download that never raised an
    error accepts.
- `Session` (`session.dfy`) is the download as a state machine over values.
  A `State` is a `Cursor` (iterator position, `firstCheck`, `chunkOffset`,
  `bytesSeen`, `iteratorEmpty`) plus a `Buffer` (contents, stream position,
  `bufferFresh`, `bufferEmpty`). The state also keeps history: the chunks
  accepted so far, whether an error was raised, and which chunk the buffer
  was cut from.
  - Each operation is a function from the old state to the new state and
    its result: `Advance`, `Read` (with its loop `Fill` and its final write
    `KeepRest`) and `Copy`.
  - The lemmas state what the operations promise.
- `Download` (`download.dfy`) is the class `GridFSDownload`. It has the
  source's fields, and each method is written as the PHP method is, step by
  step. Each method's `ensures` ties the new fields and the result to the
  matching `Session` function applied to the old fields.
- `Client` (`client.dfy`) has two whole-file reads through a fresh object. One
  calls `DownloadNumBytes` until `IsEOF`, the other calls `DownloadToStream`
  once. Both are proved to deliver exactly the chunks' payloads when the
  chunks collection is well formed, and to fail otherwise.
- `Scenarios` (`scenarios.dfy`) works through two concrete files: 10 bytes in
  chunks of 4, and an empty file.

The chunks collection is modelled as the sequence of chunk documents the
sorted query yields (`chunks: seq<Chunk>`). The iterator is an index into it.
Bytes are integers 0..255.

## Model

| member | source | states |
|---|---|---|
| ChunkLayout.NumChunks | src/GridFS/GridFSDownload.php:51 | Definition of the chunk count. Its property is stated by ChunkLayout.NumChunksIsCeiling. |
| ChunkLayout.NumChunksIsCeiling | src/GridFS/GridFSDownload.php:51 | The chunk count is 0 for a length of 0 or less. For a positive length it is the least r with length <= r * chunkSize, that is (length + chunkSize - 1) div chunkSize. |
| ChunkLayout.CeilDivIsDivision | src/GridFS/GridFSDownload.php:51 | The exact ceiling used for the chunk count agrees with the integer formula for every length >= 0. |
| ChunkLayout.LastChunkSize | src/GridFS/GridFSDownload.php:150-152 | For a non-empty file, the size demanded of the last chunk (length minus the full chunks before it) is between 1 and chunkSize. |
| ChunkLayout.SizeAtPositive | src/GridFS/GridFSDownload.php:148-155 | Every chunk of a sound layout is non-empty. |
| ChunkLayout.FullChunksFit | src/GridFS/GridFSDownload.php:150-152 | The chunks before the last one hold fewer bytes than the file. |
| ChunkLayout.LayoutBytes | src/GridFS/GridFSDownload.php:148-159 | After accepting a sound prefix of the chunks, the bytes seen are chunkCount * chunkSize while chunks remain. Once all are in they are the file length, or 0 for a negative length. |
| ChunkLayout.ExpectedSize | src/GridFS/GridFSDownload.php:150-152 | Definition of the size demanded of a chunk. Its property is stated by ChunkLayout.ExpectedSizeOnLayout and ChunkLayout.LastChunkSize. |
| ChunkLayout.ExpectedSizeOnLayout | src/GridFS/GridFSDownload.php:150-152 | The expected size computed from bytesSeen equals the chunk's size in the layout. |
| ChunkLayout.AcceptKeepsProgress | src/GridFS/GridFSDownload.php:154-159 | Accepting a chunk that passes the checks extends a sound prefix and adds its length to the bytes seen. |
| ChunkLayout.Verdict | src/GridFS/GridFSDownload.php:140-156 | A chunk is accepted iff the iterator shows one, its n is the wanted index and its payload has the expected size. Which error comes first is stated by ChunkLayout.ScanStopsAtFirstDefect. |
| ChunkLayout.ScanAcceptsIffWellFormed | src/GridFS/GridFSDownload.php:125-162 | From a fresh start, the chain of checks accepts every chunk exactly when the collection is well formed. It then accepts chunks 0 .. NumChunks-1, which hold `length` bytes. |
| ChunkLayout.ScanStopsAtFirstDefect | src/GridFS/GridFSDownload.php:140-156 | When the chunks are sound up to chunk j but not at j, the checks accept chunks 0 .. j-1. They then fail on chunk j with MissingChunk(j), UnexpectedIndex(n, j) or UnexpectedSize(actual, expected), whichever check comes first. |
| Session.Advance | src/GridFS/GridFSDownload.php:125-162 | Returns false iff chunkOffset >= numChunks, and then only sets iteratorEmpty. Otherwise it rewinds on the first move and steps on after that, then checks presence, index and size in that order. An accepted chunk adds its length to bytesSeen and increments chunkOffset. A rejected one leaves the counters alone. |
| Session.Start | src/GridFS/GridFSDownload.php:16-26 | Definition of the initial field values. Its property is stated by Session.StartIsValid. |
| Session.StartIsValid | src/GridFS/GridFSDownload.php:16-26 | The initial field values satisfy the invariant, have streamed nothing, and are not at end of file, even for an empty file. |
| Session.AdvanceKeepsInv | src/GridFS/GridFSDownload.php:125-162 | advanceChunks keeps the invariant whatever the buffer holds. That includes `bytesSeen` counting the accepted bytes and exhaustion only once all chunks are in. It never clears iteratorEmpty. |
| Session.AdvanceWhileIntact | src/GridFS/GridFSDownload.php:133-146 | While no error was raised, the iterator lands on the chunk with index chunkOffset. On a well-formed collection no error is raised. |
| Session.SeenBytes | src/GridFS/GridFSDownload.php:150-159 | bytesSeen == chunkOffset * chunkSize while chunks remain, bytesSeen == length once all are in (0 for a negative length), and bytesSeen never exceeds that. |
| Session.AcceptedIsNonEmpty | src/GridFS/GridFSDownload.php:148-156 | A chunk that advanceChunks accepts has a non-empty payload. |
| Session.AdvanceAgreesWithScan | src/GridFS/GridFSDownload.php:125-162 | While no error was raised, one advanceChunks is the first step of the reference Scan: the same error, the same end, or the same accepted chunk followed by the rest. |
| Session.ReadAt | src/GridFS/GridFSDownload.php:70 | fread returns at most n bytes, taken from the stream position on, and all the rest when fewer than n remain. |
| Session.Prefix | src/GridFS/GridFSDownload.php:86 | substr(data, 0, k) is a prefix of data of length min(k, \|data\|). |
| Session.Reopened | src/GridFS/GridFSDownload.php:76-80 | The reopened buffer is empty and has nothing to give. |
| Session.KeepRest | src/GridFS/GridFSDownload.php:89-94 | The write after the loop returns the output unchanged and never touches the iterator or the counters. |
| Session.Fill | src/GridFS/GridFSDownload.php:82-92 | The loop extends the output to at most n bytes. It falls short only when exhaustion was reported, and when it does not fall short it leaves iteratorEmpty as it was. |
| Session.Read | src/GridFS/GridFSDownload.php:60-95 | downloadNumBytes returns at most n bytes, and fewer only once exhaustion was reported. A read that returns n bytes leaves iteratorEmpty alone, and iteratorEmpty is never cleared. |
| Session.ReadServedByBuffer | src/GridFS/GridFSDownload.php:64-74 | A read the buffer can serve returns the next n buffered bytes and touches no chunk. It only moves the stream position and clears bufferFresh. |
| Session.ReadBeyondBuffer | src/GridFS/GridFSDownload.php:70-84 | A read the buffer cannot serve takes every buffered byte, reopens the buffer empty, and reads on from the chunks. |
| Session.ReadKeepsInv | src/GridFS/GridFSDownload.php:60-95 | downloadNumBytes keeps the invariant, including that a filled buffer holds a suffix of an accepted chunk. |
| Session.ReopenedKeepsInv | src/GridFS/GridFSDownload.php:76-80 | Reopening the buffer keeps the invariant. |
| Session.KeepRestKeepsInv | src/GridFS/GridFSDownload.php:89-92 | The write after the loop keeps the invariant: what it buffers is a suffix of the last accepted chunk. |
| Session.FillKeepsInv | src/GridFS/GridFSDownload.php:82-92 | The read loop keeps the invariant. |
| Session.KeepRestStreams | src/GridFS/GridFSDownload.php:86-92 | The write after the loop buffers exactly the part of the last chunk that did not fit into the output. |
| Session.FillStreams | src/GridFS/GridFSDownload.php:82-92 | From an empty buffer, the loop's output plus what it buffers are exactly the bytes accepted during the loop. |
| Session.LastRoundStreams | src/GridFS/GridFSDownload.php:84-92 | The round that ends the loop keeps the stream. |
| Session.StopStreams | src/GridFS/GridFSDownload.php:84 | A round that errs or reports exhaustion keeps the stream. |
| Session.ReadStreams | src/GridFS/GridFSDownload.php:60-95 | Successive reads hand out the accepted payload in order, with nothing lost or repeated. The bytes delivered so far followed by the bytes buffered are the concatenation of the accepted chunks, and a filled buffer comes from the most recent chunk. |
| Session.ReadStreamsFromBuffer | src/GridFS/GridFSDownload.php:64-74 | A read served by the buffer keeps the stream. |
| Session.BufferStreams | src/GridFS/GridFSDownload.php:64-74 | Taking the next n buffered bytes keeps the stream. |
| Session.FillOnWellFormed | src/GridFS/GridFSDownload.php:82-92 | On a well-formed collection the read loop raises no error. |
| Session.ReadOnWellFormed | src/GridFS/GridFSDownload.php:60-95 | On a well-formed collection downloadNumBytes raises no error. |
| Session.ReadPastEnd | src/GridFS/GridFSDownload.php:76-95 | With every chunk in and the buffer drained, a read returns nothing and reaches end of file. This extra read is needed only when the earlier read returned all the bytes it asked for, because such a read leaves iteratorEmpty as it was. |
| Session.ExactDrainIsNotEOF | src/GridFS/GridFSDownload.php:70-74 | A read that exactly drains a filled buffer returns its bytes and leaves bufferEmpty false, so isEOF stays false. |
| Session.EOFMeansDelivered | src/GridFS/GridFSDownload.php:120-123 | At end of file every chunk is in, the reads delivered every accepted byte (`length` bytes in all), and while no error was raised those are the payloads of chunks 0 .. NumChunks-1. |
| Session.EOFIsStable | src/GridFS/GridFSDownload.php:120-123 | A read at end of file returns nothing and stays at end of file. |
| Session.FillProgress | src/GridFS/GridFSDownload.php:82-92 | From an empty buffer, the loop either lengthens the output or ends at end of file. |
| Session.ReadProgress | src/GridFS/GridFSDownload.php:60-95 | Every successful read returns at least one byte or reaches end of file. |
| Session.FillKeepsIntact | src/GridFS/GridFSDownload.php:82-92 | A read loop that succeeds raises no error on the way. |
| Session.ReadKeepsIntact | src/GridFS/GridFSDownload.php:60-95 | A read that succeeds raises no error on the way. |
| Session.CompleteMeansWellFormed | src/GridFS/GridFSDownload.php:125-162 | Once every chunk is in without an error, the collection is well formed and the accepted chunks are its first NumChunks chunks. |
| Session.Copy | src/GridFS/GridFSDownload.php:97-103 | downloadToStream only extends what was written. It ends either exhausted with every chunk in, or with an error raised. |
| Session.CopyKeepsInv | src/GridFS/GridFSDownload.php:97-103 | downloadToStream keeps the invariant, whatever the buffer holds. |
| Session.CopyMatchesScan | src/GridFS/GridFSDownload.php:97-103 | While no error was raised, downloadToStream writes the payloads of exactly the chunks the reference Scan accepts, in order, and stops with Scan's error. |
| Session.CopyWholeFile | src/GridFS/GridFSDownload.php:97-103 | From a fresh object, the copy succeeds iff the collection is well formed. It then writes the payloads of chunks 0 .. NumChunks-1 (`length` bytes) and leaves the object at end of file. |
| Download.GridFSDownload.constructor | src/GridFS/GridFSDownload.php:35-53 | Sets numChunks to the chunk count and the other fields to their initial values, which satisfy the invariant. |
| Download.GridFSDownload.IsEOF | src/GridFS/GridFSDownload.php:120-123 | True iff iteratorEmpty and bufferEmpty. When true, every chunk is in and the buffer has nothing to give. |
| Download.GridFSDownload.AdvanceChunks | src/GridFS/GridFSDownload.php:125-162 | Updates the iterator and counter fields and returns exactly what Session.Advance gives, and leaves the buffer alone. |
| Download.GridFSDownload.DownloadNumBytes | src/GridFS/GridFSDownload.php:60-95 | Updates all fields and returns exactly what Session.Read gives for the old fields. |
| Download.GridFSDownload.ReadChunks | src/GridFS/GridFSDownload.php:82-94 | The loop and the write after it update the fields and return exactly what Session.Fill gives. |
| Download.GridFSDownload.DownloadToStream | src/GridFS/GridFSDownload.php:97-103 | Keeps the invariant. Updates the cursor fields, writes and fails exactly as Session.Copy does, and leaves the buffer alone. |
| Client.ReadFile | src/GridFS/GridFSDownload.php:60-123 | Reading a fresh download until isEOF, with read sizes taken from a non-empty list of positive sizes in turn (any split of call sizes), succeeds iff the collection is well formed. It then yields the concatenated payloads of chunks 0 .. NumChunks-1, which is `length` bytes. |
| Client.CopyFile | src/GridFS/GridFSDownload.php:97-103 | Copying a fresh download to a destination succeeds iff the collection is well formed. It then writes the concatenated payloads, `length` bytes. |
| Scenarios.TenInReadsOfFive | src/GridFS/GridFSDownload.php:60-95 | length 10 with chunkSize 4: two reads of 5 return bytes 0..4 and 5..9, and the first leaves bytes 5..7 buffered. EOF is false after the second read and true only after a third read, which returns nothing. |
| Scenarios.TenInOneReadOfTwenty | src/GridFS/GridFSDownload.php:82-95 | length 10 with chunkSize 4: one read of 20 returns bytes 0..9 and reaches end of file at once. After the last chunk, the loop calls advanceChunks once more, and that call reports exhaustion. |
| Scenarios.EmptyFile | src/GridFS/GridFSDownload.php:51 | An empty file is not at end of file when opened. Its first read returns nothing and reaches end of file. |

## End of file, as the code has it

A natural reading of "end of file" disagrees with what the code does in
the cases below. The model follows the code:

- Take a file of length 10 in chunks of 4, read in two reads of 5 bytes.
  One would expect isEOF to be true after the second read, but it is false.
  The second read uses chunk 2 whole and never calls advanceChunks again, so
  iteratorEmpty stays false. Only a third read, which returns nothing, makes
  isEOF true. See `Scenarios.TenInReadsOfFive` and `Session.ReadPastEnd`.
  A single read of 20 bytes, by contrast, goes round the loop once more and
  reaches end of file at once (`Scenarios.TenInOneReadOfTwenty`).
- An empty file is not at end of file right after opening. iteratorEmpty
  starts false, so isEOF stays false until the first read. See
  `Scenarios.EmptyFile` and `Session.StartIsValid`.
- A read that exactly drains a filled buffer leaves bufferEmpty false, so
  isEOF stays false (`Session.ExactDrainIsNotEOF`).
- downloadToStream copies only the chunks that have not been read yet. It
  ignores the buffer, so after a partial downloadNumBytes the buffered bytes
  are never written out. `Session.Copy` works on the cursor alone.

## Left out

Things the model does not capture:

- The query on the chunks collection, and the mapping of a driver exception
  to CorruptFileException (source lines 40-48). These are driver I/O. The
  model takes the query's result, sorted by `n`, as the `chunks` sequence.
- `close` and the `fopen`/`fclose`/`rewind` calls on the temporary stream.
  They are PHP stream I/O. The buffer is a byte sequence with a position.
  Rewinding sets the position to 0, and reopening empties it.
- Driver errors while iterating the chunks. The `rewind()` and `next()`
  calls on the driver cursor (lines 134 and 137) can throw, for example when
  fetching a batch fails. Such an exception escapes downloadNumBytes and
  downloadToStream uncaught. The model's iterator is an index into a
  sequence and never fails.
- Errors from `fread` and `fwrite`. The source does not check them either.
- The destination stream of downloadToStream. The written bytes are returned
  as a value instead.
- The floating-point `ceil` of line 51. The model uses an exact integer
  ceiling, which agrees with it wherever `length / chunkSize` is exact in
  floating point.
- chunkSize < 0. Line 51 then gives a chunk count of 0 or less, for
  example ceil(10 / -4) = -2. So every advanceChunks reports exhaustion at
  once, and the file reads as empty without an error: downloadNumBytes
  returns nothing and downloadToStream writes nothing. The model requires
  chunkSize > 0 and does not capture this case.
- chunkSize == 0 and numToRead <= 0. The result of the division by zero in
  line 51, and of `fread` with a length of 0 or less, depends on the PHP
  version. The model requires chunkSize > 0 and numToRead > 0.
- An exception thrown by advanceChunks is modelled as an `Err` result. The
  state it leaves behind is the state at the throw.
- Concurrency. The object is single-threaded.
- GetFile, GetId, GetSize: these getters return a field of the file
  document and state nothing else, so they carry no contract.
- Download.GridFSDownload.AdvanceChunks: its contract does not carry
  Valid(). Session.AdvanceKeepsInv states that advanceChunks keeps the
  invariant, and callers apply it.
- Download.GridFSDownload.DownloadNumBytes: its contract does not carry
  Valid(). The invariant is kept by Session.ReadKeepsInv, which
  Client.ReadFile applies around every read.
- Download.GridFSDownload.ReadChunks: the loop and the final write of
  downloadNumBytes (source lines 82-94). They are a separate method of the
  class, so that each method's proof stays small.
- The history fields `validated`, `bufferChunk` and `intact` are ghost. They
  exist only for the proofs.
