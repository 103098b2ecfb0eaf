/** A GridFS download session as a state machine over values. A `State`
    holds every field of the download object that changes, in two parts: the
    `Cursor` (the position of the chunks iterator, the counters of the chunk
    being validated, and the history of accepted chunks and raised errors)
    and the `Buffer` (the temporary buffer stream with its flags). Each
    public operation of the download is a function from the old state to
    the new state and its result; the lemmas state what the operations
    promise. */
module Session {
  import opened ChunkLayout

  /** The chunk walk: the iterator position and whether it was ever
      rewound; the chunk wanted next, the bytes accepted so far, and
      exhaustion; and, as history, the chunks accepted in order and whether
      no CorruptFile error has been raised. */
  datatype Cursor = Cursor(idx: nat, firstCheck: bool, chunkOffset: nat, bytesSeen: nat, iteratorEmpty: bool,
                           validated: seq<Chunk>, intact: bool)

  /** The temporary buffer stream: contents, stream position and flags, and,
      as history, which accepted chunk the contents were cut from. */
  datatype Buffer = Buffer(buffer: seq<byte>, bufPos: nat, bufferFresh: bool, bufferEmpty: bool, bufferChunk: int)

  datatype State = State(cur: Cursor, buf: Buffer)

  /** The result of one advanceChunks: the new cursor and what it returns. */
  datatype Move = Move(next: Cursor, out: Result<bool>)

  /** The result of one read: the new state and what the call returns. */
  datatype Step<T> = Step(next: State, out: Result<T>)

  /** The result of copying the rest of the file out: the new cursor, the
      bytes written to the destination, and the error that stopped the copy. */
  datatype CopyResult = CopyResult(next: Cursor, written: seq<byte>, failure: Option<CorruptFile>)

  /** A freshly constructed session. */
  function Start(): State
  {
    State(Cursor(0, true, 0, 0, false, [], true), Buffer([], 0, true, true, 0))
  }

  predicate IsSuffix(a: seq<byte>, b: seq<byte>)
  {
    |a| <= |b| && b[|b| - |a|..] == a
  }

  /** The accepted chunks are the first ones of the collection, and the
      iterator stands on the last of them (it was never rewound if none). */
  predicate InOrder(chunks: seq<Chunk>, accepted: seq<Chunk>, firstCheck: bool, idx: nat)
  {
    |accepted| <= |chunks| && accepted == chunks[..|accepted|] &&
    (firstCheck <==> |accepted| == 0) &&
    (!firstCheck ==> idx + 1 == |accepted|)
  }

  /** What every reachable cursor on file `f` satisfies: the accepted chunks
      are the file's first chunks with the layout sizes and `bytesSeen`
      counts their bytes; exhaustion is only reported once all chunks are
      in; and while no error was raised, the chunks were accepted straight
      from the collection. */
  predicate CursorInv(f: FileDoc, chunks: seq<Chunk>, c: Cursor)
  {
    f.chunkSize > 0 &&
    c.chunkOffset <= NumChunks(f) && |c.validated| == c.chunkOffset &&
    Progress(f, c.validated, c.bytesSeen) &&
    (c.iteratorEmpty ==> c.chunkOffset == NumChunks(f)) &&
    (c.firstCheck ==> c.chunkOffset == 0) &&
    (c.intact ==> InOrder(chunks, c.validated, c.firstCheck, c.idx))
  }

  /** The buffer's position is within its contents, an empty buffer holds
      nothing, and a filled one holds a suffix of an accepted chunk. */
  predicate BufferInv(validated: seq<Chunk>, b: Buffer)
  {
    b.bufPos <= |b.buffer| &&
    (b.bufferEmpty ==> b.buffer == []) &&
    (!b.bufferEmpty ==> b.buffer != [] && 0 <= b.bufferChunk < |validated| &&
                        IsSuffix(b.buffer, validated[b.bufferChunk].data))
  }

  /** What every reachable state of a session on file `f` satisfies. */
  predicate Inv(f: FileDoc, chunks: seq<Chunk>, s: State)
  {
    CursorInv(f, chunks, s.cur) && BufferInv(s.cur.validated, s.buf)
  }

  /** The bytes the next read of the buffer stream starts with: all of it
      when it is to be rewound first, the part after the position otherwise. */
  function Pending(b: Buffer): seq<byte>
  {
    if b.bufferFresh then b.buffer
    else if b.bufPos <= |b.buffer| then b.buffer[b.bufPos..]
    else []
  }

  /** The reads so far handed out `d`, and the accepted bytes are `d`
      followed by the buffered bytes: nothing lost, nothing repeated. A filled
      buffer was cut from the most recently accepted chunk. */
  predicate Streamed(s: State, d: seq<byte>)
  {
    d + Pending(s.buf) == Bytes(s.cur.validated) &&
    (!s.buf.bufferEmpty ==> s.buf.bufferChunk == |s.cur.validated| - 1)
  }

  /** End of file: exhaustion was reported and the buffer was emptied. */
  predicate AtEOF(s: State)
  {
    s.cur.iteratorEmpty && s.buf.bufferEmpty
  }

  /** Chunks not yet accepted: the measure every loop over the chunks uses. */
  function Remaining(f: FileDoc, c: Cursor): nat
    requires f.chunkSize > 0
  {
    if c.chunkOffset <= NumChunks(f) then NumChunks(f) - c.chunkOffset else 0
  }

  /** Where a move of the iterator lands: rewound to the first chunk on the
      first move, one further on every later one. */
  function NextIdx(c: Cursor): nat
  {
    if c.firstCheck then 0 else c.idx + 1
  }

  /** `fread` of at most `n` bytes from position `pos` of a stream holding `buf`. */
  function ReadAt(buf: seq<byte>, pos: nat, n: int): (r: seq<byte>)
    requires n >= 0
    ensures |r| <= n
    ensures pos <= |buf| ==> r <= buf[pos..] && (|r| == n || r == buf[pos..])
    ensures pos >= |buf| ==> r == []
  {
    if pos >= |buf| then []
    else if pos + n <= |buf| then buf[pos..pos + n]
    else buf[pos..]
  }

  /** `substr(data, 0, k)`: the first k bytes, or all of them if fewer. */
  function Prefix(data: seq<byte>, k: int): (r: seq<byte>)
    requires k >= 0
    ensures r <= data
    ensures |r| == if k < |data| then k else |data|
  {
    if k < |data| then data[..k] else data
  }

  /** advanceChunks: Ok(false) without touching the iterator once every
      chunk was accepted; otherwise the iterator moves, and the chunk it
      shows is checked for being there, for its index and for its size, in
      that order. An accepted chunk adds its length to `bytesSeen` and moves
      `chunkOffset` on by one; a rejected one raises the first failed check
      and leaves the counters alone. */
  function Advance(f: FileDoc, chunks: seq<Chunk>, c: Cursor): (r: Move)
    requires f.chunkSize > 0
    ensures r.out == Ok(false) <==> c.chunkOffset >= NumChunks(f)
    ensures r.out == Ok(false) ==> r.next == c.(iteratorEmpty := true)
    ensures c.chunkOffset < NumChunks(f) ==>
              r.next.idx == NextIdx(c) && !r.next.firstCheck && r.next.iteratorEmpty == c.iteratorEmpty
    ensures c.chunkOffset < NumChunks(f) && NextIdx(c) >= |chunks| ==>
              r.out == Err(MissingChunk(c.chunkOffset))
    ensures c.chunkOffset < NumChunks(f) && NextIdx(c) < |chunks| && chunks[NextIdx(c)].n != c.chunkOffset ==>
              r.out == Err(UnexpectedIndex(chunks[NextIdx(c)].n, c.chunkOffset))
    ensures c.chunkOffset < NumChunks(f) && NextIdx(c) < |chunks| && chunks[NextIdx(c)].n == c.chunkOffset &&
            |chunks[NextIdx(c)].data| != ExpectedSize(f, c.chunkOffset, c.bytesSeen) ==>
              r.out == Err(UnexpectedSize(|chunks[NextIdx(c)].data|, ExpectedSize(f, c.chunkOffset, c.bytesSeen)))
    ensures r.out == Ok(true) ==>
              r.next.idx < |chunks| && chunks[r.next.idx].n == c.chunkOffset &&
              |chunks[r.next.idx].data| == ExpectedSize(f, c.chunkOffset, c.bytesSeen) &&
              r.next == c.(idx := r.next.idx, firstCheck := false, chunkOffset := c.chunkOffset + 1,
                           bytesSeen := c.bytesSeen + |chunks[r.next.idx].data|,
                           validated := c.validated + [chunks[r.next.idx]])
    ensures r.out.Err? ==> r.next == c.(idx := NextIdx(c), firstCheck := false, intact := false)
  {
    if c.chunkOffset >= NumChunks(f) then Move(c.(iteratorEmpty := true), Ok(false))
    else
      var moved := c.(idx := NextIdx(c), firstCheck := false);
      var v := Verdict(ChunkAt(chunks, moved.idx), c.chunkOffset, ExpectedSize(f, c.chunkOffset, c.bytesSeen));
      if v.Some? then Move(moved.(intact := false), Err(v.value))
      else
        var k := chunks[moved.idx];
        Move(moved.(chunkOffset := c.chunkOffset + 1, bytesSeen := c.bytesSeen + |k.data|,
                    validated := c.validated + [k]), Ok(true))
  }

  /** The step after the read loop of downloadNumBytes: while chunks remain,
      the part of the last chunk read that did not fit, if any, is written to
      the (freshly reopened) buffer. */
  function KeepRest(f: FileDoc, s: State, data: seq<byte>, bytesLeft: int, output: seq<byte>): (r: Step<seq<byte>>)
    requires bytesLeft >= 0
    ensures r.out == Ok(output) && r.next.cur == s.cur
  {
    if !s.cur.iteratorEmpty && f.length > 0 && bytesLeft < |data| then
      Step(s.(buf := s.buf.(buffer := data[bytesLeft..], bufPos := |data| - bytesLeft, bufferEmpty := false,
                            bufferChunk := |s.cur.validated| - 1)), Ok(output))
    else Step(s, Ok(output))
  }

  /** The read loop of downloadNumBytes, entered with `output` short of `n`:
      move to the next chunk and append as much of it as still fits, until
      `n` bytes are there or the chunks are exhausted. The result extends
      `output`, by at most `n` bytes in all, falls short only after
      exhaustion was reported, and leaves `iteratorEmpty` alone when it
      does not fall short. */
  function Fill(f: FileDoc, chunks: seq<Chunk>, s: State, n: int, output: seq<byte>): (r: Step<seq<byte>>)
    requires f.chunkSize > 0 && |output| < n
    ensures r.out.Ok? ==> output <= r.out.value && |r.out.value| <= n
    ensures r.out.Ok? && |r.out.value| < n ==> r.next.cur.iteratorEmpty
    ensures r.out.Ok? && |r.out.value| == n ==> r.next.cur.iteratorEmpty == s.cur.iteratorEmpty
    ensures s.cur.iteratorEmpty ==> r.next.cur.iteratorEmpty
    decreases Remaining(f, s.cur)
  {
    var a := Advance(f, chunks, s.cur);
    var t := s.(cur := a.next);
    if a.out.Err? then Step(t, Err(a.out.error))
    else if !a.out.value then Step(t, Ok(output))
    else
      var bytesLeft := n - |output|;
      var data := chunks[a.next.idx].data;
      var grown := output + Prefix(data, bytesLeft);
      if |grown| < n then Fill(f, chunks, t, n, grown)
      else KeepRest(f, t, data, bytesLeft, grown)
  }

  /** One round of the read loop that ends it: an error or exhaustion. */
  lemma FillStops(f: FileDoc, chunks: seq<Chunk>, s: State, n: int, output: seq<byte>, a: Move)
    requires f.chunkSize > 0 && |output| < n && a == Advance(f, chunks, s.cur) && a.out != Ok(true)
    ensures Fill(f, chunks, s, n, output) ==
              Step(State(a.next, s.buf), if a.out.Err? then Err(a.out.error) else Ok(output))
  {
  }

  /** One round of the read loop that accepts the chunk at iterator
      position `c.idx`: the loop goes on while the output is short, and
      otherwise the rest of that chunk is kept. */
  lemma FillGoesOn(f: FileDoc, chunks: seq<Chunk>, s: State, n: int, output: seq<byte>, c: Cursor)
    requires f.chunkSize > 0 && |output| < n && Advance(f, chunks, s.cur) == Move(c, Ok(true))
    ensures c.idx < |chunks|
    ensures var grown := output + Prefix(chunks[c.idx].data, n - |output|);
            Fill(f, chunks, s, n, output) ==
              if |grown| < n then Fill(f, chunks, State(c, s.buf), n, grown)
              else KeepRest(f, State(c, s.buf), chunks[c.idx].data, n - |output|, grown)
  {
  }

  /** The buffer reopened empty, as downloadNumBytes does before it reads on
      from the chunks. */
  function Reopened(b: Buffer): (r: Buffer)
    ensures Pending(r) == [] && r.bufferEmpty
  {
    b.(buffer := [], bufPos := 0, bufferFresh := true, bufferEmpty := true)
  }

  /** downloadNumBytes(n): read from the buffer stream first (rewinding it
      if it was just filled); if that gives all `n` bytes, done; otherwise
      reopen the buffer empty and read on from the chunks. */
  function Read(f: FileDoc, chunks: seq<Chunk>, s: State, n: int): (r: Step<seq<byte>>)
    requires f.chunkSize > 0 && n > 0
    ensures r.out.Ok? ==> |r.out.value| <= n
    ensures r.out.Ok? && |r.out.value| < n ==> r.next.cur.iteratorEmpty
    ensures r.out.Ok? && |r.out.value| == n ==> r.next.cur.iteratorEmpty == s.cur.iteratorEmpty
    ensures s.cur.iteratorEmpty ==> r.next.cur.iteratorEmpty
  {
    var b := s.buf;
    var rewound := if b.bufferFresh then b.(bufPos := 0, bufferFresh := false) else b;
    var got := ReadAt(rewound.buffer, rewound.bufPos, n);
    var afterRead := rewound.(bufPos := rewound.bufPos + |got|);
    if |got| == n then Step(s.(buf := afterRead), Ok(got))
    else Fill(f, chunks, s.(buf := Reopened(afterRead)), n, got)
  }

  /** downloadToStream: write the payload of every chunk accepted from here
      on to the destination, until exhaustion or an error. It works on the
      cursor alone: the buffer stream is neither read nor changed. */
  function Copy(f: FileDoc, chunks: seq<Chunk>, c: Cursor, written: seq<byte>): (r: CopyResult)
    requires f.chunkSize > 0
    ensures written <= r.written
    ensures r.failure.None? ==> r.next.iteratorEmpty && r.next.chunkOffset >= NumChunks(f)
    ensures r.failure.Some? ==> !r.next.intact
    ensures c.iteratorEmpty ==> r.next.iteratorEmpty
    decreases Remaining(f, c)
  {
    var a := Advance(f, chunks, c);
    if a.out.Err? then CopyResult(a.next, written, Some(a.out.error))
    else if !a.out.value then CopyResult(a.next, written, None)
    else Copy(f, chunks, a.next, written + chunks[a.next.idx].data)
  }

  // ---------------------------------------------------------------------
  // advanceChunks

  /** A fresh session satisfies the invariant, is not at end of file (not
      even for an empty file), and has accepted nothing. */
  lemma StartIsValid(f: FileDoc, chunks: seq<Chunk>)
    requires f.chunkSize > 0
    ensures Inv(f, chunks, Start()) && Streamed(Start(), [])
    ensures !AtEOF(Start())
  {
    assert Bytes([]) == [];
  }

  /** advanceChunks keeps the invariant, whatever the buffer holds, and never
      clears `iteratorEmpty`. */
  lemma AdvanceKeepsInv(f: FileDoc, chunks: seq<Chunk>, c: Cursor, b: Buffer)
    requires Inv(f, chunks, State(c, b))
    ensures Inv(f, chunks, State(Advance(f, chunks, c).next, b))
    ensures c.iteratorEmpty ==> Advance(f, chunks, c).next.iteratorEmpty
  {
    var r := Advance(f, chunks, c);
    if r.out == Ok(true) {
      AcceptKeepsInv(f, chunks, c, b, r.next.idx);
    }
  }

  /** Accepting the chunk at iterator position `i` keeps the invariant. */
  lemma AcceptKeepsInv(f: FileDoc, chunks: seq<Chunk>, c: Cursor, b: Buffer, i: nat)
    requires Inv(f, chunks, State(c, b)) && c.chunkOffset < NumChunks(f)
    requires i == NextIdx(c) && i < |chunks|
    requires chunks[i].n == c.chunkOffset && |chunks[i].data| == ExpectedSize(f, c.chunkOffset, c.bytesSeen)
    ensures Inv(f, chunks, State(c.(idx := i, firstCheck := false, chunkOffset := c.chunkOffset + 1,
                                    bytesSeen := c.bytesSeen + |chunks[i].data|,
                                    validated := c.validated + [chunks[i]]), b))
  {
    var k := chunks[i];
    AcceptKeepsProgress(f, c.validated, c.bytesSeen, k);
    if !b.bufferEmpty {
      assert (c.validated + [k])[b.bufferChunk] == c.validated[b.bufferChunk];
    }
    if c.intact {
      assert chunks[..c.chunkOffset + 1] == chunks[..c.chunkOffset] + [chunks[c.chunkOffset]];
    }
  }

  /** While no error was raised, the iterator moves onto exactly the chunk
      wanted, and on a well-formed collection no error is raised. */
  lemma AdvanceWhileIntact(f: FileDoc, chunks: seq<Chunk>, c: Cursor)
    requires CursorInv(f, chunks, c) && c.intact
    ensures c.chunkOffset < NumChunks(f) ==> NextIdx(c) == c.chunkOffset
    ensures WellFormed(f, chunks) ==> Advance(f, chunks, c).out.Ok?
  {
    if WellFormed(f, chunks) && c.chunkOffset < NumChunks(f) {
      ExpectedSizeOnLayout(f, c.validated);
      assert GoodChunk(f, chunks[c.chunkOffset], c.chunkOffset);
    }
  }

  /** `bytesSeen` is chunkOffset * chunkSize while chunks remain, and the
      file length once they are all in. */
  lemma SeenBytes(f: FileDoc, chunks: seq<Chunk>, c: Cursor)
    requires CursorInv(f, chunks, c)
    ensures c.chunkOffset < NumChunks(f) ==> c.bytesSeen == c.chunkOffset * f.chunkSize
    ensures c.chunkOffset == NumChunks(f) ==> c.bytesSeen == if f.length > 0 then f.length else 0
    ensures c.bytesSeen <= if f.length > 0 then f.length else 0
  {
    LayoutBytes(f, c.validated);
    if c.chunkOffset < NumChunks(f) {
      FullChunksFit(f, c.chunkOffset);
    }
  }

  /** A chunk that advanceChunks accepts is never empty. */
  lemma AcceptedIsNonEmpty(f: FileDoc, chunks: seq<Chunk>, c: Cursor)
    requires CursorInv(f, chunks, c) && Advance(f, chunks, c).out == Ok(true)
    ensures |chunks[Advance(f, chunks, c).next.idx].data| > 0
  {
    ExpectedSizeOnLayout(f, c.validated);
    SizeAtPositive(f, c.chunkOffset);
  }

  // ---------------------------------------------------------------------
  // downloadNumBytes

  /** The write after the read loop keeps the invariant. */
  lemma KeepRestKeepsInv(f: FileDoc, chunks: seq<Chunk>, s: State, data: seq<byte>, bytesLeft: int, output: seq<byte>)
    requires Inv(f, chunks, s) && bytesLeft >= 0
    requires s.cur.validated != [] && data == s.cur.validated[|s.cur.validated| - 1].data
    ensures Inv(f, chunks, KeepRest(f, s, data, bytesLeft, output).next)
  {
  }

  /** The read loop keeps the invariant. */
  lemma {:induction false} FillKeepsInv(f: FileDoc, chunks: seq<Chunk>, s: State, n: int, output: seq<byte>)
    requires Inv(f, chunks, s) && |output| < n
    ensures Inv(f, chunks, Fill(f, chunks, s, n, output).next)
    decreases Remaining(f, s.cur)
  {
    var a := Advance(f, chunks, s.cur);
    var t := s.(cur := a.next);
    AdvanceKeepsInv(f, chunks, s.cur, s.buf);
    if a.out == Ok(true) {
      var bytesLeft := n - |output|;
      var k := chunks[a.next.idx];
      var grown := output + Prefix(k.data, bytesLeft);
      if |grown| < n {
        FillKeepsInv(f, chunks, t, n, grown);
      } else {
        KeepRestKeepsInv(f, chunks, t, k.data, bytesLeft, grown);
      }
    }
  }

  /** The write after the read loop keeps the stream: the part of the last
      accepted chunk that did not fit into the output is exactly what the
      (reopened, empty) buffer then holds. */
  lemma KeepRestStreams(f: FileDoc, s: State, data: seq<byte>, bytesLeft: int, output: seq<byte>, d: seq<byte>)
    requires bytesLeft >= 0
    requires s.buf.buffer == [] && s.buf.bufferFresh && s.buf.bufferEmpty
    requires s.cur.validated != [] && data == s.cur.validated[|s.cur.validated| - 1].data
    requires !s.cur.iteratorEmpty && f.length > 0
    requires d + output + data == Bytes(s.cur.validated)
    ensures Streamed(KeepRest(f, s, data, bytesLeft, output + Prefix(data, bytesLeft)).next,
                     d + (output + Prefix(data, bytesLeft)))
  {
    var grown := output + Prefix(data, bytesLeft);
    var r := KeepRest(f, s, data, bytesLeft, grown);
    if bytesLeft < |data| {
      assert Pending(r.next.buf) == data[bytesLeft..];
      assert d + grown + Pending(r.next.buf) == d + output + data;
    } else {
      assert Pending(r.next.buf) == [];
      assert d + grown == d + output + data;
    }
  }

  /** The read loop keeps the stream: entered with the buffer reopened empty
      and `d + output` the accepted bytes, it ends with `d` followed by its
      result and the new buffer being the accepted bytes. */
  lemma {:induction false} FillStreams(f: FileDoc, chunks: seq<Chunk>, s: State, n: int, output: seq<byte>, d: seq<byte>)
    requires f.chunkSize > 0 && |output| < n
    requires s.cur.iteratorEmpty ==> s.cur.chunkOffset >= NumChunks(f)
    requires s.buf.buffer == [] && s.buf.bufferFresh && s.buf.bufferEmpty
    requires d + output == Bytes(s.cur.validated)
    ensures Fill(f, chunks, s, n, output).out.Ok? ==>
              Streamed(Fill(f, chunks, s, n, output).next, d + Fill(f, chunks, s, n, output).out.value)
    decreases Remaining(f, s.cur)
  {
    var a := Advance(f, chunks, s.cur);
    if a.out == Ok(true) && |output + Prefix(chunks[a.next.idx].data, n - |output|)| < n {
      var k := chunks[a.next.idx];
      var grown := output + Prefix(k.data, n - |output|);
      AcceptStreams(s.cur.validated, k, d, output);
      FillGoesOn(f, chunks, s, n, output, a.next);
      assert grown == output + k.data;
      FillStreams(f, chunks, State(a.next, s.buf), n, grown, d);
    } else {
      LastRoundStreams(f, chunks, s, n, output, d);
    }
  }

  /** The round of the read loop that ends it keeps the stream. */
  lemma LastRoundStreams(f: FileDoc, chunks: seq<Chunk>, s: State, n: int, output: seq<byte>, d: seq<byte>)
    requires f.chunkSize > 0 && |output| < n
    requires s.cur.iteratorEmpty ==> s.cur.chunkOffset >= NumChunks(f)
    requires s.buf.buffer == [] && s.buf.bufferFresh && s.buf.bufferEmpty
    requires d + output == Bytes(s.cur.validated)
    requires var a := Advance(f, chunks, s.cur);
             a.out != Ok(true) || |output + Prefix(chunks[a.next.idx].data, n - |output|)| >= n
    ensures Fill(f, chunks, s, n, output).out.Ok? ==>
              Streamed(Fill(f, chunks, s, n, output).next, d + Fill(f, chunks, s, n, output).out.value)
  {
    var a := Advance(f, chunks, s.cur);
    if a.out != Ok(true) {
      StopStreams(f, chunks, s, n, output, d, a);
    } else {
      var k := chunks[a.next.idx];
      AcceptStreams(s.cur.validated, k, d, output);
      FillGoesOn(f, chunks, s, n, output, a.next);
      assert f.length > 0;
      KeepRestStreams(f, State(a.next, s.buf), k.data, n - |output|, output, d);
    }
  }

  /** A round that raises an error or reports exhaustion keeps the stream. */
  lemma StopStreams(f: FileDoc, chunks: seq<Chunk>, s: State, n: int, output: seq<byte>, d: seq<byte>, a: Move)
    requires f.chunkSize > 0 && |output| < n
    requires s.buf.buffer == [] && s.buf.bufferFresh && s.buf.bufferEmpty
    requires d + output == Bytes(s.cur.validated)
    requires a == Advance(f, chunks, s.cur) && a.out != Ok(true)
    ensures Fill(f, chunks, s, n, output).out.Ok? ==>
              Streamed(Fill(f, chunks, s, n, output).next, d + Fill(f, chunks, s, n, output).out.value)
  {
    FillStops(f, chunks, s, n, output, a);
    assert Pending(s.buf) == [] && d + output + [] == d + output;
  }

  lemma AcceptStreams(validated: seq<Chunk>, k: Chunk, d: seq<byte>, output: seq<byte>)
    requires d + output == Bytes(validated)
    ensures d + output + k.data == Bytes(validated + [k])
    ensures (validated + [k])[|validated + [k]| - 1] == k
  {
    BytesSnoc(validated, k);
  }

  /** downloadNumBytes keeps the invariant. */
  lemma ReadKeepsInv(f: FileDoc, chunks: seq<Chunk>, s: State, n: int)
    requires Inv(f, chunks, s) && n > 0
    ensures Inv(f, chunks, Read(f, chunks, s, n).next)
  {
    var b := s.buf;
    var rewound := if b.bufferFresh then b.(bufPos := 0, bufferFresh := false) else b;
    var got := ReadAt(rewound.buffer, rewound.bufPos, n);
    var afterRead := rewound.(bufPos := rewound.bufPos + |got|);
    if |got| < n {
      FillKeepsInv(f, chunks, s.(buf := Reopened(afterRead)), n, got);
    }
  }

  /** A read the buffer can serve returns the next `n` buffered bytes and
      touches nothing else: no chunk is read, and exhaustion is not reported
      even when the read takes the last byte. */
  lemma ReadServedByBuffer(f: FileDoc, chunks: seq<Chunk>, s: State, n: int)
    requires f.chunkSize > 0 && n > 0 && |Pending(s.buf)| >= n
    ensures Read(f, chunks, s, n).out == Ok(Pending(s.buf)[..n])
    ensures Pending(Read(f, chunks, s, n).next.buf) == Pending(s.buf)[n..]
    ensures Read(f, chunks, s, n).next ==
              s.(buf := s.buf.(bufPos := (if s.buf.bufferFresh then 0 else s.buf.bufPos) + n, bufferFresh := false))
  {
    var b := s.buf;
    var rewound := if b.bufferFresh then b.(bufPos := 0, bufferFresh := false) else b;
    assert Pending(b) == rewound.buffer[rewound.bufPos..];
    assert ReadAt(rewound.buffer, rewound.bufPos, n) == Pending(b)[..n];
  }

  /** Reopening the buffer empty keeps the invariant. */
  lemma ReopenedKeepsInv(f: FileDoc, chunks: seq<Chunk>, s: State)
    requires Inv(f, chunks, s)
    ensures Inv(f, chunks, s.(buf := Reopened(s.buf)))
  {
  }

  /** A read the buffer cannot serve starts with every buffered byte, then
      reads on from the chunks with the buffer reopened empty. */
  lemma ReadBeyondBuffer(f: FileDoc, chunks: seq<Chunk>, s: State, n: int)
    requires f.chunkSize > 0 && n > 0 && |Pending(s.buf)| < n
    ensures Read(f, chunks, s, n) == Fill(f, chunks, s.(buf := Reopened(s.buf)), n, Pending(s.buf))
  {
    var b := s.buf;
    var rewound := if b.bufferFresh then b.(bufPos := 0, bufferFresh := false) else b;
    if rewound.bufPos <= |rewound.buffer| {
      assert Pending(b) == rewound.buffer[rewound.bufPos..];
    }
  }

  /** A read that succeeds hands out the next bytes of the accepted payload:
      successive reads concatenate to a prefix of the accepted chunks' bytes,
      with nothing lost or repeated, and the buffer holds the rest. */
  lemma ReadStreams(f: FileDoc, chunks: seq<Chunk>, s: State, n: int, d: seq<byte>)
    requires Inv(f, chunks, s) && n > 0 && Streamed(s, d)
    ensures Read(f, chunks, s, n).out.Ok? ==>
              Streamed(Read(f, chunks, s, n).next, d + Read(f, chunks, s, n).out.value)
  {
    if |Pending(s.buf)| >= n {
      ReadStreamsFromBuffer(f, chunks, s, n, d);
    } else {
      ReadBeyondBuffer(f, chunks, s, n);
      FillStreams(f, chunks, s.(buf := Reopened(s.buf)), n, Pending(s.buf), d);
    }
  }

  lemma ReadStreamsFromBuffer(f: FileDoc, chunks: seq<Chunk>, s: State, n: int, d: seq<byte>)
    requires f.chunkSize > 0 && n > 0 && |Pending(s.buf)| >= n && Streamed(s, d)
    ensures Streamed(Read(f, chunks, s, n).next, d + Read(f, chunks, s, n).out.value)
  {
    ReadServedByBuffer(f, chunks, s, n);
    BufferStreams(s, n, d);
  }

  /** Taking the next `n` buffered bytes keeps the stream. */
  lemma BufferStreams(s: State, n: int, d: seq<byte>)
    requires 0 < n && |Pending(s.buf)| >= n && Streamed(s, d)
    ensures Streamed(s.(buf := s.buf.(bufPos := (if s.buf.bufferFresh then 0 else s.buf.bufPos) + n, bufferFresh := false)),
                     d + Pending(s.buf)[..n])
  {
    var p := Pending(s.buf);
    var t := s.buf.(bufPos := (if s.buf.bufferFresh then 0 else s.buf.bufPos) + n, bufferFresh := false);
    assert Pending(t) == p[n..];
    assert d + p[..n] + p[n..] == d + p;
  }

  /** downloadNumBytes on a well-formed collection raises no error. */
  lemma {:induction false} FillOnWellFormed(f: FileDoc, chunks: seq<Chunk>, s: State, n: int, output: seq<byte>)
    requires Inv(f, chunks, s) && s.cur.intact && WellFormed(f, chunks) && |output| < n
    ensures Fill(f, chunks, s, n, output).out.Ok? && Fill(f, chunks, s, n, output).next.cur.intact
    decreases Remaining(f, s.cur)
  {
    var a := Advance(f, chunks, s.cur);
    AdvanceWhileIntact(f, chunks, s.cur);
    AdvanceKeepsInv(f, chunks, s.cur, s.buf);
    if a.out == Ok(true) {
      var bytesLeft := n - |output|;
      var grown := output + Prefix(chunks[a.next.idx].data, bytesLeft);
      if |grown| < n {
        FillOnWellFormed(f, chunks, s.(cur := a.next), n, grown);
      }
    }
  }

  lemma ReadOnWellFormed(f: FileDoc, chunks: seq<Chunk>, s: State, n: int)
    requires Inv(f, chunks, s) && s.cur.intact && WellFormed(f, chunks) && n > 0
    ensures Read(f, chunks, s, n).out.Ok? && Read(f, chunks, s, n).next.cur.intact
  {
    if |Pending(s.buf)| < n {
      ReadBeyondBuffer(f, chunks, s, n);
      FillOnWellFormed(f, chunks, s.(buf := Reopened(s.buf)), n, Pending(s.buf));
    } else {
      ReadServedByBuffer(f, chunks, s, n);
    }
  }

  /** Once every chunk is in and the buffer has nothing left to give, a read
      returns nothing and reaches end of file. A read that returned all the
      bytes it asked for, the last byte included, left iteratorEmpty as it
      was (see Read), so end of file may take this one more read. */
  lemma ReadPastEnd(f: FileDoc, chunks: seq<Chunk>, s: State, n: int)
    requires Inv(f, chunks, s) && n > 0 && s.cur.chunkOffset == NumChunks(f) && Pending(s.buf) == []
    ensures Read(f, chunks, s, n).out == Ok([])
    ensures AtEOF(Read(f, chunks, s, n).next)
  {
    ReadBeyondBuffer(f, chunks, s, n);
  }

  /** A read that exactly drains a filled buffer does not reach end of file,
      even after exhaustion was reported: the buffer is still marked filled. */
  lemma ExactDrainIsNotEOF(f: FileDoc, chunks: seq<Chunk>, s: State)
    requires Inv(f, chunks, s) && !s.buf.bufferEmpty && |Pending(s.buf)| > 0
    ensures Read(f, chunks, s, |Pending(s.buf)|).out == Ok(Pending(s.buf))
    ensures Pending(Read(f, chunks, s, |Pending(s.buf)|).next.buf) == []
    ensures !AtEOF(Read(f, chunks, s, |Pending(s.buf)|).next)
  {
    ReadServedByBuffer(f, chunks, s, |Pending(s.buf)|);
    assert Pending(s.buf)[..|Pending(s.buf)|] == Pending(s.buf);
  }

  /** At end of file every chunk is in and the reads, if they kept the
      stream, delivered every accepted byte: the file's length in all, and,
      while no error was raised, the payloads of chunks 0 .. NumChunks - 1. */
  lemma EOFMeansDelivered(f: FileDoc, chunks: seq<Chunk>, s: State, d: seq<byte>)
    requires Inv(f, chunks, s) && Streamed(s, d) && AtEOF(s)
    ensures s.cur.chunkOffset == NumChunks(f)
    ensures d == Bytes(s.cur.validated) && |d| == if f.length > 0 then f.length else 0
    ensures s.cur.intact ==> d == Bytes(chunks[..NumChunks(f)])
  {
    assert Pending(s.buf) == [];
    assert d + [] == d;
    SeenBytes(f, chunks, s.cur);
  }

  /** End of file is final: a read at end of file returns nothing and
      stays at end of file. */
  lemma EOFIsStable(f: FileDoc, chunks: seq<Chunk>, s: State, n: int)
    requires Inv(f, chunks, s) && AtEOF(s) && n > 0
    ensures Read(f, chunks, s, n).out == Ok([]) && AtEOF(Read(f, chunks, s, n).next)
  {
    ReadPastEnd(f, chunks, s, n);
  }

  /** A read on an empty buffer either hands out more than `output` or
      reaches end of file. */
  lemma FillProgress(f: FileDoc, chunks: seq<Chunk>, s: State, n: int, output: seq<byte>)
    requires CursorInv(f, chunks, s.cur) && |output| < n && s.buf.bufferEmpty
    ensures Fill(f, chunks, s, n, output).out.Ok? ==>
              |Fill(f, chunks, s, n, output).out.value| > |output| || AtEOF(Fill(f, chunks, s, n, output).next)
  {
    var a := Advance(f, chunks, s.cur);
    if a.out != Ok(true) {
      FillStops(f, chunks, s, n, output, a);
    } else {
      AcceptedIsNonEmpty(f, chunks, s.cur);
      FillGoesOn(f, chunks, s, n, output, a.next);
    }
  }

  /** Every read that succeeds hands out at least one byte or reaches end
      of file, so reading until end of file terminates. */
  lemma ReadProgress(f: FileDoc, chunks: seq<Chunk>, s: State, n: int)
    requires Inv(f, chunks, s) && n > 0
    ensures Read(f, chunks, s, n).out.Ok? ==> |Read(f, chunks, s, n).out.value| > 0 || AtEOF(Read(f, chunks, s, n).next)
  {
    if |Pending(s.buf)| >= n {
      ReadServedByBuffer(f, chunks, s, n);
    } else {
      ReadBeyondBuffer(f, chunks, s, n);
      FillProgress(f, chunks, s.(buf := Reopened(s.buf)), n, Pending(s.buf));
    }
  }

  /** A read loop that raises no error raises no error flag either. */
  lemma {:induction false} FillKeepsIntact(f: FileDoc, chunks: seq<Chunk>, s: State, n: int, output: seq<byte>)
    requires f.chunkSize > 0 && |output| < n
    ensures Fill(f, chunks, s, n, output).out.Ok? ==> Fill(f, chunks, s, n, output).next.cur.intact == s.cur.intact
    decreases Remaining(f, s.cur)
  {
    var a := Advance(f, chunks, s.cur);
    if a.out != Ok(true) {
      FillStops(f, chunks, s, n, output, a);
    } else {
      FillGoesOn(f, chunks, s, n, output, a.next);
      var grown := output + Prefix(chunks[a.next.idx].data, n - |output|);
      if |grown| < n {
        FillKeepsIntact(f, chunks, State(a.next, s.buf), n, grown);
      }
    }
  }

  lemma ReadKeepsIntact(f: FileDoc, chunks: seq<Chunk>, s: State, n: int)
    requires f.chunkSize > 0 && n > 0
    ensures Read(f, chunks, s, n).out.Ok? ==> Read(f, chunks, s, n).next.cur.intact == s.cur.intact
  {
    if |Pending(s.buf)| >= n {
      ReadServedByBuffer(f, chunks, s, n);
    } else {
      ReadBeyondBuffer(f, chunks, s, n);
      FillKeepsIntact(f, chunks, s.(buf := Reopened(s.buf)), n, Pending(s.buf));
    }
  }

  /** Once every chunk is in without an error being raised, the chunks
      collection is well formed and the accepted chunks are its first
      NumChunks chunks. */
  lemma CompleteMeansWellFormed(f: FileDoc, chunks: seq<Chunk>, c: Cursor)
    requires CursorInv(f, chunks, c) && c.intact && c.chunkOffset == NumChunks(f)
    ensures WellFormed(f, chunks) && c.validated == chunks[..NumChunks(f)]
  {
    forall i | 0 <= i < NumChunks(f) ensures GoodChunk(f, chunks[i], i) {
      assert c.validated[i] == chunks[i];
    }
  }

  // ---------------------------------------------------------------------
  // downloadToStream

  lemma {:induction false} CopyKeepsInv(f: FileDoc, chunks: seq<Chunk>, c: Cursor, b: Buffer, written: seq<byte>)
    requires Inv(f, chunks, State(c, b))
    ensures Inv(f, chunks, State(Copy(f, chunks, c, written).next, b))
    decreases Remaining(f, c)
  {
    AdvanceKeepsInv(f, chunks, c, b);
    var a := Advance(f, chunks, c);
    if a.out == Ok(true) {
      CopyKeepsInv(f, chunks, a.next, b, written + chunks[a.next.idx].data);
    }
  }

  lemma BytesCons(k: Chunk, rest: seq<Chunk>)
    ensures Bytes([k] + rest) == k.data + Bytes(rest)
  {
    BytesConcat([k], rest);
    assert Bytes([k]) == Bytes([]) + k.data;
  }

  /** While no error was raised, one advanceChunks is the first step of the
      reference `Scan` from the chunk wanted. */
  lemma AdvanceAgreesWithScan(f: FileDoc, chunks: seq<Chunk>, c: Cursor)
    requires CursorInv(f, chunks, c) && c.intact
    ensures Advance(f, chunks, c).out.Err? ==>
              Scan(f, chunks, c.chunkOffset, c.bytesSeen) == ScanResult([], Some(Advance(f, chunks, c).out.error))
    ensures Advance(f, chunks, c).out == Ok(false) ==>
              Scan(f, chunks, c.chunkOffset, c.bytesSeen) == ScanResult([], None)
    ensures Advance(f, chunks, c).out == Ok(true) ==>
              var a := Advance(f, chunks, c).next;
              var rest := Scan(f, chunks, a.chunkOffset, a.bytesSeen);
              a.intact &&
              Scan(f, chunks, c.chunkOffset, c.bytesSeen) == ScanResult([chunks[a.idx]] + rest.accepted, rest.failure)
  {
    AdvanceWhileIntact(f, chunks, c);
  }

  lemma CopyStepBytes(written: seq<byte>, validated: seq<Chunk>, k: Chunk, rest: seq<Chunk>)
    ensures written + k.data + Bytes(rest) == written + Bytes([k] + rest)
    ensures validated + [k] + rest == validated + ([k] + rest)
  {
    BytesCons(k, rest);
  }

  /** While no error was raised, downloadToStream does what the reference
      `Scan` does: it writes the payloads of the chunks Scan accepts, in
      order, and stops with Scan's error, if any. */
  lemma {:induction false} CopyMatchesScan(f: FileDoc, chunks: seq<Chunk>, c: Cursor, written: seq<byte>)
    requires CursorInv(f, chunks, c) && c.intact
    ensures Copy(f, chunks, c, written).written ==
              written + Bytes(Scan(f, chunks, c.chunkOffset, c.bytesSeen).accepted)
    ensures Copy(f, chunks, c, written).failure == Scan(f, chunks, c.chunkOffset, c.bytesSeen).failure
    ensures Copy(f, chunks, c, written).next.validated ==
              c.validated + Scan(f, chunks, c.chunkOffset, c.bytesSeen).accepted
    decreases Remaining(f, c)
  {
    AdvanceAgreesWithScan(f, chunks, c);
    AdvanceKeepsInv(f, chunks, c, Buffer([], 0, true, true, 0));
    var a := Advance(f, chunks, c);
    if a.out == Ok(true) {
      var k := chunks[a.next.idx];
      assert Copy(f, chunks, c, written) == Copy(f, chunks, a.next, written + k.data);
      CopyMatchesScan(f, chunks, a.next, written + k.data);
      CopyStepBytes(written, c.validated, k, Scan(f, chunks, a.next.chunkOffset, a.next.bytesSeen).accepted);
    } else {
      assert Bytes([]) == [];
    }
  }

  /** Copying a whole file out of a fresh session succeeds exactly when the
      chunks collection is well formed; the destination then receives the
      payloads of chunks 0 .. NumChunks - 1, the file's length in all, and the
      session is at end of file. */
  lemma CopyWholeFile(f: FileDoc, chunks: seq<Chunk>)
    requires f.chunkSize > 0
    ensures Copy(f, chunks, Start().cur, []).failure.None? <==> WellFormed(f, chunks)
    ensures Copy(f, chunks, Start().cur, []).failure.None? ==>
              Copy(f, chunks, Start().cur, []).written == Bytes(chunks[..NumChunks(f)]) &&
              |Copy(f, chunks, Start().cur, []).written| == (if f.length > 0 then f.length else 0) &&
              AtEOF(State(Copy(f, chunks, Start().cur, []).next, Start().buf))
  {
    StartIsValid(f, chunks);
    CopyMatchesScan(f, chunks, Start().cur, []);
    ScanAcceptsIffWellFormed(f, chunks);
  }
}
