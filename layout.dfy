/** The values a GridFS download works on: the file document, the chunk
    documents the chunks collection yields, the three ways a file is found
    corrupt, and the layout the chunks of a sound file must have. The
    function `Scan` is a reference definition of what a download that never
    raised an error does with the remaining chunks; the download class is
    proved against it. */
module ChunkLayout {

  type byte = x: int | 0 <= x < 256

  /** The fields of a GridFS file document that the download reads. */
  datatype FileDoc = FileDoc(id: string, length: int, chunkSize: int)

  /** One chunk document: its index `n` and its binary payload. */
  datatype Chunk = Chunk(n: int, data: seq<byte>)

  datatype Option<T> = None | Some(value: T)

  /** The three kinds of CorruptFileException. */
  datatype CorruptFile =
    | MissingChunk(expectedN: int)
    | UnexpectedIndex(actualN: int, expectedN: int)
    | UnexpectedSize(actualSize: int, expectedSize: int)

  datatype Result<T> = Ok(value: T) | Err(error: CorruptFile)

  /** Integer ceiling of a / c for a >= 0, by repeated subtraction. */
  function CeilDiv(a: int, c: int): nat
    requires c > 0
    decreases a
  {
    if a <= 0 then 0 else 1 + CeilDiv(a - c, c)
  }

  /** Number of chunks a file is split into: length / chunkSize rounded up,
      and no chunks at all for a negative length. */
  function NumChunks(f: FileDoc): nat
    requires f.chunkSize > 0
  {
    if f.length >= 0 then CeilDiv(f.length, f.chunkSize) else 0
  }

  /** CeilDiv is the ceiling: the least r with a <= r * c. */
  lemma {:induction false} CeilDivBounds(a: int, c: int)
    requires c > 0
    ensures a <= 0 ==> CeilDiv(a, c) == 0
    ensures a > 0 ==> CeilDiv(a, c) > 0 && (CeilDiv(a, c) - 1) * c < a <= CeilDiv(a, c) * c
    decreases a
  {
    if a > 0 {
      var r := CeilDiv(a - c, c);
      CeilDivBounds(a - c, c);
      assert (1 + r) * c == r * c + c;
      assert r * c == (r - 1) * c + c;
    }
  }

  lemma MulStrictMonotone(x: int, y: int, c: int)
    requires c > 0 && x * c < y * c
    ensures x < y
  {
    assert y * c - x * c == (y - x) * c;
  }

  /** For a > 0 the ceiling bounds pin r down. */
  lemma CeilUnique(a: int, c: int, r: int, q: int)
    requires c > 0
    requires (r - 1) * c < a <= r * c
    requires (q - 1) * c < a <= q * c
    ensures r == q
  {
    MulStrictMonotone(r - 1, q, c);
    MulStrictMonotone(q - 1, r, c);
  }

  lemma DivCeilBounds(a: int, c: int)
    requires a > 0 && c > 0
    ensures ((a + c - 1) / c - 1) * c < a <= ((a + c - 1) / c) * c
  {
    var q := (a + c - 1) / c;
    var m := (a + c - 1) % c;
    assert a + c - 1 == q * c + m && 0 <= m < c;
    assert (q - 1) * c == q * c - c;
  }

  /** For a >= 0, CeilDiv agrees with the usual integer formula. */
  lemma CeilDivIsDivision(a: int, c: int)
    requires a >= 0 && c > 0
    ensures CeilDiv(a, c) == (a + c - 1) / c
  {
    CeilDivBounds(a, c);
    if a > 0 {
      DivCeilBounds(a, c);
      CeilUnique(a, c, CeilDiv(a, c), (a + c - 1) / c);
    } else {
      assert (c - 1) / c == 0;
    }
  }

  /** The chunk count is the ceiling of length / chunkSize, that is
      (length + chunkSize - 1) / chunkSize in integer division. */
  lemma NumChunksIsCeiling(f: FileDoc)
    requires f.chunkSize > 0
    ensures f.length <= 0 ==> NumChunks(f) == 0
    ensures f.length > 0 ==>
              NumChunks(f) > 0 && (NumChunks(f) - 1) * f.chunkSize < f.length <= NumChunks(f) * f.chunkSize
    ensures f.length >= 0 ==> NumChunks(f) == (f.length + f.chunkSize - 1) / f.chunkSize
  {
    CeilDivBounds(f.length, f.chunkSize);
    if f.length >= 0 {
      CeilDivIsDivision(f.length, f.chunkSize);
    }
  }

  /** The size the download demands of chunk `offset` after `seen` bytes were
      accepted: the rest of the file for the last chunk, `chunkSize` otherwise. */
  function ExpectedSize(f: FileDoc, offset: int, seen: int): int
    requires f.chunkSize > 0
  {
    if offset == NumChunks(f) - 1 then f.length - seen else f.chunkSize
  }

  /** What the chunk iterator shows at position `i`: a chunk, or the end. */
  function ChunkAt(chunks: seq<Chunk>, i: nat): Option<Chunk>
  {
    if i < |chunks| then Some(chunks[i]) else None
  }

  /** The checks made on the chunk the iterator shows when chunk `offset` is
      wanted, in the order they are made; None when the chunk is accepted. */
  function Verdict(cur: Option<Chunk>, offset: int, expected: int): (r: Option<CorruptFile>)
    ensures r.None? <==> cur.Some? && cur.value.n == offset && |cur.value.data| == expected
  {
    match cur
    case None => Some(MissingChunk(offset))
    case Some(c) =>
      if c.n != offset then Some(UnexpectedIndex(c.n, offset))
      else if |c.data| != expected then Some(UnexpectedSize(|c.data|, expected))
      else None
  }

  /** Concatenation of the payloads of `cs`, in order. */
  function Bytes(cs: seq<Chunk>): seq<byte>
  {
    if cs == [] then [] else Bytes(cs[..|cs| - 1]) + cs[|cs| - 1].data
  }

  /** Size of chunk `k` in a sound layout: `chunkSize`, except the remainder
      of `length` for the last chunk. */
  function SizeAt(f: FileDoc, k: int): int
    requires f.chunkSize > 0
  {
    if k == NumChunks(f) - 1 then f.length - k * f.chunkSize else f.chunkSize
  }

  predicate GoodChunk(f: FileDoc, c: Chunk, k: int)
    requires f.chunkSize > 0
  {
    c.n == k && |c.data| == SizeAt(f, k)
  }

  /** The first `j` chunks are chunks 0 .. j-1 of the file, each of its size. */
  predicate GoodPrefix(f: FileDoc, chunks: seq<Chunk>, j: nat)
    requires f.chunkSize > 0
  {
    j <= |chunks| && forall i :: 0 <= i < j ==> GoodChunk(f, chunks[i], i)
  }

  /** The chunks collection holds every chunk of the file, in order, each of
      the right size (anything after chunk NumChunks - 1 is never looked at). */
  predicate WellFormed(f: FileDoc, chunks: seq<Chunk>)
    requires f.chunkSize > 0
  {
    GoodPrefix(f, chunks, NumChunks(f))
  }

  datatype ScanResult = ScanResult(accepted: seq<Chunk>, failure: Option<CorruptFile>)

  /** Reference definition: starting with chunk `k` wanted and `seen` bytes
      accepted, the chunks accepted one by one (chunk k is at iterator
      position k) until the file is complete or a chunk is rejected. */
  function Scan(f: FileDoc, chunks: seq<Chunk>, k: nat, seen: int): ScanResult
    requires f.chunkSize > 0
    decreases NumChunks(f) - k
  {
    if k >= NumChunks(f) then ScanResult([], None)
    else
      var v := Verdict(ChunkAt(chunks, k), k, ExpectedSize(f, k, seen));
      if v.Some? then ScanResult([], v)
      else
        var rest := Scan(f, chunks, k + 1, seen + |chunks[k].data|);
        ScanResult([chunks[k]] + rest.accepted, rest.failure)
  }

  lemma BytesSnoc(cs: seq<Chunk>, c: Chunk)
    ensures Bytes(cs + [c]) == Bytes(cs) + c.data
  {
    assert (cs + [c])[..|cs|] == cs;
  }

  /** The payloads of two runs of chunks concatenate. */
  lemma {:induction false} BytesConcat(a: seq<Chunk>, b: seq<Chunk>)
    ensures Bytes(a + b) == Bytes(a) + Bytes(b)
    decreases |b|
  {
    if b == [] {
      assert a + b == a;
    } else {
      var b' := b[..|b| - 1];
      assert (a + b)[..|a + b| - 1] == a + b';
      BytesConcat(a, b');
    }
  }

  /** The last chunk of a non-empty file is non-empty and at most chunkSize. */
  lemma LastChunkSize(f: FileDoc)
    requires f.chunkSize > 0 && f.length > 0
    ensures 0 < SizeAt(f, NumChunks(f) - 1) <= f.chunkSize
  {
    NumChunksIsCeiling(f);
    var n := NumChunks(f);
    assert (n - 1) * f.chunkSize == n * f.chunkSize - f.chunkSize;
  }

  lemma {:induction false} MulMonotone(x: int, y: int, c: int)
    requires 0 <= x <= y && c > 0
    ensures x * c <= y * c
    decreases y - x
  {
    if x < y {
      MulMonotone(x, y - 1, c);
      assert (y - 1) * c + c == y * c;
    }
  }

  /** The chunks before the last one hold less than the whole file. */
  lemma FullChunksFit(f: FileDoc, m: int)
    requires f.chunkSize > 0 && 0 <= m < NumChunks(f)
    ensures m * f.chunkSize < f.length
  {
    NumChunksIsCeiling(f);
    MulMonotone(m, NumChunks(f) - 1, f.chunkSize);
  }

  /** Every chunk of the layout is non-empty. */
  lemma SizeAtPositive(f: FileDoc, k: int)
    requires f.chunkSize > 0 && 0 <= k < NumChunks(f)
    ensures SizeAt(f, k) > 0
  {
    NumChunksIsCeiling(f);
    if k == NumChunks(f) - 1 {
      LastChunkSize(f);
    }
  }

  /** Bytes accepted after a sound prefix: chunkSize per chunk while chunks
      remain, the file length once all chunks are in. */
  lemma {:induction false} LayoutBytes(f: FileDoc, cs: seq<Chunk>)
    requires f.chunkSize > 0
    requires |cs| <= NumChunks(f) && GoodPrefix(f, cs, |cs|)
    ensures |cs| < NumChunks(f) ==> |Bytes(cs)| == |cs| * f.chunkSize
    ensures |cs| == NumChunks(f) ==> |Bytes(cs)| == if f.length > 0 then f.length else 0
    decreases |cs|
  {
    if cs != [] {
      var m := |cs| - 1;
      var cs' := cs[..m];
      assert GoodPrefix(f, cs', m) by {
        forall i | 0 <= i < m ensures GoodChunk(f, cs'[i], i) {
          assert cs'[i] == cs[i];
        }
      }
      LayoutBytes(f, cs');
      assert GoodChunk(f, cs[m], m);
      assert (m + 1) * f.chunkSize == m * f.chunkSize + f.chunkSize;
    }
  }

  /** After a sound prefix, the size the download demands of the next chunk
      is its size in the layout. */
  lemma ExpectedSizeOnLayout(f: FileDoc, cs: seq<Chunk>)
    requires f.chunkSize > 0
    requires |cs| < NumChunks(f) && GoodPrefix(f, cs, |cs|)
    ensures ExpectedSize(f, |cs|, |Bytes(cs)|) == SizeAt(f, |cs|)
  {
    LayoutBytes(f, cs);
  }

  /** `accepted` is a sound prefix of the file's chunks and `seen` counts its bytes. */
  predicate Progress(f: FileDoc, accepted: seq<Chunk>, seen: int)
    requires f.chunkSize > 0
  {
    |accepted| <= NumChunks(f) && GoodPrefix(f, accepted, |accepted|) && seen == |Bytes(accepted)|
  }

  lemma AcceptKeepsProgress(f: FileDoc, accepted: seq<Chunk>, seen: int, c: Chunk)
    requires f.chunkSize > 0
    requires Progress(f, accepted, seen) && |accepted| < NumChunks(f)
    requires c.n == |accepted| && |c.data| == ExpectedSize(f, |accepted|, seen)
    ensures Progress(f, accepted + [c], seen + |c.data|)
  {
    AcceptExtendsPrefix(f, accepted, c);
  }

  /** Accepting a chunk that passes the download's checks extends a sound
      prefix by one chunk. */
  lemma AcceptExtendsPrefix(f: FileDoc, cs: seq<Chunk>, c: Chunk)
    requires f.chunkSize > 0
    requires |cs| < NumChunks(f) && GoodPrefix(f, cs, |cs|)
    requires c.n == |cs| && |c.data| == ExpectedSize(f, |cs|, |Bytes(cs)|)
    ensures GoodPrefix(f, cs + [c], |cs| + 1)
    ensures |Bytes(cs + [c])| == |Bytes(cs)| + |c.data|
  {
    ExpectedSizeOnLayout(f, cs);
    BytesSnoc(cs, c);
    assert forall i :: 0 <= i < |cs| ==> (cs + [c])[i] == cs[i];
  }

  lemma GoodPrefixStep(f: FileDoc, chunks: seq<Chunk>, k: nat)
    requires f.chunkSize > 0
    requires GoodPrefix(f, chunks, k) && k < |chunks| && GoodChunk(f, chunks[k], k)
    ensures GoodPrefix(f, chunks, k + 1)
    ensures GoodPrefix(f, chunks[..k + 1], k + 1)
    ensures Bytes(chunks[..k + 1]) == Bytes(chunks[..k]) + chunks[k].data
  {
    assert chunks[..k + 1] == chunks[..k] + [chunks[k]];
    BytesSnoc(chunks[..k], chunks[k]);
  }

  lemma GoodPrefixOfPrefix(f: FileDoc, chunks: seq<Chunk>, k: nat)
    requires f.chunkSize > 0
    requires GoodPrefix(f, chunks, k)
    ensures GoodPrefix(f, chunks[..k], k)
  {
    forall i | 0 <= i < k ensures GoodChunk(f, chunks[..k][i], i) {
      assert chunks[..k][i] == chunks[i];
    }
  }

  lemma {:induction false} ScanFromGoodPrefix(f: FileDoc, chunks: seq<Chunk>, k: nat)
    requires f.chunkSize > 0
    requires k <= NumChunks(f) && GoodPrefix(f, chunks, k)
    ensures Scan(f, chunks, k, |Bytes(chunks[..k])|).failure.None? <==> WellFormed(f, chunks)
    ensures Scan(f, chunks, k, |Bytes(chunks[..k])|).failure.None? ==>
              NumChunks(f) <= |chunks| &&
              chunks[..k] + Scan(f, chunks, k, |Bytes(chunks[..k])|).accepted == chunks[..NumChunks(f)]
    decreases NumChunks(f) - k
  {
    var n := NumChunks(f);
    if k < n {
      GoodPrefixOfPrefix(f, chunks, k);
      ExpectedSizeOnLayout(f, chunks[..k]);
      if k < |chunks| && GoodChunk(f, chunks[k], k) {
        GoodPrefixStep(f, chunks, k);
        ScanFromGoodPrefix(f, chunks, k + 1);
        assert chunks[..k] + [chunks[k]] == chunks[..k + 1];
      }
    } else {
      assert chunks[..k] + [] == chunks[..n];
    }
  }

  /** A fresh download accepts every chunk exactly when the chunks collection
      is well formed; it then accepts chunks 0 .. NumChunks - 1, whose payloads
      add up to the file's length. */
  lemma ScanAcceptsIffWellFormed(f: FileDoc, chunks: seq<Chunk>)
    requires f.chunkSize > 0
    ensures Scan(f, chunks, 0, 0).failure.None? <==> WellFormed(f, chunks)
    ensures Scan(f, chunks, 0, 0).failure.None? ==>
              Scan(f, chunks, 0, 0).accepted == chunks[..NumChunks(f)] &&
              |Bytes(Scan(f, chunks, 0, 0).accepted)| == if f.length > 0 then f.length else 0
  {
    assert chunks[..0] == [];
    ScanFromGoodPrefix(f, chunks, 0);
    if Scan(f, chunks, 0, 0).failure.None? {
      GoodPrefixOfPrefix(f, chunks, NumChunks(f));
      LayoutBytes(f, chunks[..NumChunks(f)]);
    }
  }

  lemma {:induction false} ScanFromStopsAt(f: FileDoc, chunks: seq<Chunk>, k: nat, j: nat)
    requires f.chunkSize > 0
    requires k <= j < NumChunks(f) && GoodPrefix(f, chunks, j)
    requires !(j < |chunks| && GoodChunk(f, chunks[j], j))
    ensures Scan(f, chunks, k, |Bytes(chunks[..k])|) ==
              ScanResult(chunks[k..j], Verdict(ChunkAt(chunks, j), j, SizeAt(f, j)))
    decreases j - k
  {
    GoodPrefixOfPrefix(f, chunks, k);
    ExpectedSizeOnLayout(f, chunks[..k]);
    if k < j {
      GoodPrefixStep(f, chunks, k);
      ScanFromStopsAt(f, chunks, k + 1, j);
      assert [chunks[k]] + chunks[k + 1..j] == chunks[k..j];
    }
  }

  /** A download of a file whose chunks are sound up to chunk j but not at
      chunk j accepts exactly chunks 0 .. j-1 and then fails on chunk j:
      missing when the collection ends there, unexpected index when its n is
      wrong, unexpected size (actual, expected) otherwise. */
  lemma ScanStopsAtFirstDefect(f: FileDoc, chunks: seq<Chunk>, j: nat)
    requires f.chunkSize > 0
    requires j < NumChunks(f) && GoodPrefix(f, chunks, j)
    requires !(j < |chunks| && GoodChunk(f, chunks[j], j))
    ensures Scan(f, chunks, 0, 0).accepted == chunks[..j]
    ensures j == |chunks| ==> Scan(f, chunks, 0, 0).failure == Some(MissingChunk(j))
    ensures j < |chunks| && chunks[j].n != j ==>
              Scan(f, chunks, 0, 0).failure == Some(UnexpectedIndex(chunks[j].n, j))
    ensures j < |chunks| && chunks[j].n == j ==>
              |chunks[j].data| != SizeAt(f, j) &&
              Scan(f, chunks, 0, 0).failure == Some(UnexpectedSize(|chunks[j].data|, SizeAt(f, j)))
  {
    assert chunks[..0] == [];
    ScanFromStopsAt(f, chunks, 0, j);
    assert chunks[0..j] == chunks[..j];
  }
}
