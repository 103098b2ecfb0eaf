/** Two small files worked through downloadNumBytes step by step: a file of
    10 bytes stored in chunks of 4, and an empty file. */
module Scenarios {
  import opened ChunkLayout
  import opened Session

  /** Ten bytes 0 .. 9 in chunks of sizes 4, 4 and 2. */
  function Ten(): FileDoc
  {
    FileDoc("ten", 10, 4)
  }

  function TenChunks(): seq<Chunk>
  {
    [Chunk(0, [0, 1, 2, 3]), Chunk(1, [4, 5, 6, 7]), Chunk(2, [8, 9])]
  }

  lemma TenHasThreeChunks()
    ensures NumChunks(Ten()) == 3 && WellFormed(Ten(), TenChunks())
  {
    assert CeilDiv(2, 4) == 1 by {
      assert CeilDiv(-2, 4) == 0;
    }
    assert CeilDiv(6, 4) == 2;
    assert GoodChunk(Ten(), TenChunks()[2], 2);
  }

  /** The states between the reads: after the first read, chunks 0 and 1
      are in and bytes 5 .. 7 are buffered; after the second, all chunks are
      in and the buffer is empty but exhaustion is not yet reported; after
      the third, it is. */
  function AfterFirst(): State
  {
    State(Cursor(1, false, 2, 8, false, TenChunks()[..2], true), Buffer([5, 6, 7], 3, true, false, 1))
  }

  function AfterSecond(): State
  {
    State(Cursor(2, false, 3, 10, false, TenChunks(), true), Buffer([], 0, true, true, 1))
  }

  function AfterThird(): State
  {
    State(Cursor(2, false, 3, 10, true, TenChunks(), true), Buffer([], 0, true, true, 1))
  }

  lemma FirstReadOfFive()
    ensures Read(Ten(), TenChunks(), Start(), 5) == Step(AfterFirst(), Ok([0, 1, 2, 3, 4]))
  {
    var f, cs := Ten(), TenChunks();
    TenHasThreeChunks();
    var t := Start().(buf := Reopened(Start().buf));
    ReadBeyondBuffer(f, cs, Start(), 5);
    var c1 := Cursor(0, false, 1, 4, false, cs[..1], true);
    assert Advance(f, cs, t.cur) == Move(c1, Ok(true));
    FillGoesOn(f, cs, t, 5, [], c1);
    assert [] + Prefix(cs[0].data, 5) == [0, 1, 2, 3];
    var c2 := Cursor(1, false, 2, 8, false, cs[..2], true);
    assert cs[..1] + [cs[1]] == cs[..2];
    assert Advance(f, cs, c1) == Move(c2, Ok(true));
    FillGoesOn(f, cs, State(c1, t.buf), 5, [0, 1, 2, 3], c2);
    assert [0, 1, 2, 3] + Prefix(cs[1].data, 1) == [0, 1, 2, 3, 4];
  }

  lemma SecondReadOfFive()
    ensures Read(Ten(), TenChunks(), AfterFirst(), 5) == Step(AfterSecond(), Ok([5, 6, 7, 8, 9]))
  {
    var f, cs := Ten(), TenChunks();
    TenHasThreeChunks();
    var s := AfterFirst();
    ReadBeyondBuffer(f, cs, s, 5);
    var t := s.(buf := Reopened(s.buf));
    var c3 := Cursor(2, false, 3, 10, false, cs, true);
    assert cs[..2] + [cs[2]] == cs;
    assert Advance(f, cs, t.cur) == Move(c3, Ok(true));
    FillGoesOn(f, cs, t, 5, [5, 6, 7], c3);
    assert [5, 6, 7] + Prefix(cs[2].data, 2) == [5, 6, 7, 8, 9];
  }

  lemma ThirdReadOfFive()
    ensures Read(Ten(), TenChunks(), AfterSecond(), 5) == Step(AfterThird(), Ok([]))
  {
    var f, cs := Ten(), TenChunks();
    TenHasThreeChunks();
    var s := AfterSecond();
    ReadBeyondBuffer(f, cs, s, 5);
    var t := s.(buf := Reopened(s.buf));
    FillStops(f, cs, t, 5, [], Advance(f, cs, t.cur));
  }

  /** Reading 5 and then 5 bytes hands out bytes 0 .. 4 and 5 .. 9, the
      first read leaving bytes 5 .. 7 of chunk 1 in the buffer; end of file
      is not reached by the second read, which delivers the last byte, but
      only by a third one, which returns nothing. */
  lemma TenInReadsOfFive()
    ensures var r1 := Read(Ten(), TenChunks(), Start(), 5);
            r1.out == Ok([0, 1, 2, 3, 4]) && Pending(r1.next.buf) == [5, 6, 7] &&
            var r2 := Read(Ten(), TenChunks(), r1.next, 5);
            r2.out == Ok([5, 6, 7, 8, 9]) && !AtEOF(r2.next) &&
            var r3 := Read(Ten(), TenChunks(), r2.next, 5);
            r3.out == Ok([]) && AtEOF(r3.next)
  {
    FirstReadOfFive();
    SecondReadOfFive();
    ThirdReadOfFive();
  }

  /** A read asking for more bytes than the file holds goes round the read
      loop once more after the last chunk, so that call reports exhaustion:
      reading 20 bytes of the ten-byte file returns all of them and reaches
      end of file at once. */
  lemma TenInOneReadOfTwenty()
    ensures Read(Ten(), TenChunks(), Start(), 20) == Step(AfterThird().(buf := Buffer([], 0, true, true, 0)), Ok([0, 1, 2, 3, 4, 5, 6, 7, 8, 9]))
    ensures AtEOF(Read(Ten(), TenChunks(), Start(), 20).next)
  {
    var f, cs := Ten(), TenChunks();
    TenHasThreeChunks();
    var t := Start().(buf := Reopened(Start().buf));
    ReadBeyondBuffer(f, cs, Start(), 20);
    var c1 := Cursor(0, false, 1, 4, false, cs[..1], true);
    assert Advance(f, cs, t.cur) == Move(c1, Ok(true));
    FillGoesOn(f, cs, t, 20, [], c1);
    assert [] + Prefix(cs[0].data, 20) == [0, 1, 2, 3];
    var c2 := Cursor(1, false, 2, 8, false, cs[..2], true);
    assert cs[..1] + [cs[1]] == cs[..2];
    assert Advance(f, cs, c1) == Move(c2, Ok(true));
    FillGoesOn(f, cs, State(c1, t.buf), 20, [0, 1, 2, 3], c2);
    assert [0, 1, 2, 3] + Prefix(cs[1].data, 16) == [0, 1, 2, 3, 4, 5, 6, 7];
    var c3 := Cursor(2, false, 3, 10, false, cs, true);
    assert cs[..2] + [cs[2]] == cs;
    assert Advance(f, cs, c2) == Move(c3, Ok(true));
    FillGoesOn(f, cs, State(c2, t.buf), 20, [0, 1, 2, 3, 4, 5, 6, 7], c3);
    assert [0, 1, 2, 3, 4, 5, 6, 7] + Prefix(cs[2].data, 12) == [0, 1, 2, 3, 4, 5, 6, 7, 8, 9];
    var last := [0, 1, 2, 3, 4, 5, 6, 7, 8, 9];
    FillStops(f, cs, State(c3, t.buf), 20, last, Advance(f, cs, c3));
  }

  lemma EmptyHasNoChunks()
    ensures NumChunks(FileDoc("empty", 0, 4)) == 0
  {
  }

  /** An empty file is not at end of file when opened; the first read
      returns nothing and reaches end of file. */
  lemma EmptyFile(chunks: seq<Chunk>)
    ensures !AtEOF(Start())
    ensures Read(FileDoc("empty", 0, 4), chunks, Start(), 1).out == Ok([])
    ensures AtEOF(Read(FileDoc("empty", 0, 4), chunks, Start(), 1).next)
  {
    var f := FileDoc("empty", 0, 4);
    EmptyHasNoChunks();
    StartIsValid(f, chunks);
    ReadPastEnd(f, chunks, Start(), 1);
  }
}
