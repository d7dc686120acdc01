/**
  The whole sort (`ProcessDataInFileAsync` in
  DataProcessor/DataProcessingHelper.cs): refuse to start without three
  times the file size in free space, compute the chunk size, cut the file
  at line ends, read and sort every chunk into a chunk file
  (`MakeChunksAsync`, `PickChunkAndWriteToJsonAsync`), and merge the chunk
  files into the output.

  `ProcessData` is the corrected pipeline: it uses the border list that
  ends at the file size and the merge that drops readers of empty chunk
  files. `ProcessDataAsWritten` composes the border scan and the merge as
  written, and `AsWrittenLosesLastLine` shows a two-line file whose second
  record it does not write.
  The chunks are read one after the other; the source reads them
  concurrently and awaits them all, which reports the failure of the
  first failing chunk in chunk order, as here.
 */
module Pipeline {
  import opened Results
  import opened Entities
  import opened Ordering
  import opened LineParsing
  import opened ChunkText
  import opened Borders
  import opened Merge

  /** Chunk `i`'s text is the range between borders `i` and `i + 1`. */
  lemma {:induction false} ChunkTextAt(data: string, bs: seq<int>, i: nat)
    requires forall k | 0 <= k < |bs| - 1 :: 0 <= bs[k]
    requires i + 1 < |bs|
    ensures ChunkTexts(data, bs)[i] == RangeText(data, bs[i], bs[i + 1])
  {
    if i > 0 {
      ChunkTextAt(data, bs[1..], i - 1);
    }
  }

  /**
    `PickChunkAndWriteToJsonAsync` for chunk `i`: read the records between
    borders `i` and `i + 1`, sort them, and write them as a chunk file;
    a bad line fails the chunk with that line's fault.
   */
  method PickChunk(data: string, bs: seq<int>, i: nat) returns (file: Result<seq<Entity>>)
    requires forall k | 0 <= k < |bs| - 1 :: 0 <= bs[k]
    requires i + 1 < |bs|
    ensures file.Ok? <==> ParseText(ChunkTexts(data, bs)[i]).Ok?
    ensures file.Err? ==> file.fault == ParseText(ChunkTexts(data, bs)[i]).fault
    ensures file.Ok? ==> SortedFileOf(file.value, ChunkTexts(data, bs)[i])
  {
    var chunk := ReadEntitiesChunkFromFile(data, bs[i], bs[i + 1]);
    ChunkTextAt(data, bs, i);
    if chunk.Err? {
      return Err(chunk.fault);
    }
    file := Ok(SortEntities(chunk.value));
  }

  /** A chunk file holds, in some order, exactly the records its chunk's text parses to. */
  predicate FileHoldsChunk(file: seq<Entity>, text: string)
  {
    ParseText(text).Ok? && multiset(file) == multiset(ParseText(text).value)
  }

  /**
    The merge as written meets an empty chunk file exactly when some chunk
    parses to no record.
   */
  lemma EmptyFileIffEmptyChunk(files: seq<seq<Entity>>, data: string, bs: seq<int>)
    requires forall k | 0 <= k < |bs| - 1 :: 0 <= bs[k]
    requires |files| == |ChunkTexts(data, bs)|
    requires forall k | 0 <= k < |files| :: FileHoldsChunk(files[k], ChunkTexts(data, bs)[k])
    ensures (exists i | 0 <= i < |files| :: files[i] == []) <==> HasEmptyChunk(data, bs)
  {
    var ts := ChunkTexts(data, bs);
    forall i | 0 <= i < |files|
      ensures files[i] == [] <==> ParseText(ts[i]) == Ok([])
    {
      assert |multiset(files[i])| == |ParseText(ts[i]).value|;
    }
  }

  /** A chunk file as the chunk step writes it: sorted, and holding its chunk's records. */
  predicate SortedFileOf(file: seq<Entity>, text: string)
  {
    Sorted(file) && FileHoldsChunk(file, text)
  }

  /** The first `|files|` chunk files, each the sorted file of its own chunk. */
  predicate FilesHoldChunks(files: seq<seq<Entity>>, ts: seq<string>)
  {
    && |files| <= |ts|
    && forall k | 0 <= k < |files| :: SortedFileOf(files[k], ts[k])
  }

  /** A relation that holds pairwise along two lists still holds after one more matching pair. */
  lemma PairwiseSnoc<A, B>(p: (A, B) -> bool, xs: seq<A>, x: A, ys: seq<B>)
    requires |xs| < |ys| && p(x, ys[|xs|])
    requires forall k | 0 <= k < |xs| :: p(xs[k], ys[k])
    ensures forall k | 0 <= k < |xs| + 1 :: p((xs + [x])[k], ys[k])
  {
    forall k | 0 <= k < |xs| + 1
      ensures p((xs + [x])[k], ys[k])
    {
      if k < |xs| {
        assert (xs + [x])[k] == xs[k];
      }
    }
  }

  /** One more sorted file holding the next chunk keeps the files matched to their chunks and to the records read. */
  lemma SortedFileAdded(files: seq<seq<Entity>>, file: seq<Entity>, ts: seq<string>, flat: seq<Entity>)
    requires FilesHoldChunks(files, ts) && |files| < |ts|
    requires multiset(Concat(files)) == multiset(flat)
    requires SortedFileOf(file, ts[|files|])
    ensures FilesHoldChunks(files + [file], ts)
    ensures multiset(Concat(files + [file])) == multiset(flat + ParseText(ts[|files|]).value)
  {
    PairwiseSnoc(SortedFileOf, files, file, ts);
    PermutationSnoc(files, file, flat, ParseText(ts[|files|]).value);
  }

  /** Appending a permutation of `chunk` to the files keeps them a permutation of the records read. */
  lemma PermutationSnoc<T>(files: seq<seq<T>>, file: seq<T>, flat: seq<T>, chunk: seq<T>)
    requires multiset(Concat(files)) == multiset(flat) && multiset(file) == multiset(chunk)
    ensures multiset(Concat(files + [file])) == multiset(flat + chunk)
  {
    ConcatSnoc(files, file);
  }

  /**
    `MakeChunksAsync`: every chunk's records, sorted. It fails with the
    first failing chunk's fault, and otherwise the chunk files hold, between
    them, exactly the records of all chunks.
   */
  method MakeChunks(data: string, bs: seq<int>) returns (res: Result<seq<seq<Entity>>>)
    requires |bs| >= 1 && forall k | 0 <= k < |bs| - 1 :: 0 <= bs[k]
    ensures res.Ok? <==> ParseChunks(data, bs).Ok?
    ensures res.Err? ==> res.fault == ParseChunks(data, bs).fault
    ensures res.Ok? ==> |res.value| == |bs| - 1
    ensures res.Ok? ==> FilesHoldChunks(res.value, ChunkTexts(data, bs))
    ensures res.Ok? ==> multiset(Concat(res.value)) == multiset(ParseChunks(data, bs).value)
  {
    ghost var ts := ChunkTexts(data, bs);
    ghost var flat: seq<Entity> := [];
    var artifacts: seq<seq<Entity>> := [];
    var i := 0;
    while i < |bs| - 1
      invariant i <= |bs| - 1 == |ts| && |artifacts| == i
      invariant Gather(ParseText, ts[..i]) == Ok(flat)
      invariant FilesHoldChunks(artifacts, ts)
      invariant multiset(Concat(artifacts)) == multiset(flat)
    {
      var file := PickChunk(data, bs, i);
      GatherStep(ParseText, ts, i, flat);
      if file.Err? {
        return Err(file.fault);
      }
      SortedFileAdded(artifacts, file.value, ts, flat);
      artifacts := artifacts + [file.value];
      flat := flat + ParseText(ts[i]).value;
      i := i + 1;
    }
    WholePrefix(ts);
    return Ok(artifacts);
  }

  /**
    `ProcessDataInFileAsync` on a file of text `data`, with `freeSpace`
    free on the disk, `threads` as the I/O thread count and a merge buffer
    of `capacity` records; the result lists the batches appended to the
    output file. It refuses without three times the file size free, fails
    on a single thread, fails exactly when reading the file's records
    fails, and otherwise writes the file's records sorted.
   */
  method ProcessData(data: string, freeSpace: int, threads: nat, capacity: nat) returns (res: Result<seq<seq<Entity>>>)
    requires threads >= 1 && capacity >= 1
    ensures freeSpace < 3 * |data| ==> res == Err(NotEnoughFreeSpace)
    ensures freeSpace >= 3 * |data| && threads == 1 ==> res == Err(DivideByZero)
    ensures freeSpace >= 3 * |data| && threads >= 2 ==>
      && (res.Ok? <==> ParseText(data).Ok?)
      && (res.Err? ==> res.fault == ParseText(data).fault)
    ensures res.Ok? ==> ParseText(data).Ok?
    ensures res.Ok? ==> Sorted(Concat(res.value))
    ensures res.Ok? ==> multiset(Concat(res.value)) == multiset(ParseText(data).value)
    ensures res.Ok? ==> WellFlushed(res.value, capacity)
  {
    if IsEnoughFreeSpace(|data|, freeSpace) {
      return Err(NotEnoughFreeSpace);
    }
    var size := CalculateFileChunkSize(|data|, threads);
    if size.Err? {
      return Err(size.fault);
    }
    var bs := FindChunkBorders(data, size.value);
    ChunksCoverFile(data, size.value);
    var chunks := MakeChunks(data, bs);
    if chunks.Err? {
      return Err(chunks.fault);
    }
    var batches := MergeChunks(chunks.value, capacity);
    return Ok(batches);
  }

  /**
    `ProcessDataInFileAsync` as written: the same guard and chunk size, the
    border scan and the merge as written. It fails when a chunk of that
    scan fails to parse, or when a chunk file is empty; otherwise it writes
    the records of those chunks, sorted, which need not be all the file's.
   */
  method ProcessDataAsWritten(data: string, freeSpace: int, threads: nat, capacity: nat) returns (res: Result<seq<seq<Entity>>>)
    requires threads >= 1 && capacity >= 1
    ensures freeSpace < 3 * |data| ==> res == Err(NotEnoughFreeSpace)
    ensures freeSpace >= 3 * |data| && threads == 1 ==> res == Err(DivideByZero)
    ensures freeSpace >= 3 * |data| && threads >= 2 ==>
      var chunks := ParseChunks(data, FindChunkBordersAsWritten(data, CalculateFileChunkSize(|data|, threads).value));
      && (chunks.Err? ==> res == Err(chunks.fault))
      && (res.Ok? ==> chunks.Ok? && multiset(Concat(res.value)) == multiset(chunks.value))
      && (chunks.Ok? ==> (res.Err? <==> HasEmptyChunk(data, FindChunkBordersAsWritten(data, CalculateFileChunkSize(|data|, threads).value))))
      && (res.Err? && chunks.Ok? ==> res.fault == IndexOutOfRange)
    ensures res.Ok? ==> Sorted(Concat(res.value))
    ensures res.Ok? ==> WellFlushed(res.value, capacity)
  {
    if IsEnoughFreeSpace(|data|, freeSpace) {
      return Err(NotEnoughFreeSpace);
    }
    var size := CalculateFileChunkSize(|data|, threads);
    if size.Err? {
      return Err(size.fault);
    }
    var bs := FindChunkBordersAsWritten(data, size.value);
    var chunks := MakeChunks(data, bs);
    if chunks.Err? {
      return Err(chunks.fault);
    }
    EmptyFileIffEmptyChunk(chunks.value, data, bs);
    res := MergeChunksAsWritten(chunks.value, capacity);
  }

  /**
    The two-line file "1. a\n2. b" on two threads: the chunk size is 2,
    the scan as written cuts at 0 and 4 only, so its one chunk holds the
    first record and the output leaves out the second, although the file
    parses to both.
   */
  lemma AsWrittenLosesLastLine()
    ensures CalculateFileChunkSize(|Sample|, 2) == Ok(2)
    ensures FindChunkBordersAsWritten(Sample, 2) == [0, 4]
    ensures ParseChunks(Sample, [0, 4]) == Ok([FirstRecord])
    ensures ParseText(Sample) == Ok([FirstRecord, SecondRecord])
    ensures multiset([FirstRecord]) != multiset(ParseText(Sample).value)
  {
    SampleChunkSize();
    TailLost();
    TwoLineFile();
    assert SecondRecord !in multiset([FirstRecord]);
  }

  /** Nine characters on two threads give chunks of 9 / 4 = 2 characters. */
  lemma SampleChunkSize()
    ensures CalculateFileChunkSize(|Sample|, 2) == Ok(2)
  {
    assert |Sample| == 9;
    var r := CalculateFileChunkSize(9, 2);
    assert r.value * 4 <= 9;
  }
}
