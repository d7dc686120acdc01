/**
  The cursor over one sorted chunk file (`SortedChunkReader` in
  DataProcessor/SortedChunkReader.cs) and the batch read it is built on
  (`ReadLimitedCountEntitiesFromJsonFileAsync` in
  DataProcessor/DataProcessingHelper.cs).

  A chunk file is modelled by the records it holds, `artifact`, and file
  positions by record counts: the JSON text, its byte offsets and the
  trick of re-opening the array with a '[' are left out, so a seek
  position is the number of records before it.
 */
module ChunkReader {
  import opened Results
  import opened Entities

  /** Records the reader holds in memory at once. */
  const BatchLimit: nat := 5000

  /** What one batch read returns: the records, the next seek position, and whether the file ended. */
  datatype Batch = Batch(entities: seq<Entity>, seekPos: nat, finished: bool)

  /**
    `ReadLimitedCountEntitiesFromJsonFileAsync`: the next records from
    `pos`, up to `limit` of them. The batch is marked finished exactly when
    the read reached the end of the file before collecting `limit` records;
    a full batch is not marked finished even if the file ends right after
    it. A limit of 0 makes the byte buffer empty: from the start of the
    file nothing is read and the batch comes back empty and finished, and
    from any later position storing the synthetic '[' in the empty buffer
    fails with an index error, whether or not records are left.
   */
  function ReadLimited(artifact: seq<Entity>, pos: nat, limit: nat): (r: Result<Batch>)
    ensures r.Err? <==> limit == 0 && pos > 0
    ensures r.Err? ==> r.fault == IndexOutOfRange
    ensures limit == 0 && pos == 0 ==> r == Ok(Batch([], 0, true))
    ensures r.Ok? && pos <= |artifact| ==>
      var n := |r.value.entities|;
      && pos + n <= |artifact|
      && r.value.entities == artifact[pos..pos + n]
      && r.value.seekPos == pos + n
    ensures r.Ok? ==> |r.value.entities| <= limit
    ensures r.Ok? ==> (r.value.finished <==> |r.value.entities| < limit || |artifact| <= pos || limit == 0)
    ensures r.Ok? ==> |r.value.entities| == limit || |artifact| <= pos + |r.value.entities|
  {
    if limit == 0 then
      if pos > 0 then Err(IndexOutOfRange) else Ok(Batch([], pos, true))
    else if |artifact| <= pos then Ok(Batch([], pos, true))
    else
      var n := if |artifact| - pos < limit then |artifact| - pos else limit;
      Ok(Batch(artifact[pos..pos + n], pos + n, n < limit))
  }

  /**
    The reader's state: the chunk file's records, the batch in memory,
    the index of the next record in it, where the next batch starts,
    whether the last read reached the end, and whether every record has
    been taken.
   */
  datatype Reader = Reader(
    artifact: seq<Entity>,
    entities: seq<Entity>,
    index: nat,
    seekPos: nat,
    fileFinished: bool,
    isCompleted: bool)

  /** A reader as its constructor leaves it: nothing read yet. */
  function Fresh(artifact: seq<Entity>): Reader
  {
    Reader(artifact, [], 0, 0, false, false)
  }

  /**
    `ReadChunkAsync`: replaces the batch by the next one and marks the
    reader completed when that read ended the file with no records. The
    index is not reset here; `TakeEntity` resets it after the call.
   */
  function ReadChunk(r: Reader): (s: Reader)
    ensures s.artifact == r.artifact && s.index == r.index
    ensures r.seekPos <= |r.artifact| ==>
      && s.seekPos == r.seekPos + |s.entities| <= |r.artifact|
      && s.entities == r.artifact[r.seekPos..s.seekPos]
    ensures |s.entities| <= BatchLimit
    ensures r.seekPos <= |r.artifact| ==> |s.entities| == BatchLimit || s.seekPos == |r.artifact|
    ensures s.fileFinished <==> |s.entities| < BatchLimit || |r.artifact| <= r.seekPos
    ensures s.isCompleted <==> s.fileFinished && |s.entities| == 0
  {
    match ReadLimited(r.artifact, r.seekPos, BatchLimit)
    case Ok(b) =>
      r.(entities := b.entities, seekPos := b.seekPos, fileFinished := b.finished,
         isCompleted := b.finished && |b.entities| == 0)
    case Err(_) => assert false; r
  }

  /** A chunk file's reader after the merge's first read. */
  function Open(artifact: seq<Entity>): Reader
  {
    ReadChunk(Fresh(artifact))
  }

  /**
    The invariant every reader keeps between calls: the batch is the
    records just before the seek position, at most 5000 of them; a reader
    whose file has not ended still has a record to give; and the reader is
    completed exactly when its file has ended and its batch is used up.
   */
  predicate Valid(r: Reader)
  {
    && r.index <= |r.entities| <= BatchLimit
    && |r.entities| <= r.seekPos <= |r.artifact|
    && r.entities == r.artifact[r.seekPos - |r.entities|..r.seekPos]
    && (r.fileFinished ==> r.seekPos == |r.artifact|)
    && (!r.fileFinished ==> r.index < |r.entities|)
    && (r.isCompleted <==> r.fileFinished && r.index == |r.entities|)
  }

  /** How many records of the chunk file have been taken. */
  function Taken(r: Reader): nat
    requires Valid(r)
  {
    r.seekPos - |r.entities| + r.index
  }

  /** The records still to come: the rest of the batch, then the rest of the file. */
  function Remaining(r: Reader): (rest: seq<Entity>)
    requires Valid(r)
    ensures rest == r.entities[r.index..] + r.artifact[r.seekPos..]
  {
    var rest := r.artifact[Taken(r)..];
    assert r.entities[r.index..] == r.artifact[Taken(r)..r.seekPos];
    rest
  }

  /** The first read leaves a valid reader that still has every record of the file to give. */
  lemma OpenIsValid(artifact: seq<Entity>)
    ensures Valid(Open(artifact))
    ensures Remaining(Open(artifact)) == artifact
  {
    var r := Open(artifact);
    assert r.entities == artifact[0..r.seekPos];
  }

  /** The `Entity` getter: the record at the index, or the array's index failure past the batch. */
  function Peek(r: Reader): (e: Result<Entity>)
    ensures e.Ok? <==> r.index < |r.entities|
    ensures e.Ok? ==> e.value == r.entities[r.index]
    ensures e.Err? ==> e.fault == IndexOutOfRange
  {
    if r.index < |r.entities| then Ok(r.entities[r.index]) else Err(IndexOutOfRange)
  }

  /** A valid reader shows its next record exactly when it is not completed. */
  lemma PeekIsNext(r: Reader)
    requires Valid(r)
    ensures Peek(r).Ok? <==> !r.isCompleted
    ensures Peek(r).Ok? ==> Remaining(r) != [] && Peek(r).value == Remaining(r)[0]
  {
  }

  /** A valid reader is completed exactly when no record remains. */
  lemma CompletedIffExhausted(r: Reader)
    requires Valid(r)
    ensures r.isCompleted <==> Remaining(r) == []
  {
  }

  /** The record `TakeEntity` hands out and the reader it leaves. */
  datatype Take = Take(entity: Entity, next: Reader)

  /**
    `TakeEntity`: hands out the record at the index and moves on; at the
    end of a batch it reads the next batch if the file has not ended, and
    otherwise marks the reader completed.
   */
  function TakeEntity(r: Reader): (t: Result<Take>)
    ensures t.Err? <==> |r.entities| <= r.index
    ensures t.Err? ==> t.fault == IndexOutOfRange
    ensures t.Ok? ==> t.value.entity == r.entities[r.index] && t.value.next.artifact == r.artifact
  {
    if |r.entities| <= r.index then Err(IndexOutOfRange)
    else
      var e := r.entities[r.index];
      var s := r.(index := r.index + 1);
      if !s.fileFinished && s.index == |s.entities| then Ok(Take(e, ReadChunk(s).(index := 0)))
      else if s.fileFinished && s.index == |s.entities| then Ok(Take(e, s.(isCompleted := true)))
      else Ok(Take(e, s))
  }

  /**
    Taking from a valid reader that is not completed hands out its next
    record and leaves a valid reader with the rest.
   */
  lemma TakeAdvances(r: Reader)
    requires Valid(r) && !r.isCompleted
    ensures TakeEntity(r).Ok?
    ensures var t := TakeEntity(r).value;
      && t.entity == Remaining(r)[0]
      && Valid(t.next)
      && Remaining(t.next) == Remaining(r)[1..]
  {
    var s := r.(index := r.index + 1);
    if !s.fileFinished && s.index == |s.entities| {
      TakeRefills(r);
    } else if s.fileFinished && s.index == |s.entities| {
      TakeLast(r);
    } else {
      TakeWithinBatch(r);
    }
  }

  lemma TakeRefills(r: Reader)
    requires Valid(r) && !r.fileFinished && r.index + 1 == |r.entities|
    ensures var n := ReadChunk(r.(index := r.index + 1)).(index := 0);
      Valid(n) && Remaining(n) == Remaining(r)[1..]
  {
    var n := ReadChunk(r.(index := r.index + 1)).(index := 0);
    assert Taken(n) == Taken(r) + 1;
  }

  lemma TakeLast(r: Reader)
    requires Valid(r) && r.fileFinished && r.index + 1 == |r.entities|
    ensures var n := r.(index := r.index + 1, isCompleted := true);
      Valid(n) && Remaining(n) == Remaining(r)[1..]
  {
  }

  lemma TakeWithinBatch(r: Reader)
    requires Valid(r) && r.index + 1 < |r.entities|
    ensures var n := r.(index := r.index + 1);
      Valid(n) && Remaining(n) == Remaining(r)[1..]
  {
  }

  /**
    Taking records until the reader is completed yields exactly the
    records that remained, in file order.
   */
  method Drain(r: Reader) returns (out: seq<Entity>)
    requires Valid(r)
    ensures out == Remaining(r)
  {
    var cur := r;
    out := [];
    while !cur.isCompleted
      invariant Valid(cur)
      invariant out + Remaining(cur) == Remaining(r)
      decreases |Remaining(cur)|
    {
      TakeAdvances(cur);
      var t := TakeEntity(cur).value;
      MoveFirst(out, Remaining(cur), Remaining(t.next), Remaining(r));
      out := out + [t.entity];
      cur := t.next;
    }
    CompletedIffExhausted(cur);
  }

  lemma MoveFirst<T>(out: seq<T>, rest: seq<T>, tail: seq<T>, whole: seq<T>)
    requires out + rest == whole && rest != [] && tail == rest[1..]
    ensures (out + [rest[0]]) + tail == whole && |tail| < |rest|
  {
    assert rest == [rest[0]] + tail;
  }
}
