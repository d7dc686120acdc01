/**
  The k-way merge of the sorted chunk files (`MergeChunksIntoOneFileAsync`
  in DataProcessor/DataProcessingHelper.cs): open a reader per chunk file,
  then repeatedly take the record of the reader whose next record is
  smallest (`MinBy`, first reader on ties), drop readers that become
  completed, and append the taken records to the output file whenever the
  merge buffer is full, and once more at the end.

  The loop as written keeps readers that were already completed after
  their first read (a chunk file with no records); evaluating the key of
  such a reader indexes past its empty batch. `MergeChunksAsWritten` models
  that; `MergeChunks` drops those readers before the loop.
 */
module Merge {
  import opened Results
  import opened Entities
  import opened Ordering
  import opened ChunkReader

  /** Every element of the list satisfies `p`. */
  predicate Each<R>(p: R -> bool, rs: seq<R>)
  {
    forall i | 0 <= i < |rs| :: p(rs[i])
  }

  lemma EachUpdate<R>(p: R -> bool, rs: seq<R>, i: nat, r: R)
    requires Each(p, rs) && i < |rs| && p(r)
    ensures Each(p, rs[i := r])
  {
  }

  lemma EachRemove<R>(p: R -> bool, rs: seq<R>, i: nat)
    requires Each(p, rs) && i < |rs|
    ensures Each(p, rs[..i] + rs[i + 1..])
  {
    var rest := rs[..i] + rs[i + 1..];
    assert forall j | 0 <= j < |rest| :: rest[j] == rs[if j < i then j else j + 1];
  }

  /** The sum of `f` over the list. */
  function Bag<R, T>(f: R -> multiset<T>, rs: seq<R>): multiset<T>
  {
    if |rs| == 0 then multiset{} else f(rs[0]) + Bag(f, rs[1..])
  }

  lemma {:induction false} BagAppend<R, T>(f: R -> multiset<T>, xs: seq<R>, ys: seq<R>)
    ensures Bag(f, xs + ys) == Bag(f, xs) + Bag(f, ys)
  {
    if |xs| > 0 {
      assert (xs + ys)[1..] == xs[1..] + ys;
      BagAppend(f, xs[1..], ys);
    } else {
      assert xs + ys == ys;
    }
  }

  /** The list split around element `i`: the sum is the parts' sums. */
  lemma BagAround<R, T>(f: R -> multiset<T>, rs: seq<R>, i: nat)
    requires i < |rs|
    ensures Bag(f, rs) == Bag(f, rs[..i]) + f(rs[i]) + Bag(f, rs[i + 1..])
  {
    assert rs == rs[..i] + ([rs[i]] + rs[i + 1..]);
    BagAppend(f, rs[..i], [rs[i]] + rs[i + 1..]);
    assert ([rs[i]] + rs[i + 1..])[1..] == rs[i + 1..];
  }

  /** Replacing an element by one worth `m` less takes `m` out of the sum. */
  lemma BagUpdate<R, T>(f: R -> multiset<T>, rs: seq<R>, i: nat, r: R, m: multiset<T>)
    requires i < |rs| && f(rs[i]) == m + f(r)
    ensures Bag(f, rs[i := r]) + m == Bag(f, rs)
  {
    BagAround(f, rs, i);
    BagAround(f, rs[i := r], i);
    assert rs[i := r][..i] == rs[..i] && rs[i := r][i + 1..] == rs[i + 1..];
  }

  lemma BagRemove<R, T>(f: R -> multiset<T>, rs: seq<R>, i: nat)
    requires i < |rs|
    ensures Bag(f, rs[..i] + rs[i + 1..]) + f(rs[i]) == Bag(f, rs)
  {
    BagAround(f, rs, i);
    BagAppend(f, rs[..i], rs[i + 1..]);
  }

  /** An element of the sum comes from some element of the list. */
  lemma {:induction false} InBag<R, T>(f: R -> multiset<T>, rs: seq<R>, x: T) returns (j: nat)
    requires x in Bag(f, rs)
    ensures j < |rs| && x in f(rs[j])
  {
    if x in f(rs[0]) {
      j := 0;
    } else {
      var k := InBag(f, rs[1..], x);
      j := k + 1;
    }
  }

  /** A reader the merge may hold: valid, with its records still to give in order. */
  predicate Good(r: Reader)
  {
    Valid(r) && Sorted(Remaining(r))
  }

  /** A good reader that still has a record. */
  predicate Live(r: Reader)
  {
    Good(r) && !r.isCompleted
  }

  /** The records a reader still has to give, as a bag. */
  function Left(r: Reader): multiset<Entity>
  {
    if Valid(r) then multiset(Remaining(r)) else multiset{}
  }

  /** All records the readers still have to give. */
  function Pool(rs: seq<Reader>): multiset<Entity>
  {
    Bag(Left, rs)
  }

  /** A record at most every reader's next record is at most every record in the pool. */
  lemma PoolBound(rs: seq<Reader>, b: Entity)
    requires Each(Live, rs)
    requires forall j | 0 <= j < |rs| :: Peek(rs[j]).Ok? && Compare(b, Peek(rs[j]).value) <= 0
    ensures forall x | x in Pool(rs) :: Compare(b, x) <= 0
  {
    forall x | x in Pool(rs)
      ensures Compare(b, x) <= 0
    {
      var j := InBag(Left, rs, x);
      assert Live(rs[j]);
      PeekIsNext(rs[j]);
      FirstIsLeast(Remaining(rs[j]), b);
    }
  }

  // ---------------------------------------------------------------------
  // MinBy

  /**
    Reader `i` has the smallest next record, and every reader before it
    has a strictly larger one: the reader `MinBy` picks.
   */
  predicate IsFirstMin(rs: seq<Reader>, i: nat)
  {
    && i < |rs|
    && (forall j | 0 <= j < |rs| :: Peek(rs[j]).Ok?)
    && (forall j | 0 <= j < |rs| :: Compare(Peek(rs[i]).value, Peek(rs[j]).value) <= 0)
    && (forall j | 0 <= j < i :: Compare(Peek(rs[j]).value, Peek(rs[i]).value) > 0)
  }

  /**
    `readerList.MinBy(x => x.Entity)`: evaluates every reader's next
    record in list order (the first failing getter ends the call) and
    keeps a reader only when its record compares strictly below the best
    so far.
   */
  method MinBy(rs: seq<Reader>) returns (res: Result<nat>)
    requires |rs| > 0
    ensures res.Err? <==> exists j | 0 <= j < |rs| :: Peek(rs[j]).Err?
    ensures res.Err? ==> res.fault == IndexOutOfRange
    ensures res.Ok? ==> IsFirstMin(rs, res.value)
  {
    var first := Peek(rs[0]);
    if first.Err? {
      return Err(first.fault);
    }
    var best, key, k := 0, first.value, 1;
    CompareReflexive(key);
    while k < |rs|
      invariant best < k <= |rs|
      invariant forall j | 0 <= j < k :: Peek(rs[j]).Ok?
      invariant key == Peek(rs[best]).value
      invariant forall j | 0 <= j < k :: Compare(key, Peek(rs[j]).value) <= 0
      invariant forall j | 0 <= j < best :: Compare(Peek(rs[j]).value, key) > 0
    {
      var next := Peek(rs[k]);
      if next.Err? {
        return Err(next.fault);
      }
      if Compare(next.value, key) < 0 {
        NewMinimum(rs, k, key, next.value);
        best, key := k, next.value;
      } else {
        CompareAntisymmetric(next.value, key);
      }
      k := k + 1;
    }
    return Ok(best);
  }

  /** A record below the best of the first `k` readers is strictly below each of them. */
  lemma NewMinimum(rs: seq<Reader>, k: nat, key: Entity, e: Entity)
    requires k < |rs| && Peek(rs[k]).Ok? && Peek(rs[k]).value == e
    requires forall j | 0 <= j < k :: Peek(rs[j]).Ok? && Compare(key, Peek(rs[j]).value) <= 0
    requires Compare(e, key) < 0
    ensures forall j | 0 <= j < k + 1 :: Compare(e, Peek(rs[j]).value) <= 0
    ensures forall j | 0 <= j < k :: Compare(Peek(rs[j]).value, e) > 0
  {
    CompareReflexive(e);
    forall j | 0 <= j < k
      ensures Compare(e, Peek(rs[j]).value) < 0
    {
      CompareTransitive(e, key, Peek(rs[j]).value);
    }
    forall j | 0 <= j < k
      ensures Compare(Peek(rs[j]).value, e) > 0
    {
      CompareAntisymmetric(Peek(rs[j]).value, e);
    }
  }

  /** A key can be evaluated for every good reader exactly when none is completed. */
  lemma KeysIffLive(rs: seq<Reader>)
    requires Each(Good, rs)
    ensures (forall j | 0 <= j < |rs| :: Peek(rs[j]).Ok?) <==> Each(Live, rs)
  {
    forall j | 0 <= j < |rs|
      ensures Peek(rs[j]).Ok? <==> Live(rs[j])
    {
      assert Good(rs[j]);
      PeekIsNext(rs[j]);
    }
  }

  // ---------------------------------------------------------------------
  // One merge step

  /** The reader list after taking from reader `i`: drop it if completed, else keep its new state. */
  function Advance(rs: seq<Reader>, i: nat, t: Take): seq<Reader>
    requires i < |rs|
  {
    if t.next.isCompleted then rs[..i] + rs[i + 1..] else rs[i := t.next]
  }

  /**
    What the merge loop keeps between steps: the readers are good, the
    output so far is sorted and at most every pending record, and output
    plus pending records are the records the loop started with.
   */
  predicate MergeState(out: seq<Entity>, rs: seq<Reader>, start: multiset<Entity>)
  {
    && Each(Good, rs)
    && Sorted(out)
    && (|out| > 0 ==> forall x | x in Pool(rs) :: Compare(out[|out| - 1], x) <= 0)
    && multiset(out) + Pool(rs) == start
  }

  /**
    Taking from the reader `MinBy` picked hands out a record at most every
    pending record, so appending it keeps the merge state, and leaves
    readers none of which is completed.
   */
  lemma StepKeepsState(out: seq<Entity>, rs: seq<Reader>, start: multiset<Entity>, i: nat)
    requires MergeState(out, rs, start) && IsFirstMin(rs, i)
    ensures Each(Live, rs)
    ensures TakeEntity(rs[i]).Ok?
    ensures var t := TakeEntity(rs[i]).value;
      && MergeState(out + [t.entity], Advance(rs, i, t), start)
      && Each(Live, Advance(rs, i, t))
      && |Pool(Advance(rs, i, t))| < |Pool(rs)|
  {
    KeysIffLive(rs);
    assert Live(rs[i]);
    TakeFromLive(rs[i]);
    var t := TakeEntity(rs[i]).value;
    PoolBound(rs, t.entity);
    StepPool(rs, i, t);
    Emit(out, t.entity, Pool(rs), Pool(Advance(rs, i, t)), start);
  }

  /**
    Moving a least pending record to the end of a sorted output keeps it
    sorted, at most every record still pending, and the records in total.
   */
  lemma Emit(out: seq<Entity>, e: Entity, before: multiset<Entity>, after: multiset<Entity>, start: multiset<Entity>)
    requires Sorted(out) && multiset(out) + before == start
    requires |out| > 0 ==> forall x | x in before :: Compare(out[|out| - 1], x) <= 0
    requires after + multiset{e} == before
    requires forall x | x in before :: Compare(e, x) <= 0
    ensures Sorted(out + [e]) && multiset(out + [e]) + after == start
    ensures forall x | x in after :: Compare((out + [e])[|out|], x) <= 0
  {
    assert e in before;
    SortedSnoc(out, e);
  }

  /** Taking from a live reader hands out the record it shows and leaves the rest. */
  lemma TakeFromLive(r: Reader)
    requires Live(r)
    ensures Peek(r).Ok? && TakeEntity(r).Ok?
    ensures var t := TakeEntity(r).value;
      && t.entity == Peek(r).value
      && Valid(t.next)
      && Remaining(r) == [t.entity] + Remaining(t.next)
  {
    PeekIsNext(r);
    TakeAdvances(r);
    HeadTail(Remaining(r));
  }

  /** The reader list after a take holds the pool less the record taken. */
  lemma StepPool(rs: seq<Reader>, i: nat, t: Take)
    requires Each(Live, rs) && i < |rs|
    requires Valid(t.next) && Remaining(rs[i]) == [t.entity] + Remaining(t.next)
    ensures Each(Live, Advance(rs, i, t)) && Each(Good, Advance(rs, i, t))
    ensures Pool(Advance(rs, i, t)) + multiset{t.entity} == Pool(rs)
  {
    assert Live(rs[i]);
    SortedTail(Remaining(rs[i]));
    CompletedIffExhausted(t.next);
    assert Left(rs[i]) == multiset{t.entity} + Left(t.next);
    if t.next.isCompleted {
      BagRemove(Left, rs, i);
      EachRemove(Live, rs, i);
    } else {
      BagUpdate(Left, rs, i, t.next, multiset{t.entity});
      EachUpdate(Live, rs, i, t.next);
    }
    LiveIsGood(Advance(rs, i, t));
  }

  lemma LiveIsGood(rs: seq<Reader>)
    requires Each(Live, rs)
    ensures Each(Good, rs)
  {
    assert forall j | 0 <= j < |rs| :: Live(rs[j]) ==> Good(rs[j]);
  }

  lemma SortedTail(s: seq<Entity>)
    requires Sorted(s) && |s| > 0
    ensures Sorted(s[1..])
  {
    assert forall i, j | 0 <= i < j < |s| - 1 :: s[1..][i] == s[i + 1] && s[1..][j] == s[j + 1];
  }

  // ---------------------------------------------------------------------
  // The merge loop

  /** Every batch appended to the output is full except possibly the last, which is not empty. */
  predicate WellFlushed(flushed: seq<seq<Entity>>, capacity: nat)
  {
    && (forall k | 0 <= k < |flushed| :: 1 <= |flushed[k]| <= capacity)
    && (forall k | 0 <= k < |flushed| - 1 :: |flushed[k]| == capacity)
  }

  /**
    What the merge loop keeps between steps, over the batches appended so
    far and the buffer: the merge state of their records; every appended
    batch is full and the buffer is not; and, once a step has been taken,
    no reader is completed, nor was any at the start.
   */
  predicate LoopState(flushed: seq<seq<Entity>>, buffer: seq<Entity>, rs: seq<Reader>, rs0: seq<Reader>, capacity: nat)
  {
    && MergeState(Concat(flushed) + buffer, rs, Pool(rs0))
    && Full(flushed, capacity) && |buffer| < capacity
    && ((rs == rs0 && flushed == [] && buffer == []) || (Each(Live, rs) && Each(Live, rs0)))
  }

  /**
    The loop of `MergeChunksIntoOneFileAsync` over the given readers, with
    a buffer of `capacity` records; the result lists the batches appended
    to the output file, in order. It fails exactly when some reader is
    completed before the first step, and otherwise writes every pending
    record once, in sorted order.
   */
  method MergeLoop(rs0: seq<Reader>, capacity: nat) returns (res: Result<seq<seq<Entity>>>)
    requires capacity >= 1 && Each(Good, rs0)
    ensures res.Err? <==> !Each(Live, rs0)
    ensures res.Err? ==> res.fault == IndexOutOfRange
    ensures res.Ok? ==> Sorted(Concat(res.value))
    ensures res.Ok? ==> multiset(Concat(res.value)) == Pool(rs0)
    ensures res.Ok? ==> WellFlushed(res.value, capacity)
  {
    var rs := rs0;
    var buffer: seq<Entity> := [];
    var flushed: seq<seq<Entity>> := [];
    while |rs| > 0
      invariant LoopState(flushed, buffer, rs, rs0, capacity)
      decreases |Pool(rs)|
    {
      var m := MinBy(rs);
      if m.Err? {
        FailsOnlyAtStart(flushed, buffer, rs, rs0, capacity);
        return Err(m.fault);
      }
      var i := m.value;
      LoopStep(flushed, buffer, rs, rs0, capacity, i);
      var t := TakeEntity(rs[i]).value;
      buffer := buffer + [t.entity];
      rs := Advance(rs, i, t);
      if |buffer| == capacity {
        flushed := flushed + [buffer];
        buffer := [];
      }
    }
    LoopEnd(flushed, buffer, rs, rs0, capacity);
    if |buffer| > 0 {
      flushed := flushed + [buffer];
    }
    return Ok(flushed);
  }

  lemma FailsOnlyAtStart(flushed: seq<seq<Entity>>, buffer: seq<Entity>, rs: seq<Reader>, rs0: seq<Reader>, capacity: nat)
    requires LoopState(flushed, buffer, rs, rs0, capacity)
    requires exists j | 0 <= j < |rs| :: Peek(rs[j]).Err?
    ensures !Each(Live, rs0)
  {
    KeysIffLive(rs);
  }

  /** One step of the loop keeps the loop state and shrinks the pool. */
  lemma LoopStep(flushed: seq<seq<Entity>>, buffer: seq<Entity>, rs: seq<Reader>, rs0: seq<Reader>, capacity: nat, i: nat)
    requires LoopState(flushed, buffer, rs, rs0, capacity) && IsFirstMin(rs, i)
    ensures TakeEntity(rs[i]).Ok?
    ensures var t := TakeEntity(rs[i]).value;
      var b := buffer + [t.entity];
      var next := Advance(rs, i, t);
      && |Pool(next)| < |Pool(rs)|
      && (|b| == capacity ==> LoopState(flushed + [b], [], next, rs0, capacity))
      && (|b| != capacity ==> LoopState(flushed, b, next, rs0, capacity))
  {
    var out := Concat(flushed) + buffer;
    StepKeepsState(out, rs, Pool(rs0), i);
    var t := TakeEntity(rs[i]).value;
    var b := buffer + [t.entity];
    SnocAssociates(Concat(flushed), buffer, t.entity);
    if |b| == capacity {
      FlushKeepsState(flushed, b, Advance(rs, i, t), rs0, capacity);
    }
  }

  /** Appending a full buffer to the output file keeps the loop state. */
  lemma FlushKeepsState(flushed: seq<seq<Entity>>, b: seq<Entity>, rs: seq<Reader>, rs0: seq<Reader>, capacity: nat)
    requires MergeState(Concat(flushed) + b, rs, Pool(rs0)) && Each(Live, rs) && Each(Live, rs0)
    requires Full(flushed, capacity) && |b| == capacity >= 1
    ensures LoopState(flushed + [b], [], rs, rs0, capacity)
  {
    ConcatSnoc(flushed, b);
    assert Concat(flushed + [b]) + [] == Concat(flushed) + b;
  }

  /** When no reader is left, the appended batches and the last buffer hold everything, in order. */
  lemma LoopEnd(flushed: seq<seq<Entity>>, buffer: seq<Entity>, rs: seq<Reader>, rs0: seq<Reader>, capacity: nat)
    requires LoopState(flushed, buffer, rs, rs0, capacity) && |rs| == 0
    ensures Each(Live, rs0)
    ensures var all := if |buffer| > 0 then flushed + [buffer] else flushed;
      && Sorted(Concat(all))
      && multiset(Concat(all)) == Pool(rs0)
      && WellFlushed(all, capacity)
  {
    assert Pool(rs) == multiset{};
    ConcatSnoc(flushed, buffer);
    if |buffer| == 0 {
      assert Concat(flushed) + buffer == Concat(flushed);
    }
    LastBatch(flushed, buffer, capacity);
  }

  /** Full batches, then a non-empty buffer that is not full, are well flushed. */
  lemma LastBatch(flushed: seq<seq<Entity>>, buffer: seq<Entity>, capacity: nat)
    requires Full(flushed, capacity) && |buffer| < capacity && capacity >= 1
    ensures WellFlushed(if |buffer| > 0 then flushed + [buffer] else flushed, capacity)
  {
  }

  lemma SnocAssociates<T>(a: seq<T>, b: seq<T>, e: T)
    ensures (a + b) + [e] == a + (b + [e])
  {
  }

  /** Every batch holds exactly `capacity` records. */
  predicate Full(flushed: seq<seq<Entity>>, capacity: nat)
  {
    forall k | 0 <= k < |flushed| :: |flushed[k]| == capacity
  }

  // ---------------------------------------------------------------------
  // Opening the chunk files

  /** One reader per chunk file, each after its first read. */
  function OpenAll(artifacts: seq<seq<Entity>>): (rs: seq<Reader>)
    ensures |rs| == |artifacts|
    ensures forall i | 0 <= i < |rs| :: rs[i] == Open(artifacts[i])
  {
    if |artifacts| == 0 then [] else [Open(artifacts[0])] + OpenAll(artifacts[1..])
  }

  /** Opened readers hold, between them, every record of every chunk file. */
  lemma {:induction false} OpenAllPool(artifacts: seq<seq<Entity>>)
    ensures Pool(OpenAll(artifacts)) == multiset(Concat(artifacts))
  {
    if |artifacts| > 0 {
      OpenIsValid(artifacts[0]);
      OpenAllPool(artifacts[1..]);
      assert OpenAll(artifacts)[1..] == OpenAll(artifacts[1..]);
    }
  }

  /** A reader opened on a chunk file is completed exactly when the file holds no records. */
  lemma OpenCompletedIffEmpty(artifact: seq<Entity>)
    ensures Open(artifact).isCompleted <==> artifact == []
  {
  }

  /** Readers opened on sorted chunk files are good, and live exactly when no file is empty. */
  lemma OpenAllGood(artifacts: seq<seq<Entity>>)
    requires forall i | 0 <= i < |artifacts| :: Sorted(artifacts[i])
    ensures Each(Good, OpenAll(artifacts))
    ensures Each(Live, OpenAll(artifacts)) <==> forall i | 0 <= i < |artifacts| :: artifacts[i] != []
  {
    var rs := OpenAll(artifacts);
    forall i | 0 <= i < |artifacts|
      ensures Good(rs[i]) && (Live(rs[i]) <==> artifacts[i] != [])
    {
      OpenIsValid(artifacts[i]);
      OpenCompletedIffEmpty(artifacts[i]);
    }
  }

  /**
    The merge as written: fails when any chunk file holds no records;
    otherwise the appended batches hold every record of every chunk file
    exactly once, in sorted order.
   */
  method MergeChunksAsWritten(artifacts: seq<seq<Entity>>, capacity: nat) returns (res: Result<seq<seq<Entity>>>)
    requires capacity >= 1
    requires forall i | 0 <= i < |artifacts| :: Sorted(artifacts[i])
    ensures res.Err? <==> exists i | 0 <= i < |artifacts| :: artifacts[i] == []
    ensures res.Err? ==> res.fault == IndexOutOfRange
    ensures res.Ok? ==> Sorted(Concat(res.value))
    ensures res.Ok? ==> multiset(Concat(res.value)) == multiset(Concat(artifacts))
    ensures res.Ok? ==> WellFlushed(res.value, capacity)
  {
    OpenAllGood(artifacts);
    OpenAllPool(artifacts);
    res := MergeLoop(OpenAll(artifacts), capacity);
  }

  /** Readers of the list that are not completed, in list order. */
  function DropCompleted(rs: seq<Reader>): (kept: seq<Reader>)
    ensures forall j | 0 <= j < |kept| :: !kept[j].isCompleted
  {
    if |rs| == 0 then []
    else if rs[0].isCompleted then DropCompleted(rs[1..])
    else [rs[0]] + DropCompleted(rs[1..])
  }

  /** Completed readers have nothing to give, so dropping them keeps the pool and leaves live readers. */
  lemma {:induction false} DropCompletedPool(rs: seq<Reader>)
    requires Each(Good, rs)
    ensures Each(Live, DropCompleted(rs))
    ensures Pool(DropCompleted(rs)) == Pool(rs)
  {
    if |rs| > 0 {
      assert Good(rs[0]);
      DropCompletedPool(rs[1..]);
      var rest := DropCompleted(rs[1..]);
      CompletedIffExhausted(rs[0]);
      if !rs[0].isCompleted {
        assert ([rs[0]] + rest)[1..] == rest;
      }
    }
  }

  /**
    The corrected merge: readers completed by their first read are
    dropped before the loop, so it never fails, and the appended batches
    hold every record of every chunk file exactly once, in sorted order.
   */
  method MergeChunks(artifacts: seq<seq<Entity>>, capacity: nat) returns (batches: seq<seq<Entity>>)
    requires capacity >= 1
    requires forall i | 0 <= i < |artifacts| :: Sorted(artifacts[i])
    ensures Sorted(Concat(batches))
    ensures multiset(Concat(batches)) == multiset(Concat(artifacts))
    ensures WellFlushed(batches, capacity)
  {
    var readers := OpenAll(artifacts);
    OpenAllGood(artifacts);
    OpenAllPool(artifacts);
    var rs := DropCompleted(readers);
    DropCompletedPool(readers);
    LiveIsGood(rs);
    var res := MergeLoop(rs, capacity);
    batches := res.value;
  }
}
