/**
  Failure-carrying values for the sorter. Every exception the sorter can
  raise on its own (a malformed record line, an index past the end of a
  batch, a division by zero in the chunk-size formula, the free-space
  guard) becomes a `Fault`, so that error paths are modelled instead of
  being excluded by preconditions.
 */
module Results {

  datatype Option<+T> = None | Some(value: T)

  /** The failures the sort engine can run into. */
  datatype Fault =
    | MissingDot          // ParseEntityFromString: the line has no '.'
    | InvalidNumber       // ParseEntityFromString: the prefix is not a long
    | EmptyText           // ParseEntityFromString: nothing left after Trim
    | TextTooLong         // ParseEntityFromString: more than 1024 chars of text
    | IndexOutOfRange     // SortedChunkReader.Entity on an exhausted batch
    | DivideByZero        // CalculateFileChunkSize on a single-core host
    | NotEnoughFreeSpace  // the free-space guard refused the run

  datatype Result<+T> = Ok(value: T) | Err(fault: Fault)

  /** Flattens a sequence of sequences, left to right. */
  function Concat<T>(ss: seq<seq<T>>): (r: seq<T>)
  {
    if |ss| == 0 then [] else ss[0] + Concat(ss[1..])
  }

  lemma {:induction false} ConcatSnoc<T>(ss: seq<seq<T>>, s: seq<T>)
    ensures Concat(ss + [s]) == Concat(ss) + s
  {
    if |ss| == 0 {
      assert ss + [s] == [s];
    } else {
      assert (ss + [s])[1..] == ss[1..] + [s];
      ConcatSnoc(ss[1..], s);
    }
  }

  lemma {:induction false} ConcatAppend<T>(xs: seq<seq<T>>, ys: seq<seq<T>>)
    ensures Concat(xs + ys) == Concat(xs) + Concat(ys)
  {
    if |xs| == 0 {
      assert xs + ys == ys;
    } else {
      assert (xs + ys)[1..] == xs[1..] + ys;
      ConcatAppend(xs[1..], ys);
    }
  }

  lemma {:induction false} ConcatMultiset<T>(ss: seq<seq<T>>, i: nat)
    requires i < |ss|
    ensures multiset(Concat(ss)) == multiset(Concat(ss[..i])) + multiset(ss[i]) + multiset(Concat(ss[i + 1..]))
  {
    assert ss == ss[..i] + ([ss[i]] + ss[i + 1..]);
    ConcatAppend(ss[..i], [ss[i]] + ss[i + 1..]);
  }

  /**
    Sequential composition of two list-producing steps that stop at the
    first failure: the failure of `a` wins over that of `b`.
   */
  function Then<T>(a: Result<seq<T>>, b: Result<seq<T>>): (r: Result<seq<T>>)
    ensures r.Ok? <==> a.Ok? && b.Ok?
    ensures r.Ok? ==> r.value == a.value + b.value
    ensures a.Err? ==> r == a
  {
    if a.Err? then a
    else if b.Err? then b
    else Ok(a.value + b.value)
  }

  lemma ThenAssociative<T>(a: Result<seq<T>>, b: Result<seq<T>>, c: Result<seq<T>>)
    ensures Then(Then(a, b), c) == Then(a, Then(b, c))
  {
    if a.Ok? && b.Ok? && c.Ok? {
      assert (a.value + b.value) + c.value == a.value + (b.value + c.value);
    }
  }

  /**
    Runs a list-producing step over every element in order, concatenating
    the outputs and stopping at the first failure.
   */
  function Gather<A, T>(f: A -> Result<seq<T>>, xs: seq<A>): Result<seq<T>>
  {
    if |xs| == 0 then Ok([]) else Then(f(xs[0]), Gather(f, xs[1..]))
  }

  /** A gathering succeeds exactly when the step succeeds on every element. */
  lemma {:induction false} GatherOkIffAll<A, T>(f: A -> Result<seq<T>>, xs: seq<A>)
    ensures Gather(f, xs).Ok? <==> forall i | 0 <= i < |xs| :: f(xs[i]).Ok?
  {
    if |xs| > 0 {
      GatherOkIffAll(f, xs[1..]);
      assert forall i | 1 <= i < |xs| :: xs[i] == xs[1..][i - 1];
    }
  }

  lemma {:induction false} GatherAppend<A, T>(f: A -> Result<seq<T>>, xs: seq<A>, ys: seq<A>)
    ensures Gather(f, xs + ys) == Then(Gather(f, xs), Gather(f, ys))
  {
    if |xs| == 0 {
      assert xs + ys == ys;
      if Gather(f, ys).Ok? {
        assert [] + Gather(f, ys).value == Gather(f, ys).value;
      }
    } else {
      assert (xs + ys)[0] == xs[0];
      assert (xs + ys)[1..] == xs[1..] + ys;
      GatherAppend(f, xs[1..], ys);
      ThenAssociative(f(xs[0]), Gather(f, xs[1..]), Gather(f, ys));
    }
  }

  /** A successful gathering is that of a prefix followed by that of the rest. */
  lemma GatherPrefix<A, T>(f: A -> Result<seq<T>>, xs: seq<A>, j: nat)
    requires j <= |xs| && Gather(f, xs).Ok?
    ensures Gather(f, xs[..j]).Ok? && Gather(f, xs[j..]).Ok?
    ensures Gather(f, xs).value == Gather(f, xs[..j]).value + Gather(f, xs[j..]).value
  {
    assert xs == xs[..j] + xs[j..];
    GatherAppend(f, xs[..j], xs[j..]);
  }

  lemma GatherSingle<A, T>(f: A -> Result<seq<T>>, x: A)
    ensures Gather(f, [x]) == f(x)
  {
    assert [x][1..] == [];
    if f(x).Ok? {
      assert f(x).value + [] == f(x).value;
    }
  }

  lemma GatherNone<A, T>(f: A -> Result<seq<T>>)
    ensures Gather(f, []) == Ok([])
  {
  }

  /** The first failing element decides a gathering, whatever follows it. */
  lemma GatherFailsAt<A, T>(f: A -> Result<seq<T>>, xs: seq<A>, j: nat)
    requires j < |xs| && Gather(f, xs[..j]).Ok? && f(xs[j]).Err?
    ensures Gather(f, xs) == Err(f(xs[j]).fault)
  {
    var front, x, back := xs[..j], xs[j], xs[j + 1..];
    SplitAround(xs, j);
    GatherAppend(f, front + [x], back);
    GatherAppend(f, front, [x]);
    GatherSingle(f, x);
    var head := Gather(f, front + [x]);
    assert head == Err(f(x).fault);
  }

  /** Gathering one element more: its output is appended, or its failure decides the whole. */
  lemma GatherStep<A, T>(f: A -> Result<seq<T>>, xs: seq<A>, i: nat, acc: seq<T>)
    requires i < |xs| && Gather(f, xs[..i]) == Ok(acc)
    ensures f(xs[i]).Ok? ==> Gather(f, xs[..i + 1]) == Ok(acc + f(xs[i]).value)
    ensures f(xs[i]).Err? ==> Gather(f, xs) == Err(f(xs[i]).fault)
  {
    if f(xs[i]).Ok? {
      TakeOneMore(xs, i);
      GatherAppend(f, xs[..i], [xs[i]]);
      GatherSingle(f, xs[i]);
    } else {
      GatherFailsAt(f, xs, i);
    }
  }

  lemma GatherPair<A, T>(f: A -> Result<seq<T>>, x: A, y: A)
    ensures Gather(f, [x, y]) == Then(f(x), f(y))
  {
    assert [x, y][1..] == [y];
    GatherSingle(f, y);
  }

  lemma TakeOneMore<T>(xs: seq<T>, i: nat)
    requires i < |xs|
    ensures xs[..i + 1] == xs[..i] + [xs[i]]
  {
  }

  lemma HeadTail<T>(s: seq<T>)
    requires |s| > 0
    ensures [s[0]] + s[1..] == s
  {
  }

  lemma WholePrefix<T>(s: seq<T>)
    ensures s[..|s|] == s
  {
  }

  lemma SplitAround<A>(xs: seq<A>, j: nat)
    requires j < |xs|
    ensures xs == (xs[..j] + [xs[j]]) + xs[j + 1..]
  {
  }
}
