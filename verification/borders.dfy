/**
  Cutting the input into chunks (DataProcessor/DataProcessingHelper.cs):
  the chunk size (`CalculateFileChunkSize`), the free-space guard
  (`IsEnoughFreeSpace`), the newline finder (`FindNearestNewLinePositionAsync`)
  and the border scan (`FindPrecisedChunkBordersAsync`).

  Positions are char positions in the file text; the sorter reads ASCII
  files, where they coincide with the byte offsets the source seeks to.

  The border list starts with 0, every further border is the position of
  a '\n', and chunk i is the range [borders[i], borders[i + 1]). The scan
  as written can end the list with -1 (the last line has no '\n' after it)
  or stop early (no '\n' within 1024 chars of a target), and then the end
  of the file belongs to no chunk. `FindChunkBordersAsWritten` models the
  scan as written; `FindChunkBorders` ends the list at the file size
  instead, and `ChunksCoverFile` shows its chunks hold all records.
 */
module Borders {
  import opened Results
  import opened Strings
  import opened Decimal
  import opened Entities
  import opened LineParsing
  import opened ChunkText

  const GB: nat := 1024 * 1024 * 1024

  /** Chars the newline finder looks at from its start position. */
  const NewLineWindow: nat := 1024

  // ---------------------------------------------------------------------
  // Sizes

  /**
    `CalculateFileChunkSize`: the largest size that is at most the file
    size over twice the thread count and at most 2 GB over half the thread
    count. With a single thread, half the count is 0 and the second bound
    divides by zero.
   */
  function CalculateFileChunkSize(fileSize: nat, threads: nat): (r: Result<nat>)
    requires threads >= 1
    ensures r.Err? <==> threads == 1
    ensures r.Err? ==> r.fault == DivideByZero
    ensures r.Ok? ==> r.value * (threads * 2) <= fileSize && r.value * (threads / 2) <= 2 * GB
    ensures r.Ok? ==> (r.value + 1) * (threads * 2) > fileSize || (r.value + 1) * (threads / 2) > 2 * GB
  {
    if threads / 2 == 0 then Err(DivideByZero)
    else
      var maxChunkSize := 2 * GB / (threads / 2);
      var optimalChunkSize := fileSize / (threads * 2);
      DivisionBounds(fileSize, threads * 2);
      DivisionBounds(2 * GB, threads / 2);
      var size := if optimalChunkSize <= maxChunkSize then optimalChunkSize else maxChunkSize;
      MulMonotonic(size, optimalChunkSize, threads * 2);
      MulMonotonic(size, maxChunkSize, threads / 2);
      Ok(size)
  }

  lemma DivisionBounds(a: nat, d: nat)
    requires d > 0
    ensures (a / d) * d <= a < (a / d + 1) * d
  {
    assert a == (a / d) * d + a % d;
  }

  lemma MulMonotonic(x: nat, y: nat, d: nat)
    requires x <= y
    ensures x * d <= y * d
  {
  }

  /**
    `IsEnoughFreeSpace`, named for the opposite of what it answers: true
    when the free space is below three times the file size, and then the
    sort does not start.
   */
  function IsEnoughFreeSpace(fileSize: nat, freeSpace: int): (refuse: bool)
  {
    freeSpace < fileSize * 3
  }

  // ---------------------------------------------------------------------
  // The newline finder

  /** First '\n' in [i, stop), or -1. */
  function FirstNewLine(data: string, i: nat, stop: nat): (r: int)
    requires stop <= |data|
    ensures r == -1 <==> forall k | i <= k < stop :: data[k] != '\n'
    ensures r != -1 ==> i <= r < stop && data[r] == '\n' && forall k | i <= k < r :: data[k] != '\n'
    decreases stop - i
  {
    if i >= stop then -1
    else if data[i] == '\n' then i
    else FirstNewLine(data, i + 1, stop)
  }

  /**
    `FindNearestNewLinePositionAsync`: reads at most 1024 chars from `pos`
    and returns the position of the first '\n' among them, or -1 when there
    is none (including when `pos` is at or past the end of the file).
   */
  function FindNearestNewLine(data: string, pos: nat): (r: int)
    ensures r == -1 <==> forall k | pos <= k < |data| && k < pos + NewLineWindow :: data[k] != '\n'
    ensures r != -1 ==>
      && pos <= r < |data| && r < pos + NewLineWindow
      && data[r] == '\n'
      && forall k | pos <= k < r :: data[k] != '\n'
  {
    FirstNewLine(data, pos, if pos + NewLineWindow < |data| then pos + NewLineWindow else |data|)
  }

  // ---------------------------------------------------------------------
  // The border scan

  /** Why the scan loop ended. */
  datatype ScanExit =
    | Exhausted   // the position after the last border reached the end of the file
    | PastEnd     // the next target lies at or past the end of the file
    | NoNewLine   // the finder found no '\n' after the next target

  datatype Scan = Scan(borders: seq<int>, exit: ScanExit)

  /**
    Borders found from `pos` on: each is a '\n' at least `chunk` chars after
    the position where its search began (`pos`, or one past the previous
    border), and within 1024 chars of that target.
   */
  predicate IsBorderRun(data: string, pos: nat, chunk: nat, bs: seq<int>)
    decreases |bs|
  {
    || |bs| == 0
    || (&& pos + chunk <= bs[0] < pos + chunk + NewLineWindow
        && bs[0] < |data| && data[bs[0]] == '\n'
        && IsBorderRun(data, bs[0] + 1, chunk, bs[1..]))
  }

  /** Every border of a run is a '\n' of the file, and the borders strictly increase. */
  lemma {:induction false} BorderRunIncreases(data: string, pos: nat, chunk: nat, bs: seq<int>)
    requires IsBorderRun(data, pos, chunk, bs)
    ensures forall k | 0 <= k < |bs| :: pos + chunk <= bs[k] < |data| && data[bs[k]] == '\n'
    ensures forall i, j | 0 <= i < j < |bs| :: bs[i] < bs[j]
    decreases |bs|
  {
    if |bs| > 0 {
      var tail := bs[1..];
      BorderRunIncreases(data, bs[0] + 1, chunk, tail);
      assert forall k | 1 <= k < |bs| :: bs[k] == tail[k - 1];
    }
  }

  /**
    The loop of `FindPrecisedChunkBordersAsync` from loop-head position
    `pos`: advance by the chunk size, stop if that reaches the end, else
    take the nearest '\n' as a border and go on from just after it.
   */
  function ScanBorders(data: string, pos: nat, chunk: nat): (s: Scan)
    ensures IsBorderRun(data, pos, chunk, s.borders)
    ensures forall k | 0 <= k < |s.borders| :: pos <= s.borders[k] < |data|
    ensures s.exit == Exhausted ==>
      if |s.borders| == 0 then |data| <= pos else s.borders[|s.borders| - 1] == |data| - 1
    ensures s.exit != Exhausted ==> pos < |data|
    ensures s.exit == NoNewLine ==>
      (if |s.borders| == 0 then pos else s.borders[|s.borders| - 1] + 1) + chunk < |data|
    decreases |data| - pos
  {
    if |data| <= pos then Scan([], Exhausted)
    else if |data| <= pos + chunk then Scan([], PastEnd)
    else
      var b := FindNearestNewLine(data, pos + chunk);
      if b == -1 then Scan([], NoNewLine)
      else
        var rest := ScanBorders(data, b + 1, chunk);
        ScanCons(data, pos, chunk, b, rest);
        Scan([b] + rest.borders, rest.exit)
  }

  /** A border found from `pos`, in front of the scan from just after it. */
  lemma ScanCons(data: string, pos: nat, chunk: nat, b: nat, rest: Scan)
    requires pos + chunk <= b < pos + chunk + NewLineWindow && b < |data| && data[b] == '\n'
    requires IsBorderRun(data, b + 1, chunk, rest.borders)
    requires forall k | 0 <= k < |rest.borders| :: b + 1 <= rest.borders[k] < |data|
    requires rest.exit == Exhausted ==>
      if |rest.borders| == 0 then |data| <= b + 1 else rest.borders[|rest.borders| - 1] == |data| - 1
    requires rest.exit == NoNewLine ==>
      (if |rest.borders| == 0 then b + 1 else rest.borders[|rest.borders| - 1] + 1) + chunk < |data|
    ensures var bs := [b] + rest.borders;
      && IsBorderRun(data, pos, chunk, bs)
      && (forall k | 0 <= k < |bs| :: pos <= bs[k] < |data|)
      && (rest.exit == Exhausted ==> bs[|bs| - 1] == |data| - 1)
      && (rest.exit == NoNewLine ==> bs[|bs| - 1] + 1 + chunk < |data|)
  {
    var bs := [b] + rest.borders;
    assert bs[1..] == rest.borders;
    assert forall k | 1 <= k < |bs| :: bs[k] == rest.borders[k - 1];
  }

  /**
    `FindPrecisedChunkBordersAsync(file, 0, fileSize, chunk)` as written:
    0, the borders the loop finds, and, only when a step passes the end of
    the file, the newline search from the last character: the last
    position if the file ends in '\n', and -1 otherwise.
   */
  function FindChunkBordersAsWritten(data: string, chunk: nat): (bs: seq<int>)
    ensures |bs| >= 1 && bs[0] == 0
    ensures forall k | 0 <= k < |bs| - 1 :: 0 <= bs[k]
    ensures var s := ScanBorders(data, 0, chunk);
      if s.exit == PastEnd then
        && |data| >= 1 && |bs| == |s.borders| + 2 && bs[1..|bs| - 1] == s.borders
        && bs[|bs| - 1] == (if data[|data| - 1] == '\n' then |data| - 1 else -1)
      else bs[1..] == s.borders
  {
    var s := ScanBorders(data, 0, chunk);
    [0] + s.borders + if s.exit == PastEnd then [FindNearestNewLine(data, |data| - 1)] else []
  }

  /**
    The border list with the evidently intended end: the scan's borders,
    then the file size unless the last border already is the final char.
   */
  function FindChunkBorders(data: string, chunk: nat): (bs: seq<int>)
    ensures |bs| >= 1 && bs[0] == 0
    ensures forall k | 0 <= k < |bs| :: 0 <= bs[k] <= |data|
    ensures forall i, j | 0 <= i < j < |bs| :: bs[i] <= bs[j]
    ensures bs[|bs| - 1] == |data| || data[bs[|bs| - 1]] == '\n'
  {
    var s := ScanBorders(data, 0, chunk);
    BorderRunIncreases(data, 0, chunk, s.borders);
    TerminatedBorders(data, s);
    [0] + Terminate(data, s)
  }

  /** Increasing '\n' positions, ended by the file size unless the last is the final char. */
  lemma TerminatedBorders(data: string, s: Scan)
    requires forall k | 0 <= k < |s.borders| :: 0 <= s.borders[k] < |data| && data[s.borders[k]] == '\n'
    requires forall i, j | 0 <= i < j < |s.borders| :: s.borders[i] < s.borders[j]
    requires s.exit == Exhausted ==>
      if |s.borders| == 0 then |data| <= 0 else s.borders[|s.borders| - 1] == |data| - 1
    ensures var bs := [0] + Terminate(data, s);
      && (forall k | 0 <= k < |bs| :: 0 <= bs[k] <= |data|)
      && (forall i, j | 0 <= i < j < |bs| :: bs[i] <= bs[j])
      && (bs[|bs| - 1] == |data| || data[bs[|bs| - 1]] == '\n')
  {
    var bs := [0] + Terminate(data, s);
    assert forall k | 1 <= k < |bs| :: bs[k] == Terminate(data, s)[k - 1];
  }

  function Terminate(data: string, s: Scan): (bs: seq<int>)
    requires forall k | 0 <= k < |s.borders| :: 0 <= s.borders[k] < |data|
    ensures forall k | 0 <= k < |bs| :: 0 <= bs[k] <= |data|
  {
    s.borders + if s.exit == Exhausted then [] else [|data|]
  }

  // ---------------------------------------------------------------------
  // Chunks

  /** The text of every chunk [bs[i], bs[i + 1]) as its read loop delivers it. */
  function ChunkTexts(data: string, bs: seq<int>): (ts: seq<string>)
    requires forall k | 0 <= k < |bs| - 1 :: 0 <= bs[k]
    ensures |ts| == if |bs| < 2 then 0 else |bs| - 1
  {
    if |bs| < 2 then [] else [RangeText(data, bs[0], bs[1])] + ChunkTexts(data, bs[1..])
  }

  /** The records of all chunks, chunk by chunk, or the first failure. */
  function ParseChunks(data: string, bs: seq<int>): Result<seq<Entity>>
    requires forall k | 0 <= k < |bs| - 1 :: 0 <= bs[k]
  {
    Gather(ParseText, ChunkTexts(data, bs))
  }

  /** Some chunk between the borders parses to no record at all. */
  predicate HasEmptyChunk(data: string, bs: seq<int>)
    requires forall k | 0 <= k < |bs| - 1 :: 0 <= bs[k]
  {
    var ts := ChunkTexts(data, bs);
    exists k | 0 <= k < |ts| :: ParseText(ts[k]) == Ok([])
  }

  /**
    The chunks of the corrected border list hold exactly the records of
    the file, in file order, and fail exactly when parsing the file fails.
   */
  lemma ChunksCoverFile(data: string, chunk: nat)
    ensures ParseChunks(data, FindChunkBorders(data, chunk)) == ParseText(data)
  {
    forall q: nat, b: nat | q <= b < |data| && data[b] == '\n'
      ensures CutAt(ParseText, data, q, b)
    {
      NewLineCut(data, q, b);
    }
    ParseEmpty();
    assert CoverFrom(ParseText, data, 0, 0);
    ScanCovers(ParseText, data, 0, 0, chunk);
    assert data[0..] == data;
  }

  /** `f` reads the text from `q` as the lines before the '\n' at `b`, then the text after it. */
  predicate CutAt(f: string -> Result<seq<Entity>>, data: string, q: nat, b: nat)
    requires q <= b < |data|
  {
    && f(data[q..]) == Then(f(data[q..b]), f(data[b..]))
    && f(data[b..]) == f(data[b + 1..])
  }

  /**
    What the covering argument needs: `f` can be cut at every '\n' of
    `data`, reads nothing from the empty text, and reads the same from
    border `p` as from scan position `pos`.
   */
  predicate CoverFrom(f: string -> Result<seq<Entity>>, data: string, p: nat, pos: nat)
  {
    && (forall q: nat, b: nat | q <= b < |data| && data[b] == '\n' :: CutAt(f, data, q, b))
    && f("") == Ok([])
    && p <= pos <= |data|
    && f(data[p..]) == f(data[pos..])
  }

  /** Starting from border `p` with the scan at `pos`, the chunks read as the text from `p`. */
  lemma {:induction false} ScanCovers(f: string -> Result<seq<Entity>>, data: string, p: nat, pos: nat, chunk: nat)
    requires CoverFrom(f, data, p, pos)
    ensures Gather(f, ChunkTexts(data, [p] + Terminate(data, ScanBorders(data, pos, chunk)))) == f(data[p..])
    decreases |data| - pos, 2
  {
    var s := ScanBorders(data, pos, chunk);
    if |data| <= pos {
      assert [p] + Terminate(data, s) == [p];
      assert data[pos..] == "";
      GatherNone(f);
    } else if |data| <= pos + chunk || FindNearestNewLine(data, pos + chunk) == -1 {
      assert [p] + Terminate(data, s) == [p, |data|];
      CoverToEnd(f, data, p);
    } else {
      CoverCut(f, data, p, pos, chunk);
    }
  }

  /** The step of `ScanCovers` where the scan finds a border. */
  lemma {:induction false} CoverCut(f: string -> Result<seq<Entity>>, data: string, p: nat, pos: nat, chunk: nat)
    requires CoverFrom(f, data, p, pos)
    requires pos + chunk < |data| && FindNearestNewLine(data, pos + chunk) != -1
    ensures Gather(f, ChunkTexts(data, [p] + Terminate(data, ScanBorders(data, pos, chunk)))) == f(data[p..])
    decreases |data| - pos, 1
  {
    var b := ScanFound(data, pos, chunk);
    var rest := ScanBorders(data, b + 1, chunk);
    CoverAfter(f, data, p, b, chunk);
    TerminateCons(data, b, rest);
  }

  /** The chunks from border `p` when the next border is the '\n' at `b`. */
  lemma {:induction false} CoverAfter(f: string -> Result<seq<Entity>>, data: string, p: nat, b: nat, chunk: nat)
    requires CoverFrom(f, data, p, p)
    requires p <= b < |data| && data[b] == '\n'
    ensures Gather(f, ChunkTexts(data, [p] + ([b] + Terminate(data, ScanBorders(data, b + 1, chunk))))) == f(data[p..])
    decreases |data| - b, 0
  {
    assert CutAt(f, data, p, b);
    ScanCovers(f, data, b, b + 1, chunk);
    JoinChunk(f, data, p, b, Terminate(data, ScanBorders(data, b + 1, chunk)));
  }

  /** The scan at `pos` finds the border `b` and goes on from `b + 1`. */
  lemma ScanFound(data: string, pos: nat, chunk: nat) returns (b: nat)
    requires pos + chunk < |data| && FindNearestNewLine(data, pos + chunk) != -1
    ensures b == FindNearestNewLine(data, pos + chunk)
    ensures pos <= b < |data| && data[b] == '\n'
    ensures ScanBorders(data, pos, chunk) == Scan([b] + ScanBorders(data, b + 1, chunk).borders, ScanBorders(data, b + 1, chunk).exit)
  {
    b := FindNearestNewLine(data, pos + chunk);
  }

  /** The chunk [p, b) in front of the chunks from border `b`. */
  lemma JoinChunk(f: string -> Result<seq<Entity>>, data: string, p: nat, b: nat, tail: seq<int>)
    requires p <= b < |data|
    requires forall k | 0 <= k < |tail| :: 0 <= tail[k]
    requires f(data[p..]) == Then(f(data[p..b]), f(data[b..]))
    requires Gather(f, ChunkTexts(data, [b] + tail)) == f(data[b..])
    ensures Gather(f, ChunkTexts(data, [p] + ([b] + tail))) == f(data[p..])
  {
    var bs := [p] + ([b] + tail);
    assert bs[1..] == [b] + tail;
    assert ChunkTexts(data, bs) == [RangeText(data, p, b)] + ChunkTexts(data, [b] + tail);
    assert RangeText(data, p, b) == data[p..b];
  }

  lemma TerminateCons(data: string, b: nat, rest: Scan)
    requires b < |data|
    requires forall k | 0 <= k < |rest.borders| :: 0 <= rest.borders[k] < |data|
    ensures Terminate(data, Scan([b] + rest.borders, rest.exit)) == [b] + Terminate(data, rest)
  {
  }

  lemma CoverToEnd(f: string -> Result<seq<Entity>>, data: string, p: nat)
    requires p <= |data|
    ensures Gather(f, ChunkTexts(data, [p, |data|])) == f(data[p..])
  {
    assert ChunkTexts(data, [p, |data|]) == [RangeText(data, p, |data|)];
    assert RangeText(data, p, |data|) == data[p..];
    GatherSingle(f, data[p..]);
  }

  /** The empty text holds no records. */
  lemma ParseEmpty()
    ensures ParseText("") == Ok([])
  {
    SplitWithoutSeparator("", '\n');
    GatherSingle(ParseLine, "");
  }

  /** A '\n' at `b` cuts the text from `p` into the lines before it and the text from `b`. */
  lemma NewLineCut(data: string, p: nat, b: nat)
    requires p <= b < |data| && data[b] == '\n'
    ensures ParseText(data[p..]) == Then(ParseText(data[p..b]), ParseText(data[b..]))
    ensures ParseText(data[b..]) == ParseText(data[b + 1..])
  {
    CutAround(data, p, b);
    ParseTextAt(data[p..b], data[b + 1..]);
    LeadingNewLine(data[b + 1..]);
  }

  lemma CutAround(data: string, p: nat, b: nat)
    requires p <= b < |data| && data[b] == '\n'
    ensures data[p..] == data[p..b] + "\n" + data[b + 1..]
    ensures data[b..] == "" + "\n" + data[b + 1..]
  {
  }

  /** A '\n' in front of a text adds no records. */
  lemma LeadingNewLine(z: string)
    ensures ParseText("" + "\n" + z) == ParseText(z)
  {
    ParseTextAt("", z);
    ParseEmpty();
    var tail := ParseText(z);
    if tail.Ok? {
      assert [] + tail.value == tail.value;
    }
  }

  // ---------------------------------------------------------------------
  // What the scan as written loses

  /** The file of the examples below: two records, the last line without a '\n'. */
  const Sample: string := "1. a\n2. b"
  const FirstRecord: Entity := Entity(1, "a")
  const SecondRecord: Entity := Entity(2, "b")

  /** What the sample file and its first line hold. */
  lemma TwoLineFile()
    ensures ParseText(Sample) == Ok([FirstRecord, SecondRecord])
    ensures ParseText(Sample[..4]) == Ok([FirstRecord])
  {
    OneRecordLine(FirstRecord);
    OneRecordLine(SecondRecord);
    assert Sample[..4] == Format(FirstRecord);
    assert Sample[5..] == Format(SecondRecord);
    SplitLine(Sample, 4);
    ParseLineThenRest(Sample[..4], Sample[5..], [FirstRecord], [SecondRecord]);
    assert [FirstRecord] + [SecondRecord] == [FirstRecord, SecondRecord];
  }

  lemma SplitLine(data: string, b: nat)
    requires b < |data| && data[b] == '\n'
    ensures data == data[..b] + "\n" + data[b + 1..]
  {
  }

  lemma OneRecordLine(e: Entity)
    requires 0 <= e.number < 10 && |e.text| == 1 && 'a' <= e.text[0] <= 'z'
    ensures Format(e) == [DigitChar(e.number)] + ". " + e.text
    ensures ParseText(Format(e)) == Ok([e])
  {
    assert IsRecordText(e.text);
    ParseRecordLine(e);
  }

  /** The scan of the sample with chunk size 4: one border, then the target is past the end. */
  lemma ScanSampleBy4()
    ensures ScanBorders(Sample, 0, 4) == Scan([4], PastEnd)
    ensures FindNearestNewLine(Sample, |Sample| - 1) == -1
  {
    assert Sample[4] == '\n';
    assert FindNearestNewLine(Sample, 4) == 4;
    assert ScanBorders(Sample, 5, 4) == Scan([], PastEnd);
  }

  /** The scan of the sample with chunk size 2: one border, then no '\n' after the target. */
  lemma ScanSampleBy2()
    ensures ScanBorders(Sample, 0, 2) == Scan([4], NoNewLine)
  {
    assert Sample[2] == ' ' && Sample[3] == 'a' && Sample[4] == '\n';
    assert FirstNewLine(Sample, 4, 9) == 4;
    assert FirstNewLine(Sample, 3, 9) == 4;
    assert FindNearestNewLine(Sample, 2) == 4;
    assert FindNearestNewLine(Sample, 7) == -1;
    assert ScanBorders(Sample, 5, 2) == Scan([], NoNewLine);
  }

  lemma TwoBorders(data: string, a: nat, b: int)
    ensures ChunkTexts(data, [a, b]) == [RangeText(data, a, b)]
  {
    assert [a, b][1..] == [b];
  }

  lemma ThreeBorders(data: string, a: nat, b: nat, c: int)
    ensures ChunkTexts(data, [a, b, c]) == [RangeText(data, a, b), RangeText(data, b, c)]
  {
    assert [a, b, c][1..] == [b, c];
    TwoBorders(data, b, c);
  }

  /**
    A file whose last line has no '\n' after it: with chunk size 4 the
    list ends with -1, the last chunk [4, -1) reads nothing, and the
    second record is lost.
   */
  lemma LastLineLost()
    ensures FindChunkBordersAsWritten(Sample, 4) == [0, 4, -1]
    ensures ParseChunks(Sample, [0, 4, -1]) == Ok([FirstRecord])
    ensures ParseText(Sample) == Ok([FirstRecord, SecondRecord])
  {
    ScanSampleBy4();
    TwoLineFile();
    ThreeBorders(Sample, 0, 4, -1);
    ParseEmpty();
    GatherPair(ParseText, Sample[..4], "");
    assert [FirstRecord] + [] == [FirstRecord];
  }

  /**
    A target with no '\n' in the 1024 chars after it: with chunk size 2
    the second target (7) sees only "b", the scan stops, no border closes
    the file, and the second record is lost.
   */
  lemma TailLost()
    ensures FindChunkBordersAsWritten(Sample, 2) == [0, 4]
    ensures ParseChunks(Sample, [0, 4]) == Ok([FirstRecord])
  {
    ScanSampleBy2();
    FirstChunkOnly();
  }

  /** The single chunk [0, 4) of the sample holds only the first record. */
  lemma FirstChunkOnly()
    ensures ParseChunks(Sample, [0, 4]) == Ok([FirstRecord])
  {
    TwoLineFile();
    TwoBorders(Sample, 0, 4);
    GatherSingle(ParseText, Sample[..4]);
  }

  /** With the corrected end, the same file and chunk sizes keep both records. */
  lemma CorrectedKeepsTail()
    ensures FindChunkBorders(Sample, 4) == [0, 4, 9]
    ensures FindChunkBorders(Sample, 2) == [0, 4, 9]
    ensures ParseChunks(Sample, [0, 4, 9]) == Ok([FirstRecord, SecondRecord])
  {
    ScanSampleBy4();
    ScanSampleBy2();
    OneBorderThenEnd(Sample, 4, 4, PastEnd);
    OneBorderThenEnd(Sample, 2, 4, NoNewLine);
    ChunksCoverFile(Sample, 4);
    TwoLineFile();
  }

  /** A scan that finds one border and stops short of the end: the corrected list closes at the file size. */
  lemma OneBorderThenEnd(data: string, chunk: nat, b: nat, exit: ScanExit)
    requires ScanBorders(data, 0, chunk) == Scan([b], exit) && exit != Exhausted
    ensures FindChunkBorders(data, chunk) == [0, b, |data|]
  {
  }

  /**
    The lost final line in general: on a file whose last character is not
    a '\n', every border as written after the first lies before the last
    character, so no chunk [bs[i], bs[i + 1]) reads that character.
   */
  lemma AsWrittenMissesLastChar(data: string, chunk: nat)
    requires |data| >= 1 && data[|data| - 1] != '\n'
    ensures var bs := FindChunkBordersAsWritten(data, chunk);
      forall k | 0 < k < |bs| :: bs[k] < |data| - 1
  {
    var s := ScanBorders(data, 0, chunk);
    BorderRunIncreases(data, 0, chunk, s.borders);
    var tail := if s.exit == PastEnd then [FindNearestNewLine(data, |data| - 1)] else [];
    assert forall k | 0 <= k < |tail| :: tail[k] == -1;
    EndsBefore(s.borders, tail, |data| - 1);
  }

  lemma EndsBefore(xs: seq<int>, ys: seq<int>, n: int)
    requires forall k | 0 <= k < |xs| :: xs[k] < n
    requires forall k | 0 <= k < |ys| :: ys[k] < n
    ensures var bs := [0] + xs + ys; forall k | 0 < k < |bs| :: bs[k] < n
  {
    var bs := [0] + xs + ys;
    assert forall k | 0 < k < |bs| :: bs[k] == if k <= |xs| then xs[k - 1] else ys[k - 1 - |xs|];
  }

  /**
    The lost tail in general: when the scan stops because no '\n' follows
    a target, every border lies more than a chunk before the end of the
    file, so the file's last `chunk + 1` characters or more are in no chunk.
   */
  lemma AsWrittenStopsShort(data: string, chunk: nat)
    requires ScanBorders(data, 0, chunk).exit == NoNewLine
    ensures chunk < |data|
    ensures var bs := FindChunkBordersAsWritten(data, chunk);
      forall k | 0 < k < |bs| :: bs[k] + chunk + 1 < |data|
  {
    var s := ScanBorders(data, 0, chunk);
    BorderRunIncreases(data, 0, chunk, s.borders);
    assert forall k | 0 <= k < |s.borders| :: s.borders[k] <= s.borders[|s.borders| - 1];
    EndsBefore(s.borders, [], |data| - chunk - 1);
  }

  /**
    The corrected list against both findings: whenever the scan stops
    before the end, the last border is the file size, so the last chunk
    reads to the end of the file.
   */
  lemma CorrectedReachesEnd(data: string, chunk: nat)
    requires (|data| >= 1 && data[|data| - 1] != '\n') || ScanBorders(data, 0, chunk).exit == NoNewLine
    ensures var bs := FindChunkBorders(data, chunk); bs[|bs| - 1] == |data|
  {
    BorderRunIncreases(data, 0, chunk, ScanBorders(data, 0, chunk).borders);
  }
}
