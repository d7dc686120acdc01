/**
  The sortedness check of an output file (`CheckFileSorted` in
  DataProcessor/DataProcessingHelper.cs): read the file line by line with
  `StreamReader.ReadLine`, parse every line as a record, and report
  `false` at the first record that compares below the one before it.

  Unlike the chunk reader, the check does not skip blank lines: every
  line must parse, so a blank line fails it with a missing dot.
 */
module SortCheck {
  import opened Results
  import opened Entities
  import opened Ordering
  import opened Decimal
  import opened LineParsing

  predicate IsLineBreak(c: char)
  {
    c == '\n' || c == '\r'
  }

  /** Position of the first line break, or the length when there is none. */
  function FirstBreak(t: string): (k: nat)
    ensures k <= |t|
    ensures forall i | 0 <= i < k :: !IsLineBreak(t[i])
    ensures k < |t| ==> IsLineBreak(t[k])
  {
    if |t| == 0 || IsLineBreak(t[0]) then 0 else 1 + FirstBreak(t[1..])
  }

  /**
    The lines `StreamReader.ReadLine` returns until it returns null: a line
    ends at "\n", "\r" or "\r\n", and a break at the very end of the text
    does not start another line.
   */
  function ReadLines(t: string): (lines: seq<string>)
    decreases |t|
  {
    if |t| == 0 then []
    else
      var k := FirstBreak(t);
      if k == |t| then [t]
      else
        var next := if t[k] == '\r' && k + 1 < |t| && t[k + 1] == '\n' then k + 2 else k + 1;
        [t[..k]] + ReadLines(t[next..])
  }

  /** A line followed by any of the three line ends reads back as that line, then the rest. */
  lemma ReadLinesCons(line: string, end: string, rest: string)
    requires forall i | 0 <= i < |line| :: !IsLineBreak(line[i])
    requires end == "\n" || end == "\r\n" || (end == "\r" && (|rest| == 0 || rest[0] != '\n'))
    ensures ReadLines(line + end + rest) == [line] + ReadLines(rest)
  {
    var t := line + end + rest;
    FirstBreakAt(line, end + rest);
    assert line + end + rest == line + (end + rest);
    assert t[..|line|] == line;
    assert t[|line| + |end|..] == rest;
  }

  lemma FirstBreakAt(line: string, rest: string)
    requires forall i | 0 <= i < |line| :: !IsLineBreak(line[i])
    requires |rest| > 0 && IsLineBreak(rest[0])
    ensures FirstBreak(line + rest) == |line|
  {
    assert (line + rest)[|line|] == rest[0];
    assert forall i | 0 <= i < |line| :: (line + rest)[i] == line[i];
  }

  // ---------------------------------------------------------------------
  // Parsing every line

  /**
    The check's loop is stated over the line parser `parse`; the check
    itself runs it with `ParseEntity`.
   */
  type LineParser = string -> Result<Entity>

  /** One line read by the check: exactly one record, or the parse failure. */
  function Strict(parse: LineParser): string -> Result<seq<Entity>>
  {
    line => match parse(line) case Ok(e) => Ok([e]) case Err(f) => Err(f)
  }

  /** The records of all lines, one per line, or the failure of the first bad line. */
  function ParseAll(parse: LineParser, lines: seq<string>): Result<seq<Entity>>
  {
    Gather(Strict(parse), lines)
  }

  /** Parsing one line more appends its record. */
  lemma ParseAllSnoc(parse: LineParser, lines: seq<string>, j: nat, es: seq<Entity>, e: Entity)
    requires j < |lines| && ParseAll(parse, lines[..j]) == Ok(es) && parse(lines[j]) == Ok(e)
    ensures ParseAll(parse, lines[..j + 1]) == Ok(es + [e])
  {
    assert lines[..j + 1] == lines[..j] + [lines[j]];
    GatherAppend(Strict(parse), lines[..j], [lines[j]]);
    GatherSingle(Strict(parse), lines[j]);
  }

  /** Each line gives one record. */
  lemma {:induction false} ParseAllLength(parse: LineParser, lines: seq<string>)
    requires ParseAll(parse, lines).Ok?
    ensures |ParseAll(parse, lines).value| == |lines|
  {
    if |lines| > 0 {
      ParseAllLength(parse, lines[1..]);
    }
  }

  // ---------------------------------------------------------------------
  // The check

  /** Every line is a record and the records are in order. */
  predicate LinesSorted(parse: LineParser, lines: seq<string>)
  {
    ParseAll(parse, lines).Ok? && Sorted(ParseAll(parse, lines).value)
  }

  /** The first `j + 1` lines parse, and record `j` is below record `j - 1`. */
  predicate Descends(parse: LineParser, lines: seq<string>, j: nat)
    requires 0 < j < |lines|
  {
    var head := ParseAll(parse, lines[..j + 1]);
    head.Ok? && |head.value| == j + 1 && Compare(head.value[j], head.value[j - 1]) < 0
  }

  /** The records before line `j` are in order, and line `j` fails with `fault`. */
  predicate FailsAfterSorted(parse: LineParser, lines: seq<string>, j: nat, fault: Fault)
    requires j < |lines|
  {
    LinesSorted(parse, lines[..j]) && parse(lines[j]) == Err(fault)
  }

  /**
    What the check may answer on a file's lines: `true` exactly when every
    line is a record and the records are in order; `false` only at a
    record below its predecessor; a failure only at the first bad line,
    after records in order.
   */
  predicate IsVerdict(parse: LineParser, lines: seq<string>, res: Result<bool>)
  {
    && (res == Ok(true) <==> LinesSorted(parse, lines))
    && (res == Ok(false) ==> exists j | 0 < j < |lines| :: Descends(parse, lines, j))
    && (res.Err? ==> ParseAll(parse, lines) == Err(res.fault))
    && (res.Err? ==> exists j | 0 <= j < |lines| :: FailsAfterSorted(parse, lines, j, res.fault))
  }

  /**
    `CheckFileSorted` on the file text: parse every line `ReadLine`
    returns, and stop at the first record below the one before it.
   */
  method CheckFileSorted(text: string) returns (res: Result<bool>)
    ensures IsVerdict(ParseEntity, ReadLines(text), res)
  {
    res := CheckLines(ParseEntity, ReadLines(text));
  }

  /** The loop of `CheckFileSorted` over the file's lines. */
  method CheckLines(parse: LineParser, lines: seq<string>) returns (res: Result<bool>)
    ensures IsVerdict(parse, lines, res)
  {
    var previous: Option<Entity> := None;
    ghost var es: seq<Entity> := [];
    var j := 0;
    while j < |lines|
      invariant j <= |lines| && |es| == j
      invariant ParseAll(parse, lines[..j]) == Ok(es) && Sorted(es)
      invariant previous == if j == 0 then None else Some(es[j - 1])
    {
      var entity := parse(lines[j]);
      if entity.Err? {
        BadLineVerdict(parse, lines, j, es);
        return Err(entity.fault);
      }
      ParseAllSnoc(parse, lines, j, es, entity.value);
      if previous.Some? && CompareTo(entity.value, previous) < 0 {
        OutOfOrderVerdict(parse, lines, j, es, entity.value);
        return Ok(false);
      }
      InOrder(es, entity.value);
      es := es + [entity.value];
      previous := Some(entity.value);
      j := j + 1;
    }
    SortedVerdict(parse, lines, es);
    return Ok(true);
  }

  /** When every line is read without complaint, `true` is the check's verdict. */
  lemma SortedVerdict(parse: LineParser, lines: seq<string>, es: seq<Entity>)
    requires ParseAll(parse, lines[..|lines|]) == Ok(es) && Sorted(es)
    ensures IsVerdict(parse, lines, Ok(true))
  {
    WholePrefix(lines);
  }

  /** At the first bad line, the failure is the check's verdict. */
  lemma BadLineVerdict(parse: LineParser, lines: seq<string>, j: nat, es: seq<Entity>)
    requires j < |lines| && ParseAll(parse, lines[..j]) == Ok(es) && Sorted(es)
    requires parse(lines[j]).Err?
    ensures IsVerdict(parse, lines, Err(parse(lines[j]).fault))
  {
    GatherFailsAt(Strict(parse), lines, j);
    assert FailsAfterSorted(parse, lines, j, parse(lines[j]).fault);
  }

  /** At a record below its predecessor, `false` is the check's verdict. */
  lemma OutOfOrderVerdict(parse: LineParser, lines: seq<string>, j: nat, es: seq<Entity>, e: Entity)
    requires 0 < j < |lines| && |es| == j
    requires ParseAll(parse, lines[..j + 1]) == Ok(es + [e])
    requires Compare(e, es[j - 1]) < 0
    ensures IsVerdict(parse, lines, Ok(false))
  {
    assert (es + [e])[j] == e && (es + [e])[j - 1] == es[j - 1];
    assert Descends(parse, lines, j);
    if ParseAll(parse, lines).Ok? {
      GatherPrefix(Strict(parse), lines, j + 1);
      var all := ParseAll(parse, lines).value;
      assert all[j] == e && all[j - 1] == es[j - 1];
      CompareAntisymmetric(e, es[j - 1]);
      assert !Sorted(all);
    }
  }

  lemma InOrder(es: seq<Entity>, e: Entity)
    requires Sorted(es)
    requires |es| > 0 ==> !(Compare(e, es[|es| - 1]) < 0)
    ensures Sorted(es + [e])
  {
    if |es| > 0 {
      CompareAntisymmetric(e, es[|es| - 1]);
    }
    SortedSnoc(es, e);
  }

  // ---------------------------------------------------------------------
  // Reading back the merged output

  /** A record whose line `ReadLine` returns whole. */
  predicate IsReadable(e: Entity)
  {
    IsWritable(e) && '\r' !in e.text
  }

  function Formats(es: seq<Entity>): (lines: seq<string>)
    ensures |lines| == |es|
  {
    if |es| == 0 then [] else [Format(es[0])] + Formats(es[1..])
  }

  /** The file written one record per line reads back as those records' lines. */
  lemma {:induction false} ReadRenderedLines(es: seq<Entity>)
    requires forall e | e in es :: IsReadable(e)
    ensures ReadLines(RenderLf(es)) == Formats(es)
  {
    if |es| > 0 {
      assert es[0] in es;
      assert forall e | e in es[1..] :: e in es;
      FormatHasNoBreak(es[0]);
      ReadLinesCons(Format(es[0]), "\n", RenderLf(es[1..]));
      ReadRenderedLines(es[1..]);
    }
  }

  /** Those lines parse back to the records. */
  lemma {:induction false} ParseFormats(es: seq<Entity>)
    requires forall e | e in es :: IsReadable(e)
    ensures ParseAll(ParseEntity, Formats(es)) == Ok(es)
  {
    if |es| > 0 {
      assert es[0] in es;
      assert forall e | e in es[1..] :: e in es;
      ParseFormats(es[1..]);
      ParseFormatCons(es);
    }
  }

  lemma ParseFormatCons(es: seq<Entity>)
    requires |es| > 0 && IsRecordText(es[0].text) && ParseAll(ParseEntity, Formats(es[1..])) == Ok(es[1..])
    ensures ParseAll(ParseEntity, Formats(es)) == Ok(es)
  {
    var line, rest := Format(es[0]), Formats(es[1..]);
    HeadTail(es);
    assert Formats(es) == [line] + rest;
    ParseFormat(es[0]);
    GatherAppend(Strict(ParseEntity), [line], rest);
    GatherSingle(Strict(ParseEntity), line);
  }

  /** A file written one record per line reads back as exactly those records. */
  lemma CheckSeesRecords(es: seq<Entity>)
    requires forall e | e in es :: IsReadable(e)
    ensures ParseAll(ParseEntity, ReadLines(RenderLf(es))) == Ok(es)
  {
    ReadRenderedLines(es);
    ParseFormats(es);
  }

  /**
    On a file written one record per line, the check answers `true`
    exactly when the records are in order, and `false` otherwise: it never
    fails on such a file.
   */
  lemma CheckDecidesRendered(es: seq<Entity>, res: Result<bool>)
    requires forall e | e in es :: IsReadable(e)
    requires IsVerdict(ParseEntity, ReadLines(RenderLf(es)), res)
    ensures res == Ok(true) <==> Sorted(es)
    ensures res == Ok(false) <==> !Sorted(es)
  {
    CheckSeesRecords(es);
    VerdictOnRecords(ParseEntity, ReadLines(RenderLf(es)), es, res);
  }

  /** On lines that all parse, the verdict is `true` or `false` by the records' order alone. */
  lemma VerdictOnRecords(parse: LineParser, lines: seq<string>, es: seq<Entity>, res: Result<bool>)
    requires ParseAll(parse, lines) == Ok(es) && IsVerdict(parse, lines, res)
    ensures res == Ok(true) <==> Sorted(es)
    ensures res == Ok(false) <==> !Sorted(es)
  {
    assert res.Ok?;
    assert res == Ok(true) <==> res.value;
  }

  lemma FormatHasNoBreak(e: Entity)
    requires IsReadable(e)
    ensures forall i | 0 <= i < |Format(e)| :: !IsLineBreak(Format(e)[i])
  {
    var n := FormatInt64(e.number);
    var line := Format(e);
    assert line == n + ". " + e.text;
    forall i | 0 <= i < |line|
      ensures !IsLineBreak(line[i])
    {
      if i < |n| {
        assert line[i] == n[i];
      } else if |n| + 2 <= i {
        assert line[i] == e.text[i - |n| - 2];
      }
    }
  }
}
