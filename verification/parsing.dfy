/**
  Turning text lines back into records: `ParseEntityFromString` in
  DataProcessor/DataProcessingHelper.cs, and the rule every reader of the
  input applies to a run of lines (blank lines are skipped, any other line
  must parse, and the first bad line aborts the whole read).
 */
module LineParsing {
  import opened Results
  import opened Strings
  import opened Decimal
  import opened Entities

  /** Longest text a record line may carry after trimming. */
  const MaxTextLength: nat := 1024

  /** A text `ParseEntityFromString` can produce, and so one that survives a round trip. */
  predicate IsRecordText(t: string)
  {
    IsTrimmed(t) && 1 <= |t| <= MaxTextLength
  }

  /**
    `ParseEntityFromString`: the number is everything before the first
    '.', the text is everything after it, trimmed. The failures are checked
    in the source's order: no dot, a prefix that is not a long, an empty
    text, a text longer than 1024 chars; a line passing all four checks
    parses.
   */
  function ParseEntity(line: string): (r: Result<Entity>)
    ensures r == Err(MissingDot) <==> '.' !in line
    ensures r.Err? ==> r.fault in {MissingDot, InvalidNumber, EmptyText, TextTooLong}
    ensures '.' in line ==>
      var dot := IndexOf(line, '.');
      var number := TryParseInt64(line[..dot]);
      var rest := line[dot + 1..];
      && (r == Err(InvalidNumber) <==> number.None?)
      && (r == Err(EmptyText) <==> number.Some? && IsNullOrWhiteSpace(rest))
      && (r == Err(TextTooLong) <==> number.Some? && |Trim(rest)| > MaxTextLength)
      && (r.Ok? ==> number == Some(r.value.number) && IsSliceBetweenBlanks(rest, r.value.text))
    ensures r.Ok? ==> IsRecordText(r.value.text)
  {
    var dot := IndexOf(line, '.');
    if dot == -1 then Err(MissingDot)
    else ParseHalves(line[..dot], line[dot + 1..])
  }

  /**
    The line cut at its first '.': the number from the part before it,
    the text from the rest without its blank ends, then the three checks.
   */
  function ParseHalves(prefix: string, rest: string): (r: Result<Entity>)
    ensures r.Err? ==> r.fault in {InvalidNumber, EmptyText, TextTooLong}
    ensures var number := TryParseInt64(prefix);
      && (r == Err(InvalidNumber) <==> number.None?)
      && (r == Err(EmptyText) <==> number.Some? && IsNullOrWhiteSpace(rest))
      && (r == Err(TextTooLong) <==> number.Some? && |Trim(rest)| > MaxTextLength)
      && (r.Ok? ==> number == Some(r.value.number) && IsSliceBetweenBlanks(rest, r.value.text))
    ensures r.Ok? ==> IsRecordText(r.value.text)
  {
    var text := Trim(rest);
    assert |text| == 0 <==> IsNullOrWhiteSpace(rest);
    Assemble(TryParseInt64(prefix), text)
  }

  /** The checks on the two halves of a line, after the dot has been found. */
  function Assemble(number: Option<Int64>, text: string): (r: Result<Entity>)
    ensures r.Ok? <==> number.Some? && 1 <= |text| <= MaxTextLength
    ensures r.Ok? ==> r.value == Entity(number.value, text)
    ensures r == Err(InvalidNumber) <==> number.None?
    ensures r == Err(EmptyText) <==> number.Some? && |text| == 0
    ensures r == Err(TextTooLong) <==> number.Some? && |text| > MaxTextLength
  {
    match number
    case None => Err(InvalidNumber)
    case Some(n) =>
      if |text| == 0 then Err(EmptyText)
      else if |text| > MaxTextLength then Err(TextTooLong)
      else Ok(Entity(n, text))
  }

  /**
    Parsing a rendered record gives the record back exactly when its text
    is one parsing can produce: trimmed, non-empty, at most 1024 chars.
   */
  lemma ParseFormat(e: Entity)
    ensures ParseEntity(Format(e)) == Ok(e) <==> IsRecordText(e.text)
  {
    if IsRecordText(e.text) {
      var n := FormatInt64(e.number);
      var line := Format(e);
      var dot := IndexOf(line, '.');
      FormatLayout(e);
      ParseFormatInt64(e.number);
      assert dot == |n| && line[..dot] == n;
      assert line[dot + 1..] == [' '] + e.text;
      TrimAfterWhiteSpace([' '], e.text);
      ParseAtDot(line, dot);
    } else {
      var r := ParseEntity(Format(e));
      assert r.Ok? ==> IsRecordText(r.value.text);
    }
  }

  /** ParseEntity with the line's first '.' at `dot`: the number before it and the trimmed text after it, checked. */
  lemma ParseAtDot(line: string, dot: int)
    requires 0 <= dot && IndexOf(line, '.') == dot
    ensures ParseEntity(line) == Assemble(TryParseInt64(line[..dot]), Trim(line[dot + 1..]))
  {
    assert ParseEntity(line) == ParseHalves(line[..dot], line[dot + 1..]);
  }

  /**
    A '\0' just before a line's first '.' is padding `long.TryParse`
    accepts, so it never changes how the line parses: "12\0. x" reads as
    "12. x" does.
   */
  lemma NulBeforeDot(number: string, rest: string)
    requires '.' !in number && |rest| > 0 && rest[0] == '.'
    ensures ParseEntity(number + ['\0'] + rest) == ParseEntity(number + rest)
  {
    var padded := number + ['\0'] + rest;
    var plain := number + rest;
    assert padded[..|number| + 1] == number + ['\0'];
    assert plain[..|number|] == number;
    IndexOfFirst(padded, '.', |number| + 1);
    IndexOfFirst(plain, '.', |number|);
    TrailingNulIgnored(number);
    assert padded[|number| + 2..] == rest[1..] == plain[|number| + 1..];
    ParseAtDot(padded, |number| + 1);
    ParseAtDot(plain, |number|);
  }

  /** How one line of a chunk contributes: nothing if blank, else its record or its failure. */
  function ParseLine(line: string): Result<seq<Entity>>
  {
    if IsNullOrWhiteSpace(line) then Ok([])
    else
      match ParseEntity(line)
      case Ok(e) => Ok([e])
      case Err(f) => Err(f)
  }

  /**
    A run of lines: the records of its non-blank lines in order, or the
    failure of the first line that does not parse.
   */
  function ParseLines(lines: seq<string>): Result<seq<Entity>>
  {
    Gather(ParseLine, lines)
  }

  /** The lines of `X + Y` parse as those of `X`, then those of `Y`. */
  lemma ParseLinesAppend(xs: seq<string>, ys: seq<string>)
    ensures ParseLines(xs + ys) == Then(ParseLines(xs), ParseLines(ys))
  {
    GatherAppend(ParseLine, xs, ys);
  }

  /** Once a line fails, nothing after it matters: the run fails with that line's fault. */
  lemma FirstFailureWins(xs: seq<string>, line: string, ys: seq<string>)
    requires ParseLines(xs).Ok? && ParseLine(line).Err?
    ensures ParseLines(xs + [line] + ys) == Err(ParseLine(line).fault)
  {
    ParseLinesAppend(xs + [line], ys);
    ParseLinesAppend(xs, [line]);
    assert ParseLines([line]) == Then(ParseLine(line), Gather(ParseLine, [line][1..]));
  }

  /** The records of a text: its lines are the pieces between '\n' characters. */
  function ParseText(text: string): Result<seq<Entity>>
  {
    ParseLines(Split(text, '\n'))
  }

  /** A text cut at a '\n' parses as its two sides, in order. */
  lemma ParseTextAt(x: string, z: string)
    ensures ParseText(x + "\n" + z) == Then(ParseText(x), ParseText(z))
  {
    SplitAtSeparator(x, z, '\n');
    ParseLinesAppend(Split(x, '\n'), Split(z, '\n'));
  }

  /** A record that can be written as one line and read back unchanged. */
  predicate IsWritable(e: Entity)
  {
    IsRecordText(e.text) && '\n' !in e.text
  }

  /** Text made of record lines, each ended by '\n', parses to exactly those records. */
  lemma {:induction false} ParseRenderedLines(es: seq<Entity>)
    requires forall e | e in es :: IsWritable(e)
    ensures ParseText(RenderLf(es)) == Ok(es)
  {
    if |es| == 0 {
      SplitWithoutSeparator("", '\n');
      GatherSingle(ParseLine, "");
    } else {
      assert es[0] in es;
      ParseRecordLine(es[0]);
      assert forall e | e in es[1..] :: e in es;
      ParseRenderedLines(es[1..]);
      ParseLineThenRest(Format(es[0]), RenderLf(es[1..]), [es[0]], es[1..]);
      assert [es[0]] + es[1..] == es;
    }
  }

  lemma ParseLineThenRest(line: string, rest: string, head: seq<Entity>, tail: seq<Entity>)
    requires ParseText(line) == Ok(head) && ParseText(rest) == Ok(tail)
    ensures ParseText(line + "\n" + rest) == Ok(head + tail)
  {
    ParseTextAt(line, rest);
  }

  /** One rendered record, alone, parses to itself. */
  lemma ParseRecordLine(e: Entity)
    requires IsWritable(e)
    ensures ParseText(Format(e)) == Ok([e])
  {
    var line := Format(e);
    ParseFormat(e);
    FormatHasNoNewLine(e);
    SplitWithoutSeparator(line, '\n');
    GatherSingle(ParseLine, line);
    assert !IsNullOrWhiteSpace(line) by {
      assert line[|FormatInt64(e.number)|] == '.';
    }
  }

  /** Records written one per line with `WriteLine` on a '\n' platform. */
  function RenderLf(es: seq<Entity>): string
  {
    if |es| == 0 then "" else Format(es[0]) + "\n" + RenderLf(es[1..])
  }

  lemma FormatHasNoNewLine(e: Entity)
    requires '\n' !in e.text
    ensures '\n' !in Format(e)
  {
    var n := FormatInt64(e.number);
    var line := Format(e);
    assert line == n + ". " + e.text;
    forall i | 0 <= i < |line|
      ensures line[i] != '\n'
    {
      if i < |n| {
        assert line[i] == n[i];
      } else if |n| + 2 <= i {
        assert line[i] == e.text[i - |n| - 2];
      }
    }
  }
}
