/**
  Reading the records of one chunk of the input
  (`ReadEntitiesChunkFromFileAsync` in DataProcessor/DataProcessingHelper.cs).

  The chunk is the char range [start, end) of the file. It arrives in
  blocks of at most 2048 chars; after each block the text held back so far
  plus the new block is split at '\n', every piece but the last is a
  complete line, and the last piece is held back for the next block. Blank
  lines are skipped, every other line must parse, and whatever is held back
  at the end is parsed as a final line if it is not blank.

  The result is the same as parsing the whole range at once, however the
  range is cut into blocks.
 */
module ChunkText {
  import opened Results
  import opened Strings
  import opened Entities
  import opened LineParsing

  /** Chars the read loop asks for at a time. */
  const ReadBufferSize: nat := 2048

  /**
    The chars the read loop of a chunk delivers. It reads from `start`
    while the stream position does not pass `end`, asking each time for at
    most `end` minus the position, so an `end` at or before `start` (such
    as -1) delivers nothing, and the end of the file cuts the range short.
   */
  function RangeText(data: string, start: nat, end: int): (t: string)
    ensures |t| <= |data|
    ensures start < end <= |data| ==> t == data[start..end]
    ensures end <= start || |data| <= start ==> t == ""
  {
    if end <= start || |data| <= start then ""
    else data[start..if end < |data| then end else |data|]
  }

  /** Cuts a text into consecutive blocks of `size` chars, the last possibly shorter. */
  function Blocks(t: string, size: nat): (bs: seq<string>)
    requires size > 0
    ensures Concat(bs) == t
    ensures forall i | 0 <= i < |bs| :: 1 <= |bs[i]| <= size
    decreases |t|
  {
    if |t| == 0 then []
    else if |t| <= size then
      assert Concat([t]) == t + Concat([t][1..]);
      [t]
    else
      var rest := Blocks(t[size..], size);
      assert ([t[..size]] + rest)[1..] == rest;
      assert t[..size] + t[size..] == t;
      [t[..size]] + rest
  }

  /**
    The line-assembly loop. Whatever blocks the text arrives in, the
    records (or the first failure) are those of parsing the whole text.
   */
  method ReadEntitiesChunk(blocks: seq<string>) returns (res: Result<seq<Entity>>)
    ensures res == ParseText(Concat(blocks))
  {
    ghost var whole := Feed(Fresh, Concat(blocks), '\n');
    var entities: seq<Entity> := [];
    var carry := "";
    ghost var closed: seq<string> := [];
    GatherNone(ParseLine);
    var i := 0;
    while i < |blocks|
      invariant 0 <= i <= |blocks|
      invariant Feed(Cut(closed, carry), Concat(blocks[i..]), '\n') == whole
      invariant ParseLines(closed) == Ok(entities)
      invariant '\n' !in carry
    {
      var lines := Split(carry + blocks[i], '\n');
      NextBlock(closed, carry, blocks, i);
      var more, bad := ParseCompleteLines(closed, lines, entities);
      if more.Err? {
        FailureInside(ParseLine, Concat(blocks), closed, lines, Concat(blocks[i + 1..]), bad);
        return Err(more.fault);
      }
      entities := more.value;
      closed := closed + lines[..|lines| - 1];
      carry := lines[|lines| - 1];
      i := i + 1;
    }
    res := ParseLastLine(closed, carry, entities);
    assert Concat(blocks[i..]) == [];
    assert Split(Concat(blocks), '\n') == closed + [carry];
  }

  /** The scan state after one more block: the complete lines are closed, the last piece is held back. */
  lemma NextBlock(closed: seq<string>, carry: string, blocks: seq<string>, i: nat)
    requires i < |blocks| && '\n' !in carry
    ensures var lines := Split(carry + blocks[i], '\n');
      Feed(Cut(closed + lines[..|lines| - 1], lines[|lines| - 1]), Concat(blocks[i + 1..]), '\n')
      == Feed(Cut(closed, carry), Concat(blocks[i..]), '\n')
  {
    FeedBlock(closed, carry, blocks[i], '\n');
    assert blocks[i..] == [blocks[i]] + blocks[i + 1..];
    assert Concat(blocks[i..]) == blocks[i] + Concat(blocks[i + 1..]);
    FeedAppend(Cut(closed, carry), blocks[i], Concat(blocks[i + 1..]), '\n');
  }

  /**
    The inner loop over the complete lines of a block: every piece but the
    last is a line; blank ones are skipped and the others must parse.
    On failure, `bad` is the line that failed.
   */
  method ParseCompleteLines(ghost closed: seq<string>, lines: seq<string>, entities: seq<Entity>)
    returns (res: Result<seq<Entity>>, ghost bad: nat)
    requires |lines| >= 1 && ParseLines(closed) == Ok(entities)
    ensures res.Ok? ==> ParseLines(closed + lines[..|lines| - 1]) == res
    ensures res.Err? ==>
      && bad < |lines| - 1
      && ParseLines(closed + lines[..bad]).Ok?
      && ParseLine(lines[bad]) == Err(res.fault)
  {
    var acc := entities;
    var k := 0;
    assert closed + lines[..0] == closed;
    while k < |lines| - 1
      invariant 0 <= k <= |lines| - 1
      invariant ParseLines(closed + lines[..k]) == Ok(acc)
    {
      var line := lines[k];
      NextLine(closed, lines, k, acc);
      if !IsNullOrWhiteSpace(line) {
        var parsed := ParseEntity(line);
        if parsed.Err? {
          return Err(parsed.fault), k;
        }
        acc := acc + [parsed.value];
      }
      k := k + 1;
    }
    return Ok(acc), 0;
  }

  /** What one more line does to the records parsed so far. */
  lemma NextLine(closed: seq<string>, lines: seq<string>, k: nat, acc: seq<Entity>)
    requires k < |lines| && ParseLines(closed + lines[..k]) == Ok(acc)
    ensures ParseLine(lines[k]) == (
      if IsNullOrWhiteSpace(lines[k]) then Ok([])
      else match ParseEntity(lines[k]) case Ok(e) => Ok([e]) case Err(f) => Err(f))
    ensures ParseLines(closed + lines[..k + 1]) == (
      if IsNullOrWhiteSpace(lines[k]) then Ok(acc)
      else match ParseEntity(lines[k]) case Ok(e) => Ok(acc + [e]) case Err(f) => Err(f))
  {
    SnocPrefix(closed, lines, k);
    ParseLinesSnoc(closed + lines[..k], lines[k]);
    assert acc + [] == acc;
  }

  lemma SnocPrefix<T>(front: seq<T>, xs: seq<T>, k: nat)
    requires k < |xs|
    ensures front + xs[..k + 1] == (front + xs[..k]) + [xs[k]]
  {
  }

  /** The text held back after the last block: parsed as a final line unless blank. */
  method ParseLastLine(ghost closed: seq<string>, carry: string, entities: seq<Entity>)
    returns (res: Result<seq<Entity>>)
    requires ParseLines(closed) == Ok(entities)
    ensures res == ParseLines(closed + [carry])
  {
    ParseLinesSnoc(closed, carry);
    if |carry| > 0 && !IsNullOrWhiteSpace(carry) {
      var parsed := ParseEntity(carry);
      if parsed.Err? {
        return Err(parsed.fault);
      }
      return Ok(entities + [parsed.value]);
    }
    assert entities + [] == entities;
    return Ok(entities);
  }

  /** Parsing one more line after a run. */
  lemma ParseLinesSnoc(xs: seq<string>, line: string)
    ensures ParseLines(xs + [line]) == Then(ParseLines(xs), ParseLine(line))
  {
    ParseLinesAppend(xs, [line]);
    GatherSingle(ParseLine, line);
  }

  /**
    A complete line that fails decides the parse of the whole text,
    provided every line before it parsed.
   */
  lemma FailureInside(f: string -> Result<seq<Entity>>, all: string, closed: seq<string>, lines: seq<string>, rest: string, bad: nat)
    requires |lines| >= 1 && bad < |lines| - 1
    requires Feed(Cut(closed + lines[..|lines| - 1], lines[|lines| - 1]), rest, '\n') == Feed(Fresh, all, '\n')
    requires Gather(f, closed + lines[..bad]).Ok? && f(lines[bad]).Err?
    ensures Gather(f, Split(all, '\n')) == Err(f(lines[bad]).fault)
  {
    var st := Cut(closed + lines[..|lines| - 1], lines[|lines| - 1]);
    var j := |closed| + bad;
    LineAt(closed, lines, bad);
    var w := Feed(st, rest, '\n');
    FeedDonePrefix(st, rest, '\n');
    var pieces := w.done + [w.carry];
    PrefixAgrees(w.done, w.carry, st.done, j);
    GatherFailsAt(f, pieces, j);
  }

  lemma LineAt<T>(front: seq<T>, xs: seq<T>, k: nat)
    requires k < |xs| - 1
    ensures (front + xs[..|xs| - 1])[..|front| + k] == front + xs[..k]
    ensures (front + xs[..|xs| - 1])[|front| + k] == xs[k]
  {
  }

  lemma PrefixAgrees(done: seq<string>, carry: string, p: seq<string>, j: nat)
    requires |p| <= |done| && done[..|p|] == p && j < |p|
    ensures (done + [carry])[..j] == p[..j] && (done + [carry])[j] == p[j]
  {
    assert done[..|p|][..j] == done[..j];
    assert done[..|p|][j] == done[j];
  }

  /**
    `ReadEntitiesChunkFromFileAsync` on the chunk [start, end): the records
    of the chars the read loop delivers, read in blocks of 2048 chars.
   */
  method ReadEntitiesChunkFromFile(data: string, start: nat, end: int) returns (res: Result<seq<Entity>>)
    ensures res == ParseText(RangeText(data, start, end))
  {
    res := ReadEntitiesChunk(Blocks(RangeText(data, start, end), ReadBufferSize));
  }
}
