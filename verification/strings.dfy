/**
  The handful of .NET string operations the sorter relies on: `IndexOf`,
  `Split('\n')`, `Trim` and `string.IsNullOrWhiteSpace`. Strings are
  sequences of chars; white space is the set `char.IsWhiteSpace` accepts.
 */
module Strings {

  /** `char.IsWhiteSpace`: the Unicode White_Space characters. */
  predicate IsWhiteSpace(c: char)
  {
    || ('\t' <= c <= '\r')
    || c == ' '
    || c == '\U{85}'
    || c == '\U{A0}'
    || c == '\U{1680}'
    || ('\U{2000}' <= c <= '\U{200A}')
    || c == '\U{2028}'
    || c == '\U{2029}'
    || c == '\U{202F}'
    || c == '\U{205F}'
    || c == '\U{3000}'
  }

  /** `string.IsNullOrWhiteSpace` on a non-null string. */
  predicate IsNullOrWhiteSpace(s: string)
  {
    forall i | 0 <= i < |s| :: IsWhiteSpace(s[i])
  }

  /** `r` is a stretch of `s` with only white space before and after it. */
  predicate IsSliceBetweenBlanks(s: string, r: string)
  {
    exists i, j | 0 <= i <= j <= |s| ::
      r == s[i..j] && IsNullOrWhiteSpace(s[..i]) && IsNullOrWhiteSpace(s[j..])
  }

  /** A string that `Trim` leaves as it is. */
  predicate IsTrimmed(s: string)
  {
    |s| == 0 || (!IsWhiteSpace(s[0]) && !IsWhiteSpace(s[|s| - 1]))
  }

  /** `s.IndexOf(c)`: the first position of `c`, or -1. */
  function IndexOf(s: string, c: char): (r: int)
    ensures -1 <= r < |s|
    ensures r == -1 <==> c !in s
    ensures 0 <= r ==> s[r] == c && c !in s[..r]
  {
    if |s| == 0 then -1
    else if s[0] == c then 0
    else
      var k := IndexOf(s[1..], c);
      if k == -1 then -1 else k + 1
  }

  /** A position holding `c` with no `c` in front of it is where `IndexOf` stops. */
  lemma IndexOfFirst(s: string, c: char, k: nat)
    requires k < |s| && s[k] == c && c !in s[..k]
    ensures IndexOf(s, c) == k
  {
  }

  function TrimStart(s: string): (r: string)
    ensures |r| <= |s| && r == s[|s| - |r|..]
    ensures IsNullOrWhiteSpace(s[..|s| - |r|])
    ensures |r| == 0 || !IsWhiteSpace(r[0])
  {
    if |s| > 0 && IsWhiteSpace(s[0]) then TrimStart(s[1..]) else s
  }

  function TrimEnd(s: string): (r: string)
    ensures |r| <= |s| && r == s[..|r|]
    ensures IsNullOrWhiteSpace(s[|r|..])
    ensures |r| == 0 || !IsWhiteSpace(r[|r| - 1])
  {
    if |s| > 0 && IsWhiteSpace(s[|s| - 1]) then TrimEnd(s[..|s| - 1]) else s
  }

  /**
    `s.Trim()`: the result has no white space at either end, is `s` itself
    when `s` is already trimmed, and is empty exactly for blank strings.
   */
  function Trim(s: string): (r: string)
    ensures IsTrimmed(r)
    ensures |r| <= |s|
    ensures IsTrimmed(s) ==> r == s
    ensures r == [] <==> IsNullOrWhiteSpace(s)
    ensures IsSliceBetweenBlanks(s, r)
  {
    var t := TrimStart(s);
    var r := TrimEnd(t);
    TrimmedEnds(t, r);
    BlankSuffix(s, t);
    BlankSuffix(t, r);
    TrimSlice(s, t, r);
    r
  }

  /** Cutting a blank prefix and then a blank suffix leaves a slice between blank ends. */
  lemma TrimSlice(s: string, t: string, r: string)
    requires |t| <= |s| && t == s[|s| - |t|..] && IsNullOrWhiteSpace(s[..|s| - |t|])
    requires |r| <= |t| && r == t[..|r|] && IsNullOrWhiteSpace(t[|r|..])
    ensures IsSliceBetweenBlanks(s, r)
  {
    var i := |s| - |t|;
    var j := i + |r|;
    assert r == s[i..j];
    assert s[j..] == t[|r|..];
  }

  /** A prefix of a string that starts with non-white space, ending in non-white space, is trimmed. */
  lemma TrimmedEnds(t: string, r: string)
    requires |t| == 0 || !IsWhiteSpace(t[0])
    requires |r| <= |t| && r == t[..|r|]
    requires |r| == 0 || !IsWhiteSpace(r[|r| - 1])
    ensures IsTrimmed(r)
  {
    if |r| > 0 {
      assert r[0] == t[0];
    }
  }

  /** A string is blank exactly when its blank part and the rest are, whichever is the prefix. */
  lemma BlankSuffix(s: string, t: string)
    requires |t| <= |s|
    requires (t == s[|s| - |t|..] && IsNullOrWhiteSpace(s[..|s| - |t|]))
          || (t == s[..|t|] && IsNullOrWhiteSpace(s[|t|..]))
    ensures IsNullOrWhiteSpace(s) <==> IsNullOrWhiteSpace(t)
  {
    if t == s[|s| - |t|..] && IsNullOrWhiteSpace(s[..|s| - |t|]) {
      assert s == s[..|s| - |t|] + t;
    } else {
      assert s == t + s[|t|..];
    }
  }

  /** Trimming discards leading white space in front of a trimmed string. */
  lemma TrimAfterWhiteSpace(w: string, t: string)
    requires IsNullOrWhiteSpace(w)
    requires IsTrimmed(t) && |t| > 0
    ensures Trim(w + t) == t
  {
    var s := w + t;
    var ts := TrimStart(s);
    assert s[|w|] == t[0];
    assert ts == t;
  }

  /** `Join(pieces, sep)`: the pieces with one `sep` between neighbours. */
  function Join(pieces: seq<string>, sep: char): string
  {
    if |pieces| == 0 then ""
    else if |pieces| == 1 then pieces[0]
    else pieces[0] + [sep] + Join(pieces[1..], sep)
  }

  /**
    The state of a left-to-right scan that cuts a string at every `sep`:
    the pieces already closed by a separator, and the piece still open.
   */
  datatype Cut = Cut(done: seq<string>, carry: string)

  const Fresh: Cut := Cut([], "")

  /** Scans `s`, closing the open piece at every separator. */
  function Feed(st: Cut, s: string, sep: char): (r: Cut)
    decreases |s|
  {
    if |s| == 0 then st
    else if s[0] == sep then Feed(Cut(st.done + [st.carry], ""), s[1..], sep)
    else Feed(Cut(st.done, st.carry + [s[0]]), s[1..], sep)
  }

  /**
    `s.Split(sep)`: the maximal `sep`-free pieces of `s`, one more than the
    number of separators. `JoinSplit` and `SplitJoin` show it is the
    inverse of `Join`.
   */
  function Split(s: string, sep: char): (pieces: seq<string>)
    ensures |pieces| >= 1
    ensures forall i | 0 <= i < |pieces| :: sep !in pieces[i]
  {
    var r := Feed(Fresh, s, sep);
    FeedKeepsPiecesFree(Fresh, s, sep);
    r.done + [r.carry]
  }

  predicate PiecesFree(st: Cut, sep: char)
  {
    sep !in st.carry && forall i | 0 <= i < |st.done| :: sep !in st.done[i]
  }

  lemma {:induction false} FeedKeepsPiecesFree(st: Cut, s: string, sep: char)
    requires PiecesFree(st, sep)
    ensures PiecesFree(Feed(st, s, sep), sep)
    decreases |s|
  {
    if |s| > 0 {
      if s[0] == sep {
        FeedKeepsPiecesFree(Cut(st.done + [st.carry], ""), s[1..], sep);
      } else {
        FeedKeepsPiecesFree(Cut(st.done, st.carry + [s[0]]), s[1..], sep);
      }
    }
  }

  /** Scanning `a + b` is scanning `a`, then `b`. */
  lemma {:induction false} FeedAppend(st: Cut, a: string, b: string, sep: char)
    ensures Feed(st, a + b, sep) == Feed(Feed(st, a, sep), b, sep)
    decreases |a|
  {
    if |a| > 0 {
      assert (a + b)[0] == a[0];
      assert (a + b)[1..] == a[1..] + b;
      if a[0] == sep {
        FeedAppend(Cut(st.done + [st.carry], ""), a[1..], b, sep);
      } else {
        FeedAppend(Cut(st.done, st.carry + [a[0]]), a[1..], b, sep);
      }
    } else {
      assert a + b == b;
    }
  }

  /** Pieces closed before a scan starts stay in front of the ones it closes. */
  lemma {:induction false} FeedKeepsDone(st: Cut, s: string, sep: char)
    ensures var r := Feed(Cut([], st.carry), s, sep);
      Feed(st, s, sep) == Cut(st.done + r.done, r.carry)
    decreases |s|
  {
    if |s| > 0 {
      var c := st.carry;
      if s[0] == sep {
        var r := Feed(Fresh, s[1..], sep);
        FeedKeepsDone(Cut(st.done + [c], ""), s[1..], sep);
        FeedKeepsDone(Cut([c], ""), s[1..], sep);
        assert Cut([], c).done + [c] == [c];
        assert st.done + [c] + r.done == st.done + ([c] + r.done);
      } else {
        FeedKeepsDone(Cut(st.done, c + [s[0]]), s[1..], sep);
        assert Feed(Cut([], c), s, sep) == Feed(Cut([], c + [s[0]]), s[1..], sep);
      }
    }
  }

  /** Without a separator, a scan only extends the open piece. */
  lemma {:induction false} FeedWithoutSeparator(st: Cut, w: string, sep: char)
    requires sep !in w
    ensures Feed(st, w, sep) == Cut(st.done, st.carry + w)
    decreases |w|
  {
    if |w| > 0 {
      FeedWithoutSeparator(Cut(st.done, st.carry + [w[0]]), w[1..], sep);
      assert st.carry + [w[0]] + w[1..] == st.carry + w;
    } else {
      assert st.carry + w == st.carry;
    }
  }

  /** A separator cuts the split into the split of either side. */
  lemma SplitAtSeparator(x: string, z: string, sep: char)
    ensures Split(x + [sep] + z, sep) == Split(x, sep) + Split(z, sep)
  {
    var a := Feed(Fresh, x, sep);
    var b := Feed(Fresh, z, sep);
    FeedAppend(Fresh, x + [sep], z, sep);
    FeedAppend(Fresh, x, [sep], sep);
    assert Feed(a, [sep], sep) == Cut(a.done + [a.carry], "");
    FeedKeepsDone(Cut(a.done + [a.carry], ""), z, sep);
    assert a.done + [a.carry] + b.done + [b.carry] == (a.done + [a.carry]) + (b.done + [b.carry]);
  }

  /** A separator-free string is its own single piece. */
  lemma SplitWithoutSeparator(w: string, sep: char)
    requires sep !in w
    ensures Split(w, sep) == [w]
  {
    FeedWithoutSeparator(Fresh, w, sep);
    assert Fresh.carry + w == w;
  }

  /** Splitting a join of separator-free pieces gives the pieces back. */
  lemma {:induction false} SplitJoin(pieces: seq<string>, sep: char)
    requires |pieces| >= 1
    requires forall i | 0 <= i < |pieces| :: sep !in pieces[i]
    ensures Split(Join(pieces, sep), sep) == pieces
  {
    SplitWithoutSeparator(pieces[0], sep);
    if |pieces| > 1 {
      SplitAtSeparator(pieces[0], Join(pieces[1..], sep), sep);
      SplitJoin(pieces[1..], sep);
      assert [pieces[0]] + pieces[1..] == pieces;
    }
  }

  /** Joining the pieces of a split gives back the string. */
  lemma JoinSplit(s: string, sep: char)
    ensures Join(Split(s, sep), sep) == s
  {
    JoinFeed(Fresh, s, sep);
    assert Join([""], sep) == "";
  }

  lemma {:induction false} JoinFeed(st: Cut, s: string, sep: char)
    ensures var r := Feed(st, s, sep);
      Join(r.done + [r.carry], sep) == Join(st.done + [st.carry], sep) + s
    decreases |s|
  {
    var before := Join(st.done + [st.carry], sep);
    if |s| == 0 {
      assert before + s == before;
    } else {
      var st' := if s[0] == sep then Cut(st.done + [st.carry], "") else Cut(st.done, st.carry + [s[0]]);
      assert Join(st'.done + [st'.carry], sep) == before + [s[0]] by {
        if s[0] == sep {
          JoinSnoc(st.done + [st.carry], "", sep);
        } else {
          JoinSnoc(st.done, st.carry + [s[0]], sep);
          JoinSnoc(st.done, st.carry, sep);
        }
      }
      JoinFeed(st', s[1..], sep);
      assert before + [s[0]] + s[1..] == before + s;
    }
  }

  lemma {:induction false} JoinSnoc(ps: seq<string>, p: string, sep: char)
    ensures Join(ps + [p], sep) == if |ps| == 0 then p else Join(ps, sep) + [sep] + p
  {
    if |ps| > 1 {
      assert (ps + [p])[1..] == ps[1..] + [p];
      JoinSnoc(ps[1..], p, sep);
    } else if |ps| == 1 {
      assert ps + [p] == [ps[0], p];
    } else {
      assert ps + [p] == [p];
    }
  }

  /**
    Splitting the open piece joined with the next block closes all but the
    last of its pieces and leaves the last one open.
   */
  lemma FeedBlock(done: seq<string>, carry: string, b: string, sep: char)
    requires sep !in carry
    ensures var lines := Split(carry + b, sep);
      Feed(Cut(done, carry), b, sep) == Cut(done + lines[..|lines| - 1], lines[|lines| - 1])
  {
    var r := Feed(Cut([], carry), b, sep);
    FeedAppend(Fresh, carry, b, sep);
    FeedWithoutSeparator(Fresh, carry, sep);
    assert Fresh.carry + carry == carry;
    FeedKeepsDone(Cut(done, carry), b, sep);
    var lines := r.done + [r.carry];
    assert lines[..|lines| - 1] == r.done;
  }

  /** The pieces closed before a scan are a prefix of the pieces of its result. */
  lemma FeedDonePrefix(st: Cut, s: string, sep: char)
    ensures var w := Feed(st, s, sep);
      |st.done| <= |w.done| && w.done[..|st.done|] == st.done
  {
    FeedKeepsDone(st, s, sep);
    var r := Feed(Cut([], st.carry), s, sep);
    assert (st.done + r.done)[..|st.done|] == st.done;
  }
}
