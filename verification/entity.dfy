/**
  The record being sorted (`Entity` in DataProcessor/Entity.cs): a long
  `Number` and a `Text`, rendered as `"<Number>. <Text>"`, ordered by text
  under case-insensitive ordinal comparison and then by number.

  Case folding is ASCII upper-casing: the records the companion generator
  writes use only `A-Z`, `a-z` and the space. Text comparison returns
  -1, 0 or 1; the library call returns some integer of that sign, and only
  the sign is ever used.
 */
module Entities {
  import opened Results
  import opened Decimal
  import opened Strings

  datatype Entity = Entity(number: Int64, text: string)

  /** `Entity.ToString()`. */
  function Format(e: Entity): string
  {
    FormatInt64(e.number) + ". " + e.text
  }

  /**
    The first '.' of a rendered record is the one placed after the number,
    and what follows it is a space and the text.
   */
  lemma FormatLayout(e: Entity)
    ensures var n := FormatInt64(e.number); var line := Format(e);
      && IndexOf(line, '.') == |n|
      && line[..|n|] == n
      && line[|n| + 1..] == " " + e.text
  {
    var n := FormatInt64(e.number);
    assert '.' !in n by {
      assert forall i | 0 <= i < |n| :: n[i] != '.';
    }
    DotAfterNumber(n, e.text);
  }

  lemma DotAfterNumber(n: string, t: string)
    requires '.' !in n
    ensures var line := n + ". " + t;
      IndexOf(line, '.') == |n| && line[..|n|] == n && line[|n| + 1..] == " " + t
  {
    var line := n + ". " + t;
    assert line[..|n|] == n && line[|n|] == '.';
    IndexOfFirst(line, '.', |n|);
    assert line[|n| + 1..] == " " + t;
  }

  // ---------------------------------------------------------------------
  // Case-insensitive ordinal text comparison

  function UpperAscii(c: char): char
  {
    if 'a' <= c <= 'z' then (c as int - 32) as char else c
  }

  /** The text as the comparison sees it. */
  function Fold(s: string): (r: string)
    ensures |r| == |s|
    ensures forall i | 0 <= i < |s| :: r[i] == UpperAscii(s[i])
  {
    seq(|s|, i requires 0 <= i < |s| => UpperAscii(s[i]))
  }

  /** `Int64.CompareTo`, and the ordinal comparison of two code units. */
  function CompareNumber(x: int, y: int): (r: int)
    ensures r < 0 <==> x < y
    ensures r == 0 <==> x == y
    ensures -1 <= r <= 1
  {
    if x < y then -1 else if x > y then 1 else 0
  }

  /**
    `string.Compare(a, b, OrdinalIgnoreCase)`: the first position where the
    folded chars differ decides; otherwise the shorter string comes first.
   */
  function CompareText(a: string, b: string): (r: int)
    ensures -1 <= r <= 1
  {
    if |a| == 0 || |b| == 0 then CompareNumber(|a|, |b|)
    else if UpperAscii(a[0]) != UpperAscii(b[0]) then CompareNumber(UpperAscii(a[0]) as int, UpperAscii(b[0]) as int)
    else CompareText(a[1..], b[1..])
  }

  /** Length of the longest common prefix. */
  function CommonPrefix(x: string, y: string): (k: nat)
    ensures k <= |x| && k <= |y| && x[..k] == y[..k]
    ensures k < |x| && k < |y| ==> x[k] != y[k]
  {
    if |x| > 0 && |y| > 0 && x[0] == y[0] then
      var k := 1 + CommonPrefix(x[1..], y[1..]);
      assert x[..k] == [x[0]] + x[1..][..k - 1];
      assert y[..k] == [y[0]] + y[1..][..k - 1];
      k
    else 0
  }

  /** Lexicographic order: a proper prefix, or a smaller char at the first difference. */
  predicate LexLess(x: string, y: string)
  {
    var k := CommonPrefix(x, y);
    (k == |x| && k < |y|) || (k < |x| && k < |y| && x[k] < y[k])
  }

  lemma FoldTail(s: string)
    requires |s| > 0
    ensures Fold(s)[0] == UpperAscii(s[0]) && Fold(s)[1..] == Fold(s[1..])
  {
  }

  /**
    The text comparison is lexicographic order on folded texts: zero
    exactly for texts equal up to case, negative exactly when the folded
    first text sorts first.
   */
  lemma {:induction false} CompareTextIsFoldedOrder(a: string, b: string)
    ensures CompareText(a, b) == 0 <==> Fold(a) == Fold(b)
    ensures CompareText(a, b) < 0 <==> LexLess(Fold(a), Fold(b))
  {
    var x, y := Fold(a), Fold(b);
    if |a| == 0 || |b| == 0 {
      assert CommonPrefix(x, y) == 0;
    } else if UpperAscii(a[0]) != UpperAscii(b[0]) {
      assert x[0] != y[0];
      assert CommonPrefix(x, y) == 0;
    } else {
      FoldTail(a);
      FoldTail(b);
      CompareTextIsFoldedOrder(a[1..], b[1..]);
      assert CommonPrefix(x, y) == 1 + CommonPrefix(x[1..], y[1..]);
      assert x == [x[0]] + x[1..] && y == [y[0]] + y[1..];
    }
  }

  lemma {:induction false} CompareTextReflexive(a: string)
    ensures CompareText(a, a) == 0
  {
    if |a| > 0 {
      CompareTextReflexive(a[1..]);
    }
  }

  lemma {:induction false} CompareTextAntisymmetric(a: string, b: string)
    ensures CompareText(a, b) == -CompareText(b, a)
  {
    if |a| > 0 && |b| > 0 && UpperAscii(a[0]) == UpperAscii(b[0]) {
      CompareTextAntisymmetric(a[1..], b[1..]);
    }
  }

  lemma {:induction false} CompareTextTransitive(a: string, b: string, c: string)
    requires CompareText(a, b) <= 0 && CompareText(b, c) <= 0
    ensures CompareText(a, c) <= 0
    ensures CompareText(a, b) < 0 || CompareText(b, c) < 0 ==> CompareText(a, c) < 0
  {
    if |a| > 0 && |b| > 0 && |c| > 0
      && UpperAscii(a[0]) == UpperAscii(b[0]) && UpperAscii(b[0]) == UpperAscii(c[0])
    {
      CompareTextTransitive(a[1..], b[1..], c[1..]);
    }
  }

  // ---------------------------------------------------------------------
  // Entity.CompareTo

  /** `a.CompareTo(b)` for a non-null `b`. */
  function Compare(a: Entity, b: Entity): (r: int)
    ensures -1 <= r <= 1
  {
    var t := CompareText(a.text, b.text);
    if t != 0 then t else CompareNumber(a.number, b.number)
  }

  /**
    `Entity.CompareTo(other)`, where `None` stands for a null `other`: a
    null sorts after every record; otherwise the sign follows the sort key,
    folded text first and then the number.
   */
  function CompareTo(a: Entity, other: Option<Entity>): (r: int)
    ensures other.None? ==> r == -1
    ensures other.Some? ==> r == Compare(a, other.value)
    ensures other.Some? ==> var b := other.value;
      && (r < 0 <==> KeyLess(a, b))
      && (r == 0 <==> Fold(a.text) == Fold(b.text) && a.number == b.number)
      && (r > 0 <==> KeyLess(b, a))
  {
    match other
    case None => -1
    case Some(b) =>
      CompareIsKeyOrder(a, b);
      CompareIsKeyOrder(b, a);
      CompareAntisymmetric(a, b);
      Compare(a, b)
  }

  /** The sort key as an independent order: folded text first, then the number. */
  predicate KeyLess(a: Entity, b: Entity)
  {
    || LexLess(Fold(a.text), Fold(b.text))
    || (Fold(a.text) == Fold(b.text) && a.number < b.number)
  }

  /**
    The comparator decides by text when the texts differ up to case, and
    by number otherwise; it is negative exactly on `KeyLess` and zero
    exactly when text (up to case) and number agree.
   */
  lemma CompareIsKeyOrder(a: Entity, b: Entity)
    ensures CompareText(a.text, b.text) != 0 ==> Compare(a, b) == CompareText(a.text, b.text)
    ensures CompareText(a.text, b.text) == 0 ==> Compare(a, b) == CompareNumber(a.number, b.number)
    ensures Compare(a, b) < 0 <==> KeyLess(a, b)
    ensures Compare(a, b) == 0 <==> Fold(a.text) == Fold(b.text) && a.number == b.number
  {
    CompareTextIsFoldedOrder(a.text, b.text);
    if Fold(a.text) == Fold(b.text) {
      assert !LexLess(Fold(a.text), Fold(b.text));
    }
  }

  lemma CompareReflexive(a: Entity)
    ensures Compare(a, a) == 0
  {
    CompareTextReflexive(a.text);
  }

  lemma CompareAntisymmetric(a: Entity, b: Entity)
    ensures Compare(a, b) == -Compare(b, a)
  {
    CompareTextAntisymmetric(a.text, b.text);
  }

  lemma CompareTransitive(a: Entity, b: Entity, c: Entity)
    requires Compare(a, b) <= 0 && Compare(b, c) <= 0
    ensures Compare(a, c) <= 0
    ensures Compare(a, b) < 0 || Compare(b, c) < 0 ==> Compare(a, c) < 0
  {
    CompareTextAntisymmetric(a.text, b.text);
    CompareTextAntisymmetric(b.text, c.text);
    CompareTextTransitive(a.text, b.text, c.text);
    if CompareText(a.text, b.text) == 0 && CompareText(b.text, c.text) == 0 {
      CompareTextIsFoldedOrder(a.text, b.text);
      CompareTextIsFoldedOrder(b.text, c.text);
      CompareTextIsFoldedOrder(a.text, c.text);
    }
  }

  // ---------------------------------------------------------------------
  // Equals and GetHashCode

  /** `Entity.Equals(other)`: same text, char for char, and same number. */
  predicate Equals(a: Entity, other: Option<Entity>)
  {
    && other.Some?
    && a.text == other.value.text
    && CompareNumber(a.number, other.value.number) == 0
  }

  /** `Entity.GetHashCode()`: the hash of the text alone. */
  function HashCode(e: Entity, stringHash: string -> int): int
  {
    stringHash(e.text)
  }

  /** Equal entities sort together. */
  lemma EqualsImpliesCompareZero(a: Entity, b: Entity)
    requires Equals(a, Some(b))
    ensures Compare(a, b) == 0
  {
    CompareTextReflexive(a.text);
  }

  /** Equal entities have equal hash codes, whatever the string hash. */
  lemma EqualsImpliesSameHash(a: Entity, b: Entity, stringHash: string -> int)
    requires Equals(a, Some(b))
    ensures HashCode(a, stringHash) == HashCode(b, stringHash)
  {
  }

  /** The converse fails: `"5. Banana"` and `"5. banana"` compare equal but are not `Equals`. */
  lemma CaseVariantsCompareEqualButDiffer()
    ensures Compare(Entity(5, "Banana"), Entity(5, "banana")) == 0
    ensures !Equals(Entity(5, "Banana"), Some(Entity(5, "banana")))
  {
    var a, b := "Banana", "banana";
    assert a[1..] == b[1..];
    CompareTextReflexive(a[1..]);
    assert a != b by {
      assert a[0] != b[0];
    }
  }

  /** `"2. banana"` sorts before `"5. Banana"`: equal texts up to case, then the smaller number. */
  lemma CollationExample()
    ensures Compare(Entity(2, "banana"), Entity(5, "Banana")) < 0
  {
    var a, b := "banana", "Banana";
    assert a[1..] == b[1..];
    CompareTextReflexive(a[1..]);
  }
}
