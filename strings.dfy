/** Python string operations the services rely on: `str.split` with a
    one-character separator and its inverse `str.join`, and the facts about
    concatenation that decide when two built strings are equal. */
module Strings {

  /** `sep.join(parts)`. */
  function Join(parts: seq<string>, sep: char): string
    requires |parts| >= 1
  {
    if |parts| == 1 then parts[0] else parts[0] + [sep] + Join(parts[1..], sep)
  }

  /** `s.split(sep)`: the maximal separator-free pieces between separators; an
      empty string and adjacent separators give empty pieces. */
  function Split(s: string, sep: char): (parts: seq<string>)
    ensures |parts| >= 1
    ensures forall i :: 0 <= i < |parts| ==> sep !in parts[i]
    ensures Join(parts, sep) == s
    decreases |s|
  {
    if s == [] then
      [[]]
    else
      var rest := Split(s[1..], sep);
      if s[0] == sep then
        [[]] + rest
      else
        assert Join(rest, sep) == rest[0] + (if |rest| == 1 then [] else [sep] + Join(rest[1..], sep));
        assert ([[s[0]] + rest[0]] + rest[1..])[1..] == rest[1..];
        assert s == [s[0]] + s[1..];
        [[s[0]] + rest[0]] + rest[1..]
  }

  /** A string splits into more than one piece exactly when it holds the separator. */
  lemma SplitHasSeveralPieces(s: string, sep: char)
    ensures |Split(s, sep)| >= 2 <==> sep in s
    decreases |s|
  {
  }

  /** A separator-free prefix joins the first piece. */
  lemma {:induction false} SplitFreePrefix(a: string, t: string, sep: char)
    requires sep !in a
    ensures Split(a + t, sep) == [a + Split(t, sep)[0]] + Split(t, sep)[1..]
    decreases |a|
  {
    if a != [] {
      var s := a + t;
      assert s[0] == a[0] && s[0] != sep;
      assert s[1..] == a[1..] + t;
      SplitFreePrefix(a[1..], t, sep);
      var rest := Split(s[1..], sep);
      assert rest == [a[1..] + Split(t, sep)[0]] + Split(t, sep)[1..];
      assert rest[0] == a[1..] + Split(t, sep)[0] && rest[1..] == Split(t, sep)[1..];
      assert Split(s, sep) == [[s[0]] + rest[0]] + rest[1..];
      assert [a[0]] + (a[1..] + Split(t, sep)[0]) == a + Split(t, sep)[0];
    } else {
      assert a + t == t;
      assert a + Split(t, sep)[0] == Split(t, sep)[0];
      assert Split(t, sep) == [Split(t, sep)[0]] + Split(t, sep)[1..];
    }
  }

  /** Text made of `a`, the separator, `b` and nothing or a further separator
      has `b` as its second piece. */
  lemma SecondPiece(a: string, b: string, rest: string, sep: char)
    requires sep !in a && sep !in b
    requires rest == [] || rest[0] == sep
    ensures |Split(a + [sep] + b + rest, sep)| >= 2
    ensures Split(a + [sep] + b + rest, sep)[1] == b
  {
    var tail := [sep] + (b + rest);
    assert a + [sep] + b + rest == a + tail;
    FirstPieceAfterSeparator(b, rest, sep);
    SplitFreePrefix(a, tail, sep);
  }

  /** After a leading separator, the next piece is the separator-free `b`. */
  lemma FirstPieceAfterSeparator(b: string, rest: string, sep: char)
    requires sep !in b
    requires rest == [] || rest[0] == sep
    ensures |Split([sep] + (b + rest), sep)| >= 2
    ensures Split([sep] + (b + rest), sep)[1] == b
  {
    var tail := [sep] + (b + rest);
    assert tail[1..] == b + rest;
    LeadingSeparator(tail, sep);
    FirstPiece(b, rest, sep);
  }

  /** The first piece of `b + rest` is `b` when `rest` is empty or starts a new piece. */
  lemma FirstPiece(b: string, rest: string, sep: char)
    requires sep !in b
    requires rest == [] || rest[0] == sep
    ensures Split(b + rest, sep)[0] == b
  {
    SplitFreePrefix(b, rest, sep);
    if rest != [] {
      LeadingSeparator(rest, sep);
    }
  }

  /** A leading separator closes an empty first piece. */
  lemma LeadingSeparator(s: string, sep: char)
    requires |s| > 0 && s[0] == sep
    ensures Split(s, sep) == [[]] + Split(s[1..], sep)
  {
  }

  /** Two strings that share a prefix are equal exactly when what follows it is. */
  lemma PrefixCancel(p: string, x: string, y: string)
    ensures p + x == p + y <==> x == y
  {
    if p + x == p + y {
      assert x == (p + x)[|p|..];
      assert y == (p + y)[|p|..];
    }
  }

  /** Joining a separator-free head to a tail that starts with that separator
      can be undone: the first separator marks where the head ends. */
  lemma HeadAtFirstSeparator(a1: string, b1: string, a2: string, b2: string, sep: char)
    requires sep !in a1 && sep !in a2
    requires |b1| > 0 && b1[0] == sep && |b2| > 0 && b2[0] == sep
    ensures a1 + b1 == a2 + b2 <==> a1 == a2 && b1 == b2
  {
    if a1 + b1 == a2 + b2 {
      var s := a1 + b1;
      FirstSeparatorAt(a1, b1, sep);
      FirstSeparatorAt(a2, b2, sep);
      assert |a1| == |a2|;
      assert a1 == s[..|a1|] == a2;
      assert b1 == s[|a1|..] == b2;
    }
  }

  /** The first separator of `a + b` is the one that starts `b`. */
  lemma FirstSeparatorAt(a: string, b: string, sep: char)
    requires sep !in a && |b| > 0 && b[0] == sep
    ensures (a + b)[|a|] == sep
    ensures forall i :: 0 <= i < |a| ==> (a + b)[i] != sep
  {
  }
}
