/**
 * The parts of Go's `strings` package that the core relies on: `Split` and
 * `Join` with a one-character separator, and `ToLower` restricted to ASCII.
 * A Dafny `char` stands for one byte of a Go string.
 */
module Text {

  /** The pieces of `s` between occurrences of `sep`, as `strings.Split` gives them. */
  function Split(s: string, sep: char): (pieces: seq<string>)
    ensures |pieces| >= 1
    decreases |s|
  {
    if |s| == 0 then [""]
    else
      var rest := Split(s[1..], sep);
      if s[0] == sep then [""] + rest
      else [[s[0]] + rest[0]] + rest[1..]
  }

  /** The pieces glued together with `sep` between neighbours, as `strings.Join` does. */
  function Join(parts: seq<string>, sep: char): string
  {
    if |parts| == 0 then ""
    else if |parts| == 1 then parts[0]
    else parts[0] + [sep] + Join(parts[1..], sep)
  }

  /** ASCII lowercasing of one character; every other character is left alone. */
  function LowerChar(c: char): (l: char)
    ensures 'A' <= c <= 'Z' ==> l as int == c as int + 32
    ensures !('A' <= c <= 'Z') ==> l == c
    ensures !('A' <= l <= 'Z')
  {
    if 'A' <= c <= 'Z' then (c as int + 32) as char else c
  }

  function ToLower(s: string): (r: string)
    ensures |r| == |s|
    ensures forall i :: 0 <= i < |s| ==> r[i] == LowerChar(s[i])
  {
    if |s| == 0 then "" else [LowerChar(s[0])] + ToLower(s[1..])
  }

  lemma ToLowerIdempotent(s: string)
    ensures ToLower(ToLower(s)) == ToLower(s)
  {
  }

  lemma ToLowerAppend(a: string, b: string)
    ensures ToLower(a + b) == ToLower(a) + ToLower(b)
  {
    assert forall i :: 0 <= i < |a + b| ==> ToLower(a + b)[i] == (ToLower(a) + ToLower(b))[i];
  }

  /** Lowercasing neither creates nor removes spaces. */
  lemma ToLowerKeepsSpaces(s: string)
    ensures ' ' in ToLower(s) <==> ' ' in s
  {
    var l := ToLower(s);
    if ' ' in l {
      var i :| 0 <= i < |l| && l[i] == ' ';
      assert s[i] == ' ';
    }
    if ' ' in s {
      var i :| 0 <= i < |s| && s[i] == ' ';
      assert l[i] == ' ';
    }
  }

  /** A string without `sep` is one piece. */
  lemma {:induction false} SplitWithoutSep(s: string, sep: char)
    requires sep !in s
    ensures Split(s, sep) == [s]
    decreases |s|
  {
    if |s| > 0 {
      SplitWithoutSep(s[1..], sep);
      assert [s[0]] + s[1..] == s;
    }
  }

  /** Splitting at the first separator: the first piece is `a`, the rest splits on its own. */
  lemma {:induction false} SplitAfterFirst(a: string, b: string, sep: char)
    requires sep !in a
    ensures Split(a + [sep] + b, sep) == [a] + Split(b, sep)
    decreases |a|
  {
    if |a| == 0 {
      assert a + [sep] + b == [sep] + b;
      assert ([sep] + b)[1..] == b;
    } else {
      SplitAfterFirst(a[1..], b, sep);
      assert (a + [sep] + b)[1..] == a[1..] + [sep] + b;
      assert [a[0]] + a[1..] == a;
    }
  }

  /** Join and Split are inverse when no part contains the separator. */
  lemma {:induction false} SplitJoin(parts: seq<string>, sep: char)
    requires |parts| >= 1
    requires forall i :: 0 <= i < |parts| ==> sep !in parts[i]
    ensures Split(Join(parts, sep), sep) == parts
    decreases |parts|
  {
    if |parts| == 1 {
      SplitWithoutSep(parts[0], sep);
    } else {
      SplitJoin(parts[1..], sep);
      SplitAfterFirst(parts[0], Join(parts[1..], sep), sep);
      assert [parts[0]] + parts[1..] == parts;
    }
  }

  /**
   * The first piece of a split is the text before the first separator:
   * a prefix of `s` without `sep`, followed in `s` by `sep` unless it is all of `s`.
   */
  lemma {:induction false} SplitFirstPiece(s: string, sep: char)
    ensures var w := Split(s, sep)[0];
      && |w| <= |s| && w == s[..|w|] && sep !in w
      && (|w| < |s| ==> s[|w|] == sep)
    decreases |s|
  {
    if |s| > 0 && s[0] != sep {
      SplitFirstPiece(s[1..], sep);
    }
  }
}
