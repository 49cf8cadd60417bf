/**
 * The few operations on `str` that the pattern compiler relies on:
 * counting a character, and `str::split` on a single character with its
 * inverse, joining the pieces back with that character.
 */
module Str {

  /** Number of occurrences of `c` in `s`. */
  function Count(c: char, s: string): (n: nat)
    ensures n <= |s|
    ensures n == 0 <==> c !in s
  {
    if s == [] then 0 else (if s[0] == c then 1 else 0) + Count(c, s[1..])
  }

  lemma {:induction false} CountAppend(c: char, a: string, b: string)
    ensures Count(c, a + b) == Count(c, a) + Count(c, b)
  {
    if a != [] {
      assert (a + b)[1..] == a[1..] + b;
      CountAppend(c, a[1..], b);
    } else {
      assert a + b == b;
    }
  }

  /** The pieces glued back together with `sep` between neighbours. */
  function Join(parts: seq<string>, sep: char): string
    requires |parts| > 0
  {
    if |parts| == 1 then parts[0] else parts[0] + [sep] + Join(parts[1..], sep)
  }

  lemma JoinTwo(parts: seq<string>, sep: char)
    requires |parts| == 2
    ensures Join(parts, sep) == parts[0] + [sep] + parts[1]
  {
    assert Join(parts[1..], sep) == parts[1];
  }

  /**
   * `s.split(sep)`: the maximal pieces of `s` between occurrences of `sep`,
   * empty pieces included, so that there is always one piece more than there
   * are separators.
   */
  function Split(s: string, sep: char): (parts: seq<string>)
    ensures |parts| > 0
  {
    if s == [] then [[]]
    else
      var tail := Split(s[1..], sep);
      if s[0] == sep then [[]] + tail else [[s[0]] + tail[0]] + tail[1..]
  }

  /** There is one piece more than there are separators. */
  lemma {:induction false} SplitCount(s: string, sep: char)
    ensures |Split(s, sep)| == Count(sep, s) + 1
  {
    if s != [] {
      SplitCount(s[1..], sep);
    }
  }

  /** No piece holds the separator. */
  lemma {:induction false} SplitPiecesFree(s: string, sep: char)
    ensures forall i :: 0 <= i < |Split(s, sep)| ==> sep !in Split(s, sep)[i]
  {
    if s != [] {
      var tail := Split(s[1..], sep);
      SplitPiecesFree(s[1..], sep);
      if s[0] != sep {
        var parts := Split(s, sep);
        assert parts == [[s[0]] + tail[0]] + tail[1..];
        assert forall i :: 1 <= i < |parts| ==> parts[i] == tail[i];
      }
    }
  }

  /** Putting `c` in front of the first piece puts it in front of the joined text. */
  lemma JoinPrepend(c: char, parts: seq<string>, sep: char)
    requires |parts| > 0
    ensures Join([[c] + parts[0]] + parts[1..], sep) == [c] + Join(parts, sep)
  {
    var glued := [[c] + parts[0]] + parts[1..];
    assert glued[0] == [c] + parts[0] && glued[1..] == parts[1..];
  }

  /** Joining the pieces back with the separator gives the string that was split. */
  lemma {:induction false} SplitJoin(s: string, sep: char)
    ensures Join(Split(s, sep), sep) == s
  {
    if s != [] {
      var tail := Split(s[1..], sep);
      SplitJoin(s[1..], sep);
      assert s == [s[0]] + s[1..];
      if s[0] == sep {
        assert Split(s, sep) == [[]] + tail;
        assert (([[]] + tail)[1..]) == tail;
      } else {
        JoinPrepend(s[0], tail, sep);
      }
    }
  }

  /** Text that splits into two pieces is those pieces around the separator; neither holds the separator. */
  lemma SplitTwo(s: string, sep: char) returns (x: string, y: string)
    requires |Split(s, sep)| == 2
    ensures Split(s, sep) == [x, y]
    ensures s == x + [sep] + y
    ensures sep !in x && sep !in y
  {
    var parts := Split(s, sep);
    x, y := parts[0], parts[1];
    SplitJoin(s, sep);
    SplitPiecesFree(s, sep);
    JoinTwo(parts, sep);
  }

  /**
   * A string with exactly one separator in it is cut at that separator
   * in one way only.
   */
  lemma CutUnique(x: string, y: string, u: string, v: string, sep: char)
    requires sep !in x && sep !in u
    requires x + [sep] + y == u + [sep] + v
    ensures x == u && y == v
  {
    var s := x + [sep] + y;
    assert s[|x|] == sep && s[|u|] == sep;
    assert forall i :: 0 <= i < |x| ==> s[i] == x[i];
    assert forall i :: 0 <= i < |u| ==> s[i] == u[i];
    assert |x| == |u|;
    assert x == s[..|x|] == u;
    assert y == s[|x| + 1..] == v;
  }

  /** Splitting `x + [sep] + y` where neither side holds `sep` gives back `[x, y]`. */
  lemma SplitAtOnly(x: string, y: string, sep: char)
    requires sep !in x && sep !in y
    ensures Split(x + [sep] + y, sep) == [x, y]
  {
    var s := x + [sep] + y;
    CountAppend(sep, x + [sep], y);
    CountAppend(sep, x, [sep]);
    assert Count(sep, [sep]) == 1;
    var parts := Split(s, sep);
    SplitCount(s, sep);
    SplitJoin(s, sep);
    SplitPiecesFree(s, sep);
    assert |parts| == 2;
    assert Join(parts, sep) == parts[0] + [sep] + parts[1];
    CutUnique(parts[0], parts[1], x, y, sep);
  }
}
