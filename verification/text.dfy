/** Python's `str.split(sep)` and `sep.join(parts)` for a one-character
    separator, and the first position of a character in a string. */
module Text {

  /** `sep.join(parts)`. */
  function Join(parts: seq<string>, sep: char): string
  {
    if |parts| == 0 then ""
    else if |parts| == 1 then parts[0]
    else parts[0] + [sep] + Join(parts[1..], sep)
  }

  /** `s.split(sep)`: the maximal pieces of `s` between occurrences of
      `sep`. Unlike the no-argument `split()`, runs of separators give empty
      pieces and the result is never empty (`"".split(" ") == [""]`). */
  function Split(s: string, sep: char): (parts: seq<string>)
    ensures |parts| >= 1
    ensures forall i :: 0 <= i < |parts| ==> sep !in parts[i]
    ensures Join(parts, sep) == s
  {
    if |s| == 0 then [""]
    else
      var tail := Split(s[1..], sep);
      if s[0] == sep then
        assert Join([""] + tail, sep) == [sep] + s[1..] by {
          assert ([""] + tail)[1..] == tail;
        }
        [""] + tail
      else
        var parts := [[s[0]] + tail[0]] + tail[1..];
        assert Join(parts, sep) == s by {
          assert parts[1..] == tail[1..];
          if |tail| > 1 {
            assert Join(tail, sep) == tail[0] + [sep] + Join(tail[1..], sep);
          }
        }
        parts
  }

  /** The position of the first `c` in `s`, or `|s|` when there is none. */
  function FirstIndex(s: string, c: char): (i: nat)
    ensures i <= |s|
    ensures c !in s[..i]
    ensures i < |s| ==> s[i] == c
    ensures i == |s| <==> c !in s
  {
    if |s| == 0 then 0
    else if s[0] == c then 0
    else
      var j := FirstIndex(s[1..], c);
      assert s[..j + 1] == [s[0]] + s[1..][..j];
      j + 1
  }

  /** A string with no separator splits into itself alone, and only such a
      string does. */
  lemma SplitSingle(s: string, sep: char)
    ensures |Split(s, sep)| == 1 <==> sep !in s
    ensures sep !in s ==> Split(s, sep) == [s]
  {
  }

  /** Splitting `token + sep + rest`, where `token` holds no separator, yields
      `token` followed by the pieces of `rest`. */
  lemma {:induction false} SplitAfterToken(token: string, rest: string, sep: char)
    requires sep !in token
    ensures Split(token + [sep] + rest, sep) == [token] + Split(rest, sep)
  {
    var s := token + [sep] + rest;
    if |token| == 0 {
      assert s == [sep] + rest;
      assert s[1..] == rest;
    } else {
      assert s[0] == token[0];
      assert s[1..] == token[1..] + [sep] + rest;
      SplitAfterToken(token[1..], rest, sep);
      assert token == [token[0]] + token[1..];
    }
  }

  /** Splitting undoes joining when no part holds the separator. */
  lemma {:induction false} SplitJoin(parts: seq<string>, sep: char)
    requires |parts| >= 1
    requires forall i :: 0 <= i < |parts| ==> sep !in parts[i]
    ensures Split(Join(parts, sep), sep) == parts
  {
    if |parts| == 1 {
      SplitSingle(parts[0], sep);
    } else {
      SplitAfterToken(parts[0], Join(parts[1..], sep), sep);
      SplitJoin(parts[1..], sep);
      assert parts == [parts[0]] + parts[1..];
    }
  }

  /** The first `c` in `a + [c] + b` is the one after `a` when `a` holds none. */
  lemma FirstIndexAfter(a: string, c: char, b: string)
    requires c !in a
    ensures FirstIndex(a + [c] + b, c) == |a|
    ensures (a + [c] + b)[..|a|] == a && (a + [c] + b)[|a| + 1..] == b
  {
    var s := a + [c] + b;
    var i := FirstIndex(s, c);
    assert s[|a|] == c;
    assert s[..|a|] == a && s[|a| + 1..] == b;
  }

  /** A separator-free token followed by the separator is determined by the
      string it starts. */
  lemma TokenUnique(a: string, b: string, c: string, d: string, sep: char)
    requires sep !in a && sep !in c
    requires a + [sep] + b == c + [sep] + d
    ensures a == c && b == d
  {
    FirstIndexAfter(a, sep, b);
    FirstIndexAfter(c, sep, d);
  }
}
