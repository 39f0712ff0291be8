/**
  The few Python `str` operations the upload handler relies on, over
  `string` (= `seq<char>`): the search for the last occurrence of a
  character, `s.rsplit(sep, 1)` for a one-character separator, and
  `s.lower()` restricted to ASCII letters.
*/
module PyText {
  import opened Wrappers

  /** Index of the last occurrence of `c` in `s` (`s.rfind(c)`, with `None` for -1). */
  function LastIndex(s: string, c: char): (r: Option<nat>)
    ensures r.None? <==> c !in s
    ensures r.Some? ==> r.value < |s| && s[r.value] == c && c !in s[r.value + 1..]
  {
    if |s| == 0 then None
    else if s[|s| - 1] == c then
      assert s[|s|..] == [];
      Some(|s| - 1)
    else
      var r := LastIndex(s[..|s| - 1], c);
      assert s == s[..|s| - 1] + [s[|s| - 1]];
      if r.Some? then
        assert s[r.value + 1..] == s[..|s| - 1][r.value + 1..] + [s[|s| - 1]];
        r
      else r
  }

  /**
    `s.rsplit(sep, 1)`: the whole string when `sep` does not occur, otherwise
    the text before and the text after the last `sep`.
  */
  function RSplitOnce(s: string, sep: char): (parts: seq<string>)
    ensures |parts| == 1 <==> sep !in s
    ensures |parts| == 1 ==> parts[0] == s
    ensures |parts| != 1 ==> |parts| == 2 && parts[0] + [sep] + parts[1] == s && sep !in parts[1]
  {
    match LastIndex(s, sep)
    case None => [s]
    case Some(i) =>
      assert s == s[..i] + [sep] + s[i + 1..];
      [s[..i], s[i + 1..]]
  }

  /** A string splits around its last `sep` in only one way. */
  lemma {:induction false} SplitAtLastUnique(a: string, b: string, x: string, y: string, sep: char)
    requires a + [sep] + b == x + [sep] + y
    requires sep !in b && sep !in y
    ensures a == x && b == y
  {
    var s := a + [sep] + b;
    assert (x + [sep] + y)[|x|] == sep;
    assert |x| <= |a| by {
      assert forall k | |a| < k < |s| :: s[k] == b[k - |a| - 1];
    }
    assert s[|a|] == sep;
    assert |a| <= |x| by {
      assert forall k | |x| < k < |s| :: s[k] == y[k - |x| - 1];
    }
    assert a == s[..|a|] && x == s[..|x|];
    assert b == s[|a| + 1..] && y == s[|x| + 1..];
  }

  /** In `a + [sep] + b` with no `sep` in `b`, the last `sep` is the one between them. */
  lemma {:induction false} LastIndexOfJoin(a: string, sep: char, b: string)
    requires sep !in b
    ensures LastIndex(a + [sep] + b, sep) == Some(|a|)
  {
    var s := a + [sep] + b;
    assert s[|a|] == sep;
    var i := LastIndex(s, sep).value;
    assert s == s[..i] + [sep] + s[i + 1..];
    SplitAtLastUnique(s[..i], s[i + 1..], a, b, sep);
  }

  /** `c.lower()` on ASCII: `A`..`Z` become `a`..`z`, every other character stays. */
  function LowerChar(c: char): (r: char)
    ensures 'A' <= c <= 'Z' ==> 'a' <= r <= 'z' && r as int - c as int == 32
    ensures !('A' <= c <= 'Z') ==> r == c
  {
    if 'A' <= c <= 'Z' then (c as int - 'A' as int + 'a' as int) as char else c
  }

  /** `s.lower()` on ASCII letters, character by character. */
  function LowerAscii(s: string): (r: string)
    ensures |r| == |s|
  {
    seq(|s|, i requires 0 <= i < |s| => LowerChar(s[i]))
  }
}
