/**
  The two `os.path` functions the upload handler calls, as they behave on a
  POSIX host (`posixpath`): `join` of two components and `splitext`.
*/
module PosixPath {
  import opened Wrappers
  import opened PyText

  /**
    `os.path.join(a, b)`: an absolute `b` replaces `a`; otherwise `b` is
    appended to `a`, with one `/` between them unless `a` is empty or
    already ends in `/`.
  */
  function Join(a: string, b: string): (r: string)
    ensures |b| <= |r| && r[|r| - |b|..] == b
    ensures |b| > 0 && b[0] == '/' ==> r == b
    ensures !(|b| > 0 && b[0] == '/') ==> |a| <= |r| && r[..|a|] == a
    ensures !(|b| > 0 && b[0] == '/') && |a| > 0 && a[|a| - 1] != '/' ==> r == a + "/" + b
  {
    if |b| > 0 && b[0] == '/' then b
    else if |a| == 0 || a[|a| - 1] == '/' then a + b
    else a + "/" + b
  }

  /** Every character of `s` is a `.`. */
  predicate AllDots(s: string)
  {
    forall c | c in s :: c == '.'
  }

  /**
    `str.rfind` as Python returns it: the index, or -1 when absent. This is
    `LastIndex` with -1 for `None`; it exists so that `SplitExt` can follow
    the `dotIndex > sepIndex` comparison of Python's `splitext` literally.
  */
  function RFind(s: string, c: char): (i: int)
    ensures -1 <= i < |s|
    ensures i == -1 <==> c !in s
    ensures i >= 0 ==> s[i] == c && c !in s[i + 1..]
  {
    match LastIndex(s, c)
    case None => -1
    case Some(k) => k
  }

  /**
    `os.path.splitext(p)`: the extension is the text from the last `.` of the
    last path component, provided that component has a character other than
    `.` before that dot (leading dots belong to the name, so `.pdf` has no
    extension); otherwise the extension is empty.
  */
  function SplitExt(p: string): (r: (string, string))
    ensures r.0 + r.1 == p
  {
    var sepIndex := RFind(p, '/');
    var dotIndex := RFind(p, '.');
    var cut := if dotIndex > sepIndex && !AllDots(p[sepIndex + 1..dotIndex]) then dotIndex else |p|;
    assert p[..cut] + p[cut..] == p;
    (p[..cut], p[cut..])
  }

  /** A non-empty extension: one leading `.`, then no `.` and no `/`. */
  predicate IsExtension(ext: string)
  {
    |ext| > 0 && ext[0] == '.' && '.' !in ext[1..] && '/' !in ext
  }

  /**
    `splitext` only cuts: root and extension put back together give the path,
    and the extension is empty or a `.` followed by neither `.` nor `/`.
  */
  lemma SplitExtParts(p: string)
    ensures SplitExt(p).0 + SplitExt(p).1 == p
    ensures SplitExt(p).1 == [] || IsExtension(SplitExt(p).1)
  {
    var sepIndex := RFind(p, '/');
    var dotIndex := RFind(p, '.');
    if dotIndex > sepIndex && !AllDots(p[sepIndex + 1..dotIndex]) {
      NoSeparatorAfterLast(p, '/', dotIndex);
      NoSeparatorAfterLast(p, '.', dotIndex + 1);
    }
  }

  /** Everything from position `k` on lies past the last `c`, so holds no `c`. */
  lemma NoSeparatorAfterLast(p: string, c: char, k: nat)
    requires RFind(p, c) < k <= |p|
    ensures c !in p[k..]
  {
    var i := RFind(p, c);
    if i >= 0 {
      assert p[k..] == p[i + 1..][k - i - 1..];
    }
  }

  /**
    A file name without `/` that ends in `.` + `ext` (no `.` in `ext`) and has a
    character other than `.` before that dot splits into `stem` and `.` + `ext`.
  */
  lemma {:induction false} SplitExtOfDottedName(stem: string, ext: string)
    requires '.' !in ext && '/' !in stem + "." + ext
    requires !AllDots(stem)
    ensures SplitExt(stem + "." + ext) == (stem, "." + ext)
  {
    var p := stem + "." + ext;
    assert RFind(p, '.') == |stem| by { LastIndexOfJoin(stem, '.', ext); }
    assert RFind(p, '/') == -1;
    assert !AllDots(p[0..|stem|]) by { assert p[0..|stem|] == stem; }
    assert SplitExt(p) == (p[..|stem|], p[|stem|..]);
    assert p[..|stem|] == stem;
    assert p[|stem|..] == "." + ext;
  }

  /** A file name without `/` whose characters before its last `.` are all dots has no extension. */
  lemma {:induction false} SplitExtOfLeadingDotName(p: string)
    requires '/' !in p && '.' in p
    requires AllDots(p[..RFind(p, '.')])
    ensures SplitExt(p) == (p, "")
  {
    assert p[..|p|] == p;
  }
}
