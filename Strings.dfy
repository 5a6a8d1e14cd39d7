/** Python string operations used by the pipeline: `str.strip(c)`, `c.join(parts)`,
    `str.split(c)` and the substring test behind `p in s`. */
module Strings {

  predicate AllChar(s: string, c: char) {
    forall k :: 0 <= k < |s| ==> s[k] == c
  }

  /** `s.lstrip(c)`: drop every leading `c`. */
  function LStrip(s: string, c: char): string
    decreases |s|
  {
    if s != [] && s[0] == c then LStrip(s[1..], c) else s
  }

  /** `s.rstrip(c)`: drop every trailing `c`. */
  function RStrip(s: string, c: char): string
    decreases |s|
  {
    if s != [] && s[|s| - 1] == c then RStrip(s[..|s| - 1], c) else s
  }

  /** `s.strip(c)` for a one-character argument. */
  function Strip(s: string, c: char): string {
    LStrip(RStrip(s, c), c)
  }

  lemma {:induction false} LStripShape(s: string, c: char)
    ensures var r := LStrip(s, c);
      && |r| <= |s| && r == s[|s| - |r|..] && AllChar(s[..|s| - |r|], c)
      && (r == [] || r[0] != c)
    decreases |s|
  {
    if s != [] && s[0] == c {
      LStripShape(s[1..], c);
      var r := LStrip(s[1..], c);
      assert s[1..][|s| - 1 - |r|..] == s[|s| - |r|..];
      assert s[..|s| - |r|] == [s[0]] + s[1..][..|s| - 1 - |r|];
    }
  }

  lemma {:induction false} RStripShape(s: string, c: char)
    ensures var r := RStrip(s, c);
      && |r| <= |s| && r == s[..|r|] && AllChar(s[|r|..], c)
      && (r == [] || r[|r| - 1] != c)
    decreases |s|
  {
    if s != [] && s[|s| - 1] == c {
      var t := s[..|s| - 1];
      RStripShape(t, c);
      var r := RStrip(t, c);
      assert RStrip(s, c) == r;
      assert t[..|r|] == s[..|r|];
      assert s[|r|..] == t[|r|..] + [c];
      forall k | 0 <= k < |s[|r|..]| ensures s[|r|..][k] == c {
        if k < |t[|r|..]| {
          assert s[|r|..][k] == t[|r|..][k];
        }
      }
    }
  }

  lemma LStripKeepsLast(s: string, c: char)
    requires s == [] || s[|s| - 1] != c
    ensures var r := LStrip(s, c); r == [] || r[|r| - 1] != c
  {
    LStripShape(s, c);
  }

  /** `s.strip(c)` is the infix of `s` that remains after cutting a run of `c` off both ends,
      and it neither begins nor ends with `c`. */
  lemma StripShape(s: string, c: char)
    ensures var r := Strip(s, c);
      exists i, j :: 0 <= i <= j <= |s| && r == s[i..j] && AllChar(s[..i], c) && AllChar(s[j..], c)
    ensures var r := Strip(s, c); r == [] || (r[0] != c && r[|r| - 1] != c)
  {
    var t := RStrip(s, c);
    RStripShape(s, c);
    LStripShape(t, c);
    LStripKeepsLast(t, c);
    var r := LStrip(t, c);
    var i, j := |t| - |r|, |t|;
    assert r == s[i..j];
    assert s[..i] == t[..i];
  }

  /** A value that does not begin or end with `c` is left alone by `strip(c)`. */
  lemma StripStripped(s: string, c: char)
    requires s == [] || (s[0] != c && s[|s| - 1] != c)
    ensures Strip(s, c) == s
  {
  }

  /** `strip` is idempotent. */
  lemma StripIdempotent(s: string, c: char)
    ensures Strip(Strip(s, c), c) == Strip(s, c)
  {
    StripShape(s, c);
    StripStripped(Strip(s, c), c);
  }

  /** `sep.join(parts)` for a one-character separator. */
  function Join(parts: seq<string>, sep: char): string
    decreases |parts|
  {
    if |parts| == 0 then ""
    else if |parts| == 1 then parts[0]
    else parts[0] + [sep] + Join(parts[1..], sep)
  }

  /** A join begins with the first part's first character. */
  lemma JoinFirst(parts: seq<string>, sep: char)
    requires |parts| >= 1 && parts[0] != []
    ensures Join(parts, sep) != [] && Join(parts, sep)[0] == parts[0][0]
  {
  }

  /** A join ends with the last part's last character. */
  lemma {:induction false} JoinLast(parts: seq<string>, sep: char)
    requires |parts| >= 1 && parts[|parts| - 1] != []
    ensures var r := Join(parts, sep); r != [] && r[|r| - 1] == parts[|parts| - 1][|parts[|parts| - 1]| - 1]
    decreases |parts|
  {
    if |parts| > 1 {
      JoinLast(parts[1..], sep);
    }
  }

  /** A join begins with its first part and ends with its last. */
  lemma {:induction false} JoinEnds(parts: seq<string>, sep: char)
    requires |parts| >= 1
    ensures parts[0] <= Join(parts, sep)
    ensures var r, last := Join(parts, sep), parts[|parts| - 1];
      |last| <= |r| && r[|r| - |last|..] == last
    decreases |parts|
  {
    if |parts| > 1 {
      JoinEnds(parts[1..], sep);
      var r, rest := Join(parts, sep), Join(parts[1..], sep);
      assert r == parts[0] + [sep] + rest;
      assert r[|r| - |rest|..] == rest;
    }
  }

  /** `s.split(sep)` for a one-character separator: the pieces between separators, at least one. */
  function Split(s: string, sep: char): (r: seq<string>)
    ensures |r| >= 1
    ensures forall k :: 0 <= k < |r| ==> sep !in r[k]
    decreases |s|
  {
    if s == [] then [""]
    else if s[0] == sep then [""] + Split(s[1..], sep)
    else
      var rest := Split(s[1..], sep);
      [[s[0]] + rest[0]] + rest[1..]
  }

  lemma {:induction false} SplitNoSep(s: string, sep: char)
    requires sep !in s
    ensures Split(s, sep) == [s]
    decreases |s|
  {
    if s != [] {
      SplitNoSep(s[1..], sep);
      assert [s[0]] + s[1..] == s;
    }
  }

  /** Splitting at one separator splits the two sides independently. */
  lemma {:induction false} SplitAt(a: string, b: string, sep: char)
    ensures Split(a + [sep] + b, sep) == Split(a, sep) + Split(b, sep)
    decreases |a|
  {
    if a == [] {
      assert a + [sep] + b == [sep] + b;
      assert ([sep] + b)[1..] == b;
    } else {
      assert (a + [sep] + b)[1..] == a[1..] + [sep] + b;
      SplitAt(a[1..], b, sep);
      if a[0] == sep {
      } else {
        var rest := Split(a[1..], sep);
        var restB := Split(a[1..] + [sep] + b, sep);
        assert restB == rest + Split(b, sep);
        assert restB[0] == rest[0];
        assert restB[1..] == rest[1..] + Split(b, sep);
      }
    }
  }

  /** Joining pieces that contain no separator and splitting again gives the pieces back. */
  lemma {:induction false} SplitJoin(parts: seq<string>, sep: char)
    requires |parts| >= 1
    requires forall k :: 0 <= k < |parts| ==> sep !in parts[k]
    ensures Split(Join(parts, sep), sep) == parts
    decreases |parts|
  {
    if |parts| == 1 {
      SplitNoSep(parts[0], sep);
    } else {
      SplitJoin(parts[1..], sep);
      SplitAt(parts[0], Join(parts[1..], sep), sep);
      SplitNoSep(parts[0], sep);
      assert [parts[0]] + parts[1..] == parts;
    }
  }

  /** Splitting and joining again gives the original string back. */
  lemma {:induction false} JoinSplit(s: string, sep: char)
    ensures Join(Split(s, sep), sep) == s
    decreases |s|
  {
    if s != [] {
      JoinSplit(s[1..], sep);
      var rest := Split(s[1..], sep);
      if s[0] == sep {
        assert [s[0]] + s[1..] == s;
      } else {
        var r := [[s[0]] + rest[0]] + rest[1..];
        assert r[1..] == rest[1..];
        if |rest| > 1 {
          assert [rest[0]] + rest[1..] == rest;
        }
        assert [s[0]] + s[1..] == s;
      }
    }
  }

  /** `p in s` for two strings: `p` occurs in `s` as a contiguous infix. */
  predicate IsSubstring(p: string, s: string) {
    exists i :: 0 <= i <= |s| && OccursAt(p, s, i)
  }

  predicate OccursAt(p: string, s: string, i: nat) {
    i + |p| <= |s| && s[i..i + |p|] == p
  }
}
