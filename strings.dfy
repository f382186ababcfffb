/** The Python string primitives the tag-string codec is built from:
    whitespace stripping (str.strip), lower-casing (str.lower), the order
    Python uses to compare strings, substring search and str.split.
    A `string` is a sequence of Unicode scalar values, as a Python str is a
    sequence of code points. */
module Strings {

  /** The characters for which Python's str.isspace holds, which are the
      characters str.strip() removes when called without arguments. */
  predicate IsSpace(c: char) {
    || ('\U{9}' <= c <= '\U{D}')
    || ('\U{1C}' <= c <= '\U{20}')
    || c == '\U{85}' || c == '\U{A0}' || c == '\U{1680}'
    || ('\U{2000}' <= c <= '\U{200A}')
    || c == '\U{2028}' || c == '\U{2029}' || c == '\U{202F}'
    || c == '\U{205F}' || c == '\U{3000}'
  }

  /** The ASCII blanks are whitespace; the tag delimiter, digits and ASCII
      letters are not. */
  lemma IsSpaceAscii(c: char)
    ensures c == ' ' || c == '\t' || c == '\n' || c == '\r' ==> IsSpace(c)
    ensures IsSpace(c) ==> c != ',' && !('0' <= c <= '9') && !('A' <= c <= 'Z') && !('a' <= c <= 'z')
  {
  }

  /** str.lstrip(): drops the leading whitespace and nothing else. */
  function StripLeft(s: string): (r: string)
    ensures |r| <= |s| && r == s[|s| - |r|..]
    ensures forall i :: 0 <= i < |s| - |r| ==> IsSpace(s[i])
    ensures r == [] || !IsSpace(r[0])
  {
    if s != [] && IsSpace(s[0]) then StripLeft(s[1..]) else s
  }

  /** str.rstrip(): drops the trailing whitespace and nothing else. */
  function StripRight(s: string): (r: string)
    ensures |r| <= |s| && r == s[..|r|]
    ensures forall i :: |r| <= i < |s| ==> IsSpace(s[i])
    ensures r == [] || !IsSpace(r[|r| - 1])
  {
    if s != [] && IsSpace(s[|s| - 1]) then StripRight(s[..|s| - 1]) else s
  }

  /** str.strip(): whitespace is removed at the two ends of the whole string;
      characters inside it are kept as they are. */
  function Strip(s: string): (r: string)
    ensures r == [] || (!IsSpace(r[0]) && !IsSpace(r[|r| - 1]))
    ensures r == [] <==> forall i :: 0 <= i < |s| ==> IsSpace(s[i])
    ensures s == [] || (!IsSpace(s[0]) && !IsSpace(s[|s| - 1])) ==> r == s
  {
    var l := StripLeft(s);
    var r := StripRight(l);
    assert l != [] ==> l[0] == s[|s| - |l|] && r != [] && r[0] == l[0];
    r
  }

  /** Whitespace around a string whose two ends are not whitespace is
      exactly what str.strip() removes. */
  lemma {:induction false} StripPadding(lead: string, m: string, trail: string)
    requires forall i :: 0 <= i < |lead| ==> IsSpace(lead[i])
    requires forall i :: 0 <= i < |trail| ==> IsSpace(trail[i])
    requires m != [] && !IsSpace(m[0]) && !IsSpace(m[|m| - 1])
    ensures Strip(lead + m + trail) == m
  {
    assert lead + m + trail == lead + (m + trail);
    StripLeftPadding(lead, m + trail);
    StripRightPadding(m, trail);
  }

  lemma {:induction false} StripLeftPadding(lead: string, rest: string)
    requires forall i :: 0 <= i < |lead| ==> IsSpace(lead[i])
    requires rest != [] && !IsSpace(rest[0])
    ensures StripLeft(lead + rest) == rest
  {
    if lead != [] {
      var s := lead + rest;
      assert s[0] == lead[0];
      assert s[1..] == lead[1..] + rest;
      StripLeftPadding(lead[1..], rest);
    }
  }

  lemma {:induction false} StripRightPadding(m: string, trail: string)
    requires forall i :: 0 <= i < |trail| ==> IsSpace(trail[i])
    requires m != [] && !IsSpace(m[|m| - 1])
    ensures StripRight(m + trail) == m
  {
    if trail != [] {
      calc {
        StripRight(m + trail);
        StripRight((m + trail)[..|m + trail| - 1]);
        { assert (m + trail)[..|m + trail| - 1] == m + trail[..|trail| - 1]; }
        StripRight(m + trail[..|trail| - 1]);
        { StripRightPadding(m, trail[..|trail| - 1]); }
        m;
      }
    }
  }

  /** str.lower() on one character. Only the ASCII letters are mapped. */
  function LowerChar(c: char): char {
    if 'A' <= c <= 'Z' then (c as int + 32) as char else c
  }

  /** str.lower(), character by character. */
  function Lower(s: string): (r: string)
    ensures |r| == |s|
    ensures forall i :: 0 <= i < |s| ==> !('A' <= r[i] <= 'Z')
    ensures forall i :: 0 <= i < |s| && !('A' <= s[i] <= 'Z') ==> r[i] == s[i]
    ensures forall i :: 0 <= i < |s| && 'A' <= s[i] <= 'Z' ==> r[i] as int == s[i] as int - 'A' as int + 'a' as int
  {
    seq(|s|, i requires 0 <= i < |s| => LowerChar(s[i]))
  }

  /** Two characters that are equal, or the same ASCII letter in the two cases. */
  predicate SameIgnoringCase(c: char, d: char) {
    c == d
    || ('A' <= c <= 'Z' && d as int == c as int + 32)
    || ('A' <= d <= 'Z' && c as int == d as int + 32)
  }

  /** Strings that differ only in the case of ASCII letters have the same key. */
  lemma LowerIgnoresCase(s: string, t: string)
    requires |s| == |t|
    requires forall i :: 0 <= i < |s| ==> SameIgnoringCase(s[i], t[i])
    ensures Lower(s) == Lower(t)
  {
  }

  /** Python's `a <= b` on str: lexicographic by code point, a proper prefix
      coming first. */
  predicate LexLe(a: string, b: string)
    ensures a <= b ==> LexLe(a, b)
  {
    a == [] || (b != [] && (a[0] < b[0] || (a[0] == b[0] && LexLe(a[1..], b[1..]))))
  }

  /** The first differing code point decides the order. */
  lemma {:induction false} LexLeFirstDifference(a: string, b: string, i: nat)
    requires i < |a| && i < |b| && a[..i] == b[..i] && a[i] != b[i]
    ensures LexLe(a, b) <==> a[i] < b[i]
  {
    if i > 0 {
      assert a[0] == a[..i][0] && b[0] == b[..i][0];
      assert a[1..][..i - 1] == a[..i][1..] && b[1..][..i - 1] == b[..i][1..];
      LexLeFirstDifference(a[1..], b[1..], i - 1);
    }
  }

  lemma {:induction false} LexLeReflexive(a: string)
    ensures LexLe(a, a)
  {
    if a != [] {
      LexLeReflexive(a[1..]);
    }
  }

  lemma {:induction false} LexLeTotal(a: string, b: string)
    ensures LexLe(a, b) || LexLe(b, a)
  {
    if a != [] && b != [] && a[0] == b[0] {
      LexLeTotal(a[1..], b[1..]);
    }
  }

  lemma {:induction false} LexLeTransitive(a: string, b: string, c: string)
    requires LexLe(a, b) && LexLe(b, c)
    ensures LexLe(a, c)
  {
    if a != [] && b != [] && c != [] && a[0] == b[0] == c[0] {
      LexLeTransitive(a[1..], b[1..], c[1..]);
    }
  }

  lemma {:induction false} LexLeAntisymmetric(a: string, b: string)
    requires LexLe(a, b) && LexLe(b, a)
    ensures a == b
  {
    if a != [] && b != [] {
      LexLeAntisymmetric(a[1..], b[1..]);
      assert a == [a[0]] + a[1..] && b == [b[0]] + b[1..];
    }
  }

  /** The separator occurs in s starting at index i. */
  predicate OccursAt(s: string, sep: string, i: nat) {
    i + |sep| <= |s| && s[i..i + |sep|] == sep
  }

  /** `sep in s`: the separator occurs somewhere in s. */
  predicate Contains(s: string, sep: string) {
    exists i: nat | i <= |s| :: OccursAt(s, sep, i)
  }

  /** For a one-character separator, occurring is being one of the characters. */
  lemma ContainsOneChar(s: string, sep: string)
    requires |sep| == 1
    ensures Contains(s, sep) <==> sep[0] in s
  {
    if sep[0] in s {
      var i :| 0 <= i < |s| && s[i] == sep[0];
      assert OccursAt(s, sep, i);
    }
  }

  /** str.split(sep) for a non-empty separator: the string is scanned from
      the left and cut at every non-overlapping occurrence of sep; the pieces
      between the cuts are returned, empty ones included. */
  function Split(s: string, sep: string): (r: seq<string>)
    requires |sep| > 0
    ensures |r| >= 1
    ensures |r[0]| <= |s| && r[0] == s[..|r[0]|]
    decreases |s|
  {
    if |s| >= |sep| && s[..|sep|] == sep then [""] + Split(s[|sep|..], sep)
    else if s == [] then [""]
    else
      var rest := Split(s[1..], sep);
      [[s[0]] + rest[0]] + rest[1..]
  }

  /** A prefix of s that does not start with sep, one character longer
      than a piece free of sep, is itself free of sep. */
  lemma ExtendFree(s: string, p: string, sep: string)
    requires |sep| > 0 && |p| < |s| && s[1..|p| + 1] == p
    requires !(|s| >= |sep| && s[..|sep|] == sep)
    requires !Contains(p, sep)
    ensures !Contains(s[..|p| + 1], sep)
  {
    var first := s[..|p| + 1];
    forall i: nat | i <= |first| ensures !OccursAt(first, sep, i) {
      if i == 0 {
        if |sep| <= |first| {
          assert first[..|sep|] == s[..|sep|];
        }
      } else if i + |sep| <= |first| {
        var here, there := first[i..i + |sep|], p[i - 1..i - 1 + |sep|];
        forall k | 0 <= k < |sep| ensures here[k] == there[k] {
          assert p[i - 1 + k] == s[1..|p| + 1][i - 1 + k];
        }
        assert here == there;
        assert !OccursAt(p, sep, i - 1);
      }
    }
  }

  /** No piece of a split holds the separator. */
  lemma {:induction false} SplitPiecesFree(s: string, sep: string)
    requires |sep| > 0
    ensures forall p :: p in Split(s, sep) ==> !Contains(p, sep)
    decreases |s|
  {
    if |s| >= |sep| && s[..|sep|] == sep {
      SplitPiecesFree(s[|sep|..], sep);
    } else if s != [] {
      var rest := Split(s[1..], sep);
      SplitPiecesFree(s[1..], sep);
      assert rest[0] in rest;
      ExtendFree(s, rest[0], sep);
      assert [s[0]] + rest[0] == s[..|rest[0]| + 1];
      assert Split(s, sep) == [[s[0]] + rest[0]] + rest[1..];
    }
  }
}
