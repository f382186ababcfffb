/** The tag-string codec of bookmarks/models.py: parse_tag_string turns a
    delimiter-separated string typed by the user into a list of tag names,
    and build_tag_string joins a list of names back into one string. */
module TagStrings {
  import opened Strings
  import opened KeySort

  /** The delimiter both functions use unless told otherwise. */
  const DefaultDelimiter: string := ","

  /** `[name for name in names if name]`: the pieces that are not empty, in
      their order. */
  function DropEmpty(pieces: seq<string>): (r: seq<string>)
    ensures "" !in r
    ensures forall x :: x in r <==> x in pieces && x != ""
    ensures forall x :: x != "" ==> multiset(r)[x] == multiset(pieces)[x]
    ensures "" !in pieces ==> r == pieces
  {
    if pieces == [] then []
    else
      assert pieces == [pieces[0]] + pieces[1..];
      (if pieces[0] == "" then [] else [pieces[0]]) + DropEmpty(pieces[1..])
  }

  /** The filter keeps the order of the pieces: for every key other than the
      empty one, the pieces with that lower-cased form appear in the result
      exactly as, and in the order, they appear in the input. */
  lemma {:induction false} DropEmptyKeepsOrder(pieces: seq<string>, k: string)
    requires k != ""
    ensures WithKey(DropEmpty(pieces), k) == WithKey(pieces, k)
  {
    if pieces != [] {
      var x, rest := pieces[0], pieces[1..];
      var head := if x == "" then [] else [x];
      DropEmptyKeepsOrder(rest, k);
      WithKeyAppend(head, DropEmpty(rest), k);
      assert WithKey(pieces, k) == (if Lower(x) == k then [x] else []) + WithKey(rest, k);
      if x == "" {
        assert Lower(x) == "";
      } else {
        assert head[1..] == [];
      }
    }
  }

  /** The pieces parse_tag_string sorts: the whole string stripped at its two
      ends, split on the delimiter, empty pieces dropped. */
  function Pieces(tagString: string, delimiter: string): (r: seq<string>)
    requires |delimiter| > 0
    ensures "" !in r
    ensures forall x :: x in r ==> x in Split(Strip(tagString), delimiter)
  {
    DropEmpty(Split(Strip(tagString), delimiter))
  }

  /** parse_tag_string as a value: an empty string gives no names; otherwise
      the pieces, stably sorted by their lower-cased form. */
  function Parse(tagString: string, delimiter: string): (r: seq<string>)
    requires |delimiter| > 0
    ensures tagString == "" ==> r == []
    ensures tagString != "" ==> |r| == |Pieces(tagString, delimiter)|
  {
    if tagString == "" then [] else SortByKey(Pieces(tagString, delimiter))
  }

  /** parse_tag_string as the source runs it: the list of pieces is built,
      then sorted in place. */
  method ParseTagString(tagString: string, delimiter: string) returns (names: seq<string>)
    requires |delimiter| > 0
    ensures names == Parse(tagString, delimiter)
  {
    if tagString == "" {
      return [];
    }
    var pieces := Pieces(tagString, delimiter);
    var a := new string[|pieces|](i => if 0 <= i < |pieces| then pieces[i] else "");
    assert a[..] == pieces;
    SortInPlace(a);
    names := a[..];
  }

  /** build_tag_string: `delimiter.join(names)`. */
  function BuildTagString(names: seq<string>, delimiter: string): (r: string)
    ensures |names| > 0 ==> |names[0]| <= |r| && r[..|names[0]|] == names[0]
  {
    if |names| == 0 then ""
    else if |names| == 1 then names[0]
    else names[0] + delimiter + BuildTagString(names[1..], delimiter)
  }

  /** Total number of characters in a list of names. */
  function TotalLength(names: seq<string>): nat {
    if names == [] then 0 else |names[0]| + TotalLength(names[1..])
  }

  lemma {:induction false} TotalLengthPrefix(names: seq<string>, i: nat)
    requires 0 < i <= |names|
    ensures TotalLength(names[..i]) == |names[0]| + TotalLength(names[1..][..i - 1])
  {
    assert names[..i][1..] == names[1..][..i - 1];
  }

  // ---------------------------------------------------------------------
  // Properties of parse_tag_string

  /** A falsy tag string, and one that is only whitespace, parse to no names. */
  lemma ParseBlank(tagString: string, delimiter: string)
    requires |delimiter| > 0
    requires forall i :: 0 <= i < |tagString| ==> IsSpace(tagString[i])
    ensures Parse(tagString, delimiter) == []
  {
    if tagString != "" {
      assert Strip(tagString) == "";
      assert Split("", delimiter) == [""];
    }
  }

  /** Only the two ends of the whole string matter to the stripping:
      parsing the stripped string gives the same names. */
  lemma ParseOfStripped(tagString: string, delimiter: string)
    requires |delimiter| > 0
    ensures Parse(Strip(tagString), delimiter) == Parse(tagString, delimiter)
  {
    var t := Strip(tagString);
    assert Strip(t) == t;
    if t == "" && tagString != "" {
      assert Split("", delimiter) == [""];
    }
  }

  /** Every parsed name is non-empty and free of the delimiter. */
  lemma ParseNamesClean(tagString: string, delimiter: string)
    requires |delimiter| > 0
    ensures forall x :: x in Parse(tagString, delimiter) ==> x != "" && !Contains(x, delimiter)
  {
    if tagString != "" {
      var p := Pieces(tagString, delimiter);
      SortByKeyPermutes(p);
      SplitPiecesFree(Strip(tagString), delimiter);
      forall x | x in Parse(tagString, delimiter)
        ensures x != "" && !Contains(x, delimiter)
      {
        assert x in multiset(SortByKey(p));
      }
    }
  }

  lemma PiecesOfEmpty(delimiter: string)
    requires |delimiter| > 0
    ensures Pieces("", delimiter) == []
  {
    assert Split("", delimiter) == [""];
  }

  /** The parsed names are the pieces, stably sorted: the same names with the
      same multiplicities, in non-decreasing key order, names with equal keys
      in the order they were typed, also relative to the split before the
      empty pieces are dropped. */
  lemma ParseSortsPieces(tagString: string, delimiter: string)
    requires |delimiter| > 0
    ensures var r, p := Parse(tagString, delimiter), Pieces(tagString, delimiter);
      && multiset(r) == multiset(p)
      && Sorted(r)
      && SameKeyOrder(r, p)
    ensures forall k :: k != "" ==>
      WithKey(Parse(tagString, delimiter), k) == WithKey(Split(Strip(tagString), delimiter), k)
  {
    var p := Pieces(tagString, delimiter);
    if tagString == "" {
      PiecesOfEmpty(delimiter);
    }
    SortByKeyPermutes(p);
    SortByKeySorted(p);
    SortByKeyStable(p);
    forall k | k != ""
      ensures WithKey(Parse(tagString, delimiter), k) == WithKey(Split(Strip(tagString), delimiter), k)
    {
      DropEmptyKeepsOrder(Split(Strip(tagString), delimiter), k);
    }
  }

  /** Whatever stable sort the runtime uses, the result is Parse's. */
  lemma ParseIsTheStableSort(tagString: string, delimiter: string, r: seq<string>)
    requires |delimiter| > 0
    requires Sorted(r) && SameKeyOrder(r, Pieces(tagString, delimiter))
    ensures r == Parse(tagString, delimiter)
  {
    if tagString == "" {
      PiecesOfEmpty(delimiter);
    }
    StableSortUnique(Pieces(tagString, delimiter), r);
  }

  // ---------------------------------------------------------------------
  // Properties of build_tag_string

  /** No names join to the empty string and one name joins to itself. */
  lemma BuildFewNames(delimiter: string, name: string)
    ensures BuildTagString([], delimiter) == ""
    ensures BuildTagString([name], delimiter) == name
  {
  }

  /** The joined string holds every name and a delimiter between each two. */
  lemma {:induction false} BuildLength(names: seq<string>, delimiter: string)
    requires |names| > 0
    ensures |BuildTagString(names, delimiter)| == TotalLength(names) + (|names| - 1) * |delimiter|
  {
    if |names| > 1 {
      BuildLength(names[1..], delimiter);
      assert (|names| - 1) * |delimiter| == (|names| - 2) * |delimiter| + |delimiter|;
    }
  }

  lemma SliceAfterPrefix(p: string, t: string, lo: nat, hi: nat)
    requires lo <= hi <= |t|
    ensures (p + t)[|p| + lo..|p| + hi] == t[lo..hi]
  {
  }

  /** The names appear in the built string in the given order: names[i]
      starts after the i names before it and i delimiters. */
  lemma {:induction false} BuildLayout(names: seq<string>, delimiter: string, i: nat)
    requires i < |names|
    ensures var r, o := BuildTagString(names, delimiter), TotalLength(names[..i]) + i * |delimiter|;
      o + |names[i]| <= |r| && r[o..o + |names[i]|] == names[i]
  {
    var r := BuildTagString(names, delimiter);
    if |names| > 1 {
      var x, rest := names[0], names[1..];
      var tail := BuildTagString(rest, delimiter);
      assert r == x + delimiter + tail;
      if i == 0 {
        assert names[..0] == [];
        assert r[..|x|] == x;
      } else {
        BuildLayout(rest, delimiter, i - 1);
        TotalLengthPrefix(names, i);
        var o' := TotalLength(rest[..i - 1]) + (i - 1) * |delimiter|;
        assert i * |delimiter| == (i - 1) * |delimiter| + |delimiter|;
        assert TotalLength(names[..i]) + i * |delimiter| == |x| + |delimiter| + o';
        assert names[i] == rest[i - 1];
        SliceAfterPrefix(x + delimiter, tail, o', o' + |names[i]|);
      }
    } else {
      assert names[..0] == [];
    }
  }

  /** A delimiter follows every name but the last. */
  lemma {:induction false} BuildDelimiterAfter(names: seq<string>, delimiter: string, i: nat)
    requires i + 1 < |names|
    ensures var r, e := BuildTagString(names, delimiter), TotalLength(names[..i + 1]) + i * |delimiter|;
      e + |delimiter| <= |r| && r[e..e + |delimiter|] == delimiter
  {
    var r, d := BuildTagString(names, delimiter), |delimiter|;
    var x, rest := names[0], names[1..];
    var tail := BuildTagString(rest, delimiter);
    var e := TotalLength(names[..i + 1]) + i * d;
    assert r == x + delimiter + tail;
    if i == 0 {
      assert names[..1] == [x] && [x][1..] == [];
      assert e == |x|;
      assert r[e..e + d] == delimiter;
    } else {
      BuildDelimiterAfter(rest, delimiter, i - 1);
      var e' := TotalLength(rest[..i]) + (i - 1) * d;
      assert e' + d <= |tail| && tail[e'..e' + d] == delimiter;
      TotalLengthPrefix(names, i + 1);
      MulStep(i, d);
      assert e == |x| + d + e';
      SliceAfterPrefix(x + delimiter, tail, e', e' + d);
      assert r[e..e + d] == tail[e'..e' + d];
    }
  }

  lemma MulStep(i: int, d: int)
    ensures i * d == (i - 1) * d + d
  {
  }

  /** The built string ends with the last name. */
  lemma {:induction false} BuildEndsWithLast(names: seq<string>, delimiter: string)
    requires |names| > 0
    ensures var r, last := BuildTagString(names, delimiter), names[|names| - 1];
      |last| <= |r| && r[|r| - |last|..] == last
  {
    if |names| > 1 {
      BuildEndsWithLast(names[1..], delimiter);
      var r, tail := BuildTagString(names, delimiter), BuildTagString(names[1..], delimiter);
      assert r == names[0] + delimiter + tail;
      assert r[|r| - |tail|..] == tail;
    }
  }

  // ---------------------------------------------------------------------
  // Round trips

  /** Joining after growing the first name by one character grows the
      joined string by that character. */
  lemma BuildGrowFirst(c: char, names: seq<string>, delimiter: string)
    requires |names| > 0
    ensures BuildTagString([[c] + names[0]] + names[1..], delimiter)
         == [c] + BuildTagString(names, delimiter)
  {
    var grown := [[c] + names[0]] + names[1..];
    assert grown[1..] == names[1..];
  }

  /** Splitting a string and joining the pieces gives the string back. */
  lemma {:induction false} BuildSplit(s: string, delimiter: string)
    requires |delimiter| > 0
    ensures BuildTagString(Split(s, delimiter), delimiter) == s
    decreases |s|
  {
    if |s| >= |delimiter| && s[..|delimiter|] == delimiter {
      var rest := s[|delimiter|..];
      var pieces := Split(rest, delimiter);
      calc {
        BuildTagString(Split(s, delimiter), delimiter);
        BuildTagString([""] + pieces, delimiter);
        { assert ([""] + pieces)[1..] == pieces; }
        "" + delimiter + BuildTagString(pieces, delimiter);
        { BuildSplit(rest, delimiter); }
        delimiter + rest;
        s;
      }
    } else if s != [] {
      var rest := Split(s[1..], delimiter);
      calc {
        BuildTagString(Split(s, delimiter), delimiter);
        BuildTagString([[s[0]] + rest[0]] + rest[1..], delimiter);
        { BuildGrowFirst(s[0], rest, delimiter); }
        [s[0]] + BuildTagString(rest, delimiter);
        { BuildSplit(s[1..], delimiter); }
        [s[0]] + s[1..];
        s;
      }
    }
  }

  /** A string without the (one-character) delimiter splits into itself. */
  lemma {:induction false} SplitWithoutDelimiter(s: string, delimiter: string)
    requires |delimiter| == 1 && delimiter[0] !in s
    ensures Split(s, delimiter) == [s]
  {
    if s != [] {
      SplitWithoutDelimiter(s[1..], delimiter);
      assert s[..1] == [s[0]];
      assert [s[0]] + s[1..] == s;
    }
  }

  /** A name followed by the (one-character) delimiter is cut off as the
      first piece. */
  lemma {:induction false} SplitAfterName(x: string, delimiter: string, rest: string)
    requires |delimiter| == 1 && delimiter[0] !in x
    ensures Split(x + delimiter + rest, delimiter) == [x] + Split(rest, delimiter)
  {
    var s := x + delimiter + rest;
    if x == [] {
      assert s == delimiter + rest && s[..1] == delimiter && s[1..] == rest;
    } else {
      var tail := x[1..] + delimiter + rest;
      calc {
        Split(s, delimiter);
        { assert s[..1] == [x[0]] && s[1..] == tail; }
        [[x[0]] + Split(tail, delimiter)[0]] + Split(tail, delimiter)[1..];
        { SplitAfterName(x[1..], delimiter, rest); }
        [[x[0]] + x[1..]] + Split(rest, delimiter);
        { assert [x[0]] + x[1..] == x; }
        [x] + Split(rest, delimiter);
      }
    }
  }

  /** Splitting a built string gives the names back, when there is at least
      one name, the delimiter is one character and no name contains it. */
  lemma {:induction false} SplitBuild(names: seq<string>, delimiter: string)
    requires |delimiter| == 1 && |names| > 0
    requires forall i :: 0 <= i < |names| ==> !Contains(names[i], delimiter)
    ensures Split(BuildTagString(names, delimiter), delimiter) == names
  {
    ContainsOneChar(names[0], delimiter);
    if |names| == 1 {
      SplitWithoutDelimiter(names[0], delimiter);
    } else {
      SplitBuild(names[1..], delimiter);
      SplitAfterName(names[0], delimiter, BuildTagString(names[1..], delimiter));
      assert names == [names[0]] + names[1..];
    }
  }

  /** With a longer delimiter the round trip can fail: neither "a" nor "b"
      holds "aa", yet "a" + "aa" + "b" splits at its first two characters. */
  lemma SplitBuildLongDelimiter()
    ensures !Contains("a", "aa") && !Contains("b", "aa")
    ensures Split(BuildTagString(["a", "b"], "aa"), "aa") == ["", "ab"]
  {
    var s := BuildTagString(["a", "b"], "aa");
    assert s == "aaab";
    assert s[..2] == "aa" && s[2..] == "ab";
    assert Split("", "aa") == [""];
    assert "b"[1..] == "" && ["b"[0]] + "" == "b";
    assert Split("b", "aa") == ["b"];
    assert "ab"[..2][1] != "aa"[1];
    assert "ab"[1..] == "b" && ["ab"[0]] + "b" == "ab";
    assert Split("ab", "aa") == ["ab"];
  }

  /** Parsing a built string gives its names stably sorted, when the names
      are non-empty and free of a one-character delimiter and the string has
      no whitespace at its two ends. */
  lemma ParseBuild(names: seq<string>, delimiter: string)
    requires |delimiter| == 1
    requires forall i :: 0 <= i < |names| ==> names[i] != "" && delimiter[0] !in names[i]
    requires names != [] ==> !IsSpace(names[0][0])
    requires names != [] ==> !IsSpace(names[|names| - 1][|names[|names| - 1]| - 1])
    ensures Parse(BuildTagString(names, delimiter), delimiter) == SortByKey(names)
  {
    if names != [] {
      var s := BuildTagString(names, delimiter);
      BuildLayout(names, delimiter, 0);
      assert names[..0] == [];
      BuildEndsWithLast(names, delimiter);
      assert s[0] == names[0][0];
      assert s[|s| - 1] == names[|names| - 1][|names[|names| - 1]| - 1];
      assert Strip(s) == s;
      forall i | 0 <= i < |names| ensures !Contains(names[i], delimiter) {
        ContainsOneChar(names[i], delimiter);
      }
      SplitBuild(names, delimiter);
      assert "" !in names;
    }
  }

  /** The round trip is exact when the names are already in key order. */
  lemma ParseBuildSorted(names: seq<string>, delimiter: string)
    requires |delimiter| == 1
    requires forall i :: 0 <= i < |names| ==> names[i] != "" && delimiter[0] !in names[i]
    requires names != [] ==> !IsSpace(names[0][0])
    requires names != [] ==> !IsSpace(names[|names| - 1][|names[|names| - 1]| - 1])
    requires Sorted(names)
    ensures Parse(BuildTagString(names, delimiter), delimiter) == names
  {
    ParseBuild(names, delimiter);
    SortByKeyOfSorted(names);
  }

  // ---------------------------------------------------------------------
  // Worked examples

  /** Three names where only the first two are out of key order are sorted
      by swapping those two. */
  lemma SortSwapFirstTwo(x: string, y: string, z: string)
    requires !KeyLe(x, y) && KeyLe(x, z)
    ensures SortByKey([x, y, z]) == [y, x, z]
  {
    SortByKeySnoc([], x);
    SortByKeySnoc([x], y);
    SortByKeySnoc([x, y], z);
    assert [] + [x] == [x] && [x] + [y] == [x, y] && [x, y] + [z] == [x, y, z];
    assert [y, x][..1] == [y];
  }

  lemma BuildThree(x: string, y: string, z: string, delimiter: string)
    ensures BuildTagString([x, y, z], delimiter) == x + delimiter + y + delimiter + z
  {
    assert [x, y, z][1..] == [y, z] && [y, z][1..] == [z];
    assert BuildTagString([y, z], delimiter) == y + delimiter + z;
    assert x + delimiter + (y + delimiter + z) == x + delimiter + y + delimiter + z;
  }

  lemma BuildMixedCase()
    ensures BuildTagString(["b", "a", "C"], ",") == "b,a,C"
  {
    BuildThree("b", "a", "C", ",");
  }

  lemma ParseMixedCaseUnsorted()
    ensures Parse("b,a,C", ",") == SortByKey(["b", "a", "C"])
  {
    BuildMixedCase();
    ParseBuild(["b", "a", "C"], ",");
  }

  /** Names are sorted ignoring case and keep their own case. */
  lemma ParseMixedCase()
    ensures Parse("b,a,C", ",") == ["a", "b", "C"]
  {
    calc {
      Parse("b,a,C", ",");
      { ParseMixedCaseUnsorted(); }
      SortByKey(["b", "a", "C"]);
      { assert !KeyLe("b", "a") && KeyLe("b", "C");
        SortSwapFirstTwo("b", "a", "C"); }
      ["a", "b", "C"];
    }
  }

  lemma StripInnerSpaces()
    ensures Strip(" a , ,b ") == "a , ,b"
  {
    assert " a , ,b " == " " + "a , ,b" + " ";
    StripPadding(" ", "a , ,b", " ");
  }

  lemma BuildInnerSpaces()
    ensures BuildTagString(["a ", " ", "b"], ",") == "a , ,b"
  {
    BuildThree("a ", " ", "b", ",");
  }

  lemma ParseInnerSpacesStripped()
    ensures Parse(" a , ,b ", ",") == Parse("a , ,b", ",")
  {
    StripInnerSpaces();
    ParseOfStripped(" a , ,b ", ",");
  }

  lemma ParseInnerSpacesUnsorted()
    ensures Parse("a , ,b", ",") == SortByKey(["a ", " ", "b"])
  {
    BuildInnerSpaces();
    ParseBuild(["a ", " ", "b"], ",");
  }

  /** Only the two ends of the whole string are stripped: the spaces next to
      the delimiters stay in the names, and a piece made of one space is kept. */
  lemma ParseKeepsInnerSpaces()
    ensures Parse(" a , ,b ", ",") == [" ", "a ", "b"]
  {
    calc {
      Parse(" a , ,b ", ",");
      { ParseInnerSpacesStripped(); }
      Parse("a , ,b", ",");
      { ParseInnerSpacesUnsorted(); }
      SortByKey(["a ", " ", "b"]);
      { assert !KeyLe("a ", " ") && KeyLe("a ", "b");
        SortSwapFirstTwo("a ", " ", "b"); }
      [" ", "a ", "b"];
    }
  }

  lemma SplitLeadingDelimiter()
    ensures Split(", a", ",") == ["", " a"]
  {
    assert BuildTagString(["", " a"], ",") == ", a";
    ContainsOneChar("", ",");
    ContainsOneChar(" a", ",");
    SplitBuild(["", " a"], ",");
  }

  lemma PiecesLeadingDelimiter()
    ensures Pieces(", a", ",") == [" a"]
  {
    calc {
      Pieces(", a", ",");
      DropEmpty(Split(Strip(", a"), ","));
      { assert Strip(", a") == ", a"; }
      DropEmpty(Split(", a", ","));
      { SplitLeadingDelimiter(); }
      DropEmpty(["", " a"]);
      { assert ["", " a"][1..] == [" a"]; }
      DropEmpty([" a"]);
      [" a"];
    }
  }

  lemma ParseLeadingDelimiter()
    ensures Parse(", a", ",") == [" a"]
  {
    PiecesLeadingDelimiter();
    SortByKeySnoc([], " a");
  }

  lemma ParseLeadingSpaceStripped()
    ensures Parse(" a", ",") == Parse("a", ",")
  {
    assert " a" == " " + "a" + "";
    StripPadding(" ", "a", "");
    ParseOfStripped(" a", ",");
  }

  lemma ParseOneName()
    ensures Parse("a", ",") == ["a"]
  {
    ParseBuild(["a"], ",");
    SortByKeySnoc([], "a");
  }

  lemma ParseLeadingSpace()
    ensures Parse(" a", ",") == ["a"]
  {
    ParseLeadingSpaceStripped();
    ParseOneName();
  }

  /** Parsing is lossy: a leading space that survives one parse is stripped
      by the next, so parsing a built parse can change the names. */
  lemma ParseBuildParseDiffers()
    ensures Parse(", a", ",") == [" a"]
    ensures Parse(BuildTagString(Parse(", a", ","), ","), ",") == ["a"]
  {
    ParseLeadingDelimiter();
    assert BuildTagString([" a"], ",") == " a";
    ParseLeadingSpace();
  }
}
