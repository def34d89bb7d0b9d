/** String operations the game relies on, written out as the two runtimes define them:
    stripping a set of characters from both ends (Python's `str.strip`, JavaScript's
    `String.prototype.trim`) and splitting on a separator (Python's `str.split(sep)`). */
module Text {

  /** The characters JavaScript's `trim` removes: the ECMAScript WhiteSpace and
      LineTerminator code points. */
  const JsWhitespace: set<char> :=
    {' ', '\t', '\n', '\r', '\U{000B}', '\U{000C}', '\U{00A0}', '\U{1680}',
     '\U{2000}', '\U{2001}', '\U{2002}', '\U{2003}', '\U{2004}', '\U{2005}',
     '\U{2006}', '\U{2007}', '\U{2008}', '\U{2009}', '\U{200A}',
     '\U{2028}', '\U{2029}', '\U{202F}', '\U{205F}', '\U{3000}', '\U{FEFF}'}

  /** The characters for which Python's `str.isspace` holds; `str.strip()` with no
      argument removes them. */
  const PyWhitespace: set<char> :=
    {' ', '\t', '\n', '\r', '\U{000B}', '\U{000C}', '\U{001C}', '\U{001D}',
     '\U{001E}', '\U{001F}', '\U{0085}', '\U{00A0}', '\U{1680}',
     '\U{2000}', '\U{2001}', '\U{2002}', '\U{2003}', '\U{2004}', '\U{2005}',
     '\U{2006}', '\U{2007}', '\U{2008}', '\U{2009}', '\U{200A}',
     '\U{2028}', '\U{2029}', '\U{202F}', '\U{205F}', '\U{3000}'}

  /** `s` without its longest prefix of characters from `junk`. */
  function StripLeft(s: string, junk: set<char>): (r: string)
    ensures |r| <= |s| && r == s[|s| - |r|..]
    ensures forall k :: 0 <= k < |s| - |r| ==> s[k] in junk
    ensures r == [] || r[0] !in junk
  {
    if s != [] && s[0] in junk then StripLeft(s[1..], junk) else s
  }

  /** `s` without its longest suffix of characters from `junk`. */
  function StripRight(s: string, junk: set<char>): (r: string)
    ensures |r| <= |s| && r == s[..|r|]
    ensures forall k :: |r| <= k < |s| ==> s[k] in junk
    ensures r == [] || r[|r| - 1] !in junk
  {
    if s != [] && s[|s| - 1] in junk then StripRight(s[..|s| - 1], junk) else s
  }

  /** Both ends stripped: the result neither starts nor ends with a `junk` character,
      and a string that already does not is returned as it is. */
  function Strip(s: string, junk: set<char>): (r: string)
    ensures |r| <= |s|
    ensures r == [] || (r[0] !in junk && r[|r| - 1] !in junk)
    ensures (s == [] || (s[0] !in junk && s[|s| - 1] !in junk)) ==> r == s
  {
    StripRight(StripLeft(s, junk), junk)
  }

  /** Stripping removes only `junk` characters, and only at the two ends: the result
      is the slice of `s` that starts at `i`. */
  lemma StripIsSlice(s: string, junk: set<char>) returns (i: nat)
    ensures i + |Strip(s, junk)| <= |s|
    ensures Strip(s, junk) == s[i..i + |Strip(s, junk)|]
    ensures forall k :: 0 <= k < i ==> s[k] in junk
    ensures forall k :: i + |Strip(s, junk)| <= k < |s| ==> s[k] in junk
  {
    var left := StripLeft(s, junk);
    var r := StripRight(left, junk);
    i := |s| - |left|;
    assert r == left[..|r|];
    assert left == s[i..];
    forall k | i + |r| <= k < |s|
      ensures s[k] in junk
    {
      assert s[k] == left[k - i];
    }
  }

  /** `s` has an occurrence of `sep` that starts at index `i`. */
  predicate OccursAt(s: string, sep: string, i: nat)
  {
    i + |sep| <= |s| && s[i..i + |sep|] == sep
  }

  /** Python's `s.split(sep)` for a non-empty `sep`: `s` is cut at every occurrence of
      `sep` met scanning from the left, occurrences not overlapping. */
  function Split(s: string, sep: string): (r: seq<string>)
    requires sep != []
    ensures |r| >= 1
    ensures |r[0]| <= |s| && r[0] == s[..|r[0]|]
    decreases |s|
  {
    if |s| < |sep| then [s]
    else if s[..|sep|] == sep then [[]] + Split(s[|sep|..], sep)
    else
      var rest := Split(s[1..], sep);
      [[s[0]] + rest[0]] + rest[1..]
  }

  /** Python's `sep.join(pieces)`. */
  function Join(pieces: seq<string>, sep: string): (r: string)
    ensures |pieces| == 1 ==> r == pieces[0]
  {
    if pieces == [] then []
    else if |pieces| == 1 then pieces[0]
    else pieces[0] + sep + Join(pieces[1..], sep)
  }

  /** Splitting loses nothing: joining the pieces with the separator gives back `s`. */
  lemma {:induction false} SplitJoin(s: string, sep: string)
    requires sep != []
    ensures Join(Split(s, sep), sep) == s
    decreases |s|
  {
    if |s| < |sep| {
    } else if s[..|sep|] == sep {
      var tail := Split(s[|sep|..], sep);
      SplitJoin(s[|sep|..], sep);
      var pieces: seq<string> := [[]] + tail;
      assert pieces[1..] == tail;
      calc {
        Join(pieces, sep);
        [] + sep + Join(tail, sep);
        sep + s[|sep|..];
        s;
      }
    } else {
      var rest := Split(s[1..], sep);
      SplitJoin(s[1..], sep);
      var head: string := [s[0]] + rest[0];
      var pieces: seq<string> := [head] + rest[1..];
      assert s == [s[0]] + s[1..];
      if |rest| > 1 {
        assert pieces[1..] == rest[1..];
        calc {
          Join(pieces, sep);
          head + sep + Join(rest[1..], sep);
          [s[0]] + (rest[0] + sep + Join(rest[1..], sep));
          [s[0]] + Join(rest, sep);
        }
      }
    }
  }

  /** No piece of a split holds the separator. */
  lemma {:induction false} SplitPiecesAreFree(s: string, sep: string, k: nat, i: nat)
    requires sep != []
    requires k < |Split(s, sep)|
    ensures !OccursAt(Split(s, sep)[k], sep, i)
    decreases |s|
  {
    if |s| < |sep| {
    } else if s[..|sep|] == sep {
      if k > 0 {
        SplitPiecesAreFree(s[|sep|..], sep, k - 1, i);
      }
    } else {
      var rest := Split(s[1..], sep);
      if k > 0 {
        SplitPiecesAreFree(s[1..], sep, k, i);
      } else if i > 0 {
        SplitPiecesAreFree(s[1..], sep, 0, i - 1);
        var p := [s[0]] + rest[0];
        if i + |sep| <= |p| {
          assert p[i..i + |sep|] == rest[0][i - 1..i - 1 + |sep|];
        }
      } else {
        var p := [s[0]] + rest[0];
        if |sep| <= |p| {
          assert p == s[..|p|];
          assert s[..|sep|] == p[..|sep|];
        }
      }
    }
  }

  /** Every piece but the last is followed by the separator in the input: the first
      piece and the separator form a prefix of `s`. */
  lemma {:induction false} SplitFirstCut(s: string, sep: string)
    requires sep != []
    requires |Split(s, sep)| >= 2
    ensures |Split(s, sep)[0]| + |sep| <= |s|
    ensures Split(s, sep)[0] + sep == s[..|Split(s, sep)[0]| + |sep|]
    decreases |s|
  {
    if s[..|sep|] != sep {
      var rest := Split(s[1..], sep);
      SplitFirstCut(s[1..], sep);
      assert s[1..][..|rest[0]| + |sep|] == s[1..|rest[0]| + |sep| + 1];
      assert [s[0]] + rest[0] + sep == [s[0]] + (rest[0] + sep);
    }
  }

  /** The cuts are the leftmost ones: no occurrence of the separator starts inside a
      piece that a cut ends, not even one that runs on into the separator after it. So
      a split is cut exactly where Python's `str.split` cuts. */
  lemma {:induction false} SplitCutsAreLeftmost(s: string, sep: string, k: nat, i: nat)
    requires sep != []
    requires k + 1 < |Split(s, sep)|
    requires i < |Split(s, sep)[k]|
    ensures !OccursAt(Split(s, sep)[k] + sep, sep, i)
    decreases |s|
  {
    if s[..|sep|] == sep {
      SplitCutsAreLeftmost(s[|sep|..], sep, k - 1, i);
    } else {
      var rest := Split(s[1..], sep);
      var p := [s[0]] + rest[0];
      if k > 0 {
        SplitCutsAreLeftmost(s[1..], sep, k, i);
      } else if i > 0 {
        SplitCutsAreLeftmost(s[1..], sep, 0, i - 1);
        assert (p + sep)[i..] == (rest[0] + sep)[i - 1..];
      } else {
        SplitFirstCut(s, sep);
        assert (p + sep)[..|sep|] == s[..|sep|];
      }
    }
  }

  /** Split on a single character, no piece holds that character. */
  lemma SplitOnCharPieces(s: string, c: char, k: nat)
    requires k < |Split(s, [c])|
    ensures c !in Split(s, [c])[k]
  {
    var p := Split(s, [c])[k];
    forall m | 0 <= m < |p|
      ensures p[m] != c
    {
      SplitPiecesAreFree(s, [c], k, m);
      assert p[m..m + 1] == [p[m]];
    }
  }

  /** Stripping adds no character. */
  lemma StripLacksChar(s: string, junk: set<char>, c: char)
    requires c !in s
    ensures c !in Strip(s, junk)
  {
    var i := StripIsSlice(s, junk);
    var r := Strip(s, junk);
    forall m | 0 <= m < |r|
      ensures r[m] != c
    {
      assert r[m] == s[i + m];
    }
  }
}
