/** The front end's normalisation of the words and category names it receives:
    `word.trim().replace(/[\[\]\n]/g, '').toUpperCase()` for every word, `trim()` alone
    for a category name. */
module Cleaning {
  import opened Text
  import opened Categories

  /** The characters the regular expression `/[\[\]\n]/g` deletes. */
  const Delimiters: set<char> := {'[', ']', '\n'}

  predicate IsLowerAscii(c: char)
  {
    'a' <= c <= 'z'
  }

  /** `toUpperCase` on one character, for the ASCII letters. */
  function ToUpperAscii(c: char): (u: char)
    ensures !IsLowerAscii(u)
    ensures IsLowerAscii(c) ==> 'A' <= u <= 'Z' && u as int - 'A' as int == c as int - 'a' as int
    ensures !IsLowerAscii(c) ==> u == c
  {
    if IsLowerAscii(c) then (c as int - 32) as char else c
  }

  /** A word as it leaves the cleaner: no delimiter and no lower-case letter in it. */
  predicate IsClean(w: string)
  {
    forall k :: 0 <= k < |w| ==> w[k] !in Delimiters && !IsLowerAscii(w[k])
  }

  /** The delimiters deleted, every other character kept (`RemoveDelimitersCounts` and
      `RemoveDelimitersAppend` show how many and in which order). */
  function RemoveDelimiters(s: string): (r: string)
    ensures |r| <= |s|
    ensures forall k :: 0 <= k < |r| ==> r[k] !in Delimiters
  {
    if s == [] then []
    else (if s[0] in Delimiters then [] else [s[0]]) + RemoveDelimiters(s[1..])
  }

  /** Every character that is not a delimiter occurs as often after the deletion as before. */
  lemma {:induction false} RemoveDelimitersCounts(s: string, c: char)
    requires c !in Delimiters
    ensures multiset(RemoveDelimiters(s))[c] == multiset(s)[c]
  {
    if s != [] {
      RemoveDelimitersCounts(s[1..], c);
      assert s == [s[0]] + s[1..];
    }
  }

  /** Deleting delimiters works piece by piece, so the kept characters keep their order. */
  lemma {:induction false} RemoveDelimitersAppend(a: string, b: string)
    ensures RemoveDelimiters(a + b) == RemoveDelimiters(a) + RemoveDelimiters(b)
  {
    if a == [] {
      assert a + b == b;
    } else {
      assert (a + b)[0] == a[0];
      assert (a + b)[1..] == a[1..] + b;
      RemoveDelimitersAppend(a[1..], b);
    }
  }

  /** A string without delimiters goes through unchanged. */
  lemma {:induction false} RemoveDelimitersKeeps(s: string)
    requires forall k :: 0 <= k < |s| ==> s[k] !in Delimiters
    ensures RemoveDelimiters(s) == s
  {
    if s != [] {
      RemoveDelimitersKeeps(s[1..]);
    }
  }

  /** `toUpperCase` on a string, letter by letter. */
  function Upper(s: string): (r: string)
    ensures |r| == |s|
    ensures forall k :: 0 <= k < |s| ==> r[k] == ToUpperAscii(s[k])
  {
    seq(|s|, k requires 0 <= k < |s| => ToUpperAscii(s[k]))
  }

  /** The cleaning of one word: trimmed, delimiters deleted, upper-cased. */
  function CleanWord(w: string): (r: string)
    ensures IsClean(r)
    ensures |r| <= |w|
  {
    Upper(RemoveDelimiters(Strip(w, JsWhitespace)))
  }

  /** A word that is already clean and has no whitespace at either end is its own
      cleaning: cleaning the cleaner's own output of such words changes nothing. */
  lemma CleanWordKeepsCleanWords(w: string)
    requires IsClean(w)
    requires w == [] || (w[0] !in JsWhitespace && w[|w| - 1] !in JsWhitespace)
    ensures CleanWord(w) == w
  {
    RemoveDelimitersKeeps(w);
  }

  /** Trimming comes before the delimiters are deleted, so a bracketed word comes out as
      its upper-cased inside, whitespace at the ends of the inside included
      (`"[ apple ]"` becomes `" APPLE "`). */
  lemma CleanWordOfBracketed(inner: string)
    requires forall k :: 0 <= k < |inner| ==> inner[k] !in Delimiters
    ensures CleanWord("[" + inner + "]") == Upper(inner)
  {
    var w := "[" + inner + "]";
    assert w[0] == '[' && w[|w| - 1] == ']';
    assert '[' !in JsWhitespace && ']' !in JsWhitespace;
    assert Strip(w, JsWhitespace) == w;
    assert w == "[" + (inner + "]");
    RemoveDelimitersAppend("[", inner + "]");
    RemoveDelimitersAppend(inner, "]");
    RemoveDelimitersKeeps(inner);
    assert RemoveDelimiters("[") == [] && RemoveDelimiters("]") == [];
    assert RemoveDelimiters(w) == inner;
  }

  /** `ws.map(CleanWord)`: the same number of words, position by position. */
  function CleanWords(ws: seq<string>): (r: seq<string>)
    ensures |r| == |ws|
    ensures forall k :: 0 <= k < |ws| ==> r[k] == CleanWord(ws[k])
  {
    seq(|ws|, k requires 0 <= k < |ws| => CleanWord(ws[k]))
  }

  /** A category's name is only trimmed; its words are cleaned one for one. */
  function CleanCategory(c: Category): (r: Category)
    ensures r.name == Strip(c.name, JsWhitespace)
    ensures r.words == CleanWords(c.words)
  {
    Category(Strip(c.name, JsWhitespace), CleanWords(c.words))
  }

  /** `categories.map(CleanCategory)`: the same categories in the same order. */
  function CleanCategories(cs: seq<Category>): (r: seq<Category>)
    ensures |r| == |cs|
    ensures forall k :: 0 <= k < |cs| ==> r[k] == CleanCategory(cs[k])
  {
    seq(|cs|, k requires 0 <= k < |cs| => CleanCategory(cs[k]))
  }

  /** Every word the cleaner hands to the game, on the board or in a category, is clean,
      and the category names carry no whitespace at either end. */
  lemma CleanedPayloadIsClean(ws: seq<string>, cs: seq<Category>)
    ensures forall k :: 0 <= k < |ws| ==> IsClean(CleanWords(ws)[k])
    ensures forall i, k :: 0 <= i < |cs| && 0 <= k < |cs[i].words| ==>
              IsClean(CleanCategories(cs)[i].words[k])
    ensures forall i :: 0 <= i < |cs| ==> var n := CleanCategories(cs)[i].name;
              n == [] || (n[0] !in JsWhitespace && n[|n| - 1] !in JsWhitespace)
  {
  }

  lemma CleanWordsAppend(a: seq<string>, b: seq<string>)
    ensures CleanWords(a + b) == CleanWords(a) + CleanWords(b)
  {
    var l, r := CleanWords(a + b), CleanWords(a) + CleanWords(b);
    forall k | 0 <= k < |l|
      ensures l[k] == r[k]
    {
      if k < |a| {
        assert (a + b)[k] == a[k];
      } else {
        assert (a + b)[k] == b[k - |a|];
      }
    }
  }

  /** Cleaning commutes with flattening: the words of the cleaned categories are the
      cleaned words of the categories. */
  lemma {:induction false} CleanCommutesWithAllWords(cs: seq<Category>)
    ensures AllWords(CleanCategories(cs)) == CleanWords(AllWords(cs))
  {
    if cs != [] {
      CleanCommutesWithAllWords(cs[1..]);
      assert CleanCategories(cs)[1..] == CleanCategories(cs[1..]);
      CleanWordsAppend(cs[0].words, AllWords(cs[1..]));
    }
  }

  /** Cleaning two arrangements of the same words gives two arrangements of the same
      cleaned words. */
  lemma {:induction false} CleanWordsPreservesPermutation(a: seq<string>, b: seq<string>)
    requires multiset(a) == multiset(b)
    ensures multiset(CleanWords(a)) == multiset(CleanWords(b))
    decreases |a|
  {
    if a != [] {
      var x := a[0];
      assert x in multiset(b);
      var i :| 0 <= i < |b| && b[i] == x;
      var b' := b[..i] + b[i + 1..];
      assert b == b[..i] + [x] + b[i + 1..];
      assert a == [x] + a[1..];
      calc {
        multiset(a[1..]);
        multiset(a) - multiset{x};
        multiset(b) - multiset{x};
        { assert multiset(b) == multiset(b[..i]) + multiset{x} + multiset(b[i + 1..]); }
        multiset(b[..i]) + multiset(b[i + 1..]);
        multiset(b');
      }
      CleanWordsPreservesPermutation(a[1..], b');
      CleanWordsAppend([x], a[1..]);
      CleanWordsAppend(b[..i] + [x], b[i + 1..]);
      CleanWordsAppend(b[..i], [x]);
      CleanWordsAppend(b[..i], b[i + 1..]);
    }
  }
}
