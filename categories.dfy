/** Categories as both front ends and the back end exchange them (`{category, words}`
    objects), and the searches over a list of categories that the front ends perform. */
module Categories {
  import opened Wrappers

  /** One category of the puzzle: its display name and its member words. */
  datatype Category = Category(name: string, words: seq<string>)

  /** No element occurs twice. */
  predicate NoDup<T(==)>(s: seq<T>)
  {
    forall i, j :: 0 <= i < j < |s| ==> s[i] != s[j]
  }

  /** `selection.every(word => c.words.includes(word))`: every selected word is one of
      the category's words. This is inclusion, not equality of the two collections. */
  predicate Covers(c: Category, selection: seq<string>)
  {
    forall w :: w in selection ==> w in c.words
  }

  /** Some category of `cats` has `w` among its words
      (`cats.some(cat => cat.words.includes(w))`). */
  predicate InSomeCategory(cats: seq<Category>, w: string)
  {
    exists c :: c in cats && w in c.words
  }

  /** `cats.find(c => Covers(c, selection))`, as an index: the first category that
      covers the selection, or None when none does. */
  function FirstMatch(cats: seq<Category>, selection: seq<string>): (r: Option<nat>)
    ensures r.Some? ==> r.value < |cats| && Covers(cats[r.value], selection)
    ensures r.Some? ==> forall k :: 0 <= k < r.value ==> !Covers(cats[k], selection)
    ensures r.None? <==> forall k :: 0 <= k < |cats| ==> !Covers(cats[k], selection)
  {
    if cats == [] then None
    else if Covers(cats[0], selection) then Some(0)
    else match FirstMatch(cats[1..], selection)
      case None => None
      case Some(k) => Some(k + 1)
  }

  /** The word list the back end builds from its categories
      (`[word for cat in categories for word in cat['words']]`): every category's words,
      in category order. */
  function AllWords(cats: seq<Category>): (r: seq<string>)
    ensures |r| == TotalWords(cats)
  {
    if cats == [] then [] else cats[0].words + AllWords(cats[1..])
  }

  /** The sum of the categories' word counts. */
  function TotalWords(cats: seq<Category>): nat
  {
    if cats == [] then 0 else |cats[0].words| + TotalWords(cats[1..])
  }

  /** Flattening distributes over concatenation of category lists. */
  lemma {:induction false} AllWordsAppend(a: seq<Category>, b: seq<Category>)
    ensures AllWords(a + b) == AllWords(a) + AllWords(b)
  {
    if a == [] {
      assert a + b == b;
    } else {
      assert (a + b)[1..] == a[1..] + b;
      AllWordsAppend(a[1..], b);
    }
  }

  /** A word is in the flattened list exactly when it is a word of one of the categories. */
  lemma {:induction false} AllWordsMembers(cats: seq<Category>, w: string)
    ensures w in AllWords(cats) <==> InSomeCategory(cats, w)
  {
    if cats != [] {
      AllWordsMembers(cats[1..], w);
      if InSomeCategory(cats[1..], w) {
        var c :| c in cats[1..] && w in c.words;
        assert c in cats;
      }
      if InSomeCategory(cats, w) && w !in cats[0].words {
        var c :| c in cats && w in c.words;
        assert c in cats[1..];
      }
    }
  }
}
