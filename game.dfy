/** The round state machine of the Connections game front end: the board, the categories,
    the player's selection, the categories found so far, the tries left and the game-over
    flag, changed one event at a time by the component's handlers. Each handler, together
    with the game-over effect it triggers, is one atomic step. */
module ConnectionsGame {
  import opened Wrappers
  import opened Categories
  import Cleaning
  import Shuffling

  /** Tries a round starts with. */
  const MaxTries := 4
  /** Selection size at which the selection is checked. */
  const GroupSize := 4
  /** Found categories that win the round. */
  const CategoriesToWin := 4

  /** The message line, as a tag rather than its text. */
  datatype Message =
    | NoMessage
    | CategoryFound(name: string)
    | NoMatch
    | OutOfTries
    | AllMatched

  /** The decoded reply of the back end: its categories and its shuffled word list. */
  datatype Payload = Payload(categories: seq<Category>, shuffledWords: seq<string>)

  /** The style class of a word button. */
  datatype ButtonClass = Plain | Selected | Found

  /** What a click on a word button asks for. */
  datatype Click = Select | Deselect

  /** Everything the grid needs to draw one word: its class, whether the button is
      disabled, the index of the category whose colour it takes, and its click action. */
  datatype WordView = WordView(cls: ButtonClass, disabled: bool, colorIndex: Option<nat>, onClick: Click)

  /** `selected.filter(w => w != x)`. */
  function Without(s: seq<string>, x: string): (r: seq<string>)
    ensures x !in r
    ensures forall y :: y in r <==> y in s && y != x
    ensures NoDup(s) ==> NoDup(r)
  {
    if s == [] then []
    else if s[0] == x then Without(s[1..], x)
    else
      var rest := Without(s[1..], x);
      assert NoDup(s) ==> NoDup(s[1..]) && s[0] !in s[1..] by {
        if NoDup(s) {
          forall j | 0 <= j < |s| - 1
            ensures s[1..][j] != s[0]
          {
            assert s[1..][j] == s[j + 1];
          }
        }
      }
      assert NoDup(s) ==> NoDup([s[0]] + rest) by {
        if NoDup(s) {
          var r := [s[0]] + rest;
          forall i, j | 0 <= i < j < |r| ensures r[i] != r[j] {
            if i == 0 {
              assert r[j] in rest;
            } else {
              assert r[i] == rest[i - 1] && r[j] == rest[j - 1];
            }
          }
        }
      }
      [s[0]] + rest
  }

  /** On a selection without duplicates, deselecting removes exactly the one occurrence
      of the word and keeps the others in their order. */
  lemma {:induction false} WithoutRemovesOne(s: seq<string>, i: nat)
    requires NoDup(s) && i < |s|
    ensures Without(s, s[i]) == s[..i] + s[i + 1..]
  {
    if i == 0 {
      WithoutAbsent(s[1..], s[0]);
    } else {
      assert NoDup(s[1..]);
      WithoutRemovesOne(s[1..], i - 1);
      assert s[1..][i - 1] == s[i];
      assert s[1..][..i - 1] == s[1..i];
      assert s[1..][i..] == s[i + 1..];
      assert [s[0]] + s[1..i] == s[..i];
    }
  }

  /** Deselecting a word that is not selected changes nothing. */
  lemma {:induction false} WithoutAbsent(s: seq<string>, x: string)
    requires x !in s
    ensures Without(s, x) == s
  {
    if s != [] {
      WithoutAbsent(s[1..], x);
      assert s == [s[0]] + s[1..];
    }
  }

  class Game {
    var board: seq<string>
    var categories: seq<Category>
    var selected: seq<string>
    var found: seq<Category>
    var triesLeft: int
    var gameOver: bool
    var message: Message

    /** What holds between handlers and also in the middle of `selectWord`, once the
        fourth word has been appended and before it is checked. */
    ghost predicate Consistent()
      reads this
    {
      && 0 <= triesLeft <= MaxTries
      && |found| <= CategoriesToWin
      && (gameOver <==> triesLeft == 0 || |found| == CategoriesToWin)
      && NoDup(selected)
      && (forall w :: w in selected ==> !InSomeCategory(found, w))
      && NoDup(found)
      && (forall c :: c in found ==> c in categories)
    }

    /** The state invariant: the selection is short of a full group and is empty once
        the game is over. */
    ghost predicate Valid()
      reads this
    {
      Consistent() && |selected| < GroupSize && (gameOver ==> selected == [])
    }

    /** A selection of the word is refused: the game is over, the word is selected
        already, or the word belongs to a found category. */
    predicate Blocked(word: string)
      reads this
    {
      gameOver || word in selected || InSomeCategory(found, word)
    }

    /** The state after the selection `sel` has been checked against the categories,
        starting from `found0` and `tries0`, and after the game-over effect. */
    ghost predicate Evaluated(sel: seq<string>, found0: seq<Category>, tries0: int)
      reads this
    {
      && selected == []
      && (match FirstMatch(categories, sel)
          case Some(k) =>
            && found == found0 + [categories[k]]
            && triesLeft == tries0
            && message == (if |found| == CategoriesToWin then AllMatched else CategoryFound(categories[k].name))
          case None =>
            && found == found0
            && triesLeft == tries0 - 1
            && message == (if triesLeft == 0 then OutOfTries else NoMatch))
      && (gameOver <==> triesLeft == 0 || |found| == CategoriesToWin)
    }

    /** The initial state of the component. */
    constructor ()
      ensures Valid()
      ensures board == [] && categories == [] && selected == [] && found == []
      ensures triesLeft == MaxTries && !gameOver && message == NoMessage
    {
      board, categories, selected, found := [], [], [], [];
      triesLeft, gameOver, message := MaxTries, false, NoMessage;
    }

    /** The effect keyed on the tries and the found categories: out of tries or all
        categories found ends the game; winning is announced last, so it prevails. */
    method GameOverEffect()
      modifies this`gameOver, this`message
      ensures gameOver == (old(gameOver) || triesLeft == 0 || |found| == CategoriesToWin)
      ensures message == (if |found| == CategoriesToWin then AllMatched
                          else if triesLeft == 0 then OutOfTries
                          else old(message))
    {
      if triesLeft == 0 {
        gameOver := true;
        message := OutOfTries;
      }
      if |found| == CategoriesToWin {
        gameOver := true;
        message := AllMatched;
      }
    }

    /** Starting a game: the round state is reset and the cleaned payload is stored.
        When the payload's word list is an arrangement of its categories' words (as the
        back end builds it), the board is an arrangement of the stored categories' words. */
    method GenerateGame(payload: Payload)
      modifies this
      ensures Valid()
      ensures board == Cleaning.CleanWords(payload.shuffledWords)
      ensures categories == Cleaning.CleanCategories(payload.categories)
      ensures selected == [] && found == []
      ensures triesLeft == MaxTries && !gameOver && message == NoMessage
      ensures multiset(payload.shuffledWords) == multiset(AllWords(payload.categories)) ==>
                multiset(board) == multiset(AllWords(categories))
    {
      board, categories, selected, found := [], [], [], [];
      triesLeft, gameOver, message := MaxTries, false, NoMessage;
      GameOverEffect();
      categories := Cleaning.CleanCategories(payload.categories);
      board := Cleaning.CleanWords(payload.shuffledWords);
      if multiset(payload.shuffledWords) == multiset(AllWords(payload.categories)) {
        Cleaning.CleanWordsPreservesPermutation(payload.shuffledWords, AllWords(payload.categories));
        Cleaning.CleanCommutesWithAllWords(payload.categories);
      }
    }

    /** Selecting a word: refused when `Blocked`; otherwise the word is appended, and the
        fourth word triggers the check, after which the selection is empty. */
    method SelectWord(word: string)
      requires Valid()
      modifies this
      ensures Valid()
      ensures board == old(board) && categories == old(categories)
      ensures old(Blocked(word)) ==> unchanged(this)
      ensures !old(Blocked(word)) && old(|selected|) + 1 < GroupSize ==>
                && selected == old(selected) + [word]
                && found == old(found) && triesLeft == old(triesLeft)
                && gameOver == old(gameOver) && message == old(message)
      ensures !old(Blocked(word)) && old(|selected|) + 1 == GroupSize ==>
                Evaluated(old(selected) + [word], old(found), old(triesLeft))
    {
      if Blocked(word) {
        return;
      }
      var newSelected := selected + [word];
      selected := newSelected;
      if |newSelected| == GroupSize {
        CheckSelection(newSelected);
      }
    }

    /** Deselecting a word: every occurrence of it leaves the selection, the rest keep
        their order. There is no game-over guard, but once the game is over the selection
        is empty, so nothing changes. */
    method DeselectWord(word: string)
      requires Valid()
      modifies this`selected
      ensures Valid()
      ensures selected == Without(old(selected), word)
      ensures word in old(selected) ==> |selected| == old(|selected|) - 1
      ensures word !in old(selected) ==> selected == old(selected)
      ensures old(gameOver) ==> unchanged(this)
    {
      if word in selected {
        var i :| 0 <= i < |selected| && selected[i] == word;
        WithoutRemovesOne(selected, i);
      } else {
        WithoutAbsent(selected, word);
      }
      selected := Without(selected, word);
    }

    /** Clearing the selection, at any time; doing it twice is doing it once. */
    method UnselectAll()
      requires Valid()
      modifies this`selected
      ensures Valid()
      ensures selected == []
      ensures old(gameOver) ==> unchanged(this)
    {
      selected := [];
    }

    /** Reordering the board at random (the draws stand for the random values), unless
        the game is over; nothing but the order of the board changes. */
    method ShuffleWords(draws: seq<nat>)
      requires Valid()
      modifies this`board
      ensures Valid()
      ensures multiset(board) == multiset(old(board))
      ensures old(gameOver) ==> board == old(board)
    {
      if gameOver {
        return;
      }
      board := Shuffling.ShuffledCopy(board, draws);
    }

    /** Checking a full selection: the first category that contains every selected word
        is found (the tries stay), or else one try is lost (the found categories stay);
        either way the selection is cleared and the game-over effect runs. A category
        found here was not found before, because its words could not be selected. */
    method CheckSelection(sel: seq<string>)
      requires Consistent() && !gameOver
      requires selected == sel && |sel| == GroupSize
      modifies this`selected, this`found, this`triesLeft, this`gameOver, this`message
      ensures Valid()
      ensures Evaluated(sel, old(found), old(triesLeft))
    {
      var matched := FirstMatch(categories, sel);
      if matched.Some? {
        var c := categories[matched.value];
        assert c !in found by {
          assert sel[0] in sel && sel[0] in c.words;
          assert !InSomeCategory(found, sel[0]);
        }
        found := found + [c];
        message := CategoryFound(c.name);
      } else {
        message := NoMatch;
        triesLeft := triesLeft - 1;
      }
      selected := [];
      GameOverEffect();
    }

    /** Back to the state before any game: nothing loaded, round state at its defaults. */
    method ResetGame()
      modifies this
      ensures Valid()
      ensures board == [] && categories == [] && selected == [] && found == []
      ensures triesLeft == MaxTries && !gameOver && message == NoMessage
    {
      board, categories, selected, found := [], [], [], [];
      message, triesLeft, gameOver := NoMessage, MaxTries, false;
      GameOverEffect();
    }

    /** The grid's view of one word: found takes precedence over selected, the button is
        disabled exactly when the word is found or the game is over, the colour is that
        of the first category holding the word, and a click deselects a selected word and
        selects any other. */
    function View(word: string): (v: WordView)
      reads this
      ensures v.cls == Found <==> InSomeCategory(found, word)
      ensures v.cls == Selected <==> !InSomeCategory(found, word) && word in selected
      ensures v.disabled <==> InSomeCategory(found, word) || gameOver
      ensures v.onClick == Deselect <==> word in selected
      ensures v.colorIndex.Some? ==>
                (&& v.colorIndex.value < |categories|
                 && word in categories[v.colorIndex.value].words
                 && forall k :: 0 <= k < v.colorIndex.value ==> word !in categories[k].words)
      ensures v.colorIndex.None? <==> !InSomeCategory(categories, word)
    {
      var isFound := InSomeCategory(found, word);
      var isSelected := word in selected;
      var colorIndex := FirstMatch(categories, [word]);
      assert forall k :: 0 <= k < |categories| ==> (Covers(categories[k], [word]) <==> word in categories[k].words);
      WordView(if isFound then Found else if isSelected then Selected else Plain,
               isFound || gameOver,
               colorIndex,
               if isSelected then Deselect else Select)
    }

    /** A click on a word button: a disabled button does nothing; otherwise a selected
        word is deselected, and any other word is selected, with the outcomes of
        `SelectWord` (appended, or appended as the fourth word and checked). */
    method Click(word: string)
      requires Valid()
      modifies this
      ensures Valid()
      ensures old(View(word).disabled) ==> unchanged(this)
      ensures old(gameOver) ==> unchanged(this)
      ensures board == old(board) && categories == old(categories)
      ensures !old(View(word).disabled) && word in old(selected) ==>
                && selected == Without(old(selected), word)
                && found == old(found) && triesLeft == old(triesLeft)
                && gameOver == old(gameOver) && message == old(message)
      ensures !old(View(word).disabled) && word !in old(selected) && old(|selected|) + 1 < GroupSize ==>
                && selected == old(selected) + [word]
                && found == old(found) && triesLeft == old(triesLeft)
                && gameOver == old(gameOver) && message == old(message)
      ensures !old(View(word).disabled) && word !in old(selected) && old(|selected|) + 1 == GroupSize ==>
                Evaluated(old(selected) + [word], old(found), old(triesLeft))
    {
      var v := View(word);
      if v.disabled {
        return;
      }
      if v.onClick == Deselect {
        DeselectWord(word);
      } else {
        SelectWord(word);
      }
    }
  }
}
