/** The first version of the front end: the same select-and-check loop, without tries,
    found categories or an end of game. Words are stored as the back end sends them. */
module EarlyGame {
  import opened Wrappers
  import opened Categories

  /** Selection size at which the selection is checked. */
  const GroupSize := 4

  /** The message line, as a tag rather than its text. */
  datatype Message = NoMessage | MatchFound(name: string) | NoMatch

  class Game {
    var board: seq<string>
    var categories: seq<Category>
    var selected: seq<string>
    var message: Message

    /** Between handlers the selection is short of a full group and has no duplicates. */
    ghost predicate Valid()
      reads this
    {
      |selected| < GroupSize && NoDup(selected)
    }

    /** The initial state of the component. */
    constructor ()
      ensures Valid()
      ensures board == [] && categories == [] && selected == [] && message == NoMessage
    {
      board, categories, selected, message := [], [], [], NoMessage;
    }

    /** Storing the back end's reply as it is; the selection and the message are kept. */
    method GenerateGame(newCategories: seq<Category>, shuffledWords: seq<string>)
      requires Valid()
      modifies this`board, this`categories
      ensures Valid()
      ensures categories == newCategories && board == shuffledWords
    {
      categories := newCategories;
      board := shuffledWords;
    }

    /** Selecting a word: a word already selected changes nothing; otherwise it is
        appended, and the check runs exactly when the selection reaches four words. */
    method SelectWord(word: string)
      requires Valid()
      modifies this`selected, this`message
      ensures Valid()
      ensures word in old(selected) ==> selected == old(selected) && message == old(message)
      ensures word !in old(selected) && old(|selected|) + 1 < GroupSize ==>
                selected == old(selected) + [word] && message == old(message)
      ensures word !in old(selected) && old(|selected|) + 1 == GroupSize ==>
                selected == [] && message == Verdict(categories, old(selected) + [word])
    {
      if word in selected {
        return;
      }
      var newSelected := selected + [word];
      selected := newSelected;
      if |newSelected| == GroupSize {
        CheckSelection(newSelected);
      }
    }

    /** Checking a selection: the message names the first category that contains every
        selected word, or says there is no match; the selection is cleared. Nothing else
        changes. */
    method CheckSelection(sel: seq<string>)
      modifies this`selected, this`message
      ensures selected == [] && message == Verdict(categories, sel)
    {
      var matched := FirstMatch(categories, sel);
      if matched.Some? {
        message := MatchFound(categories[matched.value].name);
      } else {
        message := NoMatch;
      }
      selected := [];
    }
  }

  /** The message a check of `sel` produces: a match names the first category containing
      every selected word, and there is a match exactly when some category contains them. */
  function Verdict(cats: seq<Category>, sel: seq<string>): (m: Message)
    ensures m != NoMessage
    ensures m.NoMatch? <==> forall k :: 0 <= k < |cats| ==> !Covers(cats[k], sel)
    ensures m.MatchFound? ==>
              exists k :: && 0 <= k < |cats| && Covers(cats[k], sel) && m.name == cats[k].name
                          && forall j :: 0 <= j < k ==> !Covers(cats[j], sel)
  {
    match FirstMatch(cats, sel)
    case Some(k) => MatchFound(cats[k].name)
    case None => NoMatch
  }
}
