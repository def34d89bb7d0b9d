# Connections game, modelled in Dafny

The system is a word-grouping puzzle: sixteen words on a board, four hidden categories of four
words each. The player selects words one at a time. When the fourth word is selected, the selection is checked
against the categories. A match reveals the category. A miss costs one of four tries. The round
ends when all four categories are found or no tries are left.

The project models three pieces of the system:

- `game.dfy` (module `ConnectionsGame`) is the round state machine of the current front end.
  - A class `Game` holds the board, the categories, the selection, the found categories, the tries, the game-over flag and the message.
  - It has one method per event handler.
  - The game-over effect is a method that every transition changing the tries or the found categories calls at its end.
  - The per-word view is a function.
- `cleaning.dfy` (module `Cleaning`) is the front end's normaliser for the words and names it receives. It trims, deletes brackets and line breaks, and upper-cases.
- `early_game.dfy` (module `EarlyGame`) is the first version of the front end. It has the same select-and-check loop without tries, found categories or an end of the game.
- `parser.dfy` (module `CategoryParser`) is the back end's reading of the language model's reply. It splits the reply into blocks, reads each block as a name line followed by word lines, flattens the words and shuffles them.
- Supporting modules:
  - `text.dfy` holds Python's `strip`/`split` and JavaScript's `trim`, written out.
  - `categories.dfy` holds the category record, the first-match search and the flattening.
  - `shuffling.dfy` holds the shuffle. The random draws are a parameter.
  - `wrappers.dfy` holds `Option`.

The main invariants of `ConnectionsGame.Game` are `Consistent()` and `Valid()`:

- the tries stay within 0..4;
- game over holds exactly when the tries are 0 or four categories are found;
- the selection never repeats a word, holds no word of a found category, and is shorter than four words between events;
- found categories are distinct categories of the puzzle;
- once the game is over, the selection is empty.

Every handler preserves these invariants.

The model keeps these behaviours of the code:

- A match is a subset test (every selected word is among the category's words), not equality of the two collections.
- A word outside every category is simply a miss; the code raises no separate error.
- The payload is not validated.
- Deselecting and unselecting have no game-over guard.
- The first front end keeps the selection and the message when a new game is loaded.

## Model

| member | source | states |
|---|---|---|
| Text.StripLeft | app.py:27 | The result is a suffix of the input, every dropped character is whitespace (junk), and the result does not start with junk. |
| Text.StripRight | app.py:27 | The result is a prefix of the input, every dropped character is junk, and the result does not end with junk. |
| Text.Strip | app.py:23 | The result is no longer than the input, neither starts nor ends with junk, and a string whose ends are not junk comes back unchanged. |
| Text.StripIsSlice | app.py:29 | Stripping only removes junk, and only at the two ends: the result is a contiguous slice of the input with junk on both sides. |
| Text.Split | app.py:23 | Splitting yields at least one piece, and the first piece is a prefix of the input. With SplitJoin, SplitPiecesAreFree and SplitCutsAreLeftmost it is Python's `str.split`: the cuts are the leftmost non-overlapping occurrences. |
| Text.SplitJoin | app.py:23 | Splitting loses nothing: joining the pieces with the separator gives back the input. |
| Text.SplitPiecesAreFree | app.py:23 | No piece of a split contains the separator at any position. |
| Text.SplitFirstCut | app.py:23 | When there is more than one piece, the first piece followed by the separator is a prefix of the input. |
| Text.SplitCutsAreLeftmost | app.py:23 | No occurrence of the separator starts inside a piece that is followed by a cut, even one running on into that cut, so every cut is at the leftmost remaining occurrence. |
| Text.SplitOnCharPieces | app.py:27 | After splitting on a line break, no line contains a line break. |
| Text.StripLacksChar | app.py:29 | Stripping cannot introduce a character that was not in the input. |
| Categories.FirstMatch | connections-game/src/App.js:89-91 | The result is the index of the first category containing every selected word; every earlier category fails; no result exactly when no category contains them all. |
| Categories.AllWords | app.py:43 | The flattened list has as many words as the categories' word counts add up to. |
| Categories.AllWordsAppend | app.py:43 | Flattening distributes over concatenation of category lists, so the words keep category order. |
| Categories.AllWordsMembers | app.py:43 | A word is in the flattened list exactly when some category has it. |
| Cleaning.ToUpperAscii | connections-game/src/App.js:44 | A lower-case letter becomes its own capital (same position in the alphabet), any other character is unchanged, and the result is never a lower-case letter. |
| Cleaning.RemoveDelimiters | connections-game/src/App.js:44 | No `[`, `]` or line break remains, and nothing is added. |
| Cleaning.RemoveDelimitersCounts | connections-game/src/App.js:44 | Every other character occurs exactly as often as before. |
| Cleaning.RemoveDelimitersAppend | connections-game/src/App.js:44 | Deletion works piece by piece, so the kept characters keep their order. |
| Cleaning.RemoveDelimitersKeeps | connections-game/src/App.js:44 | A string without delimiters passes unchanged. |
| Cleaning.Upper | connections-game/src/App.js:44 | Upper-casing keeps the length and maps each character by itself. |
| Cleaning.CleanWord | connections-game/src/App.js:43-45 | A cleaned word has no delimiter and no lower-case letter, and is no longer than the input. |
| Cleaning.CleanWordKeepsCleanWords | connections-game/src/App.js:44 | A clean word without whitespace at its ends is its own cleaning. |
| Cleaning.CleanWordOfBracketed | connections-game/src/App.js:44 | Because trimming happens before the brackets go, a bracketed word comes out as its upper-cased inside, with any whitespace inside the brackets kept. |
| Cleaning.CleanWords | connections-game/src/App.js:43-45 | The same number of words, each cleaned in place. |
| Cleaning.CleanCategory | connections-game/src/App.js:48-51 | A category's name is only trimmed; its words are cleaned one for one. |
| Cleaning.CleanCategories | connections-game/src/App.js:48-51 | The same categories in the same order, each cleaned. |
| Cleaning.CleanedPayloadIsClean | connections-game/src/App.js:43-51 | Every board and category word handed to the game is clean, and every name is trimmed. |
| Cleaning.CleanWordsAppend | connections-game/src/App.js:43-45 | Cleaning a list distributes over concatenation. |
| Cleaning.CleanCommutesWithAllWords | connections-game/src/App.js:43-51 | The words of the cleaned categories are the cleaned words of the categories. |
| Cleaning.CleanWordsPreservesPermutation | connections-game/src/App.js:43-45 | Cleaning two arrangements of the same words gives two arrangements of the same cleaned words. |
| Shuffling.Shuffle | app.py:44 | Whatever the random draws, the array ends up as a permutation of its old contents. |
| Shuffling.ShuffledCopy | connections-game/src/App.js:84 | The shuffled copy has the same length and the same elements as the list. |
| ConnectionsGame.Without | connections-game/src/App.js:74 | The word is gone; every other word stays; a list without duplicates stays without duplicates. |
| ConnectionsGame.WithoutRemovesOne | connections-game/src/App.js:74 | On a duplicate-free selection, deselecting removes exactly the one occurrence and keeps the others' order. |
| ConnectionsGame.WithoutAbsent | connections-game/src/App.js:74 | Deselecting a word that is not selected changes nothing. |
| ConnectionsGame.Game.constructor | connections-game/src/App.js:5-12 | The initial state is empty, with 4 tries, not over and no message, and it satisfies the invariant. |
| ConnectionsGame.Game.GameOverEffect | connections-game/src/App.js:105-124 | Game over becomes true when the tries are 0 or four categories are found. The message becomes the win message or the out-of-tries message, and the win message prevails. |
| ConnectionsGame.Game.GenerateGame | connections-game/src/App.js:17-54 | After loading a game: selection and found categories are empty, 4 tries, not over, no message. Board and categories are the cleaned payload. A board that is an arrangement of the categories' words stays one after cleaning. |
| ConnectionsGame.Game.SelectWord | connections-game/src/App.js:61-71 | A blocked selection changes nothing. The blocking cases are game over, an already-selected word, and a word of a found category. Otherwise the word is appended. The fourth word triggers the evaluation, which leaves the selection empty. The invariant is kept. |
| ConnectionsGame.Game.DeselectWord | connections-game/src/App.js:73-76 | The word leaves the selection, the others keep their order, and the length drops by one exactly when it was selected. After game over nothing changes. |
| ConnectionsGame.Game.UnselectAll | connections-game/src/App.js:78-80 | The selection is empty afterwards, so repeating it changes nothing; after game over nothing changes. |
| ConnectionsGame.Game.ShuffleWords | connections-game/src/App.js:82-86 | The board becomes a permutation of itself, nothing else changes, and after game over the board stays as it is. |
| ConnectionsGame.Game.CheckSelection | connections-game/src/App.js:88-102 | If some category contains every selected word, the first such category is appended to the found ones and the tries stay. Otherwise the tries drop by exactly one and the found categories stay. The selection is emptied in both cases. The matched category was not found before. Game over follows the tries and the found count. |
| ConnectionsGame.Game.ResetGame | connections-game/src/App.js:154-163 | The game goes back to the initial state: nothing loaded, 4 tries, not over, no message. |
| ConnectionsGame.Game.View | connections-game/src/App.js:127-140 | Found takes precedence over selected. The button is disabled exactly when the word is found or the game is over. The colour comes from the first category holding the word. A click deselects a selected word and selects any other. |
| ConnectionsGame.Game.Click | connections-game/src/App.js:139-140 | A click on a disabled button, or any click after game over, changes nothing. An enabled click on a selected word removes it from the selection and changes nothing else. An enabled click on any other word appends it, and as the fourth word it is checked (`Evaluated`). Board and categories never change, and the invariant is kept. |
| EarlyGame.Game.constructor | App.js:5-10 | The initial state is empty, with no message. |
| EarlyGame.Game.GenerateGame | App.js:21-23 | The reply's categories and words are stored as they are; the selection and the message are kept. |
| EarlyGame.Game.SelectWord | App.js:26-34 | An already-selected word changes nothing. Otherwise the word is appended. The check runs exactly when the selection reaches four, and empties the selection. The selection stays short of four and duplicate-free. |
| EarlyGame.Game.CheckSelection | App.js:36-48 | The selection is emptied and the message is the verdict; board and categories are untouched. |
| EarlyGame.Verdict | App.js:37-45 | The message names the first category containing every selected word, and says no match exactly when no category contains them all. |
| CategoryParser.Blocks | app.py:23 | The stripped reply cut at every `\n\n` gives at least one block. |
| CategoryParser.Lines | app.py:27 | A stripped block split on line breaks gives at least one line. |
| CategoryParser.StripLines | app.py:29 | One stripped line per line, position by position. |
| CategoryParser.CategoryName | app.py:28 | The name has no colon at either end; whitespace is not removed. |
| CategoryParser.ParseBlock | app.py:27-30 | One block read as a category: the name has no colon at either end, and there is one word per line after the first, so one word fewer than lines. |
| CategoryParser.LinesHaveNoBreak | app.py:27 | No line of a block holds a line break. |
| CategoryParser.StripLinesHaveNoBreak | app.py:29 | Stripping keeps lines free of line breaks. |
| CategoryParser.ParsedBlockShape | app.py:27-29 | The parsed name has no colon at its ends. There is one word per line after the first, so one word fewer than lines. Each word is its line stripped, a single line. |
| CategoryParser.GenerateCategories | app.py:23-32 | There is exactly one category per block, in block order, and category k is the parse of block k. |
| CategoryParser.GenerateGame | app.py:40-49 | The categories are the parsed list unchanged, and the shuffled words are a permutation of their flattened words. Their number is the sum of the word counts. |

## Left out

- The network request of both front ends and its error path are not modelled, because they are I/O. This covers the `fetch`, the response check and the error message. `GenerateGame` receives an already-decoded payload.
- The call to the language model service, the Flask routing and the request's theme are not modelled, because they are foreign services and web plumbing. `generate_categories` is modelled from the reply text on. The service call in `app.py` also refers to a module name that is never imported; this model does not cover it.
- The theme input field, the DOM colouring loop in the effect, the colour strings, the JSX layout and the "tries left" and category rows are UI. Only the per-word view (class, disabled flag, colour index, click action) is modelled.
- Message texts are not modelled; the messages are tags (`CategoryFound(name)`, `NoMatch`, `OutOfTries`, `AllMatched`).
- React's batching and asynchrony are not modelled. Each handler and the effect it triggers is one atomic step. The intermediate state that `generateGame` shows while awaiting the reply is not observable in the model.
- The effect is run only by the transitions that change its dependencies (the tries and the found categories), plus loading and resetting. The other transitions cannot change whether it fires.
- Shuffling.ShuffledCopy: the front end's `sort` with a random comparator is modelled as a Fisher-Yates shuffle driven by arbitrary draws. Only the permutation property is promised, not the distribution of orders.
- Shuffling.Shuffle: the draws stand for the random generator, so no statement about uniformity is made.
- Cleaning.ToUpperAscii: `toUpperCase` is modelled for the ASCII letters only. Other scripts and the length-changing Unicode mappings are left out.
- Words are not required to be on the board to be selected. The handlers do not check it, and the model does not either.
- The code raises no unknown-word error, does not validate the payload and has no no-op for a full selection (the fourth word always triggers the check); the model has none of these either.
