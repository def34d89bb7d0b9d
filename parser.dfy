/** The back end's part that is not a call to a foreign service: turning the text the
    language model returned into categories, and building the shuffled word list that is
    sent to the front end with them. */
module CategoryParser {
  import opened Text
  import opened Categories
  import Shuffling

  /** The blocks of the reply: the stripped text cut at every occurrence of `"\n\n"`,
      scanning from the left (four line breaks in a row give an empty block). */
  function Blocks(text: string): (r: seq<string>)
    ensures |r| >= 1
  {
    Split(Strip(text, PyWhitespace), "\n\n")
  }

  /** The lines of one block: the stripped block cut at every line break. */
  function Lines(block: string): (r: seq<string>)
    ensures |r| >= 1
  {
    Split(Strip(block, PyWhitespace), "\n")
  }

  /** `[line.strip() for line in lines]`. */
  function StripLines(lines: seq<string>): (r: seq<string>)
    ensures |r| == |lines|
    ensures forall k :: 0 <= k < |lines| ==> r[k] == Strip(lines[k], PyWhitespace)
  {
    seq(|lines|, k requires 0 <= k < |lines| => Strip(lines[k], PyWhitespace))
  }

  /** `line.strip(':')`: colons removed from both ends of the first line, whitespace left
      as it is. */
  function CategoryName(firstLine: string): (n: string)
    ensures n == [] || (n[0] != ':' && n[|n| - 1] != ':')
  {
    Strip(firstLine, {':'})
  }

  /** One block read as a category: the first line, with colons stripped from both ends
      (and nothing else), is the name; every further line, whitespace-stripped, is a word. */
  function ParseBlock(block: string): (c: Category)
    ensures c.name == [] || (c.name[0] != ':' && c.name[|c.name| - 1] != ':')
    ensures |c.words| == |Lines(block)| - 1
  {
    Category(CategoryName(Lines(block)[0]), StripLines(Lines(block)[1..]))
  }

  /** The lines of a block hold no line break. */
  lemma LinesHaveNoBreak(block: string)
    ensures forall k :: 0 <= k < |Lines(block)| ==> '\n' !in Lines(block)[k]
  {
    forall k | 0 <= k < |Lines(block)|
      ensures '\n' !in Lines(block)[k]
    {
      SplitOnCharPieces(Strip(block, PyWhitespace), '\n', k);
    }
  }

  /** Stripping lines keeps them free of line breaks. */
  lemma StripLinesHaveNoBreak(lines: seq<string>)
    requires forall k :: 0 <= k < |lines| ==> '\n' !in lines[k]
    ensures forall k :: 0 <= k < |lines| ==> '\n' !in StripLines(lines)[k]
  {
    forall k | 0 <= k < |lines|
      ensures '\n' !in StripLines(lines)[k]
    {
      StripLacksChar(lines[k], PyWhitespace, '\n');
    }
  }

  /** What a parsed block looks like: the name is the first line without colons at its
      ends, and there is one word per further line, so one word fewer than lines, each a
      single line stripped of whitespace. */
  lemma ParsedBlockShape(block: string)
    ensures var c, lines := ParseBlock(block), Lines(block);
      && (c.name == [] || (c.name[0] != ':' && c.name[|c.name| - 1] != ':'))
      && |c.words| == |lines| - 1
      && forall k :: 0 <= k < |c.words| ==> c.words[k] == Strip(lines[k + 1], PyWhitespace) && '\n' !in c.words[k]
  {
    var lines := Lines(block);
    var words := StripLines(lines[1..]);
    LinesHaveNoBreak(block);
    StripLinesHaveNoBreak(lines[1..]);
    forall k | 0 <= k < |words|
      ensures words[k] == Strip(lines[k + 1], PyWhitespace) && '\n' !in words[k]
    {
      assert lines[1..][k] == lines[k + 1];
    }
  }

  /** Appending the parse of the next block to the parses of the blocks before it gives
      the parses of one more block. */
  lemma ParsedPrefixGrows(list: seq<Category>, blocks: seq<string>, c: Category)
    requires |list| < |blocks|
    requires forall k :: 0 <= k < |list| ==> list[k] == ParseBlock(blocks[k])
    requires c == ParseBlock(blocks[|list|])
    ensures forall k :: 0 <= k < |list| + 1 ==> (list + [c])[k] == ParseBlock(blocks[k])
  {
  }

  /** `generate_categories` after the service call: one category per block of the
      reply, in block order. */
  method GenerateCategories(text: string) returns (categoryList: seq<Category>)
    ensures |categoryList| == |Blocks(text)|
    ensures forall k :: 0 <= k < |categoryList| ==> categoryList[k] == ParseBlock(Blocks(text)[k])
  {
    var categories := Blocks(text);
    categoryList := [];
    for i := 0 to |categories|
      invariant |categoryList| == i
      invariant forall k :: 0 <= k < i ==> categoryList[k] == ParseBlock(categories[k])
    {
      var lines := Lines(categories[i]);
      var categoryName := CategoryName(lines[0]);
      var words := StripLines(lines[1..]);
      var category := Category(categoryName, words);
      ParsedPrefixGrows(categoryList, categories, category);
      categoryList := categoryList + [category];
    }
  }

  /** `generate_game` after the service call: the parsed categories unchanged, and their
      words, flattened in category order, then shuffled; the draws stand for the random
      values `random.shuffle` uses. */
  method GenerateGame(text: string, draws: seq<nat>) returns (categories: seq<Category>, shuffledWords: seq<string>)
    ensures |categories| == |Blocks(text)|
    ensures forall k :: 0 <= k < |categories| ==> categories[k] == ParseBlock(Blocks(text)[k])
    ensures multiset(shuffledWords) == multiset(AllWords(categories))
    ensures |shuffledWords| == TotalWords(categories)
  {
    categories := GenerateCategories(text);
    var allWords := AllWords(categories);
    shuffledWords := Shuffling.ShuffledCopy(allWords, draws);
  }
}
