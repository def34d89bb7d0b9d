/** The random reordering of the board. Randomness is not modelled: the generator is
    replaced by the sequence of values it returns, so every possible run of the shuffle
    is some choice of `draws`, and what is proved holds for all of them. */
module Shuffling {

  /** Fisher-Yates, as Python's `random.shuffle` runs it: for `i` from the last index down
      to 1, swap `a[i]` with `a[j]`, where `j` is the next draw reduced below `i + 1`
      (a draw past the end of `draws` reads as 0). Whatever the draws, the array ends up
      holding the same elements as before. */
  method Shuffle<T>(a: array<T>, draws: seq<nat>)
    modifies a
    ensures multiset(a[..]) == multiset(old(a[..]))
  {
    var i := a.Length - 1;
    var step := 0;
    while i > 0
      invariant -1 <= i < a.Length
      invariant multiset(a[..]) == multiset(old(a[..]))
    {
      var draw := if step < |draws| then draws[step] else 0;
      var j := draw % (i + 1);
      a[i], a[j] := a[j], a[i];
      i, step := i - 1, step + 1;
    }
  }

  /** A shuffled copy of `s`: the list copied into a fresh array, shuffled there, read
      back. The copy has the same length and the same elements. */
  method ShuffledCopy<T>(s: seq<T>, draws: seq<nat>) returns (r: seq<T>)
    ensures |r| == |s|
    ensures multiset(r) == multiset(s)
  {
    var a := new T[|s|](i requires 0 <= i < |s| => s[i]);
    assert a[..] == s;
    Shuffle(a, draws);
    r := a[..];
  }
}
