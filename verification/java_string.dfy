/**
 * The part of java.lang.String that the name matcher relies on:
 * `indexOf(char, fromIndex)`, which answers -1 when the character does
 * not occur at or after `fromIndex`.
 */
module JavaString {

  /** Index of the first occurrence of `c` in `s` at or after `from`, or -1. */
  function IndexOf(s: string, c: char, from: nat): (r: int)
    ensures -1 <= r < |s|
    ensures r != -1 ==> from <= r && s[r] == c
    ensures forall i :: from <= i < |s| && (r == -1 || i < r) ==> s[i] != c
    decreases |s| - from
  {
    if from >= |s| then -1
    else if s[from] == c then from
    else IndexOf(s, c, from + 1)
  }
}
