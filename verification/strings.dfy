/** Small string helpers shared by the text-processing modules. */
module Strings {

  /** The index of the first `c` in `s` at or after `from`, or `|s|` if there is none. */
  function IndexOf(s: string, c: char, from: nat): (r: nat)
    requires from <= |s|
    ensures from <= r <= |s|
    ensures forall i | from <= i < r :: s[i] != c
    ensures r < |s| ==> s[r] == c
    decreases |s| - from
  {
    if from == |s| || s[from] == c then from else IndexOf(s, c, from + 1)
  }

  /** Python's `s.replace(c, rep)` for a one-character pattern: every `c` becomes `rep`. */
  function ReplaceChar(s: string, c: char, rep: string): (r: string)
    ensures c !in rep ==> c !in r
    ensures forall x | x in r :: x in s || x in rep
    ensures |rep| == 1 ==> |r| == |s| && forall i | 0 <= i < |s| :: r[i] == (if s[i] == c then rep[0] else s[i])
    ensures c !in s ==> r == s
  {
    if |s| == 0 then [] else (if s[0] == c then rep else [s[0]]) + ReplaceChar(s[1..], c, rep)
  }

}
