/**
  ASCII case-insensitive comparison, as used by the `icontains` lookup of the
  list filters and by the case-insensitive search of the highlight filter.
  Only the 26 ASCII letters are folded.
 */
module Strings {

  predicate IsUpper(c: char) { 'A' <= c <= 'Z' }

  function LowerChar(c: char): (d: char)
    ensures !IsUpper(d)
    ensures !IsUpper(c) ==> d == c
    ensures IsUpper(c) ==> d as int == c as int + 32
  {
    if IsUpper(c) then (c as int + 32) as char else c
  }

  /** The string with every ASCII upper-case letter lowered. */
  function Lower(s: string): (r: string)
    ensures |r| == |s|
    ensures forall i :: 0 <= i < |s| ==> r[i] == LowerChar(s[i])
  {
    seq(|s|, i requires 0 <= i < |s| => LowerChar(s[i]))
  }

  /** `a` and `b` are equal up to ASCII case. */
  predicate EqualCI(a: string, b: string)
  {
    Lower(a) == Lower(b)
  }

  /** `needle` occurs in `hay` at position `i`, ignoring ASCII case. */
  predicate MatchAt(hay: string, needle: string, i: nat)
  {
    i + |needle| <= |hay| && EqualCI(hay[i..i + |needle|], needle)
  }

  /** `needle` occurs somewhere in `hay`, ignoring ASCII case. */
  predicate ContainsCI(hay: string, needle: string)
  {
    exists i: nat | i <= |hay| :: MatchAt(hay, needle, i)
  }
}
