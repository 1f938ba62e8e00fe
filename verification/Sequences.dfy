/** Lists without repetition, and their elements. */
module Sequences {

  ghost predicate NoRepeats<T>(s: seq<T>) { forall i, j :: 0 <= i < j < |s| ==> s[i] != s[j] }

  ghost function Elems<T>(s: seq<T>): set<T> { set x | x in s }
}
