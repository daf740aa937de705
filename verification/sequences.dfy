/**
 The two JavaScript array operations the editors use that have no direct
 counterpart on Dafny sequences.
 */
module Sequences {

  /** Where `Array.prototype.splice(start)` begins removing, for an array of
      length `len`: a negative start counts back from the end, and the
      result is clamped to the array. */
  function SpliceStart(len: nat, start: int): (k: nat)
    ensures k <= len
    ensures 0 <= start ==> k == (if start < len then start else len)
    ensures start < 0 ==> k == (if len + start < 0 then 0 else len + start)
  {
    if start < 0 then
      (if len + start < 0 then 0 else len + start)
    else if start < len then start
    else len
  }

  /** What is left of `s` after the one-argument `s.splice(start)`: with no
      delete count, every element from the start position onwards goes. */
  function SpliceFrom<T>(s: seq<T>, start: int): (r: seq<T>)
    ensures |r| == SpliceStart(|s|, start)
    ensures r == s[..|r|]
  {
    s[..SpliceStart(|s|, start)]
  }

  /** Filtering by position: every element of `s` except the one at
      `index`, in their original order. The recursion peels elements off the
      end of `s`; the result is the same as a forward walk. */
  function RemoveAt<T>(s: seq<T>, index: int): (r: seq<T>)
    ensures 0 <= index < |s| ==> r == s[..index] + s[index + 1..]
    ensures !(0 <= index < |s|) ==> r == s
    decreases |s|
  {
    if |s| == 0 then []
    else
      var init := s[..|s| - 1];
      RemoveAt(init, index) + (if |s| - 1 == index then [] else [s[|s| - 1]])
  }
}
