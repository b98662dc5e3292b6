/** Small sequence helpers shared by the handlers: the first element that hits a set of
    "bad" values, and the set of elements of a sequence. */
module Sequences {

  /** Position of the first element of `s` that lies in `bad`, or `|s|` when none does. */
  function FirstIn<T>(s: seq<T>, bad: set<T>): (k: nat)
    ensures k <= |s|
    ensures forall j :: 0 <= j < k ==> s[j] !in bad
    ensures k < |s| ==> s[k] in bad
    decreases |s|
  {
    if |s| == 0 then 0
    else if s[0] in bad then 0
    else 1 + FirstIn(s[1..], bad)
  }

  /** The two properties of `FirstIn` pin down a single position. */
  lemma FirstInAt<T>(s: seq<T>, bad: set<T>, k: nat)
    requires k < |s| && s[k] in bad
    requires forall j :: 0 <= j < k ==> s[j] !in bad
    ensures FirstIn(s, bad) == k
  {
  }

  /** The elements of a sequence, as a set. */
  function Elements<T>(s: seq<T>): set<T>
  {
    set x | x in s
  }
}
