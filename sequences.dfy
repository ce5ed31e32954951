/** Pure functions on abstract sequences shared by both lists: first-match search,
    which specifies the searching and iterating operations, and removal of one
    element, which specifies the removing operations. */
module Sequences {

  /** Index of the first element of `s` that satisfies `p`, or `|s|` when none does. */
  function FirstMatch<T>(s: seq<T>, p: T -> bool): (k: nat)
    ensures k <= |s|
    ensures forall j | 0 <= j < k :: !p(s[j])
    ensures k < |s| ==> p(s[k])
  {
    if s == [] then 0
    else if p(s[0]) then 0
    else 1 + FirstMatch(s[1..], p)
  }

  /** The two properties of FirstMatch determine it: a scan that has rejected
      everything before `k` and stops at `k` has found FirstMatch. */
  lemma {:induction false} FirstMatchUnique<T>(s: seq<T>, p: T -> bool, k: nat)
    requires k <= |s|
    requires forall j | 0 <= j < k :: !p(s[j])
    requires k < |s| ==> p(s[k])
    ensures FirstMatch(s, p) == k
  {
    if k > 0 {
      assert !p(s[0]);
      FirstMatchUnique(s[1..], p, k - 1);
    }
  }

  /** How many elements a visiting loop handles when its body leaves the loop
      right after the first element satisfying `stop`: up to and including that
      element, or all of them. */
  function Visited<T>(s: seq<T>, stop: T -> bool): (m: nat)
    ensures m <= |s|
    ensures forall j | 0 <= j < m - 1 :: !stop(s[j])
    ensures m < |s| ==> m > 0 && stop(s[m - 1])
  {
    var k := FirstMatch(s, stop);
    if k < |s| then k + 1 else |s|
  }

  /** An element that fails `p` at a position not past the first match moves the
      first match further on. */
  lemma FirstMatchPast<T>(s: seq<T>, p: T -> bool, n: nat)
    requires n <= FirstMatch(s, p) && n < |s| && !p(s[n])
    ensures n + 1 <= FirstMatch(s, p)
  {
  }

  /** The sequence `s` with its element at position `k` taken out (unchanged if there is none). */
  function Without<T>(s: seq<T>, k: nat): (r: seq<T>)
    requires k <= |s|
  {
    if k < |s| then s[..k] + s[k + 1..] else s
  }

  /** Taking the first element out of the suffix of `s` from `n` on leaves the suffix from `n + 1` on. */
  lemma DropFront<T>(s: seq<T>, n: nat)
    requires n < |s|
    ensures s[n..][0] == s[n] && Without(s[n..], 0) == s[n + 1..]
  {
  }
}
