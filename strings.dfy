/** `String.prototype.includes`, the substring test the router is built on. */
module Strings {
  /** `t` occurs in `s` starting at index `i`. */
  predicate OccursAt(s: string, t: string, i: int) {
    0 <= i && i + |t| <= |s| && s[i..i + |t|] == t
  }

  lemma OccursInTail(s: string, t: string, i: int)
    requires |s| > 0 && i >= 0
    ensures OccursAt(s[1..], t, i) <==> OccursAt(s, t, i + 1)
  {
    if 0 <= i && i + 1 + |t| <= |s| {
      assert s[1..][i..i + |t|] == s[i + 1..i + 1 + |t|];
    }
  }

  /** `s.includes(t)`: true exactly when `t` occurs somewhere in `s` (always for empty `t`). */
  function Includes(s: string, t: string): (r: bool)
    ensures r <==> exists i :: OccursAt(s, t, i)
    decreases |s|
  {
    if |t| > |s| then
      false
    else if s[..|t|] == t then
      assert OccursAt(s, t, 0);
      true
    else
      var r := Includes(s[1..], t);
      assert r <==> exists i :: OccursAt(s, t, i) by {
        forall i | OccursAt(s, t, i) ensures OccursAt(s[1..], t, i - 1) {
          assert i != 0;
          OccursInTail(s, t, i - 1);
        }
        forall j | OccursAt(s[1..], t, j) ensures OccursAt(s, t, j + 1) {
          OccursInTail(s, t, j);
        }
      }
      r
  }
}
