/** The two Swift `String` operations the marker applies to a written modifier token:
    `contains(_:)` and `replacingOccurrences(of:with:)` with an empty replacement.
    Strings are sequences of characters; Unicode canonical equivalence is not modelled. */
module Text {

  /** `p` is a prefix of `s`. */
  predicate StartsWith(s: string, p: string) {
    |p| <= |s| && s[..|p|] == p
  }

  /** `s.contains(p)`: `s` contains `p` as a contiguous piece. */
  predicate Contains(s: string, p: string)
    decreases |s|
  {
    StartsWith(s, p) || (|s| > 0 && Contains(s[1..], p))
  }

  /** `Contains` holds exactly when `p` starts at some position of `s`. */
  lemma {:induction false} ContainsAtSomePosition(s: string, p: string)
    ensures Contains(s, p) <==> exists i :: 0 <= i <= |s| && StartsWith(s[i..], p)
    decreases |s|
  {
    assert s[0..] == s;
    if |s| > 0 {
      ContainsAtSomePosition(s[1..], p);
      assert forall i :: 1 <= i <= |s| ==> s[1..][i - 1..] == s[i..];
    }
  }

  /** `s.replacingOccurrences(of: p, with: "")`: scanning left to right, every
      non-overlapping occurrence of `p` is deleted. An empty `p` leaves `s` unchanged. */
  function RemoveAll(s: string, p: string): (r: string)
    ensures |r| <= |s|
    ensures !Contains(s, p) ==> r == s
    decreases |s|
  {
    if p == [] || s == [] then s
    else if StartsWith(s, p) then RemoveAll(s[|p|..], p)
    else [s[0]] + RemoveAll(s[1..], p)
  }

  /** A string that never contains the first character of `p` does not contain `p`. */
  lemma {:induction false} NoFirstCharNoOccurrence(s: string, p: string)
    requires p != [] && p[0] !in s
    ensures !Contains(s, p)
    decreases |s|
  {
    if |s| > 0 {
      assert s[0] != p[0];
      assert forall c :: c in s[1..] ==> c in s;
      NoFirstCharNoOccurrence(s[1..], p);
    }
  }

  /** Removing `p` from `s + p`, where `s` cannot start an occurrence of `p`, gives back `s`:
      the token `x(set)` is stripped to `x`. */
  lemma {:induction false} RemoveTrailing(s: string, p: string)
    requires p != [] && p[0] !in s
    ensures Contains(s + p, p)
    ensures RemoveAll(s + p, p) == s
    decreases |s|
  {
    if s == [] {
      assert s + p == p;
      assert StartsWith(p, p);
      assert p[|p|..] == [];
    } else {
      assert (s + p)[0] == s[0] != p[0];
      assert !StartsWith(s + p, p);
      assert (s + p)[1..] == s[1..] + p;
      assert forall c :: c in s[1..] ==> c in s;
      RemoveTrailing(s[1..], p);
      assert [s[0]] + s[1..] == s;
    }
  }
}
