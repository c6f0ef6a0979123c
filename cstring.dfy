/**
 * The few C string primitives the resolver relies on, stated over `string`.
 * A C string ends at its first NUL, so every function that models a libc call
 * on text read from the outside first takes the part before that NUL.
 */
module CString {

  const Nul: char := '\0'

  /** The C-string view of a buffer: the text before its first NUL. */
  function UntilNul(s: string): (r: string)
    ensures r <= s
    ensures Nul !in r
    ensures |r| < |s| ==> s[|r|] == Nul
  {
    if s == [] || s[0] == Nul then [] else [s[0]] + UntilNul(s[1..])
  }

  /** Position of the first `c` in `s` (what `strchr` points at). */
  function IndexOf(s: string, c: char): (i: nat)
    requires c in s
    ensures i < |s| && s[i] == c && c !in s[..i]
  {
    if s[0] == c then 0 else 1 + IndexOf(s[1..], c)
  }

  /** `pat` occurs in `s` starting at position `i`. */
  predicate OccursAt(s: string, pat: string, i: nat) {
    i + |pat| <= |s| && s[i..i + |pat|] == pat
  }

  /** `strstr(s, pat) != NULL`: some position of `s` starts a copy of `pat`. */
  function Contains(s: string, pat: string): (b: bool)
    ensures b <==> exists i: nat :: OccursAt(s, pat, i)
    decreases |s|
  {
    if |s| < |pat| then false
    else if s[..|pat|] == pat then (assert OccursAt(s, pat, 0); true)
    else
      var b := Contains(s[1..], pat);
      assert forall i: nat :: OccursAt(s[1..], pat, i) <==> OccursAt(s, pat, i + 1) by {
        forall i: nat ensures OccursAt(s[1..], pat, i) <==> OccursAt(s, pat, i + 1) {
          if i + 1 + |pat| <= |s| {
            assert s[1..][i..i + |pat|] == s[i + 1..i + 1 + |pat|];
          }
        }
      }
      assert b ==> exists i: nat :: OccursAt(s, pat, i) by {
        if b {
          var i: nat :| OccursAt(s[1..], pat, i);
          assert OccursAt(s, pat, i + 1);
        }
      }
      assert (exists i: nat :: OccursAt(s, pat, i)) ==> b by {
        if exists i: nat :: OccursAt(s, pat, i) {
          var i: nat :| OccursAt(s, pat, i);
          assert i != 0;
          assert OccursAt(s[1..], pat, i - 1);
        }
      }
      b
  }

  /** A text that lacks one of the characters of `pat` cannot contain `pat`. */
  lemma MissingCharNotContained(s: string, pat: string, c: char)
    requires c in pat && c !in s
    ensures !Contains(s, pat)
  {
    var k := IndexOf(pat, c);
    forall i: nat ensures !OccursAt(s, pat, i) {
      if i + |pat| <= |s| {
        assert s[i..i + |pat|][k] == s[i + k] != c;
      }
    }
  }

  /** The C-string view stops at the first NUL. */
  lemma {:induction false} UntilNulStops(s: string, tail: string)
    ensures UntilNul(s + [Nul] + tail) == UntilNul(s)
  {
    if s != [] && s[0] != Nul {
      assert (s + [Nul] + tail)[1..] == s[1..] + [Nul] + tail;
      UntilNulStops(s[1..], tail);
    }
  }

  /** Whatever occurs in a piece occurs in the text around it. */
  lemma ContainsWithin(a: string, r: string, b: string, pat: string)
    requires Contains(r, pat)
    ensures Contains(a + r + b, pat)
  {
    var s := a + r + b;
    var k: nat :| OccursAt(r, pat, k);
    assert s[|a|..|a| + |r|] == r;
    assert s[|a| + k..|a| + k + |pat|] == r[k..k + |pat|];
    assert OccursAt(s, pat, |a| + k);
  }
}
