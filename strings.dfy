/** String rewriting with literal regular expressions, as JavaScript's
    `String.prototype.replace` performs it for a pattern that is a plain
    literal (no alternation, no quantifier), with the `g` flag or anchored
    at the end of the input. */
module Strings {

  predicate StartsWith(s: string, p: string) {
    |p| <= |s| && s[..|p|] == p
  }

  predicate EndsWith(s: string, p: string) {
    |p| <= |s| && s[|s| - |p|..] == p
  }

  /** `pat` occurs in `s` starting at index `i`. */
  predicate OccursAt(s: string, pat: string, i: nat) {
    i + |pat| <= |s| && s[i..i + |pat|] == pat
  }

  predicate Contains(s: string, pat: string) {
    exists i: nat :: i <= |s| && OccursAt(s, pat, i)
  }

  /** `s.replace(/pat/g, rep)`: scan left to right; at each index where `pat`
      starts, emit `rep` and resume after the match; otherwise keep the
      character. Matches therefore never overlap. */
  function ReplaceAll(s: string, pat: string, rep: string): string
    requires |pat| > 0
    decreases |s|
  {
    if |s| == 0 then []
    else if StartsWith(s, pat) then rep + ReplaceAll(s[|pat|..], pat, rep)
    else [s[0]] + ReplaceAll(s[1..], pat, rep)
  }

  /** `s.replace(/suf$/, rep)` without the `m` flag: `$` matches only at the
      very end of the input, so the one possible match is a suffix. */
  function ReplaceAtEnd(s: string, suf: string, rep: string): string {
    if EndsWith(s, suf) then s[..|s| - |suf|] + rep else s
  }

  /** A string in which the pattern does not occur is left unchanged. */
  lemma {:induction false} ReplaceAllAbsent(s: string, pat: string, rep: string)
    requires |pat| > 0 && !Contains(s, pat)
    ensures ReplaceAll(s, pat, rep) == s
    decreases |s|
  {
    if |s| > 0 {
      assert !OccursAt(s, pat, 0);
      forall i: nat ensures !OccursAt(s[1..], pat, i) {
        assert !OccursAt(s, pat, i + 1);
        if i + |pat| <= |s[1..]| {
          assert s[1..][i..i + |pat|] == s[i + 1..i + 1 + |pat|];
        }
      }
      ReplaceAllAbsent(s[1..], pat, rep);
    }
  }

  /** At the first occurrence of the pattern, the rewrite keeps everything
      before it, puts the replacement in its place and goes on after it. */
  lemma {:induction false} ReplaceAllFirstOccurrence(s: string, pat: string, rep: string, i: nat)
    requires |pat| > 0 && OccursAt(s, pat, i)
    requires forall j: nat :: j < i ==> !OccursAt(s, pat, j)
    ensures ReplaceAll(s, pat, rep) == s[..i] + rep + ReplaceAll(s[i + |pat|..], pat, rep)
    decreases i
  {
    if i == 0 {
      assert StartsWith(s, pat);
      assert s[..0] == [];
    } else {
      var u := s[1..];
      assert ReplaceAll(s, pat, rep) == [s[0]] + ReplaceAll(u, pat, rep) by {
        assert !OccursAt(s, pat, 0);
      }
      assert OccursAt(u, pat, i - 1) by {
        assert u[i - 1..i - 1 + |pat|] == s[i..i + |pat|];
      }
      assert forall j: nat :: j < i - 1 ==> !OccursAt(u, pat, j) by {
        forall j: nat | j < i - 1 ensures !OccursAt(u, pat, j) {
          assert !OccursAt(s, pat, j + 1);
          assert u[j..j + |pat|] == s[j + 1..j + 1 + |pat|];
        }
      }
      ReplaceAllFirstOccurrence(u, pat, rep, i - 1);
      assert u[i - 1 + |pat|..] == s[i + |pat|..];
      assert [s[0]] + u[..i - 1] == s[..i];
    }
  }

  /** If `t` does not start with `w`, neither does its rewrite, provided the
      replacement cannot supply `w`'s first character either. */
  lemma {:induction false} ReplaceAllKeepsNonPrefix(t: string, pat: string, rep: string, w: string)
    requires |pat| > 0 && |rep| > 0 && |w| > 0
    requires rep[0] !in w
    requires !StartsWith(t, w)
    ensures !StartsWith(ReplaceAll(t, pat, rep), w)
    decreases |t|
  {
    var r := ReplaceAll(t, pat, rep);
    if |t| == 0 {
    } else if StartsWith(t, pat) {
      assert r[0] == rep[0];
    } else if t[0] != w[0] {
      assert r[0] == t[0];
    } else {
      assert !StartsWith(t[1..], w[1..]) by {
        if |w| <= |t| {
          assert t[..|w|] == [t[0]] + t[1..][..|w| - 1];
          assert w == [w[0]] + w[1..];
        }
      }
      ReplaceAllKeepsNonPrefix(t[1..], pat, rep, w[1..]);
      var r' := ReplaceAll(t[1..], pat, rep);
      assert r == [t[0]] + r';
      if |w| <= |r| {
        assert r[..|w|] == [t[0]] + r'[..|w| - 1];
        assert w == [w[0]] + w[1..];
      }
    }
  }

  /** The rewrite leaves no occurrence of the pattern behind, when the
      replacement cannot start one and cannot complete one. */
  lemma {:induction false} ReplaceAllRemovesPattern(s: string, pat: string, rep: string)
    requires |pat| > 0 && |rep| > 0
    requires pat[0] !in rep && rep[0] !in pat[1..]
    ensures !Contains(ReplaceAll(s, pat, rep), pat)
    decreases |s|
  {
    var r := ReplaceAll(s, pat, rep);
    if |s| == 0 {
      assert forall i: nat :: !OccursAt(r, pat, i);
    } else if StartsWith(s, pat) {
      var r' := ReplaceAll(s[|pat|..], pat, rep);
      ReplaceAllRemovesPattern(s[|pat|..], pat, rep);
      assert r == rep + r';
      forall i: nat ensures !OccursAt(r, pat, i) {
        if i + |pat| <= |r| {
          if i < |rep| {
            assert r[i..i + |pat|][0] == rep[i];
          } else {
            assert !OccursAt(r', pat, i - |rep|);
            assert r[i..i + |pat|] == r'[i - |rep|..i - |rep| + |pat|];
          }
        }
      }
    } else {
      var r' := ReplaceAll(s[1..], pat, rep);
      ReplaceAllRemovesPattern(s[1..], pat, rep);
      assert r == [s[0]] + r';
      if |pat| > 1 && s[0] == pat[0] {
        assert !StartsWith(s[1..], pat[1..]) by {
          if |pat| <= |s| {
            assert s[..|pat|] == [s[0]] + s[1..][..|pat| - 1];
            assert pat == [pat[0]] + pat[1..];
          }
        }
        ReplaceAllKeepsNonPrefix(s[1..], pat, rep, pat[1..]);
      }
      forall i: nat ensures !OccursAt(r, pat, i) {
        if i + |pat| <= |r| {
          if i == 0 {
            if |pat| > 1 && s[0] == pat[0] {
              assert r[..|pat|] == [s[0]] + r'[..|pat| - 1];
              assert pat == [pat[0]] + pat[1..];
            } else if |pat| == 1 {
              assert s[..1] == [s[0]];
              assert r[..1] == [s[0]];
            } else {
              assert r[..|pat|][0] == s[0];
            }
          } else {
            assert !OccursAt(r', pat, i - 1);
            assert r[i..i + |pat|] == r'[i - 1..i - 1 + |pat|];
          }
        }
      }
    }
  }

  /** Under the same conditions, rewriting twice is rewriting once. */
  lemma ReplaceAllIdempotent(s: string, pat: string, rep: string)
    requires |pat| > 0 && |rep| > 0
    requires pat[0] !in rep && rep[0] !in pat[1..]
    ensures ReplaceAll(ReplaceAll(s, pat, rep), pat, rep) == ReplaceAll(s, pat, rep)
  {
    ReplaceAllRemovesPattern(s, pat, rep);
    ReplaceAllAbsent(ReplaceAll(s, pat, rep), pat, rep);
  }
}
