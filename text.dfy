/**
 * The two PHP string primitives the logger relies on, over `string` (= seq<char>):
 * `strpos($s, $pat) !== false` as `Contains`, and `str_replace($pat, $rep, $s)` as `ReplaceAll`.
 */
module Text {

  /** `pat` occurs in `s` starting at index `i`. */
  ghost predicate OccursAt(s: string, pat: string, i: int)
  {
    0 <= i && i + |pat| <= |s| && s[i..i + |pat|] == pat
  }

  /** Reference definition of a substring occurrence. */
  ghost predicate Occurs(s: string, pat: string)
  {
    exists i :: OccursAt(s, pat, i)
  }

  /** `strpos($s, $pat) !== false`: scans `s` left to right for `pat`. */
  function Contains(s: string, pat: string): bool
    decreases |s|
  {
    if pat <= s then true
    else if |s| == 0 then false
    else Contains(s[1..], pat)
  }

  /**
   * `str_replace($pat, $rep, $s)` for one search string: scans left to right, replaces each
   * leftmost occurrence that does not overlap an earlier one, and never rescans replaced text.
   * An empty search string leaves the subject unchanged.
   */
  function ReplaceAll(s: string, pat: string, rep: string): string
    decreases |s|
  {
    if |pat| == 0 || |s| == 0 then s
    else if pat <= s then rep + ReplaceAll(s[|pat|..], pat, rep)
    else [s[0]] + ReplaceAll(s[1..], pat, rep)
  }

  /** The number of occurrences `ReplaceAll` replaces. */
  function Matches(s: string, pat: string): nat
    decreases |s|
  {
    if |pat| == 0 || |s| == 0 then 0
    else if pat <= s then 1 + Matches(s[|pat|..], pat)
    else Matches(s[1..], pat)
  }

  lemma OccursAtShift(s: string, pat: string, i: int)
    requires |s| > 0 && 0 <= i
    ensures OccursAt(s[1..], pat, i) <==> OccursAt(s, pat, i + 1)
  {
    if 0 <= i && i + |pat| <= |s| - 1 {
      assert s[1..][i..i + |pat|] == s[i + 1..i + 1 + |pat|];
    }
  }

  /** The scan finds `pat` exactly when it occurs somewhere in `s`. */
  lemma {:induction false} ContainsIffOccurs(s: string, pat: string)
    ensures Contains(s, pat) <==> Occurs(s, pat)
    decreases |s|
  {
    if pat <= s {
      assert s[0..|pat|] == pat;
      assert OccursAt(s, pat, 0);
    } else if |s| == 0 {
      assert forall i :: !OccursAt(s, pat, i);
    } else {
      ContainsIffOccurs(s[1..], pat);
      assert !OccursAt(s, pat, 0);
      forall i | 0 <= i
        ensures OccursAt(s[1..], pat, i) <==> OccursAt(s, pat, i + 1)
      {
        OccursAtShift(s, pat, i);
      }
      if Occurs(s, pat) {
        var i :| OccursAt(s, pat, i);
        assert OccursAt(s[1..], pat, i - 1);
      }
      if Occurs(s[1..], pat) {
        var i :| OccursAt(s[1..], pat, i);
        assert OccursAt(s, pat, i + 1);
      }
    }
  }

  /** A search string that does not occur leaves the subject untouched. */
  lemma {:induction false} ReplaceAbsent(s: string, pat: string, rep: string)
    requires !Contains(s, pat)
    ensures ReplaceAll(s, pat, rep) == s
    decreases |s|
  {
    if |pat| != 0 && |s| != 0 {
      ReplaceAbsent(s[1..], pat, rep);
    }
  }

  /** A search string whose first character is missing from `s` does not occur in it. */
  lemma {:induction false} FirstAbsent(s: string, pat: string)
    requires |pat| > 0 && pat[0] !in s
    ensures !Contains(s, pat)
    decreases |s|
  {
    if |s| != 0 {
      assert s[0] != pat[0];
      FirstAbsent(s[1..], pat);
    }
  }

  /** The scan finds `pat` wherever it sits in the middle of a subject. */
  lemma ContainsMiddle(a: string, pat: string, b: string)
    ensures Contains(a + pat + b, pat)
  {
    var s := a + pat + b;
    assert s[|a|..|a| + |pat|] == pat;
    assert OccursAt(s, pat, |a|);
    ContainsIffOccurs(s, pat);
  }

  /**
   * A prefix holding no first character of the search string is copied as it is; an
   * occurrence at the front is replaced and the scan resumes after it.
   */
  lemma {:induction false} ReplaceSkip(a: string, b: string, pat: string, rep: string)
    requires |pat| > 0 && pat[0] !in a
    ensures ReplaceAll(a + b, pat, rep) == a + ReplaceAll(b, pat, rep)
    ensures ReplaceAll(pat + b, pat, rep) == rep + ReplaceAll(b, pat, rep)
    decreases |a|
  {
    assert (pat + b)[|pat|..] == b;
    if a == [] {
      assert a + b == b;
    } else {
      assert (a + b)[0] == a[0] != pat[0];
      assert (a + b)[1..] == a[1..] + b;
      ReplaceSkip(a[1..], b, pat, rep);
    }
  }

  /** Text without `c` at the front of a subject with every match replaced by `c` was copied from it. */
  lemma {:induction false} ReplacedPrefix(t: string, pat: string, c: char, p: string)
    requires |pat| > 0 && c !in p && p <= ReplaceAll(t, pat, [c])
    ensures p <= t
    decreases |t|
  {
    if |t| != 0 && p != [] && !(pat <= t) {
      assert p[0] == t[0];
      assert c !in p[1..] && p[1..] <= ReplaceAll(t[1..], pat, [c]);
      ReplacedPrefix(t[1..], pat, c, p[1..]);
      assert p == [p[0]] + p[1..];
    }
  }

  /**
   * Every occurrence is replaced: once each match is replaced by a character foreign to the
   * search string, the search string no longer occurs, not even across a replacement.
   */
  lemma {:induction false} NoOccurrenceSurvives(s: string, pat: string, c: char)
    requires |pat| > 0 && c !in pat
    ensures !Contains(ReplaceAll(s, pat, [c]), pat)
    decreases |s|
  {
    var r := ReplaceAll(s, pat, [c]);
    if |s| != 0 {
      if pat <= s {
        NoOccurrenceSurvives(s[|pat|..], pat, c);
        assert r[0] == c != pat[0];
        assert r[1..] == ReplaceAll(s[|pat|..], pat, [c]);
      } else {
        NoOccurrenceSurvives(s[1..], pat, c);
        if pat <= r {
          ReplacedPrefix(s, pat, c, pat);
        }
        assert r[1..] == ReplaceAll(s[1..], pat, [c]);
      }
    }
  }

  /** A search string that occurs is matched at least once, and only one that occurs is. */
  lemma {:induction false} MatchesIffContains(s: string, pat: string)
    requires |pat| > 0
    ensures Matches(s, pat) > 0 <==> Contains(s, pat)
    decreases |s|
  {
    if |s| != 0 && !(pat <= s) {
      MatchesIffContains(s[1..], pat);
    }
  }

  /** Each replaced occurrence changes the length by `|rep| - |pat|`, and nothing else does. */
  lemma {:induction false} ReplaceLength(s: string, pat: string, rep: string)
    ensures |ReplaceAll(s, pat, rep)| == |s| + Matches(s, pat) * (|rep| - |pat|)
    decreases |s|
  {
    var d := |rep| - |pat|;
    if |pat| == 0 || |s| == 0 {
    } else if pat <= s {
      var rest := s[|pat|..];
      ReplaceLength(rest, pat, rep);
      assert |s| == |pat| + |rest|;
      assert (1 + Matches(rest, pat)) * d == d + Matches(rest, pat) * d;
    } else {
      ReplaceLength(s[1..], pat, rep);
    }
  }

  /**
   * Replacing every matched occurrence by a character `c` foreign to `s`, then every `c` by the
   * search string, gives back `s`: the replacements happen exactly at the matched occurrences.
   */
  lemma {:induction false} ReplaceRoundTrip(s: string, pat: string, c: char)
    requires |pat| > 0 && c !in s
    ensures ReplaceAll(ReplaceAll(s, pat, [c]), [c], pat) == s
    decreases |s|
  {
    if |s| == 0 {
    } else if pat <= s {
      var rest := s[|pat|..];
      assert c !in rest by {
        forall k | 0 <= k < |rest| ensures rest[k] != c {
          assert rest[k] == s[|pat| + k];
        }
      }
      ReplaceRoundTrip(rest, pat, c);
      var t := [c] + ReplaceAll(rest, pat, [c]);
      assert [c] <= t;
      assert t[1..] == ReplaceAll(rest, pat, [c]);
      assert s == pat + rest;
    } else {
      var rest := s[1..];
      assert c !in rest by {
        forall k | 0 <= k < |rest| ensures rest[k] != c {
          assert rest[k] == s[1 + k];
        }
      }
      ReplaceRoundTrip(rest, pat, c);
      var t := [s[0]] + ReplaceAll(rest, pat, [c]);
      assert t[0] == s[0] != c;
      assert !([c] <= t);
      assert t[1..] == ReplaceAll(rest, pat, [c]);
      assert s == [s[0]] + rest;
    }
  }
}
