/**
 The part of Python's `str` semantics that app.py relies on: `s.replace(pat, "")`,
 which deletes every non-overlapping occurrence of `pat`, scanning from left to
 right, and `s.count(pat)`, which counts the occurrences that such a scan finds.
 */
module PyStr {

  /** `pat` starts at position `i` of `s`. */
  predicate OccursAt(s: string, pat: string, i: nat)
  {
    i + |pat| <= |s| && s[i..i + |pat|] == pat
  }

  /** `pat in s`, Python's substring test. */
  ghost predicate Occurs(s: string, pat: string)
  {
    exists i: nat :: OccursAt(s, pat, i)
  }

  /** `s.replace(pat, "")`. With an empty pattern Python inserts the empty
      replacement between every two characters, which leaves `s` as it was. */
  function DeleteAll(s: string, pat: string): (r: string)
    ensures |r| <= |s|
    decreases |s|
  {
    if pat == [] || |s| < |pat| then s
    else if s[..|pat|] == pat then DeleteAll(s[|pat|..], pat)
    else [s[0]] + DeleteAll(s[1..], pat)
  }

  /** `s.count(pat)` for a non-empty pattern: the occurrences that a left-to-right
      scan finds, an occurrence resuming the scan just after its end. */
  function Count(s: string, pat: string): nat
    requires pat != []
    decreases |s|
  {
    if |s| < |pat| then 0
    else if s[..|pat|] == pat then 1 + Count(s[|pat|..], pat)
    else Count(s[1..], pat)
  }

  /** An occurrence of `pat` in a suffix of `s` is an occurrence in `s`. */
  lemma OccursInSuffix(s: string, pat: string, k: nat, i: nat)
    requires k <= |s|
    requires OccursAt(s[k..], pat, i)
    ensures OccursAt(s, pat, k + i)
  {
    assert s[k..][i..i + |pat|] == s[k + i..k + i + |pat|];
  }

  /** A string that lacks some character of `pat` has no occurrence of `pat`. */
  lemma AbsentCharNoOccurrence(s: string, pat: string, k: nat)
    requires k < |pat|
    requires forall j :: 0 <= j < |s| ==> s[j] != pat[k]
    ensures !Occurs(s, pat)
  {
    forall i: nat ensures !OccursAt(s, pat, i) {
      if i + |pat| <= |s| {
        assert s[i..i + |pat|][k] == s[i + k] != pat[k];
      }
    }
  }

  /** A string without an occurrence of `pat` comes out of the deletion unchanged. */
  lemma {:induction false} DeleteAllWithoutOccurrence(s: string, pat: string)
    requires !Occurs(s, pat)
    ensures DeleteAll(s, pat) == s
    decreases |s|
  {
    if pat == [] || |s| < |pat| {
    } else {
      assert !OccursAt(s, pat, 0);
      assert s[..|pat|] != pat;
      forall i: nat | OccursAt(s[1..], pat, i) ensures false {
        OccursInSuffix(s, pat, 1, i);
      }
      DeleteAllWithoutOccurrence(s[1..], pat);
      assert [s[0]] + s[1..] == s;
    }
  }

  /** A leading `pat` followed by a string without `pat` is stripped exactly:
      on such a string the deletion is plain prefix removal. */
  lemma StripsLeadingOccurrence(pat: string, t: string)
    requires pat != []
    requires !Occurs(t, pat)
    ensures DeleteAll(pat + t, pat) == t
  {
    var s := pat + t;
    assert s[..|pat|] == pat;
    assert s[|pat|..] == t;
    DeleteAllWithoutOccurrence(t, pat);
  }

  /** The deletion removes exactly `|pat|` characters per occurrence that
      `s.count(pat)` reports: `len(s.replace(p, "")) == len(s) - len(p) * s.count(p)`. */
  lemma {:induction false} DeleteAllLength(s: string, pat: string)
    requires pat != []
    ensures |DeleteAll(s, pat)| == |s| - |pat| * Count(s, pat)
    decreases |s|
  {
    if |s| < |pat| {
    } else if s[..|pat|] == pat {
      DeleteAllLength(s[|pat|..], pat);
      assert |pat| * (1 + Count(s[|pat|..], pat)) == |pat| + |pat| * Count(s[|pat|..], pat);
    } else {
      DeleteAllLength(s[1..], pat);
    }
  }

  /** One step of the scan past a position where `pat` does not start. */
  lemma SkipsMismatch(c: char, rest: string, pat: string, k: nat)
    requires pat != [] && |pat| <= |rest| + 1
    requires k < |pat| && ([c] + rest)[k] != pat[k]
    ensures DeleteAll([c] + rest, pat) == [c] + DeleteAll(rest, pat)
  {
    var s := [c] + rest;
    assert s[..|pat|][k] != pat[k];
    assert s[1..] == rest;
  }

  /** The deletion is not prefix stripping: in "modelsmodels//", which is
      `pat[..6] + pat + "/"`, removing the inner occurrence of "models/" joins
      its neighbours into a new one. */
  lemma DeletionCanLeaveOccurrence(pat: string)
    requires pat == "models/"
    ensures DeleteAll(pat[..6] + pat + "/", pat) == pat
    ensures OccursAt(DeleteAll(pat[..6] + pat + "/", pat), pat, 0)
  {
    var tail := pat + "/";
    assert tail[..7] == pat && tail[7..] == "/";
    assert DeleteAll(tail, pat) == "/";
    var k := 6;
    while k > 0
      invariant 0 <= k <= 6
      invariant DeleteAll(pat[k..6] + tail, pat) == pat[k..6] + "/"
    {
      var rest := pat[k..6] + tail;
      assert ([pat[k - 1]] + rest)[6 - (k - 1)] == 'm' != pat[6 - (k - 1)];
      SkipsMismatch(pat[k - 1], rest, pat, 6 - (k - 1));
      assert pat[k - 1..6] == [pat[k - 1]] + pat[k..6];
      assert [pat[k - 1]] + rest == pat[k - 1..6] + tail;
      assert [pat[k - 1]] + (pat[k..6] + "/") == pat[k - 1..6] + "/";
      k := k - 1;
    }
    assert pat[..6] + pat + "/" == pat[0..6] + tail;
    assert pat[0..6] + "/" == pat;
  }
}
