/** The global, case-insensitive search for the target term `yale` that both substitution
    modes share: `text.replace(/Yale/gi, replacement)` scans the text from left to right and
    replaces every match that starts where the previous one ended or later. The replacement
    is a callback from the matched text to its substitute, as JavaScript allows. */
module RegexReplace {
  import opened Ascii

  /** The pattern, after case folding. */
  const Target: string := "yale"

  /** A four-character text equal to the target up to ASCII case. */
  predicate IsTarget(m: string) {
    |m| == 4 &&
    ToLower(m[0]) == Target[0] && ToLower(m[1]) == Target[1] &&
    ToLower(m[2]) == Target[2] && ToLower(m[3]) == Target[3]
  }

  /** A match of the target starts at position i of s. */
  predicate MatchesAt(s: string, i: int) {
    0 <= i && i + 4 <= |s| && IsTarget(s[i..i + 4])
  }

  /** The text holds the target in some casing. */
  predicate ContainsTarget(s: string) {
    exists i :: 0 <= i <= |s| - 4 && MatchesAt(s, i)
  }

  /** The left-to-right, non-overlapping replacement of every match m by f(m). */
  function ReplaceAll(s: string, f: string -> string): string
    decreases |s|
  {
    if |s| < 4 then s
    else if IsTarget(s[..4]) then f(s[..4]) + ReplaceAll(s[4..], f)
    else [s[0]] + ReplaceAll(s[1..], f)
  }

  /** A substitute that cannot take part in a new match: it holds no `y` in any case and
      does not start with a letter that continues a `y`. */
  predicate Inert(w: string) {
    |w| > 0 && ToLower(w[0]) !in "ale" && forall k :: 0 <= k < |w| ==> ToLower(w[k]) != 'y'
  }

  /** Every substitute the callback returns for a match is inert. */
  ghost predicate InertCallback(f: string -> string) {
    forall m :: IsTarget(m) ==> Inert(f(m))
  }

  /** The callback returns a substitute as long as the match. */
  ghost predicate SameLengthCallback(f: string -> string) {
    forall m :: IsTarget(m) ==> |f(m)| == |m|
  }

  // ---------------------------------------------------------------------------
  // Properties of the pattern

  /** Two matches of `yale` never overlap: the term has no proper border. */
  lemma NoOverlap(s: string, i: int, j: int)
    requires 0 <= i < j < i + 4
    ensures !(MatchesAt(s, i) && MatchesAt(s, j))
  {
    if j + 4 <= |s| {
      assert s[i..i + 4][j - i] == s[j] == s[j..j + 4][0];
    }
  }

  // ---------------------------------------------------------------------------
  // Properties of the scan

  /** A text with no match comes back unchanged, whatever the callback. */
  lemma {:induction false} NoMatchUnchanged(s: string, f: string -> string)
    requires !ContainsTarget(s)
    ensures ReplaceAll(s, f) == s
    decreases |s|
  {
    if |s| >= 4 {
      assert !MatchesAt(s, 0);
      assert !ContainsTarget(s[1..]) by {
        forall i | 0 <= i <= |s[1..]| - 4 ensures !MatchesAt(s[1..], i) {
          assert !MatchesAt(s, i + 1);
          assert s[1..][i..i + 4] == s[i + 1..i + 5];
        }
      }
      NoMatchUnchanged(s[1..], f);
    }
  }

  /** One step of the scan at a match. */
  lemma ScanMatch(s: string, f: string -> string)
    requires |s| >= 4 && IsTarget(s[..4])
    ensures ReplaceAll(s, f) == f(s[..4]) + ReplaceAll(s[4..], f)
  {
  }

  /** One step of the scan where no match starts. */
  lemma ScanKeep(s: string, f: string -> string)
    requires |s| >= 4 && !IsTarget(s[..4])
    ensures ReplaceAll(s, f) == [s[0]] + ReplaceAll(s[1..], f)
  {
  }

  /** Every occurrence m of the target, whatever its casing, becomes f(m), and the text on
      either side of it is substituted on its own: the scan never runs across a match. */
  lemma {:induction false} SplitAtMatch(a: string, m: string, b: string, f: string -> string)
    requires IsTarget(m)
    ensures ReplaceAll(a + m + b, f) == ReplaceAll(a, f) + f(m) + ReplaceAll(b, f)
    decreases |a|, 1
  {
    if a == [] {
      var s := a + m + b;
      assert s[..4] == m && s[4..] == b;
      ScanMatch(s, f);
    } else if |a| < 4 {
      SplitShortLead(a, m, b, f);
    } else if IsTarget(a[..4]) {
      SplitAfterMatch(a, m, b, f);
    } else {
      SplitAfterKeep(a, m, b, f);
    }
  }

  /** Regrouping a concatenation of four texts. */
  lemma Regroup(x: string, y: string, z: string, w: string)
    ensures x + (y + z + w) == x + y + z + w
  {
  }

  /** SplitAtMatch when fewer than four characters precede the match. */
  lemma {:induction false} SplitShortLead(a: string, m: string, b: string, f: string -> string)
    requires IsTarget(m) && 0 < |a| < 4
    ensures ReplaceAll(a + m + b, f) == ReplaceAll(a, f) + f(m) + ReplaceAll(b, f)
    decreases |a|, 0
  {
    var s := a + m + b;
    assert s[1..] == a[1..] + m + b;
    assert s[|a|..|a| + 4] == m;
    NoOverlap(s, 0, |a|);
    ScanKeep(s, f);
    SplitAtMatch(a[1..], m, b, f);
    assert ReplaceAll(a, f) == a && ReplaceAll(a[1..], f) == a[1..];
    Regroup([a[0]], a[1..], f(m), ReplaceAll(b, f));
    assert a == [a[0]] + a[1..];
  }

  /** SplitAtMatch when another match starts the text. */
  lemma {:induction false} SplitAfterMatch(a: string, m: string, b: string, f: string -> string)
    requires IsTarget(m) && |a| >= 4 && IsTarget(a[..4])
    ensures ReplaceAll(a + m + b, f) == ReplaceAll(a, f) + f(m) + ReplaceAll(b, f)
    decreases |a|, 0
  {
    var s := a + m + b;
    assert s[..4] == a[..4];
    assert s[4..] == a[4..] + m + b;
    ScanMatch(s, f);
    ScanMatch(a, f);
    SplitAtMatch(a[4..], m, b, f);
    Regroup(f(a[..4]), ReplaceAll(a[4..], f), f(m), ReplaceAll(b, f));
  }

  /** SplitAtMatch when no match starts the text and at least four characters precede m. */
  lemma {:induction false} SplitAfterKeep(a: string, m: string, b: string, f: string -> string)
    requires IsTarget(m) && |a| >= 4 && !IsTarget(a[..4])
    ensures ReplaceAll(a + m + b, f) == ReplaceAll(a, f) + f(m) + ReplaceAll(b, f)
    decreases |a|, 0
  {
    var s := a + m + b;
    assert s[..4] == a[..4];
    assert s[1..] == a[1..] + m + b;
    ScanKeep(s, f);
    ScanKeep(a, f);
    SplitAtMatch(a[1..], m, b, f);
    Regroup([a[0]], ReplaceAll(a[1..], f), f(m), ReplaceAll(b, f));
  }

  /** Matching at position j of a suffix is matching at position j + d of the whole text. */
  lemma MatchesInSuffix(s: string, d: nat, j: int)
    requires d <= |s| && 0 <= j
    ensures MatchesAt(s[d..], j) == MatchesAt(s, j + d)
  {
    if j + 4 <= |s[d..]| {
      assert s[d..][j..j + 4] == s[j + d..j + d + 4];
    }
  }

  /** With a callback that keeps lengths, the result is as long as the text. */
  lemma {:induction false} LengthPreserved(s: string, f: string -> string)
    requires SameLengthCallback(f)
    ensures |ReplaceAll(s, f)| == |s|
    decreases |s|
  {
    if |s| >= 4 {
      if IsTarget(s[..4]) {
        LengthPreserved(s[4..], f);
      } else {
        LengthPreserved(s[1..], f);
      }
    }
  }

  /** With a callback that keeps lengths, the four characters of every match are replaced
      by the callback's substitute for them, in the same place. */
  lemma ReplacedAtMatch(s: string, f: string -> string, j: int)
    requires SameLengthCallback(f) && MatchesAt(s, j)
    ensures |ReplaceAll(s, f)| == |s|
    ensures ReplaceAll(s, f)[j..j + 4] == f(s[j..j + 4])
  {
    var a, m, b := s[..j], s[j..j + 4], s[j + 4..];
    assert s == a + m + b;
    SplitAtMatch(a, m, b, f);
    LengthPreserved(a, f);
    LengthPreserved(b, f);
    LengthPreserved(s, f);
  }

  /** With a callback that keeps lengths, a character that lies in no match is kept. */
  lemma {:induction false} KeptOutsideMatches(s: string, f: string -> string, i: int)
    requires SameLengthCallback(f) && 0 <= i < |s|
    requires forall j :: i - 3 <= j <= i ==> !MatchesAt(s, j)
    ensures |ReplaceAll(s, f)| == |s|
    ensures ReplaceAll(s, f)[i] == s[i]
    decreases |s|
  {
    LengthPreserved(s, f);
    if |s| >= 4 {
      if IsTarget(s[..4]) {
        assert MatchesAt(s, 0);
        forall j | i - 7 <= j <= i - 4 ensures !MatchesAt(s[4..], j) {
          if 0 <= j { MatchesInSuffix(s, 4, j); }
        }
        KeptOutsideMatches(s[4..], f, i - 4);
      } else if i > 0 {
        forall j | i - 4 <= j <= i - 1 ensures !MatchesAt(s[1..], j) {
          if 0 <= j { MatchesInSuffix(s, 1, j); }
        }
        KeptOutsideMatches(s[1..], f, i - 1);
      }
    }
  }

  /** A text that begins with a match is substituted into one that begins with an inert
      substitute. */
  lemma InertLead(s: string, f: string -> string)
    requires InertCallback(f) && |s| >= 4 && IsTarget(s[..4])
    ensures |ReplaceAll(s, f)| > 0 && ToLower(ReplaceAll(s, f)[0]) !in "ale"
  {
    var w := f(s[..4]);
    assert Inert(w);
    assert ReplaceAll(s, f)[0] == w[0];
  }

  /** If the substituted text begins with the last 4 - k letters of the target (k >= 1),
      so did the text itself: an inert substitute never supplies them. */
  lemma {:induction false} LeadReflects(s: string, f: string -> string, k: nat)
    requires InertCallback(f) && 1 <= k < 4
    requires |ReplaceAll(s, f)| >= 4 - k
    requires forall t :: 0 <= t < 4 - k ==> ToLower(ReplaceAll(s, f)[t]) == Target[k + t]
    ensures |s| >= 4 - k && forall t :: 0 <= t < 4 - k ==> ToLower(s[t]) == Target[k + t]
    decreases |s|
  {
    if |s| >= 4 {
      if IsTarget(s[..4]) {
        InertLead(s, f);
        assert false;
      } else {
        var r' := ReplaceAll(s[1..], f);
        assert ReplaceAll(s, f) == [s[0]] + r';
        assert ReplaceAll(s, f)[0] == s[0];
        assert ToLower(s[0]) == Target[k];
        if k < 3 {
          assert forall t :: 0 <= t < 3 - k ==> r'[t] == ReplaceAll(s, f)[t + 1];
          LeadReflects(s[1..], f, k + 1);
          forall t | 1 <= t < 4 - k ensures ToLower(s[t]) == Target[k + t] {
            assert s[t] == s[1..][t - 1];
          }
        }
      }
    }
  }

  /** After the scan, with an inert callback, no match is left. */
  lemma {:induction false} NoneRemain(s: string, f: string -> string)
    requires InertCallback(f)
    ensures !ContainsTarget(ReplaceAll(s, f))
    decreases |s|, 1
  {
    if |s| >= 4 {
      if IsTarget(s[..4]) {
        NoneRemainAfterMatch(s, f);
      } else {
        NoneRemainAfterKeep(s, f);
      }
    }
  }

  /** NoneRemain when a match starts the text. */
  lemma {:induction false} NoneRemainAfterMatch(s: string, f: string -> string)
    requires InertCallback(f) && |s| >= 4 && IsTarget(s[..4])
    ensures !ContainsTarget(ReplaceAll(s, f))
    decreases |s|, 0
  {
    var w, r' := f(s[..4]), ReplaceAll(s[4..], f);
    var r := w + r';
    ScanMatch(s, f);
    assert Inert(w);
    NoneRemain(s[4..], f);
    forall i | 0 <= i <= |r| - 4 ensures !MatchesAt(r, i) {
      if i < |w| {
        assert r[i..i + 4][0] == w[i];
      } else {
        assert r[i..i + 4] == r'[i - |w|..i - |w| + 4];
        assert !MatchesAt(r', i - |w|);
      }
    }
  }

  /** Where no match starts the text, none starts the substituted text either. */
  lemma KeptLeadStartsNoMatch(s: string, f: string -> string)
    requires InertCallback(f) && |s| >= 4 && !IsTarget(s[..4])
    ensures !MatchesAt([s[0]] + ReplaceAll(s[1..], f), 0)
  {
    var r' := ReplaceAll(s[1..], f);
    var r := [s[0]] + r';
    var u := s[..4];
    assert u[0] == s[0] && u[1] == s[1..][0] && u[2] == s[1..][1] && u[3] == s[1..][2];
    if MatchesAt(r, 0) {
      var w := r[0..4];
      assert w[0] == s[0] && w[1] == r'[0] && w[2] == r'[1] && w[3] == r'[2];
      LeadReflects(s[1..], f, 1);
      assert false;
    }
  }

  /** NoneRemain when no match starts the text. */
  lemma {:induction false} NoneRemainAfterKeep(s: string, f: string -> string)
    requires InertCallback(f) && |s| >= 4 && !IsTarget(s[..4])
    ensures !ContainsTarget(ReplaceAll(s, f))
    decreases |s|, 0
  {
    var r' := ReplaceAll(s[1..], f);
    var r := [s[0]] + r';
    ScanKeep(s, f);
    NoneRemain(s[1..], f);
    forall i | 0 <= i <= |r| - 4 ensures !MatchesAt(r, i) {
      if i == 0 {
        KeptLeadStartsNoMatch(s, f);
      } else {
        assert r[i..i + 4] == r'[i - 1..i + 3];
        assert !MatchesAt(r', i - 1);
      }
    }
  }

  /** A text with no `y` in either case holds no match. */
  lemma NoLetterY(s: string)
    requires 'y' !in s && 'Y' !in s
    ensures !ContainsTarget(s)
  {
    forall i | 0 <= i <= |s| - 4 ensures !MatchesAt(s, i) {
      assert s[i..i + 4][0] == s[i];
    }
  }

  /** A text whose only `y` is not followed by an `a` holds no match. */
  lemma NoMatchAroundY(a: string, y: char, b: string)
    requires 'y' !in a && 'Y' !in a && 'y' !in b && 'Y' !in b
    requires |b| > 0 && ToLower(b[0]) != 'a'
    ensures !ContainsTarget(a + [y] + b)
  {
    var s := a + [y] + b;
    forall i | 0 <= i <= |s| - 4 ensures !MatchesAt(s, i) {
      if i < |a| {
        assert s[i] == a[i];
        assert s[i..i + 4][0] == s[i];
      } else if i == |a| {
        assert s[i + 1] == b[0];
        assert s[i..i + 4][1] == s[i + 1];
      } else {
        assert s[i] == b[i - |a| - 1];
        assert s[i..i + 4][0] == s[i];
      }
    }
  }
}
