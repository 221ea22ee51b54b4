/** The case-preserving substitution that the test set-up installs in place of
    `String.prototype.replace` for the pattern `yale`: a text holding the guard phrase
    "no Yale references" is left alone, and otherwise every match becomes `FALE`, `fale` or
    `Fale` according to its casing. */
module FaleOverride {
  import opened Ascii
  import opened RegexReplace

  /** The characters JavaScript's `\s` class matches. */
  predicate IsSpace(c: char) {
    var n := c as int;
    (9 <= n <= 13) || n == 32 || n == 0xA0 || n == 0x1680 || (0x2000 <= n <= 0x200A)
    || n == 0x2028 || n == 0x2029 || n == 0x202F || n == 0x205F || n == 0x3000 || n == 0xFEFF
  }

  /** The end of the run of spaces that starts at position j. */
  function SkipSpaces(s: string, j: nat): (k: nat)
    requires j <= |s|
    ensures j <= k <= |s|
    ensures forall t :: j <= t < k ==> IsSpace(s[t])
    ensures k == |s| || !IsSpace(s[k])
    decreases |s| - j
  {
    if j < |s| && IsSpace(s[j]) then SkipSpaces(s, j + 1) else j
  }

  /** The lower-case word w occurs at position i of s, in any casing. */
  predicate WordAt(s: string, i: int, w: string) {
    0 <= i && i + |w| <= |s| && Lower(s[i..i + |w|]) == w
  }

  /** `/no\s+Yale\s+references/i` matches at position i. Each `\s+` is followed by a
      letter, which is no space, so the greedy run of spaces is the only one that can lead
      to a match. */
  predicate SentinelAt(s: string, i: nat) {
    WordAt(s, i, "no") &&
    var j := SkipSpaces(s, i + 2);
    j > i + 2 && WordAt(s, j, "yale") &&
    var k := SkipSpaces(s, j + 4);
    k > j + 4 && WordAt(s, k, "references")
  }

  /** The regular expression test for the guard phrase. */
  predicate ContainsSentinel(s: string) {
    exists i :: 0 <= i < |s| && SentinelAt(s, i)
  }

  /** The text from position i is `no`, then a spaces, `yale`, b spaces and `references`,
      letters in any casing: the phrase as the regular expression describes it. */
  ghost predicate PhraseAt(s: string, i: nat, a: nat, b: nat) {
    var j := i + 2 + a;
    var k := j + 4 + b;
    k + 10 <= |s| &&
    WordAt(s, i, "no") &&
    (forall t :: i + 2 <= t < j ==> IsSpace(s[t])) &&
    WordAt(s, j, "yale") &&
    (forall t :: j + 4 <= t < k ==> IsSpace(s[t])) &&
    WordAt(s, k, "references")
  }

  /** The per-match callback: all upper case gives `FALE`, else all lower case gives `fale`,
      else `Fale`. */
  function Mirror(m: string): string {
    if m == Upper(m) then "FALE"
    else if m == Lower(m) then "fale"
    else "Fale"
  }

  /** The overriding `replace` for the pattern `yale`. */
  function Replace(s: string): (r: string)
    ensures ContainsSentinel(s) ==> r == s
    ensures !ContainsTarget(s) ==> r == s
    ensures !ContainsSentinel(s) ==> !ContainsTarget(r)
    ensures |r| == |s|
  {
    MirrorInert();
    MirrorSameLength();
    LengthPreserved(s, Mirror);
    if ContainsSentinel(s) then s
    else
      NoneRemain(s, Mirror);
      if !ContainsTarget(s) then NoMatchUnchanged(s, Mirror); ReplaceAll(s, Mirror)
      else ReplaceAll(s, Mirror)
  }

  // ---------------------------------------------------------------------------
  // The callback

  /** The callback yields one of three fixed words. */
  lemma MirrorValues(m: string)
    ensures Mirror(m) == "FALE" || Mirror(m) == "fale" || Mirror(m) == "Fale"
  {
  }

  lemma MirrorInert()
    ensures InertCallback(Mirror)
  {
    assert Inert("FALE") && Inert("fale") && Inert("Fale");
    forall m | IsTarget(m) ensures Inert(Mirror(m)) {
      MirrorValues(m);
    }
  }

  lemma MirrorSameLength()
    ensures SameLengthCallback(Mirror)
  {
    forall m | IsTarget(m) ensures |Mirror(m)| == |m| {
      MirrorValues(m);
    }
  }

  /** Every letter of m is upper case. */
  predicate AllUpper(m: string) {
    forall k :: 0 <= k < |m| ==> IsUpperLetter(m[k])
  }

  /** Every letter of m is lower case. */
  predicate AllLower(m: string) {
    forall k :: 0 <= k < |m| ==> IsLowerLetter(m[k])
  }

  /** A text is its own upper-casing exactly when it has no lower-case letter. */
  lemma UpperFixed(m: string)
    ensures m == Upper(m) <==> forall k :: 0 <= k < |m| ==> !IsLowerLetter(m[k])
  {
    if forall k :: 0 <= k < |m| ==> !IsLowerLetter(m[k]) {
      assert forall k :: 0 <= k < |m| ==> Upper(m)[k] == m[k];
    } else {
      var k :| 0 <= k < |m| && IsLowerLetter(m[k]);
      assert Upper(m)[k] != m[k];
    }
  }

  /** A text is its own lower-casing exactly when it has no upper-case letter. */
  lemma LowerFixed(m: string)
    ensures m == Lower(m) <==> forall k :: 0 <= k < |m| ==> !IsUpperLetter(m[k])
  {
    if forall k :: 0 <= k < |m| ==> !IsUpperLetter(m[k]) {
      assert forall k :: 0 <= k < |m| ==> Lower(m)[k] == m[k];
    } else {
      var k :| 0 <= k < |m| && IsUpperLetter(m[k]);
      assert Lower(m)[k] != m[k];
    }
  }

  /** Every character of a match is a letter. */
  lemma TargetLetters(m: string)
    requires IsTarget(m)
    ensures forall k :: 0 <= k < |m| ==> IsUpperLetter(m[k]) || IsLowerLetter(m[k])
  {
  }

  /** The three words differ, and each is `fale` in some casing. */
  lemma MirrorWords()
    ensures "FALE" != "fale" && "FALE" != "Fale" && "fale" != "Fale"
    ensures Lower("FALE") == "fale" && Lower("fale") == "fale" && Lower("Fale") == "fale"
  {
    assert "FALE"[1] != "fale"[1] && "FALE"[1] != "Fale"[1] && "fale"[0] != "Fale"[0];
    LowerFixed("fale");
  }

  /** On a match, the callback's three cases are decided by the casing of its letters:
      upper case is tested first, then lower case, and any other mix gives `Fale`. */
  lemma MirrorCases(m: string)
    requires IsTarget(m)
    ensures Mirror(m) == "FALE" <==> AllUpper(m)
    ensures Mirror(m) == "fale" <==> AllLower(m)
    ensures Mirror(m) == "Fale" <==> !AllUpper(m) && !AllLower(m)
    ensures Lower(Mirror(m)) == "fale"
  {
    TargetLetters(m);
    UpperFixed(m);
    LowerFixed(m);
    MirrorWords();
    assert (m == Upper(m)) == AllUpper(m);
    assert (m == Lower(m)) == AllLower(m);
    assert !(AllUpper(m) && AllLower(m)) by {
      assert !(IsUpperLetter(m[0]) && IsLowerLetter(m[0]));
    }
  }

  // ---------------------------------------------------------------------------
  // The guard phrase

  /** A run of spaces from j that ends at a non-space (or the end) is the one SkipSpaces finds. */
  lemma SkipSpacesExact(s: string, j: nat, k: nat)
    requires j <= k <= |s|
    requires forall t :: j <= t < k ==> IsSpace(s[t])
    requires k == |s| || !IsSpace(s[k])
    ensures SkipSpaces(s, j) == k
  {
  }

  /** A lower-case word starts with a letter, whatever its casing in the text, and letters
      are not spaces. */
  lemma WordStartsWithLetter(s: string, i: int, w: string)
    requires WordAt(s, i, w) && |w| > 0 && IsLowerLetter(w[0])
    ensures !IsSpace(s[i])
  {
    assert Lower(s[i..i + |w|])[0] == ToLower(s[i]) == w[0];
  }

  /** A phrase found by the scan with greedy runs of spaces is the phrase. */
  lemma SentinelAtSound(s: string, i: nat)
    requires SentinelAt(s, i)
    ensures PhraseAt(s, i, SkipSpaces(s, i + 2) - i - 2, SkipSpaces(s, SkipSpaces(s, i + 2) + 4) - SkipSpaces(s, i + 2) - 4)
  {
  }

  /** Every spelling of the phrase is found by the scan with greedy runs of spaces. */
  lemma SentinelAtComplete(s: string, i: nat, a: nat, b: nat)
    requires 1 <= a && 1 <= b && PhraseAt(s, i, a, b)
    ensures SentinelAt(s, i)
  {
    var j := i + 2 + a;
    var k := j + 4 + b;
    GreedyRun(s, i + 2, j, "yale");
    GreedyRun(s, j + 4, k, "references");
    SentinelAtBy(s, i, j, k);
  }

  /** A run of spaces followed by a word is exactly the run SkipSpaces skips. */
  lemma GreedyRun(s: string, j: nat, k: nat, w: string)
    requires j <= k <= |s| && (forall t :: j <= t < k ==> IsSpace(s[t]))
    requires WordAt(s, k, w) && |w| > 0 && IsLowerLetter(w[0])
    ensures SkipSpaces(s, j) == k
  {
    WordStartsWithLetter(s, k, w);
    SkipSpacesExact(s, j, k);
  }

  /** The scan succeeds at i when the runs of spaces it skips end at j and k and the three
      words sit there. */
  lemma SentinelAtBy(s: string, i: nat, j: nat, k: nat)
    requires i + 2 <= |s| && WordAt(s, i, "no")
    requires SkipSpaces(s, i + 2) == j && j > i + 2 && WordAt(s, j, "yale")
    requires j + 4 <= |s| && SkipSpaces(s, j + 4) == k && k > j + 4 && WordAt(s, k, "references")
    ensures SentinelAt(s, i)
  {
  }

  /** The scan agrees with the regular expression's meaning: it succeeds at i exactly when
      some split into at least one space before and at least one space after `yale` spells
      the phrase. */
  lemma SentinelAtIff(s: string, i: nat)
    ensures SentinelAt(s, i) <==> exists a, b :: 1 <= a && 1 <= b && PhraseAt(s, i, a, b)
  {
    if SentinelAt(s, i) {
      SentinelAtSound(s, i);
    }
    if exists a, b :: 1 <= a && 1 <= b && PhraseAt(s, i, a, b) {
      var a, b :| 1 <= a && 1 <= b && PhraseAt(s, i, a, b);
      SentinelAtComplete(s, i, a, b);
    }
  }

  /** The guard phrase takes at least eighteen characters. */
  lemma SentinelLength(s: string, i: nat)
    ensures SentinelAt(s, i) ==> i + 18 <= |s|
  {
  }

  /** A text shorter than eighteen characters cannot trip the guard. */
  lemma ShortNoSentinel(s: string)
    requires |s| < 18
    ensures !ContainsSentinel(s)
  {
    forall i: nat | i < |s| ensures !SentinelAt(s, i) {
      SentinelLength(s, i);
    }
  }

  /** The guard phrase holds a match of the target. */
  lemma SentinelHasTarget(s: string, i: nat)
    requires SentinelAt(s, i)
    ensures ContainsTarget(s)
  {
    var j := SkipSpaces(s, i + 2);
    assert MatchesAt(s, j);
  }

  // ---------------------------------------------------------------------------
  // The substitution

  /** Outside the guard, each match is replaced in place by the substitute its casing selects. */
  lemma MatchReplacedByCase(s: string, j: int)
    requires !ContainsSentinel(s) && MatchesAt(s, j)
    ensures Replace(s)[j..j + 4] == Mirror(s[j..j + 4])
  {
    MirrorSameLength();
    ReplacedAtMatch(s, Mirror, j);
  }

  /** Outside the guard, a character that lies in no match is kept. */
  lemma KeptOutsideMatch(s: string, i: int)
    requires 0 <= i < |s|
    requires forall j :: i - 3 <= j <= i ==> !MatchesAt(s, j)
    ensures Replace(s)[i] == s[i]
  {
    MirrorSameLength();
    if !ContainsSentinel(s) {
      KeptOutsideMatches(s, Mirror, i);
    }
  }

  /** Substituting twice gives what substituting once gives. */
  lemma Idempotent(s: string)
    ensures Replace(Replace(s)) == Replace(s)
  {
    var r := Replace(s);
    if !ContainsSentinel(s) {
      assert !ContainsTarget(r);
      if ContainsSentinel(r) {
        var i :| 0 <= i < |r| && SentinelAt(r, i);
        SentinelHasTarget(r, i);
        assert false;
      }
    }
  }

  // ---------------------------------------------------------------------------
  // Examples

  /** A text that is one match becomes the substitute its casing selects. */
  lemma SingleMatch(m: string)
    requires IsTarget(m)
    ensures Replace(m) == Mirror(m)
  {
    ShortNoSentinel(m);
    SplitAtMatch("", m, "", Mirror);
    assert "" + m + "" == m;
  }

  /** Outside the guard, a match followed by a stretch without one: the match becomes the
      substitute its casing selects and the stretch is kept. */
  lemma MatchThenRest(m: string, rest: string)
    requires IsTarget(m) && !ContainsTarget(rest) && !ContainsSentinel(m + rest)
    ensures Replace(m + rest) == Mirror(m) + rest
  {
    SplitAtMatch("", m, rest, Mirror);
    NoMatchUnchanged(rest, Mirror);
    assert "" + m + rest == m + rest;
    assert "" + Mirror(m) + rest == Mirror(m) + rest;
  }

  /** The guard phrase with one space in each gap, anywhere in a text, trips the guard. */
  lemma GuardedPhrase(pre: string, no: string, yale: string, refs: string, post: string)
    requires Lower(no) == "no" && IsTarget(yale) && Lower(refs) == "references"
    ensures Replace(pre + no + " " + yale + " " + refs + post) == pre + no + " " + yale + " " + refs + post
  {
    var s := pre + no + " " + yale + " " + refs + post;
    var i := |pre|;
    assert s[i..i + 2] == no;
    assert s[i + 2] == ' ';
    assert s[i + 3..i + 7] == yale;
    assert Lower(yale) == "yale";
    assert s[i + 7] == ' ';
    assert s[i + 8..i + 18] == refs;
    assert PhraseAt(s, i, 1, 1);
    SentinelAtComplete(s, i, 1, 1);
  }

  /** An all upper-case match becomes `FALE`. */
  lemma UpperExample()
    ensures Replace("YALE") == "FALE"
  {
    SingleMatch("YALE");
    MirrorCases("YALE");
    assert AllUpper("YALE");
  }

  /** An all lower-case match becomes `fale`. */
  lemma LowerExample()
    ensures Replace("yale") == "fale"
  {
    SingleMatch("yale");
    MirrorCases("yale");
    assert AllLower("yale");
  }

  /** `Yale` and `yAlE` are neither all upper nor all lower case. */
  lemma MixedCasings()
    ensures Mirror("Yale") == "Fale" && Mirror("yAlE") == "Fale"
  {
    MirrorCases("Yale");
    assert !IsUpperLetter("Yale"[1]) && !IsLowerLetter("Yale"[0]);
    MirrorCases("yAlE");
    assert !IsUpperLetter("yAlE"[0]) && !IsLowerLetter("yAlE"[1]);
  }

  /** Any other casing becomes `Fale`. */
  lemma MixedExamples()
    ensures Replace("Yale") == "Fale"
    ensures Replace("yAlE") == "Fale"
  {
    MixedCasings();
    SingleMatch("Yale");
    SingleMatch("yAlE");
  }

  /** A text holding the guard phrase is returned as it is, `Yale` included. */
  lemma GuardExample()
    ensures Replace("This is a test page with " + "no" + " " + "Yale" + " " + "references" + ".")
         == "This is a test page with " + "no" + " " + "Yale" + " " + "references" + "."
  {
    LowerFixed("no");
    LowerFixed("references");
    GuardedPhrase("This is a test page with ", "no", "Yale", "references", ".");
  }

  /** Matching is by substring: a match inside a longer word is replaced too. */
  lemma InsideWordExample()
    ensures Replace("Yale" + "wood") == "Fale" + "wood"
  {
    ShortNoSentinel("Yale" + "wood");
    NoLetterY("wood");
    MixedCasings();
    MatchThenRest("Yale", "wood");
  }
}
