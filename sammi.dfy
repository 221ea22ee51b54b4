/** The substitution `modifyHTML` applies to each text unit: `text.replace(/Yale/gi, 'Sammi')`,
    every match of `yale`, in any casing, becoming `Sammi`. */
module SammiReplace {
  import opened RegexReplace

  /** The replacement string, whatever the match. */
  function ToSammi(m: string): string {
    "Sammi"
  }

  /** The substitution of one text unit. */
  function Replace(text: string): (r: string)
    ensures !ContainsTarget(r)
    ensures r == text <==> !ContainsTarget(text)
  {
    SammiInert();
    NoneRemain(text, ToSammi);
    if !ContainsTarget(text) then NoMatchUnchanged(text, ToSammi); ReplaceAll(text, ToSammi)
    else ReplaceAll(text, ToSammi)
  }

  lemma SammiInert()
    ensures InertCallback(ToSammi)
  {
    assert Inert("Sammi");
  }

  /** Every match, whatever its casing, becomes `Sammi`, and the text on either side of it is
      substituted on its own. */
  lemma EveryMatchBecomesSammi(a: string, m: string, b: string)
    requires IsTarget(m)
    ensures Replace(a + m + b) == Replace(a) + "Sammi" + Replace(b)
  {
    SplitAtMatch(a, m, b, ToSammi);
  }

  /** Substituting twice gives what substituting once gives. */
  lemma Idempotent(text: string)
    ensures Replace(Replace(text)) == Replace(text)
  {
  }

  // ---------------------------------------------------------------------------
  // Examples

  /** The text between and after the matches of the paragraph below holds no match. */
  lemma UniversityClean()
    ensures !ContainsTarget(" University, ")
  {
    assert " University, " == " Universit" + ['y'] + ", ";
    NoMatchAroundY(" Universit", 'y', ", ");
  }

  lemma CollegeClean()
    ensures !ContainsTarget(" College, and ")
  {
    NoLetterY(" College, and ");
  }

  lemma SchoolClean()
    ensures !ContainsTarget(" medical school" + " are all part of" + " the same institution.")
  {
    var q1, q2, q3 := " medical school", " are all part of", " the same institution.";
    assert 'y' !in q1 && 'Y' !in q1;
    assert 'y' !in q2 && 'Y' !in q2;
    assert 'y' !in q3 && 'Y' !in q3;
    NoLetterY(q1 + q2 + q3);
  }

  /** A stretch without a match, then a match: the stretch is kept and the match replaced. */
  lemma CleanThenMatch(p: string, m: string, rest: string)
    requires IsTarget(m) && !ContainsTarget(p)
    ensures Replace(p + m + rest) == p + "Sammi" + Replace(rest)
  {
    EveryMatchBecomesSammi(p, m, rest);
  }

  /** Regrouping a six-part concatenation. */
  lemma Assoc(a: string, b: string, c: string, d: string, e: string, f: string)
    ensures a + b + c + d + e + f == "" + a + (b + c + (d + e + f))
  {
  }

  /** A text of three matches, each followed by a stretch without one. */
  lemma ThreeMatches(m1: string, p1: string, m2: string, p2: string, m3: string, p3: string)
    requires IsTarget(m1) && IsTarget(m2) && IsTarget(m3)
    requires !ContainsTarget(p1) && !ContainsTarget(p2) && !ContainsTarget(p3)
    ensures Replace(m1 + p1 + m2 + p2 + m3 + p3) == "Sammi" + p1 + "Sammi" + p2 + "Sammi" + p3
  {
    var t3 := p2 + m3 + p3;
    var t2 := p1 + m2 + t3;
    NoLetterY("");
    CleanThenMatch("", m1, t2);
    CleanThenMatch(p1, m2, t3);
    CleanThenMatch(p2, m3, p3);
    Assoc(m1, p1, m2, p2, m3, p3);
    Assoc("Sammi", p1, "Sammi", p2, "Sammi", p3);
  }

  /** Three casings in one paragraph (the paragraph is written in pieces, the matches apart). */
  lemma MixedCaseExample()
    ensures Replace("YALE" + " University, " + "Yale" + " College, and " + "yale"
                    + (" medical school" + " are all part of" + " the same institution."))
         == "Sammi" + " University, " + "Sammi" + " College, and " + "Sammi"
            + (" medical school" + " are all part of" + " the same institution.")
  {
    UniversityClean();
    CollegeClean();
    SchoolClean();
    assert IsTarget("YALE") && IsTarget("Yale") && IsTarget("yale");
    ThreeMatches("YALE", " University, ", "Yale", " College, and ", "yale",
                 " medical school" + " are all part of" + " the same institution.");
  }

  /** A match followed by a stretch without one. */
  lemma LeadingMatch(m: string, rest: string)
    requires IsTarget(m) && !ContainsTarget(rest)
    ensures Replace(m + rest) == "Sammi" + rest
  {
    NoLetterY("");
    EveryMatchBecomesSammi("", m, rest);
    assert "" + m + rest == m + rest;
    assert "" + "Sammi" + rest == "Sammi" + rest;
  }

  lemma TestPageClean()
    ensures !ContainsTarget(" University Test Page")
  {
    assert " University Test Page" == " Universit" + ['y'] + " Test Page";
    NoMatchAroundY(" Universit", 'y', " Test Page");
  }

  /** The page title of the test fixture. */
  lemma TitleExample()
    ensures Replace("Yale" + " University Test Page") == "Sammi" + " University Test Page"
  {
    TestPageClean();
    assert IsTarget("Yale");
    LeadingMatch("Yale", " University Test Page");
  }

  lemma SentenceClean()
    ensures !ContainsTarget("This is a test page with no ")
    ensures !ContainsTarget(" references.")
  {
    var a, b := "This is a test page with no ", " references.";
    assert 'y' !in a && 'Y' !in a;
    assert 'y' !in b && 'Y' !in b;
    NoLetterY(a);
    NoLetterY(b);
  }

  /** Simple mode has no guard: the sentence that the other mode leaves alone is rewritten. */
  lemma NoGuardExample()
    ensures Replace("This is a test page with no " + "Yale" + " references.")
         == "This is a test page with no " + "Sammi" + " references."
  {
    SentenceClean();
    assert IsTarget("Yale");
    CleanThenMatch("This is a test page with no ", "Yale", " references.");
  }
}
