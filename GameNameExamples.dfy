/**
 * Worked examples of title derivation: a prefixed description cut at " that ",
 * a prefixed description cut at "." and then ",", and the name fallback for an
 * empty description. Each example is proved step by step (prefix match, first
 * occurrence of each stop word, final trim) through lemmas whose arguments are
 * variables, so that the solver does not unfold the string functions on
 * literals.
 */
module GameNameExamples {
  import opened Wrappers
  import opened Text
  import opened GameName

  /** "A fix for " is the first prefix matching this description. */
  lemma SuperGamePrefix(d: string)
    requires d == "A fix for " + ("Super Game" + " that " + "adds ultrawide support.")
    ensures CleanDescription(Some(d)) == d && FirstPrefix(d, 0) == Some(1)
  {
    assert d[|d| - 1] == '.';
    StripTrimmed(d);
    assert d[0] == 'A' && LowerChar('A') == 'a';
    assert Lower(d)[0] == 'a';
    assert !HasPrefix(d, 0);
    LowerPrefix(d, 10);
    assert Prefixes[1] == "A fix for ";
    assert d[..10] == Prefixes[1];
  }

  /** " that " cuts the text to "Super Game", and no later stop word occurs in it. */
  lemma SuperGameCut(rest: string)
    requires rest == "Super Game" + " that " + "adds ultrawide support."
    ensures CutAll(rest, StopWords) == "Super Game"
  {
    OccursBetween("Super Game", " that ", "adds ultrawide support.");
    assert rest[..11] == "Super Game ";
    FirstOccurrence(rest, " that ", 10, 1);
    var c := "Super Game";
    assert CutAt(rest, " that ") == c;
    CharAbsentNotContains(c, " which ", 1);
    CharAbsentNotContains(c, " adding ", 2);
    CharAbsentNotContains(c, ".", 0);
    CharAbsentNotContains(c, ",", 0);
    CutAllAbsent(c, StopWords[1..]);
  }

  lemma SuperGameAt(repoName: string, d: string)
    requires d == "A fix for " + ("Super Game" + " that " + "adds ultrawide support.")
    ensures GameTitle(repoName, Some(d)) == "Super Game"
  {
    SuperGamePrefix(d);
    TitleWithPrefix(repoName, Some(d), 1);
    assert |Prefixes[1]| == 10;
    var rest := "Super Game" + " that " + "adds ultrawide support.";
    assert d[10..] == rest;
    SuperGameCut(rest);
    StripTrimmed("Super Game");
  }

  /** "A fix for Super Game that adds ultrawide support." gives "Super Game". */
  lemma SuperGame()
    ensures GameTitle("SuperGameFix", Some("A fix for Super Game that adds ultrawide support.")) == "Super Game"
  {
    SuperGameAt("SuperGameFix", "A fix for Super Game that adds ultrawide support.");
  }

  /** "An ASI plugin for " is the first prefix matching this description; the
      earlier "A fix for " fails at its second character. */
  lemma WidescreenPrefix(d: string)
    requires d == "An ASI plugin for " + ("Widescreen Fixer" + "," + " see notes" + ".")
    ensures CleanDescription(Some(d)) == d && FirstPrefix(d, 0) == Some(3)
  {
    assert d[|d| - 1] == '.';
    StripTrimmed(d);
    assert d[0] == 'A' && d[1] == 'n';
    assert Lower(d)[0] == 'a' && Lower(d)[1] == 'n';
    assert Prefixes[1] == "A fix for " && Lower(Prefixes[1])[1] == ' ';
    assert !HasPrefix(d, 0) && !HasPrefix(d, 1) && !HasPrefix(d, 2);
    LowerPrefix(d, 18);
    assert Prefixes[3] == "An ASI plugin for ";
    assert d[..18] == Prefixes[3];
  }

  /** "." cuts off the final period, then "," cuts at the comma. */
  lemma WidescreenDotComma(rest: string)
    requires rest == "Widescreen Fixer" + "," + " see notes" + "."
    ensures CutAll(rest, StopWords[3..]) == "Widescreen Fixer"
  {
    var ws := StopWords;
    assert ws[3] == "." && ws[4] == ",";
    var r1 := "Widescreen Fixer" + "," + " see notes";
    OccursBetween(r1, ".", []);
    assert rest == r1 + "." + [];
    FirstOccurrence(rest, ".", |r1|, 0);
    assert CutAt(rest, ws[3]) == r1;
    var r2 := "Widescreen Fixer";
    OccursBetween(r2, ",", " see notes");
    FirstOccurrence(r1, ",", 16, 0);
    assert CutAt(r1, ws[4]) == r2;
    assert CutAll(r2, ws[5..]) == r2;
    assert CutAll(r1, ws[4..]) == r2;
  }

  /** " that ", " which " and " adding " do not occur; "." and "," then cut. */
  lemma WidescreenCut(rest: string)
    requires rest == "Widescreen Fixer" + "," + " see notes" + "."
    ensures CutAll(rest, StopWords) == "Widescreen Fixer"
  {
    var ws := StopWords;
    assert ws[0] == " that " && ws[1] == " which " && ws[2] == " adding ";
    CharAbsentNotContains(rest, " that ", 2);
    CharAbsentNotContains(rest, " which ", 2);
    CharAbsentNotContains(rest, " adding ", 6);
    WidescreenDotComma(rest);
    assert CutAll(rest, ws[2..]) == CutAll(rest, ws[3..]);
    assert CutAll(rest, ws[1..]) == CutAll(rest, ws[2..]);
  }

  lemma WidescreenAt(repoName: string, d: string)
    requires d == "An ASI plugin for " + ("Widescreen Fixer" + "," + " see notes" + ".")
    ensures GameTitle(repoName, Some(d)) == "Widescreen Fixer"
  {
    WidescreenPrefix(d);
    TitleWithPrefix(repoName, Some(d), 3);
    assert |Prefixes[3]| == 18;
    var rest := "Widescreen Fixer" + "," + " see notes" + ".";
    assert d[18..] == rest;
    WidescreenCut(rest);
    StripTrimmed("Widescreen Fixer");
  }

  /** "An ASI plugin for Widescreen Fixer, see notes." gives "Widescreen Fixer". */
  lemma Widescreen()
    ensures GameTitle("WidescreenFix", Some("An ASI plugin for Widescreen Fixer, see notes.")) == "Widescreen Fixer"
  {
    WidescreenAt("WidescreenFix", "An ASI plugin for Widescreen Fixer, see notes.");
  }

  lemma NameFallbackAt(repoName: string)
    requires repoName == "SuperGame" + "Fix"
    ensures GameTitle(repoName, Some("")) == "SuperGame"
  {
    MissingDescriptionFallsBack(repoName);
    var g := "SuperGame";
    RemoveAllPrefixFree(g, "Fix", "Fix");
    assert RemoveAll("Fix", "Fix") == [];
    assert RemoveAll(repoName, "Fix") == g;
    CharAbsentNotContains(g, "Tweak", 0);
    RemoveAllAbsent(g, "Tweak");
    StripTrimmed(g);
  }

  /** Repository "SuperGameFix" with an empty description gives "SuperGame". */
  lemma NameFallback()
    ensures GameTitle("SuperGameFix", Some("")) == "SuperGame"
  {
    var repoName := "SuperGameFix";
    NameFallbackAt(repoName);
  }
}
