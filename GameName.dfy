/**
 * Title derivation for a fix repository (`parse_game_name`): a known prefix is
 * stripped from the trimmed description, case-insensitively, and the rest is
 * cut at a series of stop words; without a known prefix the repository name,
 * with the literal words "Fix" and "Tweak" removed, is used instead.
 */
module GameName {
  import opened Wrappers
  import opened Text

  /** The description prefixes, tried in this order. */
  const Prefixes: seq<string> := ["Fix for ", "A fix for ", "Mod for ", "An ASI plugin for ", "Plugin for "]

  /** The stop words; each in turn keeps only the text before its first occurrence. */
  const StopWords: seq<string> := [" that ", " which ", " adding ", ".", ","]

  /** Every stop word is non-empty, so each cut removes it. */
  lemma StopWordsNonEmpty()
    ensures forall i :: 0 <= i < |StopWords| ==> |StopWords[i]| > 0
  {
    assert |StopWords[0]| == 6 && |StopWords[1]| == 7 && |StopWords[2]| == 8;
    assert |StopWords[3]| == 1 && |StopWords[4]| == 1;
  }

  /** `description.strip() if description else ""`: both `None` and `""` are falsy. */
  function CleanDescription(description: Option<string>): (r: string)
    ensures description.None? || description.value == "" ==> r == ""
  {
    match description
    case None => ""
    case Some(d) => if d == "" then "" else Strip(d)
  }

  /** The lower-cased text starts with the lower-cased `j`-th prefix. */
  predicate HasPrefix(d: string, j: nat)
    requires j < |Prefixes|
  {
    StartsWith(Lower(d), Lower(Prefixes[j]))
  }

  /** The first prefix, at position `i` or later in the list, that `d` starts with. */
  function FirstPrefix(d: string, i: nat): (r: Option<nat>)
    requires i <= |Prefixes|
    decreases |Prefixes| - i
    ensures r.Some? ==> i <= r.value < |Prefixes| && HasPrefix(d, r.value)
    ensures r.Some? ==> forall j :: i <= j < r.value ==> !HasPrefix(d, j)
    ensures r.None? <==> forall j :: i <= j < |Prefixes| ==> !HasPrefix(d, j)
  {
    if i == |Prefixes| then None
    else if HasPrefix(d, i) then Some(i)
    else FirstPrefix(d, i + 1)
  }

  /** A matched prefix is no longer than the text it matched. */
  lemma PrefixFits(d: string, j: nat)
    requires j < |Prefixes| && HasPrefix(d, j)
    ensures |Prefixes[j]| <= |d|
  {
    assert |Lower(Prefixes[j])| <= |Lower(d)|;
  }

  /** `s.split(w)[0]` when `w in s`, otherwise `s` unchanged. */
  function CutAt(s: string, w: string): (r: string)
    ensures r <= s
    ensures !Contains(s, w) ==> r == s
  {
    match IndexOf(s, w)
    case None => s
    case Some(k) => s[..k]
  }

  /** The stop words applied one after another, in list order. */
  function CutAll(s: string, ws: seq<string>): (r: string)
    decreases |ws|
  {
    if ws == [] then s else CutAll(CutAt(s, ws[0]), ws[1..])
  }

  /** One stop word at a time. */
  lemma CutAllStep(s: string, ws: seq<string>)
    requires ws != []
    ensures CutAll(s, ws) == CutAll(CutAt(s, ws[0]), ws[1..])
  {
  }

  /** The title shown for repository `repoName` with the given description. */
  function GameTitle(repoName: string, description: Option<string>): (title: string)
    ensures title != [] ==> !IsSpace(title[0]) && !IsSpace(title[|title| - 1])
  {
    var d := CleanDescription(description);
    match FirstPrefix(d, 0)
    case Some(j) =>
      PrefixFits(d, j);
      Strip(CutAll(d[|Prefixes[j]|..], StopWords))
    case None =>
      Strip(RemoveAll(RemoveAll(repoName, "Fix"), "Tweak"))
  }

  /** The prefix loop of `parse_game_name`: the first prefix the lower-cased
      text starts with, stopping at the first match. */
  method FindPrefix(d: string) returns (found: bool, i: nat)
    ensures found <==> FirstPrefix(d, 0).Some?
    ensures found ==> FirstPrefix(d, 0) == Some(i)
  {
    found := false;
    i := 0;
    while i < |Prefixes|
      invariant 0 <= i <= |Prefixes|
      invariant FirstPrefix(d, 0) == FirstPrefix(d, i)
    {
      if HasPrefix(d, i) {
        found := true;
        return;
      }
      i := i + 1;
    }
  }

  /** The stop-word loop of `parse_game_name`: each stop word in turn keeps the
      text before its first occurrence. */
  method CutStopWords(s: string) returns (r: string)
    ensures r == CutAll(s, StopWords)
  {
    r := s;
    var k := 0;
    while k < |StopWords|
      invariant 0 <= k <= |StopWords|
      invariant CutAll(s, StopWords) == CutAll(r, StopWords[k..])
    {
      var w := StopWords[k];
      ghost var before := r;
      if Contains(r, w) {
        r := r[..IndexOf(r, w).value];
      }
      assert r == CutAt(before, w);
      CutAllStep(before, StopWords[k..]);
      assert StopWords[k..][1..] == StopWords[k + 1..];
      k := k + 1;
    }
  }

  /** `parse_game_name`: the prefix search, then either the stop-word cuts on
      the rest of the description or the name with "Fix" and "Tweak" removed. */
  method ParseGameName(repoName: string, description: Option<string>) returns (title: string)
    ensures title == GameTitle(repoName, description)
  {
    var descClean := if description.Some? && description.value != "" then Strip(description.value) else "";
    assert descClean == CleanDescription(description);
    var gameName := descClean;
    var foundPrefix, i := FindPrefix(gameName);
    if !foundPrefix {
      gameName := RemoveAll(RemoveAll(repoName, "Fix"), "Tweak");
    } else {
      PrefixFits(gameName, i);
      gameName := CutStopWords(gameName[|Prefixes[i]|..]);
    }
    title := Strip(gameName);
  }

  /** Stop words that do not occur cut nothing. */
  lemma {:induction false} CutAllAbsent(s: string, ws: seq<string>)
    requires forall i :: 0 <= i < |ws| ==> !Contains(s, ws[i])
    ensures CutAll(s, ws) == s
    decreases |ws|
  {
    if ws != [] {
      assert IndexOf(s, ws[0]).None?;
      CutAllAbsent(s, ws[1..]);
    }
  }

  /** When the `j`-th prefix is the first that matches, the title is the rest of
      the description after exactly `len(prefix)` characters, cut and trimmed. */
  lemma TitleWithPrefix(repoName: string, description: Option<string>, j: nat)
    requires FirstPrefix(CleanDescription(description), 0) == Some(j)
    ensures |Prefixes[j]| <= |CleanDescription(description)|
    ensures GameTitle(repoName, description) ==
            Strip(CutAll(CleanDescription(description)[|Prefixes[j]|..], StopWords))
  {
    PrefixFits(CleanDescription(description), j);
  }

  /** Cutting at stop words keeps a prefix of the text. */
  lemma {:induction false} CutAllIsPrefix(s: string, ws: seq<string>)
    ensures CutAll(s, ws) <= s
    decreases |ws|
  {
    if ws != [] {
      var c := CutAt(s, ws[0]);
      assert c <= s;
      CutAllIsPrefix(c, ws[1..]);
    }
  }

  /** After cutting at `w`, the text no longer contains `w` (for a non-empty `w`). */
  lemma CutAtRemoves(s: string, w: string)
    requires w != []
    ensures !Contains(CutAt(s, w), w)
  {
    match IndexOf(s, w)
    case None =>
    case Some(k) =>
      forall j: nat ensures !OccursAt(s[..k], w, j) {
        SliceOccurrence(s, w, 0, k, j);
      }
  }

  /** None of the (non-empty) stop words survives the sequence of cuts. */
  lemma {:induction false} CutAllRemoves(s: string, ws: seq<string>)
    requires forall i :: 0 <= i < |ws| ==> |ws[i]| > 0
    ensures forall i :: 0 <= i < |ws| ==> !Contains(CutAll(s, ws), ws[i])
    decreases |ws|
  {
    if ws != [] {
      var c := CutAt(s, ws[0]);
      CutAtRemoves(s, ws[0]);
      CutAllRemoves(c, ws[1..]);
      CutAllIsPrefix(c, ws[1..]);
      var r := CutAll(c, ws[1..]);
      NotContainsSlice(c, ws[0], 0, |r|);
      assert c[0..|r|] == r;
      forall i | 0 <= i < |ws| ensures !Contains(r, ws[i]) {
        if i > 0 { assert ws[i] == ws[1..][i - 1]; }
      }
    }
  }

  /** When a prefix matched, the title contains none of the five stop words,
      and before trimming it is a prefix of the text after the matched prefix. */
  lemma TitleAfterPrefix(repoName: string, description: Option<string>)
    requires FirstPrefix(CleanDescription(description), 0).Some?
    ensures var d := CleanDescription(description);
            var j := FirstPrefix(d, 0).value;
            |Prefixes[j]| <= |d| &&
            CutAll(d[|Prefixes[j]|..], StopWords) <= d[|Prefixes[j]|..]
    ensures forall i :: 0 <= i < |StopWords| ==> !Contains(GameTitle(repoName, description), StopWords[i])
  {
    var d := CleanDescription(description);
    var j := FirstPrefix(d, 0).value;
    PrefixFits(d, j);
    var rest := d[|Prefixes[j]|..];
    CutAllIsPrefix(rest, StopWords);
    StopWordsNonEmpty();
    CutAllRemoves(rest, StopWords);
    forall i | 0 <= i < |StopWords| ensures !Contains(GameTitle(repoName, description), StopWords[i]) {
      StripKeepsAbsence(CutAll(rest, StopWords), StopWords[i]);
    }
  }

  /** Without a matching prefix the title comes from the repository name alone:
      any two descriptions that match no prefix give the same title. */
  lemma FallbackIgnoresDescription(repoName: string, d1: Option<string>, d2: Option<string>)
    requires FirstPrefix(CleanDescription(d1), 0).None?
    requires FirstPrefix(CleanDescription(d2), 0).None?
    ensures GameTitle(repoName, d1) == GameTitle(repoName, d2)
    ensures GameTitle(repoName, d1) == Strip(RemoveAll(RemoveAll(repoName, "Fix"), "Tweak"))
  {
  }

  /** A missing description behaves like the empty one, and both fall back to the name. */
  lemma MissingDescriptionFallsBack(repoName: string)
    ensures GameTitle(repoName, None) == GameTitle(repoName, Some(""))
    ensures GameTitle(repoName, None) == Strip(RemoveAll(RemoveAll(repoName, "Fix"), "Tweak"))
  {
    assert !HasPrefix("", 0);
  }
}
