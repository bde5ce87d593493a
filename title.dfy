/** `parse_level_from_title` (main.py:168-181): the regular expression
    `^(.+?)\s*-\s*Level\s*(\d)`, matched case-insensitively at the start of the
    title, written out as a scanner. */
module TitleParser {
  import opened Text
  import opened Wrappers

  /** Where `\s*-\s*Level\s*` ends when it matches at `i` and a digit follows; the
      greedy `\s*` runs are forced, since neither '-', 'L' nor a digit is whitespace. */
  function LevelDigitAt(s: string, i: nat): (r: Option<nat>)
    requires i <= |s|
    ensures r.Some? ==> i < r.value < |s| && IsDigit(s[r.value])
  {
    var j := SkipSpaces(s, i);
    if j < |s| && s[j] == '-' then
      var k := SkipSpaces(s, j + 1);
      if WordAtIgnoringCase(s, k, "level") then
        var m := SkipSpaces(s, k + 5);
        if m < |s| && IsDigit(s[m]) then Some(m) else None
      else None
    else None
  }

  /** `w` (lower case) occurs at `k`, ignoring ASCII case. */
  predicate WordAtIgnoringCase(s: string, k: nat, w: string)
  {
    k + |w| <= |s| && forall j :: 0 <= j < |w| ==> LowerChar(s[k + j]) == w[j]
  }

  /** The lazy group `(.+?)` may end at `e`: it is non-empty, holds no newline
      (`.` does not match one), and the rest of the pattern matches from `e`. */
  predicate MatchEndsAt(s: string, e: int)
  {
    1 <= e <= |s| && (forall k :: 0 <= k < e ==> s[k] != '\n') && LevelDigitAt(s, e).Some?
  }

  /** The lazy group takes the shortest end that lets the rest match. */
  predicate IsFirstMatch(s: string, e: int)
  {
    MatchEndsAt(s, e) && forall e' :: 0 <= e' < e ==> !MatchEndsAt(s, e')
  }

  /** Tries the ends `e, e+1, ...` in turn, as the lazy group does. */
  function SearchFrom(s: string, e: nat): (r: Option<nat>)
    requires 1 <= e
    requires forall k :: 0 <= k < e - 1 && k < |s| ==> s[k] != '\n'
    ensures r.Some? ==> e <= r.value && MatchEndsAt(s, r.value)
    decreases |s| - e
  {
    if e > |s| || s[e - 1] == '\n' then None
    else if LevelDigitAt(s, e).Some? then Some(e)
    else SearchFrom(s, e + 1)
  }

  /** The search skips no end at which the rest of the pattern matches. */
  lemma {:induction false} SearchFromFirst(s: string, e: nat)
    requires 1 <= e
    requires forall k :: 0 <= k < e - 1 && k < |s| ==> s[k] != '\n'
    ensures SearchFrom(s, e).Some? ==> forall e' :: e <= e' < SearchFrom(s, e).value ==> !MatchEndsAt(s, e')
    ensures SearchFrom(s, e).None? ==> forall e' :: e <= e' ==> !MatchEndsAt(s, e')
    decreases |s| - e
  {
    if e > |s| || s[e - 1] == '\n' {
      assert SearchFrom(s, e) == None;
      NoMatchPast(s, e);
    } else if LevelDigitAt(s, e).Some? {
      assert SearchFrom(s, e) == Some(e);
    } else {
      assert SearchFrom(s, e) == SearchFrom(s, e + 1);
      assert !MatchEndsAt(s, e);
      SearchFromFirst(s, e + 1);
    }
  }

  /** Past the end of the text or past a newline, the lazy group can end nowhere. */
  lemma NoMatchPast(s: string, e: nat)
    requires 1 <= e
    requires e > |s| || s[e - 1] == '\n'
    ensures forall e' :: e <= e' ==> !MatchEndsAt(s, e')
  {
    forall e' | e <= e'
      ensures !MatchEndsAt(s, e')
    {
      if e' <= |s| {
        assert s[e - 1] == '\n';
      }
    }
  }

  function FirstMatch(s: string): (r: Option<nat>)
    ensures r.Some? ==> IsFirstMatch(s, r.value)
    ensures r.None? ==> forall e :: !MatchEndsAt(s, e)
  {
    SearchFromFirst(s, 1);
    SearchFrom(s, 1)
  }

  /** `parse_level_from_title`: the trimmed name and the digit when the title starts
      with "<name> - Level <digit>", otherwise the whole title and level 0. */
  function ParseLevelFromTitle(title: string): (r: (string, int))
    ensures 0 <= r.1 <= 9
    ensures (forall e :: !MatchEndsAt(title, e)) ==> r == (title, 0)
    ensures forall e :: IsFirstMatch(title, e) ==>
      r == (Trim(title[..e]), DigitValue(title[LevelDigitAt(title, e).value]))
  {
    match FirstMatch(title)
    case None => (title, 0)
    case Some(e) =>
      assert forall e' :: IsFirstMatch(title, e') ==> e' == e;
      var m := LevelDigitAt(title, e).value;
      (Trim(title[..e]), DigitValue(title[m]))
  }

  /** The shape the source documents, "Mexico - Level 2: Exercise Increased Caution",
      parses back into its name and level for every name without a dash or a
      newline and without surrounding whitespace. */
  lemma TitleRoundTrip(name: string, d: char, rest: string)
    requires name != [] && !IsSpace(name[0]) && !IsSpace(name[|name| - 1])
    requires forall k :: 0 <= k < |name| ==> name[k] != '-' && name[k] != '\n'
    requires IsDigit(d)
    ensures ParseLevelFromTitle(name + " - Level " + [d] + rest) == (name, DigitValue(d))
  {
    var s := name + " - Level " + [d] + rest;
    NoEndInsideName(name, s);
    EndAfterName(name, d, rest, s);
    assert IsFirstMatch(s, |name|);
    assert s[..|name|] == name;
    TrimOfTrimmed(name);
  }

  /** The group cannot end inside the name: no dash follows the whitespace there. */
  lemma NoEndInsideName(name: string, s: string)
    requires name != [] && !IsSpace(name[|name| - 1]) && name <= s
    requires forall k :: 0 <= k < |name| ==> name[k] != '-'
    ensures forall e :: 1 <= e < |name| ==> !MatchEndsAt(s, e)
  {
    var n := |name|;
    forall e | 1 <= e < n
      ensures !MatchEndsAt(s, e)
    {
      var j := SkipSpaces(s, e);
      SkippedAreSpaces(s, e);
      assert !IsSpace(s[n - 1]);
      assert j < n;
      assert s[j] == name[j] != '-';
    }
  }

  /** The group can end right after the name, where " - Level d" follows. */
  lemma EndAfterName(name: string, d: char, rest: string, s: string)
    requires name != [] && IsDigit(d) && s == name + " - Level " + [d] + rest
    requires forall k :: 0 <= k < |name| ==> name[k] != '\n'
    ensures MatchEndsAt(s, |name|) && LevelDigitAt(s, |name|) == Some(|name| + 9)
    ensures s[|name| + 9] == d
  {
    var n := |name|;
    var t := " - Level " + [d] + rest;
    assert s == name + t;
    assert s[n..n + 10] == t[..10];
    LevelDigitAfter(s, n);
  }

  /** `\s*-\s*Level\s*\d` where the text reads " - Level d". */
  lemma LevelDigitAfter(s: string, n: nat)
    requires n + 10 <= |s| && IsDigit(s[n + 9])
    requires s[n..n + 9] == " - Level "
    ensures LevelDigitAt(s, n) == Some(n + 9)
  {
    var w := s[n..n + 9];
    assert s[n] == w[0] == ' ';
    assert s[n + 1] == w[1] == '-';
    assert s[n + 2] == w[2] == ' ';
    assert s[n + 8] == w[8] == ' ';
    assert s[n + 3] == w[3] == 'L' && s[n + 4] == w[4] == 'e' && s[n + 5] == w[5] == 'v';
    assert s[n + 6] == w[6] == 'e' && s[n + 7] == w[7] == 'l';
    assert WordAtIgnoringCase(s, n + 3, "level") by {
      forall j | 0 <= j < 5
        ensures LowerChar(s[n + 3 + j]) == "level"[j]
      {
        assert j == 0 || j == 1 || j == 2 || j == 3 || j == 4;
      }
    }
    OneSpace(s, n);
    OneSpace(s, n + 2);
    OneSpace(s, n + 8);
  }

  lemma OneSpace(s: string, i: nat)
    requires i + 1 < |s| && IsSpace(s[i]) && !IsSpace(s[i + 1])
    ensures SkipSpaces(s, i) == i + 1
  {
  }
}
