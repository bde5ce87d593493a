/** `extract_regional_warnings` (main.py:200-289): two scans of the cleaned
    summary, each candidate sent through the same chain of filters, survivors
    appended unless an accepted region name already contains them. */
module RegionalExtractor {
  import opened Text
  import opened Wrappers
  import opened Advisory
  import opened HtmlCleaner
  import opened PhraseScanner

  /** Country-wide statements, checked on the region as matched (main.py:230, 266). */
  const SkipPhrases: seq<string> := ["country", "nation", "all of", "anywhere", "entire"]

  /** Vague references, checked after the region is cleaned up (main.py:240, 275). */
  const VagueTerms: seq<string> := ["these areas", "this area", "the area", "certain areas"]

  const MinRegionLength := 3
  const MaxRegionLength := 200

  /** `any(p in s for p in phrases)`. */
  predicate MentionsAny(s: string, phrases: seq<string>)
  {
    exists i :: 0 <= i < |phrases| && ContainsAt(s, phrases[i])
  }

  /** `re.sub(r'^(the|a|an)\s+', '', region, flags=re.IGNORECASE)`: the alternatives
      are tried in the order written, so "an x" falls through "a" to "an". */
  function StripArticle(region: string): (r: string)
    ensures |r| <= |region| && r == region[|region| - |r|..]
  {
    if |region| > 3 && LowerChar(region[0]) == 't' && LowerChar(region[1]) == 'h' &&
       LowerChar(region[2]) == 'e' && IsSpace(region[3])
    then region[SkipSpaces(region, 3)..]
    else if |region| > 1 && LowerChar(region[0]) == 'a' && IsSpace(region[1])
    then region[SkipSpaces(region, 1)..]
    else if |region| > 2 && LowerChar(region[0]) == 'a' && LowerChar(region[1]) == 'n' &&
            IsSpace(region[2])
    then region[SkipSpaces(region, 2)..]
    else region
  }

  /** `re.sub(r'^[-:*]\s*', '', region)`. */
  function StripLeadingPunctuation(region: string): (r: string)
    ensures |r| <= |region| && r == region[|region| - |r|..]
  {
    if region != [] && (region[0] == '-' || region[0] == ':' || region[0] == '*')
    then region[SkipSpaces(region, 1)..]
    else region
  }

  /** The region name after the article, the leading punctuation and the
      surrounding whitespace are removed: always a substring of the region. */
  function CleanRegionName(region: string): (r: string)
  {
    var a := StripArticle(region);
    var b := StripLeadingPunctuation(a);
    Trim(b)
  }

  /** The cleaned name is a substring of the region it came from. */
  lemma CleanRegionNameWithin(region: string)
    ensures Contains(region, CleanRegionName(region))
  {
    var a := StripArticle(region);
    var b := StripLeadingPunctuation(a);
    SuffixContains(region, a);
    SuffixContains(a, b);
    ContainsTrans(region, a, b);
    ContainsTrans(region, b, Trim(b));
  }

  lemma SuffixContains(s: string, t: string)
    requires |t| <= |s| && t == s[|s| - |t|..]
    ensures Contains(s, t)
  {
    assert OccursAt(s, t, |s| - |t|);
  }

  /** The filter chain for one candidate region, in the source's order: the skip test
      on the region as matched, the clean-up, the vague test, the length bounds.
      None when the candidate is dropped. */
  function FilterRegion(region: string): Option<string>
  {
    if MentionsAny(Lower(region), SkipPhrases) then None
    else
      var name := CleanRegionName(region);
      if MentionsAny(Lower(name), VagueTerms) then None
      else if |name| < MinRegionLength || |name| > MaxRegionLength then None
      else Some(name)
  }

  /** A surviving name is within the length bounds, not vague, a piece of the
      region, and the region as matched is not country-wide. */
  lemma FilterRegionAccepts(region: string)
    requires FilterRegion(region).Some?
    ensures var name := FilterRegion(region).value;
      MinRegionLength <= |name| <= MaxRegionLength &&
      !MentionsAny(Lower(name), VagueTerms) &&
      !MentionsAny(Lower(region), SkipPhrases) &&
      Contains(region, name)
  {
    CleanRegionNameWithin(region);
  }

  /** The candidates that pass `filter`, in order, as (name, reasons) pairs. The
      filters do not look at the warnings accepted so far, so filtering first and
      de-duplicating afterwards gives what the source's single loop gives. */
  function Survivors(filter: string -> Option<string>, cs: seq<Candidate>): seq<(string, string)>
  {
    if cs == [] then []
    else
      var c := cs[|cs| - 1];
      Survivors(filter, cs[..|cs| - 1]) +
        match filter(c.region)
        case None => []
        case Some(name) => [(name, c.reasons)]
  }

  /** `any(region.lower() in w.region_name.lower() for w in warnings)`. */
  predicate AlreadyCovered(ws: seq<RegionalWarning>, name: string)
  {
    exists i :: 0 <= i < |ws| && ContainsAt(Lower(ws[i].regionName), Lower(name))
  }

  /** The end of the loop body: append the survivor unless an accepted name covers it. */
  function Admit(ws: seq<RegionalWarning>, x: (string, string), level: int): (r: seq<RegionalWarning>)
    ensures r == ws || r == ws + [RegionalWarning(x.0, level, x.1)]
  {
    if AlreadyCovered(ws, x.0) then ws else ws + [RegionalWarning(x.0, level, x.1)]
  }

  /** The loop over one scan's survivors, as a left fold. */
  function AcceptAll(ws: seq<RegionalWarning>, xs: seq<(string, string)>, level: int): (r: seq<RegionalWarning>)
    ensures |ws| <= |r| && r[..|ws|] == ws
  {
    if xs == [] then ws
    else Admit(AcceptAll(ws, xs[..|xs| - 1], level), xs[|xs| - 1], level)
  }

  /** Extending the candidate list by one extends the survivors by that candidate, if it passes. */
  lemma SurvivorsSnoc(filter: string -> Option<string>, cs: seq<Candidate>, i: nat)
    requires i < |cs|
    ensures Survivors(filter, cs[..i + 1]) == Survivors(filter, cs[..i]) +
      match filter(cs[i].region)
      case None => []
      case Some(name) => [(name, cs[i].reasons)]
  {
    assert cs[..i + 1][..i] == cs[..i];
  }

  /** Appending one survivor runs the end of the loop body once more. */
  lemma AcceptAllSnoc(ws: seq<RegionalWarning>, xs: seq<(string, string)>, x: (string, string), level: int)
    ensures AcceptAll(ws, xs + [x], level) == Admit(AcceptAll(ws, xs, level), x, level)
  {
    assert (xs + [x])[..|xs|] == xs;
  }

  /** The two loops over the "do not travel" candidates `dnt` and the
      "reconsider travel" candidates `rec`, each run only below its level. */
  function ScanWarnings(dnt: seq<Candidate>, rec: seq<Candidate>, overallLevel: int): seq<RegionalWarning>
  {
    var severe := if overallLevel < 4 then AcceptAll([], Survivors(FilterRegion, dnt), 4) else [];
    if overallLevel < 3 then AcceptAll(severe, Survivors(FilterRegion, rec), 3) else severe
  }

  /** What `extract_regional_warnings` returns. */
  function RegionalWarningsOf(unescape: string -> string, summary: string, overallLevel: int): seq<RegionalWarning>
  {
    var text := CleanHtml(unescape, summary);
    ScanWarnings(FindAll(DoNotTravel, text, 0), FindAll(Reconsider, text, 0), overallLevel)
  }

  /** `extract_regional_warnings`: the two scans and their filter-and-append loops. */
  method ExtractRegionalWarnings(unescape: string -> string, summary: string, overallLevel: int)
    returns (warnings: seq<RegionalWarning>)
    ensures warnings == RegionalWarningsOf(unescape, summary, overallLevel)
  {
    warnings := [];
    var text := CleanHtml(unescape, summary);
    if overallLevel < 4 {
      var doNotTravel := FindAll(DoNotTravel, text, 0);
      warnings := AcceptScan(warnings, doNotTravel, 4);
    }
    if overallLevel < 3 {
      var reconsider := FindAll(Reconsider, text, 0);
      warnings := AcceptScan(warnings, reconsider, 3);
    }
  }

  /** One of the two loops: each candidate in turn through the filters, the
      survivor appended at `level` unless an accepted name already covers it. */
  method AcceptScan(init: seq<RegionalWarning>, cs: seq<Candidate>, level: int)
    returns (warnings: seq<RegionalWarning>)
    ensures warnings == AcceptAll(init, Survivors(FilterRegion, cs), level)
  {
    warnings := init;
    for i := 0 to |cs|
      invariant warnings == AcceptAll(init, Survivors(FilterRegion, cs[..i]), level)
    {
      var m := cs[i];
      var filtered := FilterRegion(m.region);
      ghost var xs := Survivors(FilterRegion, cs[..i]);
      SurvivorsSnoc(FilterRegion, cs, i);
      if filtered.Some? {
        ghost var x := (filtered.value, m.reasons);
        assert Survivors(FilterRegion, cs[..i + 1]) == xs + [x];
        AcceptAllSnoc(init, xs, x, level);
        if !AlreadyCovered(warnings, filtered.value) {
          warnings := warnings + [RegionalWarning(filtered.value, level, m.reasons)];
        }
      } else {
        assert Survivors(FilterRegion, cs[..i + 1]) == xs + [];
        assert xs + [] == xs;
      }
    }
    assert cs[..|cs|] == cs;
  }

  // ---------------------------------------------------------------------------
  // What the accepted warnings satisfy

  /** A region name that passed the filters: within the length bounds, not vague
      and not country-wide. */
  predicate ValidRegionName(name: string)
  {
    MinRegionLength <= |name| <= MaxRegionLength &&
    !MentionsAny(Lower(name), VagueTerms) &&
    !MentionsAny(Lower(name), SkipPhrases)
  }

  /** A name the filters accept mentions no country-wide phrase either, since it is
      a piece of a region that mentions none. */
  lemma FilteredNameIsValid(region: string)
    requires FilterRegion(region).Some?
    ensures ValidRegionName(FilterRegion(region).value)
  {
    var name := FilterRegion(region).value;
    FilterRegionAccepts(region);
    forall i | 0 <= i < |SkipPhrases|
      ensures ContainsAt(Lower(name), SkipPhrases[i]) ==> ContainsAt(Lower(region), SkipPhrases[i])
    {
      if ContainsAt(Lower(name), SkipPhrases[i]) {
        LowerContains(region, name);
        ContainsTrans(Lower(region), Lower(name), SkipPhrases[i]);
      }
    }
  }

  /** `x` is what candidate `k` of `cs` becomes after `filter`. */
  predicate SurvivorOf(x: (string, string), filter: string -> Option<string>, cs: seq<Candidate>)
  {
    exists k :: 0 <= k < |cs| && filter(cs[k].region) == Some(x.0) && x.1 == cs[k].reasons
  }

  /** `filter` only lets through names that are valid. */
  ghost predicate FilterSound(filter: string -> Option<string>)
  {
    forall region :: filter(region).Some? ==> ValidRegionName(filter(region).value)
  }

  lemma FilterRegionSound()
    ensures FilterSound(FilterRegion)
  {
    forall region | FilterRegion(region).Some?
      ensures ValidRegionName(FilterRegion(region).value)
    {
      FilteredNameIsValid(region);
    }
  }

  /** Every survivor of a sound filter has a valid name and comes from one of the candidates. */
  lemma {:induction false} SurvivorsSound(filter: string -> Option<string>, cs: seq<Candidate>)
    requires FilterSound(filter)
    ensures forall j :: 0 <= j < |Survivors(filter, cs)| ==>
      ValidRegionName(Survivors(filter, cs)[j].0) && SurvivorOf(Survivors(filter, cs)[j], filter, cs)
  {
    if cs != [] {
      var init := cs[..|cs| - 1];
      var c := cs[|cs| - 1];
      var prev := Survivors(filter, init);
      SurvivorsSound(filter, init);
      var xs := Survivors(filter, cs);
      var last := match filter(c.region) case None => [] case Some(name) => [(name, c.reasons)];
      assert xs == prev + last;
      forall j | 0 <= j < |xs|
        ensures ValidRegionName(xs[j].0) && SurvivorOf(xs[j], filter, cs)
      {
        if j < |prev| {
          assert xs[j] == prev[j];
          var k :| 0 <= k < |init| && filter(init[k].region) == Some(prev[j].0) &&
            prev[j].1 == init[k].reasons;
          assert cs[k] == init[k];
        } else {
          assert xs[j] == last[0];
        }
      }
    }
  }

  /** No warning's name occurs inside an earlier warning's name, ignoring case. */
  predicate NoneCovered(ws: seq<RegionalWarning>)
  {
    forall i, j :: 0 <= i < j < |ws| ==> !Contains(Lower(ws[i].regionName), Lower(ws[j].regionName))
  }

  /** Every warning from position `n` on carries `level`. */
  predicate LevelFrom(ws: seq<RegionalWarning>, n: nat, level: int)
  {
    forall j :: n <= j < |ws| ==> ws[j].level == level
  }

  /** Every warning from position `n` on is one of the survivors `xs`, with `level`. */
  predicate AdmittedFrom(ws: seq<RegionalWarning>, n: nat, xs: seq<(string, string)>, level: int)
  {
    forall j :: n <= j < |ws| ==>
      ws[j].level == level && exists k :: 0 <= k < |xs| && xs[k] == (ws[j].regionName, ws[j].reasons)
  }

  lemma {:induction false} AcceptAllAdmitted(ws: seq<RegionalWarning>, xs: seq<(string, string)>, level: int)
    ensures AdmittedFrom(AcceptAll(ws, xs, level), |ws|, xs, level)
  {
    if xs != [] {
      var init := xs[..|xs| - 1];
      var x := xs[|xs| - 1];
      var prev := AcceptAll(ws, init, level);
      AcceptAllAdmitted(ws, init, level);
      var r := Admit(prev, x, level);
      forall j | |ws| <= j < |r|
        ensures r[j].level == level && exists k :: 0 <= k < |xs| && xs[k] == (r[j].regionName, r[j].reasons)
      {
        if j < |prev| {
          assert r[j] == prev[j];
          var k :| 0 <= k < |init| && init[k] == (prev[j].regionName, prev[j].reasons);
          assert xs[k] == init[k];
        } else {
          assert r == prev + [RegionalWarning(x.0, level, x.1)];
          assert xs[|xs| - 1] == (r[j].regionName, r[j].reasons);
        }
      }
    }
  }

  lemma {:induction false} AcceptAllNoneCovered(ws: seq<RegionalWarning>, xs: seq<(string, string)>, level: int)
    requires NoneCovered(ws)
    ensures NoneCovered(AcceptAll(ws, xs, level))
  {
    if xs != [] {
      var prev := AcceptAll(ws, xs[..|xs| - 1], level);
      AcceptAllNoneCovered(ws, xs[..|xs| - 1], level);
      var x := xs[|xs| - 1];
      var r := Admit(prev, x, level);
      if r != prev {
        assert r == prev + [RegionalWarning(x.0, level, x.1)];
        forall i, j | 0 <= i < j < |r|
          ensures !Contains(Lower(r[i].regionName), Lower(r[j].regionName))
        {
          if j == |prev| {
            assert !ContainsAt(Lower(prev[i].regionName), Lower(x.0));
          } else {
            assert r[i] == prev[i] && r[j] == prev[j];
          }
        }
      }
    }
  }

  /** A name stays covered when warnings are appended. */
  lemma CoveredGrows(ws: seq<RegionalWarning>, r: seq<RegionalWarning>, name: string)
    requires |ws| <= |r| && r[..|ws|] == ws && AlreadyCovered(ws, name)
    ensures AlreadyCovered(r, name)
  {
    var i :| 0 <= i < |ws| && ContainsAt(Lower(ws[i].regionName), Lower(name));
    assert r[i] == ws[i];
  }

  /** A name covers itself. */
  lemma CoversItself(ws: seq<RegionalWarning>, i: nat)
    requires i < |ws|
    ensures AlreadyCovered(ws, ws[i].regionName)
  {
    var l := Lower(ws[i].regionName);
    assert OccursAt(l, l, 0) by {
      assert l[0..|l|] == l;
    }
  }

  /** Every survivor is covered, ignoring case, by a warning the loop leaves: it was
      either admitted itself or skipped because an accepted name covered it. */
  lemma {:induction false} AcceptAllCovers(ws: seq<RegionalWarning>, xs: seq<(string, string)>, level: int)
    ensures forall x :: x in xs ==> AlreadyCovered(AcceptAll(ws, xs, level), x.0)
  {
    if xs != [] {
      var init := xs[..|xs| - 1];
      var x := xs[|xs| - 1];
      var prev := AcceptAll(ws, init, level);
      AcceptAllCovers(ws, init, level);
      var r := AcceptAll(ws, xs, level);
      assert r == Admit(prev, x, level);
      assert r[..|prev|] == prev;
      forall y | y in xs
        ensures AlreadyCovered(r, y.0)
      {
        if y in init {
          CoveredGrows(prev, r, y.0);
        } else if AlreadyCovered(prev, x.0) {
          CoveredGrows(prev, r, x.0);
        } else {
          CoversItself(r, |prev|);
        }
      }
    }
  }

  /** Every candidate that passes the filter is a survivor. */
  lemma {:induction false} SurvivorsComplete(filter: string -> Option<string>, cs: seq<Candidate>)
    ensures forall k :: 0 <= k < |cs| && filter(cs[k].region).Some? ==>
      (filter(cs[k].region).value, cs[k].reasons) in Survivors(filter, cs)
  {
    if cs != [] {
      var init := cs[..|cs| - 1];
      SurvivorsComplete(filter, init);
      forall k | 0 <= k < |init|
        ensures cs[k] == init[k]
      {
      }
    }
  }

  /** Every candidate of a loop that runs and whose region passes the filters is
      covered, ignoring case, by some returned warning. */
  lemma ScanWarningsCover(dnt: seq<Candidate>, rec: seq<Candidate>, overallLevel: int)
    ensures overallLevel < 4 ==> forall k :: 0 <= k < |dnt| && FilterRegion(dnt[k].region).Some? ==>
      AlreadyCovered(ScanWarnings(dnt, rec, overallLevel), FilterRegion(dnt[k].region).value)
    ensures overallLevel < 3 ==> forall k :: 0 <= k < |rec| && FilterRegion(rec[k].region).Some? ==>
      AlreadyCovered(ScanWarnings(dnt, rec, overallLevel), FilterRegion(rec[k].region).value)
  {
    var severe := if overallLevel < 4 then AcceptAll([], Survivors(FilterRegion, dnt), 4) else [];
    var r := ScanWarnings(dnt, rec, overallLevel);
    assert |severe| <= |r| && r[..|severe|] == severe;
    if overallLevel < 4 {
      SurvivorsComplete(FilterRegion, dnt);
      AcceptAllCovers([], Survivors(FilterRegion, dnt), 4);
      forall k | 0 <= k < |dnt| && FilterRegion(dnt[k].region).Some?
        ensures AlreadyCovered(r, FilterRegion(dnt[k].region).value)
      {
        CoveredGrows(severe, r, FilterRegion(dnt[k].region).value);
      }
    }
    if overallLevel < 3 {
      SurvivorsComplete(FilterRegion, rec);
      AcceptAllCovers(severe, Survivors(FilterRegion, rec), 3);
    }
  }

  /** Level 4 only below a country level of 4, level 3 only below 3. */
  predicate AboveCountry(ws: seq<RegionalWarning>, overallLevel: int)
  {
    forall i :: 0 <= i < |ws| ==>
      (ws[i].level == 4 && overallLevel < 4) || (ws[i].level == 3 && overallLevel < 3)
  }

  /** Levels never rise along the list. */
  predicate SevereFirst(ws: seq<RegionalWarning>)
  {
    forall i, j :: 0 <= i < j < |ws| ==> ws[i].level >= ws[j].level
  }

  /** `w` carries `level`, has a valid name, and is a surviving candidate of `cs`. */
  predicate FromScan(w: RegionalWarning, level: int, cs: seq<Candidate>)
  {
    w.level == level && ValidRegionName(w.regionName) && SurvivorOf((w.regionName, w.reasons), FilterRegion, cs)
  }

  /** Each warning is a level-4 survivor of `dnt` or a level-3 survivor of `rec`. */
  predicate FromScans(ws: seq<RegionalWarning>, dnt: seq<Candidate>, rec: seq<Candidate>)
  {
    forall i :: 0 <= i < |ws| ==> FromScan(ws[i], 4, dnt) || FromScan(ws[i], 3, rec)
  }

  /** What one scan adds is made of that scan's surviving candidates. */
  lemma ScanAdmitted(ws: seq<RegionalWarning>, cs: seq<Candidate>, level: int)
    ensures forall j :: |ws| <= j < |AcceptAll(ws, Survivors(FilterRegion, cs), level)| ==>
      FromScan(AcceptAll(ws, Survivors(FilterRegion, cs), level)[j], level, cs)
  {
    var xs := Survivors(FilterRegion, cs);
    var r := AcceptAll(ws, xs, level);
    AcceptAllAdmitted(ws, xs, level);
    FilterRegionSound();
    SurvivorsSound(FilterRegion, cs);
    forall j | |ws| <= j < |r|
      ensures FromScan(r[j], level, cs)
    {
      var k :| 0 <= k < |xs| && xs[k] == (r[j].regionName, r[j].reasons);
      assert ValidRegionName(xs[k].0) && SurvivorOf(xs[k], FilterRegion, cs);
    }
  }

  /** The two loops raise each region above the country's level: level 4 only when
      the country is below 4, level 3 only when it is below 3; all level-4 warnings
      come before all level-3 ones. */
  lemma ScanWarningsLevels(dnt: seq<Candidate>, rec: seq<Candidate>, overallLevel: int)
    ensures AboveCountry(ScanWarnings(dnt, rec, overallLevel), overallLevel)
    ensures SevereFirst(ScanWarnings(dnt, rec, overallLevel))
  {
    var severe := if overallLevel < 4 then AcceptAll([], Survivors(FilterRegion, dnt), 4) else [];
    if overallLevel < 4 {
      AcceptAllLevel([], Survivors(FilterRegion, dnt), 4);
    }
    if overallLevel < 3 {
      var r := AcceptAll(severe, Survivors(FilterRegion, rec), 3);
      AcceptAllLevel(severe, Survivors(FilterRegion, rec), 3);
      TwoBands(r, |severe|, overallLevel);
    } else {
      assert LevelFrom(severe, 0, 4);
    }
  }

  /** Every warning one loop appends carries that loop's level. */
  lemma AcceptAllLevel(ws: seq<RegionalWarning>, xs: seq<(string, string)>, level: int)
    ensures LevelFrom(AcceptAll(ws, xs, level), |ws|, level)
  {
    AcceptAllAdmitted(ws, xs, level);
  }

  /** Level-4 warnings up to `n`, level-3 warnings after. */
  lemma TwoBands(r: seq<RegionalWarning>, n: nat, overallLevel: int)
    requires n <= |r| && overallLevel < 3
    requires LevelFrom(r[..n], 0, 4) && LevelFrom(r, n, 3)
    ensures AboveCountry(r, overallLevel) && SevereFirst(r)
  {
    assert forall i :: 0 <= i < n ==> r[i] == r[..n][i];
  }

  /** Each warning the two loops accept has a valid name and comes from a candidate
      of its own scan. */
  lemma ScanWarningsFrom(dnt: seq<Candidate>, rec: seq<Candidate>, overallLevel: int)
    ensures FromScans(ScanWarnings(dnt, rec, overallLevel), dnt, rec)
  {
    var severe := if overallLevel < 4 then AcceptAll([], Survivors(FilterRegion, dnt), 4) else [];
    var r := ScanWarnings(dnt, rec, overallLevel);
    if overallLevel < 4 {
      ScanAdmitted([], dnt, 4);
    }
    if overallLevel < 3 {
      ScanAdmitted(severe, rec, 3);
      assert r[..|severe|] == severe;
      forall i | 0 <= i < |r|
        ensures FromScan(r[i], 4, dnt) || FromScan(r[i], 3, rec)
      {
        if i < |severe| {
          assert r[i] == severe[i];
        }
      }
    }
  }

  /** The two loops never accept a name that occurs inside an earlier one, ignoring case. */
  lemma ScanWarningsDistinct(dnt: seq<Candidate>, rec: seq<Candidate>, overallLevel: int)
    ensures NoneCovered(ScanWarnings(dnt, rec, overallLevel))
  {
    var severe := if overallLevel < 4 then AcceptAll([], Survivors(FilterRegion, dnt), 4) else [];
    if overallLevel < 4 {
      AcceptAllNoneCovered([], Survivors(FilterRegion, dnt), 4);
    }
    if overallLevel < 3 {
      AcceptAllNoneCovered(severe, Survivors(FilterRegion, rec), 3);
    }
  }

  /** Every extracted warning raises its region above the country's level, level-4
      warnings first; each has a valid name and comes from a "do not travel" (level 4)
      or "reconsider travel" (level 3) match in the cleaned summary; no name occurs
      inside an earlier one. */
  lemma RegionalWarningsSound(unescape: string -> string, summary: string, overallLevel: int)
    ensures AboveCountry(RegionalWarningsOf(unescape, summary, overallLevel), overallLevel)
    ensures SevereFirst(RegionalWarningsOf(unescape, summary, overallLevel))
    ensures FromScans(RegionalWarningsOf(unescape, summary, overallLevel),
      FindAll(DoNotTravel, CleanHtml(unescape, summary), 0), FindAll(Reconsider, CleanHtml(unescape, summary), 0))
    ensures NoneCovered(RegionalWarningsOf(unescape, summary, overallLevel))
  {
    var text := CleanHtml(unescape, summary);
    ScanWarningsLevels(FindAll(DoNotTravel, text, 0), FindAll(Reconsider, text, 0), overallLevel);
    ScanWarningsFrom(FindAll(DoNotTravel, text, 0), FindAll(Reconsider, text, 0), overallLevel);
    ScanWarningsDistinct(FindAll(DoNotTravel, text, 0), FindAll(Reconsider, text, 0), overallLevel);
  }

  /** Every extracted warning is strictly above the country's own level. */
  lemma RegionalWarningsAbove(unescape: string -> string, summary: string, overallLevel: int)
    ensures forall i :: 0 <= i < |RegionalWarningsOf(unescape, summary, overallLevel)| ==>
      RegionalWarningsOf(unescape, summary, overallLevel)[i].level > overallLevel
  {
    var text := CleanHtml(unescape, summary);
    ScanWarningsLevels(FindAll(DoNotTravel, text, 0), FindAll(Reconsider, text, 0), overallLevel);
  }

  /** Nothing is lost silently: every "do not travel" match (when the country is
      below level 4) and every "reconsider travel" match (below level 3) whose region
      passes the filters is covered, ignoring case, by some extracted warning. */
  lemma RegionalWarningsCover(unescape: string -> string, summary: string, overallLevel: int)
    ensures overallLevel < 4 ==>
      var dnt := FindAll(DoNotTravel, CleanHtml(unescape, summary), 0);
      forall k :: 0 <= k < |dnt| && FilterRegion(dnt[k].region).Some? ==>
        AlreadyCovered(RegionalWarningsOf(unescape, summary, overallLevel), FilterRegion(dnt[k].region).value)
    ensures overallLevel < 3 ==>
      var rec := FindAll(Reconsider, CleanHtml(unescape, summary), 0);
      forall k :: 0 <= k < |rec| && FilterRegion(rec[k].region).Some? ==>
        AlreadyCovered(RegionalWarningsOf(unescape, summary, overallLevel), FilterRegion(rec[k].region).value)
  {
    var text := CleanHtml(unescape, summary);
    ScanWarningsCover(FindAll(DoNotTravel, text, 0), FindAll(Reconsider, text, 0), overallLevel);
  }
}
