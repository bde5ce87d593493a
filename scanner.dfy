/** The two `re.finditer` scans of `extract_regional_warnings` (main.py:221-224,
    257-260):
      [Dd]o\s+not\s+travel\s+to[:\s]+(.+?)\s+due\s+to\s+([^.]+)
      [Rr]econsider\s+travel\s+to[:\s]+(.+?)\s+due\s+to\s+([^.]+)
    defined declaratively (which texts match, and which match Python's
    backtracking engine reports), and written out as a scanner proved to report
    exactly that match. */
module PhraseScanner {
  import opened Text
  import opened Wrappers

  datatype Phrase = DoNotTravel | Reconsider

  /** One match: it starts at `start`, group 1 is s[regionStart..regionEnd], group 2
      is s[reasonStart..reasonEnd], and the match ends where group 2 ends. */
  datatype Match = Match(start: nat, regionStart: nat, regionEnd: nat, reasonStart: nat, reasonEnd: nat)

  /** One match's two groups after `.strip()`. */
  datatype Candidate = Candidate(region: string, reasons: string)

  predicate LitAt(s: string, i: nat, w: string)
  {
    i + |w| <= |s| && s[i..i + |w|] == w
  }

  // ---------------------------------------------------------------------------
  // The patterns, declaratively

  /** Every character of s[i..j] is whitespace. */
  predicate AllSpace(s: string, i: nat, j: nat)
  {
    i <= j <= |s| && forall k :: i <= k < j ==> IsSpace(s[k])
  }

  /** Every character of s[i..j] is ':' or whitespace. */
  predicate AllColonOrSpace(s: string, i: nat, j: nat)
  {
    i <= j <= |s| && forall k :: i <= k < j ==> IsColonOrSpace(s[k])
  }

  /** s[i..j] holds no newline, so `.` matches each of its characters. */
  predicate NoNewline(s: string, i: nat, j: nat)
  {
    i <= j <= |s| && forall k :: i <= k < j ==> s[k] != '\n'
  }

  /** s[i..j] holds no '.', so `[^.]` matches each of its characters. */
  predicate NoFullStop(s: string, i: nat, j: nat)
  {
    i <= j <= |s| && forall k :: i <= k < j ==> s[k] != '.'
  }

  /** `\s+w` matches s[i..j]: a non-empty whitespace run, then the word `w`. */
  predicate SpacedWord(s: string, i: nat, w: string, j: nat)
  {
    i + |w| < j <= |s| && AllSpace(s, i, j - |w|) && LitAt(s, j - |w|, w)
  }

  /** The fixed words of the phrase, `[Dd]o\s+not\s+travel\s+to` or
      `[Rr]econsider\s+travel\s+to`, match s[p..a]. */
  ghost predicate HeadMatches(ph: Phrase, s: string, p: nat, a: nat)
  {
    match ph
    case DoNotTravel =>
      p + 2 <= |s| && (s[p] == 'D' || s[p] == 'd') && s[p + 1] == 'o' &&
      exists j1: nat, j2: nat ::
        SpacedWord(s, p + 2, "not", j1) && SpacedWord(s, j1, "travel", j2) && SpacedWord(s, j2, "to", a)
    case Reconsider =>
      p + 10 <= |s| && (s[p] == 'R' || s[p] == 'r') && LitAt(s, p + 1, "econsider") &&
      exists j1: nat :: SpacedWord(s, p + 10, "travel", j1) && SpacedWord(s, j1, "to", a)
  }

  /** `\s+due\s+to\s+([^.]+)` matches s[e..c] with group 2 = s[b..c]. */
  ghost predicate TailMatches(s: string, e: nat, b: nat, c: nat)
  {
    exists h1: nat, h2: nat ::
      SpacedWord(s, e, "due", h1) && SpacedWord(s, h1, "to", h2) &&
      h2 < b && AllSpace(s, h2, b) && b < c && NoFullStop(s, b, c)
  }

  /** The whole pattern matches s[m.start..m.reasonEnd] with the groups of `m`:
      the fixed words, `[:\s]+`, group 1 `(.+?)`, then the tail. */
  ghost predicate IsMatch(ph: Phrase, s: string, m: Match)
  {
    exists a: nat ::
      HeadMatches(ph, s, m.start, a) && a < m.regionStart && AllColonOrSpace(s, a, m.regionStart) &&
      m.regionStart < m.regionEnd && NoNewline(s, m.regionStart, m.regionEnd) &&
      TailMatches(s, m.regionEnd, m.reasonStart, m.reasonEnd)
  }

  /** For two matches at one start, Python's backtracking engine tries `m` before
      `m2`: the greedy `[:\s]+` longest first (group 1 starting latest), then the lazy
      group 1 shortest first, then the greedy `\s+` before group 2 longest first,
      then the greedy group 2 longest first. */
  predicate TriedBefore(m: Match, m2: Match)
  {
    m.regionStart > m2.regionStart ||
    (m.regionStart == m2.regionStart &&
      (m.regionEnd < m2.regionEnd ||
       (m.regionEnd == m2.regionEnd &&
         (m.reasonStart > m2.reasonStart ||
          (m.reasonStart == m2.reasonStart && m.reasonEnd > m2.reasonEnd)))))
  }

  /** `m` is the match the engine reports at its start: a match, and no other match
      at that start is tried before it. */
  ghost predicate IsEngineMatch(ph: Phrase, s: string, m: Match)
  {
    IsMatch(ph, s, m) &&
    forall m2 :: IsMatch(ph, s, m2) && m2.start == m.start ==> !TriedBefore(m2, m)
  }

  /** `m` is what a search from `pos` reports: the engine's match at the first start
      at or after `pos` where the pattern matches at all. */
  ghost predicate FirstMatchFrom(ph: Phrase, s: string, pos: nat, m: Match)
  {
    pos <= m.start && IsEngineMatch(ph, s, m) &&
    forall m2 :: IsMatch(ph, s, m2) && pos <= m2.start ==> m.start <= m2.start
  }

  /** The pattern matches nowhere at or after `pos`. */
  ghost predicate NoMatchFrom(ph: Phrase, s: string, pos: nat)
  {
    forall m2 :: IsMatch(ph, s, m2) ==> m2.start < pos
  }

  /** `ms` is what `re.finditer` yields from `pos`: the first match from `pos`, then
      the first match from where each one ended, until none is left. */
  ghost predicate IsFinditer(ph: Phrase, s: string, pos: nat, ms: seq<Match>)
    decreases |ms|
  {
    if ms == [] then NoMatchFrom(ph, s, pos)
    else FirstMatchFrom(ph, s, pos, ms[0]) && IsFinditer(ph, s, ms[0].reasonEnd, ms[1..])
  }

  // ---------------------------------------------------------------------------
  // The scanner

  /** `\s+w` at `i`: where it ends. The `\s+` run is forced, since `w` never
      starts with whitespace. */
  function SpacedWordAt(s: string, i: nat, w: string): (r: Option<nat>)
    requires i <= |s| && w != []
    ensures r.Some? ==> i < r.value <= |s|
  {
    var j := SkipSpaces(s, i);
    if j > i && LitAt(s, j, w) then Some(j + |w|) else None
  }

  function ThenWord(s: string, o: Option<nat>, w: string): (r: Option<nat>)
    requires o.Some? ==> o.value <= |s|
    requires w != []
    ensures r.Some? ==> o.Some? && o.value < r.value <= |s|
  {
    match o
    case None => None
    case Some(j) => SpacedWordAt(s, j, w)
  }

  /** Where the fixed words of the phrase end when they start at `i`. */
  function HeadEnd(ph: Phrase, s: string, i: nat): (r: Option<nat>)
    requires i <= |s|
    ensures r.Some? ==> i < r.value <= |s|
  {
    match ph
    case DoNotTravel =>
      if i + 2 <= |s| && (s[i] == 'D' || s[i] == 'd') && s[i + 1] == 'o' then
        ThenWord(s, ThenWord(s, SpacedWordAt(s, i + 2, "not"), "travel"), "to")
      else None
    case Reconsider =>
      if i + 1 <= |s| && (s[i] == 'R' || s[i] == 'r') && LitAt(s, i + 1, "econsider") then
        ThenWord(s, SpacedWordAt(s, i + 10, "travel"), "to")
      else None
  }

  predicate IsColonOrSpace(c: char)
  {
    c == ':' || IsSpace(c)
  }

  /** The end of the run `[:\s]*` that starts at `a`. */
  function ColonSpaceEnd(s: string, a: nat): (j: nat)
    requires a <= |s|
    ensures a <= j <= |s|
    ensures forall k :: a <= k < j ==> IsColonOrSpace(s[k])
    ensures j == |s| || !IsColonOrSpace(s[j])
    decreases |s| - a
  {
    if a < |s| && IsColonOrSpace(s[a]) then ColonSpaceEnd(s, a + 1) else a
  }

  /** The first '.' at or after `i`, or the end of the text. */
  function DotFrom(s: string, i: nat): (j: nat)
    requires i <= |s|
    ensures i <= j <= |s|
    ensures forall k :: i <= k < j ==> s[k] != '.'
    ensures j == |s| || s[j] == '.'
    decreases |s| - i
  {
    if i == |s| || s[i] == '.' then i else DotFrom(s, i + 1)
  }

  /** `\s+due\s+to\s+([^.]+)` at `e`: group 2's bounds. The greedy `\s+` before
      group 2 gives back one whitespace character when nothing else is left for
      `[^.]+`. */
  function TailAt(s: string, e: nat): (r: Option<(nat, nat)>)
    requires e <= |s|
    ensures r.Some? ==> e < r.value.0 < r.value.1 <= |s|
    ensures r.Some? ==> forall k :: r.value.0 <= k < r.value.1 ==> s[k] != '.'
    ensures r.Some? ==> r.value.1 == |s| || s[r.value.1] == '.'
  {
    match ThenWord(s, SpacedWordAt(s, e, "due"), "to")
    case None => None
    case Some(h) =>
      var m := SkipSpaces(s, h);
      if m == h then None
      else if m < |s| && s[m] != '.' then Some((m, DotFrom(s, m)))
      else if m - h >= 2 then
        SkippedAreSpaces(s, h);
        Some((m - 1, DotFrom(s, m - 1)))
      else None
  }

  /** The rest of the pattern after group 1, `\s+due\s+to\s+([^.]+)`, as the
      continuation the backtracking engine hands each end of group 1 to. */
  function Tail(s: string): nat -> Option<(nat, nat)>
  {
    (e: nat) => if e <= |s| then TailAt(s, e) else None
  }

  /** The lazy group `(.+?)` that starts at `g` tries the ends `e, e+1, ...`, hands
      each to the rest of the pattern `rest`, and stops at a newline, which `.` does
      not match. */
  function LazyEnd(s: string, rest: nat -> Option<(nat, nat)>, g: nat, e: nat): (r: Option<nat>)
    requires g < e
    requires forall k :: g <= k < e - 1 && k < |s| ==> s[k] != '\n'
    ensures r.Some? ==> e <= r.value <= |s| && rest(r.value).Some?
    ensures r.Some? ==> forall k :: g <= k < r.value ==> s[k] != '\n'
    decreases |s| - e
  {
    if e > |s| || s[e - 1] == '\n' then None
    else if rest(e).Some? then Some(e)
    else
      LazyEnd(s, rest, g, e + 1)
  }

  /** The greedy `[:\s]+` after the fixed words first keeps all `k` characters of
      the run and gives them back one at a time. */
  function ChooseGroup(s: string, rest: nat -> Option<(nat, nat)>, a: nat, k: nat): (r: Option<(nat, nat)>)
    requires a + k <= |s|
    ensures r.Some? ==> a < r.value.0 <= a + k && r.value.0 < r.value.1 <= |s|
    ensures r.Some? ==> rest(r.value.1).Some?
    ensures r.Some? ==> forall i :: r.value.0 <= i < r.value.1 ==> s[i] != '\n'
    decreases k
  {
    if k == 0 then None
    else
      match LazyEnd(s, rest, a + k, a + k + 1)
      case Some(e) => Some((a + k, e))
      case None => ChooseGroup(s, rest, a, k - 1)
  }

  /** The bounds and character classes of a match. */
  predicate Fits(s: string, m: Match)
  {
    m.start < m.regionStart < m.regionEnd < m.reasonStart < m.reasonEnd <= |s| &&
    NoNewline(s, m.regionStart, m.regionEnd) && NoFullStop(s, m.reasonStart, m.reasonEnd)
  }

  /** The match that starts exactly at `p`, if any. */
  function MatchAt(ph: Phrase, s: string, p: nat): (r: Option<Match>)
    requires p <= |s|
    ensures r.Some? ==> r.value.start == p && Fits(s, r.value)
  {
    match HeadEnd(ph, s, p)
    case None => None
    case Some(a) =>
      var r := MatchFrom(s, Tail(s), p, a);
      if r.Some? then TailAtIs(s, r.value.regionEnd); r else r
  }

  /** The rest of a match at `p` once its fixed words end at `a`: `[:\s]+`, then
      group 1, then `rest`, which reports group 2. */
  function MatchFrom(s: string, rest: nat -> Option<(nat, nat)>, p: nat, a: nat): (r: Option<Match>)
    requires p < a <= |s|
    ensures r.Some? ==> r.value.start == p < a < r.value.regionStart < r.value.regionEnd <= |s|
    ensures r.Some? ==> NoNewline(s, r.value.regionStart, r.value.regionEnd)
    ensures r.Some? ==> rest(r.value.regionEnd) == Some((r.value.reasonStart, r.value.reasonEnd))
  {
    match ChooseGroup(s, rest, a, ColonSpaceEnd(s, a) - a)
    case None => None
    case Some(ge) =>
      var bc := rest(ge.1).value;
      Some(Match(p, ge.0, ge.1, bc.0, bc.1))
  }

  lemma TailAtIs(s: string, e: nat)
    requires e <= |s|
    ensures Tail(s)(e) == TailAt(s, e)
  {
  }

  /** The matcher that tries the whole pattern at one start. */
  function MatcherOf(ph: Phrase, s: string): nat -> Option<Match>
  {
    (p: nat) => if p <= |s| then MatchAt(ph, s, p) else None
  }

  /** The search `re.finditer` makes from `pos`: the first start at or after `pos`
      where the matcher `at` reports a match. */
  function SearchFrom(s: string, at: nat -> Option<Match>, pos: nat): (r: Option<nat>)
    requires pos <= |s|
    ensures r.Some? ==> pos <= r.value < |s| && at(r.value).Some?
    decreases |s| - pos
  {
    if pos == |s| then None
    else if at(pos).Some? then Some(pos)
    else SearchFrom(s, at, pos + 1)
  }

  /** One search of `re.finditer` from `pos`: the match at the first start that has
      one. */
  function NextMatch(ph: Phrase, s: string, pos: nat): (r: Option<Match>)
    requires pos <= |s|
    ensures r.Some? ==> pos <= r.value.start && Fits(s, r.value)
  {
    match SearchFrom(s, MatcherOf(ph, s), pos)
    case None => None
    case Some(q) =>
      MatcherFits(ph, s, q);
      MatchAt(ph, s, q)
  }

  /** The matches `re.finditer` yields from `pos`, each search resuming where the
      previous match ended. */
  function Matches(ph: Phrase, s: string, pos: nat): (ms: seq<Match>)
    requires pos <= |s|
    ensures forall i :: 0 <= i < |ms| ==> Fits(s, ms[i])
    decreases |s| - pos
  {
    match NextMatch(ph, s, pos)
    case None => []
    case Some(m) =>
      var rest := Matches(ph, s, m.reasonEnd);
      assert forall i :: 0 < i <= |rest| ==> ([m] + rest)[i] == rest[i - 1];
      [m] + rest
  }

  /** What the scan guarantees of each stripped candidate: the region name stays on
      one line (`.` does not match a newline) and the reasons hold no full stop. */
  predicate WellScanned(c: Candidate)
  {
    (forall k :: 0 <= k < |c.region| ==> c.region[k] != '\n') &&
    (forall k :: 0 <= k < |c.reasons| ==> c.reasons[k] != '.')
  }

  /** A match's two groups, each after `.strip()`. */
  function CandidateOf(s: string, m: Match): (c: Candidate)
    requires Fits(s, m)
    ensures WellScanned(c)
  {
    TrimKeepsAbsent(s[m.regionStart..m.regionEnd], '\n');
    TrimKeepsAbsent(s[m.reasonStart..m.reasonEnd], '.');
    Candidate(Trim(s[m.regionStart..m.regionEnd]), Trim(s[m.reasonStart..m.reasonEnd]))
  }

  /** `re.finditer` from `pos`, each match's two groups stripped. */
  function FindAll(ph: Phrase, s: string, pos: nat): (cs: seq<Candidate>)
    requires pos <= |s|
    ensures AllWellScanned(cs)
  {
    var ms := Matches(ph, s, pos);
    seq(|ms|, i requires 0 <= i < |ms| => CandidateOf(s, ms[i]))
  }

  predicate AllWellScanned(cs: seq<Candidate>)
  {
    forall i :: 0 <= i < |cs| ==> WellScanned(cs[i])
  }

  // ---------------------------------------------------------------------------
  // The scanner reports exactly the engine's matches

  /** A whitespace run from `i` that stops at a non-whitespace character, or at the
      end, ends where `SkipSpaces` stops. */
  lemma SkipSpacesAt(s: string, i: nat, k: nat)
    requires AllSpace(s, i, k) && (k == |s| || !IsSpace(s[k]))
    ensures SkipSpaces(s, i) == k
  {
    SkippedAreSpaces(s, i);
  }

  /** `SpacedWordAt` finds exactly the ends of `\s+w`. */
  lemma SpacedWordAtIff(s: string, i: nat, w: string, j: nat)
    requires i <= |s| && w != [] && !IsSpace(w[0])
    ensures SpacedWordAt(s, i, w) == Some(j) <==> SpacedWord(s, i, w, j)
  {
    SkippedAreSpaces(s, i);
    if SpacedWord(s, i, w, j) {
      var k := j - |w|;
      assert s[k] == s[k..k + |w|][0] == w[0];
      SkipSpacesAt(s, i, k);
    }
  }

  /** `HeadEnd` finds exactly where the fixed words of the phrase end. */
  lemma HeadEndIff(ph: Phrase, s: string, p: nat, a: nat)
    requires p <= |s|
    ensures HeadEnd(ph, s, p) == Some(a) <==> HeadMatches(ph, s, p, a)
  {
    if ph == DoNotTravel {
      DoNotTravelHeadIff(s, p, a);
    } else {
      ReconsiderHeadIff(s, p, a);
    }
  }

  lemma DoNotTravelHeadIff(s: string, p: nat, a: nat)
    requires p <= |s|
    ensures HeadEnd(DoNotTravel, s, p) == Some(a) <==> HeadMatches(DoNotTravel, s, p, a)
  {
    if p + 2 <= |s| && (s[p] == 'D' || s[p] == 'd') && s[p + 1] == 'o' {
      if HeadMatches(DoNotTravel, s, p, a) {
        var j1: nat, j2: nat :|
          SpacedWord(s, p + 2, "not", j1) && SpacedWord(s, j1, "travel", j2) && SpacedWord(s, j2, "to", a);
        SpacedWordAtIff(s, p + 2, "not", j1);
        SpacedWordAtIff(s, j1, "travel", j2);
        SpacedWordAtIff(s, j2, "to", a);
      }
      if HeadEnd(DoNotTravel, s, p) == Some(a) {
        var j1 := SpacedWordAt(s, p + 2, "not").value;
        var j2 := SpacedWordAt(s, j1, "travel").value;
        SpacedWordAtIff(s, p + 2, "not", j1);
        SpacedWordAtIff(s, j1, "travel", j2);
        SpacedWordAtIff(s, j2, "to", a);
      }
    }
  }

  lemma ReconsiderHeadIff(s: string, p: nat, a: nat)
    requires p <= |s|
    ensures HeadEnd(Reconsider, s, p) == Some(a) <==> HeadMatches(Reconsider, s, p, a)
  {
    if p + 10 <= |s| && (s[p] == 'R' || s[p] == 'r') && LitAt(s, p + 1, "econsider") {
      if HeadMatches(Reconsider, s, p, a) {
        var j1: nat :| SpacedWord(s, p + 10, "travel", j1) && SpacedWord(s, j1, "to", a);
        SpacedWordAtIff(s, p + 10, "travel", j1);
        SpacedWordAtIff(s, j1, "to", a);
      }
      if HeadEnd(Reconsider, s, p) == Some(a) {
        var j1 := SpacedWordAt(s, p + 10, "travel").value;
        SpacedWordAtIff(s, p + 10, "travel", j1);
        SpacedWordAtIff(s, j1, "to", a);
      }
    }
  }

  /** What `TailAt` reports is a tail match. */
  lemma TailAtSound(s: string, e: nat)
    requires e <= |s| && TailAt(s, e).Some?
    ensures TailMatches(s, e, TailAt(s, e).value.0, TailAt(s, e).value.1)
  {
    var h1 := SpacedWordAt(s, e, "due").value;
    var h2 := SpacedWordAt(s, h1, "to").value;
    SpacedWordAtIff(s, e, "due", h1);
    SpacedWordAtIff(s, h1, "to", h2);
    SkippedAreSpaces(s, h2);
    var b := TailAt(s, e).value.0;
    var c := TailAt(s, e).value.1;
    assert AllSpace(s, h2, b) && NoFullStop(s, b, c);
  }

  /** A run without '.' from `b` ends no later than the first '.'. */
  lemma DotBound(s: string, b: nat, c: nat)
    requires NoFullStop(s, b, c)
    ensures c <= DotFrom(s, b)
  {
  }

  /** Whenever the tail matches at `e`, `TailAt` reports the one the engine tries
      first: group 2 starting latest, then ending latest. */
  lemma TailAtBest(s: string, e: nat, b: nat, c: nat)
    requires e <= |s| && TailMatches(s, e, b, c)
    ensures TailAt(s, e).Some?
    ensures b < TailAt(s, e).value.0 || (b == TailAt(s, e).value.0 && c <= TailAt(s, e).value.1)
  {
    var h1: nat, h2: nat :|
      SpacedWord(s, e, "due", h1) && SpacedWord(s, h1, "to", h2) &&
      h2 < b && AllSpace(s, h2, b) && b < c && NoFullStop(s, b, c);
    SpacedWordAtIff(s, e, "due", h1);
    SpacedWordAtIff(s, h1, "to", h2);
    SkippedAreSpaces(s, h2);
    var m := SkipSpaces(s, h2);
    assert b <= m;
    assert b < m || (m < |s| && s[m] != '.');
    DotBound(s, b, c);
  }

  /** The lazy group that starts at `g` stops at an end no later than any end on the
      same line that the rest of the pattern accepts. */
  lemma {:induction false} LazyEndFirst(s: string, rest: nat -> Option<(nat, nat)>, g: nat, e: nat, e2: nat)
    requires g < e <= e2
    requires forall k :: g <= k < e - 1 && k < |s| ==> s[k] != '\n'
    requires NoNewline(s, g, e2) && rest(e2).Some?
    ensures LazyEnd(s, rest, g, e).Some? && LazyEnd(s, rest, g, e).value <= e2
    decreases e2 - e
  {
    if e < e2 && rest(e).None? {
      LazyEndFirst(s, rest, g, e + 1, e2);
    }
  }

  /** Whenever group 1 can start at `g2` and end at `e2`, `ChooseGroup` picks a
      start the engine tries no later: a later start, or the same start and an end
      no later. */
  lemma {:induction false} ChooseGroupFirst(s: string, rest: nat -> Option<(nat, nat)>, a: nat, k: nat, g2: nat, e2: nat)
    requires a + k <= |s| && a < g2 <= a + k && g2 < e2
    requires NoNewline(s, g2, e2) && rest(e2).Some?
    ensures ChooseGroup(s, rest, a, k).Some?
    ensures g2 < ChooseGroup(s, rest, a, k).value.0 ||
      (g2 == ChooseGroup(s, rest, a, k).value.0 && ChooseGroup(s, rest, a, k).value.1 <= e2)
    decreases k
  {
    if g2 == a + k {
      LazyEndFirst(s, rest, g2, g2 + 1, e2);
    } else if LazyEnd(s, rest, a + k, a + k + 1).None? {
      ChooseGroupFirst(s, rest, a, k - 1, g2, e2);
    }
  }

  /** A match starts inside the text. */
  lemma MatchStartsInside(ph: Phrase, s: string, m: Match)
    requires IsMatch(ph, s, m)
    ensures m.start < |s|
  {
    var a: nat :| HeadMatches(ph, s, m.start, a) && a < m.regionStart;
  }

  /** What `MatchAt` reports is a match at `p`. */
  lemma MatchAtSound(ph: Phrase, s: string, p: nat)
    requires p <= |s| && MatchAt(ph, s, p).Some?
    ensures IsMatch(ph, s, MatchAt(ph, s, p).value)
  {
    var a := HeadEnd(ph, s, p).value;
    HeadEndIff(ph, s, p, a);
    var m := MatchAt(ph, s, p).value;
    TailAtSound(s, m.regionEnd);
    assert AllColonOrSpace(s, a, m.regionStart);
  }

  /** A competitor with head end `a`, group 1 at s[g2..e2] and a tail the engine
      tries no earlier than `TailAt`'s does not come before what `MatchAt` reports. */
  lemma MatchFromBeats(s: string, rest: nat -> Option<(nat, nat)>, p: nat, a: nat, m2: Match)
    requires p < a <= |s| && m2.start == p
    requires a < m2.regionStart <= ColonSpaceEnd(s, a) && m2.regionStart < m2.regionEnd
    requires NoNewline(s, m2.regionStart, m2.regionEnd) && rest(m2.regionEnd).Some?
    requires m2.reasonStart < rest(m2.regionEnd).value.0 ||
      (m2.reasonStart == rest(m2.regionEnd).value.0 && m2.reasonEnd <= rest(m2.regionEnd).value.1)
    ensures MatchFrom(s, rest, p, a).Some? && !TriedBefore(m2, MatchFrom(s, rest, p, a).value)
  {
    ChooseGroupFirst(s, rest, a, ColonSpaceEnd(s, a) - a, m2.regionStart, m2.regionEnd);
  }

  /** Whenever the pattern matches at a start, `MatchAt` reports a match there that
      the engine tries no later. */
  lemma MatchAtBest(ph: Phrase, s: string, m2: Match)
    requires IsMatch(ph, s, m2)
    ensures m2.start < |s|
    ensures MatchAt(ph, s, m2.start).Some? && !TriedBefore(m2, MatchAt(ph, s, m2.start).value)
  {
    MatchStartsInside(ph, s, m2);
    var p := m2.start;
    var a: nat :|
      HeadMatches(ph, s, p, a) && a < m2.regionStart && AllColonOrSpace(s, a, m2.regionStart) &&
      m2.regionStart < m2.regionEnd && NoNewline(s, m2.regionStart, m2.regionEnd) &&
      TailMatches(s, m2.regionEnd, m2.reasonStart, m2.reasonEnd);
    HeadEndIff(ph, s, p, a);
    ColonSpaceBound(s, a, m2.regionStart);
    TailAtBest(s, m2.regionEnd, m2.reasonStart, m2.reasonEnd);
    TailAtIs(s, m2.regionEnd);
    MatchFromBeats(s, Tail(s), p, a, m2);
  }

  /** A run of ':' and whitespace from `a` ends no later than `ColonSpaceEnd`. */
  lemma ColonSpaceBound(s: string, a: nat, g: nat)
    requires AllColonOrSpace(s, a, g)
    ensures g <= ColonSpaceEnd(s, a)
  {
  }

  /** `MatchAt` reports exactly the engine's match at `p`, and nothing when the
      pattern does not match there. */
  lemma MatchAtSpec(ph: Phrase, s: string, p: nat)
    requires p <= |s|
    ensures MatchAt(ph, s, p).Some? ==> IsEngineMatch(ph, s, MatchAt(ph, s, p).value)
    ensures MatchAt(ph, s, p).None? ==> forall m :: IsMatch(ph, s, m) ==> m.start != p
  {
    if MatchAt(ph, s, p).Some? {
      MatchAtSound(ph, s, p);
    }
    forall m2 | IsMatch(ph, s, m2) && m2.start == p
      ensures MatchAt(ph, s, p).Some? && !TriedBefore(m2, MatchAt(ph, s, p).value)
    {
      MatchAtBest(ph, s, m2);
    }
  }

  lemma MatcherFits(ph: Phrase, s: string, p: nat)
    requires p <= |s|
    ensures MatcherOf(ph, s)(p) == MatchAt(ph, s, p)
  {
  }

  /** The matcher `at` reports, at each start, the engine's match there, or nothing
      when the pattern does not match there. */
  ghost predicate IsEngine(ph: Phrase, s: string, at: nat -> Option<Match>)
  {
    forall p: nat :: p <= |s| ==>
      (at(p).Some? ==> at(p).value.start == p && IsEngineMatch(ph, s, at(p).value)) &&
      (at(p).None? ==> forall m :: IsMatch(ph, s, m) ==> m.start != p)
  }

  /** `MatchAt` is such a matcher. */
  lemma MatcherIsEngine(ph: Phrase, s: string)
    ensures IsEngine(ph, s, MatcherOf(ph, s))
  {
    var at := MatcherOf(ph, s);
    forall p: nat | p <= |s|
      ensures at(p).Some? ==> at(p).value.start == p && IsEngineMatch(ph, s, at(p).value)
      ensures at(p).None? ==> forall m :: IsMatch(ph, s, m) ==> m.start != p
    {
      MatcherFits(ph, s, p);
      MatchAtSpec(ph, s, p);
    }
  }

  /** `SearchFrom` skips no start that `at` accepts. */
  lemma {:induction false} SearchFromFirst(s: string, at: nat -> Option<Match>, pos: nat, q: nat)
    requires pos <= q < |s| && at(q).Some?
    ensures SearchFrom(s, at, pos).Some? && SearchFrom(s, at, pos).value <= q
    decreases q - pos
  {
    if pos < q && at(pos).None? {
      SearchFromFirst(s, at, pos + 1, q);
    }
  }

  /** With such a matcher, `SearchFrom` finds the first start at or after `pos` where
      the pattern matches, and the matcher reports the engine's match there; when it
      finds nothing, the pattern matches nowhere there. */
  lemma SearchFromSpec(ph: Phrase, s: string, at: nat -> Option<Match>, pos: nat)
    requires pos <= |s| && IsEngine(ph, s, at)
    ensures SearchFrom(s, at, pos).Some? ==>
      FirstMatchFrom(ph, s, pos, at(SearchFrom(s, at, pos).value).value)
    ensures SearchFrom(s, at, pos).None? ==> NoMatchFrom(ph, s, pos)
  {
    forall m2 | IsMatch(ph, s, m2) && pos <= m2.start
      ensures SearchFrom(s, at, pos).Some? && SearchFrom(s, at, pos).value <= m2.start
    {
      MatchStartsInside(ph, s, m2);
      SearchFromFirst(s, at, pos, m2.start);
    }
  }

  /** One search reports the engine's match at the first start at or after `pos`
      where the pattern matches, and nothing when it matches nowhere there. */
  lemma NextMatchSpec(ph: Phrase, s: string, pos: nat)
    requires pos <= |s|
    ensures NextMatch(ph, s, pos).Some? ==> FirstMatchFrom(ph, s, pos, NextMatch(ph, s, pos).value)
    ensures NextMatch(ph, s, pos).None? ==> NoMatchFrom(ph, s, pos)
  {
    MatcherIsEngine(ph, s);
    SearchFromSpec(ph, s, MatcherOf(ph, s), pos);
    if SearchFrom(s, MatcherOf(ph, s), pos).Some? {
      MatcherFits(ph, s, SearchFrom(s, MatcherOf(ph, s), pos).value);
    }
  }

  /** `Matches` is the sequence `re.finditer` yields. */
  lemma {:induction false} MatchesSpec(ph: Phrase, s: string, pos: nat)
    requires pos <= |s|
    ensures IsFinditer(ph, s, pos, Matches(ph, s, pos))
    decreases |s| - pos
  {
    NextMatchSpec(ph, s, pos);
    match NextMatch(ph, s, pos)
    case None =>
    case Some(m) =>
      MatchesSpec(ph, s, m.reasonEnd);
      assert Matches(ph, s, pos)[1..] == Matches(ph, s, m.reasonEnd);
  }

  /** The candidates are the stripped groups of the matches `re.finditer` yields,
      in order. */
  lemma FindAllSpec(ph: Phrase, s: string, pos: nat)
    requires pos <= |s|
    ensures IsFinditer(ph, s, pos, Matches(ph, s, pos))
    ensures |FindAll(ph, s, pos)| == |Matches(ph, s, pos)|
    ensures forall i :: 0 <= i < |FindAll(ph, s, pos)| ==>
      FindAll(ph, s, pos)[i] == CandidateOf(s, Matches(ph, s, pos)[i])
  {
    MatchesSpec(ph, s, pos);
  }

  lemma TrimKeepsAbsent(s: string, c: char)
    requires forall k :: 0 <= k < |s| ==> s[k] != c
    ensures forall k :: 0 <= k < |Trim(s)| ==> Trim(s)[k] != c
  {
    PieceKeepsAbsent(s, Trim(s), c);
  }

  /** A piece of a string without `c` has no `c` either. */
  lemma PieceKeepsAbsent(s: string, r: string, c: char)
    requires Contains(s, r)
    requires forall k :: 0 <= k < |s| ==> s[k] != c
    ensures forall k :: 0 <= k < |r| ==> r[k] != c
  {
    var i: nat :| i <= |s| && OccursAt(s, r, i);
    forall k | 0 <= k < |r|
      ensures r[k] != c
    {
      assert r[k] == s[i..i + |r|][k] == s[i + k];
    }
  }
}
