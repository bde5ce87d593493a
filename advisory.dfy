/** The two record types of the pipeline and their derived properties, plus
    the country-code-to-flag helper (main.py:96-142). */
module Advisory {
  import opened Text
  import opened Wrappers

  /** A named sub-national area whose own level is above its country's. */
  datatype RegionalWarning = RegionalWarning(regionName: string, level: int, reasons: string)

  /** A `datetime` as the parser produces it: the wall-clock reading `wall`, counted
      in any fixed unit from a fixed epoch, and for an aware value its offset from
      UTC in the same unit; `offset` is None for a naive value (`datetime.now()`). */
  datatype Timestamp = Timestamp(wall: int, offset: Option<int>)

  /** `<` and `>` order two naive or two aware values; between a naive and an aware
      one they raise TypeError. */
  predicate Comparable(t: Timestamp, u: Timestamp)
  {
    t.offset.Some? == u.offset.Some?
  }

  /** The point on the time line the comparison uses: UTC for an aware value, the
      wall clock for a naive one. Equal instants may still differ in their offsets,
      and so in their `isoformat` text. */
  function Instant(t: Timestamp): int
  {
    match t.offset
    case Some(o) => t.wall - o
    case None => t.wall
  }

  /** One country's advisory. */
  datatype TravelAdvisory = TravelAdvisory(
    countryName: string,
    countryCode: string,
    overallLevel: int,
    summary: string,
    lastUpdated: Timestamp,
    link: string,
    regionalWarnings: seq<RegionalWarning>)

  /** The `has_regional_elevation` property: some warning is above the overall level. */
  predicate HasRegionalElevation(a: TravelAdvisory)
  {
    exists i :: 0 <= i < |a.regionalWarnings| && a.regionalWarnings[i].level > a.overallLevel
  }

  /** The largest level of a non-empty list of warnings. */
  function MaxLevel(ws: seq<RegionalWarning>): (m: int)
    requires ws != []
    ensures forall i :: 0 <= i < |ws| ==> ws[i].level <= m
    ensures exists i :: 0 <= i < |ws| && ws[i].level == m
  {
    if |ws| == 1 then ws[0].level
    else
      var rest := MaxLevel(ws[1..]);
      assert forall i :: 1 <= i < |ws| ==> ws[i] == ws[1..][i - 1];
      if ws[0].level >= rest then ws[0].level else rest
  }

  /** The `max_regional_level` property: the overall level when there are no warnings. */
  function MaxRegionalLevel(a: TravelAdvisory): (m: int)
    ensures a.regionalWarnings == [] ==> m == a.overallLevel
    ensures forall i :: 0 <= i < |a.regionalWarnings| ==> a.regionalWarnings[i].level <= m
    ensures a.regionalWarnings != [] ==>
      exists i :: 0 <= i < |a.regionalWarnings| && a.regionalWarnings[i].level == m
  {
    if a.regionalWarnings == [] then a.overallLevel else MaxLevel(a.regionalWarnings)
  }

  /** A regional elevation is exactly a maximum regional level above the overall one. */
  lemma ElevationIffMaxAbove(a: TravelAdvisory)
    ensures HasRegionalElevation(a) <==> MaxRegionalLevel(a) > a.overallLevel
  {
    if MaxRegionalLevel(a) > a.overallLevel {
      var i :| 0 <= i < |a.regionalWarnings| && a.regionalWarnings[i].level == MaxRegionalLevel(a);
    }
  }

  /** First regional indicator symbol, the flag letter for 'A'. */
  const RegionalIndicatorA := 0x1F1E6

  /** The largest code point `chr` accepts. */
  const MaxCodePoint := 0x10FFFF

  /** The regional indicator for one character, or None where Python's `chr` raises. */
  function IndicatorFor(c: char): (r: Option<char>)
    ensures r.Some? <==> RegionalIndicatorA + UpperChar(c) as int - 'A' as int <= MaxCodePoint
    ensures r.Some? ==> r.value as int == RegionalIndicatorA + UpperChar(c) as int - 'A' as int
  {
    var n := RegionalIndicatorA + UpperChar(c) as int - 'A' as int;
    if n <= MaxCodePoint then Some(n as char) else None
  }

  /** `country_code_to_flag`: "" unless the code has exactly two characters; None stands
      for the ValueError `chr` raises past the last code point. */
  function CountryCodeToFlag(code: string): (r: Option<string>)
    ensures |code| != 2 ==> r == Some("")
    ensures |code| == 2 && r.Some? ==> |r.value| == 2
  {
    if |code| != 2 then Some("")
    else
      match (IndicatorFor(code[0]), IndicatorFor(code[1]))
      case (Some(x), Some(y)) => Some([x, y])
      case _ => None
  }

  /** Reads a regional indicator back as the upper-case letter it stands for. */
  function LetterFor(f: char): (c: char)
  {
    var n := f as int - RegionalIndicatorA + 'A' as int;
    if 0 <= n < 0xD800 then n as char else '?'
  }

  function FlagToCode(flag: string): (code: string)
    ensures |code| == |flag|
  {
    seq(|flag|, i requires 0 <= i < |flag| => LetterFor(flag[i]))
  }

  predicate IsAsciiLetter(c: char)
  {
    'A' <= c <= 'Z' || 'a' <= c <= 'z'
  }

  /** A two-letter code becomes two regional indicators, and reading them back gives
      the code in upper case. */
  lemma FlagRoundTrip(code: string)
    requires |code| == 2 && IsAsciiLetter(code[0]) && IsAsciiLetter(code[1])
    ensures CountryCodeToFlag(code).Some?
    ensures var f := CountryCodeToFlag(code).value;
      forall i :: 0 <= i < 2 ==> RegionalIndicatorA <= f[i] as int < RegionalIndicatorA + 26
    ensures FlagToCode(CountryCodeToFlag(code).value) == Upper(code)
  {
  }

  /** Letters map onto the 26 regional indicators U+1F1E6..U+1F1FF: a letter and its
      other case to the same indicator, which reads back as the upper-case letter,
      and different letters to different indicators. `chr` raises only for a
      character past U+F0E5A, whose indicator would be past the last code point. */
  lemma IndicatorLetters(c: char, d: char)
    requires IsAsciiLetter(c) && IsAsciiLetter(d)
    ensures IndicatorFor(c).Some?
    ensures RegionalIndicatorA <= IndicatorFor(c).value as int < RegionalIndicatorA + 26
    ensures LetterFor(IndicatorFor(c).value) == UpperChar(c)
    ensures IndicatorFor(c) == IndicatorFor(d) <==> UpperChar(c) == UpperChar(d)
  {
  }

  /** `chr` raises exactly for the characters past U+F0E5A. */
  lemma IndicatorRaises(c: char)
    ensures IndicatorFor(c).None? <==> c as int > 0xF0E5A
  {
  }

  /** The `flag_emoji` property: no flag without a code, and for a two-letter code
      the two regional indicators that read back as the code in upper case. */
  function FlagEmoji(a: TravelAdvisory): (r: Option<string>)
    ensures a.countryCode == [] ==> r == Some("")
    ensures |a.countryCode| == 2 && IsAsciiLetter(a.countryCode[0]) && IsAsciiLetter(a.countryCode[1]) ==>
      r.Some? && |r.value| == 2 && FlagToCode(r.value) == Upper(a.countryCode)
  {
    CountryCodeToFlag(a.countryCode)
  }
}
