/** `parse_advisory` (main.py:292-344): one raw API record becomes a
    `TravelAdvisory`, or nothing when its title carries no level and it is not
    a prohibited country. The timestamp parser and the clock are parameters. */
module AdvisoryParser {
  import opened Text
  import opened Wrappers
  import opened Advisory
  import opened TitleParser
  import opened Prohibited
  import opened HtmlCleaner
  import opened PhraseScanner
  import opened RegionalExtractor

  /** The fields of one API record that the parser reads; None is a missing key.
      A missing "Category" reads as the empty list, exactly as an empty one does. */
  datatype RawAdvisory = RawAdvisory(
    title: Option<string>,
    category: seq<string>,
    summary: Option<string>,
    link: Option<string>,
    id: Option<string>,
    updated: Option<string>,
    published: Option<string>)

  /** `raw.get(key, default)`. */
  function GetOr(field: Option<string>, default: string): (r: string)
    ensures field.Some? ==> r == field.value
    ensures field.None? ==> r == default
  {
    match field
    case Some(v) => v
    case None => default
  }

  /** `category[0] if category else ""`. */
  function CodeOf(category: seq<string>): (r: string)
    ensures category == [] ==> r == ""
    ensures category != [] ==> r == category[0]
  {
    if category == [] then "" else category[0]
  }

  /** The update time: "Updated", else "Published", else "", through `parseTime`
      (which stands for the 'Z' replacement and `datetime.fromisoformat`, and may
      give a naive or an aware value); `now` is the naive local clock reading used
      when the text does not parse. */
  function LastUpdatedOf(raw: RawAdvisory, parseTime: string -> Option<Timestamp>, now: int): (t: Timestamp)
    ensures parseTime(GetOr(raw.updated, GetOr(raw.published, ""))).Some? ==>
      t == parseTime(GetOr(raw.updated, GetOr(raw.published, ""))).value
    ensures parseTime(GetOr(raw.updated, GetOr(raw.published, ""))).None? ==> t == Timestamp(now, None)
  {
    match parseTime(GetOr(raw.updated, GetOr(raw.published, "")))
    case Some(t) => t
    case None => Timestamp(now, None)
  }

  /** Where the time comes from: "Published" counts only when "Updated" is missing;
      an aware time always comes from the record's own text, and a record whose
      text does not parse gets the naive clock reading. */
  lemma LastUpdatedSources(raw: RawAdvisory, parseTime: string -> Option<Timestamp>, now: int, published: Option<string>)
    ensures raw.updated.Some? ==>
      LastUpdatedOf(raw, parseTime, now) == LastUpdatedOf(raw.(published := published), parseTime, now)
    ensures raw.updated.None? && raw.published.None? ==>
      LastUpdatedOf(raw, parseTime, now) == LastUpdatedOf(raw.(published := Some("")), parseTime, now)
    ensures LastUpdatedOf(raw, parseTime, now).offset.Some? ==>
      parseTime(GetOr(raw.updated, GetOr(raw.published, ""))) == Some(LastUpdatedOf(raw, parseTime, now))
    ensures parseTime(GetOr(raw.updated, GetOr(raw.published, ""))).None? ==>
      LastUpdatedOf(raw, parseTime, now) == Timestamp(now, None)
  {
  }

  /** `parse_advisory`. */
  function ParseAdvisory(raw: RawAdvisory, unescape: string -> string,
                         parseTime: string -> Option<Timestamp>, now: int): Option<TravelAdvisory>
  {
    var (name, level) := ParseLevelFromTitle(GetOr(raw.title, ""));
    if level == 0 && !IsProhibitedCountry(name) then None
    else
      var summary := GetOr(raw.summary, "");
      Some(TravelAdvisory(
        name,
        CodeOf(raw.category),
        level,
        CleanHtml(unescape, summary),
        LastUpdatedOf(raw, parseTime, now),
        GetOr(raw.link, GetOr(raw.id, "")),
        RegionalWarningsOf(unescape, summary, level)))
  }

  /** Every warning is above the advisory's own level. */
  predicate WarningsAbove(a: TravelAdvisory)
  {
    forall i :: 0 <= i < |a.regionalWarnings| ==> a.regionalWarnings[i].level > a.overallLevel
  }

  /** A record is dropped exactly when its title carries no level and its name is
      not prohibited; a kept record has the title's name and level (0..9, 0 only for
      a prohibited name), the first category as its code, the link or id, the cleaned
      summary, the update time, and the regional warnings of its summary, each above
      its level. */
  lemma ParseAdvisorySound(raw: RawAdvisory, unescape: string -> string,
                           parseTime: string -> Option<Timestamp>, now: int)
    ensures var t := ParseLevelFromTitle(GetOr(raw.title, ""));
      ParseAdvisory(raw, unescape, parseTime, now).None? <==> t.1 == 0 && !IsProhibitedCountry(t.0)
    ensures ParseAdvisory(raw, unescape, parseTime, now).Some? ==>
      var a := ParseAdvisory(raw, unescape, parseTime, now).value;
      a.countryName == ParseLevelFromTitle(GetOr(raw.title, "")).0 &&
      a.overallLevel == ParseLevelFromTitle(GetOr(raw.title, "")).1 &&
      0 <= a.overallLevel <= 9 &&
      (a.overallLevel == 0 ==> IsProhibitedCountry(a.countryName)) &&
      a.countryCode == CodeOf(raw.category) &&
      a.link == GetOr(raw.link, GetOr(raw.id, "")) &&
      a.summary == CleanHtml(unescape, GetOr(raw.summary, "")) &&
      a.lastUpdated == LastUpdatedOf(raw, parseTime, now) &&
      a.regionalWarnings == RegionalWarningsOf(unescape, GetOr(raw.summary, ""), a.overallLevel) &&
      WarningsAbove(a)
  {
    var t := ParseLevelFromTitle(GetOr(raw.title, ""));
    var summary := GetOr(raw.summary, "");
    RegionalWarningsAbove(unescape, summary, t.1);
  }

  /** For a parsed advisory, a regional elevation is simply a non-empty list of warnings. */
  lemma ParsedElevation(raw: RawAdvisory, unescape: string -> string,
                        parseTime: string -> Option<Timestamp>, now: int)
    requires ParseAdvisory(raw, unescape, parseTime, now).Some?
    ensures var a := ParseAdvisory(raw, unescape, parseTime, now).value;
      HasRegionalElevation(a) <==> a.regionalWarnings != []
  {
    ParseAdvisorySound(raw, unescape, parseTime, now);
    var a := ParseAdvisory(raw, unescape, parseTime, now).value;
    if a.regionalWarnings != [] {
      assert a.regionalWarnings[0].level > a.overallLevel;
    }
  }
}
