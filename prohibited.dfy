/** The prohibited-country tables and predicate (main.py:51-92, 347-358). */
module Prohibited {
  import opened Text

  /** The keys of `PROHIBITED_COUNTRIES`, in their declared order. */
  const ProhibitedCountries: seq<string> :=
    ["China", "Cuba", "Iran", "North Korea", "Russia", "Venezuela"]

  /** `PROHIBITED_COUNTRY_NAMES`: lower-case names and their known variants. */
  const ProhibitedCountryNames: set<string> := {
    "china", "hong kong", "macau", "macao",
    "cuba",
    "iran",
    "north korea", "korea, north", "democratic people's republic of korea",
    "russia", "russian federation",
    "venezuela"
  }

  /** The name as `is_prohibited_country` compares it: `lower()` then `strip()`. */
  function NormalizedName(countryName: string): string
  {
    Trim(Lower(countryName))
  }

  /** `is_prohibited_country`: an exact match, or any prohibited name occurring
      inside the normalised country name. */
  predicate IsProhibitedCountry(countryName: string)
  {
    var n := NormalizedName(countryName);
    n in ProhibitedCountryNames || exists p | p in ProhibitedCountryNames :: ContainsAt(n, p)
  }

  /** The exact-match branch adds nothing: the predicate is substring membership alone. */
  lemma ProhibitedIffSubstring(countryName: string)
    ensures IsProhibitedCountry(countryName) <==>
      exists p :: p in ProhibitedCountryNames && Contains(NormalizedName(countryName), p)
  {
    var n := NormalizedName(countryName);
    if n in ProhibitedCountryNames {
      assert OccursAt(n, n, 0);
    }
  }

  /** A name whose lower-case form holds a prohibited name at some position is
      prohibited, whatever surrounds it. */
  lemma ProhibitedByOccurrence(countryName: string, p: string, i: nat)
    requires p in ProhibitedCountryNames
    requires i + |p| <= |NormalizedName(countryName)|
    requires NormalizedName(countryName)[i..i + |p|] == p
    ensures IsProhibitedCountry(countryName)
  {
    assert OccursAt(NormalizedName(countryName), p, i);
  }
}
