# Travel advisory pipeline — a verified model

This project models the core of the travel-advisory report generator. The generator takes the State Department's travel advisories and turns them into two lists:

- the countries designated as foreign adversaries (Texas executive order GA-48), whose advisories are kept apart;
- every other country whose advisory, or one of whose regions, is at level 3 ("Reconsider Travel") or level 4 ("Do Not Travel").

It also keeps a verification log of the run, and that log halts report generation when a check fails.

The model follows the pipeline stage by stage, in the code's own order:

- **Records** (`advisory.dfy`). The `RegionalWarning` and `TravelAdvisory` records, with their derived properties `has_regional_elevation`, `max_regional_level` and `flag_emoji`, and the country-code-to-flag helper. A timestamp is naive or aware, as a `datetime` is.
- **Title parsing** (`title.dfy`). `"<name> - Level <digit>"` becomes a name and a level. The regular expression `^(.+?)\s*-\s*Level\s*(\d)` is written out as a scanner that takes the shortest name, as the lazy group does.
- **HTML cleaning** (`html.dfy`). Entity decoding, then the seven `re.sub` substitutions in order, each as a left-to-right scanner, then `strip()`.
- **Regional warnings** (`scanner.dfy`, `regional.dfy`).
  - The two `re.finditer` patterns ("do not travel to X due to Y", "reconsider travel to X due to Y") are defined declaratively. That definition says which texts match, which match Python's backtracking engine reports at a start, and which sequence `re.finditer` yields. The scanner is proved to report exactly that sequence.
  - The filter chain runs in the code's order: country-wide test on the raw region, article and punctuation stripping, vague-reference test, length bounds.
  - The append loop admits a region unless an accepted name already contains it. Every region that passes the filters ends up covered by some returned name.
- **Advisory parsing** (`record.dfy`). One raw API record becomes an advisory. It is dropped when its title has no level and its name is not prohibited.
- **Prohibited countries** (`prohibited.dfy`). The two tables and the exact-or-substring test.
- **Deduplication** (`dedup.dfy`). One advisory per identity key, keeping the newest, in the order keys are first seen. The identity key is the upper-cased code, or else the lower-cased, stripped name. Comparing a naive timestamp with an aware one raises `TypeError`, and the model returns no result in that case.
- **Classification** (`classify.dfy`, `sorting.dfy`). The prohibited list and the high-risk list, each sorted with the code's own sort keys. A stable insertion sort stands in for Python's stable sort.
- **Verification report** (`verification.dfy`). A class with the report's fields and four methods:
  - the data fingerprint (the records fed to the hasher);
  - the audit of the six expected prohibited countries;
  - the high-risk breakdown by level;
  - the four assertions.
- **Pipeline** (`pipeline.dfy`). Deduplication, classification and the assertions composed as `main` composes them.

Loops that update state are methods with loop invariants. Each method is proved equal to a specification function, and the properties are proved about those functions:

- `DeduplicateAdvisories`, `FilterHighRiskLists`, `ExtractRegionalWarnings` and `AcceptScan`;
- the `VerificationReport` methods.

`html.unescape`, the SHA-256 digest, `datetime.isoformat`, timestamp parsing and the clock are parameters of the functions that use them.

The regular-expression scanners take the rest of their pattern as a function-valued parameter: `LazyEnd` and `ChooseGroup` take the continuation `rest`, and `SearchFrom` takes the matcher `at`. Their lemmas are proved for any continuation or matcher. `Tail` and `MatcherOf` then instantiate them with the pattern's own.

Rows for functions that only define a computation name the lemmas that state its properties.

## Model

| member | source | states |
|---|---|---|
| Advisory.Comparable | src/travel_advisory/main.py:380 | `>` can be evaluated exactly when both timestamps are naive or both aware; CheckedScanSpec and DeduplicateOrFail state where the TypeError stops the pipeline |
| Advisory.Instant | src/travel_advisory/main.py:380 | the point on the time line that `>` compares: UTC for an aware value, the wall clock for a naive one; DeduplicateKeepsNewest states the kept advisory is the latest by it |
| Advisory.HasRegionalElevation | src/travel_advisory/main.py:127-130 | `any(w.level > overall)`; ElevationIffMaxAbove relates it to the maximum regional level |
| Advisory.MaxLevel | src/travel_advisory/main.py:137 | the result is at least every warning's level and equals one of them |
| Advisory.MaxRegionalLevel | src/travel_advisory/main.py:132-137 | the overall level when there are no warnings, else the largest warning level (an upper bound attained by some warning) |
| Advisory.ElevationIffMaxAbove | src/travel_advisory/main.py:127-137 | a regional elevation exists exactly when the maximum regional level exceeds the overall level |
| Advisory.IndicatorLetters | src/travel_advisory/main.py:104-105 | an ASCII letter maps into the 26 regional indicators U+1F1E6..U+1F1FF, reads back as its upper-case form, and two letters share an indicator exactly when they are the same letter ignoring case |
| Advisory.IndicatorRaises | src/travel_advisory/main.py:105 | `chr` raises exactly for the characters past U+F0E5A, whose indicator would lie past the last code point |
| Advisory.CountryCodeToFlag | src/travel_advisory/main.py:96-105 | a code whose length is not 2 gives the empty string; otherwise the result has two characters (or is the `chr` error) |
| Advisory.FlagRoundTrip | src/travel_advisory/main.py:96-105 | a two-letter code becomes two regional indicator symbols, and reading them back gives the code in upper case |
| Advisory.FlagEmoji | src/travel_advisory/main.py:139-142 | an advisory without a code has the empty flag; for a two-letter code the flag is two characters that read back as the code in upper case |
| TitleParser.LevelDigitAt | src/travel_advisory/main.py:178 | where `\s*-\s*Level\s*` ends, it is followed by a Unicode decimal digit, as `\d` requires |
| TitleParser.SearchFrom | src/travel_advisory/main.py:178 | every name end the search returns lets the rest of the pattern match |
| TitleParser.SearchFromFirst | src/travel_advisory/main.py:178 | the search skips no end at which the rest of the pattern matches (the lazy group takes the shortest name) |
| TitleParser.FirstMatch | src/travel_advisory/main.py:178 | the returned end is the shortest one that matches; none is returned only when no end matches |
| TitleParser.ParseLevelFromTitle | src/travel_advisory/main.py:168-181 | level in 0..9; `(title, 0)` unchanged when no prefix matches; otherwise the stripped shortest name and the value `int()` gives the digit, for any Unicode decimal digit |
| TitleParser.TitleRoundTrip | src/travel_advisory/main.py:172-181 | "name - Level d..." parses back to `(name, d)` for every stripped name without a dash or a newline and every decimal digit d |
| Prohibited.NormalizedName | src/travel_advisory/main.py:353 | `lower()` then `strip()`; ProhibitedIffSubstring states the test on it |
| Prohibited.IsProhibitedCountry | src/travel_advisory/main.py:347-358 | the exact or substring test; ProhibitedIffSubstring and ProhibitedByOccurrence state what it decides |
| Prohibited.ProhibitedIffSubstring | src/travel_advisory/main.py:347-358 | the predicate holds exactly when some prohibited name occurs in the lower-cased, stripped country name; the exact-match branch is subsumed |
| Prohibited.ProhibitedByOccurrence | src/travel_advisory/main.py:353-358 | any name containing a prohibited name at some position is prohibited |
| HtmlCleaner.MatchesIIgnoringCase | src/travel_advisory/main.py:192 | the characters the `i` of `<li[^>]*>` matches under `re.IGNORECASE`: 'i', 'I', 'İ' and 'ı'; MatchLen uses it |
| HtmlCleaner.CloseFrom | src/travel_advisory/main.py:190-193 | finds the first '>' at or after a position, or reports that there is none |
| HtmlCleaner.MatchLen | src/travel_advisory/main.py:189-196 | a match never overruns the text and starts with '<', '\n' or ' ' as its pattern requires |
| HtmlCleaner.Sub | src/travel_advisory/main.py:189-196 | `re.sub` of one pattern, left to right over non-overlapping matches; SubRemovesTags, SubCollapsesNewlines, SubCollapsesSpaces, SubKeepsTagFree and SubWithoutMatch state what each substitution achieves |
| HtmlCleaner.CleanHtml | src/travel_advisory/main.py:184-197 | the cleaned text has no surrounding whitespace, no `<...>` tag, no run of three newlines and no double space |
| HtmlCleaner.SubRemovesTags | src/travel_advisory/main.py:193 | after `re.sub(r'<[^>]+>', '', …)` no tag is left |
| HtmlCleaner.SubCollapsesNewlines | src/travel_advisory/main.py:195 | after collapsing, no run of three or more newlines is left |
| HtmlCleaner.SubCollapsesSpaces | src/travel_advisory/main.py:196 | after collapsing, no two spaces are adjacent |
| HtmlCleaner.SubKeepsTagFree | src/travel_advisory/main.py:195-196 | the whitespace substitutions never create a tag |
| HtmlCleaner.SubWithoutMatch | src/travel_advisory/main.py:189-196 | a substitution whose pattern matches nowhere leaves the text unchanged |
| HtmlCleaner.SpacesKeepNoNewlineRun | src/travel_advisory/main.py:196 | collapsing spaces never creates a newline run |
| HtmlCleaner.CleanTextIsFixed | src/travel_advisory/main.py:184-197 | text that is already clean (and that `unescape` leaves alone) comes back unchanged |
| HtmlCleaner.CleanHtmlIdempotent | src/travel_advisory/main.py:184-197 | cleaning cleaned text changes nothing, provided `unescape` leaves it alone |
| PhraseScanner.HeadEnd | src/travel_advisory/main.py:222 | where the fixed words end when they start at a position; HeadEndIff states that it finds them exactly when they are there |
| PhraseScanner.HeadEndIff | src/travel_advisory/main.py:222 | the scanner reports head end `a` exactly when `[Dd]o\s+not\s+travel\s+to` (or `[Rr]econsider\s+travel\s+to`) matches from the start to `a` |
| PhraseScanner.ColonSpaceEnd | src/travel_advisory/main.py:222 | the `[:\s]` run is maximal |
| PhraseScanner.TailAt | src/travel_advisory/main.py:222 | group 2 is non-empty, holds no '.', and ends at a '.' or at the end of the text |
| PhraseScanner.TailAtSound | src/travel_advisory/main.py:222 | what `TailAt` reports is a match of `\s+due\s+to\s+([^.]+)` with those group-2 bounds |
| PhraseScanner.TailAtBest | src/travel_advisory/main.py:222 | whenever the tail matches, `TailAt` reports the match the engine tries first: group 2 starting latest, then ending latest |
| PhraseScanner.LazyEnd | src/travel_advisory/main.py:222 | the lazy `(.+?)` tries ends in increasing order, stops at a newline, and returns an end the rest of the pattern accepts; LazyEndFirst proves it is the shortest |
| PhraseScanner.LazyEndFirst | src/travel_advisory/main.py:222 | the lazy group stops no later than any end on the same line that the rest of the pattern accepts |
| PhraseScanner.ChooseGroupFirst | src/travel_advisory/main.py:222 | the greedy `[:\s]+` gives back characters one at a time: the chosen group 1 starts no earlier than any possible start, and at the same start ends no later |
| PhraseScanner.MatchAt | src/travel_advisory/main.py:221-224 | the match at one start, with groups in order; MatchAtSpec proves it is the engine's match there |
| PhraseScanner.MatchAtBest | src/travel_advisory/main.py:221-224 | whenever the pattern matches at a start, `MatchAt` reports a match there that the engine does not try after the competitor |
| PhraseScanner.MatchAtSpec | src/travel_advisory/main.py:221-224 | `MatchAt` reports exactly the match Python's backtracking engine reports at that start, and nothing when the pattern does not match there |
| PhraseScanner.MatcherIsEngine | src/travel_advisory/main.py:221-224 | the pattern's matcher reports, at each start, the engine's match there, and nothing exactly when no match starts there |
| PhraseScanner.SearchFrom | src/travel_advisory/main.py:221-224 | the first start at or after the search position that the matcher accepts; SearchFromFirst and SearchFromSpec prove it is the leftmost |
| PhraseScanner.SearchFromFirst | src/travel_advisory/main.py:221-224 | the search skips no start that the matcher accepts |
| PhraseScanner.SearchFromSpec | src/travel_advisory/main.py:221-224 | with the engine's matcher, the search finds the leftmost start at or after the position where the pattern matches, and finds nothing only when it matches nowhere there |
| PhraseScanner.NextMatchSpec | src/travel_advisory/main.py:221-224 | one search reports the engine's match at the leftmost matching start, or nothing when no match starts at or after the position |
| PhraseScanner.Matches | src/travel_advisory/main.py:221-224 | the `re.finditer` iteration, each search resuming at the previous match's end; every match fits the text, and MatchesSpec proves it is the sequence `re.finditer` yields |
| PhraseScanner.MatchesSpec | src/travel_advisory/main.py:221-224 | the matches are exactly what `re.finditer` yields: each the first match from where the previous one ended, until none is left |
| PhraseScanner.FindAll | src/travel_advisory/main.py:221-227 | every stripped candidate region is on one line and its reasons hold no full stop; FindAllSpec ties the candidates to the matches |
| PhraseScanner.FindAllSpec | src/travel_advisory/main.py:221-227 | the candidates are the two stripped groups of the matches `re.finditer` yields, in order |
| RegionalExtractor.StripArticle | src/travel_advisory/main.py:235 | the result is a suffix of the region |
| RegionalExtractor.StripLeadingPunctuation | src/travel_advisory/main.py:236 | the result is a suffix of the region |
| RegionalExtractor.CleanRegionName | src/travel_advisory/main.py:234-237 | the article and punctuation stripping and `strip()`; CleanRegionNameWithin states that the result is a piece of the region |
| RegionalExtractor.CleanRegionNameWithin | src/travel_advisory/main.py:234-237 | the cleaned name is a substring of the region as matched |
| RegionalExtractor.FilterRegion | src/travel_advisory/main.py:229-245 | the filter chain of one loop pass; FilterRegionAccepts and FilteredNameIsValid state what an accepted name satisfies |
| RegionalExtractor.FilterRegionAccepts | src/travel_advisory/main.py:229-245 | an accepted name has length 3..200, is not vague, is a piece of the region, and the raw region is not country-wide |
| RegionalExtractor.FilteredNameIsValid | src/travel_advisory/main.py:229-245 | an accepted name mentions no country-wide phrase and no vague phrase, and has length 3..200 |
| RegionalExtractor.AlreadyCovered | src/travel_advisory/main.py:248 | `any(region.lower() in w.region_name.lower() ...)` (also main.py:282); AcceptAllNoneCovered and AcceptAllCovers state what the test achieves |
| RegionalExtractor.Admit | src/travel_advisory/main.py:247-253 | one loop step either leaves the list alone or appends exactly the new warning; AcceptAllCovers says when |
| RegionalExtractor.AcceptAll | src/travel_advisory/main.py:225-253 | the loop only appends: the list it started from is a prefix of the result |
| RegionalExtractor.AcceptAllCovers | src/travel_advisory/main.py:247-253 | every survivor ends up covered, ignoring case, by some returned name: it was admitted, or an accepted name already contained it |
| RegionalExtractor.AcceptScan | src/travel_advisory/main.py:225-253 | the filter-and-append loop over one scan's candidates computes the specification fold |
| RegionalExtractor.ScanWarnings | src/travel_advisory/main.py:220-287 | the two passes, each run only below its level; the ScanWarnings lemmas state their properties |
| RegionalExtractor.RegionalWarningsOf | src/travel_advisory/main.py:200-289 | cleaning followed by the two passes; RegionalWarningsSound, RegionalWarningsAbove and RegionalWarningsCover state its properties |
| RegionalExtractor.ExtractRegionalWarnings | src/travel_advisory/main.py:200-289 | the method returns what the specification function `RegionalWarningsOf` gives for the same summary and level |
| RegionalExtractor.SurvivorsSound | src/travel_advisory/main.py:225-245 | every candidate that survives a sound filter has a valid name and comes from a candidate of the scan |
| RegionalExtractor.SurvivorsComplete | src/travel_advisory/main.py:225-245 | every candidate whose region passes the filter is among the survivors |
| RegionalExtractor.AcceptAllAdmitted | src/travel_advisory/main.py:248-253 | every appended warning carries the loop's level and is one of the survivors |
| RegionalExtractor.AcceptAllNoneCovered | src/travel_advisory/main.py:247-253 | the containment test keeps the invariant that no name occurs in an earlier name |
| RegionalExtractor.ScanWarningsLevels | src/travel_advisory/main.py:220-287 | level 4 only when the country is below 4, level 3 only when it is below 3, and level-4 warnings come first |
| RegionalExtractor.ScanWarningsFrom | src/travel_advisory/main.py:220-287 | each warning is a level-4 survivor of the first scan or a level-3 survivor of the second |
| RegionalExtractor.ScanWarningsDistinct | src/travel_advisory/main.py:247-253 | across both passes, no name occurs (ignoring case) inside an earlier one |
| RegionalExtractor.ScanWarningsCover | src/travel_advisory/main.py:220-287 | below level 4 every "do not travel" candidate that passes the filters, and below level 3 every "reconsider" one, is covered ignoring case by a returned name |
| RegionalExtractor.RegionalWarningsSound | src/travel_advisory/main.py:200-289 | warnings are above the country's level, level 4 first, valid names from the matching scan, none contained in an earlier one |
| RegionalExtractor.RegionalWarningsAbove | src/travel_advisory/main.py:200-289 | every warning's level is strictly above the overall level, so a country at level 4 gets none |
| RegionalExtractor.RegionalWarningsCover | src/travel_advisory/main.py:200-289 | every match of the cleaned summary whose region passes the filters (do-not-travel below level 4, reconsider below level 3) is covered, ignoring case, by an extracted warning |
| AdvisoryParser.LastUpdatedSources | src/travel_advisory/main.py:321-328 | "Published" counts only when "Updated" is missing; an aware time always comes from the record's own text; a text that does not parse gives the naive clock reading |
| AdvisoryParser.ParseAdvisory | src/travel_advisory/main.py:292-344 | one record to an advisory or nothing; ParseAdvisorySound and ParsedElevation state its properties |
| AdvisoryParser.ParseAdvisorySound | src/travel_advisory/main.py:292-341 | dropped exactly when the title has no level and the name is not prohibited; a kept record has the title's name and level, the first category as code, the link or id, the cleaned summary, the update time `LastUpdatedOf` gives, and the regional warnings of its summary, each above its level |
| AdvisoryParser.ParsedElevation | src/travel_advisory/main.py:331-341 | for a parsed advisory, a regional elevation is exactly a non-empty warning list |
| Deduplicator.KeyOf | src/travel_advisory/main.py:376 | the identity key; DeduplicateDistinct, DeduplicateCovers and DeduplicateKeepsNewest are stated per key |
| Deduplicator.Step | src/travel_advisory/main.py:377-394 | one loop pass whose comparison can be evaluated; ScanBest, ScanOrder, ScanCount and ScanDrops state what the passes keep |
| Deduplicator.CheckedStep | src/travel_advisory/main.py:377-394 | one loop pass, or the TypeError when the stored advisory of the key and the new one are not Comparable; CheckedScanSpec states when it fails |
| Deduplicator.Scan | src/travel_advisory/main.py:375-394 | the loop as a fold; ScanWellFormed, ScanKeys, ScanBest, ScanOrder, ScanCount and ScanDrops state its properties |
| Deduplicator.CheckedScan | src/travel_advisory/main.py:375-394 | the loop stopping at the first TypeError; CheckedScanSpec proves it fails exactly when one key mixes naive and aware timestamps and otherwise ends in Scan's state |
| Deduplicator.Deduplicate | src/travel_advisory/main.py:372-396 | the returned lists when no comparison raises; the Deduplicate lemmas state their properties |
| Deduplicator.ScanWellFormed | src/travel_advisory/main.py:372-394 | the insertion order lists each kept key once and every kept advisory has its own key |
| Deduplicator.ValuesInOrder | src/travel_advisory/main.py:396 | `seen.values()` position by position in key insertion order |
| Deduplicator.CheckedScanSpec | src/travel_advisory/main.py:372-394 | the loop raises `TypeError` exactly when two advisories of one key mix a naive and an aware timestamp; otherwise it ends in the state of `Scan` |
| Deduplicator.DeduplicateOrFail | src/travel_advisory/main.py:361-396 | no result exactly when two advisories of one key mix naive and aware timestamps; otherwise the lists of `Deduplicate` |
| Deduplicator.DeduplicateAdvisories | src/travel_advisory/main.py:361-396 | the method returns what the specification function `DeduplicateOrFail` gives, including the `TypeError` case |
| Deduplicator.ScanKeys | src/travel_advisory/main.py:375-394 | the keys held are exactly the keys occurring in the input |
| Deduplicator.ScanBest | src/travel_advisory/main.py:377-386 | each held advisory is the first of the most recently updated ones with its key |
| Deduplicator.ScanOrder | src/travel_advisory/main.py:393-394 | keys are held in the order of their first occurrence |
| Deduplicator.ScanCount | src/travel_advisory/main.py:375-394 | each pass adds either a key or a duplicates line |
| Deduplicator.ScanDrops | src/travel_advisory/main.py:377-392 | held advisories come from the input; each duplicates line pairs same-key input advisories, the dropped one no newer |
| Deduplicator.DeduplicateValues | src/travel_advisory/main.py:396 | the output is the held advisory of each key in insertion order |
| Deduplicator.DeduplicateDistinct | src/travel_advisory/main.py:372-396 | no two output advisories share an identity key |
| Deduplicator.DeduplicateCount | src/travel_advisory/main.py:372-396 | output length plus number of duplicates lines equals input length |
| Deduplicator.DeduplicateCovers | src/travel_advisory/main.py:372-396 | every input key is the key of some output advisory |
| Deduplicator.DeduplicateKeepsNewest | src/travel_advisory/main.py:377-386 | the advisory kept for a key has the latest instant of that key, and on ties it is the earliest seen |
| Deduplicator.DeduplicateFirstSeenOrder | src/travel_advisory/main.py:393-396 | output follows the first-occurrence order of keys |
| Deduplicator.DeduplicateDrops | src/travel_advisory/main.py:377-392 | every duplicates line is a valid pairing of input advisories |
| Deduplicator.ScanOfDistinct | src/travel_advisory/main.py:393-394 | with distinct keys, every advisory is inserted under its own key in order and nothing is dropped |
| Deduplicator.DeduplicateDistinctUnchanged | src/travel_advisory/main.py:372-396 | a list with distinct keys comes back unchanged, with no duplicates |
| Deduplicator.DeduplicateIdempotent | src/travel_advisory/main.py:372-396 | deduplicating the output again changes nothing and drops nothing |
| Sorting.NameLe | src/travel_advisory/main.py:435 | compares by the key `country_name`; NameLeTotalPreorder states it is a total preorder |
| Sorting.RiskLe | src/travel_advisory/main.py:438 | compares by the tuple key `(-overall, -max_regional, name)`; RiskLeTotalPreorder states it is a total preorder |
| Sorting.CodeOrNameLe | src/travel_advisory/main.py:861 | compares by the key `country_code or country_name`; CodeOrNameLeTotalPreorder states it is a total preorder |
| Sorting.NameLeTotalPreorder | src/travel_advisory/main.py:435 | the name key is total and transitive |
| Sorting.RiskLeTotalPreorder | src/travel_advisory/main.py:438 | the `(-overall, -max_regional, name)` tuple key is total and transitive |
| Sorting.CodeOrNameLeTotalPreorder | src/travel_advisory/main.py:861 | the code-or-name key is total and transitive |
| Sorting.Insert | src/travel_advisory/main.py:434-438 | insertion adds exactly the element, as a multiset |
| Sorting.SortBy | src/travel_advisory/main.py:434-438 | sorting is a permutation of its input |
| Sorting.InsertSorted | src/travel_advisory/main.py:434-438 | inserting into a sorted list keeps it sorted |
| Sorting.SortBySorted | src/travel_advisory/main.py:434-438 | for a total preorder, the output is sorted |
| Sorting.SortByStable | src/travel_advisory/main.py:434-438 | the sort is stable: the elements with any one key come out in the order they went in |
| Sorting.SortedUnique | src/travel_advisory/main.py:861 | two sorted arrangements of the same elements are equal when different elements never compare equal |
| Sorting.SortByPermutation | src/travel_advisory/main.py:861 | the sorted result does not depend on the input order when different elements never compare equal |
| Classifier.IsHighRisk | src/travel_advisory/main.py:425-432 | level 3 or above, or an elevated region at level 3 or above; FilterHighRiskMembers and FilterHighRiskComplete state where it routes |
| Classifier.Partition | src/travel_advisory/main.py:419-432 | the routing loop as a fold; PartitionRoutes states where each advisory goes |
| Classifier.FilterHighRisk | src/travel_advisory/main.py:399-440 | what `filter_high_risk` returns; the FilterHighRisk lemmas state its contents and orders |
| Classifier.FilterHighRiskLists | src/travel_advisory/main.py:399-440 | the loop and the two sorts compute the specification function `FilterHighRisk` |
| Classifier.PartitionRoutes | src/travel_advisory/main.py:419-432 | each advisory goes to the prohibited list if prohibited, else to high-risk if high-risk, as often as it occurs, and nowhere else |
| Classifier.RoutesDisjoint | src/travel_advisory/main.py:419-432 | the routed lists share no advisory and together are a sub-multiset of the input |
| Classifier.RoutesMembers | src/travel_advisory/main.py:419-432 | routed entries satisfy the test of their list |
| Classifier.RoutesComplete | src/travel_advisory/main.py:419-432 | no input advisory that belongs to a list is missing from it |
| Classifier.FilterHighRiskSound | src/travel_advisory/main.py:399-440 | the lists hold exactly the prohibited, and the non-prohibited high-risk, input advisories with their multiplicities; prohibited sorted by name, high-risk by risk key |
| Classifier.FilterHighRiskDisjoint | src/travel_advisory/main.py:416-440 | the two outputs are disjoint and together form a sub-multiset of the input |
| Classifier.FilterHighRiskMembers | src/travel_advisory/main.py:419-432 | every prohibited entry satisfies the predicate; no high-risk entry does, and each is at level 3 or above or has an elevated region at level 3 or above |
| Classifier.FilterHighRiskComplete | src/travel_advisory/main.py:419-432 | every prohibited input is in the prohibited list, every non-prohibited high-risk input in the high-risk list |
| Verification.DigitChar | src/travel_advisory/main.py:862 | the digit character of a value 0..9 reads back as that value |
| Verification.NatString | src/travel_advisory/main.py:862 | `str(n)` for `n >= 0` is a non-empty string of digits without a leading zero |
| Verification.NatStringValue | src/travel_advisory/main.py:862 | the decimal digits read back as the number |
| Verification.NegativeDecimal | src/travel_advisory/main.py:862 | a negative level prints as '-' followed by the digits of its absolute value |
| Verification.DecimalStringInjective | src/travel_advisory/main.py:862 | different levels print differently |
| Verification.DecimalStringHasNoBar | src/travel_advisory/main.py:862 | a printed level holds no '|' |
| Verification.Record | src/travel_advisory/main.py:862 | the record `code|name|level|isoformat`; RecordInjective states what it determines |
| Verification.RecordInjective | src/travel_advisory/main.py:862 | a record determines code, name, level and timestamp text when code and name hold no '\|' |
| Verification.HashInput | src/travel_advisory/main.py:858-865 | the text fed to the hasher; HashInputSorted and HashInputPermutation state what it is |
| Verification.HashInputPermutation | src/travel_advisory/main.py:858-865 | with distinct code-or-name keys, the hashed text, and so the fingerprint, does not depend on the input order |
| Verification.HashInputSorted | src/travel_advisory/main.py:861-863 | the hasher is fed the records of a rearrangement of the input sorted by code, else name |
| Verification.NamedIn | src/travel_advisory/main.py:871 | `name.lower() in a.country_name.lower()`; FirstNamedSpec and AuditSound state the search over it |
| Verification.FirstNamed | src/travel_advisory/main.py:870-873 | the `next(...)` search; FirstNamedSpec states what it finds |
| Verification.FirstNamedSpec | src/travel_advisory/main.py:870-873 | `next(...)` finds the earliest advisory whose name contains the expected name ignoring case, and finds none only when no advisory's name does |
| Verification.Audit | src/travel_advisory/main.py:867-877 | the audit loop as a fold; AuditSound and AuditCount state its result |
| Verification.AuditSound | src/travel_advisory/main.py:867-877 | a name is matched exactly when some advisory's name contains it, mapped to the first such name; unmatched exactly when none does |
| Verification.AuditCount | src/travel_advisory/main.py:867-877 | with distinct expected names, matched plus unmatched number exactly the expected names |
| Verification.Names | src/travel_advisory/main.py:882 | the names appended to `high_risk_names`; NamesMembers and BreakdownPartition state its contents |
| Verification.NamesAtLevel | src/travel_advisory/main.py:883-886 | the names appended to the level-4 or level-3 list; NamesAtLevelMembers states its contents |
| Verification.OtherNames | src/travel_advisory/main.py:887-888 | the names appended to the regional list; OtherNamesMembers states its contents |
| Verification.BreakdownSnoc | src/travel_advisory/main.py:881-888 | one more advisory adds its name to the list of all names and to exactly the one breakdown list its level selects |
| Verification.BreakdownPartition | src/travel_advisory/main.py:879-888 | the level-4, level-3 and regional lists together hold every high-risk name exactly once |
| Verification.NamesAtLevelMembers | src/travel_advisory/main.py:883-886 | a name is in the level list exactly when an advisory at that level has it |
| Verification.OtherNamesMembers | src/travel_advisory/main.py:887-888 | a name is in the regional list exactly when an advisory at neither level 3 nor 4 has it |
| Verification.NamesMembers | src/travel_advisory/main.py:882 | every name recorded belongs to some high-risk advisory |
| Verification.LeakErrors | src/travel_advisory/main.py:894-899 | the LEAK loop; LeakErrorsSpec and LeakErrorsMembers state its result |
| Verification.LeakErrorsMembers | src/travel_advisory/main.py:894-899 | every LEAK error names a prohibited high-risk entry, and every such entry has one |
| Verification.LeakErrorsSpec | src/travel_advisory/main.py:894-899 | there is no LEAK error exactly when no high-risk entry is prohibited; errors and entries correspond both ways |
| Verification.NonEmptyCodes | src/travel_advisory/main.py:915 | the `codes` comprehension; NonEmptyCodesMembers and NonEmptyCodesDistinct state its contents |
| Verification.NonEmptyCodesMembers | src/travel_advisory/main.py:915 | a code is listed exactly when some entry has it and it is non-empty |
| Verification.DuplicateScan | src/travel_advisory/main.py:916-920 | the duplicate-code loop as a fold; DuplicateScanCount, DuplicateScanMembers and DuplicateScanEmpty state its result |
| Verification.CodeSetSnoc | src/travel_advisory/main.py:920 | adding a code to the seen set adds exactly that code |
| Verification.DuplicateScanCount | src/travel_advisory/main.py:916-920 | the loop has seen exactly the listed codes, records one DUPLICATE per repeated occurrence, and nothing else |
| Verification.DuplicateScanMembers | src/travel_advisory/main.py:916-920 | a DUPLICATE error names a code exactly when the code occurs more than once |
| Verification.DuplicateScanEmpty | src/travel_advisory/main.py:913-920 | no DUPLICATE error exactly when the non-empty codes are distinct |
| Verification.NonEmptyCodesDistinct | src/travel_advisory/main.py:915 | entries that never share a non-empty code give distinct non-empty codes |
| Verification.ParseRateExceeded | src/travel_advisory/main.py:902-904 | `raw > 0` and `failures / raw >= 0.05`, as integers; ViolationsParse states the PARSE error is recorded exactly then |
| Verification.Violations | src/travel_advisory/main.py:890-922 | the assertion errors in check order; ViolationsEmpty, ViolationsSanity and ViolationsParse state when each is recorded |
| Verification.ViolationsEmpty | src/travel_advisory/main.py:890-922 | the assertions pass exactly when no leak, the failure rate is below 5%, some country is high-risk and codes are distinct |
| Verification.ViolationsSanity | src/travel_advisory/main.py:910-912 | the SANITY error is recorded exactly when the high-risk list is empty |
| Verification.ViolationsParse | src/travel_advisory/main.py:901-908 | the PARSE error is recorded exactly when `raw > 0` and failures reach one twentieth of the raw count (5 of 100 fails) |
| Verification.VerificationReport.constructor | src/travel_advisory/main.py:841-856 | every count is zero, every list and map empty, the hash empty |
| Verification.VerificationReport.ComputeDataHash | src/travel_advisory/main.py:858-865 | the stored and returned hash is the digest of the sorted records, each with the `isoformat` text of its naive or aware timestamp; only `dataHash` changes |
| Verification.VerificationReport.PopulateProhibitedAudit | src/travel_advisory/main.py:867-877 | the matched map and unmatched list are extended by the audit fold over the six expected countries; nothing else changes |
| Verification.VerificationReport.PopulateHighRiskBreakdown | src/travel_advisory/main.py:879-888 | each of the four name lists is extended by exactly its share of the high-risk names, in order |
| Verification.VerificationReport.RunAssertions | src/travel_advisory/main.py:890-922 | the error list is reset to every violation in check order, and the result is true exactly when there is none |
| Pipeline.Classified | src/travel_advisory/main.py:1046-1054 | deduplication then classification, or nothing when deduplication raises; PipelineAssertions states what the assertions make of it |
| Pipeline.DistinctKeysOnce | src/travel_advisory/main.py:372-396 | a list with distinct keys holds each advisory at most once |
| Pipeline.SubDistinctKeys | src/travel_advisory/main.py:1046-1054 | any sub-multiset of a list with distinct keys has distinct keys |
| Pipeline.CodesFromKeys | src/travel_advisory/main.py:376 | distinct identity keys mean no two entries share a non-empty code |
| Pipeline.PipelineAssertions | src/travel_advisory/main.py:1046-1075 | the pipeline stops at deduplication exactly when one key mixes naive and aware timestamps; otherwise there is never a LEAK or DUPLICATE error, and the assertions fail exactly when the failure rate reaches 5% or no country is high-risk |
| Text.IsDigit | src/travel_advisory/main.py:178 | the Unicode decimal digits `\d` matches; AsciiDigit and DigitNotSpace relate them to ASCII digits and whitespace |
| Text.DigitValue | src/travel_advisory/main.py:180 | the value `int()` gives a decimal digit is in 0..9 |
| Text.AsciiDigit | src/travel_advisory/main.py:178-180 | the ASCII digits are decimal digits with their usual values |
| Text.DigitNotSpace | src/travel_advisory/main.py:178 | no decimal digit is whitespace, so the `\s*` before `(\d)` never takes the digit |
| Text.Trim | src/travel_advisory/main.py:353 | `strip()` returns a slice of its input with only whitespace outside it and no whitespace at either of its own ends |
| Text.TrimOfTrimmed | src/travel_advisory/main.py:180 | a string without surrounding whitespace is its own `strip()` |
| Text.ContainsAt | src/travel_advisory/main.py:358 | the search decides Python's `in` on strings |
| Text.StrLeTotal | src/travel_advisory/main.py:435 | Python's string order is total |
| Text.StrLeTrans | src/travel_advisory/main.py:435 | Python's string order is transitive |
| Text.StrLeAntisym | src/travel_advisory/main.py:435 | Python's string order is antisymmetric |

The two passes of `extract_regional_warnings` run the same code at main.py:221-253 and main.py:257-287. Rows about one pass cite the first; `AcceptScan` and the filter functions serve both.

## Left out

- Fetching the advisories (`fetch_advisories`): this is network I/O and JSON decoding. The model starts from records already decoded into `RawAdvisory`.
- The PDF report (`TravelAdvisoryPDF`, `create_report`), `VerificationReport.write`, the console output and argument handling of `main`, and logging: these are rendering, file I/O and printing.
- The parse loop of `main` (main.py:1034-1042), which counts failures: it is not modelled as code. Its counts `raw_count` and `parse_failures` are fields of the report, and `RunAssertions` reads them.
- `html.unescape`, the SHA-256 digest (`hashlib`), `datetime.isoformat`, the `'Z'` replacement with `datetime.fromisoformat`, and `datetime.now()`:
  - each is a parameter of the function that uses it;
  - its entity table, hash function or calendar is not modelled.
- Timestamps are the `Timestamp` datatype: a wall-clock reading and, for an aware value, its UTC offset. `fromisoformat` may give either kind, and `datetime.now()` gives a naive one.
  - `>` compares UTC instants for two aware values and wall readings for two naive ones.
  - A mixed comparison raises `TypeError`, and nothing in `main` catches it. `DeduplicateOrFail` and `Classified` return no result in that case.
  - `isoformat` is a parameter that sees the offset, so equal instants with different offsets may print differently.
  - The calendar itself (dates, days per month, leap years) is not modelled.
- Python's Unicode case mapping: `lower()` and `upper()` are modelled on ASCII letters. Non-ASCII letters are left unchanged, whereas Python would map some of them.
  - `strip()` and `\s` use Python's full `str.isspace` set.
  - `\d` and `int()` use the decimal digits (general category Nd) of Unicode 15.0, as in Python 3.12.
  - Under `re.IGNORECASE`, the `i` of `<li[^>]*>` (main.py:192) also matches 'İ' and 'ı', and the model includes this. The other letters in the case-insensitive patterns have no partner outside ASCII.
- `record.encode()` in the fingerprint: the model hashes the text, not its UTF-8 bytes.
- Exceptions in `parse_advisory`: a JSON value of the wrong type (a title that is not a string, a `Category` that is not a list) would raise and be caught. The model's record types rule such values out.
- Verification.ViolationsParse: the float test `failures / raw >= 0.05` is stated as the integer comparison `100 * failures >= 5 * raw`. This is exact for counts of realistic size. The rounding of binary floating point is not modelled.
- Assertion and duplicate messages: the model records which check failed and with which code, name or counts (the `AssertionError` and `Drop` datatypes), not the message text.
- `prohibited_matched` is a map. The insertion order of its keys, which only affects how `write` lists them, is not modelled.
- Python's `list.sort` (Timsort) is modelled by a stable insertion sort. Both are stable sorts by the same key, so they give the same list. The lemmas state sortedness, permutation and stability (`SortByStable`).
- The optional statistics of `create_report` are not modelled.

On equal timestamps the first-seen entry stays: the stored entry is replaced only when the incoming one is strictly newer (`>` at main.py:380). `Deduplicator.Step` and `Deduplicator.DeduplicateKeepsNewest` state this.
