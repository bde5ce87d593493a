/** `VerificationReport` (main.py:834-922): the audit trail the pipeline
    keeps beside the report, its data fingerprint, the prohibited-country audit,
    the high-risk breakdown and the assertions that stop report generation. */
module Verification {
  import opened Text
  import opened Wrappers
  import opened Advisory
  import opened Prohibited
  import opened Sorting

  /** One failed check of `run_assertions`; the message wording is not modelled. */
  datatype AssertionError =
    | Leak(countryName: string)
    | ParseFailures(failures: int, raw: int)
    | Sanity
    | Duplicate(code: string)

  // The data fingerprint (`compute_data_hash`).

  function DigitChar(d: int): (c: char)
    requires 0 <= d <= 9
    ensures IsDigit(c) && DigitValue(c) == d
  {
    ('0' as int + d) as char
  }

  predicate AllDigits(s: string)
  {
    forall i :: 0 <= i < |s| ==> IsDigit(s[i])
  }

  /** Decimal digits of a natural number, without leading zeros. */
  function NatString(n: nat): (s: string)
    ensures s != [] && AllDigits(s)
    ensures |s| == 1 || s[0] != '0'
    decreases n
  {
    if n < 10 then [DigitChar(n)] else NatString(n / 10) + [DigitChar(n % 10)]
  }

  /** `str(n)` for a Python `int`, as an f-string formats it. */
  function DecimalString(n: int): (s: string)
  {
    if n < 0 then "-" + NatString(-n) else NatString(n)
  }

  /** The value of a string of decimal digits. */
  function DigitsValue(s: string): nat
    requires AllDigits(s)
  {
    if s == [] then 0 else 10 * DigitsValue(s[..|s| - 1]) + DigitValue(s[|s| - 1])
  }

  lemma {:induction false} NatStringValue(n: nat)
    ensures DigitsValue(NatString(n)) == n
  {
    if n >= 10 {
      NatStringValue(n / 10);
      var s := NatString(n);
      assert s[..|s| - 1] == NatString(n / 10);
    }
  }

  /** Formatting an integer loses nothing: different levels print differently. */
  lemma DecimalStringInjective(m: int, n: int)
    requires DecimalString(m) == DecimalString(n)
    ensures m == n
  {
    if m < 0 {
      NegativeDecimal(m);
    }
    if n < 0 {
      NegativeDecimal(n);
    }
    NatStringValue(if m < 0 then -m else m);
    NatStringValue(if n < 0 then -n else n);
  }

  lemma NegativeDecimal(n: int)
    requires n < 0
    ensures DecimalString(n)[0] == '-' && DecimalString(n)[1..] == NatString(-n)
  {
  }

  /** One record of the fingerprint, `code|name|level|timestamp`; `iso` stands for
      `datetime.isoformat`. */
  function Record(a: TravelAdvisory, iso: Timestamp -> string): string
  {
    a.countryCode + "|" + a.countryName + "|" + DecimalString(a.overallLevel) + "|" + iso(a.lastUpdated)
  }

  /** The records of `xs` in order, as the successive `hasher.update` calls feed them. */
  function Records(xs: seq<TravelAdvisory>, iso: Timestamp -> string): string
  {
    if xs == [] then "" else Records(xs[..|xs| - 1], iso) + Record(xs[|xs| - 1], iso)
  }

  /** Everything the hasher is fed: the records in order of code, else name. */
  function HashInput(advs: seq<TravelAdvisory>, iso: Timestamp -> string): string
  {
    Records(SortBy(CodeOrNameLe, advs), iso)
  }

  /** The first '|' of `x + "|" + r` is the one after `x` when `x` holds none. */
  lemma FirstBar(x: string, r: string)
    requires '|' !in x
    ensures (x + "|" + r)[|x|] == '|'
    ensures forall i :: 0 <= i < |x| ==> (x + "|" + r)[i] != '|'
  {
    forall i | 0 <= i < |x|
      ensures (x + "|" + r)[i] != '|'
    {
      assert (x + "|" + r)[i] == x[i];
    }
  }

  /** Two strings without '|' that each lead up to a '|' are the same string, and
      what follows them is too. */
  lemma SplitAtBar(x: string, r: string, y: string, t: string)
    requires '|' !in x && '|' !in y
    requires x + "|" + r == y + "|" + t
    ensures x == y && r == t
  {
    var u := x + "|" + r;
    FirstBar(x, r);
    FirstBar(y, t);
    assert |x| == |y|;
    assert x == u[..|x|] == y;
    assert r == u[|x| + 1..] == t;
  }

  lemma DecimalStringHasNoBar(n: int)
    ensures '|' !in DecimalString(n)
  {
    var s := DecimalString(n);
    if n < 0 {
      assert forall i :: 1 <= i < |s| ==> s[i] == NatString(-n)[i - 1];
    }
  }

  /** Four '|'-joined fields, grouped from the right. */
  lemma JoinFields(w: string, x: string, y: string, z: string)
    ensures w + "|" + x + "|" + y + "|" + z == w + "|" + (x + "|" + (y + "|" + z))
  {
  }

  /** A record determines the code, name, level and timestamp text it was made
      from, when neither code nor name holds a '|'. */
  lemma RecordInjective(a: TravelAdvisory, b: TravelAdvisory, iso: Timestamp -> string)
    requires '|' !in a.countryCode && '|' !in a.countryName
    requires '|' !in b.countryCode && '|' !in b.countryName
    requires Record(a, iso) == Record(b, iso)
    ensures a.countryCode == b.countryCode && a.countryName == b.countryName
    ensures a.overallLevel == b.overallLevel && iso(a.lastUpdated) == iso(b.lastUpdated)
  {
    var la, ta := DecimalString(a.overallLevel), iso(a.lastUpdated);
    var lb, tb := DecimalString(b.overallLevel), iso(b.lastUpdated);
    DecimalStringHasNoBar(a.overallLevel);
    DecimalStringHasNoBar(b.overallLevel);
    JoinFields(a.countryCode, a.countryName, la, ta);
    JoinFields(b.countryCode, b.countryName, lb, tb);
    SplitAtBar(a.countryCode, a.countryName + "|" + (la + "|" + ta),
               b.countryCode, b.countryName + "|" + (lb + "|" + tb));
    SplitAtBar(a.countryName, la + "|" + ta, b.countryName, lb + "|" + tb);
    SplitAtBar(la, ta, lb, tb);
    DecimalStringInjective(a.overallLevel, b.overallLevel);
  }

  /** No two advisories share the sort key `country_code or country_name`. */
  predicate DistinctSortKeys(advs: seq<TravelAdvisory>)
  {
    forall i, j :: 0 <= i < j < |advs| ==> CodeOrName(advs[i]) != CodeOrName(advs[j])
  }

  /** The fingerprint ignores the order of its input when sort keys are distinct:
      any rearrangement of the advisories feeds the hasher the same text. */
  lemma HashInputPermutation(xs: seq<TravelAdvisory>, ys: seq<TravelAdvisory>, iso: Timestamp -> string)
    requires multiset(xs) == multiset(ys) && DistinctSortKeys(xs)
    ensures HashInput(xs, iso) == HashInput(ys, iso)
  {
    CodeOrNameLeTotalPreorder();
    forall i, j | 0 <= i < |xs| && 0 <= j < |xs| && CodeOrNameLe(xs[i], xs[j]) && CodeOrNameLe(xs[j], xs[i])
      ensures xs[i] == xs[j]
    {
      StrLeAntisym(CodeOrName(xs[i]), CodeOrName(xs[j]));
    }
    SortByPermutation(CodeOrNameLe, xs, ys);
  }

  /** The hasher is fed the records of a sorted rearrangement of the input. */
  lemma HashInputSorted(advs: seq<TravelAdvisory>, iso: Timestamp -> string)
    ensures exists ys :: (multiset(ys) == multiset(advs) && Sorted(CodeOrNameLe, ys) &&
                          HashInput(advs, iso) == Records(ys, iso))
  {
    CodeOrNameLeTotalPreorder();
    SortBySorted(CodeOrNameLe, advs);
    var ys := SortBy(CodeOrNameLe, advs);
    assert multiset(ys) == multiset(advs) && Sorted(CodeOrNameLe, ys) && HashInput(advs, iso) == Records(ys, iso);
  }

  // The prohibited-country audit (`populate_prohibited_audit`).

  /** `name.lower() in a.country_name.lower()`. */
  predicate NamedIn(name: string, a: TravelAdvisory)
  {
    ContainsAt(Lower(a.countryName), Lower(name))
  }

  /** `next((a for a in advs if name.lower() in a.country_name.lower()), None)`. */
  function FirstNamed(name: string, advs: seq<TravelAdvisory>): Option<TravelAdvisory>
  {
    if advs == [] then None
    else if NamedIn(name, advs[0]) then Some(advs[0])
    else FirstNamed(name, advs[1..])
  }

  /** The search finds the earliest advisory whose name contains `name`, ignoring
      case, and finds nothing only when no advisory's name does. */
  lemma {:induction false} FirstNamedSpec(name: string, advs: seq<TravelAdvisory>)
    ensures FirstNamed(name, advs).None? <==>
      forall i :: 0 <= i < |advs| ==> !Contains(Lower(advs[i].countryName), Lower(name))
    ensures FirstNamed(name, advs).Some? ==>
      exists k :: (0 <= k < |advs| && advs[k] == FirstNamed(name, advs).value &&
                   Contains(Lower(advs[k].countryName), Lower(name)) &&
                   forall i :: 0 <= i < k ==> !Contains(Lower(advs[i].countryName), Lower(name)))
  {
    if advs != [] {
      FirstNamedSpec(name, advs[1..]);
      if !NamedIn(name, advs[0]) {
        assert forall i :: 1 <= i < |advs| ==> advs[i] == advs[1..][i - 1];
        if FirstNamed(name, advs).Some? {
          var k :| 0 <= k < |advs| - 1 && advs[1..][k] == FirstNamed(name, advs).value &&
            Contains(Lower(advs[1..][k].countryName), Lower(name)) &&
            forall i :: 0 <= i < k ==> !Contains(Lower(advs[1..][i].countryName), Lower(name));
          assert advs[k + 1] == FirstNamed(name, advs).value;
        }
      }
    }
  }

  /** The audit loop over `names`, as a left fold from the given map and list. */
  function Audit(matched: map<string, string>, unmatched: seq<string>, names: seq<string>,
                 advs: seq<TravelAdvisory>): (map<string, string>, seq<string>)
  {
    if names == [] then (matched, unmatched)
    else
      var (m, u) := Audit(matched, unmatched, names[..|names| - 1], advs);
      var name := names[|names| - 1];
      match FirstNamed(name, advs)
      case Some(a) => (m[name := a.countryName], u)
      case None => (m, u + [name])
  }

  /** From an empty audit, a name is matched exactly when some advisory's name holds
      it, and then it maps to the first such advisory's name; it is unmatched exactly
      when none does; every name lands on exactly one side. */
  lemma {:induction false} AuditSound(names: seq<string>, advs: seq<TravelAdvisory>)
    ensures forall n :: n in Audit(map[], [], names, advs).0 <==> n in names && FirstNamed(n, advs).Some?
    ensures forall n :: n in Audit(map[], [], names, advs).0 ==>
      Audit(map[], [], names, advs).0[n] == FirstNamed(n, advs).value.countryName
    ensures forall n :: n in Audit(map[], [], names, advs).1 <==> n in names && FirstNamed(n, advs).None?
  {
    if names != [] {
      AuditSound(names[..|names| - 1], advs);
      assert names == names[..|names| - 1] + [names[|names| - 1]];
    }
  }

  /** With distinct names, the matched and the unmatched names together number
      exactly the names audited. */
  lemma {:induction false} AuditCount(names: seq<string>, advs: seq<TravelAdvisory>)
    requires forall i, j :: 0 <= i < j < |names| ==> names[i] != names[j]
    ensures |Audit(map[], [], names, advs).0| + |Audit(map[], [], names, advs).1| == |names|
  {
    if names != [] {
      var init := names[..|names| - 1];
      var name := names[|names| - 1];
      AuditCount(init, advs);
      AuditSound(init, advs);
      assert name !in init;
    }
  }

  // The high-risk breakdown (`populate_high_risk_breakdown`).

  /** The names of the advisories, in order. */
  function Names(xs: seq<TravelAdvisory>): seq<string>
  {
    if xs == [] then [] else Names(xs[..|xs| - 1]) + [xs[|xs| - 1].countryName]
  }

  /** The names of the advisories at `level`, in order. */
  function NamesAtLevel(xs: seq<TravelAdvisory>, level: int): seq<string>
  {
    if xs == [] then []
    else
      NamesAtLevel(xs[..|xs| - 1], level) +
        (if xs[|xs| - 1].overallLevel == level then [xs[|xs| - 1].countryName] else [])
  }

  /** The names of the advisories at neither level 3 nor level 4, in order. */
  function OtherNames(xs: seq<TravelAdvisory>): seq<string>
  {
    if xs == [] then []
    else
      OtherNames(xs[..|xs| - 1]) +
        (if xs[|xs| - 1].overallLevel != 4 && xs[|xs| - 1].overallLevel != 3 then [xs[|xs| - 1].countryName] else [])
  }

  /** One more advisory adds its name to the list of all names and to the one
      breakdown list its level selects. */
  lemma BreakdownSnoc(xs: seq<TravelAdvisory>, i: int)
    requires 0 <= i < |xs|
    ensures Names(xs[..i + 1]) == Names(xs[..i]) + [xs[i].countryName]
    ensures xs[i].overallLevel == 4 ==>
      NamesAtLevel(xs[..i + 1], 4) == NamesAtLevel(xs[..i], 4) + [xs[i].countryName] &&
      NamesAtLevel(xs[..i + 1], 3) == NamesAtLevel(xs[..i], 3) &&
      OtherNames(xs[..i + 1]) == OtherNames(xs[..i])
    ensures xs[i].overallLevel == 3 ==>
      NamesAtLevel(xs[..i + 1], 4) == NamesAtLevel(xs[..i], 4) &&
      NamesAtLevel(xs[..i + 1], 3) == NamesAtLevel(xs[..i], 3) + [xs[i].countryName] &&
      OtherNames(xs[..i + 1]) == OtherNames(xs[..i])
    ensures xs[i].overallLevel != 4 && xs[i].overallLevel != 3 ==>
      NamesAtLevel(xs[..i + 1], 4) == NamesAtLevel(xs[..i], 4) &&
      NamesAtLevel(xs[..i + 1], 3) == NamesAtLevel(xs[..i], 3) &&
      OtherNames(xs[..i + 1]) == OtherNames(xs[..i]) + [xs[i].countryName]
  {
    TakeSnoc(xs, i);
  }

  /** The breakdown splits the high-risk names: the three lists together hold every
      name exactly as often as the list of all names does. */
  lemma {:induction false} BreakdownPartition(xs: seq<TravelAdvisory>)
    ensures multiset(NamesAtLevel(xs, 4)) + multiset(NamesAtLevel(xs, 3)) + multiset(OtherNames(xs)) ==
      multiset(Names(xs))
  {
    if xs != [] {
      var init := xs[..|xs| - 1];
      BreakdownPartition(init);
    }
  }

  /** A name is in the level-`level` list exactly when an advisory at that level has it. */
  lemma {:induction false} NamesAtLevelMembers(xs: seq<TravelAdvisory>, level: int)
    ensures forall n :: n in NamesAtLevel(xs, level) <==>
      exists i :: 0 <= i < |xs| && xs[i].overallLevel == level && xs[i].countryName == n
  {
    if xs != [] {
      var init := xs[..|xs| - 1];
      NamesAtLevelMembers(init, level);
      assert forall i :: 0 <= i < |init| ==> init[i] == xs[i];
    }
  }

  /** A name is in the regional list exactly when an advisory at neither level 3 nor
      level 4 has it. */
  lemma {:induction false} OtherNamesMembers(xs: seq<TravelAdvisory>)
    ensures forall n :: n in OtherNames(xs) <==>
      exists i :: 0 <= i < |xs| && xs[i].overallLevel != 4 && xs[i].overallLevel != 3 && xs[i].countryName == n
  {
    if xs != [] {
      var init := xs[..|xs| - 1];
      OtherNamesMembers(init);
      assert forall i :: 0 <= i < |init| ==> init[i] == xs[i];
    }
  }

  // The assertions (`run_assertions`).

  /** One LEAK error per entry whose name `isProhibited` accepts, in order. */
  function LeakErrors(isProhibited: string -> bool, xs: seq<TravelAdvisory>): seq<AssertionError>
  {
    if xs == [] then []
    else
      LeakErrors(isProhibited, xs[..|xs| - 1]) +
        (if isProhibited(xs[|xs| - 1].countryName) then [Leak(xs[|xs| - 1].countryName)] else [])
  }

  /** The failure-rate check `failures / raw >= 0.05`, restated on integers. */
  predicate ParseRateExceeded(raw: int, failures: int)
  {
    raw > 0 && 100 * failures >= 5 * raw
  }

  /** The non-empty codes of `xs`, in order. */
  function NonEmptyCodes(xs: seq<TravelAdvisory>): seq<string>
  {
    if xs == [] then []
    else
      NonEmptyCodes(xs[..|xs| - 1]) +
        (if xs[|xs| - 1].countryCode != [] then [xs[|xs| - 1].countryCode] else [])
  }

  /** The duplicate loop over `codes`: the errors so far and the codes seen. */
  function DuplicateScan(codes: seq<string>): (seq<AssertionError>, set<string>)
  {
    if codes == [] then ([], {})
    else
      var (errors, seen) := DuplicateScan(codes[..|codes| - 1]);
      var code := codes[|codes| - 1];
      (if code in seen then errors + [Duplicate(code)] else errors, seen + {code})
  }

  /** Every error `run_assertions` records, in the order it records them. */
  function Violations(isProhibited: string -> bool, raw: int, failures: int,
                      prohibited: seq<TravelAdvisory>, highRisk: seq<TravelAdvisory>): seq<AssertionError>
  {
    LeakErrors(isProhibited, highRisk) +
    (if ParseRateExceeded(raw, failures) then [ParseFailures(failures, raw)] else []) +
    (if highRisk == [] then [Sanity] else []) +
    DuplicateScan(NonEmptyCodes(prohibited + highRisk)).0
  }

  /** Every leak error names a prohibited entry, and every prohibited entry has one. */
  lemma {:induction false} LeakErrorsMembers(isProhibited: string -> bool, xs: seq<TravelAdvisory>)
    ensures forall e :: e in LeakErrors(isProhibited, xs) ==>
      e.Leak? && isProhibited(e.countryName) && e.countryName in Names(xs)
    ensures forall i :: 0 <= i < |xs| && isProhibited(xs[i].countryName) ==>
      Leak(xs[i].countryName) in LeakErrors(isProhibited, xs)
  {
    if xs != [] {
      var init := xs[..|xs| - 1];
      var a := xs[|xs| - 1];
      LeakErrorsMembers(isProhibited, init);
      assert forall i :: 0 <= i < |init| ==> init[i] == xs[i];
      assert LeakErrors(isProhibited, xs) ==
        LeakErrors(isProhibited, init) + (if isProhibited(a.countryName) then [Leak(a.countryName)] else []);
      assert Names(xs) == Names(init) + [a.countryName];
    }
  }

  /** Every name in the list of names belongs to some advisory. */
  lemma {:induction false} NamesMembers(xs: seq<TravelAdvisory>)
    ensures forall n :: n in Names(xs) ==> exists i :: 0 <= i < |xs| && xs[i].countryName == n
  {
    if xs != [] {
      var init := xs[..|xs| - 1];
      NamesMembers(init);
      assert forall i :: 0 <= i < |init| ==> init[i] == xs[i];
    }
  }

  /** There are no leak errors exactly when no entry is prohibited; every leak error
      names a prohibited entry, and every prohibited entry has one. */
  lemma LeakErrorsSpec(isProhibited: string -> bool, xs: seq<TravelAdvisory>)
    ensures LeakErrors(isProhibited, xs) == [] <==>
      forall i :: 0 <= i < |xs| ==> !isProhibited(xs[i].countryName)
    ensures forall e :: e in LeakErrors(isProhibited, xs) ==>
      e.Leak? && isProhibited(e.countryName) && exists i :: 0 <= i < |xs| && xs[i].countryName == e.countryName
    ensures forall i :: 0 <= i < |xs| && isProhibited(xs[i].countryName) ==>
      Leak(xs[i].countryName) in LeakErrors(isProhibited, xs)
  {
    LeakErrorsMembers(isProhibited, xs);
    NamesMembers(xs);
    var errors := LeakErrors(isProhibited, xs);
    if errors != [] {
      assert errors[0] in errors;
    }
  }

  /** A code is among the non-empty codes exactly when some entry has it and it is
      not empty. */
  lemma {:induction false} NonEmptyCodesMembers(xs: seq<TravelAdvisory>)
    ensures forall c :: c in NonEmptyCodes(xs) <==>
      c != [] && exists i :: 0 <= i < |xs| && xs[i].countryCode == c
  {
    if xs != [] {
      var init := xs[..|xs| - 1];
      NonEmptyCodesMembers(init);
      assert forall i :: 0 <= i < |init| ==> init[i] == xs[i];
    }
  }

  predicate DistinctCodes(codes: seq<string>)
  {
    forall i, j :: 0 <= i < j < |codes| ==> codes[i] != codes[j]
  }

  /** `code` occurs twice in `codes`, at `i` before `j`. */
  predicate RepeatedAt(codes: seq<string>, code: string, i: int, j: int)
  {
    0 <= i < j < |codes| && codes[i] == code && codes[j] == code
  }

  /** The set of codes in `codes`. */
  function CodeSet(codes: seq<string>): set<string>
  {
    set i | 0 <= i < |codes| :: codes[i]
  }

  lemma CodeSetSnoc(codes: seq<string>, code: string)
    ensures CodeSet(codes + [code]) == CodeSet(codes) + {code}
  {
    var s := codes + [code];
    forall c | c in CodeSet(s)
      ensures c in CodeSet(codes) + {code}
    {
      var i :| 0 <= i < |s| && s[i] == c;
      if i < |codes| {
        assert codes[i] == c;
      }
    }
    forall c | c in CodeSet(codes)
      ensures c in CodeSet(s)
    {
      var i :| 0 <= i < |codes| && codes[i] == c;
      assert s[i] == c;
    }
    assert s[|codes|] == code;
  }

  /** The duplicate loop has seen exactly the codes of the list, and records one
      error per occurrence of a code already seen, each a DUPLICATE error. */
  lemma {:induction false} DuplicateScanCount(codes: seq<string>)
    ensures DuplicateScan(codes).1 == CodeSet(codes)
    ensures |DuplicateScan(codes).0| + |DuplicateScan(codes).1| == |codes|
    ensures forall e :: e in DuplicateScan(codes).0 ==> e.Duplicate?
  {
    if codes != [] {
      var init := codes[..|codes| - 1];
      var code := codes[|codes| - 1];
      DuplicateScanCount(init);
      assert codes == init + [code];
      CodeSetSnoc(init, code);
      var (errors, seen) := DuplicateScan(init);
      if code in seen {
        assert seen + {code} == seen;
        assert |DuplicateScan(codes).0| == |errors| + 1;
      } else {
        assert |seen + {code}| == |seen| + 1;
        assert |DuplicateScan(codes).0| == |errors|;
      }
    }
  }

  /** `code` occurs more than once in `codes`. */
  ghost predicate Repeated(codes: seq<string>, code: string)
  {
    exists i, j :: RepeatedAt(codes, code, i, j)
  }

  lemma RepeatedSnoc(init: seq<string>, code: string, c: string)
    ensures Repeated(init + [code], c) <==> Repeated(init, c) || (c == code && code in CodeSet(init))
  {
    var codes := init + [code];
    if Repeated(codes, c) {
      var i, j :| RepeatedAt(codes, c, i, j);
      if j < |init| {
        assert RepeatedAt(init, c, i, j);
      } else {
        assert init[i] == c;
      }
    }
    if c == code && code in CodeSet(init) {
      var i :| 0 <= i < |init| && init[i] == code;
      assert RepeatedAt(codes, c, i, |init|);
    }
    if Repeated(init, c) {
      var i, j :| RepeatedAt(init, c, i, j);
      assert RepeatedAt(codes, c, i, j);
    }
  }

  /** A DUPLICATE error names a code exactly when the code occurs more than once. */
  lemma {:induction false} DuplicateScanMembers(codes: seq<string>)
    ensures forall c :: Duplicate(c) in DuplicateScan(codes).0 <==> Repeated(codes, c)
  {
    if codes != [] {
      var init := codes[..|codes| - 1];
      var code := codes[|codes| - 1];
      DuplicateScanMembers(init);
      DuplicateScanCount(init);
      assert codes == init + [code];
      forall c
        ensures Repeated(codes, c) <==> Repeated(init, c) || (c == code && code in CodeSet(init))
      {
        RepeatedSnoc(init, code, c);
      }
    }
  }

  /** When no two entries share a non-empty code, the non-empty codes are distinct. */
  lemma {:induction false} NonEmptyCodesDistinct(xs: seq<TravelAdvisory>)
    requires forall p, q :: 0 <= p < q < |xs| && xs[p].countryCode != [] ==> xs[p].countryCode != xs[q].countryCode
    ensures DistinctCodes(NonEmptyCodes(xs))
  {
    if xs != [] {
      var init := xs[..|xs| - 1];
      var a := xs[|xs| - 1];
      assert forall p :: 0 <= p < |init| ==> init[p] == xs[p];
      NonEmptyCodesDistinct(init);
      NonEmptyCodesMembers(init);
      if a.countryCode != [] {
        assert a.countryCode !in NonEmptyCodes(init);
      }
    }
  }

  /** The duplicate loop records nothing exactly when the codes are distinct. */
  lemma DuplicateScanEmpty(codes: seq<string>)
    ensures DuplicateScan(codes).0 == [] <==> DistinctCodes(codes)
  {
    DuplicateScanMembers(codes);
    DuplicateScanCount(codes);
    if DuplicateScan(codes).0 != [] {
      var e := DuplicateScan(codes).0[0];
      assert e in DuplicateScan(codes).0 && e == Duplicate(e.code);
      assert Repeated(codes, e.code);
      var i, j :| RepeatedAt(codes, e.code, i, j);
    }
    if !DistinctCodes(codes) {
      var i, j :| 0 <= i < j < |codes| && codes[i] == codes[j];
      assert RepeatedAt(codes, codes[i], i, j);
      assert Repeated(codes, codes[i]);
      assert Duplicate(codes[i]) in DuplicateScan(codes).0;
    }
  }

  /** `run_assertions` passes exactly when no high-risk entry is prohibited, the
      failure rate is under 5%, some country is high-risk, and no non-empty code
      appears twice across the two lists. */
  lemma ViolationsEmpty(raw: int, failures: int, prohibited: seq<TravelAdvisory>, highRisk: seq<TravelAdvisory>)
    ensures Violations(IsProhibitedCountry, raw, failures, prohibited, highRisk) == [] <==>
      (forall i :: 0 <= i < |highRisk| ==> !IsProhibitedCountry(highRisk[i].countryName)) &&
      !ParseRateExceeded(raw, failures) &&
      highRisk != [] &&
      DistinctCodes(NonEmptyCodes(prohibited + highRisk))
  {
    LeakErrorsSpec(IsProhibitedCountry, highRisk);
    DuplicateScanEmpty(NonEmptyCodes(prohibited + highRisk));
  }

  /** The SANITY error is recorded exactly when the high-risk list is empty. */
  lemma ViolationsSanity(isProhibited: string -> bool, raw: int, failures: int,
                         prohibited: seq<TravelAdvisory>, highRisk: seq<TravelAdvisory>)
    ensures Sanity in Violations(isProhibited, raw, failures, prohibited, highRisk) <==> highRisk == []
  {
    var leaks := LeakErrors(isProhibited, highRisk);
    var dups := DuplicateScan(NonEmptyCodes(prohibited + highRisk)).0;
    LeakErrorsSpec(isProhibited, highRisk);
    DuplicateScanCount(NonEmptyCodes(prohibited + highRisk));
    assert Sanity !in leaks && Sanity !in dups;
  }

  /** The PARSE error is recorded exactly when failures reach 5% of the raw records,
      so exactly 5 failures in 100 records already count. */
  lemma ViolationsParse(isProhibited: string -> bool, raw: int, failures: int,
                        prohibited: seq<TravelAdvisory>, highRisk: seq<TravelAdvisory>)
    ensures ParseFailures(failures, raw) in Violations(isProhibited, raw, failures, prohibited, highRisk) <==>
      raw > 0 && 20 * failures >= raw
  {
    var leaks := LeakErrors(isProhibited, highRisk);
    var dups := DuplicateScan(NonEmptyCodes(prohibited + highRisk)).0;
    LeakErrorsSpec(isProhibited, highRisk);
    DuplicateScanCount(NonEmptyCodes(prohibited + highRisk));
    assert ParseFailures(failures, raw) !in leaks && ParseFailures(failures, raw) !in dups;
  }

  class VerificationReport {
    var rawCount: int
    var parsedCount: int
    var parseFailures: int
    var failedTitles: seq<string>
    var duplicatesRemoved: int
    var duplicateDescriptions: seq<string>
    var afterDedupCount: int
    var prohibitedMatched: map<string, string>
    var prohibitedUnmatched: seq<string>
    var level4Countries: seq<string>
    var level3Countries: seq<string>
    var regionalCountries: seq<string>
    var highRiskNames: seq<string>
    var dataHash: string
    var assertionErrors: seq<AssertionError>

    /** Every count zero, every list and map empty, no hash yet. */
    constructor()
      ensures rawCount == 0 && parsedCount == 0 && parseFailures == 0 && failedTitles == []
      ensures duplicatesRemoved == 0 && duplicateDescriptions == [] && afterDedupCount == 0
      ensures prohibitedMatched == map[] && prohibitedUnmatched == []
      ensures level4Countries == [] && level3Countries == [] && regionalCountries == [] && highRiskNames == []
      ensures dataHash == "" && assertionErrors == []
    {
      rawCount := 0;
      parsedCount := 0;
      parseFailures := 0;
      failedTitles := [];
      duplicatesRemoved := 0;
      duplicateDescriptions := [];
      afterDedupCount := 0;
      prohibitedMatched := map[];
      prohibitedUnmatched := [];
      level4Countries := [];
      level3Countries := [];
      regionalCountries := [];
      highRiskNames := [];
      dataHash := "";
      assertionErrors := [];
    }

    /** `compute_data_hash`: feeds the records in key order to the hasher and keeps
        the digest; `digest` stands for SHA-256 over the text, `iso` for `isoformat`. */
    method ComputeDataHash(advisories: seq<TravelAdvisory>, digest: string -> string, iso: Timestamp -> string)
      returns (h: string)
      modifies this`dataHash
      ensures h == digest(HashInput(advisories, iso)) && dataHash == h
    {
      var sorted := SortBy(CodeOrNameLe, advisories);
      var message := "";
      for i := 0 to |sorted|
        invariant message == Records(sorted[..i], iso)
      {
        var adv := sorted[i];
        var record := adv.countryCode + "|" + adv.countryName + "|" + DecimalString(adv.overallLevel) +
          "|" + iso(adv.lastUpdated);
        TakeSnoc(sorted, i);
        message := message + record;
      }
      assert sorted[..|sorted|] == sorted;
      dataHash := digest(message);
      h := dataHash;
    }

    /** `populate_prohibited_audit`: for each of the six expected countries, records
        the first prohibited advisory naming it, or lists the country as unmatched. */
    method PopulateProhibitedAudit(prohibitedAdvisories: seq<TravelAdvisory>)
      modifies this`prohibitedMatched, this`prohibitedUnmatched
      ensures (prohibitedMatched, prohibitedUnmatched) ==
        Audit(old(prohibitedMatched), old(prohibitedUnmatched), ProhibitedCountries, prohibitedAdvisories)
    {
      for i := 0 to |ProhibitedCountries|
        invariant (prohibitedMatched, prohibitedUnmatched) ==
          Audit(old(prohibitedMatched), old(prohibitedUnmatched), ProhibitedCountries[..i], prohibitedAdvisories)
      {
        var name := ProhibitedCountries[i];
        TakeSnoc(ProhibitedCountries, i);
        var found := FirstNamed(name, prohibitedAdvisories);
        if found.Some? {
          prohibitedMatched := prohibitedMatched[name := found.value.countryName];
        } else {
          prohibitedUnmatched := prohibitedUnmatched + [name];
        }
      }
      assert ProhibitedCountries[..|ProhibitedCountries|] == ProhibitedCountries;
    }

    /** `populate_high_risk_breakdown`: appends every high-risk name, and sorts it
        into the level-4, level-3 or regional list. */
    method PopulateHighRiskBreakdown(highRisk: seq<TravelAdvisory>)
      modifies this`highRiskNames, this`level4Countries, this`level3Countries, this`regionalCountries
      ensures highRiskNames == old(highRiskNames) + Names(highRisk)
      ensures level4Countries == old(level4Countries) + NamesAtLevel(highRisk, 4)
      ensures level3Countries == old(level3Countries) + NamesAtLevel(highRisk, 3)
      ensures regionalCountries == old(regionalCountries) + OtherNames(highRisk)
    {
      ghost var all0, four0, three0, other0 := highRiskNames, level4Countries, level3Countries, regionalCountries;
      for i := 0 to |highRisk|
        invariant highRiskNames == all0 + Names(highRisk[..i])
        invariant level4Countries == four0 + NamesAtLevel(highRisk[..i], 4)
        invariant level3Countries == three0 + NamesAtLevel(highRisk[..i], 3)
        invariant regionalCountries == other0 + OtherNames(highRisk[..i])
      {
        var adv := highRisk[i];
        ghost var done := highRisk[..i];
        BreakdownSnoc(highRisk, i);
        AppendAssoc(all0, Names(done), [adv.countryName]);
        highRiskNames := highRiskNames + [adv.countryName];
        if adv.overallLevel == 4 {
          AppendAssoc(four0, NamesAtLevel(done, 4), [adv.countryName]);
          level4Countries := level4Countries + [adv.countryName];
        } else if adv.overallLevel == 3 {
          AppendAssoc(three0, NamesAtLevel(done, 3), [adv.countryName]);
          level3Countries := level3Countries + [adv.countryName];
        } else {
          AppendAssoc(other0, OtherNames(done), [adv.countryName]);
          regionalCountries := regionalCountries + [adv.countryName];
        }
      }
      assert highRisk[..|highRisk|] == highRisk;
    }

    /** `run_assertions`: records every violation, and passes when there is none. */
    method RunAssertions(prohibited: seq<TravelAdvisory>, highRisk: seq<TravelAdvisory>) returns (ok: bool)
      modifies this`assertionErrors
      ensures assertionErrors == Violations(IsProhibitedCountry, rawCount, parseFailures, prohibited, highRisk)
      ensures ok <==> assertionErrors == []
    {
      assertionErrors := [];

      for i := 0 to |highRisk|
        invariant assertionErrors == LeakErrors(IsProhibitedCountry, highRisk[..i])
      {
        var adv := highRisk[i];
        TakeSnoc(highRisk, i);
        if IsProhibitedCountry(adv.countryName) {
          assertionErrors := assertionErrors + [Leak(adv.countryName)];
        }
      }
      assert highRisk[..|highRisk|] == highRisk;
      ghost var leaks := assertionErrors;

      if rawCount > 0 {
        if 100 * parseFailures >= 5 * rawCount {
          assertionErrors := assertionErrors + [ParseFailures(parseFailures, rawCount)];
        }
      }

      if |highRisk| == 0 {
        assertionErrors := assertionErrors + [Sanity];
      }
      ghost var checked := assertionErrors;

      var codes := NonEmptyCodes(prohibited + highRisk);
      var seenCodes: set<string> := {};
      for i := 0 to |codes|
        invariant assertionErrors == checked + DuplicateScan(codes[..i]).0
        invariant seenCodes == DuplicateScan(codes[..i]).1
      {
        var code := codes[i];
        TakeSnoc(codes, i);
        if code in seenCodes {
          AppendAssoc(checked, DuplicateScan(codes[..i]).0, [Duplicate(code)]);
          assertionErrors := assertionErrors + [Duplicate(code)];
        }
        seenCodes := seenCodes + {code};
      }
      assert codes[..|codes|] == codes;

      ok := |assertionErrors| == 0;
    }
  }
}
