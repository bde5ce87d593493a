/** `filter_high_risk` (main.py:399-440): prohibited countries are split off
    first, the remaining level-3/4 countries and countries with an elevated
    region at level 3 or above form the high-risk list, and both lists are sorted. */
module Classifier {
  import opened Text
  import opened Advisory
  import opened Prohibited
  import opened Sorting

  /** The two high-risk tests of the loop, after the prohibited test has failed. */
  predicate IsHighRisk(a: TravelAdvisory)
  {
    a.overallLevel >= 3 || (HasRegionalElevation(a) && MaxRegionalLevel(a) >= 3)
  }

  /** The loop over the advisories before sorting, as a left fold; `isProhibited`
      is the prohibited-country test. */
  function Partition(isProhibited: string -> bool, advs: seq<TravelAdvisory>)
    : (seq<TravelAdvisory>, seq<TravelAdvisory>)
  {
    if advs == [] then ([], [])
    else
      var (p, h) := Partition(isProhibited, advs[..|advs| - 1]);
      var a := advs[|advs| - 1];
      if isProhibited(a.countryName) then (p + [a], h)
      else if IsHighRisk(a) then (p, h + [a])
      else (p, h)
  }

  /** What `filter_high_risk` returns: the prohibited list sorted by name and the
      high-risk list sorted by descending overall level, descending maximum regional
      level, then name. */
  function FilterHighRisk(advs: seq<TravelAdvisory>): (seq<TravelAdvisory>, seq<TravelAdvisory>)
  {
    var (p, h) := Partition(IsProhibitedCountry, advs);
    (SortBy(NameLe, p), SortBy(RiskLe, h))
  }

  /** `filter_high_risk`: the routing loop, then the two in-place sorts. */
  method FilterHighRiskLists(advisories: seq<TravelAdvisory>)
    returns (prohibited: seq<TravelAdvisory>, highRisk: seq<TravelAdvisory>)
    ensures (prohibited, highRisk) == FilterHighRisk(advisories)
  {
    prohibited := [];
    highRisk := [];
    for i := 0 to |advisories|
      invariant (prohibited, highRisk) == Partition(IsProhibitedCountry, advisories[..i])
    {
      var advisory := advisories[i];
      TakeSnoc(advisories, i);
      if IsProhibitedCountry(advisory.countryName) {
        prohibited := prohibited + [advisory];
        continue;
      }
      if advisory.overallLevel >= 3 {
        highRisk := highRisk + [advisory];
        continue;
      }
      if HasRegionalElevation(advisory) && MaxRegionalLevel(advisory) >= 3 {
        highRisk := highRisk + [advisory];
      }
    }
    assert advisories[..|advisories|] == advisories;
    prohibited := SortBy(NameLe, prohibited);
    highRisk := SortBy(RiskLe, highRisk);
  }

  /** `p` holds each advisory exactly as often as `advs` does when its name passes
      `isProhibited`, and never otherwise; `h` holds each advisory exactly as often as
      `advs` does when its name does not pass and it is high-risk, and never otherwise. */
  ghost predicate Routes(isProhibited: string -> bool, advs: seq<TravelAdvisory>,
                         p: seq<TravelAdvisory>, h: seq<TravelAdvisory>)
  {
    (forall x :: multiset(p)[x] == (if isProhibited(x.countryName) then multiset(advs)[x] else 0)) &&
    (forall x :: multiset(h)[x] ==
                 (if !isProhibited(x.countryName) && IsHighRisk(x) then multiset(advs)[x] else 0))
  }

  /** The routing loop sends every advisory to the list it belongs to, as often as it occurs. */
  lemma {:induction false} PartitionRoutes(isProhibited: string -> bool, advs: seq<TravelAdvisory>)
    ensures Routes(isProhibited, advs, Partition(isProhibited, advs).0, Partition(isProhibited, advs).1)
  {
    if advs != [] {
      var init := advs[..|advs| - 1];
      var a := advs[|advs| - 1];
      assert advs == init + [a];
      assert multiset(advs) == multiset(init) + multiset{a};
      PartitionRoutes(isProhibited, init);
    }
  }

  /** Routed lists share no advisory, and together they are part of the input. */
  lemma RoutesDisjoint(isProhibited: string -> bool, advs: seq<TravelAdvisory>,
                       p: seq<TravelAdvisory>, h: seq<TravelAdvisory>)
    requires Routes(isProhibited, advs, p, h)
    ensures forall x :: !(x in p && x in h)
    ensures multiset(p) + multiset(h) <= multiset(advs)
  {
    forall x
      ensures !(x in p && x in h)
    {
      if x in p {
        assert multiset(p)[x] > 0;
      }
    }
    forall x
      ensures (multiset(p) + multiset(h))[x] <= multiset(advs)[x]
    {
    }
  }

  /** Every entry of `p` passes `isProhibited`; every entry of `h` does not and is high-risk. */
  lemma RoutesMembers(isProhibited: string -> bool, advs: seq<TravelAdvisory>,
                      p: seq<TravelAdvisory>, h: seq<TravelAdvisory>)
    requires Routes(isProhibited, advs, p, h)
    ensures forall i :: 0 <= i < |p| ==> isProhibited(p[i].countryName)
    ensures forall i :: 0 <= i < |h| ==> !isProhibited(h[i].countryName) && IsHighRisk(h[i])
  {
    forall i | 0 <= i < |p|
      ensures isProhibited(p[i].countryName)
    {
      assert multiset(p)[p[i]] > 0;
    }
    forall i | 0 <= i < |h|
      ensures !isProhibited(h[i].countryName) && IsHighRisk(h[i])
    {
      assert multiset(h)[h[i]] > 0;
    }
  }

  /** No input advisory that belongs to a list is missing from it. */
  lemma RoutesComplete(isProhibited: string -> bool, advs: seq<TravelAdvisory>,
                       p: seq<TravelAdvisory>, h: seq<TravelAdvisory>)
    requires Routes(isProhibited, advs, p, h)
    ensures forall i :: 0 <= i < |advs| && isProhibited(advs[i].countryName) ==> advs[i] in p
    ensures forall i :: 0 <= i < |advs| && !isProhibited(advs[i].countryName) && IsHighRisk(advs[i]) ==>
      advs[i] in h
  {
    forall i | 0 <= i < |advs|
      ensures isProhibited(advs[i].countryName) ==> advs[i] in p
      ensures !isProhibited(advs[i].countryName) && IsHighRisk(advs[i]) ==> advs[i] in h
    {
      assert multiset(advs)[advs[i]] > 0;
    }
  }

  /** The prohibited list holds exactly the input's prohibited advisories, the
      high-risk list exactly its non-prohibited high-risk ones, each as often as in
      the input; the prohibited list is sorted by name and the high-risk list by risk. */
  lemma FilterHighRiskSound(advs: seq<TravelAdvisory>)
    ensures Routes(IsProhibitedCountry, advs, FilterHighRisk(advs).0, FilterHighRisk(advs).1)
    ensures Sorted(NameLe, FilterHighRisk(advs).0)
    ensures Sorted(RiskLe, FilterHighRisk(advs).1)
  {
    var (p, h) := Partition(IsProhibitedCountry, advs);
    PartitionRoutes(IsProhibitedCountry, advs);
    NameLeTotalPreorder();
    RiskLeTotalPreorder();
    SortBySorted(NameLe, p);
    SortBySorted(RiskLe, h);
  }

  /** No advisory is in both lists, and together they are part of the input. */
  lemma FilterHighRiskDisjoint(advs: seq<TravelAdvisory>)
    ensures forall x :: !(x in FilterHighRisk(advs).0 && x in FilterHighRisk(advs).1)
    ensures multiset(FilterHighRisk(advs).0) + multiset(FilterHighRisk(advs).1) <= multiset(advs)
  {
    FilterHighRiskSound(advs);
    RoutesDisjoint(IsProhibitedCountry, advs, FilterHighRisk(advs).0, FilterHighRisk(advs).1);
  }

  /** Every prohibited-list entry has a prohibited name; every high-risk entry has a
      name that is not prohibited and is at level 3 or above or has a region elevated
      to level 3 or above. */
  lemma FilterHighRiskMembers(advs: seq<TravelAdvisory>)
    ensures forall i :: 0 <= i < |FilterHighRisk(advs).0| ==>
      IsProhibitedCountry(FilterHighRisk(advs).0[i].countryName)
    ensures forall i :: 0 <= i < |FilterHighRisk(advs).1| ==>
      !IsProhibitedCountry(FilterHighRisk(advs).1[i].countryName) &&
      (FilterHighRisk(advs).1[i].overallLevel >= 3 ||
       (HasRegionalElevation(FilterHighRisk(advs).1[i]) && MaxRegionalLevel(FilterHighRisk(advs).1[i]) >= 3))
  {
    FilterHighRiskSound(advs);
    RoutesMembers(IsProhibitedCountry, advs, FilterHighRisk(advs).0, FilterHighRisk(advs).1);
  }

  /** No input advisory is lost: a prohibited one is in the prohibited list, a
      non-prohibited high-risk one in the high-risk list. */
  lemma FilterHighRiskComplete(advs: seq<TravelAdvisory>)
    ensures forall i :: 0 <= i < |advs| && IsProhibitedCountry(advs[i].countryName) ==>
      advs[i] in FilterHighRisk(advs).0
    ensures forall i :: 0 <= i < |advs| && !IsProhibitedCountry(advs[i].countryName) && IsHighRisk(advs[i]) ==>
      advs[i] in FilterHighRisk(advs).1
  {
    FilterHighRiskSound(advs);
    RoutesComplete(IsProhibitedCountry, advs, FilterHighRisk(advs).0, FilterHighRisk(advs).1);
  }
}
