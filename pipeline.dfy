/** How the stages of `main` (main.py:1046-1075) fit together: the parsed
    advisories are deduplicated, split into the prohibited and high-risk lists, and
    those two lists are what `run_assertions` checks. */
module Pipeline {
  import opened Wrappers
  import opened Advisory
  import opened Prohibited
  import opened Deduplicator
  import opened Classifier
  import opened Verification

  /** The two lists `main` hands to the report: the deduplicated advisories, split;
      None when deduplication raises TypeError, which nothing in `main` catches. */
  function Classified(advs: seq<TravelAdvisory>): Option<(seq<TravelAdvisory>, seq<TravelAdvisory>)>
  {
    match DeduplicateOrFail(KeyOf, advs)
    case None => None
    case Some(d) => Some(FilterHighRisk(d.0))
  }

  /** No two entries of `xs` share a key. */
  predicate DistinctKeys(key: TravelAdvisory -> string, xs: seq<TravelAdvisory>)
  {
    forall i, j :: 0 <= i < j < |xs| ==> key(xs[i]) != key(xs[j])
  }

  /** A list with distinct keys holds each advisory at most once. */
  lemma {:induction false} DistinctKeysOnce(key: TravelAdvisory -> string, xs: seq<TravelAdvisory>, x: TravelAdvisory)
    requires DistinctKeys(key, xs)
    ensures multiset(xs)[x] <= 1
  {
    if xs != [] {
      var init := xs[..|xs| - 1];
      var a := xs[|xs| - 1];
      assert xs == init + [a];
      assert DistinctKeys(key, init) by {
        assert forall i :: 0 <= i < |init| ==> init[i] == xs[i];
      }
      DistinctKeysOnce(key, init, x);
      if a == x {
        assert x !in init;
      }
    }
  }

  /** An advisory at two positions of a list occurs there at least twice. */
  lemma TwiceCounted(ys: seq<TravelAdvisory>, i: int, j: int)
    requires 0 <= i < j < |ys| && ys[i] == ys[j]
    ensures multiset(ys)[ys[i]] >= 2
  {
    assert ys == ys[..j] + [ys[j]] + ys[j + 1..];
    assert ys[i] in ys[..j] by {
      assert ys[..j][i] == ys[i];
    }
  }

  /** Part of a list with distinct keys has distinct keys. */
  lemma SubDistinctKeys(key: TravelAdvisory -> string, xs: seq<TravelAdvisory>, ys: seq<TravelAdvisory>)
    requires DistinctKeys(key, xs) && multiset(ys) <= multiset(xs)
    ensures DistinctKeys(key, ys)
  {
    forall i, j | 0 <= i < j < |ys|
      ensures key(ys[i]) != key(ys[j])
    {
      if ys[i] == ys[j] {
        TwiceCounted(ys, i, j);
        DistinctKeysOnce(key, xs, ys[i]);
      } else {
        assert ys[i] in multiset(xs) && ys[j] in multiset(xs);
        var p :| 0 <= p < |xs| && xs[p] == ys[i];
        var q :| 0 <= q < |xs| && xs[q] == ys[j];
        assert p != q;
      }
    }
  }

  /** Advisories with different identity keys never share a non-empty code. */
  lemma CodesFromKeys(xs: seq<TravelAdvisory>)
    requires DistinctKeys(KeyOf, xs)
    ensures forall p, q :: 0 <= p < q < |xs| && xs[p].countryCode != [] ==> xs[p].countryCode != xs[q].countryCode
  {
  }

  /** The run stops at deduplication exactly when two advisories of one key mix a
      naive and an aware timestamp. Otherwise, on the pipeline's own lists,
      `run_assertions` never reports a leaked prohibited country or a repeated code:
      it fails exactly when the parse failure rate reaches 5% or no country is
      high-risk. */
  lemma PipelineAssertions(advs: seq<TravelAdvisory>, raw: int, failures: int)
    ensures Classified(advs).None? <==> !ClocksAgree(KeyOf, advs)
    ensures Classified(advs).Some? ==> LeakErrors(IsProhibitedCountry, Classified(advs).value.1) == []
    ensures Classified(advs).Some? ==>
      DistinctCodes(NonEmptyCodes(Classified(advs).value.0 + Classified(advs).value.1))
    ensures Classified(advs).Some? ==>
      (Violations(IsProhibitedCountry, raw, failures, Classified(advs).value.0, Classified(advs).value.1) == [] <==>
       !ParseRateExceeded(raw, failures) && Classified(advs).value.1 != [])
  {
    if ClocksAgree(KeyOf, advs) {
      var deduped := Deduplicate(KeyOf, advs).0;
      var (p, h) := Classified(advs).value;
      assert (p, h) == FilterHighRisk(deduped);
      FilterHighRiskMembers(deduped);
      LeakErrorsSpec(IsProhibitedCountry, h);
      DeduplicateDistinct(KeyOf, advs);
      FilterHighRiskDisjoint(deduped);
      assert multiset(p + h) <= multiset(deduped);
      SubDistinctKeys(KeyOf, deduped, p + h);
      CodesFromKeys(p + h);
      NonEmptyCodesDistinct(p + h);
      ViolationsEmpty(raw, failures, p, h);
    }
  }
}
