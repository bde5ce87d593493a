/** `deduplicate_advisories` (main.py:361-396): one advisory per identity key,
    the most recently updated one kept, in the order the keys were first seen. */
module Deduplicator {
  import opened Text
  import opened Advisory
  import opened Prohibited
  import opened Wrappers

  /** The identity key: the code in upper case when there is one, otherwise the name
      in lower case and stripped. */
  function KeyOf(a: TravelAdvisory): string
  {
    if a.countryCode != [] then Upper(a.countryCode) else NormalizedName(a.countryName)
  }

  /** One line of the duplicates list: which advisory was dropped in favour of which
      (the line's text, with names, codes and dates, is not modelled). */
  datatype Drop = Drop(dropped: TravelAdvisory, favoured: TravelAdvisory)

  /** The loop's state: the keys of `seen` in insertion order, `seen` itself, and the
      duplicates list. */
  datatype Seen = Seen(order: seq<string>, kept: map<string, TravelAdvisory>, drops: seq<Drop>)

  /** `order` lists the keys of `kept` once each, and each kept advisory has its key. */
  predicate WellFormed(key: TravelAdvisory -> string, st: Seen)
  {
    (forall i, j :: 0 <= i < j < |st.order| ==> st.order[i] != st.order[j]) &&
    (forall i :: 0 <= i < |st.order| ==> st.order[i] in st.kept) &&
    (forall k :: k in st.kept ==> k in st.order) &&
    (forall k :: k in st.kept ==> key(st.kept[k]) == k)
  }

  /** One pass of the loop body when its comparison can be evaluated. The stored
      entry is replaced only by a strictly newer one, so on equal instants the entry
      seen first stays. */
  function Step(key: TravelAdvisory -> string, st: Seen, a: TravelAdvisory): Seen
  {
    var k := key(a);
    if k in st.kept then
      var existing := st.kept[k];
      if Instant(a.lastUpdated) > Instant(existing.lastUpdated) then
        Seen(st.order, st.kept[k := a], st.drops + [Drop(existing, a)])
      else
        Seen(st.order, st.kept, st.drops + [Drop(a, existing)])
    else
      Seen(st.order + [k], st.kept[k := a], st.drops)
  }

  /** One pass of the loop body, or None for the TypeError `>` raises when the
      advisory meets a stored one of its key and one timestamp is naive, the other
      aware. */
  function CheckedStep(key: TravelAdvisory -> string, st: Seen, a: TravelAdvisory): Option<Seen>
  {
    if key(a) in st.kept && !Comparable(a.lastUpdated, st.kept[key(a)].lastUpdated) then None
    else Some(Step(key, st, a))
  }

  /** The loop over `advs`, stopping at the first TypeError. */
  function CheckedScan(key: TravelAdvisory -> string, advs: seq<TravelAdvisory>): Option<Seen>
  {
    if advs == [] then Some(Seen([], map[], []))
    else
      match CheckedScan(key, advs[..|advs| - 1])
      case None => None
      case Some(st) => CheckedStep(key, st, advs[|advs| - 1])
  }

  /** The loop over `advs`, as a left fold. */
  function Scan(key: TravelAdvisory -> string, advs: seq<TravelAdvisory>): Seen
  {
    if advs == [] then Seen([], map[], [])
    else Step(key, Scan(key, advs[..|advs| - 1]), advs[|advs| - 1])
  }

  /** The scan keeps its state well formed. */
  lemma {:induction false} ScanWellFormed(key: TravelAdvisory -> string, advs: seq<TravelAdvisory>)
    ensures WellFormed(key, Scan(key, advs))
  {
    if advs != [] {
      var prev := Scan(key, advs[..|advs| - 1]);
      var a := advs[|advs| - 1];
      ScanWellFormed(key, advs[..|advs| - 1]);
      assert key(a) !in prev.kept ==> key(a) !in prev.order;
    }
  }

  /** `list(seen.values())`: the kept advisories in insertion order of their keys. */
  function ValuesInOrder(order: seq<string>, kept: map<string, TravelAdvisory>): (vs: seq<TravelAdvisory>)
    requires forall i :: 0 <= i < |order| ==> order[i] in kept
    ensures |vs| == |order|
    ensures forall i :: 0 <= i < |order| ==> vs[i] == kept[order[i]]
  {
    if order == [] then [] else [kept[order[0]]] + ValuesInOrder(order[1..], kept)
  }

  /** The lists the loop ends with when none of its comparisons raises. */
  function Deduplicate(key: TravelAdvisory -> string, advs: seq<TravelAdvisory>): (seq<TravelAdvisory>, seq<Drop>)
  {
    ScanWellFormed(key, advs);
    var st := Scan(key, advs);
    (ValuesInOrder(st.order, st.kept), st.drops)
  }

  /** Every two advisories with the same key carry both naive or both aware
      timestamps. */
  predicate ClocksAgree(key: TravelAdvisory -> string, xs: seq<TravelAdvisory>)
  {
    forall i, j :: 0 <= i < |xs| && 0 <= j < |xs| && key(xs[i]) == key(xs[j]) ==>
      Comparable(xs[i].lastUpdated, xs[j].lastUpdated)
  }

  /** The loop raises exactly when two advisories of one key mix a naive and an aware
      timestamp (the stored entry always has the kind of the first advisory of its
      key, so the first one of the other kind meets it); otherwise it ends in the
      state of `Scan`. */
  lemma {:induction false} CheckedScanSpec(key: TravelAdvisory -> string, advs: seq<TravelAdvisory>)
    ensures CheckedScan(key, advs) == if ClocksAgree(key, advs) then Some(Scan(key, advs)) else None
  {
    if advs != [] {
      var init := advs[..|advs| - 1];
      var a := advs[|advs| - 1];
      assert advs == init + [a];
      CheckedScanSpec(key, init);
      if !ClocksAgree(key, init) {
        PrefixDisagrees(key, advs, |init|);
      } else {
        StepAgrees(key, init, a);
      }
    }
  }

  /** A prefix whose clocks disagree makes the whole list disagree. */
  lemma PrefixDisagrees(key: TravelAdvisory -> string, xs: seq<TravelAdvisory>, n: nat)
    requires n <= |xs| && !ClocksAgree(key, xs[..n])
    ensures !ClocksAgree(key, xs)
  {
    var i, j :| 0 <= i < n && 0 <= j < n && key(xs[..n][i]) == key(xs[..n][j]) &&
      !Comparable(xs[..n][i].lastUpdated, xs[..n][j].lastUpdated);
    assert key(xs[i]) == key(xs[j]) && !Comparable(xs[i].lastUpdated, xs[j].lastUpdated);
  }

  /** One more pass raises exactly when the new advisory disagrees with its key's
      earlier ones. */
  lemma StepAgrees(key: TravelAdvisory -> string, init: seq<TravelAdvisory>, a: TravelAdvisory)
    requires ClocksAgree(key, init)
    ensures CheckedStep(key, Scan(key, init), a) ==
      if ClocksAgree(key, init + [a]) then Some(Step(key, Scan(key, init), a)) else None
  {
    var prev := Scan(key, init);
    var n := |init|;
    var advs := init + [a];
    ScanKeys(key, init);
    ScanDrops(key, init);
    ScanWellFormed(key, init);
    var k := key(a);
    if k in prev.kept {
      var p :| 0 <= p < n && init[p] == prev.kept[k];
      if !Comparable(a.lastUpdated, prev.kept[k].lastUpdated) {
        assert advs[p] == init[p] && advs[n] == a;
        assert key(advs[p]) == key(advs[n]) && !Comparable(advs[n].lastUpdated, advs[p].lastUpdated);
      } else {
        SnocAgrees(key, init, a, p);
      }
    } else {
      assert !KeyOccurs(key, init, k);
      SnocAgrees(key, init, a, -1);
    }
  }

  /** Appending `a` keeps the clocks in agreement when `a` agrees with the advisory
      at `p` of its key, or when (`p` = -1) no advisory has its key. */
  lemma SnocAgrees(key: TravelAdvisory -> string, xs: seq<TravelAdvisory>, a: TravelAdvisory, p: int)
    requires ClocksAgree(key, xs)
    requires p == -1 ==> !KeyOccurs(key, xs, key(a))
    requires p != -1 ==> 0 <= p < |xs| && key(xs[p]) == key(a) && Comparable(a.lastUpdated, xs[p].lastUpdated)
    ensures ClocksAgree(key, xs + [a])
  {
    var ys := xs + [a];
    forall i, j | 0 <= i < |ys| && 0 <= j < |ys| && key(ys[i]) == key(ys[j])
      ensures Comparable(ys[i].lastUpdated, ys[j].lastUpdated)
    {
      if i < |xs| && j < |xs| {
        assert ys[i] == xs[i] && ys[j] == xs[j];
      } else if i < |xs| {
        assert ys[i] == xs[i] && key(xs[i]) == key(a);
        assert p != -1;
        assert Comparable(xs[i].lastUpdated, xs[p].lastUpdated);
      } else if j < |xs| {
        assert ys[j] == xs[j] && key(xs[j]) == key(a);
        assert p != -1;
        assert Comparable(xs[j].lastUpdated, xs[p].lastUpdated);
      }
    }
  }

  /** Once a prefix raises, the whole loop raises. */
  lemma CheckedScanStops(key: TravelAdvisory -> string, advs: seq<TravelAdvisory>, n: nat)
    requires n <= |advs| && CheckedScan(key, advs[..n]).None?
    ensures CheckedScan(key, advs).None?
  {
    CheckedScanSpec(key, advs[..n]);
    CheckedScanSpec(key, advs);
    PrefixDisagrees(key, advs, n);
  }

  /** What `deduplicate_advisories` returns, or None for the TypeError it raises. */
  function DeduplicateOrFail(key: TravelAdvisory -> string, advs: seq<TravelAdvisory>): (r: Option<(seq<TravelAdvisory>, seq<Drop>)>)
    ensures r.None? <==> !ClocksAgree(key, advs)
    ensures r.Some? ==> r.value == Deduplicate(key, advs)
  {
    CheckedScanSpec(key, advs);
    match CheckedScan(key, advs)
    case None => None
    case Some(st) =>
      ScanWellFormed(key, advs);
      Some((ValuesInOrder(st.order, st.kept), st.drops))
  }

  /** `deduplicate_advisories`: the loop over a dictionary `seen` that keeps the
      insertion order of its keys; None stands for the TypeError of its `>`. */
  method DeduplicateAdvisories(advisories: seq<TravelAdvisory>)
    returns (r: Option<(seq<TravelAdvisory>, seq<Drop>)>)
    ensures r == DeduplicateOrFail(KeyOf, advisories)
  {
    var order: seq<string> := [];
    var seen: map<string, TravelAdvisory> := map[];
    var duplicates: seq<Drop> := [];
    for i := 0 to |advisories|
      invariant CheckedScan(KeyOf, advisories[..i]) == Some(Seen(order, seen, duplicates))
    {
      var adv := advisories[i];
      assert advisories[..i + 1][..i] == advisories[..i];
      var key := KeyOf(adv);
      if key in seen {
        var existing := seen[key];
        if !Comparable(adv.lastUpdated, existing.lastUpdated) {
          // `>` between a naive and an aware datetime raises TypeError
          CheckedScanStops(KeyOf, advisories, i + 1);
          return None;
        }
        if Instant(adv.lastUpdated) > Instant(existing.lastUpdated) {
          duplicates := duplicates + [Drop(existing, adv)];
          seen := seen[key := adv];
        } else {
          duplicates := duplicates + [Drop(adv, existing)];
        }
      } else {
        seen := seen[key := adv];
        order := order + [key];
      }
    }
    assert advisories[..|advisories|] == advisories;
    CheckedScanSpec(KeyOf, advisories);
    ScanWellFormed(KeyOf, advisories);
    r := Some((ValuesInOrder(order, seen), duplicates));
  }

  // ---------------------------------------------------------------------------
  // What the scan keeps

  /** Some advisory of `xs` has key `k`. */
  predicate KeyOccurs(key: TravelAdvisory -> string, xs: seq<TravelAdvisory>, k: string)
  {
    exists q :: 0 <= q < |xs| && key(xs[q]) == k
  }

  /** `xs[p]` is the first of the most recently updated advisories with key `k`. */
  predicate BestAt(key: TravelAdvisory -> string, xs: seq<TravelAdvisory>, k: string, p: int)
  {
    0 <= p < |xs| && key(xs[p]) == k &&
    (forall q :: 0 <= q < |xs| && key(xs[q]) == k ==> Instant(xs[q].lastUpdated) <= Instant(xs[p].lastUpdated)) &&
    (forall q :: 0 <= q < p && key(xs[q]) == k ==> Instant(xs[q].lastUpdated) < Instant(xs[p].lastUpdated))
  }

  /** `a` is the first of the most recently updated advisories of `xs` with key `k`. */
  predicate IsBestFor(key: TravelAdvisory -> string, xs: seq<TravelAdvisory>, k: string, a: TravelAdvisory)
  {
    exists p :: 0 <= p < |xs| && BestAt(key, xs, k, p) && xs[p] == a
  }

  /** Every occurrence of key `k2` in `xs` comes after an occurrence of `k1`. */
  predicate KeyPrecedes(key: TravelAdvisory -> string, xs: seq<TravelAdvisory>, k1: string, k2: string)
  {
    forall q :: 0 <= q < |xs| && key(xs[q]) == k2 ==>
      exists q' :: 0 <= q' < q && key(xs[q']) == k1
  }

  lemma OccursSnoc(key: TravelAdvisory -> string, xs: seq<TravelAdvisory>, a: TravelAdvisory, k: string)
    ensures KeyOccurs(key, xs + [a], k) <==> KeyOccurs(key, xs, k) || key(a) == k
  {
    var ys := xs + [a];
    if KeyOccurs(key, xs, k) {
      var q :| 0 <= q < |xs| && key(xs[q]) == k;
      assert ys[q] == xs[q];
    }
    if key(a) == k {
      assert ys[|xs|] == a;
    }
    if KeyOccurs(key, ys, k) && key(a) != k {
      var q :| 0 <= q < |ys| && key(ys[q]) == k;
      assert q < |xs| && ys[q] == xs[q];
    }
  }

  lemma BestOther(key: TravelAdvisory -> string, xs: seq<TravelAdvisory>, a: TravelAdvisory, k: string, p: int)
    requires BestAt(key, xs, k, p) && key(a) != k
    ensures BestAt(key, xs + [a], k, p)
  {
    assert forall q :: 0 <= q < |xs| ==> (xs + [a])[q] == xs[q];
  }

  lemma BestNew(key: TravelAdvisory -> string, xs: seq<TravelAdvisory>, a: TravelAdvisory)
    requires !KeyOccurs(key, xs, key(a))
    ensures BestAt(key, xs + [a], key(a), |xs|)
  {
    assert forall q :: 0 <= q < |xs| ==> (xs + [a])[q] == xs[q];
  }

  lemma BestNewer(key: TravelAdvisory -> string, xs: seq<TravelAdvisory>, a: TravelAdvisory, p: int)
    requires BestAt(key, xs, key(a), p) && Instant(a.lastUpdated) > Instant(xs[p].lastUpdated)
    ensures BestAt(key, xs + [a], key(a), |xs|)
  {
    assert forall q :: 0 <= q < |xs| ==> (xs + [a])[q] == xs[q];
  }

  lemma BestOlder(key: TravelAdvisory -> string, xs: seq<TravelAdvisory>, a: TravelAdvisory, p: int)
    requires BestAt(key, xs, key(a), p) && Instant(a.lastUpdated) <= Instant(xs[p].lastUpdated)
    ensures BestAt(key, xs + [a], key(a), p)
  {
    assert forall q :: 0 <= q < |xs| ==> (xs + [a])[q] == xs[q];
  }

  lemma PrecedesSnocOld(key: TravelAdvisory -> string, xs: seq<TravelAdvisory>, a: TravelAdvisory, k1: string, k2: string)
    requires KeyPrecedes(key, xs, k1, k2) && KeyOccurs(key, xs, k1) && KeyOccurs(key, xs, k2)
    ensures KeyPrecedes(key, xs + [a], k1, k2)
  {
    var ys := xs + [a];
    var q1 :| 0 <= q1 < |xs| && key(xs[q1]) == k1;
    forall q | 0 <= q < |ys| && key(ys[q]) == k2
      ensures exists q' :: 0 <= q' < q && key(ys[q']) == k1
    {
      if q < |xs| {
        assert key(xs[q]) == k2;
        var q' :| 0 <= q' < q && key(xs[q']) == k1;
        assert ys[q'] == xs[q'];
      } else {
        assert ys[q1] == xs[q1];
      }
    }
  }

  lemma PrecedesSnocNew(key: TravelAdvisory -> string, xs: seq<TravelAdvisory>, a: TravelAdvisory, k1: string)
    requires KeyOccurs(key, xs, k1) && !KeyOccurs(key, xs, key(a))
    ensures KeyPrecedes(key, xs + [a], k1, key(a))
  {
    var ys := xs + [a];
    var q1 :| 0 <= q1 < |xs| && key(xs[q1]) == k1;
    forall q | 0 <= q < |ys| && key(ys[q]) == key(a)
      ensures exists q' :: 0 <= q' < q && key(ys[q']) == k1
    {
      assert q == |xs|;
      assert ys[q1] == xs[q1];
    }
  }

  /** The keys held are exactly the keys that occur. */
  lemma {:induction false} ScanKeys(key: TravelAdvisory -> string, xs: seq<TravelAdvisory>)
    ensures forall k :: k in Scan(key, xs).kept <==> KeyOccurs(key, xs, k)
  {
    if xs != [] {
      var init := xs[..|xs| - 1];
      var a := xs[|xs| - 1];
      assert xs == init + [a];
      ScanKeys(key, init);
      forall k
        ensures k in Scan(key, xs).kept <==> KeyOccurs(key, xs, k)
      {
        OccursSnoc(key, init, a, k);
      }
    }
  }

  /** Each held advisory is the first of the most recent ones with its key. */
  lemma {:induction false} ScanBest(key: TravelAdvisory -> string, xs: seq<TravelAdvisory>)
    ensures forall k :: k in Scan(key, xs).kept ==> IsBestFor(key, xs, k, Scan(key, xs).kept[k])
  {
    if xs != [] {
      var init := xs[..|xs| - 1];
      var a := xs[|xs| - 1];
      assert xs == init + [a];
      var prev := Scan(key, init);
      var st := Scan(key, xs);
      assert st == Step(key, prev, a);
      ScanBest(key, init);
      ScanKeys(key, init);
      forall k | k in st.kept
        ensures IsBestFor(key, xs, k, st.kept[k])
      {
        if k != key(a) {
          var p :| 0 <= p < |init| && BestAt(key, init, k, p) && init[p] == prev.kept[k];
          BestOther(key, init, a, k, p);
          assert xs[p] == init[p];
        } else if k !in prev.kept {
          BestNew(key, init, a);
          assert xs[|init|] == a;
        } else {
          var p :| 0 <= p < |init| && BestAt(key, init, k, p) && init[p] == prev.kept[k];
          if Instant(a.lastUpdated) > Instant(prev.kept[k].lastUpdated) {
            BestNewer(key, init, a, p);
            assert xs[|init|] == a;
          } else {
            BestOlder(key, init, a, p);
            assert xs[p] == init[p];
          }
        }
      }
    }
  }

  /** The keys are held in the order of their first occurrence. */
  lemma {:induction false} ScanOrder(key: TravelAdvisory -> string, xs: seq<TravelAdvisory>)
    ensures forall i, j :: 0 <= i < j < |Scan(key, xs).order| ==>
      KeyPrecedes(key, xs, Scan(key, xs).order[i], Scan(key, xs).order[j])
  {
    if xs != [] {
      var init := xs[..|xs| - 1];
      var a := xs[|xs| - 1];
      assert xs == init + [a];
      var prev := Scan(key, init);
      var order := Scan(key, xs).order;
      ScanOrder(key, init);
      ScanKeys(key, init);
      ScanWellFormed(key, init);
      forall i, j | 0 <= i < j < |order|
        ensures KeyPrecedes(key, xs, order[i], order[j])
      {
        assert order[i] == prev.order[i] && order[i] in prev.kept;
        if j < |prev.order| {
          assert order[j] == prev.order[j] && order[j] in prev.kept;
          PrecedesSnocOld(key, init, a, order[i], order[j]);
        } else {
          assert order[j] == key(a) && key(a) !in prev.kept;
          PrecedesSnocNew(key, init, a, order[i]);
        }
      }
    }
  }

  /** Each pass either adds a key or adds a line to the duplicates list. */
  lemma {:induction false} ScanCount(key: TravelAdvisory -> string, xs: seq<TravelAdvisory>)
    ensures |Scan(key, xs).order| + |Scan(key, xs).drops| == |xs|
  {
    if xs != [] {
      ScanCount(key, xs[..|xs| - 1]);
    }
  }

  /** Each duplicates line pairs two input advisories with the same key, the dropped
      one no newer than the one it gave way to. */
  predicate DropValid(key: TravelAdvisory -> string, d: Drop, xs: seq<TravelAdvisory>)
  {
    key(d.dropped) == key(d.favoured) &&
    Instant(d.dropped.lastUpdated) <= Instant(d.favoured.lastUpdated) &&
    d.dropped in xs && d.favoured in xs
  }

  lemma {:induction false} ScanDrops(key: TravelAdvisory -> string, xs: seq<TravelAdvisory>)
    ensures forall k :: k in Scan(key, xs).kept ==> Scan(key, xs).kept[k] in xs
    ensures forall i :: 0 <= i < |Scan(key, xs).drops| ==> DropValid(key, Scan(key, xs).drops[i], xs)
  {
    if xs != [] {
      var init := xs[..|xs| - 1];
      var a := xs[|xs| - 1];
      assert xs == init + [a];
      var prev := Scan(key, init);
      var st := Scan(key, xs);
      assert st == Step(key, prev, a);
      ScanDrops(key, init);
      ScanWellFormed(key, init);
      assert forall b :: b in init ==> b in xs;
      assert a in xs;
      forall i | 0 <= i < |st.drops|
        ensures DropValid(key, st.drops[i], xs)
      {
        if i < |prev.drops| {
          assert st.drops[i] == prev.drops[i];
          assert DropValid(key, prev.drops[i], init);
        }
      }
    }
  }

  // ---------------------------------------------------------------------------
  // What `deduplicate_advisories` returns

  /** The returned list, position by position, is the held advisory of each key in
      insertion order. */
  lemma DeduplicateValues(key: TravelAdvisory -> string, advs: seq<TravelAdvisory>)
    ensures WellFormed(key, Scan(key, advs))
    ensures |Deduplicate(key, advs).0| == |Scan(key, advs).order|
    ensures forall i :: 0 <= i < |Scan(key, advs).order| ==>
      Deduplicate(key, advs).0[i] == Scan(key, advs).kept[Scan(key, advs).order[i]] &&
      key(Deduplicate(key, advs).0[i]) == Scan(key, advs).order[i]
  {
    ScanWellFormed(key, advs);
  }

  /** No two returned advisories share a key. */
  lemma DeduplicateDistinct(key: TravelAdvisory -> string, advs: seq<TravelAdvisory>)
    ensures forall i, j :: 0 <= i < j < |Deduplicate(key, advs).0| ==>
      key(Deduplicate(key, advs).0[i]) != key(Deduplicate(key, advs).0[j])
  {
    DeduplicateValues(key, advs);
  }

  /** Every input advisory is returned or listed as a duplicate. */
  lemma DeduplicateCount(key: TravelAdvisory -> string, advs: seq<TravelAdvisory>)
    ensures |Deduplicate(key, advs).0| + |Deduplicate(key, advs).1| == |advs|
  {
    DeduplicateValues(key, advs);
    ScanCount(key, advs);
  }

  /** Every key of the input is the key of some returned advisory. */
  lemma DeduplicateCovers(key: TravelAdvisory -> string, advs: seq<TravelAdvisory>)
    ensures forall q :: 0 <= q < |advs| ==>
      exists i :: 0 <= i < |Deduplicate(key, advs).0| && key(Deduplicate(key, advs).0[i]) == key(advs[q])
  {
    var st := Scan(key, advs);
    var out := Deduplicate(key, advs).0;
    DeduplicateValues(key, advs);
    ScanKeys(key, advs);
    forall q | 0 <= q < |advs|
      ensures exists i :: 0 <= i < |out| && key(out[i]) == key(advs[q])
    {
      var k := key(advs[q]);
      assert KeyOccurs(key, advs, k);
      assert k in st.order;
      var i :| 0 <= i < |st.order| && st.order[i] == k;
      assert key(out[i]) == k;
    }
  }

  /** The advisory returned for a key is the first of the most recently updated input
      advisories with that key. */
  lemma DeduplicateKeepsNewest(key: TravelAdvisory -> string, advs: seq<TravelAdvisory>)
    ensures forall i :: 0 <= i < |Deduplicate(key, advs).0| ==>
      IsBestFor(key, advs, key(Deduplicate(key, advs).0[i]), Deduplicate(key, advs).0[i])
  {
    var st := Scan(key, advs);
    var out := Deduplicate(key, advs).0;
    DeduplicateValues(key, advs);
    ScanBest(key, advs);
    forall i | 0 <= i < |out|
      ensures IsBestFor(key, advs, key(out[i]), out[i])
    {
      assert st.order[i] in st.kept;
      assert IsBestFor(key, advs, st.order[i], st.kept[st.order[i]]);
    }
  }

  /** The advisories come back in the order their keys first occur in the input. */
  lemma DeduplicateFirstSeenOrder(key: TravelAdvisory -> string, advs: seq<TravelAdvisory>)
    ensures forall i, j :: 0 <= i < j < |Deduplicate(key, advs).0| ==>
      KeyPrecedes(key, advs, key(Deduplicate(key, advs).0[i]), key(Deduplicate(key, advs).0[j]))
  {
    DeduplicateValues(key, advs);
    ScanOrder(key, advs);
  }

  /** Every duplicates line is a valid pairing of input advisories. */
  lemma DeduplicateDrops(key: TravelAdvisory -> string, advs: seq<TravelAdvisory>)
    ensures forall i :: 0 <= i < |Deduplicate(key, advs).1| ==> DropValid(key, Deduplicate(key, advs).1[i], advs)
  {
    ScanDrops(key, advs);
  }

  /** A list whose keys are already distinct comes back unchanged with no duplicates. */
  lemma DeduplicateDistinctUnchanged(key: TravelAdvisory -> string, advs: seq<TravelAdvisory>)
    requires forall i, j :: 0 <= i < j < |advs| ==> key(advs[i]) != key(advs[j])
    ensures Deduplicate(key, advs) == (advs, [])
  {
    ScanOfDistinct(key, advs);
    DeduplicateValues(key, advs);
    var out := Deduplicate(key, advs).0;
    assert forall i :: 0 <= i < |advs| ==> out[i] == advs[i];
    assert out == advs;
  }

  lemma {:induction false} ScanOfDistinct(key: TravelAdvisory -> string, advs: seq<TravelAdvisory>)
    requires forall i, j :: 0 <= i < j < |advs| ==> key(advs[i]) != key(advs[j])
    ensures Scan(key, advs).drops == []
    ensures |Scan(key, advs).order| == |advs|
    ensures forall i :: 0 <= i < |advs| ==>
      Scan(key, advs).order[i] == key(advs[i]) && key(advs[i]) in Scan(key, advs).kept &&
      Scan(key, advs).kept[key(advs[i])] == advs[i]
  {
    if advs != [] {
      var init := advs[..|advs| - 1];
      var a := advs[|advs| - 1];
      var n := |init|;
      assert advs == init + [a];
      var prev := Scan(key, init);
      assert forall i :: 0 <= i < n ==> init[i] == advs[i];
      ScanOfDistinct(key, init);
      ScanKeys(key, init);
      assert !KeyOccurs(key, init, key(a)) by {
        forall q | 0 <= q < n
          ensures key(init[q]) != key(a)
        {
          assert key(advs[q]) != key(advs[n]);
        }
      }
      var st := Scan(key, advs);
      assert st == Seen(prev.order + [key(a)], prev.kept[key(a) := a], prev.drops);
      forall i | 0 <= i < |advs|
        ensures st.order[i] == key(advs[i]) && key(advs[i]) in st.kept && st.kept[key(advs[i])] == advs[i]
      {
        if i < n {
          assert advs[i] == init[i];
          assert key(init[i]) != key(a);
        }
      }
    }
  }

  /** Deduplicating twice is deduplicating once. */
  lemma DeduplicateIdempotent(key: TravelAdvisory -> string, advs: seq<TravelAdvisory>)
    ensures Deduplicate(key, Deduplicate(key, advs).0) == (Deduplicate(key, advs).0, [])
  {
    DeduplicateDistinct(key, advs);
    DeduplicateDistinctUnchanged(key, Deduplicate(key, advs).0);
  }
}
