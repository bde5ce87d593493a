/** The three sort keys the pipeline hands to Python's `sort`/`sorted`
    (main.py:435, 438, 861), and a stable insertion sort standing in for the
    library sort. */
module Sorting {
  import opened Text
  import opened Advisory

  /** `a.country_code or a.country_name`: the code unless it is empty. */
  function CodeOrName(a: TravelAdvisory): (k: string)
    ensures a.countryCode != [] ==> k == a.countryCode
    ensures a.countryCode == [] ==> k == a.countryName
  {
    if a.countryCode != [] then a.countryCode else a.countryName
  }

  /** Key `country_name`. */
  predicate NameLe(a: TravelAdvisory, b: TravelAdvisory)
  {
    StrLe(a.countryName, b.countryName)
  }

  /** Key `(-overall_level, -max_regional_level, country_name)`, compared as Python
      compares tuples. */
  predicate RiskLe(a: TravelAdvisory, b: TravelAdvisory)
  {
    -a.overallLevel < -b.overallLevel ||
    (a.overallLevel == b.overallLevel &&
      (-MaxRegionalLevel(a) < -MaxRegionalLevel(b) ||
       (MaxRegionalLevel(a) == MaxRegionalLevel(b) && StrLe(a.countryName, b.countryName))))
  }

  /** Key `country_code or country_name`. */
  predicate CodeOrNameLe(a: TravelAdvisory, b: TravelAdvisory)
  {
    StrLe(CodeOrName(a), CodeOrName(b))
  }

  /** `le` compares keys: every two elements compare, and comparison chains. */
  ghost predicate TotalPreorder(le: (TravelAdvisory, TravelAdvisory) -> bool)
  {
    (forall a, b :: le(a, b) || le(b, a)) &&
    (forall a, b, c :: le(a, b) && le(b, c) ==> le(a, c))
  }

  lemma NameLeTotalPreorder()
    ensures TotalPreorder(NameLe)
  {
    forall a, b
      ensures NameLe(a, b) || NameLe(b, a)
    {
      StrLeTotal(a.countryName, b.countryName);
    }
    forall a, b, c | NameLe(a, b) && NameLe(b, c)
      ensures NameLe(a, c)
    {
      StrLeTrans(a.countryName, b.countryName, c.countryName);
    }
  }

  lemma RiskLeTotalPreorder()
    ensures TotalPreorder(RiskLe)
  {
    forall a, b
      ensures RiskLe(a, b) || RiskLe(b, a)
    {
      StrLeTotal(a.countryName, b.countryName);
    }
    forall a, b, c | RiskLe(a, b) && RiskLe(b, c)
      ensures RiskLe(a, c)
    {
      if a.overallLevel == b.overallLevel == c.overallLevel &&
         MaxRegionalLevel(a) == MaxRegionalLevel(b) == MaxRegionalLevel(c) {
        StrLeTrans(a.countryName, b.countryName, c.countryName);
      }
    }
  }

  lemma CodeOrNameLeTotalPreorder()
    ensures TotalPreorder(CodeOrNameLe)
  {
    forall a, b
      ensures CodeOrNameLe(a, b) || CodeOrNameLe(b, a)
    {
      StrLeTotal(CodeOrName(a), CodeOrName(b));
    }
    forall a, b, c | CodeOrNameLe(a, b) && CodeOrNameLe(b, c)
      ensures CodeOrNameLe(a, c)
    {
      StrLeTrans(CodeOrName(a), CodeOrName(b), CodeOrName(c));
    }
  }

  predicate Sorted(le: (TravelAdvisory, TravelAdvisory) -> bool, xs: seq<TravelAdvisory>)
  {
    forall i, j :: 0 <= i < j < |xs| ==> le(xs[i], xs[j])
  }

  /** `y` compares at most every element of `zs`. */
  predicate Below(le: (TravelAdvisory, TravelAdvisory) -> bool, y: TravelAdvisory, zs: seq<TravelAdvisory>)
  {
    forall j :: 0 <= j < |zs| ==> le(y, zs[j])
  }

  /** Puts `x` after every leading element whose key is at most its own. */
  function Insert(le: (TravelAdvisory, TravelAdvisory) -> bool, x: TravelAdvisory, xs: seq<TravelAdvisory>)
    : (r: seq<TravelAdvisory>)
    ensures multiset(r) == multiset(xs) + multiset{x}
  {
    if xs == [] then [x]
    else if le(xs[0], x) then
      assert xs == [xs[0]] + xs[1..];
      [xs[0]] + Insert(le, x, xs[1..])
    else [x] + xs
  }

  /** The list sorted by `le`, equal keys kept in their original order. */
  function SortBy(le: (TravelAdvisory, TravelAdvisory) -> bool, xs: seq<TravelAdvisory>): (r: seq<TravelAdvisory>)
    ensures multiset(r) == multiset(xs)
  {
    if xs == [] then []
    else
      assert xs == xs[..|xs| - 1] + [xs[|xs| - 1]];
      Insert(le, xs[|xs| - 1], SortBy(le, xs[..|xs| - 1]))
  }

  lemma SortedCons(le: (TravelAdvisory, TravelAdvisory) -> bool, y: TravelAdvisory, zs: seq<TravelAdvisory>)
    requires Below(le, y, zs) && Sorted(le, zs)
    ensures Sorted(le, [y] + zs)
  {
    var r := [y] + zs;
    forall i, j | 0 <= i < j < |r|
      ensures le(r[i], r[j])
    {
      assert r[j] == zs[j - 1];
      if i > 0 {
        assert r[i] == zs[i - 1];
      }
    }
  }

  /** Whatever is below `x` and all of `zs` is below the insertion of `x` into `zs`. */
  lemma {:induction false} InsertBelow(le: (TravelAdvisory, TravelAdvisory) -> bool, y: TravelAdvisory,
                                       x: TravelAdvisory, zs: seq<TravelAdvisory>)
    requires le(y, x) && Below(le, y, zs)
    ensures Below(le, y, Insert(le, x, zs))
  {
    if zs != [] && le(zs[0], x) {
      InsertBelow(le, y, x, zs[1..]);
      var rest := Insert(le, x, zs[1..]);
      assert forall j :: 0 < j <= |rest| ==> ([zs[0]] + rest)[j] == rest[j - 1];
    }
  }

  lemma {:induction false} InsertSorted(le: (TravelAdvisory, TravelAdvisory) -> bool, x: TravelAdvisory,
                                        xs: seq<TravelAdvisory>)
    requires TotalPreorder(le) && Sorted(le, xs)
    ensures Sorted(le, Insert(le, x, xs))
  {
    if xs == [] {
    } else if le(xs[0], x) {
      InsertSorted(le, x, xs[1..]);
      InsertBelow(le, xs[0], x, xs[1..]);
      SortedCons(le, xs[0], Insert(le, x, xs[1..]));
    } else {
      assert le(x, xs[0]);
      assert Below(le, x, xs);
      SortedCons(le, x, xs);
    }
  }

  /** The sort returns a sorted permutation of its input. */
  lemma {:induction false} SortBySorted(le: (TravelAdvisory, TravelAdvisory) -> bool, xs: seq<TravelAdvisory>)
    requires TotalPreorder(le)
    ensures Sorted(le, SortBy(le, xs))
    ensures multiset(SortBy(le, xs)) == multiset(xs)
  {
    if xs != [] {
      SortBySorted(le, xs[..|xs| - 1]);
      InsertSorted(le, xs[|xs| - 1], SortBy(le, xs[..|xs| - 1]));
    }
  }

  /** `le` tells apart any two different elements of `xs`. */
  predicate Separates(le: (TravelAdvisory, TravelAdvisory) -> bool, xs: seq<TravelAdvisory>)
  {
    forall i, j :: 0 <= i < |xs| && 0 <= j < |xs| && le(xs[i], xs[j]) && le(xs[j], xs[i]) ==> xs[i] == xs[j]
  }

  lemma SortedTail(le: (TravelAdvisory, TravelAdvisory) -> bool, xs: seq<TravelAdvisory>)
    requires xs != [] && Sorted(le, xs)
    ensures Sorted(le, xs[1..])
  {
    forall i, j | 0 <= i < j < |xs| - 1
      ensures le(xs[1..][i], xs[1..][j])
    {
      assert xs[1..][i] == xs[i + 1] && xs[1..][j] == xs[j + 1];
    }
  }

  /** Two sorted arrangements of the same elements start with the same element when
      no two different elements compare equal. */
  lemma SortedHeads(le: (TravelAdvisory, TravelAdvisory) -> bool,
                    xs: seq<TravelAdvisory>, ys: seq<TravelAdvisory>)
    requires forall a :: le(a, a)
    requires xs != [] && Sorted(le, xs) && Sorted(le, ys) && multiset(xs) == multiset(ys)
    requires Separates(le, xs)
    ensures ys != [] && xs[0] == ys[0]
  {
    assert xs[0] in multiset(ys);
    assert ys[0] in multiset(xs);
    var k :| 0 <= k < |xs| && xs[k] == ys[0];
    var m :| 0 <= m < |ys| && ys[m] == xs[0];
    assert le(xs[0], xs[k]) by {
      if k == 0 {
        assert le(xs[0], xs[0]);
      }
    }
    assert le(ys[0], ys[m]) by {
      if m == 0 {
        assert le(ys[0], ys[0]);
      }
    }
  }

  lemma SeparatesTail(le: (TravelAdvisory, TravelAdvisory) -> bool, xs: seq<TravelAdvisory>)
    requires xs != [] && Separates(le, xs)
    ensures Separates(le, xs[1..])
  {
    forall i, j | 0 <= i < |xs| - 1 && 0 <= j < |xs| - 1
      ensures xs[1..][i] == xs[i + 1] && xs[1..][j] == xs[j + 1]
    {
    }
  }

  /** Two sorted arrangements of the same elements are the same list when no two
      different elements compare equal. */
  lemma {:induction false} SortedUnique(le: (TravelAdvisory, TravelAdvisory) -> bool,
                                        xs: seq<TravelAdvisory>, ys: seq<TravelAdvisory>)
    requires forall a :: le(a, a)
    requires Sorted(le, xs) && Sorted(le, ys) && multiset(xs) == multiset(ys) && Separates(le, xs)
    ensures xs == ys
  {
    if xs == [] {
      assert |ys| == |multiset(ys)| == 0;
    } else {
      SortedHeads(le, xs, ys);
      assert multiset(xs[1..]) == multiset(xs) - multiset{xs[0]} by {
        assert xs == [xs[0]] + xs[1..];
        assert multiset(xs) == multiset([xs[0]]) + multiset(xs[1..]);
      }
      assert multiset(ys[1..]) == multiset(ys) - multiset{ys[0]} by {
        assert ys == [ys[0]] + ys[1..];
        assert multiset(ys) == multiset([ys[0]]) + multiset(ys[1..]);
      }
      SortedTail(le, xs);
      SortedTail(le, ys);
      SeparatesTail(le, xs);
      SortedUnique(le, xs[1..], ys[1..]);
      assert xs == [xs[0]] + xs[1..];
      assert ys == [ys[0]] + ys[1..];
    }
  }

  /** Sorting does not depend on the input's order when no two different elements
      compare equal. */
  lemma SortByPermutation(le: (TravelAdvisory, TravelAdvisory) -> bool,
                          xs: seq<TravelAdvisory>, ys: seq<TravelAdvisory>)
    requires TotalPreorder(le)
    requires multiset(xs) == multiset(ys) && Separates(le, xs)
    ensures SortBy(le, xs) == SortBy(le, ys)
  {
    SortBySorted(le, xs);
    SortBySorted(le, ys);
    var sx := SortBy(le, xs);
    forall i, j | 0 <= i < |sx| && 0 <= j < |sx| && le(sx[i], sx[j]) && le(sx[j], sx[i])
      ensures sx[i] == sx[j]
    {
      assert sx[i] in multiset(xs) && sx[j] in multiset(xs);
      var a :| 0 <= a < |xs| && xs[a] == sx[i];
      var b :| 0 <= b < |xs| && xs[b] == sx[j];
    }
    assert forall a :: le(a, a) by {
      forall a
        ensures le(a, a)
      {
        assert le(a, a) || le(a, a);
      }
    }
    SortedUnique(le, sx, SortBy(le, ys));
  }

  /** `a` and `b` have equal keys. */
  predicate Equiv(le: (TravelAdvisory, TravelAdvisory) -> bool, a: TravelAdvisory, b: TravelAdvisory)
  {
    le(a, b) && le(b, a)
  }

  /** The elements of `xs` whose key equals `x`'s, in their order in `xs`. */
  function Same(le: (TravelAdvisory, TravelAdvisory) -> bool, x: TravelAdvisory, xs: seq<TravelAdvisory>)
    : seq<TravelAdvisory>
  {
    if xs == [] then []
    else (if Equiv(le, x, xs[0]) then [xs[0]] else []) + Same(le, x, xs[1..])
  }

  lemma {:induction false} SameAppend(le: (TravelAdvisory, TravelAdvisory) -> bool, x: TravelAdvisory,
                                      a: seq<TravelAdvisory>, b: seq<TravelAdvisory>)
    ensures Same(le, x, a + b) == Same(le, x, a) + Same(le, x, b)
  {
    if a != [] {
      assert (a + b)[1..] == a[1..] + b;
      SameAppend(le, x, a[1..], b);
    } else {
      assert a + b == b;
    }
  }

  lemma {:induction false} SameNone(le: (TravelAdvisory, TravelAdvisory) -> bool, x: TravelAdvisory,
                                    zs: seq<TravelAdvisory>)
    requires forall j :: 0 <= j < |zs| ==> !Equiv(le, x, zs[j])
    ensures Same(le, x, zs) == []
  {
    if zs != [] {
      SameNone(le, x, zs[1..]);
    }
  }

  /** Inserting `y` into a sorted list puts it after every element with the same key. */
  lemma {:induction false} InsertSame(le: (TravelAdvisory, TravelAdvisory) -> bool, x: TravelAdvisory,
                                      y: TravelAdvisory, zs: seq<TravelAdvisory>)
    requires TotalPreorder(le) && Sorted(le, zs)
    ensures Same(le, x, Insert(le, y, zs)) == Same(le, x, zs) + Same(le, x, [y])
  {
    if zs == [] {
    } else if le(zs[0], y) {
      SortedTail(le, zs);
      InsertSame(le, x, y, zs[1..]);
      var rest := Insert(le, y, zs[1..]);
      assert ([zs[0]] + rest)[1..] == rest;
    } else {
      SameFront(le, x, y, zs);
    }
  }

  /** An element placed before a sorted list whose head has a larger key comes before
      every element with its own key. */
  lemma SameFront(le: (TravelAdvisory, TravelAdvisory) -> bool, x: TravelAdvisory,
                  y: TravelAdvisory, zs: seq<TravelAdvisory>)
    requires TotalPreorder(le) && Sorted(le, zs) && zs != [] && !le(zs[0], y)
    ensures Same(le, x, [y] + zs) == Same(le, x, zs) + Same(le, x, [y])
  {
    assert ([y] + zs)[1..] == zs;
    if Equiv(le, x, y) {
      forall j | 0 <= j < |zs|
        ensures !Equiv(le, x, zs[j])
      {
        if j > 0 {
          assert le(zs[0], zs[j]);
        }
      }
      SameNone(le, x, zs);
    }
  }

  /** The sort is stable: for every key, the elements with that key come out in the
      order they went in. */
  lemma {:induction false} SortByStable(le: (TravelAdvisory, TravelAdvisory) -> bool, x: TravelAdvisory,
                                        xs: seq<TravelAdvisory>)
    requires TotalPreorder(le)
    ensures Same(le, x, SortBy(le, xs)) == Same(le, x, xs)
  {
    if xs != [] {
      var init := xs[..|xs| - 1];
      var last := xs[|xs| - 1];
      SortByStable(le, x, init);
      SortBySorted(le, init);
      InsertSame(le, x, last, SortBy(le, init));
      assert xs == init + [last];
      SameAppend(le, x, init, [last]);
    }
  }
}
