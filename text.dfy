/** String helpers shared by the pipeline: the whitespace class Python's
    `str.strip` and regex `\s` use, ASCII case mapping, `strip()`,
    substring search and Python's code-point string order. */
module Text {

  /** Python's `str.isspace()`, which is also what `\s` matches in a `str` pattern. */
  predicate IsSpace(c: char)
  {
    var n := c as int;
    n == 0x20 || 0x09 <= n <= 0x0D || 0x1C <= n <= 0x1F || n == 0x85 || n == 0xA0 ||
    n == 0x1680 || 0x2000 <= n <= 0x200A || n == 0x2028 || n == 0x2029 ||
    n == 0x202F || n == 0x205F || n == 0x3000
  }

  /** The largest code point at or below `n` that starts one of the 68 runs of ten
      decimal digits (general category Nd) of Unicode 15.0, the table of Python
      3.12; -1 below the first run. Each run holds the digits 0 to 9 in order. */
  function DigitRunStart(n: int): (z: int)
    ensures z == -1 || (0x30 <= z <= n)
  {
    if n >= 0x1FBF0 then 0x1FBF0
    else if n >= 0x1E950 then 0x1E950
    else if n >= 0x1E4F0 then 0x1E4F0
    else if n >= 0x1E2F0 then 0x1E2F0
    else if n >= 0x1E140 then 0x1E140
    else if n >= 0x1D7F6 then 0x1D7F6
    else if n >= 0x1D7EC then 0x1D7EC
    else if n >= 0x1D7E2 then 0x1D7E2
    else if n >= 0x1D7D8 then 0x1D7D8
    else if n >= 0x1D7CE then 0x1D7CE
    else if n >= 0x16B50 then 0x16B50
    else if n >= 0x16AC0 then 0x16AC0
    else if n >= 0x16A60 then 0x16A60
    else if n >= 0x11F50 then 0x11F50
    else if n >= 0x11DA0 then 0x11DA0
    else if n >= 0x11D50 then 0x11D50
    else if n >= 0x11C50 then 0x11C50
    else if n >= 0x11950 then 0x11950
    else if n >= 0x118E0 then 0x118E0
    else if n >= 0x11730 then 0x11730
    else if n >= 0x116C0 then 0x116C0
    else if n >= 0x11650 then 0x11650
    else if n >= 0x114D0 then 0x114D0
    else if n >= 0x11450 then 0x11450
    else if n >= 0x112F0 then 0x112F0
    else if n >= 0x111D0 then 0x111D0
    else if n >= 0x11136 then 0x11136
    else if n >= 0x110F0 then 0x110F0
    else if n >= 0x11066 then 0x11066
    else if n >= 0x10D30 then 0x10D30
    else if n >= 0x104A0 then 0x104A0
    else if n >= 0xFF10 then 0xFF10
    else if n >= 0xABF0 then 0xABF0
    else if n >= 0xAA50 then 0xAA50
    else if n >= 0xA9F0 then 0xA9F0
    else if n >= 0xA9D0 then 0xA9D0
    else if n >= 0xA900 then 0xA900
    else if n >= 0xA8D0 then 0xA8D0
    else if n >= 0xA620 then 0xA620
    else if n >= 0x1C50 then 0x1C50
    else if n >= 0x1C40 then 0x1C40
    else if n >= 0x1BB0 then 0x1BB0
    else if n >= 0x1B50 then 0x1B50
    else if n >= 0x1A90 then 0x1A90
    else if n >= 0x1A80 then 0x1A80
    else if n >= 0x19D0 then 0x19D0
    else if n >= 0x1946 then 0x1946
    else if n >= 0x1810 then 0x1810
    else if n >= 0x17E0 then 0x17E0
    else if n >= 0x1090 then 0x1090
    else if n >= 0x1040 then 0x1040
    else if n >= 0xF20 then 0xF20
    else if n >= 0xED0 then 0xED0
    else if n >= 0xE50 then 0xE50
    else if n >= 0xDE6 then 0xDE6
    else if n >= 0xD66 then 0xD66
    else if n >= 0xCE6 then 0xCE6
    else if n >= 0xC66 then 0xC66
    else if n >= 0xBE6 then 0xBE6
    else if n >= 0xB66 then 0xB66
    else if n >= 0xAE6 then 0xAE6
    else if n >= 0xA66 then 0xA66
    else if n >= 0x9E6 then 0x9E6
    else if n >= 0x966 then 0x966
    else if n >= 0x7C0 then 0x7C0
    else if n >= 0x6F0 then 0x6F0
    else if n >= 0x660 then 0x660
    else if n >= 0x30 then 0x30
    else -1
  }

  /** A Unicode decimal digit: what `\d` matches in a `str` pattern and what `int()`
      accepts as a digit. */
  predicate IsDigit(c: char)
  {
    var z := DigitRunStart(c as int);
    z >= 0 && c as int < z + 10
  }

  /** The value `int()` gives a decimal digit. */
  function DigitValue(c: char): (d: int)
    requires IsDigit(c)
    ensures 0 <= d <= 9
  {
    c as int - DigitRunStart(c as int)
  }

  /** The ASCII digits are decimal digits with their usual values. */
  lemma AsciiDigit(c: char)
    requires '0' <= c <= '9'
    ensures IsDigit(c) && DigitValue(c) == c as int - '0' as int
  {
  }

  /** No decimal digit is whitespace. */
  lemma DigitNotSpace(c: char)
    requires IsDigit(c)
    ensures !IsSpace(c)
  {
  }

  /** ASCII `lower()` of one character; every other character is left alone. */
  function LowerChar(c: char): (r: char)
    ensures 'A' <= c <= 'Z' ==> 'a' <= r <= 'z' && r as int == c as int + 32
    ensures !('A' <= c <= 'Z') ==> r == c
  {
    if 'A' <= c <= 'Z' then (c as int + 32) as char else c
  }

  /** ASCII `upper()` of one character; every other character is left alone. */
  function UpperChar(c: char): (r: char)
    ensures 'a' <= c <= 'z' ==> 'A' <= r <= 'Z' && r as int == c as int - 32
    ensures !('a' <= c <= 'z') ==> r == c
  {
    if 'a' <= c <= 'z' then (c as int - 32) as char else c
  }

  function Lower(s: string): (r: string)
    ensures |r| == |s|
    ensures forall i :: 0 <= i < |s| ==> r[i] == LowerChar(s[i])
  {
    seq(|s|, i requires 0 <= i < |s| => LowerChar(s[i]))
  }

  function Upper(s: string): (r: string)
    ensures |r| == |s|
    ensures forall i :: 0 <= i < |s| ==> r[i] == UpperChar(s[i])
  {
    seq(|s|, i requires 0 <= i < |s| => UpperChar(s[i]))
  }

  lemma LowerAppend(a: string, b: string)
    ensures Lower(a + b) == Lower(a) + Lower(b)
  {
    assert forall i :: 0 <= i < |a + b| ==> Lower(a + b)[i] == (Lower(a) + Lower(b))[i];
  }

  lemma LowerSlice(s: string, i: int, j: int)
    requires 0 <= i <= j <= |s|
    ensures Lower(s[i..j]) == Lower(s)[i..j]
  {
  }

  /** Python's `s.lstrip()`: the longest suffix of `s` that does not start with whitespace. */
  function TrimLeft(s: string): (r: string)
    ensures |r| <= |s| && r == s[|s| - |r|..]
    ensures r == [] || !IsSpace(r[0])
    ensures forall i :: 0 <= i < |s| - |r| ==> IsSpace(s[i])
  {
    if s != [] && IsSpace(s[0]) then TrimLeft(s[1..]) else s
  }

  /** Python's `s.rstrip()`: the longest prefix of `s` that does not end with whitespace. */
  function TrimRight(s: string): (r: string)
    ensures |r| <= |s| && r == s[..|r|]
    ensures r == [] || !IsSpace(r[|r| - 1])
    ensures forall i :: |r| <= i < |s| ==> IsSpace(s[i])
  {
    if s != [] && IsSpace(s[|s| - 1]) then TrimRight(s[..|s| - 1]) else s
  }

  lemma SliceOfSuffix(s: string, k: int, n: int)
    requires 0 <= k && 0 <= n && k + n <= |s|
    ensures s[k..][..n] == s[k..k + n]
  {
  }

  /** Every character of `s` outside `s[a..b]` is whitespace. */
  predicate SpacesOutside(s: string, a: nat, b: nat)
    requires a <= b <= |s|
  {
    forall k :: 0 <= k < |s| && !(a <= k < b) ==> IsSpace(s[k])
  }

  /** Python's `s.strip()`: it removes whitespace from the two ends and nothing else,
      so the result is a slice of `s` with only whitespace outside it and none at
      either of its own ends. */
  function Trim(s: string): (r: string)
    ensures r == [] || (!IsSpace(r[0]) && !IsSpace(r[|r| - 1]))
    ensures exists a: nat, b: nat :: a <= b <= |s| && r == s[a..b] && SpacesOutside(s, a, b)
    ensures Contains(s, r)
  {
    var l := TrimLeft(s);
    var r := TrimRight(l);
    SliceOfSuffix(s, |s| - |l|, |r|);
    assert OccursAt(s, r, |s| - |l|);
    StripsAround(s, l, r);
    r
  }

  /** Whitespace stripped from the front of `s`, then from the back of what is left, lies outside the rest. */
  lemma StripsAround(s: string, l: string, r: string)
    requires |l| <= |s| && l == s[|s| - |l|..]
    requires forall i :: 0 <= i < |s| - |l| ==> IsSpace(s[i])
    requires |r| <= |l| && r == l[..|r|]
    requires forall i :: |r| <= i < |l| ==> IsSpace(l[i])
    ensures SpacesOutside(s, |s| - |l|, |s| - |l| + |r|)
  {
    var a := |s| - |l|;
    forall k | 0 <= k < |s| && !(a <= k < a + |r|)
      ensures IsSpace(s[k])
    {
      if k >= a + |r| {
        assert s[k] == l[k - a];
      }
    }
  }


  /** A string that starts and ends with non-whitespace is its own `strip()`. */
  lemma TrimOfTrimmed(s: string)
    requires s == [] || (!IsSpace(s[0]) && !IsSpace(s[|s| - 1]))
    ensures Trim(s) == s
  {
  }

  /** The first position at or after `i` that is not whitespace (or the end). */
  function SkipSpaces(s: string, i: nat): (j: nat)
    requires i <= |s|
    ensures i <= j <= |s|
    ensures j == |s| || !IsSpace(s[j])
    decreases |s| - i
  {
    if i < |s| && IsSpace(s[i]) then SkipSpaces(s, i + 1) else i
  }

  /** Everything `SkipSpaces` passes over is whitespace. */
  lemma {:induction false} SkippedAreSpaces(s: string, i: nat)
    requires i <= |s|
    ensures forall k :: i <= k < SkipSpaces(s, i) ==> IsSpace(s[k])
    decreases |s| - i
  {
    if i < |s| && IsSpace(s[i]) {
      SkippedAreSpaces(s, i + 1);
    }
  }

  /** How many copies of `c` the string starts with. */
  function LeadingCount(s: string, c: char): (n: nat)
    ensures n <= |s|
    ensures forall k :: 0 <= k < n ==> s[k] == c
    ensures n == |s| || s[n] != c
  {
    if s != [] && s[0] == c then 1 + LeadingCount(s[1..], c) else 0
  }

  /** A prefix never starts with more copies of `c` than the whole string. */
  lemma {:induction false} LeadingCountPrefix(s: string, t: string, c: char)
    requires s <= t
    ensures LeadingCount(s, c) <= LeadingCount(t, c)
  {
    if s != [] && s[0] == c {
      assert s[1..] <= t[1..];
      LeadingCountPrefix(s[1..], t[1..], c);
    }
  }

  /** Leading copies of `c` add up across a concatenation whose left part is all `c`. */
  lemma {:induction false} LeadingCountAppend(a: string, b: string, c: char)
    requires forall k :: 0 <= k < |a| ==> a[k] == c
    ensures LeadingCount(a + b, c) == |a| + LeadingCount(b, c)
  {
    if a != [] {
      assert (a + b)[1..] == a[1..] + b;
      LeadingCountAppend(a[1..], b, c);
    } else {
      assert a + b == b;
    }
  }

  /** A prefix one longer is the shorter prefix and one more element. */
  lemma TakeSnoc<T>(s: seq<T>, i: int)
    requires 0 <= i < |s|
    ensures s[..i + 1] == s[..i] + [s[i]]
    ensures (s[..i] + [s[i]])[..i] == s[..i]
  {
  }

  lemma AppendAssoc<T>(a: seq<T>, b: seq<T>, c: seq<T>)
    ensures (a + b) + c == a + (b + c)
  {
  }

  /** `p` occurs in `s` starting at position `i`. */
  predicate OccursAt(s: string, p: string, i: nat)
  {
    i + |p| <= |s| && s[i..i + |p|] == p
  }

  /** `p in s` for Python strings: `p` occurs in `s` at some position. */
  predicate Contains(s: string, p: string)
  {
    exists i: nat :: i <= |s| && OccursAt(s, p, i)
  }

  /** A left-to-right search that decides `Contains`. */
  function Find(s: string, p: string, from: nat): (r: bool)
    requires from <= |s|
    ensures r <==> exists i: nat :: from <= i <= |s| && OccursAt(s, p, i)
    decreases |s| - from
  {
    if |s| - from < |p| then false
    else if OccursAt(s, p, from) then true
    else from < |s| && Find(s, p, from + 1)
  }

  function ContainsAt(s: string, p: string): (r: bool)
    ensures r <==> Contains(s, p)
  {
    Find(s, p, 0)
  }

  /** Every string contains its own substrings' substrings. */
  lemma ContainsTrans(s: string, t: string, p: string)
    requires Contains(s, t) && Contains(t, p)
    ensures Contains(s, p)
  {
    var i: nat :| i <= |s| && OccursAt(s, t, i);
    var j: nat :| j <= |t| && OccursAt(t, p, j);
    assert OccursAt(s, p, i + j) by {
      assert forall k :: 0 <= k < |p| ==> p[k] == t[j + k] == s[i + j + k];
    }
  }

  /** Lower-casing keeps every occurrence. */
  lemma LowerContains(s: string, p: string)
    requires Contains(s, p)
    ensures Contains(Lower(s), Lower(p))
  {
    var i: nat :| i <= |s| && OccursAt(s, p, i);
    LowerSlice(s, i, i + |p|);
    assert OccursAt(Lower(s), Lower(p), i);
  }

  /** Python's `<=` on `str`: lexicographic by code point, a proper prefix first. */
  predicate StrLe(a: string, b: string)
  {
    if a == [] then true
    else if b == [] then false
    else if a[0] != b[0] then a[0] < b[0]
    else StrLe(a[1..], b[1..])
  }

  lemma {:induction false} StrLeTotal(a: string, b: string)
    ensures StrLe(a, b) || StrLe(b, a)
  {
    if a != [] && b != [] && a[0] == b[0] {
      StrLeTotal(a[1..], b[1..]);
    }
  }

  lemma {:induction false} StrLeTrans(a: string, b: string, c: string)
    requires StrLe(a, b) && StrLe(b, c)
    ensures StrLe(a, c)
  {
    if a != [] && b != [] && c != [] && a[0] == b[0] == c[0] {
      StrLeTrans(a[1..], b[1..], c[1..]);
    }
  }

  lemma {:induction false} StrLeAntisym(a: string, b: string)
    requires StrLe(a, b) && StrLe(b, a)
    ensures a == b
  {
    if a != [] && b != [] {
      StrLeAntisym(a[1..], b[1..]);
      assert a == [a[0]] + a[1..];
      assert b == [b[0]] + b[1..];
    }
  }
}
