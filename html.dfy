/** `clean_html` (main.py:184-197): entity decoding followed by a fixed chain of
    regular-expression substitutions, each written out as a left-to-right scanner
    with the semantics of Python's `re.sub`. */
module HtmlCleaner {
  import opened Text
  import opened Wrappers

  /** The seven patterns of the chain, in the order they are applied. */
  datatype Pattern =
    | BreakTag        // <br\s*/?>      (case-insensitive)
    | ParagraphOpen   // <p[^>]*>       (case-insensitive)
    | ParagraphClose  // </p>           (case-insensitive)
    | ListItemOpen    // <li[^>]*>      (case-insensitive)
    | AnyTag          // <[^>]+>
    | NewlineRun      // \n{3,}
    | SpaceRun        // ' +'

  /** The first '>' at or after `i`. */
  function CloseFrom(s: string, i: nat): (r: Option<nat>)
    requires i <= |s|
    ensures r.Some? ==> i <= r.value < |s| && s[r.value] == '>'
    ensures r.Some? ==> forall k :: i <= k < r.value ==> s[k] != '>'
    ensures r.None? ==> forall k :: i <= k < |s| ==> s[k] != '>'
    decreases |s| - i
  {
    if i == |s| then None
    else if s[i] == '>' then Some(i)
    else CloseFrom(s, i + 1)
  }

  /** What the letter `i` of a pattern matches under `re.IGNORECASE`: 'i', 'I', and
      also the dotted capital 'İ' (U+0130) and the dotless 'ı' (U+0131). The other
      letters of the patterns ('b', 'r', 'p', 'l') match only their two ASCII cases. */
  predicate MatchesIIgnoringCase(c: char)
  {
    LowerChar(c) == 'i' || c == '\U{130}' || c == '\U{131}'
  }

  /** The length of the match of `p` at the start of `s`; 0 when there is none
      (none of the patterns can match the empty string). */
  function MatchLen(p: Pattern, s: string): (n: nat)
    ensures n <= |s|
    ensures n > 0 && p.NewlineRun? ==> s[0] == '\n'
    ensures n > 0 && p.SpaceRun? ==> s[0] == ' '
    ensures n > 0 && !p.NewlineRun? && !p.SpaceRun? ==> s[0] == '<'
  {
    match p
    case BreakTag =>
      if |s| >= 3 && s[0] == '<' && LowerChar(s[1]) == 'b' && LowerChar(s[2]) == 'r' then
        var j := SkipSpaces(s, 3);
        if j < |s| && s[j] == '/' then
          (if j + 1 < |s| && s[j + 1] == '>' then j + 2 else 0)
        else if j < |s| && s[j] == '>' then j + 1
        else 0
      else 0
    case ParagraphOpen =>
      if |s| >= 2 && s[0] == '<' && LowerChar(s[1]) == 'p' then
        match CloseFrom(s, 2)
        case Some(k) => k + 1
        case None => 0
      else 0
    case ParagraphClose =>
      if |s| >= 4 && s[0] == '<' && s[1] == '/' && LowerChar(s[2]) == 'p' && s[3] == '>' then 4
      else 0
    case ListItemOpen =>
      if |s| >= 3 && s[0] == '<' && LowerChar(s[1]) == 'l' && MatchesIIgnoringCase(s[2]) then
        match CloseFrom(s, 3)
        case Some(k) => k + 1
        case None => 0
      else 0
    case AnyTag =>
      if |s| >= 1 && s[0] == '<' then
        match CloseFrom(s, 1)
        case Some(k) => if k >= 2 then k + 1 else 0
        case None => 0
      else 0
    case NewlineRun =>
      var n := LeadingCount(s, '\n');
      if n >= 3 then n else 0
    case SpaceRun =>
      LeadingCount(s, ' ')
  }

  /** `re.sub(p, repl, s)`: scan left to right, replace each match and resume after
      it, copy any other character. */
  function Sub(p: Pattern, repl: string, s: string): (r: string)
    decreases |s|
  {
    if s == [] then []
    else
      var n := MatchLen(p, s);
      if n > 0 then repl + Sub(p, repl, s[n..]) else [s[0]] + Sub(p, repl, s[1..])
  }

  /** No markup tag `<...>` starts at position `k`. */
  predicate NoTagAt(s: string, k: nat)
    requires k <= |s|
  {
    MatchLen(AnyTag, s[k..]) == 0
  }

  /** Fewer than `bound` copies of `c` start at position `k`. */
  predicate ShortRunAt(s: string, k: nat, c: char, bound: nat)
    requires k <= |s|
  {
    LeadingCount(s[k..], c) < bound
  }

  /** No markup tag `<...>` is left anywhere. */
  predicate TagFree(s: string)
  {
    forall k :: 0 <= k < |s| ==> NoTagAt(s, k)
  }

  /** Every run of `c` is shorter than `bound`. */
  predicate RunsBelow(s: string, c: char, bound: nat)
  {
    forall k :: 0 <= k < |s| ==> ShortRunAt(s, k, c, bound)
  }

  /** No run of three or more newlines is left. */
  predicate NoNewlineRun(s: string)
  {
    RunsBelow(s, '\n', 3)
  }

  /** No two spaces are adjacent. */
  predicate NoDoubleSpace(s: string)
  {
    RunsBelow(s, ' ', 2)
  }

  /** The string has no whitespace at either end. */
  predicate Stripped(s: string)
  {
    s == [] || (!IsSpace(s[0]) && !IsSpace(s[|s| - 1]))
  }

  /** `clean_html`, with `html.unescape` supplied by the caller. */
  function CleanHtml(unescape: string -> string, text: string): (r: string)
    ensures Stripped(r)
    ensures TagFree(r) && NoNewlineRun(r) && NoDoubleSpace(r)
  {
    var decoded := unescape(text);
    var t1 := Sub(BreakTag, "\n", decoded);
    var t2 := Sub(ParagraphOpen, "\n", t1);
    var t3 := Sub(ParagraphClose, "\n", t2);
    var t4 := Sub(ListItemOpen, "\n- ", t3);
    var t5 := Sub(AnyTag, "", t4);
    var t6 := Sub(NewlineRun, "\n\n", t5);
    var t7 := Sub(SpaceRun, " ", t6);
    SubRemovesTags(t4);
    SubCollapsesNewlines(t5);
    SubKeepsTagFree(NewlineRun, "\n\n", t5);
    SubCollapsesSpaces(t6);
    SubKeepsTagFree(SpaceRun, " ", t6);
    SpacesKeepNoNewlineRun(t6);
    TrimKeeps(t7);
    Trim(t7)
  }

  // ---------------------------------------------------------------------------
  // Moving the three properties between a string and its suffixes

  lemma DropTagFree(s: string, n: nat)
    requires n <= |s| && TagFree(s)
    ensures TagFree(s[n..])
  {
    forall k | 0 <= k < |s| - n
      ensures NoTagAt(s[n..], k)
    {
      assert s[n..][k..] == s[n + k..];
      assert NoTagAt(s, n + k);
    }
  }

  lemma DropRuns(s: string, n: nat, c: char, bound: nat)
    requires n <= |s| && RunsBelow(s, c, bound)
    ensures RunsBelow(s[n..], c, bound)
  {
    forall k | 0 <= k < |s| - n
      ensures ShortRunAt(s[n..], k, c, bound)
    {
      assert s[n..][k..] == s[n + k..];
      assert ShortRunAt(s, n + k, c, bound);
    }
  }

  /** A string whose first `d` positions start no tag and whose rest is tag-free is tag-free. */
  lemma ExtendTagFree(r: string, d: nat, t: string)
    requires d <= |r| && r[d..] == t && TagFree(t)
    requires forall k :: 0 <= k < d ==> NoTagAt(r, k)
    ensures TagFree(r)
  {
    forall k | d <= k < |r|
      ensures NoTagAt(r, k)
    {
      assert r[k..] == t[k - d..];
      assert NoTagAt(t, k - d);
    }
  }

  lemma ExtendRuns(r: string, d: nat, t: string, c: char, bound: nat)
    requires d <= |r| && r[d..] == t && RunsBelow(t, c, bound)
    requires forall k :: 0 <= k < d ==> ShortRunAt(r, k, c, bound)
    ensures RunsBelow(r, c, bound)
  {
    forall k | d <= k < |r|
      ensures ShortRunAt(r, k, c, bound)
    {
      assert r[k..] == t[k - d..];
      assert ShortRunAt(t, k - d, c, bound);
    }
  }

  // ---------------------------------------------------------------------------
  // Facts about one scan

  /** A character absent from the input and from the replacement is absent from the output. */
  lemma {:induction false} SubKeepsAbsent(p: Pattern, repl: string, s: string, c: char)
    requires forall k :: 0 <= k < |s| ==> s[k] != c
    requires forall k :: 0 <= k < |repl| ==> repl[k] != c
    ensures forall k :: 0 <= k < |Sub(p, repl, s)| ==> Sub(p, repl, s)[k] != c
  {
    if s != [] {
      var n := MatchLen(p, s);
      if n > 0 {
        SubKeepsAbsent(p, repl, s[n..], c);
      } else {
        SubKeepsAbsent(p, repl, s[1..], c);
      }
    }
  }

  /** After removing tags with `<[^>]+>`, none is left: a '<' that was kept is
      followed directly by '>' or by no '>' at all. */
  lemma {:induction false} SubRemovesTags(s: string)
    ensures TagFree(Sub(AnyTag, "", s))
    decreases |s|
  {
    if s != [] {
      var n := MatchLen(AnyTag, s);
      if n > 0 {
        SubRemovesTags(s[n..]);
        assert Sub(AnyTag, "", s) == Sub(AnyTag, "", s[n..]);
      } else {
        var t := Sub(AnyTag, "", s[1..]);
        var r := [s[0]] + t;
        SubRemovesTags(s[1..]);
        if s[0] == '<' {
          if CloseFrom(s, 1).None? {
            SubKeepsAbsent(AnyTag, "", s[1..], '>');
            assert CloseFrom(r, 1).None?;
          } else {
            assert s[1] == '>';
            assert t[0] == '>';
            assert CloseFrom(r, 1) == Some(1);
          }
        }
        assert r[0..] == r;
        assert NoTagAt(r, 0);
        ExtendTagFree(r, 1, t);
      }
    }
  }

  /** The newline run the output of `\n{3,}` -> "\n\n" starts with. */
  lemma {:induction false} LeadingNewlinesAfterCollapse(s: string)
    ensures var l := LeadingCount(s, '\n');
      LeadingCount(Sub(NewlineRun, "\n\n", s), '\n') == if l >= 3 then 2 else l
    decreases |s|
  {
    if s != [] {
      var l := LeadingCount(s, '\n');
      var n := MatchLen(NewlineRun, s);
      if n > 0 {
        var rest := s[n..];
        var t := Sub(NewlineRun, "\n\n", rest);
        assert rest == [] || rest[0] != '\n';
        assert t == [] || t[0] != '\n' by {
          if rest != [] { assert MatchLen(NewlineRun, rest) == 0; }
        }
        LeadingCountAppend("\n\n", t, '\n');
      } else if s[0] == '\n' {
        LeadingNewlinesAfterCollapse(s[1..]);
        LeadingCountAppend([s[0]], Sub(NewlineRun, "\n\n", s[1..]), '\n');
      }
    }
  }

  /** After `\n{3,}` -> "\n\n", no run of three newlines is left. */
  lemma {:induction false} SubCollapsesNewlines(s: string)
    ensures NoNewlineRun(Sub(NewlineRun, "\n\n", s))
    decreases |s|
  {
    if s != [] {
      var n := MatchLen(NewlineRun, s);
      var r := Sub(NewlineRun, "\n\n", s);
      LeadingNewlinesAfterCollapse(s);
      if n > 0 {
        var t := Sub(NewlineRun, "\n\n", s[n..]);
        SubCollapsesNewlines(s[n..]);
        assert r == "\n\n" + t;
        assert r[2..] == t;
        assert r[1..] == "\n" + t;
        LeadingNewlinesAfterCollapse(s[n..]);
        LeadingCountAppend("\n", t, '\n');
        assert LeadingCount(r[1..], '\n') == 1;
        assert r[0..] == r;
        assert ShortRunAt(r, 0, '\n', 3) && ShortRunAt(r, 1, '\n', 3);
        ExtendRuns(r, 2, t, '\n', 3);
      } else {
        var t := Sub(NewlineRun, "\n\n", s[1..]);
        SubCollapsesNewlines(s[1..]);
        assert r[0..] == r && r[1..] == t;
        assert ShortRunAt(r, 0, '\n', 3);
        ExtendRuns(r, 1, t, '\n', 3);
      }
    }
  }

  /** The space run the output of `' +'` -> " " starts with. */
  lemma {:induction false} LeadingSpacesAfterCollapse(s: string)
    ensures var l := LeadingCount(s, ' ');
      LeadingCount(Sub(SpaceRun, " ", s), ' ') == if l >= 1 then 1 else 0
  {
    if s != [] {
      var n := MatchLen(SpaceRun, s);
      if n > 0 {
        var rest := s[n..];
        var t := Sub(SpaceRun, " ", rest);
        assert t == [] || t[0] != ' ' by {
          if rest != [] { assert MatchLen(SpaceRun, rest) == 0; }
        }
        LeadingCountAppend(" ", t, ' ');
      }
    }
  }

  /** After `' +'` -> " ", no two spaces are adjacent. */
  lemma {:induction false} SubCollapsesSpaces(s: string)
    ensures NoDoubleSpace(Sub(SpaceRun, " ", s))
    decreases |s|
  {
    if s != [] {
      var n := MatchLen(SpaceRun, s);
      var r := Sub(SpaceRun, " ", s);
      LeadingSpacesAfterCollapse(s);
      if n > 0 {
        var t := Sub(SpaceRun, " ", s[n..]);
        SubCollapsesSpaces(s[n..]);
        assert r[0..] == r && r[1..] == t;
        assert ShortRunAt(r, 0, ' ', 2);
        ExtendRuns(r, 1, t, ' ', 2);
      } else {
        var t := Sub(SpaceRun, " ", s[1..]);
        SubCollapsesSpaces(s[1..]);
        assert r[0..] == r && r[1..] == t;
        assert ShortRunAt(r, 0, ' ', 2);
        ExtendRuns(r, 1, t, ' ', 2);
      }
    }
  }

  /** Collapsing spaces neither adds nor removes newlines at the front. */
  lemma {:induction false} LeadingNewlinesAfterSpaces(s: string)
    ensures LeadingCount(Sub(SpaceRun, " ", s), '\n') == LeadingCount(s, '\n')
  {
    if s != [] && s[0] == '\n' {
      assert MatchLen(SpaceRun, s) == 0;
      LeadingNewlinesAfterSpaces(s[1..]);
    }
  }

  lemma {:induction false} SpacesKeepNoNewlineRun(s: string)
    requires NoNewlineRun(s)
    ensures NoNewlineRun(Sub(SpaceRun, " ", s))
    decreases |s|
  {
    if s != [] {
      var n := MatchLen(SpaceRun, s);
      var r := Sub(SpaceRun, " ", s);
      if n > 0 {
        var t := Sub(SpaceRun, " ", s[n..]);
        DropRuns(s, n, '\n', 3);
        SpacesKeepNoNewlineRun(s[n..]);
        assert r[0..] == r && r[1..] == t;
        assert ShortRunAt(r, 0, '\n', 3);
        ExtendRuns(r, 1, t, '\n', 3);
      } else {
        var t := Sub(SpaceRun, " ", s[1..]);
        DropRuns(s, 1, '\n', 3);
        SpacesKeepNoNewlineRun(s[1..]);
        LeadingNewlinesAfterSpaces(s);
        assert r[0..] == r && s[0..] == s && r[1..] == t;
        assert ShortRunAt(s, 0, '\n', 3);
        assert ShortRunAt(r, 0, '\n', 3);
        ExtendRuns(r, 1, t, '\n', 3);
      }
    }
  }

  /** Collapsing newlines or spaces cannot create a tag: it never touches '<' or '>'. */
  lemma {:induction false} SubKeepsTagFree(p: Pattern, repl: string, s: string)
    requires p.NewlineRun? || p.SpaceRun?
    requires forall k :: 0 <= k < |repl| ==> repl[k] != '<' && repl[k] != '>'
    requires TagFree(s)
    ensures TagFree(Sub(p, repl, s))
    decreases |s|
  {
    if s != [] {
      var n := MatchLen(p, s);
      var r := Sub(p, repl, s);
      if n > 0 {
        var t := Sub(p, repl, s[n..]);
        DropTagFree(s, n);
        SubKeepsTagFree(p, repl, s[n..]);
        assert r == repl + t;
        assert r[|repl|..] == t;
        forall k | 0 <= k < |repl|
          ensures NoTagAt(r, k)
        {
          assert r[k..][0] == repl[k];
        }
        ExtendTagFree(r, |repl|, t);
      } else {
        var t := Sub(p, repl, s[1..]);
        DropTagFree(s, 1);
        SubKeepsTagFree(p, repl, s[1..]);
        assert r[1..] == t;
        if s[0] == '<' {
          assert NoTagAt(s, 0);
          assert s[0..] == s;
          if CloseFrom(s, 1).None? {
            SubKeepsAbsent(p, repl, s[1..], '>');
            assert CloseFrom(r, 1).None?;
          } else {
            assert s[1] == '>';
            assert MatchLen(p, s[1..]) == 0;
            assert t[0] == '>';
            assert CloseFrom(r, 1) == Some(1);
          }
        }
        assert r[0..] == r;
        assert NoTagAt(r, 0);
        ExtendTagFree(r, 1, t);
      }
    }
  }

  // ---------------------------------------------------------------------------
  // The final `strip()` keeps all three properties, since it takes a substring.

  /** A prefix of a string with no tag at its start has none at its start either. */
  lemma NoTagAtPrefix(a: string, b: string)
    requires a <= b && MatchLen(AnyTag, b) == 0
    ensures MatchLen(AnyTag, a) == 0
  {
    if a != [] && a[0] == '<' {
      assert b[0] == '<';
      if CloseFrom(b, 1).None? {
        assert forall k :: 1 <= k < |a| ==> a[k] == b[k];
        assert CloseFrom(a, 1).None?;
      } else if |a| >= 2 {
        assert a[1] == b[1] == '>';
      }
    }
  }

  /** Each suffix of a substring is a prefix of a suffix of the text; `strip()` returns one. */
  lemma ContainedSuffixes(s: string, r: string) returns (i: nat)
    requires Contains(s, r)
    ensures i + |r| <= |s|
    ensures forall k :: 0 <= k < |r| ==> r[k..] <= s[i + k..]
  {
    i :| i <= |s| && OccursAt(s, r, i);
    forall k | 0 <= k < |r|
      ensures r[k..] <= s[i + k..]
    {
      assert r[k..] == s[i..i + |r|][k..] == s[i + k..i + |r|];
    }
  }

  lemma TrimKeepsTagFree(s: string)
    requires TagFree(s)
    ensures TagFree(Trim(s))
  {
    var i := ContainedSuffixes(s, Trim(s));
    forall k | 0 <= k < |Trim(s)|
      ensures NoTagAt(Trim(s), k)
    {
      assert NoTagAt(s, i + k);
      NoTagAtPrefix(Trim(s)[k..], s[i + k..]);
    }
  }

  lemma TrimKeepsRuns(s: string, c: char, bound: nat)
    requires RunsBelow(s, c, bound)
    ensures RunsBelow(Trim(s), c, bound)
  {
    var i := ContainedSuffixes(s, Trim(s));
    forall k | 0 <= k < |Trim(s)|
      ensures ShortRunAt(Trim(s), k, c, bound)
    {
      assert ShortRunAt(s, i + k, c, bound);
      LeadingCountPrefix(Trim(s)[k..], s[i + k..], c);
    }
  }

  lemma TrimKeeps(s: string)
    ensures TagFree(s) ==> TagFree(Trim(s))
    ensures NoNewlineRun(s) ==> NoNewlineRun(Trim(s))
    ensures NoDoubleSpace(s) ==> NoDoubleSpace(Trim(s))
  {
    if TagFree(s) { TrimKeepsTagFree(s); }
    if NoNewlineRun(s) { TrimKeepsRuns(s, '\n', 3); }
    if NoDoubleSpace(s) { TrimKeepsRuns(s, ' ', 2); }
  }

  // ---------------------------------------------------------------------------
  // Text that is already clean passes through unchanged.

  /** A scan that finds no match anywhere copies its input. */
  lemma {:induction false} SubWithoutMatch(p: Pattern, repl: string, s: string)
    requires forall k :: 0 <= k < |s| ==> MatchLen(p, s[k..]) == 0
    ensures Sub(p, repl, s) == s
  {
    if s != [] {
      assert s[0..] == s;
      assert forall k :: 0 <= k < |s| - 1 ==> s[1..][k..] == s[1 + k..];
      SubWithoutMatch(p, repl, s[1..]);
    }
  }

  /** Each of the four structural tags is also a match of `<[^>]+>`. */
  lemma MarkupIsTag(p: Pattern, s: string)
    requires p.BreakTag? || p.ParagraphOpen? || p.ParagraphClose? || p.ListItemOpen?
    requires MatchLen(p, s) > 0
    ensures MatchLen(AnyTag, s) > 0
  {
    assert s[0] == '<' && s[1] != '>';
    match p
    case BreakTag =>
      assert s[2] != '>';
      var j := SkipSpaces(s, 3);
      assert s[j] == '>' || s[j + 1] == '>';
    case ParagraphOpen =>
    case ParagraphClose =>
      assert s[3] == '>';
    case ListItemOpen =>
      assert s[2] != '>';
  }

  lemma NoMarkupInTagFree(p: Pattern, s: string)
    requires p.BreakTag? || p.ParagraphOpen? || p.ParagraphClose? || p.ListItemOpen? || p.AnyTag?
    requires TagFree(s)
    ensures forall k :: 0 <= k < |s| ==> MatchLen(p, s[k..]) == 0
  {
    forall k | 0 <= k < |s|
      ensures MatchLen(p, s[k..]) == 0
    {
      assert NoTagAt(s, k);
      if !p.AnyTag? && MatchLen(p, s[k..]) > 0 {
        MarkupIsTag(p, s[k..]);
      }
    }
  }

  /** Without adjacent spaces, every match of `' +'` is one space replaced by one space. */
  lemma {:induction false} SpacesWithoutDouble(s: string)
    requires NoDoubleSpace(s)
    ensures Sub(SpaceRun, " ", s) == s
  {
    if s != [] {
      assert s[0..] == s;
      DropRuns(s, 1, ' ', 2);
      SpacesWithoutDouble(s[1..]);
      if s[0] == ' ' {
        assert ShortRunAt(s, 0, ' ', 2);
        assert MatchLen(SpaceRun, s) == 1;
        assert [s[0]] == " ";
      }
    }
  }

  /** Already-clean text is a fixed point of `clean_html` when entity decoding leaves it alone. */
  lemma CleanTextIsFixed(unescape: string -> string, s: string)
    requires unescape(s) == s
    requires Stripped(s) && TagFree(s) && NoNewlineRun(s) && NoDoubleSpace(s)
    ensures CleanHtml(unescape, s) == s
  {
    NoMarkupInTagFree(BreakTag, s);
    SubWithoutMatch(BreakTag, "\n", s);
    NoMarkupInTagFree(ParagraphOpen, s);
    SubWithoutMatch(ParagraphOpen, "\n", s);
    NoMarkupInTagFree(ParagraphClose, s);
    SubWithoutMatch(ParagraphClose, "\n", s);
    NoMarkupInTagFree(ListItemOpen, s);
    SubWithoutMatch(ListItemOpen, "\n- ", s);
    NoMarkupInTagFree(AnyTag, s);
    SubWithoutMatch(AnyTag, "", s);
    forall k | 0 <= k < |s|
      ensures MatchLen(NewlineRun, s[k..]) == 0
    {
      assert ShortRunAt(s, k, '\n', 3);
    }
    SubWithoutMatch(NewlineRun, "\n\n", s);
    SpacesWithoutDouble(s);
    TrimOfTrimmed(s);
  }

  /** `clean_html` is idempotent whenever entity decoding leaves its output alone. */
  lemma CleanHtmlIdempotent(unescape: string -> string, text: string)
    requires unescape(CleanHtml(unescape, text)) == CleanHtml(unescape, text)
    ensures CleanHtml(unescape, CleanHtml(unescape, text)) == CleanHtml(unescape, text)
  {
    CleanTextIsFixed(unescape, CleanHtml(unescape, text));
  }
}
