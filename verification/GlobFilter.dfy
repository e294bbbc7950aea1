/**
 Selecting benchmarks by name (3rd/hayai/hayai_benchmarker.hpp).

 A filter is a list of glob patterns separated by `:`; a `-` starts the patterns to leave
 out. The backtracking matcher works on offsets into NUL-terminated strings; here an offset
 equal to the length stands for the terminator.
 */
module GlobFilter {
  import opened Common

  // ---- What a pattern means -------------------------------------------------------------

  /** The texts one pattern character stands for. */
  predicate Fits(p: char, w: string) {
    if p == '*' then true else if p == '?' then |w| == 1 else w == [p]
  }

  /** `ws` cuts `s` into one piece for each character of `glob`. */
  predicate Spells(glob: string, ws: seq<string>, s: string) {
    && |ws| == |glob|
    && Flatten(ws) == s
    && forall i | 0 <= i < |ws| :: Fits(glob[i], ws[i])
  }

  ghost predicate Denotes(glob: string, s: string) {
    exists ws: seq<string> :: Spells(glob, ws, s)
  }

  // ---- The matcher ----------------------------------------------------------------------

  predicate PatternMatchesString(pattern: CString, i: nat, str: CString, j: nat)
    requires i <= |pattern| && j <= |str|
    decreases |pattern| - i, |str| - j
  {
    if i == |pattern| || pattern[i] == ':' then
      j == |str|
    else if pattern[i] == '?' then
      j < |str| && PatternMatchesString(pattern, i + 1, str, j + 1)
    else if pattern[i] == '*' then
      || (j < |str| && PatternMatchesString(pattern, i, str, j + 1))
      || PatternMatchesString(pattern, i + 1, str, j)
    else
      j < |str| && pattern[i] == str[j] && PatternMatchesString(pattern, i + 1, str, j + 1)
  }

  /** The pattern that starts at offset `i` of a filter: up to the next `:` or the end. */
  function Segment(filter: string, i: nat): (r: string)
    requires i <= |filter|
    ensures i + |r| <= |filter| && filter[i..i + |r|] == r
    ensures forall k | i <= k < i + |r| :: filter[k] != ':'
    ensures i + |r| == |filter| || filter[i + |r|] == ':'
    decreases |filter| - i
  {
    if i == |filter| || filter[i] == ':' then "" else [filter[i]] + Segment(filter, i + 1)
  }

  lemma {:induction false} DenotesEmpty(s: string)
    ensures Denotes("", s) <==> s == ""
  {
    assert Spells("", [], "");
  }

  /** The first piece of a cut belongs to the first pattern character. */
  lemma {:induction false} DenotesCons(p: char, rest: string, s: string)
    ensures Denotes([p] + rest, s) <==>
            exists k: nat :: k <= |s| && Fits(p, s[..k]) && Denotes(rest, s[k..])
  {
    var glob := [p] + rest;
    if Denotes(glob, s) {
      var ws: seq<string> :| Spells(glob, ws, s);
      var k := |ws[0]|;
      assert s[..k] == ws[0] && s[k..] == Flatten(ws[1..]);
      assert Spells(rest, ws[1..], s[k..]);
      assert k <= |s| && Fits(p, s[..k]) && Denotes(rest, s[k..]);
    }
    if k: nat :| k <= |s| && Fits(p, s[..k]) && Denotes(rest, s[k..]) {
      var ws: seq<string> :| Spells(rest, ws, s[k..]);
      var all := [s[..k]] + ws;
      assert all[1..] == ws && s[..k] + s[k..] == s;
      assert Spells(glob, all, s);
    }
  }

  /** A star takes nothing, or one more character. */
  lemma {:induction false} DenotesStar(rest: string, s: string)
    ensures Denotes("*" + rest, s) <==>
            (s != "" && Denotes("*" + rest, s[1..])) || Denotes(rest, s)
  {
    DenotesCons('*', rest, s);
    if s != "" { DenotesCons('*', rest, s[1..]); }
    assert s[0..] == s;
    if k: nat :| k <= |s| && Denotes(rest, s[k..]) && k > 0 {
      assert s[k..] == s[1..][k - 1..];
    }
    if s != "" && Denotes("*" + rest, s[1..]) {
      var k: nat :| k <= |s[1..]| && Fits('*', s[1..][..k]) && Denotes(rest, s[1..][k..]);
      assert s[1..][k..] == s[k + 1..];
      assert k + 1 <= |s| && Fits('*', s[..k + 1]) && Denotes(rest, s[k + 1..]);
    }
    if Denotes(rest, s) {
      assert 0 <= |s| && Fits('*', s[..0]) && Denotes(rest, s[0..]);
    }
  }

  /** Any other pattern character takes exactly one character. */
  lemma {:induction false} DenotesOne(p: char, rest: string, s: string)
    requires p != '*'
    ensures Denotes([p] + rest, s) <==>
            s != "" && (p == '?' || p == s[0]) && Denotes(rest, s[1..])
  {
    DenotesCons(p, rest, s);
    if s != "" && (p == '?' || p == s[0]) && Denotes(rest, s[1..]) {
      assert 1 <= |s| && Fits(p, s[..1]) && Denotes(rest, s[1..]);
    }
  }

  /** A question mark denotes any one character. */
  lemma QuestionDenotesOne(s: string)
    ensures Denotes("?", s) <==> |s| == 1
  {
    DenotesOne('?', "", s);
    if s != "" { DenotesEmpty(s[1..]); }
    assert ['?'] + "" == "?";
  }

  /** A pattern without special characters denotes itself. */
  lemma {:induction false} PlainDenotesItself(glob: string, s: string)
    requires '*' !in glob && '?' !in glob
    ensures Denotes(glob, s) <==> s == glob
  {
    if glob == "" {
      DenotesEmpty(s);
    } else {
      DenotesOne(glob[0], glob[1..], s);
      assert glob == [glob[0]] + glob[1..];
      if s != "" {
        PlainDenotesItself(glob[1..], s[1..]);
        assert s == [s[0]] + s[1..];
      }
    }
  }

  /** The backtracking search decides the declarative meaning. */
  lemma {:induction false} MatcherMeaning(pattern: CString, i: nat, str: CString, j: nat)
    requires i <= |pattern| && j <= |str|
    ensures PatternMatchesString(pattern, i, str, j) <==> Denotes(Segment(pattern, i), str[j..])
    decreases |pattern| - i, |str| - j
  {
    var s := str[j..];
    if i == |pattern| || pattern[i] == ':' {
      DenotesEmpty(s);
    } else if pattern[i] == '*' {
      DenotesStar(Segment(pattern, i + 1), s);
      MatcherMeaning(pattern, i + 1, str, j);
      if j < |str| {
        assert s[1..] == str[j + 1..];
        MatcherMeaning(pattern, i, str, j + 1);
      }
    } else {
      DenotesOne(pattern[i], Segment(pattern, i + 1), s);
      if j < |str| {
        assert s[1..] == str[j + 1..];
        MatcherMeaning(pattern, i + 1, str, j + 1);
      }
    }
  }

  // ---- Filters --------------------------------------------------------------------------

  /** The patterns of a filter, from offset `i` on. */
  function Alternatives(filter: string, i: nat): (r: seq<string>)
    requires i <= |filter|
    ensures r != []
    decreases |filter| - i
  {
    var head := Segment(filter, i);
    if i + |head| == |filter| then [head] else [head] + Alternatives(filter, i + |head| + 1)
  }

  function Joined(parts: seq<string>): string
    requires parts != []
  {
    if |parts| == 1 then parts[0] else parts[0] + ":" + Joined(parts[1..])
  }

  predicate NoColon(part: string) {
    forall k | 0 <= k < |part| :: part[k] != ':'
  }

  ghost predicate NoColons(parts: seq<string>) {
    forall k | 0 <= k < |parts| :: NoColon(parts[k])
  }

  /** Cutting at the colons loses nothing and cuts at every colon. */
  lemma {:induction false} AlternativesJoin(filter: string, i: nat)
    requires i <= |filter|
    ensures Joined(Alternatives(filter, i)) == filter[i..]
    ensures NoColons(Alternatives(filter, i))
    decreases |filter| - i
  {
    hide NoColon, Segment, Joined, Alternatives;
    var head := Segment(filter, i);
    var e := i + |head|;
    SegmentNoColon(filter, i);
    AlternativesStep(filter, i);
    if e == |filter| {
      JoinedOne(head);
      assert filter[i..] == filter[i..e];
    } else {
      AlternativesJoin(filter, e + 1);
      JoinedCons(head, Alternatives(filter, e + 1));
      CutAt(filter, i, e);
    }
  }

  lemma AlternativesStep(filter: string, i: nat)
    requires i <= |filter|
    ensures var head := Segment(filter, i);
            Alternatives(filter, i) ==
            if i + |head| == |filter| then [head] else [head] + Alternatives(filter, i + |head| + 1)
  {
  }

  lemma JoinedOne(head: string)
    ensures Joined([head]) == head
  {
  }

  lemma JoinedCons(head: string, rest: seq<string>)
    requires rest != []
    ensures Joined([head] + rest) == head + ":" + Joined(rest)
  {
    assert ([head] + rest)[1..] == rest;
  }

  lemma CutAt(s: string, i: nat, e: nat)
    requires i <= e < |s|
    ensures s[i..] == s[i..e] + [s[e]] + s[e + 1..]
  {
  }

  lemma SegmentNoColon(filter: string, i: nat)
    requires i <= |filter|
    ensures NoColon(Segment(filter, i))
  {
    var head := Segment(filter, i);
    assert forall k | 0 <= k < |head| :: head[k] == filter[i + k];
  }

  ghost predicate SomeDenotes(globs: seq<string>, s: string) {
    exists k :: 0 <= k < |globs| && Denotes(globs[k], s)
  }

  /** Some pattern of the filter denotes the name. */
  ghost predicate FilterMatches(filter: string, s: string) {
    SomeDenotes(Alternatives(filter, 0), s)
  }

  /** `strchr`: the first occurrence of `c` at or after `from`. */
  method StrChr(s: CString, from: nat, c: char) returns (r: Option<nat>)
    requires from <= |s|
    ensures r.Some? ==> from <= r.value < |s| && s[r.value] == c
    ensures forall k | from <= k < (if r.Some? then r.value else |s|) :: s[k] != c
  {
    var k := from;
    while k < |s|
      invariant from <= k <= |s|
      invariant forall m | from <= m < k :: s[m] != c
    {
      if s[k] == c { return Some(k); }
      k := k + 1;
    }
    return None;
  }

  /** One step of the search for an alternative that matches. */
  lemma FirstAlternative(filter: string, i: nat, s: string)
    requires i <= |filter|
    ensures var e := i + |Segment(filter, i)|;
            SomeDenotes(Alternatives(filter, i), s) <==>
            Denotes(Segment(filter, i), s)
            || (e < |filter| && SomeDenotes(Alternatives(filter, e + 1), s))
  {
    var here, e := Alternatives(filter, i), i + |Segment(filter, i)|;
    assert here[0] == Segment(filter, i);
    if e < |filter| {
      var after := Alternatives(filter, e + 1);
      assert here == [Segment(filter, i)] + after;
      assert forall k | 0 <= k < |after| :: here[k + 1] == after[k];
    }
  }

  method FilterMatchesString(filter: CString, str: CString) returns (res: bool)
    ensures res <==> FilterMatches(filter, str)
  {
    hide Alternatives, Segment, SomeDenotes, Denotes, PatternMatchesString;
    var patternStart := 0;
    while true
      invariant patternStart <= |filter|
      invariant SomeDenotes(Alternatives(filter, 0), str) <==>
                SomeDenotes(Alternatives(filter, patternStart), str)
      decreases |filter| - patternStart
    {
      FirstAlternative(filter, patternStart, str);
      MatcherMeaning(filter, patternStart, str, 0);
      assert str[0..] == str;
      if PatternMatchesString(filter, patternStart, str, 0) {
        return true;
      }
      var next := StrChr(filter, patternStart, ':');
      if next.None? {
        return false;
      }
      patternStart := next.value + 1;
    }
  }

  // ---- Filtering the tests in place -----------------------------------------------------

  datatype TestDescriptor = TestDescriptor(canonicalName: CString, runs: nat)

  /** Offset of the first `-`, or the length. */
  function DashAt(pattern: string, i: nat): (r: nat)
    requires i <= |pattern|
    ensures i <= r <= |pattern|
    ensures forall k | i <= k < r :: pattern[k] != '-'
    ensures r < |pattern| ==> pattern[r] == '-'
    decreases |pattern| - i
  {
    if i == |pattern| || pattern[i] == '-' then i else DashAt(pattern, i + 1)
  }

  function Positive(pattern: string): string {
    var dash := DashAt(pattern, 0);
    if dash == 0 && dash < |pattern| then "*" else pattern[..dash]
  }

  function Negative(pattern: string): string {
    var dash := DashAt(pattern, 0);
    if dash < |pattern| then pattern[dash + 1..] else ""
  }

  /** Some pattern before the dash matches the name and none after it does. */
  ghost predicate Selected(pattern: string, name: string) {
    && FilterMatches(Positive(pattern), name)
    && !FilterMatches(Negative(pattern), name)
  }

  /**
   Without a dash the filter alone decides, except that its empty negative part always
   leaves out an empty name.
   */
  lemma SelectedWithoutDash(pattern: string, name: string)
    requires DashAt(pattern, 0) == |pattern|
    ensures Selected(pattern, name) <==> FilterMatches(pattern, name) && name != ""
  {
    assert pattern[..|pattern|] == pattern;
    hide Denotes;
    assert Alternatives("", 0) == [""];
    assert [""][0] == "";
    DenotesEmpty(name);
    if pattern == "" { assert Positive(pattern) == pattern; }
  }

  /** The first dash parts the filter; with nothing in front of it everything is wanted. */
  lemma DashParts(positive: string, negative: string)
    requires '-' !in positive
    ensures Positive(positive + "-" + negative) == if positive == "" then "*" else positive
    ensures Negative(positive + "-" + negative) == negative
  {
    var pattern := positive + "-" + negative;
    assert pattern[|positive|] == '-' && forall k | 0 <= k < |positive| :: pattern[k] == positive[k];
    assert DashAt(pattern, 0) == |positive|;
    assert pattern[..|positive|] == positive && pattern[|positive| + 1..] == negative;
  }

  lemma StarDenotesAll(name: string)
    ensures FilterMatches("*", name)
  {
    assert Flatten([name]) == name + Flatten([]) == name;
    assert Spells("*", [name], name);
    assert Segment("*", 0) == "*";
    assert Alternatives("*", 0)[0] == "*";
  }

  /** With a dash: what the patterns in front of it want, or everything, without what those behind it name. */
  lemma SelectedWithDash(positive: string, negative: string, name: string)
    requires '-' !in positive
    ensures Selected(positive + "-" + negative, name) <==>
            (positive == "" || FilterMatches(positive, name)) && !FilterMatches(negative, name)
  {
    hide FilterMatches, Positive, Negative;
    DashParts(positive, negative);
    StarDenotesAll(name);
  }

  ghost function KeepOne(wanted: string -> bool, test: TestDescriptor): seq<TestDescriptor> {
    if wanted(test.canonicalName) then [test] else []
  }

  /** The tests whose names are wanted, in their original order. */
  ghost function Keep(wanted: string -> bool, tests: seq<TestDescriptor>): seq<TestDescriptor> {
    if tests == [] then [] else KeepOne(wanted, tests[0]) + Keep(wanted, tests[1..])
  }

  ghost function Selection(pattern: string): string -> bool {
    name => Selected(pattern, name)
  }

  ghost function Kept(pattern: string, tests: seq<TestDescriptor>): seq<TestDescriptor> {
    Keep(Selection(pattern), tests)
  }

  class Benchmarker {
    var tests: seq<TestDescriptor>

    method ApplyPatternFilter(pattern: CString)
      modifies this
      ensures tests == Kept(pattern, old(tests))
    {
      var dash := StrChr(pattern, 0, '-');
      var positive: CString, negative: CString := pattern, "";
      if dash.Some? {
        positive := pattern[..dash.value];
        negative := pattern[dash.value + 1..];
        if positive == "" {
          positive := "*";
        }
      }
      assert positive == Positive(pattern) && negative == Negative(pattern);
      EraseUnwanted(positive, negative, Selection(pattern));
    }

    method EraseUnwanted(positive: CString, negative: CString, ghost wanted: string -> bool)
      requires forall n: string ::
                 wanted(n) <==> FilterMatches(positive, n) && !FilterMatches(negative, n)
      modifies this
      ensures tests == Keep(wanted, old(tests))
    {
      var index := 0;
      assert tests[0..] == tests;
      while index < |tests|
        invariant index <= |tests|
        invariant Keep(wanted, old(tests)) == tests[..index] + Keep(wanted, tests[index..])
        decreases |tests| - index
      {
        var desc := tests[index];
        KeepSplit(wanted, tests, index);
        var included := FilterMatchesString(positive, desc.canonicalName);
        var excluded := FilterMatchesString(negative, desc.canonicalName);
        if !included || excluded {
          tests := tests[..index] + tests[index + 1..];
        } else {
          index := index + 1;
        }
      }
      assert tests[..index] == tests;
    }
  }

  /** What looking at the test at `index` does to the split between done and to do. */
  lemma KeepSplit(wanted: string -> bool, tests: seq<TestDescriptor>, index: nat)
    requires index < |tests|
    ensures var rest := Keep(wanted, tests[index + 1..]);
            var erased := tests[..index] + tests[index + 1..];
            && erased[..index] == tests[..index] && erased[index..] == tests[index + 1..]
            && tests[..index] + Keep(wanted, tests[index..])
               == if wanted(tests[index].canonicalName) then tests[..index + 1] + rest
                  else tests[..index] + rest
  {
    assert tests[index..][1..] == tests[index + 1..];
    assert tests[..index + 1] == tests[..index] + [tests[index]];
  }

  /** Filtering works test by test, so it keeps the original order. */
  lemma {:induction false} KeepAppend(wanted: string -> bool, a: seq<TestDescriptor>, b: seq<TestDescriptor>)
    ensures Keep(wanted, a + b) == Keep(wanted, a) + Keep(wanted, b)
  {
    hide KeepOne;
    if a == [] {
      assert a + b == b;
    } else {
      assert (a + b)[1..] == a[1..] + b;
      KeepAppend(wanted, a[1..], b);
      var one, x, y := KeepOne(wanted, a[0]), Keep(wanted, a[1..]), Keep(wanted, b);
      assert one + (x + y) == (one + x) + y;
    }
  }

  lemma {:induction false} KeepCount(wanted: string -> bool, tests: seq<TestDescriptor>, t: TestDescriptor)
    ensures multiset(Keep(wanted, tests))[t] ==
            if wanted(t.canonicalName) then multiset(tests)[t] else 0
  {
    if tests != [] {
      KeepCount(wanted, tests[1..], t);
      assert tests == [tests[0]] + tests[1..];
    }
  }

  lemma SelectionMeaning(pattern: string, name: string)
    ensures Selection(pattern)(name) == Selected(pattern, name)
  {
  }

  /** Exactly the selected tests stay, each as often as before and in the same order. */
  lemma KeptExactly(pattern: string, tests: seq<TestDescriptor>, t: TestDescriptor, k: nat)
    requires k <= |tests|
    ensures multiset(Kept(pattern, tests))[t] ==
            if Selected(pattern, t.canonicalName) then multiset(tests)[t] else 0
    ensures Kept(pattern, tests) == Kept(pattern, tests[..k]) + Kept(pattern, tests[k..])
  {
    hide Selected, Selection, Keep;
    SelectionMeaning(pattern, t.canonicalName);
    var wanted := Selection(pattern);
    KeepCount(wanted, tests, t);
    KeepAppend(wanted, tests[..k], tests[k..]);
    assert tests[..k] + tests[k..] == tests;
  }

  lemma {:induction false} KeepTwice(f: string -> bool, g: string -> bool, tests: seq<TestDescriptor>)
    ensures Keep(g, Keep(f, tests)) == Keep(n => f(n) && g(n), tests)
  {
    if tests != [] {
      KeepTwice(f, g, tests[1..]);
      KeepAppend(g, KeepOne(f, tests[0]), Keep(f, tests[1..]));
    }
  }

  lemma {:induction false} KeepSame(f: string -> bool, g: string -> bool, tests: seq<TestDescriptor>)
    requires forall n :: f(n) == g(n)
    ensures Keep(f, tests) == Keep(g, tests)
  {
    if tests != [] { KeepSame(f, g, tests[1..]); }
  }

  /** Applying a second filter keeps what both select, in either order; the same one twice adds nothing. */
  lemma RepeatedFilters(p: string, q: string, tests: seq<TestDescriptor>)
    ensures Kept(q, Kept(p, tests)) == Keep(n => Selected(p, n) && Selected(q, n), tests)
    ensures Kept(q, Kept(p, tests)) == Kept(p, Kept(q, tests))
    ensures Kept(p, Kept(p, tests)) == Kept(p, tests)
  {
    var f, g := Selection(p), Selection(q);
    KeepTwice(f, g, tests);
    KeepTwice(g, f, tests);
    KeepTwice(f, f, tests);
    KeepSame(n => f(n) && g(n), n => Selected(p, n) && Selected(q, n), tests);
    KeepSame(n => f(n) && g(n), n => g(n) && f(n), tests);
    KeepSame(n => f(n) && f(n), f, tests);
  }
}
