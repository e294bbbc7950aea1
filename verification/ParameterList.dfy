/**
 Splitting a parenthesised, comma separated parameter list
 (3rd/hayai/hayai_test_descriptor.hpp).

 The scanner knows quotes, escapes inside quotes, and brackets of four kinds that it counts
 without telling the kinds apart.
 */
module ParameterList {
  import opened Common

  // ---- Trimming -------------------------------------------------------------------------

  predicate IsBlank(c: char) {
    c == ' ' || c == '\r' || c == '\n' || c == '\t'
  }

  lemma BlankCharacters(c: char)
    ensures IsBlank(c) <==> c in " \r\n\t"
  {
    var s := " \r\n\t";
    assert s[0] == ' ' && s[1] == '\r' && s[2] == '\n' && s[3] == '\t';
  }

  function TrimLeft(s: string): string {
    if s != "" && IsBlank(s[0]) then TrimLeft(s[1..]) else s
  }

  function TrimRight(s: string): string {
    if s != "" && IsBlank(s[|s| - 1]) then TrimRight(s[..|s| - 1]) else s
  }

  function Trim(s: string): string {
    TrimRight(TrimLeft(s))
  }

  predicate AllBlank(s: string) {
    forall k | 0 <= k < |s| :: IsBlank(s[k])
  }

  /** Neither end is blank. */
  predicate Trimmed(s: string) {
    s != "" ==> !IsBlank(s[0]) && !IsBlank(s[|s| - 1])
  }

  /** Trimming removes blanks from the two ends, and all of them. */
  lemma {:induction false} TrimMeaning(s: string) returns (before: string, after: string)
    ensures s == before + Trim(s) + after
    ensures AllBlank(before) && AllBlank(after)
    ensures Trimmed(Trim(s))
  {
    before := LeftBlanks(s);
    after := RightBlanks(TrimLeft(s));
    if Trim(s) != "" { assert Trim(s)[0] == TrimLeft(s)[0]; }
  }

  lemma {:induction false} LeftBlanks(s: string) returns (before: string)
    ensures s == before + TrimLeft(s) && AllBlank(before)
    ensures TrimLeft(s) != "" ==> !IsBlank(TrimLeft(s)[0])
  {
    if s != "" && IsBlank(s[0]) {
      var b := LeftBlanks(s[1..]);
      before := [s[0]] + b;
    } else {
      before := "";
    }
  }

  lemma {:induction false} RightBlanks(s: string) returns (after: string)
    ensures s == TrimRight(s) + after && AllBlank(after)
    ensures TrimRight(s) != "" ==> !IsBlank(TrimRight(s)[|TrimRight(s)| - 1])
  {
    if s != "" && IsBlank(s[|s| - 1]) {
      var a := RightBlanks(s[..|s| - 1]);
      after := a + [s[|s| - 1]];
    } else {
      after := "";
    }
  }

  /** Trims the characters of `s` from `first` up to `last`. */
  method TrimmedString(s: string, first: nat, last: nat) returns (r: string)
    requires first <= last <= |s|
    ensures r == Trim(s[first..last])
  {
    var start, end := first, last;
    while start < end
      invariant first <= start <= end == last
      invariant TrimLeft(s[start..last]) == TrimLeft(s[first..last])
    {
      if !IsBlank(s[start]) { break; }
      assert s[start..last][1..] == s[start + 1..last];
      start := start + 1;
    }
    while end > start
      invariant start <= end <= last
      invariant TrimRight(s[start..end]) == Trim(s[first..last])
    {
      if !IsBlank(s[end - 1]) { break; }
      assert s[start..end][..end - start - 1] == s[start..end - 1];
      end := end - 1;
    }
    return s[start..end];
  }

  // ---- The scanner ----------------------------------------------------------------------

  datatype Quoting = Unquoted | SingleQuoted | DoubleQuoted

  datatype Scan = Scan(state: Quoting, depth: nat, escaped: bool)

  const START := Scan(Unquoted, 0, false)

  predicate AtRest(st: Scan) {
    st.state == Unquoted && st.depth == 0
  }

  predicate Opens(c: char) {
    c == '<' || c == '(' || c == '[' || c == '{'
  }

  predicate Closes(c: char) {
    c == '>' || c == ')' || c == ']' || c == '}'
  }

  /** The comma or parenthesis that ends an item. */
  predicate Stops(st: Scan, c: char) {
    AtRest(st) && (c == ',' || c == ')')
  }

  function Advance(st: Scan, c: char): Scan {
    if st.state == Unquoted then
      if c == '"' then Scan(DoubleQuoted, st.depth, false)
      else if c == '\'' then Scan(SingleQuoted, st.depth, false)
      else if Opens(c) then st.(depth := st.depth + 1)
      else if st.depth > 0 && Closes(c) then st.(depth := st.depth - 1)
      else st
    else if st.escaped then st.(escaped := false)
    else if c == '\\' then st.(escaped := true)
    else if c == (if st.state == DoubleQuoted then '"' else '\'') then st.(state := Unquoted)
    else st
  }

  /** Where the scan of `s` stops, if it does. */
  function StopAt(st: Scan, s: string): (r: Option<nat>)
    ensures r.Some? ==> r.value < |s|
    decreases |s|
  {
    if s == "" then None
    else if Stops(st, s[0]) then Some(0)
    else
      match StopAt(Advance(st, s[0]), s[1..])
      case None => None
      case Some(k) => Some(k + 1)
  }

  /** The state after all of `s`, if nothing in it stops the scan. */
  function Walk(st: Scan, s: string): Option<Scan>
    decreases |s|
  {
    if s == "" then Some(st)
    else if Stops(st, s[0]) then None
    else Walk(Advance(st, s[0]), s[1..])
  }

  /** The items of a list whose opening character is already gone. */
  function Items(s: string): seq<string> {
    if s == "" || s[0] == ')' then [] else
      match StopAt(START, s)
      case None => []
      case Some(k) => [Trim(s[..k])] + Items(s[k + 1..])
  }

  function Parse(s: string): seq<string> {
    if s == "" then [] else Items(s[1..])
  }

  /** The item at `first` ends behind its stop at `next`, or runs into the end of the text. */
  predicate EndsItem(s: string, first: nat, next: nat, stopped: bool)
    requires first <= |s|
  {
    match StopAt(START, s[first..])
    case Some(k) => stopped && next == first + k + 1
    case None => !stopped && next == |s|
  }

  /** One character of the scan. */
  lemma StopStep(st: Scan, s: string, i: nat)
    requires i < |s|
    ensures StopAt(st, s[i..]) ==
            if Stops(st, s[i]) then Some(0)
            else match StopAt(Advance(st, s[i]), s[i + 1..]) case None => None case Some(k) => Some(k + 1)
  {
    assert s[i..][1..] == s[i + 1..];
  }

  /** One item: scans from `first` to its end; `next` is the offset behind the stop. */
  method ScanItem(s: CString, first: nat) returns (next: nat, stopped: bool)
    requires first <= |s|
    ensures EndsItem(s, first, next, stopped)
  {
    hide StopAt;
    var escapeCounter: nat := 0;
    var state := Unquoted;
    var escaped := false;
    next := first;
    while next < |s|
      invariant first <= next <= |s|
      invariant var rest := StopAt(Scan(state, escapeCounter, escaped), s[next..]);
                StopAt(START, s[first..]) ==
                if rest.Some? then Some(next - first + rest.value) else None
    {
      var c := s[next];
      StopStep(Scan(state, escapeCounter, escaped), s, next);
      next := next + 1;
      if state == Unquoted {
        if c == '"' || c == '\'' {
          state := if c == '"' then DoubleQuoted else SingleQuoted;
          escaped := false;
        } else if Opens(c) {
          escapeCounter := escapeCounter + 1;
        } else if escapeCounter > 0 && Closes(c) {
          escapeCounter := escapeCounter - 1;
        } else if escapeCounter == 0 && (c == ',' || c == ')') {
          return next, true;
        }
      } else {
        if escaped {
          escaped := false;
        } else if c == '\\' {
          escaped := true;
        } else if c == (if state == DoubleQuoted then '"' else '\'') {
          state := Unquoted;
        }
      }
    }
    assert s[next..] == "";
    NothingStops(Scan(state, escapeCounter, escaped));
    return next, false;
  }

  lemma NothingStops(st: Scan)
    ensures StopAt(st, "") == None
  {
  }

  method ParseCommaSeparated(separated: CString) returns (result: seq<string>)
    ensures result == Parse(separated)
  {
    hide StopAt, Trim, Items, Parse, EndsItem;
    result := [];
    var at := 0;
    if separated != "" {
      at := 1;
    }
    ItemsStart(separated);
    ghost var whole := Parse(separated);
    while at < |separated| && separated[at] != ')'
      invariant at <= |separated|
      invariant whole == result + Items(separated[at..])
    {
      var next, stopped := ScanItem(separated, at);
      ItemsFrom(separated, at, next, stopped);
      if stopped {
        var item := TrimmedString(separated, at, next - 1);
        MoveItem(result, item, Items(separated[next..]));
        result := result + [item];
      }
      at := next;
    }
    ItemsEnd(separated, at);
  }

  lemma MoveItem(done: seq<string>, item: string, rest: seq<string>)
    ensures done + ([item] + rest) == (done + [item]) + rest
  {
  }

  lemma ItemsStart(s: string)
    ensures Parse(s) == Items(s[(if s == "" then 0 else 1)..])
  {
  }

  lemma ItemsEnd(s: string, at: nat)
    requires at == |s| || (at < |s| && s[at] == ')')
    ensures Items(s[at..]) == []
  {
  }

  lemma ItemsFrom(s: string, at: nat, next: nat, stopped: bool)
    requires at < |s| && s[at] != ')' && EndsItem(s, at, next, stopped)
    ensures at < next <= |s|
    ensures stopped ==> Items(s[at..]) == [Trim(s[at..next - 1])] + Items(s[next..])
    ensures !stopped ==> Items(s[at..]) == Items(s[next..]) == []
  {
    hide StopAt, Trim, Advance, Stops;
    var rest := s[at..];
    assert rest[0] == s[at];
    if stopped {
      assert rest[..next - 1 - at] == s[at..next - 1];
      assert rest[next - at..] == s[next..];
    } else {
      assert s[next..] == "";
    }
  }

  // ---- Printing and parsing back --------------------------------------------------------

  /** What follows the opening parenthesis when `items` are printed. */
  function PrintTail(items: seq<string>): string {
    if items == [] then ")"
    else if |items| == 1 then items[0] + ")"
    else items[0] + ", " + PrintTail(items[1..])
  }

  function Print(items: seq<string>): string {
    "(" + PrintTail(items)
  }

  /** A trimmed text that the scanner crosses without stopping, ending unquoted at depth zero. */
  predicate Clean(item: string) {
    && Trimmed(item)
    && Walk(START, item).Some?
    && AtRest(Walk(START, item).value)
  }

  predicate AllClean(items: seq<string>) {
    forall k | 0 <= k < |items| :: Clean(items[k])
  }

  lemma {:induction false} WalkAppend(st: Scan, a: string, b: string)
    ensures Walk(st, a + b) ==
            if Walk(st, a).Some? then Walk(Walk(st, a).value, b) else None
    decreases |a|
  {
    if a == "" {
      assert a + b == b;
    } else {
      assert (a + b)[1..] == a[1..] + b;
      WalkAppend(Advance(st, a[0]), a[1..], b);
    }
  }

  /** The scan goes on behind a text that does not stop it. */
  lemma {:induction false} StopBehind(st: Scan, a: string, b: string)
    requires Walk(st, a).Some?
    ensures StopAt(st, a + b) ==
            match StopAt(Walk(st, a).value, b) case None => None case Some(k) => Some(|a| + k)
    decreases |a|
  {
    if a == "" {
      assert a + b == b;
    } else {
      assert (a + b)[1..] == a[1..] + b;
      StopBehind(Advance(st, a[0]), a[1..], b);
    }
  }

  /** What is in front of a stop does not stop the scan and leaves it at rest. */
  lemma {:induction false} BeforeStop(st: Scan, s: string, k: nat)
    requires StopAt(st, s) == Some(k)
    ensures Walk(st, s[..k]).Some? && AtRest(Walk(st, s[..k]).value)
    decreases k
  {
    if !Stops(st, s[0]) {
      assert s[..k][1..] == s[1..][..k - 1];
      BeforeStop(Advance(st, s[0]), s[1..], k - 1);
    }
  }

  /** Blanks change nothing outside quotes, and cannot end a quote. */
  lemma {:induction false} WalkBlanks(st: Scan, b: string)
    requires AllBlank(b)
    ensures Walk(st, b).Some?
    ensures st.state == Unquoted ==> Walk(st, b).value == st
    ensures AtRest(Walk(st, b).value) <==> AtRest(st)
    decreases |b|
  {
    if b != "" { WalkBlanks(Advance(st, b[0]), b[1..]); }
  }

  lemma {:induction false} TrimOnlyBlanks(a: string, s: string)
    requires AllBlank(a) && Trimmed(s)
    ensures Trim(a + s) == s
  {
    if a == "" {
      assert a + s == s;
    } else {
      assert (a + s)[1..] == a[1..] + s;
      TrimOnlyBlanks(a[1..], s);
    }
  }

  lemma TrimmedIsClean(raw: string)
    requires Walk(START, raw).Some? && AtRest(Walk(START, raw).value)
    ensures Clean(Trim(raw))
  {
    var before, after := TrimMeaning(raw);
    WalkAppend(START, before + Trim(raw), after);
    WalkAppend(START, before, Trim(raw));
    WalkBlanks(START, before);
    WalkBlanks(Walk(START, Trim(raw)).value, after);
  }

  /** Every item the splitter returns is clean, whatever the input. */
  lemma {:induction false} ItemsAreClean(s: string)
    ensures AllClean(Items(s))
  {
    if s != "" && s[0] != ')' && StopAt(START, s).Some? {
      var k := StopAt(START, s).value;
      BeforeStop(START, s, k);
      TrimmedIsClean(s[..k]);
      ItemsAreClean(s[k + 1..]);
    }
  }

  /** One clean item, a separator and the rest. */
  lemma {:induction false} ItemsCons(pre: string, item: string, stop: char, rest: string)
    requires pre == "" || pre == " "
    requires Clean(item) && (stop == ',' || stop == ')')
    requires !(pre == "" && item == "" && stop == ')')
    ensures Items(pre + item + [stop] + rest) == [item] + Items(rest)
    ensures rest == "" ==> Items(rest) == []
  {
    var s := pre + item + [stop] + rest;
    var head := pre + item;
    WalkAppend(START, pre, item);
    WalkBlanks(START, pre);
    assert s == head + ([stop] + rest);
    StopBehind(START, head, [stop] + rest);
    assert StopAt(START, s) == Some(|head|);
    assert s[..|head|] == head && s[|head| + 1..] == rest;
    TrimOnlyBlanks(pre, item);
    if pre == "" && item != "" { assert s[0] == item[0]; }
  }

  lemma {:induction false} ParseTail(pre: string, items: seq<string>)
    requires pre == "" || pre == " "
    requires items != [] && AllClean(items)
    requires pre == " " || items != [""]
    ensures Items(pre + PrintTail(items)) == items
    decreases |items|
  {
    hide Items, Clean;
    if |items| == 1 {
      ItemsCons(pre, items[0], ')', "");
      assert pre + PrintTail(items) == pre + items[0] + [')'] + "";
    } else {
      var rest := " " + PrintTail(items[1..]);
      ItemsCons(pre, items[0], ',', rest);
      assert pre + PrintTail(items) == pre + items[0] + [','] + rest;
      ParseTail(" ", items[1..]);
    }
  }

  /**
   Printing a list and splitting it again gives the list back exactly when every item is
   clean and the list is not the one empty item.
   */
  lemma RoundTrip(items: seq<string>)
    ensures Parse(Print(items)) == items <==> AllClean(items) && items != [""]
  {
    assert Print(items)[1..] == PrintTail(items);
    ItemsAreClean(PrintTail(items));
    if items == [] {
    } else if AllClean(items) && items != [""] {
      ParseTail("", items);
      assert "" + PrintTail(items) == PrintTail(items);
    } else if items == [""] {
      assert PrintTail(items) == ")";
    }
  }

  /** Printed C strings make a C string, so the splitter can be given them. */
  lemma {:induction false} PrintIsCString(items: seq<CString>)
    ensures '\0' !in PrintTail(items) && '\0' !in Print(items)
  {
    if |items| > 1 { PrintIsCString(items[1..]); }
  }

  /** What the splitter returns are C strings. */
  lemma {:induction false} ItemsAreCStrings(s: CString)
    ensures forall k | 0 <= k < |Items(s)| :: '\0' !in Items(s)[k]
  {
    if s != "" && s[0] != ')' && StopAt(START, s).Some? {
      var k := StopAt(START, s).value;
      var before, after := TrimMeaning(s[..k]);
      assert forall c | c in Trim(s[..k]) :: c in before + Trim(s[..k]) + after;
      ItemsAreCStrings(s[k + 1..]);
    }
  }

  // ---- What is quoted or bracketed is not split -----------------------------------------

  /** A text by its structure: characters, quotes with their escapes, and brackets around texts. */
  datatype Node =
    | Plain(c: char)
    | Quote(mark: char, body: seq<Quoted>)
    | Group(opening: char, inner: seq<Node>, closing: char)

  /** A character inside quotes, behind a backslash or not. */
  datatype Quoted = Bare(c: char) | Escape(c: char)

  function QuotedText(body: seq<Quoted>): string {
    if body == [] then "" else
      (match body[0] case Bare(c) => [c] case Escape(c) => ['\\', c]) + QuotedText(body[1..])
  }

  function NodeText(n: Node): string
    decreases n, 1
  {
    match n
    case Plain(c) => [c]
    case Quote(mark, body) => [mark] + QuotedText(body) + [mark]
    case Group(opening, inner, closing) => [opening] + Text(inner) + [closing]
  }

  function Text(nodes: seq<Node>): string
    decreases nodes, 0
  {
    if nodes == [] then "" else NodeText(nodes[0]) + Text(nodes[1..])
  }

  /** Inside quotes anything may stand, but the mark and the backslash only behind a backslash. */
  predicate ProperQuote(mark: char, body: seq<Quoted>) {
    && (mark == '"' || mark == '\'')
    && forall k | 0 <= k < |body| :: body[k].Bare? ==> body[k].c != mark && body[k].c != '\\'
  }

  /**
   Brackets of four kinds, which need not match in kind; inside them commas are free, outside
   them commas and closing parentheses are not.
   */
  predicate ProperNode(n: Node, inside: bool)
    decreases n, 1
  {
    match n
    case Plain(c) =>
      && c !in "\"'<([{"
      && c !in (if inside then ">)]}" else ",)")
    case Quote(mark, body) => ProperQuote(mark, body)
    case Group(opening, inner, closing) => opening in "<([{" && closing in ">)]}" && Proper(inner, true)
  }

  predicate Proper(nodes: seq<Node>, inside: bool)
    decreases nodes, 0
  {
    nodes == [] || (ProperNode(nodes[0], inside) && Proper(nodes[1..], inside))
  }

  /** From depth `depth` the scanner crosses `s` and is back outside quotes at that depth. */
  predicate CrossedFrom(depth: nat, escaped: bool, s: string) {
    match Walk(Scan(Unquoted, depth, escaped), s)
    case None => false
    case Some(end) => end.state == Unquoted && end.depth == depth
  }

  predicate Crosses(depth: nat, s: string) {
    forall escaped: bool :: CrossedFrom(depth, escaped, s)
  }

  function Inside(mark: char): Quoting {
    if mark == '"' then DoubleQuoted else SingleQuoted
  }

  lemma {:induction false} QuoteIsCrossed(depth: nat, mark: char, body: seq<Quoted>)
    requires ProperQuote(mark, body)
    ensures Walk(Scan(Inside(mark), depth, false), QuotedText(body)) == Some(Scan(Inside(mark), depth, false))
    decreases |body|
  {
    hide Walk;
    var st := Scan(Inside(mark), depth, false);
    if body == [] {
      NothingWalked(st);
    } else {
      var rest := QuotedText(body[1..]);
      QuoteIsCrossed(depth, mark, body[1..]);
      match body[0]
      case Bare(c) => WalkOne(st, c, rest);
      case Escape(c) =>
        assert ['\\', c] + rest == ['\\'] + ([c] + rest);
        WalkOne(st, '\\', [c] + rest);
        WalkOne(Scan(Inside(mark), depth, true), c, rest);
    }
  }

  lemma NothingWalked(st: Scan)
    ensures Walk(st, "") == Some(st)
  {
  }

  lemma WalkOne(st: Scan, c: char, rest: string)
    ensures Walk(st, [c] + rest) == if Stops(st, c) then None else Walk(Advance(st, c), rest)
  {
    assert ([c] + rest)[1..] == rest;
  }

  lemma CrossesBoth(depth: nat, a: string, b: string)
    requires Crosses(depth, a) && Crosses(depth, b)
    ensures Crosses(depth, a + b)
  {
    forall escaped: bool ensures CrossedFrom(depth, escaped, a + b) {
      assert CrossedFrom(depth, escaped, a);
      var mid := CrossedBoth(depth, escaped, a, b);
      assert CrossedFrom(depth, mid, b);
    }
  }

  lemma CrossedBoth(depth: nat, escaped: bool, a: string, b: string) returns (mid: bool)
    requires CrossedFrom(depth, escaped, a)
    ensures CrossedFrom(depth, mid, b) ==> CrossedFrom(depth, escaped, a + b)
  {
    hide Walk;
    var st := Scan(Unquoted, depth, escaped);
    WalkAppend(st, a, b);
    mid := Walk(st, a).value.escaped;
    assert Walk(st, a).value == Scan(Unquoted, depth, mid);
  }

  lemma {:induction false} NodeIsCrossed(n: Node, depth: nat)
    requires ProperNode(n, depth > 0)
    ensures Crosses(depth, NodeText(n))
    decreases n, 1
  {
    hide Walk, CrossedFrom;
    forall escaped: bool ensures CrossedFrom(depth, escaped, NodeText(n)) {
      match n
      case Plain(c) => PlainIsCrossed(depth, escaped, c);
      case Quote(mark, body) =>
        QuoteIsCrossed(depth, mark, body);
        QuotesAreCrossed(depth, escaped, mark, QuotedText(body));
      case Group(opening, inner, closing) =>
        TextIsCrossed(inner, depth + 1);
        assert CrossedFrom(depth + 1, escaped, Text(inner));
        GroupIsCrossed(depth, escaped, opening, Text(inner), closing);
    }
  }

  lemma PlainIsCrossed(depth: nat, escaped: bool, c: char)
    requires ProperNode(Plain(c), depth > 0)
    ensures CrossedFrom(depth, escaped, [c])
  {
    var special, closing, ending := "\"'<([{", ">)]}", ",)";
    assert special[0] == '"' && special[1] == '\'' && special[2] == '<' && special[3] == '(';
    assert special[4] == '[' && special[5] == '{' && ending[0] == ',' && ending[1] == ')';
    assert closing[0] == '>' && closing[1] == ')' && closing[2] == ']' && closing[3] == '}';
    var st := Scan(Unquoted, depth, escaped);
    hide Walk;
    assert [c] + "" == [c];
    WalkOne(st, c, "");
    NothingWalked(Advance(st, c));
  }

  lemma QuotesAreCrossed(depth: nat, escaped: bool, mark: char, s: string)
    requires mark == '"' || mark == '\''
    requires Walk(Scan(Inside(mark), depth, false), s) == Some(Scan(Inside(mark), depth, false))
    ensures CrossedFrom(depth, escaped, [mark] + s + [mark])
  {
    hide Walk;
    BehindFirst(Scan(Unquoted, depth, escaped), mark, s, mark);
  }

  lemma GroupIsCrossed(depth: nat, escaped: bool, opening: char, s: string, closing: char)
    requires opening in "<([{" && closing in ">)]}" && CrossedFrom(depth + 1, escaped, s)
    ensures CrossedFrom(depth, escaped, [opening] + s + [closing])
  {
    hide Walk;
    BehindFirst(Scan(Unquoted, depth, escaped), opening, s, closing);
  }

  /** A text with a first and a last character that do not stop the scan. */
  lemma BehindFirst(st: Scan, first: char, middle: string, last: char)
    requires !Stops(st, first) && Walk(Advance(st, first), middle).Some?
    ensures var mid := Walk(Advance(st, first), middle).value;
            !Stops(mid, last) ==> Walk(st, [first] + middle + [last]) == Some(Advance(mid, last))
  {
    hide Advance;
    var mid := Walk(Advance(st, first), middle).value;
    WalkAppend(Advance(st, first), middle, [last]);
    assert ([first] + middle + [last])[1..] == middle + [last];
    assert [last][1..] == "";
  }

  lemma {:induction false} TextIsCrossed(nodes: seq<Node>, depth: nat)
    requires Proper(nodes, depth > 0)
    ensures Crosses(depth, Text(nodes))
    decreases nodes, 0
  {
    hide Crosses, NodeText;
    if nodes == [] {
      NothingIsCrossed(depth);
    } else {
      NodeIsCrossed(nodes[0], depth);
      TextIsCrossed(nodes[1..], depth);
      CrossesBoth(depth, NodeText(nodes[0]), Text(nodes[1..]));
    }
  }

  lemma NothingIsCrossed(depth: nat)
    ensures Crosses(depth, "")
  {
  }

  /** A trimmed text of proper structure is one item, commas and parentheses inside it included. */
  lemma StructuredIsClean(nodes: seq<Node>)
    requires Proper(nodes, false) && Trimmed(Text(nodes))
    ensures Clean(Text(nodes))
  {
    TextIsCrossed(nodes, 0);
    hide Walk;
    assert CrossedFrom(0, false, Text(nodes));
  }

  /** Splitting, printing and splitting again changes nothing more, short of one empty item. */
  lemma Normalises(s: string)
    ensures Parse(s) != [""] ==> Parse(Print(Parse(s))) == Parse(s)
    ensures Parse(s) == [""] ==> Parse(Print(Parse(s))) == []
  {
    if s != "" { ItemsAreClean(s[1..]); }
    RoundTrip(Parse(s));
    if Parse(s) == [""] { assert Print([""])[1..] == ")"; }
  }
}
