/**
 Word wrapping into columns (3rd/Clara/include/clara.hpp, namespace TextFlow).

 A column holds one text; its iterator cuts the text into lines of at most `width`
 characters. Several columns are laid out side by side, row by row.
 */
module ColumnWrap {
  import opened Common

  // ---- Where a line may be broken -------------------------------------------------------

  predicate IsWhitespace(c: char) {
    c == ' ' || c == '\t' || c == '\n' || c == '\r'
  }

  predicate IsBreakableBefore(c: char) {
    c == '[' || c == '(' || c == '{' || c == '<' || c == '|'
  }

  predicate IsBreakableAfter(c: char) {
    || c == ']' || c == ')' || c == '}' || c == '>' || c == '.' || c == ',' || c == ':' || c == ';'
    || c == '*' || c == '+' || c == '-' || c == '=' || c == '&' || c == '/' || c == '\\'
  }

  predicate IsBoundary(text: string, at: nat)
    requires 0 < at <= |text|
  {
    || at == |text|
    || (IsWhitespace(text[at]) && !IsWhitespace(text[at - 1]))
    || IsBreakableBefore(text[at])
    || IsBreakableAfter(text[at - 1])
  }

  /**
   Inside a text a line may be broken where blanks begin, before an opening character and
   behind a closing or joining one; between two other characters it may not.
   */
  lemma BoundaryMeaning(text: string, at: nat)
    requires 0 < at < |text|
    ensures var blanks, opening, joining := " \t\n\r", "[({<|", "])}>.,:;*+-=&/\\";
            IsBoundary(text, at) <==>
            || (text[at] in blanks && text[at - 1] !in blanks)
            || text[at] in opening
            || text[at - 1] in joining
  {
    BlankCharacters(text[at]);
    BlankCharacters(text[at - 1]);
    OpeningCharacters(text[at]);
    JoiningCharacters(text[at - 1]);
    hide IsWhitespace, IsBreakableBefore, IsBreakableAfter;
  }

  lemma BlankCharacters(c: char)
    ensures IsWhitespace(c) <==> c in " \t\n\r"
  {
    var s := " \t\n\r";
    assert s[0] == ' ' && s[1] == '\t' && s[2] == '\n' && s[3] == '\r';
  }

  lemma OpeningCharacters(c: char)
    ensures IsBreakableBefore(c) <==> c in "[({<|"
  {
    var s := "[({<|";
    assert s[0] == '[' && s[1] == '(' && s[2] == '{' && s[3] == '<' && s[4] == '|';
  }

  lemma JoiningCharacters(c: char)
    ensures IsBreakableAfter(c) <==> c in "])}>.,:;*+-=&/\\"
  {
    var s := "])}>.,:;*+-=&/\\";
    assert s[0] == ']' && s[1] == ')' && s[2] == '}' && s[3] == '>' && s[4] == '.' && s[5] == ',';
    assert s[6] == ':' && s[7] == ';' && s[8] == '*' && s[9] == '+' && s[10] == '-';
    assert s[11] == '=' && s[12] == '&' && s[13] == '/' && s[14] == '\\';
  }

  datatype Column = Column(text: string, width: nat, indent: nat, initialIndent: Option<nat>) {
    /** What the iterator asserts about a column. */
    predicate WellSized() {
      indent < width && (initialIndent.Some? ==> initialIndent.value < width)
    }

    function IndentAt(pos: nat): nat {
      if pos == 0 && initialIndent.Some? then initialIndent.value else indent
    }

    /** Characters left on a line behind its indent. */
    function Avail(pos: nat): (r: nat)
      requires WellSized()
      ensures 0 < r && IndentAt(pos) + r == width
    {
      width - IndentAt(pos)
    }
  }

  /** One line: `len` characters of the text from `from`, behind an indent, perhaps hyphenated. */
  datatype Piece = Piece(from: nat, len: nat, indent: nat, hyphen: bool)

  // ---- The length of a line -------------------------------------------------------------

  /** The end of the paragraph `pos` lies in. */
  function LineEnd(text: string, pos: nat): (r: nat)
    requires pos <= |text|
    ensures pos <= r <= |text|
    ensures forall k | pos <= k < r :: text[k] != '\n'
    ensures r < |text| ==> text[r] == '\n'
    decreases |text| - pos
  {
    if pos < |text| && text[pos] != '\n' then LineEnd(text, pos + 1) else pos
  }

  /** The last boundary within `len` characters. */
  function BreakLen(text: string, pos: nat, len: nat): (r: nat)
    requires pos + len <= |text|
    ensures r <= len && (r > 0 ==> IsBoundary(text, pos + r))
    ensures forall at | pos + r < at <= pos + len :: !IsBoundary(text, at)
  {
    if len > 0 && !IsBoundary(text, pos + len) then BreakLen(text, pos, len - 1) else len
  }

  /** `len` without the blanks at its end. */
  function TrimLen(text: string, pos: nat, len: nat): (r: nat)
    requires pos + len <= |text|
    ensures r <= len && (r > 0 ==> !IsWhitespace(text[pos + r - 1]))
    ensures forall k | pos + r <= k < pos + len :: IsWhitespace(text[k])
  {
    if len > 0 && IsWhitespace(text[pos + len - 1]) then TrimLen(text, pos, len - 1) else len
  }

  function Measure(col: Column, pos: nat): (p: Piece)
    requires col.WellSized() && pos <= |col.text|
    ensures p.from == pos && pos + p.len <= LineEnd(col.text, pos)
  {
    var avail, end := col.Avail(pos), LineEnd(col.text, pos);
    if end < pos + avail then
      Piece(pos, end - pos, col.IndentAt(pos), false)
    else
      var len := TrimLen(col.text, pos, BreakLen(col.text, pos, avail));
      if len > 0 then Piece(pos, len, col.IndentAt(pos), false)
      else Piece(pos, avail - 1, col.IndentAt(pos), true)
  }

  /** A line may end at `at`: it is a boundary, and not behind a blank. */
  predicate Usable(text: string, at: nat)
    requires 0 < at <= |text|
  {
    IsBoundary(text, at) && !IsWhitespace(text[at - 1])
  }

  /**
   The line is the rest of the paragraph when that leaves a character free; otherwise it
   ends at the last usable place that fits, and it is hyphenated exactly when there is none.
   */
  lemma MeasureMeaning(col: Column, pos: nat)
    requires col.WellSized() && pos <= |col.text|
    ensures var p, last, end := Measure(col, pos), pos + col.Avail(pos), LineEnd(col.text, pos);
            if end < last then p.len == end - pos && !p.hyphen else
              && (p.hyphen <==> forall at | pos < at <= last :: !Usable(col.text, at))
              && (p.hyphen ==> p.len == last - pos - 1)
              && (!p.hyphen ==> 0 < p.len <= last - pos && Usable(col.text, pos + p.len)
                                && forall at | pos + p.len < at <= last :: !Usable(col.text, at))
  {
    hide Usable, IsBoundary, LineEnd, BreakLen, TrimLen;
    if pos + col.Avail(pos) <= LineEnd(col.text, pos) {
      TrimmedBreak(col.text, pos, col.Avail(pos));
    }
  }

  /** The last boundary without the blanks in front of it is the last usable place. */
  lemma TrimmedBreak(text: string, pos: nat, avail: nat)
    requires pos + avail <= |text|
    ensures var len := TrimLen(text, pos, BreakLen(text, pos, avail));
            && (forall at | pos + len < at <= pos + avail :: !Usable(text, at))
            && (len > 0 ==> Usable(text, pos + len))
  {
    var b := BreakLen(text, pos, avail);
    var len := TrimLen(text, pos, b);
    forall at | pos + len < at <= pos + avail ensures !Usable(text, at) {
      if at <= pos + b { assert IsWhitespace(text[at - 1]); }
    }
    if 0 < len < b { assert IsWhitespace(text[pos + len]); }
  }

  // ---- From one line to the next --------------------------------------------------------

  function SkipBlanks(text: string, pos: nat): (r: nat)
    requires pos <= |text|
    ensures pos <= r <= |text|
    ensures forall k | pos <= k < r :: IsWhitespace(text[k])
    ensures r < |text| ==> !IsWhitespace(text[r])
    decreases |text| - pos
  {
    if pos < |text| && IsWhitespace(text[pos]) then SkipBlanks(text, pos + 1) else pos
  }

  /** The position `++` moves to. */
  function NextPos(col: Column, pos: nat): (r: nat)
    requires col.WellSized() && pos <= |col.text|
    ensures r <= |col.text|
    ensures var e := pos + Measure(col, pos).len;
            e <= r && forall k | e <= k < r :: IsWhitespace(col.text[k])
  {
    var e := pos + Measure(col, pos).len;
    if e < |col.text| && col.text[e] == '\n' then e + 1 else SkipBlanks(col.text, e)
  }

  /** With a single character to spare and no break behind the next one there is no way on. */
  predicate Stuck(col: Column, pos: nat)
    requires col.WellSized() && pos < |col.text|
  {
    && col.Avail(pos) == 1
    && !IsWhitespace(col.text[pos])
    && !IsBoundary(col.text, pos + 1)
  }

  lemma ProgressUnlessStuck(col: Column, pos: nat)
    requires col.WellSized() && pos < |col.text|
    ensures NextPos(col, pos) > pos <==> !Stuck(col, pos)
  {
    MeasureMeaning(col, pos);
    var p := Measure(col, pos);
    if p.len == 0 && LineEnd(col.text, pos) >= pos + col.Avail(pos) {
      assert !Usable(col.text, pos + 1);
    }
    if Stuck(col, pos) { assert col.text[pos] != '\n' && p.len == 0; }
  }

  // ---- When iterating ends --------------------------------------------------------------

  /** A line may end behind every visible character from `from` on. */
  predicate BreaksEverywhere(text: string, from: nat) {
    forall p | from <= p < |text| :: IsWhitespace(text[p]) || IsBoundary(text, p + 1)
  }

  /**
   What it takes for the iteration over the lines to end: no first line, two characters
   behind the indent, or a text that can be broken everywhere behind its first line.
   */
  predicate Terminates(col: Column)
    requires col.WellSized()
  {
    || Measure(col, 0).len == 0
    || col.indent + 2 <= col.width
    || BreaksEverywhere(col.text, NextPos(col, 0))
  }

  predicate ClearFrom(col: Column, from: nat)
    requires col.WellSized()
  {
    forall p | from <= p < |col.text| :: !Stuck(col, p)
  }

  /** Neither the line at `pos` nor any position behind it is stuck. */
  predicate Free(col: Column, pos: nat)
    requires col.WellSized() && pos <= |col.text|
  {
    pos < |col.text| ==> !Stuck(col, pos) && ClearFrom(col, NextPos(col, pos))
  }

  lemma FreeStep(col: Column, pos: nat)
    requires col.WellSized() && pos < |col.text| && Free(col, pos)
    ensures NextPos(col, pos) > pos && Free(col, NextPos(col, pos))
  {
    hide Measure, Stuck;
    ProgressUnlessStuck(col, pos);
  }

  /** A first line is never stuck, so the condition on the text clears the whole way. */
  lemma FreeFromStart(col: Column)
    requires col.WellSized() && Measure(col, 0).len > 0
    ensures Terminates(col) <==> Free(col, 0)
  {
    hide Measure, IsBoundary, IsWhitespace;
    ProgressUnlessStuck(col, 0);
    var next := NextPos(col, 0);
    assert forall p | next <= p < |col.text| :: col.Avail(p) == col.width - col.indent;
    if Free(col, 0) && col.indent + 2 > col.width {
      forall p | next <= p < |col.text| ensures IsWhitespace(col.text[p]) || IsBoundary(col.text, p + 1) {
        assert !Stuck(col, p);
      }
    }
  }

  /** The position after `n` times `++`, short of the end of the text. */
  function PosAfter(col: Column, n: nat): (r: nat)
    requires col.WellSized()
    ensures r <= |col.text|
  {
    if n == 0 then 0 else
      var p := PosAfter(col, n - 1);
      if p < |col.text| then NextPos(col, p) else p
  }

  lemma {:induction false} EndIsReached(col: Column, n: nat) returns (m: nat)
    requires col.WellSized() && Free(col, PosAfter(col, n))
    ensures PosAfter(col, m) == |col.text|
    decreases |col.text| - PosAfter(col, n)
  {
    hide NextPos, Measure, Stuck, Free;
    var p := PosAfter(col, n);
    if p == |col.text| {
      return n;
    }
    FreeStep(col, p);
    assert PosAfter(col, n + 1) == NextPos(col, p);
    m := EndIsReached(col, n + 1);
  }

  /** Behind the first line no step jumps over a stuck position: only blanks lie between two lines. */
  lemma NoStepOver(col: Column, pos: nat, p: nat)
    requires col.WellSized() && 0 < pos <= p < |col.text| && Stuck(col, p)
    ensures NextPos(col, pos) <= p
  {
    ProgressUnlessStuck(col, p);
    hide LineEnd, SkipBlanks, IsBoundary, Measure;
    MeasureMeaning(col, pos);
    assert col.Avail(pos) == 1;
  }

  lemma {:induction false} HeldUp(col: Column, p: nat, n: nat)
    requires col.WellSized() && Measure(col, 0).len > 0
    requires NextPos(col, 0) <= p < |col.text| && Stuck(col, p)
    ensures PosAfter(col, n) <= p && (n > 0 ==> PosAfter(col, n) > 0)
    decreases n
  {
    hide NextPos, Measure, Stuck;
    if n == 1 {
      assert PosAfter(col, 1) == NextPos(col, 0) >= Measure(col, 0).len;
    } else if n > 1 {
      HeldUp(col, p, n - 1);
      NoStepOver(col, PosAfter(col, n - 1), p);
    }
  }

  /** The condition on the text is exact: without it `++` never gets to the end of the text. */
  lemma EndsExactly(col: Column)
    requires col.WellSized()
    ensures Terminates(col) <==> Measure(col, 0).len == 0 || exists n :: PosAfter(col, n) == |col.text|
  {
    hide Measure, NextPos, Stuck, Terminates;
    if Measure(col, 0).len > 0 {
      FreeFromStart(col);
      if Free(col, 0) {
        var _ := EndIsReached(col, 0);
      } else {
        FirstIsNotStuck(col);
        var p :| NextPos(col, 0) <= p < |col.text| && Stuck(col, p);
        forall n ensures PosAfter(col, n) < |col.text| { HeldUp(col, p, n); }
      }
    } else {
      NothingEnds(col);
    }
  }

  lemma FirstIsNotStuck(col: Column)
    requires col.WellSized() && Measure(col, 0).len > 0
    ensures !Stuck(col, 0)
  {
    ProgressUnlessStuck(col, 0);
  }

  lemma NothingEnds(col: Column)
    requires col.WellSized() && Measure(col, 0).len == 0
    ensures Terminates(col)
  {
  }

  /** No position behind the first line can be stuck. */
  predicate NeverStuck(col: Column)
    requires col.WellSized()
  {
    forall p | 0 < p < |col.text| :: !Stuck(col, p)
  }

  /** Two characters behind the indent are always enough, for every line and to the end. */
  lemma TwoAreEnough(col: Column)
    requires col.WellSized() && col.indent + 2 <= col.width
    ensures NeverStuck(col)
    ensures Measure(col, 0).len == 0 || exists n :: PosAfter(col, n) == |col.text|
  {
    hide Measure, NextPos, PosAfter;
    EndsExactly(col);
  }

  // ---- All lines ------------------------------------------------------------------------

  function PiecesFrom(col: Column, pos: nat): seq<Piece>
    requires col.WellSized() && pos < |col.text| && Free(col, pos)
    requires pos == 0 ==> Measure(col, 0).len > 0
    decreases |col.text| - pos
  {
    FreeStep(col, pos);
    var next := NextPos(col, pos);
    [Measure(col, pos)] + if next < |col.text| then PiecesFrom(col, next) else []
  }

  /** The lines of a column; none when the first would be empty. */
  function Pieces(col: Column): seq<Piece>
    requires col.WellSized() && Terminates(col)
  {
    if Measure(col, 0).len == 0 then [] else
      FreeFromStart(col);
      PiecesFrom(col, 0)
  }

  function Spaces(n: nat): (r: string)
    ensures |r| == n && forall k | 0 <= k < n :: r[k] == ' '
  {
    seq(n, _ => ' ')
  }

  predicate InText(text: string, p: Piece) {
    p.from + p.len <= |text|
  }

  function Cut(text: string, p: Piece): string
    requires InText(text, p)
  {
    text[p.from..p.from + p.len]
  }

  function Render(text: string, p: Piece): string
    requires InText(text, p)
  {
    Spaces(p.indent) + Cut(text, p) + if p.hyphen then "-" else ""
  }

  ghost predicate AllInText(text: string, ps: seq<Piece>) {
    forall i | 0 <= i < |ps| :: InText(text, ps[i])
  }

  function Lines(text: string, ps: seq<Piece>): (r: seq<string>)
    requires AllInText(text, ps)
    ensures |r| == |ps| && forall i | 0 <= i < |ps| :: r[i] == Render(text, ps[i])
  {
    if ps == [] then [] else [Render(text, ps[0])] + Lines(text, ps[1..])
  }

  /** The text of the pieces without indents and hyphens. */
  function Content(text: string, ps: seq<Piece>): string
    requires AllInText(text, ps)
  {
    if ps == [] then "" else Cut(text, ps[0]) + Content(text, ps[1..])
  }

  predicate FitsLine(col: Column, p: Piece) {
    && InText(col.text, p)
    && |Render(col.text, p)| <= col.width
    && '\n' !in Render(col.text, p)
  }

  lemma MeasureFits(col: Column, pos: nat)
    requires col.WellSized() && pos <= |col.text|
    ensures FitsLine(col, Measure(col, pos))
  {
    hide LineEnd, BreakLen, TrimLen, Usable;
    MeasureMeaning(col, pos);
  }

  lemma {:induction false} PiecesFit(col: Column, pos: nat)
    requires col.WellSized() && pos < |col.text| && Free(col, pos)
    requires pos == 0 ==> Measure(col, 0).len > 0
    ensures forall i | 0 <= i < |PiecesFrom(col, pos)| :: FitsLine(col, PiecesFrom(col, pos)[i])
    decreases |col.text| - pos
  {
    MeasureFits(col, pos);
    FreeStep(col, pos);
    if NextPos(col, pos) < |col.text| { PiecesFit(col, NextPos(col, pos)); }
  }

  /** Every line is at most `width` long and is one line. */
  lemma LinesFit(col: Column)
    requires col.WellSized() && Terminates(col)
    ensures AllInText(col.text, Pieces(col))
    ensures forall i | 0 <= i < |Pieces(col)| :: FitsLine(col, Pieces(col)[i])
  {
    hide Measure, Free, Terminates;
    if Measure(col, 0).len > 0 {
      FreeFromStart(col);
      PiecesFit(col, 0);
    }
  }

  // ---- Nothing visible is lost ----------------------------------------------------------

  function Visible(s: string): string {
    if s == "" then "" else (if IsWhitespace(s[0]) then "" else [s[0]]) + Visible(s[1..])
  }

  lemma {:induction false} VisibleAppend(a: string, b: string)
    ensures Visible(a + b) == Visible(a) + Visible(b)
  {
    if a == "" {
      assert a + b == b;
    } else {
      assert (a + b)[1..] == a[1..] + b;
      VisibleAppend(a[1..], b);
    }
  }

  lemma {:induction false} VisibleNothing(s: string)
    ensures Visible(s) == "" <==> forall k | 0 <= k < |s| :: IsWhitespace(s[k])
  {
    if s != "" { VisibleNothing(s[1..]); }
  }

  lemma {:induction false} ContentFrom(col: Column, pos: nat)
    requires col.WellSized() && pos < |col.text| && Free(col, pos)
    requires pos == 0 ==> Measure(col, 0).len > 0
    ensures AllInText(col.text, PiecesFrom(col, pos))
    ensures Visible(Content(col.text, PiecesFrom(col, pos))) == Visible(col.text[pos..])
    decreases |col.text| - pos
  {
    hide Visible, Measure, NextPos, LineEnd, Stuck, IsWhitespace, IsBoundary, Render, Content;
    FreeStep(col, pos);
    var text, p, next := col.text, Measure(col, pos), NextPos(col, pos);
    assert Cut(text, p) == text[pos..pos + p.len];
    VisibleAcross(text, pos, pos + p.len, next);
    var rest := if next < |text| then PiecesFrom(col, next) else [];
    assert PiecesFrom(col, pos) == [p] + rest;
    if next < |text| {
      ContentFrom(col, next);
    } else {
      ContentEmpty(text);
      assert text[next..] == "";
    }
    ContentCons(text, p, rest);
  }

  lemma ContentEmpty(text: string)
    ensures Visible("") == Visible(Content(text, [])) == ""
  {
  }

  lemma ContentCons(text: string, p: Piece, rest: seq<Piece>)
    requires InText(text, p) && AllInText(text, rest)
    ensures AllInText(text, [p] + rest)
    ensures Visible(Content(text, [p] + rest)) == Visible(Cut(text, p)) + Visible(Content(text, rest))
  {
    hide Visible;
    assert ([p] + rest)[1..] == rest;
    VisibleAppend(Cut(text, p), Content(text, rest));
  }

  /** A blank gap shows nothing. */
  lemma VisibleAcross(text: string, a: nat, b: nat, c: nat)
    requires a <= b <= c <= |text|
    requires forall k | b <= k < c :: IsWhitespace(text[k])
    ensures Visible(text[a..]) == Visible(text[a..b]) + Visible(text[c..])
  {
    VisibleNothing(text[b..c]);
    assert text[a..] == text[a..b] + (text[b..c] + text[c..]);
    VisibleAppend(text[a..b], text[b..c] + text[c..]);
    VisibleAppend(text[b..c], text[c..]);
  }

  /**
   The lines hold exactly the visible characters of the text, in order, unless the first
   line comes out empty and there was something to show.
   */
  lemma ContentPreserved(col: Column)
    requires col.WellSized() && Terminates(col)
    ensures AllInText(col.text, Pieces(col))
    ensures Visible(Content(col.text, Pieces(col))) == Visible(col.text)
            <==> Measure(col, 0).len > 0 || Visible(col.text) == ""
    ensures Measure(col, 0).len == 0 <==>
            col.text == "" || col.text[0] == '\n'
            || (col.Avail(0) == 1 && !Usable(col.text, 1))
  {
    MeasureMeaning(col, 0);
    if col.text != "" && LineEnd(col.text, 0) >= col.Avail(0) == 1 {
      assert Measure(col, 0).hyphen <==> !Usable(col.text, 1);
    }
    if Measure(col, 0).len > 0 {
      FreeFromStart(col);
      ContentFrom(col, 0);
      assert col.text[0..] == col.text;
    }
  }

  // ---- How lines follow each other ------------------------------------------------------

  /**
   The line behind `p` starts at `next`: right behind a newline, with its own blanks, or else
   behind all blanks.
   */
  predicate Follows(text: string, p: Piece, next: nat)
    requires InText(text, p)
  {
    var e := p.from + p.len;
    e <= next <= |text| &&
    if e < |text| && text[e] == '\n' then next == e + 1
    else (forall j | e <= j < next :: IsWhitespace(text[j])) && (next < |text| ==> !IsWhitespace(text[next]))
  }

  /** Piece `k` is the line measured where it starts, and the next starts where it should. */
  predicate InPlace(col: Column, ps: seq<Piece>, k: nat)
    requires col.WellSized() && k < |ps|
  {
    && ps[k].from < |col.text| && ps[k] == Measure(col, ps[k].from) && InText(col.text, ps[k])
    && Follows(col.text, ps[k], if k + 1 < |ps| then ps[k + 1].from else |col.text|)
  }

  lemma NextFollows(col: Column, pos: nat)
    requires col.WellSized() && pos < |col.text|
    ensures InText(col.text, Measure(col, pos)) && Follows(col.text, Measure(col, pos), NextPos(col, pos))
  {
    hide Measure, LineEnd;
  }

  lemma {:induction false} GapsFrom(col: Column, pos: nat)
    requires col.WellSized() && pos < |col.text| && Free(col, pos)
    requires pos == 0 ==> Measure(col, 0).len > 0
    ensures var ps := PiecesFrom(col, pos);
            ps != [] && ps[0].from == pos && forall k | 0 <= k < |ps| :: InPlace(col, ps, k)
    decreases |col.text| - pos
  {
    hide Measure, NextPos, LineEnd, Follows, Free, Stuck;
    FreeStep(col, pos);
    NextFollows(col, pos);
    var next := NextPos(col, pos);
    var ps, rest := PiecesFrom(col, pos), if next < |col.text| then PiecesFrom(col, next) else [];
    if next < |col.text| { GapsFrom(col, next); }
    assert ps == [Measure(col, pos)] + rest;
    forall k | 0 <= k < |ps| ensures InPlace(col, ps, k) {
      if k > 0 { assert InPlace(col, rest, k - 1) && ps[k] == rest[k - 1]; }
    }
  }

  /**
   The lines of a column: the first starts the text, each is the one measured at its place,
   and from each to the next exactly one newline is skipped, or else all blanks.
   */
  lemma LinesInPlace(col: Column)
    requires col.WellSized() && Terminates(col) && Pieces(col) != []
    ensures Pieces(col)[0].from == 0
    ensures forall k | 0 <= k < |Pieces(col)| :: InPlace(col, Pieces(col), k)
    ensures forall k | 0 < k < |Pieces(col)| :: Pieces(col)[k].from > 0
  {
    hide Measure, Follows, Free, Terminates;
    FreeFromStart(col);
    GapsFrom(col, 0);
    var ps := Pieces(col);
    hide Pieces;
    forall k | 0 < k < |ps| ensures ps[k].from > 0 {
      PlacesGrow(col, ps, k);
    }
  }

  lemma {:induction false} PlacesGrow(col: Column, ps: seq<Piece>, k: nat)
    requires col.WellSized() && 0 < k < |ps| && ps[0].from == 0 && ps[0].len > 0
    requires forall i | 0 <= i < |ps| :: InPlace(col, ps, i)
    ensures ps[k].from > 0
  {
    hide Measure;
    assert InPlace(col, ps, k - 1);
    if k > 1 { PlacesGrow(col, ps, k - 1); }
  }

  /** What a line shows: its indent in blanks, its piece of the text, and a hyphen if it has one. */
  lemma LineShows(col: Column, k: nat)
    requires col.WellSized() && Terminates(col) && k < |Pieces(col)|
    ensures AllInText(col.text, Pieces(col))
    ensures var p, line := Pieces(col)[k], Lines(col.text, Pieces(col))[k];
            && p.indent == (if k == 0 && col.initialIndent.Some? then col.initialIndent.value else col.indent)
            && |line| == p.indent + p.len + (if p.hyphen then 1 else 0)
            && (forall i | 0 <= i < p.indent :: line[i] == ' ')
            && line[p.indent..p.indent + p.len] == col.text[p.from..p.from + p.len]
            && (p.hyphen ==> line[|line| - 1] == '-')
  {
    hide Pieces, Terminates, LineEnd, BreakLen, TrimLen, Follows, Render;
    LinesFit(col);
    LinesInPlace(col);
    assert InPlace(col, Pieces(col), k);
    RenderShows(col.text, Pieces(col)[k]);
  }

  lemma RenderShows(text: string, p: Piece)
    requires InText(text, p)
    ensures var line := Render(text, p);
            && |line| == p.indent + p.len + (if p.hyphen then 1 else 0)
            && (forall i | 0 <= i < p.indent :: line[i] == ' ')
            && line[p.indent..p.indent + p.len] == text[p.from..p.from + p.len]
            && (p.hyphen ==> line[|line| - 1] == '-')
  {
  }

  // ---- Paragraphs -----------------------------------------------------------------------

  /** The parts of a text between its newlines from `pos` on; nothing comes behind a final one. */
  function Paragraphs(text: string, pos: nat): seq<string>
    requires pos <= |text|
    decreases |text| - pos
  {
    if pos == |text| then [] else
      var e := LineEnd(text, pos);
      [text[pos..e]] + if e == |text| then [] else Paragraphs(text, e + 1)
  }

  function Broken(paragraphs: seq<string>): string {
    if paragraphs == [] then "" else paragraphs[0] + "\n" + Broken(paragraphs[1..])
  }

  lemma BrokenCons(first: string, more: seq<string>)
    ensures Broken([first] + more) == first + "\n" + Broken(more)
  {
    assert ([first] + more)[1..] == more;
  }

  /** A paragraph, its newline and the rest, however it ends. */
  lemma SplitAt(text: string, pos: nat, e: nat, tail: string)
    requires pos <= e < |text| && text[e] == '\n'
    ensures text[pos..e] + "\n" + (text[e + 1..] + tail) == text[pos..] + tail
  {
    assert text[pos..] == text[pos..e] + "\n" + text[e + 1..];
  }

  lemma ParagraphsUnfold(text: string, pos: nat)
    requires pos < |text|
    ensures var e := LineEnd(text, pos);
            Paragraphs(text, pos) == [text[pos..e]] + if e == |text| then [] else Paragraphs(text, e + 1)
  {
  }

  /** The paragraphs with a newline behind each give the text again, plus a final one if it has none. */
  lemma {:induction false} ParagraphsMeaning(text: string, pos: nat)
    requires pos <= |text|
    ensures Broken(Paragraphs(text, pos)) ==
            text[pos..] + if pos < |text| && text[|text| - 1] != '\n' then "\n" else ""
    decreases |text| - pos
  {
    hide LineEnd, Broken, Paragraphs;
    if pos == |text| {
      NoParagraphs(text);
    } else {
      var e := LineEnd(text, pos);
      ParagraphsUnfold(text, pos);
      if e < |text| {
        ParagraphsMeaning(text, e + 1);
        BrokenCons(text[pos..e], Paragraphs(text, e + 1));
        SplitAt(text, pos, e, if text[|text| - 1] != '\n' then "\n" else "");
      } else {
        BrokenCons(text[pos..e], []);
        NothingBroken();
        assert text[pos..e] == text[pos..];
      }
    }
  }

  lemma NoParagraphs(text: string)
    ensures Broken(Paragraphs(text, |text|)) == text[|text|..] == ""
  {
  }

  lemma NothingBroken()
    ensures Broken([]) == ""
  {
  }

  /** And none of them holds a newline. */
  lemma {:induction false} ParagraphsHoldNone(text: string, pos: nat, k: nat)
    requires pos <= |text| && k < |Paragraphs(text, pos)|
    ensures '\n' !in Paragraphs(text, pos)[k]
    decreases k
  {
    hide LineEnd;
    var e := LineEnd(text, pos);
    if k > 0 { ParagraphsHoldNone(text, e + 1, k - 1); }
  }

  predicate StartsParagraph(text: string, pos: nat) {
    pos < |text| && (pos == 0 || text[pos - 1] == '\n')
  }

  /** Every paragraph leaves a character free on its line. */
  ghost predicate ParagraphsFit(col: Column)
    requires col.WellSized()
  {
    forall pos: nat | StartsParagraph(col.text, pos) :: LineEnd(col.text, pos) < pos + col.Avail(pos)
  }

  function LineStart(text: string, pos: nat): (r: nat)
    requires pos < |text|
    ensures r <= pos && StartsParagraph(text, r) && forall k | r <= k < pos :: text[k] != '\n'
  {
    if pos == 0 || text[pos - 1] == '\n' then pos else LineStart(text, pos - 1)
  }

  /** A paragraph that fits is one line, and the next line is the next paragraph. */
  lemma ParagraphStep(col: Column, pos: nat)
    requires col.WellSized() && ParagraphsFit(col) && StartsParagraph(col.text, pos)
    ensures var e := LineEnd(col.text, pos);
            && Measure(col, pos) == Piece(pos, e - pos, col.IndentAt(pos), false)
            && NextPos(col, pos) == if e < |col.text| then e + 1 else e
  {
    hide LineEnd, BreakLen, TrimLen;
  }

  lemma FittingIsFree(col: Column)
    requires col.WellSized() && ParagraphsFit(col) && Measure(col, 0).len > 0
    ensures Terminates(col)
  {
    ParagraphStep(col, 0);
    hide Measure, LineEnd, Terminates, NextPos;
    forall p: nat | NextPos(col, 0) <= p < |col.text| ensures !Stuck(col, p) {
      var q := LineStart(col.text, p);
      assert q > 0 && StartsParagraph(col.text, q);
      assert LineEnd(col.text, q) < q + col.Avail(q);
      if !IsWhitespace(col.text[p]) { assert LineEnd(col.text, q) > p; }
    }
    FirstIsNotStuck(col);
    hide Stuck;
    FreeFromStart(col);
  }

  function Cuts(text: string, ps: seq<Piece>): (r: seq<string>)
    requires AllInText(text, ps)
    ensures |r| == |ps| && forall k | 0 <= k < |ps| :: r[k] == Cut(text, ps[k])
  {
    if ps == [] then [] else [Cut(text, ps[0])] + Cuts(text, ps[1..])
  }

  lemma CutsCons(text: string, p: Piece, rest: seq<Piece>)
    requires InText(text, p) && AllInText(text, rest)
    ensures AllInText(text, [p] + rest) && Cuts(text, [p] + rest) == [Cut(text, p)] + Cuts(text, rest)
  {
    assert ([p] + rest)[1..] == rest;
  }

  predicate NoHyphens(ps: seq<Piece>) {
    forall k | 0 <= k < |ps| :: !ps[k].hyphen
  }

  lemma {:induction false} ParagraphsFrom(col: Column, pos: nat)
    requires col.WellSized() && ParagraphsFit(col) && StartsParagraph(col.text, pos) && Free(col, pos)
    requires pos == 0 ==> Measure(col, 0).len > 0
    ensures var ps := PiecesFrom(col, pos);
            AllInText(col.text, ps) && Cuts(col.text, ps) == Paragraphs(col.text, pos) && NoHyphens(ps)
    decreases |col.text| - pos
  {
    hide LineEnd, Stuck, Free, Cuts, ParagraphsFit, Measure, NextPos, Paragraphs, PiecesFrom;
    var text, e := col.text, LineEnd(col.text, pos);
    ParagraphStep(col, pos);
    ParagraphsUnfold(text, pos);
    PiecesUnfold(col, pos);
    var p, next := Measure(col, pos), NextPos(col, pos);
    if next < |text| {
      ParagraphsFrom(col, next);
      CutsCons(text, p, PiecesFrom(col, next));
    } else {
      NoCuts(text);
      CutsCons(text, p, []);
      LastParagraph(text);
    }
  }

  lemma LastParagraph(text: string)
    ensures Paragraphs(text, |text|) == []
  {
  }

  lemma PiecesUnfold(col: Column, pos: nat)
    requires col.WellSized() && pos < |col.text| && Free(col, pos)
    requires pos == 0 ==> Measure(col, 0).len > 0
    ensures var next := NextPos(col, pos);
            && next > pos && Free(col, next)
            && PiecesFrom(col, pos) == [Measure(col, pos)] + if next < |col.text| then PiecesFrom(col, next) else []
  {
    hide Measure, NextPos, Free, Stuck;
    FreeStep(col, pos);
  }

  lemma NoCuts(text: string)
    ensures Cuts(text, []) == []
  {
  }

  /** When every paragraph fits, the lines are the paragraphs, empty ones and leading blanks included. */
  lemma ParagraphsAreLines(col: Column)
    requires col.WellSized() && ParagraphsFit(col) && Measure(col, 0).len > 0
    ensures Terminates(col) && AllInText(col.text, Pieces(col))
    ensures Cuts(col.text, Pieces(col)) == Paragraphs(col.text, 0) && NoHyphens(Pieces(col))
  {
    hide LineEnd, Measure, Free, Terminates, Paragraphs, Cuts, ParagraphsFit;
    FittingIsFree(col);
    FreeFromStart(col);
    ParagraphsFrom(col, 0);
  }

  /** With one character per line "ab" is shown as nothing at all. */
  lemma NarrowColumnLoses()
    ensures var col := Column("ab", 1, 0, None);
            col.WellSized() && Terminates(col) && Pieces(col) == [] && Visible(col.text) == "ab"
  {
    hide Visible, PiecesFrom, Measure, LineEnd, Free;
    var col := Column("ab", 1, 0, None);
    assert !IsBoundary(col.text, 1);
    assert LineEnd(col.text, 0) == 2;
    MeasureMeaning(col, 0);
    VisibleTwo('a', 'b');
  }

  const STUCK := Column("a bc", 2, 1, Some(0))

  /** Behind its first line "a bc" is stuck in a column of two with an indent of one: `++` goes on for ever. */
  lemma NarrowColumnNeverEnds()
    ensures STUCK.WellSized() && !Terminates(STUCK)
    ensures forall n :: PosAfter(STUCK, n) < |STUCK.text|
  {
    StuckAtTwo();
    hide Measure, NextPos, PosAfter, Stuck;
    EndsExactly(STUCK);
  }

  lemma StuckAtTwo()
    ensures Measure(STUCK, 0).len == 1 && NextPos(STUCK, 0) == 2
    ensures !Stuck(STUCK, 0) && Stuck(STUCK, 2)
  {
    hide LineEnd, Measure, SkipBlanks;
    var text := STUCK.text;
    assert text[0] == 'a' && text[1] == ' ' && text[2] == 'b' && text[3] == 'c';
    assert LineEnd(text, 0) == 4;
    assert Usable(text, 1) && !IsBoundary(text, 2) && !IsBoundary(text, 3);
    hide IsBoundary, Usable;
    MeasureMeaning(STUCK, 0);
    assert SkipBlanks(text, 1) == 2;
  }

  /** "abc" fits behind its initial indent; that later lines would be stuck does not matter. */
  lemma StuckPositionNotReached()
    ensures var col := Column("abc", 10, 9, Some(0));
            col.WellSized() && !NeverStuck(col) && Terminates(col) && Pieces(col) == [Piece(0, 3, 0, false)]
  {
    hide LineEnd;
    var col := Column("abc", 10, 9, Some(0));
    assert LineEnd(col.text, 0) == 3;
    assert Stuck(col, 1);
    assert NextPos(col, 0) == 3;
  }

  lemma VisibleTwo(a: char, b: char)
    requires !IsWhitespace(a) && !IsWhitespace(b)
    ensures Visible([a, b]) == [a, b]
  {
    VisibleAppend([a], [b]);
    assert [a] + [b] == [a, b] && Visible([a]) == [a] + Visible("") && Visible([b]) == [b] + Visible("");
  }
}
