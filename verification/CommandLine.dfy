/**
 The command line parser (3rd/Clara/include/clara.hpp, namespace detail).

 A `TokenStream` turns raw arguments into tokens on demand; options and arguments try to
 match at its front; `Parser.Parse` lets the first one that can take each match in turn.
 */
module CommandLine {
  import opened Common

  // ---- Tokens ---------------------------------------------------------------------------

  datatype TokenType = OptionToken | ArgumentToken

  datatype Token = Token(kind: TokenType, text: string)

  predicate IsDelimiter(c: char) {
    c == ' ' || c == ':' || c == '='
  }

  /** Offset of the first delimiter at or after `i`, or the length. */
  function DelimiterPos(s: string, i: nat): (r: nat)
    requires i <= |s|
    ensures i <= r <= |s| && (r < |s| ==> IsDelimiter(s[r]))
    ensures forall k | i <= k < r :: !IsDelimiter(s[k])
    decreases |s| - i
  {
    if i == |s| || IsDelimiter(s[i]) then i else DelimiterPos(s, i + 1)
  }

  /** One option token for each letter behind a single dash. */
  function Letters(letters: string): (r: seq<Token>)
    ensures |r| == |letters|
    ensures forall k | 0 <= k < |r| :: r[k] == Token(OptionToken, ['-', letters[k]])
  {
    if letters == "" then [] else [Token(OptionToken, ['-', letters[0]])] + Letters(letters[1..])
  }

  /** The tokens of one raw argument. */
  function TokensOf(arg: string): (r: seq<Token>)
    ensures r == [] <==> arg == ""
  {
    if arg == "" then []
    else if arg[0] != '-' then [Token(ArgumentToken, arg)]
    else
      var d := DelimiterPos(arg, 0);
      if d < |arg| then [Token(OptionToken, arg[..d]), Token(ArgumentToken, arg[d + 1..])]
      else if |arg| > 2 && arg[1] != '-' then Letters(arg[1..])
      else [Token(OptionToken, arg)]
  }

  /** The letters of options of a single letter. */
  function LettersOf(tokens: seq<Token>): string {
    if tokens == [] then "" else
      (if tokens[0].text == "" then "" else tokens[0].text[1..]) + LettersOf(tokens[1..])
  }

  /** The argument that a user would type for these tokens. */
  function Spelled(tokens: seq<Token>, delimiter: char): string {
    if tokens == [] then ""
    else if |tokens| == 1 then tokens[0].text
    else if tokens[1].kind == ArgumentToken then tokens[0].text + [delimiter] + tokens[1].text
    else "-" + LettersOf(tokens)
  }

  /**
   Cutting up an argument loses nothing: with the delimiter it is put together again, and the
   option in front of the delimiter holds none. Only what starts with a dash holds options.
   */
  lemma TokensSpell(arg: string) returns (delimiter: char)
    ensures Spelled(TokensOf(arg), delimiter) == arg && IsDelimiter(delimiter)
    ensures var tokens := TokensOf(arg);
            && (tokens != [] ==> (tokens[0].kind == OptionToken <==> arg[0] == '-'))
            && (|tokens| == 2 && tokens[1].kind == ArgumentToken ==>
                  tokens[0].kind == OptionToken
                  && forall k | 0 <= k < |tokens[0].text| :: !IsDelimiter(tokens[0].text[k]))
  {
    delimiter := '=';
    if arg != "" && arg[0] == '-' {
      var d := DelimiterPos(arg, 0);
      if d < |arg| {
        delimiter := arg[d];
        assert arg[..d] + [arg[d]] + arg[d + 1..] == arg;
      } else if |arg| > 2 && arg[1] != '-' {
        LettersSpell(arg[1..]);
        assert "-" + arg[1..] == arg;
      }
    }
  }

  /** Behind a single dash, without a delimiter, every letter is an option of its own. */
  lemma ShortOptionsAreSplit(arg: string, k: nat)
    requires (forall j | 0 <= j < |arg| :: !IsDelimiter(arg[j])) && k < |TokensOf(arg)|
    ensures var t := TokensOf(arg)[k];
            t.kind == OptionToken ==> |t.text| <= 2 || t.text[1] == '-'
  {
  }

  lemma DelimiterCharacters(c: char)
    ensures IsDelimiter(c) <==> c in " :="
  {
    var s := " :=";
    assert s[0] == ' ' && s[1] == ':' && s[2] == '=';
  }

  lemma {:induction false} LettersSpell(letters: string)
    ensures LettersOf(Letters(letters)) == letters
  {
    if letters != "" {
      LettersSpell(letters[1..]);
      assert Letters(letters)[1..] == Letters(letters[1..]);
    }
  }

  /** The tokens of the raw arguments from `i` on. */
  function TokensFrom(args: seq<string>, i: nat): seq<Token>
    decreases |args| - i
  {
    if i >= |args| then [] else TokensOf(args[i]) + TokensFrom(args, i + 1)
  }

  lemma {:induction false} TokensBehind(a: seq<string>, b: seq<string>, i: nat)
    ensures TokensFrom(a + b, |a| + i) == TokensFrom(b, i)
    decreases |b| - i
  {
    hide TokensOf;
    if i < |b| {
      assert (a + b)[|a| + i] == b[i];
      TokensBehind(a, b, i + 1);
    }
  }

  /** The tokens come argument by argument. */
  lemma {:induction false} TokensInOrder(a: seq<string>, b: seq<string>, i: nat)
    requires i <= |a|
    ensures TokensFrom(a + b, i) == TokensFrom(a, i) + TokensFrom(b, 0)
    decreases |a| - i
  {
    hide TokensOf;
    if i < |a| {
      assert (a + b)[i] == a[i];
      TokensInOrder(a, b, i + 1);
      assert TokensOf(a[i]) + (TokensFrom(a, i + 1) + TokensFrom(b, 0))
          == (TokensOf(a[i]) + TokensFrom(a, i + 1)) + TokensFrom(b, 0);
    } else {
      TokensBehind(a, b, 0);
    }
  }

  class TokenStream {
    const args: seq<string>
    var it: nat
    var buffer: seq<Token>

    ghost predicate Valid()
      reads this
    {
      && it <= |args|
      && (buffer == [] <==> it == |args|)
    }

    /** All tokens still to come. */
    ghost function Tokens(): seq<Token>
      reads this
    {
      buffer + TokensFrom(args, it + 1)
    }

    constructor (arguments: seq<string>)
      ensures Valid() && args == arguments && Tokens() == TokensFrom(arguments, 0)
    {
      args := arguments;
      it := 0;
      buffer := [];
      new;
      LoadBuffer();
    }

    constructor Copy(other: TokenStream)
      requires other.Valid()
      ensures Valid() && Tokens() == other.Tokens()
    {
      hide TokensOf, TokensFrom;
      args := other.args;
      it := other.it;
      buffer := other.buffer;
    }

    method LoadBuffer()
      requires it <= |args|
      modifies this
      ensures Valid() && Tokens() == old(TokensFrom(args, it))
    {
      hide TokensOf;
      buffer := [];
      while it < |args| && args[it] == ""
        invariant it <= |args| && buffer == []
        invariant TokensFrom(args, it) == old(TokensFrom(args, it))
      {
        it := it + 1;
      }
      if it < |args| {
        buffer := Tokenised(args[it]);
      }
    }

    /** The part of `loadBuffer` that cuts up one argument. */
    method Tokenised(next: string) returns (tokens: seq<Token>)
      requires next != ""
      ensures tokens == TokensOf(next)
    {
      if next[0] == '-' {
        var delimiterPos := DelimiterPos(next, 0);
        if delimiterPos < |next| {
          tokens := [Token(OptionToken, next[..delimiterPos])];
          tokens := tokens + [Token(ArgumentToken, next[delimiterPos + 1..])];
        } else if |next| > 2 && next[1] != '-' {
          tokens := LetterTokens(next);
        } else {
          tokens := [Token(OptionToken, next)];
        }
      } else {
        tokens := [Token(ArgumentToken, next)];
      }
    }

    method LetterTokens(next: string) returns (tokens: seq<Token>)
      requires next != ""
      ensures tokens == Letters(next[1..])
    {
      tokens := [];
      for i := 1 to |next|
        invariant |tokens| == i - 1
        invariant forall k | 0 <= k < i - 1 :: tokens[k] == Token(OptionToken, ['-', next[k + 1]])
      {
        tokens := tokens + [Token(OptionToken, ['-', next[i]])];
      }
    }

    /** `operator bool`: there is something left, and then the buffer holds the next token. */
    predicate More()
      reads this
    {
      buffer != [] || it != |args|
    }

    lemma MoreMeansTokens()
      requires Valid()
      ensures More() <==> Tokens() != []
      ensures More() ==> buffer != [] && buffer[0] == Tokens()[0]
    {
    }

    /** `operator++`: drops exactly the next token. */
    method Next()
      requires Valid()
      modifies this
      ensures Valid()
      ensures Tokens() == if old(Tokens()) == [] then [] else old(Tokens())[1..]
    {
      hide TokensOf;
      assert forall more: seq<Token> :: buffer != [] ==> (buffer + more)[1..] == buffer[1..] + more;
      if |buffer| >= 2 {
        buffer := buffer[1..];
      } else {
        if it < |args| {
          it := it + 1;
        }
        LoadBuffer();
      }
    }
  }

  // ---- Options and arguments ------------------------------------------------------------

  datatype ResultType = Matched | NoMatch | ShortCircuitAll | ShortCircuitSame

  datatype ErrorKind = LogicError | RuntimeError

  datatype ParseError = ParseError(kind: ErrorKind, message: string)

  /** What binding a value answers: an error, or how to go on. */
  type Answer = Result<ResultType, ParseError>

  /** What an option or argument is bound to; a flag is only ever set to true. */
  datatype Bound =
    | Flag(answer: Answer)
    | Value(isContainer: bool, setValue: string -> Answer)

  datatype Item =
    | Opt(names: seq<string>, ref: Bound)
    | Arg(isContainer: bool, setValue: string -> Answer)
  {
    /** 0 stands for any number of matches. */
    function Cardinality(): nat {
      var many := if Opt? then ref.Value? && ref.isContainer else isContainer;
      if many then 0 else 1
    }

    predicate ValidNames() {
      Opt? ==> names != [] && forall k | 0 <= k < |names| :: names[k] != "" && names[k][0] == '-'
    }
  }

  /** The result of trying one item: an error, or a result type and the tokens left. */
  datatype Tried = Failed(error: ParseError) | State(kind: ResultType, rest: seq<Token>)

  function MissingArgument(name: string): ParseError {
    ParseError(RuntimeError, "Expected argument following " + name)
  }

  function TryItem(item: Item, tokens: seq<Token>): (r: Tried)
    requires tokens != []
    ensures r.State? ==> |r.rest| <= |tokens| && r.rest == tokens[|tokens| - |r.rest|..]
    ensures r.State? && r.kind == NoMatch ==> r.rest == tokens
    ensures r.State? && r.kind != NoMatch ==> r.kind == ShortCircuitAll || |r.rest| < |tokens|
  {
    var head := tokens[0];
    if !item.ValidNames() then
      Failed(ParseError(LogicError, "Invalid option name"))
    else if item.Arg? then
      if head.kind != ArgumentToken then State(NoMatch, tokens)
      else match item.setValue(head.text)
        case Err(e) => Failed(e)
        case Ok(_) => State(Matched, tokens[1..])
    else if head.kind != OptionToken || head.text !in item.names then
      State(NoMatch, tokens)
    else match item.ref
      case Flag(Err(e)) => Failed(e)
      case Flag(Ok(kind)) =>
        if kind == ShortCircuitAll then State(ShortCircuitAll, tokens) else State(Matched, tokens[1..])
      case Value(_, setValue) =>
        if |tokens| < 2 || tokens[1].kind != ArgumentToken then Failed(MissingArgument(head.text))
        else match setValue(tokens[1].text)
          case Err(e) => Failed(e)
          case Ok(kind) =>
            if kind == ShortCircuitAll then State(ShortCircuitAll, tokens[1..])
            else State(Matched, tokens[2..])
  }

  /** The same with token streams for what is left. */
  datatype Parsed = Failure(error: ParseError) | Success(kind: ResultType, remaining: TokenStream)

  ghost predicate Agrees(p: Parsed, t: Tried)
    reads if p.Success? then {p.remaining} else {}
  {
    match (p, t)
    case (Failure(e), Failed(f)) => e == f
    case (Success(kind, remaining), State(kind', rest)) =>
      kind == kind' && remaining.Valid() && remaining.Tokens() == rest
    case _ => false
  }

  /** `Arg::parse`. */
  method ParseArg(item: Item, tokens: TokenStream) returns (r: Parsed)
    requires item.Arg? && tokens.Valid() && tokens.More()
    ensures tokens.Valid() && tokens.Tokens() == old(tokens.Tokens())
    ensures tokens.Tokens() != [] && Agrees(r, TryItem(item, tokens.Tokens()))
    ensures r.Success? ==> fresh(r.remaining)
  {
    tokens.MoreMeansTokens();
    var remaining := new TokenStream.Copy(tokens);
    remaining.MoreMeansTokens();
    var token := remaining.buffer[0];
    if token.kind != ArgumentToken {
      return Success(NoMatch, remaining);
    }
    var answer := item.setValue(token.text);
    if answer.Err? {
      return Failure(answer.error);
    }
    remaining.Next();
    return Success(Matched, remaining);
  }

  /** `Opt::parse`. */
  method ParseOpt(item: Item, tokens: TokenStream) returns (r: Parsed)
    requires item.Opt? && tokens.Valid() && tokens.More()
    ensures tokens.Valid() && tokens.Tokens() == old(tokens.Tokens())
    ensures tokens.Tokens() != [] && Agrees(r, TryItem(item, tokens.Tokens()))
    ensures r.Success? ==> fresh(r.remaining)
  {
    tokens.MoreMeansTokens();
    if !item.ValidNames() {
      return Failure(ParseError(LogicError, "Invalid option name"));
    }
    var remaining := new TokenStream.Copy(tokens);
    remaining.MoreMeansTokens();
    var token := remaining.buffer[0];
    if token.kind == OptionToken && token.text in item.names {
      match item.ref {
        case Flag(answer) =>
          if answer.Err? {
            return Failure(answer.error);
          }
          if answer.value == ShortCircuitAll {
            return Success(ShortCircuitAll, remaining);
          }
        case Value(_, setValue) =>
          remaining.Next();
          remaining.MoreMeansTokens();
          if !remaining.More() {
            return Failure(MissingArgument(token.text));
          }
          var argToken := remaining.buffer[0];
          if argToken.kind != ArgumentToken {
            return Failure(MissingArgument(token.text));
          }
          var answer := setValue(argToken.text);
          if answer.Err? {
            return Failure(answer.error);
          }
          if answer.value == ShortCircuitAll {
            return Success(ShortCircuitAll, remaining);
          }
      }
      remaining.Next();
      return Success(Matched, remaining);
    }
    return Success(NoMatch, remaining);
  }

  /** The virtual `parse`. */
  method ParseItem(item: Item, tokens: TokenStream) returns (r: Parsed)
    requires tokens.Valid() && tokens.More()
    ensures tokens.Valid() && tokens.Tokens() == old(tokens.Tokens())
    ensures tokens.Tokens() != [] && Agrees(r, TryItem(item, tokens.Tokens()))
    ensures r.Success? ==> fresh(r.remaining)
  {
    hide TryItem, TokenStream.Tokens, TokenStream.More;
    if item.Opt? {
      r := ParseOpt(item, tokens);
    } else {
      r := ParseArg(item, tokens);
    }
  }

  // ---- What the parser does with a token list -------------------------------------------

  /** One successful match: which item, and how many tokens it took. */
  datatype Match = Match(index: nat, used: seq<Token>)

  datatype Run = Run(result: Tried, matches: seq<Match>)

  predicate Eligible(items: seq<Item>, counts: seq<nat>, i: nat)
    requires i < |items| == |counts|
  {
    items[i].Cardinality() == 0 || counts[i] < items[i].Cardinality()
  }

  /** The first item from `i` on that is still eligible and does not pass, or the length. */
  function FirstTaker(items: seq<Item>, counts: seq<nat>, tokens: seq<Token>, i: nat): (r: nat)
    requires i <= |items| == |counts| && tokens != []
    ensures i <= r <= |items|
    ensures r < |items| ==> Eligible(items, counts, r) && !Passes(items[r], tokens)
    ensures forall k | i <= k < r :: Eligible(items, counts, k) ==> Passes(items[k], tokens)
    decreases |items| - i
  {
    if i == |items| || (Eligible(items, counts, i) && !Passes(items[i], tokens)) then i
    else FirstTaker(items, counts, tokens, i + 1)
  }

  predicate Passes(item: Item, tokens: seq<Token>)
    requires tokens != []
  {
    TryItem(item, tokens) == State(NoMatch, tokens)
  }

  function Unrecognised(token: Token): ParseError {
    ParseError(RuntimeError, "Unrecognised token: " + token.text)
  }

  /** What one round does: it ends the parse, or it matches and goes on. */
  datatype Round =
    | Error(error: ParseError)
    | Cut(m: Match, rest: seq<Token>)
    | Go(m: Match, counts: seq<nat>, kind: ResultType, rest: seq<Token>)

  /** What is left after a try: a suffix of the tokens, shorter unless everything stops. */
  predicate Leaves(tried: Tried, tokens: seq<Token>) {
    tried.State? ==>
      && |tried.rest| <= |tokens| && tried.rest == tokens[|tokens| - |tried.rest|..]
      && (tried.kind == ShortCircuitAll || |tried.rest| < |tokens|)
  }

  /** The round in which item `i` takes the front token. */
  function Taken(counts: seq<nat>, tokens: seq<Token>, i: nat, tried: Tried): (r: Round)
    requires i < |counts| && Leaves(tried, tokens)
    ensures !r.Error? ==> r.m.used + r.rest == tokens && r.m.index == i
    ensures r.Go? ==> |r.rest| < |tokens| && r.kind != ShortCircuitAll
    ensures r.Go? ==> r.counts == counts[i := counts[i] + 1]
  {
    match tried
    case Failed(e) => Error(e)
    case State(kind, rest) =>
      var m := Match(i, tokens[..|tokens| - |rest|]);
      if kind == ShortCircuitAll then Cut(m, rest)
      else Go(m, counts[i := counts[i] + 1], kind, rest)
  }

  function RoundOf(items: seq<Item>, counts: seq<nat>, tokens: seq<Token>): (r: Round)
    requires |counts| == |items| && tokens != []
    ensures !r.Error? ==> r.m.used + r.rest == tokens
    ensures !r.Error? ==> r.m.index < |items| && Eligible(items, counts, r.m.index)
    ensures r.Go? ==> |r.rest| < |tokens| && r.kind != ShortCircuitAll
    ensures r.Go? ==> r.counts == counts[r.m.index := counts[r.m.index] + 1]
  {
    var i := FirstTaker(items, counts, tokens, 0);
    if i == |items| then Error(Unrecognised(tokens[0]))
    else Taken(counts, tokens, i, TryItem(items[i], tokens))
  }

  /** Token by token: the first item that takes the front token does, until none are left. */
  function RunParser(items: seq<Item>, counts: seq<nat>, last: ResultType, tokens: seq<Token>): Run
    requires |counts| == |items|
    decreases |tokens|
  {
    if tokens == [] then Run(State(last, []), []) else
      match RoundOf(items, counts, tokens)
      case Error(e) => Run(Failed(e), [])
      case Cut(m, rest) => Run(State(ShortCircuitAll, rest), [m])
      case Go(m, counts', kind, rest) => Preceded(m, RunParser(items, counts', kind, rest))
  }

  function Preceded(m: Match, run: Run): Run {
    Run(run.result, [m] + run.matches)
  }

  /** What a run comes to after `before`, from its first round on. */
  lemma RunStep(items: seq<Item>, counts: seq<nat>, last: ResultType, tokens: seq<Token>, before: seq<Match>)
    requires |counts| == |items| && tokens != []
    ensures Resumed(before, RunParser(items, counts, last, tokens)) ==
            match RoundOf(items, counts, tokens)
            case Error(e) => Run(Failed(e), before)
            case Cut(m, rest) => Run(State(ShortCircuitAll, rest), before + [m])
            case Go(m, counts', kind, rest) => Resumed(before + [m], RunParser(items, counts', kind, rest))
  {
    hide RoundOf;
    match RoundOf(items, counts, tokens)
    case Go(m, counts', kind, rest) =>
      var more := RunParser(items, counts', kind, rest);
      assert before + ([m] + more.matches) == (before + [m]) + more.matches;
    case _ =>
  }

  lemma RunEnd(items: seq<Item>, counts: seq<nat>, last: ResultType, before: seq<Match>)
    requires |counts| == |items|
    ensures Resumed(before, RunParser(items, counts, last, [])) == Run(State(last, []), before)
  {
  }

  lemma ResumedFromStart(run: Run)
    ensures Resumed([], run) == run
  {
  }

  /** The run that had made the matches `before` and goes on as `rest`. */
  function Resumed(before: seq<Match>, rest: Run): Run {
    Run(rest.result, before + rest.matches)
  }

  function Used(matches: seq<Match>): seq<Token> {
    if matches == [] then [] else matches[0].used + Used(matches[1..])
  }

  function CountOf(matches: seq<Match>, i: nat): nat {
    if matches == [] then 0 else (if matches[0].index == i then 1 else 0) + CountOf(matches[1..], i)
  }

  /**
   The matches take the tokens from the front, each token once and in order; unless an item
   short-circuits, success means that none is left.
   */
  lemma {:induction false} TokensAreConsumed(
    items: seq<Item>, counts: seq<nat>, last: ResultType, tokens: seq<Token>)
    requires |counts| == |items| && last != ShortCircuitAll
    ensures var run := RunParser(items, counts, last, tokens);
            && (run.result.State? ==> Used(run.matches) + run.result.rest == tokens)
            && (run.result.State? && run.result.kind != ShortCircuitAll ==> run.result.rest == [])
            && Used(run.matches) <= tokens
    decreases |tokens|
  {
    hide RoundOf;
    if tokens != [] {
      match RoundOf(items, counts, tokens)
      case Error(_) =>
      case Cut(m, rest) =>
        assert Used([m]) == m.used + Used([]);
      case Go(m, counts', kind, rest) =>
        TokensAreConsumed(items, counts', kind, rest);
        UsedPreceded(m, RunParser(items, counts', kind, rest), rest);
    }
  }

  lemma UsedPreceded(m: Match, run: Run, rest: seq<Token>)
    ensures Used(Preceded(m, run).matches) == m.used + Used(run.matches)
    ensures Used(run.matches) <= rest ==> m.used + Used(run.matches) <= m.used + rest
    ensures run.result.State? && Used(run.matches) + run.result.rest == rest ==>
              (m.used + Used(run.matches)) + run.result.rest == m.used + rest
  {
    assert ([m] + run.matches)[1..] == run.matches;
  }

  /** An item of cardinality 1 never matches more often than it still may. */
  lemma {:induction false} SingleItemsMatchOnce(
    items: seq<Item>, counts: seq<nat>, last: ResultType, tokens: seq<Token>, i: nat)
    requires i < |items| == |counts| && items[i].Cardinality() == 1
    ensures CountOf(RunParser(items, counts, last, tokens).matches, i) <= if counts[i] == 0 then 1 else 0
    decreases |tokens|
  {
    hide RoundOf;
    if tokens != [] {
      match RoundOf(items, counts, tokens)
      case Error(_) =>
      case Cut(m, rest) =>
        assert CountOf([m], i) == (if m.index == i then 1 else 0) + CountOf([], i);
      case Go(m, counts', kind, rest) =>
        SingleItemsMatchOnce(items, counts', kind, rest, i);
        var more := RunParser(items, counts', kind, rest);
        assert ([m] + more.matches)[1..] == more.matches;
    }
  }

  // ---- Which item takes which tokens ----------------------------------------------------

  /** The token is meant for the item: one of an option's own names, or any argument. */
  predicate Wants(item: Item, token: Token) {
    match item
    case Opt(names, _) => token.kind == OptionToken && exists k | 0 <= k < |names| :: names[k] == token.text
    case Arg(_, _) => token.kind == ArgumentToken
  }

  predicate CollectsMany(item: Item) {
    match item
    case Opt(_, Flag(_)) => false
    case Opt(_, Value(isContainer, _)) => isContainer
    case Arg(isContainer, _) => isContainer
  }

  /** After `n` matches: again for what collects many values, else once. */
  predicate MayMatch(item: Item, n: nat) {
    CollectsMany(item) || n == 0
  }

  /** The answer accepts what it was given and does not stop everything. */
  predicate Accepts(answer: Answer) {
    answer.Ok? && answer.value != ShortCircuitAll
  }

  /** A match takes the option's name, with its value if it has one, or one argument, and binds it. */
  predicate Suits(item: Item, used: seq<Token>) {
    match item
    case Opt(_, Flag(answer)) => |used| == 1 && Wants(item, used[0]) && Accepts(answer)
    case Opt(_, Value(_, setValue)) =>
      && |used| == 2 && Wants(item, used[0])
      && used[1].kind == ArgumentToken && Accepts(setValue(used[1].text))
    case Arg(_, setValue) => |used| == 1 && Wants(item, used[0]) && setValue(used[0].text).Ok?
  }

  /** A match that stops everything leaves its last token: the flag's name, or the value. */
  predicate SuitsCut(item: Item, used: seq<Token>, rest: seq<Token>) {
    rest != [] &&
    match item
    case Opt(_, Flag(answer)) => used == [] && Wants(item, rest[0]) && answer == Ok(ShortCircuitAll)
    case Opt(_, Value(_, setValue)) =>
      && |used| == 1 && Wants(item, used[0]) && rest[0].kind == ArgumentToken
      && setValue(rest[0].text) == Ok(ShortCircuitAll)
    case Arg(_, _) => false
  }

  /** The error of an item whose names are wrong, or that wants the token and cannot use it. */
  predicate FailsOn(item: Item, tokens: seq<Token>, e: ParseError)
    requires tokens != []
  {
    if !item.ValidNames() then
      e.kind == LogicError
    else
      && Wants(item, tokens[0])
      && match item
         case Opt(_, Flag(answer)) => answer == Err(e)
         case Opt(_, Value(_, setValue)) =>
           if |tokens| > 1 && tokens[1].kind == ArgumentToken then setValue(tokens[1].text) == Err(e)
           else e == ParseError(RuntimeError, "Expected argument following " + tokens[0].text)
         case Arg(_, setValue) => setValue(tokens[0].text) == Err(e)
  }

  /** No item before `i` that may still match has anything to do with the token. */
  predicate NoneBefore(items: seq<Item>, counts: seq<nat>, token: Token, i: nat)
    requires i <= |items| == |counts|
  {
    forall j | 0 <= j < i :: MayMatch(items[j], counts[j]) ==> items[j].ValidNames() && !Wants(items[j], token)
  }

  /** Item `i` is the first that may match and wants the front token. */
  predicate IsFirst(items: seq<Item>, counts: seq<nat>, tokens: seq<Token>, i: nat)
    requires |items| == |counts|
  {
    && tokens != [] && i < |items| && MayMatch(items[i], counts[i]) && Wants(items[i], tokens[0])
    && NoneBefore(items, counts, tokens[0], i)
  }

  /** Why parsing fails here: nobody wants the token, or the first to be asked fails on it. */
  predicate Explains(items: seq<Item>, counts: seq<nat>, tokens: seq<Token>, e: ParseError)
    requires |items| == |counts|
  {
    tokens != [] &&
    (|| (e == ParseError(RuntimeError, "Unrecognised token: " + tokens[0].text) && NoneBefore(items, counts, tokens[0], |items|))
     || exists i | 0 <= i < |items| ::
          NoneBefore(items, counts, tokens[0], i) && MayMatch(items[i], counts[i]) && FailsOn(items[i], tokens, e))
  }

  lemma PassesMeaning(item: Item, tokens: seq<Token>)
    requires tokens != []
    ensures Passes(item, tokens) <==> item.ValidNames() && !Wants(item, tokens[0])
  {
  }

  lemma WantsMeaning(item: Item, tokens: seq<Token>)
    requires tokens != [] && item.ValidNames()
    ensures Wants(item, tokens[0]) <==>
            if item.Arg? then tokens[0].kind == ArgumentToken
            else tokens[0].kind == OptionToken && tokens[0].text in item.names
  {
  }

  /** What trying an item comes to, by the tokens it wants. */
  predicate TriedRight(item: Item, tokens: seq<Token>, tried: Tried)
    requires tokens != []
  {
    match tried
    case Failed(e) => FailsOn(item, tokens, e)
    case State(kind, rest) =>
      && |rest| <= |tokens| && Wants(item, tokens[0])
      && var used := tokens[..|tokens| - |rest|];
         if kind == ShortCircuitAll then SuitsCut(item, used, rest) else Suits(item, used)
  }

  lemma TakenMeaning(item: Item, tokens: seq<Token>)
    requires tokens != [] && !Passes(item, tokens)
    ensures TriedRight(item, tokens, TryItem(item, tokens))
  {
    hide MissingArgument;
    PassesMeaning(item, tokens);
    if item.ValidNames() {
      hide Passes;
      if item.Arg? {
        TakenArgument(item, tokens);
      } else if item.ref.Flag? {
        TakenFlag(item, tokens);
      } else {
        TakenValue(item, tokens);
      }
    }
    hide TryItem, Wants, Suits, SuitsCut, Item.ValidNames;
  }

  /** An option without names, or with one that is empty or has no dash, is an error. */
  lemma WrongNamesFail(item: Item, tokens: seq<Token>)
    requires tokens != [] && item.Opt?
    requires item.names == [] || exists k | 0 <= k < |item.names| :: item.names[k] == "" || item.names[k][0] != '-'
    ensures TryItem(item, tokens).Failed? && TryItem(item, tokens).error.kind == LogicError
  {
  }

  lemma TakenArgument(item: Item, tokens: seq<Token>)
    requires tokens != [] && item.Arg? && item.ValidNames() && Wants(item, tokens[0])
    ensures TriedRight(item, tokens, TryItem(item, tokens))
  {
    assert tokens[..1] == [tokens[0]];
  }

  lemma TakenFlag(item: Item, tokens: seq<Token>)
    requires tokens != [] && item.Opt? && item.ref.Flag? && item.ValidNames() && Wants(item, tokens[0])
    ensures TriedRight(item, tokens, TryItem(item, tokens))
  {
    WantsMeaning(item, tokens);
    hide Wants, Item.ValidNames;
    assert tokens[..1] == [tokens[0]] && tokens[..0] == [];
  }

  lemma TakenValue(item: Item, tokens: seq<Token>)
    requires tokens != [] && item.Opt? && item.ref.Value? && item.ValidNames() && Wants(item, tokens[0])
    ensures TriedRight(item, tokens, TryItem(item, tokens))
  {
    WantsMeaning(item, tokens);
    hide Wants, Item.ValidNames;
    assert tokens[..1] == [tokens[0]];
    if |tokens| > 1 { assert tokens[..2] == [tokens[0], tokens[1]]; }
  }

  lemma EligibleMeaning(items: seq<Item>, counts: seq<nat>, i: nat)
    requires i < |items| == |counts|
    ensures Eligible(items, counts, i) <==> MayMatch(items[i], counts[i])
  {
  }

  /** The item of a round is the first one for the token; an error has its reason. */
  lemma RoundMeaning(items: seq<Item>, counts: seq<nat>, tokens: seq<Token>)
    requires |counts| == |items| && tokens != []
    ensures match RoundOf(items, counts, tokens)
            case Error(e) => Explains(items, counts, tokens, e)
            case Cut(m, rest) => IsFirst(items, counts, tokens, m.index) && SuitsCut(items[m.index], m.used, rest)
            case Go(m, _, _, _) => IsFirst(items, counts, tokens, m.index) && Suits(items[m.index], m.used)
  {
    hide TryItem, Passes, Eligible, MayMatch, Suits, SuitsCut, FailsOn, FirstTaker, Accepts;
    var i := FirstTaker(items, counts, tokens, 0);
    forall j | 0 <= j < |items|
      ensures Eligible(items, counts, j) <==> MayMatch(items[j], counts[j])
      ensures Passes(items[j], tokens) <==> items[j].ValidNames() && !Wants(items[j], tokens[0])
    {
      EligibleMeaning(items, counts, j);
      PassesMeaning(items[j], tokens);
    }
    assert NoneBefore(items, counts, tokens[0], i);
    if i < |items| { TakenMeaning(items[i], tokens); }
  }

  /** The counters after some matches. */
  function Tally(counts: seq<nat>, matches: seq<Match>): (r: seq<nat>)
    ensures |r| == |counts| && forall i | 0 <= i < |counts| :: r[i] == counts[i] + CountOf(matches, i)
  {
    seq(|counts|, i requires 0 <= i < |counts| => counts[i] + CountOf(matches, i))
  }

  lemma TallyCons(counts: seq<nat>, m: Match, matches: seq<Match>)
    requires m.index < |counts|
    ensures Tally(counts, [m] + matches) == Tally(counts[m.index := counts[m.index] + 1], matches)
    ensures Tally(counts, []) == counts
  {
    assert ([m] + matches)[1..] == matches;
  }

  /**
   Over every run: each match is by the first item that may still match and wants the token
   in front, and takes exactly the tokens that are its own.
   */
  lemma {:induction false} MatchesAreRight(
    items: seq<Item>, counts: seq<nat>, last: ResultType, tokens: seq<Token>, k: nat)
    requires |counts| == |items| && last != ShortCircuitAll
    requires k < |RunParser(items, counts, last, tokens).matches|
    ensures var run := RunParser(items, counts, last, tokens);
            var before, m := run.matches[..k], run.matches[k];
            && |Used(before)| <= |tokens|
            && IsFirst(items, Tally(counts, before), tokens[|Used(before)|..], m.index)
            && if k == |run.matches| - 1 && run.result.State? && run.result.kind == ShortCircuitAll
               then SuitsCut(items[m.index], m.used, run.result.rest)
               else Suits(items[m.index], m.used)
    decreases k
  {
    hide RoundOf, IsFirst, Suits, SuitsCut, Explains, Tally, CountOf;
    RoundMeaning(items, counts, tokens);
    var run := RunParser(items, counts, last, tokens);
    TallyNone(counts);
    match RoundOf(items, counts, tokens)
    case Cut(_, _) => assert tokens[0..] == tokens;
    case Go(m, counts', kind, rest) =>
      var more := RunParser(items, counts', kind, rest);
      if k == 0 {
        assert tokens[0..] == tokens;
        CutHasMatch(items, counts', kind, rest);
      } else {
        MatchesAreRight(items, counts', kind, rest, k - 1);
        var before := more.matches[..k - 1];
        assert run.matches[..k] == [m] + before && run.matches[k] == more.matches[k - 1];
        TallyCons(counts, m, before);
        UsedCons(m, before, rest);
      }
  }

  lemma TallyNone(counts: seq<nat>)
    ensures Tally(counts, []) == counts
  {
  }

  lemma UsedCons(m: Match, before: seq<Match>, rest: seq<Token>)
    ensures Used([m] + before) == m.used + Used(before)
    ensures |Used(before)| <= |rest| ==>
              (m.used + rest)[|m.used + Used(before)|..] == rest[|Used(before)|..]
  {
    assert ([m] + before)[1..] == before;
  }

  /** A run that is cut short was cut by its last match. */
  lemma {:induction false} CutHasMatch(items: seq<Item>, counts: seq<nat>, last: ResultType, tokens: seq<Token>)
    requires |counts| == |items| && last != ShortCircuitAll
    ensures var run := RunParser(items, counts, last, tokens);
            run.result.State? && run.result.kind == ShortCircuitAll ==> run.matches != []
  {
    hide RoundOf;
  }

  /** Over every run: a failure has its reason in the tokens and the matches up to there. */
  lemma {:induction false} FailureIsExplained(
    items: seq<Item>, counts: seq<nat>, last: ResultType, tokens: seq<Token>)
    requires |counts| == |items|
    ensures var run := RunParser(items, counts, last, tokens);
            run.result.Failed? ==>
              && |Used(run.matches)| <= |tokens|
              && Explains(items, Tally(counts, run.matches), tokens[|Used(run.matches)|..], run.result.error)
    decreases |tokens|
  {
    hide RoundOf, IsFirst, Suits, SuitsCut, Explains, Tally, CountOf;
    if tokens != [] {
      RoundMeaning(items, counts, tokens);
      TallyNone(counts);
      match RoundOf(items, counts, tokens)
      case Error(_) => assert tokens[0..] == tokens;
      case Cut(_, _) =>
      case Go(m, counts', kind, rest) =>
        FailureIsExplained(items, counts', kind, rest);
        var more := RunParser(items, counts', kind, rest);
        TallyCons(counts, m, more.matches);
        UsedCons(m, more.matches, rest);
    }
  }

  // ---- The parser -----------------------------------------------------------------------

  const MAX_PARSERS := 512

  class Parser {
    var options: seq<Item>
    var args: seq<Item>

    function Items(): seq<Item>
      reads this
    {
      options + args
    }

    ghost predicate Valid()
      reads this
    {
      && (forall k | 0 <= k < |options| :: options[k].Opt?)
      && (forall k | 0 <= k < |args| :: args[k].Arg?)
    }

    constructor ()
      ensures Valid() && Items() == []
    {
      options, args := [], [];
    }

    /** `operator|=`: options go before arguments, whatever the order of adding. */
    method Add(item: Item)
      requires Valid()
      modifies this
      ensures Valid()
      ensures Items() == if item.Opt? then old(options) + [item] + old(args) else old(Items()) + [item]
    {
      if item.Opt? {
        options := options + [item];
      } else {
        args := args + [item];
      }
    }

    /**
     `parse`: terminates on every list of arguments. The result and the matches are those of
     `RunParser` with no item matched so far.
     */
    method Parse(tokens: TokenStream) returns (r: Parsed, ghost matches: seq<Match>)
      requires Valid() && tokens.Valid()
      requires |Items()| < MAX_PARSERS
      ensures tokens.Valid() && tokens.Tokens() == old(tokens.Tokens())
      ensures var run := RunParser(Items(), NoCounts(|Items()|), NoMatch, tokens.Tokens());
              Agrees(r, run.result) && matches == run.matches
    {
      hide RoundOf, Eligible, NoCounts, RunParser, Resumed, TokenStream.Tokens, TokenStream.More, TokenStream.Valid;
      var items := options + args;
      var counts := new nat[|items|](_ => 0);
      AllZero(counts);
      var kind := NoMatch;
      var remaining := new TokenStream.Copy(tokens);
      matches := [];
      ghost var run := RunParser(items, counts[..], kind, remaining.Tokens());
      ResumedFromStart(run);
      while remaining.More()
        invariant remaining.Valid() && fresh(remaining) && fresh(counts)
        invariant counts.Length == |items|
        invariant run == Resumed(matches, RunParser(items, counts[..], kind, remaining.Tokens()))
        decreases |remaining.Tokens()|
      {
        remaining.MoreMeansTokens();
        ghost var round := RoundOf(items, counts[..], remaining.Tokens());
        RunStep(items, counts[..], kind, remaining.Tokens(), matches);
        r := OneRound(items, counts, remaining);
        if r.Failure? || r.kind == ShortCircuitAll {
          matches := matches + if round.Error? then [] else [round.m];
          return r, matches;
        }
        matches := matches + [round.m];
        kind, remaining := r.kind, r.remaining;
      }
      remaining.MoreMeansTokens();
      RunEnd(items, counts[..], kind, matches);
      return Success(kind, remaining), matches;
    }
  }

  function NoCounts(n: nat): seq<nat> {
    seq(n, _ => 0)
  }

  lemma AllZero(counts: array<nat>)
    requires forall k | 0 <= k < counts.Length :: counts[k] == 0
    ensures counts[..] == NoCounts(counts.Length)
  {
  }

  /** The result and the counters after a round. */
  ghost predicate EndsRound(round: Round, r: Parsed, counts: seq<nat>)
    reads if r.Success? then {r.remaining} else {}
  {
    match round
    case Error(e) => r == Failure(e)
    case Cut(_, rest) => Agrees(r, State(ShortCircuitAll, rest))
    case Go(_, counts', kind, rest) => Agrees(r, State(kind, rest)) && counts == counts'
  }

  /** The inner loop of `parse`: the first item that may still match and does takes the token. */
  method OneRound(items: seq<Item>, counts: array<nat>, tokens: TokenStream) returns (r: Parsed)
    requires counts.Length == |items| && tokens.Valid() && tokens.More()
    modifies counts
    ensures tokens.Valid() && tokens.Tokens() == old(tokens.Tokens()) && tokens.Tokens() != []
    ensures EndsRound(RoundOf(items, old(counts[..]), tokens.Tokens()), r, counts[..])
    ensures r.Success? ==> fresh(r.remaining)
  {
    hide TryItem, FirstTaker, RoundOf, Passes, TokenStream.Tokens, TokenStream.More;
    tokens.MoreMeansTokens();
    ghost var before, now := counts[..], tokens.Tokens();
    var i := 0;
    while i < |items|
      invariant i <= |items| && counts[..] == before
      invariant FirstTaker(items, before, now, i) == FirstTaker(items, before, now, 0)
    {
      TakerStep(items, before, now, i);
      if items[i].Cardinality() == 0 || counts[i] < items[i].Cardinality() {
        r := ParseItem(items[i], tokens);
        if r.Failure? {
          return;
        }
        if r.kind != NoMatch {
          counts[i] := counts[i] + 1;
          assert counts[..] == before[i := before[i] + 1];
          return;
        }
      }
      i := i + 1;
    }
    TakerStep(items, before, now, i);
    return Failure(Unrecognised(tokens.buffer[0]));
  }

  /** What the round comes to when the items before `i` do not take the token. */
  lemma TakerStep(items: seq<Item>, counts: seq<nat>, tokens: seq<Token>, i: nat)
    requires i <= |items| == |counts| && tokens != []
    requires FirstTaker(items, counts, tokens, i) == FirstTaker(items, counts, tokens, 0)
    ensures i == |items| ==> RoundOf(items, counts, tokens) == Error(Unrecognised(tokens[0]))
    ensures i < |items| && (!Eligible(items, counts, i) || Passes(items[i], tokens)) ==>
              FirstTaker(items, counts, tokens, i + 1) == FirstTaker(items, counts, tokens, 0)
    ensures i < |items| && Eligible(items, counts, i) && !Passes(items[i], tokens) ==>
              RoundOf(items, counts, tokens) == Taken(counts, tokens, i, TryItem(items[i], tokens))
    ensures i < |items| ==>
              (Passes(items[i], tokens) <==>
               TryItem(items[i], tokens).State? && TryItem(items[i], tokens).kind == NoMatch)
  {
    hide TryItem;
  }
}
