/** The command-line parser of the shell (rust/shell/src/main.rs): a PEG
    grammar splits a line into tokens and pipes, and `parse_redirect`
    turns the `<` and `>` tokens of each stage into nested redirections.
    Each grammar rule is a function from the remaining input to a match
    and the input after it. */
module Shell {
  import opened Wrappers

  /** `Command`. */
  datatype Command =
    | Execute(argv: seq<string>)
    | Pipe(left: Command, right: Command)
    | Redirect(command: Command, op: char, file: string)

  // ---------------------------------------------------------------------------
  // parse_redirect
  // ---------------------------------------------------------------------------

  predicate IsRedirectToken(t: string)
  {
    t == "<" || t == ">"
  }

  /** `argv.iter().position(|t| t == "<" || t == ">")`. */
  function FindRedirect(tokens: seq<string>): (r: Option<nat>)
    ensures r.None? <==> forall i :: 0 <= i < |tokens| ==> !IsRedirectToken(tokens[i])
    ensures r.Some? ==> r.value < |tokens| && IsRedirectToken(tokens[r.value])
                        && forall i :: 0 <= i < r.value ==> !IsRedirectToken(tokens[i])
  {
    if tokens == [] then None
    else if IsRedirectToken(tokens[0]) then Some(0)
    else match FindRedirect(tokens[1..])
      case None => None
      case Some(p) => Some(p + 1)
  }

  /** `parse_redirect`: the first `<` or `>` and the token after it become
      the outermost redirection of what the remaining tokens parse to.
      `None` is the panic of the second `remove` when the operator is the
      last token. */
  function ParseRedirect(tokens: seq<string>): Option<Command>
    decreases |tokens|
  {
    match FindRedirect(tokens)
    case None => Some(Execute(tokens))
    case Some(pos) =>
      if pos + 1 >= |tokens| then None
      else
        match ParseRedirect(tokens[..pos] + tokens[pos + 2..])
        case None => None
        case Some(command) => Some(Redirect(command, tokens[pos][0], tokens[pos + 1]))
  }

  /** `position` finds the first operator. */
  lemma FirstRedirect(tokens: seq<string>, p: nat)
    requires p < |tokens| && IsRedirectToken(tokens[p])
    requires forall i :: 0 <= i < p ==> !IsRedirectToken(tokens[i])
    ensures FindRedirect(tokens) == Some(p)
  {
  }

  /** Tokens without `<` or `>` are executed as they are. */
  lemma NoRedirectIsExecute(tokens: seq<string>)
    requires forall i :: 0 <= i < |tokens| ==> !IsRedirectToken(tokens[i])
    ensures ParseRedirect(tokens) == Some(Execute(tokens))
  {
  }

  /** A reference reading of the tokens from left to right: each `<` or `>`
      takes the token after it as its file, every other token is an
      argument. `None` when an operator has no token after it. */
  function Scan(tokens: seq<string>): Option<(seq<string>, seq<(char, string)>)>
    decreases |tokens|
  {
    if tokens == [] then Some(([], []))
    else if IsRedirectToken(tokens[0]) then
      if |tokens| < 2 then None
      else match Scan(tokens[2..])
        case None => None
        case Some((argv, redirects)) => Some((argv, [(tokens[0][0], tokens[1])] + redirects))
    else match Scan(tokens[1..])
      case None => None
      case Some((argv, redirects)) => Some(([tokens[0]] + argv, redirects))
  }

  /** The redirections wrapped around the execution of `argv`, the first
      one outermost. */
  function Nest(argv: seq<string>, redirects: seq<(char, string)>): Command
    decreases |redirects|
  {
    if redirects == [] then Execute(argv)
    else Redirect(Nest(argv, redirects[1..]), redirects[0].0, redirects[0].1)
  }

  /** Arguments in front of the rest do not change how the rest scans. */
  lemma {:induction false} ScanArguments(prefix: seq<string>, rest: seq<string>)
    requires forall i :: 0 <= i < |prefix| ==> !IsRedirectToken(prefix[i])
    ensures Scan(prefix + rest).Some? <==> Scan(rest).Some?
    ensures Scan(rest).Some? ==>
              Scan(prefix + rest) == Some((prefix + Scan(rest).value.0, Scan(rest).value.1))
    decreases |prefix|
  {
    if prefix != [] {
      assert (prefix + rest)[0] == prefix[0];
      assert (prefix + rest)[1..] == prefix[1..] + rest;
      ScanArguments(prefix[1..], rest);
      if Scan(rest).Some? {
        var argv := Scan(prefix[1..] + rest).value.0;
        assert Scan(prefix + rest) == Some(([prefix[0]] + argv, Scan(rest).value.1));
        assert [prefix[0]] + (prefix[1..] + Scan(rest).value.0) == prefix + Scan(rest).value.0;
      }
    } else {
      assert prefix + rest == rest;
      if Scan(rest).Some? {
        assert prefix + Scan(rest).value.0 == Scan(rest).value.0;
      }
    }
  }

  /** `parse_redirect` agrees with the left-to-right reading: it panics
      exactly when an operator is left without a file, and otherwise
      executes the other tokens in their order inside the redirections in
      the order they appear. */
  lemma {:induction false} ParseRedirectIsScan(tokens: seq<string>)
    ensures ParseRedirect(tokens).Some? <==> Scan(tokens).Some?
    ensures Scan(tokens).Some? ==> ParseRedirect(tokens) == Some(Nest(Scan(tokens).value.0, Scan(tokens).value.1))
    decreases |tokens|
  {
    match FindRedirect(tokens)
    case None =>
      ScanArguments(tokens, []);
      assert tokens + [] == tokens;
    case Some(pos) =>
      var prefix := tokens[..pos];
      assert tokens == prefix + tokens[pos..];
      ScanArguments(prefix, tokens[pos..]);
      if pos + 1 < |tokens| {
        var rest := prefix + tokens[pos + 2..];
        ParseRedirectIsScan(rest);
        ScanArguments(prefix, tokens[pos + 2..]);
        assert tokens[pos..][2..] == tokens[pos + 2..];
      }
  }

  // ---------------------------------------------------------------------------
  // The grammar
  // ---------------------------------------------------------------------------

  /** The outcome of a rule: a match with the input after it, no match (the
      caller backtracks), or a panic inside an action, which ends the
      whole parse. */
  datatype Parse<T> = Match(value: T, rest: string) | NoMatch | Abort

  /** The characters `sep` skips. */
  predicate IsSpace(c: char)
  {
    c == ' ' || c == '\t' || c == '\n'
  }

  /** The characters of a word token: anything but `<`, `>`, `|` and a
      space (a tab or a newline is part of a word). */
  predicate IsWordChar(c: char)
  {
    c != '<' && c != '>' && c != '|' && c != ' '
  }

  /** `sep`: the input after its leading spaces, tabs and newlines. */
  function SepRule(s: string): (r: string)
    ensures |r| <= |s|
    ensures r == [] || !IsSpace(r[0])
  {
    if s != [] && IsSpace(s[0]) then SepRule(s[1..]) else s
  }

  /** The length of the run of word characters at the start of `s`. */
  function WordLength(s: string): (n: nat)
    ensures n <= |s|
  {
    if s != [] && IsWordChar(s[0]) then 1 + WordLength(s[1..]) else 0
  }

  /** `token`: `<`, `>`, or the longest non-empty run of word characters. */
  function TokenRule(s: string): (r: Option<(string, string)>)
    ensures r.Some? ==> |r.value.1| < |s| && s == r.value.0 + r.value.1
  {
    if s == [] then None
    else if s[0] == '<' then Some(("<", s[1..]))
    else if s[0] == '>' then Some((">", s[1..]))
    else
      var n := WordLength(s);
      if n == 0 then None else Some((s[..n], s[n..]))
  }

  /** `(sep() arg:token() { arg })+` without its at-least-one check: the
      tokens, each after optional separators, and the input after the last
      one. A separator not followed by a token is not consumed. */
  function TokensRule(s: string): (r: (seq<string>, string))
    ensures |r.1| <= |s|
    decreases |s|
  {
    match TokenRule(SepRule(s))
    case None => ([], s)
    case Some((t, s')) =>
      var (ts, rest) := TokensRule(s');
      ([t] + ts, rest)
  }

  /** `execute`: one or more tokens, handed to `parse_redirect`. */
  function ExecuteRule(s: string): (r: Parse<Command>)
    ensures r.Match? ==> |r.rest| < |s|
  {
    var (tokens, rest) := TokensRule(s);
    if tokens == [] then NoMatch
    else
      TokensShorten(s);
      match ParseRedirect(tokens)
      case None => Abort
      case Some(command) => Match(command, rest)
  }

  lemma TokensShorten(s: string)
    requires TokensRule(s).0 != []
    ensures |TokensRule(s).1| < |s|
  {
    var s' := TokenRule(SepRule(s)).value.1;
    assert |s'| < |s|;
  }

  /** `pipe`: an `execute`, then `|` after optional separators, then a
      whole `command`. */
  function PipeRule(s: string): (r: Parse<Command>)
    ensures r.Match? ==> |r.rest| < |s|
    decreases |s|, 0
  {
    match ExecuteRule(s)
    case NoMatch => NoMatch
    case Abort => Abort
    case Match(left, rest) =>
      var afterSep := SepRule(rest);
      if afterSep != [] && afterSep[0] == '|' then
        match CommandRule(afterSep[1..])
        case NoMatch => NoMatch
        case Abort => Abort
        case Match(right, rest') => Match(Pipe(left, right), rest')
      else NoMatch
  }

  /** `command`: a `pipe` if one matches, otherwise an `execute`. */
  function CommandRule(s: string): (r: Parse<Command>)
    ensures r.Match? ==> |r.rest| < |s|
    decreases |s|, 1
  {
    match PipeRule(s)
    case Match(c, rest) => Match(c, rest)
    case Abort => Abort
    case NoMatch => ExecuteRule(s)
  }

  /** How `shell::command` on a line ends. */
  datatype Outcome = Parsed(command: Command) | SyntaxError | Panicked

  /** `shell::command`: the `command` rule must consume the whole line. */
  function ParseLine(line: string): Outcome
  {
    match CommandRule(line)
    case Match(c, rest) => if rest == [] then Parsed(c) else SyntaxError
    case NoMatch => SyntaxError
    case Abort => Panicked
  }

  // ---------------------------------------------------------------------------
  // Lines made of tokens
  // ---------------------------------------------------------------------------

  /** A token as `token` reads it back: an operator, or a non-empty word
      that does not start with a tab or a newline (`sep` would skip it). */
  predicate IsLexeme(t: string)
  {
    IsRedirectToken(t) || (t != [] && !IsSpace(t[0]) && forall i :: 0 <= i < |t| ==> IsWordChar(t[i]))
  }

  predicate Lexemes(tokens: seq<string>)
  {
    forall i :: 0 <= i < |tokens| ==> IsLexeme(tokens[i])
  }

  /** Tokens written with one space between them. */
  function Unwords(tokens: seq<string>): string
    decreases |tokens|
  {
    if tokens == [] then ""
    else if |tokens| == 1 then tokens[0]
    else tokens[0] + " " + Unwords(tokens[1..])
  }

  predicate AllSpace(s: string)
  {
    forall i :: 0 <= i < |s| ==> IsSpace(s[i])
  }

  /** What may follow a line's last token without joining it or adding
      a token: nothing, or a non-word character after which no token
      starts. */
  predicate Stops(rest: string)
  {
    (rest == [] || !IsWordChar(rest[0])) && TokenRule(SepRule(rest)).None?
  }

  lemma SepSkips(space: string, s: string)
    requires AllSpace(space) && (s == [] || !IsSpace(s[0]))
    ensures SepRule(space + s) == s
    decreases |space|
  {
    if space != [] {
      assert (space + s)[1..] == space[1..] + s;
      SepSkips(space[1..], s);
    } else {
      assert space + s == s;
    }
  }

  /** A run of `n` word characters that ends there has length `n`. */
  lemma {:induction false} WordLengthOf(s: string, n: nat)
    requires n <= |s| && (n == |s| || !IsWordChar(s[n]))
    requires forall i :: 0 <= i < n ==> IsWordChar(s[i])
    ensures WordLength(s) == n
    decreases n
  {
    if n > 0 {
      var s' := s[1..];
      assert forall i :: 0 <= i < n - 1 ==> IsWordChar(s'[i]) by {
        forall i | 0 <= i < n - 1 ensures IsWordChar(s'[i]) {
          assert s'[i] == s[i + 1];
        }
      }
      assert n - 1 == |s'| || s'[n - 1] == s[n];
      WordLengthOf(s', n - 1);
    }
  }

  /** A lexeme followed by a stop is read back as that one token. */
  lemma TokenOf(t: string, rest: string)
    requires IsLexeme(t) && (IsRedirectToken(t) || rest == [] || !IsWordChar(rest[0]))
    ensures TokenRule(t + rest) == Some((t, rest))
  {
    if !IsRedirectToken(t) {
      var s := t + rest;
      assert forall i :: 0 <= i < |t| ==> s[i] == t[i];
      assert |t| == |s| || s[|t|] == rest[0];
      WordLengthOf(s, |t|);
      assert s[..|t|] == t && s[|t|..] == rest;
    } else {
      assert (t + rest)[1..] == rest;
    }
  }

  /** One lexeme after separators: `tokens` takes it, then goes on with
      what follows. */
  lemma TokensCons(space: string, t: string, more: string)
    requires AllSpace(space) && IsLexeme(t) && (IsRedirectToken(t) || more == [] || !IsWordChar(more[0]))
    ensures TokensRule(space + (t + more)) == ([t] + TokensRule(more).0, TokensRule(more).1)
  {
    assert (t + more)[0] == t[0];
    SepSkips(space, t + more);
    TokenOf(t, more);
  }

  lemma UnwordsCons(tokens: seq<string>, rest: string)
    requires tokens != []
    ensures Unwords(tokens) + rest ==
            tokens[0] + (if |tokens| == 1 then rest else " " + Unwords(tokens[1..]) + rest)
  {
    if |tokens| > 1 {
      assert Unwords(tokens) == tokens[0] + " " + Unwords(tokens[1..]);
    }
  }

  /** After a stop `tokens` takes nothing, whatever separators come first. */
  lemma TokensStop(space: string, rest: string)
    requires AllSpace(space) && Stops(rest)
    ensures TokensRule(space + rest) == ([], space + rest)
  {
    SepSuffix(space, rest);
  }

  lemma ConsAppend<T>(x: T, a: seq<T>, b: seq<T>, s: seq<T>)
    requires s == [x] + a
    ensures [x] + (a + b) == s + b
  {
  }

  /** Tokens written with spaces, then a non-word character: `tokens`
      reads those tokens and goes on with what follows. */
  lemma {:induction false} TokensAppend(space: string, tokens: seq<string>, rest: string)
    requires AllSpace(space) && tokens != [] && (rest == [] || !IsWordChar(rest[0]))
    requires forall i :: 0 <= i < |tokens| ==> IsLexeme(tokens[i])
    ensures TokensRule(space + Unwords(tokens) + rest) == (tokens + TokensRule(rest).0, TokensRule(rest).1)
    decreases |tokens|
  {
    if |tokens| == 1 {
      TokensStep(space, tokens, rest, rest, TokensRule(rest).0, TokensRule(rest).1);
      assert [tokens[0]] == tokens;
    } else {
      var tail := tokens[1..];
      assert forall i :: 0 <= i < |tail| ==> IsLexeme(tail[i]) by {
        forall i | 0 <= i < |tail| ensures IsLexeme(tail[i]) {
          assert tail[i] == tokens[i + 1];
        }
      }
      TokensAppend(" ", tail, rest);
      TokensStep(space, tokens, rest, " " + Unwords(tail) + rest,
                 tail + TokensRule(rest).0, TokensRule(rest).1);
      assert [tokens[0]] + tail == tokens;
      ConsAppend(tokens[0], tail, TokensRule(rest).0, tokens);
    }
  }

  /** Tokens written with spaces are read back as those tokens, whatever
      separators come first. */
  lemma TokensOfUnwords(space: string, tokens: seq<string>, rest: string)
    requires AllSpace(space) && Stops(rest)
    requires forall i :: 0 <= i < |tokens| ==> IsLexeme(tokens[i])
    ensures TokensRule(space + Unwords(tokens) + rest) == (tokens, if tokens == [] then space + rest else rest)
  {
    if tokens == [] {
      assert space + Unwords(tokens) + rest == space + rest;
      TokensStop(space, rest);
    } else {
      TokensAppend(space, tokens, rest);
      TokensStopped(rest);
      AppendNothing(tokens);
    }
  }

  lemma TokensStopped(rest: string)
    requires Stops(rest)
    ensures TokensRule(rest) == ([], rest)
  {
  }

  lemma AppendNothing<T>(s: seq<T>)
    ensures s + [] == s
  {
  }

  /** The induction step: the first token, then what `tokens` reads after it. */
  lemma TokensStep(space: string, tokens: seq<string>, rest: string, more: string, read: seq<string>, after: string)
    requires AllSpace(space) && tokens != [] && IsLexeme(tokens[0])
    requires more == if |tokens| == 1 then rest else " " + Unwords(tokens[1..]) + rest
    requires more == [] || !IsWordChar(more[0])
    requires TokensRule(more) == (read, after)
    ensures TokensRule(space + Unwords(tokens) + rest) == ([tokens[0]] + read, after)
  {
    UnwordsCons(tokens, rest);
    assert space + Unwords(tokens) + rest == space + (tokens[0] + more);
    TokensCons(space, tokens[0], more);
  }

  /** Separators in front do not change where `sep` stops. */
  lemma SepSuffix(space: string, s: string)
    requires AllSpace(space)
    ensures SepRule(space + s) == SepRule(s)
    decreases |space|
  {
    if space != [] {
      assert (space + s)[1..] == space[1..] + s;
      SepSuffix(space[1..], s);
    } else {
      assert space + s == s;
    }
  }

  /** Without a `|` after it, an `execute` is the whole `command`. */
  lemma ExecuteAlone(s: string)
    requires ExecuteRule(s).Match? ==>
               var after := SepRule(ExecuteRule(s).rest); after == [] || after[0] != '|'
    ensures CommandRule(s) == ExecuteRule(s)
  {
  }

  /** `execute` hands the tokens it reads to `parse_redirect`. */
  lemma ExecuteOf(s: string, tokens: seq<string>, rest: string)
    requires TokensRule(s) == (tokens, rest)
    ensures ExecuteRule(s) ==
            if tokens == [] then NoMatch
            else match ParseRedirect(tokens)
              case None => Abort
              case Some(c) => Match(c, rest)
  {
  }

  /** An `execute`, a `|` after separators, then a `command`: a pipe. */
  lemma PipeOf(s: string, left: Command, rest: string, right: Command, rest': string)
    requires ExecuteRule(s) == Match(left, rest)
    requires SepRule(rest) != [] && SepRule(rest)[0] == '|'
    requires CommandRule(SepRule(rest)[1..]) == Match(right, rest')
    ensures CommandRule(s) == Match(Pipe(left, right), rest')
  {
  }

  /** What `sep` leaves of ` | ` and the stages after it. */
  lemma PipeSep(more: string)
    ensures SepRule(" | " + more) == "| " + more
    ensures ("| " + more)[1..] == " " + more
    ensures Stops(" | " + more)
  {
    SepSkips(" ", "| " + more);
    assert " " + ("| " + more) == " | " + more;
  }

  /** Tokens with no `|` after them: the `command` is their `execute`. */
  lemma CommandOfTokens(line: string, tokens: seq<string>, rest: string)
    requires TokensRule(line) == (tokens, rest)
    requires SepRule(rest) == [] || SepRule(rest)[0] != '|'
    ensures CommandRule(line) ==
            if tokens == [] then NoMatch
            else match ParseRedirect(tokens)
              case None => Abort
              case Some(c) => Match(c, rest)
  {
    ExecuteOf(line, tokens, rest);
    ExecuteAlone(line);
  }

  lemma Unpadded(s: string, r: string)
    ensures "" + s + r == s + r && s + "" == s
  {
  }

  /** A line of tokens is one `execute`: what `parse_redirect` makes of the
      tokens, or its panic; a line with no token is a syntax error. */
  lemma ParseUnwords(tokens: seq<string>)
    requires forall i :: 0 <= i < |tokens| ==> IsLexeme(tokens[i])
    ensures ParseLine(Unwords(tokens)) ==
            if tokens == [] then SyntaxError
            else match ParseRedirect(tokens)
              case None => Panicked
              case Some(c) => Parsed(c)
  {
    var line := Unwords(tokens);
    TokensOfUnwords("", tokens, "");
    Unpadded(line, "");
    CommandOfTokens(line, tokens, "");
  }

  /** The grammar has no separator after the last token: a line that ends
      in a space is a syntax error even when the same line without it
      parses. */
  lemma TrailingSpaceRejected(tokens: seq<string>)
    requires forall i :: 0 <= i < |tokens| ==> IsLexeme(tokens[i])
    requires tokens != [] && ParseRedirect(tokens).Some?
    ensures ParseLine(Unwords(tokens)) == Parsed(ParseRedirect(tokens).value)
    ensures ParseLine(Unwords(tokens) + " ") == SyntaxError
  {
    ParseUnwords(tokens);
    var line := Unwords(tokens) + " ";
    TokensOfUnwords("", tokens, " ");
    Unpadded(Unwords(tokens), " ");
    CommandOfTokens(line, tokens, " ");
  }

  /** Stages written with ` | ` between them. */
  function Pipeline(stages: seq<seq<string>>): string
    decreases |stages|
  {
    if stages == [] then ""
    else if |stages| == 1 then Unwords(stages[0])
    else Unwords(stages[0]) + " | " + Pipeline(stages[1..])
  }

  /** The commands of the stages, piped to the right: the last stage is the
      innermost right-hand side. */
  function Piped(commands: seq<Command>): Command
    requires commands != []
    decreases |commands|
  {
    if |commands| == 1 then commands[0] else Pipe(commands[0], Piped(commands[1..]))
  }

  /** A pipeline of stages, each of which `parse_redirect` accepts, parses
      to the stages' commands nested to the right. */
  lemma {:induction false} ParsePipeline(space: string, stages: seq<seq<string>>, commands: seq<Command>)
    requires AllSpace(space) && stages != [] && |commands| == |stages|
    requires forall k :: 0 <= k < |stages| ==> stages[k] != [] && ParseRedirect(stages[k]) == Some(commands[k])
    requires forall k :: 0 <= k < |stages| ==> Lexemes(stages[k])
    ensures CommandRule(space + Pipeline(stages)) == Match(Piped(commands), "")
    decreases |stages|
  {
    if |stages| == 1 {
      PipelineOfOne(space, stages, commands);
    } else {
      var stages', commands' := stages[1..], commands[1..];
      forall k | 0 <= k < |stages'|
        ensures stages'[k] != [] && ParseRedirect(stages'[k]) == Some(commands'[k]) && Lexemes(stages'[k])
      {
        assert stages'[k] == stages[k + 1] && commands'[k] == commands[k + 1];
      }
      ParsePipeline(" ", stages', commands');
      PipelineOfMore(space, stages, commands);
    }
  }

  lemma PipelineOfOne(space: string, stages: seq<seq<string>>, commands: seq<Command>)
    requires AllSpace(space) && |stages| == 1 && |commands| == 1
    requires stages[0] != [] && ParseRedirect(stages[0]) == Some(commands[0]) && Lexemes(stages[0])
    ensures CommandRule(space + Pipeline(stages)) == Match(Piped(commands), "")
  {
    LastStage(space, stages[0], commands[0]);
  }

  lemma PipelineOfMore(space: string, stages: seq<seq<string>>, commands: seq<Command>)
    requires AllSpace(space) && |stages| > 1 && |commands| == |stages|
    requires stages[0] != [] && ParseRedirect(stages[0]) == Some(commands[0]) && Lexemes(stages[0])
    requires CommandRule(" " + Pipeline(stages[1..])) == Match(Piped(commands[1..]), "")
    ensures CommandRule(space + Pipeline(stages)) == Match(Piped(commands), "")
  {
    var more := Pipeline(stages[1..]);
    assert space + Pipeline(stages) == space + Unwords(stages[0]) + (" | " + more);
    PipeStage(space, stages[0], commands[0], more, Piped(commands[1..]));
  }

  /** The last stage of a pipeline is an `execute` that ends the line. */
  lemma LastStage(space: string, first: seq<string>, command: Command)
    requires AllSpace(space) && Lexemes(first) && first != [] && ParseRedirect(first) == Some(command)
    ensures CommandRule(space + Unwords(first)) == Match(command, "")
  {
    TokensOfUnwords(space, first, "");
    assert space + Unwords(first) + "" == space + Unwords(first);
    CommandOfTokens(space + Unwords(first), first, "");
  }

  /** A stage, ` | `, and a `command` for the rest of the line: a pipe. */
  lemma PipeStage(space: string, first: seq<string>, left: Command, more: string, right: Command)
    requires AllSpace(space) && Lexemes(first) && first != [] && ParseRedirect(first) == Some(left)
    requires CommandRule(" " + more) == Match(right, "")
    ensures CommandRule(space + Unwords(first) + (" | " + more)) == Match(Pipe(left, right), "")
  {
    var rest := " | " + more;
    var line := space + Unwords(first) + rest;
    PipeSep(more);
    TokensOfUnwords(space, first, rest);
    ExecuteOf(line, first, rest);
    PipeOf(line, left, rest, right, "");
  }

  // ---------------------------------------------------------------------------
  // The lines of the test suite
  // ---------------------------------------------------------------------------

  /** `echo foo bar`. */
  lemma ExecuteExample(line: string)
    requires line == "echo foo bar"
    ensures ParseLine(line) == Parsed(Execute(["echo", "foo", "bar"]))
  {
    assert Unwords(["echo", "foo", "bar"]) == line;
    ParseUnwords(["echo", "foo", "bar"]);
  }

  /** `ls | grep foo`. */
  lemma PipeExample(line: string)
    requires line == "ls | grep foo"
    ensures ParseLine(line) == Parsed(Pipe(Execute(["ls"]), Execute(["grep", "foo"])))
  {
    var stages := [["ls"], ["grep", "foo"]];
    assert Pipeline(stages) == line;
    ParsePipeline("", stages, [Execute(["ls"]), Execute(["grep", "foo"])]);
    assert "" + line == line;
  }

  /** `echo HELLO > output.txt`. */
  lemma RedirectExample(line: string)
    requires line == "echo HELLO > output.txt"
    ensures ParseLine(line) == Parsed(Redirect(Execute(["echo", "HELLO"]), '>', "output.txt"))
  {
    var tokens := ["echo", "HELLO", ">", "output.txt"];
    EchoWords(tokens, line);
    EchoLexemes(tokens);
    EchoRedirect(tokens);
    ParseUnwords(tokens);
  }

  lemma EchoWords(tokens: seq<string>, line: string)
    requires tokens == ["echo", "HELLO", ">", "output.txt"]
    requires line == "echo HELLO > output.txt"
    ensures Unwords(tokens) == line
  {
    assert tokens[1..][1..][1..] == ["output.txt"];
    assert Unwords(tokens[1..][1..][1..]) == "output.txt";
    assert Unwords(tokens[1..][1..]) == ">" + " " + "output.txt";
    assert Unwords(tokens[1..]) == "HELLO" + " " + (">" + " " + "output.txt");
    assert Unwords(tokens) == "echo" + " " + ("HELLO" + " " + (">" + " " + "output.txt"));
  }

  lemma EchoLexemes(tokens: seq<string>)
    requires tokens == ["echo", "HELLO", ">", "output.txt"]
    ensures forall i :: 0 <= i < |tokens| ==> IsLexeme(tokens[i])
  {
  }

  lemma EchoRedirect(tokens: seq<string>)
    requires tokens == ["echo", "HELLO", ">", "output.txt"]
    ensures ParseRedirect(tokens) == Some(Redirect(Execute(["echo", "HELLO"]), '>', "output.txt"))
  {
    OneRedirect(tokens, 2);
    assert tokens[..2] + tokens[4..] == ["echo", "HELLO"];
  }

  lemma Regroup(a: string, b: string, c: string, x: seq<string>, y: seq<string>, z: seq<string>)
    ensures "" + a + (b + c) == a + b + c
    ensures x + (y + z) == x + y + z
  {
  }

  /** An operator needs no space around it: words, an operator and words
      read as the one run of tokens. */
  lemma TokensAroundOperator(before: seq<string>, op: string, after: seq<string>)
    requires before != [] && after != [] && IsRedirectToken(op)
    requires forall i :: 0 <= i < |before| ==> IsLexeme(before[i])
    requires forall i :: 0 <= i < |after| ==> IsLexeme(after[i])
    ensures TokensRule(Unwords(before) + op + Unwords(after)) == (before + [op] + after, "")
  {
    var tail := Unwords(after);
    TokensOfUnwords("", after, "");
    assert "" + tail + "" == tail;
    assert (tail == [] || !IsWordChar(tail[0])) || IsRedirectToken(op);
    TokensCons("", op, tail);
    assert "" + (op + tail) == op + tail;
    assert op[0] == '<' || op[0] == '>';
    TokensAppend("", before, op + tail);
    Regroup(Unwords(before), op, tail, before, [op], after);
  }

  /** `echo A B>X C`: the arguments after the redirection stay in the
      command. */
  lemma ComplexRedirectExample(line: string)
    requires line == "echo A B>X C"
    ensures ParseLine(line) == Parsed(Redirect(Execute(["echo", "A", "B", "C"]), '>', "X"))
  {
    var before := ["echo", "A", "B"];
    var after := ["X", "C"];
    assert Unwords(before) + ">" + Unwords(after) == line;
    TokensAroundOperator(before, ">", after);
    var tokens := before + [">"] + after;
    ComplexRedirectTokens(tokens);
    ExecuteOf(line, tokens, "");
    ExecuteAlone(line);
  }

  lemma ComplexRedirectTokens(tokens: seq<string>)
    requires tokens == ["echo", "A", "B"] + [">"] + ["X", "C"]
    ensures ParseRedirect(tokens) == Some(Redirect(Execute(["echo", "A", "B", "C"]), '>', "X"))
  {
    assert tokens == ["echo", "A", "B", ">", "X", "C"];
    FirstRedirect(tokens, 3);
    assert tokens[..3] + tokens[5..] == ["echo", "A", "B", "C"];
    NoRedirectIsExecute(["echo", "A", "B", "C"]);
  }

  /** A line of stages, each of which `parse_redirect` accepts, parses to
      the stages' commands piped to the right. */
  lemma ParsePipelineLine(stages: seq<seq<string>>, commands: seq<Command>)
    requires stages != [] && |commands| == |stages|
    requires forall k :: 0 <= k < |stages| ==> stages[k] != [] && ParseRedirect(stages[k]) == Some(commands[k])
    requires forall k :: 0 <= k < |stages| ==> Lexemes(stages[k])
    ensures ParseLine(Pipeline(stages)) == Parsed(Piped(commands))
  {
    ParsePipeline("", stages, commands);
    assert "" + Pipeline(stages) == Pipeline(stages);
  }

  lemma ComplexLine(first: seq<string>, second: seq<string>, third: seq<string>)
    requires first == ["cat", "<", "input.txt"]
    requires second == ["grep", "keyword"]
    requires third == ["grep", "-v", "exclude", ">", "output.txt"]
    ensures Pipeline([first, second, third]) ==
            "cat < input.txt" + " | " + "grep keyword" + " | " + "grep -v exclude > output.txt"
  {
    PipelineThree(first, second, third);
    UnwordsThree(first);
    assert Unwords(first) == "cat < input.txt";
    assert Unwords(second) == "grep keyword";
    ThirdStageText(third);
  }

  lemma PipelineThree(a: seq<string>, b: seq<string>, c: seq<string>)
    ensures Pipeline([a, b, c]) == Unwords(a) + " | " + Unwords(b) + " | " + Unwords(c)
  {
    var stages := [a, b, c];
    assert stages[1..][1..] == [c];
    assert Pipeline(stages[1..]) == Unwords(b) + " | " + Unwords(c);
  }

  lemma ThirdStageText(third: seq<string>)
    requires third == ["grep", "-v", "exclude", ">", "output.txt"]
    ensures Unwords(third) == "grep -v exclude > output.txt"
  {
    UnwordsThree(third[2..]);
    assert third[2..][1..] == third[3..];
    assert Unwords(third) == "grep" + " " + ("-v" + " " + Unwords(third[2..]));
    assert Unwords(third[2..]) == "exclude > output.txt";
  }

  lemma ComplexLexemes(first: seq<string>, second: seq<string>, third: seq<string>)
    requires first == ["cat", "<", "input.txt"]
    requires second == ["grep", "keyword"]
    requires third == ["grep", "-v", "exclude", ">", "output.txt"]
    ensures Lexemes(first) && Lexemes(second) && Lexemes(third)
  {
    assert IsLexeme("cat") && IsLexeme("<") && IsLexeme("input.txt");
    assert IsLexeme("grep") && IsLexeme("keyword");
    assert IsLexeme("-v") && IsLexeme("exclude") && IsLexeme(">") && IsLexeme("output.txt");
  }

  lemma UnwordsThree(tokens: seq<string>)
    requires |tokens| == 3
    ensures Unwords(tokens) == tokens[0] + " " + tokens[1] + " " + tokens[2]
  {
    assert tokens[1..][1..] == [tokens[2]];
    assert Unwords(tokens[1..]) == tokens[1] + " " + tokens[2];
    assert Unwords(tokens) == tokens[0] + " " + (tokens[1] + " " + tokens[2]);
  }

  /** `cat < input.txt | grep keyword | grep -v exclude > output.txt`,
      written stage by stage: redirections bind inside their own stage,
      pipes nest to the right. */
  lemma ComplexExample(line: string)
    requires line == "cat < input.txt" + " | " + "grep keyword" + " | " + "grep -v exclude > output.txt"
    ensures ParseLine(line) ==
            Parsed(Pipe(Redirect(Execute(["cat"]), '<', "input.txt"),
                        Pipe(Execute(["grep", "keyword"]),
                             Redirect(Execute(["grep", "-v", "exclude"]), '>', "output.txt"))))
  {
    var first := ["cat", "<", "input.txt"];
    var second := ["grep", "keyword"];
    var third := ["grep", "-v", "exclude", ">", "output.txt"];
    var commands := [Redirect(Execute(["cat"]), '<', "input.txt"),
                     Execute(["grep", "keyword"]),
                     Redirect(Execute(["grep", "-v", "exclude"]), '>', "output.txt")];
    ComplexLine(first, second, third);
    ComplexStages(first, second, third, commands);
    ParsePipelineLine([first, second, third], commands);
    assert Piped(commands[2..]) == commands[2];
  }

  /** The stages of the line above, each as `parse_redirect` makes it. */
  lemma ComplexStages(first: seq<string>, second: seq<string>, third: seq<string>, commands: seq<Command>)
    requires first == ["cat", "<", "input.txt"]
    requires second == ["grep", "keyword"]
    requires third == ["grep", "-v", "exclude", ">", "output.txt"]
    requires commands == [Redirect(Execute(["cat"]), '<', "input.txt"),
                          Execute(["grep", "keyword"]),
                          Redirect(Execute(["grep", "-v", "exclude"]), '>', "output.txt")]
    ensures forall k :: 0 <= k < 3 ==> [first, second, third][k] != [] && Lexemes([first, second, third][k])
    ensures forall k :: 0 <= k < 3 ==> ParseRedirect([first, second, third][k]) == Some(commands[k])
  {
    OneRedirect(first, 1);
    NoRedirectIsExecute(second);
    OneRedirect(third, 3);
    assert first[..1] + first[3..] == ["cat"];
    assert third[..3] + third[5..] == ["grep", "-v", "exclude"];
    ComplexLexemes(first, second, third);
  }

  /** A stage with one redirection at `p`. */
  lemma OneRedirect(tokens: seq<string>, p: nat)
    requires p + 1 < |tokens| && IsRedirectToken(tokens[p])
    requires forall i :: 0 <= i < |tokens| && i != p ==> !IsRedirectToken(tokens[i])
    ensures ParseRedirect(tokens) ==
            Some(Redirect(Execute(tokens[..p] + tokens[p + 2..]), tokens[p][0], tokens[p + 1]))
  {
    FirstRedirect(tokens, p);
    var rest := tokens[..p] + tokens[p + 2..];
    forall i | 0 <= i < |rest| ensures !IsRedirectToken(rest[i]) {
      if i < p {
        assert rest[i] == tokens[i];
      } else {
        assert rest[i] == tokens[i + 2];
      }
    }
    NoRedirectIsExecute(rest);
  }
}
