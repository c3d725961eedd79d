/** The command lexer of parse/lex.py: one left-to-right scan with a
    two-state register (NONE / COMMAND) that emits COMMAND,
    COMMAND_ARG_START and COMMAND_ARG_END tokens with index spans. */
module Lex {

  /** Every token kind the pipeline uses. The lexer itself only produces the
      first three; the parser also consults NUMBER, VAR, ARG and the two
      parenthesis kinds, which the lexer never emits. */
  datatype TokenKind =
    | Command
    | CommandArgStart
    | CommandArgEnd
    | Number
    | Var
    | Arg
    | ParenLeft
    | ParenRight

  /** A token; startIdx and endIdx are positions in the input string. */
  datatype LexToken = LexToken(kind: TokenKind, value: string, startIdx: nat, endIdx: nat)

  /** The scanner's state register. */
  datatype LexState = NoneState | CommandState

  /** The loop's variables: state, token_start and the tokens emitted so far. */
  datatype Scanner = Scanner(state: LexState, tokenStart: nat, tokens: seq<LexToken>)

  predicate IsDelimiter(ch: char) {
    ch == '\\' || ch == ' ' || ch == '{'
  }

  function Last<T>(s: seq<T>): T
    requires |s| > 0
  {
    s[|s| - 1]
  }

  /** The one token a scan in COMMAND still owes: the flushed command. */
  function Pending(s: Scanner): nat
  {
    if s.state == CommandState then 1 else 0
  }

  /** One iteration of the loop body, at position i of the input. It adds
      at most one token, counting the command it leaves pending. */
  function Step(input: string, s: Scanner, i: nat): (r: Scanner)
    requires i < |input| && s.tokenStart <= i
    ensures r.tokenStart <= i
    ensures |s.tokens| <= |r.tokens| && r.tokens[..|s.tokens|] == s.tokens
    ensures |r.tokens| + Pending(r) <= |s.tokens| + Pending(s) + 1
  {
    var ch := input[i];
    match s.state
    case CommandState =>
      if IsDelimiter(ch) then
        var cmd := LexToken(Command, input[s.tokenStart..i], s.tokenStart, i);
        if ch == ' ' then
          Scanner(NoneState, s.tokenStart, s.tokens + [cmd])
        else if ch == '{' then
          Scanner(NoneState, s.tokenStart, s.tokens + [cmd, LexToken(CommandArgStart, "{", i, i)])
        else
          // a backslash closes the pending command but keeps token_start
          Scanner(CommandState, s.tokenStart, s.tokens + [cmd])
      else
        s
    case NoneState =>
      if ch == '\\' then
        Scanner(CommandState, i, s.tokens)
      else if ch == '}' then
        Scanner(NoneState, s.tokenStart, s.tokens + [LexToken(CommandArgEnd, "}", i, i)])
      else
        // every other character, '{' included, is dropped
        s
  }

  /** The scanner after the loop has processed input[..n]: at most one
      token per character read, the pending command included. */
  function Scan(input: string, n: nat): (s: Scanner)
    requires n <= |input|
    ensures s.tokenStart <= n
    ensures s.state == CommandState ==> s.tokenStart < n
    ensures |s.tokens| + Pending(s) <= n
  {
    if n == 0 then Scanner(NoneState, 0, [])
    else Step(input, Scan(input, n - 1), n - 1)
  }

  /** After the loop: a command still open is emitted with the rest of the
      input; its endIdx is the loop variable's last value, |input| - 1. */
  function Flush(input: string, s: Scanner): (r: seq<LexToken>)
    ensures |s.tokens| <= |r| <= |s.tokens| + 1 && r[..|s.tokens|] == s.tokens
    ensures |r| > |s.tokens| <==> s.state == CommandState && s.tokenStart < |input|
    ensures |r| > |s.tokens| ==>
      Last(r) == LexToken(Command, input[s.tokenStart..], s.tokenStart, |input| - 1)
    ensures s.tokenStart < |input| ==> |r| <= |s.tokens| + Pending(s)
  {
    if s.state == CommandState && s.tokenStart < |input| then
      s.tokens + [LexToken(Command, input[s.tokenStart..], s.tokenStart, |input| - 1)]
    else
      s.tokens
  }

  /** The token list lex returns: never more tokens than characters. */
  function Lexed(input: string): (r: seq<LexToken>)
    ensures |r| <= |input|
  {
    Flush(input, Scan(input, |input|))
  }

  /** lex: total, a single pass over the input. */
  method Lex(input: string) returns (tokens: seq<LexToken>)
    ensures tokens == Lexed(input)
  {
    var state := NoneState;
    var tokenStart: nat := 0;
    tokens := [];
    for i := 0 to |input|
      invariant Scanner(state, tokenStart, tokens) == Scan(input, i)
    {
      var ch := input[i];
      match state
      case CommandState =>
        if ch == '\\' || ch == ' ' || ch == '{' {
          tokens := tokens + [LexToken(Command, input[tokenStart..i], tokenStart, i)];
          if ch == ' ' {
            state := NoneState;
          }
          if ch == '{' {
            tokens := tokens + [LexToken(CommandArgStart, "{", i, i)];
            state := NoneState;
          }
        }
      case NoneState =>
        if ch == '\\' {
          state := CommandState;
          tokenStart := i;
        } else if ch == '}' {
          tokens := tokens + [LexToken(CommandArgEnd, "}", i, i)];
        }
    }
    if state == CommandState && tokenStart < |input| {
      tokens := tokens + [LexToken(Command, input[tokenStart..], tokenStart, |input| - 1)];
    }
  }

  // ---------------------------------------------------------------------
  // Shape of the tokens

  /** A token as the loop emits it while scanning input[..n]. A COMMAND
      token spans from its backslash up to (excluding) the delimiter that
      closed it. */
  ghost predicate Emitted(input: string, n: nat, t: LexToken)
    requires n <= |input|
  {
    t.startIdx <= t.endIdx < n &&
    match t.kind
    case Command =>
      t.startIdx < t.endIdx && input[t.startIdx] == '\\' && IsDelimiter(input[t.endIdx])
      && t.value == input[t.startIdx..t.endIdx]
    case CommandArgStart => t.startIdx == t.endIdx && input[t.endIdx] == '{' && t.value == "{"
    case CommandArgEnd => t.startIdx == t.endIdx && input[t.endIdx] == '}' && t.value == "}"
    case _ => false
  }

  /** The COMMAND token emitted after the loop for an unterminated command. */
  ghost predicate Flushed(input: string, t: LexToken)
  {
    t.kind == Command && t.startIdx < |input| && input[t.startIdx] == '\\'
    && t.endIdx == |input| - 1 && t.value == input[t.startIdx..]
  }

  /** A COMMAND token closed by a backslash. */
  predicate BackslashEnded(input: string, t: LexToken)
  {
    t.kind == Command && t.endIdx < |input| && input[t.endIdx] == '\\'
  }

  ghost predicate StartsNonDecreasing(ts: seq<LexToken>)
  {
    forall j, k :: 0 <= j < k < |ts| ==> ts[j].startIdx <= ts[k].startIdx
  }

  ghost predicate ArgStartsFollowCommands(ts: seq<LexToken>)
  {
    forall k :: 0 <= k < |ts| && ts[k].kind == CommandArgStart ==>
      0 < k && ts[k - 1].kind == Command && ts[k - 1].endIdx == ts[k].startIdx
  }

  /** The token after a backslash-closed command is again a command with the
      same start: token_start is not reset by the backslash. */
  ghost predicate BackslashChained(input: string, ts: seq<LexToken>)
  {
    forall k :: 0 <= k < |ts| - 1 && BackslashEnded(input, ts[k]) ==>
      ts[k + 1].kind == Command && ts[k + 1].startIdx == ts[k].startIdx
  }

  /** Bounds and token shapes after the scan of input[..n]. */
  ghost predicate ScanBasic(input: string, n: nat, s: Scanner)
  {
    n <= |input| && s.tokenStart <= n
    && (s.state == CommandState ==>
          s.tokenStart < n && input[s.tokenStart] == '\\'
          && forall t <- s.tokens :: t.startIdx <= s.tokenStart)
    && (forall t <- s.tokens :: Emitted(input, n, t))
  }

  /** A backslash-closed command at the end of the list means the scanner is
      still inside that same command. */
  ghost predicate ScanChained(input: string, s: Scanner)
  {
    BackslashChained(input, s.tokens)
    && (|s.tokens| > 0 && BackslashEnded(input, Last(s.tokens)) ==>
          s.state == CommandState && s.tokenStart == Last(s.tokens).startIdx)
  }

  lemma EmittedGrows(input: string, ts: seq<LexToken>, n: nat)
    requires n < |input| && forall t <- ts :: Emitted(input, n, t)
    ensures forall t <- ts :: Emitted(input, n + 1, t)
    ensures forall t <- ts :: t.startIdx < n
  {
    forall t <- ts ensures Emitted(input, n + 1, t) && t.startIdx < n {
      assert Emitted(input, n, t);
    }
  }

  lemma StepBasic(input: string, s: Scanner, i: nat)
    requires i < |input| && ScanBasic(input, i, s)
    ensures ScanBasic(input, i + 1, Step(input, s, i))
  {
    EmittedGrows(input, s.tokens, i);
    var ch := input[i];
    if s.state == CommandState && IsDelimiter(ch) {
      var cmd := LexToken(Command, input[s.tokenStart..i], s.tokenStart, i);
      assert Emitted(input, i + 1, cmd);
      if ch == '{' {
        assert Emitted(input, i + 1, LexToken(CommandArgStart, "{", i, i));
      }
    } else if s.state == NoneState && ch == '}' {
      assert Emitted(input, i + 1, LexToken(CommandArgEnd, "}", i, i));
    }
  }

  lemma StepSorted(input: string, s: Scanner, i: nat)
    requires i < |input| && ScanBasic(input, i, s) && StartsNonDecreasing(s.tokens)
    ensures StartsNonDecreasing(Step(input, s, i).tokens)
  {
    EmittedGrows(input, s.tokens, i);
  }

  /** Appending one token keeps COMMAND_ARG_START after its command. */
  lemma ArgStartsAppend(ts: seq<LexToken>, t: LexToken)
    requires ArgStartsFollowCommands(ts)
    requires t.kind == CommandArgStart ==> |ts| > 0 && Last(ts).kind == Command && Last(ts).endIdx == t.startIdx
    ensures ArgStartsFollowCommands(ts + [t])
  {
    var r := ts + [t];
    forall k | 0 <= k < |r| && r[k].kind == CommandArgStart
      ensures 0 < k && r[k - 1].kind == Command && r[k - 1].endIdx == r[k].startIdx
    {
      if k < |ts| {
        assert r[k] == ts[k] && r[k - 1] == ts[k - 1];
      } else {
        assert r[k - 1] == Last(ts);
      }
    }
  }

  lemma StepArgStarts(input: string, s: Scanner, i: nat)
    requires i < |input| && s.tokenStart <= i && ArgStartsFollowCommands(s.tokens)
    ensures ArgStartsFollowCommands(Step(input, s, i).tokens)
  {
    var ch := input[i];
    if s.state == CommandState && IsDelimiter(ch) {
      var cmd := LexToken(Command, input[s.tokenStart..i], s.tokenStart, i);
      ArgStartsAppend(s.tokens, cmd);
      if ch == '{' {
        var open := LexToken(CommandArgStart, "{", i, i);
        ArgStartsAppend(s.tokens + [cmd], open);
        assert s.tokens + [cmd, open] == s.tokens + [cmd] + [open];
      }
    } else if s.state == NoneState && ch == '}' {
      ArgStartsAppend(s.tokens, LexToken(CommandArgEnd, "}", i, i));
    }
  }

  /** Appending one token keeps backslash-closed commands chained, when a
      token after a backslash-closed command is a command with its start. */
  lemma ChainedAppend(input: string, ts: seq<LexToken>, t: LexToken)
    requires BackslashChained(input, ts)
    requires |ts| > 0 && BackslashEnded(input, Last(ts)) ==> t.kind == Command && t.startIdx == Last(ts).startIdx
    ensures BackslashChained(input, ts + [t])
  {
    var r := ts + [t];
    forall k | 0 <= k < |r| - 1 && BackslashEnded(input, r[k])
      ensures r[k + 1].kind == Command && r[k + 1].startIdx == r[k].startIdx
    {
      if k < |ts| - 1 {
        assert r[k] == ts[k] && r[k + 1] == ts[k + 1];
      } else {
        assert r[k] == Last(ts) && r[k + 1] == t;
      }
    }
  }

  lemma StepChained(input: string, s: Scanner, i: nat)
    requires i < |input| && ScanBasic(input, i, s) && ScanChained(input, s)
    ensures ScanChained(input, Step(input, s, i))
  {
    var ch := input[i];
    if s.state == CommandState && IsDelimiter(ch) {
      var cmd := LexToken(Command, input[s.tokenStart..i], s.tokenStart, i);
      ChainedAppend(input, s.tokens, cmd);
      if ch == '{' {
        var open := LexToken(CommandArgStart, "{", i, i);
        ChainedAppend(input, s.tokens + [cmd], open);
        assert s.tokens + [cmd, open] == s.tokens + [cmd] + [open];
      }
    } else if s.state == NoneState && ch == '}' {
      ChainedAppend(input, s.tokens, LexToken(CommandArgEnd, "}", i, i));
    }
  }

  /** What holds of the scanner after input[..n]. */
  ghost predicate ScanInv(input: string, n: nat, s: Scanner)
  {
    ScanBasic(input, n, s) && StartsNonDecreasing(s.tokens)
    && ArgStartsFollowCommands(s.tokens) && ScanChained(input, s)
  }

  lemma {:induction false} ScanInvariant(input: string, n: nat)
    requires n <= |input|
    ensures ScanInv(input, n, Scan(input, n))
  {
    if n > 0 {
      ScanInvariant(input, n - 1);
      StepInv(input, Scan(input, n - 1), n - 1);
    }
  }

  /** One iteration keeps the whole invariant. */
  lemma StepInv(input: string, s: Scanner, i: nat)
    requires i < |input| && ScanInv(input, i, s)
    ensures ScanInv(input, i + 1, Step(input, s, i))
  {
    StepBasic(input, s, i);
    StepSorted(input, s, i);
    StepArgStarts(input, s, i);
    StepChained(input, s, i);
  }

  /** The tokens of lex(input): only the three lexer kinds; every token but
      possibly the last has the span of a token closed during the scan, and
      the last is either that or the flushed unterminated command. */
  lemma LexedSpans(input: string)
    ensures var toks := Lexed(input);
      && (forall t <- toks :: t.kind == Command || t.kind == CommandArgStart || t.kind == CommandArgEnd)
      && (forall k :: 0 <= k < |toks| - 1 ==> Emitted(input, |input|, toks[k]))
      && (|toks| > 0 ==> Emitted(input, |input|, Last(toks)) || Flushed(input, Last(toks)))
  {
    var s := Scan(input, |input|);
    ScanInvariant(input, |input|);
    var toks := Lexed(input);
    forall t <- s.tokens ensures t.kind == Command || t.kind == CommandArgStart || t.kind == CommandArgEnd {
      assert Emitted(input, |input|, t);
    }
    if toks != s.tokens {
      assert toks[..|s.tokens|] == s.tokens;
      assert forall k :: 0 <= k < |s.tokens| ==> toks[k] == s.tokens[k];
    }
  }

  /** Every COMMAND value of lex(input) is non-empty and starts with a
      backslash; COMMAND_ARG_START and COMMAND_ARG_END tokens are one
      character wide and carry their brace. */
  lemma LexedValues(input: string)
    ensures var toks := Lexed(input);
      && (forall t <- toks :: t.kind == Command ==> |t.value| > 0 && t.value[0] == '\\')
      && (forall t <- toks :: t.kind == CommandArgStart ==>
            t.value == "{" && t.startIdx == t.endIdx < |input| && input[t.startIdx] == '{')
      && (forall t <- toks :: t.kind == CommandArgEnd ==>
            t.value == "}" && t.startIdx == t.endIdx < |input| && input[t.startIdx] == '}')
  {
    var toks := Lexed(input);
    LexedSpans(input);
    forall k | 0 <= k < |toks| ensures Emitted(input, |input|, toks[k]) || Flushed(input, toks[k]) {
    }
  }

  /** The tokens of lex(input) are those of the scan, plus at most the
      flushed command. */
  lemma LexedExtendsScan(input: string)
    ensures var s := Scan(input, |input|); var toks := Lexed(input);
      |s.tokens| <= |toks| <= |s.tokens| + 1
      && (forall k :: 0 <= k < |s.tokens| ==> toks[k] == s.tokens[k])
      && (|toks| > |s.tokens| ==>
            s.state == CommandState && Last(toks).kind == Command
            && Last(toks).startIdx == s.tokenStart)
  {
  }

  /** COMMAND_ARG_START always directly follows the COMMAND it opens and
      start indices never decrease. */
  lemma LexedOrder(input: string)
    ensures var toks := Lexed(input);
      ArgStartsFollowCommands(toks) && StartsNonDecreasing(toks)
  {
    ScanInvariant(input, |input|);
    LexedExtendsScan(input);
  }

  /** A command closed by a backslash is followed by a command with the same
      start: the backslash does not reset token_start. */
  lemma LexedChained(input: string)
    ensures BackslashChained(input, Lexed(input))
  {
    var s := Scan(input, |input|);
    ScanInvariant(input, |input|);
    LexedExtendsScan(input);
    var toks := Lexed(input);
    forall k | 0 <= k < |toks| - 1 && BackslashEnded(input, toks[k])
      ensures toks[k + 1].kind == Command && toks[k + 1].startIdx == toks[k].startIdx
    {
      if k == |s.tokens| - 1 {
        assert toks[k] == Last(s.tokens);
      }
    }
  }

  // ---------------------------------------------------------------------
  // Behaviour in state NONE and at the end of input

  /** One COMMAND_ARG_END per closing brace of input[..n], in order: what
      the scan emits when it never leaves state NONE. */
  function ClosingBraces(input: string, n: nat): seq<LexToken>
    requires n <= |input|
  {
    if n == 0 then []
    else ClosingBraces(input, n - 1)
         + (if input[n - 1] == '}' then [LexToken(CommandArgEnd, "}", n - 1, n - 1)] else [])
  }

  lemma {:induction false} ScanWithoutBackslash(input: string, n: nat)
    requires n <= |input|
    requires forall i :: 0 <= i < n ==> input[i] != '\\'
    ensures Scan(input, n) == Scanner(NoneState, 0, ClosingBraces(input, n))
  {
    if n > 0 {
      ScanWithoutBackslash(input, n - 1);
    }
  }

  /** In state NONE only a backslash and a closing brace do anything: on an
      input without a backslash, lex emits exactly one COMMAND_ARG_END at
      each '}' and nothing for any other character. */
  lemma NoBackslashOnlyBraces(input: string)
    requires forall i :: 0 <= i < |input| ==> input[i] != '\\'
    ensures Lexed(input) == ClosingBraces(input, |input|)
  {
    ScanWithoutBackslash(input, |input|);
  }

  /** From a backslash at p on, with no space or '{' after it, the scanner
      stays in COMMAND with token_start at p or before. */
  lemma {:induction false} ScanStaysInCommand(input: string, p: nat, n: nat)
    requires p < n <= |input| && input[p] == '\\'
    requires forall i :: p < i < |input| ==> input[i] != ' ' && input[i] != '{'
    ensures Scan(input, n).state == CommandState && Scan(input, n).tokenStart <= p
  {
    if n > p + 1 {
      ScanStaysInCommand(input, p, n - 1);
    }
  }

  /** An input that ends inside a command (a backslash with no space or '{'
      after it) makes lex end with a COMMAND token holding the rest of the
      input from its token_start, which is at or before that backslash. */
  lemma UnterminatedCommandFlushed(input: string, p: nat)
    requires p < |input| && input[p] == '\\'
    requires forall i :: p < i < |input| ==> input[i] != ' ' && input[i] != '{'
    ensures var toks := Lexed(input);
      |toks| > 0 && Flushed(input, Last(toks)) && Last(toks).startIdx <= p
  {
    ScanStaysInCommand(input, p, |input|);
    ScanInvariant(input, |input|);
  }

  lemma LexNoArgExamplePrefix(a: string)
    requires a == "\\sqrt 2\\cdot 3"
    ensures Scan(a, 7) == Scanner(NoneState, 0, [LexToken(Command, "\\sqrt", 0, 5)])
  {
    assert a[0..5] == "\\sqrt";
    assert Scan(a, 1) == Scanner(CommandState, 0, []);
    assert Scan(a, 2) == Scanner(CommandState, 0, []);
    assert Scan(a, 3) == Scanner(CommandState, 0, []);
    assert Scan(a, 4) == Scanner(CommandState, 0, []);
    assert Scan(a, 5) == Scanner(CommandState, 0, []);
  }

  /** tests/test_lex.py: the values of lex('\sqrt 2\cdot 3') include
      \sqrt and \cdot. */
  lemma LexNoArgExample(a: string)
    requires a == "\\sqrt 2\\cdot 3"
    ensures Lexed(a) == [LexToken(Command, "\\sqrt", 0, 5), LexToken(Command, "\\cdot", 7, 12)]
  {
    var c1 := LexToken(Command, "\\sqrt", 0, 5);
    LexNoArgExamplePrefix(a);
    assert a[7..12] == "\\cdot";
    assert Scan(a, 8) == Scanner(CommandState, 7, [c1]);
    assert Scan(a, 9) == Scanner(CommandState, 7, [c1]);
    assert Scan(a, 10) == Scanner(CommandState, 7, [c1]);
    assert Scan(a, 11) == Scanner(CommandState, 7, [c1]);
    assert Scan(a, 12) == Scanner(CommandState, 7, [c1]);
    var c2 := LexToken(Command, "\\cdot", 7, 12);
    assert Scan(a, 13) == Scanner(NoneState, 7, [c1, c2]);
    assert Scan(a, 14) == Scanner(NoneState, 7, [c1, c2]);
  }

  /** tests/test_lex.py: in lex('\sqrt{2}') the second token is
      COMMAND_ARG_START and the last is COMMAND_ARG_END. */
  lemma LexArgExample()
    ensures Lexed("\\sqrt{2}")
         == [LexToken(Command, "\\sqrt", 0, 5), LexToken(CommandArgStart, "{", 5, 5),
             LexToken(CommandArgEnd, "}", 7, 7)]
  {
    var b := "\\sqrt{2}";
    var c := LexToken(Command, "\\sqrt", 0, 5);
    var o := LexToken(CommandArgStart, "{", 5, 5);
    assert b[0..5] == "\\sqrt";
    assert Scan(b, 1) == Scanner(CommandState, 0, []);
    assert Scan(b, 2) == Scanner(CommandState, 0, []);
    assert Scan(b, 3) == Scanner(CommandState, 0, []);
    assert Scan(b, 4) == Scanner(CommandState, 0, []);
    assert Scan(b, 5) == Scanner(CommandState, 0, []);
    assert Scan(b, 6) == Scanner(NoneState, 0, [c, o]);
    assert Scan(b, 7) == Scanner(NoneState, 0, [c, o]);
    assert Scan(b, 8) == Scanner(NoneState, 0, [c, o, LexToken(CommandArgEnd, "}", 7, 7)]);
  }

  /** After '\frac{' the scanner holds the command and the brace. */
  lemma LexFracExamplePrefix(a: string)
    requires a == "\\frac{1}{2}"
    ensures Scan(a, 6) == Scanner(NoneState, 0, [LexToken(Command, "\\frac", 0, 5), LexToken(CommandArgStart, "{", 5, 5)])
  {
    assert a[0..5] == "\\frac";
    assert Scan(a, 1) == Scanner(CommandState, 0, []);
    assert Scan(a, 2) == Scanner(CommandState, 0, []);
    assert Scan(a, 3) == Scanner(CommandState, 0, []);
    assert Scan(a, 4) == Scanner(CommandState, 0, []);
    assert Scan(a, 5) == Scanner(CommandState, 0, []);
  }

  /** lex('\frac{1}{2}'): the digits and the second '{' yield no token. */
  lemma LexFracExample(a: string)
    requires a == "\\frac{1}{2}"
    ensures Lexed(a) == [LexToken(Command, "\\frac", 0, 5), LexToken(CommandArgStart, "{", 5, 5),
                         LexToken(CommandArgEnd, "}", 7, 7), LexToken(CommandArgEnd, "}", 10, 10)]
  {
    var c := LexToken(Command, "\\frac", 0, 5);
    var o := LexToken(CommandArgStart, "{", 5, 5);
    var e1 := LexToken(CommandArgEnd, "}", 7, 7);
    LexFracExamplePrefix(a);
    assert Scan(a, 7) == Scanner(NoneState, 0, [c, o]);
    assert Scan(a, 8) == Scanner(NoneState, 0, [c, o, e1]);
    assert Scan(a, 9) == Scanner(NoneState, 0, [c, o, e1]);
    assert Scan(a, 10) == Scanner(NoneState, 0, [c, o, e1]);
    assert Scan(a, 11) == Scanner(NoneState, 0, [c, o, e1, LexToken(CommandArgEnd, "}", 10, 10)]);
  }
}
