/** The recursive-descent parser of parse/parse.py. Every rule takes a token
    list and either fails (None: the Python rule raises, and the bare
    `except:` of the callers turns any exception into the next attempt) or
    returns the node it built and the tokens it left over. */
module Parse {
  import opened Wrappers
  import opened Lex
  import opened Primitives
  import opened Ast

  /** ParseResult: the node built and the tokens not consumed. */
  datatype ParseResult = ParseResult(node: Node, remainder: seq<LexToken>)

  /** Python's tokens[k:], which is empty past the end. */
  function Drop(ts: seq<LexToken>, k: nat): (r: seq<LexToken>)
    ensures k <= |ts| ==> r == ts[k..]
    ensures |ts| < k ==> r == []
  {
    if k <= |ts| then ts[k..] else []
  }

  /** rest is a suffix of ts strictly shorter than ts. */
  predicate Consumes(rest: seq<LexToken>, ts: seq<LexToken>)
  {
    IsSuffix(rest, ts) && |rest| < |ts|
  }

  // ---------------------------------------------------------------------
  // The min_tokens decorator and the leaf rules

  /** min_tokens(n) applied to a rule: fail below n tokens, otherwise run
      the rule unchanged. */
  function MinTokens(n: nat, rule: seq<LexToken> -> Option<ParseResult>, ts: seq<LexToken>): (r: Option<ParseResult>)
    ensures |ts| < n ==> r.None?
    ensures n <= |ts| ==> r == rule(ts)
  {
    if |ts| < n then None else rule(ts)
  }

  /** parse_number: the first token must be a NUMBER. The payload keeps
      the literal text. */
  function ParseNumber(ts: seq<LexToken>): (r: Option<ParseResult>)
    ensures r.Some? <==> |ts| > 0 && ts[0].kind == Number
    ensures r.Some? ==> r.value.node == ASTNumber(ts[0].value) && r.value.remainder == ts[1..]
  {
    if |ts| < 1 then None
    else if ts[0].kind == Number then Some(ParseResult(ASTNumber(ts[0].value), ts[1..]))
    else None
  }

  /** parse_variable: the first token must be a VAR. */
  function ParseVariable(ts: seq<LexToken>): (r: Option<ParseResult>)
    ensures r.Some? <==> |ts| > 0 && ts[0].kind == Var
    ensures r.Some? ==> r.value.node == ASTVar(ts[0].value) && r.value.remainder == ts[1..]
  {
    if |ts| < 1 then None
    else if ts[0].kind == Var then Some(ParseResult(ASTVar(ts[0].value), ts[1..]))
    else None
  }

  /** The tokens an infix operand may start with. */
  predicate IsOperand(t: LexToken)
  {
    t.kind == Number || t.kind == Var
  }

  /** token_node: the leaf for a NUMBER or VAR token, None for any other. */
  function TokenNode(t: LexToken): (n: Node)
    ensures t.kind == Number ==> n == ASTNumber(t.value)
    ensures t.kind == Var ==> n == ASTVar(t.value)
    ensures IsOperand(t) <==> DictExact(n)
    ensures !IsOperand(t) <==> n == NoNode
  {
    match t.kind
    case Number => ASTNumber(t.value)
    case Var => ASTVar(t.value)
    case _ => NoNode
  }

  // ---------------------------------------------------------------------
  // Infix binary operations

  /** parse_infix_binary_op_left_arg: a number, else a variable. */
  function LeftArg(ts: seq<LexToken>): (r: Option<Node>)
    ensures r.Some? <==> |ts| > 0 && IsOperand(ts[0])
    ensures r.Some? ==> r.value == TokenNode(ts[0])
  {
    match ParseNumber(ts)
    case Some(p) => Some(p.node)
    case None =>
      match ParseVariable(ts)
      case Some(p) => Some(p.node)
      case None => None
  }

  /** parse_infix_binary_op_right_arg: an infix operation, else a number,
      else a variable. Either way the operand opens with a NUMBER or VAR
      token, so the operand is that leaf or a chain that starts with it. */
  function RightArg(ts: seq<LexToken>): (r: Option<Node>)
    ensures r.Some? <==> |ts| > 0 && IsOperand(ts[0])
    ensures r.Some? ==> DictExact(r.value) && (IsLeaf(r.value) || RightSpine(r.value))
    ensures ParseInfix(ts).Some? ==> r == Some(ParseInfix(ts).value.node)
    ensures r.Some? && !ParseInfix(ts).Some? ==> r.value == TokenNode(ts[0])
    decreases |ts|, 1
  {
    match ParseInfix(ts)
    case Some(p) => Some(p.node)
    case None =>
      match ParseNumber(ts)
      case Some(p) => Some(p.node)
      case None =>
        match ParseVariable(ts)
        case Some(p) => Some(p.node)
        case None => None
  }

  /** parse_infix_binary_op: `a OP b` with a NUMBER or VAR on the left and a
      recognised operator in the middle. The right operand may itself be an
      infix operation, so chains fold to the right, yet only three tokens
      are ever consumed. */
  function ParseInfix(ts: seq<LexToken>): (r: Option<ParseResult>)
    ensures r.Some? <==> |ts| >= 3 && IsOperand(ts[0]) && OpFromToken(ts[1]).Some? && IsOperand(ts[2])
    ensures r.Some? ==> r.value.remainder == ts[3..]
    ensures r.Some? ==>
      var n := r.value.node;
      && n.ASTBinaryOp? && n.op == OpFromToken(ts[1]) && n.left == TokenNode(ts[0])
      && RightSpine(n) && DictExact(n)
    decreases |ts|, 0
  {
    if |ts| < 3 then None
    else
      match OpFromToken(ts[1])
      case None => None
      case Some(op) =>
        match (LeftArg(ts), RightArg(ts[2..]))
        case (Some(l), Some(rt)) => Some(ParseResult(ASTBinaryOp(Some(op), l, rt), ts[3..]))
        case _ => None
  }

  /** On an infix result vars finds every variable leaf in order, the tree
      renders, and the lambda takes all the variables as parameters. */
  lemma InfixLambda(ts: seq<LexToken>)
    requires ParseInfix(ts).Some?
    ensures var n := ParseInfix(ts).value.node;
      var args := Join(VarLeaves(n), ",");
      && Vars(n) == VarLeaves(n) && Python(n).Some?
      && PythonFuncStr(n) == Some("lambda" + (if args == "" then "" else " " + args) + ": " + Python(n).value)
  {
    var n := ParseInfix(ts).value.node;
    VarsOfRightSpine(n);
    LambdaOfRightSpine(n);
  }

  /** The number of operators in the chain operand OP operand OP ... that
      opens ts, read off the token kinds alone. */
  function InfixLength(ts: seq<LexToken>): nat
  {
    if |ts| >= 3 && IsOperand(ts[0]) && OpFromToken(ts[1]).Some? && IsOperand(ts[2])
    then 1 + InfixLength(ts[2..])
    else 0
  }

  /** The operators along a right-leaning chain, top to bottom. */
  function SpineOps(n: Node): seq<Option<BinaryOpType>>
  {
    if n.ASTBinaryOp? then [n.op] + SpineOps(n.right) else []
  }

  /** A successful infix parse folds the whole chain that opens the input
      to the right: with m = InfixLength(ts) operators, its leaves are the
      leaves of tokens 0, 2, ..., 2m and its operators are from_token of
      tokens 1, 3, ..., 2m - 1. The right-argument rule's first choice,
      another infix parse, is what makes it take the whole chain. */
  lemma {:induction false} InfixChain(ts: seq<LexToken>)
    requires ParseInfix(ts).Some?
    ensures var n, m := ParseInfix(ts).value.node, InfixLength(ts);
      && m >= 1 && 2 * m + 1 <= |ts|
      && SpineLeaves(n) == seq(m + 1, j requires 0 <= j <= m => TokenNode(ts[2 * j]))
      && SpineOps(n) == seq(m, j requires 0 <= j < m => OpFromToken(ts[2 * j + 1]))
    decreases |ts|
  {
    var n := ParseInfix(ts).value.node;
    var rest := ts[2..];
    InfixStep(ts);
    if ParseInfix(rest).Some? {
      InfixChain(rest);
      ShiftLeaves(ts, SpineLeaves(n.right), InfixLength(rest));
      ShiftOps(ts, SpineOps(n.right), InfixLength(rest));
    } else {
      assert SpineLeaves(n) == [TokenNode(ts[0]), TokenNode(ts[2])];
    }
  }

  /** One link of the chain: the right child is the infix parse of
      tokens[2:] when there is one and the leaf of tokens[2] otherwise. */
  lemma InfixStep(ts: seq<LexToken>)
    requires ParseInfix(ts).Some?
    ensures var n, rest := ParseInfix(ts).value.node, ts[2..];
      && InfixLength(ts) == 1 + InfixLength(rest)
      && (ParseInfix(rest).Some? <==> InfixLength(rest) > 0)
      && n.right == (if ParseInfix(rest).Some? then ParseInfix(rest).value.node else TokenNode(ts[2]))
      && SpineLeaves(n) == [TokenNode(ts[0])] + SpineLeaves(n.right)
      && SpineOps(n) == [OpFromToken(ts[1])] + SpineOps(n.right)
  {
  }

  lemma ShiftLeaves(ts: seq<LexToken>, tail: seq<Node>, m: nat)
    requires 2 * m + 2 < |ts|
    requires tail == seq(m + 1, j requires 0 <= j <= m => TokenNode(ts[2..][2 * j]))
    ensures [TokenNode(ts[0])] + tail == seq(m + 2, j requires 0 <= j <= m + 1 => TokenNode(ts[2 * j]))
  {
    forall j | 0 <= j <= m ensures ts[2..][2 * j] == ts[2 * (j + 1)] { }
  }

  lemma ShiftOps(ts: seq<LexToken>, tail: seq<Option<BinaryOpType>>, m: nat)
    requires 2 * m + 2 < |ts|
    requires tail == seq(m, j requires 0 <= j < m => OpFromToken(ts[2..][2 * j + 1]))
    ensures [OpFromToken(ts[1])] + tail == seq(m + 1, j requires 0 <= j < m + 1 => OpFromToken(ts[2 * j + 1]))
  {
    forall j | 0 <= j < m ensures ts[2..][2 * j + 1] == ts[2 * (j + 1) + 1] { }
  }

  /** x + y + 5 + z folds to x + (y + (5 + z)), and only the first three
      tokens are consumed. */
  lemma InfixChainExample(x: LexToken, p: LexToken, y: LexToken, five: LexToken, z: LexToken)
    requires x == LexToken(Var, "x", 0, 0) && y == LexToken(Var, "y", 2, 2)
    requires five == LexToken(Number, "5", 4, 4) && z == LexToken(Var, "z", 6, 6)
    requires p.kind == Command && p.value == "+"
    ensures ParseInfix([x, p, y, p, five, p, z])
         == Some(ParseResult(ASTBinaryOp(Some(Add), ASTVar("x"),
                               ASTBinaryOp(Some(Add), ASTVar("y"),
                                 ASTBinaryOp(Some(Add), ASTNumber("5"), ASTVar("z")))),
                             [p, five, p, z]))
  {
    var ts := [x, p, y, p, five, p, z];
    var inner := ASTBinaryOp(Some(Add), ASTNumber("5"), ASTVar("z"));
    var mid := ASTBinaryOp(Some(Add), ASTVar("y"), inner);
    InfixOfThree(five, p, z);
    assert [y, p, five, p, z][2..] == [five, p, z];
    assert ParseInfix([y, p, five, p, z]) == Some(ParseResult(mid, [p, z]));
    assert ts[2..] == [y, p, five, p, z];
    assert RightArg(ts[2..]) == Some(mid);
  }

  /** a + b with nothing after it: both operands are leaves. */
  lemma InfixOfThree(a: LexToken, p: LexToken, b: LexToken)
    requires IsOperand(a) && IsOperand(b) && p.value == "+"
    ensures ParseInfix([a, p, b]) == Some(ParseResult(ASTBinaryOp(Some(Add), TokenNode(a), TokenNode(b)), []))
    ensures RightArg([a, p, b]) == Some(ASTBinaryOp(Some(Add), TokenNode(a), TokenNode(b)))
  {
    assert [a, p, b][2..] == [b];
    assert ParseInfix([b]).None?;
  }

  // ---------------------------------------------------------------------
  // Subscripts, arguments and superscripts

  /** The body of parse_var_subscript without its guard: unpacking
      tokens[:5] into five names needs five tokens, and then the name
      starts with the first token's text. */
  function VarSubscriptBody(ts: seq<LexToken>): (r: Option<ParseResult>)
    ensures r.Some? <==> |ts| >= 5
    ensures r.Some? ==>
      && r.value.node.ASTVar? && |ts[0].value| <= |r.value.node.name|
      && r.value.node.name[..|ts[0].value|] == ts[0].value
    ensures r.Some? ==> |r.value.remainder| == |ts| - 5
  {
    if |ts| < 5 then None
    else Some(ParseResult(ASTVar(ts[0].value + ts[3].value), ts[5..]))
  }

  /** parse_var_subscript (x_{33}): the variable's name with the
      argument's text appended, whatever the token kinds. */
  function ParseVarSubscript(ts: seq<LexToken>): (r: Option<ParseResult>)
    ensures r.Some? <==> |ts| >= 5
    ensures r.Some? ==> r.value == ParseResult(ASTVar(ts[0].value + ts[3].value), ts[5..])
  {
    MinTokens(5, VarSubscriptBody, ts)
  }

  /** The body of parse_arg without its guard: tokens[0] must exist. */
  function ArgBody(ts: seq<LexToken>): (r: Option<ParseResult>)
    ensures r.Some? <==> |ts| >= 1
    ensures r.Some? ==> r.value.node.ASTArg? && |r.value.remainder| == |ts| - 1
  {
    if |ts| == 0 then None else Some(ParseResult(ASTArg(ts[0].value), ts[1..]))
  }

  /** parse_arg: the first token's text as an argument, of any kind. */
  function ParseArg(ts: seq<LexToken>): (r: Option<ParseResult>)
    ensures r.Some? <==> |ts| >= 1
    ensures r.Some? ==> r.value == ParseResult(ASTArg(ts[0].value), ts[1..])
  {
    MinTokens(1, ArgBody, ts)
  }

  /** The body of parse_var_superscript without its guard: it unpacks only
      tokens[:4], needs a VAR first and an ARG fourth (the other case is
      NotImplementedError) and leaves tokens[5:]. */
  function VarSuperscriptBody(ts: seq<LexToken>): (r: Option<ParseResult>)
    ensures r.Some? <==> |ts| >= 4 && ts[0].kind == Var && ts[3].kind == Arg
    ensures r.Some? ==> r.value.node.ASTBinaryOp? && r.value.node.op == Some(Pow) && r.value.remainder == Drop(ts, 5)
  {
    if |ts| < 4 then None
    else
      match ParseVariable(ts)
      case None => None
      case Some(v) =>
        if ts[3].kind == Arg then
          match ParseArg(ts[3..])
          case Some(a) => Some(ParseResult(ASTBinaryOp(Some(Pow), v.node, a.node), Drop(ts, 5)))
          case None => None
        else None
  }

  /** parse_var_superscript: x^{k} as a power of a variable by an argument. */
  function ParseVarSuperscript(ts: seq<LexToken>): (r: Option<ParseResult>)
    ensures r.Some? <==> |ts| >= 5 && ts[0].kind == Var && ts[3].kind == Arg
    ensures r.Some? ==>
      r.value == ParseResult(ASTBinaryOp(Some(Pow), ASTVar(ts[0].value), ASTArg(ts[3].value)), ts[5..])
  {
    MinTokens(5, VarSuperscriptBody, ts)
  }

  /** The guards of parse_var_subscript and parse_arg are redundant: their
      bodies fail on exactly the inputs the guards reject. */
  lemma GuardsRedundant(ts: seq<LexToken>)
    ensures ParseVarSubscript(ts) == VarSubscriptBody(ts)
    ensures ParseArg(ts) == ArgBody(ts)
  {
  }

  /** x_{1}: the subscript's text is appended to the name. */
  lemma SubscriptExample(x: LexToken, u: LexToken, o: LexToken, one: LexToken, c: LexToken)
    requires x.value == "x" && one.value == "1"
    ensures ParseVarSubscript([x, u, o, one, c]) == Some(ParseResult(ASTVar("x1"), []))
  {
    assert [x, u, o, one, c][5..] == [];
    assert x.value + one.value == "x1";
  }

  /** The guard of parse_var_superscript is not redundant: four tokens
      satisfy its body but not the decorated rule. */
  lemma SuperscriptGuardMatters(ts: seq<LexToken>)
    requires |ts| == 4 && ts[0].kind == Var && ts[3].kind == Arg
    ensures VarSuperscriptBody(ts) == Some(ParseResult(ASTBinaryOp(Some(Pow), ASTVar(ts[0].value), ASTArg(ts[3].value)), []))
    ensures ParseVarSuperscript(ts).None?
  {
  }

  // ---------------------------------------------------------------------
  // Prefix commands with two brace arguments

  /** parse_binary_op: after the command token, two successive brace
      scopes, each non-empty; the node takes the first token of each as an
      argument and the command's operator type, which may be None. */
  function ParseBinaryOp(ts: seq<LexToken>): (r: Option<ParseResult>)
    ensures r.Some? ==> |ts| > 0 && Consumes(r.value.remainder, ts)
    ensures var s1 := Scope(Drop(ts, 1), CommandArgStart, CommandArgEnd);
      var s2 := if s1.Some? then Scope(s1.value.remainder, CommandArgStart, CommandArgEnd) else None;
      && (r.Some? <==> s1.Some? && s2.Some? && |s1.value.result| > 0 && |s2.value.result| > 0)
      && (r.Some? ==>
            r.value == ParseResult(ASTBinaryOp(OpFromToken(ts[0]), ASTArg(s1.value.result[0].value),
                                               ASTArg(s2.value.result[0].value)),
                                   s2.value.remainder))
  {
    var s1 := Scope(Drop(ts, 1), CommandArgStart, CommandArgEnd);
    if s1.None? then None
    else
      var first := s1.value;
      var s2 := Scope(first.remainder, CommandArgStart, CommandArgEnd);
      if s2.None? then None
      else
        var second := s2.value;
        var a, b := ParseArg(first.result), ParseArg(second.result);
        if a.None? || b.None? then None
        else
          SuffixOfSuffix(ts, first.remainder, second.remainder);
          Some(ParseResult(ASTBinaryOp(OpFromToken(ts[0]), a.value.node, b.value.node), second.remainder))
  }

  /** A suffix of a suffix of tokens[1:] is a proper suffix of tokens. */
  lemma SuffixOfSuffix(ts: seq<LexToken>, mid: seq<LexToken>, rest: seq<LexToken>)
    requires |ts| > 0 && IsSuffix(mid, Drop(ts, 1)) && IsSuffix(rest, mid)
    ensures Consumes(rest, ts)
  {
    assert mid == ts[|ts| - |mid|..];
  }

  /** A command followed by two brace groups of plain tokens, such as the
      tokens of \frac{a}{b}: the two first tokens become the arguments and
      everything after the second group is left over. */
  lemma BinaryOpOfFlatGroups(cmd: LexToken, open1: LexToken, a: seq<LexToken>, close1: LexToken,
                             open2: LexToken, b: seq<LexToken>, close2: LexToken, rest: seq<LexToken>)
    requires open1.kind == open2.kind == CommandArgStart && close1.kind == close2.kind == CommandArgEnd
    requires forall t <- a :: t.kind != CommandArgStart && t.kind != CommandArgEnd
    requires forall t <- b :: t.kind != CommandArgStart && t.kind != CommandArgEnd
    requires |a| > 0 && |b| > 0
    ensures ParseBinaryOp([cmd, open1] + a + [close1, open2] + b + [close2] + rest)
         == Some(ParseResult(ASTBinaryOp(OpFromToken(cmd), ASTArg(a[0].value), ASTArg(b[0].value)), rest))
  {
    var second := [open2] + b + [close2] + rest;
    var ts := [cmd, open1] + a + [close1, open2] + b + [close2] + rest;
    assert Drop(ts, 1) == [open1] + a + [close1] + second;
    ScopeOfFlatGroup(open1, a, close1, second, CommandArgStart, CommandArgEnd);
    ScopeOfFlatGroup(open2, b, close2, rest, CommandArgStart, CommandArgEnd);
  }

  /** The tokens of \frac{1}{2} with argument tokens: the first brace
      scope holds the one argument and leaves the three tokens of the
      second group, and the whole parses to 1 / 2. */
  lemma FracTokensExample(cmd: LexToken, o: LexToken, one: LexToken, c: LexToken, two: LexToken)
    requires cmd.value == "\\frac" && o.kind == CommandArgStart && c.kind == CommandArgEnd
    requires one == LexToken(Arg, "1", 6, 6) && two == LexToken(Arg, "2", 9, 9)
    ensures Scope([o, one, c, o, two, c], CommandArgStart, CommandArgEnd)
         == Some(ScopeResult([one], [o, two, c]))
    ensures ParseBinaryOp([cmd, o, one, c, o, two, c])
         == Some(ParseResult(ASTBinaryOp(Some(Divide), ASTArg("1"), ASTArg("2")), []))
  {
    assert [o, one, c, o, two, c] == [o] + [one] + [c] + [o, two, c];
    ScopeOfFlatGroup(o, [one], c, [o, two, c], CommandArgStart, CommandArgEnd);
    assert [cmd, o, one, c, o, two, c] == [cmd, o] + [one] + [c, o] + [two] + [c] + [];
    BinaryOpOfFlatGroups(cmd, o, [one], c, o, [two], c, []);
  }

  /** A brace group that is empty fails the rule: parse_arg needs a token. */
  lemma BinaryOpEmptyArgument(cmd: LexToken, open1: LexToken, close1: LexToken, rest: seq<LexToken>)
    requires open1.kind == CommandArgStart && close1.kind == CommandArgEnd
    ensures ParseBinaryOp([cmd, open1, close1] + rest).None?
  {
    var ts := [cmd, open1, close1] + rest;
    assert Drop(ts, 1) == [open1] + [] + [close1] + rest;
    ScopeOfFlatGroup(open1, [], close1, rest, CommandArgStart, CommandArgEnd);
  }

  // ---------------------------------------------------------------------
  // Parenthesised expressions and the dispatcher

  /** parse_expression: at least two tokens; the paren scope is parsed
      recursively and wrapped as the single child of an expression, and the
      scope's remainder is left over. When the scope is not shorter than
      the input (only possible when the input opens with PAREN_RIGHT) the
      Python recursion never shrinks its argument and ends in a swallowed
      RecursionError; that case is modelled as failure. */
  function ParseExpression(ts: seq<LexToken>): (r: Option<ParseResult>)
    ensures r.Some? ==> Consumes(r.value.remainder, ts)
    ensures r.Some? ==> r.value.node.ASTExpression? && |r.value.node.children| == 1
    ensures var s := Scope(ts, ParenLeft, ParenRight);
      && (r.Some? <==> |ts| >= 2 && s.Some? && |s.value.result| < |ts| && Parse(s.value.result).Some?)
      && (r.Some? ==>
            r.value == ParseResult(ASTExpression([Parse(s.value.result).value.node]), s.value.remainder))
    decreases |ts|, 0
  {
    if |ts| < 2 then None
    else
      match Scope(ts, ParenLeft, ParenRight)
      case None => None
      case Some(s) =>
        if |s.result| >= |ts| then None
        else
          match Parse(s.result)
          case Some(p) => Some(ParseResult(ASTExpression([p.node]), s.remainder))
          case None => None
  }

  /** parse: the first of expression, prefix binary op and infix binary op
      that succeeds. */
  function Parse(ts: seq<LexToken>): (r: Option<ParseResult>)
    ensures r.Some? ==> Consumes(r.value.remainder, ts)
    ensures r.None? <==> ParseExpression(ts).None? && ParseBinaryOp(ts).None? && ParseInfix(ts).None?
    ensures ParseExpression(ts).Some? ==> r == ParseExpression(ts)
    ensures ParseExpression(ts).None? && ParseBinaryOp(ts).Some? ==> r == ParseBinaryOp(ts)
    ensures ParseExpression(ts).None? && ParseBinaryOp(ts).None? ==> r == ParseInfix(ts)
    decreases |ts|, 1
  {
    if ParseExpression(ts).Some? then ParseExpression(ts)
    else if ParseBinaryOp(ts).Some? then ParseBinaryOp(ts)
    else ParseInfix(ts)
  }

  /** The non-shrinking case of parse_expression needs a leading
      PAREN_RIGHT: a leading PAREN_LEFT is dropped from the scope and any
      other token ends it at once with nothing collected. */
  lemma ScopeShrinksUnlessParenRight(ts: seq<LexToken>)
    requires |ts| >= 2 && ts[0].kind != ParenRight
    ensures var s := Scope(ts, ParenLeft, ParenRight); s.Some? ==> |s.value.result| < |ts|
  {
    if ts[0].kind != ParenLeft {
      assert Scope(ts, ParenLeft, ParenRight) == Some(ScopeResult([], ts[1..]));
    }
  }

  /** With a leading PAREN_RIGHT and no other paren the scope takes every
      token: this is the input on which the Python recursion does not end. */
  lemma ParenRightScope(ts: seq<LexToken>)
    requires |ts| >= 2 && ts[0].kind == ParenRight
    requires forall k :: 1 <= k < |ts| ==> ts[k].kind != ParenLeft && ts[k].kind != ParenRight
    ensures Scope(ts, ParenLeft, ParenRight) == Some(ScopeResult(ts, [ts[|ts| - 1]]))
  {
    forall j | 0 <= j < |ts|
      ensures !ClosesAt(ts, ParenLeft, ParenRight, j) && !UnderflowsAt(ts, ParenLeft, ParenRight, j)
    {
      DepthAfterParenRight(ts, j + 1);
    }
    ScopeNeverCloses(ts, ParenLeft, ParenRight);
    NonStartAll(ts, ParenLeft);
  }

  /** On that input parse_expression fails. */
  lemma ParenRightDoesNotShrink(ts: seq<LexToken>)
    requires |ts| >= 2 && ts[0].kind == ParenRight
    requires forall k :: 1 <= k < |ts| ==> ts[k].kind != ParenLeft && ts[k].kind != ParenRight
    ensures ParseExpression(ts).None?
  {
    ParenRightScope(ts);
  }

  lemma {:induction false} DepthAfterParenRight(ts: seq<LexToken>, n: nat)
    requires 1 <= n <= |ts| && ts[0].kind == ParenRight
    requires forall k :: 1 <= k < |ts| ==> ts[k].kind != ParenLeft && ts[k].kind != ParenRight
    ensures Depth(ts, ParenLeft, ParenRight, n) == -1
  {
    if n > 1 {
      DepthAfterParenRight(ts, n - 1);
    }
  }

  /** With no start-kind token, every token is kept. */
  // A fact about consume_scope alone, belonging with Primitives; it is kept
  // here because the solver proves ConsumeScope more steadily without it.
  lemma {:induction false} NonStartAll(ts: seq<LexToken>, startKind: TokenKind)
    requires forall k :: 0 <= k < |ts| ==> ts[k].kind != startKind
    ensures NonStart(ts, startKind) == ts
  {
    if ts != [] {
      NonStartAll(ts[..|ts| - 1], startKind);
      assert ts[..|ts| - 1] + [ts[|ts| - 1]] == ts;
    }
  }

  /** Parentheses around plain tokens: the inside is parsed on its own and
      wrapped, and everything after the closing paren is left over. */
  lemma ExpressionOfFlatGroup(open: LexToken, inner: seq<LexToken>, close: LexToken, rest: seq<LexToken>)
    requires open.kind == ParenLeft && close.kind == ParenRight
    requires forall t <- inner :: t.kind != ParenLeft && t.kind != ParenRight
    ensures ParseExpression([open] + inner + [close] + rest)
         == match Parse(inner)
            case Some(p) => Some(ParseResult(ASTExpression([p.node]), rest))
            case None => None
  {
    ScopeOfFlatGroup(open, inner, close, rest, ParenLeft, ParenRight);
  }

  /** ((a + b)): consume_scope drops the inner '(' but keeps the inner
      ')', so the inside is a + b with a stray ')' after it, which the
      infix rule leaves over inside the scope. */
  lemma NestedParenExample(o: LexToken, a: LexToken, p: LexToken, b: LexToken, c: LexToken)
    requires o.kind == ParenLeft && c.kind == ParenRight
    requires a == LexToken(Var, "a", 2, 2) && b == LexToken(Var, "b", 4, 4)
    requires p.kind == Command && p.value == "+"
    ensures Scope([o, o, a, p, b, c, c], ParenLeft, ParenRight) == Some(ScopeResult([a, p, b, c], []))
    ensures ParseExpression([o, o, a, p, b, c, c])
         == Some(ParseResult(ASTExpression([ASTBinaryOp(Some(Add), ASTVar("a"), ASTVar("b"))]), []))
  {
    NestedParenScope([o, o, a, p, b, c, c]);
    InnerParse(a, p, b, c);
  }

  /** a + b ) parses as a + b and leaves the ')'. */
  lemma InnerParse(a: LexToken, p: LexToken, b: LexToken, c: LexToken)
    requires c.kind == ParenRight && a.kind == Var && b.kind == Var
    requires p.kind == Command && p.value == "+"
    ensures Parse([a, p, b, c]) == Some(ParseResult(ASTBinaryOp(Some(Add), ASTVar(a.value), ASTVar(b.value)), [c]))
  {
    var inner := [a, p, b, c];
    assert Scope(inner, ParenLeft, ParenRight) == Some(ScopeResult([], inner[1..]));
    ParseShort([]);
    assert Drop(inner, 1) == [p, b, c];
    assert Scope([p, b, c], CommandArgStart, CommandArgEnd) == Some(ScopeResult([], [b, c]));
    assert inner[2..] == [b, c];
    assert RightArg([b, c]) == Some(ASTVar(b.value));
  }

  lemma NestedParenScope(ts: seq<LexToken>)
    requires |ts| == 7 && ts[0].kind == ts[1].kind == ParenLeft && ts[5].kind == ts[6].kind == ParenRight
    requires ts[2].kind == Var && ts[3].kind == Command && ts[4].kind == Var
    ensures Scope(ts, ParenLeft, ParenRight) == Some(ScopeResult([ts[2], ts[3], ts[4], ts[5]], []))
  {
    var body := [ts[2], ts[3], ts[4], ts[5]];
    assert ts[7..] == [];
    assert body[..3] + [ts[5]] == body && body[..2] + [ts[4]] == body[..3];
    assert body[..1] + [ts[3]] == body[..2] && [] + [ts[2]] == body[..1];
    assert ScopeFrom(ts, ParenLeft, ParenRight, 6, 1, body) == Some(ScopeResult(body, []));
    assert ScopeFrom(ts, ParenLeft, ParenRight, 5, 2, body[..3]) == ScopeFrom(ts, ParenLeft, ParenRight, 6, 1, body);
    assert ScopeFrom(ts, ParenLeft, ParenRight, 4, 2, body[..2]) == ScopeFrom(ts, ParenLeft, ParenRight, 5, 2, body[..3]);
    assert ScopeFrom(ts, ParenLeft, ParenRight, 3, 2, body[..1]) == ScopeFrom(ts, ParenLeft, ParenRight, 4, 2, body[..2]);
    assert ScopeFrom(ts, ParenLeft, ParenRight, 2, 2, []) == ScopeFrom(ts, ParenLeft, ParenRight, 3, 2, body[..1]);
    assert ScopeFrom(ts, ParenLeft, ParenRight, 1, 1, []) == ScopeFrom(ts, ParenLeft, ParenRight, 2, 2, []);
    assert ScopeFrom(ts, ParenLeft, ParenRight, 0, 0, []) == ScopeFrom(ts, ParenLeft, ParenRight, 1, 1, []);
  }

  /** Fewer than two tokens parse to nothing. */
  lemma ParseShort(ts: seq<LexToken>)
    requires |ts| < 2
    ensures Parse(ts).None?
  {
    if |ts| == 1 {
      assert Drop(ts, 1) == [];
    }
  }

  /** Everything parse returns can be rendered as Python source and as a
      dict: no NoNode, no unary command and no childless expression. */
  lemma {:induction false} ParsedRenders(ts: seq<LexToken>)
    ensures var r := Parse(ts); r.Some? ==> Python(r.value.node).Some? && Dict(r.value.node).Some?
    decreases |ts|
  {
    var r := Parse(ts);
    if r.Some? {
      if ParseExpression(ts).Some? {
        var s := Scope(ts, ParenLeft, ParenRight).value;
        ParsedRenders(s.result);
      } else if ParseBinaryOp(ts).Some? {
      } else {
        assert DictExact(r.value.node);
      }
    }
  }

  // ---------------------------------------------------------------------
  // Implicit multiplication

  /** is_implicit: the tokens an implicit product is made of, which are
      exactly the tokens token_node turns into a leaf. */
  predicate IsImplicit(t: LexToken): (b: bool)
    ensures b <==> TokenNode(t) != NoNode
  {
    t.kind == Var || t.kind == Number
  }

  /** build_tree_rec: a right-leaning chain of MULTIPLY nodes over the
      token leaves; the last token alone is the last leaf. */
  function BuildTreeRec(run: seq<LexToken>): (r: Node)
    requires |run| > 0
    ensures |run| > 1 ==> r.ASTBinaryOp? && r.op == Some(Multiply) && r.left == TokenNode(run[0])
    ensures |run| == 1 ==> r == TokenNode(run[0])
    ensures DictExact(r) <==> forall k :: 0 <= k < |run| ==> IsImplicit(run[k])
  {
    if |run| > 1 then ASTBinaryOp(Some(Multiply), TokenNode(run[0]), BuildTreeRec(run[1..]))
    else TokenNode(run[0])
  }

  /** build_tree: asserts at least two tokens, then builds the chain. */
  function BuildTree(run: seq<LexToken>): (r: Option<Node>)
    ensures r.Some? <==> |run| > 1
    ensures r.Some? ==> r.value.ASTBinaryOp? && r.value.op == Some(Multiply) && r.value.left == TokenNode(run[0])
  {
    if |run| > 1 then Some(BuildTreeRec(run)) else None
  }

  /** The leaves along a right-leaning chain, left to right. */
  function SpineLeaves(n: Node): seq<Node>
  {
    if n.ASTBinaryOp? then [n.left] + SpineLeaves(n.right) else [n]
  }

  /** Every operator along the right spine is MULTIPLY. */
  predicate AllMultiply(n: Node)
  {
    n.ASTBinaryOp? ==> n.op == Some(Multiply) && AllMultiply(n.right)
  }

  /** The chain has one leaf per token, in token order, joined only by
      MULTIPLY. */
  lemma {:induction false} BuildTreeRecLeaves(run: seq<LexToken>)
    requires |run| > 0
    ensures SpineLeaves(BuildTreeRec(run)) == seq(|run|, k requires 0 <= k < |run| => TokenNode(run[k]))
    ensures AllMultiply(BuildTreeRec(run))
    ensures |run| > 1 ==> RightSpine(BuildTreeRec(run))
  {
    if |run| > 1 {
      BuildTreeRecLeaves(run[1..]);
    }
  }

  /** The chain renders exactly when its last token is a number or a
      variable (only the last may be otherwise, and it then becomes None). */
  lemma {:induction false} BuildTreeRecRenders(run: seq<LexToken>)
    requires |run| > 0
    requires forall k :: 0 <= k < |run| - 1 ==> IsImplicit(run[k])
    ensures Python(BuildTreeRec(run)).Some? <==> IsImplicit(run[|run| - 1])
    ensures Dict(BuildTreeRec(run)).Some? <==> IsImplicit(run[|run| - 1])
  {
    if |run| > 1 {
      assert IsImplicit(run[0]);
      BuildTreeRecRenders(run[1..]);
    }
  }

  /** parse_implicit_multiplication: the run of NUMBER/VAR tokens (with the
      token that stopped it) folded to the right into MULTIPLY nodes; the
      remainder starts at the run's last token. */
  function ParseImplicitMultiplication(ts: seq<LexToken>): (r: Option<ParseResult>)
    ensures r.Some? ==>
      var n := r.value.node;
      && |ts| >= 2 && n.ASTBinaryOp? && n.op == Some(Multiply) && n.left == TokenNode(ts[0])
      && |r.value.remainder| < |ts|
  {
    match While(ts, IsImplicit)
    case None => None
    case Some(run) =>
      match BuildTree(run.result)
      case Some(tree) => Some(ParseResult(tree, run.remainder))
      case None => None
  }

  /** The rule succeeds exactly when there are two tokens and the first is
      a number or a variable; a run of one token fails build_tree's
      assertion. */
  lemma ImplicitSucceeds(ts: seq<LexToken>)
    ensures ParseImplicitMultiplication(ts).Some? <==> |ts| >= 2 && IsImplicit(ts[0])
  {
    if |ts| > 0 {
      var i := StopIndex(ts, IsImplicit, 0);
      assert While(ts, IsImplicit) == Some(ScopeResult(ts[..i + 1], ts[i..]));
    }
  }

  lemma ImplicitTree(ts: seq<LexToken>)
    requires ParseImplicitMultiplication(ts).Some?
    ensures var r := ParseImplicitMultiplication(ts).value;
      var run := While(ts, IsImplicit).value.result;
      && RightSpine(r.node) && AllMultiply(r.node)
      && SpineLeaves(r.node) == seq(|run|, k requires 0 <= k < |run| => TokenNode(run[k]))
  {
    BuildTreeRecLeaves(While(ts, IsImplicit).value.result);
  }

  lemma ImplicitRemainder(ts: seq<LexToken>)
    requires ParseImplicitMultiplication(ts).Some?
    ensures var r := ParseImplicitMultiplication(ts).value;
      var run := While(ts, IsImplicit).value.result;
      Consumes(r.remainder, ts) && r.remainder[0] == run[|run| - 1]
  {
    var w := While(ts, IsImplicit).value;
    var run := w.result;
    assert ParseImplicitMultiplication(ts).value.remainder == w.remainder;
    assert |ts| - |w.remainder| == |run| - 1;
    assert w.remainder[1..] == ts[|run|..];
    assert w.remainder == [Last(run)] + w.remainder[1..];
    assert ts[|run| - 1..] == [ts[|run| - 1]] + ts[|run|..];
  }

  lemma ImplicitRenders(ts: seq<LexToken>)
    requires ParseImplicitMultiplication(ts).Some?
    ensures var r := ParseImplicitMultiplication(ts).value;
      && (Python(r.node).Some? <==> forall t <- ts :: IsImplicit(t))
      && (Dict(r.node).Some? <==> forall t <- ts :: IsImplicit(t))
  {
    var w := While(ts, IsImplicit).value;
    var run := w.result;
    BuildTreeRecRenders(run);
    assert run + w.remainder[1..] == ts;
    if forall t <- ts :: IsImplicit(t) {
      assert IsImplicit(ts[|run| - 1]);
    } else {
      var k :| 0 <= k < |ts| && !IsImplicit(ts[k]);
      if k < |run| {
        assert run[k] == ts[k];
      } else {
        assert |w.remainder| != 1;
      }
    }
  }

  /** On success the tree is a right-leaning MULTIPLY chain over the leaves
      of the run, the remainder is a proper suffix sharing the run's last
      token, and the tree renders exactly when every token of the input is
      a number or a variable. */
  lemma ImplicitShape(ts: seq<LexToken>)
    requires ParseImplicitMultiplication(ts).Some?
    ensures var r := ParseImplicitMultiplication(ts).value;
      var run := While(ts, IsImplicit).value.result;
      && RightSpine(r.node) && AllMultiply(r.node)
      && SpineLeaves(r.node) == seq(|run|, k requires 0 <= k < |run| => TokenNode(run[k]))
      && Consumes(r.remainder, ts) && r.remainder[0] == run[|run| - 1]
      && (Python(r.node).Some? <==> forall t <- ts :: IsImplicit(t))
      && (Dict(r.node).Some? <==> forall t <- ts :: IsImplicit(t))
  {
    ImplicitTree(ts);
    ImplicitRemainder(ts);
    ImplicitRenders(ts);
  }

  /** 2xt folds to 2 * (x * t); the run stops at the end of the input and
      the remainder is the last token. */
  lemma ImplicitExample(two: LexToken, x: LexToken, t: LexToken)
    requires two == LexToken(Number, "2", 0, 0) && x == LexToken(Var, "x", 1, 1) && t == LexToken(Var, "t", 2, 2)
    ensures ParseImplicitMultiplication([two, x, t])
         == Some(ParseResult(ASTBinaryOp(Some(Multiply), ASTNumber("2"),
                               ASTBinaryOp(Some(Multiply), ASTVar("x"), ASTVar("t"))), [t]))
  {
    var ts := [two, x, t];
    assert StopIndex(ts, IsImplicit, 0) == 2;
    assert ts[..3] == ts && ts[2..] == [t];
    assert ts[1..] == [x, t] && ts[1..][1..] == [t];
    assert While(ts, IsImplicit) == Some(ScopeResult(ts, [t]));
    assert BuildTreeRec([t]) == ASTVar("t");
    assert BuildTreeRec([x, t]) == ASTBinaryOp(Some(Multiply), ASTVar("x"), ASTVar("t"));
  }

  // ---------------------------------------------------------------------
  // parse_program

  /** parse_program: lex the text and return the node of parse, which is
      always a binary op over two arguments. */
  function ParseProgram(tex: string): (r: Option<Node>)
    ensures r.Some? ==> r.value.ASTBinaryOp? && r.value.left.ASTArg? && r.value.right.ASTArg?
  {
    ProgramIsPrefixBinaryOp(tex);
    match Parse(Lexed(tex))
    case Some(p) => Some(p.node)
    case None => None
  }

  /** The lexer yields no paren, NUMBER or VAR token, so of the three rules
      only the prefix binary op can ever match lexed text. */
  lemma ProgramIsPrefixBinaryOp(tex: string)
    ensures Parse(Lexed(tex)) == ParseBinaryOp(Lexed(tex))
  {
    var ts := Lexed(tex);
    LexedSpans(tex);
    if |ts| >= 2 {
      assert ts[0] in ts;
      assert Scope(ts, ParenLeft, ParenRight) == Some(ScopeResult([], ts[1..]));
      ParseShort([]);
    }
    if |ts| > 0 {
      assert ts[0] in ts;
    }
  }

  /** Through parse_program the only success is a prefix binary op whose
      two arguments are each the text of a lexed token: a closing brace or
      a backslash command. The text between braces never reaches it. */
  lemma ProgramShape(tex: string)
    requires ParseProgram(tex).Some?
    ensures var n := ParseProgram(tex).value;
      && n.ASTBinaryOp? && n.op == OpFromToken(Lexed(tex)[0])
      && n.left.ASTArg? && n.right.ASTArg?
      && (n.left.value == "}" || (|n.left.value| > 0 && n.left.value[0] == '\\'))
      && (n.right.value == "}" || (|n.right.value| > 0 && n.right.value[0] == '\\'))
  {
    var ts := Lexed(tex);
    ProgramIsPrefixBinaryOp(tex);
    LexedSpans(tex);
    LexedValues(tex);
    var first := Scope(Drop(ts, 1), CommandArgStart, CommandArgEnd).value;
    var second := Scope(first.remainder, CommandArgStart, CommandArgEnd).value;
    ScopeResultMembers(Drop(ts, 1), CommandArgStart, CommandArgEnd);
    ScopeResultHasNoStart(Drop(ts, 1), CommandArgStart, CommandArgEnd);
    ScopeResultMembers(first.remainder, CommandArgStart, CommandArgEnd);
    ScopeResultHasNoStart(first.remainder, CommandArgStart, CommandArgEnd);
    var a, b := first.result[0], second.result[0];
    assert a in Drop(ts, 1) && a.kind != CommandArgStart;
    assert b in first.remainder && b.kind != CommandArgStart;
    assert first.remainder == Drop(ts, 1)[|Drop(ts, 1)| - |first.remainder|..];
    assert b in Drop(ts, 1);
    assert a in ts && b in ts;
  }

  /** The lambda of a parse_program result takes no parameters: both leaves
      are arguments, so vars is empty. */
  lemma ProgramLambda(tex: string)
    requires ParseProgram(tex).Some?
    ensures var n := ParseProgram(tex).value;
      && n.ASTBinaryOp? && n.left.ASTArg? && n.right.ASTArg?
      && Python(n) == Some("(" + n.left.value + OpText(n.op) + n.right.value + ")")
      && PythonFuncStr(n) == Some("lambda: " + Python(n).value)
  {
    ProgramShape(tex);
    ArgsLambda(ParseProgram(tex).value);
  }

  /** The tokens of \frac{1}{2} as lexed: the first brace scope is empty. */
  lemma LexedFracTokensFail(ts: seq<LexToken>)
    requires ts == [LexToken(Command, "\\frac", 0, 5), LexToken(CommandArgStart, "{", 5, 5),
                    LexToken(CommandArgEnd, "}", 7, 7), LexToken(CommandArgEnd, "}", 10, 10)]
    ensures ParseBinaryOp(ts).None?
  {
    var o, e1, e2 := ts[1], ts[2], ts[3];
    assert Drop(ts, 1) == [o] + [] + [e1] + [e2];
    ScopeOfFlatGroup(o, [], e1, [e2], CommandArgStart, CommandArgEnd);
  }

  /** parse_program('\frac{1}{2}') fails: the lexer drops the digits, so
      the first brace scope is empty and parse_arg has nothing to take. */
  lemma ProgramFracFails(tex: string)
    requires tex == "\\frac{1}{2}"
    ensures ParseProgram(tex).None?
  {
    LexFracExample(tex);
    ProgramIsPrefixBinaryOp(tex);
    LexedFracTokensFail(Lexed(tex));
  }
}
