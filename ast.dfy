/** The AST node model of tex_ast/ast.py and its derived views: the
    operator tables, the structured dict view, the Python source rendering,
    the right-spine variable walk and the lambda source string. */
module Ast {
  import opened Wrappers
  import Lex

  /** ASTBinaryOp.Type */
  datatype BinaryOpType = Add | Multiply | Pow | Divide

  /** ASTUnaryCommand.Type */
  datatype UnaryCommandType = Sqrt | Negative

  /** The node classes. A number keeps its literal text. A binary op's type
      is optional because parse_binary_op stores whatever from_token
      returns, None included. NoNode stands for Python's None in a child
      slot, which token_node returns for a token that is neither NUMBER nor
      VAR. Only ASTExpression ever has children. */
  datatype Node =
    | ASTNumber(number: string)
    | ASTVar(name: string)
    | ASTArg(value: string)
    | ASTBinaryOp(op: Option<BinaryOpType>, left: Node, right: Node)
    | ASTExpression(children: seq<Node>)
    | ASTUnaryCommand(command: UnaryCommandType, arg: Node)
    | NoNode

  // ---------------------------------------------------------------------
  // Operator tables

  /** ASTBinaryOp.Type.from_token: matches the token's value. */
  function OpFromToken(t: Lex.LexToken): (r: Option<BinaryOpType>)
    ensures r == Some(Add) <==> t.value == "+"
    ensures r == Some(Multiply) <==> t.value == "\\cdot"
    ensures r == Some(Divide) <==> t.value == "\\frac"
    ensures r != Some(Pow)
  {
    if t.value == "+" then Some(Add)
    else if t.value == "\\cdot" then Some(Multiply)
    else if t.value == "\\frac" then Some(Divide)
    else None
  }

  /** ASTBinaryOp.Type.__str__: a non-empty symbol without parentheses,
      never the text "None". */
  function Symbol(op: BinaryOpType): (r: string)
    ensures |r| > 0 && '(' !in r && ')' !in r && r != "None"
  {
    match op
    case Add => "+"
    case Multiply => "*"
    case Pow => "**"
    case Divide => "/"
  }

  /** str(self.type): the symbol, or "None" when the type is None. */
  function OpText(op: Option<BinaryOpType>): (r: string)
    ensures r == "None" <==> op.None?
    ensures |r| > 0 && '(' !in r && ')' !in r
  {
    match op
    case Some(o) => Symbol(o)
    case None => "None"
  }

  /** Distinct operator types (None included) print differently. */
  lemma OpTextInjective(a: Option<BinaryOpType>, b: Option<BinaryOpType>)
    ensures OpText(a) == OpText(b) ==> a == b
  {
  }

  /** ASTUnaryCommand.Type.from_token */
  function UnaryFromToken(t: Lex.LexToken): (r: Option<UnaryCommandType>)
    ensures r == Some(Sqrt) <==> t.value == "\\sqrt"
    ensures r == Some(Negative) <==> t.value == "-"
  {
    if t.value == "\\sqrt" then Some(Sqrt)
    else if t.value == "-" then Some(Negative)
    else None
  }

  // ---------------------------------------------------------------------
  // The structured dict view

  /** A JSON-like value; an object keeps its keys in insertion order. */
  datatype Json =
    | JString(str: string)
    | JArray(items: seq<Json>)
    | JObject(members: seq<(string, Json)>)

  /** The class name each dict records under "type". */
  function ClassName(n: Node): string
  {
    match n
    case ASTNumber(_) => "ASTNumber"
    case ASTVar(_) => "ASTVar"
    case ASTArg(_) => "ASTArg"
    case ASTBinaryOp(_, _, _) => "ASTBinaryOp"
    case ASTExpression(_) => "ASTExpression"
    case ASTUnaryCommand(_, _) => "ASTUnaryCommand"
    case NoNode => "NoneType"  // never consulted: Dict fails on NoNode
  }

  /** The dict view raises: a unary command or a None child is reached
      through binary-op children (an expression does not look at its
      children). */
  predicate DictRaises(n: Node)
  {
    match n
    case ASTBinaryOp(_, l, r) => DictRaises(l) || DictRaises(r)
    case ASTUnaryCommand(_, _) => true
    case NoNode => true
    case _ => false
  }

  /** The dict property. None where Python raises: UnaryCommand's dict is
      NotImplementedError, and None (NoNode) has no dict attribute. Every
      dict is an object; all but the argument's inherited default start
      with the class name under "type". */
  function Dict(n: Node): (r: Option<Json>)
    ensures r.None? <==> DictRaises(n)
    ensures r.Some? ==> r.value.JObject?
    ensures r.Some? && !n.ASTArg? ==> |r.value.members| >= 2 && r.value.members[0] == ("type", JString(ClassName(n)))
    ensures r.Some? && n.ASTArg? ==> r.value.members == []
  {
    match n
    case ASTNumber(text) =>
      Some(JObject([("type", JString("ASTNumber")), ("number", JString(text))]))
    case ASTVar(name) =>
      Some(JObject([("type", JString("ASTVar")), ("name", JString(name))]))
    case ASTArg(_) =>
      // the base DictRepresentable default
      Some(JObject([]))
    case ASTBinaryOp(op, l, r) =>
      (match (Dict(l), Dict(r))
       case (Some(dl), Some(dr)) =>
         Some(JObject([("type", JString("ASTBinaryOp")), ("op", JString(OpText(op))),
                       ("left_arg", dl), ("right_arg", dr)]))
       case _ => None)
    case ASTExpression(_) =>
      Some(JObject([("type", JString("ASTExpression")), ("children", JArray([]))]))
    case ASTUnaryCommand(_, _) => None
    case NoNode => None
  }

  /** Trees the dict view describes completely: numbers, variables and
      binary ops over them. Each has a dict view and a Python rendering. */
  predicate DictExact(n: Node): (b: bool)
    ensures b ==> Dict(n).Some? && Python(n).Some?
  {
    match n
    case ASTNumber(_) => true
    case ASTVar(_) => true
    case ASTBinaryOp(_, l, r) => DictExact(l) && DictExact(r)
    case _ => false
  }

  /** On numbers, variables and binary ops over them the dict view loses
      nothing: two such trees with the same dict are the same tree. */
  lemma {:induction false} DictInjective(a: Node, b: Node)
    requires DictExact(a) && DictExact(b) && Dict(a) == Dict(b)
    ensures a == b
  {
    match a
    case ASTBinaryOp(op, l, r) =>
      var ms := Dict(a).value.members;
      assert ms[0].1 == JString("ASTBinaryOp");
      assert b.ASTBinaryOp?;
      assert ms[1] == ("op", JString(OpText(op))) == ("op", JString(OpText(b.op)));
      OpTextInjective(op, b.op);
      assert ms[2] == ("left_arg", Dict(l).value) == ("left_arg", Dict(b.left).value);
      assert ms[3] == ("right_arg", Dict(r).value) == ("right_arg", Dict(b.right).value);
      DictInjective(l, b.left);
      DictInjective(r, b.right);
    case ASTNumber(_) =>
    case ASTVar(_) =>
  }

  /** The dict view drops an expression's children and an argument's text. */
  lemma DictForgets(cs: seq<Node>, a: string, b: string)
    ensures Dict(ASTExpression(cs)) == Dict(ASTExpression([]))
            == Some(JObject([("type", JString("ASTExpression")), ("children", JArray([]))]))
    ensures Dict(ASTArg(a)) == Dict(ASTArg(b)) == Some(JObject([]))
  {
  }

  /** A binary op over two numbers serializes to the nested object of the
      wire format. */
  lemma DictOfProduct()
    ensures Dict(ASTBinaryOp(Some(Multiply), ASTNumber("5"), ASTNumber("7")))
         == Some(JObject([("type", JString("ASTBinaryOp")), ("op", JString("*")),
                          ("left_arg", JObject([("type", JString("ASTNumber")), ("number", JString("5"))])),
                          ("right_arg", JObject([("type", JString("ASTNumber")), ("number", JString("7"))]))]))
  {
  }

  // ---------------------------------------------------------------------
  // The Python source rendering

  /** The rendering raises: on its path (both children of a binary op, the
      first child of an expression) it meets an expression without
      children, a unary command or a None child. */
  predicate PythonRaises(n: Node)
  {
    match n
    case ASTBinaryOp(_, l, r) => PythonRaises(l) || PythonRaises(r)
    case ASTExpression(cs) => |cs| == 0 || PythonRaises(cs[0])
    case ASTUnaryCommand(_, _) => true
    case NoNode => true
    case _ => false
  }

  /** The python property. None where Python raises: an expression without
      children (IndexError), a unary command (NotImplementedError) and None
      (NoNode) in a child slot. A leaf renders as its text; a binary op and
      an expression render inside one pair of parentheses. */
  function Python(n: Node): (r: Option<string>)
    ensures r.None? <==> PythonRaises(n)
    ensures r.Some? && (n.ASTBinaryOp? || n.ASTExpression?) ==>
      |r.value| >= 2 && r.value[0] == '(' && Lex.Last(r.value) == ')'
  {
    match n
    case ASTNumber(text) => Some(text)
    case ASTVar(name) => Some(name)
    case ASTArg(value) => Some(value)
    case ASTBinaryOp(op, l, r) =>
      (match (Python(l), Python(r))
       case (Some(pl), Some(pr)) => Some("(" + pl + OpText(op) + pr + ")")
       case _ => None)
    case ASTExpression(cs) =>
      if |cs| == 0 then None
      else (match Python(cs[0])
            case Some(p) => Some("(" + p + ")")
            case None => None)
    case ASTUnaryCommand(_, _) => None
    case NoNode => None
  }

  function Count(s: string, c: char): nat
  {
    if s == [] then 0 else Count(s[..|s| - 1], c) + (if Lex.Last(s) == c then 1 else 0)
  }

  lemma {:induction false} CountAppend(a: string, b: string, c: char)
    ensures Count(a + b, c) == Count(a, c) + Count(b, c)
  {
    if b != [] {
      assert (a + b)[..|a + b| - 1] == a + b[..|b| - 1];
      CountAppend(a, b[..|b| - 1], c);
    } else {
      assert a + b == a;
    }
  }

  /** The parenthesis pairs the rendering writes: one per binary op and one
      per expression, following children[0]. */
  function Groups(n: Node): nat
  {
    match n
    case ASTBinaryOp(_, l, r) => 1 + Groups(l) + Groups(r)
    case ASTExpression(cs) => if |cs| == 0 then 0 else 1 + Groups(cs[0])
    case _ => 0
  }

  /** The texts a rendering copies verbatim contain no parenthesis. */
  predicate PlainLeaves(n: Node)
  {
    match n
    case ASTNumber(text) => '(' !in text && ')' !in text
    case ASTVar(name) => '(' !in name && ')' !in name
    case ASTArg(value) => '(' !in value && ')' !in value
    case ASTBinaryOp(_, l, r) => PlainLeaves(l) && PlainLeaves(r)
    case ASTExpression(cs) => |cs| > 0 ==> PlainLeaves(cs[0])
    case _ => true
  }

  lemma {:induction false} CountAbsent(s: string, c: char)
    requires c !in s
    ensures Count(s, c) == 0
  {
    if s != [] {
      assert Lex.Last(s) in s;
      assert forall x <- s[..|s| - 1] :: x in s;
      CountAbsent(s[..|s| - 1], c);
    }
  }

  /** The parenthesis count of a binary op's rendering, for an operator
      text without parentheses. */
  lemma CountOfBinary(pl: string, t: string, pr: string, c: char)
    requires c !in t
    ensures Count("(" + pl + t + pr + ")", c)
         == (if c == '(' then 1 else 0) + Count(pl, c) + Count(pr, c) + (if c == ')' then 1 else 0)
  {
    CountAbsent(t, c);
    CountAppend("(" + pl + t + pr, ")", c);
    CountAppend("(" + pl + t, pr, c);
    CountAppend("(" + pl, t, c);
    CountAppend("(", pl, c);
    assert Count("(", c) == (if c == '(' then 1 else 0);
    assert Count(")", c) == (if c == ')' then 1 else 0);
  }

  /** The parenthesis count of an expression's rendering. */
  lemma CountOfWrap(p: string, c: char)
    ensures Count("(" + p + ")", c) == (if c == '(' then 1 else 0) + Count(p, c) + (if c == ')' then 1 else 0)
  {
    CountAppend("(" + p, ")", c);
    CountAppend("(", p, c);
    assert Count("(", c) == (if c == '(' then 1 else 0);
    assert Count(")", c) == (if c == ')' then 1 else 0);
  }

  /** The rendering is fully parenthesised: when the copied texts contain no
      parenthesis it has exactly one '(' and one ')' per binary op and
      per expression on its path. */
  lemma {:induction false} PythonParenthesised(n: Node)
    requires PlainLeaves(n) && Python(n).Some?
    ensures Count(Python(n).value, '(') == Groups(n) == Count(Python(n).value, ')')
  {
    match n
    case ASTNumber(text) => CountAbsent(text, '('); CountAbsent(text, ')');
    case ASTVar(name) => CountAbsent(name, '('); CountAbsent(name, ')');
    case ASTArg(value) => CountAbsent(value, '('); CountAbsent(value, ')');
    case ASTBinaryOp(op, l, r) =>
      PythonParenthesised(l);
      PythonParenthesised(r);
      CountOfBinary(Python(l).value, OpText(op), Python(r).value, '(');
      CountOfBinary(Python(l).value, OpText(op), Python(r).value, ')');
    case ASTExpression(cs) =>
      PythonParenthesised(cs[0]);
      CountOfWrap(Python(cs[0]).value, '(');
      CountOfWrap(Python(cs[0]).value, ')');
  }

  // ---------------------------------------------------------------------
  // Free variables and the lambda string

  /** vars (ASTBinaryOp only): the left child's name when it is directly a
      variable, then the right variable or the right binary op's vars.
      Every name it returns is a variable leaf of the tree. */
  function Vars(n: Node): (r: seq<string>)
    requires n.ASTBinaryOp?
    ensures forall x <- r :: x in VarLeaves(n)
    ensures n.left.ASTVar? ==> |r| > 0 && r[0] == n.left.name
  {
    (if n.left.ASTVar? then [n.left.name] else [])
    + (if n.right.ASTVar? then [n.right.name]
       else if n.right.ASTBinaryOp? then Vars(n.right)
       else [])
  }

  /** Every variable leaf of a tree, left to right, duplicates kept. */
  function VarLeaves(n: Node): seq<string>
  {
    match n
    case ASTVar(name) => [name]
    case ASTBinaryOp(_, l, r) => VarLeaves(l) + VarLeaves(r)
    case ASTExpression(cs) => VarLeavesOf(cs)
    case ASTUnaryCommand(_, a) => VarLeaves(a)
    case _ => []
  }

  function VarLeavesOf(cs: seq<Node>): seq<string>
  {
    if cs == [] then [] else VarLeaves(cs[0]) + VarLeavesOf(cs[1..])
  }

  /** a is obtained from b by deleting elements. */
  predicate IsSubsequence(a: seq<string>, b: seq<string>)
    decreases |b|
  {
    if b == [] then a == []
    else (a != [] && a[0] == b[0] && IsSubsequence(a[1..], b[1..])) || IsSubsequence(a, b[1..])
  }

  lemma {:induction false} SubsequenceOfAny(b: seq<string>)
    ensures IsSubsequence([], b)
    decreases |b|
  {
    if b != [] {
      SubsequenceOfAny(b[1..]);
    }
  }

  lemma {:induction false} SubsequenceRefl(a: seq<string>)
    ensures IsSubsequence(a, a)
    decreases |a|
  {
    if a != [] {
      SubsequenceRefl(a[1..]);
    }
  }

  lemma {:induction false} SubsequenceConcat(a: seq<string>, b: seq<string>, c: seq<string>, d: seq<string>)
    requires IsSubsequence(a, b) && IsSubsequence(c, d)
    ensures IsSubsequence(a + c, b + d)
    decreases |b|
  {
    if b == [] {
      assert a + c == c && b + d == d;
    } else {
      assert (b + d)[0] == b[0] && (b + d)[1..] == b[1..] + d;
      if a != [] && a[0] == b[0] && IsSubsequence(a[1..], b[1..]) {
        SubsequenceConcat(a[1..], b[1..], c, d);
        assert (a + c)[0] == a[0] && (a + c)[1..] == a[1..] + c;
      } else {
        SubsequenceConcat(a, b[1..], c, d);
      }
    }
  }

  lemma {:induction false} SubsequenceLength(a: seq<string>, b: seq<string>)
    requires IsSubsequence(a, b)
    ensures |a| <= |b|
    decreases |b|
  {
    if b != [] {
      if a != [] && a[0] == b[0] && IsSubsequence(a[1..], b[1..]) {
        SubsequenceLength(a[1..], b[1..]);
      } else {
        SubsequenceLength(a, b[1..]);
      }
    }
  }

  /** vars keeps a subset of the variable leaves, in their order. */
  lemma {:induction false} VarsAreLeaves(n: Node)
    requires n.ASTBinaryOp?
    ensures IsSubsequence(Vars(n), VarLeaves(n))
  {
    var left := if n.left.ASTVar? then [n.left.name] else [];
    var right := if n.right.ASTVar? then [n.right.name]
                 else if n.right.ASTBinaryOp? then Vars(n.right)
                 else [];
    if n.left.ASTVar? { SubsequenceRefl(left); } else { SubsequenceOfAny(VarLeaves(n.left)); }
    if n.right.ASTVar? { SubsequenceRefl(right); }
    else if n.right.ASTBinaryOp? { VarsAreLeaves(n.right); }
    else { SubsequenceOfAny(VarLeaves(n.right)); }
    SubsequenceConcat(left, VarLeaves(n.left), right, VarLeaves(n.right));
  }

  /** |vars| is at most the number of variable leaves. */
  lemma VarsBound(n: Node)
    requires n.ASTBinaryOp?
    ensures |Vars(n)| <= |VarLeaves(n)|
  {
    VarsAreLeaves(n);
    SubsequenceLength(Vars(n), VarLeaves(n));
  }

  predicate IsLeaf(n: Node)
  {
    n.ASTNumber? || n.ASTVar? || n.NoNode?
  }

  /** A right-leaning chain: every left child is a leaf and the right child
      is a leaf or again such a chain. The infix parser and the implicit
      multiplication builder produce these. */
  predicate RightSpine(n: Node)
  {
    n.ASTBinaryOp? && IsLeaf(n.left) && (IsLeaf(n.right) || RightSpine(n.right))
  }

  /** On a right-leaning chain vars finds every variable leaf, in order. */
  lemma {:induction false} VarsOfRightSpine(n: Node)
    requires RightSpine(n)
    ensures Vars(n) == VarLeaves(n)
  {
    if !IsLeaf(n.right) {
      VarsOfRightSpine(n.right);
    }
  }

  /** vars walks only the right spine: x + (y + (5 + z)) gives [x, y, z], a
      left binary op contributes nothing, and duplicates are kept. */
  lemma VarsExamples()
    ensures Vars(ASTBinaryOp(Some(Add), ASTVar("x"),
                 ASTBinaryOp(Some(Add), ASTVar("y"),
                 ASTBinaryOp(Some(Add), ASTNumber("5"), ASTVar("z"))))) == ["x", "y", "z"]
    ensures Vars(ASTBinaryOp(Some(Add), ASTBinaryOp(Some(Add), ASTVar("x"), ASTVar("y")), ASTVar("x"))) == ["x"]
    ensures Vars(ASTBinaryOp(Some(Multiply), ASTVar("x"), ASTVar("x"))) == ["x", "x"]
  {
  }

  /** sep.join(xs): starts with the first item, and with a non-empty
      separator it is empty only for no items or the one empty item. */
  function Join(xs: seq<string>, sep: string): (r: string)
    ensures |xs| > 0 ==> |xs[0]| <= |r| && r[..|xs[0]|] == xs[0]
    ensures sep != "" ==> (r == "" <==> xs == [] || xs == [""])
  {
    if xs == [] then ""
    else if |xs| == 1 then xs[0]
    else xs[0] + sep + Join(xs[1..], sep)
  }

  /** python_func_str (ASTBinaryOp only): "lambda", a space and the joined
      vars when that string is not empty, ": " and the rendering. None where
      the rendering raises. The parameter list is empty (":" right after
      "lambda") exactly when vars is empty or only the empty name. */
  function PythonFuncStr(n: Node): (r: Option<string>)
    requires n.ASTBinaryOp?
    ensures r.Some? <==> Python(n).Some?
    ensures r.Some? ==>
      var p := Python(n).value;
      && |r.value| >= 8 + |p| && r.value[..6] == "lambda"
      && r.value[|r.value| - |p| - 2..] == ": " + p
      && r.value[6..|r.value| - |p| - 2] == ParamText(Join(Vars(n), ","))
      && (r.value[6] == ':' <==> Vars(n) == [] || Vars(n) == [""])
  {
    var args := Join(Vars(n), ",");
    match Python(n)
    case Some(p) =>
      LambdaText(args, p);
      Some("lambda" + ParamText(args) + ": " + p)
    case None => None
  }

  /** What stands between "lambda" and ": ": nothing for an empty parameter
      string, otherwise a space and the parameters. */
  function ParamText(args: string): (r: string)
    ensures (r == "") <==> (args == "")
    ensures r != "" ==> r[0] == ' ' && r[1..] == args
  {
    if args == "" then "" else " " + args
  }

  /** The layout of a lambda string around its parameters and body. */
  lemma LambdaText(args: string, p: string)
    ensures var r := "lambda" + ParamText(args) + ": " + p;
      && |r| >= 8 + |p| && r[..6] == "lambda"
      && r[|r| - |p| - 2..] == ": " + p
      && r[6..|r| - |p| - 2] == ParamText(args)
      && (r[6] == ':' <==> args == "")
  {
    var pre := "lambda" + ParamText(args);
    var r := pre + ": " + p;
    assert |r| == |pre| + 2 + |p|;
    assert r[..6] == pre[..6] == "lambda";
    assert r[|pre|..] == ": " + p;
    assert r[6..|pre|] == pre[6..] == ParamText(args);
    if args == "" {
      assert r[6] == ':';
    } else {
      assert r[6] == pre[6] == ' ';
    }
  }
  /** On a right-leaning chain the lambda's parameters are all the variable
      leaves of the expression, in order. */
  lemma LambdaOfRightSpine(n: Node)
    requires RightSpine(n) && Python(n).Some?
    ensures var args := Join(VarLeaves(n), ",");
      PythonFuncStr(n) == Some("lambda" + ParamText(args) + ": " + Python(n).value)
  {
    VarsOfRightSpine(n);
  }

  lemma RenderExample(inner: Node, mid: Node, n: Node)
    requires inner == ASTBinaryOp(Some(Add), ASTNumber("5"), ASTVar("z"))
    requires mid == ASTBinaryOp(Some(Add), ASTVar("y"), inner)
    requires n == ASTBinaryOp(Some(Add), ASTVar("x"), mid)
    ensures Python(n) == Some("(x+(y+(5+z)))")
  {
    assert OpText(Some(Add)) == "+";
    assert "(" + "5" + "+" + "z" + ")" == "(5+z)";
    assert Python(inner) == Some("(5+z)");
    assert "(" + "y" + "+" + "(5+z)" + ")" == "(y+(5+z))";
    assert Python(mid) == Some("(y+(5+z))");
    assert "(" + "x" + "+" + "(y+(5+z))" + ")" == "(x+(y+(5+z)))";
  }

  lemma LambdaWithParameters(n: Node, args: string, p: string)
    requires n.ASTBinaryOp? && Python(n) == Some(p) && Join(Vars(n), ",") == args && args != ""
    ensures PythonFuncStr(n) == Some("lambda " + args + ": " + p)
  {
    assert "lambda" + (" " + args) == "lambda " + args;
  }

  /** With no parameters (vars empty or only the empty name, as for every
      tree whose leaves are arguments) the lambda reads "lambda: " and the
      rendering. */
  lemma LambdaWithoutParameters(n: Node, p: string)
    requires n.ASTBinaryOp? && Python(n) == Some(p) && Join(Vars(n), ",") == ""
    ensures PythonFuncStr(n) == Some("lambda: " + p)
  {
    assert "lambda" + "" + ": " + p == "lambda: " + p;
  }

  /** A binary op over two arguments has no parameters. */
  lemma ArgsLambda(n: Node)
    requires n.ASTBinaryOp? && n.left.ASTArg? && n.right.ASTArg?
    ensures Python(n) == Some("(" + n.left.value + OpText(n.op) + n.right.value + ")")
    ensures PythonFuncStr(n) == Some("lambda: " + Python(n).value)
  {
    assert Vars(n) == [];
    LambdaWithoutParameters(n, Python(n).value);
  }

  lemma JoinExample(xs: seq<string>)
    requires xs == ["x", "y", "z"]
    ensures Join(xs, ",") == "x,y,z"
  {
    assert Join(["z"], ",") == "z";
    assert Join(["y", "z"], ",") == "y,z";
  }

}
