# LaTeX-to-AST pipeline: a Dafny model

This project models the core of a small pipeline that turns LaTeX math
source into an abstract syntax tree and then into Python lambda source. It
covers four files:

- `parse/lex.py`, the lexer. Its two-state machine (NONE / COMMAND) emits
  COMMAND, COMMAND_ARG_START and COMMAND_ARG_END tokens with index spans.
- `parse/primitives.py`, the token-scope primitives. `consume_scope` runs a
  depth counter over the tokens. `consume_while` takes the prefix that a
  predicate accepts.
- `tex_ast/ast.py`, the AST node hierarchy and its three derived views:
  - the Python source rendering;
  - the structured dict form;
  - the right-spine variable walk and the lambda source string.
- `parse/parse.py`, the recursive-descent parser. It has:
  - leaf rules for numbers, variables and arguments;
  - infix binary operations;
  - prefix commands with two brace arguments;
  - parenthesised expressions;
  - subscripts and superscripts;
  - implicit multiplication;
  - the dispatcher `parse`, which tries the rules in order and falls back
    to the next one;
  - `parse_program`.

Each file is written in the form of its source:

- `wrappers.dfy`: the `Option` type. Every Python exception on a rule's
  path becomes `None`. The callers' bare `except:` catches any exception
  alike, so the exception classes themselves do not matter.
- `lex.dfy`: the lexer. It holds:
  - the token kinds and `LexToken`;
  - one loop iteration as the function `Step` and the loop as the fold
    `Scan`;
  - the after-loop flush;
  - the imperative `Lex` method, proved equal to that specification;
  - the shape lemmas about the tokens.
- `primitives.dfy`: both primitives. Each is a specification function
  (`ScopeFrom`/`Scope`, `StopIndex`/`While`) plus an imperative method that
  keeps the source's loop, with its `continue`, `break` and early exits. The
  lemmas characterise the result through an explicit depth counter.
  `parse/parse.py:140-164` and `parse/parse.py:205-210` are copies of these
  primitives and are modelled once.
- `ast.dfy`: the node datatype, the operator tables, `Dict`, `Python`,
  `Vars` and `PythonFuncStr`, with lemmas about them.
- `parse.dfy`: the parser rules as mutually recursive functions, with
  lemmas about what they accept and build.

Where the model needs a choice:

- The parser looks up `lex.LexToken.Type.NUMBER`, `VAR`, `ARG`,
  `PAREN_LEFT` and `PAREN_RIGHT` (`parse/parse.py:38`, `:49`, `:127`,
  `:194-195`, `:225`, `:232-235`). The enum at `parse/lex.py:7-10` has no
  such members. So every one of these lookups raises AttributeError, and
  the surrounding bare `except:` turns that into a failed rule. The model
  gives these names their evident meaning instead: they are token kinds
  that the lexer never produces. On tokens of the three real kinds the
  outcome is the same either way, since no such token has one of these
  kinds. The model follows the code otherwise:
  - `Parse.ProgramIsPrefixBinaryOp` proves that the prefix binary op is
    the only rule that can succeed on lexed text;
  - `Parse.ProgramFracFails` shows that `parse_program('\frac{1}{2}')`
    fails;
  - the token kinds form one datatype that also holds the kinds the
    parser uses.
- A number keeps its literal text. `token_node` stores the text, while
  `parse_number` would convert it with `float`. So `Parse.ParseNumber`,
  and through it `LeftArg`, `RightArg` and `ParseInfix`, also accepts
  NUMBER texts that `float` rejects, such as "1.2.3".
- With the paren kinds defined, when the paren scope is no shorter than
  its input, Python's `parse_expression` calls `parse` on the same tokens. This only happens
  when the input opens with PAREN_RIGHT. The calls nest until Python's
  recursion limit.
  - The deepest `parse` then catches the RecursionError with its bare
    `except:` and falls through to its other rules on the same tokens.
  - The result is a stack of one-child expressions, as deep as the
    remaining stack allows, around whatever those rules return.
  - So the outcome depends on stack depth.
  - The model makes this call fail instead
    (`Parse.ScopeShrinksUnlessParenRight`, `Parse.ParenRightDoesNotShrink`),
    so `parse` goes on to its next rule at the top level.
- `python_func_str` adds the space before the parameters when the joined
  parameter string is non-empty, as the code does.

## Model

| member | source | states |
|---|---|---|
| `Lex.Step` | parse/lex.py:29-60 | one character never shortens or rewrites the token list; token_start stays at or before the current index; at most one token is added, counting the pending command |
| `Lex.Scan` | parse/lex.py:28-60 | after any prefix, token_start is within it (strictly inside it while in COMMAND), and there are no more tokens than characters read, counting the pending command |
| `Lex.Flush` | parse/lex.py:62-68 | the scan's tokens are kept; exactly one COMMAND holding input[token_start:] is added, and only when the scan ends in COMMAND with token_start inside the input |
| `Lex.Lexed` | parse/lex.py:23-70 | lex returns no more tokens than the input has characters |
| `Lex.Lex` | parse/lex.py:23-70 | the imperative lexer returns exactly the fold of the per-character step followed by the after-loop flush |
| `Lex.EmittedGrows` | parse/lex.py:28-60 | a token emitted while scanning a prefix keeps its shape as the scan goes on, and it starts before the current index |
| `Lex.StepBasic` | parse/lex.py:31-60 | one iteration preserves the scan invariant: COMMAND tokens span from a backslash to a delimiter with value input[start:end], brace tokens are one character wide, and in COMMAND token_start is at a backslash after every token start |
| `Lex.StepSorted` | parse/lex.py:32-60 | one iteration keeps token start indices non-decreasing |
| `Lex.StepArgStarts` | parse/lex.py:41-47 | one iteration keeps every COMMAND_ARG_START right after a COMMAND that ends where it starts |
| `Lex.ArgStartsAppend` | parse/lex.py:41-47 | appending a token keeps every COMMAND_ARG_START right after its command, when a new COMMAND_ARG_START follows a command ending where it starts |
| `Lex.ChainedAppend` | parse/lex.py:32-40 | appending a token keeps backslash-closed commands chained, when a token after one is a command with the same start |
| `Lex.StepChained` | parse/lex.py:31-38 | one iteration keeps each backslash-closed command followed by a command with the same start |
| `Lex.ScanInvariant` | parse/lex.py:28-60 | the whole scan keeps the span, value, order and chaining invariants |
| `Lex.StepInv` | parse/lex.py:29-60 | one iteration keeps the combined span, order, argument and chaining invariant |
| `Lex.LexedSpans` | parse/lex.py:23-70 | lex only produces the three lexer kinds; every token but the last has a mid-scan span, and the last has that or the flushed-command span |
| `Lex.LexedValues` | parse/lex.py:32-68 | every COMMAND value is non-empty and starts with a backslash; brace tokens carry their brace at their one-character index |
| `Lex.LexedExtendsScan` | parse/lex.py:62-68 | the flush adds at most one token, a COMMAND at token_start, and only when the scan ends in COMMAND |
| `Lex.LexedOrder` | parse/lex.py:28-68 | COMMAND_ARG_START always directly follows its command, and start indices never decrease |
| `Lex.LexedChained` | parse/lex.py:32-40 | a backslash closes a command without resetting token_start, so the next command has the same start |
| `Lex.ScanWithoutBackslash` | parse/lex.py:50-60 | without a backslash the scan stays in NONE and emits one COMMAND_ARG_END per '}' and nothing else |
| `Lex.NoBackslashOnlyBraces` | parse/lex.py:50-60 | on input without a backslash, lex is exactly the closing braces, in order |
| `Lex.ScanStaysInCommand` | parse/lex.py:31-48 | after a backslash with no later space or '{', the scanner stays in COMMAND with token_start at or before it |
| `Lex.UnterminatedCommandFlushed` | parse/lex.py:62-68 | input that ends inside a command ends with a flushed COMMAND holding input[token_start:] |
| `Lex.LexNoArgExamplePrefix` | tests/test_lex.py:3-10 | after '\sqrt 2' the scanner holds exactly the '\sqrt' command |
| `Lex.LexNoArgExample` | tests/test_lex.py:3-10 | lex('\sqrt 2\cdot 3') is exactly the '\sqrt' and '\cdot' commands with their spans |
| `Lex.LexArgExample` | tests/test_lex.py:12-19 | lex('\sqrt{2}') is command, COMMAND_ARG_START, COMMAND_ARG_END |
| `Lex.LexFracExamplePrefix` | parse/lex.py:28-48 | after '\frac{' the scanner holds the command and its COMMAND_ARG_START |
| `Lex.LexFracExample` | parse/lex.py:23-70 | lex('\frac{1}{2}') drops the digits and the second '{' |
| `Primitives.ScopeFrom` | parse/primitives.py:18-35 | from any loop position the result is bounded by the tokens left to read, and the remainder is a suffix that is shorter than the input or the last token alone |
| `Primitives.Scope` | parse/primitives.py:11-35 | empty input fails (i unbound); a result is no longer than the input with a suffix remainder, strictly shorter from two tokens on, and shorter than the input when it opens with the start kind |
| `Primitives.ConsumeScope` | parse/primitives.py:11-35 | the imperative loop computes exactly Scope |
| `Primitives.ScopeFromStep` | parse/primitives.py:18-30 | where the scope neither closes nor underflows, one iteration advances the depth counter and the collected non-start tokens |
| `Primitives.ScopeTracks` | parse/primitives.py:18-30 | up to the first close the loop's depth is the running depth and its collection is the non-start tokens seen |
| `Primitives.ScopeCloses` | parse/primitives.py:18-35 | at the first index where the depth returns to 0, the result is the non-start tokens before it and the remainder is everything after it |
| `Primitives.ScopeUnderflows` | parse/primitives.py:22-24 | an end token met at negative depth before any close fails the assertion |
| `Primitives.ScopeNeverCloses` | parse/primitives.py:18-35 | if the depth never returns to 0, the result is every non-start token and the remainder is the last token |
| `Primitives.NonStartHasNoStart` | parse/primitives.py:19-21 | the non-start tokens contain no start-kind token |
| `Primitives.ScopeFromNoStart` | parse/primitives.py:19-30 | from any loop position no start-kind token is collected |
| `Primitives.ScopeResultHasNoStart` | parse/primitives.py:19-30 | consume_scope never puts a start-kind token into its result |
| `Primitives.ScopeFromMembers` | parse/primitives.py:18-30 | from any loop position only input tokens are collected |
| `Primitives.ScopeResultMembers` | parse/primitives.py:18-30 | every result token is a token of the input |
| `Primitives.ScopeFromFlat` | parse/primitives.py:18-30 | inside an open group of plain tokens the loop collects them all and stops after the end token |
| `Primitives.ScopeOfFlatGroup` | parse/primitives.py:11-35 | a start token, plain tokens and an end token give exactly the tokens between them, with the rest as remainder |
| `Primitives.StopIndex` | parse/primitives.py:38-40 | the final index is the first failing token, or the last index when all tokens pass |
| `Primitives.While` | parse/primitives.py:37-42 | None exactly on empty input; the run and the remainder share the stop token, together rebuild the input, every run token but the last passes, and the last fails unless it ends the input |
| `Primitives.ConsumeWhile` | parse/primitives.py:37-42 | the imperative loop with break computes exactly While |
| `Ast.OpFromToken` | tex_ast/ast.py:41-51 | '+', '\cdot' and '\frac' map to ADD, MULTIPLY and DIVIDE respectively, each in both directions; POW is never produced |
| `Ast.Symbol` | tex_ast/ast.py:53-62 | each operator prints as a non-empty symbol without parentheses that is never "None" |
| `Ast.OpText` | tex_ast/ast.py:53-62 | str(type) is "None" exactly for a missing type, and never contains a parenthesis |
| `Ast.OpTextInjective` | tex_ast/ast.py:53-62 | distinct operator types, None included, print differently |
| `Ast.UnaryFromToken` | tex_ast/ast.py:148-156 | '\sqrt' maps to SQRT and '-' to NEGATIVE, in both directions |
| `Ast.Dict` | tex_ast/ast.py:12-164 | the dict view raises exactly when a unary command or None is reached through binary-op children; every dict is an object, the argument's is the empty default, and every other one starts with its class name under "type" |
| `Ast.DictExact` | tex_ast/ast.py:68-132 | numbers, variables, and binary ops over them, always have a dict view and a Python rendering |
| `Ast.DictInjective` | tex_ast/ast.py:68-132 | on such trees the dict view loses nothing: equal dicts mean equal trees |
| `Ast.DictForgets` | tex_ast/ast.py:12-27 | an expression's dict has no children, and every argument has the empty dict |
| `Ast.DictOfProduct` | tex_ast/ast.py:68-75 | a product of two numbers serializes to the nested wire object |
| `Ast.Python` | tex_ast/ast.py:7-169 | the rendering raises exactly when an empty expression, a unary command or None is on its path; a binary op or expression renders inside one outer pair of parentheses |
| `Ast.PythonParenthesised` | tex_ast/ast.py:29-83 | when the copied texts (numbers, names, argument values) contain no parenthesis, the rendering has exactly one '(' and one ')' per binary op and per expression on its path |
| `Ast.Vars` | tex_ast/ast.py:93-104 | every name vars returns is a variable leaf of the tree, and a variable left child comes first |
| `Ast.VarsAreLeaves` | tex_ast/ast.py:93-104 | vars keeps a subsequence of the variable leaves, in order |
| `Ast.VarsBound` | tex_ast/ast.py:93-104 | vars has at most as many names as there are variable leaves |
| `Ast.VarsOfRightSpine` | tex_ast/ast.py:93-104 | on a right-leaning chain vars is exactly the variable leaves |
| `Ast.VarsExamples` | tex_ast/ast.py:93-104 | a right chain collects x, y, z; a left binary op contributes nothing; duplicates are kept |
| `Ast.Join` | tex_ast/ast.py:88 | the join starts with the first item, and with a non-empty separator it is empty only for no items or the one empty item |
| `Ast.JoinExample` | tex_ast/ast.py:88 | ','.join(['x', 'y', 'z']) is 'x,y,z' |
| `Ast.PythonFuncStr` | tex_ast/ast.py:85-91 | defined exactly when the rendering is; the text is 'lambda', then exactly a space and the joined vars (nothing when that string is empty), then ': ' and the rendering; ':' follows 'lambda' directly exactly when vars is empty or only the empty name |
| `Ast.LambdaOfRightSpine` | tex_ast/ast.py:85-91 | on a right-leaning chain the lambda's parameters are all its variable leaves, joined with ',' |
| `Ast.RenderExample` | tex_ast/ast.py:81-83 | x + (y + (5 + z)) renders as '(x+(y+(5+z)))' |
| `Ast.LambdaWithParameters` | tex_ast/ast.py:85-91 | with a non-empty parameter string the lambda reads 'lambda ' + parameters + ': ' + rendering |
| `Ast.LambdaWithoutParameters` | tex_ast/ast.py:85-91 | with an empty parameter string the lambda reads 'lambda: ' + rendering |
| `Ast.ArgsLambda` | tex_ast/ast.py:85-91 | a binary op over two arguments renders as '(' + left + operator + right + ')' and its lambda is 'lambda: ' + that rendering |
| `Parse.MinTokens` | parse/parse.py:9-19 | the guard fails below the minimum and otherwise behaves exactly as the undecorated rule |
| `Parse.ParseNumber` | parse/parse.py:34-43 | succeeds iff the list is non-empty and starts with NUMBER; the node carries the first token's text and the remainder drops it |
| `Parse.ParseVariable` | parse/parse.py:45-54 | succeeds iff the list is non-empty and starts with VAR; the node carries the first token's name and the remainder drops it |
| `Parse.TokenNode` | parse/parse.py:230-237 | a NUMBER token becomes ASTNumber of its text and a VAR token ASTVar of its name; every other token becomes None |
| `Parse.LeftArg` | parse/parse.py:56-62 | succeeds iff the first token is NUMBER or VAR, and the result is that leaf |
| `Parse.RightArg` | parse/parse.py:64-75 | succeeds iff the first token is NUMBER or VAR; a successful infix parse of the same tokens is the result, otherwise the first token's leaf |
| `Parse.ParseInfix` | parse/parse.py:77-100 | succeeds iff there are three tokens, operands at 0 and 2 and a known operator at 1; the remainder is always tokens[3:], the operator is from_token of tokens[1], the left child is the first leaf, and the tree is a right-leaning chain |
| `Parse.InfixStep` | parse/parse.py:64-100 | the right child is the infix parse of tokens[2:] when there is one, else the leaf of tokens[2], and the chain length grows by one |
| `Parse.InfixChain` | parse/parse.py:64-100 | a successful infix parse folds the whole operand-operator chain that opens the input: with m operators its spine leaves are the leaves of tokens 0, 2, ..., 2m and its operators from_token of tokens 1, 3, ..., 2m-1 |
| `Parse.InfixLambda` | parse/parse.py:77-100 | on an infix result vars is every variable leaf, the tree renders, and the lambda takes all those variables |
| `Parse.InfixChainExample` | parse/parse.py:64-100 | x + y + 5 + z folds to x + (y + (5 + z)), and the remainder is everything after the first three tokens |
| `Parse.InfixOfThree` | parse/parse.py:64-100 | a + b alone is one ADD node over the two leaves, both as a whole parse and as a right argument |
| `Parse.VarSubscriptBody` | parse/parse.py:103-112 | the undecorated body fails exactly below five tokens; the name starts with the first token's text and five tokens are consumed |
| `Parse.ParseVarSubscript` | parse/parse.py:102-112 | succeeds iff there are five tokens; the name is tokens[0] + tokens[3] and the remainder is tokens[5:], with no kind checks |
| `Parse.SubscriptExample` | parse/parse.py:102-112 | x_{1} gives the variable 'x1' |
| `Parse.ArgBody` | parse/parse.py:115-119 | the undecorated body fails exactly on the empty list, gives an argument and consumes one token |
| `Parse.ParseArg` | parse/parse.py:114-119 | succeeds iff there is a token; the argument is its text, whatever its kind |
| `Parse.GuardsRedundant` | parse/parse.py:102-119 | the min_tokens guards of parse_var_subscript and parse_arg change nothing: the bodies already fail on exactly those inputs |
| `Parse.VarSuperscriptBody` | parse/parse.py:122-137 | the undecorated body needs only four tokens with VAR first and ARG fourth; it yields a POW node and leaves tokens[5:] |
| `Parse.ParseVarSuperscript` | parse/parse.py:121-137 | succeeds iff there are five tokens with VAR first and ARG fourth; yields POW(var, arg) with remainder tokens[5:] |
| `Parse.SuperscriptGuardMatters` | parse/parse.py:121-137 | four tokens satisfy the undecorated body but not the five-token guard |
| `Parse.ParseBinaryOp` | parse/parse.py:166-188 | succeeds iff both brace scopes (after the command, then on the first one's remainder) succeed and are non-empty; the node is from_token of the command (possibly None) over ASTArg of each scope's first token, the remainder is the second scope's remainder, a proper suffix |
| `Parse.BinaryOpOfFlatGroups` | parse/parse.py:166-188 | \cmd{A...}{B...} with plain groups gives the command's operator over A and B, and leaves what follows |
| `Parse.FracTokensExample` | parse/parse.py:166-188 | on \frac{1}{2} tokens with arguments, the first scope holds one token and leaves three, and the parse is 1 / 2 |
| `Parse.BinaryOpEmptyArgument` | parse/parse.py:179-180 | an empty first brace group fails the rule |
| `Parse.ParseExpression` | parse/parse.py:190-203 | succeeds iff there are two tokens, the paren scope succeeds and is shorter than the input, and parse of the scope succeeds; the node is an expression whose one child is that parse's node, and the remainder is the scope's remainder, a proper suffix |
| `Parse.Parse` | parse/parse.py:285-306 | expression, then prefix binary op, then infix: the first rule that succeeds gives the result, and it fails exactly when all three fail; on success the remainder is a proper suffix |
| `Parse.ScopeShrinksUnlessParenRight` | parse/parse.py:190-198 | the paren scope is shorter than the input unless the input opens with PAREN_RIGHT |
| `Parse.ParenRightScope` | parse/parse.py:190-198 | a leading PAREN_RIGHT with no other paren makes the scope capture every token, so the recursion would not shrink |
| `Parse.ParenRightDoesNotShrink` | parse/parse.py:190-203 | on that input the model's parse_expression fails; with the paren kinds defined, Python instead nests one-child expressions up to the recursion limit, so its result depends on stack depth |
| `Parse.ExpressionOfFlatGroup` | parse/parse.py:190-203 | ( plain tokens ) parses its inside and wraps it, leaving what follows the closing paren |
| `Parse.NestedParenScope` | parse/primitives.py:18-35 | on ( ( a + b ) ) the paren scope drops the inner '(' but keeps the inner ')' |
| `Parse.InnerParse` | parse/parse.py:285-306 | a + b ) falls through expression and prefix binary op and parses as infix a + b, leaving the ')' |
| `Parse.NestedParenExample` | parse/parse.py:190-203 | ( ( a + b ) ) parses to an expression around a + b with nothing left over |
| `Parse.ParseShort` | parse/parse.py:285-306 | fewer than two tokens never parse |
| `Parse.ParsedRenders` | parse/parse.py:285-306 | everything parse returns has a Python rendering and a dict view |
| `Parse.IsImplicit` | parse/parse.py:222-225 | a token belongs to an implicit product exactly when token_node turns it into a leaf |
| `Parse.BuildTreeRec` | parse/parse.py:253-269 | from two tokens on, a MULTIPLY node over the first token's leaf; one token is its leaf; the tree is fully describable by dict exactly when every token is NUMBER or VAR |
| `Parse.BuildTree` | parse/parse.py:241-251 | fails exactly on runs shorter than two, otherwise a MULTIPLY node over the first token's leaf |
| `Parse.BuildTreeRecLeaves` | parse/parse.py:253-269 | the chain has one leaf per token in order, joined only by MULTIPLY, right-leaning |
| `Parse.BuildTreeRecRenders` | parse/parse.py:253-269 | the chain renders (Python and dict) exactly when its last token is NUMBER or VAR |
| `Parse.ParseImplicitMultiplication` | parse/parse.py:212-279 | a result needs two tokens, is a MULTIPLY node over the first token's leaf, and leaves fewer tokens than it was given |
| `Parse.ImplicitSucceeds` | parse/parse.py:212-279 | succeeds iff there are two tokens and the first is NUMBER or VAR |
| `Parse.ImplicitTree` | parse/parse.py:241-272 | the tree is a right-leaning MULTIPLY chain with one leaf per run token, in order |
| `Parse.ImplicitRemainder` | parse/primitives.py:37-42 | the remainder is a proper suffix of the input that starts with the run's last token |
| `Parse.ImplicitRenders` | parse/parse.py:212-279 | the tree renders (Python and dict) exactly when every input token is NUMBER or VAR |
| `Parse.ImplicitShape` | parse/parse.py:212-279 | a right-leaning MULTIPLY chain over the run's leaves, a remainder that shares the run's last token, and a rendering exactly when every token is NUMBER or VAR |
| `Parse.ImplicitExample` | parse/parse.py:212-216 | 2xt folds to 2 * (x * t) with the last token as remainder |
| `Parse.ParseProgram` | parse/parse.py:308-310 | a parsed program is always a binary op over two arguments |
| `Parse.ProgramIsPrefixBinaryOp` | parse/parse.py:308-310 | on lexed text parse is the prefix binary op rule |
| `Parse.ProgramShape` | parse/parse.py:308-310 | a parsed program is a binary op whose type comes from the first token, with two argument children, each '}' or a backslash command |
| `Parse.ProgramLambda` | tex_ast/ast.py:85-91 | a parse_program result renders as '(' + left + operator + right + ')' and its lambda has no parameters: 'lambda: ' + that rendering |
| `Parse.LexedFracTokensFail` | parse/parse.py:166-188 | on the lexed tokens of \frac{1}{2} the first brace scope is empty and the rule fails |
| `Parse.ProgramFracFails` | parse/parse.py:308-310 | parse_program('\frac{1}{2}') fails because the first brace scope is empty |

## Left out

- Float handling. `float(tokens[0].value)` in parse_number and the float
  formatting of `str(self.number)` (so '5' would print as '5.0') are not
  modelled. A number keeps its literal text.
- Parse.ParseNumber: does not fail on NUMBER texts such as "1.2.3", on
  which `float` raises ValueError (`parse/parse.py:40`), because float
  parsing is not modelled. The same holds for LeftArg, RightArg and
  ParseInfix, which use it.
- Python's recursion limit, in every rule. The model's recursion always
  runs to the end. In Python, a RecursionError at any depth is caught by
  the nearest bare `except:`; that rule then fails and the caller falls
  back to its next choice.
  - For the non-shrinking paren scope, the model fails the call. Python
    instead nests one-child expressions up to the limit, around the
    result of the next rule.
  - For infix chains (`parse/parse.py:64-68`), a RecursionError deep
    inside a right argument makes Python fall back to a single leaf
    there. The model builds the whole chain, however long.
- The `children` field on nodes other than ASTExpression. No code outside
  ASTExpression reads it, and it is always empty there.
- The in-place field updates of build_tree and build_tree_rec. The model
  builds the same tree as a value. The intermediate node with None
  children cannot be observed.
- `python_func`, which runs `eval` on the lambda string. Only the string
  is modelled.
- The debug `print` calls in parse_implicit_multiplication.
- `tex_python/main.py` (command line, stdin, `json.dumps`) and
  `tex_ast/serialization.py` (JSON encoder hooks) are not part of this
  model. The dict shape itself is modelled.
- Stubs:
  - `parse_unary_op`, which has an empty body;
  - `ASTParen`, which has no members;
  - the dict and python views of ASTUnaryCommand, which raise and are
    modelled as failure.
- The tests that expect NUMBER or VAR tokens from the lexer
  (`tests/test_lex.py:21-29`, `tests/test_parse.py:4-17`). The lexer as
  written emits no such tokens, so these are not encoded as lemmas about
  lex. The parse rules they
  exercise are specified token by token instead.
- The SUBSCRIPT token that the comment at `parse/parse.py:104` names. The
  lexer defines no such kind, and parse_var_subscript checks no token
  kinds, so the model does not need it.
