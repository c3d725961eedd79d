/** The token-scope primitives of parse/primitives.py (copied verbatim into
    parse/parse.py): consume_scope runs a depth counter over a token list,
    consume_while takes a predicate-driven prefix. Both fail on an empty
    list, where Python's loop variable `i` is never bound. */
module Primitives {
  import opened Wrappers
  import opened Lex

  /** ScopeResult: the tokens taken and the tokens left over. */
  datatype ScopeResult = ScopeResult(result: seq<LexToken>, remainder: seq<LexToken>)

  /** rest is a suffix of ts. */
  predicate IsSuffix(rest: seq<LexToken>, ts: seq<LexToken>)
  {
    |rest| <= |ts| && rest == ts[|ts| - |rest|..]
  }

  // ---------------------------------------------------------------------
  // consume_scope

  /** The loop of consume_scope from index j on, with the depth counter at
      `depth` and the tokens collected so far in acc. */
  function ScopeFrom(ts: seq<LexToken>, startKind: TokenKind, endKind: TokenKind,
                     j: nat, depth: int, acc: seq<LexToken>): (r: Option<ScopeResult>)
    requires 0 < |ts| && j <= |ts|
    ensures r.Some? ==> |r.value.result| <= |acc| + |ts| - j
    ensures r.Some? ==> IsSuffix(r.value.remainder, ts)
    ensures r.Some? ==> |r.value.remainder| < |ts| || |r.value.remainder| == 1
    decreases |ts| - j
  {
    if j == |ts| then
      // no break: `i` keeps the last index, so the remainder is the last token
      Some(ScopeResult(acc, ts[|ts| - 1..]))
    else if ts[j].kind == startKind then
      ScopeFrom(ts, startKind, endKind, j + 1, depth + 1, acc)
    else if ts[j].kind == endKind && depth < 0 then
      // `assert scope >= 0` fails
      None
    else
      var d := if ts[j].kind == endKind then depth - 1 else depth;
      if d == 0 then Some(ScopeResult(acc, ts[j + 1..]))
      else ScopeFrom(ts, startKind, endKind, j + 1, d, acc + [ts[j]])
  }

  /** consume_scope(ts, start, end). When it succeeds the remainder is a
      suffix of ts, strictly shorter once ts has two tokens; the result is
      no longer than ts, and strictly shorter when ts opens with a
      start-kind token. */
  function Scope(ts: seq<LexToken>, startKind: TokenKind, endKind: TokenKind): (r: Option<ScopeResult>)
    ensures |ts| == 0 ==> r.None?
    ensures r.Some? ==> |r.value.result| <= |ts| && IsSuffix(r.value.remainder, ts)
    ensures r.Some? && |ts| >= 2 ==> |r.value.remainder| < |ts|
    ensures r.Some? && ts[0].kind == startKind ==> |r.value.result| < |ts|
  {
    if |ts| == 0 then None
    else ScopeFrom(ts, startKind, endKind, 0, 0, [])
  }

  method ConsumeScope(tokens: seq<LexToken>, startKind: TokenKind, endKind: TokenKind)
    returns (r: Option<ScopeResult>)
    ensures r == Scope(tokens, startKind, endKind)
  {
    if |tokens| == 0 {
      return None;
    }
    var scoped: seq<LexToken> := [];
    var depth := 0;
    var i := 0;
    while i < |tokens|
      invariant 0 <= i <= |tokens|
      invariant ScopeFrom(tokens, startKind, endKind, i, depth, scoped) == Scope(tokens, startKind, endKind)
    {
      var token := tokens[i];
      if token.kind == startKind {
        assert ScopeFrom(tokens, startKind, endKind, i, depth, scoped)
            == ScopeFrom(tokens, startKind, endKind, i + 1, depth + 1, scoped);
        depth := depth + 1;
        i := i + 1;
        continue;
      } else if token.kind == endKind {
        if depth < 0 {
          return None;
        }
        depth := depth - 1;
      }
      if depth == 0 {
        return Some(ScopeResult(scoped, tokens[i + 1..]));
      }
      assert ScopeFrom(tokens, startKind, endKind, i, if token.kind == endKind then depth + 1 else depth, scoped)
          == ScopeFrom(tokens, startKind, endKind, i + 1, depth, scoped + [token]);
      scoped := scoped + [token];
      i := i + 1;
    }
    return Some(ScopeResult(scoped, tokens[|tokens| - 1..]));
  }

  /** The depth counter after the first n tokens. */
  function Depth(ts: seq<LexToken>, startKind: TokenKind, endKind: TokenKind, n: nat): int
    requires n <= |ts|
  {
    if n == 0 then 0
    else Depth(ts, startKind, endKind, n - 1)
         + (if ts[n - 1].kind == startKind then 1 else if ts[n - 1].kind == endKind then -1 else 0)
  }

  /** The tokens of ts that are not of the start kind, in order. */
  function NonStart(ts: seq<LexToken>, startKind: TokenKind): seq<LexToken>
  {
    if ts == [] then []
    else NonStart(ts[..|ts| - 1], startKind)
         + (if Last(ts).kind != startKind then [Last(ts)] else [])
  }

  /** The scope closes at k: a token that is not of the start kind after
      which the depth is back to 0. */
  predicate ClosesAt(ts: seq<LexToken>, startKind: TokenKind, endKind: TokenKind, k: nat)
    requires k < |ts|
  {
    ts[k].kind != startKind && Depth(ts, startKind, endKind, k + 1) == 0
  }

  /** An end-kind token met while the depth is already negative. */
  predicate UnderflowsAt(ts: seq<LexToken>, startKind: TokenKind, endKind: TokenKind, k: nat)
    requires k < |ts|
  {
    ts[k].kind != startKind && ts[k].kind == endKind && Depth(ts, startKind, endKind, k) < 0
  }

  lemma ScopeFromStep(ts: seq<LexToken>, startKind: TokenKind, endKind: TokenKind, j: nat)
    requires j < |ts|
    requires !ClosesAt(ts, startKind, endKind, j) && !UnderflowsAt(ts, startKind, endKind, j)
    ensures ScopeFrom(ts, startKind, endKind, j, Depth(ts, startKind, endKind, j), NonStart(ts[..j], startKind))
         == ScopeFrom(ts, startKind, endKind, j + 1, Depth(ts, startKind, endKind, j + 1), NonStart(ts[..j + 1], startKind))
  {
    var pre := ts[..j + 1];
    assert pre != [] && pre[..|pre| - 1] == ts[..j] && Last(pre) == ts[j];
    var d, acc := Depth(ts, startKind, endKind, j), NonStart(ts[..j], startKind);
    if ts[j].kind == startKind {
      assert NonStart(pre, startKind) == acc;
      assert Depth(ts, startKind, endKind, j + 1) == d + 1;
    } else {
      assert NonStart(pre, startKind) == acc + [ts[j]];
      var d' := if ts[j].kind == endKind then d - 1 else d;
      assert Depth(ts, startKind, endKind, j + 1) == d' != 0;
      assert !(ts[j].kind == endKind && d < 0);
    }
  }

  /** Up to a point with no closing and no underflow before it, the loop's
      depth counter is Depth and its collected tokens are the non-start
      tokens seen so far. */
  lemma {:induction false} ScopeTracks(ts: seq<LexToken>, startKind: TokenKind, endKind: TokenKind, j: nat)
    requires 0 < |ts| && j <= |ts|
    requires forall k :: 0 <= k < j ==> !ClosesAt(ts, startKind, endKind, k) && !UnderflowsAt(ts, startKind, endKind, k)
    ensures Scope(ts, startKind, endKind)
         == ScopeFrom(ts, startKind, endKind, j, Depth(ts, startKind, endKind, j), NonStart(ts[..j], startKind))
  {
    if j > 0 {
      ScopeTracks(ts, startKind, endKind, j - 1);
      ScopeFromStep(ts, startKind, endKind, j - 1);
    }
  }

  /** If the scope first closes at k, with no underflow before, then the
      remainder is ts[k+1..] and the result is exactly the tokens of ts[..k]
      that are not of the start kind, in order. */
  lemma ScopeCloses(ts: seq<LexToken>, startKind: TokenKind, endKind: TokenKind, k: nat)
    requires k < |ts| && ClosesAt(ts, startKind, endKind, k)
    requires forall j :: 0 <= j < k ==> !ClosesAt(ts, startKind, endKind, j) && !UnderflowsAt(ts, startKind, endKind, j)
    ensures Scope(ts, startKind, endKind) == Some(ScopeResult(NonStart(ts[..k], startKind), ts[k + 1..]))
  {
    ScopeTracks(ts, startKind, endKind, k);
  }

  /** An end-kind token met at negative depth, before any closing, makes
      consume_scope fail. */
  lemma ScopeUnderflows(ts: seq<LexToken>, startKind: TokenKind, endKind: TokenKind, k: nat)
    requires k < |ts| && UnderflowsAt(ts, startKind, endKind, k)
    requires forall j :: 0 <= j < k ==> !ClosesAt(ts, startKind, endKind, j) && !UnderflowsAt(ts, startKind, endKind, j)
    ensures Scope(ts, startKind, endKind).None?
  {
    ScopeTracks(ts, startKind, endKind, k);
  }

  /** If the depth never returns to 0 and never underflows, the result is
      every non-start token and the remainder is just the last token. */
  lemma ScopeNeverCloses(ts: seq<LexToken>, startKind: TokenKind, endKind: TokenKind)
    requires 0 < |ts|
    requires forall j :: 0 <= j < |ts| ==> !ClosesAt(ts, startKind, endKind, j) && !UnderflowsAt(ts, startKind, endKind, j)
    ensures Scope(ts, startKind, endKind) == Some(ScopeResult(NonStart(ts, startKind), [Last(ts)]))
  {
    ScopeTracks(ts, startKind, endKind, |ts|);
    assert ts[..|ts|] == ts;
    assert ts[|ts| - 1..] == [Last(ts)];
  }

  lemma {:induction false} NonStartHasNoStart(ts: seq<LexToken>, startKind: TokenKind)
    ensures forall t <- NonStart(ts, startKind) :: t.kind != startKind
  {
    if ts != [] {
      NonStartHasNoStart(ts[..|ts| - 1], startKind);
    }
  }

  lemma {:induction false} ScopeFromNoStart(ts: seq<LexToken>, startKind: TokenKind, endKind: TokenKind,
                                            j: nat, depth: int, acc: seq<LexToken>)
    requires 0 < |ts| && j <= |ts|
    requires forall t <- acc :: t.kind != startKind
    ensures var r := ScopeFrom(ts, startKind, endKind, j, depth, acc);
      r.Some? ==> forall t <- r.value.result :: t.kind != startKind
    decreases |ts| - j
  {
    if j < |ts| {
      if ts[j].kind == startKind {
        ScopeFromNoStart(ts, startKind, endKind, j + 1, depth + 1, acc);
      } else if !(ts[j].kind == endKind && depth < 0) {
        var d := if ts[j].kind == endKind then depth - 1 else depth;
        if d != 0 {
          ScopeFromNoStart(ts, startKind, endKind, j + 1, d, acc + [ts[j]]);
        }
      }
    }
  }

  lemma {:induction false} ScopeFromMembers(ts: seq<LexToken>, startKind: TokenKind, endKind: TokenKind,
                                            j: nat, depth: int, acc: seq<LexToken>)
    requires 0 < |ts| && j <= |ts|
    requires forall t <- acc :: t in ts
    ensures var r := ScopeFrom(ts, startKind, endKind, j, depth, acc);
      r.Some? ==> forall t <- r.value.result :: t in ts
    decreases |ts| - j
  {
    if j < |ts| {
      if ts[j].kind == startKind {
        ScopeFromMembers(ts, startKind, endKind, j + 1, depth + 1, acc);
      } else if !(ts[j].kind == endKind && depth < 0) {
        var d := if ts[j].kind == endKind then depth - 1 else depth;
        if d != 0 {
          ScopeFromMembers(ts, startKind, endKind, j + 1, d, acc + [ts[j]]);
        }
      }
    }
  }

  /** consume_scope only collects tokens of its input. */
  lemma ScopeResultMembers(ts: seq<LexToken>, startKind: TokenKind, endKind: TokenKind)
    ensures var r := Scope(ts, startKind, endKind);
      r.Some? ==> forall t <- r.value.result :: t in ts
  {
    if |ts| > 0 {
      ScopeFromMembers(ts, startKind, endKind, 0, 0, []);
    }
  }

  /** consume_scope never puts a start-kind token into its result. */
  lemma ScopeResultHasNoStart(ts: seq<LexToken>, startKind: TokenKind, endKind: TokenKind)
    ensures var r := Scope(ts, startKind, endKind);
      r.Some? ==> forall t <- r.value.result :: t.kind != startKind
  {
    if |ts| > 0 {
      ScopeFromNoStart(ts, startKind, endKind, 0, 0, []);
    }
  }

  lemma {:induction false} ScopeFromFlat(ts: seq<LexToken>, startKind: TokenKind, endKind: TokenKind,
                                         inner: seq<LexToken>, rest: seq<LexToken>, j: nat)
    requires |ts| == |inner| + 2 + |rest| && 1 <= j <= |inner| + 1
    requires ts[0].kind == startKind && ts[|inner| + 1].kind == endKind && startKind != endKind
    requires ts[1..|inner| + 1] == inner && ts[|inner| + 2..] == rest
    requires forall t <- inner :: t.kind != startKind && t.kind != endKind
    ensures ScopeFrom(ts, startKind, endKind, j, 1, inner[..j - 1]) == Some(ScopeResult(inner, rest))
    decreases |inner| + 1 - j
  {
    if j <= |inner| {
      assert ts[j] == inner[j - 1];
      assert inner[..j - 1] + [ts[j]] == inner[..j];
      ScopeFromFlat(ts, startKind, endKind, inner, rest, j + 1);
    } else {
      assert inner[..j - 1] == inner;
    }
  }

  /** A start token, tokens of neither kind, an end token: consume_scope
      returns exactly the tokens in between and everything after. */
  lemma ScopeOfFlatGroup(open: LexToken, inner: seq<LexToken>, close: LexToken, rest: seq<LexToken>,
                         startKind: TokenKind, endKind: TokenKind)
    requires open.kind == startKind && close.kind == endKind && startKind != endKind
    requires forall t <- inner :: t.kind != startKind && t.kind != endKind
    ensures Scope([open] + inner + [close] + rest, startKind, endKind) == Some(ScopeResult(inner, rest))
  {
    var ts := [open] + inner + [close] + rest;
    assert ts[1..|inner| + 1] == inner && ts[|inner| + 2..] == rest;
    ScopeFromFlat(ts, startKind, endKind, inner, rest, 1);
  }

  // ---------------------------------------------------------------------
  // consume_while

  /** The loop's final `i`: the first index from j on whose token fails
      pred, or the last index when every token passes. */
  function StopIndex(ts: seq<LexToken>, pred: LexToken -> bool, j: nat): (i: nat)
    requires j < |ts|
    ensures j <= i < |ts|
    ensures forall k :: j <= k < i ==> pred(ts[k])
    ensures !pred(ts[i]) || i == |ts| - 1
    decreases |ts| - j
  {
    if !pred(ts[j]) || j == |ts| - 1 then j else StopIndex(ts, pred, j + 1)
  }

  /** consume_while(ts, pred): the run tokens[:i+1] and the remainder
      tokens[i:], which share the token at i. */
  function While(ts: seq<LexToken>, pred: LexToken -> bool): (r: Option<ScopeResult>)
    ensures r.None? <==> |ts| == 0
    ensures r.Some? ==>
      var run, rest := r.value.result, r.value.remainder;
      && |run| + |rest| == |ts| + 1
      && 0 < |run| && 0 < |rest|
      && Last(run) == rest[0]
      && run + rest[1..] == ts
      && (forall k :: 0 <= k < |run| - 1 ==> pred(run[k]))
      && (!pred(Last(run)) || |rest| == 1)
  {
    if |ts| == 0 then None
    else
      var i := StopIndex(ts, pred, 0);
      assert ts[..i + 1] + ts[i..][1..] == ts;
      Some(ScopeResult(ts[..i + 1], ts[i..]))
  }

  method ConsumeWhile(tokens: seq<LexToken>, pred: LexToken -> bool) returns (r: Option<ScopeResult>)
    ensures r == While(tokens, pred)
  {
    if |tokens| == 0 {
      return None;
    }
    var i := 0;
    for j := 0 to |tokens|
      invariant j == 0 ==> i == 0
      invariant 0 < j ==> i == j - 1
      invariant forall k :: 0 <= k < j ==> pred(tokens[k])
    {
      i := j;
      if !pred(tokens[j]) {
        break;
      }
    }
    return Some(ScopeResult(tokens[..i + 1], tokens[i..]));
  }
}
