/**
 * `parse_grid_indices`: a query is split on `:` into tokens; each token
 * picks the first operator of a fixed table whose delimiter occurs in it,
 * parses every delimiter-separated part as a tuple coordinate, and applies
 * the operator to the first two. The indices of all tokens are concatenated
 * in order.
 */
module Query {
  import opened Outcomes
  import opened Arith
  import opened Text
  import opened Coords
  import opened Selection

  datatype Operator = ReverseBox | Box | Linear | ReverseLinear

  /** The operator table, in the order it is declared and scanned. */
  const Operations: seq<(string, Operator)> :=
    [("%", ReverseBox), ("#", Box), ("->", Linear), ("<-", ReverseLinear)]

  /** An operator applied to two endpoints. */
  function Apply(op: Operator, start: Pos, end: Pos, numCols: int): Result<seq<int>> {
    match op
    case ReverseBox => ReverseBoxSelection(start, end, numCols)
    case Box => BoxSelection(start, end, numCols)
    case Linear => Success(LinearSelection(start, end, numCols))
    case ReverseLinear => Success(ReverseLinearSelection(start, end, numCols))
  }

  /** The first table entry at or after `from` whose delimiter occurs in the token. */
  function FirstOperationFrom(token: string, from: nat): (r: Option<nat>)
    requires from <= |Operations|
    ensures r.Some? ==> from <= r.value < |Operations| && Contains(token, Operations[r.value].0)
    ensures r.Some? ==> forall j :: from <= j < r.value ==> !Contains(token, Operations[j].0)
    ensures r.None? ==> forall j :: from <= j < |Operations| ==> !Contains(token, Operations[j].0)
    decreases |Operations| - from
  {
    if from == |Operations| then None
    else if Contains(token, Operations[from].0) then Some(from)
    else FirstOperationFrom(token, from + 1)
  }

  /** The operator a token uses: the earliest table entry whose delimiter it contains. */
  function FirstOperation(token: string): Option<nat> {
    FirstOperationFrom(token, 0)
  }

  /**
   * Every part parsed as a tuple coordinate, left to right; the first part
   * that fails decides the error.
   */
  function ParseCoords(parts: seq<string>, numCols: int): (r: Result<seq<Pos>>)
    ensures r.Success? ==> |r.value| == |parts|
    ensures r.Success? ==>
      forall k :: 0 <= k < |parts| ==> ParseCoord(parts[k], numCols, true) == Success(Tuple(r.value[k]))
    decreases |parts|
  {
    if parts == [] then Success([])
    else
      var c :- ParseCoord(parts[0], numCols, true);
      var rest :- ParseCoords(parts[1..], numCols);
      assert forall k :: 1 <= k < |parts| ==> parts[k] == parts[1..][k - 1];
      Success([c.pos] + rest)
  }

  /** A failure of ParseCoords is the failure of its first unparsable part. */
  lemma {:induction false} ParseCoordsFailure(parts: seq<string>, numCols: int)
    requires ParseCoords(parts, numCols).Failure?
    ensures exists k :: 0 <= k < |parts| &&
                ParseCoord(parts[k], numCols, true) == Failure(ParseCoords(parts, numCols).error) &&
                forall j :: 0 <= j < k ==> ParseCoord(parts[j], numCols, true).Success?
    decreases |parts|
  {
    var e := ParseCoords(parts, numCols).error;
    if ParseCoord(parts[0], numCols, true).Failure? {
      assert ParseCoord(parts[0], numCols, true) == Failure(e);
    } else {
      ParseCoordsFailure(parts[1..], numCols);
      var k :| 0 <= k < |parts[1..]| && ParseCoord(parts[1..][k], numCols, true) == Failure(e) &&
        forall j :: 0 <= j < k ==> ParseCoord(parts[1..][j], numCols, true).Success?;
      forall j | 0 <= j < k + 1
        ensures ParseCoord(parts[j], numCols, true).Success?
      {
        if j > 0 {
          assert parts[j] == parts[1..][j - 1];
        }
      }
      assert ParseCoord(parts[k + 1], numCols, true) == Failure(e);
    }
  }

  /** What one token contributes: nothing when it has no delimiter. */
  function TokenIndices(token: string, numCols: int): (r: Result<seq<int>>)
    ensures FirstOperation(token).None? ==> r == Success([])
  {
    match FirstOperation(token)
    case None => Success([])
    case Some(k) =>
      var (delim, op) := Operations[k];
      var parts := Split(token, delim);
      var coords :- ParseCoords(parts, numCols);
      Apply(op, coords[0], coords[1], numCols)
  }

  /** Two results in sequence: the first failure, or the concatenation. */
  function Chain(a: Result<seq<int>>, b: Result<seq<int>>): Result<seq<int>> {
    match a
    case Failure(e) => Failure(e)
    case Success(x) =>
      match b
      case Failure(e) => Failure(e)
      case Success(y) => Success(x + y)
  }

  /** The tokens' contributions concatenated in order; the first failing token decides the error. */
  function TokensIndices(tokens: seq<string>, numCols: int): Result<seq<int>>
    decreases |tokens|
  {
    if tokens == [] then Success([])
    else Chain(TokensIndices(tokens[..|tokens| - 1], numCols), TokenIndices(tokens[|tokens| - 1], numCols))
  }

  /** Results in sequence, chained from the left: the first failure, or all values concatenated. */
  function ChainAll(rs: seq<Result<seq<int>>>): Result<seq<int>>
    decreases |rs|
  {
    if rs == [] then Success([]) else Chain(ChainAll(rs[..|rs| - 1]), rs[|rs| - 1])
  }

  /** A chain succeeds exactly when every result does; otherwise it carries the first failure. */
  lemma {:induction false} ChainAllOutcome(rs: seq<Result<seq<int>>>)
    ensures ChainAll(rs).Success? <==> forall k :: 0 <= k < |rs| ==> rs[k].Success?
    ensures ChainAll(rs).Failure? ==>
      exists k :: 0 <= k < |rs| && rs[k] == Failure(ChainAll(rs).error) &&
        forall j :: 0 <= j < k ==> rs[j].Success?
    decreases |rs|
  {
    if rs != [] {
      var init := rs[..|rs| - 1];
      ChainAllOutcome(init);
      if ChainAll(init).Failure? {
        var k :| 0 <= k < |init| && init[k] == Failure(ChainAll(init).error) &&
          forall j :: 0 <= j < k ==> init[j].Success?;
        assert rs[k] == init[k];
      } else {
        assert forall k :: 0 <= k < |init| ==> rs[k] == init[k];
      }
    }
  }

  /** Each token's own result, in order. */
  function TokenResults(tokens: seq<string>, numCols: int): (rs: seq<Result<seq<int>>>)
    ensures |rs| == |tokens| && forall k :: 0 <= k < |tokens| ==> rs[k] == TokenIndices(tokens[k], numCols)
  {
    seq(|tokens|, k requires 0 <= k < |tokens| => TokenIndices(tokens[k], numCols))
  }

  /** Evaluating a run of tokens chains the tokens' own results. */
  lemma {:induction false} TokensChain(tokens: seq<string>, numCols: int)
    ensures TokensIndices(tokens, numCols) == ChainAll(TokenResults(tokens, numCols))
    decreases |tokens|
  {
    if tokens != [] {
      var init := tokens[..|tokens| - 1];
      TokensChain(init, numCols);
      var rs := TokenResults(tokens, numCols);
      assert rs[..|rs| - 1] == TokenResults(init, numCols);
    }
  }

  /**
   * A run of tokens succeeds exactly when every token does; otherwise its
   * error is that of the first failing token.
   */
  lemma TokensOutcome(tokens: seq<string>, numCols: int)
    ensures TokensIndices(tokens, numCols).Success? <==>
      forall k :: 0 <= k < |tokens| ==> TokenIndices(tokens[k], numCols).Success?
    ensures TokensIndices(tokens, numCols).Failure? ==>
      exists k :: 0 <= k < |tokens| &&
        TokenIndices(tokens[k], numCols) == Failure(TokensIndices(tokens, numCols).error) &&
        forall j :: 0 <= j < k ==> TokenIndices(tokens[j], numCols).Success?
  {
    TokensChain(tokens, numCols);
    ChainAllOutcome(TokenResults(tokens, numCols));
  }

  /** The indices a query selects: its `:`-separated tokens' own results, chained in order. */
  function QueryIndices(query: string, numCols: int): (r: Result<seq<int>>)
    ensures r == ChainAll(TokenResults(Split(query, ":"), numCols))
  {
    TokensChain(Split(query, ":"), numCols);
    TokensIndices(Split(query, ":"), numCols)
  }

  /** Tokens evaluated in two runs give the two runs' results in sequence. */
  lemma {:induction false} TokensAppend(t1: seq<string>, t2: seq<string>, numCols: int)
    ensures TokensIndices(t1 + t2, numCols) == Chain(TokensIndices(t1, numCols), TokensIndices(t2, numCols))
    decreases |t2|
  {
    if t2 == [] {
      assert t1 + t2 == t1;
      match TokensIndices(t1, numCols)
      case Failure(_) =>
      case Success(x) => assert x + [] == x;
    } else {
      var init, last := t2[..|t2| - 1], t2[|t2| - 1];
      assert (t1 + t2)[..|t1 + t2| - 1] == t1 + init;
      assert (t1 + t2)[|t1 + t2| - 1] == last;
      TokensAppend(t1, init, numCols);
      ChainAssoc(TokensIndices(t1, numCols), TokensIndices(init, numCols), TokenIndices(last, numCols));
    }
  }

  lemma ChainAssoc(a: Result<seq<int>>, b: Result<seq<int>>, c: Result<seq<int>>)
    ensures Chain(Chain(a, b), c) == Chain(a, Chain(b, c))
  {
    if a.Success? && b.Success? && c.Success? {
      assert (a.value + b.value) + c.value == a.value + (b.value + c.value);
    }
  }

  /** One more token extends the prefix's result by that token's. */
  lemma TokensStep(tokens: seq<string>, i: nat, numCols: int)
    requires i < |tokens|
    ensures TokensIndices(tokens[..i + 1], numCols) ==
      Chain(TokensIndices(tokens[..i], numCols), TokenIndices(tokens[i], numCols))
  {
    assert tokens[..i + 1][..i] == tokens[..i];
  }

  /** Once a prefix of the tokens fails, the whole query fails with that error. */
  lemma FailureStops(tokens: seq<string>, i: nat, numCols: int, e: Error)
    requires i <= |tokens| && TokensIndices(tokens[..i], numCols) == Failure(e)
    ensures TokensIndices(tokens, numCols) == Failure(e)
  {
    assert tokens == tokens[..i] + tokens[i..];
    TokensAppend(tokens[..i], tokens[i..], numCols);
  }

  /**
   * The body of the token loop: a scan of the operator table that skips
   * absent delimiters and stops at the first present one.
   */
  method TokenSelect(token: string, numCols: int) returns (r: Result<seq<int>>)
    ensures r == TokenIndices(token, numCols)
  {
    var j := 0;
    while j < |Operations|
      invariant 0 <= j <= |Operations|
      invariant forall m :: 0 <= m < j ==> !Contains(token, Operations[m].0)
      decreases |Operations| - j
    {
      var (delim, op) := Operations[j];
      if !Contains(token, delim) {
        j := j + 1;
        continue;
      }
      assert FirstOperation(token) == Some(j);
      var coords := ParseCoords(Split(token, delim), numCols);
      if coords.Failure? {
        return Failure(coords.error);
      }
      var start, end := coords.value[0], coords.value[1];
      match op {
        case ReverseBox =>
          var box := BoxSelect(start, end, numCols);
          r := if box.Failure? then Failure(box.error) else Success(Reverse(box.value));
        case Box =>
          r := BoxSelect(start, end, numCols);
        case Linear =>
          r := Success(LinearSelection(start, end, numCols));
        case ReverseLinear =>
          r := Success(ReverseLinearSelection(start, end, numCols));
      }
      return;
    }
    assert FirstOperation(token) == None;
    return Success([]);
  }

  /**
   * `parse_grid_indices` as the source runs it: the tokens in order, each
   * one's indices appended to the output, the first error ending the loop.
   */
  method ParseGridIndices(query: string, numCols: int) returns (r: Result<seq<int>>)
    ensures r == QueryIndices(query, numCols)
  {
    var out: seq<int> := [];
    var tokens := Split(query, ":");
    var i := 0;
    while i < |tokens|
      invariant 0 <= i <= |tokens|
      invariant TokensIndices(tokens[..i], numCols) == Success(out)
    {
      TokensStep(tokens, i, numCols);
      var selected := TokenSelect(tokens[i], numCols);
      if selected.Failure? {
        FailureStops(tokens, i + 1, numCols, selected.error);
        return Failure(selected.error);
      }
      out := out + selected.value;
      i := i + 1;
    }
    assert tokens[..i] == tokens;
    return Success(out);
  }

  /** A query without `:` is a single token. */
  lemma SingleToken(token: string, numCols: int)
    requires ':' !in token
    ensures QueryIndices(token, numCols) == TokenIndices(token, numCols)
  {
    ContainsChar(token, ':');
    SplitAbsent(token, ":");
    assert [token][..0] == [];
    assert TokensIndices([token], numCols) == Chain(TokensIndices([], numCols), TokenIndices(token, numCols));
    match TokenIndices(token, numCols)
    case Failure(_) =>
    case Success(y) => assert [] + y == y;
  }

  /** For each table entry, a character of its delimiter that no numeral contains. */
  function Marker(k: nat): char
    requires k < |Operations|
  {
    ['%', '#', '>', '<'][k]
  }

  /** A text without an entry's marker does not contain that entry's delimiter. */
  lemma MarkerExcludes(s: string, k: nat)
    requires k < |Operations| && Marker(k) !in s
    ensures !Contains(s, Operations[k].0)
  {
    MissingChar(s, Operations[k].0, if k == 2 then 1 else 0);
  }

  /** A text without an entry's marker splits on that entry's delimiter into itself. */
  lemma SplitWithout(s: string, k: nat)
    requires k < |Operations| && Marker(k) !in s
    ensures Split(s, Operations[k].0) == [s]
  {
    MarkerExcludes(s, k);
    SplitAbsent(s, Operations[k].0);
  }

  /**
   * A token `x d rest` whose first present delimiter is entry `k`'s `d`,
   * written right after `x` (no earlier occurrence of `d` starts in `x`):
   * its parts are `x` and the parts of `rest`, and once they parse, the
   * operator sees the first two.
   */
  lemma OperatorToken(x: string, rest: string, k: nat, delim: string, op: Operator, numCols: int,
                      first: Pos, second: Pos, more: seq<Pos>)
    requires k < |Operations| && Operations[k] == (delim, op)
    requires FirstOperation(x + delim + rest) == Some(k) && NoEarlyOccurrence(x, delim)
    requires ParseCoords([x] + Split(rest, delim), numCols) == Success([first, second] + more)
    ensures TokenIndices(x + delim + rest, numCols) == Apply(op, first, second, numCols)
  {
    assert |delim| > 0 by { assert Operations[k].0 != ""; }
    SplitAfter(x, delim, rest);
    var coords := [first, second] + more;
    assert coords[0] == first && coords[1] == second;
  }

  /**
   * A token `x d rest` whose first present delimiter is entry `k`'s `d`,
   * written right after `x`, with a part that does not parse: the token
   * fails with the error of its first unparsable part.
   */
  lemma OperatorTokenFails(x: string, rest: string, k: nat, delim: string, numCols: int)
    requires k < |Operations| && Operations[k].0 == delim
    requires FirstOperation(x + delim + rest) == Some(k) && NoEarlyOccurrence(x, delim)
    requires ParseCoords([x] + Split(rest, delim), numCols).Failure?
    ensures TokenIndices(x + delim + rest, numCols) == Failure(ParseCoords([x] + Split(rest, delim), numCols).error)
  {
    assert |delim| > 0 by { assert Operations[k].0 != ""; }
    SplitAfter(x, delim, rest);
  }

  /**
   * When no earlier entry's marker occurs in `x d rest` and `x` lacks entry
   * `k`'s, entry `k` is the token's operator and its delimiter first occurs
   * right after `x`.
   */
  lemma MarkedOperation(x: string, rest: string, k: nat, delim: string)
    requires k < |Operations| && Operations[k].0 == delim
    requires forall j :: 0 <= j < k ==> Marker(j) !in x + delim + rest
    requires Marker(k) !in x
    ensures FirstOperation(x + delim + rest) == Some(k) && NoEarlyOccurrence(x, delim)
  {
    var t := x + delim + rest;
    forall j | 0 <= j < k ensures !Contains(t, Operations[j].0) {
      MarkerExcludes(t, j);
    }
    assert t[|x|..|x| + |delim|] == delim;
    ContainsOccurs(t, delim, |x|);
    if k == 2 {
      NoEarlyByLastChar(x, delim);
    } else {
      NoEarlyByFirstChar(x, delim);
    }
  }

  /** The indices of two queries joined by `:` are the first's followed by the second's. */
  lemma QueryConcat(q1: string, q2: string, numCols: int)
    ensures QueryIndices(q1 + ":" + q2, numCols) == Chain(QueryIndices(q1, numCols), QueryIndices(q2, numCols))
  {
    SplitJoined(q1, ':', q2);
    TokensAppend(Split(q1, ":"), Split(q2, ":"), numCols);
  }

  /** The empty query selects nothing. */
  lemma EmptyQuery(numCols: int)
    ensures QueryIndices("", numCols) == Success([])
  {
    SingleToken("", numCols);
    assert FirstOperation("") == None by {
      forall j | 0 <= j < |Operations| ensures !Contains("", Operations[j].0) {
        MissingChar("", Operations[j].0, 0);
      }
    }
  }

  /** A token with none of the delimiters contributes nothing, and is not an error. */
  lemma UndelimitedTokenSkipped(token: string, query: string, numCols: int)
    requires ':' !in token && FirstOperation(token) == None
    ensures QueryIndices(token + ":" + query, numCols) == QueryIndices(query, numCols)
  {
    QueryConcat(token, query, numCols);
    SingleToken(token, numCols);
    match QueryIndices(query, numCols)
    case Failure(_) =>
    case Success(y) => assert [] + y == y;
  }

  /** Two parts that parse as tuples give those two positions. */
  lemma ParseCoordsTwo(x: string, y: string, p: Pos, q: Pos, numCols: int)
    requires ParseCoord(x, numCols, true) == Success(Tuple(p))
    requires ParseCoord(y, numCols, true) == Success(Tuple(q))
    ensures ParseCoords([x, y], numCols) == Success([p, q])
  {
    assert [x, y][1..] == [y];
    assert [y][1..] == [];
    assert ParseCoords([], numCols) == Success([]);
    assert ParseCoords([y], numCols) == Success([q]) by {
      assert [q] + [] == [q];
    }
    assert [p] + [q] == [p, q];
  }

  /** Two bare numerals parse as the tuples of those indices. */
  lemma ParseTwoBare(a: int, b: int, numCols: int)
    requires numCols != 0
    ensures ParseCoords([Show(a), Show(b)], numCols) == Success([IntToTuple(a, numCols), IntToTuple(b, numCols)])
  {
    ParseBare(a, numCols);
    ParseBare(b, numCols);
    ParseCoordsTwo(Show(a), Show(b), IntToTuple(a, numCols), IntToTuple(b, numCols), numCols);
  }

  /** The parts of `a d b`, for a linear delimiter `d`, parse as the two indices' tuples. */
  lemma BareCoords(a: int, b: int, k: nat, delim: string, numCols: int)
    requires numCols != 0 && 2 <= k < |Operations| && Operations[k].0 == delim
    ensures ParseCoords([Show(a)] + Split(Show(b), delim), numCols) ==
      Success([IntToTuple(a, numCols), IntToTuple(b, numCols)] + [])
  {
    ShowOmits(b);
    SplitWithout(Show(b), k);
    assert [Show(a)] + [Show(b)] == [Show(a), Show(b)];
    ParseTwoBare(a, b, numCols);
    assert [IntToTuple(a, numCols), IntToTuple(b, numCols)] + [] == [IntToTuple(a, numCols), IntToTuple(b, numCols)];
  }

  /** The token `a->b` applies the linear operator to the two indices' tuples. */
  lemma LinearToken(a: int, b: int, numCols: int)
    requires numCols != 0
    ensures TokenIndices(Show(a) + "->" + Show(b), numCols) ==
      Success(LinearSelection(IntToTuple(a, numCols), IntToTuple(b, numCols), numCols))
  {
    var x, y := Show(a), Show(b);
    assert Operations[2] == ("->", Linear);
    assert forall j :: 0 <= j < 2 ==> Marker(j) !in x + "->" + y by {
      ShowOmits(a); ShowOmits(b);
      assert Marker(0) == '%' && Marker(1) == '#';
    }
    assert Marker(2) !in x by { ShowOmits(a); }
    BareCoords(a, b, 2, "->", numCols);
    MarkedOperation(x, y, 2, "->");
    OperatorToken(x, y, 2, "->", Linear, numCols, IntToTuple(a, numCols), IntToTuple(b, numCols), []);
    assert Apply(Linear, IntToTuple(a, numCols), IntToTuple(b, numCols), numCols) ==
      Success(LinearSelection(IntToTuple(a, numCols), IntToTuple(b, numCols), numCols));
  }

  /** `a->b` selects every index from `a` to `b`, inclusive. */
  lemma LinearQuery(a: int, b: int, numCols: int)
    requires numCols != 0
    ensures QueryIndices(Show(a) + "->" + Show(b), numCols) == Success(Span(a, b))
  {
    var t := Show(a) + "->" + Show(b);
    assert ':' !in t by { ShowOmits(a); ShowOmits(b); }
    SingleToken(t, numCols);
    LinearToken(a, b, numCols);
    IntTupleRoundTrip(a, numCols);
    IntTupleRoundTrip(b, numCols);
  }

  /** The token `a<-b` applies the reverse linear operator to the two indices' tuples. */
  lemma ReverseLinearToken(a: int, b: int, numCols: int)
    requires numCols != 0
    ensures TokenIndices(Show(a) + "<-" + Show(b), numCols) ==
      Success(ReverseLinearSelection(IntToTuple(a, numCols), IntToTuple(b, numCols), numCols))
  {
    var x, y := Show(a), Show(b);
    assert Operations[3] == ("<-", ReverseLinear);
    assert forall j :: 0 <= j < 3 ==> Marker(j) !in x + "<-" + y by {
      ShowOmits(a); ShowOmits(b);
      assert Marker(0) == '%' && Marker(1) == '#' && Marker(2) == '>';
    }
    assert Marker(3) !in x by { ShowOmits(a); }
    BareCoords(a, b, 3, "<-", numCols);
    MarkedOperation(x, y, 3, "<-");
    OperatorToken(x, y, 3, "<-", ReverseLinear, numCols, IntToTuple(a, numCols), IntToTuple(b, numCols), []);
    assert Apply(ReverseLinear, IntToTuple(a, numCols), IntToTuple(b, numCols), numCols) ==
      Success(ReverseLinearSelection(IntToTuple(a, numCols), IntToTuple(b, numCols), numCols));
  }

  /** `a<-b` counts down from `b` to `a`: the reversal of `a->b`. */
  lemma ReverseLinearQuery(a: int, b: int, numCols: int)
    requires numCols != 0
    ensures QueryIndices(Show(a) + "<-" + Show(b), numCols) == Success(Reverse(Span(a, b)))
  {
    var t := Show(a) + "<-" + Show(b);
    assert ':' !in t by { ShowOmits(a); ShowOmits(b); }
    SingleToken(t, numCols);
    ReverseLinearToken(a, b, numCols);
    IntTupleRoundTrip(a, numCols);
    IntTupleRoundTrip(b, numCols);
  }

  /**
   * `a<-b` counts down from `b` to `a`: with `a > b` (such as `3<-0`) the
   * query is accepted and selects nothing.
   */
  lemma ReverseLinearBackwardsEmpty(a: int, b: int, numCols: int)
    requires numCols != 0 && a > b
    ensures QueryIndices(Show(a) + "<-" + Show(b), numCols) == Success([])
  {
    ReverseLinearQuery(a, b, numCols);
    assert |Reverse(Span(a, b))| == 0;
  }

  /** Three bare numerals parse as the tuples of those indices. */
  lemma ParseThreeBare(a: int, b: int, c: int, numCols: int)
    requires numCols != 0
    ensures ParseCoords([Show(a), Show(b), Show(c)], numCols) ==
      Success([IntToTuple(a, numCols), IntToTuple(b, numCols), IntToTuple(c, numCols)])
  {
    ParseBare(a, numCols);
    ParseTwoBare(b, c, numCols);
    assert [Show(a), Show(b), Show(c)][1..] == [Show(b), Show(c)];
    assert [IntToTuple(a, numCols)] + [IntToTuple(b, numCols), IntToTuple(c, numCols)] ==
      [IntToTuple(a, numCols), IntToTuple(b, numCols), IntToTuple(c, numCols)];
  }

  /** `b->c` splits on `->` into its two numerals. */
  lemma LinearParts(b: int, c: int)
    ensures Split(Show(b) + "->" + Show(c), "->") == [Show(b), Show(c)]
  {
    ShowOmits(b); ShowOmits(c);
    NoEarlyByLastChar(Show(b), "->");
    SplitAfter(Show(b), "->", Show(c));
    SplitWithout(Show(c), 2);
  }

  /** The parts of `a->b->c` parse as the three indices' tuples. */
  lemma ThreePartCoords(a: int, b: int, c: int, numCols: int)
    requires numCols != 0
    ensures ParseCoords([Show(a)] + Split(Show(b) + "->" + Show(c), "->"), numCols) ==
      Success([IntToTuple(a, numCols), IntToTuple(b, numCols)] + [IntToTuple(c, numCols)])
  {
    LinearParts(b, c);
    assert [Show(a)] + [Show(b), Show(c)] == [Show(a), Show(b), Show(c)];
    ParseThreeBare(a, b, c, numCols);
    assert [IntToTuple(a, numCols), IntToTuple(b, numCols)] + [IntToTuple(c, numCols)] ==
      [IntToTuple(a, numCols), IntToTuple(b, numCols), IntToTuple(c, numCols)];
  }

  /** The token `a->b->c` applies the linear operator to the tuples of `a` and `b`. */
  lemma ThreePartToken(a: int, b: int, c: int, numCols: int)
    requires numCols != 0
    ensures TokenIndices(Show(a) + "->" + (Show(b) + "->" + Show(c)), numCols) ==
      Success(LinearSelection(IntToTuple(a, numCols), IntToTuple(b, numCols), numCols))
  {
    var x, y, z := Show(a), Show(b), Show(c);
    var rest := y + "->" + z;
    assert Operations[2] == ("->", Linear);
    assert forall j :: 0 <= j < 2 ==> Marker(j) !in x + "->" + rest by {
      ShowOmits(a); ShowOmits(b); ShowOmits(c);
      assert Marker(0) == '%' && Marker(1) == '#';
    }
    assert Marker(2) !in x by { ShowOmits(a); }
    ThreePartCoords(a, b, c, numCols);
    MarkedOperation(x, rest, 2, "->");
    OperatorToken(x, rest, 2, "->", Linear, numCols, IntToTuple(a, numCols), IntToTuple(b, numCols), [IntToTuple(c, numCols)]);
  }

  /**
   * Only the first two parts are used: `a->b->c` is `a->b`, whatever `c`
   * is, as long as it parses.
   */
  lemma ExtraPartsIgnored(a: int, b: int, c: int, numCols: int)
    requires numCols != 0
    ensures QueryIndices(Show(a) + "->" + Show(b) + "->" + Show(c), numCols) == Success(Span(a, b))
  {
    var t := Show(a) + "->" + (Show(b) + "->" + Show(c));
    assert ':' !in t by { ShowOmits(a); ShowOmits(b); ShowOmits(c); }
    assert Show(a) + "->" + Show(b) + "->" + Show(c) == t;
    SingleToken(t, numCols);
    ThreePartToken(a, b, c, numCols);
    IntTupleRoundTrip(a, numCols);
    IntTupleRoundTrip(b, numCols);
  }

  /** Two `row,col` coordinates parse as their tuples when both columns are in range. */
  lemma ParseTwoPairs(r0: int, c0: int, r1: int, c1: int, numCols: int)
    requires c0 < numCols && c1 < numCols
    ensures ParseCoords([Show(r0) + "," + Show(c0), Show(r1) + "," + Show(c1)], numCols) ==
      Success([Pos(c0, r0), Pos(c1, r1)])
  {
    var x, y := Show(r0) + "," + Show(c0), Show(r1) + "," + Show(c1);
    ParsePair(r0, c0, "", numCols, true);
    ParsePair(r1, c1, "", numCols, true);
    assert x + "" == x && y + "" == y;
    ParseCoordsTwo(x, y, Pos(c0, r0), Pos(c1, r1), numCols);
  }

  /** The parts of `r0,c0 d r1,c1`, for a box delimiter `d`, parse as the two positions. */
  lemma PairCoords(r0: int, c0: int, r1: int, c1: int, k: nat, delim: string, numCols: int)
    requires c0 < numCols && c1 < numCols && k < 2 && Operations[k].0 == delim
    ensures ParseCoords([Show(r0) + "," + Show(c0)] + Split(Show(r1) + "," + Show(c1), delim), numCols) ==
      Success([Pos(c0, r0), Pos(c1, r1)] + [])
  {
    var x, y := Show(r0) + "," + Show(c0), Show(r1) + "," + Show(c1);
    ShowOmits(r1); ShowOmits(c1);
    SplitWithout(y, k);
    assert [x] + [y] == [x, y];
    ParseTwoPairs(r0, c0, r1, c1, numCols);
    assert [Pos(c0, r0), Pos(c1, r1)] + [] == [Pos(c0, r0), Pos(c1, r1)];
  }

  /** The token `r0,c0#r1,c1` applies the box operator to the two positions. */
  lemma BoxToken(r0: int, c0: int, r1: int, c1: int, numCols: int)
    requires c0 < numCols && c1 < numCols
    ensures TokenIndices((Show(r0) + "," + Show(c0)) + "#" + (Show(r1) + "," + Show(c1)), numCols) ==
      BoxSelection(Pos(c0, r0), Pos(c1, r1), numCols)
  {
    var x, y := Show(r0) + "," + Show(c0), Show(r1) + "," + Show(c1);
    assert Operations[1] == ("#", Box);
    assert forall j :: 0 <= j < 1 ==> Marker(j) !in x + "#" + y by {
      ShowOmits(r0); ShowOmits(c0); ShowOmits(r1); ShowOmits(c1);
      assert Marker(0) == '%';
    }
    assert Marker(1) !in x by { ShowOmits(r0); ShowOmits(c0); }
    PairCoords(r0, c0, r1, c1, 1, "#", numCols);
    MarkedOperation(x, y, 1, "#");
    OperatorToken(x, y, 1, "#", Box, numCols, Pos(c0, r0), Pos(c1, r1), []);
    assert Apply(Box, Pos(c0, r0), Pos(c1, r1), numCols) == BoxSelection(Pos(c0, r0), Pos(c1, r1), numCols);
  }

  /** `r0,c0#r1,c1` is the box between the two corners, row by row. */
  lemma BoxQuery(r0: int, c0: int, r1: int, c1: int, numCols: int)
    requires c0 < numCols && c1 < numCols
    ensures QueryIndices(Show(r0) + "," + Show(c0) + "#" + Show(r1) + "," + Show(c1), numCols) ==
      BoxSelection(Pos(c0, r0), Pos(c1, r1), numCols)
  {
    var t := (Show(r0) + "," + Show(c0)) + "#" + (Show(r1) + "," + Show(c1));
    assert ':' !in t by { ShowOmits(r0); ShowOmits(c0); ShowOmits(r1); ShowOmits(c1); }
    assert Show(r0) + "," + Show(c0) + "#" + Show(r1) + "," + Show(c1) == t;
    SingleToken(t, numCols);
    BoxToken(r0, c0, r1, c1, numCols);
  }

  /**
   * A box whose first corner's column is not below `num_cols` fails that
   * corner's column assertion, before the box itself is looked at.
   */
  lemma BoxCornerOutOfRange(r0: int, c0: int, r1: int, c1: int, numCols: int)
    requires c0 >= numCols
    ensures TokenIndices((Show(r0) + "," + Show(c0)) + "#" + (Show(r1) + "," + Show(c1)), numCols) ==
      Failure(ColumnOutOfRange(c0, numCols))
  {
    var x, y := Show(r0) + "," + Show(c0), Show(r1) + "," + Show(c1);
    assert Operations[1].0 == "#";
    assert forall j :: 0 <= j < 1 ==> Marker(j) !in x + "#" + y by {
      ShowOmits(r0); ShowOmits(c0); ShowOmits(r1); ShowOmits(c1);
      assert Marker(0) == '%';
    }
    assert Marker(1) !in x by { ShowOmits(r0); ShowOmits(c0); }
    MarkedOperation(x, y, 1, "#");
    assert ParseCoords([x] + Split(y, "#"), numCols) == Failure(ColumnOutOfRange(c0, numCols)) by {
      ShowOmits(r1); ShowOmits(c1);
      SplitWithout(y, 1);
      assert [x] + [y] == [x, y];
      ParsePairOutOfRange(r0, c0, numCols, true);
    }
    OperatorTokenFails(x, y, 1, "#", numCols);
  }

  /** The token `r0,c0%r1,c1` applies the reverse box operator to the two positions. */
  lemma ReverseBoxToken(r0: int, c0: int, r1: int, c1: int, numCols: int)
    requires c0 < numCols && c1 < numCols
    ensures TokenIndices((Show(r0) + "," + Show(c0)) + "%" + (Show(r1) + "," + Show(c1)), numCols) ==
      ReverseBoxSelection(Pos(c0, r0), Pos(c1, r1), numCols)
  {
    var x, y := Show(r0) + "," + Show(c0), Show(r1) + "," + Show(c1);
    assert Operations[0] == ("%", ReverseBox);
    assert Marker(0) !in x by { ShowOmits(r0); ShowOmits(c0); }
    PairCoords(r0, c0, r1, c1, 0, "%", numCols);
    MarkedOperation(x, y, 0, "%");
    OperatorToken(x, y, 0, "%", ReverseBox, numCols, Pos(c0, r0), Pos(c1, r1), []);
    assert Apply(ReverseBox, Pos(c0, r0), Pos(c1, r1), numCols) ==
      ReverseBoxSelection(Pos(c0, r0), Pos(c1, r1), numCols);
  }

  /** `r0,c0%r1,c1` is that box backwards. */
  lemma ReverseBoxQuery(r0: int, c0: int, r1: int, c1: int, numCols: int)
    requires c0 < numCols && c1 < numCols
    ensures QueryIndices(Show(r0) + "," + Show(c0) + "%" + Show(r1) + "," + Show(c1), numCols) ==
      ReverseBoxSelection(Pos(c0, r0), Pos(c1, r1), numCols)
  {
    var t := (Show(r0) + "," + Show(c0)) + "%" + (Show(r1) + "," + Show(c1));
    assert ':' !in t by { ShowOmits(r0); ShowOmits(c0); ShowOmits(r1); ShowOmits(c1); }
    assert Show(r0) + "," + Show(c0) + "%" + Show(r1) + "," + Show(c1) == t;
    SingleToken(t, numCols);
    ReverseBoxToken(r0, c0, r1, c1, numCols);
  }
}
