/** Picking the syntax nodes and tokens out of whatever a script returned. */
module RoslynHelpers {
  import opened Wrappers
  import opened Syntax

  /**
   * `AsSyntaxNodeOrToken`: a node or a token is wrapped, a boxed wrapper is
   * unboxed, and anything else, null included, gives null.
   */
  function AsSyntaxNodeOrToken(item: Obj): (r: Option<SyntaxNodeOrToken>)
    ensures r.Some? <==> item.SyntaxNode? || item.SyntaxToken? || item.Boxed?
    ensures item.SyntaxNode? ==> r == Some(NodeOf(item.node))
    ensures item.SyntaxToken? ==> r == Some(TokenOf(item.token))
    ensures item.Boxed? ==> r == Some(item.value)
  {
    match item
    case SyntaxNode(n) => Some(NodeOf(n))
    case SyntaxToken(t) => Some(TokenOf(t))
    case Boxed(v) => Some(v)
    case _ => None
  }

  /** Whether `item` classifies as a syntax node or token. */
  predicate IsSyntax(item: Obj) {
    AsSyntaxNodeOrToken(item).Some?
  }

  /**
   * `GetSyntaxNodesAndTokens`: `Select(AsSyntaxNodeOrToken)`, then drop the
   * nulls, then unwrap.
   */
  function GetSyntaxNodesAndTokens(source: seq<Obj>): (r: seq<SyntaxNodeOrToken>)
    ensures |r| <= |source|
    ensures forall x :: x in r ==> exists i :: 0 <= i < |source| && AsSyntaxNodeOrToken(source[i]) == Some(x)
    ensures forall i :: 0 <= i < |source| && IsSyntax(source[i]) ==> AsSyntaxNodeOrToken(source[i]).value in r
  {
    if source == [] then []
    else
      var rest := GetSyntaxNodesAndTokens(source[1..]);
      assert forall i :: 1 <= i < |source| ==> source[i] == source[1..][i - 1];
      match AsSyntaxNodeOrToken(source[0])
      case Some(x) => [x] + rest
      case None => rest
  }

  /** Boxing each wrapper into an `object`, as passing the result on as `IEnumerable<object>` does. */
  function Box(nodes: seq<SyntaxNodeOrToken>): (r: seq<Obj>)
    ensures |r| == |nodes|
    ensures forall i :: 0 <= i < |nodes| ==> r[i] == Boxed(nodes[i])
  {
    seq(|nodes|, i requires 0 <= i < |nodes| => Boxed(nodes[i]))
  }

  /** The filter works item by item: on a concatenation it is the concatenation of the results, so order is kept. */
  lemma {:induction false} GetSyntaxNodesAndTokensAppend(a: seq<Obj>, b: seq<Obj>)
    ensures GetSyntaxNodesAndTokens(a + b) == GetSyntaxNodesAndTokens(a) + GetSyntaxNodesAndTokens(b)
  {
    if a == [] {
      assert a + b == b;
    } else {
      assert (a + b)[1..] == a[1..] + b;
      GetSyntaxNodesAndTokensAppend(a[1..], b);
    }
  }

  /** One item gives one wrapper when it classifies as syntax, and nothing otherwise. */
  lemma GetSyntaxNodesAndTokensSingle(item: Obj)
    ensures GetSyntaxNodesAndTokens([item]) == if IsSyntax(item) then [AsSyntaxNodeOrToken(item).value] else []
  {
    assert [item][1..] == [];
  }

  /** An input with no node, token or boxed wrapper in it yields nothing. */
  lemma {:induction false} NoSyntaxYieldsEmpty(source: seq<Obj>)
    requires forall i :: 0 <= i < |source| ==> !IsSyntax(source[i])
    ensures GetSyntaxNodesAndTokens(source) == []
  {
    if source != [] {
      assert !IsSyntax(source[0]);
      NoSyntaxYieldsEmpty(source[1..]);
    }
  }

  /** When every item is syntax, exactly one wrapper per item comes out. */
  lemma {:induction false} AllSyntaxKeepsLength(source: seq<Obj>)
    requires forall i :: 0 <= i < |source| ==> IsSyntax(source[i])
    ensures |GetSyntaxNodesAndTokens(source)| == |source|
  {
    if source != [] {
      assert IsSyntax(source[0]);
      AllSyntaxKeepsLength(source[1..]);
    }
  }

  /** Boxed wrappers pass through unchanged, so filtering the filter's own output changes nothing. */
  lemma {:induction false} FilterOfBoxed(nodes: seq<SyntaxNodeOrToken>)
    ensures GetSyntaxNodesAndTokens(Box(nodes)) == nodes
  {
    if nodes != [] {
      assert Box(nodes)[1..] == Box(nodes[1..]);
      FilterOfBoxed(nodes[1..]);
    }
  }

  /** Idempotence: applying the filter to its own (boxed) output returns that output. */
  lemma GetSyntaxNodesAndTokensIdempotent(source: seq<Obj>)
    ensures GetSyntaxNodesAndTokens(Box(GetSyntaxNodesAndTokens(source))) == GetSyntaxNodesAndTokens(source)
  {
    FilterOfBoxed(GetSyntaxNodesAndTokens(source));
  }
}
