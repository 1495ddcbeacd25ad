/**
 * Replacing matched nodes and tokens across a solution: the elements are
 * grouped by the document that owns them, each document gets all of its
 * changes in one `WithChanges` edit of its original text, and the new texts
 * are folded, one document at a time, into a new solution value.
 */
module ReplaceHelpers {
  import opened Wrappers
  import opened Queries
  import opened Syntax
  import opened SourceText

  /** A solution as far as replacing is concerned: the text of each of its documents. */
  type Solution = map<DocumentId, string>

  /**
   * How the fold fails: an element whose syntax tree belongs to no document
   * of the solution is grouped under a null document, which is then
   * dereferenced.
   */
  datatype ReplaceError = NullReference

  /** The grouping key: the document of the solution that holds the element's syntax tree. */
  function DocumentOf(n: SyntaxNodeOrToken): (d: DocumentId)
    ensures n.NodeOf? ==> d == n.node.document
    ensures n.TokenOf? ==> d == n.token.document
  {
    n.Document()
  }

  /** The literal overload's replacement function: every element gets the same text. */
  function Literal(replaceExpression: string): (f: SyntaxNodeOrToken -> string)
    ensures forall n :: f(n) == replaceExpression
  {
    _ => replaceExpression
  }

  /**
   * What `WithChanges` needs of the changes of each document: spans inside
   * the document's text, in order, not overlapping.
   */
  ghost predicate SpansFit(solution: Solution, nodes: seq<SyntaxNodeOrToken>) {
    && (forall i :: 0 <= i < |nodes| && nodes[i].Document() in solution ==> nodes[i].End() <= |solution[nodes[i].Document()]|)
    && (forall i, j :: 0 <= i < j < |nodes| && nodes[i].Document() == nodes[j].Document() ==> nodes[i].End() <= nodes[j].Start())
  }

  /** Every element's tree belongs to a document of the solution. */
  ghost predicate AllInSolution(solution: Solution, nodes: seq<SyntaxNodeOrToken>) {
    forall i :: 0 <= i < |nodes| ==> nodes[i].Document() in solution
  }

  /** The elements owned by `document`, in their original order. */
  function ElementsOf(nodes: seq<SyntaxNodeOrToken>, document: DocumentId): seq<SyntaxNodeOrToken> {
    GroupOf(nodes, DocumentOf, document)
  }

  /** The changes for one document: each of its elements, in order, becomes a change over that element's span carrying its computed replacement. */
  function ChangesFor(nodes: seq<SyntaxNodeOrToken>, document: DocumentId, computeReplacement: SyntaxNodeOrToken -> string): (r: seq<TextChange>)
    ensures |r| == |ElementsOf(nodes, document)|
    ensures forall i :: 0 <= i < |r| ==>
              var e := ElementsOf(nodes, document)[i];
              r[i] == TextChange(e.Start(), e.Site().length, computeReplacement(e))
  {
    var g := ElementsOf(nodes, document);
    seq(|g|, i requires 0 <= i < |g| => TextChange(g[i].Start(), g[i].Site().length, computeReplacement(g[i])))
  }

  /** The changes of one document are ordered, do not overlap and lie inside its text. */
  lemma ChangesWellFormed(solution: Solution, nodes: seq<SyntaxNodeOrToken>, document: DocumentId, computeReplacement: SyntaxNodeOrToken -> string)
    requires SpansFit(solution, nodes) && document in solution
    ensures WellFormed(solution[document], ChangesFor(nodes, document, computeReplacement))
  {
    var before := (a: SyntaxNodeOrToken, b: SyntaxNodeOrToken) => a.End() <= b.Start();
    WherePreservesOrder(nodes, KeyIs(DocumentOf, document), before);
    var g := ElementsOf(nodes, document);
    var changes := ChangesFor(nodes, document, computeReplacement);
    forall i | 0 <= i < |g| ensures g[i].End() <= |solution[document]| {
      assert g[i] in g;
      var k :| 0 <= k < |nodes| && nodes[k] == g[i];
    }
    forall a, b | 0 <= a < b < |changes| ensures changes[a].End() <= changes[b].start {
      assert before(g[a], g[b]);
    }
    WellFormedIffOrdered(solution[document], changes);
  }

  /** The new text of one document: its original text with all of its changes applied in one edit. */
  function NewText(solution: Solution, nodes: seq<SyntaxNodeOrToken>, computeReplacement: SyntaxNodeOrToken -> string, document: DocumentId): (r: string)
    requires SpansFit(solution, nodes) && document in solution
    ensures |r| == |solution[document]| + Delta(ChangesFor(nodes, document, computeReplacement))
  {
    ChangesWellFormed(solution, nodes, document, computeReplacement);
    WithChanges(solution[document], ChangesFor(nodes, document, computeReplacement))
  }

  /** The solution the fold builds: the same documents, each with its changes applied. */
  function Replaced(solution: Solution, nodes: seq<SyntaxNodeOrToken>, computeReplacement: SyntaxNodeOrToken -> string): (r: Solution)
    requires SpansFit(solution, nodes)
    ensures r.Keys == solution.Keys
  {
    map d | d in solution :: NewText(solution, nodes, computeReplacement, d)
  }

  /** The solution after the documents of `done`, in order, have each been given their new text. */
  ghost function PartlyReplaced(solution: Solution, nodes: seq<SyntaxNodeOrToken>, computeReplacement: SyntaxNodeOrToken -> string, done: seq<DocumentId>): Solution
    requires SpansFit(solution, nodes)
    requires forall m :: 0 <= m < |done| ==> done[m] in solution
    decreases |done|
  {
    if done == [] then solution
    else
      var last := done[|done| - 1];
      PartlyReplaced(solution, nodes, computeReplacement, done[..|done| - 1])[last := NewText(solution, nodes, computeReplacement, last)]
  }

  /** Giving documents their new text neither adds nor drops a document. */
  lemma {:induction false} PartlyReplacedKeys(solution: Solution, nodes: seq<SyntaxNodeOrToken>, computeReplacement: SyntaxNodeOrToken -> string, done: seq<DocumentId>)
    requires SpansFit(solution, nodes)
    requires forall m :: 0 <= m < |done| ==> done[m] in solution
    ensures PartlyReplaced(solution, nodes, computeReplacement, done).Keys == solution.Keys
    decreases |done|
  {
    if done != [] {
      PartlyReplacedKeys(solution, nodes, computeReplacement, done[..|done| - 1]);
    }
  }

  /** A document of `done` carries its new text; any other document of the solution keeps its old one. */
  lemma {:induction false} PartlyReplacedAt(solution: Solution, nodes: seq<SyntaxNodeOrToken>, computeReplacement: SyntaxNodeOrToken -> string, done: seq<DocumentId>, d: DocumentId)
    requires SpansFit(solution, nodes) && d in solution
    requires forall m :: 0 <= m < |done| ==> done[m] in solution
    ensures d in PartlyReplaced(solution, nodes, computeReplacement, done)
    ensures PartlyReplaced(solution, nodes, computeReplacement, done)[d]
            == if d in done then NewText(solution, nodes, computeReplacement, d) else solution[d]
    decreases |done|
  {
    if done != [] {
      var init := done[..|done| - 1];
      var last := done[|done| - 1];
      PartlyReplacedAt(solution, nodes, computeReplacement, init, d);
      assert PartlyReplaced(solution, nodes, computeReplacement, done)
             == PartlyReplaced(solution, nodes, computeReplacement, init)[last := NewText(solution, nodes, computeReplacement, last)];
      assert d in done <==> d in init || d == last by {
        assert done == init + [last];
      }
    }
  }

  /** Doing the next document of `keys` updates that document only. */
  lemma PartlyReplacedStep(solution: Solution, nodes: seq<SyntaxNodeOrToken>, computeReplacement: SyntaxNodeOrToken -> string, keys: seq<DocumentId>, k: nat)
    requires SpansFit(solution, nodes) && k < |keys|
    requires forall m :: 0 <= m <= k ==> keys[m] in solution
    ensures forall m :: 0 <= m < |keys[..k]| ==> keys[..k][m] in solution
    ensures PartlyReplaced(solution, nodes, computeReplacement, keys[..k + 1])
            == PartlyReplaced(solution, nodes, computeReplacement, keys[..k])[keys[k] := NewText(solution, nodes, computeReplacement, keys[k])]
  {
    assert keys[..k + 1][..k] == keys[..k];
  }

  /** Once every document that owns an element is done, the fold has built `Replaced`. */
  lemma PartlyReplacedComplete(solution: Solution, nodes: seq<SyntaxNodeOrToken>, computeReplacement: SyntaxNodeOrToken -> string)
    requires SpansFit(solution, nodes)
    requires forall m :: 0 <= m < |GroupKeys(nodes, DocumentOf)| ==> GroupKeys(nodes, DocumentOf)[m] in solution
    ensures PartlyReplaced(solution, nodes, computeReplacement, GroupKeys(nodes, DocumentOf)) == Replaced(solution, nodes, computeReplacement)
  {
    var keys := GroupKeys(nodes, DocumentOf);
    var partly := PartlyReplaced(solution, nodes, computeReplacement, keys);
    var replaced := Replaced(solution, nodes, computeReplacement);
    PartlyReplacedKeys(solution, nodes, computeReplacement, keys);
    forall d | d in solution
      ensures partly[d] == replaced[d]
    {
      PartlyReplacedAt(solution, nodes, computeReplacement, keys, d);
      if d !in keys {
        NoElementKeepsText(solution, nodes, computeReplacement, d);
      }
    }
    assert partly.Keys == replaced.Keys;
  }

  /** A document that is no group key gets no changes, so its new text is its old one. */
  lemma NoElementKeepsText(solution: Solution, nodes: seq<SyntaxNodeOrToken>, computeReplacement: SyntaxNodeOrToken -> string, d: DocumentId)
    requires SpansFit(solution, nodes) && d in solution && d !in GroupKeys(nodes, DocumentOf)
    ensures NewText(solution, nodes, computeReplacement, d) == solution[d]
  {
    GroupOfAbsentKey(nodes, DocumentOf, d);
    assert ChangesFor(nodes, d, computeReplacement) == [];
  }

  /** The elements all belong to the solution exactly when every group key is one of its documents. */
  lemma AllInSolutionByKeys(solution: Solution, nodes: seq<SyntaxNodeOrToken>)
    ensures AllInSolution(solution, nodes) <==> forall d :: d in GroupKeys(nodes, DocumentOf) ==> d in solution
  {
    var keys := GroupKeys(nodes, DocumentOf);
    assert forall i :: 0 <= i < |nodes| ==> DocumentOf(nodes[i]) in keys;
  }

  /** A group key missing from the solution means some element lies outside it. */
  lemma MissingDocumentFails(solution: Solution, nodes: seq<SyntaxNodeOrToken>, d: DocumentId)
    requires d in GroupKeys(nodes, DocumentOf) && d !in solution
    ensures !AllInSolution(solution, nodes)
  {
    AllInSolutionByKeys(solution, nodes);
  }

  /** A fold that visited every group key has built `Replaced`, and every element lies in the solution. */
  lemma FoldComplete(solution: Solution, nodes: seq<SyntaxNodeOrToken>, computeReplacement: SyntaxNodeOrToken -> string, keys: seq<DocumentId>, acc: Solution)
    requires SpansFit(solution, nodes) && keys == GroupKeys(nodes, DocumentOf)
    requires forall m :: 0 <= m < |keys| ==> keys[m] in solution
    requires forall m :: 0 <= m < |keys[..|keys|]| ==> keys[..|keys|][m] in solution
    requires acc == PartlyReplaced(solution, nodes, computeReplacement, keys[..|keys|])
    ensures AllInSolution(solution, nodes)
    ensures acc == Replaced(solution, nodes, computeReplacement)
  {
    assert keys[..|keys|] == keys;
    PartlyReplacedComplete(solution, nodes, computeReplacement);
    AllInSolutionByKeys(solution, nodes);
  }

  /**
   * `ReplaceNodesWithLiteralAsync(solution, nodes, computeReplacement)`: one
   * pass over the groups, replacing each owning document's text in the
   * solution being built. It fails exactly when some element belongs to no
   * document of the solution.
   */
  method ReplaceNodes(solution: Solution, nodes: seq<SyntaxNodeOrToken>, computeReplacement: SyntaxNodeOrToken -> string)
    returns (r: Result<Solution, ReplaceError>)
    requires SpansFit(solution, nodes)
    ensures r.Failure? <==> !AllInSolution(solution, nodes)
    ensures r.Success? ==> r.value == Replaced(solution, nodes, computeReplacement)
  {
    var groupedByDocument := GroupKeys(nodes, DocumentOf);
    var updatedSolution := solution;
    for k := 0 to |groupedByDocument|
      invariant forall m :: 0 <= m < k ==> groupedByDocument[m] in solution
      invariant updatedSolution == PartlyReplaced(solution, nodes, computeReplacement, groupedByDocument[..k])
    {
      var document := groupedByDocument[k];
      if document !in solution {
        MissingDocumentFails(solution, nodes, document);
        return Failure(NullReference);
      }
      // the document's changes, applied to its original text in one edit
      var newText := NewText(solution, nodes, computeReplacement, document);
      PartlyReplacedStep(solution, nodes, computeReplacement, groupedByDocument, k);
      updatedSolution := updatedSolution[document := newText];
    }
    FoldComplete(solution, nodes, computeReplacement, groupedByDocument, updatedSolution);
    return Success(updatedSolution);
  }

  /** The overload with a literal: every element is replaced by the same string. */
  method ReplaceNodesWithLiteral(solution: Solution, nodesAndTokensToReplace: seq<SyntaxNodeOrToken>, replaceExpression: string)
    returns (r: Result<Solution, ReplaceError>)
    requires SpansFit(solution, nodesAndTokensToReplace)
    ensures r.Failure? <==> !AllInSolution(solution, nodesAndTokensToReplace)
    ensures r.Success? ==> r.value == Replaced(solution, nodesAndTokensToReplace, Literal(replaceExpression))
  {
    r := ReplaceNodes(solution, nodesAndTokensToReplace, Literal(replaceExpression));
  }

  /** With the literal, every change of every document carries the same replacement string. */
  lemma LiteralReplacesEveryElementAlike(nodes: seq<SyntaxNodeOrToken>, document: DocumentId, replaceExpression: string, i: nat)
    requires i < |ChangesFor(nodes, document, Literal(replaceExpression))|
    ensures ChangesFor(nodes, document, Literal(replaceExpression))[i].newText == replaceExpression
  {
  }

  /** A document that owns no element keeps its text exactly. */
  lemma UntouchedDocumentKept(solution: Solution, nodes: seq<SyntaxNodeOrToken>, computeReplacement: SyntaxNodeOrToken -> string, d: DocumentId)
    requires SpansFit(solution, nodes) && d in solution
    requires forall i :: 0 <= i < |nodes| ==> nodes[i].Document() != d
    ensures Replaced(solution, nodes, computeReplacement)[d] == solution[d]
  {
    if d in GroupKeys(nodes, DocumentOf) {
      GroupKeysSound(nodes, DocumentOf, d);
      assert false;
    }
    GroupOfAbsentKey(nodes, DocumentOf, d);
    assert ChangesFor(nodes, d, computeReplacement) == [];
  }

  /** Replacing no elements gives back the same solution. */
  lemma NothingToReplace(solution: Solution, computeReplacement: SyntaxNodeOrToken -> string)
    ensures SpansFit(solution, [])
    ensures Replaced(solution, [], computeReplacement) == solution
  {
    forall d | d in solution ensures Replaced(solution, [], computeReplacement)[d] == solution[d] {
      UntouchedDocumentKept(solution, [], computeReplacement, d);
    }
  }

  /** When only `nodes[i]` belongs to its document, that document's group is just that element. */
  lemma OnlyElementOfDocument(nodes: seq<SyntaxNodeOrToken>, i: nat)
    requires i < |nodes|
    requires forall j :: 0 <= j < |nodes| && j != i ==> nodes[j].Document() != nodes[i].Document()
    ensures ElementsOf(nodes, nodes[i].Document()) == [nodes[i]]
  {
    assert forall j :: 0 <= j < |nodes| ==> DocumentOf(nodes[j]) == nodes[j].Document();
    GroupOfSingle(nodes, DocumentOf, i);
  }

  /**
   * One element in a document: its new text is the original text before the
   * span, the replacement, and the original text after the span.
   */
  lemma SingleElementSplice(solution: Solution, nodes: seq<SyntaxNodeOrToken>, computeReplacement: SyntaxNodeOrToken -> string, i: nat)
    requires SpansFit(solution, nodes) && i < |nodes| && nodes[i].Document() in solution
    requires forall j :: 0 <= j < |nodes| && j != i ==> nodes[j].Document() != nodes[i].Document()
    ensures var e := nodes[i];
            var text := solution[e.Document()];
            Replaced(solution, nodes, computeReplacement)[e.Document()]
              == text[..e.Start()] + computeReplacement(e) + text[e.End()..]
  {
    var e := nodes[i];
    var d := e.Document();
    OnlyElementOfDocument(nodes, i);
    var c := TextChange(e.Start(), e.Site().length, computeReplacement(e));
    assert ChangesFor(nodes, d, computeReplacement) == [c];
    WithOneChange(solution[d], c);
  }

  /**
   * All elements of one document are resolved against its original text:
   * the replacement for the `k`-th of them starts at that element's original
   * start, shifted only by the growth from the elements before it.
   */
  lemma EachReplacementLandsAt(solution: Solution, nodes: seq<SyntaxNodeOrToken>, computeReplacement: SyntaxNodeOrToken -> string, d: DocumentId, k: nat)
    requires SpansFit(solution, nodes) && d in solution && k < |ElementsOf(nodes, d)|
    ensures var changes := ChangesFor(nodes, d, computeReplacement);
            var e := ElementsOf(nodes, d)[k];
            var t := computeReplacement(e);
            var at := e.Start() + Delta(changes[..k]);
            var r := Replaced(solution, nodes, computeReplacement)[d];
            0 <= at && at + |t| <= |r| && r[at..at + |t|] == t
  {
    ChangesWellFormed(solution, nodes, d, computeReplacement);
    ChangeLandsAt(solution[d], ChangesFor(nodes, d, computeReplacement), k);
  }

  /** Two elements of the same document form its whole group, in order. */
  lemma BothInDocument(a: SyntaxNodeOrToken, b: SyntaxNodeOrToken, d: DocumentId)
    requires a.Document() == d && b.Document() == d
    ensures ElementsOf([a, b], d) == [a, b]
  {
    var p := KeyIs(DocumentOf, d);
    assert DocumentOf(a) == d && DocumentOf(b) == d;
    assert p(a) && p(b);
    assert [a][1..] == [] && [b][1..] == [];
    WhereAppend([a], [b], p);
    assert [a] + [b] == [a, b];
  }

  /** The unit test's document, cut around its two variable declarator names. */
  const TestBefore := "\nclass X\n{\nint "
  const TestBetween := ";\nobject "
  const TestAfter := ";\n}"

  /** Splicing `t` over the two names of `p + n1 + m + n2 + q` keeps `p`, `m` and `q`. */
  lemma SpliceParts(p: string, n1: string, m: string, n2: string, q: string, t: string)
    ensures var code := p + n1 + m + n2 + q;
            var s2 := |p| + |n1| + |m|;
            code[..|p|] + t + code[|p| + |n1|..s2] + t + code[s2 + |n2|..] == p + t + m + t + q
  {
    var code := p + n1 + m + n2 + q;
    var s2 := |p| + |n1| + |m|;
    assert code[..|p|] == p;
    assert code[|p| + |n1|..s2] == m;
    assert code[s2 + |n2|..] == q;
  }

  /** A solution of one document becomes that document with its new text. */
  lemma ReplacedSingleDocument(solution: Solution, nodes: seq<SyntaxNodeOrToken>, computeReplacement: SyntaxNodeOrToken -> string, d: DocumentId)
    requires SpansFit(solution, nodes) && solution.Keys == {d}
    ensures Replaced(solution, nodes, computeReplacement) == map[d := NewText(solution, nodes, computeReplacement, d)]
  {
    var r := Replaced(solution, nodes, computeReplacement);
    assert r.Keys == {d};
  }

  /** The unit test's document and its two variable declarator names. */
  const TestCode := TestBefore + "orgVarName1" + TestBetween + "orgVarName2" + TestAfter
  const TestNodes := [NodeOf(Located(0, 15, 11)), NodeOf(Located(0, 35, 11))]

  /** The unit test's single document after the pass, worked out on its text. */
  lemma RenameTwoDeclaratorsText()
    ensures SpansFit(map[0 := TestCode], TestNodes)
    ensures NewText(map[0 := TestCode], TestNodes, Literal("newName"), 0) == TestBefore + "newName" + TestBetween + "newName" + TestAfter
  {
    var a, b := TestNodes[0], TestNodes[1];
    var solution: Solution := map[0 := TestCode];
    assert |TestBefore| == 15 && |TestBetween| == 9 && |TestCode| == 49;
    assert SpansFit(solution, TestNodes);
    BothInDocument(a, b, 0);
    var c1, c2 := TextChange(15, 11, "newName"), TextChange(35, 11, "newName");
    assert ChangesFor(TestNodes, 0, Literal("newName")) == [c1, c2];
    WithTwoChanges(TestCode, c1, c2);
    SpliceParts(TestBefore, "orgVarName1", TestBetween, "orgVarName2", TestAfter, "newName");
  }

  /**
   * The unit-test scenario: the declarators `orgVarName1` (at 15) and
   * `orgVarName2` (at 35) of one document, both replaced by "newName" in one
   * pass; the second span is resolved against the original text although
   * the first replacement shortened it.
   */
  lemma RenameTwoDeclarators()
    ensures SpansFit(map[0 := TestCode], TestNodes)
    ensures Replaced(map[0 := TestCode], TestNodes, Literal("newName")) == map[0 := TestBefore + "newName" + TestBetween + "newName" + TestAfter]
  {
    RenameTwoDeclaratorsText();
    ReplacedSingleDocument(map[0 := TestCode], TestNodes, Literal("newName"), 0);
  }
}
