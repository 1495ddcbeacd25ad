/**
 * The IntelliFind tool window's sequential logic: the result list it fills,
 * the paging of long results (one "more items" marker per 1000 items, shown
 * until the user clicks it), and single-flight cancellation (every new
 * search, validation or replace cancels the previous one's token).
 *
 * The script engine, the clock and the user are not modelled; they become
 * parameters: `runScript` stands for evaluating the search expression,
 * `cancelAt` for the item at which the search's token is first seen
 * cancelled, `resumes` for the number of "more items" clicks the user gives,
 * and `commitSucceeds` for the workspace's optimistic commit.
 */
module IntelliFindControl {
  import opened Wrappers
  import opened Syntax
  import opened RoslynHelpers
  import opened ReplaceHelpers
  import opened Queries

  /** How many items a page holds before the next page must be requested. */
  const PageSize: nat := 1000

  /** A compiler diagnostic reported for the script. */
  datatype Diagnostic = Diagnostic(id: string, message: string)

  /** The exceptions the handlers catch and show. */
  datatype Exception =
    | OperationCanceledException
    | NullReferenceException
    | Thrown(message: string)

  /** What evaluating the search expression gives: a value, compilation errors, or an exception. */
  datatype ScriptRun =
    | Returned(value: Obj)
    | CompilationErrors(diagnostics: seq<Diagnostic>)
    | Threw(exception: Exception)

  /** An entry of the results list view. */
  datatype ListItem =
    | SyntaxItem(nodeOrToken: SyntaxNodeOrToken)  // a `SyntaxNodeOrTokenListItem`
    | ObjectItem(value: Obj)                      // any other object, shown by `ToString`
    | MoreItems(pageLimit: nat)                   // "More than {pageLimit} items found, click to fetch more"
    | ItemsFound(count: nat)                      // "{count} items found."
    | DiagnosticItem(diagnostic: Diagnostic)
    | ExceptionItem(exception: Exception)
    | UnableToUpdateSolution                      // "Unable to update solution, maybe it was updated during replace action?"

  /** A sequence of objects as the script's enumerator yields it: `items`, then the end or the exception `fault`. */
  datatype Enumeration = Enumeration(items: seq<Obj>, fault: Option<string>)

  /** How `DisplayResultAsync` ends. */
  datatype Outcome =
    | Completed            // the enumeration ended and the count was shown
    | Cancelled            // `ThrowIfCancellationRequested` threw
    | Faulted(message: string)  // the script's enumerator threw
    | AwaitingPageRequest  // a "more items" marker is waiting for a click that does not come

  /** The search box: its text and its selection `[selectionStart, selectionStart + selectionLength)`. */
  datatype TextBox = TextBox(text: string, selectionStart: nat, selectionLength: nat) {
    ghost predicate Valid() {
      selectionStart + selectionLength <= |text|
    }
  }

  /** `SearchExpression`: the selected text in "manual selected" mode, the whole text otherwise. */
  function SearchExpression(manualSelectedMode: bool, input: TextBox): (r: string)
    requires input.Valid()
    ensures |r| <= |input.text|
    ensures manualSelectedMode ==> r == input.text[input.selectionStart..input.selectionStart + input.selectionLength]
    ensures !manualSelectedMode ==> r == input.text
  {
    if manualSelectedMode then input.text[input.selectionStart..input.selectionStart + input.selectionLength] else input.text
  }

  /**
   * `MakeEnumerable`: an enumerable other than a string is passed on as it
   * is; a string, null or any other value becomes a sequence of itself alone.
   */
  function MakeEnumerable(input: Obj): (r: Enumeration)
    ensures input.Enumerable? ==> r.items == input.items && r.fault == input.fault
    ensures !input.Enumerable? ==> r.items == [input] && r.fault.None?
  {
    if input.Enumerable? then Enumeration(input.items, input.fault) else Enumeration([input], None)
  }

  /** A string is shown as one item, not character by character. */
  lemma StringIsOneItem(s: string)
    ensures MakeEnumerable(Str(s)).items == [Str(s)]
  {
  }

  /**
   * Replacing from a script result: a single syntax value is replaced on its
   * own, anything that is neither syntax nor an enumerable replaces nothing.
   */
  lemma ReplaceTargetsOfSingleValue(v: Obj)
    requires !v.Enumerable?
    ensures IsSyntax(v) ==> GetSyntaxNodesAndTokens(MakeEnumerable(v).items) == [AsSyntaxNodeOrToken(v).value]
    ensures !IsSyntax(v) ==> GetSyntaxNodesAndTokens(MakeEnumerable(v).items) == []
  {
    GetSyntaxNodesAndTokensSingle(v);
  }

  /** `CreateListViewItem`: a syntax node or token gets its own list item, anything else is shown as text. */
  function CreateListViewItem(item: Obj): (r: ListItem)
    ensures IsSyntax(item) <==> r.SyntaxItem?
    ensures r.SyntaxItem? ==> Some(r.nodeOrToken) == AsSyntaxNodeOrToken(item)
    ensures r.ObjectItem? ==> r.value == item
  {
    match AsSyntaxNodeOrToken(item)
    case Some(n) => SyntaxItem(n)
    case None => ObjectItem(item)
  }

  /** The list items of some script results, one per result, in order. */
  function Entries(items: seq<Obj>): (r: seq<ListItem>)
    ensures |r| == |items|
    ensures forall i :: 0 <= i < |items| ==> r[i] == CreateListViewItem(items[i])
  {
    seq(|items|, i requires 0 <= i < |items| => CreateListViewItem(items[i]))
  }

  /** Result entries are never markers, counts or messages. */
  lemma EntriesAreResults(items: seq<Obj>, i: nat)
    requires i < |Entries(items)|
    ensures Entries(items)[i].SyntaxItem? || Entries(items)[i].ObjectItem?
  {
  }

  /** The list items of some diagnostics, one per diagnostic, in order. */
  function DiagnosticItems(diagnostics: seq<Diagnostic>): (r: seq<ListItem>)
    ensures |r| == |diagnostics|
    ensures forall i :: 0 <= i < |r| ==> r[i] == DiagnosticItem(diagnostics[i])
  {
    seq(|diagnostics|, i requires 0 <= i < |diagnostics| => DiagnosticItem(diagnostics[i]))
  }

  /** Clicking the marker that was just shown takes the list back to what it was before. */
  lemma {:induction false} RemoveJustAdded(s: seq<ListItem>, x: ListItem)
    requires x !in s
    ensures RemoveFirst(s + [x], x) == s
  {
    if s != [] {
      assert (s + [x])[1..] == s[1..] + [x];
      RemoveJustAdded(s[1..], x);
    }
  }

  /**
   * How many pages have been requested, and granted, by the time `n` items
   * have been counted: the `n`-th item needs a new page when `n - 1` is a
   * positive multiple of the page size.
   */
  function Pauses(n: nat): (r: nat)
    ensures n == 0 ==> r == 0
    ensures n > 0 ==> r * PageSize < n <= (r + 1) * PageSize
  {
    if n == 0 then 0 else (n - 1) / PageSize
  }

  /** `a / PageSize` is `q` exactly when `a` lies in the `q`-th block of `PageSize` numbers. */
  lemma DivisionByPageSize(a: nat, q: nat)
    requires PageSize * q <= a < PageSize * q + PageSize
    ensures a / PageSize == q
  {
  }

  /** Counting one more item needs one more page exactly when it passes the current page limit. */
  lemma PausesStep(n: nat)
    ensures Pauses(n + 1) == Pauses(n) + (if n + 1 > PageSize * (Pauses(n) + 1) then 1 else 0)
  {
    if n > 0 {
      var q := (n - 1) / PageSize;
      assert PageSize * q <= n - 1 < PageSize * q + PageSize;
      if n + 1 > PageSize * (q + 1) {
        DivisionByPageSize(n, q + 1);
      } else {
        DivisionByPageSize(n, q);
      }
    }
  }

  /** The item before which the page request that the user does not grant is shown: the first one past `resumes + 1` pages. */
  function PauseAt(resumes: nat): nat {
    PageSize * (resumes + 1)
  }

  /** `n` items fit in the granted pages exactly when no more than `resumes` page requests are needed for them. */
  lemma PagesSuffice(n: nat, resumes: nat)
    ensures n <= PauseAt(resumes) <==> Pauses(n) <= resumes
  {
    if n > 0 {
      var q := (n - 1) / PageSize;
      assert PageSize * q <= n - 1 < PageSize * q + PageSize;
      if q <= resumes {
        assert n - 1 < PageSize * (resumes + 1);
      } else {
        assert PageSize * (resumes + 1) <= PageSize * q;
      }
    }
  }

  /** The number of items that are shown: the display stops at the end, at cancellation, or at an ungranted page request. */
  function Shown(e: Enumeration, cancelAt: nat, resumes: nat): (k: nat)
    ensures k <= |e.items| && k <= cancelAt && k <= PauseAt(resumes)
    ensures k == |e.items| || k == cancelAt || k == PauseAt(resumes)
  {
    var n := |e.items|;
    if n <= cancelAt && n <= PauseAt(resumes) then n
    else if cancelAt <= PauseAt(resumes) then cancelAt
    else PauseAt(resumes)
  }

  /**
   * How `DisplayResultAsync` ends. Cancellation is checked before an item is
   * counted, and counting comes before the page check, so at the same item
   * cancellation wins; running out of items wins over both.
   */
  function DisplayOutcome(e: Enumeration, cancelAt: nat, resumes: nat): (r: Outcome)
    ensures r.Completed? || r.Faulted? <==> Shown(e, cancelAt, resumes) == |e.items|
    ensures r.Faulted? <==> Shown(e, cancelAt, resumes) == |e.items| && e.fault.Some?
    ensures r.Cancelled? ==> Shown(e, cancelAt, resumes) == cancelAt < |e.items|
    ensures r.AwaitingPageRequest? ==> Shown(e, cancelAt, resumes) == PauseAt(resumes) < |e.items| && PauseAt(resumes) < cancelAt
  {
    var n := |e.items|;
    if n <= cancelAt && n <= PauseAt(resumes) then
      (if e.fault.Some? then Faulted(e.fault.value) else Completed)
    else if cancelAt <= PauseAt(resumes) then Cancelled
    else AwaitingPageRequest
  }

  /**
   * The list `DisplayResultAsync` leaves behind: an entry for each item shown,
   * then the count if the enumeration ended normally, or the marker still
   * waiting for its click.
   */
  function DisplayedRecords(e: Enumeration, cancelAt: nat, resumes: nat): (r: seq<ListItem>)
    ensures Shown(e, cancelAt, resumes) <= |r| <= Shown(e, cancelAt, resumes) + 1
    ensures r[..Shown(e, cancelAt, resumes)] == Entries(e.items[..Shown(e, cancelAt, resumes)])
    ensures |r| == Shown(e, cancelAt, resumes) + 1 <==> DisplayOutcome(e, cancelAt, resumes) in {Completed, AwaitingPageRequest}
  {
    var shown := Entries(e.items[..Shown(e, cancelAt, resumes)]);
    match DisplayOutcome(e, cancelAt, resumes)
    case Completed => shown + [ItemsFound(|e.items|)]
    case AwaitingPageRequest => shown + [MoreItems(PauseAt(resumes))]
    case _ => shown
  }

  /** The list the search leaves behind, including what its exception handlers add. */
  function SearchRecords(run: ScriptRun, cancelAt: nat, resumes: nat): (r: seq<ListItem>)
    ensures run.Returned? ==> DisplayedRecords(MakeEnumerable(run.value), cancelAt, resumes) <= r
    ensures run.Returned? ==>
              var outcome := DisplayOutcome(MakeEnumerable(run.value), cancelAt, resumes);
              |r| == |DisplayedRecords(MakeEnumerable(run.value), cancelAt, resumes)| + (if outcome.Cancelled? || outcome.Faulted? then 1 else 0)
    ensures run.Returned? && DisplayOutcome(MakeEnumerable(run.value), cancelAt, resumes).Faulted? ==>
              r == DisplayedRecords(MakeEnumerable(run.value), cancelAt, resumes)
                   + [ExceptionItem(Thrown(DisplayOutcome(MakeEnumerable(run.value), cancelAt, resumes).message))]
    ensures run.CompilationErrors? ==> r == DiagnosticItems(run.diagnostics)
    ensures run.Threw? ==> r == [ExceptionItem(run.exception)]
  {
    match run
    case Returned(value) =>
      var e := MakeEnumerable(value);
      DisplayedRecords(e, cancelAt, resumes) +
        (match DisplayOutcome(e, cancelAt, resumes)
         case Cancelled => [ExceptionItem(OperationCanceledException)]
         case Faulted(message) => [ExceptionItem(Thrown(message))]
         case _ => [])
    case CompilationErrors(diagnostics) => DiagnosticItems(diagnostics)
    case Threw(exception) => [ExceptionItem(exception)]
  }

  /** Adding the next item's entry extends the entries of the items before it. */
  lemma EntriesStep(items: seq<Obj>, k: nat)
    requires k < |items|
    ensures Entries(items[..k + 1]) == Entries(items[..k]) + [CreateListViewItem(items[k])]
  {
  }

  /** The display stops at item `k` because cancellation is seen there first. */
  lemma StopsAtCancellation(e: Enumeration, cancelAt: nat, resumes: nat)
    requires cancelAt < |e.items| && cancelAt <= PauseAt(resumes)
    ensures Shown(e, cancelAt, resumes) == cancelAt
    ensures DisplayOutcome(e, cancelAt, resumes) == Cancelled
    ensures DisplayedRecords(e, cancelAt, resumes) == Entries(e.items[..cancelAt])
  {
  }

  /** The display stops before item `PauseAt(resumes)` because its page is never granted. */
  lemma StopsAtPageRequest(e: Enumeration, cancelAt: nat, resumes: nat)
    requires PauseAt(resumes) < |e.items| && PauseAt(resumes) < cancelAt
    ensures Shown(e, cancelAt, resumes) == PauseAt(resumes)
    ensures DisplayOutcome(e, cancelAt, resumes) == AwaitingPageRequest
    ensures DisplayedRecords(e, cancelAt, resumes) == Entries(e.items[..PauseAt(resumes)]) + [MoreItems(PauseAt(resumes))]
  {
  }

  /** The display runs to the end of the items. */
  lemma StopsAtEnd(e: Enumeration, cancelAt: nat, resumes: nat)
    requires |e.items| <= cancelAt && |e.items| <= PauseAt(resumes)
    ensures Shown(e, cancelAt, resumes) == |e.items|
    ensures e.fault.Some? ==> DisplayOutcome(e, cancelAt, resumes) == Faulted(e.fault.value)
    ensures e.fault.Some? ==> DisplayedRecords(e, cancelAt, resumes) == Entries(e.items)
    ensures e.fault.None? ==> DisplayOutcome(e, cancelAt, resumes) == Completed
    ensures e.fault.None? ==> DisplayedRecords(e, cancelAt, resumes) == Entries(e.items) + [ItemsFound(|e.items|)]
  {
    assert e.items[..|e.items|] == e.items;
  }

  /**
   * A search that is neither cancelled nor held at a page and whose items end
   * normally shows one entry per item, in order, and then their count. Along
   * the way it shows and removes `(n - 1) / PageSize` "more items" markers for
   * `n >= 1` items: the page count `DisplayResultAsync` reports.
   */
  lemma CompletedSearchShowsEveryItem(value: Obj, cancelAt: nat, resumes: nat)
    requires var e := MakeEnumerable(value);
             e.fault.None? && |e.items| <= cancelAt && Pauses(|e.items|) <= resumes
    ensures var e := MakeEnumerable(value);
            var r := SearchRecords(Returned(value), cancelAt, resumes);
            && |r| == |e.items| + 1
            && (forall i :: 0 <= i < |e.items| ==> r[i] == CreateListViewItem(e.items[i]))
            && r[|e.items|] == ItemsFound(|e.items|)
    ensures var e := MakeEnumerable(value);
            1 <= |e.items| ==> Pauses(Shown(e, cancelAt, resumes)) == (|e.items| - 1) / PageSize
  {
    var e := MakeEnumerable(value);
    PagesSuffice(|e.items|, resumes);
    assert e.items[..|e.items|] == e.items;
  }

  /**
   * Once cancellation is seen, no further item and no count is shown: the
   * items before it are followed by the cancellation exception alone.
   */
  lemma CancelledSearchStopsAtCancellation(value: Obj, cancelAt: nat, resumes: nat)
    requires var e := MakeEnumerable(value);
             cancelAt < |e.items| && cancelAt <= PauseAt(resumes)
    ensures var e := MakeEnumerable(value);
            SearchRecords(Returned(value), cancelAt, resumes) == Entries(e.items[..cancelAt]) + [ExceptionItem(OperationCanceledException)]
  {
  }

  /** A cancelled or faulted search never shows an item count. */
  lemma NoCountUnlessCompleted(value: Obj, cancelAt: nat, resumes: nat, i: nat)
    requires var e := MakeEnumerable(value);
             DisplayOutcome(e, cancelAt, resumes) != Completed
    requires i < |SearchRecords(Returned(value), cancelAt, resumes)|
    ensures !SearchRecords(Returned(value), cancelAt, resumes)[i].ItemsFound?
  {
    var e := MakeEnumerable(value);
    var shown := Entries(e.items[..Shown(e, cancelAt, resumes)]);
    if i < |shown| {
      EntriesAreResults(e.items[..Shown(e, cancelAt, resumes)], i);
    }
  }

  /**
   * When the user stops requesting pages, exactly `PageSize * (resumes + 1)`
   * items are shown, followed by the marker for that page limit.
   */
  lemma UngrantedPageHoldsTheSearch(value: Obj, cancelAt: nat, resumes: nat)
    requires var e := MakeEnumerable(value);
             resumes < Pauses(|e.items|) && PauseAt(resumes) < cancelAt
    ensures var e := MakeEnumerable(value);
            SearchRecords(Returned(value), cancelAt, resumes)
              == Entries(e.items[..PageSize * (resumes + 1)]) + [MoreItems(PageSize * (resumes + 1))]
  {
    var e := MakeEnumerable(value);
    PagesSuffice(|e.items|, resumes);
  }

  /** Why `Replace` gives no solution: the script does not compile, or something throws. */
  datatype ReplaceFailure =
    | NotCompiled(diagnostics: seq<Diagnostic>)
    | Raised(exception: Exception)

  /** The elements a replace works on: the syntax nodes and tokens among the script's results. */
  function ReplaceTargets(value: Obj): (r: seq<SyntaxNodeOrToken>)
    ensures |r| <= |MakeEnumerable(value).items|
  {
    GetSyntaxNodesAndTokens(MakeEnumerable(value).items)
  }

  /**
   * What `Replace` gives for a script run against the current solution: the
   * solution with every target replaced by the literal, or why there is none
   * (enumerating the results throws, or a target lies outside the solution).
   */
  ghost function ReplaceResult(run: ScriptRun, current: Solution, replaceExpression: string): (r: Result<Solution, ReplaceFailure>)
    requires run.Returned? ==> SpansFit(current, ReplaceTargets(run.value))
    ensures r.Success? ==> run.Returned? && MakeEnumerable(run.value).fault.None? && r.value.Keys == current.Keys
    ensures r.Failure? && r.error.NotCompiled? ==> run.CompilationErrors?
  {
    match run
    case Returned(value) =>
      var e := MakeEnumerable(value);
      if e.fault.Some? then Failure(Raised(Thrown(e.fault.value)))
      else if !AllInSolution(current, ReplaceTargets(value)) then Failure(Raised(NullReferenceException))
      else Success(Replaced(current, ReplaceTargets(value), Literal(replaceExpression)))
    case CompilationErrors(diagnostics) => Failure(NotCompiled(diagnostics))
    case Threw(exception) => Failure(Raised(exception))
  }

  /** `Replace`: runs the script, collects its syntax results and replaces them all by the literal. */
  method Replace(run: ScriptRun, currentSolution: Solution, replaceExpression: string) returns (r: Result<Solution, ReplaceFailure>)
    requires run.Returned? ==> SpansFit(currentSolution, ReplaceTargets(run.value))
    ensures r == ReplaceResult(run, currentSolution, replaceExpression)
  {
    match run {
      case Returned(value) =>
        var e := MakeEnumerable(value);
        if e.fault.Some? {
          // enumerating the script's results throws
          return Failure(Raised(Thrown(e.fault.value)));
        }
        var nodesAndTokens := GetSyntaxNodesAndTokens(e.items);
        var solution := ReplaceNodesWithLiteral(currentSolution, nodesAndTokens, replaceExpression);
        match solution {
          case Success(newSolution) =>
            r := Success(newSolution);
          case Failure(_) =>
            r := Failure(Raised(NullReferenceException));
        }
      case CompilationErrors(diagnostics) =>
        r := Failure(NotCompiled(diagnostics));
      case Threw(exception) =>
        r := Failure(Raised(exception));
    }
  }

  /**
   * A script whose results enumerate without error gives a solution exactly
   * when each of its syntax results lies in a document of the solution; that
   * solution has the same documents.
   */
  lemma ReplaceSucceedsWhenTargetsInSolution(value: Obj, current: Solution, replaceExpression: string)
    requires MakeEnumerable(value).fault.None? && SpansFit(current, ReplaceTargets(value))
    ensures ReplaceResult(Returned(value), current, replaceExpression).Success? <==> AllInSolution(current, ReplaceTargets(value))
    ensures ReplaceResult(Returned(value), current, replaceExpression).Success? ==>
              ReplaceResult(Returned(value), current, replaceExpression).value.Keys == current.Keys
  {
  }

  /** A successful replace gives no document a change it does not own: a document without targets keeps its text. */
  lemma ReplaceKeepsUntargetedDocument(value: Obj, current: Solution, replaceExpression: string, d: DocumentId)
    requires MakeEnumerable(value).fault.None? && SpansFit(current, ReplaceTargets(value))
    requires d in current && forall i :: 0 <= i < |ReplaceTargets(value)| ==> ReplaceTargets(value)[i].Document() != d
    ensures ReplaceResult(Returned(value), current, replaceExpression).Success? ==>
              var s := ReplaceResult(Returned(value), current, replaceExpression).value;
              d in s && s[d] == current[d]
  {
    UntouchedDocumentKept(current, ReplaceTargets(value), Literal(replaceExpression), d);
  }

  /** A token source; its token is the source seen from the operation it guards. */
  class CancellationTokenSource {
    var isCancellationRequested: bool

    constructor()
      ensures !isCancellationRequested
    {
      isCancellationRequested := false;
    }

    method Cancel()
      modifies this
      ensures isCancellationRequested
    {
      isCancellationRequested := true;
    }
  }

  /** The tool window's control. */
  class IntelliFindControl {
    /** `ListViewResults.Items` */
    var results: seq<ListItem>
    /** `_cancellationTokenSource`: the source of the operation started last, if any */
    var cancellationTokenSource: CancellationTokenSource?
    /** Every source the control has installed, oldest first. */
    ghost var issued: seq<CancellationTokenSource>
    /** `TextBoxInput` */
    var input: TextBox
    /** `ManualSelectedMode.IsSelected` */
    var manualSelectedMode: bool
    /** The Visual Studio workspace's current solution. */
    var workspace: Solution

    /**
     * Single flight: the installed source is the last one issued, and every
     * source issued before it has been cancelled.
     */
    ghost predicate Valid()
      reads this, issued
    {
      && input.Valid()
      && (cancellationTokenSource == null <==> issued == [])
      && (issued != [] ==> cancellationTokenSource == issued[|issued| - 1])
      && (forall i :: 0 <= i < |issued| - 1 ==> issued[i].isCancellationRequested)
    }

    /** At most one issued source is still live, and it is the installed one. */
    lemma AtMostOneLiveSource(s: CancellationTokenSource)
      requires Valid() && s in issued && !s.isCancellationRequested
      ensures s == cancellationTokenSource
    {
      var i :| 0 <= i < |issued| && issued[i] == s;
    }

    constructor(input: TextBox, manualSelectedMode: bool, workspace: Solution)
      requires input.Valid()
      ensures Valid() && fresh(this)
      ensures results == [] && cancellationTokenSource == null
      ensures this.input == input && this.manualSelectedMode == manualSelectedMode && this.workspace == workspace
    {
      results := [];
      cancellationTokenSource := null;
      issued := [];
      this.input := input;
      this.manualSelectedMode := manualSelectedMode;
      this.workspace := workspace;
    }

    /** `CancelButton_OnClick`: cancels the current operation; with no operation ever started, it dereferences null. */
    method CancelButtonClick() returns (r: Option<Exception>)
      requires Valid()
      modifies cancellationTokenSource
      ensures Valid()
      ensures r.Some? <==> cancellationTokenSource == null
      ensures r.Some? ==> r.value == NullReferenceException
      ensures cancellationTokenSource != null ==> cancellationTokenSource.isCancellationRequested
    {
      if cancellationTokenSource == null {
        return Some(NullReferenceException);
      }
      cancellationTokenSource.Cancel();
      r := None;
    }

    /**
     * `ResetCancellationToken`: cancels the previous operation, if any, and
     * installs and returns a fresh, uncancelled token for the next one.
     */
    method ResetCancellationToken() returns (token: CancellationTokenSource)
      requires Valid()
      modifies this`cancellationTokenSource, this`issued, cancellationTokenSource
      ensures Valid()
      ensures fresh(token) && !token.isCancellationRequested
      ensures cancellationTokenSource == token && issued == old(issued) + [token]
      ensures old(cancellationTokenSource) != null ==> old(cancellationTokenSource).isCancellationRequested
    {
      if cancellationTokenSource != null {
        cancellationTokenSource.Cancel();
      }
      var newSource := new CancellationTokenSource();
      cancellationTokenSource := newSource;
      issued := issued + [newSource];
      token := newSource;
    }

    /** `DisplayDiagnostics`: the list is replaced by one entry per diagnostic. */
    method DisplayDiagnostics(diagnostics: seq<Diagnostic>)
      modifies this`results
      ensures results == DiagnosticItems(diagnostics)
    {
      results := [];
      for i := 0 to |diagnostics|
        invariant results == DiagnosticItems(diagnostics[..i])
      {
        results := results + [DiagnosticItem(diagnostics[i])];
      }
      assert diagnostics[..|diagnostics|] == diagnostics;
    }

    /**
     * `ValidateScript`, up to its wait for the diagnostics: a new token
     * supersedes the previous operation's, and the script is the current
     * search expression.
     */
    method ValidateScript() returns (token: CancellationTokenSource, code: string)
      requires Valid()
      modifies this`cancellationTokenSource, this`issued, cancellationTokenSource
      ensures Valid()
      ensures fresh(token) && !token.isCancellationRequested
      ensures cancellationTokenSource == token && issued == old(issued) + [token]
      ensures old(cancellationTokenSource) != null ==> old(cancellationTokenSource).isCancellationRequested
      ensures code == SearchExpression(manualSelectedMode, input)
    {
      token := ResetCancellationToken();
      code := SearchExpression(manualSelectedMode, input);
    }

    /**
     * `ValidateScript`, after the wait: the diagnostics are shown only if the
     * validation was not cancelled meanwhile (`None` stands for an
     * `OperationCanceledException`, which is swallowed).
     */
    method OnDiagnosticsReady(token: CancellationTokenSource, diagnostics: Option<seq<Diagnostic>>)
      modifies this`results
      ensures diagnostics.Some? && !token.isCancellationRequested ==> results == DiagnosticItems(diagnostics.value)
      ensures diagnostics.None? || token.isCancellationRequested ==> results == old(results)
    {
      if diagnostics.None? || token.isCancellationRequested {
        return;
      }
      DisplayDiagnostics(diagnostics.value);
    }

    /**
     * Two validations in a row, the first one's diagnostics arriving last:
     * only the second one's diagnostics are shown.
     */
    method SupersededValidationShowsNothing(first: seq<Diagnostic>, second: seq<Diagnostic>)
      requires Valid()
      modifies this`results, this`cancellationTokenSource, this`issued, cancellationTokenSource
      ensures Valid()
      ensures results == DiagnosticItems(second)
    {
      var t1, _ := ValidateScript();
      var t2, _ := ValidateScript();
      OnDiagnosticsReady(t2, Some(second));
      OnDiagnosticsReady(t1, Some(first));
    }

    /** `WaitForNextPageRequest`: the marker for `pageLimit` is added to the list. */
    method WaitForNextPageRequest(pageLimit: nat)
      modifies this`results
      ensures results == old(results) + [MoreItems(pageLimit)]
    {
      results := results + [MoreItems(pageLimit)];
    }

    /** The marker's click handler: the marker is taken out of the list. */
    method OnMoreItemsClicked(pageLimit: nat)
      modifies this`results
      ensures results == RemoveFirst(old(results), MoreItems(pageLimit))
    {
      results := RemoveFirst(results, MoreItems(pageLimit));
    }

    /**
     * `DisplayResultAsync`: one entry per item in enumeration order, a marker
     * each time the count passes the page limit (the limit grows by a page
     * per click), and the count at the end. `pages` is how many markers were
     * shown and clicked.
     */
    method DisplayResultAsync(scriptResult: Obj, cancelAt: nat, resumes: nat) returns (outcome: Outcome, pages: nat)
      modifies this`results
      ensures var e := MakeEnumerable(scriptResult);
              && outcome == DisplayOutcome(e, cancelAt, resumes)
              && results == DisplayedRecords(e, cancelAt, resumes)
              && pages == Pauses(Shown(e, cancelAt, resumes))
    {
      results := [];
      var count := 0;
      var pageLimit := PageSize;
      var e := MakeEnumerable(scriptResult);
      pages := 0;
      while count < |e.items|
        invariant count <= |e.items| && count <= cancelAt
        invariant pages == Pauses(count) && pages <= resumes
        invariant pageLimit == PageSize * (pages + 1) && count <= pageLimit
        invariant results == Entries(e.items[..count])
      {
        if cancelAt <= count {
          // ThrowIfCancellationRequested
          StopsAtCancellation(e, cancelAt, resumes);
          return Cancelled, pages;
        }
        PausesStep(count);
        EntriesStep(e.items, count);
        var item := e.items[count];
        count := count + 1;
        if count > pageLimit {
          WaitForNextPageRequest(pageLimit);
          if pages == resumes {
            StopsAtPageRequest(e, cancelAt, resumes);
            return AwaitingPageRequest, pages;
          }
          RemoveJustAdded(results[..|results| - 1], MoreItems(pageLimit));
          OnMoreItemsClicked(pageLimit);
          pages := pages + 1;
          pageLimit := pageLimit + PageSize;
        }
        results := results + [CreateListViewItem(item)];
      }
      StopsAtEnd(e, cancelAt, resumes);
      if e.fault.Some? {
        return Faulted(e.fault.value), pages;
      }
      results := results + [ItemsFound(count)];
      outcome := Completed;
    }

    /**
     * `ExecuteSearch`: the list is cleared, the previous operation cancelled,
     * and the search expression run and its outcome shown.
     */
    method ExecuteSearch(runScript: string -> ScriptRun, cancelAt: nat, resumes: nat) returns (token: CancellationTokenSource)
      requires Valid()
      modifies this`results, this`cancellationTokenSource, this`issued, cancellationTokenSource
      ensures Valid()
      ensures fresh(token) && cancellationTokenSource == token && issued == old(issued) + [token]
      ensures old(cancellationTokenSource) != null ==> old(cancellationTokenSource).isCancellationRequested
      ensures results == SearchRecords(runScript(SearchExpression(manualSelectedMode, input)), cancelAt, resumes)
    {
      results := [];
      token := ResetCancellationToken();
      var searchExpression := SearchExpression(manualSelectedMode, input);
      ShowSearchOutcome(runScript(searchExpression), cancelAt, resumes);
    }

    /**
     * The `try` block of `ExecuteSearch`, on the cleared list: the script's result is displayed,
     * compilation errors are shown instead, and any exception, cancellation
     * included, is shown as an entry of its own.
     */
    method ShowSearchOutcome(run: ScriptRun, cancelAt: nat, resumes: nat)
      requires results == []
      modifies this`results
      ensures results == SearchRecords(run, cancelAt, resumes)
    {
      match run {
        case Returned(value) =>
          var outcome, _ := DisplayResultAsync(value, cancelAt, resumes);
          match outcome {
            case Cancelled =>
              results := results + [ExceptionItem(OperationCanceledException)];
            case Faulted(message) =>
              results := results + [ExceptionItem(Thrown(message))];
            case _ =>
          }
        case CompilationErrors(diagnostics) =>
          DisplayDiagnostics(diagnostics);
        case Threw(exception) =>
          results := results + [ExceptionItem(exception)];
      }
    }

    /**
     * `ReplaceButton_Click`: the previous operation is cancelled, a new
     * solution is made from the workspace's current one by `Replace`, and
     * committed. Only a failed commit adds the "unable to update" entry;
     * failures are shown as in a search, but the list is not cleared first.
     */
    method ReplaceButtonClick(runScript: string -> ScriptRun, replaceExpression: string, commitSucceeds: bool) returns (token: CancellationTokenSource)
      requires Valid()
      requires var run := runScript(SearchExpression(manualSelectedMode, input));
               run.Returned? ==> SpansFit(workspace, ReplaceTargets(run.value))
      modifies this`results, this`cancellationTokenSource, this`issued, cancellationTokenSource, this`workspace
      ensures Valid()
      ensures fresh(token) && cancellationTokenSource == token && issued == old(issued) + [token]
      ensures old(cancellationTokenSource) != null ==> old(cancellationTokenSource).isCancellationRequested
      ensures match ReplaceResult(runScript(SearchExpression(manualSelectedMode, input)), old(workspace), replaceExpression)
              case Success(solution) =>
                if commitSucceeds then workspace == solution && results == old(results)
                else workspace == old(workspace) && results == old(results) + [UnableToUpdateSolution]
              case Failure(NotCompiled(diagnostics)) =>
                workspace == old(workspace) && results == DiagnosticItems(diagnostics)
              case Failure(Raised(exception)) =>
                workspace == old(workspace) && results == old(results) + [ExceptionItem(exception)]
    {
      token := ResetCancellationToken();
      var searchExpression := SearchExpression(manualSelectedMode, input);
      var solution := Replace(runScript(searchExpression), workspace, replaceExpression);
      match solution {
        case Success(newSolution) =>
          // TryApplyChanges
          if commitSucceeds {
            workspace := newSolution;
          } else {
            results := results + [UnableToUpdateSolution];
          }
        case Failure(NotCompiled(diagnostics)) =>
          DisplayDiagnostics(diagnostics);
        case Failure(Raised(exception)) =>
          results := results + [ExceptionItem(exception)];
      }
    }
  }
}
