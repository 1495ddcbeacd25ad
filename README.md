# IntelliFind, modelled in Dafny

IntelliFind is a Visual Studio tool window. It runs a C# script against the
open solution and lists the syntax nodes and tokens the script returns. It
can also replace all of them by a literal text in one step. This project
models the tool's sequential core and proves properties of it:

- **Batch replace** (`ReplaceHelpers`, with `SourceText` for Roslyn's
  `SourceText.WithChanges`):
  - the matched elements are grouped by the document that owns them;
  - each document receives all of its changes in one multi-span edit, measured
    against its original text;
  - the new texts are folded, one document at a time, into a new solution.

  The fold is a method with a loop, proved equal to a functional description
  `Replaced`. The properties of the edit are proved about `WithChanges`:
  - each replacement lands where its span was;
  - text outside the spans survives, in order;
  - the edit equals replacing back to front, and differs from replacing front
    to back.
- **The tool window** (`IntelliFindControl`) is a class whose fields are:
  - the result list;
  - the installed cancellation token source;
  - the search box;
  - the workspace's current solution.

  Its methods are the handlers:
  - `DisplayResultAsync` is a loop that adds one entry per item. It pages
    every 1000 items behind a "more items" marker, and ends with the item
    count. It is proved against a closed-form description of the list it
    leaves behind.
  - `ResetCancellationToken` keeps single flight: every source except the
    installed one is cancelled.
  - `ValidateScript` shows diagnostics only for an uncancelled validation.
  - `ExecuteSearch` shows the results, or the compilation errors, or the
    exception.
  - `ReplaceButton_Click` runs the replace and commits the result.
- **Pure helpers:**
  - `RoslynHelpers`: picking syntax nodes and tokens out of a sequence of
    objects.
  - `SyntaxNodeOrTokenListItem.Truncate`: clipping a node's text to 30
    characters, then deleting CR and LF.
  - `CSharpScript.GetReferencedAssemblies`: one loaded assembly per simple
    name, the lowest version, in first-occurrence order.
  - `RoslynVisxHelpers.GetAbsolutePosition`: a 1-based line plus a character
    offset turned into an absolute position, over a table of line starts.
- **Shared definitions:** `Queries` (LINQ's `Where` and the key order of
  `GroupBy`), `Syntax` (documents, located nodes and tokens, and the objects a
  script may return) and `Wrappers` (`Option`, `Result`).

Some things happen outside the tool and cannot be observed in this
sequential model. They are given to the handlers as parameters:

- `runScript` is the script engine.
- `cancelAt` is the item at which a search's token is first seen cancelled.
- `resumes` is how many "more items" clicks the user gives.
- `commitSucceeds` is the workspace's optimistic commit, `TryApplyChanges`.

Cancellation is not silent in this code. The `OperationCanceledException`
thrown by `ThrowIfCancellationRequested` reaches the generic
`catch (Exception ex)` of `ExecuteSearch`, which adds the exception to the
list. The model does the same: a cancelled search ends with an
`ExceptionItem(OperationCanceledException)` entry. It adds no further items
and no count.

## Model

| member | source | states |
|---|---|---|
| ReplaceHelpers.DocumentOf | IntelliFind/ReplaceHelpers.cs:20 | the grouping key of an element is the document of the tree holding its node or token |
| ReplaceHelpers.Literal | IntelliFind/ReplaceHelpers.cs:15 | the literal overload's replacement function gives every element the same text |
| ReplaceHelpers.ChangesFor | IntelliFind/ReplaceHelpers.cs:28 | one change per element of the document, in element order, each the element's span with its replacement text |
| ReplaceHelpers.ChangesWellFormed | IntelliFind/ReplaceHelpers.cs:28-29 | a document's changes lie inside its text, in order and not overlapping, which is what the multi-span edit needs |
| ReplaceHelpers.NewText | IntelliFind/ReplaceHelpers.cs:25-29 | a document's new text is its original length plus what its changes insert minus what they remove |
| ReplaceHelpers.Replaced | IntelliFind/ReplaceHelpers.cs:22-33 | the new solution has exactly the documents of the old one |
| ReplaceHelpers.PartlyReplacedAt | IntelliFind/ReplaceHelpers.cs:22-31 | after the fold has visited some groups, each visited document carries its new text and every other document still has its original text |
| ReplaceHelpers.PartlyReplacedKeys | IntelliFind/ReplaceHelpers.cs:31 | updating document texts during the fold neither adds nor drops a document |
| ReplaceHelpers.PartlyReplacedStep | IntelliFind/ReplaceHelpers.cs:23-31 | one step of the fold gives the current group's document its new text and changes nothing else |
| ReplaceHelpers.PartlyReplacedComplete | IntelliFind/ReplaceHelpers.cs:20-33 | after the last group the fold has built `Replaced`: documents that own no element keep their text |
| ReplaceHelpers.NoElementKeepsText | IntelliFind/ReplaceHelpers.cs:20-29 | a document that is no grouping key receives no changes, so its new text equals its old text |
| ReplaceHelpers.AllInSolutionByKeys | IntelliFind/ReplaceHelpers.cs:20-25 | every element belongs to a document of the solution exactly when every grouping key is one |
| ReplaceHelpers.MissingDocumentFails | IntelliFind/ReplaceHelpers.cs:20-26 | a grouping key outside the solution means some element lies outside it |
| ReplaceHelpers.FoldComplete | IntelliFind/ReplaceHelpers.cs:20-33 | a fold that visited every key has built `Replaced` and every element lies in the solution |
| ReplaceHelpers.ReplaceNodes | IntelliFind/ReplaceHelpers.cs:18-34 | the fold fails with a null reference exactly when some element's tree is in no document of the solution; otherwise it returns `Replaced` |
| ReplaceHelpers.ReplaceNodesWithLiteral | IntelliFind/ReplaceHelpers.cs:13-16 | the literal overload is the general one with the constant replacement |
| ReplaceHelpers.LiteralReplacesEveryElementAlike | IntelliFind/ReplaceHelpers.cs:13-16 | with the literal overload every change carries the same replacement string |
| ReplaceHelpers.UntouchedDocumentKept | IntelliFind/ReplaceHelpers.cs:20-31 | a document that owns no element keeps its text exactly |
| ReplaceHelpers.NothingToReplace | IntelliFind/ReplaceHelpers.cs:20-33 | replacing no elements gives back the input solution |
| ReplaceHelpers.OnlyElementOfDocument | IntelliFind/ReplaceHelpers.cs:20 | an element alone in its document forms that document's whole group |
| ReplaceHelpers.SingleElementSplice | IntelliFind/ReplaceHelpers.cs:28-30 | one element with span [s, s+len) and replacement t gives the text `orig[..s] + t + orig[s+len..]` |
| ReplaceHelpers.EachReplacementLandsAt | IntelliFind/ReplaceHelpers.cs:26-29 | the k-th element's replacement starts at its original start, shifted only by the growth from the elements before it |
| ReplaceHelpers.BothInDocument | IntelliFind/ReplaceHelpers.cs:20 | two elements of one document form its group, in their order |
| ReplaceHelpers.RenameTwoDeclaratorsText | IntelliFind.Test/ReplaceHelpersTest.cs:14-34 | the unit test's spans fit its document, and that document's new text has both declarator names replaced by `newName` |
| ReplaceHelpers.RenameTwoDeclarators | IntelliFind.Test/ReplaceHelpersTest.cs:14-34 | the unit test's two declarators `orgVarName1` and `orgVarName2` both become `newName` in one pass, and the text between them is kept |
| SourceText.WithChanges | IntelliFind/ReplaceHelpers.cs:29 | the edited text's length is the original length plus inserted minus removed characters |
| SourceText.Replace | IntelliFind/ReplaceHelpers.cs:29 | one change applied on its own: the length changes by inserted minus removed characters |
| SourceText.WithOneChange | IntelliFind/ReplaceHelpers.cs:29 | a single change replaces exactly its span |
| SourceText.WithTwoChanges | IntelliFind/ReplaceHelpers.cs:29 | two changes each replace their own span of the original text, and the text between them is kept |
| SourceText.WithNoChanges | IntelliFind/ReplaceHelpers.cs:29 | no changes leave the text as it is |
| SourceText.WellFormedIffOrdered | IntelliFind/ReplaceHelpers.cs:26-29 | a batch of changes is well formed (each span inside the text, the spans in order and not overlapping) exactly when its recursive description holds, in both directions |
| SourceText.AppendUntouched | IntelliFind/ReplaceHelpers.cs:29 | changes that all lie within a prefix leave whatever follows that prefix untouched, at the end of the edited text |
| SourceText.ChangeLandsAt | IntelliFind/ReplaceHelpers.cs:26-29 | each change's new text appears at its original start shifted by the earlier changes' growth, so every span is resolved against the pre-edit text |
| SourceText.UntouchedTextPreserved | IntelliFind/ReplaceHelpers.cs:29 | every character outside all spans survives, at its position shifted by the earlier changes' growth, so the untouched text keeps its order |
| SourceText.WithChangesIsBackToFront | IntelliFind/ReplaceHelpers.cs:29 | the one-batch edit equals applying the changes one at a time from the last to the first |
| SourceText.FrontToBackDiffers | IntelliFind/ReplaceHelpers.cs:26-29 | applying the changes front to back against the changing text gives a different, wrong result |
| Queries.Where | ScriptWrapper/CSharpScript.cs:30 | the filter keeps only elements that satisfy the predicate, and keeps all of them |
| Queries.WhereNone | IntelliFind/RoslynHelpers.cs:16 | nothing is kept when no element satisfies the predicate |
| Queries.WhereAppend | IntelliFind/RoslynHelpers.cs:16 | the filter distributes over concatenation |
| Queries.WherePreservesOrder | ScriptWrapper/CSharpScript.cs:30 | the filter keeps the relative order of what it keeps |
| Queries.GroupKeys | IntelliFind/ReplaceHelpers.cs:20 | the group keys are distinct, and every element's key is among them |
| Queries.GroupKeysSound | IntelliFind/ReplaceHelpers.cs:20 | every group key is the key of some element, so no group is empty |
| Queries.GroupOf | IntelliFind/ReplaceHelpers.cs:20 | a group holds exactly the elements with its key |
| Queries.GroupOfSingle | IntelliFind/ReplaceHelpers.cs:20 | an element whose key no other element shares forms a group of its own |
| Queries.GroupKeysFirstOccurrenceOrder | ScriptWrapper/CSharpScript.cs:34 | groups come out in order of their key's first occurrence |
| Queries.GroupOfAbsentKey | IntelliFind/ReplaceHelpers.cs:20 | a key no element has has an empty group |
| RoslynHelpers.AsSyntaxNodeOrToken | IntelliFind/RoslynHelpers.cs:20-30 | a node gives a node wrapper, a token a token wrapper, a boxed wrapper itself, and anything else (null included) nothing |
| RoslynHelpers.GetSyntaxNodesAndTokens | IntelliFind/RoslynHelpers.cs:12-18 | the output is no longer than the input, holds only classified items, and holds every item that classifies |
| RoslynHelpers.GetSyntaxNodesAndTokensAppend | IntelliFind/RoslynHelpers.cs:12-18 | filtering a concatenation gives the concatenation of the filtered parts, so items come out in input order |
| RoslynHelpers.GetSyntaxNodesAndTokensSingle | IntelliFind/RoslynHelpers.cs:14-17 | one item gives its wrapper when it classifies, and nothing otherwise |
| RoslynHelpers.NoSyntaxYieldsEmpty | IntelliFind/RoslynHelpers.cs:16 | an input with no syntax item yields nothing |
| RoslynHelpers.AllSyntaxKeepsLength | IntelliFind/RoslynHelpers.cs:14-17 | when every item classifies, one wrapper per item comes out |
| RoslynHelpers.FilterOfBoxed | IntelliFind/RoslynHelpers.cs:29 | boxed wrappers pass through unchanged |
| RoslynHelpers.GetSyntaxNodesAndTokensIdempotent | IntelliFind/RoslynHelpers.cs:12-30 | filtering the filter's own output returns it unchanged |
| SyntaxNodeOrTokenListItem.RemoveAll | IntelliFind/SyntaxNodeOrTokenListItem.cs:30 | `Replace(c, "")` leaves no `c`, adds no character and does not lengthen the text |
| SyntaxNodeOrTokenListItem.Truncate | IntelliFind/SyntaxNodeOrTokenListItem.cs:26-31 | null and empty are returned unchanged; otherwise the result has at most 30 characters and no CR or LF |
| SyntaxNodeOrTokenListItem.RemoveBothIsWithoutLineBreaks | IntelliFind/SyntaxNodeOrTokenListItem.cs:30 | deleting LF and then CR equals the one-pass deletion of both, all other characters kept in order |
| SyntaxNodeOrTokenListItem.WithoutLineBreaksIdentity | IntelliFind/SyntaxNodeOrTokenListItem.cs:30 | a text without line breaks is unchanged by the deletion |
| SyntaxNodeOrTokenListItem.WithoutLineBreaksShorter | IntelliFind/SyntaxNodeOrTokenListItem.cs:30 | a text with a line break gets strictly shorter |
| SyntaxNodeOrTokenListItem.WithoutLineBreaksNoLonger | IntelliFind/SyntaxNodeOrTokenListItem.cs:30 | the deletion never lengthens a text |
| SyntaxNodeOrTokenListItem.TruncateIsPrefixWithoutLineBreaks | IntelliFind/SyntaxNodeOrTokenListItem.cs:30 | the result is the first min(len, 30) characters with CR and LF deleted |
| SyntaxNodeOrTokenListItem.TruncateShortPlainString | IntelliFind/SyntaxNodeOrTokenListItem.cs:28-30 | a text of at most 30 characters without line breaks is returned unchanged |
| SyntaxNodeOrTokenListItem.TruncateCutsBeforeRemoving | IntelliFind/SyntaxNodeOrTokenListItem.cs:30 | cutting comes first, so a line break among the first 30 characters makes the result shorter than 30 |
| CSharpScript.VersionLessIsStrictTotalOrder | ScriptWrapper/CSharpScript.cs:34 | version comparison is irreflexive, transitive and total on different versions |
| CSharpScript.VersionLess | ScriptWrapper/CSharpScript.cs:34 | a version below another differs from it and has no larger major component |
| CSharpScript.Qualifies | ScriptWrapper/CSharpScript.cs:30 | an assembly qualifies exactly when it is not dynamic and its location is neither null nor empty |
| CSharpScript.Candidates | ScriptWrapper/CSharpScript.cs:29-30 | the candidates are exactly the loaded assemblies that qualify |
| CSharpScript.Names | ScriptWrapper/CSharpScript.cs:34 | the group names are distinct and include the name of every candidate |
| CSharpScript.Group | ScriptWrapper/CSharpScript.cs:34 | a group holds only qualifying loaded assemblies of that name |
| CSharpScript.Lowest | ScriptWrapper/CSharpScript.cs:34 | the stable `OrderBy(Version).First()` picks a group member of lowest version, the earliest such |
| CSharpScript.GroupNonEmpty | ScriptWrapper/CSharpScript.cs:34 | every group key has a non-empty group |
| CSharpScript.GetReferencedAssemblies | ScriptWrapper/CSharpScript.cs:26-35 | one result per distinct name, in group order, each a member of its name's group |
| CSharpScript.ReferencedQualify | ScriptWrapper/CSharpScript.cs:30 | only loaded, non-dynamic assemblies with a non-empty location are referenced |
| CSharpScript.ReferencedNamesDistinct | ScriptWrapper/CSharpScript.cs:34 | at most one assembly is referenced per simple name |
| CSharpScript.EveryNameReferenced | ScriptWrapper/CSharpScript.cs:34 | every simple name among the qualifying assemblies is referenced |
| CSharpScript.ReferencedIsEarliestLowest | ScriptWrapper/CSharpScript.cs:31-34 | no qualifying assembly of the same name has a lower version than the referenced one, and every qualifying one of that name loaded before it has a strictly higher version |
| CSharpScript.ReferencedInFirstOccurrenceOrder | ScriptWrapper/CSharpScript.cs:34 | the results follow the first-occurrence order of their names among the qualifying assemblies |
| RoslynVisxHelpers.GetAbsolutePosition | IntelliFind/RoslynVisxHelpers.cs:59-60 | the result minus the offset is the start of line `line - 1` (1-based line to 0-based index); the line must exist |
| RoslynVisxHelpers.LineIndex | IntelliFind/RoslynVisxHelpers.cs:59-60 | inverse reference: the 0-based line whose span contains a position |
| RoslynVisxHelpers.OffsetStep | IntelliFind/RoslynVisxHelpers.cs:60 | for a fixed line, one more unit of offset moves the position by exactly one |
| RoslynVisxHelpers.PositionRoundTrip | IntelliFind/RoslynVisxHelpers.cs:59-60 | a position's line and offset within it give the position back |
| RoslynVisxHelpers.CaretRoundTrip | IntelliFind/RoslynVisxHelpers.cs:59-60 | an offset inside its line gives a position on that line, at that offset |
| RoslynVisxHelpers.OffsetPastLineEnd | IntelliFind/RoslynVisxHelpers.cs:60 | the offset is not clamped: one past the line's end gives a position on a later line |
| IntelliFindControl.SearchExpression | IntelliFind/IntelliFindControl.xaml.cs:135 | the selected text in manual-selected mode, the whole text otherwise |
| IntelliFindControl.MakeEnumerable | IntelliFind/IntelliFindControl.xaml.cs:220-231 | a non-string enumerable passes through with its items in order and its fault; a string, null or any other value becomes a one-element sequence |
| IntelliFindControl.StringIsOneItem | IntelliFind/IntelliFindControl.xaml.cs:223 | a string is listed as one item, not character by character |
| IntelliFindControl.ReplaceTargetsOfSingleValue | IntelliFind/IntelliFindControl.xaml.cs:265 | a single syntax value is the one replace target; a single value of any other kind gives none |
| IntelliFindControl.CreateListViewItem | IntelliFind/IntelliFindControl.xaml.cs:209-218 | an item gets a syntax entry exactly when it classifies as a node or token, otherwise it is shown as itself |
| IntelliFindControl.Entries | IntelliFind/IntelliFindControl.xaml.cs:162-165 | one entry per item, in enumeration order |
| IntelliFindControl.EntriesAreResults | IntelliFind/IntelliFindControl.xaml.cs:209-218 | result entries are never markers, counts or messages |
| IntelliFindControl.DiagnosticItems | IntelliFind/IntelliFindControl.xaml.cs:270-278 | one entry per diagnostic, in order |
| Queries.RemoveFirst | IntelliFind/IntelliFindControl.xaml.cs:180 | removing an entry that is listed takes out exactly one entry; removing one that is not listed changes nothing |
| Queries.RemoveFirstTakesFirst | IntelliFind/IntelliFindControl.xaml.cs:180 | the entry taken out is the first occurrence, and every other entry stays in order |
| IntelliFindControl.RemoveJustAdded | IntelliFind/IntelliFindControl.xaml.cs:178-183 | clicking the marker that was just added takes the list back to what it was |
| IntelliFindControl.Pauses | IntelliFind/IntelliFindControl.xaml.cs:155-159 | for n > 0 items, r is the one count with r * 1000 < n <= (r + 1) * 1000, so a request is made only for an item beyond the current limit, and the last page granted is the one holding item n; no items need no request |
| IntelliFindControl.PausesStep | IntelliFind/IntelliFindControl.xaml.cs:155-159 | counting one more item needs one more page exactly when it passes the current limit `1000 * (pages + 1)` |
| IntelliFindControl.PagesSuffice | IntelliFind/IntelliFindControl.xaml.cs:142-159 | n items fit into the granted pages exactly when at most `resumes` requests are needed for them |
| IntelliFindControl.DisplayOutcome | IntelliFind/IntelliFindControl.xaml.cs:150-168 | the display completes or faults exactly when every item was shown; it is cancelled only before an item that exists, and waits only at an item past the granted pages |
| IntelliFindControl.DisplayedRecords | IntelliFind/IntelliFindControl.xaml.cs:137-169 | the list holds one entry per shown item, in order, and one more entry (the count or the waiting marker) exactly when the display completed or waits for a page |
| IntelliFindControl.SearchRecords | IntelliFind/IntelliFindControl.xaml.cs:103-126 | a returned result lists what the display left behind, then the cancellation exception when it was cancelled or the enumerator's exception when it faulted; a failed compile lists exactly its diagnostics; any other exception is listed as itself, alone |
| IntelliFindControl.Shown | IntelliFind/IntelliFindControl.xaml.cs:150-158 | the display stops at the end of the items, at cancellation, or at an ungranted page, whichever comes first |
| IntelliFindControl.EntriesStep | IntelliFind/IntelliFindControl.xaml.cs:162-165 | the next item's entry goes after those of the items before it |
| IntelliFindControl.StopsAtCancellation | IntelliFind/IntelliFindControl.xaml.cs:152 | cancellation seen before the page check stops the display with the earlier items only |
| IntelliFindControl.StopsAtPageRequest | IntelliFind/IntelliFindControl.xaml.cs:155-158 | an ungranted page stops the display after `1000 * (resumes + 1)` items, with its marker last |
| IntelliFindControl.StopsAtEnd | IntelliFind/IntelliFindControl.xaml.cs:150-168 | running out of items ends with the count, or with nothing more if the enumerator threw |
| IntelliFindControl.CompletedSearchShowsEveryItem | IntelliFind/IntelliFindControl.xaml.cs:150-168 | an uncancelled search with every page granted shows exactly one entry per item, in order, then "{count} items found." with the item count; on the way it asked for (n - 1) / 1000 pages, the page count `DisplayResultAsync` reports |
| IntelliFindControl.CancelledSearchStopsAtCancellation | IntelliFind/IntelliFindControl.xaml.cs:116-126 | once cancellation is seen no further item and no count is shown, only the cancellation exception |
| IntelliFindControl.NoCountUnlessCompleted | IntelliFind/IntelliFindControl.xaml.cs:152-168 | a cancelled, faulted or waiting display never shows an item count |
| IntelliFindControl.UngrantedPageHoldsTheSearch | IntelliFind/IntelliFindControl.xaml.cs:155-187 | with fewer clicks than pages, the list holds `1000 * (resumes + 1)` entries and the marker "More than `1000 * (resumes + 1)` items" |
| IntelliFindControl.ReplaceTargets | IntelliFind/IntelliFindControl.xaml.cs:265 | the replace targets are no more than the script's results |
| IntelliFindControl.ReplaceResult | IntelliFind/IntelliFindControl.xaml.cs:262-268 | a solution comes only from a returned result whose enumeration does not throw, and it keeps the documents of the current solution; only a failed compile gives the not-compiled failure |
| IntelliFindControl.Replace | IntelliFind/IntelliFindControl.xaml.cs:262-268 | the new solution replaces every syntax result by the literal; a throwing enumeration, a target outside the solution or a failed compile gives no solution |
| IntelliFindControl.ReplaceSucceedsWhenTargetsInSolution | IntelliFind/IntelliFindControl.xaml.cs:262-268 | for a script whose results enumerate without error, a replace succeeds exactly when every target lies in the solution, and the new solution has the same documents |
| IntelliFindControl.ReplaceKeepsUntargetedDocument | IntelliFind/IntelliFindControl.xaml.cs:262-268 | after a successful replace, a document of the solution that holds no target keeps its text |
| IntelliFindControl.IntelliFindControl.AtMostOneLiveSource | IntelliFind/IntelliFindControl.xaml.cs:192-201 | at most one issued token source is uncancelled: the installed one |
| IntelliFindControl.IntelliFindControl.constructor | IntelliFind/IntelliFindControl.xaml.cs:26-30 | a new control has an empty list and no token source |
| IntelliFindControl.CancellationTokenSource.constructor | IntelliFind/IntelliFindControl.xaml.cs:198 | a new token source is not cancelled |
| IntelliFindControl.CancellationTokenSource.Cancel | IntelliFind/IntelliFindControl.xaml.cs:195 | after a cancel the source reports cancellation |
| IntelliFindControl.IntelliFindControl.CancelButtonClick | IntelliFind/IntelliFindControl.xaml.cs:63-66 | the installed source is cancelled; with none installed the click dereferences null |
| IntelliFindControl.IntelliFindControl.ResetCancellationToken | IntelliFind/IntelliFindControl.xaml.cs:192-201 | the previous source is cancelled and a fresh, uncancelled one is installed and returned, keeping single flight |
| IntelliFindControl.IntelliFindControl.DisplayDiagnostics | IntelliFind/IntelliFindControl.xaml.cs:270-278 | the list is replaced by one entry per diagnostic |
| IntelliFindControl.IntelliFindControl.ValidateScript | IntelliFind/IntelliFindControl.xaml.cs:87-94 | validation supersedes the previous operation and validates the current search expression |
| IntelliFindControl.IntelliFindControl.OnDiagnosticsReady | IntelliFind/IntelliFindControl.xaml.cs:94-100 | diagnostics are shown only if the validation's token is still uncancelled; a cancelled validation changes nothing |
| IntelliFindControl.IntelliFindControl.SupersededValidationShowsNothing | IntelliFind/IntelliFindControl.xaml.cs:87-101 | of two validations in a row, only the second one's diagnostics are shown, even when the first one's arrive last |
| IntelliFindControl.IntelliFindControl.WaitForNextPageRequest | IntelliFind/IntelliFindControl.xaml.cs:171-187 | the marker for the page limit is added to the list |
| IntelliFindControl.IntelliFindControl.OnMoreItemsClicked | IntelliFind/IntelliFindControl.xaml.cs:178-182 | the marker is removed from the list when clicked |
| IntelliFindControl.IntelliFindControl.DisplayResultAsync | IntelliFind/IntelliFindControl.xaml.cs:137-169 | the list and outcome are those of the closed-form display, and the number of markers shown and clicked is the number of pages granted |
| IntelliFindControl.IntelliFindControl.ExecuteSearch | IntelliFind/IntelliFindControl.xaml.cs:103-133 | the search supersedes the previous operation and leaves the list of the search's outcome |
| IntelliFindControl.IntelliFindControl.ShowSearchOutcome | IntelliFind/IntelliFindControl.xaml.cs:114-126 | results, compilation errors or the exception (cancellation included) are shown |
| IntelliFindControl.IntelliFindControl.ReplaceButtonClick | IntelliFind/IntelliFindControl.xaml.cs:233-260 | a successful commit installs the replaced solution and adds nothing; a failed commit adds only the "unable to update" entry; errors are shown and leave the workspace alone |

## Left out

- Threading: the thread-pool enumerator, `Task.Run`, `async`/`await` and the prefetch of the next `MoveNextAsync` are left out. They change when things happen, not the order in which items are delivered.
- WPF: list-item rendering, button visibility, grid rows, key and combo-box handlers and `LoadGlobals` are rendering only. An entry records what it shows, not its text.
- Script compilation and evaluation: `ScriptRunner`, `CSharpScriptWrapper` and `CSharpScript.EvaluateAsync` are foreign calls. Their outcome is the `runScript` parameter, and validation diagnostics are a parameter too.
- Visual Studio and DTE interop: cursor, selection and document lookup, the `ScriptGlobals` files and `TryApplyChanges` are host calls. The commit outcome is the `commitSucceeds` parameter. `IntelliFind/ScriptGlobals.cs:61` repeats the `GetAbsolutePosition` formula, which is modelled once.
- ReplaceHelpers.ReplaceNodes: requires each document's spans to be in order and not overlapping (`SpansFit`). What Roslyn's `WithChanges` does with other spans is not part of this model.
- ReplaceHelpers.ReplaceNodes: an element is keyed by its document only, not by the revision of the syntax tree it came from. In the source, an element from an older revision of a document that is still in the solution gets a null key, and the fold throws a NullReferenceException. This can happen when the document is edited between the script run and the replace. The model instead applies the element's span to the current text. So the "exactly when" of ReplaceHelpers.ReplaceNodes, IntelliFindControl.Replace and IntelliFindControl.ReplaceSucceedsWhenTargetsInSolution holds only for elements taken from the current revision.
- IntelliFindControl.IntelliFindControl.ReplaceButtonClick: requires `SpansFit` of the replace targets, for the same reason.
- IntelliFindControl.IntelliFindControl.DisplayResultAsync: cancellation is the parameter `cancelAt`, the first item at which the token is seen cancelled. A sequential model cannot interleave the Cancel button or a newer operation with the loop.
- IntelliFindControl.IntelliFindControl.DisplayResultAsync: an enumeration is finite. An endless script sequence is covered only up to the first page that is not granted.
- A "more items" marker left waiting keeps the operation pending. The model ends the handler there, with outcome `AwaitingPageRequest`.
- Cancellation inside the replace fold (`GetSyntaxRootAsync(cancellationToken)`) and before `Task.Run` starts is not a separate path. A run cancelled before it starts is a `runScript` outcome of `Threw(OperationCanceledException)`.
- SyntaxNodeOrTokenListItem.Truncate, ReplaceHelpers.ReplaceNodes and SourceText.WithChanges count lengths and positions in characters (Unicode scalar values), not in the UTF-16 code units that .NET strings, `Substring` and Roslyn's `TextSpan` count. On text outside the Basic Multilingual Plane the model's 30-character cut keeps more than the source's, never splits a surrogate pair, and measures spans in a different unit.
- RoslynVisxHelpers.GetAbsolutePosition: adds the caret's character offset to the line start as given, counted from 0. Which convention the editor's caret offset follows is not part of this model, so a caller passing a 1-based offset is not checked.
- Exceptions keep only their kind or message. Diagnostics are opaque values.
- CSharpScript: versions are the four integer components, with -1 for an undefined component, and a missing version is not modelled. Assemblies are abstract records read from the AppDomain.
