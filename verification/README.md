# Verified model of the HTTP inspector's filters, packet list and streams

A Dafny model of the self-contained algorithms and state machines of an HTTP MITM inspector, with
proofs of what its parts promise each other:

- **The filter editor.** A captured message is printed as text, edited, parsed back, compared with the
  original and turned into a filter (`Messages`, `EditRoundTrip`, `EditSyntax`, `Edits`, `Generator`, `Session`). A
  changed text body becomes a rewrite of the original text where that is possible (`BodyRewrite`).
- **Filters on disk.** The filter is written as a front-mattered source file and read back by the
  filter manager (`Quoting`, `FilterSource`).
- **Filters at work.** Triggers are matched by a greedy glob (`Glob`, `Triggers`), the filters that
  match run in order and their answers are merged (`FilterOrder`, `FilterChain`), and a patch is applied
  to the message being forwarded (`HeaderPatch`).
- **Bodies on display.** Bytes are shown as a hexdump and read back from it, and header JSON is
  picked out of the detail text by a bracket scan (`Hexdump`, `BodyDisplay`, `Json`, `JsonScan`).
- **The packet list.** Rows, an index from ids to rows, a filtered view and selections are kept in step
  while packets arrive and old rows are trimmed (`SearchCondition`, `PacketList`).
- **Streaming bodies.** A response body is probed, re-emitted, counted and finalised (`ResponseStream`,
  `StreamFinalize`).
- **Text windows.** Search results are highlighted and shown in a preview (`Highlight`, `Preview`).

Text is a sequence of characters; a header list is a sequence of name and value pairs. Objects whose
methods update fields are classes here; the loops of the program are loops here, each proved against a
function or predicate, and the properties below are proved about those.

Results that are not quite what one would hope for:

- The greedy matcher is not a matcher for the glob language: `*ab` denotes `abab` but refuses it
  (`Glob.GreedyRejectsMember`). It accepts exactly the members no proper prefix of which is a member,
  and is exact for patterns without `*` or with a final `*` and for no others.
- A message with two different values for one header name is reported as edited although nothing was
  changed, and a second value added to a name is lost by the generated patch. Both conditions are exact
  (`Edits.NoSpuriousEdits`, `HeaderPatch.HeaderEditTakesEffect`).
- A changed text body is usually sent as "replace the first occurrence of this text by that". The
  edited text is then reached only under a condition on the original text: text inserted into a plain
  text body is lost ("hello" to "hello world"), and of two equal pieces the first is rewritten whichever
  was edited ("a=1&b=1" to "a=1&b=2" sends "a=2&b=1"). The condition is exact
  (`Generator.NewTextArrivesExactly`, `BodyRewrite.RewriteArrives`).
- Control characters other than newline, return and tab are written as `\u{..}`, which is not TOML:
  such a string cannot be read back (`Quoting.TomlReadsQuoted`).
- A carriage return before a line feed in a note, or in the comment that spells out a JSON patch, does
  not survive the manager's reading (`FilterSource.ScriptSurvives`).
- When the editor takes the content type from the raw header, the generated content type condition
  holds only if the media type is written in lower case (`Generator.RawContentTypeCondition`).
- A filter made from a request with a blank captured host fires only if the edited host, read as a
  pattern, matches that blank host (`Generator.RequestFilterFires`).
- Rows of failed tunnels are missing from a filtered view until it is next rebuilt
  (`PacketList.FailedTunnelLags`).
- The committed size of a stream misses the bytes forwarded after the commit, and only those
  (`StreamFinalize.CommittedExactly`).
- A filter's wish to bypass the upstream proxy is never merged into the combined action
  (`FilterChain.MergeSumsUpRequests`).

## Model

| member | source | states |
|---|---|---|
| `Messages.ToEditText` | src/filters/editor.rs:633-705 | prints the message as its metadata lines, a headers section and the body as it is |
| `Messages.ParseEditHeaders` | src/filters/editor.rs:1626-1660 | stops at the first line without a colon or with an empty name, otherwise collects all headers, skipping blank and `#` lines |
| `Messages.ParseEditText` | src/filters/editor.rs:707-843 | splits at the first headers and body markers, reads the meta lines into the original's values one by one, then the headers and the body; `EditSyntax.ReadExactly` and `RefusedExactly` say what that amounts to |
| `EditRoundTrip.PrintableComesBack` | src/filters/editor.rs:633-843 | printing then parsing gives the message back, with an unrestricted body, for every printable message |
| `EditRoundTrip.RoundTripExactly` | src/filters/editor.rs:633-843 | the round trip holds if and only if the message is printable: trimmed single-line fields, no empty or untrimmed header name and no colon or leading `#` in it |
| `EditRoundTrip.EditedTextParses` | src/filters/editor.rs:707-843 | the printed fields of any printable message with any body typed below them, read as an edit of any original or of none, give exactly those fields and headers; the body is the typed one, the old text if that was only printed again, or the unchanged binary body |
| `EditRoundTrip.EditedMessageParses` | src/filters/editor.rs:633-843 | printing one message and reading it as an edit of another gives the printed message, as far as the original lets its body be edited |
| `EditSyntax.MetaLineExactly` | src/filters/editor.rs:735-780 | any line sets the one field it names and no other, or is refused for exactly one reason |
| `EditSyntax.RefusedExactly` | src/filters/editor.rs:735-782 | any text is read if and only if none of its meta and header lines has a problem; otherwise the first problem is the error |
| `EditSyntax.ReadExactly` | src/filters/editor.rs:707-843 | in any text that is read the last line for a field counts, fields without a line come from the original or the defaults, and the header lines are the headers in order |
| `Edits.NoChangesExactly` | src/filters/editor.rs:845-894 | a comparison reports no change exactly when all compared parts agree and every header of either message has its value as the first value of that name in the other |
| `Edits.NoSpuriousEdits` | src/filters/editor.rs:845-965 | a message compared with itself is unchanged if and only if every value equals the first one of its name |
| `Edits.SpuriousEdit` | src/filters/editor.rs:845-894 | counterexample: two set-cookie headers make an untouched message look edited |
| `Edits.HeaderActions` | src/filters/editor.rs:967-1016 | the actions for a diff: removals, then changes, then additions, in header order |
| `Edits.RunHeaderActions` | src/filters/runtime.rs:1512-1597 | running those actions sets exactly the changed and added headers, in order, and removes exactly the removed names |
| `HeaderPatch.LiveMessage.ApplyHeaderPatch` | src/mitm/flow/filter_bridge.rs:324-371 | names are removed first, then each valid header replaces all values of its name; invalid ones are skipped |
| `HeaderPatch.LiveMessage.RemoveBodyIntegrityHeaders` | src/mitm/flow/filter_bridge.rs:373-378 | drops content-length, content-encoding, etag and content-md5 and nothing else |
| `HeaderPatch.LiveMessage.ApplyTarget` | src/mitm/flow/filter_bridge.rs:209-245 | path and query come from the patch where it has them, otherwise from the target; an unreadable result changes nothing |
| `HeaderPatch.PatchedTargetExactly` | src/mitm/flow/filter_bridge.rs:209-245 | for a target read as a path and perhaps a query: what the patch names is replaced, the rest stays, an empty query is left out |
| `HeaderPatch.LiveMessage.ApplyPatch` | src/mitm/flow/filter_bridge.rs:189-322 | method, target, status, headers and body after a patch, invalid parts being ignored; with a new body none of content-length, content-encoding, etag and content-md5 is left, content-type is the given one if valid, and every other header is as the header patch left it |
| `HeaderPatch.PatchedAt` | src/mitm/flow/filter_bridge.rs:324-371 | what each header name holds after diffing and patching: the edit, as far as one value per name can reach it |
| `HeaderPatch.HeaderEditTakesEffect` | src/filters/editor.rs:845-894 | diff, actions and patch turn the original's headers into the edited ones if and only if the edit is reachable with one value per name |
| `HeaderPatch.UniqueIsReachable` | src/filters/editor.rs:967-1016 | every edit between header lists with case-insensitively unique names is reachable |
| `HeaderPatch.AddedDuplicateIsLost` | src/mitm/flow/filter_bridge.rs:324-371 | counterexample: a second value added to a name cannot be reached |
| `Glob.GlobMatch` | src/filters/types.rs:216-259 | the greedy loop accepts a value exactly when it is in the glob language of the pattern and, unless the pattern ends in `*`, no shorter prefix of it is; ASCII case is ignored |
| `Glob.ExactWhenPlainOrTrailingStar` | src/filters/types.rs:216-259 | the matcher is exact for patterns without `*` and for those that end in `*` |
| `Glob.ExactlyWhenPlainOrTrailingStar` | src/filters/types.rs:216-259 | it is exact for no other pattern: the matcher agrees with the language on all values if and only if the pattern has no `*` or ends in one |
| `Glob.RepeatedEndIsRefused` | src/filters/types.rs:231-258 | for any other pattern, its own text followed by its last literal again is a member that is refused |
| `Glob.GreedyRejectsMember` | src/filters/types.rs:228-259 | counterexample: `*ab` denotes `abab` and does not match it |
| `Glob.AcceptsSelf` | src/filters/types.rs:216-259 | every pattern matches its own text, stars included |
| `Glob.MatchStep` | src/filters/types.rs:231-258 | one literal part: matching the leftmost occurrence loses no match |
| `Triggers.MatchAnyGlob` | src/filters/types.rs:212-214 | an empty list matches everything, otherwise one pattern has to match |
| `Triggers.Trigger.Match` | src/filters/types.rs:164-210 | the phase is listed, a host pattern matches, a path pattern matches and the method is listed in any case; an empty list asks for nothing |
| `Triggers.Trigger.MatchConnect` | src/filters/types.rs:165-168 | connections are matched on the phase and a host pattern only |
| `Generator.CommonTextAnchor` | src/filters/generator.rs:1821-1850 | the start of the first line of at least 8 characters whose first 96 are still in the edited text, or else the start of the whole text; the anchor has 8 to 96 characters and occurs in the original |
| `Generator.RequestFilterFires` | src/filters/generator.rs:1181-1244 | a filter made from an edited request fires on that request if and only if the captured host is not blank or the edited host matches it |
| `Generator.RequestFilterFiresExactly` | src/filters/generator.rs:1181-1244 | for every request: the generated filter fires if and only if the host pattern matches, the path is the captured one, the query contains the captured one and the method is the captured one, ignoring case unless it was edited |
| `Generator.BlankHostDoesNotFire` | src/filters/generator.rs:1181-1244 | counterexample: a blank captured host given the host "x" |
| `Generator.ResponseFilterFires` | src/filters/generator.rs:1253-1307 | a filter made from an edited response fires on the flow it came from: every trigger matches and every condition holds |
| `Generator.ResponseFilterFiresExactly` | src/filters/generator.rs:1253-1307 | for every flow: the generated filter fires if and only if the captured host matches, the path is under the captured directory, the method agrees in any case, and status, media type and anchor are as captured |
| `Generator.PathTriggerIs` | src/filters/generator.rs:1852-1868 | the path trigger is the directory of the path, or nothing for "/", followed by `*` |
| `Generator.RawContentTypeCondition` | src/filters/generator.rs:1870-1877 | with the raw header as content type, the condition holds of the pipeline's content type exactly for a lower-case media type |
| `BodyRewrite.ReplacementShape` | src/filters/engine/semantic/body_tree_sitter.rs:469-517 | the replacement between common prefix and suffix turns the original into the edited text, and what it removes and inserts begin differently |
| `BodyRewrite.ReplacementIs` | src/filters/engine/semantic/body_tree_sitter.rs:469-517 | a replacement whose ends differ is found as it is |
| `BodyRewrite.ApplyBodyRewriteOps` | src/filters/runtime.rs:1761-1902 | runs rewrites one after the other on the text of a body; one that finds nothing is skipped, and without a change there is no new body |
| `BodyRewrite.ReplaceElsewhere` | src/filters/engine/semantic/body_tree_sitter.rs:469-501 | making the replacement at an earlier place gives the edited text if and only if that is its own place, or it only removes or only inserts and commutes with the gap |
| `BodyRewrite.RewriteArrives` | src/filters/runtime.rs:1761-1902 | the rewritten text is the edited one if and only if everything named occurs and the first place found is one where the replacement lands, also inside string literals |
| `BodyRewrite.ReplacingArrives` | src/filters/runtime.rs:1775-1784 | with text removed and text inserted: if and only if the removed text does not occur earlier |
| `BodyRewrite.RemovingArrives` | src/filters/runtime.rs:1775-1784 | with text removed only: if and only if it commutes with the text between its first occurrence and its place |
| `BodyRewrite.InsertingNeverArrives` | src/filters/runtime.rs:1775-1784 | with text inserted only, outside a grown string literal: never |
| `BodyRewrite.InsertionIsLost` | src/filters/runtime.rs:1775-1784 | counterexample: "hello" to "hello world" leaves the body as it is |
| `BodyRewrite.WrongPieceIsRewritten` | src/filters/runtime.rs:1775-1784 | counterexample: "a=1&b=1" to "a=1&b=2" gives "a=2&b=1" |
| `Generator.RetainOthers` | src/filters/generator.rs:360-404 | keeps all actions but those on the body of that kind of message |
| `Generator.RunWithoutBody` | src/filters/generator.rs:360-404 | leaving out the body actions leaves out just what they do |
| `Generator.RunRequestFilter` | src/filters/editor.rs:1041-1152 | what the actions of a generated request filter add up to: header edits, and the new body as a whole or, where there is one, only its rewrite |
| `Generator.RunResponseFilter` | src/filters/editor.rs:1201-1313 | the same for a generated response filter, with the status |
| `Generator.NewTextArrivesExactly` | src/filters/editor.rs:1071-1115 | the body patch of the flow the filter came from holds the edited text if and only if the whole body is set, the JSON patch gives that text, or the rewrite arrives at it |
| `Generator.AppendedTextIsLost` | src/filters/editor.rs:1105-1115 | counterexample for the generated filter: text appended to a plain text body |
| `Generator.SecondPieceIsMissed` | src/filters/editor.rs:1105-1115 | counterexample for the generated filter: the second of two equal pieces edited |
| `Generator.RequestEditTakesEffect` | src/filters/editor.rs:1041-1152 | end to end: the generated filter turns the captured request's headers into the edited ones up to reachability and, name by name, the headers of a new body; a new text arrives if and only if that condition holds; method and target stay; the client response is dropped exactly if the edit leaves no host header |
| `Generator.ResponseEditTakesEffect` | src/filters/editor.rs:1201-1313 | the same for a response; the status follows the edit exactly when it was unchanged or is valid |
| `Generator.NewRequestText` | src/filters/generator.rs:1208-1214 | a new request text without a rewrite is set as a whole as UTF-8 plain text |
| `Generator.NewResponseText` | src/filters/generator.rs:1288-1298 | a new response text keeps the edited content type, or else the original one, or else is UTF-8 plain text |
| `Session.EditSession.Reset` | src/filters/editor.rs:411-426 | puts back the printed original |
| `Session.EditSession.HasChanges` | src/filters/editor.rs:428-455 | parse errors are reported, otherwise the diff decides |
| `Session.EditSession.GenerateFilter` | src/filters/editor.rs:457-511 | parse error, no changes, or the extracted filter |
| `Session.UneditedText` | src/filters/editor.rs:411-511 | a new or reset session on a printable message has no changes and generates nothing if and only if no two values of one name differ |
| `Session.TypedBody` | src/filters/editor.rs:428-452 | a body typed below an untouched head is reported as a change if and only if it is neither the old text nor the old text as printed |
| `Quoting.QuotedString` | src/filters/generator.rs:1916-1936 | the loop writes the escape of every character between quotes |
| `Quoting.TomlReadsQuoted` | src/filters/generator.rs:1916-1936 | TOML v1.0.0 reads a quoted value back as that value if and only if its only control characters are newline, return and tab |
| `Quoting.ValidateFrontMatterLine` | src/filters/manager.rs:864-886 | the scanner accepts exactly the lines that do not end inside a string |
| `Quoting.ScanQuoted` | src/filters/manager.rs:864-886 | a quoted value leaves the scanner outside a string, whatever it contains |
| `FilterSource.WriteFrontMatter` | src/filters/generator.rs:437-454 | writes the metadata as comment lines between delimiters |
| `FilterSource.ToRotoSource` | src/filters/generator.rs:406-435 | front matter, notes and the filter function, with a call for every generated action and JSON patches spelled out in comments |
| `FilterSource.ParseFilterSource` | src/filters/manager.rs:786-853 | a blank source has no script, one that opens with no delimiter is all script, and behind a delimiter the first closing line ends the metadata, the first unbalanced line or a missing end is an error |
| `FilterSource.MetadataLinesAreLines` | src/filters/generator.rs:437-454 | every metadata line is a single balanced line whatever name, id and triggers contain |
| `FilterSource.GeneratedSourceReparses` | src/filters/manager.rs:786-853 | the manager takes exactly the written metadata lines, and the rest line by line as script, if TOML reads those lines |
| `FilterSource.ScriptSurvives` | src/filters/manager.rs:839-852 | the script comes back unchanged if and only if no note and no comment of a JSON patch has a carriage return before a line feed |
| `FilterSource.CleanPatch` | src/filters/engine/json/patch.rs:169-201 | the comment of a JSON patch without carriage returns is harmless |
| `FilterSource.GeneratedScriptIsExecutable` | src/filters/manager.rs:694-705 | a generated filter is never classed as metadata only |
| `Hexdump.HexdumpWithAscii` | src/tui/body.rs:387-422 | the nested loops print one line for every sixteen bytes, with offset, hexadecimal columns and ASCII |
| `Hexdump.ExtractHexdumpBytes` | src/tui/editor_pane.rs:547-576 | reads the two-digit words between an eight-digit offset and the first bar of each line |
| `Hexdump.LineRead` | src/tui/editor_pane.rs:550-572 | a printed line gives back its bytes exactly when its offset is below 2^32 |
| `Hexdump.HexdumpRoundTrip` | src/tui/body.rs:387-422 | reading a printed dump gives the first 2^32 bytes, whatever the ASCII column shows |
| `BodyDisplay.CheckHexdump` | src/tui/editor_pane.rs:578-611 | the counting loop says yes exactly if some line looks like a dump and at least four fifths of the lines that are not blank do |
| `BodyDisplay.StripUndoesAdd` | src/tui/editor_pane.rs:724-732 | stripping undoes adding a size header, for any size line |
| `BodyDisplay.DumpLooksLikeHexdump` | src/tui/editor_pane.rs:578-611 | every printed dump is recognised |
| `BodyDisplay.HeaderHasNoBytes` | src/tui/body.rs:176-179 | the magic-number line in front of a dump adds no bytes |
| `BodyDisplay.HeadedDumpRoundTrip` | src/tui/body.rs:176-179 | the dump round trip holds behind the line that names the kind of a binary body |
| `BodyDisplay.DisplayToEditor` | src/tui/editor_pane.rs:493-528 | a body of at most 2^32 bytes shown as a dump and not gzip reaches the editor as a binary body of its true length |
| `JsonScan.ScanBrackets` | src/tui/editor_pane.rs:668-715 | the loop over depth, string and escape flags finds the balanced piece the state machine defines |
| `JsonScan.ValuePasses` | src/tui/editor_pane.rs:681-712 | every JSON value leaves depth, string and escape state as it found them, for either kind of bracket |
| `JsonScan.ScanFindsJson` | src/tui/editor_pane.rs:668-715 | for every RFC 8259 array or object and any suffix, the scan returns exactly that text |
| `JsonScan.HeadersJsonIsFound` | src/tui/editor_pane.rs:651-715 | the JSON behind the headers line of the detail text is returned exactly |
| `SearchCondition.AcceptsSeesOnly` | src/tui/mod.rs:383-404 | a search depends on nothing but URL, method and status |
| `SearchCondition.NegationExcludes` | src/tui/mod.rs:383-404 | every packet is found by exactly one of a condition and its negation |
| `SearchCondition.AnyFindsEach` | src/tui/mod.rs:383-404 | alternatives find what one of them finds, their negation what all negations find |
| `SearchCondition.StatusConditions` | src/tui/mod.rs:383-404 | a status, a class of a hundred statuses, and no status |
| `SearchCondition.VerbConditions` | src/tui/mod.rs:383-404 | a method in any case, or one of several |
| `SearchCondition.UrlConditions` | src/tui/mod.rs:383-404 | a text anywhere in the lower-cased URL, or a pattern on the URL as it is |
| `PacketList.DistinctIdsAreInverse` | src/tui/mod.rs:1102-1136 | with distinct ids the index maps exactly the non-empty ids, each to its position |
| `PacketList.FailedTunnelLags` | src/tui/mod.rs:1138-1188 | the one exception: an accepted row of a failed tunnel is missing from the view, and no other |
| `PacketList.PacketListDelegate.DisplayedRows` | src/tui/mod.rs:1254-1286 | every visible id has an item, at the row the index names |
| `PacketList.PacketListDelegate.SetCurrentSelected` | src/tui/mod.rs:1647-1661 | sets the selection of the current mode and leaves the other one |
| `PacketList.PacketListDelegate.ClampCurrentSelected` | src/tui/mod.rs:1663-1673 | brings a selection into range; in a valid state it changes nothing |
| `PacketList.PacketListDelegate.RebuildSearchRowsIfNeeded` | src/tui/mod.rs:1222-1239 | makes the view exact |
| `PacketList.PacketListDelegate.TrimRowsIfNeeded` | src/tui/mod.rs:1331-1367 | drops a prefix, rebuilds the index, makes the view exact and keeps the main selection on its packet if that survives |
| `PacketList.PacketListDelegate.RemoveWaitingRowIfNeeded` | src/tui/mod.rs:1241-1252 | only a lone waiting row is removed |
| `PacketList.PacketListDelegate.OnPacketStarted` | src/tui/mod.rs:1102-1136 | appends exactly the row, indexes it, and shows it if it is accepted |
| `PacketList.PacketListDelegate.OnTunnelFailed` | src/tui/mod.rs:1138-1188 | appends exactly the row and indexes it; the view does not change |
| `PacketList.PacketListDelegate.OnPacketCompleted` | src/tui/mod.rs:1202-1220 | the last row of the id gets the status and the time and keeps everything else, no other row changes, and the view becomes exact; an unknown id changes nothing |
| `PacketList.PacketListDelegate.OnPacketMarked` | src/tui/mod.rs:1913-1945 | the last row of the id, or else the first row of the flow, gets the mark behind its others if it is new, and no other row changes |
| `PacketList.PacketListDelegate.AppendSystemLine` | src/tui/mod.rs:1369-1389 | appends a row without id, then trims |
| `PacketList.OnAllExtends` | src/tui/mod.rs:1064-1083 | a batch of events leaves every packet in its place |
| `PacketList.OnAllOutcome` | src/tui/mod.rs:1064-1220 | behind any batch the last row of an id has the status and time of the last completion of that id since it came, or what it came with if there was none |
| `PacketList.PacketListDelegate.PollIncoming` | src/tui/mod.rs:1059-1100 | a batch of events refines the plain list without index and view, keeps both in agreement with it, keeps the main selection on its packet if that survives the trim, and gives every surviving packet the outcome of the last completion of its id |
| `PacketList.PacketListDelegate.SearchUrl` | src/tui/mod.rs:1812-1844 | a blank query leaves the search, a bad one reports it, any other shows exactly the accepted rows |
| `PacketList.PacketListDelegate.ClearSearch` | src/tui/mod.rs:1846-1856 | back to all rows with the main selection unchanged |
| `PacketList.PacketListDelegate.SelectFlowKey` | src/tui/mod.rs:1884-1911 | leaves the search on the first row of the flow, or reports that there is none |
| `ResponseStream.ProbeResponseBody` | src/mitm/flow/dispatcher.rs:865-899 | collects all data before the first error if it stays within the threshold, otherwise returns the shortest exceeding prefix and the rest |
| `ResponseStream.PrefixThenBody.PollFrame` | src/mitm/flow/dispatcher.rs:910-919 | yields the prefix once, then what is left of the body |
| `ResponseStream.PrefixThenBody.Drain` | src/mitm/flow/dispatcher.rs:908-923 | draining yields the data before the first error, in order |
| `ResponseStream.PrefixConserves` | src/mitm/flow/dispatcher.rs:865-923 | replacing a run of frames by one frame with its data keeps the data |
| `ResponseStream.ForwardProbed` | src/mitm/flow/dispatcher.rs:865-923 | probing and re-emitting neither loses, repeats nor reorders a byte |
| `StreamFinalize.Finalizer.Finalize` | src/mitm/flow/dispatcher.rs:1026-1081 | only the first call starts the delayed commit, with its flag |
| `StreamFinalize.StreamingCaptureBody.PollFrame` | src/mitm/flow/dispatcher.rs:1093-1115 | counts data, finalises at an end or an error and forwards what it got |
| `StreamFinalize.StreamingCaptureBody.Run` | src/mitm/flow/dispatcher.rs:993-1130 | any sequence of polls, drop and delayed commit takes the objects to the state the transition system gives |
| `StreamFinalize.ReachableStates` | src/mitm/flow/dispatcher.rs:993-1130 | the invariant holds in every reachable state |
| `StreamFinalize.FinalizedExactlyOnce` | src/mitm/flow/dispatcher.rs:1026-1130 | one finalisation is started at the first terminal step and never again, and exactly one by the time the body is dropped |
| `StreamFinalize.InterruptedFlag` | src/mitm/flow/dispatcher.rs:1026-1130 | the recorded flag is false if and only if the end was seen before any error or drop |
| `StreamFinalize.CommittedExactly` | src/mitm/flow/dispatcher.rs:1022-1081 | the committed size is what was forwarded before the commit; it is the whole if and only if no data comes behind the commit and the total is below 2^63 |
| `StreamFinalize.CommittedSize` | src/mitm/flow/dispatcher.rs:1022-1081 | the committed size is the sum of forwarded data when nothing is forwarded behind the first terminal step |
| `StreamFinalize.LateDataIsUncounted` | src/mitm/flow/dispatcher.rs:1026-1081 | counterexample: data behind the end is missing when the delayed commit has already run |
| `FilterOrder.KeyOrder` | src/filters/runtime.rs:1256-1264 | a lower priority comes first, within a priority the path whose first differing component comes first by its first differing character; the order is total |
| `FilterOrder.CompiledFilterSet.SortFilters` | src/filters/runtime.rs:1256-1264 | the filters end up with ascending priorities, within a priority in the order of paths, and those with equal keys in the order of loading |
| `FilterOrder.StableSortIsUnique` | src/filters/runtime.rs:1256-1264 | there is only one stable sort, whatever the library's algorithm |
| `FilterOrder.LoadOrderIsIrrelevant` | src/filters/runtime.rs:1256-1264 | without two filters of one priority and path, the order of loading does not matter |
| `FilterChain.CombinedRequestAction.Merge` | src/mitm/flow/filter_bridge.rs:66-84 | the new combined action, field by field |
| `FilterChain.CombinedResponseAction.Merge` | src/mitm/flow/filter_bridge.rs:86-97 | the new combined action, field by field |
| `FilterChain.CombinedConnectAction.Merge` | src/mitm/flow/filter_bridge.rs:392-404 | the new combined action, field by field |
| `FilterChain.RanIsExact` | src/mitm/flow/filter_runtime.rs:77-189 | the filters that run are exactly the shortest run of matching ones up to the first that stops the chain |
| `FilterChain.RunsInOrder` | src/filters/runtime.rs:1284-1311 | filters run with ascending priorities and by path, and a matching one is left out only behind one that stopped the chain and has no higher priority |
| `FilterChain.RunRequestFilters` | src/mitm/flow/filter_runtime.rs:77-189 | runs those filters, skips failed ones and returns the fold of the others' answers |
| `FilterChain.RunResponseFilters` | src/mitm/flow/filter_runtime.rs:191-306 | the same for responses |
| `FilterChain.RunConnectFilters` | src/mitm/flow/filter_runtime.rs:54-75 | the same for connections; filters without a connect handler are skipped |
| `FilterChain.RequestsSumUp` | src/mitm/flow/filter_runtime.rs:77-189 | the combined action has the last patch, the synthetic response of the last answer only, all marks, tags, notes and jobs in order, and drops if any answer does |
| `FilterChain.ResponsesSumUp` | src/mitm/flow/filter_runtime.rs:191-306 | the same for responses |
| `FilterChain.ConnectsSumUp` | src/mitm/flow/filter_runtime.rs:54-75 | the last reject status, all marks in order, and the tunnel is dropped if any answer says so |
| `FilterChain.MergeSumsUpRequests` | src/mitm/flow/filter_bridge.rs:66-84 | merging one more answer keeps that summary |
| `Highlight.ParseMatcher` | src/tui/search.rs:493-511 | a blank query finds nothing, "re:" starts a pattern, anything else is searched as it is, trimmed |
| `Highlight.FindAllInLine` | src/tui/search.rs:532-550 | the ranges are ordered, disjoint occurrences and no occurrence begins in a gap between them; the loop terminates |
| `Highlight.ScanIsUnique` | src/tui/search.rs:532-550 | those ranges are determined by that |
| `Highlight.HighlightLine` | src/tui/mod.rs:2241-2264 | the spans of a line put together are the line, and exactly the characters in ranges are highlighted |
| `Highlight.HighlightDetailText` | src/tui/mod.rs:2230-2275 | the spans of a text put together are the text; every occurrence of a plain query begins highlighted and only whole occurrences are |
| `Preview.TrimPreviewAroundMatch` | src/tui/search.rs:1013-1052 | the preview is a contiguous piece of at most the given number of characters, for any byte positions, and shows the whole match if that fits |
| `Preview.FindsBoundary` | src/tui/search.rs:1028-1037 | the searches for byte positions find the characters that begin there |
| `Preview.PreviewOf` | src/tui/search.rs:314-335 | the preview of a found line contains the query whenever that fits |

## Left out

- Network, TLS, certificates, WebSocket relay, SQLite, files, HAR export, configuration and external programs.
- Widgets, key navigation, rendered row lines and the invalidation of list items: only the data of the packet list is modelled.
- Regular expressions: `SearchCondition` takes them as predicates, `Highlight` as a function whose ranges are ordered, disjoint and not empty.
- TOML beyond basic strings is a parameter that tells which metadata is readable, and the Roto compiler is left out: generated conditions and actions are interpreted directly.
- The validity of header names, header values, status codes, methods and targets is a parameter (`HeaderPatch.Rules`); values that are not text are not modelled.
- UTF-8 decoding, base64 and gunzip are parameters of `BodyDisplay`; bytes of characters matter only in `Preview` and for the size limit of a replacement.
- JSON patches and syntax trees: the operations between two bodies, their application and the place of an edit in a tree are parameters (`BodyRewrite.Analysis`).
- Filters made from selected text, SSE and the state store; filter answers depend only on what the filter is shown.
- Quarantine of slow filters, statistics, timing and logging; completed-flow filters, which produce no action.
- Actions that no edit generates: rewrites of all occurrences, by regular expression or behind an anchor, synthetic responses, and setting method, path or query.
- The derivation of mark labels and the text of generated notes: both are arbitrary here.
- `size_hint` of streaming bodies, and trailers among the frames a probe has consumed, which carry no data.
- FilterOrder.CompiledFilterSet.SortFilters: inserts one filter after another, because the library's sort is not visible; the result is the only one a stable sort can have.
- FilterSource.GeneratedSourceReparses: states generated files, which have line feeds only, because the manager's offset for leading blank lines assumes one-byte line ends.
- JsonScan.HeadersJsonIsFound: states texts with line feeds only, for the same reason.
- PacketList.PacketListDelegate.DisplayedRows: the widget's own item list is not part of this model, only the row each position stands for.
