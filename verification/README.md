# ConfDock: source-preserving edits and revisions

ConfDock edits configuration files without reformatting them, keeps every saved revision, and shows and
compares revisions in a browser. This project models the code that has to be right for that promise to hold,
and proves it: the byte scanners and span edits, the revision diff together with the browser's independent
check of it, the maps between native bytes and editor text, the revision store, and the small concurrent state
machines around them. `dafny verify dfyconfig.toml` checks all of it.

## How it is organised

- **Text and pointers.** `Utf8` (section 4 of RFC 3629), `Document` (byte-order mark, line endings, spans, the
  span patch), `Path` (sections 3 and 4 of RFC 6901), `Numerals` (decimal numerals read from the left).
- **JSON edits.** `JsonGrammar` has the derivation trees of RFC 8259, `JsonStrict` the grammar gate as a parser
  proved sound and complete for them, `JsonTree` and `JsonReplace` the nodes of a derivation and what replacing one
  does to bytes and spans, `JsonScanner` the hand-written scanner as a class, `JsonScanExact` the proof that it is
  exact behind the gate, `JsonEdit` the parse, the lookup and the edit, `JsonEdits` two edits in a row, `JsonNames` what
  pointers and keys name, and every answer of an edit.
- **INI edits.** `IniText` (trimming, lines, what a line is), `Ini` (the pass over the lines and the edit),
  `IniEdit` (what an edit means), `IniEdits` (two edits in a row), `IniAnswers` (what lines read as, and every answer).
- **Mihomo.** `YamlEvents` (the walk over YAML events), `Mihomo` (the port scan and edit), `MihomoEdit` (what an edit
  means), `MihomoPlaces` (when it lands in the root's pair), `MihomoAnswers` (what a port is, and every answer).
- **Diff.** `RevisionDiff` (line tokens), `DiffHunks` (the service's hunks), `DiffPatch` (they are a two-way
  patch), `DiffRebuilt` (either source from the other and the diff; when there is a diff), `DiffClient` (the browser's
  checks, and that the service's output passes them), `DiffChecks` (what those checks amount to).
- **Editor coordinates.** `EditorText` (bytes to text and back), `EditorSpan` (byte spans to UTF-16 ranges),
  `EditorLines` (line arithmetic).
- **Revision store.** `Store` (three tables and their transactions), `StoreRuns` (every interleaving),
  `StoreSafety` (what no run can break), `StoreOutcomes` (what each transaction answers and writes), `StoreServing` (what
  is served, traced back to the requests), `StorePaging` (cursor paging).
- **Clients.** `RevisionPages`, `RevisionHistory`, `RevisionHistoryRuns` and `HistoryPaging` (the timeline, against
  a hostile server and against the store), `PagingRuns` (one traversal along a run of the store) and `TimelineRuns`
  (the component and a run of the store, with failures, late answers and new cycles), `ProjectEditor` and
  `ProjectEditorRuns` (the editor hook), `EditorOverStore` and `EditorSystem` (editor and store as one system),
  `PublicUrl` (the public-URL lock; start-up normalises the stored URL once more, so the result needs that no normal
  form has another normal form, and `UnstableDisagrees` shows that it cannot do without).
- **Where the code differs from its promises.** `Witnesses`: concrete inputs, beside the exact conditions.

Code that updates things step by step is a method or a class here, proved equal to a specification function;
the lemmas are about those functions. Text is a sequence of Unicode scalar values, bytes are the integers 0 to
255. External libraries appear as their contract: the grammar of RFC 8259 for the JSON parser, an event list for
the YAML parser (in `MihomoPlaces` with the places at which its scalars stand), and for the diff library a script of
operations that covers both sides contiguously, whose `Equal` operations hold equal lines, grouped so that every
change is kept in order. Ids, tokens and secrets are fresh, and equal hashes mean equal bytes where a lemma says so.

## Where the code and what it says of itself differ

- The editor is meant to give an unchanged document back byte for byte. A document with a second byte-order mark
  loses it, because the `TextDecoder` drops one as well (`web/src/lib/bytes.ts:21-22`): `Witnesses.SecondMarkIsLost`.
  `EditorText.BytesRoundTrip` says exactly when the promise holds. In such a document every marked range behind the
  marks is also one unit late (`EditorSpan.SecondMarkShifts`).
- A mixed-port replacement with a leading plus sign is accepted and afterwards refused as a value
  (`crates/confdock-core/src/targets/mihomo.rs:183-186` against lines 362-371): `Witnesses.PlusLosesThePort`, on
  the one line `mixed-port: 80`. `MihomoEdit.PortFoundAgain` says exactly when the port can be edited again.
- The mixed-port edit is meant for the root's scalar, but it refuses only two ports at the root, not none, and takes
  the one line that starts with the key (`mihomo.rs:166-173`) without asking whether that is the same port. So an
  accepted edit can change a nested port although the root has none (`Witnesses.NestedPortIsEdited`;
  `MihomoEdit.PatchedRoot` says when the root has one), and even although the root has one, when that is quoted or on
  another line (`Witnesses.QuotedPortIsKept`). `MihomoPlaces.RootPortIsEdited` is the exact condition: the edit
  replaces the value of a `mixed-port` key of the root iff that key stands where the hit line starts.
  `MihomoPlaces.OnceIsRoot` is a check beforehand that is enough: one port counted, its key plain, and the word
  occurring once in the text. Neither failing input meets it (`Witnesses.QuotedIsPlaced`; the other has no root port).
- An INI replacement of white space only is accepted as non-empty and leaves an empty value
  (`common.rs:184-191`): `Witnesses.SpaceIsAcceptedAsValue`. The reparse theorem covers it;
  `IniEdits.LaterEditOverrides` says exactly when a second edit erases the first.
- The JSON scanner by itself accepts more than JSON (`JsonEdit.GateIsNeeded`); only behind the grammar gate is it
  exact.

## Model

| member | source | states |
|---|---|---|
| Utf8.DecodeOfEncode | web/src/lib/bytes.ts:96-98 | decoding an encoded text gives the text back, for every text |
| Utf8.EncodeOfDecode | crates/confdock-core/src/document.rs:99-105 | re-encoding what strict decoding accepts gives the same bytes |
| Utf8.CodePointIsScalar | crates/confdock-core/src/document.rs:153-165 | well-formed bytes never stand for a surrogate or a value past U+10FFFF |
| Document.DetectLineEnding | crates/confdock-core/src/document.rs:167-187 | the counting loop decides which of lone LF and CRLF occur |
| Document.ApplySpanPatch | crates/confdock-core/src/patch.rs:53-68 | the output is the source with exactly the span replaced, or an error for a span outside it |
| Path.New | crates/confdock-core/src/path.rs:7-26 | accepts exactly the JSON pointers: empty or slash-led, every tilde an escape |
| Path.BuildPath | crates/confdock-core/src/path.rs:28-35 | the loop builds the pointer of the segments |
| Path.UnescapeSegment | crates/confdock-core/src/path.rs:86-101 | decodes any accepted segment, never reaching the unreachable branch |
| Path.SegmentsRoundTrip | crates/confdock-core/src/path.rs:28-47 | any segment list is built into an accepted pointer and read back from it |
| Path.PointerRoundTrip | crates/confdock-core/src/path.rs:7-47 | any accepted pointer is rebuilt from its decoded segments: a bijection |
| Path.EscapeInjective | crates/confdock-core/src/path.rs:82-84 | escaping by two successive replacements is injective |
| Path.AppendSegment | crates/confdock-core/src/targets/json.rs:329-332 | appending to a pointer is the pointer of the longer segment list |
| JsonStrict.ParseSound | crates/confdock-core/src/targets/json.rs:37-44 | the gate accepts only texts with a derivation in the JSON grammar |
| JsonStrict.ParseComplete | crates/confdock-core/src/targets/json.rs:37-44 | every derivation is accepted and is the only one of its text |
| JsonScanner.Scanner.SkipWhiteSpace | crates/confdock-core/src/targets/json.rs:136-140 | moves over exactly the ASCII white space |
| JsonScanner.Scanner.ParseValue | crates/confdock-core/src/targets/json.rs:142-181 | cursor, pushed fields and error position are those of the scan of a value |
| JsonScanner.Scanner.ParseObject | crates/confdock-core/src/targets/json.rs:183-209 | the same for the object loop |
| JsonScanner.Scanner.ParseArray | crates/confdock-core/src/targets/json.rs:211-230 | the same for the array loop |
| JsonScanner.Scanner.ParseString | crates/confdock-core/src/targets/json.rs:239-261 | the same for a string |
| JsonScanner.Scanner.ParseNumber | crates/confdock-core/src/targets/json.rs:263-300 | the same for a number |
| JsonScanExact.ScanValueExact | crates/confdock-core/src/targets/json.rs:142-181 | on derivable bytes the scan ends exactly behind the value and reports exactly its nodes |
| JsonEdit.ScanDocument | crates/confdock-core/src/targets/json.rs:52-83 | after the gate the scan of a whole document neither fails nor stops early |
| JsonEdit.ParseJsonDocument | crates/confdock-core/src/targets/json.rs:24-84 | never errors after the gate; otherwise the fields of the derivation |
| JsonEdit.GateIsNeeded | crates/confdock-core/src/targets/json.rs:136-140 | the scanner alone accepts a form feed that the grammar refuses |
| JsonEdit.ScannerAlone | crates/confdock-core/src/targets/json.rs:239-300 | the scanner alone takes `1e+-5` and any escape, and refuses a leading zero and control characters |
| JsonEdit.FieldsAreNodes | crates/confdock-core/src/targets/json.rs:142-181 | exactly one field per non-root node, in post-order, with its pointer and span |
| JsonTree.PostOrderDistinct | crates/confdock-core/src/targets/json.rs:142-181 | no node is reported twice |
| JsonEdit.SpanHoldsNode | crates/confdock-core/src/targets/json.rs:175-180 | a field's span is in bounds and holds exactly its node's bytes |
| JsonReplace.DescendantPlace | crates/confdock-core/src/targets/json.rs:175-180 | the span of a node lies within the spans of the nodes above it |
| JsonReplace.DisjointPlaces | crates/confdock-core/src/targets/json.rs:175-180 | the spans of nodes on different branches are disjoint, in document order |
| JsonEdit.FindJsonField | crates/confdock-core/src/targets/json.rs:86-110 | parse failure, found, missing or ambiguous, as the fields with the path decide |
| JsonEdit.FoundIsUnique | crates/confdock-core/src/targets/json.rs:86-110 | a lookup that succeeds gives the span of the only node with the pointer |
| JsonEdit.UniqueIsFound | crates/confdock-core/src/targets/json.rs:86-110 | a pointer that only one node has is found |
| JsonEdit.MissingIsAbsent | crates/confdock-core/src/targets/json.rs:86-110 | reported missing exactly when no node has the pointer |
| JsonTree.PointersDistinct | crates/confdock-core/src/targets/json.rs:329-332 | without duplicate keys different nodes have different pointers |
| JsonTree.DecimalReads | crates/confdock-core/src/targets/json.rs:219 | the label of an element is the shortest numeral of its index: read from the left it gives the index |
| JsonTree.DecimalOfReading | crates/confdock-core/src/targets/json.rs:219 | and there is no other such numeral |
| JsonNames.NamedIsTarget | crates/confdock-core/src/targets/json.rs:183-230 | a node has a pointer iff the pointer's segments lead to it, element by numeral and member by key |
| JsonNames.ResolvesFurther | crates/confdock-core/src/targets/json.rs:211-230 | one segment more leads to the child whose index it is the numeral of, or whose key it is |
| JsonNames.KeyReads | crates/confdock-core/src/targets/json.rs:232-237 | a key is read as the one string that its symbols write: as they are, by letter, or by UTF-16 units in hexadecimal |
| JsonNames.NumberIs | crates/confdock-core/src/targets/json.rs:263-300 | the numbers of the grammar are exactly sign, shortest integer, fraction, exponent |
| JsonNames.CharactersAre | crates/confdock-core/src/targets/json.rs:136-140 | white space, escapes and digits are exactly those characters |
| JsonNames.ParseAnswers | crates/confdock-core/src/targets/json.rs:24-84 | no text, no JSON and no object are told apart |
| JsonEdit.EveryNodeIsFound | crates/confdock-core/src/targets/json.rs:86-110 | without duplicate keys every node is found by its pointer |
| JsonEdit.ApplyEdit | crates/confdock-core/src/targets/singbox.rs:106-114 | find, check the literal, splice, with the error of each step |
| JsonEdit.EditMeaning | crates/confdock-core/src/targets/singbox.rs:106-114 | the result is a document; its tree is the old one with just the addressed node exchanged; all other spans stay or shift |
| JsonNames.EditAnswers | crates/confdock-core/src/targets/singbox.rs:106-114 | not a document, no node, several nodes, no literal, or one splice: each exactly when the two standards say so |
| JsonReplace.ReplaceTree | crates/confdock-core/src/targets/singbox.rs:106-114 | replacing a node in the derivation replaces the node in the syntactic tree |
| JsonEdits.EditsCommute | crates/confdock-core/src/targets/singbox.rs:106-114 | edits at two pointers, neither above the other, succeed in either order and give the same bytes |
| JsonEdits.LaterEditOverrides | crates/confdock-core/src/targets/singbox.rs:106-114 | a pointer can always be edited again; the second edit erases the first iff the first literal had no outer white space |
| IniText.LinesUnique | crates/confdock-core/src/targets/common.rs:69 | a text is cut into lines in only one way |
| IniText.ReplacedContent | crates/confdock-core/src/targets/common.rs:98-117 | whatever replaces the value, the line assigns to the same key, and its value is the trimmed replacement |
| IniText.ReplacedLine | crates/confdock-core/src/targets/common.rs:70-73 | replacing a value keeps the line one line with the same terminator |
| Ini.DuplicateMeans | crates/confdock-core/src/targets/common.rs:84-93 | a section is reported duplicate exactly when two headers open it |
| Ini.ParseIniLike | crates/confdock-core/src/targets/common.rs:53-128 | the running offset, section and sets give exactly the fields and duplicates defined line by line |
| Ini.ValueStartBytes | crates/confdock-core/src/targets/common.rs:114-117 | the byte arithmetic names the byte where the value starts |
| Ini.ValueEdit | crates/confdock-core/src/targets/common.rs:130-194 | every refusal of the edit in its order, and otherwise one splice |
| IniAnswers.HeaderMeans | crates/confdock-core/src/targets/common.rs:70-95 | a line is read as a header exactly when it is a name in brackets between white space |
| IniAnswers.AssignmentMeans | crates/confdock-core/src/targets/common.rs:70-122 | a line is read as an assignment exactly when it is a key, an equals sign and a value, each between white space |
| IniAnswers.KeyMeans | crates/confdock-core/src/targets/common.rs:214-219 | a key is safe exactly when it is of ASCII letters, digits, underscore, hyphen and point |
| IniAnswers.MatchMeans | crates/confdock-core/src/targets/common.rs:196-204 | the first editable section of that name, letters compared with or without case |
| IniAnswers.SectionMeans | crates/confdock-core/src/targets/common.rs:84-95 | a line is in the editable section that the last header before it selects |
| IniAnswers.FieldCount | crates/confdock-core/src/targets/common.rs:113-122 | a field is missing or ambiguous exactly as no line or several lines of the section hold the key |
| IniAnswers.DuplicatedMeans | crates/confdock-core/src/targets/common.rs:206-212 | a section counts as duplicate exactly when two headers select it |
| IniAnswers.NormalMeans | crates/confdock-core/src/targets/common.rs:206-212 | the name of a duplicate section is in lower case unless case matters |
| IniAnswers.EditAnswers | crates/confdock-core/src/targets/common.rs:130-194 | every answer of an edit in terms of headers, keys and the value's text |
| IniEdit.SpanHoldsValue | crates/confdock-core/src/targets/common.rs:114-121 | a field's span holds exactly the trimmed value, and splicing there changes only its line |
| IniEdit.ReparseAfterEdit | crates/confdock-core/src/targets/common.rs:130-194 | same paths, same duplicates, earlier spans kept, later ones shifted, edited one holds the trimmed replacement; encoding, line endings and trailing newline unchanged |
| IniEdits.FieldSpansOrdered | crates/confdock-core/src/targets/common.rs:118-122 | spans are in bounds, in order and disjoint |
| IniEdits.LaterEditOverrides | crates/confdock-core/src/targets/common.rs:130-194 | a key can be edited again iff the first text has no comment mark; the second then erases the first iff that was trimmed |
| IniEdits.EditsCommute | crates/confdock-core/src/targets/common.rs:130-194 | edits of distinct keys succeed in either order and give the same bytes |
| Witnesses.SpaceIsAcceptedAsValue | crates/confdock-core/src/targets/common.rs:184-193 | a replacement of one space is accepted and the field then reads as empty |
| YamlEvents.SkipYamlNode | crates/confdock-core/src/targets/mihomo.rs:306-334 | the recursion with its loops is total, advances and stays in bounds |
| YamlEvents.SkipIsExact | crates/confdock-core/src/targets/mihomo.rs:306-334 | it returns j from i exactly when the events between are the flattening of a node, of only one |
| YamlEvents.InspectTopLevelMixedPorts | crates/confdock-core/src/targets/mihomo.rs:260-283 | the loop collects what the recursive definition collects, with its errors |
| YamlEvents.RootMixedPorts | crates/confdock-core/src/targets/mihomo.rs:260-283 | the values of precisely the root mapping's mixed-port keys, in order, nothing nested |
| Mihomo.ScanMixedPort | crates/confdock-core/src/targets/mihomo.rs:342-378 | the running offset gives each matching line's spans |
| Mihomo.ApplyEdit | crates/confdock-core/src/targets/mihomo.rs:161-193 | every refusal of the edit in its order, and otherwise one splice |
| MihomoAnswers.PortMeans | crates/confdock-core/src/targets/mihomo.rs:183-191 | the number parser and the test for zero accept exactly the decimal numerals from 1 to 65535, a plus sign allowed |
| MihomoAnswers.EditableMeans | crates/confdock-core/src/targets/mihomo.rs:351-371 | the value of a line can be edited exactly when digits and then only white space or a comment follow the key |
| MihomoAnswers.FullSpanHolds | crates/confdock-core/src/targets/mihomo.rs:351-360 | a full span holds what follows the key, trimmed |
| MihomoAnswers.RootMeans | crates/confdock-core/src/targets/mihomo.rs:219-249 | the gate passes exactly the single documents whose root is a mapping |
| MihomoAnswers.EditAnswers | crates/confdock-core/src/targets/mihomo.rs:161-193 | every answer of an edit in terms of root keys, lines and ports |
| MihomoEdit.PortFoundAgain | crates/confdock-core/src/targets/mihomo.rs:161-193 | after an edit the port is found once, at the same place, holding the replacement; editable again iff that has no plus sign |
| Witnesses.PlusLosesThePort | crates/confdock-core/src/targets/mihomo.rs:161-193 | the edit of `mixed-port: 80` to "+80" is accepted and the scan afterwards has no editable value |
| MihomoEdit.PatchedRoot | crates/confdock-core/src/targets/mihomo.rs:161-193 | an accepted edit's root has at most one port, and has one iff one is counted, which the code does not ask |
| MihomoPlaces.SpotIs | crates/confdock-core/src/targets/mihomo.rs:342-378 | the one editable occurrence is a line that starts with the key, and its span covers exactly the digits behind it |
| MihomoPlaces.RootPortIsEdited | crates/confdock-core/src/targets/mihomo.rs:161-193 | an accepted edit replaces bytes of the value of a `mixed-port` key of the root iff that key stands where the hit line starts |
| MihomoPlaces.OnceIsRoot | crates/confdock-core/src/targets/mihomo.rs:161-193 | with one port counted, a plain key and one occurrence of the word, an accepted edit is in the root's pair |
| Witnesses.OnePortIsRoots | crates/confdock-core/src/targets/mihomo.rs:161-193 | the edit of `mixed-port: 80` to 90 is accepted and is in the root's pair |
| Witnesses.NestedPortIsEdited | crates/confdock-core/src/targets/mihomo.rs:166-173 | with no port at the root the nested one is edited |
| Witnesses.QuotedPortIsKept | crates/confdock-core/src/targets/mihomo.rs:166-173 | even with one port counted at the root the nested one can be the one that is edited |
| Witnesses.QuotedIsPlaced | crates/confdock-core/src/targets/mihomo.rs:166-173 | there the word occurs twice, and the root's key is not plain and not at the start of a line |
| MihomoEdit.LaterPortOverrides | crates/confdock-core/src/targets/mihomo.rs:161-193 | a second port over a first one of digits gives what it alone would have given |
| RevisionDiff.TokensLossless | crates/confdock-service/src/diff.rs:158-211 | concatenating texts and terminators rebuilds the body |
| RevisionDiff.TokensOk | crates/confdock-service/src/diff.rs:158-211 | each token is one line; only the last may lack a terminator |
| RevisionDiff.FastCountIsRight | crates/confdock-service/src/diff.rs:213-222 | the fast count is the number of tokens |
| RevisionDiff.BodyEndings | crates/confdock-service/src/diff.rs:158-211 | the class of line endings is the same with and without the byte-order mark |
| RevisionDiff.ParseSource | crates/confdock-service/src/diff.rs:158-211 | the one-pass loop gives the tokens, and the same line-ending class as the two other classifiers |
| DiffHunks.PushOutputLine | crates/confdock-service/src/diff.rs:350-356 | the budget is exceeded exactly beyond the limit |
| DiffHunks.BuildHunk | crates/confdock-service/src/diff.rs:236-348 | the hunk of the group with every line numbered, or an error when the budget is exceeded |
| DiffHunks.BuildRevisionDiff | crates/confdock-service/src/diff.rs:67-150 | each limit in its order; then the complete diff or an error, never a part |
| DiffPatch.HunksArePatch | crates/confdock-service/src/diff.rs:101-149 | the hunks turn the old lines into the new and, reversed, the new into the old |
| DiffPatch.DiffIsComplete | crates/confdock-service/src/diff.rs:101-149 | patch both ways, counts account for the length difference, no hunks though different means only the mark differs |
| DiffRebuilt.DiffRebuilds | crates/confdock-service/src/diff.rs:101-149 | from either source and the diff alone the other source is rebuilt byte for byte, mark included, and the document fields describe it |
| DiffRebuilt.DiffAnswers | crates/confdock-service/src/diff.rs:67-99 | the call fails exactly beyond 8388608 bytes, 200000 lines in or 10000 lines out, or for bytes that are no text |
| DiffRebuilt.ClassIs | crates/confdock-service/src/diff.rs:158-222 | the class of line endings is that of the lines' terminators |
| DiffClient.DecodeLine | web/src/api/httpApi.ts:257-290 | accepts exactly the well-formed lines |
| DiffClient.DecodeHunk | web/src/api/httpApi.ts:292-343 | accepts exactly hunks whose numbers run on, whose counts match and that contain a change |
| DiffClient.DecodeDiff | web/src/api/httpApi.ts:345-425 | accepts exactly diffs in order, without overlap, with matching totals and identity |
| DiffChecks.HunkMeans | web/src/api/httpApi.ts:257-343 | a hunk is accepted exactly when every line has the number that the lines before it leave for it, counts match and something changes |
| DiffChecks.DiffMeans | web/src/api/httpApi.ts:345-425 | a diff is accepted exactly when its hunks fit, stand in order and apart and add up, and identity and metadata agree |
| DiffClient.ClientAcceptsServer | web/src/api/httpApi.ts:345-425 | whatever the service emits, for any script and grouping, passes every check of the browser |
| EditorText.DetectEditorLineEnding | web/src/lib/bytes.ts:50-62 | the browser's classifier agrees with the other two |
| EditorText.BytesRoundTrip | web/src/lib/bytes.ts:113-141 | encode after decode is the identity iff the endings are mixed or there is no second mark |
| Witnesses.SecondMarkIsLost | web/src/lib/bytes.ts:113-141 | a valid, unmixed document of two marks is not written back as it was |
| EditorText.TextRoundTrip | web/src/lib/bytes.ts:113-141 | decode after encode is the identity iff no leading U+FEFF and, outside CRLF documents, no CRLF in the text |
| EditorText.NeverMixed | web/src/lib/bytes.ts:127-141 | what the editor writes back never has mixed line endings |
| EditorText.MixedIsRefused | web/src/lib/bytes.ts:128-141 | in a document of mixed endings only the text as shown is written back, as its own bytes |
| EditorSpan.DecodesNext | web/src/lib/bytes.ts:189-211 | on well-formed bytes the masks give the next character and its width |
| EditorSpan.DecodeIsMasked | web/src/lib/bytes.ts:189-211 | on any bytes the decoding is what the masks give, bytes behind the end being zero |
| EditorSpan.OffsetToIndex | web/src/lib/bytes.ts:158-183 | the loop, on any bytes and any text, gives what the recursive walk gives |
| EditorSpan.WalkedIsIndex | web/src/lib/bytes.ts:158-183 | on valid bytes that is the index of the unit the offset lies in, up to the length of the text |
| EditorSpan.WalkedMonotone | web/src/lib/bytes.ts:158-183 | on any bytes, valid or not, a larger offset maps to no smaller index |
| EditorSpan.SpanToEditorRange | web/src/lib/bytes.ts:150-187 | both ends walked, ordered and within the shown text, for any bytes and any lossy decoding |
| EditorSpan.RangeIsRangeOf | web/src/lib/bytes.ts:150-187 | for a valid document with at most one mark this is the range in its text |
| EditorSpan.SecondMarkShifts | web/src/lib/bytes.ts:150-187 | with a second mark every position behind it is one unit late |
| EditorSpan.IndexMonotone | web/src/lib/bytes.ts:158-183 | the offset map never goes backwards |
| EditorSpan.SpanIsText | web/src/lib/bytes.ts:150-187 | the UTF-16 range of a span on boundaries holds the LF-normalised decoding of exactly its bytes |
| EditorSpan.SpanLines | web/src/components/SourceEditor.tsx:172-173 | the marked lines run from the line feeds before the span's first byte to those before its last |
| EditorLines.LineStarts | web/src/lib/lines.ts:12-18 | one start for the text and one after every line feed |
| EditorLines.LineAt | web/src/lib/lines.ts:25-34 | the binary search finds the last start not after the index |
| EditorLines.SearchIsLineOf | web/src/lib/lines.ts:25-34 | which is one more than the line feeds before the index |
| EditorLines.LineColumn | web/src/lib/lines.ts:37-44 | line and column determine the index; no line feed lies between |
| EditorLines.LinesInRange | web/src/lib/lines.ts:61-71 | consecutive lines from the first to the last index |
| EditorLines.LinesAreTouched | web/src/lib/lines.ts:61-71 | exactly the lines that some unit of a non-empty range is on |
| Store.Connection.CreateProject | crates/confdock-service/src/storage.rs:118-188 | inserts, then sets both pointers, all or nothing |
| Store.Connection.SaveRevision | crates/confdock-service/src/storage.rs:190-207 | the save transaction, rolled back on any error |
| Store.Connection.PublishProject | crates/confdock-service/src/storage.rs:209-270 | the publish transaction, rolled back on any error |
| Store.Connection.RenameProject | crates/confdock-service/src/storage.rs:591-622 | the rename transaction |
| Store.Connection.DeleteProject | crates/confdock-service/src/storage.rs:624-634 | the delete with its cascades |
| Store.Connection.CreateTokenInner | crates/confdock-service/src/storage.rs:680-729 | a token with a new id and secret, or nothing |
| Store.Connection.UpdateTokenInner | crates/confdock-service/src/storage.rs:754-804 | the conditional update and its two refusals |
| Store.Connection.RevokeTokenInner | crates/confdock-service/src/storage.rs:849-869 | an active token is marked revoked |
| Store.Connection.DeleteRevokedTokenInner | crates/confdock-service/src/storage.rs:826-847 | only a revoked token is purged |
| Store.Connection.SubscriptionAt | crates/confdock-service/src/storage.rs:881-917 | the served bytes of the active, unexpired token's project and one use recorded, or an internal error when either statement fails |
| StoreOutcomes.CreateSucceeds | crates/confdock-service/src/storage.rs:139-188 | a create under fresh ids succeeds and writes just what it was given |
| StoreOutcomes.SaveStamps | crates/confdock-service/src/storage.rs:475-556 | a save writes the validation and the time, and of the project nothing else but the draft |
| StoreOutcomes.PublishWrites | crates/confdock-service/src/storage.rs:226-270 | a publish writes what is served and the time, and otherwise says why not |
| StoreOutcomes.RenameSucceeds | crates/confdock-service/src/storage.rs:601-622 | a rename succeeds iff the project is there, and writes the name and the time |
| StoreOutcomes.DeleteLeaves | crates/confdock-service/src/storage.rs:624-634 | a delete succeeds iff the project is there; what it leaves is unchanged |
| StoreOutcomes.IssueSucceeds | crates/confdock-service/src/storage.rs:680-733 | a token is issued iff the project is there, active, unused and with the expiry asked for |
| StoreOutcomes.UpdateWrites | crates/confdock-service/src/storage.rs:754-804 | an update writes name and expiry alone, and otherwise says why not |
| StoreOutcomes.RevokeSucceeds | crates/confdock-service/src/storage.rs:849-869 | a revoke succeeds iff the token is active in the project, which it then is not; other tokens stay |
| StoreOutcomes.PurgeSucceeds | crates/confdock-service/src/storage.rs:826-847 | a token is removed iff it is the project's and revoked, and it alone |
| StoreOutcomes.TouchWrites | crates/confdock-service/src/storage.rs:909-916 | a use is recorded in the time of the last use alone |
| StoreSafety.RunKeepsInv | crates/confdock-service/src/storage.rs:139-589 | in every reachable store histories are linear, all sources validated, ids unique |
| StoreRuns.EffectValidated | crates/confdock-service/src/routes/projects.rs:73-93 | every stored source passed its project's validator although validation precedes the transaction |
| StoreSafety.HistoryIsLinear | crates/confdock-service/src/storage.rs:475-589 | numbers are 1 to n without gap or double, current is n, served among them |
| StorePaging.RowsKept | crates/confdock-service/src/storage.rs:559-589 | in any run a live project's revisions all stay, unchanged |
| StoreSafety.PointersForward | crates/confdock-service/src/storage.rs:226-270 | neither the draft nor the served number ever decreases |
| StoreSafety.SaveSucceeds | crates/confdock-service/src/storage.rs:475-556 | a save succeeds iff the expected revision is the draft and a number is left if one is needed |
| StoreSafety.SaveKeeps | crates/confdock-service/src/storage.rs:505-523 | saving the draft's own bytes makes no revision and moves no pointer |
| StoreSafety.SaveGrows | crates/confdock-service/src/storage.rs:525-556 | saving other bytes makes exactly one revision on top of the expected one and moves only the draft |
| StoreSafety.SaveRefused | crates/confdock-service/src/storage.rs:475-505 | any other save changes nothing and says why |
| StoreSafety.NoLostUpdate | crates/confdock-service/src/storage.rs:475-556 | in any run at most one save naming an expected revision makes a new one |
| StoreSafety.PublishSucceeds | crates/confdock-service/src/storage.rs:226-270 | a publish succeeds iff the caller knows the draft and, where they differ, what is served |
| StoreSafety.PublishServesNamed | crates/confdock-service/src/storage.rs:226-270 | then the served revision is the one the caller named; otherwise nothing changes |
| StoreSafety.ServedWasPublished | crates/confdock-service/src/storage.rs:226-270 | whatever is served in any run was named by its create or by an earlier publish |
| StoreServing.RevisionHandedIn | crates/confdock-service/src/storage.rs:559-589 | every stored revision holds the bytes that a create or a save handed in under its id |
| StoreServing.ProjectFounded | crates/confdock-service/src/storage.rs:139-188 | every project keeps the target and file name of its create |
| StoreServing.DrawnOnce | crates/confdock-service/src/storage.rs:146-147 | no id is drawn twice, so there is one such request |
| StoreServing.ServesWhatWasHandedIn | crates/confdock-service/src/storage.rs:881-917 | in any run a plaintext is answered iff it has a live token, with the bytes and the file name that were handed in |
| StoreSafety.AnswerUnique | crates/confdock-service/src/storage.rs:881-917 | a plaintext has one answer |
| StoreSafety.SubscriptionUnmoved | crates/confdock-service/src/storage.rs:881-917 | no save, rename or validation changes what a subscription answers |
| StoreSafety.RevokedForever | crates/confdock-service/src/storage.rs:826-917 | a revoked token never becomes active again and its plaintext never gets an answer |
| StoreServing.TokenAccounted | crates/confdock-service/src/storage.rs:680-869 | in any run a token has the project and secret of its issue, the name and expiry of the last request that set them, and is revoked iff a revoke succeeded |
| StoreServing.RevokeSilences | crates/confdock-service/src/storage.rs:849-869 | after a successful revoke the plaintext is answered with "not found" for good, and no other token is touched |
| StoreSafety.UpdateTokenSucceeds | crates/confdock-service/src/storage.rs:754-804 | a token is updated iff active and as the caller last saw it; other tokens stay |
| StoreSafety.DeleteCascades | crates/confdock-service/src/storage.rs:624-634 | a delete takes along exactly the project's revisions and tokens |
| StorePaging.RowsAreTake | crates/confdock-service/src/storage.rs:64-77 | the ordered, limited query has one answer: the revision's ancestors, newest first |
| StorePaging.PageIsChain | crates/confdock-service/src/storage.rs:290-342 | a page is the next ancestors, its cursor the last of them iff more follow |
| StorePaging.PageTells | crates/confdock-service/src/storage.rs:290-342 | a page counts down from the draft or below its cursor, goes on iff it does not reach the first, and every item tells of its revision and the two pointers |
| StorePaging.ListRefused | crates/confdock-service/src/storage.rs:272-310 | which limits, projects and cursors are refused, and how |
| StorePaging.PagingIsExact | crates/confdock-service/src/storage.rs:290-342 | following cursors under concurrent writes lists each revision of the first snapshot once, newest first |
| RevisionPages.DecodePage | web/src/api/httpApi.ts:427-467 | accepts exactly the pages without duplicates, with the right cursor and at most one of each pointer |
| DiffChecks.PageMeans | web/src/api/httpApi.ts:427-467 | a page is accepted exactly when its items are well formed and pairwise different and its cursor is that of the last |
| HistoryPaging.BrowserAcceptsPage | web/src/api/httpApi.ts:427-467 | every page the service answers is accepted |
| HistoryPaging.CursorStaysUsable | crates/confdock-service/src/storage.rs:290-342 | a cursor handed out is answered with a page however the live project evolves |
| HistoryPaging.TimelineFollows | web/src/components/RevisionHistory.tsx:156-200 | following the service's cursors the timeline never reports a repeated one and ends with the exact history |
| PagingRuns.PagingInRun | crates/confdock-service/src/storage.rs:290-342 | pages read at later and later points of any run of the store list exactly the history at the first of them |
| PagingRuns.ComponentShowsHistory | web/src/components/RevisionHistory.tsx:246-398 | the component, asking for more until it no longer does, ends up showing exactly that history |
| TimelineRuns.AlwaysInv | web/src/components/RevisionHistory.tsx:246-398 | with failed requests, late answers and new cycles against any run of the store, the list, its cursor and the answers under way fit one history |
| TimelineRuns.FrontOfHistory | web/src/components/RevisionHistory.tsx:246-398 | at every moment the list is the newest part of the history at the cycle's first page, all of it iff no cursor is left, and otherwise more can be asked for |
| RevisionHistory.MergeRevisionItems | web/src/components/RevisionHistory.tsx:78-90 | appends each new item once, in order |
| RevisionHistory.AdditionsDistinct | web/src/components/RevisionHistory.tsx:78-90 | merging any page into distinct items keeps them distinct |
| RevisionHistory.AdditionsComplete | web/src/components/RevisionHistory.tsx:78-90 | no id of a page is lost and none is invented |
| RevisionHistory.ApplyRevisionPage | web/src/components/RevisionHistory.tsx:156-200 | same cursor, cycle or merge, with the sets it leaves |
| RevisionHistory.Timeline.StartEffect | web/src/components/RevisionHistory.tsx:246-271 | a new cycle forgets the old one |
| RevisionHistory.Timeline.StartLoadMore | web/src/components/RevisionHistory.tsx:346-364 | reserves the cursor or gives up |
| RevisionHistory.Timeline.Resume | web/src/components/RevisionHistory.tsx:365-398 | what each answer does to the component, if it is still awaited |
| RevisionHistoryRuns.AlwaysInv | web/src/components/RevisionHistory.tsx:78-200 | against any server the ids stay distinct in every reachable state |
| RevisionHistoryRuns.OnlyAppends | web/src/components/RevisionHistory.tsx:78-200 | within a cycle items are only appended |
| RevisionHistoryRuns.LateIsIgnored | web/src/components/RevisionHistory.tsx:203-205 | an answer to a request that is not the latest changes nothing |
| RevisionHistoryRuns.ReservedOnce | web/src/components/RevisionHistory.tsx:127-150 | no cursor is reserved twice without a release or a new cycle between |
| RevisionHistoryRuns.PagesBounded | web/src/components/RevisionHistory.tsx:156-200 | at most k + 1 pages per cycle when cursors come from a set of k |
| RevisionHistoryRuns.WhenGivenUp | web/src/components/RevisionHistory.tsx:365-398 | after an unreadable answer or a repeated cursor the items stay and nothing more is asked; after a failure the cursor can be asked again |
| RevisionHistoryRuns.Refusals | web/src/components/RevisionHistory.tsx:127-200 | each refusal of a cursor or a page has its reason |
| ProjectEditor.MutationGate.BeginWrite | web/src/state/useProject.ts:82-87 | admits one token at a time |
| ProjectEditor.MutationGate.FinishWrite | web/src/state/useProject.ts:91-95 | only the current token of the current generation frees the gate |
| ProjectEditor.MutationGate.InvalidateAll | web/src/state/useProject.ts:78-81 | a new generation with a free gate |
| ProjectEditorRuns.AlwaysInv | web/src/state/useProject.ts:101-325 | the invariant of gate, flags, requests and answers holds in every interleaving |
| ProjectEditorRuns.OneWriteInFlight | web/src/state/useProject.ts:74-97 | at most one save or publish of a generation is under way |
| ProjectEditorRuns.AppliedToItsOwn | web/src/state/useProject.ts:229-321 | an answer is applied only to the generation and project that asked |
| ProjectEditorRuns.CurrentIsAdopted | web/src/state/useProject.ts:229-255 | an answer to the current generation is adopted and frees the gate |
| ProjectEditorRuns.WhatAnswersChange | web/src/state/useProject.ts:235-321 | save and publish keep the local name, publish the edited bytes, rename all but the name |
| ProjectEditorRuns.RenameShows | web/src/state/useProject.ts:300-322 | the answer to a rename of the shown project puts its name and time on screen, any other changes nothing |
| ProjectEditorRuns.LoadRefused | web/src/state/useProject.ts:116-153 | a load that fails or finds nothing says which |
| ProjectEditorRuns.RequestsAccounted | web/src/state/useProject.ts:218-325 | every request under way was sent by the user's own action with what was shown and edited then |
| ProjectEditorRuns.WhenSent | web/src/state/useProject.ts:218-298 | when a save or a publish is sent |
| ProjectEditorRuns.BusyMeansBusy | web/src/state/useProject.ts:218-298 | while a write is under way its flag is up and no other write starts |
| ProjectEditorRuns.NeverBackwards | web/src/state/useProject.ts:116-325 | within a generation the local revision numbers never go backwards |
| EditorOverStore.TransactionIsForward | crates/confdock-service/src/storage.rs:139-589 | every transaction of the store is one the editor's protocol allows its service |
| EditorOverStore.DeletedStays | crates/confdock-service/src/storage.rs:624-634 | a deleted project never comes back under its id |
| EditorOverStore.ViewIsRow | crates/confdock-service/src/storage.rs:935-945 | a project answer is the project's row as the transaction leaves it |
| EditorSystem.RunOfClient | web/src/state/useProject.ts:101-325 | every run of editor and store together is, seen from the editor, one of its own runs |
| EditorSystem.RowsNeverBack | crates/confdock-service/src/storage.rs:139-634 | every run of the store shows rows that only move forward, a deleted one for good |
| EditorSystem.ShownNeverBackwards | web/src/state/useProject.ts:116-325 | in the whole system the shown revision numbers never go backwards within a generation |
| EditorSystem.ShownNeverAhead | web/src/state/useProject.ts:116-325 | nor are they ever ahead of the store |
| EditorSystem.SavedOnTop | web/src/state/useProject.ts:218-255 | in any run a confirmed save lies directly on the revision the user was editing and holds the user's bytes |
| PublicUrl.MemoryIsRow | crates/confdock-service/src/routes/settings.rs:30-37 | in every run, over restarts, memory equals the stored row whenever no writer holds the lock |
| PublicUrl.FailedChangesNothing | crates/confdock-service/src/routes/settings.rs:30-37 | a failed update leaves both as they were |
| PublicUrl.UpdatedIsBoth | crates/confdock-service/src/routes/settings.rs:30-37 | a successful update has made both its value when it lets go of the lock |
| PublicUrl.TokenUsesStored | crates/confdock-service/src/routes/tokens.rs:41-55 | a created token's URL uses the value stored when its row is committed |
| PublicUrl.UnstableDisagrees | crates/confdock-service/src/state.rs:142-153 | a URL whose normal form has yet another normal form makes memory and row differ on the first start |
| PublicUrl.BootMeans | crates/confdock-service/src/state.rs:142-147 | a start keeps the stored row; only the first stores the configured URL |
| PublicUrl.RowAccounted | crates/confdock-service/src/routes/settings.rs:30-37 | the stored row is the URL of the last stored update, before any the first configured one |
| PublicUrl.UpdateAccounted | crates/confdock-service/src/routes/settings.rs:30-37 | an update's URL is the normal form of what was asked for |
| PublicUrl.Service.UpdateLocked | crates/confdock-service/src/routes/settings.rs:30-37 | the statements under the write lock are the protocol's two steps; both memory and row get the value, or neither |
| PublicUrl.Service.CreateLocked | crates/confdock-service/src/routes/tokens.rs:41-55 | the statements under the read lock are the protocol's two steps; the URL is that of the stored row |

## Left out

- DiffHunks.BuildRevisionDiff: the wall-clock deadline only changes which script the diff library returns, and the
  contract admits any script, so the deadline itself is not modelled.
- JsonStrict.ParseComplete: the JSON library also refuses nesting past its limit and numbers outside the double range
  (`1e999`), which the grammar derives and the gate accepts here; its error positions and texts are not modelled.
- JsonEdit.ParseJsonDocument: the same library stands behind it, so any grammatical document passes here.
- JsonNames.EditAnswers: for the same reason it answers for every grammatical document and literal.
- Mihomo.ApplyEdit: the YAML parser and its integer reading are parameters; that an edited document still passes
  the YAML gate is assumed where `MihomoEdit.LaterPortOverrides` needs it.
- MihomoPlaces.RootPortIsEdited: where the scalars of a reading stand is a contract (`Placed`) that the reading of the
  YAML library is taken to keep to; it does not say which readings a text has.
- StoreSafety.RunKeepsInv: SQLite, pooling, migrations and write-ahead logging are not modelled; a transaction is one
  atomic step, and a failed statement is a step that changes nothing. Content hashes are not a column of the tables;
  the pages carry the hash of the source, by a function that is a parameter.
- StoreSafety.RevokedForever: a token's secret stands for its hash, so the hash is taken to be injective.
- StorePaging.PagingIsExact: deleting the project ends a traversal; nothing is claimed beyond that point.
- ProjectEditorRuns.AlwaysInv: callbacks are invoked from the latest render; a handler that keeps an older closure is
  not modelled. React's batching is reduced to renders and effects as separate steps.
- ProjectEditorRuns.CurrentIsAdopted: text typed while a save is under way is replaced by the saved bytes, as the code
  does; nothing is claimed about keeping it.
- RevisionHistory.Timeline.Resume: selecting, comparing and showing a revision, and the error texts, are left out.
- EditorText.BytesRoundTrip: invalid UTF-8 is shown with replacement characters by the code; the model has no text for
  it, and in `EditorSpan` the lossy decoder is a parameter.
- EditorSpan.SpanIsText: documents with a second byte-order mark are outside its precondition, because their text
  lacks a character that the walk counts; `EditorSpan.SecondMarkShifts` says what happens there.
- PublicUrl.MemoryIsRow: a process that dies between storing the row and assigning memory is covered, an update that is
  cancelled there while the process goes on is not. Normalising a URL is a parameter.
- EditorSystem.RunOfClient: a request is carried out by at most one transaction and answered once; the validation that
  precedes a save is a step of its own.
- HTTP routing, sessions, passwords, throttling, the command line, configuration precedence and embedded assets.
- The adapters for Loon, Surge, Shadowrocket and Quantumult X, schemas and detection: tables around the INI code,
  whose options are parameters here.
- Listing projects and tokens, reading one revision, and the timestamp formats: reads of one row or table.
- `byteOffsetToCharIndex` and `charIndexToByteOffset`, base64 and the content fingerprint in `web/src/lib/bytes.ts`.
