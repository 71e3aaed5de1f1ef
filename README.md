# transl8 translation-key engine in Dafny

This project models the core of transl8, an editor extension for JavaScript, TypeScript and Vue
sources. It keeps a JSON translation file as a flat map from dot-separated keys to entries of the
form `[value, context?]`. The model covers:

- the JSON document and the writer `updateValueInObject`, which stores an entry at a
  dot-separated key path and creates the missing objects on the way (`Utils`, over the `JsonTree`
  document model);
- the flatteners `flattenObjectToMap` and the loaders `loadTranslations` and
  `loadTranslationsFromFile` (`TranslationManager`, `Extension`). A JavaScript `Map` is an
  association list that keeps each key where it was first inserted (`OrderedMap`);
- the call-pattern scanner: the global regular expression
  `(?:names)\s*\(\s*['"]([^'"]+)['"]\s*\)` run with `exec` from left to right, the escaping of the
  function names, and the key span inside a match (`CallScanner`);
- the hover, the missing-key diagnostics and the key completion (`HoverProvider`, `Diagnostics`,
  `CompletionProvider`), and the second, unescaped hover and completion kept in `extension.ts`
  (`Extension`);
- the edit-translation command in both versions: `commands.ts`, with its collision check, and
  `extension.ts`, without one (`Commands`, `Extension`);
- the extension state that `reloadConfiguration` and the file watcher's delete handler update
  (`Extension.ExtensionState`).

The editor, the file system and the input boxes are parameters:

- a `Disk` value says whether the translation file is missing, unreadable, malformed or holds a
  parsed JSON value;
- a boolean says whether the final write succeeded;
- the answers to the two prompts are `Option<string>` values, with `None` for a dismissed prompt.

JavaScript semantics are written out where they matter:

- `typeof` is `"object"` for arrays;
- `Map.set` on an existing key keeps its position;
- the empty prefix is falsy;
- an empty name list produces the alternative `(?:)`, which matches the empty string;
- `!==` is strict equality;
- `||` follows truthiness;
- indexing a string yields its one-character substrings;
- assigning a property on a parsed value that is not an object or array throws.

## Model

| member | source | states |
|---|---|---|
| Strings.Split | src/transl8/utils.ts:14 | `keyPath.split(".")` yields at least one segment, none containing a dot, and joining them back with dots gives the key path |
| Strings.SplitJoin | src/transl8/utils.ts:14 | splitting dot-joined dot-free segments gives the segments back |
| Strings.JoinInjective | src/transl8/translationManager.ts:25 | two dot-free segment lists with the same dotted key are equal, so a dotted key names exactly one path |
| Strings.IndexOfFrom | src/transl8/hoverProvider.ts:40 | `indexOf` returns -1 or the first position at or after `from` where the substring occurs |
| Strings.Repeat | src/transl8/hoverProvider.ts:65 | `"&nbsp;".repeat(n)` has n times the length and is the string followed by n-1 more copies |
| OrderedMap.Get | src/transl8/translationManager.ts:66 | `Map.get` is undefined exactly for keys never set |
| OrderedMap.Put | src/transl8/translationManager.ts:35 | `Map.set` stores the value under the key, keeps an existing key's position, appends a new key at the end and never duplicates a key |
| OrderedMap.GetPutOther | src/transl8/translationManager.ts:35 | setting one key leaves every other key's value unchanged |
| OrderedMap.PutSameKeyTwice | src/transl8/translationManager.ts:35 | setting a key twice equals setting it once to the later value |
| OrderedMap.PutCommute | src/transl8/translationManager.ts:35 | sets of two different keys commute when the first key is already present |
| OrderedMap.MergeAppend | src/transl8/translationManager.ts:35 | copying a concatenation entry by entry equals copying its two parts one after the other |
| OrderedMap.MergeKeepsDistinct | src/transl8/translationManager.ts:65-67 | copying entries into a map never creates a duplicate key |
| OrderedMap.MergeHasSourceKeys | src/transl8/translationManager.ts:65-67 | every copied key is in the result |
| OrderedMap.MergeThroughFresh | src/transl8/translationManager.ts:34-35 | copying a map built in a fresh `Map` equals copying its entries directly, which is why the recursive flattening is a walk over leaves |
| OrderedMap.MergeIntoEmpty | src/transl8/translationManager.ts:65-67 | copying a map with distinct keys into an empty map reproduces it exactly |
| OrderedMap.GetMerge | src/transl8/translationManager.ts:65-67 | after copying, each key holds the last value the source gave it, or its old value when the source does not mention it |
| OrderedMap.MergeEntries | src/transl8/translationManager.ts:65-67 | every entry of a copy comes from the destination or the source |
| OrderedMap.LastValueUniform | src/transl8/translationManager.ts:35 | a key whose every source entry has the same value ends with that value |
| JsonTree.Set | src/transl8/utils.ts:21 | assigning a property keeps an object an object and an array an array, and reads back the assigned value |
| JsonTree.GetSetOther | src/transl8/utils.ts:21 | assigning one property leaves every other property unchanged |
| JsonTree.SetTwice | src/transl8/utils.ts:27 | assigning a property twice equals assigning it once to the later value |
| JsonTree.SetWellFormed | src/transl8/utils.ts:27 | assigning a well-formed value keeps a document well formed (no duplicate names, array holes only below the length) |
| JsonTree.ArrayIndexInjective | src/transl8/utils.ts:20-23 | only one property name denotes a given array index |
| Utils.Descend | src/transl8/utils.ts:19-23 | one step of the walk always lands on an object: the existing child when it is an object or array, a fresh `{}` otherwise |
| Utils.Written | src/transl8/utils.ts:9-28 | writing into an object or array keeps its kind |
| Utils.UpdateValueInObject | src/transl8/utils.ts:9-28 | the in-place walk leaves the document equal to the pure write of the value at the split key path |
| Utils.WrittenReaches | src/transl8/utils.ts:18-27 | after the write, following the key path reaches exactly the written value |
| Utils.WrittenIntoEmpty | src/transl8/utils.ts:20-22 | writing into an empty object builds the chain of nested objects ending in the value |
| Utils.FreshObjectForNonObject | src/transl8/utils.ts:20-22 | a missing, null or primitive intermediate value is replaced by a new object holding only the rest of the path |
| Utils.ExistingObjectKept | src/transl8/utils.ts:20-23 | an existing intermediate object or array is reused, and none of its other properties change |
| Utils.WrittenElsewhereUnchanged | src/transl8/utils.ts:9-28 | every path that diverges from the key path reads the same value after the write |
| Utils.WrittenIdempotent | src/transl8/utils.ts:9-28 | writing the same value at the same path twice equals writing it once |
| Utils.WrittenWellFormed | src/transl8/utils.ts:9-28 | writing a well-formed value keeps the document well formed |
| Utils.DotFreeKeyIsTopLevel | src/transl8/utils.ts:14-27 | a key without a dot is a single top-level assignment |
| Utils.SegmentsPerDot | src/transl8/utils.ts:14 | a key path has one segment more than it has dots |
| Utils.EmptySegmentIsLiteral | src/transl8/utils.ts:14 | consecutive dots produce an empty property name rather than being skipped |
| TranslationManager.FlattenIsMergeOfLeaves | src/transl8/translationManager.ts:16-43 | the recursive flattener with nested maps equals copying, in depth-first order, every kept leaf under its dotted key |
| TranslationManager.FlattenIsMapOfLeaves | src/transl8/translationManager.ts:16-43 | the flattened map is the depth-first list of kept leaves put into an empty map |
| TranslationManager.LeavesAreKept | src/transl8/translationManager.ts:28-39 | every leaf the walk reports is one the policy keeps: arrays only in `translationManager.ts`, any non-object in `extension.ts` |
| TranslationManager.FlattenKeepsOnlyArrays | src/transl8/translationManager.ts:36-39 | the loaded map holds arrays only; strings, numbers, booleans and null are dropped |
| TranslationManager.FlattenKeepsNoObject | src/extension.ts:291-300 | the `extension.ts` flattener stores every non-object leaf and never an object |
| TranslationManager.LaterLeafWins | src/transl8/translationManager.ts:35 | when two paths spell the same dotted key, the map holds the last leaf in walk order |
| TranslationManager.FlattenInWalkOrder | src/transl8/translationManager.ts:22-41 | when no two leaves share a dotted key, the map lists exactly the leaves in depth-first order |
| TranslationManager.FlattenPrimitive | src/transl8/translationManager.ts:22 | a parsed file that is null, a boolean or a number yields an empty map |
| TranslationManager.FlattenDistinct | src/transl8/translationManager.ts:16-43 | the flattened map never holds a key twice |
| TranslationManager.LeavesComplete | src/transl8/translationManager.ts:22-39 | every kept leaf reachable through objects appears under its dotted path key |
| TranslationManager.LeavesSound | src/transl8/translationManager.ts:22-39 | every reported entry is a value reachable in the document through objects |
| TranslationManager.OnlyLeafAtPlainPath | src/transl8/translationManager.ts:25 | with plain property names, an entry under a dotted key is exactly the value at that path |
| TranslationManager.FlattenAfterWrite | src/transl8/commands.ts:75-78 | in a well-formed object document (each object lists a name once) whose property names are plain (non-empty and free of `.`, so no name like `"a.b"` can stand beside the path `a` → `b`), after a write along a path of non-empty segments that meets no array, the flattened document maps the key to the written value |
| TranslationManager.NestedNumberSkipped | src/transl8/translationManager.ts:36-39 | `{"a":{"b":5}}` loads to an empty map |
| TranslationManager.NestedNumberKept | src/extension.ts:298-300 | the `extension.ts` flattener maps `{"a":{"b":5}}` to `a.b` = 5 |
| TranslationManager.EmptyObjectExample | src/transl8/translationManager.ts:28-35 | an empty nested object contributes no key |
| TranslationManager.EmptyNameExample | src/transl8/translationManager.ts:25 | below an empty property name the prefix stays empty, so the leaf's key has no leading dot |
| TranslationManager.CollidingKeysExample | src/transl8/translationManager.ts:35 | `{"a":{"b":x},"a.b":y}` loads to the single entry `a.b` = y |
| TranslationManager.FlattenLoaded | src/transl8/translationManager.ts:65-67 | copying the flattened map entry by entry into the cleared map reproduces it |
| TranslationManager.TranslationStore.LoadTranslations | src/transl8/translationManager.ts:49-78 | the map is cleared; a missing path or file leaves it empty silently, a read or parse failure leaves it empty and shows an error, otherwise it becomes the flattened file |
| CallScanner.SkipSpace | src/transl8/hoverProvider.ts:29 | `\s*` consumes the longest run of white space |
| CallScanner.SkipKeyChars | src/transl8/hoverProvider.ts:29 | `[^'"]+` consumes up to the next quote |
| CallScanner.MatchTail | src/transl8/hoverProvider.ts:29 | a tail match has a non-empty, quote-free key with a quote on each side and ends inside the text |
| CallScanner.MatchTailSound | src/transl8/hoverProvider.ts:29 | every tail match has the shape white space, `(`, white space, quote, key, quote, white space, `)` |
| CallScanner.MatchTailComplete | src/transl8/hoverProvider.ts:29 | every text of that shape is matched, with the key and end the regular expression gives |
| CallScanner.Alts | src/transl8/hoverProvider.ts:25-27 | the alternation is the name list, or the single empty alternative when there are no names |
| CallScanner.FirstAlt | src/transl8/hoverProvider.ts:28-31 | alternatives are tried in list order and the first that leads to a match wins |
| CallScanner.MatchAtNone | src/transl8/hoverProvider.ts:28-31 | there is no match at a position exactly when no alternative leads to one |
| CallScanner.MatchAtLocated | src/transl8/hoverProvider.ts:38 | a match's key sits between quotes after the call name |
| CallScanner.Exec | src/transl8/hoverProvider.ts:37 | `exec` returns a match that starts at or after `lastIndex` and ends inside the text |
| CallScanner.ExecIsMatchAt | src/transl8/hoverProvider.ts:37 | the match `exec` returns is the match at its own index |
| CallScanner.ExecLeftmost | src/transl8/hoverProvider.ts:37 | `exec` returns the leftmost match: no position before it starts one |
| CallScanner.AllMatches | src/transl8/hoverProvider.ts:36-44 | the `exec` loop yields matches that lie inside the text |
| CallScanner.AllMatchesAreMatches | src/transl8/hoverProvider.ts:36-44 | each match of the loop is the match at its index, at or after the start |
| CallScanner.AllMatchesInOrder | src/transl8/diagnostics.ts:33-34 | the loop's matches are in text order and do not overlap |
| CallScanner.AllMatchesLocated | src/transl8/diagnostics.ts:34-35 | every match of the loop carries a quoted key inside the call |
| CallScanner.AllMatchesCover | src/transl8/diagnostics.ts:33-34 | every position where a call starts lies inside one of the loop's matches, so a call is either reported or swallowed by an earlier match |
| CallScanner.Escape | src/transl8/hoverProvider.ts:26 | escaping never shortens a name |
| CallScanner.EscapeIsLiteral | src/transl8/hoverProvider.ts:26 | an escaped name, read back as a pattern, matches exactly the name |
| CallScanner.EscapeUnchanged | src/transl8/hoverProvider.ts:26 | escaping changes a name exactly when it contains a regular-expression metacharacter |
| CallScanner.EscapeLengthens | src/transl8/hoverProvider.ts:26 | a name with a metacharacter gets longer when escaped |
| CallScanner.SpanStartFacts | src/transl8/hoverProvider.ts:40 | the span start as written lies between the match start and the key and spells the key, and it is the key's position when the key does not occur earlier in the match |
| CallScanner.ProgramSpan | src/transl8/hoverProvider.ts:40-41 | the span as written is as long as the key |
| CallScanner.ProgramSpanFacts | src/transl8/hoverProvider.ts:40-41 | the span as written lies inside the match and spells the key, and it is the captured key's span exactly when the key does not occur earlier in the match |
| CallScanner.IndexOfFirst | src/transl8/hoverProvider.ts:40 | `indexOf` returns the first occurrence |
| CallScanner.KeySpan | src/transl8/hoverProvider.ts:40-41 | the span is as long as the key |
| CallScanner.KeySpanBetweenQuotes | src/transl8/hoverProvider.ts:40-41 | the corrected span lies inside the match, spells exactly the key and has a quote on each side |
| CallScanner.SpanStartMissesKeyExample | src/transl8/hoverProvider.ts:40 | on `t('t')` with the name `t`, the span as written starts at 0, on the callee, instead of at 3 |
| HoverProvider.FindHoveredKey | src/transl8/hoverProvider.ts:36-44 | the loop finds nothing exactly when no match's span as written (from `match.index + match[0].indexOf(key)`, as long as the key) holds the cursor, and otherwise the first match in text order whose span does |
| HoverProvider.PaddingReachesMinWidth | src/transl8/hoverProvider.ts:61-65 | key plus padding is at least 60 characters wide, and there is no padding exactly for keys of 60 or more characters |
| HoverProvider.HeadingIsPaddedKey | src/transl8/hoverProvider.ts:64-68 | the heading is the key followed by one `&nbsp;` per missing character |
| HoverProvider.NbspAt | src/transl8/hoverProvider.ts:65 | the n-th six characters of the spacer are `&nbsp;` |
| HoverProvider.ProvideHover | src/transl8/hoverProvider.ts:20-111 | no names means no hover; otherwise there is no hover exactly when no call's span as written holds the cursor, and the hover shows the first such key with its stored entry |
| HoverProvider.CursorTestsAgree | src/transl8/hoverProvider.ts:40-42 | when the key does not occur earlier in the call, the cursor test as written holds exactly when the cursor is on the captured key |
| HoverProvider.HoverSpanExample | src/transl8/hoverProvider.ts:40-42 | on `t('t')` with the name `t`, the cursor at 0 on the callee gets the hover and the cursor at 3 on the key does not |
| HoverProvider.StoredKeyShowsEntry | src/transl8/hoverProvider.ts:78-106 | the "no translation" content is shown exactly for keys that are not stored |
| HoverProvider.WrittenEntryShown | src/transl8/hoverProvider.ts:79-86 | a stored `[value, context]` entry shows that value and context, and `[value]` shows the no-comment text |
| HoverProvider.CommentShownUnlessAbsent | src/transl8/hoverProvider.ts:86 | the context placeholder appears exactly when the context is undefined or null, and otherwise the context itself is shown |
| Diagnostics.ScanMissingKeys | src/transl8/diagnostics.ts:24-53 | the `exec` loop pushes, in text order, one diagnostic per match whose key is not stored, over the span as written |
| Diagnostics.DiagnosticsAreMissingMatches | src/transl8/diagnostics.ts:38-51 | the diagnostics correspond one to one to the matches whose key is missing, each over that match's span as written |
| Diagnostics.MissingMatches | src/transl8/diagnostics.ts:38 | the missing matches are exactly the matches whose key is not in the map |
| Diagnostics.AllTranslatedMeansNoDiagnostics | src/transl8/diagnostics.ts:38 | when every matched key is stored there is no diagnostic |
| Diagnostics.NoMissingMatches | src/transl8/diagnostics.ts:38 | when every matched key is stored no match is missing |
| Diagnostics.DiagnosticInsideCall | src/transl8/diagnostics.ts:39-42 | a diagnostic's range as written lies inside its call and spells the key |
| Diagnostics.DiagnosticCoversKey | src/transl8/diagnostics.ts:39-42 | the range as written is the corrected one, between the key's quotes, exactly when the key's text does not occur earlier in the call; otherwise it starts before the key |
| Diagnostics.DiagnosticSpanExample | src/transl8/diagnostics.ts:39-42 | on `t('t')` with the name `t`, the diagnostic covers [0, 1), the callee, where the corrected one covers the key at [3, 4) |
| Diagnostics.OrderedMatchesOrderedDiagnostics | src/transl8/diagnostics.ts:32-53 | ordered, non-overlapping matches give diagnostics whose ranges as written strictly increase |
| Diagnostics.DiagnosticsInTextOrder | src/transl8/diagnostics.ts:32-55 | the published diagnostics, over the ranges as written, are in text order without overlap |
| Diagnostics.DiagnosticCollection.UpdateDiagnostics | src/transl8/diagnostics.ts:10-56 | without a configuration or outside JavaScript, TypeScript and Vue the collection is cleared; otherwise only this document's diagnostics are replaced by a fresh scan |
| Diagnostics.NoNamesChecksEveryCall | src/transl8/diagnostics.ts:24-30 | with no names configured, every quoted call is checked |
| CompletionProvider.SkipSpaceBack | src/transl8/completionProvider.ts:42 | reading `\s*` backwards stops after the longest run of white space |
| CompletionProvider.NameEndsAt | src/transl8/completionProvider.ts:37-42 | true exactly when some alternative ends at the position |
| CompletionProvider.NameEndsWithin | src/transl8/completionProvider.ts:37-42 | true exactly when some alternative ends in the range |
| CompletionProvider.EndsWithOpenCallCorrect | src/transl8/completionProvider.ts:41-45 | the backward check agrees, in both directions, with the regular expression `(?:names)\s*\(\s*['"]$` |
| CompletionProvider.SpaceRunStart | src/transl8/completionProvider.ts:42 | the backward skip stops exactly at a run's first white-space character |
| CompletionProvider.Items | src/transl8/completionProvider.ts:50-66 | one item per stored key, in the map's order |
| CompletionProvider.LinePrefix | src/transl8/completionProvider.ts:32-34 | the prefix starts the line and is as long as the cursor column, clipped to the line |
| CompletionProvider.ProvideCompletionItems | src/transl8/completionProvider.ts:18-66 | the keys are offered exactly when names are configured, the document lies under the source path and the line up to the cursor ends with an opened call |
| CompletionProvider.ItemDocumentation | src/transl8/completionProvider.ts:57-58 | an item shows "N/A" exactly when its stored entry is falsy, and otherwise the entry's first element |
| CompletionProvider.ArraysAlwaysShown | src/transl8/completionProvider.ts:57-58 | the loaded map, which holds arrays only, never shows "N/A" |
| CompletionProvider.NoNamesTriggerOnAnyOpenCall | src/transl8/completionProvider.ts:42 | with the empty alternative, any line ending in `(` and a quote matches |
| CompletionProvider.TriggerIgnoresWhatComesBefore | src/transl8/completionProvider.ts:45 | the unanchored test still matches when text is prepended |
| CompletionProvider.TriggerNeedsQuoteLast | src/transl8/completionProvider.ts:42 | a matching prefix ends with a quote |
| Commands.FirstCollision | src/transl8/commands.ts:38-45 | none exactly when no stored key lies below the key, and otherwise a stored key that does |
| Commands.FirstCollisionAt | src/transl8/commands.ts:38-45 | the loop stops at the first colliding key in map order |
| Commands.Context | src/transl8/commands.ts:67-69 | an empty or dismissed context answer becomes no context, and any other answer is kept |
| Commands.WriteOutcome | src/transl8/commands.ts:73-92 | a write either saves or fails |
| Commands.EditTranslation | src/transl8/commands.ts:22-92 | the outcome is, in this order: not configured, refused at the first stored key below the key, cancelled, unchanged when both answers equal the stored ones, and otherwise saved or failed |
| Commands.NotConfiguredExactly | src/transl8/commands.ts:22-28 | the command refuses as not configured exactly when the path is missing or empty or there is no workspace |
| Commands.RefusedExactlyBelow | src/transl8/commands.ts:37-45 | a configured command refuses exactly when some stored key lies below the key, and it names the first such key |
| Commands.BelowIsNotItself | src/transl8/commands.ts:39 | the `existingKey !== key` test is redundant |
| Commands.CancelWritesNothing | src/transl8/commands.ts:56-59 | dismissing the value prompt never saves |
| Commands.EmptyContextIsNoContext | src/transl8/commands.ts:67-69 | an empty context answer behaves exactly like a dismissed one |
| Commands.AbsentKeyUnchanged | src/transl8/commands.ts:48-72 | for a key that is not stored, the answers count as unchanged exactly when the value is empty and there is no context |
| Commands.SameAnswersUnchanged | src/transl8/commands.ts:72 | answers that repeat the stored value and a non-empty context write nothing; without a context it covers only the written `[value, undefined]` with its hole, which a parsed file never holds |
| Commands.StoredEmptyContextRewritten | src/transl8/commands.ts:64-72 | a stored empty context is rewritten even when the answers repeat it |
| Commands.ShortEntryUnchanged | src/transl8/commands.ts:72 | answers repeating a stored `[value]` with no context write nothing |
| Commands.ContextlessSaveRewritten | src/transl8/commands.ts:72-80 | for an entry read back as saved (`[value, ctx]`, or `[value, null]` without a context) the same answers are unchanged exactly when there is a context; without one the file is rewritten or the write fails |
| Commands.SavedAnswersUnchanged | src/transl8/commands.ts:72-80 | with a stored `null` context read as no context, repeating the answers of a save writes nothing, with or without a context |
| Commands.NullAwareOnlyDiffersOnNull | src/transl8/commands.ts:72 | the null-aware test decides as written except when no context is given and the stored context is `null` |
| Commands.NoCollision | src/transl8/commands.ts:38-45 | when no key lies below, the loop finds no collision |
| Commands.ChangeIsSaved | src/transl8/commands.ts:72-92 | a changed answer is saved exactly when the file parses to an object and the write succeeds, and the document becomes the write of `[value, context]` at the key |
| Commands.SavedEntryReloads | src/transl8/commands.ts:73-85 | after a save in a well-formed object document (each object lists a name once) whose property names are plain (non-empty and free of `.`, so no name like `"a.b"` can stand beside the path `a` → `b`), along a key path of non-empty segments that meets no array, reloading maps the key to the saved entry and the hover shows its value and context; the entry `[value, undefined]` keeps its hole, where the saved file has `null` |
| Extension.ExtensionState.LoadTranslationsFromFile | src/extension.ts:306-319 | the map becomes the flattened file, or empty with an error when the file cannot be read or parsed; the other state is unchanged |
| Extension.ExtensionState.OnTranslationFileDeleted | src/extension.ts:268-276 | deleting the file empties the map and changes nothing else |
| Extension.ExtensionState.ReloadConfiguration | src/extension.ts:201-278 | sets or clears the source path; without a translation path it warns and keeps names and translations; otherwise it replaces the names, warning when none are configured, and loads the file |
| Extension.EditTranslation | src/extension.ts:13-83 | the command's steps give the decision as written, which compares the new value with the whole stored entry, so an array entry never counts as unchanged |
| Extension.StoredArrayAlwaysRewritten | src/extension.ts:57 | as written, every answer for a stored array entry rewrites the file, even one repeating it |
| Extension.RewriteExample | src/extension.ts:57 | stored `["Hello"]` answered with "Hello" and no context is rewritten as written, and unchanged once corrected |
| Extension.SameAnswersUnchanged | src/extension.ts:57-66 | corrected, answers that repeat a stored `[value]` or `[value, context]` write nothing |
| Extension.AbsentKeyAnswers | src/extension.ts:36-57 | for a key that is not stored, the as-written test is unchanged exactly for an empty value without context, and the corrected test never is |
| Extension.ChangeIsSaved | src/extension.ts:57-80 | for the decision as written and the corrected one: a change is saved exactly when the file parses to an object and the write succeeds, as `[value]` or `[value, context]` at the key's path; there is no collision check |
| Extension.SavedEntryReloads | src/extension.ts:58-73 | after a save, as written or corrected, in a well-formed object document (each object lists a name once) whose property names are plain (non-empty and free of `.`, so no name like `"a.b"` can stand beside the path `a` → `b`), along a key path of non-empty segments that meets no array, reloading with this file's flattener maps the key to the saved entry, and the hover shows it |
| Extension.ShortEntryReloads | src/extension.ts:58-73 | writing `[value]` or `[value, context]` at a key's path of a well-formed document with plain names, along non-empty segments meeting no array, and flattening it again gives back that entry under the key, shown with its value and context |
| Extension.ProvideHover | src/extension.ts:131-188 | no names means no hover; otherwise the first call whose span as written, `match.index + match[0].indexOf(key)` for the key's length, holds the cursor decides, and the hover shows that key with its stored leaf |
| Extension.StoredStringShowsCharacters | src/extension.ts:164-172 | a stored string leaf shows its first character as the value and its second as the context |
| Extension.EntryItems | src/extension.ts:112-124 | one item per stored key, in the map's order |
| Extension.ProvideCompletionItems | src/extension.ts:85-129 | keys are offered exactly when the document lies under the source path and the line prefix ends with an opened call; there is no names guard |
| Extension.ItemShowsStoredEntry | src/extension.ts:120-122 | each item documents the whole entry stored under its key |
| Extension.NoNamesStillComplete | src/extension.ts:103-110 | with no names configured, any line ending in `(` and a quote offers every key |

## Left out

- File-system I/O, `path.isAbsolute`, `path.join`, `path.resolve` and `fs.existsSync`. The
  outcomes enter as a `Disk` value, a resolved source path and a write-success flag.
- `JSON.parse` and `JSON.stringify`. The model starts from the parsed value, and the saved
  document is the written value. The two-space format is not modelled. Neither is stringify's
  turning of an `undefined` array element into `null`: `commands.ts` writes `[value, undefined]`,
  which the model keeps as a hole (Commands.SavedEntry states the `null` form for the change
  test; see Findings). Nor is stringify's dropping of named properties of arrays: when the
  parsed file is an array, WriteOutcome reports `Saved` with the key added as a named property
  of the array, but the file written for it would not contain the key.
- Commands.SameAnswersUnchanged: without a context it holds only for the model's hole
  `[value, undefined]`, which a parsed file never contains. The parsed shapes are stated by
  Commands.ShortEntryUnchanged (`[value]`, unchanged) and Commands.ContextlessSaveRewritten
  (`[value, null]`, rewritten).
- Numbers are modelled as integers (`JNum(n: int)`). Fractions and exponents such as `1.5` or
  `1e400` are not represented; numbers matter only through truthiness and as leaves.
- File watchers (change and create both reload, as modelled), `console.log`, the Markdown text,
  the command URIs and the message texts. Hovers are modelled by their key and
  value/context content, and diagnostics by range and message.
- Positions are string offsets. `document.positionAt` is not modelled.
- The property order of `for...in`. JavaScript lists integer-like names first in ascending order;
  the model walks properties in insertion order. It does model the ascending index order of
  arrays.
- Extension.ProvideHover and Extension.ProvideCompletionItems: the regular expression in
  `extension.ts` is built from unescaped names, so a name containing a regular-expression
  metacharacter would change the pattern. The model treats names as literal text, which matches
  the source only for names without metacharacters (see CallScanner.EscapeUnchanged).
- `configuration.ts` and `quickFixProvider.ts` are not part of this model. The quick fix expects
  the diagnostic code `no-translation`, which `diagnostics.ts` never sets.
- Diagnostics.DiagnosticCollection.UpdateDiagnostics: the source calls `getConfigForUri` and uses
  the return value of `loadTranslations`, which returns nothing. The configuration and the
  translations are therefore inputs.
- HoverProvider.Padding, HoverProvider.Heading, CallScanner.KeySpan, CallScanner.SpanStart,
  CompletionProvider.LinePrefix, Extension.StoredStringShowsCharacters: lengths and offsets count
  characters, while JavaScript counts UTF-16 code units. Each character outside the Basic
  Multilingual Plane counts once here and twice in the source: a 1-character key "😀" gets 59
  `&nbsp;` in the model and 58 in the source, and spans, cursors and line prefixes after such a
  character are shifted by one per character.
- Utils.UpdateValueInObject, JsonTree.Set: JavaScript's special properties are treated as
  ordinary names. In the source a `__proto__` segment reads `Object.prototype`, so the walk
  writes into the prototype and the saved file lacks the key; assigning `length` on an array
  throws a `RangeError` or resizes the array. The model adds a named property in both cases.
- That `flattenObjectToMap` does not change its input holds by construction: the model's
  documents are values.
- Language filters, trigger characters and registration with the editor.

## Findings

| source | as written | input that shows it | evidently intended | confidence | as-written member | corrected member |
|---|---|---|---|---|---|---|
| src/transl8/hoverProvider.ts:40 | the key span (also `diagnostics.ts:39` and `extension.ts:150`) starts at the first occurrence of the key anywhere in the match, `match.index + match[0].indexOf(key)` | line `t('t')` with function name `t`: the span starts at 0, on the callee, instead of at 3 inside the quotes | the span of the captured key between the quotes | not executed | CallScanner.SpanStartMissesKeyExample | CallScanner.KeySpanBetweenQuotes |
| src/transl8/commands.ts:72 | `newCtx !== currentValue[1]` compares `undefined` with the `null` that `JSON.stringify` writes at line 80 for the context-less `[newValue, undefined]` of line 77 | save "Hello" with an empty context, so the file holds `["Hello", null]`; edit again with "Hello" and an empty context: the file is rewritten | read a stored `null` context as no context (`currentValue[1] ?? undefined`) | not executed | Commands.ContextlessSaveRewritten | Commands.SavedAnswersUnchanged |
| src/extension.ts:57 | `newValue !== currentValue` compares the new string with the whole stored entry, which is an array, so it is always true | stored `greeting: ["Hello"]`, answers "Hello" and an empty context: the file is rewritten | compare with `currentValue[0]`, as `commands.ts:72` does | not executed | Extension.StoredArrayAlwaysRewritten | Extension.SameAnswersUnchanged |
