/**
 * The older, self-contained implementation in `extension.ts`: a module-level map filled by its own
 * flattener (every leaf kept), the configuration it reloads, the file-deletion handler, its edit
 * command without the collision check, and its hover and completion providers over the names
 * as configured.
 */
module Extension {
  import opened Wrappers
  import opened Strings
  import opened OrderedMap
  import opened JsonTree
  import opened HostFile
  import opened Utils
  import opened TranslationManager
  import opened CallScanner
  import opened HoverProvider
  import opened CompletionProvider
  import opened Commands

  /** The warnings and errors one configuration reload shows. */
  datatype ReloadReport = ReloadReport(pathWarning: bool, namesWarning: bool, loadError: bool)

  /** The module-level state of `extension.ts`. */
  class ExtensionState {
    var translations: Assoc<Json>
    var absoluteSourceCodePath: Option<string>
    var targetFunctionNames: seq<string>

    constructor ()
      ensures translations == [] && absoluteSourceCodePath.None? && targetFunctionNames == []
    {
      translations := [];
      absoluteSourceCodePath := None;
      targetFunctionNames := [];
    }

    /**
     * `loadTranslationsFromFile(filePath)`: the map becomes the flattened document, keeping every
     * leaf; a file that cannot be read or parsed shows an error and clears the map.
     */
    method LoadTranslationsFromFile(disk: Disk) returns (errorShown: bool)
      modifies this
      ensures translations == (if disk.Holds? then Flatten(disk.root, AllLeaves) else [])
      ensures errorShown <==> !disk.Holds?
      ensures absoluteSourceCodePath == old(absoluteSourceCodePath) && targetFunctionNames == old(targetFunctionNames)
    {
      if !disk.Holds? {
        translations := [];
        return true;
      }
      translations := Flatten(disk.root, AllLeaves);
      errorShown := false;
    }

    /** The watcher's `onDidDelete` handler: `translations.clear()`. */
    method OnTranslationFileDeleted()
      modifies this
      ensures translations == []
      ensures absoluteSourceCodePath == old(absoluteSourceCodePath) && targetFunctionNames == old(targetFunctionNames)
    {
      translations := [];
    }

    /**
     * `reloadConfiguration()`. The source path is set from the configuration (resolved against
     * the workspace, an input here) or cleared. Without a translation file path it warns and
     * returns at once, keeping the names and translations it had; otherwise the names are
     * replaced (an absent setting reads as `[]`, with a warning) and the file is loaded.
     */
    method ReloadConfiguration(sourceCodePath: Option<string>, hasWorkspace: bool, resolvedSourcePath: string,
                               translationFilePath: Option<string>, functionNames: Option<seq<string>>, disk: Disk)
        returns (report: ReloadReport)
      modifies this
      ensures absoluteSourceCodePath
              == if sourceCodePath.Some? && sourceCodePath.value != "" && hasWorkspace then Some(resolvedSourcePath) else None
      ensures translationFilePath.None? || translationFilePath.value == "" ==>
        report == ReloadReport(true, false, false)
        && translations == old(translations) && targetFunctionNames == old(targetFunctionNames)
      ensures translationFilePath.Some? && translationFilePath.value != "" ==>
        targetFunctionNames == (if functionNames.Some? then functionNames.value else [])
        && translations == (if disk.Holds? then Flatten(disk.root, AllLeaves) else [])
        && report == ReloadReport(false, targetFunctionNames == [], !disk.Holds?)
    {
      if sourceCodePath.Some? && sourceCodePath.value != "" && hasWorkspace {
        absoluteSourceCodePath := Some(resolvedSourcePath);
      } else {
        absoluteSourceCodePath := None;
      }
      if translationFilePath.None? || translationFilePath.value == "" {
        return ReloadReport(true, false, false);
      }
      targetFunctionNames := if functionNames.Some? then functionNames.value else [];
      var namesWarning := |targetFunctionNames| == 0;
      var loadError := LoadTranslationsFromFile(disk);
      report := ReloadReport(false, namesWarning, loadError);
    }
  }

  /** `translations.get(key) || ""`. */
  function CurrentValue(entry: Option<Json>): Json {
    if entry.Some? && Truthy(entry.value) then entry.value else JStr("")
  }

  /** `newCtx === undefined ? [newValue] : [newValue, newCtx]`. */
  function ShortEntry(value: string, ctx: Option<string>): Json {
    if ctx.None? then JArr([Some(JStr(value))], []) else JArr([Some(JStr(value)), Some(JStr(ctx.value))], [])
  }

  /**
   * The negation of the change test as written: `newValue !== currentValue` compares the new value
   * with the whole current value, not with its first element.
   */
  predicate SameAsWritten(current: Json, value: string, ctx: Option<string>) {
    current == JStr(value) && StrictEqual(ctx, ElementAt(current, 1))
  }

  /** The change test with the value compared to the entry's first element, as `commands.ts` does it. */
  predicate SameAnswers(current: Json, value: string, ctx: Option<string>) {
    StrictEqual(Some(value), ElementAt(current, 0)) && StrictEqual(ctx, ElementAt(current, 1))
  }

  /** The edit command of `extension.ts` with its change test as written. */
  function EditDecisionAsWritten(filePath: Option<string>, hasWorkspace: bool, translations: Assoc<Json>, key: string,
                                 newValue: Option<string>, ctxAnswer: Option<string>, disk: Disk, writeOk: bool)
    : EditOutcome
  {
    if filePath.None? || filePath.value == "" || !hasWorkspace then NotConfigured
    else if newValue.None? then Cancelled
    else
      var current := CurrentValue(OrderedMap.Get(translations, key));
      var ctx := Context(ctxAnswer);
      if SameAsWritten(current, newValue.value, ctx) then Unchanged
      else WriteOutcome(disk, key, ShortEntry(newValue.value, ctx), writeOk)
  }

  /**
   * The edit command of `extension.ts` with the value compared to the current value's first
   * element. Unlike `commands.ts` it has no collision check and writes `[value]` when no context
   * is given.
   */
  function EditDecision(filePath: Option<string>, hasWorkspace: bool, translations: Assoc<Json>, key: string,
                        newValue: Option<string>, ctxAnswer: Option<string>, disk: Disk, writeOk: bool): EditOutcome
  {
    if filePath.None? || filePath.value == "" || !hasWorkspace then NotConfigured
    else if newValue.None? then Cancelled
    else
      var current := CurrentValue(OrderedMap.Get(translations, key));
      var ctx := Context(ctxAnswer);
      if SameAnswers(current, newValue.value, ctx) then Unchanged
      else WriteOutcome(disk, key, ShortEntry(newValue.value, ctx), writeOk)
  }

  /** The edit command handler of `activate`, over the current map, the prompts' answers and the file. */
  method EditTranslation(filePath: Option<string>, hasWorkspace: bool, translations: Assoc<Json>, key: string,
                         newValue: Option<string>, ctxAnswer: Option<string>, disk: Disk, writeOk: bool)
      returns (outcome: EditOutcome)
    ensures outcome == EditDecisionAsWritten(filePath, hasWorkspace, translations, key, newValue, ctxAnswer, disk, writeOk)
  {
    if filePath.None? || filePath.value == "" || !hasWorkspace {
      return NotConfigured;
    }
    var stored := OrderedMap.Get(translations, key);
    var current := if stored.Some? && Truthy(stored.value) then stored.value else JStr("");
    if newValue.None? {
      return Cancelled;
    }
    var newCtx := ctxAnswer;
    if newCtx == Some("") {
      newCtx := None;
    }
    if current == JStr(newValue.value) && StrictEqual(newCtx, ElementAt(current, 1)) {
      return Unchanged;
    }
    if !disk.Holds? || !IsObject(disk.root) {
      return Failed;
    }
    var doc := new Document(disk.root);
    if newCtx.None? {
      UpdateValueInObject(doc, key, JArr([Some(JStr(newValue.value))], []));
    } else {
      UpdateValueInObject(doc, key, JArr([Some(JStr(newValue.value)), Some(JStr(newCtx.value))], []));
    }
    if !writeOk {
      return Failed;
    }
    outcome := Saved(doc.root);
  }

  /**
   * As written, a stored array entry is never equal to the new value, so every answer, even one
   * repeating the stored value and context, rewrites the file.
   */
  lemma StoredArrayAlwaysRewritten(filePath: Option<string>, hasWorkspace: bool, translations: Assoc<Json>, key: string,
                                   value: string, ctxAnswer: Option<string>, disk: Disk, writeOk: bool)
    requires filePath.Some? && filePath.value != "" && hasWorkspace
    requires OrderedMap.Get(translations, key).Some? && OrderedMap.Get(translations, key).value.JArr?
    ensures var r := EditDecisionAsWritten(filePath, hasWorkspace, translations, key, Some(value), ctxAnswer, disk, writeOk);
      r.Saved? || r.Failed?
  {
  }

  /** For instance, answering "Hello" and no context for the stored `["Hello"]` rewrites the file as written, and not once corrected. */
  lemma RewriteExample(disk: Disk)
    requires disk.Holds? && disk.root.JObj?
    ensures var tr := [("greeting", JArr([Some(JStr("Hello"))], []))];
      EditDecisionAsWritten(Some("t.json"), true, tr, "greeting", Some("Hello"), None, disk, true).Saved?
      && EditDecision(Some("t.json"), true, tr, "greeting", Some("Hello"), None, disk, true) == Unchanged
  {
    var tr := [("greeting", JArr([Some(JStr("Hello"))], []))];
    assert Keys(tr) == ["greeting"];
    assert OrderedMap.Get(tr, "greeting") == Some(tr[0].1);
  }

  /** Answers repeating a stored `[value]` or `[value, context]` entry write nothing. */
  lemma SameAnswersUnchanged(filePath: Option<string>, hasWorkspace: bool, translations: Assoc<Json>, key: string,
                             value: string, ctx: Option<string>, disk: Disk, writeOk: bool)
    requires filePath.Some? && filePath.value != "" && hasWorkspace
    requires OrderedMap.Get(translations, key) == Some(ShortEntry(value, ctx)) && ctx != Some("")
    ensures EditDecision(filePath, hasWorkspace, translations, key, Some(value), ctx, disk, writeOk) == Unchanged
  {
  }

  /**
   * For a key that is not stored the current value is `""`, whose elements are `undefined`: as
   * written the answers are unchanged exactly when the value is empty and no context is given,
   * and once corrected no answer is.
   */
  lemma AbsentKeyAnswers(filePath: Option<string>, hasWorkspace: bool, translations: Assoc<Json>, key: string,
                         value: string, ctxAnswer: Option<string>, disk: Disk, writeOk: bool)
    requires filePath.Some? && filePath.value != "" && hasWorkspace
    requires key !in Keys(translations)
    ensures EditDecisionAsWritten(filePath, hasWorkspace, translations, key, Some(value), ctxAnswer, disk, writeOk).Unchanged?
            <==> value == "" && Context(ctxAnswer).None?
    ensures !EditDecision(filePath, hasWorkspace, translations, key, Some(value), ctxAnswer, disk, writeOk).Unchanged?
  {
  }

  /**
   * Without a collision check the command saves below a key that has more specific keys: a
   * change is saved whenever the file is an object document and the write succeeds.
   */
  lemma ChangeIsSaved(filePath: Option<string>, hasWorkspace: bool, translations: Assoc<Json>, key: string,
                      value: string, ctxAnswer: Option<string>, disk: Disk, writeOk: bool)
    requires filePath.Some? && filePath.value != "" && hasWorkspace
    ensures var r := EditDecisionAsWritten(filePath, hasWorkspace, translations, key, Some(value), ctxAnswer, disk, writeOk);
      r.Unchanged? || (r.Saved? <==> disk.Holds? && IsObject(disk.root) && writeOk)
    ensures var r := EditDecisionAsWritten(filePath, hasWorkspace, translations, key, Some(value), ctxAnswer, disk, writeOk);
      r.Saved? ==> r.root == Written(disk.root, Split(key, '.'), ShortEntry(value, Context(ctxAnswer)))
    ensures var r := EditDecision(filePath, hasWorkspace, translations, key, Some(value), ctxAnswer, disk, writeOk);
      r.Unchanged? || (r.Saved? <==> disk.Holds? && IsObject(disk.root) && writeOk)
    ensures var r := EditDecision(filePath, hasWorkspace, translations, key, Some(value), ctxAnswer, disk, writeOk);
      r.Saved? ==> r.root == Written(disk.root, Split(key, '.'), ShortEntry(value, Context(ctxAnswer)))
  {
  }

  /**
   * Round trip of the command and this file's loader: after a save, as written or corrected,
   * into a well-formed object document with plain property names (none holding a `.`), along a
   * key path of non-empty segments that meets no array, reloading stores the saved entry under
   * the key, and the hover shows its value and context.
   */
  lemma SavedEntryReloads(filePath: Option<string>, hasWorkspace: bool, translations: Assoc<Json>, key: string,
                          value: string, ctxAnswer: Option<string>, disk: Disk, writeOk: bool)
    requires EditDecisionAsWritten(filePath, hasWorkspace, translations, key, Some(value), ctxAnswer, disk, writeOk).Saved?
             || EditDecision(filePath, hasWorkspace, translations, key, Some(value), ctxAnswer, disk, writeOk).Saved?
    requires disk.Holds? && disk.root.JObj? && WellFormed(disk.root) && PlainNames(disk.root)
    requires var segs := Split(key, '.'); (forall i :: 0 <= i < |segs| ==> segs[i] != "") && NoArrayOnPath(disk.root, segs)
    ensures var r := EditDecisionAsWritten(filePath, hasWorkspace, translations, key, Some(value), ctxAnswer, disk, writeOk);
      r.Saved? ==> OrderedMap.Get(Flatten(r.root, AllLeaves), key) == Some(ShortEntry(value, Context(ctxAnswer)))
    ensures var r := EditDecision(filePath, hasWorkspace, translations, key, Some(value), ctxAnswer, disk, writeOk);
      r.Saved? ==> OrderedMap.Get(Flatten(r.root, AllLeaves), key) == Some(ShortEntry(value, Context(ctxAnswer)))
    ensures var r := EditDecisionAsWritten(filePath, hasWorkspace, translations, key, Some(value), ctxAnswer, disk, writeOk);
      var ctx := Context(ctxAnswer);
      r.Saved? ==> ContentFor(OrderedMap.Get(Flatten(r.root, AllLeaves), key))
                   == Entry(Some(JStr(value)), if ctx.Some? then Comment(JStr(ctx.value)) else NoComment)
  {
    ChangeIsSaved(filePath, hasWorkspace, translations, key, value, ctxAnswer, disk, writeOk);
    ShortEntryReloads(disk.root, key, value, Context(ctxAnswer));
  }

  /** Reloading a document after `[value]` or `[value, context]` is written at the key's path. */
  lemma ShortEntryReloads(root: Json, key: string, value: string, ctx: Option<string>)
    requires root.JObj? && WellFormed(root) && PlainNames(root)
    requires var segs := Split(key, '.'); (forall i :: 0 <= i < |segs| ==> segs[i] != "") && NoArrayOnPath(root, segs)
    ensures var loaded := OrderedMap.Get(Flatten(Written(root, Split(key, '.'), ShortEntry(value, ctx)), AllLeaves), key);
      loaded == Some(ShortEntry(value, ctx))
      && ContentFor(loaded) == Entry(Some(JStr(value)), if ctx.Some? then Comment(JStr(ctx.value)) else NoComment)
  {
    var entry := ShortEntry(value, ctx);
    assert WellFormed(entry);
    FlattenAfterWrite(root, key, entry, AllLeaves);
  }

  /**
   * The hover of `activate`: nothing without function names; otherwise the first call on the
   * line whose key span as written holds the cursor decides, and the hover shows the plain key with its
   * entry, which may be any stored leaf.
   */
  method ProvideHover(line: string, c: nat, names: seq<string>, translations: Assoc<Json>) returns (h: Option<Hover>)
    ensures names == [] ==> h.None?
    ensures var ms := AllMatches(line, 0, names);
      names != [] ==> (h.None? <==> forall n :: 0 <= n < |ms| ==> !CursorIn(line, ms[n], c))
    ensures var ms := AllMatches(line, 0, names);
      h.Some? ==>
        exists n :: 0 <= n < |ms| && CursorIn(line, ms[n], c)
          && (forall p :: 0 <= p < n ==> !CursorIn(line, ms[p], c))
          && h.value == Hover(ms[n].key, ContentFor(OrderedMap.Get(translations, ms[n].key)))
  {
    if |names| == 0 {
      return None;
    }
    var found := FindHoveredKey(line, names, c);
    if found.None? {
      return None;
    }
    var key := found.value.key;
    h := Some(Hover(key, ContentFor(OrderedMap.Get(translations, key))));
  }

  /**
   * With every leaf kept, a stored string shows its first character as the value
   * (`translation[0]`) and its second, if any, as the context.
   */
  lemma StoredStringShowsCharacters(s: string)
    requires |s| >= 2
    ensures ContentFor(Some(JStr(s))) == Entry(Some(JStr([s[0]])), Comment(JStr([s[1]])))
  {
  }

  /** One completion item: the key, documented with the whole stored entry. */
  datatype EntryItem = EntryItem(key: string, entry: Option<Json>)

  /** `translationKeys.map(...)`: one item per key, in the map's order. */
  function EntryItems(translations: Assoc<Json>): (items: seq<EntryItem>)
    ensures |items| == |translations|
    ensures forall i :: 0 <= i < |items| ==> items[i].key == translations[i].0
  {
    seq(|translations|, i requires 0 <= i < |translations| =>
      EntryItem(translations[i].0, OrderedMap.Get(translations, translations[i].0)))
  }

  /**
   * The completion provider of `activate`: nothing without a source path or outside it; then the
   * keys are offered exactly when the line up to the cursor ends with an opened call. There is
   * no guard on the names, so with none configured any opened call triggers.
   */
  function ProvideCompletionItems(sourcePath: Option<string>, names: seq<string>, documentPath: string,
                                  line: string, character: nat, translations: Assoc<Json>)
    : (r: Option<seq<EntryItem>>)
    ensures r.Some? <==>
      sourcePath.Some? && sourcePath.value != "" && StartsWith(documentPath, sourcePath.value)
      && Triggers(LinePrefix(line, character), Alts(names))
    ensures r.Some? ==> r.value == EntryItems(translations)
  {
    if sourcePath.None? || sourcePath.value == "" || !StartsWith(documentPath, sourcePath.value) then None
    else
      EndsWithOpenCallCorrect(LinePrefix(line, character), Alts(names));
      if !EndsWithOpenCall(LinePrefix(line, character), Alts(names)) then None
      else Some(EntryItems(translations))
  }

  /** Each item documents exactly the entry stored under its key. */
  lemma ItemShowsStoredEntry(translations: Assoc<Json>, i: nat)
    requires DistinctKeys(translations) && i < |translations|
    ensures EntryItems(translations)[i].entry == Some(translations[i].1)
  {
    assert translations[i].0 in Keys(translations);
    FindUnique(translations, translations[i].0, i);
  }

  /** With no names configured, a line ending in `(` and a quote offers every key. */
  lemma NoNamesStillComplete(sourcePath: string, documentPath: string, line: string, character: nat,
                             translations: Assoc<Json>, a: nat)
    requires sourcePath != "" && StartsWith(documentPath, sourcePath)
    requires var s := LinePrefix(line, character);
      a < |s| - 1 && s[a] == '(' && AllSpace(s, a + 1, |s| - 1) && IsQuote(s[|s| - 1])
    ensures ProvideCompletionItems(Some(sourcePath), [], documentPath, line, character, translations)
            == Some(EntryItems(translations))
  {
    NoNamesTriggerOnAnyOpenCall(LinePrefix(line, character), a);
  }
}
