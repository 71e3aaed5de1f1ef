/**
 * The "edit translation" command of `commands.ts`: it refuses a key that has more specific keys
 * below it, asks for a value and a context, and, when either differs from what is stored, writes
 * `[value, context]` at the key's path of the translation file.
 */
module Commands {
  import opened Wrappers
  import opened Strings
  import opened OrderedMap
  import opened JsonTree
  import opened HostFile
  import opened Utils
  import opened TranslationManager
  import HoverProvider

  /** How one run of the command ends. */
  datatype EditOutcome =
    | NotConfigured          // "Translation file path not configured."
    | Refused(conflict: string) // a more specific key exists; the first one found is named
    | Cancelled              // the value prompt was dismissed
    | Unchanged              // value and context equal the stored ones; nothing is written
    | Failed                 // reading, parsing, updating or writing the file threw
    | Saved(root: Json)      // the document written back to the file

  /** `existingKey !== key && existingKey.startsWith(key + ".")`. */
  predicate Collides(existing: string, key: string) {
    existing != key && StartsWith(existing, key + ".")
  }

  /** The first of `keys`, in iteration order, that lies below `key`. */
  function FirstCollision(keys: seq<string>, key: string): (r: Option<string>)
    ensures r.None? <==> forall i :: 0 <= i < |keys| ==> !Collides(keys[i], key)
    ensures r.Some? ==> exists i :: 0 <= i < |keys| && keys[i] == r.value && Collides(keys[i], key)
                                    && forall j :: 0 <= j < i ==> !Collides(keys[j], key)
  {
    if keys == [] then None
    else if Collides(keys[0], key) then Some(keys[0])
    else
      var r := FirstCollision(keys[1..], key);
      assert forall i :: 0 < i < |keys| ==> keys[1..][i - 1] == keys[i];
      r
  }

  /** `translations.get(key) || [""]`: the stored entry, or `[""]` when it is absent or falsy. */
  function CurrentEntry(entry: Option<Json>): Json {
    if entry.Some? && Truthy(entry.value) then entry.value else JArr([Some(JStr(""))], [])
  }

  /** `if (newCtx === "") newCtx = undefined`. */
  function Context(answer: Option<string>): (ctx: Option<string>)
    ensures ctx.None? <==> answer.None? || answer.value == ""
    ensures ctx.Some? ==> ctx == answer
  {
    if answer == Some("") then None else answer
  }

  /** `a === b` where `a` is a string or `undefined` and `b` is an element read from an entry. */
  predicate StrictEqual(a: Option<string>, b: Option<Json>) {
    if a.None? then b.None? else b == Some(JStr(a.value))
  }

  /** The array `[newValue, newCtx]`; an absent context is an `undefined` second element. */
  function EntryOf(value: string, ctx: Option<string>): Json {
    JArr([Some(JStr(value)), if ctx.Some? then Some(JStr(ctx.value)) else None], [])
  }

  /**
   * The `try` block: a file that cannot be read or parsed fails, a parsed value that is not an
   * object makes the writer throw a TypeError, and a failed write fails; otherwise the updated
   * document is what is written.
   */
  function WriteOutcome(disk: Disk, key: string, entry: Json, writeOk: bool): (r: EditOutcome)
    ensures r.Saved? || r.Failed?
  {
    if !disk.Holds? || !IsObject(disk.root) || !writeOk then Failed
    else Saved(Written(disk.root, Split(key, '.'), entry))
  }

  /**
   * The outcome of the command for the configuration, the shared map, the key, the answers to
   * the two prompts (`None` for a dismissed prompt), the file, and whether the write succeeds.
   */
  function EditDecision(filePath: Option<string>, hasWorkspace: bool, translations: Assoc<Json>, key: string,
                        newValue: Option<string>, ctxAnswer: Option<string>, disk: Disk, writeOk: bool): EditOutcome
  {
    if filePath.None? || filePath.value == "" || !hasWorkspace then NotConfigured
    else if FirstCollision(Keys(translations), key).Some? then Refused(FirstCollision(Keys(translations), key).value)
    else if newValue.None? then Cancelled
    else
      var current := CurrentEntry(OrderedMap.Get(translations, key));
      var ctx := Context(ctxAnswer);
      if StrictEqual(newValue, ElementAt(current, 0)) && StrictEqual(ctx, ElementAt(current, 1)) then Unchanged
      else WriteOutcome(disk, key, EntryOf(newValue.value, ctx), writeOk)
  }

  /**
   * The command handler of `registerEditTranslationCommand`. The prompts, the file and the write
   * are its inputs; the parsed document is updated in place by the writer.
   */
  method EditTranslation(filePath: Option<string>, hasWorkspace: bool, translations: Assoc<Json>, key: string,
                         newValue: Option<string>, ctxAnswer: Option<string>, disk: Disk, writeOk: bool)
      returns (outcome: EditOutcome)
    ensures outcome == EditDecision(filePath, hasWorkspace, translations, key, newValue, ctxAnswer, disk, writeOk)
  {
    if filePath.None? || filePath.value == "" || !hasWorkspace {
      return NotConfigured;
    }
    var keys := Keys(translations);
    for i := 0 to |keys|
      invariant forall j :: 0 <= j < i ==> !Collides(keys[j], key)
    {
      if keys[i] != key && StartsWith(keys[i], key + ".") {
        FirstCollisionAt(keys, key, i);
        return Refused(keys[i]);
      }
    }
    var stored := OrderedMap.Get(translations, key);
    var current := if stored.Some? && Truthy(stored.value) then stored.value else JArr([Some(JStr(""))], []);
    if newValue.None? {
      return Cancelled;
    }
    var newCtx := ctxAnswer;
    if newCtx == Some("") {
      newCtx := None;
    }
    if StrictEqual(newValue, ElementAt(current, 0)) && StrictEqual(newCtx, ElementAt(current, 1)) {
      return Unchanged;
    }
    if !disk.Holds? || !IsObject(disk.root) {
      return Failed;
    }
    var doc := new Document(disk.root);
    var entry := JArr([Some(JStr(newValue.value)), if newCtx.Some? then Some(JStr(newCtx.value)) else None], []);
    UpdateValueInObject(doc, key, entry);
    if !writeOk {
      return Failed;
    }
    outcome := Saved(doc.root);
  }

  /** A key that collides at `i`, with none colliding before it, is the first collision. */
  lemma {:induction false} FirstCollisionAt(keys: seq<string>, key: string, i: nat)
    requires i < |keys| && Collides(keys[i], key)
    requires forall j :: 0 <= j < i ==> !Collides(keys[j], key)
    ensures FirstCollision(keys, key) == Some(keys[i])
    decreases i
  {
    if i > 0 {
      assert !Collides(keys[0], key);
      FirstCollisionAt(keys[1..], key, i - 1);
    }
  }

  /** The command does nothing but report when no translation file or workspace is configured. */
  lemma NotConfiguredExactly(filePath: Option<string>, hasWorkspace: bool, translations: Assoc<Json>, key: string,
                             newValue: Option<string>, ctxAnswer: Option<string>, disk: Disk, writeOk: bool)
    ensures EditDecision(filePath, hasWorkspace, translations, key, newValue, ctxAnswer, disk, writeOk).NotConfigured?
            <==> filePath.None? || filePath.value == "" || !hasWorkspace
  {
  }

  /**
   * A configured command refuses exactly when some stored key lies below `key`, and then names
   * the first such key in the map's order.
   */
  lemma RefusedExactlyBelow(filePath: Option<string>, hasWorkspace: bool, translations: Assoc<Json>, key: string,
                            newValue: Option<string>, ctxAnswer: Option<string>, disk: Disk, writeOk: bool)
    requires filePath.Some? && filePath.value != "" && hasWorkspace
    ensures var r := EditDecision(filePath, hasWorkspace, translations, key, newValue, ctxAnswer, disk, writeOk);
      r.Refused? <==> exists k :: k in Keys(translations) && StartsWith(k, key + ".")
    ensures var r := EditDecision(filePath, hasWorkspace, translations, key, newValue, ctxAnswer, disk, writeOk);
      var keys := Keys(translations);
      r.Refused? ==> exists i :: 0 <= i < |keys| && keys[i] == r.conflict && StartsWith(keys[i], key + ".")
                                 && forall j :: 0 <= j < i ==> !StartsWith(keys[j], key + ".")
  {
    var keys := Keys(translations);
    forall k | true ensures Collides(k, key) <==> StartsWith(k, key + ".") {
      BelowIsNotItself(k, key);
    }
    if exists k :: k in keys && StartsWith(k, key + ".") {
      var k :| k in keys && StartsWith(k, key + ".");
      var i :| 0 <= i < |keys| && keys[i] == k;
      assert Collides(keys[i], key);
    }
  }

  /** The `existingKey !== key` test never decides anything: a key below `key` is longer than it. */
  lemma BelowIsNotItself(existing: string, key: string)
    ensures StartsWith(existing, key + ".") ==> existing != key
  {
    if StartsWith(existing, key + ".") {
      assert |existing| >= |key + "."|;
    }
  }

  /** Dismissing the value prompt writes nothing. */
  lemma CancelWritesNothing(filePath: Option<string>, hasWorkspace: bool, translations: Assoc<Json>, key: string,
                            ctxAnswer: Option<string>, disk: Disk, writeOk: bool)
    ensures var r := EditDecision(filePath, hasWorkspace, translations, key, None, ctxAnswer, disk, writeOk);
      r.NotConfigured? || r.Refused? || r.Cancelled?
  {
  }

  /** An empty context answer is the same as a dismissed context prompt. */
  lemma EmptyContextIsNoContext(filePath: Option<string>, hasWorkspace: bool, translations: Assoc<Json>, key: string,
                                newValue: Option<string>, disk: Disk, writeOk: bool)
    ensures EditDecision(filePath, hasWorkspace, translations, key, newValue, Some(""), disk, writeOk)
            == EditDecision(filePath, hasWorkspace, translations, key, newValue, None, disk, writeOk)
  {
  }

  /**
   * For a key that is not stored the current entry is `[""]`, so the answers count as unchanged
   * exactly when the value is empty and no context is given.
   */
  lemma AbsentKeyUnchanged(filePath: Option<string>, hasWorkspace: bool, translations: Assoc<Json>, key: string,
                           value: string, ctxAnswer: Option<string>, disk: Disk, writeOk: bool)
    requires filePath.Some? && filePath.value != "" && hasWorkspace
    requires forall k :: k in Keys(translations) ==> !StartsWith(k, key + ".")
    requires key !in Keys(translations)
    ensures EditDecision(filePath, hasWorkspace, translations, key, Some(value), ctxAnswer, disk, writeOk).Unchanged?
            <==> value == "" && Context(ctxAnswer).None?
  {
    NoCollision(Keys(translations), key);
  }

  /**
   * Answers equal to a stored `[value, context]` entry write nothing. A stored empty context is
   * the exception: the empty answer becomes `undefined`, which differs from `""`. Without a
   * context the stored entry here is the written `[value, undefined]` with its hole, a shape
   * JSON.parse never gives: ShortEntryUnchanged and ContextlessSaveRewritten cover the shapes a
   * parsed file has.
   */
  lemma SameAnswersUnchanged(filePath: Option<string>, hasWorkspace: bool, translations: Assoc<Json>, key: string,
                             value: string, ctx: Option<string>, disk: Disk, writeOk: bool)
    requires filePath.Some? && filePath.value != "" && hasWorkspace
    requires forall k :: k in Keys(translations) ==> !StartsWith(k, key + ".")
    requires OrderedMap.Get(translations, key) == Some(EntryOf(value, ctx)) && ctx != Some("")
    ensures EditDecision(filePath, hasWorkspace, translations, key, Some(value), ctx, disk, writeOk) == Unchanged
  {
    NoCollision(Keys(translations), key);
  }

  /** A stored empty context is rewritten even when the answers repeat it: the empty answer becomes `undefined`. */
  lemma StoredEmptyContextRewritten(filePath: Option<string>, hasWorkspace: bool, translations: Assoc<Json>, key: string,
                                    value: string, disk: Disk, writeOk: bool)
    requires filePath.Some? && filePath.value != "" && hasWorkspace
    requires forall k :: k in Keys(translations) ==> !StartsWith(k, key + ".")
    requires OrderedMap.Get(translations, key) == Some(EntryOf(value, Some("")))
    ensures var r := EditDecision(filePath, hasWorkspace, translations, key, Some(value), Some(""), disk, writeOk);
      r.Saved? || r.Failed?
  {
    NoCollision(Keys(translations), key);
  }

  /** Answers repeating a stored `[value]` and giving no context write nothing. */
  lemma ShortEntryUnchanged(filePath: Option<string>, hasWorkspace: bool, translations: Assoc<Json>, key: string,
                            value: string, ctxAnswer: Option<string>, disk: Disk, writeOk: bool)
    requires filePath.Some? && filePath.value != "" && hasWorkspace
    requires forall k :: k in Keys(translations) ==> !StartsWith(k, key + ".")
    requires OrderedMap.Get(translations, key) == Some(JArr([Some(JStr(value))], []))
    requires Context(ctxAnswer).None?
    ensures EditDecision(filePath, hasWorkspace, translations, key, Some(value), ctxAnswer, disk, writeOk) == Unchanged
  {
    NoCollision(Keys(translations), key);
  }

  /** The entry `[newValue, newCtx]` as `JSON.stringify` writes it: an `undefined` context becomes `null`. */
  function SavedEntry(value: string, ctx: Option<string>): Json {
    JArr([Some(JStr(value)), Some(if ctx.Some? then JStr(ctx.value) else JNull)], [])
  }

  /**
   * As written, once an entry saved without a context is read back from the file as
   * `[value, null]`, repeating the same answers rewrites the file: `undefined !== null`. With a
   * context the same answers write nothing.
   */
  lemma ContextlessSaveRewritten(filePath: Option<string>, hasWorkspace: bool, translations: Assoc<Json>, key: string,
                                 value: string, ctx: Option<string>, disk: Disk, writeOk: bool)
    requires filePath.Some? && filePath.value != "" && hasWorkspace
    requires forall k :: k in Keys(translations) ==> !StartsWith(k, key + ".")
    requires OrderedMap.Get(translations, key) == Some(SavedEntry(value, ctx)) && ctx != Some("")
    ensures var r := EditDecision(filePath, hasWorkspace, translations, key, Some(value), ctx, disk, writeOk);
      (r == Unchanged <==> ctx.Some?) && (ctx.None? ==> r.Saved? || r.Failed?)
  {
    NoCollision(Keys(translations), key);
  }

  /** `newCtx !== (currentValue[1] ?? undefined)`: a stored `null` context counts as no context. */
  predicate SameContext(ctx: Option<string>, stored: Option<Json>) {
    StrictEqual(ctx, stored) || (ctx.None? && stored == Some(JNull))
  }

  /** The command with the context test reading a stored `null` as no context. */
  function EditDecisionNullAware(filePath: Option<string>, hasWorkspace: bool, translations: Assoc<Json>, key: string,
                                 newValue: Option<string>, ctxAnswer: Option<string>, disk: Disk, writeOk: bool)
    : EditOutcome
  {
    if filePath.None? || filePath.value == "" || !hasWorkspace then NotConfigured
    else if FirstCollision(Keys(translations), key).Some? then Refused(FirstCollision(Keys(translations), key).value)
    else if newValue.None? then Cancelled
    else
      var current := CurrentEntry(OrderedMap.Get(translations, key));
      var ctx := Context(ctxAnswer);
      if StrictEqual(newValue, ElementAt(current, 0)) && SameContext(ctx, ElementAt(current, 1)) then Unchanged
      else WriteOutcome(disk, key, EntryOf(newValue.value, ctx), writeOk)
  }

  /**
   * With a stored `null` context read as no context, repeating the answers of a save, once the
   * file is read back, writes nothing, with or without a context.
   */
  lemma SavedAnswersUnchanged(filePath: Option<string>, hasWorkspace: bool, translations: Assoc<Json>, key: string,
                              value: string, ctx: Option<string>, disk: Disk, writeOk: bool)
    requires filePath.Some? && filePath.value != "" && hasWorkspace
    requires forall k :: k in Keys(translations) ==> !StartsWith(k, key + ".")
    requires OrderedMap.Get(translations, key) == Some(SavedEntry(value, ctx)) && ctx != Some("")
    ensures EditDecisionNullAware(filePath, hasWorkspace, translations, key, Some(value), ctx, disk, writeOk) == Unchanged
  {
    NoCollision(Keys(translations), key);
  }

  /** The corrected command decides as written unless no context is given and the stored one is `null`. */
  lemma NullAwareOnlyDiffersOnNull(filePath: Option<string>, hasWorkspace: bool, translations: Assoc<Json>, key: string,
                                   newValue: Option<string>, ctxAnswer: Option<string>, disk: Disk, writeOk: bool)
    ensures var current := CurrentEntry(OrderedMap.Get(translations, key));
      EditDecisionNullAware(filePath, hasWorkspace, translations, key, newValue, ctxAnswer, disk, writeOk)
      != EditDecision(filePath, hasWorkspace, translations, key, newValue, ctxAnswer, disk, writeOk)
      ==> Context(ctxAnswer).None? && ElementAt(current, 1) == Some(JNull)
  {
  }

  lemma NoCollision(keys: seq<string>, key: string)
    requires forall k :: k in keys ==> !StartsWith(k, key + ".")
    ensures FirstCollision(keys, key).None?
  {
    forall i | 0 <= i < |keys| ensures !Collides(keys[i], key) {
      assert keys[i] in keys;
    }
  }

  /**
   * Any change that is not refused, cancelled or equal to the stored entry is saved, unless the
   * file cannot be read, parsed, updated or written; a save writes `[value, context]` at the
   * key's path and leaves the rest of the document as the writer does.
   */
  lemma ChangeIsSaved(filePath: Option<string>, hasWorkspace: bool, translations: Assoc<Json>, key: string,
                      value: string, ctxAnswer: Option<string>, disk: Disk, writeOk: bool)
    requires filePath.Some? && filePath.value != "" && hasWorkspace
    requires forall k :: k in Keys(translations) ==> !StartsWith(k, key + ".")
    ensures var r := EditDecision(filePath, hasWorkspace, translations, key, Some(value), ctxAnswer, disk, writeOk);
      r.Unchanged? || (r.Saved? <==> disk.Holds? && IsObject(disk.root) && writeOk)
    ensures var r := EditDecision(filePath, hasWorkspace, translations, key, Some(value), ctxAnswer, disk, writeOk);
      r.Saved? ==> r.root == Written(disk.root, Split(key, '.'), EntryOf(value, Context(ctxAnswer)))
  {
    NoCollision(Keys(translations), key);
  }

  /**
   * Round trip of the command and the loader: after a save into a well-formed object document
   * with plain property names, along a key path of non-empty segments that meets no array,
   * reloading the document stores the saved entry under the key, and the hover shows its value
   * and context.
   */
  lemma SavedEntryReloads(filePath: Option<string>, hasWorkspace: bool, translations: Assoc<Json>, key: string,
                          value: string, ctxAnswer: Option<string>, disk: Disk, writeOk: bool)
    requires EditDecision(filePath, hasWorkspace, translations, key, Some(value), ctxAnswer, disk, writeOk).Saved?
    requires disk.Holds? && disk.root.JObj? && WellFormed(disk.root) && PlainNames(disk.root)
    requires var segs := Split(key, '.'); (forall i :: 0 <= i < |segs| ==> segs[i] != "") && NoArrayOnPath(disk.root, segs)
    ensures var r := EditDecision(filePath, hasWorkspace, translations, key, Some(value), ctxAnswer, disk, writeOk);
      OrderedMap.Get(Flatten(r.root, ArraysOnly), key) == Some(EntryOf(value, Context(ctxAnswer)))
    ensures var r := EditDecision(filePath, hasWorkspace, translations, key, Some(value), ctxAnswer, disk, writeOk);
      var ctx := Context(ctxAnswer);
      HoverProvider.ContentFor(OrderedMap.Get(Flatten(r.root, ArraysOnly), key))
      == HoverProvider.Entry(Some(JStr(value)), if ctx.Some? then HoverProvider.Comment(JStr(ctx.value)) else HoverProvider.NoComment)
  {
    var entry := EntryOf(value, Context(ctxAnswer));
    assert WellFormed(entry);
    FlattenAfterWrite(disk.root, key, entry, ArraysOnly);
    HoverProvider.WrittenEntryShown(value, Context(ctxAnswer));
  }
}
