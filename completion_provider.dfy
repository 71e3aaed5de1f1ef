/**
 * Key completion inside a translation call: when the line up to the cursor ends with a call
 * that has just opened its quote, every key of the translations is offered, in map order.
 */
module CompletionProvider {
  import opened Wrappers
  import opened Strings
  import opened OrderedMap
  import opened JsonTree
  import opened CallScanner

  /** `name` ends exactly at position `j` of `s`. */
  predicate EndsAt(s: string, name: string, j: nat) {
    |name| <= j <= |s| && s[j - |name|..j] == name
  }

  /**
   * `(?:names)\s*\(\s*['"]$` matched with the chosen name ending at `j` and the `(` at `a`:
   * white space from `j` to `a`, the `(`, white space up to the last character, which is a quote.
   */
  predicate TriggerShape(s: string, alts: seq<string>, n: nat, j: nat, a: nat) {
    n < |alts| && j <= a < |s| - 1 && EndsAt(s, alts[n], j)
    && AllSpace(s, j, a) && s[a] == '(' && AllSpace(s, a + 1, |s| - 1) && IsQuote(s[|s| - 1])
  }

  /** `regex.test(linePrefix)`: some alternative leads to a match that ends the text. */
  ghost predicate Triggers(s: string, alts: seq<string>) {
    exists n: nat, j: nat, a: nat :: TriggerShape(s, alts, n, j, a)
  }

  /** `\s*` read backwards from `i`: the start of the run of white space that ends at `i`. */
  function SkipSpaceBack(s: string, i: nat): (j: nat)
    requires i <= |s|
    ensures j <= i && AllSpace(s, j, i) && (j > 0 ==> !IsSpace(s[j - 1]))
  {
    if i == 0 || !IsSpace(s[i - 1]) then i else SkipSpaceBack(s, i - 1)
  }

  /** Some alternative ends exactly at `j`. */
  function NameEndsAt(s: string, alts: seq<string>, j: nat): (r: bool)
    ensures r <==> exists n: nat :: n < |alts| && EndsAt(s, alts[n], j)
  {
    if alts == [] then false
    else if EndsAt(s, alts[0], j) then true
    else
      var r := NameEndsAt(s, alts[1..], j);
      assert forall n: nat :: 0 < n < |alts| ==> alts[1..][n - 1] == alts[n];
      r
  }

  /** Some alternative ends at a position from `j` up to `a`. */
  function NameEndsWithin(s: string, alts: seq<string>, j: nat, a: nat): (r: bool)
    requires j <= a
    ensures r <==> exists p: nat, n: nat :: j <= p <= a && n < |alts| && EndsAt(s, alts[n], p)
    decreases a - j
  {
    if NameEndsAt(s, alts, j) then true
    else if j == a then false
    else NameEndsWithin(s, alts, j + 1, a)
  }

  /**
   * The end-anchored test, read from the end: a quote last, white space, the `(` before it, and
   * then a name ending anywhere in the white space before the `(`.
   */
  function EndsWithOpenCall(s: string, alts: seq<string>): bool {
    if |s| == 0 || !IsQuote(s[|s| - 1]) then false
    else
      var b := SkipSpaceBack(s, |s| - 1);
      if b == 0 || s[b - 1] != '(' then false
      else NameEndsWithin(s, alts, SkipSpaceBack(s, b - 1), b - 1)
  }

  /** The backward reading agrees with the pattern, in both directions. */
  lemma EndsWithOpenCallCorrect(s: string, alts: seq<string>)
    ensures EndsWithOpenCall(s, alts) <==> Triggers(s, alts)
  {
    if EndsWithOpenCall(s, alts) {
      OpenCallTriggers(s, alts);
    }
    if Triggers(s, alts) {
      TriggerFoundBackwards(s, alts);
    }
  }

  lemma OpenCallTriggers(s: string, alts: seq<string>)
    requires EndsWithOpenCall(s, alts)
    ensures Triggers(s, alts)
  {
    var b := SkipSpaceBack(s, |s| - 1);
    var q := SkipSpaceBack(s, b - 1);
    var j: nat, n: nat :| q <= j <= b - 1 && n < |alts| && EndsAt(s, alts[n], j);
    assert AllSpace(s, j, b - 1);
    assert TriggerShape(s, alts, n, j, b - 1);
  }

  lemma TriggerFoundBackwards(s: string, alts: seq<string>)
    requires Triggers(s, alts)
    ensures EndsWithOpenCall(s, alts)
  {
    var n: nat, j: nat, a: nat :| TriggerShape(s, alts, n, j, a);
    SpaceRunStart(s, a + 1, |s| - 1);
    var b := SkipSpaceBack(s, |s| - 1);
    assert b == a + 1 && s[b - 1] == '(';
    SpaceRunCovers(s, j, a);
    var q := SkipSpaceBack(s, a);
    assert q <= j <= a && n < |alts| && EndsAt(s, alts[n], j);
    assert NameEndsWithin(s, alts, q, a);
  }

  /** A white-space run that follows a non-space character starts right after it. */
  lemma SpaceRunStart(s: string, lo: nat, hi: nat)
    requires 0 < lo <= hi <= |s| && AllSpace(s, lo, hi) && !IsSpace(s[lo - 1])
    ensures SkipSpaceBack(s, hi) == lo
    decreases hi - lo
  {
    if lo < hi {
      SpaceRunStart(s, lo, hi - 1);
    }
  }

  /** Reading white space backwards from `hi` goes at least as far back as any all-space stretch. */
  lemma SpaceRunCovers(s: string, lo: nat, hi: nat)
    requires lo <= hi <= |s| && AllSpace(s, lo, hi)
    ensures SkipSpaceBack(s, hi) <= lo
    decreases hi - lo
  {
    if lo < hi {
      SpaceRunCovers(s, lo, hi - 1);
    }
  }

  /** What the item's documentation shows: `translationData ? translationData[0] : "N/A"`. */
  datatype Documentation = Shown(value: Option<Json>) | NotAvailable

  /** A completion item: its label is the key, and its documentation. */
  datatype CompletionItem = CompletionItem(key: string, documentation: Documentation)

  /** `translationData ? translationData[0] : "N/A"`. */
  function DocumentationFor(entry: Option<Json>): Documentation {
    if entry.Some? && Truthy(entry.value) then Shown(ElementAt(entry.value, 0)) else NotAvailable
  }

  /** `translationKeys.map(...)`: one item per key of the map, in the map's order. */
  function Items(translations: Assoc<Json>): (items: seq<CompletionItem>)
    ensures |items| == |translations|
    ensures forall i :: 0 <= i < |items| ==> items[i].key == translations[i].0
  {
    seq(|translations|, i requires 0 <= i < |translations| =>
      CompletionItem(translations[i].0, DocumentationFor(OrderedMap.Get(translations, translations[i].0))))
  }

  /** `String.prototype.substring(0, character)`: the end is clamped to the line's length. */
  function LinePrefix(line: string, character: nat): (prefix: string)
    ensures StartsWith(line, prefix)
    ensures |prefix| == if character < |line| then character else |line|
  {
    if character < |line| then line[..character] else line
  }

  /**
   * `provideCompletionItems` of `completionProvider.ts`: no completions without function names,
   * without a source path, or outside the source folder (a plain string-prefix test); otherwise
   * the keys are offered exactly when the line up to the cursor ends with an opened call.
   */
  function ProvideCompletionItems(names: seq<string>, sourcePath: Option<string>, documentPath: string,
                                  line: string, character: nat, translations: Assoc<Json>)
    : (r: Option<seq<CompletionItem>>)
    ensures r.Some? <==>
      names != [] && sourcePath.Some? && sourcePath.value != "" && StartsWith(documentPath, sourcePath.value)
      && Triggers(LinePrefix(line, character), names)
    ensures r.Some? ==> r.value == Items(translations)
  {
    if names == [] || sourcePath.None? || sourcePath.value == "" || !StartsWith(documentPath, sourcePath.value) then None
    else
      EndsWithOpenCallCorrect(LinePrefix(line, character), names);
      if !EndsWithOpenCall(LinePrefix(line, character), names) then None
      else Some(Items(translations))
  }

  /** Each key's item shows the first element of its entry, or "N/A" only for an entry that is falsy. */
  lemma ItemDocumentation(translations: Assoc<Json>, i: nat)
    requires DistinctKeys(translations) && i < |translations|
    ensures var d := Items(translations)[i].documentation;
      (d.NotAvailable? <==> !Truthy(translations[i].1))
      && (d.Shown? ==> d.value == ElementAt(translations[i].1, 0))
  {
    assert translations[i].0 in Keys(translations);
    FindUnique(translations, translations[i].0, i);
  }

  /** A map of entries of the declared shape `[value, context?]` never shows "N/A". */
  lemma ArraysAlwaysShown(translations: Assoc<Json>)
    requires DistinctKeys(translations)
    requires forall i :: 0 <= i < |translations| ==> translations[i].1.JArr?
    ensures forall i :: 0 <= i < |translations| ==> Items(translations)[i].documentation.Shown?
  {
    forall i | 0 <= i < |translations| ensures Items(translations)[i].documentation.Shown? {
      ItemDocumentation(translations, i);
    }
  }

  /** With an empty name list the alternation is the empty alternative: any opened call triggers. */
  lemma NoNamesTriggerOnAnyOpenCall(s: string, a: nat)
    requires a < |s| - 1 && s[a] == '(' && AllSpace(s, a + 1, |s| - 1) && IsQuote(s[|s| - 1])
    ensures Triggers(s, Alts([]))
  {
    assert TriggerShape(s, Alts([]), 0, a, a);
  }

  /** The test is anchored at the end only: anything may come before the name. */
  lemma TriggerIgnoresWhatComesBefore(before: string, s: string, alts: seq<string>)
    requires Triggers(s, alts)
    ensures Triggers(before + s, alts)
  {
    var n: nat, j: nat, a: nat :| TriggerShape(s, alts, n, j, a);
    var t := before + s;
    var d := |before|;
    assert t[d + j - |alts[n]|..d + j] == s[j - |alts[n]|..j];
    SpaceShifted(before, s, j, a);
    SpaceShifted(before, s, a + 1, |s| - 1);
    assert t[d + a] == s[a] && t[|t| - 1] == s[|s| - 1];
    assert TriggerShape(t, alts, n, d + j, d + a);
  }

  lemma SpaceShifted(before: string, s: string, lo: nat, hi: nat)
    requires lo <= hi <= |s| && AllSpace(s, lo, hi)
    ensures AllSpace(before + s, |before| + lo, |before| + hi)
  {
    var t := before + s;
    forall k | |before| + lo <= k < |before| + hi ensures IsSpace(t[k]) {
      assert t[k] == s[k - |before|];
    }
  }

  /** The test is anchored at the end: a quote that is not the last character does not trigger. */
  lemma TriggerNeedsQuoteLast(s: string, alts: seq<string>)
    requires Triggers(s, alts)
    ensures |s| >= 2 && IsQuote(s[|s| - 1])
  {
  }
}
