/**
 * The missing-key diagnostics: the whole document text is scanned for translation calls, and
 * every call whose key is not in the translations gets one error over the span the source computes for the key.
 */
module Diagnostics {
  import opened Wrappers
  import opened Strings
  import opened OrderedMap
  import opened JsonTree
  import opened CallScanner

  /** A diagnostic as offsets into the document text (`positionAt` is not modelled). */
  datatype Diagnostic = Diagnostic(start: int, end: int, message: string)

  /** The settings the diagnostics read: the configured function names. */
  datatype Config = Config(targetFunctionNames: seq<string>)

  /** `No translation found for key: "${key}"`. */
  function MissingMessage(key: string): string {
    "No translation found for key: \"" + key + "\""
  }

  /**
   * The diagnostic for a match, over the span the source computes: from
   * `keyIndex = match.index + match[0].indexOf(key)` to `keyIndex + key.length`.
   */
  function DiagnosticFor(t: string, m: Match): Diagnostic
    requires m.index <= m.end <= |t|
  {
    var (start, end) := ProgramSpan(t, m);
    Diagnostic(start, end, MissingMessage(m.key))
  }

  /** The corrected diagnostic: over the captured key's own span, between the quotes. */
  function KeyDiagnosticFor(m: Match): Diagnostic {
    var (start, end) := KeySpan(m);
    Diagnostic(start, end, MissingMessage(m.key))
  }

  /** The diagnostics for the matches `ms`, in their order: one for each match whose key is absent. */
  function MissingDiagnostics(t: string, ms: seq<Match>, translations: Assoc<Json>): seq<Diagnostic>
    requires InText(t, ms)
  {
    if ms == [] then []
    else
      (if ms[0].key in Keys(translations) then [] else [DiagnosticFor(t, ms[0])])
      + MissingDiagnostics(t, ms[1..], translations)
  }

  /**
   * The scan loop of `updateDiagnostics`: every match of the call pattern in the whole text, in
   * the order `exec` finds them, and a diagnostic pushed for each whose key is not translated.
   */
  method ScanMissingKeys(text: string, names: seq<string>, translations: Assoc<Json>)
      returns (diagnostics: seq<Diagnostic>)
    ensures diagnostics == MissingDiagnostics(text, AllMatches(text, 0, Alts(names)), translations)
  {
    var alts := Alts(names);
    ghost var ms := AllMatches(text, 0, alts);
    ghost var k: nat := 0;
    var from: nat := 0;
    diagnostics := [];
    while true
      invariant InText(text, ms)
      invariant k <= |ms| && ms[k..] == AllMatches(text, from, alts)
      invariant MissingDiagnostics(text, ms, translations)
                == diagnostics + MissingDiagnostics(text, ms[k..], translations)
      decreases |text| + 1 - from
    {
      var r := Exec(text, from, alts);
      if r.None? {
        ScanDone(text, from, alts, ms, k, translations);
        return;
      }
      var m := r.value;
      ScanRound(text, from, alts, ms, k, translations, diagnostics);
      if m.key !in Keys(translations) {
        diagnostics := diagnostics + [DiagnosticFor(text, m)];
      }
      from, k := m.end, k + 1;
    }
  }

  /** The scan stops when `exec` finds nothing more: no diagnostics remain to be pushed. */
  lemma ScanDone(t: string, from: nat, alts: seq<string>, ms: seq<Match>, k: nat, translations: Assoc<Json>)
    requires Exec(t, from, alts).None?
    requires k <= |ms| && ms[k..] == AllMatches(t, from, alts)
    ensures MissingDiagnostics(t, ms[k..], translations) == []
  {
  }

  /**
   * One round of the scan: the match found is the next in the list, and pushing its diagnostic
   * (when its key is missing) keeps the diagnostics pushed so far a prefix of the full list.
   */
  lemma ScanRound(t: string, from: nat, alts: seq<string>, ms: seq<Match>, k: nat, translations: Assoc<Json>,
                  pushed: seq<Diagnostic>)
    requires Exec(t, from, alts).Some? && InText(t, ms)
    requires k <= |ms| && ms[k..] == AllMatches(t, from, alts)
    requires MissingDiagnostics(t, ms, translations) == pushed + MissingDiagnostics(t, ms[k..], translations)
    ensures var m := Exec(t, from, alts).value;
      k < |ms| && ms[k + 1..] == AllMatches(t, m.end, alts)
      && MissingDiagnostics(t, ms, translations)
         == (if m.key in Keys(translations) then pushed else pushed + [DiagnosticFor(t, m)])
            + MissingDiagnostics(t, ms[k + 1..], translations)
  {
    NextMatch(t, from, alts, ms, k);
    ScanStep(t, ms, k, translations, pushed);
  }

  /** One round of the scan keeps the diagnostics pushed so far a prefix of the full list. */
  lemma ScanStep(t: string, ms: seq<Match>, k: nat, translations: Assoc<Json>, pushed: seq<Diagnostic>)
    requires k < |ms| && InText(t, ms)
    requires MissingDiagnostics(t, ms, translations) == pushed + MissingDiagnostics(t, ms[k..], translations)
    ensures MissingDiagnostics(t, ms, translations)
            == (if ms[k].key in Keys(translations) then pushed else pushed + [DiagnosticFor(t, ms[k])])
               + MissingDiagnostics(t, ms[k + 1..], translations)
  {
    MissingDiagnosticsStep(t, ms, k, translations);
    if ms[k].key !in Keys(translations) {
      var rest := MissingDiagnostics(t, ms[k + 1..], translations);
      assert pushed + ([DiagnosticFor(t, ms[k])] + rest) == (pushed + [DiagnosticFor(t, ms[k])]) + rest;
    }
  }

  /** The diagnostics from match `k` on: those of match `k`, then those of the matches after it. */
  lemma MissingDiagnosticsStep(t: string, ms: seq<Match>, k: nat, translations: Assoc<Json>)
    requires k < |ms| && InText(t, ms)
    ensures MissingDiagnostics(t, ms[k..], translations)
            == (if ms[k].key in Keys(translations) then [] else [DiagnosticFor(t, ms[k])])
               + MissingDiagnostics(t, ms[k + 1..], translations)
  {
    assert ms[k..][0] == ms[k];
    assert ms[k..][1..] == ms[k + 1..];
  }

  /**
   * Exactly the matches with untranslated keys give diagnostics, one each and in order: the
   * diagnostics are the matches' diagnostics for the subsequence of missing keys.
   */
  lemma {:induction false} DiagnosticsAreMissingMatches(t: string, ms: seq<Match>, translations: Assoc<Json>)
    requires InText(t, ms)
    ensures var ds := MissingDiagnostics(t, ms, translations);
      |ds| == |MissingMatches(ms, translations)|
      && forall n :: 0 <= n < |ds| ==>
           MissingMatches(ms, translations)[n] in ms
           && ds[n] == DiagnosticFor(t, MissingMatches(ms, translations)[n])
  {
    if ms != [] {
      DiagnosticsAreMissingMatches(t, ms[1..], translations);
    }
  }

  /** The matches whose key is not translated, in their order. */
  function MissingMatches(ms: seq<Match>, translations: Assoc<Json>): (r: seq<Match>)
    ensures |r| <= |ms|
    ensures forall m :: m in r <==> m in ms && m.key !in Keys(translations)
  {
    if ms == [] then []
    else (if ms[0].key in Keys(translations) then [] else [ms[0]]) + MissingMatches(ms[1..], translations)
  }

  /** A document whose every call names a translated key gets no diagnostics. */
  lemma {:induction false} AllTranslatedMeansNoDiagnostics(t: string, ms: seq<Match>, translations: Assoc<Json>)
    requires InText(t, ms)
    ensures MissingDiagnostics(t, ms, translations) == []
            <==> forall n :: 0 <= n < |ms| ==> ms[n].key in Keys(translations)
  {
    DiagnosticsAreMissingMatches(t, ms, translations);
    if exists n :: 0 <= n < |ms| && ms[n].key !in Keys(translations) {
      var n :| 0 <= n < |ms| && ms[n].key !in Keys(translations);
      assert ms[n] in MissingMatches(ms, translations);
    } else {
      NoMissingMatches(ms, translations);
    }
  }

  /** A match's diagnostic range lies inside the call and holds the key's text. */
  lemma DiagnosticInsideCall(t: string, m: Match)
    requires Located(t, m)
    ensures var d := DiagnosticFor(t, m);
      m.index <= d.start <= d.end < m.end && t[d.start..d.end] == m.key
  {
    ProgramSpanFacts(t, m);
  }

  /**
   * When the key's text does not occur earlier in the call, the range is the captured key's own,
   * the corrected one, with the quotes just outside it; otherwise it starts before the key.
   */
  lemma DiagnosticCoversKey(t: string, m: Match)
    requires Located(t, m) && Quoted(t, m)
    ensures (forall s :: m.index <= s < m.keyStart ==> !OccursAt(t, m.key, s))
            <==> DiagnosticFor(t, m) == KeyDiagnosticFor(m)
    ensures var d := DiagnosticFor(t, m);
      d == KeyDiagnosticFor(m) ==> m.index < d.start && IsQuote(t[d.start - 1]) && IsQuote(t[d.end])
    ensures DiagnosticFor(t, m) != KeyDiagnosticFor(m) ==> DiagnosticFor(t, m).start < m.keyStart
  {
    ProgramSpanFacts(t, m);
    SpanStartFacts(t, m);
    KeySpanBetweenQuotes(t, m);
  }

  /** On `t('t')` with the name `t` the source reports the range [0, 1), on the callee; the key is at [3, 4). */
  lemma DiagnosticSpanExample()
    ensures var t := "t('t')";
      var m := Match(0, "t", 3, 6);
      AllMatches(t, 0, ["t"]) == [m]
      && DiagnosticFor(t, m) == Diagnostic(0, 1, MissingMessage("t"))
      && KeyDiagnosticFor(m) == Diagnostic(3, 4, MissingMessage("t"))
  {
    SpanStartMissesKeyExample();
  }

  /** Matches in text order without overlap give diagnostics whose ranges increase strictly. */
  lemma OrderedMatchesOrderedDiagnostics(t: string, ms: seq<Match>, lo: nat, translations: Assoc<Json>)
    requires forall n :: 0 <= n < |ms| ==> Located(t, ms[n]) && lo <= ms[n].index
    requires forall i, j :: 0 <= i < j < |ms| ==> ms[i].end <= ms[j].index
    ensures InText(t, ms)
    ensures var ds := MissingDiagnostics(t, ms, translations);
      (forall n :: 0 <= n < |ds| ==> lo <= ds[n].start <= ds[n].end)
      && forall n :: 0 <= n < |ds| - 1 ==> ds[n].end < ds[n + 1].start
  {
    LocatedInText(t, ms);
    DiagnosticsAreMissingMatches(t, ms, translations);
    OrderedAscending(ms, lo);
    MissingMatchesAscending(ms, translations, lo);
    AscendingOrdered(MissingMatches(ms, translations), lo);
    var ds, missing := MissingDiagnostics(t, ms, translations), MissingMatches(ms, translations);
    forall n | 0 <= n < |ds| ensures lo <= ds[n].start <= ds[n].end {
      assert missing[n] in ms;
      DiagnosticBounds(t, missing[n]);
    }
    forall n | 0 <= n < |ds| - 1 ensures ds[n].end < ds[n + 1].start {
      assert missing[n] in ms && missing[n + 1] in ms;
      DiagnosticBounds(t, missing[n]);
      DiagnosticBounds(t, missing[n + 1]);
    }
  }

  /** The matches start at `lo` or later, and each ends before the next begins. */
  predicate Ascending(ms: seq<Match>, lo: int) {
    ms == [] || (lo <= ms[0].index <= ms[0].end && Ascending(ms[1..], ms[0].end))
  }

  /** Pairwise ordered matches after `lo` are ascending from `lo`. */
  lemma {:induction false} OrderedAscending(ms: seq<Match>, lo: int)
    requires forall n :: 0 <= n < |ms| ==> lo <= ms[n].index <= ms[n].end
    requires forall i, j :: 0 <= i < j < |ms| ==> ms[i].end <= ms[j].index
    ensures Ascending(ms, lo)
  {
    if ms != [] {
      var rest := ms[1..];
      forall n | 0 <= n < |rest| ensures ms[0].end <= rest[n].index <= rest[n].end {
        assert rest[n] == ms[n + 1];
      }
      forall i, j | 0 <= i < j < |rest| ensures rest[i].end <= rest[j].index {
        assert rest[i] == ms[i + 1] && rest[j] == ms[j + 1];
      }
      OrderedAscending(rest, ms[0].end);
    }
  }

  /** Ascending matches start at `lo` or later, and each ends before the next begins. */
  lemma {:induction false} AscendingOrdered(ms: seq<Match>, lo: int)
    requires Ascending(ms, lo)
    ensures forall n :: 0 <= n < |ms| ==> lo <= ms[n].index <= ms[n].end
    ensures forall n :: 0 <= n < |ms| - 1 ==> ms[n].end <= ms[n + 1].index
  {
    if ms != [] {
      var rest := ms[1..];
      AscendingOrdered(rest, ms[0].end);
      assert forall n :: 0 < n < |ms| ==> ms[n] == rest[n - 1];
    }
  }

  /** Keeping only the missing matches keeps them ascending. */
  lemma {:induction false} MissingMatchesAscending(ms: seq<Match>, translations: Assoc<Json>, lo: int)
    requires Ascending(ms, lo)
    ensures Ascending(MissingMatches(ms, translations), lo)
  {
    if ms != [] {
      var rest := ms[1..];
      MissingMatchesAscending(rest, translations, ms[0].end);
      var r, r' := MissingMatches(ms, translations), MissingMatches(rest, translations);
      if ms[0].key !in Keys(translations) {
        assert r == [ms[0]] + r' && r[1..] == r';
      } else {
        assert r == r';
      }
    }
  }

  /** The range of a located match's diagnostic lies inside the call. */
  lemma DiagnosticBounds(t: string, m: Match)
    requires Located(t, m)
    ensures m.index <= DiagnosticFor(t, m).start <= DiagnosticFor(t, m).end < m.end
  {
    ProgramSpanFacts(t, m);
  }

  /** Matches located in the text lie inside it. */
  lemma LocatedInText(t: string, ms: seq<Match>)
    requires forall n :: 0 <= n < |ms| ==> Located(t, ms[n])
    ensures InText(t, ms)
  {
  }

  lemma {:induction false} NoMissingMatches(ms: seq<Match>, translations: Assoc<Json>)
    requires forall n :: 0 <= n < |ms| ==> ms[n].key in Keys(translations)
    ensures MissingMatches(ms, translations) == []
  {
    if ms != [] {
      assert forall n :: 0 <= n < |ms| - 1 ==> ms[1..][n] == ms[n + 1];
      NoMissingMatches(ms[1..], translations);
    }
  }

  /**
   * The diagnostics of the scan come in text order: each range lies inside its own call, and the
   * calls do not overlap, so the ranges strictly increase.
   */
  lemma DiagnosticsInTextOrder(t: string, alts: seq<string>, translations: Assoc<Json>)
    ensures var ds := MissingDiagnostics(t, AllMatches(t, 0, alts), translations);
      forall n :: 0 <= n < |ds| - 1 ==> ds[n].end < ds[n + 1].start
  {
    AllMatchesLocated(t, 0, alts);
    AllMatchesInOrder(t, 0, alts);
    assert var ms := AllMatches(t, 0, alts); forall n :: 0 <= n < |ms| ==> ms[n] in ms;
    assert var ms := AllMatches(t, 0, alts); forall i, j :: 0 <= i < j < |ms| ==> ms[i].end <= ms[j].index;
    OrderedMatchesOrderedDiagnostics(t, AllMatches(t, 0, alts), 0, translations);
  }

  /**
   * The shared diagnostic collection: for each document, the diagnostics last published for it.
   */
  class DiagnosticCollection {
    var entries: map<string, seq<Diagnostic>>

    constructor ()
      ensures entries == map[]
    {
      entries := map[];
    }

    /**
     * `updateDiagnostics(document)`. Without a configuration, or in a language other than
     * JavaScript, TypeScript or Vue, the whole collection is cleared; otherwise the document's
     * diagnostics are replaced by those of a fresh scan. The configuration and the translations
     * are inputs.
     */
    method UpdateDiagnostics(uri: string, languageId: string, config: Option<Config>, text: string,
                             translations: Assoc<Json>)
      modifies this
      ensures config.None? || languageId !in ["javascript", "typescript", "vue"] ==> entries == map[]
      ensures config.Some? && languageId in ["javascript", "typescript", "vue"] ==>
        entries == old(entries)[uri := MissingDiagnostics(text, AllMatches(text, 0, Alts(config.value.targetFunctionNames)), translations)]
    {
      if config.None? || languageId !in ["javascript", "typescript", "vue"] {
        entries := map[];
        return;
      }
      var diagnostics := ScanMissingKeys(text, config.value.targetFunctionNames, translations);
      entries := entries[uri := diagnostics];
    }
  }

  /** The empty name list is the empty alternative: any quoted key between parentheses is checked. */
  lemma NoNamesChecksEveryCall(t: string, i: nat)
    requires i <= |t| && MatchTail(t, i).Some?
    ensures MatchAt(t, i, Alts([])).Some?
  {
    assert MatchesWith(t, i, Alts([])[0]);
  }
}
