/**
 * The hover over a translation call: the calls on the hovered line are scanned left to right,
 * the first whose key span as written holds the cursor decides, and the hover shows the key padded to a
 * minimum width followed by the stored value and context, or a note that the key is missing.
 */
module HoverProvider {
  import opened Wrappers
  import opened Strings
  import opened OrderedMap
  import opened JsonTree
  import opened CallScanner

  /**
   * `position.character >= start && position.character <= end`, both ends inclusive, over the
   * span the source computes: `start` is `match.index + match[0].indexOf(key)` and
   * `end == start + key.length`.
   */
  predicate CursorIn(t: string, m: Match, c: nat) {
    m.index <= m.end <= |t| && ProgramSpan(t, m).0 <= c <= ProgramSpan(t, m).1
  }

  /** The corrected test: the cursor lies on the captured key's own span, between the quotes. */
  predicate CursorOnKey(m: Match, c: nat) {
    KeySpan(m).0 <= c <= KeySpan(m).1
  }

  /** The two tests agree on every call whose key's text does not occur earlier in the call. */
  lemma CursorTestsAgree(t: string, m: Match, c: nat)
    requires Located(t, m)
    requires forall s :: m.index <= s < m.keyStart ==> !OccursAt(t, m.key, s)
    ensures CursorIn(t, m, c) <==> CursorOnKey(m, c)
  {
    ProgramSpanFacts(t, m);
  }

  /**
   * On `t('t')` with the name `t` the source's span is the callee's `t`: the cursor at column 0
   * selects the call and the cursor on the key, at column 3, does not; the corrected test does
   * the opposite.
   */
  lemma HoverSpanExample()
    ensures var t := "t('t')";
      var m := Match(0, "t", 3, 6);
      AllMatches(t, 0, ["t"]) == [m]
      && CursorIn(t, m, 0) && !CursorIn(t, m, 3) && CursorOnKey(m, 3) && !CursorOnKey(m, 0)
  {
    SpanStartMissesKeyExample();
  }

  /**
   * The `while ((match = keyRegex.exec(lineText)) !== null)` loop of `provideHover`: the first
   * match, in the order `exec` finds them, whose key span as written holds the cursor; `None` when none does.
   */
  method FindHoveredKey(line: string, alts: seq<string>, c: nat) returns (found: Option<Match>)
    ensures var ms := AllMatches(line, 0, alts);
      found.None? <==> forall n :: 0 <= n < |ms| ==> !CursorIn(line, ms[n], c)
    ensures var ms := AllMatches(line, 0, alts);
      found.Some? ==> exists n :: 0 <= n < |ms| && ms[n] == found.value && CursorIn(line, ms[n], c)
                                  && forall p :: 0 <= p < n ==> !CursorIn(line, ms[p], c)
  {
    ghost var ms := AllMatches(line, 0, alts);
    ghost var k: nat := 0;
    var from: nat := 0;
    while true
      invariant k <= |ms| && ms[k..] == AllMatches(line, from, alts)
      invariant forall p :: 0 <= p < k ==> !CursorIn(line, ms[p], c)
      decreases |line| + 1 - from
    {
      var r := Exec(line, from, alts);
      if r.None? {
        assert AllMatches(line, from, alts) == [];
        return None;
      }
      var m := r.value;
      NextMatch(line, from, alts, ms, k);
      var (start, end) := ProgramSpan(line, m);
      if c >= start && c <= end {
        return Some(m);
      }
      from, k := m.end, k + 1;
    }
  }

  /** `context ?? "_No comment provided._"`. */
  datatype Comment = Comment(text: Json) | NoComment

  /** What the hover shows below the key. */
  datatype HoverContent =
    | Entry(value: Option<Json>, comment: Comment)   // the value table and the Edit link
    | Missing                                        // "No translation found for this key." and the Add link

  /** A hover: the key as a heading (padded in `hoverProvider.ts`), then the content. */
  datatype Hover = Hover(heading: string, content: HoverContent)

  /** A context that is absent (`undefined`) or `null` is shown as the no-comment note. */
  function CommentOf(context: Option<Json>): Comment {
    if context.None? || context == Some(JNull) then NoComment else Comment(context.value)
  }

  /**
   * `if (translationData)`: a stored, truthy entry shows its first element as the value and its
   * second as the context (`const [translation, context] = translationData`); otherwise the key
   * counts as missing.
   */
  function ContentFor(entry: Option<Json>): HoverContent {
    if entry.Some? && Truthy(entry.value) then
      Entry(ElementAt(entry.value, 0), CommentOf(ElementAt(entry.value, 1)))
    else Missing
  }

  /** `minWidth`. */
  const MinWidth: nat := 60

  /** `Math.max(0, minWidth - key.length)`. */
  function Padding(key: string): nat {
    if |key| >= MinWidth then 0 else MinWidth - |key|
  }

  /** The styled key: the key followed by `&nbsp;` repeated `Padding(key)` times. */
  function Heading(key: string): string {
    key + Repeat("&nbsp;", Padding(key))
  }

  /** The padding brings the key up to 60 character widths and never adds to a key that long already. */
  lemma PaddingReachesMinWidth(key: string)
    ensures |key| + Padding(key) == if |key| >= 60 then |key| else 60
    ensures Padding(key) == 0 <==> |key| >= 60
  {
  }

  /** The heading is the key followed by exactly `Padding(key)` copies of `&nbsp;`. */
  lemma {:induction false} HeadingIsPaddedKey(key: string)
    ensures StartsWith(Heading(key), key)
    ensures |Heading(key)| == |key| + 6 * Padding(key)
    ensures forall n :: 0 <= n < Padding(key) ==> Heading(key)[|key| + 6 * n..|key| + 6 * n + 6] == "&nbsp;"
  {
    var h := Heading(key);
    assert h[..|key|] == key;
    forall n | 0 <= n < Padding(key)
      ensures h[|key| + 6 * n..|key| + 6 * n + 6] == "&nbsp;"
    {
      NbspAt(Padding(key), n);
      assert h[|key| + 6 * n..|key| + 6 * n + 6] == Repeat("&nbsp;", Padding(key))[6 * n..6 * n + 6];
    }
  }

  lemma {:induction false} NbspAt(count: nat, n: nat)
    requires n < count
    ensures |Repeat("&nbsp;", count)| == 6 * count
    ensures Repeat("&nbsp;", count)[6 * n..6 * n + 6] == "&nbsp;"
    decreases n
  {
    var nb := "&nbsp;";
    var r := Repeat(nb, count);
    var rest := Repeat(nb, count - 1);
    assert r == nb + rest;
    if n > 0 {
      NbspAt(count - 1, n - 1);
      var lo := 6 * (n - 1);
      assert 6 * n == lo + 6;
      assert r[lo + 6..lo + 12] == rest[lo..lo + 6];
    }
  }
  /**
   * `provideHover` of `hoverProvider.ts`: nothing without function names; otherwise the first
   * call on the line whose key span as written holds the cursor decides, and its key's entry is shown. The
   * names are escaped before they are joined, so each alternative is matched literally.
   */
  method ProvideHover(line: string, c: nat, names: seq<string>, translations: Assoc<Json>)
      returns (h: Option<Hover>)
    ensures names == [] ==> h.None?
    ensures var ms := AllMatches(line, 0, names);
      names != [] ==> (h.None? <==> forall n :: 0 <= n < |ms| ==> !CursorIn(line, ms[n], c))
    ensures var ms := AllMatches(line, 0, names);
      h.Some? ==>
        exists n :: 0 <= n < |ms| && CursorIn(line, ms[n], c)
          && (forall p :: 0 <= p < n ==> !CursorIn(line, ms[p], c))
          && h.value == Hover(Heading(ms[n].key), ContentFor(OrderedMap.Get(translations, ms[n].key)))
  {
    if |names| == 0 {
      return None;
    }
    var found := FindHoveredKey(line, names, c);
    if found.None? {
      return None;
    }
    var key := found.value.key;
    var entry := OrderedMap.Get(translations, key);
    h := Some(Hover(Heading(key), ContentFor(entry)));
  }

  /**
   * With entries of the declared shape `[value, context?]` the hover always finds a stored key:
   * every array is truthy, so a key in the map shows its entry and only an absent key is missing.
   */
  lemma StoredKeyShowsEntry(translations: Assoc<Json>, key: string)
    requires forall n :: 0 <= n < |translations| ==> translations[n].1.JArr?
    ensures ContentFor(OrderedMap.Get(translations, key)).Missing? <==> key !in Keys(translations)
  {
    if key in Keys(translations) {
      var i := Find(translations, key);
      assert translations[i].1.JArr?;
    }
  }

  /** An entry written as `[value, context]` shows that value, and that context unless it is absent. */
  lemma WrittenEntryShown(value: string, context: Option<string>)
    ensures var item := if context.Some? then Some(JStr(context.value)) else None;
      ContentFor(Some(JArr([Some(JStr(value)), item], [])))
      == Entry(Some(JStr(value)), if context.Some? then Comment(JStr(context.value)) else NoComment)
  {
  }

  /** A context that is absent or `null` shows the no-comment note; any other context is shown as it is. */
  lemma CommentShownUnlessAbsent(context: Option<Json>)
    ensures CommentOf(context).NoComment? <==> context.None? || context.value.JNull?
    ensures CommentOf(context).Comment? ==> CommentOf(context).text == context.value
  {
  }
}
