/**
 * The call pattern the hover, the diagnostics and the completion trigger look for:
 *
 *     (?:name1|name2|...)\s*\(\s*['"]([^'"]+)['"]\s*\)
 *
 * written out by hand. Each name is escaped before it is joined, so it matches itself literally;
 * the alternatives are tried in list order at each position, and a global `exec` loop resumes
 * searching at the end of the previous match.
 */
module CallScanner {
  import opened Wrappers
  import opened Strings

  /** JavaScript's `\s`: the white-space and line-terminator characters. */
  predicate IsSpace(c: char) {
    var n := c as int;
    (9 <= n <= 13) || n == 32 || n == 0xA0 || n == 0x1680 || (0x2000 <= n <= 0x200A)
    || n == 0x2028 || n == 0x2029 || n == 0x202F || n == 0x205F || n == 0x3000 || n == 0xFEFF
  }

  /** `['"]`. */
  predicate IsQuote(c: char) {
    c == '\'' || c == '"'
  }

  predicate AllSpace(t: string, lo: nat, hi: nat)
    requires lo <= hi <= |t|
  {
    forall k :: lo <= k < hi ==> IsSpace(t[k])
  }

  /** `\s*` from `i`: the first position that is not white space. */
  function SkipSpace(t: string, i: nat): (j: nat)
    requires i <= |t|
    ensures i <= j <= |t| && AllSpace(t, i, j) && (j < |t| ==> !IsSpace(t[j]))
    decreases |t| - i
  {
    if i == |t| || !IsSpace(t[i]) then i else SkipSpace(t, i + 1)
  }

  /** `[^'"]*` from `i`: the first quote at or after `i`, or the end of the text. */
  function SkipKeyChars(t: string, i: nat): (j: nat)
    requires i <= |t|
    ensures i <= j <= |t| && (forall k :: i <= k < j ==> !IsQuote(t[k])) && (j < |t| ==> IsQuote(t[j]))
    decreases |t| - i
  {
    if i == |t| || IsQuote(t[i]) then i else SkipKeyChars(t, i + 1)
  }

  /** Where the quoted key starts and ends and where the whole call ends. */
  datatype Tail = Tail(keyStart: nat, keyEnd: nat, end: nat)

  /**
   * The part of the pattern after the name, matched from `p`. Each `\s*` and `[^'"]+` can only
   * stop where the next token begins, so there is at most one way to match.
   */
  function MatchTail(t: string, p: nat): (r: Option<Tail>)
    requires p <= |t|
    ensures r.Some? ==> p < r.value.keyStart < r.value.keyEnd < r.value.end <= |t|
    ensures r.Some? ==> IsQuote(t[r.value.keyStart - 1]) && IsQuote(t[r.value.keyEnd])
    ensures r.Some? ==> forall k :: r.value.keyStart <= k < r.value.keyEnd ==> !IsQuote(t[k])
  {
    var a := SkipSpace(t, p);
    if a == |t| || t[a] != '(' then None
    else
      var b := SkipSpace(t, a + 1);
      if b == |t| || !IsQuote(t[b]) then None
      else
        var c := SkipKeyChars(t, b + 1);
        if c == b + 1 || c == |t| then None
        else
          var d := SkipSpace(t, c + 1);
          if d == |t| || t[d] != ')' then None
          else Some(Tail(b + 1, c, d + 1))
  }

  /**
   * The tail with its positions spelled out: white space, `(` at `a`, white space, a quote at `b`,
   * one or more non-quote characters, a quote at `c`, white space, `)` at `d`.
   */
  predicate TailShape(t: string, p: nat, a: nat, b: nat, c: nat, d: nat) {
    p <= a < b && b + 1 < c < d < |t|
    && AllSpace(t, p, a) && t[a] == '('
    && AllSpace(t, a + 1, b) && IsQuote(t[b])
    && (forall k :: b < k < c ==> !IsQuote(t[k])) && IsQuote(t[c])
    && AllSpace(t, c + 1, d) && t[d] == ')'
  }

  lemma SkipSpaceStopsAt(t: string, i: nat, j: nat)
    requires i <= j < |t| && AllSpace(t, i, j) && !IsSpace(t[j])
    ensures SkipSpace(t, i) == j
    decreases j - i
  {
    if i < j {
      SkipSpaceStopsAt(t, i + 1, j);
    }
  }

  lemma SkipKeyCharsStopsAt(t: string, i: nat, j: nat)
    requires i <= j < |t| && (forall k :: i <= k < j ==> !IsQuote(t[k])) && IsQuote(t[j])
    ensures SkipKeyChars(t, i) == j
    decreases j - i
  {
    if i < j {
      SkipKeyCharsStopsAt(t, i + 1, j);
    }
  }

  /** Soundness of the tail matcher against the shape. */
  lemma MatchTailSound(t: string, p: nat)
    requires p <= |t| && MatchTail(t, p).Some?
    ensures exists a: nat, b: nat, c: nat, d: nat :: TailShape(t, p, a, b, c, d) && MatchTail(t, p) == Some(Tail(b + 1, c, d + 1))
  {
    var a := SkipSpace(t, p);
    var b := SkipSpace(t, a + 1);
    var c := SkipKeyChars(t, b + 1);
    var d := SkipSpace(t, c + 1);
    assert TailShape(t, p, a, b, c, d);
  }

  /** Completeness of the tail matcher: any text of that shape is matched, with exactly those positions. */
  lemma MatchTailComplete(t: string, p: nat, a: nat, b: nat, c: nat, d: nat)
    requires TailShape(t, p, a, b, c, d)
    ensures MatchTail(t, p) == Some(Tail(b + 1, c, d + 1))
  {
    SkipSpaceStopsAt(t, p, a);
    SkipSpaceStopsAt(t, a + 1, b);
    SkipKeyCharsStopsAt(t, b + 1, c);
    SkipSpaceStopsAt(t, c + 1, d);
  }

  /**
   * The alternatives of `(?:...)`: the names, or the single empty alternative when the list is
   * empty (`[].join("|")` is "", and `(?:)` matches the empty string).
   */
  function Alts(names: seq<string>): (alts: seq<string>)
    ensures |alts| >= 1
    ensures names != [] ==> alts == names
    ensures names == [] ==> alts == [""]
  {
    if names == [] then [""] else names
  }

  /** One match of the pattern: its start, the captured key, where the key starts, and its end. */
  datatype Match = Match(index: nat, key: string, keyStart: nat, end: nat)

  /** The pattern matches at `i` with the name `name` as the chosen alternative. */
  predicate MatchesWith(t: string, i: nat, name: string) {
    OccursAt(t, name, i) && MatchTail(t, i + |name|).Some?
  }

  function MatchFor(t: string, i: nat, name: string): Match
    requires MatchesWith(t, i, name)
  {
    var tail := MatchTail(t, i + |name|).value;
    Match(i, t[tail.keyStart..tail.keyEnd], tail.keyStart, tail.end)
  }

  /** Where every match puts its key: inside the match, spelled by the text at `keyStart`. */
  predicate Located(t: string, m: Match) {
    m.index < m.keyStart && m.keyStart + |m.key| < m.end <= |t| && |m.key| >= 1
    && t[m.keyStart..m.keyStart + |m.key|] == m.key
  }

  /** The key is enclosed in quotes and holds none. */
  predicate Quoted(t: string, m: Match)
    requires Located(t, m)
  {
    IsQuote(t[m.keyStart - 1]) && IsQuote(t[m.keyStart + |m.key|])
    && forall k :: 0 <= k < |m.key| ==> !IsQuote(m.key[k])
  }

  lemma MatchForLocated(t: string, i: nat, name: string)
    requires MatchesWith(t, i, name)
    ensures MatchFor(t, i, name).index == i && Located(t, MatchFor(t, i, name)) && Quoted(t, MatchFor(t, i, name))
  {
  }

  /** The first alternative, in list order, with which the whole pattern matches at `i`; `|alts|` if none does. */
  function FirstAlt(t: string, i: nat, alts: seq<string>): (n: nat)
    ensures n <= |alts|
    ensures n < |alts| ==> MatchesWith(t, i, alts[n])
    ensures forall n' :: 0 <= n' < n ==> !MatchesWith(t, i, alts[n'])
  {
    if alts == [] then 0
    else if MatchesWith(t, i, alts[0]) then 0
    else 1 + FirstAlt(t, i, alts[1..])
  }

  /** The pattern at position `i`: alternation tries the names in order, so the first that leads to a match wins. */
  function MatchAt(t: string, i: nat, alts: seq<string>): (r: Option<Match>)
    ensures r.Some? ==> r.value.index == i < r.value.end <= |t|
  {
    var n := FirstAlt(t, i, alts);
    if n == |alts| then None
    else
      MatchForLocated(t, i, alts[n]);
      Some(MatchFor(t, i, alts[n]))
  }

  /** The pattern fails at `i` exactly when no alternative leads to a match there. */
  lemma MatchAtNone(t: string, i: nat, alts: seq<string>)
    ensures MatchAt(t, i, alts).None? <==> forall n :: 0 <= n < |alts| ==> !MatchesWith(t, i, alts[n])
  {
  }

  /** A match at `i` holds its key between quotes, inside the matched text. */
  lemma MatchAtLocated(t: string, i: nat, alts: seq<string>)
    requires MatchAt(t, i, alts).Some?
    ensures Located(t, MatchAt(t, i, alts).value) && Quoted(t, MatchAt(t, i, alts).value)
  {
    MatchForLocated(t, i, alts[FirstAlt(t, i, alts)]);
  }

  /** `regex.exec(t)` with `lastIndex == from`: the leftmost match starting at or after `from`. */
  function Exec(t: string, from: nat, alts: seq<string>): (r: Option<Match>)
    ensures r.Some? ==> from <= r.value.index < r.value.end <= |t|
    decreases |t| + 1 - from
  {
    if from > |t| then None
    else if MatchAt(t, from, alts).Some? then MatchAt(t, from, alts)
    else Exec(t, from + 1, alts)
  }

  /** What `exec` returns is the pattern's match at the position it reports. */
  lemma {:induction false} ExecIsMatchAt(t: string, from: nat, alts: seq<string>)
    requires Exec(t, from, alts).Some?
    ensures MatchAt(t, Exec(t, from, alts).value.index, alts) == Exec(t, from, alts)
    decreases |t| + 1 - from
  {
    if MatchAt(t, from, alts).None? {
      ExecIsMatchAt(t, from + 1, alts);
    }
  }

  /** The match `exec` returns is the leftmost one: the pattern fails at every position it passed over. */
  lemma {:induction false} ExecLeftmost(t: string, from: nat, alts: seq<string>, k: nat)
    requires from <= k
    requires Exec(t, from, alts).None? || k < Exec(t, from, alts).value.index
    ensures MatchAt(t, k, alts).None?
    decreases |t| + 1 - from
  {
    if from <= |t| && MatchAt(t, from, alts).None? && from < k {
      ExecLeftmost(t, from + 1, alts, k);
    }
  }

  /** The `while ((match = regex.exec(t)) !== null)` loop: every match, each search resuming where the last one ended. */
  function AllMatches(t: string, from: nat, alts: seq<string>): (ms: seq<Match>)
    ensures InText(t, ms)
    decreases |t| + 1 - from
  {
    var r := Exec(t, from, alts);
    if r.None? then []
    else
      [r.value] + AllMatches(t, r.value.end, alts)
  }

  /** Every match lies within the text. */
  predicate InText(t: string, ms: seq<Match>) {
    forall n :: 0 <= n < |ms| ==> ms[n].index <= ms[n].end <= |t|
  }

  /** One step of the loop: a match found at or after `from`, followed by the matches after its end. */
  lemma AllMatchesUnfold(t: string, from: nat, alts: seq<string>)
    requires Exec(t, from, alts).Some?
    ensures AllMatches(t, from, alts) == [Exec(t, from, alts).value] + AllMatches(t, Exec(t, from, alts).value.end, alts)
  {
  }

  /**
   * Each match found is the pattern's match at its own position, at or after `from`.
   */
  lemma {:induction false} AllMatchesAreMatches(t: string, from: nat, alts: seq<string>)
    ensures var ms := AllMatches(t, from, alts);
      forall n :: 0 <= n < |ms| ==> from <= ms[n].index && MatchAt(t, ms[n].index, alts) == Some(ms[n])
    decreases |t| + 1 - from
  {
    var r := Exec(t, from, alts);
    if r.Some? {
      var m := r.value;
      AllMatchesUnfold(t, from, alts);
      ExecIsMatchAt(t, from, alts);
      AllMatchesAreMatches(t, m.end, alts);
      var rest := AllMatches(t, m.end, alts);
      assert forall n :: 0 < n < |rest| + 1 ==> ([m] + rest)[n] == rest[n - 1];
    }
  }

  /** Every match found starts at or after `from`. */
  lemma {:induction false} AllMatchesAfter(t: string, from: nat, alts: seq<string>)
    ensures var ms := AllMatches(t, from, alts);
      forall n :: 0 <= n < |ms| ==> from <= ms[n].index
    decreases |t| + 1 - from
  {
    var r := Exec(t, from, alts);
    if r.Some? {
      AllMatchesUnfold(t, from, alts);
      AllMatchesAfter(t, r.value.end, alts);
    }
  }

  /**
   * Each search resumes where the previous match ended, so the matches are in text order
   * without overlap.
   */
  lemma {:induction false} AllMatchesInOrder(t: string, from: nat, alts: seq<string>)
    ensures var ms := AllMatches(t, from, alts);
      forall i, j :: 0 <= i < j < |ms| ==> ms[i].end <= ms[j].index
    decreases |t| + 1 - from
  {
    var r := Exec(t, from, alts);
    if r.Some? {
      var m := r.value;
      AllMatchesUnfold(t, from, alts);
      AllMatchesInOrder(t, m.end, alts);
      AllMatchesAfter(t, m.end, alts);
      var rest := AllMatches(t, m.end, alts);
      assert forall n :: 0 < n < |rest| + 1 ==> ([m] + rest)[n] == rest[n - 1];
    }
  }

  /** Every match found holds its key between quotes. */
  lemma AllMatchesLocated(t: string, from: nat, alts: seq<string>)
    ensures forall m :: m in AllMatches(t, from, alts) ==> Located(t, m) && Quoted(t, m)
  {
    var ms := AllMatches(t, from, alts);
    AllMatchesAreMatches(t, from, alts);
    forall m | m in ms ensures Located(t, m) && Quoted(t, m) {
      var n :| 0 <= n < |ms| && ms[n] == m;
      MatchAtLocated(t, m.index, alts);
    }
  }

  /**
   * One round of an `exec` loop: the match `exec` returns next is the next one in the list, it lies
   * inside the text, and the rest of the list is what the following searches find.
   */
  lemma NextMatch(t: string, from: nat, alts: seq<string>, ms: seq<Match>, k: nat)
    requires Exec(t, from, alts).Some?
    requires k <= |ms| && ms[k..] == AllMatches(t, from, alts)
    ensures var m := Exec(t, from, alts).value;
      k < |ms| && ms[k] == m && ms[k + 1..] == AllMatches(t, m.end, alts) && Located(t, m)
  {
    var m := Exec(t, from, alts).value;
    AllMatchesUnfold(t, from, alts);
    ExecIsMatchAt(t, from, alts);
    MatchAtLocated(t, m.index, alts);
    assert ms[k..][0] == m;
    assert ms[k + 1..] == ms[k..][1..];
  }

  /** Position `k` lies inside one of the matches `ms`. */
  predicate Covered(ms: seq<Match>, k: nat) {
    exists n :: 0 <= n < |ms| && ms[n].index <= k < ms[n].end
  }

  lemma CoveredCons(m: Match, rest: seq<Match>, k: nat)
    requires (m.index <= k < m.end) || Covered(rest, k)
    ensures Covered([m] + rest, k)
  {
    if !(m.index <= k < m.end) {
      var n :| 0 <= n < |rest| && rest[n].index <= k < rest[n].end;
      assert ([m] + rest)[n + 1] == rest[n];
    } else {
      assert ([m] + rest)[0] == m;
    }
  }

  /**
   * The matches are found left to right without overlap, and no match is skipped: every position
   * from which the pattern matches is either the start of a found match or lies inside one.
   */
  lemma {:induction false} AllMatchesCover(t: string, from: nat, alts: seq<string>, k: nat)
    requires from <= k && MatchAt(t, k, alts).Some?
    ensures Covered(AllMatches(t, from, alts), k)
    decreases |t| + 1 - from
  {
    var r := Exec(t, from, alts);
    if r.None? || k < r.value.index {
      ExecLeftmost(t, from, alts, k);
      assert false;
    }
    var m := r.value;
    var rest := AllMatches(t, m.end, alts);
    AllMatchesUnfold(t, from, alts);
    if k >= m.end {
      AllMatchesCover(t, m.end, alts, k);
    }
    CoveredCons(m, rest, k);
  }

  /** The regular-expression metacharacters the names are escaped for: `. * + ? ^ $ { } ( ) | [ ] \`. */
  predicate IsMeta(c: char) {
    c in ".*+?^${}()|[]\\"
  }

  /** `name.replace(/[.*+?^${}()|[\]\\]/g, "\\$&")`: a backslash before every metacharacter. */
  function Escape(name: string): (r: string)
    ensures |r| >= |name|
  {
    if name == [] then []
    else (if IsMeta(name[0]) then ['\\', name[0]] else [name[0]]) + Escape(name[1..])
  }

  /**
   * The literal text a pattern fragment stands for when it is a plain sequence of characters and
   * escapes; `None` when it holds an operator (an unescaped metacharacter) or a dangling backslash.
   */
  function ReadLiteral(pattern: string): Option<string>
    decreases |pattern|
  {
    if pattern == [] then Some([])
    else if pattern[0] == '\\' then
      if |pattern| == 1 then None
      else match ReadLiteral(pattern[2..]) case Some(rest) => Some([pattern[1]] + rest) case None => None
    else if IsMeta(pattern[0]) then None
    else match ReadLiteral(pattern[1..]) case Some(rest) => Some([pattern[0]] + rest) case None => None
  }

  /** An escaped name stands for exactly that name: it matches itself literally. */
  lemma {:induction false} EscapeIsLiteral(name: string)
    ensures ReadLiteral(Escape(name)) == Some(name)
  {
    if name != [] {
      EscapeIsLiteral(name[1..]);
      var rest := Escape(name[1..]);
      assert name == [name[0]] + name[1..];
      if IsMeta(name[0]) {
        var p := ['\\', name[0]] + rest;
        assert Escape(name) == p && p[0] == '\\' && p[1] == name[0] && p[2..] == rest;
      } else {
        var p := [name[0]] + rest;
        assert name[0] != '\\';
        assert Escape(name) == p && p[0] == name[0] && p[1..] == rest;
      }
    }
  }

  /** Escaping changes nothing exactly when the name holds no metacharacter (the unescaped join is then the same pattern). */
  lemma {:induction false} EscapeUnchanged(name: string)
    ensures Escape(name) == name <==> forall k :: 0 <= k < |name| ==> !IsMeta(name[k])
  {
    if forall k :: 0 <= k < |name| ==> !IsMeta(name[k]) {
      EscapeKeepsPlainName(name);
    } else {
      var k :| 0 <= k < |name| && IsMeta(name[k]);
      EscapeLengthens(name, k);
    }
  }

  lemma {:induction false} EscapeKeepsPlainName(name: string)
    requires forall k :: 0 <= k < |name| ==> !IsMeta(name[k])
    ensures Escape(name) == name
  {
    if name != [] {
      assert forall k :: 0 <= k < |name| - 1 ==> name[1..][k] == name[k + 1];
      EscapeKeepsPlainName(name[1..]);
      assert name == [name[0]] + name[1..];
    }
  }

  lemma {:induction false} EscapeLengthens(name: string, k: nat)
    requires k < |name| && IsMeta(name[k])
    ensures |Escape(name)| > |name|
    decreases k
  {
    if k > 0 {
      assert name[1..][k - 1] == name[k];
      EscapeLengthens(name[1..], k - 1);
    }
  }

  /**
   * Where the source starts the key's span: `match.index + match[0].indexOf(key)`, the first
   * place the key's text occurs anywhere in the matched call.
   */
  function SpanStart(t: string, m: Match): int
    requires m.index <= m.end <= |t|
  {
    m.index + IndexOf(t[m.index..m.end], m.key)
  }

  /**
   * The span the source computes does hold the key's text, starts no later than the captured key,
   * and is the captured key's own span exactly when the key's text does not occur earlier in the match.
   */
  lemma SpanStartFacts(t: string, m: Match)
    requires Located(t, m)
    ensures m.index <= SpanStart(t, m) <= m.keyStart
    ensures OccursAt(t, m.key, SpanStart(t, m))
    ensures SpanStart(t, m) == m.keyStart
            <==> forall s :: m.index <= s < m.keyStart ==> !OccursAt(t, m.key, s)
  {
    var text := t[m.index..m.end];
    var g := m.keyStart - m.index;
    OccursInSlice(t, m.index, m.end, m.key, g);
    IndexOfFirst(text, m.key, g);
    OccursInSlice(t, m.index, m.end, m.key, IndexOf(text, m.key));
    EarlierOccurrences(t, m.index, m.end, m.key, g);
  }

  /** No occurrence before `g` in the slice is the same as no occurrence before `lo + g` in the whole text. */
  lemma EarlierOccurrences(t: string, lo: nat, hi: nat, sub: string, g: nat)
    requires lo <= hi <= |t| && lo + g + |sub| <= hi
    ensures (forall s :: 0 <= s < g ==> !OccursAt(t[lo..hi], sub, s))
            <==> (forall s :: lo <= s < lo + g ==> !OccursAt(t, sub, s))
  {
    forall s | lo <= s < lo + g ensures OccursAt(t, sub, s) <==> OccursAt(t[lo..hi], sub, s - lo) {
      OccursInSlice(t, lo, hi, sub, s - lo);
    }
    forall s | 0 <= s < g ensures OccursAt(t, sub, lo + s) <==> OccursAt(t[lo..hi], sub, s) {
      OccursInSlice(t, lo, hi, sub, s);
    }
  }

  /** When `sub` occurs at `g`, `indexOf` finds an occurrence no later than `g`, and finds `g` itself exactly when there is none before. */
  lemma IndexOfFirst(text: string, sub: string, g: nat)
    requires OccursAt(text, sub, g)
    ensures 0 <= IndexOf(text, sub) <= g && OccursAt(text, sub, IndexOf(text, sub))
    ensures IndexOf(text, sub) == g <==> forall s :: 0 <= s < g ==> !OccursAt(text, sub, s)
  {
  }

  /** An occurrence inside a slice is an occurrence in the whole text, shifted by the slice's start. */
  lemma OccursInSlice(t: string, lo: nat, hi: nat, sub: string, s: nat)
    requires lo <= hi <= |t| && lo + s + |sub| <= hi
    ensures OccursAt(t[lo..hi], sub, s) <==> OccursAt(t, sub, lo + s)
  {
    var inner := t[lo..hi][s..s + |sub|];
    assert forall x :: 0 <= x < |sub| ==> inner[x] == t[lo + s + x];
    assert inner == t[lo + s..lo + s + |sub|];
  }

  /** The captured key's own span, between the quotes. */
  function KeySpan(m: Match): (span: (nat, nat))
    ensures span.1 - span.0 == |m.key|
  {
    (m.keyStart, m.keyStart + |m.key|)
  }

  /**
   * The span the source tests and reports: from `match.index + match[0].indexOf(key)` to that
   * start plus `key.length`.
   */
  function ProgramSpan(t: string, m: Match): (span: (int, int))
    requires m.index <= m.end <= |t|
    ensures span.1 - span.0 == |m.key|
  {
    (SpanStart(t, m), SpanStart(t, m) + |m.key|)
  }

  /**
   * The source's span lies inside the call and spells the key; it is the captured key's own
   * span exactly when the key's text does not occur earlier in the match.
   */
  lemma ProgramSpanFacts(t: string, m: Match)
    requires Located(t, m)
    ensures var (s, e) := ProgramSpan(t, m);
      m.index <= s <= e < m.end && t[s..e] == m.key
    ensures ProgramSpan(t, m) == KeySpan(m)
            <==> forall s :: m.index <= s < m.keyStart ==> !OccursAt(t, m.key, s)
  {
    SpanStartFacts(t, m);
  }

  /** The captured key's own span covers exactly the key, with a quote on each side. */
  lemma KeySpanBetweenQuotes(t: string, m: Match)
    requires Located(t, m) && Quoted(t, m)
    ensures var (s, e) := KeySpan(m);
      m.index < s && e < m.end && t[s..e] == m.key && IsQuote(t[s - 1]) && IsQuote(t[e])
  {
  }

  /**
   * In `t('t')` the key "t" also spells the callee's name, so the span the source computes starts
   * at 0, on the name, instead of at 3 inside the quotes.
   */
  lemma SpanStartMissesKeyExample()
    ensures var t := "t('t')";
      AllMatches(t, 0, ["t"]) == [Match(0, "t", 3, 6)]
      && SpanStart(t, Match(0, "t", 3, 6)) == 0 && KeySpan(Match(0, "t", 3, 6)).0 == 3
  {
    var t := "t('t')";
    assert TailShape(t, 1, 1, 2, 4, 5);
    MatchTailComplete(t, 1, 1, 2, 4, 5);
    assert t[0..1] == "t";
    assert MatchesWith(t, 0, "t");
    assert t[3..4] == "t";
    assert MatchAt(t, 0, ["t"]) == Some(Match(0, "t", 3, 6));
    assert Exec(t, 0, ["t"]) == Some(Match(0, "t", 3, 6));
    assert Exec(t, 6, ["t"]) == None by {
      assert !MatchesWith(t, 6, "t");
      assert MatchAt(t, 6, ["t"]) == None;
      assert Exec(t, 7, ["t"]) == None;
    }
    assert AllMatches(t, 6, ["t"]) == [];
    assert t[0..6] == t;
    assert OccursAt(t, "t", 0);
  }
}
