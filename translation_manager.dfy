/**
 * The flattener that turns a parsed translation file into the dotted-key map the extension
 * looks keys up in, and the loader that refills the shared map from a file.
 *
 * The flattener exists in two variants: the one in `translationManager.ts` keeps only array
 * leaves (translation entries `[value, context?]`), the older one in `extension.ts` keeps every
 * leaf that is not a plain object. Both recurse into plain objects only.
 */
module TranslationManager {
  import opened Wrappers
  import opened Strings
  import opened OrderedMap
  import opened JsonTree
  import opened HostFile
  import Utils

  /** Which leaves become entries. */
  datatype LeafPolicy =
    | ArraysOnly   // translationManager.ts: only arrays are entries, other leaves are skipped
    | AllLeaves    // extension.ts: every value that is not a plain object is stored as it is

  /** A value the flattener stores as an entry rather than skipping or recursing into. */
  predicate Kept(v: Json, policy: LeafPolicy) {
    if policy == ArraysOnly then v.JArr? else !v.JObj?
  }

  /** `prefix ? `${prefix}.${key}` : key`: the empty prefix is falsy and adds no dot. */
  function JoinKey(prefix: string, key: string): string {
    if prefix == "" then key else prefix + "." + key
  }

  /** The dotted key the flattener builds for the property path `segs` below `prefix`. */
  function PathKey(prefix: string, segs: seq<string>): string
    decreases |segs|
  {
    if segs == [] then prefix else PathKey(JoinKey(prefix, segs[0]), segs[1..])
  }

  /** The elements of an array as `for...in` visits them: index names in order, holes skipped. */
  function IndexedItems(items: seq<Option<Json>>): Assoc<Json>
  {
    if items == [] then []
    else
      var n := |items| - 1;
      IndexedItems(items[..n]) + (match items[n] case Some(x) => [(Decimal(n), x)] case None => [])
  }

  /**
   * The own enumerable properties `for...in` visits on the parsed document: an object's properties,
   * an array's indices and then its other properties, a string's character positions, and nothing
   * for `null`, a boolean or a number.
   */
  function EnumerableProps(root: Json): Assoc<Json> {
    match root
    case JObj(ps) => ps
    case JArr(items, named) => IndexedItems(items) + named
    case JStr(s) => seq(|s|, i requires 0 <= i < |s| => (Decimal(i), JStr([s[i]])))
    case _ => []
  }

  /**
   * The `for...in` loop of `flattenObjectToMap` over the properties of `j` from the `i`-th on,
   * with `acc` the map built so far: a plain object is flattened into a fresh map that is then
   * copied in with `forEach`/`set`, a kept leaf is `set` under its dotted key.
   */
  function FlattenFrom(j: Json, i: nat, prefix: string, acc: Assoc<Json>, policy: LeafPolicy): Assoc<Json>
    requires j.JObj? && i <= |j.props|
    decreases j, |j.props| - i
  {
    if i == |j.props| then acc
    else
      var (key, value) := j.props[i];
      var newPrefix := JoinKey(prefix, key);
      var acc' :=
        if value.JObj? then Merge(acc, FlattenFrom(value, 0, newPrefix, [], policy))
        else if Kept(value, policy) then Put(acc, newPrefix, value)
        else acc;
      FlattenFrom(j, i + 1, prefix, acc', policy)
  }

  /** `flattenObjectToMap(root)`, called with the default empty prefix. */
  function Flatten(root: Json, policy: LeafPolicy): Assoc<Json> {
    FlattenFrom(JObj(EnumerableProps(root)), 0, "", [], policy)
  }

  /**
   * Every leaf the flattener stores, in the order the depth-first walk reaches it, with its dotted
   * key; a key may appear more than once.
   */
  function Leaves(j: Json, i: nat, prefix: string, policy: LeafPolicy): Assoc<Json>
    requires j.JObj? && i <= |j.props|
    decreases j, |j.props| - i
  {
    if i == |j.props| then []
    else
      var (key, value) := j.props[i];
      var newPrefix := JoinKey(prefix, key);
      (if value.JObj? then Leaves(value, 0, newPrefix, policy)
       else if Kept(value, policy) then [(newPrefix, value)]
       else [])
      + Leaves(j, i + 1, prefix, policy)
  }

  /** All the leaves of a document, as `Flatten` walks it. */
  function DocumentLeaves(root: Json, policy: LeafPolicy): Assoc<Json> {
    Leaves(JObj(EnumerableProps(root)), 0, "", policy)
  }

  /** The flattened map is what putting the leaves one by one, in walk order, into `acc` gives. */
  lemma {:induction false} FlattenIsMergeOfLeaves(j: Json, i: nat, prefix: string, acc: Assoc<Json>, policy: LeafPolicy)
    requires j.JObj? && i <= |j.props|
    ensures FlattenFrom(j, i, prefix, acc, policy) == Merge(acc, Leaves(j, i, prefix, policy))
    decreases j, |j.props| - i
  {
    if i < |j.props| {
      var value := j.props[i].1;
      var newPrefix := JoinKey(prefix, j.props[i].0);
      if value.JObj? {
        FlattenIsMergeOfLeaves(value, 0, newPrefix, [], policy);
        FlattenIsMergeOfLeaves(j, i + 1, prefix, Merge(acc, Leaves(value, 0, newPrefix, policy)), policy);
        FlattenObjectStep(j, i, prefix, acc, policy);
      } else if Kept(value, policy) {
        FlattenIsMergeOfLeaves(j, i + 1, prefix, Put(acc, newPrefix, value), policy);
        FlattenLeafStep(j, i, prefix, acc, policy);
      } else {
        FlattenIsMergeOfLeaves(j, i + 1, prefix, acc, policy);
        FlattenSkipStep(j, i, prefix, acc, policy);
      }
    }
  }

  lemma FlattenObjectStep(j: Json, i: nat, prefix: string, acc: Assoc<Json>, policy: LeafPolicy)
    requires j.JObj? && i < |j.props| && j.props[i].1.JObj?
    requires var value, newPrefix := j.props[i].1, JoinKey(prefix, j.props[i].0);
      && FlattenFrom(value, 0, newPrefix, [], policy) == Merge([], Leaves(value, 0, newPrefix, policy))
      && FlattenFrom(j, i + 1, prefix, Merge(acc, Leaves(value, 0, newPrefix, policy)), policy)
         == Merge(Merge(acc, Leaves(value, 0, newPrefix, policy)), Leaves(j, i + 1, prefix, policy))
    ensures FlattenFrom(j, i, prefix, acc, policy) == Merge(acc, Leaves(j, i, prefix, policy))
  {
    var value, newPrefix := j.props[i].1, JoinKey(prefix, j.props[i].0);
    var inner := Leaves(value, 0, newPrefix, policy);
    var rest := Leaves(j, i + 1, prefix, policy);
    assert Leaves(j, i, prefix, policy) == inner + rest;
    assert FlattenFrom(j, i, prefix, acc, policy)
        == FlattenFrom(j, i + 1, prefix, Merge(acc, FlattenFrom(value, 0, newPrefix, [], policy)), policy);
    MergeThroughFresh(acc, inner);
    MergeAppend(acc, inner, rest);
  }

  lemma FlattenLeafStep(j: Json, i: nat, prefix: string, acc: Assoc<Json>, policy: LeafPolicy)
    requires j.JObj? && i < |j.props| && !j.props[i].1.JObj? && Kept(j.props[i].1, policy)
    requires var value, newPrefix := j.props[i].1, JoinKey(prefix, j.props[i].0);
      FlattenFrom(j, i + 1, prefix, Put(acc, newPrefix, value), policy)
      == Merge(Put(acc, newPrefix, value), Leaves(j, i + 1, prefix, policy))
    ensures FlattenFrom(j, i, prefix, acc, policy) == Merge(acc, Leaves(j, i, prefix, policy))
  {
    var value, newPrefix := j.props[i].1, JoinKey(prefix, j.props[i].0);
    var one := [(newPrefix, value)];
    var rest := Leaves(j, i + 1, prefix, policy);
    assert Leaves(j, i, prefix, policy) == one + rest;
    assert one[..0] == [];
    assert Merge(acc, one) == Put(acc, newPrefix, value);
    MergeAppend(acc, one, rest);
  }

  lemma FlattenSkipStep(j: Json, i: nat, prefix: string, acc: Assoc<Json>, policy: LeafPolicy)
    requires j.JObj? && i < |j.props| && !j.props[i].1.JObj? && !Kept(j.props[i].1, policy)
    requires FlattenFrom(j, i + 1, prefix, acc, policy) == Merge(acc, Leaves(j, i + 1, prefix, policy))
    ensures FlattenFrom(j, i, prefix, acc, policy) == Merge(acc, Leaves(j, i, prefix, policy))
  {
    assert FlattenFrom(j, i, prefix, acc, policy) == FlattenFrom(j, i + 1, prefix, acc, policy);
    LeavesSkip(j, i, prefix, policy);
  }

  /** A skipped leaf contributes nothing to the leaves. */
  lemma LeavesSkip(j: Json, i: nat, prefix: string, policy: LeafPolicy)
    requires j.JObj? && i < |j.props| && !j.props[i].1.JObj? && !Kept(j.props[i].1, policy)
    ensures Leaves(j, i, prefix, policy) == Leaves(j, i + 1, prefix, policy)
  {
    var rest := Leaves(j, i + 1, prefix, policy);
    assert Leaves(j, i, prefix, policy) == [] + rest;
    assert [] + rest == rest;
  }

  /** The flattened document is the map that its leaves, put in walk order into an empty map, make. */
  lemma FlattenIsMapOfLeaves(root: Json, policy: LeafPolicy)
    ensures Flatten(root, policy) == Merge([], DocumentLeaves(root, policy))
  {
    FlattenIsMergeOfLeaves(JObj(EnumerableProps(root)), 0, "", [], policy);
  }

  /** Only kept leaves are collected: no plain object, and under `ArraysOnly` nothing but arrays. */
  lemma {:induction false} LeavesAreKept(j: Json, i: nat, prefix: string, policy: LeafPolicy)
    requires j.JObj? && i <= |j.props|
    ensures forall e :: e in Leaves(j, i, prefix, policy) ==> Kept(e.1, policy)
    decreases j, |j.props| - i
  {
    if i < |j.props| {
      var (key, value) := j.props[i];
      if value.JObj? {
        LeavesAreKept(value, 0, JoinKey(prefix, key), policy);
      }
      LeavesAreKept(j, i + 1, prefix, policy);
    }
  }

  /**
   * Under `ArraysOnly` every flattened entry is an array: strings, numbers, booleans and `null`
   * are skipped and a nested object contributes no entry of its own.
   */
  lemma FlattenKeepsOnlyArrays(root: Json)
    ensures forall e :: e in Flatten(root, ArraysOnly) ==> e.1.JArr?
  {
    FlattenIsMapOfLeaves(root, ArraysOnly);
    MergeEntries([], DocumentLeaves(root, ArraysOnly));
    LeavesAreKept(JObj(EnumerableProps(root)), 0, "", ArraysOnly);
  }

  /** Under `AllLeaves` no flattened entry is a plain object. */
  lemma FlattenKeepsNoObject(root: Json)
    ensures forall e :: e in Flatten(root, AllLeaves) ==> !e.1.JObj?
  {
    FlattenIsMapOfLeaves(root, AllLeaves);
    MergeEntries([], DocumentLeaves(root, AllLeaves));
    LeavesAreKept(JObj(EnumerableProps(root)), 0, "", AllLeaves);
  }

  /**
   * A key of the flattened map holds the value of the last leaf the walk reached under that key;
   * a key no leaf has is absent.
   */
  lemma LaterLeafWins(root: Json, policy: LeafPolicy, k: string)
    ensures var leaves := DocumentLeaves(root, policy);
      OrderedMap.Get(Flatten(root, policy), k) == if k in Keys(leaves) then Some(LastValue(leaves, k)) else None
  {
    FlattenIsMapOfLeaves(root, policy);
    GetMerge([], DocumentLeaves(root, policy), k);
  }

  /** When no two leaves share a key, the flattened map lists exactly the leaves, in depth-first order. */
  lemma FlattenInWalkOrder(root: Json, policy: LeafPolicy)
    requires DistinctKeys(DocumentLeaves(root, policy))
    ensures Flatten(root, policy) == DocumentLeaves(root, policy)
  {
    FlattenIsMapOfLeaves(root, policy);
    MergeIntoEmpty(DocumentLeaves(root, policy));
  }

  /** A `null`, boolean or number document has no enumerable properties and flattens to the empty map. */
  lemma FlattenPrimitive(root: Json, policy: LeafPolicy)
    requires root.JNull? || root.JBool? || root.JNum?
    ensures Flatten(root, policy) == []
  {
  }

  /** Every step of `segs` but the last leads to a plain object (the walk the flattener recurses along). */
  predicate ObjectPath(j: Json, segs: seq<string>)
    decreases |segs|
  {
    |segs| <= 1
    || (JsonTree.Get(j, segs[0]).Some? && JsonTree.Get(j, segs[0]).value.JObj?
        && ObjectPath(JsonTree.Get(j, segs[0]).value, segs[1..]))
  }

  /** A leaf of the `n`-th property is a leaf of every suffix walk that starts at or before it. */
  lemma {:induction false} LeavesOfLaterProperty(j: Json, i: nat, n: nat, prefix: string, policy: LeafPolicy)
    requires j.JObj? && i <= n <= |j.props|
    ensures forall e :: e in Leaves(j, n, prefix, policy) ==> e in Leaves(j, i, prefix, policy)
    decreases n - i
  {
    if i < n {
      LeavesOfLaterProperty(j, i + 1, n, prefix, policy);
    }
  }

  /**
   * Completeness: a kept leaf reached from a plain object through plain objects becomes a leaf
   * under the dotted key of its path.
   */
  lemma {:induction false} LeavesComplete(j: Json, prefix: string, segs: seq<string>, policy: LeafPolicy)
    requires j.JObj? && |segs| >= 1 && ObjectPath(j, segs)
    requires Utils.At(j, segs).Some? && Kept(Utils.At(j, segs).value, policy)
    ensures (PathKey(prefix, segs), Utils.At(j, segs).value) in Leaves(j, 0, prefix, policy)
    decreases |segs|
  {
    var n := Find(j.props, segs[0]);
    var value := j.props[n].1;
    var newPrefix := JoinKey(prefix, segs[0]);
    LeavesOfLaterProperty(j, 0, n, prefix, policy);
    if |segs| > 1 {
      LeavesComplete(value, newPrefix, segs[1..], policy);
    }
  }

  /**
   * Soundness: every leaf of a well-formed object is the value at the end of a path through plain
   * objects, stored under that path's dotted key.
   */
  lemma {:induction false} LeavesSound(j: Json, i: nat, prefix: string, policy: LeafPolicy, e: (string, Json))
    requires j.JObj? && WellFormed(j) && i <= |j.props|
    requires e in Leaves(j, i, prefix, policy)
    ensures exists segs :: |segs| >= 1 && ObjectPath(j, segs) && Utils.At(j, segs) == Some(e.1)
                            && e.0 == PathKey(prefix, segs)
    decreases j, |j.props| - i
  {
    var (key, value) := j.props[i];
    var newPrefix := JoinKey(prefix, key);
    var rest := Leaves(j, i + 1, prefix, policy);
    FindUnique(j.props, key, i);
    assert JsonTree.Get(j, key) == Some(value);
    if e in rest {
      LeavesSound(j, i + 1, prefix, policy, e);
    } else if value.JObj? {
      assert WellFormed(value);
      LeavesSound(value, 0, newPrefix, policy, e);
      LeafBelowProperty(j, key, value, prefix, e);
    } else {
      assert e == (newPrefix, value);
      var path := [key];
      assert path[1..] == [];
      assert ObjectPath(j, path);
    assert Utils.At(j, path) == Some(e.1);
    assert e.0 == PathKey(prefix, path);
    }
  }

  /** A property name the flattener's dotted keys can be split back into: non-empty and dot-free. */
  predicate PlainName(n: string) {
    n != "" && '.' !in n
  }

  /** Every property name of every plain object the flattener walks through is plain. */
  predicate PlainNames(j: Json) {
    match j
    case JObj(ps) => forall i :: 0 <= i < |ps| ==> PlainName(ps[i].0) && PlainNames(ps[i].1)
    case _ => true
  }

  /** The writer's walk along `segs` never steps into an array: each intermediate is a plain object or is replaced by one. */
  predicate NoArrayOnPath(node: Json, segs: seq<string>)
    decreases |segs|
  {
    |segs| <= 1 || (Utils.Descend(node, segs[0]).JObj? && NoArrayOnPath(Utils.Descend(node, segs[0]), segs[1..]))
  }

  lemma GetPlain(node: Json, name: string)
    requires node.JObj? && PlainNames(node) && JsonTree.Get(node, name).Some?
    ensures PlainName(name) && PlainNames(JsonTree.Get(node, name).value)
  {
    var n := Find(node.props, name);
    assert node.props[n].0 == name;
  }

  lemma SetPlain(node: Json, name: string, c: Json)
    requires node.JObj? && PlainNames(node) && PlainName(name) && PlainNames(c)
    ensures PlainNames(Set(node, name, c))
  {
    var ps := node.props;
    var ps' := Put(ps, name, c);
    forall i | 0 <= i < |ps'| ensures PlainName(ps'[i].0) && PlainNames(ps'[i].1) {
      if name in Keys(ps) {
        assert ps' == ps[Find(ps, name) := (name, c)];
      } else {
        assert ps' == ps + [(name, c)];
      }
    }
  }

  /** Writing plain segments along a path without arrays keeps every name plain. */
  lemma {:induction false} WrittenPlain(node: Json, segs: seq<string>, v: Json)
    requires node.JObj? && PlainNames(node) && PlainNames(v) && |segs| >= 1
    requires NoArrayOnPath(node, segs) && forall i :: 0 <= i < |segs| ==> PlainName(segs[i])
    ensures PlainNames(Utils.Written(node, segs, v))
    decreases |segs|
  {
    if |segs| == 1 {
      SetPlain(node, segs[0], v);
    } else {
      var c := Utils.Descend(node, segs[0]);
      if JsonTree.Get(node, segs[0]).Some? {
        GetPlain(node, segs[0]);
      }
      WrittenPlain(c, segs[1..], v);
      SetPlain(node, segs[0], Utils.Written(c, segs[1..], v));
    }
  }

  /** After the write, the key's path leads through plain objects only. */
  lemma {:induction false} WrittenObjectPath(node: Json, segs: seq<string>, v: Json)
    requires node.JObj? && |segs| >= 1 && NoArrayOnPath(node, segs)
    ensures ObjectPath(Utils.Written(node, segs, v), segs)
    decreases |segs|
  {
    if |segs| > 1 {
      WrittenObjectPath(Utils.Descend(node, segs[0]), segs[1..], v);
    }
  }

  /** The names along a path that reaches something in a plain-named document are plain. */
  lemma {:induction false} PathNamesPlain(j: Json, segs: seq<string>)
    requires j.JObj? && PlainNames(j) && |segs| >= 1 && ObjectPath(j, segs) && Utils.At(j, segs).Some?
    ensures forall i :: 0 <= i < |segs| ==> PlainName(segs[i])
    decreases |segs|
  {
    GetPlain(j, segs[0]);
    if |segs| > 1 {
      PathNamesPlain(JsonTree.Get(j, segs[0]).value, segs[1..]);
      assert forall i :: 1 <= i < |segs| ==> segs[i] == segs[1..][i - 1];
    }
  }

  /** Below a non-empty prefix, plain segments are appended with dots. */
  lemma {:induction false} PathKeyBelow(p: string, segs: seq<string>)
    requires p != "" && |segs| >= 1 && forall i :: 0 <= i < |segs| ==> PlainName(segs[i])
    ensures PathKey(p, segs) == p + "." + Join(segs, '.')
    decreases |segs|
  {
    var p' := p + "." + segs[0];
    if |segs| == 1 {
      assert segs[1..] == [];
    } else {
      PathKeyBelow(p', segs[1..]);
      assert p' + "." + Join(segs[1..], '.') == p + "." + (segs[0] + "." + Join(segs[1..], '.'));
    }
  }

  /** From the top, the dotted key of a path of plain names is the names joined with dots. */
  lemma PathKeyOfPlainPath(segs: seq<string>)
    requires |segs| >= 1 && forall i :: 0 <= i < |segs| ==> PlainName(segs[i])
    ensures PathKey("", segs) == Join(segs, '.')
  {
    if |segs| > 1 {
      PathKeyBelow(segs[0], segs[1..]);
    }
  }

  /** A path below the property `key` of `j`, extended by `key`, is a path of `j`. */
  lemma LeafBelowProperty(j: Json, key: string, value: Json, prefix: string, e: (string, Json))
    requires j.JObj? && value.JObj? && JsonTree.Get(j, key) == Some(value)
    requires exists segs :: |segs| >= 1 && ObjectPath(value, segs) && Utils.At(value, segs) == Some(e.1)
                            && e.0 == PathKey(JoinKey(prefix, key), segs)
    ensures exists segs :: |segs| >= 1 && ObjectPath(j, segs) && Utils.At(j, segs) == Some(e.1)
                           && e.0 == PathKey(prefix, segs)
  {
    var segs :| |segs| >= 1 && ObjectPath(value, segs) && Utils.At(value, segs) == Some(e.1)
                && e.0 == PathKey(JoinKey(prefix, key), segs);
    var path := [key] + segs;
    assert path[1..] == segs;
    assert ObjectPath(j, path);
    assert Utils.At(j, path) == Some(e.1);
    assert e.0 == PathKey(prefix, path);
  }

  /** In a well-formed plain-named object, a leaf whose key spells a path of plain names is the value at that path. */
  lemma OnlyLeafAtPlainPath(w: Json, segs: seq<string>, policy: LeafPolicy, e: (string, Json))
    requires w.JObj? && WellFormed(w) && PlainNames(w)
    requires |segs| >= 1 && forall i :: 0 <= i < |segs| ==> PlainName(segs[i])
    requires e in Leaves(w, 0, "", policy) && e.0 == Join(segs, '.')
    ensures Utils.At(w, segs) == Some(e.1)
  {
    LeavesSound(w, 0, "", policy, e);
    var other :| |other| >= 1 && ObjectPath(w, other) && Utils.At(w, other) == Some(e.1)
                 && e.0 == PathKey("", other);
    PathNamesPlain(w, other);
    PathKeyOfPlainPath(other);
    JoinInjective(other, segs, '.');
  }

  /**
   * Round trip of the writer and the flattener: after writing a kept value at a key with no empty
   * segment, into a well-formed object whose names are plain and along whose path the writer meets
   * no array, the flattened document maps the key to that value.
   */
  lemma FlattenAfterWrite(root: Json, keyPath: string, v: Json, policy: LeafPolicy)
    requires root.JObj? && WellFormed(root) && PlainNames(root)
    requires WellFormed(v) && Kept(v, policy)
    requires var segs := Split(keyPath, '.'); (forall i :: 0 <= i < |segs| ==> segs[i] != "") && NoArrayOnPath(root, segs)
    ensures OrderedMap.Get(Flatten(Utils.Written(root, Split(keyPath, '.'), v), policy), keyPath) == Some(v)
  {
    var segs := Split(keyPath, '.');
    var w := Utils.Written(root, segs, v);
    Utils.WrittenWellFormed(root, segs, v);
    WrittenPlain(root, segs, v);
    WrittenObjectPath(root, segs, v);
    Utils.WrittenReaches(root, segs, v);
    assert JObj(EnumerableProps(w)) == w;
    var leaves := Leaves(w, 0, "", policy);
    LeavesComplete(w, "", segs, policy);
    PathKeyOfPlainPath(segs);
    assert (keyPath, v) in leaves;
    forall e | e in leaves && e.0 == keyPath ensures e.1 == v {
      OnlyLeafAtPlainPath(w, segs, policy, e);
    }
    assert keyPath in Keys(leaves) by {
      var n :| 0 <= n < |leaves| && leaves[n] == (keyPath, v);
      assert Keys(leaves)[n] == keyPath;
    }
    LastValueUniform(leaves, keyPath, v);
    LaterLeafWins(w, policy, keyPath);
  }

  /** The flattened map never lists a key twice. */
  lemma FlattenDistinct(root: Json, policy: LeafPolicy)
    ensures DistinctKeys(Flatten(root, policy))
  {
    FlattenIsMapOfLeaves(root, policy);
    MergeKeepsDistinct([], DocumentLeaves(root, policy));
  }

  /**
   * For instance `{"a": {"b": 5}}`: the number is skipped and the nested object has no entry of
   * its own, so nothing is kept under `ArraysOnly`.
   */
  lemma NestedNumberSkipped()
    ensures Flatten(JObj([("a", JObj([("b", JNum(5))]))]), ArraysOnly) == []
  {
    var inner := JObj([("b", JNum(5))]);
    var doc := JObj([("a", inner)]);
    assert EnumerableProps(doc) == doc.props;
    assert FlattenFrom(inner, 1, "a", [], ArraysOnly) == [];
    assert FlattenFrom(inner, 0, "a", [], ArraysOnly) == [];
    assert Merge<Json>([], []) == [];
    assert FlattenFrom(doc, 1, "", [], ArraysOnly) == [];
  }

  /** `AllLeaves` stores the number of `{"a": {"b": 5}}` under "a.b". */
  lemma NestedNumberKept()
    ensures Flatten(JObj([("a", JObj([("b", JNum(5))]))]), AllLeaves) == [("a.b", JNum(5))]
  {
    var inner := JObj([("b", JNum(5))]);
    var doc := JObj([("a", inner)]);
    assert EnumerableProps(doc) == doc.props;
    assert JoinKey("", "a") == "a" && JoinKey("a", "b") == "a.b";
    assert Leaves(inner, 1, "a", AllLeaves) == [];
    assert Leaves(inner, 0, "a", AllLeaves) == [("a.b", JNum(5))];
    assert Leaves(doc, 1, "", AllLeaves) == [];
    assert DocumentLeaves(doc, AllLeaves) == [("a.b", JNum(5))];
    FlattenInWalkOrder(doc, AllLeaves);
  }

  /** An empty object contributes nothing. */
  lemma EmptyObjectExample(policy: LeafPolicy)
    ensures Flatten(JObj([("a", JObj([]))]), policy) == []
  {
    assert FlattenFrom(JObj([]), 0, "a", [], policy) == [];
  }

  /**
   * The empty prefix is falsy: below a property named "" the next name is used on its own, so
   * `{"": {"b": x}}` gives the key "b" rather than ".b".
   */
  lemma EmptyNameExample(x: Json, policy: LeafPolicy)
    requires Kept(x, policy)
    ensures Flatten(JObj([("", JObj([("b", x)]))]), policy) == [("b", x)]
  {
    var inner := JObj([("b", x)]);
    var doc := JObj([("", inner)]);
    assert EnumerableProps(doc) == doc.props;
    assert JoinKey("", "") == "" && JoinKey("", "b") == "b";
    assert Leaves(inner, 1, "", policy) == [];
    assert Leaves(inner, 0, "", policy) == [("b", x)];
    assert Leaves(doc, 1, "", policy) == [];
    assert DocumentLeaves(doc, policy) == [("b", x)];
    FlattenInWalkOrder(doc, policy);
  }

  /**
   * Two paths can spell the same key: in `{"a": {"b": x}, "a.b": y}` the property literally
   * named "a.b" is visited later and its value wins.
   */
  lemma CollidingKeysExample(x: Json, y: Json, policy: LeafPolicy)
    requires Kept(x, policy) && Kept(y, policy)
    ensures Flatten(JObj([("a", JObj([("b", x)])), ("a.b", y)]), policy) == [("a.b", y)]
  {
    var inner := JObj([("b", x)]);
    var doc := JObj([("a", inner), ("a.b", y)]);
    assert EnumerableProps(doc) == doc.props;
    assert JoinKey("", "a") == "a" && JoinKey("a", "b") == "a.b" && JoinKey("", "a.b") == "a.b";
    assert Leaves(inner, 1, "a", policy) == [];
    assert Leaves(inner, 0, "a", policy) == [("a.b", x)];
    assert Leaves(doc, 2, "", policy) == [];
    assert Leaves(doc, 1, "", policy) == [("a.b", y)];
    assert DocumentLeaves(doc, policy) == [("a.b", x)] + [("a.b", y)];
    FlattenIsMapOfLeaves(doc, policy);
    MergeSnoc([], [("a.b", x)], ("a.b", y));
    MergeSnoc([], [], ("a.b", x));
    assert [] + [("a.b", x)] == [("a.b", x)];
    PutIntoEmpty("a.b", x);
    PutOverSingle("a.b", x, y);
  }


  /** Putting every flattened entry, in order, into an empty map rebuilds the flattened map. */
  lemma FlattenLoaded(root: Json)
    ensures var f := Flatten(root, ArraysOnly); Merge([], f[..|f|]) == f
  {
    var f := Flatten(root, ArraysOnly);
    assert f[..|f|] == f;
    FlattenDistinct(root, ArraysOnly);
    MergeIntoEmpty(f);
  }

  /** The shared map `translations` of `translationManager.ts`. */
  class TranslationStore {
    var translations: Assoc<Json>

    constructor ()
      ensures translations == []
    {
      translations := [];
    }

    /**
     * `loadTranslations(filePath)`. The map is cleared first; a missing path or file leaves it
     * empty silently, a read or parse failure leaves it empty and shows an error (the result),
     * and otherwise the flattened file is copied in entry by entry.
     */
    method LoadTranslations(filePath: Option<string>, disk: Disk) returns (errorShown: bool)
      modifies this
      ensures (filePath.None? || filePath.value == "" || disk.NoFile?) ==> translations == [] && !errorShown
      ensures filePath.Some? && filePath.value != "" && (disk.Unreadable? || disk.Malformed?)
              ==> translations == [] && errorShown
      ensures filePath.Some? && filePath.value != "" && disk.Holds?
              ==> translations == Flatten(disk.root, ArraysOnly) && !errorShown
    {
      translations := [];
      if filePath.None? || filePath.value == "" || disk.NoFile? {
        return false;
      }
      if !disk.Holds? {
        return true;
      }
      var flattened := Flatten(disk.root, ArraysOnly);
      for i := 0 to |flattened|
        invariant translations == Merge([], flattened[..i])
      {
        MergePrefix([], flattened, i);
        translations := Put(translations, flattened[i].0, flattened[i].1);
      }
      FlattenLoaded(disk.root);
      errorShown := false;
    }
  }
}
