/**
 * The JSON values a translation file parses to, with the property access of JavaScript:
 * a plain object's own properties in enumeration order, and an array whose canonical
 * index names ("0", "1", ...) address its elements while any other name is an ordinary
 * property of the array object.
 */
module JsonTree {
  import opened Wrappers
  import opened OrderedMap

  datatype Json =
    | JNull
    | JBool(b: bool)
    | JNum(n: int)
    | JStr(s: string)
      /** `items[i] == None` is a hole (reads as `undefined`); `named` holds non-index properties. */
    | JArr(items: seq<Option<Json>>, named: Assoc<Json>)
    | JObj(props: Assoc<Json>)

  /** `typeof v === "object" && v !== null`: true of arrays as well as plain objects. */
  predicate IsObject(j: Json) {
    j.JArr? || j.JObj?
  }

  /** JavaScript truthiness (numbers are integers here, so NaN does not arise). */
  predicate Truthy(j: Json) {
    match j
    case JNull => false
    case JBool(b) => b
    case JNum(n) => n != 0
    case JStr(s) => s != ""
    case _ => true
  }

  /** Every object and every array's named properties list each name once, at every depth. */
  predicate WellFormed(j: Json) {
    match j
    case JObj(ps) =>
      DistinctKeys(ps) && forall i :: 0 <= i < |ps| ==> WellFormed(ps[i].1)
    case JArr(items, named) =>
      DistinctKeys(named) && (forall i :: 0 <= i < |named| ==> WellFormed(named[i].1))
      && forall i :: 0 <= i < |items| && items[i].Some? ==> WellFormed(items[i].value)
    case _ => true
  }

  /** The largest array index, 2^32 - 2. */
  const MaxArrayIndex: nat := 4294967294

  predicate IsDigit(c: char) {
    '0' <= c <= '9'
  }

  function DigitValue(c: char): nat
    requires IsDigit(c)
  {
    (c as int) - ('0' as int)
  }

  function DigitsValue(s: string): nat
    requires forall i :: 0 <= i < |s| ==> IsDigit(s[i])
  {
    if s == [] then 0 else 10 * DigitsValue(s[..|s| - 1]) + DigitValue(s[|s| - 1])
  }

  /** The decimal text JavaScript's `String(n)` gives a non-negative integer. */
  function Decimal(n: nat): (s: string)
    ensures |s| >= 1
  {
    var d := ['0' + ((n % 10) as char)];
    if n < 10 then d else Decimal(n / 10) + d
  }

  /**
   * The element an array property name addresses: a string of digits that is the canonical
   * decimal form of a number no larger than 2^32 - 2. "01" and "4294967295" are ordinary names.
   */
  function ArrayIndex(name: string): (r: Option<nat>)
    ensures r.Some? ==> name == Decimal(r.value) && r.value <= MaxArrayIndex
  {
    if name != [] && (forall i :: 0 <= i < |name| ==> IsDigit(name[i])) then
      var v := DigitsValue(name);
      if v <= MaxArrayIndex && Decimal(v) == name then Some(v) else None
    else None
  }

  /** Two names address the same array element only if they are the same name. */
  lemma ArrayIndexInjective(a: string, b: string)
    requires ArrayIndex(a).Some? && ArrayIndex(a) == ArrayIndex(b)
    ensures a == b
  {
  }

  /** `n` holes: what an array gains between its old end and an element assigned past it. */
  function Holes(n: nat): (h: seq<Option<Json>>)
    ensures |h| == n && forall i :: 0 <= i < n ==> h[i] == None
  {
    seq(n, _ => None)
  }

  /** `node[name]` for an own property; a primitive has no properties in this model. */
  function Get(node: Json, name: string): Option<Json> {
    match node
    case JObj(ps) => OrderedMap.Get(ps, name)
    case JArr(items, named) =>
      (match ArrayIndex(name)
       case Some(i) => if i < |items| then items[i] else None
       case None => OrderedMap.Get(named, name))
    case _ => None
  }

  /**
   * `node[name] = v` on an object: an existing property keeps its place, a new one is appended;
   * on an array an index past the end first grows the array with holes.
   */
  function Set(node: Json, name: string, v: Json): (r: Json)
    requires IsObject(node)
    ensures r.JObj? == node.JObj? && r.JArr? == node.JArr?
    ensures Get(r, name) == Some(v)
  {
    match node
    case JObj(ps) => JObj(Put(ps, name, v))
    case JArr(items, named) =>
      match ArrayIndex(name)
      case Some(i) =>
        if i < |items| then JArr(items[i := Some(v)], named)
        else JArr(items + Holes(i - |items|) + [Some(v)], named)
      case None => JArr(items, Put(named, name, v))
  }

  /** Assigning one property leaves every other property as it was. */
  lemma GetSetOther(node: Json, name: string, v: Json, other: string)
    requires IsObject(node) && other != name
    ensures Get(Set(node, name, v), other) == Get(node, other)
  {
    match node
    case JObj(ps) =>
      GetPutOther(ps, name, v, other);
    case JArr(items, named) =>
      if ArrayIndex(name).Some? && ArrayIndex(other).Some? {
        if ArrayIndex(name) == ArrayIndex(other) {
          ArrayIndexInjective(name, other);
        }
      } else if ArrayIndex(name).None? && ArrayIndex(other).None? {
        GetPutOther(named, name, v, other);
      }
  }

  /** Assigning the same property twice keeps only the second value. */
  lemma SetTwice(node: Json, name: string, v: Json, w: Json)
    requires IsObject(node)
    ensures Set(Set(node, name, v), name, w) == Set(node, name, w)
  {
    match node
    case JObj(ps) =>
      PutSameKeyTwice(ps, name, v, w);
    case JArr(items, named) =>
      if ArrayIndex(name).None? {
        PutSameKeyTwice(named, name, v, w);
      }
  }

  /** Assigning a property of a well-formed object or array keeps it well formed. */
  lemma SetWellFormed(node: Json, name: string, v: Json)
    requires IsObject(node) && WellFormed(node) && WellFormed(v)
    ensures WellFormed(Set(node, name, v))
  {
    match node
    case JObj(ps) =>
      PutKeepsWellFormed(ps, name, v);
    case JArr(items, named) =>
      if ArrayIndex(name).None? {
        PutKeepsWellFormed(named, name, v);
      }
  }

  lemma PutKeepsWellFormed(ps: Assoc<Json>, name: string, v: Json)
    requires forall i :: 0 <= i < |ps| ==> WellFormed(ps[i].1)
    requires WellFormed(v)
    ensures forall i :: 0 <= i < |Put(ps, name, v)| ==> WellFormed(Put(ps, name, v)[i].1)
  {
    var ps' := Put(ps, name, v);
    forall i | 0 <= i < |ps'| ensures WellFormed(ps'[i].1) {
      if name !in Keys(ps) {
        assert ps' == ps + [(name, v)];
      }
    }
  }

  /** A property read back from a well-formed object or array is well formed. */
  lemma GetWellFormed(node: Json, name: string)
    requires WellFormed(node) && Get(node, name).Some?
    ensures WellFormed(Get(node, name).value)
  {
    match node
    case JObj(ps) =>
      assert ps[Find(ps, name)].1 == Get(node, name).value;
    case JArr(items, named) =>
      if ArrayIndex(name).None? {
        assert named[Find(named, name)].1 == Get(node, name).value;
      }
  }

  /** `entry[i]`, as used on a translation entry: an array element, a character of a string, or `undefined`. */
  function ElementAt(j: Json, i: nat): Option<Json> {
    match j
    case JArr(items, _) => if i < |items| then items[i] else None
    case JStr(s) => if i < |s| then Some(JStr([s[i]])) else None
    case _ => None
  }
}

/**
 * What the host's file system and JSON parser answer for one file path. Reading, existence tests
 * and JSON.parse are not modelled; their outcomes are inputs.
 */
module HostFile {
  import opened JsonTree

  datatype Disk =
    | NoFile              // existsSync is false; readFileSync throws ENOENT
    | Unreadable          // the file exists but readFileSync throws
    | Malformed           // the text was read but JSON.parse throws a SyntaxError
    | Holds(root: Json)   // the text parses to this document
}
