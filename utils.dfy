/**
 * The key-path writer `updateValueInObject`: it follows the dot-separated segments of a key through
 * a parsed translation document, creating `{}` wherever the next step is missing or is not an
 * object, and assigns the entry to the last segment.
 */
module Utils {
  import opened Wrappers
  import opened Strings
  import opened JsonTree

  /** The value the writer steps into at `name`: the object (or array) already there, or a fresh `{}`. */
  function Descend(node: Json, name: string): (c: Json)
    ensures IsObject(c)
    ensures c == (if Get(node, name).Some? && IsObject(Get(node, name).value) then Get(node, name).value else JObj([]))
  {
    match Get(node, name)
    case Some(c) => if IsObject(c) then c else JObj([])
    case None => JObj([])
  }

  /** The document that results from writing `v` at the path `segs` of `node`. */
  function Written(node: Json, segs: seq<string>, v: Json): (r: Json)
    requires IsObject(node) && |segs| >= 1
    ensures r.JObj? == node.JObj? && r.JArr? == node.JArr?
    decreases |segs|
  {
    if |segs| == 1 then Set(node, segs[0], v)
    else Set(node, segs[0], Written(Descend(node, segs[0]), segs[1..], v))
  }

  /** Following a path of own properties from `node`; a primitive has none. */
  function At(node: Json, path: seq<string>): Option<Json>
    decreases |path|
  {
    if path == [] then Some(node)
    else
      match Get(node, path[0])
      case Some(c) => At(c, path[1..])
      case None => None
  }

  /** The document consisting of `v` under the path `segs` and nothing else. */
  function Chain(segs: seq<string>, v: Json): Json
    requires |segs| >= 1
    decreases |segs|
  {
    if |segs| == 1 then JObj([(segs[0], v)]) else JObj([(segs[0], Chain(segs[1..], v))])
  }

  /** `q` leaves the path `segs` at some segment before either ends. */
  predicate Diverges(q: seq<string>, segs: seq<string>)
    decreases |q|
  {
    |q| >= 1 && |segs| >= 1 && (q[0] != segs[0] || Diverges(q[1..], segs[1..]))
  }

  /** The ancestors the walk has passed through, each with the segment it was left by. */
  type Trail = seq<(Json, string)>

  predicate TrailOfObjects(trail: Trail) {
    forall i :: 0 <= i < |trail| ==> IsObject(trail[i].0)
  }

  /** Putting the walked-into value back into its ancestors, innermost first. */
  function Plug(trail: Trail, c: Json): Json
    requires TrailOfObjects(trail)
    decreases |trail|
  {
    if trail == [] then c
    else
      var last := trail[|trail| - 1];
      Plug(trail[..|trail| - 1], Set(last.0, last.1, c))
  }

  /** The caller's parsed document, which the writer changes in place. */
  class Document {
    var root: Json

    constructor (root: Json)
      ensures this.root == root
    {
      this.root := root;
    }
  }

  /**
   * `updateValueInObject(obj, keyPath, value)`. The caller's object must be an object or array:
   * JavaScript (in strict mode) throws a TypeError for any other value, and the callers model that.
   */
  method UpdateValueInObject(obj: Document, keyPath: string, value: Json)
    requires IsObject(obj.root)
    modifies obj
    ensures obj.root == Written(old(obj.root), Split(keyPath, '.'), value)
  {
    var keys := Split(keyPath, '.');
    var current := obj.root;
    var trail: Trail := [];
    for i := 0 to |keys| - 1
      invariant IsObject(current) && TrailOfObjects(trail)
      invariant Plug(trail, Written(current, keys[i..], value)) == Written(old(obj.root), keys, value)
    {
      var key := keys[i];
      ghost var entered := current;
      var child := Get(current, key);
      if child.None? || !IsObject(child.value) {
        current := Set(current, key, JObj([]));
        child := Some(JObj([]));
      }
      SliceHead(keys, i);
      StepKeepsPlug(trail, entered, current, key, keys[i + 1..], value);
      trail := trail + [(current, key)];
      current := child.value;
    }
    current := Set(current, keys[|keys| - 1], value);
    obj.root := Plug(trail, current);
  }

  lemma SliceHead(segs: seq<string>, i: nat)
    requires i < |segs|
    ensures segs[i..] == [segs[i]] + segs[i + 1..]
  {
  }

  /** One step of the walk: recording the parent in the trail and moving into the child loses nothing. */
  lemma StepKeepsPlug(trail: Trail, parent: Json, parent': Json, key: string, rest: seq<string>, v: Json)
    requires TrailOfObjects(trail) && IsObject(parent) && |rest| >= 1
    requires parent' == parent || parent' == Set(parent, key, JObj([]))
    ensures TrailOfObjects(trail + [(parent', key)])
    ensures Plug(trail + [(parent', key)], Written(Descend(parent, key), rest, v))
         == Plug(trail, Written(parent, [key] + rest, v))
  {
    var inner := Written(Descend(parent, key), rest, v);
    if parent' != parent {
      SetTwice(parent, key, JObj([]), inner);
    }
    assert ([key] + rest)[1..] == rest;
    assert (trail + [(parent', key)])[..|trail|] == trail;
  }

  /** After the write, following the key's segments leads to the written value. */
  lemma {:induction false} WrittenReaches(node: Json, segs: seq<string>, v: Json)
    requires IsObject(node) && |segs| >= 1
    ensures At(Written(node, segs, v), segs) == Some(v)
    decreases |segs|
  {
    if |segs| > 1 {
      WrittenReaches(Descend(node, segs[0]), segs[1..], v);
    }
  }

  /** Writing into a fresh `{}` builds exactly the chain of single-property objects along the path. */
  lemma {:induction false} WrittenIntoEmpty(segs: seq<string>, v: Json)
    requires |segs| >= 1
    ensures Written(JObj([]), segs, v) == Chain(segs, v)
    decreases |segs|
  {
    if |segs| > 1 {
      WrittenIntoEmpty(segs[1..], v);
    }
  }

  /**
   * An intermediate segment whose value is missing, a primitive or `null` is replaced by a fresh
   * `{}` that ends up holding only the rest of the path.
   */
  lemma FreshObjectForNonObject(node: Json, segs: seq<string>, v: Json)
    requires IsObject(node) && |segs| >= 2
    requires Get(node, segs[0]).None? || !IsObject(Get(node, segs[0]).value)
    ensures Get(Written(node, segs, v), segs[0]) == Some(Chain(segs[1..], v))
  {
    WrittenIntoEmpty(segs[1..], v);
  }

  /**
   * An intermediate object (or array) is kept and written into: it stays the same kind of value and
   * every property other than the next segment is unchanged.
   */
  lemma ExistingObjectKept(node: Json, segs: seq<string>, v: Json)
    requires IsObject(node) && |segs| >= 2
    requires Get(node, segs[0]).Some? && IsObject(Get(node, segs[0]).value)
    ensures var c := Get(node, segs[0]).value;
      var c' := Get(Written(node, segs, v), segs[0]);
      c'.Some? && c'.value.JObj? == c.JObj? && c'.value.JArr? == c.JArr?
      && forall n :: n != segs[1] ==> Get(c'.value, n) == Get(c, n)
  {
    var c := Get(node, segs[0]).value;
    var rest := segs[1..];
    forall n | n != segs[1] ensures Get(Written(c, rest, v), n) == Get(c, n) {
      if |rest| == 1 {
        GetSetOther(c, rest[0], v, n);
      } else {
        GetSetOther(c, rest[0], Written(Descend(c, rest[0]), rest[1..], v), n);
      }
    }
  }

  /** Nothing off the key's path changes: a path that leaves the key's path reads the same before and after. */
  lemma {:induction false} WrittenElsewhereUnchanged(node: Json, segs: seq<string>, v: Json, q: seq<string>)
    requires IsObject(node) && |segs| >= 1
    requires Diverges(q, segs)
    ensures At(Written(node, segs, v), q) == At(node, q)
    decreases |segs|
  {
    if q[0] != segs[0] {
      if |segs| == 1 {
        GetSetOther(node, segs[0], v, q[0]);
      } else {
        GetSetOther(node, segs[0], Written(Descend(node, segs[0]), segs[1..], v), q[0]);
      }
    } else {
      var c := Descend(node, segs[0]);
      WrittenElsewhereUnchanged(c, segs[1..], v, q[1..]);
      assert Get(Written(node, segs, v), q[0]) == Some(Written(c, segs[1..], v));
      AtThroughDescend(node, q[0], q[1..]);
    }
  }

  /** Below a name the writer would replace by `{}`, no path reaches anything, before or after. */
  lemma AtThroughDescend(node: Json, name: string, rest: seq<string>)
    requires |rest| >= 1
    ensures At(Descend(node, name), rest) == At(node, [name] + rest)
  {
    assert ([name] + rest)[1..] == rest;
    match Get(node, name)
    case Some(prior) =>
      if !IsObject(prior) {
        assert At(prior, rest) == None;
      }
    case None =>
  }

  /** Applying the same update twice leaves the document as applying it once. */
  lemma {:induction false} WrittenIdempotent(node: Json, segs: seq<string>, v: Json)
    requires IsObject(node) && |segs| >= 1
    ensures Written(Written(node, segs, v), segs, v) == Written(node, segs, v)
    decreases |segs|
  {
    if |segs| == 1 {
      SetTwice(node, segs[0], v, v);
    } else {
      var inner := Written(Descend(node, segs[0]), segs[1..], v);
      var once := Set(node, segs[0], inner);
      assert Descend(once, segs[0]) == inner;
      WrittenIdempotent(Descend(node, segs[0]), segs[1..], v);
      SetTwice(node, segs[0], inner, inner);
    }
  }

  /** Writing a well-formed value into a well-formed document keeps every name unique. */
  lemma {:induction false} WrittenWellFormed(node: Json, segs: seq<string>, v: Json)
    requires IsObject(node) && |segs| >= 1 && WellFormed(node) && WellFormed(v)
    ensures WellFormed(Written(node, segs, v))
    decreases |segs|
  {
    if |segs| == 1 {
      SetWellFormed(node, segs[0], v);
    } else {
      var c := Descend(node, segs[0]);
      if Get(node, segs[0]).Some? {
        GetWellFormed(node, segs[0]);
      }
      WrittenWellFormed(c, segs[1..], v);
      SetWellFormed(node, segs[0], Written(c, segs[1..], v));
    }
  }

  /** A key without a dot sets a top-level property. */
  lemma DotFreeKeyIsTopLevel(node: Json, key: string, v: Json)
    requires IsObject(node) && '.' !in key
    ensures Written(node, Split(key, '.'), v) == Set(node, key, v)
  {
    SplitSeparatorFree(key, '.');
  }

  /** The number of times `c` occurs in `s`. */
  function CountChar(s: string, c: char): nat {
    if s == [] then 0 else (if s[0] == c then 1 else 0) + CountChar(s[1..], c)
  }

  /** Every dot starts a new segment, so empty segments are kept rather than coalesced. */
  lemma {:induction false} SegmentsPerDot(key: string)
    ensures |Split(key, '.')| == CountChar(key, '.') + 1
  {
    if key != [] {
      SegmentsPerDot(key[1..]);
      var rest := Split(key[1..], '.');
      assert CountChar(key, '.') == (if key[0] == '.' then 1 else 0) + CountChar(key[1..], '.');
      if key[0] == '.' {
        assert Split(key, '.') == [""] + rest;
      } else {
        assert Split(key, '.') == [[key[0]] + rest[0]] + rest[1..];
      }
    }
  }

  /** For instance "a..b" names the properties "a", "" and "b". */
  lemma EmptySegmentIsLiteral()
    ensures Split("a..b", '.') == ["a", "", "b"]
  {
    assert "b"[1..] == "";
    assert Split("b", '.') == ["b"];
    assert ".b"[1..] == "b";
    assert Split(".b", '.') == ["", "b"];
    assert "..b"[1..] == ".b";
    assert Split("..b", '.') == ["", "", "b"];
    assert "a..b"[1..] == "..b";
    assert ['a'] + "" == "a";
    assert ["", "", "b"][1..] == ["", "b"];
  }
}
