/**
 * The schema synthesiser: it folds the parsed forest into a nested JSON-like value
 * whose leaves are empty strings and in which every loop becomes a one-element
 * array holding the object built from the loop's body.
 */
module Schema {
  import opened Wrappers
  import opened Parser

  /** The part of `serde_json::Value` the synthesiser produces. */
  datatype Value =
    | Obj(fields: map<string, Value>)
    | Arr(items: seq<Value>)
    | Str(s: string)

  /**
   * The outcome of a step that may panic: `unwrap` on a value that is not an object
   * aborts the program; `key` is the path key whose value was not an object.
   */
  datatype Result<T> = Ok(value: T) | Panicked(key: string)

  /** The value reached from `m` by following `path` through objects; the root for `[]`. */
  function Lookup(m: map<string, Value>, path: seq<string>): Option<Value>
    decreases |path|
  {
    if path == [] then Some(Obj(m))
    else if path[0] !in m then None
    else if |path| == 1 then Some(m[path[0]])
    else match m[path[0]]
      case Obj(f) => Lookup(f, path[1..])
      case _ => None
  }

  /**
   * What `insert_path` leaves in `m`: every key but the last selects (or creates)
   * a nested object, and the last key is set to `""`.
   */
  function Inserted(m: map<string, Value>, path: seq<string>): Result<map<string, Value>>
    decreases |path|
  {
    if path == [] then Ok(m)
    else if |path| == 1 then Ok(m[path[0] := Str("")])
    else
      var child := if path[0] in m then m[path[0]] else Obj(map[]);
      match child
      case Obj(f) =>
        (match Inserted(f, path[1..])
         case Ok(f2) => Ok(m[path[0] := Obj(f2)])
         case Panicked(k) => Panicked(k))
      case _ => Panicked(path[0])
  }

  /** A map the cursor descended from, and the key it descended through. */
  datatype Frame = Frame(fields: map<string, Value>, key: string)

  /** Writes `m` back through the frames, innermost first, as the in-place updates do. */
  function Plug(frames: seq<Frame>, m: map<string, Value>): map<string, Value>
    decreases |frames|
  {
    if frames == [] then m
    else
      var f := frames[|frames| - 1];
      Plug(frames[..|frames| - 1], f.fields[f.key := Obj(m)])
  }

  function PlugResult(frames: seq<Frame>, r: Result<map<string, Value>>): Result<map<string, Value>> {
    match r
    case Ok(m) => Ok(Plug(frames, m))
    case Panicked(k) => Panicked(k)
  }

  /** `insert_path`: walks a cursor down the nested maps, creating objects on the way. */
  method InsertPath(target: map<string, Value>, path: seq<string>) returns (r: Result<map<string, Value>>)
    ensures r == Inserted(target, path)
  {
    if |path| == 0 {
      return Ok(target);
    }
    var frames: seq<Frame> := [];
    var current := target;
    var i := 0;
    while i < |path| - 1
      invariant 0 <= i <= |path| - 1
      invariant PlugResult(frames, Inserted(current, path[i..])) == Inserted(target, path)
    {
      var key := path[i];
      assert path[i..][1..] == path[i + 1..];
      var child := if key in current then current[key] else Obj(map[]);
      if !child.Obj? {
        return Panicked(key);
      }
      frames := frames + [Frame(current, key)];
      current := child.fields;
      i := i + 1;
    }
    var last := path[|path| - 1];
    assert path[i..] == [last];
    r := Ok(Plug(frames, current[last := Str("")]));
  }

  /** What `merge_value` leaves in `target` after folding in `node`. */
  function MergeNode(target: map<string, Value>, node: JinjaNode): Result<map<string, Value>>
    decreases node
  {
    match node
    case Variable(path) => Inserted(target, path)
    case ForLoop(_, iterable, body) =>
      match MergeForest(map[], body)
      case Ok(item) => Ok(target[iterable := Arr([Obj(item)])])
      case Panicked(k) => Panicked(k)
  }

  /** The nodes merged into `target` one after another. */
  function MergeForest(target: map<string, Value>, nodes: seq<JinjaNode>): Result<map<string, Value>>
    decreases nodes
  {
    if nodes == [] then Ok(target)
    else match MergeNode(target, nodes[0])
      case Ok(t) => MergeForest(t, nodes[1..])
      case Panicked(k) => Panicked(k)
  }

  /** The schema of a forest: the object built by merging its nodes into `{}`. */
  function SchemaOf(ast: seq<JinjaNode>): Result<Value> {
    match MergeForest(map[], ast)
    case Ok(m) => Ok(Obj(m))
    case Panicked(k) => Panicked(k)
  }

  /** `merge_value`: a loop's body is merged into a fresh object, stored under the iterable. */
  method MergeValue(target: map<string, Value>, node: JinjaNode) returns (r: Result<map<string, Value>>)
    ensures r == MergeNode(target, node)
    decreases node
  {
    match node
    case Variable(path) =>
      r := InsertPath(target, path);
    case ForLoop(_, iterable, body) =>
      var item: map<string, Value> := map[];
      for i := 0 to |body|
        invariant MergeForest(item, body[i..]) == MergeForest(map[], body)
      {
        assert body[i..][1..] == body[i + 1..];
        var res := MergeValue(item, body[i]);
        if res.Panicked? {
          return Panicked(res.key);
        }
        item := res.value;
      }
      assert body[|body|..] == [];
      r := Ok(target[iterable := Arr([Obj(item)])]);
  }

  /** `ast_to_json`: every top-level node merged into one root object. */
  method AstToJson(ast: seq<JinjaNode>) returns (r: Result<Value>)
    ensures r == SchemaOf(ast)
  {
    var root: map<string, Value> := map[];
    for i := 0 to |ast|
      invariant MergeForest(root, ast[i..]) == MergeForest(map[], ast)
    {
      assert ast[i..][1..] == ast[i + 1..];
      var res := MergeValue(root, ast[i]);
      if res.Panicked? {
        return Panicked(res.key);
      }
      root := res.value;
    }
    assert ast[|ast|..] == [];
    return Ok(Obj(root));
  }

  // ------------------------------------------------------------------
  // Properties of `insert_path`.

  /** After the insertion, following the path through objects reaches `""`. */
  lemma {:induction false} InsertedReaches(m: map<string, Value>, path: seq<string>)
    requires |path| >= 1 && Inserted(m, path).Ok?
    ensures Lookup(Inserted(m, path).value, path) == Some(Str(""))
    decreases |path|
  {
    if |path| > 1 {
      var child := if path[0] in m then m[path[0]] else Obj(map[]);
      InsertedReaches(child.fields, path[1..]);
    }
  }

  /** `q` and `p` part ways: at some position both have a key and the keys differ. */
  predicate Diverges(q: seq<string>, p: seq<string>) {
    exists j :: 0 <= j < |q| && j < |p| && q[j] != p[j]
  }

  /** Every path that parts ways with the inserted one reaches what it reached before. */
  lemma {:induction false} InsertedFrame(m: map<string, Value>, path: seq<string>, q: seq<string>)
    requires Inserted(m, path).Ok? && Diverges(q, path)
    ensures Lookup(Inserted(m, path).value, q) == Lookup(m, q)
    decreases |path|
  {
    var m2 := Inserted(m, path).value;
    var j :| 0 <= j < |q| && j < |path| && q[j] != path[j];
    if q[0] != path[0] {
      assert q[0] in m2 <==> q[0] in m;
      if q[0] in m {
        assert m2[q[0]] == m[q[0]];
      }
    } else {
      assert j > 0 && |path| >= 2 && |q| >= 2;
      var child := if path[0] in m then m[path[0]] else Obj(map[]);
      var f2 := Inserted(child.fields, path[1..]).value;
      assert m2 == m[path[0] := Obj(f2)];
      assert q[1..][j - 1] != path[1..][j - 1];
      InsertedFrame(child.fields, path[1..], q[1..]);
      if path[0] !in m {
        EmptyLookup(q[1..]);
      }
    }
  }

  lemma {:induction false} EmptyLookup(q: seq<string>)
    requires q != []
    ensures Lookup(map[], q) == None
  {
  }

  /** A top-level key other than the path's first key is left exactly as it was. */
  lemma OtherKeysKept(m: map<string, Value>, path: seq<string>, k: string)
    requires Inserted(m, path).Ok? && |path| >= 1 && k != path[0]
    ensures k in Inserted(m, path).value <==> k in m
    ensures k in m ==> Inserted(m, path).value[k] == m[k]
  {
    assert Diverges([k], path) by { assert [k][0] != path[0]; }
    InsertedFrame(m, path, [k]);
  }

  /** Some key strictly before the last one leads to a value that is not an object. */
  predicate Blocked(m: map<string, Value>, path: seq<string>) {
    exists j :: 0 < j < |path| && BlockedAt(m, path, j)
  }

  predicate BlockedAt(m: map<string, Value>, path: seq<string>, j: nat)
    requires j <= |path|
  {
    var v := Lookup(m, path[..j]);
    v.Some? && !v.value.Obj?
  }

  /** `insert_path` panics exactly when an intermediate key already holds a non-object. */
  lemma {:induction false} InsertedPanics(m: map<string, Value>, path: seq<string>)
    ensures Inserted(m, path).Panicked? <==> Blocked(m, path)
    decreases |path|
  {
    if |path| >= 2 {
      var k := path[0];
      var child := if k in m then m[k] else Obj(map[]);
      assert path[..1] == [k];
      if !child.Obj? {
        assert BlockedAt(m, path, 1);
      } else {
        var rest := path[1..];
        InsertedPanics(child.fields, rest);
        assert !BlockedAt(m, path, 1);
        forall j | 1 < j < |path|
          ensures BlockedAt(m, path, j) <==> (k in m && BlockedAt(child.fields, rest, j - 1))
        {
          assert path[..j][0] == k;
          assert path[..j][1..] == rest[..j - 1];
          if k !in m {
            assert Lookup(m, path[..j]) == None;
          }
        }
        if k !in m {
          EmptyNotBlocked(rest);
        }
        if Blocked(child.fields, rest) {
          var j :| 0 < j < |rest| && BlockedAt(child.fields, rest, j);
          assert BlockedAt(m, path, j + 1);
        }
      }
    } else {
      assert !Blocked(m, path);
    }
  }

  lemma {:induction false} EmptyNotBlocked(path: seq<string>)
    ensures !Blocked(map[], path)
  {
    forall j | 0 < j < |path| ensures !BlockedAt(map[], path, j) {
      EmptyLookup(path[..j]);
    }
  }

  // ------------------------------------------------------------------
  // The shape of every schema.

  /** Objects of shaped values, arrays of exactly one shaped object, and `""` leaves. */
  predicate Shaped(v: Value)
    decreases v
  {
    match v
    case Obj(f) => forall k :: k in f ==> Shaped(f[k])
    case Arr(items) => |items| == 1 && items[0].Obj? && Shaped(items[0])
    case Str(s) => s == ""
  }

  predicate ShapedMap(m: map<string, Value>) {
    Shaped(Obj(m))
  }

  lemma {:induction false} InsertedShaped(m: map<string, Value>, path: seq<string>)
    requires ShapedMap(m) && Inserted(m, path).Ok?
    ensures ShapedMap(Inserted(m, path).value)
    decreases |path|
  {
    if |path| == 1 {
      assert Shaped(Str(""));
    } else if |path| > 1 {
      var child := if path[0] in m then m[path[0]] else Obj(map[]);
      assert Shaped(child);
      InsertedShaped(child.fields, path[1..]);
    }
  }

  lemma {:induction false} MergeNodeShaped(m: map<string, Value>, node: JinjaNode)
    requires ShapedMap(m) && MergeNode(m, node).Ok?
    ensures ShapedMap(MergeNode(m, node).value)
    decreases node, 1
  {
    match node
    case Variable(path) =>
      InsertedShaped(m, path);
    case ForLoop(_, iterable, body) =>
      assert ShapedMap(map[]);
      MergeForestShaped(map[], body);
      var item := MergeForest(map[], body).value;
      assert Shaped(Arr([Obj(item)]));
  }

  lemma {:induction false} MergeForestShaped(m: map<string, Value>, nodes: seq<JinjaNode>)
    requires ShapedMap(m) && MergeForest(m, nodes).Ok?
    ensures ShapedMap(MergeForest(m, nodes).value)
    decreases nodes, 0
  {
    if nodes != [] {
      MergeNodeShaped(m, nodes[0]);
      MergeForestShaped(MergeNode(m, nodes[0]).value, nodes[1..]);
    }
  }

  /** Whatever the forest, a schema that is produced is an object of the documented shape. */
  lemma SchemaShaped(ast: seq<JinjaNode>)
    requires SchemaOf(ast).Ok?
    ensures SchemaOf(ast).value.Obj? && Shaped(SchemaOf(ast).value)
  {
    assert ShapedMap(map[]);
    MergeForestShaped(map[], ast);
  }

  /** An empty forest gives `{}`. */
  lemma EmptySchema()
    ensures SchemaOf([]) == Ok(Obj(map[]))
  {
  }

  // ------------------------------------------------------------------
  // Overwrite rules.

  /** Merging two lists of nodes in turn is merging their concatenation. */
  lemma {:induction false} MergeForestAppend(m: map<string, Value>, a: seq<JinjaNode>, b: seq<JinjaNode>)
    ensures MergeForest(m, a + b) ==
      match MergeForest(m, a)
      case Ok(m2) => MergeForest(m2, b)
      case Panicked(k) => Panicked(k)
    decreases |a|
  {
    if a == [] {
      assert a + b == b;
    } else {
      assert (a + b)[0] == a[0];
      assert (a + b)[1..] == a[1..] + b;
      match MergeNode(m, a[0])
      case Ok(t) => MergeForestAppend(t, a[1..], b);
      case Panicked(_) =>
    }
  }

  /** The last variable written decides what its path holds: it reaches `""`. */
  lemma LastVariableWins(m: map<string, Value>, nodes: seq<JinjaNode>, path: seq<string>)
    requires |path| >= 1
    requires MergeForest(m, nodes + [Variable(path)]).Ok?
    ensures Lookup(MergeForest(m, nodes + [Variable(path)]).value, path) == Some(Str(""))
  {
    MergeForestAppend(m, nodes, [Variable(path)]);
    var m2 := MergeForest(m, nodes).value;
    assert [Variable(path)][1..] == [];
    InsertedReaches(m2, path);
  }

  /**
   * The last loop written over an iterable decides its value: a one-element array
   * holding the object merged from the loop's body, whatever was there before.
   */
  lemma LastLoopWins(m: map<string, Value>, nodes: seq<JinjaNode>, v: string, it: string, body: seq<JinjaNode>)
    requires MergeForest(m, nodes + [ForLoop(v, it, body)]).Ok?
    ensures MergeForest(map[], body).Ok?
    ensures var r := MergeForest(m, nodes + [ForLoop(v, it, body)]).value;
      it in r && r[it] == Arr([Obj(MergeForest(map[], body).value)])
  {
    MergeForestAppend(m, nodes, [ForLoop(v, it, body)]);
    assert [ForLoop(v, it, body)][1..] == [];
  }

  /** The loop variable plays no part in the schema. */
  lemma LoopVarUnused(m: map<string, Value>, v1: string, v2: string, it: string, body: seq<JinjaNode>)
    ensures MergeNode(m, ForLoop(v1, it, body)) == MergeNode(m, ForLoop(v2, it, body))
  {
  }
}
