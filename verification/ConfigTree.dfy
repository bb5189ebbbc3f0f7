/** Path updates on configuration trees: `_apply_to_config` (evolution/defense_enforcer.py) and
    `_verify_applied` (evolution/defense_executor.py).  The source walks a cursor into nested
    dictionaries; here the walk rebuilds the path it descends.
 */
module ConfigTree {
  import opened Wrappers

  datatype Json =
    | Null
    | Bool(b: bool)
    | Num(n: real)
    | Str(s: string)
    | Arr(items: seq<Json>)
    | Obj(fields: map<string, Json>)

  datatype Action = Add | Change | Remove | Enable | Disable

  const EMPTY_CONFIG := Obj(map[])

  type Path = seq<string>

  /** `config_key.split('.')`. */
  function Split(s: string): (r: Path)
    ensures r != []
  {
    if s == "" then [""]
    else
      var rest := Split(s[1..]);
      if s[0] == '.' then [""] + rest else [[s[0]] + rest[0]] + rest[1..]
  }

  /** The parts of a key, with a dot between any two. */
  function Joined(parts: Path): string
    requires parts != []
  {
    if |parts| == 1 then parts[0] else parts[0] + "." + Joined(parts[1..])
  }

  ghost predicate DotFree(parts: Path) {
    forall i :: 0 <= i < |parts| ==> '.' !in parts[i]
  }

  /** No part of a key holds a dot, and joined they are the key. */
  lemma {:induction false} SplitJoins(s: string)
    ensures DotFree(Split(s)) && Joined(Split(s)) == s
  {
    if s == "" {
    } else {
      var rest := Split(s[1..]);
      SplitJoins(s[1..]);
      assert s == [s[0]] + s[1..];
      if s[0] == '.' {
        assert ([""] + rest)[1..] == rest;
      } else {
        var first := [s[0]] + rest[0];
        assert ([first] + rest[1..])[1..] == rest[1..];
        assert |rest| > 1 ==> first + "." + Joined(rest[1..]) == [s[0]] + (rest[0] + "." + Joined(rest[1..]));
      }
    }
  }

  lemma DotBehind(s: string, a: string, x: string)
    requires s == a + x && '.' !in a && (x == "" || x[0] == '.')
    ensures (forall k :: 0 <= k < |a| ==> s[k] != '.') && (|a| == |s| || s[|a|] == '.')
  {
  }

  lemma FirstDot(a: string, x: string, b: string, y: string)
    requires '.' !in a && '.' !in b && a + x == b + y
    requires (x == "" || x[0] == '.') && (y == "" || y[0] == '.')
    ensures a == b && x == y
  {
    var s := a + x;
    DotBehind(s, a, x);
    DotBehind(s, b, y);
    assert |a| == |b|;
    assert a == s[..|a|] && b == s[..|b|] && x == s[|a|..] && y == s[|b|..];
  }

  /** What follows the first part. */
  function Behind(parts: Path): (s: string)
    requires parts != []
    ensures s == "" || s[0] == '.'
  {
    if |parts| == 1 then "" else "." + Joined(parts[1..])
  }

  lemma JoinedParts(parts: Path)
    requires parts != []
    ensures Joined(parts) == parts[0] + Behind(parts)
  {
  }

  lemma BehindDetermines(p: Path, q: Path)
    requires p != [] && q != [] && Behind(p) == Behind(q)
    ensures |p| == 1 <==> |q| == 1
    ensures |p| > 1 && |q| > 1 ==> Joined(p[1..]) == Joined(q[1..])
  {
    if |p| > 1 && |q| > 1 {
      assert Joined(p[1..]) == Behind(p)[1..];
      assert Joined(q[1..]) == Behind(q)[1..];
    }
  }

  /** The parts are determined by that. */
  lemma {:induction false} PartsAreUnique(p: Path, q: Path)
    requires p != [] && q != [] && DotFree(p) && DotFree(q) && Joined(p) == Joined(q)
    ensures p == q
  {
    JoinedParts(p);
    JoinedParts(q);
    FirstDot(p[0], Behind(p), q[0], Behind(q));
    BehindDetermines(p, q);
    if |p| == 1 {
    } else {
      PartsAreUnique(p[1..], q[1..]);
      assert p == [p[0]] + p[1..] && q == [q[0]] + q[1..];
    }
  }

  /** So a path whose parts hold no dot is what its joined parts are split into. */
  lemma SplitOfJoined(p: Path)
    requires p != [] && DotFree(p)
    ensures Split(Joined(p)) == p
  {
    SplitJoins(Joined(p));
    PartsAreUnique(Split(Joined(p)), p);
  }

  // ----- Python's view of a value

  predicate Substring(part: string, s: string) {
    exists i :: 0 <= i <= |s| && part <= s[i..]
  }

  /** `key in value` for the values that support it. */
  predicate Contains(value: Json, key: string)
    requires value.Str? || value.Arr? || value.Obj?
  {
    match value
    case Str(s) => Substring(key, s)
    case Arr(items) => Str(key) in items
    case Obj(fields) => key in fields
  }

  /** `==` between JSON scalars: booleans are the numbers 0 and 1. */
  predicate PyEqual(a: Json, b: Json) {
    if (a.Bool? || a.Num?) && (b.Bool? || b.Num?) then Numeric(a) == Numeric(b) else a == b
  }

  function Numeric(a: Json): real
    requires a.Bool? || a.Num?
  {
    if a.Num? then a.n else if a.b then 1.0 else 0.0
  }

  /** Values are equal that are the same, or false and zero, or true and one. */
  lemma PyEqualExactly(a: Json, b: Json)
    ensures PyEqual(a, b) <==>
            || a == b
            || {a, b} == {Bool(false), Num(0.0)}
            || {a, b} == {Bool(true), Num(1.0)}
  {
    if {a, b} == {Bool(false), Num(0.0)} {
      assert a in {a, b} && b in {a, b} && Bool(false) in {a, b} && Num(0.0) in {a, b};
    }
    if {a, b} == {Bool(true), Num(1.0)} {
      assert a in {a, b} && b in {a, b} && Bool(true) in {a, b} && Num(1.0) in {a, b};
    }
  }

  lemma SubstringExactly(part: string, s: string)
    ensures Substring(part, s) <==> exists a, b :: s == a + part + b
  {
    if Substring(part, s) {
      var i :| 0 <= i <= |s| && part <= s[i..];
      assert s == s[..i] + part + s[i + |part|..];
    }
    if exists a, b :: s == a + part + b {
      var a, b :| s == a + part + b;
      assert s[|a|..] == part + b;
    }
  }

  /** A key is in a string as a part, in a list as an item, in an object as a key. */
  lemma ContainsExactly(value: Json, key: string)
    ensures value.Str? ==> (Contains(value, key) <==> exists a, b :: value.s == a + key + b)
    ensures value.Arr? ==> (Contains(value, key) <==> exists i :: 0 <= i < |value.items| && value.items[i] == Str(key))
    ensures value.Obj? ==> (Contains(value, key) <==> key in value.fields)
  {
    if value.Str? {
      SubstringExactly(key, value.s);
    }
  }

  // ----- the operations

  /** The value at a path. */
  function ValueAt(config: Json, path: Path): Option<Json> {
    if path == [] then Some(config)
    else if config.Obj? && path[0] in config.fields then ValueAt(config.fields[path[0]], path[1..])
    else None
  }

  /** What an action leaves at its key. */
  function Written(action: Action, value: Json): Option<Json> {
    match action
    case Remove => None
    case Disable => Some(Bool(false))
    case Enable => Some(Bool(true))
    case _ => Some(value)
  }

  /** The last step, on the container that holds the key. */
  function ApplyAtKey(container: Json, key: string, action: Action, value: Json): Outcome<Json> {
    match container
    case Obj(fields) =>
      Ok(Obj(match Written(action, value) case None => fields - {key} case Some(v) => fields[key := v]))
    case Str(_) =>
      if action.Remove? && !Contains(container, key) then Ok(container) else Raised
    case Arr(_) =>
      if action.Remove? && !Contains(container, key) then Ok(container) else Raised
    case _ => Raised
  }

  /** The child to descend into, created if it is absent. */
  function ChildOf(fields: map<string, Json>, key: string): Json {
    if key in fields then fields[key] else EMPTY_CONFIG
  }

  function Apply(config: Json, path: Path, action: Action, value: Json): Outcome<Json>
    requires path != []
    decreases |path|
  {
    if |path| == 1 then ApplyAtKey(config, path[0], action, value)
    else if !config.Obj? then Raised
    else
      match Apply(ChildOf(config.fields, path[0]), path[1..], action, value)
      case Raised => Raised
      case Ok(c) => Ok(Obj(config.fields[path[0] := c]))
  }

  function Get(config: Json, key: string): Json
    requires config.Obj?
  {
    if key in config.fields then config.fields[key] else Null
  }

  /** The check at the last container. */
  function VerifyAtKey(container: Json, key: string, action: Action, value: Json): Outcome<bool> {
    match action
    case Remove =>
      if container.Str? || container.Arr? || container.Obj? then Ok(!Contains(container, key)) else Raised
    case _ =>
      if container.Obj? then Ok(PyEqual(Get(container, key), Written(action, value).value)) else Raised
  }

  function Verify(config: Json, path: Path, action: Action, value: Json): Outcome<bool>
    requires path != []
    decreases |path|
  {
    if |path| == 1 then VerifyAtKey(config, path[0], action, value)
    else if !(config.Str? || config.Arr? || config.Obj?) then Raised
    else if !Contains(config, path[0]) then Ok(action.Remove?)
    else if !config.Obj? then Raised
    else Verify(config.fields[path[0]], path[1..], action, value)
  }

  // ----- what an update does

  /** The nodes strictly above the last container are objects or absent. */
  ghost predicate ObjectsAbove(config: Json, path: Path)
    requires path != []
  {
    forall i :: 0 <= i < |path| - 1 ==> AbsentOrObject(config, path[..i])
  }

  ghost predicate AbsentOrObject(config: Json, path: Path) {
    ValueAt(config, path).None? || ValueAt(config, path).value.Obj?
  }

  /** The container of the last key can take the action: it is an object, or absent, or (for a
      removal only) a string or list without the key. */
  ghost predicate ContainerFits(config: Json, path: Path, action: Action)
    requires path != []
  {
    match ValueAt(config, path[..|path| - 1])
    case None => true
    case Some(c) => c.Obj? || (action.Remove? && (c.Str? || c.Arr?) && !Contains(c, path[|path| - 1]))
  }

  lemma ObjectsAboveChild(config: Json, path: Path)
    requires |path| >= 2 && config.Obj? && path[0] in config.fields
    ensures ObjectsAbove(config, path) <==> ObjectsAbove(config.fields[path[0]], path[1..])
  {
    var child, rest := config.fields[path[0]], path[1..];
    forall i | 0 <= i < |path| - 2
      ensures AbsentOrObject(config, path[..i + 1]) <==> AbsentOrObject(child, rest[..i])
    {
      assert path[..i + 1][1..] == rest[..i];
    }
    assert path[..0] == [];
    assert AbsentOrObject(config, path[..0]);
    if ObjectsAbove(config, path) {
      forall i | 0 <= i < |rest| - 1 ensures AbsentOrObject(child, rest[..i]) {
        assert AbsentOrObject(config, path[..i + 1]);
      }
    }
    if ObjectsAbove(child, rest) {
      forall i | 0 <= i < |path| - 1 ensures AbsentOrObject(config, path[..i]) {
        if i > 0 {
          assert AbsentOrObject(child, rest[..i - 1]);
        }
      }
    }
  }

  lemma {:induction false} FreshPathFits(path: Path, action: Action, value: Json)
    requires path != []
    ensures Apply(EMPTY_CONFIG, path, action, value).Ok?
    decreases |path|
  {
    if |path| == 1 {
    } else {
      FreshPathFits(path[1..], action, value);
    }
  }

  /** An update succeeds exactly when every node above the container is an object or absent and the
      container fits the action. */
  lemma {:induction false} ApplySucceedsExactly(config: Json, path: Path, action: Action, value: Json)
    requires path != []
    ensures Apply(config, path, action, value).Ok? <==>
            ObjectsAbove(config, path) && ContainerFits(config, path, action)
    decreases |path|
  {
    var last := |path| - 1;
    if last == 0 {
      assert path[..0] == [];
    } else if !config.Obj? {
      assert path[..0] == [];
      assert !AbsentOrObject(config, path[..0]);
    } else if path[0] !in config.fields {
      FreshPathFits(path[1..], action, value);
      forall i | 0 <= i <= last ensures AbsentOrObject(config, path[..i]) {
      }
    } else {
      ApplySucceedsExactly(config.fields[path[0]], path[1..], action, value);
      ObjectsAboveChild(config, path);
      assert path[..last][1..] == path[1..][..last - 1];
    }
  }

  /** After an update the path holds what the action writes. */
  lemma {:induction false} ApplyWrites(config: Json, path: Path, action: Action, value: Json)
    requires path != [] && Apply(config, path, action, value).Ok?
    ensures ValueAt(Apply(config, path, action, value).value, path) == Written(action, value)
    decreases |path|
  {
    if |path| == 1 {
    } else {
      ApplyWrites(ChildOf(config.fields, path[0]), path[1..], action, value);
    }
  }

  /** Applying and then verifying always succeeds. */
  lemma {:induction false} ApplyVerifies(config: Json, path: Path, action: Action, value: Json)
    requires path != [] && Apply(config, path, action, value).Ok?
    ensures Verify(Apply(config, path, action, value).value, path, action, value) == Ok(true)
    decreases |path|
  {
    if |path| == 1 {
    } else {
      ApplyVerifies(ChildOf(config.fields, path[0]), path[1..], action, value);
    }
  }

  /** What must be found at a path for the verification to hold: what the action was to leave there, where
      Python's false and true are also zero and one. */
  ghost predicate FoundRight(found: Option<Json>, action: Action, value: Json) {
    match action
    case Remove => found == None
    case Disable => found == Some(Bool(false)) || found == Some(Num(0.0))
    case Enable => found == Some(Bool(true)) || found == Some(Num(1.0))
    case _ => if found == None then value == Null else PyEqual(found.value, value)
  }

  /** Under objects all the way the verification reads the value at the path; without its container only a
      removal is right. */
  lemma {:induction false} VerifyExactly(config: Json, path: Path, action: Action, value: Json)
    requires path != [] && config.Obj?
    requires forall i :: 0 <= i < |path| ==> AbsentOrObject(config, path[..i])
    ensures Verify(config, path, action, value) ==
            Ok(if ValueAt(config, path[..|path| - 1]) == None then action.Remove?
               else FoundRight(ValueAt(config, path), action, value))
    decreases |path|
  {
    var last := |path| - 1;
    if last == 0 {
      assert path[..0] == [];
    } else if path[0] in config.fields {
      var child, rest := config.fields[path[0]], path[1..];
      forall i | 0 <= i < |rest| ensures AbsentOrObject(child, rest[..i]) {
        assert AbsentOrObject(config, path[..i + 1]);
        assert path[..i + 1][1..] == rest[..i];
      }
      assert AbsentOrObject(child, rest[..0]) && rest[..0] == [];
      VerifyExactly(child, rest, action, value);
      assert path[..last][1..] == rest[..last - 1];
    }
  }

  predicate Comparable(p: Path, q: Path) {
    p <= q || q <= p
  }

  /** Values at incomparable paths are unchanged. */
  lemma {:induction false} ApplyFrames(config: Json, path: Path, action: Action, value: Json, other: Path)
    requires path != [] && !Comparable(path, other) && Apply(config, path, action, value).Ok?
    ensures ValueAt(Apply(config, path, action, value).value, other) == ValueAt(config, other)
    decreases |path|
  {
    assert other != [];
    if |path| > 1 && path[0] == other[0] {
      var child := ChildOf(config.fields, path[0]);
      TailsIncomparable(path, other);
      ApplyFrames(child, path[1..], action, value, other[1..]);
    }
  }

  lemma TailsIncomparable(p: Path, q: Path)
    requires !Comparable(p, q) && p != [] && q != [] && p[0] == q[0]
    ensures !Comparable(p[1..], q[1..]) && |p| > 1 && |q| > 1
  {
  }

  /** Put a value under a key, or take the key away. */
  function Edit(fields: map<string, Json>, key: string, v: Option<Json>): map<string, Json> {
    match v case None => fields - {key} case Some(x) => fields[key := x]
  }

  /** On an object an update is an edit at the head of the path, determined by the child there. */
  ghost function NewChild(fields: map<string, Json>, p: Path, a: Action, v: Json): Option<Json>
    requires p != [] && Apply(Obj(fields), p, a, v).Ok?
  {
    if |p| == 1 then Written(a, v) else Some(Apply(ChildOf(fields, p[0]), p[1..], a, v).value)
  }

  lemma ApplyIsEdit(fields: map<string, Json>, p: Path, a: Action, v: Json)
    requires p != [] && Apply(Obj(fields), p, a, v).Ok?
    ensures Apply(Obj(fields), p, a, v) == Ok(Obj(Edit(fields, p[0], NewChild(fields, p, a, v))))
  {
  }

  lemma EditElsewhere(fields: map<string, Json>, key: string, x: Option<Json>, p: Path, a: Action, v: Json)
    requires p != [] && p[0] != key && Apply(Obj(fields), p, a, v).Ok?
    ensures Apply(Obj(Edit(fields, key, x)), p, a, v).Ok?
    ensures NewChild(Edit(fields, key, x), p, a, v) == NewChild(fields, p, a, v)
  {
  }

  lemma EditsCommute(fields: map<string, Json>, k: string, x: Option<Json>, l: string, y: Option<Json>)
    requires k != l
    ensures Edit(Edit(fields, k, x), l, y) == Edit(Edit(fields, l, y), k, x)
  {
  }

  lemma DistinctHeadsCommute(fields: map<string, Json>, p: Path, a: Action, v: Json, q: Path, b: Action, w: Json)
    requires p != [] && q != [] && p[0] != q[0]
    requires Apply(Obj(fields), p, a, v).Ok? && Apply(Obj(fields), q, b, w).Ok?
    ensures Apply(Apply(Obj(fields), p, a, v).value, q, b, w).Ok?
    ensures Apply(Apply(Obj(fields), p, a, v).value, q, b, w) == Apply(Apply(Obj(fields), q, b, w).value, p, a, v)
  {
    var x, y := NewChild(fields, p, a, v), NewChild(fields, q, b, w);
    ApplyIsEdit(fields, p, a, v);
    ApplyIsEdit(fields, q, b, w);
    EditElsewhere(fields, p[0], x, q, b, w);
    EditElsewhere(fields, q[0], y, p, a, v);
    ApplyIsEdit(Edit(fields, p[0], x), q, b, w);
    ApplyIsEdit(Edit(fields, q[0], y), p, a, v);
    EditsCommute(fields, p[0], x, q[0], y);
  }

  /** A step into the common child. */
  lemma SharedHead(fields: map<string, Json>, p: Path, a: Action, v: Json, c: Json)
    requires |p| > 1 && Apply(c, p[1..], a, v).Ok?
    ensures Apply(Obj(fields[p[0] := c]), p, a, v)
         == Ok(Obj(fields[p[0] := Apply(c, p[1..], a, v).value]))
  {
    var c' := Apply(c, p[1..], a, v).value;
    assert fields[p[0] := c][p[0] := c'] == fields[p[0] := c'];
  }

  /** Updates at incomparable paths do not disturb each other: each still succeeds after the other,
      and the order does not matter. */
  lemma {:induction false} UpdatesCommute(config: Json, p: Path, a: Action, v: Json, q: Path, b: Action, w: Json)
    requires p != [] && q != [] && !Comparable(p, q)
    requires Apply(config, p, a, v).Ok? && Apply(config, q, b, w).Ok?
    ensures Apply(Apply(config, p, a, v).value, q, b, w).Ok?
    ensures Apply(Apply(config, p, a, v).value, q, b, w) == Apply(Apply(config, q, b, w).value, p, a, v)
    decreases |p|
  {
    if p[0] == q[0] {
      TailsIncomparable(p, q);
      var fields, child := config.fields, ChildOf(config.fields, p[0]);
      UpdatesCommute(child, p[1..], a, v, q[1..], b, w);
      SharedHead(fields, q, b, w, Apply(child, p[1..], a, v).value);
      SharedHead(fields, p, a, v, Apply(child, q[1..], b, w).value);
    } else if config.Obj? {
      DistinctHeadsCommute(config.fields, p, a, v, q, b, w);
    }
  }
}
