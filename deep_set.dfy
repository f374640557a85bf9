/** lodash.set on a configuration object: writing a value at a path of property names,
    creating the objects along the way. The path is the list of names the dotted path
    string splits into. */
module DeepSet {
  import opened JsValues

  /** `_set(obj, path, v)` on an object given as its map of properties: every name but
      the last descends into the property of that name, which stays when it is an
      object and is replaced by a new empty object otherwise; the last name receives
      the value. */
  function SetPath(obj: map<string, Value>, path: seq<string>, v: Value): (r: map<string, Value>)
    requires |path| > 0
    decreases |path|
  {
    if |path| == 1 then obj[path[0] := v]
    else obj[path[0] := Obj(SetPath(Child(obj, path[0]), path[1..], v))]
  }

  /** The properties of the object under `name`, or none when there is no object there. */
  function Child(obj: map<string, Value>, name: string): map<string, Value>
  {
    if name in obj && obj[name].Obj? then obj[name].fields else map[]
  }

  /** Reading a path back: the value at the end of it, or None where a name is missing
      or a step meets something that is not an object. */
  function GetPath(obj: map<string, Value>, path: seq<string>): (r: Option<Value>)
    requires |path| > 0
    ensures r.Some? ==> path[0] in obj
    decreases |path|
  {
    if path[0] !in obj then None
    else if |path| == 1 then Some(obj[path[0]])
    else match obj[path[0]]
      case Obj(fields) => GetPath(fields, path[1..])
      case _ => None
  }

  /** Neither path is a prefix of the other: they part at some name. */
  predicate Diverge(p: seq<string>, q: seq<string>)
  {
    exists k :: 0 <= k < |p| && k < |q| && p[k] != q[k]
  }

  /** Reading the path just written gives the value written. */
  lemma {:induction false} GetAfterSet(obj: map<string, Value>, path: seq<string>, v: Value)
    requires |path| > 0
    ensures GetPath(SetPath(obj, path, v), path) == Some(v)
    decreases |path|
  {
    if |path| > 1 {
      var child := Child(obj, path[0]);
      GetAfterSet(child, path[1..], v);
    }
  }

  /** Writing one path leaves every path that parts from it as it was. */
  lemma {:induction false} GetAfterSetElsewhere(obj: map<string, Value>, p: seq<string>, q: seq<string>, v: Value)
    requires |p| > 0 && |q| > 0 && Diverge(p, q)
    ensures GetPath(SetPath(obj, p, v), q) == GetPath(obj, q)
    decreases |p|
  {
    if p[0] == q[0] {
      var k :| 0 <= k < |p| && k < |q| && p[k] != q[k];
      assert k > 0 && p[1..][k - 1] != q[1..][k - 1];
      var child := Child(obj, p[0]);
      GetAfterSetElsewhere(child, p[1..], q[1..], v);
      if !(p[0] in obj && obj[p[0]].Obj?) {
        EmptyHasNothing(q[1..]);
      }
    }
  }

  /** A run of `_set` calls, one per (path, value) write, applied in order. */
  function SetAll(obj: map<string, Value>, writes: seq<(seq<string>, Value)>): map<string, Value>
    requires forall k :: 0 <= k < |writes| ==> |writes[k].0| > 0
    decreases |writes|
  {
    if writes == [] then obj
    else
      var n := |writes| - 1;
      SetPath(SetAll(obj, writes[..n]), writes[n].0, writes[n].1)
  }

  /** After a run of writes, a write's path reads its value when no later write goes
      at, above or below that path. */
  lemma {:induction false} SetAllReads(obj: map<string, Value>, writes: seq<(seq<string>, Value)>, j: nat)
    requires forall k :: 0 <= k < |writes| ==> |writes[k].0| > 0
    requires j < |writes|
    requires forall l :: j < l < |writes| ==> Diverge(writes[l].0, writes[j].0)
    ensures GetPath(SetAll(obj, writes), writes[j].0) == Some(writes[j].1)
    decreases |writes|
  {
    var n := |writes| - 1;
    var init := writes[..n];
    if j == n {
      GetAfterSet(SetAll(obj, init), writes[n].0, writes[n].1);
    } else {
      assert init[j] == writes[j];
      SetAllReads(obj, init, j);
      GetAfterSetElsewhere(SetAll(obj, init), writes[n].0, writes[j].0, writes[n].1);
    }
  }

  lemma EmptyHasNothing(path: seq<string>)
    requires |path| > 0
    ensures GetPath(map[], path) == None
  {
  }

  /** Each object on the way to the written value is an object afterwards: the
      intermediate objects are created where needed. */
  lemma {:induction false} SetMakesObjects(obj: map<string, Value>, path: seq<string>, v: Value, n: nat)
    requires 0 < n < |path|
    ensures GetPath(SetPath(obj, path, v), path[..n]).Some?
    ensures GetPath(SetPath(obj, path, v), path[..n]).value.Obj?
    decreases |path|
  {
    var child := Child(obj, path[0]);
    if n > 1 {
      SetMakesObjects(child, path[1..], v, n - 1);
      assert path[..n][1..] == path[1..][..n - 1];
    }
  }

  /** Only the first name of the path is touched at the top: every other property
      keeps its value, and the first name is present afterwards. */
  lemma SetTopLevel(obj: map<string, Value>, path: seq<string>, v: Value)
    requires |path| > 0
    ensures SetPath(obj, path, v).Keys == obj.Keys + {path[0]}
    ensures forall k :: k in obj && k != path[0] ==> SetPath(obj, path, v)[k] == obj[k]
  {
  }

  /** Writing a path twice is writing it once with the second value: the later
      write wins. */
  lemma {:induction false} SetTwice(obj: map<string, Value>, path: seq<string>, v: Value, w: Value)
    requires |path| > 0
    ensures SetPath(SetPath(obj, path, v), path, w) == SetPath(obj, path, w)
    decreases |path|
  {
    if |path| > 1 {
      var child := Child(obj, path[0]);
      var once := SetPath(obj, path, v);
      assert once == obj[path[0] := Obj(SetPath(child, path[1..], v))];
      SetTwice(child, path[1..], v, w);
      assert SetPath(once, path, w) == once[path[0] := Obj(SetPath(child, path[1..], w))];
    }
  }

  /** Writes to paths that part commute. */
  lemma {:induction false} SetCommutes(obj: map<string, Value>, p: seq<string>, q: seq<string>, v: Value, w: Value)
    requires |p| > 0 && |q| > 0 && Diverge(p, q)
    ensures SetPath(SetPath(obj, p, v), q, w) == SetPath(SetPath(obj, q, w), p, v)
    decreases |p|, 1
  {
    if p[0] == q[0] {
      SetCommutesBelow(obj, p, q, v, w);
    } else {
      var pFirst := SetPath(obj, p, v);
      var qFirst := SetPath(obj, q, w);
      SetBeside(obj, p[0], pFirst[p[0]], q, w);
      SetBeside(obj, q[0], qFirst[q[0]], p, v);
      assert pFirst == obj[p[0] := pFirst[p[0]]];
      assert qFirst == obj[q[0] := qFirst[q[0]]];
    }
  }

  /** Paths that share their first name part further down, where the writes commute. */
  lemma {:induction false} SetCommutesBelow(obj: map<string, Value>, p: seq<string>, q: seq<string>, v: Value, w: Value)
    requires |p| > 0 && |q| > 0 && Diverge(p, q) && p[0] == q[0]
    ensures SetPath(SetPath(obj, p, v), q, w) == SetPath(SetPath(obj, q, w), p, v)
    decreases |p|, 0
  {
    var k :| 0 <= k < |p| && k < |q| && p[k] != q[k];
    assert k > 0 && p[1..][k - 1] != q[1..][k - 1];
    var child := Child(obj, p[0]);
    var cp := SetPath(child, p[1..], v);
    var cq := SetPath(child, q[1..], w);
    SetBelow(obj, p, v);
    SetBelow(obj, q, w);
    SetBelow(obj[p[0] := Obj(cp)], q, w);
    SetBelow(obj[p[0] := Obj(cq)], p, v);
    ChildOfSet(obj, p[0], cp);
    ChildOfSet(obj, p[0], cq);
    SetCommutes(child, p[1..], q[1..], v, w);
  }

  /** A write along a longer path replaces the object under its first name. */
  lemma SetBelow(obj: map<string, Value>, p: seq<string>, v: Value)
    requires |p| > 1
    ensures SetPath(obj, p, v) == obj[p[0] := Obj(SetPath(Child(obj, p[0]), p[1..], v))]
  {
  }

  /** The object just put under a name is the child there. */
  lemma ChildOfSet(obj: map<string, Value>, name: string, fields: map<string, Value>)
    ensures Child(obj[name := Obj(fields)], name) == fields
  {
  }

  /** A write below one top-level name does not see a change to another. */
  lemma SetBeside(obj: map<string, Value>, a: string, x: Value, path: seq<string>, v: Value)
    requires |path| > 0 && path[0] != a
    ensures SetPath(obj[a := x], path, v) == SetPath(obj, path, v)[a := x]
  {
  }
}
