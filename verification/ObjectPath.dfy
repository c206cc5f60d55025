/** Dotted paths into row data: the getter and setter functions DataTables builds for a mData
    string. A row is a tree of JavaScript values; setting yields the tree the row becomes. */
module ObjectPath {

  // Arrays are objects too and may carry named properties beside their items.
  datatype Val = Undefined | Null | Prim(n: int) | Obj(props: map<string, Val>) | Arr(items: seq<Val>, named: map<string, Val>)

  // A TypeError, or a value.
  datatype Outcome = Thrown | Returned(value: Val)

  // A path segment: a property name, or one with empty array brackets after it.
  datatype Seg = Plain(name: string) | Brackets(name: string)

  const EMPTY := Obj(map[])

  predicate Container(v: Val) { v.Obj? || v.Arr? }

  // v[name] for a v that is not null or undefined; v with a property assigned, for an object or array.
  function Prop(v: Val, name: string): Val {
    if v.Obj? && name in v.props then v.props[name]
    else if v.Arr? && name in v.named then v.named[name]
    else Undefined
  }

  function WithProp(v: Val, name: string, p: Val): Val {
    if v.Obj? then Obj(v.props[name := p]) else if v.Arr? then Arr(v.items, v.named[name := p]) else v
  }

  // The node a write goes on from: a missing object is created.
  function Below(v: Val, name: string): Val {
    var p := Prop(v, name);
    if p.Null? || p.Undefined? then EMPTY else p
  }

  // fetchData: a missing property on the way yields undefined, brackets map over an array.
  function Get(data: Val, path: seq<Seg>): Outcome
    decreases |path|, 0
  {
    if path == [] then Returned(data)
    else match path[0]
      case Plain(name) =>
        if data.Null? then Returned(Undefined)
        else if data.Undefined? then Thrown
        else if Prop(data, name).Undefined? then Returned(Undefined)
        else Get(Prop(data, name), path[1..])
      case Brackets(name) =>
        if data.Null? || data.Undefined? then Thrown
        else
          // Brackets without a name stand for the data itself.
          var a := if name == "" then data else Prop(data, name);
          if a.Null? || a.Undefined? then Thrown
          else
            var all := GetAll(if a.Arr? then a.items else [], path[1..]);
            if all.Some? then Returned(Arr(all.items, map[])) else Thrown
  }

  datatype Items = NoItems | Some(items: seq<Val>)

  function GetAll(vs: seq<Val>, path: seq<Seg>): (r: Items)
    ensures r.Some? ==> |r.items| == |vs|
    decreases |path|, 1, |vs|
  {
    if vs == [] then Some([])
    else
      var first := Get(vs[0], path);
      var rest := GetAll(vs[1..], path);
      if first.Returned? && rest.Some? then Some([first.value] + rest.items) else NoItems
  }

  // setData: missing objects on the way are created, brackets before the end start a new array. The
  // code is strict, so assigning a property of a primitive throws.
  function Set(data: Val, path: seq<Seg>, val: Val): Outcome
    requires path != []
    decreases |path|, 0
  {
    if !Container(data) then Thrown
    else if |path| == 1 then Returned(WithProp(data, path[0].name, val))
    else match path[0]
      case Plain(name) =>
        var r := Set(Below(data, name), path[1..], val);
        if r.Returned? then Returned(WithProp(data, name, r.value)) else Thrown
      case Brackets(name) =>
        if val.Null? || val.Undefined? then Thrown
        else
          var all := SetAll(if val.Arr? then val.items else [], path[1..]);
          if all.Some? then Returned(WithProp(data, name, Arr(all.items, map[]))) else Thrown
  }

  function SetAll(vals: seq<Val>, path: seq<Seg>): (r: Items)
    requires path != []
    ensures r.Some? ==> |r.items| == |vals|
    decreases |path|, 1, |vals|
  {
    if vals == [] then Some([])
    else
      var first := Set(EMPTY, path, vals[0]);
      var rest := SetAll(vals[1..], path);
      if first.Returned? && rest.Some? then Some([first.value] + rest.items) else NoItems
  }

  // A value matches a path that has an array wherever the path has brackets.
  predicate Matches(path: seq<Seg>, val: Val) {
    if path == [] then true
    else match path[0]
      case Plain(_) => Matches(path[1..], val)
      case Brackets(_) => val.Arr? && val.named == map[] && forall v :: v in val.items ==> Matches(path[1..], v)
  }

  // Brackets that follow a property name.
  predicate Named(path: seq<Seg>) {
    forall s :: s in path && s.Brackets? ==> s.name != ""
  }

  // The nodes on the way to the end of a path, or to its first brackets, are objects or missing.
  predicate Open(data: Val, path: seq<Seg>)
    decreases |path|
  {
    path != [] ==>
      Container(data) && (path[0].Plain? && |path| > 1 ==> Open(Below(data, path[0].name), path[1..]))
  }

  // Brackets before the end take a value that has a length, null and undefined have none.
  predicate Writable(path: seq<Seg>, val: Val) {
    |path| <= 1 ||
    match path[0]
    case Plain(_) => Writable(path[1..], val)
    case Brackets(_) =>
      !val.Null? && !val.Undefined? && (val.Arr? ==> forall v :: v in val.items ==> Writable(path[1..], v))
  }

  predicate AllWritable(path: seq<Seg>, vals: seq<Val>) {
    forall v :: v in vals ==> Writable(path, v)
  }

  // Does a value written to a path read back? Brackets need an array, whose entries need to read back
  // from new objects. Brackets without a name are read from the data itself, where nothing is written,
  // so the value has to be what reading gives anyway.
  predicate ReadsBack(data: Val, path: seq<Seg>, val: Val)
    requires path != []
    decreases |path|
  {
    Container(data) &&
    match path[0]
    case Plain(name) => |path| == 1 || ReadsBack(Below(data, name), path[1..], val)
    case Brackets("") => Get(data, path) == Returned(val) && Writable(path, val)
    case Brackets(_) =>
      val.Arr? && val.named == map[] && (|path| == 1 || forall v :: v in val.items ==> ReadsBack(EMPTY, path[1..], v))
  }

  predicate AllReadBack(path: seq<Seg>, vals: seq<Val>)
    requires path != []
  {
    forall v :: v in vals ==> ReadsBack(EMPTY, path, v)
  }

  lemma PropWithProp(v: Val, name: string, other: string, p: Val)
    requires Container(v)
    ensures Container(WithProp(v, name, p)) && Prop(WithProp(v, name, p), name) == p
    ensures other != name ==> Prop(WithProp(v, name, p), other) == Prop(v, other)
  {
  }

  lemma EmptyIsOpen(path: seq<Seg>)
    ensures Open(EMPTY, path)
  {
  }

  // Writing throws exactly when a primitive is in the way or brackets meet no length.
  lemma {:induction false} SetReturns(data: Val, path: seq<Seg>, val: Val)
    requires path != []
    ensures Set(data, path, val).Returned? <==> Open(data, path) && Writable(path, val)
    decreases |path|, 0
  {
    if Container(data) && |path| > 1 {
      match path[0]
      case Plain(name) => SetReturns(Below(data, name), path[1..], val);
      case Brackets(_) => SetAllReturns(if val.Arr? then val.items else [], path[1..]);
    }
  }

  lemma {:induction false} SetAllReturns(vals: seq<Val>, path: seq<Seg>)
    requires path != []
    ensures SetAll(vals, path).Some? <==> AllWritable(path, vals)
    decreases |path|, 1, |vals|
  {
    hide Set;
    hide Writable;
    if vals != [] {
      SetReturns(EMPTY, path, vals[0]);
      EmptyIsOpen(path);
      SetAllReturns(vals[1..], path);
      assert forall v :: v in vals <==> v == vals[0] || v in vals[1..];
    }
  }

  // What is written to a path reads back exactly in these cases; with a name before all brackets, that
  // is when nothing is in the way and the value matches the path.
  lemma {:induction false} WriteReads(data: Val, path: seq<Seg>, val: Val)
    requires path != []
    ensures var d := Set(data, path, val); (d.Returned? && Get(d.value, path) == Returned(val)) <==> ReadsBack(data, path, val)
    ensures Named(path) ==> (ReadsBack(data, path, val) <==> Open(data, path) && Matches(path, val))
    decreases |path|, 0
  {
    if Named(path) { NamedReads(data, path, val); }
    hide Get;
    hide WithProp;
    if Container(data) {
      match path[0]
      case Plain(name) =>
        if |path| == 1 {
          OneReads(data, path, val);
        } else {
          var q := Below(data, name);
          WriteReads(q, path[1..], val);
          var r := Set(q, path[1..], val);
          if r.Returned? {
            PropWithProp(data, name, name, r.value);
            GetPlain(WithProp(data, name, r.value), path);
            SetContainer(q, path[1..], val);
          }
        }
      case Brackets("") =>
        SetReturns(data, path, val);
        if Set(data, path, val).Returned? { UnnamedWrite(data, path, val); }
      case Brackets(_) =>
        if |path| == 1 {
          OneReads(data, path, val);
        } else {
          WriteReadsAll(if val.Arr? then val.items else [], path[1..]);
          BracketsRead(data, path, val);
        }
    }
  }

  lemma GetPlain(data: Val, path: seq<Seg>)
    requires path != [] && path[0].Plain? && Container(data)
    ensures var p := Prop(data, path[0].name);
      Get(data, path) == if p.Undefined? then Returned(Undefined) else Get(p, path[1..])
  {
  }

  // Writing to brackets without a name leaves what they read unchanged, whatever is written.
  lemma UnnamedWrite(data: Val, path: seq<Seg>, val: Val)
    requires path != [] && path[0] == Brackets("") && Set(data, path, val).Returned?
    ensures Get(Set(data, path, val).value, path) == Get(data, path)
  {
    hide GetAll;
    hide SetAll;
  }

  // An array of one object with a property, and a new value for it.
  lemma UnnamedLost(x: Val, y: Val)
    requires x != y && !x.Undefined?
    ensures var data, path, val := Arr([Obj(map["x" := x])], map[]), [Brackets(""), Plain("x")], Arr([y], map[]);
      Matches(path, val) && Open(data, path) && Set(data, path, val).Returned? && Get(Set(data, path, val).value, path) == Returned(Arr([x], map[]))
  {
    var data, path, val := Arr([Obj(map["x" := x])], map[]), [Brackets(""), Plain("x")], Arr([y], map[]);
    var rest := path[1..];
    assert rest == [Plain("x")] && rest[1..] == [];
    assert Writable(path, val) by { assert forall v :: v in val.items ==> Writable(rest, v); }
    SetReturns(data, path, val);
    UnnamedWrite(data, path, val);
    assert Get(data.items[0], rest) == Returned(x);
    assert data.items[1..] == [] && GetAll([], rest) == Some([]);
    assert GetAll(data.items, rest) == Some([x]);
    assert Matches(rest, y) && Matches(path, val);
  }

  lemma OneReads(data: Val, path: seq<Seg>, val: Val)
    requires |path| == 1 && path[0] != Brackets("") && Container(data)
    ensures var d := Set(data, path, val); (d.Returned? && Get(d.value, path) == Returned(val)) <==> ReadsBack(data, path, val)
  {
    assert path[1..] == [];
    PropWithProp(data, path[0].name, path[0].name, val);
    GetAllItself(if val.Arr? then val.items else []);
  }

  lemma {:induction false} GetAllItself(vs: seq<Val>)
    ensures GetAll(vs, []) == Some(vs)
  {
    if vs != [] { GetAllItself(vs[1..]); }
  }

  lemma BracketsRead(data: Val, path: seq<Seg>, val: Val)
    requires |path| > 1 && path[0].Brackets? && path[0].name != "" && Container(data)
    requires var vals := if val.Arr? then val.items else [];
      var all := SetAll(vals, path[1..]);
      (all.Some? && GetAll(all.items, path[1..]) == Some(vals)) <==> AllReadBack(path[1..], vals)
    ensures var d := Set(data, path, val); (d.Returned? && Get(d.value, path) == Returned(val)) <==> ReadsBack(data, path, val)
  {
    hide SetAll;
    hide GetAll;
    var vals := if val.Arr? then val.items else [];
    var all := SetAll(vals, path[1..]);
    assert ReadsBack(data, path, val) <==> val.Arr? && val.named == map[] && AllReadBack(path[1..], vals);
    if all.Some? && !val.Null? && !val.Undefined? {
      var a := Arr(all.items, map[]);
      PropWithProp(data, path[0].name, path[0].name, a);
      var d := WithProp(data, path[0].name, a);
      assert Set(data, path, val) == Returned(d);
      var got := GetAll(all.items, path[1..]);
      assert Get(d, path) == if got.Some? then Returned(Arr(got.items, map[])) else Thrown;
    }
  }

  lemma {:induction false} WriteReadsAll(vals: seq<Val>, path: seq<Seg>)
    requires path != []
    ensures var all := SetAll(vals, path);
      (all.Some? && GetAll(all.items, path) == Some(vals)) <==> AllReadBack(path, vals)
    decreases |path|, 1, |vals|
  {
    hide Set;
    hide Get;
    hide ReadsBack;
    if vals != [] {
      WriteReads(EMPTY, path, vals[0]);
      WriteReadsAll(vals[1..], path);
      assert forall v :: v in vals <==> v == vals[0] || v in vals[1..];
      var all := SetAll(vals, path);
      if all.Some? {
        var first := Set(EMPTY, path, vals[0]).value;
        var rest := SetAll(vals[1..], path).items;
        assert all.items[0] == first && all.items[1..] == rest;
      }
    }
  }

  lemma {:induction false} NamedReads(data: Val, path: seq<Seg>, val: Val)
    requires path != [] && Named(path)
    ensures ReadsBack(data, path, val) <==> Open(data, path) && Matches(path, val)
    decreases |path|
  {
    assert path[0] in path;
    if |path| == 1 {
      assert path[1..] == [];
    } else {
      assert Named(path[1..]) by { assert path == [path[0]] + path[1..]; }
      if path[0].Plain? {
        NamedReads(Below(data, path[0].name), path[1..], val);
      } else if val.Arr? {
        EmptyIsOpen(path[1..]);
        forall v ensures ReadsBack(EMPTY, path[1..], v) <==> Matches(path[1..], v) {
          NamedReads(EMPTY, path[1..], v);
        }
      }
    }
  }

  // A plain path that parts from another one at a differing property name, before any brackets.
  predicate Apart(p: seq<Seg>, q: seq<Seg>) {
    p != [] && q != [] && q[0].Plain? &&
    (p[0].name != q[0].name || (p[0].Plain? && Apart(p[1..], q[1..])))
  }

  // Writing leaves every property off the written path as it was.
  lemma {:induction false} WriteFrames(data: Val, p: seq<Seg>, val: Val, q: seq<Seg>)
    requires Apart(p, q) && (forall s :: s in q ==> s.Plain?) && Set(data, p, val).Returned?
    ensures Get(Set(data, p, val).value, q) == Get(data, q)
    decreases |p|
  {
    if Container(data) {
      assert q[0] in q;
      var name, other := p[0].name, q[0].name;
      if name != other {
        forall v ensures Prop(WithProp(data, name, v), other) == Prop(data, other) {
          PropWithProp(data, name, other, v);
        }
      } else {
        var d := Below(data, name);
        WriteFrames(d, p[1..], val, q[1..]);
        PropWithProp(data, name, name, Set(d, p[1..], val).value);
        MissingReads(q[1..]);
      }
    }
  }

  // Below a missing object everything is undefined, as below an object without properties.
  lemma MissingReads(q: seq<Seg>)
    requires q != [] ==> q[0].Plain?
    ensures q != [] ==> Get(EMPTY, q) == Returned(Undefined)
  {
  }

  // The last of two writes to a path wins.
  lemma {:induction false} WriteTwice(data: Val, path: seq<Seg>, v: Val, w: Val)
    requires path != [] && Set(data, path, v).Returned?
    ensures Set(Set(data, path, v).value, path, w) == Set(data, path, w)
    decreases |path|
  {
    hide Set;
    hide WithProp;
    var name := path[0].name;
    SetReturns(data, path, v);
    if |path| == 1 {
      OneTwice(data, path, v, w);
    } else if path[0].Plain? {
      var q := Below(data, name);
      SetPlain(data, path, v);
      SetPlain(data, path, w);
      WriteTwice(q, path[1..], v, w);
      var q' := Set(q, path[1..], v).value;
      SetContainer(q, path[1..], v);
      var data' := WithProp(data, name, q');
      PropWithProp(data, name, name, q');
      SetPlain(data', path, w);
      var r := Set(q', path[1..], w);
      if r.Returned? { WithPropTwice(data, name, q', r.value); }
    } else {
      BracketsTwice(data, path, v, w);
    }
  }

  lemma OneTwice(data: Val, path: seq<Seg>, v: Val, w: Val)
    requires |path| == 1 && Open(data, path) && Set(data, path, v).Returned?
    ensures Set(Set(data, path, v).value, path, w) == Set(data, path, w)
  {
    WithPropTwice(data, path[0].name, v, w);
  }

  // One step into the tree.
  lemma SetPlain(data: Val, path: seq<Seg>, val: Val)
    requires |path| > 1 && path[0].Plain? && Container(data)
    ensures var r := Set(Below(data, path[0].name), path[1..], val);
      Set(data, path, val) == if r.Returned? then Returned(WithProp(data, path[0].name, r.value)) else Thrown
  {
  }

  lemma BracketsTwice(data: Val, path: seq<Seg>, v: Val, w: Val)
    requires |path| > 1 && path[0].Brackets? && Open(data, path) && Set(data, path, v).Returned?
    ensures Set(Set(data, path, v).value, path, w) == Set(data, path, w)
  {
    hide Get;
    hide SetAll;
    forall x, y { WithPropTwice(data, path[0].name, x, y); }
  }

  lemma WithPropTwice(data: Val, name: string, x: Val, y: Val)
    ensures WithProp(WithProp(data, name, x), name, y) == WithProp(data, name, y)
  {
    if data.Obj? {
      assert data.props[name := x][name := y] == data.props[name := y];
    } else if data.Arr? {
      assert data.named[name := x][name := y] == data.named[name := y];
    }
  }

  lemma SetContainer(data: Val, path: seq<Seg>, val: Val)
    requires path != [] && Container(data) && Set(data, path, val).Returned?
    ensures Container(Set(data, path, val).value)
  {
  }

  // Writing back what a plain path reads changes nothing.
  lemma {:induction false} ReadWrites(data: Val, path: seq<Seg>)
    requires path != [] && (forall s :: s in path ==> s.Plain?) && Open(data, path)
    requires Get(data, path).Returned? && !Get(data, path).value.Undefined?
    ensures Set(data, path, Get(data, path).value) == Returned(data)
    decreases |path|
  {
    assert path[0] in path;
    var name := path[0].name;
    var p := Prop(data, name);
    if |path| == 1 {
      assert path[1..] == [];
    } else {
      assert path[1] in path;
      ReadWrites(p, path[1..]);
    }
    if data.Obj? { assert data.props[name := p] == data.props; } else { assert data.named[name := p] == data.named; }
  }

  predicate DotFree(name: string) { name != "" && '.' !in name && '\\' !in name }

  function Join(names: seq<string>): string {
    if names == [] then ""
    else if |names| == 1 then names[0]
    else names[0] + "." + Join(names[1..])
  }

  // The first segment's length: everything up to a dot.
  function SegmentLength(s: string): (n: nat)
    ensures n <= |s| && '.' !in s[..n] && (n < |s| ==> s[n] == '.')
  {
    if s == "" || s[0] == '.' then 0
    else
      assert s[..1 + SegmentLength(s[1..])] == [s[0]] + s[1..][..SegmentLength(s[1..])];
      1 + SegmentLength(s[1..])
  }

  // _fnSplitObjNotation on a text without escapes: the non-empty stretches between dots.
  function Split(s: string): seq<string> {
    if s == "" then []
    else if s[0] == '.' then Split(s[1..])
    else var n := SegmentLength(s); [s[..n]] + Split(s[n..])
  }

  // Joining the rest of a path and splitting it again, as both functions do below brackets, loses
  // nothing when no name has a dot of its own.
  lemma {:induction false} SplitJoin(names: seq<string>)
    requires forall n :: n in names ==> DotFree(n)
    ensures Split(Join(names)) == names
  {
    if names != [] {
      assert names[0] in names;
      SplitJoin(names[1..]);
      SplitFirst(names[0], if |names| == 1 then "" else "." + Join(names[1..]));
      if |names| == 1 {
        assert names[0] + "" == names[0];
      } else {
        assert names[0] + "." + Join(names[1..]) == names[0] + ("." + Join(names[1..]));
        assert ("." + Join(names[1..]))[1..] == Join(names[1..]);
      }
    }
  }

  lemma SplitFirst(name: string, rest: string)
    requires DotFree(name) && (rest == "" || rest[0] == '.')
    ensures Split(name + rest) == [name] + Split(rest)
  {
    FirstSegment(name, rest);
    assert (name + rest)[..|name|] == name && (name + rest)[|name|..] == rest;
  }

  lemma {:induction false} FirstSegment(name: string, rest: string)
    requires '.' !in name && (rest == "" || rest[0] == '.')
    ensures SegmentLength(name + rest) == |name|
  {
    if name == "" {
      assert name + rest == rest;
    } else {
      FirstSegment(name[1..], rest);
      assert (name + rest)[1..] == name[1..] + rest;
    }
  }

  // Reading a plain path throws for missing data only; it ends at the first node that is null, or whose
  // property is missing, with undefined.
  lemma {:induction false} PlainReads(data: Val, path: seq<Seg>)
    requires forall s :: s in path ==> s.Plain?
    ensures Get(data, path).Thrown? <==> path != [] && data.Undefined?
    ensures path != [] && (data.Null? || (!data.Undefined? && Prop(data, path[0].name).Undefined?)) ==> Get(data, path) == Returned(Undefined)
    decreases |path|
  {
    if path != [] {
      assert path[0] in path;
      if !data.Null? && !data.Undefined? { PlainReads(Prop(data, path[0].name), path[1..]); }
    }
  }
}
