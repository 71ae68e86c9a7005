/** Completing a configuration with the defaults of its schema
    (internal/cue/cue.go: fieldsDelta, makeValues, generateDefaults, Unify, Merge). */
module SchemaDelta {
  import opened Wrappers

  /** A CUE value as far as merging looks at it: a struct, or a leaf with the syntax it has,
      the default it may offer, and the string it stands for, itself or by its default, if it does. */
  datatype Value =
    | Leaf(syntax: string, default: Option<string>, text: Option<string>)
    | Struct(fields: seq<Field>)
  datatype Attr = Attr(name: string, contents: string)
  datatype Field = Field(name: string, attrs: seq<Attr>, doc: string, value: Value)

  type Path = seq<string>

  const PRIVATE_ATTR := "private"
  const SCHEMA_VERSION := "#SchemaVersion"

  predicate Private(f: Field) {
    exists a :: a in f.attrs && a.name == PRIVATE_ATTR
  }

  /** Labels are unique inside every struct: CUE unifies the fields that share one. */
  predicate WellFormed(v: Value) {
    v.Struct? ==>
      && Distinct(v.fields)
      && forall f :: f in v.fields ==> WellFormed(f.value)
  }

  predicate Distinct(fs: seq<Field>) {
    forall i, j :: 0 <= i < j < |fs| ==> fs[i].name != fs[j].name
  }

  function Find(fs: seq<Field>, name: string): (r: Option<Field>)
    ensures r.Some? ==> r.value in fs && r.value.name == name
    ensures r.None? ==> forall f :: f in fs ==> f.name != name
  {
    if fs == [] then None
    else if fs[0].name == name then Some(fs[0])
    else Find(fs[1..], name)
  }

  /** Value.LookupPath. */
  function Lookup(v: Value, p: Path): (r: Option<Value>)
    decreases |p|
    ensures r.Some? && p != [] ==> v.Struct? && r.value < v
  {
    if p == [] then Some(v)
    else if v.Leaf? then None
    else
      var f := Find(v.fields, p[0]);
      if f.None? then None else Lookup(f.value.value, p[1..])
  }

  // ----- the missing fields -----

  /** The absolute paths under sel of the relative paths ps. */
  function Prefixed(sel: Path, ps: seq<Path>): seq<Path> {
    if ps == [] then [] else [sel + ps[0]] + Prefixed(sel, ps[1..])
  }

  /** What fieldsDelta returns; None stands for its error, which is the library's when it is asked
      for the fields of a leaf. Whether the library refuses that (leafFails) or finds none is not
      settled here. */
  function Delta(leafFails: bool, schema: Value, data: Value, parents: Path): Option<seq<Path>>
    decreases schema, 1, 0
  {
    if schema.Leaf? then if leafFails then None else Some([])
    else DeltaFields(leafFails, schema.fields, schema, data, parents)
  }

  function DeltaFields(leafFails: bool, fs: seq<Field>, schema: Value, data: Value, parents: Path): Option<seq<Path>>
    decreases schema, 0, |fs|
  {
    if fs == [] then Some([])
    else
      var head := DeltaField(leafFails, fs[0], schema, data, parents);
      var tail := DeltaFields(leafFails, fs[1..], schema, data, parents);
      if head.None? || tail.None? then None else Some(head.value + tail.value)
  }

  /** The absolute path is looked up in data, which is right, and again in schema, which is
      already narrowed to the parents; a path that leads nowhere has no fields. */
  function DeltaField(leafFails: bool, f: Field, schema: Value, data: Value, parents: Path): Option<seq<Path>>
    decreases schema, 0, 0
  {
    var sel := parents + [f.name];
    if Private(f) then Some([])
    else
      var own := if Lookup(data, sel).None? then [[f.name]] else [];
      var x := Lookup(schema, sel);
      if f.value.Leaf? || x.None? then Some(own)
      else
        var n := Delta(leafFails, x.value, data, sel);
        if n.None? then None else Some(own + Prefixed(sel, n.value))
  }

  function After(m: seq<Path>, rest: Option<seq<Path>>): Option<seq<Path>> {
    if rest.None? then None else Some(m + rest.value)
  }

  lemma DeltaStep(leafFails: bool, m: seq<Path>, fs: seq<Field>, i: nat, schema: Value, data: Value, parents: Path)
    requires i < |fs|
    ensures var head := DeltaField(leafFails, fs[i], schema, data, parents);
      After(m, DeltaFields(leafFails, fs[i..], schema, data, parents)) ==
      if head.None? then None else After(m + head.value, DeltaFields(leafFails, fs[i + 1..], schema, data, parents))
  {
    assert fs[i..][0] == fs[i] && fs[i..][1..] == fs[i + 1..];
    var head := DeltaField(leafFails, fs[i], schema, data, parents);
    var tail := DeltaFields(leafFails, fs[i + 1..], schema, data, parents);
    if head.Some? && tail.Some? {
      assert m + (head.value + tail.value) == m + head.value + tail.value;
    }
  }

  /** What one turn of the outer loop adds, in the pieces in which it adds them. */
  lemma DeltaPieces(leafFails: bool, m: seq<Path>, f: Field, schema: Value, data: Value, parents: Path)
    requires !Private(f)
    ensures
      var sel := parents + [f.name];
      var own := if Lookup(data, sel).None? then m + [[f.name]] else m;
      var x := Lookup(schema, sel);
      var head := DeltaField(leafFails, f, schema, data, parents);
      if f.value.Leaf? || x.None? then head.Some? && own == m + head.value
      else
        var n := Delta(leafFails, x.value, data, sel);
        (n.None? <==> head.None?) && (n.Some? ==> own + Prefixed(sel, n.value) == m + head.value)
  {
    var sel := parents + [f.name];
    var x := Lookup(schema, sel);
    if f.value.Struct? && x.Some? {
      var n := Delta(leafFails, x.value, data, sel);
      if n.Some? {
        var own := if Lookup(data, sel).None? then [[f.name]] else [];
        assert m + (own + Prefixed(sel, n.value)) == m + own + Prefixed(sel, n.value);
      }
    }
  }

  /** The inner loop: each path found below is added behind the field's own. */
  method AppendPrefixed(m: seq<Path>, sel: Path, paths: seq<Path>) returns (r: seq<Path>)
    ensures r == m + Prefixed(sel, paths)
  {
    r := m;
    assert paths[0..] == paths;
    for j := 0 to |paths|
      invariant r + Prefixed(sel, paths[j..]) == m + Prefixed(sel, paths)
    {
      assert paths[j..][0] == paths[j] && paths[j..][1..] == paths[j + 1..];
      r := r + [sel + paths[j]];
    }
    assert r + [] == r;
  }

  method FieldsDelta(leafFails: bool, schema: Value, data: Value, parents: Path) returns (r: Option<seq<Path>>)
    decreases schema
    ensures r == Delta(leafFails, schema, data, parents)
  {
    if schema.Leaf? {
      if leafFails {
        return None;
      }
      return Some([]);
    }
    var m: seq<Path> := [];
    var fs := schema.fields;
    assert fs[0..] == fs;
    ghost var whole := Delta(leafFails, schema, data, parents);
    assert whole.Some? ==> [] + whole.value == whole.value;
    for i := 0 to |fs|
      invariant After(m, DeltaFields(leafFails, fs[i..], schema, data, parents)) == whole
    {
      DeltaStep(leafFails, m, fs, i, schema, data, parents);
      var sel := parents + [fs[i].name];
      if Private(fs[i]) {
        assert m == m + [];
        continue;
      }
      DeltaPieces(leafFails, m, fs[i], schema, data, parents);
      if Lookup(data, sel).None? {
        m := m + [[fs[i].name]];
      }
      if fs[i].value.Struct? {
        var x := Lookup(schema, sel);
        if x.Some? {
          var n := FieldsDelta(leafFails, x.value, data, sel);
          if n.None? {
            return None;
          }
          m := AppendPrefixed(m, sel, n.value);
        }
      }
    }
    assert m + [] == m;
    return Some(m);
  }

  // ----- the declarations made for them -----

  /** The version of the schema is added to every attribute that is handed on. */
  function Stamped(attrs: seq<Attr>, version: string): seq<Attr> {
    seq(|attrs|, i requires 0 <= i < |attrs| =>
      Attr(attrs[i].name, attrs[i].contents + ",schema_version=\"" + version + "\""))
  }

  /** A leaf is emitted as its default, or else as it stands. */
  function EmitLeaf(v: Value): Value
    requires v.Leaf?
  {
    Leaf(if v.default.Some? then v.default.value else v.syntax, None, v.text)
  }

  function EmitField(f: Field, v: Value, version: string): Field {
    Field(f.name, Stamped(f.attrs, version), f.doc, v)
  }

  /** What makeValues returns for the fields fs found under parents. */
  function Emit(fs: seq<Field>, paths: seq<Path>, version: string, parents: Path): seq<Field>
    decreases fs
  {
    if fs == [] then []
    else
      var sel := parents + [fs[0].name];
      var tail := Emit(fs[1..], paths, version, parents);
      if sel !in paths then tail
      else if fs[0].value.Leaf? then [EmitField(fs[0], EmitLeaf(fs[0].value), version)] + tail
      else [EmitField(fs[0], Struct(Emit(fs[0].value.fields, paths, version, sel)), version)] + tail
  }

  /** None of the values that are emitted is one whose fields or syntax the library fails on. */
  predicate Legible(fs: seq<Field>, paths: seq<Path>, parents: Path, unreadable: set<Path>)
    decreases fs
  {
    fs == [] ||
    (&& (var sel := parents + [fs[0].name];
         sel in paths ==>
           && sel !in unreadable
           && (fs[0].value.Struct? ==> Legible(fs[0].value.fields, paths, sel, unreadable)))
     && Legible(fs[1..], paths, parents, unreadable))
  }

  /** None is the error of the first value that cannot be read. */
  method MakeValues(fs: seq<Field>, paths: seq<Path>, version: string, parents: Path, unreadable: set<Path>)
    returns (r: Option<seq<Field>>)
    decreases fs
    ensures r.Some? <==> Legible(fs, paths, parents, unreadable)
    ensures r.Some? ==> r.value == Emit(fs, paths, version, parents)
  {
    var result: seq<Field> := [];
    for i := 0 to |fs|
      invariant result + Emit(fs[i..], paths, version, parents) == Emit(fs, paths, version, parents)
      invariant Legible(fs[i..], paths, parents, unreadable) == Legible(fs, paths, parents, unreadable)
    {
      assert fs[i..][0] == fs[i] && fs[i..][1..] == fs[i + 1..];
      var sel := parents + [fs[i].name];
      if sel !in paths {
        continue;
      }
      if sel in unreadable {
        return None;
      }
      var v: Value;
      if fs[i].value.Struct? {
        var rx := MakeValues(fs[i].value.fields, paths, version, sel, unreadable);
        if rx.None? {
          return None;
        }
        v := Struct(rx.value);
      } else {
        v := EmitLeaf(fs[i].value);
      }
      result := result + [EmitField(fs[i], v, version)];
    }
    return Some(result);
  }
}
