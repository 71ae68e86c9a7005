/** What the merge of a configuration with its schema amounts to. */
module SchemaMerge {
  import opened Wrappers
  import opened SchemaDelta

  // ----- the paths that ought to be reported: an independent definition -----

  /** The schema fields on the first two levels that the data lacks, in schema order, without
      private fields and what is below them. */
  function Wanted(fs: seq<Field>, data: Value): seq<Path> {
    if fs == [] then [] else WantedField(fs[0], data) + Wanted(fs[1..], data)
  }

  function WantedField(f: Field, data: Value): seq<Path> {
    if Private(f) then []
    else
      (if Lookup(data, [f.name]).None? then [[f.name]] else []) +
      (if f.value.Struct? then WantedBelow(f.name, f.value.fields, data) else [])
  }

  function WantedBelow(a: string, gs: seq<Field>, data: Value): seq<Path> {
    if gs == [] then []
    else
      (if !Private(gs[0]) && Lookup(data, [a, gs[0].name]).None? then [[a, gs[0].name]] else []) +
      WantedBelow(a, gs[1..], data)
  }

  function Short(m: seq<Path>): seq<Path> {
    if m == [] then [] else (if |m[0]| <= 2 then [m[0]] else []) + Short(m[1..])
  }

  lemma ShortConcat(a: seq<Path>, b: seq<Path>)
    ensures Short(a + b) == Short(a) + Short(b)
  {
    if a == [] {
      assert a + b == b;
    } else {
      assert (a + b)[1..] == a[1..] + b;
      ShortConcat(a[1..], b);
    }
  }

  lemma ShortMember(m: seq<Path>, p: Path)
    ensures p in Short(m) <==> p in m && |p| <= 2
  {
  }

  lemma PrefixedMember(sel: Path, ps: seq<Path>, p: Path)
    requires p in Prefixed(sel, ps)
    ensures exists q :: q in ps && p == sel + q
  {
    if p != sel + ps[0] {
      PrefixedMember(sel, ps[1..], p);
      var q :| q in ps[1..] && p == sel + q;
      assert q in ps;
    } else {
      assert ps[0] in ps;
    }
  }

  lemma PrefixedConcat(sel: Path, a: seq<Path>, b: seq<Path>)
    ensures Prefixed(sel, a + b) == Prefixed(sel, a) + Prefixed(sel, b)
  {
    if a == [] {
      assert a + b == b;
    } else {
      assert (a + b)[1..] == a[1..] + b;
      PrefixedConcat(sel, a[1..], b);
    }
  }

  lemma NoneShort(m: seq<Path>)
    requires forall p :: p in m ==> |p| > 2
    ensures Short(m) == []
  {
  }

  // ----- the shape of what fieldsDelta reports -----

  lemma PrefixedLengths(parents: Path, name: string, n: seq<Path>)
    requires forall q :: q in n ==> q != []
    ensures forall p :: p in Prefixed(parents + [name], n) ==> |p| >= |parents| + 2 && p[..|parents|] == parents
  {
    var sel := parents + [name];
    forall p | p in Prefixed(sel, n) ensures |p| >= |parents| + 2 && p[..|parents|] == parents {
      PrefixedMember(sel, n, p);
      var q :| q in n && p == sel + q;
    }
  }

  /** Below its own fields, a call under parents reports only paths that begin with an absolute
      path, so they are longer than the parents by two. */
  lemma {:induction false} DeltaLengths(leafFails: bool, fs: seq<Field>, schema: Value, data: Value, parents: Path)
    requires DeltaFields(leafFails, fs, schema, data, parents).Some?
    ensures forall p :: p in DeltaFields(leafFails, fs, schema, data, parents).value ==>
              |p| == 1 || (|p| >= |parents| + 2 && p[..|parents|] == parents)
    decreases schema, |fs|
  {
    if fs != [] {
      DeltaLengths(leafFails, fs[1..], schema, data, parents);
      var f := fs[0];
      var sel := parents + [f.name];
      var x := Lookup(schema, sel);
      if !Private(f) && f.value.Struct? && x.Some? {
        var n := Delta(leafFails, x.value, data, sel).value;
        if x.value.Struct? { DeltaLengths(leafFails, x.value.fields, x.value, data, sel); }
        PrefixedLengths(parents, f.name, n);
      }
    }
  }

  lemma {:induction false} BelowExact(leafFails: bool, a: string, gs: seq<Field>, schema: Value, data: Value)
    requires DeltaFields(leafFails, gs, schema, data, [a]).Some?
    ensures Short(Prefixed([a], DeltaFields(leafFails, gs, schema, data, [a]).value)) == WantedBelow(a, gs, data)
  {
    if gs != [] {
      BelowExact(leafFails, a, gs[1..], schema, data);
      var head := DeltaField(leafFails, gs[0], schema, data, [a]).value;
      var tail := DeltaFields(leafFails, gs[1..], schema, data, [a]).value;
      PrefixedConcat([a], head, tail);
      ShortConcat(Prefixed([a], head), Prefixed([a], tail));
      HeadBelow(leafFails, a, gs[0], schema, data);
    }
  }

  lemma HeadBelow(leafFails: bool, a: string, g: Field, schema: Value, data: Value)
    requires DeltaField(leafFails, g, schema, data, [a]).Some?
    ensures Short(Prefixed([a], DeltaField(leafFails, g, schema, data, [a]).value)) ==
            if !Private(g) && Lookup(data, [a, g.name]).None? then [[a, g.name]] else []
  {
    var sel := [a] + [g.name];
    assert sel == [a, g.name];
    var own := if Lookup(data, sel).None? then [[g.name]] else [];
    var x := Lookup(schema, sel);
    if !Private(g) {
      assert Prefixed([a], own) == if Lookup(data, sel).None? then [[a, g.name]] else [];
      if g.value.Struct? && x.Some? {
        var n := Delta(leafFails, x.value, data, sel).value;
        if x.value.Struct? { DeltaLengths(leafFails, x.value.fields, x.value, data, sel); }
        PrefixedConcat([a], own, Prefixed(sel, n));
        ShortConcat(Prefixed([a], own), Prefixed([a], Prefixed(sel, n)));
        forall p | p in Prefixed([a], Prefixed(sel, n)) ensures |p| > 2 {
          PrefixedMember([a], Prefixed(sel, n), p);
          var q :| q in Prefixed(sel, n) && p == [a] + q;
          PrefixedMember(sel, n, q);
        }
        NoneShort(Prefixed([a], Prefixed(sel, n)));
      }
    }
  }

  lemma FindDistinct(fs: seq<Field>, f: Field)
    requires Distinct(fs) && f in fs
    ensures Find(fs, f.name) == Some(f)
  {
    if fs[0] != f {
      var i :| 0 <= i < |fs| && fs[i] == f;
      assert fs[0].name != fs[i].name;
      assert fs[1..][i - 1] == f;
      FindDistinct(fs[1..], f);
    }
  }

  lemma LookupField(v: Value, f: Field)
    requires v.Struct? && Distinct(v.fields) && f in v.fields
    ensures Lookup(v, [f.name]) == Some(f.value)
  {
    FindDistinct(v.fields, f);
    assert Lookup(f.value, []) == Some(f.value);
  }

  /** A path of one or two labels, or one of the overlong paths that name no field: they begin
      with the same label twice. */
  ghost predicate Reported(p: Path) {
    |p| == 1 || |p| == 2 || (|p| >= 4 && p[0] == p[1])
  }

  lemma {:induction false} RootExact(leafFails: bool, fs: seq<Field>, schema: Value, data: Value)
    requires schema.Struct? && Distinct(schema.fields) && forall f :: f in fs ==> f in schema.fields
    requires DeltaFields(leafFails, fs, schema, data, []).Some?
    ensures Short(DeltaFields(leafFails, fs, schema, data, []).value) == Wanted(fs, data)
    ensures forall p :: p in DeltaFields(leafFails, fs, schema, data, []).value ==> Reported(p)
  {
    if fs != [] {
      RootExact(leafFails, fs[1..], schema, data);
      RootField(leafFails, fs[0], schema, data);
      ShortConcat(DeltaField(leafFails, fs[0], schema, data, []).value,
                  DeltaFields(leafFails, fs[1..], schema, data, []).value);
    }
  }

  lemma {:induction false} BelowReported(f: Field, n: seq<Path>)
    requires forall q :: q in n ==> |q| == 1 || (|q| >= 3 && q[..1] == [f.name])
    ensures forall p :: p in Prefixed([f.name], n) ==> Reported(p)
  {
    forall p | p in Prefixed([f.name], n) ensures Reported(p) {
      PrefixedMember([f.name], n, p);
      var q :| q in n && p == [f.name] + q;
      if |q| > 1 {
        assert q[..1][0] == q[0] && p[1] == q[0];
      }
    }
  }

  lemma {:induction false} RootField(leafFails: bool, f: Field, schema: Value, data: Value)
    requires schema.Struct? && Distinct(schema.fields) && f in schema.fields
    requires DeltaField(leafFails, f, schema, data, []).Some?
    ensures Short(DeltaField(leafFails, f, schema, data, []).value) == WantedField(f, data)
    ensures forall p :: p in DeltaField(leafFails, f, schema, data, []).value ==> Reported(p)
  {
    var sel := [] + [f.name];
    assert sel == [f.name];
    var own := if Lookup(data, sel).None? then [[f.name]] else [];
    assert Short(own) == own;
    if !Private(f) && f.value.Struct? {
      LookupField(schema, f);
      var n := Delta(leafFails, f.value, data, sel).value;
      BelowExact(leafFails, f.name, f.value.fields, f.value, data);
      DeltaLengths(leafFails, f.value.fields, f.value, data, sel);
      ShortConcat(own, Prefixed(sel, n));
      BelowReported(f, n);
    }
  }

  // ----- what the wanted paths are, one by one -----

  /** The schema asks for the root field l, and the data has none. */
  ghost predicate RootMissing(schema: Value, data: Value, l: string)
    requires schema.Struct?
  {
    Lookup(data, [l]).None? && exists f :: f in schema.fields && f.name == l && !Private(f)
  }

  ghost predicate ChildMissing(schema: Value, data: Value, a: string, b: string)
    requires schema.Struct?
  {
    Lookup(data, [a, b]).None? &&
    exists f, g :: f in schema.fields && f.name == a && !Private(f) && f.value.Struct? &&
                   g in f.value.fields && g.name == b && !Private(g)
  }

  lemma BelowMember(a: string, gs: seq<Field>, data: Value, p: Path)
    ensures p in WantedBelow(a, gs, data) <==>
            |p| == 2 && p[0] == a && Lookup(data, p).None? && exists g :: g in gs && g.name == p[1] && !Private(g)
  {
    if gs != [] {
      BelowMember(a, gs[1..], data, p);
      assert p == [a, gs[0].name] <==> |p| == 2 && p[0] == a && p[1] == gs[0].name;
      assert forall g :: g in gs <==> g == gs[0] || g in gs[1..];
    }
  }

  lemma WantedMember(fs: seq<Field>, data: Value, p: Path)
    ensures p in Wanted(fs, data) <==> exists f :: f in fs && p in WantedField(f, data)
  {
    if fs != [] {
      WantedMember(fs[1..], data, p);
      assert forall f :: f in fs <==> f == fs[0] || f in fs[1..];
    }
  }

  lemma FieldMember(f: Field, data: Value, p: Path)
    ensures p in WantedField(f, data) <==>
      && !Private(f) && Lookup(data, p).None?
      && ((|p| == 1 && p[0] == f.name) ||
          (|p| == 2 && p[0] == f.name && f.value.Struct? &&
           exists g :: g in f.value.fields && g.name == p[1] && !Private(g)))
  {
    if f.value.Struct? { BelowMember(f.name, f.value.fields, data, p); }
    assert p == [f.name] <==> |p| == 1 && p[0] == f.name;
  }

  /** The paths of one and two labels that fieldsDelta reports are exactly the missing fields. */
  lemma DeltaMembers(leafFails: bool, schema: Value, data: Value)
    requires schema.Struct? && Distinct(schema.fields) && Delta(leafFails, schema, data, []).Some?
    ensures var m := Delta(leafFails, schema, data, []).value;
      && Short(m) == Wanted(schema.fields, data)
      && (forall p :: p in m ==> Reported(p))
      && (forall l :: [l] in m <==> RootMissing(schema, data, l))
      && (forall a, b :: [a, b] in m <==> ChildMissing(schema, data, a, b))
  {
    var m := Delta(leafFails, schema, data, []).value;
    RootExact(leafFails, schema.fields, schema, data);
    forall l ensures [l] in m <==> RootMissing(schema, data, l) {
      ShortMember(m, [l]);
      WantedMember(schema.fields, data, [l]);
      forall f | f in schema.fields { FieldMember(f, data, [l]); }
    }
    forall a, b ensures [a, b] in m <==> ChildMissing(schema, data, a, b) {
      ShortMember(m, [a, b]);
      WantedMember(schema.fields, data, [a, b]);
      forall f | f in schema.fields { FieldMember(f, data, [a, b]); }
    }
  }

  // ----- no path twice, parents first -----

  ghost predicate NoRepeats(ps: seq<Path>) {
    forall i, j :: 0 <= i < j < |ps| ==> ps[i] != ps[j]
  }

  /** A reported parent stands before each of its children. */
  ghost predicate ParentsFirst(ps: seq<Path>) {
    forall i :: 0 <= i < |ps| && |ps[i]| == 2 && [ps[i][0]] in ps ==> [ps[i][0]] in ps[..i]
  }

  lemma {:induction false} NoRepeatsConcat(a: seq<Path>, b: seq<Path>)
    requires NoRepeats(a) && NoRepeats(b) && forall p :: p in a ==> p !in b
    ensures NoRepeats(a + b)
  {
    forall i, j | 0 <= i < j < |a + b| ensures (a + b)[i] != (a + b)[j] {
      if i < |a| <= j {
        assert a[i] in a && b[j - |a|] in b;
      }
    }
  }

  lemma {:induction false} ParentsFirstConcat(a: seq<Path>, b: seq<Path>)
    requires ParentsFirst(a) && ParentsFirst(b)
    requires (forall p :: p in a ==> p != []) && (forall p :: p in b ==> p != [])
    requires forall p, q :: p in a && q in b ==> p[0] != q[0]
    ensures ParentsFirst(a + b)
  {
    var w := a + b;
    forall i | 0 <= i < |w| && |w[i]| == 2 && [w[i][0]] in w ensures [w[i][0]] in w[..i] {
      if i < |a| {
        assert a[i] in a && w[..i] == a[..i];
        assert [w[i][0]] !in b;
      } else {
        assert b[i - |a|] in b && w[..i] == a + b[..i - |a|];
        assert [w[i][0]] !in a;
      }
    }
  }

  lemma {:induction false} BelowNoRepeats(a: string, gs: seq<Field>, data: Value)
    requires Distinct(gs)
    ensures NoRepeats(WantedBelow(a, gs, data))
  {
    if gs != [] {
      BelowNoRepeats(a, gs[1..], data);
      BelowMember(a, gs[1..], data, [a, gs[0].name]);
      assert forall g :: g in gs[1..] ==> g.name != gs[0].name;
    }
  }

  lemma {:induction false} FieldOrder(f: Field, data: Value)
    requires WellFormed(f.value)
    ensures NoRepeats(WantedField(f, data)) && ParentsFirst(WantedField(f, data))
    ensures forall p :: p in WantedField(f, data) ==> (|p| == 1 || |p| == 2) && p[0] == f.name
  {
    forall p ensures p in WantedField(f, data) ==> (|p| == 1 || |p| == 2) && p[0] == f.name {
      FieldMember(f, data, p);
    }
    var w := WantedField(f, data);
    if !Private(f) && f.value.Struct? {
      var own := if Lookup(data, [f.name]).None? then [[f.name]] else [];
      BelowNoRepeats(f.name, f.value.fields, data);
      forall p | p in own ensures p !in WantedBelow(f.name, f.value.fields, data) {
        BelowMember(f.name, f.value.fields, data, p);
      }
      forall p | p in WantedBelow(f.name, f.value.fields, data) ensures |p| == 2 {
        BelowMember(f.name, f.value.fields, data, p);
      }
      NoRepeatsConcat(own, WantedBelow(f.name, f.value.fields, data));
      forall i | 0 <= i < |w| && |w[i]| == 2 && [w[i][0]] in w ensures [w[i][0]] in w[..i] {
        assert w[i] in w;
        var j :| 0 <= j < |w| && w[j] == [w[i][0]];
        assert w[0] == [f.name] && i > 0;
        assert w[..i][0] == [f.name];
      }
    }
  }

  /** Every wanted path starts at a field. */
  lemma {:induction false} WantedHeads(fs: seq<Field>, data: Value)
    ensures forall p :: p in Wanted(fs, data) ==> p != [] && exists f :: f in fs && f.name == p[0]
  {
    forall p | p in Wanted(fs, data) ensures p != [] && exists f :: f in fs && f.name == p[0] {
      WantedMember(fs, data, p);
      var f :| f in fs && p in WantedField(f, data);
      FieldMember(f, data, p);
    }
  }

  /** The paths of the first field have nothing in common with those of the others. */
  lemma {:induction false} HeadsApart(fs: seq<Field>, data: Value)
    requires fs != [] && Distinct(fs)
    ensures forall p :: p in WantedField(fs[0], data) ==> p != []
    ensures forall q :: q in Wanted(fs[1..], data) ==> q != []
    ensures forall p, q :: p in WantedField(fs[0], data) && q in Wanted(fs[1..], data) ==> p[0] != q[0]
  {
    WantedHeads(fs[1..], data);
    forall p | p in WantedField(fs[0], data) ensures p != [] && p[0] == fs[0].name {
      FieldMember(fs[0], data, p);
    }
    assert forall f :: f in fs[1..] ==> f.name != fs[0].name;
  }

  lemma {:induction false} WantedOnce(fs: seq<Field>, data: Value)
    requires Distinct(fs) && forall f :: f in fs ==> WellFormed(f.value)
    ensures NoRepeats(Wanted(fs, data))
  {
    if fs != [] {
      FieldOrder(fs[0], data);
      WantedOnce(fs[1..], data);
      HeadsApart(fs, data);
      NoRepeatsConcat(WantedField(fs[0], data), Wanted(fs[1..], data));
    }
  }

  lemma {:induction false} WantedParents(fs: seq<Field>, data: Value)
    requires Distinct(fs) && forall f :: f in fs ==> WellFormed(f.value)
    ensures ParentsFirst(Wanted(fs, data))
  {
    if fs != [] {
      FieldOrder(fs[0], data);
      WantedParents(fs[1..], data);
      HeadsApart(fs, data);
      ParentsFirstConcat(WantedField(fs[0], data), Wanted(fs[1..], data));
    }
  }

  /** No path comes twice, and none before its parent. */
  lemma {:induction false} WantedOrder(fs: seq<Field>, data: Value)
    requires Distinct(fs) && forall f :: f in fs ==> WellFormed(f.value)
    ensures NoRepeats(Wanted(fs, data)) && ParentsFirst(Wanted(fs, data))
  {
    WantedOnce(fs, data);
    WantedParents(fs, data);
  }

  // ----- what is emitted for them -----

  /** The fields that complete the data: every non-private root field it lacks, in schema
      order, a leaf with its default and a struct with all its non-private fields. A struct
      inside such a struct comes out empty. */
  function Completion(fs: seq<Field>, data: Value, version: string): seq<Field> {
    if fs == [] then [] else CompletionField(fs[0], data, version) + Completion(fs[1..], data, version)
  }

  function CompletionField(f: Field, data: Value, version: string): seq<Field> {
    if Private(f) || Lookup(data, [f.name]).Some? then []
    else if f.value.Leaf? then [EmitField(f, EmitLeaf(f.value), version)]
    else [EmitField(f, Struct(Public(f.value.fields, version)), version)]
  }

  function Public(gs: seq<Field>, version: string): seq<Field> {
    if gs == [] then []
    else
      (if Private(gs[0]) then []
       else [EmitField(gs[0], if gs[0].value.Leaf? then EmitLeaf(gs[0].value) else Struct([]), version)]) +
      Public(gs[1..], version)
  }

  lemma {:induction false} EmitNothing(hs: seq<Field>, paths: seq<Path>, version: string, parents: Path)
    requires |parents| == 2 && forall p :: p in paths ==> Reported(p)
    ensures Emit(hs, paths, version, parents) == []
  {
    if hs != [] {
      assert |parents + [hs[0].name]| == 3;
      EmitNothing(hs[1..], paths, version, parents);
    }
  }

  /** A field right below a missing root struct is reported exactly when it is not private. */
  lemma ChildReported(leafFails: bool, f: Field, g: Field, schema: Value, data: Value, paths: seq<Path>)
    requires schema.Struct? && Distinct(schema.fields) && f in schema.fields && !Private(f)
    requires f.value.Struct? && Distinct(f.value.fields) && g in f.value.fields
    requires Lookup(data, [f.name]).None? && Delta(leafFails, schema, data, []) == Some(paths)
    ensures [f.name, g.name] in paths <==> !Private(g)
  {
    DeltaMembers(leafFails, schema, data);
    LookupBelow(data, f.name, g.name);
    if ChildMissing(schema, data, f.name, g.name) {
      var f', g' :| f' in schema.fields && f'.name == f.name && !Private(f') && f'.value.Struct? &&
                    g' in f'.value.fields && g'.name == g.name && !Private(g');
      FindDistinct(schema.fields, f); FindDistinct(schema.fields, f');
      FindDistinct(f.value.fields, g); FindDistinct(f.value.fields, g');
    }
  }

  lemma AllReported(leafFails: bool, schema: Value, data: Value, paths: seq<Path>)
    requires schema.Struct? && Distinct(schema.fields) && Delta(leafFails, schema, data, []) == Some(paths)
    ensures forall p :: p in paths ==> Reported(p)
  {
    DeltaMembers(leafFails, schema, data);
  }

  lemma RootReported(leafFails: bool, f: Field, schema: Value, data: Value, paths: seq<Path>)
    requires schema.Struct? && Distinct(schema.fields) && f in schema.fields
    requires Delta(leafFails, schema, data, []) == Some(paths)
    ensures [f.name] in paths <==> !Private(f) && Lookup(data, [f.name]).None?
  {
    DeltaMembers(leafFails, schema, data);
    if RootMissing(schema, data, f.name) {
      var f' :| f' in schema.fields && f'.name == f.name && !Private(f');
      FindDistinct(schema.fields, f); FindDistinct(schema.fields, f');
    }
  }

  lemma {:induction false} EmitOne(gs: seq<Field>, paths: seq<Path>, version: string, a: string)
    requires gs != [] && forall p :: p in paths ==> Reported(p)
    requires [a, gs[0].name] in paths <==> !Private(gs[0])
    ensures Emit(gs, paths, version, [a]) ==
            (if Private(gs[0]) then []
             else [EmitField(gs[0], if gs[0].value.Leaf? then EmitLeaf(gs[0].value) else Struct([]), version)]) +
            Emit(gs[1..], paths, version, [a])
  {
    var g := gs[0];
    assert [a] + [g.name] == [a, g.name];
    if g.value.Struct? {
      EmitNothing(g.value.fields, paths, version, [a, g.name]);
    }
  }

  lemma {:induction false} EmitBelow(leafFails: bool, gs: seq<Field>, f: Field, schema: Value, data: Value,
                                     paths: seq<Path>, version: string)
    requires schema.Struct? && Distinct(schema.fields) && f in schema.fields && !Private(f)
    requires f.value.Struct? && Distinct(f.value.fields) && forall g :: g in gs ==> g in f.value.fields
    requires Lookup(data, [f.name]).None?
    requires Delta(leafFails, schema, data, []) == Some(paths)
    ensures Emit(gs, paths, version, [f.name]) == Public(gs, version)
  {
    if gs != [] {
      EmitBelow(leafFails, gs[1..], f, schema, data, paths, version);
      ChildReported(leafFails, f, gs[0], schema, data, paths);
      AllReported(leafFails, schema, data, paths);
      EmitOne(gs, paths, version, f.name);
    }
  }

  lemma LookupBelow(v: Value, a: string, b: string)
    requires Lookup(v, [a]).None?
    ensures Lookup(v, [a, b]).None?
  {
    if v.Struct? {
      var f := Find(v.fields, a);
      if f.Some? { assert Lookup(f.value.value, []).Some?; }
    }
  }

  /** generateDefaults emits exactly the completion. */
  lemma {:induction false} EmitExact(leafFails: bool, fs: seq<Field>, schema: Value, data: Value, paths: seq<Path>,
                                     version: string)
    requires WellFormed(schema) && schema.Struct? && forall f :: f in fs ==> f in schema.fields
    requires Delta(leafFails, schema, data, []) == Some(paths)
    ensures Emit(fs, paths, version, []) == Completion(fs, data, version)
  {
    if fs != [] {
      var f := fs[0];
      EmitExact(leafFails, fs[1..], schema, data, paths, version);
      assert [] + [f.name] == [f.name];
      RootReported(leafFails, f, schema, data, paths);
      if f.value.Struct? && !Private(f) && Lookup(data, [f.name]).None? {
        EmitBelow(leafFails, f.value.fields, f, schema, data, paths, version);
      }
    }
  }

  // ----- which values are read for them -----

  lemma {:induction false} LegibleDeep(hs: seq<Field>, paths: seq<Path>, parents: Path, unreadable: set<Path>)
    requires |parents| == 2 && forall p :: p in paths ==> Reported(p)
    ensures Legible(hs, paths, parents, unreadable)
  {
    if hs != [] {
      assert |parents + [hs[0].name]| == 3;
      LegibleDeep(hs[1..], paths, parents, unreadable);
    }
  }

  lemma {:induction false} LegibleBelow(leafFails: bool, gs: seq<Field>, f: Field, schema: Value, data: Value,
                                        paths: seq<Path>, unreadable: set<Path>)
    requires schema.Struct? && Distinct(schema.fields) && f in schema.fields && !Private(f)
    requires f.value.Struct? && Distinct(f.value.fields) && forall g :: g in gs ==> g in f.value.fields
    requires Lookup(data, [f.name]).None? && Delta(leafFails, schema, data, []) == Some(paths)
    ensures Legible(gs, paths, [f.name], unreadable) <==>
            forall g :: g in gs && !Private(g) ==> [f.name, g.name] !in unreadable
  {
    if gs != [] {
      var g := gs[0];
      LegibleBelow(leafFails, gs[1..], f, schema, data, paths, unreadable);
      ChildReported(leafFails, f, g, schema, data, paths);
      assert [f.name] + [g.name] == [f.name, g.name];
      if g.value.Struct? {
        AllReported(leafFails, schema, data, paths);
        LegibleDeep(g.value.fields, paths, [f.name, g.name], unreadable);
      }
      assert forall k :: k in gs <==> k == g || k in gs[1..];
    }
  }

  /** The missing root field f, and what is right below it, can be read. */
  predicate LegibleField(f: Field, unreadable: set<Path>) {
    && [f.name] !in unreadable
    && (f.value.Struct? ==> forall g :: g in f.value.fields && !Private(g) ==> [f.name, g.name] !in unreadable)
  }

  /** The emission fails exactly when the library fails on a missing root field that is not private,
      or on a field that is not private right below one. */
  lemma {:induction false} LegibleExact(leafFails: bool, fs: seq<Field>, schema: Value, data: Value, paths: seq<Path>,
                                        unreadable: set<Path>)
    requires WellFormed(schema) && schema.Struct? && forall f :: f in fs ==> f in schema.fields
    requires Delta(leafFails, schema, data, []) == Some(paths)
    ensures Legible(fs, paths, [], unreadable) <==>
            forall f :: f in fs && !Private(f) && Lookup(data, [f.name]).None? ==> LegibleField(f, unreadable)
  {
    if fs != [] {
      var f := fs[0];
      LegibleExact(leafFails, fs[1..], schema, data, paths, unreadable);
      RootReported(leafFails, f, schema, data, paths);
      assert [] + [f.name] == [f.name];
      if f.value.Struct? && !Private(f) && Lookup(data, [f.name]).None? {
        LegibleBelow(leafFails, f.value.fields, f, schema, data, paths, unreadable);
      }
      assert forall k :: k in fs <==> k == f || k in fs[1..];
    }
  }

  // ----- unification and the merge -----

  /** The meet of two values that are not both structs is the library's: None is a conflict. */
  type Meet = (Value, Value) -> Option<Value>

  /** Value.Unify: the fields of a, met with their namesakes in b, then the other fields of b. */
  function Unify(meet: Meet, a: Value, b: Value): Option<Value>
    decreases a, 1
  {
    if a.Struct? && b.Struct? then
      var common := UnifyFields(meet, a.fields, b.fields);
      if common.None? then None else Some(Struct(common.value + Others(b.fields, a.fields)))
    else meet(a, b)
  }

  function UnifyFields(meet: Meet, fs: seq<Field>, gs: seq<Field>): Option<seq<Field>>
    decreases fs, 0
  {
    if fs == [] then Some([])
    else
      var g := Find(gs, fs[0].name);
      var v := if g.None? then Some(fs[0].value) else Unify(meet, fs[0].value, g.value.value);
      var tail := UnifyFields(meet, fs[1..], gs);
      if v.None? || tail.None? then None
      else Some([fs[0].(value := v.value, attrs := fs[0].attrs + if g.None? then [] else g.value.attrs)] + tail.value)
  }

  /** The fields of gs whose labels do not occur in fs. */
  function Others(gs: seq<Field>, fs: seq<Field>): seq<Field> {
    if gs == [] then []
    else (if Find(fs, gs[0].name).None? then [gs[0]] else []) + Others(gs[1..], fs)
  }

  datatype MergeError = DeltaFailed | NoSchemaVersion | EmissionFailed | Invalid | ExportFailed

  /** What the library says of values: whether a leaf may not be asked for its fields, the paths it
      cannot read, and whether a merged value is valid and can be exported. */
  datatype Checks = Checks(
    leafFails: bool,
    unreadable: set<Path>,
    valid: Value -> bool,
    exports: Value -> bool)

  /** None is the error of a version that is missing, or is no string. */
  function SchemaVersion(schema: Value): Option<string>
    requires schema.Struct?
  {
    var f := Find(schema.fields, SCHEMA_VERSION);
    if f.None? || f.value.value.Struct? then None else f.value.value.text
  }

  /** A configuration is only ever completed: its own fields come out untouched, followed by
      the completion, and the meet of the library is never asked. */
  method Merge(meet: Meet, config: Value, schema: Value, checks: Checks) returns (r: Result<Value, MergeError>)
    requires config.Struct? && schema.Struct? && WellFormed(schema)
    ensures
      var delta := Delta(checks.leafFails, schema, config, []);
      r == if delta.None? then Err(DeltaFailed)
           else if SchemaVersion(schema).None? then Err(NoSchemaVersion)
           else if !Legible(schema.fields, delta.value, [], checks.unreadable) then Err(EmissionFailed)
           else if !checks.valid(Merged(config, schema)) then Err(Invalid)
           else if !checks.exports(Merged(config, schema)) then Err(ExportFailed)
           else Ok(Merged(config, schema))
  {
    var fields := FieldsDelta(checks.leafFails, schema, config, []);
    if fields.None? {
      return Err(DeltaFailed);
    }
    var version := SchemaVersion(schema);
    if version.None? {
      return Err(NoSchemaVersion);
    }
    var decls := MakeValues(schema.fields, fields.value, version.value, [], checks.unreadable);
    if decls.None? {
      return Err(EmissionFailed);
    }
    EmitExact(checks.leafFails, schema.fields, schema, config, fields.value, version.value);
    UnifyDisjoint(meet, config, schema, version.value);
    var v := Unify(meet, config, Struct(decls.value));
    // a conflict would make the unified value invalid
    if v.None? || !checks.valid(v.value) {
      return Err(Invalid);
    }
    if !checks.exports(v.value) {
      return Err(ExportFailed);
    }
    return Ok(v.value);
  }

  ghost function Merged(config: Value, schema: Value): Value
    requires config.Struct? && schema.Struct? && SchemaVersion(schema).Some?
  {
    Struct(config.fields + Completion(schema.fields, config, SchemaVersion(schema).value))
  }

  lemma CompletionMember(fs: seq<Field>, data: Value, version: string, name: string)
    ensures (exists c :: c in Completion(fs, data, version) && c.name == name) <==>
            Lookup(data, [name]).None? && exists f :: f in fs && f.name == name && !Private(f)
  {
    if fs != [] {
      CompletionMember(fs[1..], data, version, name);
      assert forall f :: f in fs <==> f == fs[0] || f in fs[1..];
      var head := CompletionField(fs[0], data, version);
      var tail := Completion(fs[1..], data, version);
      assert forall c :: c in head + tail <==> c in head || c in tail;
      if Lookup(data, [name]).None? && !Private(fs[0]) && fs[0].name == name {
        assert head[0] in head && head[0].name == name;
      }
    }
  }

  lemma Absent(data: Value, name: string)
    requires data.Struct?
    ensures Lookup(data, [name]).None? <==> Find(data.fields, name).None?
  {
    var f := Find(data.fields, name);
    if f.Some? { assert Lookup(f.value.value, []).Some?; }
  }

  lemma UnifyApart(meet: Meet, fs: seq<Field>, gs: seq<Field>)
    requires forall f :: f in fs ==> Find(gs, f.name).None?
    ensures UnifyFields(meet, fs, gs) == Some(fs)
  {
    if fs != [] {
      UnifyApart(meet, fs[1..], gs);
      assert fs[0] in fs && fs[0].attrs + [] == fs[0].attrs;
      assert fs[0].(value := fs[0].value, attrs := fs[0].attrs) == fs[0];
      assert [fs[0]] + fs[1..] == fs;
    }
  }

  lemma OthersAll(gs: seq<Field>, fs: seq<Field>)
    requires forall g :: g in gs ==> Find(fs, g.name).None?
    ensures Others(gs, fs) == gs
  {
  }

  lemma UnifyDisjoint(meet: Meet, config: Value, schema: Value, version: string)
    requires config.Struct? && schema.Struct?
    ensures var decls := Completion(schema.fields, config, version);
      && (forall c :: c in decls ==> Find(config.fields, c.name).None?)
      && Unify(meet, config, Struct(decls)) == Some(Struct(config.fields + decls))
  {
    var decls := Completion(schema.fields, config, version);
    forall c | c in decls ensures Find(config.fields, c.name).None? {
      CompletionMember(schema.fields, config, version, c.name);
      Absent(config, c.name);
    }
    UnifyApart(meet, config.fields, decls);
    OthersAll(decls, config.fields);
  }

  lemma FindConcat(fs: seq<Field>, gs: seq<Field>, name: string)
    ensures Find(fs + gs, name) == if Find(fs, name).Some? then Find(fs, name) else Find(gs, name)
  {
    if fs == [] {
      assert fs + gs == gs;
    } else {
      assert (fs + gs)[1..] == fs[1..] + gs;
      FindConcat(fs[1..], gs, name);
    }
  }

  /** Whatever path leads to a value in the configuration leads to the same value afterwards. */
  lemma MergeKeepsConfig(config: Value, schema: Value, p: Path)
    requires config.Struct? && schema.Struct? && SchemaVersion(schema).Some?
    requires p != [] && Lookup(config, p).Some?
    ensures Lookup(Merged(config, schema), p) == Lookup(config, p)
  {
    FindConcat(config.fields, Completion(schema.fields, config, SchemaVersion(schema).value), p[0]);
  }

  /** Every non-private root field of the schema is there afterwards. */
  lemma MergeCompletes(config: Value, schema: Value, f: Field)
    requires config.Struct? && schema.Struct? && SchemaVersion(schema).Some?
    requires f in schema.fields && !Private(f)
    ensures Lookup(Merged(config, schema), [f.name]).Some?
  {
    var cs := Completion(schema.fields, config, SchemaVersion(schema).value);
    FindConcat(config.fields, cs, f.name);
    CompletionMember(schema.fields, config, SchemaVersion(schema).value, f.name);
    Absent(config, f.name);
    Absent(Merged(config, schema), f.name);
  }

  lemma NothingLeft(fs: seq<Field>, data: Value, version: string)
    requires forall f :: f in fs && !Private(f) ==> Lookup(data, [f.name]).Some?
    ensures Completion(fs, data, version) == []
  {
  }

  /** Merging again with the same schema adds nothing. */
  lemma MergeIdempotent(config: Value, schema: Value)
    requires config.Struct? && schema.Struct? && SchemaVersion(schema).Some?
    ensures Merged(Merged(config, schema), schema) == Merged(config, schema)
  {
    var m := Merged(config, schema);
    forall f | f in schema.fields && !Private(f) ensures Lookup(m, [f.name]).Some? {
      MergeCompletes(config, schema, f);
    }
    NothingLeft(schema.fields, m, SchemaVersion(schema).value);
    assert m.fields + [] == m.fields;
  }

  /** Whether the delta can be computed at all depends on the schema alone. */
  lemma {:induction false} DeltaFailureBySchema(leafFails: bool, fs: seq<Field>, schema: Value, data: Value,
                                                data': Value, parents: Path)
    ensures DeltaFields(leafFails, fs, schema, data, parents).None? <==>
            DeltaFields(leafFails, fs, schema, data', parents).None?
    decreases schema, |fs|
  {
    if fs != [] {
      DeltaFailureBySchema(leafFails, fs[1..], schema, data, data', parents);
      var sel := parents + [fs[0].name];
      var x := Lookup(schema, sel);
      if x.Some? && x.value.Struct? {
        DeltaFailureBySchema(leafFails, x.value.fields, x.value, data, data', sel);
      }
      assert x.Some? ==> (Delta(leafFails, x.value, data, sel).None? <==> Delta(leafFails, x.value, data', sel).None?);
      assert DeltaField(leafFails, fs[0], schema, data, parents).None? <==>
             DeltaField(leafFails, fs[0], schema, data', parents).None?;
    }
  }

  /** If the library finds no fields in a leaf, the delta is computed for every schema, at any depth. */
  lemma {:induction false} NeverFails(schema: Value, data: Value, parents: Path)
    ensures Delta(false, schema, data, parents).Some?
    decreases schema, 1, 0
  {
    if schema.Struct? {
      NeverFailsFields(schema.fields, schema, data, parents);
    }
  }

  lemma {:induction false} NeverFailsFields(fs: seq<Field>, schema: Value, data: Value, parents: Path)
    ensures DeltaFields(false, fs, schema, data, parents).Some?
    decreases schema, 0, |fs|
  {
    if fs != [] {
      NeverFailsFields(fs[1..], schema, data, parents);
      var sel := parents + [fs[0].name];
      var x := Lookup(schema, sel);
      if x.Some? {
        NeverFails(x.value, data, sel);
      }
      assert DeltaField(false, fs[0], schema, data, parents).Some?;
    }
  }

  /** No root struct of the schema holds a struct under its own label. */
  predicate NoEcho(schema: Value)
    requires schema.Struct?
  {
    forall f :: f in schema.fields && !Private(f) && f.value.Struct? ==>
      var g := Find(f.value.fields, f.name); g.None? || g.value.value.Leaf?
  }

  lemma {:induction false} NoEchoBelow(leafFails: bool, gs: seq<Field>, f: Field, data: Value)
    requires f.value.Struct?
    requires var g := Find(f.value.fields, f.name); g.None? || g.value.value.Leaf?
    ensures DeltaFields(leafFails, gs, f.value, data, [f.name]).Some?
  {
    if gs != [] {
      NoEchoBelow(leafFails, gs[1..], f, data);
      var sel := [f.name] + [gs[0].name];
      assert sel[0] == f.name && sel[1..] == [gs[0].name];
    }
  }

  lemma {:induction false} NoEchoFields(leafFails: bool, fs: seq<Field>, schema: Value, data: Value)
    requires schema.Struct? && Distinct(schema.fields) && NoEcho(schema)
    requires forall f :: f in fs ==> f in schema.fields
    ensures DeltaFields(leafFails, fs, schema, data, []).Some?
  {
    if fs != [] {
      NoEchoFields(leafFails, fs[1..], schema, data);
      var f := fs[0];
      assert [] + [f.name] == [f.name];
      LookupField(schema, f);
      if !Private(f) && f.value.Struct? {
        NoEchoBelow(leafFails, f.value.fields, f, data);
        assert Delta(leafFails, f.value, data, [f.name]).Some?;
      }
      assert DeltaField(leafFails, f, schema, data, []).Some?;
    }
  }

  /** Unless a root struct echoes its own label, the delta is always computed. */
  lemma NoEchoSucceeds(leafFails: bool, schema: Value, data: Value)
    requires schema.Struct? && Distinct(schema.fields) && NoEcho(schema)
    ensures Delta(leafFails, schema, data, []).Some?
  {
    NoEchoFields(leafFails, schema.fields, schema, data);
  }

  /** Structs inside the structs of root structs hold leaves only. */
  predicate Shallow3(schema: Value)
    requires schema.Struct?
  {
    forall f, g, h ::
      f in schema.fields && f.value.Struct? && g in f.value.fields && g.value.Struct? && h in g.value.fields ==>
        h.value.Leaf?
  }

  /** The root struct f holds a struct under its own label, and in that a leaf under the label of
      a struct of f. */
  predicate Stumbles(f: Field) {
    && !Private(f) && f.value.Struct?
    && exists g :: g in f.value.fields && StumblesOver(f, g)
  }

  predicate StumblesOver(f: Field, g: Field)
    requires f.value.Struct?
  {
    && !Private(g) && g.value.Struct?
    && var echo := Find(f.value.fields, f.name);
       echo.Some? && echo.value.value.Struct? &&
       var x := Find(echo.value.value.fields, g.name); x.Some? && x.value.value.Leaf?
  }

  lemma StumbleField(f: Field, g: Field, data: Value)
    requires f.value.Struct?
    requires forall k, h :: k in f.value.fields && k.value.Struct? && h in k.value.fields ==> h.value.Leaf?
    ensures DeltaField(true, g, f.value, data, [f.name]).None? <==> StumblesOver(f, g)
  {
    var sel := [f.name] + [g.name];
    assert sel == [f.name, g.name] && sel[0] == f.name && sel[1..] == [g.name] && [g.name][1..] == [];
    var echo := Find(f.value.fields, f.name);
    if echo.Some? && echo.value.value.Struct? {
      var x := Find(echo.value.value.fields, g.name);
      if x.Some? {
        assert x.value.value.Leaf?;
        assert Lookup(echo.value.value, [g.name]) == Lookup(x.value.value, []) == Some(x.value.value);
        assert Lookup(f.value, sel) == Some(x.value.value);
      } else {
        assert Lookup(f.value, sel) == None;
      }
    } else {
      assert Lookup(f.value, sel) == None;
    }
  }

  lemma {:induction false} StumbleBelow(gs: seq<Field>, f: Field, data: Value)
    requires f.value.Struct?
    requires forall k, h :: k in f.value.fields && k.value.Struct? && h in k.value.fields ==> h.value.Leaf?
    ensures DeltaFields(true, gs, f.value, data, [f.name]).None? <==> exists g :: g in gs && StumblesOver(f, g)
  {
    if gs != [] {
      StumbleBelow(gs[1..], f, data);
      StumbleField(f, gs[0], data);
      assert forall k :: k in gs <==> k == gs[0] || k in gs[1..];
    }
  }

  lemma StumbleRoot(f: Field, schema: Value, data: Value)
    requires schema.Struct? && Distinct(schema.fields) && Shallow3(schema) && f in schema.fields
    ensures DeltaField(true, f, schema, data, []).None? <==> Stumbles(f)
  {
    assert [] + [f.name] == [f.name];
    LookupField(schema, f);
    if !Private(f) && f.value.Struct? {
      StumbleBelow(f.value.fields, f, data);
    }
  }

  lemma {:induction false} StumbleFields(fs: seq<Field>, schema: Value, data: Value)
    requires schema.Struct? && Distinct(schema.fields) && Shallow3(schema)
    requires forall f :: f in fs ==> f in schema.fields
    ensures DeltaFields(true, fs, schema, data, []).None? <==> exists f :: f in fs && Stumbles(f)
  {
    if fs != [] {
      StumbleRoot(fs[0], schema, data);
      StumbleFields(fs[1..], schema, data);
      assert forall k :: k in fs <==> k == fs[0] || k in fs[1..];
    }
  }

  /** For schemas of up to three levels the delta fails, whatever the configuration, exactly when
      the library refuses leaves and a root struct stumbles over an echo of its label. */
  lemma EchoExact(leafFails: bool, schema: Value, data: Value)
    requires schema.Struct? && Distinct(schema.fields) && Shallow3(schema)
    ensures Delta(leafFails, schema, data, []).None? <==> leafFails && exists f :: f in schema.fields && Stumbles(f)
  {
    if leafFails {
      StumbleFields(schema.fields, schema, data);
    } else {
      NeverFails(schema, data, []);
    }
  }

  /** With an echo the narrowed lookup can end in a leaf; if the library refuses that, no
      configuration can be merged. */
  lemma EchoFails(data: Value)
    ensures
      var leaf := Leaf("1", None, None);
      var a := Struct([Field("a", [], "", Struct([Field("b", [], "", leaf)])),
                       Field("b", [], "", Struct([Field("c", [], "", leaf)]))]);
      Delta(true, Struct([Field("a", [], "", a)]), data, []) == None
  {
    var leaf := Leaf("1", None, None);
    var aa := Field("a", [], "", Struct([Field("b", [], "", leaf)]));
    var ab := Field("b", [], "", Struct([Field("c", [], "", leaf)]));
    var a := Struct([aa, ab]);
    var schema := Struct([Field("a", [], "", a)]);
    assert [] + ["a"] == ["a"] && ["a"] + ["b"] == ["a", "b"];
    assert Lookup(schema, ["a"]) == Some(a) by { assert Lookup(a, []) == Some(a); }
    assert ["a", "b"][1..] == ["b"] && Find(a.fields, "a") == Some(aa);
    assert Lookup(a, ["a", "b"]) == Lookup(aa.value, ["b"]);
    assert Lookup(aa.value, ["b"]) == Some(leaf) by { assert Lookup(leaf, []) == Some(leaf); }
    assert DeltaField(true, ab, a, data, ["a"]) == None;
    assert DeltaFields(true, [ab], a, data, ["a"]) == None;
    assert a.fields[1..] == [ab];
    assert Delta(true, a, data, ["a"]) == None;
    assert DeltaField(true, schema.fields[0], schema, data, []) == None;
  }

  // ----- how deep the completion reaches -----

  /** The fields below f that a full completion would give it. */
  function Full(gs: seq<Field>, version: string): seq<Field>
    decreases gs
  {
    if gs == [] then []
    else
      (if Private(gs[0]) then []
       else [EmitField(gs[0], if gs[0].value.Leaf? then EmitLeaf(gs[0].value)
                              else Struct(Full(gs[0].value.fields, version)), version)]) +
      Full(gs[1..], version)
  }

  /** The field is private or a leaf, or all fields below it are private. */
  predicate Shallow(g: Field) {
    Private(g) || g.value.Leaf? || forall h :: h in g.value.fields ==> Private(h)
  }

  /** A missing root struct is restored in full exactly when no struct inside it has fields
      that are not private. */
  lemma {:induction false} RestoredInFull(gs: seq<Field>, version: string)
    ensures |Public(gs, version)| == |Full(gs, version)|
    ensures Public(gs, version) == Full(gs, version) <==> forall g :: g in gs ==> Shallow(g)
    decreases gs
  {
    if gs != [] {
      RestoredInFull(gs[1..], version);
      assert forall g :: g in gs <==> g == gs[0] || g in gs[1..];
      var g := gs[0];
      if !Private(g) {
        var p, q := Public(gs, version), Full(gs, version);
        assert p[1..] == Public(gs[1..], version) && q[1..] == Full(gs[1..], version);
        assert p == [p[0]] + p[1..] && q == [q[0]] + q[1..];
        if g.value.Struct? { FullEmpty(g.value.fields, version); }
        assert p[0] == q[0] <==> Shallow(g);
      } else {
        assert Public(gs, version) == Public(gs[1..], version) && Full(gs, version) == Full(gs[1..], version);
      }
    }
  }

  lemma {:induction false} FullEmpty(hs: seq<Field>, version: string)
    ensures Full(hs, version) == [] <==> forall h :: h in hs ==> Private(h)
  {
    if hs != [] {
      FullEmpty(hs[1..], version);
      assert forall h :: h in hs <==> h == hs[0] || h in hs[1..];
    }
  }

  /** An empty configuration merged with a schema that has a struct in a root struct: the inner one
      comes out empty. */
  lemma InnerStructEmpty()
    ensures
      var leaf := Leaf("1", None, None);
      var a := Struct([Field("b", [], "", Struct([Field("c", [], "", leaf)]))]);
      var schema := Struct([Field(SCHEMA_VERSION, [], "", Leaf("v1", None, Some("v1"))), Field("a", [], "", a)]);
      && SchemaVersion(schema).Some?
      && Lookup(schema, ["a", "b"]) != Some(Struct([]))
      && Lookup(Merged(Struct([]), schema), ["a", "b"]) == Some(Struct([]))
  {
    var leaf := Leaf("1", None, None);
    var b := Field("b", [], "", Struct([Field("c", [], "", leaf)]));
    var fa := Field("a", [], "", Struct([b]));
    var fs := [Field(SCHEMA_VERSION, [], "", Leaf("v1", None, Some("v1"))), fa];
    var schema, empty := Struct(fs), Struct([]);
    assert Find(fs, SCHEMA_VERSION) == Some(fs[0]);
    assert Find(fs[1..], "a") == Some(fa) && Find(fs, "a") == Some(fa);
    LookupTwo(schema, "a", "b", fa, b);
    assert b.value.fields == [Field("c", [], "", leaf)];
    var v := SchemaVersion(schema).value;
    var eb := EmitField(b, Struct([]), v);
    assert [b][1..] == [] && Public([b], v) == [eb] + Public([b][1..], v) == [eb];
    var ea := EmitField(fa, Struct([eb]), v);
    assert CompletionField(fa, empty, v) == [ea];
    var cs := Completion(fs, empty, v);
    assert Completion(fs[1..], empty, v) == [ea] + Completion(fs[1..][1..], empty, v) == [ea];
    assert cs == CompletionField(fs[0], empty, v) + [ea];
    assert cs[0].name == SCHEMA_VERSION && cs[1..] == [ea];
    assert empty.fields + cs == cs;
    assert Find(cs, "a") == Some(ea);
    LookupTwo(Merged(empty, schema), "a", "b", ea, eb);
  }

  /** The schema of that example is well formed. */
  lemma InnerStructWellFormed()
    ensures
      var leaf := Leaf("1", None, None);
      var a := Struct([Field("b", [], "", Struct([Field("c", [], "", leaf)]))]);
      WellFormed(Struct([Field(SCHEMA_VERSION, [], "", Leaf("v1", None, Some("v1"))), Field("a", [], "", a)]))
  {
    assert SCHEMA_VERSION[0] != "a"[0];
    var b := Struct([Field("c", [], "", Leaf("1", None, None))]);
    assert WellFormed(b) && WellFormed(Struct([Field("b", [], "", b)]));
  }

  lemma LookupTwo(v: Value, a: string, b: string, f: Field, g: Field)
    requires v.Struct? && Find(v.fields, a) == Some(f) && f.value.Struct? && Find(f.value.fields, b) == Some(g)
    ensures Lookup(v, [a, b]) == Some(g.value)
  {
    assert [a, b][1..] == [b] && [b][1..] == [];
    assert Lookup(f.value, [b]) == Lookup(g.value, []);
  }
}
