/** What a merge adds to a configuration, said of the merged value itself: which fields, in which
    order, with which values, attributes and comments (internal/cue/cue.go, makeValues). */
module SchemaEmitted {
  import opened Wrappers
  import opened SchemaDelta
  import opened SchemaMerge

  /** The schema's version is the string at #SchemaVersion. */
  predicate VersionIs(schema: Value, version: string) {
    var v := Lookup(schema, ["#SchemaVersion"]);
    v.Some? && v.value.Leaf? && v.value.text == Some(version)
  }

  lemma LookupOne(v: Value, name: string)
    requires v.Struct?
    ensures Lookup(v, [name]) == if Find(v.fields, name).None? then None else Some(Find(v.fields, name).value.value)
  {
    var f := Find(v.fields, name);
    if f.Some? { assert [name][1..] == [] && Lookup(f.value.value, []) == Some(f.value.value); }
  }

  /** A merge finds the version exactly if there is a string at #SchemaVersion. */
  lemma VersionExact(schema: Value)
    requires schema.Struct?
    ensures forall v :: SchemaVersion(schema) == Some(v) <==> VersionIs(schema, v)
  {
    LookupOne(schema, "#SchemaVersion");
  }

  /** No attribute of the field says that it is private. */
  predicate Shown(f: Field) {
    forall a :: a in f.attrs ==> a.name != "private"
  }

  /** The schema shows the root field f, and the configuration has none of that label. */
  predicate Missing(config: Value, f: Field) {
    Shown(f) && Lookup(config, [f.name]).None?
  }

  // ----- one emitted field -----

  /** The same label and comments; the attributes, one by one, with the schema version added. */
  predicate Copied(f: Field, e: Field, version: string) {
    && e.name == f.name && e.doc == f.doc && |e.attrs| == |f.attrs|
    && forall i :: 0 <= i < |f.attrs| ==>
         && e.attrs[i].name == f.attrs[i].name
         && e.attrs[i].contents == f.attrs[i].contents + ",schema_version=\"" + version + "\""
  }

  /** The default if there is one, and otherwise the value as it stands. */
  predicate Settled(l: Value, v: Value) {
    && l.Leaf? && v.Leaf? && v.default.None? && v.text == l.text
    && (l.default.Some? ==> v.syntax == l.default.value)
    && (l.default.None? ==> v.syntax == l.syntax)
  }

  /** The declaration e made for the field g right below a missing root struct. */
  predicate MadeBelow(g: Field, e: Field, version: string) {
    && Copied(g, e, version)
    && (g.value.Leaf? ==> Settled(g.value, e.value))
    && (g.value.Struct? ==> e.value == Struct([]))
  }

  /** The declarations es are made for the shown fields among gs: for each of them, and in their order. */
  ghost predicate AllMade(gs: seq<Field>, es: seq<Field>, version: string) {
    && (forall e :: e in es ==> exists g :: g in gs && Shown(g) && g.name == e.name)
    && (forall g :: g in gs && Shown(g) ==> Find(es, g.name).Some? && MadeBelow(g, Find(es, g.name).value, version))
    && Ordered(gs, es)
  }

  /** The fields of es come in the order of their namesakes in gs. */
  ghost predicate Ordered(gs: seq<Field>, es: seq<Field>) {
    forall i, j :: 0 <= i < j < |es| ==> Ahead(gs, es[i].name, es[j].name)
  }

  ghost predicate Ahead(gs: seq<Field>, a: string, b: string) {
    exists i, j :: 0 <= i < j < |gs| && gs[i].name == a && gs[j].name == b
  }

  /** The declaration e made for the missing root field f. */
  ghost predicate Made(f: Field, e: Field, version: string) {
    && Copied(f, e, version)
    && (f.value.Leaf? ==> Settled(f.value, e.value))
    && (f.value.Struct? ==> e.value.Struct? && AllMade(f.value.fields, e.value.fields, version))
  }

  lemma AheadTail(g: Field, gs: seq<Field>, a: string, b: string)
    requires Ahead(gs, a, b)
    ensures Ahead([g] + gs, a, b)
  {
    var i, j :| 0 <= i < j < |gs| && gs[i].name == a && gs[j].name == b;
    assert ([g] + gs)[i + 1] == gs[i] && ([g] + gs)[j + 1] == gs[j];
  }

  lemma AheadHead(g: Field, gs: seq<Field>, b: Field)
    requires b in gs
    ensures Ahead([g] + gs, g.name, b.name)
  {
    var j :| 0 <= j < |gs| && gs[j] == b;
    assert ([g] + gs)[0] == g && ([g] + gs)[j + 1] == b;
  }

  /** One more declaration in front, or none. */
  lemma {:induction false} OrderedMore(g: Field, gs: seq<Field>, head: seq<Field>, es: seq<Field>)
    requires Ordered(gs, es) && forall e :: e in es ==> exists f :: f in gs && f.name == e.name
    requires head == [] || (|head| == 1 && head[0].name == g.name)
    ensures Ordered([g] + gs, head + es)
  {
    var w := head + es;
    forall i, j | 0 <= i < j < |w| ensures Ahead([g] + gs, w[i].name, w[j].name) {
      if i < |head| {
        assert w[j] in es;
        var f :| f in gs && f.name == w[j].name;
        AheadHead(g, gs, f);
      } else {
        assert w[i] == es[i - |head|] && w[j] == es[j - |head|];
        AheadTail(g, gs, w[i].name, w[j].name);
      }
    }
  }

  lemma ShownExact(f: Field)
    ensures Shown(f) <==> !Private(f)
  {
  }

  lemma {:induction false} PublicNames(gs: seq<Field>, version: string)
    ensures forall e :: e in Public(gs, version) ==> exists g :: g in gs && Shown(g) && g.name == e.name
  {
    if gs != [] {
      PublicNames(gs[1..], version);
      ShownExact(gs[0]);
      forall e | e in Public(gs, version) ensures exists g :: g in gs && Shown(g) && g.name == e.name {
        if e in Public(gs[1..], version) {
          var g :| g in gs[1..] && Shown(g) && g.name == e.name;
          assert g in gs;
        } else {
          assert gs[0] in gs && Shown(gs[0]) && gs[0].name == e.name;
        }
      }
    }
  }

  lemma {:induction false} PublicOrdered(gs: seq<Field>, version: string)
    ensures Ordered(gs, Public(gs, version))
  {
    if gs != [] {
      PublicOrdered(gs[1..], version);
      PublicNames(gs[1..], version);
      var tail := Public(gs[1..], version);
      var head := if Private(gs[0]) then [] else [Public(gs, version)[0]];
      assert Public(gs, version) == head + tail && [gs[0]] + gs[1..] == gs;
      OrderedMore(gs[0], gs[1..], head, tail);
    }
  }

  lemma {:induction false} PublicMade(gs: seq<Field>, version: string, g: Field)
    requires Distinct(gs) && g in gs && Shown(g)
    ensures var e := Find(Public(gs, version), g.name); e.Some? && MadeBelow(g, e.value, version)
  {
    ShownExact(gs[0]);
    if g == gs[0] {
      assert Public(gs, version)[0].name == g.name;
    } else {
      assert gs[0].name != g.name by {
        var j :| 0 <= j < |gs| && gs[j] == g;
        assert gs[0].name != gs[j].name;
      }
      assert g in gs[1..];
      PublicMade(gs[1..], version, g);
      assert !Private(gs[0]) ==> Public(gs, version)[1..] == Public(gs[1..], version);
      assert Private(gs[0]) ==> Public(gs, version) == Public(gs[1..], version);
    }
  }

  lemma {:induction false} PublicAll(gs: seq<Field>, version: string)
    requires Distinct(gs)
    ensures AllMade(gs, Public(gs, version), version)
  {
    PublicNames(gs, version);
    PublicOrdered(gs, version);
    forall g | g in gs && Shown(g)
      ensures Find(Public(gs, version), g.name).Some? && MadeBelow(g, Find(Public(gs, version), g.name).value, version)
    {
      PublicMade(gs, version, g);
    }
  }

  lemma {:induction false} FieldMade(f: Field, data: Value, version: string)
    requires WellFormed(f.value) && Missing(data, f)
    ensures var c := CompletionField(f, data, version); |c| == 1 && Made(f, c[0], version)
  {
    ShownExact(f);
    if f.value.Struct? { PublicAll(f.value.fields, version); }
  }

  lemma {:induction false} CompletionMade(fs: seq<Field>, data: Value, version: string, f: Field)
    requires Distinct(fs) && f in fs && WellFormed(f.value) && Missing(data, f)
    ensures var e := Find(Completion(fs, data, version), f.name); e.Some? && Made(f, e.value, version)
  {
    if f == fs[0] {
      FieldMade(f, data, version);
      assert Completion(fs, data, version)[0] == CompletionField(f, data, version)[0];
    } else {
      assert fs[0].name != f.name by {
        var j :| 0 <= j < |fs| && fs[j] == f;
        assert fs[0].name != fs[j].name;
      }
      assert f in fs[1..];
      CompletionMade(fs[1..], data, version, f);
      FindConcat(CompletionField(fs[0], data, version), Completion(fs[1..], data, version), f.name);
    }
  }

  lemma {:induction false} CompletionOrdered(fs: seq<Field>, data: Value, version: string)
    ensures Ordered(fs, Completion(fs, data, version))
  {
    if fs != [] {
      CompletionOrdered(fs[1..], data, version);
      forall e | e in Completion(fs[1..], data, version) ensures exists f :: f in fs[1..] && f.name == e.name {
        CompletionMember(fs[1..], data, version, e.name);
      }
      assert [fs[0]] + fs[1..] == fs;
      OrderedMore(fs[0], fs[1..], CompletionField(fs[0], data, version), Completion(fs[1..], data, version));
    }
  }

  // ----- the merged value -----

  /** Every root field that the schema shows and the configuration lacks is in the merged value, made as
      it should be; and so is what is shown right below it. */
  lemma MergeEmits(config: Value, schema: Value, version: string, f: Field)
    requires config.Struct? && schema.Struct? && WellFormed(schema) && VersionIs(schema, version)
    requires f in schema.fields && Missing(config, f)
    ensures SchemaVersion(schema).Some?
    ensures var m := Merged(config, schema);
      && Find(m.fields, f.name).Some? && Made(f, Find(m.fields, f.name).value, version)
      && (f.value.Leaf? ==>
            Lookup(m, [f.name]).Some? && Settled(f.value, Lookup(m, [f.name]).value))
      && (f.value.Struct? ==> forall g :: g in f.value.fields && Shown(g) && g.value.Leaf? ==>
            Lookup(m, [f.name, g.name]).Some? && Settled(g.value, Lookup(m, [f.name, g.name]).value))
  {
    VersionExact(schema);
    var m := Merged(config, schema);
    CompletionMade(schema.fields, config, version, f);
    Absent(config, f.name);
    FindConcat(config.fields, Completion(schema.fields, config, version), f.name);
    LookupOne(m, f.name);
    var e := Find(m.fields, f.name).value;
    if f.value.Struct? {
      forall g | g in f.value.fields && Shown(g) && g.value.Leaf?
        ensures Lookup(m, [f.name, g.name]).Some? && Settled(g.value, Lookup(m, [f.name, g.name]).value)
      {
        LookupTwo(m, f.name, g.name, e, Find(e.value.fields, g.name).value);
      }
    }
  }

  /** The configuration comes first, as it is; behind it are only fields that the schema shows and the
      configuration lacks, in the order of the schema. */
  lemma MergeAdds(config: Value, schema: Value)
    requires config.Struct? && schema.Struct? && WellFormed(schema) && SchemaVersion(schema).Some?
    ensures var m := Merged(config, schema);
      && config.fields <= m.fields
      && var added := m.fields[|config.fields|..];
         && (forall e :: e in added ==> exists f :: f in schema.fields && f.name == e.name && Missing(config, f))
         && Ordered(schema.fields, added)
  {
    var version := SchemaVersion(schema).value;
    var m, cs := Merged(config, schema), Completion(schema.fields, config, version);
    assert m.fields[|config.fields|..] == cs;
    CompletionOrdered(schema.fields, config, version);
    forall e | e in cs ensures exists f :: f in schema.fields && f.name == e.name && Missing(config, f) {
      CompletionMember(schema.fields, config, version, e.name);
      var f :| f in schema.fields && f.name == e.name && !Private(f);
      ShownExact(f);
    }
  }
}
