/** The whole product, said of its parts: when there is one, and what it holds
    (controllers/productdeploymentgenerator_controller.go, createProductDeployment). */
module ProductExact {
  import opened Wrappers
  import opened Sweep
  import opened CueFile
  import opened Product

  /** The pipeline can be scheduled, and its schema, if it names one, can be read. */
  predicate Fine(d: Description, rs: Resources, q: PipelineDescription) {
    && q.targetRoleName != "" && (exists r :: r in d.roles && r.name == q.targetRoleName)
    && (q.schema == "" || rs(q.schema).Some?)
  }

  /** The pipeline has its description's name and the target of the first role of the name it asks for. */
  predicate MadeFrom(d: Description, q: PipelineDescription, m: Pipeline) {
    && m.name == q.name
    && exists j :: 0 <= j < |d.roles| && FirstNamed(d.roles, j, q.targetRoleName) && m.role == d.roles[j].target
  }

  predicate FirstNamed(roles: seq<Role>, j: nat, name: string)
    requires j < |roles|
  {
    roles[j].name == name && forall i :: 0 <= i < j ==> roles[i].name != name
  }

  lemma FineExact(d: Description, rs: Resources, q: PipelineDescription)
    ensures Fine(d, rs, q) <==> Good(d, rs, q)
  {
  }

  lemma MadeExact(d: Description, q: PipelineDescription, m: Pipeline)
    requires Schedulable(d, q)
    ensures MadeFrom(d, q, m) <==> m == Made(d, q)
  {
    var k := RoleFound(d.roles, q.targetRoleName);
    FirstRoleAt(d.roles, q.targetRoleName, k);
    assert FirstNamed(d.roles, k, q.targetRoleName);
    if MadeFrom(d, q, m) {
      var j :| 0 <= j < |d.roles| && FirstNamed(d.roles, j, q.targetRoleName) && m.role == d.roles[j].target;
      FirstRoleAt(d.roles, q.targetRoleName, j);
    }
  }

  lemma {:induction false} PipelinesAt(d: Description, ps: seq<PipelineDescription>)
    ensures |PipelinesOf(d, ps)| == |ps|
    ensures forall k :: 0 <= k < |ps| ==> PipelinesOf(d, ps)[k] == Made(d, ps[k])
  {
    if ps != [] {
      PipelinesAt(d, ps[..|ps| - 1]);
    }
  }

  /** A pipeline contributes the schema it names, if it names one. */
  lemma SchemasOne(rs: Resources, q: PipelineDescription)
    ensures SchemasOf(rs, [q]) == if q.schema != "" && rs(q.schema).Some? then [rs(q.schema).value] else []
  {
    assert [q][..0] == [] && SchemasOf(rs, [q]) == SchemasOf(rs, [q][..0]) + SchemaOf(rs, q);
  }

  lemma Regroup<T>(a: seq<T>, b: seq<T>, c: seq<T>)
    ensures a + b + c == a + (b + c)
  {
  }

  lemma SchemasSnoc(rs: Resources, ps: seq<PipelineDescription>, q: PipelineDescription)
    ensures SchemasOf(rs, ps + [q]) == SchemasOf(rs, ps) + SchemaOf(rs, q)
  {
    assert (ps + [q])[..|ps|] == ps;
  }

  /** The schemas of several pipelines come in the order of the pipelines. */
  lemma {:induction false} SchemasConcat(rs: Resources, ps: seq<PipelineDescription>, qs: seq<PipelineDescription>)
    ensures SchemasOf(rs, ps + qs) == SchemasOf(rs, ps) + SchemasOf(rs, qs)
    decreases |qs|
  {
    if qs == [] {
      assert ps + qs == ps && SchemasOf(rs, ps) + [] == SchemasOf(rs, ps);
    } else {
      var front, last := qs[..|qs| - 1], qs[|qs| - 1];
      SchemasConcat(rs, ps, front);
      SchemasSnoc(rs, ps + front, last);
      SchemasSnoc(rs, front, last);
      assert qs == front + [last];
      Regroup(ps, front, [last]);
      Regroup(SchemasOf(rs, ps), SchemasOf(rs, front), SchemaOf(rs, last));
    }
  }

  // ----- the files -----

  /** A single schema is taken as it is; several are met, the first with the others. */
  predicate UnifiedTo(lib: Library, ss: seq<seq<Node>>, schema: seq<Node>) {
    (|ss| == 1 && schema == ss[0]) || (|ss| > 1 && lib.meet(ss[0], ss[1..]) == Some(schema))
  }

  /** The first configuration is the schema, evaluated, swept and sanitized. */
  predicate FirstConfig(lib: Library, schema: seq<Node>, config: seq<Node>) {
    && lib.final(schema).Some? && Sweep.Sweep(lib.final(schema).value).Some?
    && lib.sanitize(Sweep.Sweep(lib.final(schema).value).value) == Some(config)
  }

  /** A later one is the configuration in the repository, completed by the schema, evaluated and sanitized. */
  predicate NextConfig(lib: Library, existing: seq<Node>, schema: seq<Node>, config: seq<Node>) {
    && lib.complete(existing, schema).Some? && lib.plain(lib.complete(existing, schema).value).Some?
    && lib.sanitize(lib.plain(lib.complete(existing, schema).value).value) == Some(config)
  }

  /** From the unified schema come the configuration and the schema that are stored. */
  predicate Comes(lib: Library, unified: seq<Node>, existing: Existing, config: seq<Node>, stored: seq<Node>) {
    match existing
    case FetchFailed => false
    case Absent => FirstConfig(lib, unified, config) && stored == config
    case Present(c) => NextConfig(lib, c, unified, config) && stored == unified
  }

  /** The product is put together from these. */
  predicate Holds(lib: Library, d: Description, rs: Resources, existing: Existing, disk: Disk, p: ProductDeployment,
                  unified: seq<Node>, config: seq<Node>, stored: seq<Node>)
  {
    && UnifiedTo(lib, SchemasOf(rs, d.pipelines), unified)
    && Comes(lib, unified, existing, config, stored)
    && lib.valid(config, stored) && disk.configOk && disk.readmeOk
    && lib.format(config) == Some(p.config) && lib.format(stored) == Some(p.schema)
  }

  predicate AllMade(d: Description, p: ProductDeployment) {
    && |p.pipelines| == |d.pipelines|
    && forall k :: 0 <= k < |d.pipelines| ==> MadeFrom(d, d.pipelines[k], p.pipelines[k])
  }

  lemma ConfiguredExact(lib: Library, unified: seq<Node>, existing: Existing, config: seq<Node>, stored: seq<Node>)
    ensures Comes(lib, unified, existing, config, stored) <==>
            Configured(lib, unified, existing) == Ok((config, stored))
  {
  }

  lemma UnifiedExact(lib: Library, ss: seq<seq<Node>>, schema: seq<Node>)
    ensures UnifiedTo(lib, ss, schema) <==> Unified(lib, ss) == Some(schema)
  {
  }

  lemma {:induction false} PipelinesExact(d: Description, rs: Resources, p: ProductDeployment)
    requires forall q :: q in d.pipelines ==> Good(d, rs, q)
    ensures AllMade(d, p) <==> p.pipelines == PipelinesOf(d, d.pipelines)
  {
    PipelinesAt(d, d.pipelines);
    if |p.pipelines| == |d.pipelines| {
      forall k | 0 <= k < |d.pipelines|
        ensures MadeFrom(d, d.pipelines[k], p.pipelines[k]) <==> p.pipelines[k] == Made(d, d.pipelines[k])
      {
        assert d.pipelines[k] in d.pipelines;
        MadeExact(d, d.pipelines[k], p.pipelines[k]);
      }
    }
  }

  /** A product comes out exactly if every pipeline is fine, the schemas can be unified, the configuration
      made from them, validated, formatted and written, and the schema formatted; and it holds just
      these pipelines, this configuration and this schema. */
  lemma {:induction false} ProductMade(lib: Library, d: Description, rs: Resources, existing: Existing, disk: Disk,
                                       p: ProductDeployment)
    ensures ProductOf(lib, d, rs, existing, disk) == Ok(p) <==>
            && (forall q :: q in d.pipelines ==> Fine(d, rs, q))
            && AllMade(d, p)
            && exists unified, config, stored :: Holds(lib, d, rs, existing, disk, p, unified, config, stored)
  {
    NoError(d, rs, d.pipelines);
    forall q { FineExact(d, rs, q); }
    if forall q :: q in d.pipelines ==> Good(d, rs, q) {
      PipelinesExact(d, rs, p);
      var ss := SchemasOf(rs, d.pipelines);
      if ProductOf(lib, d, rs, existing, disk) == Ok(p) {
        var unified := Unified(lib, ss).value;
        var (config, stored) := Configured(lib, unified, existing).value;
        UnifiedExact(lib, ss, unified);
        ConfiguredExact(lib, unified, existing, config, stored);
        assert Holds(lib, d, rs, existing, disk, p, unified, config, stored);
      }
      if unified, config, stored :| Holds(lib, d, rs, existing, disk, p, unified, config, stored) {
        UnifiedExact(lib, ss, unified);
        ConfiguredExact(lib, unified, existing, config, stored);
        if AllMade(d, p) {
          assert ProductOf(lib, d, rs, existing, disk) ==
                 Written(lib, PipelinesOf(d, d.pipelines), config, stored, disk);
        }
      }
    }
  }
}
