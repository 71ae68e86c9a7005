/** The ProductDeployment that the generator builds from a product description
    (controllers/productdeploymentgenerator_controller.go, createProductDeployment and
    createProductPipeline), with the schema and configuration files it works on in place. */
module Product {
  import opened Wrappers
  import opened Sweep
  import opened CueFile
  import X = SweepExact

  datatype Role = Role(name: string, target: string)

  /** schema names the resource with the pipeline's schema; it may be empty. */
  datatype PipelineDescription = PipelineDescription(name: string, targetRoleName: string, schema: string)

  datatype Description = Description(pipelines: seq<PipelineDescription>, roles: seq<Role>)

  datatype Pipeline = Pipeline(name: string, role: string)

  /** The parsed schema of a resource; None when it cannot be fetched or parsed. */
  type Resources = string -> Option<seq<Node>>

  /** The configuration file in the project's repository, if it could be looked for. */
  datatype Existing = FetchFailed | Absent | Present(config: seq<Node>)

  datatype Error = Unschedulable | Failed | Crashed

  /** Whether config.cue and README.md can be written, in that order. */
  datatype Disk = Disk(configOk: bool, readmeOk: bool)

  datatype ProductDeployment = ProductDeployment(pipelines: seq<Pipeline>, schema: string, config: string)

  function FirstRole(roles: seq<Role>, name: string): (r: Option<string>)
    ensures r.None? <==> forall x :: x in roles ==> x.name != name
  {
    if roles == [] then None
    else if roles[0].name == name then Some(roles[0].target)
    else FirstRole(roles[1..], name)
  }

  lemma {:induction false} FirstRoleAt(roles: seq<Role>, name: string, k: nat)
    requires k < |roles| && roles[k].name == name && forall j :: 0 <= j < k ==> roles[j].name != name
    ensures FirstRole(roles, name) == Some(roles[k].target)
  {
    if k > 0 {
      FirstRoleAt(roles[1..], name, k - 1);
    }
  }

  // ----- one pipeline -----

  predicate Schedulable(d: Description, p: PipelineDescription) {
    p.targetRoleName != "" && FirstRole(d.roles, p.targetRoleName).Some?
  }

  predicate Readable(rs: Resources, p: PipelineDescription) {
    p.schema == "" || rs(p.schema).Some?
  }

  predicate Good(d: Description, rs: Resources, p: PipelineDescription) {
    Schedulable(d, p) && Readable(rs, p)
  }

  function ErrorOf(d: Description, rs: Resources, p: PipelineDescription): Error {
    if Schedulable(d, p) then Failed else Unschedulable
  }

  /** The error of the first pipeline that has one. */
  function FirstError(d: Description, rs: Resources, ps: seq<PipelineDescription>): Option<Error> {
    if ps == [] then None
    else if !Good(d, rs, ps[0]) then Some(ErrorOf(d, rs, ps[0]))
    else FirstError(d, rs, ps[1..])
  }

  function RoleOf(roles: seq<Role>, name: string): string {
    var r := FirstRole(roles, name);
    if r.Some? then r.value else ""
  }

  /** The pipeline made from a description that can be scheduled. */
  function Made(d: Description, p: PipelineDescription): Pipeline {
    Pipeline(p.name, RoleOf(d.roles, p.targetRoleName))
  }

  function PipelinesOf(d: Description, ps: seq<PipelineDescription>): seq<Pipeline> {
    if ps == [] then [] else PipelinesOf(d, ps[..|ps| - 1]) + [Made(d, ps[|ps| - 1])]
  }

  /** The schema that a readable description contributes, if any. */
  function SchemaOf(rs: Resources, p: PipelineDescription): seq<seq<Node>> {
    if p.schema == "" || rs(p.schema).None? then [] else [rs(p.schema).value]
  }

  function SchemasOf(rs: Resources, ps: seq<PipelineDescription>): seq<seq<Node>> {
    if ps == [] then [] else SchemasOf(rs, ps[..|ps| - 1]) + SchemaOf(rs, ps[|ps| - 1])
  }

  lemma {:induction false} OneMore(d: Description, rs: Resources, ps: seq<PipelineDescription>, k: nat)
    requires k < |ps|
    ensures PipelinesOf(d, ps[..k + 1]) == PipelinesOf(d, ps[..k]) + [Made(d, ps[k])]
    ensures SchemasOf(rs, ps[..k + 1]) == SchemasOf(rs, ps[..k]) + SchemaOf(rs, ps[k])
  {
    assert ps[..k + 1][..k] == ps[..k];
  }

  // ----- the whole product, as a function -----

  function Unified(lib: Library, schemas: seq<seq<Node>>): Option<seq<Node>> {
    if schemas == [] then None
    else if |schemas| > 1 then lib.meet(schemas[0], schemas[1..])
    else Some(schemas[0])
  }

  /** The configuration and, in the same turn, the schema: the first configuration of a product is
      made from the schema file itself. */
  function Configured(lib: Library, schema: seq<Node>, existing: Existing): Result<(seq<Node>, seq<Node>), Error> {
    match existing
    case FetchFailed => Err(Failed)
    case Absent =>
      if lib.final(schema).None? then Err(Failed)
      else
        var swept := Sweep.Sweep(lib.final(schema).value);
        if swept.None? then Err(Crashed)
        else if lib.sanitize(swept.value).None? then Err(Failed)
        else Ok((lib.sanitize(swept.value).value, lib.sanitize(swept.value).value))
    case Present(config) =>
      var merged := lib.complete(config, schema);
      if merged.None? || lib.plain(merged.value).None? then Err(Failed)
      else
        var c := lib.sanitize(lib.plain(merged.value).value);
        if c.None? then Err(Failed) else Ok((c.value, schema))
  }

  const WRITABLE := Disk(true, true)

  function Written(lib: Library, pipelines: seq<Pipeline>, config: seq<Node>, schema: seq<Node>, disk: Disk)
    : Result<ProductDeployment, Error>
  {
    if lib.valid(config, schema) && lib.format(config).Some? && disk == WRITABLE && lib.format(schema).Some?
    then Ok(ProductDeployment(pipelines, lib.format(schema).value, lib.format(config).value))
    else Err(Failed)
  }

  function ProductOf(lib: Library, d: Description, rs: Resources, existing: Existing, disk: Disk)
    : Result<ProductDeployment, Error>
  {
    var first := FirstError(d, rs, d.pipelines);
    if first.Some? then Err(first.value)
    else
      var schema := Unified(lib, SchemasOf(rs, d.pipelines));
      if schema.None? then Err(Failed)
      else
        var c := Configured(lib, schema.value, existing);
        if c.Err? then Err(c.error)
        else
          Written(lib, PipelinesOf(d, d.pipelines), c.value.0, c.value.1, disk)
  }

  lemma {:induction false} NoError(d: Description, rs: Resources, ps: seq<PipelineDescription>)
    ensures FirstError(d, rs, ps).None? <==> forall p :: p in ps ==> Good(d, rs, p)
  {
    if ps != [] {
      NoError(d, rs, ps[1..]);
      assert ps == [ps[0]] + ps[1..];
    }
  }

  lemma {:induction false} ErrorAt(d: Description, rs: Resources, ps: seq<PipelineDescription>, k: nat)
    requires k < |ps| && !Good(d, rs, ps[k]) && forall j :: 0 <= j < k ==> Good(d, rs, ps[j])
    ensures FirstError(d, rs, ps) == Some(ErrorOf(d, rs, ps[k]))
  {
    if k > 0 {
      ErrorAt(d, rs, ps[1..], k - 1);
    }
  }

  // ----- the controller's steps -----

  method CreateProductPipeline(d: Description, p: PipelineDescription, rs: Resources)
    returns (r: Result<Pipeline, Error>, file: Option<File>)
    ensures if Good(d, rs, p) then r == Ok(Made(d, p)) else r == Err(ErrorOf(d, rs, p))
    ensures r.Ok? ==> (file.Some? <==> p.schema != "")
    ensures file.Some? ==> p.schema != "" && fresh(file.value) && file.value.Valid() && fresh(file.value.decls.Repr)
    ensures r.Ok? && file.Some? ==> rs(p.schema) == Some(file.value.Nodes())
  {
    file := None;
    if p.targetRoleName == "" {
      return Err(Unschedulable), file;
    }
    var role: Option<string> := None;
    for k := 0 to |d.roles|
      invariant role.None? && forall j :: 0 <= j < k ==> d.roles[j].name != p.targetRoleName
    {
      if d.roles[k].name == p.targetRoleName {
        FirstRoleAt(d.roles, p.targetRoleName, k);
        role := Some(d.roles[k].target);
        break;
      }
    }
    if role.None? {
      return Err(Unschedulable), file;
    }
    if p.schema != "" {
      var content := rs(p.schema);
      if content.None? {
        return Err(Failed), file;
      }
      var f := new File(content.value);
      file := Some(f);
    }
    r := Ok(Pipeline(p.name, role.value));
  }

  lemma {:induction false} NodesOfSnoc(files: seq<File>, f: File)
    ensures NodesOf(files + [f]) == NodesOf(files) + [f.Nodes()]
  {
    assert (files + [f])[..|files|] == files;
  }

  lemma {:induction false} FirstErrorStep(d: Description, rs: Resources, ps: seq<PipelineDescription>, k: nat)
    requires k < |ps|
    ensures FirstError(d, rs, ps[k..]) ==
            if Good(d, rs, ps[k]) then FirstError(d, rs, ps[k + 1..]) else Some(ErrorOf(d, rs, ps[k]))
  {
    assert ps[k..][0] == ps[k] && ps[k..][1..] == ps[k + 1..];
  }

  /** One turn of the loop: the schema file, if there is one, joins the files so far. */
  method AddPipeline(d: Description, p: PipelineDescription, rs: Resources, files: seq<File>)
    returns (r: Result<Pipeline, Error>, more: seq<File>)
    requires forall f :: f in files ==> f.Valid()
    ensures if Good(d, rs, p) then r == Ok(Made(d, p)) else r == Err(ErrorOf(d, rs, p))
    ensures forall f :: f in more ==> f.Valid() && (f in files || (fresh(f) && fresh(f.decls.Repr)))
    ensures r.Ok? ==> NodesOf(more) == NodesOf(files) + SchemaOf(rs, p)
  {
    var file;
    r, file := CreateProductPipeline(d, p, rs);
    more := files;
    if r.Ok? && file.Some? {
      NodesOfSnoc(files, file.value);
      more := files + [file.value];
    } else {
      assert NodesOf(files) + [] == NodesOf(files);
    }
  }

  /** The loop over the pipelines of the description. */
  method CreatePipelines(d: Description, rs: Resources) returns (r: Result<seq<Pipeline>, Error>, files: seq<File>)
    ensures r.Err? <==> FirstError(d, rs, d.pipelines).Some?
    ensures r.Err? ==> FirstError(d, rs, d.pipelines) == Some(r.error)
    ensures r.Ok? ==>
      && r.value == PipelinesOf(d, d.pipelines)
      && (forall f :: f in files ==> fresh(f) && fresh(f.decls.Repr) && f.Valid())
      && NodesOf(files) == SchemasOf(rs, d.pipelines)
  {
    var ps := d.pipelines;
    var pipelines: seq<Pipeline> := [];
    files := [];
    assert ps[0..] == ps;
    for k := 0 to |ps|
      invariant FirstError(d, rs, ps[k..]) == FirstError(d, rs, ps)
      invariant pipelines == PipelinesOf(d, ps[..k])
      invariant forall f :: f in files ==> fresh(f) && fresh(f.decls.Repr) && f.Valid()
      invariant NodesOf(files) == SchemasOf(rs, ps[..k])
    {
      FirstErrorStep(d, rs, ps, k);
      var pipe, more := AddPipeline(d, ps[k], rs, files);
      if pipe.Err? {
        return Err(pipe.error), [];
      }
      OneMore(d, rs, ps, k);
      files := more;
      pipelines := pipelines + [pipe.value];
    }
    assert ps[..|ps|] == ps;
    r := Ok(pipelines);
  }

  /** The files are unified into a new one, unless there is only one. */
  method UnifySchemas(files: seq<File>, lib: Library) returns (schema: Option<File>)
    requires forall f :: f in files ==> f.Valid()
    ensures schema.Some? == Unified(lib, NodesOf(files)).Some?
    ensures schema.Some? ==>
      && files != []
      && (if |files| == 1 then schema.value == files[0]
          else fresh(schema.value) && fresh(schema.value.decls.Repr))
      && schema.value.Valid() && Unified(lib, NodesOf(files)) == Some(schema.value.Nodes())
  {
    NodesOfShape(files);
    if |files| == 0 {
      return None;
    }
    if |files| > 1 {
      schema := files[0].Unify(files[1..], lib);
    } else {
      schema := Some(files[0]);
    }
  }

  lemma NodesOfShape(files: seq<File>)
    ensures |NodesOf(files)| == |files|
    ensures files != [] ==> NodesOf(files)[0] == files[0].Nodes() && NodesOf(files)[1..] == NodesOf(files[1..])
  {
    if |files| > 1 {
      NodesOfShape(files[..|files| - 1]);
      assert files[..|files| - 1][1..] == files[1..][..|files| - 2];
    }
  }

  /** With no configuration yet, the configuration is the schema file itself. */
  method Configure(schema: File, existing: Existing, lib: Library) returns (r: Result<File, Error>)
    requires schema.Valid()
    modifies schema
    ensures var c := Configured(lib, old(schema.Nodes()), existing);
      && r.Ok? == c.Ok?
      && (c.Err? ==> r == Err(c.error))
      && (c.Ok? ==> r.value.Valid() && schema.Valid() && c.value == (r.value.Nodes(), schema.Nodes()))
      && (c.Ok? ==> fresh(schema.decls.Repr - old(schema.decls.Repr)))
      && (r.Ok? ==> if existing.Absent? then r.value == schema else fresh(r.value))
  {
    match existing
    case FetchFailed => return Err(Failed);
    case Absent =>
      var e := schema.EvalWithoutPrivateFields(lib);
      if e.Err? {
        return Err(if e.error.OutOfRange? then Crashed else Failed);
      }
      var ok := e.value.Sanitize(lib);
      return if ok then Ok(e.value) else Err(Failed);
    case Present(ns) =>
      var sn := schema.Read();
      var merged := lib.complete(ns, sn);
      if merged.None? {
        return Err(Failed);
      }
      var file := new File(merged.value);
      var e := file.Eval(lib);
      if e.Err? {
        return Err(Failed);
      }
      var ok := e.value.Sanitize(lib);
      return if ok then Ok(e.value) else Err(Failed);
  }

  method CreateProductDeployment(d: Description, rs: Resources, existing: Existing, disk: Disk, lib: Library)
    returns (r: Result<ProductDeployment, Error>, schema: Option<File>)
    ensures r == ProductOf(lib, d, rs, existing, disk)
    ensures r.Ok? ==> schema.Some? && fresh(schema.value) && fresh(schema.value.decls.Repr)
    ensures r.Ok? ==> schema.value.Valid() && lib.format(schema.value.Nodes()) == Some(r.value.schema)
  {
    schema := None;
    var pipelines, schemaFiles := CreatePipelines(d, rs);
    if pipelines.Err? {
      return Err(pipelines.error), None;
    }
    schema := UnifySchemas(schemaFiles, lib);
    if schema.None? {
      return Err(Failed), None;
    }
    var config := Configure(schema.value, existing, lib);
    if config.Err? {
      return Err(config.error), schema;
    }
    var product, _ := WriteProduct(pipelines.value, config.value, schema.value, disk, lib);
    r := product;
  }

  /** The files are validated, formatted and written; schema and config may be one object. written
      is what config.cue holds: never a configuration that is not valid, but it is there already
      when the README cannot be written or the schema turns out not to format. */
  method WriteProduct(pipelines: seq<Pipeline>, config: File, schema: File, disk: Disk, lib: Library)
    returns (r: Result<ProductDeployment, Error>, written: Option<string>)
    requires config.Valid() && schema.Valid()
    ensures r == Written(lib, pipelines, config.Nodes(), schema.Nodes(), disk)
    ensures written.Some? <==>
            lib.valid(config.Nodes(), schema.Nodes()) && lib.format(config.Nodes()).Some? && disk.configOk
    ensures written.Some? ==> written == lib.format(config.Nodes())
    ensures written.Some? && (!disk.readmeOk || lib.format(schema.Nodes()).None?) ==> r == Err(Failed)
    ensures r.Ok? ==> written == Some(r.value.config)
  {
    written := None;
    var cn := config.Read();
    var sn := schema.Read();
    if !lib.valid(cn, sn) {
      return Err(Failed), None;
    }
    var configBytes := config.Format(lib);
    if configBytes.None? || !disk.configOk {
      return Err(Failed), None;
    }
    written := configBytes;
    if !disk.readmeOk {
      return Err(Failed), written;
    }
    var schemaBytes := schema.Format(lib);
    if schemaBytes.None? {
      return Err(Failed), written;
    }
    r := Ok(ProductDeployment(pipelines, schemaBytes.value, configBytes.value));
  }

  // ----- what comes out -----

  predicate AllGood(d: Description, rs: Resources) {
    forall p :: p in d.pipelines ==> Schedulable(d, p) && Readable(rs, p)
  }

  /** The product cannot be scheduled exactly when some pipeline has no role to be scheduled by
      and all pipelines before it are good. */
  lemma UnschedulableExact(lib: Library, d: Description, rs: Resources, existing: Existing, disk: Disk)
    ensures ProductOf(lib, d, rs, existing, disk) == Err(Unschedulable) <==>
            exists k :: 0 <= k < |d.pipelines| && !Schedulable(d, d.pipelines[k]) &&
                        forall j :: 0 <= j < k ==> Good(d, rs, d.pipelines[j])
  {
    NoError(d, rs, d.pipelines);
    if exists k :: 0 <= k < |d.pipelines| && !Good(d, rs, d.pipelines[k]) {
      var k := FirstBad(d, rs, d.pipelines);
      ErrorAt(d, rs, d.pipelines, k);
    }
  }

  lemma FirstBad(d: Description, rs: Resources, ps: seq<PipelineDescription>) returns (k: nat)
    requires exists j :: 0 <= j < |ps| && !Good(d, rs, ps[j])
    ensures k < |ps| && !Good(d, rs, ps[k]) && forall j :: 0 <= j < k ==> Good(d, rs, ps[j])
  {
    k := 0;
    while Good(d, rs, ps[k])
      invariant k < |ps| && forall j :: 0 <= j < k ==> Good(d, rs, ps[j])
      invariant exists j :: k <= j < |ps| && !Good(d, rs, ps[j])
      decreases |ps| - k
    {
      k := k + 1;
    }
  }

  /** Every pipeline of the product has the name of its description, in order, and the first role
      of the name that the description asks for. */
  lemma {:induction false} RolesResolved(d: Description, ps: seq<PipelineDescription>, k: nat)
    requires k < |ps| && forall p :: p in ps ==> Schedulable(d, p)
    ensures |PipelinesOf(d, ps)| == |ps|
    ensures PipelinesOf(d, ps)[k].name == ps[k].name
    ensures exists j :: 0 <= j < |d.roles| && d.roles[j] == Role(ps[k].targetRoleName, PipelinesOf(d, ps)[k].role) &&
                        forall i :: 0 <= i < j ==> d.roles[i].name != ps[k].targetRoleName
  {
    var front, p := ps[..|ps| - 1], ps[|ps| - 1];
    assert ps == front + [p];
    if front != [] {
      RolesResolved(d, front, if k < |front| then k else 0);
    }
    if k == |front| {
      assert p in ps && Schedulable(d, p);
      var j := RoleFound(d.roles, p.targetRoleName);
      FirstRoleAt(d.roles, p.targetRoleName, j);
    }
  }

  lemma RoleFound(roles: seq<Role>, name: string) returns (k: nat)
    requires FirstRole(roles, name).Some?
    ensures k < |roles| && roles[k].name == name && forall j :: 0 <= j < k ==> roles[j].name != name
  {
    if roles[0].name == name {
      k := 0;
    } else {
      var j := RoleFound(roles[1..], name);
      k := j + 1;
    }
  }

  /** The schema stored with a product. When there is no configuration yet it is, to the byte, the
      configuration written out: evaluated, swept and sanitized. When there is one it is the
      schema as it was read. */
  lemma StoredSchema(lib: Library, d: Description, rs: Resources, existing: Existing, disk: Disk)
    requires ProductOf(lib, d, rs, existing, disk).Ok?
    ensures AllGood(d, rs) && Unified(lib, SchemasOf(rs, d.pipelines)).Some?
    ensures
      var r := ProductOf(lib, d, rs, existing, disk).value;
      var schema := Unified(lib, SchemasOf(rs, d.pipelines)).value;
      if existing.Absent?
      then r.schema == r.config
      else lib.format(schema) == Some(r.schema)
  {
    NoError(d, rs, d.pipelines);
  }

  /** The evaluated schema of a first product, when the generator gets that far. */
  function Evaluated(lib: Library, d: Description, rs: Resources, existing: Existing): Option<seq<Node>> {
    var schema := Unified(lib, SchemasOf(rs, d.pipelines));
    if FirstError(d, rs, d.pipelines).None? && existing.Absent? && schema.Some? then lib.final(schema.value) else None
  }

  /** A product crashes the generator exactly when it is the first one and its evaluated schema does
      not survive one sweep. */
  lemma ProductCrash(lib: Library, d: Description, rs: Resources, existing: Existing, disk: Disk)
    ensures var evaluated := Evaluated(lib, d, rs, existing);
      ProductOf(lib, d, rs, existing, disk) == Err(Crashed) <==>
      evaluated.Some? && !X.Survived(evaluated.value, 1)
  {
    NoCrashBefore(d, rs, d.pipelines);
    var evaluated := Evaluated(lib, d, rs, existing);
    if evaluated.Some? {
      X.RemovalDecided(evaluated.value);
    }
  }

  lemma {:induction false} NoCrashBefore(d: Description, rs: Resources, ps: seq<PipelineDescription>)
    ensures FirstError(d, rs, ps) != Some(Crashed)
  {
    if ps != [] { NoCrashBefore(d, rs, ps[1..]); }
  }

  /** When the loop removes what it should, the first product's files hold the evaluated schema
      without its private fields. */
  lemma FirstProductFiltered(lib: Library, d: Description, rs: Resources, disk: Disk, evaluated: seq<Node>)
    requires AllGood(d, rs)
    requires Unified(lib, SchemasOf(rs, d.pipelines)).Some?
    requires lib.final(Unified(lib, SchemasOf(rs, d.pipelines)).value) == Some(evaluated)
    requires X.Cleared(evaluated, 1)
    ensures var r := ProductOf(lib, d, rs, Absent, disk);
      r.Ok? ==> lib.sanitize(Strip(evaluated)).Some? &&
                Some(r.value.schema) == Some(r.value.config) == lib.format(lib.sanitize(Strip(evaluated)).value)
  {
    NoError(d, rs, d.pipelines);
    X.RemovalDecided(evaluated);
  }

  // ----- small products -----

  /** A library that changes nothing and refuses nothing, and formats no fields as no text. */
  function SmallLibrary(): Library {
    Library(ns => Some(ns), ns => Some(ns), (a, bs) => Some(a), (c, s) => Some(c), ns => Some(ns), (c, s) => true,
            ns => Some(if ns == [] then "" else "fields"))
  }

  const ONE_PIPELINE := Description([PipelineDescription("p", "role", "schema")], [Role("role", "target")])

  const PRIVATE_FIELD := Field("max", [PRIVATE], Scalar("6"))

  lemma {:induction false} OneSchema(ns: seq<Node>)
    ensures var rs: Resources := name => Some(ns);
      && FirstError(ONE_PIPELINE, rs, ONE_PIPELINE.pipelines) == None
      && SchemasOf(rs, ONE_PIPELINE.pipelines) == [ns]
      && Unified(SmallLibrary(), [ns]) == Some(ns)
  {
    var rs: Resources := name => Some(ns);
    var ps := ONE_PIPELINE.pipelines;
    assert FirstRole(ONE_PIPELINE.roles, "role") == Some("target");
    assert FirstError(ONE_PIPELINE, rs, ps) == FirstError(ONE_PIPELINE, rs, ps[1..]);
    assert ps[..0] == [] && SchemasOf(rs, ps) == SchemasOf(rs, ps[..0]) + [ns];
  }

  /** The schema of one private field is stored as no schema at all. */
  lemma SchemaLost()
    ensures
      var rs: Resources := name => Some([PRIVATE_FIELD]);
      var r := ProductOf(SmallLibrary(), ONE_PIPELINE, rs, Absent, WRITABLE);
      r.Ok? && r.value.schema == "" && SmallLibrary().format([PRIVATE_FIELD]) == Some("fields")
  {
    OneSchema([PRIVATE_FIELD]);
    assert Private(PRIVATE_FIELD);
    assert Visit(PRIVATE_FIELD) == Some(PRIVATE_FIELD);
    assert Sweep.Sweep([PRIVATE_FIELD]) == Run([], [PRIVATE_FIELD], 0) == Some([]);
  }

  /** A schema of two private fields. */
  lemma ProductPanics()
    ensures
      var rs: Resources := name => Some([PRIVATE_FIELD, PRIVATE_FIELD]);
      ProductOf(SmallLibrary(), ONE_PIPELINE, rs, Absent, WRITABLE) == Err(Crashed)
  {
    OneSchema([PRIVATE_FIELD, PRIVATE_FIELD]);
    X.TwoPrivatesPanic();
  }
}
