/** The ProductDeploymentGenerator reconciler
    (controllers/productdeploymentgenerator_controller.go): the version gate, the Sync, then the
    Validation that refers to it. */
module Generator {
  import opened Wrappers
  import opened SemVer
  import opened CueFile
  import opened Product
  import P = Pipeline

  type Hash = string -> string

  /** What the version parser of the library makes of a text. */
  type Parser = string -> Option<Version>

  /** Both objects carry the component version they were made for as an annotation. */
  datatype Sync = Sync(version: string, snapshot: string)
  datatype Validation = Validation(version: string, schema: string, syncRef: string)

  datatype State = State(
    last: string,
    ready: P.Condition,
    syncs: map<string, Sync>,
    validations: map<string, Validation>)

  function SyncName(name: string, h: Hash, version: string): string { name + "-sync-" + h(version) }

  function ValidationName(name: string, h: Hash, version: string): string { name + "-validation-" + h(version) }

  // ----- what a run meets -----

  /** applied is the version the subscription last applied, which is the component's version. */
  datatype Subscription = Subscription(ready: bool, applied: string)

  datatype Project = Project(ready: bool, hasRepository: bool, hasCommitTemplate: bool)

  /** How CreateOrUpdate ends: it fails, it succeeds, or it creates the object and the answer is
      an error all the same. */
  datatype Write = Refused | Accepted | Unacknowledged

  datatype Sights = Sights(
    subscription: Option<Subscription>,
    project: Option<Project>,
    authOk: bool,
    lookupOk: bool,
    description: Option<Description>,
    dirsOk: bool,
    resources: Resources,
    existing: Existing,
    disk: Disk,
    snapshot: Option<string>,
    syncWrite: Write,
    validationWrite: Write)

  // ----- what a run does, stated on values -----

  /** Without a version recorded there is nothing to compare with. */
  predicate Newer(parse: Parser, last: string, applied: string) {
    last == "" ||
    (parse(last).Some? && parse(applied).Some? && Below(parse(last).value, parse(applied).value))
  }

  predicate Incomparable(parse: Parser, last: string, applied: string) {
    last != "" && (parse(last).None? || parse(applied).None?)
  }

  predicate Skips(g: State, parse: Parser, i: Sights) {
    i.subscription.Some? &&
    var s := i.subscription.value;
    !s.ready || (!Incomparable(parse, g.last, s.applied) && !Newer(parse, g.last, s.applied))
  }

  /** The run gets as far as building the product. */
  predicate Prepared(g: State, parse: Parser, i: Sights) {
    && i.subscription.Some? && i.subscription.value.ready && Newer(parse, g.last, i.subscription.value.applied)
    && i.project.Some? && i.project.value.ready && i.project.value.hasRepository
    && i.authOk && parse(i.subscription.value.applied).Some? && i.lookupOk && i.description.Some? && i.dirsOk
  }

  function Built(lib: Library, i: Sights): Result<ProductDeployment, Error>
    requires i.description.Some?
  {
    ProductOf(lib, i.description.value, i.resources, i.existing, i.disk)
  }

  predicate WritesSync(g: State, lib: Library, parse: Parser, i: Sights) {
    && Prepared(g, parse, i) && Built(lib, i).Ok?
    && i.snapshot.Some? && i.project.value.hasCommitTemplate
  }

  predicate WritesValidation(g: State, lib: Library, parse: Parser, i: Sights) {
    WritesSync(g, lib, parse, i) && i.syncWrite.Accepted?
  }

  predicate Completes(g: State, lib: Library, parse: Parser, i: Sights) {
    WritesValidation(g, lib, parse, i) && i.validationWrite.Accepted?
  }

  /** CreateOrUpdate with a closure that changes nothing: an object that exists stays. */
  function Created<T>(m: map<string, T>, key: string, value: T, w: Write): map<string, T> {
    if key in m || w.Refused? then m else m[key := value]
  }

  function After(g: State, name: string, h: Hash, lib: Library, parse: Parser, i: Sights): State {
    State(
      if Completes(g, lib, parse, i) then i.subscription.value.applied else g.last,
      if Completes(g, lib, parse, i) || Skips(g, parse, i) then P.True
      else if Prepared(g, parse, i) && Built(lib, i) == Err(Crashed) then
        (if g.ready == P.Unset then P.Unknown else g.ready)
      else P.False,
      if !WritesSync(g, lib, parse, i) then g.syncs
      else
        var v := i.subscription.value.applied;
        Created(g.syncs, SyncName(name, h, v), Sync(v, i.snapshot.value), i.syncWrite),
      if !WritesValidation(g, lib, parse, i) then g.validations
      else
        var v := i.subscription.value.applied;
        Created(g.validations, ValidationName(name, h, v),
                Validation(v, Built(lib, i).value.schema, SyncName(name, h, v)), i.validationWrite))
  }

  /** How the run returns. */
  datatype Outcome = Done | Requeue | Erred | Panicked

  function OutcomeOf(g: State, lib: Library, parse: Parser, i: Sights): Outcome {
    if Completes(g, lib, parse, i) || Skips(g, parse, i) then Done
    else if !Prepared(g, parse, i) then
      if && i.subscription.Some? && i.subscription.value.ready && Newer(parse, g.last, i.subscription.value.applied)
         && i.project.Some? && !(i.project.value.ready && i.project.value.hasRepository)
      then Requeue else Erred
    else if Built(lib, i) == Err(Unschedulable) then Done
    else if Built(lib, i) == Err(Crashed) then Panicked
    else Erred
  }

  // ----- the controller -----

  class Generator {
    const name: string
    const h: Hash
    var last: string
    var ready: P.Condition
    var syncs: map<string, Sync>
    var validations: map<string, Validation>

    constructor (name: string, h: Hash)
      ensures this.name == name && this.h == h && Value() == State("", P.Unset, map[], map[])
    {
      this.name, this.h, last, ready, syncs, validations := name, h, "", P.Unset, map[], map[];
    }

    function Value(): State
      reads this
    {
      State(last, ready, syncs, validations)
    }

    /** None is an error. A subscription that is not ready marks the object as not ready. */
    method ShouldRun(subscription: Subscription, parse: Parser) returns (r: Option<bool>)
      modifies this`ready
      ensures r == Some(true) <==> subscription.ready && Newer(parse, last, subscription.applied)
      ensures r == None <==> subscription.ready && Incomparable(parse, last, subscription.applied)
      ensures ready == match r
        case None => P.False
        case Some(true) => old(ready)
        case Some(false) => if subscription.ready then P.True else P.False
    {
      if !subscription.ready {
        ready := P.False;
        return Some(false);
      }
      if last == "" {
        return Some(true);
      }
      var lastVersion := parse(last);
      if lastVersion.None? {
        ready := P.False;
        return None;
      }
      var applied := parse(subscription.applied);
      if applied.None? {
        ready := P.False;
        return None;
      }
      PrecedenceExact(applied.value, lastVersion.value);
      PrecedenceTotal(applied.value, lastVersion.value);
      if Equal(applied.value, lastVersion.value) || LessThan(applied.value, lastVersion.value) {
        ready := P.True;
        return Some(false);
      }
      return Some(true);
    }

    /** One run. A subscription that is not ready ends it with Ready=True all the same: what
        ShouldRun marked is overwritten. */
    method Reconcile(i: Sights, lib: Library, parse: Parser) returns (r: Outcome)
      modifies this
      ensures Value() == After(old(Value()), name, h, lib, parse, i)
      ensures r == OutcomeOf(old(Value()), lib, parse, i)
    {
      if ready == P.Unset {
        ready := P.Unknown;
      }
      if i.subscription.None? {
        ready := P.False;
        return Erred;
      }
      var subscription := i.subscription.value;
      var run := ShouldRun(subscription, parse);
      if run.None? {
        return Erred;
      }
      if !run.value {
        ready := P.True;
        return Done;
      }
      if i.project.None? {
        ready := P.False;
        return Erred;
      }
      if !i.project.value.ready {
        ready := P.False;
        return Requeue;
      }
      if !i.project.value.hasRepository {
        ready := P.False;
        return Requeue;
      }
      var version := subscription.applied;
      if !i.authOk || parse(version).None? || !i.lookupOk || i.description.None? || !i.dirsOk {
        ready := P.False;
        return Erred;
      }
      r := Generate(version, i.project.value, i, lib);
    }

    /** The part of a run behind the checks: the Sync, then the Validation, then the record. */
    method Generate(version: string, project: Project, i: Sights, lib: Library) returns (r: Outcome)
      requires i.description.Some?
      modifies this
      ensures
        var b := Built(lib, i);
        var sync := b.Ok? && i.snapshot.Some? && project.hasCommitTemplate;
        var done := sync && i.syncWrite.Accepted? && i.validationWrite.Accepted?;
        && last == (if done then version else old(last))
        && ready == (if done then P.True else if b == Err(Crashed) then old(ready) else P.False)
        && syncs == (if sync
                     then Created(old(syncs), SyncName(name, h, version), Sync(version, i.snapshot.value), i.syncWrite)
                     else old(syncs))
        && validations == (if sync && i.syncWrite.Accepted?
                           then Created(old(validations), ValidationName(name, h, version),
                                        Validation(version, b.value.schema, SyncName(name, h, version)),
                                        i.validationWrite)
                           else old(validations))
        && r == if done || b == Err(Unschedulable) then Done else if b == Err(Crashed) then Panicked else Erred
    {
      var sync, values := CreateSync(version, project, i, lib);
      if sync.Err? {
        if sync.error.Crashed? {
          return Panicked;
        }
        ready := P.False;
        return if sync.error.Unschedulable? then Done else Erred;
      }
      var schema := values.value.Format(lib);
      var ok := CreateValidation(version, schema.value, sync.value, i.validationWrite);
      if !ok {
        ready := P.False;
        return Erred;
      }
      last := version;
      ready := P.True;
      return Done;
    }

    method CreateValidation(version: string, schema: string, sync: string, w: Write) returns (ok: bool)
      modifies this`validations
      ensures ok == w.Accepted?
      ensures validations ==
              Created(old(validations), ValidationName(name, h, version), Validation(version, schema, sync), w)
    {
      var key := ValidationName(name, h, version);
      if key !in validations && !w.Refused? {
        validations := validations[key := Validation(version, schema, sync)];
      }
      ok := w.Accepted?;
    }

    /** The name of the Sync, and the schema file. */
    method CreateSync(version: string, project: Project, i: Sights, lib: Library)
      returns (r: Result<string, Error>, values: Option<File>)
      requires i.description.Some?
      modifies this`syncs
      ensures r.Err? ==>
        r.error == if Built(lib, i).Err? then Built(lib, i).error else Failed
      ensures r.Ok? <==> Built(lib, i).Ok? && i.snapshot.Some? && project.hasCommitTemplate && i.syncWrite.Accepted?
      ensures syncs ==
        if Built(lib, i).Ok? && i.snapshot.Some? && project.hasCommitTemplate
        then Created(old(syncs), SyncName(name, h, version), Sync(version, i.snapshot.value), i.syncWrite)
        else old(syncs)
      ensures r.Ok? ==>
        && r.value == SyncName(name, h, version)
        && values.Some? && values.value.Valid() && lib.format(values.value.Nodes()) == Some(Built(lib, i).value.schema)
    {
      var product;
      product, values := CreateProductDeployment(i.description.value, i.resources, i.existing, i.disk, lib);
      if product.Err? {
        return Err(product.error), None;
      }
      if i.snapshot.None? {
        return Err(Failed), None;
      }
      if !project.hasCommitTemplate {
        return Err(Failed), None;
      }
      var key := SyncName(name, h, version);
      if key !in syncs && !i.syncWrite.Refused? {
        syncs := syncs[key := Sync(version, i.snapshot.value)];
      }
      r := if i.syncWrite.Accepted? then Ok(key) else Err(Failed);
    }
  }
}
