/** The two controllers that write the status of one ProductDeploymentPipeline: the pipeline
    reconciler (controllers/productdeploymentpipeline_controller.go) and the scheduler
    (controllers/productdeploymentpipeline_scheduler.go) with the Kubernetes deployer
    (pkg/deployers/kubernetes/kubernetes.go). */
module Pipeline {
  import opened Wrappers
  import opened Targets

  datatype Condition = Unset | Unknown | True | False
  datatype Ref = Ref(name: string, namespace: string)

  datatype Status = Status(
    ready: Condition,
    reconciling: Condition,
    deployed: Condition,
    observed: int,
    targetRef: Option<Ref>,
    snapshotRef: Option<Ref>)

  const FRESH := Status(Unset, Unset, Unset, 0, None, None)

  /** The FluxDeployer made for the pipeline. */
  datatype FluxDeployer = FluxDeployer(
    sourceKind: string,
    sourceName: string,
    targetNamespace: string,
    secret: Option<string>)

  // ----- effects of the condition helpers, which belong to other modules -----

  /** ProgressiveStatus(false, ...): work is under way; a Ready condition that is there stays. */
  function Progress(s: Status): Status {
    s.(reconciling := True, ready := if s.ready == Unset then Unknown else s.ready)
  }

  /** MarkNotReady and MarkReady end the work that was under way. */
  function NotReady(s: Status): Status { s.(reconciling := Unset, ready := False) }

  function MadeReady(s: Status): Status { s.(reconciling := Unset, ready := True) }

  /** UpdateStatus records the generation of a ready object before it is patched. */
  function Recorded(s: Status, generation: int): Status {
    if s.ready == True then s.(observed := generation) else s
  }

  // ----- one run of each controller, as a function of the object it read -----

  /** What the reconciler meets; provider is the name of the snapshot that the configuration,
      or else the localization, reports, and None when the pipeline has neither. */
  datatype PipelineSights = PipelineSights(
    generation: int,
    owners: nat,
    ownerFound: bool,
    localizationOk: bool,
    configurationOk: bool,
    provider: Option<string>)

  /** None when the run ends before it sets up its patch. */
  function PipelineRun(s: Status, namespace: string, i: PipelineSights): Option<Status> {
    if i.owners != 1 || !i.ownerFound then None
    else
      var p := Progress(s);
      Some(Recorded(
        if !i.localizationOk || !i.configurationOk || i.provider.None? then NotReady(p)
        else if i.provider.value == "" then p
        else MadeReady(p.(snapshotRef := Some(Ref(i.provider.value, namespace)))),
        i.generation))
  }

  datatype SnapshotSight =
    | SnapshotMissing
    | SnapshotFailed
    | SnapshotFound(ready: bool, ownerKinds: seq<(string, string)>)

  datatype SchedulerSights = SchedulerSights(
    generation: int,
    snapshot: SnapshotSight,
    targets: seq<Target>,
    listOk: bool,
    draw: nat,
    next: bool,
    createOk: bool)

  /** The status after the scheduler chose target (None: it found none) and deployed or failed. */
  function Scheduled(s: Status, target: Option<Ref>, deployed: bool, generation: int): Status {
    var p := Progress(s);
    Recorded(
      if target.None? then p.(deployed := False)
      else if !deployed then p.(targetRef := target, deployed := False)
      else p.(targetRef := target, deployed := True, reconciling := Unset),
      generation)
  }

  /** The scheduler goes on only with a ready snapshot. */
  predicate Schedulable(s: Status, i: SchedulerSights) {
    s.snapshotRef.Some? && s.snapshotRef.value.name != "" && i.snapshot.SnapshotFound? && i.snapshot.ready
  }

  // ----- the controllers -----

  /** The object a run works on. */
  class Object {
    const name: string
    const namespace: string
    const role: TargetRole
    var status: Status

    constructor (name: string, namespace: string, role: TargetRole, status: Status)
      ensures this.name == name && this.namespace == namespace && this.role == role && this.status == status
    {
      this.name, this.namespace, this.role, this.status := name, namespace, role, status;
    }
  }

  /** The reconciler's run: patched tells whether it gets as far as setting up its patch. */
  method ReconcilePipeline(obj: Object, i: PipelineSights) returns (patched: bool, failed: bool)
    modifies obj
    ensures var r := PipelineRun(old(obj.status), obj.namespace, i);
      && patched == r.Some?
      && obj.status == (if r.Some? then r.value else old(obj.status))
    ensures failed <==> !patched || !i.localizationOk || !i.configurationOk || i.provider.None?
    ensures patched && !failed && i.provider != Some("") ==>
      && obj.status.ready == True && obj.status.snapshotRef.Some?
      && obj.status.snapshotRef.value.name == i.provider.value
  {
    if i.owners != 1 || !i.ownerFound {
      return false, true;
    }
    patched, failed := true, true;
    obj.status := Progress(obj.status);
    if !i.localizationOk {
      obj.status := NotReady(obj.status);
    } else if !i.configurationOk {
      obj.status := NotReady(obj.status);
    } else if i.provider.None? {
      obj.status := NotReady(obj.status);
    } else {
      failed := false;
      if i.provider.value != "" {
        obj.status := obj.status.(snapshotRef := Some(Ref(i.provider.value, obj.namespace)));
        obj.status := MadeReady(obj.status);
      }
    }
    obj.status := Recorded(obj.status, i.generation);
  }

  /** The client's Get on targets. */
  function GetTarget(targets: seq<Target>, r: Ref): (t: Option<Target>)
    ensures t.Some? ==> t.value in targets && t.value.name == r.name && t.value.namespace == r.namespace
    ensures t.None? ==> forall u :: u in targets ==> u.name != r.name || u.namespace != r.namespace
  {
    if targets == [] then None
    else if targets[0].name == r.name && targets[0].namespace == r.namespace then Some(targets[0])
    else GetTarget(targets[1..], r)
  }

  /** What a deployment of the snapshot to the target should look like. */
  function WantedDeployer(t: Target, owner: (string, string)): FluxDeployer
    requires t.access.Some?
  {
    FluxDeployer(owner.0, owner.1, t.access.value.targetNamespace, t.access.value.secret)
  }

  const KUBERNETES := "kubernetes"

  predicate Deployable(t: Target, i: SchedulerSights) {
    && t.kind == KUBERNETES && t.access.Some? && t.access.value.parses
    && i.snapshot.SnapshotFound? && |i.snapshot.ownerKinds| == 1 && i.createOk
  }

  /** The target that target names, if it can be deployed to. */
  function Deployed(i: SchedulerSights, target: Option<Ref>): (r: Option<Target>)
    ensures r.Some? ==> target.Some? && GetTarget(i.targets, target.value) == r
    ensures r.Some? ==> if r.value.kind == KUBERNETES then Deployable(r.value, i) else i.next
    ensures r.None? && target.Some? && GetTarget(i.targets, target.value).Some? ==>
      var t := GetTarget(i.targets, target.value).value;
      if t.kind == KUBERNETES then !Deployable(t, i) else !i.next
  {
    if target.None? then None
    else
      var t := GetTarget(i.targets, target.value);
      if t.Some? && (if t.value.kind == KUBERNETES then Deployable(t.value, i) else i.next) then t else None
  }

  /** The FluxDeployer that a successful deployment to t asks for. */
  function Asked(i: SchedulerSights, t: Target): Option<FluxDeployer>
    requires t.kind == KUBERNETES ==> Deployable(t, i)
  {
    if t.kind == KUBERNETES then Some(WantedDeployer(t, i.snapshot.ownerKinds[0])) else None
  }

  /** The FluxDeployer afterwards: one that exists is left alone. */
  function DeployerAfter(d: Option<FluxDeployer>, i: SchedulerSights, target: Option<Ref>): Option<FluxDeployer> {
    var t := Deployed(i, target);
    if d.Some? || t.None? then d else Asked(i, t.value)
  }

  /** The objects the two controllers share beside the status. */
  class Cluster {
    const system: string
    var deployer: Option<FluxDeployer>
    ghost var deploys: seq<Status>

    constructor (system: string)
      ensures this.system == system && deployer == None && deploys == []
    {
      this.system, deployer, deploys := system, None, [];
    }

    /** The Kubernetes deployer. It reads obj.Status.SnapshotRef without a check, so the caller
        must have one; next is whether another deployer in the chain takes the target. */
    method Deploy(obj: Object, i: SchedulerSights) returns (ok: bool)
      requires obj.status.snapshotRef.Some?
      modifies this
      ensures deploys == old(deploys) + [obj.status]
      ensures ok ==> obj.status.targetRef.Some? && GetTarget(i.targets, obj.status.targetRef.value).Some?
      ensures ok ==>
        var t := GetTarget(i.targets, obj.status.targetRef.value).value;
        if t.kind != KUBERNETES then i.next && deployer == old(deployer)
        else
          && Deployable(t, i)
          && (old(deployer).Some? ==> deployer == old(deployer))
          && (old(deployer).None? ==>
                && deployer.Some? && (deployer.value.sourceKind, deployer.value.sourceName) == i.snapshot.ownerKinds[0]
                && deployer.value.targetNamespace == t.access.value.targetNamespace
                && deployer.value.secret == t.access.value.secret
                && deployer == Asked(i, t))
      ensures !ok ==> deployer == old(deployer)
      ensures ok == Deployed(i, obj.status.targetRef).Some?
    {
      deploys := deploys + [obj.status];
      if obj.status.targetRef.None? {
        return false;
      }
      var target := GetTarget(i.targets, obj.status.targetRef.value);
      if target.None? {
        return false;
      }
      if target.value.kind != KUBERNETES {
        return i.next;
      }
      if target.value.access.None? {
        return false;
      }
      if !target.value.access.value.parses {
        return false;
      }
      if !i.snapshot.SnapshotFound? {
        return false;
      }
      if |i.snapshot.ownerKinds| != 1 {
        return false;
      }
      if !i.createOk {
        return false;
      }
      if deployer.None? {
        deployer := Some(WantedDeployer(target.value, i.snapshot.ownerKinds[0]));
      }
      return true;
    }

    /** target is what was chosen, and None if nothing was. Deploy runs on it, and Deployed=True is
        written exactly when that succeeds. */
    method ScheduleReconcile(obj: Object, i: SchedulerSights) returns (patched: bool, ghost target: Option<Ref>)
      modifies this, obj
      ensures patched == Schedulable(old(obj.status), i)
      ensures !patched ==>
        target.None? && obj.status == old(obj.status) && deployer == old(deployer) && deploys == old(deploys)
      ensures patched ==>
        && obj.status == Scheduled(old(obj.status), target, Deployed(i, target).Some?, i.generation)
        && (obj.status.deployed == True <==> Deployed(i, target).Some?)
        && deployer == DeployerAfter(old(deployer), i, target)
      ensures patched && target.Some? ==>
        && (exists t :: Fit(t, i.targets, obj.role, obj.namespace, system) && target == Some(Ref(t.name, t.namespace)))
        && deploys == old(deploys) + [Progress(old(obj.status)).(targetRef := target)]
      ensures patched && target.None? ==>
        deploys == old(deploys) && forall t :: Fit(t, i.targets, obj.role, obj.namespace, system) ==>
          !ValidSelector(obj.role.selector) || !i.listOk
    {
      target := None;
      if obj.status.snapshotRef.None? || obj.status.snapshotRef.value.name == "" {
        return false, target;
      }
      if !i.snapshot.SnapshotFound? || !i.snapshot.ready {
        return false, target;
      }
      patched := true;
      obj.status := Progress(obj.status);
      var chosen := SelectTarget(i.targets, obj.role, obj.namespace, system, i.listOk, i.draw);
      if chosen.None? {
        obj.status := obj.status.(deployed := False);
      } else {
        target := Some(Ref(chosen.value.name, chosen.value.namespace));
        obj.status := obj.status.(targetRef := Some(Ref(chosen.value.name, chosen.value.namespace)));
        var done := Deploy(obj, i);
        if !done {
          obj.status := obj.status.(deployed := False);
        } else {
          obj.status := obj.status.(deployed := True);
          obj.status := obj.status.(reconciling := Unset);
        }
      }
      obj.status := Recorded(obj.status, i.generation);
    }
  }
}
