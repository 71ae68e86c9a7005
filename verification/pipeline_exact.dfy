/** One run of each controller of a pipeline, effect by effect: what becomes of each condition and of
    each reference, when a deployment succeeds, and what a patch keeps of the stored status. */
module PipelineExact {
  import opened Wrappers
  import opened Targets
  import opened Pipeline
  import R = PipelineRuns

  /** Localization and Configuration are there, and one of them provides a snapshot. */
  predicate Provided(i: PipelineSights) {
    i.localizationOk && i.configurationOk && i.provider.Some? && i.provider.value != ""
  }

  /** They are there, but the snapshot is not made yet. */
  predicate Awaited(i: PipelineSights) {
    i.localizationOk && i.configurationOk && i.provider == Some("")
  }

  /** A run of the reconciler: it needs the one owner; Ready follows from the snapshot, and stays as it was
      while that is awaited; what the scheduler writes is left alone. */
  lemma ReconcileExact(s: Status, namespace: string, i: PipelineSights)
    ensures var r := PipelineRun(s, namespace, i);
      && (r.Some? <==> i.owners == 1 && i.ownerFound)
      && (r.Some? ==>
            var t := r.value;
            && t.snapshotRef == (if Provided(i) then Some(Ref(i.provider.value, namespace)) else s.snapshotRef)
            && (t.ready == True <==> Provided(i) || (Awaited(i) && s.ready == True))
            && (t.ready == False <==> !Provided(i) && (Awaited(i) ==> s.ready == False))
            && t.ready != Unset
            && t.reconciling == (if Awaited(i) then True else Unset)
            && t.observed == (if t.ready == True then i.generation else s.observed)
            && t.deployed == s.deployed && t.targetRef == s.targetRef)
  {
  }

  /** A run of the scheduler that got to choose: Deployed says whether it deployed, the target is recorded
      in either case, and Ready and the snapshot are left alone. */
  lemma ScheduleExact(s: Status, target: Option<Ref>, deployed: bool, generation: int)
    ensures var t := Scheduled(s, target, deployed, generation);
      && t.deployed == (if target.Some? && deployed then True else False)
      && t.targetRef == (if target.Some? then target else s.targetRef)
      && t.reconciling == (if target.Some? && deployed then Unset else True)
      && t.ready == (if s.ready == Unset then Unknown else s.ready)
      && t.observed == (if s.ready == True then generation else s.observed)
      && t.snapshotRef == s.snapshotRef
  {
  }

  /** A deployment succeeds exactly if the target is found and, when it is a Kubernetes one, has an access
      that parses and the snapshot, with a single owner, can be found and the FluxDeployer made; any
      other kind is up to the next deployer. */
  lemma DeployExact(i: SchedulerSights, target: Option<Ref>)
    ensures Deployed(i, target).Some? <==>
            && target.Some? && GetTarget(i.targets, target.value).Some?
            && var t := GetTarget(i.targets, target.value).value;
               if t.kind == "kubernetes"
               then t.access.Some? && t.access.value.parses && i.snapshot.SnapshotFound? &&
                    |i.snapshot.ownerKinds| == 1 && i.createOk
               else i.next
    ensures target.Some? ==>
              (GetTarget(i.targets, target.value).Some? <==>
                exists t :: t in i.targets && t.name == target.value.name && t.namespace == target.value.namespace)
  {
  }

  /** The scheduler goes on exactly with a snapshot reference that has a name, and a snapshot that is ready. */
  lemma GoesOnExact(s: Status, i: SchedulerSights)
    ensures Schedulable(s, i) <==>
            && s.snapshotRef.Some? && s.snapshotRef.value.name != ""
            && i.snapshot.SnapshotFound? && i.snapshot.ready
  {
  }

  /** A patch writes the fields that the run changed, and keeps the stored value of every other one. */
  lemma PatchExact(current: Status, p: R.Pending)
    ensures var t := R.Patch(current, p);
      && t.ready == (if p.after.ready != p.before.ready then p.after.ready else current.ready)
      && t.reconciling ==
         (if p.after.reconciling != p.before.reconciling then p.after.reconciling else current.reconciling)
      && t.deployed == (if p.after.deployed != p.before.deployed then p.after.deployed else current.deployed)
      && t.observed == (if p.after.observed != p.before.observed then p.after.observed else current.observed)
      && t.targetRef == (if p.after.targetRef != p.before.targetRef then p.after.targetRef else current.targetRef)
      && t.snapshotRef ==
         (if p.after.snapshotRef != p.before.snapshotRef then p.after.snapshotRef else current.snapshotRef)
  {
  }
}
