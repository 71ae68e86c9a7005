/** Both controllers on one pipeline object, in any interleaving. A run may read an old version
    of the status, since reads come from a cache; when it ends, it commits the fields it has
    changed against the version it read, or its patch is lost. Any number of runs may be under
    way at the same time. */
module PipelineRuns {
  import opened Wrappers
  import opened Pipeline
  import opened Targets

  datatype Pending = Pending(before: Status, after: Status)

  /** A deployment that succeeded: what it was deployed to, kind and name of each owner that its
      snapshot had, and the FluxDeployer it asked for. */
  datatype Success = Success(target: Target, owners: seq<(string, string)>, asked: Option<FluxDeployer>)

  /** All versions the stored status has had, the last one being current; the runs under way; the
      status of the object at each call of Deploy; the deployments that succeeded; and the
      FluxDeployer in the cluster. */
  datatype State = State(
    versions: seq<Status>,
    pending: seq<Pending>,
    deploys: seq<Status>,
    successes: seq<Success>,
    deployer: Option<FluxDeployer>)

  /** The FluxDeployer that the first of the deployments to a Kubernetes target asked for. */
  function FirstAsked(ss: seq<Success>): Option<FluxDeployer> {
    if ss == [] then None
    else
      var before := FirstAsked(ss[..|ss| - 1]);
      if before.Some? then before else ss[|ss| - 1].asked
  }

  datatype Event =
    | Reconcile(version: nat, sights: PipelineSights)
    | Schedule(version: nat, scheduling: SchedulerSights, target: Option<Ref>)
    | Commit(run: nat)
    | Lose(run: nat)

  function Pick<T(==)>(current: T, before: T, after: T): T {
    if before == after then current else after
  }

  /** A merge patch of the fields in which after differs from before. */
  function Patch(current: Status, p: Pending): Status {
    Status(
      Pick(current.ready, p.before.ready, p.after.ready),
      Pick(current.reconciling, p.before.reconciling, p.after.reconciling),
      Pick(current.deployed, p.before.deployed, p.after.deployed),
      Pick(current.observed, p.before.observed, p.after.observed),
      Pick(current.targetRef, p.before.targetRef, p.after.targetRef),
      Pick(current.snapshotRef, p.before.snapshotRef, p.after.snapshotRef))
  }

  function Apply(namespace: string, st: State, e: Event): State
    requires st.versions != []
  {
    match e
    case Reconcile(v, i) =>
      if v >= |st.versions| then st
      else
        var r := PipelineRun(st.versions[v], namespace, i);
        if r.None? then st else st.(pending := st.pending + [Pending(st.versions[v], r.value)])
    case Schedule(v, i, target) =>
      if v >= |st.versions| || !Schedulable(st.versions[v], i) then st
      else
        var s, t := st.versions[v], Deployed(i, target);
        st.(pending := st.pending + [Pending(s, Scheduled(s, target, t.Some?, i.generation))],
            deploys := st.deploys + (if target.Some? then [Progress(s).(targetRef := target)] else []),
            successes := st.successes +
              (if t.Some? then [Success(t.value, i.snapshot.ownerKinds, Asked(i, t.value))] else []),
            deployer := DeployerAfter(st.deployer, i, target))
    case Commit(k) =>
      if k >= |st.pending| then st
      else st.(versions := st.versions + [Patch(st.versions[|st.versions| - 1], st.pending[k])],
               pending := st.pending[..k] + st.pending[k + 1..])
    case Lose(k) =>
      if k >= |st.pending| then st else st.(pending := st.pending[..k] + st.pending[k + 1..])
  }

  function History(namespace: string, st: State, es: seq<Event>): (r: State)
    requires st.versions != []
    decreases |es|
  {
    if es == [] then st else History(namespace, Apply(namespace, st, es[0]), es[1..])
  }

  // ----- what is kept -----

  ghost predicate SoundStatus(s: Status) {
    && (s.snapshotRef.Some? ==> s.snapshotRef.value.name != "")
    && (s.ready == True ==> s.snapshotRef.Some?)
    && (s.deployed == True ==> s.snapshotRef.Some? && s.targetRef.Some?)
  }

  /** The references of s are still set in t. */
  ghost predicate Grown(s: Status, t: Status) {
    (s.snapshotRef.Some? ==> t.snapshotRef.Some?) && (s.targetRef.Some? ==> t.targetRef.Some?)
  }

  ghost predicate SoundRun(p: Pending) {
    && SoundStatus(p.before) && Grown(p.before, p.after)
    && (p.after.snapshotRef.Some? ==> p.after.snapshotRef.value.name != "")
    && (p.after.ready == True && p.before.ready != True ==> p.after.snapshotRef.Some?)
    && (p.after.deployed == True && p.before.deployed != True ==>
          p.before.snapshotRef.Some? && p.after.targetRef.Some?)
  }

  ghost predicate Kept(st: State) {
    && st.versions != []
    && (forall v :: 0 <= v < |st.versions| ==> SoundStatus(st.versions[v]))
    && (forall v, w :: 0 <= v <= w < |st.versions| ==> Grown(st.versions[v], st.versions[w]))
    && (forall k :: 0 <= k < |st.pending| ==>
          SoundRun(st.pending[k]) && Grown(st.pending[k].before, st.versions[|st.versions| - 1]))
    && (forall d :: d in st.deploys ==> d.snapshotRef.Some? && d.targetRef.Some?)
  }

  /** The FluxDeployer takes the snapshot of its one owner to the target: the owner's kind and name are
      its source, the target's access says in which namespace, and in which cluster, if it has a
      secret for one. */
  predicate Delivers(d: FluxDeployer, s: Success) {
    && |s.owners| == 1 && d.sourceKind == s.owners[0].0 && d.sourceName == s.owners[0].1
    && s.target.access.Some? && d.targetNamespace == s.target.access.value.targetNamespace
    && (d.secret.Some? <==> s.target.access.value.secret.Some?)
    && (d.secret.Some? ==> d.secret.value == s.target.access.value.secret.value)
  }

  /** Deployed=True goes back to a deployment that succeeded; a Kubernetes target asked for a
      FluxDeployer and no other kind did; and the one in the cluster is what the first asked for. */
  ghost predicate Backed(st: State) {
    && (forall v :: 0 <= v < |st.versions| && st.versions[v].deployed == True ==> st.successes != [])
    && (forall k :: 0 <= k < |st.pending| && st.pending[k].after.deployed == True ==> st.successes != [])
    && (forall s :: s in st.successes ==>
          && (s.asked.Some? <==> s.target.kind == KUBERNETES)
          && (s.asked.Some? ==> Delivers(s.asked.value, s)))
    && st.deployer == FirstAsked(st.successes)
  }

  lemma PatchKeeps(current: Status, p: Pending)
    requires SoundStatus(current) && SoundRun(p) && Grown(p.before, current)
    ensures SoundStatus(Patch(current, p)) && Grown(current, Patch(current, p))
  {
  }

  lemma RunSound(s: Status, namespace: string, i: PipelineSights)
    requires SoundStatus(s)
    ensures var r := PipelineRun(s, namespace, i); r.Some? ==> SoundRun(Pending(s, r.value))
  {
  }

  lemma ScheduledSound(s: Status, i: SchedulerSights, target: Option<Ref>, ok: bool)
    requires SoundStatus(s) && Schedulable(s, i)
    ensures SoundRun(Pending(s, Scheduled(s, target, ok, i.generation)))
  {
  }

  lemma ApplyKeeps(namespace: string, st: State, e: Event)
    requires Kept(st)
    ensures Kept(Apply(namespace, st, e))
    ensures st.versions <= Apply(namespace, st, e).versions
  {
    var last := st.versions[|st.versions| - 1];
    match e
    case Reconcile(v, i) =>
      if v < |st.versions| { RunSound(st.versions[v], namespace, i); }
    case Schedule(v, i, target) =>
      if v < |st.versions| && Schedulable(st.versions[v], i) {
        ScheduledSound(st.versions[v], i, target, Deployed(i, target).Some?);
      }
    case Commit(k) =>
      if k < |st.pending| { CommitKeeps(st, k); }
    case Lose(k) =>
  }

  lemma CommitKeeps(st: State, k: nat)
    requires Kept(st) && k < |st.pending|
    ensures var last := st.versions[|st.versions| - 1];
      Kept(st.(versions := st.versions + [Patch(last, st.pending[k])],
               pending := st.pending[..k] + st.pending[k + 1..]))
  {
    var last := st.versions[|st.versions| - 1];
    var next := Patch(last, st.pending[k]);
    PatchKeeps(last, st.pending[k]);
    var versions := st.versions + [next];
    forall v, w | 0 <= v <= w < |versions| ensures Grown(versions[v], versions[w]) {
      if v < w == |st.versions| { assert Grown(st.versions[v], last); }
    }
  }

  lemma {:induction false} AskedSnoc(ss: seq<Success>, d: Option<FluxDeployer>, i: SchedulerSights, target: Option<Ref>)
    requires d == FirstAsked(ss) && Deployed(i, target).Some? && i.snapshot.SnapshotFound?
    ensures var t := Deployed(i, target).value;
      FirstAsked(ss + [Success(t, i.snapshot.ownerKinds, Asked(i, t))]) == DeployerAfter(d, i, target)
  {
    var t := Deployed(i, target).value;
    assert (ss + [Success(t, i.snapshot.ownerKinds, Asked(i, t))])[..|ss|] == ss;
  }

  lemma {:induction false} ScheduleBacks(namespace: string, st: State, e: Event)
    requires st.versions != [] && Backed(st) && e.Schedule?
    ensures Backed(Apply(namespace, st, e))
  {
    var i, target := e.scheduling, e.target;
    if e.version < |st.versions| && Schedulable(st.versions[e.version], i) {
      var next := Apply(namespace, st, e);
      if Deployed(i, target).Some? {
        AskedSnoc(st.successes, st.deployer, i, target);
        assert next.successes != [];
      } else {
        assert next.successes == st.successes;
      }
    }
  }

  lemma {:induction false} CommitBacks(namespace: string, st: State, k: nat)
    requires st.versions != [] && Backed(st) && k < |st.pending|
    ensures Backed(Apply(namespace, st, Commit(k)))
  {
    var last := st.versions[|st.versions| - 1];
    var next := Patch(last, st.pending[k]);
    assert next.deployed == True ==> last.deployed == True || st.pending[k].after.deployed == True;
  }

  lemma {:induction false} ReconcileBacks(namespace: string, st: State, e: Event)
    requires st.versions != [] && Backed(st) && e.Reconcile?
    ensures Backed(Apply(namespace, st, e))
  {
    if e.version < |st.versions| {
      var s := st.versions[e.version];
      var r := PipelineRun(s, namespace, e.sights);
      assert r.Some? ==> r.value.deployed == s.deployed;
    }
  }

  lemma {:induction false} ApplyBacks(namespace: string, st: State, e: Event)
    requires st.versions != [] && Backed(st)
    ensures Backed(Apply(namespace, st, e))
  {
    match e
    case Reconcile(_, _) => ReconcileBacks(namespace, st, e);
    case Schedule(_, _, _) => ScheduleBacks(namespace, st, e);
    case Commit(k) =>
      if k < |st.pending| { CommitBacks(namespace, st, k); }
    case Lose(k) =>
  }

  lemma {:induction false} HistoryBacks(namespace: string, st: State, es: seq<Event>)
    requires st.versions != [] && Backed(st)
    ensures Backed(History(namespace, st, es))
    decreases |es|
  {
    if es != [] {
      ApplyBacks(namespace, st, es[0]);
      HistoryBacks(namespace, Apply(namespace, st, es[0]), es[1..]);
    }
  }

  lemma {:induction false} FirstAskedExact(ss: seq<Success>, k: nat)
    requires k < |ss| && ss[k].asked.Some? && forall j :: 0 <= j < k ==> ss[j].asked.None?
    ensures FirstAsked(ss) == ss[k].asked
  {
    var front := ss[..|ss| - 1];
    if k < |front| {
      FirstAskedExact(front, k);
    } else {
      NoneAsked(front);
    }
  }

  lemma {:induction false} NoneAsked(ss: seq<Success>)
    requires forall s :: s in ss ==> s.asked.None?
    ensures FirstAsked(ss) == None
  {
    if ss != [] {
      assert ss[|ss| - 1] in ss && forall s :: s in ss[..|ss| - 1] ==> s in ss;
      NoneAsked(ss[..|ss| - 1]);
    }
  }

  const START := State([FRESH], [], [], [], None)

  /** The deployment at k is the first one to a Kubernetes target. */
  predicate FirstKubernetes(ss: seq<Success>, k: nat) {
    k < |ss| && ss[k].target.kind == "kubernetes" && forall j :: 0 <= j < k ==> ss[j].target.kind != "kubernetes"
  }

  lemma {:induction false} FindFirst(ss: seq<Success>) returns (k: nat)
    requires exists s :: s in ss && s.target.kind == KUBERNETES
    ensures FirstKubernetes(ss, k)
  {
    k := 0;
    while ss[k].target.kind != KUBERNETES
      invariant k < |ss| && forall j :: 0 <= j < k ==> ss[j].target.kind != KUBERNETES
      invariant exists j :: k <= j < |ss| && ss[j].target.kind == KUBERNETES
      decreases |ss| - k
    {
      k := k + 1;
    }
  }

  lemma {:induction false} AskedExact(ss: seq<Success>)
    requires forall s :: s in ss ==> (s.asked.Some? <==> s.target.kind == KUBERNETES)
    ensures FirstAsked(ss).Some? <==> exists s :: s in ss && s.target.kind == KUBERNETES
    ensures forall k: nat :: FirstKubernetes(ss, k) ==> FirstAsked(ss) == ss[k].asked
  {
    forall k: nat | FirstKubernetes(ss, k) ensures FirstAsked(ss) == ss[k].asked {
      assert ss[k] in ss && forall j :: 0 <= j < k ==> ss[j] in ss;
      FirstAskedExact(ss, k);
    }
    if exists s :: s in ss && s.target.kind == KUBERNETES {
      var k := FindFirst(ss);
      assert ss[k] in ss;
    } else {
      NoneAsked(ss);
    }
  }

  /** Whatever the interleaving, from a fresh pipeline: Deployed=True, in any version the status ever
      had, means that a deployment succeeded; the FluxDeployer is in the cluster if and only if one
      of them went to a Kubernetes target; and it takes the snapshot to the first of those. */
  lemma DeployedBacked(namespace: string, es: seq<Event>)
    ensures var st := History(namespace, START, es);
      && (forall v :: 0 <= v < |st.versions| && st.versions[v].deployed == True ==> st.successes != [])
      && (st.deployer.Some? <==> exists s :: s in st.successes && s.target.kind == KUBERNETES)
      && (forall k: nat :: FirstKubernetes(st.successes, k) ==>
            st.deployer.Some? && Delivers(st.deployer.value, st.successes[k]))
  {
    HistoryBacks(namespace, START, es);
    var st := History(namespace, START, es);
    AskedExact(st.successes);
    forall k: nat | FirstKubernetes(st.successes, k)
      ensures st.deployer.Some? && Delivers(st.deployer.value, st.successes[k])
    {
      assert st.successes[k] in st.successes;
    }
  }

  lemma {:induction false} HistoryKeeps(namespace: string, st: State, es: seq<Event>)
    requires Kept(st)
    ensures Kept(History(namespace, st, es))
    ensures st.versions <= History(namespace, st, es).versions
    decreases |es|
  {
    if es != [] {
      ApplyKeeps(namespace, st, es[0]);
      HistoryKeeps(namespace, Apply(namespace, st, es[0]), es[1..]);
    }
  }

  /** Whatever the interleaving, from a fresh pipeline: a reference that was set is never nil
      again; Deployed=True means that both references are set and Ready=True that the snapshot
      is; and Deploy is never called without a snapshot reference, which it reads unchecked. */
  lemma TwoControllersSafe(namespace: string, es: seq<Event>)
    ensures var st := History(namespace, START, es);
      && (forall v, w :: 0 <= v <= w < |st.versions| && st.versions[v].snapshotRef.Some? ==>
            st.versions[w].snapshotRef.Some?)
      && (forall v, w :: 0 <= v <= w < |st.versions| && st.versions[v].targetRef.Some? ==>
            st.versions[w].targetRef.Some?)
      && (forall v :: 0 <= v < |st.versions| && st.versions[v].deployed == True ==>
            st.versions[v].snapshotRef.Some? && st.versions[v].targetRef.Some?)
      && (forall v :: 0 <= v < |st.versions| && st.versions[v].ready == True ==> st.versions[v].snapshotRef.Some?)
      && (forall d :: d in st.deploys ==> d.snapshotRef.Some?)
  {
    HistoryKeeps(namespace, START, es);
    var st := History(namespace, START, es);
    forall v, w | 0 <= v <= w < |st.versions|
      ensures st.versions[v].snapshotRef.Some? ==> st.versions[w].snapshotRef.Some?
      ensures st.versions[v].targetRef.Some? ==> st.versions[w].targetRef.Some?
    {
      assert Grown(st.versions[v], st.versions[w]);
    }
    forall v | 0 <= v < |st.versions|
      ensures st.versions[v].deployed == True ==> st.versions[v].snapshotRef.Some? && st.versions[v].targetRef.Some?
      ensures st.versions[v].ready == True ==> st.versions[v].snapshotRef.Some?
    {
      assert SoundStatus(st.versions[v]);
    }
  }

  // ----- which target Deployed=True is about -----

  /** A deployment to the target that r names succeeded. */
  ghost predicate Backs(ss: seq<Success>, r: Option<Ref>) {
    r.Some? && exists s :: s in ss && s.target.name == r.value.name && s.target.namespace == r.value.namespace
  }

  /** Deployed=True is about the selected target. */
  ghost predicate Honest(ss: seq<Success>, s: Status) {
    s.deployed == True ==> Backs(ss, s.targetRef)
  }

  /** The run says Deployed=True of the target it selected, if it changes either. */
  ghost predicate RunHonest(ss: seq<Success>, p: Pending) {
    p.after.deployed == True && (p.before.deployed != True || p.before.targetRef != p.after.targetRef) ==>
      Backs(ss, p.after.targetRef)
  }

  /** The patch mixes two runs: it turns Deployed true and finds another target selected than it read,
      or it selects another target, to which it could not deploy, and finds Deployed=True. */
  ghost predicate Mixes(ss: seq<Success>, current: Status, p: Pending) {
    || (&& p.before.deployed != True && p.after.deployed == True
        && p.before.targetRef == p.after.targetRef && !Backs(ss, current.targetRef))
    || (&& p.before.deployed == p.after.deployed != True && current.deployed == True
        && p.before.targetRef != p.after.targetRef && !Backs(ss, p.after.targetRef))
  }

  /** One commit leaves Deployed=True about the selected target exactly when it does not mix. */
  lemma {:induction false} CommitExact(ss: seq<Success>, current: Status, p: Pending)
    requires Honest(ss, current) && RunHonest(ss, p)
    ensures Honest(ss, Patch(current, p)) <==> !Mixes(ss, current, p)
  {
  }

  /** The run changes the selected target or Deployed, and finds one of them otherwise than it read it. */
  predicate StaleCommit(current: Status, p: Pending) {
    && (p.after.targetRef != p.before.targetRef || p.after.deployed != p.before.deployed)
    && (current.targetRef != p.before.targetRef || current.deployed != p.before.deployed)
  }

  /** Only a stale commit mixes. */
  lemma {:induction false} CurrentRunDoesNotMix(ss: seq<Success>, current: Status, p: Pending)
    requires RunHonest(ss, p) && !StaleCommit(current, p)
    ensures !Mixes(ss, current, p)
  {
  }

  ghost predicate HonestThroughout(namespace: string, st: State, es: seq<Event>)
    requires st.versions != []
    decreases |es|
  {
    && Honest(st.successes, st.versions[|st.versions| - 1])
    && (es != [] ==> HonestThroughout(namespace, Apply(namespace, st, es[0]), es[1..]))
  }

  ghost predicate NoneMixes(namespace: string, st: State, es: seq<Event>)
    requires st.versions != []
    decreases |es|
  {
    es != [] ==>
      && (es[0].Commit? && es[0].run < |st.pending| ==>
            !Mixes(st.successes, st.versions[|st.versions| - 1], st.pending[es[0].run]))
      && NoneMixes(namespace, Apply(namespace, st, es[0]), es[1..])
  }

  predicate NoneStale(namespace: string, st: State, es: seq<Event>)
    requires st.versions != []
    decreases |es|
  {
    es != [] ==>
      && (es[0].Commit? && es[0].run < |st.pending| ==>
            !StaleCommit(st.versions[|st.versions| - 1], st.pending[es[0].run]))
      && NoneStale(namespace, Apply(namespace, st, es[0]), es[1..])
  }

  ghost predicate RunsHonest(st: State) {
    forall p :: p in st.pending ==> RunHonest(st.successes, p)
  }

  lemma {:induction false} BacksMore(ss: seq<Success>, more: seq<Success>, r: Option<Ref>)
    requires Backs(ss, r)
    ensures Backs(ss + more, r)
  {
    var s :| s in ss && s.target.name == r.value.name && s.target.namespace == r.value.namespace;
    assert s in ss + more;
  }

  lemma {:induction false} ScheduledHonest(ss: seq<Success>, s: Status, i: SchedulerSights, target: Option<Ref>)
    requires i.snapshot.SnapshotFound?
    ensures var t := Deployed(i, target);
      var more := ss + if t.Some? then [Success(t.value, i.snapshot.ownerKinds, Asked(i, t.value))] else [];
      RunHonest(more, Pending(s, Scheduled(s, target, t.Some?, i.generation)))
  {
    var t := Deployed(i, target);
    if t.Some? {
      var done := Success(t.value, i.snapshot.ownerKinds, Asked(i, t.value));
      assert done in ss + [done];
    }
  }

  lemma {:induction false} ApplyKeepsRuns(namespace: string, st: State, e: Event)
    requires st.versions != [] && RunsHonest(st)
    ensures var next := Apply(namespace, st, e);
      && RunsHonest(next)
      && (Honest(st.successes, st.versions[|st.versions| - 1]) ==>
            Honest(next.successes, st.versions[|st.versions| - 1]))
  {
    var next := Apply(namespace, st, e);
    match e
    case Reconcile(v, i) =>
    case Schedule(v, i, target) =>
      if v < |st.versions| && Schedulable(st.versions[v], i) {
        ScheduledHonest(st.successes, st.versions[v], i, target);
        var t := Deployed(i, target);
        var more := if t.Some? then [Success(t.value, i.snapshot.ownerKinds, Asked(i, t.value))] else [];
        forall r | Backs(st.successes, r) ensures Backs(st.successes + more, r) {
          BacksMore(st.successes, more, r);
        }
      }
    case Commit(k) =>
    case Lose(k) =>
  }

  lemma {:induction false} HonestExact(namespace: string, st: State, es: seq<Event>)
    requires st.versions != [] && RunsHonest(st) && Honest(st.successes, st.versions[|st.versions| - 1])
    ensures HonestThroughout(namespace, st, es) <==> NoneMixes(namespace, st, es)
    decreases |es|
  {
    if es != [] {
      var next := Apply(namespace, st, es[0]);
      ApplyKeepsRuns(namespace, st, es[0]);
      if es[0].Commit? && es[0].run < |st.pending| {
        var p := st.pending[es[0].run];
        assert p in st.pending;
        CommitExact(st.successes, st.versions[|st.versions| - 1], p);
      }
      if Honest(next.successes, next.versions[|next.versions| - 1]) {
        HonestExact(namespace, next, es[1..]);
      }
    }
  }

  /** From a fresh pipeline, in every interleaving: Deployed=True is about the selected target all the
      time exactly when no commit mixes two runs of the scheduler. */
  lemma SelectedTargetDeployed(namespace: string, es: seq<Event>)
    ensures HonestThroughout(namespace, START, es) <==> NoneMixes(namespace, START, es)
  {
    HonestExact(namespace, START, es);
  }

  lemma {:induction false} NoneStaleMixes(namespace: string, st: State, es: seq<Event>)
    requires st.versions != [] && RunsHonest(st) && NoneStale(namespace, st, es)
    ensures NoneMixes(namespace, st, es)
    decreases |es|
  {
    if es != [] {
      ApplyKeepsRuns(namespace, st, es[0]);
      if es[0].Commit? && es[0].run < |st.pending| {
        var p := st.pending[es[0].run];
        assert p in st.pending;
        CurrentRunDoesNotMix(st.successes, st.versions[|st.versions| - 1], p);
      }
      NoneStaleMixes(namespace, Apply(namespace, st, es[0]), es[1..]);
    }
  }

  /** From a fresh pipeline, in every interleaving in which each run that changes the selected target or
      Deployed commits onto the values it read of them: Deployed=True is about the selected target. */
  lemma CurrentRunsHonest(namespace: string, es: seq<Event>)
    requires NoneStale(namespace, START, es)
    ensures HonestThroughout(namespace, START, es)
  {
    NoneStaleMixes(namespace, START, es);
    SelectedTargetDeployed(namespace, es);
  }

  // ----- a run of the scheduler that reads an old version -----

  function KubernetesTarget(name: string): Target {
    Target(name, "ns", map[], KUBERNETES, Some(Access(true, "apps", None)))
  }

  /** A ready snapshot and two targets; createOk tells whether the FluxDeployer can be made. */
  function TwoTargets(createOk: bool): SchedulerSights {
    SchedulerSights(1, SnapshotFound(true, [("Configuration", "p")]), [KubernetesTarget("a"), KubernetesTarget("b")],
                    true, 0, false, createOk)
  }

  const TO_A := Some(Ref("a", "ns"))
  const TO_B := Some(Ref("b", "ns"))

  function Seen(reconciling: Condition, deployed: Condition, target: Option<Ref>): Status {
    Status(True, reconciling, deployed, 1, target, Some(Ref("snapshot", "ns")))
  }

  /** The state of the pipeline once deploying to a has failed. */
  function AfterFailure(): State {
    State([FRESH, Seen(Unset, Unset, None), Seen(True, False, TO_A)], [],
          [Seen(True, Unset, TO_A)], [], None)
  }

  lemma {:induction false} FailureFirst()
    ensures
      var e1, e2 := Reconcile(0, PipelineSights(1, 1, true, true, true, Some("snapshot"))), Commit(0);
      var e3 := Schedule(1, TwoTargets(false), TO_A);
      Apply("ns", Apply("ns", Apply("ns", Apply("ns", START, e1), e2), e3), Commit(0)) == AfterFailure()
  {
    var i := PipelineSights(1, 1, true, true, true, Some("snapshot"));
    assert PipelineRun(FRESH, "ns", i) == Some(Seen(Unset, Unset, None));
    var s1 := Apply("ns", START, Reconcile(0, i));
    assert s1.pending == [Pending(FRESH, Seen(Unset, Unset, None))];
    var s2 := Apply("ns", s1, Commit(0));
    assert s2.versions == [FRESH, Seen(Unset, Unset, None)] && s2.pending == [];
    var sights := TwoTargets(false);
    assert GetTarget(sights.targets, TO_A.value) == Some(KubernetesTarget("a"));
    assert Deployed(sights, TO_A) == None;
    var s3 := Apply("ns", s2, Schedule(1, sights, TO_A));
    assert s3.pending == [Pending(Seen(Unset, Unset, None), Seen(True, False, TO_A))];
    assert s3.deploys == [Seen(True, Unset, TO_A)] && s3.successes == [];
    var s4 := Apply("ns", s3, Commit(0));
    assert s4.versions == s3.versions + [Seen(True, False, TO_A)] && s4.pending == [];
  }

  /** Then one run deploys to a and commits, and the next, which still reads the version before,
      fails on b: Deployed=True stands beside b, where nothing was ever deployed. */
  lemma {:induction false} MixedRuns()
    ensures
      var st := AfterFailure();
      var one := Apply("ns", Apply("ns", st, Schedule(2, TwoTargets(true), TO_A)), Commit(0));
      var end := Apply("ns", Apply("ns", one, Schedule(2, TwoTargets(false), TO_B)), Commit(0));
      var last := end.versions[|end.versions| - 1];
      last.deployed == True && last.targetRef == TO_B && !Honest(end.successes, last)
  {
    var st := AfterFailure();
    var good, bad := TwoTargets(true), TwoTargets(false);
    assert GetTarget(good.targets, TO_A.value) == Some(KubernetesTarget("a"));
    assert KubernetesTarget("a").name[0] != KubernetesTarget("b").name[0];
    assert GetTarget(bad.targets, TO_B.value) == GetTarget(bad.targets[1..], TO_B.value) == Some(KubernetesTarget("b"));
    assert Deployed(good, TO_A) == Some(KubernetesTarget("a")) && Deployed(bad, TO_B) == None;
    var read := Seen(True, False, TO_A);
    var s1 := Apply("ns", st, Schedule(2, good, TO_A));
    assert s1.pending == [Pending(read, Seen(Unset, True, TO_A))];
    assert s1.successes == [Success(KubernetesTarget("a"), [("Configuration", "p")],
                                     Asked(good, KubernetesTarget("a")))];
    var s2 := Apply("ns", s1, Commit(0));
    assert s2.versions == st.versions + [Seen(Unset, True, TO_A)] && s2.pending == [];
    var s3 := Apply("ns", s2, Schedule(2, bad, TO_B));
    assert s3.pending == [Pending(read, Seen(True, False, TO_B))] && s3.successes == s1.successes;
    var s4 := Apply("ns", s3, Commit(0));
    assert s4.versions[|s4.versions| - 1] == Seen(Unset, True, TO_B);
  }
}
