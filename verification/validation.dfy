/** The Validation reconciler (controllers/validation_controller.go).

    A run reads the stored status into an object of its own, works on that object, and a
    deferred patch writes it back, which may fail. What a run sees of the rest of the cluster
    and of the pull request is given to it as its Sights. */
module Validation {
  import opened Wrappers

  datatype Ready = Unset | True | False
  datatype Ref = Ref(name: string, namespace: string)
  datatype Verdict = FetchFailed | Rejected | Approved

  /** The stored status. The outcome, once set, is always "success": no code sets "failed". */
  datatype Status = Status(ready: Ready, gitRef: Option<Ref>, lastDigest: string, success: bool, observed: int)

  datatype SyncSight = SyncMissing | SyncFailed | SyncFound(ready: bool, pullRequest: nat)
  datatype ProjectSight = ProjectFailed | ProjectFound(ready: bool, repositoryRef: bool)
  datatype PullSight = PullFailed | Open | MergedOrClosed

  datatype Sights = Sights(
    generation: int,
    owners: nat,
    sync: SyncSight,
    project: ProjectSight,
    repositoryFound: bool,
    pull: PullSight,
    deleteOk: bool,
    createOk: bool,
    getOk: bool,
    fetchOk: bool,
    configOk: bool,
    schemaOk: bool,
    validOk: bool,
    passOk: bool,
    patchOk: bool)

  /** Calls that leave a trace outside the object. */
  datatype Call = Create | Delete | Pass

  /** A digest that was taken up for validation, and what the run met that did so. */
  datatype Attempt = Attempt(digest: string, sights: Sights)

  /** repos holds the GitRepositories of the cluster with the digest of their artifact, if any. */
  datatype State = State(status: Status, repos: map<Ref, Option<string>>, calls: seq<Call>, attempts: seq<Attempt>)

  datatype Answer = Answer(requeue: bool, failed: bool)

  // ----- one run as a function -----

  /** What a run does with the object it read. */
  datatype Course =
    | Leave(answer: Answer)
    | NoProject
    | CleanUp
    | CleanUpFailed
    | Crash
    | Track
    | Examine(digest: string, verdict: Verdict)

  const WAIT := Leave(Answer(true, false))
  const STOP := Leave(Answer(false, false))
  const FAIL := Leave(Answer(false, true))

  function CourseOf(st: State, i: Sights): Course {
    if i.owners != 1 then FAIL
    else if i.sync.SyncMissing? then WAIT
    else if i.sync.SyncFailed? then FAIL
    else if !i.sync.ready || i.sync.pullRequest == 0 then WAIT
    else if i.project.ProjectFailed? then NoProject
    else if !i.project.ready || !i.project.repositoryRef then WAIT
    else if !i.repositoryFound then FAIL
    else if st.status.ready == True && i.pull != Open then
      if i.pull.PullFailed? then FAIL
      else if st.status.gitRef.None? then Crash
      else if i.deleteOk then CleanUp
      else CleanUpFailed
    else if st.status.gitRef.None? then if i.createOk then Track else FAIL
    else if !i.getOk then FAIL
    else if st.status.gitRef.value !in st.repos then STOP
    else
      var artifact := st.repos[st.status.gitRef.value];
      if artifact.None? || artifact.value == st.status.lastDigest then WAIT
      else Examine(artifact.value, VerdictOf(i))
  }

  function VerdictOf(i: Sights): Verdict {
    if !i.fetchOk then FetchFailed
    else if i.configOk && i.schemaOk && i.validOk && i.passOk then Approved
    else Rejected
  }

  /** The object after the run, before the patch. */
  function Outcome(s: Status, own: Ref, c: Course): Status {
    match c
    case NoProject => s.(ready := False)
    case CleanUpFailed => s.(ready := False)
    case Track => s.(gitRef := Some(own))
    case Examine(d, FetchFailed) => s.(lastDigest := d)
    case Examine(d, Rejected) => s.(lastDigest := d, ready := False)
    case Examine(d, Approved) => s.(lastDigest := d, ready := True, success := true)
    case _ => s
  }

  function Observed(s: Status, generation: int): Status {
    if s.ready == True then s.(observed := generation) else s
  }

  function AnswerOf(c: Course): Answer {
    match c
    case Leave(a) => a
    case CleanUp => Answer(false, false)
    case Track => Answer(false, false)
    case Examine(_, Approved) => Answer(true, false)
    case _ => Answer(false, true)
  }

  /** What the run returns, its patch included. */
  function Replied(st: State, i: Sights): Answer {
    var a := AnswerOf(CourseOf(st, i));
    if i.patchOk then a else Answer(a.requeue, true)
  }

  function Calls(st: State, own: Ref, c: Course, i: Sights): seq<Call> {
    match c
    case CleanUp => if st.status.gitRef.Some? && st.status.gitRef.value in st.repos then [Delete] else []
    case Track => if own in st.repos then [] else [Create]
    case Examine(_, v) => if v != FetchFailed && i.configOk && i.schemaOk && i.validOk then [Pass] else []
    case _ => []
  }

  function Repos(st: State, own: Ref, c: Course): map<Ref, Option<string>> {
    match c
    case CleanUp => if st.status.gitRef.Some? then st.repos - {st.status.gitRef.value} else st.repos
    case Track => if own in st.repos then st.repos else st.repos[own := None]
    case _ => st.repos
  }

  function Step(own: Ref, st: State, i: Sights): State {
    var c := CourseOf(st, i);
    var s := Observed(Outcome(st.status, own, c), i.generation);
    State(
      if i.patchOk then s else st.status,
      Repos(st, own, c),
      st.calls + Calls(st, own, c, i),
      st.attempts + if c.Examine? then [Attempt(c.digest, i)] else [])
  }

  // ----- the controller -----

  /** The object a run works on. */
  class Object {
    var ready: Ready
    var gitRef: Option<Ref>
    var lastDigest: string
    var success: bool
    var observed: int

    constructor (s: Status)
      ensures View() == s
    {
      ready, gitRef, lastDigest, success, observed := s.ready, s.gitRef, s.lastDigest, s.success, s.observed;
    }

    function View(): Status
      reads this
    {
      Status(ready, gitRef, lastDigest, success, observed)
    }

    method MarkNotReady()
      modifies this
      ensures View() == old(View()).(ready := False)
    {
      ready := False;
    }
  }

  class Reconciler {
    const own: Ref
    var status: Status
    var repos: map<Ref, Option<string>>
    ghost var calls: seq<Call>
    ghost var attempts: seq<Attempt>

    constructor (own: Ref, repos: map<Ref, Option<string>>)
      ensures this.own == own && View() == Initial(repos)
    {
      this.own, this.repos := own, repos;
      status := Status(Unset, None, "", false, 0);
      calls, attempts := [], [];
    }

    ghost function View(): State
      reads this
    {
      State(status, repos, calls, attempts)
    }

    method CreateValueFileGitRepository(i: Sights) returns (ref: Option<Ref>)
      modifies this
      ensures ref == if i.createOk then Some(own) else None
      ensures View() ==
              if !i.createOk || own in old(repos) then old(View())
              else old(View()).(repos := old(repos)[own := None], calls := old(calls) + [Create])
    {
      if !i.createOk {
        return None;
      }
      if own !in repos {
        repos := repos[own := None];
        calls := calls + [Create];
      }
      return Some(own);
    }

    method DeleteGitRepository(ref: Ref, i: Sights) returns (ok: bool)
      modifies this
      ensures ok == i.deleteOk
      ensures View() ==
              if !i.deleteOk || ref !in old(repos) then old(View())
              else old(View()).(repos := old(repos) - {ref}, calls := old(calls) + [Delete])
    {
      if !i.deleteOk {
        return false;
      }
      if ref in repos {
        repos := repos - {ref};
        calls := calls + [Delete];
      }
      return true;
    }

    /** crash stands for the dereference of a nil reference. */
    method ShouldRun(obj: Object, i: Sights) returns (run: bool, answer: Answer, crash: bool)
      requires i.owners == 1 && obj.View() == status
      modifies this, obj
      ensures var c := CourseOf(old(View()), i);
        && crash == c.Crash?
        && (run <==> c.Examine? || (c == WAIT && Examining(old(View()), i)))
        && (!run ==> answer == AnswerOf(c))
        && obj.View() == (if c.Examine? then old(status) else Outcome(old(status), own, c))
        && View() == old(View()).(repos := Repos(old(View()), own, c),
                                  calls := old(calls) + if c.Examine? then [] else Calls(old(View()), own, c, i))
      ensures run ==> status.gitRef.Some? && status.gitRef.value in repos
    {
      crash := false;
      if i.sync.SyncMissing? {
        return false, Answer(true, false), false;
      }
      if i.sync.SyncFailed? {
        return false, Answer(false, true), false;
      }
      if !i.sync.ready || i.sync.pullRequest == 0 {
        return false, Answer(true, false), false;
      }
      if i.project.ProjectFailed? {
        obj.MarkNotReady();
        return false, Answer(false, true), false;
      }
      if !i.project.ready || !i.project.repositoryRef {
        return false, Answer(true, false), false;
      }
      if !i.repositoryFound {
        return false, Answer(false, true), false;
      }
      if obj.ready == True {
        if i.pull.PullFailed? {
          return false, Answer(false, true), false;
        }
        if i.pull.MergedOrClosed? {
          if obj.gitRef.None? {
            return false, Answer(false, true), true;
          }
          var ok := DeleteGitRepository(obj.gitRef.value, i);
          if !ok {
            obj.MarkNotReady();
            return false, Answer(false, true), false;
          }
          return false, Answer(false, false), false;
        }
      }
      if obj.gitRef.None? {
        var ref := CreateValueFileGitRepository(i);
        if ref.None? {
          return false, Answer(false, true), false;
        }
        obj.gitRef := ref;
        return false, Answer(false, false), false;
      }
      if !i.getOk {
        return false, Answer(false, true), false;
      }
      if obj.gitRef.value !in repos {
        return false, Answer(false, false), false;
      }
      return true, Answer(false, false), false;
    }

    /** The part of a run behind shouldRun. */
    method Validate(obj: Object, artifact: Option<string>, i: Sights) returns (answer: Answer)
      modifies this, obj
      ensures var examine := artifact.Some? && artifact.value != old(obj.lastDigest);
        var c := if examine then Examine(artifact.value, VerdictOf(i)) else WAIT;
        && answer == AnswerOf(c)
        && obj.View() == Outcome(old(obj.View()), own, c)
        && View() == old(View()).(
             calls := old(calls) + Calls(old(View()), own, c, i),
             attempts := old(attempts) + if examine then [Attempt(c.digest, i)] else [])
    {
      if artifact.None? {
        return Answer(true, false);
      }
      if artifact.value == obj.lastDigest {
        return Answer(true, false);
      }
      obj.lastDigest := artifact.value;
      attempts := attempts + [Attempt(artifact.value, i)];
      if !i.fetchOk {
        return Answer(false, true);
      }
      if !i.configOk {
        obj.MarkNotReady();
        return Answer(false, true);
      }
      if !i.schemaOk {
        obj.MarkNotReady();
        return Answer(false, true);
      }
      if !i.validOk {
        obj.MarkNotReady();
        return Answer(false, true);
      }
      calls := calls + [Pass];
      if !i.passOk {
        obj.MarkNotReady();
        return Answer(false, true);
      }
      obj.ready := True;
      obj.success := true;
      return Answer(true, false);
    }

    /** A run of an object with one owner, up to its patch. */
    method Work(obj: Object, i: Sights) returns (answer: Answer, crash: bool)
      requires i.owners == 1 && obj.View() == status
      modifies this, obj
      ensures var c := CourseOf(old(View()), i);
        && answer == AnswerOf(c) && crash == c.Crash?
        && obj.View() == Outcome(old(status), own, c)
        && View() == old(View()).(
             repos := Repos(old(View()), own, c),
             calls := old(calls) + Calls(old(View()), own, c, i),
             attempts := old(attempts) + if c.Examine? then [Attempt(c.digest, i)] else [])
    {
      var run;
      run, answer, crash := ShouldRun(obj, i);
      if run {
        answer := Validate(obj, repos[obj.gitRef.value], i);
      } else {
        assert attempts + [] == attempts;
      }
    }

    /** The deferred patch runs after a crash, too; its error is joined to that of the run. */
    method Reconcile(i: Sights) returns (answer: Answer, crash: bool)
      modifies this
      ensures View() == Step(own, old(View()), i)
      ensures answer == Replied(old(View()), i) && crash == CourseOf(old(View()), i).Crash?
    {
      var obj := new Object(status);
      crash := false;
      if i.owners != 1 {
        answer := Answer(false, true);
      } else {
        answer, crash := Work(obj, i);
      }
      if obj.ready == True {
        obj.observed := i.generation;
      }
      if i.patchOk {
        status := obj.View();
      } else {
        answer := Answer(answer.requeue, true);
      }
    }
  }

  /** The run comes as far as the tracked repository. */
  ghost predicate Examining(st: State, i: Sights) {
    && i.sync.SyncFound? && i.sync.ready && i.sync.pullRequest != 0
    && i.project.ProjectFound? && i.project.ready && i.project.repositoryRef && i.repositoryFound
    && (st.status.ready == True ==> i.pull == Open)
    && st.status.gitRef.Some? && i.getOk && st.status.gitRef.value in st.repos
  }

  function Initial(repos: map<Ref, Option<string>>): State {
    State(Status(Unset, None, "", false, 0), repos, [], [])
  }
}
