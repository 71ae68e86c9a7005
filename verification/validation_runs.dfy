/** What every history of the Validation reconciler keeps. Between two runs the rest of the
    cluster may change artifacts, remove repositories and create others. */
module ValidationRuns {
  import opened Wrappers
  import opened Validation

  datatype Event =
    | Run(sights: Sights)
    | Artifact(ref: Ref, digest: Option<string>)
    | Removed(ref: Ref)
    | Added(ref: Ref)

  function Apply(own: Ref, st: State, e: Event): State {
    match e
    case Run(i) => Step(own, st, i)
    case Artifact(r, d) => if r in st.repos then st.(repos := st.repos[r := d]) else st
    case Removed(r) => st.(repos := st.repos - {r})
    case Added(r) => if r in st.repos then st else st.(repos := st.repos[r := None])
  }

  function History(own: Ref, st: State, es: seq<Event>): State
    decreases |es|
  {
    if es == [] then st else History(own, Apply(own, st, es[0]), es[1..])
  }

  // ----- one run, effect by effect -----

  /** The Sync, the project and the Git repository of the pull request are there. */
  predicate Arrives(i: Sights) {
    && i.owners == 1 && i.sync.SyncFound? && i.sync.ready && i.sync.pullRequest != 0
    && i.project.ProjectFound? && i.project.ready && i.project.repositoryRef && i.repositoryFound
  }

  /** The validation is ready, and its pull request is merged or closed. */
  predicate Ends(st: State, i: Sights) {
    Arrives(i) && st.status.ready == True && i.pull.MergedOrClosed?
  }

  predicate GoesOn(st: State, i: Sights) {
    Arrives(i) && (st.status.ready == True ==> i.pull == Open)
  }

  predicate FindsTracked(st: State, i: Sights) {
    GoesOn(st, i) && st.status.gitRef.Some? && i.getOk && st.status.gitRef.value in st.repos
  }

  lemma ExaminingExact(st: State, i: Sights)
    requires i.owners == 1
    ensures Examining(st, i) <==> FindsTracked(st, i)
  {
  }

  /** The tracked repository has an artifact of another digest than the recorded one. */
  predicate TakesUp(st: State, i: Sights) {
    && FindsTracked(st, i)
    && st.repos[st.status.gitRef.value].Some? && st.repos[st.status.gitRef.value].value != st.status.lastDigest
  }

  predicate Tracks(st: State, i: Sights) {
    GoesOn(st, i) && st.status.gitRef.None? && i.createOk
  }

  predicate Cleans(st: State, i: Sights) {
    Ends(st, i) && st.status.gitRef.Some? && i.deleteOk
  }

  /** What makes a run take Ready away. */
  predicate Unready(st: State, i: Sights) {
    || (i.owners == 1 && i.sync.SyncFound? && i.sync.ready && i.sync.pullRequest != 0 && i.project.ProjectFailed?)
    || (Ends(st, i) && st.status.gitRef.Some? && !i.deleteOk)
    || (TakesUp(st, i) && i.fetchOk && !AllChecks(i))
  }

  /** The stored status: the digest is recorded by the run that takes it up, whatever comes of it; Ready
      turns true, and the outcome success, only if all checks pass; and a lost patch changes nothing. */
  lemma StatusExact(own: Ref, st: State, i: Sights)
    ensures var s, t := st.status, Step(own, st, i).status;
      if !i.patchOk then t == s
      else
        && t.lastDigest == (if TakesUp(st, i) then st.repos[s.gitRef.value].value else s.lastDigest)
        && t.gitRef == (if Tracks(st, i) then Some(own) else s.gitRef)
        && (t.success <==> s.success || (TakesUp(st, i) && AllChecks(i)))
        && (t.ready == True <==> (TakesUp(st, i) && AllChecks(i)) || (s.ready == True && !Unready(st, i)))
        && (t.ready == False <==> Unready(st, i) || (s.ready == False && !(TakesUp(st, i) && AllChecks(i))))
        && t.observed == (if t.ready == True then i.generation else s.observed)
  {
  }

  /** What happens outside: at most one call, and an attempt for each digest taken up. */
  lemma EffectsExact(own: Ref, st: State, i: Sights)
    ensures var next := Step(own, st, i);
      && next.calls == st.calls +
         (if Tracks(st, i) && own !in st.repos then [Create]
          else if Cleans(st, i) && st.status.gitRef.value in st.repos then [Delete]
          else if TakesUp(st, i) && i.fetchOk && i.configOk && i.schemaOk && i.validOk then [Pass]
          else [])
      && next.repos == (if Tracks(st, i) && own !in st.repos then st.repos[own := None]
                        else if Cleans(st, i) then st.repos - {st.status.gitRef.value}
                        else st.repos)
      && next.attempts == st.attempts +
         (if TakesUp(st, i) then [Attempt(st.repos[st.status.gitRef.value].value, i)] else [])
  {
  }

  /** What the run returns: when it fails, when it asks for another run, and when it dereferences nil. */
  lemma ReplyExact(st: State, i: Sights)
    ensures var r := Replied(st, i);
      && (r.requeue <==>
            i.owners == 1 &&
            (|| i.sync.SyncMissing?
             || (i.sync.SyncFound? && (!i.sync.ready || i.sync.pullRequest == 0))
             || (i.sync.SyncFound? && i.project.ProjectFound? && (!i.project.ready || !i.project.repositoryRef))
             || (FindsTracked(st, i) && (TakesUp(st, i) ==> AllChecks(i)))))
      && (!r.failed <==>
            && i.patchOk && i.owners == 1 && !i.sync.SyncFailed?
            && (i.sync.SyncFound? && i.sync.ready && i.sync.pullRequest != 0 ==>
                  && !i.project.ProjectFailed?
                  && (i.project.ready && i.project.repositoryRef ==>
                        && i.repositoryFound
                        && (GoesOn(st, i) || Cleans(st, i))
                        && (GoesOn(st, i) ==>
                              && (if st.status.gitRef.Some? then i.getOk else i.createOk)
                              && (TakesUp(st, i) ==> AllChecks(i))))))
      && (CourseOf(st, i).Crash? <==> Ends(st, i) && st.status.gitRef.None?)
  {
  }

  // ----- what is kept -----

  function LastCommitted(ats: seq<Attempt>): Option<Attempt> {
    if ats == [] then None
    else if ats[|ats| - 1].sights.patchOk then Some(ats[|ats| - 1])
    else LastCommitted(ats[..|ats| - 1])
  }

  /** The latest recorded attempt that got past fetching. */
  function LastFetched(ats: seq<Attempt>): Option<Attempt> {
    if ats == [] then None
    else if ats[|ats| - 1].sights.patchOk && ats[|ats| - 1].sights.fetchOk then Some(ats[|ats| - 1])
    else LastFetched(ats[..|ats| - 1])
  }

  /** The values could be fetched, values and schema were read, they agree, and the Git provider took
      the check. */
  predicate AllChecks(i: Sights) {
    i.fetchOk && i.configOk && i.schemaOk && i.validOk && i.passOk
  }

  ghost predicate NoCreateAfterDelete(calls: seq<Call>) {
    forall j, k :: 0 <= j < k < |calls| && calls[j] == Delete ==> calls[k] != Create
  }

  /** An attempt that was recorded is not followed by one on the same digest. */
  ghost predicate NoRepeat(ats: seq<Attempt>) {
    forall j, k :: 0 <= j && k == j + 1 < |ats| && ats[j].sights.patchOk ==> ats[k].digest != ats[j].digest
  }

  ghost predicate Kept(own: Ref, st: State) {
    && (st.status.ready == True ==>
          && st.status.gitRef.Some? && st.status.success
          && LastFetched(st.attempts).Some? && AllChecks(LastFetched(st.attempts).value.sights))
    && (st.status.gitRef.Some? ==> st.status.gitRef.value == own)
    && (Delete in st.calls ==> st.status.gitRef.Some?)
    && NoCreateAfterDelete(st.calls)
    && NoRepeat(st.attempts)
    && st.status.lastDigest ==
       (if LastCommitted(st.attempts).Some? then LastCommitted(st.attempts).value.digest else "")
  }

  lemma {:induction false} AppendAttempt(ats: seq<Attempt>, a: Attempt)
    requires NoRepeat(ats)
    requires ats != [] && ats[|ats| - 1].sights.patchOk ==> a.digest != ats[|ats| - 1].digest
    ensures NoRepeat(ats + [a])
    ensures LastCommitted(ats + [a]) == if a.sights.patchOk then Some(a) else LastCommitted(ats)
    ensures LastFetched(ats + [a]) == if a.sights.patchOk && a.sights.fetchOk then Some(a) else LastFetched(ats)
  {
    var more := ats + [a];
    assert more[..|ats|] == ats;
    forall j, k | 0 <= j && k == j + 1 < |more| && more[j].sights.patchOk ensures more[k].digest != more[j].digest {
      assert more[j] == ats[j];
      if k < |ats| { assert more[k] == ats[k]; }
    }
  }

  lemma {:induction false} AppendCalls(calls: seq<Call>, more: seq<Call>)
    requires NoCreateAfterDelete(calls) && |more| <= 1 && (more == [Create] ==> Delete !in calls)
    ensures NoCreateAfterDelete(calls + more)
    ensures Delete in calls + more <==> Delete in calls || more == [Delete]
  {
    forall j, k | 0 <= j < k < |calls + more| && (calls + more)[j] == Delete ensures (calls + more)[k] != Create {
      assert j < |calls| && calls[j] in calls;
    }
    assert more == [] || more == [more[0]];
  }

  lemma {:induction false} StepAttempts(own: Ref, st: State, i: Sights)
    requires Kept(own, st)
    ensures var ats := Step(own, st, i).attempts;
      && NoRepeat(ats)
      && (if TakesUp(st, i)
          then
            var a := Attempt(st.repos[st.status.gitRef.value].value, i);
            && LastCommitted(ats) == (if i.patchOk then Some(a) else LastCommitted(st.attempts))
            && LastFetched(ats) == (if i.patchOk && i.fetchOk then Some(a) else LastFetched(st.attempts))
          else ats == st.attempts)
  {
    EffectsExact(own, st, i);
    if TakesUp(st, i) {
      AppendAttempt(st.attempts, Attempt(st.repos[st.status.gitRef.value].value, i));
    } else {
      assert st.attempts + [] == st.attempts;
    }
  }

  lemma {:induction false} StepCalls(own: Ref, st: State, i: Sights)
    requires Kept(own, st)
    ensures var next := Step(own, st, i);
      && NoCreateAfterDelete(next.calls)
      && (Delete in next.calls ==> Delete in st.calls || Cleans(st, i))
  {
    EffectsExact(own, st, i);
    AppendCalls(st.calls, Calls(st, own, CourseOf(st, i), i));
  }

  lemma {:induction false} StepKeeps(own: Ref, st: State, i: Sights)
    requires Kept(own, st)
    ensures Kept(own, Step(own, st, i))
    ensures !CourseOf(st, i).Crash?
  {
    var next := Step(own, st, i);
    StatusExact(own, st, i);
    StepAttempts(own, st, i);
    StepCalls(own, st, i);
    assert st.status.ready == True ==> st.status.gitRef.Some?;
    assert Kept(own, next);
    ReplyExact(st, i);
  }

  /** In every reachable state Ready=True means that a repository is tracked, that the outcome
      is success and that the latest recorded attempt past fetching met no failing check; no Create
      follows a Delete; no recorded digest is taken up twice in a row. */
  lemma {:induction false} HistoryKeeps(own: Ref, st: State, es: seq<Event>)
    requires Kept(own, st)
    ensures Kept(own, History(own, st, es))
    decreases |es|
  {
    if es != [] {
      if es[0].Run? { StepKeeps(own, st, es[0].sights); }
      HistoryKeeps(own, Apply(own, st, es[0]), es[1..]);
    }
  }

  lemma Reachable(own: Ref, repos: map<Ref, Option<string>>, es: seq<Event>)
    ensures Kept(own, History(own, Initial(repos), es))
  {
    HistoryKeeps(own, Initial(repos), es);
  }

  /** Cleaning up never dereferences a nil reference, whatever came before. */
  lemma CleanUpNeverCrashes(own: Ref, repos: map<Ref, Option<string>>, es: seq<Event>, i: Sights)
    ensures !CourseOf(History(own, Initial(repos), es), i).Crash?
  {
    Reachable(own, repos, es);
    StepKeeps(own, History(own, Initial(repos), es), i);
  }

  /** With no patch lost, two attempts in a row never have the same digest. */
  lemma AttemptsDiffer(own: Ref, repos: map<Ref, Option<string>>, es: seq<Event>, k: nat)
    requires var ats := History(own, Initial(repos), es).attempts;
      k + 1 < |ats| && forall a :: a in ats ==> a.sights.patchOk
    ensures var ats := History(own, Initial(repos), es).attempts;
      ats[k].digest != ats[k + 1].digest
  {
    Reachable(own, repos, es);
    var ats := History(own, Initial(repos), es).attempts;
    assert ats[k] in ats;
  }

  // ----- what Ready=True says about the recorded digest -----

  lemma LastRecorded(ats: seq<Attempt>)
    ensures LastFetched(ats).Some? ==> LastCommitted(ats).Some?
    ensures LastCommitted(ats).Some? && LastCommitted(ats).value.sights.fetchOk ==>
              LastFetched(ats) == LastCommitted(ats)
  {
  }

  /** Ready=True vouches for the recorded digest exactly when the run that recorded it could
      fetch it: a failed fetch records the digest and leaves Ready as it was. */
  lemma ReadyVouches(own: Ref, repos: map<Ref, Option<string>>, es: seq<Event>)
    requires History(own, Initial(repos), es).status.ready == True
    ensures var st := History(own, Initial(repos), es);
      && LastCommitted(st.attempts).Some?
      && st.status.lastDigest == LastCommitted(st.attempts).value.digest
      && (AllChecks(LastCommitted(st.attempts).value.sights) <==> LastCommitted(st.attempts).value.sights.fetchOk)
  {
    Reachable(own, repos, es);
    LastRecorded(History(own, Initial(repos), es).attempts);
  }

  /** Once recorded, a digest is never taken up again while its artifact stays: after a failed
      fetch with Ready=True, no run on that artifact changes the verdict. */
  lemma {:induction false} RecordedDigestSticks(own: Ref, st: State, es: seq<Event>)
    requires st.status.gitRef == Some(own)
    requires own in st.repos && st.repos[own] == Some(st.status.lastDigest)
    requires forall e :: e in es ==> e.Run? && e.sights.pull == Open
    ensures History(own, st, es).attempts == st.attempts
    ensures History(own, st, es).status.lastDigest == st.status.lastDigest
    ensures st.status.ready != True ==> History(own, st, es).status.ready != True
    decreases |es|
  {
    if es != [] {
      assert es[0] in es;
      assert forall e :: e in es[1..] ==> e in es;
      var next := Apply(own, st, es[0]);
      assert st.attempts + [] == st.attempts;
      RecordedDigestSticks(own, next, es[1..]);
    }
  }

  // ----- after the pull request is merged or closed -----

  /** The tracked repository is gone. */
  ghost predicate Gone(own: Ref, st: State) {
    st.status.gitRef == Some(own) && own !in st.repos
  }

  /** A run that gets to see a Ready validation with a merged or closed pull request. */
  ghost predicate Settled(i: Sights) {
    && i.owners == 1 && i.sync.SyncFound? && i.sync.ready && i.sync.pullRequest != 0
    && i.project.ProjectFound? && i.project.ready && i.project.repositoryRef && i.repositoryFound
    && i.pull.MergedOrClosed? && i.deleteOk
  }

  /** The first settled run of a Ready validation removes the repository, changes nothing else
      but the observed generation, and asks for no further run. */
  lemma SettledRun(own: Ref, st: State, i: Sights)
    requires Kept(own, st) && st.status.ready == True && Settled(i)
    ensures var next := Step(own, st, i);
      && Gone(own, next)
      && next.status == (if i.patchOk then st.status.(observed := i.generation) else st.status)
      && next.calls == st.calls + (if own in st.repos then [Delete] else [])
      && next.attempts == st.attempts
      && Replied(st, i) == Answer(false, !i.patchOk)
  {
    assert st.attempts + [] == st.attempts;
  }

  /** From then on every settled run leaves the cluster alone: only the generation it has
      seen is recorded, and that is nothing new once it was. */
  lemma {:induction false} Quiescent(own: Ref, st: State, es: seq<Event>)
    requires Kept(own, st) && st.status.ready == True && Gone(own, st)
    requires forall e :: e in es ==> e.Run? && Settled(e.sights)
    ensures var end := History(own, st, es);
      && end == st.(status := st.status.(observed := end.status.observed))
      && ((forall e :: e in es ==> e.sights.generation == st.status.observed) ==> end == st)
    ensures forall e :: e in es ==> Replied(st, e.sights) == Answer(false, !e.sights.patchOk)
    decreases |es|
  {
    if es != [] {
      assert es[0] in es && forall e :: e in es[1..] ==> e in es;
      var next := Apply(own, st, es[0]);
      SettledRun(own, st, es[0].sights);
      StepKeeps(own, st, es[0].sights);
      assert st.calls + [] == st.calls && st.repos - {own} == st.repos;
      Quiescent(own, next, es[1..]);
      forall e | e in es ensures Replied(st, e.sights) == Answer(false, !e.sights.patchOk) {
        SettledRun(own, st, e.sights);
      }
    }
  }

  lemma {:induction false} GoneStep(own: Ref, st: State, e: Event)
    requires Kept(own, st) && Gone(own, st) && e != Added(own)
    ensures var next := Apply(own, st, e);
      && Kept(own, next) && Gone(own, next)
      && next.calls == st.calls && next.attempts == st.attempts
      && next.status.lastDigest == st.status.lastDigest
      && (st.status.ready != True ==> next.status.ready != True)
  {
    if e.Run? {
      var c := CourseOf(st, e.sights);
      assert !c.Track? && !c.Examine?;
      StepKeeps(own, st, e.sights);
      assert st.calls + [] == st.calls && st.attempts + [] == st.attempts;
    }
  }

  /** Once the tracked repository is gone and nobody else makes it anew, no history whatever
      creates one, passes a check, or makes the validation Ready again. */
  lemma {:induction false} GoneForGood(own: Ref, st: State, es: seq<Event>)
    requires Kept(own, st) && Gone(own, st)
    requires Added(own) !in es
    ensures var end := History(own, st, es);
      && Gone(own, end)
      && end.calls == st.calls && end.attempts == st.attempts
      && end.status.lastDigest == st.status.lastDigest
      && (st.status.ready != True ==> end.status.ready != True)
    decreases |es|
  {
    if es != [] {
      assert es[0] in es && forall e :: e in es[1..] ==> e in es;
      GoneStep(own, st, es[0]);
      GoneForGood(own, Apply(own, st, es[0]), es[1..]);
    }
  }

  lemma {:induction false} HistoryCons(own: Ref, st: State, e: Event, es: seq<Event>)
    ensures History(own, st, [e] + es) == History(own, Apply(own, st, e), es)
  {
    assert ([e] + es)[1..] == es;
  }

  const OWN := Ref("values", "mpas")

  /** An open pull request, and nothing that fails. */
  const FINE := Sights(1, 1, SyncFound(true, 7), ProjectFound(true, true), true, Open,
                       true, true, true, true, true, true, true, true, true)

  lemma {:induction false} ApprovedRun(digest: string)
    requires digest != ""
    ensures
      var tracked := Apply(OWN, Initial(map[]), Run(FINE));
      var offered := Apply(OWN, tracked, Artifact(OWN, Some(digest)));
      Apply(OWN, offered, Run(FINE)) ==
      State(Status(True, Some(OWN), digest, true, 1), map[OWN := Some(digest)], [Create, Pass],
            [Attempt(digest, FINE)])
  {
    var tracked := Apply(OWN, Initial(map[]), Run(FINE));
    assert tracked == State(Status(Unset, Some(OWN), "", false, 0), map[OWN := None], [Create], []);
    var offered := Apply(OWN, tracked, Artifact(OWN, Some(digest)));
    assert offered == tracked.(repos := map[OWN := Some(digest)]);
    assert CourseOf(offered, FINE) == Examine(digest, Approved);
  }

  /** A new artifact that cannot be fetched, on a validation that is Ready. */
  lemma {:induction false} UnfetchedRun(calls: seq<Call>, ats: seq<Attempt>, digest: string)
    requires digest != "" && digest != "a"
    ensures
      var st := State(Status(True, Some(OWN), "a", true, 1), map[OWN := Some("a")], calls, ats);
      Apply(OWN, Apply(OWN, st, Artifact(OWN, Some(digest))), Run(FINE.(fetchOk := false))) ==
      State(Status(True, Some(OWN), digest, true, 1), map[OWN := Some(digest)], calls,
            ats + [Attempt(digest, FINE.(fetchOk := false))])
  {
    var st := State(Status(True, Some(OWN), "a", true, 1), map[OWN := Some("a")], calls, ats);
    var offered := Apply(OWN, st, Artifact(OWN, Some(digest)));
    assert offered == st.(repos := map[OWN := Some(digest)]);
    assert CourseOf(offered, FINE.(fetchOk := false)) == Examine(digest, FetchFailed);
    assert calls + [] == calls;
  }

  /** Five steps to a Ready validation whose recorded digest nobody could fetch. */
  lemma {:induction false} UnfetchedDigestVouched()
    ensures
      var es := [Run(FINE), Artifact(OWN, Some("a")), Run(FINE), Artifact(OWN, Some("b")),
                 Run(FINE.(fetchOk := false))];
      var end := History(OWN, Initial(map[]), es);
      && end.status.ready == True && end.status.success && end.status.lastDigest == "b"
      && LastCommitted(end.attempts) == Some(Attempt("b", FINE.(fetchOk := false)))
  {
    var e1, e2, e3, e4, e5 := Run(FINE), Artifact(OWN, Some("a")), Run(FINE), Artifact(OWN, Some("b")),
                              Run(FINE.(fetchOk := false));
    var s0 := Initial(map[]);
    var s1 := Apply(OWN, s0, e1);
    var s2 := Apply(OWN, s1, e2);
    var s3 := Apply(OWN, s2, e3);
    var s4 := Apply(OWN, s3, e4);
    ApprovedRun("a");
    assert "b"[0] != "a"[0];
    UnfetchedRun([Create, Pass], [Attempt("a", FINE)], "b");
    var s5 := Apply(OWN, s4, e5);
    assert s5.attempts == [Attempt("a", FINE)] + [Attempt("b", FINE.(fetchOk := false))];
    HistoryCons(OWN, s4, e5, []);
    HistoryCons(OWN, s3, e4, [e5]);
    HistoryCons(OWN, s2, e3, [e4, e5]);
    HistoryCons(OWN, s1, e2, [e3, e4, e5]);
    HistoryCons(OWN, s0, e1, [e2, e3, e4, e5]);
    assert [e1] + [e2, e3, e4, e5] == [e1, e2, e3, e4, e5];
  }
}
