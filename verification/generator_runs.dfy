/** What whole runs of the generator keep, status patches lost or not: the recorded version only
    rises, and Validations, Syncs and the recorded version fit together. */
module GeneratorRuns {
  import opened Wrappers
  import opened SemVer
  import opened CueFile
  import opened Product
  import opened Generator
  import X = SweepExact
  import P = Pipeline
  import Sweep

  /** A run on the latest committed status; committed tells whether its patch arrives. */
  datatype Event = Run(sights: Sights, committed: bool)

  function Apply(g: State, name: string, h: Hash, lib: Library, parse: Parser, e: Event): State {
    var r := After(g, name, h, lib, parse, e.sights);
    if e.committed then r else r.(last := g.last, ready := g.ready)
  }

  function History(g: State, name: string, h: Hash, lib: Library, parse: Parser, es: seq<Event>): State
    decreases |es|
  {
    if es == [] then g else History(Apply(g, name, h, lib, parse, es[0]), name, h, lib, parse, es[1..])
  }

  const INITIAL := State("", P.Unset, map[], map[])

  // ----- the recorded version -----

  predicate Recorded(parse: Parser, last: string) { last == "" || parse(last).Some? }

  /** The same version, or a strictly higher one. */
  predicate Risen(parse: Parser, from: string, to: string) {
    from == to ||
    (parse(to).Some? && (from == "" || (parse(from).Some? && Below(parse(from).value, parse(to).value))))
  }

  /** Between any two points of any history the recorded version stays or rises in the precedence
      order; it can always be parsed once there is one. */
  lemma {:induction false} VersionMonotone(g: State, name: string, h: Hash, lib: Library, parse: Parser, es: seq<Event>)
    requires Recorded(parse, g.last) && parse("").None?
    ensures var end := History(g, name, h, lib, parse, es);
      && Recorded(parse, end.last) && Risen(parse, g.last, end.last)
      && (g.last != "" ==> end.last != "")
    decreases |es|
  {
    if es != [] {
      var next := Apply(g, name, h, lib, parse, es[0]);
      var end := History(g, name, h, lib, parse, es);
      VersionMonotone(next, name, h, lib, parse, es[1..]);
      if g.last != "" && g.last != next.last && next.last != end.last {
        PrecedenceTransitive(parse(g.last).value, parse(next.last).value, parse(end.last).value);
      }
    }
  }

  /** A version once superseded is never recorded again. */
  lemma NeverGoesBack(g: State, name: string, h: Hash, lib: Library, parse: Parser, es: seq<Event>, fs: seq<Event>)
    requires Recorded(parse, g.last) && parse("").None?
    ensures
      var mid := History(g, name, h, lib, parse, es);
      var end := History(mid, name, h, lib, parse, fs);
      mid.last != g.last ==> end.last != g.last
  {
    var mid := History(g, name, h, lib, parse, es);
    var end := History(mid, name, h, lib, parse, fs);
    VersionMonotone(g, name, h, lib, parse, es);
    VersionMonotone(mid, name, h, lib, parse, fs);
    if mid.last != g.last && end.last == g.last && g.last != "" {
      PrecedenceTotal(parse(g.last).value, parse(mid.last).value);
    }
  }

  // ----- references -----

  lemma NamesDiffer(name: string, h: Hash, v: string, w: string)
    ensures SyncName(name, h, v) == SyncName(name, h, w) <==> h(v) == h(w)
    ensures ValidationName(name, h, v) == ValidationName(name, h, w) <==> h(v) == h(w)
  {
    var s, t := name + "-sync-", name + "-validation-";
    assert SyncName(name, h, v)[|s|..] == h(v) && SyncName(name, h, w)[|s|..] == h(w);
    assert ValidationName(name, h, v)[|t|..] == h(v) && ValidationName(name, h, w)[|t|..] == h(w);
  }

  ghost predicate CollisionFree(h: Hash, seen: set<string>) {
    forall v, w :: v in seen && w in seen && h(v) == h(w) ==> v == w
  }

  ghost predicate SyncsNamed(g: State, name: string, h: Hash, seen: set<string>) {
    forall k :: k in g.syncs ==> g.syncs[k].version in seen && k == SyncName(name, h, g.syncs[k].version)
  }

  /** The Validation points to a Sync that is there and was made for the same version. */
  predicate Refers(g: State, name: string, h: Hash, v: Validation) {
    v.syncRef == SyncName(name, h, v.version) && v.syncRef in g.syncs && g.syncs[v.syncRef].version == v.version
  }

  ghost predicate ValidationsRefer(g: State, name: string, h: Hash, seen: set<string>) {
    forall k :: k in g.validations ==>
      && g.validations[k].version in seen && k == ValidationName(name, h, g.validations[k].version)
      && Refers(g, name, h, g.validations[k])
  }

  /** The version has a Sync and a Validation of its own. */
  predicate HasBoth(g: State, name: string, h: Hash, v: string) {
    && SyncName(name, h, v) in g.syncs && g.syncs[SyncName(name, h, v)].version == v
    && ValidationName(name, h, v) in g.validations && g.validations[ValidationName(name, h, v)].version == v
  }

  ghost predicate Sound(g: State, name: string, h: Hash, seen: set<string>) {
    && SyncsNamed(g, name, h, seen) && ValidationsRefer(g, name, h, seen)
    && (g.last != "" ==> HasBoth(g, name, h, g.last))
  }

  lemma SyncAdded(g: State, name: string, h: Hash, seen: set<string>, v: string, snapshot: string, w: Write)
    requires Sound(g, name, h, seen) && CollisionFree(h, seen) && v in seen
    ensures var r := g.(syncs := Created(g.syncs, SyncName(name, h, v), Sync(v, snapshot), w));
      && Sound(r, name, h, seen)
      && (w.Accepted? ==> SyncName(name, h, v) in r.syncs && r.syncs[SyncName(name, h, v)].version == v)
  {
    forall u | u in seen ensures SyncName(name, h, v) == SyncName(name, h, u) <==> v == u {
      NamesDiffer(name, h, v, u);
    }
  }

  lemma ValidationAdded(g: State, name: string, h: Hash, seen: set<string>, v: string, schema: string, w: Write)
    requires Sound(g, name, h, seen) && CollisionFree(h, seen) && v in seen
    requires SyncName(name, h, v) in g.syncs && g.syncs[SyncName(name, h, v)].version == v
    ensures var made := Validation(v, schema, SyncName(name, h, v));
      var r := g.(validations := Created(g.validations, ValidationName(name, h, v), made, w));
      && Sound(r, name, h, seen) && (w.Accepted? ==> HasBoth(r, name, h, v))
  {
    forall u | u in seen ensures ValidationName(name, h, v) == ValidationName(name, h, u) <==> v == u {
      NamesDiffer(name, h, v, u);
    }
  }

  lemma RunKeepsSound(g: State, name: string, h: Hash, lib: Library, parse: Parser, seen: set<string>, e: Event)
    requires Sound(g, name, h, seen) && CollisionFree(h, seen)
    requires e.sights.subscription.Some? ==> e.sights.subscription.value.applied in seen
    ensures Sound(Apply(g, name, h, lib, parse, e), name, h, seen)
  {
    var i, r := e.sights, Apply(g, name, h, lib, parse, e);
    if WritesSync(g, lib, parse, i) {
      var v := i.subscription.value.applied;
      SyncAdded(g, name, h, seen, v, i.snapshot.value, i.syncWrite);
      var g1 := g.(syncs := r.syncs);
      if WritesValidation(g, lib, parse, i) {
        ValidationAdded(g1, name, h, seen, v, Built(lib, i).value.schema, i.validationWrite);
        assert Sound(g1.(validations := r.validations), name, h, seen);
      }
    }
  }

  lemma {:induction false} HistoryKeepsSound(g: State, name: string, h: Hash, lib: Library, parse: Parser,
                                             seen: set<string>, es: seq<Event>)
    requires Sound(g, name, h, seen) && CollisionFree(h, seen)
    requires forall e :: e in es && e.sights.subscription.Some? ==> e.sights.subscription.value.applied in seen
    ensures Sound(History(g, name, h, lib, parse, es), name, h, seen)
    decreases |es|
  {
    if es != [] {
      RunKeepsSound(g, name, h, lib, parse, seen, es[0]);
      HistoryKeepsSound(Apply(g, name, h, lib, parse, es[0]), name, h, lib, parse, seen, es[1..]);
    }
  }

  /** In every reachable state, if the short hash tells the versions seen apart: every Validation
      refers to a Sync of its own version, no version has two Syncs or two Validations, and the
      recorded version has both. */
  lemma ReferenceIntegrity(name: string, h: Hash, lib: Library, parse: Parser, seen: set<string>, es: seq<Event>)
    requires CollisionFree(h, seen)
    requires forall e :: e in es && e.sights.subscription.Some? ==> e.sights.subscription.value.applied in seen
    ensures var end := History(INITIAL, name, h, lib, parse, es);
      && (forall k :: k in end.validations ==> Refers(end, name, h, end.validations[k]))
      && (forall k, l :: k in end.syncs && l in end.syncs && end.syncs[k].version == end.syncs[l].version ==> k == l)
      && (forall k, l :: k in end.validations && l in end.validations ==>
            end.validations[k].version == end.validations[l].version ==> k == l)
      && (end.last != "" ==> HasBoth(end, name, h, end.last))
  {
    HistoryKeepsSound(INITIAL, name, h, lib, parse, seen, es);
  }

  /** What a collision does: a run that records version v leaves v with a Sync and a Validation of
      its own exactly when no Sync of another version has the same short hash. */
  lemma CollisionExact(g: State, name: string, h: Hash, lib: Library, parse: Parser, seen: set<string>, i: Sights)
    requires SyncsNamed(g, name, h, seen) && ValidationsRefer(g, name, h, seen)
    requires Completes(g, lib, parse, i)
    ensures
      var v := i.subscription.value.applied;
      HasBoth(After(g, name, h, lib, parse, i), name, h, v) <==>
      forall k :: k in g.syncs ==> g.syncs[k].version == v || h(g.syncs[k].version) != h(v)
  {
    var v := i.subscription.value.applied;
    forall w ensures SyncName(name, h, v) == SyncName(name, h, w) <==> h(v) == h(w)
             ensures ValidationName(name, h, v) == ValidationName(name, h, w) <==> h(v) == h(w)
    {
      NamesDiffer(name, h, v, w);
    }
    if ValidationName(name, h, v) in g.validations {
      assert Refers(g, name, h, g.validations[ValidationName(name, h, v)]);
    }
  }

  // ----- runs that write nothing -----

  /** A description with a pipeline that has no role to be scheduled by: whatever else is wrong with
      it, no object is made and nothing is recorded. The run ends without an error, so that nothing
      asks for another one, exactly when such a pipeline comes before all others that fail. */
  lemma UnresolvedRoleStops(g: State, name: string, h: Hash, lib: Library, parse: Parser, i: Sights, k: nat)
    requires Prepared(g, parse, i)
    requires k < |i.description.value.pipelines| && !Schedulable(i.description.value, i.description.value.pipelines[k])
    ensures After(g, name, h, lib, parse, i) == g.(ready := P.False)
    ensures
      var d := i.description.value;
      OutcomeOf(g, lib, parse, i) == Done <==>
      exists m :: 0 <= m < |d.pipelines| && !Schedulable(d, d.pipelines[m]) &&
                  forall j :: 0 <= j < m ==> Product.Good(d, i.resources, d.pipelines[j])
  {
    var d := i.description.value;
    NoError(d, i.resources, d.pipelines);
    assert !Good(d, i.resources, d.pipelines[k]) && d.pipelines[k] in d.pipelines;
    NoCrashBefore(d, i.resources, d.pipelines);
    UnschedulableExact(lib, d, i.resources, i.existing, i.disk);
  }

  /** Once a version has its objects, no further run on that version makes or changes an object,
      whatever fails and whatever is lost; only the record may still come. */
  lemma {:induction false} RetriesAddNothing(g: State, name: string, h: Hash, lib: Library, parse: Parser, v: string,
                                             es: seq<Event>)
    requires SyncName(name, h, v) in g.syncs && ValidationName(name, h, v) in g.validations
    requires forall e :: e in es && e.sights.subscription.Some? ==> e.sights.subscription.value.applied == v
    ensures var end := History(g, name, h, lib, parse, es);
      && end.syncs == g.syncs && end.validations == g.validations && (end.last == g.last || end.last == v)
    decreases |es|
  {
    if es != [] {
      var e := es[0];
      RetriesAddNothing(Apply(g, name, h, lib, parse, e), name, h, lib, parse, v, es[1..]);
    }
  }

  /** Once a version is recorded, runs on versions that are not above it change no object and not
      the record. */
  lemma {:induction false} RecordedIsSettled(g: State, name: string, h: Hash, lib: Library, parse: Parser,
                                             es: seq<Event>)
    requires g.last != "" && parse(g.last).Some?
    requires forall e :: e in es && e.sights.subscription.Some? && parse(e.sights.subscription.value.applied).Some? ==>
               !Below(parse(g.last).value, parse(e.sights.subscription.value.applied).value)
    ensures var end := History(g, name, h, lib, parse, es);
      end == g.(ready := end.ready)
    decreases |es|
  {
    if es != [] {
      RecordedIsSettled(Apply(g, name, h, lib, parse, es[0]), name, h, lib, parse, es[1..]);
    }
  }

  // ----- what Ready=True says -----

  /** The subscription is ready and has nothing newer than what is recorded. */
  predicate Current(parse: Parser, last: string, i: Sights) {
    && i.subscription.Some? && i.subscription.value.ready
    && last != "" && parse(last).Some? && parse(i.subscription.value.applied).Some?
    && !Below(parse(last).value, parse(i.subscription.value.applied).value)
  }

  /** The run meets a subscription that is not ready, or it panics on the product while the object
      says Ready=True. */
  ghost predicate Misleads(g: State, lib: Library, parse: Parser, i: Sights) {
    || (i.subscription.Some? && !i.subscription.value.ready)
    || (&& g.ready == P.True && Prepared(g, parse, i)
        && var evaluated := Evaluated(lib, i.description.value, i.resources, i.existing);
           evaluated.Some? && !X.Survived(evaluated.value, 1))
  }

  /** Ready=True after a run means that the subscription is ready and the recorded version not below
      its applied one, unless the run misleads, and only then. */
  lemma ReadyExact(g: State, name: string, h: Hash, lib: Library, parse: Parser, i: Sights)
    requires parse("").None?
    ensures var r := After(g, name, h, lib, parse, i);
      (r.ready == P.True ==> Current(parse, r.last, i)) <==> !Misleads(g, lib, parse, i)
  {
    if Prepared(g, parse, i) {
      ProductCrash(lib, i.description.value, i.resources, i.existing, i.disk);
    }
    if i.subscription.Some? && parse(i.subscription.value.applied).Some? {
      var v := parse(i.subscription.value.applied).value;
      PrecedenceTotal(v, v);
    }
  }

  /** The state, with what the run met that committed last, and how it ended. */
  datatype Tracked = Tracked(g: State, writer: Option<(Sights, Outcome)>)

  function TrackedApply(t: Tracked, name: string, h: Hash, lib: Library, parse: Parser, e: Event): Tracked {
    Tracked(Apply(t.g, name, h, lib, parse, e),
            if e.committed then Some((e.sights, OutcomeOf(t.g, lib, parse, e.sights))) else t.writer)
  }

  function TrackedHistory(t: Tracked, name: string, h: Hash, lib: Library, parse: Parser, es: seq<Event>): (r: Tracked)
    ensures r.g == History(t.g, name, h, lib, parse, es)
    decreases |es|
  {
    if es == [] then t
    else TrackedHistory(TrackedApply(t, name, h, lib, parse, es[0]), name, h, lib, parse, es[1..])
  }

  /** Ready=True is true of the last committed run exactly when that run met a subscription that was
      ready and did not panic. */
  predicate Vouched(t: Tracked, parse: Parser) {
    t.g.ready == P.True ==>
      && t.writer.Some?
      && var (i, outcome) := t.writer.value;
         Current(parse, t.g.last, i) <==> i.subscription.Some? && i.subscription.value.ready && outcome == Done
  }

  lemma {:induction false} RunVouches(t: Tracked, name: string, h: Hash, lib: Library, parse: Parser, e: Event)
    requires Vouched(t, parse) && parse("").None?
    ensures Vouched(TrackedApply(t, name, h, lib, parse, e), parse)
  {
    if e.committed {
      ReadyExact(t.g, name, h, lib, parse, e.sights);
      if Prepared(t.g, parse, e.sights) {
        var i := e.sights;
        ProductCrash(lib, i.description.value, i.resources, i.existing, i.disk);
      }
    }
  }

  lemma {:induction false} HistoryVouches(t: Tracked, name: string, h: Hash, lib: Library, parse: Parser,
                                          es: seq<Event>)
    requires Vouched(t, parse) && parse("").None?
    ensures Vouched(TrackedHistory(t, name, h, lib, parse, es), parse)
    decreases |es|
  {
    if es != [] {
      RunVouches(t, name, h, lib, parse, es[0]);
      HistoryVouches(TrackedApply(t, name, h, lib, parse, es[0]), name, h, lib, parse, es[1..]);
    }
  }

  /** Over every history with lost patches: Ready=True means that the subscription, as the last
      committed run met it, is ready and has nothing newer than what is recorded, if and only if
      that run met it ready and did not panic. */
  lemma ReadyVouches(name: string, h: Hash, lib: Library, parse: Parser, es: seq<Event>)
    requires parse("").None?
    requires History(INITIAL, name, h, lib, parse, es).ready == P.True
    ensures
      var end := TrackedHistory(Tracked(INITIAL, None), name, h, lib, parse, es);
      && end.g == History(INITIAL, name, h, lib, parse, es) && end.writer.Some?
      && var (i, outcome) := end.writer.value;
         Current(parse, end.g.last, i) <==> i.subscription.Some? && i.subscription.value.ready && outcome == Done
  {
    HistoryVouches(Tracked(INITIAL, None), name, h, lib, parse, es);
  }

  predicate Sincere(t: Tracked, parse: Parser) {
    t.g.ready == P.True ==> t.writer.Some? && Current(parse, t.g.last, t.writer.value.0)
  }

  predicate SincereThroughout(t: Tracked, name: string, h: Hash, lib: Library, parse: Parser, es: seq<Event>)
    decreases |es|
  {
    Sincere(t, parse) &&
    (es != [] ==> SincereThroughout(TrackedApply(t, name, h, lib, parse, es[0]), name, h, lib, parse, es[1..]))
  }

  ghost predicate NoneMisleads(g: State, name: string, h: Hash, lib: Library, parse: Parser, es: seq<Event>)
    decreases |es|
  {
    es != [] ==>
      && (es[0].committed ==> !Misleads(g, lib, parse, es[0].sights))
      && NoneMisleads(Apply(g, name, h, lib, parse, es[0]), name, h, lib, parse, es[1..])
  }

  /** Ready=True means what it says in every state of a history exactly when no committed run of the
      history misleads. */
  lemma {:induction false} SincereExact(t: Tracked, name: string, h: Hash, lib: Library, parse: Parser, es: seq<Event>)
    requires parse("").None? && Sincere(t, parse)
    ensures SincereThroughout(t, name, h, lib, parse, es) <==> NoneMisleads(t.g, name, h, lib, parse, es)
    decreases |es|
  {
    if es != [] {
      var next := TrackedApply(t, name, h, lib, parse, es[0]);
      if es[0].committed {
        ReadyExact(t.g, name, h, lib, parse, es[0].sights);
      }
      if Sincere(next, parse) {
        SincereExact(next, name, h, lib, parse, es[1..]);
      }
    }
  }

  // ----- small runs that fail to keep what one expects -----

  /** A subscription that is not ready: the run ends with Ready=True and nothing recorded. */
  lemma NotReadyReported(name: string, h: Hash, lib: Library, parse: Parser, i: Sights)
    requires i.subscription == Some(Subscription(false, "1"))
    ensures
      var end := TrackedHistory(Tracked(INITIAL, None), name, h, lib, parse, [Run(i, true)]);
      end.g == INITIAL.(ready := P.True) && end.writer == Some((i, Done))
  {
    assert [Run(i, true)][1..] == [];
    var next := TrackedApply(Tracked(INITIAL, None), name, h, lib, parse, Run(i, true));
    assert TrackedHistory(next, name, h, lib, parse, []) == next;
  }

  function SmallParser(): Parser {
    s => if s == "1" then Some(Version(1, 0, 0, [], ""))
         else if s == "2" then Some(Version(2, 0, 0, [], ""))
         else None
  }

  /** Everything is fine, and the one schema has the given fields. */
  function Applied(version: string, schema: seq<Sweep.Node>): Sights {
    Sights(Some(Subscription(true, version)), Some(Project(true, true, true)), true, true, Some(ONE_PIPELINE), true,
           name => Some(schema), Absent, WRITABLE, Some("snapshot"), Accepted, Accepted)
  }

  /** Version "1" is recorded; the product of version "2" makes the run panic, and Ready stays True. */
  lemma PanicKeepsReady(name: string, h: Hash)
    ensures
      var i := Applied("2", [PRIVATE_FIELD, PRIVATE_FIELD]);
      var g := INITIAL.(last := "1", ready := P.True);
      && OutcomeOf(g, SmallLibrary(), SmallParser(), i) == Panicked
      && After(g, name, h, SmallLibrary(), SmallParser(), i) == g
      && !Current(SmallParser(), g.last, i)
  {
    ProductPanics();
  }

  /** Two versions with the same short hash: the second is recorded without a Sync of its own. */
  lemma VersionsCollide()
    ensures
      var h: Hash := v => "0";
      var i, j := Applied("1", [PRIVATE_FIELD]), Applied("2", [PRIVATE_FIELD]);
      var end := History(INITIAL, "g", h, SmallLibrary(), SmallParser(), [Run(i, true), Run(j, true)]);
      && end.last == "2" && !HasBoth(end, "g", h, "2")
      && SyncName("g", h, "2") in end.syncs && end.syncs[SyncName("g", h, "2")].version == "1"
  {
    var h: Hash := v => "0";
    var lib, parse := SmallLibrary(), SmallParser();
    var i, j := Applied("1", [PRIVATE_FIELD]), Applied("2", [PRIVATE_FIELD]);
    SchemaLost();
    var g1 := Apply(INITIAL, "g", h, lib, parse, Run(i, true));
    assert Completes(INITIAL, lib, parse, i) && g1.last == "1";
    assert SyncName("g", h, "1") == SyncName("g", h, "2");
    assert g1.syncs == map[SyncName("g", h, "1") := Sync("1", "snapshot")];
    var g2 := Apply(g1, "g", h, lib, parse, Run(j, true));
    assert Completes(g1, lib, parse, j) && g2.last == "2" && g2.syncs == g1.syncs;
    assert [Run(i, true), Run(j, true)][1..] == [Run(j, true)] && [Run(j, true)][1..] == [];
    assert History(g2, "g", h, lib, parse, []) == g2;
  }
}
