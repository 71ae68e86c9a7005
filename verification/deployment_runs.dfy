/** What successful runs of the ProductDeployment reconciler keep, from run to run, and what a
    failed clean-up of ConfigMaps leaves behind. */
module DeploymentRuns {
  import opened Wrappers
  import opened Deployment
  import opened DeploymentExact

  function Names(entries: seq<Entry>): set<string> {
    set e | e in entries :: e.name
  }

  lemma NamesSnoc(front: seq<Entry>, e: Entry)
    ensures Names(front + [e]) == Names(front) + {e.name}
  {
    assert forall f :: f in front + [e] <==> f in front || f == e;
  }

  // ----- the effect on one pipeline -----

  lemma MapNameInjective(name: string, h: Hash, v: string, w: string)
    ensures MapName(name, h, v) == MapName(name, h, w) <==> h(v) == h(w)
  {
    var prefix := name + "-values-";
    assert MapName(name, h, v)[|prefix|..] == h(v) && MapName(name, h, w)[|prefix|..] == h(w);
  }

  /** Pipelines that no entry names stay; those that a handled entry names refer to the map; the
      others stay as they were. Only named pipelines are added to the owned ones. */
  lemma {:induction false} PipelinesEffect(ps: map<string, Pipeline>, name: string, entries: seq<Entry>,
                                           listed: set<string>, updated: bool, map_: string)
    ensures var r := PipelinesAfter(ps, name, entries, listed, updated, map_);
      && (forall p :: p in ps ==> p in r)
      && (forall p :: p in r ==> p in ps || p in Names(entries))
      && (forall p :: p in ps && (p !in Names(entries) || (p in listed && !updated)) ==> r[p] == ps[p])
      && (forall e :: e in entries && Handled(e, listed, updated) ==>
            e.name in r && r[e.name].spec.configMapRef == map_)
      && (forall p :: p in ps && p in r ==> r[p].controller == ps[p].controller)
    decreases |entries|
  {
    if entries != [] {
      var front, e := entries[..|entries| - 1], entries[|entries| - 1];
      assert entries == front + [e];
      PipelinesEffect(ps, name, front, listed, updated, map_);
      NamesSnoc(front, e);
      var before := PipelinesAfter(ps, name, front, listed, updated, map_);
      var r := PipelinesAfter(ps, name, entries, listed, updated, map_);
      assert Handled(e, listed, updated) ==> r == before[e.name := Written(name, e, map_, At(before, e.name))];
      assert !Handled(e, listed, updated) ==> r == before;
      forall f | f in entries && Handled(f, listed, updated)
        ensures f.name in r && r[f.name].spec.configMapRef == map_
      {
        assert f in front || f == e;
      }
    }
  }

  // ----- one live ConfigMap -----

  /** The owned ConfigMap is the one for the values live, all pipelines named so far refer to
      it, and no other pipeline is owned. Before the first run nothing is owned. */
  ghost predicate Live(st: Store, name: string, h: Hash, seen: set<string>, names: set<string>, live: Option<string>) {
    if live.None? then OwnedMaps(st, name) == {} && OwnedPipelines(st, name) == {} && names == {}
    else
      var m := MapName(name, h, live.value);
      && OwnedMaps(st, name) == {m} && OwnedPipelines(st, name) <= names
      && (forall p :: p in names ==> p in st.pipelines && st.pipelines[p].spec.configMapRef == m)
      && st.maps[m].data in seen && h(st.maps[m].data) == h(live.value)
  }

  lemma MapsEffect(st: Store, name: string, h: Hash, values: string)
    requires Updated(st, name, h, values) && MapName(name, h, values) !in st.maps
    ensures var r := Store(MapsAfter(st, name, h, values, {}), st.pipelines);
      OwnedMaps(r, name) == {MapName(name, h, values)} && r.maps[MapName(name, h, values)].data == values
  {
  }

  lemma RunKeepsLive(st: Store, name: string, h: Hash, seen: set<string>, names: set<string>, live: Option<string>,
                     entries: seq<Entry>, i: Sights)
    requires Live(st, name, h, seen, names, live)
    requires Succeeds(st, name, h, entries, i) && i.values.value in seen
    requires names <= Names(entries)
    ensures Live(After(st, name, h, entries, i.values.value), name, h, seen, Names(entries), i.values)
  {
    var v := i.values.value;
    var m := MapName(name, h, v);
    var updated := Updated(st, name, h, v);
    var listed := OwnedPipelines(st, name);
    var end := After(st, name, h, entries, v);
    PipelinesEffect(st.pipelines, name, entries, listed, updated, m);
    if updated {
      MapsEffect(st, name, h, v);
      assert OwnedMaps(end, name) == OwnedMaps(Store(end.maps, st.pipelines), name);
    } else {
      assert live.Some?;
      assert m == MapName(name, h, live.value);
      MapNameInjective(name, h, v, live.value);
      assert OwnedMaps(end, name) == OwnedMaps(st, name);
    }
    assert OwnedPipelines(end, name) <= Names(entries);
    forall p | p in Names(entries)
      ensures p in end.pipelines && end.pipelines[p].spec.configMapRef == m
    {
      var e :| e in entries && e.name == p;
      if !Handled(e, listed, updated) {
        assert p in names && st.pipelines[p].spec.configMapRef == m;
      }
    }
  }

  datatype Event =
    | Run(entries: seq<Entry>, sights: Sights)
    | Readiness(pipeline: string, ready: bool)
    | OtherMap(name: string, data: string)

  function Apply(st: Store, name: string, h: Hash, e: Event): Store {
    match e
    case Run(entries, i) => Step(st, name, h, entries, i)
    case Readiness(p, r) =>
      if p in st.pipelines then st.(pipelines := st.pipelines[p := st.pipelines[p].(ready := r)]) else st
    case OtherMap(m, d) => if m in st.maps then st else st.(maps := st.maps[m := ConfigMap(None, d)])
  }

  function History(st: Store, name: string, h: Hash, es: seq<Event>): Store
    decreases |es|
  {
    if es == [] then st else History(Apply(st, name, h, es[0]), name, h, es[1..])
  }

  /** Every run succeeds, on values from seen, and no pipeline name is ever dropped. */
  ghost predicate Clean(st: Store, name: string, h: Hash, seen: set<string>, names: set<string>, es: seq<Event>)
    decreases |es|
  {
    es == [] ||
    (&& (es[0].Run? ==>
           && Succeeds(st, name, h, es[0].entries, es[0].sights)
           && es[0].sights.values.value in seen && names <= Names(es[0].entries))
     && Clean(Apply(st, name, h, es[0]), name, h, seen, if es[0].Run? then Names(es[0].entries) else names, es[1..]))
  }

  /** The entries and values of the last run. */
  function LastRun(es: seq<Event>): Option<(seq<Entry>, Option<string>)> {
    if es == [] then None
    else if es[|es| - 1].Run? then Some((es[|es| - 1].entries, es[|es| - 1].sights.values))
    else LastRun(es[..|es| - 1])
  }

  lemma LastRunTail(es: seq<Event>)
    requires es != []
    ensures LastRun(es) == if LastRun(es[1..]).Some? then LastRun(es[1..])
                           else if es[0].Run? then Some((es[0].entries, es[0].sights.values)) else None
  {
    if |es| > 1 && !es[|es| - 1].Run? {
      LastRunTail(es[..|es| - 1]);
      assert es[..|es| - 1][1..] == es[1..][..|es| - 2];
    }
  }

  lemma {:induction false} HistoryKeepsLive(st: Store, name: string, h: Hash, seen: set<string>, names: set<string>,
                                            live: Option<string>, es: seq<Event>)
    requires Live(st, name, h, seen, names, live) && Clean(st, name, h, seen, names, es)
    ensures var r := LastRun(es);
      Live(History(st, name, h, es), name, h, seen,
           if r.Some? then Names(r.value.0) else names, if r.Some? then r.value.1 else live)
    decreases |es|
  {
    if es != [] {
      var next := Apply(st, name, h, es[0]);
      LastRunTail(es);
      match es[0] {
        case Run(entries, i) =>
          SuccessfulStep(st, name, h, entries, i);
          RunKeepsLive(st, name, h, seen, names, live, entries, i);
          HistoryKeepsLive(next, name, h, seen, Names(entries), i.values, es[1..]);
        case _ =>
          assert OwnedMaps(next, name) == OwnedMaps(st, name) && OwnedPipelines(next, name) == OwnedPipelines(st, name);
          HistoryKeepsLive(next, name, h, seen, names, live, es[1..]);
      }
    }
  }

  /** After any history of successful runs that never drops a pipeline: exactly one ConfigMap is
      owned, named after the current values; every pipeline of the spec exists and refers to it;
      and if the short hash tells the values seen apart, it holds the current values. */
  lemma OneLiveConfigMap(st: Store, name: string, h: Hash, seen: set<string>, es: seq<Event>)
    requires OwnedMaps(st, name) == {} && OwnedPipelines(st, name) == {}
    requires Clean(st, name, h, seen, {}, es) && LastRun(es).Some?
    ensures var end := History(st, name, h, es);
      var (entries, values) := LastRun(es).value;
      && values.Some?
      && var m := name + "-values-" + h(values.value);
         && OwnedMaps(end, name) == {m}
         && (forall e :: e in entries ==> e.name in end.pipelines && end.pipelines[e.name].spec.configMapRef == m)
         && ((forall v, w :: v in seen && w in seen && h(v) == h(w) ==> v == w) ==> end.maps[m].data == values.value)
  {
    HistoryKeepsLive(st, name, h, seen, {}, None, es);
    LastValuesSeen(st, name, h, seen, {}, es);
    var (entries, values) := LastRun(es).value;
    assert forall e :: e in entries ==> e.name in Names(entries);
  }

  lemma {:induction false} LastValuesSeen(st: Store, name: string, h: Hash, seen: set<string>, names: set<string>,
                                          es: seq<Event>)
    requires Clean(st, name, h, seen, names, es) && LastRun(es).Some?
    ensures LastRun(es).value.1.Some? && LastRun(es).value.1.value in seen
    decreases |es|
  {
    LastRunTail(es);
    if LastRun(es[1..]).Some? {
      var names' := if es[0].Run? then Names(es[0].entries) else names;
      LastValuesSeen(Apply(st, name, h, es[0]), name, h, seen, names', es[1..]);
    }
  }

  // ----- a run that fails once the new map is there -----

  /** As long as the values stay, a run finds their map and updates nothing: whatever fails or does
      not, it leaves the maps and the pipelines that exist as they are. */
  lemma NothingUpdated(st: Store, name: string, h: Hash, entries: seq<Entry>, i: Sights)
    requires i.values.Some? ==> MapName(name, h, i.values.value) in OwnedMaps(st, name)
    ensures var end := Step(st, name, h, entries, i);
      && end.maps == st.maps
      && forall p :: p in OwnedPipelines(st, name) ==> p in end.pipelines && end.pipelines[p] == st.pipelines[p]
  {
    if ReachesPipelines(st, name, h, i) {
      PipelinesEffect(st.pipelines, name, Done(st, name, h, entries, i), OwnedPipelines(st, name), false,
                      MapName(name, h, i.values.value));
    }
  }

  /** A first run that makes the map for new values, whatever fails behind that, and a second run on
      the same values, whatever happens to it: a pipeline that existed refers to the new map
      exactly when the new map got its owner, all old maps could be deleted, the pipelines could be
      listed, and its entry came before the first one that could not be written. */
  lemma CleanUpDecides(st: Store, name: string, h: Hash, seen: set<string>, names: set<string>, live: string,
                       entries: seq<Entry>, i: Sights, again: seq<Entry>, j: Sights, p: string)
    requires Live(st, name, h, seen, names, Some(live)) && p in OwnedPipelines(st, name)
    requires MakesMap(st, name, h, i) && h(i.values.value) != h(live) && j.values == i.values
    ensures
      var first := Step(st, name, h, entries, i);
      var end := Step(first, name, h, again, j);
      && p in end.pipelines
      && (end.pipelines[p].spec.configMapRef == MapName(name, h, i.values.value) <==>
          ReachesPipelines(st, name, h, i) && p in Names(Done(st, name, h, entries, i)))
  {
    var m := MapName(name, h, i.values.value);
    MapNameInjective(name, h, i.values.value, live);
    var first := Step(st, name, h, entries, i);
    assert m in OwnedMaps(first, name);
    if ReachesPipelines(st, name, h, i) {
      var done := Done(st, name, h, entries, i);
      PipelinesEffect(st.pipelines, name, done, OwnedPipelines(st, name), true, m);
      if p in Names(done) {
        var e :| e in done && e.name == p;
      }
    }
    assert p in OwnedPipelines(first, name);
    NothingUpdated(first, name, h, again, j);
  }

  /** The failure is never made good by itself: as long as the values stay, no history, of runs that
      succeed or fail, changes the spec of a pipeline that existed or removes an owned map. */
  lemma {:induction false} FailedCleanUpSticks(st: Store, name: string, h: Hash, values: string, es: seq<Event>)
    requires MapName(name, h, values) in OwnedMaps(st, name)
    requires forall e :: e in es && e.Run? && e.sights.values.Some? ==> e.sights.values.value == values
    ensures var end := History(st, name, h, es);
      && OwnedMaps(end, name) == OwnedMaps(st, name)
      && forall p :: p in OwnedPipelines(st, name) ==>
           p in OwnedPipelines(end, name) && end.pipelines[p].spec == st.pipelines[p].spec
    decreases |es|
  {
    if es != [] {
      assert es[0] in es && forall e :: e in es[1..] ==> e in es;
      var next := Apply(st, name, h, es[0]);
      if es[0].Run? {
        NothingUpdated(st, name, h, es[0].entries, es[0].sights);
      }
      assert OwnedMaps(next, name) == OwnedMaps(st, name);
      FailedCleanUpSticks(next, name, h, values, es[1..]);
    }
  }

  // ----- is a pipeline what the spec says? -----

  lemma WrittenCurrent(name: string, e: Entry, map_: string, old_: Option<Pipeline>)
    ensures Follows(old_, Written(name, e, map_, old_).spec, name, e, map_, true)
  {
    WrittenExact(name, e, map_, old_);
  }

  /** The pipeline of e resembles its entry exactly if it was handled or did so before; and it is what
      the entry says exactly if it was before, or it was handled and was new or did not resemble it. */
  predicate Follows(before: Option<Pipeline>, spec: PipelineSpec, name: string, e: Entry, map_: string, handled: bool)
    requires !handled ==> before.Some?
  {
    && (Resembles(spec, name, e, map_) <==> handled || Resembles(before.value.spec, name, e, map_))
    && (IsEntry(spec, name, e, map_) <==>
          || (before.Some? && IsEntry(before.value.spec, name, e, map_))
          || (handled && (before.None? || !Resembles(before.value.spec, name, e, map_))))
  }

  /** The pipeline of the last entry. */
  lemma {:induction false} LastCurrent(ps: map<string, Pipeline>, name: string, front: seq<Entry>, e: Entry,
                                       listed: set<string>, updated: bool, map_: string)
    requires e.name !in Names(front) && (e.name in listed ==> e.name in ps)
    ensures var r := PipelinesAfter(ps, name, front + [e], listed, updated, map_);
      && e.name in r
      && Follows(At(ps, e.name), r[e.name].spec, name, e, map_, Handled(e, listed, updated))
  {
    assert (front + [e])[..|front|] == front;
    var before := PipelinesAfter(ps, name, front, listed, updated, map_);
    PipelinesEffect(ps, name, front, listed, updated, map_);
    assert At(before, e.name) == At(ps, e.name);
    if Handled(e, listed, updated) {
      WrittenCurrent(name, e, map_, At(ps, e.name));
    }
  }

  /** An entry of another name leaves the pipeline alone. */
  lemma {:induction false} OtherEntry(ps: map<string, Pipeline>, name: string, front: seq<Entry>, last: Entry,
                                      listed: set<string>, updated: bool, map_: string, p: string)
    requires p != last.name
    ensures var before := PipelinesAfter(ps, name, front, listed, updated, map_);
      At(PipelinesAfter(ps, name, front + [last], listed, updated, map_), p) == At(before, p)
  {
    assert (front + [last])[..|front|] == front;
  }

  /** After a successful run from any store, whether a pipeline of the spec is what its entry says, and
      whether it resembles it: a change of the spec alone reaches no pipeline that exists, unless
      the values change, too. */
  lemma {:induction false} PipelineCurrent(ps: map<string, Pipeline>, name: string, entries: seq<Entry>,
                                           listed: set<string>, updated: bool, map_: string, e: Entry)
    requires forall j, k :: 0 <= j < k < |entries| ==> entries[j].name != entries[k].name
    requires e in entries && (e.name in listed ==> e.name in ps)
    ensures var r := PipelinesAfter(ps, name, entries, listed, updated, map_);
      && e.name in r
      && Follows(At(ps, e.name), r[e.name].spec, name, e, map_, Handled(e, listed, updated))
    decreases |entries|
  {
    var front, last := entries[..|entries| - 1], entries[|entries| - 1];
    assert entries == front + [last];
    if e == last {
      assert e.name !in Names(front);
      LastCurrent(ps, name, front, e, listed, updated, map_);
    } else {
      assert e in front;
      PipelineCurrent(ps, name, front, listed, updated, map_, e);
      var j :| 0 <= j < |front| && front[j] == e;
      assert entries[j].name != last.name;
      OtherEntry(ps, name, front, last, listed, updated, map_, e.name);
      var before := PipelinesAfter(ps, name, front, listed, updated, map_);
      var r := PipelinesAfter(ps, name, entries, listed, updated, map_);
      assert At(r, e.name) == At(before, e.name) == Some(before[e.name]);
    }
  }

  // ----- completion -----

  lemma NotReadyNone(ps: map<string, Pipeline>, listing: seq<string>)
    requires forall p :: p in listing ==> p in ps
    ensures NotReady(ps, listing) == [] <==> forall p :: p in listing ==> ps[p].ready
  {
    if listing != [] {
      var front := listing[..|listing| - 1];
      assert listing == front + [listing[|listing| - 1]];
      NotReadyNone(ps, front);
    }
  }

  lemma HandledNone(entries: seq<Entry>, listed: set<string>, updated: bool)
    ensures HandledNames(entries, listed, updated) == [] <==> forall e :: e in entries ==> !Handled(e, listed, updated)
  {
    if entries != [] {
      var front := entries[..|entries| - 1];
      assert entries == front + [entries[|entries| - 1]];
      HandledNone(front, listed, updated);
    }
  }

  lemma NothingWritten(ps: map<string, Pipeline>, name: string, entries: seq<Entry>, listed: set<string>,
                       updated: bool, map_: string)
    requires forall e :: e in entries ==> !Handled(e, listed, updated)
    ensures PipelinesAfter(ps, name, entries, listed, updated, map_) == ps
  {
    if entries != [] {
      var front := entries[..|entries| - 1];
      assert entries == front + [entries[|entries| - 1]];
      NothingWritten(ps, name, front, listed, updated, map_);
    }
  }

  /** From any store, a run that succeeds comes to a complete deployment exactly when all owned
      pipelines were ready, all pipelines of the spec were owned already, and the values had
      their map (or the spec is empty); then no pipeline was written. */
  lemma CompletionSound(st: Store, name: string, h: Hash, entries: seq<Entry>, i: Sights, before: seq<string>)
    requires Succeeds(st, name, h, entries, i) && Lists(i.pipelineListing, OwnedPipelines(st, name))
    ensures
      var listed, updated := OwnedPipelines(st, name), Updated(st, name, h, i.values.value);
      var active := ActiveAfter(st, name, h, entries, i, before);
      && (IsComplete(active) <==>
            && (forall p :: p in listed ==> st.pipelines[p].ready)
            && (forall e :: e in entries ==> e.name in listed)
            && (entries == [] || !updated))
      && (IsComplete(active) ==> Step(st, name, h, entries, i).pipelines == st.pipelines)
  {
    SuccessfulStep(st, name, h, entries, i);
    var listed, updated := OwnedPipelines(st, name), Updated(st, name, h, i.values.value);
    NotReadyNone(st.pipelines, i.pipelineListing);
    HandledNone(entries, listed, updated);
    if entries != [] { assert entries[0] in entries; }
    if forall e :: e in entries ==> !Handled(e, listed, updated) {
      NothingWritten(st.pipelines, name, entries, listed, updated, MapName(name, h, i.values.value));
    }
  }

  // ----- both failures on a small cluster -----

  function Small(version: string, map_: string): Pipeline {
    var r := Resource("r", version, []);
    Pipeline(Some("d"), PipelineSpec(r, r, r, "role", ComponentVersionName("d"), map_), true)
  }

  function SmallEntry(version: string): Entry {
    var r := Resource("r", version, []);
    Entry("p", r, r, r, "role")
  }

  function Fine(values: string, maps: seq<string>): Sights {
    Sights(true, true, Some(values), true, maps, true, true, {}, true, ["p"], {}, true)
  }

  /** A deployment with one pipeline and the map for "a" gets "b" for values, and the old map cannot
      be deleted; a second run meets no error. The pipeline still refers to the map for "a". */
  lemma StrandedPipeline()
    ensures
      var h: Hash := x => x;
      var st := Store(map["d-values-a" := ConfigMap(Some("d"), "a")], map["p" := Small("1", "d-values-a")]);
      var i := Fine("b", ["d-values-a"]).(undeletable := {"d-values-a"});
      var first := Step(st, "d", h, [SmallEntry("1")], i);
      var j := Fine("b", ["d-values-a", "d-values-b"]);
      && !Succeeds(st, "d", h, [SmallEntry("1")], i) && Succeeds(first, "d", h, [SmallEntry("1")], j)
      && var end := Step(first, "d", h, [SmallEntry("1")], j);
         "p" in end.pipelines && end.pipelines["p"].spec.configMapRef != MapName("d", h, "b")
  {
    var h: Hash := x => x;
    var m := "d-values-a";
    var st := Store(map[m := ConfigMap(Some("d"), "a")], map["p" := Small("1", m)]);
    var es := [SmallEntry("1")];
    var i, j := Fine("b", [m]).(undeletable := {m}), Fine("b", [m, "d-values-b"]);
    assert MapName("d", h, "a") == m && MapName("d", h, "b") == "d-values-b";
    assert "d-values-b"[9] != m[9];
    assert OwnedMaps(st, "d") == {m};
    assert OwnedPipelines(st, "d") == {"p"};
    assert Live(st, "d", h, {"a"}, {"p"}, Some("a"));
    CleanUpDecides(st, "d", h, {"a"}, {"p"}, "a", es, i, es, j, "p");
    var first := Step(st, "d", h, es, i);
    assert m in OwnedMaps(st, "d") && !ReachesPipelines(st, "d", h, i);
    assert "d-values-b" in OwnedMaps(first, "d");
    assert "p" in OwnedPipelines(first, "d");
  }

  /** The spec asks for version "2" of the pipeline's resources; the values stay. A run that succeeds
      leaves the pipeline at version "1". */
  lemma StalePipeline()
    ensures
      var h: Hash := x => x;
      var st := Store(map["d-values-a" := ConfigMap(Some("d"), "a")], map["p" := Small("1", "d-values-a")]);
      var i := Fine("a", ["d-values-a"]);
      && Succeeds(st, "d", h, [SmallEntry("2")], i)
      && var end := Step(st, "d", h, [SmallEntry("2")], i);
         "p" in end.pipelines &&
         !Resembles(end.pipelines["p"].spec, "d", SmallEntry("2"), "d-values-a")
  {
    var h: Hash := x => x;
    var m := "d-values-a";
    var st := Store(map[m := ConfigMap(Some("d"), "a")], map["p" := Small("1", m)]);
    var e := SmallEntry("2");
    assert MapName("d", h, "a") == m;
    assert m in OwnedMaps(st, "d") && "p" in OwnedPipelines(st, "d");
    SuccessfulStep(st, "d", h, [e], Fine("a", [m]));
    PipelineCurrent(st.pipelines, "d", [e], OwnedPipelines(st, "d"), false, m, e);
    assert "1"[0] != "2"[0];
  }

  /** The values go from "b" to "c", and the run fails once the map for "c" has replaced the other; then
      they go back to "b", and the entry asks for another role. The run succeeds, and writes
      nothing, since what it compares is as before: the pipeline keeps its old role. */
  lemma RoleKept()
    ensures
      var h: Hash := x => x;
      var st := Store(map["d-values-b" := ConfigMap(Some("d"), "b")], map["p" := Small("1", "d-values-b")]);
      var middle := Step(st, "d", h, [SmallEntry("1")], Fine("c", ["d-values-b"]).(listPipelinesOk := false));
      var e := SmallEntry("1").(targetRole := "other");
      var i := Fine("b", ["d-values-c"]);
      && OwnedMaps(middle, "d") == {"d-values-c"}
      && Succeeds(middle, "d", h, [e], i) && Handled(e, OwnedPipelines(middle, "d"), Updated(middle, "d", h, "b"))
      && var end := Step(middle, "d", h, [e], i);
         "p" in end.pipelines && end.pipelines["p"].spec.targetRole == "role"
  {
    var h: Hash := x => x;
    var b, c := "d-values-b", "d-values-c";
    var st := Store(map[b := ConfigMap(Some("d"), "b")], map["p" := Small("1", b)]);
    assert MapName("d", h, "b") == b && MapName("d", h, "c") == c && b[9] != c[9];
    assert OwnedMaps(st, "d") == {b};
    var middle := Step(st, "d", h, [SmallEntry("1")], Fine("c", [b]).(listPipelinesOk := false));
    assert middle == Store(map[c := ConfigMap(Some("d"), "c")], st.pipelines);
    assert OwnedMaps(middle, "d") == {c};
    var e, i := SmallEntry("1").(targetRole := "other"), Fine("b", [c]);
    SuccessfulStep(middle, "d", h, [e], i);
    var p := Some(Small("1", b));
    assert At(middle.pipelines, "p") == p && Written("d", e, b, p) == p.value;
    PipelinesSnoc(middle.pipelines, "d", [e], 0, OwnedPipelines(middle, "d"), true, b);
    assert [e][..0] == [] && [e][..1] == [e];
  }
}
