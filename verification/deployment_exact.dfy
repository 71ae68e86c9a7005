/** Every run of the ProductDeployment reconciler, from any store, effect by effect and field by
    field: what becomes of each ConfigMap, of each pipeline and of the list of active pipelines,
    whether the run succeeds or fails on the way. */
module DeploymentExact {
  import opened Wrappers
  import opened Deployment

  function NameFor(name: string, h: Hash, values: string): string { name + "-values-" + h(values) }

  predicate OwnedMap(st: Store, name: string, m: string) {
    m in st.maps && st.maps[m].owner == Some(name)
  }

  predicate OwnedPipeline(st: Store, name: string, p: string) {
    p in st.pipelines && st.pipelines[p].controller == Some(name)
  }

  predicate HasValues(i: Sights) {
    i.versionOk && i.projectOk && i.values.Some? && i.listMapsOk
  }

  /** The values have no map yet, and get one. */
  predicate NewMap(st: Store, name: string, h: Hash, i: Sights) {
    HasValues(i) && i.createOk && NameFor(name, h, i.values.value) !in st.maps
  }

  /** The run comes to the entries. */
  ghost predicate Arrives(st: Store, name: string, h: Hash, i: Sights) {
    && HasValues(i) && i.listPipelinesOk
    && (OwnedMap(st, name, NameFor(name, h, i.values.value)) ||
        (NewMap(st, name, h, i) && i.ownerOk && forall m :: OwnedMap(st, name, m) ==> m !in i.undeletable))
  }

  /** The entry is not skipped: it has no pipeline of this deployment yet, or the map is new. */
  predicate Due(st: Store, name: string, h: Hash, i: Sights, e: Entry)
    requires i.values.Some?
  {
    !OwnedPipeline(st, name, e.name) || !OwnedMap(st, name, NameFor(name, h, i.values.value))
  }

  /** The entry at k is written: no entry up to it fails. */
  ghost predicate Writes(st: Store, name: string, h: Hash, entries: seq<Entry>, i: Sights, k: nat)
    requires k < |entries|
  {
    && Arrives(st, name, h, i) && Due(st, name, h, i, entries[k])
    && forall j :: 0 <= j <= k && Due(st, name, h, i, entries[j]) ==> entries[j].name !in i.unwritable
  }

  lemma DueExact(st: Store, name: string, h: Hash, i: Sights, e: Entry)
    requires i.values.Some?
    ensures Due(st, name, h, i, e) <==> Handled(e, OwnedPipelines(st, name), Updated(st, name, h, i.values.value))
  {
  }

  lemma ArrivesExact(st: Store, name: string, h: Hash, i: Sights)
    ensures Arrives(st, name, h, i) <==> ReachesPipelines(st, name, h, i)
  {
    if i.values.Some? {
      var m := NameFor(name, h, i.values.value);
      assert m == MapName(name, h, i.values.value);
      assert OwnedMap(st, name, m) ==> m in st.maps;
      assert (forall m :: OwnedMap(st, name, m) ==> m !in i.undeletable) <==> OwnedMaps(st, name) !! i.undeletable by {
        forall m ensures m in OwnedMaps(st, name) <==> OwnedMap(st, name, m) {}
        if forall m :: OwnedMap(st, name, m) ==> m !in i.undeletable {
          forall m | m in OwnedMaps(st, name) ensures m !in i.undeletable { assert OwnedMap(st, name, m); }
        }
      }
    }
  }

  /** A run succeeds exactly if it comes to the entries and can write all that are due. */
  lemma SucceedsExact(st: Store, name: string, h: Hash, entries: seq<Entry>, i: Sights)
    ensures Succeeds(st, name, h, entries, i) <==>
            && Arrives(st, name, h, i)
            && forall e :: e in entries && Due(st, name, h, i, e) ==> e.name !in i.unwritable
  {
    ArrivesExact(st, name, h, i);
  }

  /** Each ConfigMap of the cluster: a new one holds the values and is the deployment's; an old one of the
      deployment goes when a new one was made and can be deleted; no other is touched. */
  lemma MapsExact(st: Store, name: string, h: Hash, entries: seq<Entry>, i: Sights, m: string)
    ensures var end := Step(st, name, h, entries, i);
      At(end.maps, m) ==
      if NewMap(st, name, h, i) && m == NameFor(name, h, i.values.value)
      then Some(ConfigMap(Some(name), i.values.value))
      else if NewMap(st, name, h, i) && OwnedMap(st, name, m) && i.ownerOk && m !in i.undeletable then None
      else At(st.maps, m)
  {
    assert MakesMap(st, name, h, i) <==> NewMap(st, name, h, i);
    assert m in OwnedMaps(st, name) <==> OwnedMap(st, name, m);
  }

  // ----- the pipelines -----

  /** The spec is what the entry says, field by field, and refers to the map. */
  predicate IsEntry(spec: PipelineSpec, name: string, e: Entry, map_: string) {
    && spec.resource == e.resource && spec.localization == e.localization && spec.rules == e.rules
    && spec.targetRole == e.targetRole
    && spec.componentVersionRef == name + "component-version" && spec.configMapRef == map_
  }

  /** The spec has the entry's names and versions and the same references: nothing else is compared. */
  predicate Resembles(spec: PipelineSpec, name: string, e: Entry, map_: string) {
    && spec.resource.name == e.resource.name && spec.resource.version == e.resource.version
    && spec.localization.name == e.localization.name && spec.localization.version == e.localization.version
    && spec.rules.name == e.rules.name && spec.rules.version == e.rules.version
    && spec.componentVersionRef == name + "component-version" && spec.configMapRef == map_
  }

  lemma SpecExact(spec: PipelineSpec, name: string, e: Entry, map_: string)
    ensures IsEntry(spec, name, e, map_) <==> spec == WantedSpec(name, e, map_)
    ensures Resembles(spec, name, e, map_) <==> Equals(spec, WantedSpec(name, e, map_))
  {
  }

  /** What writing the entry makes of its pipeline: a new one is the entry, not ready, and the
      deployment's; one that resembles the entry stays; another gets the spec and nothing else. */
  predicate WrittenAs(before: Option<Pipeline>, after: Option<Pipeline>, name: string, e: Entry, map_: string) {
    && after.Some?
    && (before.None? ==>
          IsEntry(after.value.spec, name, e, map_) && after.value.controller == Some(name) && !after.value.ready)
    && (before.Some? && Resembles(before.value.spec, name, e, map_) ==> after == before)
    && (before.Some? && !Resembles(before.value.spec, name, e, map_) ==>
          && IsEntry(after.value.spec, name, e, map_)
          && after.value.controller == before.value.controller && after.value.ready == before.value.ready)
  }

  lemma WrittenExact(name: string, e: Entry, map_: string, old_: Option<Pipeline>)
    ensures WrittenAs(old_, Some(Written(name, e, map_, old_)), name, e, map_)
  {
    if old_.Some? { SpecExact(old_.value.spec, name, e, map_); }
    SpecExact(Written(name, e, map_, old_).spec, name, e, map_);
  }

  lemma {:induction false} Unnamed(ps: map<string, Pipeline>, name: string, entries: seq<Entry>, listed: set<string>,
                                   updated: bool, map_: string, p: string)
    requires forall e :: e in entries ==> e.name != p
    ensures At(PipelinesAfter(ps, name, entries, listed, updated, map_), p) == At(ps, p)
    decreases |entries|
  {
    if entries != [] {
      var front, last := entries[..|entries| - 1], entries[|entries| - 1];
      assert entries == front + [last];
      Unnamed(ps, name, front, listed, updated, map_, p);
    }
  }

  lemma {:induction false} PipelineAt(ps: map<string, Pipeline>, name: string, entries: seq<Entry>, listed: set<string>,
                                      updated: bool, map_: string, k: nat)
    requires forall i, j :: 0 <= i < j < |entries| ==> entries[i].name != entries[j].name
    requires k < |entries|
    ensures var e := entries[k];
      At(PipelinesAfter(ps, name, entries, listed, updated, map_), e.name) ==
      if Handled(e, listed, updated) then Some(Written(name, e, map_, At(ps, e.name))) else At(ps, e.name)
    decreases |entries|
  {
    var front, last := entries[..|entries| - 1], entries[|entries| - 1];
    assert entries == front + [last];
    if k == |front| {
      forall e | e in front ensures e.name != last.name {
        var j :| 0 <= j < |front| && front[j] == e;
        assert entries[j].name != entries[|front|].name;
      }
      Unnamed(ps, name, front, listed, updated, map_, last.name);
    } else {
      PipelineAt(ps, name, front, listed, updated, map_, k);
      assert entries[k].name != last.name;
    }
  }

  /** The pipeline of an entry after any run of distinct entries: written as the entry says, or untouched. */
  lemma StoredExact(st: Store, name: string, h: Hash, entries: seq<Entry>, i: Sights, k: nat)
    requires forall j, k :: 0 <= j < k < |entries| ==> entries[j].name != entries[k].name
    requires k < |entries|
    ensures
      var e := entries[k];
      var before, after := At(st.pipelines, e.name), At(Step(st, name, h, entries, i).pipelines, e.name);
      if Writes(st, name, h, entries, i, k)
      then WrittenAs(before, after, name, e, NameFor(name, h, i.values.value))
      else after == before
  {
    ArrivesExact(st, name, h, i);
    if ReachesPipelines(st, name, h, i) {
      var e, map_ := entries[k], NameFor(name, h, i.values.value);
      var listed, updated := OwnedPipelines(st, name), Updated(st, name, h, i.values.value);
      var n := Reach(entries, listed, updated, i.unwritable);
      ReachExact(st, name, h, entries, i, k);
      if k < n {
        PipelineAt(st.pipelines, name, entries[..n], listed, updated, map_, k);
        DueExact(st, name, h, i, e);
        WrittenExact(name, e, map_, At(st.pipelines, e.name));
      } else {
        forall f | f in entries[..n] ensures f.name != e.name {
          var j :| 0 <= j < n && entries[j] == f;
        }
        Unnamed(st.pipelines, name, entries[..n], listed, updated, map_, e.name);
      }
    }
  }

  lemma ReachExact(st: Store, name: string, h: Hash, entries: seq<Entry>, i: Sights, k: nat)
    requires k < |entries| && ReachesPipelines(st, name, h, i) && Arrives(st, name, h, i)
    ensures var n := Reach(entries, OwnedPipelines(st, name), Updated(st, name, h, i.values.value), i.unwritable);
      Writes(st, name, h, entries, i, k) <==> k < n && Due(st, name, h, i, entries[k])
  {
    forall e { DueExact(st, name, h, i, e); }
  }

  /** No pipeline that the entries do not name is touched. */
  lemma OthersStay(st: Store, name: string, h: Hash, entries: seq<Entry>, i: Sights, p: string)
    requires forall e :: e in entries ==> e.name != p
    ensures At(Step(st, name, h, entries, i).pipelines, p) == At(st.pipelines, p)
  {
    if ReachesPipelines(st, name, h, i) {
      Unnamed(st.pipelines, name, Done(st, name, h, entries, i), OwnedPipelines(st, name),
              Updated(st, name, h, i.values.value), MapName(name, h, i.values.value), p);
    }
  }

  // ----- the active pipelines -----

  lemma {:induction false} NotReadyMembers(ps: map<string, Pipeline>, listing: seq<string>, p: string)
    requires forall q :: q in listing ==> q in ps
    ensures p in NotReady(ps, listing) <==> p in listing && !ps[p].ready
  {
    if listing != [] {
      var front, last := listing[..|listing| - 1], listing[|listing| - 1];
      assert listing == front + [last];
      NotReadyMembers(ps, front, p);
    }
  }

  lemma {:induction false} HandledMembers(entries: seq<Entry>, listed: set<string>, updated: bool, p: string)
    ensures p in HandledNames(entries, listed, updated) <==>
            exists e :: e in entries && e.name == p && Handled(e, listed, updated)
  {
    if entries != [] {
      var front, last := entries[..|entries| - 1], entries[|entries| - 1];
      assert entries == front + [last];
      HandledMembers(front, listed, updated, p);
      assert forall e :: e in entries <==> e in front || e == last;
    }
  }

  /** Once a run comes to the entries, the active pipelines are those of the deployment that were not
      ready and those it wrote. */
  lemma ActiveExact(st: Store, name: string, h: Hash, entries: seq<Entry>, i: Sights, active: seq<string>, p: string)
    requires Lists(i.pipelineListing, OwnedPipelines(st, name))
    ensures
      p in ActiveAfter(st, name, h, entries, i, active) <==>
      if !Arrives(st, name, h, i) then p in active
      else
        || (OwnedPipeline(st, name, p) && !st.pipelines[p].ready)
        || exists k :: 0 <= k < |entries| && entries[k].name == p && Writes(st, name, h, entries, i, k)
  {
    ArrivesExact(st, name, h, i);
    if ReachesPipelines(st, name, h, i) {
      var listed, updated := OwnedPipelines(st, name), Updated(st, name, h, i.values.value);
      var n := Reach(entries, listed, updated, i.unwritable);
      NotReadyMembers(st.pipelines, i.pipelineListing, p);
      HandledMembers(entries[..n], listed, updated, p);
      forall k | 0 <= k < |entries|
        ensures Writes(st, name, h, entries, i, k) <==> k < n && Handled(entries[k], listed, updated)
      {
        ReachExact(st, name, h, entries, i, k);
        DueExact(st, name, h, i, entries[k]);
      }
      if exists e :: e in entries[..n] && e.name == p && Handled(e, listed, updated) {
        var e :| e in entries[..n] && e.name == p && Handled(e, listed, updated);
        var k :| 0 <= k < n && entries[k] == e;
        assert Writes(st, name, h, entries, i, k);
      }
      if k :| 0 <= k < |entries| && entries[k].name == p && Writes(st, name, h, entries, i, k) {
        assert entries[..n][k] == entries[k] && entries[k] in entries[..n];
      }
    }
  }
}
