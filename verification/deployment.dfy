/** The ProductDeployment reconciler (controllers/productdeployment_controller.go): the values
    ConfigMap named after its content, and one pipeline object for each pipeline of the spec.
    All objects live in the namespace of the deployment. */
module Deployment {
  import opened Wrappers

  datatype Resource = Resource(name: string, version: string, path: seq<string>)

  /** A pipeline of the deployment's spec. */
  datatype Entry = Entry(name: string, resource: Resource, localization: Resource, rules: Resource, targetRole: string)

  datatype PipelineSpec = PipelineSpec(
    resource: Resource,
    localization: Resource,
    rules: Resource,
    targetRole: string,
    componentVersionRef: string,
    configMapRef: string)

  /** controller is the name of the ProductDeployment that controls the object, if any. */
  datatype Pipeline = Pipeline(controller: Option<string>, spec: PipelineSpec, ready: bool)

  /** owner is the value of the owner label, if any. */
  datatype ConfigMap = ConfigMap(owner: Option<string>, data: string)

  datatype Store = Store(maps: map<string, ConfigMap>, pipelines: map<string, Pipeline>)

  /** What a run meets: values is the merged configuration, None when it cannot be had; the
      listings are what the client's List returns, and may be in any order; ownerOk tells whether
      the owner reference of a new map can be made, and patchOk whether the status arrives. */
  datatype Sights = Sights(
    versionOk: bool,
    projectOk: bool,
    values: Option<string>,
    listMapsOk: bool,
    mapListing: seq<string>,
    createOk: bool,
    ownerOk: bool,
    undeletable: set<string>,
    listPipelinesOk: bool,
    pipelineListing: seq<string>,
    unwritable: set<string>,
    patchOk: bool)

  type Hash = string -> string

  function MapName(name: string, h: Hash, values: string): string {
    name + "-values-" + h(values)
  }

  function OwnedMaps(st: Store, name: string): set<string> {
    set m | m in st.maps && st.maps[m].owner == Some(name)
  }

  function OwnedPipelines(st: Store, name: string): set<string> {
    set p | p in st.pipelines && st.pipelines[p].controller == Some(name)
  }

  /** A listing shows the members of the set. */
  ghost predicate Lists(listing: seq<string>, s: set<string>) {
    forall x :: x in listing <==> x in s
  }

  function Members(listing: seq<string>): set<string> {
    set x | x in listing
  }

  /** The comparison of pipeline specs: it looks at names and versions only, and not at the
      target role. */
  predicate Equals(a: PipelineSpec, b: PipelineSpec) {
    && a.resource.name == b.resource.name && a.resource.version == b.resource.version
    && a.localization.name == b.localization.name && a.localization.version == b.localization.version
    && a.rules.name == b.rules.name && a.rules.version == b.rules.version
    && a.componentVersionRef == b.componentVersionRef
    && a.configMapRef == b.configMapRef
  }

  function ComponentVersionName(name: string): string { name + "component-version" }

  function WantedSpec(name: string, e: Entry, map_: string): PipelineSpec {
    PipelineSpec(e.resource, e.localization, e.rules, e.targetRole, ComponentVersionName(name), map_)
  }

  /** The stored pipeline after CreateOrUpdate. */
  function Written(name: string, e: Entry, map_: string, old_: Option<Pipeline>): Pipeline {
    var spec := WantedSpec(name, e, map_);
    if old_.None? then Pipeline(Some(name), spec, false)
    else if Equals(old_.value.spec, spec) then old_.value
    else old_.value.(spec := spec)
  }

  function At<T>(m: map<string, T>, k: string): Option<T> {
    if k in m then Some(m[k]) else None
  }

  predicate Handled(e: Entry, listed: set<string>, updated: bool) {
    e.name !in listed || updated
  }

  // ----- a run, as a function -----

  predicate Updated(st: Store, name: string, h: Hash, values: string) {
    MapName(name, h, values) !in OwnedMaps(st, name)
  }

  /** The run gets as far as making a new map, if the values have none. */
  predicate Compares(i: Sights) {
    i.versionOk && i.projectOk && i.values.Some? && i.listMapsOk
  }

  predicate MakesMap(st: Store, name: string, h: Hash, i: Sights) {
    && Compares(i) && Updated(st, name, h, i.values.value)
    && i.createOk && MapName(name, h, i.values.value) !in st.maps
  }

  /** The run gets as far as the pipelines. */
  predicate ReachesPipelines(st: Store, name: string, h: Hash, i: Sights) {
    && Compares(i) && i.listPipelinesOk
    && (Updated(st, name, h, i.values.value) ==>
          MakesMap(st, name, h, i) && i.ownerOk && OwnedMaps(st, name) !! i.undeletable)
  }

  /** Whether the run succeeds. */
  ghost predicate Succeeds(st: Store, name: string, h: Hash, entries: seq<Entry>, i: Sights) {
    && ReachesPipelines(st, name, h, i)
    && forall e :: e in entries && Handled(e, OwnedPipelines(st, name), Updated(st, name, h, i.values.value)) ==>
         e.name !in i.unwritable
  }

  /** The maps that are not deleted once a new one was made: without its owner reference the clean-up
      is not reached. */
  function Spared(st: Store, name: string, i: Sights): set<string> {
    if i.ownerOk then i.undeletable else OwnedMaps(st, name)
  }

  function MapsAfter(st: Store, name: string, h: Hash, values: string, spared: set<string>)
    : map<string, ConfigMap>
  {
    if Updated(st, name, h, values)
    then (st.maps - (OwnedMaps(st, name) - spared))[MapName(name, h, values) := ConfigMap(Some(name), values)]
    else st.maps
  }

  /** The number of entries in front of the first one that should be written and cannot be. */
  function Reach(entries: seq<Entry>, listed: set<string>, updated: bool, unwritable: set<string>): (n: nat)
    ensures n <= |entries|
    ensures forall j :: 0 <= j < n && Handled(entries[j], listed, updated) ==> entries[j].name !in unwritable
    ensures n < |entries| ==> Handled(entries[n], listed, updated) && entries[n].name in unwritable
    ensures n == |entries| <==> forall e :: e in entries && Handled(e, listed, updated) ==> e.name !in unwritable
  {
    if entries == [] then 0
    else
      var front, last := entries[..|entries| - 1], entries[|entries| - 1];
      var n := Reach(front, listed, updated, unwritable);
      assert forall e :: e in entries <==> e in front || e == last;
      if n < |front| || (Handled(last, listed, updated) && last.name in unwritable) then n else n + 1
  }

  /** The pipelines after the entries were handled in turn. */
  function PipelinesAfter(ps: map<string, Pipeline>, name: string, entries: seq<Entry>, listed: set<string>,
                          updated: bool, map_: string): map<string, Pipeline>
    decreases |entries|
  {
    if entries == [] then ps
    else
      var e := entries[|entries| - 1];
      var before := PipelinesAfter(ps, name, entries[..|entries| - 1], listed, updated, map_);
      if Handled(e, listed, updated) then before[e.name := Written(name, e, map_, At(before, e.name))] else before
  }

  lemma PipelinesSnoc(ps: map<string, Pipeline>, name: string, entries: seq<Entry>, k: nat, listed: set<string>,
                      updated: bool, map_: string)
    requires k < |entries|
    ensures
      var e := entries[k];
      var before := PipelinesAfter(ps, name, entries[..k], listed, updated, map_);
      PipelinesAfter(ps, name, entries[..k + 1], listed, updated, map_) ==
      if Handled(e, listed, updated) then before[e.name := Written(name, e, map_, At(before, e.name))] else before
    ensures HandledNames(entries[..k + 1], listed, updated) ==
            HandledNames(entries[..k], listed, updated) +
            if Handled(entries[k], listed, updated) then [entries[k].name] else []
  {
    assert entries[..k + 1][..k] == entries[..k];
  }

  function NotReady(ps: map<string, Pipeline>, listing: seq<string>): seq<string>
    requires forall p :: p in listing ==> p in ps
  {
    if listing == [] then []
    else
      NotReady(ps, listing[..|listing| - 1]) +
      if ps[listing[|listing| - 1]].ready then [] else [listing[|listing| - 1]]
  }

  function HandledNames(entries: seq<Entry>, listed: set<string>, updated: bool): seq<string> {
    if entries == [] then []
    else
      HandledNames(entries[..|entries| - 1], listed, updated) +
      if Handled(entries[|entries| - 1], listed, updated) then [entries[|entries| - 1].name] else []
  }

  /** The store after a run that succeeds. */
  function After(st: Store, name: string, h: Hash, entries: seq<Entry>, values: string): Store {
    Store(
      MapsAfter(st, name, h, values, {}),
      PipelinesAfter(st.pipelines, name, entries, OwnedPipelines(st, name), Updated(st, name, h, values),
                     MapName(name, h, values)))
  }

  /** The entries that a run gets done. */
  function Done(st: Store, name: string, h: Hash, entries: seq<Entry>, i: Sights): (r: seq<Entry>)
    requires ReachesPipelines(st, name, h, i)
    ensures r <= entries
  {
    entries[..Reach(entries, OwnedPipelines(st, name), Updated(st, name, h, i.values.value), i.unwritable)]
  }

  /** The store after any run, whether it succeeds or fails on the way. */
  function Step(st: Store, name: string, h: Hash, entries: seq<Entry>, i: Sights): Store {
    Store(
      if MakesMap(st, name, h, i) then MapsAfter(st, name, h, i.values.value, Spared(st, name, i)) else st.maps,
      if ReachesPipelines(st, name, h, i)
      then PipelinesAfter(st.pipelines, name, Done(st, name, h, entries, i), OwnedPipelines(st, name),
                          Updated(st, name, h, i.values.value), MapName(name, h, i.values.value))
      else st.pipelines)
  }

  /** The list of active pipelines that any run comes to. */
  function ActiveAfter(st: Store, name: string, h: Hash, entries: seq<Entry>, i: Sights, active: seq<string>)
    : seq<string>
    requires forall p :: p in i.pipelineListing ==> p in st.pipelines
  {
    if ReachesPipelines(st, name, h, i)
    then NotReady(st.pipelines, i.pipelineListing) +
         HandledNames(Done(st, name, h, entries, i), OwnedPipelines(st, name), Updated(st, name, h, i.values.value))
    else active
  }

  /** ProductDeployment.IsComplete, of the list of active pipelines in its status. */
  predicate IsComplete(active: seq<string>) {
    active == []
  }

  lemma SuccessfulStep(st: Store, name: string, h: Hash, entries: seq<Entry>, i: Sights)
    requires Succeeds(st, name, h, entries, i)
    ensures Step(st, name, h, entries, i) == After(st, name, h, entries, i.values.value)
    ensures Done(st, name, h, entries, i) == entries
  {
    var listed, updated := OwnedPipelines(st, name), Updated(st, name, h, i.values.value);
    var n := Reach(entries, listed, updated, i.unwritable);
    assert entries[..n] == entries;
    if updated {
      assert OwnedMaps(st, name) - i.undeletable == OwnedMaps(st, name) - {};
      assert MapsAfter(st, name, h, i.values.value, i.undeletable) == MapsAfter(st, name, h, i.values.value, {});
    }
  }

  // ----- the controller -----

  class Reconciler {
    const name: string
    const h: Hash
    var maps: map<string, ConfigMap>
    var pipelines: map<string, Pipeline>
    var active: seq<string>

    constructor (name: string, h: Hash)
      ensures this.name == name && this.h == h && Objects() == Store(map[], map[]) && active == []
    {
      this.name, this.h, maps, pipelines, active := name, h, map[], map[], [];
    }

    function Objects(): Store
      reads this
    {
      Store(maps, pipelines)
    }

    /** Some((map name, updated)), or None on an error. A failed deletion leaves the new map and
        the old one behind. */
    method GenerateConfigMap(values: string, i: Sights) returns (r: Option<(string, bool)>)
      requires Lists(i.mapListing, OwnedMaps(Objects(), name))
      modifies this`maps
      ensures var st := old(Objects());
        if !i.listMapsOk then r.None? && Objects() == st
        else if !Updated(st, name, h, values) then r == Some((MapName(name, h, values), false)) && Objects() == st
        else if !i.createOk || MapName(name, h, values) in st.maps then r.None? && Objects() == st
        else
          && maps == MapsAfter(st, name, h, values, Spared(st, name, i))
          && (if i.ownerOk && OwnedMaps(st, name) !! i.undeletable
              then r == Some((MapName(name, h, values), true)) else r.None?)
    {
      if !i.listMapsOk {
        return None;
      }
      var configName := MapName(name, h, values);
      for k := 0 to |i.mapListing|
        invariant configName !in i.mapListing[..k]
      {
        if i.mapListing[k] == configName {
          return Some((configName, false));
        }
      }
      if !i.createOk || configName in maps {
        return None;
      }
      ghost var owned := OwnedMaps(Objects(), name);
      assert Members(i.mapListing) == owned;
      maps := maps[configName := ConfigMap(Some(name), values)];
      if !i.ownerOk {
        assert maps == MapsAfter(old(Objects()), name, h, values, owned);
        return None;
      }
      var collected := CollectGarbage(i.mapListing, i.undeletable);
      assert maps == MapsAfter(old(Objects()), name, h, values, i.undeletable);
      return if collected then Some((configName, true)) else None;
    }

    /** Deletes the listed maps one by one, going on after an error. */
    method CollectGarbage(listing: seq<string>, undeletable: set<string>) returns (ok: bool)
      modifies this`maps
      ensures maps == old(maps) - (Members(listing) - undeletable)
      ensures ok <==> Members(listing) !! undeletable
    {
      ok := true;
      for k := 0 to |listing|
        invariant maps == old(maps) - (Members(listing[..k]) - undeletable)
        invariant ok <==> Members(listing[..k]) !! undeletable
      {
        assert listing[..k + 1] == listing[..k] + [listing[k]];
        assert Members(listing[..k + 1]) == Members(listing[..k]) + {listing[k]};
        if listing[k] in undeletable {
          ok := false;
        } else {
          maps := maps - {listing[k]};
        }
      }
      assert listing[..|listing|] == listing;
    }

    /** One run: the work, and then the patch of the status, which may be lost. */
    method Reconcile(entries: seq<Entry>, i: Sights) returns (ok: bool)
      requires Lists(i.mapListing, OwnedMaps(Objects(), name))
      requires Lists(i.pipelineListing, OwnedPipelines(Objects(), name))
      modifies this
      ensures ok == (Succeeds(old(Objects()), name, h, entries, i) && i.patchOk)
      ensures Objects() == Step(old(Objects()), name, h, entries, i)
      ensures forall p :: p in i.pipelineListing ==> p in old(pipelines)
      ensures active == if i.patchOk then ActiveAfter(old(Objects()), name, h, entries, i, old(active)) else old(active)
    {
      var stored := active;
      ok := Work(entries, i);
      if !i.patchOk {
        active, ok := stored, false;
      }
    }

    method Work(entries: seq<Entry>, i: Sights) returns (ok: bool)
      requires Lists(i.mapListing, OwnedMaps(Objects(), name))
      requires Lists(i.pipelineListing, OwnedPipelines(Objects(), name))
      modifies this
      ensures ok == Succeeds(old(Objects()), name, h, entries, i)
      ensures Objects() == Step(old(Objects()), name, h, entries, i)
      ensures forall p :: p in i.pipelineListing ==> p in old(pipelines)
      ensures active == ActiveAfter(old(Objects()), name, h, entries, i, old(active))
    {
      ok := false;
      assert forall p :: p in i.pipelineListing ==> p in OwnedPipelines(Objects(), name);
      if !i.versionOk {
        return;
      }
      if !i.projectOk {
        return;
      }
      if i.values.None? {
        return;
      }
      var r := GenerateConfigMap(i.values.value, i);
      if r.None? {
        return;
      }
      var (configName, configUpdated) := r.value;
      if !i.listPipelinesOk {
        return;
      }
      ghost var listed := OwnedPipelines(old(Objects()), name);
      var existing := CountExisting(i.pipelineListing);
      assert existing == listed;
      ok := CreateTheRest(entries, existing, configName, configUpdated, i.unwritable);
    }

    /** Starts the list of active pipelines anew with those that exist and are not ready. */
    method CountExisting(listing: seq<string>) returns (existing: set<string>)
      requires forall p :: p in listing ==> p in pipelines
      modifies this`active
      ensures existing == Members(listing)
      ensures active == NotReady(pipelines, listing)
    {
      existing := {};
      active := [];
      for k := 0 to |listing|
        invariant existing == Members(listing[..k])
        invariant active == NotReady(pipelines, listing[..k])
      {
        assert listing[..k + 1] == listing[..k] + [listing[k]];
        assert Members(listing[..k + 1]) == Members(listing[..k]) + {listing[k]};
        assert listing[..k + 1][..k] == listing[..k];
        existing := existing + {listing[k]};
        if !pipelines[listing[k]].ready {
          active := active + [listing[k]];
        }
      }
      assert listing[..|listing|] == listing;
    }

    /** Stops at the first entry that cannot be written; those before it stay written. */
    method CreateTheRest(entries: seq<Entry>, existing: set<string>, configName: string, configUpdated: bool,
                         unwritable: set<string>) returns (ok: bool)
      modifies this`active, this`pipelines
      ensures ok <==> forall e :: e in entries && Handled(e, existing, configUpdated) ==> e.name !in unwritable
      ensures
        var done := entries[..Reach(entries, existing, configUpdated, unwritable)];
        && pipelines == PipelinesAfter(old(pipelines), name, done, existing, configUpdated, configName)
        && active == old(active) + HandledNames(done, existing, configUpdated)
    {
      ghost var n := Reach(entries, existing, configUpdated, unwritable);
      for k := 0 to |entries|
        invariant k <= n
        invariant pipelines == PipelinesAfter(old(pipelines), name, entries[..k], existing, configUpdated, configName)
        invariant active == old(active) + HandledNames(entries[..k], existing, configUpdated)
      {
        var e := entries[k];
        PipelinesSnoc(old(pipelines), name, entries, k, existing, configUpdated, configName);
        if e.name in existing && !configUpdated {
          continue;
        }
        if e.name in unwritable {
          return false;
        }
        pipelines := pipelines[e.name := Written(name, e, configName, At(pipelines, e.name))];
        active := active + [e.name];
      }
      return true;
    }
  }
}
