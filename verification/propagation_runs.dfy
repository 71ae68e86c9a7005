/** When a change of the values reaches the Configurations, and when the reconciler crashes on
    the way, over whole runs. */
module PropagationRuns {
  import opened Wrappers
  import opened Propagation
  import D = Deployment
  import R = DeploymentRuns
  import X = DeploymentExact

  lemma KeysDiffer(p: string, q: string)
    ensures ConfigurationKey(p) == ConfigurationKey(q) <==> p == q
  {
    if ConfigurationKey(p) == ConfigurationKey(q) {
      assert ConfigurationKey(p)[..|p|] == p && ConfigurationKey(q)[..|q|] == q;
    }
  }

  /** Every Configuration in the store was written by the reconciler. */
  ghost predicate Own(st: Store) {
    forall k :: k in st.configurations ==> Whole(st.configurations[k])
  }

  /** The Configuration was last written when its pipeline had no localization. */
  predicate FromResource(cs: map<string, MutationSpec>, pipeline: string) {
    ConfigurationKey(pipeline) in cs && cs[ConfigurationKey(pipeline)].source.resource.Some?
  }

  /** From the Configuration before to the one now: it is the wanted one exactly if it was before
      or one of the three names differs, and otherwise it did not change. */
  predicate KeptOrReplaced(before: MutationSpec, now: MutationSpec, wanted: MutationSpec)
    requires Whole(wanted)
  {
    && (now == wanted <==> before == wanted || !Agree(before, wanted))
    && (now == wanted || now == before)
  }

  /** One run, from any store of the reconciler's own objects: the crash is decided by whether a
      Configuration was made before its pipeline had a localization; otherwise the Configuration
      is kept or replaced, and says whether the pipeline has one now. */
  lemma OneRun(st: Store, pipeline: string, p: D.PipelineSpec)
    requires Own(st)
    ensures Crashes(st.configurations, pipeline, p) <==>
            HasRules(p) && Localized(p) && FromResource(st.configurations, pipeline)
    ensures !Crashes(st.configurations, pipeline, p) ==>
      var r := After(st, pipeline, p);
      && Own(r)
      && (HasRules(p) ==>
            && ConfigurationKey(pipeline) in r.configurations
            && KeptOrReplaced(StoredConfiguration(st.configurations, pipeline),
                              r.configurations[ConfigurationKey(pipeline)], WantedConfiguration(pipeline, p))
            && (FromResource(r.configurations, pipeline) <==> !Localized(p)))
      && (forall q :: q != pipeline && ConfigurationKey(q) in st.configurations ==>
            ConfigurationKey(q) in r.configurations &&
            r.configurations[ConfigurationKey(q)] == st.configurations[ConfigurationKey(q)])
      && (forall q :: q != pipeline && ConfigurationKey(q) in r.configurations ==>
            ConfigurationKey(q) in st.configurations)
  {
    forall q ensures ConfigurationKey(pipeline) == ConfigurationKey(q) <==> pipeline == q {
      KeysDiffer(pipeline, q);
    }
  }

  /** The resource of the pipeline's component version. */
  predicate ResourceOf(s: Source, p: D.PipelineSpec, r: D.Resource) {
    s.kind == "ComponentVersion" && s.name == p.componentVersionRef && s.resource == Some(r)
  }

  /** A Localization, where there is none yet, localizes the pipeline's resource by its localization. */
  lemma LocalizationMade(st: Store, pipeline: string, p: D.PipelineSpec)
    requires p.localization.name != "" && pipeline + "-localization" !in st.localizations
    ensures var r := After(st, pipeline, p);
      && pipeline + "-localization" in r.localizations
      && var l := r.localizations[pipeline + "-localization"];
         && ResourceOf(l.source, p, p.resource)
         && l.config.Some? && ResourceOf(l.config.value, p, p.localization)
         && l.values.None?
  {
  }

  /** A Configuration, where there is none yet, takes the Localization's output, or the pipeline's resource
      if it has no localization, and configures it by its rules with its part of the values. */
  lemma ConfigurationMade(st: Store, pipeline: string, p: D.PipelineSpec)
    requires p.rules.name != "" && pipeline + "-configuration" !in st.configurations
    ensures var r := After(st, pipeline, p);
      && pipeline + "-configuration" in r.configurations
      && var c := r.configurations[pipeline + "-configuration"];
         && (if p.localization.name != ""
             then c.source == Source("Localization", pipeline + "-localization", None)
             else ResourceOf(c.source, p, p.resource))
         && c.config.Some? && ResourceOf(c.config.value, p, p.rules)
         && c.values.Some? && c.values.value.configMap.Some?
         && var m := c.values.value.configMap.value;
            m.name == p.configMapRef && m.key == "values.yaml" && m.subPath == pipeline
  {
  }

  /** A run makes no object without a localization or rules, and none under another name. */
  lemma NothingElseMade(st: Store, pipeline: string, p: D.PipelineSpec, key: string)
    ensures var r := After(st, pipeline, p);
      && (key in r.localizations <==>
            key in st.localizations || (p.localization.name != "" && key == pipeline + "-localization"))
      && (key in r.configurations <==>
            key in st.configurations || (p.rules.name != "" && key == pipeline + "-configuration"))
      && (key in st.configurations && key != pipeline + "-configuration" ==>
            r.configurations[key] == st.configurations[key])
  {
  }

  /** When the closure reads no nil pointer, whatever is stored: it finds no resource in the stored source, or
      there is one in the wanted source, too, and then what it compares next is there or was replaced. */
  lemma NilAccessExact(stored: MutationSpec, wanted: MutationSpec)
    requires Whole(wanted)
    ensures !NilAccess(stored, wanted) <==>
            || stored.source.resource.None?
            || (&& wanted.source.resource.Some?
                && (|| stored.source.resource.value.name != wanted.source.resource.value.name
                    || (&& stored.config.Some?
                        && (|| stored.values.Some?
                            || stored.config.value.resource.None?
                            || stored.config.value.resource.value.name != wanted.config.value.resource.value.name))))
  {
  }

  // ----- one pipeline whose spec changes between runs -----

  /** Runs on one pipeline, each with the spec of its time; None once the reconciler crashed. */
  function RunAll(st: Store, pipeline: string, specs: seq<D.PipelineSpec>): Option<Store> {
    if specs == [] then Some(st)
    else
      var before := RunAll(st, pipeline, specs[..|specs| - 1]);
      var p := specs[|specs| - 1];
      if before.None? || Crashes(before.value.configurations, pipeline, p) then None
      else Some(After(before.value, pipeline, p))
  }

  /** Whether the last of the specs that have rules has no localization. */
  predicate LastUnlocalized(specs: seq<D.PipelineSpec>) {
    specs != [] &&
    var p := specs[|specs| - 1];
    if HasRules(p) then !Localized(p) else LastUnlocalized(specs[..|specs| - 1])
  }

  /** The pipeline goes, among its specs with rules, from no localization to one. */
  ghost predicate GainsLocalization(specs: seq<D.PipelineSpec>) {
    exists k :: 0 <= k < |specs| && HasRules(specs[k]) && Localized(specs[k]) && LastUnlocalized(specs[..k])
  }

  /** From a store without the pipeline's Configuration, the runs crash exactly when the pipeline
      ever goes from having no localization to having one. */
  lemma {:induction false} CrashExact(st: Store, pipeline: string, specs: seq<D.PipelineSpec>)
    requires Own(st) && ConfigurationKey(pipeline) !in st.configurations
    ensures RunAll(st, pipeline, specs).None? <==> GainsLocalization(specs)
    ensures var r := RunAll(st, pipeline, specs);
      r.Some? ==> Own(r.value) && (FromResource(r.value.configurations, pipeline) <==> LastUnlocalized(specs))
  {
    if specs != [] {
      var front, p := specs[..|specs| - 1], specs[|specs| - 1];
      CrashExact(st, pipeline, front);
      assert forall k :: 0 <= k < |front| ==> front[k] == specs[k] && front[..k] == specs[..k];
      assert GainsLocalization(specs) <==>
             GainsLocalization(front) || (HasRules(p) && Localized(p) && LastUnlocalized(front)) by {
        if GainsLocalization(specs) {
          var k :| 0 <= k < |specs| && HasRules(specs[k]) && Localized(specs[k]) && LastUnlocalized(specs[..k]);
          assert k < |front| ==> front[..k] == specs[..k];
        }
        if GainsLocalization(front) {
          var k :| 0 <= k < |front| && HasRules(front[k]) && Localized(front[k]) && LastUnlocalized(front[..k]);
          assert front[..k] == specs[..k] && front[k] == specs[k];
        }
      }
      var before := RunAll(st, pipeline, front);
      if before.Some? {
        OneRun(before.value, pipeline, p);
      }
    }
  }

  /** Neither pipeline has a localization, and their resources, rules and ConfigMaps have the same names. */
  predicate SameNames(a: D.PipelineSpec, b: D.PipelineSpec) {
    && !Localized(a) && !Localized(b)
    && a.resource.name == b.resource.name && a.rules.name == b.rules.name && a.configMapRef == b.configMapRef
  }

  /** The place of the spec that the Configuration was last written from. */
  function WrittenFrom(specs: seq<D.PipelineSpec>): (k: Option<nat>)
    ensures k.Some? ==> k.value < |specs| && HasRules(specs[k.value])
    ensures k.None? <==> forall p :: p in specs ==> !HasRules(p)
  {
    if specs == [] then None
    else
      var front, p := specs[..|specs| - 1], specs[|specs| - 1];
      assert specs == front + [p];
      var k := WrittenFrom(front);
      if !HasRules(p) || (k.Some? && SameNames(front[k.value], p)) then k else Some(|specs| - 1)
  }

  /** The spec at k has rules, all specs with rules behind it have its names, and the last one with
      rules before it, if there is one, has not. */
  ghost predicate OpensLastStretch(specs: seq<D.PipelineSpec>, k: nat) {
    && k < |specs| && HasRules(specs[k])
    && (forall j :: k < j < |specs| && HasRules(specs[j]) ==> SameNames(specs[k], specs[j]))
    && (forall i :: 0 <= i < k && HasRules(specs[i]) && (forall j :: i < j < k ==> !HasRules(specs[j])) ==>
          !SameNames(specs[i], specs[k]))
  }

  /** A spec with the same names does not end the stretch, and one without rules is passed over. */
  lemma {:induction false} StretchGrows(front: seq<D.PipelineSpec>, p: D.PipelineSpec, k: nat)
    requires OpensLastStretch(front, k)
    requires HasRules(p) ==> SameNames(front[k], p)
    ensures OpensLastStretch(front + [p], k)
  {
    var specs := front + [p];
    assert forall j :: 0 <= j < |front| ==> specs[j] == front[j];
  }

  lemma {:induction false} StretchOpens(front: seq<D.PipelineSpec>, p: D.PipelineSpec, f: Option<nat>)
    requires HasRules(p)
    requires f.None? ==> forall q :: q in front ==> !HasRules(q)
    requires f.Some? ==> OpensLastStretch(front, f.value) && !SameNames(front[f.value], p)
    ensures OpensLastStretch(front + [p], |front|)
  {
    var specs, k := front + [p], |front|;
    forall i | 0 <= i < k && HasRules(specs[i]) && (forall j :: i < j < k ==> !HasRules(specs[j]))
      ensures !SameNames(specs[i], specs[k])
    {
      assert specs[i] == front[i] && front[i] in front;
      assert specs[f.value] == front[f.value];
      assert i > f.value ==> SameNames(front[f.value], front[i]);
    }
  }

  /** What was last written is where the last stretch of specs with the same names begins. */
  lemma {:induction false} WrittenFromOpens(specs: seq<D.PipelineSpec>)
    requires WrittenFrom(specs).Some?
    ensures OpensLastStretch(specs, WrittenFrom(specs).value)
  {
    var front, p := specs[..|specs| - 1], specs[|specs| - 1];
    var f := WrittenFrom(front);
    assert specs == front + [p];
    if f.Some? {
      WrittenFromOpens(front);
    }
    if WrittenFrom(specs) == f {
      StretchGrows(front, p, f.value);
    } else {
      StretchOpens(front, p, f);
    }
  }

  /** From a store without the pipeline's Configuration, the Configuration is the one wanted by the
      spec that opens the last stretch. So it is the one wanted now exactly when the pipeline has a
      localization, or its component version, resource and rules are what they were then. */
  lemma {:induction false} ConfigurationFollows(st: Store, pipeline: string, specs: seq<D.PipelineSpec>)
    requires Own(st) && ConfigurationKey(pipeline) !in st.configurations
    requires RunAll(st, pipeline, specs).Some?
    ensures
      var cs := RunAll(st, pipeline, specs).value.configurations;
      var k := WrittenFrom(specs);
      && (k.None? <==> ConfigurationKey(pipeline) !in cs)
      && (k.Some? ==>
            var then_, now := specs[k.value], specs[|specs| - 1];
            && cs[ConfigurationKey(pipeline)] == WantedConfiguration(pipeline, then_)
            && (HasRules(now) ==>
                  (cs[ConfigurationKey(pipeline)] == WantedConfiguration(pipeline, now) <==>
                   || Localized(now)
                   || (then_.componentVersionRef == now.componentVersionRef &&
                       then_.resource == now.resource && then_.rules == now.rules))))
  {
    if specs != [] {
      var front, p := specs[..|specs| - 1], specs[|specs| - 1];
      ConfigurationFollows(st, pipeline, front);
      var k := WrittenFrom(front);
      if k.Some? {
        AgreeExact(pipeline, front[k.value], p);
      }
    }
  }

  /** The closure finds nothing to do exactly when the names are the same. */
  lemma AgreeExact(pipeline: string, a: D.PipelineSpec, b: D.PipelineSpec)
    ensures Agree(WantedConfiguration(pipeline, a), WantedConfiguration(pipeline, b)) <==> SameNames(a, b)
  {
  }

  /** The Localization keeps the spec it was created with: later versions of the resource or of
      the localization rules never reach it. */
  lemma {:induction false} LocalizationFrozen(st: Store, pipeline: string, specs: seq<D.PipelineSpec>)
    requires LocalizationKey(pipeline) in st.localizations && RunAll(st, pipeline, specs).Some?
    ensures RunAll(st, pipeline, specs).value.localizations == st.localizations
  {
    if specs != [] {
      LocalizationFrozen(st, pipeline, specs[..|specs| - 1]);
    }
  }

  // ----- all pipelines of a deployment -----

  /** Runs on the pipelines in the given order; None once the reconciler crashed. */
  function Reconciled(st: Store, ps: map<string, D.Pipeline>, order: seq<string>): Option<Store>
    requires forall p :: p in order ==> p in ps
  {
    if order == [] then Some(st)
    else
      var front, p := order[..|order| - 1], order[|order| - 1];
      var before := Reconciled(st, ps, front);
      if before.None? || Crashes(before.value.configurations, p, ps[p].spec) then None
      else Some(After(before.value, p, ps[p].spec))
  }

  /** The pipeline was given a localization after its Configuration had been made. */
  predicate Trapped(st: Store, ps: map<string, D.Pipeline>, p: string)
    requires p in ps
  {
    HasRules(ps[p].spec) && Localized(ps[p].spec) && FromResource(st.configurations, p)
  }

  /** From st to r the Configuration of p was kept or replaced once. */
  ghost predicate Visited(st: Store, r: Store, ps: map<string, D.Pipeline>, p: string)
    requires p in ps
  {
    HasRules(ps[p].spec) ==>
      && ConfigurationKey(p) in r.configurations
      && KeptOrReplaced(StoredConfiguration(st.configurations, p), r.configurations[ConfigurationKey(p)],
                        WantedConfiguration(p, ps[p].spec))
      && (FromResource(r.configurations, p) <==> !Localized(ps[p].spec))
  }

  predicate Untouched(st: Store, r: Store, p: string) {
    && (ConfigurationKey(p) in r.configurations <==> ConfigurationKey(p) in st.configurations)
    && StoredConfiguration(r.configurations, p) == StoredConfiguration(st.configurations, p)
  }

  /** What a run on p means for the pipeline q. */
  lemma VisitOne(st: Store, before: Store, ps: map<string, D.Pipeline>, p: string, q: string)
    requires Own(before) && p in ps && !Crashes(before.configurations, p, ps[p].spec)
    ensures q != p ==> Untouched(before, After(before, p, ps[p].spec), q)
    ensures Untouched(st, before, p) ==> Visited(st, After(before, p, ps[p].spec), ps, p)
    ensures Visited(st, before, ps, p) ==> Visited(st, After(before, p, ps[p].spec), ps, p)
  {
    OneRun(before, p, ps[p].spec);
    KeysDiffer(p, q);
  }

  lemma {:induction false} VisitAll(st: Store, before: Store, ps: map<string, D.Pipeline>, front: seq<string>,
                                    p: string)
    requires Own(before) && p in ps && !Crashes(before.configurations, p, ps[p].spec)
    requires forall q :: q in front ==> q in ps && Visited(st, before, ps, q)
    requires forall q :: q !in front ==> Untouched(st, before, q)
    ensures var r := After(before, p, ps[p].spec);
      && Own(r)
      && (forall q :: q in front + [p] ==> q in ps && Visited(st, r, ps, q))
      && (forall q :: q !in front + [p] ==> Untouched(st, r, q))
  {
    OneRun(before, p, ps[p].spec);
    var r := After(before, p, ps[p].spec);
    VisitOne(st, before, ps, p, p);
    forall q | q in front + [p] ensures q in ps && Visited(st, r, ps, q) {
      if q != p { VisitOne(st, before, ps, p, q); }
    }
    forall q | q !in front + [p] ensures Untouched(st, r, q) {
      VisitOne(st, before, ps, p, q);
    }
  }

  /** Whether or not the pipeline was visited already, the next run crashes as the first would. */
  lemma CrashTrapped(st: Store, before: Store, ps: map<string, D.Pipeline>, p: string, visited: bool)
    requires Own(before) && p in ps
    requires if visited then Visited(st, before, ps, p) && !Trapped(st, ps, p) else Untouched(st, before, p)
    ensures Crashes(before.configurations, p, ps[p].spec) <==> Trapped(st, ps, p)
  {
    OneRun(before, p, ps[p].spec);
  }

  /** In any order, repetitions included: some run crashes exactly when a pipeline is trapped to
      begin with, and otherwise every Configuration that was visited is kept or replaced once. */
  lemma {:induction false} ReconciledExact(st: Store, ps: map<string, D.Pipeline>, order: seq<string>)
    requires Own(st) && forall p :: p in order ==> p in ps
    ensures Reconciled(st, ps, order).Some? <==> forall p :: p in order ==> !Trapped(st, ps, p)
    ensures var r := Reconciled(st, ps, order);
      r.Some? ==>
        && Own(r.value)
        && (forall p :: p in order ==> Visited(st, r.value, ps, p))
        && (forall p :: p !in order ==> Untouched(st, r.value, p))
  {
    if order != [] {
      var front, p := order[..|order| - 1], order[|order| - 1];
      assert order == front + [p];
      assert forall q :: q in order <==> q in front || q == p;
      ReconciledExact(st, ps, front);
      var before := Reconciled(st, ps, front);
      if before.Some? {
        CrashTrapped(st, before.value, ps, p, p in front);
        if !Crashes(before.value.configurations, p, ps[p].spec) {
          VisitAll(st, before.value, ps, front, p);
        }
      }
    }
  }

  /** The Configuration stored for the pipeline names this ConfigMap and this rules resource. */
  predicate Names(cs: map<string, MutationSpec>, pipeline: string, configMap: string, rules: string) {
    && ConfigurationKey(pipeline) in cs
    && var s := cs[ConfigurationKey(pipeline)];
       && Whole(s) && s.values.value.configMap.value.name == configMap && s.config.value.resource.value.name == rules
  }

  predicate NamesMap(s: MutationSpec, configMap: string) {
    s.values.Some? && s.values.value.configMap.Some? && s.values.value.configMap.value.name == configMap
  }

  /** A deployment run that puts new values in place, from any store, then a run on each pipeline
      with rules, in any order: if no pipeline is trapped nothing crashes, every Configuration
      names the new ConfigMap and the rules of its entry. A pipeline that did not refer to that map
      before is its entry in full, and a Configuration that did not name it is the wanted one. */
  lemma Propagates(st: D.Store, name: string, h: D.Hash, entries: seq<D.Entry>, i: D.Sights,
                   m: Store, order: seq<string>)
    requires D.Succeeds(st, name, h, entries, i) && D.Updated(st, name, h, i.values.value)
    requires forall j, k :: 0 <= j < k < |entries| ==> entries[j].name != entries[k].name
    requires forall e :: e in entries && e.rules.name != "" ==> e.name in order
    requires Own(m)
    requires var ps := D.Step(st, name, h, entries, i).pipelines; forall p :: p in order ==> p in ps
    ensures
      var end := D.Step(st, name, h, entries, i);
      var map_ := name + "-values-" + h(i.values.value);
      var r := Reconciled(m, end.pipelines, order);
      && map_ in end.maps && end.maps[map_].data == i.values.value
      && (r.Some? <==> forall p :: p in order ==> !Trapped(m, end.pipelines, p))
      && (forall e :: e in entries ==>
            && e.name in end.pipelines
            && (!(e.name in st.pipelines && st.pipelines[e.name].spec.configMapRef == map_) ==>
                  X.IsEntry(end.pipelines[e.name].spec, name, e, map_)))
      && (r.Some? ==> forall e :: e in entries && e.rules.name != "" ==>
            && Names(r.value.configurations, e.name, map_, e.rules.name)
            && (!NamesMap(StoredConfiguration(m.configurations, e.name), map_) ==>
                  r.value.configurations[ConfigurationKey(e.name)] ==
                  WantedConfiguration(e.name, end.pipelines[e.name].spec)))
  {
    var v := i.values.value;
    var map_ := D.MapName(name, h, v);
    var end := D.Step(st, name, h, entries, i);
    D.SuccessfulStep(st, name, h, entries, i);
    ReconciledExact(m, end.pipelines, order);
    forall e | e in entries
      ensures e.name in end.pipelines
      ensures R.Follows(D.At(st.pipelines, e.name), end.pipelines[e.name].spec, name, e, map_, true)
    {
      R.PipelineCurrent(st.pipelines, name, entries, D.OwnedPipelines(st, name), true, map_, e);
    }
    R.MapsEffect(st, name, h, v);
  }

  /** Over any history of successful runs: a run on each pipeline then leaves every Configuration
      naming the one live ConfigMap. */
  lemma ConfigurationsLive(st: D.Store, name: string, h: D.Hash, seen: set<string>, es: seq<R.Event>,
                           m: Store, order: seq<string>)
    requires D.OwnedMaps(st, name) == {} && D.OwnedPipelines(st, name) == {}
    requires R.Clean(st, name, h, seen, {}, es) && R.LastRun(es).Some?
    requires Own(m)
    requires var ps := R.History(st, name, h, es).pipelines;
      && (forall p :: p in order ==> p in ps && !Trapped(m, ps, p))
      && (forall e :: e in R.LastRun(es).value.0 && e.name in ps && HasRules(ps[e.name].spec) ==> e.name in order)
    ensures
      var end := R.History(st, name, h, es);
      var entries := R.LastRun(es).value.0;
      var r := Reconciled(m, end.pipelines, order);
      && r.Some?
      && forall e :: e in entries ==>
           && e.name in end.pipelines
           && (HasRules(end.pipelines[e.name].spec) ==>
                exists live :: D.OwnedMaps(end, name) == {live} &&
                  Names(r.value.configurations, e.name, live, end.pipelines[e.name].spec.rules.name))
  {
    R.OneLiveConfigMap(st, name, h, seen, es);
    ReconciledExact(m, R.History(st, name, h, es).pipelines, order);
  }

  // ----- both failures on one pipeline -----

  function Spec(localization: string, version: string): D.PipelineSpec {
    D.PipelineSpec(D.Resource("manifests", version, []), D.Resource(localization, version, []),
                   D.Resource("rules", version, []), "role", "component", "values")
  }

  /** A pipeline that has rules, and then gets a localization, too. */
  lemma LocalizationGained()
    ensures RunAll(Store(map[], map[]), "p", [Spec("", "1"), Spec("l10n", "1")]) == None
  {
    var specs := [Spec("", "1"), Spec("l10n", "1")];
    assert specs[..1] == [Spec("", "1")];
    assert LastUnlocalized(specs[..1]);
    assert HasRules(specs[1]) && Localized(specs[1]);
    CrashExact(Store(map[], map[]), "p", specs);
  }

  /** A pipeline without a localization whose resource and rules go from version "1" to "2". */
  lemma ConfigurationStale()
    ensures
      var r := RunAll(Store(map[], map[]), "p", [Spec("", "1"), Spec("", "2")]);
      && r.Some? && ConfigurationKey("p") in r.value.configurations
      && r.value.configurations[ConfigurationKey("p")] == WantedConfiguration("p", Spec("", "1"))
      && r.value.configurations[ConfigurationKey("p")] != WantedConfiguration("p", Spec("", "2"))
  {
    var empty, specs := Store(map[], map[]), [Spec("", "1"), Spec("", "2")];
    assert specs[..1] == [specs[0]] && [specs[0]][..0] == [];
    assert WrittenFrom([]) == None && WrittenFrom([specs[0]]) == Some(0);
    assert !GainsLocalization(specs);
    CrashExact(empty, "p", specs);
    ConfigurationFollows(empty, "p", specs);
    assert "1"[0] != "2"[0];
  }

  /** A localized pipeline whose resource goes from version "1" to "2". */
  lemma LocalizationStale()
    ensures
      var r := RunAll(Store(map[], map[]), "p", [Spec("l10n", "1"), Spec("l10n", "2")]);
      && r.Some? && LocalizationKey("p") in r.value.localizations
      && r.value.localizations[LocalizationKey("p")] != WantedLocalization(Spec("l10n", "2"))
  {
    var empty := Store(map[], map[]);
    var one, two := Spec("l10n", "1"), Spec("l10n", "2");
    var specs := [one, two];
    assert specs[..1] == [one] && [one][..0] == [];
    assert RunAll(empty, "p", [one]) == Some(After(empty, "p", one));
    assert !GainsLocalization(specs) by {
      assert specs[..0] == [] && !LastUnlocalized(specs[..0]) && !LastUnlocalized(specs[..1]);
    }
    CrashExact(empty, "p", specs);
    assert RunAll(empty, "p", specs) == Some(After(After(empty, "p", one), "p", two));
    assert "1"[0] != "2"[0];
    assert WantedLocalization(one).source.resource.value.version == "1";
  }
}
