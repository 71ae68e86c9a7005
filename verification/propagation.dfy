/** How the pipeline reconciler (controllers/productdeploymentpipeline_controller.go) keeps the
    Localization and the Configuration of a pipeline, and how a change of the deployment's values
    reaches the Configurations. All objects live in the namespace of the deployment. */
module Propagation {
  import opened Wrappers
  import D = Deployment

  /** An ObjectReference; resource is its optional ResourceRef. */
  datatype Source = Source(kind: string, name: string, resource: Option<D.Resource>)

  datatype ConfigMapSource = ConfigMapSource(name: string, key: string, subPath: string)

  /** The ValuesSource behind the ValuesFrom pointer. */
  datatype Values = Values(configMap: Option<ConfigMapSource>)

  datatype MutationSpec = MutationSpec(source: Source, config: Option<Source>, values: Option<Values>)

  /** The spec of an object that is not stored yet. */
  const ZERO := MutationSpec(Source("", "", None), None, None)

  function ComponentVersion(p: D.PipelineSpec, resource: D.Resource): Source {
    Source("ComponentVersion", p.componentVersionRef, Some(resource))
  }

  function LocalizationKey(pipeline: string): string { pipeline + "-localization" }

  function ConfigurationKey(pipeline: string): string { pipeline + "-configuration" }

  predicate Localized(p: D.PipelineSpec) { p.localization.name != "" }

  predicate HasRules(p: D.PipelineSpec) { p.rules.name != "" }

  function WantedLocalization(p: D.PipelineSpec): MutationSpec {
    MutationSpec(ComponentVersion(p, p.resource), Some(ComponentVersion(p, p.localization)), None)
  }

  /** The Configuration mutates the Localization's output if there is one, the resource if not. */
  function WantedConfiguration(pipeline: string, p: D.PipelineSpec): MutationSpec {
    MutationSpec(
      if Localized(p) then Source("Localization", LocalizationKey(pipeline), None) else ComponentVersion(p, p.resource),
      Some(ComponentVersion(p, p.rules)),
      Some(Values(Some(ConfigMapSource(p.configMapRef, "values.yaml", pipeline)))))
  }

  // ----- the mutate closure -----

  /** A spec of the kind the reconciler itself writes. */
  predicate Whole(s: MutationSpec) {
    s.config.Some? && s.config.value.resource.Some? && s.values.Some? && s.values.value.configMap.Some?
  }

  /** Two optional resources with the same name, both of them there. */
  predicate SameName(a: Option<D.Resource>, b: Option<D.Resource>) {
    a.Some? && b.Some? && a.value.name == b.value.name
  }

  /** The three names the closure compares are the same: nothing else makes it write. */
  predicate Agree(stored: MutationSpec, wanted: MutationSpec)
    requires Whole(wanted)
  {
    && SameName(stored.source.resource, wanted.source.resource)
    && stored.config.Some? && SameName(stored.config.value.resource, wanted.config.value.resource)
    && stored.values.Some? && stored.values.value.configMap.Some?
    && stored.values.value.configMap.value.name == wanted.values.value.configMap.value.name
  }

  /** The closure dereferences nil: it reads the name of the wanted source's resource although
      there is none, or it reads through a pointer that a foreign spec left out. */
  predicate NilAccess(stored: MutationSpec, wanted: MutationSpec)
    requires Whole(wanted)
  {
    && stored.source.resource.Some?
    && (wanted.source.resource.None? ||
        (&& SameName(stored.source.resource, wanted.source.resource)
         && (stored.config.None? ||
             (SameName(stored.config.value.resource, wanted.config.value.resource) && stored.values.None?))))
  }

  class Configuration {
    var spec: MutationSpec

    constructor (spec: MutationSpec)
      ensures this.spec == spec
    {
      this.spec := spec;
    }

    /** False: the closure panicked. */
    method Mutate(wanted: MutationSpec) returns (ok: bool)
      requires Whole(wanted)
      modifies this
      ensures ok == !NilAccess(old(spec), wanted)
      ensures ok ==> spec == if Agree(old(spec), wanted) then old(spec) else wanted
    {
      if spec.source.resource.None? {
        spec := wanted;
      } else if wanted.source.resource.None? {
        return false;
      } else if spec.source.resource.value.name != wanted.source.resource.value.name {
        spec := wanted;
      }
      if spec.config.None? {
        return false;
      }
      if spec.config.value.resource.None? ||
         spec.config.value.resource.value.name != wanted.config.value.resource.value.name {
        spec := wanted;
      }
      if spec.values.None? {
        return false;
      }
      if spec.values.value.configMap.None? ||
         spec.values.value.configMap.value.name != wanted.values.value.configMap.value.name {
        spec := wanted;
      }
      return true;
    }
  }

  // ----- the cluster's mutation objects -----

  datatype Store = Store(localizations: map<string, MutationSpec>, configurations: map<string, MutationSpec>)

  datatype Failure = ApiError | NilDereference

  /** Whether the client can read and write the two kinds of objects in this run. */
  datatype Client = Client(
    getLocalization: bool,
    writeLocalization: bool,
    getConfiguration: bool,
    writeConfiguration: bool)

  const WORKING := Client(true, true, true, true)

  function LocalizationsAfter(ls: map<string, MutationSpec>, pipeline: string, p: D.PipelineSpec)
    : map<string, MutationSpec>
  {
    if Localized(p) && LocalizationKey(pipeline) !in ls
    then ls[LocalizationKey(pipeline) := WantedLocalization(p)]
    else ls
  }

  function StoredConfiguration(cs: map<string, MutationSpec>, pipeline: string): MutationSpec {
    if ConfigurationKey(pipeline) in cs then cs[ConfigurationKey(pipeline)] else ZERO
  }

  /** The run would crash on the Configuration that is stored. */
  predicate Crashes(cs: map<string, MutationSpec>, pipeline: string, p: D.PipelineSpec) {
    HasRules(p) && NilAccess(StoredConfiguration(cs, pipeline), WantedConfiguration(pipeline, p))
  }

  function ConfigurationsAfter(cs: map<string, MutationSpec>, pipeline: string, p: D.PipelineSpec)
    : map<string, MutationSpec>
  {
    if HasRules(p) && !Agree(StoredConfiguration(cs, pipeline), WantedConfiguration(pipeline, p))
    then cs[ConfigurationKey(pipeline) := WantedConfiguration(pipeline, p)]
    else cs
  }

  function After(st: Store, pipeline: string, p: D.PipelineSpec): Store {
    Store(LocalizationsAfter(st.localizations, pipeline, p), ConfigurationsAfter(st.configurations, pipeline, p))
  }

  class Mutations {
    var localizations: map<string, MutationSpec>
    var configurations: map<string, MutationSpec>

    constructor ()
      ensures Objects() == Store(map[], map[])
    {
      localizations, configurations := map[], map[];
    }

    function Objects(): Store
      reads this
    {
      Store(localizations, configurations)
    }

    /** Ok(None): the pipeline has no localization. An existing Localization is left alone. */
    method CreateOrUpdateLocalization(pipeline: string, p: D.PipelineSpec, i: Client)
      returns (r: Result<Option<string>, Failure>)
      modifies this`localizations
      ensures r.Ok? ==>
        && r.value == (if Localized(p) then Some(LocalizationKey(pipeline)) else None)
        && localizations == LocalizationsAfter(old(localizations), pipeline, p)
      ensures r.Err? ==> r.error == ApiError && localizations == old(localizations)
      ensures i.getLocalization && i.writeLocalization ==> r.Ok?
    {
      if p.localization.name == "" {
        return Ok(None);
      }
      if !i.getLocalization {
        return Err(ApiError);
      }
      if LocalizationKey(pipeline) !in localizations {
        if !i.writeLocalization {
          return Err(ApiError);
        }
        localizations := localizations[LocalizationKey(pipeline) := WantedLocalization(p)];
      }
      return Ok(Some(LocalizationKey(pipeline)));
    }

    method CreateOrUpdateConfiguration(pipeline: string, p: D.PipelineSpec, localization: Option<string>, i: Client)
      returns (r: Result<Option<string>, Failure>)
      requires localization == if Localized(p) then Some(LocalizationKey(pipeline)) else None
      modifies this`configurations
      ensures r.Ok? ==>
        && r.value == (if HasRules(p) then Some(ConfigurationKey(pipeline)) else None)
        && !Crashes(old(configurations), pipeline, p)
        && configurations == ConfigurationsAfter(old(configurations), pipeline, p)
      ensures r.Err? ==> configurations == old(configurations)
      ensures r == Err(NilDereference) <==> i.getConfiguration && Crashes(old(configurations), pipeline, p)
      ensures i.getConfiguration && i.writeConfiguration && !Crashes(old(configurations), pipeline, p) ==> r.Ok?
    {
      if p.rules.name == "" {
        return Ok(None);
      }
      var source := ComponentVersion(p, p.resource);
      if localization.Some? {
        source := Source("Localization", localization.value, None);
      }
      var wanted := MutationSpec(
        source,
        Some(ComponentVersion(p, p.rules)),
        Some(Values(Some(ConfigMapSource(p.configMapRef, "values.yaml", pipeline)))));
      if !i.getConfiguration {
        return Err(ApiError);
      }
      var key := ConfigurationKey(pipeline);
      var stored := StoredConfiguration(configurations, pipeline);
      var configuration := new Configuration(stored);
      var ok := configuration.Mutate(wanted);
      if !ok {
        return Err(NilDereference);
      }
      // CreateOrUpdate writes a new object, or one that the closure changed
      if key !in configurations || configuration.spec != stored {
        if !i.writeConfiguration {
          return Err(ApiError);
        }
        configurations := configurations[key := configuration.spec];
      }
      return Ok(Some(key));
    }

    /** The part of the run that writes; on success it names the object to take the snapshot
        from: the Configuration, or else the Localization. */
    method Provide(pipeline: string, p: D.PipelineSpec, i: Client) returns (r: Result<Option<string>, Failure>)
      modifies this
      ensures r.Ok? ==>
        && Objects() == After(old(Objects()), pipeline, p)
        && r.value == (if HasRules(p) then Some(ConfigurationKey(pipeline))
                       else if Localized(p) then Some(LocalizationKey(pipeline)) else None)
      ensures i == WORKING ==>
        (if Crashes(old(configurations), pipeline, p) then r == Err(NilDereference) else r.Ok?)
      ensures r.Err? ==>
        && configurations == old(configurations)
        && (localizations == old(localizations) || localizations == LocalizationsAfter(old(localizations), pipeline, p))
    {
      var l := CreateOrUpdateLocalization(pipeline, p, i);
      if l.Err? {
        return l;
      }
      r := CreateOrUpdateConfiguration(pipeline, p, l.value, i);
      if r == Ok(None) {
        r := l;
      }
    }
  }
}
