/** One run of the generator, effect by effect: which Sync and which Validation it makes, what it
    records, what Ready says afterwards, and how it returns. */
module GeneratorExact {
  import opened Wrappers
  import opened SemVer
  import opened CueFile
  import opened Product
  import opened Generator
  import P = Pipeline

  /** Both versions can be read. */
  predicate Comparable(parse: Parser, last: string, applied: string) {
    parse(last).Some? && parse(applied).Some?
  }

  /** The subscription is ready, and what it applied is above what is recorded, if anything is. */
  predicate Passes(g: State, parse: Parser, i: Sights) {
    && i.subscription.Some? && i.subscription.value.ready
    && var applied := i.subscription.value.applied;
       g.last == "" || (Comparable(parse, g.last, applied) && Below(parse(g.last).value, parse(applied).value))
  }

  /** There is nothing to do: the subscription is not ready, or what it applied is not above the record. */
  predicate Rests(g: State, parse: Parser, i: Sights) {
    && i.subscription.Some?
    && var applied := i.subscription.value.applied;
       !i.subscription.value.ready ||
       (g.last != "" && Comparable(parse, g.last, applied) && !Below(parse(g.last).value, parse(applied).value))
  }

  predicate ProjectOk(i: Sights) {
    i.project.Some? && i.project.value.ready && i.project.value.hasRepository
  }

  /** The run comes to the product. */
  predicate Comes(g: State, parse: Parser, i: Sights) {
    && Passes(g, parse, i) && ProjectOk(i) && i.authOk && parse(i.subscription.value.applied).Some?
    && i.lookupOk && i.description.Some? && i.dirsOk
  }

  function ProductFor(lib: Library, i: Sights): Result<ProductDeployment, Error>
    requires i.description.Some?
  {
    ProductOf(lib, i.description.value, i.resources, i.existing, i.disk)
  }

  /** The run comes to the Sync. */
  predicate Syncs(g: State, lib: Library, parse: Parser, i: Sights) {
    && Comes(g, parse, i) && ProductFor(lib, i).Ok? && i.snapshot.Some? && i.project.value.hasCommitTemplate
  }

  predicate Completed(g: State, lib: Library, parse: Parser, i: Sights) {
    Syncs(g, lib, parse, i) && i.syncWrite == Accepted && i.validationWrite == Accepted
  }

  /** The one Sync a run may make carries the version and the snapshot; none that exists is touched. */
  lemma SyncsExact(g: State, name: string, h: Hash, lib: Library, parse: Parser, i: Sights, key: string)
    ensures var end := After(g, name, h, lib, parse, i);
      && (key in end.syncs <==>
            key in g.syncs ||
            (Syncs(g, lib, parse, i) && i.syncWrite != Refused &&
             key == name + "-sync-" + h(i.subscription.value.applied)))
      && (key in g.syncs ==> end.syncs[key] == g.syncs[key])
      && (key in end.syncs && key !in g.syncs ==>
            end.syncs[key].version == i.subscription.value.applied && end.syncs[key].snapshot == i.snapshot.value)
  {
  }

  /** The one Validation a run may make, once the Sync is there, carries the version and the schema of the
      product, and refers to that Sync; none that exists is touched. */
  lemma ValidationsExact(g: State, name: string, h: Hash, lib: Library, parse: Parser, i: Sights, key: string)
    ensures var end := After(g, name, h, lib, parse, i);
      && (key in end.validations <==>
            key in g.validations ||
            (Syncs(g, lib, parse, i) && i.syncWrite == Accepted && i.validationWrite != Refused &&
             key == name + "-validation-" + h(i.subscription.value.applied)))
      && (key in g.validations ==> end.validations[key] == g.validations[key])
      && (key in end.validations && key !in g.validations ==>
            var v := end.validations[key];
            && v.version == i.subscription.value.applied
            && v.schema == ProductFor(lib, i).value.schema
            && v.syncRef == name + "-sync-" + h(i.subscription.value.applied))
  {
  }

  /** The version is recorded exactly by a run that made both objects; Ready is True after such a run and
      after one with nothing to do; a panic leaves it; any other end makes it False. */
  lemma RecordExact(g: State, name: string, h: Hash, lib: Library, parse: Parser, i: Sights)
    ensures var end := After(g, name, h, lib, parse, i);
      var panics := Comes(g, parse, i) && ProductFor(lib, i) == Err(Crashed);
      && end.last == (if Completed(g, lib, parse, i) then i.subscription.value.applied else g.last)
      && (end.ready == P.True <==>
            Completed(g, lib, parse, i) || Rests(g, parse, i) || (panics && g.ready == P.True))
      && (end.ready == P.False <==>
            !Completed(g, lib, parse, i) && !Rests(g, parse, i) && (panics ==> g.ready == P.False))
      && end.ready != P.Unset
  {
  }

  /** How the run returns: it asks for another one only while the project is not there yet, and it ends
      without an error when it is complete, has nothing to do or cannot be scheduled. */
  lemma ReturnExact(g: State, lib: Library, parse: Parser, i: Sights)
    ensures var r := OutcomeOf(g, lib, parse, i);
      && (r == Done <==>
            || Completed(g, lib, parse, i) || Rests(g, parse, i)
            || (Comes(g, parse, i) && ProductFor(lib, i) == Err(Unschedulable)))
      && (r == Panicked <==> Comes(g, parse, i) && ProductFor(lib, i) == Err(Crashed))
      && (r == Requeue <==> Passes(g, parse, i) && i.project.Some? && !ProjectOk(i))
  {
  }
}
