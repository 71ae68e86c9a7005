/** The choice of a target for a pipeline (controllers/select_target.go). */
module Targets {
  import opened Wrappers

  datatype Access = Access(parses: bool, targetNamespace: string, secret: Option<string>)
  datatype Target = Target(
    name: string,
    namespace: string,
    labels: map<string, string>,
    kind: string,
    access: Option<Access>)

  datatype Operator = In | NotIn | Exists | DoesNotExist
  datatype Requirement = Requirement(key: string, op: Operator, values: set<string>)
  datatype Selector = Selector(matchLabels: map<string, string>, expressions: seq<Requirement>)
  datatype TargetRole = TargetRole(kind: string, selector: Selector)

  /** An operator that compares has values to compare with, and the others have none. */
  predicate ValidRequirement(r: Requirement) {
    r.values == {} <==> r.op == Exists || r.op == DoesNotExist
  }

  /** LabelSelectorAsSelector accepts these selectors, as far as their operators go; the syntax of
      keys and values is not looked at here. */
  predicate ValidSelector(s: Selector) {
    forall r :: r in s.expressions ==> ValidRequirement(r)
  }

  predicate Satisfies(labels: map<string, string>, r: Requirement) {
    match r.op
    case In => r.key in labels && labels[r.key] in r.values
    case NotIn => r.key !in labels || labels[r.key] !in r.values
    case Exists => r.key in labels
    case DoesNotExist => r.key !in labels
  }

  predicate Selects(s: Selector, labels: map<string, string>) {
    && (forall k :: k in s.matchLabels ==> k in labels && labels[k] == s.matchLabels[k])
    && (forall r :: r in s.expressions ==> Satisfies(labels, r))
  }

  /** A requirement on a key, in terms of the label at that key: having one of the values is matching one
      of them as a label, and an operator and its opposite never agree, also where there is no label. */
  lemma RequirementExact(labels: map<string, string>, key: string, values: set<string>)
    ensures Satisfies(labels, Requirement(key, In, values)) <==>
            exists v :: v in values && Selects(Selector(map[key := v], []), labels)
    ensures Satisfies(labels, Requirement(key, NotIn, values)) <==> !Satisfies(labels, Requirement(key, In, values))
    ensures Satisfies(labels, Requirement(key, Exists, values)) <==> key in labels
    ensures Satisfies(labels, Requirement(key, DoesNotExist, values)) <==> key !in labels
  {
    forall v ensures Selects(Selector(map[key := v], []), labels) <==> key in labels && labels[key] == v {}
  }

  /** An operator that compares needs values, and the others take none. */
  lemma ValidExact(key: string, values: set<string>)
    ensures ValidRequirement(Requirement(key, In, values)) <==> values != {}
    ensures ValidRequirement(Requirement(key, NotIn, values)) <==> values != {}
    ensures ValidRequirement(Requirement(key, Exists, values)) <==> values == {}
    ensures ValidRequirement(Requirement(key, DoesNotExist, values)) <==> values == {}
  {
  }

  /** A selector selects if the labels have all of its pairs and every one of its requirements selects. */
  lemma SelectsExact(s: Selector, labels: map<string, string>)
    ensures Selects(s, labels) <==>
            && s.matchLabels.Items <= labels.Items
            && forall r :: r in s.expressions ==> Selects(Selector(map[], [r]), labels)
  {
    forall r ensures Selects(Selector(map[], [r]), labels) <==> Satisfies(labels, r) {
      assert r in [r];
    }
    if s.matchLabels.Items <= labels.Items {
      forall k | k in s.matchLabels ensures k in labels && labels[k] == s.matchLabels[k] {
        assert (k, s.matchLabels[k]) in s.matchLabels.Items;
      }
    }
  }

  /** The client's List. */
  function List(targets: seq<Target>, namespace: string, s: Selector): (r: seq<Target>)
    ensures forall t :: t in r <==> t in targets && t.namespace == namespace && Selects(s, t.labels)
  {
    if targets == [] then []
    else if targets[0].namespace == namespace && Selects(s, targets[0].labels)
    then [targets[0]] + List(targets[1..], namespace, s)
    else List(targets[1..], namespace, s)
  }

  method SearchForTargetsInNamespace(targets: seq<Target>, s: Selector, namespace: string, listOk: bool)
    returns (r: Option<seq<Target>>)
    ensures r.None? <==> !listOk || exists e :: e in s.expressions && !ValidRequirement(e)
    ensures r.Some? ==> forall t :: t in r.value <==> t in targets && t.namespace == namespace && Selects(s, t.labels)
  {
    if !ValidSelector(s) || !listOk {
      return None;
    }
    return Some(List(targets, namespace, s));
  }

  /** Some target of the namespace has the labels the role asks for. */
  ghost predicate Served(targets: seq<Target>, role: TargetRole, namespace: string) {
    exists t :: t in targets && t.namespace == namespace && Selects(role.selector, t.labels)
  }

  /** A target the role may be given: of its kind, with its labels, from the namespace, or from
      the system namespace if nothing in the namespace has the labels, whatever its kind. */
  ghost predicate Fit(t: Target, targets: seq<Target>, role: TargetRole, namespace: string, system: string) {
    && t in targets && Selects(role.selector, t.labels) && t.kind == role.kind
    && t.namespace == (if Served(targets, role, namespace) then namespace else system)
  }

  /** A fit target is in the namespace, or in the system namespace when nothing in the namespace is selected. */
  lemma FitExact(t: Target, targets: seq<Target>, role: TargetRole, namespace: string, system: string)
    ensures Fit(t, targets, role, namespace, system) <==>
            && t in targets && t.kind == role.kind && Selects(role.selector, t.labels)
            && (|| t.namespace == namespace
                || (&& t.namespace == system
                    && forall u :: u in targets && u.namespace == namespace ==> !Selects(role.selector, u.labels)))
  {
  }

  /** Returns a fit target if the selector is valid, the lists can be had and there is one;
      among several, draw decides. */
  method SelectTarget(targets: seq<Target>, role: TargetRole, namespace: string, system: string,
                      listOk: bool, draw: nat)
    returns (r: Option<Target>)
    ensures r.Some? ==> Fit(r.value, targets, role, namespace, system)
    ensures r.Some? <==> ValidSelector(role.selector) && listOk && exists t :: Fit(t, targets, role, namespace, system)
  {
    var targetList := SearchForTargetsInNamespace(targets, role.selector, namespace, listOk);
    if targetList.None? {
      return None;
    }
    assert targetList.value != [] <==> Served(targets, role, namespace) by {
      if targetList.value != [] { assert targetList.value[0] in targetList.value; }
    }
    if targetList.value == [] {
      targetList := SearchForTargetsInNamespace(targets, role.selector, system, listOk);
      if targetList.None? {
        return None;
      }
    }
    var items := targetList.value;
    var found: seq<Target> := [];
    for i := 0 to |items|
      invariant forall t :: t in found ==> t in items[..i] && t.kind == role.kind
      invariant forall t :: t in items[..i] && t.kind == role.kind ==> t in found
    {
      assert items[..i + 1] == items[..i] + [items[i]];
      if items[i].kind == role.kind {
        found := found + [items[i]];
      }
    }
    assert items[..|items|] == items;
    if found == [] {
      return None;
    }
    var target := found[draw % |found|];
    assert Fit(target, targets, role, namespace, system);
    return Some(target);
  }
}
