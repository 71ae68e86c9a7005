/** The GitRepository of a project's inventory
    (controllers/fetch_git_repository_from_project.go). */
module Inventory {
  import opened Wrappers

  const SEPARATOR := '_'
  const KIND := "GitRepository"

  // ----- splitting and joining -----

  /** strings.Split with the separator. */
  function Split(s: string): (r: seq<string>)
    ensures |r| >= 1
  {
    if s == "" then [""]
    else
      var r := Split(s[1..]);
      if s[0] == SEPARATOR then [""] + r else [[s[0]] + r[0]] + r[1..]
  }

  function Join(parts: seq<string>): string
    requires |parts| >= 1
  {
    if |parts| == 1 then parts[0] else parts[0] + [SEPARATOR] + Join(parts[1..])
  }

  predicate Free(part: string) { SEPARATOR !in part }

  lemma {:induction false} PartsFree(s: string)
    ensures forall p :: p in Split(s) ==> Free(p)
  {
    if s != "" {
      PartsFree(s[1..]);
      var r := Split(s[1..]);
      assert r[0] in r;
      assert forall p :: p in r[1..] ==> p in r;
    }
  }

  lemma {:induction false} SplitFree(a: string)
    requires Free(a)
    ensures Split(a) == [a]
  {
    if a != "" {
      SplitFree(a[1..]);
      assert a[0] in a && [a[0]] + a[1..] == a;
    }
  }

  lemma {:induction false} SplitFirst(a: string, rest: string)
    requires Free(a)
    ensures Split(a + [SEPARATOR] + rest) == [a] + Split(rest)
  {
    var s := a + [SEPARATOR] + rest;
    if a == "" {
      assert s[1..] == rest;
    } else {
      SplitFirst(a[1..], rest);
      assert s[1..] == a[1..] + [SEPARATOR] + rest;
      assert [a[0]] + a[1..] == a;
    }
  }

  /** Join is undone by Split exactly when no part contains the separator. */
  lemma {:induction false} SplitJoin(parts: seq<string>)
    requires |parts| >= 1
    ensures Split(Join(parts)) == parts <==> forall p :: p in parts ==> Free(p)
  {
    PartsFree(Join(parts));
    if forall p :: p in parts ==> Free(p) {
      assert parts[0] in parts;
      if |parts| == 1 {
        SplitFree(parts[0]);
        assert parts == [parts[0]];
      } else {
        assert forall p :: p in parts[1..] ==> p in parts;
        SplitJoin(parts[1..]);
        SplitFirst(parts[0], Join(parts[1..]));
        assert parts == [parts[0]] + parts[1..];
      }
    }
  }

  /** Split is always undone by Join. */
  lemma {:induction false} JoinSplit(s: string)
    ensures Join(Split(s)) == s
  {
    if s != "" {
      JoinSplit(s[1..]);
      var r := Split(s[1..]);
      assert s == [s[0]] + s[1..];
      if s[0] == SEPARATOR {
        assert ([""] + r)[1..] == r;
      } else if |r| > 1 {
        assert ([[s[0]] + r[0]] + r[1..])[1..] == r[1..];
        assert [s[0]] + (r[0] + [SEPARATOR] + Join(r[1..])) == ([s[0]] + r[0]) + [SEPARATOR] + Join(r[1..]);
      }
    }
  }

  // ----- the search -----

  /** An ID of fewer than two parts ends the search with an error. */
  predicate Malformed(id: string) { |Split(id)| < 2 }

  predicate IsRepository(id: string) {
    |Split(id)| >= 2 && Split(id)[|Split(id)| - 1] == KIND
  }

  /** The repository that the first telling ID names: (name, namespace). */
  function Lookup(ids: seq<string>): Option<(string, string)> {
    if ids == [] || Malformed(ids[0]) then None
    else if IsRepository(ids[0]) then
      if Split(ids[0])[1] == "" then None else Some((Split(ids[0])[1], Split(ids[0])[0]))
    else Lookup(ids[1..])
  }

  /** None is an error. */
  method FetchGitRepository(inventory: Option<seq<string>>) returns (r: Option<(string, string)>)
    ensures r == if inventory.None? then None else Lookup(inventory.value)
    ensures r.Some? <==>
      && inventory.Some?
      && exists k :: 0 <= k < |inventory.value| && IsRepository(inventory.value[k]) &&
           Split(inventory.value[k])[1] != "" &&
           forall j :: 0 <= j < k ==> !Malformed(inventory.value[j]) && !IsRepository(inventory.value[j])
  {
    if inventory.None? {
      return None;
    }
    var ids := inventory.value;
    var repoName, repoNamespace := "", "";
    ghost var found := false;
    for k := 0 to |ids|
      invariant !found && repoName == "" && Lookup(ids) == Lookup(ids[k..])
      invariant forall j :: 0 <= j < k ==> !Malformed(ids[j]) && !IsRepository(ids[j])
    {
      var split := Split(ids[k]);
      if |split| < 2 {
        return None;
      }
      if split[|split| - 1] == KIND {
        repoName := split[1];
        repoNamespace := split[0];
        found := true;
        break;
      }
    }
    if repoName == "" {
      return None;
    }
    return Some((repoName, repoNamespace));
  }

  // ----- entries as the project controller writes them -----

  datatype Entry = Entry(namespace: string, name: string, group: string, kind: string)

  function Id(e: Entry): string { Join([e.namespace, e.name, e.group, e.kind]) }

  function Ids(es: seq<Entry>): (r: seq<string>)
    ensures |r| == |es| && forall k :: 0 <= k < |es| ==> r[k] == Id(es[k])
  {
    if es == [] then [] else [Id(es[0])] + Ids(es[1..])
  }

  predicate Plain(e: Entry) {
    Free(e.namespace) && Free(e.name) && Free(e.group) && Free(e.kind) && e.name != ""
  }

  /** An entry's ID is its parts with underscores in between. */
  lemma IdExact(e: Entry)
    ensures Id(e) == e.namespace + "_" + e.name + "_" + e.group + "_" + e.kind
  {
    assert [e.namespace, e.name, e.group, e.kind][1..] == [e.name, e.group, e.kind];
    assert [e.name, e.group, e.kind][1..] == [e.group, e.kind] && [e.group, e.kind][1..] == [e.kind];
    var a, b, c, d := e.namespace, e.name, e.group, e.kind;
    assert Join([d]) == d && Join([c, d]) == c + "_" + d && Join([b, c, d]) == b + "_" + (c + "_" + d);
    assert a + "_" + (b + "_" + (c + "_" + d)) == a + "_" + b + "_" + c + "_" + d;
  }

  lemma IdParts(e: Entry)
    requires Plain(e)
    ensures Split(Id(e)) == [e.namespace, e.name, e.group, e.kind]
  {
    SplitJoin([e.namespace, e.name, e.group, e.kind]);
  }

  lemma PlainSearched(e: Entry)
    requires Plain(e)
    ensures !Malformed(Id(e)) && (IsRepository(Id(e)) <==> e.kind == KIND)
    ensures Split(Id(e))[0] == e.namespace && Split(Id(e))[1] == e.name
  {
    IdParts(e);
  }

  /** In an inventory of plain entries the search finds the namespace and the name of the first
      GitRepository. */
  lemma {:induction false} FindsFirst(es: seq<Entry>, k: nat)
    requires forall e :: e in es ==> Plain(e)
    requires k < |es| && es[k].kind == "GitRepository" && forall j :: 0 <= j < k ==> es[j].kind != "GitRepository"
    ensures Lookup(Ids(es)) == Some((es[k].name, es[k].namespace))
  {
    PlainSearched(es[0]);
    if k > 0 {
      FindsFirst(es[1..], k - 1);
    }
  }

  /** It fails exactly when there is no GitRepository. */
  lemma {:induction false} FailsExactly(es: seq<Entry>)
    requires forall e :: e in es ==> Plain(e)
    ensures Lookup(Ids(es)).None? <==> forall e :: e in es ==> e.kind != "GitRepository"
  {
    if es != [] {
      PlainSearched(es[0]);
      FailsExactly(es[1..]);
      assert es == [es[0]] + es[1..];
    }
  }

  /** For a single GitRepository entry of any name, namespace and group, the search gives back what
      was joined exactly when name and namespace are free of the separator and there is a name. */
  lemma OneEntryExact(e: Entry)
    requires e.kind == "GitRepository"
    ensures Lookup([Id(e)]) == Some((e.name, e.namespace)) <==>
            Free(e.namespace) && Free(e.name) && e.name != ""
  {
    PartsFree(Id(e));
    var split := Split(Id(e));
    LastPart([e.namespace, e.name, e.group], e.kind);
    assert [e.namespace, e.name, e.group] + [e.kind] == [e.namespace, e.name, e.group, e.kind];
    assert [e.namespace, e.name, e.group, e.kind][1..] == [e.name, e.group, e.kind];
    assert [e.name, e.group, e.kind][1..] == [e.group, e.kind];
    var found := Lookup([Id(e)]);
    assert found == if split[1] == "" then None else Some((split[1], split[0]));
    assert split[0] in split && split[1] in split;
    if Free(e.namespace) && Free(e.name) {
      var rest := Join([e.group, e.kind]);
      SplitFirst(e.name, rest);
      SplitFirst(e.namespace, Join([e.name, e.group, e.kind]));
    }
  }

  /** A last part without the separator is found again, whatever comes before it. */
  lemma {:induction false} LastPart(parts: seq<string>, last: string)
    requires parts != [] && Free(last)
    ensures var split := Split(Join(parts + [last]));
      |split| >= 2 && split[|split| - 1] == last
  {
    SplitFree(last);
    var all := parts + [last];
    if |parts| == 1 {
      assert all[1..] == [last];
      SplitLast(parts[0], last);
    } else {
      assert all[1..] == parts[1..] + [last];
      LastPart(parts[1..], last);
      SplitLast(parts[0], Join(all[1..]));
    }
  }

  lemma {:induction false} SplitLast(a: string, rest: string)
    ensures var split := Split(a + [SEPARATOR] + rest);
      |split| > |Split(rest)| && split[|split| - 1] == Split(rest)[|Split(rest)| - 1]
  {
    var s := a + [SEPARATOR] + rest;
    if a == "" {
      assert s[1..] == rest;
    } else {
      SplitLast(a[1..], rest);
      var t := a[1..] + [SEPARATOR] + rest;
      assert s[1..] == t;
      assert Split(s) == if s[0] == SEPARATOR then [""] + Split(t) else [[s[0]] + Split(t)[0]] + Split(t)[1..];
    }
  }
}
