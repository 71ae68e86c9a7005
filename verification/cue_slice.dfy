/** removePrivateFields on the data it really works on: a tree of declaration lists, each a
    slice (backing array and length) reached through a pointer. */
module Slices {
  import opened Wrappers
  import opened Sweep

  /** A declaration as the backing array holds it: the elements of a struct literal sit behind
      a pointer, so two copies of a declaration share them. */
  datatype Decl = OtherDecl(text: string) | FieldDecl(name: string, attrs: seq<string>, value: Expr)
  datatype Expr = ScalarExpr(expr: string) | StructLit(lit: Slice)

  predicate PrivateDecl(d: Decl) {
    d.FieldDecl? && |d.attrs| > 0 && d.attrs[0] == PRIVATE
  }

  predicate IsStructLit(d: Decl) {
    d.FieldDecl? && d.value.StructLit?
  }

  /** The declaration d, whose struct literal (if any) has the given contents, is the node n. */
  ghost predicate Matches(d: Decl, n: Node)
    reads if IsStructLit(d) then {d.value.lit} else {}
  {
    match d
    case OtherDecl(t) => n == Other(t)
    case FieldDecl(l, a, ScalarExpr(e)) => n == Field(l, a, Scalar(e))
    case FieldDecl(l, a, StructLit(c)) => n == Field(l, a, Struct(c.Contents))
  }

  /** The declarations ds of a list, with contents ns, whose owner and backing array are own:
      each struct literal among them is valid, lives inside repr and apart from own, and
      shares nothing with the other ones. */
  ghost predicate Wired(own: set<object>, repr: set<object>, ds: seq<Decl>, ns: seq<Node>)
    reads repr - own
    decreases repr, 0
  {
    && |ds| == |ns|
    && own <= repr && own != {}
    && (forall j :: 0 <= j < |ds| && IsStructLit(ds[j]) ==> Inside(own, repr, ds[j].value.lit))
    && (forall j :: 0 <= j < |ds| && IsStructLit(ds[j]) ==> ds[j].value.lit.Valid())
    && (forall j :: 0 <= j < |ds| ==> Matches(ds[j], ns[j]))
    && (forall j, k :: 0 <= j < k < |ds| && IsStructLit(ds[j]) && IsStructLit(ds[k]) ==>
          ds[j].value.lit.Repr !! ds[k].value.lit.Repr)
  }

  ghost predicate Inside(own: set<object>, repr: set<object>, c: Slice)
    reads repr - own
  {
    c in repr - own && c.Repr <= repr - own
  }

  class Slice {
    var elts: array<Decl>
    var len: nat
    ghost var Contents: seq<Node>
    ghost var Repr: set<object>

    /** The list of all declarations of the array. */
    constructor (elts: array<Decl>, ghost contents: seq<Node>, ghost children: set<object>)
      requires elts !in children && Built(elts[..], contents, children)
      ensures Valid() && this.elts == elts && Contents == contents && Repr == {this, elts} + children
    {
      this.elts, len, Contents, Repr := elts, elts.Length, contents, {this, elts} + children;
      new;
      assert elts[..len] == elts[..];
    }

    ghost predicate Valid()
      reads this, Repr
      decreases Repr, 1
      ensures Valid() ==> this in Repr && |Contents| == len <= elts.Length
    {
      && this in Repr && elts in Repr
      && len <= elts.Length
      && Wired({this, elts}, Repr, elts[..len], Contents)
    }
  }

  /** The declarations ds, with contents ns, whose struct literals live apart inside children. */
  ghost predicate Built(ds: seq<Decl>, ns: seq<Node>, children: set<object>)
    reads children
  {
    && |ds| == |ns|
    && (forall j :: 0 <= j < |ds| && IsStructLit(ds[j]) ==>
          ds[j].value.lit in children && ds[j].value.lit.Repr <= children)
    && (forall j :: 0 <= j < |ds| && IsStructLit(ds[j]) ==> ds[j].value.lit.Valid())
    && (forall j :: 0 <= j < |ds| ==> Matches(ds[j], ns[j]))
    && (forall j, k :: 0 <= j < k < |ds| && IsStructLit(ds[j]) && IsStructLit(ds[k]) ==>
          ds[j].value.lit.Repr !! ds[k].value.lit.Repr)
  }

  ghost function LitRepr(d: Decl): set<object>
    reads if IsStructLit(d) then {d.value.lit} else {}
  {
    if IsStructLit(d) then d.value.lit.Repr else {}
  }

  lemma BuiltOneMore(ds: seq<Decl>, ns: seq<Node>, children: set<object>, d: Decl, n: Node)
    requires Built(ds, ns, children) && Matches(d, n)
    requires IsStructLit(d) ==> d.value.lit.Valid() && d.value.lit.Repr !! children
    ensures Built(ds + [d], ns + [n], children + LitRepr(d))
  {
    var es := ds + [d];
    forall j | 0 <= j < |es| ensures es[j] == (if j < |ds| then ds[j] else d) {}
  }

  method BuildDecl(n: Node) returns (d: Decl)
    ensures Matches(d, n) && fresh(LitRepr(d))
    ensures IsStructLit(d) ==> d.value.lit.Valid()
    decreases n
  {
    match n {
      case Other(t) => d := OtherDecl(t);
      case Field(l, a, Scalar(e)) => d := FieldDecl(l, a, ScalarExpr(e));
      case Field(l, a, Struct(elts)) =>
        var child := Build(elts);
        d := FieldDecl(l, a, StructLit(child));
    }
  }

  /** A list that holds the given nodes and shares nothing with what was there. */
  method Build(ns: seq<Node>) returns (list: Slice)
    ensures list.Valid() && list.Contents == ns && fresh(list.Repr)
    decreases ns
  {
    var a := new Decl[|ns|](_ => OtherDecl(""));
    ghost var children: set<object> := {};
    for k := 0 to |ns|
      invariant fresh(children) && a !in children
      invariant Built(a[..k], ns[..k], children)
    {
      ghost var ds := a[..k];
      var d := BuildDecl(ns[k]);
      a[k] := d;
      BuiltOneMore(ds, ns[..k], children, d, ns[k]);
      children := children + LitRepr(d);
      assert a[..k + 1] == ds + [d] && ns[..k + 1] == ns[..k] + [ns[k]];
    }
    assert a[..] == a[..|ns|] && ns[..|ns|] == ns;
    list := new Slice(a, ns, children);
  }

  /** The slice c is valid and shares nothing with what the list still holds. */
  ghost predicate Detached(list: Slice, c: Slice)
    requires list.Valid()
    reads list, list.Repr
  {
    && Inside({list, list.elts}, list.Repr, c) && c.Valid()
    && var ds := list.elts[..list.len];
       forall j :: 0 <= j < |ds| && IsStructLit(ds[j]) && Inside({list, list.elts}, list.Repr, ds[j].value.lit) ==>
                ds[j].value.lit.Repr !! c.Repr
  }

  lemma WiredCut(own: set<object>, repr: set<object>, ds: seq<Decl>, ns: seq<Node>, i: nat)
    requires Wired(own, repr, ds, ns) && i < |ds|
    ensures Wired(own, repr, ds[..i] + ds[i + 1..], ns[..i] + ns[i + 1..])
    ensures IsStructLit(ds[i]) ==>
      && Inside(own, repr, ds[i].value.lit) && ds[i].value.lit.Valid()
      && var cs := ds[..i] + ds[i + 1..];
         forall j :: 0 <= j < |cs| && IsStructLit(cs[j]) && Inside(own, repr, cs[j].value.lit) ==>
           cs[j].value.lit.Repr !! ds[i].value.lit.Repr
  {
  }

  method ShiftDown(a: array<Decl>, i: nat, n: nat)
    requires i < n <= a.Length
    modifies a
    ensures a[..] == old(a[..i] + a[i + 1..n] + a[n - 1..])
    ensures a[..n - 1] == old(a[..n][..i] + a[..n][i + 1..])
  {
    forall k | i <= k < n - 1 {
      a[k] := a[k + 1];
    }
  }

  /** append(list[:i], list[i+1:]...): the tail of the list moves one place down inside the
      same backing array, and the position after the new end keeps the old last declaration. */
  method CutAt(list: Slice, i: nat)
    requires list.Valid() && i < list.len
    modifies list, list.elts
    ensures list.Valid() && list.elts == old(list.elts) && list.Repr == old(list.Repr)
    ensures list.len == old(list.len) - 1
    ensures list.Contents == old(list.Contents[..i] + list.Contents[i + 1..])
    ensures list.elts[..] == old(list.elts[..i] + list.elts[i + 1..list.len] + list.elts[list.len - 1..])
    ensures IsStructLit(old(list.elts[i])) ==> Detached(list, old(list.elts[i]).value.lit)
  {
    ghost var ds := list.elts[..list.len];
    assert ds[i] == list.elts[i];
    WiredCut({list, list.elts}, list.Repr, ds, list.Contents, i);
    ShiftDown(list.elts, i, list.len);
    list.len := list.len - 1;
    list.Contents := list.Contents[..i] + list.Contents[i + 1..];
    assert list.elts[..list.len] == ds[..i] + ds[i + 1..];
    assert Wired({list, list.elts}, list.Repr, list.elts[..list.len], list.Contents);
  }

  /** The backing array still shows the list's last declaration between its end and n. */
  ghost predicate StaleEnd(list: Slice, n: nat)
    reads list, list.elts
  {
    && 0 < list.len <= n <= list.elts.Length
    && forall j :: list.len <= j < n ==> list.elts[j] == list.elts[list.len - 1]
  }

  /** Recurses into the struct literal c, which declaration p of the list points to, or which
      was just cut out of the list (p == list.len). */
  method Recurse(list: Slice, c: Slice, ghost p: nat) returns (ok: bool)
    requires list.Valid() && p <= list.len
    requires p < list.len ==> IsStructLit(list.elts[p]) && list.elts[p].value.lit == c
    requires p == list.len ==> Detached(list, c)
    modifies list.Repr
    decreases list.Repr, 0
    ensures list.elts == old(list.elts) && list.len == old(list.len) && list.Repr == old(list.Repr)
    ensures list.elts[..] == old(list.elts[..])
    ensures ok == Sweep.Sweep(old(c.Contents)).Some?
    ensures ok ==> list.Valid()
    ensures ok && p == list.len ==> list.Contents == old(list.Contents)
    ensures p < list.len ==> ok == Visit(old(list.Contents[p])).Some?
    ensures ok && p < list.len ==>
              list.Contents == old(list.Contents)[p := Visit(old(list.Contents[p])).value]
  {
    ghost var ds := list.elts[..list.len];
    assert Wired({list, list.elts}, list.Repr, ds, list.Contents);
    assert p < list.len ==> Inside({list, list.elts}, list.Repr, ds[p].value.lit) && Matches(ds[p], list.Contents[p]);
    ok := RemovePrivateFields(c);
    assert list.elts[..list.len] == ds;
    if ok && p < list.len {
      list.Contents := list.Contents[p := Field(list.elts[p].name, list.elts[p].attrs, Struct(c.Contents))];
    }
  }

  /** Handles the declaration d that was just cut out of the list. */
  method VisitCut(list: Slice, d: Decl, ghost n: Node) returns (ok: bool)
    requires list.Valid() && Matches(d, n) && (IsStructLit(d) ==> Detached(list, d.value.lit))
    modifies list.Repr
    decreases list.Repr, 1
    ensures list.elts == old(list.elts) && list.len == old(list.len) && list.Repr == old(list.Repr)
    ensures list.elts[..] == old(list.elts[..])
    ensures ok == Visit(n).Some?
    ensures ok ==> list.Valid() && list.Contents == old(list.Contents)
  {
    ok := true;
    if IsStructLit(d) {
      assert HasStruct(n) && n.value.elts == d.value.lit.Contents;
      ok := Recurse(list, d.value.lit, list.len);
    }
  }

  /** Handles the declaration d, which position p of the list shows. */
  method VisitDecl(list: Slice, d: Decl, ghost p: nat) returns (ok: bool)
    requires list.Valid() && p < list.len && list.elts[p] == d && Matches(d, list.Contents[p])
    modifies list.Repr
    decreases list.Repr, 1
    ensures list.elts == old(list.elts) && list.len == old(list.len) && list.Repr == old(list.Repr)
    ensures list.elts[..] == old(list.elts[..])
    ensures ok == Visit(old(list.Contents[p])).Some?
    ensures ok ==>
      list.Valid() && list.Contents == old(list.Contents)[p := Visit(old(list.Contents[p])).value]
  {
    ok := true;
    if IsStructLit(d) {
      ok := Recurse(list, d.value.lit, p);
    } else {
      assert list.Contents == list.Contents[p := list.Contents[p]];
    }
  }

  type State = (seq<Node>, seq<Node>, nat)

  /** Where the loop stands at index i: kept and rest are the list before and behind the
      index, and stale counts the positions at the end of the old list still to be read. */
  ghost predicate Standing(list: Slice, n: nat, i: nat, kept: seq<Node>, rest: seq<Node>, stale: nat)
    reads list, list.Repr, list.elts
  {
    && list.Valid() && list.Contents == kept + rest
    && i + |rest| + stale == n <= list.elts.Length
    && (rest != [] ==> i == |kept|)
    && (rest == [] && stale > 0 ==> list.len <= i)
    && (stale > 0 ==> StaleEnd(list, n))
  }

  /** The position in the list of the declaration that the loop reads at index i. */
  ghost function Pos(kept: seq<Node>, rest: seq<Node>): int {
    if rest != [] then |kept| else |kept| - 1
  }

  lemma Reads(list: Slice, n: nat, i: nat, kept: seq<Node>, rest: seq<Node>, stale: nat)
    requires Standing(list, n, i, kept, rest, stale) && i < n
    ensures var p := Pos(kept, rest);
      && 0 <= p < list.len && list.elts[i] == list.elts[p]
      && Matches(list.elts[p], list.Contents[p])
      && PrivateDecl(list.elts[p]) == Private(list.Contents[p])
      && IsStructLit(list.elts[p]) == HasStruct(list.Contents[p])
  {
    var p := Pos(kept, rest);
    var ds := list.elts[..list.len];
    assert Wired({list, list.elts}, list.Repr, ds, list.Contents);
    assert ds[p] == list.elts[p];
  }

  lemma LastDecl(list: Slice)
    requires list.Valid() && list.len > 0
    ensures PrivateDecl(list.elts[list.len - 1]) == Private(list.Contents[list.len - 1])
  {
    var ds := list.elts[..list.len];
    assert Wired({list, list.elts}, list.Repr, ds, list.Contents);
    assert ds[list.len - 1] == list.elts[list.len - 1];
  }

  /** The declarations before and behind the index, and the stale positions, one turn later. */
  ghost function Next(kept: seq<Node>, rest: seq<Node>, stale: nat): (seq<Node>, seq<Node>, nat)
    requires rest != [] || (kept != [] && stale > 0)
    requires Visit((kept + rest)[Pos(kept, rest)]).Some?
  {
    var v := Visit((kept + rest)[Pos(kept, rest)]).value;
    if rest == [] then (kept[..|kept| - 1] + [v], [], stale - 1)
    else if !Private(rest[0]) then (kept + [v], rest[1..], stale)
    else if |rest| == 1 then (kept, [], stale)
    else (kept + [rest[1]], rest[2..], stale + 1)
  }

  lemma {:induction false} RunNext(kept: seq<Node>, rest: seq<Node>, stale: nat)
    requires rest != [] || (kept != [] && stale > 0)
    ensures var p := Pos(kept, rest);
      var v := Visit((kept + rest)[p]);
      if v.None? || LastCut(kept, rest, stale)
      then Run(kept, rest, stale) == None
      else var (k, r, t) := Next(kept, rest, stale); Run(kept, rest, stale) == Run(k, r, t)
  {
    assert rest == [] ==> kept + rest == kept;
  }

  /** The last declaration is to be removed, after or while others were. */
  ghost predicate LastCut(kept: seq<Node>, rest: seq<Node>, stale: nat) {
    stale > 0 && |rest| <= 1 && kept + rest != [] && Private((kept + rest)[|kept + rest| - 1])
  }

  /** The next turn reads a private declaration behind the end of the list. */
  ghost predicate Doomed(list: Slice, n: nat, i: nat)
    reads list, list.Repr, list.elts
  {
    list.Valid() && list.len <= i < n <= list.elts.Length && PrivateDecl(list.elts[i])
  }

  /** Where the loop stands after a turn that cut a declaration out. */
  lemma {:induction false} StandingAfterCut(list: Slice, n: nat, i: nat, kept: seq<Node>, rest: seq<Node>, stale: nat,
                         was: seq<Decl>, len: nat)
    requires rest != [] && Private(rest[0]) && i == |kept|
    requires len == |kept| + |rest| <= n <= |was| == list.elts.Length && len + stale == n
    requires stale > 0 ==> forall j :: len <= j < n ==> was[j] == was[len - 1]
    requires PrivateDecl(was[len - 1]) == Private(rest[|rest| - 1])
    requires list.Valid() && list.len == len - 1
    requires list.Contents == if |rest| == 1 then kept else kept + [rest[1]] + rest[2..]
    requires list.elts[..] == was[..i] + was[i + 1..len] + was[len - 1..]
    ensures
      if LastCut(kept, rest, stale) then Doomed(list, n, i + 1)
      else if |rest| == 1 then Standing(list, n, i + 1, kept, [], stale)
      else Standing(list, n, i + 1, kept + [rest[1]], rest[2..], stale + 1)
  {
    var now := list.elts[..];
    assert forall j :: 0 <= j < n ==> list.elts[j] == now[j];
    assert forall j :: len - 1 <= j < n ==> now[j] == was[j];
    assert len >= 2 ==> now[len - 2] == if i == len - 1 then was[len - 2] else was[len - 1];
  }

  /** Where the loop stands after a turn that left the list as long as it was. */
  lemma {:induction false} StandingAfterVisit(list: Slice, n: nat, i: nat, kept: seq<Node>, rest: seq<Node>, stale: nat)
    requires rest != [] || (kept != [] && stale > 0)
    requires Visit((kept + rest)[Pos(kept, rest)]).Some? && (rest != [] ==> !Private(rest[0]))
    requires list.Valid() && list.len == |kept| + |rest|
    requires i + |rest| + stale == n <= list.elts.Length && (rest != [] ==> i == |kept|)
    requires rest == [] ==> list.len <= i
    requires stale > 0 ==> StaleEnd(list, n)
    requires list.Contents == Next(kept, rest, stale).0 + Next(kept, rest, stale).1
    ensures var s := Next(kept, rest, stale); Standing(list, n, i + 1, s.0, s.1, s.2)
  {
  }

  lemma {:induction false} NextContents(kept: seq<Node>, rest: seq<Node>, stale: nat)
    requires rest != [] || (kept != [] && stale > 0)
    requires Visit((kept + rest)[Pos(kept, rest)]).Some?
    ensures var p := Pos(kept, rest);
      var s := Next(kept, rest, stale);
      s.0 + s.1 == if rest != [] && Private(rest[0])
                   then (kept + rest)[..p] + (kept + rest)[p + 1..]
                   else (kept + rest)[p := Visit((kept + rest)[p]).value]
  {
  }

  /** What holds at index i when goal is what the loop is to compute: either it stands where
      Run goes on, or it is about to slice out of range. */
  ghost predicate Invariant(list: Slice, n: nat, i: nat, s: State, goal: Option<seq<Node>>)
    reads list, list.Repr, list.elts
  {
    || (Standing(list, n, i, s.0, s.1, s.2) && Run(s.0, s.1, s.2) == goal)
    || (Doomed(list, n, i) && goal == None)
  }

  /** The first half of a turn that meets a private declaration inside the list. */
  method CutOut(list: Slice, i: nat, ghost n: nat, ghost kept: seq<Node>, ghost rest: seq<Node>, ghost stale: nat)
    returns (d: Decl)
    requires i < n && i < list.len && Standing(list, n, i, kept, rest, stale)
    requires rest != [] && PrivateDecl(list.elts[i])
    modifies list, list.elts
    ensures list.elts == old(list.elts) && list.Repr == old(list.Repr)
    ensures list.Valid() && list.len == old(list.len) - 1
    ensures Private(rest[0]) && Matches(d, rest[0]) && (IsStructLit(d) ==> Detached(list, d.value.lit))
    ensures list.Contents == kept + rest[1..]
    ensures PrivateDecl(old(list.elts[list.len - 1])) == Private(rest[|rest| - 1])
    ensures list.elts[..] == old(list.elts[..i] + list.elts[i + 1..list.len] + list.elts[list.len - 1..])
  {
    Reads(list, n, i, kept, rest, stale);
    LastDecl(list);
    d := list.elts[i];
    CutAt(list, i);
    assert (kept + rest)[..i] == kept && (kept + rest)[i + 1..] == rest[1..];
  }

  /** A turn that meets a private declaration inside the list. */
  method RemoveTurn(list: Slice, i: nat, ghost n: nat, ghost kept: seq<Node>, ghost rest: seq<Node>, ghost stale: nat)
    returns (ok: bool)
    requires i < n && i < list.len && Standing(list, n, i, kept, rest, stale)
    requires rest != [] && PrivateDecl(list.elts[i])
    modifies list.Repr
    decreases list.Repr, 2
    ensures list.elts == old(list.elts) && list.Repr == old(list.Repr)
    ensures ok == Visit(rest[0]).Some?
    ensures ok ==> list.Valid()
    ensures ok ==>
      if LastCut(kept, rest, stale) then Doomed(list, n, i + 1)
      else var s := Next(kept, rest, stale); Standing(list, n, i + 1, s.0, s.1, s.2)
  {
    ghost var was, len := list.elts[..], list.len;
    var d := CutOut(list, i, n, kept, rest, stale);
    ghost var now := list.elts[..];
    ok := VisitCut(list, d, rest[0]);
    if ok {
      assert list.elts[..] == now;
      assert |rest| > 1 ==> kept + rest[1..] == kept + [rest[1]] + rest[2..];
      StandingAfterCut(list, n, i, kept, rest, stale, was, len);
    }
  }

  /** A turn that leaves the list as long as it is. */
  method KeepTurn(list: Slice, i: nat, ghost n: nat, ghost kept: seq<Node>, ghost rest: seq<Node>, ghost stale: nat)
    returns (ok: bool)
    requires i < n && Standing(list, n, i, kept, rest, stale) && !PrivateDecl(list.elts[i])
    modifies list.Repr
    decreases list.Repr, 2
    ensures list.elts == old(list.elts) && list.Repr == old(list.Repr)
    ensures 0 <= Pos(kept, rest) < |kept + rest|
    ensures ok == Visit((kept + rest)[Pos(kept, rest)]).Some?
    ensures ok ==> list.Valid()
    ensures ok ==> var s := Next(kept, rest, stale); Standing(list, n, i + 1, s.0, s.1, s.2)
  {
    Reads(list, n, i, kept, rest, stale);
    ok := VisitDecl(list, list.elts[i], Pos(kept, rest));
    if ok {
      NextContents(kept, rest, stale);
      StandingAfterVisit(list, n, i, kept, rest, stale);
    }
  }

  /** One turn of the loop at index i. */
  method Turn(list: Slice, i: nat, ghost n: nat, ghost s: State, ghost goal: Option<seq<Node>>)
    returns (ok: bool, ghost s': State)
    requires i < n && Invariant(list, n, i, s, goal)
    modifies list.Repr
    decreases list.Repr, 3
    ensures list.elts == old(list.elts) && list.Repr == old(list.Repr)
    ensures if ok then list.Valid() && Invariant(list, n, i + 1, s', goal) else goal == None
  {
    ghost var (kept, rest, stale) := s;
    s' := s;
    if Standing(list, n, i, kept, rest, stale) {
      Reads(list, n, i, kept, rest, stale);
      RunNext(kept, rest, stale);
    }
    if PrivateDecl(list.elts[i]) {
      if i + 1 > list.len {
        return false, s;
      }
      ok := RemoveTurn(list, i, n, kept, rest, stale);
    } else {
      ok := KeepTurn(list, i, n, kept, rest, stale);
    }
    if ok {
      s' := Next(kept, rest, stale);
    }
  }

  /** The loop itself: ok is false when a slice expression goes out of range. */
  method RemovePrivateFields(list: Slice) returns (ok: bool)
    requires list.Valid()
    modifies list.Repr
    decreases list.Repr, 4
    ensures list.elts == old(list.elts) && list.Repr == old(list.Repr)
    ensures ok == Sweep.Sweep(old(list.Contents)).Some?
    ensures ok ==> list.Valid() && Sweep.Sweep(old(list.Contents)) == Some(list.Contents)
  {
    var n := list.len;
    ghost var s: State := ([], list.Contents, 0);
    ghost var goal := Sweep.Sweep(list.Contents);
    for i := 0 to n
      invariant list.elts == old(list.elts) && list.Repr == old(list.Repr) && list.Valid()
      invariant Invariant(list, n, i, s, goal)
    {
      ok, s := Turn(list, i, n, s, goal);
      if !ok {
        return;
      }
    }
    assert s.1 == [] && s.2 == 0 && list.Contents == s.0;
    assert Run(s.0, [], 0) == Again(s.0, 0) == Some(s.0);
    return true;
  }
}
