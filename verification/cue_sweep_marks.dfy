/** The in-place removal of private fields on arbitrary trees.

    Which declarations of a level the loop removes and how often it handles each of them depends
    only on which are private. Marks follow one level without looking below it; conditions on
    whole trees then say, for every tree, when the loop computes the filter and when it slices
    out of range. */
module SweepMarks {
  import opened Wrappers
  import opened Sweep

  /** A declaration of the original level and how often it was handled. */
  datatype Mark = Mark(node: Node, visits: nat)

  /** What is left of a level, and what was removed from it. */
  datatype Level = Level(left: seq<Mark>, gone: seq<Mark>)

  function Seen(m: Mark): Mark { m.(visits := m.visits + 1) }

  function MarkAgain(kept: seq<Mark>, t: nat): Option<seq<Mark>> {
    if t == 0 then Some(kept)
    else if kept == [] || Private(kept[|kept| - 1].node) then None
    else
      var last := kept[|kept| - 1];
      Some(kept[..|kept| - 1] + [last.(visits := last.visits + t)])
  }

  /** The loop on one level. */
  function MarkRun(kept: seq<Mark>, rest: seq<Mark>, stale: nat, gone: seq<Mark>): Option<Level>
    decreases |rest|
  {
    if rest == [] then
      var left := MarkAgain(kept, stale);
      if left.None? then None else Some(Level(left.value, gone))
    else if !Private(rest[0].node) then MarkRun(kept + [Seen(rest[0])], rest[1..], stale, gone)
    else if |rest| == 1 then
      if stale > 0 then None else Some(Level(kept, gone + [Seen(rest[0])]))
    else MarkRun(kept + [rest[1]], rest[2..], stale + 1, gone + [Seen(rest[0])])
  }

  function Start(s: seq<Node>): (r: seq<Mark>)
    ensures |r| == |s| && forall j :: 0 <= j < |s| ==> r[j] == Mark(s[j], 0)
  {
    seq(|s|, j requires 0 <= j < |s| => Mark(s[j], 0))
  }

  /** The level after v sweeps; None when one of them slices out of range on this level. */
  function MarkSweeps(s: seq<Node>, v: nat): Option<Level> {
    if v == 0 then Some(Level(Start(s), []))
    else
      var before := MarkSweeps(s, v - 1);
      if before.None? then None else MarkRun([], before.value.left, 0, before.value.gone)
  }

  /** v sweeps in a row; None when one of them slices out of range. */
  function Sweeps(s: seq<Node>, v: nat): Option<seq<Node>> {
    if v == 0 then Some(s)
    else
      var r := Sweeps(s, v - 1);
      if r.None? then None else Sweep.Sweep(r.value)
  }

  // ----- the conditions on a tree -----

  /** v sweeps get through without slicing out of range. */
  ghost predicate Survives(s: seq<Node>, v: nat)
    decreases s
  {
    var m := MarkSweeps(s, v);
    && m.Some?
    && forall j, k :: 0 <= j < |s| && Mark(s[j], k) in m.value.left + m.value.gone && HasStruct(s[j]) ==>
         Survives(s[j].value.elts, k)
  }

  /** v sweeps remove every private field: all of this level, and below each declaration that
      stays all of its level in as many sweeps as it is handled. */
  ghost predicate Clears(s: seq<Node>, v: nat)
    decreases s
  {
    var m := MarkSweeps(s, v);
    && m.Some?
    && (forall x :: x in m.value.left ==> !Private(x.node))
    && (forall j, k :: 0 <= j < |s| && Mark(s[j], k) in m.value.left && HasStruct(s[j]) ==> Clears(s[j].value.elts, k))
    && (forall j, k :: 0 <= j < |s| && Mark(s[j], k) in m.value.gone && HasStruct(s[j]) ==>
          Survives(s[j].value.elts, k))
  }

  // ----- what a mark stands for -----

  /** The declaration after it was handled k times. */
  function Visits(n: Node, k: nat): Option<Node> {
    if k == 0 then Some(n)
    else
      var before := Visits(n, k - 1);
      if before.None? then None else Visit(before.value)
  }

  lemma VisitsKeepKind(n: Node, k: nat)
    ensures var r := Visits(n, k); r.Some? ==> Private(r.value) == Private(n)
  {
  }

  lemma {:induction false} VisitsStay(n: Node, k: nat, l: nat)
    requires k <= l && Visits(n, k).None?
    ensures Visits(n, l).None?
  {
    if k < l { VisitsStay(n, k, l - 1); }
  }

  lemma {:induction false} VisitsAreSweeps(n: Node, k: nat)
    ensures var r := Visits(n, k);
      if !HasStruct(n) then r == Some(n)
      else var e := Sweeps(n.value.elts, k);
           r == if e.None? then None else Some(WithElts(n, e.value))
  {
    if k > 0 { VisitsAreSweeps(n, k - 1); }
  }

  predicate Fine(ms: seq<Mark>) {
    forall x :: x in ms ==> Visits(x.node, x.visits).Some?
  }

  function Real(ms: seq<Mark>): (r: seq<Node>)
    requires Fine(ms)
    ensures |r| == |ms| && forall j :: 0 <= j < |ms| ==> r[j] == Visits(ms[j].node, ms[j].visits).value
  {
    seq(|ms|, j requires 0 <= j < |ms| => assert ms[j] in ms; Visits(ms[j].node, ms[j].visits).value)
  }

  // ----- the loop on marks is the loop on declarations -----

  /** x is still there, handled at least as often. */
  ghost predicate Lives(x: Mark, l: Level) {
    exists y :: y in l.left + l.gone && y.node == x.node && y.visits >= x.visits
  }

  lemma LivesOn(x: Mark, y: Mark, l: Level)
    requires Lives(y, l) && y.node == x.node && y.visits >= x.visits
    ensures Lives(x, l)
  {
  }

  lemma {:induction false} AllLive(kept: seq<Mark>, rest: seq<Mark>, stale: nat, gone: seq<Mark>, x: Mark)
    requires MarkRun(kept, rest, stale, gone).Some? && x in kept + rest + gone
    ensures Lives(x, MarkRun(kept, rest, stale, gone).value)
    decreases |rest|
  {
    var l := MarkRun(kept, rest, stale, gone).value;
    if rest == [] {
      if x in gone {
        assert x in l.left + l.gone;
      } else {
        var i :| 0 <= i < |kept| && kept[i] == x;
        assert l.left[i].node == x.node && l.left[i].visits >= x.visits;
        assert l.left[i] in l.left + l.gone;
      }
    } else if !Private(rest[0].node) {
      var y := if x == rest[0] then Seen(x) else x;
      AllLive(kept + [Seen(rest[0])], rest[1..], stale, gone, y);
      LivesOn(x, y, l);
    } else if |rest| == 1 {
      var y := if x == rest[0] then Seen(x) else x;
      assert y in l.left + l.gone;
    } else {
      var y := if x == rest[0] then Seen(x) else x;
      assert rest == [rest[0], rest[1]] + rest[2..];
      AllLive(kept + [rest[1]], rest[2..], stale + 1, gone + [Seen(rest[0])], y);
      LivesOn(x, y, l);
    }
  }

  predicate AllFine(l: Level) { Fine(l.left) && Fine(l.gone) }

  /** A declaration whose children slice out of range spoils every later state of its level. */
  lemma {:induction false} Spoiled(kept: seq<Mark>, rest: seq<Mark>, stale: nat, gone: seq<Mark>, x: Mark)
    requires x in kept + rest + gone && Visits(x.node, x.visits).None?
    ensures var l := MarkRun(kept, rest, stale, gone); l.Some? ==> !AllFine(l.value)
  {
    var l := MarkRun(kept, rest, stale, gone);
    if l.Some? {
      AllLive(kept, rest, stale, gone, x);
      var y :| y in l.value.left + l.value.gone && y.node == x.node && y.visits >= x.visits;
      VisitsStay(x.node, x.visits, y.visits);
    }
  }

  lemma {:induction false} RealConcat(a: seq<Mark>, b: seq<Mark>)
    requires Fine(a) && Fine(b)
    ensures Fine(a + b) && Real(a + b) == Real(a) + Real(b)
  {
  }

  lemma {:induction false} RealSlice(ms: seq<Mark>, i: nat, j: nat)
    requires Fine(ms) && i <= j <= |ms|
    ensures Fine(ms[i..j]) && Real(ms[i..j]) == Real(ms)[i..j]
  {
    assert forall x :: x in ms[i..j] ==> x in ms;
  }

  lemma {:induction false} AgainStep(front: seq<Node>, last: Node, t: nat)
    requires !Private(last) && t > 0
    ensures Again(front + [last], t) ==
            if Visit(last).None? then None else Again(front + [Visit(last).value], t - 1)
  {
    var kept := front + [last];
    assert kept[..|kept| - 1] == front && kept[|kept| - 1] == last;
  }

  lemma {:induction false} AgainMarks(front: seq<Node>, n: Node, k: nat, t: nat)
    requires !Private(n) && Visits(n, k).Some?
    ensures Again(front + [Visits(n, k).value], t) ==
            if Visits(n, k + t).Some? then Some(front + [Visits(n, k + t).value]) else None
    decreases t
  {
    if t > 0 {
      VisitsKeepKind(n, k);
      var x := Visits(n, k).value;
      AgainStep(front, x, t);
      assert Visits(n, k + 1) == Visit(x);
      if Visit(x).Some? {
        AgainMarks(front, n, k + 1, t - 1);
        assert (k + 1) + (t - 1) == k + t;
      } else {
        VisitsStay(n, k + 1, k + t);
      }
    }
  }

  /** What a run on declarations returns, given the run on their marks. */
  function Outcome(l: Option<Level>): Option<seq<Node>> {
    if l.Some? && AllFine(l.value) then Some(Real(l.value.left)) else None
  }

  lemma {:induction false} LastMarks(front: seq<Mark>, last: Mark, stale: nat, gone: seq<Mark>)
    requires Fine(front) && Fine(gone) && Visits(last.node, last.visits).Some? && !Private(last.node)
    ensures Again(Real(front) + [Visits(last.node, last.visits).value], stale) ==
            Outcome(Some(Level(front + [last.(visits := last.visits + stale)], gone)))
  {
    AgainMarks(Real(front), last.node, last.visits, stale);
    var more := last.(visits := last.visits + stale);
    if Visits(more.node, more.visits).Some? {
      assert Fine([more]);
      RealConcat(front, [more]);
      assert Real([more]) == [Visits(more.node, more.visits).value];
    } else {
      assert more in front + [more];
    }
  }

  lemma {:induction false} EndMarks(kept: seq<Mark>, stale: nat, gone: seq<Mark>)
    requires Fine(kept) && Fine(gone)
    ensures Again(Real(kept), stale) == Outcome(MarkRun(kept, [], stale, gone))
  {
    if stale > 0 && kept != [] {
      var front, last := kept[..|kept| - 1], kept[|kept| - 1];
      assert last in kept;
      VisitsKeepKind(last.node, last.visits);
      RealSlice(kept, 0, |kept| - 1);
      assert Real(kept) == Real(front) + [Visits(last.node, last.visits).value];
      if !Private(last.node) {
        LastMarks(front, last, stale, gone);
        assert MarkRun(kept, [], stale, gone) == Some(Level(front + [last.(visits := last.visits + stale)], gone));
      } else {
        assert MarkRun(kept, [], stale, gone) == None;
      }
    }
  }

  lemma {:induction false} RunMarks(kept: seq<Mark>, rest: seq<Mark>, stale: nat, gone: seq<Mark>)
    requires Fine(kept) && Fine(rest) && Fine(gone)
    ensures Run(Real(kept), Real(rest), stale) == Outcome(MarkRun(kept, rest, stale, gone))
    decreases |rest|
  {
    if rest == [] {
      EndMarks(kept, stale, gone);
    } else {
      var x, r := rest[0], Real(rest);
      assert x in rest;
      var y := Seen(x);
      VisitsKeepKind(x.node, x.visits);
      assert Visit(r[0]) == Visits(y.node, y.visits);
      if Visits(y.node, y.visits).None? {
        StepSpoiled(kept, rest, stale, gone);
      } else if !Private(x.node) {
        StepKeep(kept, rest);
        RunMarks(kept + [y], rest[1..], stale, gone);
      } else if |rest| > 1 {
        StepCut(kept, rest, gone);
        RunMarks(kept + [rest[1]], rest[2..], stale + 1, gone + [y]);
      } else {
        assert Fine([y]);
        RealConcat(gone, [y]);
      }
    }
  }

  lemma {:induction false} StepSpoiled(kept: seq<Mark>, rest: seq<Mark>, stale: nat, gone: seq<Mark>)
    requires rest != [] && Visits(rest[0].node, rest[0].visits + 1).None?
    ensures Outcome(MarkRun(kept, rest, stale, gone)) == None
  {
    var y := Seen(rest[0]);
    if !Private(rest[0].node) {
      Spoiled(kept + [y], rest[1..], stale, gone, y);
    } else if |rest| > 1 {
      Spoiled(kept + [rest[1]], rest[2..], stale + 1, gone + [y], y);
    } else {
      assert y in gone + [y];
    }
  }

  lemma {:induction false} StepKeep(kept: seq<Mark>, rest: seq<Mark>)
    requires Fine(kept) && Fine(rest) && rest != [] && Visits(rest[0].node, rest[0].visits + 1).Some?
    ensures Fine(kept + [Seen(rest[0])]) && Fine(rest[1..])
    ensures Real(rest[1..]) == Real(rest)[1..]
    ensures Real(kept + [Seen(rest[0])]) == Real(kept) + [Visits(rest[0].node, rest[0].visits + 1).value]
  {
    assert Fine([Seen(rest[0])]);
    RealConcat(kept, [Seen(rest[0])]);
    RealSlice(rest, 1, |rest|);
  }

  lemma {:induction false} StepCut(kept: seq<Mark>, rest: seq<Mark>, gone: seq<Mark>)
    requires Fine(kept) && Fine(rest) && Fine(gone) && |rest| > 1 && Visits(rest[0].node, rest[0].visits + 1).Some?
    ensures Fine(kept + [rest[1]]) && Fine(rest[2..]) && Fine(gone + [Seen(rest[0])])
    ensures Real(rest[2..]) == Real(rest)[2..] && Real(kept + [rest[1]]) == Real(kept) + [Real(rest)[1]]
  {
    assert Fine([Seen(rest[0])]) && rest[1] in rest && Fine([rest[1]]);
    RealConcat(kept, [rest[1]]);
    RealConcat(gone, [Seen(rest[0])]);
    RealSlice(rest, 2, |rest|);
  }

  /** v sweeps of a tree, told from the marks of its top level. */
  lemma {:induction false} SweepsMarks(s: seq<Node>, v: nat)
    ensures Sweeps(s, v) == Outcome(MarkSweeps(s, v))
  {
    if v == 0 {
      assert Real(Start(s)) == s;
    } else {
      SweepsMarks(s, v - 1);
      var before := MarkSweeps(s, v - 1);
      if before.Some? {
        var l := before.value;
        if AllFine(l) {
          RunMarks([], l.left, 0, l.gone);
          assert Real([]) == [];
        } else {
          var x :| x in l.left + l.gone && Visits(x.node, x.visits).None?;
          Spoiled([], l.left, 0, l.gone, x);
        }
      }
    }
  }

  // ----- when the sweeps get through -----

  ghost predicate From(ms: seq<Mark>, s: seq<Node>) {
    forall x :: x in ms ==> x.node in s
  }

  lemma {:induction false} RunFrom(kept: seq<Mark>, rest: seq<Mark>, stale: nat, gone: seq<Mark>, s: seq<Node>)
    requires From(kept, s) && From(rest, s) && From(gone, s)
    ensures var l := MarkRun(kept, rest, stale, gone); l.Some? ==> From(l.value.left, s) && From(l.value.gone, s)
    decreases |rest|
  {
    if rest != [] {
      assert rest[0] in rest;
      if !Private(rest[0].node) {
        RunFrom(kept + [Seen(rest[0])], rest[1..], stale, gone, s);
      } else if |rest| > 1 {
        assert rest[1] in rest;
        RunFrom(kept + [rest[1]], rest[2..], stale + 1, gone + [Seen(rest[0])], s);
      }
    } else if stale > 0 && kept != [] {
      assert kept[|kept| - 1] in kept;
    }
  }

  lemma {:induction false} SweepsFrom(s: seq<Node>, v: nat)
    ensures var l := MarkSweeps(s, v); l.Some? ==> From(l.value.left, s) && From(l.value.gone, s)
  {
    if v > 0 {
      SweepsFrom(s, v - 1);
      var before := MarkSweeps(s, v - 1);
      if before.Some? { RunFrom([], before.value.left, 0, before.value.gone, s); }
    }
  }

  /** The marks' nodes can be had exactly when the levels below them get through. */
  lemma FineExact(s: seq<Node>, ms: seq<Mark>)
    requires From(ms, s)
    requires forall j, k :: 0 <= j < |s| && Mark(s[j], k) in ms && HasStruct(s[j]) ==>
               (Sweeps(s[j].value.elts, k).Some? <==> Survives(s[j].value.elts, k))
    ensures Fine(ms) <==>
            forall j, k :: 0 <= j < |s| && Mark(s[j], k) in ms && HasStruct(s[j]) ==> Survives(s[j].value.elts, k)
  {
    forall j, k | 0 <= j < |s| && Mark(s[j], k) in ms
      ensures Visits(s[j], k).Some? <==> (HasStruct(s[j]) ==> Sweeps(s[j].value.elts, k).Some?)
    {
      VisitsAreSweeps(s[j], k);
    }
    if forall j, k :: 0 <= j < |s| && Mark(s[j], k) in ms && HasStruct(s[j]) ==> Survives(s[j].value.elts, k) {
      forall x | x in ms ensures Visits(x.node, x.visits).Some? {
        var j :| 0 <= j < |s| && s[j] == x.node;
        assert Mark(s[j], x.visits) == x;
      }
    }
  }

  /** For every tree and every number of sweeps. */
  lemma {:induction false} SurvivesExact(s: seq<Node>, v: nat)
    ensures Sweeps(s, v).Some? <==> Survives(s, v)
    decreases s
  {
    SweepsMarks(s, v);
    SweepsFrom(s, v);
    var m := MarkSweeps(s, v);
    if m.Some? {
      var ms := m.value.left + m.value.gone;
      forall j, k | 0 <= j < |s| && Mark(s[j], k) in ms && HasStruct(s[j])
        ensures Sweeps(s[j].value.elts, k).Some? <==> Survives(s[j].value.elts, k)
      {
        SurvivesExact(s[j].value.elts, k);
      }
      FineExact(s, ms);
      assert AllFine(m.value) <==> Fine(ms);
    }
  }

  // ----- when they amount to the filter -----

  /** The nodes that are not private, in order. */
  function Publics(ms: seq<Mark>): seq<Node> {
    if ms == [] then []
    else (if Private(ms[0].node) then [] else [ms[0].node]) + Publics(ms[1..])
  }

  lemma PublicsConcat(a: seq<Mark>, b: seq<Mark>)
    ensures Publics(a + b) == Publics(a) + Publics(b)
  {
    if a == [] {
      assert a + b == b;
    } else {
      assert (a + b)[1..] == a[1..] + b;
      PublicsConcat(a[1..], b);
    }
  }

  lemma AgainPublics(kept: seq<Mark>, t: nat)
    ensures var l := MarkAgain(kept, t); l.Some? ==> Publics(l.value) == Publics(kept)
  {
    if t > 0 && kept != [] {
      var front, last := kept[..|kept| - 1], kept[|kept| - 1];
      assert kept == front + [last];
      PublicsConcat(front, [last]);
      PublicsConcat(front, [last.(visits := last.visits + t)]);
    }
  }

  /** No declaration that is not private is lost or moved. */
  lemma {:induction false} RunPublics(kept: seq<Mark>, rest: seq<Mark>, stale: nat, gone: seq<Mark>)
    ensures var l := MarkRun(kept, rest, stale, gone);
      l.Some? ==> Publics(l.value.left) == Publics(kept) + Publics(rest)
    decreases |rest|
  {
    if rest == [] {
      AgainPublics(kept, stale);
    } else if !Private(rest[0].node) {
      RunPublics(kept + [Seen(rest[0])], rest[1..], stale, gone);
      PublicsConcat(kept, [Seen(rest[0])]);
    } else if |rest| > 1 {
      RunPublics(kept + [rest[1]], rest[2..], stale + 1, gone + [Seen(rest[0])]);
      PublicsConcat(kept, [rest[1]]);
      assert rest[1..] == [rest[1]] + rest[2..];
      PublicsConcat([rest[1]], rest[2..]);
    } else {
      assert Publics(rest) == [];
    }
  }

  lemma {:induction false} SweepsPublics(s: seq<Node>, v: nat)
    ensures var l := MarkSweeps(s, v); l.Some? ==> Publics(l.value.left) == Publics(Start(s))
  {
    if v > 0 {
      SweepsPublics(s, v - 1);
      var before := MarkSweeps(s, v - 1);
      if before.Some? { RunPublics([], before.value.left, 0, before.value.gone); }
    }
  }

  lemma AllPublic(ms: seq<Mark>)
    requires forall x :: x in ms ==> !Private(x.node)
    ensures |Publics(ms)| == |ms| && forall i :: 0 <= i < |ms| ==> Publics(ms)[i] == ms[i].node
  {
    if ms != [] {
      assert ms[0] in ms && forall x :: x in ms[1..] ==> x in ms;
      AllPublic(ms[1..]);
    }
  }

  lemma StripPublic(s: seq<Node>)
    ensures forall j :: 0 <= j < |Strip(s)| ==> !Private(Strip(s)[j])
  {
  }

  lemma {:induction false} StripPublics(s: seq<Node>)
    ensures var p := Publics(Start(s));
      |Strip(s)| == |p| && forall i :: 0 <= i < |p| ==> Strip(s)[i] == StripNode(p[i])
  {
    if s != [] {
      StripPublics(s[1..]);
      assert Start(s)[1..] == Start(s[1..]);
      assert Start(s)[0].node == s[0];
      assert Publics(Start(s)) == (if Private(s[0]) then [] else [s[0]]) + Publics(Start(s[1..]));
    }
  }

  /** What is left is the filter exactly when no private mark is left and every node was handled
      as often as it takes. */
  lemma FilterExact(s: seq<Node>, ms: seq<Mark>)
    requires Fine(ms) && Publics(ms) == Publics(Start(s))
    ensures Real(ms) == Strip(s) <==>
            forall x :: x in ms ==> !Private(x.node) && Visits(x.node, x.visits) == Some(StripNode(x.node))
  {
    StripPublics(s);
    StripPublic(s);
    if forall x :: x in ms ==> !Private(x.node) {
      AllPublic(ms);
      assert forall i :: 0 <= i < |ms| ==> ms[i] in ms;
      assert Real(ms) == Strip(s) <==> forall i :: 0 <= i < |ms| ==> Real(ms)[i] == StripNode(ms[i].node);
    } else {
      var i :| 0 <= i < |ms| && Private(ms[i].node);
      VisitsKeepKind(ms[i].node, ms[i].visits);
      assert Private(Real(ms)[i]);
    }
  }

  /** For every tree and every number of sweeps. */
  lemma {:induction false} ClearsExact(s: seq<Node>, v: nat)
    ensures Sweeps(s, v) == Some(Strip(s)) <==> Clears(s, v)
    decreases s
  {
    SweepsMarks(s, v);
    SweepsFrom(s, v);
    SweepsPublics(s, v);
    var m := MarkSweeps(s, v);
    if m.Some? {
      var l := m.value;
      forall j, k | 0 <= j < |s| && HasStruct(s[j])
        ensures Sweeps(s[j].value.elts, k).Some? <==> Survives(s[j].value.elts, k)
        ensures Sweeps(s[j].value.elts, k) == Some(Strip(s[j].value.elts)) <==> Clears(s[j].value.elts, k)
      {
        SurvivesExact(s[j].value.elts, k);
        ClearsExact(s[j].value.elts, k);
      }
      FineExact(s, l.gone);
      NodesCleared(s, l.left);
      if Fine(l.left) { FilterExact(s, l.left); }
    }
  }

  lemma NodesCleared(s: seq<Node>, ms: seq<Mark>)
    requires From(ms, s)
    requires forall j, k :: 0 <= j < |s| && HasStruct(s[j]) ==>
               (Sweeps(s[j].value.elts, k) == Some(Strip(s[j].value.elts)) <==> Clears(s[j].value.elts, k))
    ensures (forall x :: x in ms ==> Visits(x.node, x.visits) == Some(StripNode(x.node))) <==>
            forall j, k :: 0 <= j < |s| && Mark(s[j], k) in ms && HasStruct(s[j]) ==> Clears(s[j].value.elts, k)
  {
    forall j, k | 0 <= j < |s| && Mark(s[j], k) in ms
      ensures Visits(s[j], k) == Some(StripNode(s[j])) <==> (HasStruct(s[j]) ==> Clears(s[j].value.elts, k))
    {
      VisitsAreSweeps(s[j], k);
    }
    if forall j, k :: 0 <= j < |s| && Mark(s[j], k) in ms && HasStruct(s[j]) ==> Clears(s[j].value.elts, k) {
      forall x | x in ms ensures Visits(x.node, x.visits) == Some(StripNode(x.node)) {
        var j :| 0 <= j < |s| && s[j] == x.node;
        assert Mark(s[j], x.visits) == x;
      }
    }
  }
}
