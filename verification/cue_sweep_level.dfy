/** What any number of sweeps does to one level of a declaration tree, in closed form.

    A sweep removes the first, third, fifth, ... declaration of each run of private ones and passes
    over the others, so each sweep halves the run; the declaration behind the run is passed over
    when the run was odd; and the last declaration is handled once more for each removal. */
module SweepLevels {
  import opened Wrappers
  import opened Sweep
  import opened SweepMarks

  // ----- halving -----

  /** The second, fourth, sixth, ... element. */
  function Evens<T>(s: seq<T>): seq<T> {
    if |s| < 2 then [] else [s[1]] + Evens(s[2..])
  }

  function Odds<T>(s: seq<T>): seq<T> {
    if s == [] then [] else [s[0]] + if |s| == 1 then [] else Odds(s[2..])
  }

  /** How many of a run of k private declarations v sweeps leave. */
  function Left(k: nat, v: nat): nat {
    if v == 0 then k else Left(k / 2, v - 1)
  }

  /** In how many of v sweeps the run is odd, so that the declaration behind it is passed over. */
  function Skips(k: nat, v: nat): (n: nat)
    ensures n <= v
  {
    if v == 0 then 0 else k % 2 + Skips(k / 2, v - 1)
  }

  /** Whether the declaration at place r of its run, counted from 1, is still there after v sweeps. */
  predicate Stays(r: nat, v: nat) {
    v == 0 || (r % 2 == 0 && Stays(r / 2, v - 1))
  }

  function EvensAfter<T>(s: seq<T>, v: nat): seq<T>
    decreases v
  {
    if v == 0 then s else EvensAfter(Evens(s), v - 1)
  }

  function OddsUpTo<T>(s: seq<T>, v: nat): seq<T>
    decreases v
  {
    if v == 0 then [] else Odds(s) + OddsUpTo(Evens(s), v - 1)
  }

  lemma {:induction false} EvensAt<T>(s: seq<T>)
    ensures |Evens(s)| == |s| / 2 && forall i :: 0 <= i < |s| / 2 ==> Evens(s)[i] == s[2 * i + 1]
    decreases |s|
  {
    if |s| >= 2 {
      var t := s[2..];
      var e := Evens(t);
      EvensAt(t);
      assert Evens(s) == [s[1]] + e;
      forall i | 0 <= i < |s| / 2 ensures ([s[1]] + e)[i] == s[2 * i + 1] {
        if i > 0 { assert e[i - 1] == t[2 * (i - 1) + 1]; }
      }
    }
  }

  lemma {:induction false} OddsAt<T>(s: seq<T>)
    ensures |Odds(s)| == |s| - |s| / 2 && forall i :: 0 <= i < |s| - |s| / 2 ==> Odds(s)[i] == s[2 * i]
    decreases |s|
  {
    if |s| >= 2 {
      var t := s[2..];
      var o := Odds(t);
      OddsAt(t);
      assert Odds(s) == [s[0]] + o;
      forall i | 0 <= i < |s| - |s| / 2 ensures ([s[0]] + o)[i] == s[2 * i] {
        if i > 0 { assert o[i - 1] == t[2 * (i - 1)]; }
      }
    }
  }

  lemma {:induction false} HalvesAt<T>(s: seq<T>)
    ensures |Evens(s)| == |s| / 2 && forall i :: 0 <= i < |s| / 2 ==> Evens(s)[i] == s[2 * i + 1]
    ensures |Odds(s)| == |s| - |s| / 2 && forall i :: 0 <= i < |s| - |s| / 2 ==> Odds(s)[i] == s[2 * i]
  {
    EvensAt(s);
    OddsAt(s);
  }

  lemma {:induction false} HalvesLength<T>(s: seq<T>, v: nat)
    ensures |EvensAfter(s, v)| == Left(|s|, v)
    ensures |OddsUpTo(s, v)| == |s| - Left(|s|, v)
    decreases v
  {
    if v > 0 {
      HalvesAt(s);
      HalvesLength(Evens(s), v - 1);
    }
  }

  /** One more sweep of a run. */
  lemma {:induction false} HalvesNext<T>(s: seq<T>, v: nat)
    ensures EvensAfter(s, v + 1) == Evens(EvensAfter(s, v))
    ensures OddsUpTo(s, v + 1) == OddsUpTo(s, v) + Odds(EvensAfter(s, v))
    decreases v
  {
    var e := Evens(s);
    if v > 0 {
      HalvesNext(e, v - 1);
      Associates(Odds(s), OddsUpTo(e, v - 1), Odds(EvensAfter(e, v - 1)));
    } else {
      assert EvensAfter(s, 1) == EvensAfter(e, 0) == e;
      assert OddsUpTo(s, 1) == Odds(s) + OddsUpTo(e, 0) == Odds(s) + [] == [] + Odds(s);
    }
  }

  lemma Associates<T>(a: seq<T>, b: seq<T>, c: seq<T>)
    ensures a + (b + c) == (a + b) + c
  {
  }

  lemma {:induction false} SkipsNext(k: nat, v: nat)
    ensures Skips(k, v + 1) == Skips(k, v) + Left(k, v) % 2
    decreases v
  {
    if v > 0 {
      SkipsNext(k / 2, v - 1);
    } else {
      assert Skips(k, 1) == k % 2 + Skips(k / 2, 0);
    }
  }

  lemma {:induction false} StaysHalf(j: nat, v: nat)
    requires v > 0
    ensures j % 2 == 0 ==> !Stays(j + 1, v)
    ensures j % 2 == 1 ==> (Stays(j + 1, v) <==> Stays(j / 2 + 1, v - 1))
  {
    if j % 2 == 1 { assert (j + 1) / 2 == j / 2 + 1; }
  }

  /** After v sweeps place j of the run s still shows x, or does not any more. */
  predicate At<T(==)>(s: seq<T>, v: nat, x: T, j: nat, stays: bool) {
    j < |s| && s[j] == x && Stays(j + 1, v) == stays
  }

  lemma {:induction false} AtHalf<T>(s: seq<T>, v: nat, x: T, i: nat, stays: bool)
    requires v > 0 && At(Evens(s), v - 1, x, i, stays)
    ensures At(s, v, x, 2 * i + 1, stays)
  {
    HalvesAt(s);
    StaysHalf(2 * i + 1, v);
    assert (2 * i + 1) / 2 == i;
  }

  lemma {:induction false} AtWhole<T>(s: seq<T>, v: nat, x: T, j: nat, stays: bool)
    requires v > 0 && At(s, v, x, j, stays)
    ensures if j % 2 == 1 then At(Evens(s), v - 1, x, j / 2, stays) else !stays && x in Odds(s)
  {
    HalvesAt(s);
    StaysHalf(j, v);
    if j % 2 == 1 {
      assert j == 2 * (j / 2) + 1;
    } else {
      assert j == 2 * (j / 2) && Odds(s)[j / 2] == x;
    }
  }

  lemma {:induction false} OddGoes<T>(s: seq<T>, v: nat, x: T) returns (j: nat)
    requires v > 0 && x in Odds(s)
    ensures At(s, v, x, j, false)
  {
    HalvesAt(s);
    var i :| 0 <= i < |Odds(s)| && Odds(s)[i] == x;
    j := 2 * i;
    StaysHalf(j, v);
  }

  /** Which of a run are left. */
  lemma {:induction false} StaysExact<T>(s: seq<T>, v: nat, x: T)
    ensures x in EvensAfter(s, v) <==> exists j: nat :: At(s, v, x, j, true)
    decreases v
  {
    if v == 0 {
      if x in s {
        var j :| 0 <= j < |s| && s[j] == x;
        assert At(s, v, x, j, true);
      }
    } else {
      var e, w: nat := Evens(s), v - 1;
      StaysExact(e, w, x);
      if x in EvensAfter(e, w) {
        var i: nat :| At(e, w, x, i, true);
        AtHalf(s, v, x, i, true);
      }
      if exists j: nat :: At(s, v, x, j, true) {
        var j: nat :| At(s, v, x, j, true);
        AtWhole(s, v, x, j, true);
      }
    }
  }

  /** Which of a run are gone. */
  lemma {:induction false} GoesExact<T>(s: seq<T>, v: nat, x: T)
    ensures x in OddsUpTo(s, v) <==> exists j: nat :: At(s, v, x, j, false)
    decreases v
  {
    if v > 0 {
      var e, w: nat := Evens(s), v - 1;
      GoesExact(e, w, x);
      assert x in OddsUpTo(s, v) <==> x in Odds(s) || x in OddsUpTo(e, w);
      if x in Odds(s) {
        var j := OddGoes(s, v, x);
      } else if x in OddsUpTo(e, w) {
        var i: nat :| At(e, w, x, i, false);
        AtHalf(s, v, x, i, false);
      }
      if exists j: nat :: At(s, v, x, j, false) {
        var j: nat :| At(s, v, x, j, false);
        AtWhole(s, v, x, j, false);
      }
    }
  }

  // ----- one level -----

  /** The number of private declarations that s begins with. */
  function Lead(s: seq<Node>): (n: nat)
    ensures n <= |s|
  {
    if s == [] || !Private(s[0]) then 0 else 1 + Lead(s[1..])
  }

  lemma {:induction false} LeadExact(s: seq<Node>)
    ensures var n := Lead(s);
      && (forall j :: 0 <= j < n ==> Private(s[j]))
      && (n < |s| ==> !Private(s[n]))
      && (s != [] && n == |s| ==> Private(s[|s| - 1]))
  {
    if s != [] && Private(s[0]) {
      LeadExact(s[1..]);
      var n := Lead(s);
      forall j | 0 <= j < n ensures Private(s[j]) {
        if j > 0 { assert s[j] == s[1..][j - 1]; }
      }
    }
  }

  /** What is behind the first run and the declaration that ends it. */
  function Behind(s: seq<Node>): seq<Node>
    requires Lead(s) < |s|
  {
    s[Lead(s) + 1..]
  }

  /** The level does not end with a private declaration. */
  predicate Ended(s: seq<Node>) { s == [] || !Private(s[|s| - 1]) }

  lemma {:induction false} LeadEnded(s: seq<Node>)
    requires Ended(s) && s != []
    ensures Lead(s) < |s| && Ended(Behind(s))
  {
    LeadExact(s);
    var t := Behind(s);
    assert t != [] ==> t[|t| - 1] == s[|s| - 1];
  }

  /** What is left of the first run, and the declaration behind it. */
  function StayHead(s: seq<Node>, v: nat, c: nat): seq<Mark>
    requires Lead(s) < |s|
  {
    var n := Lead(s);
    Start(EvensAfter(s[..n], v)) + [Mark(s[n], v - Skips(n, v) + if n + 1 == |s| then c else 0)]
  }

  /** What is left after v sweeps; the last declaration was handled another c times. */
  function Stay(s: seq<Node>, v: nat, c: nat): seq<Mark>
    requires Ended(s)
    decreases |s|
  {
    if s == [] then []
    else
      LeadEnded(s);
      StayHead(s, v, c) + Stay(Behind(s), v, c)
  }

  function Ones(ns: seq<Node>): (r: seq<Mark>)
    ensures |r| == |ns| && forall j :: 0 <= j < |ns| ==> r[j] == Mark(ns[j], 1)
  {
    seq(|ns|, j requires 0 <= j < |ns| => Mark(ns[j], 1))
  }

  /** What v sweeps have removed. */
  function Go(s: seq<Node>, v: nat): seq<Mark>
    requires Ended(s)
    decreases |s|
  {
    if s == [] then []
    else
      LeadEnded(s);
      Ones(OddsUpTo(s[..Lead(s)], v)) + Go(Behind(s), v)
  }

  function GoHead(s: seq<Node>, v: nat): seq<Mark> { Ones(Odds(EvensAfter(s[..Lead(s)], v))) }

  /** What the sweep after the first v removes. */
  function GoNext(s: seq<Node>, v: nat): seq<Mark>
    requires Ended(s)
    decreases |s|
  {
    if s == [] then []
    else
      LeadEnded(s);
      GoHead(s, v) + GoNext(Behind(s), v)
  }

  /** How many private declarations v sweeps remove. */
  function Removed(s: seq<Node>, v: nat): nat
    decreases |s|
  {
    if s == [] then 0
    else
      var n := Lead(s);
      LeftLess(n, v);
      n - Left(n, v) + if n == |s| then 0 else Removed(Behind(s), v)
  }

  lemma LeftLess(k: nat, v: nat)
    ensures Left(k, v) <= k
  {
  }

  lemma {:induction false} StartConcat(a: seq<Node>, b: seq<Node>)
    ensures Start(a + b) == Start(a) + Start(b)
  {
  }

  lemma {:induction false} OnesConcat(a: seq<Node>, b: seq<Node>)
    ensures Ones(a + b) == Ones(a) + Ones(b)
  {
  }

  // ----- the loop over one level -----

  /** One turn that removes a declaration and passes over the next. */
  lemma {:induction false} CutTurn(kept: seq<Mark>, p: Mark, x: Mark, tail: seq<Mark>, stale: nat, gone: seq<Mark>)
    requires Private(p.node)
    ensures MarkRun(kept, [p, x] + tail, stale, gone) == MarkRun(kept + [x], tail, stale + 1, gone + [Seen(p)])
  {
    var rest := [p, x] + tail;
    assert rest[0] == p && rest[1] == x && rest[2..] == tail;
  }

  lemma {:induction false} KeepTurn(kept: seq<Mark>, x: Mark, tail: seq<Mark>, stale: nat, gone: seq<Mark>)
    requires !Private(x.node)
    ensures MarkRun(kept, [x] + tail, stale, gone) == MarkRun(kept + [Seen(x)], tail, stale, gone)
  {
    var rest := [x] + tail;
    assert rest[0] == x && rest[1..] == tail;
  }

  /** What the loop makes of a run and the declaration behind it. */
  function RunLeft(run: seq<Node>, end: Mark): seq<Mark> {
    Start(Evens(run)) + [if |run| % 2 == 0 then Seen(end) else end]
  }

  lemma {:induction false} RunSplit(run: seq<Node>, end: Mark)
    requires |run| >= 2
    ensures Start(run) + [end] == [Mark(run[0], 0), Mark(run[1], 0)] + (Start(run[2..]) + [end])
    ensures RunLeft(run, end) == [Mark(run[1], 0)] + RunLeft(run[2..], end)
    ensures Ones(Odds(run)) == [Mark(run[0], 1)] + Ones(Odds(run[2..]))
  {
    var more := run[2..];
    assert Evens(run) == [run[1]] + Evens(more) && Odds(run) == [run[0]] + Odds(more);
    StartConcat([run[1]], Evens(more));
    OnesConcat([run[0]], Odds(more));
    StartConcat([run[0], run[1]], more);
    assert [run[0], run[1]] + more == run;
    assert Start([run[1]]) == [Mark(run[1], 0)] && Ones([run[0]]) == [Mark(run[0], 1)];
    assert Start([run[0], run[1]]) == [Mark(run[0], 0), Mark(run[1], 0)];
    Associates(Start([run[0], run[1]]), Start(more), [end]);
    Associates([Mark(run[1], 0)], Start(Evens(more)), [if |run| % 2 == 0 then Seen(end) else end]);
  }

  lemma {:induction false} RunShort(run: seq<Node>, end: Mark)
    requires |run| < 2
    ensures RunLeft(run, end) == [if run == [] then Seen(end) else end] && Odds(run) == run
    ensures Start(run) + [end] == if run == [] then [end] else [Mark(run[0], 0), end]
    ensures Ones(run) == if run == [] then [] else [Mark(run[0], 1)]
  {
  }

  /** The loop over a run of private declarations and the one behind it. */
  lemma {:induction false} RunOver(kept: seq<Mark>, run: seq<Node>, end: Mark, tail: seq<Mark>, stale: nat,
                                   gone: seq<Mark>)
    requires (forall j :: 0 <= j < |run| ==> Private(run[j])) && !Private(end.node)
    ensures
      MarkRun(kept, (Start(run) + [end]) + tail, stale, gone) ==
      MarkRun(kept + RunLeft(run, end), tail, stale + |Odds(run)|, gone + Ones(Odds(run)))
    decreases |run|
  {
    if run == [] {
      RunShort(run, end);
      KeepTurn(kept, end, tail, stale, gone);
      assert gone + [] == gone;
    } else if |run| == 1 {
      RunShort(run, end);
      CutTurn(kept, Mark(run[0], 0), end, tail, stale, gone);
    } else {
      var p, x, more := Mark(run[0], 0), Mark(run[1], 0), run[2..];
      var rest := Start(more) + [end];
      RunSplit(run, end);
      CutTurn(kept, p, x, rest + tail, stale, gone);
      RunOver(kept + [x], more, end, tail, stale + 1, gone + [Seen(p)]);
      Associates([p, x], rest, tail);
      Associates(kept, [x], RunLeft(more, end));
      Associates(gone, [Seen(p)], Ones(Odds(more)));
    }
  }

  /** The declaration behind the first run, after v sweeps. */
  function EndMark(s: seq<Node>, v: nat, c: nat): Mark
    requires Lead(s) < |s|
  {
    Mark(s[Lead(s)], v - Skips(Lead(s), v) + if Lead(s) + 1 == |s| then c else 0)
  }

  /** The first run and the declaration behind it, one sweep later. */
  lemma {:induction false} HeadNext(s: seq<Node>, v: nat, c: nat, run: seq<Node>)
    requires Lead(s) < |s| && run == EvensAfter(s[..Lead(s)], v)
    ensures StayHead(s, v, c) == Start(run) + [EndMark(s, v, c)]
    ensures StayHead(s, v + 1, c) == RunLeft(run, EndMark(s, v, c))
    ensures GoHead(s, v) == Ones(Odds(run)) && |GoHead(s, v)| == |Odds(run)|
  {
    var n := Lead(s);
    HalvesLength(s[..n], v);
    HalvesNext(s[..n], v);
    SkipsNext(n, v);
  }

  /** One more sweep over the first run of a level and the declaration behind it. */
  lemma {:induction false} HeadSweep(s: seq<Node>, v: nat, c: nat, kept: seq<Mark>, tail: seq<Mark>, stale: nat,
                                     gone: seq<Mark>)
    requires Lead(s) < |s|
    ensures
      MarkRun(kept, StayHead(s, v, c) + tail, stale, gone) ==
      MarkRun(kept + StayHead(s, v + 1, c), tail, stale + |GoHead(s, v)|, gone + GoHead(s, v))
  {
    var run := HeadRun(s, v);
    LeadExact(s);
    HeadNext(s, v, c, run);
    RunOver(kept, run, EndMark(s, v, c), tail, stale, gone);
  }

  lemma {:induction false} HeadRun(s: seq<Node>, v: nat) returns (run: seq<Node>)
    requires Lead(s) < |s|
    ensures run == EvensAfter(s[..Lead(s)], v) && forall j :: 0 <= j < |run| ==> Private(run[j])
  {
    LeadExact(s);
    RunPrivate(s[..Lead(s)], v);
    run := EvensAfter(s[..Lead(s)], v);
  }

  /** The loop carries from over to to, and removes g on the way, in front of whatever tail. */
  ghost predicate Carries(from: seq<Mark>, to: seq<Mark>, g: seq<Mark>) {
    forall kept: seq<Mark>, tail: seq<Mark>, stale: nat, gone: seq<Mark> ::
      MarkRun(kept, from + tail, stale, gone) == MarkRun(kept + to, tail, stale + |g|, gone + g)
  }

  lemma {:induction false} CarriesOne(from: seq<Mark>, to: seq<Mark>, g: seq<Mark>, kept: seq<Mark>, tail: seq<Mark>,
                                      stale: nat, gone: seq<Mark>)
    requires Carries(from, to, g)
    ensures MarkRun(kept, from + tail, stale, gone) == MarkRun(kept + to, tail, stale + |g|, gone + g)
  {
  }

  /** Two stretches of the loop, one after the other. */
  lemma {:induction false} InTurn(a: seq<Mark>, b: seq<Mark>, a': seq<Mark>, b': seq<Mark>, g: seq<Mark>, h: seq<Mark>)
    requires Carries(a, a', g) && Carries(b, b', h)
    ensures Carries(a + b, a' + b', g + h)
  {
    forall kept: seq<Mark>, tail: seq<Mark>, stale: nat, gone: seq<Mark>
      ensures MarkRun(kept, (a + b) + tail, stale, gone) ==
              MarkRun(kept + (a' + b'), tail, stale + |g + h|, gone + (g + h))
    {
      CarriesOne(a, a', g, kept, b + tail, stale, gone);
      CarriesOne(b, b', h, kept + a', tail, stale + |g|, gone + g);
      assert (a + b) + tail == a + (b + tail) && kept + (a' + b') == kept + a' + b' && gone + (g + h) == gone + g + h;
    }
  }

  lemma {:induction false} HeadCarries(s: seq<Node>, v: nat, c: nat)
    requires Lead(s) < |s|
    ensures Carries(StayHead(s, v, c), StayHead(s, v + 1, c), GoHead(s, v))
  {
    forall kept: seq<Mark>, tail: seq<Mark>, stale: nat, gone: seq<Mark>
      ensures MarkRun(kept, StayHead(s, v, c) + tail, stale, gone) ==
              MarkRun(kept + StayHead(s, v + 1, c), tail, stale + |GoHead(s, v)|, gone + GoHead(s, v))
    {
      HeadSweep(s, v, c, kept, tail, stale, gone);
    }
  }

  lemma {:induction false} NothingMoves(none: seq<Mark>, kept: seq<Mark>, tail: seq<Mark>, stale: nat,
                                        gone: seq<Mark>)
    requires none == []
    ensures MarkRun(kept, none + tail, stale, gone) == MarkRun(kept + none, tail, stale + |none|, gone + none)
  {
    assert none + tail == tail && kept + none == kept && gone + none == gone;
  }

  lemma {:induction false} NothingCarries(none: seq<Mark>)
    requires none == []
    ensures Carries(none, none, none)
  {
    forall kept: seq<Mark>, tail: seq<Mark>, stale: nat, gone: seq<Mark>
      ensures MarkRun(kept, none + tail, stale, gone) == MarkRun(kept + none, tail, stale + |none|, gone + none)
    {
      NothingMoves(none, kept, tail, stale, gone);
    }
  }

  /** One more sweep over a level. */
  lemma {:induction false} LevelSweep(s: seq<Node>, v: nat, c: nat)
    requires Ended(s)
    ensures Carries(Stay(s, v, c), Stay(s, v + 1, c), GoNext(s, v))
    decreases |s|
  {
    if s == [] {
      NothingCarries([]);
    } else {
      LeadEnded(s);
      var more := Behind(s);
      LevelSweep(more, v, c);
      HeadCarries(s, v, c);
      InTurn(StayHead(s, v, c), Stay(more, v, c), StayHead(s, v + 1, c), Stay(more, v + 1, c),
             GoHead(s, v), GoNext(more, v));
    }
  }

  lemma {:induction false} RunPrivate(run: seq<Node>, v: nat)
    requires forall j :: 0 <= j < |run| ==> Private(run[j])
    ensures forall j :: 0 <= j < |EvensAfter(run, v)| ==> Private(EvensAfter(run, v)[j])
    decreases v
  {
    if v > 0 {
      HalvesAt(run);
      RunPrivate(Evens(run), v - 1);
    }
  }

  lemma {:induction false} AgainTail(a: seq<Mark>, b: seq<Mark>, t: nat)
    requires b != [] && !Private(b[|b| - 1].node)
    ensures MarkAgain(b, t).Some? && MarkAgain(a + b, t) == Some(a + MarkAgain(b, t).value)
  {
    if t > 0 {
      var all, last := a + b, b[|b| - 1];
      assert all[..|all| - 1] == a + b[..|b| - 1] && all[|all| - 1] == last;
      Associates(a, b[..|b| - 1], [last.(visits := last.visits + t)]);
    }
  }

  lemma {:induction false} HeadAgain(s: seq<Node>, v: nat, c: nat, t: nat)
    requires Lead(s) + 1 == |s|
    ensures MarkAgain(StayHead(s, v, c), t) == Some(StayHead(s, v, c + t))
  {
    LeadExact(s);
    var n := Lead(s);
    var end := Mark(s[n], v - Skips(n, v) + c);
    var run := Start(EvensAfter(s[..n], v));
    var kept := run + [end];
    assert kept[..|kept| - 1] == run && kept[|kept| - 1] == end;
  }

  lemma {:induction false} EndPublic(s: seq<Node>, v: nat, c: nat)
    requires Ended(s) && s != []
    ensures Stay(s, v, c) != [] && !Private(Stay(s, v, c)[|Stay(s, v, c)| - 1].node)
    decreases |s|
  {
    LeadEnded(s);
    LeadExact(s);
    var more := Behind(s);
    var a, b := StayHead(s, v, c), Stay(more, v, c);
    if more == [] {
      assert a + b == a;
    } else {
      EndPublic(more, v, c);
      assert (a + b)[|a + b| - 1] == b[|b| - 1];
    }
  }

  /** The last declaration of a level is handled t more times. */
  lemma {:induction false} StayAgain(s: seq<Node>, v: nat, c: nat, t: nat)
    requires Ended(s) && s != []
    ensures MarkAgain(Stay(s, v, c), t) == Some(Stay(s, v, c + t))
    decreases |s|
  {
    LeadEnded(s);
    var more := Behind(s);
    if more == [] {
      HeadAgain(s, v, c, t);
      assert StayHead(s, v, c) + [] == StayHead(s, v, c) && StayHead(s, v, c + t) + [] == StayHead(s, v, c + t);
    } else {
      var a := StayHead(s, v, c);
      assert a == StayHead(s, v, c + t);
      StayAgain(more, v, c, t);
      EndPublic(more, v, c);
      AgainTail(a, Stay(more, v, c), t);
    }
  }

  /** One more sweep removes what the count says. */
  lemma {:induction false} RemovedNext(s: seq<Node>, v: nat)
    requires Ended(s)
    ensures Removed(s, v + 1) == Removed(s, v) + |GoNext(s, v)|
    decreases |s|
  {
    if s != [] {
      LeadEnded(s);
      var run := s[..Lead(s)];
      HalvesLength(run, v);
      HalvesLength(run, v + 1);
      HalvesNext(run, v);
      RemovedNext(Behind(s), v);
    }
  }

  lemma {:induction false} GoNextMembers(s: seq<Node>, v: nat, x: Mark)
    requires Ended(s)
    ensures x in Go(s, v + 1) <==> x in Go(s, v) || x in GoNext(s, v)
    decreases |s|
  {
    if s != [] {
      LeadEnded(s);
      var run, more := s[..Lead(s)], Behind(s);
      HalvesNext(run, v);
      OnesConcat(OddsUpTo(run, v), Odds(EvensAfter(run, v)));
      GoNextMembers(more, v, x);
      assert Go(s, v + 1) == Ones(OddsUpTo(run, v)) + Ones(Odds(EvensAfter(run, v))) + Go(more, v + 1);
      assert Go(s, v) == Ones(OddsUpTo(run, v)) + Go(more, v);
      assert GoNext(s, v) == Ones(Odds(EvensAfter(run, v))) + GoNext(more, v);
    }
  }

  lemma {:induction false} NothingGone(s: seq<Node>)
    requires Ended(s)
    ensures Go(s, 0) == [] && Removed(s, 0) == 0
    decreases |s|
  {
    if s != [] {
      LeadEnded(s);
      NothingGone(Behind(s));
    }
  }

  lemma {:induction false} HeadStart(s: seq<Node>)
    requires Lead(s) < |s|
    ensures StayHead(s, 0, 0) == Start(s[..Lead(s) + 1])
  {
    var n := Lead(s);
    assert s[..n + 1] == s[..n] + [s[n]];
    StartConcat(s[..n], [s[n]]);
    assert Start([s[n]]) == [Mark(s[n], 0)];
  }

  lemma {:induction false} StayStart(s: seq<Node>)
    requires Ended(s)
    ensures Stay(s, 0, 0) == Start(s)
    decreases |s|
  {
    if s != [] {
      LeadEnded(s);
      var a, b := s[..Lead(s) + 1], Behind(s);
      HeadStart(s);
      StayStart(b);
      StartConcat(a, b);
      assert a + b == s;
    }
  }

  lemma {:induction false} SweepDone(from: seq<Mark>, to: seq<Mark>, g: seq<Mark>, gone: seq<Mark>)
    requires MarkRun([], from + [], 0, gone) == MarkRun([] + to, [], 0 + |g|, gone + g)
    ensures MarkRun([], from, 0, gone) ==
            if MarkAgain(to, |g|).Some? then Some(Level(MarkAgain(to, |g|).value, gone + g)) else None
  {
    assert from + [] == from && [] + to == to;
  }

  /** The loop over a level, in front of whatever tail. */
  lemma {:induction false} LevelRun(s: seq<Node>, v: nat, c: nat, tail: seq<Mark>, gone: seq<Mark>)
    requires Ended(s)
    ensures MarkRun([], Stay(s, v, c) + tail, 0, gone) ==
            MarkRun([] + Stay(s, v + 1, c), tail, 0 + |GoNext(s, v)|, gone + GoNext(s, v))
  {
    LevelSweep(s, v, c);
    CarriesOne(Stay(s, v, c), Stay(s, v + 1, c), GoNext(s, v), [], tail, 0, gone);
  }

  lemma {:induction false} OneMoreSweep(s: seq<Node>, v: nat, c: nat, gone: seq<Mark>)
    requires Ended(s)
    ensures MarkRun([], Stay(s, v, c), 0, gone) ==
            Some(Level(Stay(s, v + 1, c + |GoNext(s, v)|), gone + GoNext(s, v)))
  {
    LevelRun(s, v, c, [], gone);
    SweepDone(Stay(s, v, c), Stay(s, v + 1, c), GoNext(s, v), gone);
    if s != [] { StayAgain(s, v + 1, c, |GoNext(s, v)|); }
  }

  ghost predicate Same(a: seq<Mark>, b: seq<Mark>) {
    forall x :: x in a <==> x in b
  }

  lemma {:induction false} SameNext(s: seq<Node>, v: nat, gone: seq<Mark>)
    requires Ended(s) && Same(gone, Go(s, v))
    ensures Same(gone + GoNext(s, v), Go(s, v + 1))
  {
    forall x ensures x in gone + GoNext(s, v) <==> x in Go(s, v + 1) { GoNextMembers(s, v, x); }
  }

  /** What v sweeps make of a level that does not end with a private declaration. */
  ghost predicate Swept(s: seq<Node>, v: nat, l: Option<Level>)
    requires Ended(s)
  {
    l.Some? && l.value.left == Stay(s, v, Removed(s, v)) && Same(l.value.gone, Go(s, v))
  }

  lemma {:induction false} OneMoreRemoved(s: seq<Node>, v: nat, gone: seq<Mark>)
    requires Ended(s)
    ensures MarkRun([], Stay(s, v, Removed(s, v)), 0, gone) ==
            Some(Level(Stay(s, v + 1, Removed(s, v + 1)), gone + GoNext(s, v)))
  {
    OneMoreSweep(s, v, Removed(s, v), gone);
    RemovedNext(s, v);
  }

  lemma {:induction false} SweptNext(s: seq<Node>, v: nat, l: Level)
    requires Ended(s) && Swept(s, v, Some(l))
    ensures Swept(s, v + 1, MarkRun([], l.left, 0, l.gone))
  {
    OneMoreRemoved(s, v, l.gone);
    SameNext(s, v, l.gone);
  }

  lemma {:induction false} EndedSweeps(s: seq<Node>, v: nat)
    requires Ended(s)
    ensures Swept(s, v, MarkSweeps(s, v))
  {
    if v == 0 {
      NothingGone(s);
      StayStart(s);
    } else {
      EndedSweeps(s, v - 1);
      SweptNext(s, v - 1, MarkSweeps(s, v - 1).value);
    }
  }

  // ----- the same by places in the level -----

  /** The number of private declarations right before place j. */
  function RunBefore(s: seq<Node>, j: nat): nat
    requires j <= |s|
  {
    if j == 0 || !Private(s[j - 1]) then 0 else 1 + RunBefore(s, j - 1)
  }

  /** The mark x is what is left of place j after v sweeps. */
  predicate IsLeft(s: seq<Node>, v: nat, c: nat, x: Mark, j: nat) {
    && j < |s| && s[j] == x.node
    && if Private(s[j]) then x.visits == 0 && Stays(RunBefore(s, j) + 1, v)
       else x.visits == v - Skips(RunBefore(s, j), v) + if j + 1 == |s| then c else 0
  }

  predicate IsGone(s: seq<Node>, v: nat, x: Mark, j: nat) {
    j < |s| && x == Mark(s[j], 1) && Private(s[j]) && !Stays(RunBefore(s, j) + 1, v)
  }

  lemma {:induction false} BeforeLead(s: seq<Node>, j: nat)
    requires j <= Lead(s)
    ensures RunBefore(s, j) == j
  {
    if j > 0 {
      LeadExact(s);
      BeforeLead(s, j - 1);
    }
  }

  lemma {:induction false} BeforeTail(s: seq<Node>, n: nat, j: nat)
    requires n < |s| && !Private(s[n]) && n < j <= |s|
    ensures RunBefore(s, j) == RunBefore(s[n + 1..], j - n - 1)
  {
    if j > n + 1 {
      BeforeTail(s, n, j - 1);
      assert s[n + 1..][j - n - 2] == s[j - 1];
    }
  }

  lemma {:induction false} TailPlace(s: seq<Node>, v: nat, c: nat, x: Mark, j: nat)
    requires Lead(s) < |s| && j < |s| - Lead(s) - 1
    ensures IsLeft(s, v, c, x, Lead(s) + 1 + j) <==> IsLeft(Behind(s), v, c, x, j)
    ensures IsGone(s, v, x, Lead(s) + 1 + j) <==> IsGone(Behind(s), v, x, j)
  {
    LeadExact(s);
    BeforeTail(s, Lead(s), Lead(s) + 1 + j);
  }

  lemma {:induction false} HeadPlace(s: seq<Node>, v: nat, c: nat, x: Mark, j: nat)
    requires Lead(s) < |s| && j <= Lead(s)
    ensures IsLeft(s, v, c, x, j) <==>
            if j == Lead(s) then x == EndMark(s, v, c) else x.visits == 0 && At(s[..Lead(s)], v, x.node, j, true)
    ensures IsGone(s, v, x, j) <==> j < Lead(s) && x.visits == 1 && At(s[..Lead(s)], v, x.node, j, false)
  {
    LeadExact(s);
    BeforeLead(s, j);
  }

  lemma {:induction false} HeadMembers(s: seq<Node>, v: nat, c: nat, x: Mark)
    requires Lead(s) < |s|
    ensures x in StayHead(s, v, c) <==> exists j: nat :: j <= Lead(s) && IsLeft(s, v, c, x, j)
    ensures x in Ones(OddsUpTo(s[..Lead(s)], v)) <==> exists j: nat :: j <= Lead(s) && IsGone(s, v, x, j)
  {
    var n, run := Lead(s), s[..Lead(s)];
    StaysExact(run, v, x.node);
    GoesExact(run, v, x.node);
    forall j: nat | j <= n
      ensures IsLeft(s, v, c, x, j) <==>
              if j == n then x == EndMark(s, v, c) else x.visits == 0 && At(run, v, x.node, j, true)
      ensures IsGone(s, v, x, j) <==> j < n && x.visits == 1 && At(run, v, x.node, j, false)
    {
      HeadPlace(s, v, c, x, j);
    }
    StartMember(EvensAfter(run, v), x);
    OnesMember(OddsUpTo(run, v), x);
    assert x == EndMark(s, v, c) <==> IsLeft(s, v, c, x, n);
  }

  lemma {:induction false} StartMember(ns: seq<Node>, x: Mark)
    ensures x in Start(ns) <==> x.visits == 0 && x.node in ns
  {
    if x.visits == 0 && x.node in ns {
      var j :| 0 <= j < |ns| && ns[j] == x.node;
      assert Start(ns)[j] == x;
    }
  }

  lemma {:induction false} OnesMember(ns: seq<Node>, x: Mark)
    ensures x in Ones(ns) <==> x.visits == 1 && x.node in ns
  {
    if x.visits == 1 && x.node in ns {
      var j :| 0 <= j < |ns| && ns[j] == x.node;
      assert Ones(ns)[j] == x;
    }
  }

  ghost predicate AnyLeft(s: seq<Node>, v: nat, c: nat, x: Mark) {
    exists j: nat :: IsLeft(s, v, c, x, j)
  }

  ghost predicate AnyGone(s: seq<Node>, v: nat, x: Mark) {
    exists j: nat :: IsGone(s, v, x, j)
  }

  lemma {:induction false} LeftSplit(s: seq<Node>, v: nat, c: nat, x: Mark, more: seq<Node>)
    requires Lead(s) < |s| && more == Behind(s)
    ensures AnyLeft(s, v, c, x) <==> x in StayHead(s, v, c) || AnyLeft(more, v, c, x)
  {
    HeadMembers(s, v, c, x);
    if AnyLeft(more, v, c, x) {
      var i: nat :| IsLeft(more, v, c, x, i);
      TailPlace(s, v, c, x, i);
      assert IsLeft(s, v, c, x, Lead(s) + 1 + i);
    }
    if AnyLeft(s, v, c, x) {
      var j: nat :| IsLeft(s, v, c, x, j);
      if j > Lead(s) { TailPlace(s, v, c, x, j - Lead(s) - 1); }
    }
  }

  lemma {:induction false} GoneSplit(s: seq<Node>, v: nat, x: Mark, more: seq<Node>)
    requires Lead(s) < |s| && more == Behind(s)
    ensures AnyGone(s, v, x) <==> x in Ones(OddsUpTo(s[..Lead(s)], v)) || AnyGone(more, v, x)
  {
    HeadMembers(s, v, 0, x);
    if AnyGone(more, v, x) {
      var i: nat :| IsGone(more, v, x, i);
      TailPlace(s, v, 0, x, i);
      assert IsGone(s, v, x, Lead(s) + 1 + i);
    }
    if AnyGone(s, v, x) {
      var j: nat :| IsGone(s, v, x, j);
      if j > Lead(s) { TailPlace(s, v, 0, x, j - Lead(s) - 1); }
    }
  }

  lemma {:induction false} StayMembers(s: seq<Node>, v: nat, c: nat, x: Mark)
    requires Ended(s)
    ensures x in Stay(s, v, c) <==> AnyLeft(s, v, c, x)
    decreases |s|
  {
    if s != [] {
      LeadEnded(s);
      var more := Behind(s);
      StayMembers(more, v, c, x);
      LeftSplit(s, v, c, x, more);
    }
  }

  lemma {:induction false} GoMembers(s: seq<Node>, v: nat, x: Mark)
    requires Ended(s)
    ensures x in Go(s, v) <==> AnyGone(s, v, x)
    decreases |s|
  {
    if s != [] {
      LeadEnded(s);
      var more := Behind(s);
      GoMembers(more, v, x);
      GoneSplit(s, v, x, more);
    }
  }

  // ----- levels that end with a private declaration -----

  predicate LastPrivate(s: seq<Node>) {
    |s| > 0 && Private(s[|s| - 1])
  }

  /** The last declaration is private, and another one is, too. */
  ghost predicate Overruns(s: seq<Node>) {
    LastPrivate(s) && exists j :: 0 <= j < |s| - 1 && Private(s[j])
  }

  predicate EndsPrivate(ms: seq<Mark>) { |ms| > 0 && Private(ms[|ms| - 1].node) }

  /** The level is left through a slice expression exactly when its last declaration is private
      and one before it was or will be removed. */
  lemma {:induction false} RangeExact(kept: seq<Mark>, rest: seq<Mark>, stale: nat, gone: seq<Mark>)
    requires stale > 0 ==> kept + rest != []
    ensures MarkRun(kept, rest, stale, gone).None? <==>
            EndsPrivate(kept + rest) && (stale > 0 || exists j :: 0 <= j < |rest| - 1 && Private(rest[j].node))
    decreases |rest|
  {
    if rest == [] {
      assert kept + rest == kept;
    } else if !Private(rest[0].node) {
      var k, r := kept + [Seen(rest[0])], rest[1..];
      RangeExact(k, r, stale, gone);
      LastOf(kept, rest, k, r);
      assert forall j :: 0 <= j < |r| - 1 ==> r[j] == rest[j + 1];
      assert (exists j :: 0 <= j < |rest| - 1 && Private(rest[j].node)) <==>
             exists j :: 0 <= j < |r| - 1 && Private(r[j].node) by {
        if j :| 0 <= j < |rest| - 1 && Private(rest[j].node) { assert r[j - 1] == rest[j]; }
      }
    } else if |rest| > 1 {
      var k, r := kept + [rest[1]], rest[2..];
      RangeExact(k, r, stale + 1, gone + [Seen(rest[0])]);
      LastOf(kept, rest, k, r);
    }
  }

  lemma {:induction false} LastOf(kept: seq<Mark>, rest: seq<Mark>, k: seq<Mark>, r: seq<Mark>)
    requires rest != [] && |k| == |kept| + 1 && |r| < |rest| && r == rest[|rest| - |r|..]
    requires r == [] ==> k[|kept|].node == rest[|rest| - 1].node
    ensures EndsPrivate(k + r) == EndsPrivate(kept + rest)
  {
    assert (kept + rest)[|kept + rest| - 1] == rest[|rest| - 1];
    assert r != [] ==> (k + r)[|k + r| - 1] == r[|r| - 1] == rest[|rest| - 1];
    assert r == [] ==> k + r == k;
  }

  lemma {:induction false} FirstSweep(s: seq<Node>)
    ensures MarkSweeps(s, 1) == MarkRun([], Start(s), 0, [])
  {
    assert MarkSweeps(s, 0) == Some(Level(Start(s), []));
  }

  /** The last mark is private, and another one is, too. */
  ghost predicate MarksOverrun(m: seq<Mark>) {
    EndsPrivate(m) && exists j :: 0 <= j < |m| - 1 && Private(m[j].node)
  }

  lemma {:induction false} OverrunsMarks(s: seq<Node>, m: seq<Mark>)
    requires |m| == |s| && forall j :: 0 <= j < |s| ==> m[j].node == s[j]
    ensures Overruns(s) <==> MarksOverrun(m)
  {
    if Overruns(s) {
      var j :| 0 <= j < |s| - 1 && Private(s[j]);
      assert Private(m[j].node);
    }
  }

  lemma {:induction false} RangeFromStart(m: seq<Mark>)
    ensures MarkRun([], m, 0, []).None? <==> MarksOverrun(m)
  {
    RangeExact([], m, 0, []);
    assert [] + m == m;
  }

  lemma {:induction false} LevelOverruns(s: seq<Node>)
    ensures MarkSweeps(s, 1).None? <==> Overruns(s)
  {
    FirstSweep(s);
    RangeFromStart(Start(s));
    OverrunsMarks(s, Start(s));
  }

  lemma {:induction false} OverrunsStays(s: seq<Node>, v: nat)
    requires Overruns(s) && v > 0
    ensures MarkSweeps(s, v).None?
  {
    if v == 1 {
      LevelOverruns(s);
    } else {
      OverrunsStays(s, v - 1);
    }
  }

  /** No declaration of t is private, so that nothing is ever removed. */
  lemma {:induction false} NoneRemoved(t: seq<Node>, v: nat)
    requires forall j :: 0 <= j < |t| ==> !Private(t[j])
    ensures Ended(t) && GoNext(t, v) == []
    decreases |t|
  {
    if t != [] {
      LeadExact(t);
      assert Lead(t) == 0 && t[..0] == [];
      NoneRemoved(Behind(t), v);
      EvensOfNone(v);
    }
  }

  lemma {:induction false} EvensOfNone(v: nat)
    ensures EvensAfter<Node>([], v) == []
  {
    if v > 0 { EvensOfNone(v - 1); }
  }

  /** A single private declaration at the end goes in the first sweep. */
  lemma {:induction false} LoneFirst(t: seq<Node>, p: Node)
    requires (forall j :: 0 <= j < |t| ==> !Private(t[j])) && Private(p)
    ensures Ended(t) && MarkSweeps(t + [p], 1) == Some(Level(Stay(t, 1, 0), [Mark(p, 1)]))
  {
    NoneRemoved(t, 0);
    FirstSweep(t + [p]);
    StartConcat(t, [p]);
    StayStart(t);
    assert Start([p]) == [Mark(p, 0)];
    LoneRun(t, p);
  }

  lemma {:induction false} LoneRun(t: seq<Node>, p: Node)
    requires Ended(t) && GoNext(t, 0) == [] && Private(p)
    ensures MarkRun([], Stay(t, 0, 0) + [Mark(p, 0)], 0, []) == Some(Level(Stay(t, 1, 0), [Mark(p, 1)]))
  {
    LevelRun(t, 0, 0, [Mark(p, 0)], []);
    var none: seq<Mark> := [];
    assert none + GoNext(t, 0) == none;
    assert [] + Stay(t, 1, 0) == Stay(t, 1, 0);
    LastCut(Stay(t, 1, 0), Mark(p, 0));
  }

  lemma {:induction false} LastCut(kept: seq<Mark>, p: Mark)
    requires Private(p.node)
    ensures MarkRun(kept, [p], 0, []) == Some(Level(kept, [Seen(p)]))
  {
    assert [] + [Seen(p)] == [Seen(p)];
  }

  lemma {:induction false} LoneSweeps(t: seq<Node>, p: Node, v: nat)
    requires (forall j :: 0 <= j < |t| ==> !Private(t[j])) && Private(p) && v > 0
    ensures Ended(t) && MarkSweeps(t + [p], v) == Some(Level(Stay(t, v, 0), [Mark(p, 1)]))
  {
    if v == 1 {
      LoneFirst(t, p);
    } else {
      LoneSweeps(t, p, v - 1);
      NoneRemoved(t, v - 1);
      OneMoreSweep(t, v - 1, 0, [Mark(p, 1)]);
      assert [Mark(p, 1)] + GoNext(t, v - 1) == [Mark(p, 1)];
    }
  }

  /** The places of a level with a single private declaration at its end. */
  lemma {:induction false} LonePlaces(t: seq<Node>, p: Node, v: nat, c: nat, x: Mark, j: nat)
    requires (forall i :: 0 <= i < |t| ==> !Private(t[i])) && Private(p) && v > 0
    ensures IsLeft(t + [p], v, c, x, j) <==> IsLeft(t, v, 0, x, j)
    ensures IsGone(t + [p], v, x, j) <==> j == |t| && x == Mark(p, 1)
  {
    var s := t + [p];
    assert j <= |t| ==> RunBefore(s, j) == 0 by {
      if 0 < j <= |t| { assert s[j - 1] == t[j - 1]; }
    }
    assert j < |t| ==> s[j] == t[j] && RunBefore(t, j) == 0;
  }

  // ----- every level -----

  /** v sweeps of any level: what is left and what is gone, by places. */
  lemma {:induction false} LevelExact(s: seq<Node>, v: nat)
    requires v > 0 ==> !Overruns(s)
    ensures var l := MarkSweeps(s, v);
      && l.Some?
      && (forall x :: x in l.value.left <==> AnyLeft(s, v, Removed(s, v), x))
      && (forall x :: x in l.value.gone <==> AnyGone(s, v, x))
  {
    if Ended(s) {
      EndedSweeps(s, v);
      forall x ensures x in Stay(s, v, Removed(s, v)) <==> AnyLeft(s, v, Removed(s, v), x)
               ensures x in Go(s, v) <==> AnyGone(s, v, x)
      {
        StayMembers(s, v, Removed(s, v), x);
        GoMembers(s, v, x);
      }
    } else if v > 0 {
      var t, p := s[..|s| - 1], s[|s| - 1];
      assert s == t + [p];
      assert forall j :: 0 <= j < |t| ==> s[j] == t[j];
      LoneSweeps(t, p, v);
      forall x ensures x in Stay(t, v, 0) <==> AnyLeft(s, v, Removed(s, v), x)
               ensures x == Mark(p, 1) <==> AnyGone(s, v, x)
      {
        LoneMembers(t, p, v, Removed(s, v), x);
      }
    } else {
      forall x ensures x in Start(s) <==> AnyLeft(s, 0, Removed(s, 0), x)
               ensures !AnyGone(s, 0, x)
      {
        UnsweptMembers(s, x);
      }
    }
  }

  lemma {:induction false} LoneMembers(t: seq<Node>, p: Node, v: nat, c: nat, x: Mark)
    requires (forall i :: 0 <= i < |t| ==> !Private(t[i])) && Private(p) && v > 0 && Ended(t)
    ensures x in Stay(t, v, 0) <==> AnyLeft(t + [p], v, c, x)
    ensures x == Mark(p, 1) <==> AnyGone(t + [p], v, x)
  {
    StayMembers(t, v, 0, x);
    forall j: nat
      ensures IsLeft(t + [p], v, c, x, j) <==> IsLeft(t, v, 0, x, j)
      ensures IsGone(t + [p], v, x, j) <==> j == |t| && x == Mark(p, 1)
    {
      LonePlaces(t, p, v, c, x, j);
    }
    assert IsGone(t + [p], v, x, |t|) <==> x == Mark(p, 1);
  }

  lemma {:induction false} UnsweptMembers(s: seq<Node>, x: Mark)
    requires LastPrivate(s)
    ensures x in Start(s) <==> AnyLeft(s, 0, Removed(s, 0), x)
    ensures !AnyGone(s, 0, x)
  {
    StartMember(s, x);
    if x.visits == 0 && x.node in s {
      var j :| 0 <= j < |s| && s[j] == x.node;
      assert IsLeft(s, 0, Removed(s, 0), x, j);
    }
  }
}
