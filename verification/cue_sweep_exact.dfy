/** When the in-place removal of private fields computes the intended filter, and when it slices out
    of range: for every declaration tree, in closed form. */
module SweepExact {
  import opened Wrappers
  import opened Sweep
  import opened SweepMarks
  import opened SweepLevels

  // ----- conditions on a tree -----

  /** How often v sweeps handle place j, which is not private: each sweep passes over it when the run
      of private declarations before it is odd, and comes back to the last place for each removal. */
  function Turns(s: seq<Node>, j: nat, v: nat): nat
    requires j < |s|
  {
    v - Skips(RunBefore(s, j), v) + if j + 1 == |s| then Removed(s, v) else 0
  }

  /** Whether v sweeps leave place j, which is private. */
  predicate Remains(s: seq<Node>, j: nat, v: nat)
    requires j < |s|
  {
    Stays(RunBefore(s, j) + 1, v)
  }

  /** v sweeps slice out of range nowhere: not on this level, not below what stays in as many sweeps
      as it is handled, and not below what is removed, which is handled once. */
  ghost predicate Survived(s: seq<Node>, v: nat)
    decreases s
  {
    && (v > 0 ==> !Overruns(s))
    && (forall j :: 0 <= j < |s| && !Private(s[j]) && HasStruct(s[j]) ==> Survived(s[j].value.elts, Turns(s, j, v)))
    && (forall j :: 0 <= j < |s| && Private(s[j]) && HasStruct(s[j]) && !Remains(s, j, v) ==>
          Survived(s[j].value.elts, 1))
  }

  /** v sweeps remove every private field: of this level, and below everything that stays. */
  ghost predicate Cleared(s: seq<Node>, v: nat)
    decreases s
  {
    && (v > 0 ==> !Overruns(s))
    && (forall j :: 0 <= j < |s| && Private(s[j]) ==> !Remains(s, j, v))
    && (forall j :: 0 <= j < |s| && !Private(s[j]) && HasStruct(s[j]) ==> Cleared(s[j].value.elts, Turns(s, j, v)))
    && (forall j :: 0 <= j < |s| && Private(s[j]) && HasStruct(s[j]) ==> Survived(s[j].value.elts, 1))
  }

  // ----- they are the conditions on marks -----

  lemma {:induction false} SurvivesZero(s: seq<Node>)
    ensures Survives(s, 0)
  {
    SurvivesExact(s, 0);
  }

  /** The marks of one level, in the words of this module. */
  lemma {:induction false} LevelMarks(s: seq<Node>, v: nat)
    requires v > 0 ==> !Overruns(s)
    ensures MarkSweeps(s, v).Some?
    ensures forall j :: 0 <= j < |s| && !Private(s[j]) ==> Mark(s[j], Turns(s, j, v)) in MarkSweeps(s, v).value.left
    ensures forall j :: 0 <= j < |s| && Private(s[j]) ==>
              if Remains(s, j, v) then Mark(s[j], 0) in MarkSweeps(s, v).value.left
              else Mark(s[j], 1) in MarkSweeps(s, v).value.gone
  {
    LevelExact(s, v);
    forall j | 0 <= j < |s| && !Private(s[j]) ensures AnyLeft(s, v, Removed(s, v), Mark(s[j], Turns(s, j, v))) {
      assert IsLeft(s, v, Removed(s, v), Mark(s[j], Turns(s, j, v)), j);
    }
    forall j | 0 <= j < |s| && Private(s[j])
      ensures if Remains(s, j, v) then AnyLeft(s, v, Removed(s, v), Mark(s[j], 0)) else AnyGone(s, v, Mark(s[j], 1))
    {
      assert Remains(s, j, v) ==> IsLeft(s, v, Removed(s, v), Mark(s[j], 0), j);
      assert !Remains(s, j, v) ==> IsGone(s, v, Mark(s[j], 1), j);
    }
  }

  /** Where a mark of the level comes from. */
  lemma {:induction false} MarkOrigin(s: seq<Node>, v: nat, x: Mark) returns (j: nat)
    requires (v > 0 ==> !Overruns(s)) && MarkSweeps(s, v).Some?
    requires x in MarkSweeps(s, v).value.left + MarkSweeps(s, v).value.gone
    ensures j < |s| && s[j] == x.node
    ensures x.visits == if !Private(s[j]) then Turns(s, j, v) else if Remains(s, j, v) then 0 else 1
    ensures x in MarkSweeps(s, v).value.left ==> Private(s[j]) ==> Remains(s, j, v)
  {
    LevelExact(s, v);
    if x in MarkSweeps(s, v).value.left {
      j :| IsLeft(s, v, Removed(s, v), x, j);
    } else {
      j :| IsGone(s, v, x, j);
    }
  }

  lemma {:induction false} SurvivedExact(s: seq<Node>, v: nat)
    ensures Survives(s, v) <==> Survived(s, v)
    decreases s
  {
    if v > 0 && Overruns(s) {
      OverrunsStays(s, v);
    } else {
      LevelMarks(s, v);
      forall j, k: nat | 0 <= j < |s| && HasStruct(s[j])
        ensures Survives(s[j].value.elts, k) <==> Survived(s[j].value.elts, k)
        ensures k == 0 ==> Survives(s[j].value.elts, k)
      {
        SurvivedExact(s[j].value.elts, k);
        SurvivesZero(s[j].value.elts);
      }
      var l := MarkSweeps(s, v).value;
      if Survived(s, v) {
        forall j, k | 0 <= j < |s| && Mark(s[j], k) in l.left + l.gone && HasStruct(s[j])
          ensures Survives(s[j].value.elts, k)
        {
          var i := MarkOrigin(s, v, Mark(s[j], k));
        }
      }
    }
  }

  lemma {:induction false} ClearedExact(s: seq<Node>, v: nat)
    ensures Clears(s, v) <==> Cleared(s, v)
    decreases s
  {
    if v > 0 && Overruns(s) {
      OverrunsStays(s, v);
    } else {
      LevelMarks(s, v);
      forall j, k: nat | 0 <= j < |s| && HasStruct(s[j])
        ensures Survives(s[j].value.elts, k) <==> Survived(s[j].value.elts, k)
        ensures Clears(s[j].value.elts, k) <==> Cleared(s[j].value.elts, k)
      {
        SurvivedExact(s[j].value.elts, k);
        ClearedExact(s[j].value.elts, k);
      }
      var l := MarkSweeps(s, v).value;
      if Cleared(s, v) {
        forall x | x in l.left ensures !Private(x.node) {
          var i := MarkOrigin(s, v, x);
        }
        forall j, k | 0 <= j < |s| && HasStruct(s[j]) && Mark(s[j], k) in l.left + l.gone
          ensures Mark(s[j], k) in l.left ==> Clears(s[j].value.elts, k)
          ensures Mark(s[j], k) in l.gone ==> Survives(s[j].value.elts, k)
        {
          var i := MarkOrigin(s, v, Mark(s[j], k));
          GoneOrigin(s, v, Mark(s[j], k));
        }
      }
    }
  }

  lemma {:induction false} GoneOrigin(s: seq<Node>, v: nat, x: Mark)
    requires (v > 0 ==> !Overruns(s)) && MarkSweeps(s, v).Some?
    ensures x in MarkSweeps(s, v).value.gone ==> Private(x.node) && x.visits == 1
  {
    LevelExact(s, v);
  }

  // ----- the exact conditions -----

  /** For every declaration tree and every number of sweeps. */
  lemma SweepsDecided(s: seq<Node>, v: nat)
    ensures Sweeps(s, v) == Some(Strip(s)) <==> Cleared(s, v)
    ensures Sweeps(s, v) == None <==> !Survived(s, v)
  {
    ClearsExact(s, v);
    ClearedExact(s, v);
    SurvivesExact(s, v);
    SurvivedExact(s, v);
  }

  /** For every declaration tree: the loop removes exactly the private fields if and only if one
      sweep clears the tree, and it slices out of range if and only if the tree does not survive
      one. */
  lemma RemovalDecided(s: seq<Node>)
    ensures Sweep.Sweep(s) == Some(Strip(s)) <==> Cleared(s, 1)
    ensures Sweep.Sweep(s) == None <==> !Survived(s, 1)
  {
    SweepsDecided(s, 1);
    assert Sweeps(s, 0) == Some(s);
  }

  lemma ClearedSurvives(s: seq<Node>, v: nat)
    requires Cleared(s, v)
    ensures Survived(s, v)
  {
    SweepsDecided(s, v);
  }

  // ----- which declarations are meant -----

  /** A field is taken out for its first attribute only, and only if that is exactly this one. */
  lemma FirstAttributeDecides(name: string, attrs: seq<string>, expr: string)
    ensures
      var f := Field(name, attrs, Scalar(expr));
      Sweep.Sweep([f]) == Some(if attrs != [] && attrs[0] == "@private(true)" then [] else [f])
  {
    var f := Field(name, attrs, Scalar(expr));
    assert Visit(f) == Some(f) && [] + [f] == [f] && [f][1..] == [];
    assert Sweep.Sweep([f]) == Run([], [f], 0);
    assert Run([f], [], 0) == Again([f], 0);
  }

  /** The filter goes from left to right, into every struct that stays, and leaves out just those fields. */
  lemma {:induction false} StripExact(a: seq<Node>, b: seq<Node>)
    ensures Strip(a + b) == Strip(a) + Strip(b)
  {
    if a == [] {
      assert a + b == b;
    } else {
      assert (a + b)[1..] == a[1..] + b;
      StripExact(a[1..], b);
    }
  }

  lemma StripOne(n: Node)
    ensures Strip([n]) ==
            match n
            case Other(_) => [n]
            case Field(name, attrs, value) =>
              if attrs != [] && attrs[0] == "@private(true)" then []
              else match value
                case Scalar(_) => [n]
                case Struct(elts) => [Field(name, attrs, Struct(Strip(elts)))]
  {
    assert [n][1..] == [];
  }

  // ----- a simple sufficient condition, and what goes wrong without it -----

  predicate PrivateFree(s: seq<Node>)
    decreases s
  {
    forall j :: 0 <= j < |s| ==> !Private(s[j]) && (HasStruct(s[j]) ==> PrivateFree(s[j].value.elts))
  }

  /** At most one private field on a level, and none below the declaration right behind it
      unless that is the last one. */
  predicate Simple(s: seq<Node>)
    decreases s
  {
    && (forall i, j :: 0 <= i < j < |s| ==> !(Private(s[i]) && Private(s[j])))
    && (forall j :: 0 <= j < |s| && HasStruct(s[j]) ==> Simple(s[j].value.elts))
    && (forall j :: 0 < j < |s| - 1 && HasStruct(s[j]) && Private(s[j - 1]) ==> PrivateFree(s[j].value.elts))
  }

  lemma {:induction false} FreeCleared(s: seq<Node>, v: nat)
    requires PrivateFree(s)
    ensures Cleared(s, v)
    decreases s
  {
    forall j | 0 <= j < |s| && HasStruct(s[j]) ensures Cleared(s[j].value.elts, Turns(s, j, v)) {
      FreeCleared(s[j].value.elts, Turns(s, j, v));
    }
  }

  /** On a level with at most one private declaration. */
  lemma {:induction false} ShortRuns(s: seq<Node>, j: nat)
    requires j < |s| && forall i, k :: 0 <= i < k < |s| ==> !(Private(s[i]) && Private(s[k]))
    ensures RunBefore(s, j) == if j > 0 && Private(s[j - 1]) then 1 else 0
    ensures Private(s[j]) ==> RunBefore(s, j) == 0
  {
    if j > 0 && Private(s[j - 1]) {
      assert j > 1 ==> !Private(s[j - 2]);
      assert RunBefore(s, j - 1) == 0;
    }
  }

  lemma {:induction false} SomeRemoved(s: seq<Node>, v: nat, j: nat)
    requires Ended(s) && v > 0 && j < |s| && Private(s[j])
    ensures Removed(s, v) > 0
    decreases |s|
  {
    LeadExact(s);
    LeadEnded(s);
    var n := Lead(s);
    if n > 0 {
      LeftHalf(n, v);
    } else {
      assert Behind(s)[j - 1] == s[j];
      LeftLess(0, v);
      assert Removed(s, v) == Removed(Behind(s), v);
      SomeRemoved(Behind(s), v, j - 1);
    }
  }

  lemma {:induction false} LeftHalf(n: nat, v: nat)
    requires n > 0 && v > 0
    ensures Left(n, v) < n
  {
    LeftLess(n / 2, v - 1);
  }

  /** Only a declaration that is passed over in the only sweep, and is not the last, is never handled. */
  lemma {:induction false} SimpleTurns(s: seq<Node>, v: nat, j: nat)
    requires v > 0 && j < |s| && !Private(s[j])
    requires forall i, k :: 0 <= i < k < |s| ==> !(Private(s[i]) && Private(s[k]))
    ensures Turns(s, j, v) == 0 ==> 0 < j < |s| - 1 && Private(s[j - 1])
  {
    ShortRuns(s, j);
    assert Skips(0, v) == 0 by { NoSkips(v); }
    if j + 1 == |s| && j > 0 && Private(s[j - 1]) {
      SomeRemoved(s, v, j - 1);
    }
  }

  lemma {:induction false} NoSkips(v: nat)
    ensures Skips(0, v) == 0
  {
    if v > 0 { NoSkips(v - 1); }
  }

  lemma {:induction false} SimpleCleared(s: seq<Node>, v: nat)
    requires Simple(s) && v > 0
    ensures Cleared(s, v)
    decreases s
  {
    forall j | 0 <= j < |s| && Private(s[j]) ensures !Remains(s, j, v) {
      ShortRuns(s, j);
    }
    forall j | 0 <= j < |s| && HasStruct(s[j])
      ensures if Private(s[j]) then Survived(s[j].value.elts, 1) else Cleared(s[j].value.elts, Turns(s, j, v))
    {
      if Private(s[j]) {
        SimpleCleared(s[j].value.elts, 1);
        ClearedSurvives(s[j].value.elts, 1);
      } else {
        SimpleTurns(s, v, j);
        if Turns(s, j, v) == 0 {
          FreeCleared(s[j].value.elts, 0);
        } else {
          SimpleCleared(s[j].value.elts, Turns(s, j, v));
        }
      }
    }
  }

  lemma SimpleRemoval(s: seq<Node>)
    requires Simple(s)
    ensures Sweep.Sweep(s) == Some(Strip(s))
  {
    SimpleCleared(s, 1);
    RemovalDecided(s);
  }

  /** A private field stays below the declaration right behind a removed one. */
  lemma PrivateFieldStays()
    ensures
      var p := Field("max", ["@private(true)"], Scalar("6"));
      var s := [p, Field("a", [], Struct([p])), Field("b", [], Scalar("1"))];
      Sweep.Sweep(s).Some? && Sweep.Sweep(s) != Some(Strip(s))
  {
    var p := Field("max", ["@private(true)"], Scalar("6"));
    var s := [p, Field("a", [], Struct([p])), Field("b", [], Scalar("1"))];
    assert Private(p) && s[0] == p && Private(s[0]);
    assert RunBefore(s, 1) == 1 + RunBefore(s, 0) == 1;
    assert Skips(1, 1) == 1 + Skips(0, 0) == 1;
    assert Turns(s, 1, 1) == 0;
    assert !Cleared([p], 0) by {
      assert [p][0] == p && Remains([p], 0, 0);
    }
    assert Survived([p], 0);
    assert Survived(s, 1);
    RemovalDecided(s);
  }

  /** Two private fields side by side, and nothing else: the slice expression goes out of range. */
  lemma TwoPrivatesPanic()
    ensures
      var p := Field("max", ["@private(true)"], Scalar("6"));
      Sweep.Sweep([p, p]) == None
  {
    var p := Field("max", ["@private(true)"], Scalar("6"));
    var s := [p, p];
    assert Private(s[0]) && Private(s[1]);
    RemovalDecided(s);
  }
}
