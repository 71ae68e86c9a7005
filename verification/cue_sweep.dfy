/** The removal of private fields from a declaration list, in place
    (internal/cue/cue.go, removePrivateFields).

    The loop ranges over the slice header it was given while the list behind that header
    shrinks: after a removal the next declaration slides under the index just handled and is
    passed over, and the end of the backing array still shows the last declaration, which is
    therefore handled again. Sweep states exactly what comes out. */
module Sweep {
  import opened Wrappers

  /** Declarations as values. */
  datatype Node = Other(text: string) | Field(name: string, attrs: seq<string>, value: Value)
  datatype Value = Scalar(expr: string) | Struct(elts: seq<Node>)

  const PRIVATE := "@private(true)"

  predicate Private(n: Node) {
    n.Field? && |n.attrs| > 0 && n.attrs[0] == PRIVATE
  }

  predicate HasStruct(n: Node) {
    n.Field? && n.value.Struct?
  }

  function WithElts(n: Node, elts: seq<Node>): Node
    requires HasStruct(n)
  {
    n.(value := Struct(elts))
  }

  // ----- what is meant: the order-preserving recursive filter -----

  function Strip(s: seq<Node>): seq<Node> {
    if s == [] then []
    else if Private(s[0]) then Strip(s[1..])
    else [StripNode(s[0])] + Strip(s[1..])
  }

  function StripNode(n: Node): Node {
    match n
    case Field(l, a, Struct(elts)) => Field(l, a, Struct(Strip(elts)))
    case _ => n
  }

  // ----- what is done -----

  function Max(a: nat, b: nat): nat { if a < b then b else a }

  function Height(s: seq<Node>): nat {
    if s == [] then 0 else Max(NodeHeight(s[0]), Height(s[1..]))
  }

  function NodeHeight(n: Node): nat {
    match n
    case Field(_, _, Struct(elts)) => 1 + Height(elts)
    case _ => 0
  }

  lemma HeightConcat(a: seq<Node>, b: seq<Node>)
    ensures Height(a + b) == Max(Height(a), Height(b))
  {
    if a == [] {
      assert a + b == b;
    } else {
      assert (a + b)[1..] == a[1..] + b;
      HeightConcat(a[1..], b);
    }
  }

  lemma HeightAt(s: seq<Node>, j: nat)
    requires j < |s|
    ensures NodeHeight(s[j]) <= Height(s)
  {
    if j > 0 { HeightAt(s[1..], j - 1); }
  }

  /** One run of the loop over s; None when a slice expression goes out of range. */
  function Sweep(s: seq<Node>): (r: Option<seq<Node>>)
    decreases Height(s), 3
    ensures r.Some? ==> Height(r.value) <= Height(s)
  {
    Run([], s, 0)
  }

  /** The loop's future: kept declarations already passed, rest still ahead under the index,
      stale positions at the end of the backing array that still show the last declaration. */
  function Run(kept: seq<Node>, rest: seq<Node>, stale: nat): (r: Option<seq<Node>>)
    decreases Max(Height(kept), Height(rest)), 2, |rest|
    ensures r.Some? ==> Height(r.value) <= Max(Height(kept), Height(rest))
  {
    if rest == [] then Again(kept, stale)
    else
      var v := Visit(rest[0]);
      if v.None? then None
      else if !Private(rest[0]) then
        HeightConcat(kept, [v.value]);
        Run(kept + [v.value], rest[1..], stale)
      else if |rest| == 1 then
        if stale > 0 then None else Some(kept)
      else
        HeightConcat(kept, [rest[1]]);
        assert rest[1..][1..] == rest[2..];
        Run(kept + [rest[1]], rest[2..], stale + 1)
  }

  /** The last declaration handled t more times through the stale end of the array. */
  function Again(kept: seq<Node>, t: nat): (r: Option<seq<Node>>)
    decreases Height(kept), 1, t
    ensures r.Some? ==> Height(r.value) <= Height(kept)
  {
    if t == 0 then Some(kept)
    else if kept == [] || Private(kept[|kept| - 1]) then None
    else
      var front, last := kept[..|kept| - 1], kept[|kept| - 1];
      assert kept == front + [last];
      HeightConcat(front, [last]);
      var v := Visit(last);
      if v.None? then None
      else
        HeightConcat(front, [v.value]);
        Again(front + [v.value], t - 1)
  }

  function Visit(n: Node): (r: Option<Node>)
    decreases NodeHeight(n), 0
    ensures r.Some? ==> NodeHeight(r.value) <= NodeHeight(n)
  {
    if HasStruct(n) then
      var e := Sweep(n.value.elts);
      if e.None? then None else Some(WithElts(n, e.value))
    else Some(n)
  }
}
