/** The precedence order of section 11 of Semantic Versioning 2.0.0, which the generator's version
    gate relies on. */
module SemVer {
  datatype Identifier = Numeric(n: nat) | Alphanumeric(s: string)

  datatype Version = Version(major: nat, minor: nat, patch: nat, pre: seq<Identifier>, build: string)

  // ----- comparisons: negative, zero or positive -----

  function CompareInts(a: int, b: int): int { if a < b then -1 else if a == b then 0 else 1 }

  function CompareChars(a: char, b: char): int { CompareInts(a as int, b as int) }

  /** Left to right up to the first difference; a proper prefix is lower. */
  function CompareSeqs<T>(cmp: (T, T) -> int, a: seq<T>, b: seq<T>): int
    decreases |a|
  {
    if a == [] then (if b == [] then 0 else -1)
    else if b == [] then 1
    else if cmp(a[0], b[0]) != 0 then cmp(a[0], b[0])
    else CompareSeqs(cmp, a[1..], b[1..])
  }

  /** Section 11.4: numeric identifiers numerically, others in ASCII order, numeric ones lower. */
  function CompareIdentifiers(a: Identifier, b: Identifier): int {
    match (a, b)
    case (Numeric(m), Numeric(n)) => CompareInts(m, n)
    case (Numeric(_), Alphanumeric(_)) => -1
    case (Alphanumeric(_), Numeric(_)) => 1
    case (Alphanumeric(s), Alphanumeric(t)) => CompareSeqs(CompareChars, s, t)
  }

  /** Section 11.3: a version without a pre-release part is above those with one. */
  function ComparePre(a: seq<Identifier>, b: seq<Identifier>): int {
    if a == [] then (if b == [] then 0 else 1)
    else if b == [] then -1
    else CompareSeqs(CompareIdentifiers, a, b)
  }

  /** Build metadata does not count. */
  function Compare(a: Version, b: Version): int {
    if a.major != b.major then CompareInts(a.major, b.major)
    else if a.minor != b.minor then CompareInts(a.minor, b.minor)
    else if a.patch != b.patch then CompareInts(a.patch, b.patch)
    else ComparePre(a.pre, b.pre)
  }

  predicate LessThan(a: Version, b: Version) { Compare(a, b) < 0 }

  predicate Equal(a: Version, b: Version) { Compare(a, b) == 0 }

  // ----- the order is total -----

  /** The comparison is that of a total order on the type. */
  ghost predicate Total<T(!new)>(cmp: (T, T) -> int) {
    && (forall x, y :: cmp(x, y) == 0 <==> x == y)
    && (forall x, y :: cmp(x, y) < 0 <==> cmp(y, x) > 0)
    && (forall x, y, z :: cmp(x, y) < 0 && cmp(y, z) < 0 ==> cmp(x, z) < 0)
  }

  lemma {:induction false} SeqsEqual<T(!new)>(cmp: (T, T) -> int, a: seq<T>, b: seq<T>)
    requires Total(cmp)
    ensures CompareSeqs(cmp, a, b) == 0 <==> a == b
    decreases |a|
  {
    if a != [] && b != [] {
      SeqsEqual(cmp, a[1..], b[1..]);
      assert a == [a[0]] + a[1..] && b == [b[0]] + b[1..];
    }
  }

  lemma {:induction false} SeqsOpposite<T(!new)>(cmp: (T, T) -> int, a: seq<T>, b: seq<T>)
    requires Total(cmp)
    ensures CompareSeqs(cmp, a, b) < 0 <==> CompareSeqs(cmp, b, a) > 0
    decreases |a|
  {
    if a != [] && b != [] {
      SeqsOpposite(cmp, a[1..], b[1..]);
      assert cmp(a[0], b[0]) == 0 <==> a[0] == b[0];
      assert cmp(b[0], a[0]) == 0 <==> b[0] == a[0];
    }
  }

  lemma {:induction false} SeqsTransitive<T(!new)>(cmp: (T, T) -> int, a: seq<T>, b: seq<T>, c: seq<T>)
    requires Total(cmp) && CompareSeqs(cmp, a, b) < 0 && CompareSeqs(cmp, b, c) < 0
    ensures CompareSeqs(cmp, a, c) < 0
    decreases |a|
  {
    if a != [] {
      if a[0] == b[0] && b[0] == c[0] {
        assert cmp(a[0], b[0]) == 0 && cmp(b[0], c[0]) == 0 && cmp(a[0], c[0]) == 0;
        SeqsTransitive(cmp, a[1..], b[1..], c[1..]);
      }
    }
  }

  lemma SeqsTotal<T(!new)>(cmp: (T, T) -> int)
    requires Total(cmp)
    ensures Total((a: seq<T>, b: seq<T>) => CompareSeqs(cmp, a, b))
  {
    forall a: seq<T>, b: seq<T> ensures CompareSeqs(cmp, a, b) == 0 <==> a == b { SeqsEqual(cmp, a, b); }
    forall a: seq<T>, b: seq<T> ensures CompareSeqs(cmp, a, b) < 0 <==> CompareSeqs(cmp, b, a) > 0 {
      SeqsOpposite(cmp, a, b);
    }
    forall a: seq<T>, b: seq<T>, c: seq<T> | CompareSeqs(cmp, a, b) < 0 && CompareSeqs(cmp, b, c) < 0
      ensures CompareSeqs(cmp, a, c) < 0
    {
      SeqsTransitive(cmp, a, b, c);
    }
  }

  lemma IdentifiersTotal()
    ensures Total(CompareIdentifiers)
  {
    assert Total(CompareChars);
    SeqsTotal(CompareChars);
    var strings := (a: string, b: string) => CompareSeqs(CompareChars, a, b);
    assert forall s: string, t: string :: strings(s, t) == CompareSeqs(CompareChars, s, t);
  }

  lemma CompareTotal(a: Version, b: Version)
    ensures Compare(a, b) == 0 <==> a.(build := "") == b.(build := "")
    ensures Compare(a, b) < 0 <==> Compare(b, a) > 0
  {
    IdentifiersTotal();
    SeqsEqual(CompareIdentifiers, a.pre, b.pre);
    SeqsOpposite(CompareIdentifiers, a.pre, b.pre);
  }

  lemma LessThanTransitive(a: Version, b: Version, c: Version)
    requires LessThan(a, b) && LessThan(b, c)
    ensures LessThan(a, c)
  {
    IdentifiersTotal();
    if a.pre != [] && b.pre != [] && c.pre != [] {
      if CompareSeqs(CompareIdentifiers, a.pre, b.pre) < 0 && CompareSeqs(CompareIdentifiers, b.pre, c.pre) < 0 {
        SeqsTransitive(CompareIdentifiers, a.pre, b.pre, c.pre);
      }
    }
  }

  // ----- the order as the standard words it -----

  /** The strings differ first at a lower character of s, or s ends and t goes on. */
  predicate TextBelow(s: string, t: string) {
    exists k: nat :: k <= |s| && k <= |t| && s[..k] == t[..k] &&
                     (if k == |s| then k < |t| else k < |t| && s[k] < t[k])
  }

  /** Numbers numerically, texts by their characters, and any number below any text. */
  predicate IdentifierBelow(x: Identifier, y: Identifier) {
    || (x.Numeric? && y.Numeric? && x.n < y.n)
    || (x.Numeric? && y.Alphanumeric?)
    || (x.Alphanumeric? && y.Alphanumeric? && TextBelow(x.s, y.s))
  }

  /** The identifiers differ first at a lower one of p, or p ends and q goes on. */
  predicate IdentifiersBelow(p: seq<Identifier>, q: seq<Identifier>) {
    exists k: nat :: k <= |p| && k <= |q| && p[..k] == q[..k] &&
                     (if k == |p| then k < |q| else k < |q| && IdentifierBelow(p[k], q[k]))
  }

  /** By major, minor and patch version, in that order; between versions with the same three, one with a
      pre-release is below one without, and of two with one their identifiers decide. */
  predicate Below(a: Version, b: Version) {
    || a.major < b.major
    || (a.major == b.major && a.minor < b.minor)
    || (a.major == b.major && a.minor == b.minor && a.patch < b.patch)
    || (a.major == b.major && a.minor == b.minor && a.patch == b.patch && a.pre != [] &&
        (b.pre == [] || IdentifiersBelow(a.pre, b.pre)))
  }

  /** a and b differ first at k, where a is lower or ends. */
  predicate LowerAt<T(==)>(cmp: (T, T) -> int, a: seq<T>, b: seq<T>, k: nat) {
    && k <= |a| && k <= |b| && a[..k] == b[..k]
    && (if k == |a| then k < |b| else k < |b| && cmp(a[k], b[k]) < 0)
  }

  lemma {:induction false} LowerSomewhere<T(!new)>(cmp: (T, T) -> int, a: seq<T>, b: seq<T>) returns (k: nat)
    requires Total(cmp) && CompareSeqs(cmp, a, b) < 0
    ensures LowerAt(cmp, a, b, k)
    decreases |a|
  {
    k := 0;
    if a != [] && cmp(a[0], b[0]) == 0 {
      var j := LowerSomewhere(cmp, a[1..], b[1..]);
      assert a == [a[0]] + a[1..] && b == [b[0]] + b[1..];
      assert a[..j + 1] == [a[0]] + a[1..][..j] && b[..j + 1] == [b[0]] + b[1..][..j];
      k := j + 1;
    }
  }

  lemma {:induction false} LowerFrom<T(!new)>(cmp: (T, T) -> int, a: seq<T>, b: seq<T>, k: nat)
    requires Total(cmp) && LowerAt(cmp, a, b, k)
    ensures CompareSeqs(cmp, a, b) < 0
    decreases |a|
  {
    if k > 0 {
      assert a[..k][0] == b[..k][0];
      assert a[1..][..k - 1] == a[..k][1..] && b[1..][..k - 1] == b[..k][1..];
      LowerFrom(cmp, a[1..], b[1..], k - 1);
    }
  }

  lemma TextExact(s: string, t: string)
    ensures CompareSeqs(CompareChars, s, t) < 0 <==> TextBelow(s, t)
  {
    assert Total(CompareChars);
    if CompareSeqs(CompareChars, s, t) < 0 {
      var k := LowerSomewhere(CompareChars, s, t);
    }
    if k: nat :| k <= |s| && k <= |t| && s[..k] == t[..k] && (if k == |s| then k < |t| else k < |t| && s[k] < t[k]) {
      LowerFrom(CompareChars, s, t, k);
    }
  }

  lemma IdentifierExact(x: Identifier, y: Identifier)
    ensures CompareIdentifiers(x, y) < 0 <==> IdentifierBelow(x, y)
  {
    if x.Alphanumeric? && y.Alphanumeric? { TextExact(x.s, y.s); }
  }

  lemma IdentifiersExact(p: seq<Identifier>, q: seq<Identifier>)
    ensures CompareSeqs(CompareIdentifiers, p, q) < 0 <==> IdentifiersBelow(p, q)
  {
    IdentifiersTotal();
    if CompareSeqs(CompareIdentifiers, p, q) < 0 {
      var k := LowerSomewhere(CompareIdentifiers, p, q);
      if k < |p| { IdentifierExact(p[k], q[k]); }
    }
    if k: nat :| k <= |p| && k <= |q| && p[..k] == q[..k] &&
                 (if k == |p| then k < |q| else k < |q| && IdentifierBelow(p[k], q[k])) {
      if k < |p| { IdentifierExact(p[k], q[k]); }
      LowerFrom(CompareIdentifiers, p, q, k);
    }
  }

  lemma LessThanExact(a: Version, b: Version)
    ensures LessThan(a, b) <==> Below(a, b)
  {
    IdentifiersExact(a.pre, b.pre);
  }

  /** The comparison is the order of the standard. */
  lemma PrecedenceExact(a: Version, b: Version)
    ensures LessThan(a, b) <==> Below(a, b)
    ensures Equal(a, b) <==> !Below(a, b) && !Below(b, a)
  {
    LessThanExact(a, b);
    LessThanExact(b, a);
    CompareTotal(a, b);
    CompareTotal(b, a);
  }

  /** Of two versions exactly one is below the other, or they are the same but for build metadata. */
  lemma PrecedenceTotal(a: Version, b: Version)
    ensures !(Below(a, b) && Below(b, a))
    ensures !Below(a, b) && !Below(b, a) <==> a.(build := "") == b.(build := "")
  {
    PrecedenceExact(a, b);
    LessThanExact(b, a);
    CompareTotal(a, b);
    CompareTotal(b, a);
  }

  lemma PrecedenceTransitive(a: Version, b: Version, c: Version)
    requires Below(a, b) && Below(b, c)
    ensures Below(a, c)
  {
    LessThanExact(a, b);
    LessThanExact(b, c);
    LessThanExact(a, c);
    LessThanTransitive(a, b, c);
  }
}
