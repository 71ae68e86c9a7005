/** CUE files as objects (internal/cue/cue.go, File): evaluation and sanitizing work in place, so
    whoever holds the file sees the result. What the CUE library computes is a parameter. */
module CueFile {
  import opened Wrappers
  import opened Sweep
  import opened Slices

  /** The library: evaluation with attributes (final) and without (plain), the meet of several
      files, the completion of a configuration by a schema, the import clean-up, validation, and
      formatting. None is an error. */
  datatype Library = Library(
    final: seq<Node> -> Option<seq<Node>>,
    plain: seq<Node> -> Option<seq<Node>>,
    meet: (seq<Node>, seq<seq<Node>>) -> Option<seq<Node>>,
    complete: (seq<Node>, seq<Node>) -> Option<seq<Node>>,
    sanitize: seq<Node> -> Option<seq<Node>>,
    valid: (seq<Node>, seq<Node>) -> bool,
    format: seq<Node> -> Option<string>)

  datatype Failure = LibraryError | OutOfRange

  class File {
    var decls: Slice

    ghost predicate Valid()
      reads this, decls, decls.Repr
    {
      decls.Valid() && this !in decls.Repr
    }

    ghost function Nodes(): seq<Node>
      reads this, decls
    {
      decls.Contents
    }

    constructor (ns: seq<Node>)
      ensures Valid() && Nodes() == ns && fresh(decls.Repr)
    {
      var list := Build(ns);
      decls := list;
    }

    /** The file's declarations become newly made ones. */
    method Replace(ns: seq<Node>)
      modifies this
      ensures Valid() && Nodes() == ns && fresh(decls.Repr)
    {
      decls := Build(ns);
    }

    /** Eval: the result is this very file. */
    method Eval(lib: Library) returns (r: Result<File, Failure>)
      requires Valid()
      modifies this
      ensures Valid()
      ensures r.Ok? ==> r.value == this && fresh(decls.Repr) && lib.plain(old(Nodes())) == Some(Nodes())
      ensures r.Err? ==> lib.plain(old(Nodes())) == None && Nodes() == old(Nodes()) && r.error == LibraryError
    {
      var ns := Read();
      var e := lib.plain(ns);
      if e.None? {
        return Err(LibraryError);
      }
      Replace(e.value);
      return Ok(this);
    }

    /** EvalWithoutPrivateFields: the result is this very file, too. */
    method EvalWithoutPrivateFields(lib: Library) returns (r: Result<File, Failure>)
      requires Valid()
      modifies this
      ensures r.Ok? ==>
        && r.value == this && Valid() && fresh(decls.Repr)
        && lib.final(old(Nodes())).Some? && Sweep.Sweep(lib.final(old(Nodes())).value) == Some(Nodes())
      ensures r == Err(LibraryError) <==> lib.final(old(Nodes())).None?
      ensures r == Err(OutOfRange) <==>
        lib.final(old(Nodes())).Some? && Sweep.Sweep(lib.final(old(Nodes())).value).None?
    {
      var ns := Read();
      var e := lib.final(ns);
      if e.None? {
        return Err(LibraryError);
      }
      Replace(e.value);
      var ok := RemovePrivateFields(decls);
      return if ok then Ok(this) else Err(OutOfRange);
    }

    method Sanitize(lib: Library) returns (ok: bool)
      requires Valid()
      modifies this
      ensures Valid()
      ensures ok == lib.sanitize(old(Nodes())).Some?
      ensures if ok then lib.sanitize(old(Nodes())) == Some(Nodes()) && fresh(decls.Repr)
              else Nodes() == old(Nodes()) && decls == old(decls)
    {
      var ns := Read();
      var e := lib.sanitize(ns);
      ok := e.Some?;
      if ok {
        Replace(e.value);
      }
    }

    method Format(lib: Library) returns (r: Option<string>)
      requires Valid()
      ensures r == lib.format(Nodes())
    {
      var ns := Read();
      r := lib.format(ns);
    }

    /** Unify makes a new file. */
    method Unify(files: seq<File>, lib: Library) returns (r: Option<File>)
      requires Valid() && forall f :: f in files ==> f.Valid()
      ensures r.Some? == lib.meet(Nodes(), NodesOf(files)).Some?
      ensures r.Some? ==> fresh(r.value) && r.value.Valid() && fresh(r.value.decls.Repr) &&
                          lib.meet(Nodes(), NodesOf(files)) == Some(r.value.Nodes())
    {
      var ns := Read();
      var others: seq<seq<Node>> := [];
      for k := 0 to |files|
        invariant others == NodesOf(files[..k])
      {
        assert files[..k + 1][..k] == files[..k];
        var o := files[k].Read();
        others := others + [o];
      }
      assert files[..|files|] == files;
      var e := lib.meet(ns, others);
      if e.None? {
        return None;
      }
      var f := new File(e.value);
      return Some(f);
    }

    /** The declarations as a value. */
    method Read() returns (ns: seq<Node>)
      requires Valid()
      ensures ns == Nodes()
    {
      ns := ReadSlice(decls);
    }
  }

  ghost function NodesOf(files: seq<File>): seq<seq<Node>>
    reads files, set f | f in files :: f.decls
  {
    if files == [] then []
    else NodesOf(files[..|files| - 1]) + [files[|files| - 1].Nodes()]
  }

  method ReadSlice(list: Slice) returns (ns: seq<Node>)
    requires list.Valid()
    ensures ns == list.Contents
    decreases list.Repr
  {
    ns := [];
    ghost var ds := list.elts[..list.len];
    assert Wired({list, list.elts}, list.Repr, ds, list.Contents);
    for k := 0 to list.len
      invariant ns == list.Contents[..k]
    {
      assert ds[k] == list.elts[k] && Matches(ds[k], list.Contents[k]);
      match list.elts[k] {
        case OtherDecl(t) => ns := ns + [Other(t)];
        case FieldDecl(l, a, ScalarExpr(e)) => ns := ns + [Field(l, a, Scalar(e))];
        case FieldDecl(l, a, StructLit(c)) =>
          assert IsStructLit(ds[k]) && Inside({list, list.elts}, list.Repr, ds[k].value.lit) && ds[k].value.lit.Valid();
          var elts := ReadSlice(c);
          ns := ns + [Field(l, a, Struct(elts))];
      }
    }
  }
}
