/** Registering a schema: the depth-first closure over file dependencies, which
    may be cyclic, and the process-wide set of registered file names. */
module SchemaClosure {

  import opened Results
  import opened Reachability

  type Name = string

  /** The files of a schema by their unique names, each with the files it depends on. */
  type Files = Graph<Name>

  datatype FileProto = FileProto(name: Name, dependencies: seq<Name>)

  function ToProto(files: Files, name: Name): FileProto {
    FileProto(name, Out(files, name))
  }

  function Names(protos: seq<FileProto>): seq<Name> {
    seq(|protos|, i requires 0 <= i < |protos| => protos[i].name)
  }

  lemma NamesSnoc(protos: seq<FileProto>, p: FileProto)
    ensures Names(protos + [p]) == Names(protos) + [p.name]
  {
  }

  // ----- the collections that the traversals fill -----

  class NameSet {
    var names: set<Name>

    constructor ()
      ensures names == {}
    {
      names := {};
    }

    method Add(name: Name) returns (added: bool)
      modifies this
      ensures names == old(names) + {name} && added == (name !in old(names))
    {
      added := name !in names;
      names := names + {name};
    }
  }

  class DescriptorSetBuilder {
    var protos: seq<FileProto>

    constructor ()
      ensures protos == []
    {
      protos := [];
    }

    method AddFile(proto: FileProto)
      modifies this
      ensures protos == old(protos) + [proto]
    {
      protos := protos + [proto];
    }
  }

  // ----- what a visit does to the set of names -----

  /** A visit to the roots: it adds them and only names reachable from them, and
      every added name has its dependencies in the set. */
  ghost predicate Visited(files: Files, roots: seq<Name>, before: set<Name>, after: set<Name>) {
    && before <= after && (forall r :: r in roots ==> r in after)
    && (forall n :: n in after - before ==> ReachedFrom(files, roots, n))
    && (forall n, m :: n in after - before && m in Out(files, n) ==> m in after)
  }

  ghost predicate ReachedFrom(files: Files, roots: seq<Name>, n: Name) {
    exists r :: r in roots && Reachable(files, r, n)
  }

  lemma VisitNothing(files: Files, names: set<Name>, known: Name)
    ensures Visited(files, [], names, names)
    ensures known in names ==> Visited(files, [known], names, names)
  {
  }

  /** A file that is new, and then its dependencies. */
  lemma VisitFile(files: Files, file: Name, before: set<Name>, after: set<Name>)
    requires file !in before && Visited(files, Out(files, file), before + {file}, after)
    ensures Visited(files, [file], before, after)
  {
    ReachableSelf(files, file);
    hide Out;
    assert file in [file];
    forall n | n in after - before ensures ReachedFrom(files, [file], n) {
      if n != file {
        assert ReachedFrom(files, Out(files, file), n);
        var r :| r in Out(files, file) && Reachable(files, r, n);
        ReachableFromEdge(files, file, r, n);
      }
    }
  }

  /** One dependency after the others. */
  lemma VisitNext(files: Files, roots: seq<Name>, next: Name, before: set<Name>, middle: set<Name>, after: set<Name>)
    requires Visited(files, roots, before, middle) && Visited(files, [next], middle, after)
    ensures Visited(files, roots + [next], before, after)
  {
    hide Reachable, Out;
    forall n | n in after - before ensures ReachedFrom(files, roots + [next], n) {
      if n in middle {
        assert ReachedFrom(files, roots, n);
        var r :| r in roots && Reachable(files, r, n);
        assert r in roots + [next];
      } else {
        assert ReachedFrom(files, [next], n);
        assert next in roots + [next];
      }
    }
  }

  lemma ReachableFromEdge(files: Files, from: Name, next: Name, to: Name)
    requires next in Out(files, from) && Reachable(files, next, to)
    ensures Reachable(files, from, to)
  {
    var path :| Path(files, path) && path[0] == next && path[|path| - 1] == to;
    var longer := [from] + path;
    assert forall i :: 1 <= i < |longer| ==> longer[i] == path[i - 1];
    assert Path(files, longer) && longer[0] == from && longer[|longer| - 1] == to;
  }

  /** A visit to one root from nothing finds exactly what it reaches. */
  lemma VisitedFromNothing(files: Files, root: Name, names: set<Name>)
    requires Visited(files, [root], {}, names)
    ensures forall n :: n in names <==> Reachable(files, root, n)
  {
    hide Reachable, Out;
    assert root in [root];
    forall n | n in names ensures Reachable(files, root, n) {
      assert n in names - {} && ReachedFrom(files, [root], n);
    }
    ClosedIsReachable(files, root, names);
  }

  // ----- the two traversals -----

  /** The builder holds one descriptor for each name of the set, and no other. */
  ghost predicate Describes(files: Files, protos: seq<FileProto>, names: set<Name>) {
    && Distinct(Names(protos)) && Elements(Names(protos)) == names
    && forall p :: p in protos ==> p == ToProto(files, p.name)
  }

  lemma DescribesOneMore(files: Files, protos: seq<FileProto>, names: set<Name>, file: Name)
    requires Describes(files, protos, names) && file !in names
    ensures Describes(files, protos + [ToProto(files, file)], names + {file})
  {
    var p := ToProto(files, file);
    hide Out, ToProto;
    NamesSnoc(protos, p);
    assert p.name == file by {
      ProtoName(files, file);
    }
    assert file !in Names(protos);
    assert Elements(Names(protos) + [file]) == names + {file};
  }

  lemma ProtoName(files: Files, file: Name)
    ensures ToProto(files, file).name == file
  {
  }

  method CollectFileDescriptors(ghost universe: set<Name>, files: Files, file: Name,
                                builder: DescriptorSetBuilder, seen: NameSet)
    requires ClosedUnder(files, universe) && file in universe && seen.names <= universe
    requires Describes(files, builder.protos, seen.names)
    modifies builder, seen
    ensures Visited(files, [file], old(seen.names), seen.names) && seen.names <= universe
    ensures Describes(files, builder.protos, seen.names)
    ensures old(builder.protos) + (if file in old(seen.names) then [] else [ToProto(files, file)]) <= builder.protos
    decreases universe - seen.names
  {
    hide Visited, Describes, Out;
    var added := seen.Add(file);
    if !added {
      VisitNothing(files, old(seen.names), file);
      assert seen.names == old(seen.names);
      return;
    }
    DescribesOneMore(files, builder.protos, old(seen.names), file);
    builder.AddFile(ToProto(files, file));
    var dependencies := Out(files, file);
    ghost var start := seen.names;
    ghost var first := builder.protos;
    VisitNothing(files, start, file);
    for i := 0 to |dependencies|
      invariant Visited(files, dependencies[..i], start, seen.names) && start <= seen.names <= universe
      invariant Describes(files, builder.protos, seen.names) && first <= builder.protos
    {
      assert dependencies[..i + 1] == dependencies[..i] + [dependencies[i]];
      ghost var middle := seen.names;
      CollectFileDescriptors(universe, files, dependencies[i], builder, seen);
      VisitNext(files, dependencies[..i], dependencies[i], start, middle, seen.names);
      VisitGrows(files, [dependencies[i]], middle, seen.names);
    }
    assert dependencies[..|dependencies|] == dependencies;
    VisitFile(files, file, old(seen.names), seen.names);
  }

  lemma VisitGrows(files: Files, roots: seq<Name>, before: set<Name>, after: set<Name>)
    requires Visited(files, roots, before, after)
    ensures before <= after
  {
  }

  method CollectFileNames(ghost universe: set<Name>, files: Files, file: Name, sink: NameSet)
    requires ClosedUnder(files, universe) && file in universe && sink.names <= universe
    modifies sink
    ensures Visited(files, [file], old(sink.names), sink.names) && sink.names <= universe
    decreases universe - sink.names
  {
    hide Visited, Out;
    var added := sink.Add(file);
    if !added {
      VisitNothing(files, old(sink.names), file);
      assert sink.names == old(sink.names);
      return;
    }
    var dependencies := Out(files, file);
    ghost var start := sink.names;
    VisitNothing(files, start, file);
    for i := 0 to |dependencies|
      invariant Visited(files, dependencies[..i], start, sink.names) && start <= sink.names <= universe
    {
      assert dependencies[..i + 1] == dependencies[..i] + [dependencies[i]];
      ghost var middle := sink.names;
      CollectFileNames(universe, files, dependencies[i], sink);
      VisitNext(files, dependencies[..i], dependencies[i], start, middle, sink.names);
      VisitGrows(files, [dependencies[i]], middle, sink.names);
    }
    assert dependencies[..|dependencies|] == dependencies;
    VisitFile(files, file, old(sink.names), sink.names);
  }

  /** The set has one descriptor, with its dependencies, for each file that is
      reachable, and starts with the file itself. */
  ghost predicate DescribesReachable(files: Files, file: Name, protos: seq<FileProto>) {
    && (forall n :: n in Names(protos) <==> Reachable(files, file, n)) && Distinct(Names(protos))
    && (forall p :: p in protos ==> p.dependencies == Out(files, p.name))
    && protos != [] && protos[0].name == file
  }

  /** Main result: the descriptor set has each reachable file exactly once. */
  method BuildDescriptorSet(files: Files, file: Name) returns (protos: seq<FileProto>)
    ensures DescribesReachable(files, file, protos)
  {
    var builder := new DescriptorSetBuilder();
    var seen := new NameSet();
    UniverseClosed(files, file);
    CollectFileDescriptors(Universe(files, file), files, file, builder, seen);
    hide Visited, Reachable;
    VisitedFromNothing(files, file, seen.names);
    protos := builder.protos;
    assert forall n :: n in Names(protos) <==> n in Elements(Names(protos));
  }

  /** The names alone are the same set. */
  method ReachableNames(files: Files, file: Name) returns (names: set<Name>)
    ensures forall n :: n in names <==> Reachable(files, file, n)
  {
    var sink := new NameSet();
    UniverseClosed(files, file);
    CollectFileNames(Universe(files, file), files, file, sink);
    hide Visited, Reachable;
    VisitedFromNothing(files, file, sink.names);
    names := sink.names;
  }

  // ----- registration -----

  /** The process-wide set of names, and the descriptor sets that native code
      has accepted. */
  class SchemaRegistry {
    var registeredFileNames: set<Name>
    var loaded: seq<seq<FileProto>>

    /** A name is registered exactly if a set with that file was loaded. */
    ghost predicate Valid()
      reads this
    {
      forall n :: n in registeredFileNames <==> Loaded(loaded, n)
    }

    constructor ()
      ensures Valid() && registeredFileNames == {} && loaded == []
    {
      registeredFileNames, loaded := {}, [];
    }

    /** The locked section: native code is called for a set with a new name, and
        may refuse it by throwing, which leaves everything as it was. */
    method RegisterSchemaInternal(protos: seq<FileProto>, fileNames: set<Name>, nativeAccepts: bool) returns (r: Result<bool>)
      requires Valid() && fileNames == Elements(Names(protos))
      modifies this
      ensures Valid()
      ensures r == if fileNames <= old(registeredFileNames) then Ok(false)
                   else if nativeAccepts then Ok(true) else Err(InvalidSchema)
      ensures loaded == if r == Ok(true) then old(loaded) + [protos] else old(loaded)
      ensures registeredFileNames == if r.Ok? then old(registeredFileNames) + fileNames else old(registeredFileNames)
    {
      if |protos| == 0 || fileNames == {} {
        NoNames(protos);
        return Ok(false);
      }
      if fileNames <= registeredFileNames {
        return Ok(false);
      }
      if !nativeAccepts {
        return Err(InvalidSchema);
      }
      LoadedOneMore(loaded, protos);
      loaded := loaded + [protos];
      registeredFileNames := registeredFileNames + fileNames;
      return Ok(true);
    }

    /** Registering a file registers everything it reaches, or nothing. */
    method RegisterSchema(files: Files, file: Name, nativeAccepts: bool) returns (r: Result<bool>)
      requires Valid()
      modifies this
      ensures Valid()
      ensures r == if !ReachesNew(files, file, old(registeredFileNames)) then Ok(false)
                   else if nativeAccepts then Ok(true) else Err(InvalidSchema)
      ensures r == Ok(true) ==>
                && loaded != [] && loaded[..|loaded| - 1] == old(loaded)
                && DescribesReachable(files, file, loaded[|loaded| - 1])
                && forall n :: n in registeredFileNames <==> n in old(registeredFileNames) || Reachable(files, file, n)
      ensures r != Ok(true) ==> registeredFileNames == old(registeredFileNames) && loaded == old(loaded)
    {
      hide Reachable;
      var fileNames := ReachableNames(files, file);
      assert fileNames <= registeredFileNames <==> !ReachesNew(files, file, registeredFileNames);
      if fileNames == {} {
        return Ok(false);
      }
      if fileNames <= registeredFileNames {
        return Ok(false);
      }
      var descriptorSet := BuildDescriptorSet(files, file);
      assert fileNames == Elements(Names(descriptorSet));
      r := RegisterSchemaInternal(descriptorSet, fileNames, nativeAccepts);
    }

    /** Registering a serialized set registers the names in it. */
    method RegisterDescriptorSet(parsed: Option<seq<FileProto>>, nativeAccepts: bool) returns (r: Result<bool>)
      requires Valid()
      modifies this
      ensures Valid()
      ensures r == if parsed.None? then Err(InvalidSchema)
                   else if !NamesNew(parsed.value, old(registeredFileNames)) then Ok(false)
                   else if nativeAccepts then Ok(true) else Err(InvalidSchema)
      ensures r == Ok(true) ==>
                && loaded == old(loaded) + [parsed.value]
                && registeredFileNames == old(registeredFileNames) + Elements(Names(parsed.value))
      ensures r != Ok(true) ==> registeredFileNames == old(registeredFileNames) && loaded == old(loaded)
    {
      if parsed.None? {
        return Err(InvalidSchema);
      }
      var protos := parsed.value;
      NewNames(protos, registeredFileNames);
      if |protos| == 0 {
        NoNames(protos);
        return Ok(false);
      }
      var fileNames := {};
      NoNames(protos[..0]);
      hide Names, Elements, Loaded;
      for i := 0 to |protos|
        invariant fileNames == Elements(Names(protos[..i]))
        invariant Valid() && registeredFileNames == old(registeredFileNames) && loaded == old(loaded)
      {
        NamesPrefix(protos, i);
        fileNames := fileNames + {protos[i].name};
      }
      assert protos[..|protos|] == protos;
      r := RegisterSchemaInternal(protos, fileNames, nativeAccepts);
    }
  }

  /** The file reaches one that is not registered. */
  ghost predicate ReachesNew(files: Files, file: Name, registered: set<Name>) {
    exists n :: Reachable(files, file, n) && n !in registered
  }

  /** The set names a file that is not registered. */
  ghost predicate NamesNew(protos: seq<FileProto>, registered: set<Name>) {
    exists i :: 0 <= i < |protos| && protos[i].name !in registered
  }

  lemma NewNames(protos: seq<FileProto>, registered: set<Name>)
    ensures NamesNew(protos, registered) <==> !(Elements(Names(protos)) <= registered)
  {
    forall i | 0 <= i < |protos| ensures protos[i].name in Elements(Names(protos)) {
      assert Names(protos)[i] == protos[i].name;
    }
  }

  ghost predicate Loaded(loaded: seq<seq<FileProto>>, n: Name) {
    exists i :: 0 <= i < |loaded| && n in Names(loaded[i])
  }

  lemma NoNames(protos: seq<FileProto>)
    ensures protos == [] ==> Elements(Names(protos)) == {}
  {
  }

  lemma LoadedOneMore(loaded: seq<seq<FileProto>>, protos: seq<FileProto>)
    ensures forall n :: Loaded(loaded + [protos], n) <==> Loaded(loaded, n) || n in Names(protos)
  {
    hide Names;
    var all := loaded + [protos];
    forall n | Loaded(loaded, n) ensures Loaded(all, n) {
      var i :| 0 <= i < |loaded| && n in Names(loaded[i]);
      assert all[i] == loaded[i];
    }
    assert all[|loaded|] == protos;
  }

  lemma NamesPrefix(protos: seq<FileProto>, i: nat)
    requires i < |protos|
    ensures Elements(Names(protos[..i + 1])) == Elements(Names(protos[..i])) + {protos[i].name}
  {
    assert protos[..i + 1] == protos[..i] + [protos[i]];
    NamesSnoc(protos[..i], protos[i]);
    hide Names;
    assert Elements(Names(protos[..i]) + [protos[i].name]) == Elements(Names(protos[..i])) + {protos[i].name};
  }
}
