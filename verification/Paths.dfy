// Archive paths: components joined by '/', on a system where '/' is the only
// separator.
module Paths {
  import opened Bytes
  import opened Sequences
  import opened Format

  const SLASH: byte := 47
  const BACKSLASH: byte := 92
  const DOT: byte := 46

  datatype Component = Normal(name: seq<byte>) | CurDir | ParentDir | RootDir

  // ------------------------------------------------------------- validation

  predicate GoodPart(part: seq<byte>) {
    part != [] && part != [DOT] && part != [DOT, DOT]
  }

  function Parts(path: Path): (parts: seq<seq<byte>>)
    ensures |parts| >= 1
  {
    Split(path, SLASH)
  }

  predicate ValidPath(path: Path) {
    && path != [] && path[0] != SLASH && BACKSLASH !in path
    && forall i :: 0 <= i < |Parts(path)| ==> GoodPart(Parts(path)[i])
  }

  // How the platform reads a path: empty parts and inner "." vanish.
  function ComponentsOf(parts: seq<seq<byte>>, leading: bool): seq<Component> {
    if parts == [] then []
    else
      var rest := ComponentsOf(parts[1..], false);
      if parts[0] == [] then rest
      else if parts[0] == [DOT] then if leading then [CurDir] + rest else rest
      else if parts[0] == [DOT, DOT] then [ParentDir] + rest
      else [Normal(parts[0])] + rest
  }

  function Components(path: Path): seq<Component> {
    if path != [] && path[0] == SLASH then [RootDir] + ComponentsOf(Parts(path), false)
    else ComponentsOf(Parts(path), true)
  }

  predicate AllNormal(components: seq<Component>) {
    forall i :: 0 <= i < |components| ==> components[i].Normal?
  }

  method ValidateComponents(components: seq<Component>) returns (r: Result<()>)
    ensures r.Ok? <==> AllNormal(components)
  {
    var i := 0;
    while i < |components|
      invariant i <= |components| && AllNormal(components[..i])
    {
      if !components[i].Normal? {
        return Err(BadPath);
      }
      i := i + 1;
    }
    r := Ok(());
  }

  // Accepts exactly the valid paths; the component check behind the part
  // checks then never fails.
  method ValidateArchivePath(path: Path) returns (r: Result<seq<seq<byte>>>)
    ensures r.Ok? <==> ValidPath(path)
    ensures r.Ok? ==> r.value == Parts(path)
  {
    if path == [] || path[0] == SLASH || BACKSLASH in path {
      return Err(BadPath);
    }
    var parts := Split(path, SLASH);
    var i := 0;
    while i < |parts|
      invariant i <= |parts|
      invariant forall j :: 0 <= j < i ==> GoodPart(parts[j])
    {
      if parts[i] == [] || parts[i] == [DOT] || parts[i] == [DOT, DOT] {
        assert !GoodPart(Parts(path)[i]);
        return Err(BadPath);
      }
      i := i + 1;
    }
    GoodPartsAreNormal(parts, true);
    var checked := ValidateComponents(Components(path));
    if checked.Err? {
      return Err(BadPath);
    }
    r := Ok(parts);
  }

  lemma {:induction false} GoodPartsAreNormal(parts: seq<seq<byte>>, leading: bool)
    requires forall i :: 0 <= i < |parts| ==> GoodPart(parts[i])
    ensures AllNormal(ComponentsOf(parts, leading))
    ensures |ComponentsOf(parts, leading)| == |parts|
    ensures forall i :: 0 <= i < |parts| ==> ComponentsOf(parts, leading)[i] == Normal(parts[i])
  {
    if parts != [] {
      GoodPartsAreNormal(parts[1..], false);
    }
  }

  // --------------------------------------------------------- normalisation

  // What the platform guarantees of a normal component.
  predicate PlatformName(name: seq<byte>) {
    GoodPart(name) && SLASH !in name
  }

  function Names(components: seq<Component>): seq<seq<byte>>
    requires AllNormal(components)
  {
    seq(|components|, i requires 0 <= i < |components| => components[i].name)
  }

  // The stored path of a walked entry, relative to the parent of the input.
  function Normalized(utf8: seq<byte> -> bool, components: seq<Component>): Option<Path> {
    if components == [] || !AllNormal(components) then None
    else if exists i :: 0 <= i < |components| && !utf8(components[i].name) then None
    else Some(Join(Names(components), SLASH))
  }

  method NormalizeRelativePath(utf8: seq<byte> -> bool, components: seq<Component>) returns (r: Result<Path>)
    ensures r.Ok? <==> Normalized(utf8, components).Some?
    ensures r.Ok? ==> r.value == Normalized(utf8, components).value
  {
    var checked := ValidateComponents(components);
    if checked.Err? {
      return Err(checked.error);
    }
    var parts := [];
    var i := 0;
    while i < |components|
      invariant i <= |components| && parts == Names(components)[..i]
      invariant forall j :: 0 <= j < i ==> utf8(components[j].name)
    {
      if components[i].Normal? {
        if !utf8(components[i].name) {
          return Err(BadPath);
        }
        parts := parts + [components[i].name];
      }
      i := i + 1;
    }
    if parts == [] {
      return Err(BadPath);
    }
    assert parts == Names(components);
    r := Ok(Join(parts, SLASH));
  }

  // A stored path splits back into the names it was made of; it is a valid
  // archive path exactly when no name holds a backslash.
  lemma NormalizedIsValid(utf8: seq<byte> -> bool, components: seq<Component>)
    requires Normalized(utf8, components).Some?
    requires forall i :: 0 <= i < |components| ==> PlatformName(components[i].name)
    ensures var path := Normalized(utf8, components).value;
      && Parts(path) == Names(components)
      && (ValidPath(path) <==> BACKSLASH !in path)
      && path != [] && path[0] != SLASH
  {
    var names := Names(components);
    var path := Join(names, SLASH);
    SplitJoin(names, SLASH);
    assert GoodPart(names[0]) && SLASH !in names[0];
    assert path[0] == names[0][0];
    assert names[0][0] in names[0];
  }

  // ------------------------------------------------------------- path tree

  // No file is used as a parent directory.
  ghost predicate TreeConsistent(paths: set<Path>, filePaths: set<Path>) {
    forall path, depth: nat {:trigger Parts(path)[..depth]} ::
      path in paths && 1 <= depth < |Parts(path)| ==> Join(Parts(path)[..depth], SLASH) !in filePaths
  }

  ghost predicate ProperlyBelow(path: Path, ancestor: Path) {
    Parts(ancestor) < Parts(path)
  }

  // In terms of components: no file is a proper ancestor of a path.
  lemma TreeMeaning(paths: set<Path>, filePaths: set<Path>)
    ensures TreeConsistent(paths, filePaths)
      <==> forall path, f :: path in paths && f in filePaths ==> !ProperlyBelow(path, f)
  {
    if TreeConsistent(paths, filePaths) {
      forall path, f | path in paths && f in filePaths
        ensures !ProperlyBelow(path, f)
      {
        if ProperlyBelow(path, f) {
          var depth := |Parts(f)|;
          assert Parts(path)[..depth] == Parts(f);
          JoinSplit(f, SLASH);
        }
      }
    }
    if forall path, f :: path in paths && f in filePaths ==> !ProperlyBelow(path, f) {
      forall path, depth: nat | path in paths && 1 <= depth < |Parts(path)|
        ensures Join(Parts(path)[..depth], SLASH) !in filePaths
      {
        SplitPartsClean(path, SLASH);
        var parent := Join(Parts(path)[..depth], SLASH);
        SplitJoin(Parts(path)[..depth], SLASH);
        assert ProperlyBelow(path, parent);
      }
    }
  }

  method ValidatePathTree(paths: set<Path>, filePaths: set<Path>) returns (r: Result<()>)
    ensures r.Ok? <==> TreeConsistent(paths, filePaths)
  {
    var remaining := paths;
    while remaining != {}
      invariant remaining <= paths
      invariant TreeConsistent(paths - remaining, filePaths)
      decreases remaining
    {
      var path :| path in remaining;
      var parts := Split(path, SLASH);
      var depth := 1;
      while depth < |parts|
        invariant 1 <= depth <= |parts|
        invariant forall d: nat {:trigger parts[..d]} :: 1 <= d < depth ==> Join(parts[..d], SLASH) !in filePaths
      {
        var parent := Join(parts[..depth], SLASH);
        if parent in filePaths {
          assert parts == Parts(path) && Join(Parts(path)[..depth], SLASH) in filePaths;
          return Err(BadPath);
        }
        depth := depth + 1;
      }
      remaining := remaining - {path};
    }
    assert paths - remaining == paths;
    r := Ok(());
  }
}
