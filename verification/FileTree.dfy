// An abstract, case-sensitive file system below the extraction directory.
module FileTree {
  import opened Bytes

  // A place below the output directory; the empty location is that directory.
  type Location = seq<seq<byte>>

  datatype Node = DirectoryNode | FileNode(content: seq<byte>)

  // q is an ancestor of p, or p itself.
  predicate Above(q: Location, p: Location) {
    q <= p
  }

  ghost predicate NoFileAbove(nodes: map<Location, Node>, p: Location) {
    forall q :: q in nodes && Above(q, p) ==> nodes[q].DirectoryNode?
  }

  // Directories made where nothing was, on the way to p.
  ghost predicate DirsAdded(before: map<Location, Node>, after: map<Location, Node>, p: Location) {
    && (forall q :: q in after <==> q in before || Above(q, p))
    && (forall q :: q in after ==> after[q] == if q in before then before[q] else DirectoryNode)
  }

  class Tree {
    var nodes: map<Location, Node>
    // Can the output directory be created where it is asked for?
    const creatable: bool

    constructor (creatable: bool)
      ensures nodes == map[] && this.creatable == creatable
    {
      nodes := map[];
      this.creatable := creatable;
    }

    predicate RootExists()
      reads this
    {
      [] in nodes
    }

    method CreateRoot() returns (r: Result<()>)
      modifies this
      ensures r.Ok? <==> creatable && !old(RootExists())
      ensures nodes == if r.Ok? then old(nodes)[[] := DirectoryNode] else old(nodes)
    {
      if !creatable || RootExists() {
        return Err(Error.Exists);
      }
      nodes := nodes[[] := DirectoryNode];
      r := Ok(());
    }

    // Creates every missing directory on the way to p, p included.
    method CreateDirAll(p: Location) returns (r: Result<()>)
      modifies this
      ensures r.Ok? <==> NoFileAbove(old(nodes), p)
      ensures r.Ok? ==> DirsAdded(old(nodes), nodes, p)
    {
      var k := 0;
      while k <= |p|
        invariant k <= |p| + 1
        invariant forall q :: q in nodes <==> q in old(nodes) || (Above(q, p) && |q| < k)
        invariant forall q :: q in nodes ==> nodes[q] == if q in old(nodes) then old(nodes)[q] else DirectoryNode
        invariant forall q :: q in old(nodes) && Above(q, p) && |q| < k ==> old(nodes)[q].DirectoryNode?
      {
        var q := p[..k];
        assert Above(q, p);
        forall other: Location | Above(other, p) && |other| == k
          ensures other == q
        {
        }
        if q in nodes && nodes[q].FileNode? {
          return Err(Error.Exists);
        }
        if q !in nodes {
          nodes := nodes[q := DirectoryNode];
        }
        k := k + 1;
      }
      r := Ok(());
    }

    // Creates an empty file; fails if the place is taken or has no directory.
    method CreateNew(p: Location) returns (r: Result<()>)
      requires p != []
      modifies this
      ensures var parent := p[..|p| - 1];
        r.Ok? <==> p !in old(nodes) && parent in old(nodes) && old(nodes)[parent].DirectoryNode?
      ensures nodes == if r.Ok? then old(nodes)[p := FileNode([])] else old(nodes)
    {
      var parent := p[..|p| - 1];
      if p in nodes || parent !in nodes || !nodes[parent].DirectoryNode? {
        return Err(Error.Exists);
      }
      nodes := nodes[p := FileNode([])];
      r := Ok(());
    }

    method Append(p: Location, b: seq<byte>)
      requires p in nodes && nodes[p].FileNode?
      modifies this
      ensures nodes == old(nodes)[p := FileNode(old(nodes)[p].content + b)]
    {
      nodes := nodes[p := FileNode(nodes[p].content + b)];
    }

    method RemoveFile(p: Location)
      modifies this
      ensures nodes == old(nodes) - {p}
    {
      nodes := nodes - {p};
    }

    method RemoveAll()
      modifies this
      ensures nodes == map[]
    {
      nodes := map[];
    }
  }
}
