/** Path resolution, and the operations that act on the directory a path names. */
module Vfs {
  import opened Machine
  import opened Paths

  datatype Operation = Create | Mkdir | Unlink

  /** The mounted tree as the callbacks of its nodes present it; a callback may be missing. */
  datatype FileSystem<!Node> = FileSystem(
    root: Option<Node>,
    hasFinddir: Node -> bool,
    finddir: (Node, string) -> Option<Node>,
    supports: (Operation, Node) -> bool)
  {
    function Lookup(node: Node, name: string): Option<Node> {
      if hasFinddir(node) then finddir(node, name) else None
    }

    /** Looks the names up one after the other, stopping at the first failure. */
    function Fold(node: Node, names: seq<string>): Option<Node> {
      if names == [] then Some(node)
      else
        match Lookup(node, names[0])
        case None => None
        case Some(next) => Fold(next, names[1..])
    }

    function Resolve(path: string): Option<Node> {
      if root.None? then None else Fold(root.value, Components(path))
    }

    /** The directory that `vfs_create`, `vfs_mkdir` and `vfs_unlink` work in: the root for a bare name. */
    function Directory(path: string): Option<Node> {
      if LastSlash(path) < 0 then root else Resolve(DirPart(path))
    }

    /** Directory and name that the three operations pass to the callback, if they call it. */
    function Target(op: Operation, path: string): Option<(Node, string)> {
      match Directory(path)
      case None => None
      case Some(dir) => if supports(op, dir) then Some((dir, NamePart(path))) else None
    }
  }

  // ----- the code

  /** One round of the outer loop: the next component into its buffer, and past the slash behind it. */
  method NextComponent(path: string, start: nat) returns (name: string, p: nat)
    requires start < |path|
    ensures start < p <= |path|
    ensures Walk(path[start..]) == [name] + Walk(path[p..])
  {
    var component := new char[NAME_MAX + 1];
    ghost var s := path[start..];
    p := start;
    var i := 0;
    while p < |path| && path[p] != '/' && i < NAME_MAX
      invariant 0 <= i <= NAME_MAX && p == start + i <= |path|
      invariant component[..i] == s[..i]
      invariant forall j :: 0 <= j < i ==> s[j] != '/'
    {
      component[i] := path[p];
      i := i + 1;
      p := p + 1;
    }
    name := component[..i];
    TakenIs(s, NAME_MAX, i);
    ghost var rest := s[i..];
    assert rest == path[p..];
    if p < |path| && path[p] == '/' {
      assert rest[1..] == path[p + 1..];
      p := p + 1;
    }
    assert path[p..] == SkipSlash(rest);
  }

  /** `path` holds the characters before the terminating null. */
  method ResolvePath<Node>(fs: FileSystem<Node>, path: string) returns (r: Option<Node>)
    ensures r == fs.Resolve(path)
  {
    if fs.root.None? {
      return None;
    }
    if path == "/" {
      assert Components(path) == [];
      return fs.root;
    }
    var current := fs.root.value;
    var p := 0;
    if path != "" && path[0] == '/' {
      p := 1;
    }
    assert path[p..] == SkipSlash(path);
    while p < |path|
      invariant 0 <= p <= |path|
      invariant fs.Resolve(path) == fs.Fold(current, Walk(path[p..]))
      decreases |path| - p
    {
      var name;
      name, p := NextComponent(path, p);
      if !fs.hasFinddir(current) {
        return None;
      }
      match fs.finddir(current, name) {
        case None => return None;
        case Some(next) => current := next;
      }
    }
    r := Some(current);
  }

  /** The scan for the last slash, -1 for none. */
  method FindLastSlash(path: string) returns (k: int)
    ensures k == LastSlash(path)
  {
    k := -1;
    for p := 0 to |path|
      invariant k == LastSlash(path[..p])
    {
      assert path[..p + 1][..p] == path[..p];
      if path[p] == '/' {
        k := p;
      }
    }
    assert path[..|path|] == path;
  }

  /** The copy of the directory part into its buffer, cut off at 255 characters. */
  method CopyDirectory(path: string, k: nat) returns (dir: string)
    requires k == LastSlash(path)
    ensures dir == DirPart(path) == path[..if k <= 255 then k else 255]
  {
    var dirPath := new char[DIR_MAX + 1];
    var dirLen := if k >= DIR_MAX + 1 then DIR_MAX else k;
    for i := 0 to dirLen
      invariant dirPath[..i] == path[..i]
    {
      dirPath[i] := path[i];
    }
    dir := dirPath[..dirLen];
  }

  /** The target, given the directory and the name. */
  lemma TargetIs<Node>(fs: FileSystem<Node>, op: Operation, path: string, dir: Option<Node>, name: string)
    requires dir == fs.Directory(path) && name == NamePart(path)
    ensures fs.Target(op, path)
            == if dir.Some? && fs.supports(op, dir.value) then Some((dir.value, name)) else None
  {
  }

  /** The node that at most 255 characters before the last slash resolve to; without a slash, the root. */
  ghost function Parent<Node>(fs: FileSystem<Node>, path: string): Option<Node> {
    var k := LastSlash(path);
    if k < 0 then fs.root else fs.Resolve(path[..if k <= 255 then k else 255])
  }

  lemma ParentIsDirectory<Node>(fs: FileSystem<Node>, path: string)
    ensures Parent(fs, path) == fs.Directory(path)
  {
    CutLength(path);
  }

  /**
   The callback gets that node and what is behind the last slash, or the whole path if there is no
   slash; it is called exactly if the node exists and has it.
   */
  lemma OperateExact<Node>(fs: FileSystem<Node>, op: Operation, path: string, dir: Option<Node>)
    requires dir == Parent(fs, path)
    ensures dir.None? ==> fs.Target(op, path) == None
    ensures dir.Some? && !fs.supports(op, dir.value) ==> fs.Target(op, path) == None
    ensures dir.Some? && fs.supports(op, dir.value) ==>
              fs.Target(op, path) == Some((dir.value, path[LastSlash(path) + 1..]))
  {
    ParentIsDirectory(fs, path);
    TargetIs(fs, op, path, dir, path[LastSlash(path) + 1..]);
  }

  lemma CutLength(path: string)
    ensures var k := LastSlash(path); k >= 0 ==> DirPart(path) == path[..if k <= 255 then k else 255]
  {
    var k := LastSlash(path);
    if k >= 0 {
      CutTo(path, k);
    }
  }

  lemma CutTo(path: string, k: nat)
    requires k <= |path|
    ensures Cut(path[..k]) == path[..if k <= 255 then k else 255]
  {
  }

  lemma BareName(path: string)
    requires LastSlash(path) < 0
    ensures NamePart(path) == path
  {
    FromStart(path, LastSlash(path) + 1);
  }

  /**
   The common body of `vfs_create`, `vfs_mkdir` and `vfs_unlink`: the call of the callback they
   make, or None where they return -1 without one.
   */
  method Operate<Node>(fs: FileSystem<Node>, op: Operation, path: string) returns (call: Option<(Node, string)>)
    ensures call == fs.Target(op, path)
    ensures match Parent(fs, path)
            case None => call == None
            case Some(dir) =>
              call == if fs.supports(op, dir) then Some((dir, path[LastSlash(path) + 1..])) else None
  {
    OperateExact(fs, op, path, Parent(fs, path));
    var k := FindLastSlash(path);
    if k < 0 {
      BareName(path);
      TargetIs(fs, op, path, fs.root, path);
      if fs.root.Some? && fs.supports(op, fs.root.value) {
        return Some((fs.root.value, path));
      }
      return None;
    }
    var dirPath := CopyDirectory(path, k);
    var dir := ResolvePath(fs, dirPath);
    TargetIs(fs, op, path, dir, path[k + 1..]);
    if dir.None? || !fs.supports(op, dir.value) {
      return None;
    }
    call := Some((dir.value, path[k + 1..]));
  }

  // ----- what resolution promises

  /** Each node has a finddir callback, which finds the next name in it as the next node. */
  ghost predicate Chain<Node>(fs: FileSystem<Node>, nodes: seq<Node>, names: seq<string>) {
    && |nodes| == |names| + 1
    && forall i :: 0 <= i < |names| ==> fs.hasFinddir(nodes[i]) && fs.finddir(nodes[i], names[i]) == Some(nodes[i + 1])
  }

  lemma {:induction false} ChainFolds<Node>(fs: FileSystem<Node>, nodes: seq<Node>, names: seq<string>)
    requires Chain(fs, nodes, names)
    ensures fs.Fold(nodes[0], names) == Some(nodes[|names|])
  {
    if names != [] {
      ChainFolds(fs, nodes[1..], names[1..]);
    }
  }

  lemma {:induction false} FoldChains<Node>(fs: FileSystem<Node>, node: Node, names: seq<string>)
    returns (nodes: seq<Node>)
    requires fs.Fold(node, names).Some?
    ensures Chain(fs, nodes, names) && nodes[0] == node && nodes[|names|] == fs.Fold(node, names).value
  {
    if names == [] {
      nodes := [node];
    } else {
      var rest := FoldChains(fs, fs.Lookup(node, names[0]).value, names[1..]);
      nodes := [node] + rest;
    }
  }

  lemma {:induction false} FoldStops<Node>(fs: FileSystem<Node>, nodes: seq<Node>, names: seq<string>, k: nat)
    requires k < |names| && Chain(fs, nodes, names[..k])
    requires !fs.hasFinddir(nodes[k]) || fs.finddir(nodes[k], names[k]).None?
    ensures fs.Fold(nodes[0], names) == None
    decreases k
  {
    if k > 0 {
      assert names[1..][..k - 1] == names[..k][1..];
      FoldStops(fs, nodes[1..], names[1..], k - 1);
    }
  }

  /** A path resolves to the end of a chain of callbacks along its components from the root. */
  lemma ResolveFollows<Node>(fs: FileSystem<Node>, path: string, nodes: seq<Node>)
    requires Chain(fs, nodes, Components(path)) && fs.root == Some(nodes[0])
    ensures fs.Resolve(path) == Some(nodes[|nodes| - 1])
  {
    ChainFolds(fs, nodes, Components(path));
  }

  /** And if it resolves to a node, there is such a chain to it. */
  lemma ResolveOnlyFollows<Node>(fs: FileSystem<Node>, path: string) returns (nodes: seq<Node>)
    requires fs.Resolve(path).Some?
    ensures Chain(fs, nodes, Components(path)) && fs.root == Some(nodes[0])
    ensures fs.Resolve(path) == Some(nodes[|nodes| - 1])
  {
    nodes := FoldChains(fs, fs.root.value, Components(path));
  }

  /** It resolves to nothing where a node on the way has no finddir, or does not find the next name. */
  lemma ResolveStops<Node>(fs: FileSystem<Node>, path: string, nodes: seq<Node>, k: nat)
    requires k < |Components(path)| && Chain(fs, nodes, Components(path)[..k]) && fs.root == Some(nodes[0])
    requires !fs.hasFinddir(nodes[k]) || fs.finddir(nodes[k], Components(path)[k]).None?
    ensures fs.Resolve(path) == None
  {
    FoldStops(fs, nodes, Components(path), k);
  }

  /**
   Names joined by slashes are looked up in turn from the root, for each of the four ways to write
   the path; a slash at an end is what an empty name there needs.
   */
  lemma ResolveJoined<Node>(fs: FileSystem<Node>, cs: seq<string>)
    requires fs.root.Some? && cs != [] && AllSlashFree(cs) && AllShort(cs)
    ensures cs[0] != "" && cs[|cs| - 1] != "" ==> fs.Resolve(Join(cs)) == fs.Fold(fs.root.value, cs)
    ensures cs[0] != "" ==> fs.Resolve(Join(cs) + "/") == fs.Fold(fs.root.value, cs)
    ensures cs[|cs| - 1] != "" ==> fs.Resolve("/" + Join(cs)) == fs.Fold(fs.root.value, cs)
    ensures fs.Resolve("/" + Join(cs) + "/") == fs.Fold(fs.root.value, cs)
  {
    ComponentsOfJoin(cs);
  }

  lemma {:induction false} FoldLast<Node>(fs: FileSystem<Node>, node: Node, names: seq<string>, name: string)
    ensures fs.Fold(node, names + [name])
            == match fs.Fold(node, names) case None => None case Some(n) => fs.Lookup(n, name)
  {
    if names == [] {
      assert names + [name] == [name];
    } else {
      assert (names + [name])[1..] == names[1..] + [name];
      if fs.Lookup(node, names[0]).Some? {
        FoldLast(fs, fs.Lookup(node, names[0]).value, names[1..], name);
      }
    }
  }

  lemma DirectoryFold<Node>(fs: FileSystem<Node>, path: string)
    requires fs.root.Some?
    ensures fs.Directory(path) == fs.Fold(fs.root.value, DirNames(path))
  {
  }

  /** At a safely split path, resolving ends with a lookup of the name in the directory. */
  lemma ResolveSplit<Node>(fs: FileSystem<Node>, path: string)
    requires SplitSafe(path)
    ensures fs.Resolve(path)
            == match fs.Directory(path) case None => None case Some(dir) => fs.Lookup(dir, NamePart(path))
  {
    SplitAgrees(path);
    if fs.root.Some? {
      DirectoryFold(fs, path);
      FoldLast(fs, fs.root.value, DirNames(path), NamePart(path));
    }
  }

  /**
   In any file system, what an operation is asked to act on at a safely split path is what the path
   resolves to: the directory and the name of the callback name the node of the whole path.
   */
  lemma ParentAgrees<Node>(fs: FileSystem<Node>, op: Operation, path: string)
    requires SplitSafe(path)
    ensures match fs.Target(op, path)
            case Some((dir, name)) => fs.Resolve(path) == fs.Lookup(dir, name)
            case None => fs.Directory(path).None? ==> fs.Resolve(path).None?
  {
    ResolveSplit(fs, path);
  }

  /** The file system in which every lookup succeeds and every node is the list of the names that led to it. */
  const FREE: FileSystem<seq<string>> :=
    FileSystem(Some([]), n => true, (n, name) => Some(n + [name]), (op, n) => true)

  lemma {:induction false} FreeFold(node: seq<string>, names: seq<string>)
    ensures FREE.Fold(node, names) == Some(node + names)
    decreases |names|
  {
    if names == [] {
      assert node + names == node;
    } else {
      FreeFold(node + [names[0]], names[1..]);
      assert node + [names[0]] + names[1..] == node + names;
    }
  }

  lemma FreeResolve(path: string)
    ensures FREE.Resolve(path) == Some(Components(path))
  {
    FreeFold([], Components(path));
    assert [] + Components(path) == Components(path);
  }

  lemma FreeDirectory(path: string)
    ensures FREE.Directory(path) == Some(DirNames(path))
  {
    if LastSlash(path) >= 0 {
      FreeResolve(DirPart(path));
    }
  }

  lemma FreeTarget(op: Operation, path: string)
    ensures FREE.Target(op, path) == Some((DirNames(path), NamePart(path)))
  {
    FreeDirectory(path);
  }

  lemma FreeLookup(node: seq<string>, name: string)
    ensures FREE.Lookup(node, name) == Some(node + [name])
  {
  }

  /** No weaker condition will do: where every lookup succeeds, callback and path agree only if it is met. */
  lemma ParentAgreesOnlyIfSafe(op: Operation, path: string)
    ensures match FREE.Target(op, path)
            case Some((dir, name)) => FREE.Resolve(path) == FREE.Lookup(dir, name) <==> SplitSafe(path)
            case None => false
  {
    FreeTarget(op, path);
    FreeResolve(path);
    FreeLookup(DirNames(path), NamePart(path));
    SplitAgrees(path);
  }
}
