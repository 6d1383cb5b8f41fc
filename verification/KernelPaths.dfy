// Pathname resolution as the kernel does it (section 4.13 of the Base
// Definitions volume of POSIX.1-2017), over a filesystem that is a map from
// node numbers to nodes. Mounts are part of the tree: a mounted drive's root
// is simply the folder found at its mount point.

module KernelPaths {
  import opened Text

  type Name = string
  type Path = seq<Name>  // the names from "/", links and ".." already gone
  type Id = nat

  const ROOT: nat := 0

  // The most symbolic links followed in one resolution.
  const MAX_LINKS: nat := 40

  datatype Node =
    | Folder(owner: nat, group: nat, mode: bv16, parent: Id, entries: map<Name, Id>)
    | Link(target: string)
    | Other

  datatype Nodes = Nodes(root: Id, nodes: map<Id, Node>)

  predicate IsFolder(fs: Nodes, id: Id) {
    id in fs.nodes && fs.nodes[id].Folder?
  }

  // An account, and the groups it is in.
  datatype Account = Account(user: nat, groups: set<nat>)

  const OWNER_WRITE: bv16 := 0x80
  const GROUP_WRITE: bv16 := 0x10
  const OTHER_WRITE: bv16 := 0x02

  // File permissions as POSIX.1-2017 defines them (section 4.5 of the Base
  // Definitions volume): the class an account is in decides, the owner's
  // before the group's before that of others.
  predicate MayWrite(who: Account, node: Node) {
    node.Folder? && (
      if who.user == ROOT then true
      else if who.user == node.owner then node.mode & OWNER_WRITE != 0
      else if node.group in who.groups then node.mode & GROUP_WRITE != 0
      else node.mode & OTHER_WRITE != 0)
  }

  predicate MayChangeMode(who: Account, node: Node) {
    node.Folder? && (who.user == ROOT || who.user == node.owner)
  }

  ghost predicate OnlyRootMayChangeMode(node: Node) {
    forall who: Account :: MayChangeMode(who, node) ==> who.user == ROOT
  }

  // Of all accounts, in whatever groups, only root may write in the folder or
  // give itself the right to.
  ghost predicate OnlyRootMayChange(node: Node) {
    node.Folder? && OnlyRootMayChangeMode(node) && forall who: Account :: MayWrite(who, node) ==> who.user == ROOT
  }

  // Root owns the folder, and it has neither the group-write nor the
  // other-write bit (0o022).
  predicate Closed(node: Node): (closed: bool)
    ensures closed <==> OnlyRootMayChange(node)
  {
    ClosedFolder(node);
    node.Folder? && node.owner == ROOT && node.mode & 0x12 == 0
  }

  lemma ClosedFolder(node: Node)
    ensures node.Folder? && node.owner == ROOT && node.mode & 0x12 == 0 <==> OnlyRootMayChange(node)
  {
    if node.Folder? {
      assert node.mode & 0x12 == 0 <==> node.mode & GROUP_WRITE == 0 && node.mode & OTHER_WRITE == 0;
      var owner, member, other := Account(node.owner, {}), Account(node.owner + 1, {node.group}), Account(node.owner + 1, {});
      assert MayChangeMode(owner, node);
      assert node.mode & GROUP_WRITE != 0 ==> MayWrite(member, node);
      assert node.mode & OTHER_WRITE != 0 ==> MayWrite(other, node);
    }
  }

  predicate IsName(name: Name) {
    name != "" && name != "." && name != ".." && '/' !in name
  }

  // A tree: every entry exists, and a folder has one parent and one name.
  ghost predicate WellFormed(fs: Nodes) {
    && IsFolder(fs, fs.root)
    && fs.nodes[fs.root].parent == fs.root
    && forall id {:trigger TidyFolder(fs, id)} :: IsFolder(fs, id) ==> TidyFolder(fs, id)
  }

  ghost predicate TidyFolder(fs: Nodes, id: Id)
    requires IsFolder(fs, id)
  {
    var entries := fs.nodes[id].entries;
    && IsFolder(fs, fs.nodes[id].parent)
    && (forall name :: name in entries ==>
         && IsName(name)
         && entries[name] in fs.nodes
         && (fs.nodes[entries[name]].Folder? ==> entries[name] != fs.root && fs.nodes[entries[name]].parent == id))
    && (forall m, n :: m in entries && n in entries && entries[m] == entries[n] && fs.nodes[entries[m]].Folder? ==> m == n)
  }

  type Fs = fs: Nodes | WellFormed(fs) witness Nodes(0, map[0 := Folder(ROOT, 0, 0, 0, map[])])

  // How a resolution to a folder ends.
  datatype End = Arrived | Missing | TooManyLinks | NotAFolder

  // Every folder the resolution is in, in order, and how it ends.
  datatype Trace = Trace(visited: seq<Id>, end: End)

  function After(id: Id, rest: Trace): Trace {
    Trace([id] + rest.visited, rest.end)
  }

  // Resolves the names `pending` from folder `current`, following at most
  // `budget` links. An empty name (two slashes in a row) and "." stay where
  // they are; ".." goes to the parent, and from the root to the root.
  function Walk(fs: Fs, current: Id, pending: seq<string>, budget: nat): (trace: Trace)
    requires IsFolder(fs, current)
    ensures trace.visited != [] && trace.visited[0] == current
    ensures forall id :: id in trace.visited ==> IsFolder(fs, id)
    decreases budget, |pending|
  {
    if pending == [] then Trace([current], Arrived)
    else
      var name, rest := pending[0], pending[1..];
      assert TidyFolder(fs, current);
      if name == "" || name == "." then Walk(fs, current, rest, budget)
      else if name == ".." then After(current, Walk(fs, fs.nodes[current].parent, rest, budget))
      else if name !in fs.nodes[current].entries then Trace([current], Missing)
      else
        var next := fs.nodes[current].entries[name];
        match fs.nodes[next]
        case Folder(_, _, _, _, _) => After(current, Walk(fs, next, rest, budget))
        case Other => Trace([current], NotAFolder)
        case Link(target) =>
          if budget == 0 then Trace([current], TooManyLinks)
          else
            var from := if IsAbsolute(target) then fs.root else current;
            After(current, Walk(fs, from, Split(target, '/') + rest, budget - 1))
  }

  predicate IsAbsolute(path: string) {
    path != "" && path[0] == '/'
  }

  // The folder a resolution arrives at.
  function Reaches(fs: Fs, current: Id, pending: seq<string>, budget: nat): (folder: Option<Id>)
    requires IsFolder(fs, current)
    ensures folder.Some? ==> IsFolder(fs, folder.value)
  {
    var trace := Walk(fs, current, pending, budget);
    if trace.end == Arrived then Some(trace.visited[|trace.visited| - 1]) else None
  }

  // The folder the absolute path `path` names, or None.
  function FolderOf(fs: Fs, path: string): Option<Id>
  {
    Reaches(fs, fs.root, Split(path, '/'), MAX_LINKS)
  }

  // The node at the path of the names `names`, following every link but one
  // in the last place (lstat).
  function Lstat(fs: Fs, names: seq<string>): (node: Option<Id>)
    ensures node.Some? ==> node.value in fs.nodes
  {
    if names == [] then Some(fs.root)
    else
      var folder := Reaches(fs, fs.root, names[..|names| - 1], MAX_LINKS);
      if folder.None? then None
      else
        assert TidyFolder(fs, folder.value);
        Entry(fs, folder.value, names[|names| - 1])
  }

  function Entry(fs: Fs, folder: Id, name: string): Option<Id>
    requires IsFolder(fs, folder)
  {
    if name in fs.nodes[folder].entries then Some(fs.nodes[folder].entries[name]) else None
  }

  // `chain` are the folders the names of `path` lead through from the root,
  // with no link on the way.
  ghost predicate Direct(fs: Fs, chain: seq<Id>, path: Path) {
    && |chain| == |path| + 1
    && chain[0] == fs.root
    && (forall i :: 0 <= i < |chain| ==> IsFolder(fs, chain[i]))
    && (forall i {:trigger path[i]} :: 0 <= i < |path| ==> IsName(path[i]) && Entry(fs, chain[i], path[i]) == Some(chain[i + 1]))
  }

  // The folder `id` is at `path`.
  ghost predicate FolderAt(fs: Fs, path: Path, id: Id) {
    exists chain :: Direct(fs, chain, path) && chain[|path|] == id
  }

  // The steps of other accounts, any number of them. What they cannot do:
  // change the entries, owner or mode of a folder none of them may change,
  // change where a link leads, or turn a node into another kind. They may do
  // anything else: create nodes, change any other folder's entries, chown and
  // chmod what they own.
  ghost predicate Others(before: Fs, after: Fs) {
    && after.root == before.root
    && forall id :: id in before.nodes ==> id in after.nodes && Kept(before.nodes[id], after.nodes[id])
  }

  ghost predicate Kept(before: Node, after: Node) {
    match before
    case Folder(owner, group, mode, _, entries) =>
      && after.Folder?
      && (OnlyRootMayChangeMode(before) ==> after.owner == owner && after.group == group && after.mode == mode)
      && (OnlyRootMayChange(before) ==> after.entries == entries)
    case _ => after == before
  }

  // Others' steps compose, so a later filesystem is one more step away.
  lemma OthersCompose(a: Fs, b: Fs, c: Fs)
    requires Others(a, b) && Others(b, c)
    ensures Others(a, c)
  {
  }

  // Without links on the way, a resolution passes exactly the chain's folders
  // and needs no link budget.
  lemma {:induction false} WalkAlongChain(fs: Fs, chain: seq<Id>, path: Path, i: nat, budget: nat)
    requires Direct(fs, chain, path) && i <= |path|
    ensures Walk(fs, chain[i], path[i..], budget) == Trace(chain[i..], Arrived)
    decreases |path| - i
  {
    if i < |path| {
      WalkAlongChain(fs, chain, path, i + 1, budget);
      assert path[i..][0] == path[i] && path[i..][1..] == path[i + 1..];
      assert Entry(fs, chain[i], path[i]) == Some(chain[i + 1]);
      assert [chain[i]] + chain[i + 1..] == chain[i..];
    } else {
      assert path[i..] == [] && chain[i..] == [chain[i]];
    }
  }

  lemma ReachesChainEnd(fs: Fs, chain: seq<Id>, path: Path)
    requires Direct(fs, chain, path)
    ensures IsFolder(fs, fs.root) && Reaches(fs, fs.root, path, MAX_LINKS) == Some(chain[|path|])
  {
    hide Walk;
    WalkAlongChain(fs, chain, path, 0, MAX_LINKS);
    assert path[0..] == path && chain[0..] == chain;
  }

  lemma DirectParent(fs: Fs, chain: seq<Id>, path: Path)
    requires Direct(fs, chain, path) && path != []
    ensures Direct(fs, chain[..|path|], path[..|path| - 1])
    ensures Entry(fs, chain[|path| - 1], path[|path| - 1]) == Some(chain[|path|])
  {
  }

  // lstat of a name in the folder at the end of a chain looks there.
  lemma LstatAtChainEnd(fs: Fs, chain: seq<Id>, path: Path, name: Name)
    requires Direct(fs, chain, path)
    ensures Lstat(fs, path + [name]) == Entry(fs, chain[|path|], name)
    ensures Lstat(fs, path) == Some(chain[|path|])
  {
    ReachesChainEnd(fs, chain, path);
    assert (path + [name])[..|path|] == path;
    if path != [] {
      DirectParent(fs, chain, path);
      ReachesChainEnd(fs, chain[..|path|], path[..|path| - 1]);
    }
    hide Reaches;
  }

  // The last step of a chain leads from a folder to a child of its own.
  lemma LastStep(fs: Fs, chain: seq<Id>, path: Path)
    requires Direct(fs, chain, path) && path != []
    ensures chain[|path|] != fs.root && fs.nodes[chain[|path|]].parent == chain[|path| - 1]
    ensures Entry(fs, chain[|path| - 1], path[|path| - 1]) == Some(chain[|path|])
    ensures Direct(fs, chain[..|path|], path[..|path| - 1])
  {
    assert IsFolder(fs, chain[|path|]);
    assert TidyFolder(fs, chain[|path| - 1]);
    assert Entry(fs, chain[|path| - 1], path[|path| - 1]) == Some(chain[|path|]);
  }

  // A folder is at one path only, through one chain.
  lemma {:induction false} OnePath(fs: Fs, c1: seq<Id>, p1: Path, c2: seq<Id>, p2: Path)
    requires Direct(fs, c1, p1) && Direct(fs, c2, p2) && c1[|p1|] == c2[|p2|]
    ensures p1 == p2 && c1 == c2
    decreases |p1|
  {
    if p1 == [] {
      if p2 != [] {
        LastStep(fs, c2, p2);
      }
    } else {
      LastStep(fs, c1, p1);
      if p2 != [] {
        LastStep(fs, c2, p2);
        OnePath(fs, c1[..|p1|], p1[..|p1| - 1], c2[..|p2|], p2[..|p2| - 1]);
        OneName(fs, c1[|p1| - 1], p1[|p1| - 1], p2[|p2| - 1]);
        SnocEqual(p1, p2);
        SnocEqual(c1, c2);
      }
    }
  }

  lemma OneName(fs: Fs, folder: Id, m: Name, n: Name)
    requires IsFolder(fs, folder)
    requires Entry(fs, folder, m) == Entry(fs, folder, n) && Entry(fs, folder, m).Some?
    requires IsFolder(fs, Entry(fs, folder, m).value)
    ensures m == n
  {
    assert TidyFolder(fs, folder);
  }

  lemma SnocEqual<T>(a: seq<T>, b: seq<T>)
    requires a != [] && b != [] && a[..|a| - 1] == b[..|b| - 1] && a[|a| - 1] == b[|b| - 1]
    ensures a == b
  {
  }

  // The names a resolution acts on: empty names and "." leave it where it is.
  function Real(names: seq<string>): (kept: seq<string>)
    ensures forall name :: name in kept ==> name != "" && name != "." && name in names
    ensures |kept| <= |names|
  {
    if names == [] then []
    else if names[0] == "" || names[0] == "." then Real(names[1..])
    else [names[0]] + Real(names[1..])
  }

  lemma {:induction false} RealOfConcat(a: seq<string>, b: seq<string>)
    ensures Real(a + b) == Real(a) + Real(b)
  {
    if a == [] {
      assert a + b == b;
    } else {
      assert (a + b)[1..] == a[1..] + b;
      RealOfConcat(a[1..], b);
    }
  }

  lemma {:induction false} RealIsReal(names: seq<string>)
    requires forall name :: name in names ==> name != "" && name != "."
    ensures Real(names) == names
  {
    if names != [] {
      assert names[0] in names && forall name :: name in names[1..] ==> name in names;
      RealIsReal(names[1..]);
    }
  }

  // Leaving those names out changes nothing, in the path or in the targets
  // of the links on the way.
  lemma {:induction false} WalkOfReal(fs: Fs, current: Id, pending: seq<string>, budget: nat)
    requires IsFolder(fs, current)
    ensures Walk(fs, current, Real(pending), budget) == Walk(fs, current, pending, budget)
    decreases budget, |pending|
  {
    if pending != [] {
      var name, rest := pending[0], pending[1..];
      assert TidyFolder(fs, current);
      if name == "" || name == "." {
        WalkOfReal(fs, current, rest, budget);
      } else {
        assert Real(pending)[0] == name && Real(pending)[1..] == Real(rest);
        if name == ".." {
          WalkOfReal(fs, fs.nodes[current].parent, rest, budget);
        } else if name in fs.nodes[current].entries {
          var next := fs.nodes[current].entries[name];
          if fs.nodes[next].Folder? {
            WalkOfReal(fs, next, rest, budget);
          } else if fs.nodes[next].Link? && budget > 0 {
            var target := fs.nodes[next].target;
            var from := if IsAbsolute(target) then fs.root else current;
            WalkOfReal(fs, from, Split(target, '/') + rest, budget - 1);
            WalkOfReal(fs, from, Split(target, '/') + Real(rest), budget - 1);
            RealOfConcat(Split(target, '/'), rest);
            RealOfConcat(Split(target, '/'), Real(rest));
            RealIsReal(Real(rest));
          }
        }
      }
    }
  }
}
