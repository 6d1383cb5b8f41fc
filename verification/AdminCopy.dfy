// Whether a destination may be written as administrator: the check resolves
// its path one lookup at a time, judging every folder it passes, while other
// accounts go on changing what they can.
// (native/crates/ox-core/src/admin_copy.rs)

module AdminCopy {
  import opened Text
  import opened KernelPaths

  datatype Mount = Mount(id: nat, point: Path, filesystem: string, source: string, options: string)

  // The users' mounts: the drives an ordinary account may have put there, and
  // the places it may put one at.
  datatype Users = Users(couldBeUsers: Mount -> bool, points: seq<Path>)

  datatype Checks = Checks(mounts: seq<Mount>, users: Users)

  datatype Refusal = OthersCanChange | UsersCanMount | NotFolder | IsRoot

  const TRUSTED_FILESYSTEMS := ["ext2", "ext3", "ext4", "xfs", "btrfs", "f2fs", "bcachefs", "jfs", "zfs", "tmpfs",
                                "ramfs", "overlay"]

  const USER_MOUNT_FOLDERS: seq<Path> := [["media"], ["run", "media"]]

  // Where `path` is mounted: nothing on the way to it is mounted deeper, and
  // what was mounted later hides what was there before.
  function MountOf(path: Path, mounts: seq<Mount>): (found: Option<Mount>)
    ensures found.None? <==> forall m :: m in mounts ==> !(m.point <= path)
    ensures found.Some? ==> found.value in mounts && found.value.point <= path
    ensures found.Some? ==> forall m :: m in mounts && m.point <= path ==> m.point <= found.value.point
  {
    if mounts == [] then None
    else
      var last := mounts[|mounts| - 1];
      var best := MountOf(path, mounts[..|mounts| - 1]);
      assert forall m :: m in mounts ==> m == last || m in mounts[..|mounts| - 1];
      if last.point <= path && (best.None? || |best.value.point| <= |last.point|) then Some(last) else best
  }

  // Mount `i` is what is seen at `path`: of the mounts above it none is
  // deeper, and none as deep was mounted later.
  predicate IsOnTop(path: Path, mounts: seq<Mount>, i: nat)
    requires i < |mounts|
  {
    && mounts[i].point <= path
    && forall j | 0 <= j < |mounts| && mounts[j].point <= path ::
         |mounts[j].point| < |mounts[i].point| || (|mounts[j].point| == |mounts[i].point| && j <= i)
  }

  lemma {:induction false} MountOfIsOnTop(path: Path, mounts: seq<Mount>) returns (i: nat)
    requires MountOf(path, mounts).Some?
    ensures i < |mounts| && IsOnTop(path, mounts, i) && MountOf(path, mounts) == Some(mounts[i])
  {
    var rest, n := mounts[..|mounts| - 1], |mounts| - 1;
    if MountOf(path, rest).None? {
      assert forall j :: 0 <= j < n ==> rest[j] == mounts[j] && rest[j] in rest;
      i := n;
    } else {
      i := MountOfIsOnTop(path, rest);
      LaterOnTop(path, mounts, i);
      if mounts[n].point <= path && |mounts[i].point| <= |mounts[n].point| {
        i := n;
      }
    }
  }

  lemma LaterOnTop(path: Path, mounts: seq<Mount>, i: nat)
    requires mounts != [] && i < |mounts| - 1 && IsOnTop(path, mounts[..|mounts| - 1], i)
    ensures var n := |mounts| - 1;
      if mounts[n].point <= path && |mounts[i].point| <= |mounts[n].point| then IsOnTop(path, mounts, n)
      else IsOnTop(path, mounts, i)
  {
    var rest := mounts[..|mounts| - 1];
    assert forall j :: 0 <= j < |rest| ==> rest[j] == mounts[j];
  }

  lemma OneOnTop(path: Path, mounts: seq<Mount>, i: nat, j: nat)
    requires i < |mounts| && j < |mounts| && IsOnTop(path, mounts, i) && IsOnTop(path, mounts, j)
    ensures i == j
  {
  }

  predicate IsTrustedFilesystem(mount: Mount) {
    var options := Split(mount.options, ',');
    && mount.filesystem in TRUSTED_FILESYSTEMS
    && (mount.filesystem != "zfs" || "posixacl" in options || "noacl" in options)
    && !(exists folder | folder in USER_MOUNT_FOLDERS :: folder <= mount.point)
    && !("/dev/loop" <= mount.source)
  }

  // The refusal the mount table gives the folder at `path`.
  function MountVerdict(checks: Checks, path: Path): Option<Refusal> {
    match MountOf(path, checks.mounts)
    case None => Some(OthersCanChange)
    case Some(mount) =>
      if !IsTrustedFilesystem(mount) then Some(OthersCanChange)
      else if checks.users.couldBeUsers(mount) || (exists p | p in checks.users.points :: p <= path) then Some(UsersCanMount)
      else None
  }

  // Which filesystems are trusted, by the text of the mount table.
  lemma TrustedFilesystems(mount: Mount)
    ensures IsTrustedFilesystem(mount) <==>
      && mount.filesystem in TRUSTED_FILESYSTEMS
      && (mount.filesystem == "zfs" ==> IsPartOf("posixacl", mount.options, ',') || IsPartOf("noacl", mount.options, ','))
      && !(exists below: Path :: mount.point == ["media"] + below || mount.point == ["run", "media"] + below)
      && !(exists device: string :: mount.source == "/dev/loop" + device)
  {
    PartsAreBetween(mount.options, ',', "posixacl");
    PartsAreBetween(mount.options, ',', "noacl");
    hide Split, IsPartOf;
    UnderMedia(mount.point);
    assert "/dev/loop" <= mount.source <==> mount.source == "/dev/loop" + mount.source[if |mount.source| < 9 then |mount.source| else 9..];
  }

  lemma UnderMedia(point: Path)
    ensures (exists folder | folder in USER_MOUNT_FOLDERS :: folder <= point)
      <==> exists below: Path :: point == ["media"] + below || point == ["run", "media"] + below
  {
    var media, run: Path := ["media"], ["run", "media"];
    assert media in USER_MOUNT_FOLDERS && run in USER_MOUNT_FOLDERS;
    if folder :| folder in USER_MOUNT_FOLDERS && folder <= point {
      assert point == folder + point[|folder|..];
    }
    if below: Path :| point == media + below || point == run + below {
      assert media <= point || run <= point;
    }
  }

  // What the mount table says of a place: what is mounted on top there must be
  // a trusted filesystem, not a drive of a user's, and not below a place where
  // one may be mounted.
  lemma MountVerdictIs(checks: Checks, path: Path, i: nat)
    requires i < |checks.mounts| && IsOnTop(path, checks.mounts, i)
    ensures var mount := checks.mounts[i];
      var users := checks.users.couldBeUsers(mount) || exists p, below: Path :: p in checks.users.points && path == p + below;
      && (MountVerdict(checks, path) == Some(OthersCanChange) <==> !IsTrustedFilesystem(mount))
      && (MountVerdict(checks, path) == Some(UsersCanMount) <==> IsTrustedFilesystem(mount) && users)
      && (MountVerdict(checks, path) == None <==> IsTrustedFilesystem(mount) && !users)
  {
    var j := MountOfIsOnTop(path, checks.mounts);
    OneOnTop(path, checks.mounts, i, j);
    hide IsTrustedFilesystem, MountOf, IsOnTop;
    forall p | p in checks.users.points ensures p <= path <==> exists below: Path :: path == p + below {
      assert p <= path ==> path == p + path[|p|..];
    }
  }

  // The refusal of the folder at `path`, if it is not to be trusted
  // (`require_trusted`); one lookup.
  function RequireTrusted(fs: Fs, checks: Checks, path: Path): Option<Refusal>
  {
    match Lstat(fs, path)
    case None => Some(OthersCanChange)
    case Some(id) => if !Closed(fs.nodes[id]) then Some(OthersCanChange) else MountVerdict(checks, path)
  }

  predicate CanBeBelieved(checks: Checks, mount: Mount) {
    IsTrustedFilesystem(mount) && !checks.users.couldBeUsers(mount)
  }

  // Below `path` is a mount not to be believed, or a place for a user's own.
  predicate UsersMountsInside(checks: Checks, path: Path) {
    || (exists mount | mount in checks.mounts ::
          path <= mount.point && mount.point != path && !CanBeBelieved(checks, mount))
    || (exists p | p in checks.users.points :: path <= p)
  }

  // The steps a path takes from the root: its names and its ".."s.
  function Names(path: string): seq<string> {
    Real(Split(path, '/'))
  }

  function Parent(path: Path): Path {
    if path == [] then [] else path[..|path| - 1]
  }

  // The filesystems the lookups see: lookup number t sees run(t). Between two
  // lookups, and after the last, other accounts take any number of steps.
  ghost predicate IsRun(run: nat -> Fs) {
    forall t: nat :: OthersAct(run, t)
  }

  ghost predicate OthersAct(run: nat -> Fs, t: nat) {
    Others(run(t), run(t + 1))
  }

  ghost predicate Onward(run: nat -> Fs) {
    forall t: nat, u: nat :: t <= u ==> Others(run(t), run(u))
  }

  lemma RunGoesOnward(run: nat -> Fs)
    requires IsRun(run)
    ensures Onward(run)
  {
    hide Others;
    forall t: nat, u: nat | t <= u ensures Others(run(t), run(u)) {
      OthersBetween(run, t, u);
    }
  }

  lemma {:induction false} OthersBetween(run: nat -> Fs, t: nat, u: nat)
    requires IsRun(run) && t <= u
    ensures Others(run(t), run(u))
    decreases u
  {
    if t < u {
      OthersBetween(run, t, u - 1);
      assert OthersAct(run, u - 1);
      OthersCompose(run(t), run(u - 1), run(u));
    }
  }

  // How a resolution ends, and the number of its next lookup.
  datatype Outcome = Resolved(path: Path, at: nat) | Refused(refusal: Refusal)

  // What the loop of `resolve` still has to do, as a function.
  function ResolveFrom(checks: Checks, run: nat -> Fs, t: nat, reached: Path, pending: seq<string>, links: nat): Outcome
    requires links <= MAX_LINKS
    decreases MAX_LINKS - links, |pending|
  {
    if pending == [] then Resolved(reached, t)
    else
      var name, rest := pending[0], pending[1..];
      var next := reached + [name];
      if name == ".." then ResolveFrom(checks, run, t, Parent(reached), rest, links)
      else if name == "" || name == "." then ResolveFrom(checks, run, t, reached, rest, links)
      else
        match NodeAt(run(t), next)
        case None => Refused(OthersCanChange)
        case Some(Other) => Refused(NotFolder)
        case Some(Folder(_, _, _, _, _)) =>
          (match RequireTrusted(run(t + 1), checks, next)
           case Some(refusal) => Refused(refusal)
           case None => ResolveFrom(checks, run, t + 2, next, rest, links))
        case Some(Link(_)) =>
          (match NodeAt(run(t + 1), next)
           case Some(Link(target)) =>
             if links == MAX_LINKS then Refused(OthersCanChange)
             else ResolveFrom(checks, run, t + 2, if IsAbsolute(target) then [] else reached, Names(target) + rest, links + 1)
           case _ => Refused(OthersCanChange))
  }

  function NodeAt(fs: Fs, path: Path): Option<Node>
  {
    match Lstat(fs, path)
    case None => None
    case Some(id) => Some(fs.nodes[id])
  }

  // The first lookup judges "/" itself.
  function ResolveSpec(checks: Checks, run: nat -> Fs, path: string): Outcome
  {
    match RequireTrusted(run(0), checks, [])
    case Some(refusal) => Refused(refusal)
    case None => ResolveFrom(checks, run, 1, [], Names(path), 0)
  }

  // ---------------------------------------------------------------- safety

  // The folders of `chain` are at the names of `path`, one inside the other,
  // and nobody but root can change any of them.
  ghost predicate Secure(fs: Fs, checks: Checks, chain: seq<Id>, path: Path) {
    && Direct(fs, chain, path)
    && (forall i :: 0 <= i < |chain| ==> OnlyRootMayChange(fs.nodes[chain[i]]))
    && Placed(checks, path)
  }

  // Every folder on `path` is on a drive that can be believed.
  ghost predicate Placed(checks: Checks, path: Path) {
    MountVerdict(checks, path) == None && (path != [] ==> Placed(checks, Parent(path)))
  }

  lemma SecureStays(before: Fs, after: Fs, checks: Checks, chain: seq<Id>, path: Path)
    requires Secure(before, checks, chain, path) && Others(before, after)
    ensures Secure(after, checks, chain, path)
  {
  }

  lemma {:induction false} SecureParent(fs: Fs, checks: Checks, chain: seq<Id>, path: Path)
    requires Secure(fs, checks, chain, path) && path != []
    ensures Secure(fs, checks, chain[..|path|], Parent(path))
  {
    hide MountVerdict;
  }

  // A folder judged trusted inside a secure chain extends it.
  lemma {:induction false} SecureChild(fs: Fs, checks: Checks, chain: seq<Id>, path: Path, name: Name, child: Id)
    requires Secure(fs, checks, chain, path) && IsName(name)
    requires Entry(fs, chain[|path|], name) == Some(child) && IsFolder(fs, child)
    requires RequireTrusted(fs, checks, path + [name]) == None
    ensures Secure(fs, checks, chain + [child], path + [name])
  {
    LstatAtChainEnd(fs, chain, path, name);
    hide MountVerdict;
    assert Parent(path + [name]) == path;
    DirectChild(fs, chain, path, name, child);
  }

  lemma DirectChild(fs: Fs, chain: seq<Id>, path: Path, name: Name, child: Id)
    requires Direct(fs, chain, path) && IsName(name)
    requires Entry(fs, chain[|path|], name) == Some(child) && IsFolder(fs, child)
    ensures Direct(fs, chain + [child], path + [name])
  {
  }

  ghost predicate AreNames(pending: seq<string>) {
    forall name :: name in pending ==> name == ".." || IsName(name)
  }

  // The names of a path, as `components` gives them.
  lemma {:induction false} PartsHaveNoSlash(text: string)
    ensures forall part :: part in Split(text, '/') ==> '/' !in part
  {
    if text != "" {
      PartsHaveNoSlash(text[1..]);
      var rest := Split(text[1..], '/');
      assert rest[0] in rest;
      assert forall part :: part in rest[1..] ==> part in rest;
    }
  }

  lemma NamesAreNames(path: string)
    ensures AreNames(Names(path))
  {
    PartsHaveNoSlash(path);
  }

  // A folder at the end of a secure chain sends every later resolution the
  // same way: to the same child, or to where the same link leads.
  lemma SameStepLater(before: Fs, after: Fs, checks: Checks, chain: seq<Id>, path: Path, name: Name, child: Id)
    requires Others(before, after)
    requires Secure(before, checks, chain, path)
    requires Entry(before, chain[|path|], name) == Some(child)
    ensures Secure(after, checks, chain, path)
    ensures Entry(after, chain[|path|], name) == Some(child)
    ensures child in before.nodes && child in after.nodes
    ensures before.nodes[child].Folder? ==> after.nodes[child].Folder?
    ensures !before.nodes[child].Folder? ==> after.nodes[child] == before.nodes[child]
  {
    SecureStays(before, after, checks, chain, path);
    var folder := chain[|path|];
    assert TidyFolder(before, folder);
    assert OnlyRootMayChange(before.nodes[folder]) && Kept(before.nodes[folder], after.nodes[folder]);
    assert Kept(before.nodes[child], after.nodes[child]);
  }

  // Filtering a link's names before or after they are put in front of the
  // rest makes no difference.
  lemma WalkOfTarget(fs: Fs, from: Id, target: string, rest: seq<string>, budget: nat)
    requires IsFolder(fs, from)
    ensures Walk(fs, from, Names(target) + rest, budget) == Walk(fs, from, Split(target, '/') + rest, budget)
  {
    WalkOfReal(fs, from, Names(target) + rest, budget);
    WalkOfReal(fs, from, Split(target, '/') + rest, budget);
    RealOfConcat(Names(target), rest);
    RealOfConcat(Split(target, '/'), rest);
    RealIsReal(Names(target));
  }

  // What a resolution establishes for good, from any point of its loop on:
  // in the filesystem at its end and in every later one, the kernel's own
  // walk of what was pending ends in the last folder of a secure chain.
  ghost predicate Settled(checks: Checks, end: Fs, current: Id, pending: seq<string>, budget: nat, chain: seq<Id>, path: Path) {
    && Secure(end, checks, chain, path)
    && forall later: Fs :: Others(end, later) ==> ArrivesAt(later, current, pending, budget, chain[|path|])
  }

  ghost predicate ArrivesAt(fs: Fs, current: Id, pending: seq<string>, budget: nat, folder: Id) {
    IsFolder(fs, current) && Reaches(fs, current, pending, budget) == Some(folder)
  }

  lemma SettledAtEnd(checks: Checks, fs: Fs, chain: seq<Id>, path: Path, budget: nat)
    requires Secure(fs, checks, chain, path)
    ensures Settled(checks, fs, chain[|path|], [], budget, chain, path)
  {
  }

  // "..": the folder before it on the chain is its parent, for good.
  lemma SettledUp(checks: Checks, now: Fs, end: Fs, chain: seq<Id>, reached: Path,
                  rest: seq<string>, budget: nat, last: seq<Id>, path: Path)
    requires Others(now, end) && Secure(now, checks, chain, reached)
    requires Settled(checks, end, if reached == [] then chain[0] else chain[|reached| - 1], rest, budget, last, path)
    ensures Settled(checks, end, chain[|reached|], [".."] + rest, budget, last, path)
  {
    hide MountVerdict;
    forall later: Fs | Others(end, later)
      ensures ArrivesAt(later, chain[|reached|], [".."] + rest, budget, last[|path|])
    {
      OthersCompose(now, end, later);
      SecureStays(now, later, checks, chain, reached);
      if reached != [] {
        LastStep(later, chain, reached);
      }
      WalkUp(later, chain[|reached|], rest, budget);
    }
  }

  lemma WalkUp(fs: Fs, current: Id, rest: seq<string>, budget: nat)
    requires IsFolder(fs, current)
    ensures IsFolder(fs, fs.nodes[current].parent)
    ensures Reaches(fs, current, [".."] + rest, budget) == Reaches(fs, fs.nodes[current].parent, rest, budget)
  {
    assert TidyFolder(fs, current);
    assert ([".."] + rest)[1..] == rest;
  }

  // A name of a folder, or of a link: only root can replace it, so it leads to
  // the same place for good.
  lemma {:induction false} SettledThrough(checks: Checks, now: Fs, end: Fs, chain: seq<Id>, reached: Path, name: Name, child: Id,
                       rest: seq<string>, budget: nat, next: Id, pending': seq<string>, budget': nat,
                       last: seq<Id>, path: Path)
    requires Others(now, end) && Secure(now, checks, chain, reached) && IsName(name)
    requires Entry(now, chain[|reached|], name) == Some(child)
    requires IsFolder(now, child) ==> next == child && pending' == rest && budget' == budget
    requires !IsFolder(now, child) ==>
      && child in now.nodes && now.nodes[child].Link?
      && next == (if IsAbsolute(now.nodes[child].target) then now.root else chain[|reached|])
      && pending' == Names(now.nodes[child].target) + rest && budget == budget' + 1
    requires Settled(checks, end, next, pending', budget', last, path)
    ensures Settled(checks, end, chain[|reached|], [name] + rest, budget, last, path)
  {
    hide MountVerdict, Names;
    forall later: Fs | Others(end, later)
      ensures ArrivesAt(later, chain[|reached|], [name] + rest, budget, last[|path|])
    {
      OthersCompose(now, end, later);
      SameStepLater(now, later, checks, chain, reached, name, child);
      assert ArrivesAt(later, next, pending', budget', last[|path|]);
      if IsFolder(now, child) {
        WalkDown(later, chain[|reached|], name, rest, budget, child);
      } else {
        WalkThrough(later, chain[|reached|], name, rest, budget', child, next);
      }
    }
  }

  lemma WalkDown(fs: Fs, current: Id, name: Name, rest: seq<string>, budget: nat, child: Id)
    requires IsFolder(fs, current) && IsName(name) && Entry(fs, current, name) == Some(child) && IsFolder(fs, child)
    ensures Reaches(fs, current, [name] + rest, budget) == Reaches(fs, child, rest, budget)
  {
  }

  lemma WalkThrough(fs: Fs, current: Id, name: Name, rest: seq<string>, budget: nat, child: Id, next: Id)
    requires IsFolder(fs, current) && IsName(name) && Entry(fs, current, name) == Some(child)
    requires child in fs.nodes && fs.nodes[child].Link?
    requires next == if IsAbsolute(fs.nodes[child].target) then fs.root else current
    ensures Reaches(fs, current, [name] + rest, budget + 1)
         == Reaches(fs, next, Names(fs.nodes[child].target) + rest, budget)
  {
    assert ([name] + rest)[1..] == rest;
    WalkOfTarget(fs, next, fs.nodes[child].target, rest, budget);
  }

  // Whatever the other accounts do between the lookups and after the last
  // one, a resolution that is not refused is settled.
  lemma {:induction false} ResolveSettles(checks: Checks, run: nat -> Fs, t: nat, chain: seq<Id>, reached: Path,
                                          pending: seq<string>, links: nat) returns (end: seq<Id>)
    requires Onward(run) && links <= MAX_LINKS && AreNames(pending)
    requires Secure(run(t), checks, chain, reached)
    ensures var outcome := ResolveFrom(checks, run, t, reached, pending, links);
      outcome.Resolved? ==>
        && outcome.at >= t
        && Settled(checks, run(outcome.at), chain[|reached|], pending, MAX_LINKS - links, end, outcome.path)
    decreases MAX_LINKS - links, |pending|, 1
  {
    hide MountVerdict, RequireTrusted, Names, Settled, Others, OnlyRootMayChange, Reaches, Walk, NodeAt;
    end := chain;
    var outcome := ResolveFrom(checks, run, t, reached, pending, links);
    if pending == [] {
      SettledAtEnd(checks, run(t), chain, reached, MAX_LINKS - links);
    } else if outcome.Resolved? {
      var name, rest, budget := pending[0], pending[1..], MAX_LINKS - links;
      assert pending == [name] + rest;
      assert AreNames(rest) && (name == ".." || IsName(name)) by {
        assert name in pending && forall n :: n in rest ==> n in pending;
      }
      if name == ".." {
        if reached != [] {
          SecureParent(run(t), checks, chain, reached);
        }
        end := ResolveSettles(checks, run, t, if reached == [] then chain else chain[..|reached|], Parent(reached), rest, links);
        SettledUp(checks, run(t), run(outcome.at), chain, reached, rest, budget, end, outcome.path);
      } else {
        end := NameSettles(checks, run, t, chain, reached, name, rest, links);
      }
    }
  }

  // Looking a name up, and going where it leads.
  lemma {:induction false} NameSettles(checks: Checks, run: nat -> Fs, t: nat, chain: seq<Id>, reached: Path,
                                       name: Name, rest: seq<string>, links: nat) returns (end: seq<Id>)
    requires Onward(run) && links <= MAX_LINKS && AreNames(rest) && IsName(name)
    requires Secure(run(t), checks, chain, reached)
    ensures var outcome := ResolveFrom(checks, run, t, reached, [name] + rest, links);
      outcome.Resolved? ==>
        && outcome.at >= t
        && Settled(checks, run(outcome.at), chain[|reached|], [name] + rest, MAX_LINKS - links, end, outcome.path)
    decreases MAX_LINKS - links, |rest| + 1, 0
  {
    hide MountVerdict, RequireTrusted, Names, Settled, AreNames, ResolveFrom, Onward, Others, Reaches, Walk, Closed, OnlyRootMayChange;
    end := chain;
    var budget := MAX_LINKS - links;
    var outcome := ResolveFrom(checks, run, t, reached, [name] + rest, links);
    if outcome.Resolved? {
      var child := NameLeads(checks, run, t, chain, reached, name, rest, links);
      if run(t).nodes[child].Folder? {
        end := EnterSettles(checks, run, t, chain, reached, name, child, rest, links);
        OneLater(run, t, outcome.at);
        SettledThrough(checks, run(t), run(outcome.at), chain, reached, name, child, rest, budget,
                       child, rest, budget, end, outcome.path);
      } else {
        var target := run(t).nodes[child].target;
        end := FollowSettles(checks, run, t, chain, reached, rest, links, target);
        OneLater(run, t, outcome.at);
        SettledThrough(checks, run(t), run(outcome.at), chain, reached, name, child, rest, budget,
                       if IsAbsolute(target) then run(t).root else chain[|reached|], Names(target) + rest, budget - 1,
                       end, outcome.path);
      }
    }
  }

  // The second lookup finds what the first did.
  lemma {:induction false} NameLeads(checks: Checks, run: nat -> Fs, t: nat, chain: seq<Id>, reached: Path,
                  name: Name, rest: seq<string>, links: nat) returns (child: Id)
    requires Onward(run) && links <= MAX_LINKS && IsName(name)
    requires Secure(run(t), checks, chain, reached)
    requires ResolveFrom(checks, run, t, reached, [name] + rest, links).Resolved?
    ensures Secure(run(t + 1), checks, chain, reached) && run(t + 1).root == run(t).root
    ensures Entry(run(t), chain[|reached|], name) == Entry(run(t + 1), chain[|reached|], name) == Some(child)
    ensures child in run(t).nodes && child in run(t + 1).nodes
    ensures var outcome := ResolveFrom(checks, run, t, reached, [name] + rest, links);
      if run(t).nodes[child].Folder? then
        && IsFolder(run(t + 1), child) && RequireTrusted(run(t + 1), checks, reached + [name]) == None
        && outcome == ResolveFrom(checks, run, t + 2, reached + [name], rest, links)
      else
        && links < MAX_LINKS && run(t).nodes[child].Link?
        && var target := run(t).nodes[child].target;
           outcome == ResolveFrom(checks, run, t + 2, if IsAbsolute(target) then [] else reached, Names(target) + rest, links + 1)
  {
    hide MountVerdict, RequireTrusted, Names, ResolveFrom, Onward, Reaches, Walk, Closed, OnlyRootMayChange;
    OneLater(run, t, t + 1);
    LstatAtChainEnd(run(t), chain, reached, name);
    ResolveOfName(checks, run, t, reached, name, rest, links);
    child := Entry(run(t), chain[|reached|], name).value;
    SameStepLater(run(t), run(t + 1), checks, chain, reached, name, child);
    LstatAtChainEnd(run(t + 1), chain, reached, name);
  }

  lemma NamesThenNames(target: string, rest: seq<string>)
    requires AreNames(Names(target)) && AreNames(rest)
    ensures AreNames(Names(target) + rest)
  {
  }

  lemma OneLater(run: nat -> Fs, t: nat, u: nat)
    requires Onward(run) && t <= u
    ensures Others(run(t), run(u))
  {
  }

  // A resolution that goes through a name found a folder there, or twice the
  // same link.
  lemma {:induction false} ResolveOfName(checks: Checks, run: nat -> Fs, t: nat, reached: Path, name: Name, rest: seq<string>, links: nat)
    requires links <= MAX_LINKS && IsName(name)
    requires ResolveFrom(checks, run, t, reached, [name] + rest, links).Resolved?
    ensures var outcome, next := ResolveFrom(checks, run, t, reached, [name] + rest, links), reached + [name];
      var first, second := NodeAt(run(t), next), NodeAt(run(t + 1), next);
      && first.Some? && (first.value.Folder? || first.value.Link?)
      && (first.value.Folder? ==>
            && RequireTrusted(run(t + 1), checks, next) == None
            && outcome == ResolveFrom(checks, run, t + 2, next, rest, links))
      && (first.value.Link? ==>
            && links < MAX_LINKS && second.Some? && second.value.Link?
            && var target := second.value.target;
               outcome == ResolveFrom(checks, run, t + 2, if IsAbsolute(target) then [] else reached, Names(target) + rest, links + 1))
  {
    hide NodeAt, RequireTrusted, Names;
    assert ([name] + rest)[1..] == rest;
  }

  // Entering a folder that was judged trusted one lookup after it was seen.
  lemma {:induction false} EnterSettles(checks: Checks, run: nat -> Fs, t: nat, chain: seq<Id>, reached: Path,
                                        name: Name, child: Id, rest: seq<string>, links: nat) returns (end: seq<Id>)
    requires Onward(run) && links <= MAX_LINKS && AreNames(rest) && IsName(name)
    requires Secure(run(t + 1), checks, chain, reached)
    requires Entry(run(t + 1), chain[|reached|], name) == Some(child) && IsFolder(run(t + 1), child)
    requires RequireTrusted(run(t + 1), checks, reached + [name]) == None
    ensures var outcome := ResolveFrom(checks, run, t + 2, reached + [name], rest, links);
      outcome.Resolved? ==>
        && outcome.at >= t + 2
        && Settled(checks, run(outcome.at), child, rest, MAX_LINKS - links, end, outcome.path)
    decreases MAX_LINKS - links, |rest|, 2
  {
    hide MountVerdict, RequireTrusted, Settled, ResolveFrom;
    SecureChild(run(t + 1), checks, chain, reached, name, child);
    SecureStays(run(t + 1), run(t + 2), checks, chain + [child], reached + [name]);
    end := ResolveSettles(checks, run, t + 2, chain + [child], reached + [name], rest, links);
  }

  // Following a link's target, from the root or from the folder holding it.
  lemma {:induction false} FollowSettles(checks: Checks, run: nat -> Fs, t: nat, chain: seq<Id>, reached: Path,
                                         rest: seq<string>, links: nat, target: string) returns (end: seq<Id>)
    requires Onward(run) && links < MAX_LINKS && AreNames(rest)
    requires Secure(run(t + 1), checks, chain, reached)
    ensures var from := if IsAbsolute(target) then [] else reached;
      var outcome := ResolveFrom(checks, run, t + 2, from, Names(target) + rest, links + 1);
      outcome.Resolved? ==>
        && outcome.at >= t + 2
        && Settled(checks, run(outcome.at), if IsAbsolute(target) then chain[0] else chain[|reached|],
                   Names(target) + rest, MAX_LINKS - links - 1, end, outcome.path)
    decreases MAX_LINKS - links, 0
  {
    hide MountVerdict, RequireTrusted, Names, Settled, ResolveFrom, Onward, Others, Closed, OnlyRootMayChange, Reaches, Walk;
    NamesAreNames(target);
    NamesThenNames(target, rest);
    OneLater(run, t + 1, t + 2);
    hide AreNames;
    SecureStays(run(t + 1), run(t + 2), checks, chain, reached);
    if IsAbsolute(target) {
      SecureRoot(run(t + 2), checks, chain, reached);
      end := ResolveSettles(checks, run, t + 2, chain[..1], [], Names(target) + rest, links + 1);
    } else {
      end := ResolveSettles(checks, run, t + 2, chain, reached, Names(target) + rest, links + 1);
    }
  }

  lemma {:induction false} SecureRoot(fs: Fs, checks: Checks, chain: seq<Id>, path: Path)
    requires Secure(fs, checks, chain, path)
    ensures Secure(fs, checks, chain[..1], [])
  {
    hide MountVerdict;
    if path == [] {
      assert chain[..1] == chain;
    } else {
      SecureParent(fs, checks, chain, path);
      SecureRoot(fs, checks, chain[..|path|], Parent(path));
      assert chain[..|path|][..1] == chain[..1];
    }
  }

  // ------------------------------------------------ refinement of the kernel

  // What a folder's owner, mode and place say about it.
  ghost function FolderVerdict(fs: Fs, checks: Checks, path: Path, id: Id): Option<Refusal>
    requires IsFolder(fs, id)
  {
    if !OnlyRootMayChange(fs.nodes[id]) then Some(OthersCanChange) else MountVerdict(checks, path)
  }

  ghost predicate HasVerdict(fs: Fs, checks: Checks, id: Id, verdict: Option<Refusal>) {
    exists path :: FolderAt(fs, path, id) && IsFolder(fs, id) && FolderVerdict(fs, checks, path, id) == verdict
  }

  // The refusal for a resolution that does not arrive.
  function EndRefusal(end: End): Refusal
    requires end != Arrived
  {
    if end == NotAFolder then NotFolder else OthersCanChange
  }

  // What the check ought to say of the kernel's own resolution `trace` on a
  // filesystem at rest: the refusal of the first folder on it that is not to
  // be trusted; otherwise, when it does not arrive, the refusal for that;
  // otherwise the path of the folder it arrives at.
  ghost predicate Judged(fs: Fs, checks: Checks, trace: Trace, outcome: Outcome)
    requires trace.visited != []
  {
    match outcome
    case Resolved(path, _) =>
      && trace.end == Arrived
      && FolderAt(fs, path, trace.visited[|trace.visited| - 1])
      && forall id :: id in trace.visited ==> HasVerdict(fs, checks, id, None)
    case Refused(refusal) =>
      || RefusedAtEnd(fs, checks, trace, refusal)
      || exists k | 0 <= k < |trace.visited| :: RefusedAt(fs, checks, trace.visited, k, refusal)
  }

  ghost predicate RefusedAtEnd(fs: Fs, checks: Checks, trace: Trace, refusal: Refusal) {
    && trace.end != Arrived && refusal == EndRefusal(trace.end)
    && forall id :: id in trace.visited ==> HasVerdict(fs, checks, id, None)
  }

  ghost predicate RefusedAt(fs: Fs, checks: Checks, visited: seq<Id>, k: nat, refusal: Refusal)
    requires k < |visited|
  {
    && HasVerdict(fs, checks, visited[k], Some(refusal))
    && forall i :: 0 <= i < k ==> HasVerdict(fs, checks, visited[i], None)
  }

  // A folder has one verdict, so a resolution is judged in one way only.
  lemma {:induction false} OneVerdict(fs: Fs, checks: Checks, id: Id, v: Option<Refusal>, w: Option<Refusal>)
    requires HasVerdict(fs, checks, id, v) && HasVerdict(fs, checks, id, w)
    ensures v == w
  {
    hide MountVerdict;
    var p :| FolderAt(fs, p, id) && FolderVerdict(fs, checks, p, id) == v;
    var q :| FolderAt(fs, q, id) && FolderVerdict(fs, checks, q, id) == w;
    SamePlace(fs, id, p, q);
  }

  lemma SamePlace(fs: Fs, id: Id, p: Path, q: Path)
    requires FolderAt(fs, p, id) && FolderAt(fs, q, id)
    ensures p == q
  {
    var c :| Direct(fs, c, p) && c[|p|] == id;
    var d :| Direct(fs, d, q) && d[|q|] == id;
    OnePath(fs, c, p, d, q);
  }

  lemma JudgedOneWay(fs: Fs, checks: Checks, trace: Trace, a: Outcome, b: Outcome)
    requires trace.visited != [] && Judged(fs, checks, trace, a) && Judged(fs, checks, trace, b)
    ensures a.Resolved? == b.Resolved?
    ensures a.Resolved? ==> a.path == b.path
    ensures a.Refused? ==> a == b
  {
    hide HasVerdict, FolderAt;
    var visited := trace.visited;
    if a.Resolved? && b.Resolved? {
      SamePlace(fs, visited[|visited| - 1], a.path, b.path);
    } else if a.Refused? && b.Refused? {
      if RefusedAtEnd(fs, checks, trace, a.refusal) {
        NotRefusedAt(fs, checks, visited, b.refusal);
      } else if RefusedAtEnd(fs, checks, trace, b.refusal) {
        NotRefusedAt(fs, checks, visited, a.refusal);
      } else {
        var j :| 0 <= j < |visited| && RefusedAt(fs, checks, visited, j, a.refusal);
        var k :| 0 <= k < |visited| && RefusedAt(fs, checks, visited, k, b.refusal);
        if j < k {
          OneVerdict(fs, checks, visited[j], None, Some(a.refusal));
        } else if k < j {
          OneVerdict(fs, checks, visited[k], None, Some(b.refusal));
        } else {
          OneVerdict(fs, checks, visited[j], Some(a.refusal), Some(b.refusal));
        }
      }
    } else {
      NotRefusedAt(fs, checks, visited, if a.Refused? then a.refusal else b.refusal);
    }
  }

  lemma NotRefusedAt(fs: Fs, checks: Checks, visited: seq<Id>, refusal: Refusal)
    requires forall id :: id in visited ==> HasVerdict(fs, checks, id, None)
    ensures forall k | 0 <= k < |visited| :: !RefusedAt(fs, checks, visited, k, refusal)
  {
    hide HasVerdict;
    forall k | 0 <= k < |visited| ensures !RefusedAt(fs, checks, visited, k, refusal) {
      if RefusedAt(fs, checks, visited, k, refusal) {
        OneVerdict(fs, checks, visited[k], None, Some(refusal));
      }
    }
  }

  // A trusted folder in front of a resolution does not change how it is judged.
  lemma {:induction false} JudgedAfter(fs: Fs, checks: Checks, id: Id, rest: Trace, outcome: Outcome)
    requires rest.visited != [] && Judged(fs, checks, rest, outcome) && HasVerdict(fs, checks, id, None)
    ensures Judged(fs, checks, After(id, rest), outcome)
  {
    hide HasVerdict, FolderAt;
    var visited := After(id, rest).visited;
    if outcome.Refused? && !RefusedAtEnd(fs, checks, rest, outcome.refusal) {
      var k :| 0 <= k < |rest.visited| && RefusedAt(fs, checks, rest.visited, k, outcome.refusal);
      forall i | 0 <= i < k + 1 ensures HasVerdict(fs, checks, visited[i], None) {
        assert i == 0 || visited[i] == rest.visited[i - 1];
      }
      assert RefusedAt(fs, checks, visited, k + 1, outcome.refusal);
    } else {
      assert forall x :: x in visited ==> x == id || x in rest.visited;
    }
  }

  // The folders of a secure chain are trusted.
  lemma SecureVerdict(fs: Fs, checks: Checks, chain: seq<Id>, path: Path)
    requires Secure(fs, checks, chain, path)
    ensures HasVerdict(fs, checks, chain[|path|], None)
  {
    hide MountVerdict;
    assert FolderAt(fs, path, chain[|path|]);
  }

  // On a filesystem at rest, a resolution judges the kernel's own walk.
  lemma {:induction false} ResolveJudges(checks: Checks, run: nat -> Fs, fs: Fs, t: nat, chain: seq<Id>, reached: Path,
                                         pending: seq<string>, links: nat)
    requires (forall u: nat :: run(u) == fs) && links <= MAX_LINKS && AreNames(pending)
    requires Secure(fs, checks, chain, reached)
    ensures Judged(fs, checks, Walk(fs, chain[|reached|], pending, MAX_LINKS - links),
                   ResolveFrom(checks, run, t, reached, pending, links))
    decreases MAX_LINKS - links, |pending|, 0
  {
    hide MountVerdict, RequireTrusted, Names, HasVerdict, Secure, Judged;
    SecureIsDirect(fs, checks, chain, reached);
    SecureVerdict(fs, checks, chain, reached);
    var current := chain[|reached|];
    if pending == [] {
      JudgedArrival(fs, checks, chain, reached, t);
    } else {
      var name, rest, budget := pending[0], pending[1..], MAX_LINKS - links;
      assert AreNames(rest) && (name == ".." || IsName(name)) by {
        assert name in pending && forall n :: n in rest ==> n in pending;
      }
      if name == ".." {
        UpJudges(checks, run, fs, t, chain, reached, rest, links);
      } else {
        LstatAtChainEnd(fs, chain, reached, name);
        assert TidyFolder(fs, current);
        if name in fs.nodes[current].entries {
          var child := fs.nodes[current].entries[name];
          if fs.nodes[child].Folder? {
            EnterJudges(checks, run, fs, t, chain, reached, name, child, rest, links);
          } else if fs.nodes[child].Link? && links < MAX_LINKS {
            FollowJudges(checks, run, fs, t, chain, reached, fs.nodes[child].target, rest, links);
          } else {
            JudgedEnd(fs, checks, current, if fs.nodes[child].Link? then TooManyLinks else NotAFolder);
          }
        } else {
          JudgedEnd(fs, checks, current, Missing);
        }
      }
    }
  }

  lemma JudgedArrival(fs: Fs, checks: Checks, chain: seq<Id>, path: Path, at: nat)
    requires Direct(fs, chain, path) && HasVerdict(fs, checks, chain[|path|], None)
    ensures Judged(fs, checks, Trace([chain[|path|]], Arrived), Resolved(path, at))
  {
  }

  lemma JudgedEnd(fs: Fs, checks: Checks, id: Id, end: End)
    requires HasVerdict(fs, checks, id, None) && end != Arrived
    ensures Judged(fs, checks, Trace([id], end), Refused(EndRefusal(end)))
  {
  }

  lemma {:induction false} UpJudges(checks: Checks, run: nat -> Fs, fs: Fs, t: nat, chain: seq<Id>, reached: Path,
                                    rest: seq<string>, links: nat)
    requires (forall u: nat :: run(u) == fs) && links <= MAX_LINKS && AreNames(rest)
    requires Secure(fs, checks, chain, reached)
    ensures IsFolder(fs, chain[|reached|]) && IsFolder(fs, fs.nodes[chain[|reached|]].parent)
    ensures Judged(fs, checks,
                   After(chain[|reached|], Walk(fs, fs.nodes[chain[|reached|]].parent, rest, MAX_LINKS - links)),
                   ResolveFrom(checks, run, t, Parent(reached), rest, links))
    decreases MAX_LINKS - links, |rest|, 1
  {
    hide MountVerdict, HasVerdict, Secure, ResolveFrom, Walk, Judged;
    SecureIsDirect(fs, checks, chain, reached);
    SecureVerdict(fs, checks, chain, reached);
    var current := chain[|reached|];
    assert TidyFolder(fs, current);
    var up := if reached == [] then chain else chain[..|reached|];
    if reached != [] {
      SecureParent(fs, checks, chain, reached);
      LastStep(fs, chain, reached);
    }
    ResolveJudges(checks, run, fs, t, up, Parent(reached), rest, links);
    JudgedAfter(fs, checks, current, Walk(fs, fs.nodes[current].parent, rest, MAX_LINKS - links),
                ResolveFrom(checks, run, t, Parent(reached), rest, links));
  }

  lemma SecureIsDirect(fs: Fs, checks: Checks, chain: seq<Id>, path: Path)
    requires Secure(fs, checks, chain, path)
    ensures Direct(fs, chain, path)
  {
  }

  lemma {:induction false} EnterJudges(checks: Checks, run: nat -> Fs, fs: Fs, t: nat, chain: seq<Id>, reached: Path,
                                       name: Name, child: Id, rest: seq<string>, links: nat)
    requires (forall u: nat :: run(u) == fs) && links <= MAX_LINKS && AreNames(rest) && IsName(name)
    requires Secure(fs, checks, chain, reached)
    requires Entry(fs, chain[|reached|], name) == Some(child) && IsFolder(fs, child)
    ensures var verdict := RequireTrusted(fs, checks, reached + [name]);
      var outcome := if verdict.Some? then Refused(verdict.value) else ResolveFrom(checks, run, t + 2, reached + [name], rest, links);
      Judged(fs, checks, After(chain[|reached|], Walk(fs, child, rest, MAX_LINKS - links)), outcome)
    decreases MAX_LINKS - links, |rest|, 1
  {
    hide MountVerdict, HasVerdict, Secure, ResolveFrom, Walk;
    SecureIsDirect(fs, checks, chain, reached);
    SecureVerdict(fs, checks, chain, reached);
    LstatAtChainEnd(fs, chain, reached, name);
    var verdict, trace := RequireTrusted(fs, checks, reached + [name]), Walk(fs, child, rest, MAX_LINKS - links);
    if verdict.Some? {
      DirectChild(fs, chain, reached, name, child);
      VerdictOfChild(fs, checks, chain + [child], reached + [name]);
      assert RefusedAt(fs, checks, trace.visited, 0, verdict.value);
      JudgedAfter(fs, checks, chain[|reached|], trace, Refused(verdict.value));
    } else {
      SecureChild(fs, checks, chain, reached, name, child);
      ResolveJudges(checks, run, fs, t + 2, chain + [child], reached + [name], rest, links);
      JudgedAfter(fs, checks, chain[|reached|], trace, ResolveFrom(checks, run, t + 2, reached + [name], rest, links));
    }
  }

  lemma VerdictOfChild(fs: Fs, checks: Checks, chain: seq<Id>, path: Path)
    requires Direct(fs, chain, path)
    ensures HasVerdict(fs, checks, chain[|path|], FolderVerdict(fs, checks, path, chain[|path|]))
  {
  }

  lemma {:induction false} FollowJudges(checks: Checks, run: nat -> Fs, fs: Fs, t: nat, chain: seq<Id>, reached: Path,
                                        target: string, rest: seq<string>, links: nat)
    requires (forall u: nat :: run(u) == fs) && links < MAX_LINKS && AreNames(rest)
    requires Secure(fs, checks, chain, reached)
    ensures IsFolder(fs, chain[|reached|])
    ensures var from := if IsAbsolute(target) then fs.root else chain[|reached|];
      var outcome := ResolveFrom(checks, run, t + 2, if IsAbsolute(target) then [] else reached, Names(target) + rest, links + 1);
      Judged(fs, checks, After(chain[|reached|], Walk(fs, from, Split(target, '/') + rest, MAX_LINKS - links - 1)), outcome)
    decreases MAX_LINKS - links, 0
  {
    hide MountVerdict, HasVerdict, ResolveFrom, Walk, Judged;
    SecureVerdict(fs, checks, chain, reached);
    NamesAreNames(target);
    var from, start := if IsAbsolute(target) then [] else reached, if IsAbsolute(target) then chain[..1] else chain;
    if IsAbsolute(target) {
      SecureRoot(fs, checks, chain, reached);
    }
    ResolveJudges(checks, run, fs, t + 2, start, from, Names(target) + rest, links + 1);
    WalkOfTarget(fs, start[|from|], target, rest, MAX_LINKS - links - 1);
    JudgedAfter(fs, checks, chain[|reached|], Walk(fs, start[|from|], Split(target, '/') + rest, MAX_LINKS - links - 1),
                ResolveFrom(checks, run, t + 2, from, Names(target) + rest, links + 1));
  }

  // ------------------------------------------------------------ main results

  ghost predicate AtRest(run: nat -> Fs, fs: Fs) {
    forall t: nat :: run(t) == fs
  }

  // In the filesystem `end` and whatever the other accounts make of it later:
  // the kernel reaches, from the original `path`, the folder at `resolved`;
  // it reaches it from `resolved` through the same folders as ever, without
  // following a link; and nobody but root can change any of them.
  ghost predicate SafeForGood(checks: Checks, end: Fs, path: string, resolved: Path) {
    exists chain :: LeadsThereForGood(checks, end, path, resolved, chain)
  }

  ghost predicate LeadsThereForGood(checks: Checks, end: Fs, path: string, resolved: Path, chain: seq<Id>) {
    forall later: Fs :: Others(end, later) ==> LeadsTo(later, checks, path, resolved, chain)
  }

  ghost predicate LeadsTo(fs: Fs, checks: Checks, path: string, resolved: Path, chain: seq<Id>) {
    && Secure(fs, checks, chain, resolved)
    && FolderOf(fs, path) == Some(chain[|resolved|])
    && Walk(fs, fs.root, resolved, 0) == Trace(chain, Arrived)
  }

  lemma SecureStart(fs: Fs, checks: Checks)
    requires RequireTrusted(fs, checks, []) == None
    ensures Secure(fs, checks, [fs.root], [])
  {
  }

  // Whatever the other accounts do between the lookups and afterwards, a path
  // that passed stays what it was.
  lemma ResolveIsSafe(checks: Checks, run: nat -> Fs, path: string)
    requires IsRun(run)
    ensures var outcome := ResolveSpec(checks, run, path);
      outcome.Resolved? ==> SafeForGood(checks, run(outcome.at), path, outcome.path)
  {
    hide MountVerdict, RequireTrusted, Secure, Walk, ResolveFrom, Settled, Others, LeadsTo;
    var outcome := ResolveSpec(checks, run, path);
    if outcome.Resolved? {
      RunGoesOnward(run);
      SecureStart(run(0), checks);
      SecureStays(run(0), run(1), checks, [run(0).root], []);
      NamesAreNames(path);
      var chain := ResolveSettles(checks, run, 1, [run(0).root], [], Names(path), 0);
      SettledLeads(checks, run(0), run(outcome.at), path, chain, outcome.path);
    }
  }

  lemma {:induction false} SettledLeads(checks: Checks, start: Fs, end: Fs, path: string, chain: seq<Id>, resolved: Path)
    requires Others(start, end)
    requires Settled(checks, end, start.root, Names(path), MAX_LINKS, chain, resolved)
    ensures LeadsThereForGood(checks, end, path, resolved, chain)
  {
    hide MountVerdict, Reaches, Names, Walk, LeadsTo;
    forall later: Fs | Others(end, later) ensures LeadsTo(later, checks, path, resolved, chain) {
      SecureStays(end, later, checks, chain, resolved);
      assert ArrivesAt(later, start.root, Names(path), MAX_LINKS, chain[|resolved|]);
      ArrivalLeads(later, checks, path, chain, resolved);
    }
  }

  lemma ArrivalLeads(fs: Fs, checks: Checks, path: string, chain: seq<Id>, resolved: Path)
    requires Secure(fs, checks, chain, resolved)
    requires ArrivesAt(fs, fs.root, Names(path), MAX_LINKS, chain[|resolved|])
    ensures LeadsTo(fs, checks, path, resolved, chain)
  {
    hide MountVerdict, Walk, Split, Real;
    WalkAlongChain(fs, chain, resolved, 0, 0);
    assert resolved[0..] == resolved && chain[0..] == chain;
    WalkOfReal(fs, fs.root, Split(path, '/'), MAX_LINKS);
  }

  // On a filesystem at rest the outcome is what the kernel's own resolution
  // deserves, the refusal and the link budget included.
  lemma ResolveIsExact(checks: Checks, run: nat -> Fs, path: string)
    ensures forall fs: Fs :: AtRest(run, fs) ==>
      Judged(fs, checks, Walk(fs, fs.root, Split(path, '/'), MAX_LINKS), ResolveSpec(checks, run, path))
  {
    hide MountVerdict, HasVerdict, Secure, Walk, Judged, ResolveFrom;
    forall fs: Fs | AtRest(run, fs)
      ensures Judged(fs, checks, Walk(fs, fs.root, Split(path, '/'), MAX_LINKS), ResolveSpec(checks, run, path))
    {
      assert run(0) == fs;
      WalkOfReal(fs, fs.root, Split(path, '/'), MAX_LINKS);
      NamesAreNames(path);
      var verdict, trace := RequireTrusted(fs, checks, []), Walk(fs, fs.root, Names(path), MAX_LINKS);
      if verdict.Some? {
        assert Direct(fs, [fs.root], []);
        VerdictOfChild(fs, checks, [fs.root], []);
        RefusedAtFirst(fs, checks, trace, verdict.value);
      } else {
        SecureStart(fs, checks);
        ResolveJudges(checks, run, fs, 1, [fs.root], [], Names(path), 0);
      }
    }
  }

  lemma RefusedAtFirst(fs: Fs, checks: Checks, trace: Trace, refusal: Refusal)
    requires trace.visited != [] && HasVerdict(fs, checks, trace.visited[0], Some(refusal))
    ensures Judged(fs, checks, trace, Refused(refusal))
  {
    hide HasVerdict;
    assert RefusedAt(fs, checks, trace.visited, 0, refusal);
  }

  // On a filesystem at rest the check passes exactly when the kernel arrives,
  // with at most MAX_LINKS links, and every folder it passed is trusted.
  lemma PassesExactlyWhenTrusted(checks: Checks, fs: Fs, path: string, run: nat -> Fs)
    requires AtRest(run, fs)
    ensures var trace := Walk(fs, fs.root, Split(path, '/'), MAX_LINKS);
      ResolveSpec(checks, run, path).Resolved? <==>
        trace.end == Arrived && forall id :: id in trace.visited ==> HasVerdict(fs, checks, id, None)
  {
    hide HasVerdict, Walk, ResolveSpec;
    ResolveIsExact(checks, run, path);
    var trace := Walk(fs, fs.root, Split(path, '/'), MAX_LINKS);
    var outcome := ResolveSpec(checks, run, path);
    if outcome.Refused? && forall id :: id in trace.visited ==> HasVerdict(fs, checks, id, None) {
      NotRefusedAt(fs, checks, trace.visited, outcome.refusal);
    }
  }

  // The walk itself, one lookup after another; lookup number t sees run(t).
  method Resolve(checks: Checks, run: nat -> Fs, path: string) returns (outcome: Outcome)
    requires IsRun(run)
    ensures outcome == ResolveSpec(checks, run, path)
    ensures outcome.Resolved? ==> SafeForGood(checks, run(outcome.at), path, outcome.path)
    ensures forall fs: Fs :: AtRest(run, fs) ==> Judged(fs, checks, Walk(fs, fs.root, Split(path, '/'), MAX_LINKS), outcome)
  {
    hide RequireTrusted, NodeAt, Names, SafeForGood, Judged, AtRest, IsRun, Walk;
    ResolveIsSafe(checks, run, path);
    ResolveIsExact(checks, run, path);
    ghost var spec := ResolveSpec(checks, run, path);
    var judged := RequireTrusted(run(0), checks, []);
    if judged.Some? {
      return Refused(judged.value);
    }
    var t, reached, pending, links := 1, [], Names(path), 0;
    while pending != []
      invariant links <= MAX_LINKS
      invariant spec == ResolveFrom(checks, run, t, reached, pending, links)
      decreases MAX_LINKS - links, |pending|
    {
      var name := pending[0];
      pending := pending[1..];
      if name == ".." {
        reached := Parent(reached);
        continue;
      }
      if name == "" || name == "." {
        continue;
      }
      var next := reached + [name];
      var metadata := NodeAt(run(t), next);
      if metadata.None? {
        return Refused(OthersCanChange);
      }
      match metadata.value {
        case Folder(_, _, _, _, _) =>
          judged := RequireTrusted(run(t + 1), checks, next);
          if judged.Some? {
            return Refused(judged.value);
          }
          reached := next;
        case Link(_) =>
          links := links + 1;
          var read := NodeAt(run(t + 1), next);
          if read.None? || !read.value.Link? || links > MAX_LINKS {
            return Refused(OthersCanChange);
          }
          if IsAbsolute(read.value.target) {
            reached := [];
          }
          pending := Names(read.value.target) + pending;
        case Other =>
          return Refused(NotFolder);
      }
      t := t + 2;
    }
    outcome := Resolved(reached, t);
  }

  // Checks the destination `path`: what it leads to, and that no drive of a
  // user is or could be mounted inside it.
  method Check(checks: Checks, run: nat -> Fs, path: string) returns (outcome: Outcome)
    requires IsRun(run)
    ensures outcome.Resolved? ==> SafeForGood(checks, run(outcome.at), path, outcome.path)
    ensures outcome.Resolved? ==> forall inside: Path :: outcome.path <= inside ==> MountVerdict(checks, inside) == None
    ensures outcome == CheckSpec(checks, run, path)
  {
    outcome := Resolve(checks, run, path);
    if outcome.Resolved? {
      if UsersMountsInside(checks, outcome.path) {
        return Refused(UsersCanMount);
      }
      PlaceOfResolved(checks, run(outcome.at), path, outcome.path);
      forall inside: Path | outcome.path <= inside ensures MountVerdict(checks, inside) == None {
        MountsInsideAreTrusted(checks, outcome.path, inside);
      }
    }
  }

  function CheckSpec(checks: Checks, run: nat -> Fs, path: string): Outcome {
    var outcome := ResolveSpec(checks, run, path);
    if outcome.Resolved? && UsersMountsInside(checks, outcome.path) then Refused(UsersCanMount) else outcome
  }

  lemma PlaceOfResolved(checks: Checks, end: Fs, path: string, resolved: Path)
    requires SafeForGood(checks, end, path, resolved)
    ensures MountVerdict(checks, resolved) == None
  {
    hide MountVerdict;
    var chain :| LeadsThereForGood(checks, end, path, resolved, chain);
    assert Others(end, end);
    assert LeadsTo(end, checks, path, resolved, chain);
  }

  // What is refused for what is inside: a mount below the folder, not at it,
  // that cannot be believed, or a place for users' mounts at the folder or below.
  lemma InsideIs(checks: Checks, path: Path)
    ensures UsersMountsInside(checks, path) <==>
      || (exists mount, name, below: Path ::
            && mount in checks.mounts && mount.point == path + [name] + below
            && (!IsTrustedFilesystem(mount) || checks.users.couldBeUsers(mount)))
      || (exists p, below: Path :: p in checks.users.points && p == path + below)
  {
    hide IsTrustedFilesystem;
    forall mount | mount in checks.mounts
      ensures path <= mount.point && mount.point != path <==> exists name, below: Path :: mount.point == path + [name] + below
    {
      if path <= mount.point && mount.point != path {
        assert mount.point == path + [mount.point[|path|]] + mount.point[|path| + 1..];
      }
    }
    forall p | p in checks.users.points ensures path <= p <==> exists below: Path :: p == path + below {
      assert path <= p ==> p == path + p[|path|..];
    }
  }

  // Once a folder's own mount is trusted and nothing untrusted is mounted
  // inside it, whatever is written at any depth inside it is on a trusted mount.
  lemma MountsInsideAreTrusted(checks: Checks, path: Path, inside: Path)
    requires MountVerdict(checks, path) == None && !UsersMountsInside(checks, path) && path <= inside
    ensures MountVerdict(checks, inside) == None
  {
    hide IsTrustedFilesystem;
    assert MountOf(path, checks.mounts).Some?;
    var holder := MountOf(path, checks.mounts).value;
    assert holder.point <= inside;
    var mount := MountOf(inside, checks.mounts).value;
    if mount.point <= path {
      SameMount(checks.mounts, path, inside);
    } else {
      PrefixesNest(mount.point, path, inside);
      assert path <= mount.point && mount.point != path;
    }
    forall p | p in checks.users.points ensures !(p <= inside) {
      if p <= inside {
        PrefixesNest(p, path, inside);
      }
    }
  }

  // Nor is anything refused without such a place: once what is mounted on top
  // is gone, some place inside is not to be trusted.
  lemma RefusedForAPlaceInside(checks: Checks, path: Path)
    requires UsersMountsInside(checks, path)
    ensures exists k: nat, inside: Path :: k <= |checks.mounts| && path <= inside && !TrustedAmong(checks, k, inside)
  {
    hide IsTrustedFilesystem;
    if mount :| mount in checks.mounts && path <= mount.point && !CanBeBelieved(checks, mount) {
      var i :| 0 <= i < |checks.mounts| && checks.mounts[i] == mount;
      OnTop(checks.mounts[..i + 1], mount);
      assert !TrustedAmong(checks, i + 1, mount.point);
    } else {
      var p :| p in checks.users.points && path <= p;
      assert !TrustedAmong(checks, |checks.mounts|, p);
    }
  }

  // The place can be believed when only the first `k` mounts are there.
  predicate TrustedAmong(checks: Checks, k: nat, inside: Path)
    requires k <= |checks.mounts|
  {
    MountVerdict(checks.(mounts := checks.mounts[..k]), inside) == None
  }

  lemma OnTop(mounts: seq<Mount>, mount: Mount)
    requires mounts != [] && mounts[|mounts| - 1] == mount
    ensures MountOf(mount.point, mounts) == Some(mount)
  {
  }

  lemma PrefixesNest(a: Path, b: Path, whole: Path)
    requires a <= whole && b <= whole
    ensures a <= b || b <= a
  {
  }

  // When the mount that holds `inside` also holds `path`, it is the mount of
  // `path`: no deeper or later mount point lies above `path`.
  lemma {:induction false} SameMount(mounts: seq<Mount>, path: Path, inside: Path)
    requires path <= inside
    requires MountOf(inside, mounts).Some? && MountOf(inside, mounts).value.point <= path
    ensures MountOf(path, mounts) == MountOf(inside, mounts)
  {
    if mounts != [] {
      var rest, last := mounts[..|mounts| - 1], mounts[|mounts| - 1];
      var best := MountOf(inside, rest);
      if best.Some? && best.value.point <= path {
        SameMount(rest, path, inside);
      } else if last.point <= path {
        assert forall m :: m in rest && m.point <= path ==> m.point <= inside;
      }
    }
  }

  // ------------------------------------------------------------ single items

  // The text of the path whose names are `names`.
  function PathText(names: seq<string>): string {
    "/" + Join(names, "/")
  }

  lemma NamesOfPathText(names: seq<string>)
    requires AreNames(names)
    ensures Names(PathText(names)) == names
  {
    var text := PathText(names);
    SplitAtSeparator("", '/', Join(names, "/"));
    assert text == "" + ['/'] + Join(names, "/");
    if names != [] {
      forall i | 0 <= i < |names| ensures '/' !in names[i] {
        assert names[i] in names;
      }
      SplitOfJoin(names, '/');
      assert Real([""] + names) == Real(names) by { assert ([""] + names)[1..] == names; }
      RealIsReal(names);
    }
  }

  // The item `path` names, followed to the folder that holds it, which must
  // pass the check; the item's own name is not followed.
  method ElevatedItem(checks: Checks, run: nat -> Fs, path: string) returns (outcome: Outcome)
    requires IsRun(run)
    ensures var names := Names(path);
      (names == [] || names[|names| - 1] == "..") ==> outcome == Refused(IsRoot)
    ensures outcome.Resolved? ==> SameItemForGood(run(outcome.at), Names(path), outcome.path)
    ensures var names := Names(path);
      names != [] && names[|names| - 1] != ".." ==>
        var checked := CheckSpec(checks, run, PathText(names[..|names| - 1]));
        outcome == if checked.Resolved? then Resolved(checked.path + [names[|names| - 1]], checked.at) else checked
  {
    hide SafeForGood, SameItemForGood, MountVerdict, IsRun, CheckSpec;
    var names := Names(path);
    if names == [] || names[|names| - 1] == ".." {
      return Refused(IsRoot);
    }
    var folder, name := names[..|names| - 1], names[|names| - 1];
    outcome := Check(checks, run, PathText(folder));
    if outcome.Resolved? {
      NamesAreNames(path);
      AreNamesParts(names);
      ItemInFolder(checks, run(outcome.at), folder, outcome.path, name);
      assert names == folder + [name];
      outcome := Resolved(outcome.path + [name], outcome.at);
    }
  }

  // From now on the path checked and the original name the same node, if any,
  // and it never changes which: only root can put another in its place.
  ghost predicate SameItemForGood(end: Fs, names: seq<string>, item: Path) {
    forall later: Fs :: Others(end, later) ==>
      Lstat(later, item) == Lstat(later, names) == Lstat(end, names)
  }

  lemma AreNamesParts(names: seq<string>)
    requires AreNames(names) && names != []
    ensures AreNames(names[..|names| - 1])
    ensures names[|names| - 1] == ".." || IsName(names[|names| - 1])
  {
  }

  lemma {:induction false} ItemInFolder(checks: Checks, end: Fs, folder: seq<string>, resolved: Path, name: Name)
    requires SafeForGood(checks, end, PathText(folder), resolved) && AreNames(folder)
    ensures SameItemForGood(end, folder + [name], resolved + [name])
  {
    hide MountVerdict, Walk;
    var chain :| LeadsThereForGood(checks, end, PathText(folder), resolved, chain);
    assert Others(end, end);
    assert LeadsTo(end, checks, PathText(folder), resolved, chain);
    LstatInFolder(end, folder, name, chain[|resolved|]);
    forall later: Fs | Others(end, later)
      ensures Lstat(later, resolved + [name]) == Lstat(later, folder + [name]) == Lstat(end, folder + [name])
    {
      assert LeadsTo(later, checks, PathText(folder), resolved, chain);
      LstatInFolder(later, folder, name, chain[|resolved|]);
      LstatAtChainEnd(later, chain, resolved, name);
      EntryKept(end, later, chain[|resolved|], name);
    }
  }

  lemma EntryKept(before: Fs, after: Fs, folder: Id, name: Name)
    requires IsFolder(before, folder) && OnlyRootMayChange(before.nodes[folder]) && Others(before, after)
    ensures IsFolder(after, folder) && Entry(after, folder, name) == Entry(before, folder, name)
  {
  }

  lemma LstatInFolder(fs: Fs, folder: seq<string>, name: Name, id: Id)
    requires AreNames(folder) && FolderOf(fs, PathText(folder)) == Some(id)
    ensures IsFolder(fs, id) && Lstat(fs, folder + [name]) == Entry(fs, id, name)
  {
    NamesOfPathText(folder);
    WalkOfReal(fs, fs.root, Split(PathText(folder), '/'), MAX_LINKS);
    assert (folder + [name])[..|folder|] == folder;
  }
}
