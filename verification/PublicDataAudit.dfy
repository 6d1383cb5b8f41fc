// The recursive audit of publication files and of the archives inside them,
// which remembers what it has already looked at. (tools/audit-public-data.py)

module PublicDataAudit {
  import opened Text

  // What a file holds; only its being the same or not matters.
  type Data = string

  // A file to visit: a publication file, or a member of an archive.
  datatype File = File(name: string, data: Data)

  // What the audit reads with other tools' help: the files inside an archive
  // (any function of its bytes, so an archive may contain itself), what is
  // wrong with a text, and the registered pictures.
  datatype Inputs = Inputs(
    unzip: Data -> seq<File>,
    undeb: Data -> seq<File>,
    textFaults: Data -> seq<string>,
    knownImages: set<Data>)

  // Whether a name, decoded, contains a private term.
  type Privacy = string -> bool

  // Archives are opened up to this depth inside each other.
  const MAX_DEPTH := 8

  const TEXT_SUFFIXES := {
    ".py", ".js", ".cjs", ".mjs", ".ts", ".tsx", ".css", ".html", ".md", ".txt", ".json", ".xml", ".yml", ".yaml",
    ".sh", ".svg", ".desktop", ".service", ".rs", ".toml", ".lock"}

  const IMAGE_SUFFIXES := {".png", ".jpg", ".jpeg", ".webp"}

  const PUBLIC_PARTS := ["assets/screenshots/", "docs/assets/", "public/tour/"]

  // ------------------------------------------------------------------ names

  // The name of `member` inside the archive `archive`.
  function Inside(archive: string, member: string): string {
    archive + "!/" + member
  }

  predicate IsPart(part: string) {
    part != "" && part != "."
  }

  // The last real part of a path, as pathlib's `name`.
  function LastPart(parts: seq<string>): string {
    if parts == [] then ""
    else if IsPart(parts[|parts| - 1]) then parts[|parts| - 1]
    else LastPart(parts[..|parts| - 1])
  }

  function FileName(name: string): string {
    LastPart(Split(name, '/'))
  }

  // Everything from the last dot on, unless the dot is the first or the last
  // character.
  function DotOn(name: string, at: nat): string
    requires at <= |name|
    decreases at
  {
    if at == 0 then ""
    else if name[at - 1] != '.' then DotOn(name, at - 1)
    else if at - 1 == 0 || at == |name| then ""
    else name[at - 1..]
  }

  function Lower(text: string): string {
    if text == "" then ""
    else [if 'A' <= text[0] <= 'Z' then text[0] - 'A' + 'a' else text[0]] + Lower(text[1..])
  }

  function Suffix(name: string): string {
    Lower(DotOn(FileName(name), |FileName(name)|))
  }

  // What a file is checked as.
  function Kind(name: string): string {
    if Suffix(name) in TEXT_SUFFIXES || Suffix(name) == "" then "text" else Suffix(name)
  }

  predicate IsArchive(kind: string) {
    kind == ".zip" || kind == ".deb"
  }

  // A file among the published pictures, or in an archive among them.
  predicate IsPublic(name: string) {
    exists part | part in PUBLIC_PARTS :: Contains(name, part)
  }

  // ------------------------------------------------------- without the cache

  function Inner(inputs: Inputs, kind: string, data: Data): seq<File> {
    if kind == ".zip" then inputs.unzip(data) else if kind == ".deb" then inputs.undeb(data) else []
  }

  // The files of an archive under their full names.
  function Members(inputs: Inputs, name: string, data: Data): seq<File> {
    var inner := Inner(inputs, Kind(name), data);
    seq(|inner|, i requires 0 <= i < |inner| => File(Inside(name, inner[i].name), inner[i].data))
  }

  function NameIssue(isPrivate: Privacy, name: string): seq<string> {
    if isPrivate(name) then [name + ": rejected filename fingerprint"] else []
  }

  // The issues of a file that is not an archive, given its kind.
  function ContentIssues(inputs: Inputs, name: string, data: Data): seq<string> {
    var kind := Kind(name);
    if kind in IMAGE_SUFFIXES then
      if IsPublic(name) && data !in inputs.knownImages then [name + ": unregistered image inside publication/archive"] else []
    else if kind == "text" then
      var faults := inputs.textFaults(data);
      seq(|faults|, i requires 0 <= i < |faults| => name + faults[i])
    else []
  }

  // Every issue of the file, looking at everything again each time it comes.
  function Issues(isPrivate: Privacy, inputs: Inputs, name: string, data: Data, depth: nat): seq<string>
    requires depth <= MAX_DEPTH + 1
    decreases MAX_DEPTH + 1 - depth, 0, 1
  {
    NameIssue(isPrivate, name)
    + if depth > MAX_DEPTH then [name + ": nested archive depth exceeded"] else BodyIssues(isPrivate, inputs, name, data, depth)
  }

  function BodyIssues(isPrivate: Privacy, inputs: Inputs, name: string, data: Data, depth: nat): seq<string>
    requires depth <= MAX_DEPTH
    decreases MAX_DEPTH + 1 - depth, 0, 0
  {
    if IsArchive(Kind(name)) then AllIssues(isPrivate, inputs, Members(inputs, name, data), depth + 1)
    else ContentIssues(inputs, name, data)
  }

  function AllIssues(isPrivate: Privacy, inputs: Inputs, files: seq<File>, depth: nat): seq<string>
    requires depth <= MAX_DEPTH + 1
    decreases MAX_DEPTH + 1 - depth, 1, |files|
  {
    if files == [] then []
    else Issues(isPrivate, inputs, files[0].name, files[0].data, depth) + AllIssues(isPrivate, inputs, files[1..], depth)
  }

  // ---------------------------------------------------------- with the cache

  // The checks a file gets: equal keys, equal checks. A digest stands for the
  // bytes it is of.
  datatype Key = Key(data: Data, kind: string, isPublic: bool, archiveDepth: Option<nat>)

  function KeyOf(name: string, data: Data, depth: nat): Key {
    Key(data, Kind(name), IsPublic(name), if IsArchive(Kind(name)) then Some(depth) else None)
  }

  datatype State = State(seen: set<Key>, issues: seq<string>)

  function Visit(isPrivate: Privacy, inputs: Inputs, s: State, name: string, data: Data, depth: nat): State
    requires depth <= MAX_DEPTH + 1
    decreases MAX_DEPTH + 1 - depth, 0, 1
  {
    var named := State(s.seen, s.issues + NameIssue(isPrivate, name));
    if depth > MAX_DEPTH then State(named.seen, named.issues + [name + ": nested archive depth exceeded"])
    else if KeyOf(name, data, depth) in named.seen then named
    else
      var marked := State(named.seen + {KeyOf(name, data, depth)}, named.issues);
      if IsArchive(Kind(name)) then VisitAll(isPrivate, inputs, marked, Members(inputs, name, data), depth + 1)
      else State(marked.seen, marked.issues + ContentIssues(inputs, name, data))
  }

  function VisitAll(isPrivate: Privacy, inputs: Inputs, s: State, files: seq<File>, depth: nat): State
    requires depth <= MAX_DEPTH + 1
    decreases MAX_DEPTH + 1 - depth, 1, |files|
  {
    if files == [] then s
    else VisitAll(isPrivate, inputs, Visit(isPrivate, inputs, s, files[0].name, files[0].data, depth), files[1..], depth)
  }

  lemma VisitStarts(isPrivate: Privacy, inputs: Inputs, s: State, name: string, data: Data, depth: nat)
    requires depth <= MAX_DEPTH + 1
    ensures var named := State(s.seen, s.issues + NameIssue(isPrivate, name));
      Visit(isPrivate, inputs, s, name, data, depth) ==
        if depth > MAX_DEPTH then State(named.seen, named.issues + [name + ": nested archive depth exceeded"])
        else if KeyOf(name, data, depth) in named.seen then named
        else
          var marked := State(named.seen + {KeyOf(name, data, depth)}, named.issues);
          if IsArchive(Kind(name)) then VisitAll(isPrivate, inputs, marked, Members(inputs, name, data), depth + 1)
          else State(marked.seen, marked.issues + ContentIssues(inputs, name, data))
  {
  }

  lemma VisitAllFrom(isPrivate: Privacy, inputs: Inputs, s: State, files: seq<File>, i: nat, depth: nat)
    requires depth <= MAX_DEPTH + 1 && i < |files|
    ensures VisitAll(isPrivate, inputs, s, files[i..], depth)
      == VisitAll(isPrivate, inputs, Visit(isPrivate, inputs, s, files[i].name, files[i].data, depth), files[i + 1..], depth)
  {
  }

  lemma VisitAllNone(isPrivate: Privacy, inputs: Inputs, s: State, depth: nat)
    requires depth <= MAX_DEPTH + 1
    ensures VisitAll(isPrivate, inputs, s, [], depth) == s
  {
  }

  // The audit's shared state: what it has seen, and the issues so far.
  class Auditor {
    const isPrivate: Privacy
    const inputs: Inputs
    var seen: set<Key>
    var issues: seq<string>

    constructor (isPrivate: Privacy, inputs: Inputs)
      ensures seen == {} && issues == []
      ensures this.isPrivate == isPrivate && this.inputs == inputs
    {
      this.isPrivate, this.inputs := isPrivate, inputs;
      seen, issues := {}, [];
    }

    function Now(): State
      reads this
    {
      State(seen, issues)
    }

    // Visits one file, and the files inside it when it is an archive.
    method VisitFile(name: string, data: Data, depth: nat)
      requires depth <= MAX_DEPTH + 1
      modifies this
      ensures Now() == Visit(isPrivate, inputs, old(Now()), name, data, depth)
      decreases MAX_DEPTH + 1 - depth
    {
      hide Visit, VisitAll, KeyOf, IsArchive, Kind, ContentIssues, Members;
      VisitStarts(isPrivate, inputs, Now(), name, data, depth);
      if isPrivate(name) {
        issues := issues + [name + ": rejected filename fingerprint"];
      }
      assert issues == old(issues) + NameIssue(isPrivate, name);
      if depth > MAX_DEPTH {
        issues := issues + [name + ": nested archive depth exceeded"];
        return;
      }
      var key := KeyOf(name, data, depth);
      if key in seen {
        return;
      }
      seen := seen + {key};
      if IsArchive(Kind(name)) {
        var members := Members(inputs, name, data);
        ghost var all := VisitAll(isPrivate, inputs, Now(), members, depth + 1);
        assert members[0..] == members;
        for i := 0 to |members|
          invariant VisitAll(isPrivate, inputs, Now(), members[i..], depth + 1) == all
        {
          VisitAllFrom(isPrivate, inputs, Now(), members, i, depth + 1);
          VisitFile(members[i].name, members[i].data, depth + 1);
        }
        assert members[|members|..] == [];
        VisitAllNone(isPrivate, inputs, Now(), depth + 1);
      } else {
        issues := issues + ContentIssues(inputs, name, data);
      }
    }

    // Audits `files`: the report passes when no issue was found.
    method Audit(files: seq<File>) returns (passed: bool)
      modifies this
      ensures Now() == VisitAll(isPrivate, inputs, old(Now()), files, 0)
      ensures passed == (issues == [])
    {
      ghost var all := VisitAll(isPrivate, inputs, Now(), files, 0);
      for i := 0 to |files|
        invariant VisitAll(isPrivate, inputs, Now(), files[i..], 0) == all
      {
        VisitFile(files[i].name, files[i].data, 0);
      }
      passed := issues == [];
    }
  }

  // ------------------------------------------------------------ main results

  // The report with the cache passes exactly when the one without would.
  ghost predicate Agree(isPrivate: Privacy, inputs: Inputs, files: seq<File>) {
    VisitAll(isPrivate, inputs, State({}, []), files, 0).issues == [] <==> AllIssues(isPrivate, inputs, files, 0) == []
  }

  // What an audit is about: the private names, the names its top-level files
  // can have, and the names that members of archives can have.
  datatype Scope = Scope(isPrivate: Privacy, named: string -> bool, allowed: string -> bool)

  ghost predicate FilesNamed(scope: Scope, files: seq<File>) {
    forall i :: 0 <= i < |files| ==> scope.named(files[i].name)
  }

  ghost predicate MembersAllowed(scope: Scope, inputs: Inputs) {
    forall data, i ::
      && (0 <= i < |inputs.unzip(data)| ==> scope.allowed(inputs.unzip(data)[i].name))
      && (0 <= i < |inputs.undeb(data)| ==> scope.allowed(inputs.undeb(data)[i].name))
  }

  // A member of a member ... of a top-level file, from the outermost in.
  datatype Nested = Nested(file: string, inside: seq<string>)

  function Outer(n: Nested, i: nat): Nested
    requires i <= |n.inside|
  {
    Nested(n.file, n.inside[..i])
  }

  function FullName(n: Nested): string
    decreases |n.inside|
  {
    if n.inside == [] then n.file else Inside(FullName(Outer(n, |n.inside| - 1)), n.inside[|n.inside| - 1])
  }

  // An archive the audit looks into without having found a private name.
  ghost predicate IsOpen(scope: Scope, name: string) {
    IsArchive(Kind(name)) && !scope.isPrivate(name)
  }

  ghost predicate IsNested(scope: Scope, n: Nested) {
    && scope.named(n.file)
    && forall i :: 0 <= i < |n.inside| ==> scope.allowed(n.inside[i]) && IsOpen(scope, FullName(Outer(n, i)))
  }

  // The audit can come to this name at this depth.
  ghost predicate Visited(scope: Scope, name: string, depth: nat) {
    exists n: Nested :: IsNested(scope, n) && |n.inside| == depth && FullName(n) == name
  }

  // Two names under which one archive gets the same checks.
  ghost predicate SameChecks(a: string, b: string) {
    IsArchive(Kind(a)) && Kind(a) == Kind(b) && IsPublic(a) == IsPublic(b)
  }

  // What a member's name says about it does not depend on which of two
  // archives it is in, if the audit can come to both, at one depth, and gives
  // them the same checks.
  ghost predicate Uniform(scope: Scope) {
    forall a, b, depth: nat, member :: TwoNames(scope, a, b, depth, member) ==> UniformMember(scope.isPrivate, a, b, member)
  }

  ghost predicate TwoNames(scope: Scope, a: string, b: string, depth: nat, member: string) {
    && depth < MAX_DEPTH && SameChecks(a, b) && scope.allowed(member)
    && Visited(scope, a, depth) && Visited(scope, b, depth) && !scope.isPrivate(a) && !scope.isPrivate(b)
  }

  ghost predicate UniformMember(isPrivate: Privacy, a: string, b: string, member: string) {
    && isPrivate(Inside(a, member)) == isPrivate(Inside(b, member))
    && (!isPrivate(Inside(a, member)) ==> Kind(Inside(a, member)) == Kind(Inside(b, member)))
  }

  lemma TopLevelVisited(scope: Scope, name: string)
    requires scope.named(name)
    ensures Visited(scope, name, 0)
  {
    var n := Nested(name, []);
    assert IsNested(scope, n) && |n.inside| == 0 && FullName(n) == name;
  }

  lemma {:induction false} MemberVisited(scope: Scope, name: string, depth: nat, member: string)
    requires Visited(scope, name, depth) && IsOpen(scope, name) && scope.allowed(member)
    ensures Visited(scope, Inside(name, member), depth + 1)
  {
    hide IsOpen, FullName, Inside;
    var n :| IsNested(scope, n) && |n.inside| == depth && FullName(n) == name;
    var m := Nested(n.file, n.inside + [member]);
    forall i | 0 <= i < |m.inside| ensures scope.allowed(m.inside[i]) && IsOpen(scope, FullName(Outer(m, i))) {
      assert m.inside[..i] == n.inside[..i];
      assert Outer(m, i) == Outer(n, i);
      if i == depth {
        assert n.inside[..i] == n.inside;
      }
    }
    InnermostName(m);
    assert Outer(m, depth) == n by { assert m.inside[..depth] == n.inside; }
  }

  lemma InnermostName(n: Nested)
    requires n.inside != []
    ensures FullName(n) == Inside(FullName(Outer(n, |n.inside| - 1)), n.inside[|n.inside| - 1])
  {
  }

  // ---------------------------------------- the archive's name and its members

  lemma ContainsOfInside(a: string, member: string, part: string)
    requires part != "" && part[0] != '/' && '!' !in part
    ensures Contains(Inside(a, member), part) <==> Contains(a, part) || Contains(member, part)
  {
    var name := Inside(a, member);
    forall i | 0 <= i <= |a| && part <= a[i..] ensures part <= name[i..] {
      assert name[i..] == a[i..] + "!/" + member;
    }
    forall i | 0 <= i <= |member| && part <= member[i..] ensures part <= name[|a| + 2 + i..] {
      assert name[|a| + 2 + i..] == member[i..];
    }
    forall i | 0 <= i <= |name| && part <= name[i..] ensures Contains(a, part) || Contains(member, part) {
      assert part[0] == name[i];
      assert name[|a|] == '!' && name[|a| + 1] == '/';
      if i <= |a| {
        assert name[i..][..|part|] == a[i..][..|part|];
        assert part <= a[i..];
      } else {
        assert i >= |a| + 2;
        assert name[i..] == member[i - |a| - 2..];
      }
    }
  }

  lemma PublicInside(a: string, member: string)
    ensures IsPublic(Inside(a, member)) <==> IsPublic(a) || IsPublic(member)
  {
    hide Contains;
    forall part | part in PUBLIC_PARTS
      ensures Contains(Inside(a, member), part) <==> Contains(a, part) || Contains(member, part)
    {
      ContainsOfInside(a, member, part);
    }
  }

  // ------------------------------------------------- what a clean key promises

  // Nothing is wrong inside a file with these checks, under any name that the
  // audit can come to and that is not private itself.
  ghost predicate CleanKey(scope: Scope, inputs: Inputs, key: Key) {
    forall name: string, depth: nat :: HasKey(scope, key, name, depth) ==>
      BodyIssues(scope.isPrivate, inputs, name, key.data, depth) == []
  }

  ghost predicate HasKey(scope: Scope, key: Key, name: string, depth: nat) {
    depth <= MAX_DEPTH && KeyOf(name, key.data, depth) == key && !scope.isPrivate(name) && Visited(scope, name, depth)
  }

  // A file that has the same checks under two names, neither of them private,
  // is clean under both or under neither.
  lemma {:induction false} SameBody(scope: Scope, inputs: Inputs, a: string, b: string, data: Data, da: nat, db: nat)
    requires Uniform(scope) && MembersAllowed(scope, inputs)
    requires da <= MAX_DEPTH && db <= MAX_DEPTH && KeyOf(a, data, da) == KeyOf(b, data, db)
    requires !scope.isPrivate(a) && !scope.isPrivate(b) && Visited(scope, a, da) && Visited(scope, b, db)
    requires BodyIssues(scope.isPrivate, inputs, a, data, da) == []
    ensures BodyIssues(scope.isPrivate, inputs, b, data, db) == []
    decreases MAX_DEPTH + 1 - da, 0, 0
  {
    hide Kind, IsPublic, Uniform, MembersAllowed, SameMember, Members, Visited;
    if IsArchive(Kind(a)) {
      assert SameChecks(a, b);
      MembersMatch(scope, inputs, a, b, data);
      SameMembers(scope, inputs, a, b, data, da + 1, Members(inputs, a, data), Members(inputs, b, data));
    }
  }

  lemma MembersMatch(scope: Scope, inputs: Inputs, a: string, b: string, data: Data)
    requires MembersAllowed(scope, inputs) && Kind(a) == Kind(b)
    ensures var fa, fb := Members(inputs, a, data), Members(inputs, b, data);
      |fa| == |fb| && forall i :: 0 <= i < |fa| ==> SameMember(scope, a, b, fa[i], fb[i])
  {
    hide Kind;
  }

  lemma {:induction false} SameMembers(scope: Scope, inputs: Inputs, a: string, b: string, data: Data, depth: nat,
                                       fa: seq<File>, fb: seq<File>)
    requires Uniform(scope) && MembersAllowed(scope, inputs)
    requires 1 <= depth <= MAX_DEPTH + 1 && SameChecks(a, b) && !scope.isPrivate(a) && !scope.isPrivate(b)
    requires Visited(scope, a, depth - 1) && Visited(scope, b, depth - 1)
    requires |fa| == |fb| && forall i :: 0 <= i < |fa| ==> SameMember(scope, a, b, fa[i], fb[i])
    requires AllIssues(scope.isPrivate, inputs, fa, depth) == []
    ensures AllIssues(scope.isPrivate, inputs, fb, depth) == []
    decreases MAX_DEPTH + 1 - depth, 1, |fa|
  {
    hide Kind, IsPublic, BodyIssues, Visited, Uniform, MembersAllowed;
    if fa != [] {
      assert SameMember(scope, a, b, fa[0], fb[0]);
      var member :| scope.allowed(member) && fa[0].name == Inside(a, member) && fb[0].name == Inside(b, member);
      assert Issues(scope.isPrivate, inputs, fa[0].name, fa[0].data, depth) == [];
      assert depth <= MAX_DEPTH;
      UniformAt(scope, a, b, depth - 1, member);
      MemberVisited(scope, a, depth - 1, member);
      MemberVisited(scope, b, depth - 1, member);
      PublicInside(a, member);
      PublicInside(b, member);
      SameBody(scope, inputs, fa[0].name, fb[0].name, fa[0].data, depth, depth);
      SameMembers(scope, inputs, a, b, data, depth, fa[1..], fb[1..]);
    }
  }

  lemma UniformAt(scope: Scope, a: string, b: string, depth: nat, member: string)
    requires Uniform(scope) && depth < MAX_DEPTH && SameChecks(a, b) && scope.allowed(member)
    requires Visited(scope, a, depth) && Visited(scope, b, depth) && !scope.isPrivate(a) && !scope.isPrivate(b)
    ensures UniformMember(scope.isPrivate, a, b, member)
  {
    hide Visited, SameChecks, UniformMember;
    assert TwoNames(scope, a, b, depth, member);
  }

  ghost predicate SameMember(scope: Scope, a: string, b: string, fa: File, fb: File) {
    fa.data == fb.data
    && exists member :: scope.allowed(member) && fa.name == Inside(a, member) && fb.name == Inside(b, member)
  }

  // -------------------------------------------- the cache changes no verdict

  // While no issue was found, every key seen is clean, except those of the
  // archives `open` that the visit is still inside.
  ghost predicate Honest(scope: Scope, inputs: Inputs, s: State, open: set<Key>) {
    s.issues == [] ==> forall key :: key in s.seen && key !in open ==> CleanKey(scope, inputs, key)
  }

  // The archives the visit is inside are all less deep than this.
  ghost predicate Above(open: set<Key>, depth: nat) {
    forall key :: key in open ==> key.archiveDepth.Some? && key.archiveDepth.value < depth
  }

  // What a visit owes: it only adds issues; while there were none, it finds
  // one exactly when the look without the cache does; and it leaves the cache
  // honest.
  ghost predicate Faithful(scope: Scope, inputs: Inputs, before: State, after: State, issues: seq<string>, open: set<Key>) {
    && before.issues <= after.issues
    && (before.issues == [] ==> (after.issues == [] <==> issues == []))
    && Honest(scope, inputs, after, open)
  }

  // A key still in progress is never hit: an archive's key carries its depth,
  // which is less than that of any file inside it.
  lemma {:induction false} VisitIsFaithful(scope: Scope, inputs: Inputs, s: State, name: string, data: Data, depth: nat, open: set<Key>)
    requires Uniform(scope) && MembersAllowed(scope, inputs) && (s.issues == [] ==> Visited(scope, name, depth))
    requires depth <= MAX_DEPTH + 1 && Honest(scope, inputs, s, open) && Above(open, depth)
    ensures Faithful(scope, inputs, s, Visit(scope.isPrivate, inputs, s, name, data, depth),
                     Issues(scope.isPrivate, inputs, name, data, depth), open)
    decreases MAX_DEPTH + 1 - depth, 0, 1
  {
    hide Kind, IsPublic, ContentIssues, BodyIssues, CleanKey, Uniform, MembersAllowed, Visited;
    if depth <= MAX_DEPTH {
      var key := KeyOf(name, data, depth);
      assert key !in open;
      if key in s.seen {
        CleanMeansNoIssue(scope, inputs, key, name, data, depth);
      } else {
        NewKeyIsFaithful(scope, inputs, State(s.seen, s.issues + NameIssue(scope.isPrivate, name)), name, data, depth, open);
      }
    }
  }

  lemma CleanMeansNoIssue(scope: Scope, inputs: Inputs, key: Key, name: string, data: Data, depth: nat)
    requires depth <= MAX_DEPTH && KeyOf(name, data, depth) == key
    ensures CleanKey(scope, inputs, key) && !scope.isPrivate(name) && Visited(scope, name, depth) ==>
      BodyIssues(scope.isPrivate, inputs, name, data, depth) == []
  {
    hide Visited, BodyIssues, Kind, IsPublic;
    if !scope.isPrivate(name) && Visited(scope, name, depth) {
      assert HasKey(scope, key, name, depth);
    }
  }

  lemma {:induction false} KeyBecomesClean(scope: Scope, inputs: Inputs, name: string, data: Data, depth: nat)
    requires Uniform(scope) && MembersAllowed(scope, inputs) && Visited(scope, name, depth)
    requires depth <= MAX_DEPTH && !scope.isPrivate(name) && BodyIssues(scope.isPrivate, inputs, name, data, depth) == []
    ensures CleanKey(scope, inputs, KeyOf(name, data, depth))
  {
    hide Kind, IsPublic, BodyIssues, Uniform, MembersAllowed, Visited;
    var key := KeyOf(name, data, depth);
    forall other: string, d: nat | HasKey(scope, key, other, d)
      ensures BodyIssues(scope.isPrivate, inputs, other, key.data, d) == []
    {
      SameBody(scope, inputs, name, other, data, depth, d);
    }
  }

  lemma {:induction false} NewKeyIsFaithful(scope: Scope, inputs: Inputs, s: State, name: string, data: Data, depth: nat, open: set<Key>)
    requires Uniform(scope) && MembersAllowed(scope, inputs) && (s.issues == [] ==> Visited(scope, name, depth))
    requires depth <= MAX_DEPTH && Honest(scope, inputs, s, open) && Above(open, depth)
    requires scope.isPrivate(name) ==> s.issues != []
    ensures var marked := State(s.seen + {KeyOf(name, data, depth)}, s.issues);
      var after := if IsArchive(Kind(name)) then VisitAll(scope.isPrivate, inputs, marked, Members(inputs, name, data), depth + 1)
                   else State(marked.seen, marked.issues + ContentIssues(inputs, name, data));
      Faithful(scope, inputs, s, after, BodyIssues(scope.isPrivate, inputs, name, data, depth), open)
    decreases MAX_DEPTH + 1 - depth, 0, 0
  {
    hide Kind, IsPublic, ContentIssues, CleanKey, Uniform, MembersAllowed, Members, Visited;
    var key := KeyOf(name, data, depth);
    var marked := State(s.seen + {key}, s.issues);
    if IsArchive(Kind(name)) {
      if s.issues == [] {
        MembersVisited(scope, inputs, name, data, depth);
      }
      assert Above(open + {key}, depth + 1);
      VisitAllIsFaithful(scope, inputs, marked, Members(inputs, name, data), depth + 1, open + {key});
    }
    var body := BodyIssues(scope.isPrivate, inputs, name, data, depth);
    if s.issues == [] && body == [] {
      KeyBecomesClean(scope, inputs, name, data, depth);
    }
  }

  lemma {:induction false} MembersVisited(scope: Scope, inputs: Inputs, name: string, data: Data, depth: nat)
    requires MembersAllowed(scope, inputs) && Visited(scope, name, depth) && IsArchive(Kind(name)) && !scope.isPrivate(name)
    ensures AllVisited(scope, Members(inputs, name, data), depth + 1)
  {
    hide Visited, Kind;
    var inner, members := Inner(inputs, Kind(name), data), Members(inputs, name, data);
    forall i | 0 <= i < |members| ensures Visited(scope, members[i].name, depth + 1) {
      assert scope.allowed(inner[i].name);
      MemberVisited(scope, name, depth, inner[i].name);
    }
  }

  ghost predicate AllVisited(scope: Scope, files: seq<File>, depth: nat) {
    forall i :: 0 <= i < |files| ==> Visited(scope, files[i].name, depth)
  }

  lemma {:induction false} VisitAllIsFaithful(scope: Scope, inputs: Inputs, s: State, files: seq<File>, depth: nat, open: set<Key>)
    requires Uniform(scope) && MembersAllowed(scope, inputs) && (s.issues == [] ==> AllVisited(scope, files, depth))
    requires depth <= MAX_DEPTH + 1 && Honest(scope, inputs, s, open) && Above(open, depth)
    ensures Faithful(scope, inputs, s, VisitAll(scope.isPrivate, inputs, s, files, depth),
                     AllIssues(scope.isPrivate, inputs, files, depth), open)
    decreases MAX_DEPTH + 1 - depth, 1, |files|
  {
    hide CleanKey, Uniform, MembersAllowed, Visit, Issues, Honest, Visited;
    if files != [] {
      VisitIsFaithful(scope, inputs, s, files[0].name, files[0].data, depth, open);
      var next := Visit(scope.isPrivate, inputs, s, files[0].name, files[0].data, depth);
      VisitAllIsFaithful(scope, inputs, next, files[1..], depth, open);
    }
  }

  lemma UniformAgrees(scope: Scope, inputs: Inputs, files: seq<File>)
    requires Uniform(scope) && MembersAllowed(scope, inputs) && FilesNamed(scope, files)
    ensures Agree(scope.isPrivate, inputs, files)
  {
    hide Uniform, MembersAllowed, VisitAll, AllIssues, Visited, CleanKey;
    forall i | 0 <= i < |files| ensures Visited(scope, files[i].name, 0) {
      TopLevelVisited(scope, files[i].name);
    }
    VisitAllIsFaithful(scope, inputs, State({}, []), files, 0, {});
  }

  // ----------------------------------------------- the kind of a member's name

  lemma {:induction false} LastPartOfConcat(xs: seq<string>, ys: seq<string>)
    ensures LastPart(xs + ys) == if LastPart(ys) != "" then LastPart(ys) else LastPart(xs)
    decreases |ys|
  {
    if ys == [] {
      assert xs + ys == xs;
    } else {
      var n := |ys| - 1;
      assert (xs + ys)[|xs + ys| - 1] == ys[n] && (xs + ys)[..|xs + ys| - 1] == xs + ys[..n];
      LastPartOfConcat(xs, ys[..n]);
    }
  }

  function RawLast(name: string): string {
    var parts := Split(name, '/');
    parts[|parts| - 1]
  }

  lemma {:induction false} SplitWithBang(name: string)
    ensures Split(name + "!", '/') == Split(name, '/')[..|Split(name, '/')| - 1] + [RawLast(name) + "!"]
  {
    if name == "" {
      var text := name + "!";
      assert text[1..] == "" && Split(text[1..], '/') == [""];
      assert text[0] == '!' && [text[0]] + "" == text;
      assert Split(text, '/') == [[text[0]] + ""] + [""][1..] == [text];
      assert Split(name, '/') == [""] && [""][..0] + [text] == [text];
    } else {
      var tail := Split(name[1..], '/');
      assert (name + "!")[1..] == name[1..] + "!";
      SplitWithBang(name[1..]);
      if name[0] != '/' && |tail| == 1 {
        assert [name[0]] + (tail[0] + "!") == [name[0]] + tail[0] + "!";
      }
    }
  }

  lemma {:induction false} DotOnWithBang(name: string, at: nat)
    requires at <= |name|
    requires at == |name| && at > 0 ==> name[at - 1] != '.'
    ensures DotOn(name + "!", at) == if DotOn(name, at) == "" then "" else DotOn(name, at) + "!"
    decreases at
  {
    if at > 0 {
      if name[at - 1] != '.' {
        DotOnWithBang(name, at - 1);
      } else {
        assert (name + "!")[at - 1..] == name[at - 1..] + "!";
      }
    }
  }

  lemma {:induction false} LowerWithBang(text: string)
    ensures Lower(text + "!") == Lower(text) + "!"
  {
    if text != "" {
      assert (text + "!")[1..] == text[1..] + "!";
      LowerWithBang(text[1..]);
    }
  }

  lemma FileNameInside(archive: string, member: string)
    ensures FileName(Inside(archive, member)) ==
      if FileName(member) != "" then FileName(member) else RawLast(archive) + "!"
  {
    assert Inside(archive, member) == (archive + "!") + ['/'] + member;
    SplitOfConcat(archive + "!", '/', member);
    LastPartOfConcat(Split(archive + "!", '/'), Split(member, '/'));
    SplitWithBang(archive);
    var last := RawLast(archive) + "!";
    assert last[|last| - 1] == '!' && IsPart(last);
  }

  lemma SuffixWithBang(name: string)
    requires Lower(DotOn(name, |name|)) != ""
    ensures Lower(DotOn(name + "!", |name + "!"|)) == Lower(DotOn(name, |name|)) + "!"
  {
    DotOnWithBang(name, |name|);
    assert DotOn(name + "!", |name| + 1) == DotOn(name + "!", |name|);
    LowerWithBang(DotOn(name, |name|));
  }

  lemma NoSuffixOfBang()
    ensures Lower(DotOn("!", |"!"|)) == "" && Lower(DotOn(".!", |".!"|)) == ""
  {
  }

  lemma NoTextSuffixEndsSo(suffix: string)
    ensures suffix + "!" !in TEXT_SUFFIXES && suffix + "!" != ""
  {
    assert forall text :: text in TEXT_SUFFIXES ==> text != "" && text[|text| - 1] != '!';
    var other := suffix + "!";
    assert other[|other| - 1] == '!';
  }

  // A member with a file name of its own is of the kind that name says. One
  // without ("." or "/") is of no kind that is looked into, except that it is
  // taken for text when the archive's own name ends in "/" or "/.".
  lemma KindInside(archive: string, member: string)
    requires IsArchive(Kind(archive))
    ensures FileName(member) != "" ==> Kind(Inside(archive, member)) == Kind(member)
    ensures FileName(member) == "" ==>
      Kind(Inside(archive, member)) == if IsPart(RawLast(archive)) then Kind(archive) + "!" else "text"
  {
    hide DotOn, Split, Lower, Inside;
    FileNameInside(archive, member);
    if FileName(member) == "" {
      var last := RawLast(archive);
      if IsPart(last) {
        assert FileName(archive) == last;
        hide FileName, LastPart;
        SuffixWithBang(last);
        NoTextSuffixEndsSo(Suffix(archive));
      } else {
        assert last + "!" == "!" || last + "!" == ".!";
        NoSuffixOfBang();
      }
    }
  }

  // ------------------------------------------------------ and only such names

  // The bytes of the archives below: those of a nest's outer archives differ
  // for each place in each nest, those of the innermost are the same.
  const OPENED: Data := "outer"

  function Layer(side: char, i: nat): (data: Data)
    ensures |data| == i + 1 && data[0] == side && data != OPENED
  {
    var data := seq(i + 1, _ => side);
    assert |data| > 1 ==> data[1] == data[0];
    data
  }

  function DataAt(side: char, i: nat, innermost: nat): Data {
    if i == innermost then OPENED else Layer(side, i)
  }

  predicate IsLayer(side: char, below: nat, data: Data) {
    0 < |data| <= below && data == Layer(side, |data| - 1)
  }

  function Unpack(a: Nested, b: Nested, member: string, data: Data): seq<File> {
    if data == OPENED then [File(member, "")]
    else if IsLayer('a', |a.inside|, data) then [File(a.inside[|data| - 1], DataAt('a', |data|, |a.inside|))]
    else if IsLayer('b', |b.inside|, data) then [File(b.inside[|data| - 1], DataAt('b', |data|, |b.inside|))]
    else []
  }

  // Two nests whose innermost archives have one member, which is empty.
  function TwoNests(a: Nested, b: Nested, member: string, faults: seq<string>): Inputs {
    var inside := (data: Data) => Unpack(a, b, member, data);
    Inputs(inside, inside, data => faults, {""})
  }

  ghost predicate HasLayers(inputs: Inputs, n: Nested, side: char) {
    forall i :: 0 <= i < |n.inside| ==> HasLayer(inputs, n, side, i)
  }

  ghost predicate HasLayer(inputs: Inputs, n: Nested, side: char, i: nat)
    requires i < |n.inside|
  {
    var inner := [File(n.inside[i], DataAt(side, i + 1, |n.inside|))];
    inputs.unzip(Layer(side, i)) == inner && inputs.undeb(Layer(side, i)) == inner
  }

  lemma NestsHaveLayers(a: Nested, b: Nested, member: string, faults: seq<string>)
    ensures var inputs := TwoNests(a, b, member, faults); HasLayers(inputs, a, 'a') && HasLayers(inputs, b, 'b')
  {
  }

  lemma LayerMembers(inputs: Inputs, n: Nested, side: char, i: nat)
    requires HasLayers(inputs, n, side) && i < |n.inside| && IsArchive(Kind(FullName(Outer(n, i))))
    ensures Members(inputs, FullName(Outer(n, i)), Layer(side, i))
         == [File(FullName(Outer(n, i + 1)), DataAt(side, i + 1, |n.inside|))]
  {
    hide Kind, Inside;
    assert HasLayer(inputs, n, side, i);
    var m := Outer(n, i + 1);
    InnermostName(m);
    assert Outer(m, i) == Outer(n, i) by { assert m.inside[..i] == n.inside[..i]; }
  }

  // Looking at the outermost archive of a nest is looking at the innermost.
  lemma {:induction false} NestIssues(scope: Scope, inputs: Inputs, n: Nested, side: char, i: nat)
    requires HasLayers(inputs, n, side) && IsNested(scope, n) && i <= |n.inside| <= MAX_DEPTH
    ensures Issues(scope.isPrivate, inputs, FullName(Outer(n, i)), DataAt(side, i, |n.inside|), i)
         == Issues(scope.isPrivate, inputs, FullName(n), OPENED, |n.inside|)
    decreases |n.inside| - i
  {
    hide Kind, FullName, Members;
    if i < |n.inside| {
      assert IsOpen(scope, FullName(Outer(n, i)));
      LayerMembers(inputs, n, side, i);
      NestIssues(scope, inputs, n, side, i + 1);
      var inner := File(FullName(Outer(n, i + 1)), DataAt(side, i + 1, |n.inside|));
      AllOfOne(scope.isPrivate, inputs, inner, i + 1);
    } else {
      assert Outer(n, i) == n by { assert n.inside[..i] == n.inside; }
    }
  }

  lemma AllOfOne(isPrivate: Privacy, inputs: Inputs, file: File, depth: nat)
    requires depth <= MAX_DEPTH + 1
    ensures AllIssues(isPrivate, inputs, [file], depth) == Issues(isPrivate, inputs, file.name, file.data, depth)
    ensures forall s: State ::
      VisitAll(isPrivate, inputs, s, [file], depth) == Visit(isPrivate, inputs, s, file.name, file.data, depth)
  {
    hide Issues, Visit;
    assert [file][1..] == [];
    assert AllIssues(isPrivate, inputs, [], depth) == [];
  }

  // None of the nest's archives from place `i` in was seen.
  predicate Unseen(s: State, side: char, i: nat) {
    forall key :: key in s.seen ==> !(|key.data| > i && key.data == Layer(side, |key.data| - 1))
  }

  lemma {:induction false} NestVisits(scope: Scope, inputs: Inputs, n: Nested, side: char, i: nat, s: State) returns (t: State)
    requires HasLayers(inputs, n, side) && IsNested(scope, n) && i <= |n.inside| <= MAX_DEPTH && Unseen(s, side, i)
    ensures t.issues == s.issues && s.seen <= t.seen
    ensures forall key :: key in t.seen ==> key in s.seen || IsLayer(side, |n.inside|, key.data)
    ensures Visit(scope.isPrivate, inputs, s, FullName(Outer(n, i)), DataAt(side, i, |n.inside|), i)
         == Visit(scope.isPrivate, inputs, t, FullName(n), OPENED, |n.inside|)
    decreases |n.inside| - i
  {
    hide Kind, IsPublic, FullName, Members, Visit;
    if i < |n.inside| {
      var name := FullName(Outer(n, i));
      assert IsOpen(scope, name);
      LayerMembers(inputs, n, side, i);
      var key := KeyOf(name, Layer(side, i), i);
      var marked := State(s.seen + {key}, s.issues);
      VisitStarts(scope.isPrivate, inputs, s, name, Layer(side, i), i);
      assert s.issues + NameIssue(scope.isPrivate, name) == s.issues;
      var inner := File(FullName(Outer(n, i + 1)), DataAt(side, i + 1, |n.inside|));
      AllOfOne(scope.isPrivate, inputs, inner, i + 1);
      t := NestVisits(scope, inputs, n, side, i + 1, marked);
    } else {
      t := s;
      assert Outer(n, i) == n by { assert n.inside[..i] == n.inside; }
    }
  }

  // The empty member has no fault unless it is taken for text.
  lemma EmptyMember(isPrivate: Privacy, a: Nested, b: Nested, member: string, faults: seq<string>, name: string, depth: nat, s: State)
    requires depth <= MAX_DEPTH && !isPrivate(name) && (Kind(name) == "text" ==> faults == [])
    ensures var next := Visit(isPrivate, TwoNests(a, b, member, faults), s, name, "", depth);
      next.issues == s.issues && s.seen <= next.seen <= s.seen + {KeyOf(name, "", depth)}
  {
    hide Kind, IsPublic;
    var inputs := TwoNests(a, b, member, faults);
    assert Members(inputs, name, "") == [];
    assert ContentIssues(inputs, name, "") == [] || IsArchive(Kind(name));
    assert s.issues + [] == s.issues;
  }

  lemma OpenedMembers(a: Nested, b: Nested, member: string, faults: seq<string>, name: string)
    requires IsArchive(Kind(name))
    ensures Members(TwoNests(a, b, member, faults), name, OPENED) == [File(Inside(name, member), "")]
  {
    hide Kind, Inside;
  }

  // The innermost archive of the first nest is looked into.
  lemma FirstIsOpened(isPrivate: Privacy, a: Nested, b: Nested, member: string, faults: seq<string>, name: string, depth: nat, s: State)
    requires depth < MAX_DEPTH && IsArchive(Kind(name)) && !isPrivate(name) && KeyOf(name, OPENED, depth) !in s.seen
    requires !isPrivate(Inside(name, member)) && (Kind(Inside(name, member)) == "text" ==> faults == [])
    ensures var next := Visit(isPrivate, TwoNests(a, b, member, faults), s, name, OPENED, depth);
      && next.issues == s.issues && s.seen + {KeyOf(name, OPENED, depth)} <= next.seen
      && forall key :: key in next.seen ==> key in s.seen || key.data == OPENED || key.data == ""
  {
    hide Kind, IsPublic, Members, Inside, Visit;
    var inputs := TwoNests(a, b, member, faults);
    OpenedMembers(a, b, member, faults, name);
    VisitStarts(isPrivate, inputs, s, name, OPENED, depth);
    assert s.issues + NameIssue(isPrivate, name) == s.issues;
    var marked := State(s.seen + {KeyOf(name, OPENED, depth)}, s.issues);
    AllOfOne(isPrivate, inputs, File(Inside(name, member), ""), depth + 1);
    EmptyMember(isPrivate, a, b, member, faults, Inside(name, member), depth + 1, marked);
  }

  // That of the second has the same bytes and checks, and is skipped, whatever
  // its member is called there.
  lemma {:induction false} SecondIsSkipped(scope: Scope, a: Nested, b: Nested, member: string, faults: seq<string>)
    requires IsNested(scope, a) && IsNested(scope, b) && |a.inside| == |b.inside| < MAX_DEPTH
    requires SameChecks(FullName(a), FullName(b)) && !scope.isPrivate(FullName(a)) && !scope.isPrivate(FullName(b))
    requires var inA := Inside(FullName(a), member); !scope.isPrivate(inA) && (Kind(inA) == "text" ==> faults == [])
    requires var inB := Inside(FullName(b), member); scope.isPrivate(inB) || (Kind(inB) == "text" && faults != [])
    ensures !Agree(scope.isPrivate, TwoNests(a, b, member, faults),
                   [File(a.file, DataAt('a', 0, |a.inside|)), File(b.file, DataAt('b', 0, |b.inside|))])
  {
    hide Kind, IsPublic, Inside, Visit, Issues, TwoNests, FullName, IsNested;
    var depth, inputs := |a.inside|, TwoNests(a, b, member, faults);
    NestsHaveLayers(a, b, member, faults);
    OutermostName(a);
    OutermostName(b);
    var s0 := State({}, []);
    var t0 := NestVisits(scope, inputs, a, 'a', 0, s0);
    FirstIsOpened(scope.isPrivate, a, b, member, faults, FullName(a), depth, t0);
    var s1 := Visit(scope.isPrivate, inputs, s0, a.file, DataAt('a', 0, depth), 0);
    assert Unseen(s1, 'b', 0);
    var t1 := NestVisits(scope, inputs, b, 'b', 0, s1);
    VisitStarts(scope.isPrivate, inputs, t1, FullName(b), OPENED, depth);
    var s2 := Visit(scope.isPrivate, inputs, s1, b.file, DataAt('b', 0, depth), 0);
    assert KeyOf(FullName(b), OPENED, depth) == KeyOf(FullName(a), OPENED, depth);
    assert s2.issues == [];
    DirtyMember(scope, a, b, member, faults);
    NestIssues(scope, inputs, b, 'b', 0);
    VerdictsOfTwo(scope.isPrivate, inputs, File(a.file, DataAt('a', 0, depth)), File(b.file, DataAt('b', 0, depth)));
  }

  lemma OutermostName(n: Nested)
    ensures FullName(Outer(n, 0)) == n.file
  {
  }

  lemma {:induction false} VerdictsOfTwo(isPrivate: Privacy, inputs: Inputs, first: File, second: File)
    ensures var s1 := Visit(isPrivate, inputs, State({}, []), first.name, first.data, 0);
      VisitAll(isPrivate, inputs, State({}, []), [first, second], 0) == Visit(isPrivate, inputs, s1, second.name, second.data, 0)
    ensures AllIssues(isPrivate, inputs, [first, second], 0)
      == Issues(isPrivate, inputs, first.name, first.data, 0) + Issues(isPrivate, inputs, second.name, second.data, 0)
  {
    hide Visit, Issues;
    assert [first, second][1..] == [second];
    AllOfOne(isPrivate, inputs, second, 0);
  }

  lemma {:induction false} DirtyMember(scope: Scope, a: Nested, b: Nested, member: string, faults: seq<string>)
    requires |b.inside| < MAX_DEPTH && IsArchive(Kind(FullName(b)))
    requires var inB := Inside(FullName(b), member); scope.isPrivate(inB) || (Kind(inB) == "text" && faults != [])
    ensures Issues(scope.isPrivate, TwoNests(a, b, member, faults), FullName(b), OPENED, |b.inside|) != []
  {
    hide Kind, IsPublic, Inside, FullName, Members;
    var inputs, inB := TwoNests(a, b, member, faults), Inside(FullName(b), member);
    OpenedMembers(a, b, member, faults, FullName(b));
    AllOfOne(scope.isPrivate, inputs, File(inB, ""), |b.inside| + 1);
    assert Issues(scope.isPrivate, inputs, inB, "", |b.inside| + 1) != [] by {
      if !scope.isPrivate(inB) {
        assert ContentIssues(inputs, inB, "") != [];
      }
    }
  }

  lemma NotUniformDisagrees(scope: Scope, a: string, b: string, depth: nat, member: string)
    requires TwoNames(scope, a, b, depth, member) && !UniformMember(scope.isPrivate, a, b, member)
    ensures exists inputs, files ::
      MembersAllowed(scope, inputs) && FilesNamed(scope, files) && !Agree(scope.isPrivate, inputs, files)
  {
    hide IsPublic, Kind, Agree, Inside, FullName, MembersAllowed, FilesNamed;
    var pa, pb := scope.isPrivate(Inside(a, member)), scope.isPrivate(Inside(b, member));
    var faults: seq<string> := if pa == pb then [": rejected private-data fingerprint"] else [];
    KindInside(a, member);
    KindInside(b, member);
    assert Kind(a) + "!" != "text" by { assert |Kind(a) + "!"| == 5; }
    var nestA: Nested :| IsNested(scope, nestA) && |nestA.inside| == depth && FullName(nestA) == a;
    var nestB: Nested :| IsNested(scope, nestB) && |nestB.inside| == depth && FullName(nestB) == b;
    var first, second := nestA, nestB;
    if pa || (!pb && Kind(Inside(a, member)) == "text") {
      first, second := nestB, nestA;
    }
    SecondIsSkipped(scope, first, second, member, faults);
    NestsAllowed(scope, first, second, member, faults);
  }

  lemma NestsAllowed(scope: Scope, a: Nested, b: Nested, member: string, faults: seq<string>)
    requires IsNested(scope, a) && IsNested(scope, b) && scope.allowed(member)
    ensures MembersAllowed(scope, TwoNests(a, b, member, faults))
    ensures FilesNamed(scope, [File(a.file, DataAt('a', 0, |a.inside|)), File(b.file, DataAt('b', 0, |b.inside|))])
  {
    hide IsOpen, FullName, Layer;
  }

  // For the names top-level files and members can have, the cache changes no
  // verdict on any inputs exactly when what a member's name says about it does
  // not depend on the archive.
  lemma CacheIsSoundExactlyWhenUniform(scope: Scope)
    ensures Uniform(scope)
      <==> forall inputs, files :: MembersAllowed(scope, inputs) && FilesNamed(scope, files) ==> Agree(scope.isPrivate, inputs, files)
  {
    hide MembersAllowed, FilesNamed, Agree, TwoNames, UniformMember;
    if Uniform(scope) {
      forall inputs, files | MembersAllowed(scope, inputs) && FilesNamed(scope, files)
        ensures Agree(scope.isPrivate, inputs, files)
      {
        UniformAgrees(scope, inputs, files);
      }
    } else {
      var a, b, depth: nat, member :| TwoNames(scope, a, b, depth, member) && !UniformMember(scope.isPrivate, a, b, member);
      NotUniformDisagrees(scope, a, b, depth, member);
    }
  }

  // ------------------------------------------------------------ private terms

  // What the term patterns depend on: word characters, white space, and how a
  // name is decoded and case-folded before it is searched.
  datatype Reading = Reading(isWord: char -> bool, isSpace: char -> bool, fold: string -> string)

  // A private term: its words.
  type Term = seq<string>

  // `piece` is the words with white space between them.
  predicate Spells(reading: Reading, words: Term, piece: string) {
    if words == [] then false
    else if |words| == 1 then piece == words[0]
    else exists k, l | 0 <= k < l <= |piece| :: SpellsFirst(reading, words, piece, k, l) && Spells(reading, words[1..], piece[l..])
  }

  predicate SpellsFirst(reading: Reading, words: Term, piece: string, k: nat, l: nat)
    requires words != [] && k < l <= |piece|
  {
    piece[..k] == words[0] && forall i :: k <= i < l ==> reading.isSpace(piece[i])
  }

  // The words stand at text[i..j] and no word character touches them.
  predicate StandsAt(reading: Reading, words: Term, text: string, i: nat, j: nat)
    requires i <= j <= |text|
  {
    && Spells(reading, words, text[i..j])
    && (i == 0 || !reading.isWord(text[i - 1]))
    && (j == |text| || !reading.isWord(text[j]))
  }

  predicate Found(reading: Reading, words: Term, text: string) {
    exists i, j | 0 <= i <= j <= |text| :: StandsAt(reading, words, text, i, j)
  }

  predicate ContainsPrivateTerm(reading: Reading, terms: seq<Term>, name: string) {
    exists words | words in terms :: Found(reading, words, reading.fold(name))
  }

  // Decoding and folding treat "!/" as ordinary text, and "!" is neither a
  // word character nor white space.
  ghost predicate Ordinary(reading: Reading) {
    && !reading.isWord('!') && !reading.isSpace('!')
    && forall a, b :: reading.fold(Inside(a, b)) == Inside(reading.fold(a), reading.fold(b))
  }

  ghost predicate NoBang(words: Term) {
    forall word :: word in words ==> '!' !in word
  }

  lemma {:induction false} SpelledWithoutBang(reading: Reading, words: Term, piece: string)
    requires NoBang(words) && !reading.isSpace('!') && Spells(reading, words, piece)
    ensures '!' !in piece
  {
    assert words[0] in words;
    if |words| > 1 {
      var k, l :| 0 <= k < l <= |piece| && SpellsFirst(reading, words, piece, k, l) && Spells(reading, words[1..], piece[l..]);
      assert forall word :: word in words[1..] ==> word in words;
      SpelledWithoutBang(reading, words[1..], piece[l..]);
      forall i | 0 <= i < |piece| ensures piece[i] != '!' {
        if i < k {
          assert piece[i] == words[0][i] && words[0][i] in words[0];
        } else if i >= l {
          assert piece[i] == piece[l..][i - l] && piece[i] in piece[l..];
        }
      }
    }
  }

  // Such a term is found in a member's full name exactly when it is found in
  // the archive's name or in the member's.
  lemma FoundInside(reading: Reading, words: Term, a: string, b: string)
    requires !reading.isWord('!') && !reading.isSpace('!') && NoBang(words)
    ensures Found(reading, words, Inside(a, b)) <==> Found(reading, words, a) || Found(reading, words, "/" + b)
  {
    hide StandsAt;
    var text, n, tail := Inside(a, b), |a|, "/" + b;
    assert text == a + "!" + tail;
    forall i, j | 0 <= i <= j <= |a|
      ensures StandsAt(reading, words, a, i, j) <==> StandsAt(reading, words, text, i, j)
    {
      StandsLeft(reading, words, a, tail, i, j);
    }
    forall i, j | 0 <= i <= j <= |tail|
      ensures StandsAt(reading, words, tail, i, j) <==> StandsAt(reading, words, text, n + 1 + i, n + 1 + j)
    {
      StandsRight(reading, words, a, tail, i, j);
    }
    forall i, j | 0 <= i <= n < j <= |text|
      ensures !StandsAt(reading, words, text, i, j)
    {
      StandsNotAcross(reading, words, text, i, n, j);
    }
    if Found(reading, words, text) {
      var i, j :| 0 <= i <= j <= |text| && StandsAt(reading, words, text, i, j);
      if j > n {
        assert StandsAt(reading, words, tail, i - n - 1, j - n - 1);
      }
    }
  }

  lemma StandsLeft(reading: Reading, words: Term, a: string, tail: string, i: nat, j: nat)
    requires !reading.isWord('!') && i <= j <= |a|
    ensures StandsAt(reading, words, a, i, j) <==> StandsAt(reading, words, a + "!" + tail, i, j)
  {
    assert (a + "!" + tail)[i..j] == a[i..j];
  }

  lemma StandsRight(reading: Reading, words: Term, a: string, tail: string, i: nat, j: nat)
    requires !reading.isWord('!') && i <= j <= |tail|
    ensures StandsAt(reading, words, tail, i, j) <==> StandsAt(reading, words, a + "!" + tail, |a| + 1 + i, |a| + 1 + j)
  {
    assert (a + "!" + tail)[|a| + 1 + i..|a| + 1 + j] == tail[i..j];
  }

  lemma StandsNotAcross(reading: Reading, words: Term, text: string, i: nat, n: nat, j: nat)
    requires NoBang(words) && !reading.isSpace('!') && i <= n < j <= |text| && text[n] == '!'
    ensures !StandsAt(reading, words, text, i, j)
  {
    assert text[i..j][n - i] == '!';
    if Spells(reading, words, text[i..j]) {
      SpelledWithoutBang(reading, words, text[i..j]);
    }
  }

  function PrivateBy(reading: Reading, terms: seq<Term>): Privacy {
    name => ContainsPrivateTerm(reading, terms, name)
  }

  const NOTHING_PRIVATE: Privacy := name => false

  const HAS_FILE_NAME: string -> bool := member => FileName(member) != ""

  const ANY_NAME: string -> bool := name => true

  // Members have a file name.
  function NamedMembers(reading: Reading, terms: seq<Term>, named: string -> bool): Scope {
    Scope(PrivateBy(reading, terms), named, HAS_FILE_NAME)
  }

  // The audit as it is used: when no private term has a "!" and every archive
  // member has a file name, the cache changes no verdict.
  lemma CacheIsSoundForPlainTerms(reading: Reading, terms: seq<Term>, inputs: Inputs, files: seq<File>)
    requires Ordinary(reading) && forall words :: words in terms ==> NoBang(words)
    requires MembersAllowed(NamedMembers(reading, terms, ANY_NAME), inputs)
    ensures Agree(PrivateBy(reading, terms), inputs, files)
  {
    hide FileName, Agree, NoBang, SameChecks, MembersAllowed, Visited;
    var scope, isPrivate := NamedMembers(reading, terms, ANY_NAME), PrivateBy(reading, terms);
    forall a, b, depth: nat, member | TwoNames(scope, a, b, depth, member)
      ensures UniformMember(isPrivate, a, b, member)
    {
      PrivateInside(reading, terms, a, member);
      PrivateInside(reading, terms, b, member);
      SameKindInside(a, b, member);
    }
    UniformAgrees(scope, inputs, files);
  }

  lemma SameKindInside(a: string, b: string, member: string)
    requires SameChecks(a, b) && FileName(member) != ""
    ensures Kind(Inside(a, member)) == Kind(Inside(b, member))
  {
    hide FileName, Kind;
    KindInside(a, member);
    KindInside(b, member);
  }

  lemma PrivateInside(reading: Reading, terms: seq<Term>, a: string, member: string)
    requires Ordinary(reading) && forall words :: words in terms ==> NoBang(words)
    ensures ContainsPrivateTerm(reading, terms, Inside(a, member)) <==>
      ContainsPrivateTerm(reading, terms, a) || exists words | words in terms :: Found(reading, words, "/" + reading.fold(member))
  {
    hide Found, NoBang;
    forall words | words in terms
      ensures Found(reading, words, reading.fold(Inside(a, member))) <==>
        Found(reading, words, reading.fold(a)) || Found(reading, words, "/" + reading.fold(member))
    {
      FoundInside(reading, words, reading.fold(a), reading.fold(member));
    }
  }

  lemma KindOfZip(stem: string)
    requires stem != "" && '/' !in stem
    ensures Kind(stem + ".zip") == ".zip" && FileName(stem + ".zip") == stem + ".zip" && RawLast(stem + ".zip") == stem + ".zip"
  {
    hide DotOn, Lower, Split;
    var name := stem + ".zip";
    SplitOfPlain(name, '/');
    assert Split(name, '/') == [name];
    assert LastPart([name]) == name by { assert [name][0] == name; }
    DotOnOfZip(stem);
    LowerOfZip();
    assert ".zip" !in TEXT_SUFFIXES;
  }

  lemma DotOnOfZip(stem: string)
    requires stem != ""
    ensures DotOn(stem + ".zip", |stem + ".zip"|) == ".zip"
  {
    var name, n := stem + ".zip", |stem|;
    assert name[n] == '.';
    assert DotOn(name, n + 4) == DotOn(name, n + 3);
    assert DotOn(name, n + 2) == DotOn(name, n + 1) == name[n..];
  }

  lemma LowerOfZip()
    ensures Lower(".zip") == ".zip"
  {
  }

  lemma NotPublic(name: string)
    requires |name| < 11
    ensures !IsPublic(name)
  {
  }

  // The names that pathlib gives to files: no part is empty or ".".
  const PATH_NAME: string -> bool := name => forall part :: part in Split(name, '/') ==> IsPart(part)

  lemma PlainNameIsPathName(name: string)
    requires name != "" && name != "." && '/' !in name
    ensures PATH_NAME(name)
  {
    SplitOfPlain(name, '/');
  }

  // A "!" in a term does make a difference, even without the whole "!/": a
  // term that ends with an archive's name and "!" is found in the members'
  // names only, and those of an archive seen before are not looked at.
  lemma TermWithBangDisagrees()
    ensures var scope := NamedMembers(PlainReading(), [["acme.zip!"]], PATH_NAME);
      exists inputs, files ::
        MembersAllowed(scope, inputs) && FilesNamed(scope, files) && !Agree(scope.isPrivate, inputs, files)
  {
    hide FileName, Agree, MembersAllowed, ContainsPrivateTerm, SameChecks, UniformMember, Visited;
    var scope := NamedMembers(PlainReading(), [["acme.zip!"]], PATH_NAME);
    ZipsHaveSameChecks();
    OnlySecondIsPrivate();
    NamedM();
    PlainNameIsPathName("a.zip");
    PlainNameIsPathName("acme.zip");
    TopLevelVisited(scope, "a.zip");
    TopLevelVisited(scope, "acme.zip");
    NotUniformDisagrees(scope, "a.zip", "acme.zip", 0, "m");
  }

  lemma ZipsHaveSameChecks()
    ensures SameChecks("a.zip", "acme.zip")
  {
    hide Kind, IsPublic;
    KindOfZip("a");
    KindOfZip("acme");
    assert "a" + ".zip" == "a.zip" && "acme" + ".zip" == "acme.zip";
    NotPublic("a.zip");
    NotPublic("acme.zip");
  }

  lemma {:induction false} OnlySecondIsPrivate()
    ensures var isPrivate := PrivateBy(PlainReading(), [["acme.zip!"]]);
      !isPrivate("a.zip") && !isPrivate("acme.zip") && !UniformMember(isPrivate, "a.zip", "acme.zip", "m")
  {
    hide ContainsPrivateTerm, Kind;
    assert Inside("a.zip", "m") == "a.zip!/m" && Inside("acme.zip", "m") == "acme.zip!/m";
    ShortNamesAreNotPrivate("a.zip");
    ShortNamesAreNotPrivate("a.zip!/m");
    ShortNamesAreNotPrivate("acme.zip");
    LongNameIsPrivate();
  }

  function PlainReading(): Reading {
    Reading(c => 'a' <= c <= 'z', c => c == ' ', text => text)
  }

  lemma ShortNamesAreNotPrivate(name: string)
    requires |name| <= 8
    ensures !ContainsPrivateTerm(PlainReading(), [["acme.zip!"]], name)
  {
  }

  lemma LongNameIsPrivate()
    ensures ContainsPrivateTerm(PlainReading(), [["acme.zip!"]], "acme.zip!/m")
  {
    var full, term := "acme.zip!/m", ["acme.zip!"];
    assert full[0..9] == "acme.zip!";
    assert StandsAt(PlainReading(), term, full, 0, 9);
    assert Found(PlainReading(), term, full);
    assert term in [term];
  }

  lemma NamedM()
    ensures FileName("m") != ""
  {
    SplitOfPlain("m", '/');
  }

  const ANY_MEMBER: Scope := Scope(NOTHING_PRIVATE, PATH_NAME, ANY_NAME)

  // So does a member without a file name: the same archive bytes as "y.zip" in
  // one archive and as "y.zip/." in another hold it under two kinds.
  lemma NamelessMemberDisagrees()
    ensures exists inputs, files ::
      MembersAllowed(ANY_MEMBER, inputs) && FilesNamed(ANY_MEMBER, files) && !Agree(NOTHING_PRIVATE, inputs, files)
  {
    hide FileName, Kind, IsPublic, Agree, MembersAllowed, FilesNamed, Inside, Visited, RawLast, Split;
    assert "o" + ".zip" == "o.zip" && "p" + ".zip" == "p.zip" && "y" + ".zip" == "y.zip";
    KindOfZip("o");
    KindOfZip("p");
    KindOfZip("y");
    DottedArchive();
    NotPublic("o.zip");
    NotPublic("p.zip");
    NotPublic("y.zip");
    NotPublic("y.zip/.");
    PlainNameIsPathName("o.zip");
    PlainNameIsPathName("p.zip");
    InnerArchive("o.zip", "y.zip");
    InnerArchive("p.zip", "y.zip/.");
    var a, b := Inside("o.zip", "y.zip"), Inside("p.zip", "y.zip/.");
    KindInside(a, ".");
    KindInside(b, ".");
    assert |".zip" + "!"| == 5 && IsPart("y.zip");
    assert TwoNames(ANY_MEMBER, a, b, 1, ".");
    NotUniformDisagrees(ANY_MEMBER, a, b, 1, ".");
  }

  lemma {:induction false} InnerArchive(outer: string, inner: string)
    requires PATH_NAME(outer) && Kind(outer) == ".zip" && Kind(inner) == ".zip" && FileName(inner) != ""
    requires !IsPublic(outer) && !IsPublic(inner)
    ensures var name := Inside(outer, inner);
      Visited(ANY_MEMBER, name, 1) && Kind(name) == ".zip" && !IsPublic(name) && RawLast(name) == RawLast(inner)
  {
    hide FileName, IsPublic, Kind, Visited, RawLast, Inside;
    PublicInside(outer, inner);
    KindInside(outer, inner);
    TopLevelVisited(ANY_MEMBER, outer);
    MemberVisited(ANY_MEMBER, outer, 0, inner);
    RawLastInside(outer, inner);
  }

  lemma RawLastInside(archive: string, member: string)
    ensures RawLast(Inside(archive, member)) == RawLast(member)
  {
    hide Split;
    SplitOfConcat(archive + "!", '/', member);
    assert Inside(archive, member) == archive + "!" + ['/'] + member;
  }

  lemma DottedArchive()
    ensures Kind("y.zip/.") == Kind("y.zip") && FileName("y.zip/.") != "" && RawLast("y.zip/.") == "." && FileName(".") == ""
  {
    hide DotOn, Lower;
    assert "y.zip" + ['/'] + "." == "y.zip/.";
    SplitAtSeparator("y.zip", '/', ".");
    SplitOfPlain("y.zip", '/');
    SplitOfPlain(".", '/');
    assert Split("y.zip/.", '/') == ["y.zip", "."];
    assert ["y.zip", "."][..1] == ["y.zip"];
    assert LastPart(["y.zip", "."]) == LastPart(["y.zip"]) == "y.zip";
    assert FileName("y.zip/.") == FileName("y.zip");
  }

  // A file that is an archive and holds itself.
  ghost predicate HoldsItself(inputs: Inputs, kind: string, data: Data, i: nat) {
    && IsArchive(kind) && i < |Inner(inputs, kind, data)|
    && var member := Inner(inputs, kind, data)[i];
       member.data == data && FileName(member.name) != "" && Kind(member.name) == kind
  }

  // Without the cache, it is opened to the depth bound and reported, whatever
  // else is in it.
  lemma {:induction false} SelfContainingIsReported(isPrivate: Privacy, inputs: Inputs, name: string, data: Data, i: nat, depth: nat)
    requires depth <= MAX_DEPTH + 1 && HoldsItself(inputs, Kind(name), data, i)
    ensures Issues(isPrivate, inputs, name, data, depth) != []
    decreases MAX_DEPTH + 1 - depth
  {
    hide Kind, FileName, ContentIssues, AllIssues, NameIssue, HoldsItself, Members;
    HeldIsArchive(inputs, Kind(name), data, i);
    if depth <= MAX_DEPTH {
      var members := Members(inputs, name, data);
      HeldInside(inputs, name, data, i);
      SelfContainingIsReported(isPrivate, inputs, members[i].name, data, i, depth + 1);
      IssueOfOne(isPrivate, inputs, members, i, depth + 1);
    }
  }

  lemma {:induction false} IssueOfOne(isPrivate: Privacy, inputs: Inputs, files: seq<File>, i: nat, depth: nat)
    requires depth <= MAX_DEPTH + 1 && i < |files|
    requires Issues(isPrivate, inputs, files[i].name, files[i].data, depth) != []
    ensures AllIssues(isPrivate, inputs, files, depth) != []
    decreases |files|
  {
    hide Issues;
    if i > 0 {
      IssueOfOne(isPrivate, inputs, files[1..], i - 1, depth);
    }
  }

  // While no issue was found, this archive was not seen at this depth or deeper.
  ghost predicate NotYet(s: State, kind: string, data: Data, depth: nat) {
    s.issues == [] ==> forall key :: key in s.seen ==>
      !(key.data == data && key.kind == kind && key.archiveDepth.Some? && key.archiveDepth.value >= depth)
  }

  ghost predicate SeenDeeper(before: State, after: State, depth: nat) {
    && before.issues <= after.issues
    && forall key :: key in after.seen ==>
         key in before.seen || key.archiveDepth.None? || key.archiveDepth.value >= depth
  }

  // With the cache, too: whichever of its copies comes first is followed down
  // to the bound before any other copy at its depth could be skipped.
  lemma {:induction false} SelfContainingIsFound(isPrivate: Privacy, inputs: Inputs, kind: string, data: Data, i: nat, s: State, file: File, depth: nat)
    requires depth <= MAX_DEPTH + 1 && HoldsItself(inputs, kind, data, i) && NotYet(s, kind, data, depth)
    ensures var after := Visit(isPrivate, inputs, s, file.name, file.data, depth);
      && NotYet(after, kind, data, depth) && SeenDeeper(s, after, depth)
      && (file.data == data && Kind(file.name) == kind ==> after.issues != [])
    decreases MAX_DEPTH + 1 - depth, 0, 1
  {
    hide Kind, IsPublic, FileName, ContentIssues, Members, HoldsItself, Visit;
    VisitStarts(isPrivate, inputs, s, file.name, file.data, depth);
    HeldIsArchive(inputs, kind, data, i);
    if depth <= MAX_DEPTH && KeyOf(file.name, file.data, depth) !in s.seen && IsArchive(Kind(file.name)) {
      var marked := State(s.seen + {KeyOf(file.name, file.data, depth)}, s.issues + NameIssue(isPrivate, file.name));
      var members := Members(inputs, file.name, file.data);
      SelfContainingIsFoundAmong(isPrivate, inputs, kind, data, i, marked, members, depth + 1);
      if file.data == data && Kind(file.name) == kind {
        HeldInside(inputs, file.name, data, i);
      }
    }
  }

  lemma {:induction false} HeldIsArchive(inputs: Inputs, kind: string, data: Data, i: nat)
    requires HoldsItself(inputs, kind, data, i)
    ensures IsArchive(kind)
  {
  }

  lemma HeldInside(inputs: Inputs, name: string, data: Data, i: nat)
    requires HoldsItself(inputs, Kind(name), data, i)
    ensures var members := Members(inputs, name, data);
      i < |members| && members[i].data == data && Kind(members[i].name) == Kind(name)
  {
    hide Kind, FileName;
    KindInside(name, Inner(inputs, Kind(name), data)[i].name);
  }

  lemma {:induction false} SelfContainingIsFoundAmong(isPrivate: Privacy, inputs: Inputs, kind: string, data: Data, i: nat, s: State, files: seq<File>, depth: nat)
    requires depth <= MAX_DEPTH + 1 && HoldsItself(inputs, kind, data, i) && NotYet(s, kind, data, depth)
    ensures var after := VisitAll(isPrivate, inputs, s, files, depth);
      && NotYet(after, kind, data, depth) && SeenDeeper(s, after, depth)
      && ((exists k :: 0 <= k < |files| && files[k].data == data && Kind(files[k].name) == kind) ==> after.issues != [])
    decreases MAX_DEPTH + 1 - depth, 1, |files|
  {
    hide Kind, HoldsItself, Visit;
    if files != [] {
      SelfContainingIsFound(isPrivate, inputs, kind, data, i, s, files[0], depth);
      var next := Visit(isPrivate, inputs, s, files[0].name, files[0].data, depth);
      SelfContainingIsFoundAmong(isPrivate, inputs, kind, data, i, next, files[1..], depth);
      if k :| 0 <= k < |files| && files[k].data == data && Kind(files[k].name) == kind {
        assert k > 0 ==> files[1..][k - 1] == files[k];
      }
    }
  }

  // So no audit of files with such an archive among them passes.
  lemma {:induction false} SelfContainingNeverPasses(isPrivate: Privacy, inputs: Inputs, files: seq<File>, k: nat, i: nat)
    requires k < |files| && HoldsItself(inputs, Kind(files[k].name), files[k].data, i)
    ensures VisitAll(isPrivate, inputs, State({}, []), files, 0).issues != []
  {
    hide Kind, HoldsItself, VisitAll;
    SelfContainingIsFoundAmong(isPrivate, inputs, Kind(files[k].name), files[k].data, i, State({}, []), files, 0);
  }
}
