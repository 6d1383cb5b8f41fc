// What a report of the audit that passes says of the files audited.
// (tools/audit-public-data.py)

module AuditReports {
  import opened Text
  import opened PublicDataAudit

  // ------------------------------------------------------------ how names end

  // `small` is `text` with its capitals made small.
  predicate IsSmall(text: string, small: string) {
    |text| == |small| && forall i | 0 <= i < |text| :: IsSmallOf(text[i], small[i])
  }

  predicate IsSmallOf(c: char, small: char) {
    if 'A' <= c <= 'Z' then 'a' <= small <= 'z' && small - 'a' == c - 'A' else small == c
  }

  // `last` is the last part of a path; after it come only slashes and "."s.
  ghost predicate IsLastPart(name: string, directory: string, last: string, tail: string) {
    && name == directory + last + tail
    && (directory == "" || directory[|directory| - 1] == '/')
    && '/' !in last && last != "" && last != "."
    && (tail == "" || (tail[0] == '/' && forall part :: IsPartOf(part, tail, '/') ==> part == "" || part == "."))
  }

  // The last part of `name` ends in a dot and what is called `suffix`, in
  // either letter case, with something in front of the dot.
  ghost predicate EndsIn(name: string, suffix: string) {
    exists directory, stem, ending, tail ::
      IsLastPart(name, directory, stem + ending, tail) && stem != "" && IsEnding(ending, suffix)
  }

  ghost predicate IsEnding(ending: string, suffix: string) {
    |ending| > 1 && ending[0] == '.' && '.' !in ending[1..] && IsSmall(ending, suffix)
  }

  lemma {:induction false} LowerIs(text: string, small: string)
    ensures Lower(text) == small <==> IsSmall(text, small)
  {
    hide IsSmallOf;
    if text != "" {
      LowerOfLetter(text[0]);
      if small != "" {
        LowerIs(text[1..], small[1..]);
        assert small == [small[0]] + small[1..];
        if IsSmall(text, small) {
          forall i | 0 <= i < |text[1..]| ensures IsSmallOf(text[1..][i], small[1..][i]) {
            assert IsSmallOf(text[i + 1], small[i + 1]);
          }
        }
        if Lower(text) == small {
          forall i | 0 <= i < |text| ensures IsSmallOf(text[i], small[i]) {
            assert i > 0 ==> text[i] == text[1..][i - 1] && small[i] == small[1..][i - 1];
          }
        }
      }
    }
  }

  lemma LowerOfLetter(c: char)
    ensures |Lower([c])| == 1 && forall small :: Lower([c])[0] == small <==> IsSmallOf(c, small)
  {
    assert [c][1..] == "";
  }

  // ------------------------------------------------- the kind of a file's name

  lemma {:induction false} NoPart(parts: seq<string>)
    ensures LastPart(parts) == "" <==> forall part :: part in parts ==> !IsPart(part)
  {
    if parts != [] {
      var n := |parts| - 1;
      NoPart(parts[..n]);
      assert parts == parts[..n] + [parts[n]];
    }
  }

  lemma NothingAfter(tail: string)
    requires tail != "" && tail[0] == '/'
    ensures Split(tail, '/') == [""] + Split(tail[1..], '/')
    ensures LastPart(Split(tail[1..], '/')) == "" <==> forall part :: IsPartOf(part, tail, '/') ==> part == "" || part == "."
  {
    hide Split, IsPartOf, LastPart;
    var rest := Split(tail[1..], '/');
    assert tail == "" + ['/'] + tail[1..];
    SplitAtSeparator("", '/', tail[1..]);
    NoPart(rest);
    assert forall part :: part in [""] + rest <==> part == "" || part in rest;
    forall part ensures part in Split(tail, '/') <==> IsPartOf(part, tail, '/') {
      PartsAreBetween(tail, '/', part);
    }
  }

  // The file name is what is in that place.
  lemma {:induction false} FileNameIs(name: string, directory: string, last: string, tail: string)
    requires IsLastPart(name, directory, last, tail)
    ensures FileName(name) == last
  {
    hide Split, IsPartOf, LastPart;
    var rest := last + tail;
    if tail == "" {
      assert rest == last;
      SplitOfPlain(last, '/');
    } else {
      NothingAfter(tail);
      assert rest == last + ['/'] + tail[1..];
      SplitAtSeparator(last, '/', tail[1..]);
      LastPartOfConcat([last], Split(tail[1..], '/'));
    }
    LastOfOne(last);
    if directory == "" {
      assert name == rest;
    } else {
      var front := directory[..|directory| - 1];
      assert name == front + ['/'] + rest;
      SplitOfConcat(front, '/', rest);
      LastPartOfConcat(Split(front, '/'), Split(rest, '/'));
    }
  }

  lemma LastOfOne(part: string)
    ensures LastPart([part]) == if IsPart(part) then part else ""
  {
    assert [part][..0] == [];
  }

  lemma {:induction false} FileNameIsSomewhere(name: string) returns (directory: string, tail: string)
    requires FileName(name) != ""
    ensures IsLastPart(name, directory, FileName(name), tail)
  {
    hide Split, IsPartOf, LastPart;
    if '/' !in name {
      SplitOfPlain(name, '/');
      LastOfOne(name);
      directory, tail := "", "";
    } else {
      var n := FirstSeparator(name, '/');
      var head, rest := name[..n], name[n + 1..];
      assert name == head + ['/'] + rest;
      SplitAtSeparator(head, '/', rest);
      LastPartOfConcat([head], Split(rest, '/'));
      LastOfOne(head);
      if FileName(rest) != "" {
        directory, tail := FileNameIsSomewhere(rest);
        assert name == head + ['/'] + directory + FileName(rest) + tail;
        directory := head + ['/'] + directory;
      } else {
        directory, tail := "", ['/'] + rest;
        NothingAfter(tail);
        assert tail[1..] == rest;
      }
    }
  }

  lemma {:induction false} DotOnIs(name: string, at: nat)
    requires at <= |name| && '.' !in name[at..]
    ensures var ending := DotOn(name, at);
      if ending == "" then
        forall stem, other :: name == stem + other && stem != "" && |other| > 1 && other[0] == '.' ==> '.' in other[1..]
      else
        |ending| < |name| && name == name[..|name| - |ending|] + ending
        && |ending| > 1 && ending[0] == '.' && '.' !in ending[1..]
    decreases at
  {
    if at > 0 && name[at - 1] != '.' {
      assert name[at - 1..] == [name[at - 1]] + name[at..];
      DotOnIs(name, at - 1);
    } else if at == 0 || at - 1 == 0 || at == |name| {
      forall stem, other | name == stem + other && stem != "" && |other| > 1 && other[0] == '.' ensures '.' in other[1..] {
        assert name[|stem|] == '.';
        assert |stem| < at;
        assert other[at - 1 - |stem|] == name[at - 1];
      }
    }
  }

  lemma OneEnding(name: string, stem: string, ending: string, other: string)
    requires name == stem + ending && |ending| > 1 && ending[0] == '.' && '.' !in ending[1..]
    requires |other| <= |name| && name == name[..|name| - |other|] + other
    requires |other| > 1 && other[0] == '.' && '.' !in other[1..]
    ensures other == ending
  {
    var at := |name| - |other|;
    assert name[at] == '.' && name[|stem|] == '.';
    assert forall i :: at < i < |name| ==> name[i] == other[i - at] == other[1..][i - at - 1];
    assert forall i :: |stem| < i < |name| ==> name[i] == ending[i - |stem|] == ending[1..][i - |stem| - 1];
  }

  // The suffix a file is checked by, in terms of the name alone.
  lemma {:induction false} SuffixIs(name: string, suffix: string)
    requires suffix != ""
    ensures Suffix(name) == suffix <==> EndsIn(name, suffix)
  {
    hide FileName, IsSmall, DotOn, IsPartOf, Lower;
    var last := FileName(name);
    var ending := DotOn(last, |last|);
    DotOnIs(last, |last|);
    LowerIs(ending, suffix);
    if Suffix(name) == suffix {
      assert ending != "" by { LowerOfNothing(); }
      var directory, tail := FileNameIsSomewhere(name);
      var stem := last[..|last| - |ending|];
      assert IsLastPart(name, directory, stem + ending, tail);
    }
    if EndsIn(name, suffix) {
      var directory, stem, other, tail :|
        IsLastPart(name, directory, stem + other, tail) && stem != "" && IsEnding(other, suffix);
      FileNameIs(name, directory, stem + other, tail);
      OneEnding(last, stem, other, ending);
    }
  }

  lemma LowerOfNothing()
    ensures Lower("") == ""
  {
  }

  // ------------------------------------------------ what is wrong with a file

  predicate Has(text: string, part: string) {
    exists n | 0 <= n <= |text| :: text[..n] + part <= text
  }

  predicate IsPublished(name: string) {
    Has(name, "assets/screenshots/") || Has(name, "docs/assets/") || Has(name, "public/tour/")
  }

  ghost predicate IsPicture(name: string) {
    EndsIn(name, ".png") || EndsIn(name, ".jpg") || EndsIn(name, ".jpeg") || EndsIn(name, ".webp")
  }

  // With one of the known endings, or with none.
  ghost predicate IsTextFile(name: string) {
    (exists suffix :: suffix in TEXT_SUFFIXES && EndsIn(name, suffix)) || forall suffix :: suffix != "" ==> !EndsIn(name, suffix)
  }

  // A published picture is registered, and a text has no faults.
  ghost predicate IsSoundContent(inputs: Inputs, name: string, data: Data) {
    && (IsPicture(name) && IsPublished(name) ==> data in inputs.knownImages)
    && (IsTextFile(name) ==> inputs.textFaults(data) == [])
  }

  ghost predicate IsSound(isPrivate: Privacy, inputs: Inputs, name: string, data: Data, depth: nat) {
    !isPrivate(name) && depth <= 8 && IsSoundContent(inputs, name, data)
  }

  lemma HasIsContains(text: string, part: string)
    ensures Contains(text, part) <==> Has(text, part)
  {
    forall n | 0 <= n <= |text| ensures part <= text[n..] <==> text[..n] + part <= text {
      assert text == text[..n] + text[n..];
      if part <= text[n..] {
        assert text[n..] == part + text[n..][|part|..];
        assert text == text[..n] + part + text[n..][|part|..];
      }
      if text[..n] + part <= text {
        assert text[n..][..|part|] == (text[..n] + part)[n..] == part;
      }
    }
  }

  lemma PublishedIs(name: string)
    ensures IsPublic(name) <==> IsPublished(name)
  {
    hide Contains, Has;
    forall part ensures Contains(name, part) <==> Has(name, part) {
      HasIsContains(name, part);
    }
    assert "assets/screenshots/" in PUBLIC_PARTS && "docs/assets/" in PUBLIC_PARTS && "public/tour/" in PUBLIC_PARTS;
  }

  lemma PictureIs(name: string)
    ensures IsPicture(name) <==> Kind(name) in IMAGE_SUFFIXES
  {
    hide Suffix, EndsIn;
    SuffixIs(name, ".png");
    SuffixIs(name, ".jpg");
    SuffixIs(name, ".jpeg");
    SuffixIs(name, ".webp");
    assert "text" !in IMAGE_SUFFIXES;
  }

  lemma TextFileIs(name: string)
    ensures IsTextFile(name) <==> Kind(name) == "text"
  {
    hide Suffix, EndsIn;
    forall suffix | suffix != "" ensures Suffix(name) == suffix <==> EndsIn(name, suffix) {
      SuffixIs(name, suffix);
    }
    TextIsNoSuffix(name);
    assert "" !in TEXT_SUFFIXES;
    assert Suffix(name) != "" ==> EndsIn(name, Suffix(name));
    hide TEXT_SUFFIXES;
    if suffix :| suffix in TEXT_SUFFIXES && EndsIn(name, suffix) {
      assert Suffix(name) == suffix;
    }
  }

  lemma TextIsNoSuffix(name: string)
    ensures Suffix(name) != "text"
  {
    hide EndsIn, Suffix;
    SuffixIs(name, "text");
    if EndsIn(name, "text") {
      NoEndingText(name);
    }
  }

  lemma NoEndingText(name: string)
    ensures !EndsIn(name, "text")
  {
    hide IsLastPart;
    forall ending ensures !IsEnding(ending, "text") {
      assert IsEnding(ending, "text") ==> IsSmallOf(ending[0], "text"[0]);
    }
  }

  lemma ContentIssuesAre(inputs: Inputs, name: string, data: Data)
    requires !IsArchive(Kind(name))
    ensures ContentIssues(inputs, name, data) == [] <==> IsSoundContent(inputs, name, data)
  {
    hide Kind, IsPublic, IsPicture, IsPublished, IsTextFile;
    PublishedIs(name);
    PictureIs(name);
    TextFileIs(name);
    assert "text" !in IMAGE_SUFFIXES;
  }

  // An issue says which file it is of.
  lemma IssuesNameTheFile(inputs: Inputs, name: string, data: Data, issue: string)
    requires issue in ContentIssues(inputs, name, data)
    ensures exists what: string :: issue == name + what
  {
    hide Kind, IsPublic;
    var i :| 0 <= i < |ContentIssues(inputs, name, data)| && ContentIssues(inputs, name, data)[i] == issue;
    assert name <= issue;
    assert issue == name + issue[|name|..];
  }

  lemma ArchiveIsSound(inputs: Inputs, name: string, data: Data)
    requires IsArchive(Kind(name))
    ensures IsSoundContent(inputs, name, data)
  {
    hide Kind, IsPublic, IsPicture, IsPublished, IsTextFile;
    PictureIs(name);
    TextFileIs(name);
    assert ".zip" !in IMAGE_SUFFIXES && ".deb" !in IMAGE_SUFFIXES;
  }

  // ------------------------------------------------- the files it comes to

  // A file the audit comes to, this deep inside archives.
  datatype Come = Come(name: string, data: Data, depth: nat)

  // `member` is the file `inner` of the archive `outer`.
  ghost predicate IsMember(inputs: Inputs, outer: Come, member: Come) {
    && member.depth == outer.depth + 1
    && exists inner: File ::
         && ((EndsIn(outer.name, ".zip") && inner in inputs.unzip(outer.data))
             || (EndsIn(outer.name, ".deb") && inner in inputs.undeb(outer.data)))
         && member == Come(outer.name + "!/" + inner.name, inner.data, outer.depth + 1)
  }

  // Equal bytes, of one kind, at one depth, both among the published files or
  // both not.
  ghost predicate SameArchive(a: Come, b: Come) {
    && a.data == b.data && a.depth == b.depth && IsPublished(a.name) == IsPublished(b.name)
    && (EndsIn(a.name, ".zip") <==> EndsIn(b.name, ".zip")) && (EndsIn(a.name, ".deb") <==> EndsIn(b.name, ".deb"))
  }

  ghost predicate IsArchiveFile(name: string) {
    EndsIn(name, ".zip") || EndsIn(name, ".deb")
  }

  // All the members of the archive are among `come`.
  ghost predicate LookedInto(inputs: Inputs, come: set<Come>, f: Come) {
    forall member :: IsMember(inputs, f, member) ==> member in come
  }

  // The audit comes to all these files: to those it is given; and to what is in
  // the archives, though it looks into only one of several with the same checks.
  ghost predicate Covers(inputs: Inputs, files: seq<File>, come: set<Come>) {
    && (forall i :: 0 <= i < |files| ==> Come(files[i].name, files[i].data, 0) in come)
    && (forall f :: f in come && f.depth <= MAX_DEPTH && IsArchiveFile(f.name) ==>
          exists g :: g in come && SameArchive(f, g) && LookedInto(inputs, come, g))
  }

  ghost predicate AllSound(isPrivate: Privacy, inputs: Inputs, come: set<Come>) {
    forall f :: f in come ==> IsSound(isPrivate, inputs, f.name, f.data, f.depth)
  }

  // ------------------------------------------------- what the audit came to

  // The audit's way through the files, with nothing but the keys.
  datatype Way = Way(come: set<Come>, seen: set<Key>)

  ghost function WayOf(inputs: Inputs, seen: set<Key>, name: string, data: Data, depth: nat): Way
    requires depth <= MAX_DEPTH + 1
    decreases MAX_DEPTH + 1 - depth, 0, 1
  {
    var here := {Come(name, data, depth)};
    if depth > MAX_DEPTH || KeyOf(name, data, depth) in seen then Way(here, seen)
    else
      var marked := seen + {KeyOf(name, data, depth)};
      if IsArchive(Kind(name)) then
        var inside := WayOfAll(inputs, marked, Members(inputs, name, data), depth + 1);
        Way(here + inside.come, inside.seen)
      else Way(here, marked)
  }

  ghost function WayOfAll(inputs: Inputs, seen: set<Key>, files: seq<File>, depth: nat): Way
    requires depth <= MAX_DEPTH + 1
    decreases MAX_DEPTH + 1 - depth, 1, |files|
  {
    if files == [] then Way({}, seen)
    else
      var first := WayOf(inputs, seen, files[0].name, files[0].data, depth);
      var rest := WayOfAll(inputs, first.seen, files[1..], depth);
      Way(first.come + rest.come, rest.seen)
  }

  ghost predicate SoundKey(inputs: Inputs, key: Key) {
    && (key.kind in IMAGE_SUFFIXES && key.isPublic ==> key.data in inputs.knownImages)
    && (key.kind == "text" ==> inputs.textFaults(key.data) == [])
  }

  ghost predicate SoundKeys(inputs: Inputs, seen: set<Key>) {
    forall key :: key in seen ==> SoundKey(inputs, key)
  }

  lemma KeyIsSound(inputs: Inputs, name: string, data: Data, depth: nat)
    ensures SoundKey(inputs, KeyOf(name, data, depth)) <==> IsSoundContent(inputs, name, data)
  {
    hide Kind, IsPublic, IsPicture, IsPublished, IsTextFile;
    PublishedIs(name);
    PictureIs(name);
    TextFileIs(name);
  }

  // What is found out on the way: issues are only added, and none is added
  // exactly when every file come to is sound.
  ghost predicate Reports(isPrivate: Privacy, inputs: Inputs, before: State, after: State, way: Way) {
    && after.seen == way.seen && before.issues <= after.issues
    && (SoundKeys(inputs, before.seen) ==>
          && (after.issues == before.issues <==> AllSound(isPrivate, inputs, way.come))
          && (after.issues == before.issues ==> SoundKeys(inputs, after.seen)))
  }

  lemma {:induction false} VisitReports(isPrivate: Privacy, inputs: Inputs, s: State, name: string, data: Data, depth: nat)
    requires depth <= MAX_DEPTH + 1
    ensures Reports(isPrivate, inputs, s, Visit(isPrivate, inputs, s, name, data, depth), WayOf(inputs, s.seen, name, data, depth))
    decreases MAX_DEPTH + 1 - depth, 0, 1
  {
    hide Kind, IsPublic, KeyOf, ContentIssues, Members, IsSoundContent, SoundKey, IsArchive;
    KeyIsSound(inputs, name, data, depth);
    if depth <= MAX_DEPTH && KeyOf(name, data, depth) !in s.seen {
      var named := s.issues + NameIssue(isPrivate, name);
      var marked := State(s.seen + {KeyOf(name, data, depth)}, named);
      if IsArchive(Kind(name)) {
        ArchiveIsSound(inputs, name, data);
        VisitAllReports(isPrivate, inputs, marked, Members(inputs, name, data), depth + 1);
      } else {
        ContentIssuesAre(inputs, name, data);
      }
    }
  }

  lemma {:induction false} VisitAllReports(isPrivate: Privacy, inputs: Inputs, s: State, files: seq<File>, depth: nat)
    requires depth <= MAX_DEPTH + 1
    ensures Reports(isPrivate, inputs, s, VisitAll(isPrivate, inputs, s, files, depth), WayOfAll(inputs, s.seen, files, depth))
    decreases MAX_DEPTH + 1 - depth, 1, |files|
  {
    hide Visit, WayOf, IsSound, SoundKey;
    if files != [] {
      VisitReports(isPrivate, inputs, s, files[0].name, files[0].data, depth);
      VisitAllReports(isPrivate, inputs, Visit(isPrivate, inputs, s, files[0].name, files[0].data, depth), files[1..], depth);
    }
  }

  lemma ArchiveKindIs(name: string)
    ensures Kind(name) == ".zip" <==> EndsIn(name, ".zip")
    ensures Kind(name) == ".deb" <==> EndsIn(name, ".deb")
    ensures IsArchive(Kind(name)) <==> IsArchiveFile(name)
  {
    hide Suffix, EndsIn;
    SuffixIs(name, ".zip");
    SuffixIs(name, ".deb");
    assert ".zip" !in TEXT_SUFFIXES && ".deb" !in TEXT_SUFFIXES;
  }

  lemma MembersAre(inputs: Inputs, f: Come, member: Come)
    ensures IsMember(inputs, f, member) <==>
      member.depth == f.depth + 1 && File(member.name, member.data) in Members(inputs, f.name, f.data)
  {
    hide Kind, EndsIn;
    ArchiveKindIs(f.name);
    var inner, members := Inner(inputs, Kind(f.name), f.data), Members(inputs, f.name, f.data);
    if IsMember(inputs, f, member) {
      var file: File :| file in inner && member == Come(f.name + "!/" + file.name, file.data, f.depth + 1);
      var i :| 0 <= i < |inner| && inner[i] == file;
      assert members[i] == File(member.name, member.data);
    }
    if member.depth == f.depth + 1 && File(member.name, member.data) in members {
      var i :| 0 <= i < |members| && members[i] == File(member.name, member.data);
      assert inner[i] in inner && member == Come(f.name + "!/" + inner[i].name, inner[i].data, f.depth + 1);
    }
  }

  // An archive with these checks was looked into.
  ghost predicate Opened(inputs: Inputs, come: set<Come>, key: Key) {
    exists g :: g in come && HasChecks(g, key) && LookedInto(inputs, come, g)
  }

  ghost predicate HasChecks(f: Come, key: Key) {
    f.depth <= MAX_DEPTH && KeyOf(f.name, f.data, f.depth) == key
  }

  ghost predicate Closes(inputs: Inputs, seen: set<Key>, way: Way) {
    && seen <= way.seen
    && (forall f :: f in way.come && f.depth <= MAX_DEPTH ==> KeyOf(f.name, f.data, f.depth) in way.seen)
    && (forall key :: key in way.seen && key !in seen ==> Opened(inputs, way.come, key))
  }

  lemma {:induction false} OpenedStays(inputs: Inputs, come: set<Come>, more: set<Come>)
    requires come <= more
    ensures forall key :: Opened(inputs, come, key) ==> Opened(inputs, more, key)
  {
    hide IsMember, HasChecks;
    forall key | Opened(inputs, come, key) ensures Opened(inputs, more, key) {
      var g :| g in come && HasChecks(g, key) && LookedInto(inputs, come, g);
      assert g in more && LookedInto(inputs, more, g);
    }
  }

  lemma {:induction false} WayCloses(inputs: Inputs, seen: set<Key>, name: string, data: Data, depth: nat)
    requires depth <= MAX_DEPTH + 1
    ensures Closes(inputs, seen, WayOf(inputs, seen, name, data, depth))
    ensures Come(name, data, depth) in WayOf(inputs, seen, name, data, depth).come
    decreases MAX_DEPTH + 1 - depth, 0, 1
  {
    hide Kind, IsPublic, Members, IsArchive, KeyOf, IsMember, Opened;
    var f, way := Come(name, data, depth), WayOf(inputs, seen, name, data, depth);
    var key := KeyOf(name, data, depth);
    if depth <= MAX_DEPTH && key !in seen {
      forall member ensures IsMember(inputs, f, member) <==>
        member.depth == depth + 1 && File(member.name, member.data) in Members(inputs, name, data)
      {
        MembersAre(inputs, f, member);
      }
      if IsArchive(Kind(name)) {
        var members := Members(inputs, name, data);
        WaysClose(inputs, seen + {key}, members, depth + 1);
        OpenedStays(inputs, WayOfAll(inputs, seen + {key}, members, depth + 1).come, way.come);
      } else {
        NoMembers(inputs, name, data);
      }
      assert LookedInto(inputs, way.come, f) && HasChecks(f, key);
      LookedIntoOpens(inputs, way.come, f, key);
    }
  }

  lemma LookedIntoOpens(inputs: Inputs, come: set<Come>, f: Come, key: Key)
    requires f in come && HasChecks(f, key) && LookedInto(inputs, come, f)
    ensures Opened(inputs, come, key)
  {
  }

  lemma NoMembers(inputs: Inputs, name: string, data: Data)
    requires !IsArchive(Kind(name))
    ensures Members(inputs, name, data) == []
  {
    hide Kind;
  }

  lemma {:induction false} WaysClose(inputs: Inputs, seen: set<Key>, files: seq<File>, depth: nat)
    requires depth <= MAX_DEPTH + 1
    ensures Closes(inputs, seen, WayOfAll(inputs, seen, files, depth))
    ensures forall file :: file in files ==> Come(file.name, file.data, depth) in WayOfAll(inputs, seen, files, depth).come
    decreases MAX_DEPTH + 1 - depth, 1, |files|
  {
    hide WayOf, KeyOf, Opened;
    if files != [] {
      var first := WayOf(inputs, seen, files[0].name, files[0].data, depth);
      var rest := WayOfAll(inputs, first.seen, files[1..], depth);
      WayCloses(inputs, seen, files[0].name, files[0].data, depth);
      WaysClose(inputs, first.seen, files[1..], depth);
      OpenedStays(inputs, first.come, first.come + rest.come);
      OpenedStays(inputs, rest.come, first.come + rest.come);
      assert files == [files[0]] + files[1..];
    }
  }

  lemma SameKeySameArchive(f: Come, g: Come, key: Key)
    requires HasChecks(f, key) && HasChecks(g, key) && IsArchiveFile(f.name)
    ensures SameArchive(f, g)
  {
    hide Kind, IsPublic, IsPublished, EndsIn;
    ArchiveKindIs(f.name);
    ArchiveKindIs(g.name);
    PublishedIs(f.name);
    PublishedIs(g.name);
  }

  lemma {:induction false} WayCovers(inputs: Inputs, files: seq<File>)
    ensures Covers(inputs, files, WayOfAll(inputs, {}, files, 0).come)
  {
    hide WayOfAll, KeyOf, IsArchiveFile, SameArchive, LookedInto;
    var way := WayOfAll(inputs, {}, files, 0);
    WaysClose(inputs, {}, files, 0);
    forall f | f in way.come && f.depth <= MAX_DEPTH && IsArchiveFile(f.name)
      ensures exists g :: g in way.come && SameArchive(f, g) && LookedInto(inputs, way.come, g)
    {
      var key := KeyOf(f.name, f.data, f.depth);
      assert Opened(inputs, way.come, key);
      var g :| g in way.come && HasChecks(g, key) && LookedInto(inputs, way.come, g);
      assert HasChecks(f, key);
      SameKeySameArchive(f, g, key);
    }
  }

  // ------------------------------------------------------------ main results

  // The audit, with its memory empty at first, passes exactly when every file
  // it comes to is sound: no name is private, no archive is too deep inside
  // others, no published picture is unknown and no text has faults.
  lemma PassMeansSound(isPrivate: Privacy, inputs: Inputs, files: seq<File>)
    ensures exists come: set<Come> ::
      && Covers(inputs, files, come)
      && (VisitAll(isPrivate, inputs, State({}, []), files, 0).issues == [] <==> AllSound(isPrivate, inputs, come))
  {
    hide Covers, AllSound, VisitAll, WayOfAll;
    VisitAllReports(isPrivate, inputs, State({}, []), files, 0);
    WayCovers(inputs, files);
    assert SoundKeys(inputs, {});
  }

  // A file that is among those given, or inside an archive that can be come to.
  ghost predicate CanComeTo(inputs: Inputs, files: seq<File>, f: Come)
    decreases f.depth
  {
    if f.depth == 0 then File(f.name, f.data) in files
    else exists outer: Come ::
      outer.depth == f.depth - 1 && outer.depth <= MAX_DEPTH && CanComeTo(inputs, files, outer) && IsMember(inputs, outer, f)
  }

  lemma {:induction false} AmongThem(isPrivate: Privacy, inputs: Inputs, files: seq<File>, depth: nat)
    requires depth <= MAX_DEPTH + 1
    ensures AllIssues(isPrivate, inputs, files, depth) == [] <==>
      forall file :: file in files ==> Issues(isPrivate, inputs, file.name, file.data, depth) == []
    decreases |files|
  {
    hide Issues;
    if files != [] {
      AmongThem(isPrivate, inputs, files[1..], depth);
      assert files == [files[0]] + files[1..];
    }
  }

  // A file without an issue is sound, and so is all that is in it.
  lemma {:induction false} IssuesInside(isPrivate: Privacy, inputs: Inputs, f: Come)
    requires f.depth <= MAX_DEPTH + 1
    ensures Issues(isPrivate, inputs, f.name, f.data, f.depth) == [] <==>
      && IsSound(isPrivate, inputs, f.name, f.data, f.depth)
      && forall member: Come :: IsMember(inputs, f, member) ==>
           Issues(isPrivate, inputs, member.name, member.data, f.depth + 1) == []
  {
    hide Kind, IsPublic, Issues, IsSoundContent, ContentIssues, Members, IsMember;
    IssuesOf(isPrivate, inputs, f.name, f.data, f.depth);
    forall member ensures IsMember(inputs, f, member) <==>
      member.depth == f.depth + 1 && File(member.name, member.data) in Members(inputs, f.name, f.data)
    {
      MembersAre(inputs, f, member);
    }
    if f.depth <= MAX_DEPTH {
      if IsArchive(Kind(f.name)) {
        ArchiveIsSound(inputs, f.name, f.data);
        AmongThem(isPrivate, inputs, Members(inputs, f.name, f.data), f.depth + 1);
        forall file | file in Members(inputs, f.name, f.data)
          ensures IsMember(inputs, f, Come(file.name, file.data, f.depth + 1))
        {
        }
      } else {
        ContentIssuesAre(inputs, f.name, f.data);
        NoMembers(inputs, f.name, f.data);
      }
    }
  }

  lemma IssuesOf(isPrivate: Privacy, inputs: Inputs, name: string, data: Data, depth: nat)
    requires depth <= MAX_DEPTH + 1
    ensures Issues(isPrivate, inputs, name, data, depth) == [] <==>
      !isPrivate(name) && depth <= MAX_DEPTH && BodyIssues(isPrivate, inputs, name, data, depth) == []
  {
    hide BodyIssues;
  }

  lemma {:induction false} CleanAllTheWay(isPrivate: Privacy, inputs: Inputs, files: seq<File>, f: Come)
    requires AllIssues(isPrivate, inputs, files, 0) == [] && CanComeTo(inputs, files, f)
    ensures f.depth <= MAX_DEPTH + 1 && Issues(isPrivate, inputs, f.name, f.data, f.depth) == []
    decreases f.depth
  {
    hide Issues, AllIssues, IsMember, IsSound;
    if f.depth == 0 {
      AmongThem(isPrivate, inputs, files, 0);
    } else {
      var outer: Come :|
        outer.depth == f.depth - 1 && outer.depth <= MAX_DEPTH && CanComeTo(inputs, files, outer) && IsMember(inputs, outer, f);
      CleanAllTheWay(isPrivate, inputs, files, outer);
      IssuesInside(isPrivate, inputs, outer);
    }
  }

  lemma {:induction false} SoundMeansClean(isPrivate: Privacy, inputs: Inputs, files: seq<File>, f: Come)
    requires forall g :: CanComeTo(inputs, files, g) ==> IsSound(isPrivate, inputs, g.name, g.data, g.depth)
    requires CanComeTo(inputs, files, f)
    ensures f.depth <= MAX_DEPTH && Issues(isPrivate, inputs, f.name, f.data, f.depth) == []
    decreases MAX_DEPTH + 1 - f.depth
  {
    hide Issues, IsMember, IsSoundContent;
    assert IsSound(isPrivate, inputs, f.name, f.data, f.depth);
    forall member: Come | IsMember(inputs, f, member)
      ensures Issues(isPrivate, inputs, member.name, member.data, f.depth + 1) == []
    {
      assert member.depth == f.depth + 1 by { MembersAre(inputs, f, member); }
      assert CanComeTo(inputs, files, member);
      SoundMeansClean(isPrivate, inputs, files, member);
    }
    IssuesInside(isPrivate, inputs, f);
  }

  // Without memory nothing that can be come to is left out.
  lemma {:induction false} WithoutMemoryAllIsSound(isPrivate: Privacy, inputs: Inputs, files: seq<File>)
    ensures AllIssues(isPrivate, inputs, files, 0) == [] <==>
      forall f :: CanComeTo(inputs, files, f) ==> IsSound(isPrivate, inputs, f.name, f.data, f.depth)
  {
    hide Issues, AllIssues, IsSound, IsMember;
    if AllIssues(isPrivate, inputs, files, 0) == [] {
      forall f | CanComeTo(inputs, files, f) ensures IsSound(isPrivate, inputs, f.name, f.data, f.depth) {
        CleanAllTheWay(isPrivate, inputs, files, f);
        IssuesInside(isPrivate, inputs, f);
      }
    }
    if forall f :: CanComeTo(inputs, files, f) ==> IsSound(isPrivate, inputs, f.name, f.data, f.depth) {
      forall file | file in files ensures Issues(isPrivate, inputs, file.name, file.data, 0) == [] {
        SoundMeansClean(isPrivate, inputs, files, Come(file.name, file.data, 0));
      }
      AmongThem(isPrivate, inputs, files, 0);
    }
  }

  // Nor is anything with it, where what a member's name says of it does not
  // depend on the archive.
  lemma {:induction false} AuditPassesExactlyWhenAllIsSound(scope: Scope, inputs: Inputs, files: seq<File>)
    requires Uniform(scope) && MembersAllowed(scope, inputs) && FilesNamed(scope, files)
    ensures VisitAll(scope.isPrivate, inputs, State({}, []), files, 0).issues == [] <==>
      forall f :: CanComeTo(inputs, files, f) ==> IsSound(scope.isPrivate, inputs, f.name, f.data, f.depth)
  {
    hide Uniform, MembersAllowed, FilesNamed, VisitAll, AllIssues, CanComeTo, IsSound;
    UniformAgrees(scope, inputs, files);
    WithoutMemoryAllIsSound(scope.isPrivate, inputs, files);
  }

  // ------------------------------------------------------------ private terms

  // The words with the gaps between them.
  function WithGaps(words: Term, gaps: seq<string>): string
    requires |gaps| == |words| - 1
  {
    if gaps == [] then words[0] else words[0] + gaps[0] + WithGaps(words[1..], gaps[1..])
  }

  ghost predicate AreGaps(reading: Reading, words: Term, gaps: seq<string>) {
    && |gaps| == |words| - 1
    && forall i :: 0 <= i < |gaps| ==> gaps[i] != "" && forall k :: 0 <= k < |gaps[i]| ==> reading.isSpace(gaps[i][k])
  }

  // The term is its words with white space between them, of any length.
  lemma {:induction false} SpelledWithGaps(reading: Reading, words: Term, piece: string)
    ensures Spells(reading, words, piece) <==> exists gaps :: AreGaps(reading, words, gaps) && piece == WithGaps(words, gaps)
    decreases |words|
  {
    if |words| <= 1 {
      if words != [] {
        assert AreGaps(reading, words, []) && WithGaps(words, []) == words[0];
      }
    } else {
      if Spells(reading, words, piece) {
        var gaps := GapsOf(reading, words, piece);
      }
      if gaps :| AreGaps(reading, words, gaps) && piece == WithGaps(words, gaps) {
        GapsSpell(reading, words, gaps);
      }
    }
  }

  lemma {:induction false} GapsOf(reading: Reading, words: Term, piece: string) returns (gaps: seq<string>)
    requires Spells(reading, words, piece)
    ensures AreGaps(reading, words, gaps) && piece == WithGaps(words, gaps)
    decreases |words|
  {
    if |words| == 1 {
      gaps := [];
    } else {
      var k, l :| 0 <= k < l <= |piece| && SpellsFirst(reading, words, piece, k, l) && Spells(reading, words[1..], piece[l..]);
      var rest := GapsOf(reading, words[1..], piece[l..]);
      gaps := [piece[k..l]] + rest;
      assert gaps[1..] == rest;
      assert piece == piece[..k] + piece[k..l] + piece[l..];
    }
  }

  lemma {:induction false} GapsSpell(reading: Reading, words: Term, gaps: seq<string>)
    requires AreGaps(reading, words, gaps)
    ensures Spells(reading, words, WithGaps(words, gaps))
    decreases |words|
  {
    if gaps != [] {
      GapsSpell(reading, words[1..], gaps[1..]);
      var rest := WithGaps(words[1..], gaps[1..]);
      var piece := words[0] + gaps[0] + rest;
      var k, l := |words[0]|, |words[0]| + |gaps[0]|;
      assert piece[..k] == words[0] && piece[l..] == rest;
      assert forall i :: k <= i < l ==> piece[i] == gaps[0][i - k];
      assert SpellsFirst(reading, words, piece, k, l);
    }
  }

  ghost predicate StandsBetween(reading: Reading, words: Term, text: string, before: string, piece: string, after: string) {
    && text == before + piece + after && Spells(reading, words, piece)
    && (before == "" || !reading.isWord(before[|before| - 1]))
    && (after == "" || !reading.isWord(after[0]))
  }

  // A name is private when a whole term stands in it, no word character right
  // before or after it.
  lemma PrivateNames(reading: Reading, terms: seq<Term>, name: string)
    ensures ContainsPrivateTerm(reading, terms, name) <==>
      exists words, before, piece, after ::
        words in terms && StandsBetween(reading, words, reading.fold(name), before, piece, after)
  {
    hide Spells;
    var text := reading.fold(name);
    if ContainsPrivateTerm(reading, terms, name) {
      var words :| words in terms && Found(reading, words, text);
      var i, j :| 0 <= i <= j <= |text| && StandsAt(reading, words, text, i, j);
      assert text == text[..i] + text[i..j] + text[j..];
      assert StandsBetween(reading, words, text, text[..i], text[i..j], text[j..]);
    }
    if words, before, piece, after :| words in terms && StandsBetween(reading, words, text, before, piece, after) {
      var i, j := |before|, |before| + |piece|;
      assert text[i..j] == piece && (i > 0 ==> text[i - 1] == before[i - 1]) && (j < |text| ==> text[j] == after[0]);
      assert StandsAt(reading, words, text, i, j);
    }
  }
}
