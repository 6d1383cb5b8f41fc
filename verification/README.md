# OpenXplorer: verified models of its algorithms

OpenXplorer is a file manager. Most of it is widgets and calls into desktop
services; scattered between those are algorithms and state machines whose
comments make strong claims. This project models them in Dafny and proves the
claims: over every input, every run, or every interleaving with what other
accounts do.

Each module follows one source file:

- `KernelPaths`, `AdminCopy`: a path may be written as administrator only if
  root alone can change each folder along it. The check looks up one name at a
  time in a filesystem that other accounts keep changing. `KernelPaths` is the
  reference: pathname resolution and file permissions as POSIX.1-2017 defines them
  (sections 4.13 and 4.5 of the Base Definitions volume), with a budget of 40
  links.
- `PublicDataAudit`, `AuditReports`: the audit of publication files and of archives
  nested in each other, which skips what it has already seen. One reference is the
  same audit without that memory; another says of each file, by its name and bytes
  alone, whether it is sound.
- `SettingsStore`: the queue of settings changes, run one after another on a
  worker, whose replies may ask for more. The reference is a fold over the
  requests in the order they were made.
- `PoText`, `PoTemplate`, `PoLosses`, `MoFile`: the parser of translators' files
  and the quoting they are printed with; the template, and when parsing raises;
  what is read of messages with line ends that quoting leaves alone; and the
  compiled catalogue (section 10.3 of the GNU gettext manual) as the build writes
  it and the app reads it.
- `TypeAhead`, `History`, `TabViews`: typing the start of a name, a tab's Back and
  Forward, and the view each location comes back with, as controllers whose
  properties range over whole runs.
- `ClipboardFiles`: the formats a file selection is published in, reading them
  back, and consuming a cut.
- `OverlayLayers`, `Dashes`, `NormalDependencies`, `DesktopEntry`,
  `LauncherProgress`: decoding overlay mount options, cutting a dashed outline,
  collecting linked packages, translating desktop entries, and the one progress
  bar of all operations.
- `Text`, `Lines`: splitting, joining and line ends, used by the others.

Objects whose methods change fields are classes; loops are methods with
invariants; each is proved to compute a function, and the properties are
lemmas about that function.

## What turned out otherwise

- The audit's memory can hide an issue. It is harmless exactly when what a
  member's full name says (private or not, and which kind of file) never depends
  on which of two archives it is in, of those the audit can come to at one depth
  and gives the same checks (`CacheIsSoundExactlyWhenUniform`, for any names the
  files and the members can have). A private term with a "!" breaks this even
  without the whole separator "!/" (`TermWithBangDisagrees`: the term
  `acme.zip!`), and so does a member named "." in an inner archive named
  "y.zip/." (`NamelessMemberDisagrees`). Terms without "!" over members that have
  a file name are enough (`CacheIsSoundForPlainTerms`).
- PO quoting leaves some line ends alone (vertical tab, form feed, U+0085, U+2028
  and others), and they break the quoted text. Parsing a template then still
  gives its header and nothing else, unless a message leaves a stray quote: after
  a raw line end of a field only white space is left, while neither that field
  nor an earlier one of the message was taken for a field, because it is on one
  line or has a quote before its first line end. Then, and only then, `parse_po`
  raises a `KeyError` (`TemplateGivesItsHeader`): for the id "a" and a vertical
  tab, or for a context that ends so, but not with a letter after the vertical
  tab, not for a plural id after a plain id, and not with a quote before it
  (`SomeStrayMessages`). In general it raises exactly when a line continues a
  field that is gone (`ParsingRaisesExactlyWhen`): `finish` clears the fields but
  not `current`.
- Nothing the parser reads from any file holds such a line end
  (`ReadTextsAreQuotable`). Printed messages that are translated therefore read
  back if and only if their texts hold none (`ReadsBackExactlyWhenQuotable`), and
  for one that does there is no text at all that reads as it should
  (`NoTextGivesUnquotable`).
- What is read instead can be worse than nothing. A field whose lines are all
  passed over, as with "x", a vertical tab and "y", leaves no trace
  (`LostFieldLeavesNoTrace`). A form drops out of its pair without a word
  (`LostFormsAreDropped`). When a message loses all its forms, nothing finishes
  it at the empty line: its context, plural id, id and fuzzy mark stay for the next
  message (`LostMessageRunsOn`), which then has a translation under a wrong
  context or with a plural id that is not its own, or is left out
  (`NextReadsWrong`); with the next id lost as well, its translation goes to the
  wrong id (`TranslationOfAnother`). `FileWithLossesReads` says what any file of
  quotable and lost texts reads as.
- A tab moved in the background (its folder was removed, its drive ejected, a
  slow item opened) neither forgets the views of the steps it drops nor
  remembers that of the step it leaves. After two such moves Back can put the
  view of one location back on another (`BackgroundMovesMixViews`);
  `StepKeepsViews` says exactly when a visit keeps the views right, and after one
  that does not, some way to go on always shows it (`InheritedViewIsPutBack`).
- `replace_current` changes the current location without counting a move. At two
  times with an equal count the location is the same exactly when none was
  replaced in between or the last replacement was by the location of the earlier
  time (`EqualMovesSameLocation`).

## Model

| member | source | states |
|---|---|---|
| KernelPaths.Closed | native/crates/ox-core/src/admin_copy.rs:357-363 | a folder passes exactly when, of all accounts in whatever groups, only root may write in it or change its mode, by the POSIX permission classes of owner, group and others |
| KernelPaths.WalkAlongChain | native/crates/ox-core/src/admin_copy.rs:310-311 | the kernel's resolution of a path of real names passes exactly the folders of its chain and needs no link budget |
| KernelPaths.LstatAtChainEnd | native/crates/ox-core/src/admin_copy.rs:326-327 | looking a name up without following it, at the end of such a path, looks in that folder |
| KernelPaths.OnePath | native/crates/ox-core/src/admin_copy.rs:86-89 | a folder is at one link-free path only, so the resolved path names the very folder checked |
| KernelPaths.WalkOfReal | native/crates/ox-core/src/admin_copy.rs:391-400 | dropping empty names and "." from a path, or from link targets on the way, changes no resolution, at any link budget |
| AdminCopy.MountOf | native/crates/ox-core/src/admin_copy.rs:402-409 | the mount found is above the path, as deep as any mount above it, and missing only when none is |
| AdminCopy.MountOfIsOnTop | native/crates/ox-core/src/admin_copy.rs:402-409 | it is the one on top: none above the path is deeper, and none as deep comes later in the table |
| AdminCopy.TrustedFilesystems | native/crates/ox-core/src/admin_copy.rs:411-427 | which mounts are trusted, by the text of their filesystem, options, mount point and source |
| AdminCopy.MountVerdictIs | native/crates/ox-core/src/admin_copy.rs:365-372 | what the mount on top of a place and the users' mount points decide: trusted, or which of the two refusals |
| AdminCopy.Resolve | native/crates/ox-core/src/admin_copy.rs:310-351 | the loop computes its specification, under interference is safe for good, and at rest judges the kernel's own walk |
| AdminCopy.ResolveIsSafe | native/crates/ox-core/src/admin_copy.rs:44-45 | with any steps of other accounts between lookups and after, a path that passed leads for good to the same folders, through no link, from the original and from the resolved path, and only root can change any of them |
| AdminCopy.ResolveSettles | native/crates/ox-core/src/admin_copy.rs:318-350 | the same from any point of the loop: what was pending leads, in the last and every later filesystem, to the end of a secure chain |
| AdminCopy.SameStepLater | native/crates/ox-core/src/admin_copy.rs:333-336 | in a folder that passed, a name leads to the same child or the same link target for good |
| AdminCopy.ResolveIsExact | native/crates/ox-core/src/admin_copy.rs:312-351 | on a filesystem at rest the outcome is the verdict on the kernel's walk: the refusal of its first untrusted folder, else the refusal for not arriving (missing name, 41st link, no folder), else the link-free path of the folder reached |
| AdminCopy.JudgedOneWay | native/crates/ox-core/src/admin_copy.rs:312-373 | a walk has one verdict, so the refinement determines the outcome |
| AdminCopy.PassesExactlyWhenTrusted | native/crates/ox-core/src/admin_copy.rs:312-373 | at rest a path passes if and only if the kernel arrives within 40 links and every folder on the way is trusted |
| AdminCopy.Check | native/crates/ox-core/src/admin_copy.rs:302-308 | what passes is safe for good and every place inside it, at any depth, is on a believable mount |
| AdminCopy.InsideIs | native/crates/ox-core/src/admin_copy.rs:375-388 | what is refused for what is inside: an unbelievable mount strictly below, or a place for users' mounts at the folder or below |
| AdminCopy.MountsInsideAreTrusted | native/crates/ox-core/src/admin_copy.rs:375-388 | the two mount rules together leave no untrusted or user-mountable place inside the destination |
| AdminCopy.SameMount | native/crates/ox-core/src/admin_copy.rs:402-409 | when the mount holding an inner path also holds the outer one, it is the outer one's own mount, the last one on top included |
| AdminCopy.RefusedForAPlaceInside | native/crates/ox-core/src/admin_copy.rs:375-388 | nothing is refused for what is inside unless some place inside is not to be trusted once the mounts on top of it are gone |
| AdminCopy.NamesOfPathText | native/crates/ox-core/src/admin_copy.rs:391-400 | the names of a written-out path are the names it was written from, ".." kept |
| AdminCopy.ElevatedItem | native/crates/ox-core/src/admin_copy.rs:150-159 | a root or a path ending in ".." is refused; otherwise the folder's verdict, and the item path names the same node as the original for good |
| AdminCopy.ItemInFolder | native/crates/ox-core/src/admin_copy.rs:129-135 | an item in a folder that passed cannot be replaced by another node by anybody but root |
| PublicDataAudit.Auditor.VisitFile | tools/audit-public-data.py:72-122 | one visit changes the seen keys and the issues as specified, recursion into archives included |
| PublicDataAudit.Auditor.Audit | tools/audit-public-data.py:123-130 | a series of files is visited in order with the shared memory |
| PublicDataAudit.VisitIsFaithful | tools/audit-public-data.py:77-94 | a visit finds an issue exactly when one without memory does, and leaves every seen key clean except those still in progress, which it never meets again because archive keys carry a growing depth |
| PublicDataAudit.SameBody | tools/audit-public-data.py:79-86 | a file with equal checks under two names is clean under both or neither |
| PublicDataAudit.CacheIsSoundExactlyWhenUniform | tools/audit-public-data.py:66-130 | for any possible top-level and member names, on all inputs and file series the cached audit passes exactly when the uncached one does, if and only if the privacy and kind of members do not depend on which of two archives with the same checks, both reached at one depth, they are in |
| PublicDataAudit.CacheIsSoundForPlainTerms | tools/audit-public-data.py:53-94 | terms without "!" and members with a file name meet that condition |
| PublicDataAudit.FoundInside | tools/audit-public-data.py:58-64 | such a term is in a member's full name exactly when it is in the archive's name or the member's |
| PublicDataAudit.KindInside | tools/audit-public-data.py:78-82 | the kind of a member's full name is that of its own name, and what it is for a member without a file name |
| PublicDataAudit.PublicInside | tools/audit-public-data.py:83-84 | a member is public exactly when its own name or the archive's says so |
| PublicDataAudit.NotUniformDisagrees | tools/audit-public-data.py:86-89 | whenever the condition fails for two archives the audit can come to, at any depth, there are files with possible names on which the cached audit passes and the uncached does not |
| PublicDataAudit.MemberVisited | tools/audit-public-data.py:90-94 | a possible member of an open archive the audit comes to is come to one deeper |
| PublicDataAudit.TermWithBangDisagrees | tools/audit-public-data.py:75-94 | a concrete term with "!" and two archives with ordinary file names and equal bytes on which the memory hides an issue |
| PublicDataAudit.NamelessMemberDisagrees | tools/audit-public-data.py:78-94 | a member named "." in one inner archive, once named "y.zip" and once "y.zip/.", inside two ordinary files: the memory hides an issue |
| PublicDataAudit.SelfContainingIsReported | tools/audit-public-data.py:77 | without memory, an archive that contains itself is reported by the depth bound |
| PublicDataAudit.SelfContainingNeverPasses | tools/audit-public-data.py:77-130 | with it, too: no audit of files with such an archive among them passes, whatever else they and it hold |
| AuditReports.PassMeansSound | tools/audit-public-data.py:66-130 | for any files, the audit with its memory empty at first passes if and only if every file it comes to is sound: its name is not private, it is at most 8 archives deep, a published picture is registered and a text has no faults; it comes to all files given and into every archive, of several with equal checks at one depth into one |
| AuditReports.WithoutMemoryAllIsSound | tools/audit-public-data.py:72-122 | without memory, it passes if and only if everything that can be come to is sound |
| AuditReports.AuditPassesExactlyWhenAllIsSound | tools/audit-public-data.py:66-130 | so it does with memory, where what a member's name says does not depend on the archive |
| AuditReports.SuffixIs | tools/audit-public-data.py:78 | the suffix a file is checked by is what the last part of its name ends in, from its last dot on and in either letter case, if something comes before the dot |
| AuditReports.ContentIssuesAre | tools/audit-public-data.py:109-122 | a file that is no archive has no issue exactly when a published picture is registered and a text has no faults, pictures and texts told by how the name ends |
| AuditReports.IssuesNameTheFile | tools/audit-public-data.py:112-122 | what is reported of a file starts with its full name |
| AuditReports.MembersAre | tools/audit-public-data.py:90-108 | the members of an archive are the files inside, named after it, one deeper |
| AuditReports.PrivateNames | tools/audit-public-data.py:53-64 | a name is private when the words of a term stand in it, no word character right before or after |
| AuditReports.SpelledWithGaps | tools/audit-public-data.py:56-61 | and the words of a term have white space of any length between them |
| SettingsStore.Settings.Ask | native/crates/ox-app/src/settings_store.rs:81-102 | a request is queued behind the others, a reload with the data of that moment, and starts only if nothing runs |
| SettingsStore.Settings.RunNext | native/crates/ox-app/src/settings_store.rs:105-127 | the oldest change starts on a copy of the current data unless one is running |
| SettingsStore.Settings.Finish | native/crates/ox-app/src/settings_store.rs:118-126 | a finished change replaces the data only on success, its reply hears the outcome and may ask for more, and the next one starts |
| SettingsStore.EveryRunFollows | native/crates/ox-app/src/settings_store.rs:79-127 | every run keeps the store equal to the sequential reference: data, replies, change in flight and queue |
| SettingsStore.EveryRun | native/crates/ox-app/src/settings_store.rs:79-127 | at most one change in flight, on a copy of the current data; an idle store has none waiting; the data is the fold of the successful changes in order; every request is heard once, in order, with its own outcome |
| SettingsStore.FinishedRequest | native/crates/ox-app/src/settings_store.rs:113-124 | at any time of any run, a failed change leaves the data and is heard as failed, a successful one replaces it by the copy it worked on, and a reload by what it read; nothing else is heard |
| SettingsStore.WhatCanHappen | native/crates/ox-app/src/settings_store.rs:105-127 | requests can come at any time, and just the changes on the worker can finish |
| SettingsStore.DataAtTime | native/crates/ox-app/src/settings_store.rs:113-122 | the data at any earlier moment is a prefix of the same fold |
| SettingsStore.ReloadHearsTheDifference | native/crates/ox-app/src/settings_store.rs:88-102 | a reload reports a change exactly when the data at its completion differs from the data when it was asked for, whatever ran in between |
| MoFile.MoBytes | native/tools/i18n.py:312-327 | the two loops write the header, both tables and the strings of the sorted entries, or fail when a number exceeds 32 bits |
| MoFile.BeforeIs | native/tools/i18n.py:314 | byte order: at the first difference the byte is less, or the first string ends there |
| MoFile.SortedIsSorted | native/tools/i18n.py:314 | the entries are in byte order and none is lost or added |
| MoFile.StringPlace | native/tools/i18n.py:321-325 | each text has its own place in the string area, after the one before and inside it, followed by a NUL |
| MoFile.TablePlace | native/tools/i18n.py:321-324 | descriptor k holds the length of text k and the offset of its place |
| MoFile.HeaderReadsBack | native/tools/i18n.py:326 | the header reads back in its byte order: magic, revision 0, count, both table offsets and an empty hash table |
| MoFile.EntryReadsBack | native/crates/ox-core/src/i18n/mo.rs:34-38 | every descriptor is in bounds and reads back its original and its translation |
| MoFile.Read | native/crates/ox-core/src/i18n/mo.rs:17-50 | the reader's loop computes its specification in both byte orders, with every reason to refuse a file |
| MoFile.NumberIsRead | native/crates/ox-core/src/i18n/mo.rs:18-26 | a number is read wherever its four bytes are in the byte order, and only there |
| MoFile.ByteOrderIs | native/crates/ox-core/src/i18n/mo.rs:27-31 | the byte order by the first four bytes |
| MoFile.StringIsRead | native/crates/ox-core/src/i18n/mo.rs:34-38 | a string is read exactly when its length and offset are there, it is in the file and it is UTF-8: what is at that offset |
| MoFile.ReadWhenAllStrings | native/crates/ox-core/src/i18n/mo.rs:40-49 | a catalogue is read exactly when every string of both tables is |
| MoFile.CompiledCatalogueReadsBack | native/crates/ox-core/src/i18n/mo.rs:14-50 | the app reads every compiled catalogue, in either byte order, and finds exactly the ids compiled, each with the forms of the entry last in byte order that has it |
| MoFile.MessagesReadBack | native/crates/ox-core/src/i18n/mo.rs:39-48 | compiled from messages with an id, perhaps a plural id, and forms, in either byte order, the catalogue has exactly their ids and each gives the forms of its message, the last in byte order of several |
| MoFile.EveryMessageIsFound | native/crates/ox-core/src/i18n/mo.rs:39-48 | with one message for each id, every id gives its own forms |
| MoFile.EntryIsRead | native/crates/ox-core/src/i18n/mo.rs:42-47 | the id is what comes before the plural id, and the forms are those that were joined |
| MoFile.MessageOf | native/crates/ox-core/src/i18n/mo.rs:39-48 | an id is present exactly when an entry has it, and the last such entry decides |
| MoFile.Bisect | native/tools/i18n.py:314-327 | a reader that bisects the sorted originals finds the translation of an original and nothing for any other string |
| PoText.ParsePo | native/tools/i18n.py:251-297 | the line loop computes its specification, or raises on a line that continues a field that is gone |
| PoText.PrintedMessagesReadBack | native/tools/i18n.py:251-297 | messages printed with contexts, plurals, multi-line strings, comments and forms in any order parse to exactly the pairs of the translated ones, fuzzy ones left out |
| PoText.MessageGivesPair | native/tools/i18n.py:264-276 | the fields of one message give its expected pair, with forms in numeric order, or none |
| PoText.QuotingReadsBack | native/tools/i18n.py:227-229 | unquoting a quoted text gives the text, for every string |
| PoText.FormIndexOf | native/tools/i18n.py:300-303 | the keyword of plural form n names n |
| PoText.StripIs | native/tools/i18n.py:282 | what a line is without the white space around it |
| PoText.KeywordLineIs | native/tools/i18n.py:288 | which lines are a keyword, white space and a quoted text, with both parts |
| PoText.FlagsMark | native/tools/i18n.py:283-287 | a comment marks the message as fuzzy exactly when it is a flag line that says so; any other leaves the mark as it was |
| PoText.SortFormsSorts | native/tools/i18n.py:267 | the forms are in numeric order and none is lost |
| PoText.FileParses | native/tools/i18n.py:281-296 | parsing a file of messages from the start collects the pairs in order and keeps the last message in hand |
| PoTemplate.TemplateIsFile | native/tools/i18n.py:232-248 | the template is the file of the header and all messages, each with its places, note, context, ids and as many empty forms as it needs |
| PoTemplate.TemplateGivesItsHeader | native/tools/i18n.py:232-297 | for all messages with plain places, parsing the template raises if and only if one of them leaves a stray quote, and otherwise gives its header and nothing else |
| PoTemplate.PiecesSplit | native/tools/i18n.py:227-229 | which lines a quoted text comes on, by the line ends quoting leaves alone |
| PoTemplate.FieldOnLines | native/tools/i18n.py:281-295 | a broken field raises exactly when it ends blank with no field held, and afterwards one is held exactly if one was or its first line ends in a quote |
| PoTemplate.SomeStrayMessages | native/tools/i18n.py:294-295 | five messages on either side of that condition |
| PoTemplate.QuotableNeverRaises | native/tools/i18n.py:227-229 | a message whose first field has no line end that quoting leaves alone never raises |
| PoTemplate.BrokenTemplateRaises | native/tools/i18n.py:294-295 | a template message with a vertical tab at the end of its id makes the parser raise |
| PoTemplate.ParsingRaisesExactlyWhen | native/tools/i18n.py:264-296 | for every text, parsing raises if and only if a line continues a field that an empty line or comment has finished since its keyword line, a form being held |
| PoLosses.ReadTextsAreQuotable | native/tools/i18n.py:251-297 | whatever the file, no original or translation read from it holds a line end that quoting leaves alone |
| PoLosses.NoTextGivesUnquotable | native/tools/i18n.py:227-297 | if a translated message has such a line end in a text, no file at all parses to the pairs the messages stand for |
| PoLosses.ReadsBackExactlyWhenQuotable | native/tools/i18n.py:227-297 | printed messages that each have a pair parse to exactly those pairs if and only if no text of theirs holds such a line end |
| PoLosses.LostFieldLeavesNoTrace | native/tools/i18n.py:281-296 | a field broken into lines that are all passed over parses, anywhere in a file, as if it were not there |
| PoLosses.TextAroundVerticalTabIsLost | native/tools/i18n.py:227-229 | "x", a vertical tab and "y" is a text that is lost so |
| PoLosses.FileWithLossesReads | native/tools/i18n.py:264-297 | any file whose texts are each quotable or lost parses to what the messages read as when one without a form left is held, field by field and with its fuzzy mark, under the message after it |
| PoLosses.LostFormsAreDropped | native/tools/i18n.py:267-275 | lost forms leave each pair with the forms the message keeps, and change nothing else |
| PoLosses.LostMessageRunsOn | native/tools/i18n.py:264-285 | after a message with all its forms lost, any printable message gets its context and its plural id where it has none of its own, and its comments, so its fuzzy mark; the messages after that read as they should |
| PoLosses.LastMessageLost | native/tools/i18n.py:264-297 | as the last of a file such a message gives nothing |
| PoLosses.NextReadsWrong | native/tools/i18n.py:264-290 | the next translation under the lost one's context, with the lost one's plural id, or left out for the lost one's fuzzy mark |
| PoLosses.TranslationOfAnother | native/tools/i18n.py:264-290 | with the id after a lost translation lost too, the translation after it is read for the first id |
| TypeAhead.FindPrefix | native/crates/ox-app/src/typeahead.rs:92-103 | the row found matches and none matching comes sooner in cyclic order; none only when no row matches |
| TypeAhead.WhichRowIsFound | native/crates/ox-app/src/typeahead.rs:53-103 | searching at the current row finds the least match from it on, so keeps it if it matches; after it, the least one past it, itself last; else, or without a current row, the least match of all |
| TypeAhead.MatchingStarts | native/crates/ox-app/src/typeahead.rs:100-102 | a row matches when its folded name goes on from the folded prefix |
| TypeAhead.TypedCharacters | native/crates/ox-app/src/typeahead.rs:26-36 | only one character that is no control character is typed text |
| TypeAhead.NextKey | native/crates/ox-app/src/typeahead.rs:166-244 | a prefix lives one second after its last key; within it a character steps on or extends, up to 256 characters, and otherwise starts over |
| TypeAhead.Controller.Push | native/crates/ox-app/src/typeahead.rs:180-202 | which keys are ignored, the new prefix, and the row found from where the change says; an extended prefix keeps a current row that still matches |
| TypeAhead.Controller.Backspace | native/crates/ox-app/src/typeahead.rs:207-224 | an expired prefix is reset; otherwise one character less and a search at the current row, kept if it matches |
| TypeAhead.PressesAreSteps | native/crates/ox-app/src/typeahead.rs:227-236 | pressing one key within the timeout never extends the prefix: each press goes to the next match |
| TypeAhead.StepsGoRound | native/crates/ox-app/src/typeahead.rs:85-103 | the presses go through the matching rows in turn and from the last to the first |
| TypeAhead.EveryMatchOncePerRound | native/crates/ox-app/src/typeahead.rs:180-202 | over an unchanged listing with m matches, from any current row, any m presses in a row select every match exactly once |
| History.History.Push | native/crates/ox-app/src/history.rs:180-188 | a new location drops the forward steps and counts a move, unless it is already shown without a search |
| History.History.PushSearch | native/crates/ox-app/src/history.rs:207-213 | a search is a step of its own at the same location and no move |
| History.History.DropLast | native/crates/ox-app/src/history.rs:194-202 | only the last step, when current and not the only one, is forgotten |
| History.History.SetCurrentSearch | native/crates/ox-app/src/history.rs:224-229 | only the search of the step in hand changes, and the result tells a change between having one and having none |
| History.History.Go | native/crates/ox-app/src/history.rs:264-272 | moves within range and nowhere else |
| History.History.SavedLocations | native/crates/ox-app/src/history.rs:162-175 | the loop keeps every step but the searches that repeat the location before them, with an index in range that holds the current location |
| History.StepRefinesZipper | native/crates/ox-app/src/history.rs:180-272 | each operation acts on the list and position as on a zipper of back, current and forward steps |
| History.EveryRunRefinesZipper | native/crates/ox-app/src/history.rs:180-272 | so does every run |
| History.GoesCompose | native/crates/ox-app/src/history.rs:264-272 | moves within range add up, and going back undoes going forward |
| History.EqualMovesSameLocation | native/crates/ox-app/src/history.rs:240-250 | at any two times of any run with an equal count of moves, the later location is the last replacement in between, or the earlier location without one; so they are equal exactly when there is none or the last is by the earlier location |
| History.LastReplacedIs | native/crates/ox-app/src/history.rs:240-244 | the last replacement is the one after which there is no other |
| History.SavedIsRestored | native/crates/ox-app/src/history.rs:116-175 | a saved history restores to the same location, and saving what was restored gives the same pair |
| History.WhatIsRestored | native/crates/ox-app/src/history.rs:114-126 | no history for a position past the entries, otherwise plain steps at the entries, at that position and before any move |
| History.EveryHistoryIsSaved | native/crates/ox-app/src/history.rs:116-175 | the same for every history a run reaches |
| TabViews.HistoryViews.Remember | native/crates/ox-app/src/history.rs:41-44 | the view at that position and no other changes |
| TabViews.HistoryViews.ForgetFrom | native/crates/ox-app/src/history.rs:46-50 | exactly the views before that position stay |
| TabViews.HistoryViews.Take | native/crates/ox-app/src/history.rs:52-55 | the view at that position is handed over and gone |
| TabViews.TabWithViews.PushLocation | native/crates/ox-app/src/window/navigation.rs:290-306 | a navigation forgets the views of the dropped steps and remembers that of the step left |
| TabViews.TabWithViews.StepHistory | native/crates/ox-app/src/window/navigation.rs:602-622 | Back or Forward remembers the view of the step left and takes that of the step returned to |
| TabViews.TabWithViews.RecordSearch | native/crates/ox-app/src/window/search_steps.rs:82-88 | a search step starts without a view |
| TabViews.TabWithViews.LeaveDenied | native/crates/ox-app/src/window/loading/denied_folder.rs:74-82 | leaving a denied folder takes the view of the step before |
| TabViews.StepKeepsViews | native/crates/ox-app/src/history.rs:36-56 | each visit puts back the view of the very step it returns to, and keeps the views those of their own steps exactly when it is no background move onto a position with a view |
| TabViews.EveryReturnFindsItsView | native/crates/ox-app/src/history.rs:9-16 | over every run without such a move from a tab that has no views yet, new or opened with any history, what is put back is the view last left at the very step; any run with one could have gone on so that it is not |
| TabViews.InheritedViewIsPutBack | native/crates/ox-app/src/history.rs:9-16 | after such a move, one more background move and Back put back a view that was not left at that step |
| TabViews.BackgroundMovesMixViews | native/crates/ox-app/src/window/activation/outcome.rs:83-98 | two background moves after which Back puts back the view of a location on another |
| ClipboardFiles.WithToken | native/crates/ox-core/src/clipboard.rs:200-222 | the loop gives the canonical items without repeats, or the count error, or the location error |
| ClipboardFiles.DeduplicatedIsExact | native/crates/ox-core/src/clipboard.rs:204-216 | a list is the deduplicated selection if and only if it has the same members in strict order of first appearance |
| ClipboardFiles.AcceptedIsValid | native/crates/ox-core/src/clipboard.rs:207-211 | an accepted selection has only canonical items, none twice, and is not empty |
| ClipboardFiles.New | native/crates/ox-core/src/clipboard.rs:182-197 | what is refused as too large, and that nothing else is |
| ClipboardFiles.EncodeUriList | native/crates/ox-core/src/clipboard.rs:350-357 | the loop writes every URI ended by CR LF |
| ClipboardFiles.SizeOfCharacter | native/crates/ox-core/src/clipboard.rs:192-195 | a character takes 1 to 4 bytes of UTF-8, by its code point |
| ClipboardFiles.EscapeLength | native/crates/ox-core/src/clipboard.rs:329-332 | a JSON character is itself, one of the seven short escapes, or six characters for another control character |
| ClipboardFiles.CustomIsLongest | native/crates/ox-core/src/clipboard.rs:192-195 | neither the GNOME format nor the URI list is longer, in bytes, than the JSON |
| ClipboardFiles.EveryPayloadFits | native/crates/ox-core/src/clipboard.rs:264-302 | whatever the labels, nothing published is over the paste limit |
| ClipboardFiles.OneLinePerItem | native/crates/ox-core/src/clipboard.rs:304-327 | published text splits into exactly one line for each item, and no line holds a character that ends one |
| ClipboardFiles.WhatIsPublished | native/crates/ox-core/src/clipboard.rs:264-302 | which payloads are published, each format once, and none of a consumed selection |
| ClipboardFiles.PlainTextIsOffered | native/crates/ox-core/src/clipboard.rs:264-327 | text is offered exactly when no item's address has a control character or a line or paragraph separator, and it is within the limit |
| ClipboardFiles.PythonSplitLines | native/crates/ox-core/src/clipboard/lines.rs:12-32 | the loop splits as `splitlines` does, CR LF counting once |
| ClipboardFiles.CustomJsonReadsBack | native/crates/ox-core/src/clipboard.rs:329-332 | the JSON, escapes included, reads back to the mode, URIs and token it was written from |
| ClipboardFiles.CustomReadsBack | native/crates/ox-core/src/clipboard/decode.rs:95-103 | another window reads back the whole selection, its token included |
| ClipboardFiles.GnomeReadsBack | native/crates/ox-core/src/clipboard/decode.rs:106-112 | the GNOME format reads back to the same mode and URIs |
| ClipboardFiles.UriListReadsBack | native/crates/ox-core/src/clipboard/decode.rs:116-129 | the URI list with its KDE marker reads back to the same mode and URIs |
| ClipboardFiles.WhatIsRead | native/crates/ox-core/src/clipboard/decode.rs:81-129 | what any payload within the limit reads as in each format, tokens of over 80 characters replaced |
| ClipboardFiles.WhatIsRefused | native/crates/ox-core/src/clipboard/decode.rs:82-107 | nothing, payloads over the limit, unknown verbs and what is no JSON are refused |
| ClipboardFiles.AddressesAre | native/crates/ox-core/src/clipboard/decode.rs:122-126 | empty lines and comments are passed over, everything else kept in order |
| ClipboardFiles.NulsAreTrimmed | native/crates/ox-core/src/clipboard/decode.rs:85 | NULs at the end are no part of a payload |
| ClipboardFiles.CutMarkerIs | native/crates/ox-core/src/clipboard/decode.rs:131-145 | a marker means a cut exactly when it is 1 with at most 15 NULs after it |
| ClipboardFiles.Owner.Consume | native/crates/ox-core/src/clipboard.rs:246-256 | only the owning paste of a cut takes items out, and it reports whether it did |
| ClipboardFiles.SeriesLeavesTheUnmoved | native/crates/ox-core/src/clipboard.rs:239-256 | any series of pastes leaves exactly what no owning one moved, in order |
| ClipboardFiles.ConsumedIsPublishable | native/crates/ox-core/src/clipboard.rs:258-263 | what is left is still valid and within the limit |
| ClipboardFiles.PublishedReadsBack | native/crates/ox-core/src/clipboard.rs:170-302 | from a new selection through any pastes, both external formats read back to exactly what is left |
| ClipboardFiles.OlderPasteConsumesNothing | native/crates/ox-core/src/clipboard/decode.rs:147-162 | with a collision-free hash, a paste owns another application's cut exactly when it read that very payload as a cut |
| OverlayLayers.Unescape | native/crates/ox-core/src/drive.rs:182-204 | the loop decodes every octal escape and leaves the rest |
| OverlayLayers.OctalIsDecoded | native/crates/ox-core/src/drive.rs:186-197 | three octal digits after a backslash are the byte of that number, or a question mark over 255 |
| OverlayLayers.OtherIsKept | native/crates/ox-core/src/drive.rs:198-201 | every other byte is kept |
| OverlayLayers.SplitLayers | native/crates/ox-core/src/drive.rs:224-245 | the loop splits at each unescaped ":" and drops empty layers |
| OverlayLayers.LowerLayers | native/crates/ox-core/src/drive.rs:206-222 | the loop collects the layers of both kinds of option, in order |
| OverlayLayers.OptionNames | native/crates/ox-core/src/drive.rs:211-218 | the two options by name, and the characters that are special |
| OverlayLayers.EscapeReadsBack | native/crates/ox-core/src/drive.rs:182-204 | decoding an octal-escaped text gives it back, for all bytes |
| OverlayLayers.GuardedEscape | native/crates/ox-core/src/drive.rs:226-240 | splitting undoes the guard on colons and leaves the octal escapes for later |
| OverlayLayers.LowerLayersReadBack | native/crates/ox-core/src/drive.rs:206-245 | every list of non-empty layers and every added layer, among any other options, is read back in order |
| Dashes.Spans | native/tools/expand_icon_strokes.py:142-150 | a dash's spans run from its start to its end along the pieces without gap or overlap, so their lengths add up |
| Dashes.CutDashes | native/tools/expand_icon_strokes.py:176-187 | the dashes are in order, apart, inside the outline, and paint exactly the positions whose offset within the period is in an even segment |
| Dashes.CornersFit | native/tools/expand_icon_strokes.py:106-120 | which rectangles are covered: sides of length 0 between the corners and corners of radius 0 included |
| Dashes.DashedStroke | native/tools/expand_icon_strokes.py:106-120 | the same for the eight pieces of a rounded rectangle |
| Dashes.SegmentIsCut | native/tools/expand_icon_strokes.py:181-186 | one round of the loop paints its segment if it is a dash and nothing of a gap |
| Dashes.OneSegment | native/tools/expand_icon_strokes.py:179-182 | a position is in one segment of one period only |
| LauncherProgress.Operations.AddOperation | native/crates/ox-app/src/launcher_progress.rs:50-56 | a new operation gets the next number and starts at 0 |
| LauncherProgress.Operations.SetOperation | native/crates/ox-app/src/launcher_progress.rs:58-74 | the new fractions, the percent shown and the update sent |
| LauncherProgress.Clamp | native/crates/ox-app/src/launcher_progress.rs:64 | the nearest fraction from 0 to 1 |
| LauncherProgress.WholePercent | native/crates/ox-app/src/launcher_progress.rs:134-144 | the nearest whole percent from 0 to 100, halves up |
| LauncherProgress.EveryRunDrawsShown | native/crates/ox-app/src/launcher_progress.rs:37-75 | over every run the dock's bar is drawn exactly while a percent is held as shown, at that percent, and no update repeats the one before |
| LauncherProgress.ShownIsTheMean | native/crates/ox-app/src/launcher_progress.rs:58-74 | after each change the percent drawn is the rounded mean of the operations left, and without any there is no bar |
| NormalDependencies.NormalEdges | native/tools/package_data.py:469-474 | exactly the dependencies with a normal kind |
| NormalDependencies.NormalDependencies | native/tools/package_data.py:456-466 | the worklist ends with exactly the packages reachable through normal edges, each put on it once, and fails exactly when one of them is no node |
| NormalDependencies.ReachesNext | native/tools/package_data.py:462-465 | an edge from a reachable package leads to a reachable one |
| NormalDependencies.ClosedHoldsPath | native/tools/package_data.py:459-466 | a set closed under edges holds every path from its members |
| DesktopEntry.FourPassesAreOne | native/tools/package_i18n.py:30-33 | the four replacements in a row are one escape, none touching what another wrote |
| DesktopEntry.EscapedValueReadsBack | native/tools/package_i18n.py:24-33 | unescaping undoes the escape for every string |
| DesktopEntry.EscapesAre | native/tools/package_i18n.py:24-27 | the five escapes, and that a backslash before anything else is kept |
| DesktopEntry.TranslateDesktop | native/tools/package_i18n.py:82-95 | the nested loops give each line followed by its localised lines |
| DesktopEntry.WhatIsAdded | native/tools/package_i18n.py:86-94 | which lines a line gets: for the four keys one for each language with a translation that is not empty and has no NUL, and nothing for other keys or without an equals sign |
| DesktopEntry.AddedLinesTranslate | native/tools/package_i18n.py:90-94 | every added line is one line, a localised key, and decodes to that language's translation |
| DesktopEntry.EveryTranslationIsAdded | native/tools/package_i18n.py:91-94 | every language that has the message gets its line |
| DesktopEntry.DeletingRestores | native/tools/package_i18n.py:82-95 | deleting the catalogues' lines afterwards leaves what deleting them before would |
| DesktopEntry.TranslatedTextRestores | native/tools/package_i18n.py:82-95 | so the translated text of an entry without such lines reads back to the original lines |
| Text.PartsAreBetween | native/crates/ox-core/src/admin_copy.rs:415-417 | the parts a split gives are what stands between separators or the ends |
| Text.SplitOfJoin | native/crates/ox-core/src/clipboard.rs:343-347 | splitting at a separator gives back the parts that were joined with it |
| Lines.LinesReadBack | native/tools/i18n.py:281 | reading lines gives back the lines that were written, when none holds a line end |

## Left out

- Widgets, windows, themes, dialogs, GIO and GVfs, D-Bus, polkit and network calls: foreign effects.
- Everywhere: panics, I/O errors and lossy UTF-8 decoding. Text is Unicode characters or bytes, whichever the code works on.
- AdminCopy: the mount table and the rules on user mounts (`user_mounts` is not part of this model) are fixed while a check runs; failing lookups other than a missing name, search permission and the limit on a path's length are not modelled.
- AdminCopy: other accounts may create nodes and change anything except the entries of folders only root may change, the owner, group or mode of folders root owns, a link's target, or what kind a node is; root itself stands still. A folder counts as one an account may change when it has write permission, with or without search permission.
- AdminCopy: conversion between paths and URIs (`as_file_uri`, `local_folder`, `admin_uri_of`), the Flatpak refusal and the text of the refusals.
- PublicDataAudit: the digest is taken to be free of collisions and stands for the bytes; unzipping and unpacking are any functions of the bytes; the faults of a text are any function of the bytes. Counters, walking the disk and the manifest checks after the visits are left out.
- PublicDataAudit: suffixes are lowered in ASCII; a private term's pattern is words with white space between them, over any reading of word characters and any folding that treats "!/" as ordinary text.
- SettingsStore: a change is any function of the copy and of the settings file at that moment; the settings file itself and its lock are parameters.
- MoFile: strings are bytes already encoded; the reader's bounds on `usize` are those of unbounded numbers.
- PoText, PoTemplate, PoLosses: digits of a plural form are ASCII; the fixed texts of the template are parameters that must be comments and quotable; the places of a message come sorted and are on one line, as file names are. Extracting messages from sources is left out.
- TypeAhead: folding is any function of the text, so nothing is claimed about Unicode.
- History: the read-only accessors would only add easy members; the search step's scope and options are kept as one text; moves are not bounded to 64 bits.
- TabViews: what the view is made of and how it is put back on screen; tabs moved between windows.
- ClipboardFiles: `require_item_uri`, `copied_location`, the JSON reader, the hash and new tokens are parameters. The lemmas ask of canonical URIs that they are one line, not empty, no comment, without NUL and canonical already, and of the JSON reader that it reads a payload of the program's own shape as JSON. Pictures are left out.
- OverlayLayers: `filesystem_of_mount` and `Drive::is_same_local_drive` are plain lookups; the final lossy conversion to text is left out.
- Dashes: lengths are real numbers, so rounding is not modelled; coordinates, arcs, rings and frames are left out, and pi is any positive number. A pattern must have a positive sum: on an outline of positive length an empty pattern divides by zero, and one of zeros never gets to the end.
- LauncherProgress: fractions are real numbers without NaN; an operation sets only the number it was given, as its owner does.
- NormalDependencies: `program_crates` only filters and sorts the result.
- DesktopEntry: AppStream metainfo and reading files are left out; an added line is one line for readers that end lines at CR and LF.
