// A file selection on the clipboard: what is published, read back and
// consumed. (native/crates/ox-core/src/clipboard.rs)
//
// Payloads are kept as their text; `Size` is its length in UTF-8 bytes.

module ClipboardFiles {
  import opened Text
  import opened Lines

  const MAX_BYTES := 32 * 1024 * 1024
  const MAX_ITEMS := 100_000

  datatype Mode = Copy | Cut

  datatype Error = ItemCount | TooLarge | Location

  datatype Result<+T> = Ok(value: T) | Err(error: Error)

  datatype Selection = Selection(mode: Mode, uris: seq<string>, token: string)

  datatype Mime = Custom | Gnome | UriList | PlainText | KdeCut

  datatype Payload = Payload(mime: Mime, text: string)

  // The canonical URI of an item, if the address is of one.
  type Canonical = string -> Option<string>

  // The address an item is shown at.
  type Shown = string -> string

  // What every canonical item URI is like: one line that is no comment, and
  // canonical already.
  ghost predicate IsItem(canonical: Canonical, uri: string) {
    && canonical(uri) == Some(uri)
    && uri != "" && uri[0] != '#' && '\0' !in uri && OneLine(uri)
  }

  ghost predicate Canonicalises(canonical: Canonical) {
    forall uri :: canonical(uri).Some? ==> IsItem(canonical, canonical(uri).value)
  }

  // ------------------------------------------------------------ validated items

  // The canonical URIs of all the items; none when one is no item.
  function CanonicalAll(uris: seq<string>, canonical: Canonical): (all: Option<seq<string>>)
    ensures all.Some? <==> forall i :: 0 <= i < |uris| ==> canonical(uris[i]).Some?
    ensures all.Some? ==> |all.value| == |uris| && forall i :: 0 <= i < |uris| ==> canonical(uris[i]) == Some(all.value[i])
  {
    if uris == [] then Some([])
    else
      var init := CanonicalAll(uris[..|uris| - 1], canonical);
      var last := canonical(uris[|uris| - 1]);
      if init.None? || last.None? then None else Some(init.value + [last.value])
  }

  // What is left when an item already there is not added again.
  function Deduplicated(all: seq<string>): seq<string> {
    if all == [] then []
    else
      var (init, last) := (all[..|all| - 1], all[|all| - 1]);
      if last in init then Deduplicated(init) else Deduplicated(init) + [last]
  }

  predicate NoRepeats(uris: seq<string>) {
    forall i, j :: 0 <= i < j < |uris| ==> uris[i] != uris[j]
  }

  function FirstAt(all: seq<string>, uri: string): (at: nat)
    requires uri in all
    ensures at < |all| && all[at] == uri && uri !in all[..at]
  {
    if all[0] == uri then 0
    else
      var rest := FirstAt(all[1..], uri);
      assert all[..rest + 1] == [all[0]] + all[1..][..rest];
      rest + 1
  }

  predicate SameMembers(kept: seq<string>, all: seq<string>) {
    (forall uri :: uri in kept ==> uri in all) && (forall uri :: uri in all ==> uri in kept)
  }

  // In the order the items first appear in.
  predicate InSelectionOrder(kept: seq<string>, all: seq<string>)
    requires SameMembers(kept, all)
  {
    forall i, j :: 0 <= i < j < |kept| ==> FirstAt(all, kept[i]) < FirstAt(all, kept[j])
  }

  lemma FirstAtIs(all: seq<string>, uri: string, at: nat)
    requires at < |all| && all[at] == uri && uri !in all[..at]
    ensures FirstAt(all, uri) == at
  {
  }

  lemma FirstAtInit(all: seq<string>, uri: string)
    requires all != [] && uri in all[..|all| - 1]
    ensures FirstAt(all, uri) == FirstAt(all[..|all| - 1], uri)
  {
    var init := all[..|all| - 1];
    var at := FirstAt(init, uri);
    assert all[..at] == init[..at];
    FirstAtIs(all, uri, at);
  }

  lemma FirstAtLast(all: seq<string>)
    requires all != [] && all[|all| - 1] !in all[..|all| - 1]
    ensures FirstAt(all, all[|all| - 1]) == |all| - 1
  {
  }

  lemma NothingOrMember(uris: seq<string>)
    ensures uris == [] || exists uri :: uri in uris
  {
    if uris != [] {
      assert uris[0] in uris;
    }
  }

  lemma MembersOfLast(all: seq<string>, uri: string)
    requires all != []
    ensures uri in all <==> uri in all[..|all| - 1] || uri == all[|all| - 1]
  {
  }

  // The items in the order they first appear, each once, and nothing else:
  // only the deduplicated selection is so.
  lemma {:induction false} DeduplicatedIsExact(all: seq<string>, kept: seq<string>)
    ensures kept == Deduplicated(all) <==> SameMembers(kept, all) && InSelectionOrder(kept, all)
    decreases |all|
  {
    hide FirstAt;
    if all != [] {
      DeduplicatedFits(all);
      if SameMembers(kept, all) && InSelectionOrder(kept, all) {
        OnlyDeduplicated(all, kept);
      }
    } else {
      NothingOrMember(kept);
    }
  }

  lemma {:induction false} DeduplicatedFits(all: seq<string>)
    ensures SameMembers(Deduplicated(all), all) && InSelectionOrder(Deduplicated(all), all)
  {
    hide FirstAt;
    if all != [] {
      var (init, last) := (all[..|all| - 1], all[|all| - 1]);
      DeduplicatedFits(init);
      var before := Deduplicated(init);
      forall uri ensures uri in all <==> uri in init || uri == last {
        MembersOfLast(all, uri);
      }
      forall uri | uri in before ensures FirstAt(all, uri) == FirstAt(init, uri) < |init| {
        FirstAtInit(all, uri);
      }
      if last !in init {
        FirstAtLast(all);
      }
    }
  }

  lemma {:induction false} OnlyDeduplicated(all: seq<string>, kept: seq<string>)
    requires SameMembers(kept, all) && InSelectionOrder(kept, all)
    ensures kept == Deduplicated(all)
    decreases |all|
  {
    hide FirstAt;
    if all == [] {
      NothingOrMember(kept);
    } else {
      var (init, last) := (all[..|all| - 1], all[|all| - 1]);
      forall uri ensures uri in all <==> uri in init || uri == last {
        MembersOfLast(all, uri);
      }
      if last in init {
        forall uri | uri in kept ensures FirstAt(all, uri) == FirstAt(init, uri) {
          FirstAtInit(all, uri);
        }
        OnlyDeduplicated(init, kept);
      } else {
        LastIsKeptLast(all, kept);
        var before := kept[..|kept| - 1];
        forall uri | uri in before ensures uri in init && FirstAt(all, uri) == FirstAt(init, uri) {
          FirstAtInit(all, uri);
        }
        forall uri | uri in init ensures uri in before {
          MembersOfLast(kept, uri);
        }
        OnlyDeduplicated(init, before);
        assert kept == before + [last];
      }
    }
  }

  lemma LastIsKeptLast(all: seq<string>, kept: seq<string>)
    requires all != [] && all[|all| - 1] !in all[..|all| - 1]
    requires SameMembers(kept, all) && InSelectionOrder(kept, all)
    ensures kept != [] && kept[|kept| - 1] == all[|all| - 1]
    ensures forall i :: 0 <= i < |kept| - 1 ==> kept[i] in all[..|all| - 1]
  {
    hide FirstAt;
    var last := all[|all| - 1];
    assert last in kept;
    var at :| 0 <= at < |kept| && kept[at] == last;
    FirstAtLast(all);
    var end := kept[|kept| - 1];
    assert end in kept && FirstAt(all, end) <= FirstAt(all, last);
    assert at == |kept| - 1;
    forall i | 0 <= i < |kept| - 1 ensures kept[i] in all[..|all| - 1] {
      assert kept[i] in kept && FirstAt(all, kept[i]) < FirstAt(all, last);
      MembersOfLast(all, kept[i]);
    }
  }

  // A selection with no item twice is kept as it is.
  lemma {:induction false} NothingRepeated(uris: seq<string>)
    requires NoRepeats(uris)
    ensures Deduplicated(uris) == uris
  {
    if uris != [] {
      NothingRepeated(uris[..|uris| - 1]);
      assert uris == uris[..|uris| - 1] + [uris[|uris| - 1]];
    }
  }

  lemma {:induction false} DeduplicatedShape(all: seq<string>)
    ensures NoRepeats(Deduplicated(all)) && |Deduplicated(all)| <= |all|
    ensures forall uri :: uri in Deduplicated(all) ==> uri in all
    ensures all != [] ==> Deduplicated(all) != []
  {
    if all != [] {
      DeduplicatedShape(all[..|all| - 1]);
    }
  }

  // The selection of these addresses, or why there is none.
  function Accepted(mode: Mode, uris: seq<string>, token: string, canonical: Canonical): Result<Selection> {
    if !(1 <= |uris| <= MAX_ITEMS) then Err(ItemCount)
    else
      var all := CanonicalAll(uris, canonical);
      if all.None? then Err(Location) else Ok(Selection(mode, Deduplicated(all.value), token))
  }

  // What the loop of `with_token` has filled by now.
  ghost predicate Filled(uris: seq<string>, i: nat, canonical: Canonical, seen: set<string>, kept: seq<string>) {
    && i <= |uris|
    && var all := CanonicalAll(uris[..i], canonical);
       all.Some? && kept == Deduplicated(all.value) && forall uri :: uri in seen <==> uri in all.value
  }

  method WithToken(mode: Mode, uris: seq<string>, token: string, canonical: Canonical) returns (files: Result<Selection>)
    ensures files == Accepted(mode, uris, token, canonical)
  {
    if !(1 <= |uris| <= MAX_ITEMS) {
      return Err(ItemCount);
    }
    hide CanonicalAll, Deduplicated, Filled;
    var seen := {};
    var kept: seq<string> := [];
    NothingFilled(uris, canonical);
    for i := 0 to |uris|
      invariant Filled(uris, i, canonical, seen, kept)
    {
      FilledNext(uris, i, canonical, seen, kept);
      var uri := canonical(uris[i]);
      if uri.None? {
        return Err(Location);
      }
      if uri.value !in seen {
        seen := seen + {uri.value};
        kept := kept + [uri.value];
      }
    }
    AllFilled(uris, canonical, seen, kept);
    return Ok(Selection(mode, kept, token));
  }

  lemma NothingFilled(uris: seq<string>, canonical: Canonical)
    ensures Filled(uris, 0, canonical, {}, [])
  {
  }

  lemma {:induction false} AllFilled(uris: seq<string>, canonical: Canonical, seen: set<string>, kept: seq<string>)
    requires Filled(uris, |uris|, canonical, seen, kept)
    ensures CanonicalAll(uris, canonical).Some? && kept == Deduplicated(CanonicalAll(uris, canonical).value)
  {
    assert uris[..|uris|] == uris;
  }

  lemma {:induction false} FilledNext(uris: seq<string>, i: nat, canonical: Canonical, seen: set<string>, kept: seq<string>)
    requires i < |uris| && Filled(uris, i, canonical, seen, kept)
    ensures var uri := canonical(uris[i]);
      if uri.None? then CanonicalAll(uris, canonical).None?
      else if uri.value in seen then Filled(uris, i + 1, canonical, seen, kept)
      else Filled(uris, i + 1, canonical, seen + {uri.value}, kept + [uri.value])
  {
    hide CanonicalAll, Deduplicated;
    CanonicalOneMore(uris, i, canonical);
    var uri := canonical(uris[i]);
    if uri.Some? {
      DeduplicatedOneMore(CanonicalAll(uris[..i], canonical).value, uri.value);
    }
  }

  lemma {:induction false} CanonicalOneMore(uris: seq<string>, i: nat, canonical: Canonical)
    requires i < |uris| && CanonicalAll(uris[..i], canonical).Some?
    ensures CanonicalAll(uris[..i + 1], canonical)
      == if canonical(uris[i]).None? then None else Some(CanonicalAll(uris[..i], canonical).value + [canonical(uris[i]).value])
    ensures canonical(uris[i]).None? ==> CanonicalAll(uris, canonical).None?
  {
    assert uris[..i + 1][..i] == uris[..i] && uris[..i + 1][i] == uris[i];
  }

  lemma DeduplicatedOneMore(all: seq<string>, uri: string)
    ensures Deduplicated(all + [uri]) == if uri in all then Deduplicated(all) else Deduplicated(all) + [uri]
    ensures forall other :: other in all + [uri] <==> other in all || other == uri
  {
  }

  // A selection of validated items, empty only once it was consumed.
  ghost predicate Valid(files: Selection, canonical: Canonical) {
    |files.uris| <= MAX_ITEMS && NoRepeats(files.uris) && forall uri :: uri in files.uris ==> IsItem(canonical, uri)
  }

  lemma AcceptedIsValid(mode: Mode, uris: seq<string>, token: string, canonical: Canonical)
    requires Canonicalises(canonical) && Accepted(mode, uris, token, canonical).Ok?
    ensures Valid(Accepted(mode, uris, token, canonical).value, canonical)
    ensures Accepted(mode, uris, token, canonical).value.uris != []
  {
    hide IsItem, Deduplicated, NoRepeats;
    var all := CanonicalAll(uris, canonical).value;
    DeduplicatedShape(all);
    forall uri | uri in Deduplicated(all) ensures IsItem(canonical, uri) {
      var i :| 0 <= i < |all| && all[i] == uri;
      assert canonical(uris[i]) == Some(uri);
    }
  }

  // -------------------------------------------------------------------- sizes

  function CharSize(c: char): (bytes: nat)
    ensures 1 <= bytes <= 4
  {
    if c < '\U{80}' then 1 else if c < '\U{800}' then 2 else if c < '\U{10000}' then 3 else 4
  }

  function Size(text: string): nat {
    if text == "" then 0 else CharSize(text[0]) + Size(text[1..])
  }

  lemma {:induction false} SizeConcat(a: string, b: string)
    ensures Size(a + b) == Size(a) + Size(b)
  {
    if a == "" {
      assert a + b == b;
    } else {
      assert (a + b)[1..] == a[1..] + b;
      SizeConcat(a[1..], b);
    }
  }

  lemma {:induction false} SizeAtLeastLength(text: string)
    ensures Size(text) >= |text|
  {
    if text != "" {
      SizeAtLeastLength(text[1..]);
    }
  }

  lemma SizeOfOne(c: char)
    ensures Size([c]) == CharSize(c)
  {
  }

  lemma SizeOfTwo(c: char, d: char)
    ensures Size([c, d]) == CharSize(c) + CharSize(d)
  {
    assert [c, d][1..] == [d];
    SizeOfOne(d);
  }

  // ------------------------------------------------------------------ payloads

  function ModeName(mode: Mode): string {
    if mode == Copy then "copy" else "move"
  }

  function GnomeVerb(mode: Mode): string {
    if mode == Copy then "copy" else "cut"
  }

  function FromGnomeVerb(verb: string): Option<Mode> {
    if verb == "copy" then Some(Copy) else if verb == "cut" then Some(Cut) else None
  }

  function KdeCutMarker(mode: Mode): string {
    if mode == Copy then "0" else "1"
  }

  const HEX := "0123456789abcdef"

  // A character of a JSON string.
  function JsonChar(c: char): (escaped: string)
    ensures escaped != ""
  {
    if c == '"' then "\\\"" else if c == '\\' then "\\\\"
    else if c == '\U{08}' then "\\b" else if c == '\U{0C}' then "\\f"
    else if c == '\n' then "\\n" else if c == '\r' then "\\r" else if c == '\t' then "\\t"
    else if c < ' ' then "\\u00" + [HEX[c as int / 16], HEX[c as int % 16]]
    else [c]
  }

  function JsonChars(text: string): string {
    if text == "" then "" else JsonChar(text[0]) + JsonChars(text[1..])
  }

  function Quoted(text: string): string {
    "\"" + JsonChars(text) + "\""
  }

  function QuotedAll(texts: seq<string>): (quoted: seq<string>)
    ensures |quoted| == |texts|
  {
    if texts == [] then [] else [Quoted(texts[0])] + QuotedAll(texts[1..])
  }

  function CustomJson(files: Selection): string {
    "{\"mode\":" + Quoted(ModeName(files.mode)) + ",\"uris\":[" + Join(QuotedAll(files.uris), ",") + "],\"token\":"
    + Quoted(files.token) + "}"
  }

  function GnomeText(mode: Mode, uris: seq<string>): string {
    GnomeVerb(mode) + "\n" + Join(uris, "\n")
  }

  // URIs, each ended by CR LF.
  function UriListText(uris: seq<string>): string {
    if uris == [] then "" else uris[0] + "\r\n" + UriListText(uris[1..])
  }

  method EncodeUriList(uris: seq<string>) returns (list: string)
    ensures list == UriListText(uris)
  {
    list := "";
    assert uris[0..] == uris;
    for i := 0 to |uris|
      invariant UriListText(uris) == list + UriListText(uris[i..])
    {
      assert uris[i..][0] == uris[i] && uris[i..][1..] == uris[i + 1..];
      assert list + (uris[i] + "\r\n" + UriListText(uris[i + 1..])) == list + uris[i] + "\r\n" + UriListText(uris[i + 1..]);
      list := list + uris[i];
      list := list + "\r\n";
    }
    assert uris[|uris|..] == [];
  }

  predicate BreaksALine(c: char) {
    c < ' ' || '\U{7F}' <= c <= '\U{9F}' || c == '\U{2028}' || c == '\U{2029}'
  }

  function ShownAll(uris: seq<string>, shown: Shown): (lines: seq<string>)
    ensures |lines| == |uris| && forall i :: 0 <= i < |uris| ==> lines[i] == shown(uris[i])
  {
    if uris == [] then [] else [shown(uris[0])] + ShownAll(uris[1..], shown)
  }

  predicate AnyBreaks(lines: seq<string>) {
    exists i :: 0 <= i < |lines| && exists c :: c in lines[i] && BreaksALine(c)
  }

  // The items' addresses as text, when each is one line.
  function PlainTextOf(uris: seq<string>, shown: Shown): Option<string> {
    var lines := ShownAll(uris, shown);
    if AnyBreaks(lines) then None else Some(Join(lines, "\n"))
  }

  // What one clipboard owner publishes.
  function Encode(files: Selection, shown: Shown): seq<Payload> {
    if files.uris == [] then []
    else
      var text := PlainTextOf(files.uris, shown);
      [Payload(Custom, CustomJson(files)),
       Payload(Gnome, GnomeText(files.mode, files.uris)),
       Payload(UriList, UriListText(files.uris))]
      + (if text.Some? && Size(text.value) <= MAX_BYTES then [Payload(PlainText, text.value)] else [])
      + [Payload(KdeCut, KdeCutMarker(files.mode))]
  }

  predicate TooLargeToPaste(files: Selection, shown: Shown) {
    var text := PlainTextOf(files.uris, shown);
    Size(CustomJson(files)) > MAX_BYTES || (text.Some? && Size(text.value) > MAX_BYTES)
  }

  // A new selection, refused when a format would be too large to paste.
  method New(mode: Mode, uris: seq<string>, token: string, canonical: Canonical, shown: Shown) returns (files: Result<Selection>)
    ensures var accepted := Accepted(mode, uris, token, canonical);
      files == if accepted.Ok? && TooLargeToPaste(accepted.value, shown) then Err(TooLarge) else accepted
  {
    hide Accepted, Size, CustomJson, PlainTextOf;
    files := WithToken(mode, uris, token, canonical);
    if files.Err? {
      return;
    }
    var text := PlainTextOf(files.value.uris, shown);
    var textBytes := if text.None? then 0 else Size(text.value);
    if Size(CustomJson(files.value)) > MAX_BYTES || textBytes > MAX_BYTES {
      return Err(TooLarge);
    }
  }

  // ------------------------------------------------------- every format fits

  function TotalSize(parts: seq<string>): nat {
    if parts == [] then 0 else Size(parts[0]) + TotalSize(parts[1..])
  }

  lemma {:induction false} JoinSize(parts: seq<string>, sep: char)
    requires parts != [] && sep < '\U{80}'
    ensures Size(Join(parts, [sep])) == TotalSize(parts) + |parts| - 1
  {
    hide Size;
    if |parts| > 1 {
      JoinSize(parts[1..], sep);
      SizeConcat(parts[0] + [sep], Join(parts[1..], [sep]));
      SizeConcat(parts[0], [sep]);
      SizeOfOne(sep);
    } else {
      assert TotalSize(parts[1..]) == 0;
    }
  }

  lemma {:induction false} UriListSize(uris: seq<string>)
    ensures Size(UriListText(uris)) == TotalSize(uris) + 2 * |uris|
  {
    if uris != [] {
      UriListSize(uris[1..]);
      hide Size;
      assert "\r\n" == ['\r', '\n'];
      SizeOfTwo('\r', '\n');
      SizeConcat(uris[0] + "\r\n", UriListText(uris[1..]));
      SizeConcat(uris[0], "\r\n");
    }
  }

  lemma JsonCharSize(c: char)
    ensures Size(JsonChar(c)) >= CharSize(c)
  {
  }

  lemma {:induction false} JsonCharsSize(text: string)
    ensures Size(JsonChars(text)) >= Size(text)
  {
    hide JsonChar, CharSize;
    if text != "" {
      JsonCharsSize(text[1..]);
      JsonCharSize(text[0]);
      SizeConcat(JsonChar(text[0]), JsonChars(text[1..]));
    }
  }

  lemma QuotedSize(text: string)
    ensures Size(Quoted(text)) >= Size(text) + 2
  {
    hide Size, JsonChars;
    JsonCharsSize(text);
    SizeConcat("\"" + JsonChars(text), "\"");
    SizeConcat("\"", JsonChars(text));
    SizeAtLeastLength("\"");
  }

  lemma {:induction false} QuotedTotal(uris: seq<string>)
    ensures TotalSize(QuotedAll(uris)) >= TotalSize(uris) + 2 * |uris|
  {
    hide Size, Quoted;
    if uris != [] {
      QuotedTotal(uris[1..]);
      QuotedSize(uris[0]);
      var all := QuotedAll(uris);
      assert all[1..] == QuotedAll(uris[1..]);
    }
  }

  function JsonHead(mode: Mode): string {
    "{\"mode\":" + Quoted(ModeName(mode)) + ",\"uris\":["
  }

  function JsonTail(token: string): string {
    "],\"token\":" + Quoted(token) + "}"
  }

  lemma CustomSize(files: Selection)
    ensures Size(CustomJson(files))
      == Size(JsonHead(files.mode)) + Size(Join(QuotedAll(files.uris), ",")) + Size(JsonTail(files.token))
    ensures Size(JsonHead(files.mode)) >= 5
  {
    hide Size, Quoted, QuotedAll, Join;
    var head, uris, tail := JsonHead(files.mode), Join(QuotedAll(files.uris), ","), JsonTail(files.token);
    assert CustomJson(files) == head + uris + tail;
    SizeConcat(head + uris, tail);
    SizeConcat(head, uris);
    SizeAtLeastLength(head);
  }

  lemma VerbSize(mode: Mode)
    ensures Size(GnomeVerb(mode)) <= 4
  {
    var verb := GnomeVerb(mode);
    SizeOfOne(verb[|verb| - 1]);
    SizeOfTwo(verb[0], verb[1]);
    SizeConcat(verb[..2], verb[2..]);
    if mode == Copy {
      SizeOfTwo(verb[2], verb[3]);
    }
    assert verb == verb[..2] + verb[2..] && verb[..2] == [verb[0], verb[1]];
    assert verb[2..] == if mode == Copy then [verb[2], verb[3]] else [verb[2]];
  }

  lemma GnomeSize(mode: Mode, uris: seq<string>)
    requires uris != []
    ensures Size(GnomeText(mode, uris)) <= 5 + TotalSize(uris) + |uris| - 1
  {
    hide Join, Size;
    JoinSize(uris, '\n');
    VerbSize(mode);
    SizeOfOne('\n');
    SizeConcat(GnomeVerb(mode) + "\n", Join(uris, "\n"));
    SizeConcat(GnomeVerb(mode), "\n");
  }

  // No other file-list format is longer than the custom one.
  lemma CustomIsLongest(files: Selection)
    requires files.uris != []
    ensures Size(GnomeText(files.mode, files.uris)) <= Size(CustomJson(files))
    ensures Size(UriListText(files.uris)) <= Size(CustomJson(files))
  {
    hide Size, QuotedAll, Join, CustomJson, GnomeText, UriListText, TotalSize, JsonHead, JsonTail;
    CustomSize(files);
    JoinSize(QuotedAll(files.uris), ',');
    QuotedTotal(files.uris);
    GnomeSize(files.mode, files.uris);
    UriListSize(files.uris);
  }

  // Whatever the labels at the time, nothing published is too large to paste.
  lemma EveryPayloadFits(files: Selection, shown: Shown, payload: Payload)
    requires Size(CustomJson(files)) <= MAX_BYTES && payload in Encode(files, shown)
    ensures Size(payload.text) <= MAX_BYTES
  {
    hide CustomJson, GnomeText, UriListText, PlainTextOf;
    CustomIsLongest(files);
    SizeOfOne(KdeCutMarker(files.mode)[0]);
    hide Size;
  }

  // ------------------------------------------------------------- reading back

  // `str.splitlines`, as the external formats are read.
  method PythonSplitLines(text: string) returns (lines: seq<string>)
    ensures lines == SplitLines(text)
  {
    hide SplitLines, OneLine, IsBoundary;
    lines := [];
    var start, index := 0, 0;
    ghost var all := SplitLines(text);
    NoCharacters(text);
    while index < |text|
      invariant start <= index <= |text|
      invariant OneLine(text[start..index])
      invariant all == lines + SplitLines(text[start..])
    {
      var character := text[index];
      index := index + 1;
      if !IsBoundary(character) {
        OneMoreCharacter(text, start, index - 1);
        continue;
      }
      LineEndsAt(text, start, index - 1);
      ghost var rest := SplitLines(text[LineEnd(text, index - 1)..]);
      assert lines + ([text[start..index - 1]] + rest) == lines + [text[start..index - 1]] + rest;
      lines := lines + [text[start..index - 1]];
      if character == '\r' && index < |text| && text[index] == '\n' {
        index := index + 1;
      }
      start := index;
      NothingYet(text, start);
    }
    assert text[start..index] == text[start..];
    if start < |text| {
      LastLine(text[start..]);
      lines := lines + [text[start..]];
    } else {
      NothingSplits();
    }
  }

  lemma NoCharacters(text: string)
    ensures text[0..] == text && OneLine(text[0..0])
  {
  }

  lemma NothingYet(text: string, start: nat)
    requires start <= |text|
    ensures OneLine(text[start..start])
  {
  }

  lemma OneMoreCharacter(text: string, start: nat, at: nat)
    requires start <= at < |text| && OneLine(text[start..at]) && !IsBoundary(text[at])
    ensures OneLine(text[start..at + 1])
  {
  }

  lemma FirstLineOf(text: string, n: nat)
    requires n < |text| && OneLine(text[..n]) && IsBoundary(text[n])
    ensures SplitLines(text) == [text[..n]] + SplitLines(text[LineEnd(text, n)..])
  {
  }

  lemma {:induction false} LineEndsAt(text: string, start: nat, at: nat)
    requires start <= at < |text| && OneLine(text[start..at]) && IsBoundary(text[at])
    ensures SplitLines(text[start..]) == [text[start..at]] + SplitLines(text[LineEnd(text, at)..])
  {
    hide SplitLines, OneLine, IsBoundary;
    var rest, n := text[start..], at - start;
    assert rest[..n] == text[start..at] && rest[n] == text[at];
    FirstLineOf(rest, n);
    LaterLineEnd(text, start, n);
  }

  lemma LaterLineEnd(text: string, start: nat, n: nat)
    requires start + n < |text|
    ensures text[start..][LineEnd(text[start..], n)..] == text[LineEnd(text, start + n)..]
  {
  }

  // Where the line after the one that ends at `at` starts.
  function LineEnd(text: string, at: nat): (start: nat)
    requires at < |text|
    ensures at < start <= |text|
  {
    if text[at] == '\r' && at + 1 < |text| && text[at + 1] == '\n' then at + 2 else at + 1
  }

  lemma LastLine(line: string)
    requires line != "" && OneLine(line)
    ensures SplitLines(line) == [line]
  {
  }

  datatype Format = ReadCustom | ReadGnome | ReadUriList(kdeCutMarker: Option<string>)

  // What a custom payload says; only a string token is one.
  datatype CustomPayload = CustomPayload(mode: Mode, uris: seq<string>, token: Option<string>)

  // What reading uses from elsewhere: the canonical URIs, the JSON reader, a
  // hash, and a new token.
  datatype Reader = Reader(canonical: Canonical, json: string -> Option<CustomPayload>, hash: string -> string, newToken: string)

  const MAX_CUT_MARKER_BYTES := 16
  const MAX_TOKEN_CHARS := 80

  const GNOME := "x-special/gnome-copied-files"
  const URI_LIST := "text/uri-list"

  function TrimNuls(text: string): string {
    if text != "" && text[|text| - 1] == '\0' then TrimNuls(text[..|text| - 1]) else text
  }

  function Fingerprint(mime: string, payload: string, mode: Mode): string {
    mime + "\0" + payload + "\0" + ModeName(mode)
  }

  function ExternalToken(reader: Reader, mime: string, payload: string, mode: Mode): string {
    "external-" + reader.hash(Fingerprint(mime, payload, mode))
  }

  predicate IsExactCutMarker(marker: Option<string>) {
    && marker.Some?
    && 0 < |marker.value| <= MAX_CUT_MARKER_BYTES
    && marker.value[0] == '1'
    && forall i :: 1 <= i < |marker.value| ==> marker.value[i] == '\0'
  }

  function Addresses(lines: seq<string>): seq<string> {
    if lines == [] then []
    else (if lines[0] != "" && lines[0][0] != '#' then [lines[0]] else []) + Addresses(lines[1..])
  }

  function Accept(result: Result<Selection>): Option<Selection> {
    if result.Ok? then Some(result.value) else None
  }

  function Decode(format: Format, payload: string, reader: Reader): Option<Selection> {
    if payload == "" || Size(payload) > MAX_BYTES then None
    else
      var text := TrimNuls(payload);
      match format
      case ReadCustom => DecodeCustom(text, reader)
      case ReadGnome => DecodeGnome(payload, text, reader)
      case ReadUriList(marker) => DecodeUriList(payload, text, marker, reader)
  }

  function DecodeCustom(text: string, reader: Reader): Option<Selection> {
    var custom := reader.json(text);
    if custom.None? then None
    else
      var token :=
        if custom.value.token.Some? && |custom.value.token.value| <= MAX_TOKEN_CHARS then custom.value.token.value
        else reader.newToken;
      Accept(Accepted(custom.value.mode, custom.value.uris, token, reader.canonical))
  }

  function DecodeGnome(payload: string, text: string, reader: Reader): Option<Selection> {
    var lines := SplitLines(text);
    if lines == [] then None
    else
      var mode := FromGnomeVerb(lines[0]);
      if mode.None? then None
      else Accept(Accepted(mode.value, lines[1..], ExternalToken(reader, GNOME, payload, mode.value), reader.canonical))
  }

  function DecodeUriList(payload: string, text: string, marker: Option<string>, reader: Reader): Option<Selection> {
    var mode := if IsExactCutMarker(marker) then Cut else Copy;
    Accept(Accepted(mode, Addresses(SplitLines(text)), ExternalToken(reader, URI_LIST, payload, mode), reader.canonical))
  }

  lemma {:induction false} CanonicalAlready(uris: seq<string>, canonical: Canonical)
    requires forall uri :: uri in uris ==> IsItem(canonical, uri)
    ensures CanonicalAll(uris, canonical) == Some(uris)
  {
    var all := CanonicalAll(uris, canonical);
    assert forall i :: 0 <= i < |uris| ==> IsItem(canonical, uris[i]);
    assert all.value == uris;
  }

  // Reading canonical addresses again changes nothing.
  lemma AcceptedAgain(files: Selection, token: string, canonical: Canonical)
    requires Valid(files, canonical) && files.uris != []
    ensures Accepted(files.mode, files.uris, token, canonical) == Ok(files.(token := token))
  {
    hide IsItem;
    CanonicalAlready(files.uris, canonical);
    NothingRepeated(files.uris);
  }

  lemma {:induction false} SplitOfLines(lines: seq<string>)
    requires lines != [] && lines[|lines| - 1] != ""
    requires forall i :: 0 <= i < |lines| ==> OneLine(lines[i])
    ensures SplitLines(Join(lines, "\n")) == lines
  {
    hide SplitLines, OneLine;
    if |lines| == 1 {
      LastLine(lines[0]);
    } else {
      SplitOfLines(lines[1..]);
      NewlineIsBoundary();
      SplitFirstLine(lines[0], '\n', Join(lines[1..], "\n"));
    }
  }

  lemma NewlineIsBoundary()
    ensures IsBoundary('\n') && IsBoundary('\r')
  {
  }

  lemma SplitFirstCrlf(line: string, tail: string)
    requires OneLine(line)
    ensures SplitLines(line + "\r\n" + tail) == [line] + SplitLines(tail)
  {
    hide SplitLines, ToBoundary, OneLine, IsBoundary;
    var text := line + "\r\n" + tail;
    assert text[..|line|] == line && text[|line|] == '\r' && text[|line| + 1] == '\n' && text[|line| + 2..] == tail;
    NewlineIsBoundary();
    FirstLineOf(text, |line|);
  }

  lemma {:induction false} UriListSplits(uris: seq<string>)
    requires forall i :: 0 <= i < |uris| ==> OneLine(uris[i])
    ensures SplitLines(UriListText(uris)) == uris
  {
    hide OneLine, SplitLines;
    if uris != [] {
      UriListSplits(uris[1..]);
      SplitFirstCrlf(uris[0], UriListText(uris[1..]));
    } else {
      NothingSplits();
    }
  }

  lemma NothingSplits()
    ensures SplitLines("") == []
  {
  }

  lemma {:induction false} AllAddresses(uris: seq<string>)
    requires forall i :: 0 <= i < |uris| ==> uris[i] != "" && uris[i][0] != '#'
    ensures Addresses(uris) == uris
  {
    if uris != [] {
      AllAddresses(uris[1..]);
      assert uris == [uris[0]] + uris[1..];
    }
  }

  lemma {:induction false} JoinEndsInLast(parts: seq<string>, sep: string)
    requires parts != [] && parts[|parts| - 1] != ""
    ensures var joined := Join(parts, sep);
      joined != "" && joined[|joined| - 1] == parts[|parts| - 1][|parts[|parts| - 1]| - 1]
  {
    if |parts| > 1 {
      JoinEndsInLast(parts[1..], sep);
      assert parts[1..][|parts| - 2] == parts[|parts| - 1];
    }
  }

  lemma {:induction false} UriListEnds(uris: seq<string>)
    requires uris != []
    ensures UriListText(uris) != "" && UriListText(uris)[|UriListText(uris)| - 1] == '\n'
  {
    if |uris| > 1 {
      UriListEnds(uris[1..]);
    } else {
      assert UriListText(uris[1..]) == "";
    }
  }

  // JSON, as far as this payload needs it: the object with these members in
  // this order and without white space.
  function HexValue(c: char): Option<nat> {
    if '0' <= c <= '9' then Some((c - '0') as nat)
    else if 'a' <= c <= 'f' then Some((c - 'a') as nat + 10)
    else if 'A' <= c <= 'F' then Some((c - 'A') as nat + 10)
    else None
  }

  // The character at the start of a string's text, and its length there.
  function ReadJsonChar(text: string): (read: Option<(char, nat)>)
    requires text != ""
    ensures read.Some? ==> 0 < read.value.1 <= |text|
  {
    if text[0] < ' ' then None
    else if text[0] != '\\' then Some((text[0], 1))
    else if |text| < 2 then None
    else if text[1] == '"' || text[1] == '\\' || text[1] == '/' then Some((text[1], 2))
    else if text[1] == 'b' then Some(('\U{08}', 2))
    else if text[1] == 'f' then Some(('\U{0C}', 2))
    else if text[1] == 'n' then Some(('\n', 2))
    else if text[1] == 'r' then Some(('\r', 2))
    else if text[1] == 't' then Some(('\t', 2))
    else if text[1] != 'u' || |text| < 6 then None
    else
      match (HexValue(text[2]), HexValue(text[3]), HexValue(text[4]), HexValue(text[5]))
      case (Some(a), Some(b), Some(c), Some(d)) =>
        var value := ((a * 16 + b) * 16 + c) * 16 + d;
        if value < 0xD800 || 0xE000 <= value < 0x10000 then Some((value as char, 6)) else None
      case _ => None
  }

  // A string's text up to its closing quote, and what comes after that.
  function ReadJsonText(text: string): (read: Option<(string, string)>)
    ensures read.Some? ==> |read.value.1| < |text|
    decreases |text|
  {
    if text == "" then None
    else if text[0] == '"' then Some(("", text[1..]))
    else
      match ReadJsonChar(text)
      case None => None
      case Some((c, n)) =>
        match ReadJsonText(text[n..])
        case None => None
        case Some((value, rest)) => Some(([c] + value, rest))
  }

  // Strings separated by commas, up to the closing bracket.
  function ReadJsonTexts(text: string): Option<(seq<string>, string)>
    decreases |text|
  {
    if text == "" || text[0] != '"' then None
    else
      match ReadJsonText(text[1..])
      case None => None
      case Some((first, after)) =>
        if after == "" then None
        else if after[0] == ']' then Some(([first], after[1..]))
        else if after[0] != ',' then None
        else
          match ReadJsonTexts(after[1..])
          case None => None
          case Some((others, rest)) => Some(([first] + others, rest))
  }

  const MODE_MEMBER := "{\"mode\":\""
  const URIS_MEMBER := ",\"uris\":["
  const TOKEN_MEMBER := ",\"token\":\""

  function FromModeName(name: string): Option<Mode> {
    if name == "copy" then Some(Copy) else if name == "move" then Some(Cut) else None
  }

  function ReadCustomJson(text: string): Option<CustomPayload> {
    if !(MODE_MEMBER <= text) then None
    else
      match ReadJsonText(text[|MODE_MEMBER|..])
      case None => None
      case Some((name, afterMode)) =>
        if FromModeName(name).None? || !(URIS_MEMBER <= afterMode) then None
        else
          match ReadJsonTexts(afterMode[|URIS_MEMBER|..])
          case None => None
          case Some((uris, afterUris)) =>
            if !(TOKEN_MEMBER <= afterUris) then None
            else
              match ReadJsonText(afterUris[|TOKEN_MEMBER|..])
              case None => None
              case Some((token, end)) =>
                if end == "}" then Some(CustomPayload(FromModeName(name).value, uris, Some(token))) else None
  }

  lemma HexReadsBack(n: nat)
    requires n < 16
    ensures HexValue(HEX[n]) == Some(n)
  {
  }

  lemma JsonCharReadsBack(c: char, rest: string)
    ensures ReadJsonChar(JsonChar(c) + rest) == Some((c, |JsonChar(c)|))
    ensures JsonChar(c)[0] != '"'
  {
    hide HexValue;
    var text := JsonChar(c) + rest;
    if |JsonChar(c)| == 6 {
      HexReadsBack(0);
      HexReadsBack(c as int / 16);
      HexReadsBack(c as int % 16);
      assert text[2] == HEX[0] && text[3] == HEX[0];
    }
  }

  lemma {:induction false} JsonTextReadsBack(value: string, rest: string)
    ensures ReadJsonText(JsonChars(value) + "\"" + rest) == Some((value, rest))
  {
    hide JsonChar, ReadJsonChar;
    if value == "" {
      assert "" + "\"" + rest == ['"'] + rest;
    } else {
      var after := JsonChars(value[1..]) + "\"" + rest;
      JsonTextReadsBack(value[1..], rest);
      JsonCharReadsBack(value[0], after);
      var text := JsonChar(value[0]) + after;
      assert JsonChars(value) == JsonChar(value[0]) + JsonChars(value[1..]);
      hide JsonChars;
      assert JsonChars(value) + "\"" + rest == text;
      assert text[|JsonChar(value[0])|..] == after;
      assert value == [value[0]] + value[1..];
    }
  }

  lemma {:induction false} JsonTextsReadBack(values: seq<string>, rest: string)
    requires values != []
    ensures ReadJsonTexts(Join(QuotedAll(values), ",") + "]" + rest) == Some((values, rest))
  {
    hide JsonChars, ReadJsonText;
    var first, others := values[0], values[1..];
    var tail := if others == [] then "]" + rest else "," + (Join(QuotedAll(others), ",") + "]" + rest);
    var text := Join(QuotedAll(values), ",") + "]" + rest;
    assert QuotedAll(values)[1..] == QuotedAll(others);
    assert text == "\"" + (JsonChars(first) + "\"" + tail);
    assert text[1..] == JsonChars(first) + "\"" + tail;
    JsonTextReadsBack(first, tail);
    assert tail[1..] == if others == [] then rest else Join(QuotedAll(others), ",") + "]" + rest;
    assert text[0] == '"' && tail[0] == if others == [] then ']' else ',';
    assert values == [first] + others;
    if others != [] {
      JsonTextsReadBack(others, rest);
    } else {
      assert values == [first];
    }
  }

  lemma ModeNameReadsBack(mode: Mode)
    ensures FromModeName(ModeName(mode)) == Some(mode)
  {
  }

  // The payload reads back as JSON to the selection it was written from, so no
  // two selections are published alike.
  lemma CustomJsonReadsBack(files: Selection)
    requires files.uris != []
    ensures ReadCustomJson(CustomJson(files)) == Some(CustomPayload(files.mode, files.uris, Some(files.token)))
  {
    hide JsonChars, ReadJsonText, ReadJsonTexts, Join, QuotedAll, ModeName, FromModeName;
    var list := Join(QuotedAll(files.uris), ",");
    var afterUris := TOKEN_MEMBER + (JsonChars(files.token) + "\"" + "}");
    var afterMode := URIS_MEMBER + (list + "]" + afterUris);
    var text := MODE_MEMBER + (JsonChars(ModeName(files.mode)) + "\"" + afterMode);
    CustomJsonIs(files, list);
    ModeNameReadsBack(files.mode);
    JsonTextReadsBack(ModeName(files.mode), afterMode);
    JsonTextsReadBack(files.uris, afterUris);
    JsonTextReadsBack(files.token, "}");
    assert text[|MODE_MEMBER|..] == JsonChars(ModeName(files.mode)) + "\"" + afterMode;
    assert afterMode[|URIS_MEMBER|..] == list + "]" + afterUris;
    assert afterUris[|TOKEN_MEMBER|..] == JsonChars(files.token) + "\"" + "}";
  }

  lemma {:induction false} CustomJsonIs(files: Selection, list: string)
    requires list == Join(QuotedAll(files.uris), ",")
    ensures CustomJson(files) == MODE_MEMBER + (JsonChars(ModeName(files.mode)) + "\""
      + (URIS_MEMBER + (list + "]" + (TOKEN_MEMBER + (JsonChars(files.token) + "\"" + "}")))))
  {
    hide JsonChars, Join, QuotedAll, ModeName;
  }

  // -------------------------------------------------- what else may be read

  lemma SizeOfCharacter(c: char)
    ensures CharSize(c) == if c as int <= 127 then 1 else if c as int <= 2047 then 2 else if c as int <= 65535 then 3 else 4
  {
  }

  // Two characters for those JSON has a short escape for, six for the other
  // control characters.
  lemma EscapeLength(c: char)
    ensures |JsonChar(c)| == if c in "\"\\\n\r\t" || c == '\U{08}' || c == '\U{0C}' then 2 else if c < ' ' then 6 else 1
  {
  }

  function Nuls(n: nat): string {
    seq(n, i => '\0')
  }

  // The NULs at the end of a payload are no part of it.
  lemma {:induction false} NulsAreTrimmed(text: string, n: nat)
    requires text == "" || text[|text| - 1] != '\0'
    ensures TrimNuls(text + Nuls(n)) == text
  {
    if n > 0 {
      NulsAreTrimmed(text, n - 1);
      var all := text + Nuls(n);
      assert all[..|all| - 1] == text + Nuls(n - 1);
    } else {
      assert text + Nuls(0) == text;
    }
  }

  // A KDE marker says that the files are cut when it is "1", NULs after it
  // allowed, and no longer than 16 bytes.
  lemma CutMarkerIs(marker: string)
    ensures !IsExactCutMarker(None)
    ensures IsExactCutMarker(Some(marker)) <==> exists n :: 0 <= n <= 15 && marker == "1" + Nuls(n)
  {
    if IsExactCutMarker(Some(marker)) {
      assert marker == "1" + Nuls(|marker| - 1);
    }
  }

  // Empty lines and comments in a list of addresses are passed over.
  lemma {:induction false} AddressesAre(before: seq<string>, line: string, after: seq<string>)
    ensures Addresses(before + [line] + after) ==
      Addresses(before) + (if line == "" || line[0] == '#' then [] else [line]) + Addresses(after)
  {
    if before == [] {
      assert before + [line] + after == [line] + after;
    } else {
      assert (before + [line] + after)[1..] == before[1..] + [line] + after;
      AddressesAre(before[1..], line, after);
    }
  }

  // What is not read: nothing at all, a payload over the limit, GNOME's format
  // without its first line or with another verb in it, and what the JSON reader
  // refuses.
  lemma WhatIsRefused(format: Format, payload: string, reader: Reader)
    ensures payload == "" || Size(payload) > MAX_BYTES ==> Decode(format, payload, reader) == None
    ensures var lines := SplitLines(TrimNuls(payload));
      format == ReadGnome && (lines == [] || (lines[0] != "copy" && lines[0] != "cut")) ==> Decode(format, payload, reader) == None
    ensures format == ReadCustom && reader.json(TrimNuls(payload)) == None ==> Decode(format, payload, reader) == None
  {
    hide Size, TrimNuls, SplitLines, Accepted;
  }

  // What is read of a payload that is not too large: the items its lines or its
  // JSON name, if they can be a selection; a token of at most 80 characters is
  // kept, another one is replaced.
  lemma WhatIsRead(payload: string, marker: Option<string>, reader: Reader)
    requires payload != "" && Size(payload) <= MAX_BYTES
    ensures var lines := SplitLines(TrimNuls(payload));
      lines != [] && (lines[0] == "copy" || lines[0] == "cut") ==>
        var mode := if lines[0] == "cut" then Cut else Copy;
        Decode(ReadGnome, payload, reader) == Accept(Accepted(mode, lines[1..], ExternalToken(reader, GNOME, payload, mode), reader.canonical))
    ensures var lines := SplitLines(TrimNuls(payload));
      var mode := if IsExactCutMarker(marker) then Cut else Copy;
      Decode(ReadUriList(marker), payload, reader)
        == Accept(Accepted(mode, Addresses(lines), ExternalToken(reader, URI_LIST, payload, mode), reader.canonical))
    ensures reader.json(TrimNuls(payload)).Some? ==>
      var custom := reader.json(TrimNuls(payload)).value;
      var token := if custom.token.Some? && |custom.token.value| <= 80 then custom.token.value else reader.newToken;
      Decode(ReadCustom, payload, reader) == Accept(Accepted(custom.mode, custom.uris, token, reader.canonical))
  {
    hide Size, TrimNuls, SplitLines, Accepted, ExternalToken, Addresses, IsExactCutMarker;
  }

  // A selection with items is published once in each of four formats, and as
  // text when that can be; one that was consumed is not published.
  lemma WhatIsPublished(files: Selection, shown: Shown, payload: Payload)
    ensures files.uris == [] ==> Encode(files, shown) == []
    ensures files.uris != [] && payload.mime != PlainText ==>
      (payload in Encode(files, shown) <==> payload.text == match payload.mime
        case Custom => CustomJson(files)
        case Gnome => GnomeText(files.mode, files.uris)
        case UriList => UriListText(files.uris)
        case _ => if files.mode == Cut then "1" else "0")
    ensures forall i, j :: 0 <= i < j < |Encode(files, shown)| ==> Encode(files, shown)[i].mime != Encode(files, shown)[j].mime
  {
    hide Size, CustomJson, GnomeText, UriListText, PlainTextOf;
    var all := Encode(files, shown);
    if files.uris != [] {
      assert all[0].mime == Custom && all[1].mime == Gnome && all[2].mime == UriList && all[|all| - 1].mime == KdeCut;
    }
  }

  // The plain text is offered exactly when every item is shown on one line and
  // it is not over the limit: no character below the space, no DEL or other
  // control character, and none of Unicode's two separators.
  lemma PlainTextIsOffered(files: Selection, shown: Shown)
    requires files.uris != []
    ensures (exists payload :: payload in Encode(files, shown) && payload.mime == PlainText) <==>
      && Size(Join(ShownAll(files.uris, shown), "\n")) <= MAX_BYTES
      && forall i, c :: 0 <= i < |files.uris| && c in shown(files.uris[i]) ==>
           (' ' <= c < '\U{7F}' || '\U{9F}' < c) && c != '\U{2028}' && c != '\U{2029}'
  {
    hide Size, CustomJson, GnomeText, UriListText, Join;
    var lines, all := ShownAll(files.uris, shown), Encode(files, shown);
    forall c ensures !BreaksALine(c) <==> (' ' <= c < '\U{7F}' || '\U{9F}' < c) && c != '\U{2028}' && c != '\U{2029}' {
    }
    hide BreaksALine;
    if !AnyBreaks(lines) {
      assert Size(Join(lines, "\n")) <= MAX_BYTES ==> all[3] == Payload(PlainText, Join(lines, "\n"));
      forall i, c | 0 <= i < |files.uris| && c in shown(files.uris[i]) ensures !BreaksALine(c) {
        assert c in lines[i];
      }
    } else {
      var i :| 0 <= i < |lines| && exists c :: c in lines[i] && BreaksALine(c);
      var c :| c in lines[i] && BreaksALine(c);
      assert c in shown(files.uris[i]);
    }
  }

  // What a window of the program publishes, another reads whole, token and
  // all, if its JSON reader reads the payload as JSON.
  lemma CustomReadsBack(files: Selection, reader: Reader)
    requires Valid(files, reader.canonical) && files.uris != [] && Size(CustomJson(files)) <= MAX_BYTES
    requires |files.token| <= MAX_TOKEN_CHARS
    requires reader.json(CustomJson(files)) == ReadCustomJson(CustomJson(files))
    ensures Decode(ReadCustom, CustomJson(files), reader) == Some(files)
  {
    hide Size, IsItem, NoRepeats, Accepted, Quoted, Join, ReadCustomJson;
    CustomJsonReadsBack(files);
    AcceptedAgain(files, files.token, reader.canonical);
    var json := CustomJson(files);
    assert json[|json| - 1] == '}';
  }

  lemma GnomeVerbReads(mode: Mode)
    ensures FromGnomeVerb(GnomeVerb(mode)) == Some(mode) && OneLine(GnomeVerb(mode))
  {
  }

  lemma {:induction false} GnomeShape(mode: Mode, uris: seq<string>, canonical: Canonical)
    requires uris != [] && forall uri :: uri in uris ==> IsItem(canonical, uri)
    ensures SplitLines(GnomeText(mode, uris)) == [GnomeVerb(mode)] + uris
    ensures GnomeText(mode, uris) != "" && TrimNuls(GnomeText(mode, uris)) == GnomeText(mode, uris)
  {
    hide SplitLines, OneLine, GnomeVerb;
    assert forall i :: 0 <= i < |uris| ==> IsItem(canonical, uris[i]);
    var lines := [GnomeVerb(mode)] + uris;
    GnomeVerbReads(mode);
    assert lines[1..] == uris && lines[|lines| - 1] == uris[|uris| - 1];
    assert Join(lines, "\n") == GnomeText(mode, uris);
    hide Join, GnomeText;
    SplitOfLines(lines);
    JoinEndsInLast(lines, "\n");
    var last := uris[|uris| - 1];
    assert last[|last| - 1] in last;
  }

  // GNOME's format, published and read, is the selection it was made from.
  lemma GnomeReadsBack(files: Selection, reader: Reader)
    requires Valid(files, reader.canonical) && files.uris != [] && Size(CustomJson(files)) <= MAX_BYTES
    ensures var payload := GnomeText(files.mode, files.uris);
      Decode(ReadGnome, payload, reader) == Some(files.(token := ExternalToken(reader, GNOME, payload, files.mode)))
  {
    hide Size, CustomJson, GnomeText, SplitLines, IsItem, NoRepeats, TrimNuls, Accepted, GnomeVerb, FromGnomeVerb, ExternalToken;
    var payload := GnomeText(files.mode, files.uris);
    CustomIsLongest(files);
    GnomeShape(files.mode, files.uris, reader.canonical);
    GnomeVerbReads(files.mode);
    AcceptedAgain(files, ExternalToken(reader, GNOME, payload, files.mode), reader.canonical);
    assert ([GnomeVerb(files.mode)] + files.uris)[1..] == files.uris;
  }

  lemma UriListShape(uris: seq<string>, canonical: Canonical)
    requires uris != [] && forall uri :: uri in uris ==> IsItem(canonical, uri)
    ensures Addresses(SplitLines(UriListText(uris))) == uris
    ensures UriListText(uris) != "" && TrimNuls(UriListText(uris)) == UriListText(uris)
  {
    hide SplitLines, OneLine, Addresses, UriListText;
    assert forall i :: 0 <= i < |uris| ==> IsItem(canonical, uris[i]);
    UriListSplits(uris);
    AllAddresses(uris);
    UriListEnds(uris);
  }

  // So is the URI list, beside its KDE marker.
  lemma UriListReadsBack(files: Selection, reader: Reader)
    requires Valid(files, reader.canonical) && files.uris != [] && Size(CustomJson(files)) <= MAX_BYTES
    ensures var payload := UriListText(files.uris);
      Decode(ReadUriList(Some(KdeCutMarker(files.mode))), payload, reader)
        == Some(files.(token := ExternalToken(reader, URI_LIST, payload, files.mode)))
  {
    hide Size, CustomJson, UriListText, SplitLines, IsItem, NoRepeats, TrimNuls, Accepted, ExternalToken, Addresses;
    var payload := UriListText(files.uris);
    CustomIsLongest(files);
    UriListShape(files.uris, reader.canonical);
    AcceptedAgain(files, ExternalToken(reader, URI_LIST, payload, files.mode), reader.canonical);
  }

  // The text has exactly one line for each item, whatever ends a line for its
  // reader: nothing between two newlines breaks a line.
  lemma OneLinePerItem(files: Selection, shown: Shown, payload: Payload)
    requires payload in Encode(files, shown) && payload.mime == PlainText
    ensures Split(payload.text, '\n') == ShownAll(files.uris, shown)
    ensures forall i, c :: 0 <= i < |files.uris| && c in shown(files.uris[i]) ==> !BreaksALine(c)
  {
    hide Size, CustomJson, GnomeText, UriListText, Split, Join;
    var lines := ShownAll(files.uris, shown);
    assert lines[0] == shown(files.uris[0]);
    assert !AnyBreaks(lines);
    assert BreaksALine('\n');
    assert forall i :: 0 <= i < |lines| ==> '\n' !in lines[i];
    SplitOfJoin(lines, '\n');
  }

  // ----------------------------------------------------------------- consuming

  function Retained(uris: seq<string>, moved: set<string>): (kept: seq<string>)
    ensures forall uri :: uri in kept <==> uri in uris && uri !in moved
    ensures |kept| <= |uris| && (|kept| == |uris| <==> forall uri :: uri in uris ==> uri !in moved)
  {
    if uris == [] then []
    else
      assert forall uri :: uri in uris <==> uri == uris[0] || uri in uris[1..];
      (if uris[0] in moved then [] else [uris[0]]) + Retained(uris[1..], moved)
  }

  predicate Owns(files: Selection, token: string) {
    files.mode == Cut && files.token == token
  }

  function Consumed(files: Selection, token: string, moved: seq<string>): Selection {
    if Owns(files, token) then files.(uris := Retained(files.uris, set uri | uri in moved)) else files
  }

  // A clipboard owner: the selection it publishes.
  class Owner {
    var files: Selection

    constructor (files: Selection)
      ensures this.files == files
    {
      this.files := files;
    }

    // Takes out the items a paste moved, if the paste owns this cut.
    method Consume(token: string, moved: seq<string>) returns (removed: bool)
      modifies this
      ensures files == Consumed(old(files), token, moved)
      ensures removed <==> Owns(old(files), token) && exists uri :: uri in moved && uri in old(files.uris)
    {
      if !Owns(files, token) {
        return false;
      }
      var gone := set uri | uri in moved;
      var originalLength := |files.uris|;
      files := files.(uris := Retained(files.uris, gone));
      removed := |files.uris| != originalLength;
    }
  }

  // One paste's report: the token it read, and what it moved.
  datatype Report = Report(token: string, moved: seq<string>)

  function AllConsumed(files: Selection, reports: seq<Report>): Selection
    decreases |reports|
  {
    if reports == [] then files
    else AllConsumed(Consumed(files, reports[0].token, reports[0].moved), reports[1..])
  }

  // What the pastes that own the selection moved.
  function Moved(files: Selection, reports: seq<Report>): set<string> {
    if reports == [] then {}
    else (if Owns(files, reports[0].token) then set uri | uri in reports[0].moved else {}) + Moved(files, reports[1..])
  }

  lemma {:induction false} RetainedTwice(uris: seq<string>, first: set<string>, second: set<string>)
    ensures Retained(Retained(uris, first), second) == Retained(uris, first + second)
  {
    if uris != [] {
      RetainedTwice(uris[1..], first, second);
      var rest := Retained(uris[1..], first);
      if uris[0] !in first {
        assert Retained(uris, first) == [uris[0]] + rest && ([uris[0]] + rest)[1..] == rest;
      } else {
        assert Retained(uris, first) == rest;
      }
    }
  }

  lemma {:induction false} RetainedAll(uris: seq<string>)
    ensures Retained(uris, {}) == uris
  {
    if uris != [] {
      RetainedAll(uris[1..]);
      assert uris == [uris[0]] + uris[1..];
    }
  }

  lemma MovedByToken(files: Selection, other: Selection, reports: seq<Report>)
    requires files.mode == other.mode && files.token == other.token
    ensures Moved(files, reports) == Moved(other, reports)
  {
  }

  // After any series of pastes the selection holds exactly what none that
  // owned it moved, in the order it was.
  lemma {:induction false} SeriesLeavesTheUnmoved(files: Selection, reports: seq<Report>)
    ensures AllConsumed(files, reports) == files.(uris := Retained(files.uris, Moved(files, reports)))
    decreases |reports|
  {
    hide Retained;
    if reports == [] {
      RetainedAll(files.uris);
    } else {
      var next := Consumed(files, reports[0].token, reports[0].moved);
      SeriesLeavesTheUnmoved(next, reports[1..]);
      MovedByToken(files, next, reports[1..]);
      if Owns(files, reports[0].token) {
        RetainedTwice(files.uris, (set uri | uri in reports[0].moved), Moved(files, reports[1..]));
      } else {
        assert {} + Moved(files, reports[1..]) == Moved(files, reports[1..]);
      }
    }
  }

  lemma {:induction false} RetainedNoRepeats(uris: seq<string>, moved: set<string>)
    requires NoRepeats(uris)
    ensures NoRepeats(Retained(uris, moved))
  {
    if uris != [] {
      assert forall i :: 0 <= i < |uris[1..]| ==> uris[1..][i] == uris[i + 1];
      RetainedNoRepeats(uris[1..], moved);
      assert uris[0] !in uris[1..];
    }
  }

  lemma {:induction false} RetainedTotal(uris: seq<string>, moved: set<string>)
    ensures TotalSize(QuotedAll(Retained(uris, moved))) <= TotalSize(QuotedAll(uris))
  {
    hide Size, Quoted;
    if uris != [] {
      RetainedTotal(uris[1..], moved);
      var rest := Retained(uris[1..], moved);
      assert QuotedAll(uris)[1..] == QuotedAll(uris[1..]);
      if uris[0] !in moved {
        assert ([uris[0]] + rest)[1..] == rest && QuotedAll([uris[0]] + rest)[1..] == QuotedAll(rest);
      } else {
        assert Retained(uris, moved) == rest;
      }
    }
  }

  // What is left is a selection that can still be published and pasted.
  lemma {:induction false} ConsumedIsPublishable(files: Selection, reports: seq<Report>, canonical: Canonical)
    requires Valid(files, canonical) && Size(CustomJson(files)) <= MAX_BYTES
    ensures var left := AllConsumed(files, reports);
      Valid(left, canonical) && Size(CustomJson(left)) <= MAX_BYTES && left.mode == files.mode && left.token == files.token
  {
    hide Size, CustomJson, QuotedAll, Join, Retained, NoRepeats, IsItem, TotalSize, JsonHead, JsonTail, Moved, AllConsumed;
    SeriesLeavesTheUnmoved(files, reports);
    var moved := Moved(files, reports);
    var left := files.(uris := Retained(files.uris, moved));
    RetainedNoRepeats(files.uris, moved);
    CustomSize(files);
    CustomSize(left);
    RetainedTotal(files.uris, moved);
    if left.uris != [] {
      JoinSize(QuotedAll(files.uris), ',');
      JoinSize(QuotedAll(left.uris), ',');
    } else {
      NothingJoined();
    }
  }

  lemma NothingJoined()
    ensures Size(Join(QuotedAll([]), ",")) == 0
  {
  }

  // From a new selection through any pastes: both external formats give
  // another window exactly what is left.
  lemma {:induction false} PublishedReadsBack(
      mode: Mode, uris: seq<string>, token: string, shown: Shown, reports: seq<Report>, reader: Reader)
    requires Canonicalises(reader.canonical)
    requires Accepted(mode, uris, token, reader.canonical).Ok?
    requires !TooLargeToPaste(Accepted(mode, uris, token, reader.canonical).value, shown)
    requires AllConsumed(Accepted(mode, uris, token, reader.canonical).value, reports).uris != []
    ensures var left := AllConsumed(Accepted(mode, uris, token, reader.canonical).value, reports);
      var gnome, list := GnomeText(mode, left.uris), UriListText(left.uris);
      && Decode(ReadGnome, gnome, reader) == Some(Selection(mode, left.uris, ExternalToken(reader, GNOME, gnome, mode)))
      && Decode(ReadUriList(Some(KdeCutMarker(mode))), list, reader)
         == Some(Selection(mode, left.uris, ExternalToken(reader, URI_LIST, list, mode)))
      && left.uris == Retained(Deduplicated(CanonicalAll(uris, reader.canonical).value), Moved(left, reports))
  {
    hide Size, CustomJson, Valid, AllConsumed, Decode, GnomeText, UriListText, ExternalToken, PlainTextOf,
      Moved, Retained, Deduplicated, CanonicalAll;
    var files := Accepted(mode, uris, token, reader.canonical).value;
    AcceptedIsValid(mode, uris, token, reader.canonical);
    ConsumedIsPublishable(files, reports, reader.canonical);
    var left := AllConsumed(files, reports);
    GnomeReadsBack(left, reader);
    UriListReadsBack(left, reader);
    SeriesLeavesTheUnmoved(files, reports);
    MovedByToken(files, left, reports);
  }

  // --------------------------------------------------------- other applications

  ghost predicate NoCollisions(hash: string -> string) {
    forall a, b :: hash(a) == hash(b) ==> a == b
  }

  lemma FingerprintParts(mime: string, payload: string, mode: Mode)
    ensures var text, n := Fingerprint(mime, payload, mode), |mime| + 1;
      && |text| == n + |payload| + 5
      && text[n..|text| - 5] == payload
      && text[|text| - 4] == if mode == Copy then 'c' else 'm'
  {
  }

  lemma FingerprintTells(mime: string, payload: string, mode: Mode, mime': string, payload': string, mode': Mode)
    requires mime in {GNOME, URI_LIST} && mime' in {GNOME, URI_LIST}
    requires Fingerprint(mime, payload, mode) == Fingerprint(mime', payload', mode')
    ensures mime == mime' && payload == payload' && mode == mode'
  {
    var a, b := Fingerprint(mime, payload, mode), Fingerprint(mime', payload', mode');
    assert a[0] == mime[0] && b[0] == mime'[0];
    var n := |mime| + 1;
    assert mime == mime';
    hide Fingerprint;
    FingerprintParts(mime, payload, mode);
    FingerprintParts(mime, payload', mode');
    assert a[n..|a| - 5] == b[n..|b| - 5] && a[|a| - 4] == b[|b| - 4];
  }

  // A paste of another application's cut consumes nothing once the clipboard
  // holds any other payload; of the same payload, it does.
  lemma OlderPasteConsumesNothing(
      reader: Reader, mime: string, payload: string, mode: Mode, mime': string, payload': string, files: Selection, moved: seq<string>)
    requires NoCollisions(reader.hash) && mime in {GNOME, URI_LIST} && mime' in {GNOME, URI_LIST}
    requires files.token == ExternalToken(reader, mime', payload', files.mode)
    ensures Owns(files, ExternalToken(reader, mime, payload, mode))
       <==> mode == Cut && files.mode == Cut && mime == mime' && payload == payload'
    ensures (mime != mime' || payload != payload') ==> Consumed(files, ExternalToken(reader, mime, payload, mode), moved) == files
  {
    hide Fingerprint;
    var a, b := Fingerprint(mime, payload, mode), Fingerprint(mime', payload', files.mode);
    if ExternalToken(reader, mime, payload, mode) == files.token {
      assert reader.hash(a) == ExternalToken(reader, mime, payload, mode)[9..];
      assert reader.hash(b) == ExternalToken(reader, mime', payload', files.mode)[9..];
      FingerprintTells(mime, payload, mode, mime', payload', files.mode);
    }
  }
}
