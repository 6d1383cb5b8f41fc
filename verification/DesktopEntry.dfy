// Translations in desktop entries (sections 4 and 5 of the Desktop Entry
// Specification). (native/tools/package_i18n.py)

module DesktopEntry {
  import opened Text
  import opened Lines

  // ----------------------------------------------------------------- escapes

  // `replace` of one character.
  function Replace(text: string, c: char, put: string): string {
    if text == "" then "" else (if text[0] == c then put else [text[0]]) + Replace(text[1..], c, put)
  }

  // Four replacements, one after another.
  function EscapeValue(text: string): string {
    Replace(Replace(Replace(Replace(text, '\\', "\\\\"), '\n', "\\n"), '\r', "\\r"), '\t', "\\t")
  }

  function EscapeChar(c: char): string {
    if c == '\\' then "\\\\"
    else if c == '\n' then "\\n"
    else if c == '\r' then "\\r"
    else if c == '\t' then "\\t"
    else [c]
  }

  // The escape in one pass.
  function EscapeOnce(text: string): string {
    if text == "" then "" else EscapeChar(text[0]) + EscapeOnce(text[1..])
  }

  function UnescapeChar(c: char): char {
    if c == 's' then ' ' else if c == 'n' then '\n' else if c == 't' then '\t' else if c == 'r' then '\r' else c
  }

  function UnescapeValue(text: string): string {
    if text == "" then ""
    else if text[0] == '\\' && |text| > 1 && text[1] in "sntr\\" then [UnescapeChar(text[1])] + UnescapeValue(text[2..])
    else [text[0]] + UnescapeValue(text[1..])
  }

  lemma {:induction false} ReplaceConcat(a: string, b: string, c: char, put: string)
    ensures Replace(a + b, c, put) == Replace(a, c, put) + Replace(b, c, put)
  {
    if a == "" {
      assert a + b == b;
    } else {
      assert (a + b)[1..] == a[1..] + b;
      ReplaceConcat(a[1..], b, c, put);
    }
  }

  lemma ReplaceOne(d: char, c: char, put: string)
    ensures Replace([d], c, put) == if d == c then put else [d]
  {
  }

  lemma ReplaceTwo(d: char, e: char, c: char, put: string)
    requires d != c && e != c
    ensures Replace([d, e], c, put) == [d, e]
  {
    assert [d, e] == [d] + [e];
    ReplaceConcat([d], [e], c, put);
    ReplaceOne(d, c, put);
    ReplaceOne(e, c, put);
  }

  lemma EscapeOfOne(c: char)
    ensures EscapeValue([c]) == EscapeChar(c)
  {
    hide Replace;
    ReplaceOne(c, '\\', "\\\\");
    ReplaceOne(c, '\n', "\\n");
    ReplaceOne(c, '\r', "\\r");
    ReplaceOne(c, '\t', "\\t");
    assert "\\\\" == ['\\', '\\'] && "\\n" == ['\\', 'n'] && "\\r" == ['\\', 'r'];
    ReplaceTwo('\\', '\\', '\n', "\\n");
    ReplaceTwo('\\', '\\', '\r', "\\r");
    ReplaceTwo('\\', '\\', '\t', "\\t");
    ReplaceTwo('\\', 'n', '\r', "\\r");
    ReplaceTwo('\\', 'n', '\t', "\\t");
    ReplaceTwo('\\', 'r', '\t', "\\t");
  }

  lemma EscapeConcat(a: string, b: string)
    ensures EscapeValue(a + b) == EscapeValue(a) + EscapeValue(b)
  {
    hide Replace;
    ReplaceConcat(a, b, '\\', "\\\\");
    var a1, b1 := Replace(a, '\\', "\\\\"), Replace(b, '\\', "\\\\");
    ReplaceConcat(a1, b1, '\n', "\\n");
    var a2, b2 := Replace(a1, '\n', "\\n"), Replace(b1, '\n', "\\n");
    ReplaceConcat(a2, b2, '\r', "\\r");
    var a3, b3 := Replace(a2, '\r', "\\r"), Replace(b2, '\r', "\\r");
    ReplaceConcat(a3, b3, '\t', "\\t");
  }

  // The order of the replacements never makes one touch what another wrote.
  lemma {:induction false} FourPassesAreOne(text: string)
    ensures EscapeValue(text) == EscapeOnce(text)
  {
    hide EscapeChar;
    if text != "" {
      hide EscapeValue;
      assert text == [text[0]] + text[1..];
      EscapeConcat([text[0]], text[1..]);
      EscapeOfOne(text[0]);
      FourPassesAreOne(text[1..]);
    }
  }

  lemma UnescapeFirst(c: char, rest: string)
    ensures UnescapeValue(EscapeChar(c) + rest) == [c] + UnescapeValue(rest)
  {
  }

  lemma {:induction false} UnescapeOnce(text: string)
    ensures UnescapeValue(EscapeOnce(text)) == text
  {
    hide EscapeChar;
    if text != "" {
      UnescapeOnce(text[1..]);
      UnescapeFirst(text[0], EscapeOnce(text[1..]));
      assert text == [text[0]] + text[1..];
    }
  }

  // Every translation is read back as it was.
  lemma EscapedValueReadsBack(text: string)
    ensures UnescapeValue(EscapeValue(text)) == text
  {
    FourPassesAreOne(text);
    UnescapeOnce(text);
  }

  // The escapes of the specification; "\\" before anything else is itself.
  lemma EscapesAre(c: char, rest: string)
    ensures UnescapeValue(['\\', c] + rest) ==
      if c == 's' then [' '] + UnescapeValue(rest)
      else if c == 'n' then ['\n'] + UnescapeValue(rest)
      else if c == 't' then ['\t'] + UnescapeValue(rest)
      else if c == 'r' then ['\r'] + UnescapeValue(rest)
      else if c == '\\' then ['\\'] + UnescapeValue(rest)
      else ['\\'] + UnescapeValue([c] + rest)
  {
    assert (['\\', c] + rest)[2..] == rest && (['\\', c] + rest)[1..] == [c] + rest;
  }

  // An escaped value stays on its line.
  lemma {:induction false} EscapedOnOneLine(text: string)
    ensures '\n' !in EscapeOnce(text) && '\r' !in EscapeOnce(text)
  {
    if text != "" {
      EscapedOnOneLine(text[1..]);
    }
  }

  // ------------------------------------------------------------ translating

  const DESKTOP_KEYS := {"Name", "GenericName", "Comment", "Keywords"}

  // A language's messages; the languages come in the order of their names.
  datatype Catalogue = Catalogue(locale: string, messages: map<string, string>)

  // `partition("=")`: what is before the first "=" and after it.
  function Partition(line: string): (string, Option<string>) {
    if line == "" then ("", None)
    else if line[0] == '=' then ("", Some(line[1..]))
    else
      var (key, value) := Partition(line[1..]);
      ([line[0]] + key, value)
  }

  function LocalKey(key: string, locale: string): string {
    key + "[" + locale + "]"
  }

  predicate HasTranslation(catalogue: Catalogue, original: string) {
    original in catalogue.messages && catalogue.messages[original] != "" && '\0' !in catalogue.messages[original]
  }

  // The lines added after a key's own line.
  function AddedFor(key: string, original: string, catalogues: seq<Catalogue>): seq<string> {
    if catalogues == [] then []
    else
      (if HasTranslation(catalogues[0], original)
       then [LocalKey(key, catalogues[0].locale) + "=" + EscapeValue(catalogues[0].messages[original])]
       else [])
      + AddedFor(key, original, catalogues[1..])
  }

  function Added(line: string, catalogues: seq<Catalogue>): seq<string> {
    var (key, value) := Partition(line);
    if value.None? || key !in DESKTOP_KEYS then [] else AddedFor(key, UnescapeValue(value.value), catalogues)
  }

  function Translated(lines: seq<string>, catalogues: seq<Catalogue>): seq<string> {
    if lines == [] then [] else [lines[0]] + Added(lines[0], catalogues) + Translated(lines[1..], catalogues)
  }

  // The entry with localised strings beside their keys.
  method TranslateDesktop(text: string, catalogues: seq<Catalogue>) returns (translated: string)
    ensures translated == Join(Translated(SplitLines(text), catalogues), "\n") + "\n"
  {
    hide *;
    var given := SplitLines(text);
    var lines: seq<string> := [];
    ghost var all := Translated(given, catalogues);
    assert given[0..] == given;
    for i := 0 to |given|
      invariant all == lines + Translated(given[i..], catalogues)
    {
      var line := given[i];
      ghost var rest := Translated(given[i + 1..], catalogues);
      TranslatedFrom(given, i, catalogues);
      Regroup(lines, line, Added(line, catalogues) + rest);
      lines := lines + [line];
      var (key, value) := Partition(line);
      AddedIs(line, catalogues);
      if value.None? || key !in DESKTOP_KEYS {
        assert [] + rest == rest;
        continue;
      }
      var original := UnescapeValue(value.value);
      assert catalogues[0..] == catalogues;
      for j := 0 to |catalogues|
        invariant all == lines + (AddedFor(key, original, catalogues[j..]) + rest)
      {
        var catalogue := catalogues[j];
        AddedFrom(key, original, catalogues, j, rest);
        if HasTranslation(catalogue, original) {
          var localised := LocalKey(key, catalogue.locale) + "=" + EscapeValue(catalogue.messages[original]);
          Regroup(lines, localised, AddedFor(key, original, catalogues[j + 1..]) + rest);
          lines := lines + [localised];
        }
      }
      AddedToNone(key, original, catalogues, rest);
    }
    TranslatedToNone(given, catalogues);
    assert lines == all;
    translated := Join(lines, "\n") + "\n";
  }

  lemma Regroup(before: seq<string>, line: string, after: seq<string>)
    ensures before + ([line] + after) == before + [line] + after
  {
  }

  lemma TranslatedFrom(lines: seq<string>, i: nat, catalogues: seq<Catalogue>)
    requires i < |lines|
    ensures Translated(lines[i..], catalogues) == [lines[i]] + (Added(lines[i], catalogues) + Translated(lines[i + 1..], catalogues))
  {
  }

  lemma TranslatedToNone(lines: seq<string>, catalogues: seq<Catalogue>)
    ensures Translated(lines[|lines|..], catalogues) == []
  {
  }

  lemma AddedFrom(key: string, original: string, catalogues: seq<Catalogue>, j: nat, rest: seq<string>)
    requires j < |catalogues|
    ensures HasTranslation(catalogues[j], original) ==> original in catalogues[j].messages
    ensures AddedFor(key, original, catalogues[j..]) + rest ==
      if HasTranslation(catalogues[j], original)
      then [LocalKey(key, catalogues[j].locale) + "=" + EscapeValue(catalogues[j].messages[original])]
           + (AddedFor(key, original, catalogues[j + 1..]) + rest)
      else AddedFor(key, original, catalogues[j + 1..]) + rest
  {
  }

  lemma AddedToNone(key: string, original: string, catalogues: seq<Catalogue>, rest: seq<string>)
    ensures AddedFor(key, original, catalogues[|catalogues|..]) + rest == rest
  {
  }

  lemma AddedIs(line: string, catalogues: seq<Catalogue>)
    ensures var (key, value) := Partition(line);
      Added(line, catalogues) ==
        if value.None? || key !in DESKTOP_KEYS then [] else AddedFor(key, UnescapeValue(value.value), catalogues)
  {
  }

  // ---------------------------------------------------------- what is added

  // A locale name as `translate` accepts it, as far as lines are concerned.
  predicate IsLocale(locale: string) {
    '=' !in locale && '\n' !in locale && '\r' !in locale
  }

  // The key of one of the catalogues' languages.
  ghost predicate IsLocalised(line: string, catalogues: seq<Catalogue>) {
    exists key, i :: key in DESKTOP_KEYS && 0 <= i < |catalogues| && Partition(line).0 == LocalKey(key, catalogues[i].locale)
      && Partition(line).1.Some?
  }

  lemma {:induction false} PartitionAt(key: string, value: string)
    requires '=' !in key
    ensures Partition(key + "=" + value) == (key, Some(value))
  {
    var line := key + "=" + value;
    if key == "" {
      assert line[1..] == value;
    } else {
      assert line[1..] == key[1..] + "=" + value;
      assert key[0] in key && forall c :: c in key[1..] ==> c in key;
      PartitionAt(key[1..], value);
      assert key == [key[0]] + key[1..];
    }
  }

  ghost predicate Locales(catalogues: seq<Catalogue>) {
    forall i :: 0 <= i < |catalogues| ==> IsLocale(catalogues[i].locale)
  }

  // One added line: a localised key on one line, whose value decodes to a
  // translation of the original in that language.
  ghost predicate IsTranslation(line: string, key: string, original: string, catalogue: Catalogue) {
    && Partition(line).0 == LocalKey(key, catalogue.locale)
    && Partition(line).1.Some?
    && HasTranslation(catalogue, original)
    && UnescapeValue(Partition(line).1.value) == catalogue.messages[original]
    && '\n' !in line && '\r' !in line
  }

  lemma DesktopKeysArePlain(key: string)
    requires key in DESKTOP_KEYS
    ensures '=' !in key && '\n' !in key && '\r' !in key
  {
  }

  lemma AddedLineTranslates(key: string, original: string, catalogue: Catalogue)
    requires key in DESKTOP_KEYS && IsLocale(catalogue.locale) && HasTranslation(catalogue, original)
    ensures IsTranslation(LocalKey(key, catalogue.locale) + "=" + EscapeValue(catalogue.messages[original]), key, original, catalogue)
  {
    hide EscapeValue, UnescapeValue, Partition;
    var translation := catalogue.messages[original];
    DesktopKeysArePlain(key);
    PartitionAt(LocalKey(key, catalogue.locale), EscapeValue(translation));
    EscapedValueReadsBack(translation);
    FourPassesAreOne(translation);
    EscapedOnOneLine(translation);
  }

  // Every added line is such a line, of the language it is for.
  lemma {:induction false} AddedLinesTranslate(key: string, original: string, catalogues: seq<Catalogue>, n: nat)
    requires key in DESKTOP_KEYS && Locales(catalogues) && n < |AddedFor(key, original, catalogues)|
    ensures exists i :: 0 <= i < |catalogues| && IsTranslation(AddedFor(key, original, catalogues)[n], key, original, catalogues[i])
    decreases |catalogues|
  {
    hide EscapeValue, IsTranslation, HasTranslation, IsLocale;
    var first := if HasTranslation(catalogues[0], original) then 1 else 0;
    if n < first {
      AddedLineTranslates(key, original, catalogues[0]);
    } else {
      AddedLinesTranslate(key, original, catalogues[1..], n - first);
      var rest := AddedFor(key, original, catalogues[1..]);
      assert AddedFor(key, original, catalogues)[n] == rest[n - first];
      var i :| 0 <= i < |catalogues[1..]| && IsTranslation(rest[n - first], key, original, catalogues[1..][i]);
      assert catalogues[1..][i] == catalogues[i + 1];
    }
  }

  ghost predicate IsAddedBy(added: string, key: string, original: string, catalogue: Catalogue, translation: string) {
    && original in catalogue.messages && catalogue.messages[original] == translation
    && translation != "" && '\0' !in translation
    && added == key + "[" + catalogue.locale + "]=" + EscapeValue(translation)
  }

  // What a line has added to it: for the four keys, one line for each language
  // that has a translation of its value; for other keys, or without "=", nothing.
  lemma {:induction false} WhatIsAdded(key: string, value: string, catalogues: seq<Catalogue>, added: string)
    requires '=' !in key
    ensures added in Added(key + "=" + value, catalogues) <==>
      && (key == "Name" || key == "GenericName" || key == "Comment" || key == "Keywords")
      && exists i, translation ::
           0 <= i < |catalogues| && IsAddedBy(added, key, UnescapeValue(value), catalogues[i], translation)
    ensures Added(key, catalogues) == []
  {
    hide Partition, IsAddedBy, UnescapeValue, AddedFor, Added;
    PartitionAt(key, value);
    NoPartition(key);
    AddedIs(key, catalogues);
    AddedIs(key + "=" + value, catalogues);
    assert key in DESKTOP_KEYS <==> key == "Name" || key == "GenericName" || key == "Comment" || key == "Keywords";
    AddedForIs(key, UnescapeValue(value), catalogues, added);
  }

  lemma {:induction false} NoPartition(line: string)
    requires '=' !in line
    ensures Partition(line) == (line, None)
  {
    if line != "" {
      assert line[0] in line && forall c :: c in line[1..] ==> c in line;
      NoPartition(line[1..]);
      assert line == [line[0]] + line[1..];
    }
  }

  lemma {:induction false} AddedForIs(key: string, original: string, catalogues: seq<Catalogue>, added: string)
    ensures added in AddedFor(key, original, catalogues) <==>
      exists i, translation :: 0 <= i < |catalogues| && IsAddedBy(added, key, original, catalogues[i], translation)
    decreases |catalogues|
  {
    hide EscapeValue;
    if catalogues != [] {
      var first, rest := catalogues[0], catalogues[1..];
      AddedForIs(key, original, rest, added);
      FirstAdded(key, original, first, added);
      hide IsAddedBy, HasTranslation;
      if i, translation :| 0 <= i < |rest| && IsAddedBy(added, key, original, rest[i], translation) {
        assert catalogues[i + 1] == rest[i];
      }
      if i, translation :| 0 <= i < |catalogues| && IsAddedBy(added, key, original, catalogues[i], translation) {
        assert i > 0 ==> catalogues[i] == rest[i - 1];
      }
    }
  }

  lemma FirstAdded(key: string, original: string, catalogue: Catalogue, added: string)
    ensures (exists translation :: IsAddedBy(added, key, original, catalogue, translation)) <==>
      HasTranslation(catalogue, original) && added == LocalKey(key, catalogue.locale) + "=" + EscapeValue(catalogue.messages[original])
  {
    hide EscapeValue;
    forall rest: string ensures LocalKey(key, catalogue.locale) + "=" + rest == key + "[" + catalogue.locale + "]=" + rest {
    }
    if HasTranslation(catalogue, original) && added == LocalKey(key, catalogue.locale) + "=" + EscapeValue(catalogue.messages[original]) {
      assert IsAddedBy(added, key, original, catalogue, catalogue.messages[original]);
    }
  }

  lemma AddedLinesAreLocalised(line: string, catalogues: seq<Catalogue>, n: nat)
    requires Locales(catalogues) && n < |Added(line, catalogues)|
    ensures IsLocalised(Added(line, catalogues)[n], catalogues)
    ensures '\n' !in Added(line, catalogues)[n] && '\r' !in Added(line, catalogues)[n]
  {
    hide Partition, AddedFor, UnescapeValue, HasTranslation;
    var (key, value) := Partition(line);
    AddedLinesTranslate(key, UnescapeValue(value.value), catalogues, n);
  }

  // Every language that has the message gets its line.
  lemma {:induction false} EveryTranslationIsAdded(key: string, original: string, catalogues: seq<Catalogue>, i: nat)
    requires i < |catalogues| && HasTranslation(catalogues[i], original)
    ensures LocalKey(key, catalogues[i].locale) + "=" + EscapeValue(catalogues[i].messages[original])
         in AddedFor(key, original, catalogues)
    decreases |catalogues|
  {
    hide EscapeValue, HasTranslation;
    if i > 0 {
      EveryTranslationIsAdded(key, original, catalogues[1..], i - 1);
    }
  }

  // ------------------------------------------------------------ main results

  // The lines that are not of a catalogue's language.
  ghost function Unlocalised(lines: seq<string>, catalogues: seq<Catalogue>): seq<string> {
    if lines == [] then []
    else (if IsLocalised(lines[0], catalogues) then [] else [lines[0]]) + Unlocalised(lines[1..], catalogues)
  }

  lemma {:induction false} UnlocalisedConcat(a: seq<string>, b: seq<string>, catalogues: seq<Catalogue>)
    ensures Unlocalised(a + b, catalogues) == Unlocalised(a, catalogues) + Unlocalised(b, catalogues)
  {
    hide IsLocalised;
    if a == [] {
      assert a + b == b;
    } else {
      assert (a + b)[1..] == a[1..] + b;
      UnlocalisedConcat(a[1..], b, catalogues);
    }
  }

  lemma {:induction false} AllLocalised(lines: seq<string>, catalogues: seq<Catalogue>)
    requires forall i :: 0 <= i < |lines| ==> IsLocalised(lines[i], catalogues)
    ensures Unlocalised(lines, catalogues) == []
  {
    hide IsLocalised;
    if lines != [] {
      AllLocalised(lines[1..], catalogues);
    }
  }

  // Deleting the catalogues' lines from the translated entry leaves what
  // deleting them from the original leaves: an entry that had none is restored.
  lemma {:induction false} DeletingRestores(lines: seq<string>, catalogues: seq<Catalogue>)
    requires Locales(catalogues)
    ensures Unlocalised(Translated(lines, catalogues), catalogues) == Unlocalised(lines, catalogues)
  {
    hide IsLocalised, Added, Locales;
    if lines != [] {
      DeletingRestores(lines[1..], catalogues);
      var added := Added(lines[0], catalogues);
      forall i | 0 <= i < |added| ensures IsLocalised(added[i], catalogues) {
        AddedLinesAreLocalised(lines[0], catalogues, i);
      }
      AllLocalised(added, catalogues);
      var rest := Translated(lines[1..], catalogues);
      assert [lines[0]] + added + rest == [lines[0]] + (added + rest);
      UnlocalisedConcat(added, rest, catalogues);
      assert ([lines[0]] + (added + rest))[1..] == added + rest;
    }
  }

  lemma {:induction false} NothingLocalised(lines: seq<string>, catalogues: seq<Catalogue>)
    requires forall i :: 0 <= i < |lines| ==> !IsLocalised(lines[i], catalogues)
    ensures Unlocalised(lines, catalogues) == lines
  {
    hide IsLocalised;
    if lines != [] {
      NothingLocalised(lines[1..], catalogues);
      assert lines == [lines[0]] + lines[1..];
    }
  }

  lemma {:induction false} TranslatedLinesEnd(lines: seq<string>, catalogues: seq<Catalogue>)
    requires Locales(catalogues) && forall i :: 0 <= i < |lines| ==> '\n' !in lines[i]
    ensures forall i :: 0 <= i < |Translated(lines, catalogues)| ==> '\n' !in Translated(lines, catalogues)[i]
  {
    hide Added, Locales;
    if lines != [] {
      TranslatedLinesEnd(lines[1..], catalogues);
      var added := Added(lines[0], catalogues);
      forall i | 0 <= i < |added| ensures '\n' !in added[i] {
        AddedLinesAreLocalised(lines[0], catalogues, i);
      }
    }
  }

  lemma {:induction false} GivenLinesEnd(text: string)
    ensures forall i :: 0 <= i < |SplitLines(text)| ==> '\n' !in SplitLines(text)[i]
    decreases |text|
  {
    if text != "" {
      var n := ToBoundary(text);
      assert forall c :: c in text[..n] ==> !IsBoundary(c);
      NewlineEnds();
      hide IsBoundary, ToBoundary;
      if n < |text| {
        if text[n] == '\r' && n + 1 < |text| && text[n + 1] == '\n' {
          GivenLinesEnd(text[n + 2..]);
        } else {
          GivenLinesEnd(text[n + 1..]);
        }
      } else {
        assert text[..n] == text;
      }
    }
  }

  lemma NewlineEnds()
    ensures IsBoundary('\n')
  {
  }

  // The translated text, read by its lines, is the translated lines; so an
  // entry without lines of these languages is restored by deleting them.
  lemma TranslatedTextRestores(text: string, catalogues: seq<Catalogue>)
    requires Locales(catalogues) && SplitLines(text) != []
    requires forall i :: 0 <= i < |SplitLines(text)| ==> !IsLocalised(SplitLines(text)[i], catalogues)
    ensures var lines := Split(Join(Translated(SplitLines(text), catalogues), "\n") + "\n", '\n');
      && |lines| > 0 && lines[|lines| - 1] == ""
      && Unlocalised(lines[..|lines| - 1], catalogues) == SplitLines(text)
  {
    hide SplitLines, Locales, IsLocalised, Unlocalised;
    var given := SplitLines(text);
    var lines := Translated(given, catalogues);
    GivenLinesEnd(text);
    TranslatedLinesEnd(given, catalogues);
    assert lines != [];
    hide Translated;
    SplitOfJoin(lines, '\n');
    SplitOfConcat(Join(lines, "\n"), '\n', "");
    assert Join(lines, "\n") + ['\n'] + "" == Join(lines, "\n") + "\n";
    assert (lines + [""])[..|lines|] == lines;
    DeletingRestores(given, catalogues);
    NothingLocalised(given, catalogues);
  }
}
