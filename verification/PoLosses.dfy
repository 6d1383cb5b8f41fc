// What becomes of printed messages when quoting leaves line ends in them: no
// text that is read holds such a line end, so none comes back; and of fields
// lost altogether, what the rest reads as. (native/tools/i18n.py)

module PoLosses {
  import opened Text
  import opened Lines
  import opened PoText
  import opened PoTemplate

  // ------------------------------------------- no such line end is ever read

  predicate QuotablePair(pair: Pair) {
    Quotable(pair.0) && Quotable(pair.1)
  }

  predicate QuotableFields(fields: Fields) {
    forall field :: field in fields ==> Quotable(field.1)
  }

  predicate QuotableState(s: State) {
    QuotableFields(s.fields) && forall pair :: pair in s.entries ==> QuotablePair(pair)
  }

  lemma QuotableConcat(a: string, b: string)
    ensures Quotable(a + b) <==> Quotable(a) && Quotable(b)
  {
    hide IsBoundary;
    assert forall c :: c in a ==> c in a + b;
    assert forall c :: c in b ==> c in a + b;
  }

  lemma {:induction false} UnescapeQuotable(text: string)
    requires Quotable(text)
    ensures Quotable(Unescape(text))
    decreases |text|
  {
    if text != "" {
      if text[0] == '\\' && |text| > 1 {
        UnescapeQuotable(text[2..]);
      } else {
        UnescapeQuotable(text[1..]);
      }
    }
  }

  lemma UnquoteQuotable(quoted: string)
    requires Quotable(quoted)
    ensures Quotable(Unquote(quoted))
  {
    hide Unescape, IsBoundary;
    if |quoted| >= 2 {
      UnescapeQuotable(quoted[1..|quoted| - 1]);
    }
  }

  lemma StripQuotable(text: string)
    requires Quotable(text)
    ensures Quotable(Strip(text))
  {
    hide StripLeft, StripRight, IsSpace, IsBoundary;
    StripLeftIs(text);
    StripRightIs(StripLeft(text));
  }

  lemma KeywordQuotable(line: string)
    requires Quotable(line) && KeywordOf(line).Some?
    ensures Quotable(KeywordOf(line).value.1)
  {
    hide StripLeft, IsSpace, IsBoundary, KeywordLength;
    StripLeftIs(line[KeywordLength(line)..]);
  }

  lemma {:induction false} PutQuotable(fields: Fields, key: string, value: string)
    requires QuotableFields(fields) && Quotable(value)
    ensures QuotableFields(Put(fields, key, value))
  {
    hide Quotable;
    if fields != [] && fields[0].0 != key {
      PutQuotable(fields[1..], key, value);
    }
  }

  lemma {:induction false} FindQuotable(fields: Fields, key: string)
    requires QuotableFields(fields) && Find(fields, key).Some?
    ensures Quotable(Find(fields, key).value)
  {
    hide Quotable;
    if fields[0].0 == key {
      assert fields[0] in fields;
    } else {
      FindQuotable(fields[1..], key);
    }
  }

  lemma {:induction false} SortQuotable(fields: Fields)
    requires QuotableFields(fields)
    ensures QuotableFields(SortFields(fields))
  {
    hide Quotable, InsertField;
    if fields != [] {
      SortQuotable(fields[1..]);
      InsertQuotable(fields[0], SortFields(fields[1..]));
    }
  }

  lemma {:induction false} InsertQuotable(field: (string, string), sorted: Fields)
    requires Quotable(field.1) && QuotableFields(sorted)
    ensures QuotableFields(InsertField(field, sorted))
  {
    hide Quotable, FormIndex;
    if sorted != [] && FormIndex(field.0) > FormIndex(sorted[0].0) {
      InsertQuotable(field, sorted[1..]);
    }
  }

  lemma {:induction false} FormsQuotable(fields: Fields)
    requires QuotableFields(fields)
    ensures forall text :: text in FormsOf(fields) ==> Quotable(text)
  {
    hide Quotable, IsForm;
    if fields != [] {
      FormsQuotable(fields[1..]);
    }
  }

  lemma Separators()
    ensures Quotable("\0") && Quotable("\U{04}") && Quotable("")
  {
  }

  lemma {:induction false} JoinQuotable(texts: seq<string>)
    ensures Quotable(Join(texts, "\0")) <==> forall text :: text in texts ==> Quotable(text)
  {
    hide Quotable;
    Separators();
    if |texts| > 1 {
      JoinQuotable(texts[1..]);
      QuotableConcat(texts[0], "\0");
      QuotableConcat(texts[0] + "\0", Join(texts[1..], "\0"));
      assert forall text :: text in texts <==> text == texts[0] || text in texts[1..];
    }
  }

  lemma OriginalQuotable(context: Option<string>, id: string, plural: Option<string>)
    ensures Quotable(OriginalOf(context, id, plural)) <==>
      && (context.Some? ==> Quotable(context.value)) && Quotable(id) && (plural.Some? ==> Quotable(plural.value))
  {
    hide Quotable;
    Separators();
    var front := if context.Some? then context.value + "\U{04}" else "";
    var back := if plural.Some? then "\0" + plural.value else "";
    if context.Some? {
      QuotableConcat(context.value, "\U{04}");
    }
    if plural.Some? {
      QuotableConcat("\0", plural.value);
    }
    QuotableConcat(front, id);
    QuotableConcat(front + id, back);
  }

  lemma FinishQuotable(s: State)
    requires QuotableState(s)
    ensures QuotableState(Finish(s))
  {
    hide Quotable, SortFields, FormsOf, Find;
    var id, forms := Find(s.fields, "msgid"), FormsOf(SortFields(s.fields));
    if id.Some? {
      var context, plural := Find(s.fields, "msgctxt"), Find(s.fields, "msgid_plural");
      FindQuotable(s.fields, "msgid");
      if context.Some? {
        FindQuotable(s.fields, "msgctxt");
      }
      if plural.Some? {
        FindQuotable(s.fields, "msgid_plural");
      }
      OriginalQuotable(context, id.value, plural);
      SortQuotable(s.fields);
      FormsQuotable(SortFields(s.fields));
      JoinQuotable(forms);
    }
  }

  lemma LineKeepsQuotable(s: State, raw: string)
    requires QuotableState(s) && OneLine(raw) && ParseLine(s, raw).Some?
    ensures QuotableState(ParseLine(s, raw).value)
  {
    hide Strip, KeywordOf, Unquote, Finish, Put, Find, Translated, MarksFuzzy, Quotable;
    var line := Strip(raw);
    OneLineQuotable(raw);
    StripQuotable(raw);
    FinishQuotable(s);
    if line != "" && line[0] != '#' {
      var done := Finish(s);
      if KeywordOf(line).Some? {
        var (key, quoted) := KeywordOf(line).value;
        KeywordQuotable(line);
        UnquoteQuotable(quoted);
        PutQuotable(s.fields, key, Unquote(quoted));
        PutQuotable(done.fields, key, Unquote(quoted));
      } else if line[0] == '"' && s.current.Some? {
        var held := Find(s.fields, s.current.value).value;
        FindQuotable(s.fields, s.current.value);
        UnquoteQuotable(line);
        QuotableConcat(held, Unquote(line));
        PutQuotable(s.fields, s.current.value, held + Unquote(line));
      }
    }
  }

  lemma OneLineQuotable(text: string)
    requires OneLine(text)
    ensures Quotable(text)
  {
    hide IsBoundary;
  }

  lemma {:induction false} LinesKeepQuotable(s: State, lines: seq<string>)
    requires QuotableState(s) && forall i :: 0 <= i < |lines| ==> OneLine(lines[i])
    requires ParseLines(s, lines).Some?
    ensures QuotableState(ParseLines(s, lines).value)
    decreases |lines|
  {
    hide ParseLine, QuotableState, OneLine;
    if lines != [] {
      LineKeepsQuotable(s, lines[0]);
      LinesKeepQuotable(ParseLine(s, lines[0]).value, lines[1..]);
    }
  }

  // Whatever the file: nothing read from it holds such a line end.
  lemma ReadTextsAreQuotable(text: string)
    requires ParseSpec(text).Some?
    ensures forall pair :: pair in ParseSpec(text).value ==> QuotablePair(pair)
  {
    hide SplitLines, ParseLines, Finish, QuotablePair, OneLine;
    SplitLinesAreLines(text);
    LinesKeepQuotable(Start(), SplitLines(text));
    FinishQuotable(ParseLines(Start(), SplitLines(text)).value);
  }

  lemma {:induction false} WholeQuotable(parts: seq<string>)
    ensures Quotable(Whole(parts)) <==> forall i :: 0 <= i < |parts| ==> Quotable(parts[i])
  {
    hide Quotable;
    Separators();
    if parts != [] {
      WholeQuotable(parts[1..]);
      QuotableConcat(parts[0], Whole(parts[1..]));
      assert forall i :: 0 < i < |parts| ==> parts[i] == parts[1..][i - 1];
    }
  }

  lemma {:induction false} TextsHold(forms: seq<Form>, form: Form)
    requires form in forms
    ensures Whole(form.text) in TextsOf(forms)
  {
    hide Whole;
    if form != forms[0] {
      TextsHold(forms[1..], form);
    }
  }

  // A pair holds every text of its message.
  lemma PairHoldsTexts(m: Message)
    requires Expected(m) != [] && QuotablePair(Expected(m)[0])
    ensures AllQuotable(m)
  {
    hide Quotable, Whole, IsFuzzy, SortForms, TextsOf;
    var texts := TextsOf(SortForms(m.forms));
    OriginalQuotable(WholeOf(m.context), Whole(m.id), WholeOf(m.plural));
    if m.context.Some? {
      WholeQuotable(m.context.value);
    }
    WholeQuotable(m.id);
    if m.plural.Some? {
      WholeQuotable(m.plural.value);
    }
    JoinQuotable(texts);
    SortFormsSorts(m.forms);
    forall i | 0 <= i < |m.forms| ensures QuotableParts(m.forms[i].text) {
      assert m.forms[i] in multiset(SortForms(m.forms));
      TextsHold(SortForms(m.forms), m.forms[i]);
      WholeQuotable(m.forms[i].text);
    }
  }

  lemma {:induction false} PairsHold(messages: seq<Message>, i: nat)
    requires i < |messages| && Expected(messages[i]) != []
    ensures Expected(messages[i])[0] in ExpectedAll(messages)
  {
    hide Expected;
    if i > 0 {
      PairsHold(messages[1..], i - 1);
    }
  }

  // No text at all parses to the pairs of messages of which one has a pair and
  // such a line end in it.
  lemma {:induction false} NoTextGivesUnquotable(messages: seq<Message>, i: nat, text: string)
    requires i < |messages| && Expected(messages[i]) != [] && !AllQuotable(messages[i])
    ensures ParseSpec(text) != Some(ExpectedAll(messages))
  {
    hide ParseSpec, Expected, ExpectedAll, AllQuotable;
    if ParseSpec(text) == Some(ExpectedAll(messages)) {
      ReadTextsAreQuotable(text);
      PairsHold(messages, i);
      PairHoldsTexts(messages[i]);
      assert false;
    }
  }

  // Translated messages read back if and only if quoting leaves no line end in
  // their texts.
  lemma {:induction false} ReadsBackExactlyWhenQuotable(messages: seq<Message>)
    requires forall i :: 0 <= i < |messages| ==> WellFormed(messages[i]) && Expected(messages[i]) != []
    ensures ParseSpec(FileText(messages)) == Some(ExpectedAll(messages))
      <==> forall i :: 0 <= i < |messages| ==> AllQuotable(messages[i])
  {
    hide ParseSpec, FileText, WellFormed, AllQuotable, Expected, ExpectedAll;
    if forall i :: 0 <= i < |messages| ==> AllQuotable(messages[i]) {
      PrintedMessagesReadBack(messages);
    } else {
      var i :| 0 <= i < |messages| && !AllQuotable(messages[i]);
      NoTextGivesUnquotable(messages, i, FileText(messages));
    }
  }

  // ---------------------------------------------------------- fields lost whole

  // Each line of the rest of a quoted text is one the parser passes over.
  predicate PassedOver(text: string)
    decreases |text|
  {
    var n := ToRawEnd(text);
    && !IsBlank(text[..n]) && !StartsAsComment(text[..n])
    && (n < |text| ==> PassedOver(text[n + 1..]))
  }

  // A field with this text is not read, and no line of it does anything.
  predicate IsLost(text: string) {
    var n := ToRawEnd(text);
    n < |text| && !EndsInQuote(text[..n]) && PassedOver(text[n + 1..])
  }

  lemma PassedLine(s: State, text: string, closed: bool)
    requires !IsBlank(text) && !StartsAsComment(text)
    ensures ParseLine(s, Continued(text, closed)) == Some(s)
  {
    hide Strip, KeywordOf, Continued, IsBlank, StartsAsComment, Translated, PairOf, Find, Put;
    ContinuedLine(text, closed);
  }

  lemma {:induction false} PassedPieces(s: State, text: string)
    requires PassedOver(text)
    ensures ParseLines(s, Pieces("", text)) == Some(s)
    decreases |text|
  {
    hide ParseLine, IsBlank, StartsAsComment, Escape;
    var n := ToRawEnd(text);
    if n == |text| {
      assert text[..n] == text;
      PassedLine(s, text, true);
      assert "" + Escape(text) + "\"" == Continued(text, true);
      assert Pieces("", text)[0] == Continued(text, true) && Pieces("", text)[1..] == [];
    } else {
      PassedLine(s, text[..n], false);
      PassedPieces(s, text[n + 1..]);
      assert "" + Escape(text[..n]) == Continued(text[..n], false);
      assert Pieces("", text)[0] == Continued(text[..n], false) && Pieces("", text)[1..] == Pieces("", text[n + 1..]);
    }
  }

  lemma {:induction false} LostPieces(s: State, key: string, text: string)
    requires IsKey(key) && IsLost(text)
    ensures ParseLines(s, Pieces(key + " \"", text)) == Some(s)
  {
    hide ParseLine, Escape, EndsInQuote, PassedOver, IsKey;
    var n := ToRawEnd(text);
    LostFirstPiece(s, key, text[..n]);
    PassedPieces(s, text[n + 1..]);
    var pieces := Pieces(key + " \"", text);
    assert pieces[0] == key + " \"" + Escape(text[..n]) && pieces[1..] == Pieces("", text[n + 1..]);
  }

  lemma {:induction false} LostFirstPiece(s: State, key: string, text: string)
    requires IsKey(key) && !EndsInQuote(text)
    ensures ParseLine(s, key + " \"" + Escape(text)) == Some(s)
  {
    hide Strip, KeywordOf, Escape, EndsInQuote, Translated, PairOf, Find, Put, IsKey;
    FirstLineReads(key, text);
  }

  lemma {:induction false} LostFieldReads(s: State, key: string, text: string, tail: string)
    requires IsKey(key) && IsLost(text)
    ensures ParseLines(s, SplitLines(key + " " + PoString(text) + "\n" + tail)) == ParseLines(s, SplitLines(tail))
  {
    hide SplitLines, ParseLines, OneLine, IsKey, IsLost, PoString;
    KeyIsOneLine(key);
    SpaceQuoteIsOneLine();
    BothOneLine(key, " \"");
    FieldLineText(key, text, tail);
    PiecesSplit(key + " \"", text, tail);
    LostPieces(s, key, text);
    ParseConcat(s, Pieces(key + " \"", text), SplitLines(tail));
  }

  // Such a field leaves no trace, wherever it stands: the file parses as if its
  // lines were not there.
  lemma {:induction false} LostFieldLeavesNoTrace(before: seq<string>, key: string, text: string, after: string)
    requires IsKey(key) && IsLost(text) && forall i :: 0 <= i < |before| ==> OneLine(before[i])
    ensures ParseSpec(LinesText(before) + (key + " " + PoString(text) + "\n" + after)) == ParseSpec(LinesText(before) + after)
  {
    hide SplitLines, ParseLines, OneLine, IsKey, IsLost, PoString, LinesText, Finish;
    var line := key + " " + PoString(text) + "\n";
    SplitAfterLines(before, line + after);
    SplitAfterLines(before, after);
    ParseConcat(Start(), before, SplitLines(line + after));
    ParseConcat(Start(), before, SplitLines(after));
    var s := ParseLines(Start(), before);
    if s.Some? {
      LostFieldReads(s.value, key, text, after);
    }
  }

  // ------------------------------------------------- files with lost fields

  predicate LostParts(parts: Parts) {
    |parts| == 1 && IsLost(parts[0])
  }

  predicate QuotableOrLost(parts: Parts) {
    QuotableParts(parts) || LostParts(parts)
  }

  predicate AllQuotableOrLost(m: Message) {
    && (m.context.Some? ==> QuotableOrLost(m.context.value))
    && QuotableOrLost(m.id)
    && (m.plural.Some? ==> QuotableOrLost(m.plural.value))
    && (forall i :: 0 <= i < |m.forms| ==> QuotableOrLost(m.forms[i].text))
  }

  function KeptForms(forms: seq<Form>): seq<Form> {
    if forms == [] then []
    else if LostParts(forms[0].text) then KeptForms(forms[1..])
    else [forms[0]] + KeptForms(forms[1..])
  }

  // What is held of messages that have no form left. Nothing finishes them, so
  // the next message is read on top of it.
  datatype Carried = Carried(context: Option<string>, id: Option<string>, plural: Option<string>, fuzzy: bool)

  const NOTHING := Carried(None, None, None, false)

  function Taken(parts: Option<Parts>, carried: Option<string>): Option<string> {
    if parts.Some? && !LostParts(parts.value) then Some(Whole(parts.value)) else carried
  }

  function Merged(c: Carried, m: Message): Carried {
    Carried(Taken(m.context, c.context), Taken(Some(m.id), c.id), Taken(m.plural, c.plural), c.fuzzy || IsFuzzy(m))
  }

  // What the messages read as.
  function WhatIsRead(c: Carried, messages: seq<Message>): seq<Pair>
    decreases |messages|
  {
    if messages == [] then []
    else
      var all, forms := Merged(c, messages[0]), KeptForms(messages[0].forms);
      if forms == [] then WhatIsRead(all, messages[1..])
      else
        PairFor(all.context, all.id, all.plural, TextsOf(SortForms(forms)), all.fuzzy)
        + WhatIsRead(NOTHING, messages[1..])
  }

  ghost predicate IsField(field: (string, Parts)) {
    IsKey(field.0) && QuotableOrLost(field.1)
  }

  function KeptFields(fields: seq<(string, Parts)>): seq<(string, Parts)> {
    if fields == [] then []
    else if LostParts(fields[0].1) then KeptFields(fields[1..])
    else [fields[0]] + KeptFields(fields[1..])
  }

  lemma {:induction false} KeptConcat(a: seq<(string, Parts)>, b: seq<(string, Parts)>)
    ensures KeptFields(a + b) == KeptFields(a) + KeptFields(b)
  {
    hide LostParts;
    if a == [] {
      assert a + b == b;
    } else {
      assert (a + b)[1..] == a[1..] + b;
      KeptConcat(a[1..], b);
    }
  }

  lemma {:induction false} KeptPrintedForms(m: Message, forms: seq<Form>)
    ensures KeptFields(PrintedForms(m, forms)) == PrintedForms(m, KeptForms(forms))
  {
    hide LostParts, FormKey;
    if forms != [] {
      KeptPrintedForms(m, forms[1..]);
      assert PrintedForms(m, forms)[1..] == PrintedForms(m, forms[1..]);
    }
  }

  lemma {:induction false} FieldsLinesConcat(a: seq<(string, Parts)>, b: seq<(string, Parts)>)
    ensures FieldsLines(a + b) == FieldsLines(a) + FieldsLines(b)
  {
    hide FieldLines;
    if a == [] {
      assert a + b == b;
    } else {
      assert (a + b)[1..] == a[1..] + b;
      FieldsLinesConcat(a[1..], b);
    }
  }

  lemma FieldIsLines(key: string, parts: Parts)
    requires IsKey(key) && QuotableParts(parts)
    ensures forall i :: 0 <= i < |FieldLines(key, parts)| ==> OneLine(FieldLines(key, parts)[i])
  {
    hide IsKey, PoString, OneLine, Quotable;
    KeyIsOneLine(key);
    SpaceQuoteIsOneLine();
    BothOneLine(key, " ");
    QuotedOneLine(parts[0]);
    BothOneLine(key + " ", PoString(parts[0]));
    QuotedLinesAreLines(parts[1..]);
  }

  // The lines of the fields that are not lost are all that does anything.
  lemma {:induction false} OnlyKeptFieldsRead(s: State, fields: seq<(string, Parts)>, tail: string)
    requires forall i :: 0 <= i < |fields| ==> IsField(fields[i])
    ensures ParseLines(s, SplitLines(LinesText(FieldsLines(fields)) + tail))
         == ParseLines(s, FieldsLines(KeptFields(fields)) + SplitLines(tail))
    decreases |fields|
  {
    hide SplitLines, ParseLines, LinesText, FieldLines, IsKey, QuotableParts, LostParts, OneLine;
    if fields == [] {
      NoLinesNoText();
      assert "" + tail == tail && [] + SplitLines(tail) == SplitLines(tail);
    } else {
      var (key, parts) := fields[0];
      var lines, rest := FieldLines(key, parts), LinesText(FieldsLines(fields[1..])) + tail;
      LinesTextConcat(lines, FieldsLines(fields[1..]));
      assert LinesText(FieldsLines(fields)) + tail == LinesText(lines) + rest;
      if LostParts(parts) {
        LostLine(key, parts, rest);
        LostFieldReads(s, key, parts[0], rest) by { LostIsLost(parts); }
        OnlyKeptFieldsRead(s, fields[1..], tail);
      } else {
        FieldIsLines(key, parts);
        SplitAfterLines(lines, rest);
        var kept := FieldsLines(KeptFields(fields[1..])) + SplitLines(tail);
        assert FieldsLines(KeptFields(fields)) + SplitLines(tail) == lines + kept by {
          FieldsLinesConcat([fields[0]], KeptFields(fields[1..]));
          OneField(key, parts);
        }
        ParseConcat(s, lines, SplitLines(rest));
        ParseConcat(s, lines, kept);
        if ParseLines(s, lines).Some? {
          OnlyKeptFieldsRead(ParseLines(s, lines).value, fields[1..], tail);
        }
      }
    }
  }

  lemma NoLinesNoText()
    ensures LinesText([]) == ""
  {
  }

  lemma OneField(key: string, parts: Parts)
    ensures FieldsLines([(key, parts)]) == FieldLines(key, parts)
  {
    assert [(key, parts)][1..] == [];
  }

  lemma LostIsLost(parts: Parts)
    requires LostParts(parts)
    ensures IsLost(parts[0])
  {
  }

  lemma LostLine(key: string, parts: Parts, tail: string)
    requires LostParts(parts)
    ensures LinesText(FieldLines(key, parts)) + tail == key + " " + PoString(parts[0]) + "\n" + tail
  {
    hide PoString, IsLost;
    assert FieldLines(key, parts) == [key + " " + PoString(parts[0])] by { assert parts[1..] == []; }
    assert FieldLines(key, parts)[1..] == [];
    assert key + " " + PoString(parts[0]) + "\n" + "" == key + " " + PoString(parts[0]) + "\n";
  }

  // ------------------------------------------------------------- one message

  ghost predicate Holds(s: State, c: Carried) {
    && !Translated(s.fields) && s.fuzzy == c.fuzzy
    && Find(s.fields, "msgctxt") == c.context
    && Find(s.fields, "msgid") == c.id
    && Find(s.fields, "msgid_plural") == c.plural
  }

  lemma {:induction false} FindOther(fields: Fields, key: string, value: string, other: string)
    requires other != key
    ensures Find(Put(fields, key, value), other) == Find(fields, other)
  {
    if fields != [] && fields[0].0 != key {
      FindOther(fields[1..], key, value, other);
    }
  }

  // One field before the forms: read, it takes the place of what was held.
  lemma HeadReads(s: State, key: string, parts: Option<Parts>) returns (next: State)
    requires IsHead(key) && !Translated(s.fields)
    ensures ParseLines(s, FieldsLines(KeptFields(Optional(key, parts)))) == Some(next)
    ensures !Translated(next.fields) && next.entries == s.entries && next.fuzzy == s.fuzzy
    ensures Find(next.fields, key) == Taken(parts, Find(s.fields, key))
    ensures forall other :: other != key ==> Find(next.fields, other) == Find(s.fields, other)
  {
    hide Translated, Find, Put, Whole, FieldLines, IsKey, IsForm, LostParts, IsHead;
    var fields := Optional(key, parts);
    next := s;
    assert fields != [] ==> fields[1..] == [] && fields == [(key, fields[0].1)];
    if parts.Some? && !LostParts(parts.value) {
      HeadKey(key);
      FieldParses(s, key, parts.value);
      OneField(key, parts.value);
      PutFinds(s.fields, key, Whole(parts.value));
      forall other | other != key ensures Find(Put(s.fields, key, Whole(parts.value)), other) == Find(s.fields, other) {
        FindOther(s.fields, key, Whole(parts.value), other);
      }
      next := s.(fields := Put(s.fields, key, Whole(parts.value)), current := Some(key));
      assert KeptFields(fields) == [(key, parts.value)];
    } else {
      assert KeptFields(fields) == [];
    }
  }

  lemma {:induction false} HeadingReads(s: State, c: Carried, m: Message) returns (next: State)
    requires Holds(s, c)
    ensures ParseLines(s, FieldsLines(KeptFields(Heads(m)))) == Some(next)
    ensures next.entries == s.entries && Holds(next, Merged(c, m).(fuzzy := c.fuzzy))
  {
    hide Translated, Find, KeptFields, FieldsLines, ParseLines, Taken, IsFuzzy;
    var context, plural := Optional("msgctxt", m.context), Optional("msgid_plural", m.plural);
    var id := Optional("msgid", Some(m.id));
    KeptConcat(context + id, plural);
    KeptConcat(context, id);
    FieldsLinesConcat(KeptFields(context) + KeptFields(id), KeptFields(plural));
    FieldsLinesConcat(KeptFields(context), KeptFields(id));
    var afterContext := HeadReads(s, "msgctxt", m.context);
    var afterId := HeadReads(afterContext, "msgid", Some(m.id));
    next := HeadReads(afterId, "msgid_plural", m.plural);
    var a, b, d := FieldsLines(KeptFields(context)), FieldsLines(KeptFields(id)), FieldsLines(KeptFields(plural));
    ParseConcat(s, a + b, d);
    ParseConcat(s, a, b);
  }

  lemma {:induction false} KeptFormsOf(forms: seq<Form>)
    requires forall i, j :: 0 <= i < j < |forms| ==> forms[i].index != forms[j].index
    ensures |KeptForms(forms)| <= |forms|
    ensures forall form :: form in KeptForms(forms) ==> form in forms
    ensures var kept := KeptForms(forms); forall i, j :: 0 <= i < j < |kept| ==> kept[i].index != kept[j].index
  {
    hide LostParts;
    if forms != [] {
      KeptFormsOf(forms[1..]);
      var rest := KeptForms(forms[1..]);
      forall j | 0 <= j < |rest| ensures rest[j].index != forms[0].index {
        assert rest[j] in forms[1..];
      }
    }
  }

  // The forms that are read give the pair.
  lemma {:induction false} FormsRead(s: State, m: Message, forms: seq<Form>) returns (next: State)
    requires !Translated(s.fields) && (m.numbered || |forms| <= 1)
    requires forall i, j :: 0 <= i < j < |forms| ==> forms[i].index != forms[j].index
    ensures ParseLines(s, FieldsLines(PrintedForms(m, forms))) == Some(next)
    ensures next.entries == s.entries && next.fields == s.fields + FormFields(m, forms) && next.fuzzy == s.fuzzy
  {
    hide Translated, Find, IsKey, FormKey, IsForm, FormFields, ParseLines;
    forall i | 0 <= i < |forms| ensures Find(s.fields, FormKey(m, forms[i])).None? {
      FormKeyFacts(m, forms[i]);
      if Find(s.fields, FormKey(m, forms[i])).Some? {
        HeldForm(s.fields, FormKey(m, forms[i]));
      }
    }
    FormsAreOrderly(m, s.fields, forms);
    var current := FieldsParse(s, PrintedForms(m, forms));
    ValuesOfForms(m, forms);
    next := State(s.entries, s.fields + FormFields(m, forms), current, s.fuzzy);
  }

  lemma {:induction false} PrintedKeys(m: Message, forms: seq<Form>)
    requires forall i :: 0 <= i < |forms| ==> QuotableOrLost(forms[i].text)
    ensures forall i :: 0 <= i < |PrintedForms(m, forms)| ==> IsField(PrintedForms(m, forms)[i])
  {
    hide IsKey, FormKey, QuotableOrLost;
    if forms != [] {
      FormKeyFacts(m, forms[0]);
      assert forall i :: 1 <= i < |forms| ==> forms[i] == forms[1..][i - 1];
      PrintedKeys(m, forms[1..]);
    }
  }

  lemma HeadKeys(m: Message)
    requires AllQuotableOrLost(m)
    ensures forall i :: 0 <= i < |Heads(m)| ==> IsField(Heads(m)[i])
  {
    assert IsKey("msgctxt") && IsKey("msgid") && IsKey("msgid_plural");
    hide IsKey, QuotableOrLost;
  }

  lemma MessageKeys(m: Message)
    requires AllQuotableOrLost(m)
    ensures forall i :: 0 <= i < |Printed(m)| ==> IsField(Printed(m)[i])
  {
    hide QuotableOrLost;
    PrintedKeys(m, m.forms);
    HeadKeys(m);
    hide IsKey;
    var fields, heads, forms := Printed(m), Heads(m), PrintedForms(m, m.forms);
    assert fields == heads + forms;
    hide Heads, Printed, PrintedForms;
    forall i | 0 <= i < |fields| ensures IsField(fields[i]) {
      assert fields[i] == if i < |heads| then heads[i] else forms[i - |heads|];
    }
  }

  // After a message: it is held on, or, with a form read, makes its pair.
  ghost predicate Ends(next: State, all: Carried, forms: seq<Form>) {
    if forms == [] then Holds(next, all)
    else
      && Translated(next.fields)
      && PairOf(next.fields, next.fuzzy) == PairFor(all.context, all.id, all.plural, TextsOf(SortForms(forms)), all.fuzzy)
  }

  lemma CommentsRead(s: State, c: Carried, m: Message) returns (next: State)
    requires Holds(s, c) && WellFormed(m)
    ensures ParseLines(s, m.comments) == Some(next)
    ensures next.entries == s.entries && Holds(next, c.(fuzzy := c.fuzzy || IsFuzzy(m)))
    ensures forall i :: 0 <= i < |m.comments| ==> OneLine(m.comments[i])
  {
    hide Translated, Find, MarksFuzzy, Strip, OneLine;
    CommentsParse(s, m.comments);
    assert forall i :: 0 <= i < |m.comments| ==> IsComment(m.comments[i]);
    next := s.(fuzzy := s.fuzzy || IsFuzzy(m));
  }

  // The fields of a message, read on top of what is held.
  lemma {:induction false} KeptFieldsRead(s: State, c: Carried, m: Message) returns (next: State)
    requires Holds(s, c.(fuzzy := c.fuzzy || IsFuzzy(m))) && WellFormed(m)
    ensures ParseLines(s, FieldsLines(KeptFields(Printed(m)))) == Some(next)
    ensures next.entries == s.entries && Ends(next, Merged(c, m), KeptForms(m.forms))
  {
    hide IsComment, ParseLines, FieldsLines, IsFuzzy, Heads, KeptFields, PrintedForms, PairFor, PairOf, Translated, FormFields, Find, Taken;
    var forms, all := KeptForms(m.forms), Merged(c, m);
    var headed := HeadingReads(s, c.(fuzzy := s.fuzzy), m);
    KeptFormsOf(m.forms);
    next := FormsRead(headed, m, forms);
    FieldsGivePair(m, headed.fields, forms, headed.fuzzy);
    KeptPrinted(m);
    ParseConcat(s, FieldsLines(KeptFields(Heads(m))), FieldsLines(PrintedForms(m, forms)));
    if forms == [] {
      assert headed.fields + FormFields(m, forms) == headed.fields by { NoFormFields(m); }
    }
  }

  lemma NoFormFields(m: Message)
    ensures FormFields(m, []) == []
  {
  }

  lemma {:induction false} KeptPrinted(m: Message)
    ensures FieldsLines(KeptFields(Printed(m))) == FieldsLines(KeptFields(Heads(m))) + FieldsLines(PrintedForms(m, KeptForms(m.forms)))
  {
    hide FieldsLines, KeptFields, PrintedForms;
    assert Printed(m) == Heads(m) + PrintedForms(m, m.forms);
    KeptConcat(Heads(m), PrintedForms(m, m.forms));
    KeptPrintedForms(m, m.forms);
    FieldsLinesConcat(KeptFields(Heads(m)), PrintedForms(m, KeptForms(m.forms)));
  }

  lemma {:induction false} MessageReads(s: State, c: Carried, m: Message, tail: string) returns (next: State)
    requires Holds(s, c) && WellFormed(m) && AllQuotableOrLost(m)
    ensures ParseLines(s, SplitLines(LinesText(MessageLines(m)) + tail)) == ParseLines(next, SplitLines(tail))
    ensures next.entries == s.entries && Ends(next, Merged(c, m), KeptForms(m.forms))
  {
    hide SplitLines, ParseLines, LinesText, FieldsLines, Printed, IsFuzzy, KeptFields, WellFormed, Holds, Ends,
      OneLine, AllQuotableOrLost, QuotableOrLost, IsKey, Merged;
    var fields := FieldsLines(Printed(m));
    var noted := CommentsRead(s, c, m);
    next := KeptFieldsRead(noted, c, m);
    MessageKeys(m);
    LinesTextConcat(m.comments, fields);
    assert LinesText(m.comments) + LinesText(fields) + tail == LinesText(m.comments) + (LinesText(fields) + tail);
    SplitAfterLines(m.comments, LinesText(fields) + tail);
    ParseConcat(s, m.comments, SplitLines(LinesText(fields) + tail));
    OnlyKeptFieldsRead(noted, Printed(m), tail);
    ParseConcat(noted, FieldsLines(KeptFields(Printed(m))), SplitLines(tail));
  }

  // ------------------------------------------------------------- whole files

  lemma FormlessGivesNothing(s: State, c: Carried)
    requires Holds(s, c)
    ensures PairOf(s.fields, s.fuzzy) == []
  {
    hide Translated, Find, PairOf;
    var none := Message([], None, [""], None, true, []);
    FieldsGivePair(none, s.fields, [], s.fuzzy);
    assert s.fields + FormFields(none, []) == s.fields;
  }

  // The empty line between messages finishes one that has a form.
  lemma {:induction false} EmptyLineReads(s: State, all: Carried, forms: seq<Form>, tail: string) returns (next: State)
    requires Ends(s, all, forms)
    ensures ParseLines(s, SplitLines("\n" + tail)) == ParseLines(next, SplitLines(tail))
    ensures Holds(next, if forms == [] then all else NOTHING)
    ensures next.entries == s.entries + (if forms == [] then [] else
      PairFor(all.context, all.id, all.plural, TextsOf(SortForms(forms)), all.fuzzy))
  {
    hide SplitLines, PairFor, PairOf, Translated, IsBoundary;
    next := if forms == [] then s else Finish(s);
    NothingTranslated();
    EmptyIsOneLine();
    QuoteAndNewline();
    SplitFirstLine("", '\n', tail);
    assert "\n" + tail == "" + ['\n'] + tail;
    assert ([""] + SplitLines(tail))[1..] == SplitLines(tail);
    assert ParseLine(s, "") == Some(next) by { NoMark(); }
    assert s.entries + [] == s.entries;
  }

  lemma NoMark()
    ensures Strip("") == "" && !MarksFuzzy("")
  {
  }

  lemma {:induction false} FileReads(s: State, c: Carried, messages: seq<Message>) returns (last: State)
    requires forall i :: 0 <= i < |messages| ==> WellFormed(messages[i]) && AllQuotableOrLost(messages[i])
    requires Holds(s, c)
    ensures ParseLines(s, SplitLines(FileText(messages))) == Some(last)
    ensures Finish(last).entries == s.entries + WhatIsRead(c, messages)
    decreases |messages|
  {
    hide SplitLines, FileText, ParseLine, LinesText, Holds, Ends, Merged, KeptForms, PairFor, PairOf, WellFormed, AllQuotableOrLost;
    if messages == [] {
      last := s;
      NoText();
      FormlessGivesNothing(s, c);
    } else {
      var m, rest := messages[0], messages[1..];
      var all, forms := Merged(c, m), KeptForms(m.forms);
      FileTextFirst(messages);
      if |messages| == 1 {
        last := MessageReads(s, c, m, "");
        NoText();
        LastMessage(last, all, forms);
        assert WhatIsRead(all, rest) == [] && WhatIsRead(NOTHING, rest) == [];
      } else {
        var held := MessageReads(s, c, m, "\n" + FileText(rest));
        var next := EmptyLineReads(held, all, forms, FileText(rest));
        last := FileReads(next, if forms == [] then all else NOTHING, rest);
      }
    }
  }

  lemma NoText()
    ensures FileText([]) == "" && SplitLines("") == []
  {
  }

  lemma LastMessage(last: State, all: Carried, forms: seq<Form>)
    requires Ends(last, all, forms)
    ensures Finish(last).entries == last.entries + if forms == [] then [] else
      PairFor(all.context, all.id, all.plural, TextsOf(SortForms(forms)), all.fuzzy)
  {
    hide PairFor, PairOf, Holds;
    if forms == [] {
      FormlessGivesNothing(last, all);
    }
  }

  // A file in which each text is quotable or lost: its messages are merged
  // with those after them that find no form before them.
  lemma {:induction false} FileWithLossesReads(messages: seq<Message>)
    requires forall i :: 0 <= i < |messages| ==> WellFormed(messages[i]) && AllQuotableOrLost(messages[i])
    ensures ParseSpec(FileText(messages)) == Some(WhatIsRead(NOTHING, messages))
  {
    hide SplitLines, FileText, ParseLines, Finish, WellFormed, AllQuotableOrLost, WhatIsRead;
    NothingTranslated();
    var last := FileReads(Start(), NOTHING, messages);
    assert [] + WhatIsRead(NOTHING, messages) == WhatIsRead(NOTHING, messages);
  }

  // ------------------------------------------------------------ consequences

  lemma {:induction false} KeepsQuotable(forms: seq<Form>)
    requires forall i :: 0 <= i < |forms| ==> QuotableParts(forms[i].text)
    ensures KeptForms(forms) == forms
  {
    hide QuotableParts, LostParts;
    if forms != [] {
      QuotableIsNotLost(forms[0].text);
      KeepsQuotable(forms[1..]);
    }
  }

  lemma QuotableIsNotLost(parts: Parts)
    requires QuotableParts(parts)
    ensures !LostParts(parts)
  {
    hide PassedOver, EndsInQuote;
    assert |parts| == 1 ==> ToRawEnd(parts[0]) == |parts[0]|;
  }

  // The texts before the forms are quotable.
  predicate Headed(m: Message) {
    && (m.context.Some? ==> QuotableParts(m.context.value))
    && QuotableParts(m.id)
    && (m.plural.Some? ==> QuotableParts(m.plural.value))
  }

  lemma HeadedMerges(c: Carried, m: Message)
    requires Headed(m)
    ensures Merged(c, m) == Carried(
      if m.context.Some? then WholeOf(m.context) else c.context, Some(Whole(m.id)),
      if m.plural.Some? then WholeOf(m.plural) else c.plural, c.fuzzy || IsFuzzy(m))
  {
    hide QuotableParts, LostParts, IsFuzzy, Whole;
    QuotableIsNotLost(m.id);
    if m.context.Some? {
      QuotableIsNotLost(m.context.value);
    }
    if m.plural.Some? {
      QuotableIsNotLost(m.plural.value);
    }
  }

  function WithoutLost(messages: seq<Message>): seq<Message> {
    if messages == [] then []
    else [Keeping(messages[0])] + WithoutLost(messages[1..])
  }

  function Keeping(m: Message): Message {
    m.(forms := KeptForms(m.forms))
  }

  lemma KeepingReads(m: Message)
    requires WellFormed(m) && Headed(m) && KeptForms(m.forms) != []
    ensures WhatIsRead(NOTHING, [m]) == Expected(Keeping(m))
  {
    hide KeptForms, PairFor, MarksFuzzy, Strip, Whole;
    HeadedMerges(NOTHING, m);
    assert IsFuzzy(Keeping(m)) == IsFuzzy(m);
    hide IsFuzzy;
    assert [m][1..] == [];
    var all, texts := Merged(NOTHING, m), TextsOf(SortForms(KeptForms(m.forms)));
    assert PairFor(all.context, all.id, all.plural, texts, all.fuzzy) == Expected(Keeping(m));
    assert Expected(Keeping(m)) + [] == Expected(Keeping(m));
  }

  lemma {:induction false} KeptMessagesRead(messages: seq<Message>)
    requires forall i :: 0 <= i < |messages| ==> WellFormed(messages[i]) && Headed(messages[i]) && KeptForms(messages[i].forms) != []
    ensures WhatIsRead(NOTHING, messages) == ExpectedAll(WithoutLost(messages))
  {
    hide WellFormed, Headed, KeptForms, PairFor, Merged, Keeping, Expected;
    if messages != [] {
      KeepingReads(messages[0]);
      KeptMessagesRead(messages[1..]);
      assert [messages[0]][1..] == [] && WhatIsRead(NOTHING, []) == [];
      assert WhatIsRead(NOTHING, messages) == WhatIsRead(NOTHING, [messages[0]]) + WhatIsRead(NOTHING, messages[1..]);
    }
  }

  // Forms that are lost drop out of their pairs, as long as each message keeps
  // one, and nothing else changes.
  lemma {:induction false} LostFormsAreDropped(messages: seq<Message>)
    requires forall i :: 0 <= i < |messages| ==>
      WellFormed(messages[i]) && AllQuotableOrLost(messages[i]) && Headed(messages[i]) && KeptForms(messages[i].forms) != []
    ensures ParseSpec(FileText(messages)) == Some(ExpectedAll(WithoutLost(messages)))
  {
    hide ParseSpec, FileText, WhatIsRead, WellFormed, AllQuotableOrLost, Headed, KeptForms;
    FileWithLossesReads(messages);
    KeptMessagesRead(messages);
  }

  // The message as it is read after one that has lost all its forms.
  function After(lost: Message, next: Message): Message {
    next.(
      comments := lost.comments + next.comments,
      context := if next.context.Some? then next.context else lost.context,
      plural := if next.plural.Some? then next.plural else lost.plural)
  }

  lemma FuzzyAfter(lost: Message, next: Message)
    ensures IsFuzzy(After(lost, next)) <==> IsFuzzy(lost) || IsFuzzy(next)
  {
    hide MarksFuzzy, Strip;
    var a, b := lost.comments, next.comments;
    if i :| 0 <= i < |a| && MarksFuzzy(Strip(a[i])) {
      assert (a + b)[i] == a[i];
    }
    if i :| 0 <= i < |b| && MarksFuzzy(Strip(b[i])) {
      assert (a + b)[|a| + i] == b[i];
    }
  }

  ghost predicate LosesItsForms(m: Message) {
    WellFormed(m) && AllQuotableOrLost(m) && Headed(m) && KeptForms(m.forms) == []
  }

  lemma PrintableReads(m: Message)
    requires Printable(m)
    ensures WellFormed(m) && AllQuotableOrLost(m) && Headed(m) && KeptForms(m.forms) == m.forms && m.forms != []
  {
    hide Quotable, LostParts;
    KeepsQuotable(m.forms);
  }

  lemma {:induction false} PrintableAllRead(messages: seq<Message>)
    requires forall i :: 0 <= i < |messages| ==> Printable(messages[i])
    ensures WhatIsRead(NOTHING, messages) == ExpectedAll(messages)
  {
    hide Printable, KeptForms, PairFor, IsFuzzy, WellFormed, AllQuotableOrLost, Headed;
    if messages != [] {
      PrintableReads(messages[0]);
      HeadedMerges(NOTHING, messages[0]);
      PrintableAllRead(messages[1..]);
    }
  }

  // A message whose forms are all lost gives no pair, but its context, its
  // plural id and its fuzzy mark stay for the message after it.
  lemma {:induction false} LostMessageRunsOn(lost: Message, next: Message, rest: seq<Message>)
    requires LosesItsForms(lost) && Printable(next) && forall i :: 0 <= i < |rest| ==> Printable(rest[i])
    ensures ParseSpec(FileText([lost, next] + rest)) == Some(Expected(After(lost, next)) + ExpectedAll(rest))
  {
    hide ParseSpec, FileText, Printable, WellFormed, AllQuotableOrLost, Headed, KeptForms, PairFor, IsFuzzy, Whole;
    var messages := [lost, next] + rest;
    forall i | 0 <= i < |messages| ensures WellFormed(messages[i]) && AllQuotableOrLost(messages[i]) {
      PrintableReads(if i > 1 then rest[i - 2] else next);
      assert i > 1 ==> messages[i] == rest[i - 2];
    }
    FileWithLossesReads(messages);
    PrintableReads(next);
    PrintableAllRead(rest);
    var held := Merged(NOTHING, lost);
    HeadedMerges(NOTHING, lost);
    HeadedMerges(held, next);
    FuzzyAfter(lost, next);
    assert messages[1..] == [next] + rest && ([next] + rest)[1..] == rest;
    assert WhatIsRead(NOTHING, messages) == WhatIsRead(held, [next] + rest);
  }

  // Without a message after it, nothing is read of it.
  lemma {:induction false} LastMessageLost(messages: seq<Message>, lost: Message)
    requires LosesItsForms(lost) && forall i :: 0 <= i < |messages| ==> Printable(messages[i])
    ensures ParseSpec(FileText(messages + [lost])) == Some(ExpectedAll(messages))
  {
    hide ParseSpec, FileText, Printable, WellFormed, AllQuotableOrLost, Headed, KeptForms, PairFor, WhatIsRead;
    var all := messages + [lost];
    forall i | 0 <= i < |all| ensures WellFormed(all[i]) && AllQuotableOrLost(all[i]) {
      if i < |messages| {
        PrintableReads(messages[i]);
      }
    }
    FileWithLossesReads(all);
    LastReadsNothing(messages, lost);
  }

  lemma {:induction false} LastReadsNothing(messages: seq<Message>, lost: Message)
    requires KeptForms(lost.forms) == [] && forall i :: 0 <= i < |messages| ==> Printable(messages[i])
    ensures WhatIsRead(NOTHING, messages + [lost]) == ExpectedAll(messages)
  {
    hide Printable, KeptForms, PairFor, IsFuzzy, WellFormed, AllQuotableOrLost, Headed;
    var all := messages + [lost];
    if messages == [] {
      assert all == [lost] && all[1..] == [];
      assert WhatIsRead(NOTHING, all) == WhatIsRead(Merged(NOTHING, lost), []);
    } else {
      PrintableReads(messages[0]);
      HeadedMerges(NOTHING, messages[0]);
      assert all[1..] == messages[1..] + [lost];
      LastReadsNothing(messages[1..], lost);
    }
  }

  // ---------------------------------------------------------------- examples

  function Simple(id: string, text: string): Message {
    Message([], None, [id], None, false, [Form(0, [text])])
  }

  lemma OneForm(m: Message, text: string)
    requires m.forms == [Form(0, [text])]
    ensures KeptForms(m.forms) == if IsLost(text) then [] else m.forms
    ensures TextsOf(SortForms(m.forms)) == [text]
  {
    hide IsLost;
    assert m.forms[1..] == [] && [text][1..] == [] && Whole([text]) == text + "" == text;
  }

  lemma OneWhole(text: string)
    ensures Whole([text]) == text
  {
    assert [text][1..] == [];
  }

  // An ordinary message read after one whose forms are lost.
  lemma {:induction false} SimpleAfterLost(lost: Message, id: string, text: string)
    requires LosesItsForms(lost) && Quotable(id) && Quotable(text)
    ensures ParseSpec(FileText([lost, Simple(id, text)]))
         == Some(PairFor(WholeOf(lost.context), Some(id), WholeOf(lost.plural), [text], IsFuzzy(lost)))
  {
    var next := Simple(id, text);
    OneForm(next, text);
    OneWhole(id);
    FuzzyAfter(lost, next);
    hide Quotable, ParseSpec, FileText, LosesItsForms, MarksFuzzy, Strip, IsLost, Whole, PairFor, SortForms, TextsOf;
    assert !IsFuzzy(next);
    hide IsFuzzy;
    LostMessageRunsOn(lost, next, []);
    var all := Expected(After(lost, next));
    assert [lost, next] + [] == [lost, next] && all + [] == all;
  }

  // With the only translation lost, the next message gets the context or the
  // plural id of this one, or is left out because this one is fuzzy.
  lemma {:induction false} NextReadsWrong(context: string, id: string, plural: string, lost: string, nextId: string, text: string)
    requires IsLost(lost) && nextId != "" && text != ""
    requires forall t :: t in [context, id, plural, nextId, text] ==> Quotable(t)
    ensures var first, next := Simple(id, lost), Simple(nextId, text);
      && ParseSpec(FileText([first.(context := Some([context])), next])) == Some([(context + "\U{04}" + nextId, text)])
      && ParseSpec(FileText([first.(plural := Some([plural]), numbered := true), next])) == Some([(nextId + "\0" + plural, text)])
      && ParseSpec(FileText([first.(comments := ["#, fuzzy"]), next])) == Some([])
  {
    hide Quotable, ParseSpec, FileText, LosesItsForms, MarksFuzzy, Strip, IsLost, Whole, IsComment;
    var first := Simple(id, lost);
    var inContext, numbered := first.(context := Some([context])), first.(plural := Some([plural]), numbered := true);
    var fuzzy := first.(comments := ["#, fuzzy"]);
    FuzzyComment();
    OneWhole(context);
    OneWhole(plural);
    SimpleLoses(inContext, lost);
    SimpleLoses(numbered, lost);
    SimpleLoses(fuzzy, lost);
    assert !IsFuzzy(inContext) && !IsFuzzy(numbered);
    assert IsFuzzy(fuzzy) by { assert MarksFuzzy(Strip(fuzzy.comments[0])); }
    SimpleAfterLost(inContext, nextId, text);
    SimpleAfterLost(numbered, nextId, text);
    SimpleAfterLost(fuzzy, nextId, text);
    hide IsFuzzy;
    assert Join([text], "\0") == text;
    assert OriginalOf(Some(context), nextId, None) == context + "\U{04}" + nextId;
    assert OriginalOf(None, nextId, Some(plural)) == nextId + "\0" + plural by {
      assert "" + nextId + ("\0" + plural) == nextId + "\0" + plural;
    }
  }

  lemma SimpleLoses(m: Message, lost: string)
    requires IsLost(lost) && m.forms == [Form(0, [lost])] && Headed(m)
    requires forall i :: 0 <= i < |m.comments| ==> IsComment(m.comments[i])
    ensures LosesItsForms(m)
  {
    hide IsLost, QuotableParts, IsComment;
    OneForm(m, lost);
  }

  lemma FuzzyComment()
    ensures IsComment("#, fuzzy") && MarksFuzzy(Strip("#, fuzzy"))
  {
    var line := "#, fuzzy";
    StripOfTight(line);
    assert line[3..] == "fuzzy" && line[..2] == "#,";
  }

  // With the next message's id lost too, its translation goes to this id.
  lemma {:induction false} TranslationOfAnother(id: string, lost: string, lostId: string, text: string)
    requires IsLost(lost) && IsLost(lostId) && Quotable(id) && Quotable(text) && text != ""
    ensures ParseSpec(FileText([Simple(id, lost), Simple(lostId, text)])) == Some([(id, text)])
  {
    hide Quotable, ParseSpec, FileText, IsLost, WhatIsRead;
    var messages := [Simple(id, lost), Simple(lostId, text)];
    SimpleIs(id, lost);
    SimpleIs(lostId, text);
    QuotableNotLost(id);
    QuotableNotLost(text);
    FileWithLossesReads(messages);
    TwoSimple(id, lost, lostId, text);
  }

  lemma QuotableNotLost(text: string)
    requires Quotable(text)
    ensures !IsLost(text)
  {
    QuotableIsNotLost([text]);
  }

  lemma SimpleIs(id: string, text: string)
    ensures WellFormed(Simple(id, text))
    ensures (Quotable(id) || IsLost(id)) && (Quotable(text) || IsLost(text)) ==> AllQuotableOrLost(Simple(id, text))
    ensures !IsFuzzy(Simple(id, text))
    ensures LostParts([id]) == IsLost(id)
  {
    hide Quotable, IsLost;
  }

  lemma {:induction false} TwoSimple(id: string, lost: string, lostId: string, text: string)
    requires IsLost(lost) && IsLost(lostId) && !IsLost(id) && !IsLost(text) && text != ""
    ensures WhatIsRead(NOTHING, [Simple(id, lost), Simple(lostId, text)]) == [(id, text)]
  {
    hide IsLost, IsFuzzy, KeptForms, SortForms, TextsOf, Whole, LostParts;
    var first, next := Simple(id, lost), Simple(lostId, text);
    OneForm(first, lost);
    OneForm(next, text);
    OneWhole(id);
    SimpleIs(id, lost);
    SimpleIs(lostId, text);
    var messages := [first, next];
    assert messages[1..] == [next] && [next][1..] == [];
    var held, all := Merged(NOTHING, first), Merged(Merged(NOTHING, first), next);
    assert all == Carried(None, Some(id), None, false);
    assert WhatIsRead(NOTHING, messages) == WhatIsRead(held, [next]) == PairFor(None, Some(id), None, [text], false);
    assert "" + id + "" == id && Join([text], "\0") == text;
  }

  lemma TextAroundVerticalTabIsLost()
    ensures IsLost("x\U{0B}y")
  {
    var text := "x\U{0B}y";
    assert !IsRawEnd('x') && IsRawEnd('\U{0B}') && !IsRawEnd('y') && !IsRawSpace('y') && !IsRawSpace('x');
    assert ToRawEnd(text) == 1 by { assert text[1..][0] == '\U{0B}'; }
    assert text[2..] == "y" && text[..1] == "x";
    assert ToRawEnd("y") == 1 by { assert ToRawEnd("y"[1..]) == 0; }
    assert "y"[..1] == "y" && !IsBlank("y") by { assert !IsRawSpace("y"[0]); }
  }
}
