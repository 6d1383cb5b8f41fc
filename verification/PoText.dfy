// Translators' message files: the line-by-line parser, the quoting they are
// printed with, and how it is read back. (native/tools/i18n.py)

module PoText {
  import opened Text
  import opened Lines

  // ------------------------------------------------------------- white space

  // White space, as `strip` and `\s` understand it.
  predicate IsSpace(c: char) {
    || c in ['\t', '\n', '\U{0B}', '\U{0C}', '\r', '\U{1C}', '\U{1D}', '\U{1E}', '\U{1F}', ' ', '\U{85}', '\U{A0}', '\U{1680}']
    || '\U{2000}' <= c <= '\U{200A}'
    || c in ['\U{2028}', '\U{2029}', '\U{202F}', '\U{205F}', '\U{3000}']
  }

  function StripLeft(text: string): string {
    if text != "" && IsSpace(text[0]) then StripLeft(text[1..]) else text
  }

  function StripRight(text: string): string {
    if text != "" && IsSpace(text[|text| - 1]) then StripRight(text[..|text| - 1]) else text
  }

  function Strip(text: string): string {
    StripRight(StripLeft(text))
  }

  // ----------------------------------------------------------------- quoting

  function EscapeChar(c: char): string {
    if c == '\\' then "\\\\"
    else if c == '"' then "\\\""
    else if c == '\n' then "\\n"
    else if c == '\t' then "\\t"
    else if c == '\r' then "\\r"
    else [c]
  }

  function Escape(text: string): string {
    if text == "" then "" else EscapeChar(text[0]) + Escape(text[1..])
  }

  // `po_string`: the text as a quoted PO string.
  function PoString(text: string): string {
    "\"" + Escape(text) + "\""
  }

  function UnescapeChar(c: char): char {
    if c == 'n' then '\n' else if c == 't' then '\t' else if c == 'r' then '\r' else c
  }

  function Unescape(text: string): string {
    if text == "" then ""
    else if text[0] == '\\' && |text| > 1 then [UnescapeChar(text[1])] + Unescape(text[2..])
    else [text[0]] + Unescape(text[1..])
  }

  // `unquote_po`: whatever the first and last characters are, they go.
  function Unquote(quoted: string): string {
    if |quoted| < 2 then "" else Unescape(quoted[1..|quoted| - 1])
  }

  // ---------------------------------------------------------------- keywords

  predicate IsDigit(c: char) {
    '0' <= c <= '9'
  }

  // How many digits `text` starts with.
  function DigitsAt(text: string): (n: nat)
    ensures n <= |text|
    ensures forall i :: 0 <= i < n ==> IsDigit(text[i])
    ensures n < |text| ==> !IsDigit(text[n])
  {
    if text == "" || !IsDigit(text[0]) then 0 else 1 + DigitsAt(text[1..])
  }

  // The length of "[digits]" at the start of `text`, or 0.
  function BracketLength(text: string): (n: nat)
    ensures n <= |text|
  {
    if text == "" || text[0] != '[' then 0
    else
      var digits := DigitsAt(text[1..]);
      if digits > 0 && 1 + digits < |text| && text[1 + digits] == ']' then digits + 2 else 0
  }

  // The length of the keyword `line` starts with, or 0.
  function KeywordLength(line: string): (n: nat)
    ensures n <= |line|
  {
    if "msgctxt" <= line then 7
    else if "msgid_plural" <= line then 12
    else if "msgid" <= line then 5
    else if "msgstr" <= line then 6 + BracketLength(line[6..])
    else 0
  }

  // The keyword and the quoted string of a keyword line.
  function KeywordOf(line: string): Option<(string, string)> {
    var n := KeywordLength(line);
    var quoted := StripLeft(line[n..]);
    if n > 0 && |quoted| < |line| - n && |quoted| >= 2 && quoted[0] == '"' && quoted[|quoted| - 1] == '"'
    then Some((line[..n], quoted))
    else None
  }

  function Number(digits: string): nat {
    if digits == "" || !IsDigit(digits[|digits| - 1]) then 0
    else Number(digits[..|digits| - 1]) * 10 + (digits[|digits| - 1] - '0') as nat
  }

  // The plural form a keyword names: 0 without "[digits]".
  function FormIndex(keyword: string): nat {
    if keyword == "" then 0
    else if BracketLength(keyword) > 0 then Number(keyword[1..BracketLength(keyword) - 1])
    else FormIndex(keyword[1..])
  }

  predicate IsForm(keyword: string) {
    "msgstr" <= keyword
  }

  // ------------------------------------------------------------------ parser

  // The fields of one message, in the order they were first met.
  type Fields = seq<(string, string)>

  function Find(fields: Fields, key: string): Option<string> {
    if fields == [] then None
    else if fields[0].0 == key then Some(fields[0].1)
    else Find(fields[1..], key)
  }

  function Put(fields: Fields, key: string, value: string): Fields {
    if fields == [] then [(key, value)]
    else if fields[0].0 == key then [(key, value)] + fields[1..]
    else [fields[0]] + Put(fields[1..], key, value)
  }

  predicate Translated(fields: Fields) {
    exists i | 0 <= i < |fields| :: IsForm(fields[i].0)
  }

  // `sorted(fields, key=form_index)`, which is stable.
  function InsertField(field: (string, string), sorted: Fields): Fields {
    if sorted == [] || FormIndex(field.0) <= FormIndex(sorted[0].0) then [field] + sorted
    else [sorted[0]] + InsertField(field, sorted[1..])
  }

  function SortFields(fields: Fields): Fields {
    if fields == [] then [] else InsertField(fields[0], SortFields(fields[1..]))
  }

  // The values of the msgstr fields among `fields`.
  function FormsOf(fields: Fields): seq<string> {
    if fields == [] then []
    else if IsForm(fields[0].0) then [fields[0].1] + FormsOf(fields[1..])
    else FormsOf(fields[1..])
  }

  // An (original, translation) pair as a .mo file stores them.
  type Pair = (string, string)

  function OriginalOf(context: Option<string>, id: string, plural: Option<string>): string {
    (if context.Some? then context.value + "\U{04}" else "") + id + (if plural.Some? then "\0" + plural.value else "")
  }

  function PairOf(fields: Fields, fuzzy: bool): seq<Pair> {
    var id := Find(fields, "msgid");
    var forms := FormsOf(SortFields(fields));
    if id.Some? && forms != [] && "" !in forms && (id.value == "" || !fuzzy)
    then [(OriginalOf(Find(fields, "msgctxt"), id.value, Find(fields, "msgid_plural")), Join(forms, "\0"))]
    else []
  }

  datatype State = State(entries: seq<Pair>, fields: Fields, current: Option<string>, fuzzy: bool)

  function Finish(s: State): State {
    State(s.entries + PairOf(s.fields, s.fuzzy), [], s.current, false)
  }

  predicate MarksFuzzy(line: string) {
    "#," <= line && Contains(line, "fuzzy")
  }

  // One line; None when it continues a field that is not there (a KeyError).
  function ParseLine(s: State, raw: string): Option<State> {
    var line := Strip(raw);
    if line == "" || line[0] == '#' then
      var done := if Translated(s.fields) then Finish(s) else s;
      Some(done.(fuzzy := done.fuzzy || MarksFuzzy(line)))
    else
      match KeywordOf(line)
      case Some((key, quoted)) =>
        var done := if (key == "msgctxt" || key == "msgid") && Translated(s.fields) then Finish(s) else s;
        Some(done.(fields := Put(done.fields, key, Unquote(quoted)), current := Some(key)))
      case None =>
        if line[0] == '"' && s.current.Some? then
          match Find(s.fields, s.current.value)
          case None => None
          case Some(value) => Some(s.(fields := Put(s.fields, s.current.value, value + Unquote(line))))
        else Some(s)
  }

  function ParseLines(s: State, lines: seq<string>): Option<State>
    decreases |lines|
  {
    if lines == [] then Some(s)
    else
      match ParseLine(s, lines[0])
      case None => None
      case Some(next) => ParseLines(next, lines[1..])
  }

  function Start(): State {
    State([], [], None, false)
  }

  function ParseSpec(text: string): Option<seq<Pair>> {
    match ParseLines(Start(), SplitLines(text))
    case None => None
    case Some(s) => Some(Finish(s).entries)
  }

  // The translated messages of a .po file; None when the file makes the parser
  // raise.
  method ParsePo(text: string) returns (result: Option<seq<Pair>>)
    ensures result == ParseSpec(text)
  {
    var lines := SplitLines(text);
    var entries: seq<Pair>, fields: Fields, current: Option<string>, fuzzy := [], [], None, false;
    hide Strip, KeywordOf, Unquote, PairOf, Translated, MarksFuzzy, Find, Put, SplitLines;
    for i := 0 to |lines|
      invariant ParseLines(Start(), lines) == ParseLines(State(entries, fields, current, fuzzy), lines[i..])
    {
      assert lines[i..][0] == lines[i] && lines[i..][1..] == lines[i + 1..];
      var line := Strip(lines[i]);
      if line == "" || line[0] == '#' {
        if Translated(fields) {
          entries := entries + PairOf(fields, fuzzy);
          fields, fuzzy := [], false;
        }
        fuzzy := fuzzy || MarksFuzzy(line);
        continue;
      }
      var keyword := KeywordOf(line);
      if keyword.Some? {
        current := Some(keyword.value.0);
        if (current.value == "msgctxt" || current.value == "msgid") && Translated(fields) {
          entries := entries + PairOf(fields, fuzzy);
          fields, fuzzy := [], false;
        }
        fields := Put(fields, current.value, Unquote(keyword.value.1));
      } else if line[0] == '"' && current.Some? {
        var value := Find(fields, current.value);
        if value.None? {
          return None;
        }
        fields := Put(fields, current.value, value.value + Unquote(line));
      }
    }
    result := Some(entries + PairOf(fields, fuzzy));
  }

  // ------------------------------------------------------- a translator's file

  // A text on one or more quoted lines, to be read as one.
  type Parts = parts: seq<string> | parts != [] witness [""]

  // A plural form, or the only form.
  datatype Form = Form(index: nat, text: Parts)

  datatype Message = Message(
    comments: seq<string>,
    context: Option<Parts>,
    id: Parts,
    plural: Option<Parts>,
    numbered: bool,
    forms: seq<Form>)

  function Whole(parts: seq<string>): string {
    if parts == [] then "" else parts[0] + Whole(parts[1..])
  }

  function Digits(n: nat): (digits: string)
    ensures digits != ""
  {
    if n < 10 then ['0' + n as char] else Digits(n / 10) + ['0' + (n % 10) as char]
  }

  function FormKey(m: Message, form: Form): string {
    if m.numbered then "msgstr[" + Digits(form.index) + "]" else "msgstr"
  }

  // The printed fields of a message, in order.
  function Printed(m: Message): seq<(string, Parts)> {
    (if m.context.Some? then [("msgctxt", m.context.value)] else [])
    + [("msgid", m.id)]
    + (if m.plural.Some? then [("msgid_plural", m.plural.value)] else [])
    + PrintedForms(m, m.forms)
  }

  function PrintedForms(m: Message, forms: seq<Form>): seq<(string, Parts)> {
    if forms == [] then [] else [(FormKey(m, forms[0]), forms[0].text)] + PrintedForms(m, forms[1..])
  }

  function QuotedLines(parts: seq<string>): seq<string> {
    if parts == [] then [] else [PoString(parts[0])] + QuotedLines(parts[1..])
  }

  function FieldLines(key: string, parts: Parts): seq<string> {
    [key + " " + PoString(parts[0])] + QuotedLines(parts[1..])
  }

  function FieldsLines(fields: seq<(string, Parts)>): seq<string> {
    if fields == [] then [] else FieldLines(fields[0].0, fields[0].1) + FieldsLines(fields[1..])
  }

  // No line end that quoting leaves as it is.
  predicate Quotable(text: string) {
    forall c :: c in text ==> !IsBoundary(c) || c == '\n' || c == '\r'
  }

  predicate QuotableParts(parts: Parts) {
    forall i :: 0 <= i < |parts| ==> Quotable(parts[i])
  }

  predicate IsComment(line: string) {
    line != "" && line[0] == '#' && OneLine(line)
  }

  // Comments are comments, and no two forms have one index.
  ghost predicate WellFormed(m: Message) {
    && (forall i :: 0 <= i < |m.comments| ==> IsComment(m.comments[i]))
    && m.forms != []
    && (!m.numbered ==> |m.forms| == 1)
    && (forall i, j :: 0 <= i < j < |m.forms| ==> m.forms[i].index != m.forms[j].index)
  }

  predicate AllQuotable(m: Message) {
    && (m.context.Some? ==> QuotableParts(m.context.value))
    && QuotableParts(m.id)
    && (m.plural.Some? ==> QuotableParts(m.plural.value))
    && (forall i :: 0 <= i < |m.forms| ==> QuotableParts(m.forms[i].text))
  }

  ghost predicate Printable(m: Message) {
    WellFormed(m) && AllQuotable(m)
  }

  function MessageLines(m: Message): seq<string> {
    m.comments + FieldsLines(Printed(m))
  }

  lemma PrintedParts(m: Message)
    requires AllQuotable(m)
    ensures forall i :: 0 <= i < |Printed(m)| ==> QuotableParts(Printed(m)[i].1)
  {
    PrintedFormsParts(m, m.forms);
  }

  lemma {:induction false} PrintedFormsParts(m: Message, forms: seq<Form>)
    requires forall i :: 0 <= i < |forms| ==> QuotableParts(forms[i].text)
    ensures forall i :: 0 <= i < |PrintedForms(m, forms)| ==> QuotableParts(PrintedForms(m, forms)[i].1)
  {
    if forms != [] {
      PrintedFormsParts(m, forms[1..]);
    }
  }

  // The messages, with an empty line between them.
  function FileLines(messages: seq<Message>): seq<string> {
    if messages == [] then []
    else if |messages| == 1 then MessageLines(messages[0])
    else MessageLines(messages[0]) + [""] + FileLines(messages[1..])
  }

  function FileText(messages: seq<Message>): string {
    LinesText(FileLines(messages))
  }

  // ------------------------------------------------ what parsing it must give

  predicate IsFuzzy(m: Message) {
    exists i | 0 <= i < |m.comments| :: MarksFuzzy(Strip(m.comments[i]))
  }

  // The forms in numeric order.
  function InsertForm(form: Form, sorted: seq<Form>): seq<Form> {
    if sorted == [] || form.index <= sorted[0].index then [form] + sorted
    else [sorted[0]] + InsertForm(form, sorted[1..])
  }

  function SortForms(forms: seq<Form>): seq<Form> {
    if forms == [] then [] else InsertForm(forms[0], SortForms(forms[1..]))
  }

  function TextsOf(forms: seq<Form>): seq<string> {
    if forms == [] then [] else [Whole(forms[0].text)] + TextsOf(forms[1..])
  }

  function WholeOf(parts: Option<Parts>): Option<string> {
    if parts.Some? then Some(Whole(parts.value)) else None
  }

  // None for a fuzzy or untranslated message, except that a fuzzy header is kept.
  function PairFor(context: Option<string>, id: Option<string>, plural: Option<string>, texts: seq<string>, fuzzy: bool): seq<Pair> {
    if id.Some? && texts != [] && "" !in texts && (id.value == "" || !fuzzy)
    then [(OriginalOf(context, id.value, plural), Join(texts, "\0"))]
    else []
  }

  // The pair of a message.
  function Expected(m: Message): seq<Pair> {
    PairFor(WholeOf(m.context), Some(Whole(m.id)), WholeOf(m.plural), TextsOf(SortForms(m.forms)), IsFuzzy(m))
  }

  function ExpectedAll(messages: seq<Message>): seq<Pair> {
    if messages == [] then [] else Expected(messages[0]) + ExpectedAll(messages[1..])
  }

  lemma {:induction false} InsertFormKeeps(form: Form, sorted: seq<Form>)
    ensures multiset(InsertForm(form, sorted)) == multiset{form} + multiset(sorted)
  {
    if sorted != [] && form.index > sorted[0].index {
      InsertFormKeeps(form, sorted[1..]);
      assert sorted == [sorted[0]] + sorted[1..];
    }
  }

  lemma {:induction false} InsertFormSorts(form: Form, sorted: seq<Form>)
    requires forall i, j :: 0 <= i < j < |sorted| ==> sorted[i].index <= sorted[j].index
    ensures var result := InsertForm(form, sorted);
      forall i, j :: 0 <= i < j < |result| ==> result[i].index <= result[j].index
  {
    if sorted != [] && form.index > sorted[0].index {
      var rest := InsertForm(form, sorted[1..]);
      InsertFormSorts(form, sorted[1..]);
      forall j | 0 <= j < |rest| ensures sorted[0].index <= rest[j].index {
        InsertFormKeeps(form, sorted[1..]);
        assert rest[j] in multiset(rest);
        assert rest[j] == form || rest[j] in sorted[1..];
      }
      ConsSorts(sorted[0], rest);
    }
  }

  lemma ConsSorts(first: Form, rest: seq<Form>)
    requires forall i, j :: 0 <= i < j < |rest| ==> rest[i].index <= rest[j].index
    requires forall j :: 0 <= j < |rest| ==> first.index <= rest[j].index
    ensures var result := [first] + rest; forall i, j :: 0 <= i < j < |result| ==> result[i].index <= result[j].index
  {
  }

  // Numeric order, and nothing lost.
  lemma {:induction false} SortFormsSorts(forms: seq<Form>)
    ensures var result := SortForms(forms);
      && (forall i, j :: 0 <= i < j < |result| ==> result[i].index <= result[j].index)
      && multiset(result) == multiset(forms)
  {
    if forms != [] {
      SortFormsSorts(forms[1..]);
      InsertFormKeeps(forms[0], SortForms(forms[1..]));
      InsertFormSorts(forms[0], SortForms(forms[1..]));
      assert forms == [forms[0]] + forms[1..];
    }
  }

  // --------------------------------------------------------- quoting reads back

  lemma {:induction false} UnescapeEscape(text: string)
    ensures Unescape(Escape(text)) == text
  {
    if text != "" {
      UnescapeEscape(text[1..]);
      UnescapeFirst(text[0], Escape(text[1..]));
      hide EscapeChar, Unescape;
      assert text == [text[0]] + text[1..];
    }
  }

  lemma UnescapeFirst(c: char, rest: string)
    ensures Unescape(EscapeChar(c) + rest) == [c] + Unescape(rest)
  {
    var first := EscapeChar(c);
    assert (first + rest)[|first|..] == rest;
  }

  lemma QuotingReadsBack(text: string)
    ensures Unquote(PoString(text)) == text
  {
    UnescapeEscape(text);
    var quoted := PoString(text);
    assert quoted[1..|quoted| - 1] == Escape(text);
  }

  lemma {:induction false} EscapedOneLine(text: string)
    requires Quotable(text)
    ensures OneLine(Escape(text))
  {
    hide IsBoundary, EscapeChar;
    if text != "" {
      assert text[0] in text && forall c :: c in text[1..] ==> c in text;
      EscapedOneLine(text[1..]);
      EscapedCharOneLine(text[0]);
    }
  }

  lemma EscapedCharOneLine(c: char)
    requires !IsBoundary(c) || c == '\n' || c == '\r'
    ensures OneLine(EscapeChar(c))
  {
  }

  lemma QuotedOneLine(text: string)
    requires Quotable(text)
    ensures OneLine(PoString(text))
  {
    EscapedOneLine(text);
  }

  // ------------------------------------------------------- keywords read back

  ghost predicate IsKey(key: string) {
    key == "msgctxt" || key == "msgid" || key == "msgid_plural" || key == "msgstr" || exists n: nat :: key == NumberedKey(n)
  }

  function NumberedKey(n: nat): string {
    "msgstr[" + Digits(n) + "]"
  }

  lemma {:induction false} DigitsAreDigits(n: nat)
    ensures forall i :: 0 <= i < |Digits(n)| ==> IsDigit(Digits(n)[i])
    ensures Number(Digits(n)) == n
  {
    if n >= 10 {
      DigitsAreDigits(n / 10);
      var digits := Digits(n);
      assert digits[..|digits| - 1] == Digits(n / 10);
    }
  }

  lemma {:induction false} DigitsAtOf(digits: string, tail: string)
    requires forall i :: 0 <= i < |digits| ==> IsDigit(digits[i])
    requires tail == "" || !IsDigit(tail[0])
    ensures DigitsAt(digits + tail) == |digits|
  {
    if digits == "" {
      assert digits + tail == tail;
    } else {
      assert (digits + tail)[1..] == digits[1..] + tail;
      DigitsAtOf(digits[1..], tail);
    }
  }

  lemma BracketOf(n: nat, tail: string)
    ensures BracketLength("[" + Digits(n) + "]" + tail) == |Digits(n)| + 2
  {
    hide Digits;
    var text := "[" + Digits(n) + "]" + tail;
    DigitsAreDigits(n);
    assert text[1..] == Digits(n) + ("]" + tail);
    DigitsAtOf(Digits(n), "]" + tail);
    assert text[1 + |Digits(n)|] == ']';
  }

  lemma KeywordAtStart(key: string, tail: string)
    requires IsKey(key) && tail != "" && tail[0] == ' '
    ensures KeywordLength(key + tail) == |key|
  {
    hide Digits;
    var line := key + tail;
    if n: nat :| key == NumberedKey(n) {
      assert line == "msgstr" + ("[" + Digits(n) + "]" + tail);
      BracketOf(n, tail);
      assert line[6..] == "[" + Digits(n) + "]" + tail;
      assert line[..6] == "msgstr";
      NotMsgid(line);
    } else if key == "msgstr" {
      assert line[6..] == tail && line[..6] == "msgstr";
      NotMsgid(line);
    } else if key == "msgid" {
      assert line[5] == ' ' && line[..5] == "msgid" && line[3] == 'i';
    } else if key == "msgid_plural" {
      assert line[..12] == "msgid_plural" && line[3] == 'i';
    } else {
      assert line[..7] == "msgctxt";
    }
  }

  lemma NotMsgid(line: string)
    requires "msgstr" <= line
    ensures !("msgctxt" <= line) && !("msgid_plural" <= line) && !("msgid" <= line)
  {
    assert line[3] == 's';
  }

  lemma {:induction false} FormIndexOf(n: nat)
    ensures FormIndex(NumberedKey(n)) == n
  {
    hide Digits;
    var bracket := "[" + Digits(n) + "]";
    BracketOf(n, "");
    assert bracket + "" == bracket;
    DigitsAreDigits(n);
    assert bracket[1..|bracket| - 1] == Digits(n);
    assert FormIndex(bracket) == n;
    hide FormIndex;
    SkipLetters("msgstr", bracket);
    assert NumberedKey(n) == "msgstr" + bracket;
  }

  lemma {:induction false} SkipLetters(word: string, rest: string)
    requires '[' !in word
    ensures FormIndex(word + rest) == FormIndex(rest)
  {
    if word == "" {
      assert word + rest == rest;
    } else {
      assert word[0] in word && forall c :: c in word[1..] ==> c in word;
      assert (word + rest)[1..] == word[1..] + rest;
      SkipLetters(word[1..], rest);
    }
  }

  lemma PlainKeysHaveIndexZero()
    ensures FormIndex("msgstr") == 0
  {
  }

  // ------------------------------------------------------- one line at a time

  lemma StripOfTight(line: string)
    requires line != "" && !IsSpace(line[0]) && !IsSpace(line[|line| - 1])
    ensures Strip(line) == line
  {
  }

  lemma {:induction false} StripRightKeepsFirst(text: string)
    requires text != "" && !IsSpace(text[0])
    ensures StripRight(text) != "" && StripRight(text)[0] == text[0]
  {
    if IsSpace(text[|text| - 1]) {
      StripRightKeepsFirst(text[..|text| - 1]);
    }
  }

  lemma FieldLineReads(key: string, text: string)
    requires IsKey(key)
    ensures var line := key + " " + PoString(text);
      Strip(line) == line && line[0] == 'm' && KeywordOf(line) == Some((key, PoString(text)))
  {
    hide Escape, KeywordLength, IsSpace;
    var quoted := PoString(text);
    var line := key + " " + quoted;
    KeyStartsWithM(key);
    SpacesAre();
    assert line[|line| - 1] == '"' && line[0] == 'm';
    StripOfTight(line);
    assert line == key + (" " + quoted);
    KeywordAtStart(key, " " + quoted);
    assert line[|key|..] == " " + quoted;
    assert StripLeft(" " + quoted) == StripLeft(quoted) == quoted by {
      assert (" " + quoted)[1..] == quoted;
    }
    assert line[..|key|] == key;
  }

  lemma KeyStartsWithM(key: string)
    requires IsKey(key)
    ensures key != "" && key[0] == 'm'
  {
  }

  lemma SpacesAre()
    ensures IsSpace(' ') && !IsSpace('"') && !IsSpace('m') && !IsSpace('#')
  {
  }

  lemma QuotedLineReads(text: string)
    ensures var line := PoString(text);
      Strip(line) == line && line != "" && line[0] == '"' && KeywordOf(line).None?
  {
    hide Escape, IsSpace;
    SpacesAre();
    var line := PoString(text);
    assert line[|line| - 1] == '"';
    StripOfTight(line);
  }

  // ---------------------------------------------------- what the lines mean

  predicate AllSpace(text: string) {
    forall i | 0 <= i < |text| :: IsSpace(text[i])
  }

  lemma {:induction false} StripLeftIs(text: string)
    ensures var rest := StripLeft(text);
      && |rest| <= |text| && rest == text[|text| - |rest|..] && AllSpace(text[..|text| - |rest|])
      && (rest != "" ==> !IsSpace(rest[0]))
  {
    hide IsSpace;
    if text != "" && IsSpace(text[0]) {
      StripLeftIs(text[1..]);
      var rest := StripLeft(text);
      var n := |text| - |rest|;
      forall i | 0 <= i < n ensures IsSpace(text[..n][i]) {
        assert i > 0 ==> text[i] == text[1..][..n - 1][i - 1];
      }
    }
  }

  lemma {:induction false} StripRightIs(text: string)
    ensures var rest := StripRight(text);
      && |rest| <= |text| && rest == text[..|rest|] && AllSpace(text[|rest|..])
      && (rest != "" ==> !IsSpace(rest[|rest| - 1]))
  {
    hide IsSpace;
    if text != "" && IsSpace(text[|text| - 1]) {
      StripRightIs(text[..|text| - 1]);
      var rest := StripRight(text);
      forall i | |rest| <= i < |text| ensures IsSpace(text[i]) {
        assert i < |text| - 1 ==> text[i] == text[..|text| - 1][|rest|..][i - |rest|];
      }
    }
  }

  ghost predicate IsCore(text: string, before: string, core: string, after: string) {
    && text == before + core + after && AllSpace(before) && AllSpace(after)
    && (core != "" ==> !IsSpace(core[0]) && !IsSpace(core[|core| - 1]))
  }

  // What is left of a text is what it has between white space.
  lemma {:induction false} StripIs(text: string, core: string)
    ensures Strip(text) == core <==> exists before, after :: IsCore(text, before, core, after)
  {
    hide IsSpace, StripLeft, StripRight;
    var left := StripLeft(text);
    StripLeftIs(text);
    StripRightIs(left);
    var first, mine, last := text[..|text| - |left|], Strip(text), left[|Strip(text)|..];
    assert IsCore(text, first, mine, last) by {
      assert text == first + left && left == mine + last;
      assert mine != "" ==> mine[0] == left[0];
    }
    if before, after :| IsCore(text, before, core, after) {
      OneCore(text, before, core, after, first, mine, last);
    }
  }

  lemma OneCore(text: string, b: string, core: string, a: string, b': string, core': string, a': string)
    requires IsCore(text, b, core, a) && IsCore(text, b', core', a')
    ensures core == core'
  {
    hide IsSpace;
    NoCoreIfSpace(text, b, core, a);
    NoCoreIfSpace(text, b', core', a');
    if core != "" && core' != "" {
      SameFront(text, b, core, a, b', core', a');
      SameFront(text, b', core', a', b, core, a);
      SameBack(text, b, core, a, b', core', a');
      SameBack(text, b', core', a', b, core, a);
      assert core == text[|b|..|text| - |a|] && core' == text[|b'|..|text| - |a'|];
    }
  }

  lemma NoCoreIfSpace(text: string, b: string, core: string, a: string)
    requires IsCore(text, b, core, a)
    ensures core == "" <==> AllSpace(text)
  {
    hide IsSpace;
    if core == "" {
      assert forall i :: 0 <= i < |text| ==> text[i] == if i < |b| then b[i] else a[i - |b|];
    } else {
      assert text[|b|] == core[0];
    }
  }

  lemma SameFront(text: string, b: string, core: string, a: string, b': string, core': string, a': string)
    requires IsCore(text, b, core, a) && IsCore(text, b', core', a') && core != "" && core' != ""
    ensures |b| <= |b'|
  {
    hide IsSpace;
    assert text[|b'|] == core'[0];
    assert forall i :: 0 <= i < |b| ==> text[i] == b[i];
  }

  lemma SameBack(text: string, b: string, core: string, a: string, b': string, core': string, a': string)
    requires IsCore(text, b, core, a) && IsCore(text, b', core', a') && core != "" && core' != ""
    ensures |a| <= |a'|
  {
    hide IsSpace;
    assert text[|text| - |a'| - 1] == core'[|core'| - 1];
    assert forall i :: |b| + |core| <= i < |text| ==> text[i] == a[i - |b| - |core|];
  }

  ghost predicate IsKeyword(key: string) {
    || key == "msgctxt" || key == "msgid" || key == "msgid_plural" || key == "msgstr"
    || exists digits: string :: IsNumbered(key, digits)
  }

  ghost predicate IsNumbered(key: string, digits: string) {
    key == "msgstr[" + digits + "]" && digits != "" && forall i :: 0 <= i < |digits| ==> IsDigit(digits[i])
  }

  predicate IsQuoted(text: string) {
    |text| >= 2 && text[0] == '"' && text[|text| - 1] == '"'
  }

  ghost predicate IsKeywordLine(line: string, key: string, gap: string, quoted: string) {
    line == key + gap + quoted && IsKeyword(key) && gap != "" && AllSpace(gap) && IsQuoted(quoted)
  }

  lemma KeywordLengthIs(key: string, tail: string)
    requires IsKeyword(key) && tail != "" && tail[0] != '_' && tail[0] != '['
    ensures KeywordLength(key + tail) == |key| > 0
  {
    hide BracketLength, IsNumbered;
    var line := key + tail;
    if digits: string :| IsNumbered(key, digits) {
      NumberedBracket(key, digits, tail);
    } else if key == "msgstr" {
      assert line[6..] == tail && line[..6] == "msgstr";
      NotMsgid(line);
      assert BracketLength(tail) == 0 by { NoBracket(tail); }
    } else if key == "msgid" {
      assert line[5] == tail[0] && line[..5] == "msgid" && line[3] == 'i';
    } else if key == "msgid_plural" {
      assert line[..12] == "msgid_plural" && line[3] == 'i';
    } else {
      assert line[..7] == "msgctxt";
    }
  }

  lemma NoBracket(tail: string)
    requires tail != "" && tail[0] != '['
    ensures BracketLength(tail) == 0
  {
  }

  lemma NumberedBracket(key: string, digits: string, tail: string)
    requires IsNumbered(key, digits)
    ensures KeywordLength(key + tail) == |key| > 0
  {
    var line := key + tail;
    assert line[6..] == "[" + digits + "]" + tail && line[..6] == "msgstr";
    var bracket := line[6..];
    assert bracket[1..] == digits + ("]" + tail);
    DigitsAtOf(digits, "]" + tail);
    assert bracket[1 + |digits|] == ']';
    NotMsgid(line);
  }

  lemma KeywordOfLength(line: string)
    requires KeywordLength(line) > 0
    ensures IsKeyword(line[..KeywordLength(line)])
  {
    var n := KeywordLength(line);
    if "msgctxt" <= line {
      assert line[..n] == "msgctxt";
    } else if "msgid_plural" <= line {
      assert line[..n] == "msgid_plural";
    } else if "msgid" <= line {
      assert line[..n] == "msgid";
    } else if BracketLength(line[6..]) == 0 {
      assert line[..n] == "msgstr";
    } else {
      var digits := line[7..n - 1];
      assert forall i :: 0 <= i < |digits| ==> digits[i] == line[6..][1..][i];
      assert line[..n] == "msgstr[" + digits + "]";
      assert IsNumbered(line[..n], digits);
    }
  }

  // Which lines are a keyword and a quoted text.
  lemma {:induction false} KeywordLineIs(line: string, key: string, quoted: string)
    ensures KeywordOf(line) == Some((key, quoted)) <==> exists gap :: IsKeywordLine(line, key, gap, quoted)
  {
    hide KeywordOf, IsKeywordLine;
    if KeywordOf(line) == Some((key, quoted)) {
      var gap := KeywordLineFound(line);
    }
    if gap :| IsKeywordLine(line, key, gap, quoted) {
      KeywordLineFinds(line, key, gap, quoted);
    }
  }

  lemma KeywordLineFound(line: string) returns (gap: string)
    requires KeywordOf(line).Some?
    ensures IsKeywordLine(line, KeywordOf(line).value.0, gap, KeywordOf(line).value.1)
  {
    hide IsSpace, KeywordLength, IsKeyword, StripLeft;
    var n, quoted := KeywordLength(line), KeywordOf(line).value.1;
    KeywordOfLength(line);
    StripLeftIs(line[n..]);
    gap := line[n..][..|line| - n - |quoted|];
    assert line == line[..n] + gap + quoted;
  }

  lemma KeywordLineFinds(line: string, key: string, gap: string, quoted: string)
    requires IsKeywordLine(line, key, gap, quoted)
    ensures KeywordOf(line) == Some((key, quoted))
  {
    hide IsSpace, KeywordLength, IsKeyword, StripLeft;
    SpacesAre();
    assert line == key + (gap + quoted) && IsSpace(gap[0]);
    GapCharacters(gap[0]);
    KeywordLengthIs(key, gap + quoted);
    assert line[|key|..] == gap + quoted && line[..|key|] == key;
    StripGap(gap, quoted);
  }

  lemma GapCharacters(c: char)
    requires IsSpace(c)
    ensures c != '_' && c != '['
  {
  }

  lemma {:induction false} StripGap(gap: string, rest: string)
    requires AllSpace(gap) && rest != "" && !IsSpace(rest[0])
    ensures StripLeft(gap + rest) == rest
  {
    hide IsSpace;
    if gap == "" {
      assert gap + rest == rest;
    } else {
      assert (gap + rest)[1..] == gap[1..] + rest;
      StripGap(gap[1..], rest);
    }
  }

  ghost predicate NamesFuzzy(line: string) {
    exists between: string, after: string :: line == "#," + between + "fuzzy" + after
  }

  lemma MarksFuzzyIs(line: string)
    ensures MarksFuzzy(line) <==> NamesFuzzy(line)
  {
    if MarksFuzzy(line) {
      var i :| 0 <= i <= |line| && "fuzzy" <= line[i..];
      FuzzyAt(line, i);
    }
    if between: string, after: string :| line == "#," + between + "fuzzy" + after {
      FuzzyBetween(between, after);
    }
  }

  lemma FuzzyAt(line: string, i: nat)
    requires i <= |line| && "#," <= line && "fuzzy" <= line[i..]
    ensures NamesFuzzy(line)
  {
    var rest := line[i..];
    assert rest == "fuzzy" + rest[5..] && rest[0] == 'f';
    assert line == "#," + line[2..] && line[0] == '#' && line[1] == ',';
    assert line[i] == 'f';
    assert line == "#," + line[2..i] + "fuzzy" + rest[5..];
  }

  lemma FuzzyBetween(between: string, after: string)
    ensures MarksFuzzy("#," + between + "fuzzy" + after)
  {
    var line := "#," + between + "fuzzy" + after;
    assert line[2 + |between|..] == "fuzzy" + after;
    assert line == "#," + (between + "fuzzy" + after);
  }

  // A comment of flags marks a message exactly when it names the flag; any other
  // comment leaves the mark as it was.
  lemma FlagsMark(s: State, raw: string)
    requires Strip(raw) != "" && Strip(raw)[0] == '#'
    ensures ParseLine(s, raw).Some?
    ensures ParseLine(s, raw).value.fuzzy <==> (s.fuzzy && !Translated(s.fields)) || NamesFuzzy(Strip(raw))
  {
    hide Strip, Translated, MarksFuzzy, NamesFuzzy, PairOf;
    MarksFuzzyIs(Strip(raw));
  }

  // ------------------------------------------------------------- whole fields

  lemma {:induction false} PutNew(fields: Fields, key: string, value: string)
    requires Find(fields, key).None?
    ensures Put(fields, key, value) == fields + [(key, value)]
    ensures Find(fields + [(key, value)], key) == Some(value)
  {
    if fields != [] {
      PutNew(fields[1..], key, value);
      assert (fields + [(key, value)])[1..] == fields[1..] + [(key, value)];
    }
  }

  lemma {:induction false} PutSame(fields: Fields, key: string, value: string)
    requires Find(fields, key) == Some(value)
    ensures Put(fields, key, value) == fields
  {
    if fields[0].0 == key {
      assert fields == [(key, value)] + fields[1..];
    } else {
      PutSame(fields[1..], key, value);
      assert fields == [fields[0]] + fields[1..];
    }
  }

  lemma {:induction false} PutTwice(fields: Fields, key: string, first: string, second: string)
    ensures Put(Put(fields, key, first), key, second) == Put(fields, key, second)
    ensures Find(Put(fields, key, first), key) == Some(first)
  {
    if fields != [] && fields[0].0 != key {
      PutTwice(fields[1..], key, first, second);
    }
  }

  lemma {:induction false} ParseConcat(s: State, a: seq<string>, b: seq<string>)
    ensures ParseLines(s, a + b) == match ParseLines(s, a) case None => None case Some(next) => ParseLines(next, b)
    decreases |a|
  {
    hide ParseLine;
    if a == [] {
      assert a + b == b;
    } else {
      assert (a + b)[1..] == a[1..] + b;
      var next := ParseLine(s, a[0]);
      if next.Some? {
        ParseConcat(next.value, a[1..], b);
      }
    }
  }

  // The quoted lines after a field's first add to it.
  lemma {:induction false} QuotedLinesParse(s: State, key: string, value: string, parts: seq<string>)
    requires s.current == Some(key) && Find(s.fields, key) == Some(value)
    ensures ParseLines(s, QuotedLines(parts)) == Some(s.(fields := Put(s.fields, key, value + Whole(parts))))
    decreases |parts|
  {
    hide Strip, KeywordOf, PoString, Unquote;
    if parts == [] {
      assert value + Whole(parts) == value;
      PutSame(s.fields, key, value);
    } else {
      QuotedLineReads(parts[0]);
      QuotingReadsBack(parts[0]);
      var next := s.(fields := Put(s.fields, key, value + parts[0]));
      assert ParseLine(s, PoString(parts[0])) == Some(next);
      PutTwice(s.fields, key, value + parts[0], value + parts[0] + Whole(parts[1..]));
      QuotedLinesParse(next, key, value + parts[0], parts[1..]);
      assert value + parts[0] + Whole(parts[1..]) == value + Whole(parts);
    }
  }

  // A printed field is put in the fields held, in place of one with its key.
  lemma {:induction false} FieldParses(s: State, key: string, parts: Parts)
    requires IsKey(key) && ((key == "msgctxt" || key == "msgid") ==> !Translated(s.fields))
    ensures ParseLines(s, FieldLines(key, parts))
         == Some(s.(fields := Put(s.fields, key, Whole(parts)), current := Some(key)))
  {
    hide Strip, KeywordOf, PoString, Unquote, IsKey, Translated;
    var line := key + " " + PoString(parts[0]);
    FieldLineReads(key, parts[0]);
    QuotingReadsBack(parts[0]);
    var next := s.(fields := Put(s.fields, key, parts[0]), current := Some(key));
    assert ParseLine(s, line) == Some(next);
    PutTwice(s.fields, key, parts[0], Whole(parts));
    QuotedLinesParse(next, key, parts[0], parts[1..]);
    var lines := FieldLines(key, parts);
    assert lines[0] == line && lines[1..] == QuotedLines(parts[1..]);
  }

  // ----------------------------------------------------------- whole messages

  function Values(fields: seq<(string, Parts)>): (values: Fields)
    ensures |values| == |fields|
    ensures forall i :: 0 <= i < |fields| ==> values[i] == (fields[i].0, Whole(fields[i].1))
  {
    if fields == [] then [] else [(fields[0].0, Whole(fields[0].1))] + Values(fields[1..])
  }

  // Printed fields that the parser takes as new fields of the message it is in.
  ghost predicate Orderly(before: Fields, fields: seq<(string, Parts)>)
    decreases |fields|
  {
    fields == [] || (
      var (key, parts) := fields[0];
      && IsKey(key) && Find(before, key).None?
      && ((key == "msgctxt" || key == "msgid") ==> !Translated(before))
      && Orderly(before + [(key, Whole(parts))], fields[1..]))
  }

  lemma {:induction false} FieldsParse(s: State, fields: seq<(string, Parts)>) returns (current: Option<string>)
    requires Orderly(s.fields, fields)
    ensures ParseLines(s, FieldsLines(fields)) == Some(State(s.entries, s.fields + Values(fields), current, s.fuzzy))
    ensures fields != [] ==> current.Some?
    decreases |fields|
  {
    hide IsKey, Translated, ParseLine, FieldLines, Whole, Find, Put, Values;
    if fields == [] {
      current := s.current;
      assert Values(fields) == [] && s.fields + Values(fields) == s.fields;
    } else {
      var (key, parts) := fields[0];
      FieldParses(s, key, parts);
      PutNew(s.fields, key, Whole(parts));
      var next := s.(fields := s.fields + [(key, Whole(parts))], current := Some(key));
      current := FieldsParse(next, fields[1..]);
      ParseConcat(s, FieldLines(key, parts), FieldsLines(fields[1..]));
      ValuesCons(key, parts, fields[1..]);
      assert [fields[0]] + fields[1..] == fields;
      assert s.fields + [(key, Whole(parts))] + Values(fields[1..]) == s.fields + Values(fields);
    }
  }

  lemma {:induction false} FindAppended(fields: Fields, key: string, value: string, other: string)
    ensures Find(fields + [(key, value)], other) ==
      if Find(fields, other).Some? then Find(fields, other) else if key == other then Some(value) else None
  {
    if fields != [] {
      assert (fields + [(key, value)])[1..] == fields[1..] + [(key, value)];
      FindAppended(fields[1..], key, value, other);
    } else {
      assert fields + [(key, value)] == [(key, value)];
    }
  }

  lemma FormKeyFacts(m: Message, form: Form)
    ensures IsKey(FormKey(m, form)) && IsForm(FormKey(m, form))
    ensures FormKey(m, form) != "msgctxt" && FormKey(m, form) != "msgid" && FormKey(m, form) != "msgid_plural"
    ensures FormIndex(FormKey(m, form)) == if m.numbered then form.index else 0
  {
    hide Digits, FormIndex;
    if m.numbered {
      FormIndexOf(form.index);
      assert FormKey(m, form) == NumberedKey(form.index);
      assert FormKey(m, form)[3] == 's' && FormKey(m, form)[..6] == "msgstr";
    } else {
      PlainKeysHaveIndexZero();
    }
  }

  lemma {:induction false} FormsAreOrderly(m: Message, before: Fields, forms: seq<Form>)
    requires forall i :: 0 <= i < |forms| ==> Find(before, FormKey(m, forms[i])).None?
    requires forall i, j :: 0 <= i < j < |forms| ==> forms[i].index != forms[j].index
    requires !m.numbered ==> |forms| <= 1
    ensures Orderly(before, PrintedForms(m, forms))
    decreases |forms|
  {
    hide IsKey, FormKey, FormIndex, IsForm, Quotable;
    if forms != [] {
      var key, value := FormKey(m, forms[0]), Whole(forms[0].text);
      FormKeyFacts(m, forms[0]);
      forall i | 1 <= i < |forms| ensures Find(before + [(key, value)], FormKey(m, forms[i])).None? {
        FormKeyFacts(m, forms[i]);
        FindAppended(before, key, value, FormKey(m, forms[i]));
      }
      FormsAreOrderly(m, before + [(key, value)], forms[1..]);
    }
  }

  lemma ValuesCons(key: string, parts: Parts, rest: seq<(string, Parts)>)
    ensures Values([(key, parts)] + rest) == [(key, Whole(parts))] + Values(rest)
  {
  }

  lemma {:induction false} ValuesConcat(a: seq<(string, Parts)>, b: seq<(string, Parts)>)
    ensures Values(a + b) == Values(a) + Values(b)
  {
  }

  lemma {:induction false} OrderlyConcat(before: Fields, a: seq<(string, Parts)>, b: seq<(string, Parts)>)
    requires Orderly(before, a) && Orderly(before + Values(a), b)
    ensures Orderly(before, a + b)
    decreases |a|
  {
    hide IsKey, Translated, Find, Whole, Values;
    if a == [] {
      assert a + b == b && Values(a) == [] && before + Values(a) == before;
    } else {
      var (key, parts) := a[0];
      assert (a + b)[1..] == a[1..] + b && [a[0]] + a[1..] == a;
      ValuesCons(key, parts, a[1..]);
      assert before + [(key, Whole(parts))] + Values(a[1..]) == before + Values(a);
      OrderlyConcat(before + [(key, Whole(parts))], a[1..], b);
    }
  }

  function Optional(key: string, parts: Option<Parts>): seq<(string, Parts)> {
    if parts.Some? then [(key, parts.value)] else []
  }

  function Heads(m: Message): seq<(string, Parts)> {
    Optional("msgctxt", m.context) + [("msgid", m.id)] + Optional("msgid_plural", m.plural)
  }

  lemma FindInHeads(m: Message, key: string)
    ensures Find(Values(Optional("msgctxt", m.context)), key) == if key == "msgctxt" then WholeOf(m.context) else None
    ensures Find(Values(Optional("msgctxt", m.context) + [("msgid", m.id)]), key) ==
      if key == "msgctxt" then WholeOf(m.context) else if key == "msgid" then Some(Whole(m.id)) else None
    ensures Find(Values(Heads(m)), key) ==
      if key == "msgctxt" then WholeOf(m.context)
      else if key == "msgid" then Some(Whole(m.id))
      else if key == "msgid_plural" then WholeOf(m.plural)
      else None
  {
    hide Whole;
    var context, plural := Optional("msgctxt", m.context), Optional("msgid_plural", m.plural);
    var upToId := Values(context) + [("msgid", Whole(m.id))];
    FindAppended(Values(context), "msgid", Whole(m.id), key);
    assert Values(context + [("msgid", m.id)]) == upToId;
    if m.plural.Some? {
      FindAppended(upToId, "msgid_plural", Whole(m.plural.value), key);
      assert Values(Heads(m)) == upToId + [("msgid_plural", Whole(m.plural.value))];
    } else {
      assert Values(Heads(m)) == upToId;
    }
  }

  lemma FormsNotInHeads(m: Message, key: string)
    requires IsForm(key)
    ensures Find(Values(Heads(m)), key).None?
  {
    hide Find, Values, Heads;
    FindInHeads(m, key);
    assert key[3] == 's';
  }

  lemma HeadsAreOrderly(m: Message)
    ensures Orderly([], Heads(m))
  {
    hide Whole;
    var context, plural := Optional("msgctxt", m.context), Optional("msgid_plural", m.plural);
    var id := [("msgid", m.id)];
    FindInHeads(m, "msgid");
    FindInHeads(m, "msgid_plural");
    assert Orderly([], context);
    assert [] + Values(context) == Values(context);
    assert !Translated(Values(context)) by { assert !IsForm("msgctxt") by { assert "msgctxt"[3] == 'c'; } }
    assert Orderly(Values(context), id) by { assert id[1..] == []; }
    OrderlyConcat([], context, id);
    assert [] + Values(context + id) == Values(context + id);
    assert Orderly(Values(context + id), plural) by { assert m.plural.Some? ==> plural[1..] == []; }
    OrderlyConcat([], context + id, plural);
  }

  lemma MessageIsOrderly(m: Message)
    requires WellFormed(m)
    ensures Orderly([], Printed(m))
    ensures Printed(m) == Heads(m) + PrintedForms(m, m.forms)
    ensures Values(Printed(m)) == Values(Heads(m)) + Values(PrintedForms(m, m.forms))
  {
    hide Whole, FormKey, IsForm, Quotable, Values, Find, Orderly;
    var forms := PrintedForms(m, m.forms);
    HeadsAreOrderly(m);
    forall i | 0 <= i < |m.forms| ensures Find(Values(Heads(m)), FormKey(m, m.forms[i])).None? {
      FormKeyFacts(m, m.forms[i]);
      FormsNotInHeads(m, FormKey(m, m.forms[i]));
    }
    FormsAreOrderly(m, Values(Heads(m)), m.forms);
    assert [] + Values(Heads(m)) == Values(Heads(m));
    OrderlyConcat([], Heads(m), forms);
    ValuesConcat(Heads(m), forms);
  }

  // The comments in front of a message: they only tell whether it is fuzzy.
  lemma {:induction false} CommentsParse(s: State, comments: seq<string>)
    requires forall i :: 0 <= i < |comments| ==> IsComment(comments[i])
    requires !Translated(s.fields)
    ensures ParseLines(s, comments) ==
      Some(s.(fuzzy := s.fuzzy || exists i | 0 <= i < |comments| :: MarksFuzzy(Strip(comments[i]))))
    decreases |comments|
  {
    hide Translated, MarksFuzzy, StripRight, IsSpace, OneLine;
    if comments != [] {
      SpacesAre();
      StripRightKeepsFirst(comments[0]);
      var next := s.(fuzzy := s.fuzzy || MarksFuzzy(Strip(comments[0])));
      assert ParseLine(s, comments[0]) == Some(next);
      CommentsParse(next, comments[1..]);
      forall i | 0 <= i < |comments| - 1 ensures comments[1..][i] == comments[i + 1] {
      }
      AnyOfRest(comments);
    }
  }

  lemma AnyOfRest(comments: seq<string>)
    requires comments != []
    ensures (exists i | 0 <= i < |comments| :: MarksFuzzy(Strip(comments[i])))
      <==> MarksFuzzy(Strip(comments[0])) || exists i | 0 <= i < |comments[1..]| :: MarksFuzzy(Strip(comments[1..][i]))
  {
    hide MarksFuzzy, Strip;
    if i :| 0 <= i < |comments| && MarksFuzzy(Strip(comments[i])) {
      assert i > 0 ==> comments[1..][i - 1] == comments[i];
    }
    if i :| 0 <= i < |comments[1..]| && MarksFuzzy(Strip(comments[1..][i])) {
      assert comments[i + 1] == comments[1..][i];
    }
  }

  lemma MessageParses(s: State, m: Message) returns (current: Option<string>)
    requires WellFormed(m) && s.fields == [] && !s.fuzzy
    ensures ParseLines(s, MessageLines(m)) == Some(State(s.entries, Values(Printed(m)), current, IsFuzzy(m)))
    ensures current.Some?
  {
    assert Printed(m) != [];
    hide MarksFuzzy, Strip, Orderly, Printed, Values, ParseLines;
    CommentsParse(s, m.comments);
    MessageIsOrderly(m);
    var next := s.(fuzzy := IsFuzzy(m));
    current := FieldsParse(next, Printed(m));
    ParseConcat(s, m.comments, FieldsLines(Printed(m)));
    assert [] + Values(Printed(m)) == Values(Printed(m));
  }

  lemma {:induction false} FormsOfInsert(field: (string, string), sorted: Fields)
    requires !IsForm(field.0)
    ensures FormsOf(InsertField(field, sorted)) == FormsOf(sorted)
  {
    hide FormIndex, IsForm;
    if sorted != [] && FormIndex(field.0) > FormIndex(sorted[0].0) {
      FormsOfInsert(field, sorted[1..]);
    } else {
      assert ([field] + sorted)[1..] == sorted;
    }
  }

  lemma {:induction false} FormsOfHeads(heads: Fields, forms: Fields)
    requires forall i :: 0 <= i < |heads| ==> !IsForm(heads[i].0)
    ensures FormsOf(SortFields(heads + forms)) == FormsOf(SortFields(forms))
    decreases |heads|
  {
    hide FormIndex, IsForm;
    if heads == [] {
      assert heads + forms == forms;
    } else {
      assert (heads + forms)[1..] == heads[1..] + forms;
      FormsOfHeads(heads[1..], forms);
      FormsOfInsert(heads[0], SortFields(heads[1..] + forms));
    }
  }

  // The parser's fields of some forms.
  function FormFields(m: Message, forms: seq<Form>): Fields {
    if forms == [] then [] else [(FormKey(m, forms[0]), Whole(forms[0].text))] + FormFields(m, forms[1..])
  }

  lemma {:induction false} ValuesOfForms(m: Message, forms: seq<Form>)
    ensures Values(PrintedForms(m, forms)) == FormFields(m, forms)
  {
    hide FormKey, Whole;
    if forms != [] {
      ValuesOfForms(m, forms[1..]);
      ValuesCons(FormKey(m, forms[0]), forms[0].text, PrintedForms(m, forms[1..]));
    }
  }

  lemma {:induction false} InsertMatches(m: Message, form: Form, sorted: seq<Form>)
    requires m.numbered
    ensures InsertField((FormKey(m, form), Whole(form.text)), FormFields(m, sorted)) == FormFields(m, InsertForm(form, sorted))
  {
    hide FormKey, Whole, FormIndex;
    FormKeyFacts(m, form);
    if sorted != [] {
      FormKeyFacts(m, sorted[0]);
      if form.index > sorted[0].index {
        InsertMatches(m, form, sorted[1..]);
      }
    }
  }

  lemma {:induction false} SortMatches(m: Message, forms: seq<Form>)
    requires m.numbered || |forms| <= 1
    ensures SortFields(FormFields(m, forms)) == FormFields(m, SortForms(forms))
  {
    hide FormKey, Whole, FormIndex;
    if forms != [] {
      SortMatches(m, forms[1..]);
      if m.numbered {
        InsertMatches(m, forms[0], SortForms(forms[1..]));
      } else {
        assert forms[1..] == [];
      }
    }
  }

  lemma {:induction false} FormsOfFormFields(m: Message, forms: seq<Form>)
    ensures FormsOf(FormFields(m, forms)) == TextsOf(forms)
  {
    hide FormKey, Whole, IsForm;
    if forms != [] {
      FormKeyFacts(m, forms[0]);
      FormsOfFormFields(m, forms[1..]);
    }
  }

  lemma {:induction false} FindPastForms(m: Message, heads: Fields, forms: seq<Form>, key: string)
    requires key == "msgctxt" || key == "msgid" || key == "msgid_plural"
    ensures Find(heads + FormFields(m, forms), key) == Find(heads, key)
    decreases |heads|, |forms|
  {
    hide FormKey, Whole;
    if heads != [] {
      assert (heads + FormFields(m, forms))[1..] == heads[1..] + FormFields(m, forms);
      FindPastForms(m, heads[1..], forms, key);
    } else {
      assert heads + FormFields(m, forms) == FormFields(m, forms);
      if forms != [] {
        FormKeyFacts(m, forms[0]);
        FindPastForms(m, [], forms[1..], key);
        assert [] + FormFields(m, forms[1..]) == FormFields(m, forms[1..]);
      }
    }
  }

  lemma HeadsAreNoForms(m: Message)
    ensures forall i :: 0 <= i < |Values(Heads(m))| ==> !IsForm(Values(Heads(m))[i].0)
  {
    forall key | key == "msgctxt" || key == "msgid" || key == "msgid_plural" ensures !IsForm(key) {
      assert key[3] == 'c' || key[3] == 'i';
    }
  }

  // What the parser holds of some forms, after other fields.
  lemma {:induction false} FieldsGivePair(m: Message, heads: Fields, forms: seq<Form>, fuzzy: bool)
    requires !Translated(heads) && (m.numbered || |forms| <= 1)
    ensures PairOf(heads + FormFields(m, forms), fuzzy)
         == PairFor(Find(heads, "msgctxt"), Find(heads, "msgid"), Find(heads, "msgid_plural"), TextsOf(SortForms(forms)), fuzzy)
    ensures Translated(heads + FormFields(m, forms)) <==> forms != []
  {
    hide Whole, FormKey, FormIndex, Find, SortFields, SortForms, FormsOf, IsForm;
    FormsOfHeads(heads, FormFields(m, forms));
    SortMatches(m, forms);
    FormsOfFormFields(m, SortForms(forms));
    FindPastForms(m, heads, forms, "msgctxt");
    FindPastForms(m, heads, forms, "msgid");
    FindPastForms(m, heads, forms, "msgid_plural");
    if forms == [] {
      assert heads + FormFields(m, forms) == heads;
    } else {
      FormKeyFacts(m, forms[0]);
      assert (heads + FormFields(m, forms))[|heads|] == FormFields(m, forms)[0];
    }
  }

  // What the parser holds of a printed message gives the expected pair.
  lemma MessageGivesPair(m: Message)
    requires WellFormed(m)
    ensures PairOf(Values(Printed(m)), IsFuzzy(m)) == Expected(m)
    ensures Translated(Values(Printed(m)))
  {
    hide IsFuzzy, Whole, Orderly, Find, Heads, PairFor, PairOf;
    MessageIsOrderly(m);
    ValuesOfForms(m, m.forms);
    HeadsAreNoForms(m);
    FindInHeads(m, "msgctxt");
    FindInHeads(m, "msgid");
    FindInHeads(m, "msgid_plural");
    FieldsGivePair(m, Values(Heads(m)), m.forms, IsFuzzy(m));
  }

  lemma BlankLineParses(s: State)
    requires Translated(s.fields)
    ensures ParseLine(s, "") == Some(Finish(s))
  {
  }

  lemma {:induction false} FileParses(s: State, messages: seq<Message>) returns (last: State)
    requires forall i :: 0 <= i < |messages| ==> WellFormed(messages[i])
    requires s.fields == [] && !s.fuzzy
    ensures ParseLines(s, FileLines(messages)) == Some(last)
    ensures Finish(last).entries == s.entries + ExpectedAll(messages)
    decreases |messages|
  {
    hide WellFormed, MessageLines, Values, Printed, IsFuzzy, Expected, PairOf, ParseLine, Translated;
    if messages == [] {
      last := s;
      assert PairOf([], false) == [] by { NothingToFinish(); }
      assert s.entries + [] == s.entries;
    } else {
      var m := messages[0];
      var current := MessageParses(s, m);
      MessageGivesPair(m);
      last := State(s.entries, Values(Printed(m)), current, IsFuzzy(m));
      if |messages| == 1 {
        assert ExpectedAll(messages) == Expected(m) + ExpectedAll(messages[1..]) && messages[1..] == [];
        assert Expected(m) + [] == Expected(m);
      } else {
        BlankLineParses(last);
        var next := Finish(last);
        var lines, rest := MessageLines(m), FileLines(messages[1..]);
        last := FileParses(next, messages[1..]);
        assert lines + [""] + rest == lines + ([""] + rest);
        ParseConcat(s, lines, [""] + rest);
        assert ([""] + rest)[1..] == rest;
        assert s.entries + Expected(m) + ExpectedAll(messages[1..]) == s.entries + ExpectedAll(messages);
      }
    }
  }

  lemma NothingToFinish()
    ensures PairOf([], false) == []
  {
  }

  // -------------------------------------------------------------- lines print

  lemma {:induction false} QuotedLinesAreLines(parts: seq<string>)
    requires forall i :: 0 <= i < |parts| ==> Quotable(parts[i])
    ensures forall i :: 0 <= i < |QuotedLines(parts)| ==> OneLine(QuotedLines(parts)[i])
  {
    hide OneLine, Quotable, PoString;
    if parts != [] {
      QuotedOneLine(parts[0]);
      QuotedLinesAreLines(parts[1..]);
    }
  }

  lemma NumberedKeyIsOneLine(n: nat)
    ensures OneLine(NumberedKey(n))
  {
    hide Digits;
    DigitsAreDigits(n);
    assert forall c :: c in Digits(n) ==> IsDigit(c);
    assert OneLine("msgstr[") && OneLine(Digits(n)) && OneLine("]");
  }

  lemma KeyIsOneLine(key: string)
    requires IsKey(key)
    ensures OneLine(key)
  {
    hide NumberedKey;
    if n: nat :| key == NumberedKey(n) {
      NumberedKeyIsOneLine(n);
    }
  }

  lemma {:induction false} FieldsLinesAreLines(before: Fields, fields: seq<(string, Parts)>)
    requires Orderly(before, fields)
    requires forall i :: 0 <= i < |fields| ==> QuotableParts(fields[i].1)
    ensures forall i :: 0 <= i < |FieldsLines(fields)| ==> OneLine(FieldsLines(fields)[i])
    decreases |fields|
  {
    hide IsKey, Translated, PoString, Find, Quotable, IsBoundary;
    if fields != [] {
      var (key, parts) := fields[0];
      KeyIsOneLine(key);
      QuotedOneLine(parts[0]);
      SpaceEndsNoLine();
      assert OneLine(key + " " + PoString(parts[0]));
      QuotedLinesAreLines(parts[1..]);
      FieldsLinesAreLines(before + [(key, Whole(parts))], fields[1..]);
    }
  }

  lemma SpaceEndsNoLine()
    ensures !IsBoundary(' ')
  {
  }

  lemma {:induction false} FileLinesAreLines(messages: seq<Message>)
    requires forall i :: 0 <= i < |messages| ==> Printable(messages[i])
    ensures forall i :: 0 <= i < |FileLines(messages)| ==> OneLine(FileLines(messages)[i])
  {
    hide Printable, OneLine;
    if messages != [] {
      MessageLinesAreLines(messages[0]);
      FileLinesAreLines(messages[1..]);
      assert OneLine("") by { EmptyIsOneLine(); }
    }
  }

  lemma EmptyIsOneLine()
    ensures OneLine("")
  {
  }

  lemma MessageLinesAreLines(m: Message)
    requires Printable(m)
    ensures forall i :: 0 <= i < |MessageLines(m)| ==> OneLine(MessageLines(m)[i])
  {
    hide Printed, Orderly, OneLine, FieldsLines;
    PrintedParts(m);
    MessageIsOrderly(m);
    FieldsLinesAreLines([], Printed(m));
    forall i | 0 <= i < |m.comments| ensures OneLine(m.comments[i]) {
      assert IsComment(m.comments[i]);
    }
  }

  lemma FileTextFirst(messages: seq<Message>)
    requires messages != []
    ensures FileText(messages) == LinesText(MessageLines(messages[0])) +
      if |messages| == 1 then "" else "\n" + FileText(messages[1..])
  {
    hide MessageLines, LinesText;
    var lines := MessageLines(messages[0]);
    if |messages| > 1 {
      var rest := FileLines(messages[1..]);
      LinesTextConcat(lines + [""], rest);
      LinesTextConcat(lines, [""]);
      NewlineText();
      assert LinesText(lines) + "\n" + LinesText(rest) == LinesText(lines) + ("\n" + LinesText(rest));
    } else {
      assert LinesText(lines) + "" == LinesText(lines);
    }
  }

  lemma NewlineText()
    ensures LinesText([""]) == "\n"
  {
    assert [""][1..] == [];
  }

  // ------------------------------------------------------------ main results

  // Printing messages and parsing the text gives exactly the pairs of the
  // translated ones, in order, with their forms in numeric order.
  lemma {:induction false} PrintedMessagesReadBack(messages: seq<Message>)
    requires forall i :: 0 <= i < |messages| ==> Printable(messages[i])
    ensures ParseSpec(FileText(messages)) == Some(ExpectedAll(messages))
  {
    hide WellFormed, AllQuotable, FileLines, ParseLines, Finish, SplitLines;
    FileLinesAreLines(messages);
    LinesReadBack(FileLines(messages));
    var last := FileParses(Start(), messages);
    assert [] + ExpectedAll(messages) == ExpectedAll(messages);
  }
}
