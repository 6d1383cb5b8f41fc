// The template of all messages, what the parser makes of line ends that quoting
// leaves as they are, and when it raises. (native/tools/i18n.py)

module PoTemplate {
  import opened Text
  import opened Lines
  import opened PoText

  // ------------------------------------------------- line ends left unquoted

  // A line end that quoting leaves as it is.
  predicate IsRawEnd(c: char) {
    IsBoundary(c) && c != '\n' && c != '\r'
  }

  // White space that quoting leaves as it is; a raw line end is such.
  predicate IsRawSpace(c: char) {
    IsSpace(c) && c != '\n' && c != '\r' && c != '\t'
  }

  function ToRawEnd(text: string): (n: nat)
    ensures n <= |text|
    ensures forall i :: 0 <= i < n ==> !IsRawEnd(text[i])
    ensures n < |text| ==> IsRawEnd(text[n])
  {
    if text == "" || IsRawEnd(text[0]) then 0 else 1 + ToRawEnd(text[1..])
  }

  // The lines the quoted text comes on, `before` in front of it.
  function Pieces(before: string, text: string): (pieces: seq<string>)
    ensures pieces != []
    decreases |text|
  {
    var n := ToRawEnd(text);
    if n == |text| then [before + Escape(text) + "\""]
    else [before + Escape(text[..n])] + Pieces("", text[n + 1..])
  }

  predicate IsBlank(text: string) {
    forall i :: 0 <= i < |text| ==> IsRawSpace(text[i])
  }

  // After one of its raw line ends the text is blank.
  predicate EndsBlank(text: string) {
    exists n | 0 <= n < |text| :: BlankAfter(text, n)
  }

  predicate BlankAfter(text: string, n: nat)
    requires n < |text|
  {
    IsRawEnd(text[n]) && IsBlank(text[n + 1..])
  }

  // But for white space at its end, the text ends in a quote.
  predicate EndsInQuote(text: string) {
    text != "" && (
      var last := text[|text| - 1];
      if IsRawSpace(last) then EndsInQuote(text[..|text| - 1]) else last == '"')
  }

  // But for white space in front, the text starts like a comment.
  predicate StartsAsComment(text: string) {
    text != "" && if IsRawSpace(text[0]) then StartsAsComment(text[1..]) else text[0] == '#'
  }

  // The parser takes the line with its keyword for a field: the text is on one
  // line, or its first line happens to end in a quote.
  predicate Reads(text: string) {
    var n := ToRawEnd(text); n == |text| || EndsInQuote(text[..n])
  }

  lemma {:induction false} EscapeConcat(a: string, b: string)
    ensures Escape(a + b) == Escape(a) + Escape(b)
  {
    hide EscapeChar;
    if a == "" {
      assert a + b == b;
    } else {
      assert (a + b)[1..] == a[1..] + b;
      EscapeConcat(a[1..], b);
    }
  }

  lemma EscapeOne(c: char)
    ensures Escape([c]) == EscapeChar(c)
    ensures IsRawSpace(c) || IsRawEnd(c) ==> EscapeChar(c) == [c] && IsSpace(c)
    ensures IsRawEnd(c) ==> IsRawSpace(c) && IsBoundary(c) && c != '\r'
  {
    assert [c][1..] == "";
  }

  lemma {:induction false} BeforeRawEndQuotable(text: string, n: nat)
    requires n <= |text| && forall i :: 0 <= i < n ==> !IsRawEnd(text[i])
    ensures Quotable(text[..n])
  {
    hide IsBoundary;
  }

  // The line ends in it break the quoted text.
  lemma {:induction false} PiecesSplit(before: string, text: string, tail: string)
    requires OneLine(before)
    ensures SplitLines(before + Escape(text) + "\"" + "\n" + tail) == Pieces(before, text) + SplitLines(tail)
    decreases |text|
  {
    hide SplitLines, Escape, IsRawEnd, IsBoundary, Quotable, OneLine, Pieces, ToRawEnd;
    PiecesOnce(before, text);
    var n := ToRawEnd(text);
    BeforeRawEndQuotable(text, n);
    EscapedOneLine(text[..n]);
    BothOneLine(before, Escape(text[..n]));
    if n == |text| {
      assert text[..n] == text;
      ClosedLineSplits(before + Escape(text), tail);
    } else {
      EscapeOne(text[n]);
      BrokenText(before, text, n, tail);
      EmptyIsOneLine();
      PiecesSplit("", text[n + 1..], tail);
      SplitFirstLine(before + Escape(text[..n]), text[n], "" + Escape(text[n + 1..]) + "\"" + "\n" + tail);
    }
  }

  lemma PiecesOnce(before: string, text: string)
    ensures var n := ToRawEnd(text);
      Pieces(before, text) ==
        if n == |text| then [before + Escape(text) + "\""] else [before + Escape(text[..n])] + Pieces("", text[n + 1..])
  {
    hide ToRawEnd, Escape;
  }

  lemma ClosedLineSplits(line: string, tail: string)
    requires OneLine(line)
    ensures SplitLines(line + "\"" + "\n" + tail) == [line + "\""] + SplitLines(tail)
  {
    hide SplitLines, OneLine, IsBoundary;
    QuoteAndNewline();
    BothOneLine(line, "\"");
    SplitFirstLine(line + "\"", '\n', tail);
  }

  lemma {:induction false} BrokenText(before: string, text: string, n: nat, tail: string)
    requires n < |text| && IsRawEnd(text[n])
    ensures before + Escape(text) + "\"" + "\n" + tail
         == before + Escape(text[..n]) + [text[n]] + ("" + Escape(text[n + 1..]) + "\"" + "\n" + tail)
  {
    hide Escape, IsRawEnd;
    var rest := text[n + 1..];
    assert text == text[..n] + ([text[n]] + rest);
    EscapeConcat(text[..n], [text[n]] + rest);
    EscapeConcat([text[n]], rest);
    EscapeOne(text[n]);
  }

  lemma BothOneLine(a: string, b: string)
    requires OneLine(a) && OneLine(b)
    ensures OneLine(a + b)
  {
    hide IsBoundary;
  }

  lemma QuoteAndNewline()
    ensures OneLine("\"") && IsBoundary('\n')
  {
  }

  // ------------------------------------------------------- a line by its start

  // Every quote but one at an end has a "\" before it.
  predicate Guarded(text: string) {
    forall i :: 0 < i < |text| - 1 && text[i] == '"' ==> text[i - 1] == '\\'
  }

  // Such a text is never a keyword line.
  lemma GuardedIsNoKeyword(text: string)
    requires Guarded(text)
    ensures KeywordOf(text).None?
  {
    hide IsSpace, KeywordLength;
    var n := KeywordLength(text);
    var quoted := StripLeft(text[n..]);
    StripLeftIs(text[n..]);
    if n > 0 && |quoted| < |text| - n && |quoted| >= 2 {
      var p := |text| - |quoted|;
      assert text[p] == quoted[0] && text[n..][p - n - 1] == text[p - 1];
      assert IsSpace(text[p - 1]);
      BackslashIsNoSpace();
    }
  }

  lemma BackslashIsNoSpace()
    ensures !IsSpace('\\')
  {
  }

  lemma {:induction false} EscapeIsGuarded(text: string)
    ensures forall i :: 0 <= i < |Escape(text)| && Escape(text)[i] == '"' ==> i > 0 && Escape(text)[i - 1] == '\\'
  {
    if text != "" {
      EscapeIsGuarded(text[1..]);
      var first, rest := EscapeChar(text[0]), Escape(text[1..]);
      assert forall i :: |first| <= i < |first + rest| ==> (first + rest)[i] == rest[i - |first|];
    }
  }

  lemma StripIsGuarded(text: string)
    requires Guarded(text)
    ensures Guarded(Strip(text))
  {
    hide StripLeft, StripRight;
    var left := StripLeft(text);
    StripLeftIs(text);
    var line := StripRight(left);
    StripRightIs(left);
    var k := |text| - |left|;
    assert forall i :: 0 <= i < |line| ==> line[i] == text[k + i];
  }

  // A line of a quoted text after its first, with the closing quote or not.
  function Continued(text: string, closed: bool): string {
    Escape(text) + if closed then "\"" else ""
  }

  lemma ContinuedIsNoKeyword(text: string, closed: bool)
    ensures KeywordOf(Strip(Continued(text, closed))).None?
  {
    hide Escape, Strip, KeywordOf;
    EscapeIsGuarded(text);
    StripIsGuarded(Continued(text, closed));
    GuardedIsNoKeyword(Strip(Continued(text, closed)));
  }

  lemma {:induction false} ContinuedStart(text: string, closed: bool)
    ensures var line := StripLeft(Continued(text, closed));
      && (IsBlank(text) ==> line == if closed then "\"" else "")
      && (!IsBlank(text) ==>
            && line != "" && !IsSpace(line[0]) && line[0] != '"'
            && (line[0] == '#' <==> StartsAsComment(text)))
  {
    hide IsSpace, Continued, EscapeChar, IsBlank;
    SpacesAre();
    if text == "" {
      NothingContinued(closed);
    } else {
      var rest := Continued(text[1..], closed);
      ContinuedFirst(text, closed);
      BlankFirst(text);
      EscapeOne(text[0]);
      if IsRawSpace(text[0]) {
        ContinuedStart(text[1..], closed);
        assert ([text[0]] + rest)[1..] == rest;
      } else {
        ShownStart(text[0]);
      }
    }
  }

  lemma NothingContinued(closed: bool)
    ensures Continued("", closed) == (if closed then "\"" else "") && IsBlank("")
  {
  }

  lemma ContinuedFirst(text: string, closed: bool)
    requires text != ""
    ensures Continued(text, closed) == EscapeChar(text[0]) + Continued(text[1..], closed) && EscapeChar(text[0]) != ""
  {
  }

  lemma BlankFirst(text: string)
    requires text != ""
    ensures IsBlank(text) <==> IsRawSpace(text[0]) && IsBlank(text[1..])
  {
    hide IsRawSpace;
    if IsRawSpace(text[0]) && IsBlank(text[1..]) {
      forall i | 0 <= i < |text| ensures IsRawSpace(text[i]) {
        assert i > 0 ==> text[i] == text[1..][i - 1];
      }
    }
  }

  lemma ShownStart(c: char)
    requires !IsRawSpace(c)
    ensures !IsSpace(EscapeChar(c)[0]) && EscapeChar(c)[0] != '"' && (EscapeChar(c)[0] == '#' <==> c == '#')
  {
  }

  // What the parser makes of such a line, by its text.
  lemma ContinuedLine(text: string, closed: bool)
    ensures var line := Strip(Continued(text, closed));
      && KeywordOf(line).None?
      && (IsBlank(text) ==> line == if closed then "\"" else "")
      && (!IsBlank(text) ==> line != "" && line[0] != '"' && (line[0] == '#' <==> StartsAsComment(text)))
  {
    hide KeywordOf, Continued, StartsAsComment, IsBlank, IsSpace, StripLeft;
    ContinuedIsNoKeyword(text, closed);
    ContinuedStart(text, closed);
    SpacesAre();
    if !IsBlank(text) {
      StripRightKeepsFirst(StripLeft(Continued(text, closed)));
    }
  }

  lemma {:induction false} StripRightAfter(a: string, b: string)
    requires a != "" && !IsSpace(a[|a| - 1])
    ensures StripRight(a + b) == a + StripRight(b)
  {
    hide IsSpace;
    if b == "" {
      assert a + b == a;
    } else if IsSpace(b[|b| - 1]) {
      assert (a + b)[..|a + b| - 1] == a + b[..|b| - 1];
      StripRightAfter(a, b[..|b| - 1]);
    }
  }

  lemma {:induction false} EndsInQuoteIs(text: string)
    ensures var shown := StripRight(Escape(text));
      EndsInQuote(text) <==> shown != "" && shown[|shown| - 1] == '"'
  {
    hide IsSpace, EscapeChar, Escape;
    if text == "" {
      assert Escape("") == "" by { EmptyEscape(); }
    } else {
      var init, last := text[..|text| - 1], text[|text| - 1];
      assert text == init + [last];
      EscapeConcat(init, [last]);
      EscapeOne(last);
      EndsInQuoteIs(init);
      ShownEnd(last);
      var shown := Escape(init) + EscapeChar(last);
      assert IsRawSpace(last) ==> shown[..|shown| - 1] == Escape(init);
    }
  }

  lemma EmptyEscape()
    ensures Escape("") == ""
  {
  }

  lemma ShownEnd(c: char)
    ensures var shown := EscapeChar(c);
      && shown != ""
      && (!IsRawSpace(c) ==> !IsSpace(shown[|shown| - 1]) && (shown[|shown| - 1] == '"' <==> c == '"'))
  {
  }

  // The first line of a broken field: only with a quote at its end is it one.
  lemma FirstLineReads(key: string, text: string)
    requires IsKey(key)
    ensures var line := Strip(key + " \"" + Escape(text));
      && line != "" && line[0] == 'm'
      && (EndsInQuote(text) ==> KeywordOf(line).Some? && KeywordOf(line).value.0 == key)
      && (!EndsInQuote(text) ==> KeywordOf(line).None?)
  {
    hide Escape, KeywordLength, IsSpace, IsKey, EndsInQuote;
    KeyStartsWithM(key);
    SpacesAre();
    var start, shown := key + " \"", StripRight(Escape(text));
    assert start[|start| - 1] == '"' && start[0] == 'm';
    StripRightAfter(start, Escape(text));
    EndsInQuoteIs(text);
    var line := start + shown;
    assert StripLeft(start + Escape(text)) == start + Escape(text) by { assert (start + Escape(text))[0] == 'm'; }
    assert line == key + (" \"" + shown);
    KeywordAtStart(key, " \"" + shown);
    assert line[|key|..] == " \"" + shown && line[..|key|] == key;
    assert StripLeft(" \"" + shown) == StripLeft("\"" + shown) == "\"" + shown by {
      assert (" \"" + shown)[1..] == "\"" + shown;
    }
  }

  // ------------------------------------------------ fields of the template

  // The field of the last keyword line is still there.
  predicate Held(s: State) {
    s.current.Some? && Find(s.fields, s.current.value).Some?
  }

  // The text after its last raw line end, or all of it, is blank.
  predicate LastBlank(text: string) {
    IsBlank(text) || EndsBlank(text)
  }

  lemma {:induction false} EndsBlankAfter(text: string)
    requires ToRawEnd(text) < |text|
    ensures EndsBlank(text) <==> LastBlank(text[ToRawEnd(text) + 1..])
    ensures IsBlank(text) ==> EndsBlank(text)
  {
    hide BlankAfter, IsBlank, ToRawEnd, IsRawEnd, EndsBlank;
    BlankAfterFirst(text);
    SomeBlankAfter(text, ToRawEnd(text));
    FirstBlankAfter(text, ToRawEnd(text));
  }

  lemma FirstBlankAfter(text: string, n: nat)
    requires n < |text|
    ensures BlankAfter(text, n) ==> EndsBlank(text)
  {
    hide BlankAfter;
  }

  lemma SomeBlankAfter(text: string, n: nat)
    requires n < |text| && forall k :: 0 <= k < n ==> !BlankAfter(text, k)
    ensures EndsBlank(text) <==> BlankAfter(text, n) || EndsBlank(text[n + 1..])
  {
    hide BlankAfter;
    var rest := text[n + 1..];
    if EndsBlank(text) && !BlankAfter(text, n) {
      var k :| 0 <= k < |text| && BlankAfter(text, k);
      BlankAfterShifts(text, n, k - n - 1);
    }
    if EndsBlank(rest) {
      var k :| 0 <= k < |rest| && BlankAfter(rest, k);
      BlankAfterShifts(text, n, k);
    }
  }

  lemma {:induction false} BlankAfterFirst(text: string)
    requires ToRawEnd(text) < |text|
    ensures var n := ToRawEnd(text);
      && (BlankAfter(text, n) <==> IsBlank(text[n + 1..]))
      && (IsBlank(text) ==> BlankAfter(text, n))
      && forall k :: 0 <= k < n ==> !BlankAfter(text, k)
  {
    hide IsBlank, IsRawEnd;
    BlankRest(text, ToRawEnd(text));
  }

  lemma BlankAfterShifts(text: string, n: nat, k: nat)
    requires n + 1 + k < |text|
    ensures BlankAfter(text[n + 1..], k) == BlankAfter(text, n + 1 + k)
  {
    hide IsBlank, IsRawEnd;
    assert text[n + 1..][k + 1..] == text[n + 1 + k + 1..];
  }

  lemma BlankRest(text: string, n: nat)
    requires n < |text|
    ensures IsBlank(text) ==> IsBlank(text[n + 1..])
  {
    hide IsRawSpace;
  }

  lemma {:induction false} PutFinds(fields: Fields, key: string, value: string)
    ensures Find(Put(fields, key, value), key) == Some(value)
    ensures Translated(Put(fields, key, value)) <==> Translated(fields) || IsForm(key)
    ensures (key, value) in Put(fields, key, value)
  {
    hide IsForm;
    if fields == [] || fields[0].0 == key {
      assert Put(fields, key, value)[0] == (key, value);
      if i :| 0 <= i < |fields| && IsForm(fields[i].0) {
        assert IsForm(Put(fields, key, value)[i].0);
      }
      if i :| 0 < i < |Put(fields, key, value)| && IsForm(Put(fields, key, value)[i].0) {
        assert IsForm(fields[i].0);
      }
    } else {
      PutFinds(fields[1..], key, value);
      TranslatedFirst(fields);
      TranslatedFirst(Put(fields, key, value));
      assert Put(fields, key, value)[1..] == Put(fields[1..], key, value);
    }
  }

  lemma TranslatedFirst(fields: Fields)
    requires fields != []
    ensures Translated(fields) <==> IsForm(fields[0].0) || Translated(fields[1..])
  {
    hide IsForm;
    if i :| 0 <= i < |fields| && IsForm(fields[i].0) {
      assert i > 0 ==> fields[1..][i - 1] == fields[i];
    }
    if i :| 0 <= i < |fields[1..]| && IsForm(fields[1..][i].0) {
      assert fields[i + 1] == fields[1..][i];
    }
  }

  // One later line, while no form is held: only a lone quote matters, and only
  // when the field it would continue is gone.
  lemma {:induction false} ContinuedParses(s: State, text: string, closed: bool) returns (fuzzy: bool)
    requires !Translated(s.fields) && s.current.Some?
    ensures ParseLine(s, Continued(text, closed))
         == if closed && IsBlank(text) && !Held(s) then None else Some(s.(fuzzy := fuzzy))
  {
    hide KeywordOf, Continued, StartsAsComment, IsBlank, Strip, Translated, MarksFuzzy;
    ContinuedLine(text, closed);
    var line := Strip(Continued(text, closed));
    fuzzy := if line == "" || line[0] == '#' then s.fuzzy || MarksFuzzy(line) else s.fuzzy;
    if closed && IsBlank(text) && Held(s) {
      var value := Find(s.fields, s.current.value).value;
      PutSame(s.fields, s.current.value, value);
      assert Unquote("\"") == "" && value + "" == value;
    }
  }

  lemma {:induction false} RestParses(s: State, text: string) returns (fuzzy: bool)
    requires !Translated(s.fields) && s.current.Some?
    ensures ParseLines(s, Pieces("", text)) == if LastBlank(text) && !Held(s) then None else Some(s.(fuzzy := fuzzy))
    decreases |text|
  {
    hide ParseLine, IsBlank, EndsBlank, Translated, Escape;
    var n := ToRawEnd(text);
    if n == |text| {
      fuzzy := ContinuedParses(s, text, true);
      NoRawEnd(text);
      assert "" + Escape(text) + "\"" == Continued(text, true);
      assert Pieces("", text)[0] == Continued(text, true) && Pieces("", text)[1..] == [];
    } else {
      var before := ContinuedParses(s, text[..n], false);
      fuzzy := RestParses(s.(fuzzy := before), text[n + 1..]);
      EndsBlankAfter(text);
      assert "" + Escape(text[..n]) == Continued(text[..n], false);
      assert Pieces("", text)[0] == Continued(text[..n], false) && Pieces("", text)[1..] == Pieces("", text[n + 1..]);
    }
  }

  predicate IsHead(key: string) {
    key == "msgctxt" || key == "msgid" || key == "msgid_plural"
  }

  lemma HeadKey(key: string)
    requires IsHead(key)
    ensures IsKey(key) && !IsForm(key) && OneLine(key + " \"")
  {
    assert key[3] == 'c' || key[3] == 'i';
    hide IsForm, OneLine, IsBoundary;
    KeyIsOneLine(key);
    SpaceQuoteIsOneLine();
    BothOneLine(key, " \"");
  }

  lemma SpaceQuoteIsOneLine()
    ensures OneLine(" \"") && OneLine(" ")
  {
  }

  // A field of the template, whatever line ends are in it.
  lemma {:induction false} FieldOnLines(s: State, key: string, text: string) returns (next: Option<State>)
    requires IsHead(key) && !Translated(s.fields) && s.current.Some?
    ensures ParseLines(s, Pieces(key + " \"", text)) == next
    ensures next.None? <==> EndsBlank(text) && !Reads(text) && !Held(s)
    ensures next.Some? ==>
      && next.value.entries == s.entries && !Translated(next.value.fields) && next.value.current.Some?
      && (Held(next.value) <==> Held(s) || Reads(text))
  {
    hide ParseLine, IsBlank, Translated, Escape, Find, IsForm, EndsInQuote, LastBlank, EndsBlank, IsKey;
    HeadKey(key);
    var n := ToRawEnd(text);
    var before := s;
    if n == |text| {
      before := WholeFieldParses(s, key, text);
      next := Some(before);
      NoRawEnd(text);
      assert Pieces(key + " \"", text)[1..] == [];
    } else {
      var pieces := Pieces(key + " \"", text);
      before := FirstPieceParses(s, key, text[..n]);
      assert pieces[0] == key + " \"" + Escape(text[..n]) && pieces[1..] == Pieces("", text[n + 1..]);
      EndsBlankAfter(text);
      var fuzzy := RestParses(before, text[n + 1..]);
      next := if LastBlank(text[n + 1..]) && !Held(before) then None else Some(before.(fuzzy := fuzzy));
    }
  }

  lemma NoRawEnd(text: string)
    requires ToRawEnd(text) == |text|
    ensures !EndsBlank(text) && Quotable(text)
  {
    hide IsBoundary;
    BeforeRawEndQuotable(text, |text|);
    assert text[..|text|] == text;
  }

  lemma WholeFieldParses(s: State, key: string, text: string) returns (next: State)
    requires IsHead(key) && !Translated(s.fields)
    ensures ParseLine(s, key + " \"" + Escape(text) + "\"") == Some(next)
    ensures next.entries == s.entries && !Translated(next.fields) && Held(next)
  {
    hide Strip, KeywordOf, Unquote, Escape, Translated, Find, Put, IsForm;
    HeadKey(key);
    FieldLineReads(key, text);
    assert key + " \"" + Escape(text) + "\"" == key + " " + PoString(text) by {
      assert " \"" == " " + "\"";
    }
    PutFinds(s.fields, key, Unquote(PoString(text)));
    next := s.(fields := Put(s.fields, key, Unquote(PoString(text))), current := Some(key));
  }

  lemma FirstPieceParses(s: State, key: string, text: string) returns (next: State)
    requires IsHead(key) && !Translated(s.fields) && s.current.Some?
    ensures ParseLine(s, key + " \"" + Escape(text)) == Some(next)
    ensures next.entries == s.entries && !Translated(next.fields) && next.current.Some?
    ensures Held(next) <==> Held(s) || EndsInQuote(text)
  {
    hide Strip, KeywordOf, Unquote, Escape, Translated, Find, Put, IsForm, EndsInQuote;
    HeadKey(key);
    FirstLineReads(key, text);
    var keyword := KeywordOf(Strip(key + " \"" + Escape(text)));
    if EndsInQuote(text) {
      PutFinds(s.fields, key, Unquote(keyword.value.1));
      next := s.(fields := Put(s.fields, key, Unquote(keyword.value.1)), current := Some(key));
    } else {
      next := s;
    }
  }

  // The lines of some fields, in order.
  function HeadLines(fields: seq<(string, string)>): seq<string> {
    if fields == [] then [] else [fields[0].0 + " " + PoString(fields[0].1)] + HeadLines(fields[1..])
  }

  function HeadPieces(fields: seq<(string, string)>): seq<string> {
    if fields == [] then [] else Pieces(fields[0].0 + " \"", fields[0].1) + HeadPieces(fields[1..])
  }

  // One of the texts ends blank, and the parser has by then not taken any line
  // of them for a field.
  ghost predicate LeavesStrayQuote(fields: seq<(string, string)>) {
    exists k | 0 <= k < |fields| :: StrayAt(fields, k)
  }

  ghost predicate StrayAt(fields: seq<(string, string)>, k: nat)
    requires k < |fields|
  {
    EndsBlank(fields[k].1) && forall j :: 0 <= j <= k ==> !Reads(fields[j].1)
  }

  lemma StrayFirst(fields: seq<(string, string)>)
    requires fields != []
    ensures LeavesStrayQuote(fields) <==>
      !Reads(fields[0].1) && (EndsBlank(fields[0].1) || LeavesStrayQuote(fields[1..]))
  {
    hide EndsBlank, Reads;
    var rest := fields[1..];
    if LeavesStrayQuote(fields) {
      var k :| 0 <= k < |fields| && StrayAt(fields, k);
      assert k > 0 ==> StrayAt(rest, k - 1);
    }
    if !Reads(fields[0].1) {
      if EndsBlank(fields[0].1) {
        assert StrayAt(fields, 0);
      } else if LeavesStrayQuote(rest) {
        var k :| 0 <= k < |rest| && StrayAt(rest, k);
        assert forall j :: 0 <= j <= k ==> rest[j] == fields[j + 1];
        assert StrayAt(fields, k + 1);
      }
    }
  }

  lemma {:induction false} HeadsParse(s: State, fields: seq<(string, string)>) returns (next: Option<State>)
    requires forall i :: 0 <= i < |fields| ==> IsHead(fields[i].0)
    requires !Translated(s.fields) && s.current.Some?
    ensures ParseLines(s, HeadPieces(fields)) == next
    ensures next.None? <==> !Held(s) && LeavesStrayQuote(fields)
    ensures next.Some? ==>
      next.value.entries == s.entries && !Translated(next.value.fields) && next.value.current.Some?
    decreases |fields|
  {
    hide ParseLine, Translated, Held, Reads, EndsBlank, LeavesStrayQuote, Pieces, IsHead;
    if fields == [] {
      next := Some(s);
      assert !LeavesStrayQuote(fields) by { NothingStray(); }
    } else {
      StrayFirst(fields);
      next := FieldOnLines(s, fields[0].0, fields[0].1);
      ParseConcat(s, Pieces(fields[0].0 + " \"", fields[0].1), HeadPieces(fields[1..]));
      if next.Some? {
        next := HeadsParse(next.value, fields[1..]);
      }
    }
  }

  lemma NothingStray()
    ensures !LeavesStrayQuote([])
  {
  }

  // ------------------------------------------------------------ the template

  // A message of the template, with the places that use it, in order.
  datatype TemplateMessage = TemplateMessage(context: Option<string>, id: string, plural: Option<string>, places: seq<string>)

  // The fixed texts of the template: the comments and fields of its header,
  // and the note on messages with placeholders.
  datatype Frame = Frame(comments: seq<string>, fields: Parts, note: string)

  ghost predicate PlainFrame(frame: Frame) {
    && (forall i :: 0 <= i < |frame.comments| ==> IsComment(frame.comments[i]))
    && QuotableParts(frame.fields) && Whole(frame.fields) != ""
    && IsComment(frame.note)
  }

  function HeaderLines(frame: Frame): seq<string> {
    frame.comments + ["msgid " + PoString(""), "msgstr " + PoString("")] + QuotedLines(frame.fields)
  }

  function Notes(frame: Frame, m: TemplateMessage): seq<string> {
    (if '{' in m.id then [frame.note] else []) + ["#: " + Join(m.places, " ")]
  }

  function Heading(m: TemplateMessage): seq<(string, string)> {
    (if m.context.Some? then [("msgctxt", m.context.value)] else [])
    + [("msgid", m.id)]
    + (if m.plural.Some? then [("msgid_plural", m.plural.value)] else [])
  }

  // The forms are empty.
  function FormKeys(m: TemplateMessage): seq<string> {
    if m.plural.None? then ["msgstr"] else [NumberedKey(0), NumberedKey(1)]
  }

  function EmptyForms(keys: seq<string>): seq<string> {
    if keys == [] then [] else [keys[0] + " " + PoString("")] + EmptyForms(keys[1..])
  }

  function TemplateLines(frame: Frame, m: TemplateMessage): seq<string> {
    Notes(frame, m) + HeadLines(Heading(m)) + EmptyForms(FormKeys(m))
  }

  // `template_text`: the blocks, joined with an empty line between them.
  function TemplateText(frame: Frame, messages: seq<TemplateMessage>): string {
    Join([LinesText(HeaderLines(frame))] + Blocks(frame, messages), "\n")
  }

  function Blocks(frame: Frame, messages: seq<TemplateMessage>): seq<string> {
    if messages == [] then [] else [Join(TemplateLines(frame, messages[0]), "\n") + "\n"] + Blocks(frame, messages[1..])
  }

  // The places are file names, on one line.
  predicate PlainPlaces(m: TemplateMessage) {
    OneLine("#: " + Join(m.places, " "))
  }

  // The header as a translator's file has it.
  function HeaderMessage(frame: Frame): Message {
    Message(frame.comments, None, [""], None, false, [Form(0, [""] + frame.fields)])
  }

  lemma HeaderIsPrintable(frame: Frame)
    requires PlainFrame(frame)
    ensures Printable(HeaderMessage(frame))
  {
  }

  lemma {:induction false} JoinedLines(lines: seq<string>)
    requires lines != []
    ensures Join(lines, "\n") + "\n" == LinesText(lines)
  {
    if |lines| == 1 {
      assert lines[1..] == [] && lines[0] + "\n" + "" == lines[0] + "\n";
    } else {
      JoinedLines(lines[1..]);
      assert lines[0] + "\n" + Join(lines[1..], "\n") + "\n" == lines[0] + "\n" + (Join(lines[1..], "\n") + "\n");
    }
  }

  lemma FieldsLinesOne(key: string, parts: Parts, rest: seq<(string, Parts)>)
    ensures FieldsLines([(key, parts)] + rest) == [key + " " + PoString(parts[0])] + QuotedLines(parts[1..]) + FieldsLines(rest)
  {
  }

  lemma HeaderLinesMatch(frame: Frame)
    requires PlainFrame(frame)
    ensures Printable(HeaderMessage(frame)) && MessageLines(HeaderMessage(frame)) == HeaderLines(frame)
  {
    hide Quotable, PoString;
    HeaderIsPrintable(frame);
    var m := HeaderMessage(frame);
    var text: Parts := [""] + frame.fields;
    assert PrintedForms(m, m.forms) == [("msgstr", text)] by { assert m.forms[1..] == []; }
    assert Printed(m) == [("msgid", [""])] + [("msgstr", text)];
    FieldsLinesOne("msgid", [""], [("msgstr", text)]);
    FieldsLinesOne("msgstr", text, []);
    assert [("msgstr", text)] + [] == [("msgstr", text)];
    assert text[1..] == frame.fields;
    assert "msgid" + " " == "msgid " && "msgstr" + " " == "msgstr ";
  }

  lemma HeaderPair(frame: Frame)
    requires Whole(frame.fields) != ""
    ensures Expected(HeaderMessage(frame)) == [("", Whole(frame.fields))]
  {
    hide IsFuzzy;
    var m := HeaderMessage(frame);
    var text := [""] + frame.fields;
    assert m.forms[1..] == [];
    assert text[1..] == frame.fields && Whole(text) == "" + Whole(frame.fields) == Whole(frame.fields);
    assert TextsOf(SortForms(m.forms)) == [Whole(frame.fields)];
    assert Whole([""]) == "" by { assert [""][1..] == []; }
    assert OriginalOf(None, "", None) == "";
  }

  // What the template's messages come to, line by line.
  function MessagePieces(frame: Frame, m: TemplateMessage): seq<string> {
    Notes(frame, m) + HeadPieces(Heading(m)) + EmptyForms(FormKeys(m))
  }

  function MorePieces(frame: Frame, messages: seq<TemplateMessage>): seq<string> {
    if messages == [] then [] else [""] + MessagePieces(frame, messages[0]) + MorePieces(frame, messages[1..])
  }

  function MoreText(frame: Frame, messages: seq<TemplateMessage>): string {
    if messages == [] then "" else "\n" + LinesText(TemplateLines(frame, messages[0])) + MoreText(frame, messages[1..])
  }

  lemma {:induction false} BlocksJoined(frame: Frame, first: string, messages: seq<TemplateMessage>)
    ensures Join([first] + Blocks(frame, messages), "\n") == first + MoreText(frame, messages)
    decreases |messages|
  {
    hide TemplateLines, LinesText;
    if messages == [] {
      assert [first] + [] == [first] && first + "" == first;
    } else {
      var block := LinesText(TemplateLines(frame, messages[0]));
      NotEmptyLines(frame, messages[0]);
      JoinedLines(TemplateLines(frame, messages[0]));
      BlocksJoined(frame, block, messages[1..]);
      var rest := Blocks(frame, messages);
      assert ([first] + rest)[1..] == rest && rest == [block] + Blocks(frame, messages[1..]);
      assert first + "\n" + (block + MoreText(frame, messages[1..])) == first + ("\n" + block + MoreText(frame, messages[1..]));
    }
  }

  lemma NotEmptyLines(frame: Frame, m: TemplateMessage)
    ensures TemplateLines(frame, m) != []
  {
  }

  lemma FieldLineText(key: string, text: string, tail: string)
    ensures key + " " + PoString(text) + "\n" + tail == key + " \"" + Escape(text) + "\"" + "\n" + tail
  {
    hide Escape;
    assert " " + ("\"" + Escape(text) + "\"") == " \"" + Escape(text) + "\"";
  }

  lemma HeadLinesFirst(fields: seq<(string, string)>)
    requires fields != []
    ensures LinesText(HeadLines(fields)) == fields[0].0 + " " + PoString(fields[0].1) + "\n" + LinesText(HeadLines(fields[1..]))
  {
    hide PoString;
    assert HeadLines(fields)[1..] == HeadLines(fields[1..]);
  }

  lemma {:induction false} HeadLinesSplit(fields: seq<(string, string)>, tail: string)
    requires forall i :: 0 <= i < |fields| ==> IsHead(fields[i].0)
    ensures SplitLines(LinesText(HeadLines(fields)) + tail) == HeadPieces(fields) + SplitLines(tail)
  {
    hide SplitLines, Pieces, IsHead, Escape;
    if fields == [] {
      assert "" + tail == tail;
    } else {
      var (key, text) := fields[0];
      var after := LinesText(HeadLines(fields[1..])) + tail;
      HeadKey(key);
      HeadLinesSplit(fields[1..], tail);
      PiecesSplit(key + " \"", text, after);
      FieldLineText(key, text, after);
      HeadLinesFirst(fields);
      hide PoString, HeadLines, LinesText;
      var line := key + " " + PoString(text) + "\n";
      assert line + LinesText(HeadLines(fields[1..])) + tail == line + after;
    }
  }

  lemma HeadingKeys(m: TemplateMessage)
    ensures forall i :: 0 <= i < |Heading(m)| ==> IsHead(Heading(m)[i].0)
  {
  }

  lemma {:induction false} EmptyFormsAreLines(keys: seq<string>)
    requires forall i :: 0 <= i < |keys| ==> IsKey(keys[i])
    ensures forall i :: 0 <= i < |EmptyForms(keys)| ==> OneLine(EmptyForms(keys)[i])
  {
    hide IsKey, OneLine;
    if keys != [] {
      KeyIsOneLine(keys[0]);
      QuotedOneLine("");
      SpaceQuoteIsOneLine();
      BothOneLine(keys[0], " ");
      BothOneLine(keys[0] + " ", PoString(""));
      EmptyFormsAreLines(keys[1..]);
    }
  }

  lemma FormKeysAreKeys(m: TemplateMessage)
    ensures FormKeys(m) != [] && forall i :: 0 <= i < |FormKeys(m)| ==> IsKey(FormKeys(m)[i]) && IsForm(FormKeys(m)[i])
  {
    hide Digits;
    forall n: nat ensures IsForm(NumberedKey(n)) {
      assert NumberedKey(n)[..6] == "msgstr";
    }
  }

  lemma NotesAreComments(frame: Frame, m: TemplateMessage)
    requires PlainFrame(frame) && PlainPlaces(m)
    ensures forall i :: 0 <= i < |Notes(frame, m)| ==> IsComment(Notes(frame, m)[i])
  {
    assert ("#: " + Join(m.places, " "))[0] == '#';
  }

  lemma {:induction false} MessageSplits(frame: Frame, m: TemplateMessage, tail: string)
    requires PlainFrame(frame) && PlainPlaces(m)
    ensures SplitLines(LinesText(TemplateLines(frame, m)) + tail) == MessagePieces(frame, m) + SplitLines(tail)
  {
    hide SplitLines, LinesText, Notes, Heading, FormKeys, OneLine, IsKey, IsForm, PlainFrame, PlainPlaces;
    var notes, heads, forms := Notes(frame, m), HeadLines(Heading(m)), EmptyForms(FormKeys(m));
    NotesAreComments(frame, m);
    HeadingKeys(m);
    FormKeysAreKeys(m);
    EmptyFormsAreLines(FormKeys(m));
    LinesTextConcat(notes + heads, forms);
    LinesTextConcat(notes, heads);
    var afterNotes := LinesText(heads) + (LinesText(forms) + tail);
    assert LinesText(notes + heads + forms) + tail == LinesText(notes) + afterNotes;
    SplitAfterLines(notes, afterNotes);
    HeadLinesSplit(Heading(m), LinesText(forms) + tail);
    SplitAfterLines(forms, tail);
  }

  lemma {:induction false} MoreSplits(frame: Frame, messages: seq<TemplateMessage>)
    requires PlainFrame(frame) && forall i :: 0 <= i < |messages| ==> PlainPlaces(messages[i])
    ensures SplitLines(MoreText(frame, messages)) == MorePieces(frame, messages)
  {
    hide SplitLines, LinesText, TemplateLines, MessagePieces, PlainFrame, PlainPlaces;
    if messages == [] {
      NoLines();
    } else {
      var block, rest := LinesText(TemplateLines(frame, messages[0])), MoreText(frame, messages[1..]);
      EmptyIsOneLine();
      QuoteAndNewline();
      SplitFirstLine("", '\n', block + rest);
      assert "\n" + block + rest == "" + ['\n'] + (block + rest);
      MessageSplits(frame, messages[0], rest);
      MoreSplits(frame, messages[1..]);
    }
  }

  lemma NoLines()
    ensures SplitLines("") == []
  {
  }

  lemma {:induction false} TemplateSplits(frame: Frame, messages: seq<TemplateMessage>)
    requires PlainFrame(frame) && forall i :: 0 <= i < |messages| ==> PlainPlaces(messages[i])
    ensures SplitLines(TemplateText(frame, messages)) == HeaderLines(frame) + MorePieces(frame, messages)
  {
    hide SplitLines, LinesText, HeaderLines, MessageLines, PlainFrame, PlainPlaces, OneLine, Printable;
    HeaderLinesMatch(frame);
    MessageLinesAreLines(HeaderMessage(frame));
    BlocksJoined(frame, LinesText(HeaderLines(frame)), messages);
    SplitAfterLines(HeaderLines(frame), MoreText(frame, messages));
    MoreSplits(frame, messages);
  }

  // ------------------------------------------------------ parsing the template

  // A form is empty, so the message gives no pair.
  lemma {:induction false} EmptyFormGivesNothing(fields: Fields, key: string)
    requires IsForm(key) && (key, "") in fields
    ensures "" in FormsOf(SortFields(fields))
  {
    hide FormIndex, IsForm;
    var first, sorted := fields[0], SortFields(fields[1..]);
    InsertKeepsForms(first, sorted, "");
    if first != (key, "") {
      assert (key, "") in fields[1..];
      EmptyFormGivesNothing(fields[1..], key);
    }
  }

  lemma {:induction false} InsertKeepsForms(field: (string, string), sorted: Fields, value: string)
    ensures value in FormsOf(sorted) ==> value in FormsOf(InsertField(field, sorted))
    ensures IsForm(field.0) ==> field.1 in FormsOf(InsertField(field, sorted))
  {
    hide FormIndex, IsForm;
    if sorted != [] && FormIndex(field.0) > FormIndex(sorted[0].0) {
      InsertKeepsForms(field, sorted[1..], value);
    } else {
      assert ([field] + sorted)[1..] == sorted;
    }
  }

  lemma {:induction false} FormsParseEmpty(s: State, keys: seq<string>) returns (next: State)
    requires keys != [] && forall i :: 0 <= i < |keys| ==> IsKey(keys[i]) && IsForm(keys[i])
    ensures ParseLines(s, EmptyForms(keys)) == Some(next)
    ensures next.entries == s.entries && Translated(next.fields) && next.current.Some? && PairOf(next.fields, next.fuzzy) == []
    decreases |keys|
  {
    hide Strip, KeywordOf, Translated, IsKey, IsForm, PairOf, PoString, Unquote, Put;
    var key := keys[0];
    FieldLineReads(key, "");
    QuotingReadsBack("");
    FormIsNoHead(key);
    PutFinds(s.fields, key, "");
    next := s.(fields := Put(s.fields, key, ""), current := Some(key));
    assert ParseLine(s, key + " " + PoString("")) == Some(next);
    if |keys| == 1 {
      assert EmptyForms(keys[1..]) == [];
      NoPairOfEmptyForm(next, key);
    } else {
      next := FormsParseEmpty(next, keys[1..]);
    }
  }

  lemma FormIsNoHead(key: string)
    requires IsForm(key)
    ensures key != "msgctxt" && key != "msgid"
  {
    assert key[3] == 's';
  }

  lemma NoPairOfEmptyForm(s: State, key: string)
    requires IsForm(key) && (key, "") in s.fields
    ensures PairOf(s.fields, s.fuzzy) == []
  {
    EmptyFormGivesNothing(s.fields, key);
  }

  lemma {:induction false} MessageOnLines(s: State, frame: Frame, m: TemplateMessage) returns (next: Option<State>)
    requires PlainFrame(frame) && PlainPlaces(m) && s.fields == [] && s.current.Some?
    ensures ParseLines(s, MessagePieces(frame, m)) == next
    ensures next.None? <==> LeavesStrayQuote(Heading(m))
    ensures next.Some? ==>
      && next.value.entries == s.entries && Translated(next.value.fields) && next.value.current.Some?
      && PairOf(next.value.fields, next.value.fuzzy) == []
  {
    hide Notes, Heading, HeadPieces, FormKeys, EmptyForms, ParseLines, PairOf, LeavesStrayQuote, MarksFuzzy, Strip, PlainFrame, PlainPlaces, IsForm, IsKey;
    var notes, heads, forms := Notes(frame, m), HeadPieces(Heading(m)), EmptyForms(FormKeys(m));
    NotesAreComments(frame, m);
    CommentsParse(s, notes);
    ParseConcat(s, notes + heads, forms);
    ParseConcat(s, notes, heads);
    var noted := ParseLines(s, notes).value;
    HeadingKeys(m);
    next := HeadsParse(noted, Heading(m));
    if next.Some? {
      FormKeysAreKeys(m);
      var last := FormsParseEmpty(next.value, FormKeys(m));
      next := Some(last);
    }
  }

  ghost predicate SomeLeavesStrayQuote(messages: seq<TemplateMessage>) {
    exists i | 0 <= i < |messages| :: LeavesStrayQuote(Heading(messages[i]))
  }

  lemma SomeFirst(messages: seq<TemplateMessage>)
    requires messages != []
    ensures SomeLeavesStrayQuote(messages) <==> LeavesStrayQuote(Heading(messages[0])) || SomeLeavesStrayQuote(messages[1..])
  {
    hide LeavesStrayQuote, Heading;
    if SomeLeavesStrayQuote(messages) {
      var i :| 0 <= i < |messages| && LeavesStrayQuote(Heading(messages[i]));
      assert i > 0 ==> messages[1..][i - 1] == messages[i];
    }
    if SomeLeavesStrayQuote(messages[1..]) {
      var i :| 0 <= i < |messages[1..]| && LeavesStrayQuote(Heading(messages[1..][i]));
      assert messages[i + 1] == messages[1..][i];
    }
  }

  lemma {:induction false} MoreParses(s: State, frame: Frame, messages: seq<TemplateMessage>) returns (last: Option<State>)
    requires PlainFrame(frame) && forall i :: 0 <= i < |messages| ==> PlainPlaces(messages[i])
    requires Translated(s.fields) && s.current.Some?
    ensures ParseLines(s, MorePieces(frame, messages)) == last
    ensures last.None? <==> SomeLeavesStrayQuote(messages)
    ensures last.Some? ==> Finish(last.value).entries == Finish(s).entries
    decreases |messages|
  {
    hide MessagePieces, LeavesStrayQuote, SomeLeavesStrayQuote, PlainFrame, PlainPlaces, Translated, PairOf, ParseLine;
    if messages == [] {
      last := Some(s);
      assert !SomeLeavesStrayQuote(messages) by { NoMessageStray(); }
    } else {
      SomeFirst(messages);
      BlankLineParses(s);
      var done, pieces, rest := Finish(s), MessagePieces(frame, messages[0]), MorePieces(frame, messages[1..]);
      assert [""] + pieces + rest == [""] + (pieces + rest) && ([""] + (pieces + rest))[1..] == pieces + rest;
      ParseConcat(done, pieces, rest);
      last := MessageOnLines(done, frame, messages[0]);
      if last.Some? {
        assert Finish(last.value).entries == done.entries + [] == done.entries;
        last := MoreParses(last.value, frame, messages[1..]);
      }
    }
  }

  lemma NoMessageStray()
    ensures !SomeLeavesStrayQuote([])
  {
  }

  // The message with nothing translated, as a translator's file has it.
  function Untranslated(frame: Frame, m: TemplateMessage): Message {
    Message(
      if '{' in m.id then [frame.note, "#: " + Join(m.places, " ")] else ["#: " + Join(m.places, " ")],
      if m.context.Some? then Some([m.context.value]) else None,
      [m.id],
      if m.plural.Some? then Some([m.plural.value]) else None,
      m.plural.Some?,
      if m.plural.Some? then [Form(0, [""]), Form(1, [""])] else [Form(0, [""])])
  }

  function UntranslatedAll(frame: Frame, messages: seq<TemplateMessage>): (all: seq<Message>)
    ensures |all| == |messages|
  {
    if messages == [] then [] else [Untranslated(frame, messages[0])] + UntranslatedAll(frame, messages[1..])
  }

  lemma OneFieldLines(key: string, text: string, rest: seq<(string, Parts)>)
    ensures FieldsLines([(key, [text])] + rest) == [key + " " + PoString(text)] + FieldsLines(rest)
  {
    hide PoString;
    FieldsLinesOne(key, [text], rest);
    assert [text][1..] == [];
  }

  lemma {:induction false} TemplateLinesMatch(frame: Frame, m: TemplateMessage)
    ensures TemplateLines(frame, m) == MessageLines(Untranslated(frame, m))
  {
    hide PoString, FieldsLines, Notes;
    var message := Untranslated(frame, m);
    FormLinesMatch(m, message);
    var forms := PrintedForms(message, message.forms);
    var plural: seq<(string, Parts)> := if m.plural.Some? then [("msgid_plural", [m.plural.value])] else [];
    var fromId: seq<(string, Parts)> := [("msgid", [m.id])] + (plural + forms);
    if m.plural.Some? {
      OneFieldLines("msgid_plural", m.plural.value, forms);
    } else {
      assert plural + forms == forms;
    }
    OneFieldLines("msgid", m.id, plural + forms);
    if m.context.Some? {
      OneFieldLines("msgctxt", m.context.value, fromId);
      assert Printed(message) == [("msgctxt", [m.context.value])] + fromId;
    } else {
      assert Printed(message) == fromId;
    }
    HeadLinesMatch(m);
    assert Notes(frame, m) == message.comments by { NotesMatch(frame, m); }
  }

  lemma NotesMatch(frame: Frame, m: TemplateMessage)
    ensures Notes(frame, m) == Untranslated(frame, m).comments
  {
  }

  lemma HeadLinesMatch(m: TemplateMessage)
    ensures HeadLines(Heading(m)) ==
      (if m.context.Some? then ["msgctxt" + " " + PoString(m.context.value)] else [])
      + ["msgid" + " " + PoString(m.id)]
      + (if m.plural.Some? then ["msgid_plural" + " " + PoString(m.plural.value)] else [])
  {
    hide PoString, HeadLines;
    var plural: seq<(string, string)> := if m.plural.Some? then [("msgid_plural", m.plural.value)] else [];
    var fromId: seq<(string, string)> := [("msgid", m.id)] + plural;
    NoHeadLines();
    if m.plural.Some? {
      OneHeadLine("msgid_plural", m.plural.value, []);
      assert plural + [] == plural;
    }
    OneHeadLine("msgid", m.id, plural);
    if m.context.Some? {
      OneHeadLine("msgctxt", m.context.value, fromId);
      assert Heading(m) == [("msgctxt", m.context.value)] + fromId;
    } else {
      assert Heading(m) == fromId;
    }
  }

  lemma NoHeadLines()
    ensures HeadLines([]) == []
  {
  }

  lemma OneHeadLine(key: string, text: string, rest: seq<(string, string)>)
    ensures HeadLines([(key, text)] + rest) == [key + " " + PoString(text)] + HeadLines(rest)
  {
    hide PoString;
    assert ([(key, text)] + rest)[1..] == rest;
  }

  lemma FormLinesMatch(m: TemplateMessage, message: Message)
    requires message.numbered == m.plural.Some?
    requires message.forms == if m.plural.Some? then [Form(0, [""]), Form(1, [""])] else [Form(0, [""])]
    ensures FieldsLines(PrintedForms(message, message.forms)) == EmptyForms(FormKeys(m))
  {
    hide PoString, NumberedKey, FieldsLines;
    NumberedKeys(message);
    NoFieldsLines();
    var forms := message.forms;
    if m.plural.Some? {
      var first: (string, Parts), second: (string, Parts) := (NumberedKey(0), [""]), (NumberedKey(1), [""]);
      assert forms[1..] == [Form(1, [""])] && forms[1..][1..] == [];
      assert PrintedForms(message, forms[1..]) == [second] + [];
      assert PrintedForms(message, forms) == [first] + ([second] + []);
      OneFieldLines(NumberedKey(0), "", [second] + []);
      OneFieldLines(NumberedKey(1), "", []);
      assert [NumberedKey(0), NumberedKey(1)][1..] == [NumberedKey(1)] && [NumberedKey(1)][1..] == [];
    } else {
      assert forms[1..] == [];
      assert PrintedForms(message, forms) == [("msgstr", [""])] + [];
      OneFieldLines("msgstr", "", []);
      assert ["msgstr"][1..] == [];
    }
  }

  lemma NoFieldsLines()
    ensures FieldsLines([]) == []
  {
  }

  lemma NumberedKeys(message: Message)
    ensures forall form: Form :: message.numbered ==> FormKey(message, form) == NumberedKey(form.index)
  {
  }

  // The template is the file of all the messages, with nothing translated: the
  // header, then each message with its places, its context, its ids and as many
  // empty forms as it needs.
  lemma {:induction false} TemplateIsFile(frame: Frame, messages: seq<TemplateMessage>)
    requires PlainFrame(frame)
    ensures TemplateText(frame, messages) == FileText([HeaderMessage(frame)] + UntranslatedAll(frame, messages))
  {
    hide TemplateLines, MessageLines, LinesText, PlainFrame, FileText, HeaderLines;
    HeaderLinesMatch(frame);
    BlocksJoined(frame, LinesText(HeaderLines(frame)), messages);
    var all := [HeaderMessage(frame)] + UntranslatedAll(frame, messages);
    FileTextFirst(all);
    assert all[1..] == UntranslatedAll(frame, messages);
    MoreIsFile(frame, messages);
  }

  lemma {:induction false} MoreIsFile(frame: Frame, messages: seq<TemplateMessage>)
    ensures MoreText(frame, messages) == if messages == [] then "" else "\n" + FileText(UntranslatedAll(frame, messages))
  {
    hide TemplateLines, MessageLines, LinesText, FileText;
    if messages != [] {
      TemplateLinesMatch(frame, messages[0]);
      MoreIsFile(frame, messages[1..]);
      var all := UntranslatedAll(frame, messages);
      FileTextFirst(all);
      assert all[1..] == UntranslatedAll(frame, messages[1..]);
      assert |messages| == 1 <==> messages[1..] == [];
      var first := LinesText(MessageLines(all[0]));
      if |messages| == 1 {
        assert "\n" + first + "" == "\n" + (first + "");
      } else {
        var rest := FileText(all[1..]);
        assert "\n" + first + ("\n" + rest) == "\n" + (first + ("\n" + rest));
      }
    }
  }

  // The template holds no translation yet. Parsing it gives its header and
  // nothing else, whatever line ends the messages hold, unless one of them
  // leaves a stray quote: then, and only then, it raises.
  lemma {:induction false} TemplateGivesItsHeader(frame: Frame, messages: seq<TemplateMessage>)
    requires PlainFrame(frame) && forall i :: 0 <= i < |messages| ==> PlainPlaces(messages[i])
    ensures ParseSpec(TemplateText(frame, messages))
         == if SomeLeavesStrayQuote(messages) then None else Some([("", Whole(frame.fields))])
  {
    hide SplitLines, ParseLines, TemplateText, HeaderLines, MessageLines, MorePieces, PlainFrame, PlainPlaces, WellFormed, AllQuotable,
      SomeLeavesStrayQuote, IsFuzzy, Translated, Expected, PairOf;
    var header := HeaderMessage(frame);
    TemplateSplits(frame, messages);
    HeaderLinesMatch(frame);
    var current := MessageParses(Start(), header);
    MessageGivesPair(header);
    HeaderFields(frame);
    HeaderPair(frame);
    ParseConcat(Start(), HeaderLines(frame), MorePieces(frame, messages));
    var held := State([], Values(Printed(header)), current, IsFuzzy(header));
    var last := MoreParses(held, frame, messages);
    assert [] + Expected(header) == Expected(header);
  }

  lemma HeaderFields(frame: Frame)
    requires PlainFrame(frame)
    ensures Whole(frame.fields) != ""
  {
  }

  // Texts that quoting keeps on one line never raise.
  lemma {:induction false} QuotableNeverRaises(fields: seq<(string, string)>)
    requires fields != [] && Quotable(fields[0].1)
    ensures !LeavesStrayQuote(fields)
  {
    var text := fields[0].1;
    assert ToRawEnd(text) == |text|;
    assert Reads(fields[0].1);
    StrayFirst(fields);
  }

  // A message whose id ends in a vertical tab.
  const BROKEN := TemplateMessage(None, "a\U{0B}", None, ["app.rs"])

  lemma BrokenTemplateRaises(frame: Frame)
    requires PlainFrame(frame)
    ensures ParseSpec(TemplateText(frame, [BROKEN])) == None
  {
    hide ParseSpec, TemplateText, PlainFrame, OneLine;
    SomeStrayMessages();
    assert Heading(BROKEN) == [("msgid", "a\U{0B}")];
    assert SomeLeavesStrayQuote([BROKEN]) by { assert LeavesStrayQuote(Heading([BROKEN][0])); }
    assert PlainPlaces(BROKEN) by { BrokenPlaces(); }
    TemplateGivesItsHeader(frame, [BROKEN]);
  }

  lemma BrokenPlaces()
    ensures OneLine("#: " + Join(["app.rs"], " "))
  {
  }

  // A line end alone does not do it: it must leave only white space before the
  // closing quote, with no field read before, and no quote before the line end.
  lemma SomeStrayMessages()
    ensures LeavesStrayQuote([("msgid", "a\U{0B}")])
    ensures LeavesStrayQuote([("msgctxt", "c\U{0B} "), ("msgid", "a")])
    ensures !LeavesStrayQuote([("msgid", "a\U{0B}b")])
    ensures !LeavesStrayQuote([("msgid", "a"), ("msgid_plural", "as\U{0B}")])
    ensures !LeavesStrayQuote([("msgid", "a\"\U{0B}")])
  {
    hide LeavesStrayQuote, EndsBlank, Reads;
    TextsOfMessages();
    StrayFirst([("msgid", "a\U{0B}")]);
    StrayFirst([("msgctxt", "c\U{0B} "), ("msgid", "a")]);
    StrayFirst([("msgid", "a\U{0B}b")]);
    StrayFirst([("msgid", "a"), ("msgid_plural", "as\U{0B}")]);
    StrayFirst([("msgid", "a\"\U{0B}")]);
    assert [("msgid", "a\U{0B}b")][1..] == [];
    NothingStray();
  }

  lemma TextsOfMessages()
    ensures EndsBlank("a\U{0B}") && !Reads("a\U{0B}")
    ensures EndsBlank("c\U{0B} ") && !Reads("c\U{0B} ")
    ensures !EndsBlank("a\U{0B}b") && Reads("a")
    ensures Reads("a\"\U{0B}")
  {
    hide EndsBlank, Reads, IsBlank, EndsInQuote, IsRawEnd;
    PlainLetters();
    BreakAt("a", "");
    BreakAt("c", " ");
    BreakAt("a", "b");
    BreakAt("a\"", "");
    assert "a\U{0B}" == "a" + "\U{0B}" + "" && "c\U{0B} " == "c" + "\U{0B}" + " ";
    assert "a\U{0B}b" == "a" + "\U{0B}" + "b" && "a\"\U{0B}" == "a\"" + "\U{0B}" + "";
  }

  lemma PlainLetters()
    ensures Reads("a") && IsBlank("") && IsBlank(" ") && !IsBlank("b")
    ensures !EndsInQuote("a") && !EndsInQuote("c") && EndsInQuote("a\"")
    ensures forall c :: c in ['a', 'b', 'c', ' ', '"'] ==> !IsRawEnd(c)
  {
    hide IsRawEnd, IsRawSpace;
    PlainCharacters();
    assert ToRawEnd("a"[1..]) == 0;
    assert !IsBlank("b") by { assert !IsRawSpace("b"[0]); }
  }

  lemma PlainCharacters()
    ensures forall c :: c in ['a', 'b', 'c', ' ', '"'] ==> !IsRawEnd(c)
    ensures !IsRawSpace('a') && !IsRawSpace('b') && !IsRawSpace('c') && IsRawSpace(' ') && !IsRawSpace('"')
  {
  }

  lemma BreakAt(before: string, after: string)
    requires forall c :: c in before + after ==> !IsRawEnd(c)
    ensures var text := before + "\U{0B}" + after;
      (EndsBlank(text) <==> IsBlank(after)) && (Reads(text) <==> EndsInQuote(before))
  {
    hide IsBlank, EndsInQuote, IsRawEnd;
    assert IsRawEnd('\U{0B}') by { VerticalTab(); }
    var text, n := before + "\U{0B}" + after, |before|;
    assert text[n] == '\U{0B}' && text[n + 1..] == after && text[..n] == before;
    forall k | 0 <= k < |text| && k != n ensures !IsRawEnd(text[k]) {
      assert text[k] in before + after;
    }
    assert ToRawEnd(text) == n;
    assert BlankAfter(text, n) <==> IsBlank(after);
  }

  lemma VerticalTab()
    ensures IsRawEnd('\U{0B}')
  {
  }

  // ------------------------------------------------------ when parsing raises

  predicate IsGap(raw: string) {
    var line := Strip(raw);
    line == "" || line[0] == '#'
  }

  function KeyOf(raw: string): Option<string> {
    if IsGap(raw) then None
    else
      match KeywordOf(Strip(raw))
      case None => None
      case Some((key, _)) => Some(key)
  }

  // It continues a field.
  predicate IsStray(raw: string) {
    !IsGap(raw) && KeywordOf(Strip(raw)).None? && Strip(raw)[0] == '"'
  }

  predicate EndsMessage(raw: string) {
    IsGap(raw) || KeyOf(raw) == Some("msgctxt") || KeyOf(raw) == Some("msgid")
  }

  // A form was read at line m, and no line since then has ended its message.
  ghost predicate FormFrom(lines: seq<string>, m: nat, n: nat)
    requires m < n <= |lines|
  {
    KeyOf(lines[m]).Some? && IsForm(KeyOf(lines[m]).value) && forall x :: m < x < n ==> !EndsMessage(lines[x])
  }

  ghost predicate FormHeld(lines: seq<string>, n: nat)
    requires n <= |lines|
  {
    exists m | 0 <= m < n :: FormFrom(lines, m, n)
  }

  ghost predicate LastKeyAt(lines: seq<string>, i: nat, n: nat)
    requires i < n <= |lines|
  {
    KeyOf(lines[i]).Some? && forall x :: i < x < n ==> KeyOf(lines[x]).None?
  }

  ghost predicate HasKey(lines: seq<string>, n: nat)
    requires n <= |lines|
  {
    exists i | 0 <= i < n :: LastKeyAt(lines, i, n)
  }

  // An empty line or a comment came after the last keyword line, while a form
  // of its message was held: the field of that line is gone.
  ghost predicate FieldGone(lines: seq<string>, n: nat)
    requires n <= |lines|
  {
    exists i, b | 0 <= i < b < n :: LastKeyAt(lines, i, n) && IsGap(lines[b]) && FormHeld(lines, b)
  }

  ghost predicate Tracks(lines: seq<string>, n: nat, s: State)
    requires n <= |lines|
  {
    && (Translated(s.fields) <==> FormHeld(lines, n))
    && (s.current.Some? <==> HasKey(lines, n))
    && (s.current.Some? && !Held(s) <==> FieldGone(lines, n))
  }

  lemma {:induction false} FormHeldNext(lines: seq<string>, n: nat)
    requires n < |lines|
    ensures FormHeld(lines, n + 1) <==>
      (KeyOf(lines[n]).Some? && IsForm(KeyOf(lines[n]).value)) || (FormHeld(lines, n) && !EndsMessage(lines[n]))
  {
    hide KeyOf, EndsMessage, IsForm;
    if FormHeld(lines, n + 1) {
      var m :| 0 <= m < n + 1 && FormFrom(lines, m, n + 1);
      assert m < n ==> FormFrom(lines, m, n);
    }
    if KeyOf(lines[n]).Some? && IsForm(KeyOf(lines[n]).value) {
      assert FormFrom(lines, n, n + 1);
    } else if FormHeld(lines, n) && !EndsMessage(lines[n]) {
      var m :| 0 <= m < n && FormFrom(lines, m, n);
      assert FormFrom(lines, m, n + 1);
    }
  }

  lemma HasKeyNext(lines: seq<string>, n: nat)
    requires n < |lines|
    ensures HasKey(lines, n + 1) <==> KeyOf(lines[n]).Some? || HasKey(lines, n)
  {
    hide KeyOf;
    if HasKey(lines, n + 1) {
      var i :| 0 <= i < n + 1 && LastKeyAt(lines, i, n + 1);
      assert i < n ==> LastKeyAt(lines, i, n);
    }
    if KeyOf(lines[n]).Some? {
      assert LastKeyAt(lines, n, n + 1);
    } else if HasKey(lines, n) {
      var i :| 0 <= i < n && LastKeyAt(lines, i, n);
      assert LastKeyAt(lines, i, n + 1);
    }
  }

  lemma {:induction false} FieldGoneNext(lines: seq<string>, n: nat)
    requires n < |lines|
    ensures FieldGone(lines, n + 1) <==>
      KeyOf(lines[n]).None? && (FieldGone(lines, n) || (HasKey(lines, n) && IsGap(lines[n]) && FormHeld(lines, n)))
  {
    hide KeyOf, IsGap, FormHeld;
    if FieldGone(lines, n + 1) {
      var i, b :| 0 <= i < b < n + 1 && LastKeyAt(lines, i, n + 1) && IsGap(lines[b]) && FormHeld(lines, b);
      assert LastKeyAt(lines, i, n);
    }
    if KeyOf(lines[n]).None? {
      if FieldGone(lines, n) {
        var i, b :| 0 <= i < b < n && LastKeyAt(lines, i, n) && IsGap(lines[b]) && FormHeld(lines, b);
        assert LastKeyAt(lines, i, n + 1);
      } else if HasKey(lines, n) && IsGap(lines[n]) && FormHeld(lines, n) {
        var i :| 0 <= i < n && LastKeyAt(lines, i, n);
        assert LastKeyAt(lines, i, n + 1);
      }
    }
  }

  // What one line does to what is held.
  lemma LineEffect(s: State, raw: string)
    ensures var next := ParseLine(s, raw);
      && (next.None? <==> IsStray(raw) && s.current.Some? && !Held(s))
      && (next.Some? ==>
            && (Translated(next.value.fields) <==>
                  (KeyOf(raw).Some? && IsForm(KeyOf(raw).value)) || (Translated(s.fields) && !EndsMessage(raw)))
            && (next.value.current.Some? <==> KeyOf(raw).Some? || s.current.Some?)
            && (Held(next.value) <==> KeyOf(raw).Some? || (Held(s) && !(IsGap(raw) && Translated(s.fields)))))
  {
    hide Strip, KeywordOf, Unquote, Find, Put, Translated, IsForm, PairOf, MarksFuzzy;
    NothingTranslated();
    var line := Strip(raw);
    if !IsGap(raw) {
      if KeywordOf(line).Some? {
        var (key, quoted) := KeywordOf(line).value;
        PutFinds(s.fields, key, Unquote(quoted));
        PutFinds([], key, Unquote(quoted));
        HeadIsNoForm(key);
      } else if IsStray(raw) && Held(s) {
        var value := Find(s.fields, s.current.value).value;
        PutKeeps(s.fields, s.current.value, value, value + Unquote(line));
      }
    }
  }

  lemma NothingTranslated()
    ensures !Translated([]) && forall key :: Find([], key).None?
  {
  }

  lemma HeadIsNoForm(key: string)
    ensures key == "msgctxt" || key == "msgid" ==> !IsForm(key)
  {
    if key == "msgctxt" || key == "msgid" {
      HeadKey(key);
    }
  }

  lemma {:induction false} PutKeeps(fields: Fields, key: string, was: string, value: string)
    requires Find(fields, key) == Some(was)
    ensures Translated(Put(fields, key, value)) <==> Translated(fields)
    ensures Find(Put(fields, key, value), key) == Some(value)
  {
    hide IsForm;
    PutFinds(fields, key, value);
    if IsForm(key) {
      HeldForm(fields, key);
    }
  }

  lemma {:induction false} HeldForm(fields: Fields, key: string)
    requires Find(fields, key).Some? && IsForm(key)
    ensures Translated(fields)
  {
    hide IsForm;
    TranslatedFirst(fields);
    if fields[0].0 != key {
      HeldForm(fields[1..], key);
    }
  }

  lemma TracksNext(lines: seq<string>, n: nat, s: State)
    requires n < |lines| && Tracks(lines, n, s)
    ensures var next := ParseLine(s, lines[n]);
      && (next.None? <==> IsStray(lines[n]) && FieldGone(lines, n))
      && (next.Some? ==> Tracks(lines, n + 1, next.value))
  {
    hide ParseLine, Translated, FormHeld, HasKey, FieldGone, IsForm, Strip, KeywordOf, Held;
    LineEffect(s, lines[n]);
    FormHeldNext(lines, n);
    HasKeyNext(lines, n);
    FieldGoneNext(lines, n);
    HeldHasKey(s);
  }

  lemma HeldHasKey(s: State)
    ensures Held(s) ==> s.current.Some?
  {
  }

  // One of the first n lines continues a field that is gone.
  ghost predicate RaisesBefore(lines: seq<string>, n: nat)
    requires n <= |lines|
  {
    exists j | 0 <= j < n :: IsStray(lines[j]) && FieldGone(lines, j)
  }

  lemma {:induction false} ParsedSoFar(lines: seq<string>, n: nat)
    requires n <= |lines|
    ensures var s := ParseLines(Start(), lines[..n]);
      (s.None? <==> RaisesBefore(lines, n)) && (s.Some? ==> Tracks(lines, n, s.value))
  {
    hide ParseLine, FieldGone, IsStray;
    if n == 0 {
      StartTracks(lines);
      hide Tracks;
    } else {
      hide Tracks;
      ParsedSoFar(lines, n - 1);
      assert lines[..n] == lines[..n - 1] + [lines[n - 1]];
      ParseConcat(Start(), lines[..n - 1], [lines[n - 1]]);
      var s := ParseLines(Start(), lines[..n - 1]);
      if s.Some? {
        TracksNext(lines, n - 1, s.value);
        assert [lines[n - 1]][1..] == [];
      }
    }
  }

  lemma StartTracks(lines: seq<string>)
    ensures Tracks(lines, 0, Start())
  {
    NothingTranslated();
  }

  // Parsing raises exactly when a line continues a field that is gone: since
  // its keyword line an empty line or a comment has ended a message with a form.
  lemma {:induction false} ParsingRaisesExactlyWhen(text: string)
    ensures ParseSpec(text).None? <==> RaisesBefore(SplitLines(text), |SplitLines(text)|)
  {
    hide SplitLines, RaisesBefore, Tracks, ParseLines;
    var lines := SplitLines(text);
    assert lines[..|lines|] == lines;
    ParsedSoFar(lines, |lines|);
  }
}
