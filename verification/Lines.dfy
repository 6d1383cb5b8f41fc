// Text line by line, as Python's `splitlines` reads it.

module Lines {
  import opened Text

  // The characters `splitlines` ends a line at.
  predicate IsBoundary(c: char) {
    c in ['\n', '\r', '\U{0B}', '\U{0C}', '\U{1C}', '\U{1D}', '\U{1E}', '\U{85}', '\U{2028}', '\U{2029}']
  }

  predicate OneLine(text: string) {
    forall c :: c in text ==> !IsBoundary(c)
  }

  function ToBoundary(text: string): (n: nat)
    ensures n <= |text|
    ensures forall i :: 0 <= i < n ==> !IsBoundary(text[i])
    ensures n < |text| ==> IsBoundary(text[n])
  {
    if text == "" || IsBoundary(text[0]) then 0 else 1 + ToBoundary(text[1..])
  }

  // `splitlines`: "\r\n" ends one line, and nothing after the last end is no line.
  function SplitLines(text: string): seq<string>
    decreases |text|
  {
    if text == "" then []
    else
      var n := ToBoundary(text);
      if n == |text| then [text]
      else if text[n] == '\r' && n + 1 < |text| && text[n + 1] == '\n' then [text[..n]] + SplitLines(text[n + 2..])
      else [text[..n]] + SplitLines(text[n + 1..])
  }

  // Lines, each ended by a newline.
  function LinesText(lines: seq<string>): string {
    if lines == [] then "" else lines[0] + "\n" + LinesText(lines[1..])
  }

  lemma {:induction false} ToBoundaryOf(line: string, tail: string)
    requires OneLine(line) && (tail == "" || IsBoundary(tail[0]))
    ensures ToBoundary(line + tail) == |line|
  {
    if line != "" {
      assert (line + tail)[1..] == line[1..] + tail;
      assert line[0] in line && forall c :: c in line[1..] ==> c in line;
      ToBoundaryOf(line[1..], tail);
    } else {
      assert line + tail == tail;
    }
  }

  lemma SplitFirstLine(line: string, end: char, tail: string)
    requires OneLine(line) && IsBoundary(end) && end != '\r'
    ensures SplitLines(line + [end] + tail) == [line] + SplitLines(tail)
  {
    var text := line + [end] + tail;
    assert text == line + ([end] + tail);
    ToBoundaryOf(line, [end] + tail);
    assert text[..|line|] == line && text[|line| + 1..] == tail;
  }

  lemma {:induction false} LinesReadBack(lines: seq<string>)
    requires forall i :: 0 <= i < |lines| ==> OneLine(lines[i])
    ensures SplitLines(LinesText(lines)) == lines
  {
    if lines != [] {
      LinesReadBack(lines[1..]);
      SplitFirstLine(lines[0], '\n', LinesText(lines[1..]));
    }
  }

  lemma {:induction false} SplitLinesAreLines(text: string)
    ensures forall i :: 0 <= i < |SplitLines(text)| ==> OneLine(SplitLines(text)[i])
    decreases |text|
  {
    hide IsBoundary;
    if text != "" {
      var n := ToBoundary(text);
      assert text[..n] == text || n < |text|;
      if n == |text| {
      } else if text[n] == '\r' && n + 1 < |text| && text[n + 1] == '\n' {
        SplitLinesAreLines(text[n + 2..]);
      } else {
        SplitLinesAreLines(text[n + 1..]);
      }
    }
  }

  lemma {:induction false} LinesTextConcat(a: seq<string>, b: seq<string>)
    ensures LinesText(a + b) == LinesText(a) + LinesText(b)
  {
    if a == [] {
      assert a + b == b;
    } else {
      assert (a + b)[1..] == a[1..] + b;
      LinesTextConcat(a[1..], b);
      assert a[0] + "\n" + (LinesText(a[1..]) + LinesText(b)) == a[0] + "\n" + LinesText(a[1..]) + LinesText(b);
    }
  }

  lemma {:induction false} SplitAfterLines(lines: seq<string>, tail: string)
    requires forall i :: 0 <= i < |lines| ==> OneLine(lines[i])
    ensures SplitLines(LinesText(lines) + tail) == lines + SplitLines(tail)
  {
    hide SplitLines;
    if lines == [] {
      assert "" + tail == tail;
    } else {
      SplitAfterLines(lines[1..], tail);
      var rest := LinesText(lines[1..]);
      assert lines[0] + "\n" + rest + tail == lines[0] + ['\n'] + (rest + tail);
      SplitFirstLine(lines[0], '\n', rest + tail);
    }
  }
}
