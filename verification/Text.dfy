// Splitting and joining text at a separator, shared by the other modules.

module Text {
  datatype Option<+T> = None | Some(value: T)

  type Byte = b: int | 0 <= b < 256
  type Bytes = seq<Byte>

  predicate Contains(text: string, part: string) {
    exists i | 0 <= i <= |text| :: part <= text[i..]
  }

  // The parts of `text` between the separators, as `split` gives them: always
  // one more part than there are separators.
  function Split<T(==)>(text: seq<T>, sep: T): (parts: seq<seq<T>>)
    ensures |parts| >= 1
  {
    if text == [] then [[]]
    else
      var rest := Split(text[1..], sep);
      if text[0] == sep then [[]] + rest
      else [[text[0]] + rest[0]] + rest[1..]
  }

  function Join<T>(parts: seq<seq<T>>, sep: seq<T>): seq<T> {
    if parts == [] then []
    else if |parts| == 1 then parts[0]
    else parts[0] + sep + Join(parts[1..], sep)
  }

  lemma {:induction false} SplitOfPlain<T>(text: seq<T>, sep: T)
    requires sep !in text
    ensures Split(text, sep) == [text]
  {
    if text != [] {
      assert forall c :: c in text[1..] ==> c in text;
      assert text[0] in text;
      SplitOfPlain(text[1..], sep);
      assert text == [text[0]] + text[1..];
    }
  }

  lemma {:induction false} SplitAtSeparator<T>(head: seq<T>, sep: T, tail: seq<T>)
    requires sep !in head
    ensures Split(head + [sep] + tail, sep) == [head] + Split(tail, sep)
  {
    var text := head + [sep] + tail;
    if head == [] {
      assert text[1..] == tail;
    } else {
      assert text[1..] == head[1..] + [sep] + tail;
      assert head[0] in head && forall c :: c in head[1..] ==> c in head;
      SplitAtSeparator(head[1..], sep, tail);
      assert head == [head[0]] + head[1..];
    }
  }

  // Splitting what was joined gives the parts back when no part holds the
  // separator.
  lemma {:induction false} SplitOfJoin<T>(parts: seq<seq<T>>, sep: T)
    requires parts != []
    requires forall i :: 0 <= i < |parts| ==> sep !in parts[i]
    ensures Split(Join(parts, [sep]), sep) == parts
  {
    if |parts| == 1 {
      SplitOfPlain(parts[0], sep);
    } else {
      SplitOfJoin(parts[1..], sep);
      SplitAtSeparator(parts[0], sep, Join(parts[1..], [sep]));
      assert Join(parts, [sep]) == parts[0] + [sep] + Join(parts[1..], [sep]);
    }
  }

  lemma {:induction false} SplitOfConcat<T>(head: seq<T>, sep: T, tail: seq<T>)
    ensures Split(head + [sep] + tail, sep) == Split(head, sep) + Split(tail, sep)
  {
    if head == [] {
      assert (head + [sep] + tail)[1..] == tail;
    } else {
      assert (head + [sep] + tail)[1..] == head[1..] + [sep] + tail;
      SplitOfConcat(head[1..], sep, tail);
    }
  }

  // `part` stands in `text` between separators, or the ends.
  ghost predicate IsBetween<T>(text: seq<T>, sep: T, before: seq<T>, part: seq<T>, after: seq<T>) {
    && text == before + part + after
    && (before == [] || before[|before| - 1] == sep)
    && (after == [] || after[0] == sep)
  }

  ghost predicate IsPartOf<T(!new)>(part: seq<T>, text: seq<T>, sep: T) {
    sep !in part && exists before: seq<T>, after: seq<T> :: IsBetween(text, sep, before, part, after)
  }

  // The parts of a text are what stands between separators.
  lemma {:induction false} PartsAreBetween<T(!new)>(text: seq<T>, sep: T, part: seq<T>)
    ensures part in Split(text, sep) <==> IsPartOf(part, text, sep)
  {
    if part in Split(text, sep) {
      PartIsBetween(text, sep, part);
    }
    if IsPartOf(part, text, sep) {
      var before: seq<T>, after: seq<T> :| IsBetween(text, sep, before, part, after);
      BetweenIsPart(text, sep, before, part, after);
    }
  }

  lemma {:induction false} BetweenIsPart<T>(text: seq<T>, sep: T, before: seq<T>, part: seq<T>, after: seq<T>)
    requires sep !in part && IsBetween(text, sep, before, part, after)
    ensures part in Split(text, sep)
  {
    hide Split;
    var rest := part + after;
    if after == [] {
      assert rest == part;
      SplitOfPlain(part, sep);
    } else {
      assert rest == part + [sep] + after[1..];
      SplitAtSeparator(part, sep, after[1..]);
    }
    assert Split(rest, sep)[0] == part;
    if before == [] {
      assert text == rest;
    } else {
      var front := before[..|before| - 1];
      assert text == front + [sep] + rest;
      SplitOfConcat(front, sep, rest);
      assert (Split(front, sep) + Split(rest, sep))[|Split(front, sep)|] == part;
    }
  }

  lemma {:induction false} PartIsBetween<T(!new)>(text: seq<T>, sep: T, part: seq<T>)
    requires part in Split(text, sep)
    ensures IsPartOf(part, text, sep)
  {
    hide Split;
    if sep !in text {
      SplitOfPlain(text, sep);
      assert IsBetween(text, sep, [], part, []);
    } else {
      var n := FirstSeparator(text, sep);
      var head, tail := text[..n], text[n + 1..];
      assert text == head + [sep] + tail;
      SplitAtSeparator(head, sep, tail);
      if part == head {
        assert IsBetween(text, sep, [], part, text[n..]);
      } else {
        PartIsBetween(tail, sep, part);
        var before: seq<T>, after: seq<T> :| IsBetween(tail, sep, before, part, after);
        BetweenAfter(head, sep, tail, before, part, after);
      }
    }
  }

  lemma {:induction false} BetweenAfter<T(!new)>(head: seq<T>, sep: T, tail: seq<T>, before: seq<T>, part: seq<T>, after: seq<T>)
    requires sep !in part && IsBetween(tail, sep, before, part, after)
    ensures IsPartOf(part, head + [sep] + tail, sep)
  {
    var text := head + [sep] + tail;
    assert text == head + [sep] + before + part + after;
    assert IsBetween(text, sep, head + [sep] + before, part, after);
  }

  lemma {:induction false} FirstSeparator<T>(text: seq<T>, sep: T) returns (n: nat)
    requires sep in text
    ensures n < |text| && text[n] == sep && sep !in text[..n]
  {
    if text[0] == sep {
      n := 0;
    } else {
      n := FirstSeparator(text[1..], sep);
      assert text[..n + 1] == [text[0]] + text[1..][..n];
      n := n + 1;
    }
  }
}
