// Compiled message catalogues (section 10.3 of the GNU gettext manual, "The
// Format of GNU MO Files"): how the package build writes one
// (native/tools/i18n.py) and how the app reads it
// (native/crates/ox-core/src/i18n/mo.rs).

module MoFile {
  import opened Text

  // A message: its original (context, id and plural id) and its translation.
  datatype Entry = Entry(original: Bytes, translation: Bytes)

  const MAGIC: nat := 0x950412de
  const HEADER: nat := 28
  const WORD_LIMIT: nat := 0x1_0000_0000

  // -------------------------------------------------------------- byte order

  predicate Before(a: Bytes, b: Bytes) {
    if b == [] then false
    else if a == [] then true
    else a[0] < b[0] || (a[0] == b[0] && Before(a[1..], b[1..]))
  }

  predicate InOrder(a: Entry, b: Entry) {
    Before(a.original, b.original) || (a.original == b.original && !Before(b.translation, a.translation))
  }

  lemma {:induction false} BeforeIsStrict(a: Bytes, b: Bytes)
    ensures !(Before(a, b) && Before(b, a))
    ensures Before(a, b) || Before(b, a) || a == b
    ensures a == b ==> !Before(a, b)
  {
    if a != [] && b != [] {
      BeforeIsStrict(a[1..], b[1..]);
      if a[0] == b[0] && a[1..] == b[1..] {
        assert a == [a[0]] + a[1..] && b == [b[0]] + b[1..];
      }
    }
  }

  lemma {:induction false} BeforeIsTransitive(a: Bytes, b: Bytes, c: Bytes)
    requires Before(a, b) && Before(b, c)
    ensures Before(a, c)
  {
    if a != [] && a[0] == b[0] == c[0] {
      BeforeIsTransitive(a[1..], b[1..], c[1..]);
    }
  }

  // `n` bytes are the same; then `a` is at its end, or its next byte is less.
  ghost predicate DifferAt(a: Bytes, b: Bytes, n: nat) {
    n <= |a| && n < |b| && a[..n] == b[..n] && (n == |a| || a[n] < b[n])
  }

  lemma SameStart(a: Bytes, b: Bytes, n: nat)
    requires 0 < n <= |a| && n <= |b| && a[..n] == b[..n]
    ensures a[0] == b[0]
  {
    assert a[..n][0] == b[..n][0];
  }

  lemma {:induction false} BeforeIs(a: Bytes, b: Bytes)
    ensures Before(a, b) <==> exists n: nat :: DifferAt(a, b, n)
  {
    if a == [] || b == [] {
      if b != [] {
        assert DifferAt(a, b, 0);
      }
    } else {
      BeforeIs(a[1..], b[1..]);
      if a[0] == b[0] {
        if n: nat :| DifferAt(a[1..], b[1..], n) {
          assert a[..n + 1] == [a[0]] + a[1..][..n] && b[..n + 1] == [b[0]] + b[1..][..n];
          assert DifferAt(a, b, n + 1);
        }
        if n: nat :| DifferAt(a, b, n) {
          assert n > 0;
          assert a[1..][..n - 1] == a[..n][1..] && b[1..][..n - 1] == b[..n][1..];
          assert DifferAt(a[1..], b[1..], n - 1);
        }
      } else {
        assert Before(a, b) ==> DifferAt(a, b, 0);
        if n: nat :| DifferAt(a, b, n) {
          if n > 0 {
            SameStart(a, b, n);
          }
        }
      }
    }
  }

  lemma InOrderIsTransitive(a: Entry, b: Entry, c: Entry)
    requires InOrder(a, b) && InOrder(b, c)
    ensures InOrder(a, c)
  {
    hide Before;
    if Before(a.original, b.original) && Before(b.original, c.original) {
      BeforeIsTransitive(a.original, b.original, c.original);
    } else if a.original == b.original == c.original && Before(c.translation, a.translation) {
      BeforeIsStrict(a.translation, b.translation);
      if Before(a.translation, b.translation) {
        BeforeIsTransitive(c.translation, a.translation, b.translation);
      }
    }
  }

  // ----------------------------------------------------------------- sorting

  function Insert(entry: Entry, sorted: seq<Entry>): seq<Entry> {
    if sorted == [] || InOrder(entry, sorted[0]) then [entry] + sorted
    else [sorted[0]] + Insert(entry, sorted[1..])
  }

  // `sorted` on the pairs of encoded strings.
  function Sorted(entries: seq<Entry>): seq<Entry> {
    if entries == [] then [] else Insert(entries[0], Sorted(entries[1..]))
  }

  predicate IsSorted(entries: seq<Entry>) {
    forall i, j :: 0 <= i < j < |entries| ==> InOrder(entries[i], entries[j])
  }

  lemma {:induction false} InsertSorts(entry: Entry, sorted: seq<Entry>)
    requires IsSorted(sorted)
    ensures IsSorted(Insert(entry, sorted))
    ensures multiset(Insert(entry, sorted)) == multiset{entry} + multiset(sorted)
    ensures |Insert(entry, sorted)| == |sorted| + 1
  {
    hide InOrder;
    var result := Insert(entry, sorted);
    if sorted == [] || InOrder(entry, sorted[0]) {
      forall i, j | 0 <= i < j < |result| ensures InOrder(result[i], result[j]) {
        if i == 0 && j > 1 {
          assert InOrder(sorted[0], sorted[j - 1]);
          InOrderIsTransitive(entry, sorted[0], sorted[j - 1]);
        }
      }
    } else {
      InsertSorts(entry, sorted[1..]);
      NotInOrder(entry, sorted[0]);
      var rest := Insert(entry, sorted[1..]);
      assert sorted == [sorted[0]] + sorted[1..];
      forall j | 0 <= j < |rest| ensures InOrder(sorted[0], rest[j]) {
        assert rest[j] in multiset(rest);
        assert rest[j] == entry || rest[j] in sorted[1..];
      }
      forall i, j | 0 <= i < j < |result| ensures InOrder(result[i], result[j]) {
        if i > 0 {
          assert result[i] == rest[i - 1] && result[j] == rest[j - 1];
        }
      }
    }
  }

  lemma NotInOrder(a: Entry, b: Entry)
    requires !InOrder(a, b)
    ensures InOrder(b, a)
  {
    BeforeIsStrict(a.original, b.original);
    BeforeIsStrict(a.translation, b.translation);
  }

  lemma {:induction false} SortedIsSorted(entries: seq<Entry>)
    ensures IsSorted(Sorted(entries)) && multiset(Sorted(entries)) == multiset(entries) && |Sorted(entries)| == |entries|
  {
    if entries != [] {
      SortedIsSorted(entries[1..]);
      InsertSorts(entries[0], Sorted(entries[1..]));
      assert entries == [entries[0]] + entries[1..];
    }
  }

  // ------------------------------------------------------------------- words

  function Word(value: nat, bigEndian: bool): (word: Bytes)
    requires value < WORD_LIMIT
    ensures |word| == 4
  {
    var (b0, b1, b2, b3) := (value % 0x100, value / 0x100 % 0x100, value / 0x1_0000 % 0x100, value / 0x100_0000);
    if bigEndian then [b3, b2, b1, b0] else [b0, b1, b2, b3]
  }

  // The 32-bit number at `at`, in either byte order.
  function WordAt(bytes: Bytes, at: nat, bigEndian: bool): Option<nat> {
    if at + 4 > |bytes| then None
    else
      var b0: int, b1: int, b2: int, b3: int := bytes[at], bytes[at + 1], bytes[at + 2], bytes[at + 3];
      Some(if bigEndian then ((b0 * 0x100 + b1) * 0x100 + b2) * 0x100 + b3
           else ((b3 * 0x100 + b2) * 0x100 + b1) * 0x100 + b0)
  }

  lemma WordReadsBack(bytes: Bytes, at: nat, value: nat, bigEndian: bool)
    requires value < WORD_LIMIT && at + 4 <= |bytes| && bytes[at..at + 4] == Word(value, bigEndian)
    ensures WordAt(bytes, at, bigEndian) == Some(value)
  {
    forall i | 0 <= i < 4 ensures bytes[at + i] == Word(value, bigEndian)[i] {
      assert bytes[at + i] == bytes[at..at + 4][i];
    }
    assert value / 0x1_0000 == value / 0x100 / 0x100 && value / 0x100_0000 == value / 0x1_0000 / 0x100;
  }

  // A number is read wherever its four bytes are, and only there.
  lemma NumberIsRead(bytes: Bytes, at: nat, value: nat, bigEndian: bool)
    ensures WordAt(bytes, at, bigEndian) == Some(value)
      <==> value < WORD_LIMIT && at + 4 <= |bytes| && bytes[at..at + 4] == Word(value, bigEndian)
    ensures WordAt(bytes, at, bigEndian).None? <==> at + 4 > |bytes|
  {
    if at + 4 <= |bytes| {
      var read := WordAt(bytes, at, bigEndian).value;
      var word := bytes[at..at + 4];
      var (b0: int, b1: int, b2: int, b3: int) :=
        if bigEndian then (word[3], word[2], word[1], word[0]) else (word[0], word[1], word[2], word[3]);
      assert read == ((b3 * 0x100 + b2) * 0x100 + b1) * 0x100 + b0;
      DigitsOfWord(b0, b1, b2, b3);
      assert word == Word(read, bigEndian);
      if value < WORD_LIMIT && word == Word(value, bigEndian) {
        WordReadsBack(bytes, at, value, bigEndian);
      }
    }
  }

  lemma DigitsOfWord(b0: Byte, b1: Byte, b2: Byte, b3: Byte)
    ensures var value := ((b3 * 0x100 + b2) * 0x100 + b1) * 0x100 + b0;
      && 0 <= value < WORD_LIMIT && value % 0x100 == b0 && value / 0x100 % 0x100 == b1
      && value / 0x1_0000 % 0x100 == b2 && value / 0x100_0000 == b3
  {
    var v3: nat := b3;
    var v2: nat := v3 * 0x100 + b2;
    var v1: nat := v2 * 0x100 + b1;
    var value: nat := v1 * 0x100 + b0;
    assert value / 0x100 == v1 && v1 / 0x100 == v2 && v2 / 0x100 == v3;
    assert value / 0x1_0000 == value / 0x100 / 0x100 && value / 0x100_0000 == value / 0x1_0000 / 0x100;
  }

  // ----------------------------------------------------------------- writing

  // The texts one after another, each followed by a NUL.
  function Strings(texts: seq<Bytes>): Bytes {
    if texts == [] then []
    else Strings(texts[..|texts| - 1]) + texts[|texts| - 1] + [0]
  }

  // The length and offset of each text, its strings starting at `base`.
  function Tables(texts: seq<Bytes>, base: nat, bigEndian: bool): (tables: Bytes)
    requires Fits(texts, base)
    ensures |tables| == 8 * |texts|
  {
    if texts == [] then []
    else
      var rest := texts[..|texts| - 1];
      Tables(rest, base, bigEndian) + Word(|texts[|texts| - 1]|, bigEndian) + Word(base + |Strings(rest)|, bigEndian)
  }

  // Every length and offset fits a 32-bit number.
  predicate Fits(texts: seq<Bytes>, base: nat) {
    texts == [] || (
      var rest := texts[..|texts| - 1];
      Fits(rest, base) && |texts[|texts| - 1]| < WORD_LIMIT && base + |Strings(rest)| < WORD_LIMIT)
  }

  // The originals, then the translations.
  function Texts(entries: seq<Entry>): (texts: seq<Bytes>)
    ensures |texts| == 2 * |entries|
  {
    seq(2 * |entries|, i requires 0 <= i < 2 * |entries| =>
      if i < |entries| then entries[i].original else entries[i - |entries|].translation)
  }

  function Header(count: nat, bigEndian: bool): Bytes
    requires HEADER + 16 * count < WORD_LIMIT
  {
    Word(MAGIC, bigEndian) + Word(0, bigEndian) + Word(count, bigEndian) + Word(HEADER, bigEndian) + Word(HEADER + 8 * count, bigEndian) + Word(0, bigEndian) + Word(HEADER + 16 * count, bigEndian)
  }

  predicate FileFits(entries: seq<Entry>) {
    HEADER + 16 * |entries| < WORD_LIMIT && Fits(Texts(entries), HEADER + 16 * |entries|)
  }

  function FileOf(entries: seq<Entry>, bigEndian: bool): Bytes
    requires FileFits(entries)
  {
    Header(|entries|, bigEndian) + Tables(Texts(entries), HEADER + 16 * |entries|, bigEndian) + Strings(Texts(entries))
  }

  // A little-endian catalogue of the entries, without a hash table; None when
  // a number in it does not fit 32 bits.
  method MoBytes(unsorted: seq<Entry>) returns (file: Option<Bytes>)
    ensures var entries := Sorted(unsorted);
      file == if FileFits(entries) then Some(FileOf(entries, false)) else None
  {
    var entries := Sorted(unsorted);
    var count := |entries|;
    var originalsAt := HEADER;
    var translationsAt := originalsAt + 8 * count;
    var stringsAt := translationsAt + 8 * count;
    var tables: Bytes, strings: Bytes := [], [];
    ghost var texts, done := Texts(entries), 0;
    hide Tables, Strings, Fits, Word, Sorted, Texts;
    StartTables(texts, stringsAt, false);
    for column := 0 to 2
      invariant done == if column == 0 then 0 else if column == 1 then count else 2 * count
      invariant Fits(texts[..done], stringsAt)
      invariant tables == Tables(texts[..done], stringsAt, false)
      invariant strings == Strings(texts[..done])
    {
      ghost var first := done;
      for i := 0 to count
        invariant done == first + i
        invariant Fits(texts[..done], stringsAt)
        invariant tables == Tables(texts[..done], stringsAt, false)
        invariant strings == Strings(texts[..done])
      {
        var text := if column == 0 then entries[i].original else entries[i].translation;
        TextAt(entries, column, i);
        ExtendTables(texts, done, stringsAt, false);
        if |text| >= WORD_LIMIT || stringsAt + |strings| >= WORD_LIMIT {
          NotFitting(texts, done + 1, stringsAt);
          return None;
        }
        tables := tables + Word(|text|, false) + Word(stringsAt + |strings|, false);
        strings := strings + text + [0];
        done := done + 1;
      }
    }
    assert texts[..2 * count] == texts;
    if stringsAt >= WORD_LIMIT {
      return None;
    }
    var header := Word(MAGIC, false) + Word(0, false) + Word(count, false) + Word(originalsAt, false) + Word(translationsAt, false) + Word(0, false) + Word(stringsAt, false);
    file := Some(header + tables + strings);
    assert header == Header(count, false);
  }

  lemma StartTables(texts: seq<Bytes>, base: nat, bigEndian: bool)
    ensures Fits(texts[..0], base) && Tables(texts[..0], base, bigEndian) == [] && Strings(texts[..0]) == []
  {
  }

  lemma TextAt(entries: seq<Entry>, column: nat, i: nat)
    requires column < 2 && i < |entries|
    ensures Texts(entries)[column * |entries| + i] == if column == 0 then entries[i].original else entries[i].translation
  {
  }

  lemma ExtendTables(texts: seq<Bytes>, k: nat, base: nat, bigEndian: bool)
    requires k < |texts|
    ensures Strings(texts[..k + 1]) == Strings(texts[..k]) + texts[k] + [0]
    ensures Fits(texts[..k + 1], base) <==>
      Fits(texts[..k], base) && |texts[k]| < WORD_LIMIT && base + |Strings(texts[..k])| < WORD_LIMIT
    ensures Fits(texts[..k + 1], base) ==>
      Tables(texts[..k + 1], base, bigEndian) == Tables(texts[..k], base, bigEndian) + Word(|texts[k]|, bigEndian) + Word(base + |Strings(texts[..k])|, bigEndian)
  {
    hide Word;
    assert texts[..k + 1][..k] == texts[..k];
  }

  lemma {:induction false} NotFitting(texts: seq<Bytes>, k: nat, base: nat)
    requires k <= |texts| && !Fits(texts[..k], base)
    ensures !Fits(texts, base)
    decreases |texts| - k
  {
    if k == |texts| {
      assert texts[..k] == texts;
    } else {
      assert texts[..k + 1][..k] == texts[..k];
      NotFitting(texts, k + 1, base);
    }
  }

  // ----------------------------------------------------------------- reading

  // The string the table at `table` describes for message `index`, if it is in
  // the file and is UTF-8.
  function StringAt(bytes: Bytes, isUtf8: Bytes -> bool, bigEndian: bool, table: nat, index: nat): Option<Bytes> {
    match (WordAt(bytes, table + 8 * index, bigEndian), WordAt(bytes, table + 8 * index + 4, bigEndian))
    case (Some(length), Some(offset)) =>
      if offset + length > |bytes| || !isUtf8(bytes[offset..offset + length]) then None
      else Some(bytes[offset..offset + length])
    case _ => None
  }

  // The id of an original, without the plural id; and a translation's forms.
  function IdOf(original: Bytes): Bytes {
    Split(original, 0)[0]
  }

  function Forms(translation: Bytes): seq<Bytes> {
    Split(translation, 0)
  }

  type Messages = map<Bytes, seq<Bytes>>

  function ReadUpTo(bytes: Bytes, isUtf8: Bytes -> bool, bigEndian: bool, originals: nat, translations: nat, n: nat): Option<Messages> {
    if n == 0 then Some(map[])
    else
      match (ReadUpTo(bytes, isUtf8, bigEndian, originals, translations, n - 1),
             StringAt(bytes, isUtf8, bigEndian, originals, n - 1),
             StringAt(bytes, isUtf8, bigEndian, translations, n - 1))
      case (Some(messages), Some(original), Some(translation)) => Some(messages[IdOf(original) := Forms(translation)])
      case _ => None
  }

  // The byte order the magic number is in, if it is one.
  function ByteOrder(bytes: Bytes): Option<bool> {
    if WordAt(bytes, 0, false) == Some(MAGIC) then Some(false)
    else if WordAt(bytes, 0, true) == Some(MAGIC) then Some(true)
    else None
  }

  // A file is in the byte order its first four bytes say.
  lemma ByteOrderIs(bytes: Bytes, bigEndian: bool)
    ensures ByteOrder(bytes) == Some(bigEndian) <==>
      4 <= |bytes| && bytes[..4] == if bigEndian then [0x95, 0x04, 0x12, 0xde] else [0xde, 0x12, 0x04, 0x95]
  {
    hide WordAt;
    NumberIsRead(bytes, 0, MAGIC, false);
    NumberIsRead(bytes, 0, MAGIC, true);
    MagicBytes();
  }

  lemma MagicBytes()
    ensures Word(MAGIC, false) == [0xde, 0x12, 0x04, 0x95] && Word(MAGIC, true) == [0x95, 0x04, 0x12, 0xde]
  {
  }

  // A string is read when both its numbers are there, it is in the file and it
  // is UTF-8: what is at the offset and has the length.
  lemma StringIsRead(bytes: Bytes, isUtf8: Bytes -> bool, bigEndian: bool, table: nat, index: nat, text: Bytes)
    ensures StringAt(bytes, isUtf8, bigEndian, table, index) == Some(text) <==>
      isUtf8(text) && exists before: Bytes, after: Bytes :: Describes(bytes, bigEndian, table, index, before, text, after)
  {
    hide StringAt, Describes;
    if StringAt(bytes, isUtf8, bigEndian, table, index) == Some(text) {
      var before, after := StringFound(bytes, isUtf8, bigEndian, table, index, text);
    }
    if before: Bytes, after: Bytes :| Describes(bytes, bigEndian, table, index, before, text, after) {
      DescribedIsRead(bytes, isUtf8, bigEndian, table, index, before, text, after);
    }
  }

  lemma {:induction false} StringFound(bytes: Bytes, isUtf8: Bytes -> bool, bigEndian: bool, table: nat, index: nat, text: Bytes)
      returns (before: Bytes, after: Bytes)
    requires StringAt(bytes, isUtf8, bigEndian, table, index) == Some(text)
    ensures isUtf8(text) && Describes(bytes, bigEndian, table, index, before, text, after)
  {
    hide WordAt, Word;
    var at := table + 8 * index;
    NumberIsRead(bytes, at, |text|, bigEndian);
    var offset := WordAt(bytes, at + 4, bigEndian).value;
    NumberIsRead(bytes, at + 4, offset, bigEndian);
    before, after := bytes[..offset], bytes[offset + |text|..];
    assert bytes == before + text + after;
  }

  lemma {:induction false} DescribedIsRead(bytes: Bytes, isUtf8: Bytes -> bool, bigEndian: bool, table: nat, index: nat,
                                           before: Bytes, text: Bytes, after: Bytes)
    requires Describes(bytes, bigEndian, table, index, before, text, after)
    ensures StringAt(bytes, isUtf8, bigEndian, table, index) == if isUtf8(text) then Some(text) else None
  {
    hide WordAt, Word;
    var at := table + 8 * index;
    NumberIsRead(bytes, at, |text|, bigEndian);
    NumberIsRead(bytes, at + 4, |before|, bigEndian);
    assert bytes[|before|..|before| + |text|] == text;
  }

  ghost predicate Describes(bytes: Bytes, bigEndian: bool, table: nat, index: nat, before: Bytes, text: Bytes, after: Bytes) {
    var at := table + 8 * index;
    && bytes == before + text + after
    && |text| < WORD_LIMIT && |before| < WORD_LIMIT && at + 8 <= |bytes|
    && bytes[at..at + 4] == Word(|text|, bigEndian) && bytes[at + 4..at + 8] == Word(|before|, bigEndian)
  }

  function ReadSpec(bytes: Bytes, isUtf8: Bytes -> bool): Option<Messages> {
    match ByteOrder(bytes)
    case None => None
    case Some(bigEndian) =>
      match (WordAt(bytes, 8, bigEndian), WordAt(bytes, 12, bigEndian), WordAt(bytes, 16, bigEndian))
      case (Some(count), Some(originals), Some(translations)) =>
        ReadUpTo(bytes, isUtf8, bigEndian, originals, translations, count)
      case _ => None
  }

  lemma {:induction false} ReadStops(bytes: Bytes, isUtf8: Bytes -> bool, bigEndian: bool, originals: nat, translations: nat, m: nat, n: nat)
    requires m <= n && ReadUpTo(bytes, isUtf8, bigEndian, originals, translations, m).None?
    ensures ReadUpTo(bytes, isUtf8, bigEndian, originals, translations, n).None?
    decreases n
  {
    hide StringAt, IdOf, Forms;
    if m < n {
      ReadStops(bytes, isUtf8, bigEndian, originals, translations, m, n - 1);
    }
  }

  // A file is read exactly when every string of both tables is.
  lemma {:induction false} ReadWhenAllStrings(bytes: Bytes, isUtf8: Bytes -> bool, bigEndian: bool, originals: nat, translations: nat, n: nat)
    ensures ReadUpTo(bytes, isUtf8, bigEndian, originals, translations, n).Some? <==>
      forall i :: 0 <= i < n ==>
        && StringAt(bytes, isUtf8, bigEndian, originals, i).Some?
        && StringAt(bytes, isUtf8, bigEndian, translations, i).Some?
  {
    hide StringAt, IdOf, Forms;
    if n > 0 {
      ReadWhenAllStrings(bytes, isUtf8, bigEndian, originals, translations, n - 1);
    }
  }

  // The app's reader: the messages of a catalogue, by id.
  method Read(bytes: Bytes, isUtf8: Bytes -> bool) returns (result: Option<Messages>)
    ensures result == ReadSpec(bytes, isUtf8)
  {
    var order := ByteOrder(bytes);
    if order.None? {
      return None;
    }
    var count := WordAt(bytes, 8, order.value);
    var originals := WordAt(bytes, 12, order.value);
    var translations := WordAt(bytes, 16, order.value);
    if count.None? || originals.None? || translations.None? {
      return None;
    }
    hide WordAt, StringAt, ByteOrder;
    var messages: Messages := map[];
    for index := 0 to count.value
      invariant ReadUpTo(bytes, isUtf8, order.value, originals.value, translations.value, index) == Some(messages)
    {
      var original := StringAt(bytes, isUtf8, order.value, originals.value, index);
      var translation := StringAt(bytes, isUtf8, order.value, translations.value, index);
      if original.None? || translation.None? {
        ReadStops(bytes, isUtf8, order.value, originals.value, translations.value, index + 1, count.value);
        return None;
      }
      messages := messages[IdOf(original.value) := Forms(translation.value)];
    }
    result := Some(messages);
  }

  // ------------------------------------------------- what was written is read

  // Each text has its own place in the string area, followed by a NUL: the
  // places are one after another and inside it.
  lemma {:induction false} StringPlace(texts: seq<Bytes>, k: nat)
    requires k < |texts|
    ensures var at := |Strings(texts[..k])|;
      && at + |texts[k]| + 1 == |Strings(texts[..k + 1])| <= |Strings(texts)|
      && Strings(texts)[at..at + |texts[k]|] == texts[k]
      && Strings(texts)[at + |texts[k]|] == 0
    decreases |texts|
  {
    var rest := texts[..|texts| - 1];
    assert texts[..k + 1][..k] == texts[..k];
    if k == |texts| - 1 {
      assert texts[..k + 1] == texts;
    } else {
      StringPlace(rest, k);
      assert rest[..k] == texts[..k] && rest[..k + 1] == texts[..k + 1];
      var at := |Strings(texts[..k])|;
      assert Strings(texts)[at..at + |texts[k]|] == Strings(rest)[at..at + |texts[k]|];
    }
  }

  lemma {:induction false} TablePlace(texts: seq<Bytes>, base: nat, k: nat, bigEndian: bool)
    requires Fits(texts, base) && k < |texts|
    ensures |texts[k]| < WORD_LIMIT && base + |Strings(texts[..k])| < WORD_LIMIT
    ensures Tables(texts, base, bigEndian)[8 * k..8 * k + 4] == Word(|texts[k]|, bigEndian)
    ensures Tables(texts, base, bigEndian)[8 * k + 4..8 * k + 8] == Word(base + |Strings(texts[..k])|, bigEndian)
    decreases |texts|
  {
    hide Word, Strings;
    var rest := texts[..|texts| - 1];
    if k < |texts| - 1 {
      TablePlace(rest, base, k, bigEndian);
      assert rest[..k] == texts[..k];
      assert Tables(texts, base, bigEndian)[8 * k..8 * k + 4] == Tables(rest, base, bigEndian)[8 * k..8 * k + 4];
      assert Tables(texts, base, bigEndian)[8 * k + 4..8 * k + 8] == Tables(rest, base, bigEndian)[8 * k + 4..8 * k + 8];
    }
  }

  lemma SliceOfConcat<T>(head: seq<T>, middle: seq<T>, tail: seq<T>, i: nat, j: nat)
    requires i <= j <= |middle|
    ensures (head + middle + tail)[|head| + i..|head| + j] == middle[i..j]
  {
  }

  lemma HeaderWords(count: nat, bigEndian: bool)
    requires HEADER + 16 * count < WORD_LIMIT
    ensures var header := Header(count, bigEndian);
      && |header| == HEADER
      && header[0..4] == Word(MAGIC, bigEndian) && header[4..8] == Word(0, bigEndian)
      && header[8..12] == Word(count, bigEndian)
      && header[20..24] == Word(0, bigEndian) && header[24..28] == Word(HEADER + 16 * count, bigEndian)
      && header[12..16] == Word(HEADER, bigEndian) && header[16..20] == Word(HEADER + 8 * count, bigEndian)
  {
    hide Word;
    SevenWords(Word(MAGIC, bigEndian), Word(0, bigEndian), Word(count, bigEndian), Word(HEADER, bigEndian),
               Word(HEADER + 8 * count, bigEndian), Word(0, bigEndian), Word(HEADER + 16 * count, bigEndian));
  }

  lemma SevenWords(a: Bytes, b: Bytes, c: Bytes, d: Bytes, e: Bytes, f: Bytes, g: Bytes)
    requires |a| == |b| == |c| == |d| == |e| == |f| == |g| == 4
    ensures var all := a + b + c + d + e + f + g;
      && |all| == 28 && all[0..4] == a && all[4..8] == b && all[8..12] == c
      && all[12..16] == d && all[16..20] == e && all[20..24] == f && all[24..28] == g
  {
  }

  lemma {:induction false} HeaderReadsBack(entries: seq<Entry>, bigEndian: bool)
    requires FileFits(entries)
    ensures var file := FileOf(entries, bigEndian);
      && ByteOrder(file) == Some(bigEndian)
      && WordAt(file, 4, bigEndian) == Some(0) && WordAt(file, 20, bigEndian) == Some(0)
      && WordAt(file, 24, bigEndian) == Some(|FileOf(entries, bigEndian)| - |Strings(Texts(entries))|)
      && WordAt(file, 8, bigEndian) == Some(|entries|)
      && WordAt(file, 12, bigEndian) == Some(HEADER)
      && WordAt(file, 16, bigEndian) == Some(HEADER + 8 * |entries|)
  {
    hide Word, WordAt, Tables, Strings, Fits, Texts, Header;
    var count := |entries|;
    var file, header := FileOf(entries, bigEndian), Header(count, bigEndian);
    HeaderWords(count, bigEndian);
    assert file[0..4] == header[0..4] && file[8..12] == header[8..12];
    assert file[12..16] == header[12..16] && file[16..20] == header[16..20];
    assert file[4..8] == header[4..8] && file[20..24] == header[20..24] && file[24..28] == header[24..28];
    assert file[..4] == file[0..4];
    MagicBytes();
    ByteOrderIs(file, bigEndian);
    WordReadsBack(file, 4, 0, bigEndian);
    WordReadsBack(file, 20, 0, bigEndian);
    WordReadsBack(file, 24, HEADER + 16 * count, bigEndian);
    WordReadsBack(file, 8, count, bigEndian);
    WordReadsBack(file, 12, HEADER, bigEndian);
    WordReadsBack(file, 16, HEADER + 8 * count, bigEndian);
  }

  // The descriptor of text k is in the tables; it names the text's own place.
  lemma {:induction false} TextReadsBack(entries: seq<Entry>, isUtf8: Bytes -> bool, k: nat, bigEndian: bool)
    requires FileFits(entries) && k < 2 * |entries| && isUtf8(Texts(entries)[k])
    ensures StringAt(FileOf(entries, bigEndian), isUtf8, bigEndian, HEADER, k) == Some(Texts(entries)[k])
  {
    hide Word, WordAt, Tables, Strings, Fits, Texts, Header;
    var texts, base := Texts(entries), HEADER + 16 * |entries|;
    var file, header, tables, strings := FileOf(entries, bigEndian), Header(|entries|, bigEndian), Tables(texts, base, bigEndian), Strings(texts);
    HeaderWords(|entries|, bigEndian);
    TablePlace(texts, base, k, bigEndian);
    StringPlace(texts, k);
    var at := |Strings(texts[..k])|;
    SliceOfConcat(header, tables, strings, 8 * k, 8 * k + 4);
    SliceOfConcat(header, tables, strings, 8 * k + 4, 8 * k + 8);
    WordReadsBack(file, HEADER + 8 * k, |texts[k]|, bigEndian);
    WordReadsBack(file, HEADER + 8 * k + 4, base + at, bigEndian);
    SliceOfConcat(header + tables, strings, [], at, at + |texts[k]|);
    assert header + tables + strings + [] == file;
  }

  ghost predicate AllUtf8(entries: seq<Entry>, isUtf8: Bytes -> bool) {
    forall i :: 0 <= i < |entries| ==> isUtf8(entries[i].original) && isUtf8(entries[i].translation)
  }

  lemma {:induction false} EntryReadsBack(entries: seq<Entry>, isUtf8: Bytes -> bool, i: nat, bigEndian: bool)
    requires FileFits(entries) && AllUtf8(entries, isUtf8) && i < |entries|
    ensures StringAt(FileOf(entries, bigEndian), isUtf8, bigEndian, HEADER, i) == Some(entries[i].original)
    ensures StringAt(FileOf(entries, bigEndian), isUtf8, bigEndian, HEADER + 8 * |entries|, i) == Some(entries[i].translation)
  {
    hide WordAt, Fits, FileOf;
    assert Texts(entries)[i] == entries[i].original && Texts(entries)[|entries| + i] == entries[i].translation;
    TextReadsBack(entries, isUtf8, i, bigEndian);
    TextReadsBack(entries, isUtf8, |entries| + i, bigEndian);
    assert HEADER + 8 * (|entries| + i) == HEADER + 8 * |entries| + 8 * i;
  }

  // The messages of the entries, put in one after another.
  function MessagesOf(entries: seq<Entry>): Messages {
    if entries == [] then map[]
    else
      var last := entries[|entries| - 1];
      MessagesOf(entries[..|entries| - 1])[IdOf(last.original) := Forms(last.translation)]
  }

  lemma {:induction false} EntriesReadBack(entries: seq<Entry>, isUtf8: Bytes -> bool, n: nat, bigEndian: bool)
    requires FileFits(entries) && AllUtf8(entries, isUtf8) && n <= |entries|
    ensures ReadUpTo(FileOf(entries, bigEndian), isUtf8, bigEndian, HEADER, HEADER + 8 * |entries|, n) == Some(MessagesOf(entries[..n]))
  {
    hide FileOf, StringAt, FileFits, IdOf, Forms;
    if n > 0 {
      EntriesReadBack(entries, isUtf8, n - 1, bigEndian);
      EntryReadsBack(entries, isUtf8, n - 1, bigEndian);
      assert entries[..n][..n - 1] == entries[..n - 1];
    }
  }

  // The last of the entries with an id decides its translation.
  lemma {:induction false} MessageOf(entries: seq<Entry>, id: Bytes)
    ensures id in MessagesOf(entries) <==> exists i :: 0 <= i < |entries| && IdOf(entries[i].original) == id
    ensures id in MessagesOf(entries) ==>
      exists i :: 0 <= i < |entries| && LastWithId(entries, i, id) && MessagesOf(entries)[id] == Forms(entries[i].translation)
  {
    hide IdOf, Forms;
    if entries != [] {
      var n := |entries| - 1;
      MessageOf(entries[..n], id);
      if IdOf(entries[n].original) == id {
        assert LastWithId(entries, n, id);
      } else if id in MessagesOf(entries) {
        var i :| 0 <= i < n && LastWithId(entries[..n], i, id) && MessagesOf(entries[..n])[id] == Forms(entries[..n][i].translation);
        assert LastWithId(entries, i, id);
      }
    }
  }

  ghost predicate LastWithId(entries: seq<Entry>, i: nat, id: Bytes) {
    && i < |entries| && IdOf(entries[i].original) == id
    && forall j :: i < j < |entries| ==> IdOf(entries[j].original) != id
  }

  // ------------------------------------------------------------ main results

  // The app reads every compiled catalogue, and finds exactly the ids that
  // were compiled; the translation of an id is that of its entry, and when
  // several entries have the id, of the one last in byte order.
  lemma {:induction false} CompiledCatalogueReadsBack(unsorted: seq<Entry>, isUtf8: Bytes -> bool, bigEndian: bool)
    requires FileFits(Sorted(unsorted))
    requires forall e :: e in unsorted ==> isUtf8(e.original) && isUtf8(e.translation)
    ensures var read := ReadSpec(FileOf(Sorted(unsorted), bigEndian), isUtf8);
      && read.Some?
      && (forall id :: id in read.value <==> exists e :: e in unsorted && IdOf(e.original) == id)
      && (forall id :: id in read.value ==> exists e :: TranslatedBy(unsorted, e, id, read.value[id]))
  {
    hide FileFits, FileOf, Sorted, InOrder, IdOf, Forms, WordAt, ByteOrder, ReadUpTo, MessagesOf;
    var entries := Sorted(unsorted);
    SortedIsSorted(unsorted);
    forall e ensures e in entries <==> e in unsorted {
      assert e in multiset(entries) <==> e in multiset(unsorted);
    }
    HeaderReadsBack(entries, bigEndian);
    EntriesReadBack(entries, isUtf8, |entries|, bigEndian);
    assert entries[..|entries|] == entries;
    var messages := MessagesOf(entries);
    assert ReadSpec(FileOf(entries, bigEndian), isUtf8) == Some(messages);
    forall id ensures id in messages <==> exists e :: e in unsorted && IdOf(e.original) == id {
      MessageOf(entries, id);
      if e :| e in unsorted && IdOf(e.original) == id {
        var i :| 0 <= i < |entries| && entries[i] == e;
      }
    }
    forall id | id in messages ensures exists e :: TranslatedBy(unsorted, e, id, messages[id]) {
      MessageOf(entries, id);
      var i :| 0 <= i < |entries| && LastWithId(entries, i, id) && messages[id] == Forms(entries[i].translation);
      LastIsTranslation(unsorted, entries, i, id);
    }
  }

  // `e` is the entry whose translation the id has: the last of those with it.
  ghost predicate TranslatedBy(entries: seq<Entry>, e: Entry, id: Bytes, forms: seq<Bytes>) {
    && e in entries && IdOf(e.original) == id && forms == Forms(e.translation)
    && forall other :: other in entries && IdOf(other.original) == id ==> other == e || InOrder(other, e)
  }

  lemma LastIsTranslation(unsorted: seq<Entry>, entries: seq<Entry>, i: nat, id: Bytes)
    requires IsSorted(entries) && forall e :: e in entries <==> e in unsorted
    requires LastWithId(entries, i, id)
    ensures TranslatedBy(unsorted, entries[i], id, Forms(entries[i].translation))
  {
  }

  // A message to compile: its context and id in one, the plural id, and the
  // forms of its translation.
  datatype Message = Message(key: Bytes, plural: Option<Bytes>, forms: seq<Bytes>)

  // None of its strings holds a NUL.
  predicate NulFree(m: Message) {
    && 0 !in m.key && (m.plural.Some? ==> 0 !in m.plural.value)
    && m.forms != [] && forall i :: 0 <= i < |m.forms| ==> 0 !in m.forms[i]
  }

  function EntryOf(m: Message): Entry {
    Entry(if m.plural.Some? then m.key + [0] + m.plural.value else m.key, Join(m.forms, [0]))
  }

  function EntriesOf(ms: seq<Message>): (entries: seq<Entry>)
    ensures |entries| == |ms|
    ensures forall i :: 0 <= i < |ms| ==> entries[i] == EntryOf(ms[i])
  {
    seq(|ms|, i requires 0 <= i < |ms| => EntryOf(ms[i]))
  }

  // The id is the part before the plural id, and the forms are those joined.
  lemma EntryIsRead(m: Message)
    requires NulFree(m)
    ensures IdOf(EntryOf(m).original) == m.key
    ensures Forms(EntryOf(m).translation) == m.forms
  {
    SplitOfPlain(m.key, 0);
    if m.plural.Some? {
      SplitAtSeparator(m.key, 0, m.plural.value);
    }
    SplitOfJoin(m.forms, 0);
  }

  // What a catalogue compiled from messages gives for a key: the forms of its
  // message, whether that has a plural id or not; of several messages with the
  // key, of the one whose entry comes last in byte order.
  lemma {:induction false} MessagesReadBack(ms: seq<Message>, isUtf8: Bytes -> bool, bigEndian: bool)
    requires forall i :: 0 <= i < |ms| ==> NulFree(ms[i])
    requires FileFits(Sorted(EntriesOf(ms))) && AllUtf8(EntriesOf(ms), isUtf8)
    ensures var read := ReadSpec(FileOf(Sorted(EntriesOf(ms)), bigEndian), isUtf8);
      && read.Some?
      && (forall key :: key in read.value <==> exists m :: m in ms && m.key == key)
      && (forall key :: key in read.value ==> exists m :: LastWithKey(ms, m, key) && read.value[key] == m.forms)
  {
    hide FileFits, FileOf, Sorted, InOrder, IdOf, Forms, EntryOf, NulFree, ReadSpec;
    var entries := EntriesOf(ms);
    CompiledCatalogueReadsBack(entries, isUtf8, bigEndian);
    forall m | m in ms ensures IdOf(EntryOf(m).original) == m.key && Forms(EntryOf(m).translation) == m.forms {
      EntryIsRead(m);
    }
    var read := ReadSpec(FileOf(Sorted(entries), bigEndian), isUtf8).value;
    forall key ensures key in read <==> exists m :: m in ms && m.key == key {
      if e :| e in entries && IdOf(e.original) == key {
        var m := MessageOfEntry(ms, e);
        assert m.key == key;
      }
      if m :| m in ms && m.key == key {
        assert EntryOf(m) in entries;
      }
    }
    forall key | key in read ensures exists m :: LastWithKey(ms, m, key) && read[key] == m.forms {
      var e :| TranslatedBy(entries, e, key, read[key]);
      var m := MessageOfEntry(ms, e);
      forall other | other in ms && other.key == key ensures EntryOf(other) == EntryOf(m) || InOrder(EntryOf(other), EntryOf(m)) {
        assert EntryOf(other) in entries;
      }
      assert LastWithKey(ms, m, key);
    }
  }

  lemma MessageOfEntry(ms: seq<Message>, e: Entry) returns (m: Message)
    requires e in EntriesOf(ms)
    ensures m in ms && EntryOf(m) == e
  {
    var i :| 0 <= i < |ms| && EntriesOf(ms)[i] == e;
    m := ms[i];
  }

  ghost predicate LastWithKey(ms: seq<Message>, m: Message, key: Bytes) {
    && m in ms && m.key == key
    && forall other :: other in ms && other.key == key ==> EntryOf(other) == EntryOf(m) || InOrder(EntryOf(other), EntryOf(m))
  }

  // With one message for each key the app finds the forms of every message.
  lemma {:induction false} EveryMessageIsFound(ms: seq<Message>, isUtf8: Bytes -> bool, bigEndian: bool, m: Message)
    requires forall i :: 0 <= i < |ms| ==> NulFree(ms[i])
    requires FileFits(Sorted(EntriesOf(ms))) && AllUtf8(EntriesOf(ms), isUtf8)
    requires m in ms && forall other :: other in ms && other.key == m.key ==> other == m
    ensures var read := ReadSpec(FileOf(Sorted(EntriesOf(ms)), bigEndian), isUtf8);
      read.Some? && m.key in read.value && read.value[m.key] == m.forms
  {
    hide FileFits, FileOf, Sorted, InOrder, EntryOf, NulFree, ReadSpec;
    MessagesReadBack(ms, isUtf8, bigEndian);
  }

  // A reader that bisects the sorted originals, as the format allows, finds the
  // translation of an original, and nothing for a string that is none.
  method Bisect(file: Bytes, isUtf8: Bytes -> bool, key: Bytes, ghost entries: seq<Entry>) returns (found: Option<Bytes>)
    requires FileFits(entries) && IsSorted(entries) && AllUtf8(entries, isUtf8) && file == FileOf(entries, false)
    ensures found.Some? ==> Entry(key, found.value) in entries
    ensures found.None? ==> forall i :: 0 <= i < |entries| ==> entries[i].original != key
  {
    HeaderReadsBack(entries, false);
    hide FileFits, FileOf, WordAt, StringAt, Before;
    var count, originals, translations := WordAt(file, 8, false), WordAt(file, 12, false), WordAt(file, 16, false);
    var low, high := 0, count.value;
    while low < high
      invariant 0 <= low <= high <= |entries|
      invariant forall i :: 0 <= i < low ==> Before(entries[i].original, key)
      invariant forall i :: high <= i < |entries| ==> Before(key, entries[i].original)
    {
      var middle := (low + high) / 2;
      EntryReadsBack(entries, isUtf8, middle, false);
      var original := StringAt(file, isUtf8, false, originals.value, middle).value;
      if original == key {
        found := StringAt(file, isUtf8, false, translations.value, middle);
        assert entries[middle] == Entry(key, found.value);
        return;
      }
      Halve(entries, middle, key);
      if Before(original, key) {
        low := middle + 1;
      } else {
        high := middle;
      }
    }
    forall i | 0 <= i < |entries| ensures entries[i].original != key {
      BeforeIsStrict(entries[i].original, key);
    }
    found := None;
  }

  lemma Halve(entries: seq<Entry>, middle: nat, key: Bytes)
    requires IsSorted(entries) && middle < |entries| && entries[middle].original != key
    ensures Before(entries[middle].original, key) ==> forall i :: 0 <= i <= middle ==> Before(entries[i].original, key)
    ensures !Before(entries[middle].original, key) ==> forall i :: middle <= i < |entries| ==> Before(key, entries[i].original)
  {
    hide Before;
    BeforeIsStrict(entries[middle].original, key);
    forall i | 0 <= i < middle && Before(entries[middle].original, key) ensures Before(entries[i].original, key) {
      assert InOrder(entries[i], entries[middle]);
      if Before(entries[i].original, entries[middle].original) {
        BeforeIsTransitive(entries[i].original, entries[middle].original, key);
      }
    }
    forall i | middle < i < |entries| && Before(key, entries[middle].original) ensures Before(key, entries[i].original) {
      assert InOrder(entries[middle], entries[i]);
      if Before(entries[middle].original, entries[i].original) {
        BeforeIsTransitive(key, entries[middle].original, entries[i].original);
      }
    }
  }
}
