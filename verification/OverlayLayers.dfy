// The lower layers of an overlay mount, read from its options in the mount
// table. (native/crates/ox-core/src/drive.rs)

module OverlayLayers {
  import opened Text

  // ------------------------------------------------------------ octal escapes

  const BACKSLASH: Byte := 92
  const COLON: Byte := 58
  const COMMA: Byte := 44
  const QUESTION: Byte := 63

  predicate IsOctal(b: Byte) {
    48 <= b <= 55
  }

  // An octal escape starts at `at`.
  predicate EscapeAt(text: Bytes, at: nat) {
    at + 4 <= |text| && text[at] == BACKSLASH && IsOctal(text[at + 1]) && IsOctal(text[at + 2]) && IsOctal(text[at + 3])
  }

  function OctalValue(text: Bytes, at: nat): Byte
    requires EscapeAt(text, at)
  {
    var a: int, b: int, c: int := text[at + 1], text[at + 2], text[at + 3];
    var value := (a - 48) * 64 + (b - 48) * 8 + (c - 48);
    if value < 256 then value else QUESTION
  }

  // `text` from `at` on with its octal escapes decoded.
  function UnescapedFrom(text: Bytes, at: nat): Bytes
    decreases |text| - at
  {
    if at >= |text| then []
    else if EscapeAt(text, at) then [OctalValue(text, at)] + UnescapedFrom(text, at + 4)
    else [text[at]] + UnescapedFrom(text, at + 1)
  }

  method Unescape(text: Bytes) returns (decoded: Bytes)
    ensures decoded == UnescapedFrom(text, 0)
  {
    hide EscapeAt, OctalValue, UnescapedFrom;
    decoded := [];
    var index := 0;
    ghost var all := UnescapedFrom(text, 0);
    while index < |text|
      invariant all == decoded + UnescapedFrom(text, index)
      decreases |text| - index
    {
      UnescapedOnce(text, index);
      if EscapeAt(text, index) {
        decoded := decoded + [OctalValue(text, index)];
        index := index + 4;
      } else {
        decoded := decoded + [text[index]];
        index := index + 1;
      }
    }
    UnescapedOnce(text, index);
    assert decoded + [] == decoded;
  }

  lemma UnescapedOnce(text: Bytes, at: nat)
    ensures at >= |text| ==> UnescapedFrom(text, at) == []
    ensures at < |text| ==>
      UnescapedFrom(text, at) ==
        if EscapeAt(text, at) then [OctalValue(text, at)] + UnescapedFrom(text, at + 4)
        else [text[at]] + UnescapedFrom(text, at + 1)
  {
    hide EscapeAt, OctalValue;
  }

  // "\" and three digits are the byte with that octal number, or "?" when there
  // is none; any other byte is itself.
  lemma {:induction false} OctalIsDecoded(a: nat, b: nat, c: nat, rest: Bytes)
    requires a < 8 && b < 8 && c < 8
    ensures var value := 64 * a + 8 * b + c;
      UnescapedFrom(['\\' as int, '0' as int + a, '0' as int + b, '0' as int + c] + rest, 0)
        == [if value <= 255 then value else '?' as int] + UnescapedFrom(rest, 0)
  {
    hide UnescapedFrom;
    var head: Bytes := ['\\' as int, '0' as int + a, '0' as int + b, '0' as int + c];
    assert (head + rest)[1] == head[1] && (head + rest)[2] == head[2] && (head + rest)[3] == head[3];
    UnescapedOnce(head + rest, 0);
    UnescapeShift(head, rest, 0);
  }

  lemma {:induction false} OtherIsKept(b: Byte, rest: Bytes)
    requires b == '\\' as int ==> |rest| < 3 || exists i | 0 <= i < 3 :: !('0' as int <= rest[i] <= '7' as int)
    ensures UnescapedFrom([b] + rest, 0) == [b] + UnescapedFrom(rest, 0)
  {
    hide UnescapedFrom;
    var text := [b] + rest;
    assert forall i :: 0 <= i < |rest| ==> text[i + 1] == rest[i];
    assert !EscapeAt(text, 0);
    UnescapedOnce(text, 0);
    UnescapeShift([b], rest, 0);
  }

  // ---------------------------------------------------------- splitting layers

  // What "\\" and the byte after it stand for.
  function Unguarded(b: Byte): Bytes {
    if b == COLON then [COLON] else [BACKSLASH, b]
  }

  // The parts between unguarded colons; `layer` is what was read of the first
  // one before `list`.
  function PartsFrom(list: Bytes, layer: Bytes): (parts: seq<Bytes>)
    ensures parts != []
    decreases |list|
  {
    if list == [] then [layer]
    else if list[0] == BACKSLASH then
      if |list| == 1 then [layer] else PartsFrom(list[2..], layer + Unguarded(list[1]))
    else if list[0] == COLON then [layer] + PartsFrom(list[1..], [])
    else PartsFrom(list[1..], layer + [list[0]])
  }

  function NotEmpty(parts: seq<Bytes>): seq<Bytes> {
    if parts == [] then []
    else if parts[0] == [] then NotEmpty(parts[1..])
    else [parts[0]] + NotEmpty(parts[1..])
  }

  method SplitLayers(list: Bytes) returns (layers: seq<Bytes>)
    ensures layers == NotEmpty(PartsFrom(list, []))
  {
    var done: seq<Bytes>, last: Bytes := [], [];
    var rest := list;
    while rest != []
      invariant PartsFrom(list, []) == done + PartsFrom(rest, last)
      decreases |rest|
    {
      var character := rest[0];
      ghost var before := done + PartsFrom(rest, last);
      if character == BACKSLASH {
        if |rest| > 1 {
          ghost var read := last;
          if rest[1] != COLON {
            last := last + [BACKSLASH];
          }
          last := last + [rest[1]];
          assert last == read + Unguarded(rest[1]);
          rest := rest[2..];
        } else {
          rest := [];
        }
      } else if character == COLON {
        done := done + [last];
        last := [];
        rest := rest[1..];
      } else {
        last := last + [character];
        rest := rest[1..];
      }
      assert done + PartsFrom(rest, last) == before;
    }
    layers := Retain(done + [last]);
  }

  // The parts that are not empty.
  method Retain(parts: seq<Bytes>) returns (kept: seq<Bytes>)
    ensures kept == NotEmpty(parts)
  {
    kept := [];
    for i := 0 to |parts|
      invariant NotEmpty(parts) == kept + NotEmpty(parts[i..])
    {
      assert parts[i..][0] == parts[i] && parts[i..][1..] == parts[i + 1..];
      if parts[i] != [] {
        kept := kept + [parts[i]];
      }
    }
  }

  // -------------------------------------------------------------- the options

  // "lowerdir=" and "lowerdir+="
  const LOWERDIR: Bytes := [108, 111, 119, 101, 114, 100, 105, 114, 61]
  const LOWERDIR_ADD: Bytes := [108, 111, 119, 101, 114, 100, 105, 114, 43, 61]

  predicate Spells(bytes: Bytes, text: string) {
    |bytes| == |text| && forall i | 0 <= i < |bytes| :: bytes[i] == text[i] as int
  }

  lemma OptionNames()
    ensures Spells(LOWERDIR, "lowerdir=") && Spells(LOWERDIR_ADD, "lowerdir+=")
    ensures Spells([BACKSLASH, COLON, COMMA, QUESTION], "\\:,?")
  {
  }

  function UnescapeAll(parts: seq<Bytes>): seq<Bytes> {
    if parts == [] then [] else [UnescapedFrom(parts[0], 0)] + UnescapeAll(parts[1..])
  }

  method UnescapeEach(parts: seq<Bytes>) returns (layers: seq<Bytes>)
    ensures layers == UnescapeAll(parts)
  {
    hide UnescapedFrom;
    layers := [];
    for i := 0 to |parts|
      invariant UnescapeAll(parts) == layers + UnescapeAll(parts[i..])
    {
      assert parts[i..][0] == parts[i] && parts[i..][1..] == parts[i + 1..];
      var layer := Unescape(parts[i]);
      layers := layers + [layer];
    }
  }

  // The layers one option names.
  function LayersOf(option: Bytes): seq<Bytes> {
    if LOWERDIR <= option then UnescapeAll(NotEmpty(PartsFrom(option[|LOWERDIR|..], [])))
    else if LOWERDIR_ADD <= option then [UnescapedFrom(option[|LOWERDIR_ADD|..], 0)]
    else []
  }

  function LayersOfAll(options: seq<Bytes>): seq<Bytes> {
    if options == [] then [] else LayersOf(options[0]) + LayersOfAll(options[1..])
  }

  function LayersIn(options: Bytes): seq<Bytes> {
    LayersOfAll(Split(options, COMMA))
  }

  lemma FirstOption(options: seq<Bytes>)
    requires options != []
    ensures LayersOfAll(options) == LayersOf(options[0]) + LayersOfAll(options[1..])
  {
  }

  // The lower layers the options of an overlay mount name, in order.
  method LowerLayers(options: Bytes) returns (layers: seq<Bytes>)
    ensures layers == LayersIn(options)
  {
    hide UnescapedFrom, PartsFrom, NotEmpty, Split, UnescapeAll, LayersOfAll, LayersOf;
    layers := [];
    var parts := Split(options, COMMA);
    assert parts[0..] == parts;
    for i := 0 to |parts|
      invariant LayersOfAll(parts) == layers + LayersOfAll(parts[i..])
    {
      var option := parts[i];
      ghost var before := layers;
      FirstOption(parts[i..]);
      OneOption(option);
      assert parts[i..][0] == option && parts[i..][1..] == parts[i + 1..];
      if LOWERDIR <= option {
        var list := SplitLayers(option[|LOWERDIR|..]);
        var named := UnescapeEach(list);
        layers := layers + named;
      } else if LOWERDIR_ADD <= option {
        var layer := Unescape(option[|LOWERDIR_ADD|..]);
        layers := layers + [layer];
      }
      assert layers == before + LayersOf(option);
    }
    NoOption();
  }

  lemma OneOption(option: Bytes)
    ensures LOWERDIR <= option ==> LayersOf(option) == UnescapeAll(NotEmpty(PartsFrom(option[|LOWERDIR|..], [])))
    ensures !(LOWERDIR <= option) && LOWERDIR_ADD <= option ==> LayersOf(option) == [UnescapedFrom(option[|LOWERDIR_ADD|..], 0)]
    ensures !(LOWERDIR <= option) && !(LOWERDIR_ADD <= option) ==> LayersOf(option) == []
  {
  }

  lemma NoOption()
    ensures LayersOfAll([]) == []
  {
  }

  // ---------------------------------------------------------------- encoding

  // The bytes that octal escapes stand for: white space, "\" and ",".
  predicate IsEscaped(b: Byte) {
    b == 32 || b == 9 || b == 10 || b == BACKSLASH || b == COMMA
  }

  function EscapeByte(b: Byte): (text: Bytes)
    ensures |text| == 1 || |text| == 4
  {
    if IsEscaped(b) then [BACKSLASH, 48 + b / 64, 48 + b / 8 % 8, 48 + b % 8] else [b]
  }

  function Escape(layer: Bytes): Bytes {
    if layer == [] then [] else EscapeByte(layer[0]) + Escape(layer[1..])
  }

  // ":" as "\:".
  function GuardColons(text: Bytes): Bytes {
    if text == [] then []
    else (if text[0] == COLON then [BACKSLASH, COLON] else [text[0]]) + GuardColons(text[1..])
  }

  function Guarded(layers: seq<Bytes>): (texts: seq<Bytes>)
    ensures |texts| == |layers|
  {
    if layers == [] then [] else [GuardColons(Escape(layers[0]))] + Guarded(layers[1..])
  }

  // The option that names the layers in one list.
  function ListOption(layers: seq<Bytes>): Bytes {
    LOWERDIR + Join(Guarded(layers), [COLON])
  }

  // An option as a mount has it: a list of layers, one more layer, or another
  // option.
  datatype MountOption = Layers(layers: seq<Bytes>) | Layer(layer: Bytes) | Other(text: Bytes)

  function OptionText(option: MountOption): Bytes {
    match option
    case Layers(layers) => ListOption(layers)
    case Layer(layer) => LOWERDIR_ADD + Escape(layer)
    case Other(text) => text
  }

  function OptionTexts(options: seq<MountOption>): (texts: seq<Bytes>)
    ensures |texts| == |options|
  {
    if options == [] then [] else [OptionText(options[0])] + OptionTexts(options[1..])
  }

  function LayersNamed(options: seq<MountOption>): seq<Bytes> {
    if options == [] then []
    else
      (match options[0]
       case Layers(layers) => layers
       case Layer(layer) => [layer]
       case Other(_) => [])
      + LayersNamed(options[1..])
  }

  predicate IsPlain(option: MountOption) {
    match option
    case Layers(layers) => [] !in layers
    case Layer(_) => true
    case Other(text) => COMMA !in text && !(LOWERDIR <= text) && !(LOWERDIR_ADD <= text)
  }

  // ------------------------------------------------------------- decoding back

  lemma {:induction false} UnescapeShift(head: Bytes, text: Bytes, at: nat)
    requires at <= |text|
    ensures UnescapedFrom(head + text, |head| + at) == UnescapedFrom(text, at)
    decreases |text| - at
  {
    hide EscapeAt, OctalValue, UnescapedFrom;
    UnescapedOnce(text, at);
    UnescapedOnce(head + text, |head| + at);
    if at < |text| {
      SameEscape(head, text, at);
      if EscapeAt(text, at) {
        UnescapeShift(head, text, at + 4);
      } else {
        UnescapeShift(head, text, at + 1);
      }
    }
  }

  lemma SameEscape(head: Bytes, text: Bytes, at: nat)
    requires at < |text|
    ensures (head + text)[|head| + at] == text[at]
    ensures EscapeAt(head + text, |head| + at) == EscapeAt(text, at)
    ensures EscapeAt(text, at) ==> at + 4 <= |text|
    ensures EscapeAt(text, at) ==> OctalValue(head + text, |head| + at) == OctalValue(text, at)
  {
  }

  lemma {:induction false} EscapeReadsBack(layer: Bytes)
    ensures UnescapedFrom(Escape(layer), 0) == layer
  {
    hide UnescapedFrom;
    UnescapedOnce(Escape(layer), 0);
    if layer != [] {
      var head, rest := EscapeByte(layer[0]), Escape(layer[1..]);
      EscapeReadsBack(layer[1..]);
      UnescapeShift(head, rest, 0);
      assert layer == [layer[0]] + layer[1..];
      var text := head + rest;
      if IsEscaped(layer[0]) {
        assert text[0] == BACKSLASH && EscapeAt(text, 0) && OctalValue(text, 0) == layer[0];
      } else {
        assert text[0] == layer[0] && !EscapeAt(text, 0);
      }
    }
  }

  // Every "\" in an escaped layer is followed by a digit, so guarding its
  // colons is undone by the split.
  lemma {:induction false} GuardedEscape(layer: Bytes, read: Bytes, tail: Bytes)
    ensures PartsFrom(GuardColons(Escape(layer)) + tail, read) == PartsFrom(tail, read + Escape(layer))
    decreases |layer|
  {
    hide PartsFrom, EscapeByte;
    if layer == [] {
      assert [] + tail == tail && read + [] == read;
    } else {
      var head, rest := EscapeByte(layer[0]), Escape(layer[1..]);
      assert Escape(layer) == head + rest;
      hide Escape, GuardColons;
      GuardedByte(layer[0], rest, read, tail);
      GuardedEscape(layer[1..], read + head, tail);
      assert read + head + rest == read + (head + rest);
    }
  }

  lemma GuardedByte(b: Byte, rest: Bytes, read: Bytes, tail: Bytes)
    ensures PartsFrom(GuardColons(EscapeByte(b) + rest) + tail, read) == PartsFrom(GuardColons(rest) + tail, read + EscapeByte(b))
  {
    if IsEscaped(b) {
      var text := EscapeByte(b);
      assert text == [BACKSLASH, text[1], text[2], text[3]];
      GuardedOctal(text[1], text[2], text[3], rest, read, tail);
    } else if b == COLON {
      var after := GuardColons(rest) + tail;
      assert ([COLON] + rest)[1..] == rest;
      assert GuardColons([COLON] + rest) + tail == [BACKSLASH, COLON] + after;
      assert ([BACKSLASH, COLON] + after)[2..] == after;
    } else {
      GuardPlain(b, rest);
      var after := GuardColons(rest) + tail;
      assert GuardColons([b] + rest) + tail == [b] + after;
      PartsOfPlain(b, after, read);
    }
  }

  lemma GuardedOctal(x: Byte, y: Byte, z: Byte, rest: Bytes, read: Bytes, tail: Bytes)
    requires IsOctal(x) && IsOctal(y) && IsOctal(z)
    ensures PartsFrom(GuardColons([BACKSLASH, x, y, z] + rest) + tail, read)
         == PartsFrom(GuardColons(rest) + tail, read + [BACKSLASH, x, y, z])
  {
    hide GuardColons, PartsFrom;
    GuardPlain(z, rest);
    GuardPlain(y, [z] + rest);
    GuardPlain(x, [y] + ([z] + rest));
    GuardPlain(BACKSLASH, [x] + ([y] + ([z] + rest)));
    assert [BACKSLASH, x, y, z] + rest == [BACKSLASH] + ([x] + ([y] + ([z] + rest)));
    var after := GuardColons(rest) + tail;
    assert [BACKSLASH] + ([x] + ([y] + ([z] + GuardColons(rest)))) + tail == [BACKSLASH, x] + ([y] + ([z] + after));
    PartsOfEscape(x, [y] + ([z] + after), read);
    PartsOfPlain(y, [z] + after, read + [BACKSLASH, x]);
    PartsOfPlain(z, after, read + [BACKSLASH, x] + [y]);
    assert read + [BACKSLASH, x] + [y] + [z] == read + [BACKSLASH, x, y, z];
  }

  lemma GuardPlain(b: Byte, rest: Bytes)
    requires b != COLON
    ensures GuardColons([b] + rest) == [b] + GuardColons(rest)
  {
  }

  lemma PartsOfPlain(b: Byte, rest: Bytes, read: Bytes)
    requires b != COLON && b != BACKSLASH
    ensures PartsFrom([b] + rest, read) == PartsFrom(rest, read + [b])
  {
  }

  lemma PartsOfEscape(b: Byte, rest: Bytes, read: Bytes)
    requires b != COLON
    ensures PartsFrom([BACKSLASH, b] + rest, read) == PartsFrom(rest, read + [BACKSLASH, b])
  {
  }

  function EscapedAll(layers: seq<Bytes>): seq<Bytes> {
    if layers == [] then [] else [Escape(layers[0])] + EscapedAll(layers[1..])
  }

  lemma {:induction false} PartsOfGuarded(layers: seq<Bytes>)
    requires layers != []
    ensures PartsFrom(Join(Guarded(layers), [COLON]), []) == EscapedAll(layers)
  {
    var first := GuardColons(Escape(layers[0]));
    if |layers| == 1 {
      assert Guarded(layers) == [first] && first + [] == first && layers[1..] == [];
      GuardedEscape(layers[0], [], []);
    } else {
      var rest := Join(Guarded(layers[1..]), [COLON]);
      assert Guarded(layers)[1..] == Guarded(layers[1..]);
      assert Join(Guarded(layers), [COLON]) == first + ([COLON] + rest);
      GuardedEscape(layers[0], [], [COLON] + rest);
      assert ([COLON] + rest)[1..] == rest;
      PartsOfGuarded(layers[1..]);
    }
    assert [] + Escape(layers[0]) == Escape(layers[0]);
  }

  lemma {:induction false} EscapedAllReadsBack(layers: seq<Bytes>)
    requires [] !in layers
    ensures UnescapeAll(NotEmpty(EscapedAll(layers))) == layers
  {
    if layers != [] {
      EscapeReadsBack(layers[0]);
      assert layers[0] in layers && forall layer :: layer in layers[1..] ==> layer in layers;
      assert Escape(layers[0]) != [];
      EscapedAllReadsBack(layers[1..]);
      assert layers == [layers[0]] + layers[1..];
    }
  }

  lemma ListReadsBack(layers: seq<Bytes>)
    requires [] !in layers
    ensures LayersOf(ListOption(layers)) == layers
  {
    hide PartsFrom, Guarded, UnescapedFrom;
    var option := ListOption(layers);
    assert option[|LOWERDIR|..] == Join(Guarded(layers), [COLON]);
    if layers == [] {
      EmptyListReadsBack();
    } else {
      PartsOfGuarded(layers);
      EscapedAllReadsBack(layers);
    }
  }

  lemma EmptyListReadsBack()
    ensures UnescapeAll(NotEmpty(PartsFrom(Join(Guarded([]), [COLON]), []))) == []
  {
  }

  lemma AddedReadsBack(layer: Bytes)
    ensures LayersOf(LOWERDIR_ADD + Escape(layer)) == [layer]
  {
    hide UnescapedFrom;
    var option := LOWERDIR_ADD + Escape(layer);
    assert option[8] == 43 && LOWERDIR[8] == 61;
    assert option[|LOWERDIR_ADD|..] == Escape(layer);
    EscapeReadsBack(layer);
  }

  lemma {:induction false} EscapeHasNoComma(layer: Bytes)
    ensures COMMA !in Escape(layer)
  {
    if layer != [] {
      EscapeHasNoComma(layer[1..]);
    }
  }

  lemma {:induction false} GuardHasNoComma(text: Bytes)
    requires COMMA !in text
    ensures COMMA !in GuardColons(text)
  {
    if text != [] {
      assert text[0] in text && forall b :: b in text[1..] ==> b in text;
      GuardHasNoComma(text[1..]);
    }
  }

  lemma {:induction false} JoinHasNoComma(layers: seq<Bytes>)
    ensures COMMA !in Join(Guarded(layers), [COLON])
  {
    if layers != [] {
      EscapeHasNoComma(layers[0]);
      GuardHasNoComma(Escape(layers[0]));
      JoinHasNoComma(layers[1..]);
      assert Guarded(layers)[1..] == Guarded(layers[1..]);
    }
  }

  lemma OptionReadsBack(option: MountOption)
    requires IsPlain(option)
    ensures COMMA !in OptionText(option)
    ensures LayersOf(OptionText(option)) == match option case Layers(layers) => layers case Layer(layer) => [layer] case Other(_) => []
  {
    match option
    case Layers(layers) =>
      JoinHasNoComma(layers);
      ListReadsBack(layers);
    case Layer(layer) =>
      EscapeHasNoComma(layer);
      AddedReadsBack(layer);
    case Other(_) =>
  }

  // Among any other options, every list of non-empty layers and every single
  // layer is read back as it was, in order.
  lemma {:induction false} OptionsReadBack(options: seq<MountOption>)
    requires forall i :: 0 <= i < |options| ==> IsPlain(options[i])
    ensures LayersOfAll(OptionTexts(options)) == LayersNamed(options)
    ensures forall i :: 0 <= i < |options| ==> COMMA !in OptionTexts(options)[i]
  {
    hide LayersOf, OptionText, IsPlain;
    if options != [] {
      OptionReadsBack(options[0]);
      OptionsReadBack(options[1..]);
    }
  }

  lemma {:induction false} LowerLayersReadBack(options: seq<MountOption>)
    requires options != [] && forall i :: 0 <= i < |options| ==> IsPlain(options[i])
    ensures LayersIn(Join(OptionTexts(options), [COMMA])) == LayersNamed(options)
  {
    OptionsReadBack(options);
    SplitOfJoin(OptionTexts(options), COMMA);
  }
}
