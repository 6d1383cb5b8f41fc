// Type-ahead: typing the start of a name selects the next row that has it.
// (native/crates/ox-app/src/typeahead.rs)

module TypeAhead {
  import opened Text

  // The form prefixes are compared in: any function of the text.
  type Fold = string -> string

  // A reading of a monotonic clock, in nanoseconds since its start.
  type Time = nat

  const PREFIX_TIMEOUT: Time := 1_000_000_000
  const MAX_PREFIX: nat := 256

  datatype SearchStart = AfterCurrent | AtCurrent

  // The rows searched, in display order.
  datatype Rows = Rows(count: nat, nameAt: nat -> string, current: Option<nat>)

  predicate IsControl(c: char) {
    c <= '\U{1F}' || '\U{7F}' <= c <= '\U{9F}'
  }

  predicate IsCharacter(key: string) {
    |key| == 1 && !IsControl(key[0])
  }

  function FirstSearched(rows: Rows, start: SearchStart): nat {
    if rows.current.Some? && rows.current.value < rows.count then
      if start == AfterCurrent then rows.current.value + 1 else rows.current.value
    else 0
  }

  predicate Matches(fold: Fold, rows: Rows, prefix: string, row: nat) {
    fold(prefix) <= fold(rows.nameAt(row))
  }

  lemma MatchingStarts(fold: Fold, rows: Rows, prefix: string, row: nat)
    ensures Matches(fold, rows, prefix, row) <==> exists rest: string :: fold(rows.nameAt(row)) == fold(prefix) + rest
  {
    var name, start := fold(rows.nameAt(row)), fold(prefix);
    if start <= name {
      assert name == start + name[|start|..];
    }
  }

  // The first matching row from `low` up to, not including, `high`.
  function FindIn(fold: Fold, rows: Rows, prefix: string, low: nat, high: nat): (found: Option<nat>)
    ensures found.Some? ==>
      low <= found.value < high && Matches(fold, rows, prefix, found.value)
      && forall row :: low <= row < found.value ==> !Matches(fold, rows, prefix, row)
    ensures found.None? ==> forall row :: low <= row < high ==> !Matches(fold, rows, prefix, row)
    decreases high - low
  {
    if low >= high then None
    else if Matches(fold, rows, prefix, low) then Some(low)
    else FindIn(fold, rows, prefix, low + 1, high)
  }

  // The first matching row in display order from the first searched one,
  // wrapping around (WhichRowIsFound); none only when no row matches.
  function FindPrefix(fold: Fold, rows: Rows, prefix: string, start: SearchStart): (found: Option<nat>)
    ensures found.Some? ==> found.value < rows.count && Matches(fold, rows, prefix, found.value)
    ensures prefix == "" ==> found == None
    ensures prefix != "" ==> (found.None? <==> forall row :: 0 <= row < rows.count ==> !Matches(fold, rows, prefix, row))
  {
    if prefix == "" then None
    else
      var first := FirstSearched(rows, start);
      var ahead := FindIn(fold, rows, prefix, first, rows.count);
      if ahead.Some? then ahead else FindIn(fold, rows, prefix, 0, first)
  }

  // The least matching row, of those from `low` on.
  ghost predicate IsLeast(fold: Fold, rows: Rows, prefix: string, low: nat, row: nat) {
    && low <= row < rows.count && Matches(fold, rows, prefix, row)
    && forall other :: low <= other < row ==> !Matches(fold, rows, prefix, other)
  }

  ghost predicate NoneFrom(fold: Fold, rows: Rows, prefix: string, low: nat) {
    forall row :: low <= row < rows.count ==> !Matches(fold, rows, prefix, row)
  }

  // The current row still matches.
  predicate KeepsCurrent(fold: Fold, rows: Rows, prefix: string) {
    rows.current.Some? && rows.current.value < rows.count && Matches(fold, rows, prefix, rows.current.value)
  }

  // Where the first matching row is looked for: at the current row the current
  // one is looked at first, so it is kept if it still matches; after it, last.
  lemma WhichRowIsFound(fold: Fold, rows: Rows, prefix: string, row: nat)
    requires prefix != "" && row < rows.count && Matches(fold, rows, prefix, row)
    ensures var at, after := FindPrefix(fold, rows, prefix, AtCurrent), FindPrefix(fold, rows, prefix, AfterCurrent);
      && at.Some? && after.Some?
      && (match rows.current
          case Some(current) =>
            if current < rows.count then
              && (if NoneFrom(fold, rows, prefix, current) then IsLeast(fold, rows, prefix, 0, at.value)
                  else IsLeast(fold, rows, prefix, current, at.value))
              && (Matches(fold, rows, prefix, current) ==> at.value == current)
              && (if NoneFrom(fold, rows, prefix, current + 1) then IsLeast(fold, rows, prefix, 0, after.value)
                  else IsLeast(fold, rows, prefix, current + 1, after.value))
              && (after.value == current ==> forall other :: 0 <= other < rows.count && other != current ==> !Matches(fold, rows, prefix, other))
            else at == after && IsLeast(fold, rows, prefix, 0, at.value)
          case None => at == after && IsLeast(fold, rows, prefix, 0, at.value))
  {
    hide Matches;
  }

  datatype PrefixMatch = PrefixMatch(prefix: string, row: Option<nat>, cycling: bool)

  datatype PrefixChange = StartOver | Cycle | Extend

  // The prefix typed so far and when its last key was.
  datatype Typed = Typed(prefix: string, lastKey: Option<Time>)

  predicate IsActive(s: Typed, now: Time) {
    s.lastKey.Some? && s.prefix != "" && s.lastKey.value <= now && now - s.lastKey.value < PREFIX_TIMEOUT
  }

  function ChangeFor(fold: Fold, s: Typed, key: string, now: Time): PrefixChange {
    if !IsActive(s, now) then StartOver
    else if fold(s.prefix) == fold(key) then Cycle
    else Extend
  }

  function Pushed(fold: Fold, s: Typed, key: string, now: Time): Typed {
    var prefix := if ChangeFor(fold, s, key, now) != Extend then key
                  else if |s.prefix| < MAX_PREFIX then s.prefix + key
                  else s.prefix;
    Typed(prefix, Some(now))
  }

  // One printable character, from the space on, is typed text; a named key is
  // not, nor a control character.
  lemma TypedCharacters(key: string)
    ensures IsCharacter(key) <==> exists c: char :: key == [c] && (' ' <= c < '\U{7F}' || '\U{9F}' < c)
  {
    if |key| == 1 {
      assert key == [key[0]];
    }
  }

  // The prefix lives for one second after its last key. Within that time a
  // character that folds to the whole prefix steps on, and any other is added
  // to it, up to 256 characters; after it, or when the clock went back, a
  // character starts a new prefix.
  lemma NextKey(fold: Fold, prefix: string, last: Time, key: string, now: Time)
    ensures var s := Typed(prefix, Some(last));
      var change, next := ChangeFor(fold, s, key, now), Pushed(fold, s, key, now);
      && (IsActive(s, now) <==> prefix != "" && last <= now < last + 1_000_000_000)
      && next.lastKey == Some(now)
      && if prefix != "" && last <= now < last + 1_000_000_000 then
           if fold(prefix) == fold(key) then change == Cycle && next.prefix == key
           else change == Extend && next.prefix == if |prefix| < 256 then prefix + key else prefix
         else change == StartOver && next.prefix == key
    ensures ChangeFor(fold, Typed(prefix, None), key, now) == StartOver && !IsActive(Typed(prefix, None), now)
  {
  }

  // The keys typed lately, as one prefix.
  class Controller {
    const fold: Fold
    var prefix: string
    var lastKey: Option<Time>

    constructor (fold: Fold)
      ensures this.fold == fold && Now() == Typed("", None)
    {
      this.fold := fold;
      prefix, lastKey := "", None;
    }

    function Now(): Typed
      reads this
    {
      Typed(prefix, lastKey)
    }

    method Reset()
      modifies this
      ensures Now() == Typed("", None)
    {
      prefix, lastKey := "", None;
    }

    method AppendCharacter(key: string)
      modifies this`prefix
      ensures prefix == if |old(prefix)| < MAX_PREFIX then old(prefix) + key else old(prefix)
    {
      if |prefix| < MAX_PREFIX {
        prefix := prefix + key;
      }
    }

    // Adds `key` and finds the row to select; nothing when it is no
    // printable character.
    method Push(key: string, rows: Rows, now: Time) returns (match': Option<PrefixMatch>)
      modifies this
      ensures !IsCharacter(key) ==> match' == None && Now() == old(Now())
      ensures IsCharacter(key) ==>
        var change := ChangeFor(fold, old(Now()), key, now);
        && Now() == Pushed(fold, old(Now()), key, now)
        && match' == Some(PrefixMatch(prefix,
                                      FindPrefix(fold, rows, prefix, if change == Extend then AtCurrent else AfterCurrent),
                                      change == Cycle))
      ensures IsCharacter(key) && ChangeFor(fold, old(Now()), key, now) == Extend && KeepsCurrent(fold, rows, prefix)
        ==> match'.value.row == rows.current
    {
      if !IsCharacter(key) {
        return None;
      }
      var change := ChangeFor(fold, Now(), key, now);
      if change == Extend {
        AppendCharacter(key);
      } else {
        prefix := "";
        prefix := prefix + key;
      }
      lastKey := Some(now);
      var row := FindPrefix(fold, rows, prefix, if change == Extend then AtCurrent else AfterCurrent);
      match' := Some(PrefixMatch(prefix, row, change == Cycle));
    }

    // Removes the last typed character and finds the row to select; nothing
    // when no prefix is active.
    method Backspace(rows: Rows, now: Time) returns (match': Option<PrefixMatch>)
      modifies this
      ensures !IsActive(old(Now()), now) ==> match' == None && Now() == Typed("", None)
      ensures IsActive(old(Now()), now) ==>
        && Now() == Typed(old(prefix)[..|old(prefix)| - 1], Some(now))
        && match' == Some(PrefixMatch(prefix, FindPrefix(fold, rows, prefix, AtCurrent), false))
      ensures IsActive(old(Now()), now) && prefix != "" && KeepsCurrent(fold, rows, prefix) ==> match'.value.row == rows.current
    {
      if !IsActive(Now(), now) {
        Reset();
        return None;
      }
      prefix := prefix[..|prefix| - 1];
      lastKey := Some(now);
      var row := FindPrefix(fold, rows, prefix, AtCurrent);
      match' := Some(PrefixMatch(prefix, row, false));
    }
  }

  // ------------------------------------------------------- pressing one letter

  // Presses `key` once at each of the times, every row found becoming the
  // current one; the rows found.
  function Presses(fold: Fold, s: Typed, key: string, rows: Rows, times: seq<Time>): seq<Option<nat>>
    decreases |times|
  {
    if times == [] then []
    else
      var change := ChangeFor(fold, s, key, times[0]);
      var next := Pushed(fold, s, key, times[0]);
      var row := FindPrefix(fold, rows, next.prefix, if change == Extend then AtCurrent else AfterCurrent);
      [row] + Presses(fold, next, key, rows.(current := if row.Some? then row else rows.current), times[1..])
  }

  // The same, without the typed prefix: each press goes to the next match.
  function Steps(fold: Fold, key: string, rows: Rows, n: nat): seq<Option<nat>>
    decreases n
  {
    if n == 0 then []
    else
      var row := FindPrefix(fold, rows, key, AfterCurrent);
      [row] + Steps(fold, key, rows.(current := if row.Some? then row else rows.current), n - 1)
  }

  // The times go forward with less than the timeout between them.
  ghost predicate InTime(last: Option<Time>, times: seq<Time>) {
    && (last.Some? && times != [] ==> last.value <= times[0] && times[0] - last.value < PREFIX_TIMEOUT)
    && forall i :: 0 <= i < |times| - 1 ==> times[i] <= times[i + 1] && times[i + 1] - times[i] < PREFIX_TIMEOUT
  }

  lemma {:induction false} PressesAreSteps(fold: Fold, s: Typed, key: string, rows: Rows, times: seq<Time>)
    requires IsCharacter(key) && times != []
    requires !IsActive(s, times[0]) || fold(s.prefix) == fold(key)
    requires InTime(None, times)
    ensures Presses(fold, s, key, rows, times) == Steps(fold, key, rows, |times|)
    decreases |times|
  {
    hide FindPrefix;
    var next := Pushed(fold, s, key, times[0]);
    assert next == Typed(key, Some(times[0]));
    var row := FindPrefix(fold, rows, key, AfterCurrent);
    if |times| > 1 {
      PressesAreSteps(fold, next, key, rows.(current := if row.Some? then row else rows.current), times[1..]);
    }
  }

  // The matching rows below `n`, in display order.
  function MatchingRows(fold: Fold, rows: Rows, prefix: string, n: nat): (found: seq<nat>)
    ensures forall i :: 0 <= i < |found| ==> found[i] < n && Matches(fold, rows, prefix, found[i])
    ensures forall i, j :: 0 <= i < j < |found| ==> found[i] < found[j]
    ensures forall row :: 0 <= row < n && Matches(fold, rows, prefix, row) ==> row in found
  {
    if n == 0 then []
    else
      var before := MatchingRows(fold, rows, prefix, n - 1);
      if Matches(fold, rows, prefix, n - 1) then before + [n - 1] else before
  }

  lemma {:induction false} MatchingRowsIgnoreCurrent(fold: Fold, rows: Rows, prefix: string, current: Option<nat>, n: nat)
    ensures MatchingRows(fold, rows.(current := current), prefix, n) == MatchingRows(fold, rows, prefix, n)
  {
    if n > 0 {
      MatchingRowsIgnoreCurrent(fold, rows, prefix, current, n - 1);
    }
  }

  // The place after `i` in a round of `m`, and the place `k` places on.
  function Next(i: nat, m: nat): (n: nat)
    requires i < m
    ensures n < m
  {
    if i + 1 < m then i + 1 else 0
  }

  function Turn(i: nat, k: nat, m: nat): (place: nat)
    requires i < m
    ensures place < m
    decreases k
  {
    if k == 0 then i else Turn(Next(i, m), k - 1, m)
  }

  // From a matching row, the next press finds the one after it in the list of
  // matching rows, and from the last the first.
  lemma StepFromMatch(fold: Fold, rows: Rows, key: string, i: nat)
    requires key != ""
    requires var all := MatchingRows(fold, rows, key, rows.count); i < |all| && rows.current == Some(all[i])
    ensures var all := MatchingRows(fold, rows, key, rows.count);
      FindPrefix(fold, rows, key, AfterCurrent) == Some(all[Next(i, |all|)])
  {
    hide FindPrefix, Matches, MatchingRows;
    var all := MatchingRows(fold, rows, key, rows.count);
    var found := FindPrefix(fold, rows, key, AfterCurrent);
    assert Matches(fold, rows, key, all[i]);
    assert found.Some? && found.value in all;
    var j :| 0 <= j < |all| && all[j] == found.value;
    var next := Next(i, |all|);
    assert Matches(fold, rows, key, all[next]);
    WhichRowIsFound(fold, rows, key, all[i]);
    assert all[i] < all[j] || j <= i;
    assert j < i ==> all[j] < all[i];
    assert 0 < j ==> all[0] < all[j];
  }

  // The presses go through the list of matching rows in turn, beginning with
  // the first match after the start.
  lemma {:induction false} StepsGoRound(fold: Fold, rows: Rows, key: string, n: nat, i: nat, k: nat)
    requires key != "" && k < n
    requires var all := MatchingRows(fold, rows, key, rows.count);
      i < |all| && FindPrefix(fold, rows, key, AfterCurrent) == Some(all[i])
    ensures var all := MatchingRows(fold, rows, key, rows.count);
      |Steps(fold, key, rows, n)| == n && Steps(fold, key, rows, n)[k] == Some(all[Turn(i, k, |all|)])
    decreases n
  {
    hide FindPrefix, Matches, MatchingRows;
    var all := MatchingRows(fold, rows, key, rows.count);
    if n > 1 {
      var next := rows.(current := Some(all[i]));
      MatchingRowsIgnoreCurrent(fold, rows, key, Some(all[i]), rows.count);
      StepFromMatch(fold, next, key, i);
      StepsGoRound(fold, next, key, n - 1, Next(i, |all|), if k == 0 then 0 else k - 1);
    }
  }

  lemma {:induction false} TurnWithin(i: nat, k: nat, m: nat)
    requires i < m && k < m
    ensures Turn(i, k, m) == if i + k < m then i + k else i + k - m
    decreases k
  {
    if k > 0 {
      TurnWithin(Next(i, m), k - 1, m);
    }
  }

  lemma {:induction false} TurnAgain(i: nat, a: nat, b: nat, m: nat)
    requires i < m
    ensures Turn(i, a + b, m) == Turn(Turn(i, a, m), b, m)
    decreases a
  {
    if a > 0 {
      TurnAgain(Next(i, m), a - 1, b, m);
    }
  }

  // ------------------------------------------------------------ main results

  // Over an unchanged listing with m matching rows, from any current row, one
  // letter pressed repeatedly within the timeout selects every matching row
  // exactly once in any m presses in a row.
  lemma {:induction false} EveryMatchOncePerRound(fold: Fold, s: Typed, key: string, rows: Rows, times: seq<Time>, from: nat, row: nat)
    requires IsCharacter(key) && times != [] && InTime(None, times)
    requires !IsActive(s, times[0]) || fold(s.prefix) == fold(key)
    requires row < rows.count && Matches(fold, rows, key, row)
    requires from + |MatchingRows(fold, rows, key, rows.count)| <= |times|
    ensures var m := |MatchingRows(fold, rows, key, rows.count)|;
      var found := Presses(fold, s, key, rows, times);
      && |found| == |times|
      && (exists k :: from <= k < from + m && found[k] == Some(row))
      && (forall j, k :: from <= j < from + m && from <= k < from + m && found[j] == found[k] == Some(row) ==> j == k)
  {
    hide FindPrefix, Matches, Presses, Steps;
    var all := MatchingRows(fold, rows, key, rows.count);
    var m := |all|;
    assert row in all;
    var first := FirstMatch(fold, rows, key, row);
    PressesAreSteps(fold, s, key, rows, times);
    var found := Presses(fold, s, key, rows, times);
    forall k | 0 <= k < |times| ensures |found| == |times| && found[k] == Some(all[Turn(first, k, m)]) {
      StepsGoRound(fold, rows, key, |times|, first, k);
    }
    assert |found| == |times| by { StepsGoRound(fold, rows, key, |times|, first, 0); }
    var at :| 0 <= at < m && all[at] == row;
    var k := HitInRound(first, from, at, m);
    assert found[k] == Some(row);
    forall i, j | from <= i < from + m && from <= j < from + m && found[i] == found[j] == Some(row) ensures i == j {
      assert all[Turn(first, i, m)] == all[Turn(first, j, m)];
      OncePerRound(first, from, i, j, m);
    }
  }

  lemma {:induction false} FirstMatch(fold: Fold, rows: Rows, key: string, row: nat) returns (i: nat)
    requires key != "" && row < rows.count && Matches(fold, rows, key, row)
    ensures var all := MatchingRows(fold, rows, key, rows.count);
      i < |all| && FindPrefix(fold, rows, key, AfterCurrent) == Some(all[i])
  {
    var all := MatchingRows(fold, rows, key, rows.count);
    var found := FindPrefix(fold, rows, key, AfterCurrent);
    assert found.Some? && found.value in all;
    i :| 0 <= i < |all| && all[i] == found.value;
  }

  lemma HitInRound(first: nat, from: nat, at: nat, m: nat) returns (k: nat)
    requires first < m && at < m
    ensures from <= k < from + m && Turn(first, k, m) == at
  {
    var start := Turn(first, from, m);
    var d := if at >= start then at - start else at + m - start;
    k := from + d;
    TurnAgain(first, from, d, m);
    TurnWithin(start, d, m);
  }

  lemma OncePerRound(first: nat, from: nat, i: nat, j: nat, m: nat)
    requires first < m && from <= i < from + m && from <= j < from + m
    requires Turn(first, i, m) == Turn(first, j, m)
    ensures i == j
  {
    var start := Turn(first, from, m);
    TurnAgain(first, from, i - from, m);
    TurnAgain(first, from, j - from, m);
    TurnWithin(start, i - from, m);
    TurnWithin(start, j - from, m);
  }
}
