// Progress on the dock icon: the operations of all windows share one bar.
// (native/crates/ox-app/src/launcher_progress.rs)

module LauncherProgress {
  import opened Text

  datatype IconUpdate = Show(fraction: real) | Hide

  // Each running operation's fraction by its number, the number the next one
  // gets, and the whole percent shown last.
  datatype State = State(fractions: map<nat, real>, next: nat, shown: Option<nat>)

  // The fraction from 0 to 1 that is nearest.
  function Clamp(fraction: real): (clamped: real)
    ensures 0.0 <= clamped <= 1.0
    ensures (clamped < fraction ==> clamped == 1.0) && (clamped > fraction ==> clamped == 0.0)
  {
    if fraction < 0.0 then 0.0 else if fraction > 1.0 then 1.0 else fraction
  }

  // The nearest whole percent, halves up.
  function WholePercent(fraction: real): (percent: nat)
    ensures percent <= 100
    ensures percent as real - 0.5 <= Clamp(fraction) * 100.0 < percent as real + 0.5
  {
    (Clamp(fraction) * 100.0 + 0.5).Floor
  }

  // The sum of the fractions of the operations below `n`.
  function SumBelow(fractions: map<nat, real>, n: nat): real {
    if n == 0 then 0.0
    else SumBelow(fractions, n - 1) + if n - 1 in fractions then fractions[n - 1] else 0.0
  }

  function Mean(s: State): real
    requires s.fractions != map[]
  {
    assert |s.fractions| > 0;
    SumBelow(s.fractions, s.next) / |s.fractions| as real
  }

  ghost predicate Valid(s: State) {
    forall k :: k in s.fractions ==> k < s.next && 0.0 <= s.fractions[k] <= 1.0
  }

  datatype Op = Add | Set(number: nat, fraction: Option<real>)

  // An operation sets only the number it was given.
  predicate Possible(s: State, op: Op) {
    op.Set? ==> op.number < s.next
  }

  function Changed(s: State, number: nat, fraction: Option<real>): State {
    s.(fractions := if fraction.Some? then s.fractions[number := Clamp(fraction.value)] else s.fractions - {number})
  }

  function Apply(s: State, op: Op): (State, Option<IconUpdate>) {
    match op
    case Add => (State(s.fractions[s.next := 0.0], s.next + 1, s.shown), None)
    case Set(number, fraction) =>
      var changed := Changed(s, number, fraction);
      if changed.fractions == map[] then (changed.(shown := None), if s.shown.Some? then Some(Hide) else None)
      else
        var percent := WholePercent(Mean(changed));
        (changed.(shown := Some(percent)), if s.shown != Some(percent) then Some(Show(Mean(changed))) else None)
  }

  class Operations {
    var fractions: map<nat, real>
    var next: nat
    var shown: Option<nat>

    constructor ()
      ensures Now() == State(map[], 0, None)
    {
      fractions, next, shown := map[], 0, None;
    }

    function Now(): State
      reads this
    {
      State(fractions, next, shown)
    }

    // One more operation, without progress yet.
    method AddOperation() returns (number: nat)
      modifies this
      ensures number == old(next) && Now() == Apply(old(Now()), Add).0
    {
      number := next;
      next := next + 1;
      fractions := fractions[number := 0.0];
    }

    // Sets operation `number`, or removes it, and returns the update to send.
    method SetOperation(number: nat, fraction: Option<real>) returns (update: Option<IconUpdate>)
      requires Valid(Now()) && number < next
      modifies this
      ensures Valid(Now()) && (Now(), update) == Apply(old(Now()), Set(number, fraction))
    {
      match fraction {
        case Some(value) => fractions := fractions[number := Clamp(value)];
        case None => fractions := fractions - {number};
      }
      if fractions == map[] {
        update := if shown.Some? then Some(Hide) else None;
        shown := None;
        return;
      }
      assert |fractions| > 0;
      var sum := 0.0;
      for k := 0 to next
        invariant sum == SumBelow(fractions, k)
      {
        if k in fractions {
          sum := sum + fractions[k];
        }
      }
      var mean := sum / |fractions| as real;
      var percent := WholePercent(mean);
      update := if shown != Some(percent) then Some(Show(mean)) else None;
      shown := Some(percent);
    }
  }

  // --------------------------------------------------------- what the dock sees

  // The updates sent over a run of operations, and the state after it; None
  // when an operation sets a number it was not given.
  function Run(ops: seq<Op>): Option<(State, seq<IconUpdate>)> {
    if ops == [] then Some((State(map[], 0, None), []))
    else
      match Run(ops[..|ops| - 1])
      case None => None
      case Some((s, updates)) =>
        var op := ops[|ops| - 1];
        if !Possible(s, op) then None
        else
          var (next, update) := Apply(s, op);
          Some((next, updates + if update.Some? then [update.value] else []))
  }

  // The whole percent of the bar a dock draws after one update.
  function Drawn(update: IconUpdate): Option<nat> {
    match update
    case Show(fraction) => Some(WholePercent(fraction))
    case Hide => None
  }

  // The bar after all updates: a dock begins without one.
  function Bar(updates: seq<IconUpdate>): Option<nat> {
    if updates == [] then None else Drawn(updates[|updates| - 1])
  }

  // No update repeats what the one before it drew.
  ghost predicate NoRepeats(updates: seq<IconUpdate>) {
    forall i :: 0 <= i < |updates| - 1 ==> Drawn(updates[i]) != Drawn(updates[i + 1])
  }

  lemma {:induction false} SumInRange(fractions: map<nat, real>, n: nat)
    requires forall k :: k in fractions ==> 0.0 <= fractions[k] <= 1.0
    ensures 0.0 <= SumBelow(fractions, n) <= |set k | k in fractions && k < n| as real
  {
    if n > 0 {
      SumInRange(fractions, n - 1);
      var before, all := set k | k in fractions && k < n - 1, set k | k in fractions && k < n;
      if n - 1 in fractions {
        assert all == before + {n - 1};
      } else {
        assert all == before;
      }
    }
  }

  // The mean is a fraction itself.
  lemma MeanInRange(s: State)
    requires Valid(s) && s.fractions != map[]
    ensures 0.0 <= Mean(s) <= 1.0
  {
    SumInRange(s.fractions, s.next);
    assert (set k | k in s.fractions && k < s.next) == s.fractions.Keys;
    var sum, count := SumBelow(s.fractions, s.next), |s.fractions| as real;
    assert |s.fractions.Keys| == |s.fractions|;
    Quotient(sum, count);
  }

  lemma Quotient(sum: real, count: real)
    requires 0.0 <= sum <= count && count > 0.0
    ensures 0.0 <= sum / count <= 1.0
  {
  }

  // In every run the dock's bar is what the operations last showed: it is drawn
  // exactly while `shown` is set, at that percent, and no update is a repeat.
  lemma {:induction false} EveryRunDrawsShown(ops: seq<Op>)
    requires Run(ops).Some?
    ensures var (s, updates) := Run(ops).value;
      Valid(s) && Bar(updates) == s.shown && NoRepeats(updates)
    ensures var (_, updates) := Run(ops).value;
      updates != [] ==> updates[0].Show?
    decreases |ops|
  {
    hide Apply, Possible, Valid, Bar, NoRepeats;
    if ops != [] {
      EveryRunDrawsShown(ops[..|ops| - 1]);
      var (s, updates) := Run(ops[..|ops| - 1]).value;
      StepDrawsShown(s, updates, ops[|ops| - 1]);
    } else {
      NothingDrawn();
    }
  }

  lemma NothingDrawn()
    ensures Valid(State(map[], 0, None)) && Bar([]) == None && NoRepeats([])
  {
  }

  lemma StepDrawsShown(s: State, updates: seq<IconUpdate>, op: Op)
    requires Valid(s) && Bar(updates) == s.shown && NoRepeats(updates) && Possible(s, op)
    requires updates != [] ==> updates[0].Show?
    ensures var (next, update) := Apply(s, op);
      var after := updates + if update.Some? then [update.value] else [];
      Valid(next) && Bar(after) == next.shown && NoRepeats(after) && (after != [] ==> after[0].Show?)
  {
    hide Mean, WholePercent;
    var (next, update) := Apply(s, op);
    if update.Some? {
      OneMoreDrawn(updates, update.value);
    } else {
      assert updates + [] == updates;
    }
  }

  lemma OneMoreDrawn(updates: seq<IconUpdate>, update: IconUpdate)
    requires NoRepeats(updates) && Drawn(update) != Bar(updates)
    ensures NoRepeats(updates + [update]) && Bar(updates + [update]) == Drawn(update)
  {
  }

  // After each change that leaves operations, the percent shown is the mean's,
  // rounded; after the last one is removed no bar is left.
  lemma ShownIsTheMean(ops: seq<Op>, number: nat, fraction: Option<real>)
    requires Run(ops + [Set(number, fraction)]).Some?
    ensures var (s, updates) := Run(ops + [Set(number, fraction)]).value;
      && (s.fractions == map[] ==> s.shown == None && Bar(updates) == None)
      && (s.fractions != map[] ==>
            && 0.0 <= Mean(s) <= 1.0
            && s.shown.Some? && s.shown.value <= 100 && Bar(updates) == s.shown
            && s.shown.value as real - 0.5 <= Mean(s) * 100.0 < s.shown.value as real + 0.5)
  {
    hide SumBelow;
    var all := ops + [Set(number, fraction)];
    EveryRunDrawsShown(all);
    assert all[..|all| - 1] == ops;
    var (s, _) := Run(all).value;
    if s.fractions != map[] {
      MeanInRange(s);
    }
  }
}
