// A tab's navigation history: the locations visited, in one list with the
// current position. (native/crates/ox-app/src/history.rs)

module History {
  import opened Text

  // What was searched for, when a step shows results.
  datatype SearchStep = SearchStep(query: string, options: string)

  datatype Step = Step(uri: string, search: Option<SearchStep>)

  datatype State = State(steps: seq<Step>, position: nat, moves: nat)

  predicate Valid(s: State) {
    s.position < |s.steps|
  }

  function Start(uri: string): State {
    State([Step(uri, None)], 0, 0)
  }

  function Current(s: State): string
    requires Valid(s)
  {
    s.steps[s.position].uri
  }

  datatype Op =
    | Push(uri: string)
    | PushSearch(search: SearchStep)
    | DropLast
    | SetSearch(newSearch: Option<SearchStep>)
    | ReplaceCurrent(newUri: string)
    | Go(delta: int)

  function Add(s: State, step: Step): State
    requires Valid(s)
  {
    State(s.steps[..s.position + 1] + [step], s.position + 1, s.moves)
  }

  // What each operation makes of the history.
  function Apply(s: State, op: Op): (next: State)
    requires Valid(s)
    ensures Valid(next)
  {
    var current := s.steps[s.position];
    match op
    case Push(uri) =>
      if current.uri == uri && current.search.None? then s else Add(s, Step(uri, None)).(moves := s.moves + 1)
    case PushSearch(search) => Add(s, Step(current.uri, Some(search)))
    case DropLast =>
      if s.position == 0 || s.position + 1 != |s.steps| then s
      else State(s.steps[..|s.steps| - 1], s.position - 1, s.moves + 1)
    case SetSearch(search) => s.(steps := s.steps[s.position := Step(current.uri, search)])
    case ReplaceCurrent(uri) => s.(steps := s.steps[s.position := Step(uri, current.search)])
    case Go(delta) =>
      if 0 <= s.position + delta < |s.steps| then State(s.steps, s.position + delta, s.moves + 1) else s
  }

  function Run(s: State, ops: seq<Op>): (end: State)
    requires Valid(s)
    ensures Valid(end)
    decreases |ops|
  {
    if ops == [] then s else Run(Apply(s, ops[0]), ops[1..])
  }

  // The steps a saved session keeps: every one but the searches that repeat
  // the location before them.
  predicate Repeats(steps: seq<Step>, i: nat)
    requires i < |steps|
  {
    i > 0 && steps[i].search.Some? && steps[i - 1].uri == steps[i].uri
  }

  function Kept(steps: seq<Step>): seq<string> {
    if steps == [] then []
    else
      var last := |steps| - 1;
      Kept(steps[..last]) + if Repeats(steps, last) then [] else [steps[last].uri]
  }

  // What is written for a session: the kept locations, and which one is shown.
  function Saved(s: State): (seq<string>, int)
    requires Valid(s)
  {
    (Kept(s.steps), |Kept(s.steps[..s.position + 1])| - 1)
  }

  function Plain(entries: seq<string>): (steps: seq<Step>)
    ensures |steps| == |entries| && forall i :: 0 <= i < |entries| ==> steps[i] == Step(entries[i], None)
  {
    seq(|entries|, i requires 0 <= i < |entries| => Step(entries[i], None))
  }

  // Back from a session: plain steps, if the position is one of them.
  function Restored(entries: seq<string>, position: nat): Option<State> {
    if position < |entries| then Some(State(Plain(entries), position, 0)) else None
  }

  // -------------------------------------------------------------- the history

  class History {
    var steps: seq<Step>
    var position: nat
    var moves: nat

    constructor (uri: string)
      ensures Now() == Start(uri)
    {
      steps, position, moves := [Step(uri, None)], 0, 0;
    }

    function Now(): State
      reads this
    {
      State(steps, position, moves)
    }

    method AddStep(step: Step)
      requires Valid(Now())
      modifies this
      ensures Now() == Add(old(Now()), step)
    {
      steps := steps[..position + 1];
      steps := steps + [step];
      position := |steps| - 1;
    }

    method Push(uri: string) returns (pushed: bool)
      requires Valid(Now())
      modifies this
      ensures Valid(Now()) && Now() == Apply(old(Now()), Op.Push(uri))
      ensures pushed == (old(steps[position]) != Step(uri, None))
    {
      var current := steps[position];
      if current.uri == uri && current.search.None? {
        return false;
      }
      AddStep(Step(uri, None));
      moves := moves + 1;
      pushed := true;
    }

    method PushSearch(search: SearchStep)
      requires Valid(Now())
      modifies this
      ensures Valid(Now()) && Now() == Apply(old(Now()), Op.PushSearch(search))
    {
      var uri := steps[position].uri;
      AddStep(Step(uri, Some(search)));
    }

    method DropLast() returns (dropped: bool)
      requires Valid(Now())
      modifies this
      ensures Valid(Now()) && Now() == Apply(old(Now()), Op.DropLast)
      ensures dropped == (|steps| < |old(steps)|)
    {
      if position == 0 || position + 1 != |steps| {
        return false;
      }
      steps := steps[..|steps| - 1];
      position := position - 1;
      moves := moves + 1;
      dropped := true;
    }

    method SetCurrentSearch(search: Option<SearchStep>) returns (changesKind: bool)
      requires Valid(Now())
      modifies this
      ensures Valid(Now()) && Now() == Apply(old(Now()), SetSearch(search))
      ensures changesKind == (old(steps[position]).search.Some? != search.Some?)
    {
      var step := steps[position];
      changesKind := step.search.Some? != search.Some?;
      steps := steps[position := Step(step.uri, search)];
    }

    method ReplaceCurrent(uri: string)
      requires Valid(Now())
      modifies this
      ensures Valid(Now()) && Now() == Apply(old(Now()), Op.ReplaceCurrent(uri))
    {
      steps := steps[position := Step(uri, steps[position].search)];
    }

    method Go(delta: int) returns (location: Option<string>)
      requires Valid(Now())
      modifies this
      ensures Valid(Now()) && Now() == Apply(old(Now()), Op.Go(delta))
      ensures location == if 0 <= old(position) + delta < |steps| then Some(Current(Now())) else None
    {
      var target := position + delta;
      if target < 0 || target >= |steps| {
        return None;
      }
      position := target;
      moves := moves + 1;
      location := Some(steps[position].uri);
    }

    // Fills the list to be written in one pass over the steps.
    method SavedLocations() returns (locations: seq<string>, at: nat)
      requires Valid(Now())
      ensures (locations, at as int) == Saved(Now())
      ensures at < |locations| && locations[at] == Current(Now())
    {
      locations, at := [], 0;
      for index := 0 to |steps|
        invariant locations == Kept(steps[..index])
        invariant index > 0 ==> locations != [] && locations[|locations| - 1] == steps[index - 1].uri
        invariant index > position ==> at == |Kept(steps[..position + 1])| - 1
        invariant index > position ==> at < |locations| && locations[at] == steps[position].uri
      {
        var step := steps[index];
        var repeats := step.search.Some? && locations != [] && locations[|locations| - 1] == step.uri;
        assert steps[..index + 1][..index] == steps[..index];
        assert Repeats(steps[..index + 1], index) == repeats;
        if !repeats {
          locations := locations + [step.uri];
        }
        if index == position {
          at := |locations| - 1;
        }
      }
      assert steps[..|steps|] == steps;
    }
  }

  // ------------------------------------------------------------- as a zipper

  // What a reader of the history sees: the steps Back leads to, the current
  // one, and the steps Forward leads to.
  datatype Zipper = Zipper(back: seq<Step>, here: Step, forward: seq<Step>)

  function Zip(s: State): Zipper
    requires Valid(s)
  {
    Zipper(s.steps[..s.position], s.steps[s.position], s.steps[s.position + 1..])
  }

  function Unzip(z: Zipper): seq<Step> {
    z.back + [z.here] + z.forward
  }

  function Visit(z: Zipper, step: Step): Zipper {
    Zipper(z.back + [z.here], step, [])
  }

  function Move(z: Zipper, delta: int): Zipper {
    var target := |z.back| + delta;
    if 0 <= target < |Unzip(z)| then Zipper(Unzip(z)[..target], Unzip(z)[target], Unzip(z)[target + 1..]) else z
  }

  function ApplyToZipper(z: Zipper, op: Op): Zipper {
    match op
    case Push(uri) => if z.here == Step(uri, None) then z else Visit(z, Step(uri, None))
    case PushSearch(search) => Visit(z, Step(z.here.uri, Some(search)))
    case DropLast =>
      if z.back == [] || z.forward != [] then z else Zipper(z.back[..|z.back| - 1], z.back[|z.back| - 1], [])
    case SetSearch(search) => z.(here := Step(z.here.uri, search))
    case ReplaceCurrent(uri) => z.(here := Step(uri, z.here.search))
    case Go(delta) => Move(z, delta)
  }

  function RunOnZipper(z: Zipper, ops: seq<Op>): Zipper
    decreases |ops|
  {
    if ops == [] then z else RunOnZipper(ApplyToZipper(z, ops[0]), ops[1..])
  }

  lemma ZipIsWhole(s: State)
    requires Valid(s)
    ensures Unzip(Zip(s)) == s.steps
  {
  }

  lemma AddVisits(s: State, step: Step)
    requires Valid(s)
    ensures Zip(Add(s, step)) == Visit(Zip(s), step)
  {
  }

  lemma DropLastDrops(s: State)
    requires Valid(s) && s.position > 0 && s.position + 1 == |s.steps|
    ensures Zip(Apply(s, DropLast)) == ApplyToZipper(Zip(s), DropLast)
  {
  }

  lemma UpdateStays(s: State, step: Step)
    requires Valid(s)
    ensures Zip(s.(steps := s.steps[s.position := step])) == Zip(s).(here := step)
  {
  }

  lemma {:induction false} StepRefinesZipper(s: State, op: Op)
    requires Valid(s)
    ensures Zip(Apply(s, op)) == ApplyToZipper(Zip(s), op)
  {
    hide Add, Visit;
    match op {
      case Push(uri) =>
        AddVisits(s, Step(uri, None));
      case PushSearch(search) =>
        AddVisits(s, Step(Current(s), Some(search)));
      case DropLast =>
        if s.position > 0 && s.position + 1 == |s.steps| {
          DropLastDrops(s);
        }
      case SetSearch(search) =>
        UpdateStays(s, Step(Current(s), search));
      case ReplaceCurrent(uri) =>
        UpdateStays(s, Step(uri, s.steps[s.position].search));
      case Go(_) =>
        ZipIsWhole(s);
    }
  }

  // Every run of operations acts on the history as on the zipper.
  lemma {:induction false} EveryRunRefinesZipper(s: State, ops: seq<Op>)
    requires Valid(s)
    ensures Zip(Run(s, ops)) == RunOnZipper(Zip(s), ops)
    decreases |ops|
  {
    hide Apply, ApplyToZipper, Zip;
    if ops != [] {
      StepRefinesZipper(s, ops[0]);
      EveryRunRefinesZipper(Apply(s, ops[0]), ops[1..]);
    }
  }

  // Two moves within range are one: back and forward lose nothing.
  lemma {:induction false} GoesCompose(z: Zipper, a: int, b: int)
    requires 0 <= |z.back| + a < |Unzip(z)| && 0 <= |z.back| + a + b < |Unzip(z)|
    ensures ApplyToZipper(ApplyToZipper(z, Go(a)), Go(b)) == ApplyToZipper(z, Go(a + b))
    ensures ApplyToZipper(ApplyToZipper(z, Go(a)), Go(-a)) == z
  {
    var there := ApplyToZipper(z, Go(a));
    assert Unzip(there) == Unzip(z);
    assert |there.back| == |z.back| + a;
    assert Unzip(z)[..|z.back|] == z.back && Unzip(z)[|z.back| + 1..] == z.forward;
  }

  // --------------------------------------------------------- counting the moves

  // The location after the replacements among `ops`, if nothing moved.
  function LastReplaced(ops: seq<Op>, uri: string): string
    decreases |ops|
  {
    if ops == [] then uri
    else LastReplaced(ops[1..], if ops[0].ReplaceCurrent? then ops[0].newUri else uri)
  }

  predicate ReplacesNothing(ops: seq<Op>) {
    forall i :: 0 <= i < |ops| ==> !ops[i].ReplaceCurrent?
  }

  lemma {:induction false} NothingReplaced(ops: seq<Op>, uri: string)
    requires ReplacesNothing(ops)
    ensures LastReplaced(ops, uri) == uri
    decreases |ops|
  {
    if ops != [] {
      NothingReplaced(ops[1..], uri);
    }
  }

  lemma MovesTell(s: State, op: Op)
    requires Valid(s)
    ensures Apply(s, op).moves >= s.moves
    ensures Apply(s, op).moves == s.moves ==> Current(Apply(s, op)) == LastReplaced([op], Current(s))
  {
    assert [op][1..] == [];
  }

  // While the count of moves stays, the location is the last replacement.
  lemma {:induction false} MovesTellOverRuns(s: State, ops: seq<Op>)
    requires Valid(s)
    ensures Run(s, ops).moves >= s.moves
    ensures Run(s, ops).moves == s.moves ==> Current(Run(s, ops)) == LastReplaced(ops, Current(s))
    decreases |ops|
  {
    hide Apply;
    if ops != [] {
      MovesTell(s, ops[0]);
      assert [ops[0]][1..] == [];
      MovesTellOverRuns(Apply(s, ops[0]), ops[1..]);
    }
  }

  lemma {:induction false} RunConcat(s: State, a: seq<Op>, b: seq<Op>)
    requires Valid(s)
    ensures Run(s, a + b) == Run(Run(s, a), b)
    decreases |a|
  {
    hide Apply;
    if a == [] {
      assert a + b == b;
    } else {
      assert (a + b)[1..] == a[1..] + b;
      RunConcat(Apply(s, a[0]), a[1..], b);
    }
  }

  // At any two times of any run with an equal count of moves, the location is
  // the same exactly when none was replaced in between, or the last
  // replacement was by the location of the earlier time.
  lemma EqualMovesSameLocation(uri: string, ops: seq<Op>, i: nat, j: nat)
    requires i <= j <= |ops|
    ensures var a, b := Run(Start(uri), ops[..i]), Run(Start(uri), ops[..j]);
      a.moves == b.moves ==>
        && Current(b) == LastReplaced(ops[i..j], Current(a))
        && (Current(a) == Current(b) <==> ReplacesNothing(ops[i..j]) || LastReplaced(ops[i..j], Current(a)) == Current(a))
  {
    hide Run;
    assert ops[..j] == ops[..i] + ops[i..j];
    RunConcat(Start(uri), ops[..i], ops[i..j]);
    var a := Run(Start(uri), ops[..i]);
    MovesTellOverRuns(a, ops[i..j]);
    if ReplacesNothing(ops[i..j]) {
      NothingReplaced(ops[i..j], Current(a));
    }
  }

  // That last replacement, for what it is: any later one would come after it.
  lemma {:induction false} LastReplacedIs(ops: seq<Op>, uri: string, k: nat)
    requires k < |ops| && ops[k].ReplaceCurrent? && ReplacesNothing(ops[k + 1..])
    ensures LastReplaced(ops, uri) == ops[k].newUri
    decreases |ops|
  {
    if k == 0 {
      NothingReplaced(ops[1..], ops[0].newUri);
    } else {
      assert ops[1..][k - 1 + 1..] == ops[k + 1..];
      LastReplacedIs(ops[1..], if ops[0].ReplaceCurrent? then ops[0].newUri else uri, k - 1);
    }
  }

  // ------------------------------------------------------- saving and restoring

  lemma {:induction false} KeptOfPlain(entries: seq<string>)
    ensures Kept(Plain(entries)) == entries
  {
    if entries != [] {
      var last := |entries| - 1;
      KeptOfPlain(entries[..last]);
      assert Plain(entries)[..last] == Plain(entries[..last]);
      assert entries == entries[..last] + [entries[last]];
    }
  }

  lemma {:induction false} KeptEndsHere(steps: seq<Step>)
    requires steps != []
    ensures Kept(steps) != [] && Kept(steps)[|Kept(steps)| - 1] == steps[|steps| - 1].uri
  {
    var last := |steps| - 1;
    if last > 0 {
      KeptEndsHere(steps[..last]);
    }
  }

  lemma {:induction false} KeptGrows(steps: seq<Step>, n: nat)
    requires n <= |steps|
    ensures Kept(steps[..n]) <= Kept(steps)
    decreases |steps|
  {
    if n < |steps| {
      var last := |steps| - 1;
      KeptGrows(steps[..last], n);
      assert steps[..last][..n] == steps[..n];
    } else {
      assert steps[..n] == steps;
    }
  }

  lemma SavedShape(s: State)
    requires Valid(s)
    ensures var (locations, at) := Saved(s); 0 <= at < |locations| && locations[at] == Current(s)
  {
    hide Kept;
    KeptEndsHere(s.steps[..s.position + 1]);
    KeptGrows(s.steps, s.position + 1);
  }

  lemma RestoredSaves(entries: seq<string>, position: nat)
    requires position < |entries|
    ensures var s := Restored(entries, position).value;
      Valid(s) && Current(s) == entries[position] && Saved(s) == (entries, position)
  {
    hide Kept;
    KeptOfPlain(entries);
    KeptOfPlain(entries[..position + 1]);
    assert Plain(entries)[..position + 1] == Plain(entries[..position + 1]);
  }

  // A saved history can be restored to the same location, and saving what was
  // restored gives the same again.
  lemma SavedIsRestored(s: State)
    requires Valid(s)
    ensures var (locations, at) := Saved(s);
      && 0 <= at < |locations|
      && locations[at] == Current(s)
      && Restored(locations, at).Some?
      && Valid(Restored(locations, at).value)
      && Current(Restored(locations, at).value) == Current(s)
      && Saved(Restored(locations, at).value) == (locations, at)
  {
    hide Saved, Current, Plain;
    SavedShape(s);
    var (locations, at) := Saved(s);
    RestoredSaves(locations, at);
  }

  // A saved session that says a position past its entries gives no history; any
  // other gives plain steps at its entries, there, before any move.
  lemma WhatIsRestored(entries: seq<string>, position: nat)
    ensures Restored(entries, position) == None <==> |entries| <= position
    ensures position < |entries| ==>
      var s := Restored(entries, position).value;
      && s.position == position && s.moves == 0 && |s.steps| == |entries|
      && forall i :: 0 <= i < |entries| ==> s.steps[i].uri == entries[i] && s.steps[i].search == None
  {
  }

  // For every history a tab can reach.
  lemma EveryHistoryIsSaved(uri: string, ops: seq<Op>)
    ensures var s := Run(Start(uri), ops);
      var (locations, at) := Saved(s);
      && 0 <= at < |locations| && locations[at] == Current(s)
      && Restored(locations, at).Some? && Saved(Restored(locations, at).value) == (locations, at)
  {
    hide Run, Saved;
    SavedIsRestored(Run(Start(uri), ops));
  }
}
