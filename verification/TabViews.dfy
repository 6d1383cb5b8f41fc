// The views a tab keeps by history position, for Back and Forward to restore.
// (native/crates/ox-app/src/history.rs and, for how a tab uses it,
// native/crates/ox-app/src/window/)

module TabViews {
  import opened Text
  import H = History

  datatype LeftView = LeftView(scroll: real, current: Option<string>, expanded: seq<string>)

  // The view left at each history position.
  type Views = map<nat, LeftView>

  function ViewAt(views: Views, position: nat): Option<LeftView> {
    if position in views then Some(views[position]) else None
  }

  function Remembered(views: Views, position: nat, view: Option<LeftView>): Views {
    if view.Some? then views[position := view.value] else views
  }

  function ForgottenFrom(views: Views, from: nat): Views {
    map p | p in views && p < from :: views[p]
  }

  class HistoryViews {
    var views: Views

    constructor ()
      ensures views == map[]
    {
      views := map[];
    }

    method Remember(position: nat, view: LeftView)
      modifies this
      ensures views == old(views)[position := view]
    {
      views := views[position := view];
    }

    // Drops what is kept at `position` and after it.
    method ForgetFrom(position: nat)
      modifies this
      ensures views == ForgottenFrom(old(views), position)
    {
      views := map p | p in views && p < position :: views[p];
    }

    method Take(position: nat) returns (view: Option<LeftView>)
      modifies this
      ensures view == ViewAt(old(views), position) && views == old(views) - {position}
    {
      view := if position in views then Some(views[position]) else None;
      views := views - {position};
    }
  }

  // -------------------------------------------------------- how a tab uses it

  datatype Tab = Tab(history: H.State, views: Views)

  // What happens to a tab; `view` is where the view was, unless a landing page
  // without one is left.
  datatype Visit =
    | Navigate(uri: string, view: Option<LeftView>)
    | Move(steps: int, view: Option<LeftView>)
    | Search(search: H.SearchStep)
    | EditSearch(newSearch: Option<H.SearchStep>)
    | BeforeSearch(viewBefore: LeftView)
    | Denied
    | Resolve(newUri: string)
    | MoveInBackground(uri: string)

  predicate IsShown(s: H.State, uri: string)
    requires H.Valid(s)
  {
    s.steps[s.position] == H.Step(uri, None)
  }

  // The tab afterwards, and the view put back.
  function Apply(tab: Tab, visit: Visit): (result: (Tab, Option<LeftView>))
    requires H.Valid(tab.history)
    ensures H.Valid(result.0.history)
  {
    var (s, views) := (tab.history, tab.views);
    var left := s.position;
    match visit
    case Navigate(uri, view) =>
      if IsShown(s, uri) then (tab, None)
      else (Tab(H.Apply(s, H.Push(uri)), Remembered(ForgottenFrom(views, left + 1), left, view)), None)
    case Move(steps, view) =>
      if 0 <= left + steps < |s.steps| then
        var remembered := Remembered(views, left, view);
        (Tab(H.Apply(s, H.Go(steps)), remembered - {left + steps}), ViewAt(remembered, left + steps))
      else (tab, None)
    case Search(search) => (Tab(H.Apply(s, H.PushSearch(search)), ForgottenFrom(views, left + 1)), None)
    case EditSearch(search) => (Tab(H.Apply(s, H.SetSearch(search)), views), None)
    case BeforeSearch(view) =>
      (if s.steps[left].search.Some? then tab else Tab(s, views[left := view]), None)
    case Denied =>
      if left == 0 || left + 1 != |s.steps| then (tab, None)
      else (Tab(H.Apply(s, H.DropLast), views - {left - 1}), ViewAt(views, left - 1))
    case Resolve(uri) => (Tab(H.Apply(s, H.ReplaceCurrent(uri)), views), None)
    case MoveInBackground(uri) => (Tab(H.Apply(s, H.Push(uri)), views), None)
  }

  class TabWithViews {
    const history: H.History
    const leftViews: HistoryViews

    // A new tab, or one opened with a saved history.
    constructor (history: H.History)
      ensures this.history == history && fresh(leftViews)
      ensures Now() == Tab(history.Now(), map[])
    {
      this.history := history;
      leftViews := new HistoryViews();
    }

    function Now(): Tab
      reads history, leftViews
    {
      Tab(history.Now(), leftViews.views)
    }

    // A navigation in the tab in front.
    method PushLocation(uri: string, view: Option<LeftView>)
      requires H.Valid(history.Now())
      modifies history, leftViews
      ensures Now() == Apply(old(Now()), Navigate(uri, view)).0
    {
      var left := history.position;
      var pushed := history.Push(uri);
      if pushed {
        leftViews.ForgetFrom(left + 1);
        if view.Some? {
          leftViews.Remember(left, view.value);
        }
      }
    }

    // Back or Forward.
    method StepHistory(steps: int, view: Option<LeftView>) returns (returned: Option<LeftView>)
      requires H.Valid(history.Now())
      modifies history, leftViews
      ensures (Now(), returned) == Apply(old(Now()), Move(steps, view))
    {
      var left := history.position;
      var location := history.Go(steps);
      if location.None? {
        return None;
      }
      if view.Some? {
        leftViews.Remember(left, view.value);
      }
      returned := leftViews.Take(history.position);
    }

    method RecordSearch(search: H.SearchStep)
      requires H.Valid(history.Now())
      modifies history, leftViews
      ensures Now() == Apply(old(Now()), Search(search)).0
    {
      history.PushSearch(search);
      leftViews.ForgetFrom(history.position);
    }

    // A denied folder is left again as if it had not been entered.
    method LeaveDenied() returns (returned: Option<LeftView>)
      requires H.Valid(history.Now())
      modifies history, leftViews
      ensures (Now(), returned) == Apply(old(Now()), Denied)
    {
      var dropped := history.DropLast();
      if !dropped {
        return None;
      }
      returned := leftViews.Take(history.position);
    }
  }

  // ----------------------------------------------------------- the reference

  // A step that carries the view last left at it.
  datatype Noted = Noted(step: H.Step, view: Option<LeftView>)

  datatype Notes = Notes(steps: seq<Noted>, position: nat)

  predicate ValidNotes(n: Notes) {
    n.position < |n.steps|
  }

  function Leave(n: Notes, view: Option<LeftView>): (left: Notes)
    requires ValidNotes(n)
    ensures ValidNotes(left) && left.position == n.position && |left.steps| == |n.steps|
  {
    if view.Some? then n.(steps := n.steps[n.position := n.steps[n.position].(view := view)]) else n
  }

  function GoTo(n: Notes, step: H.Step): (next: Notes)
    requires ValidNotes(n)
    ensures ValidNotes(next)
  {
    Notes(n.steps[..n.position + 1] + [Noted(step, None)], n.position + 1)
  }

  // Comes back to a step and takes the view noted there.
  function Return(n: Notes, position: nat): (result: (Notes, Option<LeftView>))
    requires position < |n.steps|
    ensures ValidNotes(result.0)
  {
    (Notes(n.steps[position := n.steps[position].(view := None)], position), n.steps[position].view)
  }

  function ApplyToNotes(n: Notes, visit: Visit): (result: (Notes, Option<LeftView>))
    requires ValidNotes(n)
    ensures ValidNotes(result.0)
  {
    var here := n.steps[n.position];
    match visit
    case Navigate(uri, view) =>
      (if here.step == H.Step(uri, None) then n else GoTo(Leave(n, view), H.Step(uri, None)), None)
    case Move(steps, view) =>
      if 0 <= n.position + steps < |n.steps| then Return(Leave(n, view), n.position + steps) else (n, None)
    case Search(search) => (GoTo(n, H.Step(here.step.uri, Some(search))), None)
    case EditSearch(search) =>
      (n.(steps := n.steps[n.position := here.(step := H.Step(here.step.uri, search))]), None)
    case BeforeSearch(view) => (if here.step.search.Some? then n else Leave(n, Some(view)), None)
    case Denied =>
      if n.position == 0 || n.position + 1 != |n.steps| then (n, None)
      else Return(Notes(n.steps[..n.position], n.position - 1), n.position - 1)
    case Resolve(uri) => (n.(steps := n.steps[n.position := here.(step := H.Step(uri, here.step.search))]), None)
    case MoveInBackground(uri) =>
      (if here.step == H.Step(uri, None) then n else GoTo(n, H.Step(uri, None)), None)
  }

  // The remembered views are those noted at the steps themselves. Past the
  // last step nothing is said.
  ghost predicate Matches(tab: Tab, n: Notes) {
    && |tab.history.steps| == |n.steps| && tab.history.position == n.position && ValidNotes(n)
    && forall i :: 0 <= i < |n.steps| ==> MatchesAt(tab, n, i)
  }

  ghost predicate MatchesAt(tab: Tab, n: Notes, i: nat)
    requires i < |n.steps| == |tab.history.steps|
  {
    n.steps[i] == Noted(tab.history.steps[i], ViewAt(tab.views, i))
  }

  // A step added where the view of a dropped one is still remembered.
  predicate Inherits(tab: Tab, visit: Visit)
    requires H.Valid(tab.history)
  {
    visit.MoveInBackground? && !IsShown(tab.history, visit.uri) && tab.history.position + 1 in tab.views
  }

  lemma LeaveMatches(tab: Tab, n: Notes, view: Option<LeftView>)
    requires Matches(tab, n)
    ensures Matches(Tab(tab.history, Remembered(tab.views, tab.history.position, view)), Leave(n, view))
  {
    forall i | 0 <= i < |n.steps|
      ensures MatchesAt(Tab(tab.history, Remembered(tab.views, tab.history.position, view)), Leave(n, view), i)
    {
      assert MatchesAt(tab, n, i);
    }
  }

  lemma ReturnMatches(tab: Tab, n: Notes, position: nat, moves: nat)
    requires Matches(tab, n) && position < |n.steps|
    ensures ViewAt(tab.views, position) == Return(n, position).1
    ensures Matches(Tab(H.State(tab.history.steps, position, moves), tab.views - {position}), Return(n, position).0)
  {
    assert MatchesAt(tab, n, position);
    var next, after := Tab(H.State(tab.history.steps, position, moves), tab.views - {position}), Return(n, position).0;
    forall i | 0 <= i < |n.steps| ensures MatchesAt(next, after, i) {
      assert MatchesAt(tab, n, i);
    }
  }

  // A new step is without a view exactly when none is remembered there.
  lemma GoToMatches(tab: Tab, n: Notes, step: H.Step, next: Tab)
    requires H.Valid(tab.history) && Matches(tab, n)
    requires next.history == H.Add(tab.history, step).(moves := next.history.moves)
    requires forall i: nat :: i <= n.position ==> ViewAt(next.views, i) == ViewAt(tab.views, i)
    ensures Matches(next, GoTo(n, step)) <==> n.position + 1 !in next.views
  {
    var after := GoTo(n, step);
    forall i | 0 <= i <= n.position ensures MatchesAt(next, after, i) {
      assert MatchesAt(tab, n, i);
    }
    assert MatchesAt(next, after, n.position + 1) <==> n.position + 1 !in next.views;
  }

  lemma UpdateMatches(tab: Tab, n: Notes, step: H.Step)
    requires H.Valid(tab.history) && Matches(tab, n)
    ensures var s := tab.history;
      Matches(Tab(s.(steps := s.steps[s.position := step]), tab.views),
              n.(steps := n.steps[n.position := n.steps[n.position].(step := step)]))
  {
    var s := tab.history;
    var next := Tab(s.(steps := s.steps[s.position := step]), tab.views);
    var after := n.(steps := n.steps[n.position := n.steps[n.position].(step := step)]);
    forall i | 0 <= i < |n.steps| ensures MatchesAt(next, after, i) {
      assert MatchesAt(tab, n, i);
    }
  }

  lemma DropMatches(tab: Tab, n: Notes, moves: nat)
    requires H.Valid(tab.history) && Matches(tab, n) && n.position > 0 && n.position + 1 == |n.steps|
    ensures Matches(Tab(H.State(tab.history.steps[..n.position], n.position - 1, moves), tab.views),
                    Notes(n.steps[..n.position], n.position - 1))
  {
    var next := Tab(H.State(tab.history.steps[..n.position], n.position - 1, moves), tab.views);
    var after := Notes(n.steps[..n.position], n.position - 1);
    forall i | 0 <= i < |after.steps| ensures MatchesAt(next, after, i) {
      assert MatchesAt(tab, n, i);
    }
  }

  // Every visit keeps the views those of the steps themselves, and puts back
  // the view of the very step it returns to, exactly when it is not a move in
  // the background past a step with a view.
  lemma StepKeepsViews(tab: Tab, n: Notes, visit: Visit)
    requires H.Valid(tab.history) && Matches(tab, n)
    ensures Apply(tab, visit).1 == ApplyToNotes(n, visit).1
    ensures Matches(Apply(tab, visit).0, ApplyToNotes(n, visit).0) <==> !Inherits(tab, visit)
  {
    var (s, views) := (tab.history, tab.views);
    var (p, here, next) := (s.position, s.steps[s.position], Apply(tab, visit).0);
    assert MatchesAt(tab, n, p);
    hide Matches, MatchesAt, GoTo, Return, Leave, ForgottenFrom, Remembered;
    SamePlace(tab, n);
    match visit {
      case Navigate(uri, view) =>
        LeaveMatches(tab, n, view);
        ForgottenViews(views, p, view);
        if !IsShown(s, uri) {
          GoToMatches(Tab(s, Remembered(views, p, view)), Leave(n, view), H.Step(uri, None), next);
        }
      case Move(steps, view) =>
        LeaveMatches(tab, n, view);
        if 0 <= p + steps < |s.steps| {
          ReturnMatches(Tab(s, Remembered(views, p, view)), Leave(n, view), p + steps, s.moves + 1);
        }
      case Search(search) =>
        ForgottenViews(views, p, None);
        GoToMatches(tab, n, H.Step(here.uri, Some(search)), next);
      case EditSearch(search) =>
        UpdateMatches(tab, n, H.Step(here.uri, search));
      case BeforeSearch(view) =>
        LeaveMatches(tab, n, Some(view));
      case Denied =>
        if p > 0 && p + 1 == |s.steps| {
          DropMatches(tab, n, s.moves);
          ReturnMatches(Tab(H.State(s.steps[..p], p - 1, s.moves), views), Notes(n.steps[..p], p - 1), p - 1, s.moves + 1);
        }
      case Resolve(uri) =>
        UpdateMatches(tab, n, H.Step(uri, here.search));
      case MoveInBackground(uri) =>
        if !IsShown(s, uri) {
          GoToMatches(tab, n, H.Step(uri, None), next);
        }
    }
  }

  lemma ForgottenViews(views: Views, left: nat, view: Option<LeftView>)
    ensures left + 1 !in ForgottenFrom(views, left + 1)
    ensures left + 1 !in Remembered(ForgottenFrom(views, left + 1), left, view)
    ensures forall i: nat :: i <= left ==> ViewAt(ForgottenFrom(views, left + 1), i) == ViewAt(views, i)
    ensures forall i: nat :: i <= left ==>
      ViewAt(Remembered(ForgottenFrom(views, left + 1), left, view), i) == ViewAt(Remembered(views, left, view), i)
  {
  }

  lemma SamePlace(tab: Tab, n: Notes)
    requires Matches(tab, n)
    ensures |tab.history.steps| == |n.steps| && tab.history.position == n.position && ValidNotes(n)
  {
  }

  // -------------------------------------------------------------- whole runs

  // The views put back over a run, one for each visit.
  function Run(tab: Tab, visits: seq<Visit>): seq<Option<LeftView>>
    requires H.Valid(tab.history)
    decreases |visits|
  {
    if visits == [] then [] else [Apply(tab, visits[0]).1] + Run(Apply(tab, visits[0]).0, visits[1..])
  }

  function RunOnNotes(n: Notes, visits: seq<Visit>): seq<Option<LeftView>>
    requires ValidNotes(n)
    decreases |visits|
  {
    if visits == [] then [] else [ApplyToNotes(n, visits[0]).1] + RunOnNotes(ApplyToNotes(n, visits[0]).0, visits[1..])
  }

  predicate NoneInherits(tab: Tab, visits: seq<Visit>)
    requires H.Valid(tab.history)
    decreases |visits|
  {
    visits == [] || (!Inherits(tab, visits[0]) && NoneInherits(Apply(tab, visits[0]).0, visits[1..]))
  }

  lemma {:induction false} RunKeepsViews(tab: Tab, n: Notes, visits: seq<Visit>)
    requires H.Valid(tab.history) && Matches(tab, n) && NoneInherits(tab, visits)
    ensures Run(tab, visits) == RunOnNotes(n, visits)
    decreases |visits|
  {
    hide Apply, ApplyToNotes, Matches, Inherits;
    if visits != [] {
      SamePlace(tab, n);
      StepKeepsViews(tab, n, visits[0]);
      RunKeepsViews(Apply(tab, visits[0]).0, ApplyToNotes(n, visits[0]).0, visits[1..]);
    }
  }

  // A visit that inherits is found out later: after one more background move,
  // Back puts back a view that was never left at the step it returns to.
  lemma InheritedViewIsPutBack(tab: Tab, n: Notes, visit: Visit) returns (more: seq<Visit>)
    requires H.Valid(tab.history) && Matches(tab, n) && Inherits(tab, visit)
    ensures Run(tab, [visit] + more) != RunOnNotes(n, [visit] + more)
  {
    SamePlace(tab, n);
    assert MatchesAt(tab, n, n.position);
    var p, other := tab.history.position, visit.uri + "/";
    assert other[|visit.uri|] == '/' && other != visit.uri;
    more := [MoveInBackground(other), Move(-1, None)];
    var all := [visit] + more;
    assert all[1..] == more && more[1..] == [Move(-1, None)] && more[1..][1..] == [];
    var tab1, n1 := Apply(tab, visit).0, ApplyToNotes(n, visit).0;
    assert tab1.history.steps[p + 1] == H.Step(visit.uri, None) && n1.steps[p + 1] == Noted(H.Step(visit.uri, None), None);
    var tab2, n2 := Apply(tab1, more[0]).0, ApplyToNotes(n1, more[0]).0;
    assert tab2.history.position == p + 2 && n2.position == p + 2;
    assert n2.steps[p + 1] == n1.steps[p + 1];
    assert Apply(tab2, more[1]).1 == Some(tab.views[p + 1]) && ApplyToNotes(n2, more[1]).1 == None;
    SecondAndThird(tab, n, all);
  }

  lemma SecondAndThird(tab: Tab, n: Notes, visits: seq<Visit>)
    requires H.Valid(tab.history) && ValidNotes(n) && |visits| == 3
    ensures |Run(tab, visits)| == 3 && |RunOnNotes(n, visits)| == 3
    ensures Run(tab, visits)[2] == Apply(Apply(Apply(tab, visits[0]).0, visits[1]).0, visits[2]).1
    ensures RunOnNotes(n, visits)[2] == ApplyToNotes(ApplyToNotes(ApplyToNotes(n, visits[0]).0, visits[1]).0, visits[2]).1
  {
    hide Apply, ApplyToNotes;
    var tab1, n1 := Apply(tab, visits[0]).0, ApplyToNotes(n, visits[0]).0;
    var tab2, n2 := Apply(tab1, visits[1]).0, ApplyToNotes(n1, visits[1]).0;
    assert visits[1..][1..] == visits[2..] && visits[2..][1..] == [];
    assert Run(tab2, visits[2..]) == [Apply(tab2, visits[2]).1];
    assert Run(tab1, visits[1..]) == [Apply(tab1, visits[1]).1] + Run(tab2, visits[2..]);
    assert RunOnNotes(n2, visits[2..]) == [ApplyToNotes(n2, visits[2]).1];
    assert RunOnNotes(n1, visits[1..]) == [ApplyToNotes(n1, visits[1]).1] + RunOnNotes(n2, visits[2..]);
  }

  // The run up to visit `k`, gone on with `more`, puts back a wrong view.
  ghost predicate GoesWrong(tab: Tab, n: Notes, visits: seq<Visit>, k: nat, more: seq<Visit>)
    requires H.Valid(tab.history) && ValidNotes(n)
  {
    k <= |visits| && Run(tab, visits[..k] + more) != RunOnNotes(n, visits[..k] + more)
  }

  ghost predicate SomeGoesWrong(tab: Tab, n: Notes, visits: seq<Visit>)
    requires H.Valid(tab.history) && ValidNotes(n)
  {
    exists k: nat, more :: GoesWrong(tab, n, visits, k, more)
  }

  lemma {:induction false} SomeContinuationGoesWrong(tab: Tab, n: Notes, visits: seq<Visit>) returns (k: nat, more: seq<Visit>)
    requires H.Valid(tab.history) && Matches(tab, n) && !NoneInherits(tab, visits)
    ensures ValidNotes(n) && GoesWrong(tab, n, visits, k, more)
    decreases |visits|
  {
    hide Apply, ApplyToNotes, Matches, Inherits;
    SamePlace(tab, n);
    if Inherits(tab, visits[0]) {
      more := InheritedViewIsPutBack(tab, n, visits[0]);
      k := 1;
      assert visits[..1] == [visits[0]];
    } else {
      StepKeepsViews(tab, n, visits[0]);
      var next, after := Apply(tab, visits[0]).0, ApplyToNotes(n, visits[0]).0;
      k, more := SomeContinuationGoesWrong(next, after, visits[1..]);
      k := k + 1;
      var all := visits[..k] + more;
      assert all[0] == visits[0] && all[1..] == visits[1..][..k - 1] + more;
      assert Run(tab, all)[1..] == Run(next, all[1..]) && RunOnNotes(n, all)[1..] == RunOnNotes(after, all[1..]);
    }
  }

  // No view has been left at any step yet.
  function Unvisited(steps: seq<H.Step>): (notes: seq<Noted>)
    ensures |notes| == |steps|
    ensures forall i :: 0 <= i < |steps| ==> notes[i] == Noted(steps[i], None)
  {
    if steps == [] then [] else [Noted(steps[0], None)] + Unvisited(steps[1..])
  }

  // From a new tab on, or one opened with a saved history, what is put back is
  // the view last left at the very step returned to; and runs in which no visit
  // inherits are the only ones of which this can be said however they were to
  // go on.
  lemma EveryReturnFindsItsView(start: H.State, visits: seq<Visit>)
    requires H.Valid(start)
    ensures var tab, n := Tab(start, map[]), Notes(Unvisited(start.steps), start.position);
      && (NoneInherits(tab, visits) ==> Run(tab, visits) == RunOnNotes(n, visits))
      && (!NoneInherits(tab, visits) ==> SomeGoesWrong(tab, n, visits))
  {
    var tab, n := Tab(start, map[]), Notes(Unvisited(start.steps), start.position);
    UnvisitedMatches(start);
    hide Unvisited, Matches, NoneInherits, GoesWrong;
    if NoneInherits(tab, visits) {
      RunKeepsViews(tab, n, visits);
    } else {
      var k, more := SomeContinuationGoesWrong(tab, n, visits);
      assert GoesWrong(tab, n, visits, k, more);
    }
  }

  lemma UnvisitedMatches(start: H.State)
    requires H.Valid(start)
    ensures Matches(Tab(start, map[]), Notes(Unvisited(start.steps), start.position))
  {
    var tab, n := Tab(start, map[]), Notes(Unvisited(start.steps), start.position);
    assert forall i :: 0 <= i < |n.steps| ==> MatchesAt(tab, n, i);
  }

  // What the user does in the example below.
  function MovedTwice(b: string, c: string, d: string, viewA: LeftView, viewB: LeftView, viewD: LeftView): seq<Visit> {
    [Navigate(b, Some(viewA)), Move(-1, Some(viewB)), MoveInBackground(c), MoveInBackground(d), Move(-1, Some(viewD))]
  }

  // A move in the background keeps the view of the step it drops, and leaves
  // no view itself: after two of them, Back puts the view left in `b` back on
  // `c`, which the tab never showed it in.
  lemma BackgroundMovesMixViews(a: string, b: string, c: string, d: string, viewA: LeftView, viewB: LeftView, viewD: LeftView)
    requires a != b && a != c && c != d
    ensures var visits := MovedTwice(b, c, d, viewA, viewB, viewD);
      && Run(Tab(H.Start(a), map[]), visits) == [None, Some(viewA), None, None, Some(viewB)]
      && RunOnNotes(Notes([Noted(H.Step(a, None), None)], 0), visits) == [None, Some(viewA), None, None, None]
  {
    hide Run, RunOnNotes;
    MixedRun(a, b, c, d, viewA, viewB, viewD);
    NotedRun(a, b, c, d, viewA, viewB, viewD);
  }

  lemma MixedRun(a: string, b: string, c: string, d: string, viewA: LeftView, viewB: LeftView, viewD: LeftView)
    requires a != b && a != c && c != d
    ensures Run(Tab(H.Start(a), map[]), MovedTwice(b, c, d, viewA, viewB, viewD)) == [None, Some(viewA), None, None, Some(viewB)]
  {
    hide Run;
    var visits := MovedTwice(b, c, d, viewA, viewB, viewD);
    var stepA, stepB, stepC, stepD := H.Step(a, None), H.Step(b, None), H.Step(c, None), H.Step(d, None);
    var tab0 := Tab(H.Start(a), map[]);
    var tab1 := Tab(H.State([stepA, stepB], 1, 1), map[0 := viewA]);
    var tab2 := Tab(H.State([stepA, stepB], 0, 2), map[1 := viewB]);
    var tab3 := Tab(H.State([stepA, stepC], 1, 3), map[1 := viewB]);
    var tab4 := Tab(H.State([stepA, stepC, stepD], 2, 4), map[1 := viewB]);
    assert Apply(tab0, visits[0]) == (tab1, None) by {
      assert Apply(tab0, visits[0]).0.history.steps == tab1.history.steps;
      assert ForgottenFrom(map[], 1)[0 := viewA] == map[0 := viewA];
    }
    assert Apply(tab1, visits[1]) == (tab2, Some(viewA)) by {
      assert map[0 := viewA][1 := viewB] - {0} == map[1 := viewB];
    }
    assert Apply(tab2, visits[2]) == (tab3, None) by {
      assert Apply(tab2, visits[2]).0.history.steps == tab3.history.steps;
    }
    assert Apply(tab3, visits[3]) == (tab4, None) by {
      assert Apply(tab3, visits[3]).0.history.steps == tab4.history.steps;
    }
    assert Apply(tab4, visits[4]).1 == Some(viewB);
    RunOfFive(tab0, visits);
  }

  lemma NotedRun(a: string, b: string, c: string, d: string, viewA: LeftView, viewB: LeftView, viewD: LeftView)
    requires a != b && a != c && c != d
    ensures RunOnNotes(Notes([Noted(H.Step(a, None), None)], 0), MovedTwice(b, c, d, viewA, viewB, viewD))
      == [None, Some(viewA), None, None, None]
  {
    hide RunOnNotes;
    var visits := MovedTwice(b, c, d, viewA, viewB, viewD);
    var stepA, stepB, stepC, stepD := H.Step(a, None), H.Step(b, None), H.Step(c, None), H.Step(d, None);
    var n0 := Notes([Noted(stepA, None)], 0);
    var n1 := Notes([Noted(stepA, Some(viewA)), Noted(stepB, None)], 1);
    var n2 := Notes([Noted(stepA, None), Noted(stepB, Some(viewB))], 0);
    var n3 := Notes([Noted(stepA, None), Noted(stepC, None)], 1);
    var n4 := Notes([Noted(stepA, None), Noted(stepC, None), Noted(stepD, None)], 2);
    assert ApplyToNotes(n0, visits[0]) == (n1, None) by {
      assert ApplyToNotes(n0, visits[0]).0.steps == n1.steps;
    }
    assert ApplyToNotes(n1, visits[1]) == (n2, Some(viewA)) by {
      assert ApplyToNotes(n1, visits[1]).0.steps == n2.steps;
    }
    assert ApplyToNotes(n2, visits[2]) == (n3, None) by {
      assert ApplyToNotes(n2, visits[2]).0.steps == n3.steps;
    }
    assert ApplyToNotes(n3, visits[3]) == (n4, None) by {
      assert ApplyToNotes(n3, visits[3]).0.steps == n4.steps;
    }
    assert ApplyToNotes(n4, visits[4]).1 == None;
    NotesOfFive(n0, visits);
  }

  lemma {:induction false} RunOfFive(tab: Tab, visits: seq<Visit>)
    requires H.Valid(tab.history) && |visits| == 5
    ensures var (t1, v0) := Apply(tab, visits[0]);
      var (t2, v1) := Apply(t1, visits[1]);
      var (t3, v2) := Apply(t2, visits[2]);
      var (t4, v3) := Apply(t3, visits[3]);
      Run(tab, visits) == [v0, v1, v2, v3, Apply(t4, visits[4]).1]
  {
    hide Apply;
    var t1 := Apply(tab, visits[0]).0;
    var t2 := Apply(t1, visits[1]).0;
    var t3 := Apply(t2, visits[2]).0;
    var t4 := Apply(t3, visits[3]).0;
    assert visits[1..][1..] == visits[2..] && visits[2..][1..] == visits[3..] && visits[3..][1..] == visits[4..] && visits[4..][1..] == [];
    assert Run(t4, visits[4..]) == [Apply(t4, visits[4]).1];
    assert Run(t3, visits[3..]) == [Apply(t3, visits[3]).1] + Run(t4, visits[4..]);
    assert Run(t2, visits[2..]) == [Apply(t2, visits[2]).1] + Run(t3, visits[3..]);
    assert Run(t1, visits[1..]) == [Apply(t1, visits[1]).1] + Run(t2, visits[2..]);
  }

  lemma NotesOfFive(n: Notes, visits: seq<Visit>)
    requires ValidNotes(n) && |visits| == 5
    ensures var (n1, v0) := ApplyToNotes(n, visits[0]);
      var (n2, v1) := ApplyToNotes(n1, visits[1]);
      var (n3, v2) := ApplyToNotes(n2, visits[2]);
      var (n4, v3) := ApplyToNotes(n3, visits[3]);
      RunOnNotes(n, visits) == [v0, v1, v2, v3, ApplyToNotes(n4, visits[4]).1]
  {
    hide ApplyToNotes;
    var n1 := ApplyToNotes(n, visits[0]).0;
    var n2 := ApplyToNotes(n1, visits[1]).0;
    var n3 := ApplyToNotes(n2, visits[2]).0;
    var n4 := ApplyToNotes(n3, visits[3]).0;
    assert visits[1..][1..] == visits[2..] && visits[2..][1..] == visits[3..] && visits[3..][1..] == visits[4..] && visits[4..][1..] == [];
    assert RunOnNotes(n4, visits[4..]) == [ApplyToNotes(n4, visits[4]).1];
    assert RunOnNotes(n3, visits[3..]) == [ApplyToNotes(n3, visits[3]).1] + RunOnNotes(n4, visits[4..]);
    assert RunOnNotes(n2, visits[2..]) == [ApplyToNotes(n2, visits[2]).1] + RunOnNotes(n3, visits[3..]);
    assert RunOnNotes(n1, visits[1..]) == [ApplyToNotes(n1, visits[1]).1] + RunOnNotes(n2, visits[2..]);
  }
}
