// The settings all windows share, as a machine with a queue, one worker and
// replies that may ask for more. A change works on a copy, kept only if it
// succeeds. (native/crates/ox-app/src/settings_store.rs)

module SettingsStore {
  import opened Text

  // What a caller asks for. `D` is the settings data and `W` what the settings
  // file holds when the worker runs. A change gives the copy it worked on and
  // whether it succeeded; a reload gives the data as read again.
  datatype Request<!D, !W> =
    | Change(change: (D, W) -> (D, bool))
    | Reload(reread: (D, W) -> D)

  // A queued change; a reload remembers the data when it was asked for.
  datatype Job<!D, !W> = Job(request: Request<D, W>, before: Option<D>)

  // A change on the worker, and the copy it works on.
  datatype Flight<!D, !W> = Flight(job: Job<D, W>, copy: D)

  // What a reply hears: the outcome, and for a reload whether the data changed.
  datatype Heard = Heard(ok: bool, changed: Option<bool>)

  function Effect<D, W>(request: Request<D, W>, data: D, world: W): (D, bool) {
    match request
    case Change(change) => change(data, world)
    case Reload(reread) => (reread(data, world), true)
  }

  // ------------------------------------------------------------- the machine

  datatype Store<!D, !W> = Store(
    data: D,
    pending: seq<Job<D, W>>,
    busy: bool,
    flights: seq<Flight<D, W>>,
    told: seq<Heard>)

  // `run_next`: an idle worker gets the head of the queue and a copy of the data.
  function Next<D, W>(s: Store<D, W>): Store<D, W> {
    if s.busy || s.pending == [] then s
    else s.(pending := s.pending[1..], busy := true, flights := s.flights + [Flight(s.pending[0], s.data)])
  }

  // `change` and `reload`, for a caller or for a reply.
  function Queue<D, W>(s: Store<D, W>, request: Request<D, W>): Store<D, W> {
    Next(s.(pending := s.pending + [Job(request, if request.Reload? then Some(s.data) else None)]))
  }

  function QueueAll<D, W>(s: Store<D, W>, requests: seq<Request<D, W>>): Store<D, W>
    decreases |requests|
  {
    if requests == [] then s else QueueAll(Queue(s, requests[0]), requests[1..])
  }

  // The worker is done with one of the changes it was given: the data is
  // replaced, the reply runs and may ask for more, and the next change starts.
  function Complete<D(==), W>(s: Store<D, W>, flight: nat, world: W, asked: seq<Request<D, W>>): Store<D, W>
    requires flight < |s.flights|
  {
    var done := s.flights[flight];
    var (copy, ok) := Effect(done.job.request, done.copy, world);
    var data := if ok then copy else s.data;
    var changed := if done.job.before.Some? then Some(data != done.job.before.value) else None;
    var replaced := Store(data, s.pending, false, s.flights[..flight] + s.flights[flight + 1..], s.told + [Heard(ok, changed)]);
    Next(QueueAll(replaced, asked))
  }

  datatype Event<!D, !W> =
    | Asks(request: Request<D, W>)
    | Finishes(flight: nat, world: W, asked: seq<Request<D, W>>)

  function Start<D, W>(data: D): Store<D, W> {
    Store(data, [], false, [], [])
  }

  // The store after the events, or None when one of them cannot happen.
  function Run<D(==), W>(initial: D, events: seq<Event<D, W>>): Option<Store<D, W>> {
    if events == [] then Some(Start(initial))
    else
      var event := events[|events| - 1];
      match Run(initial, events[..|events| - 1])
      case None => None
      case Some(s) =>
        match event
        case Asks(request) => Some(Queue(s, request))
        case Finishes(flight, world, asked) => if flight < |s.flights| then Some(Complete(s, flight, world, asked)) else None
  }

  // ----------------------------------------------------------- the reference

  // What was asked for, in order, with the number of changes that had finished
  // by then; and what each finished change found in the file.
  datatype Log<!D, !W> = Log(asked: seq<(Request<D, W>, nat)>, worlds: seq<W>)

  function Asked<D, W>(requests: seq<Request<D, W>>, at: nat): (asked: seq<(Request<D, W>, nat)>)
    ensures |asked| == |requests|
  {
    seq(|requests|, i requires 0 <= i < |requests| => (requests[i], at))
  }

  function LogOf<D, W>(events: seq<Event<D, W>>): Log<D, W> {
    if events == [] then Log([], [])
    else
      var log := LogOf(events[..|events| - 1]);
      match events[|events| - 1]
      case Asks(request) => Log(log.asked + [(request, |log.worlds|)], log.worlds)
      case Finishes(_, world, asked) => Log(log.asked + Asked(asked, |log.worlds| + 1), log.worlds + [world])
  }

  // The data after the first `n` requests, one after another in the order they
  // were asked for: only the successful ones change it.
  function DataAfter<D, W>(initial: D, log: Log<D, W>, n: nat): D
    requires n <= |log.worlds| <= |log.asked|
  {
    if n == 0 then initial
    else
      var before, world := DataAfter(initial, log, n - 1), log.worlds[n - 1];
      match log.asked[n - 1].0
      case Change(change) => if change(before, world).1 then change(before, world).0 else before
      case Reload(reread) => reread(before, world)
  }

  // What the reply to request `i` hears: its own outcome, and for a reload
  // whether the data after it differs from the data when it was asked for.
  function ReplyTo<D(==), W>(initial: D, log: Log<D, W>, i: nat): Heard
    requires i < |log.worlds| <= |log.asked| && log.asked[i].1 <= i
  {
    var (request, at) := log.asked[i];
    match request
    case Change(change) => Heard(change(DataAfter(initial, log, i), log.worlds[i]).1, None)
    case Reload(_) => Heard(true, Some(DataAfter(initial, log, i + 1) != DataAfter(initial, log, at)))
  }

  // The requests still to run, as jobs.
  function JobsFrom<D, W>(initial: D, log: Log<D, W>, n: nat): (jobs: seq<Job<D, W>>)
    requires n <= |log.asked| && |log.worlds| <= |log.asked|
    requires forall i :: 0 <= i < |log.asked| ==> log.asked[i].1 <= |log.worlds|
  {
    seq(|log.asked| - n, i requires 0 <= i < |log.asked| - n => JobOf(initial, log, n + i))
  }

  function JobOf<D, W>(initial: D, log: Log<D, W>, i: nat): Job<D, W>
    requires i < |log.asked| && |log.worlds| <= |log.asked| && log.asked[i].1 <= |log.worlds|
  {
    Job(log.asked[i].0, if log.asked[i].0.Reload? then Some(DataAfter(initial, log, log.asked[i].1)) else None)
  }

  ghost predicate SoundLog<D(!new), W(!new)>(log: Log<D, W>) {
    && |log.worlds| <= |log.asked|
    && forall i :: 0 <= i < |log.asked| ==> log.asked[i].1 <= i && log.asked[i].1 <= |log.worlds|
  }

  // The store is what running the requests one after another makes of it. Only
  // inside a reply, before the next change starts, may an idle store have
  // changes waiting.
  ghost predicate Follows<D(!new), W(!new)>(initial: D, log: Log<D, W>, s: Store<D, W>, inReply: bool) {
    var n := |log.worlds|;
    && SoundLog(log)
    && s.data == DataAfter(initial, log, n)
    && |s.told| == n
    && (forall i :: 0 <= i < n ==> s.told[i] == ReplyTo(initial, log, i))
    && (s.busy ==>
          && n < |log.asked|
          && s.flights == [Flight(JobOf(initial, log, n), s.data)]
          && s.pending == JobsFrom(initial, log, n + 1))
    && (!s.busy ==>
          && s.flights == []
          && s.pending == JobsFrom(initial, log, n)
          && (!inReply ==> s.pending == []))
  }

  // A longer log with the same finished changes tells the same story.
  lemma {:induction false} SameData<D(!new), W(!new)>(initial: D, log: Log<D, W>, longer: Log<D, W>, n: nat)
    requires n <= |log.worlds| <= |log.asked| && |longer.worlds| <= |longer.asked|
    requires log.asked <= longer.asked && log.worlds <= longer.worlds
    ensures DataAfter(initial, longer, n) == DataAfter(initial, log, n)
  {
    if n > 0 {
      SameData(initial, log, longer, n - 1);
    }
  }

  lemma NextFollows<D(!new), W(!new)>(initial: D, log: Log<D, W>, s: Store<D, W>)
    requires Follows(initial, log, s, true)
    ensures Follows(initial, log, Next(s), false)
  {
  }

  lemma QueueFollows<D(!new), W(!new)>(initial: D, log: Log<D, W>, s: Store<D, W>, request: Request<D, W>)
    requires Follows(initial, log, s, true)
    ensures Follows(initial, Log(log.asked + [(request, |log.worlds|)], log.worlds), Queue(s, request), false)
  {
    hide Next;
    var n := |log.worlds|;
    var longer := Log(log.asked + [(request, n)], log.worlds);
    forall i | 0 <= i <= n ensures DataAfter(initial, longer, i) == DataAfter(initial, log, i) {
      SameData(initial, log, longer, i);
    }
    var job := Job(request, if request.Reload? then Some(s.data) else None);
    var queued := s.(pending := s.pending + [job]);
    forall i | 0 <= i < |log.asked| ensures JobOf(initial, longer, i) == JobOf(initial, log, i) {
    }
    assert JobOf(initial, longer, |log.asked|) == job;
    forall i | 0 <= i < n ensures queued.told[i] == ReplyTo(initial, longer, i) {
      assert ReplyTo(initial, longer, i) == ReplyTo(initial, log, i);
    }
    assert queued.pending == JobsFrom(initial, longer, if s.busy then n + 1 else n);
    NextFollows(initial, longer, queued);
  }

  lemma {:induction false} QueueAllFollows<D(!new), W(!new)>(initial: D, log: Log<D, W>, s: Store<D, W>, requests: seq<Request<D, W>>)
    requires Follows(initial, log, s, true)
    ensures Follows(initial, Log(log.asked + Asked(requests, |log.worlds|), log.worlds), QueueAll(s, requests), true)
    decreases |requests|
  {
    var n := |log.worlds|;
    if requests == [] {
      assert log.asked + Asked(requests, n) == log.asked;
    } else {
      QueueFollows(initial, log, s, requests[0]);
      var longer := Log(log.asked + [(requests[0], n)], log.worlds);
      QueueAllFollows(initial, longer, Queue(s, requests[0]), requests[1..]);
      assert longer.asked + Asked(requests[1..], n) == log.asked + Asked(requests, n);
    }
  }

  lemma CompleteFollows<D(!new), W(!new)>(initial: D, log: Log<D, W>, s: Store<D, W>, flight: nat, world: W, asked: seq<Request<D, W>>)
    requires Follows(initial, log, s, false) && flight < |s.flights|
    ensures Follows(initial, Log(log.asked + Asked(asked, |log.worlds| + 1), log.worlds + [world]), Complete(s, flight, world, asked), false)
  {
    var n := |log.worlds|;
    var done := Log(log.asked, log.worlds + [world]);
    var (copy, ok) := Effect(s.flights[0].job.request, s.flights[0].copy, world);
    var data := if ok then copy else s.data;
    forall i | 0 <= i <= n ensures DataAfter(initial, done, i) == DataAfter(initial, log, i) {
      SameData(initial, log, done, i);
    }
    assert DataAfter(initial, done, n + 1) == data;
    var before := s.flights[0].job.before;
    var heard := Heard(ok, if before.Some? then Some(data != before.value) else None);
    assert heard == ReplyTo(initial, done, n);
    forall i | 0 <= i < |log.asked| ensures JobOf(initial, done, i) == JobOf(initial, log, i) {
    }
    var replaced := Store(data, s.pending, false, s.flights[..0] + s.flights[1..], s.told + [heard]);
    assert replaced.pending == JobsFrom(initial, done, n + 1);
    forall i | 0 <= i < n + 1 ensures replaced.told[i] == ReplyTo(initial, done, i) {
      if i < n {
        assert ReplyTo(initial, done, i) == ReplyTo(initial, log, i);
      }
    }
    QueueAllFollows(initial, done, replaced, asked);
    NextFollows(initial, Log(log.asked + Asked(asked, n + 1), done.worlds), QueueAll(replaced, asked));
  }

  // In every run, whatever is asked for when and whatever the replies ask for,
  // the store follows the sequential reference.
  lemma {:induction false} EveryRunFollows<D(!new), W(!new)>(initial: D, events: seq<Event<D, W>>)
    requires Run(initial, events).Some?
    ensures Follows(initial, LogOf(events), Run(initial, events).value, false)
    decreases |events|
  {
    if events != [] {
      var before := events[..|events| - 1];
      EveryRunFollows(initial, before);
      var log, s := LogOf(before), Run(initial, before).value;
      match events[|events| - 1]
      case Asks(request) => QueueFollows(initial, log, s, request);
      case Finishes(flight, world, asked) => CompleteFollows(initial, log, s, flight, world, asked);
    }
  }

  // ------------------------------------------------------------ main results

  // At most one change is on the worker, on a copy of the current data; an
  // idle store has none waiting; the data is that of the successful changes in
  // the order they were asked for; and every request is heard of once, in that
  // order, with its own outcome.
  lemma EveryRun<D(!new), W(!new)>(initial: D, events: seq<Event<D, W>>)
    requires Run(initial, events).Some?
    ensures var s, log := Run(initial, events).value, LogOf(events);
      && |log.worlds| <= |log.asked|
      && |s.flights| == (if s.busy then 1 else 0)
      && (s.busy ==> s.flights[0].copy == s.data)
      && (!s.busy ==> s.pending == [])
      && s.data == DataAfter(initial, log, |log.worlds|)
      && |s.told| == |log.worlds|
      && |s.told| + |s.flights| + |s.pending| == |log.asked|
      && forall i :: 0 <= i < |s.told| ==> log.asked[i].1 <= i && s.told[i] == ReplyTo(initial, log, i)
  {
    EveryRunFollows(initial, events);
  }

  // Anything may be asked for at any time, and any change that is on the worker
  // may finish; nothing else happens.
  lemma WhatCanHappen<D(!new), W(!new)>(initial: D, events: seq<Event<D, W>>, event: Event<D, W>)
    requires Run(initial, events).Some?
    ensures Run(initial, events + [event]).Some? <==> (event.Finishes? ==> event.flight < |Run(initial, events).value.flights|)
  {
    assert (events + [event])[..|events|] == events;
  }

  // What a finished request does, at any time of any run: after a change that
  // failed the data is that from before, after one that did not it is the copy
  // the change worked on, and after a reload what that read. Each is heard of
  // next.
  lemma FinishedRequest<D(!new), W(!new)>(initial: D, events: seq<Event<D, W>>, k: nat)
    requires k < |events| && events[k].Finishes? && Run(initial, events[..k + 1]).Some?
    ensures Run(initial, events[..k]).Some?
    ensures var before, after := Run(initial, events[..k]).value, Run(initial, events[..k + 1]).value;
      var i, world := |before.told|, events[k].world;
      && i < |LogOf(events[..k]).asked|
      && |after.told| == i + 1 && after.told[..i] == before.told
      && match LogOf(events[..k]).asked[i].0
         case Change(change) =>
           var (copy, ok) := change(before.data, world);
           after.data == (if ok then copy else before.data) && after.told[i] == Heard(ok, None)
         case Reload(reread) => after.data == reread(before.data, world) && after.told[i].ok
  {
    var now := events[..k + 1];
    assert now[..k] == events[..k];
    EveryRunFollows(initial, events[..k]);
    EveryRunFollows(initial, now);
    hide Run, LogOf;
    var before, after, log := Run(initial, events[..k]).value, Run(initial, now).value, LogOf(now);
    LogOfFinish(events, k);
    assert now[k] == events[k];
    var i := |before.told|;
    assert Run(initial, now).Some? && before.flights != [] by { FinishHappens(initial, now); }
    SameData(initial, LogOf(events[..k]), log, i);
    forall j | 0 <= j < i ensures after.told[j] == before.told[j] {
      SameData(initial, LogOf(events[..k]), log, j);
      SameData(initial, LogOf(events[..k]), log, j + 1);
      SameData(initial, LogOf(events[..k]), log, log.asked[j].1);
    }
  }

  lemma LogOfFinish<D(!new), W(!new)>(events: seq<Event<D, W>>, k: nat)
    requires k < |events| && events[k].Finishes?
    ensures var log := LogOf(events[..k]);
      LogOf(events[..k + 1]) == Log(log.asked + Asked(events[k].asked, |log.worlds| + 1), log.worlds + [events[k].world])
  {
    assert events[..k + 1][..k] == events[..k];
  }

  lemma FinishHappens<D(!new), W(!new)>(initial: D, events: seq<Event<D, W>>)
    requires events != [] && events[|events| - 1].Finishes? && Run(initial, events).Some?
    ensures Run(initial, events[..|events| - 1]).Some? && Run(initial, events[..|events| - 1]).value.flights != []
  {
  }

  lemma {:induction false} RunOfPrefix<D(!new), W(!new)>(initial: D, events: seq<Event<D, W>>, k: nat)
    requires k <= |events| && Run(initial, events).Some?
    ensures Run(initial, events[..k]).Some?
    ensures LogOf(events[..k]).asked <= LogOf(events).asked && LogOf(events[..k]).worlds <= LogOf(events).worlds
    decreases |events|
  {
    if k == |events| {
      assert events[..k] == events;
    } else {
      var before := events[..|events| - 1];
      RunOfPrefix(initial, before, k);
      assert before[..k] == events[..k];
    }
  }

  // What the data was at any earlier time, in terms of the whole log.
  lemma DataAtTime<D(!new), W(!new)>(initial: D, events: seq<Event<D, W>>, k: nat)
    requires k <= |events| && Run(initial, events).Some?
    ensures Run(initial, events[..k]).Some?
    ensures var n, log := |LogOf(events[..k]).worlds|, LogOf(events);
      n <= |log.worlds| <= |log.asked| && Run(initial, events[..k]).value.data == DataAfter(initial, log, n)
  {
    RunOfPrefix(initial, events, k);
    EveryRunFollows(initial, events[..k]);
    EveryRunFollows(initial, events);
    SameData(initial, LogOf(events[..k]), LogOf(events), |LogOf(events[..k]).worlds|);
  }

  // A reload hears that the data changed exactly when the data at its
  // completion differs from the data when it was asked for, however many other
  // changes ran in between and whoever asked for them.
  lemma ReloadHearsTheDifference<D(!new), W(!new)>(initial: D, events: seq<Event<D, W>>, i: nat, asked: nat, finished: nat)
    requires Run(initial, events).Some? && asked < |events| && finished < |events|
    requires |LogOf(events[..asked]).asked| <= i < |LogOf(events[..asked + 1]).asked|
    requires |LogOf(events[..finished]).worlds| == i && |LogOf(events[..finished + 1]).worlds| == i + 1
    ensures Run(initial, events[..asked + 1]).Some? && Run(initial, events[..finished + 1]).Some?
    ensures i < |LogOf(events).asked| && i < |Run(initial, events).value.told|
    ensures LogOf(events).asked[i].0.Reload? ==>
      Run(initial, events).value.told[i].changed
        == Some(Run(initial, events[..finished + 1]).value.data != Run(initial, events[..asked + 1]).value.data)
  {
    hide Run, LogOf, DataAfter;
    EveryRun(initial, events);
    DataAtTime(initial, events, asked + 1);
    DataAtTime(initial, events, finished + 1);
    RunOfPrefix(initial, events, asked + 1);
    RunOfPrefix(initial, events, finished + 1);
    assert events[..asked + 1][..asked] == events[..asked];
    AskedDuring(events[..asked + 1], i);
    assert LogOf(events).asked[i] == LogOf(events[..asked + 1]).asked[i];
    assert Run(initial, events).value.told[i] == ReplyTo(initial, LogOf(events), i);
  }

  lemma AskedDuring<D(!new), W(!new)>(events: seq<Event<D, W>>, i: nat)
    requires events != [] && |LogOf(events[..|events| - 1]).asked| <= i < |LogOf(events).asked|
    ensures LogOf(events).asked[i].1 == |LogOf(events).worlds|
  {
  }

  // --------------------------------------------------------------- the store

  // The store itself; `flights` are the changes handed to the worker whose
  // outcome has not come back.
  class Settings<D(==), W> {
    var settings: D
    var pending: seq<Job<D, W>>
    var workerBusy: bool
    var flights: seq<Flight<D, W>>
    var told: seq<Heard>

    constructor (settings: D)
      ensures Now() == Start(settings)
    {
      this.settings := settings;
      pending, workerBusy, flights, told := [], false, [], [];
    }

    function Now(): Store<D, W>
      reads this
    {
      Store(settings, pending, workerBusy, flights, told)
    }

    // A request goes to the end of the queue; a reload takes note of the data.
    method Ask(request: Request<D, W>)
      modifies this
      ensures Now() == Queue(old(Now()), request)
    {
      var before := if request.Reload? then Some(settings) else None;
      pending := pending + [Job(request, before)];
      RunNext();
    }

    // Hands the head of the queue to the worker, if it has nothing to do.
    method RunNext()
      modifies this
      ensures Now() == Next(old(Now()))
    {
      if workerBusy {
        return;
      }
      if pending == [] {
        return;
      }
      var queued := pending[0];
      pending := pending[1..];
      workerBusy := true;
      flights := flights + [Flight(queued, settings)];
    }

    // The worker has applied one change, finding `world` in the file; its
    // reply asks for `asked`.
    method Finish(flight: nat, world: W, asked: seq<Request<D, W>>)
      requires flight < |flights|
      modifies this
      ensures Now() == Complete(old(Now()), flight, world, asked)
    {
      var queued, copy := flights[flight].job, flights[flight].copy;
      flights := flights[..flight] + flights[flight + 1..];
      var (changed, ok) := Effect(queued.request, copy, world);
      if ok {
        settings := changed;
      }
      workerBusy := false;
      var differs := if queued.before.Some? then Some(settings != queued.before.value) else None;
      told := told + [Heard(ok, differs)];
      ghost var after := QueueAll(Now(), asked);
      for i := 0 to |asked|
        invariant QueueAll(Now(), asked[i..]) == after
      {
        Ask(asked[i]);
      }
      RunNext();
    }
  }
}
