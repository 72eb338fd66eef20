/**
 The objects of includes/udho/activities.h: `result` and `combinator` with the fields the
 source updates in place, and a graph of them in which one report runs the whole cascade
 of signals synchronously, slot after slot, as a single thread does.
 */
module ActivityObjects {
  import opened Options
  import opened Numerals
  import opened Activities
  import opened ActivityTheorems

  /** result<SuccessT, FailureT>; the ghost fields record its history. */
  class Result {
    const activity: Activity
    var completed: bool
    var success: bool
    var canceled: bool
    var sdata: Data
    var fdata: Data
    ghost var invoked: nat
    ghost var skipped: nat
    ghost var sent: Signal

    constructor (activity: Activity)
      ensures this.activity == activity && Fields() == FRESH
      ensures invoked == 0 && skipped == 0 && sent == Pending
    {
      this.activity := activity;
      completed, success, canceled, sdata, fdata := false, false, false, 0, 0;
      invoked, skipped, sent := 0, 0, Pending;
    }

    ghost function Fields(): ResultData
      reads this
    {
      ResultData(completed, success, canceled, sdata, fdata)
    }

    /** The activity's operator(). */
    method Invoke()
      modifies this`invoked
      ensures invoked == old(invoked) + 1
    {
      invoked := invoked + 1;
    }

    method Success(data: Data) returns (record: ResultData, sig: Signal)
      modifies this`completed, this`success, this`canceled, this`sdata, this`sent
      ensures (Fields(), sig) == Finished(activity, old(Fields()), Succeeds(data))
      ensures sig.Done? <==> !(activity.cancelIf.Some? && activity.cancelIf.value(data))
      ensures record == Fields() && sent == sig
    {
      sdata, success, completed := data, true, true;
      record, sig := Completed();
    }

    method Failure(data: Data) returns (record: ResultData, sig: Signal)
      modifies this`completed, this`success, this`canceled, this`fdata, this`sent
      ensures (Fields(), sig) == Finished(activity, old(Fields()), Fails(data))
      ensures sig.Done? <==> !activity.required
      ensures record == Fields() && sent == sig
    {
      fdata, success, completed := data, false, true;
      record, sig := Completed();
    }

    method Completed() returns (record: ResultData, sig: Signal)
      modifies this`canceled, this`sent
      ensures (Fields(), sig) == if ShouldCancel(activity, old(Fields())) then Canceled(activity, old(Fields()))
                                 else (old(Fields()), Done)
      ensures sig.Done? <==>
        if success then !(activity.cancelIf.Some? && activity.cancelIf.value(sdata)) else !activity.required
      ensures record == Fields() && sent == sig
    {
      var shouldCancel := false;
      if success {
        if activity.cancelIf.Some? { shouldCancel := activity.cancelIf.value(sdata); }
      } else {
        shouldCancel := activity.required;
      }
      if shouldCancel { canceled := true; }
      record := ResultData(completed, success, canceled, sdata, fdata);
      if shouldCancel {
        sig := CancelResult();
      } else {
        sig := Done;
        sent := sig;
      }
    }

    /** result::cancel. */
    method CancelResult() returns (sig: Signal)
      modifies this`canceled, this`sent
      ensures (Fields(), sig) == Canceled(activity, old(Fields())) && sent == sig
    {
      canceled := true;
      var propagate := true;
      if !success && activity.ifFailed.Some? {
        propagate := activity.ifFailed.value(fdata);
      } else if activity.ifErrored.Some? {
        propagate := activity.ifErrored.value(sdata);
      }
      sig := if propagate then Cancel else Silenced;
      sent := sig;
    }
  }

  /** combinator<NextT, DependenciesT...>; `arrived` records which dependencies have signalled. */
  class CombinatorCell {
    var counter: nat
    var canceled: bool
    ghost var arrived: set<nat>

    constructor (dependencies: nat)
      ensures Fields() == Combinator(dependencies, false) && arrived == {}
    {
      counter, canceled, arrived := dependencies, false, {};
    }

    ghost function Fields(): Combinator
      reads this
    {
      Combinator(counter, canceled)
    }

    /** operator() or cancel(), then propagate(): the answer says what becomes of the next activity. */
    method Signalled(ghost d: nat, cancel: bool) returns (fire: Fire)
      modifies this
      ensures (Fields(), fire) == Arrive(old(Fields()), cancel) && arrived == old(arrived) + {d}
    {
      arrived := arrived + {d};
      if cancel { canceled := true; }
      counter := if counter == 0 then SIZE_MAX else counter - 1;
      if counter == 0 {
        fire := if canceled then Skip else Invoke;
      } else {
        fire := Wait;
      }
    }
  }

  /** Some run leads from `s` to `t`. */
  ghost predicate Reaches(g: Graph, s: State, t: State) {
    Shape(g, s) && exists steps :: Runs(g, s, steps, t)
  }

  lemma ReachesStep(g: Graph, s: State, st: Step)
    requires Shape(g, s) && Enabled(g, s, st)
    ensures Reaches(g, s, Apply(g, s, st))
  {
    assert [st][1..] == [];
    assert Runs(g, s, [st], Apply(g, s, st));
  }

  lemma ReachesTrans(g: Graph, r: State, s: State, t: State)
    requires Reaches(g, r, s) && Reaches(g, s, t)
    ensures Reaches(g, r, t)
  {
    var xs :| Runs(g, r, xs, s);
    var ys :| Runs(g, s, ys, t);
    RunsAppend(g, r, xs, s, ys, t);
  }

  lemma ReachesKeeps(g: Graph, s: State, t: State)
    requires Inv(g, s) && Reaches(g, s, t)
    ensures Inv(g, t) && Measure(g, t, |g.acts|) <= Measure(g, s, |g.acts|)
  {
    var xs :| Runs(g, s, xs, t);
    RunInv(g, s, xs, t);
    RunBound(g, s, xs, t);
  }

  /** The signals on their way: `(x, y)` when `x` has signalled and its slot for `y` is still to be called. */
  ghost function Flight(g: Graph, s: State): set<(nat, nat)>
    requires Shape(g, s)
  {
    set y: nat, x: nat | y < |g.acts| && x in g.deps[y] && s.tasks[x].sent.Sent() && x !in s.tasks[y].arrived :: (x, y)
  }

  /** All edges out of `n`. */
  ghost function Out(g: Graph, n: nat): set<(nat, nat)>
    requires g.Valid()
  {
    set y: nat | y < |g.acts| && n in g.deps[y] :: (n, y)
  }

  lemma SentIsMeaning(g: Graph, s: State, n: nat)
    requires Inv(g, s) && g.Node(n) && !s.tasks[n].sent.Pending?
    ensures s.tasks[n].sent == Meaning(g, n).signal
  {
    assert TaskInv(g, s, n);
  }

  /** A subtask that has not signalled has arrived nowhere. */
  lemma PendingNowhere(g: Graph, s: State, x: nat, y: nat)
    requires Inv(g, s) && g.Node(x) && g.Node(y) && s.tasks[x].sent.Pending?
    ensures x !in s.tasks[y].arrived
  {
    assert TaskInv(g, s, y);
  }

  ghost function Emitted(g: Graph, n: nat, sig: Signal): set<(nat, nat)>
    requires g.Valid()
  {
    if sig.Sent() then Out(g, n) else {}
  }

  /** Changing subtask `n`, which has signalled nobody, moves only edges into `n` and out of `n`. */
  lemma FlightUpdate(g: Graph, s: State, s': State, n: nat, more: set<nat>)
    requires Shape(g, s) && Shape(g, s') && g.Node(n) && s'.tasks == s.tasks[n := s'.tasks[n]]
    requires s.tasks[n].sent.Pending? && n !in g.deps[n]
    requires forall y: nat | g.Node(y) :: n !in s.tasks[y].arrived
    requires s'.tasks[n].arrived == s.tasks[n].arrived + more && n !in more
    ensures Flight(g, s) !! Out(g, n)
    ensures Flight(g, s') == Flight(g, s) - (set d | d in more :: (d, n)) + Emitted(g, n, s'.tasks[n].sent)
  {
    forall x: nat, y: nat
      ensures (x, y) in Flight(g, s') <==>
              ((x, y) in Flight(g, s) && !(y == n && x in more)) || (x, y) in Emitted(g, n, s'.tasks[n].sent)
    {
    }
  }

  /** Delivering one signal takes that edge out of flight and puts the edges of a skipped subtask in. */
  lemma DeliverFlight(g: Graph, s: State, d: nat, m: nat)
    requires Inv(g, s) && (d, m) in Flight(g, s)
    ensures Enabled(g, s, Step.Deliver(d, m)) && s.tasks[m].sent.Pending? && Flight(g, s) !! Out(g, m)
    ensures s.tasks[m].res == FRESH
    ensures var s' := Apply(g, s, Step.Deliver(d, m));
            Flight(g, s') == Flight(g, s) - {(d, m)} + Emitted(g, m, s'.tasks[m].sent)
  {
    assert TaskInv(g, s, m);
    ArriveInv(g, s, d, m);
    forall y: nat | g.Node(y) ensures m !in s.tasks[y].arrived { PendingNowhere(g, s, m, y); }
    FlightUpdate(g, s, Apply(g, s, Step.Deliver(d, m)), m, {d});
    assert (set e | e in {d} :: (e, m)) == {(d, m)};
  }

  /** Everything about one delivery that the cascade needs. */
  lemma DeliverOnce(g: Graph, s: State, d: nat, m: nat)
    requires Inv(g, s) && (d, m) in Flight(g, s)
    ensures g.Node(m) && Enabled(g, s, Step.Deliver(d, m)) && s.tasks[m].sent.Pending? && s.tasks[m].res == FRESH
    ensures Flight(g, s) !! Out(g, m) && Reaches(g, s, Apply(g, s, Step.Deliver(d, m)))
    ensures var s' := Apply(g, s, Step.Deliver(d, m));
            && Inv(g, s') && Measure(g, s', |g.acts|) < Measure(g, s, |g.acts|)
            && Flight(g, s') == Flight(g, s) - {(d, m)} + Emitted(g, m, s'.tasks[m].sent)
  {
    DeliverFlight(g, s, d, m);
    StepDecreases(g, s, Step.Deliver(d, m));
    StepInv(g, s, Step.Deliver(d, m));
    ReachesStep(g, s, Step.Deliver(d, m));
  }

  /** Starting a root signals nobody. */
  lemma StartFlight(g: Graph, s: State, n: nat)
    requires Shape(g, s) && Enabled(g, s, Start(n))
    ensures Flight(g, Apply(g, s, Start(n))) == Flight(g, s)
  {
  }

  lemma CompleteFlight(g: Graph, s: State, n: nat)
    requires Inv(g, s) && Enabled(g, s, Complete(n))
    ensures Flight(g, s) !! Out(g, n)
    ensures var s' := Apply(g, s, Complete(n));
            Flight(g, s') == Flight(g, s) + Emitted(g, n, s'.tasks[n].sent)
  {
    PendingUntilComplete(g, s, n);
    forall y: nat | g.Node(y) ensures n !in s.tasks[y].arrived { PendingNowhere(g, s, n, y); }
    FlightUpdate(g, s, Apply(g, s, Complete(n)), n, {});
  }

  lemma PendingUntilComplete(g: Graph, s: State, n: nat)
    requires Inv(g, s) && Enabled(g, s, Complete(n))
    ensures s.tasks[n].sent.Pending?
  {
    assert TaskInv(g, s, n);
  }

  /** The edges served when the slots in `ms` have been called. */
  ghost function Called(n: nat, ms: seq<nat>): set<(nat, nat)> {
    set m | m in ms :: (n, m)
  }

  lemma NextSlot(g: Graph, n: nat, ms: seq<nat>, i: nat)
    requires g.Valid() && forall m: nat :: m in ms <==> m < |g.acts| && n in g.deps[m]
    requires forall i, j | 0 <= i < j < |ms| :: ms[i] != ms[j]
    ensures Called(n, ms) == Out(g, n)
    ensures i < |ms| ==> (n, ms[i]) in Out(g, n) && (n, ms[i]) !in Called(n, ms[..i])
    ensures i < |ms| ==> Called(n, ms[..i + 1]) == Called(n, ms[..i]) + {(n, ms[i])}
  {
    if i < |ms| {
      assert ms[i] in ms && ms[..i + 1] == ms[..i] + [ms[i]];
    }
  }

  ghost function TaskState(r: Result, c: CombinatorCell): Task
    reads r, c
  {
    Task(c.Fields(), c.arrived, r.invoked, r.skipped, r.Fields(), r.sent)
  }

  /**
   Between reports nothing is in flight, so a graph in which nothing is left to start or to
   report is in the one final state, whatever the order of its reports and of its slots.
   */
  lemma QuiescentIsFinal(g: Graph, s: State)
    requires g.Valid() && Reaches(g, Init(g), s) && Shape(g, s) && Flight(g, s) == {}
    requires forall n: nat :: !Enabled(g, s, Start(n)) && !Enabled(g, s, Complete(n))
    ensures s == FinalState(g)
  {
    var steps :| Runs(g, Init(g), steps, s);
    forall st ensures !Enabled(g, s, st) {
      match st
      case Start(n) =>
      case Complete(n) =>
      case Deliver(d, n) => assert (d, n) !in Flight(g, s);
    }
    ScheduleIndependence(g, steps, s);
  }

  class TaskGraph {
    const g: Graph
    const results: seq<Result>
    const combs: seq<CombinatorCell>
    /** slots[n]: the subtasks connected to the signals of `n`, in the order of connection. */
    const slots: seq<seq<nat>>
    /** The activities that report before their operator() returns; all others report later. */
    const immediate: set<nat>
    var store: Dataset
    ghost var model: State

    ghost predicate Wired()
      reads {}
    {
      && g.Valid() && |results| == |combs| == |slots| == |g.acts|
      && (forall i, j :: 0 <= i < j < |results| ==> results[i] != results[j] && combs[i] != combs[j])
      && (forall n: nat | n < |slots| :: results[n].activity == g.acts[n])
      && (forall n: nat, m: nat | n < |slots| :: m in slots[n] <==> m < |slots| && n in g.deps[m])
      && (forall n: nat, i, j | n < |slots| && 0 <= i < j < |slots[n]| :: slots[n][i] != slots[n][j])
    }

    ghost function TaskOf(n: nat): Task
      requires n < |results| && n < |combs|
      reads results, combs
    {
      TaskState(results[n], combs[n])
    }

    /** The objects are in the state `model`. */
    ghost predicate Represents()
      reads this, results, combs
    {
      && Wired() && Shape(g, model) && store == model.store
      && (forall n: nat | n < |results| :: TaskOf(n) == model.tasks[n])
    }

    ghost predicate Valid()
      reads this, results, combs
    {
      Represents() && Inv(g, model)
    }

    /** A fresh graph of objects; `slots` is the order in which the successors were attached. */
    constructor (g: Graph, slots: seq<seq<nat>>, immediate: set<nat>)
      requires g.Valid() && |slots| == |g.acts|
      requires forall n: nat, m: nat | n < |slots| :: m in slots[n] <==> m < |slots| && n in g.deps[m]
      requires forall n: nat, i, j | n < |slots| && 0 <= i < j < |slots[n]| :: slots[n][i] != slots[n][j]
      ensures Valid() && this.g == g && this.immediate == immediate && model == Init(g) && Flight(g, model) == {}
    {
      var rs: seq<Result>, cs: seq<CombinatorCell> := [], [];
      for n := 0 to |g.acts|
        invariant |rs| == |cs| == n
        invariant forall i | 0 <= i < n :: fresh(rs[i]) && fresh(cs[i])
        invariant forall i, j | 0 <= i < j < n :: rs[i] != rs[j] && cs[i] != cs[j]
        invariant forall i: nat | i < n :: rs[i].activity == g.acts[i] && TaskState(rs[i], cs[i]) == InitTask(g.deps[i])
      {
        var r := new Result(g.acts[n]);
        var c := new CombinatorCell(|g.deps[n]|);
        rs, cs := rs + [r], cs + [c];
      }
      this.g, this.slots, this.immediate := g, slots, immediate;
      results, combs, store, model := rs, cs, map[], Init(g);
      InitInv(g);
    }

    /** Start a root subtask. */
    method Start(n: nat)
      requires Valid() && Enabled(g, model, Step.Start(n))
      modifies this`model, this`store, results, combs
      ensures Valid() && Reaches(g, Apply(g, old(model), Step.Start(n)), model)
      ensures Flight(g, model) == Flight(g, old(model))
      ensures n !in immediate ==> model == Apply(g, old(model), Step.Start(n))
    {
      ghost var s := model;
      assert TaskInv(g, s, n);
      results[n].Invoke();
      StartFlight(g, s, n);
      StepInv(g, s, Step.Start(n));
      model := Apply(g, s, Step.Start(n));
      assert Runs(g, model, [], model);
      Perform(n);
    }

    /** The activity's operator() has been called: it reports at once, or later. */
    method Perform(n: nat)
      requires Valid() && g.Node(n) && n !in g.joins && model.tasks[n].invoked > 0 && !model.tasks[n].res.completed
      modifies this`model, this`store, results, combs
      ensures Valid() && Reaches(g, old(model), model)
      ensures Flight(g, model) == Flight(g, old(model))
      ensures n !in immediate ==> model == old(model)
      decreases Measure(g, model, |g.acts|), 4
    {
      assert Runs(g, model, [], model);
      if n in immediate {
        var o := g.acts[n].run(Records(g, store, n));
        if !o.Stalls? { Report(n, o); }
      }
    }

    /** The combinator of `m` is called, and through it at most the activity of `m`. */
    method Combine(ghost d: nat, m: nat, cancel: bool) returns (sig: Signal, started: bool)
      requires Wired() && g.Node(m) && results[m].sent.Pending?
      modifies results[m], combs[m]
      ensures TaskOf(m) == Delivered(g, m, old(TaskOf(m)), d, cancel)
      ensures sig == results[m].sent
      ensures started <==> m !in g.joins && results[m].invoked > old(results[m].invoked)
      ensures started ==> sig.Pending? && results[m].Fields() == old(results[m].Fields())
    {
      sig, started := Pending, false;
      var fire := combs[m].Signalled(d, cancel);
      match fire {
        case Wait =>
        case Invoke =>
          results[m].Invoke();
          started := m !in g.joins;
        case Skip =>
          if m in g.joins {
            results[m].Invoke();
          } else {
            sig := results[m].CancelResult();
            results[m].skipped := results[m].skipped + 1;
          }
      }
    }

    method Arrival(ghost d: nat, m: nat, cancel: bool) returns (sig: Signal, started: bool)
      requires Represents() && Enabled(g, model, Step.Deliver(d, m)) && cancel == model.tasks[d].sent.Cancel?
      requires model.tasks[m].sent.Pending?
      modifies this`model, results[m], combs[m]
      ensures Represents() && model == Apply(g, old(model), Step.Deliver(d, m))
      ensures sig == model.tasks[m].sent
      ensures started <==> m !in g.joins && model.tasks[m].invoked > old(model).tasks[m].invoked
      ensures started ==> sig.Pending? && model.tasks[m].res == old(model).tasks[m].res
    {
      hide Delivered;
      assert TaskOf(m) == model.tasks[m];
      sig, started := Combine(d, m, cancel);
      model := Apply(g, model, Step.Deliver(d, m));
      assert TaskOf(m) == model.tasks[m];
    }

    /** One slot of the signal of `d` is called: the combinator of `m`, and all that follows from it. */
    method Deliver(d: nat, m: nat, cancel: bool)
      requires Valid() && (d, m) in Flight(g, model) && cancel == model.tasks[d].sent.Cancel?
      modifies this`model, this`store, results, combs
      ensures Valid() && Reaches(g, old(model), model)
      ensures Flight(g, model) == Flight(g, old(model)) - {(d, m)}
      decreases Measure(g, model, |g.acts|), 0
    {
      ghost var s := model;
      hide Enabled, Apply, Flight, Meaning, TaskInv, Reaches, Measure, TaskState;
      DeliverOnce(g, s, d, m);
      var sig, started := Arrival(d, m, cancel);
      ghost var s1 := model;
      if started {
        Perform(m);
        ReachesTrans(g, s, s1, model);
      } else if sig.Sent() {
        Emit(m, sig.Cancel?);
        ReachesTrans(g, s, s1, model);
      }
    }

    /** Part of Emit: started in `s`, the first `i` slots of `n` have been called. */
    ghost predicate Emitting(s: State, n: nat, cancel: bool, i: nat)
      reads this, results, combs
    {
      && Valid() && Inv(g, s) && Reaches(g, s, model)
      && g.Node(n) && i <= |slots[n]| && Out(g, n) <= Flight(g, s)
      && s.tasks[n].sent.Sent() && cancel == s.tasks[n].sent.Cancel?
      && Flight(g, model) == Flight(g, s) - Called(n, slots[n][..i])
    }

    method Slot(ghost s: State, n: nat, cancel: bool, i: nat)
      requires Emitting(s, n, cancel, i) && i < |slots[n]|
      modifies this`model, this`store, results, combs
      ensures Emitting(s, n, cancel, i + 1)
      decreases Measure(g, s, |g.acts|), 1
    {
      ghost var t := model;
      assert n < |slots| && forall m: nat :: m in slots[n] <==> m < |slots| && n in g.deps[m];
      NextSlot(g, n, slots[n], i);
      assert (n, slots[n][i]) in Flight(g, t);
      SentIsMeaning(g, s, n);
      SentIsMeaning(g, t, n);
      ReachesKeeps(g, s, t);
      Deliver(n, slots[n][i], cancel);
      ReachesTrans(g, s, t, model);
    }

    /** Call every slot connected to the signal of `n`. */
    method Emit(n: nat, cancel: bool)
      requires Valid() && g.Node(n) && model.tasks[n].sent.Sent() && cancel == model.tasks[n].sent.Cancel?
      requires Out(g, n) <= Flight(g, model)
      modifies this`model, this`store, results, combs
      ensures Valid() && Reaches(g, old(model), model)
      ensures Flight(g, model) == Flight(g, old(model)) - Out(g, n)
      decreases Measure(g, model, |g.acts|), 2
    {
      ghost var s := model;
      assert Runs(g, s, [], s);
      for i := 0 to |slots[n]|
        invariant Emitting(s, n, cancel, i)
      {
        Slot(s, n, cancel, i);
      }
      NextSlot(g, n, slots[n], |slots[n]|);
      assert slots[n][..|slots[n]|] == slots[n];
    }

    /** result::success or result::failure up to the signal: the record is stored. */
    method Outcome(n: nat, o: Activities.Outcome) returns (sig: Signal)
      requires Represents() && Enabled(g, model, Complete(n)) && o == OutcomeOf(g, model, n)
      modifies this`model, this`store, results[n]
      ensures Represents() && model == Apply(g, old(model), Complete(n))
      ensures sig == model.tasks[n].sent
    {
      assert TaskOf(n) == model.tasks[n];
      var record;
      if o.Succeeds? {
        record, sig := results[n].Success(o.data);
      } else {
        record, sig := results[n].Failure(o.data);
      }
      store := store[n := record];
      model := Apply(g, model, Complete(n));
      assert TaskOf(n) == model.tasks[n];
    }

    /** An invoked activity reports; everything the report sets off has happened on return. */
    method Report(n: nat, o: Activities.Outcome)
      requires Valid() && Enabled(g, model, Complete(n)) && o == OutcomeOf(g, model, n)
      modifies this`model, this`store, results, combs
      ensures Valid() && Reaches(g, old(model), model)
      ensures Flight(g, model) == Flight(g, old(model))
      decreases Measure(g, model, |g.acts|), 3
    {
      ghost var s := model;
      CompleteFlight(g, s, n);
      StepDecreases(g, s, Complete(n));
      StepInv(g, s, Complete(n));
      ReachesStep(g, s, Complete(n));
      var sig := Outcome(n, o);
      ghost var s1 := model;
      if sig.Sent() {
        Emit(n, sig.Cancel?);
        ReachesTrans(g, s, s1, model);
      }
    }
  }
}
