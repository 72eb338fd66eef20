/** What every run of the activity protocol keeps, and what every maximal run ends in. */
module ActivityTheorems {
  import opened Options
  import opened Activities
  import Sets

  /* ---- the invariant ---- */

  /** What holds of one subtask in every reachable state; `Meaning` fixes every fact already decided. */
  ghost predicate TaskInv(g: Graph, s: State, n: nat)
    requires Shape(g, s) && g.Node(n)
  {
    var t, v := s.tasks[n], Meaning(g, n);
    && t.arrived <= g.deps[n]
    && (forall d | d in t.arrived :: s.tasks[d].sent.Sent())
    && t.comb.counter + |t.arrived| == |g.deps[n]|
    && (t.comb.canceled <==> exists d | d in t.arrived :: s.tasks[d].sent.Cancel?)
    && t.invoked + t.skipped <= 1
    && (g.deps[n] != {} ==> (t.invoked + t.skipped == 1 <==> t.arrived == g.deps[n]))
    && (t.invoked == 1 ==> v.invoked)
    && (t.skipped == 1 ==> v.skipped && t.sent == v.signal && t.res == FRESH.(canceled := true))
    && (t.res.completed ==> t.invoked == 1 && v.record == Some(t.res) && t.sent == v.signal)
    && (t.skipped == 0 && !t.res.completed ==> t.sent == Pending && t.res == FRESH)
    && (t.sent.Done? ==> t.res.completed && !t.res.canceled)
    && (n in s.store <==> t.res.completed)
    && (n in s.store ==> s.store[n] == t.res)
  }

  ghost predicate Inv(g: Graph, s: State) {
    && Shape(g, s)
    && (forall n: nat {:trigger TaskInv(g, s, n)} | g.Node(n) :: TaskInv(g, s, n))
    && (forall n | n in s.store :: g.Node(n))
  }

  lemma InitInv(g: Graph)
    requires g.Valid()
    ensures Inv(g, Init(g))
  {
    forall n: nat | g.Node(n) ensures TaskInv(g, Init(g), n) {
      assert Init(g).tasks[n] == InitTask(g.deps[n]);
    }
  }

  /* ---- data visibility ---- */

  /** An ancestor as a running activity finds it: invoked, finished without cancelling, recorded. */
  ghost predicate Visible(s: State, a: nat)
    requires a < |s.tasks|
  {
    && s.tasks[a].invoked == 1 && s.tasks[a].skipped == 0
    && s.tasks[a].res.completed && !s.tasks[a].res.canceled && s.tasks[a].sent.Done?
    && a in s.store && s.store[a] == s.tasks[a].res
  }

  /** Whenever an activity has been invoked, every transitive ancestor is visible. */
  lemma {:induction false} DataVisibility(g: Graph, s: State, n: nat)
    requires Inv(g, s) && g.Node(n) && n !in g.joins && s.tasks[n].invoked == 1
    ensures forall a | a in Ancestors(g, n) :: Visible(s, a)
    decreases g.rank[n]
  {
    assert TaskInv(g, s, n);
    forall d | d in g.deps[n] ensures Visible(s, d) && forall a | a in Ancestors(g, d) :: Visible(s, a) {
      assert TaskInv(g, s, d);
      MeaningInvoked(g, n, d);
      DataVisibility(g, s, d);
    }
  }

  lemma MeaningInvoked(g: Graph, n: nat, d: nat)
    requires g.Valid() && g.Node(n) && n !in g.joins && Meaning(g, n).invoked && d in g.deps[n]
    ensures Meaning(g, d).signal.Done?
  {
  }

  lemma RecordIsMeaning(g: Graph, s: State, a: nat)
    requires Inv(g, s) && g.Node(a) && a in s.store
    ensures Meaning(g, a).record == Some(s.store[a])
  {
    assert TaskInv(g, s, a);
  }

  /** What an activity reads is what the schedule-free meaning gives it. */
  lemma SeenIsMeaning(g: Graph, s: State, n: nat)
    requires Inv(g, s) && g.Node(n) && n !in g.joins && s.tasks[n].invoked == 1
    ensures Seen(g, s, n) == AncestorRecords(g, n)
  {
    DataVisibility(g, s, n);
    forall a | a in Ancestors(g, n) ensures a in s.store && Meaning(g, a).record == Some(s.store[a]) {
      assert Visible(s, a);
      RecordIsMeaning(g, s, a);
    }
  }

  /** Nothing more will be recorded for `a`. */
  ghost predicate Decided(g: Graph, s: State, a: nat)
    requires g.Valid() && g.Node(a)
  {
    a in s.store <==> Meaning(g, a).record.Some?
  }

  lemma {:induction false} SignalledOne(g: Graph, s: State, n: nat)
    requires Inv(g, s) && g.Node(n) && n !in g.joins && s.tasks[n].sent.Sent()
    ensures Decided(g, s, n) && forall d | d in g.deps[n] :: s.tasks[d].sent.Sent()
  {
    assert TaskInv(g, s, n);
  }

  /** Behind a subtask that has signalled everything is decided: its record and those of its ancestors. */
  lemma {:induction false} SignalledDecided(g: Graph, s: State, n: nat)
    requires Inv(g, s) && g.Node(n) && n !in g.joins && s.tasks[n].sent.Sent()
    ensures forall a | a in Ancestors(g, n) + {n} :: Decided(g, s, a)
    decreases g.rank[n]
  {
    SignalledOne(g, s, n);
    hide Decided, TaskInv;
    forall d | d in g.deps[n] ensures forall a | a in Ancestors(g, d) + {d} :: Decided(g, s, a) {
      SignalledDecided(g, s, d);
    }
  }

  lemma {:induction false} SeenWhenDecided(g: Graph, s: State, n: nat)
    requires Inv(g, s) && g.Node(n) && forall a | a in Ancestors(g, n) :: Decided(g, s, a)
    ensures Seen(g, s, n) == AncestorRecords(g, n)
  {
    hide Meaning, TaskInv;
    forall a | a in Ancestors(g, n) && a in s.store ensures Meaning(g, a).record == Some(s.store[a]) {
      RecordIsMeaning(g, s, a);
    }
  }

  /** What the final callback reads of its ancestors is what the schedule-free meaning gives it. */
  lemma {:induction false} FinishSees(g: Graph, s: State, j: nat)
    requires Inv(g, s) && g.Node(j) && j in g.joins && s.tasks[j].invoked == 1
    ensures Seen(g, s, j) == AncestorRecords(g, j)
  {
    assert TaskInv(g, s, j);
    hide Decided, TaskInv, Meaning, AncestorRecords, Seen;
    forall d | d in g.deps[j] ensures forall a | a in Ancestors(g, d) + {d} :: Decided(g, s, a) {
      SignalledDecided(g, s, d);
    }
    SeenWhenDecided(g, s, j);
  }

  /* ---- every step keeps the invariant ---- */

  /** A step that only touches subtask `n`, whose signal was still pending, keeps the others' invariant. */
  lemma OthersKeep(g: Graph, s: State, s': State, n: nat, m: nat)
    requires Inv(g, s) && g.Node(n) && g.Node(m) && m != n
    requires Shape(g, s') && s'.tasks == s.tasks[n := s'.tasks[n]]
    requires s'.tasks[n].sent == s.tasks[n].sent || s.tasks[n].sent.Pending?
    requires m in s'.store <==> m in s.store
    requires m in s.store ==> s'.store[m] == s.store[m]
    ensures TaskInv(g, s', m)
  {
    assert TaskInv(g, s, m);
    forall d | d in s.tasks[m].arrived ensures s'.tasks[d].sent == s.tasks[d].sent {
    }
  }

  lemma StartInv(g: Graph, s: State, n: nat)
    requires Inv(g, s) && Enabled(g, s, Start(n))
    ensures Inv(g, Apply(g, s, Start(n)))
  {
    var s' := Apply(g, s, Start(n));
    assert TaskInv(g, s, n);
    forall m: nat | g.Node(m) ensures TaskInv(g, s', m) {
      if m != n { OthersKeep(g, s, s', n, m); }
    }
  }

  lemma CompleteTaskInv(g: Graph, s: State, n: nat)
    requires Inv(g, s) && Enabled(g, s, Complete(n))
    ensures TaskInv(g, Apply(g, s, Complete(n)), n)
    ensures s.tasks[n].sent.Pending?
  {
    hide Ancestors, Records, AncestorRecords;
    assert TaskInv(g, s, n);
    SeenIsMeaning(g, s, n);
  }

  lemma CompleteInv(g: Graph, s: State, n: nat)
    requires Inv(g, s) && Enabled(g, s, Complete(n))
    ensures Inv(g, Apply(g, s, Complete(n)))
  {
    var s' := Apply(g, s, Complete(n));
    CompleteTaskInv(g, s, n);
    hide Meaning, Finished;
    forall m: nat | g.Node(m) ensures TaskInv(g, s', m) {
      if m != n { OthersKeep(g, s, s', n, m); }
    }
  }

  /** The combinator's own bookkeeping after one more arrival. */
  lemma ArriveInv(g: Graph, s: State, d: nat, n: nat)
    requires Inv(g, s) && Enabled(g, s, Deliver(d, n)) && TaskInv(g, s, n)
    ensures var t, (c, fire) := s.tasks[n], Arrive(s.tasks[n].comb, s.tasks[d].sent.Cancel?);
            var a := t.arrived + {d};
            && c.counter + |a| == |g.deps[n]|
            && (fire.Wait? <==> a != g.deps[n])
            && (c.canceled <==> exists e | e in a :: s.tasks[e].sent.Cancel?)
            && t.invoked + t.skipped == 0 && t.sent.Pending? && t.res == FRESH
  {
    var t := s.tasks[n];
    assert TaskInv(g, s, n);
    assert t.arrived + {d} <= g.deps[n];
    Sets.SubsetSize(t.arrived, g.deps[n]);
    Sets.SubsetSize(t.arrived + {d}, g.deps[n]);
  }

  /** Once everything has arrived the meaning of the node is what the combinator decides. */
  lemma AllArrived(g: Graph, s: State, n: nat, a: set<nat>)
    requires Inv(g, s) && g.Node(n) && a == g.deps[n]
    requires forall d | d in a :: s.tasks[d].sent.Sent()
    ensures forall d | d in g.deps[n] :: Meaning(g, d).signal == s.tasks[d].sent
    ensures var flag := exists d | d in a :: s.tasks[d].sent.Cancel?;
            var v := Meaning(g, n);
            if n in g.joins then v.invoked <==> a != {}
            else if flag then v == Verdict(false, true, None, Canceled(g.acts[n], FRESH).1)
            else v.invoked && !v.skipped
  {
    forall d | d in g.deps[n] ensures Meaning(g, d).signal == s.tasks[d].sent {
      assert TaskInv(g, s, d);
    }
  }

  lemma DeliverTaskInv(g: Graph, s: State, d: nat, n: nat)
    requires Inv(g, s) && Enabled(g, s, Deliver(d, n))
    ensures TaskInv(g, Apply(g, s, Deliver(d, n)), n)
    ensures s.tasks[n].sent.Pending?
  {
    var t, a := s.tasks[n], s.tasks[n].arrived + {d};
    assert TaskInv(g, s, n);
    ArriveInv(g, s, d, n);
    if a == g.deps[n] { AllArrived(g, s, n, a); }
    assert n !in a;
  }

  lemma DeliverInv(g: Graph, s: State, d: nat, n: nat)
    requires Inv(g, s) && Enabled(g, s, Deliver(d, n))
    ensures Inv(g, Apply(g, s, Deliver(d, n)))
  {
    var s' := Apply(g, s, Deliver(d, n));
    DeliverTaskInv(g, s, d, n);
    hide Meaning, Delivered;
    forall m: nat | g.Node(m) ensures TaskInv(g, s', m) {
      if m != n { OthersKeep(g, s, s', n, m); }
    }
  }

  lemma StepInv(g: Graph, s: State, st: Step)
    requires Inv(g, s) && Enabled(g, s, st)
    ensures Inv(g, Apply(g, s, st))
  {
    match st
    case Start(n) => StartInv(g, s, n);
    case Complete(n) => CompleteInv(g, s, n);
    case Deliver(d, n) => DeliverInv(g, s, d, n);
  }

  lemma {:induction false} RunInv(g: Graph, s: State, steps: seq<Step>, t: State)
    requires Inv(g, s) && Runs(g, s, steps, t)
    ensures Inv(g, t)
    decreases |steps|
  {
    if steps != [] {
      StepInv(g, s, steps[0]);
      RunInv(g, Apply(g, s, steps[0]), steps[1..], t);
    }
  }

  /* ---- maximal runs ---- */

  /** The history the meaning of the graph prescribes for one subtask. */
  ghost predicate Settled(g: Graph, s: State, n: nat)
    requires Shape(g, s) && g.Node(n)
  {
    var t, v := s.tasks[n], Meaning(g, n);
    && t.invoked == (if v.invoked then 1 else 0)
    && t.skipped == (if v.skipped then 1 else 0)
    && t.sent == v.signal
    && (n in s.store <==> v.record.Some?)
    && (n in s.store ==> v.record == Some(s.store[n]))
    && t.arrived == (set d | d in g.deps[n] && Meaning(g, d).signal.Sent())
  }

  lemma {:induction false} TerminalSettles(g: Graph, s: State, n: nat)
    requires Inv(g, s) && Terminal(g, s) && g.Node(n)
    ensures Settled(g, s, n)
    decreases g.rank[n]
  {
    assert TaskInv(g, s, n);
    var t, v := s.tasks[n], Meaning(g, n);
    forall d | d in g.deps[n]
      ensures s.tasks[d].sent == Meaning(g, d).signal && (d in t.arrived <==> Meaning(g, d).signal.Sent())
    {
      TerminalSettles(g, s, d);
      assert !Enabled(g, s, Deliver(d, n));
    }
    if t.arrived == g.deps[n] {
      AllArrived(g, s, n, t.arrived);
      assert !Enabled(g, s, Start(n));
      if n !in g.joins && t.invoked == 1 {
        SeenIsMeaning(g, s, n);
        assert !Enabled(g, s, Complete(n));
      }
    }
  }

  /** The state every maximal run ends in, written down from the meaning of the graph alone. */
  ghost function FinalTask(g: Graph, n: nat): Task
    requires g.Valid() && g.Node(n)
  {
    var v := Meaning(g, n);
    var arrived := set d | d in g.deps[n] && Meaning(g, d).signal.Sent();
    var canceled := exists d | d in g.deps[n] :: Meaning(g, d).signal.Cancel?;
    Task(Combinator(|g.deps[n] - arrived|, canceled), arrived,
         if v.invoked then 1 else 0, if v.skipped then 1 else 0,
         if v.record.Some? then v.record.value else if v.skipped then FRESH.(canceled := true) else FRESH,
         v.signal)
  }

  ghost function FinalStore(g: Graph): Dataset
    requires g.Valid()
  {
    map n: nat | n < |g.acts| && Meaning(g, n).record.Some? :: Meaning(g, n).record.value
  }

  ghost function FinalState(g: Graph): State
    requires g.Valid()
  {
    State(seq(|g.acts|, n requires 0 <= n < |g.acts| => FinalTask(g, n)), FinalStore(g))
  }

  /**
   Schedule independence: every maximal run, whatever its order of reports and deliveries,
   ends in one state that is a function of the graph, its outcomes, flags and callbacks.
   */
  lemma ScheduleIndependence(g: Graph, steps: seq<Step>, s: State)
    requires g.Valid() && Runs(g, Init(g), steps, s) && Terminal(g, s)
    ensures s == FinalState(g)
  {
    InitInv(g);
    RunInv(g, Init(g), steps, s);
    forall n: nat | g.Node(n) ensures Settled(g, s, n) { TerminalSettles(g, s, n); }
    forall n: nat | g.Node(n) ensures s.tasks[n] == FinalTask(g, n) { FinalTaskOf(g, s, n); }
    assert s.tasks == FinalState(g).tasks;
    FinalStoreOf(g, s);
  }

  lemma FinalStoreOf(g: Graph, s: State)
    requires Inv(g, s) && forall n: nat {:trigger Settled(g, s, n)} | g.Node(n) :: Settled(g, s, n)
    ensures s.store == FinalStore(g)
  {
    forall a: nat ensures a in s.store <==> a in FinalStore(g) {
      if g.Node(a) { assert Settled(g, s, a); }
    }
    forall a | a in s.store ensures s.store[a] == FinalStore(g)[a] { assert Settled(g, s, a); }
  }

  lemma FinalTaskOf(g: Graph, s: State, n: nat)
    requires Inv(g, s) && g.Node(n) && Settled(g, s, n)
    requires forall m: nat {:trigger Settled(g, s, m)} | g.Node(m) :: Settled(g, s, m)
    ensures s.tasks[n] == FinalTask(g, n)
  {
    hide Meaning;
    assert TaskInv(g, s, n);
    var t := s.tasks[n];
    assert g.deps[n] == t.arrived + (g.deps[n] - t.arrived);
    forall d | d in g.deps[n] ensures s.tasks[d].sent == Meaning(g, d).signal { assert Settled(g, s, d); }
  }

  /* ---- termination ---- */

  /** Edges into `n` still to be delivered, plus one until it is invoked and one until it completes. */
  ghost function Weight(g: Graph, s: State, n: nat): nat
    requires Shape(g, s) && g.Node(n)
  {
    |g.deps[n] - s.tasks[n].arrived|
    + (if s.tasks[n].res.completed then 0 else 1)
    + (if s.tasks[n].invoked == 0 then 1 else 0)
  }

  ghost function Measure(g: Graph, s: State, k: nat): nat
    requires Shape(g, s) && k <= |g.acts|
  {
    if k == 0 then 0 else Measure(g, s, k - 1) + Weight(g, s, k - 1)
  }

  lemma WeightUnchanged(g: Graph, s: State, s': State, n: nat, m: nat)
    requires Shape(g, s) && Shape(g, s') && g.Node(n) && g.Node(m) && m != n
    requires s'.tasks == s.tasks[n := s'.tasks[n]]
    ensures Weight(g, s', m) == Weight(g, s, m)
  {
  }

  lemma {:induction false} MeasureUpdate(g: Graph, s: State, s': State, n: nat, k: nat)
    requires Shape(g, s) && Shape(g, s') && k <= |g.acts| && g.Node(n)
    requires s'.tasks == s.tasks[n := s'.tasks[n]]
    ensures Measure(g, s', k) + (if n < k then Weight(g, s, n) else 0)
         == Measure(g, s, k) + (if n < k then Weight(g, s', n) else 0)
  {
    hide Weight;
    if k > 0 {
      MeasureUpdate(g, s, s', n, k - 1);
      if k - 1 != n { WeightUnchanged(g, s, s', n, k - 1); }
    }
  }

  lemma StepWeight(g: Graph, s: State, st: Step)
    requires Shape(g, s) && Enabled(g, s, st)
    ensures Weight(g, Apply(g, s, st), st.n) < Weight(g, s, st.n)
  {
    var s', n := Apply(g, s, st), st.n;
    if st.Deliver? {
      var t := s.tasks[n];
      ArrivalKeepsHistory(g, n, t, st.d, s.tasks[st.d].sent.Cancel?);
      var before, after := g.deps[n] - t.arrived, g.deps[n] - s'.tasks[n].arrived;
      assert before == after + {st.d};
    }
  }

  /** An arrival neither takes back a completion nor an invocation. */
  lemma ArrivalKeepsHistory(g: Graph, n: nat, t: Task, d: nat, cancel: bool)
    requires g.Node(n)
    ensures var t' := Delivered(g, n, t, d, cancel);
            t'.arrived == t.arrived + {d} && t'.invoked >= t.invoked && t'.res.completed == t.res.completed
  {
  }

  lemma StepDecreases(g: Graph, s: State, st: Step)
    requires Shape(g, s) && Enabled(g, s, st)
    ensures Measure(g, Apply(g, s, st), |g.acts|) < Measure(g, s, |g.acts|)
  {
    hide Weight, Delivered, Finished;
    MeasureUpdate(g, s, Apply(g, s, st), st.n, |g.acts|);
    StepWeight(g, s, st);
  }

  /** No run is longer than the measure of the state it starts from. */
  lemma {:induction false} RunBound(g: Graph, s: State, steps: seq<Step>, t: State)
    requires Shape(g, s) && Runs(g, s, steps, t)
    ensures Shape(g, t) && |steps| + Measure(g, t, |g.acts|) <= Measure(g, s, |g.acts|)
    decreases |steps|
  {
    if steps != [] {
      StepDecreases(g, s, steps[0]);
      RunBound(g, Apply(g, s, steps[0]), steps[1..], t);
    }
  }

  ghost function EdgeCount(g: Graph, k: nat): nat
    requires g.Valid() && k <= |g.acts|
  {
    if k == 0 then 0 else EdgeCount(g, k - 1) + |g.deps[k - 1]|
  }

  lemma {:induction false} InitMeasure(g: Graph, k: nat)
    requires g.Valid() && k <= |g.acts|
    ensures Measure(g, Init(g), k) == EdgeCount(g, k) + 2 * k
  {
    if k > 0 {
      InitMeasure(g, k - 1);
      assert Init(g).tasks[k - 1] == InitTask(g.deps[k - 1]);
      assert g.deps[k - 1] - {} == g.deps[k - 1];
    }
  }

  /** Any run can be driven on to a maximal one. */
  lemma {:induction false} RunsOn(g: Graph, s: State) returns (steps: seq<Step>, t: State)
    requires Shape(g, s)
    ensures Runs(g, s, steps, t) && Terminal(g, t)
    decreases Measure(g, s, |g.acts|)
  {
    if Terminal(g, s) {
      steps, t := [], s;
    } else {
      var st :| Enabled(g, s, st);
      StepDecreases(g, s, st);
      var rest;
      rest, t := RunsOn(g, Apply(g, s, st));
      steps := [st] + rest;
      assert steps[1..] == rest;
    }
  }

  /** Every run is finite, with a bound read off the graph, and extends to the one final state. */
  lemma Termination(g: Graph, steps: seq<Step>, s: State) returns (rest: seq<Step>)
    requires g.Valid() && Runs(g, Init(g), steps, s)
    ensures |steps| + |rest| <= EdgeCount(g, |g.acts|) + 2 * |g.acts|
    ensures Shape(g, s) && Runs(g, s, rest, FinalState(g)) && Terminal(g, FinalState(g))
  {
    RunBound(g, Init(g), steps, s);
    InitMeasure(g, |g.acts|);
    var t;
    rest, t := RunsOn(g, s);
    RunsAppend(g, Init(g), steps, s, rest, t);
    ScheduleIndependence(g, steps + rest, t);
    RunBound(g, s, rest, t);
  }

  lemma {:induction false} RunsAppend(g: Graph, r: State, xs: seq<Step>, s: State, ys: seq<Step>, t: State)
    requires Shape(g, r) && Runs(g, r, xs, s) && Shape(g, s) && Runs(g, s, ys, t)
    ensures Runs(g, r, xs + ys, t)
    decreases |xs|
  {
    if xs == [] {
      assert xs + ys == ys;
    } else {
      RunsAppend(g, Apply(g, r, xs[0]), xs[1..], s, ys, t);
      assert (xs + ys)[0] == xs[0] && (xs + ys)[1..] == xs[1..] + ys;
    }
  }

  /* ---- the final callback ---- */

  /** In every state of every run: at most once, and only after every direct dependency has signalled. */
  lemma FinishAtMostOnce(g: Graph, steps: seq<Step>, s: State, j: nat)
    requires g.Valid() && Runs(g, Init(g), steps, s) && g.Node(j) && j in g.joins
    ensures Shape(g, s) && s.tasks[j].invoked <= 1
    ensures s.tasks[j].invoked == 1 ==> s.tasks[j].arrived == g.deps[j]
    ensures s.tasks[j].invoked == 1 ==> forall d | d in g.deps[j] :: s.tasks[d].sent.Sent()
    ensures s.tasks[j].arrived == g.deps[j] != {} ==> s.tasks[j].invoked == 1
  {
    InitInv(g);
    RunInv(g, Init(g), steps, s);
    assert TaskInv(g, s, j);
  }

  /** A maximal run has called the final callback iff no direct dependency stays silent. */
  lemma FinishIff(g: Graph, steps: seq<Step>, s: State, j: nat)
    requires g.Valid() && Runs(g, Init(g), steps, s) && Terminal(g, s) && g.Node(j) && j in g.joins
    ensures s.tasks[j].invoked == 1 <==> g.deps[j] != {} && forall d | d in g.deps[j] :: s.tasks[d].sent.Sent()
  {
    FinishAtMostOnce(g, steps, s, j);
    if forall d | d in g.deps[j] :: s.tasks[d].sent.Sent() {
      forall d | d in g.deps[j] ensures d in s.tasks[j].arrived { assert !Enabled(g, s, Deliver(d, j)); }
      InitInv(g);
      RunInv(g, Init(g), steps, s);
      assert TaskInv(g, s, j);
    }
  }

  /**
   The documentation promises that a failed required activity calls the final callback at once.
   Here one has failed and signalled, and the callback still waits for the other activity.
   */
  lemma FinishNotImmediate() returns (g: Graph, steps: seq<Step>, s: State)
    ensures g.Valid() && |g.acts| == 3 && g.joins == {2} && g.deps[2] == {0, 1}
    ensures Runs(g, Init(g), steps, s) && Shape(g, s)
    ensures g.acts[0].required && 0 in s.store && !s.store[0].success
    ensures s.tasks[0].sent.Cancel? && 0 in s.tasks[2].arrived && s.tasks[2].invoked == 0
  {
    var a := Activity(true, None, None, None, _ => Fails(1));
    g := Graph([a, a, a], [{}, {}, {0, 1}], {2}, [0, 0, 1]);
    var s0 := Init(g);
    var s1 := Apply(g, s0, Start(0));
    var s2 := Apply(g, s1, Complete(0));
    s := Apply(g, s2, Deliver(0, 2));
    steps := [Start(0), Complete(0), Deliver(0, 2)];
    assert steps[1..] == [Complete(0), Deliver(0, 2)] && steps[1..][1..] == [Deliver(0, 2)];
    assert Runs(g, s2, [Deliver(0, 2)], s);
    assert Runs(g, s1, [Complete(0), Deliver(0, 2)], s);
  }

  /** Every activity reports and no abort callback ever answers false. */
  ghost predicate Cooperative(g: Graph) {
    forall a | a in g.acts :: (forall r :: Propagates(a, r)) && (forall seen :: !a.run(seen).Stalls?)
  }

  lemma {:induction false} CooperativeSignals(g: Graph, n: nat)
    requires g.Valid() && Cooperative(g) && g.Node(n) && n !in g.joins
    ensures Meaning(g, n).signal.Sent()
    decreases g.rank[n]
  {
    assert g.acts[n] in g.acts;
    forall d | d in g.deps[n] ensures Meaning(g, d).signal.Sent() { CooperativeSignals(g, d); }
  }

  /** With cooperative activities every maximal run calls each final callback exactly once. */
  lemma FinishExactlyOnce(g: Graph, steps: seq<Step>, s: State, j: nat)
    requires g.Valid() && Cooperative(g)
    requires Runs(g, Init(g), steps, s) && Terminal(g, s) && g.Node(j) && j in g.joins && g.deps[j] != {}
    ensures s.tasks[j].invoked == 1
  {
    ScheduleIndependence(g, steps, s);
    forall d | d in g.deps[j] ensures s.tasks[d].sent.Sent() {
      CooperativeSignals(g, d);
    }
    FinishIff(g, steps, s, j);
  }

  /* ---- who runs ---- */

  lemma InvokedByDependencies(g: Graph, n: nat)
    requires g.Valid() && g.Node(n) && n !in g.joins
    ensures Meaning(g, n).invoked <==> forall d | d in g.deps[n] :: Meaning(g, d).signal.Done?
    ensures Meaning(g, n).signal.Done? ==> Meaning(g, n).invoked
    ensures Meaning(g, n).record.Some? && Meaning(g, n).signal.Done? ==>
              Meaning(g, n).record.value.success || !g.acts[n].required
  {
  }

  /** An activity is finally invoked iff every transitive ancestor sends done. */
  lemma {:induction false} InvokedIff(g: Graph, n: nat)
    requires g.Valid() && g.Node(n) && n !in g.joins
    ensures Meaning(g, n).invoked <==> forall a | a in Ancestors(g, n) :: Meaning(g, a).signal.Done?
    decreases g.rank[n]
  {
    InvokedByDependencies(g, n);
    forall d | d in g.deps[n]
      ensures Meaning(g, d).signal.Done? ==> forall a | a in Ancestors(g, d) :: Meaning(g, a).signal.Done?
    {
      InvokedByDependencies(g, d);
      InvokedIff(g, d);
    }
  }

  /** A required activity that fails keeps every activity behind it from ever being invoked. */
  lemma RequiredFailureCuts(g: Graph, steps: seq<Step>, s: State, a: nat, n: nat)
    requires g.Valid() && Runs(g, Init(g), steps, s) && Shape(g, s)
    requires g.Node(n) && n !in g.joins && a in Ancestors(g, n)
    requires a in s.store && !s.store[a].success && g.acts[a].required
    ensures s.tasks[n].invoked == 0
  {
    InitInv(g);
    RunInv(g, Init(g), steps, s);
    RecordIsMeaning(g, s, a);
    InvokedByDependencies(g, a);
    InvokedIff(g, n);
    assert TaskInv(g, s, n);
  }

  /** Records are final, and an activity that was skipped has none. */
  lemma {:induction false} RecordsFinal(g: Graph, s: State, steps: seq<Step>, t: State)
    requires Inv(g, s) && Runs(g, s, steps, t)
    ensures Inv(g, t)
    ensures forall a | a in s.store :: a in t.store && t.store[a] == s.store[a]
    ensures forall n: nat | g.Node(n) && t.tasks[n].skipped > 0 :: n !in t.store
    decreases |steps|
  {
    if steps != [] {
      var s' := Apply(g, s, steps[0]);
      StepInv(g, s, steps[0]);
      if steps[0].Complete? { assert TaskInv(g, s, steps[0].n); }
      RecordsFinal(g, s', steps[1..], t);
    } else {
      forall n: nat | g.Node(n) && t.tasks[n].skipped > 0 ensures n !in t.store { assert TaskInv(g, s, n); }
    }
  }
}
