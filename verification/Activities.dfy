/**
 The activity protocol of includes/udho/activities.h on values: what one `result`
 and one `combinator` do, a task graph over any finite DAG, its steps and its runs.

 A run interleaves three kinds of step: a root is started, an invoked activity reports
 success or failure, and one signal sent along one edge reaches the combinator of the
 next subtask. Every schedule of the library, single threaded or not, in which
 `propagate` is not interrupted is such a run.
 */
module Activities {
  import opened Options
  import opened Numerals

  /** Success and failure data; 0 stands for the value-initialised object. */
  type Data = int

  /** The fields of result_data. */
  datatype ResultData = ResultData(completed: bool, success: bool, canceled: bool, sdata: Data, fdata: Data)

  const FRESH := ResultData(false, false, false, 0, 0)

  /** The shared collector: one slot per activity. */
  type Dataset = map<nat, ResultData>

  /** What an invoked activity does: call success(data), call failure(data), or never report. */
  datatype Outcome = Succeeds(data: Data) | Fails(data: Data) | Stalls

  type Callback = Option<Data -> bool>

  /** One activity as configured. `run` sees the records of the activity's ancestors. */
  datatype Activity = Activity(
    required: bool,
    cancelIf: Callback,
    ifErrored: Callback,
    ifFailed: Callback,
    run: Dataset -> Outcome)

  /** What a result has sent to its successors so far. */
  datatype Signal = Pending | Done | Cancel | Silenced {
    predicate Sent() { Done? || Cancel? }
  }

  /* ---- result ---- */

  /** The `propagate` flag of result::cancel. */
  predicate Propagates(a: Activity, r: ResultData) {
    if !r.success && a.ifFailed.Some? then a.ifFailed.value(r.fdata)
    else if a.ifErrored.Some? then a.ifErrored.value(r.sdata)
    else true
  }

  /** result::cancel: the new data and what is signalled. */
  function Canceled(a: Activity, r: ResultData): (ResultData, Signal) {
    var r' := r.(canceled := true);
    (r', if Propagates(a, r') then Cancel else Silenced)
  }

  predicate ShouldCancel(a: Activity, r: ResultData) {
    if r.success then a.cancelIf.Some? && a.cancelIf.value(r.sdata) else a.required
  }

  /** result::success or result::failure, up to and including result::completed. */
  function Finished(a: Activity, r: ResultData, o: Outcome): (ResultData, Signal)
    requires !o.Stalls?
  {
    var r' := if o.Succeeds? then r.(sdata := o.data, success := true, completed := true)
              else r.(fdata := o.data, success := false, completed := true);
    if ShouldCancel(a, r') then Canceled(a, r') else (r', Done)
  }

  /* ---- combinator ---- */

  datatype Combinator = Combinator(counter: nat, canceled: bool)

  datatype Fire = Wait | Invoke | Skip

  /** combinator::operator() or combinator::cancel, with propagate as one step. */
  function Arrive(c: Combinator, cancel: bool): (Combinator, Fire) {
    var flag := c.canceled || cancel;
    var left := if c.counter == 0 then SIZE_MAX else c.counter - 1;
    (Combinator(left, flag), if left != 0 then Wait else if flag then Skip else Invoke)
  }

  /* ---- graphs ---- */

  /** `joins` are the final subtasks (joined); `rank` witnesses that the graph has no cycle. */
  datatype Graph = Graph(acts: seq<Activity>, deps: seq<set<nat>>, joins: set<nat>, rank: seq<nat>) {
    predicate Node(n: nat) { n < |acts| }

    ghost predicate Valid() {
      && |deps| == |acts| == |rank|
      && forall n: nat, d: nat {:trigger d in deps[n]} | Node(n) && d in deps[n] ::
           Node(d) && rank[d] < rank[n] && d !in joins
    }
  }

  function Ancestors(g: Graph, n: nat): (r: set<nat>)
    requires g.Valid() && g.Node(n)
    ensures forall a | a in r :: g.Node(a) && g.rank[a] < g.rank[n] && a !in g.joins
    decreases g.rank[n]
  {
    g.deps[n] + set d, a | d in g.deps[n] && a in Ancestors(g, d) :: a
  }

  /* ---- states and steps ---- */

  /**
   The objects of one subtask. `arrived`, `invoked`, `skipped` and `sent` record history:
   which dependencies have signalled, how often operator() and cancel() were called on the
   activity, and what its result signalled.
   */
  datatype Task = Task(
    comb: Combinator, arrived: set<nat>, invoked: nat, skipped: nat, res: ResultData, sent: Signal)

  datatype State = State(tasks: seq<Task>, store: Dataset)

  function InitTask(deps: set<nat>): Task {
    Task(Combinator(|deps|, false), {}, 0, 0, FRESH, Pending)
  }

  function Init(g: Graph): State
    requires g.Valid()
  {
    State(seq(|g.acts|, n requires 0 <= n < |g.deps| => InitTask(g.deps[n])), map[])
  }

  datatype Step = Start(n: nat) | Complete(n: nat) | Deliver(d: nat, n: nat)

  ghost predicate Shape(g: Graph, s: State) {
    g.Valid() && |s.tasks| == |g.acts|
  }

  /** The part of the dataset an activity reads: the records of its ancestors. */
  function Records(g: Graph, store: Dataset, n: nat): Dataset
    requires g.Valid() && g.Node(n)
  {
    map a | a in Ancestors(g, n) && a in store :: store[a]
  }

  function Seen(g: Graph, s: State, n: nat): Dataset
    requires g.Valid() && g.Node(n)
  {
    Records(g, s.store, n)
  }

  ghost function OutcomeOf(g: Graph, s: State, n: nat): Outcome
    requires g.Valid() && g.Node(n)
  {
    g.acts[n].run(Seen(g, s, n))
  }

  ghost predicate Enabled(g: Graph, s: State, st: Step)
    requires Shape(g, s)
  {
    match st
    case Start(n) =>
      g.Node(n) && g.deps[n] == {} && n !in g.joins && s.tasks[n].invoked == 0
    case Complete(n) =>
      && g.Node(n) && n !in g.joins && s.tasks[n].invoked > 0 && !s.tasks[n].res.completed
      && !OutcomeOf(g, s, n).Stalls?
    case Deliver(d, n) =>
      && g.Node(n) && d in g.deps[n] && s.tasks[d].sent.Sent() && d !in s.tasks[n].arrived
  }

  /** What the combinator does to the next subtask once its counter is zero. */
  function Fired(g: Graph, n: nat, t: Task, fire: Fire): Task
    requires g.Node(n)
  {
    match fire
    case Wait => t
    case Invoke => t.(invoked := t.invoked + 1)
    case Skip =>
      if n in g.joins then t.(invoked := t.invoked + 1)   // joined::cancel calls operator()
      else
        var (r, sig) := Canceled(g.acts[n], t.res);
        t.(skipped := t.skipped + 1, res := r, sent := sig)
  }

  function Delivered(g: Graph, n: nat, t: Task, d: nat, cancel: bool): Task
    requires g.Node(n)
  {
    var (c, fire) := Arrive(t.comb, cancel);
    Fired(g, n, t.(comb := c, arrived := t.arrived + {d}), fire)
  }

  ghost function Apply(g: Graph, s: State, st: Step): (s': State)
    requires Shape(g, s) && Enabled(g, s, st)
    ensures Shape(g, s')
  {
    match st
    case Start(n) =>
      s.(tasks := s.tasks[n := s.tasks[n].(invoked := s.tasks[n].invoked + 1)])
    case Complete(n) =>
      var (r, sig) := Finished(g.acts[n], s.tasks[n].res, OutcomeOf(g, s, n));
      State(s.tasks[n := s.tasks[n].(res := r, sent := sig)], s.store[n := r])
    case Deliver(d, n) =>
      s.(tasks := s.tasks[n := Delivered(g, n, s.tasks[n], d, s.tasks[d].sent.Cancel?)])
  }

  ghost predicate Runs(g: Graph, s: State, steps: seq<Step>, t: State)
    requires Shape(g, s)
    decreases |steps|
  {
    if steps == [] then s == t
    else Enabled(g, s, steps[0]) && Runs(g, Apply(g, s, steps[0]), steps[1..], t)
  }

  /** No step is possible: the run is maximal. */
  ghost predicate Terminal(g: Graph, s: State) {
    Shape(g, s) && forall st :: !Enabled(g, s, st)
  }

  /* ---- what the graph means, without any schedule ---- */

  /** What finally becomes of one subtask. */
  datatype Verdict = Verdict(invoked: bool, skipped: bool, record: Option<ResultData>, signal: Signal)

  ghost function Meaning(g: Graph, n: nat): (v: Verdict)
    requires g.Valid() && g.Node(n)
    decreases g.rank[n], 1
  {
    if exists d | d in g.deps[n] :: !Meaning(g, d).signal.Sent() then
      Verdict(false, false, None, Pending)              // some dependency stays silent
    else if n in g.joins then
      Verdict(g.deps[n] != {}, false, None, Pending)
    else if exists d | d in g.deps[n] :: Meaning(g, d).signal.Cancel? then
      Verdict(false, true, None, Canceled(g.acts[n], FRESH).1)
    else
      var o := g.acts[n].run(AncestorRecords(g, n));
      if o.Stalls? then Verdict(true, false, None, Pending)
      else
        var (r, sig) := Finished(g.acts[n], FRESH, o);
        Verdict(true, false, Some(r), sig)
  }

  ghost function AncestorRecords(g: Graph, n: nat): Dataset
    requires g.Valid() && g.Node(n)
    decreases g.rank[n], 0
  {
    map a | a in Ancestors(g, n) && Meaning(g, a).record.Some? :: Meaning(g, a).record.value
  }
}
