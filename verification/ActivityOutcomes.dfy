/** What reports do to a task graph, in terms of outcomes, required flags and callbacks alone. */
module ActivityOutcomes {
  import opened Options
  import opened Activities
  import opened ActivityTheorems

  /* ---- what one activity sends ---- */

  /** The cancel_if callback is there and answers true. */
  predicate AsksToCancel(a: Activity, data: Data) {
    a.cancelIf.Some? && a.cancelIf.value(data)
  }

  /** A report after which the successors may go on. */
  predicate Proceeds(a: Activity, o: Outcome) {
    (o.Succeeds? && !AsksToCancel(a, o.data)) || (o.Fails? && !a.required)
  }

  /** An activity's record says what the activity reported. */
  predicate Recorded(r: ResultData, o: Outcome) {
    match o
    case Succeeds(data) => r.completed && r.success && r.sdata == data && r.fdata == 0
    case Fails(data) => r.completed && !r.success && r.fdata == data && r.sdata == 0
    case Stalls => false
  }

  /**
   In every state of every run: a recorded activity has reported its outcome on what its ancestors
   recorded, and it has sent done iff it succeeded and cancel_if does not answer true, or it failed
   and is optional. Only those that have not are marked as cancelled.
   */
  lemma {:induction false} DoneIff(g: Graph, steps: seq<Step>, s: State, n: nat)
    requires g.Valid() && Runs(g, Init(g), steps, s) && Shape(g, s) && g.Node(n) && n !in g.joins && n in s.store
    ensures var o := g.acts[n].run(Records(g, s.store, n));
            && Recorded(s.store[n], o)
            && (s.tasks[n].sent.Done? <==> Proceeds(g.acts[n], o))
            && (s.store[n].canceled <==> !Proceeds(g.acts[n], o))
  {
    InitInv(g);
    RunInv(g, Init(g), steps, s);
    assert TaskInv(g, s, n);
    hide AncestorRecords, Records, Meaning, Recorded, Proceeds;
    SeenIsMeaning(g, s, n);
    RecordedOutcome(g, n);
  }

  lemma {:induction false} RecordedOutcome(g: Graph, n: nat)
    requires g.Valid() && g.Node(n) && Meaning(g, n).record.Some?
    ensures var o, v := g.acts[n].run(AncestorRecords(g, n)), Meaning(g, n);
            && Recorded(v.record.value, o)
            && (v.signal.Done? <==> Proceeds(g.acts[n], o))
            && (v.record.value.canceled <==> !Proceeds(g.acts[n], o))
  {
    hide AncestorRecords;
  }

  /** What is sent by an activity that does not proceed, or that is skipped: the abort callbacks decide. */
  predicate SentBy(a: Activity, failed: bool, sdata: Data, fdata: Data, sent: Signal) {
    && (failed && a.ifFailed.Some? ==> sent == if a.ifFailed.value(fdata) then Cancel else Silenced)
    && (!(failed && a.ifFailed.Some?) && a.ifErrored.Some? ==>
          sent == if a.ifErrored.value(sdata) then Cancel else Silenced)
    && (!(failed && a.ifFailed.Some?) && a.ifErrored.None? ==> sent == Cancel)
  }

  /**
   In every state of every run: who has recorded and not sent done has asked if_failed with its
   failure data if it failed, otherwise if_errored with its success data, and cancels unless the
   callback asked answers false. A skipped activity asks the same callbacks with blank data.
   */
  lemma {:induction false} CancelIff(g: Graph, steps: seq<Step>, s: State, n: nat)
    requires g.Valid() && Runs(g, Init(g), steps, s) && Shape(g, s) && g.Node(n) && n !in g.joins
    ensures n in s.store && !s.tasks[n].sent.Done? ==>
              var r := s.store[n]; SentBy(g.acts[n], !r.success, r.sdata, r.fdata, s.tasks[n].sent)
    ensures s.tasks[n].skipped > 0 ==> SentBy(g.acts[n], true, 0, 0, s.tasks[n].sent)
    ensures s.tasks[n].skipped == 0 && n !in s.store ==> s.tasks[n].sent.Pending?
  {
    InitInv(g);
    RunInv(g, Init(g), steps, s);
    assert TaskInv(g, s, n);
    hide AncestorRecords, Meaning, SentBy;
    if n in s.store { RecordedSends(g, n); }
    if s.tasks[n].skipped > 0 { SkippedSends(g, n); }
  }

  lemma {:induction false} RecordedSends(g: Graph, n: nat)
    requires g.Valid() && g.Node(n) && Meaning(g, n).record.Some?
    ensures var v := Meaning(g, n);
            var r := v.record.value;
            !v.signal.Done? ==> SentBy(g.acts[n], !r.success, r.sdata, r.fdata, v.signal)
  {
    hide AncestorRecords;
  }

  lemma {:induction false} SkippedSends(g: Graph, n: nat)
    requires g.Valid() && g.Node(n) && Meaning(g, n).skipped
    ensures SentBy(g.acts[n], true, 0, 0, Meaning(g, n).signal)
  {
    hide AncestorRecords;
  }

  /* ---- who runs ---- */

  lemma {:induction false} DoneByOutcome(g: Graph, n: nat)
    requires g.Valid() && g.Node(n) && n !in g.joins
    ensures Meaning(g, n).signal.Done? <==>
              Meaning(g, n).invoked && Proceeds(g.acts[n], g.acts[n].run(AncestorRecords(g, n)))
  {
    hide AncestorRecords;
  }

  /** An activity is meant to run iff every transitive ancestor, run on its ancestors' records, proceeds. */
  lemma {:induction false} InvokedByOutcomes(g: Graph, n: nat)
    requires g.Valid() && g.Node(n) && n !in g.joins
    ensures Meaning(g, n).invoked <==>
            forall a | a in Ancestors(g, n) :: Proceeds(g.acts[a], g.acts[a].run(AncestorRecords(g, a)))
    decreases g.rank[n]
  {
    InvokedIff(g, n);
    hide Meaning, AncestorRecords, Proceeds;
    forall a | a in Ancestors(g, n)
      ensures Meaning(g, a).signal.Done? ==> Proceeds(g.acts[a], g.acts[a].run(AncestorRecords(g, a)))
    {
      DoneByOutcome(g, a);
    }
    if forall a | a in Ancestors(g, n) :: Proceeds(g.acts[a], g.acts[a].run(AncestorRecords(g, a))) {
      forall a | a in Ancestors(g, n) ensures Meaning(g, a).signal.Done? {
        AncestorsNest(g, n, a);
        InvokedByOutcomes(g, a);
        DoneByOutcome(g, a);
      }
    }
  }

  lemma {:induction false} AncestorsNest(g: Graph, n: nat, a: nat)
    requires g.Valid() && g.Node(n) && a in Ancestors(g, n)
    ensures Ancestors(g, a) <= Ancestors(g, n)
    decreases g.rank[n]
  {
    hide Ancestors;
    forall b | b in Ancestors(g, a) ensures b in Ancestors(g, n) {
      if a in g.deps[n] {
        AncestorOfDependency(g, n, a, b);
      } else {
        var d := AncestorThrough(g, n, a);
        AncestorsNest(g, d, a);
        AncestorOfDependency(g, n, d, b);
      }
    }
  }

  /** What activities read in a maximal run is what the meaning of the graph gives them. */
  lemma {:induction false} FinalRecords(g: Graph, steps: seq<Step>, s: State, a: nat)
    requires g.Valid() && Runs(g, Init(g), steps, s) && Terminal(g, s) && g.Node(a)
    ensures Records(g, s.store, a) == AncestorRecords(g, a)
  {
    InitInv(g);
    RunInv(g, Init(g), steps, s);
    forall b | b in Ancestors(g, a)
      ensures b in s.store <==> Meaning(g, b).record.Some?
      ensures b in s.store ==> Meaning(g, b).record == Some(s.store[b])
    {
      TerminalSettles(g, s, b);
    }
  }

  /**
   In every maximal run an activity is invoked iff every transitive ancestor, on the records of its
   own ancestors, succeeds without cancel_if answering true, or fails while optional.
   */
  lemma {:induction false} InvokedOnOutcomes(g: Graph, steps: seq<Step>, s: State, n: nat)
    requires g.Valid() && Runs(g, Init(g), steps, s) && Terminal(g, s) && g.Node(n) && n !in g.joins
    ensures s.tasks[n].invoked == 1 <==>
            forall a | a in Ancestors(g, n) :: Proceeds(g.acts[a], g.acts[a].run(Records(g, s.store, a)))
  {
    InitInv(g);
    RunInv(g, Init(g), steps, s);
    TerminalSettles(g, s, n);
    InvokedByOutcomes(g, n);
    hide Meaning, AncestorRecords, Proceeds, Records;
    forall a | a in Ancestors(g, n) ensures Records(g, s.store, a) == AncestorRecords(g, a) {
      FinalRecords(g, steps, s, a);
    }
  }

  /* ---- ancestors ---- */

  /** `n` depends on `a` through `k` activities in between. */
  ghost predicate DependsOn(g: Graph, n: nat, a: nat, k: nat)
    requires g.Valid() && g.Node(n)
    decreases k
  {
    if k == 0 then a in g.deps[n] else exists d | d in g.deps[n] :: DependsOn(g, d, a, k - 1)
  }

  /** An indirect ancestor is an ancestor of a dependency. */
  lemma {:induction false} AncestorThrough(g: Graph, n: nat, a: nat) returns (d: nat)
    requires g.Valid() && g.Node(n) && a in Ancestors(g, n) && a !in g.deps[n]
    ensures d in g.deps[n] && a in Ancestors(g, d)
  {
    d :| d in g.deps[n] && a in Ancestors(g, d);
  }

  lemma {:induction false} AncestorOfDependency(g: Graph, n: nat, d: nat, a: nat)
    requires g.Valid() && g.Node(n) && d in g.deps[n] && a in Ancestors(g, d)
    ensures a in Ancestors(g, n)
  {
  }

  lemma {:induction false} DirectAncestor(g: Graph, n: nat, d: nat)
    requires g.Valid() && g.Node(n) && d in g.deps[n]
    ensures d in Ancestors(g, n)
  {
  }

  lemma {:induction false} DependsThrough(g: Graph, n: nat, d: nat, a: nat, k: nat)
    requires g.Valid() && g.Node(n) && d in g.deps[n] && DependsOn(g, d, a, k)
    ensures DependsOn(g, n, a, k + 1)
  {
    hide Ancestors;
  }

  lemma {:induction false} DependencyOf(g: Graph, n: nat, a: nat) returns (k: nat)
    requires g.Valid() && g.Node(n) && a in Ancestors(g, n)
    ensures DependsOn(g, n, a, k)
    decreases g.rank[n]
  {
    hide Ancestors;
    if a in g.deps[n] {
      k := 0;
    } else {
      hide DependsOn;
      var d := AncestorThrough(g, n, a);
      k := DependencyOf(g, d, a);
      DependsThrough(g, n, d, a, k);
      k := k + 1;
    }
  }

  lemma {:induction false} DependencyInside(g: Graph, n: nat, a: nat, k: nat)
    requires g.Valid() && g.Node(n) && DependsOn(g, n, a, k)
    ensures a in Ancestors(g, n)
    decreases k
  {
    hide Ancestors;
    if k == 0 {
      DirectAncestor(g, n, a);
    } else {
      var d :| d in g.deps[n] && DependsOn(g, d, a, k - 1);
      DependencyInside(g, d, a, k - 1);
      AncestorOfDependency(g, n, d, a);
    }
  }

  /** The ancestors of an activity are exactly those it depends on, directly or through others. */
  lemma {:induction false} AncestorsAreDependencies(g: Graph, n: nat, a: nat)
    requires g.Valid() && g.Node(n)
    ensures a in Ancestors(g, n) <==> exists k: nat :: DependsOn(g, n, a, k)
  {
    hide Ancestors, DependsOn;
    if a in Ancestors(g, n) {
      var k := DependencyOf(g, n, a);
    }
    if k: nat :| DependsOn(g, n, a, k) {
      DependencyInside(g, n, a, k);
    }
  }
}
