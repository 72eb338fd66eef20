/**
 One combinator under arrivals from several threads, with `propagate` taken apart: the
 write of the cancel flag, the decrement of the counter, the second read of the counter
 and the body under the mutex are separate steps that may interleave.
 */
module CombinatorRace {
  import A = Activities
  import Sets
  import opened Numerals

  /** Where one arrival stands; `saw` is the cancel flag read under the mutex. */
  datatype Phase = Idle | Flagged | Counted | Entering | Fired(saw: bool) | Left {
    predicate Arrived() { Counted? || Entering? || Fired? || Left? }
    predicate Over() { Fired? || Left? }
  }

  /** `cancels[i]` tells whether arrival `i` is a cancellation. */
  datatype Race = Race(cancels: seq<bool>, phases: seq<Phase>, counter: nat, canceled: bool)

  function Begin(cancels: seq<bool>): Race {
    Race(cancels, seq(|cancels|, i => Idle), |cancels|, false)
  }

  predicate Enabled(r: Race, i: nat) {
    i < |r.phases| == |r.cancels| && !r.phases[i].Over()
  }

  function Step(r: Race, i: nat): Race
    requires Enabled(r, i)
  {
    match r.phases[i]
    case Idle => r.(phases := r.phases[i := Flagged], canceled := r.canceled || r.cancels[i])
    case Flagged =>
      r.(phases := r.phases[i := Counted], counter := if r.counter == 0 then SIZE_MAX else r.counter - 1)
    case Counted => r.(phases := r.phases[i := if r.counter == 0 then Entering else Left])
    case Entering => r.(phases := r.phases[i := Fired(r.canceled)])
  }

  ghost predicate Runs(r: Race, schedule: seq<nat>, t: Race)
    decreases |schedule|
  {
    if schedule == [] then r == t
    else Enabled(r, schedule[0]) && Runs(Step(r, schedule[0]), schedule[1..], t)
  }

  ghost predicate Terminal(r: Race) {
    forall i: nat :: !Enabled(r, i)
  }

  ghost function ArrivedAt(r: Race): set<nat> { set i: nat | i < |r.phases| && r.phases[i].Arrived() }
  ghost function FiredAt(r: Race): set<nat> { set i: nat | i < |r.phases| && r.phases[i].Fired? }
  /** Arrivals that have decremented but not yet read the counter again. */
  ghost function PendingAt(r: Race): set<nat> { set i: nat | i < |r.phases| && r.phases[i].Counted? }
  ghost function InsideAt(r: Race): set<nat> {
    set i: nat | i < |r.phases| && (r.phases[i].Counted? || r.phases[i].Entering? || r.phases[i].Fired?)
  }

  ghost predicate SomeCancels(r: Race) { exists i: nat :: i < |r.cancels| && r.cancels[i] }

  ghost predicate FlagInv(r: Race)
    requires |r.phases| == |r.cancels|
  {
    r.canceled <==> exists i: nat :: i < |r.cancels| && r.cancels[i] && !r.phases[i].Idle?
  }

  ghost predicate CountInv(r: Race) {
    && r.counter + |ArrivedAt(r)| == |r.phases|
    && (r.counter == 0 ==> forall i: nat :: i < |r.phases| ==> r.phases[i].Arrived())
    && (r.counter == 0 && r.phases != [] ==> InsideAt(r) != {})
  }

  ghost predicate FireInv(r: Race) {
    forall i: nat :: i < |r.phases| ==>
      && (r.phases[i].Entering? || r.phases[i].Fired? ==> r.counter == 0)
      && (r.phases[i].Fired? ==> (r.phases[i].saw <==> SomeCancels(r)))
  }

  ghost predicate Inv(r: Race) {
    |r.phases| == |r.cancels| && FlagInv(r) && CountInv(r) && FireInv(r)
  }

  /** The counter is zero exactly when everybody has arrived. */
  lemma AllArrived(r: Race)
    requires |ArrivedAt(r)| + r.counter == |r.phases|
    ensures r.counter == 0 <==> forall i: nat | i < |r.phases| :: r.phases[i].Arrived()
  {
    Sets.SubsetSize(ArrivedAt(r), Sets.Upto(|r.phases|));
    forall i: nat | i < |r.phases| ensures r.phases[i].Arrived() <==> i in ArrivedAt(r) {}
    forall i: nat ensures i in Sets.Upto(|r.phases|) <==> i < |r.phases| {}
    if r.counter != 0 {
      var i :| i in Sets.Upto(|r.phases|) && i !in ArrivedAt(r);
    }
  }

  lemma BeginInv(cancels: seq<bool>)
    ensures Inv(Begin(cancels))
  {
    assert ArrivedAt(Begin(cancels)) == {};
  }

  lemma StepFlag(r: Race, i: nat)
    requires Inv(r) && Enabled(r, i)
    ensures FlagInv(Step(r, i))
  {
    var r' := Step(r, i);
    assert r.canceled ==> r'.canceled;
    if r'.canceled && !r.canceled {
      assert r'.cancels[i] && !r'.phases[i].Idle?;
    } else if r.canceled {
      var j: nat :| j < |r.cancels| && r.cancels[j] && !r.phases[j].Idle?;
      assert !r'.phases[j].Idle?;
    }
  }

  lemma StepCount(r: Race, i: nat)
    requires Inv(r) && Enabled(r, i)
    ensures CountInv(Step(r, i))
  {
    var r' := Step(r, i);
    AllArrived(r);
    if r.phases[i].Flagged? {
      assert ArrivedAt(r') == ArrivedAt(r) + {i};
      assert i !in ArrivedAt(r) && i in InsideAt(r');
      AllArrived(r');
    } else {
      assert ArrivedAt(r') == ArrivedAt(r);
      StepInside(r, i);
    }
  }

  lemma StepFire(r: Race, i: nat)
    requires Inv(r) && Enabled(r, i)
    ensures FireInv(Step(r, i))
  {
    if r.counter == 0 { assert r.phases[i].Arrived(); }
  }

  lemma StepInside(r: Race, i: nat)
    requires Inv(r) && Enabled(r, i) && (r.counter == 0 || !r.phases[i].Flagged?)
    ensures r.counter == 0 ==> InsideAt(Step(r, i)) == InsideAt(r)
  {
  }

  lemma StepInv(r: Race, i: nat)
    requires Inv(r) && Enabled(r, i)
    ensures Inv(Step(r, i))
  {
    StepFlag(r, i);
    StepCount(r, i);
    StepFire(r, i);
  }

  lemma {:induction false} RunInv(r: Race, schedule: seq<nat>, t: Race)
    requires Inv(r) && Runs(r, schedule, t)
    ensures Inv(t) && t.cancels == r.cancels
    decreases |schedule|
  {
    if schedule != [] {
      StepInv(r, schedule[0]);
      RunInv(Step(r, schedule[0]), schedule[1..], t);
    }
  }

  /** Whatever fires has waited for every arrival and sees every cancellation. */
  lemma CancelVisibility(cancels: seq<bool>, schedule: seq<nat>, t: Race, i: nat)
    requires Runs(Begin(cancels), schedule, t) && i in FiredAt(t)
    ensures forall j: nat | j < |cancels| :: j < |t.phases| && t.phases[j].Arrived()
    ensures t.phases[i].saw <==> true in cancels
  {
    BeginInv(cancels);
    RunInv(Begin(cancels), schedule, t);
  }

  /** With at least one dependency, at least one arrival fires. */
  lemma FiresAtLeastOnce(cancels: seq<bool>, schedule: seq<nat>, t: Race)
    requires cancels != [] && Runs(Begin(cancels), schedule, t) && Terminal(t)
    ensures FiredAt(t) != {}
  {
    BeginInv(cancels);
    RunInv(Begin(cancels), schedule, t);
    forall i: nat | i < |t.phases| ensures t.phases[i].Over() { assert !Enabled(t, i); }
    AllArrived(t);
    var k :| k in InsideAt(t);
    assert k in FiredAt(t);
  }

  /** Once the counter is zero, nobody else gets in and nobody gets away. */
  lemma {:induction false} InsideStays(r: Race, schedule: seq<nat>, t: Race)
    requires Inv(r) && r.counter == 0 && Runs(r, schedule, t)
    ensures Inv(t) && InsideAt(t) == InsideAt(r)
    decreases |schedule|
  {
    if schedule != [] {
      StepInv(r, schedule[0]);
      StepInside(r, schedule[0]);
      InsideStays(Step(r, schedule[0]), schedule[1..], t);
    }
  }

  /** A run that brings the counter to zero has a last decrement, after which it runs on to its end. */
  lemma {:induction false} LastDecrement(r: Race, schedule: seq<nat>, t: Race)
    returns (before: seq<nat>, mid: Race, k: nat, after: seq<nat>)
    requires Inv(r) && r.counter > 0 && Runs(r, schedule, t) && t.counter == 0
    ensures schedule == before + [k] + after && Runs(r, before, mid)
    ensures Enabled(mid, k) && mid.phases[k].Flagged? && mid.counter == 1 && Runs(Step(mid, k), after, t)
    decreases |schedule|
  {
    var i, rest := schedule[0], schedule[1..];
    var r' := Step(r, i);
    if r'.counter == 0 {
      before, mid, k, after := [], r, i, rest;
    } else {
      StepInv(r, i);
      var tail;
      tail, mid, k, after := LastDecrement(r', rest, t);
      before := [i] + tail;
      assert before[1..] == tail;
    }
  }

  /** In a maximal run the counter ends at zero. */
  lemma EndsAtZero(cancels: seq<bool>, schedule: seq<nat>, t: Race)
    requires Runs(Begin(cancels), schedule, t) && Terminal(t)
    ensures Inv(t) && t.counter == 0
  {
    BeginInv(cancels);
    RunInv(Begin(cancels), schedule, t);
    forall i: nat | i < |t.phases| ensures t.phases[i].Arrived() { assert !Enabled(t, i); }
    AllArrived(t);
  }

  lemma FiredAfter(r: Race, k: nat, after: seq<nat>, t: Race)
    requires Inv(r) && Enabled(r, k) && r.phases[k].Flagged? && r.counter == 1
    requires Runs(Step(r, k), after, t) && Terminal(t)
    ensures FiredAt(t) == PendingAt(r) + {k} && k !in PendingAt(r)
  {
    StepInv(r, k);
    var r' := Step(r, k);
    assert InsideAt(r') == PendingAt(r) + {k};
    InsideStays(r', after, t);
    forall i: nat | i < |t.phases| ensures t.phases[i].Over() { assert !Enabled(t, i); }
    assert FiredAt(t) == InsideAt(t);
  }

  /**
   Exactly who fires, in every maximal run with a dependency: arrival `k`, which makes the last
   decrement in state `r`, and those that are then between their decrement and their second read.
   So exactly one fires iff nobody is, and an interruption that is over by then does no harm.
   */
  lemma {:induction false} WhoFires(cancels: seq<bool>, schedule: seq<nat>, t: Race)
    returns (before: seq<nat>, r: Race, k: nat, after: seq<nat>)
    requires cancels != [] && Runs(Begin(cancels), schedule, t) && Terminal(t)
    ensures schedule == before + [k] + after && Runs(Begin(cancels), before, r)
    ensures Enabled(r, k) && r.phases[k].Flagged? && r.counter == 1 && Runs(Step(r, k), after, t)
    ensures FiredAt(t) == PendingAt(r) + {k}
    ensures |FiredAt(t)| == 1 <==> PendingAt(r) == {}
  {
    BeginInv(cancels);
    EndsAtZero(cancels, schedule, t);
    before, r, k, after := LastDecrement(Begin(cancels), schedule, t);
    RunInv(Begin(cancels), before, r);
    FiredAfter(r, k, after, t);
    assert |PendingAt(r) + {k}| == |PendingAt(r)| + 1;
  }

  /** Two dependencies, both decrement before either reads the counter again: the next activity runs twice. */
  lemma FiresTwice() returns (schedule: seq<nat>, t: Race)
    ensures Runs(Begin([false, false]), schedule, t) && Terminal(t)
    ensures FiredAt(t) == {0, 1}
  {
    schedule := [0, 1, 0, 1, 0, 1, 0, 1];
    var r0 := Begin([false, false]);
    var r1 := Step(r0, 0); var r2 := Step(r1, 1); var r3 := Step(r2, 0); var r4 := Step(r3, 1);
    var r5 := Step(r4, 0); var r6 := Step(r5, 1); var r7 := Step(r6, 0); t := Step(r7, 1);
    assert r4.phases == [Counted, Counted] && r4.counter == 0;
    assert t.phases == [Fired(false), Fired(false)];
    assert Runs(r4, [0, 1, 0, 1], t) by {
      assert Runs(r7, [1], t);
      assert Runs(r6, [0, 1], t) by { assert [0, 1][1..] == [1]; }
      assert Runs(r5, [1, 0, 1], t) by { assert [1, 0, 1][1..] == [0, 1]; }
      assert [0, 1, 0, 1][1..] == [1, 0, 1];
    }
    assert Runs(r2, [0, 1, 0, 1, 0, 1], t) by {
      assert Runs(r3, [1, 0, 1, 0, 1], t) by { assert [1, 0, 1, 0, 1][1..] == [0, 1, 0, 1]; }
      assert [0, 1, 0, 1, 0, 1][1..] == [1, 0, 1, 0, 1];
    }
    assert Runs(r1, [1, 0, 1, 0, 1, 0, 1], t) by {
      assert [1, 0, 1, 0, 1, 0, 1][1..] == [0, 1, 0, 1, 0, 1];
    }
    assert schedule[1..] == [1, 0, 1, 0, 1, 0, 1];
  }

  /** An arrival that is not interrupted does what the one-step combinator of Activities does. */
  lemma UninterruptedArrival(r: Race, i: nat)
    requires Enabled(r, i) && r.phases[i].Idle?
    ensures var (c, fire) := A.Arrive(A.Combinator(r.counter, r.canceled), r.cancels[i]);
            var mid := Step(Step(Step(r, i), i), i);
            && c == A.Combinator(mid.counter, mid.canceled)
            && (fire.Wait? <==> mid.phases[i].Left?)
            && (!fire.Wait? ==> Enabled(mid, i) && Step(mid, i).phases[i] == Fired(fire.Skip?))
  {
    var r1 := Step(r, i);
    var r2 := Step(r1, i);
    assert r2.phases[i].Counted?;
  }
}
