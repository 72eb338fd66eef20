/**
 Every run of a watcher on one io thread: submissions, clock ticks, elapsing and handled timer
 waits and notifications, in any order, with release callbacks that may submit and notify again
 before they return.
 */
module WatcherRuns {
  import opened Options
  import opened WatchQueue

  /** A member function that is running a callback and has work left when it returns. */
  datatype Frame = Finishing | Notifying(rest: seq<Watch>)

  /** One call of watch::release. */
  datatype Release = Release(watch: Watch, at: Time, byTimer: bool)

  /** The top frame is the last one. `accepted` and `released` record history. */
  datatype State = State(q: Queue, now: Time, frames: seq<Frame>, accepted: seq<Watch>, released: seq<Release>)

  datatype Step =
    | Tick(dt: nat) | Submit(c: Candidate) | Elapse(w: nat) | Handle(w: nat) | Notify(k: Key) | NotifyAll | Return

  function Init(now: Time): State {
    State(EMPTY, now, [], [], [])
  }

  ghost predicate Enabled(s: State, st: Step) {
    match st
    case Elapse(w) => w in s.q.timer.waits && s.q.timer.waits[w].Armed? && s.q.timer.waits[w].deadline <= s.now
    case Handle(w) => s.frames == [] && w in s.q.timer.waits && !s.q.timer.waits[w].Armed?
    case Return => s.frames != []
    case _ => true
  }

  function SetWait(q: Queue, waits: map<nat, Wait>): Queue {
    q.(timer := q.timer.(waits := waits))
  }

  /** The handler of a wait that was not aborted. */
  function Expired(s: State): State {
    var (q, turn) := ExpiredHead(s.q, s.now);
    match turn
    case Due(w) => s.(q := q, frames := s.frames + [Finishing], released := s.released + [Release(w, s.now, true)])
    case TooEarly => s.(q := q)
    case Nothing => s.(q := ExpiredTail(q))
  }

  function Returned(s: State): State
    requires s.frames != []
  {
    var below, top := s.frames[..|s.frames| - 1], s.frames[|s.frames| - 1];
    match top
    case Finishing => s.(q := ExpiredTail(s.q), frames := below)
    case Notifying(rest) =>
      if rest == [] then s.(frames := below)
      else s.(frames := below + [Notifying(rest[1..])], released := s.released + [Release(rest[0], s.now, false)])
  }

  function Submitted(s: State, c: Candidate, duration: nat): State {
    var (q, ok) := Insert(s.q, c, s.now, duration);
    s.(q := q, accepted := if ok then s.accepted + [Watch(s.q.made, c.key, s.now + duration)] else s.accepted)
  }

  function Apply(s: State, st: Step, duration: nat): State
    requires Enabled(s, st)
  {
    match st
    case Tick(dt) => s.(now := s.now + dt)
    case Submit(c) => Submitted(s, c, duration)
    case Elapse(w) => s.(q := SetWait(s.q, s.q.timer.waits[w := Queued]))
    case Handle(w) =>
      var s' := s.(q := SetWait(s.q, s.q.timer.waits - {w}));
      if s.q.timer.waits[w].Aborted? then s' else Expired(s')
    case Notify(k) =>
      var (q, taken) := TakeKey(s.q, k);
      s.(q := q, frames := s.frames + [Notifying(taken)])
    case NotifyAll =>
      var (q, taken) := TakeAll(s.q);
      s.(q := q, frames := s.frames + [Notifying(taken)])
    case Return => Returned(s)
  }

  ghost predicate Runs(s: State, steps: seq<Step>, t: State, duration: nat)
    decreases |steps|
  {
    if steps == [] then s == t
    else Enabled(s, steps[0]) && Runs(Apply(s, steps[0], duration), steps[1..], t, duration)
  }

  /* ---- the invariant ---- */

  function Watches(rs: seq<Release>): seq<Watch> {
    if rs == [] then [] else Watches(rs[..|rs| - 1]) + [rs[|rs| - 1].watch]
  }

  function Waiting(fs: seq<Frame>): seq<Watch> {
    if fs == [] then []
    else Waiting(fs[..|fs| - 1]) + match fs[|fs| - 1] case Finishing => [] case Notifying(rest) => rest
  }

  /** Accepted watches are in the queue, released, or taken by a notification and about to be released. */
  ghost predicate Conserved(s: State) {
    multiset(s.accepted) == multiset(s.q.watchers) + multiset(Watches(s.released)) + multiset(Waiting(s.frames))
  }

  ghost predicate Numbered(s: State, duration: nat) {
    && |s.accepted| == s.q.made
    && forall i | 0 <= i < |s.accepted| :: s.accepted[i].node == i && s.accepted[i].expiry <= s.now + duration
  }

  /** Releases by the timer are neither early nor out of order, and nobody still queued expires before them. */
  ghost predicate Timely(s: State) {
    && (forall r | r in s.released && r.byTimer :: r.watch.expiry <= r.at <= s.now)
    && (forall i, j | 0 <= i < j < |s.released| && s.released[i].byTimer && s.released[j].byTimer ::
          s.released[i].watch.expiry <= s.released[j].watch.expiry)
    && (forall r, w | r in s.released && r.byTimer && w in s.q.watchers :: r.watch.expiry <= w.expiry)
  }

  /** A wait that will run the handler no later than `expiry` asks. */
  predicate Useful(wait: Wait, expiry: Time) {
    wait.Queued? || (wait.Armed? && wait.deadline <= expiry)
  }

  ghost predicate Awaited(q: Queue) {
    q.watchers == [] || exists w :: w in q.timer.waits && Useful(q.timer.waits[w], q.watchers[0].expiry)
  }

  /** A queued watch has an un-aborted wait outstanding, unless expired is about to arm one. */
  ghost predicate Live(s: State) {
    Awaited(s.q) || (s.frames != [] && s.frames[0].Finishing?)
  }

  ghost predicate AtMostOneArmed(t: Timer) {
    forall v, w | v in t.waits && w in t.waits && t.waits[v].Armed? && t.waits[w].Armed? :: v == w
  }

  ghost predicate Inv(s: State, duration: nat) {
    && Coherent(s.q) && Numbered(s, duration) && Conserved(s) && Timely(s) && Live(s) && AtMostOneArmed(s.q.timer)
    && forall i | 0 < i < |s.frames| :: !s.frames[i].Finishing?
  }

  lemma InitInv(now: Time, duration: nat)
    ensures Inv(Init(now), duration)
  {
  }

  /* ---- every step keeps it ---- */

  lemma ArmUseful(q: Queue)
    requires q.watchers != []
    ensures var q' := q.(timer := Arm(q.timer, q.watchers[0].expiry)); Awaited(q') && AtMostOneArmed(q'.timer)
  {
    var t := Arm(q.timer, q.watchers[0].expiry);
    assert q.timer.next in t.waits && Useful(t.waits[q.timer.next], q.watchers[0].expiry);
  }

  lemma QueuedAccepted(s: State, duration: nat, w: Watch)
    requires Numbered(s, duration) && Conserved(s) && w in s.q.watchers
    ensures w in s.accepted && w.expiry <= s.now + duration
  {
    assert w in multiset(s.q.watchers);
    assert w in multiset(s.accepted);
  }

  predicate Accepts(c: Candidate) { !c.released && c.expiry.None? }

  lemma SubmitLive(s: State, c: Candidate, duration: nat)
    requires Live(s) && AtMostOneArmed(s.q.timer) && Accepts(c)
    ensures Live(Submitted(s, c, duration)) && AtMostOneArmed(Submitted(s, c, duration).q.timer)
  {
    var s' := Submitted(s, c, duration);
    if s.q.watchers == [] {
      ArmUseful(s.q.(watchers := s'.q.watchers));
      assert Awaited(s'.q);
    } else if Awaited(s.q) {
      assert s'.q.watchers[0] == s.q.watchers[0];
      var w :| w in s.q.timer.waits && Useful(s.q.timer.waits[w], s.q.watchers[0].expiry);
      assert w in s'.q.timer.waits && Useful(s'.q.timer.waits[w], s'.q.watchers[0].expiry);
    }
  }

  lemma SubmitConserved(s: State, c: Candidate, duration: nat)
    requires Numbered(s, duration) && Conserved(s) && Accepts(c)
    ensures var s' := Submitted(s, c, duration); Numbered(s', duration) && Conserved(s')
  {
    hide Waiting, Watches, Arm;
    var s', w := Submitted(s, c, duration), Watch(s.q.made, c.key, s.now + duration);
    assert multiset(s'.accepted) == multiset(s.accepted) + multiset{w};
    assert multiset(s'.q.watchers) == multiset(s.q.watchers) + multiset{w};
  }

  lemma SubmitTimely(s: State, c: Candidate, duration: nat)
    requires Timely(s)
    ensures Timely(Submitted(s, c, duration))
  {
    var s' := Submitted(s, c, duration);
    assert s'.released == s.released && s'.now == s.now;
    forall r, w | r in s.released && r.byTimer && w in s'.q.watchers ensures r.watch.expiry <= w.expiry {
      if w !in s.q.watchers { assert w.expiry == s.now + duration; }
    }
  }

  lemma SubmitInv(s: State, c: Candidate, duration: nat)
    requires Inv(s, duration)
    ensures Inv(Submitted(s, c, duration), duration)
  {
    if Accepts(c) {
      forall w | w in s.q.watchers ensures w.expiry <= s.now + duration { QueuedAccepted(s, duration, w); }
      InsertCoherent(s.q, c, s.now, duration);
      SubmitLive(s, c, duration);
      SubmitConserved(s, c, duration);
      SubmitTimely(s, c, duration);
    }
  }

  lemma ElapseInv(s: State, w: nat, duration: nat)
    requires Inv(s, duration) && Enabled(s, Elapse(w))
    ensures Inv(Apply(s, Elapse(w), duration), duration)
  {
    var s' := Apply(s, Elapse(w), duration);
    if s.q.watchers != [] && Awaited(s.q) {
      var v :| v in s.q.timer.waits && Useful(s.q.timer.waits[v], s.q.watchers[0].expiry);
      assert v in s'.q.timer.waits && Useful(s'.q.timer.waits[v], s'.q.watchers[0].expiry);
    }
  }

  lemma HandleAbortedInv(s: State, w: nat, duration: nat)
    requires Inv(s, duration) && Enabled(s, Handle(w)) && s.q.timer.waits[w].Aborted?
    ensures Inv(Apply(s, Handle(w), duration), duration)
  {
    var s' := Apply(s, Handle(w), duration);
    if s.q.watchers != [] {
      var v :| v in s.q.timer.waits && Useful(s.q.timer.waits[v], s.q.watchers[0].expiry);
      assert v in s'.q.timer.waits && Useful(s'.q.timer.waits[v], s'.q.watchers[0].expiry);
    }
  }

  lemma OrderedTail(ws: seq<Watch>)
    requires Ordered(ws) && ws != []
    ensures Ordered(ws[1..]) && (forall w | w in ws :: ws[0].expiry <= w.expiry) && Erase(ws, ws[0].node) == ws[1..]
  {
    EraseFront(ws);
  }

  /** Everything but Live, which the handler's own wait need not support while it runs. */
  ghost predicate Settled(s: State, duration: nat) {
    && Coherent(s.q) && Numbered(s, duration) && Conserved(s) && Timely(s) && AtMostOneArmed(s.q.timer)
    && s.frames == []
  }

  lemma ExpiredInv(s: State, duration: nat)
    requires Settled(s, duration)
    ensures Inv(Expired(s), duration)
  {
    var s' := Expired(s);
    if s.q.watchers != [] {
      if s.q.watchers[0].expiry > s.now {
        ArmUseful(s.q);
      } else {
        DueInv(s, duration);
      }
    }
  }

  /** One more release. */
  lemma WatchesMore(rs: seq<Release>, r: Release)
    ensures Watches(rs + [r]) == Watches(rs) + [r.watch]
  {
    assert (rs + [r])[..|rs + [r]| - 1] == rs;
  }

  lemma WaitingMore(fs: seq<Frame>, f: Frame)
    ensures Waiting(fs + [f]) == Waiting(fs) + match f case Finishing => [] case Notifying(rest) => rest
  {
    assert (fs + [f])[..|fs + [f]| - 1] == fs;
  }

  lemma DueTimely(s: State, duration: nat)
    requires Coherent(s.q) && Timely(s) && s.q.watchers != [] && s.q.watchers[0].expiry <= s.now
    ensures Timely(Expired(s))
  {
    var s', w := Expired(s), s.q.watchers[0];
    OrderedTail(s.q.watchers);
    forall r | r in s'.released && r.byTimer
      ensures r.watch.expiry <= w.expiry && r.watch.expiry <= r.at <= s'.now
    {
      if r !in s.released { assert r == Release(w, s.now, true); }
    }
  }

  lemma DueInv(s: State, duration: nat)
    requires Settled(s, duration) && s.q.watchers != [] && s.q.watchers[0].expiry <= s.now
    ensures Inv(Expired(s), duration)
  {
    var s', w := Expired(s), s.q.watchers[0];
    DueTimely(s, duration);
    DropCoherent(s.q, w.node);
    OrderedTail(s.q.watchers);
    assert s.q.watchers == [w] + s'.q.watchers;
    WatchesMore(s.released, Release(w, s.now, true));
    WaitingMore([], Finishing);
    assert [] + [Finishing] == s'.frames;
  }

  lemma HandleInv(s: State, w: nat, duration: nat)
    requires Inv(s, duration) && Enabled(s, Handle(w))
    ensures Inv(Apply(s, Handle(w), duration), duration)
  {
    if s.q.timer.waits[w].Aborted? {
      HandleAbortedInv(s, w, duration);
    } else {
      ExpiredInv(s.(q := SetWait(s.q, s.q.timer.waits - {w})), duration);
    }
  }

  /** Taking watches out of the list leaves a front that expires no earlier. */
  lemma TakenInv(s: State, q: Queue, taken: seq<Watch>, duration: nat)
    requires Inv(s, duration) && Coherent(q) && q.timer == s.q.timer && q.made == s.q.made
    requires multiset(s.q.watchers) == multiset(taken) + multiset(q.watchers)
    ensures Inv(s.(q := q, frames := s.frames + [Notifying(taken)]), duration)
  {
    hide Waiting, Watches;
    forall w | w in q.watchers ensures w in s.q.watchers {
      assert w in multiset(q.watchers);
      assert w in multiset(s.q.watchers);
    }
    TakenLive(s, q, taken);
    WaitingMore(s.frames, Notifying(taken));
  }

  lemma TakenLive(s: State, q: Queue, taken: seq<Watch>)
    requires Coherent(s.q) && Live(s) && q.timer == s.q.timer && forall w | w in q.watchers :: w in s.q.watchers
    ensures Live(s.(q := q, frames := s.frames + [Notifying(taken)]))
  {
    if q.watchers != [] && Awaited(s.q) {
      assert q.watchers[0] in s.q.watchers;
      OrderedTail(s.q.watchers);
      var v :| v in s.q.timer.waits && Useful(s.q.timer.waits[v], s.q.watchers[0].expiry);
      assert v in q.timer.waits && Useful(q.timer.waits[v], q.watchers[0].expiry);
    }
  }

  lemma ReturnFinishing(s: State, duration: nat)
    requires Inv(s, duration) && s.frames != [] && s.frames[|s.frames| - 1].Finishing?
    ensures Inv(Returned(s), duration)
  {
    assert |s.frames| == 1 && s.frames == [] + [Finishing];
    WaitingMore([], Finishing);
    if s.q.watchers != [] { ArmUseful(s.q); }
  }

  lemma ReturnNotifying(s: State, duration: nat)
    requires Inv(s, duration) && s.frames != [] && s.frames[|s.frames| - 1].Notifying?
    ensures Inv(Returned(s), duration)
  {
    hide Waiting, Watches, Ordered;
    var s', n := Returned(s), |s.frames|;
    var below, rest := s.frames[..n - 1], s.frames[n - 1].rest;
    assert s.frames == below + [Notifying(rest)];
    assert below != [] ==> below[0] == s.frames[0] == s'.frames[0];
    if rest == [] {
      WaitingMore(below, Notifying(rest));
    } else {
      NotifyingConserved(s, below, rest);
      ReleaseTimely(s, rest[0]);
    }
  }

  lemma NotifyingConserved(s: State, below: seq<Frame>, rest: seq<Watch>)
    requires Conserved(s) && s.frames == below + [Notifying(rest)] && rest != []
    ensures Conserved(s.(frames := below + [Notifying(rest[1..])],
                         released := s.released + [Release(rest[0], s.now, false)]))
  {
    WaitingMore(below, Notifying(rest));
    WaitingMore(below, Notifying(rest[1..]));
    WatchesMore(s.released, Release(rest[0], s.now, false));
    assert rest == [rest[0]] + rest[1..];
  }

  lemma ReleaseTimely(s: State, w: Watch)
    requires Timely(s)
    ensures Timely(s.(released := s.released + [Release(w, s.now, false)]))
  {
  }

  lemma ReturnInv(s: State, duration: nat)
    requires Inv(s, duration) && s.frames != []
    ensures Inv(Returned(s), duration)
  {
    if s.frames[|s.frames| - 1].Finishing? { ReturnFinishing(s, duration); } else { ReturnNotifying(s, duration); }
  }

  lemma StepInv(s: State, st: Step, duration: nat)
    requires Inv(s, duration) && Enabled(s, st)
    ensures Inv(Apply(s, st, duration), duration)
  {
    match st
    case Tick(dt) =>
    case Submit(c) => SubmitInv(s, c, duration);
    case Elapse(w) => ElapseInv(s, w, duration);
    case Handle(w) => HandleInv(s, w, duration);
    case Notify(k) =>
      TakeKeyCoherent(s.q, k);
      OfKeyMembers(s.q.watchers, k);
      TakenInv(s, TakeKey(s.q, k).0, TakeKey(s.q, k).1, duration);
    case NotifyAll =>
      EmptyCoherent(s.q);
      TakeAllTakes(s.q);
      TakenInv(s, TakeAll(s.q).0, TakeAll(s.q).1, duration);
    case Return => ReturnInv(s, duration);
  }

  lemma {:induction false} RunInv(s: State, steps: seq<Step>, t: State, duration: nat)
    requires Inv(s, duration) && Runs(s, steps, t, duration)
    ensures Inv(t, duration)
    decreases |steps|
  {
    if steps != [] {
      StepInv(s, steps[0], duration);
      RunInv(Apply(s, steps[0], duration), steps[1..], t, duration);
    }
  }

  /* ---- what it says of every run ---- */

  /**
   In every reachable state a non-empty queue has an un-aborted wait that comes due with its front
   watch, unless the callback of `expired` is running, which arms one when it has returned.
   */
  lemma QueueIsAwaited(now: Time, steps: seq<Step>, s: State, duration: nat)
    requires Runs(Init(now), steps, s, duration)
    ensures Awaited(s.q) || (s.frames != [] && s.frames[0].Finishing?)
  {
    InitInv(now, duration);
    RunInv(Init(now), steps, s, duration);
  }

  /** The exception is real: inside the callback of `expired` a queued watch may have no wait. */
  lemma {:induction false} UnawaitedInCallback(k: Key) returns (steps: seq<Step>, s: State)
    ensures Runs(Init(0), steps, s, 1) && s.frames == [Finishing] && !Awaited(s.q)
  {
    var c := Candidate(k, None, false);
    var s1 := Apply(Init(0), Submit(c), 1);
    var s2 := Apply(s1, Submit(c), 1);
    var s3 := Apply(s2, Tick(1), 1);
    var s4 := Apply(s3, Elapse(0), 1);
    s := Apply(s4, Handle(0), 1);
    assert s3.q.timer.waits == map[0 := Armed(1)] && s3.q.watchers == [Watch(0, k, 1), Watch(1, k, 1)];
    assert s3.q.watchers[1..] == [Watch(1, k, 1)] && Erase([Watch(1, k, 1)], 0) == [Watch(1, k, 1)] + Erase([], 0);
    assert s4.q.timer.waits == map[0 := Queued];
    assert (s4.q.timer.waits - {0}).Keys == {};
    assert s.q.timer.waits == map[] && s.frames == [] + [Finishing] && s.q.watchers != [];
    assert Enabled(s3, Elapse(0)) && Enabled(s4, Handle(0)) && !Awaited(s.q);
    hide Apply, Awaited;
    steps := [Submit(c), Submit(c), Tick(1), Elapse(0), Handle(0)];
    assert Runs(s4, [Handle(0)], s, 1);
    RunsCons(s3, Elapse(0), [Handle(0)], s, 1);
    RunsCons(s2, Tick(1), [Elapse(0), Handle(0)], s, 1);
    RunsCons(s1, Submit(c), [Tick(1), Elapse(0), Handle(0)], s, 1);
    RunsCons(Init(0), Submit(c), [Submit(c), Tick(1), Elapse(0), Handle(0)], s, 1);
  }

  lemma RunsCons(s: State, st: Step, rest: seq<Step>, t: State, duration: nat)
    requires Enabled(s, st) && Runs(Apply(s, st, duration), rest, t, duration)
    ensures Runs(s, [st] + rest, t, duration)
  {
    assert ([st] + rest)[1..] == rest;
  }

  /** In every state the index and the list are in bijection, with equal keys. */
  lemma IndexIsList(now: Time, steps: seq<Step>, s: State, duration: nat, k: Key, n: nat)
    requires Runs(Init(now), steps, s, duration)
    ensures Entry(k, n) in s.q.index <==> exists w | w in s.q.watchers :: w.node == n && w.key == k
    ensures forall i, j | 0 <= i < j < |s.q.watchers| :: s.q.watchers[i].expiry <= s.q.watchers[j].expiry
  {
    InitInv(now, duration);
    RunInv(Init(now), steps, s, duration);
    Bijection(s.q, k, n);
    forall i, j | 0 <= i < j < |s.q.watchers| ensures s.q.watchers[i].expiry <= s.q.watchers[j].expiry {
      OrderedNodes(s.q.watchers, i, j);
    }
  }

  lemma {:induction false} AtMostOnce(ws: seq<Watch>, w: Watch)
    requires forall i, j | 0 <= i < j < |ws| :: ws[i].node != ws[j].node
    ensures multiset(ws)[w] <= 1
  {
    if ws != [] {
      var n := |ws|;
      assert ws == ws[..n - 1] + [ws[n - 1]];
      AtMostOnce(ws[..n - 1], w);
      if ws[n - 1] == w { assert w !in ws[..n - 1]; }
    }
  }

  /**
   Conservation over every run: each watch is released at most once and never while queued;
   between handlers the accepted watches are exactly the queued and the released ones.
   */
  lemma ReleasesConserve(now: Time, steps: seq<Step>, s: State, duration: nat, w: Watch)
    requires Runs(Init(now), steps, s, duration)
    ensures multiset(Watches(s.released))[w] + multiset(s.q.watchers)[w] <= 1
    ensures s.frames == [] ==> multiset(s.accepted) == multiset(s.q.watchers) + multiset(Watches(s.released))
  {
    InitInv(now, duration);
    RunInv(Init(now), steps, s, duration);
    AtMostOnce(s.accepted, w);
    assert multiset(s.accepted)[w]
        == multiset(s.q.watchers)[w] + multiset(Watches(s.released))[w] + multiset(Waiting(s.frames))[w];
  }

  /** Releases by the timer happen at or after expiry and in the order of expiry. */
  lemma TimerReleasesInOrder(now: Time, steps: seq<Step>, s: State, duration: nat)
    requires Runs(Init(now), steps, s, duration)
    ensures forall r | r in s.released && r.byTimer :: r.watch.expiry <= r.at
    ensures forall i, j | 0 <= i < j < |s.released| && s.released[i].byTimer && s.released[j].byTimer ::
              s.released[i].watch.expiry <= s.released[j].watch.expiry
  {
    InitInv(now, duration);
    RunInv(Init(now), steps, s, duration);
  }

  /** No watch is ever stranded: between handlers, if no timer event is due, every queued watch still has time. */
  lemma NothingStranded(now: Time, steps: seq<Step>, s: State, duration: nat)
    requires Runs(Init(now), steps, s, duration) && s.frames == []
    requires forall w: nat :: !Enabled(s, Elapse(w)) && !Enabled(s, Handle(w))
    ensures forall w | w in s.q.watchers :: w.expiry > s.now
  {
    QueueIsAwaited(now, steps, s, duration);
    if s.q.watchers != [] {
      var w :| w in s.q.timer.waits && Useful(s.q.timer.waits[w], s.q.watchers[0].expiry);
      assert !Enabled(s, Elapse(w)) && !Enabled(s, Handle(w));
      InitInv(now, duration);
      RunInv(Init(now), steps, s, duration);
      OrderedTail(s.q.watchers);
    }
  }

  /** The front watch, once it is due, can be released by the timer within two steps. */
  lemma DueIsReleased(now: Time, steps: seq<Step>, s: State, duration: nat) returns (more: seq<Step>, t: State)
    requires Runs(Init(now), steps, s, duration) && s.frames == []
    requires s.q.watchers != [] && s.q.watchers[0].expiry <= s.now
    ensures |more| <= 2 && Runs(s, more, t, duration)
    ensures t.released == s.released + [Release(s.q.watchers[0], s.now, true)]
  {
    QueueIsAwaited(now, steps, s, duration);
    var w :| w in s.q.timer.waits && Useful(s.q.timer.waits[w], s.q.watchers[0].expiry);
    if s.q.timer.waits[w].Queued? {
      more, t := [Handle(w)], Apply(s, Handle(w), duration);
      assert more[1..] == [];
    } else {
      var s1 := Apply(s, Elapse(w), duration);
      t := Apply(s1, Handle(w), duration);
      more := [Elapse(w), Handle(w)];
      assert more[1..] == [Handle(w)] && more[1..][1..] == [];
      assert Runs(s1, more[1..], t, duration);
    }
  }

  /** A notification takes exactly the key's watches, in the order they were inserted. */
  lemma NotifyTakesKey(now: Time, steps: seq<Step>, s: State, duration: nat, k: Key)
    requires Runs(Init(now), steps, s, duration)
    ensures var (q, taken) := TakeKey(s.q, k);
            && (forall w :: w in taken <==> w in s.q.watchers && w.key == k)
            && (forall w :: w in q.watchers <==> w in s.q.watchers && w.key != k)
            && (forall i, j | 0 <= i < j < |taken| :: taken[i].node < taken[j].node)
  {
    InitInv(now, duration);
    RunInv(Init(now), steps, s, duration);
    OfKeyMembers(s.q.watchers, k);
    OfKeyOrdered(s.q.watchers, k);
    var taken := OfKey(s.q.watchers, k);
    forall i, j | 0 <= i < j < |taken| ensures taken[i].node < taken[j].node { OrderedNodes(taken, i, j); }
  }

  lemma {:induction false} IndexErased(ix: seq<Entry>, n: nat)
    ensures forall e :: e in IndexErase(ix, n) <==> e in ix && e.node != n
  {
    if ix != [] { IndexErased(ix[1..], n); }
  }

  /**
   What the handler of a wait does in every reachable state: nothing if the wait was aborted or no
   watch is queued, one new wait if the front watch is not due, and otherwise its release.
   */
  lemma HandleStep(now: Time, steps: seq<Step>, s: State, duration: nat, w: nat)
    requires Runs(Init(now), steps, s, duration) && Enabled(s, Handle(w))
    ensures var t, ws, rest := Apply(s, Handle(w), duration), s.q.watchers, s.q.timer.waits - {w};
            && t.accepted == s.accepted && t.now == s.now
            && if s.q.timer.waits[w].Aborted? || ws == [] then
                 t.q == s.q.(timer := s.q.timer.(waits := rest)) && t.released == s.released && t.frames == []
               else if ws[0].expiry > s.now then
                 && t.q.watchers == ws && t.q.index == s.q.index && OnlyWait(t.q.timer, ws[0].expiry)
                 && t.released == s.released && t.frames == []
               else
                 && t.q.watchers == ws[1..] && t.q.timer.waits == rest && t.frames == [Finishing]
                 && (forall e :: e in t.q.index <==> e in s.q.index && e.node != ws[0].node)
                 && t.released == s.released + [Release(ws[0], s.now, true)]
  {
    InitInv(now, duration);
    RunInv(Init(now), steps, s, duration);
    var ws, rest := s.q.watchers, s.q.timer.(waits := s.q.timer.waits - {w});
    if !s.q.timer.waits[w].Aborted? && ws != [] {
      if ws[0].expiry > s.now {
        ArmOnly(rest, ws[0].expiry);
      } else {
        IndexErased(s.q.index, ws[0].node);
        EraseFront(ws);
      }
    }
  }

  /** When the release callback of the timer returns, one wait is armed for the watch now in front, if any. */
  lemma FinishStep(s: State, below: seq<Frame>, duration: nat)
    requires s.frames == below + [Finishing]
    ensures var t := Apply(s, Return, duration);
            && t == s.(frames := below, q := s.q.(timer := t.q.timer))
            && if s.q.watchers == [] then t.q == s.q else OnlyWait(t.q.timer, s.q.watchers[0].expiry)
  {
    assert s.frames[..|s.frames| - 1] == below;
    if s.q.watchers != [] { ArmOnly(s.q.timer, s.q.watchers[0].expiry); }
  }

  /**
   In every reachable state a candidate is accepted iff it was neither released nor given an expiry.
   Then one watch with its key, due one duration from now, is appended to queue and history, indexed
   under the key, and awaited if it is the first; otherwise nothing changes at all.
   */
  lemma {:induction false} SubmitStep(now: Time, steps: seq<Step>, s: State, duration: nat, c: Candidate)
    requires Runs(Init(now), steps, s, duration)
    ensures var s' := Apply(s, Submit(c), duration);
            if c.released || c.expiry.Some? then s' == s
            else
              var w := Watch(|s.accepted|, c.key, s.now + duration);
              && s'.q.watchers == s.q.watchers + [w] && s'.accepted == s.accepted + [w]
              && (forall v | v in s.accepted :: v.node != w.node)
              && (forall e :: e in s'.q.index <==> e in s.q.index || e == Entry(c.key, w.node))
              && s'.now == s.now && s'.frames == s.frames && s'.released == s.released
    ensures var s' := Apply(s, Submit(c), duration);
            c.released || c.expiry.Some? || s.q.watchers != [] ==> s'.q.timer == s.q.timer
    ensures var s' := Apply(s, Submit(c), duration);
            !c.released && c.expiry.None? && s.q.watchers == [] ==> OnlyWait(s'.q.timer, s.now + duration)
  {
    InitInv(now, duration);
    RunInv(Init(now), steps, s, duration);
    InsertedMembers(s.q.index, Entry(c.key, s.q.made));
    if s.q.watchers == [] { ArmOnly(s.q.timer, s.now + duration); }
  }

  /** One wait is armed, for that deadline. */
  ghost predicate OnlyWait(t: Timer, deadline: Time) {
    && (exists w :: w in t.waits && t.waits[w] == Armed(deadline))
    && (forall w | w in t.waits && t.waits[w].Armed? :: t.waits[w] == Armed(deadline))
  }

  lemma ArmOnly(t: Timer, deadline: Time)
    ensures OnlyWait(Arm(t, deadline), deadline)
  {
    assert t.next in Arm(t, deadline).waits;
  }

  lemma {:induction false} InsertedMembers(ix: seq<Entry>, e: Entry)
    ensures forall x :: x in IndexInsert(ix, e) <==> x in ix || x == e
  {
    if ix != [] { InsertedMembers(ix[1..], e); }
  }

  /** The callbacks of a notification run one by one in the order in which the watches were taken. */
  lemma {:induction false} ReleasesInTurn(s: State, below: seq<Frame>, rest: seq<Watch>, duration: nat)
    returns (steps: seq<Step>, t: State)
    requires s.frames == below + [Notifying(rest)]
    ensures |steps| == |rest| + 1 && (forall i | 0 <= i < |steps| :: steps[i].Return?) && Runs(s, steps, t, duration)
    ensures t.frames == below && t.q == s.q && t.accepted == s.accepted && t.now == s.now
    ensures |t.released| == |s.released| + |rest| && t.released[..|s.released|] == s.released
    ensures forall i | 0 <= i < |rest| :: t.released[|s.released| + i] == Release(rest[i], s.now, false)
    decreases |rest|
  {
    var s1 := Apply(s, Return, duration);
    assert s.frames[..|s.frames| - 1] == below && s.frames[|s.frames| - 1] == Notifying(rest);
    if rest == [] {
      steps, t := [Return], s1;
      assert steps[1..] == [];
      assert Runs(s1, [], t, duration);
    } else {
      var more;
      more, t := ReleasesInTurn(s1, below, rest[1..], duration);
      steps := [Return] + more;
      RunsCons(s, Return, more, t, duration);
      forall i | 0 <= i < |rest| ensures t.released[|s.released| + i] == Release(rest[i], s.now, false) {
        if i == 0 {
          assert t.released[..|s1.released|][|s.released|] == s1.released[|s.released|];
        } else {
          assert t.released[|s1.released| + (i - 1)] == Release(rest[1..][i - 1], s.now, false);
        }
      }
      assert t.released[..|s.released|] == t.released[..|s1.released|][..|s.released|];
    }
  }

  /**
   notify(k), run to its end without interruption from any reachable state, releases exactly the
   queued watches of the key, none twice and oldest first, and leaves the others queued.
   */
  lemma {:induction false} NotifyReleases(now: Time, steps: seq<Step>, s: State, duration: nat, k: Key)
    returns (more: seq<Step>, t: State, taken: seq<Watch>)
    requires Runs(Init(now), steps, s, duration)
    ensures (forall i | 0 <= i < |more| :: more[i].Return?) && Runs(s, [Notify(k)] + more, t, duration)
    ensures t.frames == s.frames && t.accepted == s.accepted && t.now == s.now
    ensures forall w :: w in t.q.watchers <==> w in s.q.watchers && w.key != k
    ensures forall w :: w in taken <==> w in s.q.watchers && w.key == k
    ensures forall i, j | 0 <= i < j < |taken| :: taken[i].node < taken[j].node
    ensures |t.released| == |s.released| + |taken| && t.released[..|s.released|] == s.released
    ensures forall i | 0 <= i < |taken| :: t.released[|s.released| + i] == Release(taken[i], s.now, false)
  {
    hide Runs, Returned, Expired, Submitted, SetWait, TakeAll, NotOfKey, NotInRange, OfKey;
    NotifyTakesKey(now, steps, s, duration, k);
    taken := TakeKey(s.q, k).1;
    var s1 := Apply(s, Notify(k), duration);
    assert s1.frames == s.frames + [Notifying(taken)] && s1.released == s.released && s1.now == s.now;
    assert s1.q.watchers == TakeKey(s.q, k).0.watchers && s1.accepted == s.accepted;
    hide Apply, TakeKey;
    more, t := ReleasesInTurn(s1, s.frames, taken, duration);
    RunsCons(s, Notify(k), more, t, duration);
  }

  /** A notification of everybody takes all watches, those of one key together and oldest first. */
  lemma {:induction false} NotifyAllTakes(now: Time, steps: seq<Step>, s: State, duration: nat)
    requires Runs(Init(now), steps, s, duration)
    ensures var (q, taken) := TakeAll(s.q);
            && q.watchers == [] && q.index == [] && multiset(taken) == multiset(s.q.watchers)
            && (forall i, j | 0 <= i < j < |taken| :: taken[i].key <= taken[j].key)
            && (forall k :: OfKey(taken, k) == OfKey(s.q.watchers, k))
  {
    InitInv(now, duration);
    RunInv(Init(now), steps, s, duration);
    TakeAllTakes(s.q);
    var taken := TakeAll(s.q).1;
    forall k ensures OfKey(taken, k) == OfKey(s.q.watchers, k) { IndexOrder(s.q, k); }
    IndexOrder(s.q, 0);
    forall i, j | 0 <= i < j < |taken| ensures taken[i].key <= taken[j].key { KeysSorted(s.q.index, i, j); }
  }

  lemma {:induction false} OfKeyOrdered(ws: seq<Watch>, k: Key)
    requires Ordered(ws)
    ensures Ordered(OfKey(ws, k))
  {
    if ws != [] {
      OfKeyOrdered(ws[1..], k);
      OfKeyMembers(ws[1..], k);
      if ws[0].key == k { assert OfKey(ws, k)[1..] == OfKey(ws[1..], k); }
    }
  }
}
