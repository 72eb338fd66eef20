/**
 The containers of includes/udho/watcher.h: a list of watches in order of insertion, a
 multimap from keys to list nodes, and one deadline timer with its pending waits.
 */
module WatchQueue {
  import opened Options

  type Key = int
  type Time = int

  /** A watch in the list; `node` identifies its list node, which is what an iterator points at. */
  datatype Watch = Watch(node: nat, key: Key, expiry: Time)

  /** A watch as handed to insert; `expiry` is None while it is not_a_date_time. */
  datatype Candidate = Candidate(key: Key, expiry: Option<Time>, released: bool)

  datatype Entry = Entry(key: Key, node: nat)

  /** One async_wait: armed until its deadline, queued to run with success, or aborted. */
  datatype Wait = Armed(deadline: Time) | Queued | Aborted

  datatype Timer = Timer(waits: map<nat, Wait>, next: nat)

  datatype Queue = Queue(watchers: seq<Watch>, index: seq<Entry>, timer: Timer, made: nat)

  const EMPTY := Queue([], [], Timer(map[], 0), 0)

  /* ---- the timer ---- */

  /** expires_from_now cancels what is armed; async_wait adds one wait. */
  function Arm(t: Timer, deadline: Time): Timer {
    var canceled := map w | w in t.waits :: if t.waits[w].Armed? then Aborted else t.waits[w];
    Timer(canceled[t.next := Armed(deadline)], t.next + 1)
  }

  /* ---- the list ---- */

  function OfKey(ws: seq<Watch>, k: Key): seq<Watch> {
    if ws == [] then [] else if ws[0].key == k then [ws[0]] + OfKey(ws[1..], k) else OfKey(ws[1..], k)
  }

  function NotOfKey(ws: seq<Watch>, k: Key): seq<Watch> {
    if ws == [] then [] else if ws[0].key == k then NotOfKey(ws[1..], k) else [ws[0]] + NotOfKey(ws[1..], k)
  }

  function Nodes(ws: seq<Watch>): seq<nat> {
    if ws == [] then [] else [ws[0].node] + Nodes(ws[1..])
  }

  /** list::erase of one node. */
  function Erase(ws: seq<Watch>, node: nat): seq<Watch> {
    if ws == [] then [] else if ws[0].node == node then Erase(ws[1..], node) else [ws[0]] + Erase(ws[1..], node)
  }

  /** In order of insertion, which is the order of expiry. */
  ghost predicate Ordered(ws: seq<Watch>) {
    ws == [] ||
    ((forall w | w in ws[1..] :: ws[0].node < w.node && ws[0].expiry <= w.expiry) && Ordered(ws[1..]))
  }

  /* ---- the index ---- */

  /** multimap::insert puts an entry behind all entries whose key is not greater. */
  function IndexInsert(ix: seq<Entry>, e: Entry): seq<Entry> {
    if ix == [] || ix[0].key > e.key then [e] + ix else [ix[0]] + IndexInsert(ix[1..], e)
  }

  /** The nodes in the equal_range of a key. */
  function Range(ix: seq<Entry>, k: Key): seq<nat> {
    if ix == [] then [] else if ix[0].key == k then [ix[0].node] + Range(ix[1..], k) else Range(ix[1..], k)
  }

  function IndexErase(ix: seq<Entry>, node: nat): seq<Entry> {
    if ix == [] then []
    else if ix[0].node == node then IndexErase(ix[1..], node)
    else [ix[0]] + IndexErase(ix[1..], node)
  }

  function NotInRange(ix: seq<Entry>, k: Key): seq<Entry> {
    if ix == [] then [] else if ix[0].key == k then NotInRange(ix[1..], k) else [ix[0]] + NotInRange(ix[1..], k)
  }

  ghost predicate Sorted(ix: seq<Entry>) {
    ix == [] || ((forall e | e in ix[1..] :: ix[0].key <= e.key) && Sorted(ix[1..]))
  }

  /* ---- the invariant ---- */

  /** The index and the list say the same: under every key the same nodes in the same order. */
  ghost predicate Agree(ws: seq<Watch>, ix: seq<Entry>) {
    forall k :: Range(ix, k) == Nodes(OfKey(ws, k))
  }

  /** No list node is indexed twice. */
  ghost predicate Unique(ix: seq<Entry>) {
    ix == [] || ((forall e | e in ix[1..] :: ix[0].node != e.node) && Unique(ix[1..]))
  }

  ghost predicate Coherent(q: Queue) {
    && Ordered(q.watchers) && Sorted(q.index) && Unique(q.index) && Agree(q.watchers, q.index)
    && (forall e | e in q.index :: e.node < q.made)
    && (forall w | w in q.watchers :: w.node < q.made)
    && (forall w | w in q.timer.waits :: w < q.timer.next)
  }

  function Drop(q: Queue, node: nat): Queue {
    q.(watchers := Erase(q.watchers, node), index := IndexErase(q.index, node))
  }

  /* ---- facts about the list and the index ---- */

  lemma {:induction false} EraseMembers(ws: seq<Watch>, node: nat)
    ensures forall w :: w in Erase(ws, node) <==> w in ws && w.node != node
  {
    if ws != [] { EraseMembers(ws[1..], node); }
  }

  lemma {:induction false} EraseOrdered(ws: seq<Watch>, node: nat)
    requires Ordered(ws)
    ensures Ordered(Erase(ws, node))
  {
    if ws != [] {
      EraseOrdered(ws[1..], node);
      EraseMembers(ws[1..], node);
      if ws[0].node != node { assert Erase(ws, node)[1..] == Erase(ws[1..], node); }
    }
  }

  lemma {:induction false} IndexEraseSorted(ix: seq<Entry>, node: nat)
    requires Sorted(ix) && Unique(ix)
    ensures Sorted(IndexErase(ix, node)) && Unique(IndexErase(ix, node))
    ensures forall e | e in IndexErase(ix, node) :: e in ix
  {
    if ix != [] {
      IndexEraseSorted(ix[1..], node);
      if ix[0].node != node { assert IndexErase(ix, node)[1..] == IndexErase(ix[1..], node); }
    }
  }

  function Without(s: seq<nat>, n: nat): seq<nat> {
    if s == [] then [] else if s[0] == n then Without(s[1..], n) else [s[0]] + Without(s[1..], n)
  }

  lemma {:induction false} WithoutConcat(a: seq<nat>, b: seq<nat>, n: nat)
    ensures Without(a + b, n) == Without(a, n) + Without(b, n)
  {
    if a == [] { assert a + b == b; } else {
      assert (a + b)[1..] == a[1..] + b;
      WithoutConcat(a[1..], b, n);
    }
  }

  lemma {:induction false} EraseRange(ix: seq<Entry>, node: nat, k: Key)
    ensures Range(IndexErase(ix, node), k) == Without(Range(ix, k), node)
  {
    if ix != [] {
      EraseRange(ix[1..], node, k);
      var h := if ix[0].key == k then [ix[0].node] else [];
      WithoutConcat(h, Range(ix[1..], k), node);
      if ix[0].node != node { assert IndexErase(ix, node)[1..] == IndexErase(ix[1..], node); }
    }
  }

  lemma {:induction false} EraseNodes(ws: seq<Watch>, node: nat, k: Key)
    ensures Nodes(OfKey(Erase(ws, node), k)) == Without(Nodes(OfKey(ws, k)), node)
  {
    if ws != [] {
      EraseNodes(ws[1..], node, k);
      if ws[0].node != node { assert Erase(ws, node)[1..] == Erase(ws[1..], node); }
      if ws[0].key == k { assert OfKey(ws, k)[1..] == OfKey(ws[1..], k); }
      if ws[0].key == k && ws[0].node != node {
        assert OfKey(Erase(ws, node), k)[1..] == OfKey(Erase(ws[1..], node), k);
      }
    }
  }

  /** Erasing a node from the list and its entry from the index keeps them coherent. */
  lemma DropCoherent(q: Queue, node: nat)
    requires Coherent(q)
    ensures Coherent(Drop(q, node))
  {
    EraseOrdered(q.watchers, node);
    EraseMembers(q.watchers, node);
    IndexEraseSorted(q.index, node);
    forall k ensures Range(IndexErase(q.index, node), k) == Nodes(OfKey(Erase(q.watchers, node), k)) {
      EraseRange(q.index, node, k);
      EraseNodes(q.watchers, node, k);
    }
  }

  lemma {:induction false} InsertRange(ix: seq<Entry>, e: Entry, k: Key)
    requires Sorted(ix) && Unique(ix) && forall x | x in ix :: x.node != e.node
    ensures Unique(IndexInsert(ix, e))
    ensures Range(IndexInsert(ix, e), k) == Range(ix, k) + if k == e.key then [e.node] else []
    ensures Sorted(IndexInsert(ix, e)) && forall x | x in IndexInsert(ix, e) :: x == e || x in ix
  {
    if ix == [] {
      assert [e][1..] == [];
    } else if ix[0].key > e.key {
      assert ([e] + ix)[1..] == ix;
      if k == e.key { RangeAbsent(ix, k); }
    } else {
      InsertRange(ix[1..], e, k);
      assert IndexInsert(ix, e)[1..] == IndexInsert(ix[1..], e);
    }
  }

  lemma {:induction false} RangeAbsent(ix: seq<Entry>, k: Key)
    requires forall e | e in ix :: e.key != k
    ensures Range(ix, k) == []
  {
    if ix != [] { RangeAbsent(ix[1..], k); }
  }

  lemma {:induction false} AppendOfKey(ws: seq<Watch>, w: Watch, k: Key)
    ensures OfKey(ws + [w], k) == OfKey(ws, k) + if w.key == k then [w] else []
  {
    if ws == [] { assert [w][1..] == []; } else {
      assert (ws + [w])[1..] == ws[1..] + [w];
      AppendOfKey(ws[1..], w, k);
    }
  }

  lemma {:induction false} NodesConcat(a: seq<Watch>, b: seq<Watch>)
    ensures Nodes(a + b) == Nodes(a) + Nodes(b)
  {
    if a == [] { assert a + b == b; } else {
      assert (a + b)[1..] == a[1..] + b;
      NodesConcat(a[1..], b);
    }
  }

  lemma {:induction false} AppendOrdered(ws: seq<Watch>, w: Watch)
    requires Ordered(ws) && forall v | v in ws :: v.node < w.node && v.expiry <= w.expiry
    ensures Ordered(ws + [w])
  {
    if ws != [] {
      AppendOrdered(ws[1..], w);
      assert (ws + [w])[1..] == ws[1..] + [w];
    }
  }

  /** Appending a younger watch and its entry keeps list and index coherent. */
  lemma AppendCoherent(q: Queue, k: Key, expiry: Time)
    requires Coherent(q) && forall w | w in q.watchers :: w.expiry <= expiry
    ensures Coherent(q.(watchers := q.watchers + [Watch(q.made, k, expiry)],
                        index := IndexInsert(q.index, Entry(k, q.made)), made := q.made + 1))
  {
    var w, e := Watch(q.made, k, expiry), Entry(k, q.made);
    AppendOrdered(q.watchers, w);
    forall x ensures Range(IndexInsert(q.index, e), x) == Nodes(OfKey(q.watchers + [w], x)) {
      InsertRange(q.index, e, x);
      AppendOfKey(q.watchers, w, x);
      NodesConcat(OfKey(q.watchers, x), if w.key == x then [w] else []);
      assert Nodes([w]) == [q.made];
    }
    InsertRange(q.index, e, k);
  }

  lemma {:induction false} OfKeyMembers(ws: seq<Watch>, k: Key)
    ensures forall w :: w in OfKey(ws, k) <==> w in ws && w.key == k
    ensures forall w :: w in NotOfKey(ws, k) <==> w in ws && w.key != k
    ensures multiset(ws) == multiset(OfKey(ws, k)) + multiset(NotOfKey(ws, k))
  {
    if ws != [] {
      OfKeyMembers(ws[1..], k);
      assert ws == [ws[0]] + ws[1..];
    }
  }

  lemma {:induction false} NodesMembers(ws: seq<Watch>)
    ensures forall n :: n in Nodes(ws) <==> exists w | w in ws :: w.node == n
  {
    if ws != [] { NodesMembers(ws[1..]); }
  }

  lemma {:induction false} RangeMembers(ix: seq<Entry>, k: Key)
    ensures forall n :: n in Range(ix, k) <==> Entry(k, n) in ix
  {
    if ix != [] { RangeMembers(ix[1..], k); }
  }

  /** Index entries and list nodes are in bijection with equal keys. */
  lemma Bijection(q: Queue, k: Key, n: nat)
    requires Coherent(q)
    ensures Entry(k, n) in q.index <==> exists w | w in q.watchers :: w.node == n && w.key == k
  {
    RangeMembers(q.index, k);
    NodesMembers(OfKey(q.watchers, k));
    OfKeyMembers(q.watchers, k);
  }

  lemma {:induction false} OrderedNodes(ws: seq<Watch>, i: nat, j: nat)
    requires Ordered(ws) && i < j < |ws|
    ensures ws[i].node < ws[j].node && ws[i].expiry <= ws[j].expiry
  {
    if i == 0 { assert ws[j] in ws[1..]; } else { OrderedNodes(ws[1..], i - 1, j - 1); }
  }

  /** Erasing a node takes exactly its one watch out of the list. */
  lemma {:induction false} EraseOne(ws: seq<Watch>, w: Watch)
    requires Ordered(ws) && w in ws
    ensures multiset(ws) == multiset(Erase(ws, w.node)) + multiset{w}
  {
    assert ws == [ws[0]] + ws[1..];
    if ws[0].node == w.node {
      EraseNone(ws[1..], w.node);
    } else {
      EraseOne(ws[1..], w);
    }
  }

  lemma {:induction false} EraseNone(ws: seq<Watch>, n: nat)
    requires forall w | w in ws :: w.node != n
    ensures Erase(ws, n) == ws
  {
    if ws != [] { EraseNone(ws[1..], n); }
  }

  /* ---- what the three operations do ---- */

  /** watcher::insert: a watch already released or already given an expiry is refused. */
  function Insert(q: Queue, c: Candidate, now: Time, duration: Time): (Queue, bool) {
    if c.released || c.expiry.Some? then (q, false)
    else
      var expiry := now + duration;
      var timer := if q.watchers == [] then Arm(q.timer, expiry) else q.timer;
      var watchers := q.watchers + [Watch(q.made, c.key, expiry)];
      (Queue(watchers, IndexInsert(q.index, Entry(c.key, q.made)), timer, q.made + 1), true)
  }

  /** The part of watcher::expired before the callback. */
  datatype Turn = Nothing | TooEarly | Due(watch: Watch)

  function ExpiredHead(q: Queue, now: Time): (Queue, Turn) {
    if q.watchers == [] then (q, Nothing)
    else if q.watchers[0].expiry > now then (q.(timer := Arm(q.timer, q.watchers[0].expiry)), TooEarly)
    else (Drop(q, q.watchers[0].node), Due(q.watchers[0]))
  }

  /** The part of watcher::expired after the callback: wait for the next watch. */
  function ExpiredTail(q: Queue): Queue {
    if q.watchers == [] then q else q.(timer := Arm(q.timer, q.watchers[0].expiry))
  }

  /** watcher::notify up to the callbacks: the watches of the key leave the queue. */
  function TakeKey(q: Queue, k: Key): (Queue, seq<Watch>) {
    (q.(watchers := NotOfKey(q.watchers, k), index := NotInRange(q.index, k)), OfKey(q.watchers, k))
  }

  function Find(ws: seq<Watch>, node: nat): (w: Watch)
    requires exists w | w in ws :: w.node == node
    ensures w in ws && w.node == node
  {
    if ws[0].node == node then ws[0] else Find(ws[1..], node)
  }

  /** The watches in the order of the index, erasing as notify_all does. */
  function InIndexOrder(ix: seq<Entry>, ws: seq<Watch>): seq<Watch>
    decreases |ix|
  {
    if ix == [] || !(exists w | w in ws :: w.node == ix[0].node) then []
    else [Find(ws, ix[0].node)] + InIndexOrder(ix[1..], Erase(ws, ix[0].node))
  }

  /** watcher::notify_all up to the callbacks. */
  function TakeAll(q: Queue): (Queue, seq<Watch>) {
    (q.(watchers := [], index := []), InIndexOrder(q.index, q.watchers))
  }

  /* ---- they keep list and index coherent and lose nothing ---- */

  lemma InsertCoherent(q: Queue, c: Candidate, now: Time, duration: Time)
    requires Coherent(q) && forall w | w in q.watchers :: w.expiry <= now + duration
    ensures Coherent(Insert(q, c, now, duration).0)
  {
    AppendCoherent(q, c.key, now + duration);
  }

  lemma {:induction false} FindUnique(ws: seq<Watch>, w: Watch)
    requires Ordered(ws) && w in ws
    ensures Find(ws, w.node) == w
  {
    if ws[0] != w {
      assert w in ws[1..];
      FindUnique(ws[1..], w);
    }
  }

  lemma EraseFront(ws: seq<Watch>)
    requires Ordered(ws) && ws != []
    ensures Erase(ws, ws[0].node) == ws[1..]
  {
    EraseNone(ws[1..], ws[0].node);
  }

  /** The first watch of a key, erased, leaves the later ones and every other watch. */
  lemma {:induction false} EraseFirstOfKey(ws: seq<Watch>, k: Key)
    requires Ordered(ws) && OfKey(ws, k) != []
    ensures var n := OfKey(ws, k)[0].node;
            OfKey(Erase(ws, n), k) == OfKey(ws, k)[1..] && NotOfKey(Erase(ws, n), k) == NotOfKey(ws, k)
  {
    if ws[0].key == k {
      EraseNone(ws[1..], ws[0].node);
      assert OfKey(ws, k)[1..] == OfKey(ws[1..], k);
    } else {
      EraseFirstOfKey(ws[1..], k);
      OfKeyMembers(ws[1..], k);
      var n := OfKey(ws, k)[0].node;
      assert OfKey(ws, k)[0] in OfKey(ws[1..], k);
      assert Erase(ws, n)[1..] == Erase(ws[1..], n);
    }
  }

  lemma {:induction false} EraseInRange(ix: seq<Entry>, n: nat, k: Key)
    requires forall e | e in ix && e.node == n :: e.key == k
    ensures NotInRange(IndexErase(ix, n), k) == NotInRange(ix, k)
  {
    if ix != [] {
      EraseInRange(ix[1..], n, k);
      if ix[0].node != n { assert IndexErase(ix, n)[1..] == IndexErase(ix[1..], n); }
    }
  }

  /** All entries of one node carry the key of its watch. */
  lemma NodeKey(q: Queue, w: Watch)
    requires Coherent(q) && w in q.watchers
    ensures Entry(w.key, w.node) in q.index
    ensures forall e | e in q.index && e.node == w.node :: e.key == w.key
  {
    Bijection(q, w.key, w.node);
    forall e | e in q.index && e.node == w.node ensures e.key == w.key {
      Bijection(q, e.key, e.node);
      var v :| v in q.watchers && v.node == e.node && v.key == e.key;
      FindUnique(q.watchers, v);
      FindUnique(q.watchers, w);
    }
  }

  lemma {:induction false} EmptyOfKey(ws: seq<Watch>, k: Key)
    requires OfKey(ws, k) == []
    ensures NotOfKey(ws, k) == ws
  {
    if ws != [] { EmptyOfKey(ws[1..], k); }
  }

  lemma {:induction false} NotInRangeOfAbsent(ix: seq<Entry>, k: Key)
    requires Range(ix, k) == []
    ensures NotInRange(ix, k) == ix
  {
    if ix != [] { NotInRangeOfAbsent(ix[1..], k); }
  }

  /** Taking a key is erasing its watches one by one, so it keeps the queue coherent. */
  lemma {:induction false} TakeKeyCoherent(q: Queue, k: Key)
    requires Coherent(q)
    ensures Coherent(TakeKey(q, k).0)
    decreases |OfKey(q.watchers, k)|
  {
    if OfKey(q.watchers, k) == [] {
      EmptyOfKey(q.watchers, k);
      assert Range(q.index, k) == Nodes(OfKey(q.watchers, k));
      NotInRangeOfAbsent(q.index, k);
    } else {
      TakeOne(q, k);
      var q' := Drop(q, OfKey(q.watchers, k)[0].node);
      TakeKeyCoherent(q', k);
      assert TakeKey(q', k).0 == TakeKey(q, k).0;
    }
  }

  /** One round of the loop of notify. */
  lemma TakeOne(q: Queue, k: Key)
    requires Coherent(q) && OfKey(q.watchers, k) != []
    ensures var w := OfKey(q.watchers, k)[0];
            var q' := Drop(q, w.node);
            && w in q.watchers && w.key == k && Find(q.watchers, w.node) == w
            && Coherent(q') && OfKey(q'.watchers, k) == OfKey(q.watchers, k)[1..]
            && NotOfKey(q'.watchers, k) == NotOfKey(q.watchers, k) && NotInRange(q'.index, k) == NotInRange(q.index, k)
  {
    var w := OfKey(q.watchers, k)[0];
    OfKeyMembers(q.watchers, k);
    assert w in OfKey(q.watchers, k);
    FindUnique(q.watchers, w);
    DropCoherent(q, w.node);
    EraseFirstOfKey(q.watchers, k);
    NodeKey(q, w);
    EraseInRange(q.index, w.node, k);
  }

  lemma UniqueTail(ix: seq<Entry>)
    requires ix != [] && Unique(ix)
    ensures IndexErase(ix, ix[0].node) == ix[1..]
  {
    IndexEraseNone(ix[1..], ix[0].node);
  }

  lemma {:induction false} IndexEraseNone(ix: seq<Entry>, n: nat)
    requires forall e | e in ix :: e.node != n
    ensures IndexErase(ix, n) == ix
  {
    if ix != [] { IndexEraseNone(ix[1..], n); }
  }

  /** One round of the loop of notify_all. */
  lemma TakeFirst(q: Queue)
    requires Coherent(q) && q.index != []
    ensures exists w | w in q.watchers :: w.node == q.index[0].node
    ensures Coherent(Drop(q, q.index[0].node)) && Drop(q, q.index[0].node).index == q.index[1..]
    ensures var n := q.index[0].node;
            multiset(q.watchers) == multiset{Find(q.watchers, n)} + multiset(Erase(q.watchers, n))
  {
    var e := q.index[0];
    assert Entry(e.key, e.node) in q.index;
    Bijection(q, e.key, e.node);
    DropCoherent(q, e.node);
    UniqueTail(q.index);
    EraseOne(q.watchers, Find(q.watchers, e.node));
  }

  /** notify_all takes every watch, each once. */
  lemma {:induction false} TakeAllTakes(q: Queue)
    requires Coherent(q)
    ensures multiset(InIndexOrder(q.index, q.watchers)) == multiset(q.watchers)
    decreases |q.index|
  {
    if q.index == [] {
      if q.watchers != [] {
        Bijection(q, q.watchers[0].key, q.watchers[0].node);
      }
    } else {
      TakeFirst(q);
      TakeAllTakes(Drop(q, q.index[0].node));
    }
  }

  lemma {:induction false} EraseOtherKey(ws: seq<Watch>, n: nat, k: Key)
    requires forall w | w in ws && w.node == n :: w.key != k
    ensures OfKey(Erase(ws, n), k) == OfKey(ws, k)
  {
    if ws != [] {
      EraseOtherKey(ws[1..], n, k);
      if ws[0].node != n { assert Erase(ws, n)[1..] == Erase(ws[1..], n); }
    }
  }

  /** The first watch that notify_all takes. */
  lemma FirstTaken(q: Queue, w: Watch, k: Key)
    requires Coherent(q) && q.index != [] && w in q.watchers && w.node == q.index[0].node
    ensures w.key == q.index[0].key && Find(q.watchers, w.node) == w
    ensures var rest := OfKey(Erase(q.watchers, w.node), k);
            OfKey(q.watchers, k) == if w.key == k then [w] + rest else rest
  {
    NodeKey(q, w);
    assert q.index[0] in q.index;
    FindUnique(q.watchers, w);
    if w.key == k {
      var all := OfKey(q.watchers, k);
      assert Range(q.index, k) == Nodes(all);
      assert q.index[0].key == k && Range(q.index, k)[0] == w.node;
      assert all != [] && Nodes(all)[0] == all[0].node;
      TakeOne(q, k);
      assert all == [all[0]] + all[1..];
    } else {
      forall v | v in q.watchers && v.node == w.node ensures v.key != k { FindUnique(q.watchers, v); }
      EraseOtherKey(q.watchers, w.node, k);
    }
  }

  /** notify_all takes the watches in the order of their keys, and those of one key in the order of the list. */
  lemma {:induction false} IndexOrder(q: Queue, k: Key)
    requires Coherent(q)
    ensures var taken := InIndexOrder(q.index, q.watchers);
            && |taken| == |q.index| && (forall i | 0 <= i < |taken| :: taken[i].key == q.index[i].key)
            && OfKey(taken, k) == OfKey(q.watchers, k)
    decreases |q.index|
  {
    if q.index == [] {
      assert Range(q.index, k) == Nodes(OfKey(q.watchers, k));
    } else {
      TakeFirst(q);
      var w := Find(q.watchers, q.index[0].node);
      FirstTaken(q, w, k);
      var taken, rest := InIndexOrder(q.index, q.watchers), InIndexOrder(q.index[1..], Erase(q.watchers, w.node));
      assert taken == [w] + rest && taken[1..] == rest;
      IndexOrder(Drop(q, w.node), k);
      forall i | 0 <= i < |taken| ensures taken[i].key == q.index[i].key {
        if i > 0 { assert rest[i - 1].key == q.index[1..][i - 1].key; }
      }
    }
  }

  lemma {:induction false} KeysSorted(ix: seq<Entry>, i: nat, j: nat)
    requires Sorted(ix) && i <= j < |ix|
    ensures ix[i].key <= ix[j].key
  {
    if i > 0 {
      KeysSorted(ix[1..], i - 1, j - 1);
    } else if j > 0 {
      assert ix[j] in ix[1..];
    }
  }

  lemma EmptyCoherent(q: Queue)
    requires Coherent(q)
    ensures Coherent(q.(watchers := [], index := []))
  {
  }
}
