/**
 The watcher object of includes/udho/watcher.h. Each method is the part of a member function
 between two points where the mutex is released, so the callbacks, which may call back into
 the watcher, stand between them.
 */
module Watcher {
  import opened Options
  import opened WatchQueue

  class Watcher {
    const duration: Time
    var watchers: seq<Watch>
    var index: seq<Entry>
    var timer: Timer
    /** List nodes made so far; the next node's identity. */
    var made: nat

    constructor (duration: Time)
      ensures this.duration == duration && View() == EMPTY && Coherent(View())
    {
      this.duration := duration;
      watchers, index, timer, made := [], [], Timer(map[], 0), 0;
    }

    function View(): Queue
      reads this
    {
      Queue(watchers, index, timer, made)
    }

    /** _timer.expires_from_now followed by _timer.async_wait. */
    method Rearm(deadline: Time)
      modifies this`timer
      ensures timer == Arm(old(timer), deadline)
    {
      timer := Arm(timer, deadline);
    }

    method Insert(watch: Candidate, now: Time) returns (accepted: bool)
      modifies this
      ensures (View(), accepted) == WatchQueue.Insert(old(View()), watch, now, duration)
    {
      if watch.released || watch.expiry.Some? { return false; }
      var expiry := now + duration;
      if watchers == [] { Rearm(expiry); }
      watchers := watchers + [Watch(made, watch.key, expiry)];
      index := IndexInsert(index, Entry(watch.key, made));
      made := made + 1;
      accepted := true;
    }

    /** Where the equal_range of a key begins and ends. */
    method EqualRange(key: Key) returns (lo: nat, hi: nat)
      requires Sorted(index)
      ensures lo <= hi <= |index|
      ensures forall j | 0 <= j < lo :: index[j].key < key
      ensures forall j | lo <= j < hi :: index[j].key == key
      ensures forall j | hi <= j < |index| :: index[j].key > key
    {
      lo := 0;
      while lo < |index| && index[lo].key < key
        invariant lo <= |index|
        invariant forall j | 0 <= j < lo :: index[j].key < key
      {
        lo := lo + 1;
      }
      hi := lo;
      while hi < |index| && index[hi].key == key
        invariant lo <= hi <= |index|
        invariant forall j | lo <= j < hi :: index[j].key == key
      {
        hi := hi + 1;
      }
      forall j | hi <= j < |index| ensures index[j].key > key {
        KeysSorted(index, lo, hi);
        KeysSorted(index, hi, j);
      }
    }

    /** expired, for a wait that was not aborted, up to the callback. */
    method ExpiredHead(now: Time) returns (turn: Turn)
      requires Coherent(View())
      modifies this
      ensures (View(), turn) == WatchQueue.ExpiredHead(old(View()), now)
    {
      if watchers == [] { return Nothing; }
      var current := watchers[0];
      if current.expiry > now {
        Rearm(current.expiry);
        return TooEarly;
      }
      ghost var q := View();
      NodeKey(q, current);
      var lo, hi := EqualRange(current.key);
      var i := lo;
      while i < hi
        invariant 0 <= i <= hi <= |index| && unchanged(this`watchers, this`timer, this`made)
        invariant IndexErase(index, current.node) == IndexErase(q.index, current.node)
        invariant forall j | 0 <= j < |index| && (j < i || j >= hi) :: index[j].node != current.node
        decreases hi - i
      {
        if index[i].node == current.node {
          IndexEraseAt(index, i);
          index := index[..i] + index[i + 1..];
          hi := hi - 1;
        } else {
          i := i + 1;
        }
      }
      IndexEraseNone(index, current.node);
      EraseFront(watchers);
      watchers := watchers[1..];
      turn := Due(current);
    }

    /** expired after the callback. */
    method ExpiredTail()
      modifies this`timer
      ensures View() == WatchQueue.ExpiredTail(old(View()))
    {
      if watchers != [] { Rearm(watchers[0].expiry); }
    }

    /** notify up to the callbacks; `count` is what it will return. */
    method TakeByKey(key: Key) returns (released: seq<Watch>, count: nat)
      requires Coherent(View())
      modifies this
      ensures (View(), released) == TakeKey(old(View()), key)
      ensures count == |released|
    {
      ghost var q := View();
      var lo, hi := EqualRange(key);
      count := hi - lo;
      released := [];
      assert released + TakeKey(q, key).1 == TakeKey(q, key).1;
      while lo < hi
        invariant lo <= hi <= |index| && Coherent(View())
        invariant forall j | 0 <= j < |index| :: index[j].key == key <==> lo <= j < hi
        invariant TakeKey(q, key) == (TakeKey(View(), key).0, released + TakeKey(View(), key).1)
        invariant |released| + (hi - lo) == count
        decreases hi - lo
      {
        TakeKeyStep(View(), key, lo);
        var node := index[lo].node;
        var watch := Find(watchers, node);
        ghost var before := released;
        released := released + [watch];
        watchers := Erase(watchers, node);
        index := index[..lo] + index[lo + 1..];
        hi := hi - 1;
        Concat(before, watch, TakeKey(View(), key).1);
      }
      assert released + [] == released;
      TakeKeyEnd(View(), key);
    }

    /** notify_all up to the callbacks; the count is taken after the index has been emptied. */
    method TakeEverything() returns (released: seq<Watch>, count: nat)
      requires Coherent(View())
      modifies this
      ensures (View(), released) == TakeAll(old(View()))
      ensures count == 0
    {
      ghost var q := View();
      released := [];
      assert released + TakeAll(q).1 == TakeAll(q).1;
      while index != []
        invariant Coherent(View())
        invariant TakeAll(q) == (TakeAll(View()).0, released + TakeAll(View()).1)
        decreases |index|
      {
        TakeAllStep(View());
        var node := index[0].node;
        var watch := Find(watchers, node);
        ghost var before := released;
        released := released + [watch];
        watchers := Erase(watchers, node);
        index := index[1..];
        Concat(before, watch, TakeAll(View()).1);
      }
      assert released + [] == released;
      TakeAllEnd(View());
      count := |index|;
    }
  }

  lemma Concat<T>(a: seq<T>, x: T, b: seq<T>)
    ensures [] + b == b && a + [] == a && a + ([x] + b) == (a + [x]) + b
  {
  }

  /** One round of the loop of notify. */
  lemma TakeKeyStep(q: Queue, k: Key, lo: nat)
    requires Coherent(q) && lo < |q.index| && q.index[lo].key == k && forall j | 0 <= j < lo :: q.index[j].key != k
    ensures var n := q.index[lo].node;
            var q' := q.(watchers := Erase(q.watchers, n), index := q.index[..lo] + q.index[lo + 1..]);
            && (exists w | w in q.watchers :: w.node == n) && Coherent(q')
            && TakeKey(q, k) == (TakeKey(q', k).0, [Find(q.watchers, n)] + TakeKey(q', k).1)
  {
    RangeFirst(q.index, k, lo);
    assert Range(q.index, k) == Nodes(OfKey(q.watchers, k));
    TakeOne(q, k);
    UniqueErase(q.index, lo);
    var all := OfKey(q.watchers, k);
    assert all == [all[0]] + all[1..];
  }

  lemma TakeKeyEnd(q: Queue, k: Key)
    requires Coherent(q) && forall e | e in q.index :: e.key != k
    ensures TakeKey(q, k) == (q, [])
  {
    RangeAbsent(q.index, k);
    assert Range(q.index, k) == Nodes(OfKey(q.watchers, k));
    EmptyOfKey(q.watchers, k);
    NotInRangeOfAbsent(q.index, k);
  }

  /** One round of the loop of notify_all. */
  lemma TakeAllStep(q: Queue)
    requires Coherent(q) && q.index != []
    ensures var n := q.index[0].node;
            var q' := q.(watchers := Erase(q.watchers, n), index := q.index[1..]);
            && (exists w | w in q.watchers :: w.node == n) && Coherent(q')
            && TakeAll(q) == (TakeAll(q').0, [Find(q.watchers, n)] + TakeAll(q').1)
  {
    TakeFirst(q);
  }

  lemma TakeAllEnd(q: Queue)
    requires Coherent(q) && q.index == []
    ensures TakeAll(q) == (q, [])
  {
    TakeAllTakes(q);
    assert |multiset(q.watchers)| == |q.watchers|;
  }

  /** Erasing one entry of a node at position `i` changes nothing for a later erasure of the node. */
  lemma {:induction false} IndexEraseAt(ix: seq<Entry>, i: nat)
    requires i < |ix|
    ensures IndexErase(ix[..i] + ix[i + 1..], ix[i].node) == IndexErase(ix, ix[i].node)
  {
    var cut := ix[..i] + ix[i + 1..];
    if i == 0 {
      assert cut == ix[1..];
    } else {
      assert cut[0] == ix[0] && cut[1..] == ix[1..][..i - 1] + ix[1..][i..];
      IndexEraseAt(ix[1..], i - 1);
    }
  }

  lemma {:induction false} UniqueErase(ix: seq<Entry>, i: nat)
    requires Unique(ix) && i < |ix|
    ensures IndexErase(ix, ix[i].node) == ix[..i] + ix[i + 1..]
  {
    if i == 0 {
      UniqueTail(ix);
    } else {
      assert ix[i] in ix[1..];
      UniqueErase(ix[1..], i - 1);
      assert ix[..i] + ix[i + 1..] == [ix[0]] + (ix[1..][..i - 1] + ix[1..][i..]);
    }
  }

  lemma {:induction false} RangeFirst(ix: seq<Entry>, k: Key, i: nat)
    requires i < |ix| && ix[i].key == k && forall j | 0 <= j < i :: ix[j].key != k
    ensures Range(ix, k) != [] && Range(ix, k)[0] == ix[i].node
  {
    if i > 0 { RangeFirst(ix[1..], k, i - 1); }
  }
}
