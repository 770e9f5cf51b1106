/**
 * The per-CPU timed-event queue of kern/modules/timed-event/src/lib.rs. The registry maps
 * event identifiers to their events; the `BinaryHeap<Reverse<(Duration, TimedEventId)>>`
 * is modelled by its keys in strictly increasing (time, id) order, so that its minimum,
 * what `peek` returns, is the first key. The hardware timer is a field holding the
 * deadline last programmed; times are nanoseconds.
 */
module TimedEvent {
  import opened Wrappers
  import opened Errors
  import opened Machine

  datatype TimedEventStatus = Pending | Timeout | Cancelled

  /** A heap key: the event's time, then its identifier. */
  type Key = (nat, nat)

  predicate KeyLt(a: Key, b: Key) {
    a.0 < b.0 || (a.0 == b.0 && a.1 < b.1)
  }

  /** Keys strictly increase along the sequence. */
  predicate Strict(s: seq<Key>) {
    forall i | 0 <= i < |s| - 1 :: KeyLt(s[i], s[i + 1])
  }

  /** Every key after the first one is above it. */
  lemma {:induction false} StrictFirst(s: seq<Key>)
    requires Strict(s) && s != []
    ensures forall i | 1 <= i < |s| :: KeyLt(s[0], s[i])
  {
    if |s| > 1 {
      StrictFirst(s[1..]);
      forall i | 2 <= i < |s|
        ensures KeyLt(s[0], s[i])
      {
        assert s[i] == s[1..][i - 1];
      }
    }
  }

  /** `queue.push(Reverse(key))` on the ordered keys. */
  function InsertKey(k: Key, s: seq<Key>): (r: seq<Key>)
    ensures r != [] && (r[0] == k || (s != [] && r[0] == s[0]))
    ensures forall x :: x in r <==> x in s || x == k
  {
    if s == [] then [k]
    else if KeyLt(k, s[0]) then [k] + s
    else if k == s[0] then s
    else [s[0]] + InsertKey(k, s[1..])
  }

  lemma {:induction false} InsertKeyStrict(k: Key, s: seq<Key>)
    requires Strict(s)
    ensures Strict(InsertKey(k, s))
  {
    if s != [] && !KeyLt(k, s[0]) && k != s[0] {
      InsertKeyStrict(k, s[1..]);
      var r := InsertKey(k, s);
      var rest := InsertKey(k, s[1..]);
      assert r == [s[0]] + rest;
      forall i | 0 <= i < |r| - 1
        ensures KeyLt(r[i], r[i + 1])
      {
        if i > 0 {
          assert r[i] == rest[i - 1] && r[i + 1] == rest[i];
        }
      }
    }
  }

  /** `queue.retain(|key| key.1 != id)` on the ordered keys. */
  function WithoutId(s: seq<Key>, id: nat): (r: seq<Key>)
    ensures forall x :: x in r <==> x in s && x.1 != id
  {
    if s == [] then []
    else (if s[0].1 == id then [] else [s[0]]) + WithoutId(s[1..], id)
  }

  lemma {:induction false} WithoutIdStrict(s: seq<Key>, id: nat)
    requires Strict(s)
    ensures Strict(WithoutId(s, id))
  {
    if s != [] {
      WithoutIdStrict(s[1..], id);
      var rest := WithoutId(s[1..], id);
      if s[0].1 != id && rest != [] {
        StrictFirst(s);
        assert rest[0] in s[1..];
        var r := WithoutId(s, id);
        assert r == [s[0]] + rest;
        forall i | 0 <= i < |r| - 1
          ensures KeyLt(r[i], r[i + 1])
        {
          if i > 0 {
            assert r[i] == rest[i - 1] && r[i + 1] == rest[i];
          }
        }
      }
    }
  }

  /** The deadline `update_timer` programs: the least queued time, or `Duration::MAX`. */
  function Deadline(s: seq<Key>): nat {
    if s == [] then DURATION_MAX else s[0].0
  }

  /** The first of strictly ordered keys has the least time of all the keys. */
  lemma DeadlineIsLeast(s: seq<Key>)
    requires Strict(s)
    ensures forall x | x in s :: Deadline(s) <= x.0
    ensures s != [] ==> exists x | x in s :: Deadline(s) == x.0
  {
    if s != [] {
      StrictFirst(s);
      assert s[0] in s;
    }
  }

  class TimedEvent {
    const id: nat
    const time: nat
    const cpu: nat
    var status: TimedEventStatus
    /** The handler is still there to be taken. */
    var armed: bool

    /** The handler is present exactly while the event is pending. */
    ghost predicate Valid()
      reads this
    {
      armed <==> status == Pending
    }

    /** A fresh event: pending, with its handler. */
    constructor (id: nat, time: nat, cpu: nat)
      ensures this.id == id && this.time == time && this.cpu == cpu
      ensures status == Pending && armed && Valid()
    {
      this.id := id;
      this.time := time;
      this.cpu := cpu;
      status := Pending;
      armed := true;
    }

    /** `retired`: the event has timed out or been cancelled. */
    predicate Retired()
      reads this
    {
      status != Pending
    }

    /**
     * `invoke`: take the handler, failing when it was already taken, and move to the
     * target status (the chosen closure then runs; it is outside this model).
     */
    method Invoke(target: TimedEventStatus) returns (r: Result<(), InternalError>)
      requires target != Pending
      modifies this
      ensures Valid() <== old(Valid())
      ensures !old(armed) ==> r == Err(InvalidTimedEventStatus) && status == old(status) && !armed
      ensures old(armed) ==> r == Ok(()) && status == target && !armed
    {
      if !armed {
        return Err(InvalidTimedEventStatus);
      }
      armed := false;
      status := target;
      return Ok(());
    }
  }

  class TimedEventQueue {
    var registry: map<nat, TimedEvent>
    var heap: seq<Key>
    var timer: nat

    /**
     * The heap holds exactly one key, (time, id), per registered event, in strict order,
     * and the timer is programmed for the first of them.
     */
    ghost predicate Valid()
      reads this
    {
      && Strict(heap)
      && (forall k | k in heap :: k.1 in registry && registry[k.1].time == k.0)
      && (forall id | id in registry :: registry[id].id == id && (registry[id].time, id) in heap)
      && timer == Deadline(heap)
    }

    /** `new`: nothing queued. */
    constructor ()
      ensures registry == map[] && heap == [] && timer == DURATION_MAX && Valid()
    {
      registry := map[];
      heap := [];
      timer := DURATION_MAX;
    }

    /** `update_timer` */
    method UpdateTimer()
      modifies this`timer
      ensures timer == Deadline(heap)
    {
      if heap != [] {
        timer := heap[0].0;
      } else {
        timer := DURATION_MAX;
      }
    }

    /** `add`: register the event and queue its key, then reprogram the timer. */
    method Add(ev: TimedEvent)
      requires Valid() && ev.id !in registry
      modifies this
      ensures Valid()
      ensures registry == old(registry)[ev.id := ev]
      ensures heap == InsertKey((ev.time, ev.id), old(heap))
      ensures forall k :: k in heap <==> k in old(heap) || k == (ev.time, ev.id)
      ensures timer == Deadline(heap)
    {
      InsertKeyStrict((ev.time, ev.id), heap);
      registry := registry[ev.id := ev];
      heap := InsertKey((ev.time, ev.id), heap);
      UpdateTimer();
    }

    /** `peek`: the registered event with the least (time, id), if any. */
    method Peek() returns (r: Option<TimedEvent>)
      requires Valid()
      ensures r.None? <==> heap == []
      ensures r.Some? ==> r.value.id in registry && registry[r.value.id] == r.value
      ensures r.Some? ==> r.value.time == Deadline(heap)
      ensures r.Some? ==> forall k | k in heap :: k == (r.value.time, r.value.id) || KeyLt((r.value.time, r.value.id), k)
    {
      if heap == [] {
        return None;
      }
      StrictFirst(heap);
      r := Some(registry[heap[0].1]);
    }

    /** `peek_outdated`: the least event when its time has come by `now`. */
    method PeekOutdated(now: nat) returns (r: Option<TimedEvent>)
      requires Valid()
      ensures r.Some? ==> r.value.time <= now && r.value.time == Deadline(heap)
      ensures r.Some? ==> heap != [] && r.value.id in registry && registry[r.value.id] == r.value
      ensures r.Some? ==> forall k | k in heap :: k == (r.value.time, r.value.id) || KeyLt((r.value.time, r.value.id), k)
      ensures r.None? ==> heap == [] || now < Deadline(heap)
    {
      r := Peek();
      if r.Some? && r.value.time > now {
        r := None;
      }
    }

    /** `remove`: unregister an event and drop its key, failing for an unknown one. */
    method Remove(id: nat) returns (r: Result<(), InternalError>)
      requires Valid()
      modifies this
      ensures Valid()
      ensures id !in old(registry) ==>
                r == Err(InvalidTimedEventStatus) && registry == old(registry) && heap == old(heap)
      ensures id in old(registry) ==>
                && r == Ok(())
                && registry == old(registry) - {id}
                && heap == WithoutId(old(heap), id)
                && forall k :: k in heap <==> k in old(heap) && k.1 != id
    {
      if id !in registry {
        return Err(InvalidTimedEventStatus);
      }
      WithoutIdStrict(heap, id);
      registry := registry - {id};
      heap := WithoutId(heap, id);
      UpdateTimer();
      return Ok(());
    }
  }

  /** `TimedEvent::create`: a fresh pending event, added to the queue of its CPU. */
  method Create(q: TimedEventQueue, id: nat, time: nat, cpu: nat) returns (ev: TimedEvent)
    requires q.Valid() && id !in q.registry
    modifies q
    ensures fresh(ev) && ev.id == id && ev.time == time && ev.cpu == cpu
    ensures ev.status == Pending && ev.armed && ev.Valid()
    ensures q.Valid() && q.registry == old(q.registry)[id := ev]
    ensures q.heap == InsertKey((time, id), old(q.heap))
  {
    ev := new TimedEvent(id, time, cpu);
    q.Add(ev);
  }

  /**
   * `TimedEventTracker::timeout` and `cancel`: take the event off its queue, then invoke
   * it towards `target`. Either step fails once the event has been fired.
   */
  method Fire(q: TimedEventQueue, ev: TimedEvent, target: TimedEventStatus) returns (r: Result<(), InternalError>)
    requires q.Valid() && ev.Valid() && target != Pending
    modifies q, ev
    ensures q.Valid() && ev.Valid()
    ensures ev.id !in old(q.registry) ==>
              && r == Err(InvalidTimedEventStatus)
              && q.registry == old(q.registry) && q.heap == old(q.heap)
              && ev.status == old(ev.status) && ev.armed == old(ev.armed)
    ensures ev.id in old(q.registry) ==>
              && q.registry == old(q.registry) - {ev.id}
              && q.heap == WithoutId(old(q.heap), ev.id)
              && !ev.armed
    ensures ev.id in old(q.registry) && old(ev.armed) ==> r == Ok(()) && ev.status == target
    ensures ev.id in old(q.registry) && !old(ev.armed) ==> r == Err(InvalidTimedEventStatus) && ev.status == old(ev.status)
    ensures ev.id !in q.registry
  {
    r := q.Remove(ev.id);
    if r.Err? {
      return;
    }
    r := ev.Invoke(target);
  }

  /** A timed-out event is retired and cannot be cancelled afterwards. */
  method FireOnce(time: nat) returns (first: Result<(), InternalError>, second: Result<(), InternalError>, retired: bool)
    ensures first == Ok(()) && second == Err(InvalidTimedEventStatus) && retired
  {
    var q := new TimedEventQueue();
    var ev := Create(q, 0, time, 0);
    first := Fire(q, ev, Timeout);
    second := Fire(q, ev, Cancelled);
    retired := ev.Retired();
  }
}
