/**
 * The 64-level bitmap priority queue of kern/modules/util/src/fastpq.rs: one FIFO per
 * priority level and a 64-bit word whose bit p says that level p holds items.
 * The word is modelled by its 64 bits, bit p being element p of a `seq<bool>`:
 * `bits |= 1 << p` sets element p, `bits &= !(1 << p)` clears it, and
 * `leading_zeros` counts the clear bits above the highest set one.
 */
module FastPq {
  import opened Wrappers

  const NUM: nat := 64
  const MAX: nat := 63

  /** A `FastPriority`: its constructor admits levels up to MAX only. */
  type Priority = p: nat | p <= MAX

  /** A `u64` as its 64 bits, least significant first. */
  type Word = s: seq<bool> | |s| == 64 witness seq(64, _ => false)

  /** The word 0. */
  function Zero(): Word { seq(64, _ => false) }

  /** `bits | (1 << p)` */
  function Mark(bits: Word, p: Priority): (r: Word)
    ensures forall q: nat | q < NUM :: r[q] <==> bits[q] || q == p
  {
    bits[p := true]
  }

  /** `bits & !(1 << p)` */
  function Unmark(bits: Word, p: Priority): (r: Word)
    ensures forall q: nat | q < NUM :: r[q] <==> bits[q] && q != p
  {
    bits[p := false]
  }

  /** The number of clear bits among bits k-1, k-2, ..., 0 before the first set one. */
  function ZerosBelow(bits: Word, k: nat): (n: nat)
    requires k <= 64
    ensures n <= k
    ensures n == k <==> forall q: nat | q < k :: !bits[q]
    ensures n < k ==> bits[k - 1 - n] && forall q: nat | k - 1 - n < q < k :: !bits[q]
  {
    if k == 0 then 0
    else if bits[k - 1] then 0
    else 1 + ZerosBelow(bits, k - 1)
  }

  /** A word with no bit set is the zero word. */
  lemma AllClear(bits: Word)
    requires forall q: nat | q < NUM :: !bits[q]
    ensures bits == Zero()
  {
    assert forall q: nat | q < NUM :: bits[q] == Zero()[q];
  }

  /** `u64::leading_zeros`. */
  function LeadingZeros(bits: Word): (n: nat)
    ensures n <= 64
    ensures n == 64 <==> bits == Zero()
    ensures n < 64 ==> bits[MAX - n] && forall q: nat | MAX - n < q < NUM :: !bits[q]
  {
    var n := ZerosBelow(bits, 64);
    if n == 64 then AllClear(bits); n else n
  }

  // ---------------------------------------------------------------------------
  // The bitmap invariant, on values

  /** Bit p of `bits` is set exactly when FIFO p is non-empty. */
  ghost predicate Linked<T>(bits: Word, qs: seq<seq<T>>) {
    |qs| == 64 && forall p: nat | p < NUM :: bits[p] <==> qs[p] != []
  }

  /** An all-clear word means every FIFO is empty, and the other way round. */
  lemma LinkedEmpty<T>(bits: Word, qs: seq<seq<T>>)
    requires Linked(bits, qs)
    ensures bits == Zero() <==> forall p: nat | p < NUM :: qs[p] == []
  {
    if bits != Zero() {
      var n := LeadingZeros(bits);
      assert qs[MAX - n] != [];
    }
  }

  /** The level 63 - leading_zeros(bits) is the highest non-empty FIFO. */
  lemma LinkedTop<T>(bits: Word, qs: seq<seq<T>>)
    requires Linked(bits, qs) && bits != Zero()
    ensures var h := MAX - LeadingZeros(bits);
            && qs[h] != []
            && forall p: nat | h < p < NUM :: qs[p] == []
  {
  }

  /** Appending to FIFO `pri` and marking its bit keeps the invariant. */
  lemma LinkedPush<T>(bits: Word, qs: seq<seq<T>>, pri: Priority, x: T)
    requires Linked(bits, qs)
    ensures Linked(Mark(bits, pri), qs[pri := qs[pri] + [x]])
  {
  }

  /** Taking the front of FIFO `h` keeps the invariant when the bit is cleared once the FIFO runs empty. */
  lemma LinkedPop<T>(bits: Word, qs: seq<seq<T>>, h: Priority)
    requires Linked(bits, qs) && qs[h] != []
    ensures var rest := qs[h][1..];
            Linked(if rest == [] then Unmark(bits, h) else bits, qs[h := rest])
  {
  }

  // ---------------------------------------------------------------------------
  // The queue

  class FastPriorityQueue<I> {
    var bits: Word
    var queues: array<seq<(Priority, I)>>

    /** Bit p of `bits` is set exactly when the FIFO of level p is non-empty. */
    ghost predicate Valid()
      reads this, queues
    {
      Linked(bits, queues[..])
    }

    /** `new`: every level empty. */
    constructor ()
      ensures Valid()
      ensures bits == Zero() && fresh(queues)
      ensures forall p: nat | p < NUM :: queues[p] == []
    {
      bits := Zero();
      queues := new seq<(Priority, I)>[64](_ => []);
    }

    /** `enqueue`: append to the FIFO of the item's level and mark the level. */
    method Enqueue(priority: Priority, item: I)
      requires Valid()
      modifies this, queues
      ensures Valid() && queues == old(queues)
      ensures bits == Mark(old(bits), priority)
      ensures queues[..] == old(queues[..])[priority := old(queues[priority]) + [(priority, item)]]
    {
      LinkedPush(bits, queues[..], priority, (priority, item));
      bits := Mark(bits, priority);
      queues[priority] := queues[priority] + [(priority, item)];
    }

    /**
     * `dequeue`: None exactly when no level holds items; otherwise the front of the highest
     * non-empty level, 63 - leading_zeros(bits), whose bit is cleared when its FIFO runs empty.
     */
    method Dequeue() returns (r: Option<(Priority, I)>)
      requires Valid()
      modifies this, queues
      ensures Valid() && queues == old(queues)
      ensures r.None? <==> old(bits) == Zero()
      ensures r.None? <==> forall p: nat | p < NUM :: old(queues[p]) == []
      ensures r.None? ==> bits == old(bits) && queues[..] == old(queues[..])
      ensures r.Some? ==>
                var h := MAX - LeadingZeros(old(bits));
                && old(queues[h]) != []
                && (forall p: nat | h < p < NUM :: old(queues[p]) == [])
                && r.value == old(queues[h])[0]
                && queues[..] == old(queues[..])[h := old(queues[h])[1..]]
    {
      LinkedEmpty(bits, queues[..]);
      if bits == Zero() {
        return None;
      }
      var h: Priority := MAX - LeadingZeros(bits);
      LinkedTop(bits, queues[..]);
      LinkedPop(bits, queues[..], h);
      var front := queues[h][0];
      queues[h] := queues[h][1..];
      if queues[h] == [] {
        bits := Unmark(bits, h);
      }
      r := Some(front);
    }
  }

  /** Two items enqueued at the same level leave in the order they came. */
  method EqualPriorityFifo<I>(priority: Priority, a: I, b: I) returns (first: Option<(Priority, I)>, second: Option<(Priority, I)>)
    ensures first == Some((priority, a)) && second == Some((priority, b))
  {
    var q := new FastPriorityQueue<I>();
    q.Enqueue(priority, a);
    q.Enqueue(priority, b);
    first := q.Dequeue();
    second := q.Dequeue();
  }

  /** A higher level is served before a lower one, whatever the order of arrival. */
  method HigherLevelFirst<I>(low: Priority, high: Priority, a: I, b: I) returns (first: Option<(Priority, I)>)
    requires low < high
    ensures first == Some((high, b))
  {
    var q := new FastPriorityQueue<I>();
    q.Enqueue(low, a);
    q.Enqueue(high, b);
    first := q.Dequeue();
  }
}
