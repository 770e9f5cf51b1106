/**
 * The ordered-map priority queue of kern/src/util/priority.rs. The `BTreeMap<P, VecDeque<I>>`
 * is modelled as its entries in increasing key order; `pop` serves the FIFO of the last,
 * that is the greatest, priority (`BTreeMap::pop_last`).
 */
module PriorityMap {
  import opened Wrappers

  type Entry<I> = (int, seq<I>)

  /** Keys strictly increase along the entries, as in a `BTreeMap`. */
  ghost predicate Sorted<I>(es: seq<Entry<I>>) {
    forall i, j | 0 <= i < j < |es| :: es[i].0 < es[j].0
  }

  /** No entry holds an empty FIFO. */
  ghost predicate NoEmptyFifo<I>(es: seq<Entry<I>>) {
    forall i | 0 <= i < |es| :: es[i].1 != []
  }

  /** Every key is above `b`. */
  ghost predicate Above<I>(es: seq<Entry<I>>, b: int) {
    forall i | 0 <= i < |es| :: b < es[i].0
  }

  /** The FIFO stored under key `p`, the empty one when there is none. */
  function Lookup<I>(es: seq<Entry<I>>, p: int): seq<I> {
    if es == [] then []
    else if es[0].0 == p then es[0].1
    else Lookup(es[1..], p)
  }

  /**
   * `entry(p).or_insert_with(VecDeque::new).push_back(item)` on the ordered entries:
   * extend the FIFO of `p`, or put a new one-item FIFO at `p`'s place in the order.
   */
  function Insert<I>(es: seq<Entry<I>>, p: int, item: I): seq<Entry<I>> {
    if es == [] then [(p, [item])]
    else if es[0].0 == p then [(p, es[0].1 + [item])] + es[1..]
    else if p < es[0].0 then [(p, [item])] + es
    else [es[0]] + Insert(es[1..], p, item)
  }

  lemma {:induction false} InsertAbove<I>(es: seq<Entry<I>>, p: int, item: I, b: int)
    requires Above(es, b) && b < p
    ensures Above(Insert(es, p, item), b)
  {
    if es != [] && es[0].0 != p && p >= es[0].0 {
      InsertAbove(es[1..], p, item, b);
    }
  }

  /** Inserting keeps the keys in strictly increasing order. */
  lemma {:induction false} InsertSorted<I>(es: seq<Entry<I>>, p: int, item: I)
    requires Sorted(es)
    ensures Sorted(Insert(es, p, item))
  {
    if es != [] && es[0].0 != p && p >= es[0].0 {
      InsertSorted(es[1..], p, item);
      InsertAbove(es[1..], p, item, es[0].0);
    }
  }

  /** Inserting never creates an empty FIFO. */
  lemma {:induction false} InsertNoEmpty<I>(es: seq<Entry<I>>, p: int, item: I)
    requires NoEmptyFifo(es)
    ensures NoEmptyFifo(Insert(es, p, item))
  {
    if es != [] && es[0].0 != p && p >= es[0].0 {
      InsertNoEmpty(es[1..], p, item);
    }
  }

  lemma {:induction false} LookupAbove<I>(es: seq<Entry<I>>, b: int)
    requires Above(es, b)
    ensures Lookup(es, b) == []
  {
    if es != [] {
      LookupAbove(es[1..], b);
    }
  }

  /**
   * The map view of `add`: the FIFO of `p` gains `item` at its back (starting from the empty
   * FIFO when `p` was absent), and every other priority's FIFO is unchanged.
   */
  lemma {:induction false} InsertLookup<I>(es: seq<Entry<I>>, p: int, item: I, q: int)
    requires Sorted(es)
    ensures Lookup(Insert(es, p, item), q) == if q == p then Lookup(es, p) + [item] else Lookup(es, q)
  {
    if es == [] {
    } else if es[0].0 == p {
    } else if p < es[0].0 {
      if q == p {
        LookupAbove(es, p);
      }
    } else {
      InsertLookup(es[1..], p, item, q);
    }
  }

  /** Skipping a prefix of smaller keys leaves them in front of the insertion. */
  lemma {:induction false} InsertSkip<I>(es: seq<Entry<I>>, p: int, item: I, i: nat)
    requires i <= |es| && forall j | 0 <= j < i :: es[j].0 < p
    ensures Insert(es, p, item) == es[..i] + Insert(es[i..], p, item)
  {
    if i > 0 {
      InsertSkip(es[1..], p, item, i - 1);
      assert es[1..][..i - 1] == es[1..i];
      assert es[1..][i - 1..] == es[i..];
      assert es[..i] == [es[0]] + es[1..i];
    }
  }

  /** Where the loop of `add` stops, `Insert` extends or creates the entry. */
  lemma InsertAt<I>(es: seq<Entry<I>>, p: int, item: I, i: nat)
    requires i <= |es| && (forall j | 0 <= j < i :: es[j].0 < p) && (i < |es| ==> p <= es[i].0)
    ensures Insert(es, p, item) ==
              if i < |es| && es[i].0 == p then es[..i] + [(p, es[i].1 + [item])] + es[i + 1..]
              else es[..i] + [(p, [item])] + es[i..]
  {
    InsertSkip(es, p, item, i);
    if i < |es| {
      assert es[i..][1..] == es[i + 1..];
    }
  }

  /** The last entry holds the greatest key that has items. */
  lemma {:induction false} LastIsGreatest<I>(es: seq<Entry<I>>, q: int)
    requires Sorted(es) && es != [] && Lookup(es, q) != []
    ensures q <= es[|es| - 1].0
  {
    if es[0].0 != q {
      LastIsGreatest(es[1..], q);
    }
  }

  class PriorityQueue<I> {
    var entries: seq<Entry<I>>

    /** Keys in order, no empty FIFO. */
    ghost predicate Valid()
      reads this
    {
      Sorted(entries) && NoEmptyFifo(entries)
    }

    /** `new`: no priority holds items. */
    constructor ()
      ensures Valid() && entries == []
    {
      entries := [];
    }

    /** `add`: append `item` to the FIFO of `priority`, creating the FIFO if absent. */
    method Add(item: I, priority: int)
      requires Valid()
      modifies this
      ensures Valid()
      ensures entries == Insert(old(entries), priority, item)
    {
      var i := 0;
      while i < |entries| && entries[i].0 < priority
        invariant 0 <= i <= |entries|
        invariant forall j | 0 <= j < i :: entries[j].0 < priority
      {
        i := i + 1;
      }
      InsertAt(entries, priority, item, i);
      InsertSorted(entries, priority, item);
      InsertNoEmpty(entries, priority, item);
      if i < |entries| && entries[i].0 == priority {
        entries := entries[..i] + [(priority, entries[i].1 + [item])] + entries[i + 1..];
      } else {
        entries := entries[..i] + [(priority, [item])] + entries[i..];
      }
    }

    /**
     * `pop`: take the last entry out, take its front, and put the remainder back (at the
     * end, where its key belongs) only when it is non-empty; None for an empty map.
     */
    method Pop() returns (r: Option<I>)
      requires Valid()
      modifies this
      ensures Valid()
      ensures r.None? <==> old(entries) == []
      ensures old(entries) == [] ==> entries == []
      ensures old(entries) != [] ==>
                var n := |old(entries)| - 1;
                var (k, q) := old(entries)[n];
                && (forall j | 0 <= j < n :: old(entries)[j].0 < k)
                && r == Some(q[0])
                && entries == old(entries)[..n] + (if q[1..] == [] then [] else [(k, q[1..])])
    {
      if entries == [] {
        return None;
      }
      var n := |entries| - 1;
      var (priority, queue) := entries[n];
      entries := entries[..n];
      var item := queue[0];
      queue := queue[1..];
      if queue != [] {
        entries := entries + [(priority, queue)];
      }
      r := Some(item);
    }
  }

  /** Two items added at one priority come out in the order they were added. */
  method EqualPriorityFifo<I>(p: int, a: I, b: I) returns (first: Option<I>, second: Option<I>, third: Option<I>)
    ensures first == Some(a) && second == Some(b) && third == None
  {
    var pq := new PriorityQueue<I>();
    pq.Add(a, p);
    pq.Add(b, p);
    first := pq.Pop();
    second := pq.Pop();
    third := pq.Pop();
  }

  /** The greater priority is served first, whatever the order of arrival. */
  method GreaterFirst<I>(low: int, high: int, a: I, b: I) returns (first: Option<I>, second: Option<I>)
    requires low < high
    ensures first == Some(b) && second == Some(a)
  {
    var pq := new PriorityQueue<I>();
    pq.Add(a, low);
    pq.Add(b, high);
    first := pq.Pop();
    second := pq.Pop();
  }
}
