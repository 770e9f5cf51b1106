/**
 * The interval sweep of kern/modules/util/src/interval.rs. Every added bound contributes a
 * +1 event at its start and a -1 event at its end; every subtracted bound contributes
 * -INFINITY and +INFINITY. The iterator walks the events in position order, with equal
 * positions collapsed into one summed delta, and yields [l, p) where the running sum rises
 * above 0 at l and falls back to at most 0 at p.
 */
module Interval {
  import opened Wrappers

  /** `INFINITY`, `i16::MAX`. */
  const INFINITY: int := 32767

  datatype Bound = Bound(start: nat, len: nat)

  /** An event: a position and the change of the running sum there. */
  type Event = (nat, int)

  // ---------------------------------------------------------------------------
  // Events

  /** The events `new` collects: (start, 1) and (start + len, -1) for each bound, in order. */
  function Events(bounds: seq<Bound>): (es: seq<Event>)
    ensures |es| == 2 * |bounds|
    ensures forall i | 0 <= i < |bounds| ::
              es[2 * i] == (bounds[i].start, 1) && es[2 * i + 1] == (bounds[i].start + bounds[i].len, -1)
  {
    if bounds == [] then []
    else [(bounds[0].start, 1), (bounds[0].start + bounds[0].len, -1)] + Events(bounds[1..])
  }

  /** The events `-=` pushes for a subtracted bound. */
  function SubEvents(b: Bound): seq<Event> {
    [(b.start, -INFINITY), (b.start + b.len, INFINITY)]
  }

  /** The sum of the deltas at positions up to and including `x`: the running sum just after `x`. */
  function SumUpTo(es: seq<Event>, x: int): int {
    if es == [] then 0
    else (if es[0].0 <= x then es[0].1 else 0) + SumUpTo(es[1..], x)
  }

  /** The sum of the deltas at position `x` exactly. */
  function DeltaAt(es: seq<Event>, x: int): int {
    if es == [] then 0
    else (if es[0].0 == x then es[0].1 else 0) + DeltaAt(es[1..], x)
  }

  /** The sum of all deltas. */
  function Total(es: seq<Event>): int {
    if es == [] then 0 else es[0].1 + Total(es[1..])
  }

  /** How many of `bounds` contain `x`. */
  function CountCover(bounds: seq<Bound>, x: int): nat {
    if bounds == [] then 0
    else (if bounds[0].start <= x < bounds[0].start + bounds[0].len then 1 else 0) + CountCover(bounds[1..], x)
  }

  lemma CountCoverAtMost(bounds: seq<Bound>, x: int)
    ensures CountCover(bounds, x) <= |bounds|
  {
  }

  lemma {:induction false} SumUpToAppend(a: seq<Event>, b: seq<Event>, x: int)
    ensures SumUpTo(a + b, x) == SumUpTo(a, x) + SumUpTo(b, x)
  {
    if a != [] {
      assert (a + b)[0] == a[0];
      assert (a + b)[1..] == a[1..] + b;
      SumUpToAppend(a[1..], b, x);
    } else {
      assert a + b == b;
    }
  }

  lemma {:induction false} TotalAppend(a: seq<Event>, b: seq<Event>)
    ensures Total(a + b) == Total(a) + Total(b)
  {
    if a != [] {
      assert (a + b)[0] == a[0];
      assert (a + b)[1..] == a[1..] + b;
      TotalAppend(a[1..], b);
    } else {
      assert a + b == b;
    }
  }

  /** The running sum of the added bounds' events at `x` counts the bounds containing `x`. */
  lemma {:induction false} EventsSum(bounds: seq<Bound>, x: int)
    ensures SumUpTo(Events(bounds), x) == CountCover(bounds, x)
    ensures Total(Events(bounds)) == 0
  {
    if bounds != [] {
      var b := bounds[0];
      var head: seq<Event> := [(b.start, 1), (b.start + b.len, -1)];
      EventsSum(bounds[1..], x);
      SumUpToAppend(head, Events(bounds[1..]), x);
      TotalAppend(head, Events(bounds[1..]));
      assert SumUpTo(head, x) == if b.start <= x < b.start + b.len then 1 else 0 by {
        assert head[1..][1..] == [];
      }
      assert Total(head) == 0 by {
        assert head[1..][1..] == [];
      }
    }
  }

  /** The events pushed for subtracted bounds subtract INFINITY for each bound containing `x`. */
  lemma {:induction false} SubEventsSum(subs: seq<Bound>, x: int)
    ensures SumUpTo(AllSubEvents(subs), x) == -INFINITY * CountCover(subs, x)
    ensures Total(AllSubEvents(subs)) == 0
  {
    if subs != [] {
      var head: seq<Event> := SubEvents(subs[0]);
      SubEventsSum(subs[1..], x);
      SumUpToAppend(head, AllSubEvents(subs[1..]), x);
      TotalAppend(head, AllSubEvents(subs[1..]));
      assert head[1..][1..] == [];
    }
  }

  /** The events of a sequence of `-=` calls, in call order. */
  function AllSubEvents(subs: seq<Bound>): seq<Event> {
    if subs == [] then [] else SubEvents(subs[0]) + AllSubEvents(subs[1..])
  }

  // ---------------------------------------------------------------------------
  // Sorting and collapsing equal positions

  /** Positions strictly increase. */
  ghost predicate Increasing(cs: seq<Event>) {
    forall i, j | 0 <= i < j < |cs| :: cs[i].0 < cs[j].0
  }

  /** Every position is above `b`. */
  ghost predicate Above(cs: seq<Event>, b: int) {
    forall i | 0 <= i < |cs| :: b < cs[i].0
  }

  /** The positions that occur. */
  function Positions(es: seq<Event>): set<nat> {
    set i | 0 <= i < |es| :: es[i].0
  }

  /** Add one event into a position-ordered list of summed deltas. */
  function Absorb(cs: seq<Event>, e: Event): seq<Event> {
    if cs == [] then [e]
    else if cs[0].0 == e.0 then [(e.0, cs[0].1 + e.1)] + cs[1..]
    else if e.0 < cs[0].0 then [e] + cs
    else [cs[0]] + Absorb(cs[1..], e)
  }

  /**
   * `sort_unstable`, `chunk_by` on equal positions and the per-chunk sum: one entry per
   * position that occurs, in increasing order, carrying the sum of the deltas there.
   * The result is built by absorbing the events one at a time; `CollapseSpec` states that it
   * is the list the sort-and-chunk pipeline produces.
   */
  function Collapse(es: seq<Event>): seq<Event> {
    if es == [] then [] else Absorb(Collapse(es[1..]), es[0])
  }

  lemma {:induction false} AbsorbAbove(cs: seq<Event>, e: Event, b: int)
    requires Above(cs, b) && b < e.0
    ensures Above(Absorb(cs, e), b)
  {
    if cs != [] && cs[0].0 != e.0 && e.0 >= cs[0].0 {
      AbsorbAbove(cs[1..], e, b);
    }
  }

  lemma {:induction false} AbsorbIncreasing(cs: seq<Event>, e: Event)
    requires Increasing(cs)
    ensures Increasing(Absorb(cs, e))
  {
    if cs != [] && cs[0].0 != e.0 && e.0 >= cs[0].0 {
      AbsorbIncreasing(cs[1..], e);
      AbsorbAbove(cs[1..], e, cs[0].0);
    }
  }

  lemma {:induction false} AbsorbSums(cs: seq<Event>, e: Event, x: int)
    ensures SumUpTo(Absorb(cs, e), x) == SumUpTo(cs, x) + (if e.0 <= x then e.1 else 0)
    ensures DeltaAt(Absorb(cs, e), x) == DeltaAt(cs, x) + (if e.0 == x then e.1 else 0)
    ensures Total(Absorb(cs, e)) == Total(cs) + e.1
  {
    if cs != [] && cs[0].0 != e.0 && e.0 >= cs[0].0 {
      AbsorbSums(cs[1..], e, x);
    }
  }

  lemma {:induction false} PositionsCons(e: Event, es: seq<Event>)
    ensures Positions([e] + es) == {e.0} + Positions(es)
  {
    var r := [e] + es;
    assert r[0].0 == e.0;
    forall p | p in Positions(es) ensures p in Positions(r) {
      var i :| 0 <= i < |es| && es[i].0 == p;
      assert r[i + 1].0 == p;
    }
    forall p | p in Positions(r) ensures p in {e.0} + Positions(es) {
      var i :| 0 <= i < |r| && r[i].0 == p;
      if i > 0 {
        assert es[i - 1].0 == p;
      }
    }
  }

  lemma {:induction false} AbsorbPositions(cs: seq<Event>, e: Event)
    ensures Positions(Absorb(cs, e)) == Positions(cs) + {e.0}
  {
    if cs == [] {
      PositionsCons(e, []);
      assert [e] + [] == [e];
    } else {
      assert cs == [cs[0]] + cs[1..];
      PositionsCons(cs[0], cs[1..]);
      if cs[0].0 == e.0 {
        PositionsCons((e.0, cs[0].1 + e.1), cs[1..]);
      } else if e.0 < cs[0].0 {
        PositionsCons(e, cs);
      } else {
        AbsorbPositions(cs[1..], e);
        PositionsCons(cs[0], Absorb(cs[1..], e));
      }
    }
  }

  /** At an entry of an increasing list, the delta at its position is the entry's own. */
  lemma {:induction false} DeltaAtEntry(cs: seq<Event>, i: nat)
    requires Increasing(cs) && i < |cs|
    ensures DeltaAt(cs, cs[i].0) == cs[i].1
  {
    if i == 0 {
      DeltaAtAbove(cs[1..], cs[0].0);
    } else {
      DeltaAtEntry(cs[1..], i - 1);
    }
  }

  lemma {:induction false} DeltaAtAbove(cs: seq<Event>, x: int)
    requires Above(cs, x)
    ensures DeltaAt(cs, x) == 0
  {
    if cs != [] {
      DeltaAtAbove(cs[1..], x);
    }
  }

  /**
   * `into_iter` before the walk: one entry per position that occurs, positions strictly
   * increasing, each carrying the sum of the deltas at its position; running sums and the
   * total are those of the uncollapsed events.
   */
  lemma {:induction false} CollapseSpec(es: seq<Event>)
    ensures var cs := Collapse(es);
            && Increasing(cs)
            && Positions(cs) == Positions(es)
            && (forall i | 0 <= i < |cs| :: cs[i].1 == DeltaAt(es, cs[i].0))
            && (forall x :: SumUpTo(cs, x) == SumUpTo(es, x))
            && Total(cs) == Total(es)
  {
    var cs := Collapse(es);
    if es != [] {
      var rest := Collapse(es[1..]);
      CollapseSpec(es[1..]);
      AbsorbIncreasing(rest, es[0]);
      AbsorbPositions(rest, es[0]);
      PositionsCons(es[0], es[1..]);
      assert es == [es[0]] + es[1..];
      forall x
        ensures SumUpTo(cs, x) == SumUpTo(es, x) && DeltaAt(cs, x) == DeltaAt(es, x)
      {
        AbsorbSums(rest, es[0], x);
        CollapseDelta(es[1..], x);
      }
      AbsorbSums(rest, es[0], 0);
      forall i | 0 <= i < |cs|
        ensures cs[i].1 == DeltaAt(es, cs[i].0)
      {
        DeltaAtEntry(cs, i);
      }
    }
  }

  lemma {:induction false} CollapseDelta(es: seq<Event>, x: int)
    ensures DeltaAt(Collapse(es), x) == DeltaAt(es, x)
  {
    if es != [] {
      CollapseDelta(es[1..], x);
      AbsorbSums(Collapse(es[1..]), es[0], x);
    }
  }

  // ---------------------------------------------------------------------------
  // The walk

  /** The state and events a walk starts from: in order, with an open interval starting below them. */
  ghost predicate Ready(s: int, l: nat, cs: seq<Event>) {
    Increasing(cs) && (s > 0 && cs != [] ==> l < cs[0].0)
  }

  /**
   * Every interval the iterator yields from running sum `s`, with an interval open since
   * `l` when `s > 0`, over the collapsed events `cs`: successive `next` calls yield this
   * sequence and then None.
   */
  function Walk(s: int, l: nat, cs: seq<Event>): seq<Bound>
    requires Ready(s, l, cs)
    decreases cs
  {
    if cs == [] then []
    else
      var pos := cs[0].0;
      var s' := s + cs[0].1;
      if s <= 0 && s' > 0 then Walk(s', pos, cs[1..])
      else if s > 0 && s' <= 0 then [Bound(l, pos - l)] + Walk(s', 0, cs[1..])
      else Walk(s', l, cs[1..])
  }

  /** `x` lies in one of the intervals. */
  ghost predicate Covered(out: seq<Bound>, x: int) {
    exists i | 0 <= i < |out| :: out[i].start <= x < out[i].start + out[i].len
  }

  lemma CoveredCons(b: Bound, out: seq<Bound>, x: int)
    ensures Covered([b] + out, x) <==> (b.start <= x < b.start + b.len) || Covered(out, x)
  {
    var r := [b] + out;
    assert r[0] == b;
    if Covered(out, x) {
      var i :| 0 <= i < |out| && out[i].start <= x < out[i].start + out[i].len;
      assert r[i + 1] == out[i];
    }
    if Covered(r, x) {
      var i :| 0 <= i < |r| && r[i].start <= x < r[i].start + r[i].len;
      if i > 0 {
        assert out[i - 1] == r[i];
      }
    }
  }

  lemma {:induction false} SumUpToAbove(cs: seq<Event>, x: int)
    requires Above(cs, x)
    ensures SumUpTo(cs, x) == 0
  {
    if cs != [] {
      SumUpToAbove(cs[1..], x);
    }
  }

  /**
   * The walk covers `x` exactly when `x` lies in the interval open since `l`, before the next
   * event, or it is at or after the first event and the running sum just after `x` is positive.
   */
  lemma {:induction false} WalkCovers(s: int, l: nat, cs: seq<Event>, x: int)
    requires Ready(s, l, cs) && s + Total(cs) <= 0
    decreases cs
    ensures s > 0 ==> cs != []
    ensures Covered(Walk(s, l, cs), x) <==>
              (s > 0 && l <= x && x < cs[0].0) || (cs != [] && cs[0].0 <= x && s + SumUpTo(cs, x) > 0)
  {
    if cs == [] {
    } else {
      var pos, d := cs[0].0, cs[0].1;
      var s' := s + d;
      var rest := cs[1..];
      assert Total(cs) == d + Total(rest);
      if x < pos {
        assert Above(rest, x);
        SumUpToAbove(rest, x);
      }
      if rest != [] && x < rest[0].0 {
        assert Above(rest, x);
        SumUpToAbove(rest, x);
      }
      if s <= 0 && s' > 0 {
        WalkCovers(s', pos, rest, x);
      } else if s > 0 && s' <= 0 {
        WalkCovers(s', 0, rest, x);
        CoveredCons(Bound(l, pos - l), Walk(s', 0, rest), x);
      } else {
        WalkCovers(s', l, rest, x);
      }
    }
  }

  /** Every yielded interval starts at or above `b`, is non-empty, and lies strictly before the next. */
  ghost predicate Chain(out: seq<Bound>, b: int) {
    && (forall i | 0 <= i < |out| :: b <= out[i].start && out[i].len > 0)
    && (forall i | 0 <= i < |out| - 1 :: out[i].start + out[i].len < out[i + 1].start)
  }

  lemma {:induction false} WalkChain(s: int, l: nat, cs: seq<Event>, b: int)
    requires Ready(s, l, cs) && (s > 0 ==> b <= l) && (forall i | 0 <= i < |cs| :: b <= cs[i].0)
    ensures Chain(Walk(s, l, cs), b)
    decreases cs
  {
    if cs != [] {
      var pos, s' := cs[0].0, s + cs[0].1;
      var rest := cs[1..];
      if s <= 0 && s' > 0 {
        WalkChain(s', pos, rest, b);
      } else if s > 0 && s' <= 0 {
        if rest == [] {
          assert Walk(s', 0, rest) == [];
        } else {
          WalkChain(s', 0, rest, rest[0].0);
        }
      } else {
        WalkChain(s', l, rest, b);
      }
    }
  }

  // ---------------------------------------------------------------------------
  // The objects

  class ExclusiveIntervals {
    var inner: seq<Event>

    /** `new`: the +1/-1 events of `bounds`; fewer events than INFINITY. */
    constructor (bounds: seq<Bound>)
      requires 2 * |bounds| < INFINITY
      ensures inner == Events(bounds)
    {
      inner := Events(bounds);
    }

    /** `-=`: push the -INFINITY/+INFINITY events of `rhs`. */
    method SubAssign(rhs: Bound)
      modifies this
      ensures inner == old(inner) + SubEvents(rhs)
    {
      inner := inner + [(rhs.start, -INFINITY)];
      inner := inner + [(rhs.start + rhs.len, INFINITY)];
    }

    /** `into_iter`: a walk over the collapsed events, starting from sum 0. */
    method IntoIter() returns (it: ExclusiveIntervalsIter)
      ensures fresh(it) && it.Valid()
      ensures it.sum == 0 && it.rest == Collapse(inner)
    {
      CollapseSpec(inner);
      it := new ExclusiveIntervalsIter(Collapse(inner));
    }
  }

  class ExclusiveIntervalsIter {
    var sum: int
    var rest: seq<Event>

    /** Events in order, and no interval left open while events remain. */
    ghost predicate Valid()
      reads this
    {
      Increasing(rest) && (sum <= 0 || rest == [])
    }

    constructor (events: seq<Event>)
      requires Increasing(events)
      ensures Valid() && sum == 0 && rest == events
    {
      sum := 0;
      rest := events;
    }

    /** `next`: the first interval of the remaining walk; None once the events run out. */
    method Next() returns (r: Option<Bound>)
      requires Valid()
      modifies this
      ensures Valid()
      ensures old(Walk(sum, 0, rest)) == if r.Some? then [r.value] + Walk(sum, 0, rest) else []
      ensures r.None? ==> rest == []
    {
      var left: Option<nat> := None;
      while rest != []
        invariant Increasing(rest)
        invariant left.Some? ==> sum > 0 && Above(rest, left.value)
        invariant sum > 0 ==> left.Some? || rest == []
        invariant old(Walk(sum, 0, rest)) == Walk(sum, if left.Some? then left.value else 0, rest)
        decreases |rest|
      {
        var pos, delta := rest[0].0, rest[0].1;
        rest := rest[1..];
        var old_sum := sum;
        sum := sum + delta;
        if old_sum <= 0 && sum > 0 {
          left := Some(pos);
        } else if old_sum > 0 && sum <= 0 {
          return Some(Bound(left.value, pos - left.value));
        }
      }
      return None;
    }
  }

  /**
   * The whole sweep: with fewer added bounds than INFINITY, the yielded intervals are
   * non-empty, increasing and disjoint, and they cover exactly the points inside some added
   * bound and inside no subtracted bound.
   */
  lemma SweepIsDifference(adds: seq<Bound>, subs: seq<Bound>, x: int)
    requires |adds| < INFINITY
    ensures Increasing(Collapse(Events(adds) + AllSubEvents(subs)))
    ensures var out := Walk(0, 0, Collapse(Events(adds) + AllSubEvents(subs)));
            && Chain(out, 0)
            && (Covered(out, x) <==> CountCover(adds, x) > 0 && CountCover(subs, x) == 0)
  {
    var es := Events(adds) + AllSubEvents(subs);
    var cs := Collapse(es);
    CollapseSpec(es);
    EventsSum(adds, x);
    SubEventsSum(subs, x);
    SumUpToAppend(Events(adds), AllSubEvents(subs), x);
    TotalAppend(Events(adds), AllSubEvents(subs));
    CountCoverAtMost(adds, x);
    WalkCovers(0, 0, cs, x);
    WalkChain(0, 0, cs, 0);
    if cs != [] && x < cs[0].0 {
      assert Above(cs, x);
      SumUpToAbove(cs, x);
    }
  }
}
