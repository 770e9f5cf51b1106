/**
 * The per-CPU runtime of kern/modules/multitask/src/runtime.rs: the inspector registry and
 * round-robin queue, the runtime status, and the static schedule table with its cursor.
 * Inspectors are represented by their identifiers; time is a `Duration` in nanoseconds.
 */
module Runtime {
  import opened Wrappers
  import opened Errors

  type InspectorId = nat

  /** A `RuntimeSchedTableEntry`. */
  datatype SchedEntry = SchedEntry(inspector: InspectorId, offset: nat, period: nat, duration: nat)

  // ---------------------------------------------------------------------------
  // Sorting by offset

  /** Offsets never decrease along the table. */
  predicate SortedByOffset(t: seq<SchedEntry>) {
    forall i | 0 <= i < |t| - 1 :: t[i].offset <= t[i + 1].offset
  }

  /** Put `e` in front of the first entry whose offset is not below its own. */
  function InsertByOffset(e: SchedEntry, t: seq<SchedEntry>): (r: seq<SchedEntry>)
    ensures r != [] && (r[0] == e || (t != [] && r[0] == t[0]))
  {
    if t == [] then [e]
    else if e.offset <= t[0].offset then [e] + t
    else [t[0]] + InsertByOffset(e, t[1..])
  }

  lemma {:induction false} InsertSorted(e: SchedEntry, t: seq<SchedEntry>)
    requires SortedByOffset(t)
    ensures SortedByOffset(InsertByOffset(e, t))
  {
    if t != [] && e.offset > t[0].offset {
      InsertSorted(e, t[1..]);
      var r := InsertByOffset(e, t);
      var rest := InsertByOffset(e, t[1..]);
      assert r == [t[0]] + rest;
      forall i | 0 <= i < |r| - 1
        ensures r[i].offset <= r[i + 1].offset
      {
        if i > 0 {
          assert r[i] == rest[i - 1] && r[i + 1] == rest[i];
        }
      }
    }
  }

  lemma {:induction false} InsertPermutes(e: SchedEntry, t: seq<SchedEntry>)
    ensures multiset(InsertByOffset(e, t)) == multiset(t) + multiset{e}
  {
    if t != [] {
      assert t == [t[0]] + t[1..];
      if e.offset > t[0].offset {
        InsertPermutes(e, t[1..]);
      }
    }
  }

  /**
   * `sort_unstable_by_key(|entry| entry.offset)`: the entries rearranged in order of
   * offset (entries of equal offset keep their order here).
   */
  function SortByOffset(t: seq<SchedEntry>): (r: seq<SchedEntry>)
    ensures SortedByOffset(r)
    ensures multiset(r) == multiset(t)
  {
    if t == [] then []
    else
      var rest := SortByOffset(t[1..]);
      InsertSorted(t[0], rest);
      InsertPermutes(t[0], rest);
      assert t == [t[0]] + t[1..];
      InsertByOffset(t[0], rest)
  }

  // ---------------------------------------------------------------------------
  // `valid`

  /** Every window starts inside the major frame. */
  predicate Bounded(frame: nat, t: seq<SchedEntry>) {
    forall i | 0 <= i < |t| :: t[i].offset < frame
  }

  /** Each window ends no later than the next one starts. */
  predicate Chained(t: seq<SchedEntry>) {
    forall i | 0 <= i < |t| - 1 :: t[i].offset + t[i].duration <= t[i + 1].offset
  }

  /** All entries of one inspector agree on period and duration. */
  predicate Uniform(t: seq<SchedEntry>) {
    forall i, j | 0 <= i < |t| && 0 <= j < |t| && t[i].inspector == t[j].inspector ::
      t[i].period == t[j].period && t[i].duration == t[j].duration
  }

  /** The entries of inspector `id`, in table order. */
  function Group(t: seq<SchedEntry>, id: InspectorId): (r: seq<SchedEntry>)
    ensures |r| <= |t|
  {
    if t == [] then []
    else (if t[0].inspector == id then [t[0]] else []) + Group(t[1..], id)
  }

  /** The time from a window at offset `a` to the next one at offset `b`, wrapping by the frame. */
  function Gap(frame: nat, a: nat, b: nat): int {
    if b <= a then b + frame - a else b - a
  }

  /** The gap after the k-th window of `g`: to the next window, or round to the first. */
  function GapAt(frame: nat, g: seq<SchedEntry>, k: nat): int
    requires k < |g|
  {
    Gap(frame, g[k].offset, if k + 1 < |g| then g[k + 1].offset else g[0].offset)
  }

  /** Each window of `g` is followed, cyclically, by the next one exactly one period later. */
  predicate Cyclic(frame: nat, g: seq<SchedEntry>) {
    forall k | 0 <= k < |g| :: GapAt(frame, g, k) == g[k].period
  }

  /** Every inspector's windows recur at its period. */
  predicate Periodic(frame: nat, t: seq<SchedEntry>) {
    forall i | 0 <= i < |t| :: Cyclic(frame, Group(t, t[i].inspector))
  }

  /**
   * `RuntimeSchedTable::valid`. The third check of the source runs over the table sorted
   * by (inspector, offset); once `Chained` holds the table is already in offset order, so
   * each inspector's entries in table order have the same offsets, and by `Uniform` the
   * same periods, as that sorted group.
   */
  predicate Valid(frame: nat, t: seq<SchedEntry>) {
    Bounded(frame, t) && Chained(t) && Uniform(t) && Periodic(frame, t)
  }

  // ---------------------------------------------------------------------------
  // What a valid table guarantees

  /** No offset of `t` is below `b`. */
  ghost predicate Floor(t: seq<SchedEntry>, b: nat) {
    forall i | 0 <= i < |t| :: b <= t[i].offset
  }

  /** Offsets strictly increase along `g`. */
  ghost predicate Increasing(g: seq<SchedEntry>) {
    forall k | 0 <= k < |g| - 1 :: g[k].offset < g[k + 1].offset
  }

  /** A chained table is sorted: no entry has an offset below the first one's. */
  lemma {:induction false} ChainedFloor(t: seq<SchedEntry>)
    requires Chained(t) && t != []
    ensures Floor(t, t[0].offset)
  {
    if |t| > 1 {
      ChainedFloor(t[1..]);
      forall i | 1 <= i < |t|
        ensures t[0].offset <= t[i].offset
      {
        assert t[i] == t[1..][i - 1];
      }
    }
  }

  /** An inspector's entries keep any floor of the table. */
  lemma {:induction false} GroupFloor(t: seq<SchedEntry>, id: InspectorId, b: nat)
    requires Floor(t, b)
    ensures Floor(Group(t, id), b)
  {
    if t != [] {
      GroupFloor(t[1..], id, b);
    }
  }

  /** The entries of inspector `id` carry what every such entry of the table carries. */
  lemma {:induction false} GroupShares(t: seq<SchedEntry>, id: InspectorId, frame: nat, p: nat, d: nat)
    requires forall i | 0 <= i < |t| && t[i].inspector == id :: t[i].offset < frame && t[i].period == p && t[i].duration == d
    ensures forall k | 0 <= k < |Group(t, id)| ::
              Group(t, id)[k].offset < frame && Group(t, id)[k].period == p && Group(t, id)[k].duration == d
  {
    if t != [] {
      GroupShares(t[1..], id, frame, p, d);
      var g := Group(t, id);
      var rest := Group(t[1..], id);
      if t[0].inspector == id {
        assert g == [t[0]] + rest;
        forall k | 1 <= k < |g|
          ensures g[k].offset < frame && g[k].period == p && g[k].duration == d
        {
          assert g[k] == rest[k - 1];
        }
      } else {
        assert g == rest;
      }
    }
  }

  /** An inspector that owns some entry has a non-empty group. */
  lemma {:induction false} GroupNonEmpty(t: seq<SchedEntry>, i: nat)
    requires i < |t|
    ensures Group(t, t[i].inspector) != []
  {
    if i > 0 && t[0].inspector != t[i].inspector {
      GroupNonEmpty(t[1..], i - 1);
    }
  }

  /** When an inspector's windows have positive duration, its offsets strictly increase. */
  lemma {:induction false} GroupIncreasing(t: seq<SchedEntry>, id: InspectorId)
    requires Chained(t)
    requires forall i | 0 <= i < |t| && t[i].inspector == id :: t[i].duration > 0
    ensures Increasing(Group(t, id))
  {
    if t != [] {
      var rest := Group(t[1..], id);
      GroupIncreasing(t[1..], id);
      if t[0].inspector == id && rest != [] {
        ChainedFloor(t[1..]);
        GroupFloor(t[1..], id, t[1].offset);
        var g := Group(t, id);
        assert g == [t[0]] + rest;
        forall k | 0 <= k < |g| - 1
          ensures g[k].offset < g[k + 1].offset
        {
          if k > 0 {
            assert g[k] == rest[k - 1] && g[k + 1] == rest[k];
          }
        }
      }
    }
  }

  /** The gaps of the first k windows of `g`. */
  ghost function GapSum(frame: nat, g: seq<SchedEntry>, k: nat): int
    requires k <= |g|
  {
    if k == 0 then 0 else GapSum(frame, g, k - 1) + GapAt(frame, g, k - 1)
  }

  /** Along strictly increasing offsets the gaps telescope. */
  lemma {:induction false} GapSumTelescopes(frame: nat, g: seq<SchedEntry>, k: nat)
    requires 0 < k < |g| && Increasing(g)
    ensures GapSum(frame, g, k) == g[k].offset - g[0].offset
    ensures g[0].offset < g[k].offset
  {
    if k > 1 {
      GapSumTelescopes(frame, g, k - 1);
    }
  }

  /** Gaps that all equal the period add up to k periods. */
  lemma {:induction false} GapSumPeriods(frame: nat, g: seq<SchedEntry>, k: nat, p: nat)
    requires k <= |g| && forall j | 0 <= j < |g| :: GapAt(frame, g, j) == p
    ensures GapSum(frame, g, k) == k * p
  {
    if k > 0 {
      GapSumPeriods(frame, g, k - 1, p);
      assert GapSum(frame, g, k) == (k - 1) * p + p;
    }
  }

  /** Going once round strictly increasing offsets inside the frame takes exactly one frame. */
  lemma RoundIsFrame(frame: nat, g: seq<SchedEntry>)
    requires g != [] && Increasing(g) && forall j | 0 <= j < |g| :: g[j].offset < frame
    ensures GapSum(frame, g, |g|) == frame
  {
    if |g| > 1 {
      GapSumTelescopes(frame, g, |g| - 1);
    }
  }

  /**
   * In a valid table an inspector with windows of positive duration is served a whole
   * number of times per major frame: its count of entries times its period is the frame.
   */
  lemma FramePeriods(frame: nat, t: seq<SchedEntry>, i: nat)
    requires Valid(frame, t) && i < |t| && t[i].duration > 0
    ensures |Group(t, t[i].inspector)| * t[i].period == frame
  {
    var id := t[i].inspector;
    var g := Group(t, id);
    GroupShares(t, id, frame, t[i].period, t[i].duration);
    GroupIncreasing(t, id);
    GroupNonEmpty(t, i);
    RoundIsFrame(frame, g);
    assert Cyclic(frame, g);
    GapSumPeriods(frame, g, |g|, t[i].period);
  }

  // ---------------------------------------------------------------------------
  // The cursor of `sched_next`

  /** The (next, datum) cursor after one call on a table of n entries. */
  function Advance(n: nat, frame: nat, next: nat, datum: nat): (r: (nat, nat))
    requires next < n
    ensures r.0 < n
    ensures r.0 == 0 <==> next + 1 == n
    ensures next + 1 == n ==> r == (0, datum + frame)
    ensures next + 1 < n ==> r == (next + 1, datum)
  {
    if next + 1 >= n then (0, datum + frame) else (next + 1, datum)
  }

  /** The next k entries served from the cursor, each with the time its window opens. */
  function Serve(t: seq<SchedEntry>, frame: nat, next: nat, datum: nat, k: nat): (r: seq<(SchedEntry, nat)>)
    requires next < |t|
    ensures |r| == k
    decreases k
  {
    if k == 0 then []
    else
      var (n', d') := Advance(|t|, frame, next, datum);
      [(t[next], datum + t[next].offset)] + Serve(t, frame, n', d', k - 1)
  }

  /** From entry `next` to the end of the table, each entry opens at datum + offset. */
  lemma {:induction false} ServeRound(t: seq<SchedEntry>, frame: nat, next: nat, datum: nat)
    requires next < |t|
    ensures forall j | next <= j < |t| ::
              Serve(t, frame, next, datum, |t| - next)[j - next] == (t[j], datum + t[j].offset)
    decreases |t| - next
  {
    if next + 1 < |t| {
      ServeRound(t, frame, next + 1, datum);
      var r := Serve(t, frame, next, datum, |t| - next);
      var rest := Serve(t, frame, next + 1, datum, |t| - next - 1);
      assert r == [(t[next], datum + t[next].offset)] + rest;
      forall j | next + 1 <= j < |t|
        ensures r[j - next] == (t[j], datum + t[j].offset)
      {
        assert r[j - next] == rest[j - (next + 1)];
      }
    }
  }

  /** A bounded, chained table opens its windows in time order, across frame boundaries too. */
  lemma {:induction false} ServeOrdered(t: seq<SchedEntry>, frame: nat, next: nat, datum: nat, k: nat)
    requires Bounded(frame, t) && Chained(t) && next < |t|
    ensures forall j | 0 <= j < k - 1 :: Serve(t, frame, next, datum, k)[j].1 <= Serve(t, frame, next, datum, k)[j + 1].1
    decreases k
  {
    if k > 1 {
      var (n', d') := Advance(|t|, frame, next, datum);
      ServeOrdered(t, frame, n', d', k - 1);
      var r := Serve(t, frame, next, datum, k);
      var rest := Serve(t, frame, n', d', k - 1);
      assert r == [(t[next], datum + t[next].offset)] + rest;
      assert rest[0].1 == d' + t[n'].offset;
      assert r[0].1 <= r[1].1;
      forall j | 1 <= j < |r| - 1
        ensures r[j].1 <= r[j + 1].1
      {
        assert r[j] == rest[j - 1] && r[j + 1] == rest[j];
      }
    }
  }

  class SchedTable {
    const frameSize: nat
    const table: seq<SchedEntry>
    var next: nat
    var datum: nat

    /** The cursor stays inside the table. */
    ghost predicate Valid()
      reads this`next
    {
      next == 0 || next < |table|
    }

    /** The table as `new` builds it: cursor at the first entry, datum zero. */
    constructor (frame: nat, t: seq<SchedEntry>)
      ensures frameSize == frame && table == t && next == 0 && datum == 0 && Valid()
    {
      frameSize := frame;
      table := t;
      next := 0;
      datum := 0;
    }

    /** `start`: the datum becomes the current time, given here as `now`. */
    method Start(now: nat)
      modifies this`datum
      ensures datum == now
    {
      datum := now;
    }

    /**
     * `sched_next`: serve the entry under the cursor and step it; after the last entry the
     * cursor goes back to the first and the datum moves on by one major frame.
     */
    method SchedNext() returns (e: SchedEntry)
      requires Valid() && table != []
      modifies this`next, this`datum
      ensures Valid()
      ensures [(e, old(datum) + e.offset)] == Serve(table, frameSize, old(next), old(datum), 1)
      ensures (next, datum) == Advance(|table|, frameSize, old(next), old(datum))
    {
      e := table[next];
      next := next + 1;
      if next >= |table| {
        next := 0;
        datum := datum + frameSize;
      }
    }
  }

  /**
   * `RuntimeSchedTable::new`: sort the entries by offset and refuse a table that is not
   * valid.
   */
  method NewSchedTable(frame: nat, entries: seq<SchedEntry>) returns (r: Result<SchedTable, InternalError>)
    ensures r.Ok? <==> Valid(frame, SortByOffset(entries))
    ensures r.Err? ==> r.error == InvalidRuntimeSchedTable
    ensures r.Ok? ==> && fresh(r.value) && r.value.Valid()
                      && r.value.frameSize == frame && r.value.table == SortByOffset(entries)
                      && r.value.next == 0 && r.value.datum == 0
  {
    var t := SortByOffset(entries);
    if !Valid(frame, t) {
      return Err(InvalidRuntimeSchedTable);
    }
    var table := new SchedTable(frame, t);
    return Ok(table);
  }

  // ---------------------------------------------------------------------------
  // The runtime

  datatype RuntimeStatus = Unused | Init | Idle | Running(id: InspectorId) | Endpoint

  /** Some entry of the table belongs to inspector `id`. */
  predicate Listed(t: seq<SchedEntry>, id: InspectorId) {
    exists e | e in t :: e.inspector == id
  }

  /** `queue.retain(...)`: the queue without the inspectors the table lists. */
  function Unlisted(queue: seq<InspectorId>, t: seq<SchedEntry>): (r: seq<InspectorId>)
    ensures forall id :: multiset(r)[id] == if Listed(t, id) then 0 else multiset(queue)[id]
  {
    if queue == [] then []
    else
      assert queue == [queue[0]] + queue[1..];
      (if Listed(t, queue[0]) then [] else [queue[0]]) + Unlisted(queue[1..], t)
  }

  /** What stays queued was queued before and is not listed by the table. */
  lemma UnlistedMembers(queue: seq<InspectorId>, t: seq<SchedEntry>)
    ensures forall id | id in Unlisted(queue, t) :: id in queue && !Listed(t, id)
  {
    forall id | id in Unlisted(queue, t)
      ensures id in queue && !Listed(t, id)
    {
      assert multiset(Unlisted(queue, t))[id] > 0;
    }
  }

  class Runtime {
    var registry: set<InspectorId>
    var queue: seq<InspectorId>
    var schedTable: Option<SchedTable>
    var status: RuntimeStatus

    /**
     * Every queued inspector is registered. `new`, `enact_sched_table`, `register`, `pop_front` and
     * `push_back` keep this; `unregister` may break it, since it leaves the id in the queue.
     */
    ghost predicate Valid()
      reads this
    {
      forall id | id in queue :: id in registry
    }

    /** `Runtime::new`: nothing registered, no table, status Unused. */
    constructor ()
      ensures registry == {} && queue == [] && schedTable == None && status == Unused && Valid()
    {
      registry := {};
      queue := [];
      schedTable := None;
      status := Unused;
    }

    /** `init` */
    method Init()
      modifies this`status
      ensures status == RuntimeStatus.Init
    {
      status := RuntimeStatus.Init;
    }

    /**
     * `enact_sched_table`: refused while a table is in force; otherwise every inspector
     * the table lists leaves the round-robin queue and the table takes effect.
     */
    method EnactSchedTable(table: SchedTable) returns (r: Result<(), InternalError>)
      modifies this`queue, this`schedTable
      ensures old(Valid()) ==> Valid()
      ensures old(schedTable).Some? ==>
                r == Err(DuplicateRuntimeSchedTable) && queue == old(queue) && schedTable == old(schedTable)
      ensures old(schedTable).None? ==>
                r == Ok(()) && queue == Unlisted(old(queue), table.table) && schedTable == Some(table)
      ensures old(schedTable).None? ==> forall id | id in queue :: !Listed(table.table, id)
    {
      if schedTable.Some? {
        return Err(DuplicateRuntimeSchedTable);
      }
      UnlistedMembers(queue, table.table);
      queue := Unlisted(queue, table.table);
      schedTable := Some(table);
      return Ok(());
    }

    /** `revoke_sched_table`: hand back the table in force, if any. */
    method RevokeSchedTable() returns (r: Result<SchedTable, InternalError>)
      modifies this`schedTable
      ensures old(schedTable).None? ==> r == Err(InvalidRuntimeSchedTable) && schedTable == None
      ensures old(schedTable).Some? ==> r == Ok(old(schedTable).value) && schedTable == None
    {
      if schedTable.None? {
        return Err(InvalidRuntimeSchedTable);
      }
      r := Ok(schedTable.value);
      schedTable := None;
    }

    /** `register`: a new inspector is recorded and queued at the back. */
    method Register(id: InspectorId) returns (r: Result<(), InternalError>)
      modifies this`registry, this`queue
      ensures old(Valid()) ==> Valid()
      ensures id in old(registry) ==>
                r == Err(DuplicateInspectorId) && registry == old(registry) && queue == old(queue)
      ensures id !in old(registry) ==>
                r == Ok(()) && registry == old(registry) + {id} && queue == old(queue) + [id]
    {
      if id in registry {
        return Err(DuplicateInspectorId);
      }
      registry := registry + {id};
      queue := queue + [id];
      return Ok(());
    }

    /** `unregister`: forget a registered inspector (its queue slots are left as they are). */
    method Unregister(id: InspectorId) returns (r: Result<(), InternalError>)
      modifies this`registry
      ensures id !in old(registry) ==> r == Err(InvalidInspectorId) && registry == old(registry)
      ensures id in old(registry) ==> r == Ok(()) && registry == old(registry) - {id}
    {
      if id !in registry {
        return Err(InvalidInspectorId);
      }
      registry := registry - {id};
      return Ok(());
    }

    /** `pop_front`: the inspector at the head of the queue, if any. */
    method PopFront() returns (r: Option<InspectorId>)
      modifies this`queue
      ensures old(Valid()) ==> Valid()
      ensures old(queue) == [] ==> r == None && queue == []
      ensures old(queue) != [] ==> r == Some(old(queue)[0]) && queue == old(queue)[1..]
    {
      if queue == [] {
        return None;
      }
      r := Some(queue[0]);
      queue := queue[1..];
    }

    /** `push_back`: requeue a registered inspector at the back. */
    method PushBack(id: InspectorId) returns (r: Result<(), InternalError>)
      modifies this`queue
      ensures old(Valid()) ==> Valid()
      ensures id !in registry ==> r == Err(InvalidInspectorId) && queue == old(queue)
      ensures id in registry ==> r == Ok(()) && queue == old(queue) + [id]
    {
      if id !in registry {
        return Err(InvalidInspectorId);
      }
      queue := queue + [id];
      return Ok(());
    }

    /** `set_current_inspector`: running the given inspector, or idle. */
    method SetCurrentInspector(id: Option<InspectorId>)
      modifies this`status
      ensures status == if id.Some? then Running(id.value) else Idle
    {
      if id.Some? {
        match status {
          case Running(_) => status := status.(id := id.value);
          case _ => status := Running(id.value);
        }
      } else {
        status := Idle;
      }
    }
  }

  /** Inspectors registered one after another are served round-robin in that order. */
  method RoundRobin(a: InspectorId, b: InspectorId) returns (first: Option<InspectorId>, second: Option<InspectorId>, again: Option<InspectorId>)
    requires a != b
    ensures first == Some(a) && second == Some(b) && again == Some(a)
  {
    var rt := new Runtime();
    var _ := rt.Register(a);
    var _ := rt.Register(b);
    first := rt.PopFront();
    var _ := rt.PushBack(a);
    second := rt.PopFront();
    again := rt.PopFront();
  }
}
