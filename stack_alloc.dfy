/**
 * The guarded stack allocator of kern/modules/stack-alloc/src/lib.rs. Stacks are carved
 * upwards from the region base, each preceded by a guard gap; freed stacks are cached per
 * rounded size and reused last-in first-out. The `map`/`unmap` callbacks are parameters,
 * and the addresses they were called with are kept in the logs `mapped` and `unmapped`.
 */
module StackAlloc {
  import opened Wrappers
  import opened Machine
  import opened Errors

  type Callback = nat -> Result<(), InternalError>

  /** The number of iterations of `(0..size).step_by(PAGE_SIZE)`. */
  function PageCount(size: nat): nat {
    (size + PAGE_SIZE - 1) / PAGE_SIZE
  }

  /**
   * Calling `f` under `?` on the `n` pages `base`, `base + PAGE_SIZE`, ...: the addresses it
   * was called with, and the first error, which stops the walk.
   */
  function Walk(base: nat, n: nat, f: Callback): (seq<nat>, Result<(), InternalError>)
    decreases n
  {
    if n == 0 then ([], Ok(()))
    else if f(base).Err? then ([base], f(base))
    else
      var rest := Walk(base + PAGE_SIZE, n - 1, f);
      ([base] + rest.0, rest.1)
  }

  /** The walk succeeds exactly when `f` succeeds on every one of the `n` pages, and then it visited them all. */
  lemma {:induction false} WalkOk(base: nat, n: nat, f: Callback)
    ensures var r := Walk(base, n, f);
            && (r.1.Ok? <==> forall j | 0 <= j < n :: f(base + j * PAGE_SIZE).Ok?)
            && (r.1.Ok? ==> |r.0| == n)
    decreases n
  {
    if n > 0 {
      assert base + 0 * PAGE_SIZE == base;
      if f(base).Ok? {
        WalkOk(base + PAGE_SIZE, n - 1, f);
        var ok := forall j | 0 <= j < n - 1 :: f((base + PAGE_SIZE) + j * PAGE_SIZE).Ok?;
        if ok {
          forall j | 0 <= j < n
            ensures f(base + j * PAGE_SIZE).Ok?
          {
            if j > 0 {
              assert base + j * PAGE_SIZE == (base + PAGE_SIZE) + (j - 1) * PAGE_SIZE;
            }
          }
        } else {
          var j :| 0 <= j < n - 1 && !f((base + PAGE_SIZE) + j * PAGE_SIZE).Ok?;
          assert (base + PAGE_SIZE) + j * PAGE_SIZE == base + (j + 1) * PAGE_SIZE;
        }
      }
    }
  }

  /**
   * The walk calls `f` on the first pages in order, at most `n` of them, and when it fails
   * its error is that of the last page it called `f` on; every earlier call succeeded.
   */
  lemma {:induction false} WalkVisits(base: nat, n: nat, f: Callback)
    ensures var r := Walk(base, n, f);
            && |r.0| <= n
            && (forall j | 0 <= j < |r.0| :: r.0[j] == base + j * PAGE_SIZE)
            && (forall j | 0 <= j < |r.0| - 1 :: f(r.0[j]).Ok?)
            && (r.1.Err? ==> r.0 != [] && r.1 == f(r.0[|r.0| - 1]))
    decreases n
  {
    if n > 0 && f(base).Ok? {
      WalkVisits(base + PAGE_SIZE, n - 1, f);
      var rest := Walk(base + PAGE_SIZE, n - 1, f).0;
      forall j | 1 <= j < 1 + |rest|
        ensures ([base] + rest)[j] == base + j * PAGE_SIZE
      {
        assert ([base] + rest)[j] == rest[j - 1];
      }
    }
  }

  /** The `k` page addresses `base`, `base + PAGE_SIZE`, ... */
  function Pages(base: nat, k: nat): (ps: seq<nat>)
    ensures |ps| == k
    decreases k
  {
    if k == 0 then [] else [base] + Pages(base + PAGE_SIZE, k - 1)
  }

  /** One more page extends the list at its end. */
  lemma {:induction false} PagesSnoc(base: nat, k: nat)
    ensures Pages(base, k + 1) == Pages(base, k) + [base + k * PAGE_SIZE]
    decreases k
  {
    if k > 0 {
      PagesSnoc(base + PAGE_SIZE, k - 1);
      assert base + PAGE_SIZE + (k - 1) * PAGE_SIZE == base + k * PAGE_SIZE;
    }
  }

  /** After `k` successful pages, the walk is those pages followed by the walk of the rest. */
  lemma {:induction false} WalkSplit(base: nat, n: nat, f: Callback, k: nat)
    requires k <= n && forall j | 0 <= j < k :: f(base + j * PAGE_SIZE).Ok?
    ensures var rest := Walk(base + k * PAGE_SIZE, n - k, f);
            Walk(base, n, f) == (Pages(base, k) + rest.0, rest.1)
    decreases k
  {
    if k > 0 {
      assert f(base + 0 * PAGE_SIZE).Ok?;
      forall j | 0 <= j < k - 1
        ensures f((base + PAGE_SIZE) + j * PAGE_SIZE).Ok?
      {
        assert (base + PAGE_SIZE) + j * PAGE_SIZE == base + (j + 1) * PAGE_SIZE;
      }
      WalkSplit(base + PAGE_SIZE, n - 1, f, k - 1);
      assert base + PAGE_SIZE + (k - 1) * PAGE_SIZE == base + k * PAGE_SIZE;
      var rest := Walk(base + k * PAGE_SIZE, n - k, f);
      var head := Pages(base + PAGE_SIZE, k - 1);
      assert [base] + (head + rest.0) == ([base] + head) + rest.0;
    } else {
      assert [] + Walk(base, n, f).0 == Walk(base, n, f).0;
    }
  }

  /** The step_by loop over (0..size) runs `PageCount(size)` times. */
  lemma PageSteps(size: nat, k: nat)
    ensures k * PAGE_SIZE < size <==> k < PageCount(size)
  {
    DivMod(size + PAGE_SIZE - 1, PAGE_SIZE);
  }

  /** The cached FIFO for `size`, empty when none (`entry(size).or_default()`). */
  function Cached(cache: map<nat, seq<nat>>, size: nat): seq<nat> {
    if size in cache then cache[size] else []
  }

  /**
   * The allocator invariant on values: sizes are whole pages, every recorded top lies at
   * least size + guard above 0 and at most `next`, and every cached stack ends at or below
   * `next`.
   */
  ghost predicate Sound(guard: nat, next: nat, tops: map<nat, nat>, cache: map<nat, seq<nat>>) {
    && guard % PAGE_SIZE == 0
    && (forall t | t in tops :: tops[t] % PAGE_SIZE == 0 && tops[t] + guard <= t <= next)
    && (forall s | s in cache :: forall j | 0 <= j < |cache[s]| :: cache[s][j] + s + guard <= next)
  }

  /** Taking the front of a size's cache (or leaving that cache empty) keeps the invariant. */
  lemma SoundTake(guard: nat, next: nat, tops: map<nat, nat>, cache: map<nat, seq<nat>>, sz: nat)
    requires Sound(guard, next, tops, cache)
    ensures var q := Cached(cache, sz);
            Sound(guard, next, tops, cache[sz := if q == [] then [] else q[1..]])
  {
  }

  /** Raising `next` keeps the invariant. */
  lemma SoundRaise(guard: nat, next: nat, next': nat, tops: map<nat, nat>, cache: map<nat, seq<nat>>)
    requires Sound(guard, next, tops, cache) && next <= next'
    ensures Sound(guard, next', tops, cache)
  {
  }

  /** Recording a whole-page stack whose top is at most `next` keeps the invariant. */
  lemma SoundRecord(guard: nat, next: nat, tops: map<nat, nat>, cache: map<nat, seq<nat>>, va: nat, sz: nat)
    requires Sound(guard, next, tops, cache) && sz % PAGE_SIZE == 0 && va + sz + guard <= next
    ensures Sound(guard, next, tops[va + sz + guard := sz], cache)
  {
  }

  /** Forgetting a recorded top keeps the invariant. */
  lemma SoundFree(guard: nat, next: nat, tops: map<nat, nat>, cache: map<nat, seq<nat>>, top: nat)
    requires Sound(guard, next, tops, cache) && top in tops
    ensures Sound(guard, next, tops - {top}, cache)
  {
  }

  /** Caching a base whose stack ends at or below `next` keeps the invariant. */
  lemma SoundCache(guard: nat, next: nat, tops: map<nat, nat>, cache: map<nat, seq<nat>>, va: nat, sz: nat)
    requires Sound(guard, next, tops, cache) && va + sz + guard <= next
    ensures Sound(guard, next, tops, cache[sz := [va] + Cached(cache, sz)])
  {
  }

  class StackAllocator {
    const regionStart: nat
    const regionLen: nat
    const guardSize: nat
    var next: nat
    /** Recorded stack tops and their rounded sizes. */
    var tops: map<nat, nat>
    /** Freed stack bases per rounded size, front first. */
    var cached: map<nat, seq<nat>>
    var mapped: seq<nat>
    var unmapped: seq<nat>

    /** The allocator invariant `Sound` on the fields. */
    ghost predicate Valid()
      reads this`next, this`tops, this`cached
    {
      Sound(guardSize, next, tops, cached)
    }

    /** `new`: the guard is rounded up to whole pages; the first stack's guard ends at the region base. */
    constructor (start: nat, len: nat, guard: nat)
      requires start >= NextMultipleOf(guard, PAGE_SIZE)
      ensures Valid()
      ensures regionStart == start && regionLen == len && guardSize == NextMultipleOf(guard, PAGE_SIZE)
      ensures guardSize % PAGE_SIZE == 0 && guard <= guardSize < guard + PAGE_SIZE
      ensures next + guardSize == start
      ensures tops == map[] && cached == map[] && mapped == [] && unmapped == []
    {
      regionStart, regionLen := start, len;
      var g := NextMultipleOf(guard, PAGE_SIZE);
      guardSize := g;
      next := start - g;
      tops, cached := map[], map[];
      mapped, unmapped := [], [];
    }

    /** Where a request of `size` bytes takes its base from: the cache, or `next`. */
    ghost function Source(size: nat): nat
      reads this
    {
      var q := Cached(cached, NextMultipleOf(size, PAGE_SIZE));
      if q != [] then q[0] else next
    }

    /**
     * `allocate`: round the size up to whole pages; reuse the front of that size's cache,
     * or else carve a new stack at `next` unless it would pass the region end; record the
     * top `va + size + guard`; map each stack page, stopping at the first failure.
     */
    method Allocate(size: nat, mapFn: Callback) returns (r: Result<nat, InternalError>)
      requires Valid()
      modifies this
      ensures Valid()
      ensures unmapped == old(unmapped)
      ensures var sz := NextMultipleOf(size, PAGE_SIZE);
              var q := Cached(old(cached), sz);
              && cached == old(cached)[sz := if q == [] then [] else q[1..]]
              && if q == [] && old(next) + sz > regionStart + regionLen then
                   r == Err(NotEnoughMem) && next == old(next) && tops == old(tops) && mapped == old(mapped)
                 else
                   var va := if q == [] then old(next) else q[0];
                   var top := va + sz + guardSize;
                   var walk := Walk(va + guardSize, PageCount(sz), mapFn);
                   && next == (if q == [] then old(next) + sz + guardSize else old(next))
                   && tops == old(tops)[top := sz]
                   && mapped == old(mapped) + walk.0
                   && r == (if walk.1.Ok? then Ok(top) else Err(walk.1.error))
    {
      var sz := NextMultipleOf(size, PAGE_SIZE);
      var base := Reserve(sz);
      if base.Err? {
        return Err(base.error);
      }
      var va := base.value;
      var visited, res := CallEach(va + guardSize, sz, mapFn);
      mapped := mapped + visited;
      r := if res.Ok? then Ok(va + sz + guardSize) else Err(res.error);
    }

    /**
     * The bookkeeping of `allocate` for a rounded size: the base comes from the front of
     * the size's cache, or else from `next` unless the stack would pass the region end;
     * the top is recorded.
     */
    method Reserve(sz: nat) returns (r: Result<nat, InternalError>)
      requires Valid() && sz % PAGE_SIZE == 0
      modifies this
      ensures Valid()
      ensures mapped == old(mapped) && unmapped == old(unmapped)
      ensures var q := Cached(old(cached), sz);
              && cached == old(cached)[sz := if q == [] then [] else q[1..]]
              && if q == [] && old(next) + sz > regionStart + regionLen then
                   r == Err(NotEnoughMem) && next == old(next) && tops == old(tops)
                 else
                   && r == Ok(if q == [] then old(next) else q[0])
                   && next == (if q == [] then old(next) + sz + guardSize else old(next))
                   && tops == old(tops)[r.value + sz + guardSize := sz]
    {
      var q := Cached(cached, sz);
      var va: nat;
      SoundTake(guardSize, next, tops, cached, sz);
      if q != [] {
        va := q[0];
        assert va + sz + guardSize <= next;
        cached := cached[sz := q[1..]];
      } else {
        cached := cached[sz := []];
        if next + sz > regionStart + regionLen {
          return Err(NotEnoughMem);
        }
        va := next;
        SoundRaise(guardSize, next, next + sz + guardSize, tops, cached);
        next := next + sz + guardSize;
      }
      SoundRecord(guardSize, next, tops, cached, va, sz);
      tops := tops[va + sz + guardSize := sz];
      r := Ok(va);
    }

    /**
     * `deallocate`: an unrecorded top is rejected and nothing changes; a recorded one is
     * forgotten, each of its stack pages is unmapped, stopping at the first failure, and
     * only when all were unmapped is its base pushed on the front of its size's cache.
     */
    method Deallocate(top: nat, unmapFn: Callback) returns (r: Result<(), InternalError>)
      requires Valid()
      modifies this
      ensures Valid()
      ensures next == old(next) && mapped == old(mapped)
      ensures top !in old(tops) ==>
                r == Err(InvalidVirtAddr) && tops == old(tops) && cached == old(cached) && unmapped == old(unmapped)
      ensures top in old(tops) ==>
                var sz := old(tops)[top];
                var va := top - sz - guardSize;
                var walk := Walk(va + guardSize, PageCount(sz), unmapFn);
                && tops == old(tops) - {top}
                && unmapped == old(unmapped) + walk.0
                && r == walk.1
                && cached == if r.Ok? then old(cached)[sz := [va] + Cached(old(cached), sz)] else old(cached)
    {
      if top !in tops {
        return Err(InvalidVirtAddr);
      }
      var sz := tops[top];
      var va := top - sz - guardSize;
      Forget(top);
      var visited;
      visited, r := CallEach(va + guardSize, sz, unmapFn);
      unmapped := unmapped + visited;
      if r.Ok? {
        Recycle(va, sz);
      }
    }

    /** The `remove` of `deallocate`, for a recorded top. */
    method Forget(top: nat)
      requires Valid() && top in tops
      modifies this`tops
      ensures Valid() && tops == old(tops) - {top}
      ensures var sz := old(tops)[top]; top - sz - guardSize + sz + guardSize <= next
    {
      SoundFree(guardSize, next, tops, cached, top);
      tops := tops - {top};
    }

    /** The `push_front` of `deallocate`: cache a freed base under its size. */
    method Recycle(va: nat, sz: nat)
      requires Valid() && va + sz + guardSize <= next
      modifies this`cached
      ensures Valid() && cached == old(cached)[sz := [va] + Cached(old(cached), sz)]
    {
      SoundCache(guardSize, next, tops, cached, va, sz);
      cached := cached[sz := [va] + Cached(cached, sz)];
    }
  }

  /**
   * A region with room for one one-page stack: the stack lies just above the region base
   * with its guard below; a second request fails with NotEnoughMem; once the first stack is
   * freed, the same request gets the same top back from the cache.
   */
  method ReuseAfterFree() returns (first: Result<nat, InternalError>, second: Result<nat, InternalError>, third: Result<nat, InternalError>, pages: seq<nat>)
    ensures first == Ok(0x11000) && second == Err(NotEnoughMem) && third == first
    ensures pages == [0x10000, 0x10000]
  {
    var ok: Callback := _ => Ok(());
    var a := new StackAllocator(0x10000, PAGE_SIZE, PAGE_SIZE);
    first := a.Allocate(1, ok);
    second := a.Allocate(PAGE_SIZE, ok);
    var freed := a.Deallocate(0x11000, ok);
    third := a.Allocate(100, ok);
    pages := a.mapped;
  }

  /**
   * The page loop `for i in (0..size).step_by(PAGE_SIZE) { f(base + i)?; }`: the addresses
   * `f` was called with and the outcome.
   */
  method CallEach(base: nat, size: nat, f: Callback) returns (visited: seq<nat>, r: Result<(), InternalError>)
    ensures (visited, r) == Walk(base, PageCount(size), f)
  {
    ghost var n := PageCount(size);
    visited := [];
    var i := 0;
    ghost var k := 0;
    PageSteps(size, 0);
    while i < size
      invariant i == k * PAGE_SIZE && k <= n
      invariant i < size <==> k < n
      invariant forall j | 0 <= j < k :: f(base + j * PAGE_SIZE).Ok?
      invariant visited == Pages(base, k)
    {
      PagesSnoc(base, k);
      var res := f(base + i);
      visited := visited + [base + i];
      if res.Err? {
        WalkSplit(base, n, f, k);
        return visited, res;
      }
      i, k := i + PAGE_SIZE, k + 1;
      PageSteps(size, k);
    }
    WalkSplit(base, n, f, n);
    assert visited + [] == visited;
    return visited, Ok(());
  }

  // ---------------------------------------------------------------------------
  // The region test of `allocate`

  /**
   * The test `allocate` applies before carving a new stack at `va`: the stack's size, without
   * its guard, must fit below the region end. The stack's pages start at `va + guard`.
   */
  predicate FitsAsWritten(va: nat, sz: nat, end: nat) {
    va + sz <= end
  }

  /** The test as evidently intended: the guard and the stack, [va, va + guard + sz), lie below the end. */
  predicate Fits(va: nat, sz: nat, guard: nat, end: nat) {
    va + guard + sz <= end
  }

  /** The intended test only refuses more: every stack it accepts the written test accepts. */
  lemma FitsStronger(va: nat, sz: nat, guard: nat, end: nat)
    requires Fits(va, sz, guard, end)
    ensures FitsAsWritten(va, sz, end)
  {
  }

  /** The k pages from `base` are base, base + PAGE_SIZE, ..., in order. */
  lemma {:induction false} PagesAt(base: nat, k: nat)
    ensures forall j | 0 <= j < k :: Pages(base, k)[j] == base + j * PAGE_SIZE
    decreases k
  {
    if k > 0 {
      PagesAt(base + PAGE_SIZE, k - 1);
      forall j | 1 <= j < k
        ensures Pages(base, k)[j] == base + j * PAGE_SIZE
      {
        assert Pages(base, k)[j] == Pages(base + PAGE_SIZE, k - 1)[j - 1];
      }
    }
  }

  /** A whole-page stack of size sz has sz / PAGE_SIZE pages. */
  lemma WholePages(sz: nat)
    requires sz % PAGE_SIZE == 0
    ensures PageCount(sz) * PAGE_SIZE == sz
  {
    DivMod(sz, PAGE_SIZE);
    DivModUnique(sz + PAGE_SIZE - 1, PAGE_SIZE, sz / PAGE_SIZE, PAGE_SIZE - 1);
  }

  /** With the intended test, every page `allocate` maps for a new stack lies wholly below the region end. */
  lemma FitsPagesInRegion(va: nat, sz: nat, guard: nat, end: nat)
    requires sz % PAGE_SIZE == 0 && Fits(va, sz, guard, end)
    ensures var ps := Pages(va + guard, PageCount(sz));
            forall j | 0 <= j < |ps| :: va + guard <= ps[j] && ps[j] + PAGE_SIZE <= end
  {
    var k := PageCount(sz);
    var ps := Pages(va + guard, k);
    WholePages(sz);
    PagesAt(va + guard, k);
    forall j | 0 <= j < k
      ensures ps[j] + PAGE_SIZE <= end
    {
      MulLe(j + 1, k, PAGE_SIZE);
    }
  }

  /**
   * The written test lets a stack run past the region: with the region [0x10000, 0x11000) and a
   * one-page guard, `next` starts at 0xF000 and a two-page request passes the test, although its
   * second page 0x11000 lies outside the region. The intended test refuses it.
   */
  lemma GuardOverrun()
    ensures FitsAsWritten(0xF000, 0x2000, 0x11000)
    ensures !Fits(0xF000, 0x2000, PAGE_SIZE, 0x11000)
    ensures Pages(0xF000 + PAGE_SIZE, PageCount(0x2000)) == [0x10000, 0x11000]
  {
    WholePages(0x2000);
  }

  /** The same overrun through `allocate` itself: the request succeeds and maps the page at the region end. */
  method GuardOverrunAllocation() returns (r: Result<nat, InternalError>, pages: seq<nat>)
    ensures r == Ok(0x12000)
    ensures pages == [0x10000, 0x11000] && pages[1] >= 0x10000 + PAGE_SIZE
  {
    var ok: Callback := _ => Ok(());
    var a := new StackAllocator(0x10000, PAGE_SIZE, PAGE_SIZE);
    WholePages(0x2000);
    assert NextMultipleOf(0x2000, PAGE_SIZE) == 0x2000;
    WalkOk(0x10000, 2, ok);
    WalkVisits(0x10000, 2, ok);
    r := a.Allocate(0x2000, ok);
    pages := a.mapped;
  }
}
