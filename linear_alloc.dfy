/**
 * The fixed-size element allocator of kern/modules/linear-alloc/src/lib.rs: elements of
 * `eleSize` bytes are carved from the region base, spaced by element plus guard; freed
 * elements are recycled first in first out. The `map_fn`/`unmap_fn` callbacks are
 * parameters, and the addresses they were called with are kept in `mapped` and `unmapped`.
 */
module LinearAlloc {
  import opened Wrappers
  import opened Errors

  type Callback = (nat, nat) -> Result<(), InternalError>

  class LinearAllocator {
    const regionStart: nat
    const regionLen: nat
    const eleSize: nat
    const grdSize: nat
    var nextVa: nat
    var allocatedVa: set<nat>
    var recycledVa: seq<nat>
    var mapped: seq<nat>
    var unmapped: seq<nat>
    /** How many fresh elements have been carved so far. */
    ghost var issued: nat

    /**
     * `nextVa` has moved from the region base by one stride per carved element; no address
     * is both allocated and recycled, and none is recycled twice; with a non-zero stride,
     * every allocated or recycled address lies below `nextVa`.
     */
    ghost predicate Valid()
      reads this
    {
      && nextVa == regionStart + issued * (eleSize + grdSize)
      && (forall j | 0 <= j < |recycledVa| :: recycledVa[j] !in allocatedVa)
      && (forall i, j | 0 <= i < j < |recycledVa| :: recycledVa[i] != recycledVa[j])
      && (eleSize + grdSize > 0 ==>
            && (forall va | va in allocatedVa :: va < nextVa)
            && (forall j | 0 <= j < |recycledVa| :: recycledVa[j] < nextVa))
    }

    /** `new`: nothing carved, allocated or recycled; `next_va` at the region base. */
    constructor (start: nat, len: nat, ele: nat, grd: nat)
      ensures Valid()
      ensures regionStart == start && regionLen == len && eleSize == ele && grdSize == grd
      ensures nextVa == start && allocatedVa == {} && recycledVa == [] && mapped == [] && unmapped == []
    {
      regionStart, regionLen, eleSize, grdSize := start, len, ele, grd;
      nextVa := start;
      allocatedVa, recycledVa := {}, [];
      mapped, unmapped := [], [];
      issued := 0;
    }

    /**
     * `allocate`: the front of the recycled FIFO, or else a fresh element at `next_va`
     * unless it would pass the region end; the address is recorded as allocated and then
     * mapped, the mapping's error being returned. The address handed out was not allocated
     * before (when elements are spaced at all).
     */
    method Allocate(mapFn: Callback) returns (r: Result<nat, InternalError>)
      requires Valid()
      modifies this
      ensures Valid()
      ensures unmapped == old(unmapped)
      ensures var q := old(recycledVa);
              if q == [] && old(nextVa) + eleSize > regionStart + regionLen then
                && r == Err(NotEnoughMem)
                && nextVa == old(nextVa) && allocatedVa == old(allocatedVa) && recycledVa == q && mapped == old(mapped)
              else
                var va := if q == [] then old(nextVa) else q[0];
                && (eleSize + grdSize > 0 ==> va !in old(allocatedVa))
                && recycledVa == (if q == [] then [] else q[1..])
                && nextVa == (if q == [] then old(nextVa) + eleSize + grdSize else old(nextVa))
                && allocatedVa == old(allocatedVa) + {va}
                && mapped == old(mapped) + [va]
                && r == (if mapFn(va, eleSize).Ok? then Ok(va) else Err(mapFn(va, eleSize).error))
    {
      var va;
      if recycledVa != [] {
        va := recycledVa[0];
        recycledVa := recycledVa[1..];
      } else {
        if nextVa + eleSize > regionStart + regionLen {
          return Err(NotEnoughMem);
        }
        va := nextVa;
        nextVa := nextVa + eleSize + grdSize;
        issued := issued + 1;
      }
      allocatedVa := allocatedVa + {va};
      mapped := mapped + [va];
      var res := mapFn(va, eleSize);
      if res.Err? {
        return Err(res.error);
      }
      return Ok(va);
    }

    /**
     * `deallocate`: an address that is not allocated is rejected and nothing changes;
     * otherwise it is removed, pushed on the back of the recycled FIFO, and unmapped, the
     * unmapping's outcome being returned.
     */
    method Deallocate(va: nat, unmapFn: Callback) returns (r: Result<(), InternalError>)
      requires Valid()
      modifies this
      ensures Valid()
      ensures nextVa == old(nextVa) && mapped == old(mapped)
      ensures va !in old(allocatedVa) ==>
                && r == Err(InvalidVirtAddr)
                && allocatedVa == old(allocatedVa) && recycledVa == old(recycledVa) && unmapped == old(unmapped)
      ensures va in old(allocatedVa) ==>
                && allocatedVa == old(allocatedVa) - {va}
                && recycledVa == old(recycledVa) + [va]
                && unmapped == old(unmapped) + [va]
                && r == unmapFn(va, eleSize)
    {
      if va !in allocatedVa {
        return Err(InvalidVirtAddr);
      }
      allocatedVa := allocatedVa - {va};
      recycledVa := recycledVa + [va];
      unmapped := unmapped + [va];
      r := unmapFn(va, eleSize);
    }
  }

  /**
   * Two fresh elements are spaced by element plus guard from the region base; a freed
   * element is handed out again before any fresh one.
   */
  method RecycleFirst(start: nat, ele: nat, grd: nat) returns (a: Result<nat, InternalError>, b: Result<nat, InternalError>, c: Result<nat, InternalError>)
    ensures a == Ok(start) && b == Ok(start + ele + grd) && c == a
  {
    var ok: Callback := (_, _) => Ok(());
    var alloc := new LinearAllocator(start, 2 * ele + grd, ele, grd);
    a := alloc.Allocate(ok);
    b := alloc.Allocate(ok);
    var freed := alloc.Deallocate(start, ok);
    c := alloc.Allocate(ok);
  }
}
