/**
 * kern/modules/loader/src/lib.rs: `ElfLoader` walks the loadable segments of an ELF image and
 * hands each one to a caller-supplied callback in chunks: an unaligned head chunk, then one
 * chunk per page of file data, then one zero-length call per page step of the bss part.
 * The callback is a function parameter; the first error it returns stops the walk.
 */
module Loader {
  import opened Wrappers
  import opened Machine
  import opened Errors
  import opened AddrMacro

  /** `elf::abi::PT_LOAD` */
  const PT_LOAD: nat := 1

  /** The fields of a program header the loader reads. */
  datatype ProgramHeader = ProgramHeader(pType: nat, vaddr: usize, fileSize: usize, memSize: usize)

  /** One callback invocation: the segment, the virtual address, the offset into the segment's data, the bytes to copy. */
  datatype Call = Call(header: ProgramHeader, vaddr: Address, offset: nat, len: nat)

  type Callback = Call -> Result<(), InternalError>

  function Min(a: nat, b: nat): nat { if a <= b then a else b }

  // ---------------------------------------------------------------------------
  // The calls `load_segment` issues

  /** `vaddr - vaddr.align_page_down()`: the offset of the segment start within its page. */
  function HeadLen(ph: ProgramHeader): (h: nat)
    ensures h == ph.vaddr % PAGE_SIZE && h < PAGE_SIZE
  {
    var v := Address(ph.vaddr);
    Diff(v, AlignPageDown(v))
  }

  /** Where the page-sized file chunks begin: after the head chunk, if there is one. */
  function FileStart(ph: ProgramHeader): (i: nat)
    ensures i <= ph.fileSize
  {
    if HeadLen(ph) != 0 then Min(ph.fileSize, PAGE_SIZE - HeadLen(ph)) else 0
  }

  /** The head chunk of an unaligned segment: offset 0, up to the end of the first page. */
  function HeadCalls(ph: ProgramHeader): seq<Call> {
    if HeadLen(ph) != 0 then [Call(ph, Address(ph.vaddr), 0, Min(ph.fileSize, PAGE_SIZE - HeadLen(ph)))] else []
  }

  /** The chunks `for i in (start..fsize).step_by(PAGE_SIZE)`: at most a page each. */
  function FileCalls(ph: ProgramHeader, i: nat): seq<Call>
    decreases ph.fileSize - i
  {
    if i >= ph.fileSize then []
    else [Call(ph, Add(Address(ph.vaddr), i), i, Min(ph.fileSize - i, PAGE_SIZE))] + FileCalls(ph, i + PAGE_SIZE)
  }

  /** The calls `for i in (fsize..msize).step_by(PAGE_SIZE)`, copying nothing. */
  function BssCalls(ph: ProgramHeader, i: nat): seq<Call>
    decreases ph.memSize - i
  {
    if i >= ph.memSize then []
    else [Call(ph, Add(Address(ph.vaddr), i), i, 0)] + BssCalls(ph, i + PAGE_SIZE)
  }

  /** Every call `load_segment` makes for one segment, in order. */
  function SegmentCalls(ph: ProgramHeader): seq<Call> {
    HeadCalls(ph) + FileCalls(ph, FileStart(ph)) + BssCalls(ph, ph.fileSize)
  }

  // ---------------------------------------------------------------------------
  // Issuing calls until the first error

  ghost predicate AllOk(cs: seq<Call>, f: Callback) {
    forall j | 0 <= j < |cs| :: f(cs[j]).Ok?
  }

  /** The index of the first failing call, |cs| when none fails. */
  function FirstFail(cs: seq<Call>, f: Callback): (n: nat)
    ensures n <= |cs| && forall j | 0 <= j < n :: f(cs[j]).Ok?
    ensures n < |cs| ==> f(cs[n]).Err?
    decreases |cs|
  {
    if cs == [] || f(cs[0]).Err? then 0 else 1 + FirstFail(cs[1..], f)
  }

  /** An index before which every call succeeds and at which one fails, or the end, is the first failure. */
  lemma FirstFailUnique(cs: seq<Call>, f: Callback, n: nat)
    requires n <= |cs| && (forall j | 0 <= j < n :: f(cs[j]).Ok?) && (n < |cs| ==> f(cs[n]).Err?)
    ensures FirstFail(cs, f) == n
  {
    var m := FirstFail(cs, f);
    assert m == n;
  }

  /** The outcome of a walk and the calls it made. */
  datatype Run = Run(result: Result<(), InternalError>, issued: seq<Call>)

  /** Issuing `cs` in order: the walk stops after the first failing call and returns its error. */
  function Issue(cs: seq<Call>, f: Callback): (run: Run)
    ensures run.result.Ok? <==> AllOk(cs, f)
    ensures run.result.Ok? ==> run.issued == cs
    ensures run.result.Err? ==>
              var n := |run.issued| - 1;
              && 0 <= n < |cs| && run.issued == cs[..n + 1]
              && AllOk(cs[..n], f) && run.result == f(cs[n])
  {
    var n := FirstFail(cs, f);
    assert n < |cs| ==> !AllOk(cs, f);
    if n == |cs| then Run(Ok(()), cs) else Run(Err(f(cs[n]).error), cs[..n + 1])
  }

  /** A walk whose calls all succeed issues them all. */
  lemma IssueOk(cs: seq<Call>, f: Callback)
    requires AllOk(cs, f)
    ensures Issue(cs, f) == Run(Ok(()), cs)
  {
    FirstFailUnique(cs, f, |cs|);
  }

  /** After a succeeding prefix, the first failing call ends the walk. */
  lemma IssueFails(done: seq<Call>, c: Call, rest: seq<Call>, f: Callback)
    requires AllOk(done, f) && f(c).Err?
    ensures Issue(done + [c] + rest, f) == Run(Err(f(c).error), done + [c])
  {
    var cs := done + [c] + rest;
    assert forall j | 0 <= j < |done| :: cs[j] == done[j];
    assert cs[|done|] == c;
    FirstFailUnique(cs, f, |done|);
    assert cs[..|done| + 1] == done + [c];
  }

  /** A walk over a concatenation is the walk over the first part, continued over the second if it succeeded. */
  lemma IssueAppend(a: seq<Call>, b: seq<Call>, f: Callback)
    ensures Issue(a + b, f) ==
              if Issue(a, f).result.Err? then Issue(a, f)
              else Run(Issue(b, f).result, a + Issue(b, f).issued)
  {
    var cs := a + b;
    var n := FirstFail(a, f);
    assert forall j | 0 <= j < |a| :: cs[j] == a[j];
    if n < |a| {
      FirstFailUnique(cs, f, n);
      assert cs[..n + 1] == a[..n + 1];
    } else {
      var m := FirstFail(b, f);
      assert forall j | |a| <= j < |cs| :: cs[j] == b[j - |a|];
      FirstFailUnique(cs, f, |a| + m);
      if m < |b| {
        assert cs[..|a| + m + 1] == a + b[..m + 1];
      }
    }
  }

  // ---------------------------------------------------------------------------
  // What the calls cover

  /** The chunks `cs` copy the data range [from, to) in order, each one starting where the previous ended. */
  ghost predicate Covers(cs: seq<Call>, from: nat, to: nat)
    decreases |cs|
  {
    if cs == [] then from == to
    else cs[0].offset == from && from + cs[0].len <= to && Covers(cs[1..], from + cs[0].len, to)
  }

  lemma {:induction false} CoversAppend(a: seq<Call>, b: seq<Call>, from: nat, mid: nat, to: nat)
    requires Covers(a, from, mid) && Covers(b, mid, to)
    ensures Covers(a + b, from, to)
    decreases |a|
  {
    if a != [] {
      assert (a + b)[0] == a[0];
      assert (a + b)[1..] == a[1..] + b;
      CoversAppend(a[1..], b, from + a[0].len, mid, to);
    } else {
      assert a + b == b;
    }
  }

  lemma {:induction false} FileCallsCover(ph: ProgramHeader, i: nat)
    requires i <= ph.fileSize
    ensures Covers(FileCalls(ph, i), i, ph.fileSize)
    decreases ph.fileSize - i
  {
    if i < ph.fileSize {
      var len := Min(ph.fileSize - i, PAGE_SIZE);
      if i + PAGE_SIZE <= ph.fileSize {
        FileCallsCover(ph, i + PAGE_SIZE);
      }
      assert FileCalls(ph, i)[1..] == FileCalls(ph, i + PAGE_SIZE);
    }
  }

  /** The head chunk and the file chunks together copy the file part [0, fsize) exactly once, in order. */
  lemma DataCovered(ph: ProgramHeader)
    ensures Covers(HeadCalls(ph) + FileCalls(ph, FileStart(ph)), 0, ph.fileSize)
  {
    FileCallsCover(ph, FileStart(ph));
    if HeadLen(ph) != 0 {
      assert Covers(HeadCalls(ph)[1..], FileStart(ph), FileStart(ph));
    }
    CoversAppend(HeadCalls(ph), FileCalls(ph, FileStart(ph)), 0, FileStart(ph), ph.fileSize);
  }

  /** Each file chunk starts on a page boundary and copies at most a page, so it stays within one page. */
  lemma {:induction false} FileCallsPaged(ph: ProgramHeader, i: nat)
    requires ph.vaddr + ph.memSize < USIZE_MOD && ph.fileSize <= ph.memSize
    requires i < ph.fileSize ==> (ph.vaddr + i) % PAGE_SIZE == 0
    ensures forall j | 0 <= j < |FileCalls(ph, i)| ::
              FileCalls(ph, i)[j].vaddr.value % PAGE_SIZE == 0 && FileCalls(ph, i)[j].len <= PAGE_SIZE
    decreases ph.fileSize - i
  {
    if i < ph.fileSize {
      FileCallsPaged(ph, i + PAGE_SIZE);
      assert FileCalls(ph, i)[1..] == FileCalls(ph, i + PAGE_SIZE);
    }
  }

  /** The head chunk of an unaligned segment ends at or before the end of its first page. */
  lemma HeadPaged(ph: ProgramHeader)
    requires HeadLen(ph) != 0
    ensures HeadCalls(ph)[0].vaddr.value % PAGE_SIZE + HeadCalls(ph)[0].len <= PAGE_SIZE
    ensures FileStart(ph) < ph.fileSize ==> (ph.vaddr + FileStart(ph)) % PAGE_SIZE == 0
  {
    var h := HeadLen(ph);
    DivMod(ph.vaddr, PAGE_SIZE);
    if FileStart(ph) < ph.fileSize {
      var k := ph.vaddr / PAGE_SIZE;
      assert ph.vaddr + FileStart(ph) == (k + 1) * PAGE_SIZE;
      MultipleMod(k + 1, PAGE_SIZE);
    }
  }

  /** The bss part is visited at fsize and then every PAGE_SIZE bytes below msize, copying nothing. */
  lemma {:induction false} BssCallsSteps(ph: ProgramHeader, i: nat, j: nat)
    requires j < |BssCalls(ph, i)|
    ensures BssCalls(ph, i)[j].offset == i + j * PAGE_SIZE < ph.memSize
    ensures BssCalls(ph, i)[j].len == 0
    decreases ph.memSize - i
  {
    if j > 0 {
      BssCallsSteps(ph, i + PAGE_SIZE, j - 1);
    }
  }

  // ---------------------------------------------------------------------------
  // The bss tail page

  /**
   * As written, the bss loop steps from fsize by whole pages, so when the bss part starts late in
   * a page and ends early in a later one, its last page gets no call and the callback never maps
   * it: here the bss part ends at 0x120ff, and no call falls on the page 0x12000.
   */
  lemma BssTailPageMissed()
    ensures var ph := ProgramHeader(PT_LOAD, 0x10000, 0x800, 0x2100);
            var last := ph.vaddr + ph.memSize - 1;
            && ph.fileSize < ph.memSize && last / PAGE_SIZE == 0x12
            && |SegmentCalls(ph)| == 3
            && forall j | 0 <= j < |SegmentCalls(ph)| :: SegmentCalls(ph)[j].vaddr.value / PAGE_SIZE != last / PAGE_SIZE
  {
    var ph := ProgramHeader(PT_LOAD, 0x10000, 0x800, 0x2100);
    assert HeadCalls(ph) == [];
    assert FileCalls(ph, 0x1000) == [];
    assert FileCalls(ph, 0) == [Call(ph, Address(0x10000), 0, 0x800)];
    assert BssCalls(ph, 0x2800) == [];
    assert BssCalls(ph, 0x1800) == [Call(ph, Address(0x11800), 0x1800, 0)];
    assert BssCalls(ph, 0x800) == [Call(ph, Address(0x10800), 0x800, 0), Call(ph, Address(0x11800), 0x1800, 0)];
  }

  /** Offset of the next page boundary after offset i of the segment. */
  function NextBoundary(ph: ProgramHeader, i: nat): (n: nat)
    ensures i < n <= i + PAGE_SIZE && (ph.vaddr + n) % PAGE_SIZE == 0
  {
    var n := i + (PAGE_SIZE - (ph.vaddr + i) % PAGE_SIZE);
    DivMod(ph.vaddr + i, PAGE_SIZE);
    MultipleMod((ph.vaddr + i) / PAGE_SIZE + 1, PAGE_SIZE);
    assert ph.vaddr + n == ((ph.vaddr + i) / PAGE_SIZE + 1) * PAGE_SIZE;
    n
  }

  /** The bss walk as evidently intended: a call at fsize, then one at each later page boundary below msize. */
  function PagedBssCalls(ph: ProgramHeader, i: nat): seq<Call>
    decreases ph.memSize - i
  {
    if i >= ph.memSize then []
    else [Call(ph, Add(Address(ph.vaddr), i), i, 0)] + PagedBssCalls(ph, NextBoundary(ph, i))
  }

  /** Every page the bss part [i, msize) touches receives a call of the corrected walk. */
  lemma {:induction false} PagedBssCovers(ph: ProgramHeader, i: nat, a: nat)
    requires ph.vaddr + ph.memSize < USIZE_MOD
    requires ph.vaddr + i <= a < ph.vaddr + ph.memSize
    ensures exists j | 0 <= j < |PagedBssCalls(ph, i)| :: PagedBssCalls(ph, i)[j].vaddr.value / PAGE_SIZE == a / PAGE_SIZE
    decreases ph.memSize - i
  {
    var cs := PagedBssCalls(ph, i);
    assert cs[0].vaddr.value == ph.vaddr + i;
    if (ph.vaddr + i) / PAGE_SIZE != a / PAGE_SIZE {
      var n := NextBoundary(ph, i);
      DivMod(ph.vaddr + i, PAGE_SIZE);
      assert ph.vaddr + n == ((ph.vaddr + i) / PAGE_SIZE + 1) * PAGE_SIZE;
      PageAbove(ph.vaddr + i, a);
      PagedBssCovers(ph, n, a);
      var j :| 0 <= j < |PagedBssCalls(ph, n)| && PagedBssCalls(ph, n)[j].vaddr.value / PAGE_SIZE == a / PAGE_SIZE;
      assert cs[j + 1] == PagedBssCalls(ph, n)[j];
    }
  }

  /** An address on a later page than x lies at or above the next page boundary after x. */
  lemma PageAbove(x: nat, a: nat)
    requires x <= a && x / PAGE_SIZE != a / PAGE_SIZE
    ensures (x / PAGE_SIZE + 1) * PAGE_SIZE <= a
  {
    DivMod(x, PAGE_SIZE);
    DivMod(a, PAGE_SIZE);
  }

  // ---------------------------------------------------------------------------
  // The loader

  /** The file loop of `load_segment` from offset `start`, stopping at the first error. */
  method LoadFile(ph: ProgramHeader, start: nat, f: Callback) returns (r: Result<(), InternalError>, calls: seq<Call>)
    ensures Run(r, calls) == Issue(FileCalls(ph, start), f)
  {
    var vaddr := Address(ph.vaddr);
    calls := [];
    var i := start;
    while i < ph.fileSize
      invariant calls + FileCalls(ph, i) == FileCalls(ph, start)
      invariant AllOk(calls, f)
      decreases ph.fileSize - i
    {
      var c := Call(ph, Add(vaddr, i), i, Min(ph.fileSize - i, PAGE_SIZE));
      assert FileCalls(ph, i) == [c] + FileCalls(ph, i + PAGE_SIZE);
      assert FileCalls(ph, start) == calls + [c] + FileCalls(ph, i + PAGE_SIZE);
      if f(c).Err? {
        IssueFails(calls, c, FileCalls(ph, i + PAGE_SIZE), f);
        return Err(f(c).error), calls + [c];
      }
      calls := calls + [c];
      i := i + PAGE_SIZE;
    }
    assert calls == FileCalls(ph, start);
    IssueOk(calls, f);
    r := Ok(());
  }

  /** The bss loop of `load_segment` from offset `start`, stopping at the first error. */
  method LoadBss(ph: ProgramHeader, start: nat, f: Callback) returns (r: Result<(), InternalError>, calls: seq<Call>)
    ensures Run(r, calls) == Issue(BssCalls(ph, start), f)
  {
    var vaddr := Address(ph.vaddr);
    calls := [];
    var i := start;
    while i < ph.memSize
      invariant calls + BssCalls(ph, i) == BssCalls(ph, start)
      invariant AllOk(calls, f)
      decreases ph.memSize - i
    {
      var c := Call(ph, Add(vaddr, i), i, 0);
      assert BssCalls(ph, i) == [c] + BssCalls(ph, i + PAGE_SIZE);
      assert BssCalls(ph, start) == calls + [c] + BssCalls(ph, i + PAGE_SIZE);
      if f(c).Err? {
        IssueFails(calls, c, BssCalls(ph, i + PAGE_SIZE), f);
        return Err(f(c).error), calls + [c];
      }
      calls := calls + [c];
      i := i + PAGE_SIZE;
    }
    assert calls == BssCalls(ph, start);
    IssueOk(calls, f);
    r := Ok(());
  }

  /** The head chunk of `load_segment`, issued only for an unaligned segment. */
  method LoadHead(ph: ProgramHeader, f: Callback) returns (r: Result<(), InternalError>, calls: seq<Call>)
    ensures Run(r, calls) == Issue(HeadCalls(ph), f)
  {
    var vaddr := Address(ph.vaddr);
    var head := Diff(vaddr, AlignPageDown(vaddr));
    if head != 0 {
      var c := Call(ph, vaddr, 0, Min(ph.fileSize, PAGE_SIZE - head));
      if f(c).Err? {
        IssueFails([], c, [], f);
        return Err(f(c).error), [c];
      }
      IssueOk([c], f);
      return Ok(()), [c];
    }
    IssueOk([], f);
    return Ok(()), [];
  }

  /** A walk over three parts in a row. */
  lemma IssueThree(a: seq<Call>, b: seq<Call>, c: seq<Call>, f: Callback)
    ensures Issue(a + b + c, f) ==
              if Issue(a, f).result.Err? then Issue(a, f)
              else if Issue(b, f).result.Err? then Run(Issue(b, f).result, a + Issue(b, f).issued)
              else Run(Issue(c, f).result, a + b + Issue(c, f).issued)
  {
    assert a + b + c == a + (b + c);
    IssueAppend(a, b + c, f);
    if Issue(a, f).result.Ok? {
      IssueAppend(b, c, f);
      if Issue(b, f).result.Ok? {
        var z := Issue(c, f).issued;
        assert a + (b + z) == a + b + z;
      }
    }
  }

  /** `load_segment`: the head chunk, the file chunks and the bss calls, returning the first error. */
  method LoadSegment(ph: ProgramHeader, f: Callback) returns (r: Result<(), InternalError>, calls: seq<Call>)
    ensures Run(r, calls) == Issue(SegmentCalls(ph), f)
  {
    IssueThree(HeadCalls(ph), FileCalls(ph, FileStart(ph)), BssCalls(ph, ph.fileSize), f);
    var res, issued := LoadHead(ph, f);
    calls := issued;
    if res.Err? {
      return res, calls;
    }
    var vaddr := Address(ph.vaddr);
    var head := Diff(vaddr, AlignPageDown(vaddr));
    var i: nat := if head != 0 then Min(ph.fileSize, PAGE_SIZE - head) else 0;
    res, issued := LoadFile(ph, i, f);
    calls := calls + issued;
    if res.Err? {
      return res, calls;
    }
    res, issued := LoadBss(ph, ph.fileSize, f);
    calls := calls + issued;
    r := res;
  }

  /** The calls made for one segment: none unless it is loadable. */
  function OwnCalls(ph: ProgramHeader): seq<Call> {
    if ph.pType == PT_LOAD then SegmentCalls(ph) else []
  }

  /** Every call `load` makes, segment after segment. */
  function AllCalls(segs: seq<ProgramHeader>): seq<Call>
    decreases |segs|
  {
    if segs == [] then [] else OwnCalls(segs[0]) + AllCalls(segs[1..])
  }

  lemma {:induction false} AllCallsAppend(a: seq<ProgramHeader>, b: seq<ProgramHeader>)
    ensures AllCalls(a + b) == AllCalls(a) + AllCalls(b)
    decreases |a|
  {
    if a == [] {
      assert a + b == b;
    } else {
      assert (a + b)[0] == a[0];
      assert (a + b)[1..] == a[1..] + b;
      AllCallsAppend(a[1..], b);
    }
  }

  /**
   * `load`: no segment table is an ElfParseError before any call; otherwise the loadable segments
   * are loaded in order and the first error ends the walk.
   */
  method Load(segments: Option<seq<ProgramHeader>>, f: Callback) returns (r: Result<(), InternalError>, calls: seq<Call>)
    ensures segments.None? ==> r == Err(ElfParseError) && calls == []
    ensures segments.Some? ==> Run(r, calls) == Issue(AllCalls(segments.value), f)
  {
    if segments.None? {
      return Err(ElfParseError), [];
    }
    var segs := segments.value;
    calls := [];
    var k := 0;
    while k < |segs|
      invariant 0 <= k <= |segs|
      invariant calls == AllCalls(segs[..k]) && AllOk(calls, f)
    {
      assert segs[..k + 1] == segs[..k] + [segs[k]];
      assert segs == segs[..k + 1] + segs[k + 1..];
      AllCallsAppend(segs[..k], [segs[k]]);
      AllCallsAppend(segs[..k + 1], segs[k + 1..]);
      assert AllCalls([segs[k]]) == OwnCalls(segs[k]) by { assert [segs[k]][1..] == []; }
      var ph := segs[k];
      if ph.pType == PT_LOAD {
        var res, issued := LoadSegment(ph, f);
        if res.Err? {
          IssueOk(calls, f);
          IssueAppend(calls, OwnCalls(ph), f);
          IssueAppend(calls + OwnCalls(ph), AllCalls(segs[k + 1..]), f);
          return res, calls + issued;
        }
        calls := calls + issued;
      }
      k := k + 1;
    }
    assert segs[..k] == segs;
    IssueOk(calls, f);
    r := Ok(());
  }
}
