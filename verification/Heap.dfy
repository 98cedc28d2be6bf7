/** The bump heap of src/lib/prddef.h: nothing is ever freed, and `realloc` copies over itself. */
module Heap {
  const HEAP_BASE := 0x20_0000
  const HEAP_END := 0x40_0000
  const HEAP_SIZE := HEAP_END - HEAP_BASE
  const ADDRESS_LIMIT := 0x1_0000_0000_0000_0000

  // A range of bytes granted to a caller.
  datatype Grant = Grant(ptr: nat, size: nat)

  const NULL := 0

  // ---------- runs of requests ----------

  /** Where `heap_start` is after some requests. */
  function StartAfter(requests: seq<nat>): nat
    decreases |requests|
  {
    if requests == [] then HEAP_BASE
    else
      var start, size := StartAfter(requests[..|requests| - 1]), requests[|requests| - 1];
      if start + size > HEAP_END then start else start + size
  }

  /** The ranges granted by a run of requests; a request that does not fit is refused. */
  function Grants(requests: seq<nat>): seq<Grant>
    decreases |requests|
  {
    if requests == [] then []
    else
      var before, size := requests[..|requests| - 1], requests[|requests| - 1];
      if StartAfter(before) + size > HEAP_END then Grants(before)
      else Grants(before) + [Grant(StartAfter(before), size)]
  }

  predicate Disjoint(a: Grant, b: Grant) {
    a.ptr + a.size <= b.ptr || b.ptr + b.size <= a.ptr
  }

  function TotalGranted(grants: seq<Grant>): nat
    decreases |grants|
  {
    if grants == [] then 0 else TotalGranted(grants[..|grants| - 1]) + grants[|grants| - 1].size
  }

  lemma GrantsSnoc(requests: seq<nat>, size: nat)
    ensures var start, more := StartAfter(requests), requests + [size];
            if start + size > HEAP_END then StartAfter(more) == start && Grants(more) == Grants(requests)
            else StartAfter(more) == start + size && Grants(more) == Grants(requests) + [Grant(start, size)]
  {
    assert (requests + [size])[..|requests|] == requests;
  }

  ghost predicate Below(gs: seq<Grant>, limit: nat) {
    forall k :: 0 <= k < |gs| ==> HEAP_BASE <= gs[k].ptr && gs[k].ptr + gs[k].size <= limit
  }

  ghost predicate Apart(gs: seq<Grant>) {
    forall i, j :: 0 <= i < j < |gs| ==> Disjoint(gs[i], gs[j])
  }

  lemma {:induction false} GrantsBelow(requests: seq<nat>)
    ensures HEAP_BASE <= StartAfter(requests) <= HEAP_END && Below(Grants(requests), StartAfter(requests))
    decreases |requests|
  {
    if requests != [] {
      var before, size := requests[..|requests| - 1], requests[|requests| - 1];
      assert requests == before + [size];
      GrantsBelow(before);
      GrantsSnoc(before, size);
    }
  }

  lemma TotalSnoc(gs: seq<Grant>, g: Grant)
    ensures TotalGranted(gs + [g]) == TotalGranted(gs) + g.size
  {
    assert (gs + [g])[..|gs|] == gs;
  }

  /** Granted ranges lie in the heap, never overlap, and use up exactly what `heap_start` has moved. */
  lemma {:induction false} GrantsDisjoint(requests: seq<nat>)
    ensures Below(Grants(requests), StartAfter(requests)) && HEAP_BASE <= StartAfter(requests) <= HEAP_END
    ensures Apart(Grants(requests))
    ensures StartAfter(requests) == HEAP_BASE + TotalGranted(Grants(requests))
    decreases |requests|
  {
    GrantsBelow(requests);
    if requests != [] {
      var before, size := requests[..|requests| - 1], requests[|requests| - 1];
      assert requests == before + [size];
      GrantsDisjoint(before);
      GrantsSnoc(before, size);
      TotalSnoc(Grants(before), Grant(StartAfter(before), size));
    }
  }

  // ---------- the overlapping copy ----------

  /** Where byte `j` of an overlapping copy comes from. */
  function SourceOf(src: nat, dst: nat, j: nat): (r: nat)
    requires src < dst <= j
    ensures src <= r < dst
  {
    src + (j - dst) % (dst - src)
  }

  /**
   An ascending copy over its own destination repeats the bytes between source and destination:
   byte `i` is the source's byte `i` modulo that distance.
   */
  ghost predicate CopiedOverlapping(was: seq<char>, now: seq<char>, src: nat, dst: nat, n: nat)
    requires |was| == |now| && src < dst && dst + n <= |was|
  {
    && (forall j :: dst <= j < dst + n ==> now[j] == was[SourceOf(src, dst, j)])
    && (forall j :: 0 <= j < |was| && !(dst <= j < dst + n) ==> now[j] == was[j])
  }

  lemma SourceStep(src: nat, dst: nat, j: nat)
    requires src < dst <= j
    ensures if src + (j - dst) < dst then SourceOf(src, dst, j) == src + (j - dst)
            else SourceOf(src, dst, src + (j - dst)) == SourceOf(src, dst, j)
  {
    if src + (j - dst) >= dst {
      ModStep(j - dst, dst - src);
      assert src + (j - dst) - dst == (j - dst) - (dst - src);
    } else {
      SmallMod(j - dst, dst - src);
    }
  }

  /** One more byte copied. */
  lemma CopyStep(was: seq<char>, now: seq<char>, src: nat, dst: nat, i: nat)
    requires |was| == |now| && src < dst && dst + i < |was| && CopiedOverlapping(was, now, src, dst, i)
    ensures CopiedOverlapping(was, now[dst + i := now[src + i]], src, dst, i + 1)
  {
    SourceStep(src, dst, dst + i);
    assert now[src + i] == was[SourceOf(src, dst, dst + i)];
  }

  lemma SmallMod(i: nat, gap: nat)
    requires i < gap
    ensures i % gap == i
  {
  }

  lemma ModStep(i: nat, gap: nat)
    requires gap > 0 && i >= gap
    ensures (i - gap) % gap == i % gap
  {
    DivMod(i, gap);
    DivMod(i - gap, gap);
    var a, b := i / gap, (i - gap) / gap;
    assert gap * (a - b) == gap + (i - gap) % gap - i % gap;
    if a - b < 1 {
      NonPositive(gap, a - b);
    } else if a - b > 1 {
      AtLeastDouble(gap, a - b);
    }
  }

  lemma DivMod(i: nat, gap: nat)
    requires gap > 0
    ensures i == gap * (i / gap) + i % gap && 0 <= i % gap < gap
  {
  }

  lemma NonPositive(gap: nat, d: int)
    requires d < 1
    ensures gap * d <= 0
  {
  }

  lemma AtLeastDouble(gap: nat, d: int)
    requires d > 1
    ensures gap * d >= 2 * gap
  {
  }

  /** The first min(old, new) bytes of the new block are those of the old one. */
  lemma FrontKept(was: seq<char>, now: seq<char>, src: nat, dst: nat, oldSize: nat, newSize: nat, j: nat)
    requires |was| == |now| && src < dst && src + oldSize <= dst && dst + newSize <= |was|
    requires CopiedOverlapping(was, now, src, dst, newSize) && j < oldSize && j < newSize
    ensures now[dst + j] == was[src + j]
  {
    SourceStep(src, dst, dst + j);
  }

  // ---------- the granted blocks ----------

  /** The bytes of a granted range. */
  function BlockAt(bytes: seq<char>, g: Grant): seq<char> {
    if HEAP_BASE <= g.ptr && g.ptr + g.size <= HEAP_BASE + |bytes| then bytes[g.ptr - HEAP_BASE..g.ptr + g.size - HEAP_BASE] else []
  }

  function BlocksOf(bytes: seq<char>, grants: seq<Grant>): (r: seq<seq<char>>)
    ensures |r| == |grants| && forall k :: 0 <= k < |r| ==> r[k] == BlockAt(bytes, grants[k])
  {
    seq(|grants|, k requires 0 <= k < |grants| => BlockAt(bytes, grants[k]))
  }

  /** What is written from `limit` on is in no block below it. */
  lemma BlockBelow(was: seq<char>, now: seq<char>, limit: nat, g: Grant)
    requires |was| == |now| && limit <= HEAP_BASE + |was| && HEAP_BASE <= g.ptr && g.ptr + g.size <= limit
    requires was[..limit - HEAP_BASE] == now[..limit - HEAP_BASE]
    ensures BlockAt(was, g) == BlockAt(now, g)
  {
    var from, to := g.ptr - HEAP_BASE, g.ptr + g.size - HEAP_BASE;
    assert was[from..to] == was[..limit - HEAP_BASE][from..to];
    assert now[from..to] == now[..limit - HEAP_BASE][from..to];
  }

  lemma BlocksBelow(was: seq<char>, now: seq<char>, limit: nat, gs: seq<Grant>)
    requires |was| == |now| && HEAP_BASE <= limit <= HEAP_BASE + |was| && Below(gs, limit)
    requires was[..limit - HEAP_BASE] == now[..limit - HEAP_BASE]
    ensures BlocksOf(was, gs) == BlocksOf(now, gs)
  {
    forall k | 0 <= k < |gs|
      ensures BlockAt(was, gs[k]) == BlockAt(now, gs[k])
    {
      BlockBelow(was, now, limit, gs[k]);
    }
  }

  lemma BlocksSnoc(bytes: seq<char>, gs: seq<Grant>, g: Grant)
    ensures BlocksOf(bytes, gs + [g]) == BlocksOf(bytes, gs) + [BlockAt(bytes, g)]
  {
  }

  /** A request adds one block at the end, or none. */
  lemma BlocksGrow(requests: seq<nat>, size: nat, was: seq<char>, now: seq<char>)
    requires |was| == |now| == HEAP_SIZE && HEAP_BASE <= StartAfter(requests) <= HEAP_END
    requires was[..StartAfter(requests) - HEAP_BASE] == now[..StartAfter(requests) - HEAP_BASE]
    ensures var start, earlier := StartAfter(requests), BlocksOf(was, Grants(requests));
            BlocksOf(now, Grants(requests + [size])) ==
            if start + size > HEAP_END then earlier else earlier + [BlockAt(now, Grant(start, size))]
  {
    GrantsBelow(requests);
    GrantsSnoc(requests, size);
    BlocksAdd(Grants(requests), StartAfter(requests), size, was, now);
  }

  lemma BlocksAdd(gs: seq<Grant>, start: nat, size: nat, was: seq<char>, now: seq<char>)
    requires |was| == |now| == HEAP_SIZE && HEAP_BASE <= start <= HEAP_END && Below(gs, start)
    requires was[..start - HEAP_BASE] == now[..start - HEAP_BASE]
    ensures BlocksOf(now, gs) == BlocksOf(was, gs)
    ensures BlocksOf(now, gs + [Grant(start, size)]) == BlocksOf(was, gs) + [BlockAt(now, Grant(start, size))]
  {
    BlocksBelow(was, now, start, gs);
    BlocksSnoc(now, gs, Grant(start, size));
  }

  function Zeros(n: nat): (r: seq<char>)
    ensures |r| == n && forall j :: 0 <= j < n ==> r[j] == '\0'
  {
    seq(n, _ => '\0')
  }

  lemma ZeroedBlock(bytes: seq<char>, ptr: nat, total: nat)
    requires |bytes| == HEAP_SIZE && HEAP_BASE <= ptr && ptr + total <= HEAP_END
    requires forall j :: ptr - HEAP_BASE <= j < ptr + total - HEAP_BASE ==> bytes[j] == '\0'
    ensures BlockAt(bytes, Grant(ptr, total)) == Zeros(total)
  {
  }

  /** The new block of `realloc` starts with the bytes of the old one, as many as both have. */
  ghost predicate Resized(block: seq<char>, newSize: nat, earlier: seq<char>) {
    |block| == newSize && forall j :: 0 <= j < newSize && j < |earlier| ==> block[j] == earlier[j]
  }

  lemma CopiedBlock(was: seq<char>, now: seq<char>, g: Grant, start: nat, newSize: nat)
    requires |was| == |now| == HEAP_SIZE && start + newSize <= HEAP_END
    requires HEAP_BASE <= g.ptr && g.ptr + g.size <= start
    requires g.ptr < start ==> CopiedOverlapping(was, now, g.ptr - HEAP_BASE, start - HEAP_BASE, newSize)
    ensures Resized(BlockAt(now, Grant(start, newSize)), newSize, BlockAt(was, g))
  {
    var block, earlier := BlockAt(now, Grant(start, newSize)), BlockAt(was, g);
    forall j | 0 <= j < newSize && j < |earlier|
      ensures block[j] == earlier[j]
    {
      FrontKept(was, now, g.ptr - HEAP_BASE, start - HEAP_BASE, g.size, newSize, j);
    }
  }

  // What a caller may ask of the heap; `Resize` names the block that an earlier request got.
  datatype Request = Get(size: nat) | Zeroed(num: nat, size: nat) | Resize(k: nat, size: nat)

  predicate DoesNotWrap(r: Request) {
    match r
    case Get(size) => HEAP_END + size < ADDRESS_LIMIT
    case Zeroed(num, size) => HEAP_END + num * size < ADDRESS_LIMIT
    case Resize(_, size) => HEAP_END + size < ADDRESS_LIMIT
  }

  class KernelHeap {
    // Bytes HEAP_BASE up to HEAP_END; addresses are absolute.
    const bytes: array<char>
    var heapStart: nat
    ghost var requests: seq<nat>

    ghost predicate Valid()
      reads this
    {
      bytes.Length == HEAP_SIZE && heapStart == StartAfter(requests) && HEAP_BASE <= heapStart <= HEAP_END
    }

    /** The contents of the blocks granted so far, in order. */
    ghost function Blocks(): seq<seq<char>>
      reads this, bytes
    {
      BlocksOf(bytes[..], Grants(requests))
    }

    constructor ()
      ensures Valid() && fresh(bytes) && requests == [] && Blocks() == []
    {
      bytes := new char[HEAP_SIZE](_ => '\0');
      heapStart, requests := HEAP_BASE, [];
    }

    method Malloc(size: nat) returns (ptr: nat)
      requires Valid() && heapStart + size < ADDRESS_LIMIT
      modifies this
      ensures Valid() && requests == old(requests) + [size]
      ensures if old(heapStart) + size > HEAP_END then ptr == NULL && heapStart == old(heapStart)
              else ptr == old(heapStart) && heapStart == ptr + size
      ensures Blocks() == old(Blocks()) + if ptr == NULL then [] else [BlockAt(bytes[..], Grant(ptr, size))]
    {
      BlocksGrow(requests, size, bytes[..], bytes[..]);
      assert (requests + [size])[..|requests|] == requests;
      requests := requests + [size];
      if heapStart + size > HEAP_END {
        return NULL;
      }
      ptr := heapStart;
      heapStart := heapStart + size;
    }

    method Calloc(num: nat, size: nat) returns (ptr: nat)
      requires Valid() && heapStart + num * size < ADDRESS_LIMIT
      modifies this, bytes
      ensures Valid() && requests == old(requests) + [num * size]
      ensures ptr == NULL <==> old(heapStart) + num * size > HEAP_END
      ensures if ptr == NULL then heapStart == old(heapStart) else ptr == old(heapStart) && heapStart == ptr + num * size
      ensures ptr != NULL ==> forall j :: ptr - HEAP_BASE <= j < heapStart - HEAP_BASE ==> bytes[j] == '\0'
      ensures forall j :: 0 <= j < old(heapStart) - HEAP_BASE ==> bytes[j] == old(bytes[j])
      ensures Blocks() == old(Blocks()) + if ptr == NULL then [] else [Zeros(num * size)]
    {
      var total := num * size;
      ptr := MallocZeroed(total);
    }

    method MallocZeroed(total: nat) returns (ptr: nat)
      requires Valid() && heapStart + total < ADDRESS_LIMIT
      modifies this, bytes
      ensures Valid() && requests == old(requests) + [total]
      ensures ptr == NULL <==> old(heapStart) + total > HEAP_END
      ensures if ptr == NULL then heapStart == old(heapStart) else ptr == old(heapStart) && heapStart == ptr + total
      ensures ptr != NULL ==> forall j :: ptr - HEAP_BASE <= j < heapStart - HEAP_BASE ==> bytes[j] == '\0'
      ensures forall j :: 0 <= j < old(heapStart) - HEAP_BASE ==> bytes[j] == old(bytes[j])
      ensures Blocks() == old(Blocks()) + if ptr == NULL then [] else [Zeros(total)]
    {
      ghost var was, start := bytes[..], heapStart;
      ptr := Malloc(total);
      if ptr != NULL {
        ZeroFill(ptr - HEAP_BASE, total);
        ZeroedBlock(bytes[..], ptr, total);
      }
      assert bytes[..start - HEAP_BASE] == was[..start - HEAP_BASE];
      BlocksGrow(old(requests), total, was, bytes[..]);
    }

    /** `memset` with zero. */
    method ZeroFill(at: nat, n: nat)
      requires bytes.Length == HEAP_SIZE && at + n <= HEAP_SIZE
      modifies bytes
      ensures forall j :: at <= j < at + n ==> bytes[j] == '\0'
      ensures forall j :: 0 <= j < HEAP_SIZE && !(at <= j < at + n) ==> bytes[j] == old(bytes[j])
    {
      for i := 0 to n
        invariant forall j :: at <= j < at + i ==> bytes[j] == '\0'
        invariant forall j :: 0 <= j < HEAP_SIZE && !(at <= j < at + i) ==> bytes[j] == old(bytes[j])
      {
        bytes[at + i] := '\0';
      }
    }

    /** `memcpy`, in ascending order, to a destination above the source. */
    method CopyUp(src: nat, dst: nat, n: nat)
      requires bytes.Length == HEAP_SIZE && src < dst && dst + n <= HEAP_SIZE
      modifies bytes
      ensures CopiedOverlapping(old(bytes[..]), bytes[..], src, dst, n)
    {
      ghost var was := bytes[..];
      for i := 0 to n
        invariant CopiedOverlapping(was, bytes[..], src, dst, i)
      {
        CopyStep(was, bytes[..], src, dst, i);
        bytes[dst + i] := bytes[src + i];
      }
    }

    /** `memcpy` of a block onto itself. */
    method CopySame(at: nat, n: nat)
      requires bytes.Length == HEAP_SIZE && at + n <= HEAP_SIZE
      modifies bytes
      ensures bytes[..] == old(bytes[..])
    {
      for i := 0 to n
        invariant bytes[..] == old(bytes[..])
      {
        bytes[at + i] := bytes[at + i];
      }
    }

    /** `memcpy` of the old block to the new one, which starts no lower. */
    method CopyBlock(src: nat, dst: nat, n: nat)
      requires bytes.Length == HEAP_SIZE && src <= dst && dst + n <= HEAP_SIZE
      modifies bytes
      ensures if src < dst then CopiedOverlapping(old(bytes[..]), bytes[..], src, dst, n) else bytes[..] == old(bytes[..])
    {
      if src < dst {
        CopyUp(src, dst, n);
      } else {
        CopySame(src, n);
      }
    }

    /**
     `realloc`. Every block granted before keeps its bytes, and the new one starts with those of the old one,
     wherever that came from. The old block lies below `heap_start`. The copy of `newSize` bytes reads past the old
     block when that is shorter, and then over bytes it has just written, but stays inside the heap.
     */
    method Realloc(ptr: nat, newSize: nat) returns (newPtr: nat)
      requires Valid() && heapStart + newSize < ADDRESS_LIMIT
      requires ptr != NULL ==> HEAP_BASE <= ptr <= heapStart
      modifies this, bytes
      ensures Valid() && requests == old(requests) + if newSize == 0 then [] else [newSize]
      ensures newPtr == NULL <==> newSize == 0 || old(heapStart) + newSize > HEAP_END
      ensures if newPtr == NULL then heapStart == old(heapStart) else newPtr == old(heapStart) && heapStart == newPtr + newSize
      ensures if newPtr != NULL && ptr != NULL && ptr < newPtr
              then CopiedOverlapping(old(bytes[..]), bytes[..], ptr - HEAP_BASE, newPtr - HEAP_BASE, newSize)
              else bytes[..] == old(bytes[..])
      ensures Blocks() == old(Blocks()) + if newPtr == NULL then [] else [BlockAt(bytes[..], Grant(newPtr, newSize))]
      ensures newPtr != NULL ==>
                forall k :: 0 <= k < |old(Blocks())| && Grants(old(requests))[k].ptr == ptr ==>
                              Resized(BlockAt(bytes[..], Grant(newPtr, newSize)), newSize, old(Blocks())[k])
    {
      if newSize == 0 {
        assert requests + [] == requests;
        return NULL;
      }
      ghost var was := bytes[..];
      newPtr := Malloc(newSize);
      if newPtr != NULL {
        if ptr != NULL {
          CopyBlock(ptr - HEAP_BASE, newPtr - HEAP_BASE, newSize);
        }
        NewBlock(old(requests), ptr, newPtr, newSize, was, bytes[..]);
      }
    }

    /** What the copy means for the blocks. */
    static lemma NewBlock(requests: seq<nat>, ptr: nat, newPtr: nat, newSize: nat, was: seq<char>, now: seq<char>)
      requires |was| == |now| == HEAP_SIZE && HEAP_BASE <= StartAfter(requests) == newPtr && newPtr + newSize <= HEAP_END
      requires ptr != NULL ==> HEAP_BASE <= ptr <= newPtr
      requires if ptr != NULL && ptr < newPtr
               then CopiedOverlapping(was, now, ptr - HEAP_BASE, newPtr - HEAP_BASE, newSize)
               else now == was
      ensures BlocksOf(now, Grants(requests + [newSize])) == BlocksOf(was, Grants(requests)) + [BlockAt(now, Grant(newPtr, newSize))]
      ensures forall k :: 0 <= k < |Grants(requests)| && Grants(requests)[k].ptr == ptr ==>
                            Resized(BlockAt(now, Grant(newPtr, newSize)), newSize, BlockAt(was, Grants(requests)[k]))
    {
      if ptr != NULL && ptr < newPtr {
        assert was[..newPtr - HEAP_BASE] == now[..newPtr - HEAP_BASE];
      }
      BlocksGrow(requests, newSize, was, now);
      GrantsBelow(requests);
      forall k | 0 <= k < |Grants(requests)| && Grants(requests)[k].ptr == ptr
        ensures Resized(BlockAt(now, Grant(newPtr, newSize)), newSize, BlockAt(was, Grants(requests)[k]))
      {
        CopiedBlock(was, now, Grants(requests)[k], newPtr, newSize);
      }
    }

    /** `Resize` names the pointer that an earlier answer was. */
    method Answer(r: Request, ptrs: seq<nat>) returns (ptr: nat)
      requires Valid() && DoesNotWrap(r) && Pointers(ptrs)
      modifies this, bytes
      ensures Valid() && old(Blocks()) <= Blocks() && Pointers(ptrs + [ptr])
    {
      match r
      case Get(size) => ptr := Malloc(size);
      case Zeroed(num, size) => ptr := Calloc(num, size);
      case Resize(k, size) => ptr := Realloc(if k < |ptrs| then ptrs[k] else NULL, size);
    }

    ghost predicate Pointers(ptrs: seq<nat>)
      reads this
    {
      forall i :: 0 <= i < |ptrs| ==> ptrs[i] == NULL || HEAP_BASE <= ptrs[i] <= heapStart
    }

    /** Over any run of requests, no block that has been granted ever changes. */
    method AnswerAll(rs: seq<Request>) returns (ptrs: seq<nat>)
      requires Valid() && forall i :: 0 <= i < |rs| ==> DoesNotWrap(rs[i])
      modifies this, bytes
      ensures Valid() && old(Blocks()) <= Blocks() && |ptrs| == |rs|
    {
      ptrs := [];
      for i := 0 to |rs|
        invariant Valid() && old(Blocks()) <= Blocks() && |ptrs| == i && Pointers(ptrs)
      {
        var ptr := Answer(rs[i], ptrs);
        ptrs := ptrs + [ptr];
      }
    }
  }
}
