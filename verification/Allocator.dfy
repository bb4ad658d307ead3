/**
 * The freeing-bump allocator as functions on its fields and on the bytes of the linear memory.
 * Every error exit is kept, together with the partial update that precedes it.
 */
module Allocator {
  import opened Common
  import opened HeapLayout

  type Heads = heads: seq<Link> | |heads| == N_ORDERS witness seq(N_ORDERS, _ => Nil)

  datatype State = State(
    bumper: nat,
    heads: Heads,
    totalSize: nat,
    poisoned: bool,
    maxTotalSize: nat,
    maxBumper: nat
  )

  /** What a call leaves behind: the allocator's fields, the memory and the value returned. */
  datatype Step<+T> = Step(state: State, mem: Bytes, result: Result<T, Error>)

  function AlignedBase(heapBase: nat): nat {
    Wrap(heapBase + ALIGNMENT - 1) / ALIGNMENT * ALIGNMENT
  }

  function New(heapBase: nat): State {
    State(AlignedBase(heapBase), seq(N_ORDERS, _ => Nil), 0, false, 0, AlignedBase(heapBase))
  }

  function Bump(bumper: nat, size: nat, heapEnd: nat): (nat, Result<nat, Error>) {
    if Wrap(bumper + size) > heapEnd then (bumper, Err(OutOfSpace))
    else (Wrap(bumper + size), Ok(bumper))
  }

  /** Pops the free list of `order`, or carves a new block when that list is empty. */
  function TakeBlock(s: State, mem: Bytes, order: nat): (State, Result<nat, Error>)
    requires order < N_ORDERS
  {
    match s.heads[order]
    case Ptr(ptr) =>
      if Wrap(Wrap(ptr + OrderSize(order)) + HEADER_SIZE) > |mem| then (s, Err(AssertionFailed)) else
      (match ReadHeader(mem, ptr)
       case Err(e) => (s, Err(e))
       case Ok(Occupied(_)) => (s, Err(OccupiedHeaderInFreeList))
       case Ok(Free(next)) => (s.(heads := s.heads[order := next]), Ok(ptr)))
    case Nil =>
      var (bumper, result) := Bump(s.bumper, BlockSize(order), |mem|);
      (s.(bumper := bumper), result)
  }

  function Allocate(s: State, mem: Bytes, size: nat): Step<nat> {
    if s.poisoned then Step(s, mem, Err(Poisoned)) else
    match OrderFromSize(size)
    case Err(e) => Step(s.(poisoned := true), mem, Err(e))
    case Ok(order) =>
      OrderFromSizeIsLeast(size);
      var (taken, where) := TakeBlock(s, mem, order);
      match where
      case Err(e) => Step(taken.(poisoned := true), mem, Err(e))
      case Ok(ptr) =>
        match WriteHeader(mem, ptr, Occupied(order))
        case Err(e) => Step(taken.(poisoned := true), mem, Err(e))
        case Ok(written) => Step(CountAllocation(taken, order), written, Ok(Wrap(ptr + HEADER_SIZE)))
  }

  /** Adds a block to `total_size` and updates the two high-water trackers. */
  function CountAllocation(s: State, order: nat): State {
    var total := Wrap(s.totalSize + BlockSize(order));
    s.(totalSize := total,
       maxTotalSize := Max(total, s.maxTotalSize),
       maxBumper := Max(s.bumper, s.maxBumper))
  }

  function Deallocate(s: State, mem: Bytes, ptr: nat): Step<()> {
    if s.poisoned then Step(s, mem, Err(Poisoned)) else
    if ptr < HEADER_SIZE then Step(s.(poisoned := true), mem, Err(InvalidPointer)) else
    var header := ptr - HEADER_SIZE;
    match ReadHeader(mem, header)
    case Err(e) => Step(s.(poisoned := true), mem, Err(e))
    case Ok(Free(_)) => Step(s.(poisoned := true), mem, Err(EmptyHeader))
    case Ok(Occupied(order)) =>
      var knitted := s.(heads := s.heads[order := Ptr(header)]);
      match WriteHeader(mem, header, Free(s.heads[order]))
      case Err(e) => Step(knitted.(poisoned := true), mem, Err(e))
      case Ok(written) =>
        if s.totalSize < BlockSize(order)
        then Step(knitted.(poisoned := true), written, Err(SizeUnderflow))
        else Step(knitted.(totalSize := s.totalSize - BlockSize(order)), written, Ok(()))
  }

  // ---- What the bytes mean -----------------------------------------------

  datatype Block = Block(start: nat, order: nat)

  /** A block in use remembers the size the client asked for. */
  datatype Status = InUse(requested: nat) | Vacant

  /**
   * The layout behind a state: the blocks carved so far, from the aligned base upwards; for each
   * block whether it is in use and the header stored in front of it; and for every order the
   * indices of its vacant blocks in free-list order.
   */
  datatype Layout = Layout(
    base: nat,
    blocks: seq<Block>,
    status: seq<Status>,
    headers: seq<Header>,
    free: seq<seq<nat>>
  )

  function BlockEnd(b: Block): nat {
    b.start + BlockSize(b.order)
  }

  function LayoutEnd(base: nat, blocks: seq<Block>): nat {
    if blocks == [] then base else BlockEnd(blocks[|blocks| - 1])
  }

  ghost predicate Tiled(base: nat, blocks: seq<Block>) {
    && base % ALIGNMENT == 0
    && (forall i :: 0 <= i < |blocks| ==> blocks[i].order < N_ORDERS)
    && (blocks != [] ==> blocks[0].start == base)
    && (forall i, j :: 0 <= i && j == i + 1 && j < |blocks| ==> blocks[j].start == BlockEnd(blocks[i]))
  }

  /** `list` holds every vacant block of `order`, once. */
  ghost predicate FreeListOf(blocks: seq<Block>, status: seq<Status>, order: nat, list: seq<nat>) {
    && |status| == |blocks|
    && Distinct(list)
    && (forall k :: 0 <= k < |list| ==> list[k] < |blocks|)
    && (forall i :: 0 <= i < |blocks| ==> (i in list <==> blocks[i].order == order && status[i] == Vacant))
  }

  function LinkTo(blocks: seq<Block>, list: seq<nat>, k: nat): Link {
    if k < |list| && list[k] < |blocks| then Ptr(blocks[list[k]].start) else Nil
  }

  /** The headers of the listed blocks are chained in list order, starting from `head`. */
  ghost predicate Chained(head: Link, blocks: seq<Block>, headers: seq<Header>, list: seq<nat>) {
    && head == LinkTo(blocks, list, 0)
    && forall k :: 0 <= k < |list| ==> list[k] < |headers| && headers[list[k]] == Free(LinkTo(blocks, list, k + 1))
  }

  ghost predicate HeadersInMemory(mem: Bytes, blocks: seq<Block>, headers: seq<Header>) {
    && |headers| == |blocks|
    && (forall i :: 0 <= i < |blocks| ==> ReadHeader(mem, blocks[i].start) == Ok(headers[i]))
  }

  function BytesInUse(blocks: seq<Block>, status: seq<Status>): nat
    requires |blocks| == |status|
  {
    if blocks == [] then 0 else
    var n := |blocks| - 1;
    BytesInUse(blocks[..n], status[..n]) + if status[n].InUse? then BlockSize(blocks[n].order) else 0
  }

  /** A block in use is marked so in its header and has the order its request calls for. */
  ghost predicate InUseBlocks(layout: Layout) {
    && |layout.blocks| == |layout.status| == |layout.headers|
    && forall i :: 0 <= i < |layout.blocks| && layout.status[i].InUse? ==>
         && layout.headers[i] == Occupied(layout.blocks[i].order)
         && OrderFromSize(layout.status[i].requested) == Ok(layout.blocks[i].order)
  }

  ghost predicate FreeLists(heads: Heads, layout: Layout) {
    && |layout.free| == N_ORDERS
    && (forall o :: 0 <= o < N_ORDERS ==> FreeListOf(layout.blocks, layout.status, o, layout.free[o]))
    && (forall o :: 0 <= o < N_ORDERS ==> Chained(heads[o], layout.blocks, layout.headers, layout.free[o]))
  }

  /** Room for one more maximal block never overflows a u32. */
  predicate Addressable(base: nat, memSize: nat) {
    && base + MAX_ALLOCATION + HEADER_SIZE < U32_RANGE
    && memSize + MAX_ALLOCATION + HEADER_SIZE < U32_RANGE
  }

  ghost predicate Valid(s: State, mem: Bytes, layout: Layout) {
    && Addressable(layout.base, |mem|)
    && Tiled(layout.base, layout.blocks)
    && s.bumper == LayoutEnd(layout.base, layout.blocks)
    && (layout.blocks != [] ==> s.bumper <= |mem|)
    && FreeLists(s.heads, layout)
    && HeadersInMemory(mem, layout.blocks, layout.headers)
    && InUseBlocks(layout)
    && s.totalSize == BytesInUse(layout.blocks, layout.status)
    && s.maxBumper == s.bumper
    && s.totalSize <= s.maxTotalSize
  }

  // ---- Tiling ------------------------------------------------------------

  /** Blocks follow one another without overlap. */
  lemma {:induction false} TiledInOrder(base: nat, blocks: seq<Block>, i: nat, j: nat)
    requires Tiled(base, blocks) && i < j < |blocks|
    ensures BlockEnd(blocks[i]) <= blocks[j].start
    decreases j - i
  {
    assert blocks[i + 1].start == BlockEnd(blocks[i]);
    if i + 1 < j {
      TiledInOrder(base, blocks, i + 1, j);
    }
  }

  /** Blocks lie aligned between the base and the end. */
  lemma {:induction false} TiledBounds(base: nat, blocks: seq<Block>, i: nat)
    requires Tiled(base, blocks) && i < |blocks|
    ensures base <= blocks[i].start
    ensures blocks[i].start % ALIGNMENT == 0 && BlockEnd(blocks[i]) % ALIGNMENT == 0
    ensures BlockEnd(blocks[i]) <= LayoutEnd(base, blocks)
    decreases i
  {
    OrderSizeBounds(blocks[i].order);
    if i > 0 {
      TiledBounds(base, blocks, i - 1);
      assert blocks[i].start == BlockEnd(blocks[i - 1]);
    }
    if i < |blocks| - 1 {
      TiledInOrder(base, blocks, i, |blocks| - 1);
    }
  }

  /** Two different blocks share no byte. */
  lemma TiledDisjoint(base: nat, blocks: seq<Block>, i: nat, j: nat)
    requires Tiled(base, blocks) && i < |blocks| && j < |blocks| && i != j
    ensures BlockEnd(blocks[i]) <= blocks[j].start || BlockEnd(blocks[j]) <= blocks[i].start
  {
    if i < j { TiledInOrder(base, blocks, i, j); } else { TiledInOrder(base, blocks, j, i); }
  }

  lemma TiledAppend(base: nat, blocks: seq<Block>, order: nat)
    requires Tiled(base, blocks) && order < N_ORDERS
    ensures Tiled(base, blocks + [Block(LayoutEnd(base, blocks), order)])
  {
  }

  // ---- Bytes in use ------------------------------------------------------

  function InUseSize(block: Block, status: Status): nat {
    if status.InUse? then BlockSize(block.order) else 0
  }

  lemma {:induction false} BytesInUseUpdate(blocks: seq<Block>, status: seq<Status>, i: nat, updated: Status)
    requires i < |blocks| == |status|
    ensures BytesInUse(blocks, status[i := updated]) + InUseSize(blocks[i], status[i])
            == BytesInUse(blocks, status) + InUseSize(blocks[i], updated)
  {
    var n := |blocks| - 1;
    if i < n {
      BytesInUseUpdate(blocks[..n], status[..n], i, updated);
      assert status[i := updated][..n] == status[..n][i := updated];
    } else {
      assert status[i := updated][..n] == status[..n];
    }
  }

  lemma {:induction false} BytesInUseBound(base: nat, blocks: seq<Block>, status: seq<Status>)
    requires Tiled(base, blocks) && |blocks| == |status|
    ensures BytesInUse(blocks, status) <= LayoutEnd(base, blocks) - base
  {
    if blocks != [] {
      var n := |blocks| - 1;
      BytesInUseBound(base, blocks[..n], status[..n]);
      if n > 0 { assert blocks[n].start == BlockEnd(blocks[n - 1]); }
    }
  }

  // ---- Memory frames -----------------------------------------------------

  lemma BlockInHeap(s: State, mem: Bytes, layout: Layout, i: nat)
    requires Valid(s, mem, layout) && i < |layout.blocks|
    ensures InHeap(mem, layout.blocks[i].start)
    ensures BlockEnd(layout.blocks[i]) <= s.bumper <= |mem|
    ensures layout.blocks[i].start % ALIGNMENT == 0
    ensures layout.base <= layout.blocks[i].start
  {
    TiledBounds(layout.base, layout.blocks, i);
    OrderSizeBounds(layout.blocks[i].order);
  }

  /** Except at `except`, the bytes of every block header are unchanged. */
  ghost predicate SameHeaderBytes(mem: Bytes, after: Bytes, blocks: seq<Block>, except: int) {
    && |mem| <= |after|
    && forall i, a :: 0 <= i < |blocks| && i != except && blocks[i].start <= a < blocks[i].start + 8 && a < |mem|
                      ==> after[a] == mem[a]
  }

  lemma HeadersKept(s: State, mem: Bytes, layout: Layout, after: Bytes, except: int)
    requires Valid(s, mem, layout)
    requires SameHeaderBytes(mem, after, layout.blocks, except)
    ensures forall i :: 0 <= i < |layout.blocks| && i != except ==>
              ReadHeader(after, layout.blocks[i].start) == Ok(layout.headers[i])
  {
    forall i | 0 <= i < |layout.blocks| && i != except
      ensures ReadHeader(after, layout.blocks[i].start) == Ok(layout.headers[i])
    {
      BlockInHeap(s, mem, layout, i);
      HeaderDependsOnItsBytes(mem, after, layout.blocks[i].start);
    }
  }

  /** Memory may grow, and bytes outside all block headers may change, without harm. */
  lemma ValidUnderPayloadChange(s: State, mem: Bytes, layout: Layout, after: Bytes)
    requires Valid(s, mem, layout)
    requires SameHeaderBytes(mem, after, layout.blocks, -1)
    requires Addressable(layout.base, |after|)
    ensures Valid(s, after, layout)
  {
    HeadersKept(s, mem, layout, after, -1);
  }

  /** Overwriting one block's header changes that header and no other. */
  lemma RewriteHeader(s: State, mem: Bytes, layout: Layout, at: nat, header: Header)
    requires Valid(s, mem, layout) && at < |layout.blocks| && ValidHeader(header)
    ensures var write := WriteHeader(mem, layout.blocks[at].start, header);
            && write.Ok? && |write.value| == |mem|
            && HeadersInMemory(write.value, layout.blocks, layout.headers[at := header])
  {
    var start := layout.blocks[at].start;
    BlockInHeap(s, mem, layout, at);
    HeaderRoundTrip(mem, start, header);
    WriteHeaderFrame(mem, start, header);
    forall i | 0 <= i < |layout.blocks| && i != at
      ensures layout.blocks[i].start + 8 <= start || start + 8 <= layout.blocks[i].start
    {
      TiledDisjoint(layout.base, layout.blocks, i, at);
    }
    HeadersKept(s, mem, layout, WriteHeader(mem, start, header).value, at);
  }

  // ---- Free lists --------------------------------------------------------

  lemma FreeListPop(blocks: seq<Block>, status: seq<Status>, order: nat, list: seq<nat>, size: nat)
    requires FreeListOf(blocks, status, order, list) && list != []
    ensures FreeListOf(blocks, status[list[0] := InUse(size)], order, list[1..])
  {
    assert list == [list[0]] + list[1..];
    assert list[0] !in list[1..];
  }

  lemma FreeListPush(blocks: seq<Block>, status: seq<Status>, order: nat, list: seq<nat>, i: nat)
    requires FreeListOf(blocks, status, order, list)
    requires i < |blocks| && blocks[i].order == order && status[i].InUse?
    ensures FreeListOf(blocks, status[i := Vacant], order, [i] + list)
  {
    assert i !in list;
  }

  lemma FreeListUntouched(blocks: seq<Block>, status: seq<Status>, order: nat, list: seq<nat>, i: nat, updated: Status)
    requires FreeListOf(blocks, status, order, list)
    requires i < |blocks| && blocks[i].order != order
    ensures FreeListOf(blocks, status[i := updated], order, list)
  {
  }

  lemma ChainedPop(head: Link, blocks: seq<Block>, headers: seq<Header>, list: seq<nat>, header: Header)
    requires Chained(head, blocks, headers, list) && list != [] && Distinct(list)
    ensures Chained(LinkTo(blocks, list, 1), blocks, headers[list[0] := header], list[1..])
  {
    forall k | 0 <= k < |list[1..]|
      ensures headers[list[0] := header][list[1..][k]] == Free(LinkTo(blocks, list[1..], k + 1))
    {
      assert list[1..][k] == list[k + 1];
    }
  }

  lemma ChainedPush(head: Link, blocks: seq<Block>, headers: seq<Header>, list: seq<nat>, i: nat)
    requires Chained(head, blocks, headers, list) && i < |blocks| == |headers| && i !in list
    ensures Chained(Ptr(blocks[i].start), blocks, headers[i := Free(head)], [i] + list)
  {
    var longer := [i] + list;
    forall k | 0 <= k < |longer|
      ensures headers[i := Free(head)][longer[k]] == Free(LinkTo(blocks, longer, k + 1))
    {
      if k > 0 { assert longer[k] == list[k - 1]; }
    }
  }

  lemma ChainedUntouched(head: Link, blocks: seq<Block>, headers: seq<Header>, list: seq<nat>, i: nat, header: Header)
    requires Chained(head, blocks, headers, list) && i < |headers| && i !in list
    ensures Chained(head, blocks, headers[i := header], list)
  {
  }

  // ---- Allocation --------------------------------------------------------

  function Reuse(layout: Layout, order: nat, size: nat): Layout
    requires order < |layout.free| && layout.free[order] != []
    requires layout.free[order][0] < |layout.blocks| == |layout.status| == |layout.headers|
  {
    var i := layout.free[order][0];
    layout.(status := layout.status[i := InUse(size)],
            headers := layout.headers[i := Occupied(order)],
            free := layout.free[order := layout.free[order][1..]])
  }

  function Carve(layout: Layout, order: nat, size: nat): Layout {
    layout.(blocks := layout.blocks + [Block(LayoutEnd(layout.base, layout.blocks), order)],
            status := layout.status + [InUse(size)],
            headers := layout.headers + [Occupied(order)])
  }

  /** The bookkeeping when no u32 overflows. */
  function Counted(s: State, order: nat): State {
    s.(totalSize := s.totalSize + BlockSize(order),
       maxTotalSize := Max(s.totalSize + BlockSize(order), s.maxTotalSize),
       maxBumper := Max(s.bumper, s.maxBumper))
  }

  /** Once a block is found and its header written, only the bookkeeping remains. */
  lemma AllocateSucceeds(s: State, mem: Bytes, size: nat, order: nat, taken: State, ptr: nat)
    requires !s.poisoned && OrderFromSize(size) == Ok(order) && order < N_ORDERS
    requires TakeBlock(s, mem, order) == (taken, Ok(ptr))
    requires WriteHeader(mem, ptr, Occupied(order)).Ok?
    requires taken.totalSize + BlockSize(order) < U32_RANGE && ptr + HEADER_SIZE < U32_RANGE
    ensures Allocate(s, mem, size) ==
              Step(Counted(taken, order), WriteHeader(mem, ptr, Occupied(order)).value, Ok(ptr + HEADER_SIZE))
  {
  }

  lemma TakeFromList(s: State, mem: Bytes, layout: Layout, order: nat)
    requires Valid(s, mem, layout) && order < N_ORDERS && layout.free[order] != []
    ensures FreeListOf(layout.blocks, layout.status, order, layout.free[order])
    ensures var next := LinkTo(layout.blocks, layout.free[order], 1);
            TakeBlock(s, mem, order) ==
              (s.(heads := s.heads[order := next]), Ok(layout.blocks[layout.free[order][0]].start))
  {
    hide FromLittleEndian, Pow2, HeaderFromRaw, ReadHeader;
    var list := layout.free[order];
    assert FreeListOf(layout.blocks, layout.status, order, list);
    assert Chained(s.heads[order], layout.blocks, layout.headers, list);
    assert list[0] in list;
    BlockInHeap(s, mem, layout, list[0]);
  }

  lemma TakeFromBumper(s: State, mem: Bytes, layout: Layout, order: nat)
    requires Valid(s, mem, layout) && order < N_ORDERS && layout.free[order] == []
    ensures TakeBlock(s, mem, order) ==
              if s.bumper + BlockSize(order) > |mem| then (s, Err(OutOfSpace))
              else (s.(bumper := s.bumper + BlockSize(order)), Ok(s.bumper))
  {
    OrderSizeBounds(order);
    assert Chained(s.heads[order], layout.blocks, layout.headers, layout.free[order]);
    assert s.bumper + BlockSize(order) < U32_RANGE;
  }

  lemma ReuseKeepsFreeLists(heads: Heads, layout: Layout, order: nat, size: nat)
    requires FreeLists(heads, layout) && |layout.headers| == |layout.blocks|
    requires order < N_ORDERS && layout.free[order] != []
    ensures FreeListOf(layout.blocks, layout.status, order, layout.free[order])
    ensures FreeLists(heads[order := LinkTo(layout.blocks, layout.free[order], 1)], Reuse(layout, order, size))
  {
    var list := layout.free[order];
    assert FreeListOf(layout.blocks, layout.status, order, list);
    var i := list[0];
    assert i in list;
    var after := Reuse(layout, order, size);
    forall o | 0 <= o < N_ORDERS
      ensures FreeListOf(after.blocks, after.status, o, after.free[o])
      ensures Chained(heads[order := LinkTo(layout.blocks, list, 1)][o], after.blocks, after.headers, after.free[o])
    {
      if o == order {
        FreeListPop(layout.blocks, layout.status, order, list, size);
        ChainedPop(heads[order], layout.blocks, layout.headers, list, Occupied(order));
      } else {
        FreeListUntouched(layout.blocks, layout.status, o, layout.free[o], i, InUse(size));
        ChainedUntouched(heads[o], layout.blocks, layout.headers, layout.free[o], i, Occupied(order));
      }
    }
  }

  lemma ReuseValid(s: State, mem: Bytes, layout: Layout, order: nat, size: nat, written: Bytes)
    requires Valid(s, mem, layout) && OrderFromSize(size) == Ok(order) && order < N_ORDERS
    requires FreeListOf(layout.blocks, layout.status, order, layout.free[order]) && layout.free[order] != []
    requires |written| == |mem| && HeadersInMemory(written, layout.blocks, Reuse(layout, order, size).headers)
    ensures s.totalSize + BlockSize(order) < U32_RANGE
    ensures Valid(Counted(s.(heads := s.heads[order := LinkTo(layout.blocks, layout.free[order], 1)]), order),
                  written, Reuse(layout, order, size))
  {
    var i := layout.free[order][0];
    assert i in layout.free[order];
    ReuseKeepsFreeLists(s.heads, layout, order, size);
    BytesInUseUpdate(layout.blocks, layout.status, i, InUse(size));
    BytesInUseBound(layout.base, layout.blocks, layout.status[i := InUse(size)]);
  }

  /** Popping the head of a free list hands out a vacant block of the right order. */
  lemma AllocateReuses(s: State, mem: Bytes, layout: Layout, size: nat, order: nat)
    requires Valid(s, mem, layout) && !s.poisoned
    requires OrderFromSize(size) == Ok(order) && order < N_ORDERS && layout.free[order] != []
    ensures FreeListOf(layout.blocks, layout.status, order, layout.free[order])
    ensures var step := Allocate(s, mem, size);
            var block := layout.blocks[layout.free[order][0]];
            && step.result == Ok(block.start + HEADER_SIZE)
            && !step.state.poisoned
            && |step.mem| == |mem|
            && Valid(step.state, step.mem, Reuse(layout, order, size))
  {
    TakeFromList(s, mem, layout, order);
    var list := layout.free[order];
    var i := list[0];
    var block := layout.blocks[i];
    BlockInHeap(s, mem, layout, i);
    RewriteHeader(s, mem, layout, i, Occupied(order));
    ReuseValid(s, mem, layout, order, size, WriteHeader(mem, block.start, Occupied(order)).value);
    AllocateSucceeds(s, mem, size, order, s.(heads := s.heads[order := LinkTo(layout.blocks, list, 1)]), block.start);
  }

  lemma CarveKeepsTiling(layout: Layout, order: nat, size: nat)
    requires Tiled(layout.base, layout.blocks) && |layout.blocks| == |layout.status| && order < N_ORDERS
    ensures var after := Carve(layout, order, size);
            && Tiled(layout.base, after.blocks)
            && LayoutEnd(layout.base, after.blocks) == LayoutEnd(layout.base, layout.blocks) + BlockSize(order)
            && BytesInUse(after.blocks, after.status) == BytesInUse(layout.blocks, layout.status) + BlockSize(order)
            && BytesInUse(after.blocks, after.status) <= LayoutEnd(layout.base, after.blocks)
  {
    TiledAppend(layout.base, layout.blocks, order);
    var after := Carve(layout, order, size);
    var n := |layout.blocks|;
    assert after.blocks[..n] == layout.blocks && after.status[..n] == layout.status;
    BytesInUseBound(layout.base, after.blocks, after.status);
  }

  lemma CarveKeepsFreeLists(heads: Heads, layout: Layout, order: nat, size: nat)
    requires FreeLists(heads, layout) && |layout.headers| == |layout.blocks|
    ensures FreeLists(heads, Carve(layout, order, size))
  {
    var after := Carve(layout, order, size);
    forall o | 0 <= o < N_ORDERS
      ensures FreeListOf(after.blocks, after.status, o, after.free[o])
      ensures Chained(heads[o], after.blocks, after.headers, after.free[o])
    {
      assert FreeListOf(layout.blocks, layout.status, o, layout.free[o]);
      assert Chained(heads[o], layout.blocks, layout.headers, layout.free[o]);
    }
  }

  /** Writing a header at the bumper disturbs no existing block. */
  lemma HeaderAtBumper(s: State, mem: Bytes, layout: Layout, order: nat)
    requires Valid(s, mem, layout) && order < N_ORDERS && s.bumper + BlockSize(order) <= |mem|
    ensures var write := WriteHeader(mem, s.bumper, Occupied(order));
            && write.Ok? && |write.value| == |mem|
            && HeadersInMemory(write.value, layout.blocks + [Block(s.bumper, order)], layout.headers + [Occupied(order)])
  {
    HeaderRoundTrip(mem, s.bumper, Occupied(order));
    WriteHeaderFrame(mem, s.bumper, Occupied(order));
    forall i | 0 <= i < |layout.blocks| ensures layout.blocks[i].start + 8 <= s.bumper {
      BlockInHeap(s, mem, layout, i);
    }
    HeadersKept(s, mem, layout, WriteHeader(mem, s.bumper, Occupied(order)).value, -1);
  }

  lemma CarveValid(s: State, mem: Bytes, layout: Layout, order: nat, size: nat, written: Bytes)
    requires Valid(s, mem, layout) && OrderFromSize(size) == Ok(order) && order < N_ORDERS
    requires s.bumper + BlockSize(order) <= |mem| == |written|
    requires HeadersInMemory(written, Carve(layout, order, size).blocks, Carve(layout, order, size).headers)
    ensures s.totalSize + BlockSize(order) < U32_RANGE
    ensures Valid(Counted(s.(bumper := s.bumper + BlockSize(order)), order), written, Carve(layout, order, size))
  {
    CarveKeepsTiling(layout, order, size);
    CarveKeepsFreeLists(s.heads, layout, order, size);
  }

  /** With an empty free list the block is carved at the bumper, provided it fits. */
  lemma AllocateCarves(s: State, mem: Bytes, layout: Layout, size: nat, order: nat)
    requires Valid(s, mem, layout) && !s.poisoned
    requires OrderFromSize(size) == Ok(order) && order < N_ORDERS && layout.free[order] == []
    requires s.bumper + BlockSize(order) <= |mem|
    ensures var step := Allocate(s, mem, size);
            && step.result == Ok(s.bumper + HEADER_SIZE)
            && !step.state.poisoned
            && |step.mem| == |mem|
            && Valid(step.state, step.mem, Carve(layout, order, size))
  {
    TakeFromBumper(s, mem, layout, order);
    HeaderAtBumper(s, mem, layout, order);
    CarveValid(s, mem, layout, order, size, WriteHeader(mem, s.bumper, Occupied(order)).value);
    AllocateSucceeds(s, mem, size, order, s.(bumper := s.bumper + BlockSize(order)), s.bumper);
  }

  /** An allocation that cannot be served poisons the allocator and changes nothing else. */
  lemma AllocateFails(s: State, mem: Bytes, layout: Layout, size: nat)
    requires Valid(s, mem, layout) && !s.poisoned
    requires size <= MAX_ALLOCATION ==>
               var order := OrderFromSize(size);
               order.Ok? && order.value < N_ORDERS && layout.free[order.value] == []
               && s.bumper + BlockSize(order.value) > |mem|
    ensures Allocate(s, mem, size) ==
              Step(s.(poisoned := true), mem, Err(if size > MAX_ALLOCATION then TooLarge else OutOfSpace))
    ensures Valid(s.(poisoned := true), mem, layout)
  {
    OrderFromSizeIsLeast(size);
    if size <= MAX_ALLOCATION {
      TakeFromBumper(s, mem, layout, OrderFromSize(size).value);
    }
  }

  // ---- Deallocation ------------------------------------------------------

  function Release(layout: Layout, i: nat, head: Link): Layout
    requires i < |layout.blocks| == |layout.status| == |layout.headers| && layout.blocks[i].order < |layout.free|
  {
    var order := layout.blocks[i].order;
    layout.(status := layout.status[i := Vacant],
            headers := layout.headers[i := Free(head)],
            free := layout.free[order := [i] + layout.free[order]])
  }

  lemma ReleaseKeepsFreeLists(heads: Heads, layout: Layout, i: nat)
    requires FreeLists(heads, layout) && InUseBlocks(layout)
    requires i < |layout.blocks| && layout.status[i].InUse? && layout.blocks[i].order < N_ORDERS
    ensures var order := layout.blocks[i].order;
            FreeLists(heads[order := Ptr(layout.blocks[i].start)], Release(layout, i, heads[order]))
  {
    var order := layout.blocks[i].order;
    var after := Release(layout, i, heads[order]);
    forall o | 0 <= o < N_ORDERS
      ensures FreeListOf(after.blocks, after.status, o, after.free[o])
      ensures Chained(heads[order := Ptr(layout.blocks[i].start)][o], after.blocks, after.headers, after.free[o])
    {
      var list := layout.free[o];
      assert FreeListOf(layout.blocks, layout.status, o, list);
      assert i !in list;
      if o == order {
        FreeListPush(layout.blocks, layout.status, order, list, i);
        ChainedPush(heads[order], layout.blocks, layout.headers, list, i);
      } else {
        FreeListUntouched(layout.blocks, layout.status, o, list, i, Vacant);
        ChainedUntouched(heads[o], layout.blocks, layout.headers, list, i, Free(heads[order]));
      }
    }
  }

  lemma {:induction false} InUseAtMostTotal(blocks: seq<Block>, status: seq<Status>, i: nat)
    requires i < |blocks| == |status| && status[i].InUse?
    ensures BlockSize(blocks[i].order) <= BytesInUse(blocks, status)
  {
    var n := |blocks| - 1;
    if i < n { InUseAtMostTotal(blocks[..n], status[..n], i); }
  }

  lemma ReleaseValid(s: State, mem: Bytes, layout: Layout, i: nat, written: Bytes)
    requires Valid(s, mem, layout) && i < |layout.blocks| && layout.status[i].InUse?
    requires |written| == |mem|
    requires HeadersInMemory(written, layout.blocks, Release(layout, i, s.heads[layout.blocks[i].order]).headers)
    ensures var order := layout.blocks[i].order;
            && BlockSize(order) <= s.totalSize
            && Valid(s.(heads := s.heads[order := Ptr(layout.blocks[i].start)], totalSize := s.totalSize - BlockSize(order)),
                     written, Release(layout, i, s.heads[order]))
  {
    ReleaseKeepsFreeLists(s.heads, layout, i);
    InUseAtMostTotal(layout.blocks, layout.status, i);
    BytesInUseUpdate(layout.blocks, layout.status, i, Vacant);
  }

  /** Once the header is known to be occupied and is rewritten, deallocation succeeds. */
  lemma DeallocateSucceeds(s: State, mem: Bytes, header: nat, order: nat)
    requires !s.poisoned && order < N_ORDERS && ReadHeader(mem, header) == Ok(Occupied(order))
    requires WriteHeader(mem, header, Free(s.heads[order])).Ok? && BlockSize(order) <= s.totalSize
    ensures Deallocate(s, mem, header + HEADER_SIZE) ==
              Step(s.(heads := s.heads[order := Ptr(header)], totalSize := s.totalSize - BlockSize(order)),
                   WriteHeader(mem, header, Free(s.heads[order])).value, Ok(()))
  {
  }

  /** Freeing a live block always succeeds and puts it at the head of its order's list. */
  lemma DeallocateReleases(s: State, mem: Bytes, layout: Layout, i: nat)
    requires Valid(s, mem, layout) && !s.poisoned
    requires i < |layout.blocks| && layout.status[i].InUse?
    ensures var step := Deallocate(s, mem, layout.blocks[i].start + HEADER_SIZE);
            && step.result == Ok(())
            && !step.state.poisoned
            && |step.mem| == |mem|
            && Valid(step.state, step.mem, Release(layout, i, s.heads[layout.blocks[i].order]))
  {
    var block := layout.blocks[i];
    var order := block.order;
    HeadIsValid(s, mem, layout, order);
    RewriteHeader(s, mem, layout, i, Free(s.heads[order]));
    ReleaseValid(s, mem, layout, i, WriteHeader(mem, block.start, Free(s.heads[order])).value);
    DeallocateSucceeds(s, mem, block.start, order);
  }

  lemma HeadIsValid(s: State, mem: Bytes, layout: Layout, order: nat)
    requires Valid(s, mem, layout) && order < N_ORDERS
    ensures ValidHeader(Free(s.heads[order]))
  {
    assert FreeListOf(layout.blocks, layout.status, order, layout.free[order]);
    assert Chained(s.heads[order], layout.blocks, layout.headers, layout.free[order]);
    if layout.free[order] != [] { BlockInHeap(s, mem, layout, layout.free[order][0]); }
  }

  /**
   * Freeing what is not held: a pointer below the first header, one whose header lies outside the
   * memory, and one to a block that is free already are refused. The allocator is poisoned and
   * nothing else changes.
   */
  lemma BadFreeRefused(s: State, mem: Bytes, layout: Layout, ptr: nat)
    requires Valid(s, mem, layout) && !s.poisoned
    ensures ptr < HEADER_SIZE ==> Deallocate(s, mem, ptr) == Step(s.(poisoned := true), mem, Err(InvalidPointer))
    ensures ptr >= HEADER_SIZE && ptr > |mem| ==> Deallocate(s, mem, ptr) == Step(s.(poisoned := true), mem, Err(ReadOutOfBounds))
    ensures forall i :: 0 <= i < |layout.blocks| && layout.status[i] == Vacant && ptr == layout.blocks[i].start + HEADER_SIZE ==>
              Deallocate(s, mem, ptr) == Step(s.(poisoned := true), mem, Err(EmptyHeader))
  {
    hide FromLittleEndian, Tiled, BytesInUse;
    forall i | 0 <= i < |layout.blocks| && layout.status[i] == Vacant ensures layout.headers[i].Free? {
      VacantIsFree(s, mem, layout, i);
    }
  }

  lemma VacantIsFree(s: State, mem: Bytes, layout: Layout, i: nat)
    requires Valid(s, mem, layout) && i < |layout.blocks| && layout.status[i] == Vacant
    ensures layout.headers[i].Free?
  {
    hide ReadHeader, BytesInUse;
    var order := layout.blocks[i].order;
    BlockInHeap(s, mem, layout, i);
    assert FreeListOf(layout.blocks, layout.status, order, layout.free[order]);
    assert i in layout.free[order];
    var k :| 0 <= k < |layout.free[order]| && layout.free[order][k] == i;
    assert Chained(s.heads[order], layout.blocks, layout.headers, layout.free[order]);
  }
}
