/**
 * Whole runs of the allocator: a client that allocates, frees what it holds, writes the payload
 * of live allocations and lets the linear memory grow.
 */
module AllocatorRuns {
  import opened Common
  import opened HeapLayout
  import opened Allocator

  /** `live` maps every pointer the client holds to the size it asked for. */
  datatype Client = Client(state: State, mem: Bytes, live: map<nat, nat>)

  datatype Op =
    | Alloc(size: nat)
    | Dealloc(ptr: nat)
    | WritePayload(ptr: nat, offset: nat, data: Bytes)
    | Grow(extra: Bytes)

  function PayloadSize(size: nat): nat {
    match OrderFromSize(size)
    case Ok(order) => OrderSize(order)
    case Err(_) => 0
  }

  predicate Permitted(base: nat, c: Client, op: Op) {
    match op
    case Alloc(_) => true
    case Dealloc(ptr) => ptr in c.live
    case WritePayload(ptr, offset, data) => ptr in c.live && offset + |data| <= PayloadSize(c.live[ptr])
    case Grow(extra) => Addressable(base, |c.mem| + |extra|)
  }

  function Overwrite(mem: Bytes, at: nat, data: Bytes): (r: Bytes)
    ensures |r| == |mem|
    ensures forall i :: 0 <= i < |mem| && !(at <= i < at + |data|) ==> r[i] == mem[i]
  {
    if at + |data| <= |mem| then mem[..at] + data + mem[at + |data|..] else mem
  }

  function Apply(c: Client, op: Op): (Client, Option<Error>) {
    match op
    case Alloc(size) =>
      var step := Allocate(c.state, c.mem, size);
      (match step.result
       case Ok(ptr) => (Client(step.state, step.mem, c.live[ptr := size]), None)
       case Err(e) => (Client(step.state, step.mem, c.live), Some(e)))
    case Dealloc(ptr) =>
      var step := Deallocate(c.state, c.mem, ptr);
      (match step.result
       case Ok(_) => (Client(step.state, step.mem, c.live - {ptr}), None)
       case Err(e) => (Client(step.state, step.mem, c.live), Some(e)))
    case WritePayload(ptr, offset, data) => (c.(mem := Overwrite(c.mem, ptr + offset, data)), None)
    case Grow(extra) => (c.(mem := c.mem + extra), None)
  }

  function Run(c: Client, ops: seq<Op>): Client
    decreases |ops|
  {
    if ops == [] then c else Run(Apply(c, ops[0]).0, ops[1..])
  }

  predicate AllPermitted(base: nat, c: Client, ops: seq<Op>)
    decreases |ops|
  {
    ops == [] || (Permitted(base, c, ops[0]) && AllPermitted(base, Apply(c, ops[0]).0, ops[1..]))
  }

  // ---- The client's view agrees with the layout --------------------------

  ghost predicate Holds(blocks: seq<Block>, status: seq<Status>, i: int, ptr: nat) {
    0 <= i < |blocks| == |status| && status[i].InUse? && blocks[i].start + HEADER_SIZE == ptr
  }

  /** The pointers held are those of the blocks in use, with the sizes asked for. */
  ghost predicate Matches(live: map<nat, nat>, blocks: seq<Block>, status: seq<Status>) {
    && |blocks| == |status|
    && (forall i, ptr :: Holds(blocks, status, i, ptr) ==> ptr in live && live[ptr] == status[i].requested)
    && (forall ptr :: ptr in live ==> exists i :: Holds(blocks, status, i, ptr))
  }

  ghost predicate Consistent(base: nat, c: Client, layout: Layout) {
    && Valid(c.state, c.mem, layout)
    && layout.base == base
    && Matches(c.live, layout.blocks, layout.status)
  }

  lemma StartsIncrease(base: nat, blocks: seq<Block>)
    requires Tiled(base, blocks)
    ensures forall i, j :: 0 <= i < j < |blocks| ==> blocks[i].start < blocks[j].start
  {
    forall i, j | 0 <= i < j < |blocks| ensures blocks[i].start < blocks[j].start {
      TiledInOrder(base, blocks, i, j);
    }
  }

  lemma MatchesInUse(base: nat, live: map<nat, nat>, blocks: seq<Block>, status: seq<Status>, i: nat, size: nat)
    requires Tiled(base, blocks) && Matches(live, blocks, status) && i < |blocks| && status[i] == Vacant
    ensures Matches(live[blocks[i].start + HEADER_SIZE := size], blocks, status[i := InUse(size)])
  {
    StartsIncrease(base, blocks);
    var ptr := blocks[i].start + HEADER_SIZE;
    var after := status[i := InUse(size)];
    forall j, q | Holds(blocks, after, j, q)
      ensures q in live[ptr := size] && live[ptr := size][q] == after[j].requested
    {
      if j != i { assert Holds(blocks, status, j, q); }
    }
    var live' := live[ptr := size];
    forall q | q in live' ensures exists j :: Holds(blocks, after, j, q) {
      if q == ptr {
        assert Holds(blocks, after, i, q);
      } else {
        var j :| Holds(blocks, status, j, q);
        assert Holds(blocks, after, j, q);
      }
    }
  }

  lemma MatchesVacant(base: nat, live: map<nat, nat>, blocks: seq<Block>, status: seq<Status>, i: nat, ptr: nat)
    requires Tiled(base, blocks) && Matches(live, blocks, status) && Holds(blocks, status, i, ptr)
    ensures Matches(live - {ptr}, blocks, status[i := Vacant])
  {
    StartsIncrease(base, blocks);
    var after := status[i := Vacant];
    forall j, q | Holds(blocks, after, j, q)
      ensures q in live - {ptr} && (live - {ptr})[q] == after[j].requested
    {
      assert Holds(blocks, status, j, q);
    }
    forall q | q in live - {ptr} ensures exists j :: Holds(blocks, after, j, q) {
      var j :| Holds(blocks, status, j, q);
      assert Holds(blocks, after, j, q);
    }
  }

  lemma MatchesCarved(base: nat, live: map<nat, nat>, blocks: seq<Block>, status: seq<Status>, b: Block, size: nat)
    requires Tiled(base, blocks + [b]) && Matches(live, blocks, status)
    ensures Matches(live[b.start + HEADER_SIZE := size], blocks + [b], status + [InUse(size)])
  {
    StartsIncrease(base, blocks + [b]);
    var n := |blocks|;
    var ptr := b.start + HEADER_SIZE;
    var blocks', status' := blocks + [b], status + [InUse(size)];
    forall j, q | Holds(blocks', status', j, q)
      ensures q in live[ptr := size] && live[ptr := size][q] == status'[j].requested
    {
      if j < n {
        assert Holds(blocks, status, j, q);
        assert blocks'[j].start < blocks'[n].start;
      }
    }
    var live' := live[ptr := size];
    forall q | q in live' ensures exists j :: Holds(blocks', status', j, q) {
      if q == ptr {
        assert Holds(blocks', status', n, q);
      } else {
        var j :| Holds(blocks, status, j, q);
        assert Holds(blocks', status', j, q);
      }
    }
  }

  /** The only failures a client can see: an oversized request, a full heap, or an earlier failure. */
  predicate ClientError(error: Option<Error>) {
    error in {None, Some(TooLarge), Some(OutOfSpace), Some(Poisoned)}
  }

  // ---- Counting blocks ---------------------------------------------------

  function CarvedOf(blocks: seq<Block>, order: nat): nat {
    if blocks == [] then 0 else
    var n := |blocks| - 1;
    CarvedOf(blocks[..n], order) + if blocks[n].order == order then 1 else 0
  }

  function InUseOf(blocks: seq<Block>, status: seq<Status>, order: nat): (r: nat)
    requires |blocks| == |status|
    ensures r <= CarvedOf(blocks, order)
  {
    if blocks == [] then 0 else
    var n := |blocks| - 1;
    InUseOf(blocks[..n], status[..n], order) + if blocks[n].order == order && status[n].InUse? then 1 else 0
  }

  /** The pointers the client holds of one order. */
  ghost function HeldOf(live: map<nat, nat>, order: nat): set<nat> {
    set ptr | ptr in live && OrderFromSize(live[ptr]) == Ok(order)
  }

  ghost function InUsePtrs(blocks: seq<Block>, status: seq<Status>, order: nat): set<nat>
    requires |blocks| == |status|
  {
    set i | 0 <= i < |blocks| && blocks[i].order == order && status[i].InUse? :: blocks[i].start + HEADER_SIZE
  }

  lemma InUsePtrsSplit(blocks: seq<Block>, status: seq<Status>, order: nat)
    requires |blocks| == |status| && blocks != []
    ensures var n := |blocks| - 1;
            InUsePtrs(blocks, status, order) ==
              InUsePtrs(blocks[..n], status[..n], order)
              + if blocks[n].order == order && status[n].InUse? then {blocks[n].start + HEADER_SIZE} else {}
  {
    var n := |blocks| - 1;
    var before := InUsePtrs(blocks[..n], status[..n], order);
    forall ptr | ptr in before ensures ptr in InUsePtrs(blocks, status, order) {
      var i :| 0 <= i < n && blocks[..n][i].order == order && status[..n][i].InUse? && blocks[..n][i].start + HEADER_SIZE == ptr;
      assert blocks[i].start + HEADER_SIZE == ptr;
    }
    forall ptr | ptr in InUsePtrs(blocks, status, order)
      ensures ptr in before || (blocks[n].order == order && status[n].InUse? && ptr == blocks[n].start + HEADER_SIZE)
    {
      var i :| 0 <= i < |blocks| && blocks[i].order == order && status[i].InUse? && blocks[i].start + HEADER_SIZE == ptr;
      if i < n { assert blocks[..n][i].start + HEADER_SIZE == ptr; }
    }
  }

  lemma {:induction false} InUsePtrsCount(base: nat, blocks: seq<Block>, status: seq<Status>, order: nat)
    requires Tiled(base, blocks) && |blocks| == |status|
    ensures |InUsePtrs(blocks, status, order)| == InUseOf(blocks, status, order)
  {
    if blocks == [] {
      assert InUsePtrs(blocks, status, order) == {};
    } else {
      var n := |blocks| - 1;
      InUsePtrsCount(base, blocks[..n], status[..n], order);
      var before := InUsePtrs(blocks[..n], status[..n], order);
      var last := blocks[n].start + HEADER_SIZE;
      StartsIncrease(base, blocks);
      forall ptr | ptr in before ensures ptr != last {
        var i :| 0 <= i < n && blocks[..n][i].start + HEADER_SIZE == ptr;
        assert blocks[i].start < blocks[n].start;
      }
      if blocks[n].order == order && status[n].InUse? {
        InUsePtrsSplit(blocks, status, order);
      } else {
        InUsePtrsSplit(blocks, status, order);
      }
    }
  }

  /** Counting the client's pointers of an order counts the blocks in use of that order. */
  lemma HeldCount(base: nat, c: Client, layout: Layout, order: nat)
    requires Consistent(base, c, layout)
    ensures |HeldOf(c.live, order)| == InUseOf(layout.blocks, layout.status, order)
  {
    hide ReadHeader, OrderFromSize;
    InUsePtrsCount(base, layout.blocks, layout.status, order);
    var ptrs := InUsePtrs(layout.blocks, layout.status, order);
    forall ptr | ptr in HeldOf(c.live, order) ensures ptr in ptrs {
      var i :| Holds(layout.blocks, layout.status, i, ptr);
    }
    forall ptr | ptr in ptrs ensures ptr in HeldOf(c.live, order) {
      var i :| 0 <= i < |layout.blocks| && layout.blocks[i].order == order && layout.status[i].InUse?
               && layout.blocks[i].start + HEADER_SIZE == ptr;
      assert Holds(layout.blocks, layout.status, i, ptr);
    }
    assert HeldOf(c.live, order) == ptrs;
  }

  lemma {:induction false} AllInUse(blocks: seq<Block>, status: seq<Status>, order: nat)
    requires |blocks| == |status|
    requires forall i :: 0 <= i < |blocks| && blocks[i].order == order ==> status[i].InUse?
    ensures InUseOf(blocks, status, order) == CarvedOf(blocks, order)
  {
    if blocks != [] {
      AllInUse(blocks[..|blocks| - 1], status[..|blocks| - 1], order);
    }
  }

  /** Carving happens only when every block of the order is in use, so it sets a new peak. */
  lemma CarveSetsPeak(layout: Layout, order: nat, size: nat, o: nat)
    requires |layout.blocks| == |layout.status|
    requires FreeListOf(layout.blocks, layout.status, order, [])
    ensures var after := Carve(layout, order, size);
            CarvedOf(after.blocks, o) ==
              Max(CarvedOf(layout.blocks, o), InUseOf(after.blocks, after.status, o))
  {
    var after := Carve(layout, order, size);
    var n := |layout.blocks|;
    assert after.blocks[..n] == layout.blocks && after.status[..n] == layout.status;
    if o == order {
      forall i | 0 <= i < |after.blocks| && after.blocks[i].order == order ensures after.status[i].InUse? {
        if i < n { assert i !in []; }
      }
      AllInUse(after.blocks, after.status, order);
    }
  }

  // ---- One step ----------------------------------------------------------

  /** The number of blocks of an order grows only when more of them are in use than ever before. */
  ghost predicate CarvesOnlyForPeaks(layout: Layout, after: Layout) {
    && |after.blocks| == |after.status|
    && forall o: nat :: CarvedOf(after.blocks, o) == Max(CarvedOf(layout.blocks, o), InUseOf(after.blocks, after.status, o))
  }

  lemma NothingCarved(layout: Layout, after: Layout)
    requires layout.blocks == after.blocks && |after.blocks| == |after.status|
    ensures CarvesOnlyForPeaks(layout, after)
  {
  }

  /** What one permitted operation guarantees about the layouts before and after it. */
  ghost predicate StepFacts(base: nat, c: Client, op: Op, layout: Layout, after: Layout) {
    && Consistent(base, Apply(c, op).0, after)
    && ClientError(Apply(c, op).1)
    && CarvesOnlyForPeaks(layout, after)
    && (Apply(c, op).1 == Some(Poisoned) ==> c.state.poisoned)
    && (c.state.poisoned && (op.Alloc? || op.Dealloc?) ==> Apply(c, op) == (c, Some(Poisoned)))
    && (Apply(c, op).1 != None ==> Apply(c, op).0.state.poisoned)
    && (Apply(c, op).1 == None ==> Apply(c, op).0.state.poisoned == c.state.poisoned)
    && (op.Dealloc? && !c.state.poisoned ==> Apply(c, op).1 == None)
  }

  lemma AllocStep(base: nat, c: Client, size: nat, layout: Layout) returns (after: Layout)
    requires Consistent(base, c, layout)
    ensures StepFacts(base, c, Alloc(size), layout, after)
  {
    NothingCarved(layout, layout);
    if c.state.poisoned {
      after := layout;
    } else {
      OrderFromSizeIsLeast(size);
      match OrderFromSize(size) {
        case Err(_) =>
          AllocateFails(c.state, c.mem, layout, size);
          after := layout;
        case Ok(order) =>
          if layout.free[order] != [] {
            after := AllocReuseStep(base, c, size, layout, order);
          } else if c.state.bumper + BlockSize(order) > |c.mem| {
            AllocateFails(c.state, c.mem, layout, size);
            after := layout;
          } else {
            after := AllocCarveStep(base, c, size, layout, order);
          }
      }
    }
  }

  lemma AllocReuseStep(base: nat, c: Client, size: nat, layout: Layout, order: nat) returns (after: Layout)
    requires Consistent(base, c, layout) && !c.state.poisoned
    requires OrderFromSize(size) == Ok(order) && order < N_ORDERS && layout.free[order] != []
    ensures StepFacts(base, c, Alloc(size), layout, after)
  {
    AllocateReuses(c.state, c.mem, layout, size, order);
    var i := layout.free[order][0];
    assert i in layout.free[order];
    MatchesInUse(base, c.live, layout.blocks, layout.status, i, size);
    after := Reuse(layout, order, size);
    NothingCarved(layout, after);
  }

  lemma CarveParts(s: State, mem: Bytes, layout: Layout, order: nat)
    requires Valid(s, mem, layout) && order < N_ORDERS
    ensures |layout.blocks| == |layout.status| && s.bumper == LayoutEnd(layout.base, layout.blocks)
    ensures order < |layout.free| && FreeListOf(layout.blocks, layout.status, order, layout.free[order])
  {
  }

  lemma CarvedIsTiled(s: State, mem: Bytes, layout: Layout)
    requires Valid(s, mem, layout)
    ensures Tiled(layout.base, layout.blocks) && |layout.blocks| == |layout.status| && |layout.blocks| == |layout.headers|
    ensures |layout.free| == N_ORDERS && |s.heads| == N_ORDERS
  {
  }

  lemma AllocCarveStep(base: nat, c: Client, size: nat, layout: Layout, order: nat) returns (after: Layout)
    requires Consistent(base, c, layout) && !c.state.poisoned
    requires OrderFromSize(size) == Ok(order) && order < N_ORDERS && layout.free[order] == []
    requires c.state.bumper + BlockSize(order) <= |c.mem|
    ensures StepFacts(base, c, Alloc(size), layout, after)
  {
    hide Allocate, OrderFromSize, Pow2, Valid, FreeListOf, Tiled, Matches, CarvedOf, InUseOf;
    CarveParts(c.state, c.mem, layout, order);
    AllocateCarves(c.state, c.mem, layout, size, order);
    after := Carve(layout, order, size);
    CarvedIsTiled(Allocate(c.state, c.mem, size).state, Allocate(c.state, c.mem, size).mem, after);
    MatchesCarved(base, c.live, layout.blocks, layout.status, Block(c.state.bumper, order), size);
    forall o: nat
      ensures CarvedOf(after.blocks, o) == Max(CarvedOf(layout.blocks, o), InUseOf(after.blocks, after.status, o))
    {
      CarveSetsPeak(layout, order, size, o);
    }
  }

  lemma DeallocStep(base: nat, c: Client, ptr: nat, layout: Layout) returns (after: Layout)
    requires Consistent(base, c, layout) && ptr in c.live
    ensures StepFacts(base, c, Dealloc(ptr), layout, after)
  {
    hide Valid, Tiled, Matches, OrderFromSize, Pow2;
    CarvedIsTiled(c.state, c.mem, layout);
    if c.state.poisoned {
      after := layout;
    } else {
      HoldersExist(c.live, layout, ptr);
      var i :| Holds(layout.blocks, layout.status, i, ptr);
      DeallocateReleases(c.state, c.mem, layout, i);
      var step := Deallocate(c.state, c.mem, ptr);
      assert Apply(c, Dealloc(ptr)) == (Client(step.state, step.mem, c.live - {ptr}), None);
      MatchesVacant(base, c.live, layout.blocks, layout.status, i, ptr);
      after := Release(layout, i, c.state.heads[layout.blocks[i].order]);
    }
    NothingCarved(layout, after);
  }

  lemma HoldersExist(live: map<nat, nat>, layout: Layout, ptr: nat)
    requires Matches(live, layout.blocks, layout.status) && ptr in live
    ensures exists i :: Holds(layout.blocks, layout.status, i, ptr)
  {
  }

  /** A write inside one payload touches no header. */
  lemma PayloadMissesHeaders(base: nat, blocks: seq<Block>, mem: Bytes, i: nat, at: nat, data: Bytes)
    requires Tiled(base, blocks) && i < |blocks|
    requires blocks[i].start + HEADER_SIZE <= at && at + |data| <= BlockEnd(blocks[i])
    ensures SameHeaderBytes(mem, Overwrite(mem, at, data), blocks, -1)
  {
    forall j | 0 <= j < |blocks| ensures blocks[j].start + 8 <= at || at + |data| <= blocks[j].start {
      if j != i { TiledDisjoint(base, blocks, i, j); }
    }
  }

  lemma WriteKeepsConsistent(base: nat, c: Client, layout: Layout, i: nat, at: nat, data: Bytes)
    requires Consistent(base, c, layout) && i < |layout.blocks|
    requires layout.blocks[i].start + HEADER_SIZE <= at && at + |data| <= BlockEnd(layout.blocks[i])
    ensures Consistent(base, c.(mem := Overwrite(c.mem, at, data)), layout)
  {
    PayloadMissesHeaders(base, layout.blocks, c.mem, i, at, data);
    ValidUnderPayloadChange(c.state, c.mem, layout, Overwrite(c.mem, at, data));
  }

  lemma WriteStep(base: nat, c: Client, ptr: nat, offset: nat, data: Bytes, layout: Layout)
    requires Consistent(base, c, layout)
    requires Permitted(base, c, WritePayload(ptr, offset, data))
    ensures StepFacts(base, c, WritePayload(ptr, offset, data), layout, layout)
  {
    hide FromLittleEndian, Pow2, HeaderFromRaw, ReadHeader, TrailingZeros, NextPowerOfTwo, Valid;
    var i := HeldBlock(base, c, layout, ptr);
    WriteKeepsConsistent(base, c, layout, i, ptr + offset, data);
    NothingCarved(layout, layout);
  }

  lemma GrowStep(base: nat, c: Client, extra: Bytes, layout: Layout)
    requires Consistent(base, c, layout) && Permitted(base, c, Grow(extra))
    ensures StepFacts(base, c, Grow(extra), layout, layout)
  {
    assert SameHeaderBytes(c.mem, c.mem + extra, layout.blocks, -1);
    ValidUnderPayloadChange(c.state, c.mem, layout, c.mem + extra);
    NothingCarved(layout, layout);
  }

  /** Every permitted operation keeps the client and the bytes of memory in agreement. */
  lemma StepPreserves(base: nat, c: Client, op: Op, layout: Layout) returns (after: Layout)
    requires Consistent(base, c, layout) && Permitted(base, c, op)
    ensures StepFacts(base, c, op, layout, after)
  {
    match op {
      case Alloc(size) => after := AllocStep(base, c, size, layout);
      case Dealloc(ptr) => after := DeallocStep(base, c, ptr, layout);
      case WritePayload(ptr, offset, data) => WriteStep(base, c, ptr, offset, data, layout); after := layout;
      case Grow(extra) => GrowStep(base, c, extra, layout); after := layout;
    }
  }

  // ---- Peaks -------------------------------------------------------------

  /** The largest number of pointers of one order held at any moment of the run. */
  ghost function PeakHeld(c: Client, ops: seq<Op>, order: nat): nat
    decreases |ops|
  {
    var now := |HeldOf(c.live, order)|;
    if ops == [] then now else Max(now, PeakHeld(Apply(c, ops[0]).0, ops[1..], order))
  }

  /** The bytes held by the client, headers included. */
  ghost function BytesHeld(live: map<nat, nat>): nat {
    if live == map[] then 0 else
    var ptr :| ptr in live;
    PayloadSize(live[ptr]) + HEADER_SIZE + BytesHeld(live - {ptr})
  }

  lemma {:induction false} BytesHeldWithout(live: map<nat, nat>, ptr: nat)
    requires ptr in live
    ensures BytesHeld(live) == PayloadSize(live[ptr]) + HEADER_SIZE + BytesHeld(live - {ptr})
    decreases |live|
  {
    var first :| first in live && BytesHeld(live) == PayloadSize(live[first]) + HEADER_SIZE + BytesHeld(live - {first});
    if first != ptr {
      BytesHeldWithout(live - {first}, ptr);
      BytesHeldWithout(live - {ptr}, first);
      assert live - {first} - {ptr} == live - {ptr} - {first};
    }
  }

  // ---- Whole runs --------------------------------------------------------

  /** Every result of the run is one a client may see; internal errors never occur. */
  predicate OnlyClientErrors(c: Client, ops: seq<Op>)
    decreases |ops|
  {
    ops == [] || (ClientError(Apply(c, ops[0]).1) && OnlyClientErrors(Apply(c, ops[0]).0, ops[1..]))
  }

  lemma {:induction false} RunPreserves(base: nat, c: Client, ops: seq<Op>, layout: Layout) returns (final: Layout)
    requires Consistent(base, c, layout) && AllPermitted(base, c, ops)
    ensures Consistent(base, Run(c, ops), final)
    ensures OnlyClientErrors(c, ops)
    ensures forall o: nat :: CarvedOf(final.blocks, o) == Max(CarvedOf(layout.blocks, o), PeakHeld(c, ops, o))
    decreases |ops|
  {
    if ops == [] {
      final := layout;
      forall o: nat ensures CarvedOf(layout.blocks, o) == Max(CarvedOf(layout.blocks, o), PeakHeld(c, [], o)) {
        HeldCount(base, c, layout, o);
      }
    } else {
      var next := Apply(c, ops[0]).0;
      var after := StepPreserves(base, c, ops[0], layout);
      final := RunPreserves(base, next, ops[1..], after);
      forall o: nat ensures CarvedOf(final.blocks, o) == Max(CarvedOf(layout.blocks, o), PeakHeld(c, ops, o)) {
        PeakThroughStep(base, c, ops, layout, after, final, o);
      }
    }
  }

  lemma PeakThroughStep(base: nat, c: Client, ops: seq<Op>, layout: Layout, after: Layout, final: Layout, o: nat)
    requires ops != [] && Consistent(base, c, layout) && Consistent(base, Apply(c, ops[0]).0, after)
    requires CarvesOnlyForPeaks(layout, after)
    requires CarvedOf(final.blocks, o) == Max(CarvedOf(after.blocks, o), PeakHeld(Apply(c, ops[0]).0, ops[1..], o))
    ensures CarvedOf(final.blocks, o) == Max(CarvedOf(layout.blocks, o), PeakHeld(c, ops, o))
  {
    HeldCount(base, c, layout, o);
    HeldCount(base, Apply(c, ops[0]).0, after, o);
    PeakAtLeastNow(Apply(c, ops[0]).0, ops[1..], o);
  }

  lemma PeakAtLeastNow(c: Client, ops: seq<Op>, order: nat)
    ensures PeakHeld(c, ops, order) >= |HeldOf(c.live, order)|
  {
  }

  function Start(heapBase: nat, mem: Bytes): Client {
    Client(New(heapBase), mem, map[])
  }

  lemma StartConsistent(heapBase: nat, mem: Bytes) returns (layout: Layout)
    requires heapBase + ALIGNMENT <= U32_RANGE && Addressable(AlignedBase(heapBase), |mem|)
    ensures Consistent(AlignedBase(heapBase), Start(heapBase, mem), layout)
    ensures layout.blocks == []
    ensures heapBase <= AlignedBase(heapBase) < heapBase + ALIGNMENT
  {
    layout := Layout(AlignedBase(heapBase), [], [], [], seq(N_ORDERS, _ => []));
  }

  // ---- What consistency means to the client ------------------------------

  /** Held allocations are aligned, large enough, inside the heap, and share no byte, headers included. */
  ghost predicate AllocationsSeparate(base: nat, c: Client) {
    && (forall ptr :: ptr in c.live ==>
          && ptr % ALIGNMENT == 0
          && base + HEADER_SIZE <= ptr
          && c.live[ptr] <= PayloadSize(c.live[ptr])
          && ptr + PayloadSize(c.live[ptr]) <= c.state.bumper <= |c.mem|)
    && (forall p, q :: p in c.live && q in c.live && p != q ==>
          p + PayloadSize(c.live[p]) + HEADER_SIZE <= q || q + PayloadSize(c.live[q]) + HEADER_SIZE <= p)
  }

  lemma HeldBlock(base: nat, c: Client, layout: Layout, ptr: nat) returns (i: nat)
    requires Consistent(base, c, layout) && ptr in c.live
    ensures Holds(layout.blocks, layout.status, i, ptr)
    ensures OrderSize(layout.blocks[i].order) == PayloadSize(c.live[ptr]) >= c.live[ptr]
  {
    i :| Holds(layout.blocks, layout.status, i, ptr);
    OrderFromSizeIsLeast(c.live[ptr]);
  }

  lemma HeldFits(base: nat, c: Client, layout: Layout, ptr: nat)
    requires Consistent(base, c, layout) && ptr in c.live
    ensures ptr % ALIGNMENT == 0 && base + HEADER_SIZE <= ptr && c.live[ptr] <= PayloadSize(c.live[ptr])
    ensures ptr + PayloadSize(c.live[ptr]) <= c.state.bumper <= |c.mem|
  {
    hide OrderFromSize, Pow2, ReadHeader;
    var i := HeldBlock(base, c, layout, ptr);
    BlockInHeap(c.state, c.mem, layout, i);
  }

  lemma HeldDisjoint(base: nat, c: Client, layout: Layout, p: nat, q: nat)
    requires Consistent(base, c, layout) && p in c.live && q in c.live && p != q
    ensures p + PayloadSize(c.live[p]) + HEADER_SIZE <= q || q + PayloadSize(c.live[q]) + HEADER_SIZE <= p
  {
    var i := HeldBlock(base, c, layout, p);
    var j := HeldBlock(base, c, layout, q);
    TiledDisjoint(base, layout.blocks, i, j);
  }

  lemma ConsistentSeparates(base: nat, c: Client, layout: Layout)
    requires Consistent(base, c, layout)
    ensures AllocationsSeparate(base, c)
  {
    forall ptr | ptr in c.live
      ensures ptr % ALIGNMENT == 0 && base + HEADER_SIZE <= ptr && c.live[ptr] <= PayloadSize(c.live[ptr])
      ensures ptr + PayloadSize(c.live[ptr]) <= c.state.bumper <= |c.mem|
    {
      HeldFits(base, c, layout, ptr);
    }
    forall p, q | p in c.live && q in c.live && p != q
      ensures p + PayloadSize(c.live[p]) + HEADER_SIZE <= q || q + PayloadSize(c.live[q]) + HEADER_SIZE <= p
    {
      HeldDisjoint(base, c, layout, p, q);
    }
  }

  // ---- Accounting --------------------------------------------------------

  lemma MatchesWithoutLast(base: nat, live: map<nat, nat>, blocks: seq<Block>, status: seq<Status>)
    requires Tiled(base, blocks) && Matches(live, blocks, status) && blocks != []
    ensures var n := |blocks| - 1;
            var ptr := blocks[n].start + HEADER_SIZE;
            Matches(if status[n].InUse? then live - {ptr} else live, blocks[..n], status[..n])
  {
    hide Tiled;
    var n := |blocks| - 1;
    var ptr := blocks[n].start + HEADER_SIZE;
    StartsIncrease(base, blocks);
    var rest := if status[n].InUse? then live - {ptr} else live;
    forall j, q: nat | Holds(blocks[..n], status[..n], j, q)
      ensures q in rest && rest[q] == status[..n][j].requested
    {
      assert Holds(blocks, status, j, q);
      assert blocks[j].start < blocks[n].start;
    }
    forall q | q in rest ensures exists j :: Holds(blocks[..n], status[..n], j, q) {
      var j :| Holds(blocks, status, j, q);
      assert Holds(blocks[..n], status[..n], j, q);
    }
  }

  ghost predicate OrdersFit(blocks: seq<Block>, status: seq<Status>) {
    forall i :: 0 <= i < |blocks| && i < |status| && status[i].InUse? ==>
      PayloadSize(status[i].requested) == OrderSize(blocks[i].order)
  }

  /** The sizes of the blocks in use add up to what the client holds. */
  lemma {:induction false} BytesHeldAreInUse(base: nat, live: map<nat, nat>, blocks: seq<Block>, status: seq<Status>)
    requires Tiled(base, blocks) && Matches(live, blocks, status)
    requires OrdersFit(blocks, status)
    ensures BytesHeld(live) == BytesInUse(blocks, status)
    decreases |blocks|
  {
    hide PayloadSize, Pow2;
    if blocks == [] {
      assert forall ptr :: ptr !in live;
      assert live == map[];
    } else {
      var n := |blocks| - 1;
      var ptr := blocks[n].start + HEADER_SIZE;
      MatchesWithoutLast(base, live, blocks, status);
      if status[n].InUse? {
        assert Holds(blocks, status, n, ptr);
        BytesHeldWithout(live, ptr);
        BytesHeldAreInUse(base, live - {ptr}, blocks[..n], status[..n]);
      } else {
        BytesHeldAreInUse(base, live, blocks[..n], status[..n]);
      }
    }
  }

  lemma TotalIsHeld(base: nat, c: Client, layout: Layout)
    requires Consistent(base, c, layout)
    ensures c.state.totalSize == BytesHeld(c.live) && c.state.totalSize <= c.state.maxTotalSize
  {
    assert OrdersFit(layout.blocks, layout.status);
    BytesHeldAreInUse(base, c.live, layout.blocks, layout.status);
  }

  // ---- High-water marks --------------------------------------------------

  /** The most bytes the client held at any moment of the run, headers included. */
  ghost function PeakTotal(c: Client, ops: seq<Op>): nat
    decreases |ops|
  {
    var now := BytesHeld(c.live);
    if ops == [] then now else Max(now, PeakTotal(Apply(c, ops[0]).0, ops[1..]))
  }

  /** Whatever the outcome of a call, the tracker rises exactly to a new highest total. */
  lemma TrackerStep(c: Client, op: Op)
    requires c.state.totalSize <= c.state.maxTotalSize
    ensures var after := Apply(c, op).0.state;
            after.maxTotalSize == Max(c.state.maxTotalSize, after.totalSize)
  {
    hide ReadHeader, WriteHeader, OrderFromSize, Bump, Wrap;
  }

  lemma {:induction false} TrackerIsPeak(base: nat, c: Client, ops: seq<Op>, layout: Layout)
    requires Consistent(base, c, layout) && AllPermitted(base, c, ops)
    ensures Run(c, ops).state.maxTotalSize == Max(c.state.maxTotalSize, PeakTotal(c, ops))
    decreases |ops|
  {
    hide Consistent, BytesHeld, Apply;
    TotalIsHeld(base, c, layout);
    if ops != [] {
      var next := Apply(c, ops[0]).0;
      var after := StepPreserves(base, c, ops[0], layout);
      TrackerStep(c, ops[0]);
      TotalIsHeld(base, next, after);
      TrackerIsPeak(base, next, ops[1..], after);
      PeakTotalAtLeastNow(next, ops[1..]);
    }
  }

  lemma PeakTotalAtLeastNow(c: Client, ops: seq<Op>)
    ensures PeakTotal(c, ops) >= BytesHeld(c.live)
  {
  }

  ghost function PeakBytes(c: Client, ops: seq<Op>, orders: nat): nat {
    if orders == 0 then 0 else
    PeakBytes(c, ops, orders - 1) + PeakHeld(c, ops, orders - 1) * BlockSize(orders - 1)
  }

  function CarvedBytes(blocks: seq<Block>, orders: nat): nat {
    if orders == 0 then 0 else
    CarvedBytes(blocks, orders - 1) + CarvedOf(blocks, orders - 1) * BlockSize(orders - 1)
  }

  lemma {:induction false} CarvedBytesAppend(blocks: seq<Block>, orders: nat)
    requires blocks != []
    ensures var n := |blocks| - 1;
            CarvedBytes(blocks, orders) ==
              CarvedBytes(blocks[..n], orders) + if blocks[n].order < orders then BlockSize(blocks[n].order) else 0
  {
    hide BlockSize;
    if orders > 0 {
      CarvedBytesAppend(blocks, orders - 1);
      var n := |blocks| - 1;
      var k := CarvedOf(blocks[..n], orders - 1);
      if blocks[n].order == orders - 1 {
        assert (k + 1) * BlockSize(orders - 1) == k * BlockSize(orders - 1) + BlockSize(orders - 1);
      }
    }
  }

  lemma {:induction false} CarvedNothing(orders: nat)
    ensures CarvedBytes([], orders) == 0
  {
    if orders > 0 { CarvedNothing(orders - 1); }
  }

  lemma {:induction false} CarvedBytesFillTheHeap(base: nat, blocks: seq<Block>)
    requires Tiled(base, blocks)
    ensures LayoutEnd(base, blocks) == base + CarvedBytes(blocks, N_ORDERS)
  {
    if blocks == [] {
      CarvedNothing(N_ORDERS);
    } else {
      var n := |blocks| - 1;
      CarvedBytesFillTheHeap(base, blocks[..n]);
      CarvedBytesAppend(blocks, N_ORDERS);
      if n > 0 { assert blocks[n].start == BlockEnd(blocks[n - 1]); }
    }
  }

  lemma {:induction false} PeaksAreCarved(c: Client, ops: seq<Op>, blocks: seq<Block>, orders: nat)
    requires forall o: nat :: CarvedOf(blocks, o) == PeakHeld(c, ops, o)
    ensures PeakBytes(c, ops, orders) == CarvedBytes(blocks, orders)
  {
    if orders > 0 {
      PeaksAreCarved(c, ops, blocks, orders - 1);
    }
  }

  // ---- Main results ------------------------------------------------------

  /**
   * Allocator safety. After any permitted run from a fresh allocator the client's allocations are
   * aligned, in bounds, big enough and pairwise disjoint; `total_size` is exactly what it holds, and
   * its tracker the most it ever held; the bumper has advanced by the sum over all orders of the peak number of allocations held at
   * once; and no call ever met an internal error.
   */
  lemma AllocatorSafety(heapBase: nat, mem: Bytes, ops: seq<Op>)
    requires heapBase + ALIGNMENT <= U32_RANGE && Addressable(AlignedBase(heapBase), |mem|)
    requires AllPermitted(AlignedBase(heapBase), Start(heapBase, mem), ops)
    ensures var base := AlignedBase(heapBase);
            var start := Start(heapBase, mem);
            var c := Run(start, ops);
            && AllocationsSeparate(base, c)
            && c.state.totalSize == BytesHeld(c.live)
            && c.state.maxTotalSize == PeakTotal(start, ops)
            && c.state.bumper == base + PeakBytes(start, ops, N_ORDERS)
            && OnlyClientErrors(start, ops)
  {
    var base := AlignedBase(heapBase);
    var start := Start(heapBase, mem);
    var layout := StartConsistent(heapBase, mem);
    var final := RunPreserves(base, start, ops, layout);
    ConsistentSeparates(base, Run(start, ops), final);
    TotalIsHeld(base, Run(start, ops), final);
    TrackerIsPeak(base, start, ops, layout);
    CarvedBytesFillTheHeap(base, final.blocks);
    PeaksAreCarved(start, ops, final.blocks, N_ORDERS);
  }

  /** Following the links stored in memory from `link`, for at most `limit` headers. */
  function FollowLinks(mem: Bytes, link: Link, limit: nat): Option<seq<nat>>
    decreases limit
  {
    if link.Nil? then Some([]) else
    if limit == 0 then None else
    match ReadHeader(mem, link.ptr)
    case Ok(Free(next)) =>
      (match FollowLinks(mem, next, limit - 1)
       case Some(rest) => Some([link.ptr] + rest)
       case None => None)
    case _ => None
  }

  function StartsFrom(blocks: seq<Block>, list: seq<nat>): (starts: seq<nat>)
    requires forall j :: 0 <= j < |list| ==> list[j] < |blocks|
    ensures |starts| == |list|
    ensures forall j :: 0 <= j < |list| ==> starts[j] == blocks[list[j]].start
  {
    if list == [] then [] else [blocks[list[0]].start] + StartsFrom(blocks, list[1..])
  }

  lemma ChainedRest(head: Link, blocks: seq<Block>, headers: seq<Header>, list: seq<nat>)
    requires Chained(head, blocks, headers, list) && list != []
    ensures Chained(LinkTo(blocks, list, 1), blocks, headers, list[1..])
  {
    var rest := list[1..];
    forall k | 0 <= k < |rest| ensures headers[rest[k]] == Free(LinkTo(blocks, rest, k + 1)) {
      assert rest[k] == list[k + 1];
    }
  }

  lemma {:induction false} FollowChain(mem: Bytes, head: Link, blocks: seq<Block>, headers: seq<Header>, list: seq<nat>, limit: nat)
    requires HeadersInMemory(mem, blocks, headers) && Chained(head, blocks, headers, list)
    requires limit >= |list|
    requires forall j :: 0 <= j < |list| ==> list[j] < |blocks|
    ensures FollowLinks(mem, head, limit) == Some(StartsFrom(blocks, list))
    decreases |list|
  {
    hide ReadHeader;
    if list != [] {
      ChainedRest(head, blocks, headers, list);
      FollowChain(mem, LinkTo(blocks, list, 1), blocks, headers, list[1..], limit - 1);
    }
  }

  /**
   * Free-list exactness. Walking the links stored in memory from the head of any order comes to
   * an end, meets no block twice, and meets exactly the blocks of that order not held by the
   * client.
   */
  lemma FreeListWalk(base: nat, c: Client, layout: Layout, order: nat, limit: nat)
    requires Consistent(base, c, layout) && order < N_ORDERS && limit >= |layout.free[order]|
    ensures var walk := FollowLinks(c.mem, c.state.heads[order], limit);
            && walk.Some?
            && Distinct(walk.value)
            && (forall i :: 0 <= i < |layout.blocks| ==>
                  (layout.blocks[i].start in walk.value <==>
                   layout.blocks[i].order == order && layout.blocks[i].start + HEADER_SIZE !in c.live))
            && (forall k :: 0 <= k < |walk.value| ==> exists i :: 0 <= i < |layout.blocks| && layout.blocks[i].start == walk.value[k])
  {
    hide ReadHeader, FollowLinks, OrderFromSize, StartsFrom;
    var blocks, list := layout.blocks, layout.free[order];
    assert FreeListOf(blocks, layout.status, order, list);
    assert Chained(c.state.heads[order], blocks, layout.headers, list);
    FollowChain(c.mem, c.state.heads[order], blocks, layout.headers, list, limit);
    var walk := StartsFrom(blocks, list);
    StartsIncrease(base, blocks);
    WalkIsDistinct(blocks, list, walk);
    forall i | 0 <= i < |blocks|
      ensures blocks[i].start in walk <==> blocks[i].order == order && blocks[i].start + HEADER_SIZE !in c.live
    {
      WalkMembers(blocks, list, walk, i);
      HeldIffInUse(c.live, blocks, layout.status, i);
    }
  }

  lemma WalkIsDistinct(blocks: seq<Block>, list: seq<nat>, walk: seq<nat>)
    requires |walk| == |list| && Distinct(list)
    requires forall k :: 0 <= k < |list| ==> list[k] < |blocks| && walk[k] == blocks[list[k]].start
    requires forall i, j :: 0 <= i < j < |blocks| ==> blocks[i].start < blocks[j].start
    ensures Distinct(walk)
  {
    forall a, b | 0 <= a < b < |walk| ensures walk[a] != walk[b] {
      assert list[a] != list[b];
      if list[a] < list[b] { assert blocks[list[a]].start < blocks[list[b]].start; }
      else { assert blocks[list[b]].start < blocks[list[a]].start; }
    }
  }

  /** A start is met on the walk exactly when its index is on the list. */
  lemma WalkMembers(blocks: seq<Block>, list: seq<nat>, walk: seq<nat>, i: nat)
    requires |walk| == |list| && i < |blocks|
    requires forall k :: 0 <= k < |list| ==> list[k] < |blocks| && walk[k] == blocks[list[k]].start
    requires forall i, j :: 0 <= i < j < |blocks| ==> blocks[i].start < blocks[j].start
    ensures blocks[i].start in walk <==> i in list
  {
    var start := blocks[i].start;
    if start in walk {
      var k :| 0 <= k < |walk| && walk[k] == start;
      assert list[k] == i;
    }
    if i in list {
      var k :| 0 <= k < |list| && list[k] == i;
      assert walk[k] == start;
    }
  }

  lemma HeldIffInUse(live: map<nat, nat>, blocks: seq<Block>, status: seq<Status>, i: nat)
    requires Matches(live, blocks, status) && i < |blocks|
    requires forall i, j :: 0 <= i < j < |blocks| ==> blocks[i].start < blocks[j].start
    ensures blocks[i].start + HEADER_SIZE in live <==> status[i].InUse?
  {
    var ptr := blocks[i].start + HEADER_SIZE;
    if status[i].InUse? {
      assert Holds(blocks, status, i, ptr);
    }
    if ptr in live {
      var j :| Holds(blocks, status, j, ptr);
      assert j == i;
    }
  }

  /**
   * Over every permitted run from a fresh allocator: the memory from the aligned base to the bumper
   * is tiled by blocks, and each order's free list, as linked in memory, is exactly its blocks not
   * held by the client.
   */
  lemma FreeListSafety(heapBase: nat, mem: Bytes, ops: seq<Op>, order: nat) returns (layout: Layout)
    requires heapBase + ALIGNMENT <= U32_RANGE && Addressable(AlignedBase(heapBase), |mem|)
    requires AllPermitted(AlignedBase(heapBase), Start(heapBase, mem), ops) && order < N_ORDERS
    ensures var base := AlignedBase(heapBase);
            var c := Run(Start(heapBase, mem), ops);
            && Tiled(base, layout.blocks) && c.state.bumper == LayoutEnd(base, layout.blocks) && |layout.free| == N_ORDERS
            && |c.state.heads| == N_ORDERS
            && var walk := FollowLinks(c.mem, c.state.heads[order], |layout.free[order]|);
            && walk.Some? && Distinct(walk.value)
            && (forall i :: 0 <= i < |layout.blocks| ==>
                  (layout.blocks[i].start in walk.value <==>
                   layout.blocks[i].order == order && layout.blocks[i].start + HEADER_SIZE !in c.live))
            && (forall k :: 0 <= k < |walk.value| ==> exists i :: 0 <= i < |layout.blocks| && layout.blocks[i].start == walk.value[k])
  {
    var base := AlignedBase(heapBase);
    var first := StartConsistent(heapBase, mem);
    layout := RunPreserves(base, Start(heapBase, mem), ops, first);
    FreeListWalk(base, Run(Start(heapBase, mem), ops), layout, order, |layout.free[order]|);
    hide Run, AllPermitted, FollowLinks, Tiled;
  }

  /** Once any call has failed, every later call fails and nothing changes. */
  lemma {:induction false} PoisonIsSticky(c: Client, ops: seq<Op>)
    requires c.state.poisoned
    ensures Run(c, ops).state == c.state && Run(c, ops).live == c.live
    ensures forall k :: 0 <= k < |ops| && (ops[k].Alloc? || ops[k].Dealloc?) ==>
              Apply(Run(c, ops[..k]), ops[k]).1 == Some(Poisoned)
    decreases |ops|
  {
    if ops != [] {
      var next := Apply(c, ops[0]).0;
      PoisonIsSticky(next, ops[1..]);
      forall k | 0 <= k < |ops| && (ops[k].Alloc? || ops[k].Dealloc?)
        ensures Apply(Run(c, ops[..k]), ops[k]).1 == Some(Poisoned)
      {
        if k > 0 {
          assert ops[..k][1..] == ops[1..][..k - 1];
          assert ops[1..][k - 1] == ops[k];
        }
      }
    }
  }
}
