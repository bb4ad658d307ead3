/**
 * The allocator as the object the runtime holds: fields updated in place, headers written into
 * the linear memory, each method proved to do what its specification function says.
 */
module AllocatorObject {
  import opened Common
  import opened HeapLayout
  import Spec = Allocator

  class FreeingBumpHeapAllocator {
    var bumper: nat
    const heads: array<Link>
    var totalSize: nat
    var poisoned: bool
    var maxTotalSize: nat
    var maxBumper: nat

    ghost predicate WellFormed()
      reads this
    {
      heads.Length == N_ORDERS
    }

    ghost function Snapshot(): Spec.State
      requires WellFormed()
      reads this, heads
    {
      Spec.State(bumper, heads[..], totalSize, poisoned, maxTotalSize, maxBumper)
    }

    constructor (heapBase: nat)
      requires heapBase < U32_RANGE
      ensures WellFormed() && fresh(heads)
      ensures Snapshot() == Spec.New(heapBase)
    {
      var aligned := Wrap(heapBase + ALIGNMENT - 1) / ALIGNMENT * ALIGNMENT;
      bumper := aligned;
      heads := new Link[N_ORDERS](_ => Nil);
      totalSize := 0;
      poisoned := false;
      maxTotalSize := 0;
      maxBumper := aligned;
    }

    method Bump(size: nat, heapEnd: nat) returns (result: Result<nat, Error>)
      requires WellFormed()
      modifies `bumper
      ensures (bumper, result) == Spec.Bump(old(bumper), size, heapEnd)
    {
      if Wrap(bumper + size) > heapEnd {
        return Err(OutOfSpace);
      }
      result := Ok(bumper);
      bumper := Wrap(bumper + size);
    }

    method TakeBlock(mem: array<Byte>, order: nat) returns (result: Result<nat, Error>)
      requires WellFormed() && order < N_ORDERS
      modifies `bumper, heads
      ensures (Snapshot(), result) == Spec.TakeBlock(old(Snapshot()), mem[..], order)
    {
      match heads[order] {
        case Ptr(ptr) =>
          if Wrap(Wrap(ptr + OrderSize(order)) + HEADER_SIZE) > mem.Length {
            return Err(AssertionFailed);
          }
          var header := ReadHeader(mem[..], ptr);
          match header {
            case Err(e) => return Err(e);
            case Ok(Occupied(_)) => return Err(OccupiedHeaderInFreeList);
            case Ok(Free(next)) =>
              heads[order] := next;
              return Ok(ptr);
          }
        case Nil =>
          result := Bump(BlockSize(order), mem.Length);
      }
    }

    method Allocate(mem: array<Byte>, size: nat) returns (result: Result<nat, Error>)
      requires WellFormed() && mem.Length < U32_RANGE
      modifies this, heads, mem
      ensures Spec.Step(Snapshot(), mem[..], result) == Spec.Allocate(old(Snapshot()), old(mem[..]), size)
    {
      hide Spec.TakeBlock, WriteHeader, OrderFromSize, BlockSize, Wrap;
      if poisoned {
        return Err(Poisoned);
      }
      var order;
      match OrderFromSize(size) {
        case Err(e) =>
          poisoned := true;
          return Err(e);
        case Ok(o) => order := o;
      }
      OrderFromSizeIsLeast(size);
      var ptr;
      var taken := TakeBlock(mem, order);
      match taken {
        case Err(e) =>
          poisoned := true;
          return Err(e);
        case Ok(p) => ptr := p;
      }
      var written := StoreHeader(mem, ptr, Occupied(order));
      if written.Err? {
        poisoned := true;
        return Err(written.error);
      }
      totalSize := Wrap(totalSize + BlockSize(order));
      if totalSize > maxTotalSize {
        maxTotalSize := totalSize;
      }
      if bumper > maxBumper {
        maxBumper := bumper;
      }
      return Ok(Wrap(ptr + HEADER_SIZE));
    }

    method Deallocate(mem: array<Byte>, ptr: nat) returns (result: Result<(), Error>)
      requires WellFormed() && mem.Length < U32_RANGE
      modifies this, heads, mem
      ensures Spec.Step(Snapshot(), mem[..], result) == Spec.Deallocate(old(Snapshot()), old(mem[..]), ptr)
    {
      if poisoned {
        return Err(Poisoned);
      }
      if ptr < HEADER_SIZE {
        poisoned := true;
        return Err(InvalidPointer);
      }
      var header := ptr - HEADER_SIZE;
      var order;
      match ReadHeader(mem[..], header) {
        case Err(e) =>
          poisoned := true;
          return Err(e);
        case Ok(Free(_)) =>
          poisoned := true;
          return Err(EmptyHeader);
        case Ok(Occupied(o)) => order := o;
      }
      var prev := heads[order];
      heads[order] := Ptr(header);
      // The header was read from the same place, so this write is in bounds.
      var _ := StoreHeader(mem, header, Free(prev));
      if totalSize < BlockSize(order) {
        poisoned := true;
        return Err(SizeUnderflow);
      }
      totalSize := totalSize - BlockSize(order);
      return Ok(());
    }
  }

  /** Writes the eight bytes of a header in little-endian order, or fails without touching memory. */
  method StoreHeader(mem: array<Byte>, ptr: nat, header: Header) returns (result: Result<(), Error>)
    modifies mem
    ensures var write := WriteHeader(old(mem[..]), ptr, header);
            match write
            case Ok(bytes) => result == Ok(()) && mem[..] == bytes
            case Err(e) => result == Err(e) && mem[..] == old(mem[..])
  {
    if !InHeap(mem[..], ptr) {
      return Err(WriteOutOfBounds);
    }
    hide HeaderToRaw, ToLittleEndian;
    var rest := HeaderToRaw(header);
    ghost var before := mem[..];
    ghost var bytes := ToLittleEndian(rest, 8);
    for i := 0 to 8
      invariant |bytes| == 8 && bytes[i..] == ToLittleEndian(rest, 8 - i)
      invariant forall k :: 0 <= k < i ==> mem[ptr + k] == bytes[k]
      invariant forall k :: 0 <= k < mem.Length && !(ptr <= k < ptr + i) ==> mem[k] == before[k]
    {
      NextByte(bytes, i, rest);
      mem[ptr + i] := rest % 256;
      rest := rest / 256;
    }
    Reassembled(before, mem[..], ptr, bytes);
    return Ok(());
  }

  lemma NextByte(bytes: Bytes, i: nat, x: nat)
    requires |bytes| == 8 && i < 8 && bytes[i..] == ToLittleEndian(x, 8 - i)
    ensures bytes[i] == x % 256 && bytes[i + 1..] == ToLittleEndian(x / 256, 7 - i)
  {
    var rest := bytes[i..];
    assert rest[0] == bytes[i] && rest[1..] == bytes[i + 1..];
  }

  /** Bytes that differ from the old ones only where `written` now stands. */
  lemma Reassembled(before: Bytes, after: Bytes, ptr: nat, written: Bytes)
    requires |after| == |before| && ptr + |written| <= |before|
    requires forall k :: 0 <= k < |written| ==> after[ptr + k] == written[k]
    requires forall k :: 0 <= k < |before| && !(ptr <= k < ptr + |written|) ==> after[k] == before[k]
    ensures after == before[..ptr] + written + before[ptr + |written|..]
  {
    var whole := before[..ptr] + written + before[ptr + |written|..];
    forall k | 0 <= k < |after| ensures after[k] == whole[k] {
      if ptr <= k < ptr + |written| { assert after[ptr + (k - ptr)] == written[k - ptr]; }
    }
  }
}
