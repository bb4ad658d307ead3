/**
 * The byte-level vocabulary of the freeing-bump allocator: orders, links,
 * 8-byte headers and the bounds-checked little-endian memory access.
 */
module HeapLayout {
  import opened Common

  const U32_RANGE := 0x1_0000_0000
  const HEADER_SIZE := 8
  const ALIGNMENT := 8
  const N_ORDERS := 23
  const MIN_ALLOCATION := 8
  const MAX_ALLOCATION := 33554432
  const NIL_MARKER := 0xFFFF_FFFF

  datatype Error =
    | TooLarge
    | OutOfSpace
    | Poisoned
    | InvalidOrder
    | OccupiedHeaderInFreeList
    | EmptyHeader
    | InvalidPointer
    | SizeUnderflow
    | ReadOutOfBounds
    | WriteOutOfBounds
    | AssertionFailed

  /** Addition of two u32 values, wrapping around at 2^32. */
  function Wrap(x: nat): nat {
    x % U32_RANGE
  }

  // ---- Orders ------------------------------------------------------------

  function Pow2(n: nat): (r: nat)
    ensures r > 0
  {
    if n == 0 then 1 else 2 * Pow2(n - 1)
  }

  /** `u32::next_power_of_two`, by doubling a candidate until it is large enough. */
  function NextPowerOfTwo(candidate: nat, n: nat): (r: nat)
    requires candidate > 0
    ensures r > 0
    decreases n - candidate
  {
    if candidate >= n then candidate else NextPowerOfTwo(2 * candidate, n)
  }

  /** `u32::trailing_zeros` of a nonzero number. */
  function TrailingZeros(n: nat): nat
    requires n > 0
  {
    if n % 2 == 1 then 0 else 1 + TrailingZeros(n / 2)
  }

  function OrderFromRaw(raw: nat): Result<nat, Error> {
    if raw < N_ORDERS then Ok(raw) else Err(InvalidOrder)
  }

  function OrderFromSize(size: nat): Result<nat, Error> {
    if size > MAX_ALLOCATION then Err(TooLarge)
    else
      var clamped := if size < MIN_ALLOCATION then MIN_ALLOCATION else size;
      var powerOfTwo := NextPowerOfTwo(1, clamped);
      ClampedSizeOrder(clamped);
      Ok(TrailingZeros(powerOfTwo) - TrailingZeros(MIN_ALLOCATION))
  }

  function OrderSize(order: nat): nat {
    MIN_ALLOCATION * Pow2(order)
  }

  /** Header and payload together. */
  function BlockSize(order: nat): nat {
    OrderSize(order) + HEADER_SIZE
  }

  /** Starting from a power of two, the search stops at the least power of two that is large enough. */
  lemma {:induction false} NextPowerOfTwoIsLeast(k: nat, n: nat) returns (exp: nat)
    requires k == 0 || Pow2(k - 1) < n
    ensures NextPowerOfTwo(Pow2(k), n) == Pow2(exp)
    ensures n <= Pow2(exp)
    ensures exp == 0 || Pow2(exp - 1) < n
    decreases n - Pow2(k)
  {
    if Pow2(k) >= n {
      exp := k;
    } else {
      assert 2 * Pow2(k) == Pow2(k + 1);
      exp := NextPowerOfTwoIsLeast(k + 1, n);
    }
  }

  lemma {:induction false} TrailingZerosOfPow2(n: nat)
    ensures TrailingZeros(Pow2(n)) == n
  {
    if n > 0 {
      TrailingZerosOfPow2(n - 1);
      assert Pow2(n) / 2 == Pow2(n - 1);
    }
  }

  lemma {:induction false} Pow2Monotone(a: nat, b: nat)
    requires a <= b
    ensures Pow2(a) <= Pow2(b)
    ensures a < b ==> 2 * Pow2(a) <= Pow2(b)
    decreases b - a
  {
    if a < b {
      Pow2Monotone(a, b - 1);
    }
  }

  lemma Pow2Table()
    ensures Pow2(3) == 8
    ensures Pow2(25) == MAX_ALLOCATION
  {
    assert Pow2(5) == 32;
    assert Pow2(10) == 1024;
    assert Pow2(15) == 32768;
    assert Pow2(20) == 1048576;
  }

  lemma ClampedSizeOrder(clamped: nat)
    requires MIN_ALLOCATION <= clamped
    ensures var exp := TrailingZeros(NextPowerOfTwo(1, clamped));
            exp >= TrailingZeros(MIN_ALLOCATION) == 3 && Pow2(exp - 1) < clamped <= Pow2(exp)
  {
    Pow2Table();
    assert Pow2(0) == 1;
    var exp := NextPowerOfTwoIsLeast(0, clamped);
    TrailingZerosOfPow2(exp);
    TrailingZerosOfPow2(3);
    if exp < 3 { Pow2Monotone(exp, 2); }
  }

  /**
   * The order chosen for a request is the least one whose size is large enough, it always
   * indexes one of the 23 lists, and only requests above 32 MiB are refused.
   */
  lemma OrderFromSizeIsLeast(size: nat)
    ensures size > MAX_ALLOCATION <==> OrderFromSize(size) == Err(TooLarge)
    ensures size <= MAX_ALLOCATION ==> OrderFromSize(size).Ok?
    ensures OrderFromSize(size).Ok? ==>
              var order := OrderFromSize(size).value;
              && order < N_ORDERS
              && size <= OrderSize(order)
              && (forall smaller: nat :: smaller < order ==> OrderSize(smaller) < size)
  {
    if size <= MAX_ALLOCATION {
      Pow2Table();
      var clamped := if size < MIN_ALLOCATION then MIN_ALLOCATION else size;
      ClampedSizeOrder(clamped);
      var exp := TrailingZeros(NextPowerOfTwo(1, clamped));
      if exp > 25 { Pow2Monotone(25, exp - 1); }
      var order := exp - 3;
      assert OrderFromSize(size) == Ok(order);
      OrderSizeIsPow2(order);
      forall smaller: nat | smaller < order ensures OrderSize(smaller) < size {
        OrderSizeIsPow2(smaller);
        Pow2Monotone(smaller + 3, exp - 1);
      }
    }
  }

  lemma {:induction false} OrderSizeIsPow2(order: nat)
    ensures OrderSize(order) == Pow2(order + 3)
  {
    assert Pow2(order + 3) == 2 * Pow2(order + 2) == 4 * Pow2(order + 1) == 8 * Pow2(order);
  }

  /** Sizes stay within 32 MiB and keep every block boundary a multiple of eight. */
  lemma OrderSizeBounds(order: nat)
    requires order < N_ORDERS
    ensures 8 <= OrderSize(order) <= MAX_ALLOCATION
    ensures OrderSize(order) % ALIGNMENT == 0
  {
    Pow2Table();
    OrderSizeIsPow2(order);
    Pow2Monotone(order + 3, 25);
  }

  // ---- Links and headers -------------------------------------------------

  datatype Link = Nil | Ptr(ptr: nat)

  datatype Header = Free(link: Link) | Occupied(order: nat)

  function LinkFromRaw(raw: nat): Link {
    if raw != NIL_MARKER then Ptr(raw) else Nil
  }

  function LinkToRaw(link: Link): nat {
    match link
    case Nil => NIL_MARKER
    case Ptr(ptr) => ptr
  }

  function HeaderToRaw(header: Header): nat {
    match header
    case Occupied(order) => order + U32_RANGE
    case Free(link) => LinkToRaw(link)
  }

  /** Bit 32 tells the two kinds apart; the low 32 bits are the data; the rest is ignored. */
  function HeaderFromRaw(raw: nat): Result<Header, Error> {
    var occupied := (raw / U32_RANGE) % 2 != 0;
    var data := raw % U32_RANGE;
    if occupied then
      match OrderFromRaw(data)
      case Ok(order) => Ok(Occupied(order))
      case Err(e) => Err(e)
    else
      Ok(Free(LinkFromRaw(data)))
  }

  /** Headers the allocator may store: a pointer below the nil marker, or an existing order. */
  predicate ValidHeader(header: Header) {
    match header
    case Occupied(order) => order < N_ORDERS
    case Free(Nil) => true
    case Free(Ptr(p)) => p < NIL_MARKER
  }

  // ---- Little-endian memory ----------------------------------------------

  function ToLittleEndian(v: nat, width: nat): (bytes: Bytes)
    ensures |bytes| == width
  {
    if width == 0 then [] else [v % 256] + ToLittleEndian(v / 256, width - 1)
  }

  function FromLittleEndian(bytes: Bytes): nat {
    if bytes == [] then 0 else bytes[0] + 256 * FromLittleEndian(bytes[1..])
  }

  function Pow256(n: nat): nat {
    if n == 0 then 1 else 256 * Pow256(n - 1)
  }

  lemma {:induction false} LittleEndianRoundTrip(v: nat, width: nat)
    requires v < Pow256(width)
    ensures FromLittleEndian(ToLittleEndian(v, width)) == v
  {
    if width > 0 {
      LittleEndianRoundTrip(v / 256, width - 1);
      assert ToLittleEndian(v, width)[1..] == ToLittleEndian(v / 256, width - 1);
    }
  }

  /** `heap_range`: the end is computed with a checked u32 addition. */
  predicate InHeap(mem: Bytes, ptr: nat) {
    ptr + 8 < U32_RANGE && ptr + 8 <= |mem|
  }

  function ReadU64(mem: Bytes, ptr: nat): Result<nat, Error> {
    if InHeap(mem, ptr) then Ok(FromLittleEndian(mem[ptr..ptr + 8])) else Err(ReadOutOfBounds)
  }

  function WriteU64(mem: Bytes, ptr: nat, v: nat): Result<Bytes, Error> {
    if InHeap(mem, ptr) then Ok(mem[..ptr] + ToLittleEndian(v, 8) + mem[ptr + 8..]) else Err(WriteOutOfBounds)
  }

  function ReadHeader(mem: Bytes, ptr: nat): Result<Header, Error> {
    match ReadU64(mem, ptr)
    case Err(e) => Err(e)
    case Ok(raw) => HeaderFromRaw(raw)
  }

  function WriteHeader(mem: Bytes, ptr: nat, header: Header): Result<Bytes, Error> {
    WriteU64(mem, ptr, HeaderToRaw(header))
  }

  lemma RawHeaderRoundTrip(header: Header)
    requires ValidHeader(header)
    ensures HeaderToRaw(header) < Pow256(8)
    ensures HeaderFromRaw(HeaderToRaw(header)) == Ok(header)
  {
    assert Pow256(4) == U32_RANGE;
    assert Pow256(8) == U32_RANGE * U32_RANGE;
  }

  /** A header written in bounds reads back unchanged, and the memory keeps its size. */
  lemma HeaderRoundTrip(mem: Bytes, ptr: nat, header: Header)
    requires InHeap(mem, ptr) && ValidHeader(header)
    ensures WriteHeader(mem, ptr, header).Ok?
    ensures |WriteHeader(mem, ptr, header).value| == |mem|
    ensures ReadHeader(WriteHeader(mem, ptr, header).value, ptr) == Ok(header)
  {
    RawHeaderRoundTrip(header);
    var raw := HeaderToRaw(header);
    LittleEndianRoundTrip(raw, 8);
    var after := WriteHeader(mem, ptr, header).value;
    assert after[ptr..ptr + 8] == ToLittleEndian(raw, 8);
  }

  /** Two memories that agree on the eight bytes at `ptr` hold the same header there. */
  lemma HeaderDependsOnItsBytes(mem: Bytes, other: Bytes, ptr: nat)
    requires InHeap(mem, ptr) && ptr + 8 <= |other|
    requires forall i :: ptr <= i < ptr + 8 ==> mem[i] == other[i]
    ensures ReadHeader(other, ptr) == ReadHeader(mem, ptr)
  {
    assert mem[ptr..ptr + 8] == other[ptr..ptr + 8];
  }

  /** Writing a header fails exactly out of bounds, and leaves every byte outside its eight bytes alone. */
  lemma WriteHeaderFrame(mem: Bytes, ptr: nat, header: Header)
    ensures WriteHeader(mem, ptr, header).Ok? <==> ptr + 8 < U32_RANGE && ptr + 8 <= |mem|
    ensures WriteHeader(mem, ptr, header).Err? ==> WriteHeader(mem, ptr, header).error == WriteOutOfBounds
    ensures WriteHeader(mem, ptr, header).Ok? ==>
              var after := WriteHeader(mem, ptr, header).value;
              && |after| == |mem|
              && forall i :: 0 <= i < |mem| && !(ptr <= i < ptr + 8) ==> after[i] == mem[i]
  {
  }
}
