// The kernel's page allocator: it picks one usable region from the E820 map
// and hands out pages from its start, never taking any back.
module Kalloc {
  import opened Words

  const PAGE: nat := 4096
  const MIN_PHYSICAL: nat := 0x10_0000
  const FOUR_GIB: nat := 0x1_0000_0000
  const TWO_64: nat := 0x1_0000_0000_0000_0000
  const USABLE: nat := 1

  datatype E820 = E820(base: u64, length: u64, kind: u32)

  function Floor(x: int): int {
    x / PAGE * PAGE
  }

  // kalloc_align_up: rounds up to a page, or 0 if that leaves 32 bits.
  function AlignUp(value: u32): (r: u32)
    ensures r % PAGE == 0
    ensures r == 0 <==> value == 0 || value > FOUR_GIB - PAGE
    ensures r != 0 ==> r - PAGE < value <= r
  {
    if value > 0xFFFF_FFFF - (PAGE - 1) then 0 else (value + PAGE - 1) / PAGE * PAGE
  }

  // ---- What an entry offers --------------------------------------------------

  // An entry the allocator considers: usable, starting at 1 MiB or above and
  // below 4 GiB.
  predicate Considered(e: E820) {
    e.kind == USABLE && MIN_PHYSICAL <= e.base < FOUR_GIB
  }

  // The entry runs past the 64-bit address space, by a page or more.
  predicate RunsOver(e: E820) {
    e.base + e.length >= TWO_64 + PAGE
  }

  // The last address of the entry the kernel can use, plus one.
  function UsableEnd(e: E820): int {
    Least(e.base + e.length, FOUR_GIB)
  }

  // The whole pages an entry offers from its first page boundary on.
  function Tail(e: E820): int {
    if !Considered(e) || AlignUp(e.base) == 0 || AlignUp(e.base) >= UsableEnd(e) then 0
    else Floor(UsableEnd(e) - AlignUp(e.base))
  }

  // The largest such tail of a list of entries.
  function BestTail(entries: seq<E820>): (best: int)
    ensures best >= 0
  {
    if |entries| == 0 then 0
    else
      var rest, last := BestTail(entries[..|entries| - 1]), Tail(entries[|entries| - 1]);
      if last > rest then last else rest
  }

  lemma {:induction false} BestTailIsMaximum(entries: seq<E820>)
    ensures forall e :: e in entries ==> Tail(e) <= BestTail(entries)
    ensures BestTail(entries) > 0 ==> exists e :: e in entries && Tail(e) == BestTail(entries)
  {
    if |entries| > 0 {
      var front, last := entries[..|entries| - 1], entries[|entries| - 1];
      BestTailIsMaximum(front);
      assert entries == front + [last];
      assert last in entries;
    }
  }

  // What an entry offers, in numbers: for a usable one above 1 MiB and below
  // 4 GiB, from the first page boundary 4096 * a on as many pages as end within
  // it and below 4 GiB; for any other, nothing.
  lemma TailPages(e: E820, a: nat, n: nat)
    requires 4096 * a - 4096 < e.base <= 4096 * a
    requires var end := if e.base + e.length < 0x1_0000_0000 then e.base + e.length else 0x1_0000_0000;
      4096 * (a + n) <= end < 4096 * (a + n + 1)
    ensures e.kind == 1 && 0x10_0000 <= e.base < 0x1_0000_0000 ==> Tail(e) == 4096 * n
    ensures e.kind != 1 || e.base < 0x10_0000 || e.base >= 0x1_0000_0000 ==> Tail(e) == 0
  {
    if Considered(e) {
      AlignedIs(e.base, a);
      if a < 0x10_0000 {
        FloorIs(UsableEnd(e) - AlignUp(e.base), n);
      }
      hide AlignUp, Floor;
    }
  }

  // An entry that ends before its first page boundary offers nothing.
  lemma NoPages(e: E820, a: nat)
    requires 4096 * a - 4096 < e.base <= 4096 * a && e.base + e.length < 4096 * a
    ensures Tail(e) == 0
  {
    if Considered(e) {
      AlignedIs(e.base, a);
      hide AlignUp, Floor;
    }
  }

  lemma AlignedIs(base: u32, a: nat)
    requires base > 0 && 4096 * a - 4096 < base <= 4096 * a
    ensures AlignUp(base) == if a < 0x10_0000 then 4096 * a else 0
  {
  }

  lemma FloorIs(x: int, n: int)
    requires 4096 * n <= x < 4096 * (n + 1)
    ensures Floor(x) == 4096 * n
  {
  }

  // ---- The allocator ---------------------------------------------------------

  // The 64-bit and 32-bit arithmetic of kalloc_init on one entry: where its
  // pages start, and how many bytes it counts from there.
  function Aligned(e: E820): u32
    requires Considered(e)
  {
    AlignUp(e.base)
  }

  function CountedSize(e: E820): u32
    requires Considered(e)
  {
    var sum: int := e.base + e.length;
    var end := Least(sum % TWO_64, FOUR_GIB);
    (end - e.base) % FOUR_GIB
  }

  function SizeFromAligned(e: E820): int
    requires Considered(e)
  {
    CountedSize(e) - (Aligned(e) - e.base)
  }

  predicate Skipped(e: E820)
    requires Considered(e)
  {
    Aligned(e) == 0 || Aligned(e) - e.base >= CountedSize(e)
  }

  // The bytes counted, without the arithmetic of words: a sum that wraps, to
  // less than a page, adds what is left of it.
  lemma CountedIs(e: E820)
    requires Considered(e) && !RunsOver(e)
    ensures var sum := e.base + e.length;
      CountedSize(e) == UsableEnd(e) - e.base + (if sum < TWO_64 then 0 else sum - TWO_64)
  {
  }

  // The rounding drops it again, so that what is counted is what the entry
  // offers.
  lemma CountsTail(e: E820)
    requires Considered(e) && !RunsOver(e)
    ensures Skipped(e) ==> Tail(e) == 0
    ensures !Skipped(e) ==> SizeFromAligned(e) > 0 && Floor(SizeFromAligned(e)) == Tail(e)
  {
    CountedIs(e);
    hide CountedSize;
    if e.base + e.length >= TWO_64 {
      FloorDrops(FOUR_GIB - Aligned(e), e.base + e.length - TWO_64);
    }
    hide Floor, AlignUp;
  }

  lemma FloorDrops(a: int, r: int)
    requires a % PAGE == 0 && 0 <= r < PAGE
    ensures Floor(a + r) == Floor(a) == a
  {
  }

  lemma FloorBelow(a: int, b: int)
    requires b % PAGE == 0
    ensures a > b ==> Floor(a) >= b
    ensures a <= b ==> Floor(a) <= b
    ensures Floor(a) % PAGE == 0 && Floor(a) <= a
  {
  }

  // A block handed out: address and rounded size.
  datatype Grant = Grant(at: nat, size: nat)

  class Allocator {
    var base: u32
    var capacity: u32
    var offset: u32
    // Everything handed out so far.
    ghost var grants: seq<Grant>

    // The grants lie one behind the other from the base on.
    ghost predicate Valid()
      reads this
    {
      && offset <= capacity && capacity % PAGE == 0 && offset % PAGE == 0
      && (capacity > 0 ==> MIN_PHYSICAL <= base && base % PAGE == 0 && base + capacity <= FOUR_GIB)
      && (forall i :: 0 <= i < |grants| ==>
            grants[i].size > 0 && grants[i].size % PAGE == 0 && grants[i].at % PAGE == 0)
      && Consecutive(grants, base, offset)
    }

    constructor ()
      ensures Valid() && capacity == 0 && grants == []
    {
      base, capacity, offset, grants := 0, 0, 0, [];
    }

    // kalloc_init.
    method Init(entries: seq<E820>) returns (ok: bool, ghost chosen: nat)
      modifies this
      ensures ok <==> capacity > 0
      ensures offset == 0 && grants == []
      ensures ok ==>
                && chosen < |entries| && Considered(entries[chosen]) && !Skipped(entries[chosen])
                && base == Aligned(entries[chosen]) && capacity == Floor(SizeFromAligned(entries[chosen]))
      ensures (forall e :: e in entries && Considered(e) ==> !RunsOver(e)) ==> capacity == BestTail(entries) && Valid()
    {
      base, capacity, offset, grants, chosen := 0, 0, 0, [], 0;
      for i := 0 to |entries|
        invariant offset == 0 && grants == [] && capacity % PAGE == 0
        invariant capacity > 0 ==>
                    && chosen < |entries| && Considered(entries[chosen]) && !Skipped(entries[chosen])
                    && base == Aligned(entries[chosen]) && capacity == Floor(SizeFromAligned(entries[chosen]))
        invariant (forall e :: e in entries && Considered(e) ==> !RunsOver(e)) ==> capacity == BestTail(entries[..i])
      {
        var e := entries[i];
        assert entries[..i + 1][..i] == entries[..i];
        if e.kind != USABLE || e.base < MIN_PHYSICAL || e.base > 0xFFFF_FFFF {
          continue;
        }
        if !RunsOver(e) {
          CountsTail(e);
        }
        var alignedBase, usableSize := AlignUp(e.base), CountedSize(e);
        if alignedBase == 0 || alignedBase - e.base >= usableSize {
          continue;
        }
        var size := usableSize - (alignedBase - e.base);
        FloorBelow(size, capacity);
        if size > capacity {
          base, capacity, chosen := alignedBase, Floor(size), i;
        }
      }
      assert entries[..|entries|] == entries;
      if capacity > 0 && !RunsOver(entries[chosen]) {
        RegionInside(entries[chosen]);
      }
      return capacity > 0, chosen;
    }

    // kalloc_pages; zero stands for NULL.
    method Pages(size: u32) returns (at: u32)
      requires Valid()
      modifies `offset, `grants
      ensures Valid()
      ensures at != 0 <==> size != 0 && AlignUp(size) != 0 && AlignUp(size) <= capacity - old(offset)
      ensures at == 0 ==> offset == old(offset) && grants == old(grants)
      ensures at != 0 ==>
                && at == base + old(offset) && offset == old(offset) + AlignUp(size)
                && grants == old(grants) + [Grant(at, AlignUp(size))]
    {
      hide AlignUp, Consecutive;
      if capacity == 0 || size == 0 {
        return 0;
      }
      var alignedSize := AlignUp(size);
      if alignedSize == 0 {
        return 0;
      }
      if alignedSize > capacity - offset {
        return 0;
      }
      at := base + offset;
      PageSum(base, offset);
      PageSum(offset, alignedSize);
      grants := grants + [Grant(at, alignedSize)];
      assert grants[..|grants| - 1] == old(grants);
      ConsecutiveNext(grants, base, offset, alignedSize);
      offset := offset + alignedSize;
    }
  }

  lemma PageSum(a: nat, b: nat)
    requires a % PAGE == 0 && b % PAGE == 0
    ensures (a + b) % PAGE == 0
  {
  }

  // Blocks that follow each other without a gap.
  ghost predicate Consecutive(grants: seq<Grant>, base: nat, used: nat) {
    if |grants| == 0 then used == 0
    else
      var last := grants[|grants| - 1];
      last.size <= used && last.at == base + used - last.size
      && Consecutive(grants[..|grants| - 1], base, used - last.size)
  }

  lemma ConsecutiveNext(grants: seq<Grant>, base: nat, used: nat, size: nat)
    requires |grants| > 0 && Consecutive(grants[..|grants| - 1], base, used)
    requires grants[|grants| - 1] == Grant(base + used, size)
    ensures Consecutive(grants, base, used + size)
  {
  }

  function TotalSize(grants: seq<Grant>): nat {
    if |grants| == 0 then 0 else TotalSize(grants[..|grants| - 1]) + grants[|grants| - 1].size
  }

  // Consecutive blocks are disjoint, lie in the used part, and add up to it.
  lemma {:induction false} ConsecutiveBlocks(grants: seq<Grant>, base: nat, used: nat)
    requires Consecutive(grants, base, used)
    ensures TotalSize(grants) == used
    ensures forall i :: 0 <= i < |grants| ==> base <= grants[i].at && grants[i].at + grants[i].size <= base + used
    ensures forall i, j :: 0 <= i < j < |grants| ==> grants[i].at + grants[i].size <= grants[j].at
  {
    if |grants| > 0 {
      var front, last := grants[..|grants| - 1], grants[|grants| - 1];
      ConsecutiveBlocks(front, base, used - last.size);
      assert forall i :: 0 <= i < |front| ==> front[i] == grants[i];
    }
  }

  // After any run of allocations: whole pages, apart from each other, inside
  // the region, and adding up to what is reported as used.
  lemma BlocksAreApart(a: Allocator)
    requires a.Valid()
    ensures forall i :: 0 <= i < |a.grants| ==>
              && a.grants[i].at % PAGE == 0 && a.grants[i].size % PAGE == 0 && a.grants[i].size > 0
              && a.base <= a.grants[i].at && a.grants[i].at + a.grants[i].size <= a.base + a.capacity
    ensures forall i, j :: 0 <= i < j < |a.grants| ==> a.grants[i].at + a.grants[i].size <= a.grants[j].at
    ensures a.offset == TotalSize(a.grants)
    ensures |a.grants| > 0 ==> MIN_PHYSICAL <= a.base && a.base + a.capacity <= FOUR_GIB
  {
    ConsecutiveBlocks(a.grants, a.base, a.offset);
  }

  // Short of that, the region lies in its entry and below 4 GiB.
  lemma RegionInside(e: E820)
    requires Considered(e) && !Skipped(e) && !RunsOver(e)
    ensures e.base <= Aligned(e) && Aligned(e) + Floor(SizeFromAligned(e)) <= UsableEnd(e)
    ensures SizeFromAligned(e) > 0
  {
    CountedIs(e);
    hide CountedSize;
    FloorBelow(SizeFromAligned(e), 0);
    if e.base + e.length >= TWO_64 {
      FloorDrops(FOUR_GIB - Aligned(e), e.base + e.length - TWO_64);
    }
    hide Floor;
  }

  // With any entry, wrapping or not: the region stays below 4 GiB exactly when
  // the entry does not run past the 64-bit address space by a page or more.
  lemma RegionBelow4GiB(e: E820)
    requires Considered(e) && !Skipped(e)
    ensures Aligned(e) + Floor(SizeFromAligned(e)) <= FOUR_GIB <==> !RunsOver(e)
  {
    if !RunsOver(e) {
      RegionInside(e);
    }
  }

  // An entry of almost 2^64 bytes at 1 MiB: the region is said to reach beyond
  // the 4 GiB the kernel can address.
  lemma WrappingEntry()
    ensures var e := E820(0x10_0000, TWO_64 - 1, USABLE);
      Considered(e) && !Skipped(e) && Aligned(e) + Floor(SizeFromAligned(e)) > FOUR_GIB
  {
  }
}
