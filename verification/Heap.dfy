/** The kernel heap as an object: memory, index of holes, bounds, and the pages behind them.

    Wherever the C text departs from what its comments and callers promise, this class follows
    the promise; each such place is marked "Repair", and HeapAsWritten.dfy and FreeAsWritten.dfy
    state exactly on which inputs the C text meets it.
 */
module KernelHeap {
  import opened Memory
  import opened Regions
  import opened HeapInvariant
  import opened HeapSteps
  import opened HeapFacts
  import opened HeapSizes
  import opened OrderedArrays

  datatype AllocResult = Allocated(p: int) | Panic

  /** header_t_less_then compares a hole with itself, so it never holds: the index is a stack. */
  const HEADER_LESS_THEN: Less<int> := (a: int, b: int) => false

  class Heap {
    var mem: Mem
    const index: OrderedArray<int>
    const start: int
    var end: int
    const max: int
    /** Pages of the kernel directory that alloc_frame has given a frame. */
    var backed: set<int>
    ghost var regions: Tiling

    ghost predicate Shape()
      reads this, index
    {
      && index.Valid() && index.lessThan == HEADER_LESS_THEN
      && start % PAGE_SIZE == 0 && end % PAGE_SIZE == 0
      && end <= max <= |mem|
      && Backed(backed, start, end)
    }

    ghost predicate Valid()
      reads this, index, index.slots
    {
      && Shape()
      && HeapOk(mem, regions, index.Contents(), start, end)
    }

    /** create_heap: the index comes first, the heap starts at the next page after it, and is one hole, which gets a
        header but no footer. Repair: rounds up with the page mask. */
    constructor (mem: Mem, at: nat, end: int, max: int, indexSize: nat, backed: set<int>)
      requires at % PAGE_SIZE == 0 && end % PAGE_SIZE == 0 && indexSize > 0
      requires RoundUpPage(at + 4 * indexSize) + MIN_REGION <= end <= max <= |mem| < 0x1_0000_0000
      requires Backed(backed, at, end)
      ensures Valid() && fresh(index) && fresh(index.slots)
      ensures at + 4 * indexSize <= start < at + 4 * indexSize + PAGE_SIZE
      ensures regions == [Region(start, end - start, true)]
      ensures this.end == end && this.max == max && index.maxSize == indexSize
      ensures SameOutside(mem, this.mem, start, start + HEADER_SIZE)
    {
      hide HeapOk, HeaderAt, Read32, SameOutside, Backed, RoundUpPage, Inserted, InsertPos;
      IndexRounded(at, indexSize);
      var lo := RoundUpPage(at + 4 * indexSize);
      this.start, this.end, this.max, this.backed := lo, end, max, backed;
      this.mem := WriteHeader(mem, lo, 1, end - lo);
      regions := [Region(lo, end - lo, true)];
      var ix := new OrderedArray<int>(indexSize, HEADER_LESS_THEN, 0);
      index := ix;
      new;
      BacksPart(backed, at, lo, end);
      InitialOk(mem, lo, end);
      FirstEntry(lo);
      Push(lo);
    }

    // ------------------------------------------------------------ the index

    /** As the comparison never holds, a new entry comes first. */
    method Push(item: int)
      requires index.Valid() && index.lessThan == HEADER_LESS_THEN && index.size < index.maxSize
      modifies index, index.slots
      ensures index.Valid() && index.Contents() == [item] + old(index.Contents())
    {
      NeverLessInsertsInFront(HEADER_LESS_THEN, index.Contents(), item);
      index.Insert(item);
    }

    method Drop(at: nat)
      requires index.Valid() && at < index.size
      modifies index, index.slots
      ensures index.Valid() && index.size == old(index.size) - 1
      ensures multiset(index.Contents()) + multiset{old(index.Contents())[at]} == multiset(old(index.Contents()))
    {
      RemovedMultiset(index.Contents(), at);
      index.Remove(at);
    }

    // ------------------------------------------------------------ searching

    /** find_smallest_hole: the first hole in index order that fits, or -1 when none does. */
    method FindSmallestHole(n: int, pageAlign: bool) returns (at: int)
      requires Valid()
      ensures -1 <= at < index.size
      ensures at == -1 ==> forall i | 0 <= i < index.size ::
                InBounds(mem, index.Contents()[i], HEADER_SIZE) && !Fits(mem, index.Contents()[i], n, pageAlign)
      ensures at >= 0 ==> InBounds(mem, index.Contents()[at], HEADER_SIZE)
                          && Fits(mem, index.Contents()[at], n, pageAlign)
      ensures at >= 0 ==> forall i | 0 <= i < at ::
                InBounds(mem, index.Contents()[i], HEADER_SIZE) && !Fits(mem, index.Contents()[i], n, pageAlign)
    {
      hide HeapOk, HeaderAt, FrontGap;
      at := 0;
      while at < index.size
        invariant 0 <= at <= index.size
        invariant forall i | 0 <= i < at ::
                    InBounds(mem, index.Contents()[i], HEADER_SIZE) && !Fits(mem, index.Contents()[i], n, pageAlign)
      {
        var header := index.Lookup(at);
        ghost var k := HoleOf(mem, regions, index.Contents(), start, end, header);
        if Fits(mem, header, n, pageAlign) { return; }
        at := at + 1;
      }
      at := -1;
    }

    // ------------------------------------------------------------ moving the end

    /** expand: fails (the assertion on max_address) or moves the end and gives every new page a frame.
        Repair: rounds the size up with the page mask. */
    method Expand(newSize: int) returns (ok: bool)
      requires Shape() && newSize > end - start >= 0
      modifies this`end, this`backed
      ensures ok == (start + RoundUpPage(newSize) <= max)
      ensures ok ==> Shape() && end == start + RoundUpPage(newSize) && old(end) + PAGE_SIZE <= end
      ensures !ok ==> end == old(end) && backed == old(backed)
      ensures ok ==> Gained(old(backed), backed, old(end), end)
    {
      hide Backed, RoundUpPage, Gained, PageOf;
      Rounded(start, end, newSize);
      var size := RoundUpPage(newSize);
      if start + size > max { return false; }
      GiveFrames(size);
      GainedBacks(old(backed), backed, start, end, start + size);
      end := start + size;
      return true;
    }

    /** The loop of expand. */
    method GiveFrames(size: int)
      requires start % PAGE_SIZE == 0 && end % PAGE_SIZE == 0 && size % PAGE_SIZE == 0 && 0 <= end - start < size
      modifies this`backed
      ensures Gained(old(backed), backed, end, start + size)
    {
      hide PageOf;
      var oldSize := end - start;
      var i := oldSize;
      while i < size
        invariant oldSize <= i < size + 1000
        invariant i == oldSize || oldSize + 1000 <= i
        invariant forall p :: p in old(backed) ==> p in backed
        invariant forall p :: p in backed ==> p in old(backed) || PageOf(end) <= p < PageOf(start + size)
        invariant i > oldSize ==> forall p | PageOf(end) <= p <= PageOf(start + i - 1000) :: p in backed
      {
        PageInside(end, start + i, start + size);
        Stride(start + i);
        backed := backed + {PageOf(start + i)};
        i := i + 1000;
      }
      LastStride(start + i - 1000, start + size);
    }

    /** contract: moves the end down and returns the new length; the length is unchanged if it cannot. The page at the
        new end keeps its frame, as the C loop stops one page early.
        Repair: rounds up with the page mask, and never "contracts" to a longer heap. */
    method Contract(newSize: nat) returns (length: int)
      requires Shape() && newSize + MIN_REGION <= end - start
      modifies this`end, this`backed
      ensures Shape() && end == start + length
      ensures length == if ContractTarget(newSize) < old(end) - start then ContractTarget(newSize) else old(end) - start
      ensures length == old(end) - start || CanEnd(length, newSize)
      ensures forall l | CanEnd(l, newSize) :: length <= l
      ensures Lost(old(backed), backed, end + PAGE_SIZE, old(end))
    {
      hide Backed;
      var oldSize := end - start;
      length := ContractTarget(newSize);
      if length >= oldSize {
        NextPage(end);
        return oldSize;
      }
      TakeFrames(length);
      LostBacks(old(backed), backed, start, start + length, end);
      end := start + length;
    }

    /** The loop of contract. */
    method TakeFrames(length: int)
      requires start % PAGE_SIZE == 0 && end % PAGE_SIZE == 0 && length % PAGE_SIZE == 0 && 0 <= length < end - start
      modifies this`backed
      ensures Lost(old(backed), backed, start + length + PAGE_SIZE, end)
    {
      hide PageOf, Lost;
      var i := end - start - PAGE_SIZE;
      WholePages(length, end - start);
      NoneLost(backed, end);
      while length < i
        invariant length <= i && i % PAGE_SIZE == 0 && start + i < end
        invariant Lost(old(backed), backed, start + i + PAGE_SIZE, end)
      {
        LostOneMore(old(backed), backed, start + i, end);
        WholePages(length, i);
        backed := backed - {PageOf(start + i)};
        i := i - PAGE_SIZE;
      }
    }

    // ------------------------------------------------------------ alloc

    /** The index position of the hole at the highest address, or -1 when there are no holes. */
    method EndmostHole(ghost hi: int) returns (idx: int)
      requires index.Valid() && HeapOk(mem, regions, index.Contents(), start, hi)
      ensures -1 <= idx < index.size
      ensures idx == -1 <==> index.size == 0
      ensures idx >= 0 ==> forall i | 0 <= i < index.size :: index.Contents()[i] <= index.Contents()[idx]
    {
      hide HeapOk, HeaderAt, InsertPos, Inserted;
      idx := -1;
      var value := 0;
      var at := 0;
      while at < index.size
        invariant 0 <= at <= index.size
        invariant (idx == -1 && at == 0 && value == 0) || (0 <= idx < at && value == index.Contents()[idx])
        invariant forall i | 0 <= i < at :: index.Contents()[i] <= value
      {
        var tmp := index.Lookup(at);
        ghost var k := HoleOf(mem, regions, index.Contents(), start, hi, tmp);
        if tmp > value {
          value, idx := tmp, at;
        }
        at := at + 1;
      }
    }

    /** The first half of alloc, when no hole fits: more space at the end, as a hole.
        Repair: only a hole that ends at the old end is grown; otherwise a new one is added. */
    method Extend(n: nat) returns (ok: bool)
      requires Valid() && n >= MIN_REGION
      requires index.size + (if EndsInHole(regions) then 0 else 1) <= index.maxSize
      modifies this, index, index.slots
      ensures Valid() && AllKept(old(mem), mem, Live(regions))
      ensures Live(regions) == old(Live(regions))
      ensures ok == (start + RoundUpPage(old(end) - start + n) <= max)
      ensures !ok ==> end == old(end) && regions == old(regions) && mem == old(mem)
                      && index.Contents() == old(index.Contents())
      ensures ok ==> end == start + RoundUpPage(old(end) - start + n)
      ensures ok ==> regions == Grown(old(regions), old(end), end - old(end))
      ensures ok ==> EndsInHole(regions) && regions[|regions| - 1].size >= n
      ensures index.size == old(index.size) + if ok && !old(EndsInHole(regions)) then 1 else 0
      ensures Gained(old(backed), backed, old(end), end)
    {
      hide Gained, HeapOk, AllKept, Live, Backed, HeaderAt, Tiles, Inserted, Put, NoAdjacentHoles, Indexed, Tagged;
      var oldEnd := end;
      Parts(mem, regions, index.Contents(), start, end);
      ok := Expand(end - start + n);
      KeptSelf(mem, Live(regions));
      if !ok {
        NoneGained(backed, end);
        return;
      }
      var delta := end - oldEnd;
      var idx := EndmostHole(oldEnd);
      var grow := false;
      if idx != -1 {
        var header := index.Lookup(idx);
        EndmostIsLast(mem, regions, index.Contents(), start, oldEnd, idx);
        grow := header + HeaderAt(mem, header).size == oldEnd;
      } else {
        NoHoles(mem, regions, index.Contents(), start, oldEnd);
      }
      if grow {
        GrowHole(idx, oldEnd);
      } else {
        AppendHole(oldEnd);
      }
    }

    /** The hole at idx takes the bytes from oldEnd to the new end. */
    method GrowHole(idx: nat, oldEnd: int)
      requires Shape() && HeapOk(mem, regions, index.Contents(), start, oldEnd) && oldEnd < end
      requires idx < index.size && regions != [] && regions[|regions| - 1].hole
      requires var last := regions[|regions| - 1];
               && index.Contents()[idx] == last.addr && InBounds(mem, last.addr, HEADER_SIZE)
               && HeaderAt(mem, last.addr).size == last.size && CanGrow(mem, last, end - oldEnd)
      modifies this`mem, this`regions
      ensures Valid() && AllKept(old(mem), mem, Live(regions)) && Live(regions) == old(Live(regions))
      ensures regions == Grown(old(regions), oldEnd, end - oldEnd)
    {
      hide HeapOk, AllKept, Live, EndsInHole, HeaderAt, FooterAt, Read32, SameOutside, Backed;
      ghost var last := regions[|regions| - 1];
      var header := index.Lookup(idx);
      var size := HeaderAt(mem, header).size + (end - oldEnd);
      GrowLastOk(mem, regions, index.Contents(), start, oldEnd, end - oldEnd);
      GrownLast(regions, oldEnd, end - oldEnd);
      mem := WriteFooter(Write32(mem, header + 8, size), header + size - FOOTER_SIZE, header);
      regions := regions[..|regions| - 1] + [Region(last.addr, last.size + (end - oldEnd), true)];
    }

    /** The bytes from oldEnd to the new end become a hole of their own. */
    method AppendHole(oldEnd: int)
      requires Shape() && HeapOk(mem, regions, index.Contents(), start, oldEnd) && 0 < oldEnd <= end - MIN_REGION
      requires !EndsInHole(regions) && index.size < index.maxSize && |mem| < 0x1_0000_0000
      modifies this`mem, this`regions, index, index.slots
      ensures Valid() && AllKept(old(mem), mem, Live(regions)) && Live(regions) == old(Live(regions))
      ensures regions == Grown(old(regions), oldEnd, end - oldEnd)
      ensures index.size == old(index.size) + 1
    {
      hide HeapOk, AllKept, Live, EndsInHole, Backed, Put;
      ghost var before := index.Contents();
      var hole := Region(oldEnd, end - oldEnd, true);
      AddHoleOk(mem, regions, before, start, oldEnd, end - oldEnd);
      mem := Put(mem, hole);
      Push(oldEnd);
      regions := regions + [hole];
    }

    /** The second half of alloc: take a block of n bytes or a little more out of the hole at index position at.
        Repair: the remainder is judged after the alignment gap has been taken off, so no hole is under 20 bytes. */
    method TakeFrom(at: nat, n: nat, pageAlign: bool) returns (p: int, ghost block: Region)
      requires Valid() && at < index.size < index.maxSize && n >= MIN_REGION
      requires InBounds(mem, index.Contents()[at], HEADER_SIZE) && Fits(mem, index.Contents()[at], n, pageAlign)
      modifies this`mem, this`regions, index, index.slots
      ensures Valid() && AllKept(old(mem), mem, old(Live(regions)))
      ensures Live(regions) == old(Live(regions)) + {block} && block !in old(Live(regions))
      ensures p == block.Payload() && start <= block.addr && block.End() <= end && !block.hole
      ensures n <= block.size < n + MIN_REGION
      ensures p == old(index.Contents()[at]) + FrontGap(old(index.Contents()[at]), pageAlign) + HEADER_SIZE
      ensures pageAlign ==> p % PAGE_SIZE == 0
      ensures index.size <= old(index.size) + 1 && end == old(end)
    {
      hide HeapOk, AllKept, Live, Backed, Carve, FrontGap, HeaderAt, Tiles, NoAdjacentHoles, Indexed, Tagged,
           HoleAddrs, Carved, RoundUpPage, SameOutside;
      var pos := index.Lookup(at);
      ghost var k := HoleOf(mem, regions, index.Contents(), start, end, pos);
      ghost var m, rs, before := mem, regions, index.Contents();
      Parts(m, rs, before, start, end);
      var size := HeaderAt(mem, pos).size;
      var gap := FrontGap(pos, pageAlign);
      GapAligns(pos, pageAlign);
      var blockSize := if size - gap - n < MIN_REGION then size - gap else n;
      WriteTags(at, pos, size, gap, blockSize);
      CarveOk(m, rs, before, index.Contents(), start, end, k, gap, blockSize);
      block := Region(pos + gap, blockSize, false);
      NewBlock(rs, k, gap, blockSize, start, end);
      regions := rs[..k] + Carved(pos, size, gap, blockSize) + rs[k + 1..];
      p := pos + gap + HEADER_SIZE;
    }

    /** The tags and index entries for a hole at pos cut into a front hole, a block of n bytes and a tail hole. */
    method WriteTags(at: nat, pos: int, size: int, gap: nat, n: nat)
      requires index.Valid() && index.lessThan == HEADER_LESS_THEN && at < index.size < index.maxSize
      requires index.Contents()[at] == pos && CanCarve(mem, pos, size, gap, n)
      modifies this`mem, index, index.slots
      ensures index.Valid() && |mem| == |old(mem)|
      ensures mem == Carve(old(mem), pos, size, gap, n)
      ensures multiset(index.Contents()) + multiset{pos} ==
              multiset(old(index.Contents())) + multiset(HoleAddrs(Carved(pos, size, gap, n)))
      ensures index.size <= old(index.size) + 1
    {
      hide CanCarve, Carve, Carved, HoleAddrs;
      ghost var before := index.Contents();
      mem := CutTags(mem, pos, size, gap, n);
      ghost var middle := UpdateIndex(at, gap > 0, pos + gap + n, size - gap - n > 0);
      CarvedIndex(old(mem), before, middle, index.Contents(), pos, size, gap, n);
    }

    /** The tags alone. */
    static method CutTags(m: Mem, pos: int, size: int, gap: nat, n: nat) returns (m': Mem)
      requires CanCarve(m, pos, size, gap, n)
      ensures m' == Carve(m, pos, size, gap, n) && |m'| == |m|
    {
      hide Put;
      m' := m;
      if gap > 0 { m' := Put(m', Region(pos, gap, true)); }
      m' := Put(m', Region(pos + gap, n, false));
      var rest := size - gap - n;
      if rest > 0 { m' := Put(m', Region(pos + gap + n, rest, true)); }
    }

    /** Drop the entry at this position unless the hole is kept, and then put a tail hole in front if there is one. */
    method UpdateIndex(at: nat, keep: bool, tail: int, addTail: bool) returns (ghost middle: seq<int>)
      requires index.Valid() && index.lessThan == HEADER_LESS_THEN && at < index.size < index.maxSize
      modifies index, index.slots
      ensures index.Valid() && index.size <= old(index.size) + 1
      ensures multiset(middle) + multiset{old(index.Contents())[at]} ==
              multiset(old(index.Contents())) + if keep then multiset{old(index.Contents())[at]} else multiset{}
      ensures index.Contents() == if addTail then [tail] + middle else middle
    {
      if !keep { Drop(at); }
      middle := index.Contents();
      if addTail { Push(tail); }
    }

    /** alloc: a block of at least size bytes of payload, growing the heap as often as it takes. */
    method Alloc(size: nat, pageAlign: bool) returns (r: AllocResult, ghost block: Region)
      requires Valid()
      requires index.size + (if EndsInHole(regions) then 1 else 2) <= index.maxSize
      modifies this, index, index.slots
      ensures Valid() && AllKept(old(mem), mem, old(Live(regions)))
      ensures r.Panic? ==> Live(regions) == old(Live(regions))
      ensures r.Allocated? ==>
                && Live(regions) == old(Live(regions)) + {block} && block !in old(Live(regions))
                && r.p == block.Payload() && start <= block.addr && block.End() <= end
                && r.p + size <= block.PayloadEnd() < r.p + size + MIN_REGION
                && (pageAlign ==> r.p % PAGE_SIZE == 0)
      ensures old(end) <= end
      ensures var growth := Growth(old(regions), old(end), size + MIN_REGION, pageAlign);
        && (r.Allocated? <==> old(end) + growth <= max)
        && (r.Allocated? ==> end == old(end) + growth)
      ensures end <= old(end) + (if pageAlign then 3 else 1) * RoundUpPage(size + MIN_REGION)
      ensures old(end) + (if pageAlign then 3 else 1) * RoundUpPage(size + MIN_REGION) <= max ==> r.Allocated?
      ensures Gained(old(backed), backed, old(end), end)
      ensures r.Panic? ==> start + RoundUpPage(end - start + size + MIN_REGION) > max
                           && forall i | 0 <= i < index.size ::
                                && InBounds(mem, index.Contents()[i], HEADER_SIZE)
                                && !Fits(mem, index.Contents()[i], size + MIN_REGION, pageAlign)
      decreases max - end
    {
      hide HeapOk, AllKept, Live, Backed, HeaderAt, Fits, FitsIn, Growth, Grown, RoundUpPage, EndsInHole, Gained;
      var n := size + MIN_REGION;
      LimitedGrowth(mem, regions, index.Contents(), start, end, n, pageAlign);
      var at := FindSmallestHole(n, pageAlign);
      if at >= 0 {
        OneFits(mem, regions, index.Contents(), start, end, at, n, pageAlign);
        NoGrowth(regions, end, n, pageAlign);
        var p;
        p, block := TakeFrom(at, n, pageAlign);
        NoneGained(backed, end);
        return Allocated(p), block;
      }
      block := Region(0, 0, false);
      ghost var m := mem;
      NoneFits(mem, regions, index.Contents(), start, end, n, pageAlign);
      OneStep(mem, regions, index.Contents(), start, end, n, pageAlign);
      var ok := Extend(n);
      if !ok { return Panic, block; }
      ghost var m', pages, mid := mem, backed, end;
      r, block := Alloc(size, pageAlign);
      GainedTwice(old(backed), pages, backed, old(end), mid, end);
      KeptTwice(m, m', mem, old(Live(regions)));
    }

    // ------------------------------------------------------------ free

    /** Left neighbour: if the footer before the block belongs to a hole, that hole takes the block in.
        Repair: the probe is made only when there is a byte of the heap before the block. */
    static method UnifyLeft(m: Mem, start: int, header: int, footer: int, ghost left: Region, ghost block: Region)
      returns (m': Mem, h: int, doAdd: bool)
      requires Block(m, block) && header == block.addr && footer == block.End() - FOOTER_SIZE
      requires start < header ==> TaggedBefore(m, left, block)
      ensures doAdd == !(start < header && left.hole) && h == (if doAdd then header else left.addr)
      ensures SameOutside(m, m', h, block.End()) && |m'| == |m|
      ensures HeaderOk(m', HoleFrom(h, block.End())) && FooterOk(m', HoleFrom(h, block.End()))
    {
      hide SameOutside, HeaderOk, FooterOk, HeaderAt, FooterAt, Read32;
      Opened(m, block);
      h, doAdd := header, true;
      m' := Write8(m, header + 4, 1);
      if header > start {
        LeftSeen(m, left, block);
        var testFooter := FooterAt(m', header - FOOTER_SIZE);
        if testFooter.magic == HEAP_MAGIC && m'[testFooter.header + 4] == 1 {
          UnifiedLeft(m, left, block);
          var cacheSize := HeaderAt(m', header).size;
          h, doAdd := testFooter.header, false;
          m' := Write32(m', footer + 4, h);
          m' := Write32(m', h + 8, HeaderAt(m', h).size + cacheSize);
        }
      }
    }

    /** Right neighbour: if the header after the hole belongs to a hole, its bytes join. next is that header.
        Repair: the probe is bounded by the end of the heap, and the joined footer is made to point at the
        joined header, which the C comment announces but the C code does not do. */
    static method UnifyRight(m: Mem, end: int, header: int, footer: int, ghost right: Region)
      returns (m': Mem, f: int, joined: bool)
      requires 0 <= header && header + MIN_REGION <= footer + FOOTER_SIZE <= end <= |m| < 0x1_0000_0000
      requires HeaderOk(m, HoleFrom(header, footer + FOOTER_SIZE))
      requires FooterOk(m, HoleFrom(header, footer + FOOTER_SIZE))
      requires footer + FOOTER_SIZE < end ==> TaggedAfter(m, footer + FOOTER_SIZE, right, end)
      ensures joined == (footer + FOOTER_SIZE < end && right.hole)
      ensures f == if joined then right.End() - FOOTER_SIZE else footer
      ensures SameOutside(m, m', header, f + FOOTER_SIZE)
      ensures HeaderOk(m', HoleFrom(header, f + FOOTER_SIZE))
      ensures f + FOOTER_SIZE < end ==> FooterOk(m', HoleFrom(header, f + FOOTER_SIZE))
    {
      hide SameOutside, HeaderOk, FooterOk, HeaderAt, FooterAt, Read32;
      m', f, joined := m, footer, false;
      SameSelf(m, header, footer + FOOTER_SIZE);
      var testHeader := footer + FOOTER_SIZE;
      if testHeader < end {
        RightSeen(m, header, testHeader, right, end);
        if HeaderAt(m, testHeader).magic == HEAP_MAGIC && HeaderAt(m, testHeader).isHole != 0 {
          UnifiedRight(m, header, testHeader, right, end);
          var size := HeaderAt(m, testHeader).size;
          f, joined := testHeader + size - FOOTER_SIZE, true;
          m' := Write32(m, header + 8, HeaderAt(m, header).size + size);
          m' := Write32(m', f + 4, header);
        }
      }
    }

    /** The search that free makes for an entry of the index, and its removal. */
    method RemoveEntry(item: int)
      requires index.Valid() && item in index.Contents()
      modifies index, index.slots
      ensures index.Valid() && index.size == old(index.size) - 1
      ensures multiset(index.Contents()) + multiset{item} == multiset(old(index.Contents()))
    {
      ghost var before := index.Contents();
      var at := 0;
      while at < index.size && index.slots[at] != item
        invariant at <= index.size
        invariant item in before[at..]
      {
        at := at + 1;
      }
      Drop(at);
    }

    /** The end of the heap moves down into the hole that ends there; rest is what remains of the hole.
        Repair: the hole that vanishes is the one to forget, and it is never put back. */
    method ShrinkAtEnd(m: Mem, h: int) returns (m': Mem, rest: nat)
      requires Shape() && start <= h && h + MIN_REGION <= end <= |m| < 0x1_0000_0000 && |m| == |mem| && 0 <= start
      requires HeaderOk(m, HoleFrom(h, end))
      modifies this`end, this`backed
      ensures Shape() && end == h + rest && end <= old(end) && |m'| == |m|
      ensures rest > 0 ==> rest >= MIN_REGION && HeaderOk(m', HoleFrom(h, end)) && FooterOk(m', HoleFrom(h, end))
      ensures SameOutside(m, m', h, old(end))
      ensures end - start
              == if ContractTarget(h - start) < old(end) - start then ContractTarget(h - start) else old(end) - start
      ensures Lost(old(backed), backed, end + PAGE_SIZE, old(end))
    {
      hide SameOutside, HeaderOk, FooterOk, Read32, Backed, Lost;
      TagSize(m, h, end);
      var oldLength := end - start;
      var newLength := Contract(h - start);
      var size := HeaderAt(m, h).size;
      if size - (oldLength - newLength) > 0 {
        rest := size - (oldLength - newLength);
        Resized(m, h, size, rest);
        m' := WriteFooter(Write32(m, h + 8, rest), h + rest - FOOTER_SIZE, h);
      } else {
        rest := 0;
        SameSelf(m, h, old(end));
        m' := m;
      }
    }

    /** The right-hand hole leaves the index; the left-hand one, if any, stays. */
    method DropRight(item: int, h: int, doAdd: bool)
      requires index.Valid() && item in index.Contents() && h < item && (!doAdd ==> h in index.Contents())
      modifies index, index.slots
      ensures index.Valid() && index.size == old(index.size) - 1
      ensures multiset(index.Contents()) + multiset{item} == multiset(old(index.Contents()))
      ensures !doAdd ==> h in index.Contents()
    {
      ghost var before := index.Contents();
      RemoveEntry(item);
      if !doAdd { assert h in multiset(before); assert h in multiset(index.Contents()); }
    }

    /** The tags of a freed block and of the holes that join it. */
    static method JoinTags(m: Mem, start: int, end: int, header: int, ghost left: Region, ghost block: Region,
                           ghost right: Region)
      returns (m': Mem, h: int, f: int, doAdd: bool, joined: bool)
      requires Block(m, block) && header == block.addr && 0 <= start && block.End() <= end <= |m| < 0x1_0000_0000
      requires start < header ==> TaggedBefore(m, left, block)
      requires block.End() < end ==> TaggedAfter(m, block.End(), right, end)
      ensures doAdd == !(start < header && left.hole) && h == (if doAdd then header else left.addr)
      ensures joined == (block.End() < end && right.hole)
      ensures f + FOOTER_SIZE == if joined then right.End() else block.End()
      ensures |m'| == |m| && SameOutside(m, m', h, f + FOOTER_SIZE)
      ensures HeaderOk(m', HoleFrom(h, f + FOOTER_SIZE))
      ensures f + FOOTER_SIZE < end ==> FooterOk(m', HoleFrom(h, f + FOOTER_SIZE))
    {
      JoinBounds(m, start, end, left, block, right);
      hide HeaderOk, FooterOk, SameOutside, HeaderAt, Read32, TaggedBefore, TaggedAfter, Block, HoleFrom;
      var footer := header + HeaderAt(m, header).size - FOOTER_SIZE;
      var m1;
      m1, h, doAdd := UnifyLeft(m, start, header, footer, left, block);
      if block.End() < end { AfterKept(m, m1, h, block.End(), right, end); }
      m', f, joined := UnifyRight(m1, end, h, footer, right);
      SameTwice(m, m1, m', h, block.End(), f + FOOTER_SIZE);
    }

    /** The block joins the holes on its two sides; a hole on the right leaves the index. */
    method Join(header: int, ghost k: nat) returns (m: Mem, h: int, f: int, doAdd: bool)
      requires Valid() && k < |regions| && !regions[k].hole && regions[k].addr == header
      modifies index, index.slots
      ensures index.Valid() && index.size <= old(index.size)
      ensures Joined(mem, m, regions, start, end, h, f, doAdd, k)
      ensures !doAdd ==> h in index.Contents()
      ensures multiset(index.Contents()) + RightEntry(regions, k) == multiset(old(index.Contents()))
    {
      hide HeapOk, Backed, HeaderOk, FooterOk, SameOutside, TaggedBefore, TaggedAfter, Block, HoleFrom, Live,
           Left, Right, Joined;
      ghost var rs := regions;
      Around3(mem, rs, index.Contents(), start, end, k);
      var joined;
      m, h, f, doAdd, joined := JoinTags(mem, start, end, header, rs[if k > 0 then k - 1 else k], rs[k],
                                         rs[if k + 1 < |rs| then k + 1 else k]);
      MakeJoined(mem, m, rs, index.Contents(), start, end, h, f, doAdd, joined, k);
      if joined { DropRight(header + HeaderAt(mem, header).size, h, doAdd); }
    }

    /** The index entry of the freed hole: it is there already unless doAdd, and must go if the hole has vanished. */
    method Reindex(h: int, doAdd: bool, remains: bool)
      requires index.Valid() && index.lessThan == HEADER_LESS_THEN && (doAdd ==> index.size < index.maxSize)
      requires !doAdd ==> h in index.Contents()
      modifies index, index.slots
      ensures index.Valid()
      ensures multiset(index.Contents()) + (if doAdd then multiset{} else multiset{h}) ==
              multiset(old(index.Contents())) + if remains then multiset{h} else multiset{}
    {
      if doAdd && remains {
        Push(h);
      } else if !doAdd && !remains {
        RemoveEntry(h);
      }
    }

    /** The joined hole lets the heap contract if it reaches the end, and the index learns of it. */
    method Settle(m: Mem, h: int, f: int, doAdd: bool, ghost k: nat, ghost p: int, ghost before: seq<int>)
      requires Shape() && HeapOk(mem, regions, before, start, end) && index.size < index.maxSize
      requires k < |regions| && !regions[k].hole && regions[k].Payload() == p
      requires Live(regions) - {regions[k]} == set r | r in Live(regions) && r.Payload() != p
      requires Joined(mem, m, regions, start, end, h, f, doAdd, k) && (!doAdd ==> h in index.Contents())
      requires multiset(index.Contents()) + RightEntry(regions, k) == multiset(before)
      modifies this, index, index.slots
      ensures Valid() && end <= old(end)
      ensures Live(regions) == set r | r in old(Live(regions)) && r.Payload() != p
      ensures AllKept(old(mem), mem, Live(regions))
      ensures old(end) - start >= HEAP_MIN_SIZE ==> end - start >= HEAP_MIN_SIZE
      ensures end == EndAfterFree(old(regions), k, start, old(end))
      ensures Lost(old(backed), backed, end + PAGE_SIZE, old(end))
    {
      hide Lost, HeapOk, AllKept, Live, Backed, HeaderOk, FooterOk, SameOutside, HoleFrom, Freed, Joined, RightEntry;
      ghost var rs, m0, entries := regions, mem, index.Contents();
      Parts(m0, rs, before, start, end);
      JoinedFacts(m0, m, rs, start, end, h, f, doAdd, k);
      JoinedEnd(m0, m, rs, before, start, end, h, f, doAdd, k);
      var m' := m;
      var rest := f + FOOTER_SIZE - h;
      if f + FOOTER_SIZE == end {
        m', rest := ShrinkAtEnd(m, h);
      } else {
        NoneLost(backed, end);
      }
      Reindex(h, doAdd, rest > 0);
      Conclude(m0, m, m', rs, before, entries, index.Contents(), start, old(end), end, k, h, f, doAdd, rest, p);
      mem := m';
      regions := Freed(rs, k, h + rest);
    }

    /** free: the block becomes a hole, joins its neighbours, and lets the heap contract if it reaches the end. */
    method Free(p: int) returns (ghost k: nat)
      requires Valid() && index.size < index.maxSize
      requires p == 0 || exists r :: r in Live(regions) && r.Payload() == p
      modifies this, index, index.slots
      ensures Valid() && end <= old(end)
      ensures p == 0 ==> regions == old(regions) && mem == old(mem) && end == old(end)
      ensures Live(regions) == set r | r in old(Live(regions)) && r.Payload() != p
      ensures AllKept(old(mem), mem, Live(regions))
      ensures old(end) - start >= HEAP_MIN_SIZE ==> end - start >= HEAP_MIN_SIZE
      ensures p != 0 ==> k < |old(regions)| && old(regions)[k].Payload() == p && !old(regions)[k].hole
                         && EndsLow(old(regions), k, start, old(end), end)
      ensures Lost(old(backed), backed, end + PAGE_SIZE, old(end))
    {
      hide Lost, HeapOk, AllKept, Live, Backed, Joined, EndAfterFree, EndsLow, Tiles, Tagged, NoAdjacentHoles, Indexed;
      k := 0;
      if p == 0 {
        NoNullPayload(mem, regions, index.Contents(), start, end);
        KeptSelf(mem, Live(regions));
        NoneLost(backed, end);
        return;
      }
      ghost var before := index.Contents();
      k := BlockOf(mem, regions, before, start, end, p);
      var m, h, f, doAdd := Join(p - HEADER_SIZE, k);
      Parts(mem, regions, before, start, end);
      EndAfterFreeIsLow(regions, k, start, end);
      Settle(m, h, f, doAdd, k, p, before);
    }
  }
}
