/** The heap's steps exactly as the C text performs them, in 32-bit arithmetic, and the exact inputs
    on which they keep what the comments and callers promise. Nothing here is repaired: a store that
    would fall outside the modelled memory is dropped, and everything else happens as written. */
module HeapAsWritten {
  import opened Memory
  import opened Regions
  import opened HeapInvariant
  import opened HeapSteps
  import opened HeapFacts
  import opened OrderedArrays
  import opened HeapSizes
  import opened KernelHeap

  function U32(x: int): Word { x % 0x1_0000_0000 }

  /** The max_address that the kernel gives its heap. */
  const KHEAP_MAX := 0xCFFF_F000

  datatype HeapState = HeapState(mem: Mem, index: seq<int>, start: int, end: int)

  ghost predicate Sound(s: HeapState, rs: Tiling) {
    HeapOk(s.mem, rs, s.index, s.start, s.end)
  }

  function PokeHeader(m: Mem, a: int, isHole: Byte, size: Word): (m': Mem)
    ensures |m'| == |m|
  {
    if InBounds(m, a, HEADER_SIZE) then WriteHeader(m, a, isHole, size) else m
  }

  function PokeFooter(m: Mem, f: int, header: Word): (m': Mem)
    ensures |m'| == |m|
  {
    if InBounds(m, f, FOOTER_SIZE) then WriteFooter(m, f, header) else m
  }

  // ------------------------------------------------------------ rounding, search and split formulas

  /** `x & 0xFFFFF000 != 0` is `x & (0xFFFFF000 != 0)`, that is, the lowest bit of x. */
  function RoundAsWritten(x: Word): Word {
    if x % 2 == 1 then U32(x - x % PAGE_SIZE + PAGE_SIZE) else x
  }

  lemma RoundMeets(x: Word)
    ensures RoundAsWritten(x) == U32(RoundUpPage(x)) <==> x % 2 == 1 || x % PAGE_SIZE == 0
  {
    assert x % 2 == 1 ==> x % PAGE_SIZE != 0;
  }

  /** The length that contract settles on: bit 12 stands in for "not page aligned". */
  function ContractAsWritten(newSize: Word): Word {
    var size := if newSize / 0x1000 % 2 == 1 then 0x2000 else newSize;
    if size < HEAP_MIN_SIZE then HEAP_MIN_SIZE else size
  }

  lemma ContractMeets(newSize: Word)
    ensures var up := RoundUpPage(newSize);
            ContractAsWritten(newSize) == (if up < HEAP_MIN_SIZE then HEAP_MIN_SIZE else up)
            <==> newSize <= HEAP_MIN_SIZE || (newSize % PAGE_SIZE == 0 && newSize / 0x1000 % 2 == 0)
  {}

  /** The gap that find_smallest_hole allows for, and the gap that alloc then leaves. */
  function SearchGap(pos: Word): int {
    if (pos + HEADER_SIZE) % 2 == 1 then PAGE_SIZE - (pos + HEADER_SIZE) % PAGE_SIZE else 0
  }

  function SplitGap(pos: Word): Word {
    U32(PAGE_SIZE - pos % PAGE_SIZE - HEADER_SIZE)
  }

  lemma SearchMeetsSplit(pos: Word)
    ensures SearchGap(pos) == SplitGap(pos)
            <==> pos % PAGE_SIZE == PAGE_SIZE - HEADER_SIZE
                 || (pos % 2 == 1 && pos % PAGE_SIZE < PAGE_SIZE - HEADER_SIZE)
  {
    var q, r := pos / PAGE_SIZE, pos % PAGE_SIZE;
    assert pos == PAGE_SIZE * q + r;
    if r < PAGE_SIZE - HEADER_SIZE {
      Remainder(pos + HEADER_SIZE, q, r + HEADER_SIZE);
    } else {
      Remainder(pos + HEADER_SIZE, q + 1, r + HEADER_SIZE - PAGE_SIZE);
    }
  }

  lemma Remainder(x: int, q: int, r: int)
    requires x == PAGE_SIZE * q + r && 0 <= r < PAGE_SIZE
    ensures x / PAGE_SIZE == q && x % PAGE_SIZE == r
  {}

  lemma SplitMeetsFrontGap(pos: Word)
    ensures SplitGap(pos) == FrontGap(pos, true)
            <==> pos % PAGE_SIZE <= PAGE_SIZE - HEADER_SIZE - MIN_REGION || pos % PAGE_SIZE == PAGE_SIZE - HEADER_SIZE
  {}

  /** The k-th request that expand makes for a frame is for the page of offset oldSize + 1000 k. */
  ghost predicate Requested(start: int, oldSize: int, newSize: int, page: int) {
    exists k: nat :: AtStride(start, oldSize, newSize, page, k)
  }

  ghost predicate AtStride(start: int, oldSize: int, newSize: int, page: int, k: nat) {
    oldSize + 1000 * k < newSize && page == PageOf(start + oldSize + 1000 * k)
  }

  lemma PageAt(start: int, x: int)
    requires start % PAGE_SIZE == 0
    ensures PageOf(start + x) == start / PAGE_SIZE + x / PAGE_SIZE
  {
    Remainder(start + x, start / PAGE_SIZE + x / PAGE_SIZE, x % PAGE_SIZE);
  }

  lemma StrideReaches(start: int, oldSize: int, newSize: int, a: int)
    requires start % PAGE_SIZE == 0 && 0 <= oldSize < newSize && start + oldSize <= a < start + newSize
    requires (newSize - 1) % PAGE_SIZE >= (newSize - 1 - oldSize) % 1000
    ensures Requested(start, oldSize, newSize, PageOf(a))
  {
    var d := newSize - 1 - oldSize;
    var n := d / 1000;
    var last := oldSize + 1000 * n;
    assert last == newSize - 1 - d % 1000;
    var p, top := (a - start) / PAGE_SIZE, (newSize - 1) / PAGE_SIZE;
    PageAt(start, a - start);
    if p == top {
      Remainder(last, top, (newSize - 1) % PAGE_SIZE - d % 1000);
      PageAt(start, last);
      assert AtStride(start, oldSize, newSize, PageOf(a), n);
    } else {
      var low := PAGE_SIZE * p;
      var k := if oldSize >= low then 0 else (low - oldSize + 999) / 1000;
      var x := oldSize + 1000 * k;
      assert oldSize < low ==> low <= x < low + 1000;
      assert low <= x < low + PAGE_SIZE && low + PAGE_SIZE <= newSize;
      Remainder(x, p, x - low);
      PageAt(start, x);
      assert AtStride(start, oldSize, newSize, PageOf(a), k);
    }
  }

  lemma PagesApart(a: int, b: int)
    requires a < b - b % PAGE_SIZE
    ensures a / PAGE_SIZE < b / PAGE_SIZE
  {}

  /** The last step before x, in steps of 1000 from a, lies below the page boundary b. */
  lemma StepsBelow(a: int, x: int, b: int, k: nat)
    requires a <= x && x - b < (x - a) % 1000 && a + 1000 * k <= x
    ensures a + 1000 * k < b
  {
    assert (x - a) / 1000 >= k;
  }

  lemma StrideFallsShort(start: int, oldSize: int, newSize: int)
    requires start % PAGE_SIZE == 0 && 0 <= oldSize < newSize
    requires (newSize - 1) % PAGE_SIZE < (newSize - 1 - oldSize) % 1000
    ensures !Requested(start, oldSize, newSize, PageOf(start + newSize - 1))
  {
    hide PageOf;
    var x := newSize - 1;
    PageAt(start, x);
    forall k: nat | oldSize + 1000 * k < newSize ensures PageOf(start + oldSize + 1000 * k) < PageOf(start + x) {
      StepsBelow(oldSize, x, x - x % PAGE_SIZE, k);
      PageAt(start, oldSize + 1000 * k);
      PagesApart(oldSize + 1000 * k, x);
    }
  }

  /** Steps of 1000 bytes reach every page of the new range unless the last step falls short of the last page;
      they never fall short when the new size is a whole number of pages. */
  lemma StrideMeets(start: int, oldSize: int, newSize: int)
    requires start % PAGE_SIZE == 0 && 0 <= oldSize < newSize
    ensures (forall a | start + oldSize <= a < start + newSize :: Requested(start, oldSize, newSize, PageOf(a)))
            <==> (newSize - 1) % PAGE_SIZE >= (newSize - 1 - oldSize) % 1000
    ensures newSize % PAGE_SIZE == 0 ==> (newSize - 1) % PAGE_SIZE >= (newSize - 1 - oldSize) % 1000
  {
    hide Requested, PageOf;
    if (newSize - 1) % PAGE_SIZE >= (newSize - 1 - oldSize) % 1000 {
      forall a | start + oldSize <= a < start + newSize ensures Requested(start, oldSize, newSize, PageOf(a)) {
        StrideReaches(start, oldSize, newSize, a);
      }
    } else {
      StrideFallsShort(start, oldSize, newSize);
    }
  }

  /** header_t_less_then on two holes of memory m. */
  function LessAsWritten(m: Mem, a: int, b: int): bool
    requires InBounds(m, a, HEADER_SIZE)
  {
    HeaderAt(m, a).size < HeaderAt(m, a).size
  }

  // ------------------------------------------------------------ alloc, from the hole it found

  /** A block of n bytes at pos, in a hole that goes on for size bytes. */
  function Place(s: HeapState, pos: Word, size: Word, n: Word): HeapState {
    var m1 := PokeFooter(PokeHeader(s.mem, pos, 0, n), U32(pos + n - FOOTER_SIZE), pos);
    var rest := U32(size - n);
    if rest == 0 then s.(mem := m1)
    else
      var tail := U32(pos + n);
      var f := U32(tail + rest - FOOTER_SIZE);
      var m2 := PokeHeader(m1, tail, 1, rest);
      s.(mem := if f < s.end then PokeFooter(m2, f, tail) else m2, index := [tail] + s.index)
  }

  /** The front hole's size is read back for the subtraction, after its footer has been written: in a gap of 9 to 19
      bytes that footer lies over the size. */
  function CarveAsWritten(s: HeapState, at: nat, n: Word, pageAlign: bool): (r: (HeapState, int))
    requires at < |s.index| && InBounds(s.mem, s.index[at], HEADER_SIZE) && |s.mem| < 0x1_0000_0000
  {
    var pos: Word := s.index[at];
    var size := HeaderAt(s.mem, pos).size;
    var n' := if U32(size - n) < MIN_REGION then size else n;
    if pageAlign && pos >= PAGE_SIZE then
      var gap := SplitGap(pos);
      var block := U32(pos + PAGE_SIZE - pos % PAGE_SIZE - HEADER_SIZE);
      var m := PokeFooter(PokeHeader(s.mem, pos, 1, gap), block - FOOTER_SIZE, pos);
      (Place(s.(mem := m), block, U32(size - HeaderAt(m, pos).size), n'), block + HEADER_SIZE)
    else
      (Place(s.(index := Removed(s.index, at)), pos, size, n'), pos + HEADER_SIZE)
  }

  /** What alloc promises: one new block, big enough, aligned if asked, and no other block changed. */
  ghost predicate Serves(s: HeapState, s': HeapState, rs: Tiling, rs': Tiling, p: int, n: int, pageAlign: bool) {
    && Sound(s', rs') && AllKept(s.mem, s'.mem, Live(rs))
    && exists block ::
         && Live(rs') == Live(rs) + {block} && block !in Live(rs) && !block.hole
         && block.Payload() == p && block.size >= n && (pageAlign ==> p % PAGE_SIZE == 0)
  }

  /** Page-aligned requests are served exactly when the hole starts at least 32 bytes before the end of its
      page and what is left behind the block is nothing or at least 20 bytes. */
  predicate CarveCondition(pos: int, size: int, n: int) {
    var gap := PAGE_SIZE - HEADER_SIZE - pos % PAGE_SIZE;
    gap >= MIN_REGION && (size == gap + n || size >= gap + n + MIN_REGION)
  }

  /** The tags and index that CarveAsWritten leaves, when nothing wraps around. */
  lemma PlaceIs(s: HeapState, pos: Word, size: Word, n: Word)
    requires |s.mem| < 0x1_0000_0000 && MIN_REGION <= n && pos + size <= s.end <= |s.mem|
    requires n == size || n + MIN_REGION <= size
    ensures var s' := Place(s, pos, size, n);
            var m1 := Put(s.mem, Region(pos, n, false));
            && s'.start == s.start && s'.end == s.end
            && s'.mem == (if size > n then Put(m1, Region(pos + n, size - n, true)) else m1)
            && s'.index == if size > n then [pos + n] + s.index else s.index
  {
    hide WriteHeader, WriteFooter, SameOutside, HeaderAt, FooterAt, Read32;
  }

  /** Taking hole k out of the index, or leaving it there, and putting a tail hole in. */
  lemma PlacedIndex(s: HeapState, at: nat, pos: int, size: int, gap: int, n: int, index': seq<int>)
    requires at < |s.index| && s.index[at] == pos && CanCarve(s.mem, pos, size, gap, n)
    requires var middle := if gap > 0 then s.index else Removed(s.index, at);
             index' == if size - gap - n > 0 then [pos + gap + n] + middle else middle
    ensures multiset(index') + multiset{pos} == multiset(s.index) + multiset(HoleAddrs(Carved(pos, size, gap, n)))
  {
    hide CanCarve, Carved, HoleAddrs;
    RemovedMultiset(s.index, at);
    var middle := if gap > 0 then s.index else Removed(s.index, at);
    CarvedIndex(s.mem, s.index, middle, index', pos, size, gap, n);
  }

  lemma PlaceIsCarve(s: HeapState, at: nat, pos: Word, size: Word, gap: nat, n: Word)
    requires at < |s.index| && s.index[at] == pos && CanCarve(s.mem, pos, size, gap, n)
    requires pos + size <= s.end <= |s.mem|
    ensures var base := if gap > 0 then s.(mem := Put(s.mem, Region(pos, gap, true)))
                        else s.(index := Removed(s.index, at));
            var s' := Place(base, pos + gap, size - gap, n);
            && s'.start == s.start && s'.end == s.end && s'.mem == Carve(s.mem, pos, size, gap, n)
            && multiset(s'.index) + multiset{pos} == multiset(s.index) + multiset(HoleAddrs(Carved(pos, size, gap, n)))
  {
    hide Put, Place, Carved, HoleAddrs, Removed, SameOutside;
    var base := if gap > 0 then s.(mem := Put(s.mem, Region(pos, gap, true))) else s.(index := Removed(s.index, at));
    PlaceIs(base, pos + gap, size - gap, n);
    PlacedIndex(s, at, pos, size, gap, n, Place(base, pos + gap, size - gap, n).index);
  }

  /** A carve that leaves the tags and index of CarveOk serves the request. */
  lemma CarveServes(s: HeapState, s': HeapState, rs: Tiling, at: nat, k: nat, gap: int, n: int, req: int, p: int,
                    pageAlign: bool)
    requires Sound(s, rs) && at < |s.index| && k < |rs| && rs[k].hole && s.index[at] == rs[k].addr
    requires 0 <= gap && CanCarve(s.mem, rs[k].addr, rs[k].size, gap, n) && req <= n
    requires s'.start == s.start && s'.end == s.end && s'.mem == Carve(s.mem, rs[k].addr, rs[k].size, gap, n)
    requires multiset(s'.index) + multiset{rs[k].addr} ==
             multiset(s.index) + multiset(HoleAddrs(Carved(rs[k].addr, rs[k].size, gap, n)))
    requires p == rs[k].addr + gap + HEADER_SIZE && (pageAlign ==> p % PAGE_SIZE == 0)
    requires MIN_REGION <= n && gap + n <= rs[k].size
    ensures exists rs' :: Serves(s, s', rs, rs', p, req, pageAlign)
  {
    hide HeapOk, AllKept, Live, Carve, Carved, CanCarve, HoleAddrs, Tiles;
    CarveOk(s.mem, rs, s.index, s'.index, s.start, s.end, k, gap, n);
    Parts(s.mem, rs, s.index, s.start, s.end);
    NewBlock(rs, k, gap, n, s.start, s.end);
    var block := Region(rs[k].addr + gap, n, false);
    var rs' := rs[..k] + Carved(rs[k].addr, rs[k].size, gap, n) + rs[k + 1..];
    assert block.Payload() == p;
    assert Serves(s, s', rs, rs', p, req, pageAlign);
  }

  lemma UnalignedValue(s: HeapState, at: nat, pos: Word, size: Word, n: Word)
    requires at < |s.index| && s.index[at] == pos && InBounds(s.mem, pos, HEADER_SIZE) && |s.mem| < 0x1_0000_0000
    requires HeaderAt(s.mem, pos).size == size >= n >= MIN_REGION
    ensures var n' := if size - n < MIN_REGION then size else n;
            CarveAsWritten(s, at, n, false) ==
            (Place(s.(index := Removed(s.index, at)), pos, size, n'), pos + HEADER_SIZE)
  {
    hide HeaderAt, Place, Removed;
  }

  lemma CarveUnaligned(s: HeapState, rs: Tiling, at: nat, n: Word)
    requires Sound(s, rs) && at < |s.index| && n >= MIN_REGION
    requires InBounds(s.mem, s.index[at], HEADER_SIZE) && HeaderAt(s.mem, s.index[at]).size >= n
    requires |s.mem| < 0x1_0000_0000
    ensures var (s', p) := CarveAsWritten(s, at, n, false);
            exists rs' :: Serves(s, s', rs, rs', p, n, false)
  {
    hide HeapOk, AllKept, Live, Carve, Carved, HoleAddrs, HeaderAt, Put, Place, Removed, Serves, CarveAsWritten, Tiles;
    var k := HoleOf(s.mem, rs, s.index, s.start, s.end, s.index[at]);
    Parts(s.mem, rs, s.index, s.start, s.end);
    var pos, size := rs[k].addr, rs[k].size;
    var n' := if size - n < MIN_REGION then size else n;
    UnalignedValue(s, at, pos, size, n);
    PlaceIsCarve(s, at, pos, size, 0, n');
    var (s', p) := CarveAsWritten(s, at, n, false);
    CarveServes(s, s', rs, at, k, 0, n', n, p, false);
  }

  lemma AlignedSizes(pos: Word, size: Word, n: Word)
    requires CarveCondition(pos, size, n) && n >= MIN_REGION && pos + size < 0x1_0000_0000
    ensures var gap := PAGE_SIZE - HEADER_SIZE - pos % PAGE_SIZE;
            && SplitGap(pos) == gap && U32(pos + PAGE_SIZE - pos % PAGE_SIZE - HEADER_SIZE) == pos + gap
            && U32(size - gap) == size - gap && U32(size - n) == size - n >= MIN_REGION
            && gap >= MIN_REGION && (pos + gap + HEADER_SIZE) % PAGE_SIZE == 0
            && (gap + n == size || gap + n + MIN_REGION <= size)
  {}

  lemma AlignedValue(s: HeapState, at: nat, pos: Word, size: Word, n: Word)
    requires at < |s.index| && s.index[at] == pos && InBounds(s.mem, pos, HEADER_SIZE) && |s.mem| < 0x1_0000_0000
    requires HeaderAt(s.mem, pos).size == size && n >= MIN_REGION && PAGE_SIZE <= pos && pos + size <= |s.mem|
    requires CarveCondition(pos, size, n)
    ensures var gap := PAGE_SIZE - HEADER_SIZE - pos % PAGE_SIZE;
            CarveAsWritten(s, at, n, true) ==
            (Place(s.(mem := Put(s.mem, Region(pos, gap, true))), pos + gap, size - gap, n), pos + gap + HEADER_SIZE)
  {
    hide HeaderAt, Place, Put, PokeHeader, PokeFooter;
    AlignedSizes(pos, size, n);
    FrontIs(s.mem, Region(pos, SplitGap(pos), true));
    PutTags(s.mem, Region(pos, SplitGap(pos), true));
  }

  lemma CarveAligned(s: HeapState, rs: Tiling, at: nat, n: Word)
    requires Sound(s, rs) && at < |s.index| && n >= MIN_REGION && s.start >= PAGE_SIZE
    requires InBounds(s.mem, s.index[at], HEADER_SIZE) && |s.mem| < 0x1_0000_0000
    requires CarveCondition(s.index[at], HeaderAt(s.mem, s.index[at]).size, n)
    ensures var (s', p) := CarveAsWritten(s, at, n, true);
            exists rs' :: Serves(s, s', rs, rs', p, n, true)
  {
    hide HeapOk, AllKept, Live, Carve, Carved, HoleAddrs, HeaderAt, Put, Place, Serves, CarveAsWritten, Tiles,
         CarveCondition, SplitGap, U32;
    var k := HoleOf(s.mem, rs, s.index, s.start, s.end, s.index[at]);
    Parts(s.mem, rs, s.index, s.start, s.end);
    var pos, size := rs[k].addr, rs[k].size;
    var gap := PAGE_SIZE - HEADER_SIZE - pos % PAGE_SIZE;
    AlignedSizes(pos, size, n);
    AlignedValue(s, at, pos, size, n);
    PlaceIsCarve(s, at, pos, size, gap, n);
    var (s', p) := CarveAsWritten(s, at, n, true);
    CarveServes(s, s', rs, at, k, gap, n, n, p, true);
  }

  lemma FrontIs(m: Mem, r: Region)
    requires 0 <= r.addr && MIN_REGION <= r.size && r.addr + r.size <= |m| < 0x1_0000_0000 && r.hole
    ensures PokeFooter(PokeHeader(m, r.addr, 1, r.size), r.addr + r.size - FOOTER_SIZE, r.addr) == Put(m, r)
  {
    hide WriteHeader, WriteFooter, SameOutside, HeaderAt, FooterAt, Read32;
  }

  /** Where a hole ends, either the heap ends or a live block starts. */
  lemma AfterHole(s: HeapState, rs: Tiling, k: nat)
    requires Sound(s, rs) && k < |rs| && rs[k].hole
    ensures rs[k].End() == s.end
            || (k + 1 < |rs| && rs[k + 1] in Live(rs) && rs[k + 1].addr == rs[k].End() && rs[k + 1].size >= MIN_REGION)
  {
    hide HeaderOk, FooterOk;
    Probe(s.mem, rs, s.index, s.start, s.end, k);
    if k + 1 < |rs| { Probe(s.mem, rs, s.index, s.start, s.end, k + 1); }
  }

  /** Two different regions of a sound heap do not overlap, and none passes the end. */
  lemma RegionsApart(s: HeapState, rs: Tiling, r: Region, q: Region)
    requires Sound(s, rs) && r in rs && q in rs && r != q
    ensures r.End() <= q.addr || q.End() <= r.addr
    ensures r.End() <= s.end && r.size >= MIN_REGION && q.End() <= s.end && q.size >= MIN_REGION
  {
    TilesBounds(rs, s.start, s.end);
    if r.addr < q.End() && q.addr < r.End() { OverlapIsEqual(rs, r, q, s.start, s.end); }
  }

  ghost predicate SameBelow(m: Mem, m': Mem, b: int) {
    |m| == |m'| && forall i {:trigger m'[i]} | 0 <= i < b && i < |m| :: m'[i] == m[i]
  }

  lemma PokeAbove(m: Mem, a: int, isHole: Byte, v: Word, b: int)
    requires b <= a
    ensures SameBelow(m, PokeHeader(m, a, isHole, v), b) && SameBelow(m, PokeFooter(m, a, v), b)
  {}

  lemma PlaceAbove(s: HeapState, pos: Word, size: Word, n: Word, b: int)
    requires b <= pos && b <= U32(pos + n - FOOTER_SIZE) && b <= U32(pos + n)
    requires b <= U32(U32(pos + n) + U32(size - n) - FOOTER_SIZE)
    ensures SameBelow(s.mem, Place(s, pos, size, n).mem, b)
  {
    hide PokeHeader, PokeFooter, U32;
    var f := U32(pos + n - FOOTER_SIZE);
    var m0 := PokeHeader(s.mem, pos, 0, n);
    var m1 := PokeFooter(m0, f, pos);
    var rest, tail := U32(size - n), U32(pos + n);
    var m2 := PokeHeader(m1, tail, 1, rest);
    PokeAbove(s.mem, pos, 0, n, b);
    PokeAbove(m0, f, 0, pos, b);
    PokeAbove(m1, tail, 1, rest, b);
    PokeAbove(m2, U32(tail + rest - FOOTER_SIZE), 0, tail, b);
  }

  lemma HeaderBelow(m: Mem, m': Mem, a: int)
    requires SameBelow(m, m', a + HEADER_SIZE) && InBounds(m, a, HEADER_SIZE)
    ensures HeaderAt(m', a) == HeaderAt(m, a)
  {}

  lemma PokedHeader(m: Mem, pos: Word, size: Word)
    requires InBounds(m, pos, HEADER_SIZE)
    ensures HeaderAt(PokeHeader(m, pos, 1, size), pos).size == size
  {}

  lemma PlaceOffsets(pos: Word, size: Word, gap: Word, n: Word)
    requires pos + size < 0x1_0000_0000 && MIN_REGION <= n <= size && MIN_REGION <= gap && pos + gap + n < 0x1_0000_0000
    ensures var b := pos + HEADER_SIZE;
            && b <= pos + gap && b <= U32(pos + gap + n - FOOTER_SIZE) && b <= U32(pos + gap + n)
            && b <= U32(U32(pos + gap + n) + U32(U32(size - gap) - n) - FOOTER_SIZE)
  {
    assert U32(U32(pos + gap + n) + U32(U32(size - gap) - n) - FOOTER_SIZE) == pos + size - FOOTER_SIZE;
  }

  /** Nothing that alloc writes after the front hole's header reaches that header again. */
  lemma FrontHeaderStays(s: HeapState, pos: Word, size: Word, gap: Word, n: Word)
    requires |s.mem| < 0x1_0000_0000 && pos + size <= s.end <= |s.mem| && MIN_REGION <= n <= size
    requires MIN_REGION <= gap <= PAGE_SIZE && pos + gap + n < 0x1_0000_0000
    ensures var m := PokeFooter(PokeHeader(s.mem, pos, 1, gap), pos + gap - FOOTER_SIZE, pos);
            InBounds(s.mem, pos, HEADER_SIZE) &&
            HeaderAt(Place(s.(mem := m), pos + gap, U32(size - gap), n).mem, pos).size == gap
  {
    hide HeaderAt, PokeHeader, PokeFooter, Place, SameBelow, U32;
    PlaceOffsets(pos, size, gap, n);
    PokedHeader(s.mem, pos, gap);
    var m1 := PokeHeader(s.mem, pos, 1, gap);
    PokeAbove(m1, pos + gap - FOOTER_SIZE, 0, pos, pos + HEADER_SIZE);
    var m := PokeFooter(m1, pos + gap - FOOTER_SIZE, pos);
    PlaceAbove(s.(mem := m), pos + gap, U32(size - gap), n, pos + HEADER_SIZE);
    HeaderBelow(m1, m, pos);
    HeaderBelow(m, Place(s.(mem := m), pos + gap, U32(size - gap), n).mem, pos);
  }

  lemma FrontSize(m: Mem, pos: Word, gap: Word)
    requires InBounds(m, pos, HEADER_SIZE) && MIN_REGION <= gap
    ensures HeaderAt(PokeFooter(PokeHeader(m, pos, 1, gap), pos + gap - FOOTER_SIZE, pos), pos).size == gap
  {
    hide HeaderAt, PokeHeader, PokeFooter, SameBelow;
    PokedHeader(m, pos, gap);
    var m1 := PokeHeader(m, pos, 1, gap);
    PokeAbove(m1, pos + gap - FOOTER_SIZE, 0, pos, pos + HEADER_SIZE);
    HeaderBelow(m1, PokeFooter(m1, pos + gap - FOOTER_SIZE, pos), pos);
  }

  /** The state after a page-aligned carve: the front hole's entry stays, the tail's entry is added. */
  lemma AlignedCarveShape(s: HeapState, at: nat, pos: Word, size: Word, n: Word)
    requires at < |s.index| && s.index[at] == pos && |s.mem| < 0x1_0000_0000 && PAGE_SIZE <= pos
    requires pos + size <= s.end <= |s.mem| && s.end <= KHEAP_MAX && MIN_REGION <= n <= size
    requires InBounds(s.mem, pos, HEADER_SIZE) && HeaderAt(s.mem, pos).size == size
    ensures var (s', p) := CarveAsWritten(s, at, n, true);
            var gap := PAGE_SIZE - HEADER_SIZE - pos % PAGE_SIZE;
            && p == pos + gap + HEADER_SIZE && s'.start == s.start && s'.end == s.end && |s'.mem| == |s.mem|
            && pos in s'.index
            && (gap >= MIN_REGION ==> HeaderAt(s'.mem, pos).size == gap)
            && (gap >= MIN_REGION && gap + n < size < gap + n + MIN_REGION ==> pos + gap + n in s'.index)
  {
    hide HeaderAt, PokeHeader, PokeFooter, Place, CarveAsWritten, SplitGap;
    AlignedCarveIs(s, at, pos, size, n);
    var gap := PAGE_SIZE - HEADER_SIZE - pos % PAGE_SIZE;
    var n' := if size - n < MIN_REGION then size else n;
    var m := PokeFooter(PokeHeader(s.mem, pos, 1, SplitGap(pos)), pos + gap - FOOTER_SIZE, pos);
    PlaceIndex(s.(mem := m), pos + gap, U32(size - HeaderAt(m, pos).size), n');
    if gap >= MIN_REGION {
      FrontSize(s.mem, pos, gap);
      FrontHeaderStays(s, pos, size, gap, n');
    }
  }

  lemma AlignedCarveIs(s: HeapState, at: nat, pos: Word, size: Word, n: Word)
    requires at < |s.index| && s.index[at] == pos && |s.mem| < 0x1_0000_0000 && PAGE_SIZE <= pos <= KHEAP_MAX
    requires MIN_REGION <= n <= size
    requires InBounds(s.mem, pos, HEADER_SIZE) && HeaderAt(s.mem, pos).size == size
    ensures var gap := PAGE_SIZE - HEADER_SIZE - pos % PAGE_SIZE;
            var n' := if size - n < MIN_REGION then size else n;
            var m := PokeFooter(PokeHeader(s.mem, pos, 1, SplitGap(pos)), pos + gap - FOOTER_SIZE, pos);
            && 0 <= pos + gap < 0x1_0000_0000 && SplitGap(pos) == U32(gap) && (gap >= 0 ==> SplitGap(pos) == gap)
            && CarveAsWritten(s, at, n, true) ==
               (Place(s.(mem := m), pos + gap, U32(size - HeaderAt(m, pos).size), n'), pos + gap + HEADER_SIZE)
  {
    hide HeaderAt, PokeHeader, PokeFooter, Place;
  }

  lemma PlaceIndex(s: HeapState, pos: Word, size: Word, n: Word)
    ensures var s' := Place(s, pos, size, n);
            && s'.start == s.start && s'.end == s.end && |s'.mem| == |s.mem|
            && s'.index == if size == n then s.index else [U32(pos + n)] + s.index
  {}

  /** A page-aligned carve that serves its request met the condition. */
  lemma CarveOnlyIf(s: HeapState, rs: Tiling, rs': Tiling, at: nat, n: Word)
    requires Sound(s, rs) && at < |s.index| && n >= MIN_REGION && PAGE_SIZE <= s.start && s.end <= KHEAP_MAX
    requires InBounds(s.mem, s.index[at], HEADER_SIZE) && HeaderAt(s.mem, s.index[at]).size >= n
    requires |s.mem| < 0x1_0000_0000
    requires var (s', p) := CarveAsWritten(s, at, n, true);
             Serves(s, s', rs, rs', p, n, true)
    ensures CarveCondition(s.index[at], HeaderAt(s.mem, s.index[at]).size, n)
  {
    hide HeapOk, AllKept, HeaderAt, CarveAsWritten, Tiles;
    var k := HoleOf(s.mem, rs, s.index, s.start, s.end, s.index[at]);
    Parts(s.mem, rs, s.index, s.start, s.end);
    var hole := rs[k];
    var pos, size := hole.addr, hole.size;
    AlignedCarveShape(s, at, pos, size, n);
    AfterHole(s, rs, k);
    var (s', p) := CarveAsWritten(s, at, n, true);
    var gap := PAGE_SIZE - HEADER_SIZE - pos % PAGE_SIZE;
    var block :| && Live(rs') == Live(rs) + {block} && block !in Live(rs)
                 && !block.hole && block.Payload() == p && block.size >= n;
    assert block in Live(rs');
    var q := HoleOf(s'.mem, rs', s'.index, s'.start, s'.end, pos);
    RegionsApart(s', rs', block, rs'[q]);
    assert gap >= MIN_REGION;
    if hole.End() < s.end {
      assert rs[k + 1] in Live(rs');
      RegionsApart(s', rs', rs[k + 1], block);
      RegionsApart(s', rs', rs[k + 1], rs'[q]);
    }
    assert size >= gap + n;
    if gap + n < size < gap + n + MIN_REGION {
      var t := HoleOf(s'.mem, rs', s'.index, s'.start, s'.end, pos + gap + n);
      RegionsApart(s', rs', rs'[t], block);
      if hole.End() < s.end { RegionsApart(s', rs', rs'[t], rs[k + 1]); }
      assert false;
    }
  }

  /** alloc, from the hole it found: an unaligned request is always served, a page-aligned one exactly when
      CarveCondition holds of the hole's address, its size and the request. */
  lemma CarveMeets(s: HeapState, rs: Tiling, at: nat, n: Word, pageAlign: bool)
    requires Sound(s, rs) && at < |s.index| && n >= MIN_REGION && PAGE_SIZE <= s.start && s.end <= KHEAP_MAX
    requires InBounds(s.mem, s.index[at], HEADER_SIZE) && HeaderAt(s.mem, s.index[at]).size >= n
    requires |s.mem| < 0x1_0000_0000
    ensures var (s', p) := CarveAsWritten(s, at, n, pageAlign);
            (exists rs' :: Serves(s, s', rs, rs', p, n, pageAlign))
            <==> !pageAlign || CarveCondition(s.index[at], HeaderAt(s.mem, s.index[at]).size, n)
  {
    hide HeapOk, HeaderAt, CarveAsWritten, CarveCondition, Serves;
    if !pageAlign {
      CarveUnaligned(s, rs, at, n);
    } else {
      var (s', p) := CarveAsWritten(s, at, n, true);
      if CarveCondition(s.index[at], HeaderAt(s.mem, s.index[at]).size, n) { CarveAligned(s, rs, at, n); }
      forall rs' | Serves(s, s', rs, rs', p, n, true)
        ensures CarveCondition(s.index[at], HeaderAt(s.mem, s.index[at]).size, n)
      {
        CarveOnlyIf(s, rs, rs', at, n);
      }
    }
  }
}
