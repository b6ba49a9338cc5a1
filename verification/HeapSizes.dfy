/** The arithmetic of the heap: rounding, alignment gaps, pages, and how far a request makes the heap grow. */
module HeapSizes {
  import opened Memory
  import opened Regions
  import opened HeapInvariant
  import opened HeapSteps
  import opened HeapFacts

  const HEAP_MIN_SIZE := 0x70000

  function RoundUpPage(x: int): int {
    if x % PAGE_SIZE != 0 then x - x % PAGE_SIZE + PAGE_SIZE else x
  }

  /** Bytes to leave in front of a block at pos so that its payload starts a page and the gap can hold a hole.
      Repair: the C search and split compute two different gaps, which may be negative or under 20 bytes. */
  function FrontGap(pos: int, pageAlign: bool): (g: nat)
    ensures g == 0 || g >= MIN_REGION
    ensures pageAlign ==> (pos + g + HEADER_SIZE) % PAGE_SIZE == 0
  {
    if !pageAlign then 0
    else
      var g := RoundUpPage(pos + HEADER_SIZE) - (pos + HEADER_SIZE);
      if 0 < g < MIN_REGION then g + PAGE_SIZE else g
  }

  /** A heap that ends in a hole at this offset can be this long: whole pages, the minimum, and either the hole is gone
      or what is left of it can be one. */
  ghost predicate CanEnd(length: int, offset: int) {
    length % PAGE_SIZE == 0 && length >= HEAP_MIN_SIZE && (length == offset || length >= offset + MIN_REGION)
  }

  /** The new length for a heap whose last region is a hole at this offset: the least there can be.
      Repair: rounds up with the page mask, and keeps a page more rather than leave a hole under 20 bytes. */
  function ContractTarget(offset: nat): (t: nat)
    ensures t % PAGE_SIZE == 0 && t >= HEAP_MIN_SIZE && (t == offset || t >= offset + MIN_REGION)
    ensures CanEnd(t, offset) && forall length | CanEnd(length, offset) :: t <= length
  {
    var up := RoundUpPage(offset);
    var t := if up < HEAP_MIN_SIZE then HEAP_MIN_SIZE else up;
    if 0 < t - offset < MIN_REGION then t + PAGE_SIZE else t
  }

  /** Page p of the address space contains address a. */
  function PageOf(a: int): int { a / PAGE_SIZE }

  ghost predicate Backed(pages: set<int>, lo: int, hi: int) {
    forall a | lo <= a < hi :: PageOf(a) in pages
  }

  /** Between two moments the pages from lo to before hi got frames, and no others did. */
  ghost predicate Gained(before: set<int>, after: set<int>, lo: int, hi: int) {
    forall p :: p in after <==> p in before || PageOf(lo) <= p < PageOf(hi)
  }

  /** Those pages lost their frames, and no others did. */
  ghost predicate Lost(before: set<int>, after: set<int>, lo: int, hi: int) {
    forall p :: p in after <==> p in before && !(PageOf(lo) <= p < PageOf(hi))
  }

  lemma NoneGained(pages: set<int>, a: int)
    ensures Gained(pages, pages, a, a)
  {}

  lemma GainedTwice(pages: set<int>, pages': set<int>, pages'': set<int>, lo: int, mid: int, hi: int)
    requires Gained(pages, pages', lo, mid) && Gained(pages', pages'', mid, hi) && lo <= mid <= hi
    ensures Gained(pages, pages'', lo, hi)
  {}

  lemma NoneLost(pages: set<int>, a: int)
    ensures Lost(pages, pages, a, a) && Lost(pages, pages, a + PAGE_SIZE, a)
  {}

  /** A heap [lo, hi) that ends in a hole at this offset now ends as low as it can. */
  ghost predicate LowEnd(lo: int, hi: int, end: int, offset: int) {
    && end <= hi && (end == hi || CanEnd(end - lo, offset))
    && forall length | CanEnd(length, offset) :: end <= lo + length
  }

  /** Where the heap ends once block k has been freed: as low as it can if the hole that the block becomes reaches its
      end, and else where it did. */
  ghost predicate EndsLow(rs: Tiling, k: nat, lo: int, hi: int, end: int)
    requires k < |rs|
  {
    var h := if k > 0 && rs[k - 1].hole then rs[k - 1].addr else rs[k].addr;
    if k + 1 == |rs| || (k + 2 == |rs| && rs[k + 1].hole)
    then LowEnd(lo, hi, end, h - lo) else end == hi
  }

  /** The same as a formula: it contracts when the hole that the block becomes reaches the end. */
  ghost function EndAfterFree(rs: Tiling, k: nat, lo: int, hi: int): int
    requires k < |rs|
  {
    var h := rs[Left(rs, k)].addr;
    if Right(rs, k) < |rs| || h < lo || ContractTarget(h - lo) >= hi - lo then hi else lo + ContractTarget(h - lo)
  }

  lemma EndAfterFreeIsLow(rs: Tiling, k: nat, lo: int, hi: int)
    requires Tiles(rs, lo, hi) && k < |rs|
    ensures EndsLow(rs, k, lo, hi, EndAfterFree(rs, k, lo, hi))
  {
    hide ContractTarget, CanEnd, Tiles;
    TilesAt(rs, Left(rs, k), lo, hi);
    var h := rs[Left(rs, k)].addr;
    assert CanEnd(ContractTarget(h - lo), h - lo);
  }

  function Fits(m: Mem, pos: int, n: int, pageAlign: bool): bool
    requires InBounds(m, pos, HEADER_SIZE)
  {
    HeaderAt(m, pos).size - FrontGap(pos, pageAlign) >= n
  }

  lemma Rounded(start: int, end: int, x: int)
    requires start % PAGE_SIZE == 0 && end % PAGE_SIZE == 0 && end - start < x
    ensures var r := RoundUpPage(x);
            x <= r && r % PAGE_SIZE == 0 && end + PAGE_SIZE <= start + r && (start + r) % PAGE_SIZE == 0
  {}

  lemma IndexRounded(at: nat, indexSize: nat)
    ensures var lo := RoundUpPage(at + 4 * indexSize);
            at + 4 * indexSize <= lo < at + 4 * indexSize + PAGE_SIZE && lo % PAGE_SIZE == 0
  {}

  lemma FirstEntry(lo: int)
    ensures [lo] + [] == [lo]
  {}

  lemma BacksPart(pages: set<int>, lo: int, mid: int, hi: int)
    requires Backed(pages, lo, hi) && lo <= mid
    ensures Backed(pages, mid, hi)
  {}

  lemma PageInside(lo: int, a: int, hi: int)
    requires lo <= a < hi && hi % PAGE_SIZE == 0
    ensures PageOf(lo) <= PageOf(a) < PageOf(hi)
  {}

  lemma WholePages(length: int, i: int)
    requires length % PAGE_SIZE == 0 && i % PAGE_SIZE == 0 && length < i
    ensures length <= i - PAGE_SIZE && (i - PAGE_SIZE) % PAGE_SIZE == 0
  {}

  lemma NextPage(a: int)
    ensures PageOf(a + PAGE_SIZE) == PageOf(a) + 1
  {}

  /** One page fewer of those that keep their frames. */
  lemma LostOneMore(before: set<int>, after: set<int>, a: int, hi: int)
    requires Lost(before, after, a + PAGE_SIZE, hi) && a < hi && hi % PAGE_SIZE == 0
    ensures Lost(before, after - {PageOf(a)}, a, hi)
  {
    NextPage(a);
    PageInside(a, a, hi);
    hide PageOf;
  }

  /** A step of 1000 bytes passes over no page. */
  lemma Stride(a: int)
    ensures PageOf(a) <= PageOf(a - 1000) + 1
  {}

  lemma LastStride(a: int, hi: int)
    requires hi % PAGE_SIZE == 0 && hi - 1000 <= a < hi
    ensures PageOf(a) == PageOf(hi) - 1
  {}

  lemma GainedBacks(before: set<int>, after: set<int>, lo: int, mid: int, hi: int)
    requires lo % PAGE_SIZE == 0 && mid % PAGE_SIZE == 0 && hi % PAGE_SIZE == 0
    requires Backed(before, lo, mid) && Gained(before, after, mid, hi)
    ensures Backed(after, lo, hi)
  {
    hide Backed, PageOf;
    BackedPages(before, lo, mid);
    BackedPages(after, lo, hi);
  }

  lemma LostBacks(before: set<int>, after: set<int>, lo: int, mid: int, hi: int)
    requires lo % PAGE_SIZE == 0 && mid % PAGE_SIZE == 0 && hi % PAGE_SIZE == 0 && mid <= hi
    requires Backed(before, lo, hi) && Lost(before, after, mid + PAGE_SIZE, hi)
    ensures Backed(after, lo, mid)
  {
    hide Backed, PageOf;
    BackedPages(before, lo, hi);
    BackedPages(after, lo, mid);
    NextPage(mid);
    if mid < hi { PageInside(mid, mid, hi); }
  }

  lemma BackedPages(pages: set<int>, lo: int, hi: int)
    requires lo % PAGE_SIZE == 0 && hi % PAGE_SIZE == 0
    ensures Backed(pages, lo, hi) <==> forall p | PageOf(lo) <= p < PageOf(hi) :: p in pages
  {
    if Backed(pages, lo, hi) {
      forall p | PageOf(lo) <= p < PageOf(hi) ensures p in pages {
        assert PageOf(p * PAGE_SIZE) == p;
      }
    }
  }

  lemma GapAligns(pos: int, pageAlign: bool)
    ensures var g := FrontGap(pos, pageAlign);
            (g == 0 || g >= MIN_REGION) && (pageAlign ==> (pos + g + HEADER_SIZE) % PAGE_SIZE == 0)
  {}

  // ---------------------------------------------------------------- growth

  /** Some hole can hold a block of n bytes behind its gap. */
  ghost predicate FitsIn(rs: Tiling, n: int, pageAlign: bool) {
    exists k :: 0 <= k < |rs| && HoleFits(rs[k], n, pageAlign)
  }

  ghost predicate HoleFits(r: Region, n: int, pageAlign: bool) {
    r.hole && r.size - FrontGap(r.addr, pageAlign) >= n
  }

  /** What find_smallest_hole decides from the index and the headers is whether some hole fits. */
  lemma NoneFits(m: Mem, rs: Tiling, index: seq<int>, lo: int, hi: int, n: int, pageAlign: bool)
    requires HeapOk(m, rs, index, lo, hi)
    requires forall i | 0 <= i < |index| :: InBounds(m, index[i], HEADER_SIZE) && !Fits(m, index[i], n, pageAlign)
    ensures !FitsIn(rs, n, pageAlign)
  {
    hide HeapOk;
    forall k | 0 <= k < |rs| ensures !HoleFits(rs[k], n, pageAlign) {
      if rs[k].hole {
        HoleIsIndexed(m, rs, index, lo, hi, k);
        Probe(m, rs, index, lo, hi, k);
        var i :| 0 <= i < |index| && index[i] == rs[k].addr;
        assert !Fits(m, index[i], n, pageAlign);
      }
    }
  }

  lemma OneFits(m: Mem, rs: Tiling, index: seq<int>, lo: int, hi: int, at: nat, n: int, pageAlign: bool)
    requires HeapOk(m, rs, index, lo, hi) && at < |index|
    requires InBounds(m, index[at], HEADER_SIZE) && Fits(m, index[at], n, pageAlign)
    ensures FitsIn(rs, n, pageAlign)
  {
    hide HeapOk;
    var k := HoleOf(m, rs, index, lo, hi, index[at]);
    assert HoleFits(rs[k], n, pageAlign);
  }

  /** Where the last hole starts, or a new one would, and how long it is. */
  ghost function LastStart(rs: Tiling, hi: int): int {
    if EndsInHole(rs) then rs[|rs| - 1].addr else hi
  }

  ghost function LastHole(rs: Tiling): int {
    if EndsInHole(rs) then rs[|rs| - 1].size else 0
  }

  /** The tiling when the heap has grown by delta bytes at its old end hi. */
  ghost function Grown(rs: Tiling, hi: int, delta: int): Tiling {
    if EndsInHole(rs) then rs[..|rs| - 1] + [Region(rs[|rs| - 1].addr, rs[|rs| - 1].size + delta, true)]
    else rs + [Region(hi, delta, true)]
  }

  lemma GrownLast(rs: Tiling, hi: int, delta: int)
    requires rs != [] && rs[|rs| - 1].hole
    ensures Grown(rs, hi, delta) == rs[..|rs| - 1] + [Region(rs[|rs| - 1].addr, rs[|rs| - 1].size + delta, true)]
  {}

  /** The least multiple of r that is at least need. */
  ghost function Stretch(need: int, r: nat): (s: nat)
    requires r > 0
    ensures need <= s && (need > 0 ==> s < need + r)
    decreases if need > 0 then need else 0
  {
    if need <= 0 then 0 else r + Stretch(need - r, r)
  }

  /** How far a request for n bytes makes the heap grow: not at all when some hole fits, and else until the last hole
      fits, in steps of n rounded up to a page. */
  ghost function Growth(rs: Tiling, hi: int, n: nat, pageAlign: bool): nat
    requires n > 0
  {
    if FitsIn(rs, n, pageAlign) then 0
    else Stretch(n + FrontGap(LastStart(rs, hi), pageAlign) - LastHole(rs), RoundUpPage(n))
  }

  lemma GrownFits(rs: Tiling, hi: int, delta: nat, n: int, pageAlign: bool)
    requires !FitsIn(rs, n, pageAlign) && delta > 0
    ensures var rs' := Grown(rs, hi, delta);
      && EndsInHole(rs') && LastStart(rs', hi + delta) == LastStart(rs, hi) && LastHole(rs') == LastHole(rs) + delta
      && (FitsIn(rs', n, pageAlign) <==> LastHole(rs') - FrontGap(LastStart(rs, hi), pageAlign) >= n)
  {
    hide FrontGap;
    var rs' := Grown(rs, hi, delta);
    var last := |rs'| - 1;
    forall k | 0 <= k < last ensures !HoleFits(rs'[k], n, pageAlign) {
      assert rs'[k] == rs[k];
    }
    if HoleFits(rs'[last], n, pageAlign) { assert FitsIn(rs', n, pageAlign); }
  }

  /** One growth takes the heap one step of its way. */
  lemma GrowthStep(rs: Tiling, hi: int, n: nat, pageAlign: bool)
    requires n > 0 && !FitsIn(rs, n, pageAlign) && LastHole(rs) >= 0
    ensures var r := RoundUpPage(n);
      r > 0 && Growth(rs, hi, n, pageAlign) == r + Growth(Grown(rs, hi, r), hi + r, n, pageAlign)
  {
    hide FitsIn, FrontGap;
    var r := RoundUpPage(n);
    assert r >= n;
    GrownFits(rs, hi, r, n, pageAlign);
    LastFits(rs, hi, n, pageAlign);
    var need := n + FrontGap(LastStart(rs, hi), pageAlign) - LastHole(rs);
    assert Stretch(need, r) == r + Stretch(need - r, r);
    assert need - r == n + FrontGap(LastStart(Grown(rs, hi, r), hi + r), pageAlign) - LastHole(Grown(rs, hi, r));
  }

  lemma LastFits(rs: Tiling, hi: int, n: nat, pageAlign: bool)
    requires n > 0 && !FitsIn(rs, n, pageAlign)
    ensures LastHole(rs) - FrontGap(LastStart(rs, hi), pageAlign) < n
  {
    hide FrontGap;
    if EndsInHole(rs) { assert !HoleFits(rs[|rs| - 1], n, pageAlign); }
  }

  /** No request makes the heap grow more than three times, and an unaligned one never more than once. */
  lemma GrowthAtMost(rs: Tiling, hi: int, n: nat, pageAlign: bool)
    requires n > 0 && LastHole(rs) >= 0
    ensures Growth(rs, hi, n, pageAlign) <= (if pageAlign then 3 else 1) * RoundUpPage(n)
    ensures !FitsIn(rs, n, pageAlign) ==> Growth(rs, hi, n, pageAlign) >= RoundUpPage(n) >= PAGE_SIZE
  {
    hide FitsIn;
    var r, need := RoundUpPage(n), n + FrontGap(LastStart(rs, hi), pageAlign) - LastHole(rs);
    assert r >= n && r >= PAGE_SIZE;
    if !FitsIn(rs, n, pageAlign) {
      LastFits(rs, hi, n, pageAlign);
      assert need <= 3 * r;
      assert Stretch(need, r) == r + Stretch(need - r, r);
      assert Stretch(need - 2 * r, r) <= r by { assert Stretch(need - 3 * r, r) == 0; }
    }
  }

  lemma NoGrowth(rs: Tiling, hi: int, n: nat, pageAlign: bool)
    requires n > 0 && FitsIn(rs, n, pageAlign)
    ensures Growth(rs, hi, n, pageAlign) == 0
  {}

  /** What one call of expand for n bytes comes to in a heap, and what growth is left then. */
  lemma OneStep(m: Mem, rs: Tiling, index: seq<int>, lo: int, hi: int, n: nat, pageAlign: bool)
    requires HeapOk(m, rs, index, lo, hi) && n > 0 && !FitsIn(rs, n, pageAlign) && (hi - lo) % PAGE_SIZE == 0
    ensures var r := RoundUpPage(n);
      && lo + RoundUpPage(hi - lo + n) == hi + r && r > 0
      && Growth(rs, hi, n, pageAlign) == r + Growth(Grown(rs, hi, r), hi + r, n, pageAlign)
  {
    hide HeapOk, FitsIn, Growth, Grown;
    Parts(m, rs, index, lo, hi);
    LastHoleSize(rs, lo, hi);
    GrowthStep(rs, hi, n, pageAlign);
    RoundedSum(hi - lo, n);
  }

  lemma LimitedGrowth(m: Mem, rs: Tiling, index: seq<int>, lo: int, hi: int, n: nat, pageAlign: bool)
    requires HeapOk(m, rs, index, lo, hi) && n > 0
    ensures Growth(rs, hi, n, pageAlign) <= (if pageAlign then 3 else 1) * RoundUpPage(n)
  {
    hide HeapOk, Growth;
    Parts(m, rs, index, lo, hi);
    LastHoleSize(rs, lo, hi);
    GrowthAtMost(rs, hi, n, pageAlign);
  }

  lemma LastHoleSize(rs: Tiling, lo: int, hi: int)
    requires Tiles(rs, lo, hi)
    ensures LastHole(rs) >= 0
  {
    TilesBounds(rs, lo, hi);
  }

  lemma RoundedSum(length: int, n: int)
    requires length % PAGE_SIZE == 0
    ensures RoundUpPage(length + n) == length + RoundUpPage(n)
  {
    assert length == PAGE_SIZE * (length / PAGE_SIZE);
  }
}
