/** The pages behind the heap: the loops of expand and contract on the page tables and the frame bitset. */
module HeapPages {
  import opened Memory
  import opened Regions
  import opened HeapInvariant
  import opened HeapSteps
  import opened HeapSizes
  import opened KernelHeap
  import opened FrameBitmap
  import opened Paging
  import opened AddressSpaces

  /** The pages of an address space that have a frame: what Heap calls backed. */
  ghost function BackedBy(d: Directory): (pages: set<int>)
    requires |d.tables| == ENTRIES
    reads d, d.tables
    ensures forall v: nat | v < PAGES :: v in pages <==> FrameOf(d, v) != 0
    ensures forall v | v in pages :: 0 <= v < PAGES
  {
    set v: nat | v < PAGES && FrameOf(d, v) != 0 :: v as int
  }

  /** The loop of expand. Steps of 1000 bytes ask several times for the same page, which alloc_frame does not mind. A
      result of false is its PANIC. */
  method GiveFrames(p: Pager, d: Directory, start: nat, oldSize: nat, newSize: nat, supervisor: bool, readonly: bool)
    returns (ok: bool)
    requires p.Valid() && p.Registered(d) && 0 in p.UsedFrames()
    requires start % FRAME_SIZE == 0 && oldSize % FRAME_SIZE == 0 && newSize % FRAME_SIZE == 0
    requires oldSize < newSize && start + newSize <= 0x1_0000_0000
    modifies p`owner, p`tables, p`placement, p.bitmap.words, d, d.tables
    ensures p.Valid() && p.Registered(d) && 0 in p.UsedFrames()
    ensures ok ==> forall v: nat | v < PAGES ::
              if PageOf(start + oldSize) <= v < PageOf(start + newSize)
              then Given(old(EntryOf(d, v)), EntryOf(d, v), supervisor, !readonly)
              else EntryOf(d, v) == old(EntryOf(d, v))
    ensures ok ==> Gained(old(BackedBy(d)), BackedBy(d), start + oldSize, start + newSize)
    ensures !ok ==> AllUsed(p.bitmap.words[..])
  {
    hide Pager.Ledger, Used, AllUsed, EntryOf, Given, PageOf, BackedBy, Gained;
    var i := oldSize;
    ghost var first, next := PageOf(start + oldSize), PageOf(start + oldSize);
    while i < newSize
      invariant oldSize <= i < newSize + 1000 && first <= next
      invariant i == oldSize || (oldSize + 1000 <= i && next == PageOf(start + i - 1000) + 1)
      invariant i == oldSize ==> next == first
      invariant p.Valid() && p.Registered(d) && 0 in p.UsedFrames()
      invariant forall j | 0 <= j < ENTRIES && d.tables[j] != old(d.tables)[j] ::
                  old(d.tables)[j] == null && fresh(d.tables[j])
      invariant forall v: nat | v < PAGES && first <= v < next ::
                  Given(old(EntryOf(d, v)), EntryOf(d, v), supervisor, !readonly)
      invariant forall v: nat | v < PAGES && !(first <= v < next) :: EntryOf(d, v) == old(EntryOf(d, v))
    {
      Stride(start + i);
      PageInside(start + oldSize, start + i, start + newSize);
      AddressPage(start + i);
      if i > oldSize { PageOrder(start + i - 1000, start + i); }
      ok := MapPage(p, d, start + i, supervisor, !readonly);
      if !ok {
        return;
      }
      GivenAgain();
      next := PageOf(start + i) + 1;
      i := i + 1000;
    }
    ok := true;
    LastStride(start + i - 1000, start + newSize);
    AddressPage(start + oldSize);
    AddressPage(start + i - 1000);
    GivenHasFrame();
    AddressPage(start + newSize - 1);
    PageAfter(start + newSize);
    FramesGained(old(BackedBy(d)), BackedBy(d), start + oldSize, start + newSize);
  }

  lemma PageAfter(a: nat)
    requires 0 < a && a % FRAME_SIZE == 0
    ensures PageOf(a) == PageOf(a - 1) + 1
  {}

  lemma FramesGained(before: set<int>, after: set<int>, lo: int, hi: int)
    requires forall v | v in before || v in after :: 0 <= v < PAGES
    requires 0 <= PageOf(lo) && PageOf(hi) <= PAGES
    requires forall v: nat | v < PAGES :: v in after <==> v in before || PageOf(lo) <= v < PageOf(hi)
    ensures Gained(before, after, lo, hi)
  {}

  lemma AddressPage(a: nat)
    requires a < 0x1_0000_0000
    ensures PageOf(a) == a / FRAME_SIZE && 0 <= PageOf(a) < PAGES
  {}

  lemma PageOrder(a: int, b: int)
    requires a <= b
    ensures PageOf(a) <= PageOf(b)
  {}

  lemma GivenAgain()
    ensures forall a: Page, b: Page, c: Page, kernel: bool, writeable: bool ::
              Given(a, b, kernel, writeable) && Given(b, c, kernel, writeable) ==> Given(a, c, kernel, writeable)
  {}

  lemma GivenHasFrame()
    ensures forall a: Page, b: Page, kernel: bool, writeable: bool :: Given(a, b, kernel, writeable) ==> b.frame != 0
  {}

  /** The loop of contract, from a page below the old end down to a page above the new one. */
  method TakeFrames(p: Pager, d: Directory, start: nat, newSize: nat, oldSize: nat)
    requires p.Valid() && p.Registered(d) && start + oldSize <= 0x1_0000_0000
    requires start % FRAME_SIZE == 0 && oldSize % FRAME_SIZE == 0 && newSize % FRAME_SIZE == 0 && newSize < oldSize
    requires forall v: nat | v < PAGES && PageOf(start) <= v < PageOf(start + oldSize) :: FrameOf(d, v) != 0
    modifies p`owner, p`tables, p`placement, p.bitmap.words, d, d.tables
    ensures p.Valid() && p.Registered(d) && (0 in old(p.UsedFrames()) ==> 0 in p.UsedFrames())
    ensures forall v: nat | v < PAGES ::
              EntryOf(d, v) == if PageOf(start + newSize) < v < PageOf(start + oldSize)
                               then old(EntryOf(d, v)).(frame := 0) else old(EntryOf(d, v))
    ensures Lost(old(BackedBy(d)), BackedBy(d), start + newSize + FRAME_SIZE, start + oldSize)
  {
    hide Pager.Ledger, Used, EntryOf, PageOf, Linked, BackedBy, Lost;
    LinkedSize(d);
    ghost var first, last := PageOf(start), PageOf(start + oldSize);
    var i := oldSize - FRAME_SIZE;
    ghost var q := last - 1;
    NextPage(start + i);
    while newSize < i
      invariant newSize <= i < oldSize && i % FRAME_SIZE == 0 && q == PageOf(start + i) < last
      invariant p.Valid() && p.Registered(d) && d.tables == old(d.tables)
      invariant 0 in old(p.UsedFrames()) ==> 0 in p.UsedFrames()
      invariant forall v: nat | v < PAGES ::
                  EntryOf(d, v) == if q < v < last then old(EntryOf(d, v)).(frame := 0) else old(EntryOf(d, v))
    {
      PageInside(start, start + i, start + oldSize);
      AddressPage(start + i);
      assert EntryOf(d, q) == old(EntryOf(d, q));
      assert first <= q < last && old(FrameOf(d, q)) != 0;
      TakeFrame(p, d, start + i, q);
      OnePageDown(start, newSize, i);
      i := i - FRAME_SIZE;
      q := q - 1;
    }
    NextPage(start + newSize);
    FramesLost(old(BackedBy(d)), BackedBy(d), start + newSize + FRAME_SIZE, start + oldSize);
  }

  lemma OnePageDown(start: nat, newSize: nat, i: nat)
    requires start % FRAME_SIZE == 0 && newSize % FRAME_SIZE == 0 && i % FRAME_SIZE == 0 && newSize < i
    ensures newSize <= i - FRAME_SIZE && (i - FRAME_SIZE) % FRAME_SIZE == 0
    ensures PageOf(start + (i - FRAME_SIZE)) == PageOf(start + i) - 1
  {}

  lemma FramesLost(before: set<int>, after: set<int>, lo: int, hi: int)
    requires forall v | v in before || v in after :: 0 <= v < PAGES
    requires forall v: nat | v < PAGES :: v in after <==> v in before && !(PageOf(lo) <= v < PageOf(hi))
    ensures Lost(before, after, lo, hi)
  {}

  /** One turn of that loop. */
  method TakeFrame(p: Pager, d: Directory, address: nat, ghost q: nat)
    requires p.Valid() && p.Registered(d) && address < 0x1_0000_0000 && q == address / FRAME_SIZE && FrameOf(d, q) != 0
    modifies p`owner, p`tables, p`placement, p.bitmap.words, d, d.tables
    ensures p.Valid() && p.Registered(d) && d.tables == old(d.tables)
    ensures 0 in old(p.UsedFrames()) ==> 0 in p.UsedFrames()
    ensures forall v: nat | v < PAGES ::
              EntryOf(d, v) == if v == q then old(EntryOf(d, v)).(frame := 0) else old(EntryOf(d, v))
  {
    hide Pager.Ledger, Used, EntryOf;
    HasTable(d, q);
    UnmapPage(p, d, address);
  }

  lemma HasTable(d: Directory, v: nat)
    requires v < PAGES && |d.tables| == ENTRIES && FrameOf(d, v) != 0
    ensures d.tables[v / ENTRIES] != null
  {}

  // ---------------------------------------------------------------- the heap on these page tables

  /** What alloc comes to when the frames are counted. */
  datatype PagedResult = Placed(p: int) | BeyondMax | OutOfFrames

  lemma GainedAlike(before: set<int>, x: set<int>, y: set<int>, lo: int, hi: int)
    requires Gained(before, x, lo, hi) && Gained(before, y, lo, hi)
    ensures x == y
  {
    assert forall p :: p in x <==> p in y;
  }

  lemma LostAlike(before: set<int>, x: set<int>, y: set<int>, lo: int, hi: int)
    requires Lost(before, x, lo, hi) && Lost(before, y, lo, hi)
    ensures x == y
  {
    assert forall p :: p in x <==> p in y;
  }

  /** The heap's pages, which are a set in Heap, are the pages of the kernel's directory that have a frame. */
  ghost predicate OnPages(h: Heap, p: Pager, d: Directory)
    reads h, h.index, p, p.bitmap.words, p.tables, d, d.tables
  {
    && (h.index.slots as object) != p.bitmap.words
    && p.Valid() && p.Registered(d) && 0 in p.UsedFrames() && |d.tables| == ENTRIES
    && h.backed == BackedBy(d) && h.max <= 0x1_0000_0000
  }

  /** The heap lies between page boundaries. */
  lemma PagesOfHeap(h: Heap)
    requires h.Valid()
    ensures 0 < h.start
    ensures h.start % FRAME_SIZE == 0 && h.end % FRAME_SIZE == 0 && h.start <= h.end <= h.max
    ensures forall v | PageOf(h.start) <= v < PageOf(h.end) :: v in h.backed
  {
    hide HeapOk;
    Parts(h.mem, h.regions, h.index.Contents(), h.start, h.end);
    TilesBounds(h.regions, h.start, h.end);
    BackedPages(h.backed, h.start, h.end);
  }

  /** The frames that the heap's expansion from oldEnd took. */
  method FollowGrowth(h: Heap, p: Pager, d: Directory, oldEnd: int, supervisor: bool, readonly: bool) returns (ok: bool)
    requires p.Valid() && p.Registered(d) && 0 in p.UsedFrames() && |d.tables| == ENTRIES
    requires 0 <= h.start <= oldEnd <= h.end <= h.max <= 0x1_0000_0000
    requires h.start % FRAME_SIZE == 0 && oldEnd % FRAME_SIZE == 0 && h.end % FRAME_SIZE == 0
    requires Gained(BackedBy(d), h.backed, oldEnd, h.end) && (h.index.slots as object) != p.bitmap.words
    modifies p`owner, p`tables, p`placement, p.bitmap.words, d, d.tables
    ensures if ok then OnPages(h, p, d) else AllUsed(p.bitmap.words[..])
    ensures ok ==> forall v: nat | v < PAGES ::
              if PageOf(oldEnd) <= v < PageOf(h.end)
              then Given(old(EntryOf(d, v)), EntryOf(d, v), supervisor, !readonly)
              else EntryOf(d, v) == old(EntryOf(d, v))
  {
    hide Gained, Pager.Ledger, Used, AllUsed, BackedBy, EntryOf, Given, Linked, PageOf;
    ok := true;
    if oldEnd < h.end {
      ok := GiveFrames(p, d, h.start, oldEnd - h.start, h.end - h.start, supervisor, readonly);
      if !ok {
        return;
      }
      LinkedSize(d);
    } else {
      NoneGained(BackedBy(d), oldEnd);
    }
    GainedAlike(old(BackedBy(d)), h.backed, BackedBy(d), oldEnd, h.end);
  }

  /** alloc, with the frames that expand takes. It fails beyond max_address, and when the frames run out. */
  method AllocOnPages(h: Heap, p: Pager, d: Directory, size: nat, pageAlign: bool, supervisor: bool, readonly: bool)
    returns (r: PagedResult, ghost block: Region)
    requires h.Valid() && OnPages(h, p, d)
    requires h.index.size + (if EndsInHole(h.regions) then 1 else 2) <= h.index.maxSize
    modifies h, h.index, h.index.slots, p`owner, p`tables, p`placement, p.bitmap.words, d, d.tables
    ensures h.Valid() && AllKept(old(h.mem), h.mem, old(Live(h.regions)))
    ensures var growth := Growth(old(h.regions), old(h.end), size + MIN_REGION, pageAlign);
      && (r.BeyondMax? ==> old(h.end) + growth > h.max)
      && (r.Placed? ==> h.end == old(h.end) + growth <= h.max)
    ensures !r.OutOfFrames? ==> OnPages(h, p, d)
    ensures r.Placed? ==>
              && Live(h.regions) == old(Live(h.regions)) + {block} && block !in old(Live(h.regions))
              && r.p == block.Payload() && r.p + size <= block.PayloadEnd()
    ensures !r.OutOfFrames? ==> forall v: nat | v < PAGES ::
              if PageOf(old(h.end)) <= v < PageOf(h.end)
              then Given(old(EntryOf(d, v)), EntryOf(d, v), supervisor, !readonly)
              else EntryOf(d, v) == old(EntryOf(d, v))
    ensures r.OutOfFrames? ==> AllUsed(p.bitmap.words[..])
  {
    hide HeapOk, AllKept, Live, Backed, Fits, Growth, RoundUpPage, Gained, EndsInHole, Pager.Ledger, Used, AllUsed,
         BackedBy, EntryOf, Given, Linked, PageOf;
    PagesOfHeap(h);
    var oldEnd := h.end;
    var a;
    a, block := h.Alloc(size, pageAlign);
    PagesOfHeap(h);
    var ok := FollowGrowth(h, p, d, oldEnd, supervisor, readonly);
    if !ok {
      return OutOfFrames, block;
    }
    r := if a.Allocated? then Placed(a.p) else BeyondMax;
  }

  lemma FramesOfHeap(h: Heap, d: Directory)
    requires h.Valid() && |d.tables| == ENTRIES && h.backed == BackedBy(d)
    ensures forall v: nat | v < PAGES && PageOf(h.start) <= v < PageOf(h.end) :: FrameOf(d, v) != 0
  {
    PagesOfHeap(h);
  }

  /** free, with the frames that contract gives back. */
  method FreeOnPages(h: Heap, p: Pager, d: Directory, a: int)
    requires h.Valid() && OnPages(h, p, d) && h.index.size < h.index.maxSize
    requires a == 0 || exists r :: r in Live(h.regions) && r.Payload() == a
    modifies h, h.index, h.index.slots, p`owner, p`tables, p`placement, p.bitmap.words, d, d.tables
    ensures h.Valid() && OnPages(h, p, d) && AllKept(old(h.mem), h.mem, Live(h.regions))
    ensures Live(h.regions) == set r | r in old(Live(h.regions)) && r.Payload() != a
    ensures forall v: nat | v < PAGES ::
              EntryOf(d, v) == if PageOf(h.end) < v < PageOf(old(h.end)) then old(EntryOf(d, v)).(frame := 0)
                               else old(EntryOf(d, v))
  {
    hide HeapOk, AllKept, Live, Backed, Lost, Pager.Ledger, Used, BackedBy, EntryOf, Linked, PageOf;
    PagesOfHeap(h);
    FramesOfHeap(h, d);
    var oldEnd := h.end;
    ghost var _ := h.Free(a);
    PagesOfHeap(h);
    if h.end < oldEnd {
      TakeFrames(p, d, h.start, h.end - h.start, oldEnd - h.start);
      LinkedSize(d);
    } else {
      NoneLost(BackedBy(d), oldEnd);
    }
    LostAlike(old(BackedBy(d)), h.backed, BackedBy(d), h.end + FRAME_SIZE, oldEnd);
  }
}
