/** Setting up paging at boot: the identity map, whose bound moves while it is made, and the first heap pages. */
module Boot {
  import opened FrameBitmap
  import opened Paging
  import opened AddressSpaces

  const MEMORY_END := 0x100_0000
  const KHEAP_START := 0xC000_0000
  const KHEAP_INITIAL_SIZE := 0x10_0000

  ghost predicate ExactlyBelow(used: set<nat>, n: nat) {
    forall f: nat :: f in used <==> f < n
  }

  /** Virtual page layout[f] has frame f, for every f, and no other frame is in use. */
  ghost predicate LaidOut(p: Pager, d: Directory, layout: seq<nat>)
    reads p.bitmap.words, d, d.tables
  {
    && ExactlyBelow(p.UsedFrames(), |layout|)
    && |d.tables| == ENTRIES
    && (forall f | 0 <= f < |layout| :: layout[f] < PAGES && HasFrame(d, layout[f], f))
    && (forall f, g | 0 <= f < g < |layout| :: layout[f] != layout[g])
  }

  ghost predicate HasFrame(d: Directory, v: nat, f: nat)
    requires v < PAGES && |d.tables| == ENTRIES
    reads d, d.tables[v / ENTRIES]
  {
    var e := EntryOf(d, v);
    e.frame == f && e.present && e.user && !e.rw
  }

  /** A page that is not laid out has no frame. */
  lemma Unmapped(p: Pager, d: Directory, layout: seq<nat>, v: nat)
    requires p.Valid() && p.Registered(d) && LaidOut(p, d, layout) && v < PAGES && v !in layout
    ensures FrameOf(d, v) == 0
  {
    var f := FrameOf(d, v);
    if f != 0 {
      assert f in p.UsedFrames();
      OneEntryPerFrame(p, d, d, v, layout[f]);
    }
  }

  lemma NextFree(words: seq<bv32>, n: nat, f: nat)
    requires ExactlyBelow(Used(words), n) && LeastFree(words, f)
    ensures f == n < BITS * |words|
  {
    hide IsSet;
    assert n < f ==> n in Used(words);
    assert f !in Used(words);
  }

  lemma NoneFree(words: seq<bv32>, n: nat)
    requires ExactlyBelow(Used(words), n) && AllUsed(words)
    ensures n == BITS * |words|
  {
    hide IsSet;
    assert n > 0 ==> n - 1 in Used(words);
    assert n < BITS * |words| ==> n in Used(words);
  }

  /** Gives the next page, which is not laid out yet, the next frame. */
  method MapNext(p: Pager, d: Directory, address: nat, ghost v: nat, ghost layout: seq<nat>) returns (ok: bool)
    requires p.Valid() && p.Registered(d) && LaidOut(p, d, layout) && !p.heapReady
    requires address == v * FRAME_SIZE && v < PAGES && v !in layout
    modifies p`owner, p`tables, p`placement, p.bitmap.words, d, d.tables
    ensures p.Valid() && p.Registered(d) && old(p.tables) <= p.tables
    ensures forall i | 0 <= i < ENTRIES && d.tables[i] != old(d.tables)[i] ::
              i == v / ENTRIES && old(d.tables)[i] == null && fresh(d.tables[i])
    ensures p.placement == if old(d.tables)[v / ENTRIES] == null then PlacementAfterTable(old(p.placement))
                           else old(p.placement)
    ensures forall lo: int | lo <= old(p.placement) && old(Placed(d.tables, lo, p.placement)) ::
              Placed(d.tables, lo, p.placement)
    ensures LaidOut(p, d, if ok then layout + [v] else layout)
    ensures ok <==> |layout| < BITS * p.bitmap.words.Length
  {
    hide Pager.Valid, IsSet, Used, LeastFree, AllUsed, EntryOf, Placed;
    Unmapped(p, d, layout, v);
    LinkedSize(d);
    ok := AllocPage(p, d, address, false, false, v);
    LinkedSize(d);
    forall f | 0 <= f < |layout| ensures HasFrame(d, layout[f], f) {
      assert old(HasFrame(d, layout[f], f));
      assert layout[f] != v;
    }
    if ok {
      NextFree(old(p.bitmap.words[..]), |layout|, FrameOf(d, v));
    } else {
      NoneFree(p.bitmap.words[..], |layout|);
    }
  }

  /** n virtual pages from v on, each to the frame of its own position. */
  ghost function Upwards(v: nat, n: nat): (s: seq<nat>) {
    seq(n, k => v + k)
  }

  /** How many page tables hold the first n pages. */
  ghost function TablesFor(n: nat): nat {
    (n + ENTRIES - 1) / ENTRIES
  }

  lemma OnePageMore(n: nat)
    ensures TablesFor(n + 1) == if n % ENTRIES == 0 then TablesFor(n) + 1 else TablesFor(n)
  {}

  lemma TableThere(p: Pager, d: Directory, n: nat)
    requires |d.tables| == ENTRIES && n < PAGES && n % ENTRIES != 0 && LaidOut(p, d, Upwards(0, n))
    ensures d.tables[n / ENTRIES] != null
  {
    assert HasFrame(d, Upwards(0, n)[n - 1], n - 1);
    assert (n - 1) / ENTRIES == n / ENTRIES;
  }

  lemma NothingLaidOut(p: Pager, d: Directory)
    requires p.UsedFrames() == {} && |d.tables| == ENTRIES
    ensures LaidOut(p, d, Upwards(0, 0))
  {}

  /** The identity map. Each page table it needs is itself memory that must be mapped, so the bound of the loop moves.
      A result of false is the PANIC of alloc_frame. */
  method IdentityMap(p: Pager, d: Directory, ghost lo: nat) returns (ok: bool, ghost n: nat)
    requires p.Valid() && p.Registered(d) && p.UsedFrames() == {} && !p.heapReady
    requires lo <= p.placement && Placed(d.tables, lo, p.placement)
    requires BITS * p.bitmap.words.Length < PAGES
    modifies p`owner, p`tables, p`placement, p.bitmap.words, d, d.tables
    ensures p.Valid() && p.Registered(d) && old(p.tables) <= p.tables
    ensures forall i | 0 <= i < ENTRIES && d.tables[i] != old(d.tables)[i] ::
              old(d.tables)[i] == null && fresh(d.tables[i])
    ensures LaidOut(p, d, Upwards(0, n)) && Placed(d.tables, lo, p.placement)
    ensures ok ==> FRAME_SIZE * (n - 1) < p.placement + FRAME_SIZE <= FRAME_SIZE * n
    ensures ok <==> p.placement + FRAME_SIZE <= FRAME_SIZE * BITS * p.bitmap.words.Length
    ensures !ok ==> n == BITS * p.bitmap.words.Length
    ensures p.placement >= old(p.placement)
    ensures ok ==> p.placement <= old(p.placement) + 2 * FRAME_SIZE * TablesFor(n)
    ensures var frames := BITS * p.bitmap.words.Length;
      old(p.placement) + 2 * FRAME_SIZE * TablesFor(frames) + FRAME_SIZE <= FRAME_SIZE * frames ==> ok
  {
    hide Pager.Ledger, LaidOut, Used, TablesFor, Placed;
    var i := 0;
    n := 0;
    NothingLaidOut(p, d);
    while i < p.placement + FRAME_SIZE
      invariant i == n * FRAME_SIZE && n <= BITS * p.bitmap.words.Length
      invariant p.Valid() && p.Registered(d) && old(p.tables) <= p.tables
      invariant forall i | 0 <= i < ENTRIES && d.tables[i] != old(d.tables)[i] ::
                  old(d.tables)[i] == null && fresh(d.tables[i])
      invariant LaidOut(p, d, Upwards(0, n)) && Placed(d.tables, lo, p.placement)
      invariant n > 0 ==> FRAME_SIZE * (n - 1) < p.placement + FRAME_SIZE
      invariant old(p.placement) <= p.placement <= old(p.placement) + 2 * FRAME_SIZE * TablesFor(n)
      decreases BITS * p.bitmap.words.Length - n
    {
      if n % ENTRIES != 0 { TableThere(p, d, n); }
      OnePageMore(n);
      assert Upwards(0, n) + [n] == Upwards(0, n + 1);
      ok := MapNext(p, d, i, n, Upwards(0, n));
      if !ok {
        return;
      }
      n := n + 1;
      i := i + FRAME_SIZE;
    }
    ok := true;
  }

  const FRAMES := MEMORY_END / FRAME_SIZE
  const HEAP_PAGE := KHEAP_START / FRAME_SIZE
  const HEAP_PAGES := KHEAP_INITIAL_SIZE / FRAME_SIZE
  const DIRECTORY_BYTES := 8 * ENTRIES + 4

  /** The page tables of the heap, made before the identity map so that it covers them. */
  method ReserveHeap(p: Pager, d: Directory, ghost lo: nat)
    requires p.Valid() && p.Registered(d) && !p.heapReady && lo <= p.placement && Placed(d.tables, lo, p.placement)
    modifies p`tables, p`placement, d
    ensures p.Valid() && p.Registered(d) && old(p.tables) <= p.tables
    ensures forall i | 0 <= i < ENTRIES && d.tables[i] != old(d.tables)[i] ::
              old(d.tables)[i] == null && fresh(d.tables[i])
    ensures d.tables[HEAP_PAGE / ENTRIES] != null
    ensures old(p.placement) <= p.placement <= old(p.placement) + 2 * FRAME_SIZE && Placed(d.tables, lo, p.placement)
  {
    hide Pager.Ledger, Used, Placed;
    var i := KHEAP_START;
    while i < KHEAP_START + KHEAP_INITIAL_SIZE
      invariant p.Valid() && p.Registered(d) && old(p.tables) <= p.tables
      invariant KHEAP_START <= i <= KHEAP_START + KHEAP_INITIAL_SIZE && i % FRAME_SIZE == 0
      invariant forall k | 0 <= k < ENTRIES && d.tables[k] != old(d.tables)[k] ::
                  old(d.tables)[k] == null && fresh(d.tables[k])
      invariant i > KHEAP_START ==> d.tables[HEAP_PAGE / ENTRIES] != null
      invariant p.placement <= if i > KHEAP_START then old(p.placement) + 2 * FRAME_SIZE else old(p.placement)
      invariant old(p.placement) <= p.placement && Placed(d.tables, lo, p.placement)
    {
      var _, _ := p.GetPage(i, true, d);
      i := i + FRAME_SIZE;
    }
  }

  /** Frames for the reserved pages of the heap, the least free ones in turn. */
  method FillHeap(p: Pager, d: Directory, ghost n: nat) returns (ok: bool)
    requires p.Valid() && p.Registered(d) && !p.heapReady && n < HEAP_PAGE
    requires LaidOut(p, d, Upwards(0, n)) && d.tables[HEAP_PAGE / ENTRIES] != null
    modifies p`owner, p`tables, p`placement, p.bitmap.words, d, d.tables
    ensures p.Valid() && p.Registered(d) && p.placement == old(p.placement) && d.tables == old(d.tables)
    ensures ok ==> LaidOut(p, d, Upwards(0, n) + Upwards(HEAP_PAGE, HEAP_PAGES))
    ensures ok <==> n + HEAP_PAGES <= BITS * p.bitmap.words.Length
  {
    hide Pager.Ledger, LaidOut, Used;
    var i := KHEAP_START;
    ghost var j := 0;
    assert Upwards(0, n) + Upwards(HEAP_PAGE, 0) == Upwards(0, n);
    while i < KHEAP_START + KHEAP_INITIAL_SIZE
      invariant p.Valid() && p.Registered(d) && p.placement == old(p.placement)
      invariant 0 <= j <= HEAP_PAGES && i == (HEAP_PAGE + j) * FRAME_SIZE
      invariant d.tables == old(d.tables)
      invariant LaidOut(p, d, Upwards(0, n) + Upwards(HEAP_PAGE, j))
      invariant n + j <= BITS * p.bitmap.words.Length || j == 0
    {
      assert Upwards(0, n) + Upwards(HEAP_PAGE, j) + [HEAP_PAGE + j] == Upwards(0, n) + Upwards(HEAP_PAGE, j + 1);
      ok := MapNext(p, d, i, HEAP_PAGE + j, Upwards(0, n) + Upwards(HEAP_PAGE, j));
      if !ok {
        return;
      }
      j := j + 1;
      i := i + FRAME_SIZE;
    }
    ok := true;
  }

  /** Every page up to the final placement, and one page more, is behind the frame of its own number, so also those of
      the kernel, the bitset and the directory, which come first; the pages of the heap are behind the frames that
      follow. The directory starts a page, and the page tables lie behind it, apart from each other. Repair: allots and
      clears the bitset by words, not by bytes. */
  method InitialisePaging(placement: nat) returns (p: Pager, d: Directory, at: nat, ok: bool, ghost n: nat)
    ensures placement + FRAMES / 8 <= at <= placement + FRAMES / 8 + FRAME_SIZE
    ensures placement + FRAMES / 8 >= FRAME_SIZE ==> at % FRAME_SIZE == 0
    ensures ok ==> p.Valid() && p.Registered(d) && 0 in p.UsedFrames()
    ensures ok ==> FRAME_SIZE * (n - 1) < p.placement + FRAME_SIZE <= FRAME_SIZE * n
    ensures ok ==> LaidOut(p, d, Upwards(0, n) + Upwards(HEAP_PAGE, HEAP_PAGES))
    ensures ok <==> n + HEAP_PAGES <= FRAMES
    ensures placement <= 0xE0_0000 ==> ok
    ensures ok ==> forall v: nat | v * FRAME_SIZE < p.placement + FRAME_SIZE :: FrameOf(d, v) == v
    ensures ok ==> p.placement <= at + DIRECTORY_BYTES + 2 * FRAME_SIZE * (1 + TablesFor(n))
    ensures ok ==> at + DIRECTORY_BYTES <= p.placement && Placed(d.tables, at + DIRECTORY_BYTES, p.placement)
  {
    hide Pager.Ledger, LaidOut, Used, IsSet, TablesFor, Placed, Upwards, AlignedPlacement;
    FewTables(FRAMES);
    at := AlignedPlacement(placement + FRAMES / 8);
    p := new Pager(FRAMES, at + DIRECTORY_BYTES);
    d := new Directory();
    NonePlaced(at + DIRECTORY_BYTES, p.placement);
    ReserveHeap(p, d, at + DIRECTORY_BYTES);
    ok, n := IdentityMap(p, d, at + DIRECTORY_BYTES);
    if ok {
      FewTables(n);
      ok := FillHeap(p, d, n);
      if ok {
        OnOwnFrames(p, d, n);
      }
    }
  }

  lemma NonePlaced(lo: int, hi: int)
    ensures Placed(seq(ENTRIES, _ => null), lo, hi)
  {}

  /** The first n pages are on the frames of their own numbers. */
  lemma OnOwnFrames(p: Pager, d: Directory, n: nat)
    requires n <= PAGES && LaidOut(p, d, Upwards(0, n) + Upwards(HEAP_PAGE, HEAP_PAGES))
    ensures 0 in p.UsedFrames() && |d.tables| == ENTRIES && forall v: nat | v < n :: FrameOf(d, v) == v
  {
    var layout := Upwards(0, n) + Upwards(HEAP_PAGE, HEAP_PAGES);
    forall v: nat | v < n ensures FrameOf(d, v) == v {
      assert layout[v] == v && HasFrame(d, layout[v], v);
    }
  }

  lemma FewTables(n: nat)
    requires n <= FRAMES
    ensures TablesFor(n) <= 4
  {}
}
