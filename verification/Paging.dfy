/** Page entries, two-level tables, frame allotment and the cloning of address spaces. */
module Paging {
  import opened FrameBitmap

  const ENTRIES := 1024
  const FRAME_WORDS := 1024
  /** A page entry holds a frame number in 20 bits. */
  const MAX_FRAMES := 0x10_0000

  datatype Page = Page(present: bool, rw: bool, user: bool, accessed: bool, dirty: bool, frame: nat)

  const NO_PAGE := Page(false, false, false, false, false, 0)

  /** Where a page starts. */
  type PageAddress = a: nat | a % FRAME_SIZE == 0 witness 0

  /** Past the first page, where the boot allocator does align. */
  type Placement = p: nat | p >= FRAME_SIZE witness FRAME_SIZE

  class PageTable {
    var pages: seq<Page>
    /** Where the processor finds the table. */
    const physical: PageAddress

    constructor (physical: PageAddress)
      ensures pages == seq(ENTRIES, _ => NO_PAGE) && this.physical == physical
    {
      pages := seq(ENTRIES, _ => NO_PAGE);
      this.physical := physical;
    }
  }

  /** An address with the flags present, rw and us: address | 0x7. */
  function Flagged(address: nat): (word: nat)
    ensures address % 8 == 0 ==> word == address + 7
  {
    address - address % 8 + 7
  }

  lemma FlaggedPage(a: PageAddress)
    ensures Flagged(a) == a + 7
  {
    assert a % 8 == 0 by { assert a == 8 * (a / FRAME_SIZE * (FRAME_SIZE / 8)); }
  }

  /** A page directory: references to page tables, null where there is none, and for the processor their physical
      addresses with flags, 0 where there is none. */
  class Directory {
    var tables: seq<PageTable?>
    var tablesPhysical: seq<nat>

    constructor ()
      ensures tables == seq(ENTRIES, _ => null) && tablesPhysical == seq(ENTRIES, _ => 0)
    {
      tables, tablesPhysical := seq(ENTRIES, _ => null), seq(ENTRIES, _ => 0);
    }
  }

  /** An entry of a page table. */
  datatype Slot = Slot(table: PageTable, index: nat)

  /** Which entries clone_table copies. Repair: those with a frame; the guard of the C code takes those without. */
  predicate Copied(p: Page, asWritten: bool) {
    if asWritten then p.frame == 0 else p.frame != 0
  }

  /** The flags of p added to those of q. */
  function WithFlags(q: Page, p: Page): Page {
    q.(present := q.present || p.present,
       rw := q.rw || p.rw,
       user := q.user || p.user,
       accessed := q.accessed || p.accessed,
       dirty := q.dirty || p.dirty)
  }

  /** Entry q copies entry p in a frame of its own. */
  ghost predicate IsCopy(p: Page, q: Page) {
    q == p.(present := true, user := true, frame := q.frame)
  }

  /** The frames in use and the contents of physical memory. */
  datatype Physical = Physical(used: set<nat>, contents: seq<seq<int>>)

  /** From one moment to a later one, frames were taken into use and only those were written. */
  ghost predicate Cloning(m0: Physical, m: Physical) {
    && |m.contents| == |m0.contents|
    && m0.used <= m.used
    && forall f | f in m0.used && f < |m.contents| :: m.contents[f] == m0.contents[f]
  }

  /** The first n entries of a clone: a copy of every chosen entry in a frame that was free at m0 and holds at m
      what the frame of the entry held at m0. Nothing else. */
  ghost predicate Mirrors(original: seq<Page>, clone: seq<Page>, n: nat, asWritten: bool, m0: Physical, m: Physical) {
    && |original| == |clone| == ENTRIES
    && forall i | 0 <= i < ENTRIES ::
         if i < n && Copied(original[i], asWritten)
         then Mirrored(original[i], clone[i], m0, m)
         else clone[i] == NO_PAGE
  }

  ghost predicate Mirrored(p: Page, q: Page, m0: Physical, m: Physical) {
    && IsCopy(p, q)
    && q.frame in m.used - m0.used
    && p.frame < |m0.contents| && q.frame < |m.contents|
    && m.contents[q.frame] == m0.contents[p.frame]
  }

  ghost predicate InUse(pages: seq<Page>, used: set<nat>) {
    forall i | 0 <= i < |pages| :: pages[i].frame in used
  }

  lemma Nothing(original: seq<Page>, clone: seq<Page>, asWritten: bool, m: Physical)
    requires |original| == ENTRIES && clone == seq(ENTRIES, _ => NO_PAGE)
    ensures Cloning(m, m) && Mirrors(original, clone, 0, asWritten, m, m)
  {}

  lemma BlankEntry(original: seq<Page>, clone: seq<Page>, i: nat, asWritten: bool, m0: Physical, m: Physical)
    requires Mirrors(original, clone, i, asWritten, m0, m) && i < ENTRIES
    ensures |original| == |clone| == ENTRIES && clone[i] == NO_PAGE
  {}

  lemma OneLess(original: seq<Page>, clone: seq<Page>, i: nat, asWritten: bool, m0: Physical, m: Physical)
    requires Mirrors(original, clone, i, asWritten, m0, m) && i < ENTRIES && !Copied(original[i], asWritten)
    ensures Mirrors(original, clone, i + 1, asWritten, m0, m)
  {}

  lemma OneMore(original: seq<Page>, clone: seq<Page>, q: Page, i: nat, asWritten: bool,
                m0: Physical, m: Physical, n: Physical)
    requires Cloning(m0, m) && Mirrors(original, clone, i, asWritten, m0, m)
    requires i < ENTRIES && Copied(original[i], asWritten) && IsCopy(original[i], q)
    requires original[i].frame in m0.used && original[i].frame < |m.contents|
    requires q.frame !in m.used && q.frame < |m.contents|
    requires n == Physical(m.used + {q.frame}, m.contents[q.frame := m.contents[original[i].frame]])
    ensures Cloning(m0, n) && Mirrors(original, clone[i := q], i + 1, asWritten, m0, n)
  {}

  lemma Same(m: Physical)
    ensures Cloning(m, m)
  {}

  lemma Growing(m0: Physical, m: Physical)
    requires Cloning(m0, m)
    ensures m0.used <= m.used
  {}

  lemma CloningOn(m0: Physical, m: Physical, n: Physical)
    requires Cloning(m0, m) && Cloning(m, n)
    ensures Cloning(m0, n)
  {}

  lemma Unwritten(m0: Physical, m: Physical, f: nat)
    requires Cloning(m0, m) && f in m0.used && f < |m0.contents|
    ensures f in m.used && |m.contents| == |m0.contents| && m.contents[f] == m0.contents[f]
  {}

  /** A finished clone is left alone by the cloning that comes after it. */
  lemma MirrorsOn(original: seq<Page>, clone: seq<Page>, asWritten: bool, m0: Physical, m: Physical, n: Physical)
    requires Mirrors(original, clone, ENTRIES, asWritten, m0, m) && Cloning(m, n)
    ensures Mirrors(original, clone, ENTRIES, asWritten, m0, n)
  {
    hide Cloning;
    forall i | 0 <= i < ENTRIES && Copied(original[i], asWritten)
      ensures Mirrored(original[i], clone[i], m0, n)
    {
      if clone[i].frame in m.used { Unwritten(m, n, clone[i].frame); }
    }
  }

  /** A clone made after other cloning copies what the frames held before that. */
  lemma MirrorsSince(original: seq<Page>, clone: seq<Page>, asWritten: bool, m0: Physical, m: Physical, n: Physical)
    requires Mirrors(original, clone, ENTRIES, asWritten, m, n) && Cloning(m0, m)
    requires InUse(original, m0.used)
    ensures Mirrors(original, clone, ENTRIES, asWritten, m0, n)
  {}

  /** Entry c of the clone of a directory with entry o, where the kernel's directory has entry k. */
  ghost predicate TableCloned(o: PageTable?, k: PageTable?, c: PageTable?, asWritten: bool, m0: Physical, m: Physical)
    reads o, c
  {
    if o == null then c == null
    else if k == o then c == o
    else c != null && c != o && Mirrors(o.pages, c.pages, ENTRIES, asWritten, m0, m)
  }

  lemma TableOn(o: PageTable?, k: PageTable?, c: PageTable?, asWritten: bool, m0: Physical, m: Physical, n: Physical)
    requires TableCloned(o, k, c, asWritten, m0, m) && Cloning(m, n)
    ensures TableCloned(o, k, c, asWritten, m0, n)
  {
    hide Mirrors, Cloning;
    if o != null && k != o {
      MirrorsOn(o.pages, c.pages, asWritten, m0, m, n);
    }
  }

  /** The directory c is a clone of o, made between the moments m0 and m; no table but the kernel's is in both. */
  ghost predicate Clone(o: Directory, kernel: Directory, c: Directory, asWritten: bool, m0: Physical, m: Physical)
    reads o, kernel, c, o.tables, c.tables
  {
    Cloned(o.tables, kernel.tables, c.tables, ENTRIES, asWritten, m0, m)
  }

  /** The first n entries have been cloned. */
  ghost predicate Cloned(os: seq<PageTable?>, ks: seq<PageTable?>, cs: seq<PageTable?>, n: nat, asWritten: bool,
                         m0: Physical, m: Physical)
    reads os, cs
  {
    && |os| == |ks| == |cs| == ENTRIES
    && (forall i | 0 <= i < ENTRIES ::
          if i < n then TableCloned(os[i], ks[i], cs[i], asWritten, m0, m) else cs[i] == null)
    && (forall i, j | 0 <= i < ENTRIES && 0 <= j < ENTRIES && cs[i] != null && cs[i] == os[j] ::
          i == j && os[j] == ks[j])
  }

  lemma NothingCloned(os: seq<PageTable?>, ks: seq<PageTable?>, cs: seq<PageTable?>, asWritten: bool, m: Physical)
    requires |os| == |ks| == ENTRIES && cs == seq(ENTRIES, _ => null)
    ensures Cloned(os, ks, cs, 0, asWritten, m, m)
  {}

  lemma NextEntry(os: seq<PageTable?>, ks: seq<PageTable?>, cs: seq<PageTable?>, n: nat, asWritten: bool,
                  m0: Physical, m: Physical)
    requires Cloned(os, ks, cs, n, asWritten, m0, m) && n < ENTRIES
    ensures |os| == |ks| == |cs| == ENTRIES && cs[n] == null
    ensures os[n] == null ==> Cloned(os, ks, cs, n + 1, asWritten, m0, m)
    ensures forall j | 0 <= j < ENTRIES && cs[j] != null && cs[j] == os[n] :: j == n
  {}

  /** The table t is entered into the clone: the kernel's, or one that is in neither directory. */
  lemma OneEntry(os: seq<PageTable?>, ks: seq<PageTable?>, cs: seq<PageTable?>, n: nat, t: PageTable, asWritten: bool,
                 m0: Physical, m: Physical)
    requires Cloned(os, ks, cs, n, asWritten, m0, m) && n < ENTRIES
    requires |os| == |ks| == |cs| == ENTRIES && TableCloned(os[n], ks[n], t, asWritten, m0, m) && os[n] != null
    requires forall j | 0 <= j < ENTRIES && os[j] == t :: j == n && ks[n] == t
    ensures Cloned(os, ks, cs[n := t], n + 1, asWritten, m0, m)
  {}

  lemma ClonedOn(os: seq<PageTable?>, ks: seq<PageTable?>, cs: seq<PageTable?>, n: nat, asWritten: bool,
                 m0: Physical, m: Physical, m': Physical)
    requires Cloned(os, ks, cs, n, asWritten, m0, m) && Cloning(m, m')
    ensures Cloned(os, ks, cs, n, asWritten, m0, m')
  {
    hide TableCloned, Cloning;
    forall i | 0 <= i < n && i < ENTRIES ensures TableCloned(os[i], ks[i], cs[i], asWritten, m0, m') {
      TableOn(os[i], ks[i], cs[i], asWritten, m0, m, m');
    }
  }

  /** Where the boot allocator puts an aligned block: even an aligned placement moves to the next page. */
  function AlignedPlacement(p: nat): (a: nat)
    ensures p <= a <= p + FRAME_SIZE && (p >= FRAME_SIZE ==> a % FRAME_SIZE == 0)
  {
    if p >= FRAME_SIZE then p - p % FRAME_SIZE + FRAME_SIZE else p
  }

  function PlacementAfterTable(p: Placement): (q: Placement)
    ensures q >= AlignedPlacement(p) + FRAME_SIZE
  {
    AlignedPlacement(p) + 4 * ENTRIES
  }

  lemma ZeroIsLeast(words: seq<bv32>, f: nat)
    requires LeastFree(words, f)
    ensures f == 0 <==> 0 !in Used(words)
  {}

  lemma TableIsCloned(o: PageTable, k: PageTable?, c: PageTable, asWritten: bool, m0: Physical, m: Physical)
    requires if k == o then c == o else c != o && Mirrors(o.pages, c.pages, ENTRIES, asWritten, m0, m)
    ensures TableCloned(o, k, c, asWritten, m0, m)
  {}

  /** Every page table is in one place of the directory, together with its word for the processor. */
  ghost predicate Linked(d: Directory)
    reads d
  {
    && |d.tables| == |d.tablesPhysical| == ENTRIES
    && (forall i | 0 <= i < ENTRIES ::
          d.tablesPhysical[i] == if d.tables[i] == null then 0 else d.tables[i].physical + 7)
    && (forall i, j | 0 <= i < j < ENTRIES && d.tables[i] != null :: d.tables[i] != d.tables[j])
  }

  lemma LinkedSize(d: Directory)
    requires Linked(d)
    ensures |d.tables| == |d.tablesPhysical| == ENTRIES
  {}

  /** The word of a directory for the processor. */
  lemma LinkedWord(d: Directory, i: nat)
    requires Linked(d) && i < ENTRIES && d.tables[i] != null
    ensures i < |d.tablesPhysical| && d.tablesPhysical[i] == d.tables[i].physical + 7
    ensures forall j | 0 <= j < ENTRIES && j != i :: d.tables[j] != d.tables[i]
  {}

  /** What the processor finds in the directory: a word that is not present for a page without a table, and else one
      that is present, writable and open to user mode, with the address of the table. */
  lemma Walk(d: Directory, i: nat)
    requires Linked(d) && i < ENTRIES
    ensures |d.tables| == |d.tablesPhysical| == ENTRIES
    ensures var word := d.tablesPhysical[i];
      if d.tables[i] == null then !Bit(word, 0)
      else
        && Bit(word, 0) && Bit(word, 1) && Bit(word, 2)
        && word - word % FRAME_SIZE == d.tables[i].physical && !Bit(word, 7)
  {
    if d.tables[i] != null { LowBits(d.tables[i].physical); }
  }

  predicate Bit(word: nat, k: nat)
  {
    word / Power(k) % 2 == 1
  }

  function Power(k: nat): (p: nat)
    ensures p > 0
  {
    if k == 0 then 1 else 2 * Power(k - 1)
  }

  lemma LowBits(a: PageAddress)
    ensures var word := a + 7;
      && Bit(word, 0) && Bit(word, 1) && Bit(word, 2) && !Bit(word, 7) && word - word % FRAME_SIZE == a
  {
    var q := a / FRAME_SIZE;
    assert Power(0) == 1 && Power(1) == 2 && Power(2) == 4;
    assert Power(3) == 8 && Power(4) == 16 && Power(5) == 32 && Power(6) == 64 && Power(7) == 128;
  }

  lemma NothingLinked(d: Directory)
    requires d.tables == seq(ENTRIES, _ => null) && d.tablesPhysical == seq(ENTRIES, _ => 0)
    ensures Linked(d)
  {}

  /** Enters a page table, and its word for the processor, into a directory. */
  method Link(dir: Directory, i: nat, t: PageTable, word: nat)
    requires Linked(dir) && i < ENTRIES && word == t.physical + 7
    requires dir.tables[i] == null && forall j | 0 <= j < ENTRIES :: dir.tables[j] != t
    modifies dir
    ensures Linked(dir) && dir.tables == old(dir.tables)[i := t]
  {
    dir.tables := dir.tables[i := t];
    dir.tablesPhysical := dir.tablesPhysical[i := word];
  }

  /** These tables lie in the memory from lo to before hi, each on a page of its own. */
  ghost predicate Placed(ts: seq<PageTable?>, lo: int, hi: int) {
    && (forall i | 0 <= i < |ts| && ts[i] != null :: lo <= ts[i].physical && ts[i].physical + FRAME_SIZE <= hi)
    && (forall i, j | 0 <= i < j < |ts| && ts[i] != null && ts[j] != null :: ts[i].physical != ts[j].physical)
  }

  lemma OnePlacedMore(ts: seq<PageTable?>, lo: int, hi: int, i: nat, t: PageTable, hi': int)
    requires Placed(ts, lo, hi) && i < |ts| && lo <= hi <= t.physical && t.physical + FRAME_SIZE <= hi'
    ensures Placed(ts[i := t], lo, hi')
  {}

  class Pager {
    const bitmap: Bitmap
    /** Physical memory: the words of each frame. */
    const ram: array2<int>
    /** Where the boot allocator hands out memory until the heap exists. */
    var placement: Placement
    /** kheap is set. */
    var heapReady: bool
    ghost var tables: set<PageTable>
    ghost var owner: map<nat, Slot>

    /** The set bits of the bitmap, frame 0 aside, are exactly the frames in page entries, and none is in two. */
    ghost predicate Valid()
      reads this`owner, this`tables, bitmap.words, tables
    {
      && BITS * bitmap.words.Length <= MAX_FRAMES
      && ram.Length0 == BITS * bitmap.words.Length && ram.Length1 == FRAME_WORDS
      && UsedFrames() - {0} == owner.Keys
      && Ledger()
    }

    ghost predicate Ledger()
      reads this`owner, this`tables, tables
    {
      && (forall f | f in owner :: f != 0 && Owns(owner[f], f))
      && (forall t | t in tables :: |t.pages| == ENTRIES && Owned(t))
    }

    ghost predicate Owns(s: Slot, f: nat)
      reads this`owner, this`tables, tables
    {
      s.table in tables && s.index < |s.table.pages| && s.table.pages[s.index].frame == f
    }

    ghost predicate Owned(t: PageTable)
      reads this`owner, t
    {
      forall i | 0 <= i < |t.pages| && t.pages[i].frame != 0 ::
        t.pages[i].frame in owner && owner[t.pages[i].frame] == Slot(t, i)
    }

    ghost function UsedFrames(): set<nat>
      reads bitmap.words
    {
      Used(bitmap.words[..])
    }

    ghost predicate Registered(d: Directory)
      reads this`tables, d
    {
      Linked(d) && forall i | 0 <= i < ENTRIES && d.tables[i] != null :: d.tables[i] in tables
    }

    constructor (frames: nat, placement: Placement)
      requires frames % BITS == 0 && frames <= MAX_FRAMES
      ensures Valid() && fresh(bitmap) && fresh(bitmap.words) && fresh(ram)
      ensures BITS * bitmap.words.Length == frames && UsedFrames() == {} && tables == {}
      ensures this.placement == placement && !heapReady
    {
      bitmap := new Bitmap(frames);
      ram := new int[frames, FRAME_WORDS];
      this.placement, heapReady := placement, false;
      tables, owner := {}, map[];
    }

    /** Gives a page that has no frame the least free one. A result of false is the PANIC. */
    method AllocFrame(t: PageTable, i: nat, kernel: bool, writeable: bool) returns (ok: bool)
      requires Valid() && t in tables && i < ENTRIES
      modifies this`owner, bitmap.words, t
      ensures Valid()
      ensures old(t.pages[i].frame) != 0 || !ok ==>
                bitmap.words[..] == old(bitmap.words[..]) && t.pages == old(t.pages) && owner == old(owner)
      ensures !ok ==> old(t.pages[i].frame) == 0 && AllUsed(bitmap.words[..])
      ensures ok && old(t.pages[i].frame) == 0 ==>
                && LeastFree(old(bitmap.words[..]), t.pages[i].frame)
                && UsedFrames() == old(UsedFrames()) + {t.pages[i].frame}
                && t.pages == old(t.pages)[i := old(t.pages[i]).(present := true, rw := writeable, user := !kernel,
                                                      frame := t.pages[i].frame)]
    {
      hide IsSet, LeastFree, AllUsed;
      if t.pages[i].frame != 0 {
        return true;
      }
      var f := bitmap.FirstFree();
      if f == -1 {
        return false;
      }
      FreeIsUnused(bitmap.words[..], f);
      Assign(t, i, f, t.pages[i].(present := true, rw := writeable, user := !kernel, frame := f));
      return true;
    }

    /** Marks frame f used and puts p, which holds it, into the entry. */
    method Assign(t: PageTable, i: nat, f: nat, p: Page)
      requires Valid() && t in tables && i < ENTRIES
      requires t.pages[i].frame == 0 && p.frame == f
      requires f < BITS * bitmap.words.Length && f !in UsedFrames()
      modifies this`owner, bitmap.words, t
      ensures Valid()
      ensures UsedFrames() == old(UsedFrames()) + {f}
      ensures t.pages == old(t.pages)[i := p]
    {
      hide IsSet, WithSet, Ledger;
      UsedChanges(bitmap.words[..], f);
      bitmap.Set(f * FRAME_SIZE);
      Enter(t, i, p);
    }

    method Enter(t: PageTable, i: nat, p: Page)
      requires Ledger() && t in tables && i < ENTRIES
      requires t.pages[i].frame == 0 && p.frame !in owner
      modifies this`owner, t
      ensures Ledger() && t.pages == old(t.pages)[i := p]
      ensures owner.Keys == old(owner.Keys) + {p.frame} - {0}
    {
      t.pages := t.pages[i := p];
      Entered(t, i, p.frame);
    }

    ghost method Entered(t: PageTable, i: nat, f: nat)
      requires t in tables && i < ENTRIES && |t.pages| == ENTRIES && t.pages[i].frame == f && f !in owner
      requires forall g | g in owner :: g != 0 && Owns(owner[g], g)
      requires forall u | u in tables && u != t :: |u.pages| == ENTRIES && Owned(u)
      requires forall j | 0 <= j < ENTRIES && j != i && t.pages[j].frame != 0 ::
                 t.pages[j].frame in owner && owner[t.pages[j].frame] == Slot(t, j)
      modifies this`owner
      ensures Ledger() && owner == if f == 0 then old(owner) else old(owner)[f := Slot(t, i)]
    {
      if f != 0 { owner := owner[f := Slot(t, i)]; }
    }

    /** Repair: passes clear_frame an address, where the C code passes the frame number. */
    method FreeFrame(t: PageTable, i: nat)
      requires Valid() && t in tables && i < ENTRIES
      modifies this`owner, bitmap.words, t
      ensures Valid()
      ensures t.pages == old(t.pages[i := t.pages[i].(frame := 0)])
      ensures UsedFrames() == if old(t.pages[i].frame) == 0 then old(UsedFrames())
                              else old(UsedFrames()) - {old(t.pages[i].frame)}
    {
      hide IsSet, WithCleared, Ledger;
      Known(t);
      var f := t.pages[i].frame;
      if f == 0 {
        return;
      }
      UsedChanges(bitmap.words[..], f);
      bitmap.Clear(f * FRAME_SIZE);
      Strike(t, i);
    }

    method Strike(t: PageTable, i: nat)
      requires Ledger() && t in tables && i < ENTRIES && t.pages[i].frame != 0
      modifies this`owner, t
      ensures Ledger() && t.pages == old(t.pages[i := t.pages[i].(frame := 0)])
      ensures owner.Keys == old(owner.Keys) - {old(t.pages[i].frame)}
    {
      owner := owner - {t.pages[i].frame};
      t.pages := t.pages[i := t.pages[i].(frame := 0)];
    }

    /** Allotting a frame to a page that has one changes nothing. But a page that is given frame 0 seems to have
        none: alloc_frame can be repeated exactly when frame 0 is in use. */
    method AllocFrameTwice(t: PageTable, i: nat) returns (ok: bool, ghost f: nat)
      requires Valid() && t in tables && i < ENTRIES && t.pages[i].frame == 0
      modifies this`owner, bitmap.words, t
      ensures ok ==> old(UsedFrames()) + {f} <= UsedFrames() && f !in old(UsedFrames())
      ensures ok ==> (UsedFrames() == old(UsedFrames()) + {f} <==> 0 in old(UsedFrames()))
    {
      hide IsSet, Ledger, AllUsed;
      Known(t);
      f := 0;
      ok := AllocFrame(t, i, false, false);
      if ok {
        f := t.pages[i].frame;
        FreeIsUnused(old(bitmap.words[..]), f);
        ZeroIsLeast(old(bitmap.words[..]), f);
        hide LeastFree;
        label first:
        Known(t);
        ok := AllocFrame(t, i, false, false);
        if ok && f == 0 { FreeIsUnused(old@first(bitmap.words[..]), t.pages[i].frame); }
      }
    }

    /** As the C code has it: the bit cleared is that of the frame number taken as an address. The frame the page
        gives up then stays in use although no page has it. */
    method FreeFrameAsWritten(t: PageTable, i: nat)
      requires Valid() && t in tables && i < ENTRIES && t.pages[i].frame != 0
      modifies bitmap.words, t
      ensures t.pages == old(t.pages[i := t.pages[i].(frame := 0)])
      ensures UsedFrames() == old(UsedFrames()) - {old(t.pages[i].frame) / FRAME_SIZE}
      ensures old(t.pages[i].frame) in UsedFrames()
      ensures forall u, j | u in tables && 0 <= j < ENTRIES :: u.pages[j].frame != old(t.pages[i].frame)
    {
      hide IsSet, WithCleared;
      var f := t.pages[i].frame;
      UsedChanges(bitmap.words[..], f / FRAME_SIZE);
      bitmap.Clear(f);
      t.pages := t.pages[i := t.pages[i].(frame := 0)];
    }

    /** The contents of the frames. */
    ghost function Contents(): (m: seq<seq<int>>)
      requires ram.Length1 == FRAME_WORDS
      reads ram
      ensures |m| == ram.Length0
    {
      seq(ram.Length0, f requires 0 <= f < ram.Length0 reads ram =>
        seq(FRAME_WORDS, k requires 0 <= k < FRAME_WORDS reads ram => ram[f, k]))
    }

    ghost function Snapshot(): Physical
      requires ram.Length1 == FRAME_WORDS
      reads bitmap.words, ram
    {
      Physical(UsedFrames(), Contents())
    }

    /** copy_page_physical. */
    method CopyPage(source: nat, destination: nat)
      requires source < ram.Length0 && destination < ram.Length0 && ram.Length1 == FRAME_WORDS
      modifies ram
      ensures Contents() == old(Contents()[destination := Contents()[source]])
    {
      var k := 0;
      while k < FRAME_WORDS
        invariant 0 <= k <= FRAME_WORDS
        invariant forall j | 0 <= j < k :: ram[destination, j] == old(ram[source, j])
        invariant forall j | k <= j < FRAME_WORDS :: ram[source, j] == old(ram[source, j])
        invariant forall f, j | 0 <= f < ram.Length0 && f != destination && 0 <= j < FRAME_WORDS ::
                    ram[f, j] == old(ram[f, j])
      {
        ram[destination, k] := ram[source, k];
        k := k + 1;
      }
      assert Contents()[destination] == old(Contents()[source]);
      forall f | 0 <= f < ram.Length0 && f != destination
        ensures Contents()[f] == old(Contents()[f])
      {
        assert forall j | 0 <= j < FRAME_WORDS :: ram[f, j] == old(ram[f, j]);
      }
    }

    /** One turn of the loop of clone_table. */
    method CloneEntry(original: PageTable, table: PageTable, i: nat) returns (ok: bool)
      requires Valid() && original in tables && table in tables && original != table && i < ENTRIES
      requires |original.pages| == ENTRIES == |table.pages| && table.pages[i] == NO_PAGE
      requires original.pages[i].frame < ram.Length0
      modifies this`owner, table, bitmap.words, ram
      ensures Valid()
      ensures !ok ==> AllUsed(bitmap.words[..]) && UsedFrames() == old(UsedFrames())
                      && table.pages == old(table.pages) && Contents() == old(Contents())
      ensures ok ==>
        && table.pages == old(table.pages)[i := table.pages[i]]
        && IsCopy(original.pages[i], table.pages[i])
        && table.pages[i].frame !in old(UsedFrames())
        && UsedFrames() == old(UsedFrames()) + {table.pages[i].frame}
        && Contents() == old(Contents())[table.pages[i].frame := old(Contents())[original.pages[i].frame]]
    {
      hide IsSet, AllUsed, Contents, Ledger;
      ok := AllocFrame(table, i, false, false);
      if ok {
        var p, q := original.pages[i], table.pages[i];
        FreeIsUnused(old(bitmap.words[..]), q.frame);
        hide LeastFree;
        SetFlags(table, i, p);
        CopyPage(p.frame, q.frame);
      }
    }

    /** The frame of an entry is in use, unless it is 0. */
    lemma Known(t: PageTable)
      requires Valid() && t in tables
      ensures |t.pages| == ENTRIES
      ensures forall i | 0 <= i < ENTRIES :: t.pages[i].frame in UsedFrames() + {0}
    {}

    ghost method Register(t: PageTable)
      requires Valid() && t !in tables && t.pages == seq(ENTRIES, _ => NO_PAGE)
      modifies this`tables
      ensures Valid() && tables == old(tables) + {t}
    {
      tables := tables + {t};
    }

    method SetFlags(t: PageTable, i: nat, p: Page)
      requires Valid() && t in tables && i < ENTRIES && i < |t.pages|
      modifies t
      ensures Valid()
      ensures t.pages == old(t.pages)[i := WithFlags(old(t.pages[i]), p)]
    {
      t.pages := t.pages[i := WithFlags(t.pages[i], p)];
    }

    method CloneTable(original: PageTable, asWritten: bool) returns (table: PageTable, ok: bool)
      requires Valid() && original in tables && 0 in UsedFrames()
      modifies this`owner, this`tables, bitmap.words, ram
      ensures Valid() && fresh(table) && tables == old(tables) + {table}
      ensures Cloning(old(Snapshot()), Snapshot())
      ensures if ok then Mirrors(original.pages, table.pages, ENTRIES, asWritten, old(Snapshot()), Snapshot())
              else AllUsed(bitmap.words[..])
    {
      hide IsSet, AllUsed, Contents, Mirrors, Cloning, Ledger;
      Known(original);
      var phys: PageAddress :| true;
      table := new PageTable(phys);
      Register(table);
      Nothing(original.pages, table.pages, asWritten, Snapshot());
      var i := 0;
      while i < ENTRIES
        invariant 0 <= i <= ENTRIES
        invariant Valid() && tables == old(tables) + {table} && original.pages == old(original.pages)
        invariant Cloning(old(Snapshot()), Snapshot())
        invariant Mirrors(original.pages, table.pages, i, asWritten, old(Snapshot()), Snapshot())
      {
        ghost var before, clone := Snapshot(), table.pages;
        BlankEntry(original.pages, clone, i, asWritten, old(Snapshot()), before);
        if Copied(original.pages[i], asWritten) {
          ok := CloneEntry(original, table, i);
          if !ok {
            return;
          }
          OneMore(original.pages, clone, table.pages[i], i, asWritten, old(Snapshot()), before, Snapshot());
        } else {
          OneLess(original.pages, clone, i, asWritten, old(Snapshot()), before);
        }
        i := i + 1;
      }
      ok := true;
    }

    /** A page table made for entry i of the directory: by kmalloc_ap, which before the heap exists is the boot
        allocator. */
    method MakeTable(d: Directory, i: nat) returns (t: PageTable)
      requires Valid() && Registered(d) && i < ENTRIES && |d.tables| == ENTRIES && d.tables[i] == null
      modifies this`tables, this`placement, d
      ensures Valid() && Registered(d) && fresh(t) && t.pages == seq(ENTRIES, _ => NO_PAGE)
      ensures tables == old(tables) + {t} && d.tables == old(d.tables)[i := t]
      ensures !heapReady ==> old(placement) <= t.physical && t.physical + FRAME_SIZE <= placement
      ensures placement == if heapReady then old(placement) else PlacementAfterTable(old(placement))
    {
      hide Ledger, Linked, Flagged, AlignedPlacement, PlacementAfterTable;
      var phys: PageAddress := AlignedPlacement(placement);
      if heapReady { phys :| true; }
      t := new PageTable(phys);
      if !heapReady { placement := PlacementAfterTable(placement); }
      Register(t);
      FlaggedPage(phys);
      Link(d, i, t, Flagged(phys));
    }

    method GetPage(address: nat, make: bool, d: Directory) returns (t: PageTable?, i: nat)
      requires Valid() && Registered(d) && address < 0x1_0000_0000
      modifies this`tables, this`placement, d
      ensures Valid() && Registered(d) && i == address / FRAME_SIZE % ENTRIES
      ensures t == d.tables[address / FRAME_SIZE / ENTRIES]
      ensures if old(d.tables[address / FRAME_SIZE / ENTRIES]) != null || !make
              then tables == old(tables) && d.tables == old(d.tables) && placement == old(placement)
              else fresh(t) && t.pages == seq(ENTRIES, _ => NO_PAGE) && tables == old(tables) + {t}
                   && t.pages[i] == Page(false, false, false, false, false, 0)
                   && d.tables == old(d.tables)[address / FRAME_SIZE / ENTRIES := t]
                   && (!heapReady ==> old(placement) <= t.physical && t.physical + FRAME_SIZE <= placement)
                   && placement == if heapReady then old(placement) else PlacementAfterTable(old(placement))
      ensures !heapReady ==> forall lo: int | lo <= old(placement) && old(Placed(d.tables, lo, placement)) ::
                               Placed(d.tables, lo, placement)
    {
      hide Ledger, Linked, Placed, PlacementAfterTable;
      LinkedSize(d);
      var page := address / FRAME_SIZE;
      i := page % ENTRIES;
      t := d.tables[page / ENTRIES];
      if t == null && make {
        t := MakeTable(d, page / ENTRIES);
        forall lo: int | !heapReady && lo <= old(placement) && old(Placed(d.tables, lo, placement))
          ensures Placed(d.tables, lo, placement)
        {
          OnePlacedMore(old(d.tables), lo, old(placement), page / ENTRIES, t, placement);
        }
      }
    }

    /** Every page table of a directory has only entries with frames in use. */
    ghost predicate TablesInUse(d: Directory, used: set<nat>)
      reads d, d.tables
    {
      forall j | 0 <= j < |d.tables| && d.tables[j] != null :: InUse(d.tables[j].pages, used)
    }

    lemma KnownTables(d: Directory)
      requires Valid() && Registered(d)
      ensures 0 in UsedFrames() ==> TablesInUse(d, UsedFrames())
    {
      hide Ledger, Linked;
      LinkedSize(d);
      forall j | 0 <= j < ENTRIES && d.tables[j] != null && 0 in UsedFrames()
        ensures InUse(d.tables[j].pages, UsedFrames())
      {
        Known(d.tables[j]);
      }
    }

    /** One turn of the loop of clone_directory; m0 is the moment at which the loop began. */
    method CloneNext(original: Directory, kernel: Directory, dir: Directory, i: nat, asWritten: bool,
                     ghost m0: Physical)
      returns (ok: bool)
      requires Valid() && Registered(original) && Registered(dir) && dir != original && dir != kernel && i < ENTRIES
      requires 0 in UsedFrames() && TablesInUse(original, m0.used) && Cloning(m0, Snapshot())
      requires Cloned(original.tables, kernel.tables, dir.tables, i, asWritten, m0, Snapshot())
      modifies this`owner, this`tables, bitmap.words, ram, dir
      ensures Valid() && Registered(dir) && old(tables) <= tables && Cloning(m0, Snapshot())
      ensures if ok then Cloned(original.tables, kernel.tables, dir.tables, i + 1, asWritten, m0, Snapshot())
              else AllUsed(bitmap.words[..])
      ensures old(UsedFrames()) <= UsedFrames()
      ensures forall j | 0 <= j < ENTRIES && dir.tables[j] != old(dir.tables)[j] ::
                dir.tables[j] == original.tables[j] || fresh(dir.tables[j])
    {
      hide IsSet, AllUsed, Contents, Mirrors, Cloning, Ledger, Linked, Flagged, Cloned, TableCloned;
      LinkedSize(original);
      ok := true;
      var o := original.tables[i];
      NextEntry(original.tables, kernel.tables, dir.tables, i, asWritten, m0, Snapshot());
      if o == null {
        return;
      }
      LinkedWord(original, i);
      ghost var m := Snapshot();
      var t, word := o, original.tablesPhysical[i];
      if kernel.tables[i] != o {
        t, ok := CloneTable(o, asWritten);
        Growing(m, Snapshot());
        CloningOn(m0, m, Snapshot());
        if !ok {
          return;
        }
        word := Flagged(t.physical);
        FlaggedPage(t.physical);
        MirrorsSince(o.pages, t.pages, asWritten, m0, m, Snapshot());
        ClonedOn(original.tables, kernel.tables, dir.tables, i, asWritten, m0, m, Snapshot());
      }
      TableIsCloned(o, kernel.tables[i], t, asWritten, m0, Snapshot());
      OneEntry(original.tables, kernel.tables, dir.tables, i, t, asWritten, m0, Snapshot());
      Link(dir, i, t, word);
    }

    method CloneDirectory(original: Directory, kernel: Directory, asWritten: bool)
      returns (dir: Directory, ok: bool)
      requires Valid() && Registered(original) && |kernel.tables| == ENTRIES && 0 in UsedFrames()
      modifies this`owner, this`tables, bitmap.words, ram
      ensures Valid() && fresh(dir) && Registered(dir) && old(tables) <= tables
      ensures Cloning(old(Snapshot()), Snapshot())
      ensures !ok ==> AllUsed(bitmap.words[..])
      ensures ok ==> Clone(original, kernel, dir, asWritten, old(Snapshot()), Snapshot())
      ensures forall j | 0 <= j < ENTRIES && dir.tables[j] != null ::
                dir.tables[j] == original.tables[j] || fresh(dir.tables[j])
    {
      hide IsSet, AllUsed, Contents, Mirrors, Cloning, Ledger, Linked, Cloned, TableCloned, TablesInUse;
      KnownTables(original);
      dir := new Directory();
      NothingLinked(dir);
      LinkedSize(original);
      Same(Snapshot());
      NothingCloned(original.tables, kernel.tables, dir.tables, asWritten, Snapshot());
      var i := 0;
      while i < ENTRIES
        invariant 0 <= i <= ENTRIES
        invariant Valid() && Registered(original) && Registered(dir) && old(tables) <= tables && 0 in UsedFrames()
        invariant TablesInUse(original, old(UsedFrames())) && Cloning(old(Snapshot()), Snapshot())
        invariant Cloned(original.tables, kernel.tables, dir.tables, i, asWritten, old(Snapshot()), Snapshot())
        invariant |dir.tables| == ENTRIES
        invariant forall j | 0 <= j < ENTRIES && dir.tables[j] != null ::
                    dir.tables[j] == original.tables[j] || fresh(dir.tables[j])
      {
        ok := CloneNext(original, kernel, dir, i, asWritten, old(Snapshot()));
        LinkedSize(dir);
        if !ok {
          return;
        }
        i := i + 1;
      }
      ok := true;
    }
  }

  /** As many bits are set as page entries own frames, and one more for a frame 0 that is taken. */
  lemma OwnersCounted(p: Pager)
    requires p.Valid()
    ensures Count(p.bitmap.words[..], BITS * p.bitmap.words.Length)
            == |p.owner| + if 0 in p.UsedFrames() then 1 else 0
  {
    hide IsSet, Count, Pager.Ledger;
    CountIsUsed(p.bitmap.words[..]);
    if 0 in p.UsedFrames() { assert p.UsedFrames() == p.owner.Keys + {0}; }
    assert |p.owner.Keys| == |p.owner|;
  }
}
