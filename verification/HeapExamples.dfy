/** Every arrangement of blocks and holes is a heap that memory can hold; so each condition of
    HeapAsWritten and FreeAsWritten is violated by some heap, and one is given for each. */
module HeapExamples {
  import opened Memory
  import opened Regions
  import opened HeapInvariant
  import opened HeapSteps
  import opened HeapFacts
  import opened HeapSizes
  import opened KernelHeap
  import opened HeapAsWritten
  import opened FreeAsWritten

  /** Write the tags of every region, first to last. */
  ghost function Paint(m: Mem, rs: Tiling, lo: int, hi: int): (m': Mem)
    requires Tiles(rs, lo, hi) && 0 <= lo && hi <= |m| < 0x1_0000_0000
    ensures |m'| == |m|
    decreases |rs|
  {
    if rs == [] then m else
      TilesBounds(rs, lo, hi);
      Paint(Put(m, rs[0]), rs[1..], rs[0].End(), hi)
  }

  lemma {:induction false} PaintTags(m: Mem, rs: Tiling, lo: int, hi: int)
    requires Tiles(rs, lo, hi) && 0 <= lo && hi <= |m| < 0x1_0000_0000
    ensures SameOutside(m, Paint(m, rs, lo, hi), lo, hi)
    ensures FullyTagged(Paint(m, rs, lo, hi), rs)
    decreases |rs|
  {
    hide HeaderOk, FooterOk, Put;
    TilesBounds(rs, lo, hi);
    if rs != [] {
      var r, tail := rs[0], rs[1..];
      var m1 := Put(m, r);
      PutTags(m, r);
      PaintTags(m1, tail, r.End(), hi);
      TilesBounds(tail, r.End(), hi);
      OutsideFrame(m1, Paint(m1, tail, r.End(), hi), [r], lo, r.End(), r.End(), hi);
      TagsFrame(m1, Paint(m1, tail, r.End(), hi), r);
    }
  }

  /** Any tiling without adjacent holes is the tiling of a sound heap. */
  lemma EveryTilingIsAHeap(m: Mem, rs: Tiling, lo: int, hi: int)
    requires Tiles(rs, lo, hi) && NoAdjacentHoles(rs) && rs != []
    requires 0 < lo && hi <= |m| < 0x1_0000_0000
    ensures HeapOk(Paint(m, rs, lo, hi), rs, HoleAddrs(rs), lo, hi)
  {
    PaintTags(m, rs, lo, hi);
  }

  /** The kernel's heap: it starts after the 0x80000 bytes of its index, and ends at first where the boot code has put
      the end. */
  const LOW := 0xC008_0000
  const HIGH := 0xC010_0000
  const MEMORY := 0xD000_0000

  function Blank(): Mem { seq(MEMORY, _ => 0) }

  ghost function Painted(m: Mem, rs: Tiling, hi: int): HeapState
    requires Tiles(rs, LOW, hi) && hi <= HIGH && |m| == MEMORY
  {
    HeapState(Paint(m, rs, LOW, hi), HoleAddrs(rs), LOW, hi)
  }

  /** A painted heap is sound, and the words outside it are those of m. */
  lemma PaintedIsSound(m: Mem, rs: Tiling, hi: int)
    requires Tiles(rs, LOW, hi) && hi <= HIGH && NoAdjacentHoles(rs) && rs != [] && |m| == MEMORY
    ensures Sound(Painted(m, rs, hi), rs) && SameOutside(m, Painted(m, rs, hi).mem, LOW, hi)
  {
    EveryTilingIsAHeap(m, rs, LOW, hi);
    PaintTags(m, rs, LOW, hi);
  }

  /** Four regions in a row as a heap from LOW. */
  lemma Four(m: Mem, a: Region, b: Region, c: Region, d: Region) returns (s: HeapState, rs: Tiling)
    requires a.size >= MIN_REGION && b.size >= MIN_REGION && c.size >= MIN_REGION && d.size >= MIN_REGION
    requires a.addr == LOW && a.End() == b.addr && b.End() == c.addr && c.End() == d.addr && d.End() <= HIGH
    requires !(a.hole && b.hole) && !(b.hole && c.hole) && !(c.hole && d.hole) && |m| == MEMORY
    ensures rs == [a, b, c, d] && Sound(s, rs)
    ensures s.start == LOW && s.end == d.End() && SameOutside(m, s.mem, LOW, d.End())
  {
    rs := [a, b, c, d];
    assert rs[1..] == [b, c, d] && [b, c, d][1..] == [c, d] && [c, d][1..] == [d] && [d][1..] == [];
    assert Tiles([], d.End(), d.End());
    assert Tiles([d], d.addr, d.End());
    assert Tiles([c, d], c.addr, d.End());
    assert Tiles([b, c, d], b.addr, d.End());
    hide Sound, Paint;
    PaintedIsSound(m, rs, d.End());
    s := Painted(m, rs, d.End());
  }

  /** The index position of hole k, and the size recorded there. */
  lemma IndexEntry(s: HeapState, rs: Tiling, k: nat) returns (at: nat)
    requires Sound(s, rs) && k < |rs| && rs[k].hole
    ensures at < |s.index| && s.index[at] == rs[k].addr
    ensures InBounds(s.mem, rs[k].addr, HEADER_SIZE) && HeaderAt(s.mem, rs[k].addr).size == rs[k].size
  {
    hide HeapOk;
    HoleIsIndexed(s.mem, rs, s.index, s.start, s.end, k);
    at :| at < |s.index| && s.index[at] == rs[k].addr;
    Probe(s.mem, rs, s.index, s.start, s.end, k);
  }

  ghost predicate FreeFails(s: HeapState, rs: Tiling, k: nat) {
    && Sound(s, rs) && k < |rs| && !rs[k].hole 
    && |s.mem| < 0x1_0000_0000 && InBounds(s.mem, rs[k].addr, HEADER_SIZE)
    && !exists rs' :: Frees(s, FreeBlockAsWritten(s, rs[k].Payload()), rs', Live(rs) - {rs[k]})
  }

  /** Freeing the last block of a heap of one page makes it longer. */
  lemma FreeInShortHeap() returns (s: HeapState, rs: Tiling)
    ensures rs == [Region(0xC008_0000, 0x20, false), Region(0xC008_0020, 0x20, false),
                   Region(0xC008_0040, 0x20, false), Region(0xC008_0060, 0xFA0, false)]
    ensures FreeFails(s, rs, 3)
  {
    hide Sound, Frees, FreeBlockAsWritten, LeftProbe, RightProbe;
    s, rs := Four(Blank(), Region(0xC008_0000, 0x20, false), Region(0xC008_0020, 0x20, false),
                  Region(0xC008_0040, 0x20, false), Region(0xC008_0060, 0xFA0, false));
    FreeMeets(s, rs, 3);
  }

  /** Freeing a block whose right-hand neighbour is an inner hole leaves that hole's footer naming a header that is
      gone. */
  lemma FreeBeforeInnerHole() returns (s: HeapState, rs: Tiling)
    ensures rs == [Region(0xC008_0000, 0x20, false), Region(0xC008_0020, 0x20, true),
                   Region(0xC008_0040, 0x20, false), Region(0xC008_0060, 0x7_FFA0, false)]
    ensures FreeFails(s, rs, 0)
  {
    hide Sound, Frees, FreeBlockAsWritten, LeftProbe, RightProbe;
    s, rs := Four(Blank(), Region(0xC008_0000, 0x20, false), Region(0xC008_0020, 0x20, true),
                  Region(0xC008_0040, 0x20, false), Region(0xC008_0060, 0x7_FFA0, false));
    FreeMeets(s, rs, 0);
  }

  /** Freeing the last block of a heap beyond the minimum size leaves an index entry outside the heap. */
  lemma FreeAtEnd() returns (s: HeapState, rs: Tiling)
    ensures rs == [Region(0xC008_0000, 0x20, false), Region(0xC008_0020, 0x20, false),
                   Region(0xC008_0040, 0x7_8000, false), Region(0xC00F_8040, 0x7FC0, false)]
    ensures FreeFails(s, rs, 3)
  {
    hide Sound, Frees, FreeBlockAsWritten, LeftProbe, RightProbe;
    s, rs := Four(Blank(), Region(0xC008_0000, 0x20, false), Region(0xC008_0020, 0x20, false),
                  Region(0xC008_0040, 0x7_8000, false), Region(0xC00F_8040, 0x7FC0, false));
    FreeMeets(s, rs, 3);
  }

  /** The words before the heap look like the footer of a hole, here one that starts where the heap does. */
  lemma FreeBehindFooter() returns (s: HeapState, rs: Tiling)
    ensures rs == [Region(0xC008_0000, 0x20, false), Region(0xC008_0020, 0x20, false),
                   Region(0xC008_0040, 0x20, false), Region(0xC008_0060, 0x7_FFA0, false)]
    ensures FreeCondition(s, rs, 0) && FreeFails(s, rs, 0)
  {
    hide Sound, Frees, FreeBlockAsWritten, RightProbe;
    var m := WriteFooter(Blank(), LOW - FOOTER_SIZE, LOW);
    s, rs := Four(m, Region(0xC008_0000, 0x20, false), Region(0xC008_0020, 0x20, false),
                  Region(0xC008_0040, 0x20, false), Region(0xC008_0060, 0x7_FFA0, false));
    FooterOutside(m, s.mem, LOW - FOOTER_SIZE, LOW, s.end);
    FreeMeets(s, rs, 0);
  }

  /** The words after the heap look like the header of a hole. */
  lemma FreeBeforeHeader() returns (s: HeapState, rs: Tiling)
    ensures rs == [Region(0xC008_0000, 0x20, false), Region(0xC008_0020, 0x20, false),
                   Region(0xC008_0040, 0x20, true), Region(0xC008_0060, 0x7_FFA0, false)]
    ensures FreeCondition(s, rs, 3) && FreeFails(s, rs, 3)
  {
    hide Sound, Frees, FreeBlockAsWritten, LeftProbe;
    var m := WriteHeader(Blank(), HIGH, 1, 0x20);
    s, rs := Four(m, Region(0xC008_0000, 0x20, false), Region(0xC008_0020, 0x20, false),
                  Region(0xC008_0040, 0x20, true), Region(0xC008_0060, 0x7_FFA0, false));
    HeaderOutside(m, s.mem, HIGH, LOW, s.end);
    FreeMeets(s, rs, 3);
  }

  lemma FooterOutside(m: Mem, m': Mem, f: int, lo: int, hi: int)
    requires SameOutside(m, m', lo, hi) && InBounds(m, f, FOOTER_SIZE) && f + FOOTER_SIZE <= lo
    ensures FooterAt(m', f) == FooterAt(m, f)
  {}

  lemma HeaderOutside(m: Mem, m': Mem, a: int, lo: int, hi: int)
    requires SameOutside(m, m', lo, hi) && InBounds(m, a, HEADER_SIZE) && hi <= a
    ensures HeaderAt(m', a) == HeaderAt(m, a)
  {}

  /** A page-aligned request of 100 bytes from a hole that starts 26 bytes before a page boundary. */
  lemma AlignedNearPageEnd() returns (s: HeapState, rs: Tiling, at: nat)
    ensures rs == [Region(0xC008_0000, 0x20, false), Region(0xC008_0020, 0x20, false),
                   Region(0xC008_0040, 0xFA6, false), Region(0xC008_0FE6, 0x7_F01A, true)]
    ensures Sound(s, rs) && at < |s.index| && s.index[at] == 0xC008_0FE6 && |s.mem| < 0x1_0000_0000
    ensures InBounds(s.mem, 0xC008_0FE6, HEADER_SIZE) && HeaderAt(s.mem, 0xC008_0FE6).size == 0x7_F01A
    ensures var (s', p) := CarveAsWritten(s, at, 100, true);
            !exists rs' :: Serves(s, s', rs, rs', p, 100, true)
  {
    hide Sound, Serves, CarveAsWritten, HeaderAt;
    s, rs := Four(Blank(), Region(0xC008_0000, 0x20, false), Region(0xC008_0020, 0x20, false),
                  Region(0xC008_0040, 0xFA6, false), Region(0xC008_0FE6, 0x7_F01A, true));
    at := IndexEntry(s, rs, 3);
    CarveMeets(s, rs, at, 100, true);
  }

  /** Growing the heap for a request when its only hole lies before a block. */
  lemma ExtendPastBlock() returns (s: HeapState, rs: Tiling)
    ensures rs == [Region(0xC008_0000, 0x20, false), Region(0xC008_0020, 0x20, true),
                   Region(0xC008_0040, 0x20, false), Region(0xC008_0060, 0x7_FFA0, false)]
    ensures CanExtend(s, rs, 100) && InRange(s) && !exists rs' :: StillLive(s, ExtendAsWritten(s, 100), rs', Live(rs))
  {
    hide HeapOk, StillLive, ExtendAsWritten, HeaderAt;
    s, rs := Four(Blank(), Region(0xC008_0000, 0x20, false), Region(0xC008_0020, 0x20, true),
                  Region(0xC008_0040, 0x20, false), Region(0xC008_0060, 0x7_FFA0, false));
    var at := IndexEntry(s, rs, 1);
    var k := HoleOf(s.mem, rs, s.index, s.start, s.end, MaxOf(s.index));
    ExtendMeets(s, rs, 100);
  }
}
