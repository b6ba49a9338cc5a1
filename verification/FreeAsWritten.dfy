/** The rest of the allocator exactly as the C text has it: growing the heap at its end, and free. */
module FreeAsWritten {
  import opened Memory
  import opened Regions
  import opened HeapInvariant
  import opened HeapSteps
  import opened HeapFacts
  import opened OrderedArrays
  import opened HeapSizes
  import opened KernelHeap
  import opened HeapAsWritten

  function PokeWord(m: Mem, a: int, v: Word): (m': Mem)
    ensures |m'| == |m|
  {
    if InBounds(m, a, 4) then Write32(m, a, v) else m
  }

  /** Every block of a set is still there, nothing else is live, and no byte of them has changed. */
  ghost predicate StillLive(s: HeapState, s': HeapState, rs': Tiling, live: set<Region>) {
    Sound(s', rs') && Live(rs') == live && AllKept(s.mem, s'.mem, live)
  }

  // ------------------------------------------------------------ alloc, when no hole fits

  function MaxOf(s: seq<int>): (a: int)
    requires s != []
    ensures a in s && forall i | 0 <= i < |s| :: s[i] <= a
  {
    if |s| == 1 then s[0] else
      var a := MaxOf(s[1..]);
      if s[0] > a then s[0] else a
  }

  /** The length that expand arrives at. */
  function NewLength(s: HeapState, n: Word): Word
    requires 0 <= s.end - s.start < 0x1_0000_0000
  {
    RoundAsWritten(U32(s.end - s.start + n))
  }

  /** Everything the C code dereferences is in memory. */
  ghost predicate InRange(s: HeapState) {
    && 0 < s.start <= s.end <= |s.mem| < 0x1_0000_0000
    && forall a | a in s.index :: InBounds(s.mem, a, HEADER_SIZE)
  }

  /** expand has moved the end; the endmost hole, wherever it is, gets the new bytes. */
  ghost function ExtendAsWritten(s: HeapState, n: Word): HeapState
    requires InRange(s)
  {
    var delta := U32(NewLength(s, n) - (s.end - s.start));
    var end := s.start + NewLength(s, n);
    if s.index == [] then
      var m := PokeFooter(PokeHeader(s.mem, s.end, 1, delta), U32(s.end + delta - FOOTER_SIZE), s.end);
      s.(mem := m, index := [s.end], end := end)
    else
      var header: Word := MaxOf(s.index);
      var size := U32(HeaderAt(s.mem, header).size + delta);
      s.(mem := PokeFooter(PokeWord(s.mem, header + 8, size), U32(header + size - FOOTER_SIZE), header), end := end)
  }

  ghost predicate CanExtend(s: HeapState, rs: Tiling, n: Word) {
    Sound(s, rs) && n >= MIN_REGION && s.end + n + PAGE_SIZE <= |s.mem| < 0x1_0000_0000
  }

  /** What the C code does to the endmost hole is right when no block lies after that hole. */
  predicate ExtendCondition(s: HeapState) {
    s.index == [] || (InBounds(s.mem, MaxOf(s.index), HEADER_SIZE)
                      && MaxOf(s.index) + HeaderAt(s.mem, MaxOf(s.index)).size == s.end)
  }

  lemma IndexInBounds(s: HeapState, rs: Tiling)
    requires Sound(s, rs)
    ensures InRange(s)
  {
    Parts(s.mem, rs, s.index, s.start, s.end);
    forall a | a in s.index ensures InBounds(s.mem, a, HEADER_SIZE) {
      var k := HoleOf(s.mem, rs, s.index, s.start, s.end, a);
    }
  }

  lemma Delta(s: HeapState, n: Word)
    requires 0 <= s.start <= s.end && s.end + n + PAGE_SIZE < 0x1_0000_0000
    ensures var delta := NewLength(s, n) - (s.end - s.start);
            n <= delta <= n + PAGE_SIZE && U32(delta) == delta && s.start + NewLength(s, n) == s.end + delta
  {}

  lemma ExtendIf(s: HeapState, rs: Tiling, n: Word)
    requires CanExtend(s, rs, n) && ExtendCondition(s)
    requires InRange(s)
    ensures exists rs' :: StillLive(s, ExtendAsWritten(s, n), rs', Live(rs))
  {
    hide HeapOk, AllKept, Live, HeaderAt, Tiles, U32, NewLength, Put, GrowLast, PokeHeader, PokeFooter, PokeWord;
    Delta(s, n);
    var delta := NewLength(s, n) - (s.end - s.start);
    var s' := ExtendAsWritten(s, n);
    if s.index == [] {
      NoHoles(s.mem, rs, s.index, s.start, s.end);
      AddHoleOk(s.mem, rs, s.index, s.start, s.end, delta);
      assert [s.end] + s.index == [s.end];
      PokesPut(s.mem, s.end, delta);
      assert StillLive(s, s', rs + [Region(s.end, delta, true)], Live(rs));
    } else {
      var at :| 0 <= at < |s.index| && s.index[at] == MaxOf(s.index);
      EndmostIsLast(s.mem, rs, s.index, s.start, s.end, at);
      var last := rs[|rs| - 1];
      LastEnds(s, rs);
      GrowLastOk(s.mem, rs, s.index, s.start, s.end, delta);
      PokesGrow(s.mem, last, delta);
      assert StillLive(s, s', rs[..|rs| - 1] + [Region(last.addr, last.size + delta, true)], Live(rs));
    }
  }

  lemma PokesPut(m: Mem, pos: int, size: int)
    requires 0 <= pos && MIN_REGION <= size && pos + size <= |m| < 0x1_0000_0000
    ensures PokeFooter(PokeHeader(m, pos, 1, size), U32(pos + size - FOOTER_SIZE), pos)
            == Put(m, Region(pos, size, true))
  {
    hide WriteHeader, WriteFooter, SameOutside, Read32, HeaderAt, FooterAt;
  }

  lemma PokesGrow(m: Mem, last: Region, delta: nat)
    requires CanGrow(m, last, delta)
    ensures var size := U32(last.size + delta);
            PokeFooter(PokeWord(m, last.addr + 8, size), U32(last.addr + size - FOOTER_SIZE), last.addr)
            == GrowLast(m, last, delta)
  {
    hide WriteHeader, WriteFooter, Write32, SameOutside, Read32, HeaderAt, FooterAt;
  }

  lemma SmallWord(x: int)
    requires 0 <= x < 0x1_0000_0000
    ensures U32(x) == x
  {}

  lemma LastEnds(s: HeapState, rs: Tiling)
    requires Sound(s, rs)
    ensures rs != [] && rs[|rs| - 1].addr + rs[|rs| - 1].size == s.end
  {
    Probe(s.mem, rs, s.index, s.start, s.end, |rs| - 1);
  }

  lemma ExtendOnlyIf(s: HeapState, rs: Tiling, rs': Tiling, n: Word)
    requires CanExtend(s, rs, n)
    requires InRange(s)
    requires StillLive(s, ExtendAsWritten(s, n), rs', Live(rs))
    ensures ExtendCondition(s)
  {
    hide HeapOk, AllKept, Tiles, NewLength, SameOutside, HeaderOk, FooterOk, U32, PokeHeader, PokeFooter, PokeWord,
         HeaderAt;
    if s.index != [] && MaxOf(s.index) + HeaderAt(s.mem, MaxOf(s.index)).size != s.end {
      var a := MaxOf(s.index);
      var s' := ExtendAsWritten(s, n);
      Delta(s, n);
      var delta := NewLength(s, n) - (s.end - s.start);
      var k := HoleOf(s.mem, rs, s.index, s.start, s.end, a);
      AfterHole(s, rs, k);
      assert rs[k + 1] in Live(rs');
      Probe(s.mem, rs, s.index, s.start, s.end, k);
      GrownHeader(s.mem, rs[k], delta);
      var q := HoleOf(s'.mem, rs', s'.index, s'.start, s'.end, a);
      RegionsApart(s', rs', rs[k + 1], rs'[q]);
    }
  }

  lemma GrownHeader(m: Mem, r: Region, delta: nat)
    requires CanGrow(m, r, delta) && HeaderOk(m, r) && r.hole
    ensures var size := U32(r.size + delta);
            var m' := PokeFooter(PokeWord(m, r.addr + 8, size), U32(r.addr + size - FOOTER_SIZE), r.addr);
            HeaderAt(m', r.addr).size == r.size + delta
  {
    hide PokeFooter, PokeWord, GrowLast, U32, Write32, Read32;
    PokesGrow(m, r, delta);
    GrownTags(m, r, delta);
    assert HeaderOk(GrowLast(m, r, delta), Region(r.addr, r.size + delta, true));
  }

  /** Extending keeps every block, and the heap sound, exactly when no block lies after the endmost hole. */
  lemma ExtendMeets(s: HeapState, rs: Tiling, n: Word)
    requires CanExtend(s, rs, n)
    ensures InRange(s)
    ensures (exists rs' :: StillLive(s, ExtendAsWritten(s, n), rs', Live(rs))) <==> ExtendCondition(s)
  {
    IndexInBounds(s, rs);
    hide StillLive, ExtendCondition, ExtendAsWritten, HeapOk;
    if ExtendCondition(s) { ExtendIf(s, rs, n); }
    forall rs' | StillLive(s, ExtendAsWritten(s, n), rs', Live(rs)) ensures ExtendCondition(s) {
      ExtendOnlyIf(s, rs, rs', n);
    }
  }

  // ------------------------------------------------------------ free

  /** The C code returns, or one of its asserts stops it. */
  datatype Outcome = Returned(state: HeapState) | Halted

  /** free returns, the other blocks are live and untouched, and the heap has not become longer. */
  ghost predicate Frees(s: HeapState, o: Outcome, rs': Tiling, live: set<Region>) {
    o.Returned? && StillLive(s, o.state, rs', live) && o.state.end <= s.end
  }

  datatype Join = Join(mem: Mem, h: int, f: int, flag: bool)

  /** Unify left. flag is do_add. */
  function LeftAsWritten(m: Mem, header: int, footer: int): (j: Join)
    requires InBounds(m, header, HEADER_SIZE)
    ensures |j.mem| == |m| && InBounds(m, j.h, HEADER_SIZE)
  {
    var m1 := Write8(m, header + 4, 1);
    if InBounds(m1, header - FOOTER_SIZE, FOOTER_SIZE)
       && FooterAt(m1, header - FOOTER_SIZE).magic == HEAP_MAGIC
       && InBounds(m1, FooterAt(m1, header - FOOTER_SIZE).header, HEADER_SIZE)
       && m1[FooterAt(m1, header - FOOTER_SIZE).header + 4] == 1 then
      var h := FooterAt(m1, header - FOOTER_SIZE).header;
      var cacheSize := HeaderAt(m1, header).size;
      var m2 := PokeWord(m1, footer + 4, h);
      Join(PokeWord(m2, h + 8, U32(HeaderAt(m2, h).size + cacheSize)), h, footer, false)
    else Join(m1, header, footer, true)
  }

  /** Unify right. The joined hole's footer still names the old header. flag says that a hole joined. */
  function RightAsWritten(m: Mem, h: int, footer: int): (j: Join)
    requires InBounds(m, h, HEADER_SIZE)
    ensures |j.mem| == |m|
  {
    var next := footer + FOOTER_SIZE;
    if InBounds(m, next, HEADER_SIZE) && HeaderAt(m, next).magic == HEAP_MAGIC && HeaderAt(m, next).isHole != 0 then
      var size := HeaderAt(m, next).size;
      Join(PokeWord(m, h + 8, U32(HeaderAt(m, h).size + size)), h, next + size - FOOTER_SIZE, true)
    else Join(m, h, footer, false)
  }

  function Without(index: seq<int>, a: int): seq<int> {
    if index == [] then [] else if index[0] == a then index[1..] else [index[0]] + Without(index[1..], a)
  }

  /** Contract if the hole ends the heap, then the index. next is test_header. */
  function FinishAsWritten(s: HeapState, h: int, f: int, doAdd: bool, next: int): Outcome
    requires InBounds(s.mem, h, HEADER_SIZE) && 0 <= h
  {
    if f + FOOTER_SIZE != s.end then
      Returned(s.(index := if doAdd then [h] + s.index else s.index))
    else if U32(h - s.start) >= s.end - s.start then Halted
    else
      var oldLength := s.end - s.start;
      var newLength := ContractAsWritten(U32(h - s.start));
      var size := U32(HeaderAt(s.mem, h).size - (oldLength - newLength));
      var index := if size > 0 then s.index else Without(s.index, next);
      var m := if size > 0 then PokeFooter(PokeWord(s.mem, h + 8, size), U32(h + size - FOOTER_SIZE), U32(h))
               else s.mem;
      Returned(s.(mem := m, index := if doAdd then [h] + index else index, end := s.start + newLength))
  }

  function FreeBlockAsWritten(s: HeapState, p: int): Outcome
    requires InBounds(s.mem, p - HEADER_SIZE, HEADER_SIZE) && |s.mem| < 0x1_0000_0000
  {
    var header := p - HEADER_SIZE;
    var footer := header + HeaderAt(s.mem, header).size - FOOTER_SIZE;
    if HeaderAt(s.mem, header).magic != HEAP_MAGIC then Halted
    else if !InBounds(s.mem, footer, FOOTER_SIZE) || FooterAt(s.mem, footer).magic != HEAP_MAGIC then Halted
    else
      var left := LeftAsWritten(s.mem, header, footer);
      var right := RightAsWritten(left.mem, left.h, footer);
      var next := footer + FOOTER_SIZE;
      if right.flag && next !in s.index then Halted
      else
        var index := if right.flag then Without(s.index, next) else s.index;
        FinishAsWritten(s.(mem := right.mem, index := index), left.h, right.f, left.flag, next)
  }

  /** The probe to the left of the first block takes the words before the heap for the footer of a hole. That footer
      may name the first block itself, which free has just marked a hole. */
  predicate LeftProbe(m: Mem, start: int) {
    && InBounds(m, start - FOOTER_SIZE, FOOTER_SIZE)
    && FooterAt(m, start - FOOTER_SIZE).magic == HEAP_MAGIC
    && var h := FooterAt(m, start - FOOTER_SIZE).header;
       InBounds(m, h, HEADER_SIZE) && (h == start || m[h + 4] == 1)
  }

  /** The probe to the right of the last region takes the words after the heap for the header of a hole. */
  predicate RightProbe(m: Mem, end: int) {
    InBounds(m, end, HEADER_SIZE) && HeaderAt(m, end).magic == HEAP_MAGIC && HeaderAt(m, end).isHole != 0
  }

  /** Freeing block k does not probe the words outside the heap, or they are no tags of holes. */
  predicate Unprobed(s: HeapState, rs: Tiling, k: nat) {
    && (k == 0 ==> !LeftProbe(s.mem, s.start))
    && (k + 1 == |rs| ==> !RightProbe(s.mem, s.end))
  }

  lemma WithoutMultiset(index: seq<int>, a: int)
    ensures multiset(Without(index, a)) == multiset(index) - multiset{a}
  {
    if index != [] { assert index == [index[0]] + index[1..]; }
  }

  /** Freeing block k joins its neighbours as intended, but for the footer of a hole that came from the right. */
  ghost predicate JoinedAsWritten(s: HeapState, rs: Tiling, k: nat, left: Join, right: Join)
    requires k < |rs|
  {
    var i, j := Left(rs, k), Right(rs, k);
    var x, y := rs[i].addr, rs[j - 1].End();
    && left.h == x && left.flag == (i == k) && right.f + FOOTER_SIZE == y && right.flag == (k + 1 < j)
    && s.start <= x && x + MIN_REGION <= y <= s.end && |right.mem| == |s.mem| && SameOutside(s.mem, right.mem, x, y)
    && HeaderOk(right.mem, HoleFrom(x, y))
    && (!right.flag ==> FooterOk(right.mem, HoleFrom(x, y)))
    && (right.flag && y < s.end ==>
          && InBounds(right.mem, y - FOOTER_SIZE, FOOTER_SIZE)
          && FooterAt(right.mem, y - FOOTER_SIZE).header == rs[k + 1].addr)
    && (right.flag ==> x < rs[k + 1].addr == rs[k].End())
  }

  lemma LeftIs(m: Mem, start: int, left: Region, block: Region)
    requires Block(m, block) && start <= block.addr
    requires start < block.addr ==> TaggedBefore(m, left, block)
    requires start == block.addr ==> !LeftProbe(m, start)
    ensures InBounds(m, block.addr, HEADER_SIZE)
    ensures var j := LeftAsWritten(m, block.addr, block.End() - FOOTER_SIZE);
            && j.flag == !(start < block.addr && left.hole) && j.h == (if j.flag then block.addr else left.addr)
            && SameOutside(m, j.mem, j.h, block.End())
            && HeaderOk(j.mem, HoleFrom(j.h, block.End())) && FooterOk(j.mem, HoleFrom(j.h, block.End()))
  {
    hide HeaderOk, FooterOk, SameOutside, Block, TaggedBefore, HoleFrom, LeftAsWritten;
    BlockSize(m, block);
    if start < block.addr && left.hole {
      LeftMerges(m, left, block);
    } else {
      LeftStays(m, start, left, block);
    }
  }

  lemma LeftMerges(m: Mem, left: Region, block: Region)
    requires Block(m, block) && TaggedBefore(m, left, block) && left.hole
    requires InBounds(m, block.addr, HEADER_SIZE)
    ensures var j := LeftAsWritten(m, block.addr, block.End() - FOOTER_SIZE);
            && !j.flag && j.h == left.addr && SameOutside(m, j.mem, j.h, block.End())
            && HeaderOk(j.mem, HoleFrom(j.h, block.End())) && FooterOk(j.mem, HoleFrom(j.h, block.End()))
  {
    hide HeaderOk, FooterOk, SameOutside, Block, TaggedBefore, HoleFrom, LeftAsWritten;
    JoinBounds(m, left.addr, block.End(), left, block, block);
    BlockInBounds(m, block);
    UnifiedLeft(m, left, block);
    LeftMergesTo(m, left, block);
  }

  lemma BlockInBounds(m: Mem, block: Region)
    requires Block(m, block)
    ensures block.End() <= |m| < 0x1_0000_0000 && 0 <= block.addr
  {}

  lemma LeftMergesTo(m: Mem, left: Region, block: Region)
    requires Block(m, block) && TaggedBefore(m, left, block) && left.hole
    requires 0 <= left.addr && left.addr + left.size == block.addr && MIN_REGION <= left.size
    requires MIN_REGION <= block.size
    requires block.addr + block.size <= |m| < 0x1_0000_0000
    ensures LeftAsWritten(m, block.addr, block.addr + block.size - FOOTER_SIZE) ==
            var m2 := Write32(Write8(m, block.addr + 4, 1), block.addr + block.size - FOOTER_SIZE + 4, left.addr);
            Join(Write32(m2, left.addr + 8, left.size + block.size), left.addr,
                 block.addr + block.size - FOOTER_SIZE, false)
  {
    hide HeaderOk, FooterOk, SameOutside, HeaderAt, FooterAt, Read32, Write32, Write8, LeftAsWritten, Block,
         TaggedBefore;
    LeftSeen(m, left, block);
    UnifiedLeft(m, left, block);
    LeftValue(m, block.addr, block.addr + block.size - FOOTER_SIZE, left.addr, left.size, block.size);
  }

  lemma LeftValue(m: Mem, header: int, footer: int, l: Word, leftSize: int, blockSize: int)
    requires 0 <= l && l + MIN_REGION <= header && header + MIN_REGION <= footer + FOOTER_SIZE <= |m|
    requires 0 <= leftSize && 0 <= blockSize && leftSize + blockSize < 0x1_0000_0000
    requires var m1 := Write8(m, header + 4, 1);
             && |m1| == |m| && FooterAt(m1, header - FOOTER_SIZE) == Footer(HEAP_MAGIC, l) && m1[l + 4] == 1
             && HeaderAt(m1, header).size == blockSize
             && var m2 := Write32(m1, footer + 4, l);
                |m2| == |m| && HeaderAt(m2, l).size == leftSize
    ensures LeftAsWritten(m, header, footer) ==
            Join(Write32(Write32(Write8(m, header + 4, 1), footer + 4, l), l + 8, leftSize + blockSize),
                 l, footer, false)
  {
    SmallWord(leftSize + blockSize);
    hide SameOutside, HeaderAt, FooterAt, Read32, Write32, Write8, U32;
  }

  lemma LeftStays(m: Mem, start: int, left: Region, block: Region)
    requires Block(m, block) && start <= block.addr && InBounds(m, block.addr, HEADER_SIZE)
    requires start < block.addr ==> TaggedBefore(m, left, block) && !left.hole
    requires start == block.addr ==> !LeftProbe(m, start)
    ensures var j := LeftAsWritten(m, block.addr, block.End() - FOOTER_SIZE);
            && j.flag && j.h == block.addr && SameOutside(m, j.mem, j.h, block.End())
            && HeaderOk(j.mem, HoleFrom(j.h, block.End())) && FooterOk(j.mem, HoleFrom(j.h, block.End()))
  {
    hide HeaderOk, FooterOk, SameOutside, HeaderAt, FooterAt, Read32, Block, TaggedBefore, HoleFrom, Write32, Write8;
    Opened(m, block);
    if start < block.addr { LeftSeen(m, left, block); } else { SeenBefore(m, start); }
  }

  /** What the left probe sees of the words before the heap, the first block being marked a hole already. */
  lemma SeenBefore(m: Mem, a: int)
    requires InBounds(m, a, HEADER_SIZE)
    ensures var m1 := Write8(m, a + 4, 1);
      && |m1| == |m|
      && (InBounds(m, a - FOOTER_SIZE, FOOTER_SIZE) ==> FooterAt(m1, a - FOOTER_SIZE) == FooterAt(m, a - FOOTER_SIZE))
      && forall h | InBounds(m, h, HEADER_SIZE) :: m1[h + 4] == if h == a then 1 else m[h + 4]
  {}

  lemma RightIs(m: Mem, end: int, h: int, at: int, right: Region)
    requires 0 <= h && h + MIN_REGION <= at <= end <= |m| < 0x1_0000_0000
    requires HeaderOk(m, HoleFrom(h, at)) && FooterOk(m, HoleFrom(h, at))
    requires at < end ==> TaggedAfter(m, at, right, end)
    requires at == end ==> !RightProbe(m, end)
    ensures var j := RightAsWritten(m, h, at - FOOTER_SIZE);
            && j.flag == (at < end && right.hole) && j.f + FOOTER_SIZE == (if j.flag then right.End() else at)
            && SameOutside(m, j.mem, h, j.f + FOOTER_SIZE)
            && HeaderOk(j.mem, HoleFrom(h, j.f + FOOTER_SIZE))
            && (!j.flag ==> FooterOk(j.mem, HoleFrom(h, at)))
            && (j.flag && right.End() < end ==>
                  InBounds(j.mem, j.f, FOOTER_SIZE) && FooterAt(j.mem, j.f).header == right.addr)
  {
    hide HeaderOk, FooterOk, SameOutside, TaggedAfter, HoleFrom, RightAsWritten;
    SameSelf(m, h, at);
    HoleInBounds(m, h, at);
    if at < end {
      JoinedRight(m, end, h, at, right);
    } else {
      NoRight(m, end, h);
    }
  }

  lemma HoleInBounds(m: Mem, h: int, at: int)
    requires HeaderOk(m, HoleFrom(h, at))
    ensures InBounds(m, h, HEADER_SIZE)
  {}

  lemma NoRight(m: Mem, end: int, h: int)
    requires InBounds(m, h, HEADER_SIZE) && !RightProbe(m, end)
    ensures RightAsWritten(m, h, end - FOOTER_SIZE) == Join(m, h, end - FOOTER_SIZE, false)
  {}

  lemma JoinedRight(m: Mem, end: int, h: int, at: int, right: Region)
    requires 0 <= h && h + MIN_REGION <= at < end <= |m| < 0x1_0000_0000 && InBounds(m, h, HEADER_SIZE)
    requires HeaderOk(m, HoleFrom(h, at)) && TaggedAfter(m, at, right, end)
    ensures var j := RightAsWritten(m, h, at - FOOTER_SIZE);
            && j.flag == right.hole && j.f + FOOTER_SIZE == (if j.flag then right.End() else at)
            && (!j.flag ==> j.mem == m)
            && (j.flag ==> SameOutside(m, j.mem, h, right.End()) && HeaderOk(j.mem, HoleFrom(h, right.End())))
            && (j.flag && right.End() < end ==>
                  InBounds(j.mem, j.f, FOOTER_SIZE) && FooterAt(j.mem, j.f).header == right.addr)
  {
    RightSeen(m, h, at, right, end);
    if right.hole {
      var size := at - h + right.size;
      SmallWord(size);
      SizeWritten(m, HoleFrom(h, at), size);
    }
  }

  lemma JoinedIs(s: HeapState, rs: Tiling, k: nat) returns (left: Join, right: Join)
    requires Sound(s, rs) && Unprobed(s, rs, k) && k < |rs| && !rs[k].hole
    ensures InBounds(s.mem, rs[k].addr, HEADER_SIZE) && HeaderAt(s.mem, rs[k].addr).size == rs[k].size
    ensures left == LeftAsWritten(s.mem, rs[k].addr, rs[k].End() - FOOTER_SIZE)
    ensures InBounds(left.mem, left.h, HEADER_SIZE)
    ensures right == RightAsWritten(left.mem, left.h, rs[k].End() - FOOTER_SIZE)
    ensures JoinedAsWritten(s, rs, k, left, right)
    ensures !left.flag ==> left.h in s.index
    ensures right.flag ==> rs[k].End() in s.index
  {
    hide HeapOk, HeaderOk, FooterOk, SameOutside, HeaderAt, FooterAt, Read32, Block, TaggedBefore, TaggedAfter,
         HoleFrom, LeftAsWritten, RightAsWritten, Live;
    Around3(s.mem, rs, s.index, s.start, s.end, k);
    BlockSize(s.mem, rs[k]);
    var before, after := rs[if k > 0 then k - 1 else k], rs[if k + 1 < |rs| then k + 1 else k];
    var footer := rs[k].End() - FOOTER_SIZE;
    LeftIs(s.mem, s.start, before, rs[k]);
    left := LeftAsWritten(s.mem, rs[k].addr, footer);
    JoinBounds(s.mem, s.start, s.end, before, rs[k], after);
    assert left.h == rs[Left(rs, k)].addr;
    if k + 1 < |rs| { AfterKept(s.mem, left.mem, left.h, rs[k].End(), after, s.end); }
    EndKept(s.mem, left.mem, left.h, rs[k].End(), s.end);
    RightIs(left.mem, s.end, left.h, rs[k].End(), after);
    right := RightAsWritten(left.mem, left.h, footer);
    SameTwice(s.mem, left.mem, right.mem, left.h, rs[k].End(), right.f + FOOTER_SIZE);
  }

  lemma EndKept(m: Mem, m': Mem, x: int, y: int, end: int)
    requires SameOutside(m, m', x, y) && y <= end
    ensures InBounds(m, end, HEADER_SIZE) ==> HeaderAt(m', end) == HeaderAt(m, end)
    ensures |m'| == |m|
  {}

  /** Freeing block k does what its callers expect exactly when: the hole it makes does not reach the end of the
      heap and has no hole on its right, or it does reach the end and starts 20 bytes or more below offset 0x70000,
      which is not beyond the end. contract makes a shorter heap longer, without frames for the new pages. */
  predicate FreeCondition(s: HeapState, rs: Tiling, k: nat)
    requires k < |rs|
  {
    if Right(rs, k) < |rs| then Right(rs, k) == k + 1
    else rs[Left(rs, k)].addr - s.start + MIN_REGION <= HEAP_MIN_SIZE <= s.end - s.start
  }

  lemma IndexAfterRight(index: seq<int>, joined: bool, a: int, h: int, inIndex: bool) returns (after: seq<int>)
    requires joined ==> a in index && h < a
    requires inIndex ==> h in index
    ensures after == if joined then Without(index, a) else index
    ensures multiset(after) + (if joined then multiset{a} else multiset{}) == multiset(index)
    ensures inIndex ==> h in after
  {
    hide Without;
    after := if joined then Without(index, a) else index;
    WithoutMultiset(index, a);
    if joined {
      assert a in multiset(index);
      if inIndex { assert h in multiset(index); assert h in multiset(after); }
    }
  }

  /** free is FinishAsWritten after the two unifications. */
  lemma FreeUnfolds(s: HeapState, rs: Tiling, k: nat) returns (left: Join, right: Join, index: seq<int>)
    requires Sound(s, rs) && Unprobed(s, rs, k) && k < |rs| && !rs[k].hole
    ensures |s.mem| < 0x1_0000_0000 && InBounds(s.mem, rs[k].addr, HEADER_SIZE)
    ensures JoinedAsWritten(s, rs, k, left, right)
    ensures multiset(index) + RightEntry(rs, k) == multiset(s.index) && (!left.flag ==> left.h in index)
    ensures InBounds(right.mem, left.h, HEADER_SIZE) && 0 <= left.h
    ensures FreeBlockAsWritten(s, rs[k].Payload()) ==
            FinishAsWritten(s.(mem := right.mem, index := index), left.h, right.f, left.flag, rs[k].End())
  {
    hide HeapOk, HeaderOk, FooterOk, SameOutside, HeaderAt, FooterAt, Read32, HoleFrom, LeftAsWritten, RightAsWritten,
         FinishAsWritten, Live, Without, Block, TaggedBefore, TaggedAfter, Unprobed;
    Parts(s.mem, rs, s.index, s.start, s.end);
    Around3(s.mem, rs, s.index, s.start, s.end, k);
    BlockSize(s.mem, rs[k]);
    left, right := JoinedIs(s, rs, k);
    index := IndexAfterRight(s.index, right.flag, rs[k].End(), left.h, !left.flag);
  }

  lemma JoinedFrom(s: HeapState, rs: Tiling, k: nat, left: Join, right: Join)
    requires k < |rs| && JoinedAsWritten(s, rs, k, left, right)
    requires right.flag ==> right.f + FOOTER_SIZE == s.end
    ensures Joined(s.mem, right.mem, rs, s.start, s.end, left.h, right.f, left.flag, k)
  {
    hide HeaderOk, FooterOk, SameOutside;
  }

  /** What contract and the resize come to for a hole that starts well below the minimum size. */
  lemma ShrinksToMinimum(m: Mem, h: int, start: int, end: int)
    requires 0 < start <= h && h - start + MIN_REGION <= HEAP_MIN_SIZE <= end - start && end <= |m| < 0x1_0000_0000
    requires HeaderOk(m, HoleFrom(h, end))
    ensures InBounds(m, h, HEADER_SIZE) && ContractAsWritten(U32(h - start)) == HEAP_MIN_SIZE
    ensures var rest := start + HEAP_MIN_SIZE - h;
            && U32(HeaderAt(m, h).size - (end - start - HEAP_MIN_SIZE)) == rest && U32(h) == h
            && var m' := PokeFooter(PokeWord(m, h + 8, rest), U32(h + rest - FOOTER_SIZE), h);
               && HeaderOk(m', HoleFrom(h, start + HEAP_MIN_SIZE)) && FooterOk(m', HoleFrom(h, start + HEAP_MIN_SIZE))
               && SameOutside(m, m', h, end)
  {
    hide HeaderOk, FooterOk, SameOutside, Write32, WriteFooter, Read32, HeaderAt, FooterAt;
    TagSize(m, h, end);
    var rest := start + HEAP_MIN_SIZE - h;
    SmallWord(h); SmallWord(h - start); SmallWord(rest); SmallWord(h + rest - FOOTER_SIZE);
    Resized(m, h, end - h, rest);
  }

  lemma FinishInside(s: HeapState, h: int, f: int, doAdd: bool, next: int)
    requires InBounds(s.mem, h, HEADER_SIZE) && 0 <= h && f + FOOTER_SIZE != s.end
    ensures FinishAsWritten(s, h, f, doAdd, next) == Returned(s.(index := if doAdd then [h] + s.index else s.index))
  {}

  /** free at the end of a heap whose last hole starts well below the minimum size. */
  lemma FinishAtMinimum(s: HeapState, h: int, doAdd: bool, next: int) returns (m: Mem)
    requires 0 < s.start <= h && h - s.start + MIN_REGION <= HEAP_MIN_SIZE <= s.end - s.start
    requires s.end <= |s.mem| < 0x1_0000_0000 && HeaderOk(s.mem, HoleFrom(h, s.end))
    ensures InBounds(s.mem, h, HEADER_SIZE)
    ensures FinishAsWritten(s, h, s.end - FOOTER_SIZE, doAdd, next) ==
            Returned(s.(mem := m, index := if doAdd then [h] + s.index else s.index, end := s.start + HEAP_MIN_SIZE))
    ensures HeaderOk(m, HoleFrom(h, s.start + HEAP_MIN_SIZE)) && FooterOk(m, HoleFrom(h, s.start + HEAP_MIN_SIZE))
    ensures SameOutside(s.mem, m, h, s.end)
  {
    hide HeaderOk, FooterOk, SameOutside, HeaderAt, FooterAt, HoleFrom, ContractAsWritten, U32, PokeFooter, PokeWord,
         Without;
    ShrinksToMinimum(s.mem, h, s.start, s.end);
    ContractAllowed(h, s.start, s.end);
    var rest := s.start + HEAP_MIN_SIZE - h;
    m := PokeFooter(PokeWord(s.mem, h + 8, rest), U32(h + rest - FOOTER_SIZE), h);
  }

  /** The block is the only one with its payload. */
  lemma OnlyBlock(s: HeapState, rs: Tiling, k: nat)
    requires Sound(s, rs) && k < |rs| && !rs[k].hole
    ensures Live(rs) - {rs[k]} == set r | r in Live(rs) && r.Payload() != rs[k].Payload()
  {
    hide HeapOk, Live;
    IsLive(rs, k);
    var same := BlockOf(s.mem, rs, s.index, s.start, s.end, rs[k].Payload());
    SamePosition(rs, k, same, s.start, s.end);
  }

  lemma FreeIf(s: HeapState, rs: Tiling, k: nat)
    requires Sound(s, rs) && Unprobed(s, rs, k) && k < |rs| && !rs[k].hole
    requires |s.mem| < 0x1_0000_0000 && InBounds(s.mem, rs[k].addr, HEADER_SIZE)
    requires FreeCondition(s, rs, k)
    ensures exists rs' :: Frees(s, FreeBlockAsWritten(s, rs[k].Payload()), rs', Live(rs) - {rs[k]})
  {
    hide HeapOk, HeaderOk, FooterOk, SameOutside, HeaderAt, FooterAt, HoleFrom, Live, AllKept, FreeBlockAsWritten,
         JoinedAsWritten, Joined, RightEntry, FinishAsWritten, Freed, Without, Unprobed, Tiles, Left, Right;
    var left, right, index := FreeUnfolds(s, rs, k);
    Parts(s.mem, rs, s.index, s.start, s.end);
    EndOf(s, rs, k, left, right);
    JoinedFrom(s, rs, k, left, right);
    OnlyBlock(s, rs, k);
    var p, h, f := rs[k].Payload(), left.h, right.f;
    var s1 := s.(mem := right.mem, index := index);
    var m, rest, end := right.mem, f + FOOTER_SIZE - h, s.end;
    if f + FOOTER_SIZE == s.end {
      m := FinishAtMinimum(s1, h, left.flag, rs[k].End());
      rest, end := s.start + HEAP_MIN_SIZE - h, s.start + HEAP_MIN_SIZE;
    } else {
      FinishInside(s1, h, f, left.flag, rs[k].End());
    }
    var index' := if left.flag then [h] + index else index;
    var s' := s1.(mem := m, index := index', end := end);
    assert FreeBlockAsWritten(s, p) == Returned(s');
    Conclude(s.mem, right.mem, m, rs, s.index, index, index', s.start, s.end, end, k, h, f, left.flag, rest, p);
    assert Frees(s, Returned(s'), Freed(rs, k, h + rest), Live(rs) - {rs[k]});
  }

  lemma ContractAllowed(h: int, start: int, end: int)
    requires 0 <= start <= h < end < 0x1_0000_0000
    ensures U32(h - start) < end - start
  {}

  lemma IsLive(rs: Tiling, k: nat)
    requires k < |rs| && !rs[k].hole
    ensures rs[k] in Live(rs)
  {}

  lemma SamePosition(rs: Tiling, k: nat, i: nat, lo: int, hi: int)
    requires Tiles(rs, lo, hi) && k < |rs| && i < |rs| && rs[i].addr == rs[k].addr
    ensures i == k
  {
    if i < k { TilesDisjoint(rs, i, k, lo, hi); }
    if k < i { TilesDisjoint(rs, k, i, lo, hi); }
  }

  /** What the rest of the argument needs from the two unifications. */
  lemma EndOf(s: HeapState, rs: Tiling, k: nat, left: Join, right: Join)
    requires Sound(s, rs) && k < |rs| && JoinedAsWritten(s, rs, k, left, right)
    ensures right.f + FOOTER_SIZE == s.end <==> Right(rs, k) == |rs|
    ensures Left(rs, k) <= k < Right(rs, k) <= |rs|
    ensures right.flag == (k + 1 < Right(rs, k)) && left.h == rs[Left(rs, k)].addr
    ensures s.start <= left.h && left.h + MIN_REGION <= right.f + FOOTER_SIZE <= s.end && |right.mem| == |s.mem|
    ensures HeaderOk(right.mem, HoleFrom(left.h, right.f + FOOTER_SIZE))
    ensures left.h < rs[k].End()
  {
    hide HeaderOk, FooterOk, SameOutside;
    Probe(s.mem, rs, s.index, s.start, s.end, Right(rs, k) - 1);
    Probe(s.mem, rs, s.index, s.start, s.end, k);
    if k > 0 { Probe(s.mem, rs, s.index, s.start, s.end, k - 1); }
  }

  lemma FreeOnlyIf(s: HeapState, rs: Tiling, rs': Tiling, k: nat)
    requires Sound(s, rs) && Unprobed(s, rs, k) && k < |rs| && !rs[k].hole
    requires |s.mem| < 0x1_0000_0000 && InBounds(s.mem, rs[k].addr, HEADER_SIZE)
    requires Frees(s, FreeBlockAsWritten(s, rs[k].Payload()), rs', Live(rs) - {rs[k]})
    ensures FreeCondition(s, rs, k)
  {
    hide HeapOk, HeaderOk, FooterOk, SameOutside, HeaderAt, FooterAt, HoleFrom, AllKept, FreeBlockAsWritten,
         JoinedAsWritten, RightEntry, U32, PokeFooter, PokeWord, Without, FinishAsWritten, Live, ContractAsWritten;
    if !FreeCondition(s, rs, k) {
      var left, right, index := FreeUnfolds(s, rs, k);
      Parts(s.mem, rs, s.index, s.start, s.end);
      EndOf(s, rs, k, left, right);
      var s' := FinishAsWritten(s.(mem := right.mem, index := index), left.h, right.f, left.flag, rs[k].End()).state;
      FinishKeepsEntry(s.(mem := right.mem, index := index), left.h, right.f, left.flag, rs[k].End());
      var q := HoleOf(s'.mem, rs', s'.index, s'.start, s'.end, left.h);
      if Right(rs, k) < |rs| {
        StaleFooter(s, s', rs, rs', k, q, left, right);
      } else {
        ContractBelow(left.h - s.start);
        Probe(s'.mem, rs', s'.index, s'.start, s'.end, q);
        Probe(s.mem, rs, s.index, s.start, s.end, k);
      }
    }
  }

  lemma ContractBelow(offset: int)
    requires 0 <= offset < 0x1_0000_0000
    ensures offset + MIN_REGION > HEAP_MIN_SIZE ==> ContractAsWritten(U32(offset)) < offset + MIN_REGION
    ensures offset + MIN_REGION <= HEAP_MIN_SIZE ==> ContractAsWritten(U32(offset)) == HEAP_MIN_SIZE
  {}

  lemma FinishKeepsEntry(s: HeapState, h: int, f: int, doAdd: bool, next: int)
    requires InBounds(s.mem, h, HEADER_SIZE) && 0 <= h && (!doAdd ==> h in s.index) && h != next
    requires FinishAsWritten(s, h, f, doAdd, next).Returned?
    ensures var s' := FinishAsWritten(s, h, f, doAdd, next).state;
            && h in s'.index && s'.start == s.start
            && (f + FOOTER_SIZE != s.end ==> s'.mem == s.mem && s'.end == s.end)
            && (f + FOOTER_SIZE == s.end ==> s'.end == s.start + ContractAsWritten(U32(h - s.start)))
  {
    hide PokeFooter, PokeWord, U32, ContractAsWritten, HeaderAt, Without;
    WithoutMultiset(s.index, next);
    if !doAdd {
      assert h in multiset(s.index);
      assert h in multiset(Without(s.index, next));
    }
  }

  /** A hole that took in its right neighbour keeps a footer that names the old header: not a heap. */
  lemma StaleFooter(s: HeapState, s': HeapState, rs: Tiling, rs': Tiling, k: nat, q: nat, left: Join, right: Join)
    requires Sound(s, rs) && k < |rs| && !rs[k].hole && JoinedAsWritten(s, rs, k, left, right)
    requires s'.mem == right.mem && s'.end == s.end && s'.start == s.start
    requires Sound(s', rs') && Live(rs') == Live(rs) - {rs[k]} && q < |rs'| && rs'[q].addr == left.h && rs'[q].hole
    ensures Right(rs, k) == |rs| || Right(rs, k) == k + 1
  {
    hide HeapOk, HeaderOk, FooterOk, SameOutside, Tiles, HeaderAt, FooterAt, NoAdjacentHoles;
    if Right(rs, k) == k + 2 < |rs| {
      Probe(s.mem, rs, s.index, s.start, s.end, k + 1);
      Probe(s.mem, rs, s.index, s.start, s.end, k + 2);
      Parts(s.mem, rs, s.index, s.start, s.end);
      TilesDisjoint(rs, k, k + 2, s.start, s.end);
      NotBoth(rs, k + 1);
      assert rs[k + 2] in Live(rs');
      Probe(s'.mem, rs', s'.index, s'.start, s'.end, q);
      RegionsApart(s', rs', rs[k + 2], rs'[q]);
      SameTags(right.mem, rs'[q], rs[k + 1].End());
    }
  }

  lemma NotBoth(rs: Tiling, k: nat)
    requires NoAdjacentHoles(rs) && k + 1 < |rs| && rs[k].hole
    ensures !rs[k + 1].hole
  {}

  lemma SameTags(m: Mem, hole: Region, y: int)
    requires HeaderOk(m, hole) && HeaderOk(m, HoleFrom(hole.addr, y))
    ensures hole.End() == y
    ensures FooterOk(m, hole) ==> FooterAt(m, y - FOOTER_SIZE).header == hole.addr
  {}

  /** When the left probe of the first block succeeds, the hole it becomes is not put into the index. */
  lemma LeftProbed(s: HeapState, rs: Tiling, rs': Tiling)
    requires Sound(s, rs) && rs != [] && !rs[0].hole && LeftProbe(s.mem, s.start)
    requires |s.mem| < 0x1_0000_0000 && InBounds(s.mem, rs[0].addr, HEADER_SIZE)
    ensures !Frees(s, FreeBlockAsWritten(s, rs[0].Payload()), rs', Live(rs) - {rs[0]})
  {
    hide HeapOk, AllKept, LeftProbe, FreeBlockAsWritten, Tiles;
    var o := FreeBlockAsWritten(s, rs[0].Payload());
    FirstRegion(s, rs);
    NotAdded(s, rs[0].Payload());
    if Frees(s, o, rs', Live(rs) - {rs[0]}) {
      FirstRegion(o.state, rs');
      BlockNotIndexed(s, rs);
      if rs'[0].hole { HoleIsIndexed(o.state.mem, rs', o.state.index, o.state.start, o.state.end, 0); }
      assert rs'[0] in Live(rs');
      SameStart(s, rs, rs'[0]);
    }
  }

  lemma FirstRegion(s: HeapState, rs: Tiling)
    requires Sound(s, rs)
    ensures rs != [] && rs[0].addr == s.start
  {}

  lemma SameStart(s: HeapState, rs: Tiling, r: Region)
    requires Sound(s, rs) && r in rs && r.addr == s.start
    ensures r == rs[0]
  {
    TilesBounds(rs, s.start, s.end);
    OverlapIsEqual(rs, r, rs[0], s.start, s.end);
  }

  lemma BlockNotIndexed(s: HeapState, rs: Tiling)
    requires Sound(s, rs) && !rs[0].hole
    ensures s.start !in s.index
  {
    hide HeapOk;
    if s.start in s.index {
      var k := HoleOf(s.mem, rs, s.index, s.start, s.end, s.start);
      SameStart(s, rs, rs[k]);
    }
  }

  lemma NotAdded(s: HeapState, p: int)
    requires InBounds(s.mem, p - HEADER_SIZE, HEADER_SIZE) && |s.mem| < 0x1_0000_0000
    requires LeftProbe(s.mem, p - HEADER_SIZE)
    ensures var o := FreeBlockAsWritten(s, p);
      o.Returned? ==> o.state.start == s.start && forall a | a in o.state.index :: a in s.index
  {
    hide RightAsWritten, PokeWord, PokeFooter, ContractAsWritten, HeaderAt, U32;
    var header := p - HEADER_SIZE;
    SeenBefore(s.mem, header);
    var footer := header + HeaderAt(s.mem, header).size - FOOTER_SIZE;
    var left := LeftAsWritten(s.mem, header, footer);
    assert !left.flag;
    WithoutFewer(s.index, footer + FOOTER_SIZE);
    WithoutFewer(Without(s.index, footer + FOOTER_SIZE), footer + FOOTER_SIZE);
  }

  lemma WithoutFewer(index: seq<int>, a: int)
    ensures forall x | x in Without(index, a) :: x in index
  {}

  /** When the right probe at the end of the heap succeeds, its header is looked for in the index in vain. */
  lemma RightProbed(s: HeapState, rs: Tiling, k: nat)
    requires Sound(s, rs) && k + 1 == |rs| && !rs[k].hole && RightProbe(s.mem, s.end)
    requires k == 0 ==> !LeftProbe(s.mem, s.start)
    requires |s.mem| < 0x1_0000_0000 && InBounds(s.mem, rs[k].addr, HEADER_SIZE)
    ensures FreeBlockAsWritten(s, rs[k].Payload()) == Halted
  {
    hide HeapOk, HeaderOk, FooterOk, SameOutside, HeaderAt, FooterAt, Read32, Block, TaggedBefore, HoleFrom,
         LeftAsWritten, FinishAsWritten, Live;
    Around3(s.mem, rs, s.index, s.start, s.end, k);
    BlockSize(s.mem, rs[k]);
    LeftIs(s.mem, s.start, rs[if k > 0 then k - 1 else k], rs[k]);
    var left := LeftAsWritten(s.mem, rs[k].addr, rs[k].End() - FOOTER_SIZE);
    EndKept(s.mem, left.mem, left.h, rs[k].End(), s.end);
    if s.end in s.index { var q := HoleOf(s.mem, rs, s.index, s.start, s.end, s.end); }
  }

  /** free keeps every other block, and the heap sound and no longer, exactly when FreeCondition holds of the block
      and the words outside the heap that it probes are no tags of holes. */
  lemma FreeMeets(s: HeapState, rs: Tiling, k: nat)
    requires Sound(s, rs) && k < |rs| && !rs[k].hole
    ensures |s.mem| < 0x1_0000_0000 && InBounds(s.mem, rs[k].addr, HEADER_SIZE)
    ensures (exists rs' :: Frees(s, FreeBlockAsWritten(s, rs[k].Payload()), rs', Live(rs) - {rs[k]}))
            <==> FreeCondition(s, rs, k) && Unprobed(s, rs, k)
  {
    hide HeapOk, StillLive, FreeBlockAsWritten, FreeCondition, LeftProbe, RightProbe;
    Parts(s.mem, rs, s.index, s.start, s.end);
    Probe(s.mem, rs, s.index, s.start, s.end, k);
    if FreeCondition(s, rs, k) && Unprobed(s, rs, k) { FreeIf(s, rs, k); }
    forall rs' | Frees(s, FreeBlockAsWritten(s, rs[k].Payload()), rs', Live(rs) - {rs[k]})
      ensures FreeCondition(s, rs, k) && Unprobed(s, rs, k)
    {
      if k == 0 && LeftProbe(s.mem, s.start) {
        LeftProbed(s, rs, rs');
      } else if k + 1 == |rs| && RightProbe(s.mem, s.end) {
        RightProbed(s, rs, k);
      } else {
        FreeOnlyIf(s, rs, rs', k);
      }
    }
  }
}
