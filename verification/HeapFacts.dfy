/** Facts about a valid heap that the allocator's loops and probes rely on. */
module HeapFacts {
  import opened Memory
  import opened Regions
  import opened HeapInvariant
  import opened HeapSteps

  /** The region behind an entry of the index. */
  lemma HoleOf(m: Mem, rs: Tiling, index: seq<int>, lo: int, hi: int, a: int) returns (k: nat)
    requires HeapOk(m, rs, index, lo, hi) && a in index
    ensures k < |rs| && rs[k].hole && rs[k].addr == a
    ensures InBounds(m, a, HEADER_SIZE) && HeaderAt(m, a).size == rs[k].size
    ensures HeaderAt(m, a).magic == HEAP_MAGIC && HeaderAt(m, a).isHole == 1
    ensures 0 < lo <= a && a + rs[k].size <= hi && MIN_REGION <= rs[k].size
  {
    assert a in multiset(index);
    assert a in multiset(HoleAddrs(rs));
    HoleAddrsAre(rs, a);
    k :| 0 <= k < |rs| && rs[k].hole && rs[k].addr == a;
    assert HeaderOk(m, rs[k]);
    TilesAt(rs, k, lo, hi);
  }

  lemma HoleIsIndexed(m: Mem, rs: Tiling, index: seq<int>, lo: int, hi: int, k: nat)
    requires HeapOk(m, rs, index, lo, hi) && k < |rs| && rs[k].hole
    ensures rs[k].addr in index
  {
    HoleAddrsAre(rs, rs[k].addr);
    assert rs[k].addr in multiset(HoleAddrs(rs));
    assert rs[k].addr in multiset(index);
  }

  lemma KeptSelf(m: Mem, s: set<Region>)
    ensures AllKept(m, m, s)
  {}

  lemma NoHoles(m: Mem, rs: Tiling, index: seq<int>, lo: int, hi: int)
    requires HeapOk(m, rs, index, lo, hi) && index == []
    ensures !EndsInHole(rs)
  {
    if EndsInHole(rs) { HoleIsIndexed(m, rs, index, lo, hi, |rs| - 1); }
  }

  /** The endmost hole ends at the end of the heap exactly when the last region is a hole, and then it is that one. */
  lemma EndmostIsLast(m: Mem, rs: Tiling, index: seq<int>, lo: int, hi: int, idx: nat)
    requires HeapOk(m, rs, index, lo, hi) && idx < |index|
    requires forall i | 0 <= i < |index| :: index[i] <= index[idx]
    ensures InBounds(m, index[idx], HEADER_SIZE)
    ensures index[idx] + HeaderAt(m, index[idx]).size == hi <==> EndsInHole(rs)
    ensures EndsInHole(rs) ==> var last := rs[|rs| - 1];
              index[idx] == last.addr && HeaderAt(m, last.addr).size == last.size && CanGrow(m, last, 0)
  {
    hide HeapOk, HeaderAt, Tiles, HeaderOk, FooterOk;
    var k := HoleOf(m, rs, index, lo, hi, index[idx]);
    var n := |rs| - 1;
    Parts(m, rs, index, lo, hi);
    Probe(m, rs, index, lo, hi, k);
    Probe(m, rs, index, lo, hi, n);
    if EndsInHole(rs) {
      HoleIsIndexed(m, rs, index, lo, hi, n);
      if k < n { TilesDisjoint(rs, k, n, lo, hi); }
    }
  }

  lemma CarvedIndex(m: Mem, before: seq<int>, middle: seq<int>, after: seq<int>,
                    pos: int, size: int, gap: int, n: int)
    requires CanCarve(m, pos, size, gap, n)
    requires multiset(middle) + multiset{pos} == multiset(before) + (if gap > 0 then multiset{pos} else multiset{})
    requires after == if size - gap - n > 0 then [pos + gap + n] + middle else middle
    ensures multiset(after) + multiset{pos} == multiset(before) + multiset(HoleAddrs(Carved(pos, size, gap, n)))
  {
    CarvedTiles(m, pos, size, gap, n);
    var front := if gap > 0 then multiset{pos} else multiset{};
    var tail := if size - gap - n > 0 then multiset{pos + gap + n} else multiset{};
    assert multiset(HoleAddrs(Carved(pos, size, gap, n))) == front + tail;
    assert multiset(after) == tail + multiset(middle);
    assert tail + multiset(middle) + multiset{pos} == tail + (multiset(middle) + multiset{pos});
  }

  /** The carved block lies in what was a hole, so it was not live before. */
  lemma NewBlock(rs: Tiling, k: nat, gap: nat, n: nat, lo: int, hi: int)
    requires Tiles(rs, lo, hi) && k < |rs| && rs[k].hole && MIN_REGION <= n && gap + n <= rs[k].size
    ensures Region(rs[k].addr + gap, n, false) !in Live(rs)
    ensures lo <= rs[k].addr + gap && rs[k].addr + gap + n <= hi
  {
    TilesAt(rs, k, lo, hi);
    var block := Region(rs[k].addr + gap, n, false);
    if block in rs { OverlapIsEqual(rs, block, rs[k], lo, hi); }
  }

  lemma KeptTwice(m: Mem, m1: Mem, m2: Mem, s: set<Region>)
    requires AllKept(m, m1, s) && AllKept(m1, m2, s)
    ensures AllKept(m, m2, s)
  {
    forall r | r in s ensures SameBytes(m, m2, r) {
      assert SameBytes(m, m1, r) && SameBytes(m1, m2, r);
      assert forall i {:trigger m2[i]} | r.addr <= i < r.End() && 0 <= i < |m| :: m1[i] == m[i];
    }
  }

  /** What a valid heap's memory holds at region k and just before it. */
  lemma Probe(m: Mem, rs: Tiling, index: seq<int>, lo: int, hi: int, k: nat)
    requires HeapOk(m, rs, index, lo, hi) && k < |rs|
    ensures 0 < lo <= rs[k].addr && rs[k].End() <= hi <= |m| < 0x1_0000_0000 && MIN_REGION <= rs[k].size
    ensures HeaderOk(m, rs[k]) && (!rs[k].hole || rs[k].End() < hi ==> FooterOk(m, rs[k]))
    ensures rs[k].End() == hi <==> k + 1 == |rs|
    ensures rs[k].addr == lo <==> k == 0
    ensures k > 0 ==> rs[k - 1].End() == rs[k].addr
    ensures k + 1 < |rs| ==> rs[k + 1].addr == rs[k].End()
  {
    hide HeaderOk, FooterOk;
    Parts(m, rs, index, lo, hi);
    TilesAt(rs, k, lo, hi);
    if k > 0 { TilesBounds(rs[..k], lo, rs[k].addr); assert rs[k - 1] in rs[..k]; }
    if k + 1 < |rs| { TilesAt(rs, k + 1, lo, hi); }
  }

  ghost predicate Block(m: Mem, block: Region) {
    && !block.hole && MIN_REGION <= block.size && 0 <= block.addr && block.End() <= |m| < 0x1_0000_0000
    && HeaderOk(m, block) && FooterOk(m, block)
  }

  ghost predicate TaggedBefore(m: Mem, left: Region, block: Region) {
    && 0 <= left.addr && left.End() == block.addr && MIN_REGION <= left.size
    && HeaderOk(m, left) && FooterOk(m, left)
  }

  ghost predicate TaggedAfter(m: Mem, at: int, right: Region, end: int) {
    && right.addr == at && MIN_REGION <= right.size && right.End() <= end && HeaderOk(m, right)
    && (right.End() < end ==> FooterOk(m, right))
  }

  ghost function HoleFrom(x: int, y: int): Region { Region(x, y - x, true) }

  lemma SameSelf(m: Mem, x: int, y: int)
    ensures SameOutside(m, m, x, y)
  {}

  lemma Opened(m: Mem, block: Region)
    requires Block(m, block)
    ensures var m1 := Write8(m, block.addr + 4, 1);
            && |m1| == |m|
            && HeaderOk(m1, HoleFrom(block.addr, block.End())) && FooterOk(m1, HoleFrom(block.addr, block.End()))
            && SameOutside(m, m1, block.addr, block.End())
  {}

  lemma LeftSeen(m: Mem, left: Region, block: Region)
    requires Block(m, block) && TaggedBefore(m, left, block)
    ensures var m1 := Write8(m, block.addr + 4, 1);
            && |m1| == |m|
            && FooterAt(m1, block.addr - FOOTER_SIZE) == Footer(HEAP_MAGIC, left.addr)
            && m1[left.addr + 4] == (if left.hole then 1 else 0)
            && HeaderAt(m1, block.addr).size == block.size
  {}

  lemma UnifiedLeft(m: Mem, left: Region, block: Region)
    requires Block(m, block) && TaggedBefore(m, left, block) && left.hole
    ensures var m2 := Write32(Write8(m, block.addr + 4, 1), block.End() - FOOTER_SIZE + 4, left.addr);
            && |m2| == |m| && HeaderAt(m2, left.addr).size == left.size
            && var m3 := Write32(m2, left.addr + 8, left.size + block.size);
               var hole := HoleFrom(left.addr, block.End());
               HeaderOk(m3, hole) && FooterOk(m3, hole) && SameOutside(m, m3, left.addr, block.End())
  {
    var m1 := Write8(m, block.addr + 4, 1);
    assert HeaderOk(m1, left);
    var m2 := Write32(m1, block.End() - FOOTER_SIZE + 4, left.addr);
    assert HeaderOk(m2, left);
  }

  lemma RightSeen(m: Mem, header: int, at: int, right: Region, end: int)
    requires 0 <= header && header + MIN_REGION <= at < end <= |m| < 0x1_0000_0000
    requires HeaderOk(m, HoleFrom(header, at)) && TaggedAfter(m, at, right, end)
    ensures HeaderAt(m, at) == Header(HEAP_MAGIC, if right.hole then 1 else 0, right.size)
    ensures HeaderAt(m, header).size == at - header
  {}

  lemma UnifiedRight(m: Mem, header: int, at: int, right: Region, end: int)
    requires 0 <= header && header + MIN_REGION <= at < end <= |m| < 0x1_0000_0000
    requires HeaderOk(m, HoleFrom(header, at)) && TaggedAfter(m, at, right, end) && right.hole
    ensures var m1 := Write32(m, header + 8, at - header + right.size);
            && |m1| == |m|
            && var m2 := Write32(m1, right.End() - FOOTER_SIZE + 4, header);
               var hole := HoleFrom(header, right.End());
               && HeaderOk(m2, hole) && SameOutside(m, m2, header, right.End())
               && (right.End() < end ==> FooterOk(m2, hole))
  {
    var m1 := Write32(m, header + 8, at - header + right.size);
    assert HeaderOk(m1, HoleFrom(header, right.End()));
  }

  lemma TagSize(m: Mem, h: int, end: int)
    requires HeaderOk(m, HoleFrom(h, end))
    ensures InBounds(m, h, HEADER_SIZE) && HeaderAt(m, h).size == end - h
  {}

  lemma Resized(m: Mem, h: int, size: int, rest: int)
    requires 0 <= h && MIN_REGION <= rest <= size && h + size <= |m| < 0x1_0000_0000
    requires HeaderOk(m, HoleFrom(h, h + size))
    ensures var m1 := Write32(m, h + 8, rest);
            && |m1| == |m|
            && var m2 := WriteFooter(m1, h + rest - FOOTER_SIZE, h);
               && HeaderOk(m2, HoleFrom(h, h + rest)) && FooterOk(m2, HoleFrom(h, h + rest))
               && SameOutside(m, m2, h, h + size) && |m2| == |m|
  {
    hide HeaderOk, FooterOk;
    SizeWritten(m, HoleFrom(h, h + size), rest);
    FooterWritten(Write32(m, h + 8, rest), HoleFrom(h, h + rest));
  }

  lemma BlockSize(m: Mem, block: Region)
    requires Block(m, block)
    ensures InBounds(m, block.addr, HEADER_SIZE) && HeaderAt(m, block.addr) == Header(HEAP_MAGIC, 0, block.size)
    ensures InBounds(m, block.End() - FOOTER_SIZE, FOOTER_SIZE)
    ensures FooterAt(m, block.End() - FOOTER_SIZE) == Footer(HEAP_MAGIC, block.addr)
  {}

  lemma JoinBounds(m: Mem, start: int, end: int, left: Region, block: Region, right: Region)
    requires Block(m, block) && block.End() <= end
    ensures InBounds(m, block.addr, HEADER_SIZE) && HeaderAt(m, block.addr) == Header(HEAP_MAGIC, 0, block.size)
    ensures MIN_REGION <= block.size
    ensures TaggedBefore(m, left, block) ==> 0 <= left.addr && left.End() == block.addr && MIN_REGION <= left.size
    ensures TaggedAfter(m, block.End(), right, end) ==>
              right.addr == block.End() && MIN_REGION <= right.size && right.End() <= end
  {
    BlockSize(m, block);
  }

  /** The position of the live block with payload p. */
  lemma BlockOf(m: Mem, rs: Tiling, index: seq<int>, lo: int, hi: int, p: int) returns (k: nat)
    requires HeapOk(m, rs, index, lo, hi)
    requires exists r :: r in Live(rs) && r.Payload() == p
    ensures k < |rs| && !rs[k].hole && rs[k].Payload() == p
    ensures Live(rs) - {rs[k]} == set r | r in Live(rs) && r.Payload() != p
    ensures Tiles(rs, lo, hi)
  {
    var r :| r in Live(rs) && r.Payload() == p;
    k :| 0 <= k < |rs| && rs[k] == r;
    Parts(m, rs, index, lo, hi);
    TilesBounds(rs, lo, hi);
    forall q | q in Live(rs) && q.Payload() == p ensures q == r { OverlapIsEqual(rs, q, r, lo, hi); }
  }

  lemma NoNullPayload(m: Mem, rs: Tiling, index: seq<int>, lo: int, hi: int)
    requires HeapOk(m, rs, index, lo, hi)
    ensures Live(rs) == set r | r in Live(rs) && r.Payload() != 0
  {
    TilesBounds(rs, lo, hi);
  }

  /** All that free reads around block k. */
  lemma Around3(m: Mem, rs: Tiling, index: seq<int>, lo: int, hi: int, k: nat)
    requires HeapOk(m, rs, index, lo, hi) && k < |rs| && !rs[k].hole
    ensures Block(m, rs[k]) && 0 < lo <= rs[k].addr && rs[k].End() <= hi <= |m| < 0x1_0000_0000
    ensures MIN_REGION <= rs[k].size
    ensures rs[k].addr == lo <==> k == 0
    ensures k > 0 ==> TaggedBefore(m, rs[k - 1], rs[k]) && lo <= rs[k - 1].addr <= rs[k].addr
    ensures k > 0 && rs[k - 1].hole ==> rs[k - 1].addr in index
    ensures rs[k].End() == hi <==> k + 1 == |rs|
    ensures k + 1 < |rs| ==> && TaggedAfter(m, rs[k].End(), rs[k + 1], hi) && rs[k + 1].addr == rs[k].End()
                             && rs[k + 1].End() <= hi && rs[k].End() <= rs[k + 1].End()
                             && (rs[k + 1].End() == hi <==> k + 2 == |rs|)
    ensures k + 1 < |rs| && rs[k + 1].hole ==> rs[k + 1].addr in index
  {
    hide HeaderOk, FooterOk, HeapOk;
    Probe(m, rs, index, lo, hi, k);
    if k + 1 < |rs| {
      Probe(m, rs, index, lo, hi, k + 1);
      if rs[k + 1].hole { HoleIsIndexed(m, rs, index, lo, hi, k + 1); }
    }
    if k > 0 {
      Probe(m, rs, index, lo, hi, k - 1);
      if rs[k - 1].hole { HoleIsIndexed(m, rs, index, lo, hi, k - 1); }
    }
  }

  lemma SameTwice(m: Mem, m1: Mem, m2: Mem, x: int, y1: int, y2: int)
    requires SameOutside(m, m1, x, y1) && SameOutside(m1, m2, x, y2) && y1 <= y2
    ensures SameOutside(m, m2, x, y2) && |m2| == |m|
  {
    forall i {:trigger m2[i]} | 0 <= i < |m| && !(x <= i < y2) ensures m2[i] == m[i] {
      assert m1[i] == m[i];
    }
  }

  lemma AfterKept(m: Mem, m': Mem, x: int, y: int, right: Region, end: int)
    requires SameOutside(m, m', x, y) && TaggedAfter(m, y, right, end)
    ensures TaggedAfter(m', y, right, end)
  {
    TagsFrame(m, m', right);
  }

  lemma IndexBalance(a: multiset<int>, b: multiset<int>, c: multiset<int>, right: multiset<int>, left: multiset<int>,
                     hole: multiset<int>)
    requires b + right == a && c + left == b + hole
    ensures c + left + right == a + hole
  {}

  lemma MakeFreed(m: Mem, m': Mem, rs: Tiling, index: seq<int>, joined: seq<int>, index': seq<int>,
                  lo: int, hi: int, k: nat, h: int, rest: nat)
    requires HeapOk(m, rs, index, lo, hi) && k < |rs| && !rs[k].hole
    requires h == rs[Left(rs, k)].addr && h + rest <= rs[Right(rs, k) - 1].End()
    requires SameOutside(m, m', h, rs[Right(rs, k) - 1].End())
    requires rs[Right(rs, k) - 1].End() < hi ==> h + rest == rs[Right(rs, k) - 1].End()
    requires rest > 0 ==>
               rest >= MIN_REGION && HeaderOk(m', HoleFrom(h, h + rest)) && FooterOk(m', HoleFrom(h, h + rest))
    requires rest == 0 ==> lo < h
    requires multiset(joined) + (if k + 1 < Right(rs, k) then multiset{rs[k + 1].addr} else multiset{})
             == multiset(index)
    requires multiset(index') + (if Left(rs, k) == k then multiset{} else multiset{h}) ==
             multiset(joined) + if rest > 0 then multiset{h} else multiset{}
    ensures FreedTags(m, m', rs, k, h + rest) && FreedIndex(index, index', rs, k, h + rest)
    ensures Right(rs, k) < |rs| ==> rs[Right(rs, k) - 1].End() < hi
    ensures Right(rs, k) == |rs| ==> rs[Right(rs, k) - 1].End() == hi
  {
    hide HeaderOk, FooterOk, SameOutside, HeapOk;
    var i, j := Left(rs, k), Right(rs, k);
    Probe(m, rs, index, lo, hi, j - 1);
    Probe(m, rs, index, lo, hi, i);
    IndexBalance(multiset(index), multiset(joined), multiset(index'),
                 if k + 1 < j then multiset{rs[k + 1].addr} else multiset{},
                 if i < k then multiset{h} else multiset{}, if rest > 0 then multiset{h} else multiset{});
  }

  /** The index entry that disappears when block k joins a hole on its right. */
  ghost function RightEntry(rs: Tiling, k: nat): multiset<int>
    requires k < |rs|
  {
    if k + 1 < Right(rs, k) then multiset{rs[k + 1].addr} else multiset{}
  }

  /** Memory m' holds one hole [h, f + 8) in place of block k and the holes beside it. */
  ghost predicate Joined(m: Mem, m': Mem, rs: Tiling, lo: int, hi: int, h: int, f: int, doAdd: bool, k: nat)
    requires k < |rs|
  {
    var i, j := Left(rs, k), Right(rs, k);
    && h == rs[i].addr && f + FOOTER_SIZE == rs[j - 1].End() && doAdd == (i == k)
    && lo <= h && h + MIN_REGION <= f + FOOTER_SIZE <= hi && |m| == |m'| && SameOutside(m, m', h, f + FOOTER_SIZE)
    && HeaderOk(m', HoleFrom(h, f + FOOTER_SIZE))
    && (f + FOOTER_SIZE < hi ==> FooterOk(m', HoleFrom(h, f + FOOTER_SIZE)))
  }

  lemma MakeJoined(m: Mem, m': Mem, rs: Tiling, index: seq<int>, lo: int, hi: int, h: int, f: int,
                   doAdd: bool, joined: bool, k: nat)
    requires HeapOk(m, rs, index, lo, hi) && k < |rs| && !rs[k].hole
    requires var left, right := rs[if k > 0 then k - 1 else k], rs[if k + 1 < |rs| then k + 1 else k];
             && doAdd == !(lo < rs[k].addr && left.hole) && h == (if doAdd then rs[k].addr else left.addr)
             && joined == (rs[k].End() < hi && right.hole)
             && f + FOOTER_SIZE == if joined then right.End() else rs[k].End()
    requires |m| == |m'| && SameOutside(m, m', h, f + FOOTER_SIZE) && HeaderOk(m', HoleFrom(h, f + FOOTER_SIZE))
    requires f + FOOTER_SIZE < hi ==> FooterOk(m', HoleFrom(h, f + FOOTER_SIZE))
    ensures Joined(m, m', rs, lo, hi, h, f, doAdd, k)
    ensures InBounds(m, rs[k].addr, HEADER_SIZE) && HeaderAt(m, rs[k].addr).size == rs[k].size
    ensures RightEntry(rs, k) == if joined then multiset{rs[k].End()} else multiset{}
    ensures joined ==> rs[k].End() in index && h < rs[k].End()
    ensures !doAdd ==> h in index
  {
    hide HeapOk, HeaderOk, FooterOk, SameOutside, HoleFrom, Block, TaggedBefore, TaggedAfter;
    Around3(m, rs, index, lo, hi, k);
    BlockSize(m, rs[k]);
    JoinBounds(m, lo, hi, rs[if k > 0 then k - 1 else k], rs[k], rs[if k + 1 < |rs| then k + 1 else k]);
  }

  lemma JoinedFacts(m: Mem, m': Mem, rs: Tiling, lo: int, hi: int, h: int, f: int, doAdd: bool, k: nat)
    requires k < |rs| && Joined(m, m', rs, lo, hi, h, f, doAdd, k)
    ensures lo <= h && h + MIN_REGION <= f + FOOTER_SIZE <= hi && |m| == |m'|
    ensures HeaderOk(m', HoleFrom(h, f + FOOTER_SIZE))
  {
    hide HeaderOk, FooterOk;
  }

  /** The joined hole reaches the end of the heap when nothing lies after its regions. */
  lemma JoinedEnd(m: Mem, m': Mem, rs: Tiling, index: seq<int>, lo: int, hi: int, h: int, f: int, doAdd: bool, k: nat)
    requires HeapOk(m, rs, index, lo, hi) && k < |rs| && Joined(m, m', rs, lo, hi, h, f, doAdd, k)
    ensures h == rs[Left(rs, k)].addr && (f + FOOTER_SIZE == hi <==> Right(rs, k) == |rs|)
  {
    hide HeapOk, HeaderOk, FooterOk, SameOutside;
    Probe(m, rs, index, lo, hi, Right(rs, k) - 1);
  }

  /** The heap after free: what is left of the joined hole is rest bytes, and the heap ends at hi'. */
  lemma Conclude(m: Mem, m1: Mem, m': Mem, rs: Tiling, index: seq<int>, joined: seq<int>, index': seq<int>,
                 lo: int, hi: int, hi': int, k: nat, h: int, f: int, doAdd: bool, rest: nat, p: int)
    requires HeapOk(m, rs, index, lo, hi) && k < |rs| && !rs[k].hole && rs[k].Payload() == p
    requires Live(rs) - {rs[k]} == set r | r in Live(rs) && r.Payload() != p
    requires Joined(m, m1, rs, lo, hi, h, f, doAdd, k)
    requires f + FOOTER_SIZE < hi ==> m' == m1 && h + rest == f + FOOTER_SIZE && hi' == hi
    requires f + FOOTER_SIZE == hi ==>
               && h + rest == hi' <= hi && lo < hi' && SameOutside(m1, m', h, hi)
               && (rest > 0 ==> rest >= MIN_REGION && HeaderOk(m', HoleFrom(h, hi')) && FooterOk(m', HoleFrom(h, hi')))
    requires multiset(joined) + RightEntry(rs, k) == multiset(index)
    requires multiset(index') + (if doAdd then multiset{} else multiset{h}) ==
             multiset(joined) + if rest > 0 then multiset{h} else multiset{}
    ensures HeapOk(m', Freed(rs, k, h + rest), index', lo, hi')
    ensures Live(Freed(rs, k, h + rest)) == set r | r in Live(rs) && r.Payload() != p
    ensures AllKept(m, m', Live(Freed(rs, k, h + rest)))
  {
    hide HeapOk, Live, AllKept, HeaderOk, FooterOk, SameOutside, FreedTags, FreedIndex, Freed, Left, HoleFrom;
    if f + FOOTER_SIZE == hi { SameTwice(m, m1, m', h, hi, hi); }
    MakeFreed(m, m', rs, index, joined, index', lo, hi, k, h, rest);
    FreeOk(m, m', rs, index, index', lo, hi, k, h + rest);
  }

  /** The heap that create_heap leaves: a single hole with a header and no footer. */
  lemma InitialOk(m: Mem, lo: int, hi: int)
    requires 0 < lo && lo + MIN_REGION <= hi <= |m| < 0x1_0000_0000
    ensures var m' := WriteHeader(m, lo, 1, hi - lo);
            HeapOk(m', [Region(lo, hi - lo, true)], [lo], lo, hi) && |m'| == |m|
  {
    var r := Region(lo, hi - lo, true);
    HoleAlone(r);
    assert HeaderOk(WriteHeader(m, lo, 1, hi - lo), r);
  }

  lemma StoredTags(m: Mem, r: Region, a: int, v: Byte)
    requires HeaderOk(m, r) && r.size >= MIN_REGION && r.Payload() <= a < r.PayloadEnd() && 0 <= a < |m|
    ensures HeaderOk(m[a := v], r) && (FooterOk(m, r) ==> FooterOk(m[a := v], r))
  {}

  /** A byte stored in the payload of a block damages no tag and no other block. */
  lemma StoreOk(m: Mem, rs: Tiling, index: seq<int>, lo: int, hi: int, r: Region, a: int, v: Byte)
    requires HeapOk(m, rs, index, lo, hi) && r in Live(rs) && r.Payload() <= a < r.PayloadEnd()
    ensures 0 <= a < |m| && HeapOk(m[a := v], rs, index, lo, hi)
    ensures AllKept(m, m[a := v], Live(rs) - {r})
  {
    hide HeaderOk, FooterOk;
    Parts(m, rs, index, lo, hi);
    TilesBounds(rs, lo, hi);
    assert r in rs;
    var m' := m[a := v];
    forall i | 0 <= i < |rs|
      ensures HeaderOk(m', rs[i]) && (FooterOk(m', rs[i]) || (i == |rs| - 1 && rs[i].hole))
      ensures rs[i] != r ==> SameBytes(m, m', rs[i])
    {
      if rs[i] == r {
        StoredTags(m, r, a, v);
      } else {
        if rs[i].addr <= a < rs[i].End() { OverlapIsEqual(rs, rs[i], r, lo, hi); }
        TagsFrame(m, m', rs[i]);
      }
    }
  }
}
