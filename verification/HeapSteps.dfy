/** The three ways the heap rewrites its tags, as functions on memory, and why each keeps the invariant. */
module HeapSteps {
  import opened Memory
  import opened Regions
  import opened HeapInvariant

  // ---------------------------------------------------------------- carving a block out of a hole

  /** A hole [pos, pos + size) becomes: a front hole of gap bytes, a block of n bytes, a tail hole. */
  ghost function Carved(pos: int, size: int, gap: int, n: int): Tiling {
    (if gap > 0 then [Region(pos, gap, true)] else [])
    + [Region(pos + gap, n, false)]
    + (if size - gap - n > 0 then [Region(pos + gap + n, size - gap - n, true)] else [])
  }

  ghost predicate CanCarve(m: Mem, pos: int, size: int, gap: int, n: int) {
    && 0 <= pos && pos + size <= |m| < 0x1_0000_0000
    && n >= MIN_REGION
    && (gap == 0 || gap >= MIN_REGION)
    && (gap + n == size || gap + n + MIN_REGION <= size)
  }

  /** Write both tags of region r. */
  function Put(m: Mem, r: Region): (m': Mem)
    requires 0 <= r.addr && MIN_REGION <= r.size && r.addr + r.size <= |m| < 0x1_0000_0000
    ensures |m'| == |m|
  {
    WriteFooter(WriteHeader(m, r.addr, if r.hole then 1 else 0, r.size), r.End() - FOOTER_SIZE, r.addr)
  }

  /** Writing the size field of a header. */
  lemma SizeWritten(m: Mem, r: Region, size: Word)
    requires 0 <= r.addr && r.addr + HEADER_SIZE <= |m| && HeaderOk(m, r)
    ensures HeaderOk(Write32(m, r.addr + 8, size), Region(r.addr, size, r.hole))
    ensures SameOutside(m, Write32(m, r.addr + 8, size), r.addr + 8, r.addr + HEADER_SIZE)
  {}

  /** Writing the footer that goes with a header. */
  lemma FooterWritten(m: Mem, r: Region)
    requires 0 <= r.addr && MIN_REGION <= r.size && r.addr + r.size <= |m| < 0x1_0000_0000 && HeaderOk(m, r)
    ensures var m' := WriteFooter(m, r.addr + r.size - FOOTER_SIZE, r.addr);
            && HeaderOk(m', r) && FooterOk(m', r) && |m'| == |m|
            && SameOutside(m, m', r.addr + r.size - FOOTER_SIZE, r.addr + r.size)
  {}

  lemma PutTags(m: Mem, r: Region)
    requires 0 <= r.addr && MIN_REGION <= r.size && r.addr + r.size <= |m| < 0x1_0000_0000
    ensures HeaderOk(Put(m, r), r) && FooterOk(Put(m, r), r) && FullyTagged(Put(m, r), [r])
    ensures SameOutside(m, Put(m, r), r.addr, r.addr + r.size) && |Put(m, r)| == |m|
  {
    var m1 := WriteHeader(m, r.addr, if r.hole then 1 else 0, r.size);
    assert HeaderOk(m1, r);
    FooterWritten(m1, r);
  }

  lemma PutKeeps(m: Mem, r: Region, q: Region)
    requires 0 <= r.addr && MIN_REGION <= r.size && r.addr + r.size <= |m| < 0x1_0000_0000
    requires MIN_REGION <= q.size && (q.End() <= r.addr || r.End() <= q.addr)
    requires HeaderOk(m, q) && FooterOk(m, q)
    ensures HeaderOk(Put(m, r), q) && FooterOk(Put(m, r), q)
  {
    PutTags(m, r);
    TagsFrame(m, Put(m, r), q);
  }

  ghost function Carve(m: Mem, pos: int, size: int, gap: int, n: int): Mem
    requires CanCarve(m, pos, size, gap, n)
  {
    var front, block := Region(pos, gap, true), Region(pos + gap, n, false);
    var tail := Region(pos + gap + n, size - gap - n, true);
    var m1 := if gap > 0 then Put(m, front) else m;
    var m2 := Put(m1, block);
    if tail.size > 0 then Put(m2, tail) else m2
  }

  lemma CarveTags(m: Mem, pos: int, size: int, gap: int, n: int)
    requires CanCarve(m, pos, size, gap, n)
    ensures SameOutside(m, Carve(m, pos, size, gap, n), pos, pos + size)
    ensures |Carve(m, pos, size, gap, n)| == |m|
    ensures FullyTagged(Carve(m, pos, size, gap, n), Carved(pos, size, gap, n))
  {
    hide Put, HeaderOk, FooterOk;
    var front, block := Region(pos, gap, true), Region(pos + gap, n, false);
    var tail := Region(pos + gap + n, size - gap - n, true);
    var m1 := m;
    if gap > 0 {
      PutTags(m, front);
      m1 := Put(m, front);
      PutKeeps(m1, block, front);
    }
    PutTags(m1, block);
    var m2 := Put(m1, block);
    if tail.size > 0 {
      PutTags(m2, tail);
      PutKeeps(m2, tail, block);
      if gap > 0 { PutKeeps(m2, tail, front); }
    }
  }

  lemma CarvedTiles(m: Mem, pos: int, size: int, gap: int, n: int)
    requires CanCarve(m, pos, size, gap, n)
    ensures Tiles(Carved(pos, size, gap, n), pos, pos + size)
    ensures NoAdjacentHoles(Carved(pos, size, gap, n))
    ensures Live(Carved(pos, size, gap, n)) == {Region(pos + gap, n, false)}
    ensures HoleAddrs(Carved(pos, size, gap, n)) ==
            (if gap > 0 then [pos] else []) + (if size - gap - n > 0 then [pos + gap + n] else [])
    ensures Carved(pos, size, gap, n) != []
  {
    hide Tiles, Total, HoleAddrs, Live;
    var front := Piece(gap > 0, Region(pos, gap, true));
    var body := Piece(true, Region(pos + gap, n, false));
    var rest := Piece(size - gap - n > 0, Region(pos + gap + n, size - gap - n, true));
    TilesSplit(front, body, pos, pos + gap + n);
    TotalSplit(front, body);
    TilesSplit(front + body, rest, pos, pos + size);
    HolesSplit(front + body, rest);
    HolesSplit(front, body);
    LiveSplit(front + body, rest);
    LiveSplit(front, body);
  }

  /** A region, or nothing. */
  lemma Piece(there: bool, r: Region) returns (p: Tiling)
    requires if there then r.size >= MIN_REGION else r.size == 0
    ensures p == if there then [r] else []
    ensures Tiles(p, r.addr, r.addr + r.size) && Total(p) == r.size
    ensures HoleAddrs(p) == (if there && r.hole then [r.addr] else [])
    ensures Live(p) == if there && !r.hole then {r} else {}
  {
    p := if there then [r] else [];
    if there { assert p[1..] == []; }
  }

  /** Region k of a heap and what surrounds it. */
  lemma Around(rs: Tiling, k: nat, lo: int, hi: int)
    requires Tiles(rs, lo, hi) && NoAdjacentHoles(rs) && k < |rs|
    ensures rs == rs[..k] + [rs[k]] + rs[k + 1..]
    ensures Tiles(rs[..k], lo, rs[k].addr) && Tiles(rs[k + 1..], rs[k].addr + rs[k].size, hi)
    ensures lo <= rs[k].addr && rs[k].addr + rs[k].size <= hi && MIN_REGION <= rs[k].size
    ensures k + 1 == |rs| ==> rs[k].addr + rs[k].size == hi
    ensures rs[k].hole ==> !EndsInHole(rs[..k]) && !StartsWithHole(rs[k + 1..])
    ensures rs[k].hole ==> Live(rs) == Live(rs[..k]) + Live(rs[k + 1..])
  {
    TilesAt(rs, k, lo, hi);
    LiveSplit(rs[..k] + [rs[k]], rs[k + 1..]);
    LiveSplit(rs[..k], [rs[k]]);
  }

  lemma HoleAlone(r: Region)
    requires r.hole && r.size >= MIN_REGION
    ensures Tiles([r], r.addr, r.addr + r.size) && NoAdjacentHoles([r]) && Live([r]) == {}
    ensures multiset(HoleAddrs([r])) == multiset{r.addr}
  {
    assert Tiles([], r.End(), r.End());
    assert HoleAddrs([r]) == [r.addr] + HoleAddrs([]);
  }

  /** Carving a block out of hole k keeps the heap, adds exactly that block and touches no other block. */
  lemma CarveOk(m: Mem, rs: Tiling, index: seq<int>, index': seq<int>, lo: int, hi: int,
                k: nat, gap: int, n: int)
    requires HeapOk(m, rs, index, lo, hi)
    requires k < |rs| && rs[k].hole && CanCarve(m, rs[k].addr, rs[k].size, gap, n)
    requires multiset(index') + multiset{rs[k].addr} ==
             multiset(index) + multiset(HoleAddrs(Carved(rs[k].addr, rs[k].size, gap, n)))
    ensures var m' := Carve(m, rs[k].addr, rs[k].size, gap, n);
            var rs' := rs[..k] + Carved(rs[k].addr, rs[k].size, gap, n) + rs[k + 1..];
            && HeapOk(m', rs', index', lo, hi)
            && Live(rs') == Live(rs) + {Region(rs[k].addr + gap, n, false)}
            && AllKept(m, m', Live(rs))
  {
    hide *;
    var pos, size := rs[k].addr, rs[k].size;
    CarveTags(m, pos, size, gap, n);
    CarvedTiles(m, pos, size, gap, n);
    Parts(m, rs, index, lo, hi);
    Around(rs, k, lo, hi);
    HoleAlone(rs[k]);
    SpliceOk(m, Carve(m, pos, size, gap, n), rs[..k], [rs[k]], Carved(pos, size, gap, n), rs[k + 1..],
             index, index', lo, hi, pos, pos + size, pos + size);
  }

  // ---------------------------------------------------------------- growing the heap at its end

  ghost predicate CanGrow(m: Mem, last: Region, delta: nat) {
    0 <= last.addr && MIN_REGION <= last.size && last.addr + last.size + delta <= |m| < 0x1_0000_0000
  }

  ghost function GrowLast(m: Mem, last: Region, delta: nat): Mem
    requires CanGrow(m, last, delta)
  {
    var size := last.size + delta;
    WriteFooter(Write32(m, last.addr + 8, size), last.addr + size - FOOTER_SIZE, last.addr)
  }

  lemma GrownTags(m: Mem, last: Region, delta: nat)
    requires CanGrow(m, last, delta) && HeaderOk(m, last) && last.hole
    ensures FullyTagged(GrowLast(m, last, delta), [Region(last.addr, last.size + delta, true)])
    ensures SameOutside(m, GrowLast(m, last, delta), last.addr, last.addr + last.size + delta)
    ensures |GrowLast(m, last, delta)| == |m|
  {
    hide HeaderOk, FooterOk;
    SizeWritten(m, last, last.size + delta);
    FooterWritten(Write32(m, last.addr + 8, last.size + delta), Region(last.addr, last.size + delta, true));
  }

  lemma LastTagged(m: Mem, rs: Tiling)
    requires Tagged(m, rs) && rs != []
    ensures HeaderOk(m, rs[|rs| - 1])
  {}

  lemma NothingAt(x: int)
    ensures Tiles([], x, x) && HoleAddrs([]) == [] && Live([]) == {} && !StartsWithHole([])
  {}

  /** The end of the heap moves to hi + delta and a hole at the old end takes the new bytes. */
  lemma GrowLastOk(m: Mem, rs: Tiling, index: seq<int>, lo: int, hi: int, delta: nat)
    requires HeapOk(m, rs, index, lo, hi) && rs != [] && rs[|rs| - 1].hole && hi + delta <= |m|
    requires CanGrow(m, rs[|rs| - 1], delta)
    ensures var last := rs[|rs| - 1];
            var m' := GrowLast(m, last, delta);
            var rs' := rs[..|rs| - 1] + [Region(last.addr, last.size + delta, true)];
            && HeapOk(m', rs', index, lo, hi + delta)
            && Live(rs') == Live(rs)
            && AllKept(m, m', Live(rs))
  {
    hide *;
    var k := |rs| - 1;
    var last, grown := rs[k], Region(rs[k].addr, rs[k].size + delta, true);
    Parts(m, rs, index, lo, hi);
    LastTagged(m, rs);
    Around(rs, k, lo, hi);
    GrownTags(m, last, delta);
    HoleAlone(last);
    HoleAlone(grown);
    SpliceOk(m, GrowLast(m, last, delta), rs[..k], [last], [grown], [], index, index,
             lo, hi, last.addr, hi, hi + delta);
    assert rs[..k] + [grown] + [] == rs[..k] + [grown];
  }

  /** The end of the heap moves and, a block being last, the new bytes become a hole of their own. */
  lemma AddHoleOk(m: Mem, rs: Tiling, index: seq<int>, lo: int, hi: int, delta: int)
    requires HeapOk(m, rs, index, lo, hi) && !EndsInHole(rs)
    requires 0 < MIN_REGION <= delta && 0 < hi && hi + delta <= |m| < 0x1_0000_0000
    ensures var hole := Region(hi, delta, true);
            && HeapOk(Put(m, hole), rs + [hole], [hi] + index, lo, hi + delta)
            && Live(rs + [hole]) == Live(rs)
            && AllKept(m, Put(m, hole), Live(rs))
  {
    var hole := Region(hi, delta, true);
    hide *;
    Parts(m, rs, index, lo, hi);
    PutTags(m, hole);
    HoleAlone(hole);
    NothingAt(hi);
    assert rs == rs + [] + [];
    SpliceOk(m, Put(m, hole), rs, [], [hole], [], index, [hi] + index, lo, hi, hi, hi, hi + delta);
    assert rs + [hole] + [] == rs + [hole];
  }

  // ---------------------------------------------------------------- turning a block into a hole

  /** Block k and the holes on its two sides. */
  function Left(rs: Tiling, k: nat): nat
    requires k < |rs|
  {
    if k > 0 && rs[k - 1].hole then k - 1 else k
  }

  function Right(rs: Tiling, k: nat): nat
    requires k < |rs|
  {
    if k + 1 < |rs| && rs[k + 1].hole then k + 2 else k + 1
  }

  lemma Around2(rs: Tiling, i: nat, j: nat, lo: int, hi: int)
    requires Tiles(rs, lo, hi) && i < j <= |rs|
    ensures var x, y := rs[i].addr, rs[j - 1].End();
            && rs == rs[..i] + rs[i..j] + rs[j..]
            && Tiles(rs[..i], lo, x) && Tiles(rs[i..j], x, y) && Tiles(rs[j..], y, hi)
            && lo <= x && x + MIN_REGION <= y <= hi && (rs[j..] == [] <==> y == hi)
  {
    hide Tiles, Total;
    var x, y := rs[i].addr, rs[j - 1].End();
    TilesCut(rs, i, lo, hi);
    TilesAt(rs, j - 1, lo, hi);
    assert rs[j - 1 + 1..] == rs[j..];
    assert rs[i..] == rs[i..j] + rs[j..];
    TilesSplit(rs[i..j], rs[j..], x, hi);
    TilesTotal(rs[j..], y, hi);
    TilesTotal(rs[j..], x + Total(rs[i..j]), hi);
    TilesBounds(rs[..i], lo, x);
    TilesBounds(rs[i..j], x, y);
    assert rs[i..j][0] == rs[i] && rs[i] in rs[i..j];
  }

  lemma OnlyLive(rs: Tiling, k: nat)
    requires k < |rs| && !rs[k].hole
    ensures var i, j := Left(rs, k), Right(rs, k);
            && Live(rs[i..j]) == {rs[k]}
            && (NoAdjacentHoles(rs) ==> !EndsInHole(rs[..i]) && !StartsWithHole(rs[j..]))
  {
    var i, j := Left(rs, k), Right(rs, k);
    assert forall n | i <= n < j :: rs[i..j][n - i] == rs[n] && (n == k || rs[n].hole);
    assert rs[i..j][k - i] == rs[k];
  }

  lemma LiveSplit3(a: Tiling, b: Tiling, c: Tiling)
    ensures Live(a + b + c) == Live(a) + Live(b) + Live(c)
  {
    LiveSplit(a + b, c);
    LiveSplit(a, b);
  }

  /** The span of bytes that freeing block k turns into one hole. */
  lemma MergedSpan(rs: Tiling, k: nat, lo: int, hi: int)
    requires Tiles(rs, lo, hi) && k < |rs| && !rs[k].hole && NoAdjacentHoles(rs)
    ensures var i, j := Left(rs, k), Right(rs, k);
            var x, y := rs[i].addr, rs[j - 1].End();
            && rs == rs[..i] + rs[i..j] + rs[j..]
            && Tiles(rs[..i], lo, x) && Tiles(rs[i..j], x, y) && Tiles(rs[j..], y, hi)
            && lo <= x && x + MIN_REGION <= y <= hi && (rs[j..] == [] <==> y == hi)
            && !EndsInHole(rs[..i]) && !StartsWithHole(rs[j..])
            && Live(rs[i..j]) == {rs[k]}
            && Live(rs) == Live(rs[..i]) + {rs[k]} + Live(rs[j..])
  {
    hide Tiles, Live, EndsInHole, StartsWithHole, NoAdjacentHoles;
    var i, j := Left(rs, k), Right(rs, k);
    Around2(rs, i, j, lo, hi);
    OnlyLive(rs, k);
    LiveSplit3(rs[..i], rs[i..j], rs[j..]);
  }

  /** The tiling after block k has become a hole [x, y'), or has vanished with the end of the heap. */
  ghost function Freed(rs: Tiling, k: nat, y': int): Tiling
    requires k < |rs|
  {
    var i, j := Left(rs, k), Right(rs, k);
    var x := rs[i].addr;
    rs[..i] + FreedHole(x, y') + rs[j..]
  }

  lemma MergedHoles(rs: Tiling, k: nat)
    requires k < |rs| && !rs[k].hole
    ensures var i, j := Left(rs, k), Right(rs, k);
            multiset(HoleAddrs(rs[i..j])) ==
            (if i < k then multiset{rs[i].addr} else multiset{})
            + (if k + 1 < j then multiset{rs[k + 1].addr} else multiset{})
  {
    var i, j := Left(rs, k), Right(rs, k);
    var was := rs[i..j];
    var l, b, r := rs[i..k], [rs[k]], rs[k + 1..j];
    assert was == l + b + r;
    HolesSplit(l + b, r);
    HolesSplit(l, b);
    assert HoleAddrs(b) == [];
    assert HoleAddrs(l) == if i < k then [rs[i].addr] else [];
    assert HoleAddrs(r) == if k + 1 < j then [rs[k + 1].addr] else [];
  }

  lemma NotElsewhere(rs: Tiling, k: nat, i: nat, j: nat, lo: int, hi: int)
    requires Tiles(rs, lo, hi) && i <= k < j <= |rs|
    ensures rs[k] !in Live(rs[..i]) + Live(rs[j..])
  {
    forall n: nat | n < |rs| && n != k ensures rs[n] != rs[k] {
      if n < k { TilesDisjoint(rs, n, k, lo, hi); } else { TilesDisjoint(rs, k, n, lo, hi); }
    }
  }

  /** The facts about the memory after a free that make Freed a heap again. */
  ghost predicate FreedTags(m: Mem, m': Mem, rs: Tiling, k: nat, y': int)
    requires k < |rs|
  {
    var i, j := Left(rs, k), Right(rs, k);
    var x, y := rs[i].addr, rs[j - 1].End();
    && SameOutside(m, m', x, if y < y' then y' else y)
    && x <= y' <= |m| && (j < |rs| ==> y' == y) && (x == y' ==> 0 < i)
    && (x < y' ==> var hole := Region(x, y' - x, true);
                   hole.size >= MIN_REGION && HeaderOk(m', hole) && FooterOk(m', hole))
  }

  ghost predicate FreedIndex(index: seq<int>, index': seq<int>, rs: Tiling, k: nat, y': int)
    requires k < |rs|
  {
    var i, j := Left(rs, k), Right(rs, k);
    multiset(index')
    + (if i < k then multiset{rs[i].addr} else multiset{})
    + (if k + 1 < j then multiset{rs[k + 1].addr} else multiset{})
    == multiset(index) + (if rs[i].addr < y' then multiset{rs[i].addr} else multiset{})
  }

  function FreedHole(x: int, y': int): Tiling {
    if x < y' then [Region(x, y' - x, true)] else []
  }

  lemma FreedIndexSplice(rs: Tiling, index: seq<int>, index': seq<int>, k: nat, y': int)
    requires k < |rs| && !rs[k].hole && FreedIndex(index, index', rs, k, y')
    ensures var i, j := Left(rs, k), Right(rs, k);
            multiset(index') + multiset(HoleAddrs(rs[i..j])) ==
            multiset(index) + multiset(HoleAddrs(FreedHole(rs[i].addr, y')))
  {
    hide HoleAddrs;
    MergedHoles(rs, k);
    var x := rs[Left(rs, k)].addr;
    if x < y' { HoleAloneAddr(Region(x, y' - x, true)); } else { NothingAt(x); }
  }

  lemma HoleAloneAddr(r: Region)
    requires r.hole
    ensures multiset(HoleAddrs([r])) == multiset{r.addr}
  {
    assert HoleAddrs([r]) == [r.addr] + HoleAddrs([]);
  }

  lemma FreedHoleIs(x: int, y': int)
    requires x == y' || x + MIN_REGION <= y'
    ensures var now := FreedHole(x, y');
            Tiles(now, x, y') && NoAdjacentHoles(now) && Live(now) == {} && (now == [] <==> x == y')
  {
    if x < y' { HoleAlone(Region(x, y' - x, true)); } else { NothingAt(x); }
  }

  lemma FreedTagsSplice(m: Mem, m': Mem, rs: Tiling, k: nat, y': int)
    requires k < |rs| && !rs[k].hole && FreedTags(m, m', rs, k, y')
    ensures var i, j := Left(rs, k), Right(rs, k);
            var x, y := rs[i].addr, rs[j - 1].End();
            && (x == y' || x + MIN_REGION <= y') && y' <= |m| == |m'|
            && FullyTagged(m', FreedHole(x, y'))
            && (rs[j..] != [] ==> y' == y)
            && (x == y' ==> rs[..i] != [])
            && SameOutside(m, m', x, if y < y' then y' else y)
  {
    hide HeaderOk, FooterOk;
  }

  /** Freeing block k keeps the heap, removes exactly that block and touches no other block. */
  lemma FreeOk(m: Mem, m': Mem, rs: Tiling, index: seq<int>, index': seq<int>, lo: int, hi: int, k: nat, y': int)
    requires HeapOk(m, rs, index, lo, hi) && k < |rs| && !rs[k].hole
    requires FreedTags(m, m', rs, k, y') && FreedIndex(index, index', rs, k, y')
    ensures HeapOk(m', Freed(rs, k, y'), index', lo, if Right(rs, k) == |rs| then y' else hi)
    ensures Live(Freed(rs, k, y')) == Live(rs) - {rs[k]}
    ensures AllKept(m, m', Live(rs) - {rs[k]})
  {
    hide Tiles, Tagged, FullyTagged, HeapOk, NoAdjacentHoles, EndsInHole, StartsWithHole,
         Live, HoleAddrs, Indexed, SameOutside, AllKept, FreedTags, FreedIndex, FreedHole;
    var i, j := Left(rs, k), Right(rs, k);
    var x, y := rs[i].addr, rs[j - 1].End();
    Parts(m, rs, index, lo, hi);
    MergedSpan(rs, k, lo, hi);
    FreedIndexSplice(rs, index, index', k, y');
    FreedTagsSplice(m, m', rs, k, y');
    FreedHoleIs(x, y');
    NotElsewhere(rs, k, i, j, lo, hi);
    assert Live(rs[..i]) + Live(rs[j..]) == Live(rs) - {rs[k]};
    SpliceOk(m, m', rs[..i], rs[i..j], FreedHole(x, y'), rs[j..], index, index', lo, hi, x, y, y');
  }
}
