/** The heap's invariant: one tiling, recorded twice, by boundary tags in memory and by the index of holes. */
module HeapInvariant {
  import opened Memory
  import opened Regions

  ghost predicate HeaderOk(m: Mem, r: Region) {
    && InBounds(m, r.addr, HEADER_SIZE)
    && var h := HeaderAt(m, r.addr);
       h.magic == HEAP_MAGIC && h.isHole == (if r.hole then 1 else 0) && h.size == r.size
  }

  ghost predicate FooterOk(m: Mem, r: Region) {
    && InBounds(m, r.End() - FOOTER_SIZE, FOOTER_SIZE)
    && var f := FooterAt(m, r.End() - FOOTER_SIZE);
       f.magic == HEAP_MAGIC && f.header == r.addr
  }

  /** Both tags of every region. A hole at the very end may lack its footer, as create_heap leaves it. */
  ghost predicate Tagged(m: Mem, rs: Tiling) {
    forall i | 0 <= i < |rs| ::
      HeaderOk(m, rs[i]) && (FooterOk(m, rs[i]) || (i == |rs| - 1 && rs[i].hole))
  }

  ghost predicate FullyTagged(m: Mem, rs: Tiling) {
    forall r | r in rs :: HeaderOk(m, r) && FooterOk(m, r)
  }

  /** The index holds the header of each hole exactly once. */
  ghost predicate Indexed(index: seq<int>, rs: Tiling) {
    multiset(index) == multiset(HoleAddrs(rs))
  }

  ghost predicate HeapOk(m: Mem, rs: Tiling, index: seq<int>, lo: int, hi: int) {
    && rs != [] && 0 < lo && hi <= |m| < 0x1_0000_0000
    && Tiles(rs, lo, hi)
    && Tagged(m, rs)
    && NoAdjacentHoles(rs)
    && Indexed(index, rs)
  }

  ghost predicate SameBytes(m: Mem, m': Mem, r: Region) {
    && |m| == |m'|
    && forall i {:trigger m'[i]} | r.addr <= i < r.End() && 0 <= i < |m| :: m'[i] == m[i]
  }

  /** Not a byte of the listed regions differs between the two memories. */
  ghost predicate AllKept(m: Mem, m': Mem, regions: set<Region>) {
    forall r | r in regions :: SameBytes(m, m', r)
  }

  lemma Parts(m: Mem, rs: Tiling, index: seq<int>, lo: int, hi: int)
    requires HeapOk(m, rs, index, lo, hi)
    ensures 0 < lo <= hi <= |m| < 0x1_0000_0000 && rs != []
    ensures Tiles(rs, lo, hi) && NoAdjacentHoles(rs) && Indexed(index, rs) && Tagged(m, rs)
  {
    TilesBounds(rs, lo, hi);
  }

  lemma TagsFrame(m: Mem, m': Mem, r: Region)
    requires SameBytes(m, m', r) && r.size >= MIN_REGION
    requires HeaderOk(m, r)
    ensures HeaderOk(m', r)
    ensures FooterOk(m, r) ==> FooterOk(m', r)
  {}

  /** The bytes of a region in a part of the tiling that a write left alone. */
  lemma OutsideFrame(m: Mem, m': Mem, part: Tiling, p: int, q: int, x: int, y: int)
    requires Tiles(part, p, q) && (q <= x || y <= p)
    requires SameOutside(m, m', x, y)
    ensures forall r | r in part :: SameBytes(m, m', r) && r.size >= MIN_REGION
  {
    TilesBounds(part, p, q);
  }

  /** Replace the middle part `was` of a tiling by `now`. Memory changes only where the two lie. */
  lemma SpliceTags(m: Mem, m': Mem, a: Tiling, was: Tiling, now: Tiling, b: Tiling,
                   lo: int, hi: int, x: int, y: int, y': int)
    requires Tiles(a, lo, x) && Tiles(was, x, y) && Tiles(b, y, hi) && Tagged(m, a + was + b)
    requires Tiles(now, x, y') && FullyTagged(m', now)
    requires b != [] ==> y' == y
    requires was + b == [] ==> !EndsInHole(a)
    requires SameOutside(m, m', x, if y < y' then y' else y)
    ensures Tagged(m', a + now + b)
    ensures |m| == |m'| && forall r | r in a || r in b :: SameBytes(m, m', r)
  {
    var z := if y < y' then y' else y;
    if b == [] { assert Tiles(b, z, z); }
    OutsideFrame(m, m', a, lo, x, x, z);
    OutsideFrame(m, m', b, if b == [] then z else y, if b == [] then z else hi, x, z);
    var rs, rs' := a + was + b, a + now + b;
    forall i | 0 <= i < |rs'|
      ensures HeaderOk(m', rs'[i]) && (FooterOk(m', rs'[i]) || (i == |rs'| - 1 && rs'[i].hole))
    {
      if i < |a| {
        assert rs'[i] == a[i] == rs[i];
        TagsFrame(m, m', a[i]);
      } else if i < |a| + |now| {
        assert rs'[i] == now[i - |a|];
      } else {
        var j := i - |now| + |was|;
        assert rs'[i] == b[i - |a| - |now|] == rs[j];
        TagsFrame(m, m', rs[j]);
      }
    }
  }

  lemma SpliceTiles(a: Tiling, now: Tiling, b: Tiling, lo: int, hi: int, x: int, y: int, y': int)
    requires Tiles(a, lo, x) && Tiles(now, x, y') && Tiles(b, y, hi)
    requires b != [] ==> y' == y
    ensures Tiles(a + now + b, lo, if b == [] then y' else hi)
  {
    TilesTotal(a, lo, x);
    TilesTotal(now, x, y');
    TotalSplit(a, now);
    TilesSplit(a, now, lo, y');
    TilesSplit(a + now, b, lo, if b == [] then y' else hi);
  }

  lemma HolesMultiset(a: Tiling, mid: Tiling, b: Tiling)
    ensures multiset(HoleAddrs(a + mid + b)) ==
            multiset(HoleAddrs(a)) + multiset(HoleAddrs(mid)) + multiset(HoleAddrs(b))
  {
    HolesSplit(a + mid, b);
    HolesSplit(a, mid);
  }

  lemma Exchange(before: multiset<int>, after: multiset<int>, a: multiset<int>,
                 was: multiset<int>, now: multiset<int>, b: multiset<int>)
    requires before == a + was + b && after + was == before + now
    ensures after == a + now + b
  {
    forall x ensures after[x] == (a + now + b)[x] {
      assert (after + was)[x] == (before + now)[x];
    }
  }

  lemma SpliceIndex(index: seq<int>, index': seq<int>, a: Tiling, was: Tiling, now: Tiling, b: Tiling)
    requires Indexed(index, a + was + b)
    requires multiset(index') + multiset(HoleAddrs(was)) == multiset(index) + multiset(HoleAddrs(now))
    ensures Indexed(index', a + now + b)
  {
    HolesMultiset(a, was, b);
    HolesMultiset(a, now, b);
    Exchange(multiset(index), multiset(index'), multiset(HoleAddrs(a)),
             multiset(HoleAddrs(was)), multiset(HoleAddrs(now)), multiset(HoleAddrs(b)));
  }

  lemma SpliceHoles(a: Tiling, was: Tiling, now: Tiling, b: Tiling)
    requires NoAdjacentHoles(a + was + b) && NoAdjacentHoles(now)
    requires StartsWithHole(now) ==> !EndsInHole(a)
    requires EndsInHole(now) ==> !StartsWithHole(b)
    requires now == [] ==> b == []
    ensures NoAdjacentHoles(a + now + b)
  {
    NoAdjacentSplit(a + was, b); NoAdjacentSplit(a, was);
    NoAdjacentSplit(a + now, b); NoAdjacentSplit(a, now);
  }

  /** The whole invariant across a splice, and what happens to the live blocks. */
  lemma SpliceOk(m: Mem, m': Mem, a: Tiling, was: Tiling, now: Tiling, b: Tiling,
                 index: seq<int>, index': seq<int>, lo: int, hi: int, x: int, y: int, y': int)
    requires HeapOk(m, a + was + b, index, lo, hi)
    requires Tiles(a, lo, x) && Tiles(was, x, y) && Tiles(b, y, hi)
    requires Tiles(now, x, y') && FullyTagged(m', now) && y' <= |m'|
    requires b != [] ==> y' == y
    requires was + b == [] ==> !EndsInHole(a)
    requires SameOutside(m, m', x, if y < y' then y' else y)
    requires multiset(index') + multiset(HoleAddrs(was)) == multiset(index) + multiset(HoleAddrs(now))
    requires NoAdjacentHoles(now) && (now == [] ==> b == [] && a != [])
    requires StartsWithHole(now) ==> !EndsInHole(a)
    requires EndsInHole(now) ==> !StartsWithHole(b)
    ensures HeapOk(m', a + now + b, index', lo, if b == [] then y' else hi)
    ensures Live(a + now + b) == Live(a) + Live(now) + Live(b)
    ensures AllKept(m, m', Live(a) + Live(b))
  {
    hide *;
    Parts(m, a + was + b, index, lo, hi);
    SpliceTags(m, m', a, was, now, b, lo, hi, x, y, y');
    SpliceIndex(index, index', a, was, now, b);
    SpliceHoles(a, was, now, b);
    SpliceTiles(a, now, b, lo, hi, x, y, y');
    LiveSplit(a + now, b);
    LiveSplit(a, now);
    KeptFrom(m, m', a, b);
    Together(m', a, now, b, index', lo, if b == [] then y' else hi);
  }

  lemma KeptFrom(m: Mem, m': Mem, a: Tiling, b: Tiling)
    requires forall r | r in a || r in b :: SameBytes(m, m', r)
    ensures AllKept(m, m', Live(a) + Live(b))
  {}

  lemma Together(m: Mem, a: Tiling, now: Tiling, b: Tiling, index: seq<int>, lo: int, hi: int)
    requires a + now + b != [] && 0 < lo && hi <= |m| < 0x1_0000_0000
    requires var rs := a + now + b;
             Tiles(rs, lo, hi) && Tagged(m, rs) && NoAdjacentHoles(rs) && Indexed(index, rs)
    ensures HeapOk(m, a + now + b, index, lo, hi)
  {}
}
