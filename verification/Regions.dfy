/** The heap as a sequence of regions, independent of how memory records them. */
module Regions {
  import opened Memory

  /** A header, its payload and its footer: size bytes from addr. */
  datatype Region = Region(addr: int, size: int, hole: bool) {
    function End(): int { addr + size }
    function Payload(): int { addr + HEADER_SIZE }
    function PayloadEnd(): int { addr + size - FOOTER_SIZE }
  }

  type Tiling = seq<Region>

  /** rs covers [lo, hi) exactly: each region starts where the previous one ends. */
  ghost predicate Tiles(rs: Tiling, lo: int, hi: int) {
    if rs == [] then lo == hi
    else rs[0].addr == lo && rs[0].size >= MIN_REGION && Tiles(rs[1..], rs[0].End(), hi)
  }

  ghost function Total(rs: Tiling): int {
    if rs == [] then 0 else rs[0].size + Total(rs[1..])
  }

  lemma {:induction false} TilesSplit(a: Tiling, b: Tiling, lo: int, hi: int)
    ensures Tiles(a + b, lo, hi) <==> Tiles(a, lo, lo + Total(a)) && Tiles(b, lo + Total(a), hi)
  {
    if a == [] {
      assert a + b == b;
    } else {
      assert (a + b)[1..] == a[1..] + b;
      TilesSplit(a[1..], b, a[0].End(), hi);
    }
  }

  lemma {:induction false} TotalSplit(a: Tiling, b: Tiling)
    ensures Total(a + b) == Total(a) + Total(b)
  {
    if a == [] {
      assert a + b == b;
    } else {
      assert (a + b)[1..] == a[1..] + b;
      TotalSplit(a[1..], b);
    }
  }

  lemma {:induction false} TilesTotal(rs: Tiling, lo: int, hi: int)
    requires Tiles(rs, lo, hi)
    ensures hi == lo + Total(rs)
    ensures hi >= lo + |rs| * MIN_REGION
  {
    if rs != [] { TilesTotal(rs[1..], rs[0].End(), hi); }
  }

  /** Every region of a tiling lies inside the tiled range and is large enough for its tags. */
  lemma {:induction false} TilesBounds(rs: Tiling, lo: int, hi: int)
    requires Tiles(rs, lo, hi)
    ensures lo <= hi
    ensures forall r | r in rs :: lo <= r.addr && r.End() <= hi && r.size >= MIN_REGION
  {
    if rs != [] {
      TilesBounds(rs[1..], rs[0].End(), hi);
      forall r | r in rs ensures lo <= r.addr && r.End() <= hi && r.size >= MIN_REGION {
        if r != rs[0] { assert r in rs[1..]; }
      }
    }
  }

  /** Cutting a tiling at region k. */
  lemma TilesCut(rs: Tiling, k: nat, lo: int, hi: int)
    requires Tiles(rs, lo, hi) && k < |rs|
    ensures Tiles(rs[..k], lo, rs[k].addr) && Tiles(rs[k..], rs[k].addr, hi)
    ensures k == 0 ==> rs[k].addr == lo
  {
    assert rs == rs[..k] + rs[k..];
    TilesSplit(rs[..k], rs[k..], lo, hi);
  }

  /** Where region k and its two neighbours lie. */
  lemma TilesAt(rs: Tiling, k: nat, lo: int, hi: int)
    requires Tiles(rs, lo, hi) && k < |rs|
    ensures Tiles(rs[..k], lo, rs[k].addr) && Tiles(rs[k + 1..], rs[k].End(), hi)
    ensures rs[k].size >= MIN_REGION && lo <= rs[k].addr && rs[k].End() <= hi
    ensures k + 1 < |rs| ==> rs[k + 1].addr == rs[k].End()
    ensures k + 1 == |rs| ==> rs[k].End() == hi
    ensures k > 0 ==> rs[k - 1].End() == rs[k].addr && rs[k - 1].size >= MIN_REGION && lo <= rs[k - 1].addr
    ensures k == 0 ==> rs[k].addr == lo
  {
    TilesCut(rs, k, lo, hi);
    TilesBounds(rs[..k], lo, rs[k].addr);
    TilesBounds(rs[k..], rs[k].addr, hi);
    assert rs[k..][0] == rs[k] && rs[k..][1..] == rs[k + 1..];
    assert rs[k] in rs[k..];
    if k > 0 {
      TilesCut(rs[..k], k - 1, lo, rs[k].addr);
      assert rs[..k][k - 1..] == [rs[k - 1]];
      assert rs[k - 1] in rs[..k];
    }
  }

  /** Two different positions of a tiling never share a byte. */
  lemma TilesDisjoint(rs: Tiling, i: nat, j: nat, lo: int, hi: int)
    requires Tiles(rs, lo, hi) && i < j < |rs|
    ensures rs[i].End() <= rs[j].addr
    ensures rs[i].addr < rs[j].addr
  {
    TilesAt(rs, j, lo, hi);
    TilesBounds(rs[..j], lo, rs[j].addr);
    assert rs[i] in rs[..j];
  }

  /** Regions that overlap are the same region. */
  lemma OverlapIsEqual(rs: Tiling, r: Region, q: Region, lo: int, hi: int)
    requires Tiles(rs, lo, hi) && r in rs && q in rs
    requires r.addr < q.End() && q.addr < r.End()
    ensures r == q
  {
    var i :| 0 <= i < |rs| && rs[i] == r;
    var j :| 0 <= j < |rs| && rs[j] == q;
    if i < j { TilesDisjoint(rs, i, j, lo, hi); }
    if j < i { TilesDisjoint(rs, j, i, lo, hi); }
  }

  ghost function Live(rs: Tiling): set<Region> {
    set r | r in rs && !r.hole
  }

  lemma LiveSplit(a: Tiling, b: Tiling)
    ensures Live(a + b) == Live(a) + Live(b)
  {}

  /** The addresses of the holes, in address order. */
  ghost function HoleAddrs(rs: Tiling): seq<int> {
    if rs == [] then [] else (if rs[0].hole then [rs[0].addr] else []) + HoleAddrs(rs[1..])
  }

  lemma {:induction false} HolesSplit(a: Tiling, b: Tiling)
    ensures HoleAddrs(a + b) == HoleAddrs(a) + HoleAddrs(b)
  {
    if a == [] {
      assert a + b == b;
    } else {
      assert (a + b)[1..] == a[1..] + b;
      HolesSplit(a[1..], b);
    }
  }

  lemma {:induction false} HoleAddrsAre(rs: Tiling, x: int)
    ensures x in HoleAddrs(rs) <==> exists r :: r in rs && r.hole && r.addr == x
  {
    if rs != [] {
      HoleAddrsAre(rs[1..], x);
      if x in HoleAddrs(rs[1..]) {
        var r :| r in rs[1..] && r.hole && r.addr == x;
        assert r in rs;
      }
      if exists r :: r in rs && r.hole && r.addr == x {
        var r :| r in rs && r.hole && r.addr == x;
        assert r == rs[0] || r in rs[1..];
      }
    }
  }

  ghost predicate NoAdjacentHoles(rs: Tiling) {
    forall i | 0 <= i < |rs| - 1 :: !(rs[i].hole && rs[i + 1].hole)
  }

  ghost predicate EndsInHole(rs: Tiling) { rs != [] && rs[|rs| - 1].hole }

  ghost predicate StartsWithHole(rs: Tiling) { rs != [] && rs[0].hole }

  lemma NoAdjacentSplit(a: Tiling, b: Tiling)
    ensures NoAdjacentHoles(a + b) <==>
            NoAdjacentHoles(a) && NoAdjacentHoles(b) && !(EndsInHole(a) && StartsWithHole(b))
  {
    var rs := a + b;
    if NoAdjacentHoles(rs) {
      forall i | 0 <= i < |a| - 1 ensures !(a[i].hole && a[i + 1].hole) {
        assert rs[i] == a[i] && rs[i + 1] == a[i + 1];
      }
      forall i | 0 <= i < |b| - 1 ensures !(b[i].hole && b[i + 1].hole) {
        var j := |a| + i;
        assert rs[j] == b[i] && rs[j + 1] == b[i + 1];
      }
      if a != [] && b != [] {
        var j := |a| - 1;
        assert rs[j] == a[|a| - 1] && rs[j + 1] == b[0];
      }
    }
  }
}
