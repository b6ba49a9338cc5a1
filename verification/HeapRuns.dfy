/** Whole runs of requests to the heap, with stores into the blocks it has handed out. */
module HeapRuns {
  import opened Memory
  import opened Regions
  import opened HeapInvariant
  import opened HeapFacts
  import opened HeapSizes
  import opened OrderedArrays
  import opened KernelHeap

  /** The blocks of a tiling, in address order. */
  ghost function Blocks(rs: Tiling): seq<Region> {
    if rs == [] then [] else (if rs[0].hole then [] else [rs[0]]) + Blocks(rs[1..])
  }

  /** There is at most one hole more than there are blocks, as no two holes are neighbours. */
  lemma {:induction false} HolesAndBlocks(rs: Tiling)
    requires NoAdjacentHoles(rs)
    ensures |HoleAddrs(rs)| <= |Blocks(rs)| + if StartsWithHole(rs) then 1 else 0
  {
    if rs != [] {
      assert rs == [rs[0]] + rs[1..];
      NoAdjacentSplit([rs[0]], rs[1..]);
      HolesAndBlocks(rs[1..]);
    }
  }

  lemma {:induction false} BlocksAreLive(rs: Tiling, lo: int, hi: int)
    requires Tiles(rs, lo, hi)
    ensures |Blocks(rs)| == |Live(rs)|
  {
    if rs == [] {
      assert Live(rs) == {};
    } else {
      assert rs == [rs[0]] + rs[1..];
      BlocksAreLive(rs[1..], rs[0].End(), hi);
      LiveSplit([rs[0]], rs[1..]);
      TilesBounds(rs[1..], rs[0].End(), hi);
      assert Live([rs[0]]) == if rs[0].hole then {} else {rs[0]};
    }
  }

  /** So the index never holds more than one entry over the number of live blocks. */
  lemma IndexIsSmall(m: Mem, rs: Tiling, index: seq<int>, lo: int, hi: int)
    requires HeapOk(m, rs, index, lo, hi)
    ensures |index| <= |Live(rs)| + 1
  {
    hide Tiles, NoAdjacentHoles, Live, Blocks, HoleAddrs;
    HolesAndBlocks(rs);
    BlocksAreLive(rs, lo, hi);
    assert |multiset(index)| == |multiset(HoleAddrs(rs))|;
  }

  /** Take asks for a block; Give frees the block that an earlier Take got; Store writes a byte of its payload. */
  datatype Request = Take(size: nat, pageAlign: bool) | Give(which: nat) | Store(which: nat, offset: nat, value: Byte)

  ghost function Those(held: map<nat, Region>): set<Region> {
    set i | i in held :: held[i]
  }

  /** Request number k got this block. */
  ghost predicate Got(requests: seq<Request>, k: nat, block: Region) {
    && k < |requests| && requests[k].Take?
    && block.Payload() + requests[k].size <= block.PayloadEnd() < block.Payload() + requests[k].size + MIN_REGION
    && (requests[k].pageAlign ==> block.Payload() % PAGE_SIZE == 0)
  }

  /** The block of each Take that is still held is live, big enough and aligned, and no two share a byte. */
  ghost predicate Held(requests: seq<Request>, held: map<nat, Region>, rs: Tiling, others: set<Region>) {
    && Live(rs) == others + Those(held)
    && Those(held) !! others
    && (forall i | i in held :: Got(requests, i, held[i]))
    && (forall i, j | i in held && j in held && i != j :: held[i] != held[j])
  }

  /** Which requests hold a block after a run with these answers, 0 standing for no block. */
  function Holders(requests: seq<Request>, answers: seq<int>): (h: set<nat>)
    requires |requests| == |answers|
    ensures forall i | i in h :: i < |requests| && requests[i].Take?
  {
    if requests == [] then {}
    else
      var k := |requests| - 1;
      var before := Holders(requests[..k], answers[..k]);
      match requests[k]
      case Take(_, _) => if answers[k] != 0 then before + {k} else before
      case Give(i) => before - {i}
      case Store(_, _, _) => before
  }

  /** The last byte that the run stored at each offset of each block it holds. A store elsewhere is not one. */
  function Stored(requests: seq<Request>, answers: seq<int>): map<(nat, nat), Byte>
    requires |requests| == |answers|
  {
    if requests == [] then map[]
    else
      var k := |requests| - 1;
      var before := Stored(requests[..k], answers[..k]);
      match requests[k]
      case Take(_, _) => before
      case Give(i) => map p | p in before && p.0 != i :: before[p]
      case Store(i, o, v) =>
        if i in Holders(requests[..k], answers[..k]) && o < requests[i].size then before[(i, o) := v] else before
  }

  /** Each of these bytes is in its block. */
  ghost predicate ReadsBack(m: Mem, held: map<nat, Region>, stored: map<(nat, nat), Byte>) {
    forall p | p in stored :: p.0 in held && ByteIs(m, held[p.0], p.1, stored[p])
  }

  ghost predicate ByteIs(m: Mem, r: Region, offset: nat, v: Byte) {
    r.Payload() + offset < r.PayloadEnd() && 0 <= r.addr && r.Payload() + offset < |m| && m[r.Payload() + offset] == v
  }

  lemma OnlyOne(m: Mem, rs: Tiling, index: seq<int>, lo: int, hi: int, r: Region)
    requires HeapOk(m, rs, index, lo, hi) && r in Live(rs)
    ensures (set q | q in Live(rs) && q.Payload() != r.Payload()) == Live(rs) - {r}
    ensures r.Payload() > 0
  {
    TilesBounds(rs, lo, hi);
    forall q | q in Live(rs) && q.Payload() == r.Payload() ensures q == r { OverlapIsEqual(rs, q, r, lo, hi); }
  }

  lemma SamePayload(m: Mem, rs: Tiling, index: seq<int>, lo: int, hi: int, r: Region, j: nat)
    requires HeapOk(m, rs, index, lo, hi) && r in Live(rs) && j < |rs| && !rs[j].hole && rs[j].Payload() == r.Payload()
    ensures rs[j] == r
  {
    assert rs[j] in Live(rs);
    TilesBounds(rs, lo, hi);
    OverlapIsEqual(rs, rs[j], r, lo, hi);
  }

  lemma HeldMore(requests: seq<Request>, k: nat, held: map<nat, Region>, rs: Tiling, rs': Tiling, others: set<Region>,
                 block: Region)
    requires k < |requests| && Held(requests[..k], held, rs, others) && Got(requests, k, block)
    requires Live(rs') == Live(rs) + {block} && block !in Live(rs)
    ensures Held(requests[..k + 1], held[k := block], rs', others) && k !in held
    ensures |held[k := block]| == |held| + 1
  {
    hide Live;
    var now := held[k := block];
    assert k !in held;
    forall b ensures b in Those(now) <==> b in Those(held) + {block} {
      if b in Those(held) { var i :| i in held && held[i] == b; assert now[i] == b; }
      if b == block { assert now[k] == b; }
    }
    assert Those(now) == Those(held) + {block};
  }

  lemma HeldLess(requests: seq<Request>, k: nat, held: map<nat, Region>, rs: Tiling, rs': Tiling, others: set<Region>,
                 i: nat)
    requires k < |requests| && Held(requests[..k], held, rs, others) && i in held
    requires Live(rs') == Live(rs) - {held[i]}
    ensures Held(requests[..k + 1], held - {i}, rs', others)
    ensures |held - {i}| == |held| - 1
  {
    hide Live;
    var now := held - {i};
    assert held == now[i := held[i]];
    forall b ensures b in Those(now) <==> b in Those(held) - {held[i]} {
      if b in Those(held) - {held[i]} { var j :| j in held && held[j] == b; assert j in now && now[j] == b; }
    }
    assert Those(now) == Those(held) - {held[i]};
  }

  lemma HeldSame(requests: seq<Request>, k: nat, held: map<nat, Region>, rs: Tiling, rs': Tiling, others: set<Region>)
    requires k < |requests| && Held(requests[..k], held, rs, others) && Live(rs') == Live(rs)
    ensures Held(requests[..k + 1], held, rs', others)
  {}

  lemma HeldLive(requests: seq<Request>, held: map<nat, Region>, rs: Tiling, others: set<Region>)
    requires Held(requests, held, rs, others)
    ensures others <= Live(rs)
    ensures forall i | i in held :: held[i] in Live(rs) && held[i] !in others && Got(requests, i, held[i])
    ensures forall i, j | i in held && j in held && i != j :: held[i] != held[j]
  {}

  lemma NothingHeld(rs: Tiling)
    ensures Held([], map[], rs, Live(rs))
  {}

  lemma KeptFewer(m: Mem, m': Mem, some: set<Region>, all: set<Region>)
    requires AllKept(m, m', all) && some <= all
    ensures AllKept(m, m', some)
  {}

  /** Bytes read back as before from blocks that were kept. */
  lemma KeptReads(m: Mem, m': Mem, held: map<nat, Region>, now: map<nat, Region>, stored: map<(nat, nat), Byte>,
                  live: set<Region>)
    requires ReadsBack(m, held, stored) && AllKept(m, m', live)
    requires forall p | p in stored :: p.0 in now && now[p.0] == held[p.0] && held[p.0] in live
    ensures ReadsBack(m', now, stored)
  {
    forall p | p in stored ensures ByteIs(m', now[p.0], p.1, stored[p]) {
      assert SameBytes(m, m', held[p.0]);
    }
  }

  /** A byte stored in one block, and those stored before. */
  lemma StoreReads(m: Mem, held: map<nat, Region>, stored: map<(nat, nat), Byte>, i: nat, o: nat, v: Byte,
                   others: set<Region>)
    requires ReadsBack(m, held, stored) && i in held && 0 <= held[i].addr
    requires held[i].Payload() + o < held[i].PayloadEnd() && held[i].Payload() + o < |m|
    requires var m' := m[held[i].Payload() + o := v];
      AllKept(m, m', others) && forall j | j in held && j != i :: held[j] in others
    ensures ReadsBack(m[held[i].Payload() + o := v], held, stored[(i, o) := v])
  {
    var m' := m[held[i].Payload() + o := v];
    var now := stored[(i, o) := v];
    forall p | p in now ensures p.0 in held && ByteIs(m', held[p.0], p.1, now[p]) {
      if p.0 != i { assert SameBytes(m, m', held[p.0]); }
    }
  }

  /** The heap in the middle of a run, from memory m0 on. */
  ghost predicate Running(h: Heap, requests: seq<Request>, k: nat, held: map<nat, Region>,
                          stored: map<(nat, nat), Byte>, others: set<Region>, m0: Mem)
    reads h, h.index, h.index.slots
  {
    && h.Valid() && k <= |requests| && |Live(h.regions)| == |others| + |held|
    && Held(requests[..k], held, h.regions, others)
    && ReadsBack(h.mem, held, stored)
    && AllKept(m0, h.mem, others)
  }

  // ---------------------------------------------------------------- what each request does

  /** The heap between two requests: its tiling, its end, and the blocks that the run holds. */
  datatype Moment = Moment(regions: Tiling, end: int, held: map<nat, Region>)

  /** After these requests and answers the run holds these blocks, beside the others that were live before it. */
  ghost predicate Momentary(m: Moment, requests: seq<Request>, answers: seq<int>, others: set<Region>, start: int,
                            max: int)
  {
    && |requests| == |answers|
    && Tiles(m.regions, start, m.end) && NoAdjacentHoles(m.regions) && m.end <= max
    && m.held.Keys == Holders(requests, answers)
    && (forall i | i in m.held :: i < |answers| && answers[i] == m.held[i].Payload())
    && Held(requests, m.held, m.regions, others)
  }

  /** How far the heap must grow for a request. */
  ghost function Needed(m: Moment, size: nat, pageAlign: bool): nat {
    Growth(m.regions, m.end, size + MIN_REGION, pageAlign)
  }

  /** What request k does to the heap, and its answer. A Take gets a block exactly when there is room left and the
      growth it needs goes up to max at most, and then the heap grows by just that; a panic may leave it grown part of
      the way. A Give lets the heap contract. Nothing else moves its end or adds or removes a block. */
  ghost predicate Served(request: Request, k: nat, answer: int, room: nat, start: int, max: int, m: Moment,
                         m': Moment)
  {
    match request
    case Take(size, pageAlign) =>
      && (answer != 0 <==> |m.held| < room && m.end + Needed(m, size, pageAlign) <= max)
      && (if answer != 0
          then m'.end == m.end + Needed(m, size, pageAlign) && k in m'.held && m'.held == m.held[k := m'.held[k]]
          else m'.held == m.held && m.end <= m'.end && (m' == m || |m.held| < room))
    case Give(i) =>
      if i in m.held then m'.held == m.held - {i} && EndsAfter(m, m.held[i], start, m'.end) else m' == m
    case Store(_, _, _) => m' == m
  }

  /** The end of the heap once this block is freed. */
  ghost predicate EndsAfter(m: Moment, block: Region, start: int, end: int) {
    exists j: nat | j < |m.regions| :: m.regions[j] == block && EndsLow(m.regions, j, start, m.end, end)
  }

  /** A run from the first of these moments to the last one. */
  ghost predicate Traced(requests: seq<Request>, answers: seq<int>, moments: seq<Moment>, room: nat, start: int,
                         max: int, others: set<Region>)
  {
    && |answers| <= |requests| && |moments| == |answers| + 1
    && (forall k | 0 <= k <= |answers| :: Momentary(moments[k], requests[..k], answers[..k], others, start, max))
    && (forall k | 0 <= k < |answers| ::
          Served(requests[k], k, answers[k], room, start, max, moments[k], moments[k + 1]))
  }

  lemma OneMoreServed(requests: seq<Request>, answers: seq<int>, answer: int, moments: seq<Moment>, m: Moment,
                      room: nat, start: int, max: int, others: set<Region>)
    requires Traced(requests, answers, moments, room, start, max, others) && |answers| < |requests|
    requires Served(requests[|answers|], |answers|, answer, room, start, max, moments[|answers|], m)
    requires Momentary(m, requests[..|answers| + 1], answers + [answer], others, start, max)
    ensures Traced(requests, answers + [answer], moments + [m], room, start, max, others)
  {
    hide Momentary, Served;
    var after := answers + [answer];
    forall k | 0 <= k <= |after| ensures Momentary((moments + [m])[k], requests[..k], after[..k], others, start, max) {
      if k <= |answers| { assert after[..k] == answers[..k]; } else { assert after[..k] == after; }
    }
  }

  /** So as long as there is room and max is three steps of growth away, or one if the block need not be aligned,
      every Take gets a block. */
  lemma TakeIsServed(requests: seq<Request>, answers: seq<int>, moments: seq<Moment>, room: nat, start: int, max: int,
                     others: set<Region>, k: nat)
    requires Traced(requests, answers, moments, room, start, max, others) && k < |answers| && requests[k].Take?
    requires |moments[k].held| < room
    requires var steps := if requests[k].pageAlign then 3 else 1;
             moments[k].end + steps * RoundUpPage(requests[k].size + MIN_REGION) <= max
    ensures answers[k] != 0
  {
    assert Served(requests[k], k, answers[k], room, start, max, moments[k], moments[k + 1]);
    var m := moments[k];
    assert Momentary(m, requests[..k], answers[..k], others, start, max);
    LastHoleSize(m.regions, start, m.end);
    GrowthAtMost(m.regions, m.end, requests[k].size + MIN_REGION, requests[k].pageAlign);
  }

  /** alloc, with 0 for a panic. */
  method TakeBlock(h: Heap, size: nat, pageAlign: bool) returns (answer: int, ghost block: Region)
    requires h.Valid() && |Live(h.regions)| + 3 <= h.index.maxSize
    modifies h, h.index, h.index.slots
    ensures h.Valid() && AllKept(old(h.mem), h.mem, old(Live(h.regions)))
    ensures var growth := Growth(old(h.regions), old(h.end), size + MIN_REGION, pageAlign);
      && (answer != 0 <==> old(h.end) + growth <= h.max)
      && (if answer != 0 then h.end == old(h.end) + growth else old(h.end) <= h.end)
    ensures answer == 0 ==> Live(h.regions) == old(Live(h.regions))
    ensures answer != 0 ==>
              && Live(h.regions) == old(Live(h.regions)) + {block} && block !in old(Live(h.regions))
              && answer == block.Payload() && answer + size <= block.PayloadEnd() < answer + size + MIN_REGION
              && (pageAlign ==> answer % PAGE_SIZE == 0)
  {
    hide HeapOk, AllKept, Live, Backed, Growth, RoundUpPage, Fits;
    IndexIsSmall(h.mem, h.regions, h.index.Contents(), h.start, h.end);
    var r;
    r, block := h.Alloc(size, pageAlign);
    answer := 0;
    if r.Allocated? {
      OnlyOne(h.mem, h.regions, h.index.Contents(), h.start, h.end, block);
      answer := r.p;
    }
  }

  lemma StoredAreHeld(m: Mem, held: map<nat, Region>, stored: map<(nat, nat), Byte>)
    requires ReadsBack(m, held, stored)
    ensures forall p | p in stored :: p.0 in held
  {}

  lemma TakenHeld(requests: seq<Request>, k: nat, held: map<nat, Region>, stored: map<(nat, nat), Byte>, rs: Tiling,
                  rs': Tiling, others: set<Region>, block: Region, m: Mem, m': Mem)
    requires k < |requests| && Held(requests[..k], held, rs, others) && requests[k].Take?
    requires Live(rs') == Live(rs) + {block} && block !in Live(rs)
    requires block.Payload() + requests[k].size <= block.PayloadEnd() < block.Payload() + requests[k].size + MIN_REGION
    requires requests[k].pageAlign ==> block.Payload() % PAGE_SIZE == 0
    requires ReadsBack(m, held, stored) && AllKept(m, m', Live(rs))
    ensures Held(requests[..k + 1], held[k := block], rs', others) && |held[k := block]| == |held| + 1
    ensures ReadsBack(m', held[k := block], stored)
  {
    hide AllKept, Live, Held, ReadsBack;
    assert Got(requests, k, block);
    HeldMore(requests, k, held, rs, rs', others, block);
    HeldLive(requests[..k], held, rs, others);
    StoredAreHeld(m, held, stored);
    KeptReads(m, m', held, held[k := block], stored, Live(rs));
  }

  lemma NothingTaken(requests: seq<Request>, k: nat, held: map<nat, Region>, stored: map<(nat, nat), Byte>, rs: Tiling,
                     rs': Tiling, others: set<Region>, m: Mem, m': Mem)
    requires k < |requests| && Held(requests[..k], held, rs, others) && Live(rs') == Live(rs)
    requires ReadsBack(m, held, stored) && AllKept(m, m', Live(rs))
    ensures Held(requests[..k + 1], held, rs', others) && ReadsBack(m', held, stored)
  {
    hide AllKept, Live, Held, ReadsBack;
    HeldSame(requests, k, held, rs, rs', others);
    HeldLive(requests[..k], held, rs, others);
    StoredAreHeld(m, held, stored);
    KeptReads(m, m', held, held, stored, Live(rs));
  }

  lemma ServedTake(size: nat, pageAlign: bool, k: nat, answer: int, block: Region, room: nat, start: int, max: int,
                   rs: Tiling, hi: int, rs': Tiling, hi': int, held: map<nat, Region>)
    requires |held| < room
    requires answer != 0 <==> hi + Growth(rs, hi, size + MIN_REGION, pageAlign) <= max
    requires if answer != 0 then hi' == hi + Growth(rs, hi, size + MIN_REGION, pageAlign) else hi <= hi'
    ensures Served(Take(size, pageAlign), k, answer, room, start, max, Moment(rs, hi, held),
                   Moment(rs', hi', if answer != 0 then held[k := block] else held))
  {
    hide Growth;
  }

  method ServeTake(h: Heap, requests: seq<Request>, k: nat, room: nat, ghost held: map<nat, Region>,
                   ghost stored: map<(nat, nat), Byte>, ghost others: set<Region>, ghost m0: Mem)
    returns (answer: int, ghost now: map<nat, Region>)
    requires Running(h, requests, k, held, stored, others, m0) && k < |requests| && requests[k].Take?
    requires |others| + |held| + 3 <= h.index.maxSize && |held| < room
    modifies h, h.index, h.index.slots
    ensures Running(h, requests, k + 1, now, stored, others, m0)
    ensures if answer == 0 then now == held
            else k in now && now == held[k := now[k]] && now[k].Payload() == answer && |now| == |held| + 1
    ensures Served(requests[k], k, answer, room, h.start, h.max, Moment(old(h.regions), old(h.end), held),
                   Moment(h.regions, h.end, now))
  {
    hide Heap.Valid, Region.Payload, Needed, AllKept, Live, Held, Holders, Got, ReadsBack, Growth, Served;
    ghost var m, rs, hi := h.mem, h.regions, h.end;
    HeldLive(requests[..k], held, rs, others);
    ghost var block;
    answer, block := TakeBlock(h, requests[k].size, requests[k].pageAlign);
    KeptFewer(m, h.mem, others, Live(rs));
    KeptTwice(m0, m, h.mem, others);
    if answer != 0 {
      TakenHeld(requests, k, held, stored, rs, h.regions, others, block, m, h.mem);
      now := held[k := block];
    } else {
      NothingTaken(requests, k, held, stored, rs, h.regions, others, m, h.mem);
      now := held;
    }
    ServedTake(requests[k].size, requests[k].pageAlign, k, answer, block, room, h.start, h.max, rs, hi,
               h.regions, h.end, held);
  }

  lemma ServedGive(i: nat, k: nat, j: nat, room: nat, start: int, max: int, rs: Tiling, hi: int, rs': Tiling, hi': int,
                   held: map<nat, Region>)
    requires i in held && j < |rs| && rs[j] == held[i] && EndsLow(rs, j, start, hi, hi')
    ensures Served(Give(i), k, 0, room, start, max, Moment(rs, hi, held), Moment(rs', hi', held - {i}))
  {
    hide EndsLow;
  }

  lemma ServedNone(request: Request, k: nat, room: nat, start: int, max: int, rs: Tiling, hi: int,
                   held: map<nat, Region>)
    requires request.Take? ==> |held| >= room
    requires request.Give? ==> request.which !in held
    ensures Served(request, k, 0, room, start, max, Moment(rs, hi, held), Moment(rs, hi, held))
  {
    hide EndsAfter, Growth;
  }

  method ServeGive(h: Heap, requests: seq<Request>, k: nat, room: nat, i: nat, p: int, ghost held: map<nat, Region>,
                   ghost stored: map<(nat, nat), Byte>, ghost others: set<Region>, ghost m0: Mem)
    requires Running(h, requests, k, held, stored, others, m0) && k < |requests| && requests[k] == Give(i)
    requires i in held && held[i].Payload() == p && |others| + |held| + 2 <= h.index.maxSize
    modifies h, h.index, h.index.slots
    ensures Running(h, requests, k + 1, held - {i}, Forget(stored, i), others, m0)
    ensures |held - {i}| == |held| - 1
    ensures Served(requests[k], k, 0, room, h.start, h.max, Moment(old(h.regions), old(h.end), held),
                   Moment(h.regions, h.end, held - {i}))
  {
    hide EndsLow, HeapOk, AllKept, Live, Backed, Held, ReadsBack, Served;
    ghost var m, rs, entries, hi := h.mem, h.regions, h.index.Contents(), h.end;
    IndexIsSmall(m, rs, entries, h.start, h.end);
    HeldLive(requests[..k], held, rs, others);
    OnlyOne(m, rs, entries, h.start, h.end, held[i]);
    ghost var j := h.Free(p);
    SamePayload(m, rs, entries, h.start, hi, held[i], j);
    assert rs[j] == held[i];
    HeldLess(requests, k, held, rs, h.regions, others, i);
    assert others <= Live(h.regions);
    StoredAreHeld(m, held, stored);
    FewerRead(m, held, stored, i);
    KeptReads(m, h.mem, held, held - {i}, Forget(stored, i), Live(h.regions));
    KeptFewer(m, h.mem, others, Live(h.regions));
    KeptTwice(m0, m, h.mem, others);
    ServedGive(i, k, j, room, h.start, h.max, rs, hi, h.regions, h.end, held);
  }

  function Forget(stored: map<(nat, nat), Byte>, i: nat): map<(nat, nat), Byte> {
    map p | p in stored && p.0 != i :: stored[p]
  }

  lemma FewerRead(m: Mem, held: map<nat, Region>, stored: map<(nat, nat), Byte>, i: nat)
    requires ReadsBack(m, held, stored)
    ensures ReadsBack(m, held, Forget(stored, i))
  {}

  /** The program writes a byte of a block it holds. */
  method ServeStore(h: Heap, requests: seq<Request>, k: nat, i: nat, o: nat, v: Byte, p: int,
                    ghost held: map<nat, Region>, ghost stored: map<(nat, nat), Byte>, ghost others: set<Region>,
                    ghost m0: Mem)
    requires Running(h, requests, k, held, stored, others, m0) && k < |requests|
    requires i in held && held[i].Payload() == p && i < k && requests[i].Take? && o < requests[i].size
    modifies h`mem
    ensures Running(h, requests, k + 1, held, stored[(i, o) := v], others, m0)
  {
    hide HeapOk, AllKept, Live, Backed, Held, ReadsBack;
    ghost var m, rs := h.mem, h.regions;
    HeldLive(requests[..k], held, rs, others);
    OnlyOne(m, rs, h.index.Contents(), h.start, h.end, held[i]);
    StoreOk(m, rs, h.index.Contents(), h.start, h.end, held[i], p + o, v);
    h.mem := h.mem[p + o := v];
    BlockAddress(m, rs, h.index.Contents(), h.start, h.end, held[i]);
    StoreReads(m, held, stored, i, o, v, Live(rs) - {held[i]});
    HeldSame(requests, k, held, rs, h.regions, others);
    KeptFewer(m, h.mem, others, Live(rs) - {held[i]});
    KeptTwice(m0, m, h.mem, others);
  }

  lemma BlockAddress(m: Mem, rs: Tiling, index: seq<int>, lo: int, hi: int, r: Region)
    requires HeapOk(m, rs, index, lo, hi) && r in Live(rs)
    ensures 0 < r.addr
  {
    TilesBounds(rs, lo, hi);
  }

  lemma ServeNone(h: Heap, requests: seq<Request>, k: nat, held: map<nat, Region>, stored: map<(nat, nat), Byte>,
                  others: set<Region>, m0: Mem)
    requires Running(h, requests, k, held, stored, others, m0) && k < |requests|
    ensures Running(h, requests, k + 1, held, stored, others, m0)
  {
    hide HeapOk, AllKept, Live, Held, ReadsBack;
    HeldSame(requests, k, held, h.regions, h.regions, others);
  }

  lemma OneAnswerMore(requests: seq<Request>, k: nat, answers: seq<int>, answer: int)
    requires k < |requests| && |answers| == k
    ensures var before, after := Holders(requests[..k], answers), Holders(requests[..k + 1], answers + [answer]);
            match requests[k]
            case Take(_, _) => after == if answer != 0 then before + {k} else before
            case Give(i) => after == before - {i}
            case Store(_, _, _) => after == before
    ensures var before, after := Stored(requests[..k], answers), Stored(requests[..k + 1], answers + [answer]);
            match requests[k]
            case Take(_, _) => after == before
            case Give(i) => after == Forget(before, i)
            case Store(i, o, v) =>
              after == if i in Holders(requests[..k], answers) && o < requests[i].size then before[(i, o) := v]
                       else before
  {
    assert requests[..k + 1][..k] == requests[..k] && (answers + [answer])[..k] == answers;
  }

  lemma NothingForgotten(stored: map<(nat, nat), Byte>, held: map<nat, Region>, m: Mem, i: nat)
    requires ReadsBack(m, held, stored) && i !in held
    ensures Forget(stored, i) == stored
  {}

  method Serve(h: Heap, requests: seq<Request>, answers: seq<int>, holders: set<nat>, room: nat,
               ghost held: map<nat, Region>, ghost others: set<Region>, ghost m0: Mem)
    returns (answer: int, holders': set<nat>, ghost held': map<nat, Region>)
    requires |answers| < |requests|
    requires Running(h, requests, |answers|, held, Stored(requests[..|answers|], answers), others, m0)
    requires |held| <= room && |others| + room + 2 <= h.index.maxSize
    requires holders == held.Keys == Holders(requests[..|answers|], answers)
    requires forall i | i in held :: i < |answers| && answers[i] == held[i].Payload()
    modifies h, h.index, h.index.slots
    ensures Running(h, requests, |answers| + 1, held', Stored(requests[..|answers| + 1], answers + [answer]),
                    others, m0)
    ensures holders' == held'.Keys == Holders(requests[..|answers| + 1], answers + [answer]) && |held'| <= room
    ensures forall i | i in held' :: i < |answers| + 1 && (answers + [answer])[i] == held'[i].Payload()
    ensures Served(requests[|answers|], |answers|, answer, room, h.start, h.max,
                   Moment(old(h.regions), old(h.end), held), Moment(h.regions, h.end, held'))
  {
    hide Running, Holders, Stored, Region.Payload, Forget, EndsAfter, Served;
    assert answers[..|answers|] == answers;
    var k := |answers|;
    ghost var stored := Stored(requests[..k], answers);
    answer, holders', held' := 0, holders, held;
    assert |holders| == |held|;
    if requests[k].Take? && |holders| < room {
      answer, held' := ServeTake(h, requests, k, room, held, stored, others, m0);
      if answer != 0 { holders' := holders + {k}; }
    } else if requests[k].Give? && requests[k].which in holders {
      var i := requests[k].which;
      ServeGive(h, requests, k, room, i, answers[i], held, stored, others, m0);
      held' := held - {i};
      holders' := holders - {i};
    } else if requests[k].Store? && requests[k].which in holders
              && requests[k].offset < requests[requests[k].which].size
    {
      var i := requests[k].which;
      ServeStore(h, requests, k, i, requests[k].offset, requests[k].value, answers[i], held, stored, others, m0);
      ServedNone(requests[k], k, room, h.start, h.max, h.regions, h.end, held);
    } else {
      if requests[k].Give? { NotHeld(h, requests, k, held, stored, others, m0, requests[k].which); }
      ServeNone(h, requests, k, held, stored, others, m0);
      ServedNone(requests[k], k, room, h.start, h.max, h.regions, h.end, held);
    }
    OneAnswerMore(requests, k, answers, answer);
  }

  lemma NotHeld(h: Heap, requests: seq<Request>, k: nat, held: map<nat, Region>, stored: map<(nat, nat), Byte>,
                others: set<Region>, m0: Mem, i: nat)
    requires Running(h, requests, k, held, stored, others, m0) && i !in held
    ensures Forget(stored, i) == stored
  {
    hide Forget;
    NothingForgotten(stored, held, h.mem, i);
  }

  lemma StartRunning(h: Heap, requests: seq<Request>)
    requires h.Valid()
    ensures Running(h, requests, 0, map[], Stored(requests[..0], []), Live(h.regions), h.mem)
    ensures Holders(requests[..0], []) == {}
  {
    hide HeapOk, AllKept, Live, Held;
    NothingHeld(h.regions);
    KeptSelf(h.mem, Live(h.regions));
    assert requests[..0] == [];
  }

  lemma MomentOf(h: Heap, requests: seq<Request>, k: nat, held: map<nat, Region>, stored: map<(nat, nat), Byte>,
                 others: set<Region>, m0: Mem, answers: seq<int>)
    requires Running(h, requests, k, held, stored, others, m0) && |answers| == k
    requires held.Keys == Holders(requests[..k], answers)
    requires forall i | i in held :: i < k && answers[i] == held[i].Payload()
    ensures Momentary(Moment(h.regions, h.end, held), requests[..k], answers, others, h.start, h.max)
  {
    hide AllKept, Live, Held, ReadsBack, Holders;
    Parts(h.mem, h.regions, h.index.Contents(), h.start, h.end);
  }

  /** Any run of requests that holds at most room blocks at once: exactly the blocks taken and not given back are live
      beside those that were live before, each reads back every byte last stored in it, and no byte of the blocks from
      before has changed. Each request, from the first moment of the run to the last, does what Served says of it. */
  method Run(h: Heap, requests: seq<Request>, room: nat)
    returns (answers: seq<int>, ghost held: map<nat, Region>, ghost moments: seq<Moment>)
    requires h.Valid() && |Live(h.regions)| + room + 2 <= h.index.maxSize
    modifies h, h.index, h.index.slots
    ensures h.Valid() && |answers| == |requests|
    ensures held.Keys == Holders(requests, answers) && forall i | i in held :: answers[i] == held[i].Payload()
    ensures Held(requests, held, h.regions, old(Live(h.regions)))
    ensures ReadsBack(h.mem, held, Stored(requests, answers))
    ensures Traced(requests, answers, moments, room, h.start, h.max, old(Live(h.regions)))
    ensures moments[0] == Moment(old(h.regions), old(h.end), map[])
    ensures moments[|requests|] == Moment(h.regions, h.end, held)
    ensures AllKept(old(h.mem), h.mem, old(Live(h.regions)))
  {
    hide HeapOk, AllKept, Live, Held, Holders, Stored, ReadsBack, Region.Payload, Served, Momentary;
    ghost var others, m0 := Live(h.regions), h.mem;
    StartRunning(h, requests);
    answers, held, moments := [], map[], [Moment(h.regions, h.end, map[])];
    MomentOf(h, requests, 0, held, Stored(requests[..0], []), others, m0, answers);
    var holders: set<nat> := {};
    while |answers| < |requests|
      invariant |answers| <= |requests|
      invariant Running(h, requests, |answers|, held, Stored(requests[..|answers|], answers), others, m0)
      invariant holders == held.Keys == Holders(requests[..|answers|], answers) && |held| <= room
      invariant forall i | i in held :: i < |answers| && answers[i] == held[i].Payload()
      invariant Traced(requests, answers, moments, room, h.start, h.max, others)
      invariant moments[0] == Moment(old(h.regions), old(h.end), map[])
      invariant moments[|answers|] == Moment(h.regions, h.end, held)
    {
      var answer;
      answer, holders, held := Serve(h, requests, answers, holders, room, held, others, m0);
      ghost var m := Moment(h.regions, h.end, held);
      MomentOf(h, requests, |answers| + 1, held, Stored(requests[..|answers| + 1], answers + [answer]), others, m0,
               answers + [answer]);
      OneMoreServed(requests, answers, answer, moments, m, room, h.start, h.max, others);
      answers, moments := answers + [answer], moments + [m];
    }
    assert requests[..|answers|] == requests;
  }
}
