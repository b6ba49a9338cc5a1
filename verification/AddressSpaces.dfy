/** What a directory translates, what a clone of it translates, and what a write through either can reach. */
module AddressSpaces {
  import opened FrameBitmap
  import opened Paging

  const PAGES := ENTRIES * ENTRIES

  /** The entry for virtual page v; a page without a page table has a blank one. */
  function EntryOf(d: Directory, v: nat): Page
    requires v < PAGES && |d.tables| == ENTRIES
    reads d, d.tables[v / ENTRIES]
  {
    var t := d.tables[v / ENTRIES];
    if t == null || |t.pages| != ENTRIES then NO_PAGE else t.pages[v % ENTRIES]
  }

  /** The frame behind virtual page v, 0 when it has none. */
  function FrameOf(d: Directory, v: nat): nat
    requires v < PAGES && |d.tables| == ENTRIES
    reads d, d.tables[v / ENTRIES]
  {
    EntryOf(d, v).frame
  }

  /** Two virtual pages of any two address spaces are behind the same frame only when they are the same entry of
      the same page table. */
  lemma OneEntryPerFrame(p: Pager, a: Directory, b: Directory, v: nat, w: nat)
    requires p.Valid() && p.Registered(a) && p.Registered(b) && v < PAGES && w < PAGES
    requires FrameOf(a, v) != 0
    ensures FrameOf(a, v) == FrameOf(b, w)
            <==> a.tables[v / ENTRIES] == b.tables[w / ENTRIES] && v % ENTRIES == w % ENTRIES
  {}

  lemma FrameInUse(p: Pager, d: Directory, page: nat)
    requires p.Valid() && p.Registered(d) && page < PAGES && FrameOf(d, page) != 0
    ensures FrameOf(d, page) in p.UsedFrames()
  {
    hide Pager.Ledger;
    p.Known(d.tables[page / ENTRIES]);
  }

  ghost predicate Shared(o: Directory, kernel: Directory, v: nat)
    requires v < PAGES && |o.tables| == |kernel.tables| == ENTRIES
    reads o, kernel
  {
    o.tables[v / ENTRIES] == kernel.tables[v / ENTRIES]
  }

  /** The clone maps the pages that the original maps, to frames with the same words: to the same frame where the
      kernel's table is shared, and else to a frame that was free. */
  lemma CloneTranslates(o: Directory, kernel: Directory, c: Directory, m0: Physical, m: Physical, v: nat)
    requires Clone(o, kernel, c, false, m0, m) && Cloning(m0, m) && v < PAGES
    requires 0 in m0.used && FrameOf(o, v) in m0.used && FrameOf(o, v) < |m0.contents|
    ensures FrameOf(c, v) != 0 <==> FrameOf(o, v) != 0
    ensures FrameOf(o, v) != 0 ==> FrameOf(c, v) < |m.contents| == |m0.contents|
                                   && m.contents[FrameOf(c, v)] == m0.contents[FrameOf(o, v)]
    ensures FrameOf(o, v) != 0 ==>
              if Shared(o, kernel, v) then FrameOf(c, v) == FrameOf(o, v) else FrameOf(c, v) !in m0.used
  {
    assert TableCloned(o.tables[v / ENTRIES], kernel.tables[v / ENTRIES], c.tables[v / ENTRIES], false, m0, m);
  }

  /** With the guard of clone_table as written, the clone maps what a page table that is not the kernel's maps
      exactly when that is nothing. */
  lemma CloneAsWrittenTranslates(o: Directory, kernel: Directory, c: Directory, m0: Physical, m: Physical, i: nat)
    requires Clone(o, kernel, c, true, m0, m) && i < ENTRIES && 0 in m0.used
    requires o.tables[i] != null && o.tables[i] != kernel.tables[i]
    ensures (forall v: nat | v < PAGES && v / ENTRIES == i && FrameOf(o, v) != 0 :: FrameOf(c, v) != 0)
            <==> (forall v: nat | v < PAGES && v / ENTRIES == i :: FrameOf(o, v) == 0)
  {
    assert TableCloned(o.tables[i], kernel.tables[i], c.tables[i], true, m0, m);
    forall v: nat | v < PAGES && v / ENTRIES == i && FrameOf(o, v) != 0
      ensures FrameOf(c, v) == 0
    {
      assert !Copied(o.tables[i].pages[v % ENTRIES], true);
    }
  }

  /** One word written by a program to a virtual page. */
  datatype Write = Write(page: nat, word: nat, value: int)

  /** Physical memory after a run of writes through a directory. A write to a page without a frame faults. */
  ghost function AfterWrites(d: Directory, contents: seq<seq<int>>, ws: seq<Write>): (r: seq<seq<int>>)
    requires |d.tables| == ENTRIES
    reads d, d.tables
    ensures |r| == |contents|
  {
    if ws == [] then contents
    else
      var before, w := AfterWrites(d, contents, ws[..|ws| - 1]), ws[|ws| - 1];
      if w.page >= PAGES || FrameOf(d, w.page) == 0 || FrameOf(d, w.page) >= |contents| then before
      else if w.word >= |before[FrameOf(d, w.page)]| then before
      else before[FrameOf(d, w.page) := before[FrameOf(d, w.page)][w.word := w.value]]
  }

  lemma DifferentPages(d: Directory, u: nat, v: nat)
    requires Linked(d) && u < PAGES && v < PAGES && u != v && FrameOf(d, u) != 0
    ensures d.tables[u / ENTRIES] != d.tables[v / ENTRIES] || u % ENTRIES != v % ENTRIES
  {}

  /** What those writes make of the words of page v. */
  function OwnWrites(words: seq<int>, ws: seq<Write>, v: nat): seq<int> {
    if ws == [] then words
    else
      var before, w := OwnWrites(words, ws[..|ws| - 1], v), ws[|ws| - 1];
      if w.page == v && w.word < |before| then before[w.word := w.value] else before
  }

  /** A program reads back from a page that it has what it wrote there last, and nothing else has changed. */
  lemma {:induction false} WritesAreSeen(p: Pager, d: Directory, contents: seq<seq<int>>, ws: seq<Write>, v: nat)
    requires p.Valid() && p.Registered(d) && v < PAGES && FrameOf(d, v) != 0 && FrameOf(d, v) < |contents|
    ensures AfterWrites(d, contents, ws)[FrameOf(d, v)] == OwnWrites(contents[FrameOf(d, v)], ws, v)
  {
    hide Pager.Valid, FrameOf;
    if ws != [] {
      var w := ws[|ws| - 1];
      WritesAreSeen(p, d, contents, ws[..|ws| - 1], v);
      if w.page < PAGES && w.page != v && FrameOf(d, w.page) != 0 {
        OneEntryPerFrame(p, d, d, w.page, v);
        DifferentPages(d, w.page, v);
      }
    }
  }

  ghost predicate AllPrivate(o: Directory, kernel: Directory, ws: seq<Write>)
    requires |o.tables| == |kernel.tables| == ENTRIES
    reads o, kernel
  {
    forall w | w in ws :: w.page < PAGES && !Shared(o, kernel, w.page)
  }

  /** Whatever a program writes to pages of its own, no page of another address space that is behind other tables
      changes. */
  lemma {:induction false} WritesStayApart(p: Pager, a: Directory, b: Directory, contents: seq<seq<int>>,
                                           ws: seq<Write>, v: nat)
    requires p.Valid() && p.Registered(a) && p.Registered(b) && v < PAGES
    requires forall w | w in ws ::
               && w.page < PAGES
               && (a.tables[w.page / ENTRIES] == null || a.tables[w.page / ENTRIES] != b.tables[v / ENTRIES])
    requires FrameOf(b, v) < |contents|
    ensures AfterWrites(a, contents, ws)[FrameOf(b, v)] == contents[FrameOf(b, v)]
  {
    hide Pager.Valid;
    if ws != [] {
      var w := ws[|ws| - 1];
      WritesStayApart(p, a, b, contents, ws[..|ws| - 1], v);
      assert w in ws;
      if FrameOf(a, w.page) != 0 { OneEntryPerFrame(p, a, b, w.page, v); }
    }
  }

  /** After a clone, writes of either side through tables that are not the kernel's are unseen by the other. */
  lemma {:induction false} ClonesAreIsolated(p: Pager, o: Directory, kernel: Directory, c: Directory, m0: Physical,
                                             m: Physical, ws: seq<Write>, v: nat)
    requires p.Valid() && p.Registered(o) && p.Registered(c) && v < PAGES
    requires Clone(o, kernel, c, false, m0, m)
    requires AllPrivate(o, kernel, ws) && FrameOf(o, v) < |m.contents| && FrameOf(c, v) < |m.contents|
    ensures AfterWrites(c, m.contents, ws)[FrameOf(o, v)] == m.contents[FrameOf(o, v)]
    ensures AfterWrites(o, m.contents, ws)[FrameOf(c, v)] == m.contents[FrameOf(c, v)]
  {
    hide AfterWrites, Pager.Valid;
    WritesStayApart(p, c, o, m.contents, ws, v);
    WritesStayApart(p, o, c, m.contents, ws, v);
  }

  /** A page that has a frame is left alone; another gets one, with these flags. */
  ghost predicate Given(before: Page, after: Page, kernel: bool, writeable: bool) {
    after.frame != 0
    && after == if before.frame != 0 then before
                else before.(present := true, rw := writeable, user := !kernel, frame := after.frame)
  }

  /** alloc_frame for the page of an address, whose page table is made if need be. No other page changes. */
  method AllocPage(p: Pager, d: Directory, address: nat, kernel: bool, writeable: bool, ghost v: nat) returns (ok: bool)
    requires p.Valid() && p.Registered(d) && address < 0x1_0000_0000 && v == address / FRAME_SIZE
    modifies p`owner, p`tables, p`placement, p.bitmap.words, d, d.tables
    ensures p.Valid() && p.Registered(d) && old(p.tables) <= p.tables
    ensures forall i | 0 <= i < ENTRIES && d.tables[i] != old(d.tables)[i] ::
              i == v / ENTRIES && old(d.tables)[i] == null && fresh(d.tables[i])
    ensures p.placement == if old(d.tables)[v / ENTRIES] == null && !p.heapReady
                           then PlacementAfterTable(old(p.placement)) else old(p.placement)
    ensures !p.heapReady ==> forall lo: int | lo <= old(p.placement) && old(Placed(d.tables, lo, p.placement)) ::
                               Placed(d.tables, lo, p.placement)
    ensures forall u: nat | u < PAGES && u != v :: EntryOf(d, u) == old(EntryOf(d, u))
    ensures old(FrameOf(d, v)) != 0 || !ok ==>
              EntryOf(d, v) == old(EntryOf(d, v)) && p.bitmap.words[..] == old(p.bitmap.words[..])
    ensures !ok ==> old(FrameOf(d, v)) == 0 && AllUsed(p.bitmap.words[..])
    ensures ok && old(FrameOf(d, v)) == 0 ==>
              && LeastFree(old(p.bitmap.words[..]), FrameOf(d, v))
              && p.UsedFrames() == old(p.UsedFrames()) + {FrameOf(d, v)}
              && EntryOf(d, v)
                 == old(EntryOf(d, v)).(present := true, rw := writeable, user := !kernel, frame := FrameOf(d, v))
  {
    hide Pager.Ledger, Used, LeastFree, AllUsed, IsSet, Placed;
    var t, i := p.GetPage(address, true, d);
    p.Known(t);
    ok := p.AllocFrame(t, i, kernel, writeable);
    p.Known(t);
  }

  /** The same once frame 0 is in use, so that a page with a frame does not look like one without. */
  method MapPage(p: Pager, d: Directory, address: nat, kernel: bool, writeable: bool) returns (ok: bool)
    requires p.Valid() && p.Registered(d) && address < 0x1_0000_0000 && 0 in p.UsedFrames()
    modifies p`owner, p`tables, p`placement, p.bitmap.words, d, d.tables
    ensures p.Valid() && p.Registered(d) && old(p.tables) <= p.tables && 0 in p.UsedFrames()
    ensures old(p.UsedFrames()) <= p.UsedFrames()
    ensures forall i | 0 <= i < ENTRIES && d.tables[i] != old(d.tables)[i] ::
              old(d.tables)[i] == null && fresh(d.tables[i])
    ensures forall v: nat | v < PAGES && v != address / FRAME_SIZE :: EntryOf(d, v) == old(EntryOf(d, v))
    ensures if ok then Given(old(EntryOf(d, address / FRAME_SIZE)), EntryOf(d, address / FRAME_SIZE), kernel, writeable)
            else AllUsed(p.bitmap.words[..])
    ensures !ok ==> forall v: nat | v < PAGES :: EntryOf(d, v) == old(EntryOf(d, v))
  {
    hide Pager.Valid, Linked, Used, LeastFree, AllUsed, IsSet, EntryOf;
    ghost var v := address / FRAME_SIZE;
    LinkedSize(d);
    ok := AllocPage(p, d, address, kernel, writeable, v);
    LinkedSize(d);
    if ok && old(FrameOf(d, v)) == 0 { ZeroIsLeast(old(p.bitmap.words[..]), FrameOf(d, v)); }
  }

  /** free_frame for the page of an address, which has a page table. No other page changes. */
  method UnmapPage(p: Pager, d: Directory, address: nat)
    requires p.Valid() && p.Registered(d) && address < 0x1_0000_0000 && d.tables[address / FRAME_SIZE / ENTRIES] != null
    modifies p`owner, p`tables, p`placement, p.bitmap.words, d, d.tables
    ensures p.Valid() && p.Registered(d) && d.tables == old(d.tables) && p.tables == old(p.tables)
    ensures forall v: nat | v < PAGES && v != address / FRAME_SIZE :: EntryOf(d, v) == old(EntryOf(d, v))
    ensures EntryOf(d, address / FRAME_SIZE) == old(EntryOf(d, address / FRAME_SIZE)).(frame := 0)
    ensures p.UsedFrames() == old(p.UsedFrames()) - ({old(FrameOf(d, address / FRAME_SIZE))} - {0})
  {
    hide Pager.Ledger, Used;
    var t, i := p.GetPage(address, false, d);
    p.Known(t);
    p.FreeFrame(t, i);
  }

  // ---------------------------------------------------------------- programs in address spaces of their own

  /** The words behind page v. */
  ghost function PageWords(p: Pager, d: Directory, v: nat): (words: seq<int>)
    requires v < PAGES && |d.tables| == ENTRIES && p.ram.Length1 == FRAME_WORDS
    reads p.ram, d, d.tables[v / ENTRIES]
    ensures words != [] ==> |words| == FRAME_WORDS
  {
    var f := FrameOf(d, v);
    if 0 < f < p.ram.Length0 then p.Contents()[f] else []
  }

  /** A program writes one word of a page it has. */
  method StoreWord(p: Pager, d: Directory, page: nat, word: nat, value: int)
    requires page < PAGES && |d.tables| == ENTRIES && word < FRAME_WORDS && p.ram.Length1 == FRAME_WORDS
    requires FrameOf(d, page) < p.ram.Length0
    modifies p.ram
    ensures var f := FrameOf(d, page); p.Contents() == old(p.Contents())[f := old(p.Contents())[f][word := value]]
  {
    var f := FrameOf(d, page);
    p.ram[f, word] := value;
    assert p.Contents()[f] == old(p.Contents())[f][word := value];
    forall g | 0 <= g < p.ram.Length0 && g != f ensures p.Contents()[g] == old(p.Contents()[g]) {
      assert forall k | 0 <= k < FRAME_WORDS :: p.ram[g, k] == old(p.ram[g, k]);
    }
  }

  /** The table for page v of b is not a table of a. */
  ghost predicate Apart(a: Directory, b: Directory, v: nat)
    requires v < PAGES
    reads a, b
  {
    && |a.tables| == |b.tables| == ENTRIES
    && b.tables[v / ENTRIES] != null && b.tables[v / ENTRIES] !in a.tables
  }

  /** After a clone, the pages of either side that are not behind the kernel's tables are apart from the other. */
  lemma ClonesAreApart(o: Directory, kernel: Directory, c: Directory, m0: Physical, m: Physical, v: nat)
    requires Clone(o, kernel, c, false, m0, m) && v < PAGES && o.tables[v / ENTRIES] != null && !Shared(o, kernel, v)
    ensures Apart(o, c, v) && Apart(c, o, v)
  {
    assert TableCloned(o.tables[v / ENTRIES], kernel.tables[v / ENTRIES], c.tables[v / ENTRIES], false, m0, m);
  }

  lemma FramesApart(p: Pager, a: Directory, b: Directory, u: nat, v: nat)
    requires p.Valid() && p.Registered(a) && p.Registered(b) && u < PAGES && v < PAGES && FrameOf(a, u) != 0
    requires Apart(a, b, v)
    ensures FrameOf(a, u) != FrameOf(b, v)
  {
    OneEntryPerFrame(p, a, b, u, v);
  }

  lemma FrameInMemory(p: Pager, d: Directory, page: nat)
    requires p.Valid() && p.Registered(d) && page < PAGES
    ensures FrameOf(d, page) < p.ram.Length0 || FrameOf(d, page) == 0
  {
    if FrameOf(d, page) != 0 { FrameInUse(p, d, page); }
  }

  /** What a program does to its address space: it stores a word, which faults if the page has no frame, or has a page
      mapped or unmapped. */
  datatype Use = Store(page: nat, word: nat, value: nat) | Map(page: nat, kernel: bool, writeable: bool)
    | Unmap(page: nat)

  /** What a use makes of the words of the program's page v. */
  function AfterUse(words: seq<int>, use: Use, v: nat): seq<int> {
    if use.Store? && use.page == v && use.word < |words| then words[use.word := use.value] else words
  }

  method StoreApart(p: Pager, d: Directory, page: nat, word: nat, value: nat, ghost others: set<Directory>,
                    ghost v: nat)
    requires p.Valid() && p.Registered(d) && v < PAGES && page < PAGES && word < FRAME_WORDS && FrameOf(d, page) != 0
    requires forall b | b in others :: p.Registered(b) && Apart(d, b, v)
    modifies p.ram
    ensures p.Valid()
    ensures forall b | b in others :: Apart(d, b, v) && PageWords(p, b, v) == old(PageWords(p, b, v))
    ensures PageWords(p, d, v) == AfterUse(old(PageWords(p, d, v)), Store(page, word, value), v)
  {
    hide Pager.Ledger, Apart;
    FrameInMemory(p, d, page);
    forall b | b in others ensures FrameOf(b, v) != FrameOf(d, page) { FramesApart(p, d, b, page, v); }
    if page != v { OneEntryPerFrame(p, d, d, page, v); DifferentPages(d, page, v); }
    StoreWord(p, d, page, word, value);
  }

  /** One use. The pages v of the others, which are apart, stay as they are; and so does page v of the program itself,
      but for what it stores there, unless it unmaps it. A result of false is the PANIC of alloc_frame. */
  method Act(p: Pager, d: Directory, use: Use, ghost others: set<Directory>, ghost v: nat) returns (ok: bool)
    requires p.Valid() && p.Registered(d) && 0 in p.UsedFrames() && v < PAGES
    requires forall b | b in others :: p.Registered(b) && Apart(d, b, v)
    modifies p`owner, p`tables, p`placement, p.bitmap.words, p.ram, d, d.tables
    ensures p.Valid() && p.Registered(d) && 0 in p.UsedFrames() && old(p.tables) <= p.tables
    ensures forall i | 0 <= i < ENTRIES && d.tables[i] != old(d.tables)[i] ::
              old(d.tables)[i] == null && fresh(d.tables[i])
    ensures forall b | b in others :: p.Registered(b) && Apart(d, b, v)
              && EntryOf(b, v) == old(EntryOf(b, v)) && PageWords(p, b, v) == old(PageWords(p, b, v))
    ensures old(FrameOf(d, v)) != 0 && use != Unmap(v) ==>
              EntryOf(d, v) == old(EntryOf(d, v)) && PageWords(p, d, v) == AfterUse(old(PageWords(p, d, v)), use, v)
    ensures !ok ==> AllUsed(p.bitmap.words[..])
    ensures ok && use.Map? && use.page < PAGES ==>
              Given(old(EntryOf(d, use.page)), EntryOf(d, use.page), use.kernel, use.writeable)
    ensures use.Unmap? && use.page < PAGES ==> EntryOf(d, use.page) == old(EntryOf(d, use.page)).(frame := 0)
    ensures forall u: nat | u < PAGES && (use.Store? || u != use.page) :: EntryOf(d, u) == old(EntryOf(d, u))
  {
    hide Pager.Ledger, Used, AllUsed, Pager.Contents;
    ok := true;
    if use.page < PAGES {
      match use
      case Store(page, word, value) =>
        if word < FRAME_WORDS && FrameOf(d, page) != 0 { StoreApart(p, d, page, word, value, others, v); }
      case Map(page, kernel, writeable) =>
        ok := MapPage(p, d, page * FRAME_SIZE, kernel, writeable);
      case Unmap(page) =>
        if d.tables[page / ENTRIES] != null { UnmapPage(p, d, page * FRAME_SIZE); }
    }
  }

  /** A use by the program in one of several address spaces. */
  datatype Turn = Turn(who: nat, use: Use)

  /** The words of page v of address space w, as its own program alone leaves them. */
  function AfterTurns(words: seq<int>, turns: seq<Turn>, w: nat, v: nat): seq<int> {
    if turns == [] then words
    else
      var before, turn := AfterTurns(words, turns[..|turns| - 1], w, v), turns[|turns| - 1];
      if turn.who == w then AfterUse(before, turn.use, v) else before
  }

  method TakeTurn(p: Pager, ds: seq<Directory>, turn: Turn, ghost w: nat, ghost v: nat) returns (ok: bool)
    requires p.Valid() && 0 in p.UsedFrames() && w < |ds| && v < PAGES
    requires forall d | d in ds :: p.Registered(d) && |d.tables| == ENTRIES
    requires forall i | 0 <= i < |ds| && i != w :: Apart(ds[i], ds[w], v)
    requires FrameOf(ds[w], v) != 0 && turn.who < |ds| && turn != Turn(w, Unmap(v))
    modifies p`owner, p`tables, p`placement, p.bitmap.words, p.ram, ds[turn.who], ds[turn.who].tables
    ensures p.Valid() && 0 in p.UsedFrames() && (!ok ==> AllUsed(p.bitmap.words[..]))
    ensures forall d | d in ds :: p.Registered(d) && |d.tables| == ENTRIES
    ensures forall i | 0 <= i < ENTRIES && ds[turn.who].tables[i] != old(ds[turn.who].tables[i]) ::
              fresh(ds[turn.who].tables[i])
    ensures forall i | 0 <= i < |ds| && i != w :: Apart(ds[i], ds[w], v)
    ensures EntryOf(ds[w], v) == old(EntryOf(ds[w], v))
    ensures PageWords(p, ds[w], v)
         == if turn.who == w then AfterUse(old(PageWords(p, ds[w], v)), turn.use, v) else old(PageWords(p, ds[w], v))
  {
    hide Pager.Ledger, Used, AllUsed, EntryOf, PageWords, Linked;
    ok := Act(p, ds[turn.who], turn.use, if turn.who == w then {} else {ds[w]}, v);
    LinkedSize(ds[turn.who]);
  }

  /** However the programs of several address spaces take turns to store, map and unmap, a page that is apart from all
      other address spaces, and is not unmapped by its own program, keeps its frame and holds what its own program has
      stored. A result of false is the PANIC of alloc_frame, after n turns. */
  method TakeTurns(p: Pager, ds: seq<Directory>, turns: seq<Turn>, ghost w: nat, ghost v: nat)
    returns (ok: bool, ghost n: nat)
    requires p.Valid() && 0 in p.UsedFrames() && w < |ds| && v < PAGES
    requires forall d | d in ds :: p.Registered(d) && |d.tables| == ENTRIES
    requires forall i | 0 <= i < |ds| && i != w :: Apart(ds[i], ds[w], v)
    requires FrameOf(ds[w], v) != 0
    requires forall turn | turn in turns :: turn.who < |ds| && turn != Turn(w, Unmap(v))
    modifies p`owner, p`tables, p`placement, p.bitmap.words, p.ram, ds
    modifies set d, i | d in ds && 0 <= i < |d.tables| && d.tables[i] != null :: d.tables[i]
    ensures p.Valid() && 0 in p.UsedFrames() && n <= |turns|
    ensures if ok then n == |turns| else AllUsed(p.bitmap.words[..])
    ensures forall d | d in ds :: p.Registered(d) && |d.tables| == ENTRIES
    ensures forall i | 0 <= i < |ds| && i != w :: Apart(ds[i], ds[w], v)
    ensures EntryOf(ds[w], v) == old(EntryOf(ds[w], v))
    ensures PageWords(p, ds[w], v) == AfterTurns(old(PageWords(p, ds[w], v)), turns[..n], w, v)
  {
    hide Pager.Ledger, Used, AllUsed, EntryOf, PageWords, Linked;
    n := 0;
    var k := 0;
    ghost var words := PageWords(p, ds[w], v);
    while k < |turns|
      invariant n == k <= |turns| && p.Valid() && 0 in p.UsedFrames()
      invariant forall d | d in ds :: p.Registered(d) && |d.tables| == ENTRIES
      invariant forall d, i | d in ds && 0 <= i < ENTRIES && d.tables[i] != old(d.tables[i]) :: fresh(d.tables[i])
      invariant forall i | 0 <= i < |ds| && i != w :: Apart(ds[i], ds[w], v)
      invariant EntryOf(ds[w], v) == old(EntryOf(ds[w], v))
      invariant PageWords(p, ds[w], v) == AfterTurns(words, turns[..k], w, v)
    {
      var turn := turns[k];
      ok := TakeTurn(p, ds, turn, w, v);
      n := n + 1;
      assert turns[..k + 1][..k] == turns[..k];
      k := k + 1;
      if !ok {
        return;
      }
    }
    ok := true;
  }
}
