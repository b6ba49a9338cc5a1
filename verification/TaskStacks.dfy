/** Tasks, their stacks and their address spaces together: whole runs of timer interrupts, forks and whatever the
    running task does to its memory. */
module TaskStacks {
  import opened FrameBitmap
  import opened Paging
  import opened AddressSpaces
  import opened TaskRuns
  import opened Tasks

  ghost function Directories(s: Scheduler): set<Directory>
    reads s, s.queue
  {
    set t | t in s.queue :: t.directory
  }

  ghost function Tables(s: Scheduler): set<PageTable>
    reads s, s.queue, Directories(s)
  {
    set t, i | t in s.queue && 0 <= i < |t.directory.tables| && t.directory.tables[i] != null :: t.directory.tables[i]
  }

  /** The task's locals are on its own stack, in its own address space, behind a table that is not the kernel's. */
  ghost predicate HasStack(p: Pager, kernel: Directory, at: Place, t: Task)
    requires at.Valid() && p.ram.Length1 == FRAME_WORDS
    reads p`tables, p.ram, kernel, t, t.directory, t.directory.tables
  {
    && |kernel.tables| == |t.directory.tables| == ENTRIES
    && p.Registered(t.directory) && !Shared(t.directory, kernel, at.page)
    && OnStack(p, t.directory, at, t.locals)
  }

  /** Every task has its stack, and no task's table for it is in the address space of another task. */
  ghost predicate Stacked(s: Scheduler, p: Pager, kernel: Directory, at: Place)
    requires at.Valid() && p.ram.Length1 == FRAME_WORDS
    reads s, s.queue, p`tables, p.ram, kernel, Directories(s), Tables(s)
  {
    && (forall i | 0 <= i < |s.queue| :: HasStack(p, kernel, at, s.queue[i]))
    && (forall i, j | 0 <= i < |s.queue| && 0 <= j < |s.queue| && i != j ::
          Apart(s.queue[i].directory, s.queue[j].directory, at.page))
  }

  /** The address spaces of the tasks that are not running. */
  ghost function Others(s: Scheduler): set<Directory>
    reads s, s.queue
  {
    set i | 0 <= i < |s.queue| && i != s.position :: s.queue[i].directory
  }

  /** Tasking begins with one task on the stack that move_stack has made. */
  method Start(s: Scheduler, p: Pager, kernel: Directory, at: Place, ghost l: Locals)
    requires s.Idle() && p.Valid() && at.Valid() && p.Registered(s.currentDirectory)
    requires |kernel.tables| == |s.currentDirectory.tables| == ENTRIES && !Shared(s.currentDirectory, kernel, at.page)
    requires OnStack(p, s.currentDirectory, at, l)
    modifies s
    ensures s.Valid() && s.View() == Initial(old(s.currentDirectory), l) && Stacked(s, p, kernel, at)
  {
    hide OnStack, Shared, Pager.Registered;
    s.InitialiseTasking(l);
    assert s.View().queue[0] == Record(1, s.queue[0].Saved(), l);
  }

  lemma RunningTask(s: Scheduler)
    requires s.Valid()
    ensures s.position < |s.queue| && s.currentTask == s.queue[s.position]
    ensures s.currentDirectory == s.currentTask.directory
  {}

  lemma RunningStack(s: Scheduler, p: Pager, kernel: Directory, at: Place)
    requires s.Valid() && at.Valid() && p.ram.Length1 == FRAME_WORDS && Stacked(s, p, kernel, at)
    ensures HasStack(p, kernel, at, s.currentTask) && s.currentTask.directory == s.currentDirectory
    ensures OthersApart(p, s.currentDirectory, Others(s), at)
  {
    hide Apart, Ok, OnStack, Linked, Shared;
    forall b | b in Others(s) ensures p.Registered(b) && Apart(s.currentDirectory, b, at.page) {
      var i :| 0 <= i < |s.queue| && i != s.position && s.queue[i].directory == b;
      assert HasStack(p, kernel, at, s.queue[i]);
    }
  }

  /** The state machine's switch moves no stack and no address space. */
  lemma SwitchKeeps(v: Tasking, esp: int, ebp: int)
    requires Ok(v)
    ensures var w := Step(v, TaskRuns.Switch(esp, ebp));
      && |w.queue| == |v.queue| && w.current < |w.queue|
      && forall i | 0 <= i < |v.queue| ::
           w.queue[i].context.directory == v.queue[i].context.directory && w.queue[i].locals == v.queue[i].locals
  {}

  lemma SwitchReturns(v: Tasking, esp: int, ebp: int)
    requires Ok(v)
    ensures var e := TaskRuns.Switch(esp, ebp);
      var w := Step(v, e);
      var me := w.queue[w.current];
      if me.context.eip.InFork? then ComingBack(v, e) == [Return(me.id, ForkValue(me.id, me.locals))]
      else ComingBack(v, e) == []
  {}

  /** What the queue of the scheduler holds. */
  lemma ViewAt(s: Scheduler, i: nat)
    requires i < |s.queue|
    ensures |s.View().queue| == |s.queue|
    ensures s.View().queue[i] == Record(s.queue[i].id, s.queue[i].Saved(), s.queue[i].locals)
  {}

  method SwitchStacks(s: Scheduler, p: Pager, kernel: Directory, at: Place, esp: int, ebp: int)
    returns (loaded: Context)
    requires s.Valid() && at.Valid() && p.ram.Length1 == FRAME_WORDS && Stacked(s, p, kernel, at)
    modifies s, s.queue
    ensures s.Valid() && s.queue == old(s.queue) && Stacked(s, p, kernel, at)
    ensures forall t | t in s.queue :: t.directory == old(t.directory)
    ensures s.View() == Step(old(s.View()), TaskRuns.Switch(esp, ebp))
    ensures loaded == s.View().queue[s.View().current].context
    ensures loaded.eip.InFork? ==> s.currentTask.locals.parentTask < s.currentTask.id
  {
    hide Scheduler.Chained, Ok, Step, OnStack, Apart, Shared, Linked, Pager.Registered;
    SwitchKeeps(s.View(), esp, ebp);
    ghost var queue := s.View().queue;
    loaded := s.TaskSwitch(esp, ebp, false);
    forall i | 0 <= i < |s.queue|
      ensures s.queue[i].directory == old(s.queue[i].directory) && HasStack(p, kernel, at, s.queue[i])
    {
      ViewAt(s, i);
      assert queue[i] == old(Record(s.queue[i].id, s.queue[i].Saved(), s.queue[i].locals));
      assert old(HasStack(p, kernel, at, s.queue[i]));
    }
    forall i, j | 0 <= i < |s.queue| && 0 <= j < |s.queue| && i != j
      ensures Apart(s.queue[i].directory, s.queue[j].directory, at.page)
    {
      assert old(Apart(s.queue[i].directory, s.queue[j].directory, at.page));
    }
  }

  /** The timer; a task that is switched to inside fork returns from it. */
  method Switch(s: Scheduler, p: Pager, kernel: Directory, at: Place, esp: int, ebp: int) returns (r: seq<Return>)
    requires s.Valid() && at.Valid() && p.ram.Length1 == FRAME_WORDS && Stacked(s, p, kernel, at)
    modifies s, s.queue
    ensures s.Valid() && s.queue == old(s.queue) && Stacked(s, p, kernel, at)
    ensures Directories(s) == old(Directories(s)) && Tables(s) == old(Tables(s))
    ensures s.View() == Step(old(s.View()), TaskRuns.Switch(esp, ebp))
    ensures r == ComingBack(old(s.View()), TaskRuns.Switch(esp, ebp))
  {
    hide Ok, Step, OnStack, Apart, Shared, Linked, Pager.Registered, ComingBack, Stacked;
    SwitchReturns(s.View(), esp, ebp);
    var loaded := SwitchStacks(s, p, kernel, at, esp, ebp);
    RunningStack(s, p, kernel, at);
    ViewAt(s, s.position);
    r := [];
    if loaded.eip.InFork? {
      r := [Return(s.currentTask.id, s.ForkInChild(p, at))];
    }
  }

  /** The state machine's fork moves no stack but that of the caller, and adds one. */
  lemma ForkKeeps(v: Tasking, esp: int, ebp: int, d: Directory)
    requires Ok(v)
    ensures var w := Step(v, TaskRuns.Fork(esp, ebp, d));
      && |w.queue| == |v.queue| + 1 && w.current == v.current
      && w.queue[|v.queue|].context.directory == d
      && forall i | 0 <= i < |v.queue| ::
           && w.queue[i].context.directory == v.queue[i].context.directory
           && (i != v.current ==> w.queue[i].locals == v.queue[i].locals)
  {}

  lemma ForkReturns(v: Tasking, esp: int, ebp: int, d: Directory)
    requires Ok(v)
    ensures var e := TaskRuns.Fork(esp, ebp, d);
      var w := Step(v, e);
      var me := w.queue[v.current];
      w.current == v.current && ComingBack(v, e) == [Return(me.id, ForkValue(me.id, me.locals))]
  {}

  method ForkStacks(s: Scheduler, p: Pager, kernel: Directory, at: Place, esp: int, ebp: int,
                    ghost others: set<Directory>)
    returns (pid: nat, ok: bool)
    requires s.Valid() && p.Valid() && at.Valid() && Stacked(s, p, kernel, at) && 0 in p.UsedFrames()
    requires others == Others(s)
    modifies s, s.queue, p`owner, p`tables, p.bitmap.words, p.ram
    ensures !ok ==> AllUsed(p.bitmap.words[..])
    ensures ok ==>
      && s.Valid() && p.Valid() && 0 in p.UsedFrames() && s.position == old(s.position)
      && (forall i | 0 <= i < |s.queue| :: HasStack(p, kernel, at, s.queue[i]))
      && |s.queue| == |old(s.queue)| + 1 && s.queue[..|old(s.queue)|] == old(s.queue)
      && (forall t | t in old(s.queue) :: t.directory == old(t.directory))
      && var child := s.queue[|old(s.queue)|];
         && fresh(child) && fresh(child.directory) && |child.directory.tables| == ENTRIES
         && (forall j | 0 <= j < ENTRIES && child.directory.tables[j] != null ::
               child.directory.tables[j] in old(s.currentDirectory.tables) || fresh(child.directory.tables[j]))
         && s.View() == Step(old(s.View()), TaskRuns.Fork(esp, ebp, child.directory))
         && pid == ForkValue(s.currentTask.id, s.currentTask.locals)
         && OthersApart(p, child.directory, others + {old(s.currentDirectory)}, at)
         && Apart(old(s.currentDirectory), child.directory, at.page)
         && forall b | b in others :: |b.tables| == ENTRIES && Apart(b, child.directory, at.page)
  {
    hide Scheduler.Chained, Ok, Step, PageWords, Apart, Shared, Linked, Pager.Ledger, Used, AllUsed, OthersApart;
    RunningTask(s);
    RunningStack(s, p, kernel, at);
    ghost var v, queue := s.View(), s.queue;
    pid, ok := s.ForkProcess(p, kernel, at, esp, ebp, others);
    if ok {
      RunningTask(s);
      ForkKeeps(v, esp, ebp, s.queue[|queue|].directory);
      forall i | 0 <= i < |s.queue|
        ensures i < |queue| ==> s.queue[i].directory == old(queue[i].directory)
        ensures HasStack(p, kernel, at, s.queue[i])
      {
        ViewAt(s, i);
        if i < |queue| {
          assert v.queue[i] == old(Record(queue[i].id, queue[i].Saved(), queue[i].locals));
          assert old(HasStack(p, kernel, at, queue[i]));
          if i != s.position { assert old(queue[i].directory) in others; }
        }
      }
    }
  }

  /** The new address space is apart from those of all older tasks, and they from it. */
  lemma ChildApart(p: Pager, ds: seq<Directory>, position: nat, child: Directory, others: set<Directory>, at: Place)
    requires at.Valid() && position < |ds| && forall i | 0 <= i < |ds| && i != position :: ds[i] in others
    requires OthersApart(p, child, others + {ds[position]}, at) && Apart(ds[position], child, at.page)
    requires forall b | b in others :: |b.tables| == ENTRIES && Apart(b, child, at.page)
    ensures forall i | 0 <= i < |ds| :: Apart(ds[i], child, at.page) && Apart(child, ds[i], at.page)
  {
    hide Apart;
  }

  method ForkApart(s: Scheduler, p: Pager, kernel: Directory, at: Place, esp: int, ebp: int)
    returns (r: seq<Return>, ok: bool)
    requires s.Valid() && p.Valid() && at.Valid() && Stacked(s, p, kernel, at) && 0 in p.UsedFrames()
    modifies s, s.queue, p`owner, p`tables, p.bitmap.words, p.ram
    ensures !ok ==> AllUsed(p.bitmap.words[..])
    ensures ok ==>
      && s.Valid() && p.Valid() && Stacked(s, p, kernel, at) && 0 in p.UsedFrames()
      && |s.queue| == |old(s.queue)| + 1 && s.queue[..|old(s.queue)|] == old(s.queue)
      && (forall t | t in old(s.queue) :: t.directory == old(t.directory))
      && var child := s.queue[|old(s.queue)|];
         && fresh(child) && fresh(child.directory) && |child.directory.tables| == ENTRIES
         && (forall j | 0 <= j < ENTRIES && child.directory.tables[j] != null ::
               child.directory.tables[j] in old(s.currentDirectory.tables) || fresh(child.directory.tables[j]))
         && s.View() == Step(old(s.View()), TaskRuns.Fork(esp, ebp, child.directory))
         && r == ComingBack(old(s.View()), TaskRuns.Fork(esp, ebp, child.directory))
  {
    hide Scheduler.Chained, Ok, Step, PageWords, Apart, Shared, Linked, Pager.Ledger, Used, AllUsed, ComingBack,
         OthersApart, HasStack;
    RunningTask(s);
    RunningStack(s, p, kernel, at);
    ghost var queue := s.queue;
    ghost var ds := seq(|queue|, i requires 0 <= i < |queue| reads queue => queue[i].directory);
    ghost var others := Others(s);
    ghost var v := s.View();
    var pid;
    pid, ok := ForkStacks(s, p, kernel, at, esp, ebp, others);
    r := [];
    if ok {
      RunningTask(s);
      r := [Return(s.currentTask.id, pid)];
      ForkReturns(v, esp, ebp, s.queue[|queue|].directory);
      ViewAt(s, s.position);
      ghost var child := s.queue[|queue|].directory;
      ChildApart(p, ds, s.position, child, others, at);
      forall i, j | 0 <= i < |s.queue| && 0 <= j < |s.queue| && i != j
        ensures Apart(s.queue[i].directory, s.queue[j].directory, at.page)
      {
        if i < |queue| { assert s.queue[i] == queue[i] && queue[i].directory == ds[i]; }
        if j < |queue| { assert s.queue[j] == queue[j] && queue[j].directory == ds[j]; }
        if i < |queue| && j < |queue| { assert old(Apart(queue[i].directory, queue[j].directory, at.page)); }
      }
    }
  }

  /** fork: the caller returns, and the new task has its stack too. A result of false is the PANIC of the clone. */
  method Fork(s: Scheduler, p: Pager, kernel: Directory, at: Place, esp: int, ebp: int)
    returns (r: seq<Return>, ok: bool)
    requires s.Valid() && p.Valid() && at.Valid() && Stacked(s, p, kernel, at) && 0 in p.UsedFrames()
    modifies s, s.queue, p`owner, p`tables, p.bitmap.words, p.ram
    ensures !ok ==> AllUsed(p.bitmap.words[..])
    ensures ok ==>
      && s.Valid() && p.Valid() && Stacked(s, p, kernel, at) && 0 in p.UsedFrames()
      && |s.queue| == |old(s.queue)| + 1 && s.queue[..|old(s.queue)|] == old(s.queue)
      && var child := s.queue[|old(s.queue)|];
         && fresh(child) && fresh(child.directory)
         && s.View() == Step(old(s.View()), TaskRuns.Fork(esp, ebp, child.directory))
         && r == ComingBack(old(s.View()), TaskRuns.Fork(esp, ebp, child.directory))
    ensures ok ==> forall d | d in Directories(s) :: d in old(Directories(s)) || fresh(d)
    ensures ok ==> forall t | t in Tables(s) :: t in old(Tables(s)) || fresh(t)
  {
    hide Ok, Step, Stacked, Pager.Ledger, Used, AllUsed, ComingBack;
    assert s.currentTask in s.queue;
    r, ok := ForkApart(s, p, kernel, at, esp, ebp);
  }

  /** The locals of a task after it has stored a word. */
  function LocalsAfter(l: Locals, use: Use, at: Place): Locals {
    if use.Store? && use.page == at.page && use.word == at.parentTask then l.(parentTask := use.value)
    else if use.Store? && use.page == at.page && use.word == at.newTask then l.(newTask := use.value)
    else l
  }

  lemma StackAfter(p: Pager, d: Directory, at: Place, before: seq<int>, l: Locals, use: Use)
    requires at.Valid() && |d.tables| == ENTRIES && p.ram.Length1 == FRAME_WORDS && |before| == FRAME_WORDS
    requires before[at.parentTask] == l.parentTask && before[at.newTask] == l.newTask
    requires PageWords(p, d, at.page) == AfterUse(before, use, at.page)
    ensures OnStack(p, d, at, LocalsAfter(l, use, at))
  {
    hide PageWords;
  }

  /** The running task's locals are written over. */
  lemma Overwritten(s: Scheduler, v: Tasking, l: Locals)
    requires s.Chained() && Ok(v) && v.current == s.position && v.nextPid == s.nextPid && |v.queue| == |s.queue|
    requires s.currentDirectory == s.currentTask.directory && s.currentTask.locals == l
    requires forall i | 0 <= i < |s.queue| ::
               && v.queue[i].id == s.queue[i].id && v.queue[i].context == s.queue[i].Saved()
               && (i != s.position ==> v.queue[i].locals == s.queue[i].locals)
    ensures s.Valid() && s.View() == Step(v, Overwrite(l))
  {
    StepOk(v, Overwrite(l));
    assert s.View().queue == Step(v, Overwrite(l)).queue;
  }

  method UseWords(s: Scheduler, p: Pager, at: Place, use: Use, ghost others: set<Directory>) returns (ok: bool)
    requires s.Valid() && p.Valid() && at.Valid() && p.Registered(s.currentDirectory) && 0 in p.UsedFrames()
    requires |s.currentDirectory.tables| == ENTRIES && OthersApart(p, s.currentDirectory, others, at)
    requires OnStack(p, s.currentDirectory, at, s.currentTask.locals) && use != Unmap(at.page)
    modifies s.currentTask`locals, p`owner, p`tables, p`placement, p.bitmap.words, p.ram
    modifies s.currentDirectory, s.currentDirectory.tables
    ensures !ok ==> AllUsed(p.bitmap.words[..])
    ensures p.Valid() && p.Registered(s.currentDirectory) && 0 in p.UsedFrames() && old(p.tables) <= p.tables
    ensures |s.currentDirectory.tables| == ENTRIES && OthersApart(p, s.currentDirectory, others, at)
    ensures forall i | 0 <= i < ENTRIES && s.currentDirectory.tables[i] != old(s.currentDirectory.tables)[i] ::
              old(s.currentDirectory.tables)[i] == null && fresh(s.currentDirectory.tables[i])
    ensures OnStack(p, s.currentDirectory, at, s.currentTask.locals)
    ensures s.currentTask.locals == LocalsAfter(old(s.currentTask.locals), use, at)
    ensures forall b | b in others :: |b.tables| == ENTRIES && PageWords(p, b, at.page) == old(PageWords(p, b, at.page))
  {
    hide Ok, Step, PageWords, Linked, Pager.Ledger, Used, AllUsed, AfterUse;
    ghost var words := PageWords(p, s.currentDirectory, at.page);
    StackThere(p, s.currentDirectory, at, s.currentTask.locals);
    ok := Act(p, s.currentDirectory, use, others, at.page);
    LinkedSize(s.currentDirectory);
    StackAfter(p, s.currentDirectory, at, words, s.currentTask.locals, use);
    s.currentTask.locals := LocalsAfter(s.currentTask.locals, use, at);
  }

  method UseStack(s: Scheduler, p: Pager, at: Place, use: Use, ghost others: set<Directory>) returns (ok: bool)
    requires s.Valid() && p.Valid() && at.Valid() && p.Registered(s.currentDirectory) && 0 in p.UsedFrames()
    requires |s.currentDirectory.tables| == ENTRIES && OthersApart(p, s.currentDirectory, others, at)
    requires OnStack(p, s.currentDirectory, at, s.currentTask.locals) && use != Unmap(at.page)
    modifies s.currentTask`locals, p`owner, p`tables, p`placement, p.bitmap.words, p.ram
    modifies s.currentDirectory, s.currentDirectory.tables
    ensures !ok ==> AllUsed(p.bitmap.words[..])
    ensures p.Valid() && p.Registered(s.currentDirectory) && 0 in p.UsedFrames() && old(p.tables) <= p.tables
    ensures |s.currentDirectory.tables| == ENTRIES && OthersApart(p, s.currentDirectory, others, at)
    ensures forall i | 0 <= i < ENTRIES && s.currentDirectory.tables[i] != old(s.currentDirectory.tables)[i] ::
              old(s.currentDirectory.tables)[i] == null && fresh(s.currentDirectory.tables[i])
    ensures OnStack(p, s.currentDirectory, at, s.currentTask.locals)
    ensures s.Valid()
    ensures var v := old(s.View());
      s.View() == Step(v, Overwrite(LocalsAfter(v.queue[v.current].locals, use, at)))
    ensures forall b | b in others :: |b.tables| == ENTRIES && PageWords(p, b, at.page) == old(PageWords(p, b, at.page))
  {
    hide Ok, Step, PageWords, Linked, Pager.Ledger, Pager.Valid, Used, AllUsed, OnStack, OthersApart, LocalsAfter;
    OkParts(s.View());
    ghost var v := s.View();
    ok := UseWords(s, p, at, use, others);
    Overwritten(s, v, s.currentTask.locals);
  }

  method UseStacks(s: Scheduler, p: Pager, kernel: Directory, at: Place, use: Use, ghost others: set<Directory>)
    returns (ok: bool)
    requires s.Valid() && p.Valid() && at.Valid() && Stacked(s, p, kernel, at) && 0 in p.UsedFrames()
    requires use != Unmap(at.page) && others == Others(s)
    modifies s.currentTask`locals, p`owner, p`tables, p`placement, p.bitmap.words, p.ram
    modifies s.currentDirectory, s.currentDirectory.tables
    ensures !ok ==> AllUsed(p.bitmap.words[..])
    ensures s.Valid() && p.Valid() && 0 in p.UsedFrames() && OthersApart(p, s.currentDirectory, others, at)
    ensures forall i | 0 <= i < |s.queue| :: HasStack(p, kernel, at, s.queue[i])
    ensures |old(s.currentDirectory.tables)| == |s.currentDirectory.tables| == ENTRIES
    ensures forall i | 0 <= i < ENTRIES && s.currentDirectory.tables[i] != old(s.currentDirectory.tables)[i] ::
              old(s.currentDirectory.tables)[i] == null && fresh(s.currentDirectory.tables[i])
    ensures var v := old(s.View());
      s.View() == Step(v, Overwrite(LocalsAfter(v.queue[v.current].locals, use, at)))
  {
    hide Ok, Step, PageWords, Linked, Pager.Ledger, Used, AllUsed, LocalsAfter, Apart;
    RunningStack(s, p, kernel, at);
    StackThere(p, s.currentDirectory, at, s.currentTask.locals);
    ok := UseStack(s, p, at, use, others);
    forall i | 0 <= i < |s.queue| ensures HasStack(p, kernel, at, s.queue[i]) {
      assert old(HasStack(p, kernel, at, s.queue[i]));
      if i != s.position { assert s.queue[i].directory in others; }
    }
  }

  method UseApart(s: Scheduler, p: Pager, kernel: Directory, at: Place, use: Use) returns (ok: bool)
    requires s.Valid() && p.Valid() && at.Valid() && Stacked(s, p, kernel, at) && 0 in p.UsedFrames()
    requires use != Unmap(at.page)
    modifies s.currentTask`locals, p`owner, p`tables, p`placement, p.bitmap.words, p.ram
    modifies s.currentDirectory, s.currentDirectory.tables
    ensures !ok ==> AllUsed(p.bitmap.words[..])
    ensures s.Valid() && p.Valid() && Stacked(s, p, kernel, at) && 0 in p.UsedFrames()
    ensures |old(s.currentDirectory.tables)| == |s.currentDirectory.tables| == ENTRIES
    ensures forall i | 0 <= i < ENTRIES && s.currentDirectory.tables[i] != old(s.currentDirectory.tables)[i] ::
              fresh(s.currentDirectory.tables[i])
    ensures var v := old(s.View());
      s.View() == Step(v, Overwrite(LocalsAfter(v.queue[v.current].locals, use, at)))
  {
    hide Scheduler.Chained, Ok, Step, HasStack, Pager.Ledger, Used, AllUsed, LocalsAfter, Linked;
    RunningStack(s, p, kernel, at);
    ghost var others := Others(s);
    ok := UseStacks(s, p, kernel, at, use, others);
    forall i, j | 0 <= i < |s.queue| && 0 <= j < |s.queue| && i != j
      ensures Apart(s.queue[i].directory, s.queue[j].directory, at.page)
    {
      assert old(Apart(s.queue[i].directory, s.queue[j].directory, at.page));
      if i == s.position { assert s.queue[j].directory in others; }
    }
  }

  /** The running task stores a word, or has a page mapped or unmapped, but not the page of its stack. */
  method UseMemory(s: Scheduler, p: Pager, kernel: Directory, at: Place, use: Use) returns (ok: bool)
    requires s.Valid() && p.Valid() && at.Valid() && Stacked(s, p, kernel, at) && 0 in p.UsedFrames()
    requires use != Unmap(at.page)
    modifies s.queue, p`owner, p`tables, p`placement, p.bitmap.words, p.ram, Directories(s), Tables(s)
    ensures !ok ==> AllUsed(p.bitmap.words[..])
    ensures s.Valid() && p.Valid() && Stacked(s, p, kernel, at) && 0 in p.UsedFrames()
    ensures Directories(s) == old(Directories(s)) && forall t | t in Tables(s) :: t in old(Tables(s)) || fresh(t)
    ensures var v := old(s.View());
      s.View() == Step(v, Overwrite(LocalsAfter(v.queue[v.current].locals, use, at)))
  {
    hide Ok, Step, Stacked, Pager.Ledger, Used, AllUsed, LocalsAfter;
    assert s.currentTask in s.queue;
    ok := UseApart(s, p, kernel, at, use);
  }

  /** What happens to the machine: a timer interrupt, or the running task forks or does something to its memory. */
  datatype Action = Timer(esp: int, ebp: int) | CallFork(esp: int, ebp: int) | Do(use: Use)

  /** The event of the state machine that an action is. */
  predicate Means(a: Action, v: Tasking, e: Event, at: Place)
    requires Ok(v)
  {
    match a
    case Timer(esp, ebp) => e == TaskRuns.Switch(esp, ebp)
    case CallFork(esp, ebp) => e.Fork? && e.esp == esp && e.ebp == ebp
    case Do(use) => e == Overwrite(LocalsAfter(v.queue[v.current].locals, use, at))
  }

  ghost predicate AllMean(actions: seq<Action>, v: Tasking, es: seq<Event>, at: Place)
    requires Ok(v)
  {
    |es| <= |actions| && forall k | 0 <= k < |es| :: Means(actions[k], After(v, es[..k]), es[k], at)
  }

  lemma OneMeansMore(actions: seq<Action>, v: Tasking, es: seq<Event>, e: Event, at: Place)
    requires Ok(v) && AllMean(actions, v, es, at) && |es| < |actions| && Means(actions[|es|], After(v, es), e, at)
    ensures AllMean(actions, v, es + [e], at)
  {
    hide After, Means, Ok;
    var now := es + [e];
    forall k | 0 <= k < |now| ensures Means(actions[k], After(v, now[..k]), now[k], at) {
      assert now[..k] == es[..k];
      if k == |es| {
        assert es[..k] == es;
      } else {
        assert now[k] == es[k];
      }
    }
  }

  lemma OneEventMore(v: Tasking, es: seq<Event>, e: Event)
    requires Ok(v)
    ensures After(v, es + [e]) == Step(After(v, es), e)
    ensures Returns(v, es + [e]) == Returns(v, es) + ComingBack(After(v, es), e)
  {
    hide Step, ComingBack;
    assert (es + [e])[..|es|] == es;
  }

  lemma NothingReturns(v: Tasking, l: Locals)
    requires Ok(v)
    ensures ComingBack(v, Overwrite(l)) == []
  {}

  /** One action. A result of false is the PANIC of alloc_frame. */
  method Perform(s: Scheduler, p: Pager, kernel: Directory, at: Place, action: Action)
    returns (r: seq<Return>, ok: bool, ghost e: Event)
    requires s.Valid() && p.Valid() && at.Valid() && Stacked(s, p, kernel, at) && 0 in p.UsedFrames()
    requires action != Do(Unmap(at.page))
    modifies s, s.queue, p`owner, p`tables, p`placement, p.bitmap.words, p.ram, Directories(s), Tables(s)
    ensures !ok ==> AllUsed(p.bitmap.words[..])
    ensures ok ==>
      && s.Valid() && p.Valid() && Stacked(s, p, kernel, at) && 0 in p.UsedFrames()
      && Means(action, old(s.View()), e, at)
      && s.View() == Step(old(s.View()), e) && r == ComingBack(old(s.View()), e)
    ensures ok ==> forall i | 0 <= i < |s.queue| :: s.queue[i] in old(s.queue) || fresh(s.queue[i])
    ensures ok ==> forall d | d in Directories(s) :: d in old(Directories(s)) || fresh(d)
    ensures ok ==> forall t | t in Tables(s) :: t in old(Tables(s)) || fresh(t)
  {
    hide Scheduler.Chained, Ok, Step, Stacked, Pager.Ledger, Used, AllUsed, ComingBack, LocalsAfter, Directories,
         Tables;
    ghost var v := s.View();
    OkParts(v);
    match action
    case Timer(esp, ebp) =>
      e, ok := TaskRuns.Switch(esp, ebp), true;
      r := Switch(s, p, kernel, at, esp, ebp);
    case CallFork(esp, ebp) =>
      r, ok := Fork(s, p, kernel, at, esp, ebp);
      e := TaskRuns.Fork(esp, ebp, if ok then s.queue[|s.queue| - 1].directory else s.currentDirectory);
    case Do(use) =>
      e, r := Overwrite(LocalsAfter(v.queue[v.current].locals, use, at)), [];
      ok := UseMemory(s, p, kernel, at, use);
      NothingReturns(v, LocalsAfter(v.queue[v.current].locals, use, at));
  }

  /** The number c came back once, in a task older than c. */
  ghost predicate ReturnedOnce(values: seq<Return>, c: nat) {
    exists q: nat | q < c :: multiset(values)[Return(q, c)] == 1
  }

  /** Any run of timer interrupts, forks, stores, mappings and unmappings: what the kernel does to its linked queue and
      to memory is a run of the state machine, whose events the actions mean; what fork returns in the machine, reading
      its locals from the running task's own stack, is what it returns there; and so 0 comes back in each new task
      exactly once, when it first runs, and its number once, in an older task. A result of false is the PANIC of
      alloc_frame. */
  method Run(s: Scheduler, p: Pager, kernel: Directory, at: Place, actions: seq<Action>)
    returns (values: seq<Return>, ok: bool, ghost es: seq<Event>)
    requires s.Valid() && p.Valid() && at.Valid() && Stacked(s, p, kernel, at) && 0 in p.UsedFrames()
    requires Do(Unmap(at.page)) !in actions
    modifies s, s.queue, p`owner, p`tables, p`placement, p.bitmap.words, p.ram, Directories(s), Tables(s)
    ensures !ok ==> AllUsed(p.bitmap.words[..])
    ensures ok ==>
      && s.Valid() && p.Valid() && Stacked(s, p, kernel, at) && 0 in p.UsedFrames()
      && |es| == |actions| && AllMean(actions, old(s.View()), es, at)
      && s.View() == After(old(s.View()), es) && values == Returns(old(s.View()), es)
    ensures ok ==> forall c: nat ::
        multiset(values)[Return(c, 0)] == if Unborn(old(s.View()), c) && !Unborn(s.View(), c) then 1 else 0
    ensures ok ==> forall c: nat | old(s.nextPid) <= c < s.nextPid :: ReturnedOnce(values, c)
  {
    hide Ok, Step, Stacked, Pager.Ledger, Used, AllUsed, ComingBack, After, Returns, AllMean, Means, Unborn,
         Scheduler.Chained, Directories, Tables;
    ghost var v := s.View();
    values, ok, es := [], true, [];
    NoEvents(actions, v, at);
    var k := 0;
    while k < |actions|
      invariant k == |es| <= |actions| && ok
      invariant s.Valid() && p.Valid() && Stacked(s, p, kernel, at) && 0 in p.UsedFrames()
      invariant AllMean(actions, v, es, at) && s.View() == After(v, es) && values == Returns(v, es)
      invariant forall i | 0 <= i < |s.queue| :: s.queue[i] in old(s.queue) || fresh(s.queue[i])
      invariant forall d | d in Directories(s) :: d in old(Directories(s)) || fresh(d)
      invariant forall t | t in Tables(s) :: t in old(Tables(s)) || fresh(t)
    {
      var r;
      ghost var e;
      ghost var queue := s.queue;
      assert forall i | 0 <= i < |queue| :: queue[i] in old(s.queue) || fresh(queue[i]);
      r, ok, e := Perform(s, p, kernel, at, actions[k]);
      if !ok {
        return;
      }
      OneMeansMore(actions, v, es, e, at);
      OneEventMore(v, es, e);
      values, es, k := values + r, es + [e], k + 1;
    }
    forall c: nat
      ensures multiset(values)[Return(c, 0)] == if Unborn(v, c) && !Unborn(s.View(), c) then 1 else 0
    {
      ZeroOnceInTheChild(v, es, c);
    }
    forall c: nat | v.nextPid <= c < s.nextPid ensures ReturnedOnce(values, c) {
      var q := PidOnceInTheParent(v, es, c);
    }
  }

  lemma NoEvents(actions: seq<Action>, v: Tasking, at: Place)
    requires Ok(v)
    ensures AllMean(actions, v, [], at) && After(v, []) == v && Returns(v, []) == []
  {}
}
