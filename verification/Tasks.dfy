/** Tasks as the kernel keeps them: a linked ready queue that switch and fork change in place. */
module Tasks {
  import opened FrameBitmap
  import opened Paging
  import opened AddressSpaces
  import opened TaskRuns

  class Task {
    var id: nat
    var esp: int
    var ebp: int
    var eip: Point
    var directory: Directory
    var next: Task?
    /** What its stack holds in the places of parent_task and new_task. */
    ghost var locals: Locals

    constructor (id: nat, directory: Directory, ghost locals: Locals)
      ensures this.id == id && Saved() == Context(0, 0, Nowhere, directory) && next == null && this.locals == locals
    {
      this.id, esp, ebp, eip, this.directory, next := id, 0, 0, Nowhere, directory, null;
      this.locals := locals;
    }

    ghost function Saved(): Context
      reads this
    {
      Context(esp, ebp, eip, directory)
    }
  }

  /** Where fork keeps its locals: two words of one page of the stack, at the same virtual address in every task. */
  datatype Place = Place(page: nat, parentTask: nat, newTask: nat) {
    predicate Valid() {
      page < PAGES && parentTask < FRAME_WORDS && newTask < FRAME_WORDS && parentTask != newTask
    }
  }

  /** The page of the stack has these locals at that place. */
  ghost predicate OnStack(p: Pager, d: Directory, at: Place, l: Locals)
    requires at.Valid() && |d.tables| == ENTRIES && p.ram.Length1 == FRAME_WORDS
    reads p.ram, d, d.tables[at.page / ENTRIES]
  {
    var words := PageWords(p, d, at.page);
    words != [] && words[at.parentTask] == l.parentTask && words[at.newTask] == l.newTask
  }

  ghost predicate InMemory(m: Physical, f: nat, at: Place, l: Locals)
    requires at.Valid()
  {
    && f < |m.contents| && |m.contents[f]| == FRAME_WORDS
    && m.contents[f][at.parentTask] == l.parentTask && m.contents[f][at.newTask] == l.newTask
  }

  lemma OnStackInMemory(p: Pager, d: Directory, at: Place, l: Locals)
    requires p.Valid() && at.Valid() && |d.tables| == ENTRIES && FrameOf(d, at.page) != 0
    ensures OnStack(p, d, at, l) <==> InMemory(p.Snapshot(), FrameOf(d, at.page), at, l)
  {
    hide Pager.Ledger;
  }

  /** The clone's copy of a stack page holds what the page held when the clone was made; so does the page. */
  lemma StackCloned(p: Pager, o: Directory, kernel: Directory, c: Directory, m0: Physical, at: Place, l: Locals)
    requires p.Valid() && Clone(o, kernel, c, false, m0, p.Snapshot()) && Cloning(m0, p.Snapshot())
    requires at.Valid() && 0 in m0.used && FrameOf(o, at.page) != 0 && FrameOf(o, at.page) in m0.used
    requires InMemory(m0, FrameOf(o, at.page), at, l) && !Shared(o, kernel, at.page)
    ensures OnStack(p, c, at, l) && OnStack(p, o, at, l) && FrameOf(c, at.page) != FrameOf(o, at.page)
  {
    hide Pager.Ledger, Pager.Contents, TableCloned, OnStack;
    CloneTranslates(o, kernel, c, m0, p.Snapshot(), at.page);
    OnStackInMemory(p, c, at, l);
    OnStackInMemory(p, o, at, l);
  }

  /** And it still does whatever is written through another directory, as long as that is to pages behind other page
      tables: until the child runs, its locals are as the clone found them. */
  lemma StackSpared(p: Pager, other: Directory, child: Directory, m: Physical, ws: seq<Write>, at: Place, l: Locals)
    requires p.Valid() && p.Registered(other) && p.Registered(child) && at.Valid()
    requires forall w | w in ws :: w.page < PAGES
               && (other.tables[w.page / ENTRIES] == null
                   || other.tables[w.page / ENTRIES] != child.tables[at.page / ENTRIES])
    requires InMemory(m, FrameOf(child, at.page), at, l)
    ensures InMemory(m.(contents := AfterWrites(other, m.contents, ws)), FrameOf(child, at.page), at, l)
  {
    hide Pager.Valid, AfterWrites, FrameOf;
    WritesStayApart(p, other, child, m.contents, ws, at.page);
  }

  /** The stacks of the others are behind tables that are not in d. */
  ghost predicate OthersApart(p: Pager, d: Directory, others: set<Directory>, at: Place)
    requires at.Valid()
    reads p`tables, d, others
  {
    forall b | b in others :: p.Registered(b) && Apart(d, b, at.page)
  }

  /** Cloning writes no frame in use, and so no page. */
  lemma WordsKept(p: Pager, b: Directory, v: nat, words: seq<int>, m0: Physical)
    requires p.Valid() && p.Registered(b) && v < PAGES && |b.tables| == ENTRIES && Cloning(m0, p.Snapshot())
    requires FrameOf(b, v) != 0 ==> FrameOf(b, v) in m0.used && FrameOf(b, v) < |m0.contents|
    requires words == if 0 < FrameOf(b, v) < |m0.contents| then m0.contents[FrameOf(b, v)] else []
    ensures PageWords(p, b, v) == words
  {
    hide Pager.Ledger, Pager.Contents;
  }

  lemma OkParts(s: Tasking)
    requires Ok(s)
    ensures s.current < |s.queue| && s.nextPid == |s.queue| + 1
  {}

  lemma OneSwitch(s: Tasking, esp: int, ebp: int)
    requires Ok(s)
    ensures var t := Step(s, Switch(esp, ebp));
      && Ok(t) && |t.queue| == |s.queue| && t.nextPid == s.nextPid && t.current == Next(s)
      && (forall i | 0 <= i < |s.queue| :: t.queue[i] ==
            if i == s.current
            then Record(s.queue[i].id, Context(esp, ebp, InSwitch, s.queue[i].context.directory), s.queue[i].locals)
            else s.queue[i])
      && (t.queue[t.current].context.eip.InFork? ==> t.queue[t.current].locals.parentTask < t.queue[t.current].id)
  {
    StepOk(s, Switch(esp, ebp));
  }

  lemma StackThere(p: Pager, d: Directory, at: Place, l: Locals)
    requires at.Valid() && |d.tables| == ENTRIES && p.ram.Length1 == FRAME_WORDS && OnStack(p, d, at, l)
    ensures FrameOf(d, at.page) != 0
  {}

  /** The frames of the others are in use. */
  lemma OthersInUse(p: Pager, d: Directory, others: set<Directory>, at: Place)
    requires p.Valid() && at.Valid() && OthersApart(p, d, others, at)
    ensures forall b | b in others ::
              && p.Registered(b) && |b.tables| == ENTRIES
              && (FrameOf(b, at.page) < p.ram.Length0 || FrameOf(b, at.page) == 0)
              && (FrameOf(b, at.page) != 0 ==> FrameOf(b, at.page) in p.UsedFrames())
  {
    hide Pager.Ledger;
    forall b | b in others
      ensures FrameOf(b, at.page) < p.ram.Length0 || FrameOf(b, at.page) == 0
      ensures FrameOf(b, at.page) != 0 ==> FrameOf(b, at.page) in p.UsedFrames()
    {
      FrameInMemory(p, b, at.page);
      if FrameOf(b, at.page) != 0 { FrameInUse(p, b, at.page); }
    }
  }

  class Scheduler {
    var readyQueue: Task?
    var currentTask: Task?
    var currentDirectory: Directory
    var nextPid: nat
    /** The tasks of the ready queue in order, and the position of the current one. */
    ghost var queue: seq<Task>
    ghost var position: nat

    /** Following next from ready_queue passes every task once and ends at null. */
    ghost predicate Chained()
      reads this, queue
    {
      && queue != []
      && readyQueue == queue[0]
      && (forall i | 0 <= i < |queue| - 1 :: queue[i].next == queue[i + 1])
      && queue[|queue| - 1].next == null
      && (forall i, j | 0 <= i < j < |queue| :: queue[i] != queue[j])
      && position < |queue| && currentTask == queue[position]
    }

    ghost function View(): Tasking
      reads this, queue
    {
      Tasking(seq(|queue|, i requires 0 <= i < |queue| reads this, queue =>
                Record(queue[i].id, queue[i].Saved(), queue[i].locals)),
              position, nextPid)
    }

    ghost predicate Valid()
      reads this, queue
    {
      Chained() && Ok(View()) && currentDirectory == currentTask.directory
    }

    /** Before initialise_tasking there is no task. */
    ghost predicate Idle()
      reads this
    {
      readyQueue == null && currentTask == null && nextPid == 1 && queue == []
    }

    constructor (directory: Directory)
      ensures Idle() && currentDirectory == directory
    {
      readyQueue, currentTask, currentDirectory, nextPid := null, null, directory, 1;
      queue, position := [], 0;
    }

    /** initialise_tasking, after the stack has moved; it holds anything yet. */
    method InitialiseTasking(ghost locals: Locals)
      requires Idle()
      modifies this
      ensures Valid() && View() == Initial(old(currentDirectory), locals) && fresh(queue)
    {
      var task := new Task(nextPid, currentDirectory, locals);
      nextPid := nextPid + 1;
      readyQueue, currentTask := task, task;
      queue, position := [task], 0;
    }

    /** The timer. Without tasks, or coming out of a switch, where read_eip returns 0x12345, nothing is done; else the
        registers are saved, and what is loaded is what the next task saved. A task that goes on inside fork finds an
        older one in its parent_task. */
    method TaskSwitch(esp: int, ebp: int, justSwitched: bool) returns (loaded: Context)
      requires Idle() || Valid()
      modifies this, queue
      ensures old(Idle()) ==> Idle() && currentDirectory == old(currentDirectory)
      ensures old(Valid()) ==>
        && Valid() && queue == old(queue)
        && View() == (if justSwitched then old(View()) else Step(old(View()), Switch(esp, ebp)))
        && (!justSwitched ==> loaded == View().queue[View().current].context)
        && (!justSwitched && loaded.eip.InFork? ==> currentTask.locals.parentTask < currentTask.id)
    {
      loaded := Context(esp, ebp, InSwitch, currentDirectory);
      if currentTask == null || justSwitched {
        return;
      }
      loaded := SwitchAway(esp, ebp);
    }

    method SwitchAway(esp: int, ebp: int) returns (loaded: Context)
      requires Valid()
      modifies this, queue
      ensures Valid() && queue == old(queue)
      ensures View() == Step(old(View()), Switch(esp, ebp))
      ensures loaded == View().queue[View().current].context
      ensures loaded.eip.InFork? ==> currentTask.locals.parentTask < currentTask.id
    {
      hide Ok, Step;
      OkParts(View());
      OneSwitch(View(), esp, ebp);
      Suspend(esp, ebp);
      loaded := Resume();
      assert View().queue == Step(old(View()), Switch(esp, ebp)).queue;
    }

    /** The registers of the running task are saved. */
    method Suspend(esp: int, ebp: int)
      requires Chained()
      modifies currentTask
      ensures Chained() && currentTask.directory == old(currentTask.directory)
      ensures forall t | t in queue :: t.id == old(t.id) && t.locals == old(t.locals)
      ensures forall t | t in queue ::
                t.Saved() == if t == currentTask then Context(esp, ebp, InSwitch, old(t.directory)) else old(t.Saved())
    {
      currentTask.eip := InSwitch;
      currentTask.esp := esp;
      currentTask.ebp := ebp;
    }

    /** The registers of the next task in the queue, or of the first one, are loaded. */
    method Resume() returns (loaded: Context)
      requires Chained()
      modifies this`currentTask, this`currentDirectory, this`position
      ensures Chained() && position == if old(position) + 1 < |queue| then old(position) + 1 else 0
      ensures loaded == currentTask.Saved() && currentDirectory == currentTask.directory
    {
      currentTask := currentTask.next;
      position := if position + 1 < |queue| then position + 1 else 0;
      if currentTask == null { currentTask := readyQueue; }
      loaded := Context(currentTask.esp, currentTask.ebp, currentTask.eip, currentTask.directory);
      currentDirectory := currentTask.directory;
    }

    /** The end of the ready queue, found from its head. */
    method LastTask() returns (last: Task)
      requires Chained()
      ensures last == queue[|queue| - 1]
    {
      last := readyQueue;
      ghost var k := 0;
      while last.next != null
        invariant 0 <= k < |queue| && last == queue[k] && (k < |queue| - 1 ==> last.next == queue[k + 1])
        decreases |queue| - k
      {
        last := last.next;
        k := k + 1;
      }
    }

    /** The new task of fork, at the end of the queue, on a copy of the current task's stack. */
    method Append(directory: Directory) returns (task: Task)
      requires Valid()
      modifies this, queue
      ensures Chained() && fresh(task) && queue == old(queue) + [task] && position == old(position)
      ensures task.id == old(nextPid) && task.Saved() == Context(0, 0, Nowhere, directory)
      ensures task.locals == old(currentTask.locals)
      ensures nextPid == old(nextPid) + 1 && currentDirectory == old(currentDirectory)
      ensures forall t | t in old(queue) ::
                t.id == old(t.id) && t.Saved() == old(t.Saved()) && t.locals == old(t.locals)
    {
      task := new Task(nextPid, directory, currentTask.locals);
      nextPid := nextPid + 1;
      var last := LastTask();
      last.next := task;
      queue := queue + [task];
    }

    /** fork after the clone: the new task with the registers of the running one, read at its second half. The parent
        has set parent_task before the clone, and sets new_task now. */
    method Enqueue(directory: Directory, esp: int, ebp: int) returns (task: Task)
      requires Valid() && currentTask.locals.parentTask == currentTask.id
      modifies this, queue
      ensures Valid() && |queue| == |old(queue)| + 1 && queue[..|old(queue)|] == old(queue)
      ensures currentTask == old(currentTask) && currentDirectory == old(currentDirectory)
      ensures fresh(task) && task == queue[|old(queue)|] && task.id == old(nextPid) && task.directory == directory
      ensures task.locals == old(currentTask.locals)
      ensures currentTask.id == old(currentTask.id)
      ensures currentTask.locals == old(currentTask.locals.(newTask := nextPid))
      ensures View() == Step(old(View()), TaskRuns.Fork(esp, ebp, directory))
    {
      hide Ok;
      OkParts(View());
      task := Append(directory);
      currentTask.locals := currentTask.locals.(newTask := task.id);
      task.esp := esp;
      task.ebp := ebp;
      task.eip := InFork;
      StepOk(old(View()), TaskRuns.Fork(esp, ebp, directory));
      assert View().queue == Step(old(View()), TaskRuns.Fork(esp, ebp, directory)).queue;
    }

    /** The last lines of fork, as the parent runs them at once and the child when it is switched to: the locals are
        read from the running task's own stack. */
    function ComeBack(p: Pager, at: Place): (pid: nat)
      requires currentTask != null && at.Valid() && |currentDirectory.tables| == ENTRIES && p.ram.Length1 == FRAME_WORDS
      requires OnStack(p, currentDirectory, at, currentTask.locals)
      reads this, currentTask, currentDirectory, currentDirectory.tables[at.page / ENTRIES], p.ram
      ensures pid == ForkValue(currentTask.id, currentTask.locals)
    {
      var f := FrameOf(currentDirectory, at.page);
      if p.ram[f, at.parentTask] == currentTask.id then p.ram[f, at.newTask] else 0
    }

    /** parent_task goes on the running task's stack. */
    method SaveParent(p: Pager, at: Place, ghost others: set<Directory>)
      requires Valid() && p.Valid() && p.Registered(currentDirectory) && at.Valid()
      requires |currentDirectory.tables| == ENTRIES
      requires OnStack(p, currentDirectory, at, currentTask.locals) && OthersApart(p, currentDirectory, others, at)
      modifies p.ram, currentTask`locals
      ensures Valid() && p.Valid() && View() == Step(old(View()), Overwrite(currentTask.locals))
      ensures OnStack(p, currentDirectory, at, currentTask.locals)
      ensures currentTask.locals == old(currentTask.locals).(parentTask := currentTask.id)
      ensures forall b | b in others ::
                |b.tables| == ENTRIES && PageWords(p, b, at.page) == old(PageWords(p, b, at.page))
    {
      hide Ok, Pager.Ledger, PageWords;
      OkParts(View());
      StackThere(p, currentDirectory, at, currentTask.locals);
      StoreApart(p, currentDirectory, at.page, at.parentTask, currentTask.id, others, at.page);
      currentTask.locals := currentTask.locals.(parentTask := currentTask.id);
      StepOk(old(View()), Overwrite(currentTask.locals));
      assert View().queue == Step(old(View()), Overwrite(currentTask.locals)).queue;
    }

    /** The clone, with the stack as it is; it is apart from the others, and the others from it. */
    method CloneStack(p: Pager, kernel: Directory, at: Place, ghost others: set<Directory>)
      returns (directory: Directory, ok: bool)
      requires Valid() && p.Valid() && p.Registered(currentDirectory) && at.Valid()
      requires |currentDirectory.tables| == ENTRIES
      requires |kernel.tables| == ENTRIES && 0 in p.UsedFrames() && !Shared(currentDirectory, kernel, at.page)
      requires OnStack(p, currentDirectory, at, currentTask.locals) && OthersApart(p, currentDirectory, others, at)
      modifies p`owner, p`tables, p.bitmap.words, p.ram
      ensures p.Valid() && p.Registered(currentDirectory) && fresh(directory) && p.Registered(directory)
      ensures |directory.tables| == ENTRIES && old(p.tables) <= p.tables && old(p.UsedFrames()) <= p.UsedFrames()
      ensures |currentDirectory.tables| == ENTRIES
      ensures forall j | 0 <= j < ENTRIES && directory.tables[j] != null ::
                directory.tables[j] == currentDirectory.tables[j] || fresh(directory.tables[j])
      ensures ok ==>
        && OnStack(p, currentDirectory, at, currentTask.locals) && OnStack(p, directory, at, currentTask.locals)
        && Clone(currentDirectory, kernel, directory, false, old(p.Snapshot()), p.Snapshot())
        && Apart(currentDirectory, directory, at.page) && OthersApart(p, directory, others + {currentDirectory}, at)
        && (forall b | b in others :: |b.tables| == ENTRIES && Apart(b, directory, at.page))
        && !Shared(directory, kernel, at.page)
      ensures !ok ==> AllUsed(p.bitmap.words[..])
      ensures forall b | b in others ::
                |b.tables| == ENTRIES && PageWords(p, b, at.page) == old(PageWords(p, b, at.page))
    {
      hide Used, Pager.Ledger, AllUsed, Cloning, TableCloned, Pager.Contents, Ok, OnStack, Linked, Cloned, Clone;
      StackThere(p, currentDirectory, at, currentTask.locals);
      LinkedSize(currentDirectory);
      FrameInUse(p, currentDirectory, at.page);
      OnStackInMemory(p, currentDirectory, at, currentTask.locals);
      ghost var m0 := p.Snapshot();
      OthersInUse(p, currentDirectory, others, at);
      directory, ok := p.CloneDirectory(currentDirectory, kernel, false);
      LinkedSize(directory);
      Growing(m0, p.Snapshot());
      forall b | b in others
        ensures |b.tables| == ENTRIES && PageWords(p, b, at.page) == old(PageWords(p, b, at.page))
      {
        WordsKept(p, b, at.page, old(PageWords(p, b, at.page)), m0);
      }
      if ok {
        StackCloned(p, currentDirectory, kernel, directory, m0, at, currentTask.locals);
        ClonesAreApart(currentDirectory, kernel, directory, m0, p.Snapshot(), at.page);
      }
    }

    /** new_task goes on the parent's stack, which the child does not see any more. */
    method SaveChild(p: Pager, at: Place, task: Task, ghost before: Locals, ghost others: set<Directory>)
      requires p.Valid() && at.Valid() && |currentDirectory.tables| == ENTRIES && p.Registered(currentDirectory)
      requires currentTask != null && OnStack(p, currentDirectory, at, before)
      requires currentTask.locals == before.(newTask := task.id)
      requires OthersApart(p, currentDirectory, others, at)
      modifies p.ram
      ensures p.Valid() && OnStack(p, currentDirectory, at, currentTask.locals)
      ensures forall b | b in others ::
                |b.tables| == ENTRIES && PageWords(p, b, at.page) == old(PageWords(p, b, at.page))
    {
      hide Pager.Ledger, PageWords;
      StackThere(p, currentDirectory, at, before);
      StoreApart(p, currentDirectory, at.page, at.newTask, task.id, others, at.page);
    }

    lemma Now()
      requires Valid()
      ensures position < |queue| && currentTask == queue[position] && currentDirectory == currentTask.directory
      ensures View().current == position && |View().queue| == |queue|
      ensures View().queue[position] == Record(currentTask.id, currentTask.Saved(), currentTask.locals)
    {}

    lemma SaveThenFork(v: Tasking, newTask: nat, esp: int, ebp: int, d: Directory)
      requires v.current < |v.queue| && newTask == v.queue[v.current].locals.newTask
      ensures Step(Step(v, Overwrite(Locals(v.queue[v.current].id, newTask))), TaskRuns.Fork(esp, ebp, d))
              == Step(v, TaskRuns.Fork(esp, ebp, d))
    {
      var a, b := Step(Step(v, Overwrite(Locals(v.queue[v.current].id, newTask))), TaskRuns.Fork(esp, ebp, d)),
                  Step(v, TaskRuns.Fork(esp, ebp, d));
      assert a.queue == b.queue;
    }

    /** fork in the parent after the clone. */
    method FinishFork(p: Pager, at: Place, directory: Directory, esp: int, ebp: int, ghost others: set<Directory>)
      returns (pid: nat)
      requires Valid() && p.Valid() && at.Valid() && |currentDirectory.tables| == ENTRIES
      requires |directory.tables| == ENTRIES
      requires OnStack(p, currentDirectory, at, currentTask.locals) && OnStack(p, directory, at, currentTask.locals)
      requires p.Registered(currentDirectory) && p.Registered(directory) && Apart(currentDirectory, directory, at.page)
      requires OthersApart(p, currentDirectory, others, at) && currentTask.locals.parentTask == currentTask.id
      modifies this, queue, p.ram
      ensures Valid() && p.Valid() && pid == |queue| && queue != [] && queue[..pid - 1] == old(queue)
      ensures queue[pid - 1].directory == directory && fresh(queue[pid - 1])
      ensures View() == Step(old(View()), TaskRuns.Fork(esp, ebp, directory))
      ensures currentTask == old(currentTask) && currentDirectory == old(currentDirectory)
      ensures pid == ForkValue(currentTask.id, currentTask.locals)
      ensures OnStack(p, currentDirectory, at, currentTask.locals) && OnStack(p, directory, at, queue[pid - 1].locals)
      ensures forall b | b in others ::
                |b.tables| == ENTRIES && PageWords(p, b, at.page) == old(PageWords(p, b, at.page))
    {
      hide Ok, Step, FrameOf, Pager.Ledger, Used, PageWords;
      OkParts(View());
      ghost var before := currentTask.locals;
      assert nextPid == |queue| + 1;
      var task := Enqueue(directory, esp, ebp);
      SaveChild(p, at, task, before, others + {directory});
      pid := ComeBack(p, at);
      assert currentTask.locals.newTask == task.id;
    }

    /** fork in the parent up to the clone. */
    method StartFork(p: Pager, kernel: Directory, at: Place, ghost others: set<Directory>)
      returns (directory: Directory, ok: bool)
      requires Valid() && p.Valid() && p.Registered(currentDirectory) && at.Valid()
      requires |currentDirectory.tables| == ENTRIES
      requires |kernel.tables| == ENTRIES && 0 in p.UsedFrames() && !Shared(currentDirectory, kernel, at.page)
      requires OnStack(p, currentDirectory, at, currentTask.locals) && OthersApart(p, currentDirectory, others, at)
      modifies currentTask`locals, p`owner, p`tables, p.bitmap.words, p.ram
      ensures Valid() && p.Valid() && p.Registered(currentDirectory) && p.Registered(directory) && fresh(directory)
      ensures |directory.tables| == ENTRIES && old(p.tables) <= p.tables && old(p.UsedFrames()) <= p.UsedFrames()
      ensures |currentDirectory.tables| == ENTRIES
      ensures forall j | 0 <= j < ENTRIES && directory.tables[j] != null ::
                directory.tables[j] == currentDirectory.tables[j] || fresh(directory.tables[j])
      ensures OthersApart(p, currentDirectory, others, at)
      ensures View() == Step(old(View()), Overwrite(currentTask.locals))
      ensures currentTask.locals == old(currentTask.locals).(parentTask := currentTask.id)
      ensures if ok then OnStack(p, currentDirectory, at, currentTask.locals)
                         && OnStack(p, directory, at, currentTask.locals)
                         && Apart(currentDirectory, directory, at.page)
                         && OthersApart(p, directory, others + {currentDirectory}, at)
                         && (forall b | b in others :: |b.tables| == ENTRIES && Apart(b, directory, at.page))
                         && !Shared(directory, kernel, at.page)
              else AllUsed(p.bitmap.words[..])
      ensures forall b | b in others ::
                |b.tables| == ENTRIES && PageWords(p, b, at.page) == old(PageWords(p, b, at.page))
    {
      hide Used, Pager.Ledger, AllUsed, Cloning, Clone, Ok, OnStack, Step, FrameOf, PageWords;
      SaveParent(p, at, others);
      ghost var saved := View();
      directory, ok := CloneStack(p, kernel, at, others);
      assert View() == saved;
    }

    /** fork in the parent: parent_task goes on the stack, the address space is cloned, the new task is queued, and
        new_task goes on the stack. The stacks of the others stay as they are, and the new one is apart from them. A
        result of false is the PANIC of the clone. */
    method ForkProcess(p: Pager, kernel: Directory, at: Place, esp: int, ebp: int, ghost others: set<Directory>)
      returns (pid: nat, ok: bool)
      requires Valid() && p.Valid() && p.Registered(currentDirectory) && at.Valid()
      requires |currentDirectory.tables| == ENTRIES
      requires |kernel.tables| == ENTRIES && 0 in p.UsedFrames() && !Shared(currentDirectory, kernel, at.page)
      requires OnStack(p, currentDirectory, at, currentTask.locals) && OthersApart(p, currentDirectory, others, at)
      modifies this, queue, p`owner, p`tables, p.bitmap.words, p.ram
      ensures Valid() && p.Valid() && currentTask == old(currentTask) && currentDirectory == old(currentDirectory)
      ensures p.Registered(currentDirectory) && old(p.tables) <= p.tables && old(p.UsedFrames()) <= p.UsedFrames()
      ensures ok ==>
        && pid == |queue| && queue[..pid - 1] == old(queue) && fresh(queue[pid - 1])
        && pid == ForkValue(currentTask.id, currentTask.locals)
        && View() == Step(old(View()), TaskRuns.Fork(esp, ebp, queue[pid - 1].directory))
        && OnStack(p, currentDirectory, at, currentTask.locals)
        && var child := queue[pid - 1].directory;
           && fresh(child) && p.Registered(child) && |child.tables| == ENTRIES && !Shared(child, kernel, at.page)
           && (forall j | 0 <= j < ENTRIES && child.tables[j] != null ::
                 child.tables[j] == old(currentDirectory.tables)[j] || fresh(child.tables[j]))
           && OnStack(p, child, at, queue[pid - 1].locals)
           && Apart(currentDirectory, child, at.page) && OthersApart(p, child, others + {currentDirectory}, at)
           && forall b | b in others :: |b.tables| == ENTRIES && Apart(b, child, at.page)
      ensures forall b | b in others ::
                |b.tables| == ENTRIES && PageWords(p, b, at.page) == old(PageWords(p, b, at.page))
      ensures !ok ==> AllUsed(p.bitmap.words[..]) && queue == old(queue)
    {
      hide Used, Pager.Ledger, AllUsed, Ok, Chained, OnStack, Step, FrameOf, PageWords, Apart, OthersApart, Shared,
           Linked;
      OkParts(View());
      Now();
      pid := 0;
      ghost var newTask := currentTask.locals.newTask;
      var directory;
      directory, ok := StartFork(p, kernel, at, others);
      if ok {
        pid := FinishFork(p, at, directory, esp, ebp, others);
        SaveThenFork(old(View()), newTask, esp, ebp, directory);
      }
    }

    /** fork in a child, which has just been switched to: its own parent_task is that of its parent. */
    function ForkInChild(p: Pager, at: Place): (pid: nat)
      requires Valid() && at.Valid() && |currentDirectory.tables| == ENTRIES && p.ram.Length1 == FRAME_WORDS
      requires OnStack(p, currentDirectory, at, currentTask.locals)
      requires currentTask.locals.parentTask < currentTask.id
      reads this, queue, currentDirectory, currentDirectory.tables[at.page / ENTRIES], p.ram
      ensures pid == 0 == ForkValue(currentTask.id, currentTask.locals)
    {
      ComeBack(p, at)
    }
  }
}
