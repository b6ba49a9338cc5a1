/** The scheduler as a state machine over runs of timer switches and forks. */
module TaskRuns {
  import opened Paging

  /** Where a saved eip continues: one of the two calls of read_eip, or nowhere yet. */
  datatype Point = Nowhere | InSwitch | InFork

  datatype Context = Context(esp: int, ebp: int, eip: Point, directory: Directory)

  /** The words of a task's own stack in which fork keeps parent_task and new_task: the numbers of the tasks they
      point to, or whatever else is there. */
  datatype Locals = Locals(parentTask: nat, newTask: nat)

  datatype Record = Record(id: nat, context: Context, locals: Locals)

  /** The ready queue, the position of the current task in it, and the next process number. */
  datatype Tasking = Tasking(queue: seq<Record>, current: nat, nextPid: nat)

  /** A switch or a fork, with the registers and the cloned directory that the C code takes from the machine, or the
      running task writing over those words of its stack. */
  datatype Event =
    | Switch(esp: int, ebp: int)
    | Fork(esp: int, ebp: int, directory: Directory)
    | Overwrite(locals: Locals)

  function Initial(directory: Directory, locals: Locals): Tasking {
    Tasking([Record(1, Context(0, 0, Nowhere, directory), locals)], 0, 2)
  }

  predicate Ok(s: Tasking) {
    && s.current < |s.queue|
    && s.nextPid == |s.queue| + 1
    && (forall i | 0 <= i < |s.queue| :: s.queue[i].id == i + 1)
    && (forall i | 0 <= i < |s.queue| && i != s.current && s.queue[i].context.eip.InFork? ::
          s.queue[i].locals.parentTask < s.queue[i].id)
  }

  function Next(s: Tasking): nat
    requires s.queue != []
  {
    if s.current + 1 < |s.queue| then s.current + 1 else 0
  }

  function Step(s: Tasking, e: Event): Tasking
    requires s.current < |s.queue|
  {
    var me := s.queue[s.current];
    match e
    case Switch(esp, ebp) =>
      var saved := me.(context := Context(esp, ebp, InSwitch, me.context.directory));
      Tasking(s.queue[s.current := saved], Next(s), s.nextPid)
    case Fork(esp, ebp, directory) =>
      // parent_task is set, the stack is copied, new_task is set
      var before := me.locals.(parentTask := me.id);
      var child := Record(s.nextPid, Context(esp, ebp, InFork, directory), before);
      var after := before.(newTask := s.nextPid);
      Tasking(s.queue[s.current := me.(locals := after)] + [child], s.current, s.nextPid + 1)
    case Overwrite(locals) =>
      s.(queue := s.queue[s.current := me.(locals := locals)])
  }

  /** Every task number is a position in the queue, and so there is never a second one. */
  lemma StepOk(s: Tasking, e: Event)
    requires Ok(s)
    ensures Ok(Step(s, e))
  {}

  function After(s: Tasking, es: seq<Event>): (t: Tasking)
    requires Ok(s)
    ensures Ok(t) && |t.queue| >= |s.queue|
  {
    if es == [] then s
    else
      var before := After(s, es[..|es| - 1]);
      StepOk(before, es[|es| - 1]);
      Step(before, es[|es| - 1])
  }

  function Switches(es: seq<Event>): nat {
    if es == [] then 0 else Switches(es[..|es| - 1]) + if es[|es| - 1].Switch? then 1 else 0
  }

  /** How many switches lie between the current task and the one at position q. */
  function Distance(s: Tasking, q: nat): (d: nat)
    requires s.current < |s.queue| && q < |s.queue|
    ensures d < |s.queue| && (d == 0 <==> q == s.current)
  {
    if q >= s.current then q - s.current else |s.queue| - s.current + q
  }

  /** Forks made while the current task stands behind position q in the queue: before the wrap. */
  function ForksBeforeWrap(s: Tasking, es: seq<Event>, q: nat): nat
    requires Ok(s)
  {
    if es == [] then 0
    else
      ForksBeforeWrap(s, es[..|es| - 1], q)
      + if es[|es| - 1].Fork? && q < After(s, es[..|es| - 1]).current then 1 else 0
  }

  /** The task at position q has not been current before the last event of the run. */
  ghost predicate NotYet(s: Tasking, es: seq<Event>, q: nat)
    requires Ok(s)
  {
    forall k | 0 <= k < |es| :: After(s, es[..k]).current != q
  }

  lemma OneNearer(s: Tasking, e: Event, q: nat)
    requires Ok(s) && q < |s.queue| && q != s.current
    ensures Distance(Step(s, e), q) + (if e.Switch? then 1 else 0)
            == Distance(s, q) + if e.Fork? && q < s.current then 1 else 0
  {}

  /** Until its turn comes, a task gets one switch nearer with each switch and one farther with each fork that is
      made before the wrap, and in no other way. */
  lemma {:induction false} RoundRobin(s: Tasking, es: seq<Event>, q: nat)
    requires Ok(s) && q < |s.queue| && NotYet(s, es, q)
    ensures Distance(After(s, es), q) + Switches(es) == Distance(s, q) + ForksBeforeWrap(s, es, q)
  {
    hide Ok, Step, Distance;
    if es != [] {
      var before := es[..|es| - 1];
      forall k | 0 <= k < |before| ensures After(s, before[..k]).current != q {
        assert before[..k] == es[..k];
      }
      RoundRobin(s, before, q);
      OneNearer(After(s, before), es[|es| - 1], q);
    }
  }

  /** So its turn comes within that many switches. */
  lemma TurnComes(s: Tasking, es: seq<Event>, q: nat) returns (k: nat)
    requires Ok(s) && q < |s.queue|
    requires Switches(es) >= Distance(s, q) + ForksBeforeWrap(s, es, q)
    ensures k <= |es| && After(s, es[..k]).current == q
  {
    assert es[..|es|] == es;
    if k' :| 0 <= k' < |es| && After(s, es[..k']).current == q {
      k := k';
    } else {
      RoundRobin(s, es, q);
      k := |es|;
    }
  }

  /** n rounds in which the current task forks and is then switched away from. */
  function ForkRounds(n: nat, d: Directory): seq<Event> {
    if n == 0 then [] else ForkRounds(n - 1, d) + [Fork(0, 0, d), Switch(0, 0)]
  }

  /** Forks can hold up the wrap for ever: when every new task forks in its turn, the first task never runs again. */
  lemma {:induction false} FirstTaskStarves(s: Tasking, n: nat, d: Directory)
    requires Ok(s) && 0 < s.current == |s.queue| - 1
    ensures Switches(ForkRounds(n, d)) == n
    ensures var t := After(s, ForkRounds(n, d)); t.current == |t.queue| - 1 == s.current + n
  {
    if n > 0 {
      var es := ForkRounds(n, d);
      FirstTaskStarves(s, n - 1, d);
      assert es[..|es| - 1] == ForkRounds(n - 1, d) + [Fork(0, 0, d)];
      assert (ForkRounds(n - 1, d) + [Fork(0, 0, d)])[..|es| - 2] == ForkRounds(n - 1, d);
    }
  }

  /** The directories of the forks of a run, in order. */
  function ForkedInto(es: seq<Event>): seq<Directory> {
    if es == [] then []
    else
      var e := es[|es| - 1];
      ForkedInto(es[..|es| - 1]) + if e.Fork? then [e.directory] else []
  }

  /** What the history of a run says of the task at position q: its registers are those of its own last switch away,
      or of its fork when it never ran; its directory is the one cloned for it. */
  function LastSaved(s: Tasking, es: seq<Event>, q: nat): Context
    requires Ok(s) && q < |s.queue| + |ForkedInto(es)|
    decreases |es|
  {
    if es == [] then s.queue[q].context
    else
      var before, e := es[..|es| - 1], es[|es| - 1];
      if e.Switch? && After(s, before).current == q then
        Context(e.esp, e.ebp, InSwitch,
                if q < |s.queue| then s.queue[q].context.directory else ForkedInto(es)[q - |s.queue|])
      else if e.Fork? && q == |s.queue| + |ForkedInto(before)| then
        Context(e.esp, e.ebp, InFork, e.directory)
      else LastSaved(s, before, q)
  }

  lemma {:induction false} DirectoryKept(s: Tasking, es: seq<Event>, q: nat)
    requires Ok(s)
    ensures |After(s, es).queue| == |s.queue| + |ForkedInto(es)|
    ensures q < |s.queue| ==> After(s, es).queue[q].context.directory == s.queue[q].context.directory
    ensures |s.queue| <= q < |s.queue| + |ForkedInto(es)| ==>
              After(s, es).queue[q].context.directory == ForkedInto(es)[q - |s.queue|]
  {
    if es != [] { DirectoryKept(s, es[..|es| - 1], q); }
  }

  /** No run of other tasks touches the record of a task, so what a switch loads is what that task last saved. */
  lemma {:induction false} ContextsKept(s: Tasking, es: seq<Event>, q: nat)
    requires Ok(s) && q < |s.queue| + |ForkedInto(es)|
    ensures |After(s, es).queue| == |s.queue| + |ForkedInto(es)|
    ensures After(s, es).queue[q].context == LastSaved(s, es, q)
  {
    if es != [] {
      var before := es[..|es| - 1];
      DirectoryKept(s, before, q);
      DirectoryKept(s, es, q);
      if q < |s.queue| + |ForkedInto(before)| { ContextsKept(s, before, q); }
    }
  }

  /** A fork coming back in the task with this number. */
  datatype Return = Return(pid: nat, value: nat)

  /** What fork returns to the task that runs its last lines: its parent_task is compared with the current task. */
  function ForkValue(me: nat, locals: Locals): nat {
    if me == locals.parentTask then locals.newTask else 0
  }

  /** The forks that come back at an event: in the caller, or in a task switched to inside fork. Either reads its own
      stack. */
  function ComingBack(s: Tasking, e: Event): seq<Return>
    requires Ok(s)
  {
    var t := Step(s, e);
    var r := t.queue[t.current];
    if e.Fork? || (e.Switch? && r.context.eip.InFork?) then [Return(r.id, ForkValue(r.id, r.locals))] else []
  }

  function Returns(s: Tasking, es: seq<Event>): seq<Return>
    requires Ok(s)
  {
    if es == [] then []
    else Returns(s, es[..|es| - 1]) + ComingBack(After(s, es[..|es| - 1]), es[|es| - 1])
  }

  /** The task with number c has not run since it was forked. */
  predicate Unborn(s: Tasking, c: nat)
    requires Ok(s)
  {
    c > |s.queue| || (c > 0 && s.queue[c - 1].context.eip.InFork? && s.current != c - 1)
  }

  lemma ComesBack(s: Tasking, e: Event, c: nat)
    requires Ok(s)
    ensures Ok(Step(s, e))
    ensures forall r | r in ComingBack(s, e) ::
              0 < r.pid <= |s.queue| && (r.value == 0 || (r.value == s.nextPid && e.Fork?))
    ensures multiset(ComingBack(s, e))[Return(c, 0)] == if Unborn(s, c) && !Unborn(Step(s, e), c) then 1 else 0
    ensures !Unborn(s, c) ==> !Unborn(Step(s, e), c)
  {}

  /** The fork that makes task c returns 0 in c exactly once, the first time that c runs, and never before. */
  lemma {:induction false} ZeroOnceInTheChild(s: Tasking, es: seq<Event>, c: nat)
    requires Ok(s)
    ensures multiset(Returns(s, es))[Return(c, 0)] == if Unborn(s, c) && !Unborn(After(s, es), c) then 1 else 0
    ensures !Unborn(s, c) ==> !Unborn(After(s, es), c)
  {
    if es != [] {
      var before := es[..|es| - 1];
      ZeroOnceInTheChild(s, before, c);
      ComesBack(After(s, before), es[|es| - 1], c);
    }
  }

  lemma {:induction false} ValuesAreForked(s: Tasking, es: seq<Event>)
    requires Ok(s)
    ensures forall r | r in Returns(s, es) :: r.value == 0 || s.nextPid <= r.value < After(s, es).nextPid
  {
    if es != [] {
      var before := es[..|es| - 1];
      ValuesAreForked(s, before);
      ComesBack(After(s, before), es[|es| - 1], 0);
    }
  }

  /** Each task made in a run has a parent, an older task, and there the fork returned the number of the new task:
      once, and nowhere else. */
  lemma {:induction false} PidOnceInTheParent(s: Tasking, es: seq<Event>, c: nat) returns (p: nat)
    requires Ok(s) && s.nextPid <= c < After(s, es).nextPid
    ensures 0 < p < c
    ensures multiset(Returns(s, es))[Return(p, c)] == 1
    ensures forall r | r in Returns(s, es) && r.value == c :: r.pid == p
  {
    var before := es[..|es| - 1];
    var e, t := es[|es| - 1], After(s, before);
    ValuesAreForked(s, before);
    ComesBack(t, e, 0);
    if c < t.nextPid {
      p := PidOnceInTheParent(s, before, c);
    } else {
      p := t.queue[t.current].id;
    }
  }
}
