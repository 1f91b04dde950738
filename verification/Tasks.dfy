/** The tasks of task.c as linked objects, edited in place. Each operation is
    proved to be the step of the same name in Ring and Scheduling. */
module Tasks {
  import opened Wrappers
  import opened Words
  import opened Ring
  import opened Scheduling

  class Task {
    const tid: nat
    const pdir: Word           // its page directory, as a kernel address
    const kstack: Word         // the page of its kernel stack
    var state: TaskState
    var next: Task
    var prev: Task

    constructor (id: nat, directory: Word, stack: Word)
      ensures tid == id && pdir == directory && kstack == stack
      ensures state == Runnable && next == this && prev == this
    {
      tid, pdir, kstack := id, directory, stack;
      state := Runnable;
      next := this;
      prev := this;
    }
  }

  class Kernel {
    var tid: nat               // static uint8_t tid
    var fgtask: Task?
    var htask: Task?
    const isRunning: array<bool>
    ghost var tasks: set<Task>

    ghost function Nodes(): map<Task, Node<Task>>
      reads this`tasks, tasks
    {
      map t | t in tasks :: Node(t.next, t.prev, t.state, t.tid)
    }

    ghost function Now(): Sched<Task>
      reads this, tasks, isRunning
    {
      Sched(Nodes(), AsOption(fgtask), AsOption(htask), tid, isRunning[..])
    }

    ghost predicate Valid()
      reads this, tasks, isRunning
    {
      Holds(Closed(Now()))
    }

    constructor ()
      ensures Valid() && fresh(isRunning) && tasks == {} && fgtask == null && htask == null && tid == 0
      ensures isRunning[..] == seq(0x200, _ => false)
    {
      tid, fgtask, htask := 0, null, null;
      isRunning := new bool[0x200](_ => false);
      tasks := {};
    }

    /** t->next = n */
    method SetNextOf(t: Task, n: Task)
      requires t in tasks
      modifies t`next
      ensures t in old(Nodes()) && Nodes() == SetNext(old(Nodes()), t, n)
    {
      t.next := n;
    }

    /** t->prev = p */
    method SetPrevOf(t: Task, p: Task)
      requires t in tasks
      modifies t`prev
      ensures t in old(Nodes()) && Nodes() == SetPrev(old(Nodes()), t, p)
    {
      t.prev := p;
    }

    /** t->state = st */
    method SetStateOf(t: Task, st: TaskState)
      requires t in tasks
      modifies t`state
      ensures t in old(Nodes()) && Nodes() == SetState(old(Nodes()), t, st)
    {
      t.state := st;
    }

    /** The end of task_alloc: the new task goes in just before htask. */
    method Link(ntask: Task)
      requires Valid() && ntask !in tasks && ntask.tid == tid && ntask.state == Runnable
      modifies this`htask, this`tasks, this`tid, tasks, ntask
      ensures tasks == old(tasks) + {ntask} && Now() == LinkOf(old(Now()), ntask)
    {
      ghost var s := Now();
      assert htask != null ==> At(s.nodes, htask);
      LinkFirst(ntask);
      if htask != null {
        LinkNeighbours(ntask, htask, htask.prev);
      }
      ghost var linked := Nodes();
      htask := ntask;
      tid := (tid + 1) % 256;
      assert Nodes() == linked;
      LinkIs(s, Now(), ntask);
    }

    /** htask->prev->next = ntask, htask->prev = ntask */
    method LinkNeighbours(ntask: Task, h: Task, ghost p: Task)
      requires h in tasks && p == h.prev && p in tasks
      modifies tasks
      ensures h in old(Nodes()) && p in old(Nodes())
      ensures Nodes() == SetPrev(SetNext(old(Nodes()), p, ntask), h, ntask)
    {
      SetNextOf(h.prev, ntask);
      SetPrevOf(h, ntask);
    }

    /** The new task's own links; the task joins the heap. */
    method LinkFirst(ntask: Task)
      requires Valid() && ntask !in tasks && ntask.tid == tid && ntask.state == Runnable
      modifies this`tasks, ntask
      ensures tasks == old(tasks) + {ntask}
      ensures htask == null ==>
        Now() == old(Now()).(nodes := old(Nodes())[ntask := Node(ntask, ntask, Runnable, tid)])
      ensures htask != null ==>
        Now() == old(Now()).(nodes := old(Nodes())[ntask := NodeOf(htask, old(htask.prev), tid)])
      ensures forall t :: t in old(tasks) ==> t.prev == old(t.prev)
    {
      if htask != null {
        ntask.next := htask;
        ntask.prev := htask.prev;
      } else {
        ntask.next := ntask;
        ntask.prev := ntask;
      }
      tasks := tasks + {ntask};
      assert Nodes() == old(Nodes())[ntask := Node(ntask.next, ntask.prev, Runnable, tid)];
    }

    /** task_alloc, by how far its allocations get. The first two come before the
        tid is consumed, the page directory and the rest after it; pdir and kstack
        are what they gave. */
    method TaskAlloc(outcome: Outcome, pdir: Word, kstack: Word) returns (ntask: Task?)
      requires Valid()
      modifies this`htask, this`tasks, this`tid, tasks
      ensures outcome == NoFrames ==> ntask == null && Now() == old(Now())
      ensures outcome == NoDirectory ==> ntask == null && Now() == old(Now()).(tid := (old(tid) + 1) % 256)
      ensures outcome == NoStack || outcome == Forked ==>
        ntask != null && fresh(ntask) && ntask.tid == old(tid) && ntask.pdir == pdir && ntask.kstack == kstack
        && tasks == old(tasks) + {ntask} && Now() == LinkOf(old(Now()), ntask)
      ensures ntask == null ==> tasks == old(tasks)
    {
      if outcome == NoFrames {
        return null;
      }
      if outcome == NoDirectory {
        tid := (tid + 1) % 256;
        return null;
      }
      ghost var s := Now();
      ntask := new Task(tid, pdir, kstack);
      assert Now() == s;
      Link(ntask);
    }

    /** task_fork: -1, 0 or the child's tid. */
    method TaskFork(outcome: Outcome, pdir: Word, kstack: Word) returns (r: int, child: Task?)
      requires Valid() && htask != null
      modifies this`htask, this`tasks, this`tid, tasks, isRunning
      ensures child == null <==> outcome == NoFrames || outcome == NoDirectory
      ensures r == ForkAnswer(old(Now()), outcome)
      ensures child == null ==> tasks == old(tasks)
      ensures child != null ==> fresh(child) && tasks == old(tasks) + {child}
      ensures child != null ==> child.pdir == pdir && child.kstack == kstack
      ensures child != null ==> Now() == ForkOf(old(Now()), child, outcome)
      ensures outcome == NoFrames ==> Now() == old(Now())
      ensures outcome == NoDirectory ==> Now() == old(Now()).(tid := (old(tid) + 1) % 256)
    {
      child := TaskAlloc(outcome, pdir, kstack);
      if child == null {
        return -1, null;
      }
      if outcome == NoStack {
        return 0, child;
      }
      isRunning[child.tid] := true;
      r := child.tid;
    }

    /** task_exit */
    method TaskExit(task: Task)
      requires Valid() && task in tasks
      modifies this`fgtask, tasks, isRunning
      ensures tasks == old(tasks)
      ensures Now() == UnlinkOf(old(Now()), task)
    {
      ghost var s := Now();
      assert At(s.nodes, task);
      fgtask := task.next;
      ghost var n, p := task.next, task.prev;
      assert Nodes() == s.nodes;
      Unlink(task, n, p);
      ghost var unlinked := Nodes();
      assert s.nodes[task].tid == task.tid;
      isRunning[task.tid] := false;
      assert Nodes() == unlinked;
      UnlinkIs(s, Now(), task, n, p);
    }

    /** task->prev->next = task->next, task->next->prev = task->prev, STOPPED */
    method Unlink(task: Task, ghost n: Task, ghost p: Task)
      requires task in tasks && n == task.next && p == task.prev && n in tasks && p in tasks
      modifies tasks
      ensures p in old(Nodes()) && n in old(Nodes()) && task in old(Nodes())
      ensures Nodes() == SetState(SetPrev(SetNext(old(Nodes()), p, n), n, p), task, Stopped)
    {
      SetNextOf(task.prev, task.next);
      SetPrevOf(task.next, task.prev);
      SetStateOf(task, Stopped);
    }

    /** task_yield */
    method TaskYield()
      requires Valid()
      modifies tasks
      ensures tasks == old(tasks) && fgtask == old(fgtask)
      ensures Now() == YieldOf(old(Now()))
    {
      if fgtask == null {
        return;
      }
      SetStateOf(fgtask, Runnable);
    }

    /** One turn of the scheduler's loop, up to the switch to the task. It ends
        because some task within reach is RUNNABLE; DispatchFinds says when. */
    method Dispatch(ghost m: nat)
      requires Valid() && fgtask != null && Chooses(Now(), m)
      modifies this`fgtask, tasks
      ensures tasks == old(tasks)
      ensures Now() == DispatchOf(old(Now()), m)
    {
      ghost var s, k := Now(), 1;
      assert At(s.nodes, fgtask);
      assert Advance(s.nodes, fgtask, 0) == fgtask;
      fgtask := fgtask.next;
      while fgtask.state != Runnable
        invariant fgtask in tasks && 1 <= k <= m
        invariant fgtask == Advance(s.nodes, s.fg.value, k)
        invariant Now() == s.(fg := Some(fgtask))
        decreases m - k
      {
        assert At(s.nodes, fgtask);
        fgtask := fgtask.next;
        k := k + 1;
      }
      SetStateOf(fgtask, Running);
    }
  }

  /** A new task's record. */
  function NodeOf(next: Task, prev: Task, id: nat): Node<Task> {
    Node(next, prev, Runnable, id)
  }

  function AsOption(t: Task?): Option<Task> {
    if t == null then None else Some(t)
  }
}
