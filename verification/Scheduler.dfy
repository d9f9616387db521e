/** The priority scheduler: five intrusive ready queues, a sleeping list and the running task. */
module Scheduler {
  import opened Bytes

  const CLASSES: nat := 5
  const PRIORITY_NORMAL: nat := 2

  datatype TaskState = Ready | Running | Blocked | Sleeping | Suspended | Terminated

  class Thread {
    const id: nat
    const priority: int
    var next: Thread?
    var state: TaskState
    var sleepUntil: nat
    var timeSlice: nat

    constructor (id: nat, priority: int)
      ensures this.id == id && this.priority == priority && next == null && state == Ready
    {
      this.id, this.priority, next, state, sleepUntil, timeSlice := id, priority, null, Ready, 0, 0;
    }
  }

  /** The ready queue of a priority; values outside the five classes go to the normal one. */
  function Slot(priority: int): (p: nat)
    ensures p < CLASSES
  {
    if 0 <= priority < CLASSES then priority else PRIORITY_NORMAL
  }

  /** The time slice given to a task when it is picked; other priorities keep theirs. */
  function SliceFor(priority: int, was: nat): nat {
    match priority
    case 0 => 20
    case 1 => 15
    case 2 => 10
    case 3 => 5
    case 4 => 3
    case _ => was
  }

  // ---- Lists ----

  function HeadOf(s: seq<Thread>): Thread? {
    if s == [] then null else s[0]
  }

  function LastOf(s: seq<Thread>): Thread? {
    if s == [] then null else s[|s| - 1]
  }

  function After(s: seq<Thread>, i: nat): Thread?
    requires i < |s|
  {
    if i + 1 < |s| then s[i + 1] else null
  }

  /** The `next` pointers run through `s` in order. */
  ghost predicate Chained(s: seq<Thread>)
    reads s`next
  {
    forall i: nat {:trigger s[i].next} | i < |s| :: s[i].next == After(s, i)
  }

  ghost predicate NoDup(s: seq<Thread>) {
    forall i, j | 0 <= i < j < |s| :: s[i] != s[j]
  }

  /** The members of `s` that are not in `d`, in order. */
  ghost function Without(s: seq<Thread>, d: set<Thread>): (r: seq<Thread>)
    ensures forall t | t in r :: t in s && t !in d
    ensures forall t | t in s && t !in d :: t in r
  {
    if s == [] then []
    else
      var m := |s| - 1;
      if s[m] in d then Without(s[..m], d) else Without(s[..m], d) + [s[m]]
  }

  /** The members of `s` that are in `d` and belong to queue `p`, in order. */
  ghost function Picked(s: seq<Thread>, d: set<Thread>, p: nat): (r: seq<Thread>)
    ensures forall t | t in r :: t in s && t in d && Slot(t.priority) == p
    ensures forall t | t in s && t in d && Slot(t.priority) == p :: t in r
  {
    if s == [] then []
    else
      var m := |s| - 1;
      if s[m] in d && Slot(s[m].priority) == p then Picked(s[..m], d, p) + [s[m]] else Picked(s[..m], d, p)
  }

  class Scheduler {
    const heads: array<Thread?>
    const tails: array<Thread?>
    var current: Thread?
    var sleeping: Thread?
    var nextId: nat
    var tick: nat
    var enabled: bool
    ghost var queues: seq<seq<Thread>>
    ghost var sleepers: seq<Thread>
    ghost var tasks: set<Thread>

    /** Queue `p`: head, tail and links agree with the ghost queue, whose members are ready and of this class. */
    ghost predicate QueueOk(p: nat)
      requires heads.Length == CLASSES && tails.Length == CLASSES && |queues| == CLASSES && p < CLASSES
      reads this`queues, this`tasks, heads, tails, tasks`next, tasks`state
    {
      && (forall t | t in queues[p] :: t in tasks && t.state == Ready && Slot(t.priority) == p)
      && heads[p] == HeadOf(queues[p]) && tails[p] == LastOf(queues[p]) && Chained(queues[p]) && NoDup(queues[p])
    }

    ghost predicate SleepersOk()
      reads this`sleepers, this`sleeping, this`tasks, tasks`next, tasks`state
    {
      && (forall t | t in sleepers :: t in tasks && t.state == Sleeping)
      && sleeping == HeadOf(sleepers) && Chained(sleepers) && NoDup(sleepers)
    }

    ghost predicate Lists()
      reads this`queues, this`tasks, this`sleepers, this`sleeping, heads, tails, tasks`next, tasks`state
    {
      && heads.Length == CLASSES && tails.Length == CLASSES && heads != tails && |queues| == CLASSES
      && (forall p: nat | p < CLASSES :: QueueOk(p))
      && SleepersOk()
    }

    /** Task `t` is on no list. */
    ghost predicate Loose(t: Thread)
      reads this`queues, this`sleepers
    {
      |queues| == CLASSES && t !in sleepers && forall p: nat | p < CLASSES :: t !in queues[p]
    }

    /** A queue is in order as long as nobody touches it or its members. */
    twostate lemma QueueKept(p: nat)
      requires p < CLASSES && heads.Length == CLASSES && tails.Length == CLASSES
      requires |queues| == CLASSES && |old(queues)| == CLASSES && tasks == old(tasks)
      requires old(QueueOk(p)) && queues[p] == old(queues)[p] && heads[p] == old(heads[p]) && tails[p] == old(tails[p])
      requires forall t | t in queues[p] :: t.next == old(t.next) && t.state == old(t.state)
      ensures QueueOk(p)
    {
    }

    twostate lemma SleepersKept()
      requires old(SleepersOk()) && sleepers == old(sleepers) && sleeping == old(sleeping) && tasks == old(tasks)
      requires forall t | t in sleepers :: t.next == old(t.next) && t.state == old(t.state)
      ensures SleepersOk()
    {
    }

    method AddToReadyQueue(task: Thread)
      requires Lists() && task in tasks && Loose(task)
      modifies heads, tails, this`queues, tasks`next, tasks`state
      ensures Lists() && queues == old(queues)[Slot(task.priority) := old(queues)[Slot(task.priority)] + [task]]
      ensures sleepers == old(sleepers)
      ensures task.state == Ready && forall t | t in tasks && t != task :: t.state == old(t.state)
    {
      hide NoDup;
      var p := Slot(task.priority);
      ghost var q := queues[p];
      assert QueueOk(p);
      BackDistinct(q, task);
      LastAlone(q);
      task.state := Ready;
      task.next := null;
      if heads[p] == null {
        heads[p] := task;
        tails[p] := task;
      } else {
        tails[p].next := task;
        tails[p] := task;
      }
      queues := queues[p := q + [task]];
      assert QueueOk(p);
      forall r: nat | r < CLASSES
        ensures QueueOk(r)
      {
        if r != p {
          assert old(QueueOk(r));
          QueueKept(r);
        }
      }
      SleepersKept();
    }

    /** Unlinks the head of the best non-empty queue. */
    method GetHighestPriorityTask() returns (task: Thread?)
      requires Lists()
      modifies heads, tails, this`queues, tasks`next
      ensures Lists() && sleepers == old(sleepers)
      ensures task == null ==> queues == old(queues) && forall p: nat | p < CLASSES :: queues[p] == []
      ensures task != null ==> Best(old(queues), Slot(task.priority)) && task == old(queues)[Slot(task.priority)][0]
      ensures task != null ==> queues == old(queues)[Slot(task.priority) := old(queues)[Slot(task.priority)][1..]]
      ensures task != null ==> task in tasks && task.state == Ready && Loose(task) && task.next == null
    {
      var p := 0;
      while p < CLASSES
        invariant 0 <= p <= CLASSES && Lists() && queues == old(queues) && sleepers == old(sleepers)
        invariant forall r: nat | r < p :: queues[r] == []
        invariant forall t | t in tasks :: t.next == old(t.next)
      {
        assert QueueOk(p);
        if heads[p] != null {
          task := heads[p];
          ghost var q := queues[p];
          heads[p] := heads[p].next;
          if heads[p] == null {
            tails[p] := null;
          }
          task.next := null;
          queues := queues[p := q[1..]];
          forall r: nat | r < CLASSES
            ensures QueueOk(r) && task !in queues[r]
          {
            if r != p { assert old(QueueOk(r)); }
          }
          return;
        }
        p := p + 1;
      }
      task := null;
    }

    /** The sleepers whose time has come. */
    ghost function Due(): set<Thread>
      reads this, sleepers`sleepUntil
    {
      DueOf(sleepers, tick)
    }

    /** Moves every due sleeper to its ready queue, walking the list once. */
    method ProcessSleepingTasks()
      requires Lists()
      modifies heads, tails, this`queues, this`sleeping, this`sleepers, tasks`next, tasks`state
      ensures Lists() && Woken(old(queues), queues, old(sleepers), old(Due()))
      ensures sleepers == Without(old(sleepers), old(Due()))
      ensures forall t | t in tasks :: t.state == if t in old(Due()) then Ready else old(t.state)
      ensures forall t | t in tasks && old(Loose(t)) :: Loose(t)
    {
      hide Picked, Without, Woken, NoDup;
      ghost var orig, due, qs := sleepers, Due(), queues;
      ghost var done: seq<Thread>, kept: seq<Thread>, rest := [], [], orig;
      StartWoken(qs, due);
      var prev: Thread? := null;
      var cur := sleeping;
      while cur != null
        invariant Lists() && Woken(qs, queues, done, due) && kept == Without(done, due) && orig == done + rest
        invariant sleepers == kept + rest && prev == LastOf(kept) && cur == HeadOf(rest)
        invariant forall t | t in tasks :: t.state == if t in due && t in done then Ready else old(t.state)
        invariant forall t | t in tasks && old(Loose(t)) :: Loose(t)
        decreases |rest|
      {
        assert sleepers[|kept|] == cur && orig[|done|] == cur;
        StepWoken(done, cur, due);
        if tick >= cur.sleepUntil {
          ghost var qs2 := queues;
          WakeOne(prev, cur, kept, rest);
          WokenNext(qs, qs2, queues, done, cur, due);
          cur := if prev == null then sleeping else prev.next;
        } else {
          WokenNext(qs, queues, queues, done, cur, due);
          ShiftOne(kept, rest);
          kept := kept + [cur];
          prev := cur;
          cur := cur.next;
        }
        ShiftOne(done, rest);
        done, rest := done + [rest[0]], rest[1..];
      }
      assert done == orig;
    }

    /** Unlinks one sleeper from behind `prev` and makes it ready. */
    method WakeOne(prev: Thread?, task: Thread, ghost kept: seq<Thread>, ghost rest: seq<Thread>)
      requires Lists() && rest != [] && task == rest[0] && prev == LastOf(kept) && sleepers == kept + rest
      modifies heads, tails, this`queues, this`sleeping, this`sleepers, tasks`next, tasks`state
      ensures Lists() && sleepers == kept + rest[1..]
      ensures queues == old(queues)[Slot(task.priority) := old(queues)[Slot(task.priority)] + [task]]
      ensures task.state == Ready && forall t | t in tasks && t != task :: t.state == old(t.state)
      ensures (if prev == null then sleeping else prev.next) == HeadOf(rest[1..])
    {
      Unlink(prev, task, kept, rest);
      AddToReadyQueue(task);
      hide QueueOk, NoDup;
      assert kept != [] ==> sleepers[|kept| - 1] == prev && prev.next == After(sleepers, |kept| - 1);
    }

    method Unlink(prev: Thread?, task: Thread, ghost kept: seq<Thread>, ghost rest: seq<Thread>)
      requires Lists() && rest != [] && task == rest[0] && prev == LastOf(kept) && sleepers == kept + rest
      modifies this`sleeping, this`sleepers, tasks`next
      ensures Lists() && sleepers == kept + rest[1..] && Loose(task) && task in tasks
    {
      assert sleepers[|kept|] == task && task in sleepers;
      assert kept != [] ==> sleepers[|kept| - 1] == prev;
      if prev == null {
        sleeping := task.next;
      } else {
        prev.next := task.next;
      }
      sleepers := kept + rest[1..];
      forall r: nat | r < CLASSES
        ensures QueueOk(r) && task !in queues[r]
      {
        assert old(QueueOk(r)) && task.state == Sleeping;
      }
      ghost var s0 := old(sleepers);
      forall i: nat | i < |sleepers|
        ensures sleepers[i].next == After(sleepers, i) && sleepers[i] == s0[if i < |kept| then i else i + 1]
      {
        ghost var j := if i < |kept| then i else i + 1;
        assert sleepers[i] == s0[j] && old(s0[j].next) == After(s0, j);
      }
    }

    /** Everything but the running task is on a list. */
    ghost predicate Listed(but: Thread?)
      reads this`queues, this`tasks, this`sleepers, this`sleeping, heads, tails, tasks`next, tasks`state
    {
      && Lists() && (but != null ==> but in tasks && but.state == Running)
      && forall t | t in tasks :: t == but || t in sleepers || t in queues[Slot(t.priority)]
    }

    /** Every live task is in exactly one place: running, ready in the queue of its class, or asleep. */
    ghost predicate Valid()
      reads this, heads, tails, tasks
    {
      Listed(current)
    }

    ghost function Snapshot(): State
      reads this, sleepers`sleepUntil
    {
      State(queues, sleepers, current, tasks, map t | t in sleepers :: t.sleepUntil, tick, enabled, nextId)
    }

    lemma DueIs()
      requires Valid()
      ensures Due() == DueIn(Snapshot())
    {
    }

    lemma ValidSane()
      requires Valid()
      ensures Sane(Snapshot())
    {
      hide NoDup, Chained, HeadOf, LastOf;
      forall p: nat | p < CLASSES
        ensures QueueSane(Snapshot(), p)
      {
        assert QueueOk(p);
      }
    }

    constructor ()
      ensures Valid() && fresh(heads) && fresh(tails) && tasks == {} && current == null && !enabled && tick == 0
    {
      heads := new Thread?[CLASSES](_ => null);
      tails := new Thread?[CLASSES](_ => null);
      current, sleeping, nextId, tick, enabled := null, null, 1, 0, false;
      queues, sleepers, tasks := seq(CLASSES, _ => []), [], {};
    }

    /** A new task at the end of its queue; `memory` tells whether the thread and its stack could be had. */
    method CreateTask(priority: int, memory: bool) returns (task: Thread?)
      requires Valid()
      modifies this, heads, tails, tasks`next, tasks`state
      ensures Valid() && (task == null <==> !memory) && nextId == (old(nextId) + 1) % U32_LIMIT
      ensures task != null ==> fresh(task) && tasks == old(tasks) + {task}
      ensures task != null ==> task.id == old(nextId) && task.priority == priority
      ensures task != null ==> queues == old(queues)[Slot(priority) := old(queues)[Slot(priority)] + [task]]
      ensures task == null ==> tasks == old(tasks) && queues == old(queues)
      ensures current == old(current) && sleepers == old(sleepers) && tick == old(tick) && enabled == old(enabled)
    {
      var id := nextId;
      nextId := (nextId + 1) % U32_LIMIT;
      if !memory {
        return null;
      }
      var t := new Thread(id, priority);
      tasks := tasks + {t};
      forall r: nat | r < CLASSES
        ensures QueueOk(r)
      {
        assert old(QueueOk(r));
      }
      AddToReadyQueue(t);
      task := t;
    }

    /** Wakes the due sleepers, puts the running task back and runs the head of the best queue. */
    method Schedule()
      requires Valid()
      modifies this`current, this`queues, this`sleeping, this`sleepers, heads, tails, tasks`next, tasks`state,
               tasks`timeSlice
      ensures Valid()
      ensures !enabled ==> current == old(current) && queues == old(queues) && sleepers == old(sleepers)
      ensures enabled ==> sleepers == Without(old(sleepers), old(Due()))
      ensures enabled ==> Chosen(Refilled(old(queues), old(sleepers), old(Due()), old(current)), current, queues)
      ensures enabled && current != null && 0 <= current.priority < CLASSES ==>
                current.timeSlice == SliceFor(current.priority, 0)
    {
      hide Picked, Without, Woken, QueueOk, SleepersOk;
      if !enabled {
        return;
      }
      ghost var qs, ss, due, cur := queues, sleepers, Due(), current;
      WakeDue();
      RefilledIs(qs, queues, ss, due, cur);
      Requeue();
      var next := TakeBest();
      if next == null {
        // A task that was running is back in its queue, so an empty result leaves no task to go on with.
        current := null;
        return;
      }
      current := next;
    }

    method WakeDue()
      requires Listed(current)
      modifies this`queues, this`sleeping, this`sleepers, heads, tails, tasks`next, tasks`state
      ensures Listed(current) && Woken(old(queues), queues, old(sleepers), old(Due()))
      ensures sleepers == Without(old(sleepers), old(Due()))
    {
      hide Picked, Without, Chained, NoDup;
      ProcessSleepingTasks();
    }

    /** Puts the running task at the end of its queue. */
    method Requeue()
      requires Listed(current)
      modifies this`queues, heads, tails, tasks`next, tasks`state
      ensures Listed(null) && sleepers == old(sleepers)
      ensures queues == if current == null then old(queues)
                        else old(queues)[Slot(current.priority) := old(queues)[Slot(current.priority)] + [current]]
    {
      hide Chained, NoDup, HeadOf, LastOf;
      if current != null && current.state == Running {
        forall r: nat | r < CLASSES
          ensures current !in queues[r]
        {
          assert QueueOk(r);
        }
        current.state := Ready;
        forall r: nat | r < CLASSES
          ensures QueueOk(r)
        {
          assert old(QueueOk(r));
        }
        AddToReadyQueue(current);
      }
    }

    /** Unlinks the best task and sets it running with a fresh time slice. */
    method TakeBest() returns (task: Thread?)
      requires Listed(null)
      modifies this`queues, heads, tails, tasks`next, tasks`state, tasks`timeSlice
      ensures Listed(task) && sleepers == old(sleepers) && Chosen(old(queues), task, queues)
      ensures task != null && 0 <= task.priority < CLASSES ==> task.timeSlice == SliceFor(task.priority, 0)
    {
      hide Chained, NoDup, HeadOf, LastOf;
      task := GetHighestPriorityTask();
      if task == null {
        return;
      }
      label L:
      task.state := Running;
      task.timeSlice := SliceFor(task.priority, task.timeSlice);
      forall r: nat | r < CLASSES
        ensures QueueOk(r)
      {
        assert old@L(QueueOk(r));
      }
    }

    /** Gives up the processor. */
    method Yield()
      requires Valid()
      modifies this`current, this`queues, this`sleeping, this`sleepers, heads, tails, tasks`next, tasks`state,
               tasks`timeSlice
      ensures Valid()
      ensures !enabled || old(current) == null ==>
                current == old(current) && queues == old(queues) && sleepers == old(sleepers)
      ensures enabled && old(current) != null ==> sleepers == Without(old(sleepers), old(Due()))
      ensures enabled && old(current) != null ==>
                Chosen(Refilled(old(queues), old(sleepers), old(Due()), old(current)), current, queues)
    {
      hide Picked, Without, Refilled, Chosen, Lists;
      if !enabled || current == null {
        return;
      }
      current.timeSlice := 0;
      Schedule();
    }

    /** Puts the running task to sleep for a time and runs another. */
    method SleepCurrent(milliseconds: nat)
      requires Valid() && current != null
      modifies this`current, this`queues, this`sleeping, this`sleepers, heads, tails, tasks
      ensures Valid() && old(current).sleepUntil == WakeTime(tick, milliseconds)
      ensures forall t | t in tasks && t != old(current) :: t.sleepUntil == old(t.sleepUntil)
      ensures !enabled ==> current == null && queues == old(queues) && sleepers == [old(current)] + old(sleepers)
      ensures enabled ==>
                sleepers == Without([old(current)] + old(sleepers), DueOf([old(current)] + old(sleepers), tick))
      ensures enabled ==> Chosen(Refilled(old(queues), [old(current)] + old(sleepers),
                                          DueOf([old(current)] + old(sleepers), tick), null), current, queues)
    {
      hide Picked, Without, Refilled, Chosen, Lists;
      FallAsleep(WakeTime(tick, milliseconds));
      Schedule();
    }

    /** Puts the running task at the front of the sleeping list. */
    method FallAsleep(until: nat)
      requires Valid() && current != null
      modifies this`current, this`sleeping, this`sleepers, current`next, current`state, current`sleepUntil
      ensures Valid() && current == null && sleepers == [old(current)] + old(sleepers)
              && old(current).sleepUntil == until
    {
      hide NoDup, LastOf;
      var task := current;
      forall r: nat | r < CLASSES
        ensures task !in queues[r]
      {
        assert QueueOk(r);
      }
      assert task !in sleepers;
      task.state := Sleeping;
      task.sleepUntil := until;
      task.next := sleeping;
      sleeping := task;
      ghost var s0 := sleepers;
      sleepers := [task] + s0;
      current := null;
      forall r: nat | r < CLASSES
        ensures QueueOk(r)
      {
        assert old(QueueOk(r));
      }
      forall i: nat | i < |sleepers|
        ensures sleepers[i].next == After(sleepers, i)
      {
        if i > 0 { assert sleepers[i] == s0[i - 1] && old(s0[i - 1].next) == After(s0, i - 1); }
      }
      FrontDistinct(task, s0);
    }

    /** Ends the running task and runs another. */
    method TerminateCurrentTask()
      requires Valid()
      modifies this`current, this`queues, this`sleeping, this`sleepers, this`tasks, heads, tails, tasks`next,
               tasks`state, tasks`timeSlice
      ensures Valid()
      ensures old(current) == null ==>
            current == null && queues == old(queues) && sleepers == old(sleepers)
            && tasks == old(tasks)
      ensures old(current) != null ==> tasks == old(tasks) - {old(current)} && old(current).state == Terminated
      ensures old(current) != null && enabled ==> sleepers == Without(old(sleepers), old(Due()))
      ensures old(current) != null && enabled ==>
                Chosen(Refilled(old(queues), old(sleepers), old(Due()), null), current, queues)
      ensures old(current) != null && !enabled ==> current == null && queues == old(queues) && sleepers == old(sleepers)
    {
      hide Picked, Without, Refilled, Chosen, NoDup;
      if current == null {
        return;
      }
      var task := current;
      forall r: nat | r < CLASSES
        ensures task !in queues[r]
      {
        assert QueueOk(r);
      }
      task.state := Terminated;
      current := null;
      tasks := tasks - {task};
      forall r: nat | r < CLASSES
        ensures QueueOk(r)
      {
        assert old(QueueOk(r));
      }
      Schedule();
    }

    method FindTask(id: nat) returns (task: Thread?)
      requires Valid()
      ensures task != null ==> task in tasks && task.id == id
      ensures task == null ==> forall t | t in tasks :: t.id != id
    {
      hide NoDup, LastOf;
      if current != null && current.id == id {
        return current;
      }
      var p := 0;
      while p < CLASSES
        invariant 0 <= p <= CLASSES
        invariant forall r: nat, t | r < p && t in queues[r] :: t.id != id
      {
        assert QueueOk(p);
        task := FindIn(heads[p], id, queues[p]);
        if task != null {
          return;
        }
        p := p + 1;
      }
      task := FindIn(sleeping, id, sleepers);
    }

    method GetTaskCount() returns (count: nat)
      requires Valid()
      ensures count == |tasks|
    {
      hide NoDup, LastOf;
      count := 0;
      var p := 0;
      while p < CLASSES
        invariant 0 <= p <= CLASSES && count == Total(queues[..p])
      {
        assert QueueOk(p);
        var n := CountIn(heads[p], queues[p]);
        assert queues[..p + 1][..p] == queues[..p];
        count := count + n;
        p := p + 1;
      }
      assert queues[..p] == queues;
      var n := CountIn(sleeping, sleepers);
      count := count + n;
      if current != null {
        count := count + 1;
      }
      CountIs();
    }

    /** The lists hold every task once. */
    lemma CountIs()
      requires Valid()
      ensures |tasks| == Total(queues) + |sleepers| + if current == null then 0 else 1
    {
      hide LastOf, HeadOf, Chained, NoDup;
      var asleep := SetOf(sleepers);
      var run: set<Thread> := if current == null then {} else {current};
      forall i: nat | i < CLASSES
        ensures NoDup(queues[i])
        ensures forall t | t in queues[i] :: t in tasks && t !in asleep + run && Slot(t.priority) == i
      {
        assert QueueOk(i);
      }
      TotalIs(queues);
      SizeIs(sleepers);
      var ready := Members(queues);
      MembersWithin(queues, tasks, asleep + run);
      forall t | t in tasks
        ensures t in ready + asleep + run
      {
        MembersIn(queues, t);
      }
      assert tasks == ready + asleep + run;
      assert asleep !! run;
    }

    lemma InQueue(p: nat)
      requires Valid() && p < CLASSES
      ensures |queues| == CLASSES && NoDup(queues[p]) && (current != null ==> current !in queues[p])
    {
      assert QueueOk(p);
    }

    /** One yield with nothing due and no better class ready: the head of the queue runs, the running task goes
        behind it. */
    method OneTurn(ghost p: nat)
      requires Valid() && enabled && current != null && p == Slot(current.priority) && Due() == {}
      requires forall r: nat | r < p :: queues[r] == []
      modifies this`current, this`queues, this`sleeping, this`sleepers, heads, tails, tasks`next, tasks`state,
               tasks`timeSlice
      ensures Valid() && sleepers == old(sleepers) && Due() == {} && current != null && Slot(current.priority) == p
      ensures current == (old(queues)[p] + [old(current)])[0]
              && queues == old(queues)[p := (old(queues)[p] + [old(current)])[1..]]
    {
      hide Picked, Without, Lists, Refilled, Chosen;
      InQueue(p);
      ghost var cur, qs := current, queues;
      Yield();
      WithoutNone(old(sleepers));
      Turned(qs, old(sleepers), cur, p, current, queues);
    }

    /** Round robin: with no sleeper due and no better class ready, `k` yields, where `k` counts the running task and
        its queue, run each of them once, the running task last, and leave everything as it was. */
    method YieldRound(ghost p: nat, k: nat) returns (ran: seq<Thread>)
      requires Valid() && enabled && current != null && p == Slot(current.priority) && Due() == {}
      requires k == |queues[p]| + 1 && forall r: nat | r < p :: queues[r] == []
      modifies this`current, this`queues, this`sleeping, this`sleepers, heads, tails, tasks`next, tasks`state,
               tasks`timeSlice
      ensures Valid() && ran == old(queues)[p] + [old(current)] && NoDup(ran)
      ensures current == old(current) && queues == old(queues) && sleepers == old(sleepers)
    {
      hide Listed, NoDup, DueOf;
      InQueue(p);
      ghost var q0, cur0 := queues, current;
      ghost var ring := q0[p] + [cur0];
      BackDistinct(q0[p], cur0);
      ran := [];
      for i := 0 to k
        invariant Valid() && enabled && current != null && sleepers == old(sleepers) && Due() == {}
        invariant |ran| == i && ran == ring[..i] && current == (if i == 0 then cur0 else ring[i - 1])
                  && Slot(current.priority) == p
        invariant queues == q0[p := if i == 0 then q0[p] else ring[i..] + ring[..i - 1]]
      {
        ghost var cur, q := current, queues[p];
        OneTurn(p);
        RingStep(ring, i, q, cur);
        ran := ran + [current];
      }
      RingClosed(q0, p, cur0);
    }
  }

  /** Walks a list for a task id. */
  method FindIn(head: Thread?, id: nat, ghost s: seq<Thread>) returns (task: Thread?)
    requires head == HeadOf(s) && Chained(s)
    ensures task != null ==> task in s && task.id == id
    ensures task == null ==> forall t | t in s :: t.id != id
  {
    task := head;
    ghost var i := 0;
    while task != null
      invariant 0 <= i <= |s| && task == (if i < |s| then s[i] else null)
      invariant forall j | 0 <= j < i :: s[j].id != id
      decreases |s| - i
    {
      if task.id == id {
        return;
      }
      task := task.next;
      i := i + 1;
    }
  }

  method CountIn(head: Thread?, ghost s: seq<Thread>) returns (n: nat)
    requires head == HeadOf(s) && Chained(s)
    ensures n == |s|
  {
    n := 0;
    var task := head;
    while task != null
      invariant 0 <= n <= |s| && task == (if n < |s| then s[n] else null)
      decreases |s| - n
    {
      n := n + 1;
      task := task.next;
    }
  }

  function Total(qs: seq<seq<Thread>>): nat {
    if qs == [] then 0 else Total(qs[..|qs| - 1]) + |qs[|qs| - 1]|
  }

  ghost function SetOf(s: seq<Thread>): set<Thread> {
    set t | t in s
  }

  ghost function Members(qs: seq<seq<Thread>>): set<Thread> {
    if qs == [] then {} else Members(qs[..|qs| - 1]) + SetOf(qs[|qs| - 1])
  }

  lemma {:induction false} MembersIn(qs: seq<seq<Thread>>, t: Thread)
    ensures t in Members(qs) <==> exists i: nat :: i < |qs| && t in qs[i]
  {
    if qs != [] {
      var m := |qs| - 1;
      MembersIn(qs[..m], t);
      assert forall i: nat | i < m :: qs[..m][i] == qs[i];
    }
  }

  lemma {:induction false} MembersWithin(qs: seq<seq<Thread>>, all: set<Thread>, none: set<Thread>)
    requires forall i: nat, t | i < |qs| && t in qs[i] :: t in all && t !in none
    ensures Members(qs) <= all && Members(qs) !! none
  {
    if qs != [] {
      var m := |qs| - 1;
      assert forall i: nat | i < m :: qs[..m][i] == qs[i];
      MembersWithin(qs[..m], all, none);
    }
  }

  lemma {:induction false} SizeIs(s: seq<Thread>)
    requires NoDup(s)
    ensures |SetOf(s)| == |s|
  {
    if s != [] {
      var m := |s| - 1;
      SizeIs(s[..m]);
      assert SetOf(s) == SetOf(s[..m]) + {s[m]};
    }
  }

  lemma {:induction false} TotalIs(qs: seq<seq<Thread>>)
    requires forall i: nat | i < |qs| :: NoDup(qs[i])
    requires forall i: nat, j: nat, t | i < j < |qs| && t in qs[i] :: t !in qs[j]
    ensures |Members(qs)| == Total(qs)
  {
    hide NoDup;
    if qs != [] {
      var m := |qs| - 1;
      assert forall i: nat | i < m :: qs[..m][i] == qs[i];
      TotalIs(qs[..m]);
      SizeIs(qs[m]);
      forall t | t in Members(qs[..m])
        ensures t !in qs[m]
      {
        MembersIn(qs[..m], t);
      }
    }
  }

  lemma LastAlone(q: seq<Thread>)
    requires NoDup(q)
    ensures forall i | 0 <= i < |q| - 1 :: q[i] != q[|q| - 1]
  {
  }

  lemma BackDistinct(q: seq<Thread>, t: Thread)
    requires NoDup(q) && t !in q
    ensures NoDup(q + [t])
  {
  }

  lemma {:induction false} WithoutNone(s: seq<Thread>)
    ensures Without(s, {}) == s
  {
    if s != [] {
      WithoutNone(s[..|s| - 1]);
    }
  }

  lemma {:induction false} NonePicked(s: seq<Thread>, p: nat)
    ensures Picked(s, {}, p) == []
  {
    if s != [] {
      NonePicked(s[..|s| - 1], p);
    }
  }

  /** One turn of the ring: with nothing due and no better class, the running task goes behind its queue and the
      head runs. */
  lemma Turned(qs: seq<seq<Thread>>, s: seq<Thread>, cur: Thread, p: nat, cur2: Thread?, qs2: seq<seq<Thread>>)
    requires |qs| == CLASSES && p == Slot(cur.priority) && (forall r: nat | r < p :: qs[r] == [])
    requires Chosen(Refilled(qs, s, {}, cur), cur2, qs2)
    ensures cur2 == (qs[p] + [cur])[0] && Slot(cur2.priority) == p && qs2 == qs[p := (qs[p] + [cur])[1..]]
  {
    hide Picked;
    forall r: nat | r < CLASSES
      ensures qs[r] + Picked(s, {}, r) == qs[r]
    {
      NonePicked(s, r);
    }
    var full := qs[p := qs[p] + [cur]];
    assert Refilled(qs, s, {}, cur) == full;
    assert full[p] != [];
  }

  lemma RingClosed(q0: seq<seq<Thread>>, p: nat, cur: Thread)
    requires p < |q0|
    ensures var ring := q0[p] + [cur]; ring[..|ring|] == ring && q0[p := ring[|ring|..] + ring[..|ring| - 1]] == q0
  {
    var ring := q0[p] + [cur];
    assert ring[|ring|..] + ring[..|ring| - 1] == q0[p];
  }

  /** The queue behind the `i`-th member of the ring, one turn on. */
  lemma RingStep(ring: seq<Thread>, i: nat, q: seq<Thread>, cur: Thread)
    requires i < |ring| && cur == (if i == 0 then ring[|ring| - 1] else ring[i - 1])
    requires q == if i == 0 then ring[..|ring| - 1] else ring[i..] + ring[..i - 1]
    ensures (q + [cur])[0] == ring[i] && (q + [cur])[1..] == ring[i + 1..] + ring[..i]
  {
    assert i == 0 ==> q + [cur] == ring;
  }

  /** The tick at which a sleep of so many milliseconds ends, in 32-bit arithmetic at 100 ticks a second. */
  function WakeTime(tick: nat, milliseconds: nat): nat {
    var ticks := milliseconds * 100 % U32_LIMIT / 1000;
    (tick + if ticks == 0 then 1 else ticks) % U32_LIMIT
  }

  /** How many ticks it is meant to last: a hundredth of a second each, at least one. */
  function Ticks(milliseconds: nat): nat {
    if milliseconds < 10 then 1 else milliseconds / 10
  }

  /** A sleep ends when it is meant to if and only if the product fits 32 bits and the clock does not wrap before; it
      never ends later, and one that would end after the wrap is due at once. */
  lemma WakesOnTime(tick: nat, milliseconds: nat)
    requires tick < U32_LIMIT
    ensures WakeTime(tick, milliseconds) == tick + Ticks(milliseconds) <==>
            milliseconds <= 42949672 && tick + Ticks(milliseconds) < U32_LIMIT
    ensures WakeTime(tick, milliseconds) <= tick + Ticks(milliseconds)
    ensures milliseconds <= 42949672 && tick + Ticks(milliseconds) >= U32_LIMIT ==> WakeTime(tick, milliseconds) < tick
  {
    var ticks := milliseconds * 100 % U32_LIMIT / 1000;
    var t := if ticks == 0 then 1 else ticks;
    assert ticks <= 4294967;
    if milliseconds <= 42949672 {
      assert milliseconds * 100 % U32_LIMIT == milliseconds * 100;
      assert milliseconds * 100 / 1000 == milliseconds / 10;
    } else {
      ShortSleep(milliseconds);
    }
    if tick + t >= U32_LIMIT { assert (tick + t) % U32_LIMIT == tick + t - U32_LIMIT; }
  }

  lemma ShortSleep(milliseconds: nat)
    requires milliseconds > 42949672
    ensures milliseconds * 100 % U32_LIMIT / 1000 < milliseconds / 10 && milliseconds / 10 >= 4294967
  {
    if milliseconds < 42949680 {
      assert milliseconds * 100 % U32_LIMIT == milliseconds * 100 - U32_LIMIT;
    } else {
      assert milliseconds / 10 >= 4294968;
    }
  }

  ghost function DueOf(s: seq<Thread>, tick: nat): set<Thread>
    reads s`sleepUntil
  {
    set t | t in s && t.sleepUntil <= tick
  }

  /** The queues after the due sleepers and then the task that was running have been appended. */
  ghost function Refilled(qs: seq<seq<Thread>>, s: seq<Thread>, due: set<Thread>, cur: Thread?): (r: seq<seq<Thread>>)
    requires |qs| == CLASSES
    ensures |r| == CLASSES
  {
    var w := seq(CLASSES, p requires 0 <= p < CLASSES => qs[p] + Picked(s, due, p));
    if cur == null then w else w[Slot(cur.priority) := w[Slot(cur.priority)] + [cur]]
  }

  /** The longest-waiting task of the best class runs; with no task at all the processor idles. */
  ghost predicate Chosen(r: seq<seq<Thread>>, current: Thread?, qs: seq<seq<Thread>>) {
    && |r| == CLASSES
    && (current == null ==> qs == r && forall p: nat | p < CLASSES :: r[p] == [])
    && (current != null ==>
          var p := Slot(current.priority);
          Best(r, p) && current == r[p][0] && qs == r[p := r[p][1..]])
  }

  lemma RefilledIs(qs: seq<seq<Thread>>, qs2: seq<seq<Thread>>, s: seq<Thread>, due: set<Thread>, cur: Thread?)
    requires Woken(qs, qs2, s, due)
    ensures |qs| == CLASSES && |qs2| == CLASSES
    ensures Refilled(qs, s, due, cur) == if cur == null then qs2
            else qs2[Slot(cur.priority) := qs2[Slot(cur.priority)] + [cur]]
  {
    hide Picked;
  }

  /** The queues after the due members of `s` have been appended to theirs, in order. */
  ghost predicate Woken(qs: seq<seq<Thread>>, qs2: seq<seq<Thread>>, s: seq<Thread>, due: set<Thread>) {
    |qs| == CLASSES && |qs2| == CLASSES && forall p: nat | p < CLASSES :: qs2[p] == qs[p] + Picked(s, due, p)
  }

  lemma ShiftOne(a: seq<Thread>, b: seq<Thread>)
    requires b != []
    ensures a + b == (a + [b[0]]) + b[1..]
  {
  }

  lemma FrontDistinct(t: Thread, s: seq<Thread>)
    requires NoDup(s) && t !in s
    ensures NoDup([t] + s)
  {
  }

  lemma StartWoken(qs: seq<seq<Thread>>, due: set<Thread>)
    requires |qs| == CLASSES
    ensures Woken(qs, qs, [], due) && Without([], due) == []
  {
  }

  lemma StepWoken(done: seq<Thread>, t: Thread, due: set<Thread>)
    ensures Without(done + [t], due) == if t in due then Without(done, due) else Without(done, due) + [t]
  {
    assert (done + [t])[..|done|] == done;
  }

  lemma WokenNext(qs: seq<seq<Thread>>, qs2: seq<seq<Thread>>, qs3: seq<seq<Thread>>, done: seq<Thread>, t: Thread,
                  due: set<Thread>)
    requires Woken(qs, qs2, done, due)
    requires qs3 == if t in due then qs2[Slot(t.priority) := qs2[Slot(t.priority)] + [t]] else qs2
    ensures Woken(qs, qs3, done + [t], due)
  {
    assert (done + [t])[..|done|] == done;
    forall p: nat | p < CLASSES
      ensures qs3[p] == qs[p] + Picked(done + [t], due, p)
    {
      assert t in due && Slot(t.priority) == p ==>
          qs[p] + (Picked(done, due, p) + [t]) == qs[p] + Picked(done, due, p) + [t];
    }
  }

  /** Queue `p` is the first that is not empty. */
  ghost predicate Best(qs: seq<seq<Thread>>, p: nat) {
    |qs| == CLASSES && p < CLASSES && qs[p] != [] && forall r: nat | r < p :: qs[r] == []
  }

  // ---- Whole runs ----

  /** What happens to the scheduler on the cooperative path; `Pass` lets timer ticks go by. */
  datatype Event = Create(priority: int, memory: bool) | Reschedule | GiveUp | Sleep(milliseconds: nat) | Exit
                 | Enable(on: bool) | Pass(ticks: nat)

  /** The scheduler as a value; `wake` gives the wake time of each sleeper. */
  datatype State = State(queues: seq<seq<Thread>>, sleepers: seq<Thread>, current: Thread?, tasks: set<Thread>,
                         wake: map<Thread, nat>, tick: nat, enabled: bool, nextId: nat)

  /** Every live task is in exactly one place, running, ready in the queue of its class or asleep, and nothing else
      is. */
  ghost predicate Sane(st: State) {
    && |st.queues| == CLASSES && (forall p: nat | p < CLASSES :: QueueSane(st, p))
    && NoDup(st.sleepers) && (forall t | t in st.sleepers :: t in st.tasks && t != st.current)
    && (st.current != null ==> st.current in st.tasks)
    && (forall t | t in st.tasks :: t == st.current || t in st.sleepers || t in st.queues[Slot(t.priority)])
    && st.wake.Keys == SetOf(st.sleepers)
  }

  ghost predicate QueueSane(st: State, p: nat)
    requires p < |st.queues|
  {
    && NoDup(st.queues[p])
    && (forall t | t in st.queues[p] :: t in st.tasks && Slot(t.priority) == p && t !in st.sleepers && t != st.current)
  }

  /** The sleepers of a state whose time has come. */
  ghost function DueIn(st: State): set<Thread> {
    set t | t in st.wake && st.wake[t] <= st.tick
  }

  /** What Schedule does, when it is enabled. */
  ghost predicate Dispatched(a: State, b: State) {
    && |a.queues| == CLASSES
    && b.sleepers == Without(a.sleepers, DueIn(a)) && b.wake == a.wake - DueIn(a)
    && Chosen(Refilled(a.queues, a.sleepers, DueIn(a), a.current), b.current, b.queues)
    && b.tasks == a.tasks && b.tick == a.tick && b.enabled == a.enabled && b.nextId == a.nextId
  }

  ghost predicate Switched(a: State, b: State) {
    if a.enabled then Dispatched(a, b) else b == a
  }

  /** Task `t` is new and goes behind the queue of its class. */
  ghost predicate Made(a: State, priority: int, t: Thread, b: State)
    requires |a.queues| == CLASSES
  {
    && t !in a.tasks && t.priority == priority && t.id == a.nextId
    && b == a.(queues := a.queues[Slot(priority) := a.queues[Slot(priority)] + [t]], tasks := a.tasks + {t},
               nextId := (a.nextId + 1) % U32_LIMIT)
  }

  function LastIn(q: seq<Thread>): Thread
    requires q != []
  {
    q[|q| - 1]
  }

  /** What one event does to the scheduler. */
  ghost predicate Step(a: State, event: Event, b: State) {
    && |a.queues| == CLASSES && |b.queues| == CLASSES
    && match event
       case Create(priority, memory) =>
         if !memory then b == a.(nextId := (a.nextId + 1) % U32_LIMIT)
         else b.queues[Slot(priority)] != [] && Made(a, priority, LastIn(b.queues[Slot(priority)]), b)
       case Reschedule => Switched(a, b)
       case GiveUp => if a.current == null then b == a else Switched(a, b)
       case Sleep(milliseconds) =>
         if a.current == null then b == a
         else Switched(a.(sleepers := [a.current] + a.sleepers, current := null,
                          wake := a.wake[a.current := WakeTime(a.tick, milliseconds)]), b)
       case Exit =>
         if a.current == null then b == a
         else Switched(a.(current := null, tasks := a.tasks - {a.current}), b)
       case Enable(on) => b == a.(enabled := on)
       case Pass(ticks) => b == a.(tick := (a.tick + ticks) % U32_LIMIT)
  }

  /** The states a run passes through, event by event. */
  ghost predicate Trace(ts: seq<State>, events: seq<Event>) {
    && |ts| == |events| + 1 && (forall i | 0 <= i < |ts| :: Sane(ts[i]))
    && (forall i | 0 <= i < |events| :: Step(ts[i], events[i], ts[i + 1]))
  }

  /** A sleeper that stays keeps its wake time. */
  lemma WakeKept(a: State, b: State)
    requires a.wake.Keys == SetOf(a.sleepers) && b.wake.Keys == SetOf(b.sleepers)
    requires b.sleepers == Without(a.sleepers, DueIn(a))
    requires forall t | t in a.wake && t in b.wake :: b.wake[t] == a.wake[t]
    ensures b.wake == a.wake - DueIn(a)
  {
    hide Without;
    assert b.wake.Keys == (a.wake - DueIn(a)).Keys;
  }

  method RunEvent(s: Scheduler, event: Event)
    requires s.Valid()
    modifies s, s.heads, s.tails, s.tasks
    ensures s.Valid() && Step(old(s.Snapshot()), event, s.Snapshot()) && fresh(s.tasks - old(s.tasks))
  {
    hide Picked, Without, Chosen, Refilled, NoDup, Chained;
    match event {
      case Create(priority, memory) =>
        var t := s.CreateTask(priority, memory);
      case Reschedule =>
        RunSchedule(s);
      case GiveUp =>
        RunYield(s);
      case Sleep(milliseconds) =>
        RunSleep(s, milliseconds);
      case Exit =>
        RunExit(s);
      case Enable(on) =>
        s.enabled := on;
      case Pass(ticks) =>
        s.tick := (s.tick + ticks) % U32_LIMIT;
    }
  }

  method RunSchedule(s: Scheduler)
    requires s.Valid()
    modifies s, s.heads, s.tails, s.tasks
    ensures s.Valid() && Step(old(s.Snapshot()), Reschedule, s.Snapshot()) && s.tasks == old(s.tasks)
  {
    hide Picked, Without, Chosen, Refilled, NoDup, Chained;
    ghost var a := s.Snapshot();
    s.DueIs();
    s.Schedule();
    if s.enabled { WakeKept(a, s.Snapshot()); }
  }

  method RunYield(s: Scheduler)
    requires s.Valid()
    modifies s, s.heads, s.tails, s.tasks
    ensures s.Valid() && Step(old(s.Snapshot()), GiveUp, s.Snapshot()) && s.tasks == old(s.tasks)
  {
    hide Picked, Without, Chosen, Refilled, NoDup, Chained;
    ghost var a := s.Snapshot();
    s.DueIs();
    s.Yield();
    if s.enabled && a.current != null { WakeKept(a, s.Snapshot()); }
  }

  method RunSleep(s: Scheduler, milliseconds: nat)
    requires s.Valid()
    modifies s, s.heads, s.tails, s.tasks
    ensures s.Valid() && Step(old(s.Snapshot()), Sleep(milliseconds), s.Snapshot()) && s.tasks == old(s.tasks)
  {
    hide Picked, Without, Chosen, Refilled, NoDup, Chained;
    if s.current == null {
      return;
    }
    ghost var a := s.Snapshot();
    ghost var a2 := a.(sleepers := [a.current] + a.sleepers, current := null,
                       wake := a.wake[a.current := WakeTime(a.tick, milliseconds)]);
    s.SleepCurrent(milliseconds);
    assert forall t | t in a2.sleepers :: t.sleepUntil == a2.wake[t];
    assert DueOf(a2.sleepers, s.tick) == DueIn(a2);
    if s.enabled {
      WakeKept(a2, s.Snapshot());
    } else {
      assert s.Snapshot().wake == a2.wake;
    }
  }

  method RunExit(s: Scheduler)
    requires s.Valid()
    modifies s, s.heads, s.tails, s.tasks
    ensures s.Valid() && Step(old(s.Snapshot()), Exit, s.Snapshot()) && s.tasks <= old(s.tasks)
  {
    hide Picked, Without, Chosen, Refilled, NoDup, Chained;
    ghost var a := s.Snapshot();
    s.DueIs();
    s.TerminateCurrentTask();
    if s.enabled && a.current != null { WakeKept(a.(current := null, tasks := a.tasks - {a.current}), s.Snapshot()); }
  }

  /** Every run of events: each moves the scheduler by one Step, and in every state each live task is in one place. */
  method RunAll(s: Scheduler, events: seq<Event>) returns (ghost ts: seq<State>)
    requires s.Valid()
    modifies s, s.heads, s.tails, s.tasks
    ensures s.Valid() && Trace(ts, events) && ts[0] == old(s.Snapshot()) && ts[|events|] == s.Snapshot()
  {
    hide Step, Sane;
    ts := [s.Snapshot()];
    s.ValidSane();
    for i := 0 to |events|
      invariant s.Valid() && |ts| == i + 1 && ts[0] == old(s.Snapshot()) && ts[i] == s.Snapshot()
      invariant fresh(s.tasks - old(s.tasks))
      invariant forall j | 0 <= j <= i :: Sane(ts[j])
      invariant forall j | 0 <= j < i :: Step(ts[j], events[j], ts[j + 1])
    {
      RunEvent(s, events[i]);
      s.ValidSane();
      ts := ts + [s.Snapshot()];
    }
  }

  // ---- What holds of every run ----

  /** Event `i` ends the running task. */
  ghost predicate Ends(ts: seq<State>, events: seq<Event>, i: nat)
    requires i < |events| && i < |ts|
  {
    events[i].Exit? && ts[i].current != null
  }

  /** How many tasks the events make, and how many they end. */
  ghost function Makes(events: seq<Event>): nat {
    if events == [] then 0
    else
      var m := |events| - 1;
      Makes(events[..m]) + if events[m].Create? && events[m].memory then 1 else 0
  }

  ghost function Exits(ts: seq<State>, events: seq<Event>): nat
    requires |ts| == |events| + 1
  {
    if events == [] then 0
    else
      var m := |events| - 1;
      Exits(ts[..m + 1], events[..m]) + if Ends(ts, events, m) then 1 else 0
  }

  lemma TraceFront(ts: seq<State>, events: seq<Event>)
    requires Trace(ts, events) && events != []
    ensures Trace(ts[..|events|], events[..|events| - 1])
  {
    hide Sane, Step;
  }

  /** What one event does to the set of live tasks. */
  lemma StepTasks(a: State, event: Event, b: State)
    requires Sane(a) && Step(a, event, b)
    ensures event.Create? && event.memory ==> exists t :: t !in a.tasks && b.tasks == a.tasks + {t}
    ensures event.Exit? && a.current != null ==> a.current in a.tasks && b.tasks == a.tasks - {a.current}
    ensures !(event.Create? && event.memory) && !(event.Exit? && a.current != null) ==> b.tasks == a.tasks
  {
    hide Picked, Without, Chosen, Refilled, NoDup;
    if event.Create? && event.memory {
      var t := LastIn(b.queues[Slot(event.priority)]);
      assert t !in a.tasks && b.tasks == a.tasks + {t};
    }
  }

  /** Conservation: at the end of a run there are as many live tasks as at the start, plus those made, less those that
      ended themselves. */
  lemma {:induction false} Conserved(ts: seq<State>, events: seq<Event>)
    requires Trace(ts, events)
    ensures |ts[|events|].tasks| + Exits(ts, events) == |ts[0].tasks| + Makes(events)
    decreases |events|
  {
    hide Sane, Step;
    if events != [] {
      var m := |events| - 1;
      TraceFront(ts, events);
      Conserved(ts[..m + 1], events[..m]);
      var a, b := ts[m], ts[m + 1];
      StepTasks(a, events[m], b);
    }
  }

  /** No task is lost: it leaves only by ending itself while it runs. */
  lemma {:induction false} Stays(ts: seq<State>, events: seq<Event>, i: nat, j: nat, t: Thread)
    requires Trace(ts, events) && i <= j <= |events| && t in ts[i].tasks
    requires forall k | i <= k < j :: !(events[k].Exit? && ts[k].current == t)
    ensures t in ts[j].tasks
    decreases j
  {
    hide Sane, Step;
    if i < j {
      Stays(ts, events, i, j - 1, t);
      StepTasks(ts[j - 1], events[j - 1], ts[j]);
    }
  }

  /** `x` stands before `y` in the queue. */
  ghost predicate Ahead(q: seq<Thread>, x: Thread, y: Thread) {
    exists i, j :: 0 <= i < j < |q| && q[i] == x && q[j] == y
  }

  /** A queue only grows at its end and only shrinks at its front, where the next task to run stands. */
  lemma QueueMoves(a: State, event: Event, b: State, p: nat)
    requires Sane(a) && Step(a, event, b) && p < CLASSES
    ensures a.queues[p] <= b.queues[p] ||
            (a.queues[p] != [] && a.queues[p][1..] <= b.queues[p] && b.current == a.queues[p][0])
  {
    hide Picked, Without, NoDup;
  }

  lemma StaysAhead(q: seq<Thread>, r: seq<Thread>, x: Thread, y: Thread)
    requires Ahead(q, x, y) && (q <= r || (q[1..] <= r && x != q[0]))
    ensures Ahead(r, x, y)
  {
    var i, j :| 0 <= i < j < |q| && q[i] == x && q[j] == y;
    if q <= r {
      assert r[i] == x && r[j] == y;
    } else {
      assert q[1..][i - 1] == x && q[1..][j - 1] == y;
      assert r[i - 1] == x && r[j - 1] == y;
    }
  }

  lemma {:induction false} StillAhead(ts: seq<State>, events: seq<Event>, p: nat, i: nat, j: nat, x: Thread, y: Thread)
    requires Trace(ts, events) && p < CLASSES && i <= j <= |events| && Sane(ts[i]) && Ahead(ts[i].queues[p], x, y)
    requires forall k | i < k <= j :: ts[k].current != x
    ensures Sane(ts[j]) && Ahead(ts[j].queues[p], x, y)
    decreases j
  {
    hide Step, Ahead, NoDup;
    if i < j {
      StillAhead(ts, events, p, i, j - 1, x, y);
      QueueMoves(ts[j - 1], events[j - 1], ts[j], p);
      StaysAhead(ts[j - 1].queues[p], ts[j].queues[p], x, y);
    }
  }

  /** Who is behind another does not run next. */
  lemma BehindWaits(a: State, b: State, p: nat, x: Thread, y: Thread)
    requires Sane(a) && Sane(b) && p < CLASSES && Ahead(a.queues[p], x, y)
    requires a.queues[p] <= b.queues[p] ||
             (a.queues[p] != [] && a.queues[p][1..] <= b.queues[p] && b.current == a.queues[p][0])
    ensures b.current != y
  {
    assert QueueSane(a, p) && QueueSane(b, p);
    var q := a.queues[p];
    var i, j :| 0 <= i < j < |q| && q[i] == x && q[j] == y;
    if q <= b.queues[p] {
      assert b.queues[p][j] == y;
    } else {
      assert q[0] != q[j];
    }
  }

  lemma NotBefore(ts: seq<State>, events: seq<Event>, p: nat, i: nat, j: nat, x: Thread, y: Thread)
    requires Trace(ts, events) && p < CLASSES && i < j <= |events| && Sane(ts[i]) && Ahead(ts[i].queues[p], x, y)
    ensures (forall k | i < k < j :: ts[k].current != x) ==> ts[j].current != y
  {
    hide Step, NoDup;
    if forall k | i < k < j :: ts[k].current != x {
      StillAhead(ts, events, p, i, j - 1, x, y);
      QueueMoves(ts[j - 1], events[j - 1], ts[j], p);
      BehindWaits(ts[j - 1], ts[j], p, x, y);
    }
  }

  /** First come, first served in each class: of two tasks that wait in the same queue the one behind does not run
      before the one ahead has run. */
  lemma NoOvertaking(ts: seq<State>, events: seq<Event>, p: nat, i: nat, j: nat, x: Thread, y: Thread)
    requires Trace(ts, events) && p < CLASSES && i < j <= |events| && Sane(ts[i]) && Ahead(ts[i].queues[p], x, y)
    requires ts[j].current == y
    ensures exists k :: i < k < j && ts[k].current == x
  {
    NotBefore(ts, events, p, i, j, x, y);
  }

  /** Nobody is woken early: a sleeper stays asleep, with its wake time, as long as the clock is below it. */
  lemma {:induction false} SleepsThrough(ts: seq<State>, events: seq<Event>, i: nat, j: nat, t: Thread)
    requires Trace(ts, events) && i <= j <= |events| && Sane(ts[i]) && t in ts[i].sleepers && t in ts[i].wake
    requires forall k | i <= k < j :: ts[k].tick < ts[i].wake[t]
    ensures t in ts[j].sleepers && t in ts[j].wake && ts[j].wake[t] == ts[i].wake[t]
    decreases j
  {
    hide Step, NoDup;
    if i < j {
      SleepsThrough(ts, events, i, j - 1, t);
      SleepsOn(ts[j - 1], events[j - 1], ts[j], t);
    }
  }

  lemma SleepsOn(a: State, event: Event, b: State, t: Thread)
    requires Sane(a) && Step(a, event, b) && t in a.sleepers && t in a.wake && a.tick < a.wake[t]
    ensures t in b.sleepers && t in b.wake && b.wake[t] == a.wake[t]
  {
    hide Picked, Without, Chosen, Refilled, NoDup;
  }

  /** ... and nobody is forgotten: after a Schedule only sleepers that are not due remain. */
  lemma AllWoken(a: State, b: State, t: Thread)
    requires Sane(a) && Step(a, Reschedule, b) && a.enabled && t in b.sleepers
    ensures t in b.wake && b.wake[t] > b.tick
  {
    hide Picked, Without, Chosen, Refilled, NoDup;
    assert t in a.sleepers && t !in DueIn(a);
  }
}
