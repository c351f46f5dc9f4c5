/** The scheduler in the form kernel/thread.c has: a table of pointers to thread records that are changed in place. */
module KernelThreads {
  import opened Arithmetic
  import opened Schedule

  class Slot {
    var tid: nat
    var state: State
    var sleepUntil: nat

    constructor (tid: nat, state: State)
      ensures this.tid == tid && this.state == state && sleepUntil == 0
    {
      this.tid, this.state, sleepUntil := tid, state, 0;
    }

    function Value(): Thread
      reads this
    {
      Thread(tid, state, sleepUntil)
    }
  }

  class Scheduler {
    const threads: array<Slot?>
    var count: nat
    var current: Slot
    var timerTicks: nat

    /** The pointers of the table are distinct records, and `current` points to one of them. */
    ghost predicate Linked()
      reads this, threads
    {
      && threads.Length == MAX_THREADS && 0 < count <= MAX_THREADS && timerTicks < TICKS
      && (forall i :: 0 <= i < count ==> threads[i] != null)
      && (forall i, j :: 0 <= i < j < count ==> threads[i] != threads[j])
    }

    ghost function Threads(): (ts: seq<Thread>)
      reads this, threads, threads[..]
      requires Linked()
      ensures |ts| == count && forall i :: 0 <= i < count ==> ts[i] == threads[i].Value()
    {
      seq(count, i requires 0 <= i < count reads this, threads, threads[..] requires Linked() => threads[i].Value())
    }

    ghost function View(): Table
      reads this, threads, threads[..], current
      requires Linked()
    {
      Table(Threads(), current.tid)
    }

    ghost predicate Valid()
      reads this, threads, threads[..], current
    {
      Linked() && View().Valid() && threads[current.tid] == current
    }

    /** thread_init. */
    constructor ThreadInit()
      ensures Valid() && fresh(threads) && fresh(threads[0]) && timerTicks == 0
      ensures View() == Booted(0).table
    {
      var main := new Slot(0, Running);
      var table := new Slot?[MAX_THREADS](_ => null);
      table[0] := main;
      threads, count, current, timerTicks := table, 1, main, 0;
    }

    /** thread_create; `granted` says whether the heap had room for the record. */
    method ThreadCreate(granted: bool) returns (t: Slot?)
      requires Valid()
      modifies this`count, threads
      ensures Valid() && View() == Create(old(View()), granted)
      ensures t != null <==> granted && old(count) < MAX_THREADS
      ensures t != null ==> fresh(t) && t == threads[old(count)] && t.tid == old(count)
      ensures threads[..old(count)] == old(threads[..count])
    {
      if count >= MAX_THREADS { return null; }
      if !granted { return null; }
      t := new Slot(count, Ready);
      threads[count] := t;
      count := count + 1;
      assert Threads() == old(Threads()) + [Thread(old(count), Ready, 0)];
    }

    /** thread_stop. */
    method ThreadStop(pid: int)
      requires Valid()
      modifies threads[..count]
      ensures Valid() && View() == if pid < 0 then old(View()) else Stop(old(View()), pid)
    {
      ghost var t := View();
      for i := 0 to count
        invariant Valid() && View() == t
        invariant forall j :: 0 <= j < i ==> j != pid || t.threads[j].state == Terminated
      {
        if threads[i].tid == pid && threads[i].state != Terminated {
          threads[i].state := Terminated;
          assert Threads() == With(t, i, Terminated).threads;
          return;
        }
      }
      assert 0 <= pid < count ==> With(t, pid, Terminated).threads == t.threads;
    }

    /** thread_block. */
    method ThreadBlock(pid: int)
      requires Valid()
      modifies threads[..count]
      ensures Valid() && View() == if pid < 0 then old(View()) else Block(old(View()), pid)
    {
      ghost var t := View();
      for i := 0 to count
        invariant Valid() && View() == t
        invariant forall j :: 0 <= j < i ==> j != pid || t.threads[j].state == Blocked
      {
        if threads[i].tid == pid && threads[i].state != Blocked {
          threads[i].state := Blocked;
          assert Threads() == With(t, i, Blocked).threads;
          return;
        }
      }
      assert 0 <= pid < count ==> With(t, pid, Blocked).threads == t.threads;
    }

    /** thread_unblock. */
    method ThreadUnblock(pid: int)
      requires Valid()
      modifies threads[..count]
      ensures Valid() && View() == if pid < 0 then old(View()) else Unblock(old(View()), pid)
    {
      ghost var t := View();
      for i := 0 to count
        invariant Valid() && View() == t
        invariant forall j :: 0 <= j < i ==> j != pid || t.threads[j].state != Blocked
      {
        if threads[i].tid == pid && threads[i].state == Blocked {
          threads[i].state := Ready;
          assert Threads() == With(t, i, Ready).threads;
          return;
        }
      }
    }

    /** One round of the first loop of thread_schedule. */
    method WakeOne(i: nat)
      requires Linked() && i < count
      modifies threads[i]
      ensures Linked() && Threads() == old(Threads())[i := Woken(old(Threads())[i], timerTicks)]
      ensures current.tid == old(current.tid)
    {
      hide Woken, Due;
      ghost var ts := Threads();
      WokenIs(ts[i], timerTicks);
      if threads[i].state == Sleeping {
        if timerTicks >= threads[i].sleepUntil {
          threads[i].state := Ready;
        }
      }
      assert Threads() == ts[i := Woken(ts[i], timerTicks)];
    }

    /** The first loop of thread_schedule. */
    method WakeSleepers()
      requires Valid()
      modifies threads[..count]
      ensures Valid() && View() == Wake(old(View()), timerTicks)
      ensures threads[..count] == old(threads[..count])
    {
      hide Table.Valid, Woken, Wake;
      ghost var t := View();
      CurrentListed(t);
      for i := 0 to count
        invariant Linked() && current.tid == t.current && threads[t.current] == current
        invariant WokenTo(t.threads, Threads(), i, timerTicks)
      {
        WakeOne(i);
      }
      WokenAll(t, Threads(), timerTicks);
      WakeValid(t, timerTicks);
    }

    /** The switch inside the second loop of thread_schedule, up to and past context_switch. */
    method SwitchTo(i: nat)
      requires Valid() && i < count && threads[i].state == Ready
      modifies this`current, threads[..count]
      ensures Valid() && View() == Schedule.SwitchTo(old(View()), i)
    {
      ghost var t := View();
      SwitchValid(t, i);
      var prev := current;
      current := threads[i];
      current.state := Running;
      if prev.state != Sleeping {
        prev.state := Ready;
      }
      current.state := Running;
      assert Threads() == Schedule.SwitchTo(t, i).threads;
    }

    /** The second loop of thread_schedule. */
    method SwitchToReady()
      requires Valid()
      modifies this`current, threads[..count]
      ensures Valid() && View() == NextReady(old(View()))
    {
      hide Schedule.SwitchTo, Table.Valid, FirstReady, Candidate, Mod;
      ghost var w := View();
      CurrentListed(w);
      var next := Mod(current.tid + 1, count);
      for i := 0 to count
        invariant Valid() && View() == w && current.tid == w.current < count
        invariant FirstReady(w, 0) == FirstReady(w, i)
      {
        var idx := Mod(next + i, count);
        Looked(w, i);
        if threads[idx].state == Ready {
          SwitchTo(idx);
          return;
        }
      }
      SearchEnds(w);
    }

    /** thread_schedule. */
    method ThreadSchedule()
      requires Valid()
      modifies this`current, threads[..count]
      ensures Valid() && View() == Reschedule(old(View()), timerTicks)
    {
      hide NextReady, Wake, Table.Valid;
      WakeSleepers();
      SwitchToReady();
    }

    /** thread_sleep. */
    method ThreadSleep(ms: nat)
      requires Valid() && ms < TICKS
      modifies this`current, threads[..count]
      ensures Valid() && View() == Sleep(old(View()), ms, timerTicks)
    {
      hide Reschedule;
      if ms == 0 { return; }
      ghost var t := View();
      current.sleepUntil := (timerTicks + ms) % TICKS;
      current.state := Sleeping;
      assert Threads() == Dozing(t, ms, timerTicks).threads;
      ThreadSchedule();
    }

    /** The timer interrupt. */
    method Tick()
      requires Valid()
      modifies this`timerTicks
      ensures Valid() && View() == old(View()) && timerTicks == (old(timerTicks) + 1) % TICKS
    {
      timerTicks := (timerTicks + 1) % TICKS;
    }
  }

  /** One round of the search looks at the next candidate. */
  lemma Looked(t: Table, i: nat)
    requires t.current < |t.threads| && i < |t.threads|
    ensures Mod(Mod(t.current + 1, |t.threads|) + i, |t.threads|) == Candidate(t, i)
    ensures t.threads[Candidate(t, i)].state == Ready ==> FirstReady(t, i) == i
    ensures t.threads[Candidate(t, i)].state != Ready ==> FirstReady(t, i) == FirstReady(t, i + 1)
  {
    Wraps(t.current + 1, i, |t.threads|);
  }

  lemma SearchEnds(t: Table)
    requires t.threads != []
    ensures FirstReady(t, |t.threads|) == |t.threads|
  {
  }

  lemma Wraps(a: nat, i: nat, n: nat)
    requires 0 < a <= n && i < n
    ensures Mod(Mod(a, n) + i, n) == Mod(a + i, n)
  {
    hide Mod;
    Reduced(a, n);
    Reduced(a + i, n);
    if a == n { Reduced(i, n); }
  }

  /** The first i threads have been looked at. */
  ghost predicate WokenTo(ts: seq<Thread>, us: seq<Thread>, i: nat, now: nat) {
    |us| == |ts| && forall j :: 0 <= j < |ts| ==> us[j] == if j < i then Woken(ts[j], now) else ts[j]
  }

  lemma WokenAll(t: Table, us: seq<Thread>, now: nat)
    requires WokenTo(t.threads, us, |t.threads|, now)
    ensures Wake(t, now) == t.(threads := us)
  {
    assert Wake(t, now).threads == us;
  }

  lemma WokenIs(th: Thread, now: nat)
    requires now < TICKS
    ensures Woken(th, now) == if th.state == Sleeping && now >= th.sleepUntil then th.(state := Ready) else th
  {
  }

  lemma WakeValid(t: Table, now: nat)
    requires t.Valid()
    ensures Wake(t, now).Valid()
  {
  }

  lemma CurrentListed(t: Table)
    requires t.Valid()
    ensures t.current < |t.threads|
  {
  }

  /** A scheduling call sees the tick counter only through its 32 bits. */
  lemma TicksOnly(t: Table, now: nat)
    requires t.Valid()
    ensures Reschedule(t, now % TICKS) == Reschedule(t, now)
  {
    hide FirstReady, SwitchTo, Table.Valid;
    assert now % TICKS % TICKS == now % TICKS;
    assert Wake(t, now % TICKS).threads == Wake(t, now).threads;
  }

  lemma TicksOnlySleep(t: Table, ms: nat, now: nat)
    requires t.Valid()
    ensures Sleep(t, ms, now % TICKS) == Sleep(t, ms, now)
  {
    hide Reschedule;
    assert (now % TICKS + ms) % TICKS == (now + ms) % TICKS;
    if ms != 0 {
      TicksOnly(Dozing(t, ms, now), now);
    }
  }

  /** Any event, carried out by the kernel's own procedures, takes the system where After says: whatever is
      proved of runs holds of the code. */
  method Serve(k: Scheduler, e: Event, ghost now: nat)
    requires k.Valid() && k.timerTicks == now % TICKS
    requires e.Nap? ==> e.ms < TICKS
    modifies k, k.threads, k.threads[..]
    ensures k.Valid()
    ensures var s := After(System(old(k.View()), now), e); k.View() == s.table && k.timerTicks == s.now % TICKS
  {
    hide Reschedule, Sleep, Table.Valid, With, Wake;
    ghost var t := k.View();
    match e
    case Tick =>
      k.Tick();
    case Preempt =>
      TicksOnly(t, now);
      k.ThreadSchedule();
    case Spawn(granted) =>
      var _ := k.ThreadCreate(granted);
    case Halt(pid) =>
      k.ThreadStop(pid);
    case Hold(pid) =>
      k.ThreadBlock(pid);
    case Release(pid) =>
      k.ThreadUnblock(pid);
    case Nap(ms) =>
      TicksOnlySleep(t, ms, now);
      k.ThreadSleep(ms);
  }
}
