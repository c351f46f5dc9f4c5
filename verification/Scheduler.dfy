/** The thread scheduler (kernel/thread.c) as a value: the table of threads, the current one, and the tick counter. */
module Schedule {
  import opened Arithmetic

  const TICKS: nat := 0x1_0000_0000 // timer_ticks and sleep_until have 32 bits
  const MAX_THREADS: nat := 32

  datatype State = Ready | Running | Blocked | Terminated | Sleeping

  datatype Thread = Thread(tid: nat, state: State, sleepUntil: nat)

  datatype Table = Table(threads: seq<Thread>, current: nat) {
    /** tid equals the index, and only the current thread can be running. */
    ghost predicate Valid() {
      && current < |threads| <= MAX_THREADS
      && (forall i :: 0 <= i < |threads| ==> threads[i].tid == i && threads[i].sleepUntil < TICKS)
      && (forall i :: 0 <= i < |threads| && threads[i].state == Running ==> i == current)
    }
  }

  function With(t: Table, i: nat, s: State): Table
    requires i < |t.threads|
  {
    t.(threads := t.threads[i := t.threads[i].(state := s)])
  }

  // --------------------------------------------------------------- operations

  /** thread_create, table effect only. A full table refuses, and so does a heap that has no room. */
  function Create(t: Table, granted: bool): Table {
    if |t.threads| >= MAX_THREADS || !granted then t
    else t.(threads := t.threads + [Thread(|t.threads|, Ready, 0)])
  }

  function Stop(t: Table, pid: nat): Table {
    if pid < |t.threads| then With(t, pid, Terminated) else t
  }

  function Block(t: Table, pid: nat): Table {
    if pid < |t.threads| then With(t, pid, Blocked) else t
  }

  function Unblock(t: Table, pid: nat): Table {
    if pid < |t.threads| && t.threads[pid].state == Blocked then With(t, pid, Ready) else t
  }

  /** A sleeping thread whose deadline the tick counter has reached. */
  predicate Due(th: Thread, now: nat) { th.state == Sleeping && now % TICKS >= th.sleepUntil }

  function Woken(th: Thread, now: nat): Thread {
    if Due(th, now) then th.(state := Ready) else th
  }

  /** The first loop of thread_schedule. */
  function Wake(t: Table, now: nat): (r: Table)
    ensures |r.threads| == |t.threads| && r.current == t.current
    ensures forall i :: 0 <= i < |t.threads| ==> r.threads[i] == Woken(t.threads[i], now)
  {
    t.(threads := seq(|t.threads|, i requires 0 <= i < |t.threads| => Woken(t.threads[i], now)))
  }

  /** The k-th thread looked at, starting behind the current one. */
  function Candidate(t: Table, k: nat): (i: nat)
    requires t.threads != []
    ensures i < |t.threads|
  {
    Mod(t.current + 1 + k, |t.threads|)
  }

  /** The first k for which the k-th candidate is ready, or the number of threads. */
  function FirstReady(t: Table, k: nat): (r: nat)
    requires t.threads != [] && k <= |t.threads|
    ensures k <= r <= |t.threads|
    ensures r < |t.threads| ==> t.threads[Candidate(t, r)].state == Ready
    ensures forall j :: k <= j < r ==> t.threads[Candidate(t, j)].state != Ready
    decreases |t.threads| - k
  {
    if k == |t.threads| || t.threads[Candidate(t, k)].state == Ready then k else FirstReady(t, k + 1)
  }

  /** The switch to thread i: it runs; the previous thread becomes ready unless it sleeps; and whoever the
      switch resumes, which is i, is marked running again. */
  function SwitchTo(t: Table, i: nat): Table
    requires i < |t.threads| && t.current < |t.threads|
  {
    var r := With(t, i, Running).(current := i);
    var r2 := if r.threads[t.current].state != Sleeping then With(r, t.current, Ready) else r;
    With(r2, i, Running)
  }

  /** The second loop of thread_schedule. Without a ready thread the current one goes on. */
  function NextReady(t: Table): Table
    requires t.current < |t.threads|
  {
    var k := FirstReady(t, 0);
    if k < |t.threads| then SwitchTo(t, Candidate(t, k)) else t
  }

  /** thread_schedule. */
  function Reschedule(t: Table, now: nat): Table
    requires t.Valid()
  {
    NextReady(Wake(t, now))
  }

  /** Going to sleep, before the scheduling call that ends thread_sleep. */
  function Dozing(t: Table, ms: nat, now: nat): Table
    requires t.current < |t.threads|
  {
    t.(threads := t.threads[t.current := t.threads[t.current].(state := Sleeping, sleepUntil := (now + ms) % TICKS)])
  }

  /** thread_sleep. */
  function Sleep(t: Table, ms: nat, now: nat): Table
    requires t.Valid()
  {
    assert ms != 0 ==> Dozing(t, ms, now).Valid();
    if ms == 0 then t else Reschedule(Dozing(t, ms, now), now)
  }

  // -------------------------------------------------------------------- safety

  lemma SwitchValid(t: Table, i: nat)
    requires t.Valid() && i < |t.threads| && t.threads[i].state == Ready
    ensures SwitchTo(t, i).Valid() && SwitchTo(t, i).current == i && SwitchTo(t, i).threads[i].state == Running
    ensures |SwitchTo(t, i).threads| == |t.threads|
  {
  }

  lemma RescheduleValid(t: Table, now: nat)
    requires t.Valid()
    ensures Reschedule(t, now).Valid() && |Reschedule(t, now).threads| == |t.threads|
  {
    var w := Wake(t, now);
    var k := FirstReady(w, 0);
    if k < |w.threads| { SwitchValid(w, Candidate(w, k)); }
  }

  // ------------------------------------------------------------------ whole runs

  datatype Event =
    | Tick
    | Preempt
    | Spawn(granted: bool)
    | Halt(pid: nat)
    | Hold(pid: nat)
    | Release(pid: nat)
    | Nap(ms: nat)

  datatype System = System(table: Table, now: nat)

  /** One event; `now` counts ticks without wrapping, timer_ticks is its remainder. */
  function After(s: System, e: Event): System
    requires s.table.Valid()
  {
    match e
    case Tick => s.(now := s.now + 1)
    case Preempt => s.(table := Reschedule(s.table, s.now))
    case Spawn(granted) => s.(table := Create(s.table, granted))
    case Halt(pid) => s.(table := Stop(s.table, pid))
    case Hold(pid) => s.(table := Block(s.table, pid))
    case Release(pid) => s.(table := Unblock(s.table, pid))
    case Nap(ms) => s.(table := Sleep(s.table, ms % TICKS, s.now))
  }

  lemma SleepValid(t: Table, ms: nat, now: nat)
    requires t.Valid()
    ensures Sleep(t, ms, now).Valid() && |Sleep(t, ms, now).threads| == |t.threads|
  {
    hide Reschedule;
    if ms != 0 { RescheduleValid(Dozing(t, ms, now), now); }
  }

  lemma WithValid(t: Table, i: nat, st: State)
    requires t.Valid() && i < |t.threads| && st != Running
    ensures With(t, i, st).Valid() && |With(t, i, st).threads| == |t.threads|
  {
  }

  lemma CreateValid(t: Table, granted: bool)
    requires t.Valid()
    ensures Create(t, granted).Valid() && |t.threads| <= |Create(t, granted).threads|
  {
  }

  /** Every event keeps the invariant, in every reachable state. */
  lemma AfterValid(s: System, e: Event)
    requires s.table.Valid()
    ensures After(s, e).table.Valid() && |s.table.threads| <= |After(s, e).table.threads|
  {
    hide Reschedule, Sleep, With, Create, Table.Valid;
    match e
    case Tick =>
    case Preempt => RescheduleValid(s.table, s.now);
    case Spawn(granted) => CreateValid(s.table, granted);
    case Halt(pid) => if pid < |s.table.threads| { WithValid(s.table, pid, Terminated); }
    case Hold(pid) => if pid < |s.table.threads| { WithValid(s.table, pid, Blocked); }
    case Release(pid) => if pid < |s.table.threads| { WithValid(s.table, pid, Ready); }
    case Nap(ms) => SleepValid(s.table, ms % TICKS, s.now);
  }

  /** The system after a list of events. */
  function Run(s: System, es: seq<Event>): (r: System)
    requires s.table.Valid()
    ensures r.table.Valid() && |s.table.threads| <= |r.table.threads|
    decreases |es|
  {
    if es == [] then s
    else
      AfterValid(s, es[0]);
      Run(After(s, es[0]), es[1..])
  }

  /** The state thread_init leaves. */
  function Booted(now: nat): (s: System)
    ensures s.table.Valid()
  {
    System(Table([Thread(0, Running, 0)], 0), now)
  }

  /** Over every run: thread ids are table indices, and no thread but the current one is running. */
  lemma RunSafe(now: nat, es: seq<Event>, i: nat, j: nat)
    ensures var t := Run(Booted(now), es).table;
      && (i < |t.threads| ==> t.threads[i].tid == i)
      && (i < |t.threads| && t.threads[i].state == Running ==> i == t.current)
      && (i < |t.threads| && j < |t.threads| && t.threads[i].state == Running && t.threads[j].state == Running ==> i == j)
  {
    assert Run(Booted(now), es).table.Valid();
  }

  // ------------------------------------------------------- who cannot be chosen

  /** A thread that thread_schedule will not choose now. */
  predicate Out(th: Thread, now: nat) {
    th.state == Terminated || th.state == Blocked || (th.state == Sleeping && now % TICKS < th.sleepUntil)
  }

  /** A scheduling call passes such a thread by and leaves it as it is. */
  lemma PassedBy(t: Table, now: nat, i: nat)
    requires t.Valid() && i < |t.threads| && i != t.current && Out(t.threads[i], now)
    ensures |Reschedule(t, now).threads| == |t.threads|
    ensures Reschedule(t, now).current != i && Reschedule(t, now).threads[i] == t.threads[i]
  {
    hide FirstReady;
    var w := Wake(t, now);
    assert w.threads[i] == t.threads[i];
    var k := FirstReady(w, 0);
    if k < |w.threads| { SwitchOther(w, Candidate(w, k), i); }
  }

  lemma SwitchOther(t: Table, i: nat, j: nat)
    requires i < |t.threads| && j < |t.threads| && t.current < |t.threads| && j != i && j != t.current
    ensures SwitchTo(t, i).threads[j] == t.threads[j] && SwitchTo(t, i).current == i && |SwitchTo(t, i).threads| == |t.threads|
  {
  }

  function Ticks(es: seq<Event>): nat
  {
    if es == [] then 0 else (if es[0].Tick? then 1 else 0) + Ticks(es[1..])
  }

  /** Thread i is blocked and later unblocked. */
  ghost predicate Revived(es: seq<Event>, i: nat) {
    exists a, b :: 0 <= a < b < |es| && es[a] == Hold(i) && es[b] == Event.Release(i)
  }

  /** Thread i is out and nothing in the events to come can bring it back: no unblocking if it is blocked, no
      blocking and then unblocking, and if it sleeps, no tick count that reaches its deadline. */
  ghost predicate OutFor(s: System, es: seq<Event>, i: nat) {
    && i < |s.table.threads| && i != s.table.current && !Revived(es, i)
    && var th := s.table.threads[i];
      || th.state == Terminated
      || (th.state == Blocked && Event.Release(i) !in es)
      || (th.state == Sleeping && s.now % TICKS + Ticks(es) < th.sleepUntil < TICKS)
  }

  lemma RevivedLater(es: seq<Event>, i: nat)
    requires es != []
    ensures Revived(es[1..], i) ==> Revived(es, i)
    ensures es[0] == Hold(i) && Event.Release(i) in es[1..] ==> Revived(es, i)
  {
    if Revived(es[1..], i) {
      var a, b :| 0 <= a < b < |es[1..]| && es[1..][a] == Hold(i) && es[1..][b] == Event.Release(i);
      assert es[a + 1] == Hold(i) && es[b + 1] == Event.Release(i);
    }
    if es[0] == Hold(i) && Event.Release(i) in es[1..] {
      var b :| 0 <= b < |es[1..]| && es[1..][b] == Event.Release(i);
      assert es[b + 1] == Event.Release(i);
    }
  }

  lemma OutForNext(s: System, es: seq<Event>, i: nat)
    requires s.table.Valid() && es != [] && OutFor(s, es, i)
    ensures OutFor(After(s, es[0]), es[1..], i)
  {
    hide Reschedule;
    var t, e := s.table, es[0];
    var th := t.threads[i];
    RevivedLater(es, i);
    match e
    case Preempt => PassedBy(t, s.now, i);
    case Nap(ms) =>
      if ms % TICKS != 0 {
        var u := Dozing(t, ms % TICKS, s.now);
        assert u.Valid() && u.threads[i] == th;
        PassedBy(u, s.now, i);
      }
    case Tick => TickAdds(s.now);
    case _ =>
  }

  lemma TickAdds(now: nat)
    ensures now % TICKS + 1 < TICKS ==> (now + 1) % TICKS == now % TICKS + 1
  {
  }

  /** Over any run, a thread that is out is not made current: not a sleeping one before its deadline, not a
      terminated or blocked one, unless it is blocked and then unblocked. */
  lemma {:induction false} NotChosen(s: System, es: seq<Event>, i: nat)
    requires s.table.Valid() && OutFor(s, es, i)
    ensures Run(s, es).table.current != i && Run(s, es).table.threads[i].state != Running
    decreases |es|
  {
    if es != [] {
      AfterValid(s, es[0]);
      OutForNext(s, es, i);
      NotChosen(After(s, es[0]), es[1..], i);
    }
  }

  // --------------------------------------------------- what each event does

  /** Only the state of thread i differs. */
  ghost predicate OnlyState(t: Table, t': Table, i: nat, st: State) {
    && |t'.threads| == |t.threads| && t'.current == t.current
    && forall j :: 0 <= j < |t.threads| ==>
         && t'.threads[j].tid == t.threads[j].tid && t'.threads[j].sleepUntil == t.threads[j].sleepUntil
         && t'.threads[j].state == if j == i then st else t.threads[j].state
  }

  /** thread_stop terminates the thread with that id, whichever thread calls it, and touches nothing else. */
  lemma HaltDoes(s: System, pid: nat)
    requires s.table.Valid()
    ensures OnlyState(s.table, After(s, Halt(pid)).table, pid, Terminated) && After(s, Halt(pid)).now == s.now
  {
  }

  /** thread_block blocks it. */
  lemma HoldDoes(s: System, pid: nat)
    requires s.table.Valid()
    ensures OnlyState(s.table, After(s, Hold(pid)).table, pid, Blocked) && After(s, Hold(pid)).now == s.now
  {
  }

  /** thread_unblock makes it ready if it was blocked, and otherwise does nothing. */
  lemma ReleaseDoes(s: System, pid: nat)
    requires s.table.Valid()
    ensures After(s, Event.Release(pid)).now == s.now
    ensures if pid < |s.table.threads| && s.table.threads[pid].state == Blocked
            then OnlyState(s.table, After(s, Event.Release(pid)).table, pid, Ready)
            else After(s, Event.Release(pid)).table == s.table
  {
  }

  /** thread_create appends a ready thread with the next id, while there are fewer than 32 and memory is granted. */
  lemma SpawnDoes(s: System, granted: bool)
    requires s.table.Valid()
    ensures var n, t' := |s.table.threads|, After(s, Spawn(granted)).table;
      && t'.current == s.table.current && After(s, Spawn(granted)).now == s.now
      && |t'.threads| == (if granted && n < 32 then n + 1 else n)
      && (forall j :: 0 <= j < n ==> t'.threads[j] == s.table.threads[j])
      && (granted && n < 32 ==> t'.threads[n].tid == n && t'.threads[n].state == Ready && t'.threads[n].sleepUntil == 0)
  {
  }

  /** The state of a thread once the sleepers whose time has come are ready. */
  function Roused(th: Thread, now: nat): State {
    if th.state == Sleeping && now % 0x1_0000_0000 >= th.sleepUntil then Ready else th.state
  }

  /** How many places j is behind the current thread, which is itself the last. */
  function Places(t: Table, j: nat): int { if j > t.current then j - t.current else j - t.current + |t.threads| }

  /** A scheduling call: sleepers whose time has come are ready; the first ready thread behind the current one, going
      round, runs, and the previous one is ready unless it sleeps; without a ready thread nothing else happens. */
  ghost predicate Scheduled(t: Table, t': Table, now: nat)
    requires t.current < |t.threads|
  {
    && |t'.threads| == |t.threads| && t'.current < |t.threads|
    && (forall j :: 0 <= j < |t.threads| ==> t'.threads[j].tid == t.threads[j].tid && t'.threads[j].sleepUntil == t.threads[j].sleepUntil)
    && if exists j :: 0 <= j < |t.threads| && Roused(t.threads[j], now) == Ready then
         && Roused(t.threads[t'.current], now) == Ready
         && (forall j :: 0 <= j < |t.threads| && Roused(t.threads[j], now) == Ready ==> Places(t, t'.current) <= Places(t, j))
         && (forall j :: 0 <= j < |t.threads| ==>
               t'.threads[j].state == (if j == t'.current then Running
                                       else if j == t.current && Roused(t.threads[j], now) != Sleeping then Ready
                                       else Roused(t.threads[j], now)))
       else
         t'.current == t.current && forall j :: 0 <= j < |t.threads| ==> t'.threads[j].state == Roused(t.threads[j], now)
  }

  lemma PreemptDoes(t: Table, now: nat)
    requires t.Valid()
    ensures Scheduled(t, Reschedule(t, now), now)
  {
    hide FirstReady, Candidate;
    var w := Wake(t, now);
    var k := FirstReady(w, 0);
    forall j | 0 <= j < |t.threads| ensures w.threads[j] == t.threads[j].(state := Roused(t.threads[j], now)) {
      assert w.threads[j] == Woken(t.threads[j], now);
    }
    if k < |w.threads| {
      var c := Candidate(w, k);
      CandidateAt(w, k);
      assert Roused(t.threads[c], now) == Ready;
      forall j | 0 <= j < |t.threads| && Roused(t.threads[j], now) == Ready ensures Places(t, c) <= Places(t, j) {
        var d := CandidateOf(w, j);
        assert w.threads[j].state == Ready;
      }
    } else {
      forall j | 0 <= j < |t.threads| ensures Roused(t.threads[j], now) != Ready {
        var d := CandidateOf(w, j);
        assert w.threads[j].state != Ready;
      }
    }
  }

  /** thread_sleep puts the current thread to sleep until the 32-bit tick count reaches now + ms and makes a scheduling
      call; a sleep of 0 does nothing. */
  lemma NapDoes(s: System, ms: nat)
    requires s.table.Valid() && ms < 0x1_0000_0000
    ensures After(s, Nap(ms)).now == s.now
    ensures ms == 0 ==> After(s, Nap(ms)).table == s.table
    ensures ms != 0 ==> exists u: Table ::
      && |u.threads| == |s.table.threads| && u.current == s.table.current < |u.threads|
      && (forall j :: 0 <= j < |u.threads| && j != u.current ==> u.threads[j] == s.table.threads[j])
      && u.threads[u.current] == Thread(u.current, Sleeping, (s.now + ms) % 0x1_0000_0000)
      && Scheduled(u, After(s, Nap(ms)).table, s.now)
  {
    hide Reschedule, Scheduled;
    if ms != 0 {
      var u := Dozing(s.table, ms, s.now);
      assert u.Valid();
      PreemptDoes(u, s.now);
    }
  }

  /** A thread stopped by another is never current again, in any run that does not block and unblock it. */
  lemma StoppedStaysOff(s: System, k: nat, es: seq<Event>)
    requires s.table.Valid() && k < |s.table.threads| && k != s.table.current && !Revived(es, k)
    ensures After(s, Halt(k)).table.Valid() && Run(After(s, Halt(k)), es).table.current != k
  {
    AfterValid(s, Halt(k));
    HaltDoes(s, k);
    NotChosen(After(s, Halt(k)), es, k);
  }

  /** A thread blocked by another is not current again in any run that does not unblock it. */
  lemma BlockedStaysOff(s: System, k: nat, es: seq<Event>)
    requires s.table.Valid() && k < |s.table.threads| && k != s.table.current && Event.Release(k) !in es
    ensures After(s, Hold(k)).table.Valid() && Run(After(s, Hold(k)), es).table.current != k
  {
    AfterValid(s, Hold(k));
    HoldDoes(s, k);
    assert !Revived(es, k);
    NotChosen(After(s, Hold(k)), es, k);
  }

  /** A blocked thread that is unblocked waits its turn, so the bound on waiting holds of it. */
  lemma UnblockedWaits(s: System, k: nat, es: seq<Event>) returns (n: nat)
    requires s.table.Valid() && k < |s.table.threads| && k != s.table.current && s.table.threads[k].state == Blocked
    requires Halt(k) !in es && Hold(k) !in es && Calls(es) >= Places(s.table, k) + Spawns(es)
    ensures After(s, Event.Release(k)).table.Valid() && n <= |es| && Run(After(s, Event.Release(k)), es[..n]).table.current == k
  {
    AfterValid(s, Event.Release(k));
    ReleaseDoes(s, k);
    n := BoundedWaiting(After(s, Event.Release(k)), es, k);
  }

  /** Some thread other than the current one can be switched to. */
  ghost predicate OtherReady(t: Table, now: nat) {
    exists j :: 0 <= j < |t.threads| && j != t.current && (t.threads[j].state == Ready || Due(t.threads[j], now))
  }

  /** What the next scheduling call makes of a current thread that was stopped or blocked. */
  lemma LostCurrent(t: Table, now: nat, st: State)
    requires t.Valid() && (st == Terminated || st == Blocked)
    ensures var r := Reschedule(With(t, t.current, st), now);
      |r.threads| == |t.threads| && r.threads[t.current].state == if OtherReady(t, now) then Ready else st
  {
    hide FirstReady;
    var u := With(t, t.current, st);
    var w := Wake(u, now);
    assert w.threads[t.current].state == st;
    var k := FirstReady(w, 0);
    if k < |w.threads| {
      var c := Candidate(w, k);
      assert w.threads[c] == Woken(t.threads[c], now);
      LeftReady(w, c);
    } else {
      forall j | 0 <= j < |t.threads| && j != t.current ensures !(t.threads[j].state == Ready || Due(t.threads[j], now)) {
        var d := CandidateOf(w, j);
        assert w.threads[j] == Woken(t.threads[j], now);
      }
    }
  }

  /** thread_stop on the current thread holds exactly as long as no other thread is ready: the next switch makes
      the stopped thread ready again. */
  lemma StoppedCurrent(t: Table, now: nat)
    requires t.Valid()
    ensures |Reschedule(Stop(t, t.current), now).threads| == |t.threads|
    ensures Reschedule(Stop(t, t.current), now).threads[t.current].state == if OtherReady(t, now) then Ready else Terminated
  {
    LostCurrent(t, now, Terminated);
  }

  /** thread_block on the current thread likewise. */
  lemma BlockedCurrent(t: Table, now: nat)
    requires t.Valid()
    ensures |Reschedule(Block(t, t.current), now).threads| == |t.threads|
    ensures Reschedule(Block(t, t.current), now).threads[t.current].state == if OtherReady(t, now) then Ready else Blocked
  {
    LostCurrent(t, now, Blocked);
  }

  lemma LeftReady(t: Table, i: nat)
    requires i < |t.threads| && t.current < |t.threads| && i != t.current && t.threads[t.current].state != Sleeping
    ensures |SwitchTo(t, i).threads| == |t.threads| && SwitchTo(t, i).threads[t.current].state == Ready
  {
  }

  lemma CandidateOf(t: Table, i: nat) returns (k: nat)
    requires t.current < |t.threads| && i < |t.threads|
    ensures k < |t.threads| && Candidate(t, k) == i
    ensures k == if i > t.current then i - t.current - 1 else i - t.current - 1 + |t.threads|
  {
    hide Candidate;
    k := if i > t.current then i - t.current - 1 else i - t.current - 1 + |t.threads|;
    CandidateAt(t, k);
  }

  // ------------------------------------------------------------ bounded waiting

  /** How many places thread k is behind the current one, going round. */
  function Distance(t: Table, k: nat): (d: nat)
    requires t.current < |t.threads| && k < |t.threads|
    ensures d < |t.threads| && (d == 0 <==> k == t.current)
  {
    if k >= t.current then k - t.current else k - t.current + |t.threads|
  }

  lemma DistanceIsMod(t: Table, k: nat)
    requires t.current < |t.threads| && k < |t.threads|
    ensures Distance(t, k) == (k - t.current) % |t.threads|
  {
  }

  /** Ready, or asleep with the deadline behind it. */
  predicate Eligible(t: Table, k: nat, now: nat) {
    k < |t.threads| && (t.threads[k].state == Ready || Due(t.threads[k], now))
  }

  lemma CandidateAt(t: Table, r: nat)
    requires t.current < |t.threads| && r < |t.threads|
    ensures Candidate(t, r) == if t.current + 1 + r < |t.threads| then t.current + 1 + r else t.current + 1 + r - |t.threads|
  {
    Reduced(t.current + 1 + r, |t.threads|);
  }

  lemma CandidateDistance(t: Table, r: nat, k: nat)
    requires t.current < |t.threads| && k < |t.threads| && r < Distance(t, k)
    ensures var t' := t.(current := Candidate(t, r)); Distance(t', k) == Distance(t, k) - 1 - r
  {
    hide Candidate;
    CandidateAt(t, r);
  }

  /** Each scheduling call brings an eligible thread strictly closer, or makes it current. */
  lemma Closer(t: Table, k: nat, now: nat)
    requires t.Valid() && Eligible(t, k, now) && k != t.current
    ensures Reschedule(t, now).Valid() && |Reschedule(t, now).threads| == |t.threads|
    ensures Distance(Reschedule(t, now), k) < Distance(t, k)
    ensures Reschedule(t, now).current != k ==> Reschedule(t, now).threads[k].state == Ready
  {
    RescheduleValid(t, now);
    var w := Wake(t, now);
    var d := CandidateOf(w, k);
    assert w.threads[k].state == Ready;
    var r := FirstReady(w, 0);
    assert r <= d;
    CandidateDistance(w, r, k);
    var c := Candidate(w, r);
    SwitchTarget(w, c);
    if c != k { SwitchOther(w, c, k); }
  }

  lemma SwitchTarget(t: Table, i: nat)
    requires i < |t.threads| && t.current < |t.threads|
    ensures SwitchTo(t, i).current == i && |SwitchTo(t, i).threads| == |t.threads|
  {
  }

  /** The event makes a scheduling call. */
  predicate IsCall(e: Event) { e.Preempt? || (e.Nap? && e.ms % TICKS != 0) }

  function Calls(es: seq<Event>): nat {
    if es == [] then 0 else (if IsCall(es[0]) then 1 else 0) + Calls(es[1..])
  }

  function Spawns(es: seq<Event>): nat {
    if es == [] then 0 else (if es[0].Spawn? then 1 else 0) + Spawns(es[1..])
  }

  /** The ticks up to the next scheduling call. */
  function TicksToCall(es: seq<Event>): nat {
    if es == [] || IsCall(es[0]) then 0 else (if es[0].Tick? then 1 else 0) + TicksToCall(es[1..])
  }

  /** Thread k waits its turn: eligible, not the current one, and nobody is going to stop or block it. If it is
      still marked sleeping, the tick counter must not wrap before a scheduling call has woken it. */
  ghost predicate Waiting(s: System, es: seq<Event>, k: nat) {
    && Eligible(s.table, k, s.now) && k != s.table.current && Halt(k) !in es && Hold(k) !in es
    && (s.table.threads[k].state == Sleeping ==> s.now % TICKS + TicksToCall(es) < TICKS)
  }

  lemma WaitingNext(s: System, es: seq<Event>, k: nat)
    requires s.table.Valid() && es != [] && Waiting(s, es, k)
    ensures After(s, es[0]).table.Valid() && k < |After(s, es[0]).table.threads|
    ensures After(s, es[0]).table.current == k || Waiting(After(s, es[0]), es[1..], k)
    ensures var e, s1 := es[0], After(s, es[0]);
      Distance(s1.table, k) + (if IsCall(e) then 1 else 0) <= Distance(s.table, k) + (if e.Spawn? then 1 else 0)
  {
    hide Reschedule;
    AfterValid(s, es[0]);
    var t, e := s.table, es[0];
    assert e != Halt(k) && e != Hold(k);
    match e
    case Preempt => Closer(t, k, s.now);
    case Nap(ms) =>
      if ms % TICKS != 0 {
        var u := Dozing(t, ms % TICKS, s.now);
        assert u.Valid() && u.threads[k] == t.threads[k];
        Closer(u, k, s.now);
      }
    case Tick => TickAdds(s.now);
    case _ =>
  }

  /** Bounded waiting: a waiting thread becomes current within as many scheduling calls as it is places behind,
      plus one for every thread created meanwhile. */
  lemma {:induction false} BoundedWaiting(s: System, es: seq<Event>, k: nat) returns (n: nat)
    requires s.table.Valid() && Waiting(s, es, k)
    requires Calls(es) >= Distance(s.table, k) + Spawns(es)
    ensures n <= |es| && Run(s, es[..n]).table.current == k
    decreases |es|
  {
    var s1 := After(s, es[0]);
    WaitingNext(s, es, k);
    if s1.table.current == k {
      n := 1;
      assert es[..1][0] == es[0] && es[..1][1..] == [];
      assert Run(s1, []) == s1;
    } else {
      var m := BoundedWaiting(s1, es[1..], k);
      n := m + 1;
      assert es[..n][0] == es[0] && es[..n][1..] == es[1..][..m];
    }
  }

  // ------------------------------------------------------ how long a sleep lasts

  /** The deadline of a sleep begun now does not wrap the 32-bit tick counter. */
  predicate Unwrapped(now: nat, ms: nat) { now % TICKS + ms < TICKS }

  lemma DozingValid(t: Table, ms: nat, now: nat)
    requires t.Valid()
    ensures Dozing(t, ms, now).Valid() && OtherReady(Dozing(t, ms, now), now) == OtherReady(t, now)
  {
    var u := Dozing(t, ms, now);
    forall j | 0 <= j < |t.threads| && j != t.current ensures u.threads[j] == t.threads[j] {}
  }

  /** Without another ready thread the sleeper stays the current thread. */
  lemma NobodyElse(t: Table, ms: nat, now: nat)
    requires t.Valid() && !OtherReady(t, now)
    ensures Reschedule(Dozing(t, ms, now), now).current == t.current
  {
    hide FirstReady;
    DozingValid(t, ms, now);
    var u := Dozing(t, ms, now);
    var w := Wake(u, now);
    var k := FirstReady(w, 0);
    if k < |w.threads| {
      var c := Candidate(w, k);
      assert w.threads[c] == Woken(u.threads[c], now);
      assert c == t.current || !OtherReady(u, now);
      SwitchTarget(w, c);
    }
  }

  /** With another ready thread and a deadline ahead, the sleeper is off the processor, still asleep. */
  lemma FallsAsleep(t: Table, ms: nat, now: nat)
    requires t.Valid() && OtherReady(t, now) && 0 < ms < TICKS && Unwrapped(now, ms)
    ensures var r := Reschedule(Dozing(t, ms, now), now);
      |r.threads| == |t.threads| && r.current != t.current
      && r.threads[t.current].state == Sleeping && r.threads[t.current].sleepUntil == now % TICKS + ms
  {
    hide FirstReady;
    SumRemainder(now, ms);
    var u := Dozing(t, ms, now);
    var w := Wake(u, now);
    assert w.threads[t.current] == u.threads[t.current];
    SomeoneReady(t, u, w, now);
    var k := FirstReady(w, 0);
    var c := Candidate(w, k);
    SwitchTarget(w, c);
    StaysAsleep(w, c);
  }

  /** With a wrapped deadline it is off the processor but ready. */
  lemma WakesAtOnce(t: Table, ms: nat, now: nat)
    requires t.Valid() && OtherReady(t, now) && 0 < ms < TICKS && !Unwrapped(now, ms)
    ensures var r := Reschedule(Dozing(t, ms, now), now);
      |r.threads| == |t.threads| && (r.current == t.current || r.threads[t.current].state == Ready)
  {
    hide FirstReady;
    SumRemainder(now, ms);
    var u := Dozing(t, ms, now);
    var w := Wake(u, now);
    assert w.threads[t.current] == Woken(u.threads[t.current], now);
    SomeoneReady(t, u, w, now);
    var k := FirstReady(w, 0);
    var c := Candidate(w, k);
    SwitchTarget(w, c);
    if c != t.current { LeftReady(w, c); }
  }

  lemma SumRemainder(now: nat, ms: nat)
    requires ms < TICKS
    ensures (now + ms) % TICKS == if Unwrapped(now, ms) then now % TICKS + ms else now % TICKS + ms - TICKS
  {
  }

  lemma SomeoneReady(t: Table, u: Table, w: Table, now: nat)
    requires t.Valid() && OtherReady(t, now) && w == Wake(u, now) && u.current == t.current && |u.threads| == |t.threads|
    requires forall j :: 0 <= j < |t.threads| && j != t.current ==> u.threads[j] == t.threads[j]
    ensures FirstReady(w, 0) < |w.threads|
  {
    var j :| 0 <= j < |t.threads| && j != t.current && (t.threads[j].state == Ready || Due(t.threads[j], now));
    assert w.threads[j].state == Ready;
    var k := CandidateOf(w, j);
  }

  lemma StaysAsleep(t: Table, i: nat)
    requires i < |t.threads| && t.current < |t.threads| && t.threads[i].state == Ready && t.threads[t.current].state == Sleeping
    ensures |SwitchTo(t, i).threads| == |t.threads| && SwitchTo(t, i).threads[t.current] == t.threads[t.current] && i != t.current
  {
  }

  /** Thread i does not become current before the tick count `end`, whatever happens, short of being blocked and
      then unblocked. */
  ghost predicate AsleepUntil(s: System, i: nat, end: nat)
    requires s.table.Valid()
  {
    forall es :: Run(s, es).now < end && !Revived(es, i) ==> Run(s, es).table.current != i
  }

  lemma {:induction false} RunTicks(s: System, es: seq<Event>)
    requires s.table.Valid()
    ensures Run(s, es).now == s.now + Ticks(es)
    decreases |es|
  {
    hide Reschedule, Sleep, Table.Valid;
    if es != [] {
      AfterValid(s, es[0]);
      RunTicks(After(s, es[0]), es[1..]);
    }
  }

  /** n preemptions, and nothing else. */
  function Preempts(n: nat): (es: seq<Event>)
    ensures |es| == n && forall i :: 0 <= i < n ==> es[i] == Preempt
  {
    seq(n, _ => Preempt)
  }

  lemma {:induction false} PreemptsCount(n: nat)
    ensures Calls(Preempts(n)) == n && Spawns(Preempts(n)) == 0 && Ticks(Preempts(n)) == 0 && TicksToCall(Preempts(n)) == 0
  {
    if n > 0 {
      assert Preempts(n)[1..] == Preempts(n - 1);
      PreemptsCount(n - 1);
    }
  }

  /** A ready thread is reached by preemptions alone, without a tick. */
  lemma PreemptsReach(s: System, k: nat) returns (es: seq<Event>)
    requires s.table.Valid() && k < |s.table.threads| && (k == s.table.current || s.table.threads[k].state == Ready)
    ensures Run(s, es).table.current == k && Run(s, es).now == s.now && !Revived(es, k)
  {
    if k == s.table.current {
      es := [];
    } else {
      var all := Preempts(Distance(s.table, k));
      PreemptsCount(|all|);
      var n := BoundedWaiting(s, all, k);
      es := all[..n];
      assert es == Preempts(n);
      PreemptsCount(n);
    }
    RunTicks(s, es);
  }

  /** After thread_sleep(ms) the calling thread is off the processor for ms ticks, whatever happens short of
      blocking and unblocking it, if and only if another thread could take over and the deadline does not wrap. */
  lemma SleepLength(s: System, ms: nat)
    requires s.table.Valid() && 0 < ms < TICKS
    ensures After(s, Nap(ms)).table.Valid()
    ensures AsleepUntil(After(s, Nap(ms)), s.table.current, s.now + ms) <==> OtherReady(s.table, s.now) && Unwrapped(s.now, ms)
  {
    hide Reschedule, Table.Valid;
    AfterValid(s, Nap(ms));
    var t, i, s1 := s.table, s.table.current, After(s, Nap(ms));
    CurrentIn(t);
    DozingValid(t, ms, s.now);
    assert s1 == System(Reschedule(Dozing(t, ms, s.now), s.now), s.now);
    if !OtherReady(t, s.now) {
      NobodyElse(t, ms, s.now);
      assert Run(s1, []) == s1 && !Revived([], i);
    } else if !Unwrapped(s.now, ms) {
      WakesAtOnce(t, ms, s.now);
      var es := PreemptsReach(s1, i);
    } else {
      FallsAsleep(t, ms, s.now);
      forall es | Run(s1, es).now < s.now + ms && !Revived(es, i) ensures Run(s1, es).table.current != i {
        RunTicks(s1, es);
        NotChosen(s1, es, i);
      }
    }
  }

  lemma CurrentIn(t: Table)
    requires t.Valid()
    ensures t.current < |t.threads|
  {
  }

  /** With two threads and the other one ready, the call switches to it. */
  lemma OtherOfTwo(t: Table, now: nat)
    requires t.Valid() && |t.threads| == 2 && Woken(t.threads[1 - t.current], now).state == Ready
    ensures Reschedule(t, now) == SwitchTo(Wake(t, now), 1 - t.current)
  {
    var w := Wake(t, now);
    CandidateAt(w, 0);
    assert w.threads[Candidate(w, 0)].state == Ready;
  }

  /** Either half can fail. Right after booting the only thread sleeps on the processor. */
  lemma SleepsRunning(ms: nat)
    requires 0 < ms < TICKS
    ensures After(Booted(0), Nap(ms)).table.current == 0 && Unwrapped(0, ms)
  {
    NobodyElse(Booted(0).table, ms, 0);
  }

  /** With a second thread, one tick before the counter wraps, a sleep of two ticks is over at the next
      preemption, within the same tick. */
  lemma SleepsShort(now: nat)
    requires now % TICKS == TICKS - 1
    ensures var s := After(Booted(now), Spawn(true));
      && OtherReady(s.table, now)
      && After(s, Nap(2)).table == Table([Thread(0, Ready, 1), Thread(1, Running, 0)], 1)
      && After(After(s, Nap(2)), Preempt) == System(Table([Thread(0, Running, 1), Thread(1, Ready, 0)], 0), now)
  {
    hide Reschedule;
    var t := After(Booted(now), Spawn(true)).table;
    assert t.threads == [Thread(0, Running, 0), Thread(1, Ready, 0)];
    assert t.threads[1].state == Ready;
    SumRemainder(now, 2);
    var u := Dozing(t, 2, now);
    assert u.threads == [Thread(0, Sleeping, 1), Thread(1, Ready, 0)];
    OtherOfTwo(u, now);
    assert Wake(u, now).threads == [Thread(0, Ready, 1), Thread(1, Ready, 0)];
    var t2 := After(After(Booted(now), Spawn(true)), Nap(2)).table;
    assert t2.threads == [Thread(0, Ready, 1), Thread(1, Running, 0)];
    OtherOfTwo(t2, now);
    assert Wake(t2, now).threads == t2.threads;
    assert SwitchTo(t2, 0).threads == [Thread(0, Running, 1), Thread(1, Ready, 0)];
  }
}
