/** The keyboard buffer (drivers/in/ps2.c): one producer, the interrupt handler, and one consumer, a thread,
    share a ring without a lock. Every access to a shared variable is a step of its own, so that the two
    procedures can interleave in every possible way. */
module KeyboardRing {
  const SIZE: nat := 128

  /** Where keyboard_buffer_push is, with its locals. */
  datatype Producer =
    | Resting
    | Entered(c: char)
    | Computed(c: char, next: nat)
    | SawTail(c: char, next: nat, tail: nat)
    | Storing(c: char, next: nat)
    | Publishing(c: char, next: nat)

  /** Where keyboard_buffer_pop is, with its locals. */
  datatype Consumer =
    | Away
    | Asked
    | SawHead(head: nat)
    | Loading
    | Loaded(c: char)
    | Leaving(c: char, next: nat)

  /** An index going round the buffer. */
  function Wrap(i: nat): (w: nat)
    requires i < 2 * SIZE
    ensures w < SIZE && w == if i < SIZE then i else i - SIZE
  {
    i % SIZE
  }

  datatype Ring = Ring(buf: seq<char>, head: nat, tail: nat, producer: Producer, consumer: Consumer) {
    ghost predicate InRange() { |buf| == SIZE && head < SIZE && tail < SIZE }

    /** How many characters are stored and not yet taken. */
    function Unread(): (n: nat)
      requires head < SIZE && tail < SIZE
      ensures n < SIZE && (n == 0 <==> head == tail)
    {
      if head >= tail then head - tail else head - tail + SIZE
    }

    /** The unread characters, oldest first. */
    function Contents(): (cs: seq<char>)
      requires |buf| == SIZE && head < SIZE && tail < SIZE
      ensures |cs| == Unread()
      ensures forall i :: 0 <= i < |cs| ==> cs[i] == buf[Wrap(tail + i)]
    {
      seq(Unread(), i requires 0 <= i < Unread() => buf[Wrap(tail + i)])
    }
  }

  /** What the environment does next. A call only starts when the previous one of its kind has returned. */
  datatype Event = Push(c: char) | Pop | ProducerStep | ConsumerStep

  datatype Outcome = Silent | Accepted(c: char) | Dropped(c: char) | Taken(c: char) | Empty

  function Next(r: Ring, e: Event): (Ring, Outcome)
    requires r.InRange()
  {
    match e
    case Push(c) => (if r.producer.Resting? then r.(producer := Entered(c)) else r, Silent)
    case Pop => (if r.consumer.Away? then r.(consumer := Asked) else r, Silent)
    case ProducerStep => (
      match r.producer
      case Resting => (r, Silent)
      case Entered(c) => (r.(producer := Computed(c, Wrap(r.head + 1))), Silent)
      case Computed(c, next) => (r.(producer := SawTail(c, next, r.tail)), Silent)
      case SawTail(c, next, tail) =>
        if next != tail then (r.(producer := Storing(c, next)), Silent) else (r.(producer := Resting), Dropped(c))
      case Storing(c, next) => (r.(buf := r.buf[r.head := c], producer := Publishing(c, next)), Silent)
      case Publishing(c, next) => (r.(head := next, producer := Resting), Accepted(c)))
    case ConsumerStep =>
      match r.consumer
      case Away => (r, Silent)
      case Asked => (r.(consumer := SawHead(r.head)), Silent)
      case SawHead(head) =>
        if head == r.tail then (r.(consumer := Away), Empty) else (r.(consumer := Loading), Silent)
      case Loading => (r.(consumer := Loaded(r.buf[r.tail])), Silent)
      case Loaded(c) => (r.(consumer := Leaving(c, Wrap(r.tail + 1))), Silent)
      case Leaving(c, next) => (r.(tail := next, consumer := Away), Taken(c))
  }

  /** What every interleaving keeps. A producer past its check knows that there is room, a consumer past its
      check knows that there is something to take: the other side can only make that more true. */
  ghost predicate Valid(r: Ring) {
    && r.InRange()
    && (match r.producer
        case Resting => true
        case Entered(_) => true
        case Computed(_, next) => next == Wrap(r.head + 1)
        case SawTail(_, next, tail) => next == Wrap(r.head + 1) && (next != tail ==> r.Unread() < SIZE - 1)
        case Storing(_, next) => next == Wrap(r.head + 1) && r.Unread() < SIZE - 1
        case Publishing(c, next) => next == Wrap(r.head + 1) && r.Unread() < SIZE - 1 && r.buf[r.head] == c)
    && (match r.consumer
        case Away => true
        case Asked => true
        case SawHead(head) => head != r.tail ==> 0 < r.Unread()
        case Loading => 0 < r.Unread()
        case Loaded(c) => 0 < r.Unread() && r.buf[r.tail] == c
        case Leaving(c, next) => 0 < r.Unread() && r.buf[r.tail] == c && next == Wrap(r.tail + 1))
  }

  /** What a step does to the queue of unread characters. */
  function Queued(q: seq<char>, o: Outcome): seq<char> {
    match o
    case Accepted(c) => q + [c]
    case Taken(c) => if q != [] then q[1..] else q
    case _ => q
  }

  /** Every step keeps the invariant, and it is a step of a first-in first-out queue. */
  lemma NextKeeps(r: Ring, e: Event)
    requires Valid(r)
    ensures Valid(Next(r, e).0) && Next(r, e).0.InRange()
    ensures Next(r, e).0.Contents() == Queued(r.Contents(), Next(r, e).1)
    ensures Next(r, e).1.Taken? ==> r.Contents() != [] && Next(r, e).1.c == r.Contents()[0]
  {
    var (n, o) := Next(r, e);
    match e
    case Push(_) =>
    case Pop =>
    case ProducerStep => ProducerKeeps(r);
    case ConsumerStep => ConsumerKeeps(r);
  }

  lemma ProducerKeeps(r: Ring)
    requires Valid(r)
    ensures Valid(Next(r, ProducerStep).0)
    ensures Next(r, ProducerStep).0.Contents() == Queued(r.Contents(), Next(r, ProducerStep).1)
    ensures !Next(r, ProducerStep).1.Taken?
  {
    hide Wrap, Ring.Contents, Ring.Unread, Valid;
    match r.producer
    case Storing(_, _) => StoreKeeps(r);
    case Publishing(_, _) => PublishKeeps(r);
    case _ => CheckKeeps(r);
  }

  lemma StoreKeeps(r: Ring)
    requires Valid(r) && r.producer.Storing?
    ensures var (n, o) := Next(r, ProducerStep); Valid(n) && n.Contents() == r.Contents() && o.Silent?
  {
    hide Wrap, Ring.Contents, Ring.Unread;
    var n := Next(r, ProducerStep).0;
    StoredApart(r, r.producer.c);
    SameContents(r.(buf := n.buf), n);
  }

  lemma PublishKeeps(r: Ring)
    requires Valid(r) && r.producer.Publishing?
    ensures var (n, o) := Next(r, ProducerStep); Valid(n) && n.Contents() == r.Contents() + [r.producer.c] && o == Accepted(r.producer.c)
  {
    hide Wrap, Ring.Contents, Ring.Unread;
    var n := Next(r, ProducerStep).0;
    HeadMoves(r);
    SameContents(r.(head := r.producer.next), n);
  }

  lemma CheckKeeps(r: Ring)
    requires Valid(r) && !r.producer.Storing? && !r.producer.Publishing?
    ensures var (n, o) := Next(r, ProducerStep); Valid(n) && n.Contents() == r.Contents() && !o.Taken? && !o.Accepted?
  {
    hide Wrap, Ring.Contents, Ring.Unread;
    RoomAhead(r);
    SameContents(r, Next(r, ProducerStep).0);
  }

  /** The ring has room exactly if the place behind the head is not the tail. */
  lemma RoomAhead(r: Ring)
    requires r.InRange()
    ensures Wrap(r.head + 1) != r.tail <==> r.Unread() < SIZE - 1
  {
  }

  lemma ConsumerKeeps(r: Ring)
    requires Valid(r)
    ensures Valid(Next(r, ConsumerStep).0)
    ensures Next(r, ConsumerStep).0.Contents() == Queued(r.Contents(), Next(r, ConsumerStep).1)
    ensures Next(r, ConsumerStep).1.Taken? ==> r.Contents() != [] && Next(r, ConsumerStep).1.c == r.Contents()[0]
  {
    hide Wrap, Ring.Contents, Ring.Unread;
    var n := Next(r, ConsumerStep).0;
    match r.consumer
    case Leaving(_, next) =>
      TailMoves(r);
      SameContents(r.(tail := next), n);
    case _ => SameContents(r, n);
  }

  lemma SameContents(r: Ring, n: Ring)
    requires r.InRange() && n.buf == r.buf && n.head == r.head && n.tail == r.tail
    ensures n.Contents() == r.Contents() && n.Unread() == r.Unread()
  {
  }

  /** Writing at the head touches no unread character. */
  lemma StoredApart(r: Ring, c: char)
    requires r.InRange()
    ensures r.(buf := r.buf[r.head := c]).Contents() == r.Contents()
  {
    var n := r.(buf := r.buf[r.head := c]);
    forall i | 0 <= i < r.Unread() ensures n.Contents()[i] == r.Contents()[i] {
      assert Wrap(r.tail + i) != r.head;
    }
  }

  lemma HeadMoves(r: Ring)
    requires r.InRange() && r.Unread() < SIZE - 1
    ensures r.(head := Wrap(r.head + 1)).Contents() == r.Contents() + [r.buf[r.head]]
  {
    hide Wrap, Ring.Contents;
    var n := r.(head := Wrap(r.head + 1));
    assert n.Unread() == r.Unread() + 1 && Wrap(r.tail + r.Unread()) == r.head;
    assert n.Contents() == r.Contents() + [r.buf[r.head]];
  }

  lemma TailMoves(r: Ring)
    requires r.InRange() && 0 < r.Unread()
    ensures r.Contents() == [r.buf[r.tail]] + r.(tail := Wrap(r.tail + 1)).Contents()
  {
    hide Wrap, Ring.Contents;
    var n := r.(tail := Wrap(r.tail + 1));
    assert n.Unread() == r.Unread() - 1;
    forall i | 0 <= i < n.Unread() ensures n.Contents()[i] == r.Contents()[i + 1] {
      assert Wrap(n.tail + i) == Wrap(r.tail + (i + 1));
    }
    assert r.Contents() == [r.buf[r.tail]] + n.Contents();
  }

  // ------------------------------------------------------------------ whole runs

  ghost predicate Initial(r: Ring) {
    |r.buf| == SIZE && r.head == 0 && r.tail == 0 && r.producer == Resting && r.consumer == Away
  }

  lemma InitialValid(r: Ring)
    requires Initial(r)
    ensures Valid(r) && r.Contents() == []
  {
  }

  /** The ring after an interleaving of steps, latest step last. */
  function Run(r: Ring, es: seq<Event>): (s: Ring)
    requires Valid(r)
    ensures Valid(s) && s.InRange()
  {
    if es == [] then r
    else
      var before := Run(r, es[..|es| - 1]);
      NextKeeps(before, es[|es| - 1]);
      Next(before, es[|es| - 1]).0
  }

  /** The outcome of the last step. */
  function Last(r: Ring, es: seq<Event>): Outcome
    requires Valid(r) && es != []
  {
    Next(Run(r, es[..|es| - 1]), es[|es| - 1]).1
  }

  /** The characters accepted, in order. */
  function AcceptedIn(r: Ring, es: seq<Event>): seq<char>
    requires Valid(r)
  {
    if es == [] then []
    else AcceptedIn(r, es[..|es| - 1]) + (if Last(r, es).Accepted? then [Last(r, es).c] else [])
  }

  /** The characters handed out, in order. */
  function TakenIn(r: Ring, es: seq<Event>): seq<char>
    requires Valid(r)
  {
    if es == [] then []
    else TakenIn(r, es[..|es| - 1]) + (if Last(r, es).Taken? then [Last(r, es).c] else [])
  }

  lemma QueueStep(accepted: seq<char>, taken: seq<char>, q: seq<char>, o: Outcome)
    requires accepted == taken + q && (o.Taken? ==> q != [] && o.c == q[0])
    ensures accepted + (if o.Accepted? then [o.c] else []) == taken + (if o.Taken? then [o.c] else []) + Queued(q, o)
  {
    if o.Taken? { assert q == [o.c] + q[1..]; }
  }

  /** Under every interleaving the characters handed out, followed by those in the ring, are those accepted:
      none is lost, doubled, changed or overtaken, and at most 127 are unread. */
  lemma {:induction false} FirstInFirstOut(r: Ring, es: seq<Event>)
    requires Initial(r)
    ensures AcceptedIn(r, es) == TakenIn(r, es) + Run(r, es).Contents()
    ensures TakenIn(r, es) <= AcceptedIn(r, es)
    ensures |AcceptedIn(r, es)| - |TakenIn(r, es)| <= 127
  {
    hide Next, Valid, Ring.Contents, Queued;
    InitialValid(r);
    if es != [] {
      var most := es[..|es| - 1];
      FirstInFirstOut(r, most);
      NextKeeps(Run(r, most), es[|es| - 1]);
      QueueStep(AcceptedIn(r, most), TakenIn(r, most), Run(r, most).Contents(), Last(r, es));
    }
  }

  /** The producer read the tail in step j and has not moved since. */
  ghost predicate CheckedAt(r: Ring, es: seq<Event>, j: nat)
    requires Valid(r)
  {
    && j < |es| && es[j] == ProducerStep && Run(r, es[..j]).producer.Computed?
    && forall m :: j < m < |es| ==> es[m] != ProducerStep
  }

  ghost predicate LookedAt(r: Ring, es: seq<Event>, j: nat)
    requires Valid(r)
  {
    && j < |es| && es[j] == ConsumerStep && Run(r, es[..j]).consumer.Asked?
    && forall m :: j < m < |es| ==> es[m] != ConsumerStep
  }

  /** How the producer comes to hold a copy of the tail. */
  lemma ProducerMoves(r: Ring, e: Event)
    requires Valid(r)
    ensures e != ProducerStep && Next(r, e).0.producer.SawTail? ==> Next(r, e).0.producer == r.producer
    ensures var p := Next(r, e).0.producer;
      e == ProducerStep && p.SawTail? ==> r.producer.Computed? && (p.next == p.tail <==> r.Unread() == SIZE - 1)
  {
    hide Wrap;
  }

  /** How the consumer comes to hold a copy of the head, and the tail it will compare the copy with. */
  lemma ConsumerMoves(r: Ring, e: Event)
    requires Valid(r)
    ensures e != ConsumerStep && Next(r, e).0.consumer.SawHead?
      ==> Next(r, e).0.consumer == r.consumer && Next(r, e).0.tail == r.tail
    ensures var p := Next(r, e).0.consumer;
      e == ConsumerStep && p.SawHead? ==> r.consumer.Asked? && (p.head == Next(r, e).0.tail <==> r.Unread() == 0)
  {
    hide Wrap;
  }

  /** A producer that holds a copy of the tail read it in some earlier step; the copy shows a full ring exactly
      if the ring was full in that step. */
  lemma {:induction false} WhenChecked(r: Ring, es: seq<Event>) returns (j: nat)
    requires Initial(r) && Run(r, es).producer.SawTail?
    ensures CheckedAt(r, es, j)
    ensures var p := Run(r, es).producer; p.next == p.tail <==> Run(r, es[..j]).Unread() == 127
  {
    hide Next, Valid;
    InitialValid(r);
    var k := |es| - 1;
    var before := Run(r, es[..k]);
    ProducerMoves(before, es[k]);
    if es[k] == ProducerStep {
      j := k;
    } else {
      j := WhenChecked(r, es[..k]);
      assert es[..k][..j] == es[..j];
    }
  }

  lemma {:induction false} WhenLooked(r: Ring, es: seq<Event>) returns (j: nat)
    requires Initial(r) && Run(r, es).consumer.SawHead?
    ensures LookedAt(r, es, j)
    ensures Run(r, es).consumer.head == Run(r, es).tail <==> Run(r, es[..j]).Unread() == 0
  {
    hide Next, Valid;
    InitialValid(r);
    var k := |es| - 1;
    var before := Run(r, es[..k]);
    ConsumerMoves(before, es[k]);
    if es[k] == ConsumerStep {
      j := k;
    } else {
      j := WhenLooked(r, es[..k]);
      assert es[..k][..j] == es[..j];
    }
  }

  /** A character is dropped only if the ring held 127 when the producer looked; if it held fewer, the producer
      goes on to store the character, whatever happens meanwhile. */
  lemma DroppedOnlyWhenFull(r: Ring, es: seq<Event>) returns (j: nat)
    requires Initial(r) && es != [] && es[|es| - 1] == ProducerStep && Run(r, es[..|es| - 1]).producer.SawTail?
    ensures CheckedAt(r, es[..|es| - 1], j)
    ensures Last(r, es).Dropped? <==> Run(r, es[..j]).Unread() == 127
    ensures !Last(r, es).Dropped? ==> Run(r, es).producer.Storing?
  {
    InitialValid(r);
    j := WhenChecked(r, es[..|es| - 1]);
    assert es[..|es| - 1][..j] == es[..j];
  }

  /** keyboard_buffer_pop returns 0 exactly if the ring was empty when the consumer read the head. */
  lemma EmptyOnlyWhenEmpty(r: Ring, es: seq<Event>) returns (j: nat)
    requires Initial(r) && es != [] && es[|es| - 1] == ConsumerStep && Run(r, es[..|es| - 1]).consumer.SawHead?
    ensures LookedAt(r, es[..|es| - 1], j)
    ensures Last(r, es).Empty? <==> Run(r, es[..j]).Unread() == 0
    ensures !Last(r, es).Empty? ==> Run(r, es).consumer.Loading?
  {
    InitialValid(r);
    j := WhenLooked(r, es[..|es| - 1]);
    assert es[..|es| - 1][..j] == es[..j];
  }

  // ------------------------------------------------------------ whole procedures

  /** keyboard_buffer_push as one step. */
  function Pushed(r: Ring, c: char): Ring
    requires r.InRange()
  {
    var next := Wrap(r.head + 1);
    if next != r.tail then r.(buf := r.buf[r.head := c], head := next) else r
  }

  /** keyboard_buffer_pop as one step. */
  function Popped(r: Ring): (Ring, Outcome)
    requires r.InRange()
  {
    if r.head == r.tail then (r, Empty) else (r.(tail := Wrap(r.tail + 1)), Taken(r.buf[r.tail]))
  }

  /** A call of keyboard_buffer_push, or of keyboard_buffer_pop, and its steps up to the return. */
  function PushSteps(r: Ring, c: char): seq<Event>
    requires r.InRange()
  {
    [Push(c), ProducerStep, ProducerStep, ProducerStep]
    + if r.Unread() < SIZE - 1 then [ProducerStep, ProducerStep] else []
  }

  function PopSteps(r: Ring): seq<Event>
    requires r.InRange()
  {
    [Pop, ConsumerStep, ConsumerStep] + if r.Unread() > 0 then [ConsumerStep, ConsumerStep, ConsumerStep] else []
  }

  lemma RunNext(r: Ring, es: seq<Event>, e: Event)
    requires Valid(r)
    ensures Run(r, []) == r
    ensures Run(r, es + [e]) == Next(Run(r, es), e).0 && Last(r, es + [e]) == Next(Run(r, es), e).1
  {
    assert (es + [e])[..|es|] == es;
  }

  /** Where a call stands after three steps. */
  lemma ThreeMore(r: Ring, e: Event, f: Event)
    requires Valid(r) && r.InRange()
    ensures var r1 := Next(r, e).0; Valid(r1)
    ensures var r2 := Next(Next(r, e).0, f).0; Valid(r2)
    ensures Run(r, [e, f, f]) == Next(Next(Next(r, e).0, f).0, f).0
    ensures Last(r, [e, f, f]) == Next(Next(Next(r, e).0, f).0, f).1
  {
    hide Run, Last, Next, Valid;
    NextKeeps(r, e);
    NextKeeps(Next(r, e).0, f);
    RunNext(r, [], e);
    assert [] + [e] == [e] && [e] + [f] == [e, f] && [e, f] + [f] == [e, f, f];
    RunNext(r, [e], f);
    RunNext(r, [e, f], f);
  }

  /** Three more steps of the same procedure. */
  lemma ThenThree(r: Ring, es: seq<Event>, f: Event)
    requires Valid(r)
    ensures var r0 := Run(r, es); Valid(Next(r0, f).0) && Valid(Next(Next(r0, f).0, f).0)
    ensures Run(r, es + [f, f, f]) == Next(Next(Next(Run(r, es), f).0, f).0, f).0
    ensures Last(r, es + [f, f, f]) == Next(Next(Next(Run(r, es), f).0, f).0, f).1
  {
    hide Run, Last, Next, Valid;
    var r0 := Run(r, es);
    NextKeeps(r0, f);
    NextKeeps(Next(r0, f).0, f);
    RunNext(r, es, f);
    RunNext(r, es + [f], f);
    RunNext(r, es + [f, f], f);
    assert es + [f] + [f] == es + [f, f] && es + [f, f] + [f] == es + [f, f, f];
  }

  /** Uninterrupted, the steps of a push add the character behind the unread ones unless these are 127. */
  lemma PushAlone(r: Ring, c: char)
    requires Valid(r) && r.InRange() && r.producer.Resting?
    ensures Run(r, PushSteps(r, c)) == Pushed(r, c)
    ensures Last(r, PushSteps(r, c)) == if |r.Contents()| < 127 then Accepted(c) else Dropped(c)
    ensures Pushed(r, c).Contents() == if |r.Contents()| < 127 then r.Contents() + [c] else r.Contents()
  {
    hide Wrap, Ring.Contents, Run, Last, Valid, Next;
    PushRoom(r, c);
    var entered := [Push(c), ProducerStep, ProducerStep];
    ThreeMore(r, Push(c), ProducerStep);
    PushChecks(r, c);
    if r.Unread() < SIZE - 1 {
      ThenThree(r, entered, ProducerStep);
      PushStores(Run(r, entered), c);
      assert PushSteps(r, c) == entered + [ProducerStep, ProducerStep, ProducerStep];
    } else {
      RunNext(r, entered, ProducerStep);
      assert PushSteps(r, c) == entered + [ProducerStep];
      PushGivesUp(Run(r, entered), c);
    }
  }

  /** The call, and the reads of head and tail. */
  lemma PushChecks(r: Ring, c: char)
    requires r.InRange() && r.producer.Resting?
    ensures var r1 := Next(r, Push(c)).0;
      && r1.InRange() && Next(r1, ProducerStep).0.InRange()
      && Next(Next(r1, ProducerStep).0, ProducerStep).0 == r.(producer := SawTail(c, Wrap(r.head + 1), r.tail))
  {
    hide Wrap;
  }

  /** The comparison, the store and the publication. */
  lemma PushStores(r: Ring, c: char)
    requires r.InRange() && r.producer == SawTail(c, Wrap(r.head + 1), r.tail) && Wrap(r.head + 1) != r.tail
    ensures var r1 := Next(r, ProducerStep).0;
      && r1.InRange() && Next(r1, ProducerStep).0.InRange()
      && Next(Next(r1, ProducerStep).0, ProducerStep) ==
        (r.(buf := r.buf[r.head := c], head := Wrap(r.head + 1), producer := Resting), Accepted(c))
  {
    hide Wrap;
  }

  lemma PushGivesUp(r: Ring, c: char)
    requires r.InRange() && r.producer == SawTail(c, Wrap(r.head + 1), r.tail) && Wrap(r.head + 1) == r.tail
    ensures Next(r, ProducerStep) == (r.(producer := Resting), Dropped(c))
  {
    hide Wrap;
  }

  lemma PushRoom(r: Ring, c: char)
    requires Valid(r)
    ensures Wrap(r.head + 1) != r.tail <==> r.Unread() < SIZE - 1
    ensures r.Unread() < SIZE - 1 ==> Pushed(r, c).Contents() == r.Contents() + [c]
  {
    hide Wrap, Ring.Contents;
    StoredApart(r, c);
    RoomAhead(r);
    var stored := r.(buf := r.buf[r.head := c]);
    if r.Unread() < SIZE - 1 { HeadMoves(stored); }
  }

  /** Uninterrupted, the steps of a pop take the oldest unread character, or report that there is none. */
  lemma PopAlone(r: Ring)
    requires Valid(r) && r.InRange() && r.consumer.Away?
    ensures Run(r, PopSteps(r)) == Popped(r).0
    ensures Last(r, PopSteps(r)) == if r.Contents() == [] then Empty else Taken(r.Contents()[0])
    ensures Popped(r).0.Contents() == if r.Contents() == [] then [] else r.Contents()[1..]
  {
    hide Wrap, Ring.Contents, Run, Last, Valid, Next;
    PopFirst(r);
    var entered := [Pop, ConsumerStep, ConsumerStep];
    ThreeMore(r, Pop, ConsumerStep);
    PopChecks(r);
    if r.Unread() > 0 {
      ThenThree(r, entered, ConsumerStep);
      PopTakes(Run(r, entered));
      assert PopSteps(r) == entered + [ConsumerStep, ConsumerStep, ConsumerStep];
    } else {
      assert PopSteps(r) == entered;
    }
  }

  /** The call, the reads of head and tail, and the comparison. */
  lemma PopChecks(r: Ring)
    requires r.InRange() && r.consumer.Away?
    ensures var r1 := Next(r, Pop).0;
      && r1.InRange() && Next(r1, ConsumerStep).0.InRange()
      && Next(Next(r1, ConsumerStep).0, ConsumerStep) ==
        if r.head == r.tail then (r, Empty) else (r.(consumer := Loading), Silent)
  {
  }

  /** The load and the advance of the tail. */
  lemma PopTakes(r: Ring)
    requires r.InRange() && r.consumer == Loading
    ensures var r1 := Next(r, ConsumerStep).0;
      && r1.InRange() && Next(r1, ConsumerStep).0.InRange()
      && Next(Next(r1, ConsumerStep).0, ConsumerStep) == (r.(tail := Wrap(r.tail + 1), consumer := Away), Taken(r.buf[r.tail]))
  {
    hide Wrap;
  }

  lemma PopFirst(r: Ring)
    requires Valid(r)
    ensures r.head == r.tail <==> r.Unread() == 0
    ensures r.Unread() > 0 ==> r.Contents() == [r.buf[r.tail]] + Popped(r).0.Contents()
  {
    hide Wrap, Ring.Contents;
    if r.Unread() > 0 { TailMoves(r); }
  }

  lemma WrapIs(i: nat)
    requires i < 2 * SIZE
    ensures Wrap(i) == i % SIZE
  {
  }

  // ------------------------------------------------------------------- in place

  /** The two procedures as the driver has them, each running undisturbed. */
  class Buffer {
    const kbBuf: array<char>
    var kbHead: nat
    var kbTail: nat

    ghost predicate InBounds()
      reads this
    {
      kbBuf.Length == SIZE && kbHead < SIZE && kbTail < SIZE
    }

    /** The ring, with both sides idle. */
    ghost function View(): (r: Ring)
      reads this, kbBuf
      ensures InBounds() ==> Valid(r)
    {
      Ring(kbBuf[..], kbHead, kbTail, Resting, Away)
    }

    constructor ()
      ensures InBounds() && fresh(kbBuf) && Initial(View())
    {
      kbBuf, kbHead, kbTail := new char[SIZE], 0, 0;
    }

    method KeyboardBufferPush(c: char)
      requires InBounds()
      modifies this`kbHead, kbBuf
      ensures InBounds() && View() == Run(old(View()), PushSteps(old(View()), c))
      ensures View().Contents() == var q := old(View().Contents()); if |q| < 127 then q + [c] else q
    {
      hide Run, Last, Next, PushSteps, Valid, Ring.Contents, Ring.Unread, Wrap;
      PushAlone(View(), c);
      WrapIs(kbHead + 1);
      var next := (kbHead + 1) % SIZE;
      if next != kbTail {
        kbBuf[kbHead] := c;
        kbHead := next;
      }
    }

    /** Returns whether there was a character, and which. */
    method KeyboardBufferPop() returns (ok: bool, c: char)
      requires InBounds()
      modifies this`kbTail
      ensures InBounds() && View() == Run(old(View()), PopSteps(old(View())))
      ensures ok <==> old(View().Contents()) != []
      ensures ok ==> old(View().Contents()) == [c] + View().Contents()
      ensures !ok ==> View() == old(View())
    {
      hide Run, Last, Next, PopSteps, Valid, Ring.Contents, Ring.Unread, Wrap;
      PopAlone(View());
      WrapIs(kbTail + 1);
      PopFirst(View());
      if kbHead == kbTail {
        return false, '\0';
      }
      c := kbBuf[kbTail];
      kbTail := (kbTail + 1) % SIZE;
      ok := true;
    }
  }
}
