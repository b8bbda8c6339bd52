/**
 The UART receive ring: an interrupt handler that fills it and a consumer that
 the handler may preempt between any two of its memory accesses.
 */
module RxRing {
  import opened Bits

  const SIZE: nat := 128

  function Succ(i: nat): (r: nat)
    ensures r < SIZE
  {
    (i + 1) % SIZE
  }

  /** The i-th slot from the tail. */
  function Slot(tail: nat, i: nat): (r: nat)
    ensures r < SIZE
  {
    (tail + i) % SIZE
  }

  /** The n bytes from the tail on. */
  function Queue(ring: seq<u8>, tail: nat, n: nat): (q: seq<u8>)
    requires |ring| == SIZE
    ensures |q| == n
  {
    seq(n, i requires 0 <= i => ring[Slot(tail, i)])
  }

  lemma SlotsDistinct(tail: nat, i: nat, j: nat)
    requires i < j < SIZE
    ensures Slot(tail, i) != Slot(tail, j)
  {
  }

  /** Writing the slot after the last queued byte appends to the queue. */
  lemma QueuePush(ring: seq<u8>, tail: nat, n: nat, c: u8)
    requires |ring| == SIZE && tail < SIZE && n < SIZE - 1
    ensures Queue(ring[Slot(tail, n) := c], tail, n + 1) == Queue(ring, tail, n) + [c]
    ensures Succ(Slot(tail, n)) == Slot(tail, n + 1)
  {
    forall i | 0 <= i < n
      ensures Slot(tail, i) != Slot(tail, n)
    {
      SlotsDistinct(tail, i, n);
    }
  }

  lemma QueuePop(ring: seq<u8>, tail: nat, n: nat)
    requires |ring| == SIZE && tail < SIZE && 0 < n < SIZE
    ensures Queue(ring, tail, n)[0] == ring[tail]
    ensures Queue(ring, Succ(tail), n - 1) == Queue(ring, tail, n)[1..]
    ensures Slot(Succ(tail), n - 1) == Slot(tail, n)
  {
    assert forall i :: 0 <= i < n ==> Slot(Succ(tail), i) == Slot(tail, i + 1);
    hide Slot, Succ;
    var q, q' := Queue(ring, tail, n), Queue(ring, Succ(tail), n - 1);
    assert forall i :: 0 <= i < n - 1 ==> q'[i] == q[1..][i];
  }

  /** The ends of the queue meet when it is empty, and are one slot apart when it is full. */
  lemma Ends(tail: nat, n: nat)
    requires tail < SIZE && n < SIZE
    ensures Slot(tail, n) == tail <==> n == 0
    ensures Succ(Slot(tail, n)) == tail <==> n == SIZE - 1
  {
  }

  // ---------- the consumer, one memory access at a time ----------

  /**
   Where extint_uart_pop stands. C leaves the order of the two loads of the
   emptiness test open, so both orders are steps. HeadSeen also remembers, for
   the statements only, how many bytes had been accepted when the head was read.
   */
  datatype Pc =
    | Idle
    | HeadSeen(h: nat, acceptedThen: nat)
    | TailSeen(t: nat)
    | NotEmpty
    | Indexed(t: nat)
    | ByteRead(c: u8)
    | Advancing(c: u8, t: nat)

  datatype Return = Nothing(acceptedThen: nat) | Byte(c: u8)

  datatype State = State(ring: seq<u8>, head: nat, tail: nat, pc: Pc,
                         accepted: seq<u8>, popped: seq<u8>, dropped: nat, results: seq<Return>)

  /** A turn of the handler's loop with a received byte, or the consumer's next access. */
  datatype Event = Receive(c: u8) | Consume(headFirst: bool)

  ghost predicate Shape(s: State) {
    |s.ring| == SIZE && s.head < SIZE && s.tail < SIZE
  }

  function Received(s: State, c: u8): State
    requires Shape(s)
  {
    if Succ(s.head) != s.tail
    then s.(ring := s.ring[s.head := c], head := Succ(s.head), accepted := s.accepted + [c])
    else s.(dropped := s.dropped + 1)
  }

  /** The emptiness test, once both ends have been loaded. */
  function Tested(s: State, h: nat, t: nat, acceptedThen: nat): State {
    if h == t then s.(pc := Idle, results := s.results + [Nothing(acceptedThen)]) else s.(pc := NotEmpty)
  }

  function Consumed(s: State, headFirst: bool): State
    requires Shape(s) && PcShape(s)
  {
    match s.pc
    case Idle => s.(pc := if headFirst then HeadSeen(s.head, |s.accepted|) else TailSeen(s.tail))
    case HeadSeen(h, n) => Tested(s, h, s.tail, n)
    case TailSeen(t) => Tested(s, s.head, t, |s.accepted|)
    case NotEmpty => s.(pc := Indexed(s.tail))
    case Indexed(t) => s.(pc := ByteRead(s.ring[t]))
    case ByteRead(c) => s.(pc := Advancing(c, s.tail))
    case Advancing(c, t) =>
      s.(tail := Succ(t), pc := Idle, popped := s.popped + [c], results := s.results + [Byte(c)])
  }

  ghost predicate PcShape(s: State) {
    s.pc.Indexed? ==> s.pc.t < SIZE
  }

  function Outstanding(s: State): int {
    |s.accepted| - |s.popped|
  }

  /** What every interleaving keeps. */
  ghost predicate Inv(s: State) {
    && Shape(s) && PcShape(s)
    && s.popped <= s.accepted
    && Outstanding(s) < SIZE
    && s.head == Slot(s.tail, Outstanding(s))
    && Queue(s.ring, s.tail, Outstanding(s)) == s.accepted[|s.popped|..]
    && PcInv(s)
  }

  ghost predicate PcInv(s: State) {
    match s.pc
    case Idle => true
    case HeadSeen(h, n) => |s.popped| <= n <= |s.accepted| && (h == s.tail <==> n == |s.popped|)
    case TailSeen(t) => t == s.tail
    case NotEmpty => Outstanding(s) > 0
    case Indexed(t) => Outstanding(s) > 0 && t == s.tail
    case ByteRead(c) => Outstanding(s) > 0 && c == s.accepted[|s.popped|]
    case Advancing(c, t) => Outstanding(s) > 0 && c == s.accepted[|s.popped|] && t == s.tail
  }

  function Next(s: State, e: Event): State
    requires Inv(s)
  {
    match e
    case Receive(c) => Received(s, c)
    case Consume(headFirst) => Consumed(s, headFirst)
  }

  /** The ring is full exactly when 127 bytes are outstanding. */
  lemma FullExactly(s: State)
    requires Inv(s)
    ensures Succ(s.head) == s.tail <==> Outstanding(s) == SIZE - 1
  {
    Ends(s.tail, Outstanding(s));
  }

  lemma ReceiveKeepsInv(s: State, c: u8)
    requires Inv(s)
    ensures Inv(Received(s, c))
  {
    hide Slot, Queue, Succ;
    FullExactly(s);
    if Succ(s.head) != s.tail {
      var s' := Received(s, c);
      QueuePush(s.ring, s.tail, Outstanding(s), c);
      assert s'.accepted[|s.popped|..] == s.accepted[|s.popped|..] + [c];
      assert s.accepted == s'.accepted[..|s.accepted|];
    }
  }

  lemma ConsumeKeepsInv(s: State, headFirst: bool)
    requires Inv(s)
    ensures Inv(Consumed(s, headFirst))
  {
    hide Slot, Queue, Succ;
    Ends(s.tail, Outstanding(s));
    if Outstanding(s) > 0 {
      QueuePop(s.ring, s.tail, Outstanding(s));
      assert s.accepted[|s.popped|..][0] == s.accepted[|s.popped|];
      assert s.accepted[|s.popped|..][1..] == s.accepted[|s.popped| + 1..];
      assert s.pc.Advancing? ==> Consumed(s, headFirst).popped == s.accepted[..|s.popped| + 1];
    }
  }

  // ---------- whole runs ----------

  /** The zeroed statics before any interrupt. */
  function Start(): (s: State)
    ensures Inv(s)
  {
    State(seq(SIZE, _ => 0), 0, 0, Idle, [], [], 0, [])
  }

  /** The state after a run of events, whatever their interleaving. */
  function After(s: State, run: seq<Event>): (s': State)
    requires Inv(s)
    ensures Inv(s')
  {
    if run == [] then s
    else
      var last := |run| - 1;
      var before := After(s, run[..last]);
      StepKeepsInv(before, run[last]);
      Next(before, run[last])
  }

  lemma StepKeepsInv(s: State, e: Event)
    requires Inv(s)
    ensures Inv(Next(s, e))
  {
    match e
    case Receive(c) => ReceiveKeepsInv(s, c);
    case Consume(headFirst) => ConsumeKeepsInv(s, headFirst);
  }

  /** Along any run from an empty ring the bytes popped are a prefix of the bytes accepted. */
  lemma PoppedIsPrefix(run: seq<Event>)
    ensures var r := After(Start(), run); r.popped <= r.accepted && |r.accepted| - |r.popped| <= 127
  {
    hide Start, After;
    assert Inv(After(Start(), run));
  }

  function Bytes(rs: seq<Return>): seq<u8> {
    if rs == [] then []
    else
      var last := rs[|rs| - 1];
      if last.Byte? then Bytes(rs[..|rs| - 1]) + [last.c] else Bytes(rs[..|rs| - 1])
  }

  function ReceivedBytes(run: seq<Event>): nat {
    if run == [] then 0
    else ReceivedBytes(run[..|run| - 1]) + if run[|run| - 1].Receive? then 1 else 0
  }

  /** What the calls returned is what was popped, and every received byte was either accepted or dropped. */
  lemma {:induction false} Conservation(run: seq<Event>)
    ensures var r := After(Start(), run);
      Bytes(r.results) == r.popped && |r.accepted| + r.dropped == ReceivedBytes(run)
  {
    hide Inv, Succ;
    if run != [] {
      Conservation(run[..|run| - 1]);
      var before := After(Start(), run[..|run| - 1]);
      var r := After(Start(), run);
      if r.results != before.results {
        assert r.results[..|r.results| - 1] == before.results;
      }
    }
  }

  /** The handler drops a byte exactly when 127 are outstanding, and otherwise takes it at the end of the queue. */
  lemma DropsOnlyWhenFull(run: seq<Event>, c: u8)
    ensures var r := After(Start(), run);
      Next(r, Receive(c)).accepted == if Outstanding(r) == 127 then r.accepted else r.accepted + [c]
  {
    hide Start, After, Inv;
    FullExactly(After(Start(), run));
  }

  /** From the moment the emptiness test passed until the tail moves, no handler run touches the slot. */
  lemma {:induction false} SlotStable(s: State, bytes: seq<u8>)
    requires Inv(s) && (s.pc.NotEmpty? || s.pc.Indexed? || s.pc.ByteRead? || s.pc.Advancing?)
    ensures var r := After(s, seq(|bytes|, i requires 0 <= i < |bytes| => Receive(bytes[i])));
            r.tail == s.tail && r.ring[s.tail] == s.ring[s.tail] && r.pc == s.pc
  {
    hide Queue, Succ, Slot;
    var run := seq(|bytes|, i requires 0 <= i < |bytes| => Receive(bytes[i]));
    if bytes != [] {
      var last := |bytes| - 1;
      SlotStable(s, bytes[..last]);
      assert run[..last] == seq(last, i requires 0 <= i < |bytes[..last]| => Receive(bytes[..last][i]));
      var r := After(s, run[..last]);
      assert Inv(r) && Outstanding(r) > 0;
      Ends(r.tail, Outstanding(r));
    }
  }

  /** A pop reports nothing only when nothing was outstanding as it read the head. */
  lemma NothingMeansEmpty(run: seq<Event>, headFirst: bool)
    ensures var r := After(Start(), run); var r' := Next(r, Consume(headFirst));
      |r'.results| > |r.results| && r'.results[|r.results|].Nothing? ==>
        r'.results[|r.results|].acceptedThen == |r.popped|
  {
    hide Start, After, Queue, Slot, Succ;
    var r := After(Start(), run);
    Ends(r.tail, Outstanding(r));
  }

  // ---------- pops complete ----------

  function Consumes(run: seq<Event>): nat {
    if run == [] then 0
    else Consumes(run[..|run| - 1]) + if run[|run| - 1].Consume? then 1 else 0
  }

  /** n steps into a pop that started in s, with a byte waiting: where the consumer is, and what has not changed. */
  ghost predicate Popping(s: State, r: State, n: nat) {
    && s.accepted <= r.accepted && Inv(r)
    && (n < 6 ==> r.popped == s.popped && r.results == s.results && r.tail == s.tail)
    && match n
      case 0 => r.pc == Idle
      case 1 => r.pc.TailSeen? || (r.pc.HeadSeen? && r.pc.acceptedThen >= |s.accepted|)
      case 2 => r.pc == NotEmpty
      case 3 => r.pc.Indexed?
      case 4 => r.pc.ByteRead?
      case 5 => r.pc.Advancing?
      case _ =>
        var c := if |s.popped| < |s.accepted| then s.accepted[|s.popped|] else 0;
        r.pc == Idle && r.popped == s.popped + [c] && r.results == s.results + [Byte(c)] && r.tail == Succ(s.tail)
  }

  lemma {:induction false} PopProceeds(s: State, run: seq<Event>)
    requires Inv(s) && s.pc == Idle && Outstanding(s) > 0 && Consumes(run) <= 6
    ensures Popping(s, After(s, run), Consumes(run))
  {
    hide Queue, Slot, Succ;
    if run != [] {
      var before := run[..|run| - 1];
      PopProceeds(s, before);
      PopStep(s, After(s, before), Consumes(before), run[|run| - 1]);
    }
  }

  lemma PopStep(s: State, r: State, n: nat, e: Event)
    requires Outstanding(s) > 0 && s.popped <= s.accepted && Popping(s, r, n) && (e.Consume? ==> n < 6) && n <= 6
    ensures Popping(s, Next(r, e), n + if e.Consume? then 1 else 0)
  {
    hide Queue, Slot, Succ;
    StepKeepsInv(r, e);
    Ends(r.tail, Outstanding(r));
    if e.Receive? {
      var r' := Received(r, e.c);
      assert r.accepted == r'.accepted[..|r.accepted|];
      assert s.accepted == r'.accepted[..|s.accepted|];
    } else if n == 5 {
      assert s.accepted[|s.popped|] == r.accepted[|s.popped|];
    }
  }

  /**
   A pop started with a byte waiting completes in six steps of its own, however many bytes
   arrive in between: it returns the oldest byte and moves the tail past it.
   */
  lemma PopCompletes(s: State, run: seq<Event>)
    requires Inv(s) && s.pc == Idle && Outstanding(s) > 0 && Consumes(run) == 6
    ensures var r, c := After(s, run), s.accepted[|s.popped|];
      r.pc == Idle && r.popped == s.popped + [c] && r.results == s.results + [Byte(c)] && r.tail == Succ(s.tail)
  {
    hide After, Queue, Slot, Succ, Inv;
    PopProceeds(s, run);
    InvPrefix(s);
  }

  lemma InvPrefix(s: State)
    requires Inv(s) && Outstanding(s) > 0
    ensures |s.popped| < |s.accepted|
  {
  }

  /** A pop of an empty ring, undisturbed, takes two steps and reports nothing. */
  lemma EmptyPop(s: State, headFirst: bool, again: bool)
    requires Inv(s) && s.pc == Idle && Outstanding(s) == 0
    ensures After(s, [Consume(headFirst), Consume(again)]) == s.(results := s.results + [Nothing(|s.accepted|)])
  {
    hide Queue, Succ;
    var run := [Consume(headFirst), Consume(again)];
    Ends(s.tail, 0);
    assert run[..1] == [Consume(headFirst)] && run[..1][..0] == [];
    assert After(s, run[..1]) == Next(s, Consume(headFirst));
  }

  /** What an undisturbed call of extint_uart_pop does to the ring: its value and the new tail. */
  function PopOnce(ring: seq<u8>, head: nat, tail: nat): (int, nat)
    requires |ring| == SIZE && tail < SIZE
  {
    if head == tail then (-1, tail) else (ring[tail], Succ(tail))
  }

  /** The steps of the consumer add up to that call. */
  lemma StepsArePop(s: State, run: seq<Event>)
    requires Inv(s) && s.pc == Idle
    requires if Outstanding(s) > 0 then run == seq(6, _ => Consume(true)) else run == seq(2, _ => Consume(true))
    ensures var r, p := After(s, run), PopOnce(s.ring, s.head, s.tail);
      && r.tail == p.1
      && r.results == s.results + [if p.0 == -1 then Nothing(|s.accepted|) else Byte(p.0)]
      && (p.0 == -1 <==> Outstanding(s) == 0)
  {
    hide After, Queue, Slot, Succ, Consumes;
    Ends(s.tail, Outstanding(s));
    if Outstanding(s) > 0 {
      SixConsumes(run);
      PopCompletes(s, run);
      QueuePop(s.ring, s.tail, Outstanding(s));
      assert s.accepted[|s.popped|..][0] == s.accepted[|s.popped|];
    } else {
      EmptyPop(s, true, true);
      assert run == [Consume(true), Consume(true)];
    }
  }

  lemma SixConsumes(run: seq<Event>)
    requires run == seq(6, _ => Consume(true))
    ensures Consumes(run) == 6
  {
    AllConsume(run);
  }

  lemma {:induction false} AllConsume(run: seq<Event>)
    requires forall e :: e in run ==> e.Consume?
    ensures Consumes(run) == |run|
  {
    if run != [] {
      AllConsume(run[..|run| - 1]);
    }
  }

  // ---------- the code itself ----------

  class Ring {
    const ring: array<u8>
    var head: nat
    var tail: nat

    ghost predicate Valid()
      reads this
    {
      ring.Length == SIZE && head < SIZE && tail < SIZE
    }

    ghost function Count(): (n: nat)
      requires Valid()
      reads this
      ensures n < SIZE
    {
      (head - tail) % SIZE
    }

    /** The bytes waiting, oldest first. */
    ghost function Contents(): (s: seq<u8>)
      requires Valid()
      reads this, ring
      ensures |s| == Count()
    {
      Queue(ring[..], tail, Count())
    }

    constructor ()
      ensures Valid() && Contents() == [] && fresh(ring)
    {
      ring := new u8[SIZE](_ => 0);
      head, tail := 0, 0;
    }

    /** A turn of the handler's loop. */
    method Accept(c: u8)
      requires Valid()
      modifies this`head, ring
      ensures Valid()
      ensures Contents() == old(Contents()) + if |old(Contents())| < SIZE - 1 then [c] else []
    {
      hide Queue;
      HeadAt(head, tail);
      var next := Succ(head);
      if next != tail {
        QueuePush(ring[..], tail, Count(), c);
        ghost var n := Count();
        ring[head] := c;
        head := next;
        CountAt(tail, n + 1);
      }
    }

    /** uart_rx_handler draining the bytes the device holds: the first ones that fit are kept. */
    method Handle(rx: seq<u8>)
      requires Valid()
      modifies this`head, ring
      ensures Valid()
      ensures var room := 127 - |old(Contents())|;
              Contents() == old(Contents()) + if |rx| <= room then rx else rx[..room]
    {
      hide Queue, Count;
      var k := 0;
      while k < |rx|
        invariant 0 <= k <= |rx| && Valid()
        invariant var room := SIZE - 1 - |old(Contents())|;
                  Contents() == old(Contents()) + if k <= room then rx[..k] else rx[..room]
      {
        Accept(rx[k]);
        assert rx[..k + 1] == rx[..k] + [rx[k]];
        k := k + 1;
      }
      assert rx[..|rx|] == rx;
    }

    /** extint_uart_pop, undisturbed. */
    method Pop() returns (c: int)
      requires Valid()
      modifies this`tail
      ensures Valid()
      ensures old(Contents()) == [] ==> c == -1 && Contents() == []
      ensures old(Contents()) != [] ==> c == old(Contents())[0] && Contents() == old(Contents())[1..]
      ensures (c, tail) == PopOnce(ring[..], head, old(tail))
    {
      hide Queue;
      HeadAt(head, tail);
      if head == tail {
        return -1;
      }
      QueuePop(ring[..], tail, Count());
      c := ring[tail];
      ghost var n := Count();
      tail := Succ(tail);
      CountAt(tail, n - 1);
    }
  }

  lemma HeadAt(head: nat, tail: nat)
    requires head < SIZE && tail < SIZE
    ensures head == Slot(tail, (head - tail) % SIZE)
    ensures (head - tail) % SIZE == 0 <==> head == tail
    ensures Succ(head) == tail <==> (head - tail) % SIZE == SIZE - 1
  {
  }

  lemma CountAt(tail: nat, n: nat)
    requires tail < SIZE && n < SIZE
    ensures (Slot(tail, n) - tail) % SIZE == n
  {
  }
}
