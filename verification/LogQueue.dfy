/**
 The bounded log queue: many producers that never wait, one drainer, and the
 counters of what was dropped.
 */
module LogQueue {
  import opened Bytes

  datatype Record = Record(level: int, submitted: int, subsystem: CStr, message: CStr)

  const SUBSYSTEM_MAX := 63
  const MESSAGE_MAX := 1023

  function Clip(s: CStr, n: nat): CStr {
    if |s| <= n then s else s[..n]
  }

  function Stored(level: int, submitted: int, subsystem: CStr, message: CStr): Record {
    Record(level, submitted, Clip(subsystem, SUBSYSTEM_MAX), Clip(message, MESSAGE_MAX))
  }

  // ----- The ring -----

  datatype Ring = Ring(capacity: nat, head: nat, tail: nat, length: nat, records: seq<Record>)

  predicate RingOk(r: Ring) {
    && r.capacity > 0 && |r.records| == r.capacity && r.head < r.capacity && r.length <= r.capacity
    && r.tail == (r.head + r.length) % r.capacity
  }

  /** The queued records, oldest first. */
  function Contents(r: Ring): (c: seq<Record>)
    requires RingOk(r)
    ensures |c| == r.length
  {
    seq(r.length, i requires 0 <= i < r.length => r.records[Wrap(r.head + i, r.capacity)])
  }

  function Wrap(i: nat, capacity: nat): (w: nat)
    requires capacity > 0
    ensures w < capacity
    ensures i < capacity ==> w == i
    ensures capacity <= i < 2 * capacity ==> w == i - capacity
  {
    WrapLaw(i, capacity);
    i % capacity
  }

  lemma WrapLaw(i: nat, capacity: nat)
    requires capacity > 0
    ensures i < capacity ==> i % capacity == i
    ensures capacity <= i < 2 * capacity ==> i % capacity == i - capacity
  {
    if i < capacity {
      SmallMod(i, capacity);
    } else if i < 2 * capacity {
      SmallMod(i - capacity, capacity);
      assert i == (i - capacity) + 1 * capacity;
    }
  }

  function Append(r: Ring, x: Record): Ring
    requires RingOk(r)
  {
    r.(records := r.records[r.tail := x], tail := (r.tail + 1) % r.capacity, length := r.length + 1)
  }

  function Pop(r: Ring): Ring
    requires RingOk(r) && r.length > 0
  {
    r.(head := (r.head + 1) % r.capacity, length := r.length - 1)
  }

  /** Slots less than a whole ring apart differ. */
  lemma WrapDistinct(head: nat, i: nat, j: nat, capacity: nat)
    requires head < capacity && i < j < capacity
    ensures Wrap(head + i, capacity) != Wrap(head + j, capacity)
  {
  }

  /** Counting on from a wrapped index is counting on from the index itself. */
  lemma WrapAdds(head: nat, i: nat, j: nat, capacity: nat)
    requires head < capacity && i + j <= capacity
    ensures Wrap(Wrap(head + i, capacity) + j, capacity) == Wrap(head + i + j, capacity)
  {
  }

  lemma AppendContents(r: Ring, x: Record)
    requires RingOk(r) && r.length < r.capacity
    ensures RingOk(Append(r, x)) && Contents(Append(r, x)) == Contents(r) + [x]
  {
    var a := Append(r, x);
    assert r.tail == Wrap(r.head + r.length, r.capacity);
    assert a.tail == Wrap(r.tail + 1, r.capacity);
    WrapAdds(r.head, r.length, 1, r.capacity);
    assert a.tail == (a.head + a.length) % a.capacity;
    forall i | 0 <= i < a.length ensures Contents(a)[i] == (Contents(r) + [x])[i] {
      if i < r.length {
        WrapDistinct(r.head, i, r.length, r.capacity);
      }
    }
  }

  lemma PopContents(r: Ring)
    requires RingOk(r) && r.length > 0
    ensures RingOk(Pop(r)) && Contents(r) == [r.records[r.head]] + Contents(Pop(r))
  {
    var p := Pop(r);
    assert p.head == Wrap(r.head + 1, r.capacity);
    assert r.tail == Wrap(r.head + r.length, r.capacity);
    WrapAdds(r.head, 1, p.length, r.capacity);
    assert p.tail == (p.head + p.length) % p.capacity;
    forall i | 0 <= i < r.length ensures Contents(r)[i] == if i == 0 then r.records[r.head] else Contents(p)[i - 1] {
      PoppedAt(r, i);
    }
  }

  lemma PoppedAt(r: Ring, i: nat)
    requires RingOk(r) && i < r.length && RingOk(Pop(r))
    ensures Contents(r)[i] == if i == 0 then r.records[r.head] else Contents(Pop(r))[i - 1]
  {
    hide RingOk, Contents;
    RingBounds(r);
    ContentsAt(r, i);
    if i > 0 {
      var p := Pop(r);
      ContentsAt(p, i - 1);
      assert p.head == Wrap(r.head + 1, r.capacity);
      WrapAdds(r.head, 1, i - 1, r.capacity);
      assert r.head + 1 + (i - 1) == r.head + i;
    } else {
      assert Wrap(r.head + i, r.capacity) == r.head;
    }
  }

  lemma ContentsAt(r: Ring, i: nat)
    requires RingOk(r) && i < r.length
    ensures Contents(r)[i] == r.records[Wrap(r.head + i, r.capacity)]
  {
  }

  lemma RingBounds(r: Ring)
    requires RingOk(r)
    ensures |r.records| == r.capacity && r.head < r.capacity && r.length <= r.capacity
  {
  }

  // ----- The operations on their own -----

  /** `locked` is whether another thread holds the lock when an operation tries it. */
  class Queue {
    const records: array<Record>
    var head: nat
    var tail: nat
    var length: nat
    var dropped: nat
    var contention: nat
    var full: nat
    /** What Log() was called with, in order. */
    var logged: seq<Record>

    ghost function AsRing(): Ring
      reads this, records
    {
      Ring(records.Length, head, tail, length, records[..])
    }

    constructor (capacity: nat)
      requires capacity > 0
      ensures fresh(records) && RingOk(AsRing()) && records.Length == capacity && Contents(AsRing()) == []
      ensures dropped == contention == full == 0 && logged == []
    {
      records := new Record[capacity](_ => Record(0, 0, [], []));
      head, tail, length := 0, 0, 0;
      dropped, contention, full := 0, 0, 0;
      logged := [];
    }

    method Push(level: int, submitted: int, subsystem: CStr, message: CStr, locked: bool) returns (ok: bool)
      requires RingOk(AsRing())
      modifies this, records
      ensures RingOk(AsRing()) && logged == old(logged)
      ensures ok <==> !locked && old(length) < records.Length
      ensures Contents(AsRing()) == old(Contents(AsRing())) + if ok then [Stored(level, submitted, subsystem, message)] else []
      // The stored record holds what was pushed, the texts cut to 63 and 1023 bytes.
      ensures ok ==> var x := Contents(AsRing())[old(length)];
                     && x.level == level && x.submitted == submitted
                     && x.subsystem <= subsystem && |x.subsystem| == (if |subsystem| < 64 then |subsystem| else 63)
                     && x.message <= message && |x.message| == (if |message| < 1024 then |message| else 1023)
      ensures dropped == old(dropped) + if ok then 0 else 1
      ensures contention == old(contention) + if locked then 1 else 0
      ensures full == old(full) + if ok || locked then 0 else 1
    {
      if locked {
        contention := contention + 1;
        dropped := dropped + 1;
        return false;
      }
      if length == records.Length {
        full := full + 1;
        dropped := dropped + 1;
        return false;
      }
      ghost var r := AsRing();
      var x := Record(level, submitted, Clip(subsystem, SUBSYSTEM_MAX), Clip(message, MESSAGE_MAX));
      AppendContents(r, x);
      records[tail] := x;
      tail := (tail + 1) % records.Length;
      length := length + 1;
      assert AsRing() == Append(r, x);
      ok := true;
    }

    method Drain(max: nat) returns (n: nat)
      requires RingOk(AsRing())
      modifies this
      ensures RingOk(AsRing())
      ensures n == if max < old(length) then max else old(length)
      ensures logged == old(logged) + old(Contents(AsRing()))[..n]
      ensures Contents(AsRing()) == old(Contents(AsRing()))[n..]
      ensures dropped == old(dropped) && contention == old(contention) && full == old(full)
    {
      hide Contents, RingOk;
      n := 0;
      ghost var c := Contents(AsRing());
      while n < max
        invariant RingOk(AsRing()) && n <= max && n <= |c| && records[..] == old(records[..])
        invariant Contents(AsRing()) == c[n..] && logged == old(logged) + c[..n]
        invariant dropped == old(dropped) && contention == old(contention) && full == old(full)
      {
        if length == 0 {
          break;
        }
        ghost var r := AsRing();
        RingBounds(r);
        PopContents(r);
        var item := records[head];
        head := (head + 1) % records.Length;
        length := length - 1;
        assert AsRing() == Pop(r);
        logged := logged + [item];
        TakenNext(c, n);
        n := n + 1;
      }
    }
  }

  lemma TakenNext(c: seq<Record>, n: nat)
    requires n < |c|
    ensures c[n..] == [c[n]] + c[n + 1..] && c[..n + 1] == c[..n] + [c[n]]
  {
  }

  // ----- Producers and the drainer, step by step -----

  /** Where a producer is inside one push. */
  datatype Producer =
    | Idle
    | Refused                   // the lock was taken
    | RefusedCounted            // contention counted, drop not yet
    | Holding(record: Record)
    | FullCounted               // full counted, drop not yet, lock held
    | Leaving                   // lock still held

  datatype Drainer =
    | Resting
    | Looking                   // lock held
    | Popped(item: Record)      // lock held
    | Delivering(item: Record)

  /** A reader takes the lock to ask for the depth. */
  datatype Owner = Nobody | ProducerOwns(i: nat) | DrainerOwns | ReaderOwns

  /** `accepted` and `delivered` record what happened; the program keeps no such history. */
  datatype System = System(
    ring: Ring, lock: Owner, producers: seq<Producer>, drainer: Drainer,
    dropped: nat, contention: nat, full: nat, accepted: seq<Record>, delivered: seq<Record>)

  datatype Step =
    | TryLock(i: nat, record: Record)
    | CountContention(i: nat)
    | CountRefused(i: nat)
    | CountFull(i: nat)
    | CountFullDrop(i: nat)
    | Write(i: nat)
    | Unlock(i: nat)
    | DrainLock
    | DrainEmpty
    | DrainPop
    | DrainUnlock
    | Deliver
    | DepthLock
    | DepthUnlock

  /** The steps that are possible in a state. */
  predicate Enabled(s: System, step: Step) {
    match step
    case TryLock(i, _) => i < |s.producers| && s.producers[i].Idle?
    case CountContention(i) => i < |s.producers| && s.producers[i].Refused?
    case CountRefused(i) => i < |s.producers| && s.producers[i].RefusedCounted?
    case CountFull(i) => i < |s.producers| && s.producers[i].Holding? && s.ring.length == s.ring.capacity
    case CountFullDrop(i) => i < |s.producers| && s.producers[i].FullCounted?
    case Write(i) => i < |s.producers| && s.producers[i].Holding? && s.ring.length != s.ring.capacity
    case Unlock(i) => i < |s.producers| && s.producers[i].Leaving?
    case DrainLock => s.drainer.Resting? && s.lock.Nobody?
    case DrainEmpty => s.drainer.Looking? && s.ring.length == 0
    case DrainPop => s.drainer.Looking? && s.ring.length != 0
    case DrainUnlock => s.drainer.Popped?
    case Deliver => s.drainer.Delivering?
    case DepthLock => s.lock.Nobody?
    case DepthUnlock => s.lock.ReaderOwns?
  }

  function At(s: System, i: nat, p: Producer): System
    requires i < |s.producers|
  {
    s.(producers := s.producers[i := p])
  }

  function Next(s: System, step: Step): System
    requires RingOk(s.ring) && Enabled(s, step)
  {
    match step
    case TryLock(i, record) => if s.lock.Nobody? then At(s, i, Holding(record)).(lock := ProducerOwns(i)) else At(s, i, Refused)
    case CountContention(i) => At(s, i, RefusedCounted).(contention := s.contention + 1)
    case CountRefused(i) => At(s, i, Idle).(dropped := s.dropped + 1)
    case CountFull(i) => At(s, i, FullCounted).(full := s.full + 1)
    case CountFullDrop(i) => At(s, i, Leaving).(dropped := s.dropped + 1)
    case Write(i) =>
      var x := s.producers[i].record;
      At(s, i, Leaving).(ring := Append(s.ring, x), accepted := s.accepted + [x])
    case Unlock(i) => At(s, i, Idle).(lock := Nobody)
    case DrainLock => s.(drainer := Looking, lock := DrainerOwns)
    case DrainEmpty => s.(drainer := Resting, lock := Nobody)
    case DrainPop => s.(drainer := Popped(s.ring.records[s.ring.head]), ring := Pop(s.ring))
    case DrainUnlock => s.(drainer := Delivering(s.drainer.item), lock := Nobody)
    case Deliver => s.(drainer := Resting, delivered := s.delivered + [s.drainer.item])
    case DepthLock => s.(lock := ReaderOwns)
    case DepthUnlock => s.(lock := Nobody)
  }

  predicate Start(s: System) {
    && RingOk(s.ring) && s.ring.length == 0 && s.lock == Nobody && s.drainer == Resting
    && (forall i :: 0 <= i < |s.producers| ==> s.producers[i] == Idle)
    && s.dropped == s.contention == s.full == 0 && s.accepted == s.delivered == []
  }

  // ----- What every step keeps -----

  predicate Holds(p: Producer) {
    p.Holding? || p.FullCounted? || p.Leaving?
  }

  /** Between its two counter updates. */
  predicate Halfway(p: Producer) {
    p.RefusedCounted? || p.FullCounted?
  }

  function HalfwayCount(ps: seq<Producer>): nat {
    if ps == [] then 0 else (if Halfway(ps[0]) then 1 else 0) + HalfwayCount(ps[1..])
  }

  function InFlight(d: Drainer): seq<Record> {
    if d.Popped? || d.Delivering? then [d.item] else []
  }

  /** The lock is held by exactly the thread that thinks it holds it. */
  predicate Locked(s: System) {
    && (forall i :: 0 <= i < |s.producers| ==> (Holds(s.producers[i]) <==> s.lock == ProducerOwns(i)))
    && (s.drainer.Looking? || s.drainer.Popped? <==> s.lock == DrainerOwns)
    && (s.lock.ProducerOwns? ==> s.lock.i < |s.producers|)
  }

  /** Nothing accepted is lost, doubled or reordered. */
  predicate Conserved(s: System)
    requires RingOk(s.ring)
  {
    s.delivered + InFlight(s.drainer) + Contents(s.ring) == s.accepted
  }

  predicate Counted(s: System) {
    s.contention + s.full == s.dropped + HalfwayCount(s.producers)
  }

  predicate Inv(s: System) {
    RingOk(s.ring) && Locked(s) && Conserved(s) && Counted(s)
  }

  lemma {:induction false} HalfwayChange(ps: seq<Producer>, i: nat, p: Producer)
    requires i < |ps|
    ensures HalfwayCount(ps[i := p]) + (if Halfway(ps[i]) then 1 else 0) == HalfwayCount(ps) + if Halfway(p) then 1 else 0
  {
    if i == 0 {
      assert ps[0 := p][1..] == ps[1..];
    } else {
      HalfwayChange(ps[1..], i - 1, p);
      assert ps[i := p][1..] == ps[1..][i - 1 := p];
    }
  }

  lemma {:induction false} NobodyHalfway(ps: seq<Producer>)
    ensures HalfwayCount(ps) == 0 <==> forall i :: 0 <= i < |ps| ==> !Halfway(ps[i])
  {
    if ps != [] {
      NobodyHalfway(ps[1..]);
      assert ps == [ps[0]] + ps[1..];
    }
  }

  lemma StartInv(s: System)
    requires Start(s)
    ensures Inv(s)
  {
    NobodyHalfway(s.producers);
  }

  lemma StepKeepsCounted(s: System, step: Step)
    requires RingOk(s.ring) && Enabled(s, step) && Counted(s)
    ensures Counted(Next(s, step))
  {
    match step
    case TryLock(i, record) => HalfwayChange(s.producers, i, Next(s, step).producers[i]);
    case CountContention(i) => HalfwayChange(s.producers, i, RefusedCounted);
    case CountRefused(i) => HalfwayChange(s.producers, i, Idle);
    case CountFull(i) => HalfwayChange(s.producers, i, FullCounted);
    case CountFullDrop(i) => HalfwayChange(s.producers, i, Leaving);
    case Write(i) => HalfwayChange(s.producers, i, Leaving);
    case Unlock(i) => HalfwayChange(s.producers, i, Idle);
    case _ =>
  }

  lemma StepKeepsLocked(s: System, step: Step)
    requires RingOk(s.ring) && Enabled(s, step) && Locked(s)
    ensures Locked(Next(s, step))
  {
  }

  lemma StepKeepsConserved(s: System, step: Step)
    requires RingOk(s.ring) && Enabled(s, step) && Conserved(s)
    ensures RingOk(Next(s, step).ring) && Conserved(Next(s, step))
  {
    match step
    case Write(i) => AppendContents(s.ring, s.producers[i].record);
    case DrainPop => PopContents(s.ring);
    case _ =>
  }

  lemma StepKeepsInv(s: System, step: Step)
    requires Inv(s) && Enabled(s, step)
    ensures Inv(Next(s, step))
  {
    hide Locked, Counted, Conserved, Next, Enabled;
    StepKeepsLocked(s, step);
    StepKeepsCounted(s, step);
    StepKeepsConserved(s, step);
  }

  // ----- Runs -----

  /** `s` is reached from `start` by these steps, in any interleaving. */
  predicate Reaches(start: System, steps: seq<Step>, s: System)
    decreases |steps|
  {
    if steps == [] then s == start
    else RingOk(start.ring) && Enabled(start, steps[0]) && Reaches(Next(start, steps[0]), steps[1..], s)
  }

  lemma {:induction false} RunKeepsInv(start: System, steps: seq<Step>, s: System)
    requires Inv(start) && Reaches(start, steps, s)
    ensures Inv(s)
    decreases |steps|
  {
    hide Inv, Next, Enabled;
    if steps != [] {
      StepKeepsInv(start, steps[0]);
      RunKeepsInv(Next(start, steps[0]), steps[1..], s);
    }
  }

  /** In every interleaving: order and contents, ring shape, mutual exclusion and the counters. */
  lemma EveryRun(start: System, steps: seq<Step>, s: System)
    requires Start(start) && Reaches(start, steps, s)
    ensures RingOk(s.ring)
    ensures s.delivered + InFlight(s.drainer) + Contents(s.ring) == s.accepted
    ensures s.contention + s.full - s.dropped == HalfwayCount(s.producers)
    ensures forall i, j :: 0 <= i < j < |s.producers| ==> !(Holds(s.producers[i]) && Holds(s.producers[j]))
    ensures s.drainer.Looking? || s.drainer.Popped? ==> forall i :: 0 <= i < |s.producers| ==> !Holds(s.producers[i])
  {
    StartInv(start);
    RunKeepsInv(start, steps, s);
  }

  /** At rest the drop counters add up, and what was not delivered is still queued. */
  lemma AtRest(start: System, steps: seq<Step>, s: System)
    requires Start(start) && Reaches(start, steps, s)
    requires s.drainer.Resting? && forall i :: 0 <= i < |s.producers| ==> s.producers[i].Idle?
    ensures s.dropped == s.contention + s.full
    ensures RingOk(s.ring) && s.delivered + Contents(s.ring) == s.accepted
    ensures s.lock == Nobody || s.lock == ReaderOwns
  {
    EveryRun(start, steps, s);
    NobodyHalfway(s.producers);
    StartInv(start);
    RunKeepsInv(start, steps, s);
  }

  // ----- Nobody is ever stuck -----

  datatype Actor = TheProducer(i: nat) | TheDrainer | TheReader

  function ActorOf(step: Step): Actor {
    match step
    case TryLock(i, _) => TheProducer(i)
    case CountContention(i) => TheProducer(i)
    case CountRefused(i) => TheProducer(i)
    case CountFull(i) => TheProducer(i)
    case CountFullDrop(i) => TheProducer(i)
    case Write(i) => TheProducer(i)
    case Unlock(i) => TheProducer(i)
    case DrainLock => TheDrainer
    case DrainEmpty => TheDrainer
    case DrainPop => TheDrainer
    case DrainUnlock => TheDrainer
    case Deliver => TheDrainer
    case DepthLock => TheReader
    case DepthUnlock => TheReader
  }

  /** The one step that a producer under way takes next. */
  function ProducerStep(s: System, i: nat): Step
    requires i < |s.producers| && !s.producers[i].Idle?
  {
    match s.producers[i]
    case Refused => CountContention(i)
    case RefusedCounted => CountRefused(i)
    case Holding(_) => if s.ring.length == s.ring.capacity then CountFull(i) else Write(i)
    case FullCounted => CountFullDrop(i)
    case Leaving => Unlock(i)
  }

  /**
   Producers never wait: in every state a producer under way has exactly one step,
   and it is possible, whoever holds the lock; one at rest can always try the lock.
   The drainer waits for the lock and for nothing else.
   */
  lemma NobodyIsStuck(s: System)
    ensures forall i :: 0 <= i < |s.producers| && !s.producers[i].Idle? ==>
              && Enabled(s, ProducerStep(s, i)) && ActorOf(ProducerStep(s, i)) == TheProducer(i)
              && forall step :: Enabled(s, step) && ActorOf(step) == TheProducer(i) ==> step == ProducerStep(s, i)
    ensures forall i, record :: 0 <= i < |s.producers| && s.producers[i].Idle? ==> Enabled(s, TryLock(i, record))
    ensures !s.drainer.Resting? ==> exists step :: ActorOf(step) == TheDrainer && Enabled(s, step)
    ensures s.drainer.Resting? ==> (Enabled(s, DrainLock) <==> s.lock == Nobody)
    ensures forall a, b :: Enabled(s, a) && Enabled(s, b) && ActorOf(a) == ActorOf(b) == TheDrainer ==> a == b
  {
    if s.drainer.Looking? {
      assert Enabled(s, if s.ring.length == 0 then DrainEmpty else DrainPop);
    } else if !s.drainer.Resting? {
      assert Enabled(s, if s.drainer.Popped? then DrainUnlock else Deliver);
    }
  }
}
