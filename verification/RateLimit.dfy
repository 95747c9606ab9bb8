/**
 Log rate limiting: fixed windows per subsystem and severity, in a table of 256
 slots without allocation.
 */
module RateLimit {
  import opened Bytes

  const SLOTS := 256
  const NAME_MAX := 127
  const UINT_MAX := 0xFFFF_FFFF
  const LOG_AUDIT := 1
  const NANOS := 1_000_000_000

  datatype Window = Window(emitted: nat, suppressed: nat, start: int)

  datatype Slot = Unused | Used(name: CStr, level: int, window: Window)

  /** One message: whose it is, its filter's limit, and the instant in nanoseconds that the clock gives, if it works. */
  datatype Call = Call(name: CStr, level: int, count: nat, seconds: nat, time: Option<int>)

  datatype Outcome = Outcome(allow: bool, skipped: nat)

  /** Only the whole seconds of the clock are looked at. */
  function Reading(c: Call): int
    requires c.time.Some?
  {
    c.time.value / NANOS
  }

  /** Messages that are never limited. */
  predicate Exempt(c: Call) {
    c.count == 0 || c.level <= LOG_AUDIT || c.time.None?
  }

  predicate Matches(s: Slot, name: CStr, level: int) {
    s.Used? && s.level == level && s.name == name
  }

  function Find(slots: seq<Slot>, name: CStr, level: int): (i: nat)
    ensures i <= |slots|
    ensures i < |slots| ==> Matches(slots[i], name, level)
    ensures forall k :: 0 <= k < i ==> !Matches(slots[k], name, level)
  {
    if slots == [] || Matches(slots[0], name, level) then 0 else 1 + Find(slots[1..], name, level)
  }

  function FirstUnused(slots: seq<Slot>): (i: nat)
    ensures i <= |slots|
    ensures i < |slots| ==> slots[i].Unused?
    ensures forall k :: 0 <= k < i ==> slots[k].Used?
  {
    if slots == [] || slots[0].Unused? then 0 else 1 + FirstUnused(slots[1..])
  }

  function Truncated(name: CStr): CStr {
    if |name| <= NAME_MAX then name else name[..NAME_MAX]
  }

  /** A window that is over, or lies in the future, starts anew. */
  predicate Over(w: Window, t: int, seconds: nat) {
    t - w.start >= seconds || t < w.start
  }

  function Bump(suppressed: nat): nat {
    if suppressed < UINT_MAX then suppressed + 1 else suppressed
  }

  /** One message in its window. */
  function Count(w: Window, t: int, count: nat, seconds: nat): (Window, Outcome) {
    var over := Over(w, t, seconds);
    var skipped := if over then w.suppressed else 0;
    var now := if over then Window(0, 0, t) else w;
    if now.emitted >= count then (now.(suppressed := Bump(now.suppressed)), Outcome(false, skipped))
    else (now.(emitted := now.emitted + 1), Outcome(true, skipped))
  }

  /** What a message does to its window, which starts anew when it is over; the count of those withheld stays at its 32-bit limit. */
  lemma WindowCounts(w: Window, t: int, count: nat, seconds: nat)
    requires w.suppressed <= 0xFFFF_FFFF
    ensures var (n, o) := Count(w, t, count, seconds);
            var anew := t >= w.start + seconds || t < w.start;
            var emitted, suppressed := if anew then 0 else w.emitted, if anew then 0 else w.suppressed;
            && (o.allow <==> emitted < count) && o.skipped == (if anew then w.suppressed else 0)
            && n.emitted == emitted + (if o.allow then 1 else 0) && n.start == (if anew then t else w.start)
            && n.suppressed <= 0xFFFF_FFFF
            && (n.suppressed == suppressed + (if o.allow then 0 else 1) || n.suppressed == suppressed == 0xFFFF_FFFF)
  {
  }

  function Serve(slots: seq<Slot>, c: Call): (seq<Slot>, Outcome) {
    if Exempt(c) then (slots, Outcome(true, 0))
    else
      var i := Find(slots, c.name, c.level);
      var j := FirstUnused(slots);
      if i < |slots| then
        var (w, o) := Count(slots[i].window, Reading(c), c.count, c.seconds);
        (slots[i := slots[i].(window := w)], o)
      else if j < |slots| then
        var (w, o) := Count(Window(0, 0, Reading(c)), Reading(c), c.count, c.seconds);
        (slots[j := Used(Truncated(c.name), c.level, w)], o)
      else (slots, Outcome(true, 0))
  }

  class Limiter {
    const slots: array<Slot>

    constructor ()
      ensures fresh(slots) && slots.Length == 256 && forall i :: 0 <= i < 256 ==> slots[i].Unused?
    {
      slots := new Slot[SLOTS](_ => Unused);
    }

    method Allowed(c: Call) returns (allow: bool, skipped: nat)
      requires slots.Length == SLOTS
      modifies slots
      ensures (slots[..], Outcome(allow, skipped)) == Serve(old(slots[..]), c)
      // No limit, an audit message or no clock: nothing is looked at.
      ensures c.count == 0 || c.level <= 1 || c.time.None? ==> allow && skipped == 0 && slots[..] == old(slots[..])
    {
      skipped := 0;
      if c.count == 0 || c.level <= LOG_AUDIT || c.time.None? {
        return true, 0;
      }
      var t := c.time.value / NANOS;
      var i := Search(c.name, c.level);
      if i == SLOTS {
        i := SearchUnused();
        if i == SLOTS {
          return true, 0;
        }
        slots[i] := Used(Truncated(c.name), c.level, Window(0, 0, t));
      }
      var w := slots[i].window;
      if t - w.start >= c.seconds || t < w.start {
        skipped := w.suppressed;
        w := Window(0, 0, t);
      }
      if w.emitted >= c.count {
        if w.suppressed < UINT_MAX {
          w := w.(suppressed := w.suppressed + 1);
        }
        slots[i] := slots[i].(window := w);
        assert slots[..] == old(slots[..])[i := slots[i]];
        return false, skipped;
      }
      w := w.(emitted := w.emitted + 1);
      slots[i] := slots[i].(window := w);
      assert slots[..] == old(slots[..])[i := slots[i]];
      allow := true;
    }

    method Search(name: CStr, level: int) returns (i: nat)
      requires slots.Length == SLOTS
      ensures i == Find(slots[..], name, level)
    {
      i := 0;
      while i < SLOTS && !Matches(slots[i], name, level)
        invariant i <= SLOTS && Find(slots[..], name, level) == i + Find(slots[i..], name, level)
      {
        assert slots[i..][1..] == slots[i + 1..];
        i := i + 1;
      }
    }

    method SearchUnused() returns (i: nat)
      requires slots.Length == SLOTS
      ensures i == FirstUnused(slots[..])
    {
      i := 0;
      while i < SLOTS && slots[i].Used?
        invariant i <= SLOTS && FirstUnused(slots[..]) == i + FirstUnused(slots[i..])
      {
        assert slots[i..][1..] == slots[i + 1..];
        i := i + 1;
      }
    }
  }

  // ----- One key on its own -----

  datatype Key = Key(name: CStr, level: int)

  function KeyCount(w: Option<Window>, t: int, count: nat, seconds: nat): (Window, Outcome) {
    Count(if w.Some? then w.value else Window(0, 0, t), t, count, seconds)
  }

  /** The outcomes for a key's messages at these times, and its window afterwards. */
  function KeyRun(w: Option<Window>, times: seq<int>, count: nat, seconds: nat): (r: (seq<Outcome>, Option<Window>))
    ensures |r.0| == |times|
    decreases |times|
  {
    if times == [] then ([], w)
    else
      var (v, o) := KeyCount(w, times[0], count, seconds);
      var (os, end) := KeyRun(Some(v), times[1..], count, seconds);
      ([o] + os, end)
  }

  /** Messages let through at times from `a` up to but not including `b`. */
  function Admitted(times: seq<int>, os: seq<Outcome>, a: int, b: int): nat
    requires |os| == |times|
  {
    if times == [] then 0
    else (if os[0].allow && a <= times[0] < b then 1 else 0) + Admitted(times[1..], os[1..], a, b)
  }

  function Allowed(os: seq<Outcome>): nat {
    if os == [] then 0 else (if os[0].allow then 1 else 0) + Allowed(os[1..])
  }

  function Reported(os: seq<Outcome>): nat {
    if os == [] then 0 else os[0].skipped + Reported(os[1..])
  }

  function Pending(w: Option<Window>): nat {
    if w.Some? then w.value.suppressed else 0
  }

  /** A clock that does not go back, and a window that started in its past with a message let through. */
  ghost predicate Orderly(w: Option<Window>, times: seq<int>) {
    && (forall i, j :: 0 <= i < j < |times| ==> times[i] <= times[j])
    && (w.Some? ==> w.value.emitted >= 1 && forall i :: 0 <= i < |times| ==> w.value.start <= times[i])
  }

  function Left(count: nat, emitted: nat): nat {
    if emitted < count then count - emitted else 0
  }

  // ----- As the readings have it: intervals that begin with a whole second -----

  /** The most that `seconds` consecutive readings can let through: windows of a second or less cannot straddle them. */
  function ReadingPeak(count: nat, seconds: nat): nat {
    if count == 0 || seconds <= 1 then count else 2 * count - 1
  }

  /** What a state can still let through in the `seconds` readings from `a` on. */
  function Budget(w: Option<Window>, a: int, count: nat, seconds: nat): nat {
    if w.None? || w.value.start + seconds <= a then ReadingPeak(count, seconds)
    else if w.value.start < a then Left(count, w.value.emitted) + count
    else if w.value.start < a + seconds then Left(count, w.value.emitted)
    else 0
  }

  lemma {:induction false} WithinBudget(w: Option<Window>, times: seq<int>, count: nat, seconds: nat, a: int)
    requires count > 0 && Orderly(w, times)
    ensures Admitted(times, KeyRun(w, times, count, seconds).0, a, a + seconds) <= Budget(w, a, count, seconds)
    decreases |times|
  {
    if times != [] {
      var (v, o) := KeyCount(w, times[0], count, seconds);
      WithinBudget(Some(v), times[1..], count, seconds, a);
    }
  }

  /** In as many consecutive readings as the window is long, at most the peak gets through. */
  lemma ReadingBound(w: Option<Window>, times: seq<int>, count: nat, seconds: nat, a: int)
    requires count > 0 && Orderly(w, times)
    ensures Admitted(times, KeyRun(w, times, count, seconds).0, a, a + seconds) <= ReadingPeak(count, seconds)
  {
    WithinBudget(w, times, count, seconds, a);
  }

  function Repeat(t: int, n: nat): (s: seq<int>)
    ensures |s| == n && forall i :: 0 <= i < n ==> s[i] == t
  {
    if n == 0 then [] else [t] + Repeat(t, n - 1)
  }

  /** While the window has room, messages at one time are all let through. */
  lemma {:induction false} RoomAdmits(w: Window, t: int, n: nat, rest: seq<int>, count: nat, seconds: nat, a: int, b: int)
    requires !Over(w, t, seconds) && w.emitted + n <= count && a <= t < b
    ensures var after := w.(emitted := w.emitted + n);
            Admitted(Repeat(t, n) + rest, KeyRun(Some(w), Repeat(t, n) + rest, count, seconds).0, a, b)
            == n + Admitted(rest, KeyRun(Some(after), rest, count, seconds).0, a, b)
    decreases n
  {
    var all := Repeat(t, n) + rest;
    if n == 0 {
      assert all == rest && w.(emitted := w.emitted) == w;
    } else {
      RoomAdmits(w.(emitted := w.emitted + 1), t, n - 1, rest, count, seconds, a, b);
      assert all[0] == t && all[1..] == Repeat(t, n - 1) + rest;
    }
  }

  /** One message, the rest of the limit at the end of its window, and the limit again right after. */
  function Burst(count: nat, seconds: nat): seq<int>
    requires count > 0
  {
    [0] + (Repeat(seconds - 1, count - 1) + Repeat(seconds, count))
  }

  /** That peak is attained: by a burst over two windows, or by one full window of a second. */
  lemma ReadingPeakIsAttained(count: nat, seconds: nat) returns (times: seq<int>, a: int)
    requires count > 0 && seconds > 0
    ensures Orderly(None, times)
    ensures Admitted(times, KeyRun(None, times, count, seconds).0, a, a + seconds) == ReadingPeak(count, seconds)
  {
    if seconds == 1 {
      times, a := Repeat(0, count), 0;
      assert times[0] == 0 && times[1..] == Repeat(0, count - 1) + [];
      RoomAdmits(Window(1, 0, 0), 0, count - 1, [], count, 1, 0, 1);
    } else {
      times, a := Burst(count, seconds), 1;
      BurstAdmits(count, seconds);
    }
  }

  lemma BurstAdmits(count: nat, seconds: nat)
    requires count > 0 && seconds >= 2
    ensures Orderly(None, Burst(count, seconds))
    ensures Admitted(Burst(count, seconds), KeyRun(None, Burst(count, seconds), count, seconds).0, 1, 1 + seconds) == 2 * count - 1
  {
    var ts, s := Burst(count, seconds), seconds;
    var second := Repeat(s, count);
    assert ts[0] == 0 && ts[1..] == Repeat(s - 1, count - 1) + second;
    RoomAdmits(Window(1, 0, 0), s - 1, count - 1, second, count, s, 1, 1 + s);
    assert second[0] == s && second[1..] == Repeat(s, count - 1) + [];
    RoomAdmits(Window(1, 0, s), s, count - 1, [], count, s, 1, 1 + s);
  }

  /** How many of a key's messages a run lets through in the `seconds` readings from `a` on. */
  function LetThrough(w: Option<Window>, times: seq<int>, count: nat, seconds: nat, a: int): nat {
    Admitted(times, KeyRun(w, times, count, seconds).0, a, a + seconds)
  }

  /** No run lets more than the configured count through in `seconds` consecutive readings. */
  ghost predicate ReadingsKeepCount(count: nat, seconds: nat) {
    forall w, times, a :: Orderly(w, times) ==> LetThrough(w, times, count, seconds, a) <= count
  }

  /** By its readings a limit keeps its count exactly for counts of one and for windows of a second or less. */
  lemma ReadingsKeepCountIff(count: nat, seconds: nat)
    requires count > 0
    ensures ReadingsKeepCount(count, seconds) <==> count <= 1 || seconds <= 1
  {
    if count <= 1 || seconds <= 1 {
      forall w, times, a | Orderly(w, times)
        ensures LetThrough(w, times, count, seconds, a) <= count
      {
        ReadingBound(w, times, count, seconds, a);
      }
    } else {
      var times, a := ReadingPeakIsAttained(count, seconds);
      assert LetThrough(None, times, count, seconds, a) > count;
    }
  }

  // ----- In real time -----

  /** The clock readings of some instants. */
  function Readings(instants: seq<int>): (r: seq<int>)
    ensures |r| == |instants| && forall i :: 0 <= i < |r| ==> r[i] == instants[i] / NANOS
  {
    if instants == [] then [] else [instants[0] / NANOS] + Readings(instants[1..])
  }

  /** What a state can still let through in the readings from `a` up to and including `a + seconds`. */
  function LongBudget(w: Option<Window>, a: int, count: nat, seconds: nat): nat {
    if w.None? || w.value.start + seconds <= a then 2 * count
    else if w.value.start <= a then Left(count, w.value.emitted) + count
    else if w.value.start <= a + seconds then Left(count, w.value.emitted)
    else 0
  }

  lemma {:induction false} WithinLongBudget(w: Option<Window>, times: seq<int>, count: nat, seconds: nat, a: int)
    requires count > 0 && seconds > 0 && Orderly(w, times)
    ensures Admitted(times, KeyRun(w, times, count, seconds).0, a, a + seconds + 1) <= LongBudget(w, a, count, seconds)
    decreases |times|
  {
    if times != [] {
      var (v, o) := KeyCount(w, times[0], count, seconds);
      WithinLongBudget(Some(v), times[1..], count, seconds, a);
    }
  }

  /** What is let through within `seconds` of real time is let through within one reading more than that. */
  lemma {:induction false} WithinReadings(instants: seq<int>, os: seq<Outcome>, a: int, seconds: nat)
    requires |os| == |instants|
    ensures Admitted(instants, os, a, a + seconds * NANOS) <= Admitted(Readings(instants), os, a / NANOS, a / NANOS + seconds + 1)
    decreases |instants|
  {
    if instants != [] {
      ReadingWithin(instants[0], a, seconds);
      WithinReadings(instants[1..], os[1..], a, seconds);
    }
  }

  lemma ReadingWithin(t: int, a: int, seconds: nat)
    ensures a <= t < a + seconds * NANOS ==> a / NANOS <= t / NANOS < a / NANOS + seconds + 1
  {
  }

  lemma {:induction false} NoneInNothing(instants: seq<int>, os: seq<Outcome>, a: int)
    requires |os| == |instants|
    ensures Admitted(instants, os, a, a) == 0
    decreases |instants|
  {
    if instants != [] {
      NoneInNothing(instants[1..], os[1..], a);
    }
  }

  /** The most that one window's length of real time can let through. */
  function Peak(count: nat, seconds: nat): nat {
    if seconds == 0 then 0 else 2 * count
  }

  /** In any interval of real time as long as the window, wherever it begins, at most twice the count gets through. */
  lemma WindowBound(w: Option<Window>, instants: seq<int>, count: nat, seconds: nat, a: int)
    requires count > 0 && Orderly(w, Readings(instants))
    ensures Admitted(instants, KeyRun(w, Readings(instants), count, seconds).0, a, a + seconds * 1_000_000_000) <= Peak(count, seconds)
  {
    var os := KeyRun(w, Readings(instants), count, seconds).0;
    if seconds == 0 {
      NoneInNothing(instants, os, a);
    } else {
      WithinReadings(instants, os, a, seconds);
      WithinLongBudget(w, Readings(instants), count, seconds, a / NANOS);
    }
  }

  /** The count just before a second ends, and again when the window's last second begins to be over. */
  function TwoBursts(count: nat, seconds: nat): seq<int> {
    Repeat(NANOS - 1, count) + Repeat(seconds * NANOS, count)
  }

  /** A message that is let through counts for one. */
  lemma AdmitOne(w: Option<Window>, t: int, rest: seq<int>, count: nat, seconds: nat, a: int, b: int)
    requires KeyCount(w, t / NANOS, count, seconds).1.allow && a <= t < b
    ensures var after := KeyCount(w, t / NANOS, count, seconds).0;
            Admitted([t] + rest, KeyRun(w, Readings([t] + rest), count, seconds).0, a, b)
            == 1 + Admitted(rest, KeyRun(Some(after), Readings(rest), count, seconds).0, a, b)
  {
    hide KeyCount;
    var all := [t] + rest;
    assert all[1..] == rest;
    assert Readings(all) == [t / NANOS] + Readings(rest);
    assert Readings(all)[1..] == Readings(rest);
  }

  /** While the window has room, messages at one instant are all let through. */
  lemma {:induction false} InstantAdmits(w: Window, t: int, n: nat, rest: seq<int>, count: nat, seconds: nat, a: int, b: int)
    requires !Over(w, t / NANOS, seconds) && w.emitted + n <= count && a <= t < b
    ensures var after := w.(emitted := w.emitted + n);
            Admitted(Repeat(t, n) + rest, KeyRun(Some(w), Readings(Repeat(t, n) + rest), count, seconds).0, a, b)
            == n + Admitted(rest, KeyRun(Some(after), Readings(rest), count, seconds).0, a, b)
    decreases n
  {
    hide Admitted, KeyRun, Readings;
    if n == 0 {
      assert Repeat(t, n) + rest == rest && w.(emitted := w.emitted) == w;
    } else {
      AdmitOne(Some(w), t, Repeat(t, n - 1) + rest, count, seconds, a, b);
      InstantAdmits(w.(emitted := w.emitted + 1), t, n - 1, rest, count, seconds, a, b);
      assert Repeat(t, n) + rest == [t] + (Repeat(t, n - 1) + rest);
    }
  }

  /** A message that opens a window and as many at the same instant as the limit still allows. */
  lemma FullBurst(w: Option<Window>, t: int, rest: seq<int>, count: nat, seconds: nat, a: int, b: int)
    requires count > 0 && seconds > 0 && a <= t < b && (w.Some? ==> Over(w.value, t / NANOS, seconds))
    ensures Admitted(Repeat(t, count) + rest, KeyRun(w, Readings(Repeat(t, count) + rest), count, seconds).0, a, b)
            == count + Admitted(rest, KeyRun(Some(Window(count, 0, t / NANOS)), Readings(rest), count, seconds).0, a, b)
  {
    hide Admitted, KeyRun, Readings;
    AdmitOne(w, t, Repeat(t, count - 1) + rest, count, seconds, a, b);
    InstantAdmits(Window(1, 0, t / NANOS), t, count - 1, rest, count, seconds, a, b);
    assert Repeat(t, count) + rest == [t] + (Repeat(t, count - 1) + rest);
  }

  /** Twice the count is attained for every count and every window of a second or more. */
  lemma PeakIsAttained(count: nat, seconds: nat)
    requires count > 0 && seconds > 0
    ensures Orderly(None, Readings(TwoBursts(count, seconds)))
    ensures Admitted(TwoBursts(count, seconds), KeyRun(None, Readings(TwoBursts(count, seconds)), count, seconds).0,
                     NANOS - 1, NANOS - 1 + seconds * NANOS) == Peak(count, seconds)
  {
    var t1, t2 := NANOS - 1, seconds * NANOS;
    BurstReadings(seconds);
    BurstsOrderly(count, seconds);
    hide Admitted, KeyRun, Readings;
    FullBurst(None, t1, Repeat(t2, count), count, seconds, t1, t1 + t2);
    FullBurst(Some(Window(count, 0, 0)), t2, [], count, seconds, t1, t1 + t2);
    assert Repeat(t2, count) + [] == Repeat(t2, count);
    NothingAdmitted(Some(Window(count, 0, seconds)), count, seconds, t1, t1 + t2);
  }

  lemma NothingAdmitted(w: Option<Window>, count: nat, seconds: nat, a: int, b: int)
    ensures Admitted([], KeyRun(w, Readings([]), count, seconds).0, a, b) == 0
  {
  }

  lemma BurstsOrderly(count: nat, seconds: nat)
    requires count > 0 && seconds > 0
    ensures Orderly(None, Readings(TwoBursts(count, seconds)))
  {
    BurstReadings(seconds);
    var ts := TwoBursts(count, seconds);
    assert forall i :: 0 <= i < |ts| ==> ts[i] == if i < count then NANOS - 1 else seconds * NANOS;
  }

  lemma BurstReadings(seconds: nat)
    ensures (NANOS - 1) / NANOS == 0 && (seconds * NANOS) / NANOS == seconds
  {
  }

  /** How many of a key's messages a run lets through in one window's length of real time from `a` on. */
  function LetThroughFrom(w: Option<Window>, instants: seq<int>, count: nat, seconds: nat, a: int): nat {
    Admitted(instants, KeyRun(w, Readings(instants), count, seconds).0, a, a + seconds * 1_000_000_000)
  }

  /** No run lets more than the configured count through in a window's length of real time. */
  ghost predicate KeepsCount(count: nat, seconds: nat) {
    forall w, instants, a :: Orderly(w, Readings(instants)) ==> LetThroughFrom(w, instants, count, seconds, a) <= count
  }

  /** No limit whose window is a second or more keeps its count in real time. */
  lemma KeepsCountIff(count: nat, seconds: nat)
    requires count > 0
    ensures KeepsCount(count, seconds) <==> seconds == 0
  {
    if seconds == 0 {
      forall w, instants, a | Orderly(w, Readings(instants)) ensures LetThroughFrom(w, instants, count, seconds, a) <= count {
        WindowBound(w, instants, count, seconds, a);
      }
    } else {
      PeakIsAttained(count, seconds);
      assert LetThroughFrom(None, TwoBursts(count, seconds), count, seconds, NANOS - 1) > count;
    }
  }

  // ----- Nothing lost -----

  /** Every message is let through, reported as skipped, or waiting to be reported. */
  lemma {:induction false} NothingLost(w: Option<Window>, times: seq<int>, count: nat, seconds: nat)
    requires |times| + Pending(w) <= 0xFFFF_FFFF
    ensures var (os, end) := KeyRun(w, times, count, seconds);
            |times| + Pending(w) == Allowed(os) + Reported(os) + Pending(end)
    decreases |times|
  {
    if times != [] {
      var (v, o) := KeyCount(w, times[0], count, seconds);
      NothingLost(Some(v), times[1..], count, seconds);
    }
  }

  // ----- Runs of the whole table -----

  function Run(slots: seq<Slot>, calls: seq<Call>): (r: (seq<Slot>, seq<Outcome>))
    ensures |r.1| == |calls|
    decreases |calls|
  {
    if calls == [] then (slots, [])
    else
      var (next, o) := Serve(slots, calls[0]);
      var (end, os) := Run(next, calls[1..]);
      (end, [o] + os)
  }

  predicate Of(c: Call, key: Key) {
    c.name == key.name && c.level == key.level
  }

  /** The clock readings of a key's messages. */
  function Times(calls: seq<Call>, key: Key): seq<int> {
    if calls == [] then []
    else (if Of(calls[0], key) && calls[0].time.Some? then [Reading(calls[0])] else []) + Times(calls[1..], key)
  }

  /** The instants of a key's messages. */
  function Instants(calls: seq<Call>, key: Key): seq<int> {
    if calls == [] then []
    else (if Of(calls[0], key) && calls[0].time.Some? then [calls[0].time.value] else []) + Instants(calls[1..], key)
  }

  lemma {:induction false} TimesAreReadings(calls: seq<Call>, key: Key)
    ensures Times(calls, key) == Readings(Instants(calls, key))
  {
    if calls != [] {
      TimesAreReadings(calls[1..], key);
      if Of(calls[0], key) && calls[0].time.Some? {
        var all := Instants(calls, key);
        assert all[0] == calls[0].time.value && all[1..] == Instants(calls[1..], key);
      } else {
        assert Instants(calls, key) == Instants(calls[1..], key);
        assert Times(calls, key) == Times(calls[1..], key);
      }
    }
  }

  function OutcomesOf(calls: seq<Call>, os: seq<Outcome>, key: Key): seq<Outcome>
    requires |os| == |calls|
  {
    if calls == [] then []
    else (if Of(calls[0], key) then [os[0]] else []) + OutcomesOf(calls[1..], os[1..], key)
  }

  function View(slots: seq<Slot>, key: Key): Option<Window> {
    var i := Find(slots, key.name, key.level);
    if i < |slots| then Some(slots[i].window) else None
  }

  /** The key's messages all have this limit, a working clock, and a name that fits its slot. */
  ghost predicate Steady(calls: seq<Call>, key: Key, count: nat, seconds: nat) {
    && |key.name| <= NAME_MAX && key.level > LOG_AUDIT && count > 0
    && (forall i :: 0 <= i < |calls| && Of(calls[i], key) ==> calls[i].count == count && calls[i].seconds == seconds && calls[i].time.Some?)
  }

  /** The message is of another key whose name, cut to fit a slot, is the key's. */
  predicate Mistaken(c: Call, key: Key) {
    !Of(c, key) && Truncated(c.name) == key.name && c.level == key.level
  }

  /** The key has a slot, or finds a free one at its first message. */
  predicate Tracked(slots: seq<Slot>, calls: seq<Call>, key: Key)
    decreases |calls|
  {
    || calls == []
    || View(slots, key).Some?
    || (if Of(calls[0], key) then FirstUnused(slots) < |slots| else Tracked(Serve(slots, calls[0]).0, calls[1..], key))
  }

  lemma FindSame(slots: seq<Slot>, name: CStr, level: int, i: nat)
    requires i < |slots| && Matches(slots[i], name, level) && forall k :: 0 <= k < i ==> !Matches(slots[k], name, level)
    ensures Find(slots, name, level) == i
  {
  }

  lemma FindNone(slots: seq<Slot>, name: CStr, level: int)
    requires forall k :: 0 <= k < |slots| ==> !Matches(slots[k], name, level)
    ensures Find(slots, name, level) == |slots|
  {
  }

  /** Changing a slot that is neither the key's before nor after does not change the key's view. */
  lemma OtherSlot(slots: seq<Slot>, j: nat, s: Slot, key: Key)
    requires j < |slots| && !Matches(slots[j], key.name, key.level) && !Matches(s, key.name, key.level)
    ensures View(slots[j := s], key) == View(slots, key)
  {
    var i := Find(slots, key.name, key.level);
    if i < |slots| {
      FindSame(slots[j := s], key.name, key.level, i);
    } else {
      FindNone(slots[j := s], key.name, key.level);
    }
  }

  /** A message of another key does not touch the key's window. */
  lemma OtherCall(slots: seq<Slot>, c: Call, key: Key)
    requires !Of(c, key) && (Truncated(c.name) != key.name || c.level != key.level)
    ensures View(Serve(slots, c).0, key) == View(slots, key)
  {
    if !Exempt(c) {
      var i, j := Find(slots, c.name, c.level), FirstUnused(slots);
      if i < |slots| {
        OtherSlot(slots, i, Serve(slots, c).0[i], key);
      } else if j < |slots| {
        OtherSlot(slots, j, Serve(slots, c).0[j], key);
      }
    }
  }

  lemma OwnCall(slots: seq<Slot>, c: Call, key: Key)
    requires Of(c, key) && !Exempt(c) && |key.name| <= NAME_MAX
    requires View(slots, key).Some? || FirstUnused(slots) < |slots|
    ensures var (w, o) := KeyCount(View(slots, key), Reading(c), c.count, c.seconds);
            View(Serve(slots, c).0, key) == Some(w) && Serve(slots, c).1 == o
  {
    var i, j := Find(slots, c.name, c.level), FirstUnused(slots);
    var next := Serve(slots, c).0;
    FindSame(next, c.name, c.level, if i < |slots| then i else j);
  }

  /** Among all other traffic, a tracked key is limited as if it were alone. */
  lemma {:induction false} KeyAlone(slots: seq<Slot>, calls: seq<Call>, key: Key, count: nat, seconds: nat)
    requires Steady(calls, key, count, seconds) && Tracked(slots, calls, key)
    requires forall i :: 0 <= i < |calls| ==> !Mistaken(calls[i], key)
    ensures var (end, os) := Run(slots, calls);
            (OutcomesOf(calls, os, key), View(end, key)) == KeyRun(View(slots, key), Times(calls, key), count, seconds)
    decreases |calls|
  {
    if calls != [] {
      var c, rest := calls[0], calls[1..];
      var next := Serve(slots, c).0;
      assert forall i :: 0 <= i < |rest| ==> rest[i] == calls[i + 1];
      if Of(c, key) {
        OwnCall(slots, c, key);
        KeyAlone(next, rest, key, count, seconds);
        assert Times(calls, key) == [Reading(c)] + Times(rest, key);
      } else {
        OtherCall(slots, c, key);
        KeyAlone(next, rest, key, count, seconds);
        assert Times(calls, key) == Times(rest, key);
        assert OutcomesOf(calls, Run(slots, calls).1, key) == OutcomesOf(rest, Run(next, rest).1, key);
      }
    }
  }

  predicate ReadsAt(c: Call, t: int) {
    c.time.Some? && Reading(c) == t
  }

  ghost predicate ClockRuns(slots: seq<Slot>, calls: seq<Call>) {
    && (forall i, j :: 0 <= i < j < |calls| && calls[i].time.Some? && calls[j].time.Some? ==> calls[i].time.value <= calls[j].time.value)
    && (forall k, i :: 0 <= k < |slots| && slots[k].Used? && 0 <= i < |calls| && calls[i].time.Some? ==> slots[k].window.start <= Reading(calls[i]))
    && (forall k :: 0 <= k < |slots| && slots[k].Used? ==> slots[k].window.emitted >= 1)
  }

  lemma InFront(t: int, times: seq<int>)
    requires Orderly(None, times) && forall u :: u in times ==> t <= u
    ensures Orderly(None, [t] + times)
  {
    forall i, j | 0 <= i < j < |times| + 1 ensures ([t] + times)[i] <= ([t] + times)[j] {
      assert times[j - 1] in times;
    }
  }

  lemma {:induction false} TimesOrderly(slots: seq<Slot>, calls: seq<Call>, key: Key)
    requires ClockRuns(slots, calls)
    ensures Orderly(View(slots, key), Times(calls, key))
    ensures forall t :: t in Times(calls, key) ==> exists i :: 0 <= i < |calls| && ReadsAt(calls[i], t)
  {
    if calls != [] {
      var rest := calls[1..];
      assert forall i :: 0 <= i < |rest| ==> rest[i] == calls[i + 1];
      TimesOrderly(slots, rest, key);
      forall t | t in Times(calls, key) ensures exists i :: 0 <= i < |calls| && ReadsAt(calls[i], t) {
        if t in Times(rest, key) {
          var i :| 0 <= i < |rest| && ReadsAt(rest[i], t);
          assert ReadsAt(calls[i + 1], t);
        } else {
          assert ReadsAt(calls[0], t);
        }
      }
      if Of(calls[0], key) && calls[0].time.Some? {
        forall t | t in Times(rest, key) ensures Reading(calls[0]) <= t {
          var i :| 0 <= i < |rest| && ReadsAt(rest[i], t);
          assert ReadsAt(calls[i + 1], t);
        }
        InFront(Reading(calls[0]), Times(rest, key));
      } else {
        assert Times(calls, key) == Times(rest, key);
      }
    }
  }

  // ----- With longer names that are cut to the key's -----

  ghost predicate NamesFit(slots: seq<Slot>) {
    forall i :: 0 <= i < |slots| && slots[i].Used? ==> |slots[i].name| <= NAME_MAX
  }

  /** What every reachable table is: names fit, and slots are taken in order and never given back. */
  ghost predicate Filling(slots: seq<Slot>) {
    NamesFit(slots) && forall i, j :: 0 <= i < j < |slots| && slots[j].Used? ==> slots[i].Used?
  }

  lemma ServeKeepsFilling(slots: seq<Slot>, c: Call)
    requires Filling(slots)
    ensures Filling(Serve(slots, c).0)
  {
  }

  /** A longer name never finds the key's slot: it leaves the key's window alone, or opens the key's first one. */
  lemma MistakenCall(slots: seq<Slot>, c: Call, key: Key)
    requires Filling(slots) && Mistaken(c, key)
    ensures View(Serve(slots, c).0, key) == View(slots, key)
            || (View(slots, key).None? && !Exempt(c) && View(Serve(slots, c).0, key) == Some(Window(1, 0, Reading(c))))
  {
    var i, j := Find(slots, key.name, key.level), FirstUnused(slots);
    var next := Serve(slots, c).0;
    if !Exempt(c) {
      FindNone(slots, c.name, c.level);
      if j < |slots| {
        FindSame(next, key.name, key.level, if i < |slots| then i else j);
      }
    }
  }

  /** A message in front of all the key's own ones came at this time. */
  ghost predicate OpenedAt(calls: seq<Call>, key: Key, t: int) {
    exists i :: 0 <= i < |calls| && ReadsAt(calls[i], t) && forall j :: 0 <= j <= i ==> !Of(calls[j], key)
  }

  /** The window the key's messages meet: its own, or one that a longer name opened before them. */
  ghost predicate Met(slots: seq<Slot>, calls: seq<Call>, key: Key, w: Option<Window>) {
    || w == View(slots, key)
    || (View(slots, key).None? && w.Some? && w.value.emitted == 1 && w.value.suppressed == 0 && OpenedAt(calls, key, w.value.start))
  }

  lemma MetLater(slots: seq<Slot>, next: seq<Slot>, calls: seq<Call>, key: Key, w: Option<Window>)
    requires calls != [] && !Of(calls[0], key) && Met(next, calls[1..], key, w)
    requires View(next, key) == View(slots, key)
             || (View(slots, key).None? && calls[0].time.Some? && View(next, key) == Some(Window(1, 0, Reading(calls[0]))))
    ensures Met(slots, calls, key, w)
  {
    if View(next, key) != View(slots, key) {
      assert w == View(next, key);
      assert ReadsAt(calls[0], w.value.start);
    } else if w != View(slots, key) {
      var t, rest := w.value.start, calls[1..];
      var i :| 0 <= i < |rest| && ReadsAt(rest[i], t) && forall j :: 0 <= j <= i ==> !Of(rest[j], key);
      assert ReadsAt(calls[i + 1], t);
      assert forall j :: 0 <= j <= i + 1 ==> !Of(calls[j], key) by {
        forall j | 0 <= j <= i + 1 ensures !Of(calls[j], key) {
          assert j > 0 ==> calls[j] == rest[j - 1];
        }
      }
    }
  }

  /** Among all other traffic, a tracked key is limited as if it were alone, from the window its messages meet. */
  lemma {:induction false} KeyAmongAll(slots: seq<Slot>, calls: seq<Call>, key: Key, count: nat, seconds: nat) returns (w: Option<Window>)
    requires Steady(calls, key, count, seconds) && Tracked(slots, calls, key) && Filling(slots)
    ensures Met(slots, calls, key, w)
    ensures var (end, os) := Run(slots, calls);
            (OutcomesOf(calls, os, key), View(end, key)) == KeyRun(w, Times(calls, key), count, seconds)
    decreases |calls|
  {
    if calls == [] {
      w := View(slots, key);
    } else {
      hide Filling, Met, KeyCount, View, Serve, OpenedAt;
      var c, rest := calls[0], calls[1..];
      var next := Serve(slots, c).0;
      assert forall i :: 0 <= i < |rest| ==> rest[i] == calls[i + 1];
      ServeKeepsFilling(slots, c);
      if Of(c, key) {
        OwnCall(slots, c, key);
        w := KeyAmongAll(next, rest, key, count, seconds);
        MetOwn(slots, next, calls, key, w);
        w := View(slots, key);
        assert Times(calls, key) == [Reading(c)] + Times(rest, key);
      } else {
        if Mistaken(c, key) {
          MistakenCall(slots, c, key);
        } else {
          OtherCall(slots, c, key);
        }
        w := KeyAmongAll(next, rest, key, count, seconds);
        MetLater(slots, next, calls, key, w);
        assert Times(calls, key) == Times(rest, key);
        assert OutcomesOf(calls, Run(slots, calls).1, key) == OutcomesOf(rest, Run(next, rest).1, key);
      }
    }
  }

  lemma MetOwn(slots: seq<Slot>, next: seq<Slot>, calls: seq<Call>, key: Key, w: Option<Window>)
    requires calls != [] && View(next, key).Some? && Met(next, calls[1..], key, w)
    ensures w == View(next, key) && Met(slots, calls, key, View(slots, key))
  {
  }

  lemma {:induction false} OpenedBefore(calls: seq<Call>, key: Key, t: int)
    requires ClockRuns([], calls) && OpenedAt(calls, key, t)
    ensures forall u :: u in Times(calls, key) ==> t <= u
  {
    var i :| 0 <= i < |calls| && ReadsAt(calls[i], t) && forall j :: 0 <= j <= i ==> !Of(calls[j], key);
    var rest := calls[1..];
    assert forall k :: 0 <= k < |rest| ==> rest[k] == calls[k + 1];
    assert Times(calls, key) == Times(rest, key);
    if i == 0 {
      TimesOrderly([], rest, key);
    } else {
      assert ReadsAt(rest[i - 1], t) && forall j :: 0 <= j <= i - 1 ==> !Of(rest[j], key);
      OpenedBefore(rest, key, t);
    }
  }

  lemma MetOrderly(slots: seq<Slot>, calls: seq<Call>, key: Key, w: Option<Window>)
    requires ClockRuns(slots, calls) && Met(slots, calls, key, w)
    ensures Orderly(w, Times(calls, key))
  {
    TimesOrderly(slots, calls, key);
    if w != View(slots, key) {
      OpenedBefore(calls, key, w.value.start);
      forall i | 0 <= i < |Times(calls, key)| ensures w.value.start <= Times(calls, key)[i] {
        assert Times(calls, key)[i] in Times(calls, key);
      }
    }
  }

  /**
   Among all other traffic, a tracked key never gets more than twice its count
   through within one window's length of real time, nor more than the reading peak
   within as many readings.
   */
  lemma TrackedBound(slots: seq<Slot>, calls: seq<Call>, key: Key, count: nat, seconds: nat, a: int)
    requires Steady(calls, key, count, seconds) && Tracked(slots, calls, key) && ClockRuns(slots, calls) && Filling(slots)
    ensures var os := OutcomesOf(calls, Run(slots, calls).1, key);
            && |os| == |Times(calls, key)| == |Instants(calls, key)|
            && Admitted(Instants(calls, key), os, a, a + seconds * 1_000_000_000) <= Peak(count, seconds)
            && Admitted(Times(calls, key), os, a, a + seconds) <= ReadingPeak(count, seconds)
  {
    var w := KeyAmongAll(slots, calls, key, count, seconds);
    MetOrderly(slots, calls, key, w);
    TimesAreReadings(calls, key);
    WindowBound(w, Instants(calls, key), count, seconds, a);
    ReadingBound(w, Times(calls, key), count, seconds, a);
  }

  /** Among all other traffic, each message of a tracked key is let through, reported as skipped, or still pending. */
  lemma TrackedLosesNothing(slots: seq<Slot>, calls: seq<Call>, key: Key, count: nat, seconds: nat)
    requires Steady(calls, key, count, seconds) && Tracked(slots, calls, key) && Filling(slots)
    requires |Times(calls, key)| + Pending(View(slots, key)) <= 0xFFFF_FFFF
    ensures var (end, all) := Run(slots, calls);
            var os := OutcomesOf(calls, all, key);
            |Times(calls, key)| + Pending(View(slots, key)) == Allowed(os) + Reported(os) + Pending(View(end, key))
  {
    var w := KeyAmongAll(slots, calls, key, count, seconds);
    NothingLost(w, Times(calls, key), count, seconds);
  }

  // ----- Names that do not fit -----

  function UnusedSlots(slots: seq<Slot>): nat {
    if slots == [] then 0 else (if slots[0].Unused? then 1 else 0) + UnusedSlots(slots[1..])
  }

  lemma {:induction false} TakeUnused(slots: seq<Slot>, j: nat, s: Slot)
    requires j < |slots| && slots[j].Unused? && s.Used?
    ensures UnusedSlots(slots[j := s]) == UnusedSlots(slots) - 1
  {
    if j == 0 {
      assert slots[0 := s][1..] == slots[1..];
    } else {
      TakeUnused(slots[1..], j - 1, s);
      assert slots[j := s][1..] == slots[1..][j - 1 := s];
    }
  }

  lemma {:induction false} NoneUnused(slots: seq<Slot>)
    ensures UnusedSlots(slots) == 0 <==> FirstUnused(slots) == |slots|
  {
    if slots != [] {
      NoneUnused(slots[1..]);
    }
  }

  lemma NamesStayFit(slots: seq<Slot>, c: Call)
    requires NamesFit(slots)
    ensures NamesFit(Serve(slots, c).0)
  {
  }

  /** A name too long for its slot never finds the slot again: each message is let through and takes another slot. */
  lemma LongNameServed(slots: seq<Slot>, c: Call)
    requires NamesFit(slots) && |c.name| > NAME_MAX && !Exempt(c)
    ensures Serve(slots, c).1 == Outcome(true, 0)
    ensures UnusedSlots(Serve(slots, c).0) == if UnusedSlots(slots) > 0 then UnusedSlots(slots) - 1 else 0
  {
    FindNone(slots, c.name, c.level);
    NoneUnused(slots);
    var j := FirstUnused(slots);
    if j < |slots| {
      TakeUnused(slots, j, Serve(slots, c).0[j]);
    }
  }

  /** Messages whose names do not fit and that are not exempt. */
  function LongCalls(calls: seq<Call>): nat {
    if calls == [] then 0
    else (if |calls[0].name| > NAME_MAX && !Exempt(calls[0]) then 1 else 0) + LongCalls(calls[1..])
  }

  lemma ServeKeepsTaken(slots: seq<Slot>, c: Call)
    ensures UnusedSlots(Serve(slots, c).0) <= UnusedSlots(slots)
  {
    if !Exempt(c) {
      var i, j := Find(slots, c.name, c.level), FirstUnused(slots);
      if i < |slots| {
        SlotStays(slots, i, Serve(slots, c).0[i]);
      } else if j < |slots| {
        TakeUnused(slots, j, Serve(slots, c).0[j]);
      }
    }
  }

  lemma {:induction false} SlotStays(slots: seq<Slot>, j: nat, s: Slot)
    requires j < |slots| && slots[j].Used? && s.Used?
    ensures UnusedSlots(slots[j := s]) == UnusedSlots(slots)
  {
    if j == 0 {
      assert slots[0 := s][1..] == slots[1..];
    } else {
      SlotStays(slots[1..], j - 1, s);
      assert slots[j := s][1..] == slots[1..][j - 1 := s];
    }
  }

  /** Among all traffic, no message with such a name is ever limited, and each takes a slot while there is one: 256 of them leave none for anyone new. */
  lemma {:induction false} LongNamesFlood(slots: seq<Slot>, calls: seq<Call>)
    requires NamesFit(slots)
    ensures forall i :: 0 <= i < |calls| && |calls[i].name| > 127 ==> Run(slots, calls).1[i] == Outcome(true, 0)
    ensures UnusedSlots(Run(slots, calls).0) <= if UnusedSlots(slots) > LongCalls(calls) then UnusedSlots(slots) - LongCalls(calls) else 0
    ensures LongCalls(calls) == |calls| ==>
              UnusedSlots(Run(slots, calls).0) == if UnusedSlots(slots) > |calls| then UnusedSlots(slots) - |calls| else 0
    decreases |calls|
  {
    hide NamesFit, Serve, UnusedSlots;
    if calls != [] {
      var c := calls[0];
      LongCallsBound(calls[1..]);
      ServeKeepsTaken(slots, c);
      if |c.name| > NAME_MAX && !Exempt(c) {
        LongNameServed(slots, c);
      } else if Exempt(c) {
        ExemptServed(slots, c);
      }
      NamesStayFit(slots, c);
      LongNamesFlood(Serve(slots, c).0, calls[1..]);
    }
  }

  lemma {:induction false} LongCallsBound(calls: seq<Call>)
    ensures LongCalls(calls) <= |calls|
  {
    if calls != [] {
      LongCallsBound(calls[1..]);
    }
  }

  lemma ExemptServed(slots: seq<Slot>, c: Call)
    requires Exempt(c)
    ensures Serve(slots, c) == (slots, Outcome(true, 0))
  {
  }

  /** A full table stays full, and a key without a slot in it gets none: its messages change nothing and are let through. */
  lemma FullTableServed(slots: seq<Slot>, c: Call, key: Key)
    requires FirstUnused(slots) == |slots| && View(slots, key).None?
    ensures FirstUnused(Serve(slots, c).0) == |Serve(slots, c).0| && View(Serve(slots, c).0, key).None?
    ensures Of(c, key) ==> Serve(slots, c) == (slots, Outcome(true, 0))
  {
    var next := Serve(slots, c).0;
    FindNone(next, key.name, key.level);
  }

  /** Once no slot is left, a key without one is never limited, whatever else comes; its own messages do not change the table. */
  lemma {:induction false} FullTableFailsOpen(slots: seq<Slot>, calls: seq<Call>, key: Key)
    requires UnusedSlots(slots) == 0 && View(slots, key).None?
    ensures UnusedSlots(Run(slots, calls).0) == 0 && View(Run(slots, calls).0, key).None?
    ensures forall i :: 0 <= i < |calls| && Of(calls[i], key) ==> Run(slots, calls).1[i] == Outcome(true, 0)
    ensures (forall i :: 0 <= i < |calls| ==> Of(calls[i], key)) ==> Run(slots, calls).0 == slots
    decreases |calls|
  {
    hide UnusedSlots, Serve, View;
    if calls != [] {
      var next := Serve(slots, calls[0]).0;
      NoneUnused(slots);
      FullTableServed(slots, calls[0], key);
      NoneUnused(next);
      FullTableFailsOpen(next, calls[1..], key);
    }
  }

  /**
   The other half of the bound for tracked keys: in any traffic, a key whose name
   does not fit, or that finds no slot at its first message, is never limited.
   */
  lemma {:induction false} UntrackedNeverLimited(slots: seq<Slot>, calls: seq<Call>, key: Key)
    requires NamesFit(slots) && (|key.name| > 127 || !Tracked(slots, calls, key))
    ensures forall i :: 0 <= i < |calls| && Of(calls[i], key) ==> Run(slots, calls).1[i] == Outcome(true, 0)
    decreases |calls|
  {
    hide NamesFit, Serve, View;
    if |key.name| > 127 {
      LongNamesFlood(slots, calls);
    } else if calls != [] {
      if Of(calls[0], key) {
        NoneUnused(slots);
        FullTableFailsOpen(slots, calls, key);
      } else {
        NamesStayFit(slots, calls[0]);
        UntrackedNeverLimited(Serve(slots, calls[0]).0, calls[1..], key);
      }
    }
  }

  /** So a key with a fixed limit keeps to the peaks for ever if its name fits and it finds a slot, and otherwise nothing of it is ever withheld. */
  lemma Dichotomy(slots: seq<Slot>, calls: seq<Call>, key: Key, count: nat, seconds: nat, a: int)
    requires Filling(slots) && ClockRuns(slots, calls) && count > 0 && key.level > 1
    requires forall i :: 0 <= i < |calls| && Of(calls[i], key) ==> calls[i].count == count && calls[i].seconds == seconds && calls[i].time.Some?
    ensures var os := Run(slots, calls).1;
            if |key.name| <= 127 && Tracked(slots, calls, key)
            then |OutcomesOf(calls, os, key)| == |Instants(calls, key)| == |Times(calls, key)|
                 && Admitted(Instants(calls, key), OutcomesOf(calls, os, key), a, a + seconds * 1_000_000_000) <= Peak(count, seconds)
                 && Admitted(Times(calls, key), OutcomesOf(calls, os, key), a, a + seconds) <= ReadingPeak(count, seconds)
            else forall i :: 0 <= i < |calls| && Of(calls[i], key) ==> os[i] == Outcome(true, 0)
  {
    if |key.name| <= 127 && Tracked(slots, calls, key) {
      TrackedBound(slots, calls, key, count, seconds, a);
    } else {
      UntrackedNeverLimited(slots, calls, key);
    }
  }
}
