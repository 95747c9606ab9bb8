/**
 Message listeners and their tokens under any number of threads: delivering,
 cancelling and draining, as steps that each hold the registry lock throughout.

 Queueing a message with a dispatcher and delivering it in the emitter's thread
 differ only in when the delivery begins, so an emission adds deliveries and they
 begin at any later time.
 */
module MessageTokens {
  import opened Bytes

  type Name = CStr

  datatype Token = Token(name: Name, domain: Option<Name>, active: bool, executing: nat)

  datatype Phase = Pending | Running | Done

  datatype Delivery = Delivery(token: nat, phase: Phase)

  /** A call of event_off_token: past its unlocked look at `active`, or returned. */
  datatype Off = Off(token: nat, returned: bool)

  datatype Drain = Drain(token: nat, returned: bool)

  /** `listeners` is the list of subscribed tokens, newest first; `open` is whether the store exists. */
  datatype Bus = Bus(
    open: bool, domains: set<Name>, tokens: seq<Token>, listeners: seq<nat>,
    deliveries: seq<Delivery>, offs: seq<Off>, drains: seq<Drain>)

  datatype Step =
    | Init
    | Shutdown
    | DomainRegister(name: Name)
    | DomainUnregister(name: Name, busy: bool)   // busy: an ordinary listener uses its dispatcher
    | Subscribe(name: Name, domain: Option<Name>)
    | Emit(name: Name)
    | Begin(d: nat)
    | Finish(d: nat)
    | OffCall(t: nat)
    | OffRun(k: nat)
    | DrainCall(t: nat)
    | DrainReturn(k: nat)

  /** Every index names a token. */
  predicate Indexed(s: Bus) {
    && (forall i :: 0 <= i < |s.listeners| ==> s.listeners[i] < |s.tokens|)
    && (forall d :: 0 <= d < |s.deliveries| ==> s.deliveries[d].token < |s.tokens|)
    && (forall k :: 0 <= k < |s.offs| ==> s.offs[k].token < |s.tokens|)
    && (forall k :: 0 <= k < |s.drains| ==> s.drains[k].token < |s.tokens|)
  }

  predicate Enabled(s: Bus, step: Step)
    requires Indexed(s)
  {
    match step
    case Begin(d) => d < |s.deliveries| && s.deliveries[d].phase == Pending
    case Finish(d) => d < |s.deliveries| && s.deliveries[d].phase == Running
    case OffCall(t) => t < |s.tokens|
    case OffRun(k) => k < |s.offs| && !s.offs[k].returned
    case DrainCall(t) => t < |s.tokens|
    case DrainReturn(k) => k < |s.drains| && !s.drains[k].returned && s.tokens[s.drains[k].token].executing == 0
    case _ => true
  }

  function Without(listeners: seq<nat>, t: nat): seq<nat> {
    if listeners == [] then []
    else if listeners[0] == t then listeners[1..]
    else [listeners[0]] + Without(listeners[1..], t)
  }

  /** One new delivery for each subscribed token of that name, in list order. */
  function Targets(tokens: seq<Token>, listeners: seq<nat>, name: Name): (ds: seq<Delivery>)
    requires forall i :: 0 <= i < |listeners| ==> listeners[i] < |tokens|
    ensures forall d :: 0 <= d < |ds| ==> ds[d].token in listeners && tokens[ds[d].token].name == name && ds[d].phase == Pending
  {
    if listeners == [] then []
    else (if tokens[listeners[0]].name == name then [Delivery(listeners[0], Pending)] else []) + Targets(tokens, listeners[1..], name)
  }

  function Silenced(tokens: seq<Token>, listeners: seq<nat>): (r: seq<Token>)
    ensures |r| == |tokens|
    ensures forall t :: 0 <= t < |tokens| ==> r[t] == if t in listeners then tokens[t].(active := false) else tokens[t]
  {
    seq(|tokens|, t requires 0 <= t < |tokens| => if t in listeners then tokens[t].(active := false) else tokens[t])
  }

  predicate DomainInUse(s: Bus, name: Name)
    requires Indexed(s)
  {
    exists i :: 0 <= i < |s.listeners| && s.tokens[s.listeners[i]].domain == Some(name)
  }

  function Next(s: Bus, step: Step): Bus
    requires Indexed(s) && Enabled(s, step)
  {
    match step
    case Init => s.(open := true)
    case Shutdown =>
      if s.open then s.(open := false, domains := {}, tokens := Silenced(s.tokens, s.listeners), listeners := []) else s
    case DomainRegister(name) => if s.open && name != [] then s.(domains := s.domains + {name}) else s
    case DomainUnregister(name, busy) => if busy || DomainInUse(s, name) then s else s.(domains := s.domains - {name})
    case Subscribe(name, domain) =>
      if !s.open || (domain.Some? && domain.value !in s.domains) then s
      else s.(tokens := s.tokens + [Token(name, domain, true, 0)], listeners := [|s.tokens|] + s.listeners)
    case Emit(name) => s.(deliveries := s.deliveries + Targets(s.tokens, s.listeners, name))
    case Begin(d) =>
      var t := s.deliveries[d].token;
      if s.tokens[t].active then
        s.(tokens := s.tokens[t := s.tokens[t].(executing := s.tokens[t].executing + 1)], deliveries := s.deliveries[d := Delivery(t, Running)])
      else s.(deliveries := s.deliveries[d := Delivery(t, Done)])
    case Finish(d) =>
      var t := s.deliveries[d].token;
      var n := s.tokens[t].executing;
      s.(tokens := s.tokens[t := s.tokens[t].(executing := if n > 0 then n - 1 else n)], deliveries := s.deliveries[d := Delivery(t, Done)])
    case OffCall(t) => s.(offs := s.offs + [Off(t, !s.tokens[t].active)])
    case OffRun(k) =>
      var t := s.offs[k].token;
      s.(tokens := s.tokens[t := s.tokens[t].(active := false)], listeners := Without(s.listeners, t), offs := s.offs[k := Off(t, true)])
    case DrainCall(t) => s.(drains := s.drains + [Drain(t, false)])
    case DrainReturn(k) => s.(drains := s.drains[k := Drain(s.drains[k].token, true)])
  }

  predicate Start(s: Bus) {
    && s.domains == {} && s.tokens == [] && s.listeners == [] && s.deliveries == [] && s.offs == [] && s.drains == []
  }

  // ----- What every step keeps -----

  /** Threads inside the token's callback. */
  function Inside(ds: seq<Delivery>, t: nat): nat {
    if ds == [] then 0 else (if ds[0] == Delivery(t, Running) then 1 else 0) + Inside(ds[1..], t)
  }

  predicate Counted(s: Bus) {
    forall t :: 0 <= t < |s.tokens| ==> s.tokens[t].executing == Inside(s.deliveries, t)
  }

  /** Subscribed tokens are exactly the active ones, each once. */
  predicate Listed(s: Bus) {
    && (forall t :: 0 <= t < |s.tokens| ==> (s.tokens[t].active <==> t in s.listeners))
    && Distinct(s.listeners)
  }

  predicate Distinct(ts: seq<nat>) {
    forall i, j :: 0 <= i < j < |ts| ==> ts[i] != ts[j]
  }

  /** A domain stays while a subscribed token delivers in it. */
  predicate Housed(s: Bus)
    requires Indexed(s)
  {
    forall i :: 0 <= i < |s.listeners| && s.tokens[s.listeners[i]].domain.Some? ==> s.tokens[s.listeners[i]].domain.value in s.domains
  }

  /** A cancelling call has returned only if its token is inactive. */
  predicate Cancelled(s: Bus)
    requires Indexed(s)
  {
    forall k :: 0 <= k < |s.offs| && s.offs[k].returned ==> !s.tokens[s.offs[k].token].active
  }

  predicate Inv(s: Bus) {
    Indexed(s) && Counted(s) && Listed(s) && Housed(s) && Cancelled(s)
  }

  lemma {:induction false} WithoutListed(listeners: seq<nat>, t: nat)
    requires Distinct(listeners)
    ensures forall x :: x in Without(listeners, t) <==> x in listeners && x != t
    ensures Distinct(Without(listeners, t))
  {
    if listeners != [] {
      var rest := listeners[1..];
      WithoutListed(rest, t);
      assert listeners == [listeners[0]] + rest;
      assert listeners[0] !in rest;
      if listeners[0] != t {
        DistinctCons(listeners[0], Without(rest, t));
      }
    }
  }

  lemma DistinctCons(x: nat, ts: seq<nat>)
    requires Distinct(ts) && x !in ts
    ensures Distinct([x] + ts)
  {
  }

  lemma {:induction false} InsideChange(ds: seq<Delivery>, d: nat, p: Delivery, t: nat)
    requires d < |ds|
    ensures Inside(ds[d := p], t) + (if ds[d] == Delivery(t, Running) then 1 else 0)
            == Inside(ds, t) + if p == Delivery(t, Running) then 1 else 0
  {
    if d == 0 {
      assert ds[0 := p][1..] == ds[1..];
    } else {
      InsideChange(ds[1..], d - 1, p, t);
      assert ds[d := p][1..] == ds[1..][d - 1 := p];
    }
  }

  lemma {:induction false} InsideMore(ds: seq<Delivery>, more: seq<Delivery>, t: nat)
    requires forall d :: 0 <= d < |more| ==> more[d].phase != Running
    ensures Inside(ds + more, t) == Inside(ds, t)
    decreases |ds|, |more|
  {
    if ds != [] {
      InsideMore(ds[1..], more, t);
      assert (ds + more)[1..] == ds[1..] + more;
    } else if more != [] {
      InsideMore([], more[1..], t);
      assert [] + more == more && [] + more[1..] == more[1..];
    }
  }

  lemma {:induction false} NotInside(ds: seq<Delivery>, t: nat)
    ensures Inside(ds, t) == 0 <==> Delivery(t, Running) !in ds
  {
    if ds != [] {
      NotInside(ds[1..], t);
      assert ds == [ds[0]] + ds[1..];
    }
  }

  lemma {:induction false} NewTokenNotInside(ds: seq<Delivery>, t: nat)
    requires forall d :: 0 <= d < |ds| ==> ds[d].token != t
    ensures Inside(ds, t) == 0
  {
    NotInside(ds, t);
  }

  lemma StepKeepsIndexed(s: Bus, step: Step)
    requires Indexed(s) && Listed(s) && Enabled(s, step)
    ensures Indexed(Next(s, step))
  {
    var n := Next(s, step);
    if step.OffRun? {
      WithoutListed(s.listeners, s.offs[step.k].token);
      forall i | 0 <= i < |n.listeners| ensures n.listeners[i] < |n.tokens| {
        assert n.listeners[i] in s.listeners;
      }
    }
  }

  lemma StepKeepsCounted(s: Bus, step: Step)
    requires Indexed(s) && Counted(s) && Enabled(s, step)
    ensures Counted(Next(s, step))
  {
    hide Inside;
    var n := Next(s, step);
    forall t | 0 <= t < |n.tokens| ensures n.tokens[t].executing == Inside(n.deliveries, t) {
      match step
      case Begin(d) => InsideChange(s.deliveries, d, n.deliveries[d], t);
      case Finish(d) =>
        InsideChange(s.deliveries, d, n.deliveries[d], t);
      case Emit(name) => InsideMore(s.deliveries, Targets(s.tokens, s.listeners, name), t);
      case Subscribe(name, domain) => if t == |s.tokens| { NewTokenNotInside(s.deliveries, t); }
      case _ =>
    }
  }

  lemma StepKeepsListed(s: Bus, step: Step)
    requires Indexed(s) && Listed(s) && Enabled(s, step)
    ensures Listed(Next(s, step))
  {
    match step
    case OffRun(k) => WithoutListed(s.listeners, s.offs[k].token);
    case Subscribe(name, domain) => DistinctCons(|s.tokens|, s.listeners);
    case _ =>
  }

  lemma StepKeepsHoused(s: Bus, step: Step)
    requires Indexed(s) && Listed(s) && Housed(s) && Enabled(s, step)
    ensures Indexed(Next(s, step)) && Housed(Next(s, step))
  {
    StepKeepsIndexed(s, step);
    var n := Next(s, step);
    forall i | 0 <= i < |n.listeners| && n.tokens[n.listeners[i]].domain.Some? ensures n.tokens[n.listeners[i]].domain.value in n.domains {
      var t := n.listeners[i];
      if step.OffRun? {
        WithoutListed(s.listeners, s.offs[step.k].token);
      }
      if t < |s.tokens| {
        assert t in s.listeners;
        var j :| 0 <= j < |s.listeners| && s.listeners[j] == t;
      }
    }
  }

  lemma StepKeepsCancelled(s: Bus, step: Step)
    requires Indexed(s) && Listed(s) && Cancelled(s) && Enabled(s, step)
    ensures Indexed(Next(s, step)) && Cancelled(Next(s, step))
  {
    StepKeepsIndexed(s, step);
  }

  lemma StepKeepsInv(s: Bus, step: Step)
    requires Inv(s) && Enabled(s, step)
    ensures Inv(Next(s, step))
  {
    hide Indexed, Counted, Listed, Housed, Cancelled, Next, Enabled;
    StepKeepsIndexed(s, step);
    StepKeepsCounted(s, step);
    StepKeepsListed(s, step);
    StepKeepsHoused(s, step);
    StepKeepsCancelled(s, step);
  }

  lemma StartInv(s: Bus)
    requires Start(s)
    ensures Inv(s)
  {
  }

  // ----- Runs -----

  /** `s` is reached from `start` by these steps, in any interleaving. */
  ghost predicate Reaches(start: Bus, steps: seq<Step>, s: Bus)
    decreases |steps|
  {
    if steps == [] then s == start
    else Indexed(start) && Enabled(start, steps[0]) && Reaches(Next(start, steps[0]), steps[1..], s)
  }

  lemma {:induction false} RunKeepsInv(start: Bus, steps: seq<Step>, s: Bus)
    requires Inv(start) && Reaches(start, steps, s)
    ensures Inv(s)
    decreases |steps|
  {
    hide Inv, Next, Enabled;
    if steps != [] {
      StepKeepsInv(start, steps[0]);
      RunKeepsInv(Next(start, steps[0]), steps[1..], s);
    }
  }

  /** In every interleaving, `executing` counts the threads inside the callback, subscribed means active, and domains in use stay. */
  lemma EveryRun(start: Bus, steps: seq<Step>, s: Bus)
    requires Start(start) && Reaches(start, steps, s)
    ensures Inv(s)
  {
    StartInv(start);
    RunKeepsInv(start, steps, s);
  }

  /** The token is cancelled and nobody is inside its callback. */
  predicate Quiet(s: Bus, t: nat) {
    t < |s.tokens| && !s.tokens[t].active && Delivery(t, Running) !in s.deliveries
  }

  lemma StepKeepsInactive(s: Bus, step: Step, t: nat)
    requires Indexed(s) && Enabled(s, step) && t < |s.tokens| && !s.tokens[t].active
    ensures var n := Next(s, step);
            && t < |n.tokens| && !n.tokens[t].active && n.tokens[t].executing <= s.tokens[t].executing
            && (Delivery(t, Running) in n.deliveries ==> Delivery(t, Running) in s.deliveries)
  {
  }

  /** Once cancelled, a token stays cancelled, and no thread enters its callback any more. */
  lemma {:induction false} StaysCancelled(s: Bus, steps: seq<Step>, u: Bus, t: nat)
    requires Inv(s) && t < |s.tokens| && !s.tokens[t].active && Reaches(s, steps, u)
    ensures t < |u.tokens| && !u.tokens[t].active && u.tokens[t].executing <= s.tokens[t].executing
    ensures Quiet(s, t) ==> Quiet(u, t)
    decreases |steps|
  {
    if steps != [] {
      StepKeepsInactive(s, steps[0], t);
      StepKeepsInv(s, steps[0]);
      StaysCancelled(Next(s, steps[0]), steps[1..], u, t);
    }
  }

  /**
   Safety of unsubscribing: after event_off_token has returned for a token and a
   drain of it returns later, no thread is ever inside its callback again.
   */
  lemma DrainedStaysQuiet(start: Bus, before: seq<Step>, cancelled: Bus, off: nat,
                          between: seq<Step>, s: Bus, drain: nat, after: seq<Step>, u: Bus)
    requires Start(start) && Reaches(start, before, cancelled)
    requires off < |cancelled.offs| && cancelled.offs[off].returned
    requires Reaches(cancelled, between, s) && Indexed(s) && Enabled(s, DrainReturn(drain))
    requires s.drains[drain].token == cancelled.offs[off].token
    requires Reaches(Next(s, DrainReturn(drain)), after, u)
    ensures Quiet(u, cancelled.offs[off].token)
  {
    var t := cancelled.offs[off].token;
    EveryRun(start, before, cancelled);
    RunKeepsInv(cancelled, between, s);
    StaysCancelled(cancelled, between, s, t);
    NotInside(s.deliveries, t);
    StepKeepsInactive(s, DrainReturn(drain), t);
    StepKeepsInv(s, DrainReturn(drain));
    StaysCancelled(Next(s, DrainReturn(drain)), after, u, t);
  }

  /** A drain that has to wait is waiting for a running callback, and each that finishes brings it closer. */
  lemma DrainWaitsForCallbacks(s: Bus, k: nat)
    requires Inv(s) && k < |s.drains| && !s.drains[k].returned && !Enabled(s, DrainReturn(k))
    ensures exists d :: 0 <= d < |s.deliveries| && s.deliveries[d] == Delivery(s.drains[k].token, Running) && Enabled(s, Finish(d))
                        && Next(s, Finish(d)).tokens[s.drains[k].token].executing == s.tokens[s.drains[k].token].executing - 1
  {
    var t := s.drains[k].token;
    NotInside(s.deliveries, t);
    var d :| 0 <= d < |s.deliveries| && s.deliveries[d] == Delivery(t, Running);
    assert Enabled(s, Finish(d));
  }

  /** Cancelling alone does not wait: it leaves the callback idle exactly when nobody was inside it. */
  lemma OffAloneQuietIff(s: Bus, k: nat)
    requires Inv(s) && Enabled(s, OffRun(k))
    ensures Quiet(Next(s, OffRun(k)), s.offs[k].token) <==> s.tokens[s.offs[k].token].executing == 0
  {
    NotInside(s.deliveries, s.offs[k].token);
  }

  // ----- Who hears an emission -----

  /** Strictly descending: the newest token first, and each once. */
  predicate Descending(ts: seq<nat>) {
    forall i, j :: 0 <= i < j < |ts| ==> ts[i] > ts[j]
  }

  lemma {:induction false} WithoutDescending(ts: seq<nat>, t: nat)
    requires Descending(ts)
    ensures Descending(Without(ts, t))
    ensures forall i :: 0 <= i < |Without(ts, t)| ==> Without(ts, t)[i] in ts
  {
    hide Descending;
    if ts != [] {
      DescendingTail(ts);
      if ts[0] != t {
        WithoutDescending(ts[1..], t);
        DescendingCons(ts[0], Without(ts[1..], t));
      }
    }
  }

  lemma DescendingTail(ts: seq<nat>)
    requires Descending(ts) && ts != []
    ensures Descending(ts[1..]) && forall x :: x in ts[1..] ==> x < ts[0]
  {
  }

  lemma DescendingCons(x: nat, ts: seq<nat>)
    requires Descending(ts) && forall i :: 0 <= i < |ts| ==> ts[i] < x
    ensures Descending([x] + ts)
  {
  }

  lemma StepKeepsDescending(s: Bus, step: Step)
    requires Indexed(s) && Descending(s.listeners) && Enabled(s, step)
    ensures Descending(Next(s, step).listeners)
  {
    if step.OffRun? {
      WithoutDescending(s.listeners, s.offs[step.k].token);
    }
  }

  lemma {:induction false} RunKeepsDescending(start: Bus, steps: seq<Step>, s: Bus)
    requires Inv(start) && Descending(start.listeners) && Reaches(start, steps, s)
    ensures Descending(s.listeners)
    decreases |steps|
  {
    hide Inv, Next, Enabled, Descending, Indexed;
    if steps != [] {
      StepKeepsDescending(start, steps[0]);
      StepKeepsInv(start, steps[0]);
      RunKeepsDescending(Next(start, steps[0]), steps[1..], s);
    }
  }

  /** The new deliveries, for the listeners in their order. */
  lemma {:induction false} TargetsAre(tokens: seq<Token>, listeners: seq<nat>, name: Name)
    requires forall i :: 0 <= i < |listeners| ==> listeners[i] < |tokens|
    ensures forall t: nat :: Delivery(t, Pending) in Targets(tokens, listeners, name) <==> t in listeners && tokens[t].name == name
    ensures Descending(listeners) ==>
              forall i, j :: 0 <= i < j < |Targets(tokens, listeners, name)| ==> Targets(tokens, listeners, name)[i].token > Targets(tokens, listeners, name)[j].token
  {
    if listeners != [] {
      var rest := Targets(tokens, listeners[1..], name);
      TargetsAre(tokens, listeners[1..], name);
      assert listeners == [listeners[0]] + listeners[1..];
      assert Descending(listeners) ==> Descending(listeners[1..]) && forall x :: x in listeners[1..] ==> x < listeners[0];
      assert Targets(tokens, listeners, name) == (if tokens[listeners[0]].name == name then [Delivery(listeners[0], Pending)] else []) + rest;
    }
  }

  /**
   In every interleaving an emission adds exactly one delivery for each active token
   of that name and none for any other, the newest subscriber's first.
   */
  lemma EmissionReachesActive(start: Bus, steps: seq<Step>, s: Bus, name: Name)
    requires Start(start) && Reaches(start, steps, s)
    ensures Indexed(s) && Enabled(s, Emit(name))
    ensures var n, old_ := Next(s, Emit(name)), |s.deliveries|;
            && |n.deliveries| >= old_ && n == s.(deliveries := n.deliveries) && n.deliveries[..old_] == s.deliveries
            && (forall t :: 0 <= t < |s.tokens| ==>
                  (Delivery(t, Pending) in n.deliveries[old_..] <==> s.tokens[t].active && s.tokens[t].name == name))
            && (forall i, j :: old_ <= i < j < |n.deliveries| ==> n.deliveries[i].token > n.deliveries[j].token)
            && (forall i :: old_ <= i < |n.deliveries| ==> n.deliveries[i].phase == Pending && n.deliveries[i].token < |s.tokens|)
  {
    hide Counted, Housed, Cancelled, Targets, Reaches;
    EveryRun(start, steps, s);
    StartInv(start);
    RunKeepsDescending(start, steps, s);
    TargetsAre(s.tokens, s.listeners, name);
    var n, more := Next(s, Emit(name)), Targets(s.tokens, s.listeners, name);
    assert n.deliveries[|s.deliveries|..] == more;
    assert forall i :: |s.deliveries| <= i < |n.deliveries| ==> n.deliveries[i] == more[i - |s.deliveries|];
  }

  /** A delivery that begins enters the callback exactly when its token is still active. */
  lemma EntersIff(s: Bus, d: nat)
    requires Indexed(s) && Enabled(s, Begin(d))
    ensures Next(s, Begin(d)).deliveries[d].phase == Running <==> s.tokens[s.deliveries[d].token].active
    ensures Next(s, Begin(d)).deliveries[d].phase in {Running, Done}
  {
  }

  /** What ends a subscription: its own cancellation and the shutdown, and nothing else. */
  lemma StaysActiveIff(s: Bus, step: Step, t: nat)
    requires Inv(s) && Enabled(s, step) && t < |s.tokens| && s.tokens[t].active
    ensures Next(s, step).tokens[t].active <==> !(step.OffRun? && s.offs[step.k].token == t) && !(step.Shutdown? && s.open)
    ensures Next(s, step).tokens[t].name == s.tokens[t].name && Next(s, step).tokens[t].domain == s.tokens[t].domain
  {
  }

  /** Subscribing makes exactly one token, active from then on, when the store is open and the domain, if any, is registered; otherwise it changes nothing. */
  lemma SubscribesIff(s: Bus, name: Name, domain: Option<Name>)
    requires Inv(s)
    ensures var n := Next(s, Subscribe(name, domain));
            if s.open && (domain.None? || domain.value in s.domains) then
              && |n.tokens| == |s.tokens| + 1 && n.tokens[..|s.tokens|] == s.tokens
              && n.tokens[|s.tokens|].active && n.tokens[|s.tokens|].name == name && n.tokens[|s.tokens|].domain == domain
            else n == s
  {
  }

  /** A domain goes exactly when it is unregistered, no ordinary listener uses it and no active token delivers in it, or at the shutdown. */
  lemma DomainGoesIff(s: Bus, step: Step, name: Name)
    requires Inv(s) && Enabled(s, step) && name in s.domains
    ensures name !in Next(s, step).domains
            <==> (step.Shutdown? && s.open)
                 || (step.DomainUnregister? && step.name == name && !step.busy
                     && forall t :: 0 <= t < |s.tokens| && s.tokens[t].active ==> s.tokens[t].domain != Some(name))
  {
    if step.DomainUnregister? {
      if t :| 0 <= t < |s.tokens| && s.tokens[t].active && s.tokens[t].domain == Some(step.name) {
        assert t in s.listeners;
        var i :| 0 <= i < |s.listeners| && s.listeners[i] == t;
        assert DomainInUse(s, step.name);
      }
      if DomainInUse(s, step.name) {
        var i :| 0 <= i < |s.listeners| && s.tokens[s.listeners[i]].domain == Some(step.name);
        assert s.listeners[i] in s.listeners;
      }
    }
  }

  /** A domain comes exactly when it is registered, with a name, while the store exists; and the store exists from an initialisation to the next shutdown. */
  lemma DomainComesIff(s: Bus, step: Step, name: Name)
    requires Inv(s) && Enabled(s, step) && name !in s.domains
    ensures name in Next(s, step).domains <==> step == DomainRegister(name) && s.open && name != []
    ensures Next(s, step).open <==> !step.Shutdown? && (s.open || step.Init?)
  {
  }

  /** A drain returns exactly by its own step, and a cancelling call exactly by its own step or at once when it finds its token inactive. */
  lemma ReturnsIff(s: Bus, step: Step, k: nat)
    requires Inv(s) && Enabled(s, step)
    ensures var n := Next(s, step);
            && (k < |s.drains| ==> n.drains[k].token == s.drains[k].token && (n.drains[k].returned <==> s.drains[k].returned || step == DrainReturn(k)))
            && (k < |s.offs| ==> n.offs[k].token == s.offs[k].token && (n.offs[k].returned <==> s.offs[k].returned || step == OffRun(k)))
            && (|n.drains| > |s.drains| <==> step.DrainCall?)
            && (step.DrainCall? ==> n.drains == s.drains + [Drain(step.t, false)])
            && (|n.offs| > |s.offs| <==> step.OffCall?)
            && (step.OffCall? ==> n.offs == s.offs + [Off(step.t, !s.tokens[step.t].active)])
  {
  }
}
