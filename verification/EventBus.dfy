/**
 The registry of text and binary listeners, the tokens that own them, and the
 named execution domains, for one thread at a time.

 Callbacks, user pointers and dispatchers are numbers, and zero is the null
 pointer.  Serial numbers record which registration a listener or token came from;
 the program has none.
 */
module EventBus {
  import opened Bytes

  type Name = CStr

  datatype Listener = Listener(cb: nat, user: nat, dispatch: nat, dispatchUser: nat, marked: bool, serial: nat)

  datatype Entry = Entry(text: seq<Listener>, binary: seq<Listener>, generation: nat)

  datatype Token = Token(event: Name, binary: bool, cb: nat, user: nat, generation: nat, active: bool, serial: nat)

  datatype Domain = Domain(name: Name, dispatch: nat, user: nat)

  datatype Registry = Registry(open: bool, store: map<Name, Entry>, tokens: seq<Token>, domains: seq<Domain>, serial: nat)

  const NOMATCH: Name := ['N' as int, 'O' as int, 'M' as int, 'A' as int, 'T' as int, 'C' as int, 'H' as int]

  // ----- Listener lists -----

  predicate Same(l: Listener, cb: nat, user: nat) {
    l.cb == cb && l.user == user
  }

  function FirstSame(ls: seq<Listener>, cb: nat, user: nat): (i: nat)
    ensures i <= |ls| && (i < |ls| ==> Same(ls[i], cb, user)) && forall k :: 0 <= k < i ==> !Same(ls[k], cb, user)
  {
    if ls == [] || Same(ls[0], cb, user) then 0 else 1 + FirstSame(ls[1..], cb, user)
  }

  function RemoveAt<T>(s: seq<T>, i: nat): (r: seq<T>)
    requires i < |s|
    ensures |r| == |s| - 1
  {
    s[..i] + s[i + 1..]
  }

  /** Zero matches every callback or user. */
  predicate Selected(l: Listener, cb: nat, user: nat) {
    (cb == 0 || l.cb == cb) && (user == 0 || l.user == user)
  }

  function Unselected(ls: seq<Listener>, cb: nat, user: nat): seq<Listener> {
    if ls == [] then []
    else (if Selected(ls[0], cb, user) then [] else [ls[0]]) + Unselected(ls[1..], cb, user)
  }

  predicate Uses(l: Listener, dispatch: nat, user: nat) {
    l.dispatch == dispatch && l.dispatchUser == user
  }

  function Marked(ls: seq<Listener>, cb: nat, user: nat, dispatch: nat, dispatchUser: nat): (r: seq<Listener>)
    ensures |r| == |ls|
  {
    if ls == [] then []
    else
      [if Same(ls[0], cb, user) && Uses(ls[0], dispatch, dispatchUser) then ls[0].(marked := true) else ls[0]]
      + Marked(ls[1..], cb, user, dispatch, dispatchUser)
  }

  // ----- Entries -----

  function Lane(e: Entry, binary: bool): seq<Listener> {
    if binary then e.binary else e.text
  }

  function WithLane(e: Entry, binary: bool, ls: seq<Listener>): Entry {
    if binary then e.(binary := ls) else e.(text := ls)
  }

  function EntryOf(store: map<Name, Entry>, event: Name): Entry {
    if event in store then store[event] else Entry([], [], 0)
  }

  function LaneOf(s: Registry, event: Name, binary: bool): seq<Listener> {
    Lane(EntryOf(s.store, event), binary)
  }

  /** Entries without listeners are dropped. */
  function Put(store: map<Name, Entry>, event: Name, e: Entry): map<Name, Entry> {
    if e.text == [] && e.binary == [] then store - {event} else store[event := e]
  }

  // ----- Operations -----

  /** After event_init. */
  const FRESH := Registry(true, map[], [], [], 0)

  function Append(s: Registry, event: Name, l: Listener, binary: bool, bump: bool): Registry {
    var e := EntryOf(s.store, event);
    var n := WithLane(e, binary, Lane(e, binary) + [l]);
    s.(store := s.store[event := if bump then n.(generation := n.generation + 1) else n], serial := s.serial + 1)
  }

  /** Registration without a token; only the text one bumps the generation. */
  function On(s: Registry, event: Name, binary: bool, cb: nat, user: nat, dispatch: nat, dispatchUser: nat): Registry {
    if cb == 0 || !s.open then s
    else Append(s, event, Listener(cb, user, dispatch, dispatchUser, false, s.serial), binary, !binary)
  }

  /** Registration with a token, which is the index of the new token. */
  function OnToken(s: Registry, event: Name, binary: bool, cb: nat, user: nat, dispatch: nat, dispatchUser: nat): (Registry, Option<nat>) {
    if cb == 0 || !s.open then (s, None)
    else
      var n := Append(s, event, Listener(cb, user, dispatch, dispatchUser, false, s.serial), binary, true);
      (n.(tokens := s.tokens + [Token(event, binary, cb, user, n.store[event].generation, true, s.serial)]), Some(|s.tokens|))
  }

  /** Drops the first listener with the token's callback and user; neither the generation nor, again, `active` is looked at. */
  function OffLocked(s: Registry, t: nat): Registry
    requires t < |s.tokens|
  {
    var tok := s.tokens[t];
    var tokens := s.tokens[t := tok.(active := false)];
    if !s.open || tok.event !in s.store then s.(tokens := tokens)
    else
      var e := s.store[tok.event];
      var ls := Lane(e, tok.binary);
      var i := FirstSame(ls, tok.cb, tok.user);
      var n := if i < |ls| then WithLane(e, tok.binary, RemoveAt(ls, i)).(generation := e.generation + 1) else e;
      s.(tokens := tokens, store := Put(s.store, tok.event, n))
  }

  /** `active` is looked at before the lock is taken; nobody comes in between here. */
  function OffToken(s: Registry, t: nat): Registry {
    if t >= |s.tokens| || !s.tokens[t].active then s else OffLocked(s, t)
  }

  /** Wildcard removal; tokens and generation stay as they are. */
  function Off(s: Registry, event: Name, binary: bool, cb: nat, user: nat): Registry {
    if !s.open || event !in s.store then s
    else
      var e := s.store[event];
      s.(store := Put(s.store, event, WithLane(e, binary, Unselected(Lane(e, binary), cb, user))))
  }

  function FindDomain(domains: seq<Domain>, name: Name): (i: nat)
    ensures i <= |domains| && (i < |domains| ==> domains[i].name == name) && forall k :: 0 <= k < i ==> domains[k].name != name
  {
    if domains == [] || domains[0].name == name then 0 else 1 + FindDomain(domains[1..], name)
  }

  predicate AnyUses(ls: seq<Listener>, dispatch: nat, user: nat) {
    exists l :: l in ls && Uses(l, dispatch, user)
  }

  predicate InUse(s: Registry, dispatch: nat, user: nat) {
    exists event, binary :: event in s.store && AnyUses(Lane(s.store[event], binary), dispatch, user)
  }

  function DomainRegister(s: Registry, name: Name, dispatch: nat, user: nat): (Registry, bool) {
    if name == [] || dispatch == 0 || !s.open || FindDomain(s.domains, name) < |s.domains| then (s, false)
    else (s.(domains := [Domain(name, dispatch, user)] + s.domains), true)
  }

  /** `named` is whether a message listener names the domain; those listeners are in MessageTokens. */
  function DomainUnregister(s: Registry, name: Name, named: bool): (Registry, bool) {
    var i := FindDomain(s.domains, name);
    if i == |s.domains| || named || InUse(s, s.domains[i].dispatch, s.domains[i].user) then (s, false)
    else (s.(domains := RemoveAt(s.domains, i)), true)
  }

  /** The last section of a domain registration; it makes an entry where there is none. */
  function Mark(s: Registry, event: Name, cb: nat, user: nat, dispatch: nat, dispatchUser: nat): Registry {
    if !s.open then s
    else
      var e := EntryOf(s.store, event);
      s.(store := s.store[event := e.(text := Marked(e.text, cb, user, dispatch, dispatchUser))])
  }

  /** A domain registration that nobody interrupts. */
  function DomainToken(s: Registry, event: Name, cb: nat, user: nat, domain: Name): (Registry, Option<nat>) {
    var i := FindDomain(s.domains, domain);
    if cb == 0 || i == |s.domains| || s.domains[i].dispatch == 0 then (s, None)
    else
      var d := s.domains[i];
      var (n, t) := OnToken(s, event, false, cb, user, d.dispatch, d.user);
      if t.None? then (n, None) else (Mark(n, event, cb, user, d.dispatch, d.user), t)
  }

  /** The binary form, uninterrupted: it looks up and registers, and marks nothing. */
  function BinaryDomainToken(s: Registry, event: Name, cb: nat, user: nat, domain: Name): (Registry, Option<nat>) {
    var i := FindDomain(s.domains, domain);
    if cb == 0 || i == |s.domains| || s.domains[i].dispatch == 0 then (s, None)
    else OnToken(s, event, true, cb, user, s.domains[i].dispatch, s.domains[i].user)
  }

  function Shutdown(s: Registry): Registry {
    if s.open then s.(open := false, store := map[], domains := []) else s
  }

  /** event_init: a closed registry opens with nothing in it. */
  function Reopen(s: Registry): Registry {
    if s.open then s else s.(open := true, store := map[])
  }

  /** Whom an emission calls, in order: the event's text listeners, or those of NOMATCH. */
  function Fired(s: Registry, event: Name): seq<Listener> {
    if LaneOf(s, event, false) != [] then LaneOf(s, event, false) else LaneOf(s, NOMATCH, false)
  }

  // ----- The bus itself -----

  lemma MarkStep(all: seq<Listener>, i: nat, cb: nat, user: nat, d: nat, v: nat)
    requires i < |all|
    ensures Marked(all[i..], cb, user, d, v)
            == [if Same(all[i], cb, user) && Uses(all[i], d, v) then all[i].(marked := true) else all[i]] + Marked(all[i + 1..], cb, user, d, v)
  {
    assert all[i..][0] == all[i] && all[i..][1..] == all[i + 1..];
  }

  lemma MarkNothing(cb: nat, user: nat, d: nat, v: nat)
    ensures Marked([], cb, user, d, v) == []
  {
  }

  lemma Snoc<T>(a: seq<T>, x: T, b: seq<T>)
    ensures a + ([x] + b) == (a + [x]) + b
  {
  }

  lemma DiscardStep(ls: seq<Listener>, i: nat, cb: nat, user: nat)
    requires i < |ls|
    ensures Selected(ls[i], cb, user) ==>
              ls[..i] + Unselected(ls[i..], cb, user) == RemoveAt(ls, i)[..i] + Unselected(RemoveAt(ls, i)[i..], cb, user)
    ensures !Selected(ls[i], cb, user) ==>
              ls[..i] + Unselected(ls[i..], cb, user) == ls[..i + 1] + Unselected(ls[i + 1..], cb, user)
  {
    assert ls[i..] == [ls[i]] + ls[i + 1..];
    assert RemoveAt(ls, i)[..i] == ls[..i] && RemoveAt(ls, i)[i..] == ls[i + 1..];
    assert ls[..i + 1] == ls[..i] + [ls[i]];
  }

  /** Each method is one call; its body follows the sections the program locks. */
  class Bus {
    var open: bool
    var store: map<Name, Entry>
    var tokens: seq<Token>
    var domains: seq<Domain>
    var serial: nat

    ghost function State(): Registry
      reads this
    {
      Registry(open, store, tokens, domains, serial)
    }

    constructor ()
      ensures State() == FRESH
    {
      open, store, tokens, domains, serial := true, map[], [], [], 0;
    }

    method Register(event: Name, binary: bool, cb: nat, user: nat, dispatch: nat, dispatchUser: nat)
      modifies this
      ensures State() == On(old(State()), event, binary, cb, user, dispatch, dispatchUser)
      ensures cb != 0 && open ==>
                && event in store
                && store[event].text == old(Hearing(State(), event)) + (if binary then [] else [Listener(cb, user, dispatch, dispatchUser, false, old(serial))])
                && store[event].binary == old(EntryOf(store, event).binary) + (if binary then [Listener(cb, user, dispatch, dispatchUser, false, old(serial))] else [])
                && store[event].generation == old(EntryOf(store, event).generation) + (if binary then 0 else 1)
    {
      if cb == 0 || !open {
        return;
      }
      var e := if event in store then store[event] else Entry([], [], 0);
      var l := Listener(cb, user, dispatch, dispatchUser, false, serial);
      if binary {
        e := e.(binary := e.binary + [l]);
      } else {
        e := e.(text := e.text + [l]);
        e := e.(generation := e.generation + 1);
      }
      store := store[event := e];
      serial := serial + 1;
    }

    method RegisterToken(event: Name, binary: bool, cb: nat, user: nat, dispatch: nat, dispatchUser: nat) returns (token: Option<nat>)
      modifies this
      ensures (State(), token) == OnToken(old(State()), event, binary, cb, user, dispatch, dispatchUser)
      ensures cb != 0 && open ==>
                && event in store
                && store[event].text == old(Hearing(State(), event)) + (if binary then [] else [Listener(cb, user, dispatch, dispatchUser, false, old(serial))])
                && store[event].binary == old(EntryOf(store, event).binary) + (if binary then [Listener(cb, user, dispatch, dispatchUser, false, old(serial))] else [])
                && store[event].generation == old(EntryOf(store, event).generation) + 1
                && tokens[|old(tokens)|] == Token(event, binary, cb, user, store[event].generation, true, old(serial))
    {
      if cb == 0 || !open {
        return None;
      }
      var e := if event in store then store[event] else Entry([], [], 0);
      var l := Listener(cb, user, dispatch, dispatchUser, false, serial);
      if binary {
        e := e.(binary := e.binary + [l]);
      } else {
        e := e.(text := e.text + [l]);
      }
      e := e.(generation := e.generation + 1);
      store := store[event := e];
      token := Some(|tokens|);
      tokens := tokens + [Token(event, binary, cb, user, e.generation, true, serial)];
      serial := serial + 1;
    }

    method UnregisterToken(t: nat)
      modifies this
      ensures State() == OffToken(old(State()), t)
    {
      if t >= |tokens| || !tokens[t].active {
        return;
      }
      var tok := tokens[t];
      if open && tok.event in store {
        var e := store[tok.event];
        var ls := Lane(e, tok.binary);
        var i := Search(ls, tok.cb, tok.user);
        if i < |ls| {
          e := WithLane(e, tok.binary, ls[..i] + ls[i + 1..]);
          e := e.(generation := e.generation + 1);
        }
        StoreOrDrop(tok.event, e);
      }
      tokens := tokens[t := tok.(active := false)];
    }

    method Search(ls: seq<Listener>, cb: nat, user: nat) returns (i: nat)
      ensures i == FirstSame(ls, cb, user)
    {
      i := 0;
      while i < |ls| && !(ls[i].cb == cb && ls[i].user == user)
        invariant i <= |ls| && FirstSame(ls, cb, user) == i + FirstSame(ls[i..], cb, user)
      {
        assert ls[i..][1..] == ls[i + 1..];
        i := i + 1;
      }
    }

    method StoreOrDrop(event: Name, e: Entry)
      modifies this`store
      ensures store == Put(old(store), event, e)
    {
      if |e.text| == 0 && |e.binary| == 0 {
        store := store - {event};
      } else {
        store := store[event := e];
      }
    }

    /** The wildcard removal; the loop stays at its index when it removes. */
    method Unregister(event: Name, binary: bool, cb: nat, user: nat)
      modifies this
      ensures State() == Off(old(State()), event, binary, cb, user)
    {
      if !open || event !in store {
        return;
      }
      var e := store[event];
      var ls := Discard(Lane(e, binary), cb, user);
      StoreOrDrop(event, WithLane(e, binary, ls));
    }

    method Discard(all: seq<Listener>, cb: nat, user: nat) returns (ls: seq<Listener>)
      ensures ls == Unselected(all, cb, user)
    {
      ls := all;
      var i := 0;
      while i < |ls|
        invariant i <= |ls| && Unselected(all, cb, user) == ls[..i] + Unselected(ls[i..], cb, user)
        decreases |ls| - i
      {
        var l := ls[i];
        DiscardStep(ls, i, cb, user);
        if (cb == 0 || l.cb == cb) && (user == 0 || l.user == user) {
          ls := ls[..i] + ls[i + 1..];
        } else {
          i := i + 1;
        }
      }
      assert ls[..i] == ls && ls[i..] == [];
    }

    method SearchDomain(name: Name) returns (i: nat)
      ensures i == FindDomain(domains, name)
    {
      i := 0;
      while i < |domains| && domains[i].name != name
        invariant i <= |domains| && FindDomain(domains, name) == i + FindDomain(domains[i..], name)
      {
        assert domains[i..][1..] == domains[i + 1..];
        i := i + 1;
      }
    }

    method RegisterDomain(name: Name, dispatch: nat, user: nat) returns (ok: bool)
      modifies this
      ensures (State(), ok) == DomainRegister(old(State()), name, dispatch, user)
    {
      if name == [] || dispatch == 0 || !open {
        return false;
      }
      var i := SearchDomain(name);
      if i < |domains| {
        return false;
      }
      domains := [Domain(name, dispatch, user)] + domains;
      ok := true;
    }

    method UnregisterDomain(name: Name, named: bool) returns (ok: bool)
      modifies this
      ensures (State(), ok) == DomainUnregister(old(State()), name, named)
    {
      var i := SearchDomain(name);
      if i == |domains| || named {
        return false;
      }
      var d := domains[i];
      var events := store.Keys;
      while events != {}
        invariant events <= store.Keys
        invariant forall e, b :: e in store.Keys - events ==> !AnyUses(Lane(store[e], b), d.dispatch, d.user)
        decreases events
        modifies {}
      {
        var event :| event in events;
        var text := Scan(store[event].text, d.dispatch, d.user);
        var binary := Scan(store[event].binary, d.dispatch, d.user);
        if text || binary {
          assert AnyUses(Lane(store[event], !text), d.dispatch, d.user);
          return false;
        }
        events := events - {event};
      }
      domains := domains[..i] + domains[i + 1..];
      ok := true;
    }

    method Scan(ls: seq<Listener>, dispatch: nat, user: nat) returns (found: bool)
      ensures found == AnyUses(ls, dispatch, user)
    {
      for i := 0 to |ls|
        invariant forall l :: l in ls[..i] ==> !Uses(l, dispatch, user)
      {
        if ls[i].dispatch == dispatch && ls[i].dispatchUser == user {
          assert ls[i] in ls && Uses(ls[i], dispatch, user);
          return true;
        }
        assert ls[..i + 1] == ls[..i] + [ls[i]];
      }
      assert ls[..|ls|] == ls;
      found := false;
    }

    /** Look up the dispatcher, register, then mark: three sections, here with nobody in between. */
    method RegisterDomainToken(event: Name, cb: nat, user: nat, domain: Name) returns (token: Option<nat>)
      modifies this
      ensures (State(), token) == DomainToken(old(State()), event, cb, user, domain)
    {
      if cb == 0 {
        return None;
      }
      var i := SearchDomain(domain);
      if i == |domains| || domains[i].dispatch == 0 {
        return None;
      }
      var d := domains[i];
      token := RegisterToken(event, false, cb, user, d.dispatch, d.user);
      if token.Some? {
        MarkDelivery(event, cb, user, d.dispatch, d.user);
      }
    }

    /** Look up the dispatcher, then register: two sections, here with nobody in between. */
    method RegisterBinaryDomainToken(event: Name, cb: nat, user: nat, domain: Name) returns (token: Option<nat>)
      modifies this
      ensures (State(), token) == BinaryDomainToken(old(State()), event, cb, user, domain)
    {
      if cb == 0 {
        return None;
      }
      var i := SearchDomain(domain);
      if i == |domains| || domains[i].dispatch == 0 {
        return None;
      }
      var d := domains[i];
      token := RegisterToken(event, true, cb, user, d.dispatch, d.user);
    }

    method MarkDelivery(event: Name, cb: nat, user: nat, dispatch: nat, dispatchUser: nat)
      modifies this
      ensures State() == Mark(old(State()), event, cb, user, dispatch, dispatchUser)
    {
      if !open {
        return;
      }
      var e := if event in store then store[event] else Entry([], [], 0);
      var ls := MarkAll(e.text, cb, user, dispatch, dispatchUser);
      store := store[event := e.(text := ls)];
    }

    method MarkAll(all: seq<Listener>, cb: nat, user: nat, dispatch: nat, dispatchUser: nat) returns (ls: seq<Listener>)
      ensures ls == Marked(all, cb, user, dispatch, dispatchUser)
    {
      hide Marked;
      ls := [];
      for i := 0 to |all|
        invariant Marked(all, cb, user, dispatch, dispatchUser) == ls + Marked(all[i..], cb, user, dispatch, dispatchUser)
      {
        var l := all[i];
        MarkStep(all, i, cb, user, dispatch, dispatchUser);
        if l.cb == cb && l.user == user && l.dispatch == dispatch && l.dispatchUser == dispatchUser {
          l := l.(marked := true);
        }
        Snoc(ls, l, Marked(all[i + 1..], cb, user, dispatch, dispatchUser));
        ls := ls + [l];
      }
      MarkNothing(cb, user, dispatch, dispatchUser);
      assert all[|all|..] == [];
    }

    /** Whom the emission calls; the list is copied under the lock before any callback. */
    method Emit(event: Name) returns (called: seq<Listener>)
      requires open || store == map[]
      ensures called == Fired(State(), event)
      ensures event in store && store[event].text != [] ==> called == store[event].text
      ensures (event in store ==> store[event].text == []) ==> called == if NOMATCH in store then store[NOMATCH].text else []
    {
      called := [];
      if open && event in store {
        called := store[event].text;
      }
      if |called| > 0 {
        return;
      }
      if open && NOMATCH in store {
        called := store[NOMATCH].text;
      }
    }

    /** A binary emission calls the event's binary listeners and knows no NOMATCH. */
    method EmitBinary(event: Name) returns (called: seq<Listener>)
      requires open || store == map[]
      ensures called == if event in store then store[event].binary else []
    {
      called := [];
      if open && event in store {
        called := store[event].binary;
      }
    }

    method Open()
      modifies this
      ensures State() == Reopen(old(State()))
      ensures open && store == (if old(open) then old(store) else map[]) && domains == old(domains) && tokens == old(tokens)
    {
      if !open {
        open, store := true, map[];
      }
    }

    method Close()
      modifies this
      ensures State() == Shutdown(old(State()))
      ensures !open && tokens == old(tokens)
      ensures if old(open) then store == map[] && domains == [] else store == old(store) && domains == old(domains)
    {
      if open {
        open, store, domains := false, map[], [];
      }
    }
  }

  // ----- Sequential runs -----

  datatype Op =
    | OpOn(event: Name, binary: bool, cb: nat, user: nat, dispatch: nat, dispatchUser: nat)
    | OpOnToken(event: Name, binary: bool, cb: nat, user: nat, dispatch: nat, dispatchUser: nat)
    | OpOffToken(t: nat)
    | OpDomainRegister(name: Name, dispatch: nat, dispatchUser: nat)
    | OpDomainUnregister(name: Name, named: bool)
    | OpDomainToken(event: Name, cb: nat, user: nat, domain: Name)

  function Apply(s: Registry, op: Op): Registry {
    match op
    case OpOn(e, b, c, u, d, v) => On(s, e, b, c, u, d, v)
    case OpOnToken(e, b, c, u, d, v) => OnToken(s, e, b, c, u, d, v).0
    case OpOffToken(t) => OffToken(s, t)
    case OpDomainRegister(n, d, v) => DomainRegister(s, n, d, v).0
    case OpDomainUnregister(n, named) => DomainUnregister(s, n, named).0
    case OpDomainToken(e, c, u, n) => DomainToken(s, e, c, u, n).0
  }

  function Run(s: Registry, ops: seq<Op>): Registry
    decreases |ops|
  {
    if ops == [] then s else Run(Apply(s, ops[0]), ops[1..])
  }

  /** What else a program may call: wildcard removal, shutdown and initialisation. */
  datatype Call =
    | Do(op: Op)
    | Wildcard(event: Name, binary: bool, cb: nat, user: nat)
    | Close
    | Open

  function Perform(s: Registry, c: Call): Registry {
    match c
    case Do(op) => Apply(s, op)
    case Wildcard(e, b, c, u) => Off(s, e, b, c, u)
    case Close => Shutdown(s)
    case Open => Reopen(s)
  }

  function RunAll(s: Registry, calls: seq<Call>): Registry
    decreases |calls|
  {
    if calls == [] then s else RunAll(Perform(s, calls[0]), calls[1..])
  }

  /** What a registration is known by. */
  datatype Key = Key(event: Name, binary: bool, cb: nat, user: nat)

  function Matching(ls: seq<Listener>, cb: nat, user: nat): nat {
    if ls == [] then 0 else (if Same(ls[0], cb, user) then 1 else 0) + Matching(ls[1..], cb, user)
  }

  function Listed(s: Registry, k: Key): nat {
    Matching(LaneOf(s, k.event, k.binary), k.cb, k.user)
  }

  predicate Owns(t: Token, k: Key) {
    t.active && t.event == k.event && t.binary == k.binary && t.cb == k.cb && t.user == k.user
  }

  function Active(ts: seq<Token>, k: Key): nat {
    if ts == [] then 0 else (if Owns(ts[0], k) then 1 else 0) + Active(ts[1..], k)
  }

  /** Registrations of the key made without a token. */
  function Tokenless(ops: seq<Op>, k: Key): nat {
    if ops == [] then 0
    else
      (if ops[0].OpOn? && k.cb != 0 && Key(ops[0].event, ops[0].binary, ops[0].cb, ops[0].user) == k then 1 else 0)
      + Tokenless(ops[1..], k)
  }

  lemma {:induction false} MatchingAppend(ls: seq<Listener>, l: Listener, cb: nat, user: nat)
    ensures Matching(ls + [l], cb, user) == Matching(ls, cb, user) + if Same(l, cb, user) then 1 else 0
  {
    if ls == [] {
      assert [] + [l] == [l];
    } else {
      MatchingAppend(ls[1..], l, cb, user);
      assert (ls + [l])[1..] == ls[1..] + [l];
    }
  }

  lemma {:induction false} MatchingRemove(ls: seq<Listener>, i: nat, cb: nat, user: nat)
    requires i < |ls|
    ensures Matching(RemoveAt(ls, i), cb, user) + (if Same(ls[i], cb, user) then 1 else 0) == Matching(ls, cb, user)
  {
    if i == 0 {
      assert RemoveAt(ls, 0) == ls[1..];
    } else {
      MatchingRemove(ls[1..], i - 1, cb, user);
      assert RemoveAt(ls, i)[1..] == RemoveAt(ls[1..], i - 1);
      assert RemoveAt(ls, i)[0] == ls[0];
    }
  }

  lemma {:induction false} MatchingFound(ls: seq<Listener>, cb: nat, user: nat)
    ensures Matching(ls, cb, user) > 0 <==> FirstSame(ls, cb, user) < |ls|
  {
    if ls != [] {
      MatchingFound(ls[1..], cb, user);
    }
  }

  lemma {:induction false} MatchingMarked(ls: seq<Listener>, c: nat, u: nat, d: nat, v: nat, cb: nat, user: nat)
    ensures Matching(Marked(ls, c, u, d, v), cb, user) == Matching(ls, cb, user)
  {
    if ls != [] {
      MatchingMarked(ls[1..], c, u, d, v, cb, user);
    }
  }

  lemma {:induction false} ActiveAppend(ts: seq<Token>, t: Token, k: Key)
    ensures Active(ts + [t], k) == Active(ts, k) + if Owns(t, k) then 1 else 0
  {
    if ts == [] {
      assert [] + [t] == [t];
    } else {
      ActiveAppend(ts[1..], t, k);
      assert (ts + [t])[1..] == ts[1..] + [t];
    }
  }

  lemma {:induction false} ActiveOff(ts: seq<Token>, i: nat, k: Key)
    requires i < |ts|
    ensures Active(ts[i := ts[i].(active := false)], k) + (if Owns(ts[i], k) then 1 else 0) == Active(ts, k)
  {
    var off := ts[i].(active := false);
    if i == 0 {
      assert ts[0 := off][1..] == ts[1..];
    } else {
      ActiveOff(ts[1..], i - 1, k);
      assert ts[i := off][1..] == ts[1..][i - 1 := off];
    }
  }

  /** As many listeners as active tokens and tokenless registrations. */
  predicate Balanced(s: Registry, k: Key, tokenless: nat) {
    Listed(s, k) == Active(s.tokens, k) + tokenless
  }

  lemma OnBalanced(s: Registry, op: Op, k: Key, n: nat)
    requires op.OpOn? && s.open && Balanced(s, k, n)
    ensures Balanced(Apply(s, op), k, n + Tokenless([op], k))
  {
    MatchingAppend(LaneOf(s, op.event, op.binary), Listener(op.cb, op.user, op.dispatch, op.dispatchUser, false, s.serial), k.cb, k.user);
  }

  lemma OnTokenBalanced(s: Registry, event: Name, binary: bool, cb: nat, user: nat, d: nat, v: nat, k: Key, n: nat)
    requires s.open && Balanced(s, k, n)
    ensures Balanced(OnToken(s, event, binary, cb, user, d, v).0, k, n)
  {
    if cb != 0 {
      MatchingAppend(LaneOf(s, event, binary), Listener(cb, user, d, v, false, s.serial), k.cb, k.user);
      var r := OnToken(s, event, binary, cb, user, d, v).0;
      ActiveAppend(s.tokens, r.tokens[|s.tokens|], k);
    }
  }

  lemma MarkBalanced(s: Registry, event: Name, cb: nat, user: nat, d: nat, v: nat, k: Key, n: nat)
    requires Balanced(s, k, n)
    ensures Balanced(Mark(s, event, cb, user, d, v), k, n)
  {
    MatchingMarked(EntryOf(s.store, event).text, cb, user, d, v, k.cb, k.user);
  }

  /** The counts of the token's own key tell that there is a listener to drop. */
  lemma OffTokenBalanced(s: Registry, t: nat, k: Key, n: nat, own: nat)
    requires s.open && Balanced(s, k, n)
    requires t < |s.tokens| ==> var x := s.tokens[t]; Balanced(s, Key(x.event, x.binary, x.cb, x.user), own)
    ensures Balanced(OffToken(s, t), k, n)
  {
    hide RemoveAt, Matching, Active, FirstSame;
    if t < |s.tokens| && s.tokens[t].active {
      var tok := s.tokens[t];
      var ls := LaneOf(s, tok.event, tok.binary);
      var i := FirstSame(ls, tok.cb, tok.user);
      ActiveOff(s.tokens, t, k);
      ActiveOff(s.tokens, t, Key(tok.event, tok.binary, tok.cb, tok.user));
      MatchingFound(ls, tok.cb, tok.user);
      MatchingRemove(ls, i, k.cb, k.user);
    }
  }

  /** The ledger of every key after some operations. */
  ghost predicate Ledger(s: Registry, ops: seq<Op>) {
    forall k: Key :: Balanced(s, k, Tokenless(ops, k))
  }

  lemma {:induction false} TokenlessAppend(ops: seq<Op>, op: Op, k: Key)
    ensures Tokenless(ops + [op], k) == Tokenless(ops, k) + Tokenless([op], k)
  {
    if ops == [] {
      assert [] + [op] == [op];
    } else {
      TokenlessAppend(ops[1..], op, k);
      assert (ops + [op])[1..] == ops[1..] + [op];
    }
  }

  lemma StepKeepsLedger(s: Registry, ops: seq<Op>, op: Op)
    requires s.open && Ledger(s, ops)
    ensures Apply(s, op).open && Ledger(Apply(s, op), ops + [op])
  {
    hide Balanced, On, OffToken, OnToken, Mark;
    forall k: Key ensures Balanced(Apply(s, op), k, Tokenless(ops + [op], k)) {
      var n := Tokenless(ops, k);
      assert Balanced(s, k, n);
      TokenlessAppend(ops, op, k);
      match op
      case OpOn(e, b, c, u, d, v) => OnBalanced(s, op, k, n);
      case OpOnToken(e, b, c, u, d, v) => OnTokenBalanced(s, e, b, c, u, d, v, k, n);
      case OpOffToken(t) =>
        if t < |s.tokens| {
          var x := s.tokens[t];
          OffTokenBalanced(s, t, k, n, Tokenless(ops, Key(x.event, x.binary, x.cb, x.user)));
        } else {
          OffTokenBalanced(s, t, k, n, 0);
        }
      case OpDomainToken(e, c, u, name) =>
        var i := FindDomain(s.domains, name);
        if i < |s.domains| {
          var d := s.domains[i];
          OnTokenBalanced(s, e, false, c, u, d.dispatch, d.user, k, n);
          MarkBalanced(OnToken(s, e, false, c, u, d.dispatch, d.user).0, e, c, u, d.dispatch, d.user, k, n);
        }
      case _ => SameListeners(s, op, k, n);
    }
    StaysOpen(s, op);
  }

  lemma StaysOpen(s: Registry, op: Op)
    ensures Apply(s, op).open == s.open
  {
  }

  lemma SameListeners(s: Registry, op: Op, k: Key, n: nat)
    requires op.OpDomainRegister? || op.OpDomainUnregister?
    requires Balanced(s, k, n)
    ensures Balanced(Apply(s, op), k, n)
  {
  }

  lemma {:induction false} RunKeepsLedger(s: Registry, done: seq<Op>, ops: seq<Op>)
    requires s.open && Ledger(s, done)
    ensures Ledger(Run(s, ops), done + ops)
    decreases |ops|
  {
    hide Ledger, Apply;
    if ops == [] {
      assert done + [] == done;
    } else {
      StepKeepsLedger(s, done, ops[0]);
      RunKeepsLedger(Apply(s, ops[0]), done + [ops[0]], ops[1..]);
      assert done + [ops[0]] + ops[1..] == done + ops;
    }
  }

  /** In every run, for every event, callback and user: listeners are active tokens plus tokenless registrations. */
  lemma ListenersAreRegistrations(ops: seq<Op>, k: Key)
    ensures Listed(Run(FRESH, ops), k) == Active(Run(FRESH, ops).tokens, k) + Tokenless(ops, k)
  {
    assert Ledger(FRESH, []);
    RunKeepsLedger(FRESH, [], ops);
    assert [] + ops == ops;
    assert Balanced(Run(FRESH, ops), k, Tokenless(ops, k));
  }

  lemma EmptyLane(ls: seq<Listener>)
    requires forall cb, user :: Matching(ls, cb, user) == 0
    ensures ls == []
  {
    if ls != [] {
      assert Matching(ls, ls[0].cb, ls[0].user) > 0;
    }
  }

  lemma EmptyFallsBack(s: Registry, event: Name)
    requires forall cb, user :: Listed(s, Key(event, false, cb, user)) == 0
    ensures Fired(s, event) == LaneOf(s, NOMATCH, false)
  {
    var ls := LaneOf(s, event, false);
    forall cb, user ensures Matching(ls, cb, user) == 0 {
      assert Listed(s, Key(event, false, cb, user)) == 0;
    }
    EmptyLane(ls);
  }

  lemma ListedIsFired(s: Registry, k: Key)
    requires !k.binary && Listed(s, k) > 0
    ensures Matching(Fired(s, k.event), k.cb, k.user) == Listed(s, k)
  {
  }

  /**
   In every run an emission calls a callback and user once for each of its active
   tokens and tokenless registrations for that event; an event for which nobody is
   registered calls so those registered for NOMATCH.
   */
  lemma EmissionReaches(ops: seq<Op>, event: Name, cb: nat, user: nat)
    ensures var s := Run(FRESH, ops);
            var k := Key(event, false, cb, user);
            var due := Active(s.tokens, k) + Tokenless(ops, k);
            due > 0 ==> Matching(Fired(s, event), cb, user) == due
    ensures var s := Run(FRESH, ops);
            var m := Key(['N' as int, 'O' as int, 'M' as int, 'A' as int, 'T' as int, 'C' as int, 'H' as int], false, cb, user);
            (forall c, u :: var k := Key(event, false, c, u); Active(s.tokens, k) + Tokenless(ops, k) == 0)
            ==> Matching(Fired(s, event), cb, user) == Active(s.tokens, m) + Tokenless(ops, m)
  {
    hide Fired, Listed, Matching, Active, Tokenless, Run;
    var s := Run(FRESH, ops);
    var k := Key(event, false, cb, user);
    ListenersAreRegistrations(ops, k);
    ListenersAreRegistrations(ops, Key(NOMATCH, false, cb, user));
    if Listed(s, k) > 0 {
      ListedIsFired(s, k);
    }
    if forall c, u :: var x := Key(event, false, c, u); Active(s.tokens, x) + Tokenless(ops, x) == 0 {
      forall c, u ensures Listed(s, Key(event, false, c, u)) == 0 {
        ListenersAreRegistrations(ops, Key(event, false, c, u));
        assert var x := Key(event, false, c, u); Active(s.tokens, x) + Tokenless(ops, x) == 0;
      }
      EmptyFallsBack(s, event);
      ListedIsMatching(s, Key(NOMATCH, false, cb, user));
    }
  }

  lemma ListedIsMatching(s: Registry, k: Key)
    ensures Listed(s, k) == Matching(LaneOf(s, k.event, k.binary), k.cb, k.user)
  {
  }

  /** The text listeners an event has. */
  function Hearing(s: Registry, event: Name): seq<Listener> {
    if event in s.store then s.store[event].text else []
  }

  /** A new text listener, with or without a token, is the last one its event's next emission calls; other events with listeners of their own, and every event once the new one is not for NOMATCH, call whom they did before. */
  lemma NewestIsCalledLast(s: Registry, event: Name, cb: nat, user: nat, d: nat, v: nat, other: Name)
    requires s.open && cb != 0
    ensures var l := Listener(cb, user, d, v, false, s.serial);
            && Fired(On(s, event, false, cb, user, d, v), event) == Hearing(s, event) + [l]
            && Fired(OnToken(s, event, false, cb, user, d, v).0, event) == Hearing(s, event) + [l]
    ensures other != event && (event != NOMATCH || Hearing(s, other) != []) ==>
              && Fired(On(s, event, false, cb, user, d, v), other) == Fired(s, other)
              && Fired(OnToken(s, event, false, cb, user, d, v).0, other) == Fired(s, other)
    ensures other != NOMATCH && Hearing(s, other) == [] ==>
              Fired(On(s, NOMATCH, false, cb, user, d, v), other) == Hearing(s, NOMATCH) + [Listener(cb, user, d, v, false, s.serial)]
    ensures Fired(On(s, event, true, cb, user, d, v), other) == Fired(s, other)
  {
  }

  /** A domain is added exactly with a name that no other has and a dispatcher, to an open registry. */
  lemma DomainRegistersIff(s: Registry, name: Name, dispatch: nat, user: nat)
    ensures var (n, ok) := DomainRegister(s, name, dispatch, user);
            && (ok <==> s.open && name != [] && dispatch != 0 && forall i :: 0 <= i < |s.domains| ==> s.domains[i].name != name)
            && n == if ok then s.(domains := [Domain(name, dispatch, user)] + s.domains) else s
  {
  }

  /** A domain goes exactly when there is one of that name, no message listener names it and no listener of either kind uses its dispatcher. */
  lemma DomainUnregistersIff(s: Registry, name: Name, named: bool)
    ensures var (n, ok) := DomainUnregister(s, name, named);
            && (ok <==> !named && exists i :: 0 <= i < |s.domains| && Unused(s, name, i))
            && (ok ==> exists i :: 0 <= i < |s.domains| && Unused(s, name, i) && n == s.(domains := s.domains[..i] + s.domains[i + 1..]))
            && (!ok ==> n == s)
  {
    var i := FindDomain(s.domains, name);
    if i < |s.domains| {
      InUseIff(s, s.domains[i].dispatch, s.domains[i].user);
      assert Unused(s, name, i) <==> !InUse(s, s.domains[i].dispatch, s.domains[i].user);
    }
  }

  predicate In(e: Entry, l: Listener) {
    l in e.text || l in e.binary
  }

  /** Domain `i` is the first of that name, and nobody uses its dispatcher. */
  ghost predicate Unused(s: Registry, name: Name, i: nat)
    requires i < |s.domains|
  {
    var d := s.domains[i];
    && d.name == name && (forall j :: 0 <= j < i ==> s.domains[j].name != name)
    && forall event, l :: event in s.store && In(s.store[event], l) ==> !(l.dispatch == d.dispatch && l.dispatchUser == d.user)
  }

  lemma InUseIff(s: Registry, dispatch: nat, user: nat)
    ensures InUse(s, dispatch, user)
            <==> exists event, l :: event in s.store && In(s.store[event], l) && l.dispatch == dispatch && l.dispatchUser == user
  {
    if event, l :| event in s.store && In(s.store[event], l) && l.dispatch == dispatch && l.dispatchUser == user {
      assert Uses(l, dispatch, user);
      if l in s.store[event].text {
        assert AnyUses(Lane(s.store[event], false), dispatch, user);
      } else {
        assert AnyUses(Lane(s.store[event], true), dispatch, user);
      }
    }
  }

  lemma {:induction false} UnselectedAre(ls: seq<Listener>, cb: nat, user: nat, l: Listener)
    ensures l in Unselected(ls, cb, user) <==> l in ls && ((cb != 0 && l.cb != cb) || (user != 0 && l.user != user))
  {
    if ls != [] {
      UnselectedAre(ls[1..], cb, user, l);
      assert ls == [ls[0]] + ls[1..];
    }
  }

  /** A wildcard removal keeps exactly the listeners of the event whose callback or user is another than the one given, and touches nothing else. */
  lemma OffKeeps(s: Registry, event: Name, binary: bool, cb: nat, user: nat, l: Listener, other: Name, lane: bool)
    requires s.open
    ensures var n := Off(s, event, binary, cb, user);
            && (l in LaneOf(n, event, binary) <==> l in LaneOf(s, event, binary) && ((cb != 0 && l.cb != cb) || (user != 0 && l.user != user)))
            && (other != event || lane != binary ==> LaneOf(n, other, lane) == LaneOf(s, other, lane))
            && n == s.(store := n.store)
  {
    UnselectedAre(LaneOf(s, event, binary), cb, user, l);
  }

  predicate Spent(s: Registry, t: nat) {
    t < |s.tokens| && !s.tokens[t].active
  }

  lemma StaysSpent(s: Registry, c: Call, t: nat)
    requires Spent(s, t)
    ensures Spent(Perform(s, c), t)
  {
  }

  /** Once cancelled, a token is never active again, whatever is called, and cancelling it at any later time changes nothing. */
  lemma {:induction false} CancelledForGood(s: Registry, t: nat, calls: seq<Call>)
    requires Spent(s, t)
    ensures Spent(RunAll(s, calls), t)
    ensures OffToken(RunAll(s, calls), t) == RunAll(s, calls)
    decreases |calls|
  {
    hide Spent, Perform;
    if calls != [] {
      StaysSpent(s, calls[0], t);
      CancelledForGood(Perform(s, calls[0]), t, calls[1..]);
    } else {
      SpentIdle(s, t);
    }
  }

  lemma SpentIdle(s: Registry, t: nat)
    requires Spent(s, t)
    ensures OffToken(s, t) == s
  {
  }

  lemma OffSpends(s: Registry, t: nat)
    requires t < |s.tokens|
    ensures Spent(OffToken(s, t), t)
  {
  }

  /** So of two cancellations, however far apart, only the first does anything. */
  lemma OffTokenTwice(s: Registry, t: nat, calls: seq<Call>)
    requires t < |s.tokens|
    ensures OffToken(RunAll(OffToken(s, t), calls), t) == RunAll(OffToken(s, t), calls)
  {
    OffSpends(s, t);
    CancelledForGood(OffToken(s, t), t, calls);
  }

  // ----- No empty entry -----

  predicate NoEmpty(s: Registry) {
    forall e :: e in s.store ==> s.store[e].text != [] || s.store[e].binary != []
  }

  lemma StepKeepsNoEmpty(s: Registry, op: Op)
    requires NoEmpty(s)
    ensures NoEmpty(Apply(s, op))
  {
  }

  lemma WildcardKeepsNoEmpty(s: Registry, event: Name, binary: bool, cb: nat, user: nat)
    requires NoEmpty(s)
    ensures NoEmpty(Off(s, event, binary, cb, user))
  {
  }

  lemma {:induction false} RunKeepsNoEmpty(s: Registry, calls: seq<Call>)
    requires NoEmpty(s)
    ensures NoEmpty(RunAll(s, calls))
    decreases |calls|
  {
    hide NoEmpty, Apply, Off;
    if calls != [] {
      match calls[0] {
        case Do(op) => StepKeepsNoEmpty(s, op);
        case Wildcard(e, b, c, u) => WildcardKeepsNoEmpty(s, e, b, c, u);
        case _ => NoEmptyNothing(s, Perform(s, calls[0]));
      }
      RunKeepsNoEmpty(Perform(s, calls[0]), calls[1..]);
    }
  }

  lemma NoEmptyNothing(s: Registry, n: Registry)
    requires NoEmpty(s) && (n.store == s.store || n.store == map[])
    ensures NoEmpty(n)
  {
  }

  /** The marking section leaves an empty entry exactly when there was one, or the event's entry went away before it ran. */
  lemma MarkKeepsNoEmptyIff(s: Registry, event: Name, cb: nat, user: nat, d: nat, v: nat)
    requires s.open
    ensures NoEmpty(Mark(s, event, cb, user, d, v)) <==> NoEmpty(s) && event in s.store
  {
    var n := Mark(s, event, cb, user, d, v);
    if event !in s.store {
      assert n.store[event] == Entry([], [], 0);
    } else if NoEmpty(n) {
      assert |n.store[event].text| == |s.store[event].text|;
      forall e | e in s.store ensures s.store[e].text != [] || s.store[e].binary != [] {
        assert e in n.store;
      }
    }
  }

  // ----- Registration order and ownership -----

  predicate Ascending(ls: seq<Listener>, bound: nat) {
    && (forall i :: 0 <= i < |ls| ==> ls[i].serial < bound)
    && (forall i, j :: 0 <= i < j < |ls| ==> ls[i].serial < ls[j].serial)
  }

  /** Every list is in the order of registration. */
  predicate Ordered(s: Registry) {
    forall e, b :: e in s.store ==> Ascending(Lane(s.store[e], b), s.serial)
  }

  lemma {:induction false} UnselectedAscending(ls: seq<Listener>, cb: nat, user: nat, bound: nat)
    requires Ascending(ls, bound)
    ensures Ascending(Unselected(ls, cb, user), bound)
    ensures forall l :: l in Unselected(ls, cb, user) ==> l in ls
  {
    hide Ascending;
    if ls != [] {
      AscendingTail(ls, bound);
      UnselectedAscending(ls[1..], cb, user, bound);
      assert ls == [ls[0]] + ls[1..];
      if Selected(ls[0], cb, user) {
        assert Unselected(ls, cb, user) == Unselected(ls[1..], cb, user);
      } else {
        AscendingCons(ls[0], Unselected(ls[1..], cb, user), bound);
      }
    } else {
      AscendingNothing(bound);
    }
  }

  lemma AscendingNothing(bound: nat)
    ensures Ascending([], bound)
  {
  }

  lemma AscendingTail(ls: seq<Listener>, bound: nat)
    requires ls != [] && Ascending(ls, bound)
    ensures ls[0].serial < bound && Ascending(ls[1..], bound) && forall l :: l in ls[1..] ==> ls[0].serial < l.serial
  {
  }

  lemma AscendingCons(l: Listener, ls: seq<Listener>, bound: nat)
    requires l.serial < bound && Ascending(ls, bound) && forall m :: m in ls ==> l.serial < m.serial
    ensures Ascending([l] + ls, bound)
  {
    forall j | 0 < j < |ls| + 1 ensures l.serial < ([l] + ls)[j].serial {
      assert ls[j - 1] in ls;
    }
  }

  lemma {:induction false} MarkedKeeps(ls: seq<Listener>, c: nat, u: nat, d: nat, v: nat)
    ensures forall i :: 0 <= i < |ls| ==> var m := Marked(ls, c, u, d, v)[i];
              m == ls[i] || (Uses(ls[i], d, v) && m == ls[i].(marked := true))
  {
    if ls != [] {
      MarkedKeeps(ls[1..], c, u, d, v);
    }
  }

  lemma AscendingMore(ls: seq<Listener>, l: Listener, bound: nat)
    requires (ls == [] || Ascending(ls, bound)) && l.serial == bound
    ensures Ascending(ls, bound + 1) && Ascending(ls + [l], bound + 1)
  {
  }

  lemma AppendOrdered(s: Registry, event: Name, l: Listener, binary: bool, bump: bool)
    requires Ordered(s) && l.serial == s.serial
    ensures Ordered(Append(s, event, l, binary, bump))
  {
    hide Ascending;
    var n := Append(s, event, l, binary, bump);
    forall e, b | e in n.store ensures Ascending(Lane(n.store[e], b), n.serial) {
      var ls := LaneOf(s, e, b);
      assert e in s.store ==> Ascending(Lane(s.store[e], b), s.serial);
      AscendingMore(ls, l, s.serial);
    }
  }

  lemma MarkOrdered(s: Registry, event: Name, cb: nat, user: nat, d: nat, v: nat)
    requires Ordered(s)
    ensures Ordered(Mark(s, event, cb, user, d, v))
  {
    var n := Mark(s, event, cb, user, d, v);
    MarkedKeeps(EntryOf(s.store, event).text, cb, user, d, v);
    forall e, b | e in n.store ensures Ascending(Lane(n.store[e], b), n.serial) {
      assert e in s.store ==> Ascending(Lane(s.store[e], b), s.serial);
    }
  }

  lemma PutOrdered(s: Registry, n: Registry, event: Name, e: Entry)
    requires Ordered(s) && n.store == Put(s.store, event, e) && n.serial == s.serial
    requires Ascending(e.text, s.serial) && Ascending(e.binary, s.serial)
    ensures Ordered(n)
  {
    hide Ascending;
    forall x, b | x in n.store ensures Ascending(Lane(n.store[x], b), n.serial) {
      assert x in s.store ==> Ascending(Lane(s.store[x], b), s.serial);
    }
  }

  lemma RemoveAscending(ls: seq<Listener>, i: nat, bound: nat)
    requires i < |ls| && Ascending(ls, bound)
    ensures Ascending(RemoveAt(ls, i), bound)
  {
  }

  lemma OffTokenOrdered(s: Registry, t: nat)
    requires Ordered(s)
    ensures Ordered(OffToken(s, t))
  {
    hide Ascending, RemoveAt, Put;
    if t < |s.tokens| && s.tokens[t].active && s.open && s.tokens[t].event in s.store {
      var tok := s.tokens[t];
      var e := s.store[tok.event];
      assert Ascending(Lane(e, false), s.serial) && Ascending(Lane(e, true), s.serial);
      var ls := Lane(e, tok.binary);
      var i := FirstSame(ls, tok.cb, tok.user);
      if i < |ls| {
        RemoveAscending(ls, i, s.serial);
      }
      var n := if i < |ls| then WithLane(e, tok.binary, RemoveAt(ls, i)).(generation := e.generation + 1) else e;
      PutOrdered(s, OffToken(s, t), tok.event, n);
    }
  }

  lemma StepKeepsOrdered(s: Registry, op: Op)
    requires Ordered(s)
    ensures Ordered(Apply(s, op))
  {
    hide Ordered, Append, Mark, OffToken;
    match op
    case OpOn(e, b, c, u, d, v) => AppendOrdered(s, e, Listener(c, u, d, v, false, s.serial), b, !b);
    case OpOnToken(e, b, c, u, d, v) =>
      OnTokenOrdered(s, e, b, c, u, d, v);
    case OpOffToken(t) => OffTokenOrdered(s, t);
    case OpDomainToken(e, c, u, name) =>
      var i := FindDomain(s.domains, name);
      if i < |s.domains| {
        var d := s.domains[i];
        OnTokenOrdered(s, e, false, c, u, d.dispatch, d.user);
        MarkOrdered(OnToken(s, e, false, c, u, d.dispatch, d.user).0, e, c, u, d.dispatch, d.user);
      }
    case _ => SameStoreOrdered(s, Apply(s, op));
  }

  lemma OnTokenOrdered(s: Registry, event: Name, binary: bool, cb: nat, user: nat, d: nat, v: nat)
    requires Ordered(s)
    ensures Ordered(OnToken(s, event, binary, cb, user, d, v).0)
  {
    hide Append, Ordered;
    var l := Listener(cb, user, d, v, false, s.serial);
    AppendOrdered(s, event, l, binary, true);
    SameStoreOrdered(Append(s, event, l, binary, true), OnToken(s, event, binary, cb, user, d, v).0);
  }

  lemma SameStoreOrdered(s: Registry, n: Registry)
    ensures n.store == s.store && n.serial == s.serial && Ordered(s) ==> Ordered(n)
  {
  }

  lemma WildcardKeepsOrdered(s: Registry, event: Name, binary: bool, cb: nat, user: nat)
    requires Ordered(s)
    ensures Ordered(Off(s, event, binary, cb, user))
  {
    if s.open && event in s.store {
      var e := s.store[event];
      assert Ascending(Lane(e, false), s.serial) && Ascending(Lane(e, true), s.serial);
      UnselectedAscending(Lane(e, binary), cb, user, s.serial);
      PutOrdered(s, Off(s, event, binary, cb, user), event, WithLane(e, binary, Unselected(Lane(e, binary), cb, user)));
    }
  }

  lemma {:induction false} RunKeepsOrdered(s: Registry, calls: seq<Call>)
    requires Ordered(s)
    ensures Ordered(RunAll(s, calls))
    decreases |calls|
  {
    hide Ordered, Apply, Off;
    if calls != [] {
      match calls[0] {
        case Do(op) => StepKeepsOrdered(s, op);
        case Wildcard(e, b, c, u) => WildcardKeepsOrdered(s, e, b, c, u);
        case _ => OrderedNothing(s, Perform(s, calls[0]));
      }
      RunKeepsOrdered(Perform(s, calls[0]), calls[1..]);
    }
  }

  lemma OrderedNothing(s: Registry, n: Registry)
    requires Ordered(s) && (n.store == s.store || n.store == map[]) && n.serial == s.serial
    ensures Ordered(n)
  {
  }

  /** In every run, wildcards, shutdowns and restarts included, an emission calls its listeners in the order they registered, and no empty entry is left. */
  lemma EmissionOrder(calls: seq<Call>, event: Name)
    ensures var f := Fired(RunAll(FRESH, calls), event);
            forall i, j :: 0 <= i < j < |f| ==> f[i].serial < f[j].serial
    ensures NoEmpty(RunAll(FRESH, calls))
  {
    assert Ordered(FRESH);
    RunKeepsOrdered(FRESH, calls);
    RunKeepsNoEmpty(FRESH, calls);
    var s := RunAll(FRESH, calls);
    assert event in s.store ==> Ascending(Lane(s.store[event], false), s.serial);
    assert NOMATCH in s.store ==> Ascending(Lane(s.store[NOMATCH], false), s.serial);
  }

  /**
   A token is meant to own exactly one listener.  Cancelling it drops that very
   listener exactly when no listener before it has the same callback and user,
   whatever their dispatchers.
   */
  lemma OwnListenerDroppedIff(s: Registry, t: nat, k: nat)
    requires s.open && Ordered(s) && t < |s.tokens| && s.tokens[t].active
    requires var x := s.tokens[t]; k < |LaneOf(s, x.event, x.binary)|
    requires var x := s.tokens[t]; var l := LaneOf(s, x.event, x.binary)[k]; l.serial == x.serial && Same(l, x.cb, x.user)
    ensures var x := s.tokens[t]; var ls := LaneOf(s, x.event, x.binary);
            LaneOf(OffToken(s, t), x.event, x.binary) == RemoveAt(ls, k) <==> forall i :: 0 <= i < k ==> !Same(ls[i], x.cb, x.user)
  {
    var x := s.tokens[t];
    var ls := LaneOf(s, x.event, x.binary);
    var i := FirstSame(ls, x.cb, x.user);
    assert Ascending(Lane(s.store[x.event], x.binary), s.serial);
    assert LaneOf(OffToken(s, t), x.event, x.binary) == RemoveAt(ls, i);
    if i < k {
      assert RemoveAt(ls, k)[i] == ls[i];
      assert RemoveAt(ls, i)[i] == ls[i + 1];
    }
  }

  /** Two tokens that differ in their dispatchers: cancelling the second drops the first one's listener. */
  lemma OtherDispatcherDropped(event: Name, cb: nat, user: nat, a: nat, b: nat)
    requires cb != 0 && a != b
    ensures var s1 := OnToken(FRESH, event, false, cb, user, a, 0).0;
            var s2 := OnToken(s1, event, false, cb, user, b, 0).0;
            var s3 := OffToken(s2, 1);
            && |s3.tokens| == 2 && s3.tokens[0].active && !s3.tokens[1].active
            && LaneOf(s3, event, false) == [Listener(cb, user, b, 0, false, 1)]
  {
    var la, lb := Listener(cb, user, a, 0, false, 0), Listener(cb, user, b, 0, false, 1);
    var s1 := OnToken(FRESH, event, false, cb, user, a, 0).0;
    var s2 := OnToken(s1, event, false, cb, user, b, 0).0;
    assert LaneOf(s1, event, false) == [la];
    assert LaneOf(s2, event, false) == [la, lb];
    assert FirstSame([la, lb], cb, user) == 0;
    assert RemoveAt([la, lb], 0) == [lb];
  }

  /** The locked part of a cancellation leaves the list alone exactly when no listener has the token's callback and user, active or not. */
  lemma OffLockedHarmlessIff(s: Registry, t: nat)
    requires s.open && t < |s.tokens|
    ensures var x := s.tokens[t];
            LaneOf(OffLocked(s, t), x.event, x.binary) == LaneOf(s, x.event, x.binary)
            <==> Listed(s, Key(x.event, x.binary, x.cb, x.user)) == 0
  {
    var x := s.tokens[t];
    MatchingFound(LaneOf(s, x.event, x.binary), x.cb, x.user);
  }

  /** So a token whose listener a wildcard already removed does nothing exactly when no other listener has its callback and user. */
  lemma StaleTokenHarmlessIff(s: Registry, t: nat)
    requires s.open && t < |s.tokens| && s.tokens[t].active
    ensures var x := s.tokens[t];
            LaneOf(OffToken(s, t), x.event, x.binary) == LaneOf(s, x.event, x.binary)
            <==> Listed(s, Key(x.event, x.binary, x.cb, x.user)) == 0
  {
    OffLockedHarmlessIff(s, t);
  }

  /** So a stale token can take another token's listener: here the second token stays active with nothing listed. */
  lemma StaleTokenTakesAnother(event: Name, cb: nat, user: nat)
    requires cb != 0
    ensures var s1 := OnToken(FRESH, event, false, cb, user, 0, 0).0;
            var s2 := OnToken(Off(s1, event, false, cb, 0), event, false, cb, user, 0, 0).0;
            var s3 := OffToken(s2, 0);
            s3.tokens[1].active && LaneOf(s2, event, false) != [] && LaneOf(s3, event, false) == []
  {
    var s1 := OnToken(FRESH, event, false, cb, user, 0, 0).0;
    assert LaneOf(s1, event, false) == [Listener(cb, user, 0, 0, false, 0)];
    assert Unselected(LaneOf(s1, event, false), cb, 0) == [];
    var s2 := OnToken(Off(s1, event, false, cb, 0), event, false, cb, user, 0, 0).0;
    assert LaneOf(s2, event, false) == [Listener(cb, user, 0, 0, false, 1)];
  }

  // ----- Domains -----

  predicate HasDomain(s: Registry, dispatch: nat, user: nat) {
    exists i :: 0 <= i < |s.domains| && s.domains[i].dispatch == dispatch && s.domains[i].user == user
  }

  /** A listener marked as delivering in a domain uses a registered domain's dispatcher. */
  predicate Hosted(s: Registry) {
    forall e, i :: e in s.store && 0 <= i < |s.store[e].text| && s.store[e].text[i].marked
                   ==> HasDomain(s, s.store[e].text[i].dispatch, s.store[e].text[i].dispatchUser)
  }

  /** The text list of the event has a listener that the marking section would mark. */
  predicate Attached(s: Registry, event: Name, cb: nat, user: nat, d: nat, v: nat) {
    exists i :: 0 <= i < |EntryOf(s.store, event).text| && Meant(EntryOf(s.store, event).text[i], cb, user, d, v)
  }

  predicate Meant(l: Listener, cb: nat, user: nat, d: nat, v: nat) {
    Same(l, cb, user) && Uses(l, d, v)
  }

  lemma {:induction false} MarkedAt(ls: seq<Listener>, cb: nat, user: nat, d: nat, v: nat, i: nat)
    requires i < |ls|
    ensures Marked(ls, cb, user, d, v)[i] == if Meant(ls[i], cb, user, d, v) then ls[i].(marked := true) else ls[i]
  {
    if i > 0 {
      MarkedAt(ls[1..], cb, user, d, v, i - 1);
    }
  }

  /** The marking section leaves every marked listener with a domain exactly when the dispatcher's domain is registered or nobody is left to mark. */
  lemma MarkHostedIff(s: Registry, event: Name, cb: nat, user: nat, d: nat, v: nat)
    requires s.open
    ensures Hosted(Mark(s, event, cb, user, d, v)) <==> Hosted(s) && (HasDomain(s, d, v) || !Attached(s, event, cb, user, d, v))
  {
    var n := Mark(s, event, cb, user, d, v);
    var ls := EntryOf(s.store, event).text;
    forall i | 0 <= i < |ls|
      ensures n.store[event].text[i] == if Meant(ls[i], cb, user, d, v) then ls[i].(marked := true) else ls[i]
    {
      MarkedAt(ls, cb, user, d, v, i);
    }
    if Hosted(n) {
      forall e, i | e in s.store && 0 <= i < |s.store[e].text| && s.store[e].text[i].marked
        ensures HasDomain(s, s.store[e].text[i].dispatch, s.store[e].text[i].dispatchUser)
      {
        assert n.store[e].text[i].marked;
        assert HasDomain(n, n.store[e].text[i].dispatch, n.store[e].text[i].dispatchUser);
      }
      if Attached(s, event, cb, user, d, v) {
        var i :| 0 <= i < |ls| && Meant(ls[i], cb, user, d, v);
        assert n.store[event].text[i].marked;
        assert HasDomain(n, d, v);
      }
    }
  }

  /**
   The marking section is meant for the listener just registered, which is the
   last.  It touches no other exactly when every earlier one with that callback,
   user and dispatcher was marked before.
   */
  lemma MarksOnlyNewIff(s: Registry, event: Name, cb: nat, user: nat, d: nat, v: nat)
    requires s.open && cb != 0
    ensures var ls, n := LaneOf(s, event, false), OnToken(s, event, false, cb, user, d, v).0;
            var marked := LaneOf(Mark(n, event, cb, user, d, v), event, false);
            && |marked| == |ls| + 1 && marked[|ls|] == Listener(cb, user, d, v, true, s.serial)
            && (marked[..|ls|] == ls <==> forall i :: 0 <= i < |ls| && Meant(ls[i], cb, user, d, v) ==> ls[i].marked)
  {
    var ls, n := LaneOf(s, event, false), OnToken(s, event, false, cb, user, d, v).0;
    var marked := LaneOf(Mark(n, event, cb, user, d, v), event, false);
    var all := ls + [Listener(cb, user, d, v, false, s.serial)];
    assert LaneOf(n, event, false) == all;
    assert marked == Marked(all, cb, user, d, v);
    forall i | 0 <= i < |all|
      ensures marked[i] == if Meant(all[i], cb, user, d, v) then all[i].(marked := true) else all[i]
    {
      MarkedAt(all, cb, user, d, v, i);
    }
    if marked[..|ls|] == ls {
      forall i | 0 <= i < |ls| && Meant(ls[i], cb, user, d, v) ensures ls[i].marked {
        assert marked[..|ls|][i] == ls[i] && all[i] == ls[i];
      }
    } else {
      var i :| 0 <= i < |ls| && marked[..|ls|][i] != ls[i];
      assert all[i] == ls[i];
    }
  }

  lemma OnTokenHosted(s: Registry, event: Name, binary: bool, cb: nat, user: nat, d: nat, v: nat)
    requires Hosted(s)
    ensures Hosted(OnToken(s, event, binary, cb, user, d, v).0) && OnToken(s, event, binary, cb, user, d, v).0.domains == s.domains
  {
  }

  lemma DomainFound(s: Registry, i: nat)
    requires i < |s.domains|
    ensures HasDomain(s, s.domains[i].dispatch, s.domains[i].user)
  {
  }

  lemma MarkAfterOn(s: Registry, event: Name, cb: nat, user: nat, d: nat, v: nat)
    requires Hosted(s) && HasDomain(s, d, v)
    ensures var (n, t) := OnToken(s, event, false, cb, user, d, v);
            Hosted(n) && (t.Some? ==> Hosted(Mark(n, event, cb, user, d, v)))
  {
    hide Hosted, Attached;
    OnTokenHosted(s, event, false, cb, user, d, v);
    var (n, t) := OnToken(s, event, false, cb, user, d, v);
    if t.Some? {
      MarkHostedIff(n, event, cb, user, d, v);
    }
  }

  lemma UnregisterHosted(s: Registry, name: Name, named: bool)
    requires Hosted(s)
    ensures Hosted(DomainUnregister(s, name, named).0)
  {
    var i, n := FindDomain(s.domains, name), DomainUnregister(s, name, named).0;
    if n.domains != s.domains {
      var gone := s.domains[i];
      forall e, k | e in s.store && 0 <= k < |s.store[e].text| && s.store[e].text[k].marked
        ensures HasDomain(n, s.store[e].text[k].dispatch, s.store[e].text[k].dispatchUser)
      {
        var l := s.store[e].text[k];
        assert !AnyUses(Lane(s.store[e], false), gone.dispatch, gone.user);
        assert l in Lane(s.store[e], false);
        var j :| 0 <= j < |s.domains| && s.domains[j].dispatch == l.dispatch && s.domains[j].user == l.dispatchUser;
        assert n.domains[if j < i then j else j - 1] == s.domains[j];
      }
    }
  }

  lemma OnHosted(s: Registry, event: Name, binary: bool, cb: nat, user: nat, d: nat, v: nat)
    requires Hosted(s)
    ensures Hosted(On(s, event, binary, cb, user, d, v))
  {
  }

  lemma OffTokenHosted(s: Registry, t: nat)
    requires Hosted(s)
    ensures Hosted(OffToken(s, t))
  {
  }

  lemma RegisterHosted(s: Registry, name: Name, dispatch: nat, user: nat)
    requires Hosted(s)
    ensures Hosted(DomainRegister(s, name, dispatch, user).0)
  {
    var n := DomainRegister(s, name, dispatch, user).0;
    if n.domains != s.domains {
      assert forall i :: 0 <= i < |s.domains| ==> n.domains[i + 1] == s.domains[i];
    }
  }

  lemma StepKeepsHosted(s: Registry, op: Op)
    requires Hosted(s)
    ensures Hosted(Apply(s, op))
  {
    hide Hosted, On, OnToken, OffToken, DomainRegister, DomainUnregister, Mark;
    match op
    case OpOn(e, b, c, u, d, v) => OnHosted(s, e, b, c, u, d, v);
    case OpOnToken(e, b, c, u, d, v) => OnTokenHosted(s, e, b, c, u, d, v);
    case OpOffToken(t) => OffTokenHosted(s, t);
    case OpDomainRegister(name, d, v) => RegisterHosted(s, name, d, v);
    case OpDomainUnregister(name, named) => UnregisterHosted(s, name, named);
    case OpDomainToken(e, c, u, name) =>
      var i := FindDomain(s.domains, name);
      if i < |s.domains| {
        var d := s.domains[i];
        DomainFound(s, i);
        MarkAfterOn(s, e, c, u, d.dispatch, d.user);
      }
  }

  lemma {:induction false} UnselectedFrom(ls: seq<Listener>, cb: nat, user: nat)
    ensures forall l :: l in Unselected(ls, cb, user) ==> l in ls
  {
    if ls != [] {
      UnselectedFrom(ls[1..], cb, user);
      assert ls == [ls[0]] + ls[1..];
    }
  }

  lemma WildcardKeepsHosted(s: Registry, event: Name, binary: bool, cb: nat, user: nat)
    requires Hosted(s)
    ensures Hosted(Off(s, event, binary, cb, user))
  {
    if s.open && event in s.store {
      var n := Off(s, event, binary, cb, user);
      UnselectedFrom(s.store[event].text, cb, user);
      forall e, i | e in n.store && 0 <= i < |n.store[e].text| && n.store[e].text[i].marked
        ensures HasDomain(n, n.store[e].text[i].dispatch, n.store[e].text[i].dispatchUser)
      {
        assert n.store[e].text[i] in s.store[e].text;
      }
    }
  }

  lemma HostedNothing(s: Registry, n: Registry)
    requires Hosted(s) && ((n.store == s.store && n.domains == s.domains) || n.store == map[])
    ensures Hosted(n)
  {
  }

  /** In every sequential run, wildcards, shutdowns and restarts included, a domain stays registered while a listener delivers in it. */
  lemma {:induction false} DomainsStay(s: Registry, calls: seq<Call>)
    requires Hosted(s)
    ensures Hosted(RunAll(s, calls))
    decreases |calls|
  {
    hide Hosted, Apply, Off;
    if calls != [] {
      CallKeepsHosted(s, calls[0]);
      DomainsStay(Perform(s, calls[0]), calls[1..]);
    }
  }

  lemma CallKeepsHosted(s: Registry, c: Call)
    requires Hosted(s)
    ensures Hosted(Perform(s, c))
  {
    hide Hosted, Apply, Off;
    match c
    case Do(op) => StepKeepsHosted(s, op);
    case Wildcard(e, b, c, u) => WildcardKeepsHosted(s, e, b, c, u);
    case _ => HostedNothing(s, Perform(s, c));
  }

  // ----- A domain registration that others interrupt -----

  /**
   What another thread may do while it holds the lock: a whole call, the last
   section of its own domain registration, or the locked part of a cancellation
   that found its token active some time ago.
   */
  datatype Section =
    | Whole(call: Call)
    | Marking(event: Name, cb: nat, user: nat, dispatch: nat, dispatchUser: nat)
    | LateOff(t: nat)

  function Lock(s: Registry, x: Section): Registry {
    match x
    case Whole(call) => Perform(s, call)
    case LateOff(t) => if t < |s.tokens| then OffLocked(s, t) else s
    case Marking(e, c, u, d, v) => Mark(s, e, c, u, d, v)
  }

  function Locks(s: Registry, xs: seq<Section>): Registry
    decreases |xs|
  {
    if xs == [] then s else Locks(Lock(s, xs[0]), xs[1..])
  }

  /** The registry when the last section is about to run: look up, others, register, others. */
  function BeforeMarking(s: Registry, event: Name, cb: nat, user: nat, d: Domain, first: seq<Section>, second: seq<Section>): Registry {
    Locks(OnToken(Locks(s, first), event, false, cb, user, d.dispatch, d.user).0, second)
  }

  /** A domain registration with other threads' sections after its first and after its second section. */
  function Interrupted(s: Registry, event: Name, cb: nat, user: nat, domain: Name, first: seq<Section>, second: seq<Section>): Registry {
    var i := FindDomain(s.domains, domain);
    if cb == 0 || i == |s.domains| || s.domains[i].dispatch == 0 then Locks(Locks(s, first), second)
    else
      var d := s.domains[i];
      var last := BeforeMarking(s, event, cb, user, d, first, second);
      if OnToken(Locks(s, first), event, false, cb, user, d.dispatch, d.user).1.None? then last
      else Mark(last, event, cb, user, d.dispatch, d.user)
  }

  /** Uninterrupted, it is the domain registration of the sequential runs. */
  lemma UninterruptedIsWhole(s: Registry, event: Name, cb: nat, user: nat, domain: Name)
    ensures Interrupted(s, event, cb, user, domain, [], []) == DomainToken(s, event, cb, user, domain).0
  {
  }

  /** The lookup finds a dispatcher and the registration finds the registry open. */
  predicate Goes(s: Registry, cb: nat, domain: Name, first: seq<Section>) {
    var i := FindDomain(s.domains, domain);
    cb != 0 && i < |s.domains| && s.domains[i].dispatch != 0 && Locks(s, first).open
  }

  /** Whatever the others do, every marked listener has a domain afterwards exactly under the guard of the marking section. */
  lemma InterruptedHostedIff(s: Registry, event: Name, cb: nat, user: nat, domain: Name, first: seq<Section>, second: seq<Section>)
    requires Goes(s, cb, domain, first)
    ensures var d := s.domains[FindDomain(s.domains, domain)];
            var last := BeforeMarking(s, event, cb, user, d, first, second);
            Hosted(Interrupted(s, event, cb, user, domain, first, second))
            <==> Hosted(last) && (!last.open || HasDomain(last, d.dispatch, d.user) || !Attached(last, event, cb, user, d.dispatch, d.user))
  {
    hide Hosted, Attached, HasDomain, Locks;
    var d := s.domains[FindDomain(s.domains, domain)];
    var last := BeforeMarking(s, event, cb, user, d, first, second);
    if last.open {
      MarkHostedIff(last, event, cb, user, d.dispatch, d.user);
    }
  }

  /** And it leaves an empty entry exactly when the others left one, or removed the event's entry before the last section. */
  lemma InterruptedNoEmptyIff(s: Registry, event: Name, cb: nat, user: nat, domain: Name, first: seq<Section>, second: seq<Section>)
    requires Goes(s, cb, domain, first)
    ensures var last := BeforeMarking(s, event, cb, user, s.domains[FindDomain(s.domains, domain)], first, second);
            NoEmpty(Interrupted(s, event, cb, user, domain, first, second)) <==> NoEmpty(last) && (!last.open || event in last.store)
  {
    hide NoEmpty, Locks;
    var d := s.domains[FindDomain(s.domains, domain)];
    var last := BeforeMarking(s, event, cb, user, d, first, second);
    if last.open {
      MarkKeepsNoEmptyIff(last, event, cb, user, d.dispatch, d.user);
    }
  }

  /** With nobody between registering and marking, what counts is that the domain is still registered when the second section runs. */
  lemma DomainGoneIff(s: Registry, event: Name, cb: nat, user: nat, domain: Name, first: seq<Section>)
    requires Goes(s, cb, domain, first)
    ensures var d := s.domains[FindDomain(s.domains, domain)];
            Hosted(Interrupted(s, event, cb, user, domain, first, []))
            <==> Hosted(Locks(s, first)) && HasDomain(Locks(s, first), d.dispatch, d.user)
  {
    var d := s.domains[FindDomain(s.domains, domain)];
    var now := Locks(s, first);
    InterruptedHostedIff(s, event, cb, user, domain, first, []);
    RegisteredHosted(now, event, cb, user, d.dispatch, d.user);
  }

  /** Uninterrupted, a domain registration takes no listener's domain away and gives its own one. */
  lemma WholeHostedIff(s: Registry, event: Name, cb: nat, user: nat, domain: Name)
    requires Goes(s, cb, domain, [])
    ensures Hosted(DomainToken(s, event, cb, user, domain).0) <==> Hosted(s)
  {
    hide Hosted;
    UninterruptedIsWhole(s, event, cb, user, domain);
    DomainGoneIff(s, event, cb, user, domain, []);
    DomainFound(s, FindDomain(s.domains, domain));
  }

  lemma RegisteredHosted(s: Registry, event: Name, cb: nat, user: nat, d: nat, v: nat)
    requires s.open && cb != 0
    ensures var n := OnToken(s, event, false, cb, user, d, v).0;
            n.open && Attached(n, event, cb, user, d, v) && (HasDomain(n, d, v) <==> HasDomain(s, d, v)) && (Hosted(n) <==> Hosted(s))
  {
    var n := OnToken(s, event, false, cb, user, d, v).0;
    var ls := EntryOf(s.store, event).text;
    assert n.store[event].text == ls + [Listener(cb, user, d, v, false, s.serial)];
    assert Meant(EntryOf(n.store, event).text[|ls|], cb, user, d, v);
    if Hosted(s) {
      OnTokenHosted(s, event, false, cb, user, d, v);
    }
    if Hosted(n) {
      forall e, i | e in s.store && 0 <= i < |s.store[e].text| && s.store[e].text[i].marked
        ensures HasDomain(s, s.store[e].text[i].dispatch, s.store[e].text[i].dispatchUser)
      {
        assert n.store[e].text[i] == s.store[e].text[i];
      }
    }
  }

  /** A plain registration of the very callback, user and dispatcher that the interrupted one is about to mark. */
  predicate Doubles(x: Section, event: Name, cb: nat, user: nat, d: nat, v: nat) {
    x.Whole? && x.call.Do? && match x.call.op
      case OpOn(e, b, c, u, f, w) => e == event && !b && c == cb && u == user && f == d && w == v
      case OpOnToken(e, b, c, u, f, w) => e == event && !b && c == cb && u == user && f == d && w == v
      case _ => false
  }

  predicate Restores(x: Section, d: nat, v: nat) {
    x.Whole? && x.call.Do? && x.call.op.OpDomainRegister? && x.call.op.dispatch == d && x.call.op.dispatchUser == v
  }

  /** The guard of the marking section. */
  predicate Guarded(s: Registry, event: Name, cb: nat, user: nat, d: nat, v: nat) {
    HasDomain(s, d, v) || !Attached(s, event, cb, user, d, v)
  }

  lemma AttachedLess(s: Registry, n: Registry, event: Name, cb: nat, user: nat, d: nat, v: nat)
    requires forall l :: l in EntryOf(n.store, event).text && Meant(l, cb, user, d, v) ==> l in EntryOf(s.store, event).text
    ensures Attached(n, event, cb, user, d, v) ==> Attached(s, event, cb, user, d, v)
  {
    if Attached(n, event, cb, user, d, v) {
      var i :| 0 <= i < |EntryOf(n.store, event).text| && Meant(EntryOf(n.store, event).text[i], cb, user, d, v);
      var j :| 0 <= j < |EntryOf(s.store, event).text| && EntryOf(s.store, event).text[j] == EntryOf(n.store, event).text[i];
    }
  }

  lemma AppendGuarded(s: Registry, e: Name, l: Listener, binary: bool, bump: bool, event: Name, cb: nat, user: nat, d: nat, v: nat)
    requires Guarded(s, event, cb, user, d, v)
    requires (e == event && !binary && Meant(l, cb, user, d, v)) ==> HasDomain(s, d, v)
    ensures Guarded(Append(s, e, l, binary, bump), event, cb, user, d, v)
  {
    if !HasDomain(s, d, v) {
      AttachedLess(s, Append(s, e, l, binary, bump), event, cb, user, d, v);
    }
  }

  lemma OnTokenGuarded(s: Registry, e: Name, b: bool, c: nat, u: nat, f: nat, w: nat, event: Name, cb: nat, user: nat, d: nat, v: nat)
    requires Guarded(s, event, cb, user, d, v)
    requires (e == event && !b && c == cb && u == user && f == d && w == v) ==> HasDomain(s, d, v)
    ensures Guarded(OnToken(s, e, b, c, u, f, w).0, event, cb, user, d, v)
  {
    if c != 0 && s.open {
      AppendGuarded(s, e, Listener(c, u, f, w, false, s.serial), b, true, event, cb, user, d, v);
    }
  }

  lemma OffLockedGuarded(s: Registry, t: nat, event: Name, cb: nat, user: nat, d: nat, v: nat)
    requires t < |s.tokens| && Guarded(s, event, cb, user, d, v)
    ensures Guarded(OffLocked(s, t), event, cb, user, d, v)
  {
    if !HasDomain(s, d, v) {
      AttachedLess(s, OffLocked(s, t), event, cb, user, d, v);
    }
  }

  lemma OffTokenGuarded(s: Registry, t: nat, event: Name, cb: nat, user: nat, d: nat, v: nat)
    requires Guarded(s, event, cb, user, d, v)
    ensures Guarded(OffToken(s, t), event, cb, user, d, v)
  {
    if t < |s.tokens| && s.tokens[t].active {
      OffLockedGuarded(s, t, event, cb, user, d, v);
    }
  }

  lemma WildcardGuarded(s: Registry, e: Name, b: bool, c: nat, u: nat, event: Name, cb: nat, user: nat, d: nat, v: nat)
    requires Guarded(s, event, cb, user, d, v)
    ensures Guarded(Off(s, e, b, c, u), event, cb, user, d, v)
  {
    if !HasDomain(s, d, v) && s.open && e in s.store {
      UnselectedFrom(s.store[e].text, c, u);
      AttachedLess(s, Off(s, e, b, c, u), event, cb, user, d, v);
    }
  }

  lemma MarkGuarded(s: Registry, e: Name, c: nat, u: nat, f: nat, w: nat, event: Name, cb: nat, user: nat, d: nat, v: nat)
    requires Guarded(s, event, cb, user, d, v)
    ensures Guarded(Mark(s, e, c, u, f, w), event, cb, user, d, v)
  {
    hide Attached;
    MarkAttaches(s, e, c, u, f, w, event, cb, user, d, v);
  }

  /** Marking makes nobody match who did not. */
  lemma MarkAttaches(s: Registry, e: Name, c: nat, u: nat, f: nat, w: nat, event: Name, cb: nat, user: nat, d: nat, v: nat)
    ensures Attached(Mark(s, e, c, u, f, w), event, cb, user, d, v) ==> Attached(s, event, cb, user, d, v)
  {
    var n := Mark(s, e, c, u, f, w);
    MarkedKeeps(EntryOf(s.store, e).text, c, u, f, w);
    if s.open && Attached(n, event, cb, user, d, v) {
      var i :| 0 <= i < |EntryOf(n.store, event).text| && Meant(EntryOf(n.store, event).text[i], cb, user, d, v);
      assert Meant(EntryOf(s.store, event).text[i], cb, user, d, v);
    }
  }

  /** A domain whose dispatcher an attached listener uses is not unregistered. */
  lemma UnregisterGuarded(s: Registry, name: Name, named: bool, event: Name, cb: nat, user: nat, d: nat, v: nat)
    requires Guarded(s, event, cb, user, d, v)
    ensures Guarded(DomainUnregister(s, name, named).0, event, cb, user, d, v)
  {
    var i, n := FindDomain(s.domains, name), DomainUnregister(s, name, named).0;
    if n.domains != s.domains && HasDomain(s, d, v) && Attached(s, event, cb, user, d, v) {
      var k :| 0 <= k < |EntryOf(s.store, event).text| && Meant(EntryOf(s.store, event).text[k], cb, user, d, v);
      var l := EntryOf(s.store, event).text[k];
      assert l in Lane(s.store[event], false) && Uses(l, d, v);
      assert AnyUses(Lane(s.store[event], false), d, v) && InUse(s, d, v);
      var j :| 0 <= j < |s.domains| && s.domains[j].dispatch == d && s.domains[j].user == v;
      assert n.domains[if j < i then j else j - 1] == s.domains[j];
    }
  }

  lemma RegisterGuarded(s: Registry, name: Name, f: nat, w: nat, event: Name, cb: nat, user: nat, d: nat, v: nat)
    requires Guarded(s, event, cb, user, d, v)
    ensures Guarded(DomainRegister(s, name, f, w).0, event, cb, user, d, v)
  {
    hide Attached;
    var n := DomainRegister(s, name, f, w).0;
    if HasDomain(s, d, v) {
      var i :| 0 <= i < |s.domains| && s.domains[i].dispatch == d && s.domains[i].user == v;
      assert n.domains != s.domains ==> n.domains[i + 1] == s.domains[i];
    } else {
      SameListed(s, n, event, cb, user, d, v);
    }
  }

  lemma SameListed(s: Registry, n: Registry, event: Name, cb: nat, user: nat, d: nat, v: nat)
    requires n.store == s.store
    ensures Attached(n, event, cb, user, d, v) <==> Attached(s, event, cb, user, d, v)
  {
  }

  lemma OpGuarded(s: Registry, op: Op, event: Name, cb: nat, user: nat, d: nat, v: nat)
    requires Guarded(s, event, cb, user, d, v) && !Doubles(Whole(Do(op)), event, cb, user, d, v)
    ensures Guarded(Apply(s, op), event, cb, user, d, v)
  {
    hide Guarded, HasDomain, Append, OnToken, OffToken, Mark, DomainRegister, DomainUnregister;
    match op
    case OpOn(e, b, c, u, f, w) =>
      if c != 0 && s.open {
        AppendGuarded(s, e, Listener(c, u, f, w, false, s.serial), b, !b, event, cb, user, d, v);
      }
    case OpOnToken(e, b, c, u, f, w) => OnTokenGuarded(s, e, b, c, u, f, w, event, cb, user, d, v);
    case OpOffToken(t) => OffTokenGuarded(s, t, event, cb, user, d, v);
    case OpDomainRegister(name, f, w) => RegisterGuarded(s, name, f, w, event, cb, user, d, v);
    case OpDomainUnregister(name, named) => UnregisterGuarded(s, name, named, event, cb, user, d, v);
    case OpDomainToken(e, c, u, name) =>
      var i := FindDomain(s.domains, name);
      if i < |s.domains| {
        var x := s.domains[i];
        DomainFound(s, i);
        OnTokenGuarded(s, e, false, c, u, x.dispatch, x.user, event, cb, user, d, v);
        MarkGuarded(OnToken(s, e, false, c, u, x.dispatch, x.user).0, e, c, u, x.dispatch, x.user, event, cb, user, d, v);
      }
  }

  lemma LockGuarded(s: Registry, x: Section, event: Name, cb: nat, user: nat, d: nat, v: nat)
    requires Guarded(s, event, cb, user, d, v) && !Doubles(x, event, cb, user, d, v)
    ensures Guarded(Lock(s, x), event, cb, user, d, v)
  {
    hide Guarded, Apply, Off, Mark, Doubles, OffLocked;
    match x
    case LateOff(t) =>
      if t < |s.tokens| {
        OffLockedGuarded(s, t, event, cb, user, d, v);
      }
    case Marking(e, c, u, f, w) => MarkGuarded(s, e, c, u, f, w, event, cb, user, d, v);
    case Whole(call) =>
      match call {
        case Do(op) => OpGuarded(s, op, event, cb, user, d, v);
        case Wildcard(e, b, c, u) => WildcardGuarded(s, e, b, c, u, event, cb, user, d, v);
        case _ => GuardedNothing(s, Perform(s, call), event, cb, user, d, v);
      }
  }

  lemma GuardedNothing(s: Registry, n: Registry, event: Name, cb: nat, user: nat, d: nat, v: nat)
    requires Guarded(s, event, cb, user, d, v) && ((n.store == s.store && n.domains == s.domains) || n.store == map[])
    ensures Guarded(n, event, cb, user, d, v)
  {
  }

  lemma {:induction false} LocksGuarded(s: Registry, xs: seq<Section>, event: Name, cb: nat, user: nat, d: nat, v: nat)
    requires Guarded(s, event, cb, user, d, v)
    requires forall k :: 0 <= k < |xs| ==> !Doubles(xs[k], event, cb, user, d, v)
    ensures Guarded(Locks(s, xs), event, cb, user, d, v)
    decreases |xs|
  {
    hide Guarded, Lock, Doubles;
    if xs != [] {
      LockGuarded(s, xs[0], event, cb, user, d, v);
      LocksGuarded(Lock(s, xs[0]), xs[1..], event, cb, user, d, v);
    }
  }

  /** Without a registration of it, a dispatcher's domain does not come back. */
  lemma {:induction false} DomainStaysGone(s: Registry, xs: seq<Section>, d: nat, v: nat)
    requires !HasDomain(s, d, v) && forall k :: 0 <= k < |xs| ==> !Restores(xs[k], d, v)
    ensures !HasDomain(Locks(s, xs), d, v)
    decreases |xs|
  {
    hide HasDomain, Lock, Restores;
    if xs != [] {
      DomainNotRestored(s, xs[0], d, v);
      DomainStaysGone(Lock(s, xs[0]), xs[1..], d, v);
    }
  }

  lemma DomainNotRestored(s: Registry, x: Section, d: nat, v: nat)
    requires !HasDomain(s, d, v) && !Restores(x, d, v)
    ensures !HasDomain(Lock(s, x), d, v)
  {
    hide HasDomain, Apply, Off, Mark, OffLocked;
    match x
    case Whole(call) =>
      match call {
        case Do(op) => OpNotRestored(s, op, d, v);
        case _ => FewerDomains(s, Perform(s, call), d, v) by { OffDomains(s, call); }
      }
    case _ => FewerDomains(s, Lock(s, x), d, v) by { SectionDomains(s, x); }
  }

  lemma OffDomains(s: Registry, c: Call)
    requires !c.Do?
    ensures Perform(s, c).domains == s.domains || Perform(s, c).domains == []
  {
  }

  lemma SectionDomains(s: Registry, x: Section)
    requires !x.Whole?
    ensures Lock(s, x).domains == s.domains
  {
  }

  lemma FewerDomains(s: Registry, n: Registry, d: nat, v: nat)
    requires forall i :: 0 <= i < |n.domains| ==> n.domains[i] in s.domains
    ensures HasDomain(n, d, v) ==> HasDomain(s, d, v)
  {
    if HasDomain(n, d, v) {
      var i :| 0 <= i < |n.domains| && n.domains[i].dispatch == d && n.domains[i].user == v;
      var j :| 0 <= j < |s.domains| && s.domains[j] == n.domains[i];
    }
  }

  lemma OpNotRestored(s: Registry, op: Op, d: nat, v: nat)
    requires !HasDomain(s, d, v) && !Restores(Whole(Do(op)), d, v)
    ensures !HasDomain(Apply(s, op), d, v)
  {
    hide HasDomain, On, OnToken, OffToken, Mark, InUse;
    match op
    case OpDomainRegister(name, f, w) => NotRegistered(s, name, f, w, d, v);
    case OpDomainUnregister(name, named) => FewerDomains(s, Apply(s, op), d, v) by { UnregisterFewer(s, name, named); }
    case _ => FewerDomains(s, Apply(s, op), d, v) by { ListenerDomains(s, op); }
  }

  lemma NotRegistered(s: Registry, name: Name, f: nat, w: nat, d: nat, v: nat)
    requires !HasDomain(s, d, v) && !(f == d && w == v)
    ensures !HasDomain(DomainRegister(s, name, f, w).0, d, v)
  {
    var n := DomainRegister(s, name, f, w).0;
    if n.domains != s.domains {
      assert forall i :: 1 <= i < |n.domains| ==> n.domains[i] == s.domains[i - 1];
    }
  }

  lemma UnregisterFewer(s: Registry, name: Name, named: bool)
    ensures var n := DomainUnregister(s, name, named).0; forall i :: 0 <= i < |n.domains| ==> n.domains[i] in s.domains
  {
    hide InUse;
  }

  lemma ListenerDomains(s: Registry, op: Op)
    requires !op.OpDomainRegister? && !op.OpDomainUnregister?
    ensures Apply(s, op).domains == s.domains
  {
  }

  /**
   With others between all three sections that neither double the registration
   nor restore the domain: afterwards every marked listener has a domain exactly
   when the domain was still registered at the second section, or the listener
   was removed again before the third.
   */
  lemma DomainKeptIff(s: Registry, event: Name, cb: nat, user: nat, domain: Name, first: seq<Section>, second: seq<Section>)
    requires Goes(s, cb, domain, first)
    requires var d := s.domains[FindDomain(s.domains, domain)];
             forall k :: 0 <= k < |second| ==> !Doubles(second[k], event, cb, user, d.dispatch, d.user) && !Restores(second[k], d.dispatch, d.user)
    ensures var d := s.domains[FindDomain(s.domains, domain)];
            var last := BeforeMarking(s, event, cb, user, d, first, second);
            Hosted(Interrupted(s, event, cb, user, domain, first, second))
            <==> Hosted(last) && (!last.open || HasDomain(Locks(s, first), d.dispatch, d.user) || !Attached(last, event, cb, user, d.dispatch, d.user))
  {
    hide Hosted, Attached, HasDomain, Locks, Interrupted;
    var d := s.domains[FindDomain(s.domains, domain)];
    var now := Locks(s, first);
    var mid := OnToken(now, event, false, cb, user, d.dispatch, d.user).0;
    InterruptedHostedIff(s, event, cb, user, domain, first, second);
    RegisteredHosted(now, event, cb, user, d.dispatch, d.user);
    if HasDomain(now, d.dispatch, d.user) {
      LocksGuarded(mid, second, event, cb, user, d.dispatch, d.user);
    } else {
      DomainStaysGone(mid, second, d.dispatch, d.user);
    }
  }

  // ----- The binary form -----

  /** Between its two sections other threads may come in. */
  function InterruptedBinary(s: Registry, event: Name, cb: nat, user: nat, domain: Name, between: seq<Section>): Registry {
    var i := FindDomain(s.domains, domain);
    if cb == 0 || i == |s.domains| || s.domains[i].dispatch == 0 then Locks(s, between)
    else OnToken(Locks(s, between), event, true, cb, user, s.domains[i].dispatch, s.domains[i].user).0
  }

  /** The listener it leaves has its domain exactly when that is still registered at the second section. */
  lemma BinaryDomainGoneIff(s: Registry, event: Name, cb: nat, user: nat, domain: Name, between: seq<Section>)
    requires Goes(s, cb, domain, between)
    ensures var d := s.domains[FindDomain(s.domains, domain)];
            var n := InterruptedBinary(s, event, cb, user, domain, between);
            var ls := LaneOf(n, event, true);
            && ls != [] && Same(ls[|ls| - 1], cb, user) && Uses(ls[|ls| - 1], d.dispatch, d.user)
            && (HasDomain(n, d.dispatch, d.user) <==> HasDomain(Locks(s, between), d.dispatch, d.user))
  {
    hide Locks;
  }

  /** Uninterrupted, it is a registration that finds its domain. */
  lemma BinaryWholeHasDomain(s: Registry, event: Name, cb: nat, user: nat, domain: Name)
    requires Goes(s, cb, domain, [])
    ensures var d := s.domains[FindDomain(s.domains, domain)];
            HasDomain(BinaryDomainToken(s, event, cb, user, domain).0, d.dispatch, d.user)
  {
    assert InterruptedBinary(s, event, cb, user, domain, []) == BinaryDomainToken(s, event, cb, user, domain).0;
    BinaryDomainGoneIff(s, event, cb, user, domain, []);
    DomainFound(s, FindDomain(s.domains, domain));
  }

  /** While any listener, text or binary, uses a dispatcher, its domain goes away only with the whole registry. */
  lemma UsedDomainStays(s: Registry, x: Section, d: nat, v: nat)
    requires HasDomain(s, d, v) && InUse(s, d, v) && x != Whole(Close)
    ensures HasDomain(Lock(s, x), d, v)
  {
    hide HasDomain, InUse, Apply, Off, Mark, OffLocked;
    match x
    case Whole(call) =>
      match call {
        case Do(op) => UsedDomainOp(s, op, d, v);
        case _ => SameDomains(s, Perform(s, call), d, v) by { OffSame(s, call); }
      }
    case _ => SameDomains(s, Lock(s, x), d, v) by { SectionDomains(s, x); }
  }

  lemma OffSame(s: Registry, c: Call)
    requires !c.Do? && c != Close
    ensures Perform(s, c).domains == s.domains
  {
  }

  lemma SameDomains(s: Registry, n: Registry, d: nat, v: nat)
    requires n.domains == s.domains
    ensures HasDomain(n, d, v) <==> HasDomain(s, d, v)
  {
  }

  lemma UsedDomainOp(s: Registry, op: Op, d: nat, v: nat)
    requires HasDomain(s, d, v) && InUse(s, d, v)
    ensures HasDomain(Apply(s, op), d, v)
  {
    hide InUse, On, OnToken, OffToken, Mark;
    var i :| 0 <= i < |s.domains| && s.domains[i].dispatch == d && s.domains[i].user == v;
    var n := Apply(s, op);
    match op
    case OpDomainRegister(name, f, w) => assert n.domains != s.domains ==> n.domains[i + 1] == s.domains[i];
    case OpDomainUnregister(name, named) =>
      var k := FindDomain(s.domains, name);
      assert n.domains != s.domains ==> i != k && n.domains[if i < k then i else i - 1] == s.domains[i];
    case _ => ListenerDomains(s, op);
  }

  // ----- Interruptions that do harm -----

  /** One registered domain and nothing else. */
  function OneDomain(name: Name, dispatch: nat): Registry {
    Registry(true, map[], [], [Domain(name, dispatch, 0)], 0)
  }

  lemma OneDomainIsReached(name: Name, dispatch: nat)
    requires name != [] && dispatch != 0
    ensures RunAll(FRESH, [Do(OpDomainRegister(name, dispatch, 0))]) == OneDomain(name, dispatch)
  {
    var calls := [Do(OpDomainRegister(name, dispatch, 0))];
    assert calls[1..] == [];
    assert RunAll(Perform(FRESH, calls[0]), []) == Perform(FRESH, calls[0]);
  }

  lemma OneLock(s: Registry, x: Section)
    ensures Locks(s, [x]) == Lock(s, x)
  {
    assert [x][1..] == [] && Locks(Lock(s, x), []) == Lock(s, x);
  }

  /** Another thread unregisters the domain between lookup and registration: the listener is left without one. */
  lemma InterruptedDomainToken(event: Name, cb: nat, user: nat, name: Name, dispatch: nat)
    requires cb != 0 && dispatch != 0 && name != []
    ensures var s := RunAll(FRESH, [Do(OpDomainRegister(name, dispatch, 0))]);
            var first := [Whole(Do(OpDomainUnregister(name, false)))];
            Hosted(s) && Goes(s, cb, name, first) && !Hosted(Interrupted(s, event, cb, user, name, first, []))
  {
    var s := OneDomain(name, dispatch);
    OneDomainIsReached(name, dispatch);
    var x := Whole(Do(OpDomainUnregister(name, false)));
    OneLock(s, x);
    assert !InUse(s, dispatch, 0);
    assert Lock(s, x).domains == [];
    DomainGoneIff(s, event, cb, user, name, [x]);
  }

  /** Another thread removes the new listener by callback and user between registration and marking: an empty entry is left. */
  lemma InterruptedLeavesEmpty(event: Name, cb: nat, user: nat, name: Name, dispatch: nat)
    requires cb != 0 && dispatch != 0 && name != []
    ensures var s := RunAll(FRESH, [Do(OpDomainRegister(name, dispatch, 0))]);
            var second := [Whole(Wildcard(event, false, cb, user))];
            NoEmpty(s) && Goes(s, cb, name, []) && !NoEmpty(Interrupted(s, event, cb, user, name, [], second))
  {
    var s := OneDomain(name, dispatch);
    OneDomainIsReached(name, dispatch);
    var x := Whole(Wildcard(event, false, cb, user));
    var n := OnToken(s, event, false, cb, user, dispatch, 0).0;
    var l := Listener(cb, user, dispatch, 0, false, 0);
    assert n.store[event].text == [l];
    OneLock(n, x);
    WildcardEmpties(n, event, l);
    InterruptedNoEmptyIff(s, event, cb, user, name, [], [x]);
  }

  lemma WildcardEmpties(s: Registry, event: Name, l: Listener)
    requires s.open && event in s.store && s.store[event].text == [l] && s.store[event].binary == []
    ensures event !in Off(s, event, false, l.cb, l.user).store
  {
    assert Unselected([l][1..], l.cb, l.user) == [];
    assert Unselected([l], l.cb, l.user) == [];
  }

  /** The binary form has the same gap: with the domain unregistered in between, its listener has none. */
  lemma InterruptedBinaryToken(event: Name, cb: nat, user: nat, name: Name, dispatch: nat)
    requires cb != 0 && dispatch != 0 && name != []
    ensures var s := RunAll(FRESH, [Do(OpDomainRegister(name, dispatch, 0))]);
            var between := [Whole(Do(OpDomainUnregister(name, false)))];
            var n := InterruptedBinary(s, event, cb, user, name, between);
            && Goes(s, cb, name, between) && InUse(n, dispatch, 0) && !HasDomain(n, dispatch, 0)
  {
    var s := OneDomain(name, dispatch);
    OneDomainIsReached(name, dispatch);
    var x := Whole(Do(OpDomainUnregister(name, false)));
    OneLock(s, x);
    assert !InUse(s, dispatch, 0);
    assert Lock(s, x).domains == [];
    BinaryDomainGoneIff(s, event, cb, user, name, [x]);
    var n := InterruptedBinary(s, event, cb, user, name, [x]);
    var ls := Lane(n.store[event], true);
    assert ls[|ls| - 1] in ls && AnyUses(ls, dispatch, 0);
  }

  /** Two threads cancel one token at once, both finding it active: the second drops the other token's listener. */
  lemma RacingOffTakesAnother(event: Name, cb: nat, user: nat)
    requires cb != 0
    ensures var s1 := OnToken(FRESH, event, false, cb, user, 0, 0).0;
            var s2 := OnToken(s1, event, false, cb, user, 0, 0).0;
            var s3 := Lock(Lock(s2, Whole(Do(OpOffToken(0)))), LateOff(0));
            |s3.tokens| == 2 && s3.tokens[1].active && LaneOf(s3, event, false) == []
  {
    var s1 := OnToken(FRESH, event, false, cb, user, 0, 0).0;
    var s2 := OnToken(s1, event, false, cb, user, 0, 0).0;
    var la, lb := Listener(cb, user, 0, 0, false, 0), Listener(cb, user, 0, 0, false, 1);
    assert LaneOf(s1, event, false) == [la];
    assert LaneOf(s2, event, false) == [la, lb];
    assert FirstSame([la, lb], cb, user) == 0 && RemoveAt([la, lb], 0) == [lb];
    var s := Lock(s2, Whole(Do(OpOffToken(0))));
    assert LaneOf(s, event, false) == [lb];
    assert FirstSame([lb], cb, user) == 0 && RemoveAt([lb], 0) == [];
  }
}
