/**
 Replacing the live configuration: the diff drives one reload notification per
 changed key, and the live dictionary object keeps its identity.
 */
module Config {
  import opened Bytes
  import opened DictTable
  import opened Dict
  import opened DictMerge

  /** A registered reload callback; no key means a completed reload. */
  datatype ReloadEvent = ReloadEvent(key: Option<CStr>, callback: nat)

  datatype Call = Call(callback: nat, key: Option<CStr>)

  predicate Wants(e: ReloadEvent, key: Option<CStr>) {
    (key.None? && e.key.None?) || (key.Some? && e.key.Some? && SameIgnoringCase(key.value, e.key.value))
  }

  /** The callbacks one notification reaches, in registration order. */
  ghost function Notified(events: seq<ReloadEvent>, key: Option<CStr>): seq<Call> {
    if events == [] then []
    else var e := events[|events| - 1];
      Notified(events[..|events| - 1], key) + if Wants(e, key) then [Call(e.callback, key)] else []
  }

  /** Registered for completion and told of it, or for a key that differs from the one told only in the case of ASCII letters. */
  ghost predicate Applies(e: ReloadEvent, key: Option<CStr>) {
    match key
    case None => e.key == None
    case Some(k) => e.key.Some? && |e.key.value| == |k| && forall i :: 0 <= i < |k| ==> OneLetter(k[i], e.key.value[i])
  }

  lemma WantsIff(e: ReloadEvent, key: Option<CStr>)
    ensures Wants(e, key) <==> Applies(e, key)
  {
    if key.Some? && e.key.Some? {
      SameIgnoringCaseIff(key.value, e.key.value);
    }
  }

  /** `calls` are the callbacks of exactly the registrations that apply, once each, in their order, which `at` gives. */
  ghost predicate CallsThose(events: seq<ReloadEvent>, key: Option<CStr>, calls: seq<Call>, at: seq<nat>) {
    && |at| == |calls|
    && (forall p, q :: 0 <= p < q < |at| ==> at[p] < at[q])
    && (forall p :: 0 <= p < |at| ==> at[p] < |events| && Applies(events[at[p]], key) && calls[p] == Call(events[at[p]].callback, key))
    && (forall i: nat :: i < |events| && Applies(events[i], key) ==> i in at)
  }

  lemma CallsOneMore(events: seq<ReloadEvent>, e: ReloadEvent, key: Option<CStr>, calls: seq<Call>, at: seq<nat>)
    requires CallsThose(events, key, calls, at)
    ensures Applies(e, key) ==> CallsThose(events + [e], key, calls + [Call(e.callback, key)], at + [|events|])
    ensures !Applies(e, key) ==> CallsThose(events + [e], key, calls, at)
  {
    hide Applies;
    assert (at + [|events|])[|at|] == |events|;
  }

  /** A notification calls the callbacks of exactly the registrations that apply, once each, in their order. */
  lemma {:induction false} NotifiedAre(events: seq<ReloadEvent>, key: Option<CStr>) returns (at: seq<nat>)
    ensures CallsThose(events, key, Notified(events, key), at)
  {
    if events == [] {
      at := [];
    } else {
      hide Wants, Applies, CallsThose;
      var n := |events| - 1;
      WantsIff(events[n], key);
      at := NotifiedAre(events[..n], key);
      CallsOneMore(events[..n], events[n], key, Notified(events[..n], key), at);
      assert events[..n] + [events[n]] == events;
      if Wants(events[n], key) {
        at := at + [n];
      }
    }
  }

  /** The callbacks a series of keys reaches, one notification each. */
  ghost function NotifiedAll(events: seq<ReloadEvent>, keys: seq<Key>): seq<Call> {
    if keys == [] then []
    else NotifiedAll(events, keys[..|keys| - 1]) + Notified(events, Some(keys[|keys| - 1]))
  }

  /** The calls made since `before` are those a notification of each key, in order, makes. */
  ghost predicate CallsFor(before: seq<Call>, calls: seq<Call>, events: seq<ReloadEvent>, keys: seq<Key>) {
    calls == before + NotifiedAll(events, keys)
  }

  ghost predicate Distinct<T>(s: seq<T>) {
    forall i, j :: 0 <= i < j < |s| ==> s[i] != s[j]
  }

  /** `keys` names every key of `m` once. */
  ghost predicate ListsOnce(keys: seq<Key>, m: map<Key, Value>) {
    Distinct(keys) && forall k :: k in keys <==> k in m
  }

  /** Whether the key is present, found by walking the whole dictionary: a null value counts as present. */
  method HasKey(d: Dict, wanted: Key) returns (found: bool)
    requires d.Valid()
    ensures found <==> wanted in d.Map()
  {
    ghost var t, seen: map<Key, Value> := d.table[..], map[];
    WalkStart(t);
    hide IsTable, Count, NoLive, Contents, Walked;
    var rank := 0;
    while true
      invariant 0 <= rank <= d.size
      invariant Walked(t, rank, seen) && wanted !in seen
      decreases d.size - rank
    {
      var next, entry := d.Enumerate(rank);
      if next < 0 {
        WalkEnd(t, rank, seen);
        return false;
      }
      WalkStep(t, rank, next, seen, entry);
      if entry.key == wanted {
        return true;
      }
      seen := seen[entry.key := entry.val];
      rank := next;
    }
  }

  class Live {
    var cfg: Dict?
    var events: seq<ReloadEvent>
    /** Every callback made so far; the callbacks themselves are taken not to touch the configuration. */
    var calls: seq<Call>

    /** Run the callbacks registered for a key, or for completion. */
    method ReloadEventRun(key: Option<CStr>) returns (ran: bool)
      modifies this`calls
      ensures calls == old(calls) + Notified(events, key)
      ensures ran <==> exists i :: 0 <= i < |events| && Wants(events[i], key)
    {
      ran := false;
      for i := 0 to |events|
        invariant calls == old(calls) + Notified(events[..i], key)
        invariant ran <==> exists j :: 0 <= j < i && Wants(events[j], key)
      {
        assert events[..i + 1][..i] == events[..i];
        if Wants(events[i], key) {
          calls := calls + [Call(events[i].callback, key)];
          ran := true;
        }
      }
      assert events[..|events|] == events;
    }

    /**
     Swap the new contents into the live dictionary and notify.  Returns, beside
     success, the counts that are logged and the keys in notification order.
     */
    method ApplyNew(newcfg: Dict?) returns (ok: bool, added: nat, changed: nat, removed: nat, keys: seq<Key>)
      requires cfg != null ==> cfg.Valid()
      requires newcfg != null ==> newcfg.Valid()
      requires cfg != null && newcfg != null ==> newcfg.H == cfg.H && CanDiff(cfg, newcfg)
      requires cfg != null && newcfg != null && newcfg != cfg ==> newcfg.table != cfg.table
      modifies this`calls, cfg
      ensures ok <==> cfg != null && newcfg != null && newcfg != cfg
      ensures !ok ==> calls == old(calls) && (cfg != null ==> unchanged(cfg))
      ensures ok ==> cfg.Valid() && fresh(cfg.table) && cfg.Map() == newcfg.Map()
      ensures ok ==> ListsOnce(keys, DiffOf(old(cfg.Map()), newcfg.Map()))
      ensures ok ==> calls == old(calls) + NotifiedAll(events, keys) + Notified(events, None)
      ensures ok ==> added == |newcfg.Map().Keys - old(cfg.Map()).Keys|
      ensures ok ==> removed == |old(cfg.Map()).Keys - newcfg.Map().Keys|
      ensures ok ==> added + changed + removed == |DiffOf(old(cfg.Map()), newcfg.Map())|
    {
      if cfg == null || newcfg == null || newcfg == cfg {
        return false, 0, 0, 0, [];
      }
      var tally;
      tally, keys := Replace(newcfg);
      return true, tally.added, tally.changed, tally.removed, keys;
    }

    /** Prepare the diff and the copy, swap the copy in, notify. */
    method Replace(newcfg: Dict) returns (tally: Tally, keys: seq<Key>)
      requires cfg != null && cfg.Valid() && newcfg.Valid() && newcfg != cfg && newcfg.table != cfg.table
      requires newcfg.H == cfg.H && CanDiff(cfg, newcfg)
      modifies this`calls, cfg
      ensures cfg.Valid() && fresh(cfg.table) && cfg.Map() == newcfg.Map()
      ensures ListsOnce(keys, DiffOf(old(cfg.Map()), newcfg.Map()))
      ensures calls == old(calls) + NotifiedAll(events, keys) + Notified(events, None)
      ensures tally.added == |newcfg.Map().Keys - old(cfg.Map()).Keys|
      ensures tally.removed == |old(cfg.Map()).Keys - newcfg.Map().Keys|
      ensures tally.added + tally.changed + tally.removed == |DiffOf(old(cfg.Map()), newcfg.Map())|
    {
      hide IsTable, Count, CanDiff, Room, Contents, DiffOf, ListsOnce, NotifiedAll, Notified, Wants, Counted;
      ghost var was, now := cfg.Map(), newcfg.Map();
      var changes := Diff(cfg, newcfg);
      var staged := Clone(newcfg);
      Swap(cfg, staged);
      DiffKeys(was, now);
      tally, keys := Announce(changes, staged, DiffOf(was, now), was, now);
      CountedAll(tally, keys, was, now);
      var _ := ReloadEventRun(None);
    }

    /** Which of the three counts a changed key falls under: is it there now, was it there before. */
    method Classify(staged: Dict, key: Key, tally: Tally) returns (r: Tally)
      requires cfg != null && cfg.Valid() && staged.Valid()
      ensures r == CountKey(tally, key, staged.Map(), cfg.Map())
    {
      hide IsTable, Count, Contents;
      var existsNow := HasKey(cfg, key);
      var existed := HasKey(staged, key);
      if !existsNow {
        r := tally.(removed := tally.removed + 1);
      } else if existed {
        r := tally.(changed := tally.changed + 1);
      } else {
        r := tally.(added := tally.added + 1);
      }
    }

    /** One turn of the loop: count the entry just found and run its key's callbacks. */
    method AnnounceOne(staged: Dict, key: Key, tally0: Tally, keys0: seq<Key>,
                       ghost before: seq<Call>, ghost seen: map<Key, Value>, ghost v: Value)
      returns (tally: Tally, keys: seq<Key>)
      requires cfg != null && cfg.Valid() && staged.Valid()
      requires key !in seen && (key in staged.Map() || key in cfg.Map())
      requires CallsFor(before, calls, events, keys0)
      requires Counted(tally0, keys0, seen, staged.Map(), cfg.Map())
      modifies this`calls
      ensures CallsFor(before, calls, events, keys)
      ensures Counted(tally, keys, seen[key := v], staged.Map(), cfg.Map())
    {
      hide IsTable, Count, Contents, Counted, CallsFor, CountKey, Notified, Wants;
      CountOne(tally0, keys0, seen, staged.Map(), cfg.Map(), key, v);
      CallsForNext(before, calls, events, keys0, key);
      tally := Classify(staged, key, tally0);
      keys := keys0 + [key];
      var _ := ReloadEventRun(Some(key));
    }

    /** The notification loop: one run per entry of the diff, counted by what happened to the key. */
    method Announce(changes: Dict, staged: Dict, ghost d: map<Key, Value>, ghost was: map<Key, Value>, ghost now: map<Key, Value>)
      returns (tally: Tally, keys: seq<Key>)
      requires cfg != null && cfg.Valid() && staged.Valid() && changes.Valid()
      requires changes.Map() == d && staged.Map() == was && cfg.Map() == now && d.Keys <= was.Keys + now.Keys
      modifies this`calls
      ensures Counted(tally, keys, d, was, now)
      ensures CallsFor(old(calls), calls, events, keys)
    {
      hide Counted, CallsFor, Walked, NoLive, Count, Contents;
      ghost var t, seen: map<Key, Value> := changes.table[..], map[];
      WalkStart(t);
      NothingCounted(was, now);
      CallsForNone(calls, events);
      hide IsTable;
      tally, keys := Tally(0, 0, 0), [];
      var rank := 0;
      while true
        invariant 0 <= rank <= changes.size
        invariant CallsFor(old(calls), calls, events, keys)
        invariant Walked(t, rank, seen) && Counted(tally, keys, seen, was, now)
        decreases changes.size - rank
      {
        var next, entry := changes.Enumerate(rank);
        if next < 0 {
          WalkEnd(t, rank, seen);
          return;
        }
        WalkStep(t, rank, next, seen, entry);
        assert entry.key in d;
        tally, keys := AnnounceOne(staged, entry.key, tally, keys, old(calls), seen, entry.val);
        seen := seen[entry.key := entry.val];
        rank := next;
      }
    }
  }

  /** Exchange the contents of two dictionaries, keeping both objects. */
  method Swap(a: Dict, b: Dict)
    requires a.Valid() && b.Valid() && a != b && a.H == b.H
    modifies a, b
    ensures a.Valid() && b.Valid() && a.Map() == old(b.Map()) && b.Map() == old(a.Map())
    ensures a.table == old(b.table) && b.table == old(a.table)
  {
    hide IsTable, Count, Contents;
    a.fill, b.fill := b.fill, a.fill;
    a.used, b.used := b.used, a.used;
    a.size, b.size := b.size, a.size;
    a.table, b.table := b.table, a.table;
  }

  /** How many keys of `m` are in `s`. */
  ghost function Among(m: map<Key, Value>, s: set<Key>): nat {
    |m.Keys * s|
  }

  datatype Tally = Tally(added: nat, changed: nat, removed: nat)

  ghost function CountKey(t: Tally, k: Key, was: map<Key, Value>, now: map<Key, Value>): Tally {
    if k !in now then t.(removed := t.removed + 1)
    else if k in was then t.(changed := t.changed + 1)
    else t.(added := t.added + 1)
  }

  /** The counters and the key list after notifying for the part `seen` of the diff. */
  ghost predicate Counted(t: Tally, keys: seq<Key>, seen: map<Key, Value>, was: map<Key, Value>, now: map<Key, Value>) {
    && ListsOnce(keys, seen)
    && t.added == Among(seen, now.Keys - was.Keys)
    && t.removed == Among(seen, was.Keys - now.Keys)
    && t.added + t.changed + t.removed == |seen|
  }

  lemma CountOne(tally: Tally, keys: seq<Key>, seen: map<Key, Value>, was: map<Key, Value>, now: map<Key, Value>,
                 k: Key, v: Value)
    requires Counted(tally, keys, seen, was, now)
    requires k !in seen && (k in was || k in now)
    ensures Counted(CountKey(tally, k, was, now), keys + [k], seen[k := v], was, now)
  {
    ListsMore(keys, seen, k, v);
    AmongMore(seen, k, v, now.Keys - was.Keys);
    AmongMore(seen, k, v, was.Keys - now.Keys);
  }

  lemma CountedAll(t: Tally, keys: seq<Key>, was: map<Key, Value>, now: map<Key, Value>)
    requires Counted(t, keys, DiffOf(was, now), was, now)
    ensures ListsOnce(keys, DiffOf(was, now))
    ensures t.added == |now.Keys - was.Keys| && t.removed == |was.Keys - now.Keys|
    ensures t.added + t.changed + t.removed == |DiffOf(was, now)|
  {
    hide DiffOf, ListsOnce;
    DiffHasAll(was, now);
    MeetPart(DiffOf(was, now).Keys, now.Keys - was.Keys);
    MeetPart(DiffOf(was, now).Keys, was.Keys - now.Keys);
  }

  lemma DiffHasAll(was: map<Key, Value>, now: map<Key, Value>)
    ensures now.Keys - was.Keys <= DiffOf(was, now).Keys && was.Keys - now.Keys <= DiffOf(was, now).Keys
  {
  }

  lemma MeetPart<T>(a: set<T>, s: set<T>)
    requires s <= a
    ensures a * s == s
  {
  }

  lemma AmongMore(seen: map<Key, Value>, k: Key, v: Value, s: set<Key>)
    requires k !in seen
    ensures Among(seen[k := v], s) == Among(seen, s) + if k in s then 1 else 0
    ensures |seen[k := v]| == |seen| + 1
  {
    assert seen[k := v].Keys == seen.Keys + {k};
    MeetMore(seen.Keys, k, s);
  }

  lemma MeetMore<T>(a: set<T>, k: T, s: set<T>)
    requires k !in a
    ensures |(a + {k}) * s| == |a * s| + if k in s then 1 else 0
  {
    if k in s {
      assert (a + {k}) * s == a * s + {k};
    } else {
      assert (a + {k}) * s == a * s;
    }
  }

  lemma DiffKeys(was: map<Key, Value>, now: map<Key, Value>)
    ensures DiffOf(was, now).Keys <= was.Keys + now.Keys
  {
  }

  lemma NothingCounted(was: map<Key, Value>, now: map<Key, Value>)
    ensures Counted(Tally(0, 0, 0), [], map[], was, now)
  {
    NoneAmong(now.Keys - was.Keys);
    NoneAmong(was.Keys - now.Keys);
  }

  lemma NoneAmong(s: set<Key>)
    ensures Among(map[], s) == 0
  {
    var none: map<Key, Value> := map[];
    assert none.Keys * s == {};
  }

  lemma CallsForNone(calls: seq<Call>, events: seq<ReloadEvent>)
    ensures CallsFor(calls, calls, events, [])
  {
  }

  lemma CallsForNext(before: seq<Call>, calls: seq<Call>, events: seq<ReloadEvent>, keys: seq<Key>, k: Key)
    requires CallsFor(before, calls, events, keys)
    ensures CallsFor(before, calls + Notified(events, Some(k)), events, keys + [k])
  {
    assert (keys + [k])[..|keys|] == keys;
  }

  lemma ListsMore(keys: seq<Key>, m: map<Key, Value>, k: Key, v: Value)
    requires ListsOnce(keys, m) && k !in m
    ensures ListsOnce(keys + [k], m[k := v])
  {
    assert k !in keys;
  }
}
