/**
 Whole-dictionary operations: merge, clone and diff, and the algebra of diffs.
 */
module DictMerge {
  import opened Probe
  import opened DictTable
  import opened Dict

  /** Same type and same payload. */
  function ValuesEqual(a: Value, b: Value): (eq: bool) {
    match (a, b)
    case (NullV, NullV) => true
    case (Str(s), Str(t)) => s == t
    case (Int(x), Int(y)) => x == y
    case (UInt(x), UInt(y)) => x == y
    case (Long(x), Long(y)) => x == y
    case (ULong(x), ULong(y)) => x == y
    case (LLong(x), LLong(y)) => x == y
    case (ULLong(x), ULLong(y)) => x == y
    case (Float(x), Float(y)) => x == y
    case (Double(x), Double(y)) => x == y
    case (Bool(x), Bool(y)) => x == y
    case (Char(x), Char(y)) => x == y
    case (Ptr(x), Ptr(y)) => x == y
    case _ => false
  }

  // ----- What the operations mean on maps -----

  ghost predicate Disagree(a: map<Key, Value>, b: map<Key, Value>, k: Key) {
    (k in a) != (k in b) || (k in a && k in b && a[k] != b[k])
  }

  /** The entries of `b` that `a` does not have in that form, and a null for every key `b` lost. */
  ghost function DiffOf(a: map<Key, Value>, b: map<Key, Value>): map<Key, Value> {
    map k | k in a.Keys + b.Keys && Disagree(a, b, k) :: if k in b then b[k] else NullV
  }

  /** Overlaying the diff on `a` and dropping the keys `b` lost rebuilds `b`. */
  lemma DiffRebuilds(a: map<Key, Value>, b: map<Key, Value>)
    ensures (a + DiffOf(a, b)) - (a.Keys - b.Keys) == b
    ensures forall k :: k in DiffOf(a, b) <==> Disagree(a, b, k)
    ensures DiffOf(a, b) == map[] <==> a == b
  {
    var d := DiffOf(a, b);
    assert ((a + d) - (a.Keys - b.Keys)).Keys == b.Keys;
    if d == map[] {
      assert forall k :: k in a || k in b ==> !Disagree(a, b, k) by {
        forall k | k in a || k in b ensures !Disagree(a, b, k) {
          assert k !in d;
        }
      }
      assert a.Keys == b.Keys;
    }
  }

  /** Reading every null in a diff as a deletion, as the marker is documented to be read. */
  ghost function ApplyMarkers(a: map<Key, Value>, d: map<Key, Value>): map<Key, Value> {
    map k | k in a.Keys + d.Keys && !(k in d && d[k] == NullV) :: if k in d then d[k] else a[k]
  }

  /** The null marker is ambiguous: reading it as a deletion rebuilds `b` exactly when no null of `b` is new. */
  lemma MarkersRebuildIff(a: map<Key, Value>, b: map<Key, Value>)
    ensures ApplyMarkers(a, DiffOf(a, b)) == b
            <==> forall k :: k in b && b[k] == NullV ==> k in a && a[k] == NullV
  {
    var d := DiffOf(a, b);
    var r := ApplyMarkers(a, d);
    if forall k :: k in b && b[k] == NullV ==> k in a && a[k] == NullV {
      assert r.Keys == b.Keys;
    } else {
      var k :| k in b && b[k] == NullV && !(k in a && a[k] == NullV);
      assert Disagree(a, b, k);
      assert k in d && d[k] == NullV;
      assert k !in r;
    }
  }

  /** Two different targets with one and the same diff. */
  lemma DiffNotInjective(k: Key)
    ensures DiffOf(map[k := Int(1)], map[]) == DiffOf(map[k := Int(1)], map[k := NullV]) == map[k := NullV]
  {
    var a := map[k := Int(1)];
    assert Disagree(a, map[], k) && Disagree(a, map[k := NullV], k);
  }

  // ----- Walking a table -----

  /** Between two ranks of an enumeration lies exactly one entry. */
  lemma {:induction false} ContentsStep(t: seq<Cell>, rank: nat, next: nat)
    requires Unique(t)
    requires rank < next <= |t| && t[next - 1].Live?
    requires NoLive(t, rank, next - 1)
    ensures Unique(t[..rank]) && Unique(t[..next])
    ensures t[next - 1].key !in Contents(t[..rank])
    ensures Contents(t[..next]) == Contents(t[..rank])[t[next - 1].key := t[next - 1].val]
    decreases next - rank
  {
    ContentsOfPrefix(t, rank);
    if rank + 1 < next {
      ContentsStep(t, rank + 1, next);
    }
  }

  lemma EmptyPrefix(t: seq<Cell>)
    ensures Contents(t[..0]) == map[]
  {
    assert Keys(t[..0]) == {};
  }

  lemma {:induction false} ContentsEnd(t: seq<Cell>, rank: nat)
    requires Unique(t)
    requires rank <= |t|
    requires NoLive(t, rank, |t|)
    ensures Contents(t[..rank]) == Contents(t)
    decreases |t| - rank
  {
    if rank < |t| {
      ContentsOfPrefix(t, rank);
      ContentsEnd(t, rank + 1);
    } else {
      assert t[..rank] == t;
    }
  }

  /** An enumeration that has got to `rank` has seen just these entries. */
  ghost predicate Walked(t: seq<Cell>, rank: nat, seen: map<Key, Value>) {
    rank <= |t| && Unique(t) && seen == Contents(t[..rank])
  }

  lemma WalkStart(t: seq<Cell>)
    requires Unique(t)
    ensures Walked(t, 0, map[])
  {
    EmptyPrefix(t);
  }

  lemma WalkStep(t: seq<Cell>, rank: nat, next: nat, seen: map<Key, Value>, entry: Cell)
    requires Walked(t, rank, seen)
    requires rank < next <= |t| && t[next - 1] == entry && entry.Live? && NoLive(t, rank, next - 1)
    ensures entry.key !in seen && Walked(t, next, seen[entry.key := entry.val])
    ensures entry.key in Contents(t) && Contents(t)[entry.key] == entry.val
  {
    ContentsStep(t, rank, next);
    ContentsAt(t, next - 1);
  }

  lemma WalkEnd(t: seq<Cell>, rank: nat, seen: map<Key, Value>)
    requires Walked(t, rank, seen) && NoLive(t, rank, |t|)
    ensures seen == Contents(t)
  {
    ContentsEnd(t, rank);
  }

  lemma OneFewer(s: set<Key>, k: Key)
    ensures |s - {k}| == |s| - if k in s then 1 else 0
  {
    if k !in s {
      assert s - {k} == s;
    }
  }

  // ----- The operations -----

  /** New keys of `src` that a merge into `dst` will add. */
  ghost function NewKeys(dst: map<Key, Value>, src: map<Key, Value>): set<Key> {
    src.Keys - dst.Keys
  }

  /** Stores every entry of `src` into `dst`, which may be the same dictionary. */
  method Merge(dst: Dict, src: Dict)
    requires dst.Valid() && src.Valid()
    requires dst != src ==> dst.table != src.table
    requires Room(dst.table[..], |NewKeys(dst.Map(), src.Map())|)
    modifies dst`fill, dst`used, dst`size, dst`table, dst.table
    ensures dst.Valid() && dst.Map() == old(dst.Map()) + old(src.Map())
    ensures dst.table == old(dst.table) || fresh(dst.table)
    ensures Count(old(dst.table[..]), IsDummy) == 0 ==> Count(dst.table[..], IsDummy) == 0
  {
    hide Walked, NoLive, Count, Room, NewKeys, Contents;
    ghost var t, seen: map<Key, Value> := src.table[..], map[];
    ghost var m := dst.Map();
    ghost var room := |NewKeys(m, Contents(t))|;
    WalkStart(t);
    OverlayEmpty(m);
    hide IsTable;
    var rank := 0;
    while true
      invariant 0 <= rank <= src.size
      invariant dst.Valid() && src.Valid()
      invariant src.table == old(src.table) && src.table[..] == t
      invariant dst.table == old(dst.table) || fresh(dst.table)
      invariant Walked(t, rank, seen) && dst.Map() == m + seen
      invariant room == |NewKeys(dst.Map(), Contents(t))| && Room(dst.table[..], room)
      invariant Count(old(dst.table[..]), IsDummy) == 0 ==> Count(dst.table[..], IsDummy) == 0
      decreases src.size - rank
    {
      var next, entry := src.Enumerate(rank);
      if next < 0 {
        WalkEnd(t, rank, seen);
        return;
      }
      WalkStep(t, rank, next, seen, entry);
      NewKeysStep(dst.Map(), Contents(t), entry.key, entry.val);
      OverlayStep(m, seen, entry.key, entry.val);
      room := MergeOne(dst, src, next - 1, room);
      seen := seen[entry.key := entry.val];
      rank := next;
    }
  }

  lemma NewKeysStep(m: map<Key, Value>, c: map<Key, Value>, k: Key, v: Value)
    requires k in c
    ensures |NewKeys(m[k := v], c)| == |NewKeys(m, c)| - if k in m then 0 else 1
  {
    assert NewKeys(m[k := v], c) == NewKeys(m, c) - {k};
    OneFewer(NewKeys(m, c), k);
  }

  lemma OverlayEmpty(m: map<Key, Value>)
    ensures map[] + m == m && m + map[] == m
  {
  }

  lemma OverlayStep(m: map<Key, Value>, c: map<Key, Value>, k: Key, v: Value)
    ensures m + c[k := v] == (m + c)[k := v]
  {
  }

  /** Stores the live cell `i` of `src` into `dst`. */
  method MergeOne(dst: Dict, src: Dict, i: nat, ghost room: nat) returns (ghost left: nat)
    requires dst.Valid() && src.Valid()
    requires dst != src ==> dst.table != src.table
    requires i < src.size && src.table[i].Live?
    requires Room(dst.table[..], room)
    requires src.table[i].key !in dst.Map() ==> room > 0
    modifies dst`fill, dst`used, dst`size, dst`table, dst.table
    ensures dst.Valid() && src.Valid() && dst.Map() == old(dst.Map())[old(src.table[i].key) := old(src.table[i].val)]
    ensures src.table == old(src.table) && src.table[..] == old(src.table[..])
    ensures dst.table == old(dst.table) || fresh(dst.table)
    ensures left == room - (if old(src.table[i].key in dst.Map()) then 0 else 1) && Room(dst.table[..], left)
    ensures Count(old(dst.table[..]), IsDummy) == 0 ==> Count(dst.table[..], IsDummy) == 0
  {
    hide Reachable, Contents, IsPow2, Count, HasNull, NoNullBefore, Landing;
    var entry := src.table[i];
    left := room - if entry.key in dst.Map() then 0 else 1;
    ghost var t := dst.table[..];
    dst.RoomLooks(entry.key);
    if dst == src {
      ContentsAt(t, i);
    }
    dst.Store(entry.key, entry.val);
    if dst == src {
      ghost var j: nat :| Placed(dst.H, t, dst.table[..], entry.key, entry.val, j);
      LandingMeaning(dst.H, t, entry.key, j);
      assert i == j;
    }
  }

  /** An independent dictionary with the same entries; NULL for NULL. */
  method Clone(source: Dict?) returns (copy: Dict?)
    requires source != null ==> source.Valid()
    ensures copy == null <==> source == null
    ensures source != null ==>
              && fresh(copy) && fresh(copy.table) && copy.Valid() && copy.H == source.H
              && copy.Map() == source.Map() && copy.used == source.used
              && Count(copy.table[..], IsDummy) == 0
  {
    if source == null {
      return null;
    }
    copy := new Dict(source.H);
    NoTombstones(copy.table[..]);
    OverlayEmpty(source.Map());
    Merge(copy, source);
    LiveCountIsSize(copy.table[..]);
    LiveCountIsSize(source.table[..]);
  }

  /** A fresh dictionary holding both, `b` preferred. */
  method MergeNew(a: Dict?, b: Dict?) returns (merged: Dict?)
    requires a != null ==> a.Valid()
    requires b != null ==> b.Valid()
    ensures merged == null <==> a == null || b == null
    ensures a != null && b != null ==>
              && fresh(merged) && fresh(merged.table) && merged.Valid() && merged.H == a.H
              && merged.Map() == a.Map() + b.Map()
              && Count(merged.table[..], IsDummy) == 0
  {
    if a == null || b == null {
      return null;
    }
    hide Count, Reachable, Contents, IsPow2, Unique, NewKeys;
    merged := new Dict(a.H);
    NoTombstones(merged.table[..]);
    OverlayEmpty(a.Map());
    Merge(merged, a);
    Merge(merged, b);
  }

  /** Both lookups a diff makes come back: neither dictionary is asked for an absent key while it has no Null slot. */
  ghost predicate CanDiff(a: Dict, b: Dict)
    reads a, a.table, b, b.table
  {
    && (HasNull(a.table[..]) || b.Map().Keys <= a.Map().Keys)
    && (HasNull(b.table[..]) || a.Map().Keys <= b.Map().Keys)
  }

  method Diff(a: Dict?, b: Dict?) returns (diff: Dict?)
    requires a != null ==> a.Valid()
    requires b != null ==> b.Valid()
    requires a != null && b != null ==> CanDiff(a, b)
    ensures diff == null <==> a == null || b == null
    ensures a != null && b != null ==>
              && fresh(diff) && fresh(diff.table) && diff.Valid() && diff.H == a.H
              && diff.Map() == DiffOf(a.Map(), b.Map())
              && Count(diff.table[..], IsDummy) == 0
  {
    if a == null || b == null {
      return null;
    }
    diff := new Dict(a.H);
    NoTombstones(diff.table[..]);
    DiffChanged(a, b, diff);
    DiffLost(a, b, diff);
    DiffHalves(a.Map(), b.Map());
  }

  /** `diff` is a dictionary of its own, without tombstones. */
  ghost predicate Separate(d: Dict, diff: Dict)
    reads d, diff, diff.table
  {
    diff != d && diff.table != d.table && diff.Valid() && Count(diff.table[..], IsDummy) == 0
  }

  method DiffChanged(a: Dict, b: Dict, diff: Dict)
    requires a.Valid() && b.Valid() && CanDiff(a, b)
    requires Separate(a, diff) && Separate(b, diff) && diff.Map() == map[]
    modifies diff`fill, diff`used, diff`size, diff`table, diff.table
    ensures Separate(a, diff) && Separate(b, diff) && (diff.table == old(diff.table) || fresh(diff.table))
    ensures diff.Map() == Changed(a.Map(), b.Map())
  {
    hide Walked, NoLive, Count, Contents, HasNull, Changed;
    ghost var ma, t, seen: map<Key, Value> := a.Map(), b.table[..], map[];
    WalkStart(t);
    HalvesOfEmpty(ma);
    hide IsTable;
    var rank := 0;
    while true
      invariant 0 <= rank <= b.size
      invariant Separate(a, diff) && Separate(b, diff) && (diff.table == old(diff.table) || fresh(diff.table))
      invariant Walked(t, rank, seen) && diff.Map() == Changed(ma, seen)
      decreases b.size - rank
    {
      var next, entry := b.Enumerate(rank);
      if next < 0 {
        WalkEnd(t, rank, seen);
        return;
      }
      WalkStep(t, rank, next, seen, entry);
      var was := a.Get(entry.key);
      ChangedStep(ma, seen, entry.key, entry.val);
      if was.None? || !ValuesEqual(was.value, entry.val) {
        diff.RoomLooks(entry.key);
        diff.Store(entry.key, entry.val);
      }
      seen := seen[entry.key := entry.val];
      rank := next;
    }
  }

  method DiffLost(a: Dict, b: Dict, diff: Dict)
    requires a.Valid() && b.Valid() && CanDiff(a, b)
    requires Separate(a, diff) && Separate(b, diff)
    modifies diff`fill, diff`used, diff`size, diff`table, diff.table
    ensures Separate(a, diff) && Separate(b, diff) && (diff.table == old(diff.table) || fresh(diff.table))
    ensures diff.Map() == old(diff.Map()) + Lost(a.Map(), b.Map())
  {
    hide Walked, NoLive, Count, Contents, HasNull, Lost;
    ghost var m, mb, t, seen: map<Key, Value> := diff.Map(), b.Map(), a.table[..], map[];
    WalkStart(t);
    HalvesOfEmpty(mb);
    OverlayEmpty(m);
    hide IsTable;
    var rank := 0;
    while true
      invariant 0 <= rank <= a.size
      invariant Separate(a, diff) && Separate(b, diff) && (diff.table == old(diff.table) || fresh(diff.table))
      invariant Walked(t, rank, seen) && diff.Map() == m + Lost(seen, mb)
      decreases a.size - rank
    {
      var next, entry := a.Enumerate(rank);
      if next < 0 {
        WalkEnd(t, rank, seen);
        return;
      }
      WalkStep(t, rank, next, seen, entry);
      var there := b.Get(entry.key);
      LostStep(seen, mb, entry.key, entry.val);
      OverlayStep(m, Lost(seen, mb), entry.key, NullV);
      if there.None? {
        diff.RoomLooks(entry.key);
        diff.Store(entry.key, NullV);
      }
      seen := seen[entry.key := entry.val];
      rank := next;
    }
  }

  /** First half of a diff: entries of `b` that are new or different. */
  ghost function Changed(a: map<Key, Value>, b: map<Key, Value>): map<Key, Value> {
    map k | k in b && !(k in a && a[k] == b[k]) :: b[k]
  }

  /** Second half of a diff: a null for every key only `a` has. */
  ghost function Lost(a: map<Key, Value>, b: map<Key, Value>): map<Key, Value> {
    map k | k in a && k !in b :: NullV
  }

  lemma DiffHalves(a: map<Key, Value>, b: map<Key, Value>)
    ensures DiffOf(a, b) == Changed(a, b) + Lost(a, b)
  {
  }

  lemma HalvesOfEmpty(m: map<Key, Value>)
    ensures Changed(m, map[]) == Lost(map[], m) == map[]
  {
  }

  lemma ChangedStep(a: map<Key, Value>, b: map<Key, Value>, k: Key, v: Value)
    requires k !in b
    ensures Changed(a, b[k := v]) == if k in a && ValuesEqual(a[k], v) then Changed(a, b) else Changed(a, b)[k := v]
  {
  }

  lemma LostStep(a: map<Key, Value>, b: map<Key, Value>, k: Key, v: Value)
    requires k !in a
    ensures Lost(a[k := v], b) == if k in b then Lost(a, b) else Lost(a, b)[k := NullV]
  {
  }
}
