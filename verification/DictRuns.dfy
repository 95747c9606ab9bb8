/**
 Whole runs of dictionary operations: runs without deletion never get stuck,
 and a run with deletions that does.
 */
module DictRuns {
  import opened Probe
  import opened DictTable
  import opened Dict

  /** The map after storing the pairs in order. */
  ghost function StoreAll(kvs: seq<(Key, Value)>): map<Key, Value> {
    if kvs == [] then map[]
    else var (k, v) := kvs[|kvs| - 1]; StoreAll(kvs[..|kvs| - 1])[k := v]
  }

  /** Any run of stores, under any hash: no lookup is ever stuck, no tombstone appears, the table is at most two thirds full. */
  method RunWithoutDeletes(h: HashFn, kvs: seq<(Key, Value)>) returns (d: Dict)
    ensures fresh(d) && d.Valid() && d.H == h
    ensures d.Map() == StoreAll(kvs)
    ensures d.used == |d.Map()| && 3 * d.used < 2 * d.size && IsPow2(d.size)
    ensures Count(d.table[..], IsDummy) == 0
    ensures forall key :: d.CanLook(key)
  {
    d := new Dict(h);
    CountPositive(d.table[..], IsDummy);
    for n := 0 to |kvs|
      invariant fresh(d) && fresh(d.table) && d.Valid() && d.H == h
      invariant d.Map() == StoreAll(kvs[..n])
      invariant Count(d.table[..], IsDummy) == 0
    {
      assert kvs[..n + 1][..n] == kvs[..n];
      d.RoomLooks(kvs[n].0);
      d.Store(kvs[n].0, kvs[n].1);
    }
    assert kvs[..|kvs|] == kvs;
    LiveCountIsSize(d.table[..]);
    d.RoomLooks([]);
    CountTotal(d.table[..]);
    HasNullIsCount(d.table[..]);
  }

  // ----- Runs with deletions -----

  datatype Op = Put(key: Key, val: Value) | Drop(key: Key)

  ghost function Final(ops: seq<Op>): map<Key, Value> {
    if ops == [] then map[]
    else
      var m := Final(ops[..|ops| - 1]);
      match ops[|ops| - 1]
      case Put(k, v) => m[k := v]
      case Drop(k) => m - {k}
  }

  /** Deletions of keys that are there. */
  ghost function Deletions(ops: seq<Op>): nat {
    if ops == [] then 0
    else
      var before := ops[..|ops| - 1];
      Deletions(before) + match ops[|ops| - 1] case Put(_, _) => 0 case Drop(k) => if k in Final(before) then 1 else 0
  }

  lemma {:induction false} DeletionsGrow(ops: seq<Op>, n: nat)
    requires n <= |ops|
    ensures Deletions(ops[..n]) <= Deletions(ops)
    decreases |ops|
  {
    if n < |ops| {
      DeletionsGrow(ops[..|ops| - 1], n);
      assert ops[..|ops| - 1][..n] == ops[..n];
    } else {
      assert ops[..n] == ops;
    }
  }

  /** The last Null slot goes only when a table with next to nothing in it is full of tombstones. */
  lemma LastNullNeedsTombstones(size: nat, fill: nat, used: nat, dummies: nat)
    requires size >= 8 && used + dummies + 1 == size && fill + 1 >= size
    requires !Rebuilds(fill, used, size)
    ensures dummies >= 6
  {
  }

  /** Any run of stores and deletions with at most five deletions, under any hash, refines the map and never gets stuck. */
  method RunWithFewDeletes(h: HashFn, ops: seq<Op>) returns (d: Dict)
    requires Deletions(ops) <= 5
    ensures fresh(d) && d.Valid() && d.H == h
    ensures d.Map() == Final(ops)
    ensures forall key :: d.CanLook(key)
  {
    hide Reachable, Contents, IsPow2, Count, HasNull, Rebuilds;
    d := new Dict(h);
    EmptyTable(h, d.table[..]);
    for n := 0 to |ops|
      invariant fresh(d) && fresh(d.table) && d.Valid() && d.H == h
      invariant d.Map() == Final(ops[..n])
      invariant Count(d.table[..], IsDummy) <= Deletions(ops[..n]) && Count(d.table[..], IsNull) > 0
    {
      assert ops[..n + 1][..n] == ops[..n];
      DeletionsGrow(ops, n);
      HasNullIsCount(d.table[..]);
      match ops[n] {
        case Put(k, v) => PutOne(d, k, v);
        case Drop(k) => DropOne(d, k);
      }
    }
    assert ops[..|ops|] == ops;
    HasNullIsCount(d.table[..]);
  }

  method PutOne(d: Dict, k: Key, v: Value)
    requires d.Valid() && Count(d.table[..], IsNull) > 0 && Count(d.table[..], IsDummy) <= 5
    modifies d`fill, d`used, d`size, d`table, d.table
    ensures d.Valid() && d.Map() == old(d.Map())[k := v] && (d.table == old(d.table) || fresh(d.table))
    ensures Count(d.table[..], IsNull) > 0 && Count(d.table[..], IsDummy) <= Count(old(d.table[..]), IsDummy)
  {
    hide Reachable, Contents, IsPow2, Count, HasNull;
    ghost var t := d.table[..];
    HasNullIsCount(t);
    CountTotal(t);
    TableSize(d.H, t);
    if Count(t, IsNull) == 1 && !Rebuilds(d.fill, d.used, d.size) {
      LastNullNeedsTombstones(d.size, d.fill, d.used, Count(t, IsDummy));
    }
    d.Store(k, v);
    CountTotal(d.table[..]);
    TableSize(d.H, d.table[..]);
  }

  lemma TableSize(h: HashFn, t: seq<Cell>)
    requires IsTable(h, t)
    ensures |t| >= 8
  {
  }

  method DropOne(d: Dict, k: Key)
    requires d.Valid() && Count(d.table[..], IsNull) > 0
    modifies d`used, d.table
    ensures d.Valid() && d.Map() == old(d.Map()) - {k} && d.table == old(d.table)
    ensures Count(d.table[..], IsNull) > 0
    ensures Count(d.table[..], IsDummy) <= Count(old(d.table[..]), IsDummy) + if k in old(d.Map()) then 1 else 0
  {
    hide Reachable, Contents, IsPow2, Count, HasNull;
    ghost var t := d.table[..];
    HasNullIsCount(t);
    var rc := d.Del(k);
    if rc == 0 {
      ghost var i: nat :| Buried(t, d.table[..], k, i);
      CountUpdate(t, i, Dummy, IsNull);
      CountUpdate(t, i, Dummy, IsDummy);
    }
  }

  // ----- Any run -----

  function KeyOf(op: Op): Key {
    match op
    case Put(k, _) => k
    case Drop(k) => k
  }

  /** Whether a lookup of the key will come back, which the program itself cannot tell. */
  method ComesBack(d: Dict, key: Key) returns (yes: bool)
    requires d.Valid()
    ensures yes <==> d.CanLook(key)
  {
    hide Reachable, IsPow2, Count, ValueAt;
    ghost var t := d.table[..];
    for i := 0 to d.size
      invariant forall j :: 0 <= j < i ==> !t[j].Null? && !(t[j].Live? && t[j].key == key)
    {
      var c := d.table[i];
      assert t[i] == c;
      if c.Null? {
        assert HasNull(t);
        return true;
      }
      if c.Live? && c.key == key {
        assert key in Keys(t);
        return true;
      }
    }
    yes := false;
  }

  /** Any run of stores and deletions refines the map up to the first operation whose lookup does not come back; if there is none, all of it. */
  method RunUntilStuck(h: HashFn, ops: seq<Op>) returns (d: Dict, n: nat)
    ensures fresh(d) && d.Valid() && d.H == h
    ensures n <= |ops| && d.Map() == Final(ops[..n])
    ensures n < |ops| ==> !d.CanLook(KeyOf(ops[n]))
  {
    hide Reachable, Contents, IsPow2, Count, HasNull, Rebuilds;
    d := new Dict(h);
    n := 0;
    while n < |ops|
      invariant fresh(d) && fresh(d.table) && d.Valid() && d.H == h
      invariant n <= |ops| && d.Map() == Final(ops[..n])
    {
      var yes := ComesBack(d, KeyOf(ops[n]));
      if !yes {
        return;
      }
      assert ops[..n + 1][..n] == ops[..n];
      match ops[n] {
        case Put(k, v) => d.Store(k, v);
        case Drop(k) => var rc := d.Del(k);
      }
      n := n + 1;
    }
  }

  // ----- Six deletions can be too many -----

  /** Eight keys, one for each home slot of a new table. */
  ghost predicate OnePerSlot(h: HashFn, keys: seq<Key>) {
    |keys| == DICT_MIN_SZ && forall j :: 0 <= j < |keys| ==> h(keys[j]) % DICT_MIN_SZ == j
  }

  /** `n` tombstones, then the live keys up to slot `m`, then Null slots. */
  ghost predicate Layout(h: HashFn, t: seq<Cell>, keys: seq<Key>, n: nat, m: nat)
    requires |keys| == DICT_MIN_SZ
  {
    && |t| == DICT_MIN_SZ
    && forall j :: 0 <= j < |t| ==> t[j] == if j < n then Dummy else if j < m then Live(keys[j], h(keys[j]), NullV) else Null
  }

  /** A key whose home slot is Null lands right there. */
  lemma LandsHome(t: seq<Cell>, key: Key, hash: Hash)
    requires |t| > 0 && t[hash % |t|].Null?
    ensures LandsOn(t, key, hash, hash % |t|)
  {
    assert StopsAt(t, key, hash, 0);
    assert Landing(t, key, hash, 0, hash % |t|);
  }

  /** Storing a key at its own home slot of a nearly empty table never rebuilds, however many tombstones there are. */
  method StoreHome(d: Dict, keys: seq<Key>, n: nat, m: nat)
    requires d.Valid() && OnePerSlot(d.H, keys) && n <= m < DICT_MIN_SZ
    requires Layout(d.H, d.table[..], keys, n, m) && d.used <= 1 && keys[m] !in d.Map()
    modifies d`fill, d`used, d`size, d`table, d.table
    ensures d.Valid() && d.Map() == old(d.Map())[keys[m] := NullV] && d.used == old(d.used) + 1
    ensures Layout(d.H, d.table[..], keys, n, m + 1) && d.table == old(d.table)
  {
    hide Reachable, Count, IsPow2, NoNullBefore, Contents;
    ghost var t := d.table[..];
    assert t[m].Null?;
    LandsHome(t, keys[m], d.H(keys[m]));
    d.Store(keys[m], NullV);
    ghost var i: nat :| Placed(d.H, t, d.table[..], keys[m], NullV, i);
    LandingUnique(t, keys[m], d.H(keys[m]), i, m);
  }

  /**
   One deletion more than the run above allows: six keys are stored and deleted
   in turn, then two are stored.  The resize each store asks for finds next to
   nothing live and rebuilds nothing, and the lookup of any other key runs for
   ever.
   */
  method Saturate(h: HashFn, keys: seq<Key>) returns (d: Dict)
    requires OnePerSlot(h, keys)
    ensures fresh(d) && d.Valid() && d.H == h && d.size == DICT_MIN_SZ
    ensures d.Map() == map[keys[6] := NullV, keys[7] := NullV]
    ensures forall key, n: nat :: key !in d.Map() ==> Passes(d.table[..], key, h(key), n)
  {
    hide Reachable, Count, IsPow2, NoNullBefore, Contents;
    d := new Dict(h);
    for n := 0 to 6
      invariant fresh(d) && fresh(d.table) && d.Valid() && d.H == h
      invariant d.used == 0 && d.Map() == map[] && Layout(h, d.table[..], keys, n, n)
    {
      StoreHome(d, keys, n, n);
      ghost var u := d.table[..];
      var rc := d.Del(keys[n]);
      ghost var j: nat :| Buried(u, d.table[..], keys[n], j);
    }
    StoreHome(d, keys, 6, 6);
    assert keys[7] != keys[6];
    StoreHome(d, keys, 6, 7);
    forall key, n: nat | key !in d.Map() ensures Passes(d.table[..], key, h(key), n) {
      assert At(d.table[..], h(key), n) in d.table[..];
    }
  }
}
