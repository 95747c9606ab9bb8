/**
 The hash dictionary object: open addressing, tombstones and resizing.
 */
module Dict {
  import opened Bytes
  import opened Probe
  import opened DictTable

  const DICT_MIN_SZ := 8
  const DICT_BIGSZ := 64000

  /** A table of this size is tight when it does not exceed four times its live entries, or twice once it is big. */
  function Need(size: nat, used: nat): nat {
    if size > DICT_BIGSZ then 2 * used else 4 * used
  }

  /** A store that would pass two thirds asks for a resize, and the resize rebuilds only if the table is tight for its live entries. */
  predicate Rebuilds(fill: nat, used: nat, size: nat) {
    3 * (fill + 1) >= 2 * size && size <= Need(size, used)
  }

  /** Every one of `n` further new keys finds a Null slot: there is no tombstone, or there are Null slots enough. */
  ghost predicate Room(t: seq<Cell>, n: nat) {
    n == 0 || Count(t, IsDummy) == 0 || Count(t, IsNull) >= n
  }

  /** The table after storing in place: the lookup's slot, and no other, now holds the pair. */
  ghost predicate Placed(h: HashFn, t: seq<Cell>, t': seq<Cell>, key: Key, val: Value, i: nat)
    requires |t| > 0
  {
    LandsOn(t, key, h(key), i) && t' == t[i := Live(key, h(key), val)]
  }

  /** No live cell at an index from `lo` up to `hi`. */
  ghost predicate NoLive(t: seq<Cell>, lo: nat, hi: nat) {
    forall j :: lo <= j < hi && j < |t| ==> !t[j].Live?
  }

  /** The table after a deletion: the key's slot, and no other, is now a tombstone. */
  ghost predicate Buried(t: seq<Cell>, t': seq<Cell>, key: Key, i: nat) {
    i < |t| && t[i].Live? && t[i].key == key && t' == t[i := Dummy]
  }

  lemma {:induction false} Pow2Bound(size: nat)
    requires IsPow2(size) && size >= 8
    ensures size % 8 == 0
    ensures IsPow2(2 * size)
  {
    var k: nat :| size == Pow2(k);
    assert Pow2(k + 1) == 2 * size;
    assert Pow2(2) == 4 && Pow2(1) == 2 && Pow2(0) == 1;
    if k >= 3 {
      Pow2Sum(k - 3, 3);
      assert Pow2(3) == 8;
    }
  }

  // ----- The probing loop -----

  /** After round `n`, at slot `i`: nothing has stopped the lookup, and `free` is the first tombstone passed, in round `first`. */
  ghost predicate Probing(t: seq<Cell>, key: Key, hash: Hash, n: nat, i: nat, perturb: nat, free: Option<nat>, first: nat) {
    && |t| > 0 && i == Slot(|t|, hash, hash, n) && perturb == Perturb(hash, n)
    && PassesBefore(t, key, hash, n + 1)
    && match free
       case None => NoDummyBefore(t, hash, n + 1)
       case Some(f) => first <= n && At(t, hash, first).Dummy? && NoDummyBefore(t, hash, first) && f == Slot(|t|, hash, hash, first)
  }

  lemma LandsAtOnce(t: seq<Cell>, key: Key, hash: Hash)
    requires |t| > 0 && (t[hash % |t|].Null? || Matches(t[hash % |t|], key, hash))
    ensures LandsOn(t, key, hash, hash % |t|)
  {
    assert StopsAt(t, key, hash, 0);
    assert Landing(t, key, hash, 0, hash % |t|);
  }

  lemma ProbingStarts(t: seq<Cell>, key: Key, hash: Hash)
    requires |t| > 0 && !t[hash % |t|].Null? && !Matches(t[hash % |t|], key, hash)
    ensures var i := hash % |t|; Probing(t, key, hash, 0, i, hash, if t[i].Dummy? then Some(i) else None, 0)
  {
    assert At(t, hash, 0) == t[hash % |t|];
  }

  lemma ProbingBefore(t: seq<Cell>, key: Key, hash: Hash, n: nat, i: nat, perturb: nat, free: Option<nat>, first: nat, last: nat)
    requires Probing(t, key, hash, n, i, perturb, free, first) && !Passes(t, key, hash, last)
    ensures n < last
  {
  }

  /** The next round finds the key, ends at a Null slot, or goes on. */
  lemma ProbingNext(t: seq<Cell>, key: Key, hash: Hash, n: nat, i: nat, perturb: nat, free: Option<nat>, first: nat)
    requires Probing(t, key, hash, n, i, perturb, free, first)
    ensures |t| > 0
    ensures var j := Next(|t|, i, perturb);
            if t[j].Null? then LandsOn(t, key, hash, if free.None? then j else free.value)
            else if Matches(t[j], key, hash) then LandsOn(t, key, hash, j)
            else if t[j].Dummy? && free.None? then Probing(t, key, hash, n + 1, j, perturb / 32, Some(j), n + 1)
            else Probing(t, key, hash, n + 1, j, perturb / 32, free, first)
  {
    var j := Next(|t|, i, perturb);
    assert j == Slot(|t|, hash, hash, n + 1) && t[j] == At(t, hash, n + 1);
    hide Slot, Perturb;
    if t[j].Null? || Matches(t[j], key, hash) {
      assert StopsAt(t, key, hash, n + 1);
      NextLands(t, key, hash, n, free, first, j);
    } else {
      assert perturb / 32 == Perturb(hash, n + 1) by { PerturbNext(hash, n); }
    }
  }

  lemma PerturbNext(hash: Hash, n: nat)
    ensures Perturb(hash, n + 1) == Perturb(hash, n) / 32
  {
  }

  lemma NextLands(t: seq<Cell>, key: Key, hash: Hash, n: nat, free: Option<nat>, first: nat, j: nat)
    requires |t| > 0 && j == Slot(|t|, hash, hash, n + 1) && StopsAt(t, key, hash, n + 1)
    requires match free
             case None => NoDummyBefore(t, hash, n + 1)
             case Some(f) => first <= n && At(t, hash, first).Dummy? && NoDummyBefore(t, hash, first) && f == Slot(|t|, hash, hash, first)
    ensures LandsOn(t, key, hash, if t[j].Live? || free.None? then j else free.value)
  {
    hide Slot, StopsAt, Passes;
    assert t[j] == At(t, hash, n + 1);
    assert Landing(t, key, hash, n + 1, if t[j].Live? || free.None? then j else free.value);
  }

  class Dict {
    const H: HashFn
    var fill: nat
    var used: nat
    var size: nat
    var table: array<Cell>

    ghost predicate Valid()
      reads this, table
    {
      && table.Length == size
      && IsTable(H, table[..])
      && used == Count(table[..], IsLive)
      && fill + Count(table[..], IsNull) >= size
      && 3 * used < 2 * size
    }

    ghost function Map(): map<Key, Value>
      reads this, table
    {
      Contents(table[..])
    }

    /** What a lookup for `key` needs in order to come back. */
    ghost predicate CanLook(key: Key)
      reads this, table
    {
      HasNull(table[..]) || key in Map()
    }

    constructor (h: HashFn)
      ensures Valid() && fresh(table)
      ensures H == h && Map() == map[]
      ensures size == 8 && used == fill == 0
      ensures table[..] == [Null, Null, Null, Null, Null, Null, Null, Null]
    {
      H := h;
      fill, used, size := 0, 0, DICT_MIN_SZ;
      table := new Cell[DICT_MIN_SZ](_ => Null);
      new;
      assert Pow2(3) == 8;
      assert IsPow2(8);
      EmptyTable(h, table[..]);
      assert table[..] == seq(DICT_MIN_SZ, _ => Null);
    }

    lemma LookStops(key: Key) returns (last: nat)
      requires Valid() && CanLook(key)
      ensures !Passes(table[..], key, H(key), last)
    {
      hide Passes, Reachable, HasNull, IsPow2, Unique;
      LookupStopsIff(H, table[..], key);
      last :| !Passes(table[..], key, H(key), last);
    }

    /** The slot that holds `key`, or the slot where it would be stored. */
    method Lookup(key: Key, hash: Hash) returns (i: nat)
      requires Valid() && hash == H(key)
      requires CanLook(key)
      ensures LandsOn(table[..], key, hash, i)
    {
      hide Probing, LandsOn, Passes, Unique, Contents, Reachable, HasNull, IsPow2;
      ghost var t := table[..];
      i := hash % size;
      if table[i].Null? || Matches(table[i], key, hash) {
        LandsAtOnce(t, key, hash);
        return;
      }
      ghost var last := LookStops(key);
      var free: Option<nat> := None;
      if table[i].Dummy? {
        free := Some(i);
      }
      var perturb: nat := hash;
      ghost var n: nat, first: nat := 0, 0;
      ProbingStarts(t, key, hash);
      while true
        invariant i < size && table[..] == t && Probing(t, key, hash, n, i, perturb, free, first)
        decreases last - n
      {
        ProbingBefore(t, key, hash, n, i, perturb, free, first, last);
        ProbingNext(t, key, hash, n, i, perturb, free, first);
        i := Next'(i, perturb);
        n := n + 1;
        if table[i].Null? {
          i := if free.None? then i else free.value;
          return;
        }
        if Matches(table[i], key, hash) {
          return;
        }
        if table[i].Dummy? && free.None? {
          free, first := Some(i), n;
        }
        perturb := perturb / 32;
      }
    }

    function Next'(i: nat, perturb: nat): nat
      requires size > 0
      reads this
    {
      (4 * i + i + perturb + 1) % size
    }

    method Get(key: Key) returns (v: Option<Value>)
      requires Valid() && CanLook(key)
      ensures v == if key in Map() then Some(Map()[key]) else None
    {
      var i := Lookup(key, H(key));
      LandingMeaning(H, table[..], key, i);
      if table[i].Live? {
        ContentsAt(table[..], i);
        v := Some(table[i].val);
      } else {
        v := None;
      }
    }

    /** Insert without the room check; only the resize uses it, on keys known to be absent. */
    method AddP(src: Cell)
      requires Valid()
      requires src.Live? && src.hash == H(src.key) && src.key !in Map()
      requires Count(table[..], IsDummy) == 0 && fill == used
      requires 3 * (used + 1) < 2 * size
      modifies this`fill, this`used, table
      ensures Valid()
      ensures Map() == old(Map())[src.key := src.val]
      ensures used == old(used) + 1 && fill == used
      ensures Count(table[..], IsDummy) == 0
    {
      ghost var t := table[..];
      CountTotal(t);
      HasNullIsCount(t);
      var i := Lookup(src.key, H(src.key));
      LandingMeaning(H, t, src.key, i);
      StoreAt(H, t, src.key, src.val, i);
      CountChanges(t, i, src);
      CountPositiveAt(t, i);
      table[i] := src;
      used := used + 1;
      fill := fill + 1;
      assert table[..] == t[i := src];
    }

    static lemma CountChanges(t: seq<Cell>, i: nat, c: Cell)
      requires i < |t|
      ensures forall k :: Count(t[i := c], k) == Count(t, k) - (if t[i].Kind() == k then 1 else 0) + (if c.Kind() == k then 1 else 0)
      ensures Count(t, IsNull) + Count(t, IsDummy) + Count(t, IsLive) == |t|
    {
      forall k ensures Count(t[i := c], k) == Count(t, k) - (if t[i].Kind() == k then 1 else 0) + (if c.Kind() == k then 1 else 0) {
        CountUpdate(t, i, c, k);
      }
      CountTotal(t);
    }

    static lemma CountPositiveAt(t: seq<Cell>, i: nat)
      requires i < |t|
      ensures Count(t, t[i].Kind()) > 0
    {
      CountPositive(t, t[i].Kind());
    }

    /** Rebuild at a size that fits the live entries; a table that already fits is left as it is, tombstones included. */
    method Resize()
      requires Valid()
      modifies this`fill, this`used, this`size, this`table
      ensures Valid() && Map() == old(Map()) && used == old(used)
      ensures var need := if old(size) > 64000 then 2 * used else 4 * used;
              && size > need && (size != old(size) <==> old(size) <= need) && (size != old(size) ==> size <= 2 * need)
      ensures size == old(size) ==> table == old(table) && fill == old(fill)
      ensures size != old(size) ==> fresh(table) && fill == used && Count(table[..], IsDummy) == 0
    {
      var newsize := size;
      var need := Need(size, used);
      while newsize <= need
        invariant newsize >= size && IsPow2(newsize)
        invariant newsize != size ==> size <= need && newsize <= 2 * need
        modifies {}
      {
        Pow2Bound(newsize);
        newsize := newsize * 2;
      }
      if newsize == size {
        return;
      }
      Rebuild(newsize);
    }

    /** Rehash every live entry into a fresh table of the given size. */
    method Rebuild(newsize: nat)
      requires Valid()
      requires IsPow2(newsize) && newsize >= 8 && newsize > 2 * used
      modifies this`fill, this`used, this`size, this`table
      ensures Valid() && Map() == old(Map()) && used == old(used) && size == newsize
      ensures fresh(table) && fill == used && Count(table[..], IsDummy) == 0
    {
      var oldtable := table;
      var oldsize := size;
      ghost var t := oldtable[..];
      table := new Cell[newsize](_ => Null);
      size := newsize;
      used, fill := 0, 0;
      EmptyTable(H, table[..]);
      assert Keys(t[..0]) == {};
      assert Contents(t[..0]) == map[] && Count(t[..0], IsLive) == 0;
      hide Reachable, Contents, Count, HasNull, IsPow2;
      for i := 0 to oldsize
        invariant Valid() && fresh(table) && size == newsize && oldtable[..] == t
        invariant Map() == Contents(t[..i])
        invariant used == fill == Count(t[..i], IsLive)
        invariant Count(table[..], IsDummy) == 0
      {
        ContentsOfPrefix(t, i);
        CountOfPrefix(t, i);
        if oldtable[i].Live? {
          AddP(oldtable[i]);
        }
      }
      assert t[..oldsize] == t;
    }

    static lemma CountOfPrefix(t: seq<Cell>, n: nat)
      requires n < |t|
      ensures Count(t[..n + 1], IsLive) == Count(t[..n], IsLive) + if t[n].Live? then 1 else 0
      ensures Count(t[..n + 1], IsLive) <= Count(t, IsLive)
      decreases |t|
    {
      assert t[..n + 1][..n] == t[..n];
      if n + 1 < |t| {
        var u := t[..|t| - 1];
        assert u[..n + 1] == t[..n + 1];
        CountOfPrefix(u, n);
      } else {
        assert t[..n + 1] == t;
      }
    }

    /** Room for one new key is enough for any lookup to come back. */
    lemma RoomLooks(key: Key)
      requires Valid()
      requires Room(table[..], 1) || key in Map()
      ensures CanLook(key)
    {
      CountTotal(table[..]);
      HasNullIsCount(table[..]);
    }

    method Store(key: Key, val: Value)
      requires Valid() && CanLook(key)
      modifies this`fill, this`used, this`size, this`table, table
      ensures Valid() && Map() == old(Map())[key := val]
      ensures table == old(table) || fresh(table)
      ensures used == old(used) + if key in old(Map()) then 0 else 1
      // Storing in place: one slot changes, and overwriting a key counts towards `fill` all the same.
      ensures key in old(Map()) || 3 * (old(fill) + 1) < 2 * old(size)
              || old(size) > (if old(size) > 64000 then 2 * old(used) else 4 * old(used)) ==>
                && table == old(table) && size == old(size)
                && (exists i: nat :: Placed(H, old(table[..]), table[..], key, val, i))
                && fill + Count(table[..], IsNull)
                   == old(fill) + Count(old(table[..]), IsNull) + if key in old(Map()) then 1 else 0
      // Rebuilding drops every tombstone and recounts.
      ensures var need := if old(size) > 64000 then 2 * old(used) else 4 * old(used);
              key !in old(Map()) && 3 * (old(fill) + 1) >= 2 * old(size) && old(size) <= need ==>
                && fresh(table) && fill == used && Count(table[..], IsDummy) == 0
                && need < size <= 2 * need
      ensures Count(table[..], IsDummy) <= Count(old(table[..]), IsDummy)
      // At most the new key's own Null slot is used up.
      ensures Count(table[..], IsDummy) == 0
              || Count(table[..], IsNull) + (if key in old(Map()) then 0 else 1) >= Count(old(table[..]), IsNull)
    {
      hide Reachable, Contents, IsPow2, Count, HasNull;
      var i := SlotFor(key);
      ghost var u := table[..];
      Commit(i, key, val);
      CountTotal(u);
      CountTotal(table[..]);
      assert Placed(H, u, table[..], key, val, i);
    }

    /** The first part of a store: find the slot, resizing on the way if a new key would fill the table too far. */
    method SlotFor(key: Key) returns (i: nat)
      requires Valid() && CanLook(key)
      modifies this`fill, this`used, this`size, this`table
      ensures Valid() && Map() == old(Map()) && used == old(used)
      ensures LandsOn(table[..], key, H(key), i)
      ensures key !in Map() ==> 3 * (used + 1) < 2 * size
      ensures key in Map() || !Rebuilds(old(fill), used, old(size)) ==>
                table == old(table) && size == old(size) && fill == old(fill)
      ensures key !in Map() && Rebuilds(old(fill), used, old(size)) ==>
                && fresh(table) && fill == used && Count(table[..], IsDummy) == 0
                && Need(old(size), used) < size <= 2 * Need(old(size), used)
    {
      hide Reachable, Count, IsPow2, Unique, ValueAt;
      i := Lookup(key, H(key));
      LandingMeaning(H, table[..], key, i);
      CountTotal(table[..]);
      if !table[i].Live? && 3 * (fill + 1) >= 2 * size {
        Resize();
        CountTotal(table[..]);
        HasNullIsCount(table[..]);
        i := Lookup(key, H(key));
      }
    }

    /** The last part of a store: write the pair where the lookup landed and adjust the counters. */
    method Commit(i: nat, key: Key, val: Value)
      requires Valid() && LandsOn(table[..], key, H(key), i)
      requires key !in Map() ==> 3 * (used + 1) < 2 * size
      modifies this`fill, this`used, table
      ensures Valid() && Map() == old(Map())[key := val]
      ensures table[..] == old(table[..])[i := Live(key, H(key), val)]
      ensures used == old(used) + if key in old(Map()) then 0 else 1
      ensures fill + Count(table[..], IsNull)
              == old(fill) + Count(old(table[..]), IsNull) + if key in old(Map()) then 1 else 0
      ensures Count(table[..], IsNull) + 1 >= Count(old(table[..]), IsNull) >= Count(table[..], IsNull)
      ensures key in old(Map()) ==> Count(table[..], IsNull) == Count(old(table[..]), IsNull)
      ensures Count(table[..], IsDummy) <= Count(old(table[..]), IsDummy)
    {
      hide IsTable, LandsOn, Contents, Count;
      ghost var t := table[..];
      var c := Live(key, H(key), val);
      CommitChanges(t, key, val, i);
      if table[i].Live? {
        used := used - 1;
      } else if table[i].Dummy? {
        fill := fill - 1;
      }
      table[i] := c;
      used := used + 1;
      fill := fill + 1;
      assert table[..] == t[i := c];
    }

    /** What the write does to the table, to its map and to the counts. */
    lemma CommitChanges(t: seq<Cell>, key: Key, val: Value, i: nat)
      requires IsTable(H, t) && LandsOn(t, key, H(key), i)
      ensures i < |t| && (t[i].Live? <==> key in Contents(t))
      ensures var u := t[i := Live(key, H(key), val)];
              && IsTable(H, u) && Contents(u) == Contents(t)[key := val]
              && Count(u, IsLive) == Count(t, IsLive) + (if t[i].Live? then 0 else 1)
              && Count(u, IsNull) == Count(t, IsNull) - (if t[i].Null? then 1 else 0)
              && Count(u, IsDummy) == Count(t, IsDummy) - (if t[i].Dummy? then 1 else 0)
      ensures Count(t, t[i].Kind()) > 0 && Count(t, IsNull) + Count(t, IsDummy) + Count(t, IsLive) == |t|
    {
      hide Count, IsTable;
      LandingMeaning(H, t, key, i);
      StoreAt(H, t, key, val, i);
      CountChanges(t, i, Live(key, H(key), val));
      CountPositiveAt(t, i);
    }

    /** Deleting leaves a tombstone; `fill` keeps counting it. */
    method Del(key: Key) returns (rc: int)
      requires Valid() && CanLook(key)
      modifies this`used, table
      ensures Valid() && Map() == old(Map()) - {key}
      ensures rc == if key in old(Map()) then 0 else -1
      ensures rc == 0 ==> used == old(used) - 1 && exists i: nat :: Buried(old(table[..]), table[..], key, i)
      ensures rc != 0 ==> used == old(used) && table[..] == old(table[..])
    {
      var i := Lookup(key, H(key));
      ghost var t := table[..];
      LandingMeaning(H, t, key, i);
      if !table[i].Live? {
        assert key !in Map();
        return -1;
      }
      DeleteAt(H, t, i);
      CountChanges(t, i, Dummy);
      CountPositiveAt(t, i);
      table[i] := Dummy;
      used := used - 1;
      rc := 0;
      assert Buried(t, table[..], key, i);
    }

    /** The first live slot at or after `rank`, and the rank to go on from; -1 when there is none. */
    method Enumerate(rank: int) returns (next: int, entry: Cell)
      requires Valid()
      ensures rank < 0 ==> next == -1
      ensures rank >= 0 && next < 0 ==> next == -1 && NoLive(table[..], rank, size)
      ensures next >= 0 ==> 0 <= rank < next <= size && entry == table[next - 1] && entry.Live?
                            && NoLive(table[..], rank, next - 1)
    {
      entry := Null;
      if rank < 0 {
        return -1, entry;
      }
      var r := rank;
      while r < size && !table[r].Live?
        invariant rank <= r && (r <= size || r == rank)
        invariant forall j :: rank <= j < r && j < size ==> !table[j].Live?
      {
        r := r + 1;
      }
      if r >= size {
        return -1, entry;
      }
      return r + 1, table[r];
    }
  }
}
