/**
 The slot table of the hash dictionary, as a value: what a lookup lands on,
 which map a table stands for, and how single-slot updates change that map.
 */
module DictTable {
  import opened Bytes
  import opened Probe

  type Key = CStr
  type HashFn = Key -> Hash

  /** A typed value. Floating-point payloads are exact reals: NaN, signed zero and rounding are not modelled. */
  datatype Value =
    | NullV
    | Str(s: Option<CStr>)
    | Int(i: int)
    | UInt(ui: int)
    | Long(l: int)
    | ULong(ul: int)
    | LLong(ll: int)
    | ULLong(ull: int)
    | Float(f: real)
    | Double(d: real)
    | Bool(b: bool)
    | Char(c: Byte)
    | Ptr(p: nat)

  datatype Kind = IsNull | IsDummy | IsLive

  datatype Cell = Null | Dummy | Live(key: Key, hash: Hash, val: Value) {
    function Kind(): Kind {
      match this
      case Null => IsNull
      case Dummy => IsDummy
      case Live(_, _, _) => IsLive
    }
  }

  predicate Matches(c: Cell, key: Key, hash: Hash) {
    c.Live? && c.hash == hash && c.key == key
  }

  // ----- What a table means -----

  ghost predicate Unique(t: seq<Cell>) {
    forall i, j :: 0 <= i < j < |t| && t[i].Live? && t[j].Live? ==> t[i].key != t[j].key
  }

  ghost function Keys(t: seq<Cell>): set<Key> {
    set i | 0 <= i < |t| && t[i].Live? :: t[i].key
  }

  ghost function ValueAt(t: seq<Cell>, k: Key): Value
    requires k in Keys(t)
  {
    var i :| 0 <= i < |t| && t[i].Live? && t[i].key == k;
    t[i].val
  }

  ghost function Contents(t: seq<Cell>): map<Key, Value> {
    map k | k in Keys(t) :: ValueAt(t, k)
  }

  ghost predicate HasNull(t: seq<Cell>) {
    exists i :: 0 <= i < |t| && t[i].Null?
  }

  /** The cell examined in round `n` of a lookup for a key with this hash. */
  ghost function At(t: seq<Cell>, hash: Hash, n: nat): Cell
    requires |t| > 0
  {
    t[Slot(|t|, hash, hash, n)]
  }

  ghost predicate NoNullBefore(t: seq<Cell>, hash: Hash, n: nat)
    requires |t| > 0
  {
    forall m: nat :: m < n ==> !At(t, hash, m).Null?
  }

  /** Some probe for `hash` gets to slot `i` without meeting a Null slot first. */
  ghost predicate Reachable(t: seq<Cell>, hash: Hash, i: nat)
    requires |t| > 0
  {
    exists n: nat :: Slot(|t|, hash, hash, n) == i && NoNullBefore(t, hash, n)
  }

  ghost predicate IsTable(h: HashFn, t: seq<Cell>) {
    && |t| >= 8 && IsPow2(|t|)
    && Unique(t)
    && (forall i :: 0 <= i < |t| && t[i].Live? ==> t[i].hash == h(t[i].key) && Reachable(t, t[i].hash, i))
  }

  // ----- What a lookup does -----

  /** Round `n` neither finds the key nor meets a Null slot, so the lookup goes on. */
  ghost predicate Passes(t: seq<Cell>, key: Key, hash: Hash, n: nat)
    requires |t| > 0
  {
    !At(t, hash, n).Null? && !Matches(At(t, hash, n), key, hash)
  }

  ghost predicate PassesBefore(t: seq<Cell>, key: Key, hash: Hash, n: nat)
    requires |t| > 0
  {
    forall m: nat :: m < n ==> Passes(t, key, hash, m)
  }

  ghost predicate StopsAt(t: seq<Cell>, key: Key, hash: Hash, n: nat)
    requires |t| > 0
  {
    PassesBefore(t, key, hash, n) && !Passes(t, key, hash, n)
  }

  ghost predicate NoDummyBefore(t: seq<Cell>, hash: Hash, n: nat)
    requires |t| > 0
  {
    forall m: nat :: m < n ==> !At(t, hash, m).Dummy?
  }

  /** The lookup stops in round `n` and answers slot `i`: the match, else the first tombstone passed, else the Null slot. */
  ghost predicate Landing(t: seq<Cell>, key: Key, hash: Hash, n: nat, i: nat)
    requires |t| > 0
  {
    && StopsAt(t, key, hash, n)
    && if At(t, hash, n).Live? || NoDummyBefore(t, hash, n)
       then i == Slot(|t|, hash, hash, n)
       else exists m: nat :: m < n && At(t, hash, m).Dummy? && NoDummyBefore(t, hash, m) && i == Slot(|t|, hash, hash, m)
  }

  ghost predicate LandsOn(t: seq<Cell>, key: Key, hash: Hash, i: nat)
    requires |t| > 0
  {
    i < |t| && exists n: nat :: Landing(t, key, hash, n, i)
  }

  /** A lookup terminates exactly when a Null slot exists or the key is present. */
  lemma LookupStopsIff(h: HashFn, t: seq<Cell>, key: Key)
    requires IsTable(h, t)
    ensures (exists n: nat :: !Passes(t, key, h(key), n)) <==> HasNull(t) || key in Keys(t)
  {
    if HasNull(t) {
      var i :| 0 <= i < |t| && t[i].Null?;
      var n := ProbeVisitsEverySlot(|t|, h(key), h(key), i);
      assert !Passes(t, key, h(key), n);
    } else if key in Keys(t) {
      var i :| 0 <= i < |t| && t[i].Live? && t[i].key == key;
      var n: nat :| Slot(|t|, h(key), h(key), n) == i && NoNullBefore(t, h(key), n);
      assert !Passes(t, key, h(key), n);
    }
  }

  /** The answer is unique, it is live exactly for a present key, and otherwise the key can be put there. */
  lemma LandingMeaning(h: HashFn, t: seq<Cell>, key: Key, i: nat)
    requires IsTable(h, t)
    requires LandsOn(t, key, h(key), i)
    ensures t[i].Live? <==> key in Keys(t)
    ensures t[i].Live? ==> t[i].key == key
    ensures Reachable(t, h(key), i)
  {
    var hash := h(key);
    var n: nat :| Landing(t, key, hash, n, i);
    assert NoNullBefore(t, hash, n) by {
      forall m: nat | m < n ensures !At(t, hash, m).Null? {
        assert Passes(t, key, hash, m);
      }
    }
    if key in Keys(t) {
      var j :| 0 <= j < |t| && t[j].Live? && t[j].key == key;
      var n0: nat :| Slot(|t|, hash, hash, n0) == j && NoNullBefore(t, hash, n0);
      assert !Passes(t, key, hash, n0);
      assert n <= n0;
      assert !Passes(t, key, hash, n);
      assert At(t, hash, n).Live?;
    }
    if At(t, hash, n).Live? || NoDummyBefore(t, hash, n) {
    } else {
      var m: nat :| m < n && At(t, hash, m).Dummy? && NoDummyBefore(t, hash, m) && i == Slot(|t|, hash, hash, m);
      assert NoNullBefore(t, hash, m);
    }
  }

  lemma LandingUnique(t: seq<Cell>, key: Key, hash: Hash, i: nat, j: nat)
    requires |t| > 0
    requires LandsOn(t, key, hash, i) && LandsOn(t, key, hash, j)
    ensures i == j
  {
    var n: nat :| Landing(t, key, hash, n, i);
    var n': nat :| Landing(t, key, hash, n', j);
    assert !Passes(t, key, hash, n) && !Passes(t, key, hash, n');
    assert n == n';
    if !(At(t, hash, n).Live? || NoDummyBefore(t, hash, n)) {
      var m: nat :| m < n && At(t, hash, m).Dummy? && NoDummyBefore(t, hash, m) && i == Slot(|t|, hash, hash, m);
      var m': nat :| m' < n && At(t, hash, m').Dummy? && NoDummyBefore(t, hash, m') && j == Slot(|t|, hash, hash, m');
      assert m == m';
    }
  }

  // ----- Counting cells -----

  ghost function Count(t: seq<Cell>, k: Kind): (n: nat)
    ensures n <= |t|
  {
    if |t| == 0 then 0
    else Count(t[..|t| - 1], k) + (if t[|t| - 1].Kind() == k then 1 else 0)
  }

  lemma {:induction false} CountTotal(t: seq<Cell>)
    ensures Count(t, IsNull) + Count(t, IsDummy) + Count(t, IsLive) == |t|
  {
    if |t| > 0 {
      CountTotal(t[..|t| - 1]);
    }
  }

  lemma {:induction false} CountUpdate(t: seq<Cell>, i: nat, c: Cell, k: Kind)
    requires i < |t|
    ensures Count(t[i := c], k) == Count(t, k) - (if t[i].Kind() == k then 1 else 0) + (if c.Kind() == k then 1 else 0)
  {
    var n := |t| - 1;
    if i == n {
      assert t[i := c][..n] == t[..n];
    } else {
      assert t[i := c][..n] == t[..n][i := c];
      CountUpdate(t[..n], i, c, k);
    }
  }

  lemma {:induction false} CountPositive(t: seq<Cell>, k: Kind)
    ensures Count(t, k) > 0 <==> exists i :: 0 <= i < |t| && t[i].Kind() == k
  {
    if |t| > 0 {
      var n := |t| - 1;
      CountPositive(t[..n], k);
      if i :| 0 <= i < |t| && t[i].Kind() == k {
        assert i == n || t[..n][i].Kind() == k;
      }
    }
  }

  lemma NoTombstones(t: seq<Cell>)
    requires forall i :: 0 <= i < |t| ==> t[i] == Null
    ensures Count(t, IsDummy) == 0
  {
    CountPositive(t, IsDummy);
  }

  lemma HasNullIsCount(t: seq<Cell>)
    ensures HasNull(t) <==> Count(t, IsNull) > 0
  {
    CountPositive(t, IsNull);
    if HasNull(t) {
      var i :| 0 <= i < |t| && t[i].Null?;
      assert t[i].Kind() == IsNull;
    }
  }

  /** With distinct keys, the number of live slots is the size of the map. */
  lemma {:induction false} LiveCountIsSize(t: seq<Cell>)
    requires Unique(t)
    ensures Count(t, IsLive) == |Contents(t)| == |Keys(t)|
  {
    assert Contents(t).Keys == Keys(t);
    if |t| > 0 {
      var n := |t| - 1;
      LiveCountIsSize(t[..n]);
      if t[n].Live? {
        assert Keys(t) == Keys(t[..n]) + {t[n].key} by { KeysOfLast(t); }
        assert t[n].key !in Keys(t[..n]);
      } else {
        KeysOfLast(t);
      }
    }
  }

  lemma KeysOfLast(t: seq<Cell>)
    requires |t| > 0
    ensures Keys(t) == Keys(t[..|t| - 1]) + if t[|t| - 1].Live? then {t[|t| - 1].key} else {}
  {
    var n := |t| - 1;
    forall k | k in Keys(t[..n]) ensures k in Keys(t) {
      var i :| 0 <= i < n && t[..n][i].Live? && t[..n][i].key == k;
      assert t[i].Live?;
    }
    forall k | k in Keys(t) && !(t[n].Live? && t[n].key == k) ensures k in Keys(t[..n]) {
      var i :| 0 <= i < |t| && t[i].Live? && t[i].key == k;
      assert t[..n][i].Live?;
    }
  }

  lemma ContentsAt(t: seq<Cell>, i: nat)
    requires Unique(t)
    requires i < |t| && t[i].Live?
    ensures t[i].key in Contents(t) && Contents(t)[t[i].key] == t[i].val
  {
  }

  /** Extending a prefix by its next cell. */
  lemma ContentsOfPrefix(t: seq<Cell>, n: nat)
    requires Unique(t)
    requires n < |t|
    ensures Unique(t[..n]) && Unique(t[..n + 1])
    ensures t[n].Live? ==> t[n].key !in Contents(t[..n])
    ensures Contents(t[..n + 1]) == if t[n].Live? then Contents(t[..n])[t[n].key := t[n].val] else Contents(t[..n])
  {
    var u := t[..n + 1];
    assert u[..n] == t[..n];
    KeysOfLast(u);
    var want := if t[n].Live? then Contents(t[..n])[t[n].key := t[n].val] else Contents(t[..n]);
    assert Contents(u).Keys == want.Keys;
    forall k | k in want ensures Contents(u)[k] == want[k] {
      PrefixValue(t, n, k);
    }
  }

  lemma PrefixValue(t: seq<Cell>, n: nat, k: Key)
    requires Unique(t) && n < |t| && k in Contents(t[..n + 1])
    ensures Contents(t[..n + 1])[k] == if t[n].Live? && t[n].key == k then t[n].val
                                       else if k in Contents(t[..n]) then Contents(t[..n])[k] else NullV
  {
    hide ValueAt;
    var u := t[..n + 1];
    var i :| 0 <= i < |u| && u[i].Live? && u[i].key == k;
    ContentsAt(u, i);
    if i < n {
      assert t[..n][i] == u[i];
      ContentsAt(t[..n], i);
    }
  }

  // ----- Changing one slot -----

  lemma ReachableKept(t: seq<Cell>, i: nat, c: Cell, hash: Hash, j: nat)
    requires i < |t| && !c.Null?
    requires Reachable(t, hash, j)
    ensures Reachable(t[i := c], hash, j)
  {
    var n: nat :| Slot(|t|, hash, hash, n) == j && NoNullBefore(t, hash, n);
    var u := t[i := c];
    forall m: nat | m < n ensures !At(u, hash, m).Null? {
      assert !At(t, hash, m).Null?;
    }
    assert NoNullBefore(u, hash, n);
  }

  /** Writing a live cell where the lookup landed stores the pair and keeps the table well-formed. */
  lemma StoreAt(h: HashFn, t: seq<Cell>, key: Key, val: Value, i: nat)
    requires IsTable(h, t)
    requires LandsOn(t, key, h(key), i)
    ensures IsTable(h, t[i := Live(key, h(key), val)])
    ensures Contents(t[i := Live(key, h(key), val)]) == Contents(t)[key := val]
  {
    hide Contents, Keys, Reachable, Unique;
    LandingMeaning(h, t, key, i);
    StoreUnique(t, key, Live(key, h(key), val), i);
    StoreIsTable(h, t, key, val, i);
    StoreContents(t, key, Live(key, h(key), val), i);
  }

  lemma StoreUnique(t: seq<Cell>, key: Key, c: Cell, i: nat)
    requires Unique(t) && i < |t| && c.Live? && c.key == key
    requires t[i].Live? <==> key in Keys(t)
    requires t[i].Live? ==> t[i].key == key
    ensures Unique(t[i := c])
  {
    forall j | 0 <= j < |t| && j != i && t[j].Live? ensures t[j].key != key {
      assert t[j].key in Keys(t);
    }
  }

  lemma StoreIsTable(h: HashFn, t: seq<Cell>, key: Key, val: Value, i: nat)
    requires IsTable(h, t) && i < |t| && Reachable(t, h(key), i)
    requires Unique(t[i := Live(key, h(key), val)])
    ensures IsTable(h, t[i := Live(key, h(key), val)])
  {
    hide Reachable, Unique;
    var c := Live(key, h(key), val);
    var u := t[i := c];
    forall j | 0 <= j < |u| && u[j].Live? ensures u[j].hash == h(u[j].key) && Reachable(u, u[j].hash, j) {
      ReachableKept(t, i, c, u[j].hash, j);
    }
  }

  lemma StoreContents(t: seq<Cell>, key: Key, c: Cell, i: nat)
    requires Unique(t) && i < |t| && c.Live? && c.key == key && Unique(t[i := c])
    requires t[i].Live? ==> t[i].key == key
    ensures Contents(t[i := c]) == Contents(t)[key := c.val]
  {
    hide Unique, ValueAt;
    var u := t[i := c];
    KeysOfUpdate(t, i, c);
    SameElsewhere(t, u, i);
    ContentsAt(u, i);
    assert Contents(u).Keys == Contents(t).Keys + {key};
  }

  lemma KeysOfUpdate(t: seq<Cell>, i: nat, c: Cell)
    requires i < |t| && Unique(t)
    requires c.Live? && t[i].Live? ==> t[i].key == c.key
    ensures Keys(t[i := c]) == Keys(t) - (if t[i].Live? then {t[i].key} else {}) + (if c.Live? then {c.key} else {})
  {
    var u := t[i := c];
    forall k | k in Keys(t) && !(t[i].Live? && t[i].key == k) ensures k in Keys(u) {
      var j :| 0 <= j < |t| && t[j].Live? && t[j].key == k;
      assert u[j] == t[j];
    }
    if c.Live? {
      assert u[i].Live?;
    }
    forall k | k in Keys(u) && !(c.Live? && c.key == k) ensures k in Keys(t) && !(t[i].Live? && t[i].key == k) {
      var j :| 0 <= j < |u| && u[j].Live? && u[j].key == k;
      assert t[j] == u[j];
    }
  }

  lemma SameElsewhere(t: seq<Cell>, u: seq<Cell>, i: nat)
    requires i < |t| == |u| && u == t[i := u[i]]
    requires Unique(t) && Unique(u)
    ensures forall k :: k in Contents(t) && k in Contents(u) && !(u[i].Live? && u[i].key == k)
                        ==> Contents(t)[k] == Contents(u)[k]
  {
    forall k | k in Contents(t) && k in Contents(u) && !(u[i].Live? && u[i].key == k)
      ensures Contents(t)[k] == Contents(u)[k]
    {
      var j :| 0 <= j < |u| && u[j].Live? && u[j].key == k;
      assert t[j] == u[j];
      ContentsAt(t, j);
      ContentsAt(u, j);
    }
  }

  /** Turning a live cell into a tombstone removes its key and keeps the table well-formed. */
  lemma DeleteAt(h: HashFn, t: seq<Cell>, i: nat)
    requires IsTable(h, t)
    requires i < |t| && t[i].Live?
    ensures IsTable(h, t[i := Dummy])
    ensures Contents(t[i := Dummy]) == Contents(t) - {t[i].key}
  {
    var u := t[i := Dummy];
    assert Unique(u);
    forall j | 0 <= j < |u| && u[j].Live? ensures u[j].hash == h(u[j].key) && Reachable(u, u[j].hash, j) {
      ReachableKept(t, i, Dummy, u[j].hash, j);
    }
    KeysOfUpdate(t, i, Dummy);
    SameElsewhere(t, u, i);
  }

  /** A store that does not rebuild keeps a Null slot exactly when it does not take the last one. */
  lemma StoreKeepsNullIff(t: seq<Cell>, i: nat, c: Cell)
    requires i < |t| && c.Live?
    ensures HasNull(t[i := c]) <==> Count(t, IsNull) > if t[i].Null? then 1 else 0
  {
    CountUpdate(t, i, c, IsNull);
    HasNullIsCount(t[i := c]);
    if t[i].Null? {
      HasNullIsCount(t);
    }
  }

  /** A table of Null slots, as calloc leaves it. */
  lemma {:induction false} EmptyTable(h: HashFn, t: seq<Cell>)
    requires |t| >= 8 && IsPow2(|t|)
    requires forall i :: 0 <= i < |t| ==> t[i] == Null
    ensures IsTable(h, t) && Contents(t) == map[]
    ensures Count(t, IsNull) == |t| && Count(t, IsLive) == Count(t, IsDummy) == 0
  {
    CountPositive(t, IsLive);
    CountPositive(t, IsDummy);
    CountTotal(t);
  }
}
