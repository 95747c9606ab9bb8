/**
 Spawning a child with remapped descriptors: sources are first duplicated above
 every target, so the remapping is one simultaneous assignment.
 */
module FdRemap {

  const INT_MAX := 0x7FFF_FFFF

  /** An open file, and whether exec closes the descriptor. */
  datatype Desc = Desc(file: nat, cloexec: bool)

  datatype Mapping = Mapping(source: int, target: int)

  type Table = map<int, Desc>

  /** A process's descriptor table with its limit, and the system calls on it. */
  class Process {
    const limit: nat
    var fds: Table

    constructor (limit: nat, fds: Table)
      ensures this.limit == limit && this.fds == fds
    {
      this.limit := limit;
      this.fds := fds;
    }

    ghost predicate Valid()
      reads this
    {
      forall fd :: fd in fds ==> 0 <= fd < limit
    }

    /** F_DUPFD_CLOEXEC: the lowest free descriptor from `first` on, or -1. */
    method DupCloexec(fd: int, first: nat) returns (r: int)
      requires Valid()
      modifies this
      ensures Valid()
      ensures r == -1 ==> fds == old(fds)
                          && (fd !in old(fds) || forall x: int :: first <= x < limit ==> x in old(fds))
      ensures r != -1 ==> fd in old(fds) && first <= r < limit && r !in old(fds)
                          && (forall x: int :: first <= x < r ==> x in old(fds))
                          && fds == old(fds)[r := Desc(old(fds)[fd].file, true)]
    {
      if fd !in fds {
        return -1;
      }
      r := first;
      while r < limit && r in fds
        invariant first <= r && forall x: int :: first <= x < r ==> x in fds
      {
        r := r + 1;
      }
      if r >= limit {
        return -1;
      }
      fds := fds[r := Desc(fds[fd].file, true)];
    }

    method Dup2(from: int, to: int) returns (r: int)
      requires Valid()
      modifies this
      ensures Valid()
      ensures r == -1 <==> from !in old(fds) || to < 0 || to >= limit
      ensures r == -1 ==> fds == old(fds)
      ensures r != -1 ==> r == to && fds == if from == to then old(fds) else old(fds)[to := Desc(old(fds)[from].file, false)]
    {
      if from !in fds || to < 0 || to >= limit {
        return -1;
      }
      if from != to {
        fds := fds[to := Desc(fds[from].file, false)];
      }
      r := to;
    }

    method Close(fd: int)
      requires Valid()
      modifies this
      ensures Valid() && fds == old(fds) - {fd}
    {
      fds := fds - {fd};
    }
  }

  // ----- The remapping -----

  ghost predicate WellFormed(ms: seq<Mapping>) {
    && (forall i :: 0 <= i < |ms| ==> ms[i].source >= 0 && 0 <= ms[i].target < 0x7FFF_FFFF)
    && (forall i, j :: 0 <= i < j < |ms| ==> ms[i].target != ms[j].target)
  }

  ghost predicate IsTarget(ms: seq<Mapping>, fd: int) {
    exists i :: 0 <= i < |ms| && ms[i].target == fd
  }

  /** The child's table: each target has the file listed for it, at once for all; the listed others are closed; the rest is as it was. */
  ghost predicate Assigned(before: Table, after: Table, ms: seq<Mapping>, files: seq<nat>, closed: seq<int>)
    requires |files| == |ms|
  {
    && (forall i :: 0 <= i < |ms| ==> ms[i].target in after && after[ms[i].target] == Desc(files[i], false))
    && (forall fd :: !IsTarget(ms, fd) ==> (fd in after <==> fd in before && fd !in closed))
    && (forall fd :: !IsTarget(ms, fd) && fd in after ==> after[fd] == before[fd])
  }

  ghost predicate SourcesOpen(before: Table, ms: seq<Mapping>) {
    forall i :: 0 <= i < |ms| ==> ms[i].source in before
  }

  /** One simultaneous move: each target is what its source was, open or closed; the listed others are closed; the rest is as it was. */
  ghost predicate Remapped(before: Table, after: Table, ms: seq<Mapping>, closed: seq<int>) {
    && (forall i :: 0 <= i < |ms| ==> (ms[i].target in after <==> ms[i].source in before))
    && (forall i :: 0 <= i < |ms| && ms[i].source in before && ms[i].target in after ==>
          after[ms[i].target] == Desc(before[ms[i].source].file, false))
    && (forall fd :: !IsTarget(ms, fd) ==> (fd in after <==> fd in before && fd !in closed))
    && (forall fd :: !IsTarget(ms, fd) && fd in after ==> after[fd] == before[fd])
  }

  /** What exec leaves open. */
  ghost function AfterExec(t: Table): Table {
    map fd | fd in t && !t[fd].cloexec :: t[fd]
  }

  /** The argument checks; `first` is above the standard descriptors and every target. */
  method Check(ms: seq<Mapping>) returns (ok: bool, first: nat)
    ensures ok <==> WellFormed(ms)
    ensures ok ==> first == First(ms) && forall i :: 0 <= i < |ms| ==> ms[i].target < first
  {
    hide WellFormed, First;
    first := 3;
    CheckStarts(ms);
    for i := 0 to |ms|
      invariant WellFormed(ms[..i]) && first == First(ms[..i])
      invariant forall k :: 0 <= k < i ==> ms[k].target < first
    {
      CheckStep(ms, i);
      if ms[i].source < 0 || ms[i].target < 0 || ms[i].target >= INT_MAX {
        return false, first;
      }
      for j := 0 to i
        invariant forall k :: 0 <= k < j ==> ms[k].target != ms[i].target
      {
        if ms[i].target == ms[j].target {
          return false, first;
        }
      }
      if ms[i].target >= first {
        first := ms[i].target + 1;
      }
    }
    assert ms[..|ms|] == ms;
    ok := true;
  }

  lemma CheckStarts(ms: seq<Mapping>)
    ensures WellFormed(ms[..0]) && First(ms[..0]) == 3
  {
  }

  lemma CheckStep(ms: seq<Mapping>, i: nat)
    requires i < |ms|
    ensures WellFormed(ms[..i + 1])
            <==> WellFormed(ms[..i]) && ms[i].source >= 0 && 0 <= ms[i].target < INT_MAX && forall k :: 0 <= k < i ==> ms[k].target != ms[i].target
    ensures WellFormed(ms) ==> WellFormed(ms[..i + 1])
    ensures First(ms[..i + 1]) == if ms[i].target >= First(ms[..i]) then ms[i].target + 1 else First(ms[..i])
  {
    var a, b := ms[..i], ms[..i + 1];
    assert b[..i] == a && b[i] == ms[i];
    assert forall k :: 0 <= k < i ==> a[k] == ms[k] && b[k] == ms[k];
  }

  /** Every descriptor from `first` up to `end` is taken. */
  ghost predicate Filled(before: Table, dups: seq<int>, first: nat, end: int) {
    forall x: int :: first <= x < end ==> x in before || x in dups
  }

  /** The file a source gives: its own, or, when it was not open, that of an earlier duplicate with its number. */
  ghost predicate Named(before: Table, source: int, dups: seq<int>, files: seq<nat>, file: nat)
    requires |dups| == |files|
  {
    if source in before then file == before[source].file
    else exists j :: 0 <= j < |dups| && dups[j] == source && files[j] == file
  }

  /** Duplicate `i` is the lowest free descriptor from `first` on and holds the file its source gives. */
  ghost predicate Chosen(before: Table, ms: seq<Mapping>, dups: seq<int>, files: seq<nat>, first: nat, i: nat)
    requires |files| == |dups| <= |ms| && i < |dups|
  {
    && dups[i] >= first && dups[i] !in before && dups[i] !in dups[..i]
    && Filled(before, dups[..i], first, dups[i])
    && Named(before, ms[i].source, dups[..i], files[..i], files[i])
  }

  ghost predicate AllChosen(before: Table, ms: seq<Mapping>, dups: seq<int>, files: seq<nat>, first: nat)
    requires |files| == |dups| <= |ms|
  {
    forall i :: 0 <= i < |dups| ==> Chosen(before, ms, dups, files, first, i)
  }

  /** The table as it was, plus the duplicates, each closing on exec. */
  ghost predicate Holds(before: Table, now: Table, dups: seq<int>, files: seq<nat>)
    requires |files| == |dups|
  {
    && (forall i :: 0 <= i < |dups| ==> dups[i] !in before && dups[i] in now && now[dups[i]] == Desc(files[i], true))
    && (forall fd :: fd in now <==> fd in before || fd in dups)
    && (forall fd :: fd in before ==> now[fd] == before[fd])
  }

  ghost predicate Duplicated(before: Table, now: Table, ms: seq<Mapping>, dups: seq<int>, files: seq<nat>, first: nat) {
    |files| == |dups| <= |ms| && AllChosen(before, ms, dups, files, first) && Holds(before, now, dups, files)
  }

  /** Why duplicating stopped: the next source is neither open nor an earlier duplicate, or no descriptor is left. */
  ghost predicate Stuck(before: Table, ms: seq<Mapping>, dups: seq<int>, first: nat, limit: nat) {
    |dups| < |ms|
    && ((ms[|dups|].source !in before && ms[|dups|].source !in dups) || Filled(before, dups, first, limit))
  }

  method Duplicate(p: Process, ms: seq<Mapping>, first: nat) returns (dups: seq<int>, ghost files: seq<nat>)
    requires p.Valid()
    modifies p
    ensures p.Valid() && Duplicated(old(p.fds), p.fds, ms, dups, files, first)
    ensures |dups| < |ms| ==> Stuck(old(p.fds), ms, dups, first, p.limit)
  {
    hide AllChosen;
    dups, files := [], [];
    NoneChosen(p.fds, ms, first);
    while |dups| < |ms|
      invariant p.Valid() && Duplicated(old(p.fds), p.fds, ms, dups, files, first)
    {
      var i := |dups|;
      ghost var t := p.fds;
      var r := p.DupCloexec(ms[i].source, first);
      if r < 0 {
        return;
      }
      ChosenNext(old(p.fds), t, ms, dups, files, first, r);
      HoldsNext(old(p.fds), t, dups, files, r, t[ms[i].source].file);
      files := files + [t[ms[i].source].file];
      dups := dups + [r];
    }
  }

  lemma NoneChosen(before: Table, ms: seq<Mapping>, first: nat)
    ensures AllChosen(before, ms, [], [], first)
  {
  }

  lemma HoldsNext(before: Table, now: Table, dups: seq<int>, files: seq<nat>, r: int, file: nat)
    requires |files| == |dups| && Holds(before, now, dups, files) && r !in now
    ensures Holds(before, now[r := Desc(file, true)], dups + [r], files + [file])
  {
  }

  lemma ChosenNext(before: Table, now: Table, ms: seq<Mapping>, dups: seq<int>, files: seq<nat>, first: nat, r: int)
    requires Duplicated(before, now, ms, dups, files, first) && |dups| < |ms|
    requires ms[|dups|].source in now && r >= first && r !in now
    requires forall x: int :: first <= x < r ==> x in now
    ensures AllChosen(before, ms, dups + [r], files + [now[ms[|dups|].source].file], first)
  {
    var i, file := |dups|, now[ms[|dups|].source].file;
    var dups', files' := dups + [r], files + [file];
    forall k | 0 <= k < |dups'| ensures Chosen(before, ms, dups', files', first, k) {
      if k < i {
        assert Chosen(before, ms, dups, files, first, k);
        ChosenKept(before, ms, dups, files, first, k, r, file);
      } else {
        assert dups'[..i] == dups && files'[..i] == files;
      }
    }
  }

  lemma ChosenKept(before: Table, ms: seq<Mapping>, dups: seq<int>, files: seq<nat>, first: nat, k: nat, r: int, file: nat)
    requires |files| == |dups| < |ms| && k < |dups| && Chosen(before, ms, dups, files, first, k)
    ensures Chosen(before, ms, dups + [r], files + [file], first, k)
  {
    hide Filled, Named;
    assert (dups + [r])[..k] == dups[..k] && (files + [file])[..k] == files[..k];
  }

  /** Closing the duplicates gives the table back. */
  lemma HoldsUndone(before: Table, now: Table, dups: seq<int>, files: seq<nat>)
    requires |files| == |dups| && Holds(before, now, dups, files)
    ensures now - (set x | x in dups) == before
  {
    var rest := now - (set x | x in dups);
    assert forall fd :: fd in rest <==> fd in before;
    assert rest.Keys == before.Keys;
    assert forall fd :: fd in rest ==> rest[fd] == before[fd];
  }

  // ----- Parent and child -----

  /** The child's part, on its copy of the parent's table. */
  method Arrange(child: Process, ms: seq<Mapping>, dups: seq<int>, closeFds: seq<int>, first: nat,
                 ghost before: Table, ghost files: seq<nat>)
    requires child.Valid() && WellFormed(ms) && |dups| == |ms|
    requires forall i :: 0 <= i < |ms| ==> ms[i].target < first
    requires forall i :: 0 <= i < |dups| ==> dups[i] >= first
    requires forall fd :: fd in before ==> fd >= 0
    requires |files| == |dups| && Holds(before, child.fds, dups, files)
    modifies child
    ensures child.Valid() && Assigned(before, child.fds, ms, files, closeFds)
  {
    hide Assigned, TargetsSet;
    ghost var t := child.fds;
    AssignTargets(child, ms, dups, first, files);
    ghost var u := child.fds;
    DropDuplicates(child, dups);
    DroppedIsAssigned(before, t, u, child.fds, ms, dups, files, first);
    CloseUnmapped(child, ms, closeFds, before, files);
  }

  /** Targets set so far, everything else as in `t`. */
  ghost predicate TargetsSet(t: Table, now: Table, ms: seq<Mapping>, i: nat, files: seq<nat>)
    requires i <= |ms| == |files|
  {
    && (forall k :: 0 <= k < i ==> ms[k].target in now && now[ms[k].target] == Desc(files[k], false))
    && (forall fd :: !IsTarget(ms[..i], fd) ==> (fd in now <==> fd in t) && (fd in t ==> now[fd] == t[fd]))
  }

  method AssignTargets(child: Process, ms: seq<Mapping>, dups: seq<int>, first: nat, ghost files: seq<nat>)
    requires child.Valid() && WellFormed(ms) && |dups| == |ms| == |files|
    requires forall i :: 0 <= i < |ms| ==> ms[i].target < first
    requires forall i :: 0 <= i < |dups| ==> dups[i] >= first && dups[i] in child.fds && child.fds[dups[i]].file == files[i]
    modifies child
    ensures child.Valid() && TargetsSet(old(child.fds), child.fds, ms, |ms|, files)
  {
    hide TargetsSet, WellFormed;
    ghost var t := child.fds;
    SetNone(t, ms, files);
    for i := 0 to |ms|
      invariant child.Valid() && TargetsSet(t, child.fds, ms, i, files)
    {
      NotSet(t, child.fds, ms, i, files, dups[i], first);
      InRange(ms, i);
      SetNext(t, child.fds, ms, i, files);
      var r := child.Dup2(dups[i], ms[i].target);
      assert r >= 0;
    }
  }

  lemma InRange(ms: seq<Mapping>, i: nat)
    requires WellFormed(ms) && i < |ms|
    ensures ms[i].target >= 0
  {
  }

  lemma SetNone(t: Table, ms: seq<Mapping>, files: seq<nat>)
    requires |ms| == |files|
    ensures TargetsSet(t, t, ms, 0, files)
  {
  }

  /** A duplicate lies above every target, so no step has touched it yet. */
  lemma NotSet(t: Table, now: Table, ms: seq<Mapping>, i: nat, files: seq<nat>, fd: int, first: nat)
    requires i <= |ms| == |files| && TargetsSet(t, now, ms, i, files)
    requires fd in t && fd >= first && forall k :: 0 <= k < |ms| ==> ms[k].target < first
    ensures fd in now && now[fd] == t[fd]
  {
    assert !IsTarget(ms[..i], fd);
  }

  lemma SetNext(t: Table, now: Table, ms: seq<Mapping>, i: nat, files: seq<nat>)
    requires i < |ms| == |files| && WellFormed(ms) && TargetsSet(t, now, ms, i, files)
    ensures TargetsSet(t, now[ms[i].target := Desc(files[i], false)], ms, i + 1, files)
  {
    hide IsTarget;
    TargetsOneMore(ms, i);
    var next := now[ms[i].target := Desc(files[i], false)];
    forall k | 0 <= k < i + 1 ensures ms[k].target in next && next[ms[k].target] == Desc(files[k], false) {
      assert k < i ==> ms[k].target != ms[i].target && ms[k].target in now;
    }
    forall fd | !IsTarget(ms[..i + 1], fd) ensures (fd in next <==> fd in t) && (fd in t ==> next[fd] == t[fd]) {
      assert !IsTarget(ms[..i], fd) && fd != ms[i].target;
    }
  }

  method DropDuplicates(child: Process, dups: seq<int>)
    requires child.Valid()
    modifies child
    ensures child.Valid() && child.fds == old(child.fds) - (set x | x in dups)
  {
    ghost var u := child.fds;
    for i := 0 to |dups|
      invariant child.Valid() && child.fds == u - (set x | x in dups[..i])
    {
      child.Close(dups[i]);
      assert dups[..i + 1] == dups[..i] + [dups[i]];
    }
    assert dups[..|dups|] == dups;
  }

  lemma DroppedIsAssigned(before: Table, t: Table, u: Table, now: Table, ms: seq<Mapping>, dups: seq<int>, files: seq<nat>, first: nat)
    requires |dups| == |files| == |ms| && Holds(before, t, dups, files)
    requires forall i :: 0 <= i < |ms| ==> ms[i].target < first <= dups[i]
    requires TargetsSet(t, u, ms, |ms|, files) && now == u - (set x | x in dups)
    ensures Assigned(before, now, ms, files, [])
  {
    assert ms[..|ms|] == ms;
  }

  lemma TargetsOneMore(ms: seq<Mapping>, i: nat)
    requires i < |ms|
    ensures forall fd :: IsTarget(ms[..i + 1], fd) <==> IsTarget(ms[..i], fd) || ms[i].target == fd
  {
    forall fd ensures IsTarget(ms[..i + 1], fd) <==> IsTarget(ms[..i], fd) || ms[i].target == fd {
      assert ms[..i + 1][i] == ms[i];
      if IsTarget(ms[..i], fd) {
        var k :| 0 <= k < i && ms[..i][k].target == fd;
        assert ms[..i + 1][k].target == fd;
      }
      if IsTarget(ms[..i + 1], fd) && ms[i].target != fd {
        var k :| 0 <= k < i + 1 && ms[..i + 1][k].target == fd;
        assert ms[..i][k].target == fd;
      }
    }
  }

  /** Close the listed descriptors that are not targets. */
  method CloseUnmapped(child: Process, ms: seq<Mapping>, closeFds: seq<int>, ghost before: Table, ghost files: seq<nat>)
    requires child.Valid() && |files| == |ms|
    requires Assigned(before, child.fds, ms, files, [])
    requires forall fd :: fd in before ==> fd >= 0
    modifies child
    ensures child.Valid() && Assigned(before, child.fds, ms, files, closeFds)
  {
    for i := 0 to |closeFds|
      invariant child.Valid() && Assigned(before, child.fds, ms, files, closeFds[..i])
    {
      var target := false;
      for j := 0 to |ms|
        invariant target <==> IsTarget(ms[..j], closeFds[i])
        modifies {}
      {
        TargetsOneMore(ms, j);
        target := target || closeFds[i] == ms[j].target;
      }
      assert ms[..|ms|] == ms;
      assert closeFds[..i + 1] == closeFds[..i] + [closeFds[i]];
      if !target && closeFds[i] >= 0 {
        child.Close(closeFds[i]);
      }
    }
    assert closeFds[..|closeFds|] == closeFds;
  }

  /** The first descriptor above the standard ones and every target. */
  ghost function First(ms: seq<Mapping>): (f: nat)
  {
    if ms == [] then 3
    else
      var f, t := First(ms[..|ms| - 1]), ms[|ms| - 1].target;
      if t >= f then t + 1 else f
  }

  /** The least number that is above the standard descriptors 0, 1 and 2 and above every target. */
  lemma {:induction false} FirstIsLeast(ms: seq<Mapping>)
    ensures First(ms) > 2 && forall i :: 0 <= i < |ms| ==> ms[i].target < First(ms)
    ensures First(ms) == 3 || exists i :: 0 <= i < |ms| && ms[i].target == First(ms) - 1
  {
    if ms != [] {
      var n := |ms| - 1;
      FirstIsLeast(ms[..n]);
      assert forall i :: 0 <= i < n ==> ms[..n][i] == ms[i];
      assert ms[n].target == ms[|ms| - 1].target;
    }
  }

  // ----- The duplicates as a function of the parent's table -----

  /** The lowest number from `from` on that is not taken. */
  ghost function NextFree(taken: set<int>, from: nat): (x: nat)
    ensures x >= from && x !in taken && forall y :: from <= y < x ==> y in taken
    decreases |taken|
  {
    if from !in taken then from
    else
      var x := NextFree(taken - {from}, from + 1);
      FreeAbove(taken, from, x);
      x
  }

  lemma FreeAbove(taken: set<int>, from: nat, x: nat)
    requires from in taken && x > from && x !in taken - {from}
    requires forall y :: from + 1 <= y < x ==> y in taken - {from}
    ensures x !in taken && forall y :: from <= y < x ==> y in taken
  {
    forall y | from <= y < x ensures y in taken {
      assert y != from ==> y in taken - {from};
    }
  }

  /** The lowest descriptor from `first` on that is neither open nor in `f`. */
  ghost function NextAfter(before: Table, f: seq<int>, first: nat): (x: nat)
    ensures x >= first && x !in before && x !in f && forall y :: first <= y < x ==> y in before || y in f
  {
    var taken := before.Keys + set y | y in f;
    var x := NextFree(taken, first);
    FreeOfBoth(before, f, taken, first, x);
    x
  }

  lemma FreeOfBoth(before: Table, f: seq<int>, taken: set<int>, first: nat, x: int)
    requires taken == before.Keys + set y | y in f
    requires x !in taken && forall y :: first <= y < x ==> y in taken
    ensures x !in before && x !in f && forall y :: first <= y < x ==> y in before || y in f
  {
    forall y | first <= y < x ensures y in before || y in f {
      assert y in taken;
    }
  }

  /** The first `n` free descriptors from `first` on. */
  ghost function Free(before: Table, first: nat, n: nat): (f: seq<int>)
    ensures |f| == n && forall i :: 0 <= i < n ==> f[i] >= first && f[i] !in before
  {
    if n == 0 then []
    else
      var f := Free(before, first, n - 1);
      f + [NextAfter(before, f, first)]
  }

  /** They are in ascending order, and none is left out. */
  lemma {:induction false} FreeMeaning(before: Table, first: nat, n: nat)
    ensures forall i, j :: 0 <= i < j < n ==> Free(before, first, n)[i] < Free(before, first, n)[j]
    ensures forall i :: 0 <= i < n ==> Filled(before, Free(before, first, n)[..i], first, Free(before, first, n)[i])
  {
    hide NextAfter;
    if n > 0 {
      var f := Free(before, first, n - 1);
      FreeMeaning(before, first, n - 1);
      FreeNext(before, first, f, NextAfter(before, f, first));
    }
  }

  /** A lowest free descriptor comes after all that were lowest before. */
  lemma FreeNext(before: Table, first: nat, f: seq<int>, x: int)
    requires forall i, j :: 0 <= i < j < |f| ==> f[i] < f[j]
    requires forall i :: 0 <= i < |f| ==> Filled(before, f[..i], first, f[i])
    requires x >= first && x !in before && x !in f && Filled(before, f, first, x)
    ensures forall i, j :: 0 <= i < j < |f| + 1 ==> (f + [x])[i] < (f + [x])[j]
    ensures forall i :: 0 <= i < |f| + 1 ==> Filled(before, (f + [x])[..i], first, (f + [x])[i])
  {
    var g := f + [x];
    forall i | 0 <= i < |g| ensures Filled(before, g[..i], first, g[i]) {
      assert g[..i] == f[..i];
      assert i == |f| ==> f[..i] == f;
    }
    forall i | 0 <= i < |f| ensures f[i] < x {
      Below(before, f[..i], first, f[i], x);
      assert x !in f[..i] && x != f[i];
    }
  }

  lemma Below(before: Table, f: seq<int>, first: nat, y: int, x: int)
    requires Filled(before, f, first, y) && x >= first && x !in before && x !in f
    ensures y <= x
  {
  }

  lemma {:induction false} FreePrefix(before: Table, first: nat, k: nat, n: nat)
    requires k <= n
    ensures Free(before, first, n)[..k] == Free(before, first, k)
  {
    hide NextAfter;
    if k < n {
      FreePrefix(before, first, k, n - 1);
      PrefixOfSnoc(Free(before, first, n - 1), NextAfter(before, Free(before, first, n - 1), first), k);
    } else {
      assert Free(before, first, n)[..k] == Free(before, first, n);
    }
  }

  lemma PrefixOfSnoc(f: seq<int>, x: int, k: nat)
    requires k <= |f|
    ensures (f + [x])[..k] == f[..k]
  {
  }

  /** There is only one way to choose the duplicates. */
  lemma {:induction false} ChosenAreFree(before: Table, ms: seq<Mapping>, dups: seq<int>, files: seq<nat>, first: nat, n: nat)
    requires |files| == |dups| <= |ms| && AllChosen(before, ms, dups, files, first) && n <= |dups|
    ensures dups[..n] == Free(before, first, n)
  {
    hide AllChosen, NextAfter, Named, Filled;
    if n > 0 {
      ChosenAreFree(before, ms, dups, files, first, n - 1);
      IsChosen(before, ms, dups, files, first, n - 1);
      var f := Free(before, first, n - 1);
      var x := NextAfter(before, f, first);
      assert dups[..n] == dups[..n - 1] + [dups[n - 1]];
      Below(before, f, first, dups[n - 1], x);
      NextAfterFilled(before, f, first);
      Below(before, f, first, x, dups[n - 1]);
    }
  }

  lemma NextAfterFilled(before: Table, f: seq<int>, first: nat)
    ensures Filled(before, f, first, NextAfter(before, f, first))
  {
  }

  lemma IsChosen(before: Table, ms: seq<Mapping>, dups: seq<int>, files: seq<nat>, first: nat, i: nat)
    requires |files| == |dups| <= |ms| && AllChosen(before, ms, dups, files, first) && i < |dups|
    ensures Chosen(before, ms, dups, files, first, i)
  {
  }

  function IndexOf(s: seq<int>, x: int): (k: nat)
    ensures k <= |s| && (k < |s| <==> x in s) && (k < |s| ==> s[k] == x) && forall j :: 0 <= j < k ==> s[j] != x
  {
    if s == [] || s[0] == x then 0 else 1 + IndexOf(s[1..], x)
  }

  /** The file mapping `i` gives: its source's, or what the earlier mapping gives whose duplicate has the source's number. */
  ghost function Given(before: Table, ms: seq<Mapping>, first: nat, i: nat): nat
    requires i < |ms|
  {
    if ms[i].source in before then before[ms[i].source].file
    else
      var k := IndexOf(Free(before, first, i), ms[i].source);
      if k < i then Given(before, ms, first, k) else 0
  }

  ghost function Files(before: Table, ms: seq<Mapping>): (f: seq<nat>)
    ensures |f| == |ms|
  {
    seq(|ms|, i requires 0 <= i < |ms| => Given(before, ms, First(ms), i))
  }

  /** Each source is open or is one of the descriptors that are taken before its turn, and there are descriptors enough. */
  ghost predicate Accepted(before: Table, ms: seq<Mapping>, limit: nat) {
    forall i :: 0 <= i < |ms| ==> (ms[i].source in before || ms[i].source in Free(before, First(ms), i))
                                  && Free(before, First(ms), |ms|)[i] < limit
  }

  lemma {:induction false} ChosenFile(before: Table, ms: seq<Mapping>, dups: seq<int>, files: seq<nat>, first: nat, i: nat)
    requires |files| == |dups| == |ms| && AllChosen(before, ms, dups, files, first) && i < |ms|
    ensures files[i] == Given(before, ms, first, i)
    ensures ms[i].source in before || ms[i].source in Free(before, first, i)
    decreases i
  {
    hide AllChosen, Free, Filled;
    IsChosen(before, ms, dups, files, first, i);
    ChosenAreFree(before, ms, dups, files, first, i);
    if ms[i].source !in before {
      var j :| 0 <= j < i && dups[..i][j] == ms[i].source && files[..i][j] == files[i];
      ChosenFile(before, ms, dups, files, first, j);
      FreeMeaning(before, first, i);
      var f := Free(before, first, i);
      assert f[j] == ms[i].source;
      var k := IndexOf(f, ms[i].source);
      assert k == j;
    }
  }

  lemma AllDuplicated(before: Table, ms: seq<Mapping>, dups: seq<int>, files: seq<nat>, limit: nat)
    requires |files| == |dups| == |ms| && AllChosen(before, ms, dups, files, First(ms))
    requires forall i :: 0 <= i < |dups| ==> dups[i] < limit
    ensures Accepted(before, ms, limit) && files == Files(before, ms)
  {
    ChosenAreFree(before, ms, dups, files, First(ms), |ms|);
    assert dups[..|ms|] == dups;
    forall i | 0 <= i < |ms| ensures files[i] == Given(before, ms, First(ms), i)
                                     && (ms[i].source in before || ms[i].source in Free(before, First(ms), i)) {
      ChosenFile(before, ms, dups, files, First(ms), i);
    }
  }

  lemma StuckRefused(before: Table, ms: seq<Mapping>, dups: seq<int>, files: seq<nat>, limit: nat)
    requires |files| == |dups| < |ms| && AllChosen(before, ms, dups, files, First(ms))
    requires Stuck(before, ms, dups, First(ms), limit)
    ensures !Accepted(before, ms, limit)
  {
    var k := |dups|;
    ChosenAreFree(before, ms, dups, files, First(ms), k);
    assert dups[..k] == dups;
    FreePrefix(before, First(ms), k + 1, |ms|);
    var x := Free(before, First(ms), k + 1)[k];
    assert Free(before, First(ms), |ms|)[k] == x;
    if Filled(before, dups, First(ms), limit) {
      assert x !in dups;
      assert x >= limit;
    }
  }

  /**
   Duplicate, fork, arrange the child, drop the duplicates.  `forks` is whether
   fork succeeds.  A child that is made never fails to set up its descriptors.
   */
  method Spawn(parent: Process, ms: seq<Mapping>, closeFds: seq<int>, forks: bool) returns (child: Process?)
    requires parent.Valid()
    modifies parent
    ensures parent.fds == old(parent.fds)
    ensures child != null <==> WellFormed(ms) && forks && Accepted(parent.fds, ms, parent.limit)
    ensures child != null ==> fresh(child) && child.Valid() && Assigned(parent.fds, child.fds, ms, Files(parent.fds, ms), closeFds)
  {
    hide Assigned, AllChosen, WellFormed, Holds, Stuck, Accepted, Files;
    child := null;
    var ok, first := Check(ms);
    if !ok {
      return;
    }
    var dups;
    ghost var files;
    dups, files := Duplicate(parent, ms, first);
    AboveFirst(old(parent.fds), ms, dups, files, first);
    if |dups| == |ms| {
      DuplicatesOpen(parent, old(parent.fds), dups, files);
      AllDuplicated(old(parent.fds), ms, dups, files, parent.limit);
    } else {
      StuckRefused(old(parent.fds), ms, dups, files, parent.limit);
    }
    if |dups| == |ms| && forks {
      child := new Process(parent.limit, parent.fds);
      Arrange(child, ms, dups, closeFds, first, old(parent.fds), files);
    }
    HoldsUndone(old(parent.fds), parent.fds, dups, files);
    DropDuplicates(parent, dups);
  }

  lemma DuplicatesOpen(p: Process, before: Table, dups: seq<int>, files: seq<nat>)
    requires p.Valid() && |files| == |dups| && Holds(before, p.fds, dups, files)
    ensures forall i :: 0 <= i < |dups| ==> dups[i] < p.limit
  {
  }

  lemma AboveFirst(before: Table, ms: seq<Mapping>, dups: seq<int>, files: seq<nat>, first: nat)
    requires |files| == |dups| <= |ms| && AllChosen(before, ms, dups, files, first)
    ensures forall i :: 0 <= i < |dups| ==> dups[i] >= first
  {
    forall i | 0 <= i < |dups| ensures dups[i] >= first {
      assert Chosen(before, ms, dups, files, first, i);
    }
  }

  // ----- What that comes to -----

  /** The child's table is the simultaneous move exactly when every source was open in the parent. */
  lemma RemappedIff(before: Table, after: Table, ms: seq<Mapping>, closed: seq<int>)
    requires Assigned(before, after, ms, Files(before, ms), closed)
    ensures Remapped(before, after, ms, closed) <==> SourcesOpen(before, ms)
  {
    if Remapped(before, after, ms, closed) {
      forall i | 0 <= i < |ms| ensures ms[i].source in before {
        assert ms[i].target in after;
      }
    }
  }

  /** A closed source below the duplicates is always refused. */
  lemma LowClosedSourceRefused(before: Table, ms: seq<Mapping>, limit: nat, i: nat)
    requires i < |ms| && ms[i].source !in before && ms[i].source < First(ms)
    ensures !Accepted(before, ms, limit)
  {
  }

  /** With open sources and room above the targets, duplicating never fails. */
  lemma RoomSuffices(before: Table, ms: seq<Mapping>, limit: nat)
    requires SourcesOpen(before, ms)
    requires First(ms) + |before| + |ms| <= limit
    ensures Accepted(before, ms, limit)
  {
    var first := First(ms);
    FreeMeaning(before, first, |ms|);
    forall i | 0 <= i < |ms| ensures Free(before, first, |ms|)[i] < limit {
      var f := Free(before, first, |ms|);
      var used := set x | x in f[..i];
      SeqSetSize(f[..i]);
      assert Filled(before, f[..i], first, f[i]);
      assert Range(first, f[i]) <= before.Keys + used;
      SubsetSize(Range(first, f[i]), before.Keys + used);
    }
  }

  function Range(a: nat, b: nat): (r: set<int>)
    requires a <= b
    ensures |r| == b - a && forall x :: x in r <==> a <= x < b
    decreases b - a
  {
    if a == b then {} else {a} + Range(a + 1, b)
  }

  lemma {:induction false} SeqSetSize(s: seq<int>)
    ensures |set x | x in s| <= |s|
  {
    if s != [] {
      SeqSetSize(s[1..]);
      assert s == [s[0]] + s[1..];
      assert (set x | x in s) == (set x | x in s[1..]) + {s[0]};
    }
  }

  lemma {:induction false} SubsetSize<T>(a: set<T>, b: set<T>)
    requires a <= b
    ensures |a| <= |b|
    decreases a
  {
    if |a| > 0 {
      var x :| x in a;
      SubsetSize(a - {x}, b - {x});
    }
  }

  /** Two mappings that exchange two descriptors do exchange them. */
  lemma SwapSwaps(before: Table, after: Table, a: int, b: int)
    requires a in before && b in before && a != b
    requires Remapped(before, after, [Mapping(a, b), Mapping(b, a)], [])
    ensures after == before[a := Desc(before[b].file, false)][b := Desc(before[a].file, false)]
  {
    var ms := [Mapping(a, b), Mapping(b, a)];
    assert ms[0].target == b && ms[1].target == a && ms[0].source == a && ms[1].source == b;
    assert forall fd :: IsTarget(ms, fd) <==> fd == a || fd == b;
    var want := before[a := Desc(before[b].file, false)][b := Desc(before[a].file, false)];
    forall fd ensures (fd in after <==> fd in want) && (fd in after ==> after[fd] == want[fd]) {
      if fd != a && fd != b {
        assert !IsTarget(ms, fd);
      }
    }
  }

  /** Mapped targets survive exec; of the rest, what was open, inheritable and not listed. */
  lemma TargetsSurviveExec(before: Table, after: Table, ms: seq<Mapping>, closed: seq<int>)
    requires Remapped(before, after, ms, closed)
    ensures forall i :: 0 <= i < |ms| && ms[i].source in before ==>
              ms[i].target in AfterExec(after) && AfterExec(after)[ms[i].target].file == before[ms[i].source].file
    ensures forall fd :: !IsTarget(ms, fd) ==> (fd in AfterExec(after) <==> fd in before && !before[fd].cloexec && fd !in closed)
  {
  }

  /**
   A closed source does not always fail the call: descriptor 7 is not open here,
   but it is the number the first duplicate takes, and the child's descriptor 6
   ends up as a copy of 5.
   */
  method ClosedSourceAccepted() returns (parent: Process, child: Process?)
    ensures 7 !in parent.fds
    ensures child != null && 6 in child.fds && child.fds[6].file == 15
  {
    var t := map[0 := Desc(10, false), 1 := Desc(11, false), 2 := Desc(12, false), 5 := Desc(15, false)];
    parent := new Process(1024, t);
    var ms := [Mapping(5, 3), Mapping(7, 6)];
    child := Spawn(parent, ms, [], true);
    ClosedSourceCase(t, ms);
    assert ms[1].target == 6 && ms[0].target == 3;
  }

  lemma FreeOfExample(t: Table)
    requires t == map[0 := Desc(10, false), 1 := Desc(11, false), 2 := Desc(12, false), 5 := Desc(15, false)]
    ensures Free(t, 7, 0) == [] && Free(t, 7, 1) == [7] && Free(t, 7, 2) == [7, 8]
  {
    assert 7 !in t && NextAfter(t, [], 7) == 7;
    assert 8 !in t && NextAfter(t, [7], 7) == 8;
    assert Free(t, 7, 1) == [7];
  }

  lemma FirstOfExample()
    ensures First([Mapping(5, 3), Mapping(7, 6)]) == 7
  {
    var ms := [Mapping(5, 3), Mapping(7, 6)];
    assert ms[..1] == [Mapping(5, 3)] && ms[..1][..0] == [];
    assert First(ms[..1]) == 4;
  }

  lemma ClosedSourceCase(t: Table, ms: seq<Mapping>)
    requires t == map[0 := Desc(10, false), 1 := Desc(11, false), 2 := Desc(12, false), 5 := Desc(15, false)]
    requires ms == [Mapping(5, 3), Mapping(7, 6)]
    ensures WellFormed(ms) && Accepted(t, ms, 1024)
    ensures Files(t, ms)[1] == 15
  {
    hide Free, First;
    FreeOfExample(t);
    FirstOfExample();
    assert Given(t, ms, 7, 0) == 15;
    assert IndexOf([7], 7) == 0;
  }
}
