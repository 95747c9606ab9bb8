/**
 The terminal driver's trie of key sequences: insertion, the matching loop and
 the compression that shrinks every node to the bytes it uses.
 */
module KeyTrie {
  import opened Bytes

  /** What a sequence stands for; a mouse prefix hands over to the mouse decoder. */
  datatype KeyInfo = KeyInfo(mouse: bool, kind: nat, sym: nat, modifiers: nat)

  /** A key, or an array over the inclusive extent `min..max`; an empty node has min 1 and max 0. */
  datatype Trie = KeyNode(info: KeyInfo) | ArrNode(min: Byte, max: Byte, arr: seq<Option<Trie>>)

  /** Arrays have the length their extent says. */
  ghost predicate WellFormed(t: Trie) {
    t.ArrNode? ==>
      && |t.arr| == t.max as int - t.min as int + 1
      && forall i :: 0 <= i < |t.arr| && t.arr[i].Some? ==> WellFormed(t.arr[i].value)
  }

  /** Every array still spans all byte values, as it does while sequences are being inserted. */
  ghost predicate Full(t: Trie) {
    t.ArrNode? ==>
      && t.min == 0 && t.max == 255 && |t.arr| == 256
      && forall i :: 0 <= i < |t.arr| && t.arr[i].Some? ==> Full(t.arr[i].value)
  }

  function NewArr(): Trie {
    ArrNode(0, 255, seq(256, _ => None))
  }

  function LookupNext(t: Trie, b: Byte): Option<Trie>
    requires t.ArrNode? && |t.arr| == t.max as int - t.min as int + 1
  {
    if b < t.min || b > t.max then None else t.arr[b as int - t.min as int]
  }

  // ----- Matching -----

  /** A key after `n` bytes, all bytes used up on the way to one, or no way on. */
  datatype Match = Hit(info: KeyInfo, n: nat) | Partial | Miss

  ghost function Find(t: Trie, buf: seq<Byte>): Match
    requires WellFormed(t)
    decreases |buf|
  {
    if t.KeyNode? then Hit(t.info, 0)
    else if buf == [] then Partial
    else match LookupNext(t, buf[0])
      case None => Miss
      case Some(c) => Deeper(Find(c, buf[1..]))
  }

  ghost function Deeper(m: Match): Match {
    match m case Hit(i, n) => Hit(i, n + 1) case _ => m
  }

  datatype Answer = Eof | None_ | Again | Key(info: KeyInfo, n: nat) | Mouse(n: nat)

  /** The answer for a buffer, in terms of the match. */
  ghost function Peeked(t: Trie, buf: seq<Byte>, force: bool, closed: bool): Answer
    requires WellFormed(t)
  {
    if buf == [] then (if closed then Eof else None_)
    else match Find(t, buf)
      case Hit(i, n) => if i.mouse then Mouse(n) else Key(i, n)
      case Partial => if force then None_ else Again
      case Miss => None_
  }

  method PeekKey(root: Trie, buf: seq<Byte>, force: bool, closed: bool) returns (a: Answer)
    requires WellFormed(root) && root.ArrNode?
    ensures a == Peeked(root, buf, force, closed)
  {
    if buf == [] {
      return if closed then Eof else None_;
    }
    var p := root;
    var pos := 0;
    while pos < |buf|
      invariant pos <= |buf| && WellFormed(p) && p.ArrNode?
      invariant Find(root, buf) == DeeperBy(pos, Find(p, buf[pos..]))
    {
      var next := LookupNext(p, buf[pos]);
      assert buf[pos..][0] == buf[pos] && buf[pos..][1..] == buf[pos + 1..];
      if next.None? {
        return None_;
      }
      p := next.value;
      pos := pos + 1;
      if p.KeyNode? {
        return if p.info.mouse then Mouse(pos) else Key(p.info, pos);
      }
    }
    return if force then None_ else Again;
  }

  ghost function DeeperBy(k: nat, m: Match): Match {
    match m case Hit(i, n) => Hit(i, n + k) case _ => m
  }

  // ----- Compression -----

  /** The first used slot at or after `i`, or the length. */
  function FirstUsed(arr: seq<Option<Trie>>, i: nat): (m: nat)
    requires i <= |arr|
    ensures i <= m <= |arr|
    ensures forall j :: i <= j < m ==> arr[j].None?
    ensures m < |arr| ==> arr[m].Some?
    decreases |arr| - i
  {
    if i == |arr| || arr[i].Some? then i else FirstUsed(arr, i + 1)
  }

  /** The last used slot before `i`. */
  function LastUsed(arr: seq<Option<Trie>>, i: nat): (m: nat)
    requires i <= |arr| && exists j :: 0 <= j < i && arr[j].Some?
    ensures m < i && arr[m].Some?
    ensures forall j :: m < j < i ==> arr[j].None?
  {
    if arr[i - 1].Some? then i - 1 else LastUsed(arr, i - 1)
  }

  function Compress(t: Trie): Trie
    requires Full(t)
    decreases t, 257
  {
    match t
    case KeyNode(_) => t
    case ArrNode(_, _, arr) =>
      var min := FirstUsed(arr, 0);
      if min == 256 then ArrNode(1, 0, [])
      else
        var max := LastUsed(arr, 256);
        ArrNode(min, max, CompressFrom(t, min, max + 1))
  }

  /** The compressed children from `i` up to `end`. */
  function CompressFrom(t: Trie, i: nat, end: nat): (r: seq<Option<Trie>>)
    requires Full(t) && t.ArrNode? && i <= end <= 256
    ensures |r| == end - i
    decreases t, end - i
  {
    if i == end then []
    else
      var c := t.arr[i];
      [if c.None? then None else Some(Compress(t.arr[i].value))] + CompressFrom(t, i + 1, end)
  }

  lemma {:induction false} CompressFromAt(t: Trie, i: nat, end: nat, j: nat)
    requires Full(t) && t.ArrNode? && i <= j < end <= 256
    ensures CompressFrom(t, i, end)[j - i] == if t.arr[j].None? then None else Some(Compress(t.arr[j].value))
    decreases end - i
  {
    if i < j {
      CompressFromAt(t, i + 1, end, j);
    }
  }

  lemma {:induction false} FullIsWellFormed(t: Trie)
    requires Full(t)
    ensures WellFormed(t)
    decreases t
  {
    if t.ArrNode? {
      forall i | 0 <= i < |t.arr| && t.arr[i].Some? ensures WellFormed(t.arr[i].value) {
        FullIsWellFormed(t.arr[i].value);
      }
    }
  }

  lemma {:induction false} CompressWellFormed(t: Trie)
    requires Full(t)
    ensures WellFormed(Compress(t))
    decreases t
  {
    if t.ArrNode? && FirstUsed(t.arr, 0) < 256 {
      var min, max := FirstUsed(t.arr, 0), LastUsed(t.arr, 256);
      var r := CompressFrom(t, min, max + 1);
      forall i | 0 <= i < |r| && r[i].Some? ensures WellFormed(r[i].value) {
        CompressFromAt(t, min, max + 1, min + i);
        CompressWellFormed(t.arr[min + i].value);
      }
    }
  }

  /** Each byte leads from a compressed node to the compressed form of where it led before. */
  lemma CompressLookup(t: Trie, b: Byte)
    requires Full(t) && t.ArrNode?
    ensures WellFormed(Compress(t)) && WellFormed(t) && Compress(t).ArrNode?
    ensures LookupNext(Compress(t), b) == match LookupNext(t, b) case None => None case Some(c) => Some(Compress(c))
  {
    CompressWellFormed(t);
    FullIsWellFormed(t);
    var min := FirstUsed(t.arr, 0);
    if min < 256 {
      var max := LastUsed(t.arr, 256);
      if min <= b as int <= max {
        CompressFromAt(t, min, max + 1, b as int);
      }
    }
  }

  /** Compression preserves matching on every buffer. */
  lemma {:induction false} CompressPreserves(t: Trie, buf: seq<Byte>)
    requires Full(t)
    ensures WellFormed(Compress(t)) && WellFormed(t)
    ensures Find(Compress(t), buf) == Find(t, buf)
    decreases |buf|
  {
    FullIsWellFormed(t);
    CompressWellFormed(t);
    if t.ArrNode? && buf != [] {
      CompressLookup(t, buf[0]);
      var next := LookupNext(t, buf[0]);
      if next.Some? {
        CompressPreserves(next.value, buf[1..]);
      }
    }
  }

  /** So the driver gives the same answer before and after compression. */
  lemma CompressKeepsAnswers(t: Trie, buf: seq<Byte>, force: bool, closed: bool)
    requires Full(t)
    ensures WellFormed(Compress(t)) && WellFormed(t)
    ensures Peeked(Compress(t), buf, force, closed) == Peeked(t, buf, force, closed)
  {
    CompressPreserves(t, buf);
  }

  // ----- Insertion -----

  /** A fresh branch for the rest of a sequence. */
  function Branch(s: seq<Byte>, info: KeyInfo): Trie
    decreases |s|
  {
    if s == [] then KeyNode(info)
    else var n := NewArr(); n.(arr := n.arr[s[0] as int := Some(Branch(s[1..], info))])
  }

  /** The trie with the sequence inserted; none when the program aborts. */
  function Insert(t: Trie, s: seq<Byte>, info: KeyInfo): Option<Trie>
    requires Full(t)
    decreases |s|
  {
    if s == [] then Some(t)
    else match t
      case KeyNode(_) => None
      case ArrNode(min, max, arr) =>
        match arr[s[0] as int]
        case None => Some(ArrNode(min, max, arr[s[0] as int := Some(Branch(s[1..], info))]))
        case Some(c) =>
          match Insert(c, s[1..], info)
          case None => None
          case Some(c') => Some(ArrNode(min, max, arr[s[0] as int := Some(c')]))
  }

  lemma {:induction false} BranchFinds(s: seq<Byte>, info: KeyInfo, buf: seq<Byte>)
    ensures Full(Branch(s, info)) && WellFormed(Branch(s, info))
    ensures Find(Branch(s, info), buf) == if s <= buf then Hit(info, |s|) else if buf < s then Partial else Miss
    decreases |s|
  {
    if s != [] {
      BranchFinds(s[1..], info, []);
      FullIsWellFormed(Branch(s, info));
      if buf != [] {
        PrefixTail(s, buf);
        if buf[0] == s[0] {
          BranchFinds(s[1..], info, buf[1..]);
        }
      }
    }
  }

  lemma PrefixTail(s: seq<Byte>, buf: seq<Byte>)
    requires s != [] && buf != []
    ensures s <= buf <==> s[0] == buf[0] && s[1..] <= buf[1..]
    ensures buf < s <==> s[0] == buf[0] && buf[1..] < s[1..]
  {
    if s[0] == buf[0] {
      assert s == [s[0]] + s[1..] && buf == [buf[0]] + buf[1..];
    }
  }

  /**
   Insertion by what the trie already answers for the sequence: a new way is
   added and changes nothing else; a sequence that is there, or leads to one that
   is, is dropped; one that goes on beyond a key aborts.
   */
  lemma {:induction false} InsertCases(t: Trie, s: seq<Byte>, info: KeyInfo)
    requires Full(t)
    ensures WellFormed(t)
    ensures Insert(t, s, info) == None <==> Find(t, s).Hit? && Find(t, s).n < |s|
    ensures Find(t, s).Partial? || (Find(t, s).Hit? && Find(t, s).n == |s|) ==> Insert(t, s, info) == Some(t)
    ensures Insert(t, s, info).Some? ==> Full(Insert(t, s, info).value) && (Insert(t, s, info).value.ArrNode? <==> t.ArrNode?)
    decreases |s|
  {
    FullIsWellFormed(t);
    if s != [] && t.ArrNode? {
      var next := LookupNext(t, s[0]);
      if next.Some? {
        InsertCases(next.value, s[1..], info);
        assert t.arr[s[0] as int := next] == t.arr;
      } else {
        BranchFinds(s[1..], info, []);
      }
    }
  }

  lemma {:induction false} InsertAdds(t: Trie, s: seq<Byte>, info: KeyInfo, buf: seq<Byte>)
    requires Full(t) && WellFormed(t) && Find(t, s) == Miss
    ensures Insert(t, s, info).Some? && Full(Insert(t, s, info).value) && WellFormed(Insert(t, s, info).value)
    ensures Find(Insert(t, s, info).value, buf) == if s <= buf then Hit(info, |s|) else if buf < s then Partial else Find(t, buf)
    decreases |s|
  {
    InsertCases(t, s, info);
    var t' := Insert(t, s, info).value;
    FullIsWellFormed(t');
    if buf != [] {
      PrefixTail(s, buf);
      if buf[0] == s[0] {
        var next := LookupNext(t, s[0]);
        if next.Some? {
          InsertAdds(next.value, s[1..], info, buf[1..]);
        } else {
          BranchFinds(s[1..], info, buf[1..]);
        }
      }
    }
  }

  // ----- The trie of a list of sequences -----

  ghost function Load(l: seq<(CStr, KeyInfo)>): (t: Option<Trie>)
    ensures t.Some? ==> Full(t.value) && t.value.ArrNode?
  {
    if l == [] then Some(NewArr())
    else match Load(l[..|l| - 1])
      case None => None
      case Some(t) =>
        InsertCases(t, l[|l| - 1].0, l[|l| - 1].1);
        Insert(t, l[|l| - 1].0, l[|l| - 1].1)
  }

  /** Entry `i` is not empty, and is neither an earlier sequence again nor the beginning of one; the others are dropped. */
  ghost predicate Kept(l: seq<(CStr, KeyInfo)>, i: nat) {
    i < |l| && l[i].0 != [] && forall k :: 0 <= k < i ==> !(l[i].0 <= l[k].0)
  }

  /** A later sequence goes on beyond a kept one. */
  ghost predicate Clash(l: seq<(CStr, KeyInfo)>, i: nat, j: nat) {
    i < j < |l| && Kept(l, i) && l[i].0 < l[j].0
  }

  ghost predicate Clashes(l: seq<(CStr, KeyInfo)>) {
    exists i: nat, j: nat :: Clash(l, i, j)
  }

  /** A buffer is led by the kept sequence of entry `i`. */
  ghost predicate Leads(l: seq<(CStr, KeyInfo)>, i: nat, buf: seq<Byte>) {
    Kept(l, i) && l[i].0 <= buf
  }

  /** A buffer is a proper beginning of some sequence. */
  ghost predicate Begins(l: seq<(CStr, KeyInfo)>, buf: seq<Byte>) {
    exists i :: 0 <= i < |l| && buf < l[i].0
  }

  /** The match is exactly the kept sequence that leads the buffer. */
  ghost predicate Answers(l: seq<(CStr, KeyInfo)>, buf: seq<Byte>, m: Match) {
    && (forall i: nat :: Leads(l, i, buf) ==> m == Hit(l[i].1, |l[i].0|))
    && (m.Hit? ==> exists i: nat :: Leads(l, i, buf))
    && (m.Partial? <==> buf == [] || Begins(l, buf))
  }

  /** Whatever the list: loading aborts if and only if a sequence goes on beyond an earlier kept one, and otherwise finds the kept sequences. */
  lemma {:induction false} LoadAnswers(l: seq<(CStr, KeyInfo)>, buf: seq<Byte>)
    ensures Load(l).None? <==> Clashes(l)
    ensures Load(l).Some? ==> WellFormed(Load(l).value) && Answers(l, buf, Find(Load(l).value, buf))
    decreases |l|
  {
    hide Clashes, Answers, Find, Insert;
    if l == [] {
      NothingLoaded(buf);
    } else {
      var n := |l| - 1;
      var (s, info) := l[n];
      LoadAnswers(l[..n], s);
      LoadAnswers(l[..n], buf);
      ClashesLater(l);
      if Load(l[..n]).Some? {
        var t := Load(l[..n]).value;
        InsertCases(t, s, info);
        LastEntry(l, Find(t, s));
        if Find(t, s) == Miss {
          InsertAdds(t, s, info, buf);
          AnswersAdded(l, buf, Miss, Find(t, buf), Find(Insert(t, s, info).value, buf));
        } else if Insert(t, s, info).Some? {
          AnswersSame(l, buf, Find(t, s), Find(t, buf));
        }
      }
    }
  }

  lemma NothingLoaded(buf: seq<Byte>)
    ensures !Clashes([]) && WellFormed(NewArr()) && Answers([], buf, Find(NewArr(), buf))
  {
    FullIsWellFormed(NewArr());
  }

  /** What a prefix of the list keeps, the list keeps. */
  lemma KeptOfPrefix(l: seq<(CStr, KeyInfo)>, n: nat, i: nat)
    requires n <= |l| && i < n
    ensures Kept(l[..n], i) <==> Kept(l, i)
  {
    assert l[..n][i] == l[i];
    assert forall k :: 0 <= k < i ==> l[..n][k] == l[k];
  }

  /** Every sequence begins or is a kept one that is not later. */
  lemma {:induction false} KeptAbove(l: seq<(CStr, KeyInfo)>, i: nat) returns (m: nat)
    requires i < |l| && l[i].0 != []
    ensures m <= i && Kept(l, m) && l[i].0 <= l[m].0
    decreases i
  {
    if Kept(l, i) {
      m := i;
    } else {
      var k :| 0 <= k < i && l[i].0 <= l[k].0;
      m := KeptAbove(l, k);
    }
  }

  lemma ClashesLater(l: seq<(CStr, KeyInfo)>)
    requires l != []
    ensures var n := |l| - 1; Clashes(l) <==> Clashes(l[..n]) || exists i: nat :: Clash(l, i, n)
  {
    var n := |l| - 1;
    forall i: nat, j: nat | j < n ensures Clash(l, i, j) <==> Clash(l[..n], i, j) {
      if i < j {
        KeptOfPrefix(l, n, i);
        assert l[..n][i] == l[i] && l[..n][j] == l[j];
      }
    }
    if Clashes(l) {
      var i: nat, j: nat :| Clash(l, i, j);
      assert j < n ==> Clash(l[..n], i, j);
    }
    if Clashes(l[..n]) {
      var i: nat, j: nat :| Clash(l[..n], i, j);
      assert Clash(l, i, j);
    }
  }

  /** A later sequence that is not kept begins an earlier one or is a kept one again. */
  lemma Unkept(l: seq<(CStr, KeyInfo)>)
    requires l != [] && l[|l| - 1].0 != [] && !Kept(l, |l| - 1)
    ensures var l0, s := l[..|l| - 1], l[|l| - 1].0; Begins(l0, s) || exists i: nat :: Leads(l0, i, s) && l0[i].0 == s
  {
    var n := |l| - 1;
    var l0, s := l[..n], l[n].0;
    var k :| 0 <= k < n && s <= l[k].0;
    assert l0[k] == l[k];
    var i := KeptAbove(l0, k);
    if l0[i].0 == s {
      assert Leads(l0, i, s);
    } else {
      assert s < l0[i].0;
    }
  }

  lemma KeptIsNew(l: seq<(CStr, KeyInfo)>, i: nat)
    requires l != [] && Kept(l, |l| - 1)
    ensures var l0, s := l[..|l| - 1], l[|l| - 1].0; !Begins(l0, s) && (Leads(l0, i, s) ==> |l0[i].0| < |s|)
  {
    var n := |l| - 1;
    forall k | 0 <= k < n ensures !(l[n].0 <= l[..n][k].0) {
      assert l[..n][k] == l[k];
    }
  }

  /** What the trie already answers for the last sequence tells whether it clashes and whether it is kept. */
  lemma LastEntry(l: seq<(CStr, KeyInfo)>, m: Match)
    requires l != [] && Answers(l[..|l| - 1], l[|l| - 1].0, m)
    ensures var n := |l| - 1; (m.Hit? && m.n < |l[n].0|) <==> exists i: nat :: Clash(l, i, n)
    ensures var n := |l| - 1; Kept(l, n) <==> m == Miss || (m.Hit? && m.n < |l[n].0|)
    ensures m.Hit? ==> m.n <= |l[|l| - 1].0|
  {
    var n := |l| - 1;
    var l0, s := l[..n], l[n].0;
    if m.Hit? {
      var i: nat :| Leads(l0, i, s);
      KeptOfPrefix(l, n, i);
      assert l0[i] == l[i] && m.n == |l[i].0|;
      assert m.n < |s| ==> Clash(l, i, n);
      if Kept(l, n) {
        KeptIsNew(l, i);
      }
    }
    if i: nat :| Clash(l, i, n) {
      KeptOfPrefix(l, n, i);
      assert l0[i] == l[i];
      assert Leads(l0, i, s);
    }
    if Kept(l, n) {
      KeptIsNew(l, 0);
    } else if s != [] {
      Unkept(l);
    }
  }

  /** A last sequence that is dropped changes no answer. */
  lemma AnswersSame(l: seq<(CStr, KeyInfo)>, buf: seq<Byte>, at: Match, m: Match)
    requires l != [] && Answers(l[..|l| - 1], l[|l| - 1].0, at) && Answers(l[..|l| - 1], buf, m)
    requires !Kept(l, |l| - 1)
    ensures Answers(l, buf, m)
  {
    var n := |l| - 1;
    forall i: nat ensures Leads(l, i, buf) <==> Leads(l[..n], i, buf) {
      if i < n {
        KeptOfPrefix(l, n, i);
        assert l[..n][i] == l[i];
      }
    }
    BeginsLast(l, buf);
    if buf < l[n].0 {
      var k :| 0 <= k < n && l[n].0 <= l[k].0;
      assert buf < l[..n][k].0;
    }
    if m.Hit? {
      var i: nat :| Leads(l[..n], i, buf);
      assert Leads(l, i, buf);
    }
    forall i: nat | Leads(l, i, buf) ensures m == Hit(l[i].1, |l[i].0|) {
      assert Leads(l[..n], i, buf) && l[..n][i] == l[i];
    }
  }

  lemma BeginsLast(l: seq<(CStr, KeyInfo)>, buf: seq<Byte>)
    requires l != []
    ensures Begins(l, buf) <==> buf < l[|l| - 1].0 || Begins(l[..|l| - 1], buf)
  {
    var n := |l| - 1;
    if Begins(l, buf) {
      var i :| 0 <= i < |l| && buf < l[i].0;
      assert i < n ==> l[..n][i] == l[i];
    }
    if Begins(l[..n], buf) {
      var i :| 0 <= i < n && buf < l[..n][i].0;
      assert l[i] == l[..n][i];
    }
  }

  /** A last sequence that is kept and clashes with none answers for the buffers it leads and begins. */
  lemma AnswersAdded(l: seq<(CStr, KeyInfo)>, buf: seq<Byte>, at: Match, was: Match, m: Match)
    requires l != [] && Answers(l[..|l| - 1], l[|l| - 1].0, at) && at == Miss && Answers(l[..|l| - 1], buf, was)
    requires var (s, info) := l[|l| - 1]; m == if s <= buf then Hit(info, |s|) else if buf < s then Partial else was
    requires Kept(l, |l| - 1)
    ensures Answers(l, buf, m)
  {
    var n := |l| - 1;
    var l0, s := l[..n], l[n].0;
    BeginsLast(l, buf);
    NotBegunBelow(l, buf);
    forall i: nat ensures i < n ==> (Leads(l, i, buf) <==> Leads(l0, i, buf)) && (Leads(l, i, buf) ==> !(s <= buf) && !(buf < s)) {
      if i < n {
        KeptOfPrefix(l, n, i);
        assert l0[i] == l[i];
        TwoPrefixes(l[i].0, s, buf);
        assert !Leads(l0, i, s);
      }
    }
    if s <= buf {
      assert Leads(l, n, buf);
    } else if m.Hit? {
      var i: nat :| Leads(l0, i, buf);
      assert Leads(l, i, buf);
    }
    forall i: nat | Leads(l, i, buf) ensures m == Hit(l[i].1, |l[i].0|) {
      if i < n {
        assert l0[i] == l[i] && Leads(l0, i, buf);
      }
    }
  }

  lemma NotBegunBelow(l: seq<(CStr, KeyInfo)>, buf: seq<Byte>)
    requires l != [] && Kept(l, |l| - 1)
    ensures l[|l| - 1].0 <= buf ==> !Begins(l[..|l| - 1], buf)
  {
    var n := |l| - 1;
    forall i | 0 <= i < n ensures l[n].0 <= buf ==> !(buf < l[..n][i].0) {
      assert l[..n][i] == l[i];
    }
  }

  lemma TwoPrefixes(a: seq<Byte>, b: seq<Byte>, buf: seq<Byte>)
    ensures a <= buf && (b <= buf || buf < b) ==> a <= b || b <= a
  {
    if a <= buf && b <= buf && |b| <= |a| {
      assert forall i :: 0 <= i < |b| ==> b[i] == buf[i] == a[i];
    } else if a <= buf && (b <= buf || buf < b) {
      assert forall i :: 0 <= i < |a| ==> a[i] == buf[i] == b[i];
    }
  }

  /** C strings, none a prefix of another. */
  ghost predicate PrefixFree(l: seq<(CStr, KeyInfo)>) {
    && (forall i :: 0 <= i < |l| ==> l[i].0 != [])
    && forall i, j :: 0 <= i < |l| && 0 <= j < |l| && i != j ==> !(l[i].0 <= l[j].0)
  }

  /** Prefix-free sequences are all kept and never abort the load, so the match is exactly the sequence that leads the buffer. */
  lemma LoadFinds(l: seq<(CStr, KeyInfo)>, buf: seq<Byte>)
    requires PrefixFree(l)
    ensures Load(l).Some? && WellFormed(Load(l).value)
    ensures forall i :: 0 <= i < |l| && l[i].0 <= buf ==> Find(Load(l).value, buf) == Hit(l[i].1, |l[i].0|)
    ensures Find(Load(l).value, buf).Hit? ==> exists i :: 0 <= i < |l| && l[i].0 <= buf
    ensures Find(Load(l).value, buf).Partial? <==> buf == [] || Begins(l, buf)
  {
    hide Find, Load;
    LoadAnswers(l, buf);
    assert forall i: nat :: i < |l| ==> Kept(l, i);
    assert forall i :: 0 <= i < |l| && l[i].0 <= buf ==> Leads(l, i, buf);
  }

  /**
   The driver over the compressed trie of any list that loads: the end of input
   exactly when nothing is buffered and the terminal is closed; a key exactly when
   its kept sequence leads the buffer; waiting exactly when the buffer begins a
   sequence and input may still come.
   */
  lemma DriverAnswers(l: seq<(CStr, KeyInfo)>, buf: seq<Byte>, force: bool, closed: bool)
    ensures Load(l).Some? <==> !Clashes(l)
    ensures Load(l).Some? ==>
      && WellFormed(Compress(Load(l).value))
      && var a := Peeked(Compress(Load(l).value), buf, force, closed);
         && (a == Eof <==> buf == [] && closed)
         && (buf == [] && !closed ==> a == None_)
         && (buf != [] ==>
              && (forall i: nat :: Leads(l, i, buf) ==> a == if l[i].1.mouse then Mouse(|l[i].0|) else Key(l[i].1, |l[i].0|))
              && (a == Again <==> Begins(l, buf) && !force)
              && ((forall i: nat :: !Leads(l, i, buf)) && (force || !Begins(l, buf)) ==> a == None_))
  {
    LoadAnswers(l, buf);
    if Load(l).Some? {
      CompressPreserves(Load(l).value, buf);
    }
  }
}
