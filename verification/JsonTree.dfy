/**
 Printing a dictionary as JSON: dotted keys are inserted into a tree of nodes,
 and the tree is dumped.
 */
module JsonTree {
  import opened Bytes
  import opened DictTable
  import opened Dict
  import opened DictMerge
  import opened JsonText
  import opened JsonNumber
  import opened JsonSyntax
  import opened JsonFlatten

  /** The C library's text for a floating-point value. */
  type Dtoa = Value -> CStr

  /** A node with its final text, if it has one, and its children in list order. */
  datatype Node = Node(key: CStr, value: Option<CStr>, kids: seq<Node>)

  const ROOT := Node([], None, [])

  // ----- Cutting a key at its dots -----

  function SegLen(s: seq<Byte>): (n: nat)
    ensures n <= |s|
  {
    if s == [] || s[0] == DOT then 0 else 1 + SegLen(s[1..])
  }

  /** The segments between dots; empty ones are skipped, as strtok does. */
  function Tokens(s: CStr): seq<CStr>
    decreases |s|
  {
    if s == [] then []
    else if s[0] == DOT then Tokens(s[1..])
    else
      var n := SegLen(s);
      [s[..n]] + Tokens(s[n..])
  }

  // ----- Building the tree -----

  function FindChild(kids: seq<Node>, key: CStr): (i: Option<nat>)
    ensures i.Some? ==> i.value < |kids| && kids[i.value].key == key
    ensures i.None? ==> forall j :: 0 <= j < |kids| ==> kids[j].key != key
  {
    if kids == [] then None
    else if kids[0].key == key then Some(0)
    else match FindChild(kids[1..], key) case None => None case Some(i) => Some(i + 1)
  }

  /** Walk down the segments, making the children that are missing at the head of the list, and set the text at the end. */
  function Insert(n: Node, toks: seq<CStr>, text: CStr): Node
    decreases |toks|
  {
    if toks == [] then n.(value := Some(text))
    else match FindChild(n.kids, toks[0])
      case Some(i) => n.(kids := n.kids[i := Insert(n.kids[i], toks[1..], text)])
      case None => n.(kids := [Insert(Node(toks[0], None, []), toks[1..], text)] + n.kids)
  }

  function PrintValue(v: Value, dtoa: Dtoa): seq<Byte> {
    match v
    case NullV => TEXT_NULL
    case Str(s) => Escaped(if s.None? then [] else s.value)
    case Char(c) => Escaped(if c == 0 then [] else [c])
    case Bool(b) => if b then TEXT_TRUE else TEXT_FALSE
    case Int(i) => DecText(i)
    case UInt(i) => DecText(i)
    case Long(i) => DecText(i)
    case ULong(i) => DecText(i)
    case LLong(i) => DecText(i)
    case ULLong(i) => DecText(i)
    case Float(_) => dtoa(v)
    case Double(_) => dtoa(v)
    case Ptr(_) => TEXT_NULL
  }

  lemma {:induction false} EscapeBodyNulFree(s: seq<Byte>)
    requires NulFree(s)
    ensures NulFree(EscapeBody(s))
  {
    if s != [] {
      EscapeBodyNulFree(s[..|s| - 1]);
      NulFreeConcat(EscapeBody(s[..|s| - 1]), EscapeByte(s[|s| - 1]));
    }
  }

  lemma PrintNulFree(v: Value, dtoa: Dtoa)
    ensures NulFree(PrintValue(v, dtoa))
  {
    var s: seq<Byte> := match v case Str(Some(t)) => t case Char(c) => if c == 0 then [] else [c] case _ => [];
    EscapeBodyNulFree(s);
    NulFreeConcat([QUOTE] + EscapeBody(s), [QUOTE]);
    NulFreeConcat([QUOTE], EscapeBody(s));
    match v {
      case Int(i) => PrimitiveOfDecText(i, _ => None);
      case UInt(i) => PrimitiveOfDecText(i, _ => None);
      case Long(i) => PrimitiveOfDecText(i, _ => None);
      case ULong(i) => PrimitiveOfDecText(i, _ => None);
      case LLong(i) => PrimitiveOfDecText(i, _ => None);
      case ULLong(i) => PrimitiveOfDecText(i, _ => None);
      case _ =>
    }
  }

  function TextOf(v: Value, dtoa: Dtoa): CStr {
    PrintNulFree(v, dtoa);
    PrintValue(v, dtoa)
  }

  /** The tree after inserting the entries in order. */
  ghost function Build(es: seq<(Key, Value)>, dtoa: Dtoa): Node {
    if es == [] then ROOT
    else
      var (k, v) := es[|es| - 1];
      Insert(Build(es[..|es| - 1], dtoa), Tokens(k), TextOf(v, dtoa))
  }

  // ----- Dumping it -----

  ghost function Dump(n: Node): seq<Byte>
    decreases n, 0
  {
    [OPEN_BRACE] + DumpKids(n.kids) + [CLOSE_BRACE]
  }

  ghost predicate IsLeaf(n: Node) {
    n.value.Some? && n.kids == []
  }

  ghost function DumpValue(c: Node): seq<Byte>
    decreases c, 1
  {
    if IsLeaf(c) then c.value.value else Dump(c)
  }

  ghost function DumpKids(kids: seq<Node>): seq<Byte>
    decreases kids
  {
    if kids == [] then []
    else Escaped(kids[0].key) + [COLON] + DumpValue(kids[0]) + DumpMore(kids[1..])
  }

  ghost function DumpMore(kids: seq<Node>): seq<Byte>
    decreases kids
  {
    if kids == [] then []
    else [COMMA] + (Escaped(kids[0].key) + [COLON] + DumpValue(kids[0]) + DumpMore(kids[1..]))
  }

  /** `pre` and then the rest of an object whose members from `i` on are still to come. */
  ghost predicate DumpedTo(n: Node, i: nat, out: seq<Byte>)
    requires i <= |n.kids|
  {
    out + (if i == 0 then DumpKids(n.kids) else DumpMore(n.kids[i..])) + [CLOSE_BRACE] == Dump(n)
  }

  method DumpJson(n: Node) returns (out: seq<Byte>)
    ensures out == Dump(n)
    decreases n
  {
    hide Escaped, DumpedTo, DumpKids, DumpMore, Dump;
    out := [OPEN_BRACE];
    DumpEnds(n, out);
    var i := 0;
    while i < |n.kids|
      invariant i <= |n.kids|
      invariant DumpedTo(n, i, out)
    {
      var c := n.kids[i];
      DumpStep(n, i, out);
      if i > 0 {
        out := out + [COMMA];
      }
      var key := JsonEscape(Some(c.key));
      var text;
      if c.value.Some? && c.kids == [] {
        text := c.value.value;
      } else {
        text := DumpJson(c);
      }
      out := out + key + [COLON] + text;
      i := i + 1;
    }
    DumpEnds(n, out);
    out := out + [CLOSE_BRACE];
  }

  lemma DumpEnds(n: Node, out: seq<Byte>)
    ensures DumpedTo(n, 0, [OPEN_BRACE])
    ensures DumpedTo(n, |n.kids|, out) ==> out + [CLOSE_BRACE] == Dump(n)
  {
    assert n.kids[|n.kids|..] == [];
    assert out + [] == out;
  }

  lemma DumpStep(n: Node, i: nat, out: seq<Byte>)
    requires i < |n.kids| && DumpedTo(n, i, out)
    ensures DumpedTo(n, i + 1,
              (if i == 0 then out else out + [COMMA]) + Escaped(n.kids[i].key) + [COLON] + DumpValue(n.kids[i]))
  {
    var c := n.kids[i];
    var more := DumpMore(n.kids[i + 1..]);
    var comma := if i == 0 then [] else [COMMA];
    assert n.kids[i..][1..] == n.kids[i + 1..];
    assert (if i == 0 then DumpKids(n.kids) else DumpMore(n.kids[i..]))
        == comma + (Escaped(c.key) + [COLON] + DumpValue(c) + more);
    hide DumpKids, DumpMore, DumpValue, Dump, Escaped;
    Reassociate(out, comma, Escaped(c.key), [COLON], DumpValue(c), more, [CLOSE_BRACE]);
    assert out + [] == out;
  }

  /** `es` lists the entries of `m`, each once. */
  ghost predicate Lists(es: seq<(Key, Value)>, m: map<Key, Value>) {
    && (forall i :: 0 <= i < |es| ==> es[i].0 in m && m[es[i].0] == es[i].1)
    && (forall k :: k in m ==> exists i :: 0 <= i < |es| && es[i].0 == k)
    && (forall i, j :: 0 <= i < j < |es| ==> es[i].0 != es[j].0)
  }

  /** The text of a dictionary: the entries enter the tree in the table's order, `es`. */
  method Dict2Json(d: Dict?, dtoa: Dtoa) returns (out: Option<seq<Byte>>, ghost es: seq<(Key, Value)>)
    requires d != null ==> d.Valid()
    ensures out.None? <==> d == null
    ensures d != null ==> Lists(es, d.Map()) && out == Some(Dump(Build(es, dtoa)))
    ensures d != null ==> exists at :: FoundAt(at, es, d.table[..], d.size)
  {
    es := [];
    if d == null {
      return None, es;
    }
    hide Walked, NoLive, Count, Contents, Lists, Insert, FoundAt, EnteredUpTo, Build;
    ghost var t, seen: map<Key, Value>, at: seq<nat> := d.table[..], map[], [];
    EnteredNothing(t, dtoa);
    hide IsTable;
    var root := ROOT;
    var rank := 0;
    while true
      invariant 0 <= rank <= d.size
      invariant EnteredUpTo(t, rank, seen, es, at, root, dtoa)
      decreases d.size - rank
    {
      var next, entry := d.Enumerate(rank);
      if next < 0 {
        EnteredAll(t, rank, seen, es, at, root, dtoa);
        break;
      }
      EnteredOneMore(t, rank, next, seen, entry, es, at, root, dtoa);
      root := Insert(root, Tokens(entry.key), TextOf(entry.val, dtoa));
      es := es + [(entry.key, entry.val)];
      at := at + [next - 1];
      seen := seen[entry.key := entry.val];
      rank := next;
    }
    var text := DumpJson(root);
    return Some(text), es;
  }

  /** The entries below `rank` are in the tree. */
  ghost predicate EnteredUpTo(t: seq<Cell>, rank: nat, seen: map<Key, Value>, es: seq<(Key, Value)>, at: seq<nat>, root: Node, dtoa: Dtoa) {
    Walked(t, rank, seen) && Lists(es, seen) && FoundAt(at, es, t, rank) && root == Build(es, dtoa)
  }

  lemma EnteredNothing(t: seq<Cell>, dtoa: Dtoa)
    requires Unique(t)
    ensures EnteredUpTo(t, 0, map[], [], [], ROOT, dtoa)
  {
    WalkStart(t);
    ListsNothing();
    FoundNothing(t);
  }

  lemma EnteredOneMore(t: seq<Cell>, rank: nat, next: nat, seen: map<Key, Value>, entry: Cell, es: seq<(Key, Value)>, at: seq<nat>, root: Node, dtoa: Dtoa)
    requires EnteredUpTo(t, rank, seen, es, at, root, dtoa)
    requires rank < next <= |t| && t[next - 1] == entry && entry.Live? && NoLive(t, rank, next - 1)
    ensures EnteredUpTo(t, next, seen[entry.key := entry.val], es + [(entry.key, entry.val)], at + [next - 1],
                        Insert(root, Tokens(entry.key), TextOf(entry.val, dtoa)), dtoa)
  {
    hide Walked, NoLive, Contents, Lists, Insert, FoundAt, Tokens, TextOf;
    WalkStep(t, rank, next, seen, entry);
    FoundNext(at, es, t, rank, next - 1);
    ListsOneMore(es, seen, entry.key, entry.val);
    assert (es + [(entry.key, entry.val)])[..|es|] == es;
  }

  lemma EnteredAll(t: seq<Cell>, rank: nat, seen: map<Key, Value>, es: seq<(Key, Value)>, at: seq<nat>, root: Node, dtoa: Dtoa)
    requires EnteredUpTo(t, rank, seen, es, at, root, dtoa) && rank <= |t| && NoLive(t, rank, |t|)
    ensures Lists(es, Contents(t)) && FoundAt(at, es, t, |t|) && root == Build(es, dtoa)
  {
    WalkEnd(t, rank, seen);
    FoundBelow(at, es, t, rank, |t|);
  }

  /** The entries in the order of their slots, which `at` gives and which are below `end`. */
  ghost predicate FoundAt(at: seq<nat>, es: seq<(Key, Value)>, t: seq<Cell>, end: nat) {
    && |at| == |es|
    && (forall i :: 0 <= i < |at| ==> at[i] < end && at[i] < |t| && t[at[i]].Live? && t[at[i]].key == es[i].0 && t[at[i]].val == es[i].1)
    && (forall i, j :: 0 <= i < j < |at| ==> at[i] < at[j])
  }

  lemma FoundNothing(t: seq<Cell>)
    ensures FoundAt([], [], t, 0)
  {
  }

  lemma FoundNext(at: seq<nat>, es: seq<(Key, Value)>, t: seq<Cell>, end: nat, i: nat)
    requires FoundAt(at, es, t, end) && end <= i < |t| && t[i].Live?
    ensures FoundAt(at + [i], es + [(t[i].key, t[i].val)], t, i + 1)
  {
  }

  lemma FoundBelow(at: seq<nat>, es: seq<(Key, Value)>, t: seq<Cell>, end: nat, more: nat)
    requires FoundAt(at, es, t, end) && end <= more
    ensures FoundAt(at, es, t, more)
  {
  }

  lemma ListsNothing()
    ensures Lists([], map[])
  {
  }

  lemma ListsOneMore(es: seq<(Key, Value)>, m: map<Key, Value>, k: Key, v: Value)
    requires Lists(es, m) && k !in m
    ensures Lists(es + [(k, v)], m[k := v])
  {
    var es' := es + [(k, v)];
    assert es'[|es|].0 == k;
    forall x | x in m ensures exists i :: 0 <= i < |es'| && es'[i].0 == x {
      var i :| 0 <= i < |es| && es[i].0 == x;
      assert es'[i].0 == x;
    }
  }
}
