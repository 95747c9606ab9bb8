/**
 The SOCKS5 client handshake (RFC 1928 sections 3, 4 and 6; RFC 1929 section 2)
 as a machine driven by connection events.  Sends are taken to succeed.
 */
module Socks {
  import opened Bytes

  datatype Stage = Greeting | Auth | Connect | Ready | Failed

  datatype Event = ErrorEv | CloseEv | PollEv(now: int) | ConnectEv | ReadEv | OtherEv

  /** The destination: an address the C library could parse, or a name. */
  datatype Host = V4(a: seq<Byte>) | V6(b: seq<Byte>) | Name(s: seq<Byte>)

  datatype Config = Config(user: seq<Byte>, pass: seq<Byte>, host: Host, port: nat, deadline: int) {
    /** What initialisation has checked. */
    ghost predicate Valid() {
      && |user| <= 255 && |pass| <= 255 && port < 65536
      && match host
         case V4(a) => |a| == 4
         case V6(a) => |a| == 16
         case Name(s) => 0 < |s| <= 255
    }
  }

  /** The negotiation state together with its side of the connection. */
  datatype Link = Link(stage: Stage, recv: seq<Byte>, sent: seq<Byte>, closing: bool)

  // ----- Packets -----

  function MethodByte(c: Config): Byte {
    if c.user != [] then 2 else 0
  }

  function GreetingPacket(c: Config): seq<Byte> {
    [5, 1, MethodByte(c)]
  }

  function AuthPacket(c: Config): seq<Byte>
    requires c.Valid()
  {
    [1, |c.user|] + c.user + [|c.pass|] + c.pass
  }

  function ConnectPacket(c: Config): seq<Byte>
    requires c.Valid()
  {
    [5, 1, 0]
    + (match c.host
       case V4(a) => [1] + a
       case V6(a) => [4] + a
       case Name(s) => [3, |s|] + s)
    + [c.port / 256, c.port % 256]
  }

  // ----- One turn of the read loop -----

  /** Wait for more, give up, or consume `n` bytes, answer and move on. */
  datatype Decision = Wait | Fail | Take(n: nat, reply: seq<Byte>, next: Stage)

  /** The length of a CONNECT reply whose first bytes are there: none when it cannot be one. */
  function ReplyLength(p: seq<Byte>): Option<nat>
    requires |p| >= 5 || (|p| == 4 && p[3] != 3)
  {
    if p[3] == 1 then Some(10)
    else if p[3] == 4 then Some(22)
    else if p[3] == 3 && p[4] != 0 then Some(7 + p[4] as int)
    else None
  }

  function Decide(c: Config, stage: Stage, p: seq<Byte>): (d: Decision)
    requires c.Valid()
    ensures d.Take? ==> 0 < d.n <= |p|
  {
    match stage
    case Greeting =>
      if |p| < 2 then Wait
      else if p[0] != 5 || p[1] != MethodByte(c) then Fail
      else if c.user != [] then Take(2, AuthPacket(c), Auth)
      else Take(2, ConnectPacket(c), Connect)
    case Auth =>
      if |p| < 2 then Wait
      else if p[0] != 1 || p[1] != 0 then Fail
      else Take(2, ConnectPacket(c), Connect)
    case Connect =>
      if |p| < 4 then Wait
      else if p[0] != 5 || p[2] != 0 || p[1] != 0 then Fail
      else if p[3] == 3 && |p| < 5 then Wait
      else (match ReplyLength(p)
            case None => Fail
            case Some(n) => if |p| < n then Wait else Take(n, [], Ready))
    case Ready => Wait
    case Failed => Wait
  }

  function Give(l: Link): Link {
    l.(stage := Failed, closing := true)
  }

  function Took(l: Link, d: Decision): Link
    requires d.Take? && d.n <= |l.recv|
  {
    l.(stage := d.next, recv := l.recv[d.n..], sent := l.sent + d.reply)
  }

  /** The whole read loop: the link afterwards and the returned code. */
  ghost function Negotiate(c: Config, l: Link): (Link, int)
    requires c.Valid()
    decreases |l.recv|
  {
    match Decide(c, l.stage, l.recv)
    case Wait => (l, 0)
    case Fail => (Give(l), -1)
    case Take(n, reply, next) =>
      var l' := Took(l, Decide(c, l.stage, l.recv));
      if next == Ready then (l', 1) else Negotiate(c, l')
  }

  ghost function OnEvent(c: Config, l: Link, ev: Event): (Link, int)
    requires c.Valid()
  {
    if ev == ErrorEv || ev == CloseEv || l.closing then (Give(l), -1)
    else if l.stage == Failed then (l.(closing := true), -1)
    else if l.stage == Ready then (l, 0)
    else match ev
      case PollEv(now) => if now >= c.deadline then (Give(l), -1) else (l, 0)
      case ConnectEv => (l.(sent := l.sent + GreetingPacket(c)), 0)
      case ReadEv => Negotiate(c, l)
      case _ => (l, 0)
  }

  class Session {
    const config: Config
    var link: Link

    /** A session initialised for a destination, before any event. */
    constructor (c: Config)
      requires c.Valid()
      ensures config == c && link == Link(Greeting, [], [], false)
    {
      config := c;
      link := Link(Greeting, [], [], false);
    }

    method HandleEvent(ev: Event) returns (r: int)
      requires config.Valid()
      modifies this
      ensures (link, r) == OnEvent(config, old(link), ev)
    {
      if ev == ErrorEv || ev == CloseEv || link.closing {
        link := Give(link);
        return -1;
      }
      if link.stage == Failed {
        link := link.(closing := true);
        return -1;
      }
      if link.stage == Ready {
        return 0;
      }
      if ev.PollEv? && ev.now >= config.deadline {
        link := Give(link);
        return -1;
      }
      if ev == ConnectEv {
        link := link.(sent := link.sent + GreetingPacket(config));
      }
      if ev != ReadEv {
        return 0;
      }
      while true
        invariant Negotiate(config, link) == Negotiate(config, old(link))
        decreases |link.recv|
      {
        var d := Decide(config, link.stage, link.recv);
        if d.Wait? {
          return 0;
        }
        if d.Fail? {
          link := Give(link);
          return -1;
        }
        link := Took(link, d);
        if d.next == Ready {
          return 1;
        }
      }
    }
  }

  // ----- Fragmentation -----

  ghost function More(l: Link, bytes: seq<Byte>): Link {
    l.(recv := l.recv + bytes)
  }

  /** Bytes arrive and the read event fires. */
  ghost function Feed(c: Config, l: Link, bytes: seq<Byte>): (Link, int)
    requires c.Valid()
  {
    OnEvent(c, More(l, bytes), ReadEv)
  }

  ghost function FeedAll(c: Config, l: Link, chunks: seq<seq<Byte>>): Link
    requires c.Valid()
    decreases |chunks|
  {
    if chunks == [] then l else FeedAll(c, Feed(c, l, chunks[0]).0, chunks[1..])
  }

  /** The codes the read events return, in order. */
  ghost function Codes(c: Config, l: Link, chunks: seq<seq<Byte>>): seq<int>
    requires c.Valid()
    decreases |chunks|
  {
    if chunks == [] then [] else [Feed(c, l, chunks[0]).1] + Codes(c, Feed(c, l, chunks[0]).0, chunks[1..])
  }

  ghost function Flatten(chunks: seq<seq<Byte>>): seq<Byte> {
    if chunks == [] then [] else chunks[0] + Flatten(chunks[1..])
  }

  /** A decision other than waiting does not change when more bytes are there. */
  lemma DecideMonotone(c: Config, stage: Stage, p: seq<Byte>, more: seq<Byte>)
    requires c.Valid()
    ensures Decide(c, stage, p) == Wait || Decide(c, stage, p + more) == Decide(c, stage, p)
  {
    hide AuthPacket, ConnectPacket;
  }

  /** Reading in two portions is reading both at once. */
  lemma {:induction false} NegotiateSplit(c: Config, l: Link, more: seq<Byte>)
    requires c.Valid()
    ensures var (l1, r1) := Negotiate(c, l);
      Negotiate(c, More(l, more)) == if r1 == 0 then Negotiate(c, More(l1, more)) else (More(l1, more), r1)
    decreases |l.recv|
  {
    hide Decide;
    var d := Decide(c, l.stage, l.recv);
    DecideMonotone(c, l.stage, l.recv, more);
    if d.Take? {
      var l' := Took(l, d);
      assert (l.recv + more)[d.n..] == l.recv[d.n..] + more;
      assert Took(More(l, more), d) == More(l', more);
      if d.next != Ready {
        NegotiateSplit(c, l', more);
      }
    }
  }

  /** Where the read loop can stop. */
  lemma {:induction false} NegotiateEnds(c: Config, l: Link)
    requires c.Valid() && l.stage != Failed && l.stage != Ready && !l.closing
    ensures var (l1, r1) := Negotiate(c, l);
      && (r1 == 0 ==> l1.stage != Failed && l1.stage != Ready && !l1.closing)
      && (r1 == 1 ==> l1.stage == Ready && !l1.closing)
      && (r1 != 0 && r1 != 1 ==> r1 == -1 && l1.stage == Failed && l1.closing)
    decreases |l.recv|
  {
    var d := Decide(c, l.stage, l.recv);
    if d.Take? && d.next != Ready {
      NegotiateEnds(c, Took(l, d));
    }
  }

  lemma FeedTwice(c: Config, l: Link, a: seq<Byte>, b: seq<Byte>)
    requires c.Valid()
    ensures Feed(c, Feed(c, l, a).0, b).0 == Feed(c, l, a + b).0
  {
    assert More(More(l, a), b) == More(l, a + b) by {
      assert (l.recv + a) + b == l.recv + (a + b);
    }
    if !l.closing && l.stage != Failed && l.stage != Ready {
      NegotiateSplit(c, More(l, a), b);
      NegotiateEnds(c, More(l, a));
    }
  }

  /** Several reads end as one read of all their bytes. */
  lemma {:induction false} ReadsJoin(c: Config, l: Link, chunks: seq<seq<Byte>>)
    requires c.Valid() && chunks != []
    ensures FeedAll(c, l, chunks) == Feed(c, l, Flatten(chunks)).0
    decreases |chunks|
  {
    hide Feed, Negotiate;
    var l1 := Feed(c, l, chunks[0]).0;
    if |chunks| == 1 {
      assert chunks[1..] == [] && chunks[0] + [] == chunks[0];
      assert Flatten(chunks) == chunks[0] + Flatten([]) == chunks[0];
      assert FeedAll(c, l, chunks) == FeedAll(c, l1, []);
    } else {
      ReadsJoin(c, l1, chunks[1..]);
      FeedTwice(c, l, chunks[0], Flatten(chunks[1..]));
    }
  }

  /** Bytes that arrive, or an event in between that brings none: a poll before the deadline, or one the session does not know. */
  datatype Turn = Arrives(bytes: seq<Byte>) | Between(ev: Event)

  ghost predicate Calm(c: Config, t: Turn) {
    t.Between? ==> t.ev == OtherEv || (t.ev.PollEv? && t.ev.now < c.deadline)
  }

  ghost function TakeTurn(c: Config, l: Link, t: Turn): Link
    requires c.Valid()
  {
    match t
    case Arrives(bytes) => Feed(c, l, bytes).0
    case Between(ev) => OnEvent(c, l, ev).0
  }

  ghost function TakeTurns(c: Config, l: Link, ts: seq<Turn>): Link
    requires c.Valid()
    decreases |ts|
  {
    if ts == [] then l else TakeTurns(c, TakeTurn(c, l, ts[0]), ts[1..])
  }

  ghost function Arrived(ts: seq<Turn>): seq<Byte> {
    if ts == [] then [] else (if ts[0].Arrives? then ts[0].bytes else []) + Arrived(ts[1..])
  }

  ghost predicate Reads(ts: seq<Turn>) {
    exists i :: 0 <= i < |ts| && ts[i].Arrives?
  }

  lemma BetweenIdle(c: Config, l: Link, ev: Event, bytes: seq<Byte>)
    requires c.Valid() && Calm(c, Between(ev))
    ensures Feed(c, OnEvent(c, l, ev).0, bytes).0 == Feed(c, l, bytes).0
    ensures OnEvent(c, Feed(c, l, bytes).0, ev).0 == Feed(c, l, bytes).0
  {
    hide Decide;
    if !l.closing && l.stage != Failed && l.stage != Ready {
      NegotiateEnds(c, More(l, bytes));
    }
  }

  lemma {:induction false} BetweenAfterFeed(c: Config, l: Link, bytes: seq<Byte>, ts: seq<Turn>)
    requires c.Valid() && !Reads(ts) && forall i :: 0 <= i < |ts| ==> Calm(c, ts[i])
    ensures TakeTurns(c, Feed(c, l, bytes).0, ts) == Feed(c, l, bytes).0 && Arrived(ts) == []
    decreases |ts|
  {
    hide Feed, OnEvent;
    if ts != [] {
      assert !ts[0].Arrives?;
      BetweenIdle(c, l, ts[0].ev, bytes);
      assert !Reads(ts[1..]) by {
        assert forall i :: 0 <= i < |ts| - 1 ==> ts[1..][i] == ts[i + 1];
      }
      BetweenAfterFeed(c, l, bytes, ts[1..]);
    }
  }

  /**
   However a byte stream is cut into reads, and whatever polls come between them
   before the deadline: stage, sent bytes and unconsumed buffer end up the same
   as in one read.
   */
  lemma {:induction false} FragmentationIrrelevant(c: Config, l: Link, ts: seq<Turn>)
    requires c.Valid() && Reads(ts) && forall i :: 0 <= i < |ts| ==> Calm(c, ts[i])
    ensures TakeTurns(c, l, ts) == Feed(c, l, Arrived(ts)).0
    decreases |ts|
  {
    hide Feed, OnEvent, Calm;
    var rest := ts[1..];
    assert forall i :: 0 <= i < |rest| ==> rest[i] == ts[i + 1];
    match ts[0]
    case Between(ev) =>
      ReadsLater(ts);
      FragmentationIrrelevant(c, OnEvent(c, l, ev).0, rest);
      BetweenIdle(c, l, ev, Arrived(rest));
      assert [] + Arrived(rest) == Arrived(rest);
    case Arrives(bytes) =>
      if Reads(rest) {
        FragmentationIrrelevant(c, Feed(c, l, bytes).0, rest);
        FeedTwice(c, l, bytes, Arrived(rest));
      } else {
        BetweenAfterFeed(c, l, bytes, rest);
        assert bytes + [] == bytes;
      }
  }

  lemma ReadsLater(ts: seq<Turn>)
    requires Reads(ts) && !ts[0].Arrives?
    ensures Reads(ts[1..])
  {
    var i :| 0 <= i < |ts| && ts[i].Arrives?;
    assert ts[1..][i - 1] == ts[i];
  }

  /** Failure is final: no event leads out of it, and each answers -1. */
  lemma FailedAbsorbs(c: Config, l: Link, ev: Event)
    requires c.Valid() && l.stage == Failed
    ensures OnEvent(c, l, ev).0.stage == Failed && OnEvent(c, l, ev).1 == -1
    ensures OnEvent(c, l, ev).0.recv == l.recv && OnEvent(c, l, ev).0.sent == l.sent && OnEvent(c, l, ev).0.closing
  {
  }

  /** The link after a series of events, and the codes they return. */
  ghost function OnEvents(c: Config, l: Link, evs: seq<Event>): (r: (Link, seq<int>))
    requires c.Valid()
    ensures |r.1| == |evs|
    decreases |evs|
  {
    if evs == [] then (l, [])
    else
      var (l1, code) := OnEvent(c, l, evs[0]);
      var (end, codes) := OnEvents(c, l1, evs[1..]);
      (end, [code] + codes)
  }

  /** So no series of events leads out of failure, sends anything or reads anything off. */
  lemma {:induction false} FailedForever(c: Config, l: Link, evs: seq<Event>)
    requires c.Valid() && l.stage == Failed
    ensures var (end, codes) := OnEvents(c, l, evs);
            && end.stage == Failed && end.recv == l.recv && end.sent == l.sent && (evs != [] ==> end.closing)
            && forall i :: 0 <= i < |evs| ==> codes[i] == -1
    decreases |evs|
  {
    if evs != [] {
      FailedAbsorbs(c, l, evs[0]);
      FailedForever(c, OnEvent(c, l, evs[0]).0, evs[1..]);
    }
  }

  /** "Ready" is announced at most once, exactly when the stage becomes Ready; before it all answers are 0, after it too. */
  lemma {:induction false} ReadyOnce(c: Config, l: Link, chunks: seq<seq<Byte>>)
    requires c.Valid() && l.stage != Failed && l.stage != Ready && !l.closing
    ensures var codes := Codes(c, l, chunks);
      && (FeedAll(c, l, chunks).stage == Ready
          <==> exists i :: 0 <= i < |codes| && codes[i] == 1 && forall j :: 0 <= j < |codes| && j != i ==> codes[j] == 0)
      && (FeedAll(c, l, chunks).stage != Ready ==> forall i :: 0 <= i < |codes| ==> codes[i] != 1)
    decreases |chunks|
  {
    if chunks != [] {
      var (l1, r) := Feed(c, l, chunks[0]);
      NegotiateEnds(c, More(l, chunks[0]));
      var codes := Codes(c, l, chunks);
      assert codes == [r] + Codes(c, l1, chunks[1..]);
      if r == 0 {
        ReadyOnce(c, l1, chunks[1..]);
        var later := Codes(c, l1, chunks[1..]);
        if i :| 0 <= i < |later| && later[i] == 1 && forall j :: 0 <= j < |later| && j != i ==> later[j] == 0 {
          assert codes[i + 1] == 1 && forall j :: 0 <= j < |codes| && j != i + 1 ==> codes[j] == 0;
        }
        if i :| 0 <= i < |codes| && codes[i] == 1 && forall j :: 0 <= j < |codes| && j != i ==> codes[j] == 0 {
          assert later[i - 1] == 1 && forall j :: 0 <= j < |later| && j != i - 1 ==> later[j] == codes[j + 1] == 0;
        }
      } else {
        Settled(c, l1, chunks[1..]);
        if r == 1 {
          assert codes[0] == 1;
        }
      }
    }
  }

  lemma {:induction false} Settled(c: Config, l: Link, chunks: seq<seq<Byte>>)
    requires c.Valid() && ((l.stage == Ready && !l.closing) || l.stage == Failed)
    ensures FeedAll(c, l, chunks).stage == l.stage
    ensures |Codes(c, l, chunks)| == |chunks|
    ensures forall i :: 0 <= i < |chunks| ==> Codes(c, l, chunks)[i] == if l.stage == Ready then 0 else -1
    decreases |chunks|
  {
    if chunks != [] {
      var l1 := Feed(c, l, chunks[0]).0;
      Settled(c, l1, chunks[1..]);
      var later := Codes(c, l1, chunks[1..]);
      assert forall i :: 0 < i < |chunks| ==> Codes(c, l, chunks)[i] == later[i - 1];
    }
  }

  // ----- What a successful handshake is -----

  /** The proxy's side of a handshake that succeeds: method selection, authentication if there is any, CONNECT reply. */
  ghost predicate IsHandshake(c: Config, x: seq<Byte>) {
    var k := if c.user != [] then 4 else 2;
    && |x| >= k + 5
    && x[0] == 5 && x[1] == (if c.user != [] then 2 else 0)
    && (c.user != [] ==> x[2] == 1 && x[3] == 0)
    && IsReply(x[k..])
  }

  /** Version, success and a reserved zero, then an IPv4 address, an IPv6 address or a counted name, and a port. */
  ghost predicate IsReply(r: seq<Byte>) {
    && |r| >= 5 && r[0] == 5 && r[1] == 0 && r[2] == 0
    && (|| (r[3] == 1 && |r| == 4 + 4 + 2)
        || (r[3] == 4 && |r| == 4 + 16 + 2)
        || (r[3] == 3 && r[4] != 0 && |r| == 4 + 1 + (r[4] as int) + 2))
  }

  lemma ReadyFromConnect(c: Config, l: Link, n: nat)
    requires c.Valid() && l.stage == Connect && !l.closing
    ensures n <= |l.recv| && IsReply(l.recv[..n])
            ==> Negotiate(c, l) == (l.(stage := Ready, recv := l.recv[n..], sent := l.sent + []), 1)
    ensures Negotiate(c, l).1 == 1 ==> exists n: nat :: n <= |l.recv| && IsReply(l.recv[..n])
  {
    hide ConnectPacket, AuthPacket;
    if Negotiate(c, l).1 == 1 {
      var d := Decide(c, l.stage, l.recv);
      if d.Take? {
        assert IsReply(l.recv[..d.n]);
      }
    }
  }

  /** Fed any bytes, the session is ready exactly when they start with a complete successful handshake; what follows it stays in the buffer, and the packets sent are fixed. */
  lemma ReadyIff(c: Config, t: seq<Byte>)
    requires c.Valid()
    ensures var l := Feed(c, Link(Greeting, [], GreetingPacket(c), false), t).0;
      && (l.stage == Ready <==> exists n: nat :: n <= |t| && IsHandshake(c, t[..n]))
      && forall n: nat :: n <= |t| && IsHandshake(c, t[..n]) ==>
           l == Link(Ready, t[n..], SentByConnect(c), false)
  {
    hide Negotiate, GreetingPacket, AuthPacket, ConnectPacket, IsHandshake;
    var l0 := Link(Greeting, t, GreetingPacket(c), false);
    assert More(Link(Greeting, [], GreetingPacket(c), false), t) == l0;
    NegotiateEnds(c, l0);
    ReadyIfHandshake(c, t);
    if Negotiate(c, l0).1 == 1 {
      HandshakeIfReady(c, t);
    }
  }

  /** The method selection and, with a user, the authentication answer are there and positive. */
  ghost predicate Admitted(c: Config, t: seq<Byte>) {
    && |t| >= 2 && t[0] == 5 && t[1] == (if c.user != [] then 2 else 0)
    && (c.user != [] ==> |t| >= 4 && t[2] == 1 && t[3] == 0)
  }

  ghost function AdmittedLength(c: Config): nat {
    if c.user != [] then 4 else 2
  }

  ghost function SentByConnect(c: Config): seq<Byte>
    requires c.Valid()
  {
    GreetingPacket(c) + (if c.user != [] then AuthPacket(c) else []) + ConnectPacket(c)
  }

  lemma HandshakeParts(c: Config, t: seq<Byte>, n: nat)
    requires n <= |t|
    ensures IsHandshake(c, t[..n]) <==> n >= AdmittedLength(c) && Admitted(c, t) && IsReply(t[AdmittedLength(c)..][..n - AdmittedLength(c)])
  {
    var k := AdmittedLength(c);
    if n >= k {
      assert t[..n][k..] == t[k..][..n - k];
    }
  }

  lemma ReadyIfHandshake(c: Config, t: seq<Byte>)
    requires c.Valid()
    ensures forall n: nat :: n <= |t| && IsHandshake(c, t[..n]) ==>
      Negotiate(c, Link(Greeting, t, GreetingPacket(c), false)) == (Link(Ready, t[n..], SentByConnect(c), false), 1)
  {
    hide Negotiate, GreetingPacket, AuthPacket, ConnectPacket, IsReply, SentByConnect, IsHandshake;
    var k := AdmittedLength(c);
    forall n: nat | n <= |t| && IsHandshake(c, t[..n])
      ensures Negotiate(c, Link(Greeting, t, GreetingPacket(c), false)) == (Link(Ready, t[n..], SentByConnect(c), false), 1)
    {
      HandshakeParts(c, t, n);
      ReachConnect(c, t);
      ReadyFromConnect(c, Link(Connect, t[k..], SentByConnect(c), false), n - k);
      assert t[k..][n - k..] == t[n..] && SentByConnect(c) + [] == SentByConnect(c);
    }
  }

  lemma HandshakeIfReady(c: Config, t: seq<Byte>)
    requires c.Valid() && Negotiate(c, Link(Greeting, t, GreetingPacket(c), false)).1 == 1
    ensures exists n: nat :: n <= |t| && IsHandshake(c, t[..n])
  {
    hide Negotiate, GreetingPacket, AuthPacket, ConnectPacket, IsReply, SentByConnect, IsHandshake;
    var k := AdmittedLength(c);
    if Admitted(c, t) {
      ReachConnect(c, t);
      ReadyFromConnect(c, Link(Connect, t[k..], SentByConnect(c), false), 0);
      var m: nat :| m <= |t[k..]| && IsReply(t[k..][..m]);
      HandshakeParts(c, t, m + k);
    } else {
      NotReady(c, t);
    }
  }

  lemma ReachConnect(c: Config, t: seq<Byte>)
    requires c.Valid() && Admitted(c, t)
    ensures Negotiate(c, Link(Greeting, t, GreetingPacket(c), false))
            == Negotiate(c, Link(Connect, t[AdmittedLength(c)..], SentByConnect(c), false))
  {
    hide AuthPacket, ConnectPacket, ReplyLength;
    var l0 := Link(Greeting, t, GreetingPacket(c), false);
    if c.user != [] {
      var l1 := Link(Auth, t[2..], GreetingPacket(c) + AuthPacket(c), false);
      assert Took(l0, Decide(c, Greeting, t)) == l1;
      assert t[2..][2..] == t[4..];
      assert Took(l1, Decide(c, Auth, t[2..])) == Link(Connect, t[4..], SentByConnect(c), false);
    } else {
      assert GreetingPacket(c) + [] == GreetingPacket(c);
      assert Took(l0, Decide(c, Greeting, t)) == Link(Connect, t[2..], SentByConnect(c), false);
    }
  }

  lemma NotReady(c: Config, t: seq<Byte>)
    requires c.Valid() && !Admitted(c, t)
    ensures Negotiate(c, Link(Greeting, t, GreetingPacket(c), false)).1 != 1
  {
    hide AuthPacket, ConnectPacket, ReplyLength;
    var l0 := Link(Greeting, t, GreetingPacket(c), false);
    var d := Decide(c, Greeting, t);
    if d.Take? {
      var l1 := Took(l0, d);
      assert Decide(c, Auth, t[2..]) == Wait || Decide(c, Auth, t[2..]) == Fail;
    }
  }

  // ----- What a failed handshake is -----

  /** As far as whole pieces have arrived, each is what the proxy says in a handshake that succeeds. */
  ghost predicate Viable(c: Config, t: seq<Byte>) {
    var k := AdmittedLength(c);
    && (|t| >= 2 ==> t[0] == 5 && t[1] == (if c.user != [] then 2 else 0))
    && (c.user != [] && |t| >= 4 ==> t[2] == 1 && t[3] == 0)
    && (|t| >= k + 4 ==> t[k] == 5 && t[k + 1] == 0 && t[k + 2] == 0 && t[k + 3] in {1, 3, 4})
    && (|t| >= k + 5 && t[k + 3] == 3 ==> t[k + 4] != 0)
  }

  /** The packets that what has arrived calls for. */
  ghost function SentFor(c: Config, t: seq<Byte>): seq<Byte>
    requires c.Valid()
  {
    GreetingPacket(c)
    + (if c.user != [] && |t| >= 2 && t[0] == 5 && t[1] == 2 then AuthPacket(c) else [])
    + (if Admitted(c, t) then ConnectPacket(c) else [])
  }

  lemma FailedIffNotViable(c: Config, t: seq<Byte>)
    requires c.Valid()
    ensures var l := Negotiate(c, Link(Greeting, t, GreetingPacket(c), false)).0;
            (l.stage == Failed <==> !Viable(c, t)) && l.sent == SentFor(c, t)
  {
    hide AuthPacket, ConnectPacket, GreetingPacket, IsReply;
    var k := AdmittedLength(c);
    var l0 := Link(Greeting, t, GreetingPacket(c), false);
    if Admitted(c, t) {
      SentWhenAdmitted(c, t);
      ReachConnect(c, t);
      ConnectEnds(c, Link(Connect, t[k..], SentByConnect(c), false));
    } else {
      NothingMoreSent(c);
      var d := Decide(c, Greeting, t);
      if d.Take? {
        var l1 := Took(l0, d);
        assert Negotiate(c, l0) == Negotiate(c, l1);
        assert l1 == Link(Auth, t[2..], GreetingPacket(c) + AuthPacket(c), false);
        assert Decide(c, Auth, t[2..]) == Wait || Decide(c, Auth, t[2..]) == Fail;
      }
    }
  }

  lemma NothingMoreSent(c: Config)
    requires c.Valid()
    ensures GreetingPacket(c) + [] + [] == GreetingPacket(c)
    ensures GreetingPacket(c) + AuthPacket(c) + [] == GreetingPacket(c) + AuthPacket(c)
  {
    hide GreetingPacket, AuthPacket;
  }

  lemma SentWhenAdmitted(c: Config, t: seq<Byte>)
    requires c.Valid() && Admitted(c, t)
    ensures SentFor(c, t) == SentByConnect(c)
  {
    hide GreetingPacket, AuthPacket, ConnectPacket;
  }

  lemma ConnectEnds(c: Config, l: Link)
    requires c.Valid() && l.stage == Connect && !l.closing
    ensures var p, e := l.recv, Negotiate(c, l).0;
            && e.sent == l.sent
            && (e.stage == Failed <==> (|p| >= 4 && !(p[0] == 5 && p[1] == 0 && p[2] == 0 && p[3] in {1, 3, 4})) || (|p| >= 5 && p[3] == 3 && p[4] == 0))
  {
    hide AuthPacket, ConnectPacket;
    assert l.sent + [] == l.sent;
  }

  /** How many of `n` bytes are whole pieces: method selection, authentication answer, the head of the reply and what follows it. */
  ghost function Judged(c: Config, n: nat): (k: nat)
    ensures k <= n
  {
    var k := AdmittedLength(c);
    if n < 2 then 0 else if n < k then 2 else if n < k + 4 then k else n
  }

  /** A successful handshake begins with these bytes, or is all in them. */
  ghost predicate Hopeful(c: Config, u: seq<Byte>) {
    exists x :: IsHandshake(c, x) && (u <= x || x <= u)
  }

  /** The shortest handshake that begins with viable bytes, or the one that is all in them. */
  ghost function Completed(c: Config, u: seq<Byte>): seq<Byte> {
    var k := AdmittedLength(c);
    var n := if |u| < k + 4 || u[k + 3] == 1 then k + 10 else if u[k + 3] == 4 then k + 22 else if |u| < k + 5 then k + 8 else k + 7 + u[k + 4];
    if |u| >= n then u[..n]
    else if |u| == 0 then [5, if c.user != [] then 2 else 0] + (if c.user != [] then [1, 0] else []) + REPLY
    else if |u| < k then u + [1, 0] + REPLY
    else if |u| < k + 4 then u + REPLY
    else if |u| == k + 4 && u[k + 3] == 3 then u + [1] + seq(3, _ => 0)
    else u + seq(n - |u|, _ => 0)
  }

  const REPLY: seq<Byte> := [5, 0, 0, 1, 0, 0, 0, 0, 0, 0]

  lemma CompletedIsHandshake(c: Config, u: seq<Byte>)
    requires Viable(c, u) && Judged(c, |u|) == |u|
    ensures IsHandshake(c, Completed(c, u)) && (u <= Completed(c, u) || Completed(c, u) <= u)
  {
    var k := AdmittedLength(c);
    var x := Completed(c, u);
    if |u| < k + 4 {
      assert x[k..] == REPLY;
    } else {
      var r := x[k..];
      assert r[0] == u[k] && r[1] == u[k + 1] && r[2] == u[k + 2] && r[3] == u[k + 3];
    }
  }

  /**
   A session fails on what it has read exactly when the whole pieces of it begin no
   successful handshake; and what it has sent is fixed by what it has read.
   */
  lemma FailsIff(c: Config, t: seq<Byte>)
    requires c.Valid()
    ensures var l := Feed(c, Link(Greeting, [], GreetingPacket(c), false), t).0;
            (l.stage == Failed <==> !Hopeful(c, t[..Judged(c, |t|)])) && l.sent == SentFor(c, t)
  {
    hide Negotiate, GreetingPacket, SentFor, IsHandshake, Viable;
    var u := t[..Judged(c, |t|)];
    assert More(Link(Greeting, [], GreetingPacket(c), false), t) == Link(Greeting, t, GreetingPacket(c), false);
    FailedIffNotViable(c, t);
    ViableByPieces(c, t);
    if Viable(c, u) {
      CompletedIsHandshake(c, u);
    }
    if Hopeful(c, u) {
      var x :| IsHandshake(c, x) && (u <= x || x <= u);
      HandshakeIsViable(c, x, u);
    }
  }

  lemma ViableByPieces(c: Config, t: seq<Byte>)
    ensures Viable(c, t) <==> Viable(c, t[..Judged(c, |t|)])
    ensures var u := t[..Judged(c, |t|)]; Judged(c, |u|) == |u|
  {
  }

  lemma HandshakeIsViable(c: Config, x: seq<Byte>, u: seq<Byte>)
    requires IsHandshake(c, x) && (u <= x || x <= u)
    ensures Viable(c, u)
  {
    var k := AdmittedLength(c);
    assert forall i :: 0 <= i < |x| - k ==> x[k..][i] == x[k + i];
    assert forall i :: 0 <= i < |u| && i < |x| ==> u[i] == x[i];
  }

  /** An unfinished session is given up by anything but a read exactly when the connection ends or a poll finds the deadline reached. */
  lemma GivenUpIff(c: Config, l: Link, ev: Event)
    requires c.Valid() && ev != ReadEv && !l.closing && l.stage != Failed && l.stage != Ready
    ensures OnEvent(c, l, ev).0.stage == Failed <==> ev in {ErrorEv, CloseEv} || (ev.PollEv? && c.deadline <= ev.now)
    ensures OnEvent(c, l, ev).1 == (if OnEvent(c, l, ev).0.stage == Failed then -1 else 0)
  {
  }

  // ----- What the proxy reads -----

  /** The offered methods and what follows (RFC 1928, section 3). */
  ghost function ReadGreeting(p: seq<Byte>): Option<(seq<Byte>, seq<Byte>)> {
    if |p| < 2 || p[0] != 5 || |p| < 2 + p[1] as int then None
    else
      var n := 2 + p[1] as int;
      Some((p[2..n], p[n..]))
  }

  /** User, password and what follows (RFC 1929, section 2). */
  ghost function ReadAuth(p: seq<Byte>): Option<(seq<Byte>, seq<Byte>, seq<Byte>)> {
    if |p| < 2 || p[0] != 1 || |p| < 3 + p[1] as int then None
    else
      var n := 2 + p[1] as int;
      var rest := p[n..];
      var m := 1 + rest[0] as int;
      if |rest| < m then None else Some((p[2..n], rest[1..m], rest[m..]))
  }

  /** Where to connect to, the port, high octet first, and what follows (RFC 1928, sections 4 and 5). */
  ghost function ReadRequest(p: seq<Byte>): Option<(Host, nat, seq<Byte>)> {
    if |p| < 5 || p[0] != 5 || p[1] != 1 || p[2] != 0 || p[3] !in {1, 3, 4} then None
    else
      var n: nat := if p[3] == 1 then 8 else if p[3] == 4 then 20 else 5 + p[4] as int;
      if |p| < n + 2 then None
      else
        var host := if p[3] == 1 then V4(p[4..n]) else if p[3] == 4 then V6(p[4..n]) else Name(p[5..n]);
        Some((host, 256 * (p[n] as int) + p[n + 1] as int, p[n + 2..]))
  }

  lemma GreetingReadsBack(c: Config, more: seq<Byte>)
    ensures ReadGreeting(GreetingPacket(c) + more) == Some(([if c.user != [] then 2 else 0], more))
  {
    var p := GreetingPacket(c) + more;
    assert p[2..3] == [MethodByte(c)] && p[3..] == more;
  }

  lemma AuthReadsBack(c: Config, more: seq<Byte>)
    requires c.Valid()
    ensures ReadAuth(AuthPacket(c) + more) == Some((c.user, c.pass, more))
  {
    var p := AuthPacket(c) + more;
    assert p[2..2 + |c.user|] == c.user;
    var rest := p[2 + |c.user|..];
    assert rest == [|c.pass|] + c.pass + more;
    assert rest[1..1 + |c.pass|] == c.pass && rest[1 + |c.pass|..] == more;
  }

  lemma RequestReadsBack(c: Config, more: seq<Byte>)
    requires c.Valid()
    ensures ReadRequest(ConnectPacket(c) + more) == Some((c.host, c.port, more))
  {
    var p := ConnectPacket(c) + more;
    match c.host {
      case V4(a) =>
        assert p[4..8] == a && p[10..] == more;
      case V6(a) =>
        assert p[4..20] == a && p[22..] == more;
      case Name(s) =>
        assert p[5..5 + |s|] == s && p[7 + |s|..] == more;
    }
  }

  /**
   What a proxy reads from these bytes: one method offered, 2 exactly with a user;
   then, with a user, the user and the password; then a CONNECT to the configured
   host and port; and nothing more.
   */
  ghost predicate TellsConfig(c: Config, sent: seq<Byte>) {
    && ReadGreeting(sent).Some?
    && var (methods, rest) := ReadGreeting(sent).value;
       && methods == [if c.user != [] then 2 else 0]
       && (c.user == [] ==> ReadRequest(rest) == Some((c.host, c.port, [])))
       && (c.user != [] ==> ReadAuth(rest).Some? && ReadAuth(rest).value.0 == c.user && ReadAuth(rest).value.1 == c.pass
                            && ReadRequest(ReadAuth(rest).value.2) == Some((c.host, c.port, [])))
  }

  /** The packets of a session that became ready tell the proxy the configuration. */
  lemma ProxyReadsConfig(c: Config)
    requires c.Valid()
    ensures TellsConfig(c, SentByConnect(c))
  {
    hide GreetingPacket, AuthPacket, ConnectPacket, ReadGreeting, ReadAuth, ReadRequest;
    var connect := ConnectPacket(c);
    RequestReadsBack(c, []);
    assert connect + [] == connect;
    if c.user == [] {
      assert GreetingPacket(c) + [] + connect == GreetingPacket(c) + connect;
      GreetingReadsBack(c, connect);
    } else {
      var auth := AuthPacket(c);
      assert GreetingPacket(c) + auth + connect == GreetingPacket(c) + (auth + connect);
      GreetingReadsBack(c, auth + connect);
      AuthReadsBack(c, connect);
    }
  }

  /**
   A whole session, from its connection on, however its input is cut: it becomes
   ready exactly when what arrives starts with a successful handshake, and has then
   told the proxy its configuration and kept what follows the handshake; and it
   fails exactly when what arrives can no longer start with one.
   */
  lemma WholeSession(c: Config, ts: seq<Turn>)
    requires c.Valid() && Reads(ts) && forall i :: 0 <= i < |ts| ==> Calm(c, ts[i])
    ensures var l := TakeTurns(c, OnEvent(c, Link(Greeting, [], [], false), ConnectEv).0, ts);
            var t := Arrived(ts);
            && (l.stage == Ready <==> exists n: nat :: n <= |t| && IsHandshake(c, t[..n]))
            && (forall n: nat :: n <= |t| && IsHandshake(c, t[..n]) ==> l.recv == t[n..] && TellsConfig(c, l.sent) && !l.closing)
            && (l.stage == Failed <==> !Hopeful(c, t[..Judged(c, |t|)]))
  {
    hide GreetingPacket, Feed, IsHandshake, Hopeful, TellsConfig, Negotiate, TakeTurns, Calm;
    var l0 := Link(Greeting, [], GreetingPacket(c), false);
    assert [] + GreetingPacket(c) == GreetingPacket(c);
    FragmentationIrrelevant(c, l0, ts);
    ReadyIff(c, Arrived(ts));
    FailsIff(c, Arrived(ts));
    ProxyReadsConfig(c);
  }
}
