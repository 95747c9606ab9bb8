/**
 Ordered access rules with a three-valued match: while the address or the
 identity of a subject is unknown a rule may have to defer, and an answer that is
 not deferred is final.
 */
module Acl {
  import opened Bytes

  /** Sixteen octets; an IPv4 address uses the first four. */
  type Address = a: seq<bv8> | |a| == 16 witness seq(16, _ => 0)

  type Text = seq<Byte>

  datatype Kind = Any | User | Group

  datatype Verdict = NoMatch | Allow | Deny | Defer

  datatype Rule = Rule(address: Address, family: nat, prefix: nat, kind: Kind, principal: Text, allow: bool)

  /** Family 0 is an unknown address; no user is an unknown identity. */
  datatype Subject = Subject(address: Address, family: nat, user: Option<Text>, inGroup: Option<Text -> bool>, ignoreCase: bool)

  function Width(family: nat): nat {
    if family == 4 then 32 else 128
  }

  // ----- Address matching -----

  /** The part of an octet that is compared when the prefix ends inside it. */
  predicate MaskedEqual(a: bv8, b: bv8, bits: nat)
    requires bits < 8
  {
    bits == 0 || (a ^ b) & (0xff << (8 - bits)) == 0
  }

  predicate AddressPasses(rule: Rule, family: nat, address: Address)
  {
    && rule.family in {4, 6} && rule.prefix <= Width(rule.family) && rule.family == family
    && rule.address[..rule.prefix / 8] == address[..rule.prefix / 8]
    && (rule.prefix % 8 == 0 || MaskedEqual(rule.address[rule.prefix / 8], address[rule.prefix / 8], rule.prefix % 8))
  }

  /** Bit `i` of an octet, the highest first. */
  predicate OctetBit(a: bv8, i: nat)
    requires i < 8
  {
    if i == 0 then a & 0x80 != 0
    else if i == 1 then a & 0x40 != 0
    else if i == 2 then a & 0x20 != 0
    else if i == 3 then a & 0x10 != 0
    else if i == 4 then a & 0x08 != 0
    else if i == 5 then a & 0x04 != 0
    else if i == 6 then a & 0x02 != 0
    else a & 0x01 != 0
  }

  predicate Bit(a: Address, i: nat)
    requires i < 128
  {
    OctetBit(a[i / 8], i % 8)
  }

  /** The two addresses are in the same network of this prefix length (RFC 4632, section 3.1). */
  predicate SameNetwork(a: Address, b: Address, prefix: nat)
    requires prefix <= 128
  {
    forall i :: 0 <= i < prefix ==> Bit(a, i) == Bit(b, i)
  }

  lemma OctetsOfBits(a: bv8, b: bv8)
    requires forall i :: 0 <= i < 8 ==> OctetBit(a, i) == OctetBit(b, i)
    ensures a == b
  {
    assert OctetBit(a, 0) == OctetBit(b, 0) && OctetBit(a, 1) == OctetBit(b, 1);
    assert OctetBit(a, 2) == OctetBit(b, 2) && OctetBit(a, 3) == OctetBit(b, 3);
    assert OctetBit(a, 4) == OctetBit(b, 4) && OctetBit(a, 5) == OctetBit(b, 5);
    assert OctetBit(a, 6) == OctetBit(b, 6) && OctetBit(a, 7) == OctetBit(b, 7);
  }

  lemma MaskStepHigh(a: bv8, b: bv8, k: nat)
    requires 1 <= k <= 4
    ensures MaskedEqual(a, b, k) <==> MaskedEqual(a, b, k - 1) && OctetBit(a, k - 1) == OctetBit(b, k - 1)
  {
    if k == 1 {
    } else if k == 2 {
    } else if k == 3 {
    } else {
    }
  }

  lemma MaskStepLow(a: bv8, b: bv8, k: nat)
    requires 5 <= k < 8
    ensures MaskedEqual(a, b, k) <==> MaskedEqual(a, b, k - 1) && OctetBit(a, k - 1) == OctetBit(b, k - 1)
  {
    if k == 5 {
    } else if k == 6 {
    } else {
    }
  }

  lemma {:induction false} MaskIsLeadingBits(a: bv8, b: bv8, bits: nat)
    requires bits < 8
    ensures MaskedEqual(a, b, bits) <==> forall i :: 0 <= i < bits ==> OctetBit(a, i) == OctetBit(b, i)
  {
    hide OctetBit;
    if bits > 0 {
      if bits <= 4 {
        MaskStepHigh(a, b, bits);
      } else {
        MaskStepLow(a, b, bits);
      }
      MaskIsLeadingBits(a, b, bits - 1);
    }
  }

  lemma BitAt(a: Address, k: nat, i: nat)
    requires k < 16 && i < 8
    ensures Bit(a, 8 * k + i) == OctetBit(a[k], i)
  {
    assert (8 * k + i) / 8 == k && (8 * k + i) % 8 == i;
  }

  lemma OctetInNetwork(a: Address, b: Address, prefix: nat, k: nat)
    requires prefix <= 128 && SameNetwork(a, b, prefix) && 8 * k + 8 <= prefix
    ensures a[k] == b[k]
  {
    hide OctetBit, Bit;
    forall i | 0 <= i < 8 ensures OctetBit(a[k], i) == OctetBit(b[k], i) {
      BitAt(a, k, i);
      BitAt(b, k, i);
      assert Bit(a, 8 * k + i) == Bit(b, 8 * k + i);
    }
    OctetsOfBits(a[k], b[k]);
  }

  lemma NetworkOfOctets(a: Address, b: Address, prefix: nat)
    requires prefix <= 128 && a[..prefix / 8] == b[..prefix / 8]
    requires prefix % 8 == 0 || MaskedEqual(a[prefix / 8], b[prefix / 8], prefix % 8)
    ensures SameNetwork(a, b, prefix)
  {
    hide OctetBit, MaskedEqual;
    var q, r := prefix / 8, prefix % 8;
    if r > 0 {
      MaskIsLeadingBits(a[q], b[q], r);
    }
    forall i | 0 <= i < prefix ensures Bit(a, i) == Bit(b, i) {
      if i / 8 < q {
        assert a[..q][i / 8] == b[..q][i / 8];
      }
    }
  }

  lemma OctetsOfNetwork(a: Address, b: Address, prefix: nat)
    requires prefix <= 128 && SameNetwork(a, b, prefix)
    ensures a[..prefix / 8] == b[..prefix / 8]
    ensures prefix % 8 == 0 || MaskedEqual(a[prefix / 8], b[prefix / 8], prefix % 8)
  {
    hide OctetBit, MaskedEqual, Bit;
    var q, r := prefix / 8, prefix % 8;
    forall k | 0 <= k < q ensures a[k] == b[k] {
      OctetInNetwork(a, b, prefix, k);
    }
    if r > 0 {
      forall i | 0 <= i < r ensures OctetBit(a[q], i) == OctetBit(b[q], i) {
        BitAt(a, q, i);
        BitAt(b, q, i);
        assert Bit(a, 8 * q + i) == Bit(b, 8 * q + i);
      }
      MaskIsLeadingBits(a[q], b[q], r);
    }
  }

  /** The octet compare and the mask decide exactly whether the networks agree. */
  lemma PassIffSameNetwork(rule: Rule, family: nat, address: Address)
    requires rule.family in {4, 6} && rule.prefix <= Width(rule.family)
    ensures AddressPasses(rule, family, address) <==> rule.family == family && SameNetwork(rule.address, address, rule.prefix)
  {
    hide SameNetwork, MaskedEqual;
    if SameNetwork(rule.address, address, rule.prefix) {
      OctetsOfNetwork(rule.address, address, rule.prefix);
    }
    if AddressPasses(rule, family, address) {
      NetworkOfOctets(rule.address, address, rule.prefix);
    }
  }

  // ----- Reading addresses -----

  type Quad = q: seq<bv8> | |q| == 4 witness seq(4, _ => 0)

  /** What inet_pton makes of a text. */
  datatype Ip = V4(quad: Quad) | V6(address: Address)

  const MAPPED: seq<bv8> := [0, 0, 0, 0, 0, 0, 0, 0, 0, 0, 0xff, 0xff]

  predicate Mapped(a: Address) {
    a[..12] == MAPPED
  }

  /** Every address as an IPv6 one; an IPv4 address is its mapped form (RFC 4291, section 2.5.5.2). */
  function Wide(ip: Ip): (a: Address)
  {
    match ip
    case V4(quad) => MAPPED + quad
    case V6(address) => address
  }

  function FamilyOf(ip: Ip): nat {
    if ip.V4? then 4 else 6
  }

  /** What a stored family and address stand for. */
  function Stored(family: nat, address: Address): Ip {
    if family == 4 then V4(address[..4]) else V6(address)
  }

  function WidePrefix(family: nat, prefix: nat): nat {
    if family == 4 then prefix + 96 else prefix
  }

  predicate Digits(d: Text) {
    forall i :: 0 <= i < |d| ==> '0' as int <= d[i] <= '9' as int
  }

  function DecVal(d: Text): nat
    requires Digits(d)
  {
    if d == [] then 0 else DecVal(d[..|d| - 1]) * 10 + (d[|d| - 1] - '0' as int)
  }

  lemma {:induction false} DecValGrows(d: Text, i: nat)
    requires Digits(d) && i <= |d|
    ensures DecVal(d[..i]) <= DecVal(d)
    decreases |d|
  {
    if i < |d| {
      DecValGrows(d[..|d| - 1], i);
      assert d[..|d| - 1][..i] == d[..i];
    } else {
      assert d[..i] == d;
    }
  }

  method ParseDigits(d: Text) returns (ok: bool, v: nat)
    ensures ok ==> d != [] && Digits(d) && v == DecVal(d)
    ensures !ok ==> d == [] || !Digits(d) || DecVal(d) > 128
  {
    v := 0;
    if d == [] {
      return false, v;
    }
    for i := 0 to |d|
      invariant Digits(d[..i]) && v == DecVal(d[..i])
    {
      if d[i] < '0' as int || d[i] > '9' as int || v > 128 {
        if Digits(d) {
          DecValGrows(d, i);
        }
        return false, v;
      }
      assert d[..i + 1][..i] == d[..i];
      v := v * 10 + (d[i] - '0' as int);
    }
    assert d[..|d|] == d;
    ok := true;
  }

  function Slash(text: Text): (k: nat)
    ensures k <= |text| && (forall i :: 0 <= i < k ==> text[i] != '/' as int) && (k < |text| ==> text[k] == '/' as int)
  {
    if text == [] || text[0] == '/' as int then 0 else 1 + Slash(text[1..])
  }

  function AllText(): Text { [97, 108, 108] }

  function StarText(): Text { [42] }

  datatype Network = Everywhere | Net(ip: Ip, prefix: nat)

  /** The network a text names, before any normalisation. */
  function NetworkOf(text: Text, pton: Text -> Option<Ip>): Option<Network> {
    if text == AllText() || text == StarText() then Some(Everywhere)
    else
      var k := Slash(text);
      var ip := pton(text[..k]);
      if |text| >= 64 || ip.None? then None
      else if k == |text| then Some(Net(ip.value, Width(FamilyOf(ip.value))))
      else
        var d := text[k + 1..];
        if d == [] || !Digits(d) || DecVal(d) > Width(FamilyOf(ip.value)) then None
        else Some(Net(ip.value, DecVal(d)))
  }

  /** Address octets are rewritten in place; a mapped IPv6 network of at least 96 bits becomes the IPv4 one. */
  method NetworkParse(text: Text, pton: Text -> Option<Ip>, address: array<bv8>) returns (ok: bool, family: nat, prefix: nat)
    requires address.Length == 16
    modifies address
    ensures ok <==> NetworkOf(text, pton).Some?
    ensures ok && NetworkOf(text, pton).value.Everywhere? ==> family == 0
    ensures ok && NetworkOf(text, pton).value.Net? ==> RuleNormal(NetworkOf(text, pton).value, family, prefix, address[..])
  {
    family, prefix := 0, 0;
    if text == AllText() || text == StarText() {
      return true, 0, 0;
    }
    if |text| >= 64 {
      return false, 0, 0;
    }
    hide Digits, DecVal, Slash, RuleNormal;
    var slash := FindSlash(text);
    var given := None;
    if slash < |text| {
      var good, v := ParseDigits(text[slash + 1..]);
      if !good {
        return false, 0, 0;
      }
      given := Some(v);
    }
    var ip := pton(text[..slash]);
    if ip.None? {
      return false, 0, 0;
    }
    ok, family, prefix := StoreNetwork(ip.value, given, address);
  }

  method FindSlash(text: Text) returns (slash: nat)
    ensures slash == Slash(text)
  {
    slash := 0;
    while slash < |text| && text[slash] != '/' as int
      invariant slash <= |text| && Slash(text) == slash + Slash(text[slash..])
    {
      assert text[slash..][1..] == text[slash + 1..];
      slash := slash + 1;
    }
  }

  method StoreNetwork(ip: Ip, given: Option<nat>, address: array<bv8>) returns (ok: bool, family: nat, prefix: nat)
    requires address.Length == 16
    modifies address
    ensures ok <==> given.None? || given.value <= Width(FamilyOf(ip))
    ensures ok ==> RuleNormal(Net(ip, if given.Some? then given.value else Width(FamilyOf(ip))), family, prefix, address[..])
  {
    hide Mapped, Wide;
    family := Put(ip, address);
    var bits := Width(family);
    prefix := if given.Some? then given.value else bits;
    if prefix > bits {
      return false, family, prefix;
    }
    AsStored(ip);
    if family == 6 && Mapped(address[..]) && prefix >= 96 {
      Narrow(address);
      family, prefix := 4, prefix - 96;
    }
    ok := true;
  }

  lemma AsStored(ip: Ip)
    ensures ip.V4? ==> Mapped(Wide(ip))
    ensures ip.V6? ==> Wide(ip) == ip.address
  {
  }

  /** Store a parsed address; the octets past an IPv4 address are zero. */
  method Put(ip: Ip, address: array<bv8>) returns (family: nat)
    requires address.Length == 16
    modifies address
    ensures family == FamilyOf(ip) && Stored(family, address[..]) == ip
  {
    match ip
    case V4(quad) =>
      forall i | 0 <= i < 16 {
        address[i] := if i < 4 then quad[i] else 0;
      }
      assert address[..4] == quad;
      family := 4;
    case V6(a) =>
      forall i | 0 <= i < 16 {
        address[i] := a[i];
      }
      assert address[..] == a;
      family := 6;
  }

  method Narrow(address: array<bv8>)
    requires address.Length == 16 && Mapped(address[..])
    modifies address
    ensures Wide(Stored(4, address[..])) == old(address[..])
  {
    forall i | 0 <= i < 4 {
      address[i] := address[12 + i];
    }
    assert address[..4] == old(address[12..]);
    assert old(address[..]) == old(address[..12]) + old(address[12..]);
  }

  /** The stored rule is the same 128-bit network, and is IPv4 exactly when all of that network is mapped. */
  predicate RuleNormal(net: Network, family: nat, prefix: nat, address: Address)
    requires net.Net?
  {
    && family in {4, 6} && prefix <= Width(family)
    && Wide(Stored(family, address)) == Wide(net.ip)
    && WidePrefix(family, prefix) == WidePrefix(FamilyOf(net.ip), net.prefix)
    && (family == 4 <==> Mapped(Wide(net.ip)) && WidePrefix(family, prefix) >= 96)
  }

  predicate SubjectNormal(ip: Ip, family: nat, address: Address) {
    && family in {4, 6}
    && Wide(Stored(family, address)) == Wide(ip)
    && (family == 4 <==> Mapped(Wide(ip)))
  }

  method SubjectInit(text: Option<Text>, pton: Text -> Option<Ip>, address: array<bv8>) returns (ok: bool, family: nat)
    requires address.Length == 16
    modifies address
    ensures ok <==> text.None? || pton(text.value).Some?
    ensures text.None? ==> family == 0
    ensures ok && text.Some? ==> SubjectNormal(pton(text.value).value, family, address[..])
  {
    if text.None? {
      return true, 0;
    }
    var ip := pton(text.value);
    if ip.None? {
      return false, 0;
    }
    family := Put(ip.value, address);
    if family == 6 && Mapped(address[..]) {
      Narrow(address);
      family := 4;
    }
    ok := true;
  }

  // ----- Normalising keeps the match -----

  /** Wide addresses shift an IPv4 bit by 96. */
  lemma WideBit(a: Address, i: nat)
    requires i < 32
    ensures Bit(Wide(Stored(4, a)), 96 + i) == Bit(a, i)
  {
  }

  lemma MappedBits(a: Address, b: Address, prefix: nat)
    requires 96 <= prefix <= 128 && SameNetwork(a, b, prefix) && Mapped(a)
    ensures Mapped(b)
  {
    forall k | 0 <= k < 12 ensures a[k] == b[k] {
      OctetInNetwork(a, b, prefix, k);
    }
    assert a[..12] == b[..12];
  }

  lemma SameNetworkWide(a: Address, b: Address, prefix: nat)
    requires prefix <= 32
    ensures SameNetwork(Wide(Stored(4, a)), Wide(Stored(4, b)), prefix + 96) <==> SameNetwork(a, b, prefix)
  {
    var wa, wb := Wide(Stored(4, a)), Wide(Stored(4, b));
    if SameNetwork(wa, wb, prefix + 96) {
      forall i | 0 <= i < prefix ensures Bit(a, i) == Bit(b, i) {
        WideBit(a, i);
        WideBit(b, i);
        assert Bit(wa, 96 + i) == Bit(wb, 96 + i);
      }
    }
    if SameNetwork(a, b, prefix) {
      forall i | 0 <= i < prefix + 96 ensures Bit(wa, i) == Bit(wb, i) {
        if i >= 96 {
          WideBit(a, i - 96);
          WideBit(b, i - 96);
          assert Bit(a, i - 96) == Bit(b, i - 96);
        } else {
          assert wa[i / 8] == MAPPED[i / 8] == wb[i / 8];
        }
      }
    }
  }

  /**
   The stored forms match exactly when the 128-bit networks do; the one exception
   is an IPv6 network shorter than 96 bits, which never holds an IPv4 subject.
   */
  lemma NormalisingKeepsMatch(net: Network, rule: Rule, ip: Ip, family: nat, address: Address)
    requires net.Net? && net.prefix <= Width(FamilyOf(net.ip))
    requires RuleNormal(net, rule.family, rule.prefix, rule.address)
    requires SubjectNormal(ip, family, address)
    ensures AddressPasses(rule, family, address)
            <==> SameNetwork(Wide(net.ip), Wide(ip), WidePrefix(FamilyOf(net.ip), net.prefix))
                 && (WidePrefix(FamilyOf(net.ip), net.prefix) >= 96 || !Mapped(Wide(ip)))
  {
    hide Bit, Mapped, AddressPasses, Wide;
    var p := WidePrefix(rule.family, rule.prefix);
    var w, x := Wide(net.ip), Wide(ip);
    PassIffSameNetwork(rule, family, address);
    if rule.family == 4 && family == 4 {
      SameNetworkWide(rule.address, address, rule.prefix);
    } else if rule.family == 6 && family == 6 {
      StoredSix(rule.address);
      StoredSix(address);
    } else if p >= 96 && SameNetwork(w, x, p) {
      SameNetworkSymmetric(w, x, p);
      if Mapped(w) {
        MappedBits(w, x, p);
      } else if Mapped(x) {
        MappedBits(x, w, p);
      }
    }
  }

  lemma StoredSix(a: Address)
    ensures Wide(Stored(6, a)) == a
  {
  }

  lemma SameNetworkSymmetric(a: Address, b: Address, prefix: nat)
    requires prefix <= 128 && SameNetwork(a, b, prefix)
    ensures SameNetwork(b, a, prefix)
  {
  }

  /** The exception is real: the network of all IPv6 addresses holds every mapped address by its bits, and matches no IPv4 subject. */
  lemma AllOfIpv6MissesIpv4(quad: Quad)
    ensures var any := V6(seq(16, _ => 0));
            && SameNetwork(Wide(any), Wide(V4(quad)), 0)
            && RuleNormal(Net(any, 0), 6, 0, any.address)
            && forall rule: Rule, address :: rule.family == 6 && rule.prefix == 0 && SubjectNormal(V4(quad), 4, address)
                                             ==> !AddressPasses(rule, 4, address)
  {
    assert Wide(V6(seq(16, _ => 0)))[..12][11] == 0;
  }

  /** What normalisation stores, case by case (RFC 4291, section 2.5.5.2). */
  lemma StoredRuleIs(ip: Ip, p: nat, family: nat, prefix: nat, address: Address)
    requires p <= if ip.V4? then 32 else 128
    ensures RuleNormal(Net(ip, p), family, prefix, address)
            <==> match ip
                 case V4(quad) => family == 4 && prefix == p && address[..4] == quad
                 case V6(a) =>
                   if p >= 96 && MappedForm(a) then family == 4 && prefix == p - 96 && address[..4] == a[12..]
                   else family == 6 && prefix == p && address == a
  {
    hide Bit;
    MappedIffForm(Wide(ip));
    MappedIffForm(Wide(Stored(family, address)));
    match ip {
      case V4(quad) => WideParts(quad, address);
      case V6(a) => if Mapped(a) { WideOfMapped(a, address); }
    }
  }

  lemma StoredSubjectIs(ip: Ip, family: nat, address: Address)
    ensures SubjectNormal(ip, family, address)
            <==> match ip
                 case V4(quad) => family == 4 && address[..4] == quad
                 case V6(a) => if MappedForm(a) then family == 4 && address[..4] == a[12..] else family == 6 && address == a
  {
    hide Bit;
    MappedIffForm(Wide(ip));
    MappedIffForm(Wide(Stored(family, address)));
    match ip {
      case V4(quad) => WideParts(quad, address);
      case V6(a) => if Mapped(a) { WideOfMapped(a, address); }
    }
  }

  lemma WideParts(quad: Quad, address: Address)
    ensures Wide(V4(quad))[12..] == quad && Wide(V4(address[..4]))[12..] == address[..4]
    ensures Mapped(Wide(V4(quad)))
  {
  }

  lemma WideOfMapped(a: Address, address: Address)
    requires Mapped(a)
    ensures Wide(V4(address[..4])) == a <==> address[..4] == a[12..]
  {
    assert a == a[..12] + a[12..];
    assert Wide(V4(address[..4]))[12..] == address[..4];
  }

  /** Eighty zero bits and sixteen ones. */
  ghost predicate MappedForm(a: Address) {
    (forall i :: 0 <= i < 80 ==> !Bit(a, i)) && (forall i :: 80 <= i < 96 ==> Bit(a, i))
  }

  lemma OctetIsZero(a: bv8)
    ensures a == 0 <==> forall i :: 0 <= i < 8 ==> !OctetBit(a, i)
  {
    if forall i :: 0 <= i < 8 ==> !OctetBit(a, i) {
      OctetsOfBits(a, 0);
    }
  }

  lemma OctetIsOnes(a: bv8)
    ensures a == 0xff <==> forall i :: 0 <= i < 8 ==> OctetBit(a, i)
  {
    if forall i :: 0 <= i < 8 ==> OctetBit(a, i) {
      OctetsOfBits(a, 0xff);
    }
  }

  lemma MappedIffForm(a: Address)
    ensures Mapped(a) <==> MappedForm(a)
  {
    hide OctetBit;
    forall k | 0 <= k < 10 ensures a[k] == 0 <==> forall i :: 8 * k <= i < 8 * k + 8 ==> !Bit(a, i) {
      OctetIsZero(a[k]);
      BitsOfOctet(a, k);
    }
    forall k | 10 <= k < 12 ensures a[k] == 0xff <==> forall i :: 8 * k <= i < 8 * k + 8 ==> Bit(a, i) {
      OctetIsOnes(a[k]);
      BitsOfOctet(a, k);
    }
    MappedOctets(a);
    if MappedForm(a) {
      assert forall k :: 0 <= k < 10 ==> a[k] == 0;
      assert forall k :: 10 <= k < 12 ==> a[k] == 0xff;
    }
    if Mapped(a) {
      forall i | 0 <= i < 80 ensures !Bit(a, i) {
        assert a[i / 8] == 0;
      }
      forall i | 80 <= i < 96 ensures Bit(a, i) {
        assert a[i / 8] == 0xff;
      }
    }
  }

  lemma BitsOfOctet(a: Address, k: nat)
    requires k < 16
    ensures forall i :: 0 <= i < 8 ==> Bit(a, 8 * k + i) == OctetBit(a[k], i)
    ensures forall i :: 8 * k <= i < 8 * k + 8 ==> Bit(a, i) == OctetBit(a[k], i - 8 * k)
  {
    hide OctetBit;
    forall i | 8 * k <= i < 8 * k + 8 ensures Bit(a, i) == OctetBit(a[k], i - 8 * k) {
      assert i / 8 == k && i % 8 == i - 8 * k;
    }
    forall i | 0 <= i < 8 ensures Bit(a, 8 * k + i) == OctetBit(a[k], i) {
      assert (8 * k + i) / 8 == k && (8 * k + i) % 8 == i;
    }
  }

  lemma MappedOctets(a: Address)
    ensures Mapped(a) <==> (forall k :: 0 <= k < 10 ==> a[k] == 0) && (forall k :: 10 <= k < 12 ==> a[k] == 0xff)
  {
    if Mapped(a) {
      assert forall k :: 0 <= k < 12 ==> a[k] == a[..12][k];
    }
  }

  // ----- Texts of networks -----

  function Pow10(n: nat): nat {
    if n == 0 then 1 else 10 * Pow10(n - 1)
  }

  /** A row of digits by their places. */
  ghost function PlaceValue(d: Text): int {
    if d == [] then 0 else (d[0] as int - 48) * Pow10(|d| - 1) + PlaceValue(d[1..])
  }

  lemma {:induction false} DecValIsPlaceValue(d: Text)
    requires Digits(d)
    ensures DecVal(d) == PlaceValue(d)
    decreases |d|
  {
    if d != [] {
      var n := |d| - 1;
      DecValIsPlaceValue(d[..n]);
      PlaceValueSnoc(d[..n], d[n]);
      assert d[..n] + [d[n]] == d;
    }
  }

  lemma {:induction false} PlaceValueSnoc(d: Text, c: Byte)
    ensures PlaceValue(d + [c]) == 10 * PlaceValue(d) + (c as int - 48)
    decreases |d|
  {
    var e := d + [c];
    if d == [] {
      assert e == [c] && e[1..] == [];
    } else {
      PlaceValueSnoc(d[1..], c);
      assert e[1..] == d[1..] + [c];
      TimesTen(d[0] as int - 48, Pow10(|d| - 1));
      assert Pow10(|e| - 1) == 10 * Pow10(|d| - 1);
    }
  }

  lemma TimesTen(a: int, b: int)
    ensures a * (10 * b) == 10 * (a * b)
  {
  }

  /** A text for every address. */
  predicate NamesAll(text: Text) {
    text == ['a' as int, 'l' as int, 'l' as int] || text == ['*' as int]
  }

  /** An address of at most 63 bytes with what follows it, either alone for that one address or before a slash and a decimal prefix length that fits. */
  ghost predicate NamesNetwork(text: Text, pton: Text -> Option<Ip>, ip: Ip, prefix: nat) {
    var width := if ip.V4? then 32 else 128;
    && |text| <= 63 && !NamesAll(text)
    && (|| ('/' as int !in text && pton(text) == Some(ip) && prefix == width)
        || (exists host: Text, d: Text :: IsSplit(text, host, d) && pton(host) == Some(ip)
                                          && d != [] && (forall i :: 0 <= i < |d| ==> 48 <= d[i] <= 57) && PlaceValue(d) == prefix <= width))
  }

  /** At the first slash. */
  ghost predicate IsSplit(text: Text, host: Text, d: Text) {
    text == host + (['/' as int] + d) && '/' as int !in host
  }

  lemma SlashSplits(text: Text)
    ensures Slash(text) == |text| <==> '/' as int !in text
    ensures Slash(text) < |text| ==> IsSplit(text, text[..Slash(text)], text[Slash(text) + 1..])
  {
    hide Slash, IsSplit;
    var k := Slash(text);
    if k < |text| {
      CutAtSlash(text, k);
    }
  }

  lemma CutAtSlash(text: Text, k: nat)
    requires k < |text| && text[k] == '/' as int && forall i :: 0 <= i < k ==> text[i] != '/' as int
    ensures IsSplit(text, text[..k], text[k + 1..])
  {
    CutAt(text, k);
    NotBefore(text, k);
  }

  lemma NotBefore(text: Text, k: nat)
    requires k < |text| && forall i :: 0 <= i < k ==> text[i] != '/' as int
    ensures '/' as int !in text[..k]
  {
  }

  lemma CutAt(s: Text, k: nat)
    requires k < |s|
    ensures s == s[..k] + ([s[k]] + s[k + 1..])
  {
  }

  lemma SplitAtSlash(text: Text, host: Text, d: Text)
    requires IsSplit(text, host, d)
    ensures Slash(text) == |host| < |text| && host == text[..|host|] && d == text[|host| + 1..]
  {
    hide Slash;
    var k := Slash(text);
    assert text[|host|] == '/' as int;
    assert text[|host| + 1..] == d;
    assert forall i :: 0 <= i < |host| ==> text[i] == host[i];
  }

  /** The texts that are accepted, and the network each names. */
  lemma NetworkIff(text: Text, pton: Text -> Option<Ip>, ip: Ip, prefix: nat)
    ensures NetworkOf(text, pton) == Some(Everywhere) <==> NamesAll(text)
    ensures NetworkOf(text, pton) == Some(Net(ip, prefix)) <==> NamesNetwork(text, pton, ip, prefix)
  {
    hide Slash, IsSplit;
    SlashSplits(text);
    var k := Slash(text);
    if k < |text| {
      var d := text[k + 1..];
      if Digits(d) {
        DecValIsPlaceValue(d);
      }
      forall host: Text, e: Text | IsSplit(text, host, e) ensures host == text[..k] && e == d {
        SplitAtSlash(text, host, e);
      }
    } else {
      assert text[..k] == text;
      forall host: Text, e: Text ensures !IsSplit(text, host, e) {
        if IsSplit(text, host, e) {
          SplitAtSlash(text, host, e);
        }
      }
    }
  }

  // ----- Rules -----

  predicate SameText(a: Text, b: Text, ignoreCase: bool) {
    if ignoreCase then SameIgnoringCase(a, b) else a == b
  }

  predicate PrincipalPasses(rule: Rule, s: Subject)
    requires s.user.Some?
  {
    match rule.kind
    case Any => true
    case User => SameText(rule.principal, s.user.value, s.ignoreCase)
    case Group => s.inGroup.Some? && s.inGroup.value(rule.principal)
  }

  function RuleMatch(rule: Rule, s: Subject): Verdict {
    if rule.family != 0 && s.family != 0 && !AddressPasses(rule, s.family, s.address) then NoMatch
    else if rule.kind != Any && s.user.None? then Defer
    else if rule.kind != Any && !PrincipalPasses(rule, s) then NoMatch
    else if rule.family != 0 && s.family == 0 then Defer
    else if rule.allow then Allow else Deny
  }

  /** The answer of a list: that of its first rule that says anything. */
  function Decide(rules: seq<Rule>, s: Subject): Verdict {
    if rules == [] then Deny
    else if RuleMatch(rules[0], s) != NoMatch then RuleMatch(rules[0], s)
    else Decide(rules[1..], s)
  }

  // ----- What a rule covers -----

  predicate Known(s: Subject) {
    s.family != 0 && s.user.Some?
  }

  /** The rule names no network, or a proper one that the subject's address is in. */
  predicate CoversAddress(rule: Rule, s: Subject) {
    || rule.family == 0
    || (rule.family == 4 && rule.prefix <= 32 && s.family == 4 && SameNetwork(rule.address, s.address, rule.prefix))
    || (rule.family == 6 && rule.prefix <= 128 && s.family == 6 && SameNetwork(rule.address, s.address, rule.prefix))
  }

  /** The rule is for everybody, for this user or for a group of this user. */
  predicate CoversIdentity(rule: Rule, s: Subject)
    requires s.user.Some?
  {
    || rule.kind == Any
    || (rule.kind == User && rule.principal == s.user.value)
    || (rule.kind == User && s.ignoreCase && |rule.principal| == |s.user.value|
        && forall i :: 0 <= i < |rule.principal| ==> OneLetter(rule.principal[i], s.user.value[i]))
    || (rule.kind == Group && s.inGroup.Some? && s.inGroup.value(rule.principal))
  }

  predicate Covers(rule: Rule, s: Subject)
    requires Known(s)
  {
    CoversAddress(rule, s) && CoversIdentity(rule, s)
  }

  /** Rule `i` covers the subject and no earlier one does. */
  predicate FirstCovering(rules: seq<Rule>, s: Subject, i: nat)
    requires Known(s) && i < |rules|
  {
    Covers(rules[i], s) && forall j :: 0 <= j < i ==> !Covers(rules[j], s)
  }

  lemma AddressPassesIff(rule: Rule, s: Subject)
    requires s.family != 0
    ensures CoversAddress(rule, s) <==> rule.family == 0 || AddressPasses(rule, s.family, s.address)
  {
    hide SameNetwork, MaskedEqual;
    if rule.family in {4, 6} && rule.prefix <= Width(rule.family) {
      PassIffSameNetwork(rule, s.family, s.address);
    }
  }

  lemma PrincipalPassesIff(rule: Rule, s: Subject)
    requires s.user.Some?
    ensures CoversIdentity(rule, s) <==> PrincipalPasses(rule, s)
  {
    hide OneLetter, SameIgnoringCase;
    SameIgnoringCaseIff(rule.principal, s.user.value);
    SameTextOfEqual(rule.principal);
  }

  lemma SameTextOfEqual(a: Text)
    ensures SameIgnoringCase(a, a)
  {
  }

  lemma EverybodyIsCovered(rule: Rule, s: Subject)
    requires s.user.Some?
    ensures rule.kind == Any ==> CoversIdentity(rule, s)
  {
  }

  /** For a known subject a rule speaks exactly when it covers it, and then says what it was written to say. */
  lemma MatchIffCovers(rule: Rule, s: Subject)
    requires Known(s)
    ensures RuleMatch(rule, s) == if Covers(rule, s) then if rule.allow then Allow else Deny else NoMatch
  {
    hide AddressPasses, PrincipalPasses, CoversAddress, CoversIdentity;
    AddressPassesIff(rule, s);
    PrincipalPassesIff(rule, s);
    EverybodyIsCovered(rule, s);
  }

  /** A known subject is let in exactly when the first rule that covers it allows, and is kept out otherwise. */
  lemma {:induction false} AllowedIff(rules: seq<Rule>, s: Subject)
    requires Known(s)
    ensures Decide(rules, s) == Allow <==> exists i :: 0 <= i < |rules| && FirstCovering(rules, s, i) && rules[i].allow
    ensures Decide(rules, s) in {Allow, Deny}
  {
    hide Covers, RuleMatch;
    if rules != [] {
      MatchIffCovers(rules[0], s);
      if Covers(rules[0], s) {
        assert FirstCovering(rules, s, 0);
      } else {
        AllowedIff(rules[1..], s);
        forall i | 0 <= i < |rules[1..]| ensures FirstCovering(rules[1..], s, i) <==> FirstCovering(rules, s, i + 1) {
          CoveringShifts(rules, s, i);
        }
        assert forall i :: 0 < i < |rules| ==> rules[i] == rules[1..][i - 1];
      }
    }
  }

  lemma CoveringShifts(rules: seq<Rule>, s: Subject, i: nat)
    requires Known(s) && i + 1 < |rules| && !Covers(rules[0], s)
    ensures FirstCovering(rules[1..], s, i) <==> FirstCovering(rules, s, i + 1)
  {
    hide Covers;
    assert forall j :: 0 <= j < i ==> rules[1..][j] == rules[j + 1];
    if FirstCovering(rules[1..], s, i) {
      forall j | 0 <= j < i + 1 ensures !Covers(rules[j], s) {
        assert j > 0 ==> rules[j] == rules[1..][j - 1];
      }
    }
  }

  method Check(rules: Option<seq<Rule>>, subject: Option<Subject>) returns (v: Verdict)
    ensures rules.None? || subject.None? ==> v == Deny
    ensures rules.Some? && subject.Some? ==> v == Decide(rules.value, subject.value)
    ensures rules.Some? && subject.Some? && Known(subject.value) ==>
              (v == Allow <==> exists i :: 0 <= i < |rules.value| && FirstCovering(rules.value, subject.value, i) && rules.value[i].allow)
  {
    hide RuleMatch, FirstCovering;
    if rules.None? || subject.None? {
      return Deny;
    }
    var rs := rules.value;
    if Known(subject.value) {
      AllowedIff(rs, subject.value);
    }
    for i := 0 to |rs|
      invariant Decide(rs, subject.value) == Decide(rs[i..], subject.value)
    {
      var result := RuleMatch(rs[i], subject.value);
      if result != NoMatch {
        return result;
      }
      assert rs[i..][1..] == rs[i + 1..];
    }
    v := Deny;
  }

  // ----- Learning more about a subject -----

  /** `t` is `s` with an unknown address, an unknown identity or both made known. */
  ghost predicate Learned(s: Subject, t: Subject) {
    && (s.family != 0 ==> t.family == s.family && t.address == s.address)
    && (s.user.Some? ==> t.user == s.user && SameGroups(s, t))
    && t.ignoreCase == s.ignoreCase
  }

  ghost predicate SameGroups(s: Subject, t: Subject) {
    && (s.inGroup.Some? <==> t.inGroup.Some?)
    && (s.inGroup.Some? ==> forall g: Text :: s.inGroup.value(g) == t.inGroup.value(g))
  }

  lemma RuleAnswerIsFinal(rule: Rule, s: Subject, t: Subject)
    requires Learned(s, t) && RuleMatch(rule, s) != Defer
    ensures RuleMatch(rule, t) == RuleMatch(rule, s)
  {
  }

  /** An answer that is not deferred never changes, whatever becomes known later. */
  lemma {:induction false} AnswerIsFinal(rules: seq<Rule>, s: Subject, t: Subject)
    requires Learned(s, t) && Decide(rules, s) != Defer
    ensures Decide(rules, t) == Decide(rules, s)
  {
    if rules != [] {
      RuleAnswerIsFinal(rules[0], s, t);
      if RuleMatch(rules[0], s) == NoMatch {
        AnswerIsFinal(rules[1..], s, t);
      }
    }
  }

  lemma {:induction false} KnownNeverDefers(rules: seq<Rule>, s: Subject)
    requires Known(s)
    ensures Decide(rules, s) in {Allow, Deny}
  {
    if rules != [] {
      KnownNeverDefers(rules[1..], s);
    }
  }

  /** What the parser produces: a known family and a prefix that fits. */
  predicate Sound(rule: Rule) {
    rule.family in {0, 4, 6} && rule.prefix <= Width(rule.family)
  }

  /** A completion of `s` that the rule covers, as long as nothing known speaks against it. */
  function Matching(rule: Rule, s: Subject): Subject {
    var family := if s.family != 0 then s.family else if rule.family != 0 then rule.family else 4;
    var address := if s.family != 0 then s.address else rule.address;
    var user := if s.user.Some? then s.user else Some(rule.principal);
    var inGroup := if s.user.Some? then s.inGroup else Some((g: Text) => true);
    Subject(address, family, user, inGroup, s.ignoreCase)
  }

  /** A completion that the rule does not cover. */
  function Missing(rule: Rule, s: Subject): Subject {
    var family := if s.family != 0 then s.family else if rule.family == 4 then 6 else 4;
    var user := if s.user.Some? then s.user else Some(rule.principal + [1]);
    var inGroup := if s.user.Some? then s.inGroup else None;
    Subject(s.address, family, user, inGroup, s.ignoreCase)
  }

  ghost predicate CanMatch(rule: Rule, s: Subject) {
    exists t :: Learned(s, t) && Known(t) && Covers(rule, t)
  }

  ghost predicate CanMiss(rule: Rule, s: Subject) {
    exists t :: Learned(s, t) && Known(t) && !Covers(rule, t)
  }

  /** A rule defers exactly when what is still unknown can go either way. */
  lemma DeferIsExact(rule: Rule, s: Subject)
    requires Sound(rule)
    ensures RuleMatch(rule, s) == Defer <==> CanMatch(rule, s) && CanMiss(rule, s)
    ensures RuleMatch(rule, s) == NoMatch <==> !CanMatch(rule, s)
  {
    var yes, no := Matching(rule, s), Missing(rule, s);
    assert Learned(s, yes) && Known(yes) && Learned(s, no) && Known(no);
    MatchIffCovers(rule, yes);
    MatchIffCovers(rule, no);
    if RuleMatch(rule, s) == Defer {
      assert RuleMatch(rule, yes) != NoMatch;
      assert RuleMatch(rule, no) == NoMatch;
    } else {
      forall t | Learned(s, t) && Known(t) ensures RuleMatch(rule, t) == RuleMatch(rule, s) && (Covers(rule, t) <==> RuleMatch(rule, t) != NoMatch) {
        RuleAnswerIsFinal(rule, s, t);
        MatchIffCovers(rule, t);
      }
    }
  }

  /** Rule `i` can still go either way and no earlier rule can match. */
  ghost predicate OpenAt(rules: seq<Rule>, s: Subject, i: nat)
    requires i < |rules|
  {
    CanMatch(rules[i], s) && CanMiss(rules[i], s) && forall j :: 0 <= j < i ==> !CanMatch(rules[j], s)
  }

  /** A list defers exactly when a rule that can still go either way comes before every rule that is sure to match. */
  lemma {:induction false} ListDefersIff(rules: seq<Rule>, s: Subject)
    requires forall i :: 0 <= i < |rules| ==> Sound(rules[i])
    ensures Decide(rules, s) == Defer <==> exists i :: 0 <= i < |rules| && OpenAt(rules, s, i)
  {
    hide CanMatch, CanMiss, RuleMatch;
    if rules != [] {
      DeferIsExact(rules[0], s);
      ListDefersIff(rules[1..], s);
      OpenShifts(rules, s);
      if RuleMatch(rules[0], s) == Defer {
        assert OpenAt(rules, s, 0);
      }
    }
  }

  lemma OpenShifts(rules: seq<Rule>, s: Subject)
    requires rules != []
    ensures (exists i :: 0 <= i < |rules| && OpenAt(rules, s, i))
            <==> OpenAt(rules, s, 0) || (!CanMatch(rules[0], s) && exists i :: 0 <= i < |rules[1..]| && OpenAt(rules[1..], s, i))
  {
    hide CanMatch, CanMiss;
    if i :| 0 < i < |rules| && OpenAt(rules, s, i) {
      assert forall j :: 0 <= j < i - 1 ==> rules[1..][j] == rules[j + 1];
      assert OpenAt(rules[1..], s, i - 1);
    }
    if !CanMatch(rules[0], s) && exists i :: 0 <= i < |rules[1..]| && OpenAt(rules[1..], s, i) {
      var i :| 0 <= i < |rules[1..]| && OpenAt(rules[1..], s, i);
      forall j | 0 <= j < i + 1 ensures !CanMatch(rules[j], s) {
        assert j > 0 ==> rules[j] == rules[1..][j - 1];
      }
      assert OpenAt(rules, s, i + 1);
    }
  }
}
