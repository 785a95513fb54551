/** The ping utility's packets: ARP requests and replies (RFC 826), the loop that resolves the
    target's hardware address, and the ICMP echo request with its two checksums. */
module Ping {
  import opened Ascii
  import opened Arithmetic
  import opened Wrappers
  import Checksum
  import Texts

  const ETHERTYPE_ARP: nat := 0x0806
  const ETHERTYPE_IPV4: nat := 0x0800
  const ARP_HTYPE_ETHERNET: nat := 1
  const ARP_PTYPE_IPV4: nat := 0x0800
  const ARP_OPER_REQUEST: nat := 1
  const ARP_OPER_REPLY: nat := 2
  const ARP_FRAME: nat := 42
  const ATTEMPTS: nat := 400

  type half = v: int | 0 <= v < 0x1_0000
  type address = v: int | 0 <= v < 0x1_0000_0000
  type mac = m: seq<byte> | |m| == 6 witness [0, 0, 0, 0, 0, 0]

  datatype RawFrame = Frame(length: nat, data: seq<byte>)

  /** A frame as the driver delivers it: at least `length` bytes of data. */
  type frame = f: RawFrame | f.length <= |f.data| witness Frame(0, [])

  const BROADCAST: mac := [255, 255, 255, 255, 255, 255]
  const NO_MAC: mac := [0, 0, 0, 0, 0, 0]

  // ----- Fields in network byte order

  function Put16(v: half): (s: seq<byte>)
    ensures |s| == 2
  {
    [v / 256, v % 256]
  }

  function Put32(v: address): (s: seq<byte>)
    ensures |s| == 4
  {
    Put16(v / 0x1_0000) + Put16(v % 0x1_0000)
  }

  function Get16(d: seq<byte>, o: nat): (v: half)
    requires o + 2 <= |d|
  {
    d[o] as int * 256 + d[o + 1]
  }

  function Get32(d: seq<byte>, o: nat): (v: address)
    requires o + 4 <= |d|
  {
    Get16(d, o) as int * 0x1_0000 + Get16(d, o + 2)
  }

  /** The program swaps on little-endian machines and stores natively; on either machine the
      bytes are the big-endian ones. */
  function HostToNetwork16(v: half, little: bool): half {
    if little then Checksum.Swap(v) else v
  }

  lemma NetworkOrderOnEveryMachine(v: half, a: byte, b: byte, little: bool)
    ensures Checksum.StoreWord([a, b], 0, HostToNetwork16(v, little), little) == Put16(v)
    ensures HostToNetwork16(Checksum.WordOf(a, b, little), little) == Get16([a, b], 0)
  {
    DivUnique(v % 256, 256, v / 256);
    DivUnique(a, 256, b);
    DivUnique(b, 256, a);
  }

  // ----- ARP packets

  datatype Arp = Arp(oper: half, sha: mac, spa: address, tha: mac, tpa: address)

  /** Ethernet header and ARP packet, field by field. */
  function Build(dest: mac, src: mac, p: Arp): (s: seq<byte>)
    ensures |s| == ARP_FRAME
  {
    dest + src + Put16(ETHERTYPE_ARP)
      + Put16(ARP_HTYPE_ETHERNET) + Put16(ARP_PTYPE_IPV4) + [6, 4] + Put16(p.oper)
      + p.sha + Put32(p.spa) + p.tha + Put32(p.tpa)
  }

  /** The fields the receiver looks at; it ignores types and lengths other than the ethertype. */
  function Decode(f: frame): (r: Option<Arp>) {
    if f.length < ARP_FRAME || Get16(f.data, 12) != ETHERTYPE_ARP then None
    else Some(Arp(Get16(f.data, 20), f.data[22..28], Get32(f.data, 28), f.data[32..38], Get32(f.data, 38)))
  }

  lemma Slice16(d: seq<byte>, o: nat, v: half)
    requires o + 2 <= |d| && d[o..o + 2] == Put16(v)
    ensures Get16(d, o) == v
  {
    assert d[o] == d[o..o + 2][0] && d[o + 1] == d[o..o + 2][1];
  }

  lemma Slice32(d: seq<byte>, o: nat, v: address)
    requires o + 4 <= |d| && d[o..o + 4] == Put32(v)
    ensures Get32(d, o) == v
  {
    assert d[o..o + 2] == d[o..o + 4][..2];
    assert d[o + 2..o + 4] == d[o..o + 4][2..];
    Slice16(d, o, v / 0x1_0000);
    Slice16(d, o + 2, v % 0x1_0000);
  }

  /** Decoding undoes building, whatever padding the driver adds. */
  lemma DecodeOfBuild(dest: mac, src: mac, p: Arp, padding: seq<byte>)
    ensures Decode(Frame(ARP_FRAME, Build(dest, src, p) + padding)) == Some(p)
  {
    hide Put16;
    hide Put32;
    hide Get16;
    hide Get32;
    var d := Build(dest, src, p) + padding;
    assert d[12..14] == Put16(ETHERTYPE_ARP);
    assert d[20..22] == Put16(p.oper);
    assert d[22..28] == p.sha;
    assert d[28..32] == Put32(p.spa);
    assert d[32..38] == p.tha;
    assert d[38..42] == Put32(p.tpa);
    Slice16(d, 12, ETHERTYPE_ARP);
    Slice16(d, 20, p.oper);
    Slice32(d, 28, p.spa);
    Slice32(d, 38, p.tpa);
  }

  lemma NetworkBytes(v: address)
    ensures Put32(v) == [v / 0x100_0000, v / 0x1_0000 % 256, v / 0x100 % 256, v % 256]
  {
    var high, low := v / 0x1_0000, v % 0x1_0000;
    assert v == (high / 256) * 0x100_0000 + ((high % 256) * 0x1_0000 + low);
    DivUnique(high / 256, 0x100_0000, (high % 256) * 0x1_0000 + low);
    assert v == (high * 256 + low / 256) * 256 + low % 256;
    DivUnique(high * 256 + low / 256, 256, low % 256);
    DivUnique(high, 256, low / 256);
  }

  /** Every byte of an ARP frame (RFC 826, "Packet format"). */
  lemma ArpBytes(dest: mac, src: mac, p: Arp)
    ensures var s := Build(dest, src, p);
      && s[0..6] == dest && s[6..12] == src
      && s[12..22] == [0x08, 0x06, 0, 1, 0x08, 0x00, 6, 4, p.oper / 256, p.oper % 256]
      && s[22..28] == p.sha
      && s[28..32] == [p.spa / 0x100_0000, p.spa / 0x1_0000 % 256, p.spa / 0x100 % 256, p.spa % 256]
      && s[32..38] == p.tha
      && s[38..42] == [p.tpa / 0x100_0000, p.tpa / 0x1_0000 % 256, p.tpa / 0x100 % 256, p.tpa % 256]
  {
    NetworkBytes(p.spa);
    NetworkBytes(p.tpa);
    hide Put32;
    assert Put16(ETHERTYPE_ARP) == [0x08, 0x06] && Put16(ARP_HTYPE_ETHERNET) == [0, 1] && Put16(ARP_PTYPE_IPV4) == [0x08, 0];
    assert Put16(p.oper) == [p.oper / 256, p.oper % 256];
    hide Put16;
  }

  // ----- What a node does with a frame

  /** A node's own addresses and the address it wants to resolve. */
  datatype Config = Config(mac: mac, local: address, target: address)

  function Request(c: Config): (s: seq<byte>)
    ensures |s| == ARP_FRAME
  {
    Build(BROADCAST, c.mac, Arp(ARP_OPER_REQUEST, c.mac, c.local, NO_MAC, c.target))
  }

  function Reply(c: Config, to: mac, ip: address): (s: seq<byte>)
    ensures |s| == ARP_FRAME
  {
    Build(to, c.mac, Arp(ARP_OPER_REPLY, c.mac, c.local, to, ip))
  }

  /** The answer to a frame, if it is an ARP request for this node's address. */
  function Answer(c: Config, f: frame): (r: Option<seq<byte>>)
    ensures r.Some? ==> |r.value| == ARP_FRAME
  {
    match Decode(f)
    case None => None
    case Some(p) =>
      if p.oper == ARP_OPER_REQUEST && p.tpa == c.local then Some(Reply(c, p.sha, p.spa)) else None
  }

  /** The hardware address a frame resolves the target to, if it is a reply from the target. */
  function Resolved(c: Config, f: frame): (r: Option<mac>) {
    match Decode(f)
    case None => None
    case Some(p) =>
      if p.oper == ARP_OPER_REPLY && p.spa == c.target && p.tpa == c.local then Some(p.sha) else None
  }

  /** Two nodes agree: the node asked answers exactly when it owns the wanted address, and the
      asker reads from that answer the hardware address of the node that sent it. */
  lemma Agreement(asker: Config, node: Config, pad: seq<byte>, padBack: seq<byte>)
    ensures var answer := Answer(node, Frame(ARP_FRAME, Request(asker) + pad));
            && (answer.Some? <==> node.local == asker.target)
            && (answer.Some? ==> Resolved(asker, Frame(ARP_FRAME, answer.value + padBack)) == Some(node.mac))
  {
    hide Build;
    hide Decode;
    DecodeOfBuild(BROADCAST, asker.mac, Arp(ARP_OPER_REQUEST, asker.mac, asker.local, NO_MAC, asker.target), pad);
    DecodeOfBuild(asker.mac, node.mac, Arp(ARP_OPER_REPLY, node.mac, node.local, asker.mac, asker.local), padBack);
  }

  /** Which frames are answered, and with what, by the bytes of the frame. */
  lemma AnsweredIff(c: Config, f: frame)
    ensures Answer(c, f).Some?
       <==> f.length >= 42 && Get16(f.data, 12) == 0x0806 && Get16(f.data, 20) == 1 && Get32(f.data, 38) == c.local
    ensures Answer(c, f).Some? ==> Answer(c, f).value == Reply(c, f.data[22..28], Get32(f.data, 28))
  {
    hide Reply;
  }

  /** Which frames resolve the target, and to what. */
  lemma ResolvedIff(c: Config, f: frame, m: mac)
    ensures Resolved(c, f) == Some(m)
       <==> f.length >= 42 && Get16(f.data, 12) == 0x0806 && Get16(f.data, 20) == 2
            && Get32(f.data, 28) == c.target && Get32(f.data, 38) == c.local && m == f.data[22..28]
  {
  }

  /** A request goes to everyone and leaves the wanted hardware address open; the answer goes back
      to the asker, in the Ethernet header and in the packet. */
  lemma ArpAddressing(asker: Config, node: Config, pad: seq<byte>)
    requires node.local == asker.target
    ensures var request := Request(asker);
      && request[0..6] == [255, 255, 255, 255, 255, 255] && request[6..12] == asker.mac
      && request[32..38] == [0, 0, 0, 0, 0, 0]
    ensures var answer := Answer(node, Frame(ARP_FRAME, Request(asker) + pad));
      && answer.Some?
      && answer.value[0..6] == asker.mac && answer.value[6..12] == node.mac
      && answer.value[32..38] == asker.mac
  {
    hide Build;
    hide Decode;
    var p := Arp(ARP_OPER_REQUEST, asker.mac, asker.local, NO_MAC, asker.target);
    DecodeOfBuild(BROADCAST, asker.mac, p, pad);
    ArpBytes(BROADCAST, asker.mac, p);
    ArpBytes(asker.mac, node.mac, Arp(ARP_OPER_REPLY, node.mac, node.local, asker.mac, asker.local));
  }

  /** A bystander takes the answer for its own only if it has the asker's address and looks for
      the same target. */
  lemma BystandersIgnoreReplies(asker: Config, node: Config, other: Config, pad: seq<byte>)
    requires node.local == asker.target
    ensures Resolved(other, Frame(ARP_FRAME, Reply(node, asker.mac, asker.local) + pad)).Some?
       <==> other.target == asker.target && other.local == asker.local
    ensures Answer(other, Frame(ARP_FRAME, Reply(node, asker.mac, asker.local) + pad)).None?
  {
    hide Build;
    hide Decode;
    DecodeOfBuild(asker.mac, node.mac, Arp(ARP_OPER_REPLY, node.mac, node.local, asker.mac, asker.local), pad);
  }

  // ----- Resolving over a run of incoming frames

  lemma RequestIsNoReply(c: Config, f: frame)
    ensures Answer(c, f).Some? ==> Resolved(c, f).None?
  {
    hide Decode;
  }

  predicate IsReply(c: Config, read: Option<frame>) {
    read.Some? && Resolved(c, read.value).Some?
  }

  /** What is sent during attempt k when it brings no reply from the target. */
  function SentInAttempt(c: Config, read: Option<frame>, k: nat): seq<seq<byte>> {
    if read.Some? && Answer(c, read.value).Some? then [Answer(c, read.value).value]
    else if k % 100 == 0 then [Request(c)]
    else []
  }

  function SentIn(c: Config, incoming: nat -> Option<frame>, from: nat, n: nat): seq<seq<byte>> {
    if n == 0 then [] else SentIn(c, incoming, from, n - 1) + SentInAttempt(c, incoming(from + n - 1), n - 1)
  }

  /** How many of the frames sent are the node's own requests. */
  function Requests(c: Config, sent: seq<seq<byte>>): (n: nat)
    ensures n <= |sent|
  {
    if sent == [] then 0
    else Requests(c, sent[..|sent| - 1]) + if sent[|sent| - 1] == Request(c) then 1 else 0
  }

  lemma {:induction false} RequestsAppend(c: Config, a: seq<seq<byte>>, b: seq<seq<byte>>)
    ensures Requests(c, a + b) == Requests(c, a) + Requests(c, b)
  {
    if b == [] {
      assert a + b == a;
    } else {
      var n := |b| - 1;
      assert (a + b)[..|a| + n] == a + b[..n];
      RequestsAppend(c, a, b[..n]);
    }
  }

  lemma ReplyIsNoRequest(c: Config, to: mac, ip: address)
    ensures Reply(c, to, ip) != Request(c)
  {
    hide Build;
    hide Decode;
    DecodeOfBuild(to, c.mac, Arp(ARP_OPER_REPLY, c.mac, c.local, to, ip), []);
    DecodeOfBuild(BROADCAST, c.mac, Arp(ARP_OPER_REQUEST, c.mac, c.local, NO_MAC, c.target), []);
  }

  /** Requests are repeated at most once in a hundred attempts, so a whole run sends at most
      the first one and four more. */
  lemma {:induction false} FewRequests(c: Config, incoming: nat -> Option<frame>, from: nat, n: nat)
    ensures Requests(c, SentIn(c, incoming, from, n)) <= Hundreds(n)
  {
    hide Request;
    hide SentInAttempt;
    hide Hundreds;
    RoundUp(n);
    if n > 0 {
      FewRequests(c, incoming, from, n - 1);
      RequestsAppend(c, SentIn(c, incoming, from, n - 1), SentInAttempt(c, incoming(from + n - 1), n - 1));
      AnswersAreNoRequests(c, incoming(from + n - 1), n - 1);
    }
  }

  /** How many multiples of 100 are below n. */
  function Hundreds(n: nat): nat {
    (n + 99) / 100
  }

  lemma RoundUp(n: nat)
    ensures Hundreds(0) == 0
    ensures n > 0 ==> Hundreds(n) == Hundreds(n - 1) + if (n - 1) % 100 == 0 then 1 else 0
  {
    var q, r := (n - 1) / 100, (n - 1) % 100;
    DivUnique(q + 1, 100, r);
    if r == 0 {
      DivUnique(q, 100, 99);
    } else {
      DivUnique(q + 1, 100, r - 1);
    }
  }

  lemma AnswersAreNoRequests(c: Config, read: Option<frame>, k: nat)
    ensures Requests(c, SentInAttempt(c, read, k)) <= if k % 100 == 0 then 1 else 0
  {
    if read.Some? && Answer(c, read.value).Some? {
      var p := Decode(read.value).value;
      ReplyIsNoRequest(c, p.sha, p.spa);
    }
  }

  // ----- The echo request

  /** "ghost ping utility" and its terminator. */
  const PAYLOAD: seq<byte> :=
    [103, 104, 111, 115, 116, 32, 112, 105, 110, 103, 32, 117, 116, 105, 108, 105, 116, 121, 0]

  lemma PayloadSpelled()
    ensures PAYLOAD == Texts.Codes("ghost ping utility") + [0]
  {
  }

  /** The IPv4 header with its checksum field, word 5, still zero. */
  function IpHeader(c: Config): (s: seq<byte>)
    ensures |s| == 20 && s[10] == 0 && s[11] == 0
  {
    [0x45, 0] + Put16(60) + [0, 0, 0, 0, 64, 1, 0, 0] + Put32(c.local) + Put32(c.target)
  }

  const ECHO_REQUEST: byte := 8
  const ECHO_REPLY: byte := 0
  const IDENTIFIER: half := 0x1337

  /** The ICMP message with its checksum field, word 1, still zero. */
  function IcmpEcho(kind: byte, sequence: half): (s: seq<byte>)
    ensures |s| == 40 && s[2] == 0 && s[3] == 0
  {
    [kind, 0, 0, 0] + Put16(IDENTIFIER) + Put16(sequence) + PAYLOAD + seq(13, _ => 0)
  }

  /** A block with the checksum of its words stored at word k, as a machine of the given byte
      order does it. */
  function Summed(block: seq<byte>, k: nat, little: bool): (s: seq<byte>)
    requires |block| % 2 == 0 && 2 * k + 1 < |block| && block[2 * k] == 0 && block[2 * k + 1] == 0
    ensures |s| == |block|
  {
    Checksum.StoredChecksumIsPortable(block, k, little);
    Checksum.StoreWord(block, k, Checksum.OfWords(Checksum.Words(block, little)), little)
  }

  /** An echo message between two nodes. A reply has the same form as a request, from the other
      side and with another type (RFC 792, "Echo or Echo Reply Message"). */
  function Echo(c: Config, dest: mac, kind: byte, sequence: half, little: bool): (s: seq<byte>)
    ensures |s| == 74
  {
    dest + c.mac + Put16(ETHERTYPE_IPV4)
      + (Summed(IpHeader(c), 5, little) + Summed(IcmpEcho(kind, sequence), 1, little))
  }

  /** The receiver's test: the checksum over a block that contains its checksum is zero. */
  predicate Verifies(block: seq<byte>, little: bool) {
    Checksum.OfWords(Checksum.Words(block, little)) == 0
  }

  /** Both checksums of every echo message verify on machines of both byte orders, and a
      machine's byte order leaves no trace in the frame. */
  lemma EchoVerifies(c: Config, dest: mac, kind: byte, sequence: half, little: bool, other: bool)
    ensures var f := Echo(c, dest, kind, sequence, little);
            && Verifies(f[14..34], other) && Verifies(f[34..74], other)
            && f == Echo(c, dest, kind, sequence, !little)
  {
    hide Checksum.Words;
    hide Checksum.OfWords;
    hide Checksum.StoreWord;
    hide IpHeader;
    hide IcmpEcho;
    var f := Echo(c, dest, kind, sequence, little);
    Checksum.StoredChecksumIsPortable(IpHeader(c), 5, little);
    Checksum.StoredChecksumIsPortable(IcmpEcho(kind, sequence), 1, little);
    assert f[14..34] == Summed(IpHeader(c), 5, little);
    assert f[34..74] == Summed(IcmpEcho(kind, sequence), 1, little);
  }

  /** The frames taken for the reply to a request, whatever the length of their IP header. */
  predicate IsEchoReply(c: Config, f: frame, sequence: half) {
    && f.length >= 74
    && Get16(f.data, 12) == ETHERTYPE_IPV4
    && f.data[14] / 16 == 4 && f.data[14] % 16 >= 5
    && f.data[23] == 1
    && Get32(f.data, 26) == c.target && Get32(f.data, 30) == c.local
    && f.length >= 14 + f.data[14] % 16 * 4 + 40
    && var icmp := 14 + f.data[14] % 16 * 4;
    && f.data[icmp] == ECHO_REPLY && f.data[icmp + 1] == 0
    && Get16(f.data, icmp + 4) == IDENTIFIER && Get16(f.data, icmp + 6) == sequence
  }

  /** Bytes of a block that the stored checksum leaves alone. */
  lemma SummedElsewhere(block: seq<byte>, k: nat, little: bool, i: nat, j: nat)
    requires |block| % 2 == 0 && 2 * k + 1 < |block| && block[2 * k] == 0 && block[2 * k + 1] == 0
    requires i <= j <= |block| && (j <= 2 * k || 2 * k + 2 <= i)
    ensures Summed(block, k, little)[i..j] == block[i..j]
  {
    hide Checksum.Words;
    hide Checksum.OfWords;
    Checksum.StoredChecksumIsPortable(block, k, little);
  }

  lemma IpHeaderFields(c: Config)
    ensures var h := IpHeader(c);
      h[0] == 0x45 && h[9] == 1 && h[12..16] == Put32(c.local) && h[16..20] == Put32(c.target)
  {
    hide Put16;
    hide Put32;
  }

  lemma IcmpEchoFields(kind: byte, sequence: half)
    ensures var m := IcmpEcho(kind, sequence);
      m[0] == kind && m[1] == 0 && m[4..6] == Put16(IDENTIFIER) && m[6..8] == Put16(sequence)
  {
    hide Put16;
  }

  /** A part of a part, and a byte of it. */
  lemma PartOfPart(d: seq<byte>, o: nat, part: seq<byte>, i: nat, j: nat)
    requires o + |part| <= |d| && d[o..o + |part|] == part && i <= j <= |part|
    ensures d[o + i..o + j] == part[i..j]
    ensures i < |part| ==> d[o + i] == part[i]
  {
    assert forall k :: 0 <= k < |part| ==> part[k] == d[o..o + |part|][k] == d[o + k];
    assert forall k :: 0 <= k < j - i ==> d[o + i..o + j][k] == d[o + (i + k)] == part[i..j][k];
  }

  /** The IP fields at their places in the frame. */
  lemma EchoIpFields(d: seq<byte>, c: Config, little: bool)
    requires |d| >= 34 && d[14..34] == Summed(IpHeader(c), 5, little)
    ensures d[14] == 0x45 && d[23] == 1 && Get32(d, 26) == c.local && Get32(d, 30) == c.target
  {
    hide Put32;
    hide Get32;
    hide Summed;
    hide IpHeader;
    var ip := IpHeader(c);
    var s := Summed(ip, 5, little);
    IpHeaderFields(c);
    SummedElsewhere(ip, 5, little, 0, 10);
    SummedElsewhere(ip, 5, little, 12, 16);
    SummedElsewhere(ip, 5, little, 16, 20);
    assert s[0] == s[0..10][0] && s[9] == s[0..10][9];
    PartOfPart(d, 14, s, 0, 0);
    PartOfPart(d, 14, s, 9, 9);
    PartOfPart(d, 14, s, 12, 16);
    PartOfPart(d, 14, s, 16, 20);
    Slice32(d, 26, c.local);
    Slice32(d, 30, c.target);
  }

  /** The ICMP fields at their places in the frame. */
  lemma EchoIcmpFields(d: seq<byte>, kind: byte, sequence: half, little: bool)
    requires |d| >= 74 && d[34..74] == Summed(IcmpEcho(kind, sequence), 1, little)
    ensures d[34] == kind && d[35] == 0 && Get16(d, 38) == IDENTIFIER && Get16(d, 40) == sequence
  {
    hide Put16;
    hide Get16;
    hide Summed;
    hide IcmpEcho;
    var icmp := IcmpEcho(kind, sequence);
    var s := Summed(icmp, 1, little);
    IcmpEchoFields(kind, sequence);
    SummedElsewhere(icmp, 1, little, 0, 2);
    SummedElsewhere(icmp, 1, little, 4, 6);
    SummedElsewhere(icmp, 1, little, 6, 8);
    assert s[0] == s[0..2][0] && s[1] == s[0..2][1];
    PartOfPart(d, 34, s, 0, 0);
    PartOfPart(d, 34, s, 1, 1);
    PartOfPart(d, 34, s, 4, 6);
    PartOfPart(d, 34, s, 6, 8);
    Slice16(d, 38, IDENTIFIER);
    Slice16(d, 40, sequence);
  }

  /** What a receiver reads at the fixed places of an echo frame. */
  lemma EchoFields(c: Config, dest: mac, kind: byte, sequence: half, little: bool, pad: seq<byte>)
    ensures var d := Echo(c, dest, kind, sequence, little) + pad;
      && Get16(d, 12) == ETHERTYPE_IPV4 && d[14] == 0x45 && d[23] == 1
      && Get32(d, 26) == c.local && Get32(d, 30) == c.target
      && d[34] == kind && d[35] == 0 && Get16(d, 38) == IDENTIFIER && Get16(d, 40) == sequence
  {
    hide Put16;
    hide Get16;
    hide Get32;
    hide Summed;
    hide IpHeader;
    hide IcmpEcho;
    var d := Echo(c, dest, kind, sequence, little) + pad;
    assert d[12..14] == Put16(ETHERTYPE_IPV4);
    Slice16(d, 12, ETHERTYPE_IPV4);
    assert d[14..34] == Summed(IpHeader(c), 5, little);
    EchoIpFields(d, c, little);
    assert d[34..74] == Summed(IcmpEcho(kind, sequence), 1, little);
    EchoIcmpFields(d, kind, sequence, little);
  }

  /** An echo message from a peer is taken for the reply exactly when it is a reply, carries the
      sequence number waited for, and goes from the target to this node. */
  lemma EchoAgreement(asker: Config, peer: Config, kind: byte, sequence: half, waited: half, little: bool, pad: seq<byte>)
    ensures IsEchoReply(asker, Frame(74, Echo(peer, asker.mac, kind, sequence, little) + pad), waited)
       <==> kind == ECHO_REPLY && sequence == waited
            && peer.local == asker.target && peer.target == asker.local
  {
    hide Echo;
    hide Get16;
    hide Get32;
    EchoFields(peer, asker.mac, kind, sequence, little, pad);
  }

  /** The parts of an echo frame that do not depend on the checksums, byte by byte. */
  lemma EchoBytes(c: Config, dest: mac, kind: byte, sequence: half, little: bool)
    ensures var f := Echo(c, dest, kind, sequence, little);
      && f[0..6] == dest && f[6..12] == c.mac && f[12..14] == [0x08, 0x00]
      && f[14..24] == [0x45, 0, 0, 60, 0, 0, 0, 0, 64, 1]
      && f[26..30] == Put32(c.local) && f[30..34] == Put32(c.target)
      && f[34..36] == [kind, 0] && f[38..42] == [0x13, 0x37, sequence / 256, sequence % 256]
      && f[42..74] == PAYLOAD + seq(13, _ => 0)
  {
    hide Summed;
    hide IpHeader;
    hide IcmpEcho;
    hide Put32;
    var f := Echo(c, dest, kind, sequence, little);
    var ip, icmp := IpHeader(c), IcmpEcho(kind, sequence);
    IpHeaderBytes(c);
    IcmpEchoBytes(kind, sequence);
    SummedElsewhere(ip, 5, little, 0, 10);
    SummedElsewhere(ip, 5, little, 12, 16);
    SummedElsewhere(ip, 5, little, 16, 20);
    SummedElsewhere(icmp, 1, little, 0, 2);
    SummedElsewhere(icmp, 1, little, 4, 8);
    SummedElsewhere(icmp, 1, little, 8, 40);
    assert Put16(ETHERTYPE_IPV4) == [0x08, 0x00];
    hide Put16;
    EchoParts(c, dest, f, Summed(ip, 5, little), Summed(icmp, 1, little));
  }

  lemma EchoParts(c: Config, dest: mac, f: seq<byte>, ip: seq<byte>, icmp: seq<byte>)
    requires |ip| == 20 && |icmp| == 40 && f == dest + c.mac + Put16(ETHERTYPE_IPV4) + (ip + icmp)
    ensures f[0..6] == dest && f[6..12] == c.mac && f[12..14] == Put16(ETHERTYPE_IPV4)
    ensures f[14..24] == ip[0..10] && f[26..30] == ip[12..16] && f[30..34] == ip[16..20]
    ensures f[34..36] == icmp[0..2] && f[38..42] == icmp[4..8] && f[42..74] == icmp[8..40]
  {
    hide Put16;
  }

  lemma IpHeaderBytes(c: Config)
    ensures var h := IpHeader(c);
      h[0..10] == [0x45, 0, 0, 60, 0, 0, 0, 0, 64, 1] && h[12..16] == Put32(c.local) && h[16..20] == Put32(c.target)
  {
    hide Put32;
  }

  lemma IcmpEchoBytes(kind: byte, sequence: half)
    ensures var m := IcmpEcho(kind, sequence);
      m[0..2] == [kind, 0] && m[4..8] == [0x13, 0x37, sequence / 256, sequence % 256] && m[8..40] == PAYLOAD + seq(13, _ => 0)
  {
  }

  /** Behind an IP header of h words, options included, the message is read where it begins; every
      field has to be right. */
  lemma EchoReplyIff(c: Config, eth: seq<byte>, ip: seq<byte>, icmp: seq<byte>, h: nat, sequence: half, pad: seq<byte>)
    requires |eth| == 14 && 5 <= h <= 15 && |ip| == 4 * h && ip[0] % 16 == h && |icmp| == 40
    ensures IsEchoReply(c, Frame(54 + 4 * h, eth + ip + icmp + pad), sequence)
       <==> Get16(eth, 12) == 0x0800 && ip[0] / 16 == 4 && ip[9] == 1
            && Get32(ip, 12) == c.target && Get32(ip, 16) == c.local
            && icmp[0] == 0 && icmp[1] == 0 && Get16(icmp, 4) == 0x1337 && Get16(icmp, 6) == sequence
  {
    var d := eth + ip + icmp + pad;
    assert forall i :: 0 <= i < 14 ==> d[i] == eth[i];
    assert forall i :: 0 <= i < |ip| ==> d[14 + i] == ip[i];
    assert forall i :: 0 <= i < 40 ==> d[14 + 4 * h + i] == icmp[i];
    assert d[14] == ip[0] && d[23] == ip[9];
    assert Get16(d, 12) == Get16(eth, 12);
    assert Get32(d, 26) == Get32(ip, 12) && Get32(d, 30) == Get32(ip, 16);
    var m := 14 + 4 * h;
    assert d[m] == icmp[0] && d[m + 1] == icmp[1];
    assert Get16(d, m + 4) == Get16(icmp, 4) && Get16(d, m + 6) == Get16(icmp, 6);
  }

  /** Frames too short for their own IP header and an echo message, or with a header shorter than
      five words, are not taken. */
  lemma ShortFramesRefused(c: Config, f: frame, sequence: half)
    ensures IsEchoReply(c, f, sequence)
       ==> f.length >= 74 && f.data[14] % 16 >= 5 && f.length >= 54 + 4 * (f.data[14] % 16)
  {
  }

  // ----- The program

  /** A payload copied into a zeroed frame of the driver's size. */
  function Padded(payload: seq<byte>, capacity: nat): (f: frame)
    requires |payload| <= capacity
  {
    Frame(|payload|, payload + seq(capacity - |payload|, _ => 0))
  }

  function PaddedAll(payloads: seq<seq<byte>>, capacity: nat): (fs: seq<frame>)
    requires forall i :: 0 <= i < |payloads| ==> |payloads[i]| <= capacity
  {
    seq(|payloads|, i requires 0 <= i < |payloads| => Padded(payloads[i], capacity))
  }

  /** Everything a run of n attempts writes to the driver: a request, and then what each attempt
      calls for. */
  function Sent(c: Config, incoming: nat -> Option<frame>, from: nat, n: nat, capacity: nat): seq<frame>
    requires capacity >= ARP_FRAME
  {
    SentFits(c, incoming, from, n);
    PaddedAll([Request(c)] + SentIn(c, incoming, from, n), capacity)
  }

  lemma {:induction false} SentFits(c: Config, incoming: nat -> Option<frame>, from: nat, n: nat)
    ensures forall i :: 0 <= i < |SentIn(c, incoming, from, n)| ==> |SentIn(c, incoming, from, n)[i]| == ARP_FRAME
  {
    hide Request;
    hide Answer;
    if n > 0 {
      SentFits(c, incoming, from, n - 1);
    }
  }

  /** The frame sent during attempt k when it brings no reply from the target, if any. */
  function FramesOf(c: Config, read: Option<frame>, k: nat, capacity: nat): seq<frame>
    requires capacity >= ARP_FRAME
  {
    if read.Some? && Answer(c, read.value).Some? then [Padded(Answer(c, read.value).value, capacity)]
    else if k % 100 == 0 then [Padded(Request(c), capacity)]
    else []
  }

  lemma SentStep(c: Config, incoming: nat -> Option<frame>, from: nat, n: nat, capacity: nat)
    requires capacity >= ARP_FRAME
    ensures Sent(c, incoming, from, n + 1, capacity)
         == Sent(c, incoming, from, n, capacity) + FramesOf(c, incoming(from + n), n, capacity)
  {
    hide Request;
    hide Answer;
    hide Padded;
    SentFits(c, incoming, from, n);
    SentFits(c, incoming, from, n + 1);
  }

  /** A request for this node is answered, and nothing else is sent for it, be it the turn of a
      request of its own or not. */
  lemma RequestIsAnswered(c: Config, incoming: nat -> Option<frame>, from: nat, n: nat, capacity: nat)
    requires capacity >= ARP_FRAME && incoming(from + n).Some? && Answer(c, incoming(from + n).value).Some?
    ensures Sent(c, incoming, from, n + 1, capacity)
         == Sent(c, incoming, from, n, capacity) + [Padded(Answer(c, incoming(from + n).value).value, capacity)]
  {
    hide Sent;
    hide Answer;
    SentStep(c, incoming, from, n, capacity);
  }

  lemma {:induction false} SilentAttempts(c: Config, incoming: nat -> Option<frame>, from: nat, n: nat)
    requires forall i :: from <= i < from + n ==> incoming(i).None?
    ensures SentIn(c, incoming, from, n) == seq(Hundreds(n), _ => Request(c))
  {
    hide Request;
    hide Hundreds;
    RoundUp(n);
    if n > 0 {
      SilentAttempts(c, incoming, from, n - 1);
    }
  }

  /** When nothing comes, a whole run sends exactly five requests. */
  lemma SilentTarget(c: Config, incoming: nat -> Option<frame>, from: nat, capacity: nat)
    requires capacity >= ARP_FRAME && forall i :: from <= i < from + 400 ==> incoming(i).None?
    ensures Sent(c, incoming, from, 400, capacity) == seq(5, _ => Padded(Request(c), capacity))
  {
    hide Request;
    hide Padded;
    SilentAttempts(c, incoming, from, 400);
    assert Hundreds(400) == 4;
    SentFits(c, incoming, from, 400);
  }

  /** What the driver is given for a request and for its answer is understood on the other side. */
  lemma FramesAgree(asker: Config, node: Config, capacity: nat)
    requires capacity >= ARP_FRAME && node.local == asker.target
    ensures var answer := Answer(node, Padded(Request(asker), capacity));
      answer.Some? && Resolved(asker, Padded(answer.value, capacity)) == Some(node.mac)
  {
    hide Answer;
    hide Resolved;
    hide Request;
    var zeros := seq(capacity - ARP_FRAME, _ => 0);
    Agreement(asker, node, zeros, zeros);
  }

  lemma SentFirst(c: Config, incoming: nat -> Option<frame>, from: nat, capacity: nat)
    requires capacity >= ARP_FRAME
    ensures Sent(c, incoming, from, 0, capacity) == [Padded(Request(c), capacity)]
  {
    hide Request;
    hide Padded;
    SentFits(c, incoming, from, 0);
    assert [Request(c)] + [] == [Request(c)];
  }

  /** memcpy of a field to offset o of a packet whose earlier fields are already in place. */
  method Store(buffer: array<byte>, o: nat, field: seq<byte>)
    requires o + |field| <= buffer.Length
    modifies buffer
    ensures buffer[..o + |field|] == old(buffer[..o]) + field
    ensures buffer[o + |field|..] == old(buffer[o + |field|..])
  {
    for i := 0 to |field|
      invariant buffer[..o + i] == old(buffer[..o]) + field[..i]
      invariant buffer[o + i..] == old(buffer[o + i..])
    {
      buffer[o + i] := field[i];
      assert buffer[..o + i + 1] == buffer[..o + i] + [field[i]];
    }
  }

  class Node {
    const config: Config
    /** The data size of a frame. */
    const capacity: nat
    /** What each read from the driver yields: a whole frame, or none. */
    const incoming: nat -> Option<frame>
    /** Whether the driver takes the n-th frame written to it completely. */
    const accepts: nat -> bool
    var readCount: nat
    var outbox: seq<frame>

    constructor (config: Config, capacity: nat, incoming: nat -> Option<frame>, accepts: nat -> bool)
      ensures this.config == config && this.capacity == capacity
      ensures this.incoming == incoming && this.accepts == accepts
      ensures readCount == 0 && outbox == []
    {
      this.config, this.capacity, this.incoming, this.accepts := config, capacity, incoming, accepts;
      readCount, outbox := 0, [];
    }

    method SendFrame(payload: seq<byte>) returns (ok: bool)
      modifies this`outbox
      ensures ok <==> |payload| <= capacity && accepts(|old(outbox)|)
      ensures outbox == old(outbox) + if |payload| <= capacity then [Padded(payload, capacity)] else []
    {
      if |payload| > capacity {
        return false;
      }
      ok := accepts(|outbox|);
      outbox := outbox + [Padded(payload, capacity)];
    }

    method ReceiveFrame() returns (f: Option<frame>)
      modifies this`readCount
      ensures readCount == old(readCount) + 1 && f == incoming(old(readCount))
    {
      f := incoming(readCount);
      readCount := readCount + 1;
    }

    /** The twelve stores both packet builders make. */
    static method BuildArp(dest: mac, src: mac, p: Arp) returns (packet: seq<byte>)
      ensures packet == Build(dest, src, p)
    {
      hide Put16;
      hide Put32;
      var buffer := new byte[ARP_FRAME];
      Store(buffer, 0, dest);
      assert buffer[..6] == dest;
      Store(buffer, 6, src);
      Store(buffer, 12, Put16(ETHERTYPE_ARP));
      Store(buffer, 14, Put16(ARP_HTYPE_ETHERNET));
      Store(buffer, 16, Put16(ARP_PTYPE_IPV4));
      Store(buffer, 18, [6, 4]);
      Store(buffer, 20, Put16(p.oper));
      Store(buffer, 22, p.sha);
      Store(buffer, 28, Put32(p.spa));
      Store(buffer, 32, p.tha);
      Store(buffer, 38, Put32(p.tpa));
      packet := buffer[..];
      assert packet == buffer[..ARP_FRAME];
    }

    method SendArpReply(targetMac: mac, targetIp: address)
      requires capacity >= ARP_FRAME
      modifies this`outbox
      ensures outbox == old(outbox) + [Padded(Reply(config, targetMac, targetIp), capacity)]
    {
      hide Build;
      var packet := BuildArp(targetMac, config.mac, Arp(ARP_OPER_REPLY, config.mac, config.local, targetMac, targetIp));
      var _ := SendFrame(packet);
    }

    method SendArpRequest()
      requires capacity >= ARP_FRAME
      modifies this`outbox
      ensures outbox == old(outbox) + [Padded(Request(config), capacity)]
    {
      hide Build;
      var packet := BuildArp(BROADCAST, config.mac, Arp(ARP_OPER_REQUEST, config.mac, config.local, NO_MAC, config.target));
      var _ := SendFrame(packet);
    }

    method HandleArpRequest(f: frame) returns (handled: bool)
      requires capacity >= ARP_FRAME
      modifies this`outbox
      ensures handled <==> Answer(config, f).Some?
      ensures outbox == old(outbox) + if handled then [Padded(Answer(config, f).value, capacity)] else []
    {
      hide Build;
      hide Get16;
      hide Get32;
      if f.length < ARP_FRAME {
        return false;
      }
      if Get16(f.data, 12) != ETHERTYPE_ARP {
        return false;
      }
      if Get16(f.data, 20) != ARP_OPER_REQUEST {
        return false;
      }
      if Get32(f.data, 38) != config.local {
        return false;
      }
      SendArpReply(f.data[22..28], Get32(f.data, 28));
      handled := true;
    }

    method TryParseArpReply(f: frame) returns (r: Option<mac>)
      ensures r == Resolved(config, f)
    {
      if f.length < ARP_FRAME || Get16(f.data, 12) != ETHERTYPE_ARP {
        return None;
      }
      if Get16(f.data, 20) != ARP_OPER_REPLY {
        return None;
      }
      if Get32(f.data, 28) != config.target || Get32(f.data, 38) != config.local {
        return None;
      }
      r := Some(f.data[22..28]);
    }

    method SendIcmpEcho(sequence: half, targetMac: mac, little: bool) returns (ok: bool)
      modifies this`outbox
      ensures ok <==> 74 <= capacity && accepts(|old(outbox)|)
      ensures outbox == old(outbox)
        + if 74 <= capacity then [Padded(Echo(config, targetMac, ECHO_REQUEST, sequence, little), capacity)] else []
    {
      hide Checksum.Words;
      hide Checksum.OfWords;
      hide Checksum.StoreWord;
      hide IpHeader;
      hide IcmpEcho;
      var ip := IpHeader(config);
      Checksum.NoOverflow(ip, little);
      var sum := Checksum.Checksum16(ip, little);
      ip := Checksum.StoreWord(ip, 5, sum, little);

      var icmp := IcmpEcho(ECHO_REQUEST, sequence);
      Checksum.NoOverflow(icmp, little);
      sum := Checksum.Checksum16(icmp, little);
      icmp := Checksum.StoreWord(icmp, 1, sum, little);
      ok := SendFrame(targetMac + config.mac + Put16(ETHERTYPE_IPV4) + (ip + icmp));
    }

    method TryHandleIcmpReply(f: frame, sequence: half) returns (ok: bool)
      ensures ok <==> IsEchoReply(config, f, sequence)
    {
      hide Get16;
      hide Get32;
      if f.length < 74 || Get16(f.data, 12) != ETHERTYPE_IPV4 {
        return false;
      }
      if f.data[14] / 16 != 4 || f.data[14] % 16 < 5 {
        return false;
      }
      if f.data[23] != 1 {
        return false;
      }
      if Get32(f.data, 26) != config.target || Get32(f.data, 30) != config.local {
        return false;
      }
      var ipHeaderLength := f.data[14] % 16 * 4;
      if f.length < 14 + ipHeaderLength + 40 {
        return false;
      }
      var icmp := 14 + ipHeaderLength;
      if f.data[icmp] != ECHO_REPLY || f.data[icmp + 1] != 0 {
        return false;
      }
      ok := Get16(f.data, icmp + 4) == IDENTIFIER && Get16(f.data, icmp + 6) == sequence;
    }

    /** One round of the loop. */
    method Attempt(attempt: nat) returns (r: Option<mac>)
      requires capacity >= ARP_FRAME
      modifies this
      ensures readCount == old(readCount) + 1
      ensures r.Some? <==> IsReply(config, incoming(old(readCount)))
      ensures r.Some? ==> r == Resolved(config, incoming(old(readCount)).value) && outbox == old(outbox)
      ensures r.None? ==> outbox == old(outbox) + FramesOf(config, incoming(old(readCount)), attempt, capacity)
    {
      hide Request;
      hide Answer;
      hide Resolved;
      r := None;
      var f := ReceiveFrame();
      if f.Some? {
        var handled := HandleArpRequest(f.value);
        RequestIsNoReply(config, f.value);
        if handled {
          return;
        }
        r := TryParseArpReply(f.value);
        if r.Some? {
          return;
        }
      }
      if attempt % 100 == 0 {
        SendArpRequest();
      }
    }

    /** True only with the sender's address of a reply from the target to this node, the first
        one among the next 400 reads; every other outcome is a time-out after 400 reads. What
        was sent is the first request and then exactly what each attempt calls for. */
    method ResolveTargetMac() returns (r: Option<mac>)
      requires capacity >= ARP_FRAME
      modifies this
      ensures r.Some? ==> old(readCount) < readCount <= old(readCount) + 400
      ensures r.Some? ==> IsReply(config, incoming(readCount - 1))
      ensures r.Some? ==> r == Resolved(config, incoming(readCount - 1).value)
      ensures r.None? ==> readCount == old(readCount) + 400
      ensures forall i :: old(readCount) <= i < (if r.Some? then readCount - 1 else readCount) ==> !IsReply(config, incoming(i))
      ensures outbox == old(outbox)
        + Sent(config, incoming, old(readCount), (if r.Some? then readCount - 1 else readCount) - old(readCount), capacity)
    {
      hide FramesOf;
      hide Sent;
      hide IsReply;
      hide Resolved;
      ghost var start := readCount;
      SentFirst(config, incoming, start, capacity);
      SendArpRequest();
      for attempt := 0 to ATTEMPTS
        invariant readCount == start + attempt
        invariant forall i :: start <= i < readCount ==> !IsReply(config, incoming(i))
        invariant outbox == old(outbox) + Sent(config, incoming, start, attempt, capacity)
      {
        SentStep(config, incoming, start, attempt, capacity);
        r := Attempt(attempt);
        if r.Some? {
          return;
        }
      }
      r := None;
    }
  }

  lemma AtMostFive(c: Config, incoming: nat -> Option<frame>, from: nat, n: nat)
    requires n <= ATTEMPTS
    ensures Requests(c, [Request(c)] + SentIn(c, incoming, from, n)) <= 5
  {
    hide Request;
    FewRequests(c, incoming, from, n);
    RequestsAppend(c, [Request(c)], SentIn(c, incoming, from, n));
    assert Requests(c, [Request(c)]) <= 1;
  }
}
