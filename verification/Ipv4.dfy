/** Ones'-complement checksums (section 3.1 of RFC 791, section 1 of RFC 1071) and the IPv4/UDP envelope of DHCP. */
module Ipv4 {
  import opened Basics
  import opened NetConfig

  function Word(hi: Byte, lo: Byte): (v: int)
    ensures 0 <= v < 0x1_0000
  {
    U16At([hi, lo])
  }

  /** Sum of the 16-bit big-endian words; an odd last byte counts as the high half of a word. */
  function WordSum(p: seq<Byte>): nat {
    if |p| == 0 then 0
    else if |p| == 1 then Word(p[0], 0)
    else Word(p[0], p[1]) + WordSum(p[2..])
  }

  /** The value that folding carries back into 16 bits ends at: congruent modulo 65535, and 0 only for 0. */
  function Residue(v: nat): (r: int)
    ensures 0 <= r < 0x1_0000
    ensures v == 0 <==> r == 0
  {
    if v == 0 then 0 else (v - 1) % 65535 + 1
  }

  /** The checksum of a byte string; the accumulator has 32 bits. */
  function ChecksumOf(p: seq<Byte>): (c: int)
    ensures 0 <= c < 0x1_0000
  {
    65535 - Residue(WordSum(p) % U32_WRAP)
  }

  method Checksum(p: seq<Byte>) returns (c: int)
    ensures c == ChecksumOf(p)
  {
    hide Residue;
    var rest, sum := p, 0;
    ghost var total: nat := 0;
    while |rest| >= 2
      invariant sum == total % U32_WRAP && total + WordSum(rest) == WordSum(p)
    {
      var word := Word(rest[0], rest[1]);
      WrapEarly(total, word);
      sum := (sum + word) % U32_WRAP;
      total, rest := total + word, rest[2..];
    }
    if |rest| > 0 {
      WrapEarly(total, Word(rest[0], 0));
      sum := (sum + Word(rest[0], 0)) % U32_WRAP;
    }
    assert sum == WordSum(p) % U32_WRAP;
    sum := FoldCarry(sum);
    return 65535 - sum;
  }

  method FoldCarry(total: int) returns (sum: int)
    requires 0 <= total < U32_WRAP
    ensures sum == Residue(total)
  {
    sum := total;
    while sum / 0x1_0000 != 0
      invariant 0 <= sum < U32_WRAP && Residue(sum) == Residue(total)
      decreases sum
    {
      FoldKeepsResidue(sum);
      sum := sum % 0x1_0000 + sum / 0x1_0000;
    }
    assert 0 <= sum < 0x1_0000;
  }

  lemma WrapEarly(a: nat, b: nat)
    ensures (a % U32_WRAP + b) % U32_WRAP == (a + b) % U32_WRAP
  {
    var k := a / U32_WRAP;
    assert a + b == a % U32_WRAP + b + U32_WRAP * k;
  }

  /** One fold of the carry makes the sum smaller and keeps its residue. */
  lemma FoldKeepsResidue(v: nat)
    requires v / 0x1_0000 != 0
    ensures var w := v % 0x1_0000 + v / 0x1_0000; 0 < w < v && Residue(w) == Residue(v)
  {
    var h, l := v / 0x1_0000, v % 0x1_0000;
    assert v == 0x1_0000 * h + l;
    var w := l + h;
    assert v - 1 == (w - 1) + 65535 * h;
    ModPlus(w - 1, h);
  }

  lemma ModPlus(a: int, k: nat)
    ensures (a + 65535 * k) % 65535 == a % 65535
  {
    if k > 0 {
      ModPlus(a, k - 1);
      assert (a + 65535 * (k - 1) + 65535) % 65535 == (a + 65535 * (k - 1)) % 65535;
    }
  }

  /** A byte string with the 16-bit word at offset w replaced. */
  function Put(p: seq<Byte>, w: nat, v: int): (q: seq<Byte>)
    requires w + 1 < |p| && 0 <= v < 0x1_0000
    ensures |q| == |p|
  {
    p[w := v / 256][w + 1 := v % 256]
  }

  lemma {:induction false} SumAfterPut(p: seq<Byte>, w: nat, v: int)
    requires w % 2 == 0 && w + 1 < |p| && 0 <= v < 0x1_0000
    ensures WordSum(Put(p, w, v)) == WordSum(p) - Word(p[w], p[w + 1]) + v
  {
    if w > 0 {
      assert Put(p, w, v)[2..] == Put(p[2..], w - 2, v);
      SumAfterPut(p[2..], w - 2, v);
    } else {
      assert Put(p, w, v)[2..] == p[2..];
    }
  }

  /** Whatever the bytes and however long they are - the accumulator may wrap - writing the checksum into its zeroed,
      word-aligned field makes verification give zero. */
  lemma ChecksumVerifies(p: seq<Byte>, w: nat)
    requires w % 2 == 0 && w + 1 < |p| && p[w] == 0 && p[w + 1] == 0
    ensures ChecksumOf(Put(p, w, ChecksumOf(p))) == 0
  {
    var c := ChecksumOf(p);
    SumAfterPut(p, w, c);
    CompletesToAllOnes(WordSum(p), c);
  }

  lemma CompletesToAllOnes(total: nat, c: int)
    requires c == 65535 - Residue(total % U32_WRAP)
    ensures Residue((total + c) % U32_WRAP) == 65535
  {
    var s := total % U32_WRAP;
    var q := if s == 0 then 0 else (s - 1) / 65535 + 1;
    assert s + c == if s == 0 then 65535 else 65535 * q;
    assert s + c < U32_WRAP;
    assert (total + c) % U32_WRAP == s + c by {
      assert total + c == U32_WRAP * (total / U32_WRAP) + (s + c);
    }
    var k := if s == 0 then 0 else q - 1;
    assert s + c - 1 == 65534 + 65535 * k;
    ModPlus(65534, k);
  }

  /** The field value is determined up to the two spellings of zero: any other value, and so any other change of a
      single word of a verified string shorter than 128 KiB, is detected. */
  lemma ChecksumDetects(p: seq<Byte>, w: nat, v: int)
    requires w % 2 == 0 && w + 1 < |p| <= 0x2_0000 && 0 <= v < 0x1_0000
    requires ChecksumOf(p) == 0 && WordSum(p) - Word(p[w], p[w + 1]) > 0
    ensures ChecksumOf(Put(p, w, v)) == 0 <==> (v - Word(p[w], p[w + 1])) % 65535 == 0
  {
    hide WordSum, ChecksumOf, Put;
    SumAfterPut(p, w, v);
    ChecksumZero(p);
    ChecksumZero(Put(p, w, v));
    Shifted(WordSum(p), v - Word(p[w], p[w + 1]));
  }

  lemma ChecksumZero(p: seq<Byte>)
    requires |p| <= 0x2_0000
    ensures WordSum(p) < U32_WRAP && (ChecksumOf(p) == 0 <==> Residue(WordSum(p)) == 65535)
  {
    hide WordSum, Residue;
    SumFits(p);
  }

  lemma SumFits(p: seq<Byte>)
    requires |p| <= 0x2_0000
    ensures WordSum(p) + 65535 < U32_WRAP
  {
    hide WordSum;
    SumBound(p);
  }

  lemma Shifted(a: nat, d: int)
    requires 0 < a < U32_WRAP && 0 < a + d < U32_WRAP && Residue(a) == 65535
    ensures Residue(a + d) == 65535 <==> d % 65535 == 0
  {
    AllOnes(a);
    AllOnes(a + d);
    ModPlus(d, a / 65535);
  }

  /** A sum verifies exactly when it is a positive multiple of 65535. */
  lemma AllOnes(v: int)
    requires 0 < v < U32_WRAP
    ensures Residue(v) == 65535 <==> v % 65535 == 0
    ensures v % 65535 == 0 ==> v == 65535 * (v / 65535)
  {
  }

  lemma {:induction false} SumBound(p: seq<Byte>)
    ensures WordSum(p) <= (|p| + 1) / 2 * 65535
  {
    if |p| >= 2 {
      SumBound(p[2..]);
    }
  }

  // ---- The envelope --------------------------------------------------------------------------------

  const CLIENT_PORT := 68
  const SERVER_PORT := 67

  /** Sixteen bits of a length: Go's uint16 conversion. */
  function Low16(n: nat): (v: int)
    ensures 0 <= v < 0x1_0000
  {
    n % 0x1_0000
  }

  /** The IPv4 header without its checksum. */
  function BareHeader(source: Ip, destination: Ip, size: nat): (h: seq<Byte>)
    ensures |h| == 20 && h[10] == 0 && h[11] == 0
  {
    [0x45, 0] + U16(Low16(28 + size)) + [0, 0, 0, 0, 64, 17, 0, 0] + U32(source) + U32(destination)
  }

  /** The IPv4 header with its checksum. */
  function Header(source: Ip, destination: Ip, size: nat): (h: seq<Byte>)
    ensures |h| == 20
  {
    var bare := BareHeader(source, destination, size);
    Put(bare, 10, ChecksumOf(bare))
  }

  /** The UDP header without its optional checksum. */
  function UdpHeader(sourcePort: int, destinationPort: int, size: nat): (h: seq<Byte>)
    requires 0 <= sourcePort < 0x1_0000 && 0 <= destinationPort < 0x1_0000
    ensures |h| == 8 && h[6] == 0 && h[7] == 0
  {
    U16(sourcePort) + U16(destinationPort) + U16(Low16(8 + size)) + [0, 0]
  }

  function Envelope(source: Ip, destination: Ip, sourcePort: int, destinationPort: int, payload: seq<Byte>): seq<Byte>
    requires 0 <= sourcePort < 0x1_0000 && 0 <= destinationPort < 0x1_0000
  {
    Header(source, destination, |payload|) + UdpHeader(sourcePort, destinationPort, |payload|) + payload
  }

  const BROADCAST: Ip := 0xFFFF_FFFF

  method Ipv4Broadcast(payload: seq<Byte>) returns (packet: seq<Byte>)
    ensures packet == Envelope(0, BROADCAST, CLIENT_PORT, SERVER_PORT, payload)
  {
    var p := new Byte[28](_ => 0);
    FillHeader(p, |payload|);
    FillUdpHeader(p, |payload|);
    assert p[..] == p[..20] + p[20..];
    return p[..] + payload;
  }

  lemma BroadcastHeader(size: nat)
    ensures var total := Low16(28 + size);
      BareHeader(0, BROADCAST, size) ==
        [0x45, 0, total / 256, total % 256, 0, 0, 0, 0, 64, 17, 0, 0, 0, 0, 0, 0, 255, 255, 255, 255]
  {
    hide Low16;
  }

  method FillHeader(p: array<Byte>, size: nat)
    requires p.Length == 28 && forall i :: 0 <= i < 28 ==> p[i] == 0
    modifies p
    ensures p[..20] == Header(0, BROADCAST, size)
    ensures forall i :: 20 <= i < 28 ==> p[i] == 0
  {
    hide ChecksumOf, Low16, BareHeader;
    var total := Low16(28 + size);
    p[0] := 0x45;
    p[2], p[3] := total / 256, total % 256;
    p[8], p[9] := 64, 17;
    p[16], p[17], p[18], p[19] := 255, 255, 255, 255;
    BroadcastHeader(size);
    assert p[..20] == BareHeader(0, BROADCAST, size);
    var sum := Checksum(p[..20]);
    p[10], p[11] := sum / 256, sum % 256;
  }

  method FillUdpHeader(p: array<Byte>, size: nat)
    requires p.Length == 28 && forall i :: 20 <= i < 28 ==> p[i] == 0
    modifies p
    ensures p[..20] == old(p[..20]) && p[20..] == UdpHeader(CLIENT_PORT, SERVER_PORT, size)
  {
    hide Low16;
    var length := Low16(8 + size);
    p[20], p[21] := CLIENT_PORT / 256, CLIENT_PORT % 256;
    p[22], p[23] := SERVER_PORT / 256, SERVER_PORT % 256;
    p[24], p[25] := length / 256, length % 256;
  }

  /** A broadcast envelope re-addressed to come from a known source, as a rebinding client sends it. */
  method FromSource(packet: seq<Byte>, source: Ip, ghost payload: seq<Byte>) returns (r: seq<Byte>)
    requires packet == Envelope(0, BROADCAST, CLIENT_PORT, SERVER_PORT, payload)
    ensures r == Envelope(source, BROADCAST, CLIENT_PORT, SERVER_PORT, payload)
  {
    hide Header, UdpHeader;
    var header := new Byte[20](i requires 0 <= i < 20 => packet[i]);
    assert header[..] == packet[..20] == Header(0, BROADCAST, |payload|);
    Readdress(header, source, |payload|);
    assert packet[20..] == UdpHeader(CLIENT_PORT, SERVER_PORT, |payload|) + payload;
    return header[..] + packet[20..];
  }

  method Readdress(p: array<Byte>, source: Ip, ghost size: nat)
    requires p.Length == 20 && p[..] == Header(0, BROADCAST, size)
    modifies p
    ensures p[..] == Header(source, BROADCAST, size)
  {
    hide ChecksumOf, Low16;
    p[12], p[13], p[14], p[15] := source / 0x100_0000, source / 0x1_0000 % 256, source / 256 % 256, source % 256;
    p[10], p[11] := 0, 0;
    assert p[..] == BareHeader(source, BROADCAST, size);
    var sum := Checksum(p[..]);
    p[10], p[11] := sum / 256, sum % 256;
  }

  /** What the UDP checksum covers: addresses, protocol, length and the datagram. */
  function Pseudo(p: seq<Byte>, u: seq<Byte>): seq<Byte>
    requires |p| >= 20 && |u| >= 8
  {
    p[12..20] + [0, 17, u[4], u[5]] + u
  }

  function DhcpPayload(p: seq<Byte>): (r: Option<seq<Byte>>)
  {
    if |p| < 28 || p[0] / 16 != 4 || p[9] != 17 then None
    else
      var h, total := p[0] % 16 * 4, U16At(p[2..4]);
      if h < 20 || total > |p| || total < h + 8 || U16At(p[6..8]) % 0x4000 != 0 || ChecksumOf(p[..h]) != 0 then None
      else
        var u := p[h..total];
        if U16At(u[..2]) != SERVER_PORT || U16At(u[2..4]) != CLIENT_PORT || U16At(u[4..6]) != |u| then None
        else if U16At(u[6..8]) != 0 && ChecksumOf(Pseudo(p, u)) != 0 then None
        else Some(u[8..])
  }

  lemma HeaderVerifies(source: Ip, destination: Ip, size: nat)
    ensures ChecksumOf(Header(source, destination, size)) == 0
  {
    ChecksumVerifies(BareHeader(source, destination, size), 10);
  }

  /** The fields that the receiver reads from a header. */
  lemma HeaderFields(source: Ip, destination: Ip, size: nat)
    ensures var h := Header(source, destination, size);
      h[0] == 0x45 && U16At(h[2..4]) == Low16(28 + size) && U16At(h[6..8]) == 0 && h[9] == 17
  {
    hide ChecksumOf, Low16;
    U16RoundTrip(Low16(28 + size), [0, 0]);
    var h := Header(source, destination, size);
    assert h[2..4] == U16(Low16(28 + size));
    assert h[6..8] == [0, 0];
  }

  lemma UdpFields(sourcePort: int, destinationPort: int, size: nat)
    requires 0 <= sourcePort < 0x1_0000 && 0 <= destinationPort < 0x1_0000
    ensures var u := UdpHeader(sourcePort, destinationPort, size);
      U16At(u[..2]) == sourcePort && U16At(u[2..4]) == destinationPort && U16At(u[4..6]) == Low16(8 + size)
  {
    hide Low16;
    var u := UdpHeader(sourcePort, destinationPort, size);
    assert u[..2] == U16(sourcePort) && u[2..4] == U16(destinationPort) && u[4..6] == U16(Low16(8 + size));
  }

  /** A datagram that may carry a checksum over the pseudo header; a computed zero is sent as all ones
      (RFC 768). */
  function Checksummed(pseudo: seq<Byte>, u: seq<Byte>): (r: seq<Byte>)
    requires |pseudo| == 12 && |u| >= 8 && u[6] == 0 && u[7] == 0
    ensures |r| == |u|
  {
    var c := ChecksumOf(pseudo + u);
    Put(u, 6, if c == 0 then 65535 else c)
  }

  /** A packet from a server, with or without a UDP checksum. */
  function ServerPacket(source: Ip, destination: Ip, payload: seq<Byte>, checksummed: bool): seq<Byte> {
    var header := Header(source, destination, |payload|);
    var u := UdpHeader(SERVER_PORT, CLIENT_PORT, |payload|) + payload;
    header + if checksummed then Checksummed(header[12..] + [0, 17, u[4], u[5]], u) else u
  }

  /** The client recovers exactly the payload of any envelope built like its own with the ports exchanged, whatever
      the addresses - as long as the total length fits the 16-bit field, and never when it does not. */
  lemma RecoversPayload(source: Ip, destination: Ip, payload: seq<Byte>, checksummed: bool)
    ensures DhcpPayload(ServerPacket(source, destination, payload, checksummed)) == Some(payload) <==> |payload| <= 65507
  {
    hide ChecksumOf, Low16, Header, UdpHeader, Checksummed;
    var n := |payload|;
    var p, header := ServerPacket(source, destination, payload, checksummed), Header(source, destination, n);
    assert p[2..4] == header[2..4] && p[6..8] == header[6..8] && p[..20] == header && p[12..20] == header[12..];
    HeaderFields(source, destination, n);
    HeaderVerifies(source, destination, n);
    LowIsIdentity(n);
    if n <= 65507 {
      var u := UdpHeader(SERVER_PORT, CLIENT_PORT, n) + payload;
      UdpFields(SERVER_PORT, CLIENT_PORT, n);
      var pseudo := header[12..] + [0, 17, u[4], u[5]];
      DatagramFields(pseudo, u, payload, checksummed);
      var sent := if checksummed then Checksummed(pseudo, u) else u;
      assert p[20..28 + n] == sent;
      assert Pseudo(p, sent) == pseudo + sent;
    }
  }

  lemma LowIsIdentity(n: nat)
    ensures Low16(28 + n) < 0x1_0000 && (n <= 65507 ==> Low16(28 + n) == 28 + n && Low16(8 + n) == 8 + n)
  {
  }

  /** The optional checksum leaves ports, length and payload alone, and verifies when it is not zero. */
  lemma DatagramFields(pseudo: seq<Byte>, u: seq<Byte>, payload: seq<Byte>, checksummed: bool)
    requires |pseudo| == 12 && |payload| <= 65507 && |u| == 8 + |payload| && u[6] == 0 && u[7] == 0 && u[8..] == payload
    ensures var sent := if checksummed then Checksummed(pseudo, u) else u;
      && |sent| == |u| && sent[..2] == u[..2] && sent[2..4] == u[2..4] && sent[4..6] == u[4..6] && sent[8..] == payload
      && sent[4] == u[4] && sent[5] == u[5]
      && (U16At(sent[6..8]) != 0 ==> ChecksumOf(pseudo + sent) == 0)
  {
    if checksummed {
      var sent, all := Checksummed(pseudo, u), pseudo + u;
      var c := ChecksumOf(all);
      assert pseudo + sent == Put(all, 18, if c == 0 then 65535 else c);
      ChecksumVerifies(all, 18);
      if c == 0 {
        assert Put(all, 18, 0) == all;
        ZeroOrOnes(all);
      }
    } else {
      assert U16At(u[6..8]) == 0;
    }
  }

  /** All ones spells zero: replacing a zero word by all ones keeps a verified string verified. */
  lemma ZeroOrOnes(all: seq<Byte>)
    requires 20 <= |all| <= 0x2_0000 && all[18] == 0 && all[19] == 0 && ChecksumOf(all) == 0
    ensures ChecksumOf(Put(all, 18, 65535)) == 0
  {
    SumAfterPut(all, 18, 65535);
    SumFits(all);
    AllOnes(WordSum(all));
    AllOnes(WordSum(all) + 65535);
  }
}
