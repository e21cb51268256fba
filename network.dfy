/**
 * The probe transport of `network.c`: the 20-byte TCP header that
 * `send_tcp_packet` builds and checksums over the pseudo-header of section
 * 3.1 of RFC 793, and the reply selection of `receive_tcp_response`.
 *
 * The header is laid out as the Linux `struct tcphdr` on a little-endian
 * host: ports, sequence numbers and the window in network order, the data
 * offset in the high nibble of byte 12, the six control bits FIN, SYN, RST,
 * PSH, ACK, URG as bits 0 to 5 of byte 13, and the checksum stored as the
 * `unsigned short` the checksum routine returns, in host order.
 */
module Network {
  import opened Bytes
  import opened Wrappers
  import opened Bits
  import Checksum

  /** The flag masks of the caller-supplied `flags` argument. */
  const FinFlag: nat := 0x01
  const SynFlag: nat := 0x02
  const RstFlag: nat := 0x04
  const PshFlag: nat := 0x08
  const AckFlag: nat := 0x10
  const UrgFlag: nat := 0x20

  /** The bit positions of those masks: each mask is 2 to the power of its position. */
  const FinBit: nat := 0
  const SynBit: nat := 1
  const RstBit: nat := 2
  const PshBit: nat := 3
  const AckBit: nat := 4
  const UrgBit: nat := 5
  /** ECE and CWR, the two high bits of byte 13, which the probe never sets. */
  const EceBit: nat := 6
  const CwrBit: nat := 7

  /** The fixed source port of every probe. */
  const SourcePort: u16 := 12345
  /** The advertised window of every probe. */
  const ProbeWindow: u16 := 5840
  /** Data offset in 32-bit words: a bare header without options. */
  const DataOffset: nat := 5
  /** `sizeof(struct tcphdr)`: the number of bytes sent. */
  const TcpHeaderLen: nat := 20
  /** `IPPROTO_TCP`, the protocol byte of the pseudo-header. */
  const ProtocolTcp: byte := 6
  /** The size of the packet and receive buffers. */
  const PacketBufferLen: nat := 4096
  /** Offset of the checksum field within the TCP header. */
  const CheckOffset: nat := 16

  /** An IPv4 address as its four octets in network order (what `inet_addr` yields). */
  type Addr = s: seq<byte> | |s| == 4 witness [0, 0, 0, 0]

  /** Byte 13 of the header: the six control bits, each set iff its mask bit is set in flags. */
  function FlagByte(flags: int): byte
  {
    BitValue(HasBit(flags, FinBit)) + 2 * BitValue(HasBit(flags, SynBit))
    + 4 * BitValue(HasBit(flags, RstBit)) + 8 * BitValue(HasBit(flags, PshBit))
    + 16 * BitValue(HasBit(flags, AckBit)) + 32 * BitValue(HasBit(flags, UrgBit))
  }

  /** The six control bits `send_tcp_packet` copies from `flags`, FIN first. */
  function ControlFlags(flags: int): (c: seq<bool>)
    ensures |c| == 6
  {
    [HasBit(flags, FinBit), HasBit(flags, SynBit), HasBit(flags, RstBit),
     HasBit(flags, PshBit), HasBit(flags, AckBit), HasBit(flags, UrgBit)]
  }

  /** Byte 13 is the number whose binary digits are the six control bits. */
  lemma FlagByteDigits(flags: int)
    ensures FlagByte(flags) == FromBits(ControlFlags(flags))
  {
    var c := ControlFlags(flags);
    assert FromBits(c[6..]) == 0;
    assert FromBits(c[5..]) == BitValue(c[5]) + 2 * FromBits(c[6..]) by { assert c[5..][1..] == c[6..]; }
    assert FromBits(c[4..]) == BitValue(c[4]) + 2 * FromBits(c[5..]) by { assert c[4..][1..] == c[5..]; }
    assert FromBits(c[3..]) == BitValue(c[3]) + 2 * FromBits(c[4..]) by { assert c[3..][1..] == c[4..]; }
    assert FromBits(c[2..]) == BitValue(c[2]) + 2 * FromBits(c[3..]) by { assert c[2..][1..] == c[3..]; }
    assert FromBits(c[1..]) == BitValue(c[1]) + 2 * FromBits(c[2..]) by { assert c[1..][1..] == c[2..]; }
  }

  /**
   * The wire flag byte is `flags & 0x3F`: bits 0 to 5 are those of
   * `flags`, whatever its sign, and every higher bit is clear.
   */
  lemma FlagByteIsLowBits(flags: int, k: nat)
    ensures HasBit(FlagByte(flags), k) == (k <= UrgBit && HasBit(flags, k))
  {
    FlagByteDigits(flags);
    FromBitsHasBits(ControlFlags(flags), k);
  }

  /**
   * The 20 header bytes for destination port `port`, control bits from
   * `flags` and checksum field `check`; everything else is zero.
   */
  function TcpHeader(port: int, flags: int, check: u16): (h: seq<byte>)
    ensures |h| == TcpHeaderLen
  {
    var p := port % 0x1_0000;
    [ SourcePort / 0x100, SourcePort % 0x100,    // source port, network order
      p / 0x100, p % 0x100,                      // destination port, network order
      0, 0, 0, 0,                                // sequence number
      0, 0, 0, 0,                                // acknowledgment number
      DataOffset * 16,                           // data offset 5, reserved bits 0
      FlagByte(flags),                           // FIN SYN RST PSH ACK URG
      ProbeWindow / 0x100, ProbeWindow % 0x100,  // window, network order
      check % 0x100, check / 0x100,              // checksum, host order
      0, 0 ]                                     // urgent pointer
  }

  /** The 12-byte pseudo-header: source, destination, zero, protocol 6, TCP length 20. */
  function PseudoHeader(src: Addr, dst: Addr): (p: seq<byte>)
    ensures |p| == 12
  {
    src + dst + [0, ProtocolTcp] + BigEndian16(TcpHeaderLen)
  }

  /** The checksum `send_tcp_packet` stores: over the pseudo-header and the header with a zero checksum field. */
  function ProbeChecksum(src: Addr, dst: Addr, port: int, flags: int): u16
  {
    Checksum.InternetChecksum(PseudoHeader(src, dst) + TcpHeader(port, flags, 0))
  }

  /** The segment a probe puts on the wire. */
  function ProbeSegment(src: Addr, dst: Addr, port: int, flags: int): seq<byte>
  {
    TcpHeader(port, flags, ProbeChecksum(src, dst, port, flags))
  }

  /** The fields of a TCP header, as `struct tcphdr` exposes them. */
  datatype TcpFields = TcpFields(
    source: u16, dest: u16, seqNum: nat, ackSeq: nat, doff: nat, res1: nat,
    fin: bool, syn: bool, rst: bool, psh: bool, ack: bool, urg: bool, ece: bool, cwr: bool,
    window: u16, check: u16, urgPtr: u16)

  function BigEndian32At(h: seq<byte>, i: nat): nat
    requires i + 3 < |h|
  {
    BigEndian16At(h, i) * 0x1_0000 + BigEndian16At(h, i + 2)
  }

  /** Reads the fields of a header through the same layout the probe is written in. */
  function ParseTcpHeader(h: seq<byte>): TcpFields
    requires |h| >= TcpHeaderLen
  {
    TcpFields(
      BigEndian16At(h, 0), BigEndian16At(h, 2),
      BigEndian32At(h, 4), BigEndian32At(h, 8),
      h[12] / 16, h[12] % 16,
      HasBit(h[13], FinBit), HasBit(h[13], SynBit), HasBit(h[13], RstBit),
      HasBit(h[13], PshBit), HasBit(h[13], AckBit), HasBit(h[13], UrgBit),
      HasBit(h[13], EceBit), HasBit(h[13], CwrBit),
      BigEndian16At(h, 14), LittleEndian16At(h, 16), BigEndian16At(h, 18))
  }

  /**
   * Every fixed field of the probe: source port 12345, destination `port`
   * (truncated to 16 bits by `htons`), seq = ack = 0, data offset 5, window
   * 5840, urgent pointer 0, and each of FIN, SYN, RST, PSH, ACK, URG set iff
   * its mask bit is set in `flags`, with ECE and CWR clear.
   */
  lemma ProbeFields(src: Addr, dst: Addr, port: int, flags: int)
    ensures var h := ProbeSegment(src, dst, port, flags);
            |h| == TcpHeaderLen &&
            ParseTcpHeader(h) == TcpFields(
              SourcePort, port % 0x1_0000, 0, 0, DataOffset, 0,
              HasBit(flags, FinBit), HasBit(flags, SynBit), HasBit(flags, RstBit),
              HasBit(flags, PshBit), HasBit(flags, AckBit), HasBit(flags, UrgBit),
              false, false,
              ProbeWindow, ProbeChecksum(src, dst, port, flags), 0)
  {
    var h := ProbeSegment(src, dst, port, flags);
    FlagByteIsLowBits(flags, FinBit);
    FlagByteIsLowBits(flags, SynBit);
    FlagByteIsLowBits(flags, RstBit);
    FlagByteIsLowBits(flags, PshBit);
    FlagByteIsLowBits(flags, AckBit);
    FlagByteIsLowBits(flags, UrgBit);
    FlagByteIsLowBits(flags, EceBit);
    FlagByteIsLowBits(flags, CwrBit);
  }

  /** The finished header verifies: the checksum over pseudo-header plus header is 0. */
  lemma ProbeChecksumVerifies(src: Addr, dst: Addr, port: int, flags: int)
    ensures Checksum.InternetChecksum(PseudoHeader(src, dst) + ProbeSegment(src, dst, port, flags)) == 0
  {
    var b: seq<byte> := PseudoHeader(src, dst) + TcpHeader(port, flags, 0);
    var c := ProbeChecksum(src, dst, port, flags);
    var k: nat := 12 + CheckOffset;
    var lo: byte, hi: byte := c % 0x100, c / 0x100;
    Checksum.ChecksumVerifies(b, k);
    var stored: seq<byte> := b[k := lo][k + 1 := hi];
    assert stored == PseudoHeader(src, dst) + ProbeSegment(src, dst, port, flags);
  }

  /**
   * Step 2 of `send_tcp_packet`: write the header fields into a cleared
   * packet buffer in place, the checksum field still zero.
   */
  method FillTcpHeader(packet: array<byte>, port: int, flags: int)
    requires packet.Length == PacketBufferLen
    requires forall i :: 0 <= i < packet.Length ==> packet[i] == 0
    modifies packet
    ensures packet[..TcpHeaderLen] == TcpHeader(port, flags, 0)
    ensures forall i :: TcpHeaderLen <= i < packet.Length ==> packet[i] == 0
  {
    var p := port % 0x1_0000;
    packet[0], packet[1] := SourcePort / 0x100, SourcePort % 0x100;
    packet[2], packet[3] := p / 0x100, p % 0x100;
    // seq and ack_seq stay zero
    packet[12] := DataOffset * 16;
    var fin := BitValue(HasBit(flags, FinBit));
    var syn := BitValue(HasBit(flags, SynBit));
    var rst := BitValue(HasBit(flags, RstBit));
    var psh := BitValue(HasBit(flags, PshBit));
    var ack := BitValue(HasBit(flags, AckBit));
    var urg := BitValue(HasBit(flags, UrgBit));
    packet[13] := fin + 2 * syn + 4 * rst + 8 * psh + 16 * ack + 32 * urg;
    assert packet[13] == FlagByte(flags);
    packet[14], packet[15] := ProbeWindow / 0x100, ProbeWindow % 0x100;
    // check and urg_ptr are set to zero, which the cleared buffer already holds
    ghost var header := TcpHeader(port, flags, 0);
    assert forall i | 0 <= i < TcpHeaderLen :: packet[i] == header[i];
  }

  /**
   * `send_tcp_packet` without the socket: clear a 4096-byte packet buffer,
   * fill the header in place, checksum the pseudo-header followed by the
   * header, store the checksum and send the first 20 bytes. The local source
   * address is a parameter.
   */
  method SendTcpPacket(src: Addr, dst: Addr, port: int, flags: int) returns (sent: seq<byte>)
    ensures sent == ProbeSegment(src, dst, port, flags)
    ensures |sent| == TcpHeaderLen
    ensures Checksum.InternetChecksum(PseudoHeader(src, dst) + sent) == 0
  {
    var packet := new byte[PacketBufferLen](_ => 0);
    FillTcpHeader(packet, port, flags);
    var pseudogram := PseudoHeader(src, dst) + packet[..TcpHeaderLen];
    var check := Checksum.CalculateChecksum(pseudogram);
    packet[CheckOffset], packet[CheckOffset + 1] := check % 0x100, check / 0x100;
    sent := packet[..TcpHeaderLen];
    assert sent == TcpHeader(port, flags, check);
    ProbeChecksumVerifies(src, dst, port, flags);
  }

  /** The bytes `recvfrom` puts in the receive buffer: a whole IPv4 packet, at most the buffer's size. */
  type IpBytes = s: seq<byte> | 20 <= |s| <= PacketBufferLen witness seq(20, _ => 0)

  /** One datagram as the raw socket delivers it: its network-layer source and its bytes. */
  datatype Datagram = Datagram(source: Addr, bytes: IpBytes)

  /** What `receive_tcp_response` hands back: the receive buffer and where the TCP header starts in it. */
  datatype Reply = Reply(packet: IpBytes, tcpOffset: nat)

  /** The IHL field: the low nibble of the first IPv4 header byte, in 32-bit words (section 3.1 of RFC 791). */
  function Ihl(p: IpBytes): nat
  {
    p[0] % 16
  }

  /**
   * `receive_tcp_response` over the datagrams received until one `recvfrom`
   * waits two seconds without data, in arrival order (the end of the sequence
   * is that `recvfrom` failing or timing out); `socketOk` is whether the raw socket could be created. Datagrams
   * from other sources are skipped; the first from the target is returned,
   * its TCP header at offset `ihl*4`; with none, or no socket, there is no reply.
   */
  method ReceiveTcpResponse(target: Addr, socketOk: bool, arrivals: seq<Datagram>) returns (r: Option<Reply>)
    ensures r.None? <==> !socketOk || forall i :: 0 <= i < |arrivals| ==> arrivals[i].source != target
    ensures r.Some? ==> exists k :: 0 <= k < |arrivals| && arrivals[k].source == target
                          && (forall j :: 0 <= j < k ==> arrivals[j].source != target)
                          && r.value == Reply(arrivals[k].bytes, Ihl(arrivals[k].bytes) * 4)
  {
    if !socketOk {
      return None;
    }
    var i := 0;
    while i < |arrivals|
      invariant 0 <= i <= |arrivals|
      invariant forall j :: 0 <= j < i ==> arrivals[j].source != target
    {
      var d := arrivals[i];
      if d.source == target {
        var ipHeaderLen := Ihl(d.bytes) * 4;
        return Some(Reply(d.bytes, ipHeaderLen));
      }
      i := i + 1;
    }
    return None;
  }
}
