/** The capture side (tcp_proxy.cpp): finding the TCP payload in a captured packet, and the payload queue. */
module Capture {
  import opened Bytes

  datatype LinkType = Ethernet | Loopback | Cooked | OtherLink

  function LinkHeaderBytes(link: LinkType): Option<nat> {
    match link
    case Ethernet => Some(14)
    case Loopback => Some(4)
    case Cooked => Some(16)
    case OtherLink => None
  }

  /** Header fields are read without checking the captured length; `beyond` is what stands in memory
      past the captured bytes. */
  function ByteAt(packet: seq<byte>, beyond: nat -> byte, i: nat): byte {
    if i < |packet| then packet[i] else beyond(i)
  }

  function IpHeaderBytes(first: byte): nat {
    if first / 16 == 4 then first % 16 * 4 else 40
  }

  /** Where the TCP payload begins when the IP header begins at `ip`. */
  function PayloadOffset(packet: seq<byte>, beyond: nat -> byte, ip: nat): nat {
    var tcp := ip + IpHeaderBytes(ByteAt(packet, beyond, ip));
    tcp + ByteAt(packet, beyond, tcp + 12) / 16 * 4
  }

  /** What one captured packet adds to the payload queue. */
  function Extracted(link: LinkType, packet: seq<byte>, beyond: nat -> byte): seq<seq<byte>> {
    match LinkHeaderBytes(link)
    case None => []
    case Some(ip) =>
      var start := PayloadOffset(packet, beyond, ip);
      if start < |packet| then [packet[start..]] else []
  }

  class TcpProxy {
    var payloadQueue: seq<seq<byte>>

    constructor ()
      ensures payloadQueue == []
    {
      payloadQueue := [];
    }

    /** The packet's captured length is the length of `packet`. */
    method PacketHandler(link: LinkType, packet: seq<byte>, beyond: nat -> byte)
      modifies this
      ensures payloadQueue == old(payloadQueue) + Extracted(link, packet, beyond)
    {
      var offset: nat;
      if link == Ethernet {
        offset := 14;
      } else if link == Loopback {
        offset := 4;
      } else if link == Cooked {
        offset := 16;
      } else {
        return;
      }
      var first := ByteAt(packet, beyond, offset);
      var ipHeaderLen := if first / 16 == 4 then first % 16 * 4 else 40;
      var tcpHeaderLen := ByteAt(packet, beyond, offset + ipHeaderLen + 12) / 16 * 4;
      var payloadOffset := offset + ipHeaderLen + tcpHeaderLen;
      var payloadLen := |packet| - payloadOffset;
      if payloadLen > 0 {
        assert packet[payloadOffset..payloadOffset + payloadLen] == packet[payloadOffset..];
        payloadQueue := payloadQueue + [packet[payloadOffset..payloadOffset + payloadLen]];
      }
    }

    /** Takes the oldest payload and copies at most `maxBytes` of it; what does not fit is gone. */
    method ReceiveData(buffer: array<byte>, maxBytes: nat) returns (n: nat)
      requires maxBytes <= buffer.Length
      modifies this, buffer
      ensures old(payloadQueue) == [] ==> n == 0 && payloadQueue == [] && buffer[..] == old(buffer[..])
      ensures old(payloadQueue) != [] ==>
        && payloadQueue == old(payloadQueue)[1..]
        && n == (if |old(payloadQueue)[0]| < maxBytes then |old(payloadQueue)[0]| else maxBytes)
        && buffer[..n] == old(payloadQueue)[0][..n] == Clipped(old(payloadQueue)[0], maxBytes)
        && buffer[n..] == old(buffer[..])[n..]
    {
      if payloadQueue == [] {
        return 0;
      }
      var payload := payloadQueue[0];
      payloadQueue := payloadQueue[1..];
      n := if |payload| < maxBytes then |payload| else maxBytes;
      forall i | 0 <= i < n {
        buffer[i] := payload[i];
      }
      assert buffer[..n] == payload[..n];
    }
  }

  /** As much of the front of a payload as fits. */
  function Clipped(payload: seq<byte>, maxBytes: nat): seq<byte> {
    if |payload| < maxBytes then payload else payload[..maxBytes]
  }

  /** A link-layer header: destination, source and type for Ethernet, an address family for loopback, the
      pseudo-header of a cooked capture. */
  ghost predicate IsLinkHeader(link: LinkType, header: seq<byte>) {
    match link
    case Ethernet => |header| == 6 + 6 + 2
    case Loopback => |header| == 4
    case Cooked => |header| == 16
    case OtherLink => false
  }

  /** An IPv4 header of any length RFC 791 section 3.1 allows, or a bare header of 40 bytes for every other
      version. */
  ghost predicate IsIpHeader(ip: seq<byte>) {
    || (|ip| >= 20 && ip[0] / 16 == 4 && |ip| == 4 * (ip[0] % 16))
    || (|ip| == 40 && ip[0] / 16 != 4)
  }

  /** A TCP header of any length RFC 9293 section 3.1 allows. */
  ghost predicate IsTcpHeader(tcp: seq<byte>) {
    |tcp| >= 20 && |tcp| == 4 * (tcp[12] / 16)
  }

  /** Taking a packet apart undoes building it, except that link-layer padding counts as payload: the
      queue receives exactly the payload if and only if the frame carries no padding. */
  lemma ExtractionInvertsBuilding(link: LinkType, linkHeader: seq<byte>, ip: seq<byte>, tcp: seq<byte>,
                                  payload: seq<byte>, padding: seq<byte>, beyond: nat -> byte)
    requires IsLinkHeader(link, linkHeader) && IsIpHeader(ip) && IsTcpHeader(tcp)
    ensures var got := Extracted(link, linkHeader + ip + tcp + payload + padding, beyond);
      && got == (if payload + padding == [] then [] else [payload + padding])
      && (got == (if payload == [] then [] else [payload]) <==> padding == [])
  {
    var packet := linkHeader + ip + tcp + payload + padding;
    CapturedPart(link, linkHeader, ip, tcp, payload + padding, beyond, |packet|);
    assert packet == linkHeader + ip + tcp + (payload + padding);
    assert (payload + padding)[..|payload + padding|] == payload + padding;
    assert |payload + padding| == |payload| <==> padding == [];
    assert padding == [] ==> payload + padding == payload;
    if payload + padding != [] {
      assert [payload + padding][0] == payload + padding;
    }
  }

  /** A packet of which only the first n bytes were captured, the length of its TCP header among them, queues
      what was captured of its payload. */
  lemma CapturedPart(link: LinkType, linkHeader: seq<byte>, ip: seq<byte>, tcp: seq<byte>, payload: seq<byte>,
                     beyond: nat -> byte, n: nat)
    requires IsLinkHeader(link, linkHeader) && IsIpHeader(ip) && IsTcpHeader(tcp)
    requires |linkHeader + ip| + 12 < n <= |linkHeader + ip + tcp + payload|
    ensures var headers := |linkHeader + ip + tcp|;
      Extracted(link, (linkHeader + ip + tcp + payload)[..n], beyond)
      == if n <= headers then [] else [payload[..n - headers]]
  {
    var whole := linkHeader + ip + tcp + payload;
    var at, after := |linkHeader|, |linkHeader| + |ip|;
    assert whole[at] == ip[0];
    assert whole[after + 12] == tcp[12];
    if n > after + |tcp| {
      TakeBehind(linkHeader + ip + tcp, payload, n);
    }
  }

  lemma TakeBehind(a: seq<byte>, b: seq<byte>, n: nat)
    requires |a| <= n <= |a + b|
    ensures (a + b)[..n][|a|..] == b[..n - |a|]
  {
  }

  /** Any other link type queues nothing, whatever the packet. */
  lemma OtherLinkQueuesNothing(packet: seq<byte>, beyond: nat -> byte)
    ensures Extracted(OtherLink, packet, beyond) == []
  {
  }
}
