/**
 * The peer handshake of src/peer.c (construct_handshake_packet), the 68-byte
 * layout of the "peer protocol" section of BEP 3: the protocol name's length,
 * the name, eight reserved zero bytes, the torrent's 20-byte info hash and the
 * client's 20-byte peer id.
 */
module Handshake {
  import opened CText

  /** PACKET_LENGTH */
  const PACKET_LENGTH: nat := 68
  /** protocolLength, the length of PROTOCOL_STRING */
  const PROTOCOL_LENGTH: byte := 19
  const HASH_OFFSET: nat := 28
  const PEER_ID_OFFSET: nat := 48
  const HASH_LENGTH: nat := 20

  /** PROTOCOL_STRING */
  const Protocol: seq<byte> := Ascii("BitTorrent protocol")
  /** PEER_ID */
  const PeerId: seq<byte> := Ascii("00112233445566778899")

  /** The handshake for an info hash, field by field. */
  function HandshakePacket(infoHash: seq<byte>): seq<byte>
    requires |infoHash| == HASH_LENGTH
  {
    [PROTOCOL_LENGTH] + Protocol + Zeros(8) + infoHash + PeerId
  }

  /** The info hash a handshake carries: bytes 28 to 47. */
  function InfoHashOf(packet: seq<byte>): seq<byte>
    requires |packet| == PACKET_LENGTH
  {
    packet[HASH_OFFSET .. PEER_ID_OFFSET]
  }

  /** The two halves of a concatenation. */
  lemma Halves(a: seq<byte>, b: seq<byte>)
    ensures (a + b)[..|a|] == a && (a + b)[|a|..] == b
  {
  }

  /** The packet is 68 bytes, laid out at the offsets BEP 3 gives: the
      protocol length at 0, PROTOCOL_STRING at 1, eight zero bytes at 20, the
      info hash at 28 and PEER_ID at 48. */
  lemma HandshakeLayout(infoHash: seq<byte>)
    requires |infoHash| == HASH_LENGTH
    ensures var p := HandshakePacket(infoHash);
      && |p| == PACKET_LENGTH
      && p[0] == PROTOCOL_LENGTH
      && p[1 .. 20] == Protocol
      && p[20 .. 28] == Zeros(8)
      && p[28 .. 48] == infoHash
      && p[48 .. 68] == PeerId
  {
    var a := [PROTOCOL_LENGTH] + Protocol;
    var b := a + Zeros(8);
    var c := b + infoHash;
    var p := c + PeerId;
    Halves(c, PeerId);
    Halves(b, infoHash);
    Halves(a, Zeros(8));
    Halves([PROTOCOL_LENGTH], Protocol);
    assert p[28 .. 48] == c[28 ..];
    assert p[20 .. 28] == b[20 ..];
    assert p[1 .. 20] == a[1 ..];
  }

  /** Reading the info hash back out of a handshake gives the one put in. */
  lemma InfoHashOfHandshake(infoHash: seq<byte>)
    requires |infoHash| == HASH_LENGTH
    ensures |HandshakePacket(infoHash)| == PACKET_LENGTH
    ensures InfoHashOf(HandshakePacket(infoHash)) == infoHash
  {
    HandshakeLayout(infoHash);
  }

  /** Handshakes for two info hashes agree everywhere outside bytes 28 to 47,
      and are equal exactly when the hashes are. */
  lemma HandshakesDifferOnlyInHash(h1: seq<byte>, h2: seq<byte>)
    requires |h1| == HASH_LENGTH && |h2| == HASH_LENGTH
    ensures |HandshakePacket(h1)| == |HandshakePacket(h2)| == PACKET_LENGTH
    ensures forall k | 0 <= k < PACKET_LENGTH && !(HASH_OFFSET <= k < PEER_ID_OFFSET) ::
              HandshakePacket(h1)[k] == HandshakePacket(h2)[k]
    ensures HandshakePacket(h1) == HandshakePacket(h2) <==> h1 == h2
  {
    HandshakeLayout(h1);
    HandshakeLayout(h2);
    var p1, p2 := HandshakePacket(h1), HandshakePacket(h2);
    forall k | 0 <= k < PACKET_LENGTH && !(HASH_OFFSET <= k < PEER_ID_OFFSET)
      ensures p1[k] == p2[k]
    {
      if k == 0 {
      } else if k < 20 {
        assert p1[k] == p1[1 .. 20][k - 1] && p2[k] == p2[1 .. 20][k - 1];
      } else if k < 28 {
      } else {
        assert p1[k] == p1[48 .. 68][k - 48] && p2[k] == p2[48 .. 68][k - 48];
      }
    }
    if p1 == p2 {
      InfoHashOfHandshake(h1);
      InfoHashOfHandshake(h2);
    }
  }

  /** memset(dst, b, n). */
  method MemSet(dst: array<byte>, b: byte, n: nat)
    requires n <= dst.Length
    modifies dst
    ensures forall k | 0 <= k < dst.Length :: dst[k] == if k < n then b else old(dst[k])
  {
    for i := 0 to n
      invariant forall k | 0 <= k < dst.Length :: dst[k] == if k < i then b else old(dst[k])
    {
      dst[i] := b;
    }
  }

  /** memcpy(&dst[at], src, |src|). */
  method MemCopy(dst: array<byte>, at: nat, src: seq<byte>)
    requires at + |src| <= dst.Length
    modifies dst
    ensures forall k | 0 <= k < dst.Length ::
              dst[k] == if at <= k < at + |src| then src[k - at] else old(dst[k])
  {
    for i := 0 to |src|
      invariant forall k | 0 <= k < dst.Length ::
                  dst[k] == if at <= k < at + i then src[k - at] else old(dst[k])
    {
      dst[at + i] := src[i];
    }
  }

  /**
   * construct_handshake_packet: zero the first 68 bytes of the caller's buffer,
   * then write the protocol length at 0, the name at 1, the first 20 bytes of
   * the info hash at 28 and the peer id at 48.  Bytes past 68 are untouched.
   */
  method ConstructHandshakePacket(packet: array<byte>, infoHash: seq<byte>)
    requires PACKET_LENGTH <= packet.Length && HASH_LENGTH <= |infoHash|
    modifies packet
    ensures packet[..PACKET_LENGTH] == HandshakePacket(infoHash[..HASH_LENGTH])
    ensures packet[PACKET_LENGTH..] == old(packet[PACKET_LENGTH..])
  {
    MemSet(packet, 0, PACKET_LENGTH);
    packet[0] := PROTOCOL_LENGTH;
    MemCopy(packet, 1, Protocol[..PROTOCOL_LENGTH]);
    MemCopy(packet, HASH_OFFSET, infoHash[..HASH_LENGTH]);
    MemCopy(packet, PEER_ID_OFFSET, PeerId[..HASH_LENGTH]);
    var expected := HandshakePacket(infoHash[..HASH_LENGTH]);
    HandshakeLayout(infoHash[..HASH_LENGTH]);
    forall k | 0 <= k < PACKET_LENGTH
      ensures packet[k] == expected[k]
    {
      if k == 0 {
      } else if k < 20 {
        assert expected[k] == expected[1 .. 20][k - 1];
      } else if k < 28 {
      } else if k < 48 {
        assert expected[k] == expected[28 .. 48][k - 28];
      } else {
        assert expected[k] == expected[48 .. 68][k - 48];
      }
    }
  }
}
