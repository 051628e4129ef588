/**
 * The packed L3 header `struct L3_hdr`: ttl, protocol, packet_id, src, dst,
 * with no padding, so 14 bytes that start every L3 frame. The multi-byte
 * fields are stored in host order (little-endian here) without conversion.
 */
module Header {
  import opened Fish

  /** sizeof(struct L3_hdr) */
  const HEADER_LEN: nat := 14

  datatype L3Header = L3Header(ttl: u8, protocol: u8, packetId: u32, src: Addr, dst: Addr)

  /** The bytes a header occupies at the front of a frame. */
  function Encode(h: L3Header): (r: seq<u8>)
    ensures |r| == HEADER_LEN
    ensures r[0] == h.ttl && r[1] == h.protocol
    ensures r[2..6] == Le32(h.packetId) && r[6..10] == Le32(h.src) && r[10..14] == Le32(h.dst)
  {
    [h.ttl, h.protocol] + Le32(h.packetId) + Le32(h.src) + Le32(h.dst)
  }

  /** The header seen through a `struct L3_hdr *` cast of the frame's first bytes. */
  function HeaderOf(frame: seq<u8>): (r: L3Header)
    requires |frame| >= HEADER_LEN
    ensures Encode(r) == frame[..HEADER_LEN]
  {
    FromLe32RoundTrip(frame[2..6]);
    FromLe32RoundTrip(frame[6..10]);
    FromLe32RoundTrip(frame[10..14]);
    var r := L3Header(frame[0], frame[1], FromLe32(frame[2..6]), FromLe32(frame[6..10]), FromLe32(frame[10..14]));
    assert Encode(r)[..2] == frame[..2];
    r
  }

  /** Decoding an encoded header gives back every field; the payload follows untouched. */
  lemma DecodeEncode(h: L3Header, payload: seq<u8>)
    ensures |Encode(h) + payload| == HEADER_LEN + |payload|
    ensures HeaderOf(Encode(h) + payload) == h
    ensures (Encode(h) + payload)[HEADER_LEN..] == payload
  {
    var f := Encode(h) + payload;
    assert f[2..6] == Le32(h.packetId) && f[6..10] == Le32(h.src) && f[10..14] == Le32(h.dst);
    Le32RoundTrip(h.packetId);
    Le32RoundTrip(h.src);
    Le32RoundTrip(h.dst);
  }

  /** Every frame of at least 14 bytes is its decoded header re-encoded, followed by its payload. */
  lemma EncodeDecode(frame: seq<u8>)
    requires |frame| >= HEADER_LEN
    ensures Encode(HeaderOf(frame)) + frame[HEADER_LEN..] == frame
  {
    var e := Encode(HeaderOf(frame));
    FromLe32RoundTrip(frame[2..6]);
    FromLe32RoundTrip(frame[6..10]);
    FromLe32RoundTrip(frame[10..14]);
    assert e[..2] == frame[..2];
    assert e == frame[..HEADER_LEN];
  }

  /**
   * The duplicate-suppression key of a header. The table stores a 16-bit
   * packet id while the header carries 32 bits, so the id is cut to its low
   * 16 bits when it is passed to the table.
   */
  function SuppressionKey(h: L3Header): (k: (Addr, u16))
    ensures Le32(k.0) == Encode(h)[6..10]
    ensures [k.1 % 0x100, k.1 / 0x100] == Encode(h)[2..4]
  {
    var id := h.packetId % 0x1_0000;
    var q := h.packetId / 0x1_0000;
    ByteDivMod(h.packetId, id % 0x100, 0x100 * q + id / 0x100);
    ByteDivMod(h.packetId / 0x100, id / 0x100, q);
    assert Encode(h)[2..4] == Le32(h.packetId)[..2];
    (h.src, id)
  }

  /** Headers whose ids differ only above bit 15 share one suppression key. */
  lemma KeyIgnoresHighIdBits(h: L3Header, id: u32)
    requires id % 0x1_0000 == h.packetId % 0x1_0000
    ensures SuppressionKey(h.(packetId := id)) == SuppressionKey(h)
  {
  }

  /** Two distinct 32-bit ids, 0x00010007 and 0x00000007, collide. */
  lemma KeyCollisionExample(src: Addr)
    ensures var a := L3Header(5, 0, 0x0001_0007, src, ALL_NEIGHBORS);
            var b := a.(packetId := 0x0000_0007);
            a.packetId != b.packetId && SuppressionKey(a) == SuppressionKey(b)
  {
  }
}
