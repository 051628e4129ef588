/**
 * The network-layer engine of a fishnode: receive classifies each inbound
 * frame, send encapsulates a local payload, forward applies the TTL and
 * routing policy. Every call the engine makes to a collaborator (upper-layer
 * delivery, the installed forward routine, link-layer send, FCMP error
 * reporting) is returned as an effect, in the order the engine makes it.
 *
 * The node's own address, the clock and the forwarding table's longest-prefix
 * lookup are parameters.
 */
module L3 {
  import opened Fish
  import opened Header
  import opened Suppression

  /** The link-layer protocol tag under which L3 frames are handed to L2. */
  const L2_PROTO_L3: u8 := 1

  /** The two FCMP errors the forward path reports. */
  datatype FcmpError = TtlExpired | NoRoute {
    /** The error code given to send_fcmp_response. */
    function Code(): (r: int) {
      if TtlExpired? then 1 else 2
    }
  }

  /** A call to a collaborator; frame lengths are the lengths of the sequences. */
  datatype Effect =
    | L4Receive(payload: seq<u8>, protocol: u8, src: Addr)  // fish_l4.fish_l4_receive
    | L3Forward(frame: seq<u8>)                              // fish_l3.fish_l3_forward
    | L2Send(frame: seq<u8>, nextHop: Addr, l2Proto: u8)     // fish_l2.fish_l2_send
    | FcmpResponse(frame: seq<u8>, error: FcmpError)         // fish_fcmp.send_fcmp_response

  // ---------------------------------------------------------------------------
  // Forward

  /**
   * The next hop my_fish_l3_forward settles on: the table's answer, overridden
   * by the broadcast address for a broadcast and then by the node itself for a
   * local destination. `lpm` is longest_prefix_match, which answers 0 when no
   * route matches.
   */
  function NextHop(dst: Addr, own: Addr, lpm: Addr -> Addr): (r: Addr)
    ensures dst == own ==> r == own
    ensures dst != own && dst == ALL_NEIGHBORS ==> r == ALL_NEIGHBORS
    ensures dst != own && dst != ALL_NEIGHBORS ==> r == lpm(dst)
  {
    var looked := lpm(dst);
    var hop := if dst == ALL_NEIGHBORS then ALL_NEIGHBORS else looked;
    if dst == own then own else hop
  }

  /**
   * my_fish_l3_forward: a TTL of 0 towards another node is reported as
   * expired; otherwise a next hop of 0 is reported as no route; otherwise the
   * frame goes to the link layer towards the next hop.
   */
  function Forward(frame: seq<u8>, own: Addr, lpm: Addr -> Addr): (effects: seq<Effect>)
    requires |frame| >= HEADER_LEN
    ensures |effects| == 1 && (effects[0].L2Send? || effects[0].FcmpResponse?)
    ensures effects[0].frame == frame
    ensures effects[0].L2Send? ==> effects[0].nextHop != 0 && effects[0].l2Proto == L2_PROTO_L3
  {
    var h := HeaderOf(frame);
    if h.ttl == 0 && h.dst != own then
      [FcmpResponse(frame, TtlExpired)]
    else
      var hop := NextHop(h.dst, own, lpm);
      if hop == 0 then [FcmpResponse(frame, NoRoute)]
      else [L2Send(frame, hop, L2_PROTO_L3)]
  }

  /** A frame out of hops and not for this node yields only the TTL-expired error. */
  lemma ForwardTtlExpired(frame: seq<u8>, own: Addr, lpm: Addr -> Addr)
    requires |frame| >= HEADER_LEN
    requires HeaderOf(frame).ttl == 0 && HeaderOf(frame).dst != own
    ensures Forward(frame, own, lpm) == [FcmpResponse(frame, TtlExpired)]
  {
  }

  /** A broadcast frame with hops left is sent to every link-layer neighbour. */
  lemma ForwardBroadcast(frame: seq<u8>, own: Addr, lpm: Addr -> Addr)
    requires |frame| >= HEADER_LEN
    requires HeaderOf(frame).dst == ALL_NEIGHBORS && HeaderOf(frame).ttl != 0
    ensures Forward(frame, own, lpm) == [L2Send(frame, ALL_NEIGHBORS, L2_PROTO_L3)]
  {
  }

  /** A frame for this node goes to the node itself, even with no hops left, unless the node's address is 0. */
  lemma ForwardToSelf(frame: seq<u8>, own: Addr, lpm: Addr -> Addr)
    requires |frame| >= HEADER_LEN
    requires HeaderOf(frame).dst == own
    ensures own != 0 ==> Forward(frame, own, lpm) == [L2Send(frame, own, L2_PROTO_L3)]
    ensures own == 0 ==> Forward(frame, own, lpm) == [FcmpResponse(frame, NoRoute)]
  {
  }

  /**
   * Any other destination is looked up: no route gives only the no-route
   * error, a route gives exactly one link-layer send to the table's next hop.
   */
  lemma ForwardRouted(frame: seq<u8>, own: Addr, lpm: Addr -> Addr)
    requires |frame| >= HEADER_LEN
    requires HeaderOf(frame).ttl != 0
    requires HeaderOf(frame).dst != own && HeaderOf(frame).dst != ALL_NEIGHBORS
    ensures lpm(HeaderOf(frame).dst) == 0 ==> Forward(frame, own, lpm) == [FcmpResponse(frame, NoRoute)]
    ensures lpm(HeaderOf(frame).dst) != 0 ==>
      Forward(frame, own, lpm) == [L2Send(frame, lpm(HeaderOf(frame).dst), L2_PROTO_L3)]
  {
  }

  // ---------------------------------------------------------------------------
  // Send

  /** The hop budget fish_l3_send uses: 0, or anything above MAX_TTL, becomes MAX_TTL. */
  function NormaliseTtl(ttl: u8): (r: u8)
    ensures 1 <= r <= MAX_TTL
    ensures 1 <= ttl <= MAX_TTL ==> r == ttl
    ensures ttl == 0 || ttl > MAX_TTL ==> r == MAX_TTL
  {
    if ttl == 0 || ttl > MAX_TTL then MAX_TTL else ttl
  }

  /** A payload behind a header from this node to `dst`, with the given packet id. */
  function Encapsulate(payload: seq<u8>, dst: Addr, proto: u8, ttl: u8, own: Addr, packetId: u32): (r: seq<u8>) {
    Encode(L3Header(NormaliseTtl(ttl), proto, packetId, own, dst)) + payload
  }

  /**
   * The frame my_fish_l3_send builds in a fresh buffer whose previous contents
   * are `uninit`: the packet id is never written, so it is whatever those four
   * bytes held.
   */
  function SendFrame(payload: seq<u8>, dst: Addr, proto: u8, ttl: u8, own: Addr, uninit: seq<u8>): (r: seq<u8>)
    requires |uninit| == HEADER_LEN + |payload|
    ensures |r| == |uninit|
    ensures HeaderOf(r).ttl == NormaliseTtl(ttl) && HeaderOf(r).protocol == proto
    ensures HeaderOf(r).src == own && HeaderOf(r).dst == dst
    ensures r[2..6] == uninit[2..6]
    ensures r[HEADER_LEN..] == payload
  {
    var h := L3Header(NormaliseTtl(ttl), proto, FromLe32(uninit[2..6]), own, dst);
    DecodeEncode(h, payload);
    FromLe32RoundTrip(uninit[2..6]);
    Encapsulate(payload, dst, proto, ttl, own, FromLe32(uninit[2..6]))
  }

  /** A store through a 32-bit field of a packed struct: four bytes at `offset`, the rest untouched. */
  method StoreU32(buffer: array<u8>, offset: nat, x: u32)
    requires offset + 4 <= buffer.Length
    modifies buffer
    ensures buffer[..] == old(buffer[..offset]) + Le32(x) + old(buffer[offset + 4..])
  {
    var b := Le32(x);
    buffer[offset], buffer[offset + 1], buffer[offset + 2], buffer[offset + 3] := b[0], b[1], b[2], b[3];
  }

  /**
   * my_fish_l3_send: fill a new buffer of HEADER_LEN + |payload| bytes (which
   * held `uninit`) with the header fields and the payload, then hand it to the
   * forward routine, once.
   */
  method Send(payload: seq<u8>, dst: Addr, proto: u8, ttl: u8, own: Addr, uninit: seq<u8>)
    returns (effects: seq<Effect>)
    requires |uninit| == HEADER_LEN + |payload|
    ensures effects == [L3Forward(SendFrame(payload, dst, proto, ttl, own, uninit))]
    ensures |effects[0].frame| == HEADER_LEN + |payload|
    ensures HeaderOf(effects[0].frame) == L3Header(NormaliseTtl(ttl), proto, FromLe32(uninit[2..6]), own, dst)
    ensures effects[0].frame[HEADER_LEN..] == payload
  {
    var t := ttl;
    if t == 0 || t > MAX_TTL {
      t := MAX_TTL;
    }
    var len := HEADER_LEN + |payload|;
    var frame := new u8[len](k requires 0 <= k < len => uninit[k]);
    assert frame[..] == uninit;
    StoreU32(frame, 10, dst);
    assert frame[..HEADER_LEN] == uninit[..10] + Le32(dst);
    StoreU32(frame, 6, own);
    assert frame[..HEADER_LEN] == uninit[..6] + Le32(own) + Le32(dst);
    frame[1] := proto;
    frame[0] := t;

    ghost var header := L3Header(t, proto, FromLe32(uninit[2..6]), own, dst);
    FromLe32RoundTrip(uninit[2..6]);
    assert frame[..HEADER_LEN] == [t, proto] + uninit[2..6] + Le32(own) + Le32(dst);

    var i := 0;
    while i < |payload|
      invariant 0 <= i <= |payload|
      invariant frame[..HEADER_LEN] == Encode(header)
      invariant frame[HEADER_LEN..HEADER_LEN + i] == payload[..i]
    {
      frame[HEADER_LEN + i] := payload[i];
      i := i + 1;
    }
    assert frame[..] == frame[..HEADER_LEN] + frame[HEADER_LEN..HEADER_LEN + i];
    assert frame[..] == Encode(header) + payload;
    assert t == NormaliseTtl(ttl);
    assert Encode(header) + payload == Encapsulate(payload, dst, proto, ttl, own, FromLe32(uninit[2..6]));
    assert frame[..] == SendFrame(payload, dst, proto, ttl, own, uninit);
    effects := [L3Forward(frame[..])];
    DecodeEncode(header, payload);
  }

  /**
   * As written, the packet id of a sent frame is set by nothing but the fresh
   * buffer's old contents: two sends differing only there carry different ids
   * exactly when those four bytes differ.
   */
  lemma SendPacketIdUnset(payload: seq<u8>, dst: Addr, proto: u8, ttl: u8, own: Addr,
                          uninit: seq<u8>, uninit': seq<u8>)
    requires |uninit| == |uninit'| == HEADER_LEN + |payload|
    ensures HeaderOf(SendFrame(payload, dst, proto, ttl, own, uninit)).packetId
         == HeaderOf(SendFrame(payload, dst, proto, ttl, own, uninit')).packetId
        <==> uninit[2..6] == uninit'[2..6]
  {
    DecodeEncode(L3Header(NormaliseTtl(ttl), proto, FromLe32(uninit[2..6]), own, dst), payload);
    DecodeEncode(L3Header(NormaliseTtl(ttl), proto, FromLe32(uninit'[2..6]), own, dst), payload);
    FromLe32RoundTrip(uninit[2..6]);
    FromLe32RoundTrip(uninit'[2..6]);
  }

  /**
   * The evidently intended frame: the packet id comes from the library's
   * packet id counter (fish_next_pktid), given here as `nextPacketId`.
   */
  function SendIntendedFrame(payload: seq<u8>, dst: Addr, proto: u8, ttl: u8, own: Addr, nextPacketId: u32): (f: seq<u8>)
    ensures |f| == HEADER_LEN + |payload|
    ensures HeaderOf(f) == L3Header(NormaliseTtl(ttl), proto, nextPacketId, own, dst)
    ensures f[HEADER_LEN..] == payload
  {
    DecodeEncode(L3Header(NormaliseTtl(ttl), proto, nextPacketId, own, dst), payload);
    Encapsulate(payload, dst, proto, ttl, own, nextPacketId)
  }

  /**
   * Send followed by forward: the normalised TTL is never 0, so the frame is
   * never reported as expired; it goes to L2 towards the next hop, or is
   * reported as unroutable when there is none.
   */
  lemma SendThenForward(payload: seq<u8>, dst: Addr, proto: u8, ttl: u8, own: Addr,
                        uninit: seq<u8>, lpm: Addr -> Addr)
    requires |uninit| == HEADER_LEN + |payload|
    ensures var f := SendFrame(payload, dst, proto, ttl, own, uninit);
            var hop := NextHop(dst, own, lpm);
            Forward(f, own, lpm) == if hop == 0 then [FcmpResponse(f, NoRoute)] else [L2Send(f, hop, L2_PROTO_L3)]
  {
    DecodeEncode(L3Header(NormaliseTtl(ttl), proto, FromLe32(uninit[2..6]), own, dst), payload);
  }

  // ---------------------------------------------------------------------------
  // Receive

  /** The outcome of one receive: the caller's frame afterwards, the calls made, and the table afterwards. */
  datatype Received = Received(frame: seq<u8>, effects: seq<Effect>, table: seq<seq<Entry>>)

  /** The frame after `header->ttl--`. */
  function DecrementTtl(frame: seq<u8>): (r: seq<u8>)
    requires |frame| >= HEADER_LEN && frame[0] > 0
    ensures |r| == |frame| && r[0] == frame[0] - 1 && r[1..] == frame[1..]
  {
    frame[0 := frame[0] - 1]
  }

  /** Whether the frame's suppression key was recorded no more than ENTRY_TTL_SECONDS before `now`. */
  function SeenRecently(t: seq<seq<Entry>>, frame: seq<u8>, now: int): (r: bool)
    requires |t| == HASH_TABLE_SIZE && |frame| >= HEADER_LEN
    ensures var h := HeaderOf(frame);
            var id := h.packetId % 0x1_0000;
            var c := t[Hash(h.src, id)];
            r ==> Find(c, h.src, id).Some? && now - c[Find(c, h.src, id).value].timestamp <= ENTRY_TTL_SECONDS
    ensures var h := HeaderOf(frame);
            var id := h.packetId % 0x1_0000;
            var c := t[Hash(h.src, id)];
            (Find(c, h.src, id).Some? && now - c[Find(c, h.src, id).value].timestamp <= ENTRY_TTL_SECONDS &&
             c[Find(c, h.src, id).value].timestamp != NOT_FOUND) ==> r
  {
    var key := SuppressionKey(HeaderOf(frame));
    Timestamp(t, key.0, key.1, now) != NOT_FOUND
  }

  /**
   * The three cases of my_fishnode_l3_receive, with the broadcast branch
   * entered when `flood` holds. A frame for this node is delivered. A
   * broadcast frame, when `flood`, has its key recorded and, with more than
   * one hop left, is decremented, delivered and forwarded. Any other frame
   * with more than one hop left is decremented and forwarded.
   */
  function Dispatch(t: seq<seq<Entry>>, frame: seq<u8>, own: Addr, now: int, flood: bool): (r: Received)
    requires |t| == HASH_TABLE_SIZE && |frame| >= HEADER_LEN
    ensures |r.table| == HASH_TABLE_SIZE && |r.frame| == |frame|
  {
    var h := HeaderOf(frame);
    if h.dst == own then
      Received(frame, [L4Receive(frame[HEADER_LEN..], h.protocol, h.src)], t)
    else if h.dst == ALL_NEIGHBORS then
      if flood then
        var key := SuppressionKey(h);
        var t' := Inserted(t, key.0, key.1, now);
        if h.ttl > 1 then
          var f := DecrementTtl(frame);
          Received(f, [L4Receive(f[HEADER_LEN..], h.protocol, h.src), L3Forward(f)], t')
        else
          Received(frame, [], t')
      else
        Received(frame, [], t)
    else if h.ttl > 1 then
      var f := DecrementTtl(frame);
      Received(f, [L3Forward(f)], t)
    else
      Received(frame, [], t)
  }

  /** my_fishnode_l3_receive as written: the broadcast branch is entered when the key WAS seen recently. */
  function ReceiveAsWritten(t: seq<seq<Entry>>, frame: seq<u8>, own: Addr, now: int): (r: Received)
    requires |t| == HASH_TABLE_SIZE && |frame| >= HEADER_LEN
    ensures |r.table| == HASH_TABLE_SIZE && |r.frame| == |frame|
    ensures HeaderOf(frame).dst != own && HeaderOf(frame).dst == ALL_NEIGHBORS && !SeenRecently(t, frame, now) ==>
      r == Received(frame, [], t)
    ensures r.table != t ==> SeenRecently(t, frame, now)
  {
    Dispatch(t, frame, own, now, SeenRecently(t, frame, now))
  }

  /** The documented receive: the broadcast branch is entered when the key was NOT seen recently. */
  function ReceiveIntended(t: seq<seq<Entry>>, frame: seq<u8>, own: Addr, now: int): (r: Received)
    requires |t| == HASH_TABLE_SIZE && |frame| >= HEADER_LEN
    ensures |r.table| == HASH_TABLE_SIZE && |r.frame| == |frame|
    ensures HeaderOf(frame).dst == own || HeaderOf(frame).dst != ALL_NEIGHBORS ==>
      r == ReceiveAsWritten(t, frame, own, now)
    ensures HeaderOf(frame).dst != own && HeaderOf(frame).dst == ALL_NEIGHBORS && SeenRecently(t, frame, now) ==>
      r == Received(frame, [], t)
    ensures HeaderOf(frame).dst != own && HeaderOf(frame).dst == ALL_NEIGHBORS && !SeenRecently(t, frame, now) ==>
      var key := SuppressionKey(HeaderOf(frame));
      r.table == Inserted(t, key.0, key.1, now)
  {
    Dispatch(t, frame, own, now, !SeenRecently(t, frame, now))
  }

  /**
   * my_fishnode_l3_receive on the caller's frame buffer and the node's table:
   * the frame's TTL byte and the table are updated in place.
   */
  method Receive(table: SuppressionTable, frame: array<u8>, own: Addr, now: int) returns (effects: seq<Effect>)
    requires table.Valid()
    requires frame.Length >= HEADER_LEN
    modifies frame, table.buckets
    ensures table.Valid()
    ensures var r := ReceiveAsWritten(old(table.buckets[..]), old(frame[..]), own, now);
            frame[..] == r.frame && effects == r.effects && table.buckets[..] == r.table
  {
    ghost var t0 := table.buckets[..];
    ghost var f0 := frame[..];
    var header := HeaderOf(frame[..]);
    if header.dst == own {
      effects := [L4Receive(frame[HEADER_LEN..], header.protocol, header.src)];
      assert ReceiveAsWritten(t0, f0, own, now) == Received(f0, effects, t0);
    } else if header.dst == ALL_NEIGHBORS {
      var key := SuppressionKey(header);
      var timestamp := table.GetTimestamp(key.0, key.1, now);
      assert SeenRecently(t0, f0, now) == (timestamp != NOT_FOUND);
      effects := [];
      if timestamp != NOT_FOUND {
        table.Insert(key.0, key.1, now);
        if frame[0] > 1 {
          frame[0] := frame[0] - 1;
          assert frame[..] == DecrementTtl(f0);
          effects := [L4Receive(frame[HEADER_LEN..], header.protocol, header.src), L3Forward(frame[..])];
        }
      }
      assert ReceiveAsWritten(t0, f0, own, now) == Received(frame[..], effects, table.buckets[..]);
    } else {
      effects := [];
      if frame[0] > 1 {
        frame[0] := frame[0] - 1;
        assert frame[..] == DecrementTtl(f0);
        effects := [L3Forward(frame[..])];
      }
      assert ReceiveAsWritten(t0, f0, own, now) == Received(frame[..], effects, table.buckets[..]);
    }
  }

  /** A frame for this node is delivered once, payload after the header, and nothing else happens. */
  lemma ReceiveLocal(t: seq<seq<Entry>>, frame: seq<u8>, own: Addr, now: int, flood: bool)
    requires |t| == HASH_TABLE_SIZE && |frame| >= HEADER_LEN
    requires HeaderOf(frame).dst == own
    ensures Dispatch(t, frame, own, now, flood)
         == Received(frame, [L4Receive(frame[HEADER_LEN..], frame[1], HeaderOf(frame).src)], t)
  {
  }

  /** A transit frame is forwarded once with one hop fewer if it has more than one hop left; otherwise dropped silently. */
  lemma ReceiveTransit(t: seq<seq<Entry>>, frame: seq<u8>, own: Addr, now: int, flood: bool)
    requires |t| == HASH_TABLE_SIZE && |frame| >= HEADER_LEN
    requires HeaderOf(frame).dst != own && HeaderOf(frame).dst != ALL_NEIGHBORS
    ensures frame[0] > 1 ==>
      Dispatch(t, frame, own, now, flood) == Received(frame[0 := frame[0] - 1], [L3Forward(frame[0 := frame[0] - 1])], t)
    ensures frame[0] <= 1 ==> Dispatch(t, frame, own, now, flood) == Received(frame, [], t)
  {
  }

  /**
   * The broadcast case as written: a key absent or expired leads to nothing at
   * all, not even a record; a key seen recently is recorded again and, with
   * more than one hop left, the frame is delivered and forwarded with one hop fewer.
   */
  lemma ReceiveBroadcastAsWritten(t: seq<seq<Entry>>, frame: seq<u8>, own: Addr, now: int)
    requires |t| == HASH_TABLE_SIZE && |frame| >= HEADER_LEN
    requires HeaderOf(frame).dst == ALL_NEIGHBORS != own
    ensures !SeenRecently(t, frame, now) ==> ReceiveAsWritten(t, frame, own, now) == Received(frame, [], t)
    ensures SeenRecently(t, frame, now) ==>
      var key := SuppressionKey(HeaderOf(frame));
      ReceiveAsWritten(t, frame, own, now).table == Inserted(t, key.0, key.1, now)
    ensures SeenRecently(t, frame, now) && frame[0] <= 1 ==> ReceiveAsWritten(t, frame, own, now).effects == []
    ensures SeenRecently(t, frame, now) && frame[0] > 1 ==>
      var f := frame[0 := frame[0] - 1];
      ReceiveAsWritten(t, frame, own, now).effects == [L4Receive(f[HEADER_LEN..], frame[1], HeaderOf(frame).src), L3Forward(f)]
  {
  }

  /** Receive changes at most the TTL byte of the frame, and only by lowering it by one. */
  lemma ReceiveOnlyLowersTtl(t: seq<seq<Entry>>, frame: seq<u8>, own: Addr, now: int, flood: bool)
    requires |t| == HASH_TABLE_SIZE && |frame| >= HEADER_LEN
    ensures var r := Dispatch(t, frame, own, now, flood);
            r.frame[1..] == frame[1..] && (r.frame[0] == frame[0] || r.frame[0] == frame[0] - 1)
    ensures var r := Dispatch(t, frame, own, now, flood);
            forall e :: e in r.effects && e.L3Forward? ==> e.frame == r.frame
  {
  }

  /** Receive keeps the table well formed. */
  lemma ReceiveKeepsTableWellFormed(t: seq<seq<Entry>>, frame: seq<u8>, own: Addr, now: int, flood: bool)
    requires WellFormed(t) && |frame| >= HEADER_LEN
    ensures WellFormed(Dispatch(t, frame, own, now, flood).table)
  {
    var h := HeaderOf(frame);
    var key := SuppressionKey(h);
    InsertedWellFormed(t, key.0, key.1, now);
  }

  /**
   * Two frames that differ only in the packet id's upper 16 bits meet the
   * same table entry: the receive leaves the same table after either.
   */
  lemma ReceiveKeysOnLow16Bits(t: seq<seq<Entry>>, frame: seq<u8>, id: u32, own: Addr, now: int)
    requires |t| == HASH_TABLE_SIZE && |frame| >= HEADER_LEN
    requires id % 0x1_0000 == HeaderOf(frame).packetId % 0x1_0000
    ensures var frame' := frame[..2] + Le32(id) + frame[6..];
            |frame'| == |frame| &&
            SeenRecently(t, frame', now) == SeenRecently(t, frame, now) &&
            ReceiveAsWritten(t, frame', own, now).table == ReceiveAsWritten(t, frame, own, now).table
  {
    var frame' := frame[..2] + Le32(id) + frame[6..];
    assert frame'[2..6] == Le32(id) && frame'[6..10] == frame[6..10] && frame'[10..14] == frame[10..14];
    Le32RoundTrip(id);
    var h := HeaderOf(frame);
    assert HeaderOf(frame') == h.(packetId := id);
    KeyIgnoresHighIdBits(h, id);
    var key := SuppressionKey(h);
    assert SuppressionKey(HeaderOf(frame')) == key;
    assert SeenRecently(t, frame', now) == SeenRecently(t, frame, now);
  }

  /** As written, a receive never records a key in a table that is empty. */
  lemma AsWrittenKeepsEmptyTableEmpty(t: seq<seq<Entry>>, frame: seq<u8>, own: Addr, now: int)
    requires IsEmpty(t) && |frame| >= HEADER_LEN
    ensures ReceiveAsWritten(t, frame, own, now).table == t
    ensures HeaderOf(frame).dst == ALL_NEIGHBORS != own ==> ReceiveAsWritten(t, frame, own, now).effects == []
  {
    var key := SuppressionKey(HeaderOf(frame));
    EmptyFindsNothing(t, key.0, key.1, now);
  }

  /** The table after a sequence of (frame, arrival time) receives, as written. */
  function RunAsWritten(t: seq<seq<Entry>>, arrivals: seq<(seq<u8>, int)>, own: Addr): (r: seq<seq<Entry>>)
    requires |t| == HASH_TABLE_SIZE
    requires forall k :: 0 <= k < |arrivals| ==> |arrivals[k].0| >= HEADER_LEN
    ensures |r| == HASH_TABLE_SIZE
    decreases |arrivals|
  {
    if arrivals == [] then t
    else RunAsWritten(ReceiveAsWritten(t, arrivals[0].0, own, arrivals[0].1).table, arrivals[1..], own)
  }

  /** Starting from the empty table, no sequence of receives as written ever records a key. */
  lemma {:induction false} AsWrittenTableStaysEmpty(t: seq<seq<Entry>>, arrivals: seq<(seq<u8>, int)>, own: Addr)
    requires IsEmpty(t)
    requires forall k :: 0 <= k < |arrivals| ==> |arrivals[k].0| >= HEADER_LEN
    ensures RunAsWritten(t, arrivals, own) == t
    decreases |arrivals|
  {
    if arrivals != [] {
      AsWrittenKeepsEmptyTableEmpty(t, arrivals[0].0, own, arrivals[0].1);
      AsWrittenTableStaysEmpty(t, arrivals[1..], own);
    }
  }

  /**
   * The discrepancy on a concrete input: with the table empty, a broadcast
   * frame with five hops left is dropped as written, while the documented
   * receive delivers it and forwards it.
   */
  lemma AsWrittenDropsFirstSighting()
    ensures var t := seq(HASH_TABLE_SIZE, _ => []);
            var frame := Encode(L3Header(5, 7, 1, 3, ALL_NEIGHBORS));
            ReceiveAsWritten(t, frame, 2, 1000).effects == [] &&
            ReceiveIntended(t, frame, 2, 1000).effects == [L4Receive([], 7, 3), L3Forward(frame[0 := 4])]
  {
    var t: seq<seq<Entry>> := seq(HASH_TABLE_SIZE, _ => []);
    var h := L3Header(5, 7, 1, 3, ALL_NEIGHBORS);
    DecodeEncode(h, []);
    assert Encode(h) + [] == Encode(h);
    var key := SuppressionKey(h);
    EmptyFindsNothing(t, key.0, key.1, 1000);
  }

  /**
   * The documented receive, first sighting of a broadcast: the key is recorded
   * and, with more than one hop left, the frame is delivered once and
   * forwarded once with one hop fewer.
   */
  lemma IntendedFirstSighting(t: seq<seq<Entry>>, frame: seq<u8>, own: Addr, now: int)
    requires WellFormed(t) && |frame| >= HEADER_LEN
    requires HeaderOf(frame).dst == ALL_NEIGHBORS != own
    requires !SeenRecently(t, frame, now) && now != NOT_FOUND
    ensures SeenRecently(ReceiveIntended(t, frame, own, now).table, frame, now)
    ensures frame[0] <= 1 ==> ReceiveIntended(t, frame, own, now).effects == []
    ensures frame[0] > 1 ==>
      var f := frame[0 := frame[0] - 1];
      ReceiveIntended(t, frame, own, now).effects == [L4Receive(f[HEADER_LEN..], frame[1], HeaderOf(frame).src), L3Forward(f)]
  {
    var key := SuppressionKey(HeaderOf(frame));
    InsertThenLookup(t, key.0, key.1, now, now);
    assert ReceiveIntended(t, frame, own, now).table == Inserted(t, key.0, key.1, now);
  }

  /**
   * The documented receive suppresses duplicates: after a first sighting, a
   * broadcast frame with the same suppression key arriving no more than
   * ENTRY_TTL_SECONDS later is dropped with no effect and no table change.
   */
  lemma IntendedDropsDuplicate(t: seq<seq<Entry>>, frame: seq<u8>, frame': seq<u8>, own: Addr, now: int, later: int)
    requires WellFormed(t) && |frame| >= HEADER_LEN && |frame'| >= HEADER_LEN
    requires HeaderOf(frame).dst == ALL_NEIGHBORS != own && HeaderOf(frame').dst == ALL_NEIGHBORS
    requires SuppressionKey(HeaderOf(frame')) == SuppressionKey(HeaderOf(frame))
    requires !SeenRecently(t, frame, now) && now != NOT_FOUND
    requires later - now <= ENTRY_TTL_SECONDS
    ensures var t' := ReceiveIntended(t, frame, own, now).table;
            ReceiveIntended(t', frame', own, later) == Received(frame', [], t')
  {
    var key := SuppressionKey(HeaderOf(frame));
    InsertThenLookup(t, key.0, key.1, now, later);
  }

  /**
   * The documented receive, suppression expiry: once more than
   * ENTRY_TTL_SECONDS have passed, the same broadcast counts as a fresh
   * sighting and is delivered and forwarded again.
   */
  lemma IntendedAcceptsAfterExpiry(t: seq<seq<Entry>>, frame: seq<u8>, own: Addr, now: int, later: int)
    requires WellFormed(t) && |frame| >= HEADER_LEN
    requires HeaderOf(frame).dst == ALL_NEIGHBORS != own
    requires !SeenRecently(t, frame, now) && now != NOT_FOUND
    requires later - now > ENTRY_TTL_SECONDS
    ensures var t' := ReceiveIntended(t, frame, own, now).table;
            ReceiveIntended(t', frame, own, later).effects == ReceiveIntended(t, frame, own, now).effects
  {
    var key := SuppressionKey(HeaderOf(frame));
    InsertThenLookup(t, key.0, key.1, now, now);
  }
}
