/**
 Retransmission: the numbers a subscriber asks for lead through the sequencer and the packet
 bucket of the layer back to the source packet, and from there to the packet that was written.
 */
module Retransmission {
  import opened Words
  import opened VP8Descriptor
  import opened DownTrackStep
  import opened PacketSequencer
  import opened DownTracks
  import PacketBucket
  import opened BucketRing

  /** What RetransmitPackets uses of the buffer of a spatial layer. */
  class LayerBuffer {
    const bucket: PacketBucket.Bucket
    var closed: bool

    constructor (store: PacketBucket.Bucket)
      ensures bucket == store && !closed
    {
      bucket, closed := store, false;
    }
  }

  /** The state of such a buffer, or that there is none. */
  datatype View = NoBuffer | Closed | Open(init: bool, headSN: u16, size: nat, ring: Ring)

  ghost function ViewOf(l: LayerBuffer?): View
    reads l, if l == null then {} else {l.bucket}
  {
    if l == null then NoBuffer
    else if l.closed then Closed
    else Open(l.bucket.init, l.bucket.headSN, l.bucket.maxSteps, l.bucket.ring)
  }

  /** The bytes that a number reads as. */
  ghost function ReadAt(v: View, sn: u16): Option<seq<byte>>
    requires v.Open?
  {
    var key := v.ring.head - Sub16(v.headSN, sn);
    if v.init && Sub16(v.headSN, sn) < v.size && key in v.ring.live then Some(v.ring.live[key]) else None
  }

  /** What becomes of one requested packet: None if it is skipped. */
  ghost function RebuiltFrom(v: View, m: PacketMeta, unmarshal: seq<byte> -> Option<RtpPacket>, temporal: bool,
                             b: Binding)
      : Option<RtpPacket>
    requires v.Open?
  {
    match ReadAt(v, m.sourceSeqNo)
    case None => None
    case Some(bytes) =>
      if |bytes| > BUFFER_SIZE then None
      else match unmarshal(bytes)
           case None => None
           case Some(p) => Rebuild(temporal, b, m, p)
  }

  function Listed(p: Option<RtpPacket>): seq<RtpPacket> {
    if p.Some? then [p.value] else []
  }

  ghost predicate HaveLayers(metas: seq<PacketMeta>, views: seq<View>) {
    forall i :: 0 <= i < |metas| ==> metas[i].layer < |views|
  }

  /** Everything that is sent for a list of requests; a layer without an open buffer ends it. */
  ghost function Resent(metas: seq<PacketMeta>, views: seq<View>, unmarshal: seq<byte> -> Option<RtpPacket>,
                        temporal: bool, b: Binding): seq<RtpPacket>
    requires HaveLayers(metas, views)
  {
    if metas == [] || !views[metas[0].layer].Open? then []
    else Listed(RebuiltFrom(views[metas[0].layer], metas[0], unmarshal, temporal, b))
         + Resent(metas[1..], views, unmarshal, temporal, b)
  }

  /** With every layer's buffer open, each request that can be rebuilt is. */
  lemma {:induction false} EachIsResent(metas: seq<PacketMeta>, views: seq<View>,
                                        unmarshal: seq<byte> -> Option<RtpPacket>,
                                        temporal: bool, b: Binding, i: nat)
    requires HaveLayers(metas, views) && i < |metas|
    requires forall j :: 0 <= j <= i ==> views[metas[j].layer].Open?
    requires RebuiltFrom(views[metas[i].layer], metas[i], unmarshal, temporal, b).Some?
    ensures RebuiltFrom(views[metas[i].layer], metas[i], unmarshal, temporal, b).value
            in Resent(metas, views, unmarshal, temporal, b)
  {
    if i > 0 {
      EachIsResent(metas[1..], views, unmarshal, temporal, b, i - 1);
    }
  }

  /**
   Exactly that is sent: what can be rebuilt for a request, up to the first one for a layer without
   an open buffer.
   */
  lemma {:induction false} ResentIff(metas: seq<PacketMeta>, views: seq<View>,
                                     unmarshal: seq<byte> -> Option<RtpPacket>, temporal: bool, b: Binding,
                                     out: RtpPacket)
    requires HaveLayers(metas, views)
    ensures out in Resent(metas, views, unmarshal, temporal, b) <==>
            exists i :: 0 <= i < |metas| && ReachesOpen(metas, views, i)
                        && RebuiltFrom(views[metas[i].layer], metas[i], unmarshal, temporal, b) == Some(out)
  {
    if metas != [] && views[metas[0].layer].Open? {
      var rest := metas[1..];
      ResentIff(rest, views, unmarshal, temporal, b, out);
      if i :| 0 <= i < |rest| && ReachesOpen(rest, views, i)
              && RebuiltFrom(views[rest[i].layer], rest[i], unmarshal, temporal, b) == Some(out) {
        assert ReachesOpen(metas, views, i + 1);
      }
      if i :| 0 < i < |metas| && ReachesOpen(metas, views, i)
              && RebuiltFrom(views[metas[i].layer], metas[i], unmarshal, temporal, b) == Some(out) {
        assert ReachesOpen(rest, views, i - 1) && rest[i - 1] == metas[i];
      }
      assert ReachesOpen(metas, views, 0);
    } else if metas != [] {
      assert !ReachesOpen(metas, views, 0);
    }
  }

  /** All layers up to that of request i have an open buffer. */
  ghost predicate ReachesOpen(metas: seq<PacketMeta>, views: seq<View>, i: nat)
    requires HaveLayers(metas, views) && i < |metas|
  {
    forall j :: 0 <= j <= i ==> views[metas[j].layer].Open?
  }

  // ---------------------------------------------------------------- the loop

  ghost predicate Apart(src: array<byte>, buffers: seq<LayerBuffer?>) {
    forall i :: 0 <= i < |buffers| && buffers[i] != null ==> buffers[i].bucket.buf != src
  }

  ghost predicate Viewed(buffers: seq<LayerBuffer?>, views: seq<View>)
    reads set i | 0 <= i < |buffers| :: buffers[i]
    reads set i | 0 <= i < |buffers| && buffers[i] != null :: buffers[i].bucket
    reads set i | 0 <= i < |buffers| && buffers[i] != null :: buffers[i].bucket.buf
  {
    && |buffers| == |views|
    && forall i :: 0 <= i < |buffers| ==>
         ViewOf(buffers[i]) == views[i] && (buffers[i] != null ==> buffers[i].bucket.Valid())
  }

  /** Reads one packet into the scratch buffer; None if there is none or it does not fit. */
  method Read(buffer: LayerBuffer, src: array<byte>, sn: u16) returns (bytes: Option<seq<byte>>)
    requires buffer.bucket.Valid() && !buffer.closed && src != buffer.bucket.buf && src.Length == BUFFER_SIZE
    modifies src
    ensures var r := ReadAt(ViewOf(buffer), sn);
            bytes == if r.Some? && |r.value| <= BUFFER_SIZE then r else None
  {
    var i, err := buffer.bucket.GetPacket(src, src.Length, sn);
    if err.Err? {
      return None;
    }
    bytes := Some(src[..i]);
  }

  /** Puts the track's picture number and TL0PICIDX into a payload again. */
  method RestorePayload(payload: seq<byte>, m: PacketMeta) returns (r: Option<seq<byte>>)
    ensures r == Restored(payload, m)
  {
    var vp8 := new VP8();
    var ok := vp8.Unmarshal(payload);
    if !ok {
      return None;
    }
    ParsedIndices(payload);
    var buf := new byte[|payload|](i requires 0 <= i < |payload| => payload[i]);
    assert buf[..] == payload;
    ModifyVP8TemporalPayload(buf, vp8.picIDIdx, vp8.tlzIdx, VP8PicID(m), VP8TlzIdx(m), vp8.mBit);
    r := Some(buf[..]);
  }

  /** The packet to send for one that was read. */
  method Restore(temporal: bool, b: Binding, m: PacketMeta, pkt: RtpPacket) returns (r: Option<RtpPacket>)
    ensures r == Rebuild(temporal, b, m, pkt)
  {
    var hdr := pkt.header.(sequenceNumber := m.targetSeqNo, timestamp := m.timestamp, ssrc := b.ssrc,
                           payloadType := b.payloadType);
    if temporal {
      if b.isVP8 {
        var payload := RestorePayload(pkt.payload, m);
        return if payload.None? then None else Some(RtpPacket(hdr, payload.value));
      }
    }
    r := Some(RtpPacket(hdr, pkt.payload));
  }

  /** The packet for one request, if it can be read and rebuilt. */
  method Fetch(buffer: LayerBuffer, src: array<byte>, m: PacketMeta, unmarshal: seq<byte> -> Option<RtpPacket>,
               temporal: bool, b: Binding) returns (out: Option<RtpPacket>)
    requires buffer.bucket.Valid() && !buffer.closed && src != buffer.bucket.buf && src.Length == BUFFER_SIZE
    modifies src
    ensures out == RebuiltFrom(ViewOf(buffer), m, unmarshal, temporal, b)
  {
    var bytes := Read(buffer, src, m.sourceSeqNo);
    if bytes.None? {
      return None;
    }
    var pkt := unmarshal(bytes.value);
    if pkt.None? {
      return None;
    }
    out := Restore(temporal, b, m, pkt.value);
  }

  /** One turn of the loop; `stop` if there is no buffer for the layer any more. */
  method FetchNext(meta: PacketMeta, buffers: seq<LayerBuffer?>, src: array<byte>,
                   unmarshal: seq<byte> -> Option<RtpPacket>, temporal: bool, b: Binding, ghost views: seq<View>)
      returns (stop: bool, out: seq<RtpPacket>)
    requires Viewed(buffers, views) && meta.layer < |views| && Apart(src, buffers) && src.Length == BUFFER_SIZE
    modifies src
    ensures Viewed(buffers, views)
    ensures stop <==> !views[meta.layer].Open?
    ensures out == if stop then [] else Listed(RebuiltFrom(views[meta.layer], meta, unmarshal, temporal, b))
  {
    var buff := buffers[meta.layer];
    assert ViewOf(buff) == views[meta.layer];
    if buff == null || buff.closed {
      return true, [];
    }
    assert buff.bucket.buf != src;
    var p := Fetch(buff, src, meta, unmarshal, temporal, b);
    stop, out := false, Listed(p);
  }

  /** The requested packets, in the order of the requests. */
  method FetchAll(metas: seq<PacketMeta>, buffers: seq<LayerBuffer?>, src: array<byte>,
                  unmarshal: seq<byte> -> Option<RtpPacket>, temporal: bool, b: Binding, ghost views: seq<View>)
      returns (sent: seq<RtpPacket>)
    requires Viewed(buffers, views) && HaveLayers(metas, views) && Apart(src, buffers) && src.Length == BUFFER_SIZE
    modifies src
    ensures sent == Resent(metas, views, unmarshal, temporal, b)
  {
    sent := [];
    ghost var rest, all := metas, Resent(metas, views, unmarshal, temporal, b);
    for i := 0 to |metas|
      invariant Viewed(buffers, views) && rest == metas[i..] && HaveLayers(rest, views)
      invariant all == sent + Resent(rest, views, unmarshal, temporal, b)
    {
      assert rest[0] == metas[i] && rest[1..] == metas[i + 1..];
      var stop, out := FetchNext(metas[i], buffers, src, unmarshal, temporal, b, views);
      if stop {
        return;
      }
      ResentNext(sent, out, rest, views, unmarshal, temporal, b);
      sent, rest := sent + out, rest[1..];
    }
  }

  lemma ResentNext(sent: seq<RtpPacket>, out: seq<RtpPacket>, rest: seq<PacketMeta>, views: seq<View>,
                   unmarshal: seq<byte> -> Option<RtpPacket>, temporal: bool, b: Binding)
    requires rest != [] && HaveLayers(rest, views) && views[rest[0].layer].Open?
    requires out == Listed(RebuiltFrom(views[rest[0].layer], rest[0], unmarshal, temporal, b))
    ensures sent + Resent(rest, views, unmarshal, temporal, b) == sent + out
            + Resent(rest[1..], views, unmarshal, temporal, b)
  {
    assert Resent(rest, views, unmarshal, temporal, b) == out + Resent(rest[1..], views, unmarshal, temporal, b);
    Associate(sent, out, Resent(rest[1..], views, unmarshal, temporal, b));
  }

  lemma Associate(a: seq<RtpPacket>, b: seq<RtpPacket>, c: seq<RtpPacket>)
    ensures a + (b + c) == a + b + c
  {}

  /** Everything that is sent again is in the subscriber's own stream, too. */
  lemma {:induction false} ResentIsOwn(metas: seq<PacketMeta>, views: seq<View>,
                                       unmarshal: seq<byte> -> Option<RtpPacket>, temporal: bool, b: Binding)
    requires HaveLayers(metas, views)
    ensures AllOwn(Resent(metas, views, unmarshal, temporal, b), b)
  {
    if metas != [] && views[metas[0].layer].Open? {
      ResentIsOwn(metas[1..], views, unmarshal, temporal, b);
    }
  }

  /** Writes the requested packets once more to the subscriber. */
  method RetransmitPackets(d: DownTrack, metas: seq<PacketMeta>, buffers: seq<LayerBuffer?>,
                           unmarshal: seq<byte> -> Option<RtpPacket>, ghost views: seq<View>)
    requires d.Valid() && Viewed(buffers, views) && HaveLayers(metas, views)
    modifies d`written
    ensures d.Valid()
    ensures d.written == old(d.written) + Resent(metas, views, unmarshal, d.simulcast.temporalSupported, d.binding)
  {
    var src := new byte[BUFFER_SIZE](_ => 0);
    var sent := FetchAll(metas, buffers, src, unmarshal, d.simulcast.temporalSupported, d.binding, views);
    ResentIsOwn(metas, views, unmarshal, d.simulcast.temporalSupported, d.binding);
    d.written := d.written + sent;
  }

  // ---------------------------------------------------------------- a NACK from the subscriber

  /** The metadata that the sequencer hands out for the packet lists of a NACK. */
  method Requested(q: Sequencer, requests: seq<seq<u16>>, times: seq<u32>) returns (metas: seq<PacketMeta>)
    requires q.Valid() && |requests| == |times|
    modifies q.slots
    ensures q.Valid()
    ensures var a := AskAll(old(q.slots[..]), q.step, q.headSN, requests, times);
            metas == a.metas && q.slots[..] == a.slots
  {
    metas := [];
    ghost var before := q.slots[..];
    for i := 0 to |requests|
      invariant q.Valid() && AskAll(before, q.step, q.headSN, requests[..i], times[..i]) == Answer(q.slots[..], metas)
    {
      assert requests[..i + 1][..i] == requests[..i] && times[..i + 1][..i] == times[..i];
      var more := q.GetSeqNoPairs(requests[i], times[i]);
      metas := metas + more;
    }
    assert requests[..|requests|] == requests && times[..|times|] == times;
  }

  /** A view of a bucket that is as its class keeps it, with a window of at most a cycle. */
  ghost predicate Sane(v: View) {
    v.Open? && v.init && v.headSN == Low16(v.ring.head) && v.size <= 0x1_0000 && Sound(v.ring, v.size)
  }

  /** The source packet is readable in the bucket, under the unwrapped number `key`, and fits the scratch buffer. */
  ghost predicate InBucket(v: View, key: int, unmarshal: seq<byte> -> Option<RtpPacket>, source: RtpPacket) {
    && Sane(v) && key in v.ring.live && Low16(key) == source.header.sequenceNumber
    && |v.ring.live[key]| <= 1460 && unmarshal(v.ring.live[key]) == Some(source)
  }

  /** A packet that is still in the window of its bucket is what its number reads as. */
  lemma InBucketReads(v: View, key: int)
    requires Sane(v) && key in v.ring.live
    ensures ReadAt(v, Low16(key)) == Some(v.ring.live[key])
  {
    DistanceBelow(v.ring.head, v.ring.head - key);
  }

  /** The time of the last answer plays no part in rebuilding. */
  lemma AnswerRebuilds(m: PacketMeta, o: Origin, views: seq<View>, key: int,
                       unmarshal: seq<byte> -> Option<RtpPacket>, temporal: bool, b: Binding)
    requires Rebuilds(temporal, b, Plain(m), o) && o.layer < |views|
             && InBucket(views[o.layer], key, unmarshal, o.source)
    ensures RebuiltFrom(views[o.layer], m, unmarshal, temporal, b) == Some(o.out)
  {
    InBucketReads(views[o.layer], key);
  }

  /** The slot in which the track's sequencer has a number of its window. */
  ghost function SlotOf(d: DownTrack, k: int): nat
    requires d.Valid() && d.sequencer != null && d.sequencer.head - d.sequencer.max < k <= d.sequencer.head
    reads d`held, d`written, d`simulcast, d.Parts()
  {
    PacketBucket.SlotIndex(d.sequencer.step, d.sequencer.head - k, d.sequencer.max)
  }

  /** The packets that the sequencer finds for the requests. */
  ghost function Found(d: DownTrack, requests: seq<seq<u16>>, times: seq<u32>): seq<PacketMeta>
    requires d.Valid() && d.sequencer != null && |requests| == |times|
    reads d`held, d`written, d`simulcast, d.Parts()
  {
    AskAll(d.sequencer.slots[..], d.sequencer.step, d.sequencer.headSN, requests, times).metas
  }

  /** A pushed target among the last max - 1 numbers. */
  ghost predicate Recent(d: DownTrack, k: int)
    requires d.Valid() && d.sequencer != null
    reads d`held, d`written, d`simulcast, d.Parts()
  {
    var q := d.sequencer;
    q.init && k in q.entries && q.head - k < q.max - 1 && q.head - k < 0x1_0000
  }

  /** No answer for the number within the last 100 ms before any of the times. */
  ghost predicate Rested(d: DownTrack, k: int, times: seq<u32>)
    requires d.Valid() && d.sequencer != null && Recent(d, k)
    reads d`held, d`written, d`simulcast, d.Parts()
  {
    var m := d.sequencer.slots[SlotOf(d, k)];
    m.lastNack == 0 || forall x :: 0 <= x < |times| ==> Sub32(times[x], m.lastNack) > 100
  }

  /** The packet that was written for a recent target. */
  ghost function OriginOf(d: DownTrack, k: int): Origin
    requires d.Valid() && d.sequencer != null && Recent(d, k)
    reads d`held, d`written, d`simulcast, d.Parts()
  {
    d.held[SlotOf(d, k)].origin
  }

  lemma RecentWasWritten(d: DownTrack, k: int)
    requires d.Valid() && d.sequencer != null && Recent(d, k)
    ensures OriginOf(d, k).out in d.written && OriginOf(d, k).out.header.sequenceNumber == Low16(k)
    ensures Rebuilds(d.simulcast.temporalSupported, d.binding, Plain(d.sequencer.slots[SlotOf(d, k)]), OriginOf(d, k))
  {
    var j := SlotOf(d, k);
    assert d.held[j].Held? && Plain(d.sequencer.slots[..][j]) == d.sequencer.entries[k];
  }

  lemma MayAnswer(q: Sequencer, times: seq<u32>, k: int)
    requires q.Valid() && q.init && k in q.entries && q.head - k < q.max - 1 && q.head - k < 0x1_0000
    requires var m := q.slots[PacketBucket.SlotIndex(q.step, q.head - k, q.max)];
             m.lastNack == 0 || forall x :: 0 <= x < |times| ==> Sub32(times[x], m.lastNack) > 100
    ensures forall x :: 0 <= x < |times| ==>
              Answers(q.slots[PacketBucket.SlotIndex(q.step, q.head - k, q.max)], Low16(k), times[x])
  {
    q.LookedUp(k);
    var m := q.slots[PacketBucket.SlotIndex(q.step, q.head - k, q.max)];
    assert Plain(m) == q.entries[k] && m.targetSeqNo == Low16(k);
  }

  /** The sequencer hands out the metadata of a recent target that is asked for. */
  lemma RecentIsFound(d: DownTrack, requests: seq<seq<u16>>, times: seq<u32>, k: int, i: nat) returns (m: PacketMeta)
    requires d.Valid() && d.sequencer != null && |requests| == |times| && Recent(d, k) && Rested(d, k, times)
    requires i < |requests| && Low16(k) in requests[i]
    ensures m in Found(d, requests, times) && Plain(m) == Plain(d.sequencer.slots[SlotOf(d, k)])
  {
    var q := d.sequencer;
    q.LookedUp(k);
    MayAnswer(q, times, k);
    var at := AskAllFinds(q.slots[..], q.step, q.headSN, requests, times, Low16(k), SlotOf(d, k));
    m := q.slots[..][SlotOf(d, k)].(lastNack := at);
  }

  /**
   Retransmission fidelity. Take any packet that the track wrote as head and that is still among
   the last max - 1 numbers of its sequencer, and whose source packet is still in the bucket of its
   layer. When a NACK names its number, more than 100 ms after the last one did, the packets that
   are sent for it include this very packet, with the header and the payload that were written the
   first time.
   */
  lemma RetransmissionFidelity(d: DownTrack, requests: seq<seq<u16>>, times: seq<u32>, views: seq<View>,
                               unmarshal: seq<byte> -> Option<RtpPacket>, k: int, i: nat, key: int)
    requires d.Valid() && d.sequencer != null && |requests| == |times| && Recent(d, k) && Rested(d, k, times)
    requires i < |requests| && Low16(k) in requests[i]
    requires var o := OriginOf(d, k); o.layer < |views| && InBucket(views[o.layer], key, unmarshal, o.source)
    requires (forall v :: v in views ==> v.Open?) && HaveLayers(Found(d, requests, times), views)
    ensures var out := OriginOf(d, k).out;
            && out in d.written && out.header.sequenceNumber == Low16(k)
            && out in Resent(Found(d, requests, times), views, unmarshal, d.simulcast.temporalSupported, d.binding)
  {
    var found, o := Found(d, requests, times), OriginOf(d, k);
    RecentWasWritten(d, k);
    var m := RecentIsFound(d, requests, times, k, i);
    AnswerRebuilds(m, o, views, key, unmarshal, d.simulcast.temporalSupported, d.binding);
    var n :| 0 <= n < |found| && found[n] == m;
    EachIsResent(found, views, unmarshal, d.simulcast.temporalSupported, d.binding, n);
  }

  /** A packet in the window is read back, and with that sent again, exactly when it fits the scratch buffer. */
  lemma ReadBackIff(v: View, key: int, m: PacketMeta, o: Origin, unmarshal: seq<byte> -> Option<RtpPacket>,
                    temporal: bool, b: Binding)
    requires Sane(v) && key in v.ring.live && Low16(key) == o.source.header.sequenceNumber
    requires unmarshal(v.ring.live[key]) == Some(o.source) && Rebuilds(temporal, b, Plain(m), o)
    ensures RebuiltFrom(v, m, unmarshal, temporal, b) == if |v.ring.live[key]| <= 1460 then Some(o.out) else None
  {
    InBucketReads(v, key);
  }

  /**
   The same from the start: a packet that the bucket accepted, and has kept since, in whatever run
   of packets and restarts. The bucket takes up to 1498 bytes, the scratch buffer only 1460: a longer
   packet is found in the sequencer, but not sent.
   */
  lemma AcceptedPacketIsSentAgain(d: DownTrack, requests: seq<seq<u16>>, times: seq<u32>, views: seq<View>,
                                  unmarshal: seq<byte> -> Option<RtpPacket>, k: int, i: nat,
                                  rs: seq<Ring>, evs: seq<Event>, stored: nat, n: nat, key: int, pkt: seq<byte>)
      returns (m: PacketMeta)
    requires d.Valid() && d.sequencer != null && |requests| == |times| && Recent(d, k) && Rested(d, k, times)
    requires i < |requests| && Low16(k) in requests[i]
    requires var o := OriginOf(d, k);
             && o.layer < |views| && Sane(views[o.layer])
             && Run(rs, evs, views[o.layer].size) && KeptSince(rs, evs, views[o.layer].size, stored, n, key, pkt)
             && views[o.layer].ring == rs[n]
             && Low16(key) == o.source.header.sequenceNumber && unmarshal(pkt) == Some(o.source)
    requires (forall v :: v in views ==> v.Open?) && HaveLayers(Found(d, requests, times), views)
    ensures m in Found(d, requests, times) && Plain(m) == Plain(d.sequencer.slots[SlotOf(d, k)])
    ensures RebuiltFrom(views[OriginOf(d, k).layer], m, unmarshal, d.simulcast.temporalSupported, d.binding)
            == if |pkt| <= 1460 then Some(OriginOf(d, k).out) else None
    ensures |pkt| <= 1460 ==>
            OriginOf(d, k).out
            in Resent(Found(d, requests, times), views, unmarshal, d.simulcast.temporalSupported, d.binding)
  {
    var v := views[OriginOf(d, k).layer];
    Retained(rs, evs, v.size, stored, n, key, pkt);
    RecentWasWritten(d, k);
    m := RecentIsFound(d, requests, times, k, i);
    ReadBackIff(v, key, m, OriginOf(d, k), unmarshal, d.simulcast.temporalSupported, d.binding);
    if |pkt| <= BUFFER_SIZE {
      RetransmissionFidelity(d, requests, times, views, unmarshal, k, i, key);
    }
  }

  // ---------------------------------------------------------------- nothing else is sent

  /** Whatever is sent was rebuilt for one of the requests. */
  lemma {:induction false} ResentFrom(metas: seq<PacketMeta>, views: seq<View>,
                                      unmarshal: seq<byte> -> Option<RtpPacket>,
                                      temporal: bool, b: Binding, out: RtpPacket) returns (m: PacketMeta)
    requires HaveLayers(metas, views) && out in Resent(metas, views, unmarshal, temporal, b)
    ensures m in metas && m.layer < |views| && views[m.layer].Open?
    ensures RebuiltFrom(views[m.layer], m, unmarshal, temporal, b) == Some(out)
  {
    var first := Listed(RebuiltFrom(views[metas[0].layer], metas[0], unmarshal, temporal, b));
    if out in first {
      m := metas[0];
    } else {
      m := ResentFrom(metas[1..], views, unmarshal, temporal, b, out);
    }
  }

  /** What a number reads as: the one live packet, if any, with these low bits. */
  lemma ReadsAsIff(v: View, sn: u16, bytes: seq<byte>)
    requires Sane(v)
    ensures ReadAt(v, sn) == Some(bytes) <==> exists k :: k in v.ring.live && Low16(k) == sn && v.ring.live[k] == bytes
  {
    if ReadAt(v, sn) == Some(bytes) {
      PacketBucket.BehindBits(v.ring.head, sn);
    }
    forall k | k in v.ring.live && Low16(k) == sn ensures ReadAt(v, sn) == Some(v.ring.live[k]) {
      InBucketReads(v, k);
    }
  }

  /** The states and calls that a bucket has gone through. */
  datatype Past = Past(rings: seq<Ring>, calls: seq<Event>)

  /** Call i of the bucket stored this source packet under the key, and the bucket has not restarted since. */
  ghost predicate Stored(v: View, past: Past, i: nat, key: int, unmarshal: seq<byte> -> Option<RtpPacket>,
                         source: RtpPacket) {
    && Sane(v) && Run(past.rings, past.calls, v.size) && v.ring == past.rings[|past.calls|]
    && i < |past.calls| && RunningSince(past.calls, i, |past.calls|)
    && Stores(past.calls[i], key, past.calls[i].pkt) && unmarshal(past.calls[i].pkt) == Some(source)
    && Low16(key) == source.header.sequenceNumber
  }

  /**
   A stored packet's number reads as another packet exactly when the bucket has a packet whole
   cycles of 2^16 above it.
   */
  lemma ReplacedIff(v: View, past: Past, i: nat, key: int, unmarshal: seq<byte> -> Option<RtpPacket>,
                    source: RtpPacket, bytes: seq<byte>)
    requires Stored(v, past, i, key, unmarshal, source) && bytes != past.calls[i].pkt
    ensures ReadAt(v, Low16(key)) == Some(bytes) <==>
            exists k :: k in v.ring.live && k > key && Low16(k) == Low16(key) && v.ring.live[k] == bytes
  {
    NeverReplaced(past.rings, past.calls, v.size, i, |past.calls|, key, past.calls[i].pkt);
    ReadsAsIff(v, Low16(key), bytes);
    forall k | k in v.ring.live && Low16(k) == Low16(key) && v.ring.live[k] == bytes ensures k > key {
      if key in v.ring.live {
        OneCycleIsUnambiguous(v.ring, v.size, k, key);
      }
    }
  }

  /** While the head is less than a cycle past a stored packet, its number reads as this packet or as none. */
  lemma YoungIsNotReplaced(v: View, past: Past, i: nat, key: int, unmarshal: seq<byte> -> Option<RtpPacket>,
                           source: RtpPacket)
    requires Stored(v, past, i, key, unmarshal, source) && v.ring.head - key < 0x1_0000
    ensures ReadAt(v, Low16(key)) == if key in v.ring.live then Some(past.calls[i].pkt) else None
  {
    NeverReplaced(past.rings, past.calls, v.size, i, |past.calls|, key, past.calls[i].pkt);
    if key in v.ring.live {
      InBucketReads(v, key);
    } else if ReadAt(v, Low16(key)).Some? {
      ReadsAsIff(v, Low16(key), ReadAt(v, Low16(key)).value);
      var k :| k in v.ring.live && Low16(k) == Low16(key);
      OneCycleIsUnambiguous(v.ring, 0x1_0000, k, key);
      assert false;
    }
  }

  /** The source was stored in the bucket of its layer, whose head is less than a cycle past it. */
  ghost predicate StillMeant(v: View, past: Past, unmarshal: seq<byte> -> Option<RtpPacket>, source: RtpPacket) {
    exists i: nat, key :: Stored(v, past, i, key, unmarshal, source) && v.ring.head - key < 0x1_0000
  }

  /**
   Every packet that the sequencer still has metadata of was stored less than a cycle ago, as far as
   it can be read.
   */
  ghost predicate AllStillMeant(held: seq<Holding>, views: seq<View>, pasts: seq<Past>,
                                unmarshal: seq<byte> -> Option<RtpPacket>) {
    && |pasts| == |views|
    && forall j :: 0 <= j < |held| && held[j].Held? ==>
         var o := held[j].origin;
         o.layer < |views| && views[o.layer].Open? ==> StillMeant(views[o.layer], pasts[o.layer], unmarshal, o.source)
  }

  lemma RebuiltIsOut(v: View, past: Past, m: PacketMeta, o: Origin, unmarshal: seq<byte> -> Option<RtpPacket>,
                     temporal: bool, b: Binding, out: RtpPacket)
    requires v.Open? && RebuiltFrom(v, m, unmarshal, temporal, b) == Some(out)
    requires Rebuilds(temporal, b, Plain(m), o) && StillMeant(v, past, unmarshal, o.source)
    ensures out == o.out && out.header.sequenceNumber == m.targetSeqNo
  {
    var i: nat, key :| Stored(v, past, i, key, unmarshal, o.source) && v.ring.head - key < 0x1_0000;
    YoungIsNotReplaced(v, past, i, key, unmarshal, o.source);
  }

  /**
   Nothing else is sent. As long as every bucket is less than a cycle past the packets that the
   sequencer has metadata of, every packet sent for a NACK has a number that was asked for and was
   written before, except that a slot that was never filled may answer for number 0.
   */
  lemma NothingElseIsSent(d: DownTrack, requests: seq<seq<u16>>, times: seq<u32>, views: seq<View>, pasts: seq<Past>,
                          unmarshal: seq<byte> -> Option<RtpPacket>, out: RtpPacket) returns (i: nat, j: nat)
    requires d.Valid() && d.sequencer != null && |requests| == |times| && HaveLayers(Found(d, requests, times), views)
    requires AllStillMeant(d.held, views, pasts, unmarshal)
    requires out in Resent(Found(d, requests, times), views, unmarshal, d.simulcast.temporalSupported, d.binding)
    ensures i < |requests| && j < |d.held|
    ensures if d.held[j].Held? then out == d.held[j].origin.out && out in d.written
            && out.header.sequenceNumber in requests[i]
            else 0 in requests[i] && LooksIn(d.sequencer.step, d.sequencer.headSN, 0, d.sequencer.max, j)
  {
    var q := d.sequencer;
    var m := ResentFrom(Found(d, requests, times), views, unmarshal, d.simulcast.temporalSupported, d.binding, out);
    i, j := AskAllGivesSlots(q.slots[..], q.step, q.headSN, requests, times, m);
    if d.held[j].Held? {
      RebuiltIsOut(views[m.layer], pasts[m.layer], m, d.held[j].origin, unmarshal, d.simulcast.temporalSupported,
                   d.binding, out);
    } else {
      assert Plain(q.slots[..][j]) == ZERO_META;
    }
  }

  // ---------------------------------------------------------------- another packet is sent

  /**
   With no condition on time: what is sent for the metadata of a written packet differs from it
   exactly when the bucket has a packet whole cycles above the source that fits the scratch
   buffer, parses and rebuilds to something else.
   */
  lemma AnotherIsSentIff(v: View, past: Past, i: nat, key: int, m: PacketMeta, o: Origin,
                         unmarshal: seq<byte> -> Option<RtpPacket>, temporal: bool, b: Binding, out: RtpPacket)
    requires Stored(v, past, i, key, unmarshal, o.source) && Rebuilds(temporal, b, Plain(m), o) && out != o.out
    ensures RebuiltFrom(v, m, unmarshal, temporal, b) == Some(out) <==>
            exists k :: k in v.ring.live && k > key && Low16(k) == Low16(key)
                && Leads(v.ring.live[k], m, unmarshal, temporal, b, out)
  {
    var pkt := past.calls[i].pkt;
    assert !Leads(pkt, m, unmarshal, temporal, b, out);
    if RebuiltFrom(v, m, unmarshal, temporal, b) == Some(out) {
      ReplacedIff(v, past, i, key, unmarshal, o.source, ReadAt(v, Low16(key)).value);
    }
    forall k | k in v.ring.live && k > key && Low16(k) == Low16(key)
        && Leads(v.ring.live[k], m, unmarshal, temporal, b, out)
      ensures RebuiltFrom(v, m, unmarshal, temporal, b) == Some(out)
    {
      InBucketReads(v, k);
    }
  }

  /** From these bytes and this metadata the packet is rebuilt. */
  ghost predicate Leads(bytes: seq<byte>, m: PacketMeta, unmarshal: seq<byte> -> Option<RtpPacket>, temporal: bool,
                        b: Binding, out: RtpPacket) {
    && |bytes| <= 1460 && unmarshal(bytes).Some?
    && Rebuild(temporal, b, m, unmarshal(bytes).value) == Some(out)
  }

  /** It then does go out: the payload of another packet, under the number that was asked for. */
  lemma AnotherIsSent(d: DownTrack, requests: seq<seq<u16>>, times: seq<u32>, views: seq<View>,
                      unmarshal: seq<byte> -> Option<RtpPacket>, k: int, i: nat, key: int, out: RtpPacket)
    requires d.Valid() && d.sequencer != null && |requests| == |times| && Recent(d, k) && Rested(d, k, times)
    requires i < |requests| && Low16(k) in requests[i]
    requires var o := OriginOf(d, k);
             && o.layer < |views| && Sane(views[o.layer]) && key in views[o.layer].ring.live
             && Low16(key) == o.source.header.sequenceNumber
             && Leads(views[o.layer].ring.live[key], d.sequencer.slots[SlotOf(d, k)], unmarshal,
                      d.simulcast.temporalSupported, d.binding, out)
    requires (forall v :: v in views ==> v.Open?) && HaveLayers(Found(d, requests, times), views)
    ensures out in Resent(Found(d, requests, times), views, unmarshal, d.simulcast.temporalSupported, d.binding)
  {
    RecentWasWritten(d, k);
    var m := RecentIsFound(d, requests, times, k, i);
    var n :| 0 <= n < |Found(d, requests, times)| && Found(d, requests, times)[n] == m;
    InBucketReads(views[OriginOf(d, k).layer], key);
    EachIsResent(Found(d, requests, times), views, unmarshal, d.simulcast.temporalSupported, d.binding, n);
  }

  /**
   A run in which this happens: three packets half a cycle apart, after which the first one's
   number reads as the third. Its payload is then sent under the number that the first one had.
   */
  lemma AfterACycleAnotherIsSent(first: seq<byte>, middle: seq<byte>, last: seq<byte>, size: nat, m: PacketMeta,
                                 o: Origin, unmarshal: seq<byte> -> Option<RtpPacket>, temporal: bool, b: Binding,
                                 other: RtpPacket)
    requires 4 <= |first| <= BUFFER_SIZE && 4 <= |middle| <= BUFFER_SIZE && 4 <= |last| <= BUFFER_SIZE
    requires SeqNum(first) == 0 == SeqNum(last) && SeqNum(middle) == 0x8000 && 0 < size <= 0x8000
    requires unmarshal(first) == Some(o.source) && o.source.header.sequenceNumber == 0
    requires unmarshal(last) == Some(other) && Rebuilds(temporal, b, Plain(m), o)
    ensures var r1, r2 := Ring(0, map[0 := first]), Ring(0x8000, map[0x8000 := middle]);
            var r3 := Ring(0x1_0000, map[0x1_0000 := last]);
            var past := Past([Ring(0, map[]), r1, r2, r3],
                             [Restarted(0, first), Added(0x8000, middle, true), Added(0x1_0000, last, true)]);
            var v := Open(true, 0, size, r3);
            && Stored(v, past, 0, 0, unmarshal, o.source)
            && RebuiltFrom(v, m, unmarshal, temporal, b) == Rebuild(temporal, b, m, other)
  {}

  // ---------------------------------------------------------------- both steps

  ghost predicate LayersBelow(metas: seq<PacketMeta>, n: nat) {
    forall i :: 0 <= i < |metas| ==> metas[i].layer < n
  }

  lemma {:induction false} AskKeepsLayers(slots: seq<PacketMeta>, step: nat, headSN: u16, sns: seq<u16>, at: u32,
                                          n: nat)
    requires step < |slots| && LayersBelow(slots, n)
    ensures var a := Ask(slots, step, headSN, sns, at); LayersBelow(a.slots, n) && LayersBelow(a.metas, n)
  {
    if sns != [] {
      AskKeepsLayers(slots, step, headSN, sns[..|sns| - 1], at, n);
    }
  }

  lemma {:induction false} AskAllKeepsLayers(slots: seq<PacketMeta>, step: nat, headSN: u16, requests: seq<seq<u16>>,
                                             times: seq<u32>, n: nat)
    requires step < |slots| && |requests| == |times| && LayersBelow(slots, n)
    ensures var a := AskAll(slots, step, headSN, requests, times); LayersBelow(a.slots, n) && LayersBelow(a.metas, n)
  {
    if requests != [] {
      var last := |requests| - 1;
      AskAllKeepsLayers(slots, step, headSN, requests[..last], times[..last], n);
      var a := AskAll(slots, step, headSN, requests[..last], times[..last]);
      AskKeepsLayers(a.slots, step, headSN, requests[last], times[last], n);
    }
  }

  /**
   What the track does on a NACK: the numbers of each pair go through the sequencer, then everything
   found is sent.
   */
  method HandleNack(d: DownTrack, requests: seq<seq<u16>>, times: seq<u32>, buffers: seq<LayerBuffer?>,
                    unmarshal: seq<byte> -> Option<RtpPacket>, ghost views: seq<View>)
    requires d.Valid() && |requests| == |times| && Viewed(buffers, views)
    requires d.sequencer != null ==> LayersBelow(d.sequencer.slots[..], |buffers|)
    modifies d`written, if d.sequencer == null then {} else {d.sequencer.slots}
    ensures d.Valid()
    ensures if d.sequencer == null then d.written == old(d.written)
            else var a := AskAll(old(d.sequencer.slots[..]), d.sequencer.step, d.sequencer.headSN, requests, times);
                 && HaveLayers(a.metas, views) && d.sequencer.slots[..] == a.slots
                 && d.written == old(d.written)
                    + Resent(a.metas, views, unmarshal, d.simulcast.temporalSupported, d.binding)
  {
    if d.sequencer != null {
      AskAllKeepsLayers(d.sequencer.slots[..], d.sequencer.step, d.sequencer.headSN, requests, times, |buffers|);
      ghost var before := d.sequencer.slots[..];
      var metas := Requested(d.sequencer, requests, times);
      AskAllKeepsEntries(before, d.sequencer.step, d.sequencer.headSN, requests, times);
      assert Remembered(d.sequencer.slots[..], d.held, d.simulcast.temporalSupported, d.binding);
      RetransmitPackets(d, metas, buffers, unmarshal, views);
    }
  }
}
