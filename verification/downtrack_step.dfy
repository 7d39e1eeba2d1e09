/**
 What a down track does to one packet, as a function of its state: the offsets that it keeps for
 sequence numbers, timestamps and VP8 picture numbers, over source switches and dropped layers.
 */
module DownTrackStep {
  import opened Words
  import opened VP8Descriptor

  /** An RTP header: the fields the track rewrites, and the bytes of all the others. */
  datatype Header = Header(sequenceNumber: u16, timestamp: u32, ssrc: u32, payloadType: byte, other: seq<byte>)

  datatype RtpPacket = RtpPacket(header: Header, payload: seq<byte>)

  /** buffer.ExtPacket. */
  datatype ExtPacket = ExtPacket(head: bool, arrival: int, packet: RtpPacket, vp8: Option<Fields>, keyFrame: bool)

  datatype Simulcast = Simulcast(temporalSupported: bool, lTSCalc: int,
                                 pRefPicID: u16, refPicID: u16, lPicID: u16,
                                 pRefTlZIdx: byte, refTlZIdx: byte, lTlZIdx: byte)

  /** The two halves of the temporalLayer word: the current layer in the low 16 bits, the target in the high ones. */
  datatype Layers = Layers(current: u16, target: u16)

  datatype Track = Track(reSync: bool, snOffset: u16, tsOffset: u32, lastSSRC: u32, lastSN: u16, lastTS: u32,
                         layers: Layers, simulcast: Simulcast)

  /** What stays the same for a bound track. */
  datatype Binding = Binding(ssrc: u32, payloadType: byte, isVP8: bool)

  /** What the track hands to the sequencer and the writer for a packet it forwards. */
  datatype Sent = Sent(sourceSN: u16, newSN: u16, newTS: u32, head: bool, withVP8: bool, tlz0Idx: byte, picID: u16,
                       out: RtpPacket)

  datatype Outcome = Outcome(track: Track, sent: Option<Sent>)

  // ---------------------------------------------------------------- temporal layers

  /** The layer switch or the decision to drop of setVP8TemporalLayer. */
  function TemporalChoice(layers: Layers, tid: byte): (Layers, bool) {
    if layers.target != layers.current then
      (if tid <= Low8(layers.target) then Layers(layers.target, layers.target) else layers, false)
    else (layers, tid > Low8(layers.current))
  }

  /** The picture number and TL0PICIDX that stand for those of the source. */
  function NextPicture(s: Simulcast, id: u16): u16 {
    Add16(Add16(Sub16(id, s.refPicID), s.pRefPicID), 1)
  }

  function NextTlZ(s: Simulcast, tl0: byte): byte {
    Add8(Add8(Sub8(tl0, s.refTlZIdx), s.pRefTlZIdx), 1)
  }

  datatype Temporal = Temporal(track: Track, payload: seq<byte>, picID: u16, tlz0Idx: byte, drop: bool)

  /** setVP8TemporalLayer. */
  function SetTemporalLayer(t: Track, p: ExtPacket): Temporal
    requires p.vp8.Some? ==> Parse(p.packet.payload) == p.vp8
  {
    match p.vp8
    case None => Temporal(t, [], 0, 0, false)
    case Some(f) =>
      var (layers, drop) := TemporalChoice(t.layers, f.tid);
      if drop then Temporal(t, [], 0, 0, true)
      else
        ParsedIndices(p.packet.payload);
        var picID := NextPicture(t.simulcast, f.pictureID);
        var tlz := NextTlZ(t.simulcast, f.tl0PicIdx);
        var s := if p.head then t.simulcast.(lPicID := picID, lTlZIdx := tlz) else t.simulcast;
        Temporal(t.(layers := layers, simulcast := s),
                 Rewritten(p.packet.payload, f.picIDIdx, f.tlzIdx, picID, tlz, f.mBit), picID, tlz, false)
  }

  /** No more than one temporal layer is wanted, and that is the current one. */
  predicate OnLayer(layers: Layers, n: nat) {
    n < 0x100 && layers == Layers(n, n)
  }

  /** A switch to another temporal layer is under way. */
  predicate Switching(layers: Layers, target: nat) {
    layers.current != target && target < 0x100 && layers.target == target
  }

  /** On a layer, exactly the packets above it are dropped, and it stays the layer. */
  lemma LayerFilters(layers: Layers, tid: byte, n: nat)
    requires OnLayer(layers, n)
    ensures OnLayer(TemporalChoice(layers, tid).0, n) && (TemporalChoice(layers, tid).1 <==> tid > n)
  {}

  /** During a switch nothing is dropped, and the first packet that the target layer includes ends it. */
  lemma SwitchEnds(layers: Layers, tid: byte, target: nat)
    requires Switching(layers, target)
    ensures !TemporalChoice(layers, tid).1
    ensures if tid <= target then OnLayer(TemporalChoice(layers, tid).0, target)
            else TemporalChoice(layers, tid).0 == layers
  {}

  // ---------------------------------------------------------------- simulcast

  /** The packet cannot be used: the track waits for a keyframe. */
  predicate Waits(t: Track, p: ExtPacket) {
    t.reSync && !p.keyFrame
  }

  /** The references for picture numbers, and the end of a resync, at a packet of another source or in a resync. */
  function Resynced(t: Track, b: Binding, p: ExtPacket): Track {
    if t.lastSSRC != p.packet.header.ssrc || t.reSync then
      var s := if t.reSync && t.simulcast.lTSCalc != 0 then t.simulcast.(lTSCalc := p.arrival) else t.simulcast;
      var r := if s.temporalSupported && b.isVP8 && p.vp8.Some? then
                 s.(pRefPicID := s.lPicID, refPicID := p.vp8.value.pictureID,
                    pRefTlZIdx := s.lTlZIdx, refTlZIdx := p.vp8.value.tl0PicIdx)
               else s;
      t.(reSync := false, simulcast := r)
    else t
  }

  /**
   td: how far the timestamp goes on over a switch, from the time since the last packet in
   nanoseconds; at least 1.
   */
  function TimeStep(arrival: int, last: int): u32 {
    var td := Low32(GoDiv(GoDiv(arrival - last, 1_000_000) * 90, 1000));
    if td == 0 then 1 else td
  }

  /** The offsets after a switch of the source, or the start of the track. */
  function Rebased(t: Track, b: Binding, p: ExtPacket, td: u32): Track {
    var h := p.packet.header;
    if t.simulcast.lTSCalc != 0 && t.lastSSRC != h.ssrc then
      t.(lastSSRC := h.ssrc,
         tsOffset := Sub32(h.timestamp, Add32(t.lastTS, td)),
         snOffset := Sub16(Sub16(h.sequenceNumber, t.lastSN), 1))
    else if t.simulcast.lTSCalc == 0 then
      t.(lastTS := h.timestamp, lastSN := h.sequenceNumber,
         simulcast := if b.isVP8 && p.vp8.Some? then t.simulcast.(temporalSupported := p.vp8.value.temporalSupported)
                      else t.simulcast)
    else t
  }

  function Ready(t: Track, b: Binding, p: ExtPacket): Track {
    var r := Resynced(t, b, p);
    Rebased(r, b, p, TimeStep(p.arrival, r.simulcast.lTSCalc))
  }

  /**
   A video timestamp counts 90 ticks per millisecond (section 4.1 of RFC 7741). The code divides
   by another 1000: over any time of at least a millisecond, the step is too short, and until it
   wraps around after more than a year it is that of a thousandth of the whole milliseconds.
   */
  lemma TimeStepIsTooShort(last: int, arrival: int)
    requires arrival - last >= 1_000_000
    ensures var td, ms := TimeStep(arrival, last), GoDiv(arrival - last, 1_000_000);
            && td < 90 * ms && 1_000_000 * td < 90 * (arrival - last)
            && (ms < 12 ==> td == 1)
            && (12 <= ms < 40_000_000_000 ==> ms * 90 - 1000 < 1000 * td <= ms * 90)
  {
    var ms := GoDiv(arrival - last, 1_000_000);
    GoDivTruncates(arrival - last, 1_000_000);
    GoDivTruncates(ms * 90, 1000);
    Low32Below(GoDiv(ms * 90, 1000));
  }

  /** The header of the packet on the way out. */
  function Outgoing(b: Binding, h: Header, newSN: u16, newTS: u32): Header {
    h.(sequenceNumber := newSN, timestamp := newTS, ssrc := b.ssrc, payloadType := b.payloadType)
  }

  /** The rest of writeSimulcastRTP for a packet that is not dropped. */
  function Forward(t: Track, b: Binding, p: ExtPacket, payload: seq<byte>, withVP8: bool, tlz0Idx: byte,
                   picID: u16): Outcome {
    var h := p.packet.header;
    var newSN, newTS := Sub16(h.sequenceNumber, t.snOffset), Sub32(h.timestamp, t.tsOffset);
    var s := Sent(h.sequenceNumber, newSN, newTS, p.head, withVP8, tlz0Idx, picID,
                  RtpPacket(Outgoing(b, h, newSN, newTS), payload));
    Outcome(Finished(t, s, p.arrival), Some(s))
  }

  /** The last number and timestamp once a packet is written. */
  function LastSent(t: Track, s: Sent): Track {
    if s.head then t.(lastSN := s.newSN, lastTS := s.newTS) else t
  }

  /** The state once a packet of a simulcast track is written. */
  function Finished(t: Track, s: Sent, arrival: int): Track {
    var u := LastSent(t, s);
    u.(simulcast := u.simulcast.(lTSCalc := arrival))
  }

  /** writeSimulcastRTP for a packet of the track's current spatial layer. */
  function SimulcastStep(t: Track, b: Binding, p: ExtPacket): Outcome
    requires p.vp8.Some? ==> Parse(p.packet.payload) == p.vp8
  {
    if Waits(t, p) then Outcome(t, None)
    else
      var r := Ready(t, b, p);
      if r.simulcast.temporalSupported && b.isVP8 then
        var m := SetTemporalLayer(r, p);
        if m.drop then Outcome(m.track.(snOffset := Add16(r.snOffset, 1)), None)
        else Forward(m.track, b, p, m.payload, true, m.tlz0Idx, m.picID)
      else Forward(r, b, p, p.packet.payload, false, 0, 0)
  }

  // ---------------------------------------------------------------- simple tracks

  /** A resync keeps numbers and timestamps going one above the last ones. */
  function SimpleResynced(t: Track, p: ExtPacket): Track {
    var h := p.packet.header;
    if t.reSync then
      var o := if t.lastSN != 0 then
                 t.(snOffset := Sub16(Sub16(h.sequenceNumber, t.lastSN), 1),
                    tsOffset := Sub32(Sub32(h.timestamp, t.lastTS), 1))
               else t;
      o.(lastSSRC := h.ssrc, reSync := false)
    else t
  }

  /** writeSimpleRTP: forwards everything, with one offset per resync. */
  function SimpleStep(t: Track, b: Binding, p: ExtPacket, isVideo: bool): Outcome {
    if t.reSync && isVideo && !p.keyFrame then Outcome(t, None)
    else
      var h, r := p.packet.header, SimpleResynced(t, p);
      var newSN, newTS := Sub16(h.sequenceNumber, r.snOffset), Sub32(h.timestamp, r.tsOffset);
      var s := Sent(h.sequenceNumber, newSN, newTS, p.head, false, 0, 0,
                    RtpPacket(Outgoing(b, h, newSN, newTS), p.packet.payload));
      Outcome(LastSent(r, s), Some(s))
  }

  /**
   A track that waits for a keyframe does nothing on any other packet, so that in every run the
   first packet that it sends is a keyframe, or comes after one.
   */
  lemma {:induction false} NothingBeforeKeyframe(t: Track, b: Binding, ps: seq<ExtPacket>, i: nat)
    requires t.reSync && AllInOrder(ps) && i <= |ps| && forall k :: 0 <= k < i ==> !ps[k].keyFrame
    ensures TrackAfter(t, b, FirstOf(ps, i)) == t
    ensures i < |ps| && SentAt(t, b, ps, i).Some? ==> ps[i].keyFrame
  {
    if i > 0 {
      NothingBeforeKeyframe(t, b, ps, i - 1);
      StepOf(t, b, ps, i - 1);
    }
  }

  /** The track has temporal layers, or learns so from its first packet. */
  predicate HasLayers(t: Track, b: Binding, p: ExtPacket) {
    b.isVP8 && if t.simulcast.lTSCalc == 0 && p.vp8.Some? then p.vp8.value.temporalSupported
               else t.simulcast.temporalSupported
  }

  /**
   Exactly what a simulcast track does not send: packets before the keyframe that it waits for, and
   those above the temporal layer that it is on. Everything else it sends, and waits no more.
   */
  lemma SimulcastSentIff(t: Track, b: Binding, p: ExtPacket)
    requires FieldsParsed(p) && p.arrival != 0
    ensures var o := SimulcastStep(t, b, p);
            var above := HasLayers(t, b, p) && p.vp8.Some? && t.layers.target == t.layers.current
                         && p.vp8.value.tid > Low8(t.layers.current);
            && (o.sent.Some? <==> (t.reSync ==> p.keyFrame) && !above)
            && (t.reSync && !p.keyFrame ==> o.track == t)
            && (t.reSync && p.keyFrame ==> !o.track.reSync)
  {}

  /** A simple track sends everything, from a keyframe on if it is video. */
  lemma SimpleSentIff(t: Track, b: Binding, p: ExtPacket, isVideo: bool)
    ensures var o := SimpleStep(t, b, p, isVideo);
            && (o.sent.Some? <==> !t.reSync || !isVideo || p.keyFrame)
            && (o.sent.None? ==> o.track == t) && (o.sent.Some? ==> !o.track.reSync)
  {}

  // ---------------------------------------------------------------- what goes out

  /** The packet is one of the subscriber's stream, with this number and timestamp. */
  ghost predicate Own(out: RtpPacket, b: Binding) {
    out.header.ssrc == b.ssrc && out.header.payloadType == b.payloadType
  }

  /**
   The packet as written: number and timestamp are the computed ones, SSRC and payload type those
   that the subscriber negotiated, and all else of the header is the source's. So is the payload,
   except that VP8 with temporal layers has picture number and TL0PICIDX replaced.
   */
  ghost predicate GoesOut(s: Sent, b: Binding, p: ExtPacket) {
    var h := p.packet.header;
    && Own(s.out, b) && s.out.header.sequenceNumber == s.newSN && s.out.header.timestamp == s.newTS
    && s.out.header.other == h.other && s.sourceSN == h.sequenceNumber && s.head == p.head
    && |s.out.payload| == |p.packet.payload|
    && (!s.withVP8 ==> s.out.payload == p.packet.payload)
  }

  lemma SimulcastGoesOut(t: Track, b: Binding, p: ExtPacket)
    requires FieldsParsed(p) && SimulcastStep(t, b, p).sent.Some? && (b.isVP8 ==> p.vp8.Some?)
    ensures var s := SimulcastStep(t, b, p).sent.value;
            && GoesOut(s, b, p)
            && (s.withVP8 <==> b.isVP8 && SimulcastStep(t, b, p).track.simulcast.temporalSupported)
            && (s.withVP8 && p.vp8.value.mBit && p.vp8.value.tlzIdx != 0 ==>
                  Parse(s.out.payload) == Some(p.vp8.value.(pictureID := Low15(s.picID), tl0PicIdx := s.tlz0Idx)))
  {
    var s := SimulcastStep(t, b, p).sent.value;
    if s.withVP8 && p.vp8.value.mBit && p.vp8.value.tlzIdx != 0 {
      RewriteRoundTrip(p.packet.payload, s.picID, s.tlz0Idx);
    }
  }

  lemma SimpleGoesOut(t: Track, b: Binding, p: ExtPacket, isVideo: bool)
    requires SimpleStep(t, b, p, isVideo).sent.Some?
    ensures var s := SimpleStep(t, b, p, isVideo).sent.value; GoesOut(s, b, p) && !s.withVP8
  {}

  /** The codec fields are those of the payload. */
  predicate FieldsParsed(p: ExtPacket) {
    p.vp8.Some? ==> Parse(p.packet.payload) == p.vp8
  }

  // ---------------------------------------------------------------- output numbers and timestamps

  /** How many numbers of one source are missing between two of its packets. */
  function Lost(prev: u16, sn: u16): u16 {
    Sub16(Sub16(sn, prev), 1)
  }

  /** What a run of packets in order has for input: head packets that arrive at some time, of well-formed payloads. */
  predicate InOrder(p: ExtPacket) {
    p.head && p.arrival != 0 && (p.vp8.Some? ==> Parse(p.packet.payload) == p.vp8)
  }

  predicate AllInOrder(ps: seq<ExtPacket>) {
    forall i :: 0 <= i < |ps| ==> InOrder(ps[i])
  }

  /** The first i packets of a run. */
  function FirstOf(ps: seq<ExtPacket>, i: nat): (r: seq<ExtPacket>)
    requires i <= |ps| && AllInOrder(ps)
    ensures AllInOrder(r) && |r| == i
  {
    ps[..i]
  }

  /**
   What the next packet has to add to the last number and timestamp sent, both as they wrap, and
   the arrival of the packet that sent them.
   */
  datatype Owed = Owed(numbers: u16, time: u32, since: int)

  /**
   Between two packets of a source, the next number to send is `owed.numbers` numbers after the
   last one sent, one for every packet that was lost since then and none for the dropped ones,
   and the next timestamp continues from that of the last packet that came, sent or not.
   */
  ghost predicate Follows(t: Track, prev: Header, owed: Owed) {
    && !t.reSync && t.simulcast.lTSCalc == owed.since != 0
    && t.lastSSRC == prev.ssrc
    && Sub16(prev.sequenceNumber, t.snOffset) == Add16(t.lastSN, owed.numbers)
    && Sub32(prev.timestamp, t.tsOffset) == Add32(t.lastTS, owed.time)
  }

  /**
   What is owed once the next packet is there. Within a source, losses add up and time goes on as
   the source counts it; a switch of the source forgets the losses and counts the time since the
   last packet that was sent.
   */
  function OwedAt(owed: Owed, prev: Header, p: ExtPacket): Owed {
    var h := p.packet.header;
    if h.ssrc == prev.ssrc then OwedWithin(owed, prev, h) else Owed(0, TimeStep(p.arrival, owed.since), owed.since)
  }

  function OwedWithin(owed: Owed, prev: Header, h: Header): Owed {
    Owed(Add16(owed.numbers, Lost(prev.sequenceNumber, h.sequenceNumber)),
         Add32(owed.time, Sub32(h.timestamp, prev.timestamp)), owed.since)
  }

  /** The number after `last` and the numbers owed. */
  function NextNumber(last: u16, owed: u16): u16 {
    Add16(Add16(last, 1), owed)
  }

  lemma SameSourceNumber(offset: u16, last: u16, owed: u16, prev: u16, sn: u16)
    requires Sub16(prev, offset) == Add16(last, owed)
    ensures Sub16(sn, offset) == NextNumber(last, Add16(owed, Lost(prev, sn)))
  {}

  lemma OneLess(sn: u16, offset: u16, last: u16, owed: u16)
    requires Sub16(sn, offset) == NextNumber(last, owed)
    ensures Sub16(sn, Add16(offset, 1)) == Add16(last, owed)
  {}

  lemma SwitchNumber(last: u16, sn: u16)
    ensures Sub16(sn, Sub16(Sub16(sn, last), 1)) == NextNumber(last, 0)
  {}

  lemma SameSourceTime(offset: u32, last: u32, owed: u32, prev: u32, ts: u32)
    requires Sub32(prev, offset) == Add32(last, owed)
    ensures Sub32(ts, offset) == Add32(last, Add32(owed, Sub32(ts, prev)))
  {}

  lemma SwitchTime(last: u32, ts: u32, td: u32)
    ensures Sub32(ts, Sub32(ts, Add32(last, td))) == Add32(last, td)
  {}

  /** The offsets with which a packet is forwarded or dropped. */
  ghost predicate Due(t: Track, r: Track, h: Header, due: Owed) {
    && !r.reSync && r.lastSSRC == h.ssrc && r.lastSN == t.lastSN && r.lastTS == t.lastTS
    && r.simulcast.lTSCalc == due.since != 0
    && Sub16(h.sequenceNumber, r.snOffset) == NextNumber(t.lastSN, due.numbers)
    && Sub16(h.sequenceNumber, Add16(r.snOffset, 1)) == Add16(t.lastSN, due.numbers)
    && Sub32(h.timestamp, r.tsOffset) == Add32(t.lastTS, due.time)
  }

  lemma SameSourceIsDue(t: Track, prev: Header, h: Header, owed: Owed)
    requires Follows(t, prev, owed) && h.ssrc == prev.ssrc
    ensures Due(t, t, h, OwedWithin(owed, prev, h))
  {
    SameSourceNumber(t.snOffset, t.lastSN, owed.numbers, prev.sequenceNumber, h.sequenceNumber);
    OneLess(h.sequenceNumber, t.snOffset, t.lastSN, Add16(owed.numbers, Lost(prev.sequenceNumber, h.sequenceNumber)));
    SameSourceTime(t.tsOffset, t.lastTS, owed.time, prev.timestamp, h.timestamp);
  }

  lemma SwitchIsDue(t: Track, r: Track, h: Header, td: u32, since: int)
    requires !r.reSync && r.lastSSRC == h.ssrc && r.lastSN == t.lastSN && r.lastTS == t.lastTS
    requires r.simulcast.lTSCalc == since != 0
    requires r.tsOffset == Sub32(h.timestamp, Add32(t.lastTS, td))
    requires r.snOffset == Sub16(Sub16(h.sequenceNumber, t.lastSN), 1)
    ensures Due(t, r, h, Owed(0, td, since))
  {
    SwitchNumber(t.lastSN, h.sequenceNumber);
    OneLess(h.sequenceNumber, r.snOffset, t.lastSN, 0);
    SwitchTime(t.lastTS, h.timestamp, td);
  }

  lemma OtherSourceIsDue(t: Track, b: Binding, p: ExtPacket, td: u32)
    requires !t.reSync && t.simulcast.lTSCalc != 0 && t.lastSSRC != p.packet.header.ssrc
    ensures Due(t, Rebased(Resynced(t, b, p), b, p, td), p.packet.header, Owed(0, td, t.simulcast.lTSCalc))
  {
    SwitchIsDue(t, Rebased(Resynced(t, b, p), b, p, td), p.packet.header, td, t.simulcast.lTSCalc);
  }

  lemma RebasedIsDue(t: Track, b: Binding, p: ExtPacket, prev: Header, owed: Owed, td: u32)
    requires Follows(t, prev, owed) && InOrder(p)
    ensures Due(t, Rebased(Resynced(t, b, p), b, p, td), p.packet.header,
                if p.packet.header.ssrc == prev.ssrc then OwedWithin(owed, prev, p.packet.header)
                    else Owed(0, td, owed.since))
  {
    if p.packet.header.ssrc == prev.ssrc {
      SameSourceIsDue(t, prev, p.packet.header, owed);
    } else {
      OtherSourceIsDue(t, b, p, td);
    }
  }

  /** What a step does once its offsets are known. */
  lemma DueStep(t: Track, b: Binding, p: ExtPacket, due: Owed)
    requires !Waits(t, p) && InOrder(p) && Due(t, Ready(t, b, p), p.packet.header, due)
    ensures var o := SimulcastStep(t, b, p);
            && (o.sent.Some? ==>
                  && o.sent.value.newSN == NextNumber(t.lastSN, due.numbers) == o.track.lastSN
                  && o.sent.value.newTS == Add32(t.lastTS, due.time) == o.track.lastTS
                  && Follows(o.track, p.packet.header, Owed(0, 0, p.arrival)))
            && (o.sent.None? ==>
                  o.track.lastSN == t.lastSN && o.track.lastTS == t.lastTS && Follows(o.track, p.packet.header, due))
  {}

  /**
   One packet: if it is forwarded, its number is the last number sent plus one plus the numbers
   owed, and its timestamp is the last one plus the time owed; if it is dropped, its own number is
   not owed, but the losses before it and its time are.
   */
  lemma StepNumbered(t: Track, b: Binding, p: ExtPacket, prev: Header, owed: Owed)
    requires Follows(t, prev, owed) && InOrder(p)
    ensures var o := SimulcastStep(t, b, p);
            var due := OwedAt(owed, prev, p);
            && (o.sent.Some? ==>
                  && o.sent.value.newSN == NextNumber(t.lastSN, due.numbers) == o.track.lastSN
                  && o.sent.value.newTS == Add32(t.lastTS, due.time) == o.track.lastTS
                  && Follows(o.track, p.packet.header, Owed(0, 0, p.arrival)))
            && (o.sent.None? ==>
                  o.track.lastSN == t.lastSN && o.track.lastTS == t.lastTS && Follows(o.track, p.packet.header, due))
  {
    RebasedIsDue(t, b, p, prev, owed, TimeStep(p.arrival, owed.since));
    DueStep(t, b, p, OwedAt(owed, prev, p));
  }

  /** The track after some packets. */
  function TrackAfter(t: Track, b: Binding, ps: seq<ExtPacket>): Track
    requires AllInOrder(ps)
    decreases |ps|
  {
    if |ps| == 0 then t else SimulcastStep(TrackAfter(t, b, FirstOf(ps, |ps| - 1)), b, ps[|ps| - 1]).track
  }

  /** What becomes of the i-th packet of a run. */
  function SentAt(t: Track, b: Binding, ps: seq<ExtPacket>, i: nat): Option<Sent>
    requires i < |ps| && AllInOrder(ps)
  {
    SimulcastStep(TrackAfter(t, b, FirstOf(ps, i)), b, ps[i]).sent
  }

  /** What is owed for packets j + 1 up to i of a run when packet j was sent. */
  function OwedBetween(ps: seq<ExtPacket>, j: nat, i: nat): Owed
    requires j <= i < |ps|
  {
    if j == i then Owed(0, 0, ps[j].arrival) else OwedAt(OwedBetween(ps, j, i - 1), ps[i - 1].packet.header, ps[i])
  }

  /** The state after packet i of a run, which follows on a packet j that was sent. */
  ghost predicate Reached(t: Track, b: Binding, ps: seq<ExtPacket>, j: nat, i: nat)
    requires j <= i < |ps| && AllInOrder(ps)
  {
    var u := TrackAfter(t, b, FirstOf(ps, i + 1));
    && SentAt(t, b, ps, j).Some? && u.lastSN == SentAt(t, b, ps, j).value.newSN
       && u.lastTS == SentAt(t, b, ps, j).value.newTS
    && Follows(u, ps[i].packet.header, OwedBetween(ps, j, i))
  }

  lemma StepOf(t: Track, b: Binding, ps: seq<ExtPacket>, i: nat)
    requires AllInOrder(ps) && i < |ps|
    ensures TrackAfter(t, b, FirstOf(ps, i + 1)) == SimulcastStep(TrackAfter(t, b, FirstOf(ps, i)), b, ps[i]).track
  {
    assert FirstOf(FirstOf(ps, i + 1), i) == FirstOf(ps, i);
  }

  /** One packet later. */
  lemma ReachedNext(t: Track, b: Binding, ps: seq<ExtPacket>, j: nat, i: nat)
    requires AllInOrder(ps) && j < i < |ps| && Reached(t, b, ps, j, i - 1)
    ensures var s := SentAt(t, b, ps, i);
            if s.Some? then
              && Reached(t, b, ps, i, i)
              && s.value.newSN == NextNumber(SentAt(t, b, ps, j).value.newSN, OwedBetween(ps, j, i).numbers)
              && s.value.newTS == Add32(SentAt(t, b, ps, j).value.newTS, OwedBetween(ps, j, i).time)
            else Reached(t, b, ps, j, i)
  {
    StepNumbered(TrackAfter(t, b, FirstOf(ps, i)), b, ps[i], ps[i - 1].packet.header, OwedBetween(ps, j, i - 1));
    StepOf(t, b, ps, i);
  }

  /** From any sent packet on, to the next one that is sent. */
  lemma {:induction false} ReachedLater(t: Track, b: Binding, ps: seq<ExtPacket>, j: nat, i: nat)
    requires AllInOrder(ps) && j <= i < |ps| && Reached(t, b, ps, j, j)
    requires forall k :: j < k <= i ==> SentAt(t, b, ps, k).None?
    ensures Reached(t, b, ps, j, i)
  {
    if j < i {
      ReachedLater(t, b, ps, j, i - 1);
      ReachedNext(t, b, ps, j, i);
    }
  }

  /** A track that is past its start has reached each packet that it sends. */
  lemma {:induction false} SentIsReached(t: Track, b: Binding, ps: seq<ExtPacket>, first: Header, owed: Owed, i: nat)
      returns (prev: Header, due: Owed)
    requires AllInOrder(ps) && Follows(t, first, owed) && i < |ps|
    ensures Follows(TrackAfter(t, b, FirstOf(ps, i)), prev, due)
    ensures SentAt(t, b, ps, i).Some? ==> Reached(t, b, ps, i, i)
  {
    prev, due := first, owed;
    if i > 0 {
      var before, was := SentIsReached(t, b, ps, first, owed, i - 1);
      StepNumbered(TrackAfter(t, b, FirstOf(ps, i - 1)), b, ps[i - 1], before, was);
      StepOf(t, b, ps, i - 1);
      prev := ps[i - 1].packet.header;
      due := if SentAt(t, b, ps, i - 1).Some? then Owed(0, 0, ps[i - 1].arrival) else OwedAt(was, before, ps[i - 1]);
    }
    StepNumbered(TrackAfter(t, b, FirstOf(ps, i)), b, ps[i], prev, due);
    StepOf(t, b, ps, i);
  }

  lemma SentHeader(t: Track, b: Binding, p: ExtPacket)
    requires FieldsParsed(p) && SimulcastStep(t, b, p).sent.Some?
    ensures var s := SimulcastStep(t, b, p).sent.value;
            s.out.header == Header(s.newSN, s.newTS, b.ssrc, b.payloadType, p.packet.header.other)
  {}

  /**
   Output numbering conserves gaps. In every run of packets in order, with any losses, dropped
   temporal layers and source switches, a forwarded packet i is numbered right after the packet j
   forwarded before it, plus one number for each packet of its own source that was lost since
   packet j or since the last switch: drops and switches leave no hole. Its timestamp is as far
   behind that of packet j as in the source, with the arrival times bridging a switch.
   */
  lemma OutputConservesGaps(t: Track, b: Binding, ps: seq<ExtPacket>, first: Header, owed: Owed, j: nat, i: nat)
    requires AllInOrder(ps) && Follows(t, first, owed) && j < i < |ps|
    requires SentAt(t, b, ps, j).Some? && SentAt(t, b, ps, i).Some?
    requires forall k :: j < k < i ==> SentAt(t, b, ps, k).None?
    ensures var before, h := SentAt(t, b, ps, j).value.out.header, SentAt(t, b, ps, i).value.out.header;
            && h.sequenceNumber == NextNumber(before.sequenceNumber, OwedBetween(ps, j, i).numbers)
            && h.timestamp == Add32(before.timestamp, OwedBetween(ps, j, i).time)
            && h.ssrc == b.ssrc == before.ssrc && h.payloadType == b.payloadType && h.other == ps[i].packet.header.other
  {
    SentHeader(TrackAfter(t, b, FirstOf(ps, j)), b, ps[j]);
    SentHeader(TrackAfter(t, b, FirstOf(ps, i)), b, ps[i]);
    var prev, due := SentIsReached(t, b, ps, first, owed, j);
    ReachedLater(t, b, ps, j, i - 1);
    ReachedNext(t, b, ps, j, i);
  }

  /** Where nothing was lost since the last switch, nothing is owed; and losses are only ever counted once. */
  lemma {:induction false} NoLossNothingOwed(ps: seq<ExtPacket>, j: nat, i: nat)
    requires j <= i < |ps|
    requires forall k :: j < k <= i && ps[k].packet.header.ssrc == ps[k - 1].packet.header.ssrc ==>
               ps[k].packet.header.sequenceNumber == Add16(ps[k - 1].packet.header.sequenceNumber, 1)
    ensures OwedBetween(ps, j, i).numbers == 0
  {
    if j < i {
      NoLossNothingOwed(ps, j, i - 1);
    }
  }

  function HeadPacket(ssrc: u32, sn: u16, ts: u32, arrival: int): ExtPacket {
    ExtPacket(true, arrival, RtpPacket(Header(sn, ts, ssrc, 96, []), []), None, true)
  }

  /**
   After number 10 of source 7 come 11 and 13 of the same source and then 500 of another: they go out
   as 11, 13 and 14.
   */
  lemma AGapAndASwitch()
    ensures var t := Track(false, 0, 0, 7, 10, 1000, Layers(0, 0), Simulcast(false, 5, 0, 0, 0, 0, 0, 0));
            var b := Binding(1, 96, false);
            var ps := [HeadPacket(7, 11, 2000, 6), HeadPacket(7, 13, 4000, 7), HeadPacket(9, 500, 77, 8)];
            && AllInOrder(ps) && Follows(t, Header(10, 1000, 7, 96, []), Owed(0, 0, 5))
            && SentAt(t, b, ps, 0).Some? && SentAt(t, b, ps, 0).value.newSN == 11
            && SentAt(t, b, ps, 1).Some? && SentAt(t, b, ps, 1).value.newSN == 13
            && SentAt(t, b, ps, 2).Some? && SentAt(t, b, ps, 2).value.newSN == 14
  {
    var t := Track(false, 0, 0, 7, 10, 1000, Layers(0, 0), Simulcast(false, 5, 0, 0, 0, 0, 0, 0));
    var b := Binding(1, 96, false);
    var ps := [HeadPacket(7, 11, 2000, 6), HeadPacket(7, 13, 4000, 7), HeadPacket(9, 500, 77, 8)];
    StepOf(t, b, ps, 0);
    StepOf(t, b, ps, 1);
  }

  // ---------------------------------------------------------------- late packets and unmuting

  /** A late packet of the track's source, to be sent or dropped like any other. */
  predicate Late(p: ExtPacket, prev: Header) {
    !p.head && p.arrival != 0 && p.packet.header.ssrc == prev.ssrc && (p.vp8.Some? ==> Parse(p.packet.payload) == p.vp8)
  }

  /**
   A late packet conserves the numbering exactly when it is not dropped for its layer. Dropping it
   raises the offset a second time for its place, so that one number less is owed.
   */
  lemma LatePacketIff(t: Track, b: Binding, p: ExtPacket, prev: Header, owed: Owed)
    requires Follows(t, prev, owed) && Late(p, prev)
    ensures var o := SimulcastStep(t, b, p);
            && o.track.lastSN == t.lastSN && o.track.lastTS == t.lastTS
            && (Sub16(prev.sequenceNumber, o.track.snOffset) == Add16(t.lastSN, owed.numbers) <==> o.sent.Some?)
            && (o.sent.Some? ==> Follows(o.track, prev, owed.(since := p.arrival)))
            && (o.sent.None? ==> Follows(o.track, prev, owed.(numbers := Sub16(owed.numbers, 1))))
  {
    LateOffset(prev.sequenceNumber, t.snOffset, t.lastSN, owed.numbers);
  }

  lemma LateOffset(prev: u16, offset: u16, last: u16, owed: u16)
    requires Sub16(prev, offset) == Add16(last, owed)
    ensures Sub16(prev, Add16(offset, 1)) == Add16(last, Sub16(owed, 1)) != Add16(last, owed)
  {}

  /** With nothing owed, the packet after a late one that was dropped repeats the last number sent. */
  lemma LateDropRepeats(t: Track, b: Binding, late: ExtPacket, p: ExtPacket, prev: Header, owed: Owed)
    requires Follows(t, prev, owed) && owed.numbers == 0 && Late(late, prev) && SimulcastStep(t, b, late).sent.None?
    requires InOrder(p) && p.packet.header.ssrc == prev.ssrc
             && Lost(prev.sequenceNumber, p.packet.header.sequenceNumber) == 0
    ensures var s := SimulcastStep(SimulcastStep(t, b, late).track, b, p).sent;
            s.Some? ==> s.value.newSN == t.lastSN
  {
    LatePacketIff(t, b, late, prev, owed);
    StepNumbered(SimulcastStep(t, b, late).track, b, p, prev, owed.(numbers := Sub16(owed.numbers, 1)));
    RepeatedNumber(t.lastSN);
  }

  lemma RepeatedNumber(last: u16)
    ensures NextNumber(last, Add16(Sub16(0, 1), 0)) == last
  {}

  /**
   The first packet that a simulcast track sends after it was muted, of the source that it had
   before: what went by meanwhile leaves a hole, so that the number is the next one exactly when
   nothing did and nothing was owed.
   */
  lemma UnmuteIff(t: Track, b: Binding, p: ExtPacket, prev: Header, owed: Owed)
    requires t.reSync && Follows(t.(reSync := false), prev, owed)
    requires InOrder(p) && p.keyFrame && p.packet.header.ssrc == prev.ssrc && SimulcastStep(t, b, p).sent.Some?
    ensures var due := Add16(owed.numbers, Lost(prev.sequenceNumber, p.packet.header.sequenceNumber));
            var newSN := SimulcastStep(t, b, p).sent.value.newSN;
            && newSN == NextNumber(t.lastSN, due) && (newSN == Add16(t.lastSN, 1) <==> due == 0)
            && SimulcastStep(t, b, p).sent.value.newTS
               == Add32(t.lastTS, Add32(owed.time, Sub32(p.packet.header.timestamp, prev.timestamp)))
  {
    SameSourceTime(t.tsOffset, t.lastTS, owed.time, prev.timestamp, p.packet.header.timestamp);
    SameSourceNumber(t.snOffset, t.lastSN, owed.numbers, prev.sequenceNumber, p.packet.header.sequenceNumber);
    OnlyZeroIsNext(t.lastSN, Add16(owed.numbers, Lost(prev.sequenceNumber, p.packet.header.sequenceNumber)));
  }

  /**
   If the source has changed meanwhile, the packet follows the last one by one number and one tick:
   the time since the last packet does not count, because a resync starts the clock anew.
   */
  lemma UnmuteOtherSource(t: Track, b: Binding, p: ExtPacket)
    requires t.reSync && t.simulcast.lTSCalc != 0 && InOrder(p) && p.keyFrame && p.packet.header.ssrc != t.lastSSRC
    requires SimulcastStep(t, b, p).sent.Some?
    ensures var s := SimulcastStep(t, b, p).sent.value;
            s.newSN == Add16(t.lastSN, 1) && s.newTS == Add32(t.lastTS, 1)
  {
    var h := p.packet.header;
    assert TimeStep(p.arrival, p.arrival) == 1;
    SwitchNumber(t.lastSN, h.sequenceNumber);
    SwitchTime(t.lastTS, h.timestamp, 1);
    OnlyZeroIsNext(t.lastSN, 0);
  }

  lemma OnlyZeroIsNext(last: u16, due: u16)
    ensures NextNumber(last, due) == Add16(last, 1) <==> due == 0
  {}

  // ---------------------------------------------------------------- which packets are sent

  /** A VP8 track that is past its start, with temporal layers. */
  ghost predicate Layered(t: Track, b: Binding) {
    b.isVP8 && t.simulcast.temporalSupported && !t.reSync && t.simulcast.lTSCalc != 0
  }

  predicate AllLayered(ps: seq<ExtPacket>) {
    AllInOrder(ps) && forall i :: 0 <= i < |ps| ==> ps[i].vp8.Some?
  }

  lemma LayeredStep(t: Track, b: Binding, p: ExtPacket)
    requires Layered(t, b) && InOrder(p) && p.vp8.Some?
    ensures var o := SimulcastStep(t, b, p);
            && Layered(o.track, b)
            && (o.sent.None? <==> TemporalChoice(t.layers, p.vp8.value.tid).1)
            && (o.sent.Some? ==> o.track.layers == TemporalChoice(t.layers, p.vp8.value.tid).0)
            && (o.sent.None? ==> o.track.layers == t.layers)
  {}

  /** In every run on one temporal layer, over any source switches, exactly the packets up to that layer are sent. */
  lemma {:induction false} LayerIsSent(t: Track, b: Binding, ps: seq<ExtPacket>, layer: nat, i: nat)
    requires Layered(t, b) && OnLayer(t.layers, layer) && AllLayered(ps) && i < |ps|
    ensures Layered(TrackAfter(t, b, FirstOf(ps, i)), b) && OnLayer(TrackAfter(t, b, FirstOf(ps, i)).layers, layer)
    ensures SentAt(t, b, ps, i).Some? <==> ps[i].vp8.value.tid <= layer
  {
    if i > 0 {
      LayerIsSent(t, b, ps, layer, i - 1);
      StepOf(t, b, ps, i - 1);
      LayeredStep(TrackAfter(t, b, FirstOf(ps, i - 1)), b, ps[i - 1]);
      LayerFilters(TrackAfter(t, b, FirstOf(ps, i - 1)).layers, ps[i - 1].vp8.value.tid, layer);
    }
    LayeredStep(TrackAfter(t, b, FirstOf(ps, i)), b, ps[i]);
    LayerFilters(TrackAfter(t, b, FirstOf(ps, i)).layers, ps[i].vp8.value.tid, layer);
  }

  // ---------------------------------------------------------------- picture numbers

  predicate Switches(t: Track, p: ExtPacket) {
    t.lastSSRC != p.packet.header.ssrc || t.reSync
  }

  /** The source's picture number and TL0PICIDX that the last ones sent stand for. */
  datatype Picture = Picture(id: u16, tl0: byte)

  ghost predicate PicturesFollow(s: Simulcast, last: Picture) {
    s.lPicID == NextPicture(s, last.id) && s.lTlZIdx == NextTlZ(s, last.tl0)
  }

  /** At a switch, the new source's picture comes right after whatever was sent last. */
  function PictureBefore(t: Track, p: ExtPacket, last: Picture): Picture
    requires p.vp8.Some?
  {
    if Switches(t, p) then Picture(Sub16(p.vp8.value.pictureID, 1), Sub8(p.vp8.value.tl0PicIdx, 1)) else last
  }

  lemma PictureNumber(ref: u16, pRef: u16, last: u16, id: u16)
    ensures Add16(Add16(Sub16(id, ref), pRef), 1) == Add16(Add16(Add16(Sub16(last, ref), pRef), 1), Sub16(id, last))
  {}

  lemma TlzNumber(ref: byte, pRef: byte, last: byte, id: byte)
    ensures Add8(Add8(Sub8(id, ref), pRef), 1) == Add8(Add8(Add8(Sub8(last, ref), pRef), 1), Sub8(id, last))
  {}

  lemma PictureSelf(id: u16, l: u16, tl0: byte, lTl: byte)
    ensures l == Add16(Add16(Sub16(Sub16(id, 1), id), l), 1)
    ensures lTl == Add8(Add8(Sub8(Sub8(tl0, 1), tl0), lTl), 1)
  {}

  /**
   Picture numbers (15 bits on the wire) and TL0PICIDX go on as in the source between two packets
   of one source that are sent, and by one over a switch, whatever was dropped in between. The
   second packet of a track counts as a switch too (SecondPictureIff).
   */
  lemma StepPictures(t: Track, b: Binding, p: ExtPacket, last: Picture)
    requires b.isVP8 && t.simulcast.temporalSupported && t.simulcast.lTSCalc != 0 && !Waits(t, p)
    requires InOrder(p) && p.vp8.Some? && PicturesFollow(t.simulcast, last)
    ensures var o := SimulcastStep(t, b, p);
            var before := PictureBefore(t, p, last);
            var id, tl0 := p.vp8.value.pictureID, p.vp8.value.tl0PicIdx;
            && (o.sent.Some? ==>
                  && o.sent.value.picID == Add16(t.simulcast.lPicID, Sub16(id, before.id)) == o.track.simulcast.lPicID
                  && o.sent.value.tlz0Idx == Add8(t.simulcast.lTlZIdx, Sub8(tl0, before.tl0))
                     == o.track.simulcast.lTlZIdx
                  && PicturesFollow(o.track.simulcast, Picture(id, tl0)))
            && (o.sent.None? ==>
                  && o.track.simulcast.lPicID == t.simulcast.lPicID && o.track.simulcast.lTlZIdx == t.simulcast.lTlZIdx
                  && PicturesFollow(o.track.simulcast, before))
  {
    var s := Resynced(t, b, p).simulcast;
    var f, before := p.vp8.value, PictureBefore(t, p, last);
    PictureSelf(f.pictureID, t.simulcast.lPicID, f.tl0PicIdx, t.simulcast.lTlZIdx);
    assert PicturesFollow(s, before);
    PictureNumber(s.refPicID, s.pRefPicID, before.id, f.pictureID);
    TlzNumber(s.refTlZIdx, s.pRefTlZIdx, before.tl0, f.tl0PicIdx);
  }

  /**
   A late packet gets the picture number that it has in the source, relative to the last one, which
   stays the last one.
   */
  lemma LatePictures(t: Track, b: Binding, p: ExtPacket, last: Picture)
    requires b.isVP8 && t.simulcast.temporalSupported && t.simulcast.lTSCalc != 0 && !Switches(t, p)
    requires FieldsParsed(p) && !p.head && p.vp8.Some? && PicturesFollow(t.simulcast, last)
    requires SimulcastStep(t, b, p).sent.Some?
    ensures var s, now := SimulcastStep(t, b, p).sent.value, SimulcastStep(t, b, p).track.simulcast;
            && s.picID == Add16(t.simulcast.lPicID, Sub16(p.vp8.value.pictureID, last.id))
            && s.tlz0Idx == Add8(t.simulcast.lTlZIdx, Sub8(p.vp8.value.tl0PicIdx, last.tl0))
            && now.lPicID == t.simulcast.lPicID && now.lTlZIdx == t.simulcast.lTlZIdx && PicturesFollow(now, last)
  {
    var s, f := t.simulcast, p.vp8.value;
    PictureNumber(s.refPicID, s.pRefPicID, last.id, f.pictureID);
    TlzNumber(s.refTlZIdx, s.pRefTlZIdx, last.tl0, f.tl0PicIdx);
  }

  /**
   Two packets that are sent for one picture, with none between them, keep one number exactly when
   the second is no switch.
   */
  lemma OnePictureIff(t: Track, b: Binding, p: ExtPacket, last: Picture)
    requires b.isVP8 && t.simulcast.temporalSupported && t.simulcast.lTSCalc != 0 && !Waits(t, p)
    requires InOrder(p) && p.vp8.Some? && PicturesFollow(t.simulcast, last) && p.vp8.value.pictureID == last.id
    requires SimulcastStep(t, b, p).sent.Some?
    ensures SimulcastStep(t, b, p).sent.value.picID == t.simulcast.lPicID <==> !Switches(t, p)
  {
    StepPictures(t, b, p, last);
    OneOrNone(t.simulcast.lPicID, last.id);
  }

  lemma OneOrNone(x: u16, id: u16)
    ensures Add16(x, Sub16(id, id)) == x && Add16(x, Sub16(id, Sub16(id, 1))) == Add16(x, 1) != x
  {}

  // ---------------------------------------------------------------- the start of a track

  /** Numbering as it should be between two packets of a source, at any point of a run. */
  predicate GapConserved(last: u16, prev: Header, h: Header, newSN: u16) {
    newSN == NextNumber(last, if h.ssrc == prev.ssrc then Lost(prev.sequenceNumber, h.sequenceNumber) else 0)
  }

  /** A track before its first packet: the zero value, waiting for a keyframe. */
  function NewTrack(layers: Layers): Track {
    Track(true, 0, 0, 0, 0, 0, layers, Simulcast(false, 0, 0, 0, 0, 0, 0, 0))
  }

  /**
   The first forwarded packet does not record its source, so the second one always counts as a
   switch: its number is the next one even if packets were lost in between. The gap is conserved
   exactly if none was, or if the source did change.
   */
  lemma SecondPacketIff(b: Binding, layers: Layers, first: ExtPacket, second: ExtPacket)
    requires InOrder(first) && InOrder(second) && first.packet.header.ssrc != 0 && second.packet.header.ssrc != 0
    requires SimulcastStep(NewTrack(layers), b, first).sent.Some?
    requires SimulcastStep(SimulcastStep(NewTrack(layers), b, first).track, b, second).sent.Some?
    ensures var o := SimulcastStep(NewTrack(layers), b, first);
            var s := SimulcastStep(o.track, b, second);
            && o.sent.value.newSN == first.packet.header.sequenceNumber
            && s.sent.value.newTS == Add32(first.packet.header.timestamp, TimeStep(second.arrival, first.arrival))
            && Follows(s.track, second.packet.header, Owed(0, 0, second.arrival))
            && (GapConserved(o.sent.value.newSN, first.packet.header, second.packet.header, s.sent.value.newSN) <==>
                  || first.packet.header.ssrc != second.packet.header.ssrc
                  || second.packet.header.sequenceNumber == Add16(first.packet.header.sequenceNumber, 1))
  {
    var t := SimulcastStep(NewTrack(layers), b, first).track;
    StartTrack(b, layers, first);
    SecondIsSwitch(t, b, second);
    LostIsNone(t.lastSN, second.packet.header.sequenceNumber);
  }

  /** The state after the first forwarded packet. */
  ghost predicate Started(t: Track, h: Header) {
    t.lastSSRC == 0 && !t.reSync && t.simulcast.lTSCalc != 0 && t.lastSN == h.sequenceNumber
  }

  /** The first packet, even a late one, goes out under its own number and time, from which the track goes on. */
  lemma StartTrack(b: Binding, layers: Layers, first: ExtPacket)
    requires first.arrival != 0 && FieldsParsed(first) && SimulcastStep(NewTrack(layers), b, first).sent.Some?
    ensures var o, h := SimulcastStep(NewTrack(layers), b, first), first.packet.header;
            && o.sent.value.out.header == h.(ssrc := b.ssrc, payloadType := b.payloadType)
            && Started(o.track, h) && o.track.lastTS == h.timestamp && o.track.simulcast.lTSCalc == first.arrival
  {
    NoOffset(first.packet.header.sequenceNumber);
    NoOffset32(first.packet.header.timestamp);
  }

  lemma NoOffset(sn: u16)
    ensures Sub16(sn, 0) == sn
  {}

  lemma SecondIsSwitch(t: Track, b: Binding, p: ExtPacket)
    requires !t.reSync && t.simulcast.lTSCalc != 0 && t.lastSSRC != p.packet.header.ssrc && InOrder(p)
    requires SimulcastStep(t, b, p).sent.Some?
    ensures var s := SimulcastStep(t, b, p);
            && s.sent.value.newSN == NextNumber(t.lastSN, 0)
            && s.sent.value.newTS == Add32(t.lastTS, TimeStep(p.arrival, t.simulcast.lTSCalc))
            && Follows(s.track, p.packet.header, Owed(0, 0, p.arrival))
  {
    var td := TimeStep(p.arrival, t.simulcast.lTSCalc);
    OtherSourceIsDue(t, b, p, td);
    DueStep(t, b, p, Owed(0, td, t.simulcast.lTSCalc));
  }

  lemma LostIsNone(prev: u16, sn: u16)
    ensures Lost(prev, sn) == 0 <==> sn == Add16(prev, 1)
    ensures NextNumber(prev, Lost(prev, sn)) == NextNumber(prev, 0) <==> Lost(prev, sn) == 0
  {}

  /**
   The same for picture numbers: the first packet goes out as one above its own, and the second one
   as one above that, even if both are of one picture. They go on as in the source exactly if the
   second packet begins the next picture.
   */
  lemma SecondPictureIff(b: Binding, layers: Layers, first: ExtPacket, second: ExtPacket)
    requires b.isVP8 && InOrder(first) && InOrder(second) && first.vp8.Some? && second.vp8.Some?
    requires first.vp8.value.temporalSupported && second.packet.header.ssrc != 0
    requires SimulcastStep(NewTrack(layers), b, first).sent.Some?
    requires SimulcastStep(SimulcastStep(NewTrack(layers), b, first).track, b, second).sent.Some?
    ensures var o := SimulcastStep(NewTrack(layers), b, first);
            var s := SimulcastStep(o.track, b, second);
            var id, next := first.vp8.value.pictureID, second.vp8.value.pictureID;
            && o.sent.value.picID == Add16(id, 1) && s.sent.value.picID == Add16(o.sent.value.picID, 1)
            && (s.sent.value.picID == Add16(o.sent.value.picID, Sub16(next, id)) <==> next == Add16(id, 1))
  {
    var t := SimulcastStep(NewTrack(layers), b, first).track;
    var f, g := first.vp8.value, second.vp8.value;
    FirstPicture(f.pictureID, f.tl0PicIdx);
    StepPictures(t, b, second, Picture(f.pictureID, f.tl0PicIdx));
    NextIsOne(t.simulcast.lPicID, f.pictureID, g.pictureID);
  }

  lemma FirstPicture(id: u16, tl0: byte)
    ensures Add16(Add16(Sub16(id, 0), 0), 1) == Add16(id, 1) && Add8(Add8(Sub8(tl0, 0), 0), 1) == Add8(tl0, 1)
  {}

  lemma NextIsOne(x: u16, id: u16, next: u16)
    ensures Add16(x, Sub16(next, Sub16(next, 1))) == Add16(x, 1)
    ensures Add16(x, 1) == Add16(x, Sub16(next, id)) <==> next == Add16(id, 1)
  {}

  // ---------------------------------------------------------------- simple tracks, over a run

  /**
   Without a resync, a simple track keeps every gap of its source, and nothing but its gaps; and
   every time between.
   */
  lemma SimpleKeepsGaps(t: Track, b: Binding, p: ExtPacket, isVideo: bool, prev: Header)
    requires !t.reSync && p.head
    requires Sub16(prev.sequenceNumber, t.snOffset) == t.lastSN && Sub32(prev.timestamp, t.tsOffset) == t.lastTS
    ensures var o, h := SimpleStep(t, b, p, isVideo), p.packet.header;
            && o.sent.Some? && o.sent.value.newSN == NextNumber(t.lastSN, Lost(prev.sequenceNumber, h.sequenceNumber))
            && o.sent.value.newTS == Add32(t.lastTS, Sub32(h.timestamp, prev.timestamp))
            && Sub16(h.sequenceNumber, o.track.snOffset) == o.track.lastSN == o.sent.value.newSN
            && Sub32(h.timestamp, o.track.tsOffset) == o.track.lastTS == o.sent.value.newTS
            && !o.track.reSync
  {
    var h := p.packet.header;
    SameSourceNumber(t.snOffset, t.lastSN, 0, prev.sequenceNumber, h.sequenceNumber);
    SameSourceTime(t.tsOffset, t.lastTS, 0, prev.timestamp, h.timestamp);
  }

  /**
   The first packet after a resync gets the next number and the next tick, unless the last number
   happens to be 0, which the code takes for "none yet" so that the old offsets stay.
   */
  lemma SimpleResyncIff(t: Track, b: Binding, p: ExtPacket, isVideo: bool)
    requires t.reSync && SimpleStep(t, b, p, isVideo).sent.Some?
    ensures var s, h := SimpleStep(t, b, p, isVideo).sent.value, p.packet.header;
            && (s.newSN == Add16(t.lastSN, 1) <==> t.lastSN != 0 || Sub16(h.sequenceNumber, t.snOffset) == 1)
            && (s.newTS == Add32(t.lastTS, 1) <==>
                  t.lastSN != 0 || Sub32(h.timestamp, t.tsOffset) == Add32(t.lastTS, 1))
            && (isVideo ==> p.keyFrame)
  {
    SwitchNumber(t.lastSN, p.packet.header.sequenceNumber);
    NextTick(t.lastTS, p.packet.header.timestamp);
  }

  lemma NextTick(last: u32, ts: u32)
    ensures Sub32(ts, Sub32(Sub32(ts, last), 1)) == Add32(last, 1)
  {}

  /** The very first packet of a simple track goes out under its own number and time. */
  lemma SimpleStart(layers: Layers, b: Binding, p: ExtPacket, isVideo: bool)
    requires SimpleStep(NewTrack(layers), b, p, isVideo).sent.Some?
    ensures var out := SimpleStep(NewTrack(layers), b, p, isVideo).sent.value.out.header;
            out == p.packet.header.(ssrc := b.ssrc, payloadType := b.payloadType) && (isVideo ==> p.keyFrame)
  {
    NoOffset(p.packet.header.sequenceNumber);
    NoOffset32(p.packet.header.timestamp);
  }

  lemma NoOffset32(ts: u32)
    ensures Sub32(ts, 0) == ts
  {}

  /** What happens to a simple track. */
  datatype SimpleEvent = Came(packet: ExtPacket) | Muted(on: bool)

  /** A simple track, and whether it writes. */
  datatype Simple = Simple(track: Track, enabled: bool)

  function WrittenBy(s: Simple, b: Binding, isVideo: bool, e: SimpleEvent): Option<Sent> {
    if e.Came? && s.enabled then SimpleStep(s.track, b, e.packet, isVideo).sent else None
  }

  /** A packet is written exactly if the track is not muted, and for video if it need not wait for a keyframe. */
  lemma WrittenIff(s: Simple, b: Binding, isVideo: bool, e: SimpleEvent)
    ensures WrittenBy(s, b, isVideo, e).Some? <==>
            e.Came? && s.enabled && (s.track.reSync && isVideo ==> e.packet.keyFrame)
  {}

  /** WriteRTP and Mute. */
  function SimpleNext(s: Simple, b: Binding, isVideo: bool, e: SimpleEvent): Simple {
    match e
    case Came(p) => if s.enabled then s.(track := SimpleStep(s.track, b, p, isVideo).track) else s
    case Muted(on) => Simple(s.track.(reSync := s.track.reSync || (on && s.enabled)), !on)
  }

  /** The track after the first n events. */
  function SimpleAfter(s: Simple, b: Binding, isVideo: bool, es: seq<SimpleEvent>, n: nat): Simple
    requires n <= |es|
  {
    if n == 0 then s else SimpleNext(SimpleAfter(s, b, isVideo, es, n - 1), b, isVideo, es[n - 1])
  }

  /** What is written for event i. */
  function WrittenAt(s: Simple, b: Binding, isVideo: bool, es: seq<SimpleEvent>, i: nat): Option<Sent>
    requires i < |es|
  {
    WrittenBy(SimpleAfter(s, b, isVideo, es, i), b, isVideo, es[i])
  }

  /** Two packets of a source are as far apart on the way out as they were on the way in. */
  predicate AsFarApart(a: Header, b: Header, outA: Header, outB: Header) {
    && Sub16(outB.sequenceNumber, outA.sequenceNumber) == Sub16(b.sequenceNumber, a.sequenceNumber)
    && Sub32(outB.timestamp, outA.timestamp) == Sub32(b.timestamp, a.timestamp)
  }

  lemma SameOffsets(a: Header, b: Header, snOffset: u16, tsOffset: u32)
    ensures Sub16(Sub16(b.sequenceNumber, snOffset), Sub16(a.sequenceNumber, snOffset))
            == Sub16(b.sequenceNumber, a.sequenceNumber)
    ensures Sub32(Sub32(b.timestamp, tsOffset), Sub32(a.timestamp, tsOffset)) == Sub32(b.timestamp, a.timestamp)
  {}

  /** As long as the track is not muted, its offsets stay. */
  lemma {:induction false} OffsetsStay(s: Simple, b: Binding, isVideo: bool, es: seq<SimpleEvent>, i: nat, j: nat)
    requires i < j <= |es| && WrittenAt(s, b, isVideo, es, i).Some? && forall k :: i < k < j ==> es[k] != Muted(true)
    ensures var now, out := SimpleAfter(s, b, isVideo, es, j).track, WrittenAt(s, b, isVideo, es, i).value.out.header;
            var h := es[i].packet.packet.header;
            && !now.reSync
            && out.sequenceNumber == Sub16(h.sequenceNumber, now.snOffset)
            && out.timestamp == Sub32(h.timestamp, now.tsOffset)
  {
    if i + 1 < j {
      OffsetsStay(s, b, isVideo, es, i, j - 1);
    }
  }

  /**
   Any two packets that a simple track writes without being muted in between, late ones and those
   around losses included, are as far apart in number and time as they came in.
   */
  lemma SimpleRunKeepsDistances(s: Simple, b: Binding, isVideo: bool, es: seq<SimpleEvent>, i: nat, j: nat)
    requires i < j < |es| && WrittenAt(s, b, isVideo, es, i).Some? && WrittenAt(s, b, isVideo, es, j).Some?
    requires forall k :: i < k < j ==> es[k] != Muted(true)
    ensures AsFarApart(es[i].packet.packet.header, es[j].packet.packet.header,
                       WrittenAt(s, b, isVideo, es, i).value.out.header,
                       WrittenAt(s, b, isVideo, es, j).value.out.header)
  {
    OffsetsStay(s, b, isVideo, es, i, j);
    var now := SimpleAfter(s, b, isVideo, es, j).track;
    SameOffsets(es[i].packet.packet.header, es[j].packet.packet.header, now.snOffset, now.tsOffset);
  }

  predicate MutedBetween(es: seq<SimpleEvent>, i: nat, j: nat)
    requires j <= |es|
  {
    exists k :: i < k < j && es[k] == Muted(true)
  }

  /** While nothing is written, only the wish for a keyframe changes, and the enabled flag. */
  lemma {:induction false} NothingWritten(s: Simple, b: Binding, isVideo: bool, es: seq<SimpleEvent>, i: nat, j: nat)
    requires i < j <= |es| && WrittenAt(s, b, isVideo, es, i).Some?
    requires forall k :: i < k < j ==> WrittenAt(s, b, isVideo, es, k).None?
    ensures var before, now := SimpleAfter(s, b, isVideo, es, i + 1), SimpleAfter(s, b, isVideo, es, j);
            && !before.track.reSync && now.track == before.track.(reSync := MutedBetween(es, i, j))
            && (!MutedBetween(es, i, j) ==> now.enabled)
  {
    if i + 1 < j {
      NothingWritten(s, b, isVideo, es, i, j - 1);
      assert WrittenAt(s, b, isVideo, es, j - 1).None?;
      assert MutedBetween(es, i, j) <==> MutedBetween(es, i, j - 1) || es[j - 1] == Muted(true);
    }
  }

  /**
   After a mute: the next packet that is written follows the head packet before it by one number
   and one tick, and for video is a keyframe; except when that packet's number was 0, where the
   two are as far apart as they came in.
   */
  lemma SimpleRunAfterMute(s: Simple, b: Binding, isVideo: bool, es: seq<SimpleEvent>, i: nat, j: nat)
    requires i < j < |es| && WrittenAt(s, b, isVideo, es, i).Some? && WrittenAt(s, b, isVideo, es, j).Some?
    requires es[i].packet.head && (forall k :: i < k < j ==> WrittenAt(s, b, isVideo, es, k).None?)
    requires MutedBetween(es, i, j)
    ensures var before, h := WrittenAt(s, b, isVideo, es, i).value.out.header,
            WrittenAt(s, b, isVideo, es, j).value.out.header;
            && (isVideo ==> es[j].packet.keyFrame)
            && if before.sequenceNumber != 0 then
                 h.sequenceNumber == Add16(before.sequenceNumber, 1) && h.timestamp == Add32(before.timestamp, 1)
               else AsFarApart(es[i].packet.packet.header, es[j].packet.packet.header, before, h)
  {
    NothingWritten(s, b, isVideo, es, i, j);
    var now := SimpleAfter(s, b, isVideo, es, j).track;
    OffsetsStay(s, b, isVideo, es, i, i + 1);
    SwitchNumber(now.lastSN, es[j].packet.packet.header.sequenceNumber);
    NextTick(now.lastTS, es[j].packet.packet.header.timestamp);
    SameOffsets(es[i].packet.packet.header, es[j].packet.packet.header, now.snOffset, now.tsOffset);
  }
}
