/**
 The down track: forwards the packets of a source to a subscriber under its own numbers, and
 leaves in the sequencer what it takes to build the very same packet again.
 */
module DownTracks {
  import opened Words
  import opened VP8Descriptor
  import opened DownTrackStep
  import opened PacketSequencer

  const BUFFER_SIZE := 1460

  /** A packet as it came in, and as it went out. */
  datatype Origin = Origin(source: RtpPacket, layer: byte, out: RtpPacket)

  /** A payload with the picture number and TL0PICIDX of the metadata; None if it does not parse. */
  function Restored(payload: seq<byte>, m: PacketMeta): Option<seq<byte>> {
    match Parse(payload)
    case None => None
    case Some(f) =>
      ParsedIndices(payload);
      Some(Rewritten(payload, f.picIDIdx, f.tlzIdx, VP8PicID(m), VP8TlzIdx(m), f.mBit))
  }

  /** What the track wrote when it filled a slot of the sequencer. */
  datatype Holding = Empty | Held(origin: Origin)

  /** What RetransmitPackets makes of a packet and its metadata; None if it skips the packet. */
  function Rebuild(temporal: bool, b: Binding, m: PacketMeta, p: RtpPacket): Option<RtpPacket> {
    var h := Outgoing(b, p.header, m.targetSeqNo, m.timestamp);
    if temporal && b.isVP8 then
      var payload := Restored(p.payload, m);
      if payload.None? then None else Some(RtpPacket(h, payload.value))
    else Some(RtpPacket(h, p.payload))
  }

  /** The metadata leads back to the source packet, and from there to the packet that was sent. */
  ghost predicate Rebuilds(temporal: bool, b: Binding, m: PacketMeta, o: Origin) {
    m.sourceSeqNo == o.source.header.sequenceNumber && m.layer == o.layer
        && Rebuild(temporal, b, m, o.source) == Some(o.out)
  }

  /** The metadata that the track leaves for a packet it sends. */
  function MetaOf(s: Sent, layer: byte): PacketMeta {
    var m := PacketMeta(s.sourceSN, s.newSN, s.newTS, 0, layer, 0);
    if s.withVP8 then WithVP8Meta(m, s.tlz0Idx, s.picID) else m
  }

  /** The packets the buffer hands on: it fills in the codec fields, and with VP8 drops what does not parse. */
  predicate Usable(b: Binding, p: ExtPacket) {
    && p.arrival != 0
    && (p.vp8.Some? ==> Parse(p.packet.payload) == p.vp8)
    && (b.isVP8 ==> p.vp8.Some?)
  }

  /** A payload that is to be rewritten fits the track's buffer; the Go code slices beyond it otherwise. */
  predicate FitsBuffer(o: Outcome, p: ExtPacket) {
    o.sent.Some? && o.sent.value.withVP8 ==> |p.packet.payload| <= BUFFER_SIZE
  }

  /** Whatever the step forwards, with whatever offsets and whatever rewrite, its metadata rebuilds. */
  lemma SentRebuilds(t: Track, b: Binding, p: ExtPacket, layer: byte)
    requires Usable(b, p) && SimulcastStep(t, b, p).sent.Some?
    ensures var o := SimulcastStep(t, b, p);
            Rebuilds(o.track.simulcast.temporalSupported, b, MetaOf(o.sent.value, layer),
                     Origin(p.packet, layer, o.sent.value.out))
  {
    var o := SimulcastStep(t, b, p);
    var s := o.sent.value;
    if s.withVP8 {
      ParsedIndices(p.packet.payload);
      VP8MetaRoundTrip(PacketMeta(s.sourceSN, s.newSN, s.newTS, 0, layer, 0), s.tlz0Idx, s.picID);
    }
  }

  /** A track without temporal layers sends the payload as it is. */
  lemma SimpleSentRebuilds(t: Track, b: Binding, p: ExtPacket, video: bool)
    requires SimpleStep(t, b, p, video).sent.Some?
    ensures var s := SimpleStep(t, b, p, video).sent.value;
            Rebuilds(false, b, MetaOf(s, 0), Origin(p.packet, 0, s.out))
  {}

  /**
   Each slot that was filled rebuilds the packet that was written when it was filled, and the
   others still have the zero value.
   */
  ghost predicate Remembered(slots: seq<PacketMeta>, held: seq<Holding>, temporal: bool, b: Binding) {
    && |held| == |slots|
    && forall j :: 0 <= j < |slots| ==>
         match held[j]
         case Empty => Plain(slots[j]) == ZERO_META
         case Held(o) => Rebuilds(temporal, b, Plain(slots[j]), o)
  }

  /** The same slots were filled. */
  ghost predicate Alike(held: seq<Holding>, fillings: seq<Filling>) {
    |held| == |fillings| && forall j :: 0 <= j < |held| ==> (held[j].Held? <==> fillings[j].Pushed?)
  }

  ghost predicate AllWritten(held: seq<Holding>, written: seq<RtpPacket>) {
    forall j :: 0 <= j < |held| && held[j].Held? ==> held[j].origin.out in written
  }

  /** Everything written is in the subscriber's own stream. */
  ghost predicate AllOwn(written: seq<RtpPacket>, b: Binding) {
    forall i :: 0 <= i < |written| ==> Own(written[i], b)
  }

  /** What is rebuilt has the number and the timestamp of the metadata, and is in the subscriber's own stream. */
  lemma RebuiltGoesOut(temporal: bool, b: Binding, m: PacketMeta, p: RtpPacket)
    requires Rebuild(temporal, b, m, p).Some?
    ensures var out := Rebuild(temporal, b, m, p).value;
            && Own(out, b) && out.header.sequenceNumber == m.targetSeqNo && out.header.timestamp == m.timestamp
            && out.header.other == p.header.other && |out.payload| == |p.payload|
            && (!temporal || !b.isVP8 ==> out.payload == p.payload)
  {}

  ghost predicate NothingHeld(held: seq<Holding>) {
    forall j :: 0 <= j < |held| ==> held[j].Empty?
  }

  lemma RememberedAfter(slots: seq<PacketMeta>, held: seq<Holding>, j: nat, m: PacketMeta, o: Origin, temporal: bool,
                        b: Binding)
    requires Remembered(slots, held, temporal, b) && j < |slots| && m == Plain(m) && Rebuilds(temporal, b, m, o)
    ensures Remembered(slots[j := m], held[j := Held(o)], temporal, b)
  {}

  /** Rewriting within a longer buffer. */
  lemma RewrittenPrefix(p: seq<byte>, n: nat, picIDIdx: nat, tlz0Idx: nat, picID: u16, tlz0ID: byte, mBit: bool)
    requires n <= |p| && picIDIdx < n && tlz0Idx < n && (mBit ==> picIDIdx + 1 < n)
    ensures Rewritten(p, picIDIdx, tlz0Idx, picID, tlz0ID, mBit)[..n]
            == Rewritten(p[..n], picIDIdx, tlz0Idx, picID, tlz0ID, mBit)
  {}

  /** The state of a sequencer. */
  datatype Memory = Memory(init: bool, head: int, headSN: u16, entries: map<int, PacketMeta>, slots: seq<PacketMeta>,
                           top: nat) {
    ghost function From(newSN: u16): int {
      if init then head else newSN
    }

    ghost function Inc(newSN: u16): nat {
      if init then Sub16(newSN, headSN) else 0
    }
  }

  /** A sequencer after a packet was sent: a head packet has its entry beside the earlier ones. */
  ghost predicate Sequenced(was: Memory, now: Memory, s: Sent, layer: byte) {
    && now.init && |now.slots| == |was.slots|
    && (s.head ==>
          && now.headSN == s.newSN && now.head == was.From(s.newSN) + was.Inc(s.newSN)
          && now.entries
             == EntriesAfter(was.entries, was.From(s.newSN), was.Inc(s.newSN), MetaOf(s, layer), |was.slots|)
          && now.top < |was.slots| && now.slots == was.slots[now.top := MetaOf(s, layer)])
  }

  ghost function MemoryOf(q: Sequencer): Memory
    requires q.max > 0 && q.step < q.max
    reads q, q.slots
  {
    Memory(q.init, q.head, q.headSN, q.entries, q.slots[..], q.Top())
  }

  /** Storing the metadata and then adding the codec fields is storing it with them. */
  lemma StoredThenEdited(was: Memory, mid: Memory, now: Memory, s: Sent, layer: byte)
    requires s.withVP8 && Sequenced(was, mid, s.(withVP8 := false), layer)
    requires mid.top < |was.slots|
             && now.slots == mid.slots[mid.top := WithVP8Meta(mid.slots[mid.top], s.tlz0Idx, s.picID)]
    requires now.entries == if mid.head in mid.entries then
                              mid.entries[mid.head := WithVP8Meta(mid.entries[mid.head], s.tlz0Idx, s.picID)]
                            else mid.entries
    requires now.init == mid.init && now.head == mid.head && now.headSN == mid.headSN && now.top == mid.top
    ensures Sequenced(was, now, s, layer)
  {}

  /** Leaves the metadata of a packet in a sequencer. */
  method PushMeta(q: Sequencer, s: Sent, layer: byte) returns (stored: bool, ghost number: int)
    requires q.Valid()
    modifies q, q.slots
    ensures q.Valid() && Sequenced(old(MemoryOf(q)), MemoryOf(q), s, layer)
    ensures s.head ==> stored
    ensures q.slots[..] == if stored then old(q.slots[..])[q.Top() := MetaOf(s, layer)] else old(q.slots[..])
    ensures q.fillings == if stored then old(q.fillings)[q.Top() := Pushed(number)] else old(q.fillings)
  {
    ghost var was := MemoryOf(q);
    stored := q.Push(s.sourceSN, s.newSN, s.newTS, layer, s.head);
    ghost var mid := MemoryOf(q);
    ghost var plain := s.(withVP8 := false);
    assert MetaOf(plain, layer) == q.Stored(s.sourceSN, s.newSN, s.newTS, layer);
    assert Sequenced(was, mid, plain, layer);
    number := if s.head then q.head else q.head - Sub16(q.headSN, s.newSN);
    if stored && s.withVP8 {
      q.SetVP8PayloadMeta(s.tlz0Idx, s.picID);
      StoredThenEdited(was, mid, MemoryOf(q), s, layer);
    }
  }

  /** The slot at `top` now holds the packet, if it went out as head; a late one may not have been stored. */
  ghost predicate HeldAfter(was: seq<Holding>, now: seq<Holding>, top: nat, s: Sent, o: Origin) {
    && |now| == |was|
    && (was != [] && s.head ==> top < |was| && now == was[top := Held(o)])
    && (now == was || (top < |was| && now == was[top := Held(o)]))
  }

  lemma WrittenAfter(was: seq<Holding>, now: seq<Holding>, top: nat, s: Sent, o: Origin, written: seq<RtpPacket>)
    requires AllWritten(was, written) && HeldAfter(was, now, top, s, o)
    ensures AllWritten(now, written + [o.out])
  {}

  class DownTrack {
    const simple: bool
    const video: bool
    const binding: Binding
    /** The buffer for rewritten payloads; always copied to before it is used. */
    const payload: array<byte>
    const sequencer: Sequencer?

    var enabled: bool
    var bound: bool
    var reSync: bool
    var snOffset: u16
    var tsOffset: u32
    var lastSSRC: u32
    var lastSN: u16
    var lastTS: u32
    var currentSpatialLayer: byte
    var layers: Layers
    var simulcast: Simulcast

    /** Everything written to the subscriber so far. */
    var written: seq<RtpPacket>
    /** What was written for each slot of the sequencer. */
    ghost var held: seq<Holding>

    function State(): Track
      reads this
    {
      Track(reSync, snOffset, tsOffset, lastSSRC, lastSN, lastTS, layers, simulcast)
    }

    ghost function Parts(): set<object> {
      if sequencer == null then {payload} else {payload, sequencer, sequencer.slots}
    }

    /** Every slot of the sequencer rebuilds the packet that was written for it. */
    ghost predicate Recalls(temporal: bool)
      reads this`held, Parts()
    {
      if sequencer == null then held == []
      else
        && sequencer.Valid() && Alike(held, sequencer.fillings)
        && Remembered(sequencer.slots[..], held, temporal, binding)
    }

    ghost predicate Shape(temporal: bool)
      reads this`held, this`written, Parts()
    {
      payload.Length == BUFFER_SIZE && Recalls(temporal) && AllWritten(held, written) && AllOwn(written, binding)
    }

    /** What holds between two calls. */
    ghost predicate Valid()
      reads this`held, this`written, this`simulcast, Parts()
    {
      && Shape(simulcast.temporalSupported)
      && (simple ==> !simulcast.temporalSupported)
      && (!simple && simulcast.lTSCalc == 0 ==> NothingHeld(held))
    }

    /** A track that was just bound; only video tracks have a sequencer. */
    constructor (isSimple: bool, isVideo: bool, b: Binding, maxTrack: nat, spatialLayer: byte, temporal: Layers)
      requires maxTrack > 0
      ensures Valid() && State() == NewTrack(temporal) && written == [] && enabled && bound
      ensures reSync && snOffset == 0 && tsOffset == 0 && lastSSRC == 0 && lastSN == 0 && lastTS == 0
      ensures layers == temporal && simulcast == Simulcast(false, 0, 0, 0, 0, 0, 0, 0)
      ensures simple == isSimple && video == isVideo && binding == b && currentSpatialLayer == spatialLayer
      ensures if isVideo then sequencer != null && sequencer.max == maxTrack && !sequencer.init else sequencer == null
      ensures fresh(Parts()) && NothingHeld(held)
    {
      simple, video, binding := isSimple, isVideo, b;
      payload := new byte[BUFFER_SIZE](_ => 0);
      if isVideo {
        sequencer := new Sequencer(maxTrack);
      } else {
        sequencer := null;
      }
      enabled, bound, reSync := true, true, true;
      snOffset, tsOffset, lastSSRC, lastSN, lastTS := 0, 0, 0, 0, 0;
      currentSpatialLayer, layers := spatialLayer, temporal;
      simulcast := Simulcast(false, 0, 0, 0, 0, 0, 0, 0);
      written, held := [], seq(if isVideo then maxTrack else 0, _ => Empty);
    }

    // ------------------------------------------------------------ temporal layers

    /** Copies a payload to the track's buffer. */
    method CopyPayload(p: seq<byte>)
      requires |p| <= payload.Length
      modifies payload
      ensures payload[..|p|] == p
    {
      for i := 0 to |p|
        invariant payload[..i] == p[..i]
      {
        payload[i] := p[i];
        assert p[..i + 1] == p[..i] + [p[i]];
        assert payload[..i + 1] == payload[..i] + [payload[i]];
      }
    }

    /** Chooses the temporal layer, and edits a copy of the payload unless the packet is dropped. */
    method SetVP8TemporalLayer(p: ExtPacket) returns (buf: seq<byte>, picID: u16, tlz0Idx: byte, drop: bool)
      requires payload.Length == BUFFER_SIZE && Usable(binding, p)
      requires !SetTemporalLayer(State(), p).drop ==> |p.packet.payload| <= BUFFER_SIZE
      modifies this`layers, this`simulcast, payload
      ensures Temporal(State(), buf, picID, tlz0Idx, drop) == SetTemporalLayer(old(State()), p)
    {
      buf, picID, tlz0Idx, drop := [], 0, 0, false;
      if p.vp8.None? {
        return;
      }
      var f := p.vp8.value;
      if layers.target != layers.current {
        if f.tid <= Low8(layers.target) {
          layers := Layers(layers.target, layers.target);
        }
      } else if f.tid > Low8(layers.current) {
        drop := true;
        return;
      }
      CopyPayload(p.packet.payload);
      picID := NextPicture(simulcast, f.pictureID);
      tlz0Idx := NextTlZ(simulcast, f.tl0PicIdx);
      if p.head {
        simulcast := simulcast.(lPicID := picID, lTlZIdx := tlz0Idx);
      }
      ParsedIndices(p.packet.payload);
      RewrittenPrefix(payload[..], |p.packet.payload|, f.picIDIdx, f.tlzIdx, picID, tlz0Idx, f.mBit);
      ModifyVP8TemporalPayload(payload, f.picIDIdx, f.tlzIdx, picID, tlz0Idx, f.mBit);
      buf := payload[..|p.packet.payload|];
    }

    // ------------------------------------------------------------ the sequencer

    /** The sequencer's state; null if there is none. */
    ghost function Mem(): Memory
      reads Parts()
    {
      if sequencer == null || sequencer.max == 0
          || sequencer.step >= sequencer.max then Memory(false, 0, 0, map[], [], 0)
      else MemoryOf(sequencer)
    }

    /** Leaves the metadata of a packet in the sequencer, if there is one. */
    method Sequence(s: Sent, layer: byte, ghost source: RtpPacket)
      requires Recalls(simulcast.temporalSupported)
      requires Rebuilds(simulcast.temporalSupported, binding, MetaOf(s, layer), Origin(source, layer, s.out))
      modifies this`held, if sequencer == null then {} else {sequencer, sequencer.slots}
      ensures Recalls(simulcast.temporalSupported)
      ensures sequencer != null ==> Sequenced(old(Mem()), Mem(), s, layer)
      ensures HeldAfter(old(held), held, Mem().top, s, Origin(source, layer, s.out))
    {
      if sequencer != null {
        ghost var was, o := sequencer.slots[..], Origin(source, layer, s.out);
        ghost var number;
        var stored;
        stored, number := PushMeta(sequencer, s, layer);
        if stored {
          RememberedAfter(was, held, sequencer.Top(), MetaOf(s, layer), o, simulcast.temporalSupported, binding);
          held := held[sequencer.Top() := Held(o)];
        }
      }
    }

    // ------------------------------------------------------------ simulcast tracks

    /** The part of WriteSimulcastRTP that runs when the source changes or the track resyncs. */
    method Resync(p: ExtPacket)
      modifies this`reSync, this`simulcast
      ensures State() == Resynced(old(State()), binding, p)
    {
      if lastSSRC != p.packet.header.ssrc || reSync {
        if reSync && simulcast.lTSCalc != 0 {
          simulcast := simulcast.(lTSCalc := p.arrival);
        }
        if simulcast.temporalSupported {
          if binding.isVP8 {
            if p.vp8.Some? {
              simulcast := simulcast.(pRefPicID := simulcast.lPicID, refPicID := p.vp8.value.pictureID,
                                      pRefTlZIdx := simulcast.lTlZIdx, refTlZIdx := p.vp8.value.tl0PicIdx);
            }
          }
        }
        reSync := false;
      }
    }

    /** The part that sets the offsets. */
    method Rebase(p: ExtPacket)
      modifies this`lastSSRC, this`tsOffset, this`snOffset, this`lastTS, this`lastSN, this`simulcast
      ensures State() == Rebased(old(State()), binding, p, TimeStep(p.arrival, old(simulcast.lTSCalc)))
    {
      var h := p.packet.header;
      if simulcast.lTSCalc != 0 && lastSSRC != h.ssrc {
        lastSSRC := h.ssrc;
        var td := TimeStep(p.arrival, simulcast.lTSCalc);
        tsOffset := Sub32(h.timestamp, Add32(lastTS, td));
        snOffset := Sub16(Sub16(h.sequenceNumber, lastSN), 1);
      } else if simulcast.lTSCalc == 0 {
        lastTS := h.timestamp;
        lastSN := h.sequenceNumber;
        if binding.isVP8 {
          if p.vp8.Some? {
            simulcast := simulcast.(temporalSupported := p.vp8.value.temporalSupported);
          }
        }
      }
    }

    /** The packet as it is to be sent, unless it is dropped. */
    method Prepare(p: ExtPacket) returns (s: Option<Sent>)
      requires payload.Length == BUFFER_SIZE && Usable(binding, p) && !Waits(State(), p)
      requires FitsBuffer(SimulcastStep(State(), binding, p), p)
      modifies this`reSync, this`simulcast, this`lastSSRC, this`tsOffset, this`snOffset, this`lastTS, this`lastSN
      modifies this`layers, payload
      ensures SimulcastStep(old(State()), binding, p)
              == Outcome(if s.Some? then Finished(State(), s.value, p.arrival) else State(), s)
    {
      Resync(p);
      Rebase(p);
      var h := p.packet.header;
      var newSN, newTS := Sub16(h.sequenceNumber, snOffset), Sub32(h.timestamp, tsOffset);
      var hdr := Outgoing(binding, h, newSN, newTS);
      if simulcast.temporalSupported {
        if binding.isVP8 {
          var buf, picID, tlz0Idx, drop := SetVP8TemporalLayer(p);
          if drop {
            snOffset := Add16(snOffset, 1);
            return None;
          }
          return Some(Sent(h.sequenceNumber, newSN, newTS, p.head, true, tlz0Idx, picID, RtpPacket(hdr, buf)));
        }
      }
      s := Some(Sent(h.sequenceNumber, newSN, newTS, p.head, false, 0, 0, RtpPacket(hdr, p.packet.payload)));
    }

    /** Sends a packet: its metadata, the log, the last number, and for simulcast the base. */
    method Send(s: Sent, layer: byte, arrival: int, ghost source: RtpPacket)
      requires Shape(simulcast.temporalSupported)
      requires Rebuilds(simulcast.temporalSupported, binding, MetaOf(s, layer), Origin(source, layer, s.out))
      modifies this`held, this`lastSN, this`lastTS, this`simulcast, this`written
      modifies if sequencer == null then {} else {sequencer, sequencer.slots}
      ensures Shape(simulcast.temporalSupported) && written == old(written) + [s.out]
      ensures State() == if simple then LastSent(old(State()), s) else Finished(old(State()), s, arrival)
      ensures sequencer != null ==> Sequenced(old(Mem()), Mem(), s, layer)
      ensures HeldAfter(old(held), held, Mem().top, s, Origin(source, layer, s.out))
    {
      ghost var wasHeld := held;
      Sequence(s, layer, source);
      WrittenAfter(wasHeld, held, Mem().top, s, Origin(source, layer, s.out), written);
      RebuiltGoesOut(simulcast.temporalSupported, binding, MetaOf(s, layer), source);
      Log(s, arrival);
    }

    /** The track's own fields once a packet is sequenced, and the write. */
    method Log(s: Sent, arrival: int)
      modifies this`lastSN, this`lastTS, this`simulcast, this`written
      ensures written == old(written) + [s.out] && simulcast.temporalSupported == old(simulcast).temporalSupported
      ensures State() == if simple then LastSent(old(State()), s) else Finished(old(State()), s, arrival)
    {
      if s.head {
        lastSN, lastTS := s.newSN, s.newTS;
      }
      if !simple {
        simulcast := simulcast.(lTSCalc := arrival);
      }
      written := written + [s.out];
    }

    /** What a prepared packet leaves behind, when o is the outcome of the step. */
    method Finish(s: Option<Sent>, layer: byte, p: ExtPacket, ghost o: Outcome)
      requires Shape(simulcast.temporalSupported) && o.sent == s && (simple ==> !simulcast.temporalSupported)
               && (!simple ==> p.arrival != 0)
      requires o.track == if s.None? then State()
                          else if simple then LastSent(State(), s.value) else Finished(State(), s.value, p.arrival)
      requires s.None? && !simple && simulcast.lTSCalc == 0 ==> NothingHeld(held)
      requires s.Some? ==>
                 Rebuilds(simulcast.temporalSupported, binding, MetaOf(s.value, layer),
                          Origin(p.packet, layer, s.value.out))
      modifies this`held, this`lastSN, this`lastTS, this`simulcast, this`written
      modifies if sequencer == null then {} else {sequencer, sequencer.slots}
      ensures Valid() && Did(o, p, layer, old(written), old(held), old(Mem()))
    {
      if s.Some? {
        Send(s.value, layer, p.arrival, p.packet);
      }
    }

    /** The remaining invariant after Prepare: temporal support only changes while nothing is held. */
    lemma StillShape(t: Track, b: Binding, p: ExtPacket)
      requires b == binding && !Waits(t, p) && Usable(b, p)
      ensures var r := Ready(t, b, p).simulcast;
              && (t.simulcast.lTSCalc != 0 ==> r.temporalSupported == t.simulcast.temporalSupported && r.lTSCalc != 0)
              && SimulcastStep(t, b, p).track.simulcast.temporalSupported == r.temporalSupported
              && (SimulcastStep(t, b, p).sent.None? ==> SimulcastStep(t, b, p).track.simulcast.lTSCalc == r.lTSCalc)
    {}

    /**
     Forwards, drops or ignores a packet of some spatial layer, and tells whether to ask the source
     for a keyframe. The new state is that of SimulcastStep, and everything that the sequencer
     holds still rebuilds what was written.
     */
    method WriteSimulcastRTP(p: ExtPacket, layer: byte) returns (pli: bool)
      requires Valid() && !simple
      requires layer == currentSpatialLayer ==> Usable(binding, p) && FitsBuffer(SimulcastStep(State(), binding, p), p)
      modifies this, Parts()
      ensures Valid()
      ensures enabled == old(enabled) && bound == old(bound) && currentSpatialLayer == old(currentSpatialLayer)
      ensures pli <==> layer == currentSpatialLayer && old(reSync) && !p.keyFrame
      ensures Did(if layer == currentSpatialLayer then SimulcastStep(old(State()), binding, p)
              else Outcome(old(State()), None),
                  p, layer, old(written), old(held), old(Mem()))
    {
      pli := false;
      if currentSpatialLayer != layer {
        return;
      }
      if reSync && !p.keyFrame {
        return true;
      }
      WriteCurrent(p, layer, SimulcastStep(State(), binding, p));
    }

    /** The rest of WriteSimulcastRTP, for a packet of the current layer that the track can use. */
    method WriteCurrent(p: ExtPacket, layer: byte, ghost o: Outcome)
      requires Valid() && !simple && Usable(binding, p) && !Waits(State(), p)
      requires o == SimulcastStep(State(), binding, p) && FitsBuffer(o, p)
      modifies this`reSync, this`simulcast, this`lastSSRC, this`tsOffset, this`snOffset, this`lastTS, this`lastSN
      modifies this`layers, this`written, this`held, Parts()
      ensures Valid() && Did(o, p, layer, old(written), old(held), old(Mem()))
    {
      ghost var t := State();
      if o.sent.Some? {
        SentRebuilds(t, binding, p, layer);
      }
      StillShape(t, binding, p);
      var s := Prepare(p);
      Finish(s, layer, p, o);
    }

    // ------------------------------------------------------------ simple tracks

    /** The part of WriteSimpleRTP that starts the numbering of a source. */
    method ResyncSimple(p: ExtPacket)
      modifies this`reSync, this`snOffset, this`tsOffset, this`lastSSRC
      ensures State() == SimpleResynced(old(State()), p)
    {
      if reSync {
        if lastSN != 0 {
          snOffset := Sub16(Sub16(p.packet.header.sequenceNumber, lastSN), 1);
          tsOffset := Sub32(Sub32(p.packet.header.timestamp, lastTS), 1);
        }
        lastSSRC := p.packet.header.ssrc;
        reSync := false;
      }
    }

    /** The packet as it is to be sent. */
    method PrepareSimple(p: ExtPacket) returns (s: Sent)
      requires !(reSync && video && !p.keyFrame)
      modifies this`reSync, this`snOffset, this`tsOffset, this`lastSSRC
      ensures SimpleStep(old(State()), binding, p, video) == Outcome(LastSent(State(), s), Some(s))
    {
      ResyncSimple(p);
      var h := p.packet.header;
      var newSN, newTS := Sub16(h.sequenceNumber, snOffset), Sub32(h.timestamp, tsOffset);
      var hdr := Outgoing(binding, h, newSN, newTS);
      s := Sent(h.sequenceNumber, newSN, newTS, p.head, false, 0, 0, RtpPacket(hdr, p.packet.payload));
    }

    /** Forwards every packet of the only source, from a keyframe on if it is video. */
    method WriteSimpleRTP(p: ExtPacket) returns (pli: bool)
      requires Valid() && simple
      modifies this, Parts()
      ensures Valid()
      ensures enabled == old(enabled) && bound == old(bound) && currentSpatialLayer == old(currentSpatialLayer)
      ensures pli <==> old(reSync) && video && !p.keyFrame
      ensures Did(SimpleStep(old(State()), binding, p, video), p, 0, old(written), old(held), old(Mem()))
    {
      if reSync {
        if video {
          if !p.keyFrame {
            return true;
          }
        }
      }
      pli := false;
      WriteSimpleCurrent(p, SimpleStep(State(), binding, p, video));
    }

    /** The rest of WriteSimpleRTP, for a packet that the track can use. */
    method WriteSimpleCurrent(p: ExtPacket, ghost o: Outcome)
      requires Valid() && simple && !(reSync && video && !p.keyFrame) && o == SimpleStep(State(), binding, p, video)
      modifies this`reSync, this`snOffset, this`tsOffset, this`lastSSRC, this`lastSN, this`lastTS, this`simulcast
      modifies this`written, this`held, Parts()
      ensures Valid() && Did(o, p, 0, old(written), old(held), old(Mem()))
    {
      SimpleSentRebuilds(State(), binding, p, video);
      var s := PrepareSimple(p);
      Finish(Some(s), 0, p, o);
    }

    // ------------------------------------------------------------ both

    /** Only a track that is bound and not muted writes anything. */
    method WriteRTP(p: ExtPacket, layer: byte) returns (pli: bool)
      requires Valid()
      requires enabled && bound && !simple && layer == currentSpatialLayer ==>
                 Usable(binding, p) && FitsBuffer(SimulcastStep(State(), binding, p), p)
      modifies this, Parts()
      ensures Valid() && enabled == old(enabled) && bound == old(bound)
      ensures var o := if !enabled || !bound then Outcome(old(State()), None)
                       else if simple then SimpleStep(old(State()), binding, p, video)
                       else if layer == old(currentSpatialLayer) then SimulcastStep(old(State()), binding, p)
                       else Outcome(old(State()), None);
              Did(o, p, if simple then 0 else layer, old(written), old(held), old(Mem()))
    {
      if !enabled || !bound {
        return false;
      }
      if simple {
        pli := WriteSimpleRTP(p);
      } else {
        pli := WriteSimulcastRTP(p, layer);
      }
    }

    /** Mutes or unmutes; a muted track waits for a keyframe afterwards. */
    method Mute(val: bool)
      requires Valid()
      modifies this`enabled, this`reSync
      ensures Valid() && enabled == !val && State() == old(State()).(reSync := old(reSync) || (val && old(enabled)))
    {
      if enabled != val {
        return;
      }
      enabled := !val;
      if val {
        reSync := val;
      }
    }

    /** What a call leaves behind that sends a packet, or none. */
    ghost predicate Did(o: Outcome, p: ExtPacket, layer: byte, wasWritten: seq<RtpPacket>, wasHeld: seq<Holding>,
                        was: Memory)
      reads this, Parts()
    {
      && State() == o.track
      && match o.sent
         case None => written == wasWritten && held == wasHeld && Mem() == was
         case Some(s) =>
           && written == wasWritten + [s.out]
           && (sequencer != null ==> Sequenced(was, Mem(), s, layer))
           && HeldAfter(wasHeld, held, Mem().top, s, Origin(p.packet, layer, s.out))
    }
  }
}
