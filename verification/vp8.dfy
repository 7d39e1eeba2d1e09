/**
 The VP8 payload descriptor (section 4.2 of RFC 7741): the parser that the packet buffer uses,
 and the rewrite of picture ID and TL0PICIDX that the down track makes in place.
 */
module VP8Descriptor {
  import opened Words

  datatype Option<T> = None | Some(value: T)

  /** The fields that Unmarshal fills in; an index of 0 means that the field is absent. */
  datatype Fields = Fields(temporalSupported: bool, pictureID: u16, picIDIdx: nat, mBit: bool,
                           tl0PicIdx: byte, tlzIdx: nat, tid: byte, isKeyFrame: bool)

  // ---------------------------------------------------------------- where the fields are

  predicate Bit10(b: byte) {
    Drop(Drop(Drop(b, 0x80), 0x40), 0x20) >= 0x10
  }

  /** The top two bits: (b & 0xc0) >> 6. */
  function TopTwo(b: byte): byte {
    if b >= 0xC0 then 3 else if b >= 0x80 then 2 else if b >= 0x40 then 1 else 0
  }

  predicate HasX(p: seq<byte>)
    requires |p| > 0
  {
    p[0] >= 0x80
  }

  predicate HasI(p: seq<byte>)
    requires |p| > 1
  {
    p[1] >= 0x80
  }

  predicate HasL(p: seq<byte>)
    requires |p| > 1
  {
    Drop(p[1], 0x80) >= 0x40
  }

  predicate HasT(p: seq<byte>)
    requires |p| > 1
  {
    Drop(Drop(p[1], 0x80), 0x40) >= 0x20
  }

  predicate HasK(p: seq<byte>)
    requires |p| > 1
  {
    Bit10(p[1])
  }

  /** The first byte behind the picture ID, the TL0PICIDX and the TID of an extended descriptor. */
  function AfterPicture(p: seq<byte>): nat
    requires |p| > 1 && (HasI(p) ==> |p| > 2)
  {
    if !HasI(p) then 2 else if p[2] >= 0x80 then 4 else 3
  }

  function AfterTL0(p: seq<byte>): nat
    requires |p| > 1 && (HasI(p) ==> |p| > 2)
  {
    AfterPicture(p) + if HasL(p) then 1 else 0
  }

  function AfterTID(p: seq<byte>): nat
    requires |p| > 1 && (HasI(p) ==> |p| > 2)
  {
    AfterTL0(p) + if HasT(p) || HasK(p) then 1 else 0
  }

  /** The frame starts at this byte, if the payload has one there. */
  predicate IsKey(p: seq<byte>, at: nat)
    requires 0 < |p| && at < |p|
  {
    p[at] % 2 == 0 && Bit10(p[0])
  }

  /** What a well-formed payload says; None if it ends inside the descriptor or right behind it. */
  function Parse(p: seq<byte>): Option<Fields> {
    if |p| < 2 then None
    else if !HasX(p) then Some(Fields(false, 0, 0, false, 0, 0, 0, IsKey(p, 1)))
    else if HasI(p) && |p| < 3 then None
    else if |p| <= AfterTID(p) then None
    else
      var m := HasI(p) && p[2] >= 0x80;
      Some(Fields(HasT(p),
                  if !HasI(p) then 0 else if m then FromBe16(Drop(p[2], 0x80), p[3]) else p[2],
                  if HasI(p) then 2 else 0,
                  m,
                  if HasL(p) then p[AfterPicture(p)] else 0,
                  if HasL(p) then AfterPicture(p) else 0,
                  if HasT(p) || HasK(p) then TopTwo(p[AfterTL0(p)]) else 0,
                  IsKey(p, AfterTID(p))))
  }

  // ---------------------------------------------------------------- the parser

  class VP8 {
    var temporalSupported: bool
    var pictureID: u16
    var picIDIdx: nat
    var mBit: bool
    var tl0PicIdx: byte
    var tlzIdx: nat
    var tid: byte
    var isKeyFrame: bool

    constructor ()
      ensures Contents() == Fields(false, 0, 0, false, 0, 0, 0, false)
    {
      temporalSupported, pictureID, picIDIdx, mBit, tl0PicIdx, tlzIdx, tid, isKeyFrame := false, 0, 0, false, 0, 0, 0,
          false;
    }

    function Contents(): Fields
      reads this
    {
      Fields(temporalSupported, pictureID, picIDIdx, mBit, tl0PicIdx, tlzIdx, tid, isKeyFrame)
    }

    /** Parses a payload into a fresh structure; on an error its fields are not to be used. */
    method Unmarshal(payload: seq<byte>) returns (ok: bool)
      requires Contents() == Fields(false, 0, 0, false, 0, 0, 0, false)
      modifies this
      ensures ok <==> Parse(payload).Some?
      ensures ok ==> Contents() == Parse(payload).value
    {
      var payloadLen := |payload|;
      if payloadLen < 1 {
        return false;
      }
      var idx := 0;
      var s := Bit10(payload[idx]);
      if payload[idx] >= 0x80 {
        idx := idx + 1;
        if payloadLen < idx + 1 {
          return false;
        }
        temporalSupported := Drop(Drop(payload[idx], 0x80), 0x40) >= 0x20;
        var k := Bit10(payload[idx]);
        var l := Drop(payload[idx], 0x80) >= 0x40;
        if payload[idx] >= 0x80 {
          idx := idx + 1;
          if payloadLen < idx + 1 {
            return false;
          }
          picIDIdx := idx;
          var pid := Drop(payload[idx], 0x80);
          if payload[idx] >= 0x80 {
            idx := idx + 1;
            if payloadLen < idx + 1 {
              return false;
            }
            mBit := true;
            pictureID := FromBe16(pid, payload[idx]);
          } else {
            pictureID := pid;
          }
        }
        if l {
          idx := idx + 1;
          if payloadLen < idx + 1 {
            return false;
          }
          tlzIdx := idx;
          tl0PicIdx := payload[idx];
        }
        if temporalSupported || k {
          idx := idx + 1;
          if payloadLen < idx + 1 {
            return false;
          }
          tid := TopTwo(payload[idx]);
        }
        idx := idx + 1;
        if payloadLen < idx + 1 {
          return false;
        }
        isKeyFrame := payload[idx] % 2 == 0 && s;
      } else {
        idx := idx + 1;
        if payloadLen < idx + 1 {
          return false;
        }
        isKeyFrame := payload[idx] % 2 == 0 && s;
      }
      ok := true;
    }
  }

  // ---------------------------------------------------------------- the sender's side

  /** A descriptor as a sender fills it in. */
  datatype Descriptor = Descriptor(nonReference: bool, start: bool, partition: nat, extension: Option<Extension>)

  datatype Extension = Extension(pictureID: Option<PictureID>, tl0PicIdx: Option<byte>, hasT: bool, hasK: bool,
                                 tid: nat, y: bool, keyIdx: nat)

  datatype PictureID = Short(id: nat) | Long(id: nat)

  function Flag(b: bool, weight: nat): nat {
    if b then weight else 0
  }

  ghost predicate ValidExtension(e: Extension) {
    && e.tid < 4 && e.keyIdx < 32
    && (e.pictureID.Some? ==> e.pictureID.value.id < if e.pictureID.value.Long? then 0x8000 else 0x80)
  }

  ghost predicate ValidDescriptor(d: Descriptor) {
    d.partition < 8 && (d.extension.Some? ==> ValidExtension(d.extension.value))
  }

  ghost function PictureBytes(e: Extension): seq<byte>
    requires ValidExtension(e)
  {
    match e.pictureID
    case None => []
    case Some(Short(id)) => [id]
    case Some(Long(id)) => [0x80 + High8(id), Low8(id)]
  }

  ghost function ExtensionBytes(e: Extension): seq<byte>
    requires ValidExtension(e)
  {
    [Flag(e.pictureID.Some?, 0x80) + Flag(e.tl0PicIdx.Some?, 0x40) + Flag(e.hasT, 0x20) + Flag(e.hasK, 0x10)]
    + PictureBytes(e)
    + (if e.tl0PicIdx.Some? then [e.tl0PicIdx.value] else [])
    + (if e.hasT || e.hasK then [e.tid * 0x40 + Flag(e.y, 0x20) + e.keyIdx] else [])
  }

  ghost function Bytes(d: Descriptor): seq<byte>
    requires ValidDescriptor(d)
  {
    [Flag(d.extension.Some?, 0x80) + Flag(d.nonReference, 0x20) + Flag(d.start, 0x10) + d.partition]
    + if d.extension.Some? then ExtensionBytes(d.extension.value) else []
  }

  /** What a parser has to report of a descriptor in front of a frame. */
  ghost function Meaning(d: Descriptor, frame: seq<byte>): Fields
    requires ValidDescriptor(d) && frame != []
  {
    var key := frame[0] % 2 == 0 && d.start;
    match d.extension
    case None => Fields(false, 0, 0, false, 0, 0, 0, key)
    case Some(e) =>
      Fields(e.hasT,
             if e.pictureID.Some? then e.pictureID.value.id else 0,
             if e.pictureID.Some? then 2 else 0,
             e.pictureID.Some? && e.pictureID.value.Long?,
             if e.tl0PicIdx.Some? then e.tl0PicIdx.value else 0,
             if e.tl0PicIdx.Some? then 2 + |PictureBytes(e)| else 0,
             if e.hasT || e.hasK then e.tid else 0,
             key)
  }

  lemma FlagBits(i: bool, l: bool, t: bool, k: bool)
    ensures var b := Flag(i, 0x80) + Flag(l, 0x40) + Flag(t, 0x20) + Flag(k, 0x10);
            && (b >= 0x80 <==> i) && (Drop(b, 0x80) >= 0x40 <==> l) && (Drop(Drop(b, 0x80), 0x40) >= 0x20 <==> t)
               && (Bit10(b) <==> k)
  {}

  lemma FirstByte(x: bool, n: bool, s: bool, pid: nat)
    requires pid < 8
    ensures var b := Flag(x, 0x80) + Flag(n, 0x20) + Flag(s, 0x10) + pid;
            (b >= 0x80 <==> x) && (Bit10(b) <==> s)
  {}

  /** The flags are single bits, and the temporal layer the top two, whatever the other bits of the byte are. */
  lemma FlagsAreBits(p: seq<byte>, i: bool, l: bool, t: bool, k: bool, rest: nat)
    requires |p| > 1 && rest < 16 && p[1] == Flag(i, 128) + Flag(l, 64) + Flag(t, 32) + Flag(k, 16) + rest
    ensures (HasI(p) <==> i) && (HasL(p) <==> l) && (HasT(p) <==> t) && (HasK(p) <==> k)
  {}

  lemma FirstFlags(p: seq<byte>, x: bool, r: bool, n: bool, s: bool, rest: nat)
    requires |p| > 0 && rest < 16 && p[0] == Flag(x, 128) + Flag(r, 64) + Flag(n, 32) + Flag(s, 16) + rest
    ensures (HasX(p) <==> x) && (Bit10(p[0]) <==> s)
  {}

  lemma LayerIsTopTwo(tid: nat, rest: nat)
    requires tid < 4 && rest < 64
    ensures TopTwo(64 * tid + rest) == tid
  {}

  /** Where the parts of an extended descriptor are. */
  lemma Layout(d: Descriptor, e: Extension, frame: seq<byte>)
    requires ValidDescriptor(d) && d.extension == Some(e) && frame != []
    ensures var p := Bytes(d) + frame;
            && |p| > 2 && HasX(p) && (HasI(p) <==> e.pictureID.Some?) && (HasL(p) <==> e.tl0PicIdx.Some?)
            && (HasT(p) <==> e.hasT) && (HasK(p) <==> e.hasK)
            && (Bit10(p[0]) <==> d.start)
            && (forall i :: 0 <= i < |PictureBytes(e)| ==> p[2 + i] == PictureBytes(e)[i])
            && AfterPicture(p) == 2 + |PictureBytes(e)| && AfterTID(p) == |Bytes(d)|
            && (e.tl0PicIdx.Some? ==> p[AfterPicture(p)] == e.tl0PicIdx.value)
            && (e.hasT || e.hasK ==> p[AfterTL0(p)] == e.tid * 0x40 + Flag(e.y, 0x20) + e.keyIdx)
            && p[AfterTID(p)] == frame[0]
  {
    var p := Bytes(d) + frame;
    FirstByte(true, d.nonReference, d.start, d.partition);
    FlagBits(e.pictureID.Some?, e.tl0PicIdx.Some?, e.hasT, e.hasK);
    assert p[1] == ExtensionBytes(e)[0];
    assert |PictureBytes(e)| > 0 ==> p[2] == PictureBytes(e)[0];
  }

  /** Parsing undoes writing, for every descriptor and every frame of at least a byte. */
  lemma ParseOfBytes(d: Descriptor, frame: seq<byte>)
    requires ValidDescriptor(d) && frame != []
    ensures Parse(Bytes(d) + frame) == Some(Meaning(d, frame))
  {
    var p := Bytes(d) + frame;
    if d.extension.Some? {
      Layout(d, d.extension.value, frame);
    } else {
      FirstByte(false, d.nonReference, d.start, d.partition);
      assert p[1] == frame[0];
    }
  }

  // ---------------------------------------------------------------- the rewrite

  function Low15(x: u16): u16 {
    if x >= 0x8000 then x - 0x8000 else x
  }

  /** x | 0x80 on a byte. */
  function WithHighBit(x: byte): byte {
    if x >= 0x80 then x else x + 0x80
  }

  /** The bytes after modifyVP8TemporalPayload. */
  function Rewritten(p: seq<byte>, picIDIdx: nat, tlz0Idx: nat, picID: u16, tlz0ID: byte, mBit: bool): (r: seq<byte>)
    requires picIDIdx < |p| && tlz0Idx < |p| && (mBit ==> picIDIdx + 1 < |p|)
    ensures |r| == |p|
  {
    var q := if mBit then p[picIDIdx := WithHighBit(High8(picID))][picIDIdx + 1 := Low8(picID)]
             else p[picIDIdx := High8(picID)];
    q[tlz0Idx := tlz0ID]
  }

  method ModifyVP8TemporalPayload(payload: array<byte>, picIDIdx: nat, tlz0Idx: nat, picID: u16, tlz0ID: byte,
                                  mBit: bool)
    requires picIDIdx < payload.Length && tlz0Idx < payload.Length && (mBit ==> picIDIdx + 1 < payload.Length)
    modifies payload
    ensures payload[..] == Rewritten(old(payload[..]), picIDIdx, tlz0Idx, picID, tlz0ID, mBit)
  {
    var pid := Be16(picID);
    payload[picIDIdx] := pid[0];
    if mBit {
      payload[picIDIdx] := WithHighBit(payload[picIDIdx]);
      payload[picIDIdx + 1] := pid[1];
    }
    payload[tlz0Idx] := tlz0ID;
  }

  /** A payload that parses has its index fields inside, and distinct. */
  lemma ParsedIndices(p: seq<byte>)
    requires Parse(p).Some?
    ensures var f := Parse(p).value;
            && f.picIDIdx < |p| && f.tlzIdx < |p| && (f.mBit ==> f.picIDIdx + 1 < |p|)
            && (f.picIDIdx != 0 ==> f.picIDIdx == 2) && (f.mBit ==> f.picIDIdx == 2)
            && (f.tlzIdx != 0 && f.picIDIdx != 0 ==> f.tlzIdx == if f.mBit then 4 else 3)
  {}

  /**
   With picture ID, its M bit and TL0PICIDX present, the rewrite is an edit of exactly these two
   fields: the payload reads back with the new values (the picture ID modulo 2^15), and every
   other field and byte is as before.
   */
  lemma RewriteRoundTrip(p: seq<byte>, picID: u16, tlz0ID: byte)
    requires Parse(p).Some? && Parse(p).value.mBit && Parse(p).value.tlzIdx != 0
    ensures var f := Parse(p).value;
            && f.picIDIdx + 1 < |p| && f.tlzIdx < |p|
            && var q := Rewritten(p, f.picIDIdx, f.tlzIdx, picID, tlz0ID, f.mBit);
               && Parse(q) == Some(f.(pictureID := Low15(picID), tl0PicIdx := tlz0ID))
               && forall i :: 0 <= i < |p| && i != f.picIDIdx && i != f.picIDIdx + 1 && i != f.tlzIdx ==> q[i] == p[i]
  {
    ParsedIndices(p);
    var f := Parse(p).value;
    var q := Rewritten(p, 2, 4, picID, tlz0ID, true);
    assert q[0] == p[0] && q[1] == p[1] && q[2] == WithHighBit(High8(picID)) && q[3] == Low8(picID) && q[4] == tlz0ID;
    assert AfterTID(q) == AfterTID(p);
    HighBitOff(picID);
  }

  lemma HighBitOff(picID: u16)
    ensures FromBe16(Drop(WithHighBit(High8(picID)), 0x80), Low8(picID)) == Low15(picID)
  {}

  /**
   With a one-byte picture ID the code writes the high byte of the new ID, not the low one: the
   payload reads back with the new ID modulo 2^7 exactly when these happen to be equal.
   */
  lemma ShortPictureIDIff(p: seq<byte>, picID: u16, tlz0ID: byte)
    requires Parse(p).Some? && Parse(p).value.picIDIdx != 0 && !Parse(p).value.mBit && Parse(p).value.tlzIdx != 0
    ensures var f := Parse(p).value;
            && f.picIDIdx < |p| && f.tlzIdx < |p|
            && (Parse(Rewritten(p, f.picIDIdx, f.tlzIdx, picID, tlz0ID, f.mBit))
                == Some(f.(pictureID := Drop(Low8(picID), 0x80), tl0PicIdx := tlz0ID))
                <==> High8(picID) == Drop(Low8(picID), 0x80))
  {
    ParsedIndices(p);
    var f := Parse(p).value;
    var q := Rewritten(p, 2, 3, picID, tlz0ID, false);
    assert q[0] == p[0] && q[1] == p[1] && q[2] == High8(picID) && q[3] == tlz0ID;
    if q[2] < 0x80 {
      assert AfterTID(q) == AfterTID(p);
    }
  }

  /** Without TL0PICIDX, or without a picture ID, an index of 0 sends the write to the first byte of the descriptor. */
  lemma AbsentFieldHitsFirstByte(p: seq<byte>, picID: u16, tlz0ID: byte)
    requires Parse(p).Some? && (Parse(p).value.picIDIdx == 0 || Parse(p).value.tlzIdx == 0)
    ensures var f := Parse(p).value;
            && f.picIDIdx < |p| && f.tlzIdx < |p| && (f.mBit ==> f.picIDIdx + 1 < |p|)
            && Rewritten(p, f.picIDIdx, f.tlzIdx, picID, tlz0ID, f.mBit)[0]
            == if f.tlzIdx == 0 then tlz0ID else High8(picID)
  {
    ParsedIndices(p);
  }
}
