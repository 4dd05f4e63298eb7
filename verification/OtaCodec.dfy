/** OTAF upload frames: encoding, decoding and damage. */
module OtaCodec {
  import opened Bytes
  import opened Arrays
  import Crc32

  const FRAME_MAGIC: seq<byte> := [0x4F, 0x54, 0x41, 0x46]
  const FRAME_HEADER_SIZE := 20
  const FRAME_MAX_PAYLOAD := 512
  const FRAME_CRC_SIZE := 4
  const BEGIN_PAYLOAD_SIZE := 80

  datatype Result<+T, +E> = Ok(value: T) | Err(error: E)

  datatype FrameType = Begin | Data | Commit | Cancel

  datatype UploadFrame = UploadFrame(frameType: FrameType, sequence: int, offset: int, payload: seq<byte>)

  datatype CodecError =
    | PayloadTooLong | BeginFields | ControlPayload | SequenceRange | OffsetRange
    | Truncated | BadHeader | BadHeaderFields | BadLength | BadCrc | BadType

  function TypeCode(t: FrameType): byte {
    match t case Begin => 1 case Data => 2 case Commit => 3 case Cancel => 4
  }

  function TypeOfCode(b: byte): Option<FrameType> {
    match b case 1 => Some(Begin) case 2 => Some(Data) case 3 => Some(Commit) case 4 => Some(Cancel) case _ => None
  }

  /** The rules that only the sender enforces. */
  predicate SenderRules(f: UploadFrame) {
    && (f.frameType.Begin? ==> f.sequence == 0 && f.offset == 0 && |f.payload| == BEGIN_PAYLOAD_SIZE)
    && (f.frameType.Commit? || f.frameType.Cancel? ==> f.payload == [])
  }

  predicate InRange(f: UploadFrame) {
    |f.payload| <= FRAME_MAX_PAYLOAD && 0 <= f.sequence <= 0xFFFF_FFFF && 0 <= f.offset <= 0xFFFF_FFFF
  }

  function Body(f: UploadFrame): (b: seq<byte>)
    requires InRange(f)
    ensures |b| == FRAME_HEADER_SIZE + |f.payload|
  {
    FRAME_MAGIC + [1, TypeCode(f.frameType)] + ToLe(FRAME_HEADER_SIZE, 2) + ToLe(f.sequence, 4) + ToLe(f.offset, 4)
    + ToLe(|f.payload|, 2) + ToLe(0, 2) + f.payload
  }

  function Encode(f: UploadFrame): (r: Result<seq<byte>, CodecError>)
    ensures r.Ok? <==> SenderRules(f) && InRange(f)
  {
    if |f.payload| > FRAME_MAX_PAYLOAD then Err(PayloadTooLong)
    else if f.frameType.Begin? && (f.sequence != 0 || f.offset != 0 || |f.payload| != BEGIN_PAYLOAD_SIZE) then Err(BeginFields)
    else if (f.frameType.Commit? || f.frameType.Cancel?) && f.payload != [] then Err(ControlPayload)
    else if !(0 <= f.sequence <= 0xFFFF_FFFF) then Err(SequenceRange)
    else if !(0 <= f.offset <= 0xFFFF_FFFF) then Err(OffsetRange)
    else Ok(Crc32.Seal(Body(f)))
  }

  function Decode(d: seq<byte>): (r: Result<UploadFrame, CodecError>)
  {
    if |d| < FRAME_HEADER_SIZE + FRAME_CRC_SIZE then Err(Truncated) else
      var length := Le(d[16..18]);
      if d[..4] != FRAME_MAGIC || d[4] != 1 then Err(BadHeader)
      else if Le(d[6..8]) != FRAME_HEADER_SIZE || Le(d[18..20]) != 0 || length > FRAME_MAX_PAYLOAD then Err(BadHeaderFields)
      else if |d| != FRAME_HEADER_SIZE + length + FRAME_CRC_SIZE then Err(BadLength)
      else if !Crc32.Sealed(d) then Err(BadCrc)
      else if TypeOfCode(d[5]).None? then Err(BadType)
      else Ok(UploadFrame(TypeOfCode(d[5]).value, Le(d[8..12]), Le(d[12..16]), d[20..20 + length]))
  }

  /** The code of a frame type on the wire. */
  predicate Coded(b: byte, t: FrameType) {
    && (b == 1 <==> t.Begin?) && (b == 2 <==> t.Data?) && (b == 3 <==> t.Commit?) && (b == 4 <==> t.Cancel?)
  }

  lemma BodyFields(f: UploadFrame)
    requires InRange(f)
    ensures var b := Body(f);
            && b[..4] == [0x4F, 0x54, 0x41, 0x46] && b[4] == 1 && Coded(b[5], f.frameType)
            && Le(b[6..8]) == 20 && Le(b[8..12]) == f.sequence && Le(b[12..16]) == f.offset
            && Le(b[16..18]) == |f.payload| && Le(b[18..20]) == 0 && b[20..] == f.payload
  {
    hide Le, ToLe, Pow256;
    var b := Body(f);
    assert b[6..8] == ToLe(FRAME_HEADER_SIZE, 2) && b[8..12] == ToLe(f.sequence, 4) && b[12..16] == ToLe(f.offset, 4);
    assert b[16..18] == ToLe(|f.payload|, 2) && b[18..20] == ToLe(0, 2);
    Widths();
    LeToLe(FRAME_HEADER_SIZE, 2);
    LeToLe(f.sequence, 4);
    LeToLe(f.offset, 4);
    LeToLe(|f.payload|, 2);
    LeToLe(0, 2);
  }

  lemma SealKeeps(b: seq<byte>)
    requires |b| >= FRAME_HEADER_SIZE
    ensures var d := Crc32.Seal(b);
            && Crc32.Sealed(d) && d[..4] == b[..4] && d[4] == b[4] && d[5] == b[5]
            && d[6..8] == b[6..8] && d[8..12] == b[8..12] && d[12..16] == b[12..16]
            && d[16..18] == b[16..18] && d[18..20] == b[18..20] && d[20..|b|] == b[20..]
  {
    hide Crc32.Crc, Crc32.Sealed, ToLe;
    var d := Crc32.Seal(b);
    assert d[..|d| - 4] == b;
    Crc32.SealedIffSeal(d);
  }

  /** What a frame looks like on the wire, by literal position and value. */
  predicate OnWire(d: seq<byte>, f: UploadFrame) {
    && |d| == 24 + |f.payload|
    && d[..4] == [0x4F, 0x54, 0x41, 0x46] && d[4] == 1 && Coded(d[5], f.frameType)
    && Le(d[6..8]) == 20 && Le(d[8..12]) == f.sequence && Le(d[12..16]) == f.offset
    && Le(d[16..18]) == |f.payload| <= 512 && Le(d[18..20]) == 0 && d[20..|d| - 4] == f.payload
    && Le(d[|d| - 4..]) == Crc32.Crc(d[..|d| - 4])
  }

  /** Encoding lays a frame out as the protocol says, and decoding undoes it. */
  lemma DecodeEncode(f: UploadFrame)
    requires SenderRules(f) && InRange(f)
    ensures OnWire(Encode(f).value, f)
    ensures Decode(Encode(f).value) == Ok(f)
  {
    hide Body, Crc32.Crc, ToLe, Le;
    BodyFields(f);
    SealKeeps(Body(f));
  }

  /** A message is accepted as a frame exactly when it is that frame on the wire. */
  lemma DecodeIffOnWire(d: seq<byte>, f: UploadFrame)
    ensures Decode(d) == Ok(f) <==> OnWire(d, f)
  {
    hide Crc32.Crc, Le;
    if OnWire(d, f) { assert d[20..20 + |f.payload|] == d[20..|d| - 4]; }
  }

  /** The sender refuses exactly these frames. */
  lemma EncodeIff(f: UploadFrame)
    ensures Encode(f).Ok? <==>
              && |f.payload| <= 512 && 0 <= f.sequence < 0x1_0000_0000 && 0 <= f.offset < 0x1_0000_0000
              && (f.frameType.Begin? ==> f.sequence == 0 && f.offset == 0 && |f.payload| == 80)
              && (f.frameType.Commit? || f.frameType.Cancel? ==> |f.payload| == 0)
  {}

  /** Encoding restores every accepted frame that the sender could have sent, DATA frames always. */
  lemma EncodeDecode(d: seq<byte>)
    requires Decode(d).Ok?
    ensures InRange(Decode(d).value)
    ensures SenderRules(Decode(d).value) <==> Encode(Decode(d).value) == Ok(d)
    ensures Decode(d).value.frameType.Data? ==> Encode(Decode(d).value) == Ok(d)
  {
    hide Crc32.Sealed, Crc32.Crc, ToLe, Le, Pow256;
    var f := Decode(d).value;
    Widths();
    ToLeLe(d[6..8]);
    ToLeLe(d[8..12]);
    ToLeLe(d[12..16]);
    ToLeLe(d[16..18]);
    ToLeLe(d[18..20]);
    var body := d[..|d| - 4];
    Crc32.SealedIffSeal(d);
    assert d[4..6] == [1, TypeCode(f.frameType)];
    assert body == d[..4] + d[4..6] + d[6..8] + d[8..12] + d[12..16] + d[16..18] + d[18..20] + d[20..|d| - 4];
    assert body == Body(f);
  }

  // ---- Damage on the link ----

  /** Loss of the tail, or overwriting of up to four adjacent bytes. */
  datatype Damage = Intact | Cut(keep: nat) | Overwrite(at: nat, bytes: seq<byte>)

  function Damaged(d: seq<byte>, m: Damage): (r: seq<byte>)
    requires d != []
    ensures r != []
  {
    match m
    case Intact => d
    case Cut(keep) => if 0 < keep < |d| then d[..keep] else d
    case Overwrite(at, bytes) =>
      if |bytes| <= 4 && at + |bytes| <= |d| then d[..at] + bytes + d[at + |bytes|..] else d
  }

  lemma OverwriteIsBurst(d: seq<byte>, at: nat, bytes: seq<byte>)
    requires d != [] && |bytes| <= 4 && at + |bytes| <= |d| && Damaged(d, Overwrite(at, bytes)) != d
    ensures Crc32.Burst(d, Damaged(d, Overwrite(at, bytes)), at)
  {
    var r := Damaged(d, Overwrite(at, bytes));
    forall i | 0 <= i < |d| && !(at <= i < at + 4) ensures d[i] == r[i] {
      if i >= at + |bytes| { assert d[at + |bytes|..][i - at - |bytes|] == d[i]; }
    }
  }

  /** Changing up to four adjacent bytes of an accepted frame, seal included, makes it rejected. */
  lemma BurstRejected(d: seq<byte>, d': seq<byte>, k: nat)
    requires Decode(d).Ok? && Crc32.Burst(d, d', k)
    ensures Decode(d').Err?
  {
    hide Crc32.Sealed, Le;
    Crc32.SealDetectsBurst(d, d', k);
  }

  /** A damaged frame is either unchanged or rejected, and is never taken for the begin command. */
  lemma DamageRejected(d: seq<byte>, m: Damage)
    requires Decode(d).Ok?
    ensures Damaged(d, m) == d || Decode(Damaged(d, m)).Err?
    ensures Damaged(d, m)[0] == FRAME_MAGIC[0] || |Damaged(d, m)| < 5 || Damaged(d, m)[4] == 1
  {
    hide Crc32.Sealed, Le;
    var r := Damaged(d, m);
    assert d[..4][0] == FRAME_MAGIC[0];
    if m.Overwrite? && r != d {
      OverwriteIsBurst(d, m.at, m.bytes);
      BurstRejected(d, r, m.at);
    } else if m.Cut? && r != d && |r| >= 24 {
      assert r[16..18] == d[16..18];
    }
  }
}
