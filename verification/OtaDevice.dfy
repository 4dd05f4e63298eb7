/** The device side of an upload, its replies, and a link that loses, repeats, delays and damages. */
module OtaDevice {
  import opened Bytes
  import opened Arrays
  import opened OtaCodec
  import Crc32

  const BEGIN_COMMAND: seq<byte> :=
    [0x41, 0x54, 0x2B, 0x4F, 0x54, 0x41, 0x3D, 0x42, 0x45, 0x47, 0x49, 0x4E, 0x0D, 0x0A]

  datatype Code = FrameCrc | Offset | OtherCode

  datatype Reply = Ready(maxImage: int, chunk: int) | OkLine | Ack(sequence: int, next: int)
                 | Nack(code: Code, sequence: int, next: int) | Staged(crc: nat)

  /** What a device advertises; a strict one refuses DATA ahead of its offset instead of acknowledging. */
  datatype Profile = Profile(maxImage: int, chunk: int, strict: bool)

  datatype Device = Device(active: bool, nextOffset: nat, image: seq<byte>)

  predicate IsBeginCommand(data: seq<byte>) {
    BEGIN_COMMAND[..6] <= data
  }

  function HandleFrame(d: Device, p: Profile, f: UploadFrame): (Device, seq<Reply>) {
    match f.frameType
    case Begin => (d, [Ack(0, 0)])
    case Cancel => (d.(active := false), [Ack(f.sequence, d.nextOffset)])
    case Commit => (d.(active := false), [Staged(Crc32.Crc(d.image)), OkLine])
    case Data =>
      if f.offset == d.nextOffset then
        var d1 := d.(image := d.image + f.payload, nextOffset := d.nextOffset + |f.payload|);
        (d1, [Ack(f.sequence, d1.nextOffset)])
      else if p.strict && f.offset > d.nextOffset then (d, [Nack(Offset, f.sequence, d.nextOffset)])
      else (d, [Ack(f.sequence, d.nextOffset)])
  }

  function WriteRaw(d: Device, p: Profile, data: seq<byte>): (Device, seq<Reply>) {
    if IsBeginCommand(data) then (Device(true, 0, []), [Ready(p.maxImage, p.chunk), OkLine])
    else
      var r := Decode(data);
      if r.Err? then (d, [Nack(FrameCrc, 0, d.nextOffset)]) else HandleFrame(d, p, r.value)
  }

  /** The simulated device, which queues its replies. */
  class FakeTransport {
    var otaActive: bool
    var otaNextOffset: nat
    var otaImage: seq<byte>
    var replies: seq<Reply>
    const profile: Profile

    function State(): Device
      reads this
    {
      Device(otaActive, otaNextOffset, otaImage)
    }

    constructor (profile: Profile)
      ensures State() == Device(false, 0, []) && replies == [] && this.profile == profile
    {
      otaActive, otaNextOffset, otaImage, replies := false, 0, [], [];
      this.profile := profile;
    }

    method Write(data: seq<byte>)
      requires data != []
      modifies this
      ensures (State(), replies) == var (d, rs) := WriteRaw(old(State()), profile, data); (d, old(replies) + rs)
    {
      hide Decode, Crc32.Crc;
      if IsBeginCommand(data) {
        otaActive := true;
        otaNextOffset := 0;
        otaImage := [];
        replies := replies + [Ready(profile.maxImage, profile.chunk), OkLine];
        return;
      }
      var r := Decode(data);
      if r.Err? {
        replies := replies + [Nack(FrameCrc, 0, otaNextOffset)];
        return;
      }
      var f := r.value;
      match f.frameType {
        case Begin =>
          replies := replies + [Ack(0, 0)];
        case Cancel =>
          otaActive := false;
          replies := replies + [Ack(f.sequence, otaNextOffset)];
        case Commit =>
          otaActive := false;
          replies := replies + [Staged(Crc32.Crc(otaImage)), OkLine];
        case Data =>
          if profile.strict && f.offset > otaNextOffset {
            replies := replies + [Nack(Offset, f.sequence, otaNextOffset)];
            return;
          }
          if f.offset == otaNextOffset {
            otaImage := otaImage + f.payload;
            otaNextOffset := otaNextOffset + |f.payload|;
          }
          replies := replies + [Ack(f.sequence, otaNextOffset)];
      }
    }
  }

  // ---- Safety of one delivery ----

  /** The device holds the front of the image and nothing else. */
  predicate Holds(d: Device, image: seq<byte>) {
    d.image <= image && d.nextOffset == |d.image|
  }

  /** A frame of this upload: DATA carries the image bytes of its offset. */
  predicate Faithful(data: seq<byte>, image: seq<byte>) {
    && Decode(data).Ok?
    && var f := Decode(data).value;
       f.frameType.Data? ==> 0 <= f.offset && f.offset + |f.payload| <= |image|
                             && f.payload == image[f.offset..f.offset + |f.payload|]
  }

  predicate IsCommit(data: seq<byte>) {
    Decode(data).Ok? && Decode(data).value.frameType.Commit?
  }

  /** A reply that tells the truth about the device from now on. */
  predicate Truthful(r: Reply, d: Device, image: seq<byte>) {
    match r
    case Ack(_, next) => next <= |d.image|
    case Staged(crc) => d.image == image && crc == Crc32.Crc(image)
    case _ => true
  }

  lemma DeliveryKeeps(d: Device, p: Profile, data: seq<byte>, m: Damage, image: seq<byte>)
    requires Holds(d, image) && Faithful(data, image)
    ensures var (d', rs) := WriteRaw(d, p, Damaged(data, m));
            && Holds(d', image) && d.image <= d'.image
            && ((IsCommit(data) ==> d.image == image) ==> forall i :: 0 <= i < |rs| ==> Truthful(rs[i], d', image))
  {
    hide Decode, Crc32.Crc, Damaged;
    DecodeBeginsRight(data);
    var r := Damaged(data, m);
    if IsBeginCommand(r) { BeginCommandBytes(r); }
    DamageRejected(data, m);
    if r == data && Decode(data).value.frameType.Data? && Decode(data).value.offset == d.nextOffset {
      var f := Decode(data).value;
      assert d.image + f.payload == image[..f.offset + |f.payload|];
    }
  }

  lemma DecodeBeginsRight(data: seq<byte>)
    requires Decode(data).Ok?
    ensures data != []
  {}

  lemma BeginCommandBytes(r: seq<byte>)
    requires IsBeginCommand(r)
    ensures |r| >= 6 && r[0] == 0x41 && r[4] == 0x54
  {
    assert r[..6] == BEGIN_COMMAND[..6];
    assert r[..6][0] == r[0] && r[..6][4] == r[4];
  }

  lemma TruthfulLater(r: Reply, d: Device, d': Device, image: seq<byte>)
    requires Truthful(r, d, image) && d.image <= d'.image <= image
    ensures Truthful(r, d', image)
  {}

  /**
   * The begin command is the text `AT+OTA=BEGIN` with CR and LF; the device takes whatever starts with
   * `AT+OTA` for it, forgets what it held, and advertises its limits.
   */
  lemma CommandRecognised(d: Device, p: Profile, data: seq<byte>)
    ensures |BEGIN_COMMAND| == 14 && forall i :: 0 <= i < 14 ==> BEGIN_COMMAND[i] == "AT+OTA=BEGIN\r\n"[i] as int
    ensures |data| >= 6 && data[..6] == [0x41, 0x54, 0x2B, 0x4F, 0x54, 0x41] ==>
              WriteRaw(d, p, data) == (Device(true, 0, []), [Ready(p.maxImage, p.chunk), OkLine])
    ensures !(|data| >= 6 && data[..6] == [0x41, 0x54, 0x2B, 0x4F, 0x54, 0x41]) && Decode(data).Err? ==>
              WriteRaw(d, p, data) == (d, [Nack(FrameCrc, 0, d.nextOffset)])
  {
    hide Decode;
    assert BEGIN_COMMAND[..6] == [0x41, 0x54, 0x2B, 0x4F, 0x54, 0x41];
  }

  /** Damaged or not, a command of another form than a frame only resets or is refused. */
  lemma CommandDelivery(d: Device, p: Profile, m: Damage)
    ensures var (d', rs) := WriteRaw(d, p, Damaged(BEGIN_COMMAND, m));
            if IsBeginCommand(Damaged(BEGIN_COMMAND, m)) then d' == Device(true, 0, [])
            else d' == d && rs == [Nack(FrameCrc, 0, d.nextOffset)]
  {}
}
