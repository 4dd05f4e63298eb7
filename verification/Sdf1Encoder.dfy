/** The SDF1 encoders of the simulated device, and their round trip through the receiver. */
module Sdf1Encoder {
  import opened Bytes
  import opened Arrays
  import opened Sdf1
  import Crc32

  /** The ranges that the packed header layout accepts. */
  predicate Packable(h: Header) {
    && h.version < 256 && h.messageType < 256 && h.flags < 0x1_0000 && h.headerSize < 0x1_0000
    && h.payloadSize < 0x1_0000 && h.sequence < 0x1_0000_0000 && h.timestampUs < 0x1_0000_0000_0000_0000
    && h.itemCount < 0x1_0000 && h.reserved < 0x1_0000
  }

  function PackHeader(h: Header): (b: seq<byte>)
    requires Packable(h)
    ensures |b| == HEADER_SIZE
  {
    MAGIC + [h.version, h.messageType] + ToLe(h.flags, 2) + ToLe(h.headerSize, 2) + ToLe(h.payloadSize, 2)
    + ToLe(h.sequence, 4) + ToLe(h.timestampUs, 8) + ToLe(h.itemCount, 2) + ToLe(h.reserved, 2)
  }

  lemma PackedFields(h: Header)
    requires Packable(h)
    ensures ReadHeader(PackHeader(h)) == h
  {
    hide Le, ToLe, Pow256;
    var b := PackHeader(h);
    assert b[4] == h.version && b[5] == h.messageType;
    assert b[6..8] == ToLe(h.flags, 2) && b[8..10] == ToLe(h.headerSize, 2) && b[10..12] == ToLe(h.payloadSize, 2);
    assert b[12..16] == ToLe(h.sequence, 4);
    assert b[16..24] == ToLe(h.timestampUs, 8);
    assert b[24..26] == ToLe(h.itemCount, 2) && b[26..28] == ToLe(h.reserved, 2);
    Widths();
    LeToLe(h.flags, 2);
    LeToLe(h.headerSize, 2);
    LeToLe(h.payloadSize, 2);
    LeToLe(h.sequence, 4);
    LeToLe(h.timestampUs, 8);
    LeToLe(h.itemCount, 2);
    LeToLe(h.reserved, 2);
  }

  /** Header, extension (the device identity in version 2), payload and seal. */
  function Encode(h: Header, extension: seq<byte>, payload: seq<byte>): seq<byte>
    requires Packable(h)
  {
    Crc32.Seal(PackHeader(h) + extension + payload)
  }

  function DataHeader(t: MessageType, flags: nat, payloadSize: nat, sequence: nat, timestampUs: nat, itemCount: nat): Header
    requires IsSensor(t)
  {
    Header(2, if t.Iis3dwbFifo? then 1 else 2, flags, DATA_HEADER_SIZE, payloadSize, sequence, timestampUs, itemCount, 0)
  }

  function CliHeader(payloadSize: nat, sequence: nat, timestampUs: nat): Header {
    Header(1, 4, 0, HEADER_SIZE, payloadSize, sequence, timestampUs, 1, 0)
  }

  lemma ReservedAt(f: seq<byte>)
    requires |f| >= 28
    ensures ReadHeader(f).reserved == Le(f[26..28])
  {}

  /** A consistent header, extension and payload make a frame that reads back as they are. */
  lemma EncodeReads(h: Header, extension: seq<byte>, payload: seq<byte>)
    requires Packable(h)
    requires h.headerSize == HEADER_SIZE + |extension| && h.payloadSize == |payload|
    ensures var f := Encode(h, extension, payload);
            && |f| == HEADER_SIZE + |extension| + |payload| + CRC_SIZE
            && f[..4] == MAGIC
            && ReadHeader(f) == h && f[4] == h.version && f[5] == h.messageType && Le(f[26..28]) == h.reserved
            && f[HEADER_SIZE..h.headerSize] == extension
            && f[h.headerSize..|f| - CRC_SIZE] == payload
            && Crc32.Sealed(f)
  {
    hide ToLe, Crc32.Crc, ReadHeader, Crc32.Sealed;
    var p := PackHeader(h);
    var f := Encode(h, extension, payload);
    ReservedAt(f);
    var body := p + extension + payload;
    assert f[..|f| - 4] == body;
    Crc32.SealedIffSeal(f);
    PackedFields(h);
    assert f == p + f[HEADER_SIZE..];
    HeaderOfPrefix(p, f[HEADER_SIZE..]);
    assert f[..4] == p[..4] == MAGIC;
  }

  /** Every frame built by the data encoder is well formed and keeps its fields. */
  lemma DataFrameWellFormed(t: MessageType, flags: nat, payload: seq<byte>, sequence: nat, timestampUs: nat,
                            itemCount: nat, uuid: seq<byte>)
    requires IsSensor(t) && |uuid| == 16 && |payload| <= 3577
    requires if t.Iis3dwbFifo? then |payload| == 7 * itemCount else |payload| == 14 && itemCount == 1
    requires Packable(DataHeader(t, flags, |payload|, sequence, timestampUs, itemCount))
    ensures var h := DataHeader(t, flags, |payload|, sequence, timestampUs, itemCount);
            var f := Encode(h, uuid, payload);
            && WellFormed(f) && f[4] == 2 && f[5] == (if t.Iis3dwbFifo? then 1 else 2) && Le(f[26..28]) == 0
            && forall iis :: DecodeWhole(f, t, iis)
                 == Frame(t, flags, sequence, timestampUs, itemCount, payload, f, Some(uuid), iis)
  {
    hide Encode, ReadHeader, Crc32.Sealed, Packable;
    EncodeReads(DataHeader(t, flags, |payload|, sequence, timestampUs, itemCount), uuid, payload);
  }

  /** Every CLI response of the device is well formed, whatever its text. */
  lemma CliFrameWellFormed(payload: seq<byte>, sequence: nat, timestampUs: nat)
    requires |payload| <= 3577 && Packable(CliHeader(|payload|, sequence, timestampUs))
    ensures var f := Encode(CliHeader(|payload|, sequence, timestampUs), [], payload);
            && WellFormed(f) && f[4] == 1 && f[5] == 4 && Le(f[26..28]) == 0
            && forall iis :: DecodeWhole(f, CliResponse, iis)
                 == Frame(CliResponse, 0, sequence, timestampUs, 1, payload, f, None, iis)
  {
    hide Encode, ReadHeader, Crc32.Sealed, Packable;
    EncodeReads(CliHeader(|payload|, sequence, timestampUs), [], payload);
  }
}
