/** OTA packages: a sealed 512-byte manifest block followed by the image. */
module OtaPackage {
  import opened Bytes
  import opened Arrays
  import opened OtaCodec
  import Crc32

  const MANIFEST_MAGIC: seq<byte> := [0x4F, 0x54, 0x41, 0x31]
  const MANIFEST_HEADER_SIZE := 80
  const BLOCK_SIZE := 512
  const CRC_OFFSET := 508
  const TARGET_ID: seq<byte> :=
    [0x46, 0x34, 0x30, 0x37, 0x56, 0x45, 0x2D, 0x4A, 0x59, 0x2D, 0x49, 0x33, 0x44, 0x57, 0x42, 0]
  const MCU_DEVICE_ID := 0x413
  const APP_FLASH_START := 0x0801_0000
  const APP_FLASH_SIZE := 0x0005_0000
  const MIN_APP_IMAGE_SIZE := 8
  const STATE_PACKAGE := 0
  const STATE_APPLIED := 4

  datatype Manifest = Manifest(generation: nat, state: nat, targetId: seq<byte>, deviceId: nat, minBootloader: nat,
                               appVersion: nat, appAddress: nat, imageSize: nat, imageCrc: nat, protocol: nat,
                               flags: nat, packageId: seq<byte>)

  datatype PackageError =
    | BlockSize | Magic | FormatVersion | HeaderSize | ManifestCrc | Reserved | Target | DeviceId | Address
    | ImageSize | Protocol | State | ShortPackage | NotPackageState | ImageLength | ImageCrc
    | SizeMismatch | GenerationRange | CrcRange | PackageId | VersionRange | VersionFields

  predicate AllZero(b: seq<byte>) {
    forall i :: 0 <= i < |b| ==> b[i] == 0
  }

  function ReadManifest(b: seq<byte>): Manifest
    requires |b| == BLOCK_SIZE
  {
    Manifest(Le(b[8..12]), Le(b[12..16]), b[16..32], Le(b[32..36]), Le(b[36..40]), Le(b[40..44]), Le(b[44..48]),
             Le(b[48..52]), Le(b[52..56]), Le(b[56..58]), Le(b[58..60]), b[60..72])
  }

  function ParseManifest(b: seq<byte>): Result<Manifest, PackageError> {
    if |b| != BLOCK_SIZE then Err(BlockSize)
    else if b[0..4] != MANIFEST_MAGIC then Err(Magic)
    else if Le(b[4..6]) != 1 then Err(FormatVersion)
    else if Le(b[6..8]) != MANIFEST_HEADER_SIZE then Err(HeaderSize)
    else if !Crc32.Sealed(b) then Err(ManifestCrc)
    else if !AllZero(b[72..CRC_OFFSET]) then Err(Reserved)
    else
      var m := ReadManifest(b);
      if m.targetId != TARGET_ID then Err(Target)
      else if m.deviceId != MCU_DEVICE_ID then Err(DeviceId)
      else if m.appAddress != APP_FLASH_START then Err(Address)
      else if !(MIN_APP_IMAGE_SIZE <= m.imageSize <= APP_FLASH_SIZE) then Err(ImageSize)
      else if m.protocol != 1 || m.flags != 0 then Err(Protocol)
      else if m.state > STATE_APPLIED then Err(State)
      else Ok(m)
  }

  function Validate(p: seq<byte>): (r: Result<Manifest, PackageError>)
    ensures r.Ok? ==> |p| == BLOCK_SIZE + r.value.imageSize && r.value.imageSize <= APP_FLASH_SIZE
  {
    if |p| < BLOCK_SIZE then Err(ShortPackage) else
      var r := ParseManifest(p[..BLOCK_SIZE]);
      if r.Err? then r
      else if r.value.state != STATE_PACKAGE then Err(NotPackageState)
      else if r.value.targetId != TARGET_ID then Err(Target)
      else if |p| - BLOCK_SIZE != r.value.imageSize then Err(ImageLength)
      else if Crc32.Crc(p[BLOCK_SIZE..]) != r.value.imageCrc then Err(ImageCrc)
      else r
  }

  // ---- Packing ----

  function Zeros(n: nat): (z: seq<byte>)
    ensures |z| == n && AllZero(z)
  {
    seq(n, i => 0)
  }

  /** What the block stores for the fields of `m` that a packer chooses. */
  predicate Storable(m: Manifest) {
    && m.generation < 0x1_0000_0000 && m.state < 0x1_0000_0000 && |m.targetId| == 16 && m.deviceId < 0x1_0000_0000
    && m.minBootloader < 0x1_0000_0000 && m.appVersion < 0x1_0000_0000 && m.appAddress < 0x1_0000_0000
    && m.imageSize < 0x1_0000_0000 && m.imageCrc < 0x1_0000_0000 && m.protocol < 0x1_0000 && m.flags < 0x1_0000
    && |m.packageId| == 12
  }

  function Fixed(): (b: seq<byte>)
    ensures |b| == 8
  {
    MANIFEST_MAGIC + (ToLe(1, 2) + ToLe(MANIFEST_HEADER_SIZE, 2))
  }

  function Numbers(m: Manifest): (b: seq<byte>)
    ensures |b| == 20
  {
    ToLe(m.deviceId, 4) + ToLe(m.minBootloader, 4) + ToLe(m.appVersion, 4) + ToLe(m.appAddress, 4) + ToLe(m.imageSize, 4)
  }

  function Trailer(m: Manifest): (b: seq<byte>)
    ensures |b| == 8
  {
    ToLe(m.imageCrc, 4) + ToLe(m.protocol, 2) + ToLe(m.flags, 2)
  }

  function Fields(m: Manifest): (b: seq<byte>)
    requires Storable(m)
    ensures |b| == 72
  {
    Fixed() + (ToLe(m.generation, 4) + ToLe(m.state, 4)) + m.targetId + Numbers(m) + Trailer(m) + m.packageId
  }

  function Block(m: Manifest): (b: seq<byte>)
    requires Storable(m)
    ensures |b| == BLOCK_SIZE
  {
    Crc32.Seal(Fields(m) + Zeros(CRC_OFFSET - 72))
  }

  function Put(s: seq<byte>, off: nat, b: seq<byte>): seq<byte>
    requires off + |b| <= |s|
  {
    s[..off] + b + s[off + |b|..]
  }

  method PutAt(a: array<byte>, off: nat, b: seq<byte>)
    requires off + |b| <= a.Length
    modifies a
    ensures a[..] == Put(old(a[..]), off, b)
  {
    ghost var was := a[..];
    var i := 0;
    while i < |b|
      invariant i <= |b|
      invariant forall k :: 0 <= k < a.Length ==> a[k] == if off <= k < off + i then b[k - off] else was[k]
    {
      a[off + i] := b[i];
      i := i + 1;
    }
    assert a[..] == Put(was, off, b);
  }

  lemma PutAppends(s: seq<byte>, n: nat, b: seq<byte>)
    requires |b| <= n
    ensures Put(s + Zeros(n), |s|, b) == s + b + Zeros(n - |b|)
  {}

  // ---- Versions ----

  /** A version as a packed number, or as its fields. */
  datatype Version = Packed(value: int) | Fielded(parts: seq<int>)

  function VersionValue(v: Version): (r: Result<nat, PackageError>)
    ensures r.Ok? ==> r.value <= 0xFFFF_FFFF
  {
    match v
    case Packed(value) => if 0 <= value <= 0xFFFF_FFFF then Ok(value) else Err(VersionRange)
    case Fielded(parts) =>
      if |parts| != 3 then Err(VersionFields)
      else if !(0 <= parts[0] <= 0xFF && 0 <= parts[1] <= 0xFF && 0 <= parts[2] <= 0xFFFF) then Err(VersionRange)
      else Ok(parts[0] * 0x100_0000 + parts[1] * 0x1_0000 + parts[2])
  }

  function VersionFieldsOf(value: nat): seq<int> {
    [value / 0x100_0000 % 0x100, value / 0x1_0000 % 0x100, value % 0x1_0000]
  }

  predicate Older(a: seq<int>, b: seq<int>)
    requires |a| == |b| == 3
  {
    a[0] < b[0] || (a[0] == b[0] && (a[1] < b[1] || (a[1] == b[1] && a[2] < b[2])))
  }

  /** A version is accepted exactly as a 32-bit number, or as three fields of 8, 8 and 16 bits. */
  lemma VersionAcceptedIff(v: Version)
    ensures VersionValue(v).Ok? <==>
              if v.Packed? then 0 <= v.value < 0x1_0000_0000
              else |v.parts| == 3 && 0 <= v.parts[0] < 256 && 0 <= v.parts[1] < 256 && 0 <= v.parts[2] < 65536
    ensures v.Packed? && VersionValue(v).Ok? ==> VersionValue(v).value == v.value
  {}

  /** Formatting undoes packing, and packed versions compare as their fields do. */
  lemma VersionsOrdered(a: seq<int>, b: seq<int>)
    requires VersionValue(Fielded(a)).Ok? && VersionValue(Fielded(b)).Ok?
    ensures VersionFieldsOf(VersionValue(Fielded(a)).value) == a
    ensures VersionValue(Fielded(a)).value < VersionValue(Fielded(b)).value <==> Older(a, b)
  {
    var n := VersionValue(Fielded(a)).value;
    assert n == (a[0] * 0x100 + a[1]) * 0x1_0000 + a[2];
    assert n / 0x1_0000 == a[0] * 0x100 + a[1] && n % 0x1_0000 == a[2];
    assert n / 0x100_0000 == a[0];
    assert a == [a[0], a[1], a[2]];
  }

  /** The effective manifest of a packing request. */
  function Request(image: seq<byte>, appVersion: nat, minBootloader: nat, generation: nat, state: nat,
                   imageCrc: Option<nat>, packageId: seq<byte>): Manifest
  {
    Manifest(generation, state, TARGET_ID, MCU_DEVICE_ID, minBootloader, appVersion, APP_FLASH_START, |image|,
             if imageCrc.Some? then imageCrc.value else Crc32.Crc(image), 1, 0, packageId)
  }

  predicate Packs(image: seq<byte>, m: Manifest) {
    && MIN_APP_IMAGE_SIZE <= |image| <= APP_FLASH_SIZE && m.generation <= 0xFFFF_FFFF && m.state <= STATE_APPLIED
    && m.imageCrc <= 0xFFFF_FFFF && |m.packageId| == 12 && m.minBootloader <= 0xFFFF_FFFF && m.appVersion <= 0xFFFF_FFFF
  }

  /** A request that can be packed: all given values agree with the image and fit their fields. */
  predicate Admissible(image: seq<byte>, appVersion: Version, minBootloader: Version, generation: int, state: int,
                       imageSize: Option<int>, imageCrc: Option<int>, packageId: seq<byte>, appAddress: int)
  {
    && MIN_APP_IMAGE_SIZE <= |image| <= APP_FLASH_SIZE && (imageSize.Some? ==> imageSize.value == |image|)
    && appAddress == APP_FLASH_START && 0 <= generation <= 0xFFFF_FFFF && STATE_PACKAGE <= state <= STATE_APPLIED
    && (imageCrc.Some? ==> 0 <= imageCrc.value <= 0xFFFF_FFFF) && |packageId| == 12
    && VersionValue(minBootloader).Ok? && VersionValue(appVersion).Ok?
  }

  /** Build the block in place, field after field. */
  method PackManifest(image: seq<byte>, appVersion: Version, minBootloader: Version, generation: int, state: int,
                      imageSize: Option<int>, imageCrc: Option<int>, packageId: seq<byte>, appAddress: int)
    returns (r: Result<seq<byte>, PackageError>)
    ensures r.Ok? <==> Admissible(image, appVersion, minBootloader, generation, state, imageSize, imageCrc, packageId,
                                  appAddress)
    ensures r.Ok? ==>
              var crc := if imageCrc.Some? then Some(imageCrc.value as nat) else None;
              var m := Request(image, VersionValue(appVersion).value, VersionValue(minBootloader).value, generation, state,
                               crc, packageId);
              Packs(image, m) && r.value == Block(m)
  {
    hide ToLe, Crc32.Crc, Zeros, Put, AllZero, VersionValue;
    var size := if imageSize.None? then |image| else imageSize.value;
    if size != |image| { return Err(SizeMismatch); }
    if size < MIN_APP_IMAGE_SIZE { return Err(ImageSize); }
    if size > APP_FLASH_SIZE { return Err(ImageSize); }
    if appAddress != APP_FLASH_START { return Err(Address); }
    if !(0 <= generation <= 0xFFFF_FFFF) { return Err(GenerationRange); }
    if !(STATE_PACKAGE <= state <= STATE_APPLIED) { return Err(State); }
    Crc32.CrcBound(image);
    var crc := if imageCrc.Some? then imageCrc.value else Crc32.Crc(image);
    if !(0 <= crc <= 0xFFFF_FFFF) { return Err(CrcRange); }
    if |packageId| != 12 { return Err(PackageId); }
    var bootloader := VersionValue(minBootloader);
    if bootloader.Err? { return Err(bootloader.error); }
    var app := VersionValue(appVersion);
    if app.Err? { return Err(app.error); }
    var m := Request(image, app.value, bootloader.value, generation, state, Some(crc), packageId);
    var block := new byte[BLOCK_SIZE](i => 0);
    AllZeros(block[..]);
    FillFields(block, m);
    SealBlock(block, m);
    r := Ok(block[..]);
  }

  method FillFields(block: array<byte>, m: Manifest)
    requires block.Length == BLOCK_SIZE && block[..] == Zeros(BLOCK_SIZE) && Storable(m)
    modifies block
    ensures block[..] == Fields(m) + Zeros(BLOCK_SIZE - 72)
  {
    hide ToLe, Zeros, Put, AllZero, Fixed, Numbers, Trailer;
    ghost var p: seq<byte> := [];
    assert block[..] == p + Zeros(BLOCK_SIZE);
    p := Write(block, 0, p, Fixed());
    p := Write(block, 8, p, ToLe(m.generation, 4) + ToLe(m.state, 4));
    p := Write(block, 16, p, m.targetId);
    p := Write(block, 32, p, Numbers(m));
    p := Write(block, 52, p, Trailer(m));
    p := Write(block, 60, p, m.packageId);
  }

  method SealBlock(block: array<byte>, m: Manifest)
    requires block.Length == BLOCK_SIZE && Storable(m) && block[..] == Fields(m) + Zeros(BLOCK_SIZE - 72)
    modifies block
    ensures block[..] == Block(m)
  {
    hide ToLe, Zeros, Put, AllZero, Fields, Crc32.Crc;
    ghost var was := block[..];
    WideZeros();
    assert was == (Fields(m) + Zeros(CRC_OFFSET - 72)) + Zeros(4);
    assert was[..CRC_OFFSET] == Fields(m) + Zeros(CRC_OFFSET - 72);
    assert block[..CRC_OFFSET] == was[..CRC_OFFSET];
    PutAt(block, CRC_OFFSET, ToLe(Crc32.Crc(block[..CRC_OFFSET]), 4));
    PutLast(was, ToLe(Crc32.Crc(was[..CRC_OFFSET]), 4));
  }

  lemma PutLast(s: seq<byte>, b: seq<byte>)
    requires |b| <= |s|
    ensures Put(s, |s| - |b|, b) == s[..|s| - |b|] + b
  {}

  lemma AllZeros(s: seq<byte>)
    requires forall i :: 0 <= i < |s| ==> s[i] == 0
    ensures s == Zeros(|s|)
  {}

  lemma WideZeros()
    ensures Zeros(440) == Zeros(436) + Zeros(4)
  {}

  /** One field behind those already written; `off` is where they end. */
  method Write(block: array<byte>, off: nat, ghost p: seq<byte>, b: seq<byte>) returns (ghost p': seq<byte>)
    requires |p| == off && off + |b| <= block.Length && block[..] == p + Zeros(block.Length - off)
    modifies block
    ensures p' == p + b && block[..] == p' + Zeros(block.Length - |p'|)
  {
    PutAppends(p, block.Length - off, b);
    PutAt(block, off, b);
    p' := p + b;
  }

  // ---- Round trip ----

  lemma FieldsRead(m: Manifest, b: seq<byte>)
    requires Storable(m) && |b| == BLOCK_SIZE && b[..72] == Fields(m)
    ensures b[0..4] == MANIFEST_MAGIC && Le(b[4..6]) == 1 && Le(b[6..8]) == MANIFEST_HEADER_SIZE
    ensures ReadManifest(b) == m
  {
    hide Le, ToLe, Pow256;
    assert b == Fields(m) + b[72..];
    assert b[0..4] == MANIFEST_MAGIC;
    assert b[4..6] == ToLe(1, 2) && b[6..8] == ToLe(MANIFEST_HEADER_SIZE, 2);
    assert b[8..12] == ToLe(m.generation, 4) && b[12..16] == ToLe(m.state, 4);
    assert b[16..32] == m.targetId;
    assert b[32..36] == ToLe(m.deviceId, 4) && b[36..40] == ToLe(m.minBootloader, 4);
    assert b[40..44] == ToLe(m.appVersion, 4) && b[44..48] == ToLe(m.appAddress, 4);
    assert b[48..52] == ToLe(m.imageSize, 4) && b[52..56] == ToLe(m.imageCrc, 4);
    assert b[56..58] == ToLe(m.protocol, 2) && b[58..60] == ToLe(m.flags, 2);
    assert b[60..72] == m.packageId;
    NumbersRead(m);
  }

  lemma NumbersRead(m: Manifest)
    requires Storable(m)
    ensures Le(ToLe(1, 2)) == 1 && Le(ToLe(MANIFEST_HEADER_SIZE, 2)) == MANIFEST_HEADER_SIZE
    ensures Le(ToLe(m.generation, 4)) == m.generation && Le(ToLe(m.state, 4)) == m.state
    ensures Le(ToLe(m.deviceId, 4)) == m.deviceId && Le(ToLe(m.minBootloader, 4)) == m.minBootloader
    ensures Le(ToLe(m.appVersion, 4)) == m.appVersion && Le(ToLe(m.appAddress, 4)) == m.appAddress
    ensures Le(ToLe(m.imageSize, 4)) == m.imageSize && Le(ToLe(m.imageCrc, 4)) == m.imageCrc
    ensures Le(ToLe(m.protocol, 2)) == m.protocol && Le(ToLe(m.flags, 2)) == m.flags
  {
    hide Le, ToLe, Pow256;
    Widths();
    LeToLe(1, 2);
    LeToLe(MANIFEST_HEADER_SIZE, 2);
    LeToLe(m.generation, 4);
    LeToLe(m.state, 4);
    LeToLe(m.deviceId, 4);
    LeToLe(m.minBootloader, 4);
    LeToLe(m.appVersion, 4);
    LeToLe(m.appAddress, 4);
    LeToLe(m.imageSize, 4);
    LeToLe(m.imageCrc, 4);
    LeToLe(m.protocol, 2);
    LeToLe(m.flags, 2);
  }

  /** Every packed block parses back to the fields it was packed from. */
  lemma BlockParses(image: seq<byte>, m: Manifest)
    requires Packs(image, m) && m == Request(image, m.appVersion, m.minBootloader, m.generation, m.state,
                                             Some(m.imageCrc), m.packageId)
    ensures ParseManifest(Block(m)) == Ok(m)
  {
    hide Le, Crc32.Sealed, Crc32.Crc, Fields, Zeros, ReadManifest, ToLe;
    var b := Block(m);
    assert b[..CRC_OFFSET] == Fields(m) + Zeros(CRC_OFFSET - 72);
    assert b[..|b| - 4] == b[..CRC_OFFSET];
    Crc32.SealedIffSeal(b);
    assert b[..72] == b[..CRC_OFFSET][..72] == Fields(m);
    FieldsRead(m, b);
    assert b[72..CRC_OFFSET] == b[..CRC_OFFSET][72..] == Zeros(CRC_OFFSET - 72);
  }

  /**
   * A packed package is accepted, and yields exactly the packed fields, if and only if it is in the
   * PACKAGE state and its stored image CRC was not overridden by a different one.
   */
  lemma PackageAccepted(image: seq<byte>, m: Manifest)
    requires Packs(image, m) && m == Request(image, m.appVersion, m.minBootloader, m.generation, m.state,
                                             Some(m.imageCrc), m.packageId)
    ensures var ok := m.state == STATE_PACKAGE && m.imageCrc == Crc32.Crc(image);
            && (Validate(Block(m) + image).Ok? <==> ok)
            && (ok ==> Validate(Block(m) + image) == Ok(m))
  {
    hide ParseManifest, Block, Crc32.Crc;
    var p := Block(m) + image;
    BlockParses(image, m);
    assert p[..BLOCK_SIZE] == Block(m) && p[BLOCK_SIZE..] == image;
  }

  /** The block is determined by what it reads as. */
  lemma ReadBack(b: seq<byte>)
    requires ParseManifest(b).Ok?
    ensures Storable(ReadManifest(b)) && b[..72] == Fields(ReadManifest(b))
  {
    hide Le, ToLe, Pow256, Crc32.Sealed, AllZero;
    var m := ReadManifest(b);
    Widths();
    ToLeLe(b[4..6]);
    ToLeLe(b[6..8]);
    ToLeLe(b[8..12]);
    ToLeLe(b[12..16]);
    ToLeLe(b[32..36]);
    ToLeLe(b[36..40]);
    ToLeLe(b[40..44]);
    ToLeLe(b[44..48]);
    ToLeLe(b[48..52]);
    ToLeLe(b[52..56]);
    ToLeLe(b[56..58]);
    ToLeLe(b[58..60]);
    assert Fixed() == b[0..4] + (b[4..6] + b[6..8]);
    assert Numbers(m) == b[32..36] + b[36..40] + b[40..44] + b[44..48] + b[48..52];
    assert Trailer(m) == b[52..56] + b[56..58] + b[58..60];
    FieldSlices(b);
  }

  lemma FieldSlices(b: seq<byte>)
    requires |b| == BLOCK_SIZE
    ensures b[..72] == b[0..8] + b[8..16] + b[16..32] + b[32..52] + b[52..60] + b[60..72]
    ensures b[0..8] == b[0..4] + (b[4..6] + b[6..8]) && b[8..16] == b[8..12] + b[12..16]
    ensures b[32..52] == b[32..36] + b[36..40] + b[40..44] + b[44..48] + b[48..52]
    ensures b[52..60] == b[52..56] + b[56..58] + b[58..60]
  {}

  /** Every accepted package is a packed one, byte for byte: nothing else gets through. */
  lemma AcceptedIsPacked(p: seq<byte>)
    requires Validate(p).Ok?
    ensures var m, image := Validate(p).value, p[BLOCK_SIZE..];
            && Packs(image, m) && m.state == STATE_PACKAGE
            && m == Request(image, m.appVersion, m.minBootloader, m.generation, m.state, None, m.packageId)
            && p == Block(m) + image
  {
    hide Le, Crc32.Sealed, Crc32.Crc, Fields, Zeros, ToLe;
    var b, image := p[..BLOCK_SIZE], p[BLOCK_SIZE..];
    var m := ReadManifest(b);
    ReadBack(b);
    Crc32.CrcBound(image);
    Crc32.SealedIffSeal(b);
    var middle := b[72..CRC_OFFSET];
    AllZeros(middle);
    assert b[..|b| - 4] == b[..72] + middle;
    assert p == b + image;
  }

  // ---- The layout ----

  /** A valid package and its fields, by literal position and value. */
  predicate Layout(p: seq<byte>, m: Manifest) {
    && |p| >= 512
    && p[0..4] == [0x4F, 0x54, 0x41, 0x31] && Le(p[4..6]) == 1 && Le(p[6..8]) == 80
    && Le(p[8..12]) == m.generation && Le(p[12..16]) == m.state == 0
    && p[16..32] == m.targetId == [0x46, 0x34, 0x30, 0x37, 0x56, 0x45, 0x2D, 0x4A, 0x59, 0x2D, 0x49, 0x33, 0x44, 0x57, 0x42, 0]
    && Le(p[32..36]) == m.deviceId == 0x413 && Le(p[36..40]) == m.minBootloader && Le(p[40..44]) == m.appVersion
    && Le(p[44..48]) == m.appAddress == 0x0801_0000
    && Le(p[48..52]) == m.imageSize == |p| - 512 && 8 <= m.imageSize <= 0x5_0000
    && Le(p[52..56]) == m.imageCrc == Crc32.Crc(p[512..])
    && Le(p[56..58]) == m.protocol == 1 && Le(p[58..60]) == m.flags == 0 && p[60..72] == m.packageId
    && (forall i :: 72 <= i < 508 ==> p[i] == 0)
    && Le(p[508..512]) == Crc32.Crc(p[..508])
  }

  lemma BlockSlices(p: seq<byte>)
    requires |p| >= 512
    ensures var b := p[..512];
            && b[0..4] == p[0..4] && b[4..6] == p[4..6] && b[6..8] == p[6..8] && b[8..12] == p[8..12]
            && b[12..16] == p[12..16] && b[16..32] == p[16..32] && b[32..36] == p[32..36] && b[36..40] == p[36..40]
            && b[40..44] == p[40..44] && b[44..48] == p[44..48] && b[48..52] == p[48..52] && b[52..56] == p[52..56]
            && b[56..58] == p[56..58] && b[58..60] == p[58..60] && b[60..72] == p[60..72] && b[..508] == p[..508]
            && b[508..] == p[508..512]
  {}

  lemma ZeroSlice(p: seq<byte>)
    requires |p| >= 512
    ensures AllZero(p[..512][72..508]) <==> forall i :: 72 <= i < 508 ==> p[i] == 0
  {
    var z := p[..512][72..508];
    assert forall i :: 72 <= i < 508 ==> p[i] == z[i - 72];
  }

  /** A package is accepted with these fields if and only if it has this layout. */
  lemma ValidIffLayout(p: seq<byte>, m: Manifest)
    ensures Validate(p) == Ok(m) <==> Layout(p, m)
  {
    hide Le, Crc32.Crc, AllZero;
    if |p| >= 512 {
      BlockSlices(p);
      ZeroSlice(p);
    }
  }

  // ---- Damage ----

  lemma CrcDetectsBurst(a: seq<byte>, b: seq<byte>, k: nat)
    requires Crc32.Burst(a, b, k)
    ensures Crc32.Crc(a) != Crc32.Crc(b)
  {
    hide Crc32.Run, Crc32.Xor, Crc32.Pow2, Crc32.Burst;
    Crc32.Pow2Register();
    Crc32.BurstDetected(Crc32.ONES, a, b, k);
    Crc32.XorCancel(Crc32.Run(Crc32.ONES, a), Crc32.ONES);
    Crc32.XorCancel(Crc32.Run(Crc32.ONES, b), Crc32.ONES);
  }

  /** Changing up to four adjacent bytes anywhere in a valid package makes it rejected. */
  lemma BurstRejected(p: seq<byte>, q: seq<byte>, k: nat)
    requires Validate(p).Ok? && Crc32.Burst(p, q, k)
    ensures Validate(q).Err?
  {
    hide Crc32.Crc, Crc32.Sealed, ReadManifest, Le, AllZero;
    var a, b := p[..BLOCK_SIZE], q[..BLOCK_SIZE];
    if a != b {
      assert Crc32.Burst(a, b, k);
      Crc32.SealDetectsBurst(a, b, k);
    } else {
      var i, j := p[BLOCK_SIZE..], q[BLOCK_SIZE..];
      assert p == a + i && q == b + j;
      var k' := if k < BLOCK_SIZE then 0 else k - BLOCK_SIZE;
      assert Crc32.Burst(i, j, k');
      CrcDetectsBurst(i, j, k');
    }
  }
}
