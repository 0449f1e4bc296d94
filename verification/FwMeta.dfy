/**
 * Firmware metadata of components/fw_meta/fw_meta.c: record layouts, validity, construction, the embedded-metadata
 * check of an image head and the boot decision. Records are their on-flash bytes, little-endian and packed.
 */
module FwMeta {
  import opened Crc32

  const META_MAGIC: Bytes := [0x52, 0x47, 0x42, 0x57]  // "RGBW"
  const CTRL_MAGIC: Bytes := [0x43, 0x54, 0x52, 0x4C]  // "CTRL"
  const APP_DESC_MAGIC: Bytes := [0x32, 0x54, 0xCD, 0xAB]
  const CHIP_ID_ESP32C3: Bytes := [0x05, 0x00]
  const IMAGE_MAGIC: bv8 := 0xE9
  const EMBEDDED_META_OFFSET := 288
  const IMAGE_HEAD_LEN := 304
  const VERSION_FIELD_LEN := 9
  const SHA256_LEN := 32
  const META_RECORD_LEN := 60
  const META_COVERED_LEN := 52
  const CTRL_RECORD_LEN := 12
  const CTRL_COVERED_LEN := 8
  const CRASH_RESET_LIMIT := 3
  const FORCE_CLEAR: Bytes := [0xFF, 0xFF, 0xFF, 0xFF]
  const FORCE_SET: Bytes := [0, 0, 0, 0]

  // Little-endian numbers.

  // Bytes and numbers meet bit by bit: the solver is far better at this than at its built-in conversions.

  datatype Bits = Bits(b0: bool, b1: bool, b2: bool, b3: bool, b4: bool, b5: bool, b6: bool, b7: bool)

  function NumberBits(n: nat): Bits {
    var n6 := if n >= 128 then n - 128 else n;
    var n5 := if n6 >= 64 then n6 - 64 else n6;
    var n4 := if n5 >= 32 then n5 - 32 else n5;
    var n3 := if n4 >= 16 then n4 - 16 else n4;
    var n2 := if n3 >= 8 then n3 - 8 else n3;
    var n1 := if n2 >= 4 then n2 - 4 else n2;
    var n0 := if n1 >= 2 then n1 - 2 else n1;
    Bits(n0 >= 1, n1 >= 2, n2 >= 4, n3 >= 8, n4 >= 16, n5 >= 32, n6 >= 64, n >= 128)
  }

  function BitsNumber(s: Bits): (n: nat)
    ensures n < 256
  {
    (if s.b0 then 1 else 0) + (if s.b1 then 2 else 0) + (if s.b2 then 4 else 0) + (if s.b3 then 8 else 0)
    + (if s.b4 then 16 else 0) + (if s.b5 then 32 else 0) + (if s.b6 then 64 else 0) + (if s.b7 then 128 else 0)
  }

  function ByteBits(b: bv8): Bits {
    Bits(b & 1 != 0, b & 2 != 0, b & 4 != 0, b & 8 != 0, b & 16 != 0, b & 32 != 0, b & 64 != 0, b & 128 != 0)
  }

  function BitsByte(s: Bits): bv8 {
    (if s.b0 then 1 else 0) | (if s.b1 then 2 else 0) | (if s.b2 then 4 else 0) | (if s.b3 then 8 else 0)
    | (if s.b4 then 16 else 0) | (if s.b5 then 32 else 0) | (if s.b6 then 64 else 0) | (if s.b7 then 128 else 0)
  }

  function ToByte(n: nat): bv8
    requires n < 256
  {
    BitsByte(NumberBits(n))
  }

  function FromByte(b: bv8): (n: nat)
    ensures n < 256
  {
    BitsNumber(ByteBits(b))
  }

  lemma NumberRoundTrip(n: nat)
    requires n < 256
    ensures BitsNumber(NumberBits(n)) == n
  {
  }

  lemma BitsRoundTrip(s: Bits)
    ensures ByteBits(BitsByte(s)) == s
  {
  }

  lemma ByteRoundTrip(n: nat)
    requires n < 256
    ensures FromByte(ToByte(n)) == n
  {
    NumberRoundTrip(n);
    BitsRoundTrip(NumberBits(n));
  }

  function LeValue(bytes: Bytes): nat {
    if bytes == [] then 0 else FromByte(bytes[0]) + 256 * LeValue(bytes[1..])
  }

  function LeBytes(n: nat, width: nat): (bytes: Bytes)
    ensures |bytes| == width
  {
    if width == 0 then [] else [ToByte(n % 256)] + LeBytes(n / 256, width - 1)
  }

  function Power256(width: nat): (p: nat)
    ensures p >= 1
  {
    if width == 0 then 1 else 256 * Power256(width - 1)
  }

  lemma {:induction false} LeRoundTrip(n: nat, width: nat)
    requires n < Power256(width)
    ensures LeValue(LeBytes(n, width)) == n
  {
    if width > 0 {
      LeRoundTrip(n / 256, width - 1);
      ByteRoundTrip(n % 256);
      assert LeBytes(n, width)[1..] == LeBytes(n / 256, width - 1);
    }
  }

  lemma ByteBitsRoundTrip(b: bv8)
    ensures BitsByte(ByteBits(b)) == b
  {
  }

  lemma NumberBitsRoundTrip(s: Bits)
    ensures NumberBits(BitsNumber(s)) == s
  {
    var n := BitsNumber(s);
    assert n >= 128 <==> s.b7;
    var n6 := if s.b7 then n - 128 else n;
    assert n6 >= 64 <==> s.b6;
    var n5 := if s.b6 then n6 - 64 else n6;
    assert n5 >= 32 <==> s.b5;
    var n4 := if s.b5 then n5 - 32 else n5;
    assert n4 >= 16 <==> s.b4;
    var n3 := if s.b4 then n4 - 16 else n4;
    assert n3 >= 8 <==> s.b3;
  }

  lemma ByteUnique(b: bv8)
    ensures ToByte(FromByte(b)) == b
  {
    hide NumberBits; hide BitsNumber; hide BitsByte; hide ByteBits;
    ByteBitsRoundTrip(b);
    NumberBitsRoundTrip(ByteBits(b));
  }

  lemma {:induction false} LeUnique(bytes: Bytes)
    ensures LeBytes(LeValue(bytes), |bytes|) == bytes
  {
    hide FromByte; hide ToByte;
    if bytes != [] {
      LeUnique(bytes[1..]);
      ByteUnique(bytes[0]);
      var n, rest := LeValue(bytes), LeValue(bytes[1..]);
      assert n == FromByte(bytes[0]) + 256 * rest && n % 256 == FromByte(bytes[0]) && n / 256 == rest;
      assert [bytes[0]] + bytes[1..] == bytes;
    }
  }

  /** A field of four bytes holds a number exactly if its bytes are that number's, least significant first. */
  lemma FieldHolds(field: Bytes, bytes: Bytes)
    requires |field| == |bytes|
    ensures LeValue(field) == LeValue(bytes) <==> field == bytes
  {
    LeUnique(field);
    LeUnique(bytes);
  }

  /** The constants as the numbers that the fields hold. */
  lemma ConstantValues()
    ensures LeValue(META_MAGIC) == 0x57424752 && LeValue(CTRL_MAGIC) == 0x4C525443
    ensures LeValue(APP_DESC_MAGIC) == 0xABCD5432 && LeValue(CHIP_ID_ESP32C3) == 5
    ensures LeValue(FORCE_CLEAR) == 0xFFFFFFFF && LeValue(FORCE_SET) == 0
  {
    FourBytes(0x52, 0x47, 0x42, 0x57);
    FourBytes(0x43, 0x54, 0x52, 0x4C);
    FourBytes(0x32, 0x54, 0xCD, 0xAB);
    FourBytes(0xFF, 0xFF, 0xFF, 0xFF);
    FourBytes(0, 0, 0, 0);
    TwoBytes(0x05, 0x00);
  }

  lemma TwoBytes(a: bv8, b: bv8)
    ensures LeValue([a, b]) == FromByte(a) + 256 * FromByte(b)
  {
    hide FromByte;
    assert [a, b][1..] == [b] && [b][1..] == [];
    assert LeValue([b]) == FromByte(b) + 256 * LeValue([]);
  }

  lemma FourBytes(a: bv8, b: bv8, c: bv8, d: bv8)
    ensures LeValue([a, b, c, d]) ==
              FromByte(a) + 0x100 * FromByte(b) + 0x1_0000 * FromByte(c) + 0x100_0000 * FromByte(d)
  {
    hide FromByte;
    assert [a, b, c, d][1..] == [b, c, d] && [b, c, d][1..] == [c, d];
    TwoBytes(c, d);
  }

  function CrcBytes(crc: bv32): (bytes: Bytes)
    ensures |bytes| == 4
  {
    [(crc & 0xFF) as bv8, ((crc >> 8) & 0xFF) as bv8, ((crc >> 16) & 0xFF) as bv8, ((crc >> 24) & 0xFF) as bv8]
  }

  function CrcValue(bytes: Bytes): bv32
    requires |bytes| == 4
  {
    (bytes[0] as bv32) | ((bytes[1] as bv32) << 8) | ((bytes[2] as bv32) << 16) | ((bytes[3] as bv32) << 24)
  }

  lemma CrcRoundTrip(crc: bv32)
    ensures CrcValue(CrcBytes(crc)) == crc
  {
  }

  // Version field: exactly "DD.DD.DD" and a terminator.

  predicate IsVersionCharacter(index: nat, c: bv8) {
    if index == 2 || index == 5 then c == 0x2E else 0x30 <= c <= 0x39
  }

  predicate IsVersion(version: Bytes) {
    && |version| >= VERSION_FIELD_LEN
    && (forall index :: 0 <= index < 8 ==> IsVersionCharacter(index, version[index]))
    && version[8] == 0
  }

  /** Safe for any full field and for any shorter terminated string: it stops at the first mismatch. */
  method IsValidFwVersion(version: Bytes) returns (valid: bool)
    requires |version| >= VERSION_FIELD_LEN || 0 in version
    ensures valid == IsVersion(version)
  {
    var index := 0;
    while index < 8
      invariant 0 <= index <= 8 && index <= |version|
      invariant |version| >= VERSION_FIELD_LEN || 0 in version[index..]
      invariant forall k :: 0 <= k < index ==> IsVersionCharacter(k, version[k])
    {
      if !IsVersionCharacter(index, version[index]) {
        return false;
      }
      assert |version| < VERSION_FIELD_LEN ==> version[index..] == [version[index]] + version[index + 1..];
      index := index + 1;
    }
    return version[8] == 0;
  }

  // Metadata record: magic 0, version 4, reserved 13, size 16, digest 20, CRC 52, force flag 56.

  type MetaRecord = r: Bytes | |r| == META_RECORD_LEN witness Zeros(60)

  function RecordVersion(r: MetaRecord): Bytes { r[4..13] }
  function RecordSize(r: MetaRecord): nat { LeValue(r[16..20]) }
  function RecordDigest(r: MetaRecord): Bytes { r[20..52] }
  function RecordForce(r: MetaRecord): Bytes { r[56..60] }

  predicate IsMetaRecordValid(r: MetaRecord, otaSize: nat) {
    && r[0..4] == META_MAGIC
    && IsVersion(RecordVersion(r))
    && IMAGE_HEAD_LEN <= RecordSize(r) <= otaSize
    && CrcValue(r[52..56]) == Checksum(r[..META_COVERED_LEN])
  }

  predicate IsForceRequested(r: MetaRecord) {
    RecordForce(r) != FORCE_CLEAR
  }

  function CoveredBytes(version: Bytes, imageSize: nat, sha256: Bytes): (b: Bytes)
    requires |version| == VERSION_FIELD_LEN && |sha256| == SHA256_LEN
    ensures |b| == META_COVERED_LEN
  {
    META_MAGIC + version + [0, 0, 0] + LeBytes(imageSize, 4) + sha256
  }

  function BuildMetaRecord(version: Bytes, imageSize: nat, sha256: Bytes): MetaRecord
    requires |version| == VERSION_FIELD_LEN && |sha256| == SHA256_LEN
  {
    var covered := CoveredBytes(version, imageSize, sha256);
    covered + CrcBytes(Checksum(covered)) + FORCE_CLEAR
  }

  lemma BuiltMetaFields(version: Bytes, imageSize: nat, sha256: Bytes)
    requires |version| == VERSION_FIELD_LEN && |sha256| == SHA256_LEN && imageSize < 0x1_0000_0000
    ensures var r := BuildMetaRecord(version, imageSize, sha256);
      && RecordVersion(r) == version && RecordSize(r) == imageSize && RecordDigest(r) == sha256
      && r[0..4] == META_MAGIC && !IsForceRequested(r) && CrcValue(r[52..56]) == Checksum(r[..META_COVERED_LEN])
  {
    var r := BuildMetaRecord(version, imageSize, sha256);
    var covered := CoveredBytes(version, imageSize, sha256);
    assert r[..52] == covered && r[52..56] == CrcBytes(Checksum(covered)) && RecordForce(r) == FORCE_CLEAR;
    CrcRoundTrip(Checksum(covered));
    assert r[16..20] == LeBytes(imageSize, 4);
    assert Power256(4) == 0x1_0000_0000 by {
      assert Power256(2) == 65536;
    }
    LeRoundTrip(imageSize, 4);
  }

  /** A built record is valid exactly when its version and size are acceptable. */
  lemma BuiltMetaValidity(version: Bytes, imageSize: nat, sha256: Bytes, otaSize: nat)
    requires |version| == VERSION_FIELD_LEN && |sha256| == SHA256_LEN && imageSize < 0x1_0000_0000
    ensures IsMetaRecordValid(BuildMetaRecord(version, imageSize, sha256), otaSize)
       <==> IsVersion(version) && IMAGE_HEAD_LEN <= imageSize <= otaSize
  {
    BuiltMetaFields(version, imageSize, sha256);
  }

  /** The force flag is outside the checksum: it never changes validity or any other field. */
  lemma ForceOutsideValidity(r: MetaRecord, t: MetaRecord, otaSize: nat)
    requires r[..56] == t[..56]
    ensures IsMetaRecordValid(r, otaSize) <==> IsMetaRecordValid(t, otaSize)
    ensures RecordVersion(r) == RecordVersion(t) && RecordSize(r) == RecordSize(t) && RecordDigest(r) == RecordDigest(t)
  {
    SameSlice(r, t, 0, 4);
    SameSlice(r, t, 4, 13);
    SameSlice(r, t, 16, 20);
    SameSlice(r, t, 20, 52);
    SameSlice(r, t, 52, 56);
    SameSlice(r, t, 0, 52);
  }

  lemma SameSlice(r: MetaRecord, t: MetaRecord, i: nat, j: nat)
    requires i <= j <= 56 && r[..56] == t[..56]
    ensures r[i..j] == t[i..j]
  {
    forall k | i <= k < j ensures r[k] == t[k] {
      assert r[k] == r[..56][k] && t[k] == t[..56][k];
    }
  }

  /** Any corruption of a valid record inside four consecutive covered bytes is rejected. */
  lemma CorruptionRejected(r: MetaRecord, t: MetaRecord, w: nat, otaSize: nat)
    requires IsMetaRecordValid(r, otaSize)
    requires r[..52] != t[..52] && r[52..56] == t[52..56]
    requires DifferInWindow(r[..52], t[..52], w)
    ensures !IsMetaRecordValid(t, otaSize)
  {
    BurstDetected(r[..52], t[..52], w);
  }

  // Control record: magic 0, crash count 4, boot attempts 5, reserved 6, CRC 8.

  type CtrlRecord = r: Bytes | |r| == CTRL_RECORD_LEN witness Zeros(12)

  predicate IsCtrlRecordValid(r: CtrlRecord) {
    r[0..4] == CTRL_MAGIC && CrcValue(r[8..12]) == Checksum(r[..CTRL_COVERED_LEN])
  }

  function CrashCount(r: CtrlRecord): nat { FromByte(r[4]) }
  function BootAttempts(r: CtrlRecord): bv8 { r[5] }

  function BuildCtrlRecord(crashCount: nat, bootAttempts: bv8): CtrlRecord
    requires crashCount < 256
  {
    var covered := CTRL_MAGIC + [ToByte(crashCount), bootAttempts, 0, 0];
    covered + CrcBytes(Checksum(covered))
  }

  lemma BuiltCtrlRecord(crashCount: nat, bootAttempts: bv8)
    requires crashCount < 256
    ensures IsCtrlRecordValid(BuildCtrlRecord(crashCount, bootAttempts))
    ensures CrashCount(BuildCtrlRecord(crashCount, bootAttempts)) == crashCount
    ensures BootAttempts(BuildCtrlRecord(crashCount, bootAttempts)) == bootAttempts
  {
    var covered := CTRL_MAGIC + [ToByte(crashCount), bootAttempts, 0, 0];
    var r := BuildCtrlRecord(crashCount, bootAttempts);
    assert r[..8] == covered && r[8..12] == CrcBytes(Checksum(covered));
    CrcRoundTrip(Checksum(covered));
    ByteRoundTrip(crashCount);
  }

  /** What the readers see: an invalid control record counts as zero. */
  function StoredCrashCount(r: CtrlRecord): nat {
    if IsCtrlRecordValid(r) then CrashCount(r) else 0
  }

  // Embedded metadata of an image head.

  datatype MetaCheck = CheckOk | TooShort | NotImage | NoMetadata | BadVersion

  function EmbeddedMagic(head: Bytes): Bytes
    requires |head| >= IMAGE_HEAD_LEN
  {
    head[288..292]
  }

  function EmbeddedVersion(head: Bytes): (v: Bytes)
    requires |head| >= IMAGE_HEAD_LEN
    ensures |v| == VERSION_FIELD_LEN
  {
    head[292..301]
  }

  function CheckEmbeddedMeta(head: Bytes): MetaCheck {
    if |head| < IMAGE_HEAD_LEN then TooShort
    else if head[0] != IMAGE_MAGIC || head[12..14] != CHIP_ID_ESP32C3 || head[32..36] != APP_DESC_MAGIC then NotImage
    else if EmbeddedMagic(head) != META_MAGIC then NoMetadata
    else if !IsVersion(EmbeddedVersion(head)) then BadVersion
    else CheckOk
  }

  // What is accepted, said in the numbers of the file format.

  predicate IsDigitByte(c: bv8) { 48 <= FromByte(c) <= 57 }

  /** DD.DD.DD and its terminator. */
  predicate IsDotted(v: Bytes) {
    && |v| >= 9
    && IsDigitByte(v[0]) && IsDigitByte(v[1]) && FromByte(v[2]) == 46
    && IsDigitByte(v[3]) && IsDigitByte(v[4]) && FromByte(v[5]) == 46
    && IsDigitByte(v[6]) && IsDigitByte(v[7]) && FromByte(v[8]) == 0
  }

  lemma VersionIff(v: Bytes)
    ensures IsVersion(v) <==> IsDotted(v)
  {
    hide FromByte;
    if |v| >= 9 {
      forall index | 0 <= index < 8
        ensures IsVersionCharacter(index, v[index]) <==>
                if index == 2 || index == 5 then FromByte(v[index]) == 46 else IsDigitByte(v[index])
      {
        CharacterValue(v[index]);
      }
      CharacterValue(v[8]);
    }
  }

  lemma CharacterValue(c: bv8)
    ensures (c == 0x2E <==> FromByte(c) == 46) && (c == 0 <==> FromByte(c) == 0)
    ensures 0x30 <= c <= 0x39 <==> 48 <= FromByte(c) <= 57
    ensures c == 0xE9 <==> FromByte(c) == 0xE9
  {
  }

  /** An ESP32-C3 application image: magic, chip, and the descriptor at the start of its first segment. */
  predicate IsImageHead(head: Bytes)
    requires |head| >= 304
  {
    FromByte(head[0]) == 0xE9 && LeValue(head[12..14]) == 5 && LeValue(head[32..36]) == 0xABCD5432
  }

  /** The check of an image head accepts exactly the heads with all six marks, and names the first one missing. */
  lemma CheckedHeadIff(head: Bytes)
    ensures CheckEmbeddedMeta(head) == TooShort <==> |head| < 304
    ensures |head| >= 304 ==>
              && (CheckEmbeddedMeta(head) == NotImage <==> !IsImageHead(head))
              && (CheckEmbeddedMeta(head) == NoMetadata <==>
                    IsImageHead(head) && LeValue(head[288..292]) != 0x57424752)
              && (CheckEmbeddedMeta(head) == BadVersion <==>
                    IsImageHead(head) && LeValue(head[288..292]) == 0x57424752 && !IsDotted(head[292..301]))
              && (CheckEmbeddedMeta(head) == CheckOk <==>
                    IsImageHead(head) && LeValue(head[288..292]) == 0x57424752 && IsDotted(head[292..301]))
  {
    hide FromByte; hide LeValue; hide IsVersion; hide IsDotted;
    if |head| >= 304 {
      ConstantValues();
      CharacterValue(head[0]);
      FieldHolds(head[12..14], CHIP_ID_ESP32C3);
      FieldHolds(head[32..36], APP_DESC_MAGIC);
      FieldHolds(head[288..292], META_MAGIC);
      VersionIff(head[292..301]);
    }
  }

  /** A metadata record is valid exactly if magic, version and size are right and its CRC is that of bytes 0 to 51. */
  lemma MetaValidIff(r: MetaRecord, otaSize: nat)
    ensures IsMetaRecordValid(r, otaSize) <==>
              && LeValue(r[0..4]) == 0x57424752 && IsDotted(r[4..13])
              && 304 <= LeValue(r[16..20]) <= otaSize
              && r[52..56] == CrcBytes(Checksum(r[..52]))
    ensures IsForceRequested(r) <==> LeValue(r[56..60]) != 0xFFFFFFFF
  {
    hide FromByte; hide LeValue; hide IsVersion; hide IsDotted; hide Checksum; hide CrcBytes; hide CrcValue;
    ConstantValues();
    FieldHolds(r[0..4], META_MAGIC);
    FieldHolds(r[56..60], FORCE_CLEAR);
    VersionIff(r[4..13]);
    CrcHolds(r[52..56], Checksum(r[..52]));
  }

  /** A control record is valid exactly if its magic is right and its CRC is that of bytes 0 to 7. */
  lemma CtrlValidIff(r: CtrlRecord)
    ensures IsCtrlRecordValid(r) <==> LeValue(r[0..4]) == 0x4C525443 && r[8..12] == CrcBytes(Checksum(r[..8]))
  {
    hide FromByte; hide LeValue; hide Checksum; hide CrcBytes; hide CrcValue;
    ConstantValues();
    FieldHolds(r[0..4], CTRL_MAGIC);
    CrcHolds(r[8..12], Checksum(r[..8]));
  }

  lemma CrcHolds(field: Bytes, crc: bv32)
    requires |field| == 4
    ensures CrcValue(field) == crc <==> field == CrcBytes(crc)
  {
    CrcRoundTrip(crc);
    CrcUnique(field[0], field[1], field[2], field[3]);
    assert field == [field[0], field[1], field[2], field[3]];
  }

  lemma CrcUnique(a: bv8, b: bv8, c: bv8, d: bv8)
    ensures CrcBytes(CrcValue([a, b, c, d])) == [a, b, c, d]
  {
  }

  // Boot decision.

  datatype ResetReason =
    | PowerOn | Software | Panic | InterruptWatchdog | TaskWatchdog | OtherWatchdog | DeepSleep | OtherReset

  predicate IsCrashReset(reason: ResetReason) {
    reason.Panic? || reason.InterruptWatchdog? || reason.TaskWatchdog? || reason.OtherWatchdog?
  }

  datatype BootMode = Firmware | UpdaterRequested | UpdaterNoFirmware | UpdaterCrashLoop | UpdaterBootSelectFailed

  datatype BootInputs = BootInputs(isForceRequested: bool, isRecordValid: bool, isOtaMatch: bool, crashCount: nat,
                                   resetReason: ResetReason)

  datatype BootDecision = BootDecision(mode: BootMode, crashCount: nat)

  function DecideFwBoot(inputs: BootInputs): BootDecision {
    if inputs.isForceRequested then BootDecision(UpdaterRequested, inputs.crashCount)
    else if inputs.resetReason.DeepSleep? then BootDecision(UpdaterBootSelectFailed, inputs.crashCount)
    else if !inputs.isRecordValid || !inputs.isOtaMatch then BootDecision(UpdaterNoFirmware, inputs.crashCount)
    else if IsCrashReset(inputs.resetReason) then
      var count := if inputs.crashCount < 255 then inputs.crashCount + 1 else inputs.crashCount;
      BootDecision(if count >= CRASH_RESET_LIMIT then UpdaterCrashLoop else Firmware, count)
    else BootDecision(Firmware, inputs.crashCount)
  }

  /** The start counts as a crash of the installed firmware. */
  predicate CountsCrash(inputs: BootInputs) {
    && !inputs.isForceRequested && inputs.isRecordValid && inputs.isOtaMatch
    && IsCrashReset(inputs.resetReason)
  }

  /** Every mode is decided on exactly its inputs; four reset reasons are crashes, and the third counted is too many. */
  lemma DecisionIff(inputs: BootInputs)
    requires inputs.crashCount < 256
    ensures var d, i := DecideFwBoot(inputs), inputs;
      var isCrash := i.resetReason in {Panic, InterruptWatchdog, TaskWatchdog, OtherWatchdog};
      var isInstalled := i.isRecordValid && i.isOtaMatch;
      && (d.mode == UpdaterRequested <==> i.isForceRequested)
      && (d.mode == UpdaterBootSelectFailed <==> !i.isForceRequested && i.resetReason == DeepSleep)
      && (d.mode == UpdaterNoFirmware <==> !i.isForceRequested && i.resetReason != DeepSleep && !isInstalled)
      && (d.mode == UpdaterCrashLoop <==> !i.isForceRequested && isInstalled && isCrash && i.crashCount >= 2)
      && d.crashCount == (if !i.isForceRequested && isInstalled && isCrash && i.crashCount < 255
                          then i.crashCount + 1 else i.crashCount)
  {
  }

  /** The firmware starts on exactly the healthy inputs, and a crash count it starts with stays below the limit. */
  lemma FirmwareStartsIff(inputs: BootInputs)
    requires inputs.crashCount < 256
    ensures DecideFwBoot(inputs).mode == Firmware
       <==> && !inputs.isForceRequested && !inputs.resetReason.DeepSleep? && inputs.isRecordValid && inputs.isOtaMatch
            && (IsCrashReset(inputs.resetReason) ==> inputs.crashCount + 1 < CRASH_RESET_LIMIT)
    ensures DecideFwBoot(inputs).crashCount
         == if CountsCrash(inputs) && inputs.crashCount < 255 then inputs.crashCount + 1 else inputs.crashCount
    ensures DecideFwBoot(inputs).mode == UpdaterCrashLoop
       <==> CountsCrash(inputs) && DecideFwBoot(inputs).crashCount >= CRASH_RESET_LIMIT
  {
  }
}
