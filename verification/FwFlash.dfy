/**
 * Flash access of components/fw_meta/fw_meta_flash.c over NOR sectors, plus the OTA partition services the updater
 * uses. Programming only turns ones into zeros, erasing gives 0xFF. Every operation may succeed, fail, or be cut by a
 * power loss; a cut travels to the caller through `:-`, so each contract also describes the flash the next start finds.
 */
module FwFlash {
  import opened Crc32
  import opened FwMeta
  import opened PowerLoss

  const SECTOR_BYTES := 4096

  type Sector = s: Bytes | |s| == SECTOR_BYTES witness Zeros(SECTOR_BYTES)

  function Erased(): Sector {
    seq(SECTOR_BYTES, _ => 0xFF)
  }

  function AndBytes(stored: Bytes, data: Bytes): (r: Bytes)
    requires |stored| == |data|
    ensures |r| == |stored|
  {
    seq(|stored|, k requires 0 <= k < |stored| => stored[k] & data[k])
  }

  function Program(sector: Sector, offset: nat, data: Bytes): Sector
    requires offset + |data| <= SECTOR_BYTES
  {
    sector[..offset] + AndBytes(sector[offset..offset + |data|], data) + sector[offset + |data|..]
  }

  lemma AndErased(b: bv8)
    ensures 0xFF & b == b && b & 0 == 0
  {
  }

  /** Writing into erased flash stores exactly the data. */
  lemma ProgramErased(data: Bytes)
    requires |data| <= SECTOR_BYTES
    ensures Program(Erased(), 0, data)[..|data|] == data
  {
    forall k | 0 <= k < |data| ensures Program(Erased(), 0, data)[k] == data[k] {
      AndErased(data[k]);
    }
  }

  /** Programming the force flag clears that word and touches nothing else. */
  lemma ProgramForce(sector: Sector)
    ensures Program(sector, 56, FORCE_SET)[..56] == sector[..56]
    ensures Program(sector, 56, FORCE_SET)[56..60] == FORCE_SET
  {
    forall k | 56 <= k < 60 ensures Program(sector, 56, FORCE_SET)[k] == 0 {
      AndErased(sector[k]);
    }
  }

  function MetaOf(sector: Sector): MetaRecord { sector[..META_RECORD_LEN] }

  function CtrlOf(sector: Sector): CtrlRecord { sector[..CTRL_RECORD_LEN] }

  lemma ErasedIsInvalid(otaSize: nat)
    ensures !IsMetaRecordValid(MetaOf(Erased()), otaSize) && StoredCrashCount(CtrlOf(Erased())) == 0
  {
    assert MetaOf(Erased())[0..4][0] == 0xFF && CtrlOf(Erased())[0..4][0] == 0xFF;
  }

  /**
   * An interrupted metadata operation leaves the old sector, the complete new one, or a record that reads as invalid.
   */
  predicate CutMeta(before: Sector, target: Sector, after: Sector, otaSize: nat) {
    after == before || after == target || !IsMetaRecordValid(MetaOf(after), otaSize)
  }

  predicate CutCtrl(before: Sector, target: Sector, after: Sector) {
    after == before || after == target || !IsCtrlRecordValid(CtrlOf(after))
  }

  predicate CutForce(before: Sector, after: Sector) {
    after[..56] == before[..56]
  }

  lemma SameCovered(before: Sector, after: Sector, otaSize: nat)
    requires CutForce(before, after)
    ensures IsMetaRecordValid(MetaOf(before), otaSize) <==> IsMetaRecordValid(MetaOf(after), otaSize)
    ensures RecordVersion(MetaOf(before)) == RecordVersion(MetaOf(after))
    ensures RecordSize(MetaOf(before)) == RecordSize(MetaOf(after))
    ensures RecordDigest(MetaOf(before)) == RecordDigest(MetaOf(after))
  {
    assert MetaOf(before)[..56] == before[..56] && MetaOf(after)[..56] == after[..56];
    ForceOutsideValidity(MetaOf(before), MetaOf(after), otaSize);
  }

  /** The partition content starts with the complete verified image whose version, size and digest `r` states. */
  ghost predicate Describes(r: MetaRecord, ota: Bytes, isVerified: Bytes -> bool, digestOf: Bytes -> Bytes) {
    && IMAGE_HEAD_LEN <= RecordSize(r) <= |ota|
    && isVerified(ota[..RecordSize(r)])
    && CheckEmbeddedMeta(ota[..IMAGE_HEAD_LEN]) == CheckOk
    && EmbeddedVersion(ota) == RecordVersion(r)
    && digestOf(ota) == RecordDigest(r)
  }

  datatype WriteResult = WriteOk | ValidateFailed | WriteFailed

  class FwFlash {
    const otaSize: nat
    const digestOf: Bytes -> Bytes    // esp_partition_get_sha256() of the partition content
    const isVerified: Bytes -> bool   // what esp_ota_end() accepts
    var metaSector: Sector
    var ctrlSector: Sector
    var ota: Bytes
    var otaWritten: nat
    var openHandles: nat              // OTA handles begun and neither ended nor aborted
    ghost var isFaulty: bool          // some operation on the metadata sector or ota_0 failed or was cut
    ghost var hasEraseFailed: bool    // the last erase of the metadata sector failed or was cut
    ghost var isCtrlFaulty: bool      // some operation on the control sector failed or was cut

    ghost predicate Valid()
      reads `ota, `otaWritten
    {
      && IMAGE_HEAD_LEN <= otaSize < 0x1_0000_0000
      && |ota| == otaSize && otaWritten <= otaSize
      && forall b :: |digestOf(b)| == SHA256_LEN
    }

    function StoredMeta(): MetaRecord
      reads `metaSector
    {
      MetaOf(metaSector)
    }

    function StoredCount(): nat
      reads `ctrlSector
    {
      StoredCrashCount(CtrlOf(ctrlSector))
    }

    /** The reserved boot-attempts byte that the readers see. */
    function StoredAttempts(): bv8
      reads `ctrlSector
    {
      if IsCtrlRecordValid(CtrlOf(ctrlSector)) then BootAttempts(CtrlOf(ctrlSector)) else 0
    }

    ghost predicate HasValidRecord()
      reads `metaSector
    {
      IsMetaRecordValid(StoredMeta(), otaSize)
    }

    /** ota_0 holds the complete verified image that record `r` describes. */
    ghost predicate HoldsImage(r: MetaRecord)
      requires Valid()
      reads `ota, `otaWritten
    {
      Describes(r, ota, isVerified, digestOf)
    }

    /** The commit rule: a valid record always describes the image in ota_0. */
    ghost predicate CommitSafe()
      reads `metaSector, `ota, `otaWritten
    {
      Valid() && (HasValidRecord() ==> HoldsImage(StoredMeta()))
    }

    /** A software restart passes through: the record is valid, not forced, and describes the image. */
    ghost predicate BootReady()
      reads `metaSector, `ota, `otaWritten
    {
      Valid() && HasValidRecord() && !IsForceRequested(StoredMeta()) && HoldsImage(StoredMeta())
    }

    method EraseFwMetaRecord() returns (r: Op<bool>)
      requires Valid()
      modifies this`metaSector, this`isFaulty, this`hasEraseFailed
      ensures Valid()
      ensures r == Done(true) ==> metaSector == Erased() && isFaulty == old(isFaulty)
      ensures r != Done(true) ==> isFaulty && CutMeta(old(metaSector), Erased(), metaSector, otaSize)
      ensures hasEraseFailed == (r != Done(true))
    {
      var ok: bool := *;
      hasEraseFailed := !ok;
      if ok {
        metaSector := Erased();
        return Done(true);
      }
      assert CutMeta(metaSector, Erased(), metaSector, otaSize);
      var after: Sector :| CutMeta(metaSector, Erased(), after, otaSize);
      metaSector, isFaulty := after, true;
      r := *;
      r := if r == Done(true) then Done(false) else r;
    }

    method WriteFwMetaRecord(record: MetaRecord) returns (r: Op<bool>)
      requires Valid()
      modifies this`metaSector, this`isFaulty
      ensures Valid()
      ensures r == Done(true) ==> metaSector == Program(old(metaSector), 0, record) && isFaulty == old(isFaulty)
      ensures r != Done(true) ==>
                isFaulty && CutMeta(old(metaSector), Program(old(metaSector), 0, record), metaSector, otaSize)
    {
      var target := Program(metaSector, 0, record);
      var ok: bool := *;
      if ok {
        metaSector := target;
        return Done(true);
      }
      assert CutMeta(metaSector, target, metaSector, otaSize);
      var after: Sector :| CutMeta(metaSector, target, after, otaSize);
      metaSector, isFaulty := after, true;
      r := *;
      r := if r == Done(true) then Done(false) else r;
    }

    method ReadFwMetaRecord() returns (r: Op<(bool, MetaRecord)>)
      modifies this`isFaulty
      ensures r.Done? && r.value.0 ==> r.value.1 == StoredMeta() && isFaulty == old(isFaulty)
      ensures r.Done? && !r.value.0 ==> isFaulty && r.value.1 == Erased()[..META_RECORD_LEN]
      ensures r.PowerCut? ==> isFaulty
    {
      var ok, cut: bool := *, *;
      isFaulty := isFaulty || !ok || cut;
      if cut {
        return PowerCut;
      }
      var record: MetaRecord := if ok then StoredMeta() else Erased()[..META_RECORD_LEN];
      return Done((ok, record));
    }

    /** Program the force word, then read it back. Validity is unaffected even by a torn write. */
    method ProgramFwMetaForceFlag() returns (r: Op<bool>)
      requires Valid()
      modifies this`metaSector, this`isFaulty
      ensures Valid()
      ensures CutForce(old(metaSector), metaSector)
      ensures old(isFaulty) ==> isFaulty
      ensures HasValidRecord() <==> old(HasValidRecord())
      ensures r == Done(true) ==> RecordForce(StoredMeta()) == FORCE_SET
      ensures r != Done(true) ==> isFaulty
    {
      ghost var before := metaSector;
      var ok: bool := *;
      if ok {
        ProgramForce(metaSector);
        metaSector := Program(metaSector, 56, FORCE_SET);
      } else {
        assert CutForce(metaSector, metaSector);
        var after: Sector :| CutForce(metaSector, after);
        metaSector, isFaulty := after, true;
      }
      SameCovered(before, metaSector, otaSize);
      var cut: bool := *;
      if cut {
        isFaulty := true;
        return PowerCut;
      }
      if !ok {
        return Done(false);
      }
      var readBack :- ReadFwMetaRecord();
      return Done(readBack.0 && RecordForce(readBack.1) == FORCE_SET);
    }

    /** An unreadable or invalid control record reads as both counts zero. */
    method ReadFwCtrlRecord() returns (r: Op<CtrlRecord>)
      modifies this`isCtrlFaulty
      ensures r.Done? ==> IsCtrlRecordValid(r.value)
      ensures r.Done? ==> CrashCount(r.value) == StoredCount() || (isCtrlFaulty && CrashCount(r.value) == 0)
      ensures r.Done? && !isCtrlFaulty ==>
                CrashCount(r.value) == StoredCount() && BootAttempts(r.value) == StoredAttempts()
      ensures old(isCtrlFaulty) ==> isCtrlFaulty
      ensures r.PowerCut? ==> isCtrlFaulty
    {
      var ok, cut: bool := *, *;
      isCtrlFaulty := isCtrlFaulty || !ok || cut;
      if cut {
        return PowerCut;
      }
      BuiltCtrlRecord(0, 0);
      var record := CtrlOf(ctrlSector);
      return Done(if ok && IsCtrlRecordValid(record) then record else BuildCtrlRecord(0, 0));
    }

    /**
     * Erase sector 1, then write the record. Whatever happens, the stored count is the old one, zero or the new one.
     */
    method WriteFwCtrlRecord(record: CtrlRecord) returns (r: Op<bool>)
      requires Valid() && IsCtrlRecordValid(record)
      modifies this`ctrlSector, this`isCtrlFaulty
      ensures Valid()
      ensures r == Done(true) ==> CtrlOf(ctrlSector) == record && isCtrlFaulty == old(isCtrlFaulty)
      ensures r != Done(true) ==> isCtrlFaulty
      ensures StoredCount() == old(StoredCount()) || StoredCount() == 0 || StoredCount() == CrashCount(record)
    {
      ErasedIsInvalid(otaSize);
      ProgramErased(record);
      var erased :- EraseCtrlSector();
      if !erased {
        return Done(false);
      }
      r := WriteCtrlSector(record);
    }

    method EraseCtrlSector() returns (r: Op<bool>)
      requires Valid()
      modifies this`ctrlSector, this`isCtrlFaulty
      ensures Valid()
      ensures r == Done(true) ==> ctrlSector == Erased() && isCtrlFaulty == old(isCtrlFaulty)
      ensures r != Done(true) ==> isCtrlFaulty && CutCtrl(old(ctrlSector), Erased(), ctrlSector)
    {
      var ok: bool := *;
      if ok {
        ctrlSector := Erased();
        return Done(true);
      }
      assert CutCtrl(ctrlSector, Erased(), ctrlSector);
      var after: Sector :| CutCtrl(ctrlSector, Erased(), after);
      ctrlSector, isCtrlFaulty := after, true;
      r := *;
      r := if r == Done(true) then Done(false) else r;
    }

    method WriteCtrlSector(record: CtrlRecord) returns (r: Op<bool>)
      requires Valid()
      modifies this`ctrlSector, this`isCtrlFaulty
      ensures Valid()
      ensures r == Done(true) ==> ctrlSector == Program(old(ctrlSector), 0, record) && isCtrlFaulty == old(isCtrlFaulty)
      ensures r != Done(true) ==>
          isCtrlFaulty && CutCtrl(old(ctrlSector), Program(old(ctrlSector), 0, record), ctrlSector)
    {
      var target := Program(ctrlSector, 0, record);
      var ok: bool := *;
      if ok {
        ctrlSector := target;
        return Done(true);
      }
      assert CutCtrl(ctrlSector, target, ctrlSector);
      var after: Sector :| CutCtrl(ctrlSector, target, after);
      ctrlSector, isCtrlFaulty := after, true;
      r := *;
      r := if r == Done(true) then Done(false) else r;
    }

    // OTA partition services.

    /** esp_ota_begin(): on success a handle with an empty write position; the old content is gone either way. */
    method BeginOta() returns (r: Op<bool>)
      requires Valid()
      modifies this`ota, this`otaWritten, this`openHandles, this`isFaulty
      ensures Valid()
      ensures r == Done(true) ==> otaWritten == 0 && isFaulty == old(isFaulty) && openHandles == old(openHandles) + 1
      ensures r != Done(true) ==> isFaulty && openHandles == old(openHandles)
    {
      ScrambleOta();
      otaWritten := 0;
      r := *;
      isFaulty := isFaulty || r != Done(true);
      openHandles := openHandles + if r == Done(true) then 1 else 0;
    }

    method ScrambleOta()
      requires Valid()
      modifies this`ota
      ensures Valid()
    {
      var content: Bytes :| |content| == otaSize;
      ota := content;
    }

    /** esp_ota_write(): appends, or rejects a first byte other than the image magic. */
    method WriteOta(chunk: Bytes) returns (r: Op<WriteResult>)
      requires Valid() && chunk != [] && otaWritten + |chunk| <= otaSize
      modifies this`ota, this`otaWritten, this`isFaulty
      ensures Valid()
      ensures r == Done(ValidateFailed) <==> r.Done? && old(otaWritten) == 0 && chunk[0] != IMAGE_MAGIC
      ensures r == Done(ValidateFailed) ==> otaWritten == 0 && isFaulty == old(isFaulty)
      ensures r == Done(WriteOk) ==>
                && otaWritten == old(otaWritten) + |chunk| && isFaulty == old(isFaulty)
                && ota[..otaWritten] == old(ota[..otaWritten]) + chunk
      ensures old(isFaulty) || r.PowerCut? || r == Done(WriteFailed) ==> isFaulty
      ensures r == Done(WriteFailed) ==> otaWritten == old(otaWritten)
    {
      if otaWritten == 0 && chunk[0] != IMAGE_MAGIC {
        return Done(ValidateFailed);
      }
      var ok: bool := *;
      if ok {
        ota := ota[..otaWritten] + chunk + ota[otaWritten + |chunk|..];
        otaWritten := otaWritten + |chunk|;
        return Done(WriteOk);
      }
      ScrambleOta();
      isFaulty := true;
      var cut: bool := *;
      return if cut then PowerCut else Done(WriteFailed);
    }

    /** esp_ota_end(): releases the handle whatever its result; success means that the image written was verified. */
    method EndOta() returns (r: Op<bool>)
      requires Valid() && openHandles > 0
      modifies this`openHandles, this`isFaulty
      ensures r == Done(true) ==> isVerified(ota[..otaWritten])
      ensures r == Done(false) && !isFaulty ==> !isVerified(ota[..otaWritten])
      ensures old(isFaulty) || r.PowerCut? ==> isFaulty
      ensures openHandles == old(openHandles) - 1
    {
      var cut, ok: bool := *, *;
      isFaulty := isFaulty || cut || !ok;
      openHandles := openHandles - 1;
      return if cut then PowerCut else Done(ok && isVerified(ota[..otaWritten]));
    }

    /** esp_ota_abort(): releases the handle and leaves what was written. */
    method AbortOta()
      requires openHandles > 0
      modifies this`openHandles
      ensures openHandles == old(openHandles) - 1
    {
      openHandles := openHandles - 1;
    }

    method ComputeFwImageSha256() returns (r: Op<(bool, Bytes)>)
      requires Valid()
      modifies this`isFaulty
      ensures r.Done? && r.value.0 ==> r.value.1 == digestOf(ota)
      ensures r.Done? && !r.value.0 ==> isFaulty
      ensures r.Done? ==> |r.value.1| == SHA256_LEN
      ensures old(isFaulty) || r.PowerCut? ==> isFaulty
    {
      var cut, ok: bool := *, *;
      isFaulty := isFaulty || cut || !ok;
      return if cut then PowerCut else Done((ok, if ok then digestOf(ota) else Zeros(SHA256_LEN)));
    }

    method ReadOtaHead() returns (r: Op<(bool, Bytes)>)
      requires Valid()
      modifies this`isFaulty
      ensures r.Done? ==> |r.value.1| == IMAGE_HEAD_LEN
      ensures r.Done? && r.value.0 ==> r.value.1 == ota[..IMAGE_HEAD_LEN]
      ensures r.Done? && !r.value.0 ==> isFaulty
      ensures old(isFaulty) || r.PowerCut? ==> isFaulty
    {
      var cut, ok: bool := *, *;
      isFaulty := isFaulty || cut || !ok;
      return if cut then PowerCut else Done((ok, if ok then ota[..IMAGE_HEAD_LEN] else Zeros(IMAGE_HEAD_LEN)));
    }
  }
}
