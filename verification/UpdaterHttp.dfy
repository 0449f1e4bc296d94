/** The upload worker of updater/main/updater_http.c: streaming receiver, commit of the metadata record, reply. */
module UpdaterHttp {
  import opened Crc32
  import opened FwMeta
  import opened FwFlash
  import opened PowerLoss

  const CHUNK_BYTES := 4096
  const RECV_RETRIES := 5

  datatype UploadResult =
    | UploadOk | RejectSize | RejectImage | RejectMetadata
    | RejectVersion | RejectVerify | RejectFlash | RejectInterrupted

  datatype UploadState = Idle | Uploading | Finished | Error

  datatype Received = Timeout | Closed | Data(bytes: Bytes)

  // Specification of the receiver.

  /** Timeouts at the end of a receive history. */
  function TrailingTimeouts(history: seq<Received>): nat {
    if history == [] || !history[|history| - 1].Timeout? then 0 else 1 + TrailingTimeouts(history[..|history| - 1])
  }

  /** No closed connection and never more than five timeouts in a row. */
  predicate IsLinkHealthy(history: seq<Received>) {
    history == [] || (&& IsLinkHealthy(history[..|history| - 1])
                      && !history[|history| - 1].Closed? && TrailingTimeouts(history) <= 5)
  }

  /** Every receive that brought data fits the chunk buffer. */
  predicate IsChunked(history: seq<Received>) {
    forall part :: part in history && part.Data? ==> 1 <= |part.bytes| <= 4096
  }

  lemma EmptyHistoryHealthy()
    ensures IsLinkHealthy([]) && TrailingTimeouts([]) == 0 && DataLength([]) == 0 && IsChunked([])
  {
  }

  lemma ChunkedExtends(history: seq<Received>, last: Received)
    requires IsChunked(history) && (last.Data? ==> 1 <= |last.bytes| <= CHUNK_BYTES)
    ensures IsChunked(history + [last])
  {
  }

  lemma HealthyExtends(history: seq<Received>, last: Received)
    ensures IsLinkHealthy(history + [last])
       <==> IsLinkHealthy(history) && !last.Closed? && TrailingTimeouts(history + [last]) <= RECV_RETRIES
    ensures TrailingTimeouts(history + [last]) == if last.Timeout? then 1 + TrailingTimeouts(history) else 0
  {
    assert (history + [last])[..|history|] == history;
  }

  /** Bytes delivered by a receive history. */
  function DataLength(history: seq<Received>): nat {
    if history == [] then 0
    else
      var last := history[|history| - 1];
      DataLength(history[..|history| - 1]) + if last.Data? then |last.bytes| else 0
  }

  lemma DataExtends(history: seq<Received>, last: Received)
    ensures DataLength(history + [last]) == DataLength(history) + if last.Data? then |last.bytes| else 0
  {
    assert (history + [last])[..|history|] == history;
  }

  /** The last receive of the history brought the chunk that completes the head, or the wrong first byte of the body. */
  predicate DecidesHead(history: seq<Received>, body: Bytes) {
    && history != [] && history[|history| - 1].Data? && body != []
    && var before := DataLength(history[..|history| - 1]);
       && before < IMAGE_HEAD_LEN
       && (before + |history[|history| - 1].bytes| >= IMAGE_HEAD_LEN || (before == 0 && body[0] != IMAGE_MAGIC))
  }

  function Prefix(body: Bytes): Bytes {
    if |body| < IMAGE_HEAD_LEN then body else body[..IMAGE_HEAD_LEN]
  }

  function HeadVerdict(head: Bytes): UploadResult {
    match CheckEmbeddedMeta(head)
    case CheckOk => UploadOk
    case NoMetadata => RejectMetadata
    case BadVersion => RejectVersion
    case _ => RejectImage
  }

  lemma ShortHeadRejected(head: Bytes)
    requires |head| < IMAGE_HEAD_LEN
    ensures HeadVerdict(head) == RejectImage
  {
  }

  /** The verdict the body deserves, however it is cut into receives. */
  function BodyVerdict(body: Bytes): UploadResult {
    HeadVerdict(Prefix(body))
  }

  /** Firmware for this device: a whole image head with the metadata block and a version in it. */
  predicate IsFirmware(body: Bytes) {
    && |body| >= 304 && IsImageHead(body)
    && LeValue(body[288..292]) == 0x57424752 && IsDotted(body[292..301])
  }

  /** Exactly the firmware images are accepted, and every other body is rejected for the first mark it misses. */
  lemma BodyVerdictIff(body: Bytes)
    ensures BodyVerdict(body) == UploadOk <==> IsFirmware(body)
    ensures BodyVerdict(body) == RejectImage <==> |body| < 304 || !IsImageHead(body)
    ensures BodyVerdict(body) == RejectMetadata
       <==> |body| >= 304 && IsImageHead(body) && LeValue(body[288..292]) != 0x57424752
    ensures BodyVerdict(body) == RejectVersion
       <==> && |body| >= 304 && IsImageHead(body) && LeValue(body[288..292]) == 0x57424752
            && !IsDotted(body[292..301])
  {
    hide CheckEmbeddedMeta; hide LeValue; hide FromByte; hide IsDotted;
    var head := Prefix(body);
    CheckedHeadIff(head);
    if |body| >= 304 {
      assert head[12..14] == body[12..14] && head[32..36] == body[32..36];
      assert head[288..292] == body[288..292] && head[292..301] == body[292..301];
    }
  }

  lemma WholeBodyVerdict(body: Bytes)
    ensures BodyVerdict(body)
         == if |body| < IMAGE_HEAD_LEN then HeadVerdict(body) else HeadVerdict(body[..IMAGE_HEAD_LEN])
  {
  }

  /** The reply that a complete, undisturbed upload deserves. */
  ghost function UploadVerdict(body: Bytes, otaSize: nat, isVerified: Bytes -> bool): UploadResult {
    if |body| == 0 || |body| > otaSize then RejectSize
    else if BodyVerdict(body) != UploadOk then BodyVerdict(body)
    else if isVerified(body) then UploadOk
    else RejectVerify
  }

  /** Every reply of an undisturbed upload, in the numbers of the file format. */
  lemma UploadVerdictIff(body: Bytes, otaSize: nat, isVerified: Bytes -> bool)
    requires 304 <= otaSize
    ensures var verdict := UploadVerdict(body, otaSize, isVerified);
      && (verdict == UploadOk <==> |body| <= otaSize && IsFirmware(body) && isVerified(body))
      && (verdict == RejectVerify <==> |body| <= otaSize && IsFirmware(body) && !isVerified(body))
      && (verdict == RejectSize <==> |body| == 0 || |body| > otaSize)
      && (verdict == RejectImage <==> 0 < |body| <= otaSize && (|body| < 304 || !IsImageHead(body)))
      && (verdict == RejectMetadata <==>
            304 <= |body| <= otaSize && IsImageHead(body) && LeValue(body[288..292]) != 0x57424752)
      && (verdict == RejectVersion <==>
            && 304 <= |body| <= otaSize && IsImageHead(body) && LeValue(body[288..292]) == 0x57424752
            && !IsDotted(body[292..301]))
  {
    hide BodyVerdict; hide IsImageHead; hide IsDotted; hide LeValue;
    BodyVerdictIff(body);
  }

  lemma WrongFirstByteRejected(body: Bytes)
    requires |body| > 0 && body[0] != IMAGE_MAGIC
    ensures BodyVerdict(body) == RejectImage
  {
  }

  class UploadWorker {
    const flash: FwFlash
    const head: array<bv8>
    var state: UploadState
    var receivedBytes: nat
    var totalBytes: nat
    var installedVersion: Bytes       // empty = none
    var consumed: nat                 // bytes of the request body taken from the connection

    ghost predicate Valid()
      reads flash`ota, flash`otaWritten
    {
      flash.Valid() && head.Length == IMAGE_HEAD_LEN
    }

    constructor (flash: FwFlash)
      requires flash.Valid()
      ensures Valid() && this.flash == flash && fresh(head) && state == Idle && installedVersion == []
    {
      this.flash := flash;
      head := new bv8[IMAGE_HEAD_LEN];
      state, receivedBytes, totalBytes, installedVersion, consumed := Idle, 0, 0, [], 0;
    }

    /** httpd_req_recv(): any split of the body, any number of timeouts, or an error. */
    method Recv(body: Bytes, wanted: nat) returns (r: Received)
      requires 0 < wanted && consumed + wanted <= |body|
      modifies this`consumed
      ensures r.Data? ==> 1 <= |r.bytes| <= wanted && consumed == old(consumed) + |r.bytes|
      ensures r.Data? ==> r.bytes == body[old(consumed)..consumed]
      ensures !r.Data? ==> consumed == old(consumed)
    {
      var length: nat := *;
      var closed: bool := *;
      if !closed && 1 <= length <= wanted {
        r := Data(body[consumed..consumed + length]);
        consumed := consumed + length;
      } else {
        r := if closed then Closed else Timeout;
      }
    }

    /** Takes the rest of a rejected upload, so that the reply is read; only a broken link leaves some of it. */
    method DiscardBody(body: Bytes) returns (ghost history: seq<Received>)
      requires consumed <= |body|
      modifies this`consumed
      ensures old(consumed) <= consumed <= |body| && (consumed == |body| <==> IsLinkHealthy(history))
      ensures IsChunked(history)
    {
      EmptyHistoryHealthy();
      hide IsLinkHealthy;
      hide TrailingTimeouts;
      history := [];
      var timeouts := 0;
      while consumed < |body|
        invariant old(consumed) <= consumed <= |body|
        invariant IsLinkHealthy(history) && TrailingTimeouts(history) == timeouts <= RECV_RETRIES
        invariant IsChunked(history)
        decreases |body| - consumed, RECV_RETRIES - timeouts
      {
        var wanted := if |body| - consumed > CHUNK_BYTES then CHUNK_BYTES else |body| - consumed;
        var received := Recv(body, wanted);
        HealthyExtends(history, received);
        history := history + [received];
        if received.Timeout? && timeouts < RECV_RETRIES {
          timeouts := timeouts + 1;
          continue;
        }
        if !received.Data? {
          return;
        }
        timeouts := 0;
      }
    }

    // What has been taken from the body so far: it is in ota_0, and its beginning is in `head`.
    ghost predicate Mirrors(body: Bytes, received: nat, headLen: nat)
      requires Valid() && received <= |body|
      reads flash`ota, flash`otaWritten, head
    {
      && flash.otaWritten == received <= flash.otaSize
      && flash.ota[..received] == body[..received]
      && headLen == (if received < IMAGE_HEAD_LEN then received else IMAGE_HEAD_LEN)
      && head[..headLen] == body[..headLen]
      && (headLen == IMAGE_HEAD_LEN ==> HeadVerdict(body[..headLen]) == UploadOk)
      && (received > 0 ==> body[0] == IMAGE_MAGIC)
    }

    lemma NothingMirrored(body: Bytes)
      requires Valid() && flash.otaWritten == 0
      ensures Mirrors(body, 0, 0)
    {
    }

    lemma MirroredPart(body: Bytes, received: nat, headLen: nat)
      requires Valid() && received <= |body| && Mirrors(body, received, headLen)
      ensures flash.otaWritten == received && flash.ota[..received] == body[..received]
    {
    }

    lemma MirroredWhole(body: Bytes, headLen: nat)
      requires Valid() && Mirrors(body, |body|, headLen)
      ensures headLen == if |body| < IMAGE_HEAD_LEN then |body| else IMAGE_HEAD_LEN
      ensures |body| < IMAGE_HEAD_LEN ==>
                head[..headLen] == body && HeadVerdict(body) == RejectImage == BodyVerdict(body)
      ensures |body| >= IMAGE_HEAD_LEN ==> IsHeld(body) && BodyVerdict(body) == UploadOk
      ensures body != [] ==> body[0] == IMAGE_MAGIC
    {
      hide CheckEmbeddedMeta;
      assert flash.ota[..|body|] == body[..|body|] == body;
      WholeBodyVerdict(body);
      if |body| < IMAGE_HEAD_LEN {
        ShortHeadRejected(body);
      } else {
        assert head[..] == head[..headLen];
      }
    }

    method CopyHead(chunk: Bytes, headLen: nat) returns (copied: nat)
      requires headLen <= head.Length
      modifies head
      ensures copied == if head.Length - headLen > |chunk| then |chunk| else head.Length - headLen
      ensures head[..headLen] == old(head[..headLen]) && head[headLen..headLen + copied] == chunk[..copied]
    {
      copied := if head.Length - headLen > |chunk| then |chunk| else head.Length - headLen;
      forall k | headLen <= k < headLen + copied {
        head[k] := chunk[k - headLen];
      }
    }

    /** One received chunk: complete and check the head, then pass the chunk to the flash. UploadOk means carry on. */
    method ProcessChunk(body: Bytes, received: nat, headLen: nat, chunk: Bytes)
        returns (r: Op<UploadResult>, newLen: nat, ghost rest: seq<Received>)
      requires Valid() && consumed == received + |chunk| <= |body| <= flash.otaSize && chunk != []
      requires chunk == body[received..received + |chunk|]
      requires Mirrors(body, received, headLen)
      modifies this`consumed, head, flash`ota, flash`otaWritten, flash`isFaulty
      ensures Valid()
      ensures old(flash.isFaulty) || r.PowerCut? || r == Done(RejectFlash) ==> flash.isFaulty
      ensures r == Done(UploadOk) ==> Mirrors(body, received + |chunk|, newLen) && consumed == old(consumed)
      ensures r.Done? && r.value != UploadOk ==> consumed <= |body| && (consumed == |body| <==> IsLinkHealthy(rest))
      ensures r.Done? && r.value != UploadOk && r.value != RejectFlash ==>
                && r.value == BodyVerdict(body) && received < IMAGE_HEAD_LEN
                && flash.otaWritten == received && flash.ota[..received] == body[..received]
                && (body[0] != IMAGE_MAGIC ==> received == 0)
                && (received + |chunk| >= IMAGE_HEAD_LEN || body[0] != IMAGE_MAGIC)
      ensures r.Done? ==> r.value in {UploadOk, RejectFlash, RejectImage, RejectMetadata, RejectVersion}
    {
      hide CheckEmbeddedMeta;
      newLen, rest := headLen, [];
      if headLen < IMAGE_HEAD_LEN {
        newLen := FillHead(body, received, headLen, chunk);
        if newLen == IMAGE_HEAD_LEN {
          var verdict := HeadVerdict(head[..newLen]);
          if verdict != UploadOk {
            rest := DiscardBody(body);
            return Done(verdict), newLen, rest;
          }
        }
      }
      var written :- flash.WriteOta(chunk);
      if written != WriteOk {
        if written == ValidateFailed {
          WrongFirstByteRejected(body);
        }
        rest := DiscardBody(body);
        return Done(if written == ValidateFailed then RejectImage else RejectFlash), newLen, rest;
      }
      assert body[..received + |chunk|] == body[..received] + chunk;
      return Done(UploadOk), newLen, rest;
    }

    method FillHead(body: Bytes, received: nat, headLen: nat, chunk: Bytes) returns (newLen: nat)
      requires Valid() && received + |chunk| <= |body|
      requires chunk == body[received..received + |chunk|]
      requires headLen == received < IMAGE_HEAD_LEN && head[..headLen] == body[..headLen]
      modifies head
      ensures newLen == if received + |chunk| < IMAGE_HEAD_LEN then received + |chunk| else IMAGE_HEAD_LEN
      ensures head[..newLen] == body[..newLen]
    {
      var copied := CopyHead(chunk, headLen);
      newLen := headLen + copied;
      assert head[..newLen] == head[..headLen] + head[headLen..newLen];
      assert chunk[..copied] == body[received..newLen];
      assert body[..newLen] == body[..headLen] + body[headLen..newLen];
    }

    /**
     * Receives the body in chunks of at most CHUNK_BYTES, checks the head as soon as it is complete and passes every
     * chunk to the flash. The result does not depend on how the body arrives.
     */
    method ReceiveImage(body: Bytes)
      returns (r: Op<UploadResult>, ghost history: seq<Received>, ghost rest: seq<Received>)
      requires Valid() && 0 < |body| <= flash.otaSize && flash.otaWritten == 0 && consumed == 0
      modifies this`receivedBytes, this`consumed, head, flash`ota, flash`otaWritten, flash`isFaulty
      ensures Valid()
      ensures IsChunked(history)
      // whatever the reply, the body has been taken completely unless the link broke
      ensures r.Done? && IsLinkHealthy(history) && IsLinkHealthy(rest) ==> consumed == |body|
      ensures old(flash.isFaulty) || r.PowerCut? ==> flash.isFaulty
      ensures r.Done? ==> (r.value == RejectInterrupted <==> !IsLinkHealthy(history))
      ensures r.Done? && r.value == RejectFlash ==> flash.isFaulty
      ensures r != Done(RejectSize)
      ensures r.Done? && IsLinkHealthy(history) && r.value != RejectFlash ==> r.value == BodyVerdict(body)
      ensures r == Done(UploadOk) ==> IsHeld(body) && receivedBytes == |body|
      // a head rejection has written exactly the chunks before the deciding one, or a whole body too short for a head
      ensures r.Done? && r.value in {RejectImage, RejectMetadata, RejectVersion} ==>
                if |body| == DataLength(history) == flash.otaWritten then |body| < IMAGE_HEAD_LEN
                else DecidesHead(history, body) && flash.otaWritten == DataLength(history[..|history| - 1])
      ensures r.Done? && r.value in {RejectInterrupted, RejectImage, RejectMetadata, RejectVersion} ==>
                flash.otaWritten <= |body| && flash.ota[..flash.otaWritten] == body[..flash.otaWritten]
      ensures r.Done? && r.value in {RejectImage, RejectMetadata, RejectVersion} && body[0] != IMAGE_MAGIC ==>
                flash.otaWritten == 0
    {
      hide CheckEmbeddedMeta;
      hide HeadVerdict; hide BodyVerdict;
      hide TrailingTimeouts;
      hide IsLinkHealthy;
      hide IsChunked;
      hide DataLength;
      hide Mirrors;
      hide IsHeld;
      EmptyHistoryHealthy();
      NothingMirrored(body);
      var headLen: nat, received: nat, timeouts: nat := 0, 0, 0;
      history, rest := [], [];
      while received < |body|
        invariant Valid() && received <= |body|
        invariant Mirrors(body, received, headLen)
        invariant IsLinkHealthy(history) && TrailingTimeouts(history) == timeouts <= RECV_RETRIES
        invariant received > 0 ==> receivedBytes == received
        invariant DataLength(history) == received == consumed && IsChunked(history)
        invariant old(flash.isFaulty) ==> flash.isFaulty
        decreases |body| - received, RECV_RETRIES - timeouts
      {
        var wanted := if |body| - received > CHUNK_BYTES then CHUNK_BYTES else |body| - received;
        var part := Recv(body, wanted);
        HealthyExtends(history, part);
        DataExtends(history, part);
        ChunkedExtends(history, part);
        assert (history + [part])[..|history|] == history;
        history := history + [part];
        if part.Timeout? && timeouts < RECV_RETRIES {
          timeouts := timeouts + 1;
          continue;
        }
        if !part.Data? {
          MirroredPart(body, received, headLen);
          return Done(RejectInterrupted), history, rest;
        }
        timeouts := 0;
        var verdict;
        verdict, headLen, rest := ProcessChunk(body, received, headLen, part.bytes);
        if verdict != Done(UploadOk) {
          return verdict, history, rest;
        }
        received := received + |part.bytes|;
        receivedBytes := received;
      }
      MirroredPart(body, received, headLen);
      MirroredWhole(body, headLen);
      return Done(if headLen < IMAGE_HEAD_LEN then HeadVerdict(head[..headLen]) else UploadOk), history, rest;
    }

    /** Clears a non-zero crash count, keeping the reserved boot-attempts byte. */
    method ClearCrashCount() returns (r: Op<()>)
      requires Valid()
      modifies flash`ctrlSector, flash`isCtrlFaulty
      ensures Valid()
      ensures old(flash.isCtrlFaulty) ==> flash.isCtrlFaulty
      ensures r.PowerCut? ==> flash.isCtrlFaulty
      ensures flash.StoredCount() == old(flash.StoredCount()) || flash.StoredCount() == 0
      ensures !flash.isCtrlFaulty ==> flash.StoredCount() == 0 && flash.StoredAttempts() == old(flash.StoredAttempts())
    {
      var ctrl :- flash.ReadFwCtrlRecord();
      if CrashCount(ctrl) == 0 {
        return Done(());
      }
      BuiltCtrlRecord(0, BootAttempts(ctrl));
      var _ :- flash.WriteFwCtrlRecord(BuildCtrlRecord(0, BootAttempts(ctrl)));
      return Done(());
    }

    // The body is complete in ota_0, and its accepted head is in `head`.
    ghost predicate IsHeld(body: Bytes)
      requires Valid()
      reads flash`ota, flash`otaWritten, head
    {
      && IMAGE_HEAD_LEN <= |body| == flash.otaWritten <= flash.otaSize
      && flash.ota[..|body|] == body && head[..] == body[..IMAGE_HEAD_LEN]
      && HeadVerdict(body[..IMAGE_HEAD_LEN]) == UploadOk
    }

    ghost predicate IsReceived(body: Bytes)
      requires Valid()
      reads flash`ota, flash`otaWritten, head
    {
      IsHeld(body) && flash.isVerified(body)
    }

    // The record that the commit writes describes the received image.
    lemma CommittedRecord(body: Bytes) returns (record: MetaRecord)
      requires Valid() && IsReceived(body)
      ensures record == BuildMetaRecord(EmbeddedVersion(head[..]), |body|, flash.digestOf(flash.ota))
      ensures IsMetaRecordValid(record, flash.otaSize) && !IsForceRequested(record)
      ensures flash.HoldsImage(record) && RecordSize(record) == |body|
      ensures MetaOf(Program(Erased(), 0, record)) == record
    {
      var version := EmbeddedVersion(head[..]);
      record := BuildMetaRecord(version, |body|, flash.digestOf(flash.ota));
      BuiltMetaFields(version, |body|, flash.digestOf(flash.ota));
      BuiltMetaValidity(version, |body|, flash.digestOf(flash.ota), flash.otaSize);
      ProgramErased(record);
      assert flash.ota[..IMAGE_HEAD_LEN] == flash.ota[..|body|][..IMAGE_HEAD_LEN];
      assert EmbeddedVersion(flash.ota) == EmbeddedVersion(flash.ota[..IMAGE_HEAD_LEN]);
    }

    /** Writes the record into the erased sector and checks it; on any doubt the sector is erased again. */
    method CommitMetaRecord(ghost body: Bytes, totalBytes: nat) returns (r: Op<UploadResult>)
      requires Valid() && IsReceived(body) && totalBytes == |body| && flash.metaSector == Erased()
      modifies this`installedVersion, flash`metaSector, flash`ctrlSector, flash`isFaulty, flash`isCtrlFaulty,
               flash`hasEraseFailed
      ensures Valid() && flash.CommitSafe()
      ensures r == Done(RejectFlash) && !flash.hasEraseFailed ==> flash.metaSector == Erased()
      ensures r == Done(RejectFlash) ==> installedVersion == old(installedVersion)
      ensures (old(flash.isFaulty) ==> flash.isFaulty) && (old(flash.isCtrlFaulty) ==> flash.isCtrlFaulty)
      ensures r != Done(UploadOk) ==> flash.isFaulty || (r.PowerCut? && flash.isCtrlFaulty)
      ensures r == Done(UploadOk) ==> flash.BootReady() && RecordSize(flash.StoredMeta()) == |body|
      ensures r == Done(UploadOk) ==> installedVersion == RecordVersion(flash.StoredMeta())[..8]
      ensures flash.StoredCount() == old(flash.StoredCount()) || flash.StoredCount() == 0
      ensures !flash.isCtrlFaulty ==> flash.StoredCount() == if r == Done(UploadOk) then 0 else old(flash.StoredCount())
      ensures r.Done? ==> r.value in {UploadOk, RejectFlash}
    {
      hide CheckEmbeddedMeta;
      hide RecordSize;
      ErasedIsInvalid(flash.otaSize);
      ghost var expected := CommittedRecord(body);
      var digest :- flash.ComputeFwImageSha256();
      if !digest.0 {
        return Done(RejectFlash);
      }
      var record := BuildMetaRecord(EmbeddedVersion(head[..]), totalBytes, digest.1);
      assert record == expected;
      var stored :- StoreAndCheck(record);
      if !stored {
        var _ :- flash.EraseFwMetaRecord();
        return Done(RejectFlash);
      }
      installedVersion := RecordVersion(record)[..8];
      var _ :- ClearCrashCount();
      return Done(UploadOk);
    }

    method StoreAndCheck(record: MetaRecord) returns (r: Op<bool>)
      requires Valid() && flash.metaSector == Erased()
      modifies flash`metaSector, flash`isFaulty
      ensures Valid()
      ensures CutMeta(Erased(), Program(Erased(), 0, record), flash.metaSector, flash.otaSize)
      ensures old(flash.isFaulty) ==> flash.isFaulty
      ensures r != Done(true) && IsMetaRecordValid(record, flash.otaSize) ==> flash.isFaulty
      ensures r == Done(true) ==> flash.StoredMeta() == record && flash.HasValidRecord()
    {
      ProgramErased(record);
      var written :- flash.WriteFwMetaRecord(record);
      if !written {
        return Done(false);
      }
      var readBack :- flash.ReadFwMetaRecord();
      return Done(readBack.0 && IsMetaRecordValid(readBack.1, flash.otaSize) && readBack.1 == record);
    }

    /** Invalidate the record, then open the OTA partition. A failed erase leaves the old record and the old image. */
    method PrepareFlash() returns (r: Op<bool>)
      requires Valid() && flash.CommitSafe()
      modifies this`installedVersion, flash`metaSector, flash`ota, flash`otaWritten, flash`openHandles, flash`isFaulty,
               flash`hasEraseFailed
      ensures Valid() && flash.CommitSafe()
      ensures old(flash.isFaulty) || r != Done(true) ==> flash.isFaulty
      ensures r == Done(true) ==> flash.metaSector == Erased() && flash.otaWritten == 0 && installedVersion == []
      ensures flash.openHandles == old(flash.openHandles) + if r == Done(true) then 1 else 0
      ensures r.Done? && !flash.hasEraseFailed ==> flash.metaSector == Erased() && installedVersion == []
    {
      ErasedIsInvalid(flash.otaSize);
      var erased :- flash.EraseFwMetaRecord();
      if !erased {
        return Done(false);
      }
      installedVersion := [];
      r := flash.BeginOta();
    }

    /**
     * Erase the record, stream the image, verify it, commit. `isOtaOpen` tells whether the OTA handle must be aborted.
     */
    method RunUpload(body: Bytes) returns (r: Op<UploadResult>, isOtaOpen: bool, ghost history: seq<Received>)
      requires Valid() && flash.CommitSafe() && consumed == 0
      modifies this`receivedBytes, this`consumed, this`installedVersion, head, flash`openHandles, flash`hasEraseFailed,
               flash`metaSector, flash`ctrlSector, flash`ota, flash`otaWritten, flash`isFaulty, flash`isCtrlFaulty
      ensures Valid() && flash.CommitSafe()
      ensures r.Done? ==> flash.openHandles == old(flash.openHandles) + if isOtaOpen then 1 else 0
      ensures r == Done(UploadOk) ==> !isOtaOpen
      ensures r.Done? && !flash.isFaulty ==>
                if IsLinkHealthy(history) then r.value == UploadVerdict(body, flash.otaSize, flash.isVerified)
                else r.value == RejectInterrupted
      ensures r == Done(RejectSize) ==>
                flash.metaSector == old(flash.metaSector) && installedVersion == old(installedVersion)
      ensures r.Done? && r.value !in {UploadOk, RejectSize} && !flash.hasEraseFailed ==>
                flash.metaSector == Erased() && installedVersion == []
      ensures (old(flash.isFaulty) ==> flash.isFaulty) && (old(flash.isCtrlFaulty) ==> flash.isCtrlFaulty)
      ensures r.PowerCut? ==> flash.isFaulty || flash.isCtrlFaulty
      ensures r == Done(UploadOk) ==> && flash.BootReady() && RecordSize(flash.StoredMeta()) == |body|
                                      && flash.ota[..|body|] == body && receivedBytes == |body|
                                      && installedVersion == RecordVersion(flash.StoredMeta())[..8]
      ensures flash.StoredCount() == old(flash.StoredCount()) || (flash.StoredCount() == 0 && r != Done(RejectSize))
      ensures !flash.isCtrlFaulty ==> flash.StoredCount() == if r == Done(UploadOk) then 0 else old(flash.StoredCount())
      ensures r == Done(RejectSize) <==> |body| == 0 || |body| > flash.otaSize
    {
      hide CheckEmbeddedMeta;
      hide IsMetaRecordValid;
      hide RecordSize;
      hide RecordVersion; hide StoredCrashCount; hide IsForceRequested; hide DataLength; hide DecidesHead;
      hide IsLinkHealthy;
      hide BodyVerdict; hide Describes;
      EmptyHistoryHealthy();
      ErasedIsInvalid(flash.otaSize);
      isOtaOpen, history := false, [];
      if |body| == 0 || |body| > flash.otaSize {
        return Done(RejectSize), false, history;
      }
      var prepared := PrepareFlash();
      if prepared != Done(true) {
        return if prepared.PowerCut? then PowerCut else Done(RejectFlash), false, history;
      }
      isOtaOpen := true;
      var received;
      ghost var rest;
      received, history, rest := ReceiveImage(body);
      if received != Done(UploadOk) {
        return received, true, history;
      }
      isOtaOpen := false;
      r := FinishUpload(body);
    }

    /** esp_ota_end(), then the commit. */
    method FinishUpload(ghost body: Bytes) returns (r: Op<UploadResult>)
      requires Valid() && IsHeld(body) && flash.metaSector == Erased() && flash.openHandles > 0
      modifies this`installedVersion, flash`openHandles, flash`metaSector, flash`ctrlSector, flash`isFaulty,
               flash`isCtrlFaulty, flash`hasEraseFailed
      ensures Valid() && flash.CommitSafe()
      ensures flash.openHandles == old(flash.openHandles) - 1
      ensures r.Done? && !flash.isFaulty ==> r.value == if flash.isVerified(body) then UploadOk else RejectVerify
      ensures r.Done? && r.value != UploadOk && !flash.hasEraseFailed ==>
                flash.metaSector == Erased() && installedVersion == old(installedVersion)
      ensures (old(flash.isFaulty) ==> flash.isFaulty) && (old(flash.isCtrlFaulty) ==> flash.isCtrlFaulty)
      ensures r.PowerCut? ==> flash.isFaulty || flash.isCtrlFaulty
      ensures r == Done(UploadOk) ==> flash.BootReady() && RecordSize(flash.StoredMeta()) == |body|
      ensures r == Done(UploadOk) ==> installedVersion == RecordVersion(flash.StoredMeta())[..8]
      ensures flash.StoredCount() == old(flash.StoredCount()) || flash.StoredCount() == 0
      ensures !flash.isCtrlFaulty ==> flash.StoredCount() == if r == Done(UploadOk) then 0 else old(flash.StoredCount())
      ensures r != Done(RejectSize)
    {
      ErasedIsInvalid(flash.otaSize);
      var ended :- flash.EndOta();
      if !ended {
        return Done(RejectVerify);
      }
      r := CommitMetaRecord(body, flash.otaWritten);
    }

    lemma InstalledFromBody(body: Bytes)
      requires Valid() && flash.BootReady() && RecordSize(flash.StoredMeta()) == |body| && flash.ota[..|body|] == body
      ensures |body| >= 304 && RecordVersion(flash.StoredMeta())[..8] == body[292..300]
    {
      hide CheckEmbeddedMeta; hide IsMetaRecordValid; hide RecordSize;
      assert |body| >= 304;
      assert flash.ota[292..301][..8] == flash.ota[292..300] == flash.ota[..|body|][292..300];
    }

    /** Runs one claimed upload and settles the state; the value returned is the reply sent. */
    method ProcessUpload(body: Bytes) returns (r: Op<UploadResult>, ghost history: seq<Received>)
      requires Valid() && flash.CommitSafe() && state == Uploading
      modifies this`state, this`receivedBytes, this`totalBytes, this`consumed, this`installedVersion, head,
               flash`openHandles, flash`hasEraseFailed,
               flash`metaSector, flash`ctrlSector, flash`ota, flash`otaWritten, flash`isFaulty, flash`isCtrlFaulty
      ensures Valid() && flash.CommitSafe()
      // no handle is left open, and an undisturbed upload is answered by its body alone
      ensures r.Done? ==> flash.openHandles == old(flash.openHandles)
      ensures r.Done? && !flash.isFaulty ==>
                if IsLinkHealthy(history) then r.value == UploadVerdict(body, flash.otaSize, flash.isVerified)
                else r.value == RejectInterrupted
      ensures r == Done(RejectSize) ==>
                flash.metaSector == old(flash.metaSector) && installedVersion == old(installedVersion)
      ensures r.Done? && r.value !in {UploadOk, RejectSize} && !flash.hasEraseFailed ==>
                flash.metaSector == Erased() && installedVersion == []
      ensures (old(flash.isFaulty) ==> flash.isFaulty) && (old(flash.isCtrlFaulty) ==> flash.isCtrlFaulty)
      ensures r.PowerCut? ==> flash.isFaulty || flash.isCtrlFaulty
      ensures r.Done? ==> state == if r.value == UploadOk then Finished else Error
      ensures r == Done(UploadOk) ==> && flash.BootReady() && RecordSize(flash.StoredMeta()) == |body|
                                      && flash.ota[..|body|] == body && receivedBytes == |body|
                                      && installedVersion == RecordVersion(flash.StoredMeta())[..8]
                                      && |body| >= 304 && installedVersion == body[292..300]
      ensures totalBytes == |body|
      ensures flash.StoredCount() == old(flash.StoredCount()) || flash.StoredCount() == 0
      ensures !flash.isCtrlFaulty ==> flash.StoredCount() == if r == Done(UploadOk) then 0 else old(flash.StoredCount())
    {
      hide CheckEmbeddedMeta; hide IsMetaRecordValid; hide RecordSize; hide RecordVersion; hide StoredCrashCount;
      hide UploadVerdict; hide IsLinkHealthy;
      receivedBytes, totalBytes, consumed := 0, |body|, 0;
      var result, isOtaOpen;
      result, isOtaOpen, history := RunUpload(body);
      if result.PowerCut? {
        return PowerCut, history;
      }
      if result != Done(UploadOk) {
        if isOtaOpen {
          flash.AbortOta();
        }
        state := Error;
      } else {
        state := Finished;
        InstalledFromBody(body);
      }
      return result, history;
    }
  }
}
