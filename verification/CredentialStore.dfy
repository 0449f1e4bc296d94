/**
 * Transactional credential storage of main/credential_store/credential_store.c over NVS with atomic single-key writes.
 */
module CredentialStore {
  import opened PowerLoss

  const SSID_MAX := 32
  const PASSWORD_MAX := 64
  const SSID_BYTES := 33
  const BLOB_BYTES := 98

  type Byte = b: int | 0 <= b < 256
  type Blob = seq<Byte>

  datatype Option<+T> = None | Some(value: T)

  /** Two fixed character arrays; a string ends at its first zero byte. */
  datatype Fields = Fields(ssid: seq<Byte>, password: seq<Byte>)

  predicate HasFieldSizes(c: Fields) { |c.ssid| == SSID_BYTES && |c.password| == BLOB_BYTES - SSID_BYTES }

  type Credentials = c: Fields | HasFieldSizes(c) witness Fields(seq(33, _ => 0), seq(65, _ => 0))

  function ToBlob(c: Credentials): Blob { c.ssid + c.password }

  function FromBlob(b: Blob): Credentials
    requires |b| == BLOB_BYTES
  {
    Fields(b[..SSID_BYTES], b[SSID_BYTES..])
  }

  lemma BlobRoundTrip(c: Credentials)
    ensures |ToBlob(c)| == BLOB_BYTES && FromBlob(ToBlob(c)) == c
  {
  }

  // Validity.

  /** strnlen() over the whole field. */
  function Length(s: seq<Byte>): (n: nat)
    ensures n <= |s| && (n < |s| ==> s[n] == 0) && forall k :: 0 <= k < n ==> s[k] != 0
  {
    if s == [] || s[0] == 0 then 0 else 1 + Length(s[1..])
  }

  predicate IsPrintable(b: Byte) { 0x20 <= b <= 0x7E }

  predicate IsHexDigit(b: Byte) { b as char in "0123456789abcdefABCDEF" }

  lemma HexDigitRanges(b: Byte)
    ensures IsHexDigit(b) <==> 0x30 <= b <= 0x39 || 0x61 <= b <= 0x66 || 0x41 <= b <= 0x46
  {
    var digits := "0123456789abcdefABCDEF";
    assert 0x30 <= b <= 0x39 ==> digits[b - 0x30] == b as char;
    assert 0x61 <= b <= 0x66 ==> digits[b - 0x61 + 10] == b as char;
    assert 0x41 <= b <= 0x46 ==> digits[b - 0x41 + 16] == b as char;
  }

  lemma CharacterKinds(b: Byte)
    ensures IsPrintable(b) <==> 0x20 <= b <= 0x7E
    ensures IsHexDigit(b) ==> IsPrintable(b)
  {
    HexDigitRanges(b);
  }

  /** Empty, 8 to 63 printable characters, or exactly 64 hexadecimal digits. */
  predicate IsPasswordAcceptable(password: seq<Byte>) {
    var n := Length(password);
    || n == 0
    || (8 <= n <= 63 && forall k :: 0 <= k < n ==> IsPrintable(password[k]))
    || (n == 64 && forall k :: 0 <= k < n ==> IsHexDigit(password[k]))
  }

  predicate AreAcceptable(c: Credentials) {
    1 <= Length(c.ssid) <= 32 && IsPasswordAcceptable(c.password)
  }

  method IsPasswordValid(password: seq<Byte>) returns (valid: bool)
    ensures valid == IsPasswordAcceptable(password)
  {
    var length := Length(password);
    if length == 0 {
      return true;
    }
    if length > PASSWORD_MAX {
      return false;
    }
    var isPrintable, isHex := ScanPassword(password, length);
    if !isPrintable {
      return false;
    }
    if length == PASSWORD_MAX {
      return isHex;
    }
    return length >= 8 && length <= 63;
  }

  /** The loop over the characters; it stops at the first one that is not printable. */
  method ScanPassword(password: seq<Byte>, length: nat) returns (isPrintable: bool, isHex: bool)
    requires 0 < length <= |password|
    ensures isPrintable <==> forall k :: 0 <= k < length ==> IsPrintable(password[k])
    ensures isPrintable ==>
              (isHex <==> length == PASSWORD_MAX && forall k :: 0 <= k < length ==> IsHexDigit(password[k]))
    ensures !isPrintable ==> exists k :: 0 <= k < length && !IsHexDigit(password[k])
  {
    hide IsHexDigit; hide IsPrintable;
    isHex := length == PASSWORD_MAX;
    for index := 0 to length
      invariant forall k :: 0 <= k < index ==> IsPrintable(password[k])
      invariant isHex <==> length == PASSWORD_MAX && forall k :: 0 <= k < index ==> IsHexDigit(password[k])
    {
      var character := password[index];
      CharacterKinds(character);
      HexDigitRanges(character);
      if character < 0x20 || character > 0x7E {
        return false, false;
      }
      var isHexDigit := (character >= 0x30 && character <= 0x39)
          || (character >= 0x61 && character <= 0x66)
          || (character >= 0x41 && character <= 0x46);
      isHex := isHex && isHexDigit;
    }
    return true, isHex;
  }

  method IsCredentialsValid(c: Credentials) returns (valid: bool)
    ensures valid == AreAcceptable(c)
  {
    var ssidLength := Length(c.ssid);
    if ssidLength == 0 || ssidLength > SSID_MAX {
      return false;
    }
    valid := IsPasswordValid(c.password);
  }

  // The store.

  datatype Key = ActiveKey | PendingKey

  datatype Read = NotFound | ReadError | Found(blob: Blob)

  type Records = map<Key, Blob>

  /** A complete, valid record under `key`. */
  function Pair(records: Records, key: Key): Option<Credentials> {
    if key in records && |records[key]| == BLOB_BYTES && AreAcceptable(FromBlob(records[key]))
    then Some(FromBlob(records[key])) else None
  }

  /** What a start will end up with: the pending pair if complete and valid, else the active one. */
  function Recoverable(records: Records): Option<Credentials> {
    if Pair(records, PendingKey).Some? then Pair(records, PendingKey) else Pair(records, ActiveKey)
  }

  /** What nvs_get_blob() reports for a buffer of one record: a longer blob is an error, a shorter one is returned. */
  function Lookup(records: Records, key: Key): Read {
    if key !in records then NotFound else if |records[key]| > BLOB_BYTES then ReadError else Found(records[key])
  }

  lemma PairErased(records: Records, key: Key)
    ensures forall other :: other != key ==> Pair(records - {key}, other) == Pair(records, other)
    ensures Pair(records - {key}, key) == None
  {
  }

  lemma PairStored(records: Records, key: Key, c: Credentials)
    requires AreAcceptable(c)
    ensures Pair(records[key := ToBlob(c)], key) == Some(c)
    ensures forall other :: other != key ==> Pair(records[key := ToBlob(c)], other) == Pair(records, other)
  {
    BlobRoundTrip(c);
  }

  // What NVS answers. A call reports success, reports failure, or is cut; a write or erase that is not reported as done
  // may have taken effect all the same.

  datatype Reply = Success | Failure | Cut

  function Report(r: Reply): Op<bool> {
    match r
    case Success => Done(true)
    case Failure => Done(false)
    case Cut => PowerCut
  }

  datatype Change = Change(isApplied: bool, reply: Reply) {
    predicate TakesEffect() { isApplied || reply == Success }
  }

  /** Answers to one write with its commit and read-back. */
  datatype Checked = Checked(write: Change, commit: Reply, read: Reply)

  datatype ReplaceAnswers =
    ReplaceAnswers(open: Reply, pending: Checked, active: Checked, erase: Change, commit: Reply)

  datatype RecoverAnswers =
    RecoverAnswers(open: Reply, read: Reply, active: Checked, erase: Change, commit: Reply)

  datatype InitAnswers = InitAnswers(isReady: bool, recover: RecoverAnswers)

  datatype LoadAnswers = LoadAnswers(open: Reply, read: Reply)

  /** The reply of a sequence of calls that stops at the first one that is not done. */
  function Then(first: Reply, second: Reply): Reply {
    if first == Success then second else first
  }

  function CheckedReply(a: Checked): Reply {
    Then(a.write.reply, Then(a.commit, a.read))
  }

  function Written(records: Records, key: Key, c: Credentials, a: Checked): Records {
    if a.write.TakesEffect() then records[key := ToBlob(c)] else records
  }

  function Erased(records: Records, key: Key, a: Change): Records {
    if a.TakesEffect() then records - {key} else records
  }

  // What a replacement does, given the answers.

  /**
   * Replacing an acceptable pair reports success exactly if both records were written and checked, and no cut came
   * after.
   */
  function ReplaceReply(a: ReplaceAnswers): Reply {
    var stored := Then(a.open, Then(CheckedReply(a.pending), CheckedReply(a.active)));
    if stored == Success && (a.erase.reply.Cut? || a.commit.Cut?) then Cut else stored
  }

  /** The records a replacement of an acceptable pair leaves. */
  function Replaced(records: Records, c: Credentials, a: ReplaceAnswers): Records {
    if a.open != Success then records
    else
      var one := Written(records, PendingKey, c, a.pending);
      if CheckedReply(a.pending) != Success then one
      else
        var two := Written(one, ActiveKey, c, a.active);
        if CheckedReply(a.active) != Success then two else Erased(two, PendingKey, a.erase)
  }

  /** Whatever NVS answers, the recoverable pair is the old one or the new one, and the new one after success. */
  lemma ReplaceIsAtomic(records: Records, c: Credentials, a: ReplaceAnswers)
    requires AreAcceptable(c)
    ensures Recoverable(Replaced(records, c, a)) in {Recoverable(records), Some(c)}
    ensures ReplaceReply(a) == Success ==>
              Recoverable(Replaced(records, c, a)) == Pair(Replaced(records, c, a), ActiveKey) == Some(c)
  {
    hide AreAcceptable; hide HasFieldSizes;
    var one := Written(records, PendingKey, c, a.pending);
    var two := Written(one, ActiveKey, c, a.active);
    PairStored(records, PendingKey, c);
    PairStored(one, ActiveKey, c);
    PairErased(two, PendingKey);
  }

  /**
   * When a failed replacement keeps the active pair. It does if it failed before the write of the active record, that
   * is opening the namespace or storing the pending record; after that, exactly if this write took no effect or wrote
   * what was there. So a replacement whose active write was reported as done, but then failed, has changed any other
   * pair.
   */
  lemma FailedKeepsActiveIff(records: Records, c: Credentials, a: ReplaceAnswers)
    requires AreAcceptable(c) && ReplaceReply(a) == Failure
    ensures var isKept := Pair(Replaced(records, c, a), ActiveKey) == Pair(records, ActiveKey);
      if a.open != Success || CheckedReply(a.pending) != Success then isKept
      else isKept <==> !a.active.write.TakesEffect() || Pair(records, ActiveKey) == Some(c)
  {
    hide AreAcceptable; hide HasFieldSizes;
    PairStored(records, PendingKey, c);
    PairStored(Written(records, PendingKey, c, a.pending), ActiveKey, c);
  }

  const ALL_DONE: Checked := Checked(Change(true, Success), Success, Success)

  /** The commit after the write of the active record fails: the replacement fails, and the active pair has changed. */
  lemma FailedMayChangeActive(records: Records, c: Credentials) returns (a: ReplaceAnswers)
    requires AreAcceptable(c) && Pair(records, ActiveKey) != Some(c)
    ensures ReplaceReply(a) == Failure && Pair(Replaced(records, c, a), ActiveKey) == Some(c)
  {
    a := ReplaceAnswers(Success, ALL_DONE, ALL_DONE.(commit := Failure), ALL_DONE.write, Success);
    PairStored(records, PendingKey, c);
    PairStored(records[PendingKey := ToBlob(c)], ActiveKey, c);
  }

  // What boot recovery does, given the answers.

  /** nvs_get_blob(): an answered read reports the record, any other an error. */
  function Answered(records: Records, key: Key, read: Reply): Read {
    if read == Success then Lookup(records, key) else ReadError
  }

  /** The record that was read is a complete, valid pair. */
  predicate IsComplete(read: Read) {
    read.Found? && |read.blob| == BLOB_BYTES && AreAcceptable(FromBlob(read.blob))
  }

  predicate HasCut(a: RecoverAnswers) {
    a.open.Cut? || a.read.Cut? || CheckedReply(a.active).Cut? || a.erase.reply.Cut? || a.commit.Cut?
  }

  function Recovered(records: Records, a: RecoverAnswers): Records {
    if a.open != Success || a.read.Cut? then records
    else
      var pending := Answered(records, PendingKey, a.read);
      if pending.NotFound? then records
      else if IsComplete(pending) then
        var one := Written(records, ActiveKey, FromBlob(pending.blob), a.active);
        if CheckedReply(a.active) == Success then Erased(one, PendingKey, a.erase) else one
      else Erased(records, PendingKey, a.erase)
  }

  /** Recovery throws away a complete pending pair: it could not be read, and its erase took effect. */
  predicate LosesPending(records: Records, a: RecoverAnswers) {
    && a.open == Success && a.read == Failure && a.erase.TakesEffect()
    && Pair(records, PendingKey).Some? && Pair(records, PendingKey) != Pair(records, ActiveKey)
  }

  /**
   * Boot recovery, cut anywhere, changes the recoverable pair if and only if the read of a complete pending pair other
   * than the active one fails and its erase takes effect; the active pair is then what is left.
   */
  lemma RecoveryChangesIff(records: Records, a: RecoverAnswers)
    ensures Recoverable(Recovered(records, a)) != Recoverable(records) <==> LosesPending(records, a)
    ensures LosesPending(records, a) ==> Recoverable(Recovered(records, a)) == Pair(records, ActiveKey)
  {
    hide AreAcceptable; hide HasFieldSizes;
    PairErased(records, PendingKey);
    if Pair(records, PendingKey).Some? && a.read == Success {
      var c := Pair(records, PendingKey).value;
      var one := Written(records, ActiveKey, c, a.active);
      PairStored(records, ActiveKey, c);
      PairErased(one, PendingKey);
      BlobRoundTrip(c);
      assert IsComplete(Answered(records, PendingKey, a.read));
      assert Pair(one, PendingKey) == Some(c) == Recoverable(records);
      assert CheckedReply(a.active) == Success ==> Pair(one, ActiveKey) == Some(c);
    }
  }

  /** The read of the pending record fails once and the erase works: a start then loses the new pair. */
  lemma RecoveryMayLosePending(previous: Credentials, newer: Credentials) returns (records: Records, a: RecoverAnswers)
    requires AreAcceptable(previous) && AreAcceptable(newer) && previous != newer
    ensures Recoverable(records) == Some(newer) && Recoverable(Recovered(records, a)) == Some(previous)
  {
    records := map[ActiveKey := ToBlob(previous), PendingKey := ToBlob(newer)];
    a := RecoverAnswers(Success, Failure, ALL_DONE, ALL_DONE.write, Success);
    BlobRoundTrip(previous);
    BlobRoundTrip(newer);
    RecoveryChangesIff(records, a);
  }

  /** Undisturbed, recovery leaves no pending record and the recoverable pair active. */
  lemma UndisturbedRecovery(records: Records, a: RecoverAnswers)
    requires a.open == a.read == a.erase.reply == CheckedReply(a.active) == Success
    ensures var after := Recovered(records, a);
      PendingKey !in after && Pair(after, ActiveKey) == Recoverable(records)
  {
    hide AreAcceptable; hide HasFieldSizes;
    PairErased(records, PendingKey);
    if Pair(records, PendingKey).Some? {
      var c := Pair(records, PendingKey).value;
      PairStored(records, ActiveKey, c);
      PairErased(Written(records, ActiveKey, c, a.active), PendingKey);
    }
  }

  /** One start of the store. */
  function Started(records: Records, a: InitAnswers): Records {
    if a.isReady then Recovered(records, a.recover) else records
  }

  function StartedRepeatedly(records: Records, starts: seq<InitAnswers>): Records {
    if starts == [] then records
    else Started(StartedRepeatedly(records, starts[..|starts| - 1]), starts[|starts| - 1])
  }

  /** Any number of starts, each cut anywhere: with no failed read of the pending record the recoverable pair stays. */
  lemma {:induction false} StartsKeepPair(records: Records, starts: seq<InitAnswers>)
    requires forall a <- starts :: a.recover.read != Failure
    ensures Recoverable(StartedRepeatedly(records, starts)) == Recoverable(records)
  {
    hide Recovered; hide Recoverable;
    if starts != [] {
      var init, last := starts[..|starts| - 1], starts[|starts| - 1];
      StartsKeepPair(records, init);
      RecoveryChangesIff(StartedRepeatedly(records, init), last.recover);
    }
  }

  class Store {
    var records: Records
    var isReady: bool

    /** An empty partition. */
    constructor ()
      ensures records == map[] && !isReady
    {
      records, isReady := map[], false;
    }

    function RecoverablePair(): Option<Credentials>
      reads this
    {
      Recoverable(records)
    }

    function ActivePair(): Option<Credentials>
      reads this
    {
      Pair(records, ActiveKey)
    }

    // NVS calls.

    method SetBlob(key: Key, blob: Blob, a: Change) returns (r: Op<bool>)
      modifies this`records
      ensures records == if a.TakesEffect() then old(records)[key := blob] else old(records)
      ensures r == Report(a.reply)
    {
      if a.TakesEffect() {
        records := records[key := blob];
      }
      r := Report(a.reply);
    }

    method EraseKey(key: Key, a: Change) returns (r: Op<bool>)
      modifies this`records
      ensures records == Erased(old(records), key, a) && r == Report(a.reply)
    {
      if a.TakesEffect() {
        records := records - {key};
      }
      r := Report(a.reply);
    }

    method GetBlob(key: Key, a: Reply) returns (r: Op<Read>)
      ensures r == if a.Cut? then PowerCut else Done(Answered(records, key, a))
    {
      if a.Cut? {
        return PowerCut;
      }
      return Done(if a.Success? then Lookup(records, key) else ReadError);
    }

    /** Write one record, commit it, and read it back for comparison. */
    method WriteAndVerifyRecord(key: Key, c: Credentials, a: Checked) returns (r: Op<bool>)
      modifies this`records
      ensures records == Written(old(records), key, c, a) && r == Report(CheckedReply(a))
    {
      BlobRoundTrip(c);
      var isSet :- SetBlob(key, ToBlob(c), a.write);
      if !isSet {
        return Done(false);
      }
      var isCommitted :- Report(a.commit);
      if !isCommitted {
        return Done(false);
      }
      var readBack :- GetBlob(key, a.read);
      assert Lookup(records, key) == Found(ToBlob(c));
      return Done(readBack == Found(ToBlob(c)));
    }

    /**
     * Replace the pair: pending first, then active, then drop pending. What it leaves and reports is a function of what
     * NVS answers; see ReplaceIsAtomic and FailedKeepsActiveIff.
     */
    method ReplaceCredentials(c: Credentials, a: ReplaceAnswers) returns (r: Op<bool>)
      modifies this`records
      ensures isReady && AreAcceptable(c) ==> records == Replaced(old(records), c, a) && r == Report(ReplaceReply(a))
      ensures !(isReady && AreAcceptable(c)) ==> records == old(records) && r == Done(false)
      ensures RecoverablePair() in {old(RecoverablePair()), Some(c)}
      ensures r == Done(true) ==> RecoverablePair() == ActivePair() == Some(c)
    {
      var isValid := IsCredentialsValid(c);
      if !isReady || !isValid {
        return Done(false);
      }
      ReplaceIsAtomic(records, c, a);
      var isOpen :- Report(a.open);
      if !isOpen {
        return Done(false);
      }
      var isPending := WriteAndVerifyRecord(PendingKey, c, a.pending);
      if isPending != Done(true) {
        return isPending;
      }
      var isActive := WriteAndVerifyRecord(ActiveKey, c, a.active);
      if isActive != Done(true) {
        return isActive;
      }
      var _ :- EraseKey(PendingKey, a.erase);
      var _ :- Report(a.commit);
      return Done(true);
    }

    /** The recovery rule for a leftover pending record. */
    method RecoverPendingRecord(a: RecoverAnswers) returns (r: Op<()>)
      modifies this`records
      ensures records == Recovered(old(records), a)
      ensures RecoverablePair() != old(RecoverablePair()) <==> LosesPending(old(records), a)
      ensures !HasCut(a) ==> r == Done(())
    {
      RecoveryChangesIff(records, a);
      var isOpen :- Report(a.open);
      if !isOpen {
        return Done(());
      }
      var pending :- GetBlob(PendingKey, a.read);
      if pending.NotFound? {
        return Done(());
      }
      if pending.Found? && |pending.blob| == BLOB_BYTES {
        var c := FromBlob(pending.blob);
        var isValid := IsCredentialsValid(c);
        if isValid {
          var isActive :- WriteAndVerifyRecord(ActiveKey, c, a.active);
          if isActive {
            var _ :- EraseKey(PendingKey, a.erase);
            var _ :- Report(a.commit);
          }
          return Done(());
        }
      }
      var _ :- EraseKey(PendingKey, a.erase);
      var _ :- Report(a.commit);
      return Done(());
    }

    method InitCredentialStore(a: InitAnswers) returns (r: Op<bool>)
      modifies this
      ensures records == Started(old(records), a) && isReady == a.isReady
      ensures r.Done? ==> r.value == isReady
      ensures !HasCut(a.recover) ==> r.Done?
    {
      isReady := a.isReady;
      if !isReady {
        return Done(false);
      }
      var _ :- RecoverPendingRecord(a.recover);
      return Done(true);
    }

    method LoadCredentials(a: LoadAnswers) returns (r: Op<Option<Credentials>>)
      ensures !isReady ==> r == Done(None)
      ensures isReady ==>
                r == if Then(a.open, a.read).Cut? then PowerCut
                     else Done(if Then(a.open, a.read).Success? then ActivePair() else None)
    {
      if !isReady {
        return Done(None);
      }
      var isOpen :- Report(a.open);
      if !isOpen {
        return Done(None);
      }
      var read :- GetBlob(ActiveKey, a.read);
      if !read.Found? || |read.blob| != BLOB_BYTES {
        return Done(None);
      }
      var isValid := IsCredentialsValid(FromBlob(read.blob));
      return Done(if isValid then Some(FromBlob(read.blob)) else None);
    }

    /** Any number of starts, each cut anywhere in its recovery. */
    method StartRepeatedly(starts: seq<InitAnswers>)
      modifies this
      ensures records == StartedRepeatedly(old(records), starts)
      ensures (forall a <- starts :: a.recover.read != Failure) ==> RecoverablePair() == old(RecoverablePair())
    {
      for i := 0 to |starts|
        invariant records == StartedRepeatedly(old(records), starts[..i])
      {
        assert starts[..i + 1][..i] == starts[..i];
        var _ := InitCredentialStore(starts[i]);
      }
      assert starts[..|starts|] == starts;
      if forall a <- starts :: a.recover.read != Failure {
        StartsKeepPair(old(records), starts);
      }
    }
  }
}
