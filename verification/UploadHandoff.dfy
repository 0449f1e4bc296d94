/**
 * The claim and hand-off protocol between the HTTP server task and the upload worker of updater/main/updater_http.c, as
 * a state machine. One event is one section run under the state mutex, one queue operation or one call that touches
 * flash, so the two tasks interleave at every point where they share something. A run covers one start of the updater.
 */
module UploadHandoff {
  import opened FwMeta
  import opened UpdaterHttp

  /** A POST /update: its arrival number and content length. */
  datatype Upload = Upload(id: nat, len: nat)

  datatype ServerPc =
    | Waiting
    | Claimed(u: Upload)
    | Begun(u: Upload)
    | Unsent(u: Upload)
    | Unanswered(u: Upload)
    | Quoting(version: string, hides: nat, shows: nat)   // a status reply in the making

  datatype Phase =
    | Fetched
    | Starting
    | Hiding
    | Opening
    | Receiving(got: nat)
    | Written(got: nat)
    | Storing
    | Showing
    | Clearing
    | Failed(isOpen: bool)
    | Succeeded
    | Replying

  datatype WorkerPc = Free | Busy(u: Upload, phase: Phase)

  /** A reply to GET /status; `hides` and `shows` count the changes of the version before it was read. */
  datatype Status = Status(state: UploadState, received: nat, total: nat, version: string, hides: nat, shows: nat)

  /**
   * `capacity` is the size of ota_0, 0 without that partition; `queue` is the one-item queue; `handles` are the uploads
   * whose OTA handle is open; `flash` names the upload behind each flash operation; `begun` and `completed` are the
   * asynchronous requests begun and completed so far. `hides` and `shows` count how often the installed version was
   * cleared and set, and `hidden` is the version that was cleared last.
   */
  datatype State = State(capacity: nat, state: UploadState, received: nat, total: nat, installed: string,
                         server: ServerPc, queue: seq<Upload>, worker: WorkerPc, nextId: nat,
                         handles: set<nat>, flash: seq<nat>, begun: set<nat>, completed: seq<nat>, replies: seq<Status>,
                         hides: nat, shows: nat, hidden: string)

  datatype Event =
    // HTTP server task
    | Post(len: nat) | RefuseSize | BeginFails | BeginWorks | SendToWorker | SettleUnsent | CompleteUnsent
    | ReadVersion | ReplyStatus
    // upload worker
    | Dequeue | Start | RefuseAgain | EraseRecord(ok: bool) | HideVersion | OpenOta(ok: bool) | WriteChunk(n: nat)
    | BreakOff(isWriting: bool) | CountBytes | CloseOta(ok: bool) | Store(ok: bool, isTouching: bool)
    | ShowVersion(version: string) | ClearCount(isTouching: bool) | Abort | Settle | Complete

  ghost predicate Init(s: State) {
    && s.state == Idle && s.received == s.total == 0 && s.server == Waiting && s.queue == [] && s.worker == Free
    && s.nextId == 0 && s.handles == {} && s.flash == [] && s.begun == {} && s.completed == [] && s.replies == []
    && s.hides == s.shows == 0 && s.hidden == ""
  }

  predicate IsSizeOk(s: State, len: nat) { 0 < len <= s.capacity }

  /** DD.DD.DD, the only form the image check lets through. */
  predicate IsShownVersion(v: string) {
    |v| == 8 && forall k :: 0 <= k < 8 ==> if k == 2 || k == 5 then v[k] == '.' else '0' <= v[k] <= '9'
  }

  predicate IsBusy(s: State) { s.state == Uploading || s.state == Finished }

  predicate IsIn(s: State, p: Phase) { s.worker.Busy? && s.worker.phase == p }

  predicate IsServerEvent(e: Event) {
    e.Post? || e.RefuseSize? || e.BeginFails? || e.BeginWorks? || e.SendToWorker? || e.SettleUnsent?
        || e.CompleteUnsent?
    || e.ReadVersion? || e.ReplyStatus?
  }

  predicate IsServerReady(s: State, e: Event)
    requires IsServerEvent(e)
  {
    match e
    case Post(_) => s.server.Waiting?
    case RefuseSize => s.server.Claimed? && !IsSizeOk(s, s.server.u.len)
    case BeginFails => s.server.Claimed? && IsSizeOk(s, s.server.u.len)
    case BeginWorks => s.server.Claimed? && IsSizeOk(s, s.server.u.len)
    case SendToWorker => s.server.Begun?
    case SettleUnsent => s.server.Unsent?
    case CompleteUnsent => s.server.Unanswered?
    case ReadVersion => s.server.Waiting?
    case ReplyStatus => s.server.Quoting?
  }

  predicate IsWorkerReady(s: State, e: Event)
    requires !IsServerEvent(e)
  {
    match e
    case Dequeue => s.worker.Free? && s.queue != []
    case Start => IsIn(s, Fetched)
    case RefuseAgain => IsIn(s, Starting) && !IsSizeOk(s, s.worker.u.len)
    case EraseRecord(_) => IsIn(s, Starting) && IsSizeOk(s, s.worker.u.len)
    case HideVersion => IsIn(s, Hiding)
    case OpenOta(_) => IsIn(s, Opening)
    case WriteChunk(n) => s.worker.Busy? && s.worker.phase.Receiving? && 0 < n <= CHUNK_BYTES
        && n <= s.worker.u.len - s.worker.phase.got
    case BreakOff(_) => s.worker.Busy? && s.worker.phase.Receiving?   // also a head that is rejected or too short
    case CountBytes => s.worker.Busy? && s.worker.phase.Written?
    case CloseOta(_) => s.worker.Busy? && s.worker.phase == Receiving(s.worker.u.len)
        && s.worker.u.len >= IMAGE_HEAD_LEN
    case Store(ok, isTouching) => IsIn(s, Storing) && (ok ==> isTouching)
    case ShowVersion(version) => IsIn(s, Showing) && IsShownVersion(version)
    case ClearCount(_) => IsIn(s, Clearing)
    case Abort => IsIn(s, Failed(true))
    case Settle => IsIn(s, Failed(false)) || IsIn(s, Succeeded)
    case Complete => IsIn(s, Replying)
  }

  predicate IsReady(s: State, e: Event) {
    if IsServerEvent(e) then IsServerReady(s, e) else IsWorkerReady(s, e)
  }

  function AfterServer(s: State, e: Event): State
    requires IsServerEvent(e) && IsServerReady(s, e)
  {
    match e
    case Post(len) =>
      if IsBusy(s) then s.(nextId := s.nextId + 1)
      else s.(state := Uploading, server := Claimed(Upload(s.nextId, len)), nextId := s.nextId + 1)
    case RefuseSize => s.(state := Error, server := Waiting)
    case BeginFails => s.(state := Error, server := Waiting)
    case BeginWorks => s.(server := Begun(s.server.u), begun := s.begun + {s.server.u.id})
    case SendToWorker =>
      if s.queue == [] then s.(server := Waiting, queue := [s.server.u]) else s.(server := Unsent(s.server.u))
    case SettleUnsent => s.(state := Error, server := Unanswered(s.server.u))
    case CompleteUnsent => s.(server := Waiting, completed := s.completed + [s.server.u.id])
    case ReadVersion => s.(server := Quoting(s.installed, s.hides, s.shows))
    case ReplyStatus =>
      var q := s.server;
      s.(server := Waiting,
         replies := s.replies + [Status(s.state, s.received, s.total, q.version, q.hides, q.shows)])
  }

  /** The worker moves to `phase`; with `isTouching`, through a flash operation. */
  function Go(s: State, phase: Phase, isTouching: bool): State
    requires s.worker.Busy?
  {
    s.(worker := Busy(s.worker.u, phase), flash := if isTouching then s.flash + [s.worker.u.id] else s.flash)
  }

  function AfterWorker(s: State, e: Event): State
    requires !IsServerEvent(e) && IsWorkerReady(s, e)
  {
    match e
    case Dequeue => s.(worker := Busy(s.queue[0], Fetched), queue := s.queue[1..])
    case Start => Go(s, Starting, false).(received := 0, total := s.worker.u.len)
    case RefuseAgain => Go(s, Failed(false), false)
    case EraseRecord(ok) => Go(s, if ok then Hiding else Failed(false), true)
    case HideVersion => Go(s, Opening, false).(installed := "", hides := s.hides + 1, hidden := s.installed)
    case OpenOta(ok) =>
      var t := Go(s, if ok then Receiving(0) else Failed(false), true);
      if ok then t.(handles := s.handles + {s.worker.u.id}) else t
    case WriteChunk(n) => Go(s, Written(s.worker.phase.got + n), true)
    case BreakOff(isWriting) => Go(s, Failed(true), isWriting)
    case CountBytes => Go(s, Receiving(s.worker.phase.got), false).(received := s.worker.phase.got)
    case CloseOta(ok) => Go(s, if ok then Storing else Failed(false), true).(handles := s.handles - {s.worker.u.id})
    case Store(ok, isTouching) => Go(s, if ok then Showing else Failed(false), isTouching)
    case ShowVersion(version) => Go(s, Clearing, false).(installed := version, shows := s.shows + 1)
    case ClearCount(isTouching) => Go(s, Succeeded, isTouching)
    case Abort => Go(s, Failed(false), false).(handles := s.handles - {s.worker.u.id})
    case Settle => Go(s, Replying, false).(state := if s.worker.phase == Succeeded then Finished else Error)
    case Complete => s.(worker := Free, completed := s.completed + [s.worker.u.id])
  }

  function After(s: State, e: Event): State
    requires IsReady(s, e)
  {
    if IsServerEvent(e) then AfterServer(s, e) else AfterWorker(s, e)
  }

  // The invariant.

  /** Uploads between claim and settlement. */
  function Holders(s: State): seq<Upload> {
    (if s.server.Claimed? || s.server.Begun? || s.server.Unsent? then [s.server.u] else [])
    + s.queue
    + (if s.worker.Busy? && s.worker.phase != Replying then [s.worker.u] else [])
  }

  ghost predicate HolderInv(s: State) {
    && |Holders(s)| == (if s.state == Uploading then 1 else 0)
    && !s.server.Unsent? && !s.server.Unanswered?
    && (s.state == Finished ==> s.received == s.total && s.installed != "")
  }

  /** Begun requests not completed yet, oldest first. */
  function Pending(s: State): seq<nat> {
    (if s.worker.Busy? then [s.worker.u.id] else [])
    + (if s.queue != [] then [s.queue[0].id] else [])
    + (if s.server.Begun? then [s.server.u.id] else [])
  }

  ghost predicate IsRising(ids: seq<nat>, bound: nat) {
    && (forall i, j :: 0 <= i < j < |ids| ==> ids[i] < ids[j])
    && (forall i :: 0 <= i < |ids| ==> ids[i] < bound)
  }

  /** Identities below this were given before the claim in progress. */
  function IdBound(s: State): nat {
    if s.server.Claimed? then s.server.u.id else s.nextId
  }

  /** Requests are begun, worked on and completed in their order of arrival, each exactly once. */
  ghost predicate RequestInv(s: State) {
    && IsRising(s.completed + Pending(s), IdBound(s))
    && (s.server.Claimed? ==> s.server.u.id < s.nextId)
    && (forall id :: id in s.begun <==> id in s.completed + Pending(s))
    && (forall u <- Holders(s) :: !s.server.Claimed? ==> IsSizeOk(s, u.len))
  }

  predicate HasHandle(s: State) {
    s.worker.Busy? && (s.worker.phase.Receiving? || s.worker.phase.Written? || s.worker.phase == Failed(true))
  }

  /** What the worker's position says of the OTA handles, the counters and the installed version. */
  ghost predicate WorkerInv(s: State) {
    && s.handles == (if HasHandle(s) then {s.worker.u.id} else {})
    && CounterInv(s)
    && (s.worker.Busy? ==> VersionFits(s, s.worker.phase))
  }

  ghost predicate CounterInv(s: State) {
    && s.received <= s.total
    && (s.worker.Busy? ==> CountersFit(s, s.worker.u.len, s.worker.phase))
    && AreRepliesWithin(s.replies)
  }

  ghost predicate AreRepliesWithin(replies: seq<Status>) {
    forall r <- replies :: r.received <= r.total
  }

  ghost predicate CountersFit(s: State, len: nat, p: Phase) {
    match p
    case Fetched => true
    case Replying => true
    case Failed(_) => s.total == len
    case Receiving(got) => s.received == got <= len == s.total
    case Written(got) => s.received <= got <= len == s.total
    case Storing => s.received == len == s.total
    case Showing => s.received == len == s.total
    case Clearing => s.received == len == s.total
    case Succeeded => s.received == len == s.total
    case _ => s.received == 0 && s.total == len
  }

  ghost predicate VersionFits(s: State, p: Phase) {
    match p
    case Clearing => s.installed != ""
    case Succeeded => s.installed != ""
    case Opening => s.installed == ""
    case Receiving(_) => s.installed == ""
    case Written(_) => s.installed == ""
    case Storing => s.installed == ""
    case Showing => s.installed == ""
    case _ => true
  }

  /** Flash operations of one upload are never mixed with those of another. */
  ghost predicate FlashInv(s: State) {
    && (forall i, j :: 0 <= i < j < |s.flash| ==> s.flash[i] <= s.flash[j])
    && (forall i :: 0 <= i < |s.flash| ==> s.flash[i] in s.completed || (s.worker.Busy? && s.flash[i] == s.worker.u.id))
  }

  /** The version read when the counters were `hides` and `shows`. */
  function VersionAt(s: State, hides: nat, shows: nat): string {
    if hides < s.hides then s.hidden else if shows < s.shows then "" else s.installed
  }

  /** The worker is before the step that clears the version. */
  predicate WillHide(s: State) {
    s.queue != [] || IsIn(s, Fetched) || IsIn(s, Starting) || IsIn(s, Hiding)
  }

  /** The version of the upload at work is shown, or no upload is at work. */
  predicate HasShown(s: State) {
    && s.queue == []
    && (s.worker.Busy? ==> IsIn(s, Clearing) || IsIn(s, Succeeded) || IsIn(s, Replying))
  }

  predicate IsInstalled(s: State) {
    s.state == Finished || IsIn(s, Clearing) || IsIn(s, Succeeded)
  }

  /** What a reply in the making has read, and how far the worker has got since. */
  ghost predicate QuoteInv(s: State, hides: nat, shows: nat, version: string) {
    && hides <= s.hides <= hides + 1 && shows <= s.shows <= shows + 1
    && (hides < s.hides || shows < s.shows ==> !WillHide(s))
    && (shows < s.shows ==> HasShown(s))
    && (IsInstalled(s) && shows == s.shows ==> hides == s.hides)
    && version == VersionAt(s, hides, shows)
  }

  /** A reply that said done stays true of the state, and so does what it says of the version. */
  ghost predicate DoneInv(s: State, r: Status) {
    r.state == Finished ==>
      && s.state == Finished && r.received == r.total
      && r.hides <= s.hides && r.shows <= s.shows && (r.shows == s.shows ==> r.hides == s.hides)
      && r.version == VersionAt(s, r.hides, r.shows)
  }

  ghost predicate HasSaidDone(replies: seq<Status>) {
    exists r <- replies :: r.state == Finished
  }

  ghost predicate ReplyInv(s: State) {
    && (s.server.Quoting? ==> QuoteInv(s, s.server.hides, s.server.shows, s.server.version))
    && (forall r <- s.replies :: DoneInv(s, r))
    && (s.server.Quoting? && HasSaidDone(s.replies) ==> s.server.shows == s.shows)
    && StaysDone(s.replies, s.shows)
  }

  /** After a reply that said done every reply does, and was read after the version was shown. */
  ghost predicate StaysDone(replies: seq<Status>, shows: nat) {
    forall i, j :: 0 <= i < j < |replies| && replies[i].state == Finished ==>
      replies[j].state == Finished && replies[j].shows == shows
  }

  ghost predicate Inv(s: State) {
    HolderInv(s) && RequestInv(s) && WorkerInv(s) && FlashInv(s) && ReplyInv(s)
  }

  lemma InitInv(s: State)
    requires Init(s)
    ensures Inv(s)
  {
  }

  // Preservation, one part and one task at a time.

  lemma HolderServer(s: State, e: Event)
    requires HolderInv(s) && IsServerEvent(e) && IsServerReady(s, e)
    ensures HolderInv(AfterServer(s, e))
  {
  }

  lemma HolderWorker(s: State, e: Event)
    requires HolderInv(s) && WorkerInv(s) && !IsServerEvent(e) && IsWorkerReady(s, e)
    ensures HolderInv(AfterWorker(s, e))
  {
  }

  lemma PendingServer(s: State, e: Event)
    requires HolderInv(s) && IsServerEvent(e) && IsServerReady(s, e)
    ensures var t := AfterServer(s, e);
      && t.completed + Pending(t) == s.completed + Pending(s) + (if e.BeginWorks? then [s.server.u.id] else [])
      && (forall id :: id in t.begun <==> id in s.begun || (e.BeginWorks? && id == s.server.u.id))
  {
    var t := AfterServer(s, e);
    if e.BeginWorks? {
      assert Pending(t) == Pending(s) + [s.server.u.id];
    } else {
      assert Pending(t) == Pending(s);
    }
  }

  lemma SizesServer(s: State, e: Event)
    requires HolderInv(s) && RequestInv(s) && IsServerEvent(e) && IsServerReady(s, e)
    ensures var t := AfterServer(s, e);
      && (forall u <- Holders(t) :: !t.server.Claimed? ==> IsSizeOk(t, u.len))
      && (t.server.Claimed? ==> t.server.u.id < t.nextId)
  {
    hide Pending; hide IsRising;
  }

  lemma BoundServer(s: State, e: Event)
    requires HolderInv(s) && RequestInv(s) && IsServerEvent(e) && IsServerReady(s, e)
    ensures IdBound(s) <= IdBound(AfterServer(s, e))
    ensures e.BeginWorks? ==> s.server.u.id == IdBound(s) < IdBound(AfterServer(s, e))
  {
    hide Pending; hide IsRising; hide Holders;
  }

  lemma RisingExtends(ids: seq<nat>, added: seq<nat>, bound: nat, newBound: nat)
    requires IsRising(ids, bound) && bound <= newBound
    requires added == [] || (added == [bound] && bound < newBound)
    ensures IsRising(ids + added, newBound)
    ensures forall id :: id in ids + added <==> id in ids || (added != [] && id == bound)
  {
  }

  lemma RequestServer(s: State, e: Event)
    requires HolderInv(s) && RequestInv(s) && IsServerEvent(e) && IsServerReady(s, e)
    ensures RequestInv(AfterServer(s, e))
  {
    PendingServer(s, e);
    SizesServer(s, e);
    BoundServer(s, e);
    var t := AfterServer(s, e);
    hide Pending; hide Holders; hide AfterServer; hide IsServerReady; hide HolderInv; hide IsRising; hide IdBound;
    var all, added := s.completed + Pending(s), if e.BeginWorks? then [s.server.u.id] else [];
    RisingExtends(all, added, IdBound(s), IdBound(t));
    assert t.completed + Pending(t) == all + added;
  }

  lemma PendingWorker(s: State, e: Event)
    requires HolderInv(s) && !IsServerEvent(e) && IsWorkerReady(s, e)
    ensures var t := AfterWorker(s, e);
      t.completed + Pending(t) == s.completed + Pending(s) && t.begun == s.begun
  {
    var t := AfterWorker(s, e);
    if e.Complete? {
      assert Pending(s) == [s.worker.u.id] + Pending(t);
    } else {
      assert Pending(t) == Pending(s);
    }
  }

  lemma RequestWorker(s: State, e: Event)
    requires HolderInv(s) && RequestInv(s) && !IsServerEvent(e) && IsWorkerReady(s, e)
    ensures RequestInv(AfterWorker(s, e))
  {
    hide Pending; hide Holders; hide AfterWorker; hide IsRising; hide IsWorkerReady; hide HolderInv;
    PendingWorker(s, e);
    HoldersShrink(s, e);
    WorkerLeavesServer(s, e);
  }

  lemma WorkerLeavesServer(s: State, e: Event)
    requires !IsServerEvent(e) && IsWorkerReady(s, e)
    ensures var t := AfterWorker(s, e); t.server == s.server && t.nextId == s.nextId && t.capacity == s.capacity
  {
  }

  lemma HoldersShrink(s: State, e: Event)
    requires HolderInv(s) && !IsServerEvent(e) && IsWorkerReady(s, e)
    ensures forall u <- Holders(AfterWorker(s, e)) :: u in Holders(s)
  {
  }

  lemma WorkerServer(s: State, e: Event)
    requires WorkerInv(s) && IsServerEvent(e) && IsServerReady(s, e)
    ensures WorkerInv(AfterServer(s, e))
  {
  }

  lemma WorkerWorker(s: State, e: Event)
    requires WorkerInv(s) && !IsServerEvent(e) && IsWorkerReady(s, e)
    ensures WorkerInv(AfterWorker(s, e))
  {
    CounterWorker(s, e);
    hide CounterInv; hide CountersFit;
  }

  lemma CounterWorker(s: State, e: Event)
    requires CounterInv(s) && !IsServerEvent(e) && IsWorkerReady(s, e)
    ensures CounterInv(AfterWorker(s, e))
  {
    hide AreRepliesWithin; hide IsShownVersion;
  }

  lemma FlashServer(s: State, e: Event)
    requires HolderInv(s) && FlashInv(s) && IsServerEvent(e) && IsServerReady(s, e)
    ensures FlashInv(AfterServer(s, e))
  {
  }

  /** The upload at work is the newest one that ever touched flash. */
  lemma WorkerIsNewest(s: State)
    requires RequestInv(s) && FlashInv(s) && s.worker.Busy?
    ensures forall i :: 0 <= i < |s.flash| ==> s.flash[i] <= s.worker.u.id
  {
    hide Holders;
    var all := s.completed + Pending(s);
    assert all[|s.completed|] == s.worker.u.id;
    forall i | 0 <= i < |s.flash| ensures s.flash[i] <= s.worker.u.id {
      if s.flash[i] in s.completed {
        var k :| 0 <= k < |s.completed| && s.completed[k] == s.flash[i];
        assert all[k] == s.flash[i];
      }
    }
  }

  /** A worker event touches flash at most once, for the upload at work. */
  lemma FlashEffect(s: State, e: Event)
    requires !IsServerEvent(e) && IsWorkerReady(s, e)
    ensures var t := AfterWorker(s, e);
      && (t.flash == s.flash || (s.worker.Busy? && t.flash == s.flash + [s.worker.u.id]))
      && (if s.worker.Free? then t.completed == s.completed
          else if t.worker.Free? then t.completed == s.completed + [s.worker.u.id]
          else t.completed == s.completed && t.worker.u == s.worker.u)
  {
  }

  lemma FlashWorker(s: State, e: Event)
    requires RequestInv(s) && FlashInv(s) && !IsServerEvent(e) && IsWorkerReady(s, e)
    ensures FlashInv(AfterWorker(s, e))
  {
    if s.worker.Busy? {
      WorkerIsNewest(s);
    }
    FlashEffect(s, e);
    hide RequestInv; hide AfterWorker; hide IsWorkerReady;
  }

  lemma ReplyServer(s: State, e: Event)
    requires HolderInv(s) && ReplyInv(s) && IsServerEvent(e) && IsServerReady(s, e)
    ensures ReplyInv(AfterServer(s, e))
  {
    var t := AfterServer(s, e);
    QuoteServer(s, e);
    RepliesKeep(s, t);
    hide HolderInv; hide QuoteInv; hide VersionAt; hide WillHide; hide HasShown; hide IsInstalled;
    if e.ReplyStatus? {
      var q := s.server;
      var last := Status(s.state, s.received, s.total, q.version, q.hides, q.shows);
      assert t.replies == s.replies + [last];
      RepliedDone(s, last);
      forall i, j | 0 <= i < j < |t.replies| && t.replies[i].state == Finished
        ensures t.replies[j].state == Finished && t.replies[j].shows == t.shows
      {
        if j == |s.replies| {
          assert s.replies[i] in s.replies;
        }
      }
    } else {
      assert t.replies == s.replies && t.shows == s.shows;
    }
  }

  lemma QuoteServer(s: State, e: Event)
    requires HolderInv(s) && ReplyInv(s) && IsServerEvent(e) && IsServerReady(s, e)
    ensures var t := AfterServer(s, e);
      t.server.Quoting? ==> QuoteInv(t, t.server.hides, t.server.shows, t.server.version) && t.server.shows == t.shows
  {
    hide DoneInv; hide StaysDone; hide HasSaidDone;
  }

  lemma RepliedDone(s: State, r: Status)
    requires HolderInv(s) && s.server.Quoting? && QuoteInv(s, s.server.hides, s.server.shows, s.server.version)
    requires r == Status(s.state, s.received, s.total, s.server.version, s.server.hides, s.server.shows)
    ensures DoneInv(s, r)
  {
  }

  /** A step that leaves a done state's version and counters alone keeps what the replies say of them. */
  lemma RepliesKeep(s: State, t: State)
    requires ReplyInv(s)
    requires s.state == Finished ==>
               t.state == Finished && t.hides == s.hides && t.shows == s.shows && t.installed == s.installed
                   && t.hidden == s.hidden
    ensures forall r <- s.replies :: DoneInv(t, r)
    ensures HasSaidDone(s.replies) ==> t.shows == s.shows
    ensures StaysDone(s.replies, t.shows)
  {
    hide QuoteInv;
    forall i, j | 0 <= i < j < |s.replies| && s.replies[i].state == Finished
      ensures s.replies[j].state == Finished && s.replies[j].shows == t.shows
    {
      assert DoneInv(s, s.replies[i]);
    }
  }

  lemma ReplyWorker(s: State, e: Event)
    requires HolderInv(s) && WorkerInv(s) && ReplyInv(s) && !IsServerEvent(e) && IsWorkerReady(s, e)
    ensures ReplyInv(AfterWorker(s, e))
  {
    var t := AfterWorker(s, e);
    QuoteWorker(s, e);
    if s.state == Finished {
      FinishedWorker(s, e);
    }
    RepliesKeep(s, t);
    hide *;
    ReplyParts(s, t);
  }

  lemma ReplyParts(s: State, t: State)
    requires ReplyInv(s) && t.server == s.server && t.replies == s.replies
    requires s.server.Quoting? ==> QuoteInv(t, t.server.hides, t.server.shows, t.server.version)
    requires (forall r <- s.replies :: DoneInv(t, r)) && (HasSaidDone(s.replies) ==> t.shows == s.shows)
    requires StaysDone(s.replies, t.shows)
    ensures ReplyInv(t)
  {
    hide QuoteInv; hide DoneInv; hide StaysDone;
  }

  lemma QuoteHide(s: State, e: Event)
    requires HolderInv(s) && WorkerInv(s) && ReplyInv(s) && !IsServerEvent(e) && IsWorkerReady(s, e) && e.HideVersion?
    ensures var t := AfterWorker(s, e);
      && t.server == s.server && t.replies == s.replies
      && (s.server.Quoting? ==> QuoteInv(t, t.server.hides, t.server.shows, t.server.version))
  {
    hide CounterInv; hide DoneInv; hide StaysDone; hide HasSaidDone; hide IsShownVersion;
  }

  lemma QuoteShow(s: State, e: Event)
    requires HolderInv(s) && WorkerInv(s) && ReplyInv(s) && !IsServerEvent(e) && IsWorkerReady(s, e) && e.ShowVersion?
    ensures var t := AfterWorker(s, e);
      && t.server == s.server && t.replies == s.replies
      && (s.server.Quoting? ==> QuoteInv(t, t.server.hides, t.server.shows, t.server.version))
  {
    hide CounterInv; hide DoneInv; hide StaysDone; hide HasSaidDone; hide IsShownVersion;
    ShownIsNamed(e.version);
  }

  /** Any other step of the worker leaves the version alone and never goes back. */
  lemma OtherEffect(s: State, e: Event)
    requires !IsServerEvent(e) && IsWorkerReady(s, e) && !e.HideVersion? && !e.ShowVersion?
    ensures var t := AfterWorker(s, e);
      && t.server == s.server && t.replies == s.replies && t.hides == s.hides && t.shows == s.shows
      && t.installed == s.installed && t.hidden == s.hidden
  {
  }

  lemma HideBehind(s: State, e: Event)
    requires !IsServerEvent(e) && IsWorkerReady(s, e) && !WillHide(s)
    ensures !WillHide(AfterWorker(s, e))
  {
  }

  lemma ShowBehind(s: State, e: Event)
    requires !IsServerEvent(e) && IsWorkerReady(s, e) && HasShown(s)
    ensures HasShown(AfterWorker(s, e))
  {
  }

  lemma InstalledBefore(s: State, e: Event)
    requires HolderInv(s) && !IsServerEvent(e) && IsWorkerReady(s, e) && !e.ShowVersion?
        && IsInstalled(AfterWorker(s, e))
    ensures IsInstalled(s)
  {
  }

  lemma OtherPlace(s: State, e: Event)
    requires HolderInv(s) && !IsServerEvent(e) && IsWorkerReady(s, e) && !e.HideVersion? && !e.ShowVersion?
    ensures var t := AfterWorker(s, e);
      (!WillHide(s) ==> !WillHide(t)) && (HasShown(s) ==> HasShown(t)) && (IsInstalled(t) ==> IsInstalled(s))
  {
    hide *;
    if !WillHide(s) {
      HideBehind(s, e);
    }
    if HasShown(s) {
      ShowBehind(s, e);
    }
    if IsInstalled(AfterWorker(s, e)) {
      InstalledBefore(s, e);
    }
  }

  lemma QuoteOther(s: State, e: Event)
    requires HolderInv(s) && ReplyInv(s) && !IsServerEvent(e) && IsWorkerReady(s, e) && !e.HideVersion?
        && !e.ShowVersion?
    ensures var t := AfterWorker(s, e);
      && t.server == s.server && t.replies == s.replies
      && (s.server.Quoting? ==> QuoteInv(t, t.server.hides, t.server.shows, t.server.version))
  {
    OtherEffect(s, e);
    OtherPlace(s, e);
    hide AfterWorker; hide IsWorkerReady; hide HolderInv; hide DoneInv; hide StaysDone; hide HasSaidDone;
    hide WillHide; hide HasShown; hide IsInstalled;
  }

  lemma QuoteWorker(s: State, e: Event)
    requires HolderInv(s) && WorkerInv(s) && ReplyInv(s) && !IsServerEvent(e) && IsWorkerReady(s, e)
    ensures var t := AfterWorker(s, e);
      && t.server == s.server && t.replies == s.replies
      && (s.server.Quoting? ==> QuoteInv(t, t.server.hides, t.server.shows, t.server.version))
  {
    hide *;
    if e.HideVersion? {
      QuoteHide(s, e);
    } else if e.ShowVersion? {
      QuoteShow(s, e);
    } else {
      QuoteOther(s, e);
    }
  }

  lemma ShownIsNamed(v: string)
    requires IsShownVersion(v)
    ensures v != ""
  {
  }

  lemma FinishedWorker(s: State, e: Event)
    requires HolderInv(s) && !IsServerEvent(e) && IsWorkerReady(s, e) && s.state == Finished
    ensures AfterWorker(s, e).state == Finished && AfterWorker(s, e).hides == s.hides
    ensures AfterWorker(s, e).shows == s.shows && AfterWorker(s, e).installed == s.installed
    ensures AfterWorker(s, e).hidden == s.hidden
  {
    hide IsShownVersion;
  }

  /** Every event of either task keeps the invariant. */
  lemma StepInv(s: State, e: Event)
    requires Inv(s) && IsReady(s, e)
    ensures Inv(After(s, e))
  {
    hide HolderInv; hide RequestInv; hide WorkerInv; hide FlashInv; hide ReplyInv; hide AfterServer; hide AfterWorker;
    hide IsServerReady; hide IsWorkerReady; hide IsServerEvent;
    if IsServerEvent(e) {
      HolderServer(s, e);
      RequestServer(s, e);
      WorkerServer(s, e);
      FlashServer(s, e);
      ReplyServer(s, e);
    } else {
      HolderWorker(s, e);
      RequestWorker(s, e);
      WorkerWorker(s, e);
      FlashWorker(s, e);
      ReplyWorker(s, e);
    }
  }

  // Runs.

  ghost predicate IsRun(states: seq<State>, events: seq<Event>) {
    && |states| == |events| + 1 && Init(states[0])
    && forall i :: 0 <= i < |events| ==> IsReady(states[i], events[i]) && states[i + 1] == After(states[i], events[i])
  }

  lemma {:induction false} RunInv(states: seq<State>, events: seq<Event>, i: nat)
    requires IsRun(states, events) && i < |states|
    ensures Inv(states[i])
  {
    hide Inv; hide After; hide IsReady;
    if i == 0 {
      InitInv(states[0]);
    } else {
      RunInv(states, events, i - 1);
      StepInv(states[i - 1], events[i - 1]);
    }
  }

  /**
   * In every reachable state at most one upload is between claim and settlement, and there is one exactly while the
   * state is uploading; the server finds the hand-off queue empty when it sends; and the worker never meets a size the
   * server let through wrongly.
   */
  lemma OneUploadAtATime(states: seq<State>, events: seq<Event>, i: nat)
    requires IsRun(states, events) && i < |states|
    ensures |Holders(states[i])| <= 1 && (|Holders(states[i])| == 1 <==> states[i].state == Uploading)
    ensures states[i].server.Begun? ==> states[i].queue == []
    ensures |states[i].queue| <= 1 && !states[i].server.Unsent? && !states[i].server.Unanswered?
    ensures !IsWorkerReady(states[i], RefuseAgain)
  {
    RunInv(states, events, i);
    var s := states[i];
    if IsIn(s, Starting) {
      assert s.worker.u in Holders(s);
    }
  }

  /** A POST is claimed exactly when nothing is between claim and settlement and no upload has succeeded. */
  lemma ClaimedIff(states: seq<State>, events: seq<Event>, i: nat)
    requires IsRun(states, events) && i < |events| && events[i].Post?
    ensures states[i + 1].server.Claimed? <==> Holders(states[i]) == [] && states[i].state != Finished
    ensures !states[i + 1].server.Claimed? ==> states[i + 1] == states[i].(nextId := states[i].nextId + 1)
  {
    RunInv(states, events, i);
  }

  ghost predicate AreDistinct(ids: seq<nat>) {
    forall i, j :: 0 <= i < j < |ids| ==> ids[i] != ids[j]
  }

  lemma HeldMeansUploading(s: State)
    requires HolderInv(s)
    ensures s.state == Uploading <==> Holders(s) != []
    ensures s.server.Claimed? || s.server.Begun? || s.server.Unsent? ==> s.state == Uploading
    ensures s.worker.Busy? && s.worker.phase != Replying ==> s.state == Uploading
  {
  }

  lemma ServerOutcome(s: State, e: Event)
    requires HolderInv(s) && IsServerEvent(e) && IsServerReady(s, e)
    ensures var t := AfterServer(s, e);
      t.state == s.state || t.state == Uploading || (s.state == Uploading && t.state == Error)
  {
    HeldMeansUploading(s);
    hide HolderInv; hide Holders;
  }

  lemma WorkerOutcome(s: State, e: Event)
    requires HolderInv(s) && !IsServerEvent(e) && IsWorkerReady(s, e)
    ensures var t := AfterWorker(s, e);
      if e.Settle? then s.state == Uploading && t.state == if IsIn(s, Succeeded) then Finished else Error
      else t.state == s.state
  {
    HeldMeansUploading(s);
    hide HolderInv; hide Holders;
  }

  /**
   * The state tells how the last upload ended: uploading while one is held, done exactly after a successful settlement,
   * error after any other end, and unchanged in between.
   */
  lemma StateTellsOutcome(states: seq<State>, events: seq<Event>, i: nat)
    requires IsRun(states, events) && i < |events|
    ensures states[i].state == Uploading <==> Holders(states[i]) != []
    ensures Holders(states[i]) != [] && Holders(states[i + 1]) == [] ==>
              states[i + 1].state == if events[i].Settle? && IsIn(states[i], Succeeded) then Finished else Error
    ensures Holders(states[i]) == Holders(states[i + 1]) == [] ==> states[i + 1].state == states[i].state
  {
    RunInv(states, events, i);
    RunInv(states, events, i + 1);
    var s, e := states[i], events[i];
    HolderPart(s);
    HolderPart(states[i + 1]);
    HeldMeansUploading(s);
    HeldMeansUploading(states[i + 1]);
    hide HolderInv; hide Inv; hide Holders; hide AfterServer; hide AfterWorker; hide IsServerReady; hide IsWorkerReady;
    if IsServerEvent(e) {
      ServerOutcome(s, e);
    } else {
      WorkerOutcome(s, e);
    }
  }

  lemma HolderPart(s: State)
    requires Inv(s)
    ensures HolderInv(s)
  {
    hide HolderInv; hide RequestInv; hide WorkerInv; hide FlashInv; hide ReplyInv;
  }

  /**
   * No request is completed twice, none that was not begun, and when both tasks are idle every begun one is completed.
   */
  lemma CompletedOnce(states: seq<State>, events: seq<Event>, i: nat)
    requires IsRun(states, events) && i < |states|
    ensures AreDistinct(states[i].completed)
    ensures forall id <- states[i].completed :: id in states[i].begun
    ensures Pending(states[i]) == [] ==> forall id <- states[i].begun :: id in states[i].completed
  {
    RunInv(states, events, i);
    var s := states[i];
    hide Pending; hide Holders; hide HolderInv; hide WorkerInv; hide FlashInv;
    var all := s.completed + Pending(s);
    forall j, k | 0 <= j < k < |s.completed| ensures s.completed[j] != s.completed[k] {
      assert all[j] < all[k];
    }
  }

  /**
   * Flash and the OTA handle belong to the worker, on behalf of the one claimed upload, and to uploads one after
   * another.
   */
  lemma FlashIsTheWorkers(states: seq<State>, events: seq<Event>, i: nat)
    requires IsRun(states, events) && i < |events|
    ensures var s, t := states[i], states[i + 1];
      && |s.handles| <= 1
      && (t.flash != s.flash || t.handles != s.handles ==>
            && !IsServerEvent(events[i]) && s.state == Uploading && s.worker.Busy? && Holders(s) == [s.worker.u])
      && (t.flash != s.flash ==> t.flash == s.flash + [s.worker.u.id])
    ensures forall j, k :: 0 <= j < k < |states[i].flash| ==> states[i].flash[j] <= states[i].flash[k]
  {
    RunInv(states, events, i);
    HandleEffect(states[i], events[i]);
  }

  lemma HandleEffect(s: State, e: Event)
    requires Inv(s) && IsReady(s, e)
    ensures var t := After(s, e);
      && |s.handles| <= 1
      && (t.flash != s.flash || t.handles != s.handles ==>
            !IsServerEvent(e) && s.state == Uploading && s.worker.Busy? && Holders(s) == [s.worker.u])
      && (t.flash != s.flash ==> t.flash == s.flash + [s.worker.u.id])
  {
    hide RequestInv; hide FlashInv; hide CounterInv; hide VersionFits; hide Pending;
    if !IsServerEvent(e) && s.worker.Busy? && s.worker.phase != Replying {
      assert s.worker.u in Holders(s);
    }
  }

  /** Once an upload has succeeded, no event leaves the state, touches flash or moves the counters. */
  lemma {:induction false} FinishedIsAbsorbing(states: seq<State>, events: seq<Event>, i: nat, j: nat)
    requires IsRun(states, events) && i <= j < |states| && states[i].state == Finished
    ensures states[j].state == Finished && states[j].flash == states[i].flash
        && states[j].installed == states[i].installed
    ensures states[j].received == states[i].received == states[j].total == states[i].total
    decreases j
  {
    hide After; hide IsReady; hide RequestInv; hide FlashInv; hide WorkerInv; hide ReplyInv; hide Holders; hide Init;
    RunInv(states, events, i);
    if j > i {
      FinishedIsAbsorbing(states, events, i, j - 1);
      RunInv(states, events, j - 1);
      var s, e := states[j - 1], events[j - 1];
      FinishedStays(s, e);
    }
  }

  lemma FinishedStays(s: State, e: Event)
    requires HolderInv(s) && IsReady(s, e) && s.state == Finished
    ensures var t := After(s, e);
      t.state == Finished && t.flash == s.flash && t.installed == s.installed && t.received == s.received
          && t.total == s.total
  {
    hide Pending;
  }

  /**
   * Every reply to GET /status has received at most total, and equal to it when it says done. A reply that says done
   * quotes the version just installed if it was read after that was set (`shows`); read before, it quotes nothing if
   * the earlier version had been cleared by then (`hides`), and the earlier version if not.
   */
  lemma RepliesAreSane(states: seq<State>, events: seq<Event>, i: nat)
    requires IsRun(states, events) && i < |states|
    ensures var s := states[i];
      forall r <- s.replies ::
        && r.received <= r.total
        && (r.state == Finished ==>
              && r.received == r.total && s.installed != ""
              && r.version == (if r.shows == s.shows then s.installed else if r.hides == s.hides then "" else s.hidden)
              && (r.version == "" <==> r.shows < s.shows && (r.hides == s.hides || s.hidden == "")))
  {
    RunInv(states, events, i);
    hide RequestInv; hide FlashInv; hide Holders; hide CountersFit;
  }

  /**
   * Once a reply has said done, every reply to a request that came after it says done and names the installed version.
   */
  lemma DoneIsFinal(states: seq<State>, events: seq<Event>, i: nat, j: nat, k: nat)
    requires IsRun(states, events) && i < |states| && j < k < |states[i].replies|
    requires states[i].replies[j].state == Finished
    ensures states[i].replies[k].state == Finished && states[i].replies[k].version == states[i].installed != ""
  {
    RunInv(states, events, i);
    hide RequestInv; hide FlashInv; hide WorkerInv; hide Holders;
    assert DoneInv(states[i], states[i].replies[k]);
  }

  function ShowsIn(events: seq<Event>): nat {
    if events == [] then 0
    else ShowsIn(events[..|events| - 1]) + if events[|events| - 1].ShowVersion? then 1 else 0
  }

  function HidesIn(events: seq<Event>): nat {
    if events == [] then 0
    else HidesIn(events[..|events| - 1]) + if events[|events| - 1].HideVersion? then 1 else 0
  }

  /** The two counters are the numbers of events so far, so comparing them tells which event came first. */
  lemma {:induction false} VersionEventsCounted(states: seq<State>, events: seq<Event>, i: nat)
    requires IsRun(states, events) && i < |states|
    ensures states[i].shows == ShowsIn(events[..i]) && states[i].hides == HidesIn(events[..i])
  {
    if i > 0 {
      VersionEventsCounted(states, events, i - 1);
      assert events[..i][..i - 1] == events[..i - 1] && events[..i][i - 1] == events[i - 1];
      VersionEvent(states[i - 1], events[i - 1]);
    }
  }

  lemma VersionEvent(s: State, e: Event)
    requires IsReady(s, e)
    ensures var t := After(s, e);
      t.shows == s.shows + (if e.ShowVersion? then 1 else 0) && t.hides == s.hides + (if e.HideVersion? then 1 else 0)
  {
  }

  // Progress of the worker.

  function PhaseRank(u: Upload, p: Phase): int {
    match p
    case Fetched => 2 * u.len + 12
    case Starting => 2 * u.len + 11
    case Hiding => 2 * u.len + 10
    case Opening => 2 * u.len + 9
    case Receiving(got) => 2 * (u.len - got) + 8
    case Written(got) => 2 * (u.len - got) + 9
    case Storing => 7
    case Showing => 6
    case Clearing => 5
    case Succeeded => 4
    case Failed(isOpen) => if isOpen then 3 else 2
    case Replying => 1
  }

  function Work(w: WorkerPc): int {
    if w.Busy? then PhaseRank(w.u, w.phase) else 0
  }

  /** No server event holds the worker up, and each event of its own brings it nearer to the end of its upload. */
  lemma WorkerAdvances(s: State, e: Event)
    requires Inv(s) && IsReady(s, e)
    ensures IsServerEvent(e) ==> After(s, e).worker == s.worker
    ensures !IsServerEvent(e) && !e.Dequeue? ==> 0 <= Work(After(s, e).worker) < Work(s.worker)
  {
    hide RequestInv; hide FlashInv; hide HolderInv; hide CounterInv; hide Work; hide AfterWorker; hide AfterServer;
    hide IsServerReady; hide IsWorkerReady;
    if IsServerEvent(e) {
      ServerLeavesWorker(s, e);
    } else {
      CounterWorker(s, e);
      if !e.Dequeue? {
        WorkDecreases(s, e);
      }
      WorkIsPositive(AfterWorker(s, e));
    }
  }

  lemma ServerLeavesWorker(s: State, e: Event)
    requires IsServerEvent(e) && IsServerReady(s, e)
    ensures AfterServer(s, e).worker == s.worker
  {
  }

  lemma WorkDecreases(s: State, e: Event)
    requires CounterInv(s) && !IsServerEvent(e) && IsWorkerReady(s, e) && !e.Dequeue?
    ensures Work(AfterWorker(s, e).worker) < Work(s.worker)
  {
  }

  lemma WorkIsPositive(s: State)
    requires CounterInv(s)
    ensures Work(s.worker) >= 0
  {
  }

  lemma SampleVersion()
    ensures IsShownVersion("01.00.00")
  {
  }

  /**
   * The worker is never stuck: a claimed upload that was handed over is taken and has a next event until it is
   * completed.
   */
  lemma WorkerCanMove(s: State) returns (e: Event)
    requires Inv(s) && (s.worker.Busy? || s.queue != [])
    ensures !IsServerEvent(e) && IsReady(s, e)
  {
    hide RequestInv; hide FlashInv; hide ReplyInv; hide IsShownVersion;
    SampleVersion();
    if s.worker.Free? {
      e := Dequeue;
    } else {
      match s.worker.phase
      case Fetched => e := Start;
      case Starting => e := if IsSizeOk(s, s.worker.u.len) then EraseRecord(true) else RefuseAgain;
      case Hiding => e := HideVersion;
      case Opening => e := OpenOta(true);
      case Receiving(_) => e := BreakOff(false);
      case Written(_) => e := CountBytes;
      case Storing => e := Store(false, false);
      case Showing => e := ShowVersion("01.00.00");
      case Clearing => e := ClearCount(false);
      case Failed(isOpen) => e := if isOpen then Abort else Settle;
      case Succeeded => e := Settle;
      case Replying => e := Complete;
    }
  }

  ghost predicate IsReachable(s: State) {
    exists states, events :: IsRun(states, events) && states[|states| - 1] == s
  }

  lemma Reach(s: State, e: Event) returns (t: State)
    requires IsReachable(s) && IsReady(s, e)
    ensures IsReachable(t) && t == After(s, e)
  {
    hide After; hide IsReady; hide Init;
    var states, events :| IsRun(states, events) && states[|states| - 1] == s;
    t := After(s, e);
    assert IsRun(states + [t], events + [e]) by {
      assert (states + [t])[0] == states[0];
      forall i | 0 <= i < |events + [e]| ensures IsReady((states + [t])[i], (events + [e])[i]) &&
                                                 (states + [t])[i + 1] == After((states + [t])[i], (events + [e])[i]) {
      }
    }
  }

  lemma StartReachable(s: State)
    requires Init(s)
    ensures IsReachable(s)
  {
    assert IsRun([s], []);
  }

  /** The smallest upload, handed over to the worker. */
  lemma SmallestUpload(start: State) returns (s: State)
    requires Init(start) && start.capacity >= IMAGE_HEAD_LEN
    ensures IsReachable(s)
    ensures s == start.(state := Uploading, nextId := 1, queue := [Upload(0, IMAGE_HEAD_LEN)], begun := {0})
  {
    hide IsReachable;
    StartReachable(start);
    s := Reach(start, Post(IMAGE_HEAD_LEN));
    s := Reach(s, BeginWorks);
    s := Reach(s, SendToWorker);
  }

  const SMALLEST: Upload := Upload(0, IMAGE_HEAD_LEN)

  /** The worker takes it. */
  lemma TakeSmallest(before: State) returns (s: State)
    requires IsReachable(before) && before.queue == [SMALLEST] && before.worker == Free
    ensures IsReachable(s)
    ensures s == before.(queue := [], received := 0, total := IMAGE_HEAD_LEN, worker := Busy(SMALLEST, Starting))
  {
    hide IsReachable; hide IsShownVersion;
    s := Reach(before, Dequeue);
    s := Reach(s, Start);
  }

  /** It clears the record and the version. */
  lemma PrepareSmallest(before: State) returns (s: State)
    requires IsReachable(before) && before.worker == Busy(SMALLEST, Starting) && before.capacity >= IMAGE_HEAD_LEN
    ensures IsReachable(s)
    ensures s == before.(installed := "", worker := Busy(SMALLEST, Opening), flash := before.flash + [0],
              hides := before.hides + 1, hidden := before.installed)
  {
    hide IsReachable; hide IsShownVersion;
    s := Reach(before, EraseRecord(true));
    s := Reach(s, HideVersion);
  }

  /** It receives the body. */
  lemma ReceiveSmallest(before: State) returns (s: State)
    requires IsReachable(before) && before.worker == Busy(SMALLEST, Opening)
    ensures IsReachable(s)
    ensures s == before.(received := IMAGE_HEAD_LEN, worker := Busy(SMALLEST, Receiving(IMAGE_HEAD_LEN)),
              handles := before.handles + {0}, flash := before.flash + [0] + [0])
  {
    hide IsReachable; hide IsShownVersion;
    s := Reach(before, OpenOta(true));
    s := Reach(s, WriteChunk(IMAGE_HEAD_LEN));
    s := Reach(s, CountBytes);
  }

  /** It verifies the image and stores the record. */
  lemma CommitSmallest(before: State) returns (s: State)
    requires IsReachable(before) && before.worker == Busy(SMALLEST, Receiving(IMAGE_HEAD_LEN))
    ensures IsReachable(s)
    ensures s == before.(worker := Busy(SMALLEST, Showing), handles := before.handles - {0},
              flash := before.flash + [0] + [0])
  {
    hide IsReachable; hide IsShownVersion;
    s := Reach(before, CloseOta(true));
    s := Reach(s, Store(true, true));
  }

  /** It shows the new version. */
  lemma ShowSmallest(before: State) returns (s: State)
    requires IsReachable(before) && before.worker == Busy(SMALLEST, Showing)
    ensures IsReachable(s)
    ensures s == before.(installed := "01.00.00", shows := before.shows + 1, worker := Busy(SMALLEST, Clearing))
  {
    hide IsReachable; hide IsShownVersion;
    SampleVersion();
    s := Reach(before, ShowVersion("01.00.00"));
  }

  /** It settles. */
  lemma SettleSmallest(before: State) returns (s: State)
    requires IsReachable(before) && before.worker == Busy(SMALLEST, Clearing)
    ensures IsReachable(s) && s == before.(state := Finished, worker := Busy(SMALLEST, Replying))
  {
    hide IsReachable; hide IsShownVersion;
    s := Reach(before, ClearCount(false));
    s := Reach(s, Settle);
  }

  /**
   * The version is read after it was cleared, and the commit comes before the state is read: done, nothing installed.
   */
  lemma DoneWithNothingInstalled(start: State) returns (s: State)
    requires Init(start) && start.capacity >= IMAGE_HEAD_LEN
    ensures IsReachable(s) && |s.replies| == 1 && s.replies[0].state == Finished && s.replies[0].version == ""
  {
    hide IsReachable;
    s := SmallestUpload(start);
    s := TakeSmallest(s);
    s := PrepareSmallest(s);
    s := ReceiveSmallest(s);
    s := Reach(s, ReadVersion);
    s := CommitSmallest(s);
    s := ShowSmallest(s);
    s := SettleSmallest(s);
    s := Reach(s, ReplyStatus);
  }

  /** The version is read before the worker starts: done, with the version that was replaced. */
  lemma DoneWithOldVersion(start: State) returns (s: State)
    requires Init(start) && start.capacity >= IMAGE_HEAD_LEN && start.installed != "01.00.00"
    ensures IsReachable(s) && |s.replies| == 1 && s.replies[0].state == Finished
    ensures s.replies[0].version == start.installed != s.installed
  {
    hide IsReachable;
    s := SmallestUpload(start);
    s := Reach(s, ReadVersion);
    s := TakeSmallest(s);
    s := PrepareSmallest(s);
    s := ReceiveSmallest(s);
    s := CommitSmallest(s);
    s := ShowSmallest(s);
    s := SettleSmallest(s);
    s := Reach(s, ReplyStatus);
  }
}
