/**
 * The Wi-Fi orchestrator of main/provisioning/provisioning.c: ten states driven by messages and one deadline, over
 * services that may fail to start. The credential store is the real one; radio, DNS, HTTP and mDNS are what the
 * orchestrator can observe of them.
 */
module Provisioning {
  import opened PowerLoss
  import opened CredentialStore

  const BOOT_ATTEMPT_MAX := 5
  const ATTEMPT_TIMEOUT_MS := 10000
  const ATTEMPT_PAUSE_MS := 2000
  const BOOT_BUTTON_WINDOW_MS := 1050
  const AP_SHUTDOWN_DELAY_MS := 3000
  const PORTAL_RETRY_MS := 5000
  const HOSTNAME_CHECK_DELAY_MS := 3000
  const SERVICE_RETRY_MS := 5000
  const RECONNECT_DELAY_MIN_MS := 1000
  const RECONNECT_DELAY_MAX_MS := 60000

  // Reconnect backoff (main/wifi_manager/wifi_manager.c).

  function Doubled(times: nat): (d: nat)
    ensures d >= RECONNECT_DELAY_MIN_MS
  {
    if times == 0 then RECONNECT_DELAY_MIN_MS else 2 * Doubled(times - 1)
  }

  lemma {:induction false} DoubledMonotone(m: nat, n: nat)
    requires m <= n
    ensures Doubled(m) <= Doubled(n)
    decreases n
  {
    if m < n {
      DoubledMonotone(m, n - 1);
    }
  }

  /** One second, doubled per failure, capped at one minute. */
  function ReconnectDelay(failures: nat): (d: nat)
    ensures RECONNECT_DELAY_MIN_MS <= d <= RECONNECT_DELAY_MAX_MS
  {
    if Doubled(failures) > RECONNECT_DELAY_MAX_MS then RECONNECT_DELAY_MAX_MS else Doubled(failures)
  }

  method GetWifiReconnectDelayMs(failures: nat) returns (delay: nat)
    ensures delay == ReconnectDelay(failures)
  {
    delay := RECONNECT_DELAY_MIN_MS;
    var index := 0;
    while index < failures && delay < RECONNECT_DELAY_MAX_MS
      invariant index <= failures && delay == Doubled(index)
    {
      delay := 2 * delay;
      index := index + 1;
    }
    DoubledMonotone(index, failures);
    delay := if delay > RECONNECT_DELAY_MAX_MS then RECONNECT_DELAY_MAX_MS else delay;
  }

  datatype State =
    | BootWait | StaAttempt | StaPause | Connected | ReconnectWait | ReconnectTry
    | PortalIdle | PortalTrial | PortalSuccess | PortalRetry

  datatype Profile = NoServer | PortalServer | StationServer

  datatype Message =
    | ButtonRequest | StaConnected | StaDisconnected | StaGotIp | CredentialsSubmitted(credentials: Credentials)
    | UpdateRequest
    | TunerMessage      // timing, measurement and read messages leave this state alone

  predicate IsPortalState(s: State) { s.PortalIdle? || s.PortalTrial? || s.PortalSuccess? || s.PortalRetry? }

  /** The states in which clients can reach the portal. */
  predicate IsPortalOpen(s: State) { s.PortalIdle? || s.PortalTrial? || s.PortalSuccess? }

  predicate IsStationState(s: State) { s.Connected? || s.ReconnectWait? || s.ReconnectTry? }

  /** A connection is awaited outside the portal. */
  predicate IsConnecting(s: State) { s.StaAttempt? || s.ReconnectWait? || s.ReconnectTry? }

  predicate IsBootState(s: State) { s.BootWait? || s.StaAttempt? || s.StaPause? }

  /** Without a store the device never connects: it waits at boot or offers the portal. */
  predicate IsClosed(s: State) { s.BootWait? || s.PortalIdle? || s.PortalTrial? || s.PortalRetry? }

  /** States that may rest without a deadline. */
  predicate MayRest(s: State) { s.PortalIdle? || s.Connected? }

  /**
   * What the services answer while one message or expiry is handled. `isRadioOn` is whether a failed start of the
   * access point has switched it on.
   */
  datatype Answers = Answers(apStart: bool, isRadioOn: bool, dns: bool, http: bool, mdns: bool, apStop: bool,
                             isFlagSet: bool, replace: ReplaceAnswers)

  // The transition table.

  /** What a state waits for; the two resting states carry no deadline of their own. */
  function StateDeadline(s: State, failures: nat): nat {
    match s
    case BootWait => BOOT_BUTTON_WINDOW_MS
    case StaAttempt => ATTEMPT_TIMEOUT_MS
    case StaPause => ATTEMPT_PAUSE_MS
    case ReconnectWait => ReconnectDelay(failures)
    case ReconnectTry => ATTEMPT_TIMEOUT_MS
    case PortalTrial => ATTEMPT_TIMEOUT_MS
    case PortalSuccess => AP_SHUTDOWN_DELAY_MS
    case PortalRetry => PORTAL_RETRY_MS
    case _ => 0
  }

  /** Provisioning mode is entered with all its services or not at all. */
  function Entered(a: Answers): State {
    if a.apStart && a.dns && a.http then PortalIdle else PortalRetry
  }

  /** The state after message `m`; `isReplaced` is whether the trial's pair was stored. */
  function StateAfter(s: State, m: Message, a: Answers, isReplaced: bool): State {
    match m
    case ButtonRequest => if IsPortalState(s) then s else Entered(a)
    case StaConnected =>
      if s.StaAttempt? || s.ReconnectWait? || s.ReconnectTry? then Connected
      else if s.PortalTrial? then if isReplaced then PortalSuccess else PortalIdle
      else s
    case StaDisconnected => if s.Connected? || s.ReconnectTry? then ReconnectWait else s
    case CredentialsSubmitted(_) => if s.PortalIdle? then PortalTrial else s
    case _ => s
  }

  /** The state after the deadline expires. */
  function StateExpired(s: State, hasStored: bool, attempts: nat, isAssociated: bool, a: Answers): State {
    match s
    case BootWait => if hasStored then StaAttempt else Entered(a)
    case StaAttempt => if attempts < BOOT_ATTEMPT_MAX then StaPause else Entered(a)
    case StaPause => StaAttempt
    case ReconnectWait => ReconnectTry
    case ReconnectTry => ReconnectWait
    case PortalTrial => PortalIdle
    case PortalSuccess => if isAssociated then Connected else ReconnectWait
    case PortalRetry => Entered(a)
    case Connected => Connected
    case PortalIdle => PortalIdle
  }

  /** The state is entered on expiry through the portal, which drops the station. */
  predicate EntersPortal(s: State, hasStored: bool, attempts: nat) {
    (s.BootWait? && !hasStored) || (s.StaAttempt? && attempts >= BOOT_ATTEMPT_MAX) || s.PortalRetry?
  }

  /** What the rest of the firmware has been told last (provisioning_state_t). */
  datatype Notice = NoNotice | ConnectingNotice | ConnectedNotice | DisconnectedNotice | PortalNotice

  function NoticeOf(s: State): Notice {
    match s
    case StaAttempt => ConnectingNotice
    case StaPause => ConnectingNotice
    case Connected => ConnectedNotice
    case ReconnectWait => DisconnectedNotice
    case ReconnectTry => DisconnectedNotice
    case PortalIdle => PortalNotice
    case PortalTrial => PortalNotice
    case PortalSuccess => PortalNotice
    case _ => NoNotice
  }

  const NO_CREDENTIALS: Credentials := Fields(seq(33, _ => 0), seq(65, _ => 0))

  datatype Input = Received(m: Message, a: Answers) | Expired(a: Answers)

  /** The last link event of the log was a connect. */
  function IsLinked(log: seq<Input>): bool {
    log != [] && var last := log[|log| - 1];
      if last.Received? && last.m.StaConnected? then true
      else if last.Received? && last.m.StaDisconnected? then false
      else IsLinked(log[..|log| - 1])
  }

  lemma LinkExtends(log: seq<Input>, input: Input)
    ensures IsLinked(log + [input])
         == if input.Expired? then IsLinked(log)
            else input.m.StaConnected? || (IsLinked(log) && !input.m.StaDisconnected?)
  {
    assert (log + [input])[..|log|] == log;
  }

  /** The messages of a run, in order. */
  function Messages(inputs: seq<Input>): seq<Input> {
    if inputs == [] then []
    else
      var last := inputs[|inputs| - 1];
      Messages(inputs[..|inputs| - 1]) + if last.Received? then [last] else []
  }

  lemma MessagesExtend(inputs: seq<Input>, input: Input)
    ensures Messages(inputs + [input]) == Messages(inputs) + if input.Received? then [input] else []
  {
    assert (inputs + [input])[..|inputs|] == inputs;
  }

  /** The times in milliseconds: every deadline, and the back-off from one second to one minute. */
  lemma Deadlines(n: nat)
    ensures StateDeadline(BootWait, n) == 1050 && StateDeadline(StaAttempt, n) == 10000
    ensures StateDeadline(StaPause, n) == 2000 && StateDeadline(ReconnectTry, n) == 10000
    ensures StateDeadline(PortalTrial, n) == 10000 && StateDeadline(PortalSuccess, n) == 3000
    ensures StateDeadline(PortalRetry, n) == 5000
    ensures n < 6 ==> StateDeadline(ReconnectWait, n) == [1000, 2000, 4000, 8000, 16000, 32000][n]
    ensures n >= 6 ==> StateDeadline(ReconnectWait, n) == 60000
  {
    assert Doubled(2) == 4000;
    assert Doubled(4) == 16000;
    assert Doubled(6) == 64000;
    if n >= 6 {
      DoubledMonotone(6, n);
    }
  }

  class Orchestrator {
    const store: Store
    var state: State
    var hasDeadline: bool
    var deadlineMs: nat
    var attemptCount: nat
    var failureCount: nat
    var isAssociated: bool
    var hasStored: bool
    var stored: Credentials
    var active: Credentials
    var trial: Credentials
    var hasIp: bool
    var isHttpUp: bool
    var isMdnsUp: bool
    // observed services
    var isApUp: bool
    var isDnsUp: bool
    var profile: Profile
    var isResponderUp: bool
    var target: Option<Credentials>   // the pair of the last connect call; none after a disconnect call
    var notified: Notice
    var isDown: bool                  // restarted into the updater, or out of power
    ghost var hasApStopFailed: bool   // the last stop of the access point failed
    ghost var wasApUp: bool           // the access point was on before the last stop
    ghost var bootConnects: nat       // connection attempts made while booting
    ghost var log: seq<Input>         // inputs handled so far

    /** Portal services run exactly in the open portal states, station services at most in the station states. */
    ghost predicate ServiceInv()
      reads `state, `profile, `isDnsUp, `isHttpUp, `isResponderUp, `isMdnsUp
    {
      && (IsPortalOpen(state) <==> profile.PortalServer?) && (IsPortalOpen(state) <==> isDnsUp)
      && (profile.StationServer? <==> isHttpUp) && (isResponderUp <==> isMdnsUp)
      && (isHttpUp || isMdnsUp ==> IsStationState(state))
    }

    /**
     * The access point is on in the open portal states. Outside it is on exactly if it was on when the last stop
     * failed, which while booting never happened, and in the station states means that the last stop failed.
     */
    ghost predicate AccessPointInv()
      reads `state, `isApUp, `wasApUp, `hasApStopFailed
    {
      && (IsPortalOpen(state) ==> isApUp)
      && (!IsPortalOpen(state) ==> (isApUp <==> wasApUp && hasApStopFailed))
      && (IsBootState(state) ==> !isApUp && !hasApStopFailed)
      && (IsStationState(state) ==> (isApUp <==> hasApStopFailed))
    }

    ghost predicate AttemptInv()
      reads `state, `attemptCount, `bootConnects
    {
      && bootConnects == attemptCount <= BOOT_ATTEMPT_MAX
      && (state.BootWait? ==> attemptCount == 0) && (state.StaPause? ==> attemptCount < BOOT_ATTEMPT_MAX)
    }

    ghost predicate DeadlineInv()
      reads `state, `hasDeadline, `deadlineMs, `failureCount
    {
      && (!MayRest(state) ==> hasDeadline && deadlineMs == StateDeadline(state, failureCount))
      && (state.PortalIdle? ==> !hasDeadline)
    }

    /** The credentials in use are the stored ones. */
    ghost predicate CredentialInv()
      reads `state, `hasStored, `stored, `active, store
    {
      && (IsStationState(state) || state.PortalSuccess? ==> store.ActivePair() == Some(active))
      && (IsBootState(state) && hasStored ==> store.ActivePair() == Some(stored))
      && (state.StaAttempt? || state.StaPause? ==> hasStored)
      && (!store.isReady ==> !hasStored && IsClosed(state))
    }

    /** A connected station waits for something only once it has an address. */
    ghost predicate ConnectedInv()
      reads `state, `hasDeadline, `hasIp
    {
      state.Connected? && hasDeadline ==> hasIp
    }

    ghost predicate BaseInv()
      reads this, store
    {
      ServiceInv() && AccessPointInv() && AttemptInv() && DeadlineInv() && CredentialInv()
    }

    /** A pair on trial is kept only while it is tried or has just succeeded. */
    ghost predicate TrialInv()
      reads `state, `trial
    {
      state.PortalTrial? || state.PortalSuccess? || trial == NO_CREDENTIALS
    }

    /** Association is what the link events handled so far say. */
    ghost predicate LinkInv()
      reads `isAssociated, `log
    {
      isAssociated == IsLinked(log)
    }

    ghost predicate CoreInv()
      reads this, store
    {
      BaseInv() && ConnectedInv() && TrialInv() && LinkInv()
    }

    /** The radio is told to join exactly the pair the state is about, and nothing in the other states. */
    ghost predicate TargetInv()
      reads `state, `target, `stored, `active, `trial
    {
      && (state.StaAttempt? ==> target == Some(stored)) && (state.ReconnectTry? ==> target == Some(active))
      && (state.PortalTrial? ==> target == Some(trial)) && (state.PortalSuccess? ==> target == Some(active))
      && (state.Connected? || state.ReconnectWait? ==> target == None || target == Some(active))
      && (state.BootWait? || state.StaPause? || state.PortalIdle? || state.PortalRetry? ==> target == None)
    }

    /** The rest of the firmware has been told what the state means; a portal that did not start was not announced. */
    ghost predicate NoticeInv()
      reads `state, `notified
    {
      if state.PortalRetry? then notified != PortalNotice else notified == NoticeOf(state)
    }

    ghost predicate Valid()
      reads this, store
    {
      !isDown ==> CoreInv() && TargetInv() && NoticeInv()
    }

    // Facts of the invariant that the handlers use.

    lemma LinkKnown()
      requires !isDown && Valid()
      ensures isAssociated == IsLinked(log)
    {
      hide BaseInv; hide IsLinked;
    }

    lemma MustWait()
      requires !isDown && Valid() && !MayRest(state)
      ensures hasDeadline
    {
      hide ServiceInv; hide AccessPointInv; hide AttemptInv; hide CredentialInv; hide IsLinked;
    }

    lemma BeforePortal()
      requires CoreInv() && NoticeInv() && (!IsPortalState(state) || state.PortalRetry?)
      ensures LinkInv() && bootConnects == attemptCount <= BOOT_ATTEMPT_MAX && (!store.isReady ==> !hasStored)
      ensures trial == NO_CREDENTIALS && notified != PortalNotice
    {
      hide ServiceInv; hide AccessPointInv; hide DeadlineInv; hide LinkInv; hide Pair; hide HasFieldSizes;
    }

    lemma PortalIsValid()
      requires state.PortalIdle? || state.PortalRetry?
      requires LinkInv() && bootConnects == attemptCount <= BOOT_ATTEMPT_MAX && (!store.isReady ==> !hasStored)
      requires trial == NO_CREDENTIALS && target == None && !isHttpUp && !isMdnsUp && !isResponderUp
      requires state.PortalIdle? ==>
                 !hasDeadline && profile == PortalServer && isDnsUp && isApUp && notified == PortalNotice
      requires state.PortalRetry? ==>
                 && hasDeadline && deadlineMs == PORTAL_RETRY_MS && profile == NoServer && !isDnsUp
                 && (isApUp <==> wasApUp && hasApStopFailed) && notified != PortalNotice
      ensures Valid()
    {
      hide LinkInv; hide Pair; hide HasFieldSizes;
    }

    /** The portal is closed, and the access point is on only if its stop failed. */
    ghost predicate IsOutside()
      reads `profile, `isDnsUp, `isHttpUp, `isResponderUp, `isMdnsUp, `isApUp, `wasApUp, `hasApStopFailed
    {
      && !profile.PortalServer? && !isDnsUp && (profile.StationServer? <==> isHttpUp) && (isResponderUp <==> isMdnsUp)
      && (isApUp <==> hasApStopFailed) && (hasApStopFailed ==> wasApUp)
    }

    lemma StationKnown()
      requires BaseInv() && (state.Connected? || state.StaAttempt? || state.ReconnectWait? || state.ReconnectTry?)
      ensures IsOutside() && bootConnects == attemptCount <= BOOT_ATTEMPT_MAX && store.isReady
      ensures if state.StaAttempt? then store.ActivePair() == Some(stored) else store.ActivePair() == Some(active)
    {
      hide DeadlineInv; hide Pair; hide HasFieldSizes;
    }

    lemma ConnectedIsValid()
      requires state.Connected? && IsOutside() && LinkInv() && bootConnects == attemptCount <= BOOT_ATTEMPT_MAX
      requires store.isReady && store.ActivePair() == Some(active) && trial == NO_CREDENTIALS
      requires notified == ConnectedNotice && (target == Some(active) || target == None) && (hasDeadline ==> hasIp)
      ensures Valid()
    {
      hide LinkInv; hide Pair; hide HasFieldSizes; hide ReconnectDelay;
    }

    lemma WaitIsValid()
      requires state.ReconnectWait? && IsOutside() && LinkInv() && bootConnects == attemptCount <= BOOT_ATTEMPT_MAX
      requires store.isReady && store.ActivePair() == Some(active) && trial == NO_CREDENTIALS
      requires notified == DisconnectedNotice && (target == Some(active) || target == None)
      requires hasDeadline && deadlineMs == ReconnectDelay(failureCount)
      ensures Valid()
    {
      hide LinkInv; hide Pair; hide HasFieldSizes; hide ReconnectDelay;
    }

    lemma BeforeConnecting()
      requires !isDown && Valid() && IsConnecting(state)
      ensures BaseInv() && LinkInv() && trial == NO_CREDENTIALS
      ensures state.StaAttempt? || state.ReconnectWait? || state.ReconnectTry?
      ensures target == None || target == Some(if state.StaAttempt? then stored else active)
    {
      hide BaseInv; hide LinkInv; hide NoticeInv;
    }

    lemma BeforeReconnect()
      requires TrialInv() && TargetInv() && NoticeInv() && (state.Connected? || state.ReconnectTry?)
      ensures trial == NO_CREDENTIALS && (target == None || target == Some(active))
      ensures state.ReconnectTry? ==> notified == DisconnectedNotice
    {
    }

    lemma StaysValid()
      requires BaseInv() && ConnectedInv() && TrialInv() && LinkInv() && TargetInv() && NoticeInv()
      ensures Valid()
    {
      hide BaseInv; hide ConnectedInv; hide TrialInv; hide LinkInv; hide TargetInv; hide NoticeInv;
    }

    lemma BeforeServices()
      requires !isDown && Valid() && state.Connected?
      ensures LinkInv() && bootConnects == attemptCount <= BOOT_ATTEMPT_MAX && IsOutside()
      ensures store.isReady && store.ActivePair() == Some(active) && trial == NO_CREDENTIALS
      ensures notified == ConnectedNotice && (target == Some(active) || target == None)
    {
      hide DeadlineInv; hide LinkInv; hide Pair; hide HasFieldSizes;
    }

    lemma BeforeLeaving()
      requires !isDown && Valid() && state.PortalSuccess?
      ensures LinkInv() && bootConnects == attemptCount <= BOOT_ATTEMPT_MAX && !isHttpUp && !isMdnsUp && !isResponderUp
      ensures isApUp && store.isReady && store.ActivePair() == Some(active) && target == Some(active)
    {
      hide DeadlineInv; hide LinkInv; hide Pair; hide HasFieldSizes; hide TrialInv; hide NoticeInv;
    }

    lemma BeforeAttempt()
      requires CoreInv() && (state.StaPause? || (state.BootWait? && hasStored))
      ensures LinkInv() && trial == NO_CREDENTIALS && bootConnects == attemptCount < BOOT_ATTEMPT_MAX
      ensures hasStored && store.isReady && store.ActivePair() == Some(stored)
      ensures profile == NoServer && !isDnsUp && !isHttpUp && !isMdnsUp && !isResponderUp && !isApUp && !hasApStopFailed
    {
      hide DeadlineInv; hide LinkInv; hide Pair; hide HasFieldSizes;
    }

    lemma AttemptIsValid()
      requires state.StaAttempt? && LinkInv() && trial == NO_CREDENTIALS && notified == ConnectingNotice
      requires bootConnects == attemptCount <= BOOT_ATTEMPT_MAX && hasStored && store.isReady
      requires store.ActivePair() == Some(stored) && target == Some(stored)
      requires profile == NoServer && !isDnsUp && !isHttpUp && !isMdnsUp && !isResponderUp
      requires !isApUp && !hasApStopFailed
      requires hasDeadline && deadlineMs == ATTEMPT_TIMEOUT_MS
      ensures Valid()
    {
      hide LinkInv; hide Pair; hide HasFieldSizes;
    }

    /** Logs an input, and follows the link if it is a link event. */
    method NoteInput(input: Input)
      requires !isDown && Valid()
      modifies this`log, this`isAssociated
      ensures Valid() && log == old(log) + [input]
      ensures isAssociated == if input.Expired? then old(isAssociated)
                              else input.m.StaConnected? || (old(isAssociated) && !input.m.StaDisconnected?)
    {
      hide ServiceInv; hide AccessPointInv; hide AttemptInv; hide DeadlineInv; hide CredentialInv; hide ConnectedInv;
      hide TrialInv; hide TargetInv; hide NoticeInv; hide IsLinked;
      LinkExtends(log, input);
      log := log + [input];
      if input.Received? && input.m.StaConnected? {
        isAssociated := true;
      } else if input.Received? && input.m.StaDisconnected? {
        isAssociated := false;
      }
    }

    method SetState(s: State, timeoutMs: nat)
      modifies this`state, this`hasDeadline, this`deadlineMs
      ensures state == s && hasDeadline == (timeoutMs != 0) && deadlineMs == timeoutMs
    {
      state, hasDeadline, deadlineMs := s, timeoutMs != 0, timeoutMs;
    }

    // Services.

    method StopHttp()
      modifies this`profile
      ensures profile == NoServer
    {
      profile := NoServer;
    }

    method StartHttp(p: Profile, a: Answers) returns (ok: bool)
      modifies this`profile
      ensures ok == a.http && profile == if ok then p else NoServer
    {
      StopHttp();
      ok := a.http;
      profile := if ok then p else NoServer;
    }

    /** A failed stop leaves the access point as it was; its result is not looked at. */
    method StopPortalServices(a: Answers)
      modifies this`profile, this`isDnsUp, this`isApUp, this`hasApStopFailed, this`wasApUp
      ensures profile == NoServer && !isDnsUp
      ensures isApUp <==> old(isApUp) && !a.apStop
      ensures hasApStopFailed == !a.apStop && wasApUp == old(isApUp)
    {
      StopHttp();
      isDnsUp := false;
      wasApUp, hasApStopFailed := isApUp, !a.apStop;
      isApUp := isApUp && !a.apStop;
    }

    method StopStationServices()
      modifies this`profile, this`isResponderUp, this`isHttpUp, this`isMdnsUp
      ensures profile == NoServer && !isResponderUp && !isHttpUp && !isMdnsUp
    {
      isResponderUp := false;
      StopHttp();
      isHttpUp, isMdnsUp := false, false;
    }

    /** Starts whichever station service is down; a failure of one does not skip the other. */
    method StartMissingServices(a: Answers)
      requires IsOutside()
      modifies this`profile, this`isHttpUp, this`isMdnsUp, this`isResponderUp
      ensures IsOutside()
      ensures isHttpUp == (old(isHttpUp) || a.http) && isMdnsUp == (old(isMdnsUp) || a.mdns)
    {
      if !isHttpUp {
        isHttpUp := StartHttp(StationServer, a);
      }
      if !isMdnsUp {
        isMdnsUp := a.mdns;
        isResponderUp := isMdnsUp;
      }
    }

    /** Starts what is down and sets the deadline that fits; the portal profile is closed by then. */
    method StartStationServices(a: Answers)
      requires !isDown && Valid() && state.Connected? && hasIp
      modifies this`profile, this`isHttpUp, this`isMdnsUp, this`isResponderUp,
               this`state, this`hasDeadline, this`deadlineMs
      ensures !isDown && Valid() && state.Connected? && hasDeadline
      ensures deadlineMs == if isHttpUp && isMdnsUp then HOSTNAME_CHECK_DELAY_MS else SERVICE_RETRY_MS
      ensures isHttpUp == (old(isHttpUp) || a.http) && isMdnsUp == (old(isMdnsUp) || a.mdns)
    {
      hide ServiceInv; hide AccessPointInv; hide AttemptInv; hide DeadlineInv; hide CredentialInv; hide ConnectedInv;
      hide TrialInv; hide TargetInv; hide NoticeInv; hide LinkInv; hide BaseInv; hide CoreInv; hide Valid;
      hide StateDeadline; hide NoticeOf; hide Pair; hide Recoverable; hide IsLinked; hide IsOutside;
      BeforeServices();
      StartMissingServices(a);
      SetState(Connected, if isHttpUp && isMdnsUp then HOSTNAME_CHECK_DELAY_MS else SERVICE_RETRY_MS);
      ConnectedIsValid();
    }

    method EnterProvisioning(a: Answers)
      requires !isDown && CoreInv() && NoticeInv() && (!IsPortalState(state) || state.PortalRetry?)
      modifies this`profile, this`isResponderUp, this`isHttpUp, this`isMdnsUp, this`isDnsUp, this`isApUp, this`target,
               this`hasApStopFailed, this`wasApUp, this`hasIp, this`notified,
               this`state, this`hasDeadline, this`deadlineMs
      ensures !isDown && Valid() && state == Entered(a) && !hasIp && hasDeadline == state.PortalRetry?
    {
      hide *;
      BeforePortal();
      StopStationServices();
      hasIp, target := false, None;
      OpenPortal(a);
      PortalIsValid();
    }

    /** Starts the portal; a partial start is undone and retried later. */
    method OpenPortal(a: Answers)
      modifies this`profile, this`isDnsUp, this`isApUp, this`hasApStopFailed, this`wasApUp, this`notified,
               this`state, this`hasDeadline, this`deadlineMs
      ensures notified == if state.PortalIdle? then PortalNotice else old(notified)
      ensures state == Entered(a) && (state.PortalIdle? || state.PortalRetry?) && hasDeadline == state.PortalRetry?
      ensures deadlineMs == if state.PortalIdle? then 0 else PORTAL_RETRY_MS
      ensures state.PortalIdle? ==> profile == PortalServer && isDnsUp && isApUp
      ensures state.PortalRetry? ==> profile == NoServer && !isDnsUp && (isApUp <==> wasApUp && hasApStopFailed)
    {
      var isStarted := StartPortalServices(a);
      if !isStarted {
        StopPortalServices(a);
        SetState(PortalRetry, PORTAL_RETRY_MS);
        return;
      }
      SetState(PortalIdle, 0);
      notified := PortalNotice;
    }

    /** Access point, DNS and portal in this order; any of them may fail, and a failed start may leave the radio on. */
    method StartPortalServices(a: Answers) returns (ok: bool)
      modifies this`profile, this`isDnsUp, this`isApUp
      ensures ok == (a.apStart && a.dns && a.http)
      ensures ok ==> profile == PortalServer && isDnsUp && isApUp
    {
      isApUp := isApUp || a.apStart || a.isRadioOn;
      ok := a.apStart;
      if ok {
        isDnsUp := a.dns;
        ok := isDnsUp;
      }
      if ok {
        ok := StartHttp(PortalServer, a);
      }
    }

    method BeginReconnectWait()
      modifies this`state, this`hasDeadline, this`deadlineMs
      ensures state.ReconnectWait? && hasDeadline && deadlineMs == ReconnectDelay(failureCount)
    {
      var delay := GetWifiReconnectDelayMs(failureCount);
      SetState(ReconnectWait, delay);
    }

    /** The portal is closed before the station profile starts; the access point stays on exactly if its stop fails. */
    method LeaveProvisioning(a: Answers)
      requires !isDown && Valid() && state.PortalSuccess?
      modifies this`profile, this`isDnsUp, this`isApUp, this`hasApStopFailed, this`wasApUp, this`failureCount,
               this`trial, this`notified,
               this`isHttpUp, this`isMdnsUp, this`isResponderUp, this`state, this`hasDeadline, this`deadlineMs
      ensures !isDown && Valid() && failureCount == 0 && (isApUp <==> !a.apStop)
      ensures state == if isAssociated then Connected else ReconnectWait
      ensures isHttpUp == (isAssociated && hasIp && a.http) && isMdnsUp == (isAssociated && hasIp && a.mdns)
      ensures state.Connected? ==> hasDeadline == hasIp
    {
      hide ServiceInv; hide AccessPointInv; hide AttemptInv; hide DeadlineInv; hide CredentialInv; hide ConnectedInv;
      hide TrialInv; hide TargetInv; hide NoticeInv; hide LinkInv;
      ClosePortal(a);
      if state.Connected? && hasIp {
        StartStationServices(a);
      }
    }

    /** Stops the portal services and moves on to the station states. */
    method ClosePortal(a: Answers)
      requires !isDown && Valid() && state.PortalSuccess?
      modifies this`profile, this`isDnsUp, this`isApUp, this`hasApStopFailed, this`wasApUp, this`failureCount,
               this`trial, this`notified, this`state, this`hasDeadline, this`deadlineMs
      ensures !isDown && Valid() && failureCount == 0 && (isApUp <==> !a.apStop)
      ensures state == if isAssociated then Connected else ReconnectWait
      ensures !isDnsUp && profile == NoServer && !isHttpUp && !isMdnsUp && (state.Connected? ==> !hasDeadline)
    {
      hide *;
      BeforeLeaving();
      StopPortalServices(a);
      trial := NO_CREDENTIALS;
      NothingRuns();
      ResumeStation();
    }

    method ResumeStation()
      requires !isDown && IsOutside() && LinkInv() && bootConnects == attemptCount <= BOOT_ATTEMPT_MAX
      requires store.isReady && store.ActivePair() == Some(active) && target == Some(active) && trial == NO_CREDENTIALS
      modifies this`failureCount, this`notified, this`state, this`hasDeadline, this`deadlineMs
      ensures !isDown && Valid() && failureCount == 0
      ensures state == (if isAssociated then Connected else ReconnectWait) && (state.Connected? ==> !hasDeadline)
    {
      hide *;
      failureCount, notified := 0, if isAssociated then ConnectedNotice else DisconnectedNotice;
      if isAssociated {
        SetState(Connected, 0);
        ConnectedIsValid();
      } else {
        BeginReconnectWait();
        WaitIsValid();
      }
    }

    lemma NothingRuns()
      requires profile == NoServer && !isDnsUp && !isHttpUp && !isMdnsUp && !isResponderUp
      requires wasApUp && isApUp == hasApStopFailed
      ensures IsOutside()
    {
    }

    method FailTrial()
      requires !isDown && Valid() && state.PortalTrial?
      modifies this`target, this`trial, this`state, this`hasDeadline, this`deadlineMs
      ensures !isDown && Valid() && state.PortalIdle?
    {
      hide IsLinked;
      target := None;
      trial := NO_CREDENTIALS;
      SetState(PortalIdle, 0);
    }

    method StartBootAttempt()
      requires !isDown && CoreInv() && notified.ConnectingNotice? && (state.StaPause? || (state.BootWait? && hasStored))
      modifies this`attemptCount, this`bootConnects, this`target, this`state, this`hasDeadline, this`deadlineMs
      ensures !isDown && Valid() && state.StaAttempt? && attemptCount == old(attemptCount) + 1
    {
      hide ServiceInv; hide AccessPointInv; hide AttemptInv; hide DeadlineInv; hide CredentialInv; hide ConnectedInv;
      hide TrialInv; hide TargetInv; hide NoticeInv; hide LinkInv; hide BaseInv; hide CoreInv; hide Valid;
      hide Pair; hide HasFieldSizes; hide Recoverable; hide AreAcceptable; hide StateDeadline; hide IsLinked;
      BeforeAttempt();
      attemptCount, bootConnects, target := attemptCount + 1, bootConnects + 1, Some(stored);
      SetState(StaAttempt, ATTEMPT_TIMEOUT_MS);
      AttemptIsValid();
    }

    // Handlers.

    /** Whether a replacement by the pair on trial reports success. */
    predicate WillReplace(a: Answers)
      reads this, store
    {
      store.isReady && AreAcceptable(trial) && ReplaceReply(a.replace) == Success
    }

    /** The station has connected outside the portal; at boot with the stored pair, which is now in use. */
    method FinishConnecting()
      requires !isDown && Valid() && IsConnecting(state)
      modifies this`active, this`failureCount, this`notified, this`state, this`hasDeadline, this`deadlineMs
      ensures !isDown && Valid() && state.Connected? && failureCount == 0 && !hasDeadline
      ensures active == if old(state).StaAttempt? then stored else old(active)
    {
      hide *;
      BeforeConnecting();
      StationKnown();
      active := if state.StaAttempt? then stored else active;
      failureCount, notified := 0, ConnectedNotice;
      SetState(Connected, 0);
      ConnectedIsValid();
    }

    method HandleStationConnected(a: Answers)
      requires !isDown && Valid()
      modifies this`active, this`failureCount, this`target, this`trial, this`notified,
               this`state, this`hasDeadline, this`deadlineMs, this`isDown, store`records
      ensures Valid() && (!isDown ==> state == StateAfter(old(state), StaConnected, a, old(WillReplace(a))))
      ensures isDown ==> old(state).PortalTrial? && ReplaceReply(a.replace) == Cut
      ensures !isDown ==> failureCount == if IsConnecting(old(state)) then 0 else old(failureCount)
      ensures !isDown && IsConnecting(old(state)) ==> !hasDeadline
      ensures !isDown ==> active == (if old(state).StaAttempt? then stored
                                     else if old(state).PortalTrial? && state.PortalSuccess? then old(trial)
                                     else old(active))
    {
      hide ServiceInv; hide AccessPointInv; hide AttemptInv; hide DeadlineInv; hide CredentialInv; hide ConnectedInv;
      hide TrialInv; hide TargetInv; hide NoticeInv; hide LinkInv; hide Valid; hide CoreInv; hide BaseInv;
      hide Pair; hide AreAcceptable; hide HasFieldSizes; hide Recoverable; hide Replaced; hide ReplaceReply;
      if state.StaAttempt? || state.ReconnectWait? || state.ReconnectTry? {
        FinishConnecting();
      } else if state.PortalTrial? {
        FinishTrial(a);
      }
    }

    /** The station has connected with the pair on trial: keep it if it can be stored. */
    method FinishTrial(a: Answers)
      requires !isDown && Valid() && state.PortalTrial?
      modifies this`active, this`target, this`trial, this`state, this`hasDeadline, this`deadlineMs, this`isDown,
               store`records
      ensures Valid() && (!isDown ==> state == if old(WillReplace(a)) then PortalSuccess else PortalIdle)
      ensures isDown ==> ReplaceReply(a.replace) == Cut
      ensures !isDown ==> active == if state.PortalSuccess? then old(trial) else old(active)
    {
      hide IsLinked;
      hide Pair; hide AreAcceptable; hide HasFieldSizes; hide Recoverable; hide Replaced; hide ReplaceReply;
      var replaced := store.ReplaceCredentials(trial, a.replace);
      if replaced.PowerCut? {
        isDown := true;
      } else if replaced.value {
        active := trial;
        SetState(PortalSuccess, AP_SHUTDOWN_DELAY_MS);
      } else {
        FailTrial();
      }
    }

    method LoseAddress()
      requires !isDown && Valid()
      modifies this`hasIp
      ensures BaseInv() && TrialInv() && LinkInv() && TargetInv() && NoticeInv() && (ConnectedInv() || state.Connected?)
      ensures !hasIp
    {
      hide IsLinked;
      hasIp := false;
    }

    method HandleLinkLost()
      requires !isDown && Valid()
      modifies this`hasIp, this`failureCount, this`notified, this`state, this`hasDeadline, this`deadlineMs
      ensures !isDown && Valid() && !hasIp
      ensures state == if old(state).Connected? || old(state).ReconnectTry? then ReconnectWait else old(state)
      ensures failureCount == if old(state).Connected? then 0
                              else if old(state).ReconnectTry? then old(failureCount) + 1 else old(failureCount)
    {
      hide Valid; hide BaseInv; hide CoreInv; hide ServiceInv; hide AccessPointInv; hide AttemptInv; hide DeadlineInv;
      hide CredentialInv; hide ConnectedInv; hide TrialInv; hide TargetInv; hide NoticeInv; hide LinkInv;
      LoseAddress();
      HandleStationDisconnected();
    }

    /** The address is forgotten before the call, so a connected station may still carry a deadline. */
    method HandleStationDisconnected()
      requires !isDown && BaseInv() && TrialInv() && LinkInv() && TargetInv() && NoticeInv()
      requires ConnectedInv() || state.Connected?
      modifies this`failureCount, this`notified, this`state, this`hasDeadline, this`deadlineMs
      ensures !isDown && Valid()
      ensures state == if old(state).Connected? || old(state).ReconnectTry? then ReconnectWait else old(state)
      ensures failureCount == if old(state).Connected? then 0
                              else if old(state).ReconnectTry? then old(failureCount) + 1 else old(failureCount)
    {
      hide *;
      match state {
        case Connected =>
          StationKnown();
          BeforeReconnect();
          failureCount, notified := 0, DisconnectedNotice;
          BeginReconnectWait();
          WaitIsValid();
        case ReconnectTry =>
          StationKnown();
          BeforeReconnect();
          failureCount := failureCount + 1;
          BeginReconnectWait();
          WaitIsValid();
        case _ =>
          StaysValid();
      }
    }

    method HandleStationGotIp(a: Answers)
      requires !isDown && Valid()
      modifies this`hasIp, this`profile, this`isHttpUp, this`isMdnsUp, this`isResponderUp,
               this`state, this`hasDeadline, this`deadlineMs
      ensures !isDown && Valid() && hasIp && state == old(state)
      ensures state.Connected? ==>
                hasDeadline && isHttpUp == (old(isHttpUp) || a.http) && isMdnsUp == (old(isMdnsUp) || a.mdns)
    {
      hide Pair; hide AreAcceptable; hide HasFieldSizes; hide Recoverable;
      hasIp := true;
      if !state.Connected? {
        return;
      }
      if isHttpUp && isMdnsUp {
        SetState(Connected, HOSTNAME_CHECK_DELAY_MS);
      } else {
        StartStationServices(a);
      }
    }

    /** A failed flag write keeps the firmware running; otherwise everything stops and the device restarts. */
    method HandleUpdateRequest(a: Answers)
      requires !isDown && Valid()
      modifies this`profile, this`isResponderUp, this`isHttpUp, this`isMdnsUp, this`isDnsUp, this`isApUp,
               this`hasApStopFailed, this`wasApUp, this`target, this`isDown
      ensures Valid() && isDown == a.isFlagSet
      ensures isDown ==> profile == NoServer && !isDnsUp && !isResponderUp && (isApUp <==> old(isApUp) && !a.apStop)
      ensures isDown ==> target == None
      ensures !isDown ==> isHttpUp == old(isHttpUp) && isMdnsUp == old(isMdnsUp)
    {
      if !a.isFlagSet {
        return;
      }
      StopStationServices();
      StopPortalServices(a);
      target := None;
      isDown := true;
    }

    method StartTrial(c: Credentials)
      requires !isDown && Valid()
      modifies this`trial, this`target, this`state, this`hasDeadline, this`deadlineMs
      ensures !isDown && Valid() && state == if old(state).PortalIdle? then PortalTrial else old(state)
      ensures trial == if old(state).PortalIdle? then c else old(trial)
    {
      hide Pair; hide AreAcceptable; hide HasFieldSizes; hide Recoverable;
      if state.PortalIdle? {
        trial := c;
        target := Some(trial);
        SetState(PortalTrial, ATTEMPT_TIMEOUT_MS);
      }
    }

    method HandleButtonRequest(a: Answers)
      requires !isDown && Valid()
      modifies this`profile, this`isResponderUp, this`isHttpUp, this`isMdnsUp, this`isDnsUp, this`isApUp, this`target,
               this`hasApStopFailed, this`wasApUp, this`hasIp, this`notified,
               this`state, this`hasDeadline, this`deadlineMs
      ensures !isDown && Valid() && state == if IsPortalState(old(state)) then old(state) else Entered(a)
      ensures hasIp == (old(hasIp) && IsPortalState(old(state)))
    {
      hide ServiceInv; hide AccessPointInv; hide AttemptInv; hide DeadlineInv; hide CredentialInv; hide ConnectedInv;
      hide TrialInv; hide TargetInv; hide NoticeInv; hide LinkInv; hide BaseInv; hide CoreInv;
      if !IsPortalState(state) {
        EnterProvisioning(a);
      }
    }

    method HandleMessage(m: Message, a: Answers)
      requires !isDown && Valid()
      modifies this, store`records
      ensures Valid() && log == old(log) + [Received(m, a)] && store.isReady == old(store.isReady)
      ensures !isDown ==> state == StateAfter(old(state), m, a, old(WillReplace(a)))
      ensures isDown ==> (m.UpdateRequest? && a.isFlagSet) || (m.StaConnected? && ReplaceReply(a.replace) == Cut)
      ensures m.UpdateRequest? && a.isFlagSet ==> isDown
      // the link, the address, the pair in use and the failures go by the message alone
      ensures !isDown ==> isAssociated == (m.StaConnected? || (old(isAssociated) && !m.StaDisconnected?))
      ensures !isDown ==>
                hasIp == (m.StaGotIp? || (old(hasIp) && !m.StaDisconnected?
                                          && !(m.ButtonRequest? && !IsPortalState(old(state)))))
      ensures !isDown ==>
                active == (if m.StaConnected? && old(state).StaAttempt? then old(stored)
                           else if m.StaConnected? && old(state).PortalTrial? && state.PortalSuccess? then old(trial)
                           else old(active))
      ensures !isDown ==>
                failureCount == (if m.StaConnected? && IsConnecting(old(state)) then 0
                                 else if m.StaDisconnected? && old(state).Connected? then 0
                                 else if m.StaDisconnected? && old(state).ReconnectTry? then old(failureCount) + 1
                                 else old(failureCount))
      ensures !isDown && m.CredentialsSubmitted? && old(state).PortalIdle? ==> trial == m.credentials
      ensures hasStored == old(hasStored) && stored == old(stored) && attemptCount == old(attemptCount)
      // a lost link leaves the station services running; a new one waits for its address
      ensures !isDown && !m.ButtonRequest? && !m.StaGotIp? ==> isHttpUp == old(isHttpUp) && isMdnsUp == old(isMdnsUp)
      ensures !isDown && m.StaConnected? && IsConnecting(old(state)) ==> state.Connected? && !hasDeadline
      ensures !isDown && m.StaGotIp? && state.Connected? ==>
                hasDeadline && isHttpUp == (old(isHttpUp) || a.http) && isMdnsUp == (old(isMdnsUp) || a.mdns)
    {
      hide ServiceInv; hide AccessPointInv; hide AttemptInv; hide DeadlineInv; hide CredentialInv; hide ConnectedInv;
      hide TrialInv; hide TargetInv; hide NoticeInv; hide LinkInv; hide Valid; hide CoreInv; hide BaseInv;
      hide ReplaceReply; hide AreAcceptable; hide StateDeadline; hide NoticeOf; hide IsOutside; hide Pair;
      hide Recoverable; hide IsLinked;
      NoteInput(Received(m, a));
      match m {
        case ButtonRequest => HandleButtonRequest(a);
        case StaConnected => HandleStationConnected(a);
        case StaDisconnected => HandleLinkLost();
        case StaGotIp => HandleStationGotIp(a);
        case CredentialsSubmitted(c) => StartTrial(c);
        case UpdateRequest => HandleUpdateRequest(a);
        case TunerMessage =>
      }
    }

    method EndBootWait(a: Answers)
      requires !isDown && Valid() && state.BootWait?
      modifies this`profile, this`isResponderUp, this`isHttpUp, this`isMdnsUp, this`isDnsUp, this`isApUp, this`target,
               this`hasApStopFailed, this`wasApUp, this`hasIp, this`notified, this`attemptCount, this`bootConnects,
               this`state, this`hasDeadline, this`deadlineMs
      ensures !isDown && Valid()
      ensures if hasStored then state.StaAttempt? && attemptCount == old(attemptCount) + 1 && hasIp == old(hasIp)
              else && state == Entered(a) && !hasIp && attemptCount == old(attemptCount)
                   && hasDeadline == state.PortalRetry?
    {
      hide ServiceInv; hide AccessPointInv; hide AttemptInv; hide DeadlineInv; hide CredentialInv; hide ConnectedInv;
      hide TrialInv; hide TargetInv; hide NoticeInv; hide LinkInv;
      if hasStored {
        notified := ConnectingNotice;
        StartBootAttempt();
      } else {
        EnterProvisioning(a);
      }
    }

    method RetryBootAttempt()
      requires !isDown && Valid() && state.StaPause?
      modifies this`attemptCount, this`bootConnects, this`target, this`state, this`hasDeadline, this`deadlineMs
      ensures !isDown && Valid() && state.StaAttempt? && attemptCount == old(attemptCount) + 1
    {
      hide ServiceInv; hide AccessPointInv; hide AttemptInv; hide DeadlineInv; hide CredentialInv; hide ConnectedInv;
      hide TrialInv; hide TargetInv; hide LinkInv; hide BaseInv; hide CoreInv;
      StartBootAttempt();
    }

    method ExpireWhileBooting(a: Answers)
      requires !isDown && Valid() && IsBootState(state)
      modifies this`profile, this`isResponderUp, this`isHttpUp, this`isMdnsUp, this`isDnsUp, this`isApUp, this`target,
               this`hasApStopFailed, this`wasApUp, this`hasIp, this`notified, this`attemptCount, this`bootConnects,
               this`state, this`hasDeadline, this`deadlineMs
      ensures !isDown && Valid()
      ensures state == StateExpired(old(state), hasStored, old(attemptCount), isAssociated, a) && state != old(state)
      ensures hasIp == (old(hasIp) && !EntersPortal(old(state), hasStored, old(attemptCount)))
      ensures attemptCount == old(attemptCount) + if state.StaAttempt? then 1 else 0
    {
      hide ServiceInv; hide AccessPointInv; hide AttemptInv; hide DeadlineInv; hide CredentialInv; hide ConnectedInv;
      hide TrialInv; hide TargetInv; hide NoticeInv; hide LinkInv; hide BaseInv; hide CoreInv; hide Valid;
      hide StateDeadline; hide NoticeOf; hide Pair; hide Recoverable; hide IsLinked;
      match state {
        case BootWait => EndBootWait(a);
        case StaAttempt => FailBootAttempt(a);
        case StaPause => RetryBootAttempt();
      }
    }

    method RetryPortal(a: Answers)
      requires !isDown && Valid() && state.PortalRetry?
      modifies this`profile, this`isResponderUp, this`isHttpUp, this`isMdnsUp, this`isDnsUp, this`isApUp, this`target,
               this`hasApStopFailed, this`wasApUp, this`hasIp, this`notified,
               this`state, this`hasDeadline, this`deadlineMs
      ensures !isDown && Valid() && state == Entered(a) && !hasIp && hasDeadline == state.PortalRetry?
    {
      hide ServiceInv; hide AccessPointInv; hide AttemptInv; hide DeadlineInv; hide CredentialInv; hide ConnectedInv;
      hide TrialInv; hide TargetInv; hide NoticeInv; hide LinkInv; hide BaseInv; hide CoreInv;
      EnterProvisioning(a);
    }

    /** Drops the attempt; after the last one the portal opens. */
    method FailBootAttempt(a: Answers)
      requires !isDown && Valid() && state.StaAttempt?
      modifies this`profile, this`isResponderUp, this`isHttpUp, this`isMdnsUp, this`isDnsUp, this`isApUp, this`target,
               this`hasApStopFailed, this`wasApUp, this`hasIp, this`notified,
               this`state, this`hasDeadline, this`deadlineMs
      ensures !isDown && Valid()
      ensures if attemptCount < BOOT_ATTEMPT_MAX then state.StaPause? && hasDeadline && hasIp == old(hasIp)
              else state == Entered(a) && !hasIp && hasDeadline == state.PortalRetry?
    {
      hide Pair; hide AreAcceptable; hide HasFieldSizes; hide Recoverable; hide IsLinked;
      target := None;
      if attemptCount < BOOT_ATTEMPT_MAX {
        SetState(StaPause, ATTEMPT_PAUSE_MS);
      } else {
        EnterProvisioning(a);
      }
    }

    method TryReconnect()
      requires !isDown && Valid() && state.ReconnectWait?
      modifies this`target, this`state, this`hasDeadline, this`deadlineMs
      ensures !isDown && Valid() && state.ReconnectTry? && hasDeadline
    {
      hide Pair; hide AreAcceptable; hide HasFieldSizes; hide Recoverable;
      target := Some(active);
      SetState(ReconnectTry, ATTEMPT_TIMEOUT_MS);
    }

    method FailReconnect()
      requires !isDown && Valid() && state.ReconnectTry?
      modifies this`failureCount, this`target, this`state, this`hasDeadline, this`deadlineMs
      ensures !isDown && Valid() && state.ReconnectWait? && failureCount == old(failureCount) + 1 && target == None
    {
      hide Pair; hide AreAcceptable; hide HasFieldSizes; hide Recoverable; hide IsLinked;
      failureCount := failureCount + 1;
      target := None;
      BeginReconnectWait();
    }

    /** Retry a failed station service; with both up, the hostname check is all that was waited for. */
    method CheckServices(a: Answers)
      requires !isDown && Valid() && state.Connected? && hasDeadline
      modifies this`profile, this`isHttpUp, this`isMdnsUp, this`isResponderUp,
               this`state, this`hasDeadline, this`deadlineMs
      ensures !isDown && Valid() && state.Connected?
      ensures hasDeadline <==> !(old(isHttpUp) && old(isMdnsUp))
      ensures isHttpUp == (old(isHttpUp) || a.http) && isMdnsUp == (old(isMdnsUp) || a.mdns)
    {
      hide Pair; hide AreAcceptable; hide HasFieldSizes; hide Recoverable;
      if !(isHttpUp && isMdnsUp) && hasIp {
        StartStationServices(a);
      } else {
        SetState(Connected, 0);
      }
    }

    /**
     * Expiry of the deadline. A state that may not rest is left, or waits again; a connected station stops waiting
     * exactly when both its services are up.
     */
    method HandleTimeout(a: Answers)
      requires !isDown && Valid() && hasDeadline
      modifies this
      ensures !isDown && Valid() && log == old(log) + [Expired(a)]
      ensures state == StateExpired(old(state), old(hasStored), old(attemptCount), old(isAssociated), a)
      ensures !MayRest(old(state)) ==> state != old(state) || hasDeadline
      ensures old(state).Connected? ==> (hasDeadline <==> !(old(isHttpUp) && old(isMdnsUp)))
      ensures old(state).PortalSuccess? ==> (isApUp <==> !a.apStop)
      // the end of a successful trial leads to a station that is connected exactly if the last link event was a connect
      ensures old(state).PortalSuccess? ==> (state.Connected? <==> IsLinked(old(log)))
      ensures isAssociated == old(isAssociated) && active == old(active)
      ensures hasStored == old(hasStored) && stored == old(stored)
      ensures hasIp == (old(hasIp) && !EntersPortal(old(state), old(hasStored), old(attemptCount)))
      ensures failureCount == (if old(state).ReconnectTry? then old(failureCount) + 1
                               else if old(state).PortalSuccess? then 0 else old(failureCount))
      ensures attemptCount == old(attemptCount) + if state.StaAttempt? then 1 else 0
      ensures old(state).Connected? && old(hasIp) ==>
                isHttpUp == (old(isHttpUp) || a.http) && isMdnsUp == (old(isMdnsUp) || a.mdns)
    {
      hide ServiceInv; hide AccessPointInv; hide AttemptInv; hide DeadlineInv; hide CredentialInv; hide ConnectedInv;
      hide TrialInv; hide TargetInv; hide NoticeInv; hide LinkInv; hide Valid; hide CoreInv; hide BaseInv;
      hide IsLinked; hide StateDeadline; hide NoticeOf; hide IsOutside; hide Pair; hide Recoverable;
      LinkKnown();
      NoteInput(Expired(a));
      match state {
        case BootWait | StaAttempt | StaPause => ExpireWhileBooting(a);
        case ReconnectWait => TryReconnect();
        case ReconnectTry => FailReconnect();
        case PortalTrial => FailTrial();
        case PortalSuccess => LeaveProvisioning(a);
        case PortalRetry => RetryPortal(a);
        case Connected => CheckServices(a);
        case PortalIdle =>
      }
    }

    /** The state before the task runs. */
    constructor (store: Store)
      ensures this.store == store && Valid() && !isDown && log == []
      ensures state.BootWait? && bootConnects == 0 && !hasStored
    {
      this.store := store;
      state, hasDeadline, deadlineMs := BootWait, true, BOOT_BUTTON_WINDOW_MS;
      attemptCount, failureCount, isAssociated, hasStored, hasIp := 0, 0, false, false, false;
      isHttpUp, isMdnsUp, isApUp, isDnsUp, profile, isResponderUp := false, false, false, false, NoServer, false;
      isDown, hasApStopFailed, wasApUp, bootConnects, log := false, false, false, 0, [];
      stored, active, trial := NO_CREDENTIALS, NO_CREDENTIALS, NO_CREDENTIALS;
      target, notified := None, NoNotice;
    }

    /** ProvisioningStart(). A store that is not ready, or cannot be read, holds no pair. */
    method Start(init: InitAnswers, load: LoadAnswers)
      requires !isDown && Valid() && state.BootWait? && !hasStored
      modifies this`isDown, this`hasStored, this`stored, store
      ensures Valid() && store.records == Started(old(store.records), init) && store.isReady == init.isReady
      ensures !isDown ==>
                hasStored == (init.isReady && Then(load.open, load.read) == Success && store.ActivePair().Some?)
      ensures isDown ==> HasCut(init.recover) || Then(load.open, load.read).Cut?
    {
      hide Pair; hide AreAcceptable; hide HasFieldSizes; hide Recoverable; hide Started; hide HasCut; hide Then;
      var loaded := OpenStore(store, init, load);
      if loaded.PowerCut? {
        isDown := true;
      } else if loaded.value.Some? {
        hasStored, stored := true, loaded.value.value;
      }
    }
  }

  /** Recovers the store and loads the active pair; the result of the recovery is not looked at. */
  method OpenStore(store: Store, init: InitAnswers, load: LoadAnswers) returns (r: Op<Option<Credentials>>)
    modifies store
    ensures store.records == Started(old(store.records), init) && store.isReady == init.isReady
    ensures r.Done? ==>
              r.value == if init.isReady && Then(load.open, load.read) == Success then store.ActivePair() else None
    ensures r.PowerCut? ==> HasCut(init.recover) || Then(load.open, load.read).Cut?
  {
    var _ :- store.InitCredentialStore(init);
    r := store.LoadCredentials(load);
  }

  /**
   * Any run from any start: messages and expiries in any order with any answers. Every state reached satisfies the
   * invariants, for the run is arbitrary; it stops early when the device goes down.
   */
  method RunOrchestrator(store: Store, init: InitAnswers, load: LoadAnswers, inputs: seq<Input>)
      returns (o: Orchestrator)
    modifies store
    ensures fresh(o) && o.store == store && o.Valid()
    ensures !o.isDown ==> o.bootConnects <= BOOT_ATTEMPT_MAX
    ensures !init.isReady && !o.isDown ==> !o.hasStored && IsClosed(o.state)
    ensures !o.isDown ==> Messages(o.log) == Messages(inputs) && o.isAssociated == IsLinked(o.log)
  {
    hide IsLinked; hide Messages; hide Orchestrator.ServiceInv; hide Orchestrator.AccessPointInv; hide StateAfter;
    hide StateExpired; hide Started;
    o := new Orchestrator(store);
    o.Start(init, load);
    for i := 0 to |inputs|
      invariant fresh(o) && o.store == store && o.Valid() && store.isReady == init.isReady
      invariant !o.isDown ==> Messages(o.log) == Messages(inputs[..i])
    {
      if o.isDown {
        return;
      }
      MessagesExtend(o.log, inputs[i]);
      MessagesExtend(inputs[..i], inputs[i]);
      assert inputs[..i + 1] == inputs[..i] + [inputs[i]];
      match inputs[i] {
        case Received(m, a) => o.HandleMessage(m, a);
        case Expired(a) =>
          if o.hasDeadline {
            o.HandleTimeout(a);
          }
      }
    }
    assert inputs[..|inputs|] == inputs;
  }

  const ALL_READY: InitAnswers :=
    InitAnswers(true, RecoverAnswers(Success, Success, ALL_DONE, Change(true, Success), Success))

  const ALL_STARTED: Answers := Answers(true, true, true, true, true, true, true,
                                        ReplaceAnswers(Success, ALL_DONE, ALL_DONE, Change(true, Success), Success))

  /** The device enters provisioning, is given a network, connects to it and leaves; the access point's stop fails. */
  function FailedStopRun(c: Credentials): seq<Input> {
    [Expired(ALL_STARTED), Received(CredentialsSubmitted(c), ALL_STARTED), Received(StaConnected, ALL_STARTED),
     Expired(ALL_STARTED.(apStop := false))]
  }

  lemma AllAnswered()
    ensures ReplaceReply(ALL_STARTED.replace) == Success && !HasCut(ALL_READY.recover)
        && Then(Success, Success) == Success
    ensures Recovered(map[], ALL_READY.recover) == map[]
  {
  }

  /** A run that ends connected with the access point still on: the exception in AccessPointInv is reachable. */
  method AccessPointStaysOn(c: Credentials) returns (o: Orchestrator)
    requires AreAcceptable(c)
    ensures !o.isDown && o.Valid() && o.log == FailedStopRun(c)
    ensures o.state.Connected? && o.isApUp
  {
    hide AreAcceptable; hide HasFieldSizes; hide Recoverable; hide Recovered; hide ReplaceReply; hide HasCut; hide Then;
    hide Orchestrator.Valid; hide IsLinked;
    AllAnswered();
    var store := new Store();
    o := new Orchestrator(store);
    o.Start(ALL_READY, LoadAnswers(Success, Success));
    o.MustWait();
    o.HandleTimeout(ALL_STARTED);
    o.HandleMessage(CredentialsSubmitted(c), ALL_STARTED);
    o.HandleMessage(StaConnected, ALL_STARTED);
    o.MustWait();
    o.HandleTimeout(ALL_STARTED.(apStop := false));
  }
}
