/**
 * The kded export service (kded/service.cpp): an immutable service record
 * and one transition function per slot. The clock, the calendar day count,
 * the user's answer to the consent dialog, the reply's error code and what
 * the providers report are inputs; posting a request appends it to the
 * event log. The consent dialog runs a nested event loop, so init() is two
 * transitions: Init opens the dialog and Decide handles the answer, and
 * other events may be delivered in between.
 */
module Service {
  import opened Wrappers
  import opened Json
  import Config
  import Summary
  import Hardware
  import System

  const UINT_MOD: int := 0x1_0000_0000

  /** One week in milliseconds, an unsigned 32-bit constant in the source. */
  const ONE_WEEK: nat := 7 * 24 * 60 * 60 * 1000

  const EXPORT_URL: string := "http://developer.kde.org/~lukas/kanalytics/kanalytics.php"

  type Bytes = seq<bv8>

  /** QJsonDocument::toJson, which this model does not interpret. */
  type Encoder = Json -> Bytes

  /** The single QTimer: next timeout (ms since the epoch) and its repeat period (ms). */
  datatype Timer = Timer(deadline: int, period: nat)

  datatype Request = Request(url: string, contentType: string, contentLength: nat, userAgent: string, body: Bytes)

  /** What the service does that others can observe, in order. */
  datatype Event =
    | ConsentAsked              // the consent dialog was shown
    | ConfigSynced              // KConfigGroup::sync
    | Posted(request: Request)  // QNetworkAccessManager::post
    | ExportFinished(errorCode: nat)

  /** What the providers report when a snapshot is built. */
  datatype Environment = Environment(
    hardware: Hardware.Hardware,
    platform: Hardware.Platform,
    system: System.System,
    platformName: string,
    kde: Json)

  /** The three provider objects of one snapshot. */
  datatype Facts = Facts(hardware: Json, system: Json, kde: Json)

  /**
   * Hardware(), System() and KDE() constructed afresh and asked for their
   * JSON objects, as Summary::toJson does on every call.
   */
  function Gather(env: Environment): (f: Facts)
    ensures f.hardware.Keys() == Hardware.JsonKeys && f.system.Keys() == System.JsonKeys
    ensures f.kde == env.kde
  {
    Facts(Hardware.ToJson(env.hardware, env.platform), System.ToJson(env.system, env.platformName), env.kde)
  }

  datatype Service = Service(
    version: string,           // KANALYTICS_VERSION
    summary: Summary.Summary,
    config: Config.Store,
    timestamp: Option<int>,    // m_timestamp in epoch seconds; None is the invalid QDateTime
    haveUserApproval: bool,
    timer: Option<Timer>,
    dialogOpen: bool,          // init() is waiting in the consent dialog
    inFlight: nat,             // posted requests whose reply has not been handled
    events: seq<Event>)

  // ---------------------------------------------------------------------
  // Counting the log

  function PostCount(events: seq<Event>): nat {
    if |events| == 0 then 0
    else PostCount(events[..|events| - 1]) + (if events[|events| - 1].Posted? then 1 else 0)
  }

  function FinishedCount(events: seq<Event>): nat {
    if |events| == 0 then 0
    else FinishedCount(events[..|events| - 1]) + (if events[|events| - 1].ExportFinished? then 1 else 0)
  }

  lemma {:induction false} CountsAppend(a: seq<Event>, b: seq<Event>)
    ensures PostCount(a + b) == PostCount(a) + PostCount(b)
    ensures FinishedCount(a + b) == FinishedCount(a) + FinishedCount(b)
    decreases |b|
  {
    if |b| == 0 {
      assert a + b == a;
    } else {
      var b0 := b[..|b| - 1];
      CountsAppend(a, b0);
      assert (a + b)[..|a + b| - 1] == a + b0;
    }
  }

  /** Every posted request is either still in flight or has had exactly one exportFinished. */
  predicate Balanced(s: Service) {
    PostCount(s.events) == FinishedCount(s.events) + s.inFlight
  }

  // ---------------------------------------------------------------------
  // Construction and the interval arithmetic

  /**
   * KAnalyticsService's constructor: approval false, no timer, nothing
   * posted, and the Summary member loads or creates the identifier in the
   * same configuration.
   */
  function Create(version: string, cfg: Config.Store, generatedUuid: string): (s: Service)
    ensures !s.haveUserApproval && s.timer.None? && s.timestamp.None? && !s.dialogOpen
    ensures s.events == [] && s.inFlight == 0 && Balanced(s)
    ensures Config.Uuid in s.config
    ensures forall k :: k != Config.Uuid ==> (k in s.config <==> k in cfg)
    ensures forall k :: k != Config.Uuid && k in cfg ==> s.config[k] == cfg[k]
  {
    var loaded := Summary.Load(cfg, generatedUuid);
    Service(version, loaded.summary, loaded.config, None, false, None, false, 0, [])
  }

  /**
   * QDateTime::toTime_t in Qt 5: the seconds since the epoch when they fit
   * 0 .. 2^32 - 2, and (uint)-1 otherwise.
   */
  function TimeT(secs: int): (t: nat)
    ensures t < UINT_MOD
    ensures 0 <= secs < UINT_MOD - 1 ==> t == secs
  {
    if 0 <= secs < UINT_MOD - 1 then secs else UINT_MOD - 1
  }

  /**
   * The interval init() arms when the last export is not yet due, as
   * written: ONE_WEEK minus BOTH epoch values (times 1000) in unsigned
   * 32-bit arithmetic, then the minimum with ONE_WEEK.
   */
  function ResumeInterval(now: int, stamp: int): (interval: nat)
    ensures interval <= ONE_WEEK
  {
    var diff := (ONE_WEEK - TimeT(now) * 1000 - TimeT(stamp) * 1000) % UINT_MOD;
    if ONE_WEEK <= diff then ONE_WEEK else diff
  }

  /**
   * The interval the comment in init() describes: what is left of ONE_WEEK
   * since the last export, clamped to [0, ONE_WEEK].
   */
  function IntendedResumeInterval(now: int, stamp: int): (interval: nat)
    ensures interval <= ONE_WEEK
    ensures 0 <= now - stamp <= ONE_WEEK / 1000 ==> now * 1000 + interval == stamp * 1000 + ONE_WEEK
    ensures now - stamp > ONE_WEEK / 1000 ==> interval == 0
  {
    var remaining := ONE_WEEK - (now - stamp) * 1000;
    if remaining < 0 then 0 else if remaining > ONE_WEEK then ONE_WEEK else remaining
  }

  /**
   * The as-written interval does not measure a week from the last export:
   * six days after an export at 1400000000 it waits about 4.7 days instead
   * of one.
   */
  lemma ResumeIntervalIgnoresLastExport()
    ensures ResumeInterval(1400518400, 1400000000) == 405076992
    ensures IntendedResumeInterval(1400518400, 1400000000) == 86400000
  {
  }

  // ---------------------------------------------------------------------
  // Slots

  function UserAgent(version: string): string {
    "KAnalytics/" + version
  }

  /** Summary::toJson over the provider objects built for this call. */
  function Snapshot(s: Service, facts: Facts): Json {
    Summary.ToJson(s.summary, facts.hardware, facts.system, facts.kde)
  }

  /**
   * exportData(): posts one JSON request unconditionally. Nothing else of
   * the service changes: no approval check, no in-flight check, no timer
   * change, no config write.
   */
  function ExportData(s: Service, facts: Facts, encode: Encoder): (r: Service)
    ensures |r.events| == |s.events| + 1 && r.events[..|s.events|] == s.events
    ensures r.events[|s.events|].Posted?
    ensures var req := r.events[|s.events|].request;
            && req.url == EXPORT_URL
            && req.contentType == "application/json"
            && req.contentLength == |req.body|
            && req.userAgent == "KAnalytics/" + s.version
    ensures r.inFlight == s.inFlight + 1
    ensures && r.version == s.version && r.summary == s.summary && r.config == s.config
            && r.timestamp == s.timestamp && r.haveUserApproval == s.haveUserApproval && r.timer == s.timer
            && r.dialogOpen == s.dialogOpen
    ensures PostCount(r.events) == PostCount(s.events) + 1
    ensures FinishedCount(r.events) == FinishedCount(s.events)
    ensures Balanced(s) ==> Balanced(r)
  {
    var body := encode(Snapshot(s, facts));
    var req := Request(EXPORT_URL, "application/json", |body|, UserAgent(s.version), body);
    var events := s.events + [Posted(req)];
    assert events[..|s.events|] == s.events;
    s.(inFlight := s.inFlight + 1, events := events)
  }

  /**
   * The posted body is the encoded snapshot. When the provider objects are
   * built afresh from the environment, as every delivered event does (see
   * Apply), the snapshot carries the service's identifier under "uuid" and
   * the full hardware and system objects reporting that environment.
   */
  lemma ExportCarriesSnapshot(s: Service, env: Environment, encode: Encoder)
    ensures var req := ExportData(s, Gather(env), encode).events[|s.events|].request;
            && req.body == encode(Snapshot(s, Gather(env)))
            && req.contentLength == |encode(Snapshot(s, Gather(env)))|
    ensures var snap := Snapshot(s, Gather(env));
            && snap.JObject? && snap.Keys() == Summary.JsonKeys
            && snap.fields["uuid"] == JString(Uuid(s))
            && snap.fields["hardware"].Keys() == Hardware.JsonKeys
            && snap.fields["hardware"].fields["hdd"] == JBool(env.hardware.drives.hasHdd)
            && snap.fields["hardware"].fields["ssd"] == JBool(env.hardware.drives.hasSsd)
            && snap.fields["system"].Keys() == System.JsonKeys
            && snap.fields["system"].fields["distroName"] == JString(System.DistroName(env.system))
            && snap.fields["KDE"] == env.kde
  {
    var facts := Gather(env);
    assert facts.hardware == Hardware.ToJson(env.hardware, env.platform);
    assert facts.system == System.ToJson(env.system, env.platformName);
  }

  /**
   * exportData() is unconditional: the request it posts is the same whatever
   * the approval flag, the number of requests in flight and the timer.
   */
  lemma ExportIgnoresApprovalAndInFlight(
    s: Service, approval: bool, inFlight: nat, timer: Option<Timer>, facts: Facts, encode: Encoder)
    ensures var t := s.(haveUserApproval := approval, inFlight := inFlight, timer := timer);
            ExportData(t, facts, encode).events[|s.events|] == ExportData(s, facts, encode).events[|s.events|]
  {
  }

  /** A second exportData() while a request is in flight posts a second request. */
  lemma NoInFlightGuard(s: Service, facts: Facts, encode: Encoder)
    requires s.inFlight > 0
    ensures ExportData(s, facts, encode).inFlight >= 2
    ensures PostCount(ExportData(s, facts, encode).events) == PostCount(s.events) + 1
  {
  }

  /**
   * init() up to the consent dialog: read Timestamp and UserApproval; with
   * approval export now when no export happened or it is more than 7
   * calendar days old (the day count is the input `daysSinceStamp`),
   * otherwise arm the timer; without the key open the consent dialog; with a
   * stored false do nothing. The QTimer is new, so no timer is armed unless
   * init() arms it.
   */
  function Init(s: Service, now: int, daysSinceStamp: int, facts: Facts, encode: Encoder): (r: Service)
    ensures r.config == s.config
    ensures r.dialogOpen <==> Config.UserApproval !in s.config
    ensures |r.events| >= |s.events| && r.events[..|s.events|] == s.events
    ensures ConsentAsked in r.events[|s.events|..] <==> r.dialogOpen
    ensures r.haveUserApproval == Config.ReadBool(s.config, Config.UserApproval, false)
    ensures r.timestamp == Config.ReadTime(s.config, Config.Timestamp)
    ensures r.timer.Some? ==> && r.haveUserApproval
                              && r.timer.value.period <= ONE_WEEK
                              && r.timer.value.deadline == now * 1000 + r.timer.value.period
    ensures PostCount(r.events) <= PostCount(s.events) + 1
    ensures PostCount(r.events) == PostCount(s.events) + 1 ==> r.haveUserApproval
    ensures FinishedCount(r.events) == FinishedCount(s.events)
    ensures Balanced(s) ==> Balanced(r)
    ensures r.summary == s.summary && r.version == s.version
  {
    var stamp := Config.ReadTime(s.config, Config.Timestamp);
    var approval := Config.ReadBool(s.config, Config.UserApproval, false);
    var loaded := s.(timestamp := stamp, haveUserApproval := approval, timer := None, dialogOpen := false);
    assert loaded.events[|s.events|..] == [];
    if approval then
      if stamp.None? || daysSinceStamp > 7 then
        var r := ExportData(loaded, facts, encode);
        assert r.events[|s.events|..] == [r.events[|s.events|]];
        r
      else
        var interval := ResumeInterval(now, stamp.value);
        loaded.(timer := Some(Timer(now * 1000 + interval, interval)))
    else if Config.UserApproval !in s.config then
      CountsAppend(s.events, [ConsentAsked]);
      assert PostCount([ConsentAsked]) == 0 && FinishedCount([ConsentAsked]) == 0 by {
        assert [ConsentAsked][..0] == [];
      }
      var r := loaded.(dialogOpen := true, events := s.events + [ConsentAsked]);
      assert r.events[|s.events|..] == [ConsentAsked];
      r
    else
      loaded
  }

  /**
   * The rest of init() once the consent dialog returns: store the answer and
   * sync; on "Yes" set the approval flag and export, on "No" leave the flag
   * as it is. The timer is not touched.
   */
  function Decide(s: Service, userAgrees: bool, facts: Facts, encode: Encoder): (r: Service)
    requires s.dialogOpen
    ensures !r.dialogOpen
    ensures r.config == s.config[Config.UserApproval := Config.BoolValue(userAgrees)]
    ensures r.haveUserApproval == (userAgrees || s.haveUserApproval)
    ensures r.timer == s.timer && r.timestamp == s.timestamp
    ensures userAgrees ==> && |r.events| == |s.events| + 2
                           && r.events[..|s.events| + 1] == s.events + [ConfigSynced]
                           && r.events[|s.events| + 1].Posted?
                           && r.inFlight == s.inFlight + 1
    ensures !userAgrees ==> r.events == s.events + [ConfigSynced] && r.inFlight == s.inFlight
    ensures FinishedCount(r.events) == FinishedCount(s.events)
    ensures Balanced(s) ==> Balanced(r)
    ensures r.summary == s.summary && r.version == s.version
  {
    CountsAppend(s.events, [ConfigSynced]);
    assert PostCount([ConfigSynced]) == 0 && FinishedCount([ConfigSynced]) == 0 by {
      assert [ConfigSynced][..0] == [];
    }
    var decided := s.(
      dialogOpen := false,
      haveUserApproval := userAgrees || s.haveUserApproval,
      config := s.config[Config.UserApproval := Config.BoolValue(userAgrees)],
      events := s.events + [ConfigSynced]);
    if userAgrees then ExportData(decided, facts, encode) else decided
  }

  /** With approval and no export yet, or one more than 7 days old, init() posts at once and arms no timer. */
  lemma InitExportsWhenDue(s: Service, now: int, days: int, facts: Facts, encode: Encoder)
    requires Config.ReadBool(s.config, Config.UserApproval, false)
    requires Config.ReadTime(s.config, Config.Timestamp).None? || days > 7
    ensures var r := Init(s, now, days, facts, encode);
            && r.timer.None? && r.haveUserApproval && r.config == s.config && !r.dialogOpen
            && |r.events| == |s.events| + 1 && r.events[..|s.events|] == s.events
            && r.events[|s.events|].Posted? && r.inFlight == s.inFlight + 1
  {
  }

  /**
   * With approval and an export at most 7 days old, init() posts nothing and
   * arms the timer with the as-written interval, never more than ONE_WEEK.
   */
  lemma InitSchedulesWhenNotDue(s: Service, now: int, days: int, facts: Facts, encode: Encoder)
    requires Config.ReadBool(s.config, Config.UserApproval, false)
    requires Config.ReadTime(s.config, Config.Timestamp).Some? && days <= 7
    ensures var r := Init(s, now, days, facts, encode);
            var interval := ResumeInterval(now, Config.ReadTime(s.config, Config.Timestamp).value);
            && r.timer == Some(Timer(now * 1000 + interval, interval))
            && 0 <= interval <= ONE_WEEK
            && r.events == s.events && r.inFlight == s.inFlight && r.config == s.config
  {
  }

  /** A stored refusal: init() posts nothing, arms nothing, asks nothing and writes nothing. */
  lemma InitRefusedStaysQuiet(s: Service, now: int, days: int, facts: Facts, encode: Encoder)
    requires Config.UserApproval in s.config
    requires !Config.ReadBool(s.config, Config.UserApproval, false)
    ensures var r := Init(s, now, days, facts, encode);
            && !r.haveUserApproval && r.timer.None? && r.events == s.events && !r.dialogOpen
            && r.config == s.config && r.inFlight == s.inFlight
  {
  }

  /**
   * No stored decision: init() opens the dialog; when the answer comes with
   * nothing delivered in between, it is stored and synced, and a "Yes" then
   * posts while a "No" posts nothing.
   */
  lemma InitAsksWhenUndecided(s: Service, now: int, days: int, userAgrees: bool, facts: Facts, encode: Encoder)
    requires Config.UserApproval !in s.config
    ensures var r := Init(s, now, days, facts, encode);
            && r.dialogOpen && r.events == s.events + [ConsentAsked]
            && r.config == s.config && !r.haveUserApproval && r.timer.None? && r.inFlight == s.inFlight
    ensures var d := Decide(Init(s, now, days, facts, encode), userAgrees, facts, encode);
            && d.config == s.config[Config.UserApproval := Config.BoolValue(userAgrees)]
            && d.haveUserApproval == userAgrees
            && d.timer.None?
            && d.events[..|s.events| + 2] == s.events + [ConsentAsked, ConfigSynced]
            && (userAgrees ==> |d.events| == |s.events| + 3 && d.events[|s.events| + 2].Posted?)
            && (!userAgrees ==> d.events == s.events + [ConsentAsked, ConfigSynced])
  {
    var r := Init(s, now, days, facts, encode);
    assert r.events + [ConfigSynced] == s.events + [ConsentAsked, ConfigSynced];
  }

  /**
   * What init() leaves behind once any dialog it opened has been answered:
   * a stored decision, and an approval flag that agrees with it.
   */
  function Settled(s: Service, now: int, days: int, userAgrees: bool, facts: Facts, encode: Encoder): (r: Service)
    ensures !r.dialogOpen
    ensures Config.UserApproval in r.config
    ensures r.haveUserApproval == Config.ReadBool(r.config, Config.UserApproval, false)
  {
    var r := Init(s, now, days, facts, encode);
    if r.dialogOpen then Decide(r, userAgrees, facts, encode) else r
  }

  /**
   * The decision is asked for at most once per configuration: after any
   * init() and its answer, a restarted service (constructed anew on the
   * saved configuration) opens no dialog and has the same approval.
   */
  lemma ConsentAskedOnce(
    s: Service, now: int, days: int, userAgrees: bool, facts: Facts, encode: Encoder,
    generatedUuid: string, now2: int, days2: int, facts2: Facts)
    ensures var r := Settled(s, now, days, userAgrees, facts, encode);
            var restarted := Init(Create(s.version, r.config, generatedUuid), now2, days2, facts2, encode);
            && !restarted.dialogOpen
            && ConsentAsked !in restarted.events
            && restarted.haveUserApproval == r.haveUserApproval
  {
    var r := Settled(s, now, days, userAgrees, facts, encode);
    var reborn := Create(s.version, r.config, generatedUuid);
    assert reborn.config[Config.UserApproval] == r.config[Config.UserApproval];
    var restarted := Init(reborn, now2, days2, facts2, encode);
    assert restarted.events[|reborn.events|..] == restarted.events;
  }

  /**
   * replyFinished(): on success (error code 0) record now as the timestamp,
   * write Timestamp and LastSeenPlasmaVersion and sync; on any error leave
   * timestamp and config alone. Either way restart the timer for ONE_WEEK
   * and then emit exportFinished with the reply's error code.
   */
  function ReplyFinished(s: Service, now: int, errorCode: nat, plasmaVersion: string): (r: Service)
    requires s.inFlight > 0
    ensures r.timer == Some(Timer(now * 1000 + ONE_WEEK, ONE_WEEK))
    ensures r.inFlight == s.inFlight - 1
    ensures errorCode == 0 ==>
      && r.timestamp == Some(now)
      && r.config == s.config[Config.Timestamp := Config.TimeValue(now)]
                             [Config.LastSeenPlasmaVersion := Config.TextValue(plasmaVersion)]
      && r.events == s.events + [ConfigSynced, ExportFinished(0)]
    ensures errorCode != 0 ==>
      && r.timestamp == s.timestamp
      && r.config == s.config
      && r.events == s.events + [ExportFinished(errorCode)]
    ensures r.haveUserApproval == s.haveUserApproval && r.summary == s.summary && r.version == s.version
    ensures r.dialogOpen == s.dialogOpen
    ensures PostCount(r.events) == PostCount(s.events)
    ensures FinishedCount(r.events) == FinishedCount(s.events) + 1
    ensures Balanced(s) ==> Balanced(r)
  {
    var saved :=
      if errorCode == 0 then
        s.(timestamp := Some(now),
           config := s.config[Config.Timestamp := Config.TimeValue(now)]
                             [Config.LastSeenPlasmaVersion := Config.TextValue(plasmaVersion)],
           events := s.events + [ConfigSynced])
      else s;
    var tail := if errorCode == 0 then [ConfigSynced, ExportFinished(errorCode)] else [ExportFinished(errorCode)];
    assert saved.events + [ExportFinished(errorCode)] == s.events + tail;
    CountsAppend(s.events, tail);
    assert PostCount(tail) == 0 && FinishedCount(tail) == 1 by {
      if errorCode == 0 {
        assert tail[..1] == [ConfigSynced];
        assert [ConfigSynced][..0] == [];
      } else {
        assert tail[..0] == [];
      }
    }
    saved.(timer := Some(Timer(now * 1000 + ONE_WEEK, ONE_WEEK)),
           inFlight := s.inFlight - 1,
           events := saved.events + [ExportFinished(errorCode)])
  }

  /**
   * The timer's timeout, connected to exportData(). The QTimer repeats, so
   * it stays armed with the same period.
   */
  function Timeout(s: Service, now: int, facts: Facts, encode: Encoder): (r: Service)
    requires s.timer.Some?
    ensures r.timer == Some(Timer(now * 1000 + s.timer.value.period, s.timer.value.period))
    ensures |r.events| == |s.events| + 1 && r.events[..|s.events|] == s.events && r.events[|s.events|].Posted?
    ensures r.inFlight == s.inFlight + 1
    ensures r.config == s.config && r.timestamp == s.timestamp && r.haveUserApproval == s.haveUserApproval
    ensures r.dialogOpen == s.dialogOpen
    ensures r.summary == s.summary && r.version == s.version
    ensures Balanced(s) ==> Balanced(r)
  {
    var period := s.timer.value.period;
    var armed := s.(timer := Some(Timer(now * 1000 + period, period)));
    assert Balanced(s) ==> Balanced(armed);
    ExportData(armed, facts, encode)
  }

  /**
   * Starting from a fresh service at T0 with approval and no export yet:
   * one request is posted at once, and a successful reply records T0 and
   * arms the next export one week later.
   */
  lemma FirstExportSucceeds(s: Service, t0: int, days: int, facts: Facts, encode: Encoder,
                            plasmaVersion: string)
    requires s.events == [] && s.inFlight == 0
    requires Config.ReadBool(s.config, Config.UserApproval, false)
    requires Config.ReadTime(s.config, Config.Timestamp).None?
    requires 0 <= t0 < UINT_MOD - 1
    ensures var started := Init(s, t0, days, facts, encode);
            && started.inFlight == 1
            && var done := ReplyFinished(started, t0, 0, plasmaVersion);
               && Timestamp(done) == t0
               && done.timer == Some(Timer(t0 * 1000 + ONE_WEEK, ONE_WEEK))
               && Config.ReadTime(done.config, Config.Timestamp) == Some(t0)
               && done.events[1..] == [ConfigSynced, ExportFinished(0)]
  {
  }

  /** A failed reply changes nothing persisted, yet still waits a full week before the next attempt. */
  lemma FailureKeepsScheduleAndState(s: Service, now: int, errorCode: nat, plasmaVersion: string)
    requires s.inFlight > 0 && errorCode != 0
    ensures var r := ReplyFinished(s, now, errorCode, plasmaVersion);
            && Timestamp(r) == Timestamp(s) && r.config == s.config
            && r.timer.value.deadline == now * 1000 + ONE_WEEK
            && ConfigSynced !in r.events[|s.events|..]
  {
  }

  /**
   * The consent dialog does not hold other events back. An exportData() call
   * and its successful reply delivered while the dialog is open arm the
   * weekly timer; a "No" then stores the refusal but leaves the timer armed,
   * so the next timeout posts again.
   */
  lemma RefusalDuringDialogKeepsTimer(
    s: Service, now: int, days: int, facts: Facts, encode: Encoder, plasmaVersion: string, later: int)
    requires Config.UserApproval !in s.config
    ensures var replied := ReplyFinished(ExportData(Init(s, now, days, facts, encode), facts, encode),
                                         now, 0, plasmaVersion);
            replied.dialogOpen
    ensures var replied := ReplyFinished(ExportData(Init(s, now, days, facts, encode), facts, encode),
                                         now, 0, plasmaVersion);
            var refused := Decide(replied, false, facts, encode);
            && refused.config[Config.UserApproval] == Config.BoolValue(false)
            && !refused.haveUserApproval
            && refused.timer == Some(Timer(now * 1000 + ONE_WEEK, ONE_WEEK))
            && PostCount(Timeout(refused, later, facts, encode).events) == PostCount(refused.events) + 1
  {
  }

  // ---------------------------------------------------------------------
  // Runs

  /** The events the Qt event loop can deliver to the service. */
  datatype Step =
    | Start(now: int, days: int, env: Environment)              // moduleRegistered -> init()
    | Answer(userAgrees: bool, env: Environment)                // the consent dialog returns
    | CallExport(env: Environment)                              // exportData() over D-Bus
    | Tick(now: int, env: Environment)                          // timer timeout
    | Reply(now: int, errorCode: nat, plasmaVersion: string)    // QNetworkAccessManager::finished

  /**
   * One delivered event; a snapshot taken while handling it is built from
   * the environment of that moment. An answer without an open dialog, a
   * timeout without a timer or before its deadline, or a reply with nothing
   * posted cannot occur and changes nothing.
   */
  function Apply(s: Service, step: Step, encode: Encoder): Service {
    match step
    case Start(now, days, env) => Init(s, now, days, Gather(env), encode)
    case Answer(userAgrees, env) => if s.dialogOpen then Decide(s, userAgrees, Gather(env), encode) else s
    case CallExport(env) => ExportData(s, Gather(env), encode)
    case Tick(now, env) =>
      if s.timer.Some? && now * 1000 >= s.timer.value.deadline then Timeout(s, now, Gather(env), encode) else s
    case Reply(now, code, plasmaVersion) => if s.inFlight > 0 then ReplyFinished(s, now, code, plasmaVersion) else s
  }

  function Run(s: Service, steps: seq<Step>, encode: Encoder): Service
    decreases |steps|
  {
    if |steps| == 0 then s else Run(Apply(s, steps[0], encode), steps[1..], encode)
  }

  /**
   * Along every run from a balanced state, such as a newly constructed
   * service (see Create), each posted request
   * is either in flight or has had exactly one exportFinished, so no
   * exportFinished is ever emitted without a request.
   */
  lemma {:induction false} RunKeepsBalance(s: Service, steps: seq<Step>, encode: Encoder)
    requires Balanced(s)
    ensures Balanced(Run(s, steps, encode))
    ensures FinishedCount(Run(s, steps, encode).events) <= PostCount(Run(s, steps, encode).events)
    decreases |steps|
  {
    if |steps| > 0 {
      RunKeepsBalance(Apply(s, steps[0], encode), steps[1..], encode);
    }
  }

  /**
   * No event replaces the Summary member or the version, so uuid() returns
   * the identifier fixed at construction for the service's whole lifetime.
   */
  lemma {:induction false} RunKeepsUuid(s: Service, steps: seq<Step>, encode: Encoder)
    ensures Uuid(Run(s, steps, encode)) == Uuid(s)
    ensures Version(Run(s, steps, encode)) == Version(s)
    decreases |steps|
  {
    if |steps| > 0 {
      RunKeepsUuid(Apply(s, steps[0], encode), steps[1..], encode);
    }
  }

  /** Only init() changes the approval flag: any run without a Start or Answer step keeps it. */
  lemma {:induction false} ApprovalOnlyFromInit(s: Service, steps: seq<Step>, encode: Encoder)
    requires forall i :: 0 <= i < |steps| ==> !steps[i].Start? && !steps[i].Answer?
    ensures Run(s, steps, encode).haveUserApproval == s.haveUserApproval
    ensures Run(s, steps, encode).config.Keys >= s.config.Keys
    decreases |steps|
  {
    if |steps| > 0 {
      ApprovalOnlyFromInit(Apply(s, steps[0], encode), steps[1..], encode);
    }
  }

  // ---------------------------------------------------------------------
  // D-Bus accessors

  function Version(s: Service): string {
    s.version
  }

  function Uuid(s: Service): string {
    Summary.UserUuid(s.summary)
  }

  /** timestamp(): m_timestamp.toTime_t(), which is (uint)-1 for the invalid date-time. */
  function Timestamp(s: Service): (t: nat)
    ensures t < UINT_MOD
    ensures s.timestamp.None? ==> t == UINT_MOD - 1
    ensures s.timestamp.Some? && 0 <= s.timestamp.value < UINT_MOD - 1 ==> t == s.timestamp.value
  {
    if s.timestamp.Some? then TimeT(s.timestamp.value) else UINT_MOD - 1
  }

  function HaveUserApproval(s: Service): bool {
    s.haveUserApproval
  }
}
