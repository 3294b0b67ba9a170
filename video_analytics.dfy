/**
 * The player's `VideoAnalytics` tracker: its options, the metrics it keeps, and the event
 * handlers that update them in place. The clock (`performance.now()`), the wall-clock
 * timestamps and the video element's properties are parameters of the handlers.
 */
module Analytics {
  import opened Wrappers
  import opened JsValues

  // ---------------------------------------------------------------- options

  /** The defaults the constructor falls back to. */
  const AnalyticsDefaults: JsObject :=
    map["sampleInterval" := JsNumber(5000), "reportEndpoint" := JsNull, "debugMode" := JsBool(false)]

  /**
   * `{sampleInterval: options.sampleInterval || 5000, reportEndpoint: options.reportEndpoint || null,
   * debugMode: options.debugMode || false, ...options}`: the three named options and every
   * caller option, with the caller's value wherever it gave one.
   */
  function AnalyticsOptions(options: JsObject): (o: JsObject)
    ensures o.Keys == AnalyticsDefaults.Keys + options.Keys
    ensures forall k :: k in options ==> o[k] == options[k]
  {
    Spread(map["sampleInterval" := Or(Get(options, "sampleInterval"), JsNumber(5000)),
               "reportEndpoint" := Or(Get(options, "reportEndpoint"), JsNull),
               "debugMode" := Or(Get(options, "debugMode"), JsBool(false))],
           options)
  }

  /**
   * The trailing spread makes the `||` fallbacks irrelevant: the options are exactly the defaults
   * overridden by whatever the caller passed, so a falsy caller value such as `sampleInterval: 0`
   * is kept rather than replaced by the default.
   */
  lemma AnalyticsOptionsAreSpread(options: JsObject)
    ensures AnalyticsOptions(options) == Spread(AnalyticsDefaults, options)
    ensures "sampleInterval" in options ==> AnalyticsOptions(options)["sampleInterval"] == options["sampleInterval"]
  {
    var got, want := AnalyticsOptions(options), Spread(AnalyticsDefaults, options);
    assert got.Keys == want.Keys;
    forall k | k in got
      ensures got[k] == want[k]
    {
      if k !in options {
        assert Get(options, k) == JsUndefined;
      }
    }
  }

  // ---------------------------------------------------------------- errors

  /** `video.error`: a media error code and message. */
  datatype MediaError = MediaError(code: int, message: string)

  /** The `code` of an error record: the media error code, or the string `'unknown'`. */
  datatype ErrorCode = MediaCode(n: int) | UnknownCode

  /** One entry of `metrics.playbackErrors`. */
  datatype ErrorInfo = ErrorInfo(code: ErrorCode, message: string, timestamp: string)

  /** The record `onError` builds from `video.error` and `new Date().toISOString()`. */
  function ErrorInfoOf(error: Option<MediaError>, timestamp: string): (info: ErrorInfo)
    ensures error.None? ==> info.code == UnknownCode && info.message == "unknown error"
    ensures error.Some? ==> info.code == MediaCode(error.value.code) && info.message == error.value.message
    ensures info.timestamp == timestamp
  {
    match error
    case None => ErrorInfo(UnknownCode, "unknown error", timestamp)
    case Some(e) => ErrorInfo(MediaCode(e.code), e.message, timestamp)
  }

  // ---------------------------------------------------------------- buffering

  /** The buffering bookkeeping: the flag, when the current stall began, and the two metrics. */
  datatype Buffering = Buffering(isBuffering: bool, startTime: Option<real>, events: int, duration: real)

  /**
   * `onBufferingStart` (the `waiting` event) at clock reading `now`: afterwards a stall is open;
   * only the first event of a stall counts it and records its start, and the total duration is
   * not touched.
   */
  function StartBuffering(b: Buffering, now: real): (r: Buffering)
    ensures r.isBuffering && r.duration == b.duration
    ensures b.isBuffering ==> r == b
    ensures !b.isBuffering ==> r.events == b.events + 1 && r.startTime == Some(now)
  {
    if !b.isBuffering then Buffering(true, Some(now), b.events + 1, b.duration) else b
  }

  /**
   * `onBufferingEnd` (the `canplay` event): afterwards no stall is open; closing one adds the
   * time since its start to the total (a `null` start time counts as 0, as in JavaScript), and
   * the event count and recorded start are not touched.
   */
  function EndBuffering(b: Buffering, now: real): (r: Buffering)
    ensures !r.isBuffering && r.events == b.events && r.startTime == b.startTime
    ensures !b.isBuffering ==> r == b
    ensures b.isBuffering && b.startTime.Some? ==> r.duration == b.duration + (now - b.startTime.value)
    ensures b.isBuffering && b.startTime.None? ==> r.duration == b.duration + now
  {
    if b.isBuffering then
      var start := if b.startTime.Some? then b.startTime.value else 0.0;
      b.(duration := b.duration + (now - start), isBuffering := false)
    else b
  }

  /** Total of the completed stall durations. */
  function Sum(s: seq<real>): real
  {
    if |s| == 0 then 0.0 else Sum(s[..|s| - 1]) + s[|s| - 1]
  }

  /**
   * The metrics account for the completed stalls `stalls`: one event per completed stall plus one
   * for a stall in progress, and the duration is the total of the completed stalls.
   */
  predicate Accounts(b: Buffering, stalls: seq<real>)
  {
    b.events == |stalls| + (if b.isBuffering then 1 else 0) &&
    b.duration == Sum(stalls) &&
    (b.isBuffering ==> b.startTime.Some?)
  }

  /**
   * A `waiting` event opens a stall and counts it once: repeated `waiting` events during one
   * stall change nothing, and the accounting is kept.
   */
  lemma StartBufferingAccounts(b: Buffering, stalls: seq<real>, now: real, later: real)
    requires Accounts(b, stalls)
    ensures Accounts(StartBuffering(b, now), stalls)
    ensures StartBuffering(b, now).isBuffering
    ensures StartBuffering(b, now).events == if b.isBuffering then b.events else b.events + 1
    ensures StartBuffering(StartBuffering(b, now), later) == StartBuffering(b, now)
  {
  }

  /**
   * A `canplay` event closes the open stall, adding its length `now - start` as a completed
   * stall, and is ignored when no stall is open.
   */
  lemma EndBufferingAccounts(b: Buffering, stalls: seq<real>, now: real)
    requires Accounts(b, stalls)
    ensures b.isBuffering ==> Accounts(EndBuffering(b, now), stalls + [now - b.startTime.value])
    ensures !b.isBuffering ==> EndBuffering(b, now) == b
    ensures !EndBuffering(b, now).isBuffering
    ensures EndBuffering(b, now).events == b.events
  {
    if b.isBuffering {
      var s := stalls + [now - b.startTime.value];
      assert s[..|s| - 1] == stalls;
    }
  }

  /** Stalls never have negative length when the clock does not go backwards, so neither does the total. */
  lemma {:induction false} SumNonNegative(stalls: seq<real>)
    requires forall i :: 0 <= i < |stalls| ==> stalls[i] >= 0.0
    ensures Sum(stalls) >= 0.0
  {
    if |stalls| > 0 {
      SumNonNegative(stalls[..|stalls| - 1]);
    }
  }

  /** A player event the tracker listens to, with the clock reading at which it fires. */
  datatype PlayerEvent = Waiting(at: real) | CanPlay(at: real)

  /** The buffering state after a sequence of events. */
  function Replay(b: Buffering, events: seq<PlayerEvent>): Buffering
  {
    if |events| == 0 then b
    else
      var prev := Replay(b, events[..|events| - 1]);
      match events[|events| - 1]
      case Waiting(t) => StartBuffering(prev, t)
      case CanPlay(t) => EndBuffering(prev, t)
  }

  /** The clock readings of `events` never decrease and none precedes the open stall's start. */
  predicate Clocked(b: Buffering, events: seq<PlayerEvent>)
  {
    (forall i, j :: 0 <= i < j < |events| ==> events[i].at <= events[j].at) &&
    (b.isBuffering ==> b.startTime.Some? && forall i :: 0 <= i < |events| ==> b.startTime.value <= events[i].at)
  }

  /**
   * With a clock that does not go backwards, neither buffering metric ever decreases over a run
   * of events, and an open stall started no later than the last event.
   */
  lemma {:induction false} ReplayMonotone(b: Buffering, events: seq<PlayerEvent>)
    requires Clocked(b, events)
    ensures Replay(b, events).duration >= b.duration
    ensures Replay(b, events).events >= b.events
    ensures Replay(b, events).isBuffering ==> Replay(b, events).startTime.Some?
    ensures Replay(b, events).isBuffering && |events| > 0 ==>
              Replay(b, events).startTime.value <= events[|events| - 1].at
  {
    if |events| > 0 {
      var front := events[..|events| - 1];
      assert forall i :: 0 <= i < |front| ==> front[i] == events[i];
      ReplayMonotone(b, front);
      var prev := Replay(b, front);
      var last := events[|events| - 1];
      if prev.isBuffering && last.CanPlay? {
        if |front| > 0 {
          assert front[|front| - 1].at <= last.at;
        } else {
          assert b.startTime.value <= last.at;
        }
      }
    }
  }

  // ---------------------------------------------------------------- the tracker

  /** `{width: video.videoWidth, height: video.videoHeight}`. */
  datatype Resolution = Resolution(width: int, height: int)

  /** The tracker and its `metrics` object. */
  class VideoAnalytics {
    const options: JsObject
    const startTime: real
    var loadTime: Option<real>
    var bufferingEvents: int
    var bufferingDuration: real
    var playbackErrors: seq<ErrorInfo>
    var qualityChanges: int
    var playbackRate: real
    var resolution: Option<Resolution>
    var totalPlayTime: Option<real>
    var reportTime: Option<string>
    var isBuffering: bool
    var bufferingStartTime: Option<real>
    /** The lengths of the completed stalls, in order. */
    ghost var stalls: seq<real>

    /** The buffering fields as one value. */
    function BufferingState(): Buffering
      reads this
    {
      Buffering(isBuffering, bufferingStartTime, bufferingEvents, bufferingDuration)
    }

    /** The metrics account for the completed stalls. */
    ghost predicate Valid()
      reads this
    {
      Accounts(BufferingState(), stalls)
    }

    /** `new VideoAnalytics(video, options)` at clock reading `now`. */
    constructor(userOptions: JsObject, now: real)
      ensures Valid() && stalls == []
      ensures options == AnalyticsOptions(userOptions) && startTime == now
      ensures loadTime == None && resolution == None && totalPlayTime == None && reportTime == None
      ensures bufferingEvents == 0 && bufferingDuration == 0.0 && playbackErrors == []
      ensures qualityChanges == 0 && playbackRate == 1.0
      ensures !isBuffering && bufferingStartTime == None
    {
      options := AnalyticsOptions(userOptions);
      startTime := now;
      loadTime := None;
      bufferingEvents := 0;
      bufferingDuration := 0.0;
      playbackErrors := [];
      qualityChanges := 0;
      playbackRate := 1.0;
      resolution := None;
      totalPlayTime := None;
      reportTime := None;
      isBuffering := false;
      bufferingStartTime := None;
      stalls := [];
    }

    /** `onLoaded` (the `loadeddata` event): the load time and the video's resolution. */
    method OnLoaded(now: real, videoWidth: int, videoHeight: int)
      modifies this
      ensures loadTime == Some(now - startTime) && resolution == Some(Resolution(videoWidth, videoHeight))
      ensures BufferingState() == old(BufferingState()) && stalls == old(stalls)
      ensures playbackErrors == old(playbackErrors) && playbackRate == old(playbackRate)
      ensures qualityChanges == old(qualityChanges)
      ensures totalPlayTime == old(totalPlayTime) && reportTime == old(reportTime)
    {
      loadTime := Some(now - startTime);
      resolution := Some(Resolution(videoWidth, videoHeight));
    }

    /** `onBufferingStart` (the `waiting` event). */
    method OnBufferingStart(now: real)
      requires Valid()
      modifies this
      ensures Valid() && stalls == old(stalls)
      ensures BufferingState() == StartBuffering(old(BufferingState()), now)
      ensures old(isBuffering) ==> unchanged(this)
      ensures loadTime == old(loadTime) && resolution == old(resolution)
      ensures playbackErrors == old(playbackErrors) && playbackRate == old(playbackRate)
      ensures qualityChanges == old(qualityChanges)
      ensures totalPlayTime == old(totalPlayTime) && reportTime == old(reportTime)
    {
      StartBufferingAccounts(BufferingState(), stalls, now, now);
      if !isBuffering {
        isBuffering := true;
        bufferingStartTime := Some(now);
        bufferingEvents := bufferingEvents + 1;
      }
    }

    /** `onBufferingEnd` (the `canplay` event). */
    method OnBufferingEnd(now: real)
      requires Valid()
      modifies this
      ensures Valid()
      ensures BufferingState() == EndBuffering(old(BufferingState()), now)
      ensures old(isBuffering) ==> stalls == old(stalls) + [now - old(bufferingStartTime).value]
      ensures !old(isBuffering) ==> unchanged(this)
      ensures loadTime == old(loadTime) && resolution == old(resolution)
      ensures playbackErrors == old(playbackErrors) && playbackRate == old(playbackRate)
      ensures qualityChanges == old(qualityChanges)
      ensures totalPlayTime == old(totalPlayTime) && reportTime == old(reportTime)
    {
      EndBufferingAccounts(BufferingState(), stalls, now);
      if isBuffering {
        var duration := now - bufferingStartTime.value;
        stalls := stalls + [duration];
        bufferingDuration := bufferingDuration + duration;
        isBuffering := false;
      }
    }

    /** `sendReport`: stamps the play time and the report time; the upload is not modelled. */
    method SendReport(now: real, isoTime: string)
      modifies this
      ensures totalPlayTime == Some(now - startTime) && reportTime == Some(isoTime)
      ensures BufferingState() == old(BufferingState()) && stalls == old(stalls)
      ensures loadTime == old(loadTime) && resolution == old(resolution)
      ensures playbackErrors == old(playbackErrors) && playbackRate == old(playbackRate)
      ensures qualityChanges == old(qualityChanges)
    {
      totalPlayTime := Some(now - startTime);
      reportTime := Some(isoTime);
    }

    /**
     * `onError` (the `error` event): records one error, keeping the earlier ones, then reports.
     * `error` is `video.error`, `errorTime` the wall-clock time of the record, and `now` and
     * `reportIso` the clock readings `sendReport` takes.
     */
    method OnError(error: Option<MediaError>, errorTime: string, now: real, reportIso: string)
      modifies this
      ensures playbackErrors == old(playbackErrors) + [ErrorInfoOf(error, errorTime)]
      ensures |playbackErrors| == |old(playbackErrors)| + 1
      ensures playbackErrors[..|old(playbackErrors)|] == old(playbackErrors)
      ensures totalPlayTime == Some(now - startTime) && reportTime == Some(reportIso)
      ensures BufferingState() == old(BufferingState()) && stalls == old(stalls)
      ensures loadTime == old(loadTime) && resolution == old(resolution)
      ensures playbackRate == old(playbackRate) && qualityChanges == old(qualityChanges)
    {
      var errorInfo := ErrorInfoOf(error, errorTime);
      playbackErrors := playbackErrors + [errorInfo];
      SendReport(now, reportIso);
    }

    /** `onRateChange` (the `ratechange` event): copies the video's playback rate. */
    method OnRateChange(rate: real)
      modifies this
      ensures playbackRate == rate
      ensures BufferingState() == old(BufferingState()) && stalls == old(stalls)
      ensures loadTime == old(loadTime) && resolution == old(resolution)
      ensures playbackErrors == old(playbackErrors) && qualityChanges == old(qualityChanges)
      ensures totalPlayTime == old(totalPlayTime) && reportTime == old(reportTime)
    {
      playbackRate := rate;
    }
  }
}
