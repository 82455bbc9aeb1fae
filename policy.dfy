/**
 * The pure decisions of bump_service.py: how `_bump_thread` classifies what the bump
 * endpoint answered, and how `process_thread` turns that classification and the thread's
 * failure count into one write to the store. The clock and the random jitter are inputs.
 */
module Policy {
  import opened Wrappers

  /** The tunables read from the configuration module. */
  datatype Config = Config(bumpInterval: int, retryDelays: seq<int>, maxConsecutiveFailures: int)

  /** The retry table must have an entry to index. */
  predicate ValidConfig(cfg: Config) {
    |cfg.retryDelays| > 0
  }

  /** Bounds of `random.randint(30, 300)`. */
  const MinJitter := 30
  const MaxJitter := 300

  /** The retry time the rate-limit branch computes. */
  const RateLimitBackoff := 120

  /** `str(e)` of the IndexError raised by `data['errors'][0]` on an empty list. */
  const IndexErrorText := "list index out of range"

  const TooManyErrorsPrefix := "Too many errors: "

  /** The decoded JSON body of the bump endpoint: its keys `status`, `message` and `errors`. */
  datatype Body = Body(status: Option<string>, message: Option<string>, errors: Option<seq<string>>)

  /**
   * What the POST produced: an HTTP status with a decoded body, or an exception
   * (a timeout, a connection error, a body that is not JSON) with its text.
   */
  datatype Reply = Answered(httpStatus: nat, body: Body) | Raised(error: string)

  /** The thread-info lookup: `thread.thread_title` and `thread.permissions.bump.next_available_time`. */
  datatype ThreadInfo = ThreadInfo(title: Option<string>, nextAvailableTime: Option<int>)

  /** `next_available_time` when the lookup succeeded and the value is truthy (present, non-zero). */
  function RemoteNextTime(info: Option<ThreadInfo>): Option<int> {
    if info.Some? && info.value.nextAvailableTime.Some? && info.value.nextAvailableTime.value != 0
    then info.value.nextAvailableTime
    else None
  }

  /**
   * The result dictionary of `_bump_thread`, as a tagged value. `Failed` covers every
   * dictionary without `success` or `is_cooldown`; it keeps the `next_time` the rate-limit
   * branch computes, which `process_thread` never reads.
   */
  datatype Outcome =
    | Bumped(message: string, nextTime: int)
    | Cooldown(message: string, nextTime: int)
    | Failed(message: string, unusedNextTime: Option<int>)

  /** The 401 answer, on which `_bump_thread` clears the service's `running` flag. */
  predicate IsFatal(reply: Reply) {
    reply.Answered? && reply.httpStatus == 401
  }

  function DigitChar(d: nat): char
    requires d < 10
  {
    ('0' as int + d) as char
  }

  /** The number a string of decimal digits denotes, most significant digit first. */
  function DigitsValue(s: string): nat
    requires forall i :: 0 <= i < |s| ==> '0' <= s[i] <= '9'
  {
    if s == [] then 0
    else DigitsValue(s[..|s| - 1]) * 10 + (s[|s| - 1] as int - '0' as int)
  }

  /** Decimal rendering of a status code, as in `f"Error {response.status}"`: no leading zero. */
  function Decimal(n: nat): (s: string)
    ensures |s| > 0 && forall i :: 0 <= i < |s| ==> '0' <= s[i] <= '9'
    ensures DigitsValue(s) == n
    ensures s[0] == '0' ==> n == 0 && |s| == 1
    decreases n
  {
    if n < 10 then [DigitChar(n)]
    else
      var init := Decimal(n / 10);
      var s := init + [DigitChar(n % 10)];
      assert s[..|s| - 1] == init;
      s
  }

  /**
   * `_bump_thread`: only a 200 whose body says `status == "ok"` is a success, and only a
   * 403 whose body carries a non-empty `errors` list is a cooldown; everything else,
   * exceptions included, is a failure.
   */
  function Classify(cfg: Config, reply: Reply, now: int, jitter: int, info: Option<ThreadInfo>): (o: Outcome)
    ensures o.Bumped? <==> reply.Answered? && reply.httpStatus == 200 && reply.body.status == Some("ok")
    ensures o.Cooldown? <==>
      reply.Answered? && reply.httpStatus == 403 && reply.body.errors.Some? && |reply.body.errors.value| > 0
    ensures o.Bumped? ==> o.nextTime - now - cfg.bumpInterval == jitter
    ensures o.Cooldown? ==> o.message == reply.body.errors.value[0]
    ensures o.Cooldown? ==> o.nextTime == RemoteNextTime(info).GetOr(now + cfg.bumpInterval)
    ensures o.Bumped? ==> o.message == reply.body.message.GetOr("Bumped")
    ensures reply.Answered? && reply.httpStatus == 403 && reply.body.errors == Some([]) ==> o == Failed(IndexErrorText, None)
    ensures reply.Answered? && reply.httpStatus == 429 ==> o == Failed("Rate Limit", Some(now + RateLimitBackoff))
    ensures reply.Answered? && reply.httpStatus == 401 ==> o == Failed("", None)
    ensures
      (reply.Answered? && !o.Bumped? && !(reply.httpStatus == 403 && reply.body.errors.Some?)
       && reply.httpStatus != 429 && reply.httpStatus != 401)
      ==> o == Failed("Error " + Decimal(reply.httpStatus), None)
    ensures reply.Raised? ==> o == Failed(reply.error, None)
  {
    match reply
    case Raised(e) => Failed(e, None)
    case Answered(status, body) =>
      if status == 200 && body.status == Some("ok") then
        Bumped(body.message.GetOr("Bumped"), now + cfg.bumpInterval + jitter)
      else if status == 403 && body.errors.Some? then
        if |body.errors.value| == 0 then Failed(IndexErrorText, None)
        else Cooldown(body.errors.value[0], RemoteNextTime(info).GetOr(now + cfg.bumpInterval))
      else if status == 429 then Failed("Rate Limit", Some(now + RateLimitBackoff))
      else if status == 401 then Failed("", None)
      else Failed("Error " + Decimal(status), None)
  }

  /** The write `process_thread` issues for one outcome. */
  datatype Action =
    | RecordSuccess(message: string, nextBumpTime: int)
    | RecordFailure(error: string, nextRetryTime: int)
    /** `upsert_thread(next_bump_time=…, last_error=…, consecutive_failures=0)`: no history row. */
    | Reschedule(nextBumpTime: int, lastError: string)

  /** `RETRY_DELAYS[min(failures, len(RETRY_DELAYS) - 1)]`. */
  function RetryDelay(cfg: Config, failures: nat): (delay: int)
    requires ValidConfig(cfg)
    ensures delay in cfg.retryDelays
    ensures failures < |cfg.retryDelays| ==> delay == cfg.retryDelays[failures]
    ensures failures >= |cfg.retryDelays| ==> delay == cfg.retryDelays[|cfg.retryDelays| - 1]
  {
    cfg.retryDelays[if failures < |cfg.retryDelays| - 1 then failures else |cfg.retryDelays| - 1]
  }

  /**
   * `process_thread`'s decision. `failures` is the count the thread row held when it was
   * listed; a failure first increments it and indexes the retry table with the new count.
   */
  function Plan(cfg: Config, o: Outcome, failures: nat, now: int): (a: Action)
    requires ValidConfig(cfg)
    ensures a.RecordSuccess? <==> o.Bumped?
    ensures o.Bumped? ==> a == RecordSuccess(o.message, o.nextTime)
    ensures o.Cooldown? ==> a == Reschedule(o.nextTime, o.message)
    ensures a.RecordFailure? <==> o.Failed? && failures + 1 < cfg.maxConsecutiveFailures
    ensures a.Reschedule? && o.Failed? ==> a == Reschedule(now + cfg.bumpInterval, TooManyErrorsPrefix + o.message)
    ensures a.RecordFailure? ==> a.error == o.message && a.nextRetryTime - now in cfg.retryDelays
  {
    match o
    case Bumped(m, t) => RecordSuccess(m, t)
    case Cooldown(m, t) => Reschedule(t, m)
    case Failed(m, _) =>
      var count := failures + 1;
      if count >= cfg.maxConsecutiveFailures then Reschedule(now + cfg.bumpInterval, TooManyErrorsPrefix + m)
      else RecordFailure(m, now + RetryDelay(cfg, count))
  }

  /** The retry time the rate-limit branch computes is discarded by `process_thread`. */
  lemma RateLimitTimeDiscarded(cfg: Config, message: string, t: Option<int>, failures: nat, now: int)
    requires ValidConfig(cfg)
    ensures Plan(cfg, Failed(message, t), failures, now) == Plan(cfg, Failed(message, None), failures, now)
  {
  }

  /** Since the count is incremented before indexing, the first entry of a longer table is never used. */
  lemma FirstRetryDelaySkipped(cfg: Config, o: Outcome, failures: nat, now: int)
    requires ValidConfig(cfg) && |cfg.retryDelays| > 1
    requires Plan(cfg, o, failures, now).RecordFailure?
    ensures Plan(cfg, o, failures, now).nextRetryTime - now == cfg.retryDelays[if failures + 1 < |cfg.retryDelays| then failures + 1 else |cfg.retryDelays| - 1]
  {
  }
}
