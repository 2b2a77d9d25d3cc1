/** The per-key rate-limiter registry of `src/utilities/rate-limiter.ts`.
    A limiter owns one shared bucket and a bounded map of per-key buckets;
    `consume` routes to one of them and turns the bucket's answer into
    admission or a `RateLimitedException`. The token buckets belong to the
    `limiter` package and are modelled by what one admission decision reads:
    a capacity and the tokens left. */
module RateLimiting {
  import opened Wrappers

  datatype RateLimitType = Global | Local

  /** The `Interval` accepted by the `limiter` package: a named unit or a
      number of milliseconds. It is carried along, never interpreted. */
  datatype Interval = Second | Minute | Hour | Day | Milliseconds(ms: nat)

  const DEFAULT_GLOBAL_TOKENS_PER_TIME_UNIT: nat := 1000
  const MAX_CACHE_SIZE: nat := 512

  // ---------------------------------------------------------------------
  // Buckets

  /** One `limiter` instance: `capacity` tokens per `interval`, `remaining`
      of them still available in the current interval. */
  datatype Bucket = Bucket(capacity: nat, interval: Interval, remaining: nat)
  {
    predicate Valid() { remaining <= capacity }
  }

  /** `defaultLimiterInstance`: with `fireImmediately` a bucket starts full. */
  function NewBucket(tokens: nat, interval: Interval): (b: Bucket)
    ensures b.Valid() && b.capacity == tokens && b.interval == interval
    ensures b.remaining == b.capacity
  {
    Bucket(tokens, interval, tokens)
  }

  /** The answer of `removeTokens(1)`: the tokens left afterwards (-1 when
      the interval is spent, as `fireImmediately` makes it answer instead of
      waiting), or an exception, raised when one token exceeds the bucket
      size. */
  datatype Removal = TokensLeft(n: int) | Threw

  predicate Admits(r: Removal)
  {
    r.TokensLeft? && r.n >= 0
  }

  datatype Removed = Removed(bucket: Bucket, result: Removal)

  /** `removeTokens(1)` on one bucket. It admits exactly when a token is
      left, takes exactly that token, and otherwise changes nothing. */
  function RemoveToken(b: Bucket): (r: Removed)
    requires b.Valid()
    ensures r.bucket.Valid()
    ensures r.bucket.capacity == b.capacity && r.bucket.interval == b.interval
    ensures Admits(r.result) <==> b.remaining > 0
    ensures r.bucket.remaining == if b.remaining > 0 then b.remaining - 1 else b.remaining
    ensures r.result.TokensLeft? && r.result.n >= 0 ==> r.result.n == r.bucket.remaining
    ensures r.result.Threw? <==> b.capacity == 0
  {
    if 1 > b.capacity then Removed(b, Threw)
    else if b.remaining == 0 then Removed(b, TokensLeft(-1))
    else Removed(b.(remaining := b.remaining - 1), TokensLeft(b.remaining - 1))
  }

  /** The bucket after `n` consecutive removals with no time passing. */
  function AfterRemovals(b: Bucket, n: nat): (r: Bucket)
    requires b.Valid()
    ensures r.Valid()
    decreases n
  {
    if n == 0 then b else AfterRemovals(RemoveToken(b).bucket, n - 1)
  }

  /** Each removal takes one token until none is left. */
  lemma {:induction false} AfterRemovalsRemaining(b: Bucket, n: nat)
    requires b.Valid()
    ensures AfterRemovals(b, n).capacity == b.capacity
    ensures AfterRemovals(b, n).remaining == if n <= b.remaining then b.remaining - n else 0
    decreases n
  {
    if n > 0 {
      AfterRemovalsRemaining(RemoveToken(b).bucket, n - 1);
    }
  }

  /** Admission bound: in one interval a fresh bucket of `tokens` tokens
      admits the first `tokens` requests and rejects every later one. */
  lemma FreshBucketAdmitsCapacity(tokens: nat, interval: Interval, n: nat)
    ensures Admits(RemoveToken(AfterRemovals(NewBucket(tokens, interval), n)).result) <==> n < tokens
  {
    AfterRemovalsRemaining(NewBucket(tokens, interval), n);
  }

  // ---------------------------------------------------------------------
  // Exceptions

  const PRESSURE_TEXT: string :=
    ":face_with_peeking_eye: There's currently too much pressure on the bot, so we'll have to skip your request. Try again later!"
  const SLOW_DOWN_TEXT: string :=
    ":face_with_peeking_eye: You might want to slow down a bit with these commands. Try again later!"
  const NO_CONSUMERS_TEXT: string := "Unable to add consumers to a Global-type limiter"
  const KEY_NOT_FOUND_TEXT: string := "Unable to retrieve the limiter instance"

  /** `RateLimitedException`, `NoConsumersOnGlobalLimiterException` and
      `LocalInstanceKeyNotFoundException`. */
  datatype LimiterError =
    | RateLimited(limitType: RateLimitType, message: string)
    | NoConsumersOnGlobalLimiter
    | LocalInstanceKeyNotFound
  {
    /** The text the exception carries. */
    function Message(): string
    {
      match this
      case RateLimited(_, m) => m
      case NoConsumersOnGlobalLimiter => NO_CONSUMERS_TEXT
      case LocalInstanceKeyNotFound => KEY_NOT_FOUND_TEXT
    }
  }

  function DefaultRateLimitedText(t: RateLimitType): string
  {
    if t == Global then PRESSURE_TEXT else SLOW_DOWN_TEXT
  }

  /** The message the `RateLimitedException` constructor passes to `Error`
      as written: `message ?? type === Global ? A : B` parses as
      `(message ?? type === Global) ? A : B`, so a supplied message only
      selects between the two stock texts by its truthiness. */
  function RateLimitedMessageAsWritten(t: RateLimitType, message: Option<string>): (r: string)
    ensures r == PRESSURE_TEXT || r == SLOW_DOWN_TEXT
    ensures message.None? ==> r == DefaultRateLimitedText(t)
    ensures message.Some? ==> (r == PRESSURE_TEXT <==> message.value != "")
  {
    var condition := match message
      case None => t == Global
      case Some(m) => m != "";
    if condition then PRESSURE_TEXT else SLOW_DOWN_TEXT
  }

  /** A custom message on a `Local` limiter is replaced by the `Global` text. */
  lemma CustomMessageReplaced()
    ensures RateLimitedMessageAsWritten(Local, Some("custom")) == PRESSURE_TEXT
    ensures RateLimitedMessageAsWritten(Local, Some("custom")) != "custom"
  {
  }

  /** The intended message: the caller's text when given, otherwise the
      stock text for the limiter's type. */
  function RateLimitedMessage(t: RateLimitType, message: Option<string>): (r: string)
    ensures message.Some? ==> r == message.value
    ensures message.None? ==> r == DefaultRateLimitedText(t)
  {
    match message
    case Some(m) => m
    case None => DefaultRateLimitedText(t)
  }

  /** Without a message, which is how `consume` raises the exception, the
      written and the intended message agree. */
  lemma RateLimitedMessagesAgree(t: RateLimitType)
    ensures RateLimitedMessageAsWritten(t, None) == RateLimitedMessage(t, None)
  {
  }

  /** How `consume` reports a bucket's answer: a negative count and a thrown
      error both become `RateLimitedException(this.type)`. */
  function AdmissionOutcome(t: RateLimitType, r: Removal): (o: Outcome<LimiterError>)
    ensures o.Pass? <==> Admits(r)
    ensures o.Fail? ==> o.error == RateLimited(t, DefaultRateLimitedText(t))
  {
    if r.TokensLeft? && r.n >= 0 then Pass
    else Fail(RateLimited(t, RateLimitedMessage(t, None)))
  }

  /** A missing key and the empty string are both falsy. */
  predicate IsFalsyKey(key: Option<string>)
  {
    key.None? || key.value == ""
  }

  // ---------------------------------------------------------------------
  // The registry

  class RateLimiter {
    const limitType: RateLimitType
    const tokens: nat
    const interval: Interval
    var globalInstance: Bucket
    var localInstances: map<string, Bucket>

    /** The shared bucket has the limiter's own size only on a `Global`
        limiter; a `Local` limiter gets the default size. Per-key buckets
        exist only on a `Local` limiter, at most `MAX_CACHE_SIZE` of them,
        each with the limiter's size and interval. */
    ghost predicate Valid()
      reads this
    {
      && globalInstance.Valid()
      && globalInstance.capacity == (if limitType == Global then tokens else DEFAULT_GLOBAL_TOKENS_PER_TIME_UNIT)
      && globalInstance.interval == interval
      && |localInstances| <= MAX_CACHE_SIZE
      && (limitType == Global ==> localInstances == map[])
      && forall k :: k in localInstances ==>
           && localInstances[k].Valid()
           && localInstances[k].capacity == tokens
           && localInstances[k].interval == interval
    }

    constructor (limitType: RateLimitType, tokens: nat, interval: Interval := Second)
      ensures Valid()
      ensures this.limitType == limitType && this.tokens == tokens && this.interval == interval
      ensures globalInstance == NewBucket(if limitType == Global then tokens else DEFAULT_GLOBAL_TOKENS_PER_TIME_UNIT, interval)
      ensures localInstances == map[]
    {
      this.limitType := limitType;
      this.tokens := tokens;
      this.interval := interval;
      globalInstance := NewBucket(if limitType == Global then tokens else DEFAULT_GLOBAL_TOKENS_PER_TIME_UNIT, interval);
      localInstances := map[];
    }

    /** `addConsumer`: refused on a `Global` limiter; a no-op for a key
        already present; otherwise a fresh, full bucket for `key`, evicting
        one other entry when the cache is full. */
    method AddConsumer(key: string) returns (outcome: Outcome<LimiterError>)
      requires Valid()
      modifies this
      ensures Valid()
      ensures globalInstance == old(globalInstance)
      ensures limitType == Global ==> outcome == Fail(NoConsumersOnGlobalLimiter)
      ensures outcome.Fail? ==> outcome.error.Message() == NO_CONSUMERS_TEXT
      ensures limitType == Global ==> localInstances == old(localInstances)
      ensures limitType == Local ==> outcome == Pass && key in localInstances
      ensures key in old(localInstances) ==> localInstances == old(localInstances)
      ensures limitType == Local && key !in old(localInstances) ==>
        && localInstances[key] == NewBucket(tokens, interval)
        && (forall k :: k in localInstances && k != key ==>
              k in old(localInstances) && localInstances[k] == old(localInstances)[k])
        && (|old(localInstances)| < MAX_CACHE_SIZE ==>
              localInstances == old(localInstances)[key := NewBucket(tokens, interval)])
        && (|old(localInstances)| == MAX_CACHE_SIZE ==>
              exists evicted :: evicted in old(localInstances) &&
                localInstances == (old(localInstances) - {evicted})[key := NewBucket(tokens, interval)])
    {
      if limitType == Global {
        return Fail(NoConsumersOnGlobalLimiter);
      }
      if key in localInstances {
        return Pass;
      }
      var bucket := NewBucket(tokens, interval);
      if |localInstances| == MAX_CACHE_SIZE {
        assert |localInstances.Keys| > 0;
        var evicted :| evicted in localInstances;
        localInstances := localInstances - {evicted};
        localInstances := localInstances[key := bucket];
        assert localInstances == (old(localInstances) - {evicted})[key := bucket];
      } else {
        localInstances := localInstances[key := bucket];
      }
      return Pass;
    }

    /** `consume(key?)`: a falsy key draws on the shared bucket; any other
        key draws on that key's bucket and on nothing else, or fails when the
        key has no bucket. */
    method Consume(key: Option<string>) returns (outcome: Outcome<LimiterError>)
      requires Valid()
      modifies this
      ensures Valid()
      ensures localInstances.Keys == old(localInstances).Keys
      ensures IsFalsyKey(key) ==>
        && localInstances == old(localInstances)
        && globalInstance == RemoveToken(old(globalInstance)).bucket
        && outcome == AdmissionOutcome(limitType, RemoveToken(old(globalInstance)).result)
        && (outcome.Pass? <==> old(globalInstance).remaining > 0)
      ensures !IsFalsyKey(key) ==> globalInstance == old(globalInstance)
      ensures !IsFalsyKey(key) && key.value !in old(localInstances) ==>
        outcome == Fail(LocalInstanceKeyNotFound) && localInstances == old(localInstances)
      ensures !IsFalsyKey(key) && key.value in old(localInstances) ==>
        && localInstances == old(localInstances)[key.value := RemoveToken(old(localInstances)[key.value]).bucket]
        && outcome == AdmissionOutcome(limitType, RemoveToken(old(localInstances)[key.value]).result)
        && (outcome.Pass? <==> old(localInstances)[key.value].remaining > 0)
      ensures limitType == Global && !IsFalsyKey(key) ==> outcome == Fail(LocalInstanceKeyNotFound)
      ensures outcome.Fail? ==>
        outcome.error.Message() == if outcome.error.LocalInstanceKeyNotFound? then KEY_NOT_FOUND_TEXT else DefaultRateLimitedText(limitType)
    {
      if IsFalsyKey(key) {
        var removed := RemoveToken(globalInstance);
        globalInstance := removed.bucket;
        outcome := AdmissionOutcome(limitType, removed.result);
      } else if key.value in localInstances {
        var removed := RemoveToken(localInstances[key.value]);
        localInstances := localInstances[key.value := removed.bucket];
        outcome := AdmissionOutcome(limitType, removed.result);
      } else {
        outcome := Fail(LocalInstanceKeyNotFound);
      }
    }
  }
}
