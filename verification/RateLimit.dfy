/** The per-client token-bucket limiter, over exact reals. Requests reach a bucket in lock order,
    carrying clock readings taken before the lock, so the readings may be out of order. */
module RateLimit {

  datatype RateLimitConfig = RateLimitConfig(enabled: bool, requestsPerSecond: nat, burstSize: nat)

  // ---------- Reference: admission by windows ----------

  /** What happened to one bucket: the clock when it was made, and the clock reading each request
      carried, in the order they took the lock. */
  datatype History = History(start: real, times: seq<real>) {
    function Add(now: real): History {
      this.(times := times + [now])
    }
  }

  /** The latest clock reading among the creation and the first `i` requests. */
  function Clock(h: History, i: nat): real
    requires i <= |h.times|
  {
    if i == 0 then h.start
    else if h.times[i - 1] > Clock(h, i - 1) then h.times[i - 1] else Clock(h, i - 1)
  }

  /** The running clock is the latest of the readings so far. */
  lemma {:induction false} ClockIsLatest(h: History, i: nat)
    requires i <= |h.times|
    ensures h.start <= Clock(h, i) && forall k :: 0 <= k < i ==> h.times[k] <= Clock(h, i)
    ensures Clock(h, i) == h.start || exists k :: 0 <= k < i && Clock(h, i) == h.times[k]
    decreases i
  {
    if i > 0 {
      ClockIsLatest(h, i - 1);
      if Clock(h, i) == h.times[i - 1] {
      } else if Clock(h, i - 1) != h.start {
        var k :| 0 <= k < i - 1 && Clock(h, i - 1) == h.times[k];
        assert Clock(h, i) == h.times[k];
      }
    }
  }

  /** Tokens earned from one instant to a later one. */
  function Gain(cfg: RateLimitConfig, before: real, after: real): real {
    (after - before) * cfg.requestsPerSecond as real
  }

  /** Tokens earned while the running clock advanced through the first `i` requests. */
  function Earned(cfg: RateLimitConfig, h: History, i: nat): real
    requires i <= |h.times|
  {
    if i == 0 then 0.0
    else Earned(cfg, h, i - 1) + Gain(cfg, Clock(h, i - 1), Clock(h, i))
  }

  /** The most requests that may pass from request `j` to request `i` inclusive: the burst, and what
      was earned while the running clock advanced between them. */
  function Allowance(cfg: RateLimitConfig, h: History, j: nat, i: nat): real
    requires j <= i < |h.times|
  {
    cfg.burstSize as real + (Earned(cfg, h, i + 1) - Earned(cfg, h, j + 1))
  }

  /** Request `i` passes when in every window ending with it the passes, this one included, stay
      within the allowance. */
  predicate Admitted(cfg: RateLimitConfig, h: History, i: nat)
    requires i < |h.times|
    decreases i, 1
  {
    forall j: nat :: j <= i ==> Passes(cfg, h, j, i) as real + 1.0 <= Allowance(cfg, h, j, i)
  }

  /** How many of the requests from `j` up to but not including `i` pass. */
  function Passes(cfg: RateLimitConfig, h: History, j: nat, i: nat): nat
    requires j <= i <= |h.times|
    decreases i, 0
  {
    if j == i then 0 else Passes(cfg, h, j, i - 1) + (if Admitted(cfg, h, i - 1) then 1 else 0)
  }

  // ---------- The bucket ----------

  datatype Level = Level(tokens: real, last: real)

  function Refilled(cfg: RateLimitConfig, b: Level, now: real): Level {
    if now > b.last then
      var filled := b.tokens + Gain(cfg, b.last, now);
      Level(if filled < cfg.burstSize as real then filled else cfg.burstSize as real, now)
    else b
  }

  /** What is left of the tightest window that starts at request `j` and has run up to `i`. */
  function Room(cfg: RateLimitConfig, h: History, j: nat, i: nat): real
    requires j < i <= |h.times|
  {
    Allowance(cfg, h, j, i - 1) - Passes(cfg, h, j, i) as real
  }

  /** The bucket's level after `i` requests is the room in the tightest window so far. */
  ghost predicate IsLevel(cfg: RateLimitConfig, h: History, i: nat, b: Level) {
    && i <= |h.times|
    && b.last == Clock(h, i)
    && b.tokens <= cfg.burstSize as real
    && (forall j: nat :: j < i ==> b.tokens <= Room(cfg, h, j, i))
    && (if i == 0 then b.tokens == cfg.burstSize as real else exists j: nat :: j < i && b.tokens == Room(cfg, h, j, i))
  }

  lemma GainAddsUp(cfg: RateLimitConfig, a: real, b: real, c: real)
    ensures Gain(cfg, a, b) + Gain(cfg, b, c) == Gain(cfg, a, c)
  {
  }

  lemma {:induction false} EarnedIsGain(cfg: RateLimitConfig, h: History, j: nat, i: nat)
    requires j <= i <= |h.times|
    ensures Earned(cfg, h, i) - Earned(cfg, h, j) == Gain(cfg, Clock(h, j), Clock(h, i))
  {
    if j < i {
      EarnedIsGain(cfg, h, j, i - 1);
      var a, b, c := Clock(h, j), Clock(h, i - 1), Clock(h, i);
      GainAddsUp(cfg, a, b, c);
    } else {
      GainAddsUp(cfg, Clock(h, i), Clock(h, i), Clock(h, i));
    }
  }

  lemma GainIsProduct(cfg: RateLimitConfig, before: real, after: real, advance: real)
    requires advance == after - before
    ensures Gain(cfg, before, after) == advance * cfg.requestsPerSecond as real
  {
  }

  /** The allowance of a window is burst + rate x the advance of the running clock. */
  lemma AllowanceIsBurstPlusRate(cfg: RateLimitConfig, h: History, j: nat, i: nat, advance: real)
    requires j <= i < |h.times| && advance == Clock(h, i + 1) - Clock(h, j + 1)
    ensures Allowance(cfg, h, j, i) == cfg.burstSize as real + advance * cfg.requestsPerSecond as real
  {
    EarnedIsGain(cfg, h, j + 1, i + 1);
    GainIsProduct(cfg, Clock(h, j + 1), Clock(h, i + 1), advance);
  }

  /** The room in a window grows with the clock and shrinks with each pass. */
  lemma RoomStep(cfg: RateLimitConfig, h: History, j: nat, i: nat)
    requires j < i < |h.times|
    ensures Allowance(cfg, h, j, i) - Passes(cfg, h, j, i) as real
            == Room(cfg, h, j, i) + (Earned(cfg, h, i + 1) - Earned(cfg, h, i))
  {
  }

  lemma WindowIncludingRequest(cfg: RateLimitConfig, h: History, j: nat, i: nat)
    requires j <= i < |h.times|
    ensures Room(cfg, h, j, i + 1)
            == Allowance(cfg, h, j, i) - Passes(cfg, h, j, i) as real - (if Admitted(cfg, h, i) then 1.0 else 0.0)
  {
    assert Passes(cfg, h, j, i + 1) == Passes(cfg, h, j, i) + if Admitted(cfg, h, i) then 1 else 0;
  }

  lemma RefillAddsEarned(cfg: RateLimitConfig, h: History, i: nat, b: Level)
    requires i < |h.times| && b.last == Clock(h, i) && b.tokens <= cfg.burstSize as real
    ensures var t, filled := Refilled(cfg, b, h.times[i]), b.tokens + (Earned(cfg, h, i + 1) - Earned(cfg, h, i));
            && t.last == Clock(h, i + 1)
            && t.tokens == if filled < cfg.burstSize as real then filled else cfg.burstSize as real
  {
    if h.times[i] <= b.last {
      assert Gain(cfg, b.last, b.last) == 0.0;
    }
  }

  /** After the refill for request `i` the level is the least, over every window ending with it, of
      the allowance less the passes so far. */
  lemma RefillIsTightest(cfg: RateLimitConfig, h: History, i: nat, b: Level)
    requires i < |h.times| && IsLevel(cfg, h, i, b)
    ensures var t := Refilled(cfg, b, h.times[i]);
            && t.last == Clock(h, i + 1) && t.tokens <= cfg.burstSize as real
            && (forall j: nat :: j <= i ==> t.tokens <= Allowance(cfg, h, j, i) - Passes(cfg, h, j, i) as real)
            && (exists j: nat :: j <= i && t.tokens == Allowance(cfg, h, j, i) - Passes(cfg, h, j, i) as real)
  {
    RefillAddsEarned(cfg, h, i, b);
    var tokens := Refilled(cfg, b, h.times[i]).tokens;
    assert Allowance(cfg, h, i, i) == cfg.burstSize as real && Passes(cfg, h, i, i) == 0;
    forall j: nat | j <= i ensures tokens <= Allowance(cfg, h, j, i) - Passes(cfg, h, j, i) as real {
      if j < i { RoomStep(cfg, h, j, i); }
    }
    if tokens != cfg.burstSize as real {
      assert i > 0 by {
        if i == 0 { FirstGain(cfg, h); }
      }
      var j: nat :| j < i && b.tokens == Room(cfg, h, j, i);
      RoomStep(cfg, h, j, i);
      assert tokens == Allowance(cfg, h, j, i) - Passes(cfg, h, j, i) as real;
    } else {
      assert tokens == Allowance(cfg, h, i, i) - Passes(cfg, h, i, i) as real;
    }
  }

  lemma FirstGain(cfg: RateLimitConfig, h: History)
    requires |h.times| > 0
    ensures Earned(cfg, h, 0) <= Earned(cfg, h, 1)
  {
    GainGrows(cfg, Clock(h, 0), Clock(h, 1));
  }

  lemma GainGrows(cfg: RateLimitConfig, a: real, b: real)
    requires a <= b
    ensures Gain(cfg, a, b) >= 0.0
  {
  }

  /** One request: the refilled level decides exactly as the windows do, and what is left is the
      level after it. */
  lemma AcquireStep(cfg: RateLimitConfig, h: History, i: nat, b: Level)
    requires i < |h.times| && IsLevel(cfg, h, i, b)
    ensures var t := Refilled(cfg, b, h.times[i]);
            && (t.tokens >= 1.0 <==> Admitted(cfg, h, i))
            && IsLevel(cfg, h, i + 1, t.(tokens := if t.tokens >= 1.0 then t.tokens - 1.0 else t.tokens))
  {
    var t := Refilled(cfg, b, h.times[i]);
    RefillIsTightest(cfg, h, i, b);
    var k: nat :| k <= i && t.tokens == Allowance(cfg, h, k, i) - Passes(cfg, h, k, i) as real;
    forall j: nat | j <= i
      ensures Room(cfg, h, j, i + 1) == Allowance(cfg, h, j, i) - Passes(cfg, h, j, i) as real
                                        - (if Admitted(cfg, h, i) then 1.0 else 0.0)
    {
      WindowIncludingRequest(cfg, h, j, i);
    }
    assert t.tokens >= 1.0 <==> Admitted(cfg, h, i);
    assert k < i + 1;
  }

  // ---------- The bucket over its history ----------

  function Taken(t: Level): Level {
    t.(tokens := if t.tokens >= 1.0 then t.tokens - 1.0 else t.tokens)
  }

  /** The level after the first `i` requests. */
  function LevelAfter(cfg: RateLimitConfig, h: History, i: nat): Level
    requires i <= |h.times|
  {
    if i == 0 then Level(cfg.burstSize as real, h.start)
    else Taken(Refilled(cfg, LevelAfter(cfg, h, i - 1), h.times[i - 1]))
  }

  lemma {:induction false} LevelIsTightestWindow(cfg: RateLimitConfig, h: History, i: nat)
    requires i <= |h.times|
    ensures IsLevel(cfg, h, i, LevelAfter(cfg, h, i))
  {
    if i > 0 {
      LevelIsTightestWindow(cfg, h, i - 1);
      AcquireStep(cfg, h, i - 1, LevelAfter(cfg, h, i - 1));
    }
  }

  /** Theorem: the bucket holds a token for request `i` exactly when every window ending with it has
      room, however the clock readings were ordered. */
  lemma BucketDecidesByWindows(cfg: RateLimitConfig, h: History, i: nat)
    requires i < |h.times|
    ensures Refilled(cfg, LevelAfter(cfg, h, i), h.times[i]).tokens >= 1.0 <==> Admitted(cfg, h, i)
  {
    LevelIsTightestWindow(cfg, h, i);
    AcquireStep(cfg, h, i, LevelAfter(cfg, h, i));
  }

  lemma {:induction false} LevelOfPrefix(cfg: RateLimitConfig, h: History, now: real, i: nat)
    requires i <= |h.times|
    ensures LevelAfter(cfg, h.Add(now), i) == LevelAfter(cfg, h, i)
  {
    if i > 0 { LevelOfPrefix(cfg, h, now, i - 1); }
  }

  /** Answers given stay the ones the windows count: a later request does not change them. */
  lemma EarlierAnswersStand(cfg: RateLimitConfig, h: History, now: real, i: nat)
    requires i < |h.times|
    ensures Admitted(cfg, h.Add(now), i) == Admitted(cfg, h, i)
  {
    LevelOfPrefix(cfg, h, now, i);
    BucketDecidesByWindows(cfg, h, i);
    BucketDecidesByWindows(cfg, h.Add(now), i);
  }

  /** A bucket of the limiter. `history` records what its fields stand for. */
  class TokenBucket {
    var tokens: real
    var lastRefill: real
    const config: RateLimitConfig
    ghost var history: History

    ghost predicate Valid()
      reads this
    {
      Level(tokens, lastRefill) == LevelAfter(config, history, |history.times|)
    }

    constructor (config: RateLimitConfig, now: real)
      ensures Valid() && this.config == config && history == History(now, [])
    {
      this.config := config;
      tokens, lastRefill := config.burstSize as real, now;
      history := History(now, []);
    }

    method Refill(now: real)
      modifies this`tokens, this`lastRefill
      ensures Level(tokens, lastRefill) == Refilled(config, old(Level(tokens, lastRefill)), now)
      ensures now <= old(lastRefill) ==> tokens == old(tokens) && lastRefill == old(lastRefill)
      ensures now > old(lastRefill) ==>
                && lastRefill == now
                && var filled := old(tokens) + (now - old(lastRefill)) * config.requestsPerSecond as real;
                tokens == if filled <= config.burstSize as real then filled else config.burstSize as real
    {
      var elapsed := if now > lastRefill then now - lastRefill else 0.0;
      if elapsed > 0.0 {
        GainIsProduct(config, lastRefill, now, elapsed);
        var filled := tokens + elapsed * config.requestsPerSecond as real;
        tokens := if filled < config.burstSize as real then filled else config.burstSize as real;
        lastRefill := now;
      }
    }

    /** The answer is the one the windows over the whole history dictate. */
    method TryAcquire(now: real) returns (ok: bool)
      requires Valid()
      modifies this
      ensures Valid() && history == old(history).Add(now)
      ensures ok == Answer(config, old(history), now)
    {
      LevelOfPrefix(config, history, now, |history.times|);
      BucketDecidesByWindows(config, history.Add(now), |history.times|);
      Refill(now);
      history := history.Add(now);
      if tokens >= 1.0 {
        tokens := tokens - 1.0;
        ok := true;
      } else {
        ok := false;
      }
    }
  }

  /** The answer to one more request of a bucket with this history. */
  predicate Answer(cfg: RateLimitConfig, h: History, now: real) {
    Admitted(cfg, h.Add(now), |h.times|)
  }

  /** The history of a key's bucket, which is made on first use. */
  function HistoryOf(log: map<string, History>, key: string, created: real): History {
    if key in log then log[key] else History(created, [])
  }

  /** The limiter: one bucket per key, made on first use. `log` records each bucket's history. */
  class RateLimiter {
    const config: RateLimitConfig
    var buckets: map<string, TokenBucket>
    ghost var log: map<string, History>
    ghost var repr: set<TokenBucket>

    ghost predicate Valid()
      reads this, repr
    {
      && log.Keys == buckets.Keys
      && (forall k :: k in buckets ==>
            && buckets[k] in repr && buckets[k].config == config
            && buckets[k].history == log[k] && buckets[k].Valid())
      && (forall k, l :: k in buckets && l in buckets && k != l ==> buckets[k] != buckets[l])
    }

    constructor (config: RateLimitConfig)
      ensures Valid() && this.config == config && log == map[] && repr == {}
    {
      this.config := config;
      buckets, log, repr := map[], map[], {};
    }

    /** The bucket of a key, made full if the key is new. */
    method BucketFor(key: string, created: real)
      requires Valid()
      modifies this
      ensures Valid() && fresh(repr - old(repr)) && key in buckets
      ensures log == old(log)[key := HistoryOf(old(log), key, created)]
    {
      if key !in buckets {
        var bucket := new TokenBucket(config, created);
        buckets := buckets[key := bucket];
        log := log[key := bucket.history];
        repr := repr + {bucket};
      }
    }

    method TakeFrom(key: string, now: real, ghost h: History) returns (allowed: bool)
      requires Valid() && key in buckets && log[key] == h
      modifies this`log, buckets[key]
      ensures Valid() && log == old(log)[key := h.Add(now)]
      ensures allowed == Answer(config, h, now)
    {
      allowed := buckets[key].TryAcquire(now);
      log := log[key := buckets[key].history];
    }

    /** The part of a check that runs under the lock. */
    method LockedCheck(key: string, now: real, created: real) returns (allowed: bool)
      requires Valid()
      modifies this, repr
      ensures Valid() && fresh(repr - old(repr))
      ensures log == After(old(log), Call(key, now, created))
      ensures allowed == Answer(config, HistoryOf(old(log), key, created), now)
    {
      ghost var h, call := HistoryOf(log, key, created), Call(key, now, created);
      ghost var after := After(log, call);
      LastUpdateCounts(log, key, h, h.Add(now));
      BucketFor(key, created);
      allowed := TakeFrom(key, now, h);
      assert log == after;
    }

    /** `now` is read before the lock is taken, `created` when a new bucket is made under it. */
    method Check(key: string, now: real, created: real) returns (allowed: bool)
      requires Valid()
      modifies this, repr
      ensures Valid() && fresh(repr - old(repr))
      ensures !config.enabled ==> allowed && log == old(log)
      ensures config.enabled ==>
                && log == After(old(log), Call(key, now, created))
                && allowed == Answer(config, HistoryOf(old(log), key, created), now)
    {
      if !config.enabled {
        return true;
      }
      allowed := LockedCheck(key, now, created);
    }
  }

  lemma LastUpdateCounts(log: map<string, History>, key: string, first: History, second: History)
    ensures log[key := first][key := second] == log[key := second]
  {
  }

  // ---------- Runs over many keys ----------

  datatype Call = Call(key: string, now: real, created: real)

  function After(log: map<string, History>, c: Call): map<string, History> {
    log[c.key := HistoryOf(log, c.key, c.created).Add(c.now)]
  }

  predicate Verdict(cfg: RateLimitConfig, log: map<string, History>, c: Call) {
    Answer(cfg, HistoryOf(log, c.key, c.created), c.now)
  }

  function Verdicts(cfg: RateLimitConfig, log: map<string, History>, calls: seq<Call>): (r: seq<bool>)
    ensures |r| == |calls|
    decreases |calls|
  {
    if calls == [] then [] else [Verdict(cfg, log, calls[0])] + Verdicts(cfg, After(log, calls[0]), calls[1..])
  }

  /** The calls of one key, in order. */
  function CallsOf(calls: seq<Call>, key: string): seq<Call> {
    if calls == [] then []
    else (if calls[0].key == key then [calls[0]] else []) + CallsOf(calls[1..], key)
  }

  /** The answers given to one key, in order. */
  function AnswersTo(calls: seq<Call>, answers: seq<bool>, key: string): seq<bool>
    requires |answers| == |calls|
  {
    if calls == [] then []
    else (if calls[0].key == key then [answers[0]] else []) + AnswersTo(calls[1..], answers[1..], key)
  }

  /** Theorem: whatever other keys do in between, a key gets the answers it would get alone. */
  lemma {:induction false} KeysAreIsolated(cfg: RateLimitConfig, log: map<string, History>, alone: map<string, History>,
                                           calls: seq<Call>, key: string)
    requires key in log <==> key in alone
    requires key in log ==> log[key] == alone[key]
    ensures AnswersTo(calls, Verdicts(cfg, log, calls), key) == Verdicts(cfg, alone, CallsOf(calls, key))
    decreases |calls|
  {
    if calls != [] {
      var c, rest := calls[0], calls[1..];
      var answers := Verdicts(cfg, log, calls);
      assert answers[1..] == Verdicts(cfg, After(log, c), rest);
      if c.key == key {
        KeysAreIsolated(cfg, After(log, c), After(alone, c), rest, key);
        assert CallsOf(calls, key)[1..] == CallsOf(rest, key);
      } else {
        KeysAreIsolated(cfg, After(log, c), alone, rest, key);
        assert CallsOf(calls, key) == CallsOf(rest, key);
      }
    }
  }

  /** The clock readings of some calls. */
  function Times(calls: seq<Call>): (times: seq<real>)
    ensures |times| == |calls|
  {
    if calls == [] then [] else [calls[0].now] + Times(calls[1..])
  }

  function Extended(h: History, times: seq<real>): History {
    h.(times := h.times + times)
  }

  lemma {:induction false} AnswersStand(cfg: RateLimitConfig, h: History, times: seq<real>, i: nat)
    requires i < |h.times|
    ensures Admitted(cfg, Extended(h, times), i) == Admitted(cfg, h, i)
    decreases |times|
  {
    if times == [] {
      assert Extended(h, times) == h;
    } else {
      EarlierAnswersStand(cfg, h, times[0], i);
      AnswersStand(cfg, h.Add(times[0]), times[1..], i);
      assert Extended(h, times) == Extended(h.Add(times[0]), times[1..]);
    }
  }

  lemma ExtendedStep(h: History, calls: seq<Call>)
    requires calls != []
    ensures Extended(h, Times(calls)) == Extended(h.Add(calls[0].now), Times(calls[1..]))
  {
    Reassociate(h.times, calls[0].now, Times(calls[1..]));
    assert Times(calls) == [calls[0].now] + Times(calls[1..]);
  }

  lemma Reassociate<T>(a: seq<T>, x: T, b: seq<T>)
    ensures a + ([x] + b) == (a + [x]) + b
  {
  }

  /** Calls of one key: the answers are those of its windows. */
  lemma {:induction false} KeyAlone(cfg: RateLimitConfig, log: map<string, History>, h: History, calls: seq<Call>,
                                    key: string, i: nat, whole: History)
    requires forall k :: 0 <= k < |calls| ==> calls[k].key == key
    requires calls != [] ==> HistoryOf(log, key, calls[0].created) == h
    requires i < |calls| && whole == Extended(h, Times(calls))
    ensures Verdicts(cfg, log, calls)[i] == Admitted(cfg, whole, |h.times| + i)
    decreases |calls|
  {
    var c, rest := calls[0], calls[1..];
    ExtendedStep(h, calls);
    if i == 0 {
      AnswersStand(cfg, h.Add(c.now), Times(rest), |h.times|);
    } else {
      var after := After(log, c);
      assert after[key] == h.Add(c.now);
      KeyAlone(cfg, after, h.Add(c.now), rest, key, i - 1, whole);
      assert Verdicts(cfg, log, calls)[1..] == Verdicts(cfg, after, rest);
    }
  }

  lemma {:induction false} CallsOfAreOfKey(calls: seq<Call>, key: string)
    ensures forall k :: 0 <= k < |CallsOf(calls, key)| ==> CallsOf(calls, key)[k].key == key
    decreases |calls|
  {
    if calls != [] { CallsOfAreOfKey(calls[1..], key); }
  }

  lemma FirstCallsDecide(cfg: RateLimitConfig, own: seq<Call>, key: string, i: nat, whole: History)
    requires (forall k :: 0 <= k < |own| ==> own[k].key == key) && i < |own|
    requires whole == History(own[0].created, Times(own))
    ensures Verdicts(cfg, map[], own)[i] == Admitted(cfg, whole, i)
  {
    var h := History(own[0].created, []);
    assert Extended(h, Times(own)) == whole;
    KeyAlone(cfg, map[], h, own, key, i, whole);
  }

  /** Theorem: in any interleaved run from the start, a key's answers are those of the windows over all of its own
      calls, with a bucket that was full at its first. */
  lemma KeyIsDecidedByItsWindows(cfg: RateLimitConfig, calls: seq<Call>, key: string, i: nat, whole: History)
    requires i < |CallsOf(calls, key)|
    requires whole == History(CallsOf(calls, key)[0].created, Times(CallsOf(calls, key)))
    ensures |AnswersTo(calls, Verdicts(cfg, map[], calls), key)| == |CallsOf(calls, key)|
    ensures AnswersTo(calls, Verdicts(cfg, map[], calls), key)[i] == Admitted(cfg, whole, i)
  {
    KeysAreIsolated(cfg, map[], map[], calls, key);
    CallsOfAreOfKey(calls, key);
    FirstCallsDecide(cfg, CallsOf(calls, key), key, i, whole);
  }

  // ---------- What the rule achieves ----------

  lemma {:induction false} EarnedGrows(cfg: RateLimitConfig, h: History, j: nat, i: nat)
    requires j <= i <= |h.times|
    ensures Earned(cfg, h, j) <= Earned(cfg, h, i)
  {
    if j < i {
      EarnedGrows(cfg, h, j, i - 1);
      GainGrows(cfg, Clock(h, i - 1), Clock(h, i));
    }
  }

  /** Theorem: no window ever lets through more than its allowance. */
  lemma {:induction false} EveryWindowConforms(cfg: RateLimitConfig, h: History, j: nat, i: nat)
    requires j <= i < |h.times|
    ensures Passes(cfg, h, j, i + 1) as real <= Allowance(cfg, h, j, i)
    decreases i
  {
    if !Admitted(cfg, h, i) {
      if j < i {
        EveryWindowConforms(cfg, h, j, i - 1);
        EarnedGrows(cfg, h, i, i + 1);
      } else {
        assert Passes(cfg, h, j, j) == 0;
      }
    } else {
      assert Passes(cfg, h, j, i) as real + 1.0 <= Allowance(cfg, h, j, i);
    }
  }

  /** Requests from `j` up to but not including `i` that some other rule lets through. */
  function Chosen(choice: seq<bool>, j: nat, i: nat): nat
    requires j <= i <= |choice|
  {
    if j == i then 0 else Chosen(choice, j, i - 1) + (if choice[i - 1] then 1 else 0)
  }

  ghost predicate Conforms(cfg: RateLimitConfig, h: History, choice: seq<bool>)
    requires |choice| == |h.times|
  {
    forall j: nat, i: nat :: j <= i < |h.times| ==> Chosen(choice, j, i + 1) as real <= Allowance(cfg, h, j, i)
  }

  lemma {:induction false} ChosenSplits(choice: seq<bool>, j: nat, i: nat)
    requires j <= i <= |choice|
    ensures Chosen(choice, 0, i) == Chosen(choice, 0, j) + Chosen(choice, j, i)
  {
    if j < i { ChosenSplits(choice, j, i - 1); }
  }

  lemma {:induction false} PassesSplit(cfg: RateLimitConfig, h: History, j: nat, i: nat)
    requires j <= i <= |h.times|
    ensures Passes(cfg, h, 0, i) == Passes(cfg, h, 0, j) + Passes(cfg, h, j, i)
  {
    if j < i { PassesSplit(cfg, h, j, i - 1); }
  }

  /** Theorem: among all rules that keep every window within its allowance, the limiter has let
      through the most requests at every moment. */
  lemma {:induction false} NoConformingRulePassesMore(cfg: RateLimitConfig, h: History, choice: seq<bool>, i: nat)
    requires |choice| == |h.times| && Conforms(cfg, h, choice) && i <= |h.times|
    ensures Chosen(choice, 0, i) <= Passes(cfg, h, 0, i)
  {
    if i > 0 {
      NoConformingRulePassesMore(cfg, h, choice, i - 1);
      if choice[i - 1] && !Admitted(cfg, h, i - 1) {
        var j: nat :| j <= i - 1 && Passes(cfg, h, j, i - 1) as real + 1.0 > Allowance(cfg, h, j, i - 1);
        NoConformingRulePassesMore(cfg, h, choice, j);
        ChosenSplits(choice, j, i);
        PassesSplit(cfg, h, j, i - 1);
        assert Chosen(choice, j, i) as real <= Allowance(cfg, h, j, i - 1);
      }
    }
  }
}
