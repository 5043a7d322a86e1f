/** The token bucket at the head of EmailService.send. Tokens are fractional; they are modelled
    as exact reals, times as whole milliseconds. */
module EmailBucket {
  datatype Config = Config(rateLimit: real, windowMs: real) {
    ghost predicate Valid() {
      rateLimit > 0.0 && windowMs > 0.0
    }
  }

  datatype Bucket = Bucket(tokens: real, lastRefill: int)

  function Min(x: real, y: real): real {
    if x <= y then x else y
  }

  /** The tokens that ms milliseconds add. */
  function Earned(cfg: Config, ms: int): real
    requires cfg.Valid()
  {
    ms as real * (cfg.rateLimit / cfg.windowMs)
  }

  function Refilled(cfg: Config, b: Bucket, now: int): Bucket
    requires cfg.Valid()
  {
    Bucket(Min(cfg.rateLimit, b.tokens + Earned(cfg, now - b.lastRefill)), now)
  }

  /** Whether a send at this time gets past the limiter. */
  predicate Accepts(cfg: Config, b: Bucket, now: int)
    requires cfg.Valid()
  {
    Refilled(cfg, b, now).tokens > 0.0
  }

  function Next(cfg: Config, b: Bucket, now: int): Bucket
    requires cfg.Valid()
  {
    var r := Refilled(cfg, b, now);
    if r.tokens <= 0.0 then r else r.(tokens := r.tokens - 1.0)
  }

  /** A service created at start, after sends at the given times. */
  function Run(cfg: Config, start: int, sends: seq<int>): Bucket
    requires cfg.Valid()
  {
    if sends == [] then Bucket(cfg.rateLimit, start)
    else Next(cfg, Run(cfg, start, sends[..|sends| - 1]), sends[|sends| - 1])
  }

  class EmailService {
    const cfg: Config
    var tokens: real
    var lastRefill: int

    function View(): Bucket
      reads this
    {
      Bucket(tokens, lastRefill)
    }

    /** 100 emails per minute. */
    constructor (now: int)
      ensures cfg == Config(100.0, 60000.0) && View() == Run(cfg, now, [])
    {
      cfg := Config(100.0, 60000.0);
      tokens, lastRefill := 100.0, now;
    }

    method RefillTokens(now: int)
      requires cfg.Valid()
      modifies this
      ensures View() == Refilled(cfg, old(View()), now)
    {
      var elapsed := now - lastRefill;
      var refillRate := cfg.rateLimit / cfg.windowMs;
      var tokensToAdd := elapsed as real * refillRate;
      tokens := Min(cfg.rateLimit, tokens + tokensToAdd);
      lastRefill := now;
    }

    /** The head of send: false is the rate-limit error. */
    method TakeToken(now: int) returns (accepted: bool)
      requires cfg.Valid()
      modifies this
      ensures View() == Next(cfg, old(View()), now)
      ensures accepted <==> Accepts(cfg, old(View()), now)
    {
      RefillTokens(now);
      if tokens <= 0.0 {
        return false;
      }
      tokens := tokens - 1.0;
      return true;
    }
  }

  // ---------- Bounds ----------

  predicate ClockNeverGoesBack(start: int, sends: seq<int>) {
    && (forall i :: 0 <= i < |sends| ==> start <= sends[i])
    && (forall i, j :: 0 <= i < j < |sends| ==> sends[i] <= sends[j])
  }

  function LastTime(start: int, sends: seq<int>): int {
    if sends == [] then start else sends[|sends| - 1]
  }

  /** How many accepted sends lie in the closed interval from lo to hi. */
  function AcceptedIn(cfg: Config, start: int, sends: seq<int>, lo: int, hi: int): nat
    requires cfg.Valid()
  {
    if sends == [] then 0
    else
      var before, now := sends[..|sends| - 1], sends[|sends| - 1];
      AcceptedIn(cfg, start, before, lo, hi)
      + if lo <= now <= hi && Accepts(cfg, Run(cfg, start, before), now) then 1 else 0
  }

  lemma EarnedAdds(cfg: Config, x: int, y: int)
    requires cfg.Valid()
    ensures Earned(cfg, x + y) == Earned(cfg, x) + Earned(cfg, y)
    ensures x >= 0 ==> Earned(cfg, x) >= 0.0
  {
  }

  /** The bucket never holds more than its limit and never owes a whole token. */
  lemma {:induction false} TokensInRange(cfg: Config, start: int, sends: seq<int>)
    requires cfg.Valid() && ClockNeverGoesBack(start, sends)
    ensures
      var b := Run(cfg, start, sends);
      -1.0 < b.tokens <= cfg.rateLimit && b.lastRefill == LastTime(start, sends)
  {
    if sends != [] {
      var before, now := sends[..|sends| - 1], sends[|sends| - 1];
      TokensInRange(cfg, start, before);
      EarnedAdds(cfg, now - LastTime(start, before), 0);
    }
  }

  /** What has been accepted since lo is paid for by a full bucket and what was earned since;
      and unless the bucket has been full since lo, all that was earned is still there or spent. */
  lemma {:induction false} SpentOrKept(cfg: Config, start: int, sends: seq<int>, lo: int, hi: int)
    requires cfg.Valid() && ClockNeverGoesBack(start, sends)
    requires lo <= LastTime(start, sends) <= hi
    ensures
      var b := Run(cfg, start, sends);
      var held := b.tokens + AcceptedIn(cfg, start, sends, lo, hi) as real;
      && (start <= lo ==> held <= cfg.rateLimit + Earned(cfg, b.lastRefill - lo))
      && (held >= cfg.rateLimit || held > Earned(cfg, b.lastRefill - lo) - 1.0)
  {
    TokensInRange(cfg, start, sends);
    EarnedAdds(cfg, LastTime(start, sends) - lo, 0);
    if sends != [] {
      var before, now := sends[..|sends| - 1], sends[|sends| - 1];
      var u := LastTime(start, before);
      TokensInRange(cfg, start, before);
      EarnedAdds(cfg, now - u, u - lo);
      EarnedAdds(cfg, now - u, 0);
      if lo <= u {
        SpentOrKept(cfg, start, before, lo, hi);
      } else {
        NoneBefore(cfg, start, before, lo, hi);
        EarnedAdds(cfg, now - lo, lo - u);
        EarnedAdds(cfg, lo - u, 0);
      }
    }
  }

  lemma {:induction false} NoneBefore(cfg: Config, start: int, sends: seq<int>, lo: int, hi: int)
    requires cfg.Valid() && ClockNeverGoesBack(start, sends)
    requires LastTime(start, sends) < lo
    ensures AcceptedIn(cfg, start, sends, lo, hi) == 0
  {
    if sends != [] {
      NoneBefore(cfg, start, sends[..|sends| - 1], lo, hi);
    }
  }

  lemma {:induction false} AcceptedSinceStart(cfg: Config, start: int, sends: seq<int>, lo: int, hi: int)
    requires cfg.Valid() && ClockNeverGoesBack(start, sends) && start <= lo <= hi
    ensures AcceptedIn(cfg, start, sends, lo, hi) as real < cfg.rateLimit + 1.0 + Earned(cfg, hi - lo)
  {
    EarnedAdds(cfg, hi - lo, 0);
    if sends != [] {
      var last := LastTime(start, sends);
      if last > hi {
        AcceptedSinceStart(cfg, start, sends[..|sends| - 1], lo, hi);
      } else if last < lo {
        NoneBefore(cfg, start, sends, lo, hi);
      } else {
        SpentOrKept(cfg, start, sends, lo, hi);
        TokensInRange(cfg, start, sends);
        EarnedAdds(cfg, last - lo, hi - last);
        EarnedAdds(cfg, hi - last, 0);
      }
    }
  }

  lemma {:induction false} NothingBeforeStart(cfg: Config, start: int, sends: seq<int>, lo: int, hi: int)
    requires cfg.Valid() && ClockNeverGoesBack(start, sends) && lo <= start
    ensures AcceptedIn(cfg, start, sends, lo, hi) == AcceptedIn(cfg, start, sends, start, hi)
    ensures hi < start ==> AcceptedIn(cfg, start, sends, lo, hi) == 0
  {
    if sends != [] {
      NothingBeforeStart(cfg, start, sends[..|sends| - 1], lo, hi);
    }
  }

  /** Any interval from lo to hi contains fewer accepted sends than a full bucket, one more, and
      what the interval earns. */
  lemma AcceptedBelowBound(cfg: Config, start: int, sends: seq<int>, lo: int, hi: int)
    requires cfg.Valid() && ClockNeverGoesBack(start, sends) && lo <= hi
    ensures AcceptedIn(cfg, start, sends, lo, hi) as real < cfg.rateLimit + 1.0 + Earned(cfg, hi - lo)
  {
    EarnedAdds(cfg, hi - lo, 0);
    if start <= lo {
      AcceptedSinceStart(cfg, start, sends, lo, hi);
    } else {
      NothingBeforeStart(cfg, start, sends, lo, hi);
      if start <= hi {
        AcceptedSinceStart(cfg, start, sends, start, hi);
        EarnedAdds(cfg, start - lo, hi - start);
        EarnedAdds(cfg, start - lo, 0);
      }
    }
  }

  /** And a send is refused only when more than rateLimit - 1 sends were accepted in the window
      that ends with it. */
  lemma RefusedOnlyWhenSpent(cfg: Config, start: int, sends: seq<int>, now: int, window: nat)
    requires cfg.Valid() && ClockNeverGoesBack(start, sends) && LastTime(start, sends) <= now
    requires cfg.windowMs == window as real
    requires !Accepts(cfg, Run(cfg, start, sends), now)
    ensures AcceptedIn(cfg, start, sends, now - window, now) as real > cfg.rateLimit - 1.0
  {
    var all := sends + [now];
    assert all[..|sends|] == sends;
    assert ClockNeverGoesBack(start, all);
    SpentOrKept(cfg, start, all, now - window, now);
    FullWindow(cfg, window);
  }

  lemma FullWindow(cfg: Config, window: nat)
    requires cfg.Valid() && cfg.windowMs == window as real
    ensures Earned(cfg, window) == cfg.rateLimit
  {
  }

  // ---------- The bound is met ----------

  /** All sends lie between start and end, all earnings are kept or spent, and the bucket is empty
      at the end. */
  ghost predicate SpentAll(cfg: Config, start: int, sends: seq<int>, end: int, hi: int)
    requires cfg.Valid()
  {
    && Kept(cfg, start, sends, end, hi)
    && Run(cfg, start, sends).tokens <= 0.0
  }

  ghost predicate Kept(cfg: Config, start: int, sends: seq<int>, end: int, hi: int)
    requires cfg.Valid()
  {
    && ClockNeverGoesBack(start, sends) && LastTime(start, sends) == end <= hi
    && var b := Run(cfg, start, sends);
       && b.lastRefill == end
       && b.tokens + AcceptedIn(cfg, start, sends, start, hi) as real == cfg.rateLimit + Earned(cfg, end - start)
  }

  lemma OneMore(cfg: Config, start: int, sends: seq<int>, now: int, hi: int)
    requires cfg.Valid() && start <= now <= hi
    ensures
      var b := Run(cfg, start, sends);
      && Run(cfg, start, sends + [now]) == Next(cfg, b, now)
      && AcceptedIn(cfg, start, sends + [now], start, hi) ==
           AcceptedIn(cfg, start, sends, start, hi) + if Accepts(cfg, b, now) then 1 else 0
  {
    assert (sends + [now])[..|sends|] == sends;
  }

  /** Sends at one instant until the bucket is empty. */
  lemma Drain(cfg: Config, start: int, sends: seq<int>, end: int, hi: int) returns (all: seq<int>)
    requires cfg.Valid() && Kept(cfg, start, sends, end, hi) && Run(cfg, start, sends).tokens <= cfg.rateLimit
    ensures SpentAll(cfg, start, all, end, hi)
    decreases if Run(cfg, start, sends).tokens <= 0.0 then 0 else Run(cfg, start, sends).tokens.Floor + 1
  {
    var b := Run(cfg, start, sends);
    all := sends;
    if b.tokens > 0.0 {
      OneMore(cfg, start, sends, end, hi);
      assert Earned(cfg, 0) == 0.0;
      assert Refilled(cfg, b, end) == b;
      all := Drain(cfg, start, sends + [end], end, hi);
    }
  }

  /** A millisecond earns at most a whole bucket, so an empty one keeps it all. */
  lemma MillisecondFits(cfg: Config)
    requires cfg.Valid() && cfg.windowMs >= 1.0
    ensures 0.0 <= Earned(cfg, 1) <= cfg.rateLimit
  {
    var rate := cfg.rateLimit / cfg.windowMs;
    assert rate * cfg.windowMs == cfg.rateLimit;
  }

  /** Sends every millisecond from start to end, each time until the bucket is empty. */
  lemma {:induction false} DrainEveryMillisecond(cfg: Config, start: int, end: int, hi: int) returns (sends: seq<int>)
    requires cfg.Valid() && cfg.windowMs >= 1.0 && start <= end <= hi
    ensures SpentAll(cfg, start, sends, end, hi)
    decreases end - start
  {
    assert Earned(cfg, 0) == 0.0;
    if end == start {
      sends := Drain(cfg, start, [], start, hi);
    } else {
      var before := DrainEveryMillisecond(cfg, start, end - 1, hi);
      var b := Run(cfg, start, before);
      MillisecondFits(cfg);
      EarnedAdds(cfg, end - 1 - start, 1);
      OneMore(cfg, start, before, end, hi);
      assert Refilled(cfg, b, end).tokens == b.tokens + Earned(cfg, 1);
      sends := Drain(cfg, start, before + [end], end, hi);
    }
  }

  /** The bound of AcceptedBelowBound cannot be lowered by one: for every configuration whose
      window is a millisecond or more and every length of interval, some run has at least a full
      bucket and the interval's earnings accepted in it. */
  lemma BoundIsMet(cfg: Config, start: int, length: nat) returns (sends: seq<int>)
    requires cfg.Valid() && cfg.windowMs >= 1.0
    ensures ClockNeverGoesBack(start, sends)
    ensures AcceptedIn(cfg, start, sends, start, start + length) as real >= cfg.rateLimit + Earned(cfg, length)
  {
    sends := DrainEveryMillisecond(cfg, start, start + length, start + length);
  }
}
