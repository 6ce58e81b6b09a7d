/** Runs of the request table under a clock that never goes back. */
module PendingRuns {
  import opened Integers
  import opened Hashes
  import opened PendingRequests

  datatype Event =
    | Request(h: Hash, at: int, draw: int -> int)
    | Resolve(h: Hash, at: int)
    | Sweep(at: int)

  ghost function Effect(reqs: Requests, e: Event, cfg: Timeouts): Requests {
    match e
    case Request(h, at, draw) => Added(reqs, h, at, cfg, draw)
    case Resolve(h, _) => reqs - {h}
    case Sweep(at) => Unexpired(reqs, at)
  }

  ghost function Table(es: seq<Event>, cfg: Timeouts): Requests {
    if es == [] then map[] else Effect(Table(es[..|es| - 1], cfg), es[|es| - 1], cfg)
  }

  /** The request at position `k` goes out: `Add` returns true. */
  ghost predicate GoesOut(es: seq<Event>, k: nat, h: Hash, cfg: Timeouts)
    requires k < |es|
  {
    es[k].Request? && es[k].h == h && !Live(Table(es[..k], cfg), h, es[k].at)
  }

  ghost predicate Resolves(e: Event, h: Hash) {
    e.Resolve? && e.h == h
  }

  ghost predicate Timely(es: seq<Event>) {
    && (forall i, j | 0 <= i <= j < |es| :: es[i].at <= es[j].at)
    && (forall i | 0 <= i < |es| && es[i].Request? :: Uniform(es[i].draw))
  }

  // What the pending answer means

  /** The expiry given to the request at position `k`. */
  ghost function ExpiryOf(es: seq<Event>, k: nat, cfg: Timeouts): int
    requires k < |es| && es[k].Request?
  {
    es[k].at + Window(NextRetry(Table(es[..k], cfg), es[k].h), cfg, es[k].draw)
  }

  /** The request at position `k` went out for `h`, nothing has resolved `h`
      since, and its window is not over at `now`. */
  ghost predicate InFlight(es: seq<Event>, k: nat, h: Hash, now: int, cfg: Timeouts) {
    && k < |es| && GoesOut(es, k, h, cfg)
    && (forall j | k < j < |es| :: !Resolves(es[j], h))
    && now < ExpiryOf(es, k, cfg)
  }

  lemma InFlightBefore(es: seq<Event>, k: nat, h: Hash, now: int, cfg: Timeouts)
    requires k + 1 < |es|
    ensures var n := |es| - 1;
            InFlight(es, k, h, now, cfg) <==> InFlight(es[..n], k, h, now, cfg) && !Resolves(es[n], h)
  {
    assert es[..|es| - 1][..k] == es[..k];
  }

  ghost predicate SomeInFlight(es: seq<Event>, h: Hash, now: int, cfg: Timeouts) {
    exists k :: InFlight(es, k, h, now, cfg)
  }

  /** A request that goes out is in flight until its expiry, and its going out
      shows that no earlier one still is. */
  lemma NewFlight(es: seq<Event>, h: Hash, now: int, cfg: Timeouts)
    requires es != [] && GoesOut(es, |es| - 1, h, cfg) && es[|es| - 1].at <= now
    requires !SomeInFlight(es[..|es| - 1], h, es[|es| - 1].at, cfg)
    ensures SomeInFlight(es, h, now, cfg) <==> now < ExpiryOf(es, |es| - 1, cfg)
  {
    var n := |es| - 1;
    assert InFlight(es, n, h, now, cfg) <==> now < ExpiryOf(es, n, cfg);
    forall k: nat | k < n ensures !InFlight(es, k, h, now, cfg) {
      InFlightBefore(es, k, h, es[n].at, cfg);
      assert !InFlight(es[..n], k, h, es[n].at, cfg);
    }
  }

  /** Any other event leaves the flights alone, except that it may resolve them. */
  lemma OldFlights(es: seq<Event>, h: Hash, now: int, cfg: Timeouts)
    requires es != [] && !GoesOut(es, |es| - 1, h, cfg)
    ensures var n := |es| - 1;
            SomeInFlight(es, h, now, cfg) <==>
              SomeInFlight(es[..n], h, now, cfg) && !Resolves(es[n], h)
  {
    var n := |es| - 1;
    forall k: nat | k < n
      ensures InFlight(es, k, h, now, cfg) <==>
                InFlight(es[..n], k, h, now, cfg) && !Resolves(es[n], h)
    {
      InFlightBefore(es, k, h, now, cfg);
    }
    assert !InFlight(es, n, h, now, cfg);
  }

  lemma LiveWhenNew(reqs: Requests, h: Hash, at: int, draw: int -> int, cfg: Timeouts, now: int)
    requires !Live(reqs, h, at)
    ensures Live(Added(reqs, h, at, cfg, draw), h, now) <==> now < at + Window(NextRetry(reqs, h), cfg, draw)
  {
  }

  lemma LiveOtherwise(reqs: Requests, e: Event, h: Hash, cfg: Timeouts, now: int)
    requires e.at <= now && !(e.Request? && e.h == h && !Live(reqs, h, e.at))
    ensures Live(Effect(reqs, e, cfg), h, now) <==> Live(reqs, h, now) && !Resolves(e, h)
  {
  }

  ghost predicate Past(es: seq<Event>, now: int) {
    forall i | 0 <= i < |es| :: es[i].at <= now
  }

  lemma TimelyPrefix(es: seq<Event>)
    requires es != [] && Timely(es)
    ensures Timely(es[..|es| - 1]) && Past(es[..|es| - 1], es[|es| - 1].at)
  {
  }

  /** A hash is pending exactly when some request for it is in flight: cleanups
      and later refused requests make no difference to the answer. */
  lemma {:induction false} PendingIffInFlight(es: seq<Event>, h: Hash, now: int, cfg: Timeouts)
    requires Timely(es) && Past(es, now)
    ensures Live(Table(es, cfg), h, now) <==> SomeInFlight(es, h, now, cfg)
  {
    if es == [] {
      assert forall k :: !InFlight(es, k, h, now, cfg);
    } else {
      var n := |es| - 1;
      var reqs, e := Table(es[..n], cfg), es[n];
      TimelyPrefix(es);
      if GoesOut(es, n, h, cfg) {
        PendingIffInFlight(es[..n], h, e.at, cfg);
        NewFlight(es, h, now, cfg);
        LiveWhenNew(reqs, h, e.at, e.draw, cfg, now);
      } else {
        PendingIffInFlight(es[..n], h, now, cfg);
        OldFlights(es, h, now, cfg);
        LiveOtherwise(reqs, e, h, cfg, now);
      }
    }
  }

  // What the retry count means

  /** The documented count: requests for `h` that went out since it was last resolved. */
  ghost function Tries(es: seq<Event>, h: Hash, cfg: Timeouts): nat {
    if es == [] then 0 else
      var n := |es| - 1;
      if GoesOut(es, n, h, cfg) then Tries(es[..n], h, cfg) + 1
      else if Resolves(es[n], h) then 0
      else Tries(es[..n], h, cfg)
  }

  /** A sweep that finds `h` expired, or finds nothing. */
  ghost predicate Clears(es: seq<Event>, k: nat, h: Hash, cfg: Timeouts)
    requires k < |es|
  {
    es[k].Sweep? && !Live(Table(es[..k], cfg), h, es[k].at)
  }

  /** The count the table keeps: since the last resolution or such a sweep. */
  ghost function Remembered(es: seq<Event>, h: Hash, cfg: Timeouts): nat {
    if es == [] then 0 else
      var n := |es| - 1;
      if GoesOut(es, n, h, cfg) then Remembered(es[..n], h, cfg) + 1
      else if Resolves(es[n], h) || Clears(es, n, h, cfg) then 0
      else Remembered(es[..n], h, cfg)
  }

  lemma AddedCounts(reqs: Requests, h: Hash, at: int, cfg: Timeouts, draw: int -> int)
    requires !Live(reqs, h, at)
    ensures var after := Added(reqs, h, at, cfg, draw);
            h in after && NextRetry(after, h) == Smaller(NextRetry(reqs, h) + 1, MAX_RETRIES)
    ensures NextRetry(reqs, h) <= MAX_RETRIES
  {
  }

  lemma OthersUntouched(reqs: Requests, e: Event, h: Hash, cfg: Timeouts)
    requires !(e.Request? && e.h == h && !Live(reqs, h, e.at)) && !Resolves(e, h)
    requires !(e.Sweep? && !Live(reqs, h, e.at))
    ensures h in Effect(reqs, e, cfg) <==> h in reqs
    ensures NextRetry(Effect(reqs, e, cfg), h) == NextRetry(reqs, h)
  {
  }

  /** In every run the next retry number is the remembered count, capped. */
  lemma {:induction false} RetryIsRemembered(es: seq<Event>, h: Hash, cfg: Timeouts)
    ensures NextRetry(Table(es, cfg), h) == Smaller(Remembered(es, h, cfg), MAX_RETRIES)
    ensures h in Table(es, cfg) <==> Remembered(es, h, cfg) > 0
  {
    if es != [] {
      var n := |es| - 1;
      var reqs, e := Table(es[..n], cfg), es[n];
      RetryIsRemembered(es[..n], h, cfg);
      if GoesOut(es, n, h, cfg) {
        AddedCounts(reqs, h, e.at, cfg, e.draw);
      } else if !Resolves(e, h) && !Clears(es, n, h, cfg) {
        OthersUntouched(reqs, e, h, cfg);
      }
    }
  }

  /** The sweep at position `k` makes the table forget tries of `h` that count. */
  ghost predicate Forgets(es: seq<Event>, k: nat, h: Hash, cfg: Timeouts) {
    && k < |es| && Clears(es, k, h, cfg) && Tries(es[..k], h, cfg) > 0
    && (forall j | k < j < |es| :: !Resolves(es[j], h))
  }

  ghost predicate Forgotten(es: seq<Event>, h: Hash, cfg: Timeouts) {
    exists k :: Forgets(es, k, h, cfg)
  }

  lemma ForgetsBefore(es: seq<Event>, k: nat, h: Hash, cfg: Timeouts)
    requires k + 1 < |es|
    ensures var n := |es| - 1;
            Forgets(es, k, h, cfg) <==> Forgets(es[..n], k, h, cfg) && !Resolves(es[n], h)
  {
    assert es[..|es| - 1][..k] == es[..k];
  }

  lemma ForgottenStep(es: seq<Event>, h: Hash, cfg: Timeouts)
    requires es != []
    ensures var n := |es| - 1;
            Forgotten(es, h, cfg) <==>
              (Forgotten(es[..n], h, cfg) && !Resolves(es[n], h)) ||
              (Clears(es, n, h, cfg) && Tries(es[..n], h, cfg) > 0)
  {
    var n := |es| - 1;
    forall k: nat | k < n
      ensures Forgets(es, k, h, cfg) <==> Forgets(es[..n], k, h, cfg) && !Resolves(es[n], h)
    {
      ForgetsBefore(es, k, h, cfg);
    }
    assert Forgets(es, n, h, cfg) <==> Clears(es, n, h, cfg) && Tries(es[..n], h, cfg) > 0;
    if Forgotten(es[..n], h, cfg) && !Resolves(es[n], h) {
      var k: nat :| Forgets(es[..n], k, h, cfg);
      assert Forgets(es, k, h, cfg);
    }
  }

  lemma {:induction false} RememberedIsTriesIff(es: seq<Event>, h: Hash, cfg: Timeouts)
    ensures Remembered(es, h, cfg) <= Tries(es, h, cfg)
    ensures Remembered(es, h, cfg) == Tries(es, h, cfg) <==> !Forgotten(es, h, cfg)
  {
    if es == [] {
      assert forall k :: !Forgets(es, k, h, cfg);
    } else {
      RememberedIsTriesIff(es[..|es| - 1], h, cfg);
      ForgottenStep(es, h, cfg);
    }
  }

  /** The retry number follows the documented count exactly when no sweep has
      found the hash expired between one of the counted requests and now, or
      the cap is reached all the same. */
  lemma {:induction false} EscalatesIff(es: seq<Event>, h: Hash, cfg: Timeouts)
    ensures NextRetry(Table(es, cfg), h) == Smaller(Tries(es, h, cfg), MAX_RETRIES) <==>
              !Forgotten(es, h, cfg) || Remembered(es, h, cfg) >= MAX_RETRIES
  {
    RetryIsRemembered(es, h, cfg);
    RememberedIsTriesIff(es, h, cfg);
  }

  /** A failing run: one request, and one sweep at the moment it expires. */
  lemma SweepResets(h: Hash, cfg: Timeouts, draw: int -> int)
    requires Uniform(draw) && Window(0, cfg, draw) >= 0
    ensures var es := [Request(h, 0, draw), Sweep(Window(0, cfg, draw))];
            && Timely(es) && Tries(es, h, cfg) == 1
            && NextRetry(Table(es[..1], cfg), h) == 1 && NextRetry(Table(es, cfg), h) == 0
  {
    var request := Request(h, 0, draw);
    var es := [request, Sweep(Window(0, cfg, draw))];
    assert es[..1] == [request] && [request][..0] == [];
    assert Table([request], cfg) == Added(map[], h, 0, cfg, draw);
    assert Tries([request], h, cfg) == 1;
    assert !GoesOut(es, 1, h, cfg);
  }

  // Backoff and windows in 64 bits

  /** The wait that every window is meant to reach. */
  function BaseWindow(cfg: Timeouts): int {
    Smaller(cfg.baseTimeout, cfg.maxBackoff)
  }

  lemma {:induction false} Pow2Grows(r: nat, s: nat)
    requires r <= s
    ensures 1 <= Pow2(r) <= Pow2(s)
  {
    if r < s {
      Pow2Grows(r, s - 1);
    } else if r > 0 {
      Pow2Grows(r - 1, r - 1);
    }
  }

  lemma Pow2Of15()
    ensures Pow2(15) == 0x8000
  {
    assert Pow2(5) == 32;
    assert Pow2(10) == 32 * Pow2(5);
  }

  lemma TimesMonotone(b: int, x: int, y: int)
    requires 0 <= b && x <= y
    ensures b * x <= b * y
  {
    assert b * y == b * x + b * (y - x);
  }

  lemma DoubleProduct(b: int, r: nat)
    ensures b * Pow2(r + 1) == 2 * (b * Pow2(r))
  {
    assert b * (2 * Pow2(r)) == 2 * (b * Pow2(r));
  }

  /** Doubling cannot skip the band [2^63, 2^64), where the wrapped product is negative. */
  lemma {:induction false} DoublingOverflows(b: int, r: nat) returns (s: nat)
    requires r < MAX_RETRIES && b * Pow2(r) <= MAX64 < b * Pow2(MAX_RETRIES)
    ensures s <= MAX_RETRIES && MAX64 < b * Pow2(s) <= 2 * MAX64
    decreases MAX_RETRIES - r
  {
    DoubleProduct(b, r);
    if b * Pow2(r + 1) > MAX64 {
      s := r + 1;
    } else {
      s := DoublingOverflows(b, r + 1);
    }
  }

  /** 2^48 ns, a little over three days: what base timeouts must stay below. */
  const TOO_LONG := 0x1_0000_0000_0000

  lemma LargestProduct(b: int64)
    ensures b * Pow2(MAX_RETRIES) <= MAX64 <==> b < TOO_LONG
  {
    Pow2Of15();
  }

  /** Some retry waits a negative time as soon as one product does not fit. */
  lemma LongBaseWrapsNegative(cfg: Timeouts) returns (r: nat)
    requires TOO_LONG <= cfg.baseTimeout && 0 <= cfg.maxBackoff
    ensures r <= MAX_RETRIES && Backoff(r, cfg) < 0
  {
    LargestProduct(cfg.baseTimeout);
    assert cfg.baseTimeout * Pow2(0) == cfg.baseTimeout;
    r := DoublingOverflows(cfg.baseTimeout, 0);
  }

  lemma ProductFits(r: nat, cfg: Timeouts)
    requires 0 <= cfg.baseTimeout < TOO_LONG && r <= MAX_RETRIES
    ensures 0 <= cfg.baseTimeout * Pow2(r) <= MAX64
    ensures Backoff(r, cfg) == Smaller(cfg.baseTimeout * Pow2(r), cfg.maxBackoff)
  {
    LargestProduct(cfg.baseTimeout);
    Pow2Grows(r, MAX_RETRIES);
    TimesMonotone(cfg.baseTimeout, 0, Pow2(r));
    TimesMonotone(cfg.baseTimeout, Pow2(r), Pow2(MAX_RETRIES));
  }

  /** The 64-bit backoffs are the intended minima exactly when the base timeout
      is below 2^48 ns. */
  lemma {:induction false} BackoffsExactIff(cfg: Timeouts)
    requires 0 <= cfg.baseTimeout && 0 <= cfg.maxBackoff
    ensures (forall r: nat | r <= MAX_RETRIES :: Backoff(r, cfg) == Smaller(cfg.baseTimeout * Pow2(r), cfg.maxBackoff))
              <==> cfg.baseTimeout < TOO_LONG
  {
    if cfg.baseTimeout < TOO_LONG {
      forall r: nat | r <= MAX_RETRIES
        ensures Backoff(r, cfg) == Smaller(cfg.baseTimeout * Pow2(r), cfg.maxBackoff)
      {
        ProductFits(r, cfg);
      }
    } else {
      var r := LongBaseWrapsNegative(cfg);
      TimesMonotone(cfg.baseTimeout, 0, Pow2(r));
    }
  }

  /** The backoff of the last retry. */
  function Longest(cfg: Timeouts): int {
    Smaller(cfg.baseTimeout * Pow2(MAX_RETRIES), cfg.maxBackoff)
  }

  /** Every product fits in 64 bits, and so does the longest backoff with its jitter. */
  predicate Sane(cfg: Timeouts) {
    0 <= cfg.baseTimeout < TOO_LONG && Longest(cfg) + Longest(cfg) / 5 <= MAX64 + 1
  }

  /** In a sane configuration the backoff is the capped power, never shrinks
      with the retry count, and jitter adds at most a fifth. */
  lemma {:induction false} WindowBounds(r: nat, s: nat, cfg: Timeouts, draw: int -> int)
    requires Sane(cfg) && r <= s <= MAX_RETRIES && Uniform(draw)
    ensures Backoff(r, cfg) == Smaller(cfg.baseTimeout * Pow2(r), cfg.maxBackoff)
    ensures BaseWindow(cfg) <= Backoff(r, cfg) <= Backoff(s, cfg)
    ensures Backoff(r, cfg) <= Window(r, cfg, draw)
    ensures Window(r, cfg, draw) <= Backoff(r, cfg) + (if Backoff(r, cfg) > 0 then Backoff(r, cfg) / 5 else 0)
  {
    ProductFits(r, cfg);
    ProductFits(s, cfg);
    Pow2Grows(0, r);
    Pow2Grows(r, s);
    Pow2Grows(s, MAX_RETRIES);
    var b := cfg.baseTimeout;
    TimesMonotone(b, 1, Pow2(r));
    TimesMonotone(b, Pow2(r), Pow2(s));
    TimesMonotone(b, Pow2(s), Pow2(MAX_RETRIES));
    JitterFits(Backoff(r, cfg), Longest(cfg), draw);
  }

  lemma JitterFits(backoff: int64, longest: int, draw: int -> int)
    requires backoff <= longest && longest + longest / 5 <= MAX64 + 1 && Uniform(draw)
    ensures 0 <= Jitter(backoff, draw)
    ensures Jitter(backoff, draw) <= (if backoff > 0 then backoff / 5 else 0)
    ensures Wrap64(backoff + Jitter(backoff, draw)) == backoff + Jitter(backoff, draw)
  {
  }

  /** A source that would draw `k` wherever that is in range. */
  function Drawing(k: int): int -> int {
    n => if 0 <= k < n then k else 0
  }

  ghost predicate Reachable(r: nat, cfg: Timeouts, w: int) {
    exists draw :: Uniform(draw) && Window(r, cfg, draw) == w
  }

  /** In a sane configuration the windows that can come up are exactly the
      capped power plus any jitter below a fifth of it; under 5 ns there is none. */
  lemma {:induction false} WindowsAreJittered(r: nat, cfg: Timeouts, w: int)
    requires Sane(cfg) && r <= MAX_RETRIES
    ensures var b := Smaller(cfg.baseTimeout * Pow2(r), cfg.maxBackoff);
            Reachable(r, cfg, w) <==> if b >= 5 then b <= w < b + b / 5 else w == b
  {
    var b := Smaller(cfg.baseTimeout * Pow2(r), cfg.maxBackoff);
    WindowIs(r, cfg, NoJitter);
    if b >= 5 && b <= w < b + b / 5 {
      WindowIs(r, cfg, Drawing(w - b));
      assert Uniform(Drawing(w - b)) && Window(r, cfg, Drawing(w - b)) == w;
    }
    if b < 5 && w == b {
      assert Uniform(NoJitter) && Window(r, cfg, NoJitter) == w;
    }
    forall draw | Uniform(draw) && Window(r, cfg, draw) == w ensures if b >= 5 then b <= w < b + b / 5 else w == b {
      WindowIs(r, cfg, draw);
    }
  }

  lemma BackoffBelowLongest(r: nat, cfg: Timeouts)
    requires Sane(cfg) && r <= MAX_RETRIES
    ensures Backoff(r, cfg) <= Longest(cfg)
  {
    WindowBounds(r, MAX_RETRIES, cfg, NoJitter);
    ProductFits(MAX_RETRIES, cfg);
  }

  lemma WindowAdds(r: nat, cfg: Timeouts, draw: int -> int)
    requires Sane(cfg) && r <= MAX_RETRIES && Uniform(draw)
    ensures Window(r, cfg, draw) == if Backoff(r, cfg) >= 5 then Backoff(r, cfg) + draw(Backoff(r, cfg) / 5) else Backoff(r, cfg)
  {
    BackoffBelowLongest(r, cfg);
    JitterFits(Backoff(r, cfg), Longest(cfg), draw);
  }

  lemma WindowIs(r: nat, cfg: Timeouts, draw: int -> int)
    requires Sane(cfg) && r <= MAX_RETRIES && Uniform(draw)
    ensures var b := Smaller(cfg.baseTimeout * Pow2(r), cfg.maxBackoff);
            Window(r, cfg, draw) == if b >= 5 then b + draw(b / 5) else b
  {
    WindowAdds(r, cfg, draw);
    ProductFits(r, cfg);
  }

  /** No window is shorter than the first one is meant to be. */
  ghost predicate LongWindows(cfg: Timeouts) {
    forall r: nat, draw | r <= MAX_RETRIES && Uniform(draw) :: Window(r, cfg, draw) >= BaseWindow(cfg)
  }

  function NoJitter(n: int): int {
    0
  }

  function MostJitter(n: int): int {
    n - 1
  }

  /** Outside the sane configurations some retry gets too short a window. */
  lemma ShortWindow(cfg: Timeouts) returns (r: nat, draw: int -> int)
    requires BaseWindow(cfg) > 0 && !Sane(cfg)
    ensures r <= MAX_RETRIES && Uniform(draw) && Window(r, cfg, draw) < BaseWindow(cfg)
  {
    if cfg.baseTimeout < TOO_LONG {
      r, draw := MAX_RETRIES, MostJitter;
      ProductFits(r, cfg);
      assert Backoff(r, cfg) == Longest(cfg);
    } else {
      r := LongBaseWrapsNegative(cfg);
      draw := NoJitter;
    }
  }

  /** For a positive base window, all windows are long enough exactly when the
      base timeout and the longest backoff stay below two bounds. */
  lemma LongWindowsIff(cfg: Timeouts)
    requires BaseWindow(cfg) > 0
    ensures LongWindows(cfg) <==> Sane(cfg)
  {
    if Sane(cfg) {
      forall r: nat, draw | r <= MAX_RETRIES && Uniform(draw) ensures Window(r, cfg, draw) >= BaseWindow(cfg) {
        WindowBounds(r, r, cfg, draw);
      }
    } else {
      var r, draw := ShortWindow(cfg);
    }
  }

  // Single flight

  /** Between two requests for `h` that both go out: the first one's window
      protects `h` until it has run out. */
  ghost predicate Protected(reqs: Requests, h: Hash, now: int, until: int) {
    now >= until || (h in reqs && reqs[h].expiryTime >= until)
  }

  /** A request that goes out protects its hash afresh. */
  lemma NewWindowProtects(reqs: Requests, h: Hash, at: int, draw: int -> int, cfg: Timeouts, now: int)
    requires LongWindows(cfg) && Uniform(draw) && !Live(reqs, h, at)
    ensures Protected(Added(reqs, h, at, cfg, draw), h, now, at + BaseWindow(cfg))
  {
    assert Window(NextRetry(reqs, h), cfg, draw) >= BaseWindow(cfg);
  }

  /** No other event but a resolution takes the protection away. */
  lemma ProtectionStays(reqs: Requests, e: Event, h: Hash, cfg: Timeouts, now: int, until: int)
    requires Protected(reqs, h, e.at, until) && e.at <= now
    requires !(e.Resolve? && e.h == h) && !(e.Request? && e.h == h && !Live(reqs, h, e.at))
    ensures Protected(Effect(reqs, e, cfg), h, now, until)
  {
  }

  /** No resolution of `h` strictly between the two positions. */
  ghost predicate Unresolved(es: seq<Event>, i: nat, j: nat, h: Hash) {
    forall k | i < k < j && k < |es| :: !Resolves(es[k], h)
  }

  lemma {:induction false} WindowProtects(es: seq<Event>, i: nat, j: nat, h: Hash, cfg: Timeouts)
    requires i < j < |es| && Timely(es) && LongWindows(cfg) && GoesOut(es, i, h, cfg)
    requires Unresolved(es, i, j, h)
    ensures Protected(Table(es[..j], cfg), h, es[j].at, es[i].at + BaseWindow(cfg))
    decreases j - i
  {
    var k := j - 1;
    assert es[..j][..k] == es[..k] && es[..j][k] == es[k];
    var before := Table(es[..k], cfg);
    if es[k].Request? && es[k].h == h && !Live(before, h, es[k].at) {
      NewWindowProtects(before, h, es[k].at, es[k].draw, cfg, es[j].at);
    } else {
      WindowProtects(es, i, k, h, cfg);
      ProtectionStays(before, es[k], h, cfg, es[j].at, es[i].at + BaseWindow(cfg));
    }
  }

  /** Two requests for `h` that both go out, with no resolution between them. */
  ghost predicate SameFlight(es: seq<Event>, i: nat, j: nat, h: Hash, cfg: Timeouts) {
    && i < j < |es| && Timely(es)
    && GoesOut(es, i, h, cfg) && GoesOut(es, j, h, cfg)
    && Unresolved(es, i, j, h)
  }

  /** Single flight: such requests are at least the base window apart, whatever
      other requests, resolutions and sweeps come in between. */
  lemma SingleFlight(es: seq<Event>, i: nat, j: nat, h: Hash, cfg: Timeouts)
    requires SameFlight(es, i, j, h, cfg) && LongWindows(cfg)
    ensures es[j].at - es[i].at >= BaseWindow(cfg)
  {
    WindowProtects(es, i, j, h, cfg);
  }

  ghost predicate SingleFlightHolds(cfg: Timeouts) {
    forall es: seq<Event>, i: nat, j: nat, h: Hash {:trigger SameFlight(es, i, j, h, cfg)} |
      SameFlight(es, i, j, h, cfg) :: es[j].at - es[i].at >= BaseWindow(cfg)
  }

  /** When the request after `k` failed ones is made: as soon as the table lets it out. */
  function RetryTime(k: nat, cfg: Timeouts, draw: int -> int): int {
    if k == 0 then 0
    else RetryTime(k - 1, cfg, draw) + (if Window(k - 1, cfg, draw) > 0 then Window(k - 1, cfg, draw) else 0)
  }

  function Retry(k: nat, cfg: Timeouts, draw: int -> int): Event {
    Request(NO_HASH, RetryTime(k, cfg, draw), draw)
  }

  /** One hash requested `n` times in a row. */
  function Retries(n: nat, cfg: Timeouts, draw: int -> int): (es: seq<Event>)
    ensures |es| == n
  {
    if n == 0 then [] else Retries(n - 1, cfg, draw) + [Retry(n - 1, cfg, draw)]
  }

  lemma {:induction false} RetriesAt(n: nat, k: nat, cfg: Timeouts, draw: int -> int)
    requires k < n
    ensures Retries(n, cfg, draw)[k] == Retry(k, cfg, draw)
    ensures Retries(n, cfg, draw)[..k] == Retries(k, cfg, draw)
  {
    if k < n - 1 {
      RetriesAt(n - 1, k, cfg, draw);
    }
  }

  lemma TableAppend(es: seq<Event>, h: Hash, at: int, draw: int -> int, cfg: Timeouts)
    ensures Table(es + [Request(h, at, draw)], cfg) == Added(Table(es, cfg), h, at, cfg, draw)
  {
    assert (es + [Request(h, at, draw)])[..|es|] == es;
  }

  lemma {:induction false} RetryTimeGrows(i: nat, j: nat, cfg: Timeouts, draw: int -> int)
    requires i <= j
    ensures RetryTime(i, cfg, draw) <= RetryTime(j, cfg, draw)
  {
    if i < j {
      RetryTimeGrows(i, j - 1, cfg, draw);
    }
  }

  /** `r` requests have gone out, and the next one may. */
  ghost predicate Due(reqs: Requests, r: nat, at: int) {
    !Live(reqs, NO_HASH, at) && NextRetry(reqs, NO_HASH) == Smaller(r, MAX_RETRIES)
  }

  lemma DueAgain(reqs: Requests, r: nat, at: int, window: int, next: int)
    requires Due(reqs, r, at) && r <= MAX_RETRIES && next >= at + window
    ensures Due(reqs[NO_HASH := Meta(at, at + window, r)], r + 1, next)
  {
  }

  lemma AddedWhenDue(reqs: Requests, r: nat, at: int, cfg: Timeouts, draw: int -> int)
    requires Due(reqs, r, at) && r <= MAX_RETRIES
    ensures Added(reqs, NO_HASH, at, cfg, draw) == reqs[NO_HASH := Meta(at, at + Window(r, cfg, draw), r)]
  {
  }

  lemma TableOfRetries(n: nat, cfg: Timeouts, draw: int -> int)
    ensures Table(Retries(n + 1, cfg, draw), cfg) ==
              Added(Table(Retries(n, cfg, draw), cfg), NO_HASH, RetryTime(n, cfg, draw), cfg, draw)
  {
    TableAppend(Retries(n, cfg, draw), NO_HASH, RetryTime(n, cfg, draw), draw, cfg);
  }

  lemma NextRetryTime(n: nat, cfg: Timeouts, draw: int -> int)
    ensures RetryTime(n + 1, cfg, draw) >= RetryTime(n, cfg, draw) + Window(n, cfg, draw)
  {
  }

  /** One more retry: it replaces the entry, and the next one will find it expired. */
  lemma RetriesStep(n: nat, cfg: Timeouts, draw: int -> int)
    requires n <= MAX_RETRIES && Due(Table(Retries(n, cfg, draw), cfg), n, RetryTime(n, cfg, draw))
    ensures Due(Table(Retries(n + 1, cfg, draw), cfg), n + 1, RetryTime(n + 1, cfg, draw))
  {
    var reqs, at := Table(Retries(n, cfg, draw), cfg), RetryTime(n, cfg, draw);
    TableOfRetries(n, cfg, draw);
    AddedWhenDue(reqs, n, at, cfg, draw);
    NextRetryTime(n, cfg, draw);
    DueAgain(reqs, n, at, Window(n, cfg, draw), RetryTime(n + 1, cfg, draw));
  }

  lemma {:induction false} RetriesGoOut(n: nat, cfg: Timeouts, draw: int -> int)
    requires n <= MAX_RETRIES + 1
    ensures Due(Table(Retries(n, cfg, draw), cfg), n, RetryTime(n, cfg, draw))
  {
    if n > 0 {
      RetriesGoOut(n - 1, cfg, draw);
      RetriesStep(n - 1, cfg, draw);
    }
  }

  lemma RetryGoesOut(n: nat, k: nat, cfg: Timeouts, draw: int -> int)
    requires k < n && k <= MAX_RETRIES + 1
    ensures GoesOut(Retries(n, cfg, draw), k, NO_HASH, cfg)
  {
    RetriesAt(n, k, cfg, draw);
    RetriesGoOut(k, cfg, draw);
  }

  lemma RetriesTimely(n: nat, cfg: Timeouts, draw: int -> int)
    requires Uniform(draw)
    ensures Timely(Retries(n, cfg, draw))
  {
    var es := Retries(n, cfg, draw);
    forall i: nat | i < n ensures es[i] == Retry(i, cfg, draw) {
      RetriesAt(n, i, cfg, draw);
    }
    forall i, j | 0 <= i <= j < n ensures es[i].at <= es[j].at {
      RetryTimeGrows(i, j, cfg, draw);
    }
  }

  lemma NeighboursAreSameFlight(es: seq<Event>, i: nat, h: Hash, cfg: Timeouts)
    requires i + 1 < |es| && Timely(es) && GoesOut(es, i, h, cfg) && GoesOut(es, i + 1, h, cfg)
    ensures SameFlight(es, i, i + 1, h, cfg)
  {
  }

  /** The gap between two such requests is the window of the first. */
  lemma RetriesAreSameFlight(r: nat, cfg: Timeouts, draw: int -> int)
    requires r <= MAX_RETRIES && Uniform(draw)
    ensures var es := Retries(r + 2, cfg, draw);
            && SameFlight(es, r, r + 1, NO_HASH, cfg)
            && es[r + 1].at - es[r].at == (if Window(r, cfg, draw) > 0 then Window(r, cfg, draw) else 0)
  {
    RetriesTimely(r + 2, cfg, draw);
    RetryGoesOut(r + 2, r, cfg, draw);
    RetryGoesOut(r + 2, r + 1, cfg, draw);
    RetriesAt(r + 2, r, cfg, draw);
    RetriesAt(r + 2, r + 1, cfg, draw);
    NeighboursAreSameFlight(Retries(r + 2, cfg, draw), r, NO_HASH, cfg);
  }

  /** Single flight holds in every run exactly for the configurations that ask
      for no positive window or stay below the two bounds. */
  lemma SingleFlightIff(cfg: Timeouts)
    ensures SingleFlightHolds(cfg) <==> BaseWindow(cfg) <= 0 || Sane(cfg)
  {
    if BaseWindow(cfg) > 0 && !Sane(cfg) {
      var r, draw := ShortWindow(cfg);
      RetriesAreSameFlight(r, cfg, draw);
    } else {
      forall es: seq<Event>, i: nat, j: nat, h: Hash | SameFlight(es, i, j, h, cfg)
        ensures es[j].at - es[i].at >= BaseWindow(cfg)
      {
        if BaseWindow(cfg) > 0 {
          LongWindowsIff(cfg);
          SingleFlight(es, i, j, h, cfg);
        }
      }
    }
  }

  /** A base timeout of 2^48 ns makes the last retry wait a negative time, and
      single flight fails at every positive cap. */
  lemma BackoffOverflows(maxBackoff: int64)
    requires maxBackoff > 0
    ensures var cfg := Timeouts(TOO_LONG, maxBackoff);
            Backoff(MAX_RETRIES, cfg) == MIN64 && !SingleFlightHolds(cfg)
  {
    Pow2Of15();
    SingleFlightIff(Timeouts(TOO_LONG, maxBackoff));
  }

  /** One nanosecond less and no cap to speak of: every product fits, but the
      jitter carries the last window past 64 bits, and single flight fails. */
  lemma JitterOverflows()
    ensures var cfg := Timeouts(TOO_LONG - 1, MAX64);
            && (forall r: nat | r <= MAX_RETRIES :: Backoff(r, cfg) == Smaller(cfg.baseTimeout * Pow2(r), cfg.maxBackoff))
            && !SingleFlightHolds(cfg)
  {
    var cfg := Timeouts(TOO_LONG - 1, MAX64);
    Pow2Of15();
    BackoffsExactIff(cfg);
    SingleFlightIff(cfg);
  }
}
