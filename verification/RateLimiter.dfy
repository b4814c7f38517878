/** The per-address token bucket, over exact arithmetic and a clock that never runs backwards. */
module RateLimiter {
  import opened Bytes

  /** A valid netip.Addr; the zero value, which is not valid, is None at the call. */
  datatype Addr = Addr(bits: nat, zone: string)

  datatype Params = Params(capacity: real, refill: real)

  predicate Sane(p: Params) {
    p.capacity >= 0.0 && p.refill >= 0.0
  }

  datatype Bucket = Bucket(tokens: real, seen: real)

  type Buckets = map<Addr, Bucket>

  /** Tokens plus what has trickled in since, uncapped. */
  function Raw(p: Params, b: Bucket, now: real): real {
    b.tokens + (now - b.seen) * p.refill
  }

  /** What an address has to spend at a moment; one that is not remembered has a full bucket. */
  function Level(p: Params, m: Buckets, a: Addr, now: real): real {
    if a in m && Raw(p, m[a], now) < p.capacity then Raw(p, m[a], now) else p.capacity
  }

  predicate Grants(p: Params, m: Buckets, a: Addr, now: real) {
    Level(p, m, a, now) >= 1.0
  }

  /** The buckets after a request of a. */
  function Spent(p: Params, m: Buckets, a: Addr, now: real): Buckets {
    m[a := Bucket(Level(p, m, a, now) - (if Grants(p, m, a, now) then 1.0 else 0.0), now)]
  }

  /** The buckets a sweep keeps. */
  function Swept(p: Params, m: Buckets, now: real): Buckets {
    map a | a in m && Raw(p, m[a], now) < p.capacity :: m[a]
  }

  class Limiter {
    const params: Params
    var buckets: Buckets

    constructor (params: Params)
      ensures this.params == params && buckets == map[]
    {
      this.params, buckets := params, map[];
    }

    /** Takes one token for addr; without an address there is nothing to key on. */
    method Allow(addr: Option<Addr>, now: real) returns (ok: bool)
      modifies this`buckets
      ensures addr.None? ==> ok && buckets == old(buckets)
      ensures addr.Some? ==> ok == Grants(params, old(buckets), addr.value, now)
                             && buckets == Spent(params, old(buckets), addr.value, now)
    {
      if addr.None? { return true; }
      var a := addr.value;
      var b := if a in buckets then buckets[a] else Bucket(params.capacity, now);
      var tokens := Raw(params, b, now);
      if a !in buckets { RawNow(params, b, now); }
      if params.capacity < tokens { tokens := params.capacity; }
      assert tokens == Level(params, buckets, a, now);
      ok := tokens >= 1.0;
      buckets := buckets[a := Bucket(if ok then tokens - 1.0 else tokens, now)];
    }

    /** Forgets the buckets that have refilled. */
    method Sweep(now: real)
      modifies this`buckets
      ensures buckets == Swept(params, old(buckets), now)
    {
      var todo := buckets.Keys;
      while todo != {}
        invariant todo <= old(buckets).Keys
        invariant buckets == map a | a in old(buckets)
                                     && (a in todo || Raw(params, old(buckets)[a], now) < params.capacity)
                               :: old(buckets)[a]
        decreases todo
      {
        var a :| a in todo;
        if Raw(params, buckets[a], now) >= params.capacity {
          buckets := buckets - {a};
        }
        todo := todo - {a};
      }
    }
  }

  // ---------------------------------------------------------------- histories

  datatype Event = Request(addr: Addr, at: real) | Sweeping(at: real)

  function After(p: Params, m: Buckets, e: Event): Buckets {
    match e
    case Request(a, at) => Spent(p, m, a, at)
    case Sweeping(at) => Swept(p, m, at)
  }

  /** Times start at or after t and never go back. */
  predicate Ordered(es: seq<Event>, t: real) {
    es == [] || (t <= es[0].at && Ordered(es[1..], es[0].at))
  }

  /** The answers to the requests, in order. */
  function Decisions(p: Params, m: Buckets, es: seq<Event>): seq<bool>
    decreases |es|
  {
    if es == [] then []
    else (if es[0].Request? then [Grants(p, m, es[0].addr, es[0].at)] else [])
         + Decisions(p, After(p, m, es[0]), es[1..])
  }

  function WithoutSweeps(es: seq<Event>): seq<Event> {
    if es == [] then [] else (if es[0].Request? then [es[0]] else []) + WithoutSweeps(es[1..])
  }

  // ---------------------------------------------------------------- sweeping is invisible

  /** From t on, both maps give every address the same to spend. */
  ghost predicate SameFrom(p: Params, m: Buckets, m': Buckets, t: real) {
    forall a, u: real :: t <= u ==> Level(p, m, a, u) == Level(p, m', a, u)
  }

  lemma RawGrows(p: Params, b: Bucket, t: real, u: real)
    requires p.refill >= 0.0 && t <= u
    ensures Raw(p, b, t) <= Raw(p, b, u) == Raw(p, b, t) + (u - t) * p.refill
  {
    assert (u - b.seen) * p.refill == (t - b.seen) * p.refill + (u - t) * p.refill;
  }

  lemma SweepKeepsLevels(p: Params, m: Buckets, t: real)
    requires Sane(p)
    ensures SameFrom(p, Swept(p, m, t), m, t)
  {
    forall a, u: real | t <= u ensures Level(p, Swept(p, m, t), a, u) == Level(p, m, a, u) {
      if a in m { RawGrows(p, m[a], t, u); }
    }
  }

  lemma RequestKeepsSame(p: Params, m: Buckets, m': Buckets, a: Addr, t: real)
    requires SameFrom(p, m, m', t)
    ensures SameFrom(p, Spent(p, m, a, t), Spent(p, m', a, t), t)
  {
    assert Level(p, m, a, t) == Level(p, m', a, t);
    forall c, u: real | t <= u ensures Level(p, Spent(p, m, a, t), c, u) == Level(p, Spent(p, m', a, t), c, u) {
      if c != a { assert Level(p, m, c, u) == Level(p, m', c, u); }
    }
  }

  lemma {:induction false} SweepsInvisibleFrom(p: Params, m: Buckets, m': Buckets, es: seq<Event>, t: real)
    requires Sane(p) && SameFrom(p, m, m', t) && Ordered(es, t)
    ensures Decisions(p, m, es) == Decisions(p, m', WithoutSweeps(es))
    decreases |es|
  {
    if es != [] {
      var e, u := es[0], es[0].at;
      assert SameFrom(p, m, m', u);
      if e.Request? {
        RequestKeepsSame(p, m, m', e.addr, u);
        assert Level(p, m, e.addr, u) == Level(p, m', e.addr, u);
        SweepsInvisibleFrom(p, After(p, m, e), After(p, m', e), es[1..], u);
        assert WithoutSweeps(es)[0] == e && WithoutSweeps(es)[1..] == WithoutSweeps(es[1..]);
      } else {
        SweepKeepsLevels(p, m, u);
        forall a, v: real | u <= v ensures Level(p, After(p, m, e), a, v) == Level(p, m', a, v) {
          assert Level(p, After(p, m, e), a, v) == Level(p, m, a, v);
        }
        SweepsInvisibleFrom(p, After(p, m, e), m', es[1..], u);
        assert WithoutSweeps(es) == WithoutSweeps(es[1..]);
      }
    }
  }

  /** Sweeps, however many and whenever, never change a single answer. */
  lemma SweepsInvisible(p: Params, m: Buckets, es: seq<Event>, t: real)
    requires Sane(p) && Ordered(es, t)
    ensures Decisions(p, m, es) == Decisions(p, m, WithoutSweeps(es))
  {
    SweepsInvisibleFrom(p, m, m, es, t);
  }

  // ---------------------------------------------------------------- the rate bound

  /** How many requests of a are granted. */
  function Granted(p: Params, m: Buckets, es: seq<Event>, a: Addr): nat
    decreases |es|
  {
    if es == [] then 0
    else (if es[0].Request? && es[0].addr == a && Grants(p, m, a, es[0].at) then 1 else 0)
         + Granted(p, After(p, m, es[0]), es[1..], a)
  }

  /** No bucket is in debt or from the future. */
  ghost predicate Solvent(p: Params, m: Buckets, t: real) {
    forall a | a in m :: m[a].tokens >= 0.0 && m[a].seen <= t
  }

  lemma LevelBounds(p: Params, m: Buckets, a: Addr, t: real, u: real)
    requires Sane(p) && Solvent(p, m, t) && t <= u
    ensures 0.0 <= Level(p, m, a, u) <= Level(p, m, a, t) + (u - t) * p.refill
    ensures Level(p, m, a, u) <= p.capacity
  {
    Gains(p, t, u);
    if a in m {
      RawGrows(p, m[a], t, u);
      RawNotBelow(p, m[a], u);
    }
  }

  /** What trickles in between two moments. */
  lemma Gains(p: Params, t: real, u: real)
    requires Sane(p) && t <= u
    ensures (u - t) * p.refill >= 0.0
  {
    NonNegative(u - t, p.refill);
  }

  lemma RawNotBelow(p: Params, b: Bucket, u: real)
    requires Sane(p) && b.seen <= u
    ensures Raw(p, b, u) >= b.tokens
  {
    Gains(p, b.seen, u);
  }

  lemma NonNegative(x: real, y: real)
    requires x >= 0.0 && y >= 0.0
    ensures x * y >= 0.0
  {
  }

  lemma EventKeepsSolvent(p: Params, m: Buckets, e: Event, t: real)
    requires Sane(p) && Solvent(p, m, t) && t <= e.at
    ensures Solvent(p, After(p, m, e), e.at)
  {
    if e.Request? { LevelBounds(p, m, e.addr, t, e.at); }
  }

  lemma {:induction false} GrantsBounded(p: Params, m: Buckets, es: seq<Event>, a: Addr, t: real, end: real)
    requires Sane(p) && Solvent(p, m, t) && Ordered(es, t) && t <= end
    requires es != [] ==> es[|es| - 1].at <= end
    ensures Granted(p, m, es, a) as real <= Level(p, m, a, t) + (end - t) * p.refill
    decreases |es|
  {
    LevelBounds(p, m, a, t, t);
    assert (end - t) * p.refill >= 0.0;
    if es != [] {
      var e, u, m' := es[0], es[0].at, After(p, m, es[0]);
      OrderedReaches(es[1..], u, end, es);
      LevelBounds(p, m, a, t, u);
      EventKeepsSolvent(p, m, e, t);
      GrantsBounded(p, m', es[1..], a, u, end);
      assert (end - t) * p.refill == (end - u) * p.refill + (u - t) * p.refill;
      LevelAfter(p, m, e, a);
    }
  }

  /** Nothing trickles in in no time. */
  lemma RawNow(p: Params, b: Bucket, now: real)
    requires b.seen == now
    ensures Raw(p, b, now) == b.tokens
  {
    TimesNothing(now - b.seen, p.refill);
  }

  lemma TimesNothing(x: real, y: real)
    requires x == 0.0
    ensures x * y == 0.0
  {
  }

  /** An event costs an address exactly what it is granted. */
  lemma LevelAfter(p: Params, m: Buckets, e: Event, a: Addr)
    requires Sane(p)
    ensures Level(p, After(p, m, e), a, e.at)
         == Level(p, m, a, e.at) - (if e.Request? && e.addr == a && Grants(p, m, a, e.at) then 1.0 else 0.0)
  {
    if e.Sweeping? {
      SweepKeepsLevels(p, m, e.at);
    } else if e.addr == a {
      RawNow(p, After(p, m, e)[a], e.at);
    }
  }

  lemma {:induction false} OrderedReaches(es: seq<Event>, t: real, end: real, all: seq<Event>)
    requires all != [] && es == all[1..] && t == all[0].at && Ordered(es, t) && all[|all| - 1].at <= end
    ensures t <= end && (es != [] ==> es[|es| - 1].at <= end)
  {
    if es != [] {
      assert es[|es| - 1] == all[|all| - 1];
      OrderedReaches(es[1..], es[0].at, end, es);
    }
  }

  /** The buckets after a history. */
  function AfterAll(p: Params, m: Buckets, es: seq<Event>): Buckets
    decreases |es|
  {
    if es == [] then m else AfterAll(p, After(p, m, es[0]), es[1..])
  }

  lemma {:induction false} HistorySolvent(p: Params, m: Buckets, es: seq<Event>, t: real, end: real)
    requires Sane(p) && Solvent(p, m, t) && Ordered(es, t) && t <= end
    requires es != [] ==> es[|es| - 1].at <= end
    ensures Solvent(p, AfterAll(p, m, es), end)
    decreases |es|
  {
    if es != [] {
      OrderedReaches(es[1..], es[0].at, end, es);
      EventKeepsSolvent(p, m, es[0], t);
      HistorySolvent(p, After(p, m, es[0]), es[1..], es[0].at, end);
    }
  }

  /**
   From a fresh limiter, after any history and however sweeps fall, in every window of length
   end - t one address is granted at most a full bucket plus what refills during the window.
   */
  lemma RateBound(p: Params, before: seq<Event>, window: seq<Event>, a: Addr, start: real, t: real, end: real)
    requires Sane(p) && start <= t <= end
    requires Ordered(before, start) && (before != [] ==> before[|before| - 1].at <= t)
    requires Ordered(window, t) && (window != [] ==> window[|window| - 1].at <= end)
    ensures Granted(p, AfterAll(p, map[], before), window, a) as real <= p.capacity + p.refill * (end - t)
  {
    var m := AfterAll(p, map[], before);
    HistorySolvent(p, map[], before, start, t);
    GrantsBounded(p, m, window, a, t, end);
    LevelBounds(p, m, a, t, t);
  }

  // ---------------------------------------------------------------- nothing is refused without need

  /** When a window over these events begins: at the first of them, or at its end. */
  function StartOf(es: seq<Event>, end: real): real {
    if es == [] then end else es[0].at
  }

  /**
   What an address has to spend at the end of a history: all it had, refilled and spent, if its bucket was
   never full in between; otherwise the same from some full bucket on, at event k.
   */
  ghost predicate SpentSince(p: Params, m: Buckets, es: seq<Event>, a: Addr, end: real, k: nat)
    requires k <= |es|
  {
    Level(p, AfterAll(p, m, es), a, end)
    == p.capacity + (end - StartOf(es[k..], end)) * p.refill
       - Granted(p, AfterAll(p, m, es[..k]), es[k..], a) as real
  }

  /** Two stretches of time refill as much as both together. */
  lemma RefillAdds(t: real, u: real, end: real, refill: real)
    ensures (u - t) * refill + (end - u) * refill == (end - t) * refill
  {
  }

  lemma LevelBetween(p: Params, m: Buckets, a: Addr, t: real, u: real) returns (full: bool)
    requires Sane(p) && t <= u
    ensures Level(p, m, a, u) == if full then p.capacity else Level(p, m, a, t) + (u - t) * p.refill
  {
    Gains(p, t, u);
    if a in m { RawGrows(p, m[a], t, u); }
    full := !(Level(p, m, a, t) + (u - t) * p.refill <= p.capacity);
  }

  /** The bucket was never full between t and the end. */
  ghost predicate NeverFull(p: Params, m: Buckets, es: seq<Event>, a: Addr, t: real, end: real) {
    Level(p, AfterAll(p, m, es), a, end) == Level(p, m, a, t) + (end - t) * p.refill - Granted(p, m, es, a) as real
  }

  /** The bucket was never full, or it was at some event. */
  lemma {:induction false} LevelSince(p: Params, m: Buckets, es: seq<Event>, a: Addr, t: real, end: real)
    returns (k: Option<nat>)
    requires Sane(p) && Ordered(es, t) && t <= end && (es != [] ==> es[|es| - 1].at <= end)
    ensures k.None? ==> NeverFull(p, m, es, a, t, end)
    ensures k.Some? ==> k.value <= |es| && SpentSince(p, m, es, a, end, k.value)
    decreases |es|
  {
    if es == [] {
      k := LevelAtEnd(p, m, a, t, end);
    } else {
      OrderedReaches(es[1..], es[0].at, end, es);
      k := LevelSince(p, After(p, m, es[0]), es[1..], a, es[0].at, end);
      if k.Some? {
        SpentLater(p, m, es, a, end, k.value);
        k := Some(k.value + 1);
      } else {
        FirstCosts(p, m, es, a, end);
        k := LevelFromFirst(p, m, es, a, t, end);
      }
    }
  }

  lemma LevelAtEnd(p: Params, m: Buckets, a: Addr, t: real, end: real) returns (k: Option<nat>)
    requires Sane(p) && t <= end
    ensures k.None? ==> NeverFull(p, m, [], a, t, end)
    ensures k.Some? ==> k.value == 0 && SpentSince(p, m, [], a, end, 0)
  {
    var full := LevelBetween(p, m, a, t, end);
    if full { TimesNothing(end - end, p.refill); }
    k := if full then Some(0) else None;
  }

  lemma LevelFromFirst(p: Params, m: Buckets, es: seq<Event>, a: Addr, t: real, end: real) returns (k: Option<nat>)
    requires Sane(p) && es != [] && t <= es[0].at && NeverFull(p, m, es, a, es[0].at, end)
    ensures k.None? ==> NeverFull(p, m, es, a, t, end)
    ensures k.Some? ==> k.value == 0 && SpentSince(p, m, es, a, end, 0)
  {
    var full := LevelBetween(p, m, a, t, es[0].at);
    if full {
      FullAtFirst(p, m, es, a, end);
      k := Some(0);
    } else {
      NeverFullBefore(p, m, es, a, t, es[0].at, end);
      k := None;
    }
  }

  lemma NeverFullBefore(p: Params, m: Buckets, es: seq<Event>, a: Addr, t: real, u: real, end: real)
    requires NeverFull(p, m, es, a, u, end) && Level(p, m, a, u) == Level(p, m, a, t) + (u - t) * p.refill
    ensures NeverFull(p, m, es, a, t, end)
  {
    RefillAdds(t, u, end, p.refill);
  }

  lemma FirstCosts(p: Params, m: Buckets, es: seq<Event>, a: Addr, end: real)
    requires Sane(p) && es != []
    requires NeverFull(p, After(p, m, es[0]), es[1..], a, es[0].at, end)
    ensures NeverFull(p, m, es, a, es[0].at, end)
  {
    LevelAfter(p, m, es[0], a);
  }

  lemma FromTheStart(p: Params, m: Buckets, es: seq<Event>)
    ensures es[0..] == es && AfterAll(p, m, es[..0]) == m
  {
  }

  lemma SpentLater(p: Params, m: Buckets, es: seq<Event>, a: Addr, end: real, k: nat)
    requires es != [] && k < |es| && SpentSince(p, After(p, m, es[0]), es[1..], a, end, k)
    ensures SpentSince(p, m, es, a, end, k + 1)
  {
    assert es[1..][k..] == es[k + 1..];
    assert es[..k + 1][0] == es[0] && es[..k + 1][1..] == es[1..][..k];
  }

  /**
   From a fresh limiter, whatever came before: a request is refused only if its address was granted, in some
   window that ends then, more than a full bucket and what refills during the window, less one.  With
   RateBound that is all a window can take.
   */
  lemma RefusedIsSpent(p: Params, es: seq<Event>, a: Addr, start: real, now: real)
    requires Sane(p) && Ordered(es, start) && (es != [] ==> es[|es| - 1].at <= now) && start <= now
    requires !Grants(p, AfterAll(p, map[], es), a, now)
    ensures exists k: nat :: k <= |es| && Overspent(p, es, a, now, k)
  {
    var t := StartOf(es, now);
    if es != [] { OrderedReaches(es[1..], t, now, es); }
    var k := LevelSince(p, map[], es, a, t, now);
    if k.None? { FullAtFirst(p, map[], es, a, now); }
    RefusedOverspent(p, es, a, now, if k.None? then 0 else k.value);
  }

  lemma FullAtFirst(p: Params, m: Buckets, es: seq<Event>, a: Addr, end: real)
    requires NeverFull(p, m, es, a, StartOf(es, end), end) && Level(p, m, a, StartOf(es, end)) == p.capacity
    ensures SpentSince(p, m, es, a, end, 0)
  {
    FromTheStart(p, m, es);
  }

  lemma RefusedOverspent(p: Params, es: seq<Event>, a: Addr, now: real, k: nat)
    requires k <= |es| && SpentSince(p, map[], es, a, now, k) && !Grants(p, AfterAll(p, map[], es), a, now)
    ensures Overspent(p, es, a, now, k)
  {
  }

  /** From event k on, the address was granted all that a full bucket then allowed, but for less than one token. */
  ghost predicate Overspent(p: Params, es: seq<Event>, a: Addr, now: real, k: nat)
    requires k <= |es|
  {
    Granted(p, AfterAll(p, map[], es[..k]), es[k..], a) as real
    > p.capacity + p.refill * (now - StartOf(es[k..], now)) - 1.0
  }
}
