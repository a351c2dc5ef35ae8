/** The two-level token-bucket admission of new connections, with its bounded, evicting table of addresses
    (sc_transport/ScTransport.cpp). Times and tokens are reals. */
module RateLimit {
  import opened Octets

  type Address = Text
  type Time = real

  const MAX_TRACKED_ADDRESSES := 1024

  /** `lastRefill` is 0 for a bucket that was never touched; the clock never shows 0. */
  datatype Bucket = Bucket(tokens: real, lastRefill: Time)

  const UNTOUCHED := Bucket(0.0, 0.0)

  // ---- One bucket ---------------------------------------------------------

  /** The tokens earned in that many seconds. */
  function Earned(seconds: real, rate: nat): real {
    seconds * rate as real
  }

  lemma EarnedGrows(x: real, y: real, rate: nat)
    requires x <= y
    ensures Earned(x, rate) <= Earned(y, rate)
  {
  }

  lemma EarnedAdds(x: real, y: real, rate: nat)
    ensures Earned(x + y, rate) == Earned(x, rate) + Earned(y, rate)
    ensures Earned(0.0, rate) == 0.0 && Earned(1.0, rate) == rate as real
  {
  }

  function Refilled(b: Bucket, rate: nat, now: Time): real {
    var capacity := rate as real;
    if b.lastRefill == 0.0 then capacity
    else
      var refilled := b.tokens + Earned(now - b.lastRefill, rate);
      if refilled < capacity then refilled else capacity
  }

  /** TakeToken: refill, then take one token if there is one. */
  function Take(b: Bucket, rate: nat, now: Time): (Bucket, bool) {
    var tokens := Refilled(b, rate, now);
    if tokens >= 1.0 then (Bucket(tokens - 1.0, now), true) else (Bucket(tokens, now), false)
  }

  method TakeToken(b: Bucket, rate: nat, now: Time) returns (after: Bucket, taken: bool)
    ensures (after, taken) == Take(b, rate, now)
  {
    var capacity := rate as real;
    var tokens := b.tokens;
    if b.lastRefill == 0.0 {
      tokens := capacity;
    } else {
      var refilled := tokens + (now - b.lastRefill) * capacity;
      assert refilled == b.tokens + Earned(now - b.lastRefill, rate);
      tokens := if refilled < capacity then refilled else capacity;
    }
    assert tokens == Refilled(b, rate, now);
    if tokens >= 1.0 {
      return Bucket(tokens - 1.0, now), true;
    }
    return Bucket(tokens, now), false;
  }

  // ---- The limiter --------------------------------------------------------

  datatype Verdict = Admitted | PerAddress | Total

  /** A limit of 0 is off. */
  datatype Limiter = Limiter(perAddress: nat, total: nat, totalBucket: Bucket, buckets: map<Address, Bucket>)

  /** The table without the addresses that were idle for a second. */
  function Aged(buckets: map<Address, Bucket>, now: Time): map<Address, Bucket> {
    map a | a in buckets && now - buckets[a].lastRefill < 1.0 :: buckets[a]
  }

  /** The table with a bucket for `address` in it, if there is room; a table without a bound always has room. */
  function Tracked(bounded: bool, buckets: map<Address, Bucket>, address: Address, now: Time): map<Address, Bucket> {
    if address in buckets then buckets
    else
      var aged := if bounded && |buckets| >= MAX_TRACKED_ADDRESSES then Aged(buckets, now) else buckets;
      if bounded && |aged| >= MAX_TRACKED_ADDRESSES then aged else aged[address := UNTOUCHED]
  }

  /** The "no room" fallback: this attempt is checked against the total limit only. */
  predicate FallsBack(s: Limiter, address: Address, now: Time) {
    s.perAddress != 0 && address !in Tracked(true, s.buckets, address, now)
  }

  function CheckTotal(s: Limiter, now: Time): (Limiter, Verdict) {
    if s.total == 0 then (s, Admitted)
    else
      var (b, taken) := Take(s.totalBucket, s.total, now);
      (s.(totalBucket := b), if taken then Admitted else Total)
  }

  /** AllowNewConnectionAttempt, and the same with a table that never forgets. */
  function Attempt(bounded: bool, s: Limiter, address: Address, now: Time): (Limiter, Verdict) {
    if s.perAddress == 0 then CheckTotal(s, now)
    else
      var table := Tracked(bounded, s.buckets, address, now);
      if address !in table then CheckTotal(s.(buckets := table), now)
      else
        var (b, taken) := Take(table[address], s.perAddress, now);
        var s1 := s.(buckets := table[address := b]);
        if taken then CheckTotal(s1, now) else (s1, PerAddress)
  }

  class RateLimiter {
    var perAddressRateLimit: nat
    var totalRateLimit: nat
    var totalBucket: Bucket
    var addressBuckets: map<Address, Bucket>

    function State(): Limiter
      reads this
    {
      Limiter(perAddressRateLimit, totalRateLimit, totalBucket, addressBuckets)
    }

    constructor ()
      ensures State() == Limiter(0, 0, UNTOUCHED, map[])
    {
      perAddressRateLimit, totalRateLimit, totalBucket, addressBuckets := 0, 0, UNTOUCHED, map[];
    }

    method SetConnectionRateLimits(perAddressPerSecond: nat, totalPerSecond: nat)
      modifies this
      ensures State() == Limiter(perAddressPerSecond, totalPerSecond, UNTOUCHED, map[])
    {
      perAddressRateLimit, totalRateLimit := perAddressPerSecond, totalPerSecond;
      totalBucket, addressBuckets := UNTOUCHED, map[];
    }

    /** Forgets every address that has had time to refill completely. */
    method AgeOut(now: Time)
      modifies this`addressBuckets
      ensures addressBuckets == Aged(old(addressBuckets), now)
    {
      var todo := addressBuckets.Keys;
      while todo != {}
        invariant todo <= addressBuckets.Keys <= old(addressBuckets).Keys
        invariant forall a :: a in addressBuckets ==> addressBuckets[a] == old(addressBuckets)[a]
        invariant forall a :: a in old(addressBuckets) && a !in todo ==>
                    (a in addressBuckets <==> now - old(addressBuckets)[a].lastRefill < 1.0)
        decreases todo
      {
        var a :| a in todo;
        if now - addressBuckets[a].lastRefill >= 1.0 {
          addressBuckets := addressBuckets - {a};
        }
        todo := todo - {a};
      }
    }

    method AllowNewConnectionAttempt(address: Address, now: Time) returns (verdict: Verdict)
      modifies this
      ensures (State(), verdict) == Attempt(true, old(State()), address, now)
    {
      hide Take;
      if perAddressRateLimit != 0 {
        var known := address in addressBuckets;
        if !known && |addressBuckets| >= MAX_TRACKED_ADDRESSES {
          AgeOut(now);
        }
        if !known && |addressBuckets| < MAX_TRACKED_ADDRESSES {
          addressBuckets := addressBuckets[address := UNTOUCHED];
        }
        if address in addressBuckets {
          var b, taken := TakeToken(addressBuckets[address], perAddressRateLimit, now);
          addressBuckets := addressBuckets[address := b];
          if !taken {
            return PerAddress;
          }
        }
      }
      if totalRateLimit != 0 {
        var b, taken := TakeToken(totalBucket, totalRateLimit, now);
        totalBucket := b;
        if !taken {
          return Total;
        }
      }
      return Admitted;
    }
  }

  // ---- Runs ---------------------------------------------------------------

  datatype Arrival = Arrival(at: Time, from: Address)

  predicate NonDecreasing(start: Time, arrivals: seq<Arrival>) {
    (forall i :: 0 <= i < |arrivals| ==> start <= arrivals[i].at) &&
    forall i, j :: 0 <= i < j < |arrivals| ==> arrivals[i].at <= arrivals[j].at
  }

  function Run(bounded: bool, s: Limiter, arrivals: seq<Arrival>): (r: (Limiter, seq<Verdict>))
    ensures |r.1| == |arrivals|
    decreases |arrivals|
  {
    if arrivals == [] then (s, [])
    else
      var (s1, v) := Attempt(bounded, s, arrivals[0].from, arrivals[0].at);
      var (s2, vs) := Run(bounded, s1, arrivals[1..]);
      (s2, [v] + vs)
  }

  /** No attempt of the run is checked against the total limit only. */
  predicate NeverFallsBack(s: Limiter, arrivals: seq<Arrival>)
    decreases |arrivals|
  {
    arrivals != [] ==>
      !FallsBack(s, arrivals[0].from, arrivals[0].at) &&
      NeverFallsBack(Attempt(true, s, arrivals[0].from, arrivals[0].at).0, arrivals[1..])
  }

  /** A bucket that can be there at time `now`: untouched, or touched by then and not over its capacity. */
  predicate BucketOk(b: Bucket, rate: nat, now: Time) {
    b.lastRefill == 0.0 || (0.0 < b.lastRefill <= now && 0.0 <= b.tokens <= rate as real)
  }

  predicate LimiterOk(s: Limiter, now: Time) {
    BucketOk(s.totalBucket, s.total, now) && forall a :: a in s.buckets ==> BucketOk(s.buckets[a], s.perAddress, now)
  }

  lemma TakeOk(b: Bucket, rate: nat, was: Time, now: Time)
    requires BucketOk(b, rate, was) && 0.0 < now && was <= now
    ensures var (c, _) := Take(b, rate, now);
            BucketOk(c, rate, now) && c.lastRefill == now && 0.0 <= c.tokens <= rate as real
  {
    if b.lastRefill != 0.0 {
      hide Earned;
      EarnedAdds(0.0, 0.0, rate);
      EarnedGrows(0.0, now - b.lastRefill, rate);
    }
  }

  /** What the table is after making room: what it was, without idle addresses, and perhaps a new bucket. */
  lemma TrackedKeeps(bounded: bool, buckets: map<Address, Bucket>, address: Address, now: Time)
    ensures var t := Tracked(bounded, buckets, address, now);
            (forall a :: a in t ==> (a in buckets && t[a] == buckets[a]) || (a == address && t[a] == UNTOUCHED)) &&
            (forall a :: a in buckets ==> a in t || (bounded && Idle(buckets[a], now) && a != address)) &&
            (address in buckets ==> t == buckets) && (!bounded ==> address in t)
  {
  }

  lemma TrackedSize(buckets: map<Address, Bucket>, address: Address, now: Time)
    requires |buckets| <= MAX_TRACKED_ADDRESSES
    ensures |Tracked(true, buckets, address, now)| <= MAX_TRACKED_ADDRESSES
  {
    AgedIsSmaller(buckets, now);
  }

  lemma AttemptOk(bounded: bool, s: Limiter, address: Address, was: Time, now: Time)
    requires LimiterOk(s, was) && 0.0 < now && was <= now && |s.buckets| <= MAX_TRACKED_ADDRESSES
    ensures var (t, _) := Attempt(bounded, s, address, now);
            LimiterOk(t, now) && (bounded ==> |t.buckets| <= MAX_TRACKED_ADDRESSES)
  {
    hide Take, Tracked, BucketOk;
    TakeOk(s.totalBucket, s.total, was, now);
    BucketLater(s.totalBucket, s.total, was, now);
    BucketsLater(s.buckets, s.perAddress, was, now);
    TrackedKeeps(bounded, s.buckets, address, now);
    TrackedSize(s.buckets, address, now);
    var table := Tracked(bounded, s.buckets, address, now);
    if address in table {
      UntouchedOk(s.perAddress, was);
      TakeOk(table[address], s.perAddress, was, now);
      SameSize(table, address, Take(table[address], s.perAddress, now).0);
    }
  }

  lemma BucketsLater(buckets: map<Address, Bucket>, rate: nat, was: Time, now: Time)
    requires was <= now && forall a :: a in buckets ==> BucketOk(buckets[a], rate, was)
    ensures forall a :: a in buckets ==> BucketOk(buckets[a], rate, now)
    ensures BucketOk(UNTOUCHED, rate, now)
  {
  }

  lemma BucketLater(b: Bucket, rate: nat, was: Time, now: Time)
    requires was <= now && BucketOk(b, rate, was)
    ensures BucketOk(b, rate, now)
  {
  }

  lemma UntouchedOk(rate: nat, now: Time)
    ensures BucketOk(UNTOUCHED, rate, now)
  {
  }

  lemma SameSize(table: map<Address, Bucket>, address: Address, b: Bucket)
    requires address in table
    ensures |table[address := b]| == |table|
  {
    assert table[address := b].Keys == table.Keys;
  }

  lemma AgedIsSmaller(buckets: map<Address, Bucket>, now: Time)
    ensures |Aged(buckets, now)| <= |buckets|
  {
    SubsetSize(Aged(buckets, now).Keys, buckets.Keys);
  }

  lemma {:induction false} SubsetSize<T>(a: set<T>, b: set<T>)
    requires a <= b
    ensures |a| <= |b|
  {
    assert b == a + (b - a);
  }

  /** In every run, fallbacks included, at most 1024 addresses are tracked and every touched bucket holds between 0 and
      its rate. */
  lemma {:induction false} EveryRunStaysBounded(s: Limiter, start: Time, arrivals: seq<Arrival>)
    requires LimiterOk(s, start) && |s.buckets| <= MAX_TRACKED_ADDRESSES
    requires NonDecreasing(start, arrivals) && forall i :: 0 <= i < |arrivals| ==> 0.0 < arrivals[i].at
    ensures var t := Run(true, s, arrivals).0;
            |t.buckets| <= MAX_TRACKED_ADDRESSES &&
            LimiterOk(t, if arrivals == [] then start else arrivals[|arrivals| - 1].at)
    decreases |arrivals|
  {
    if arrivals != [] {
      hide Attempt, LimiterOk;
      AttemptOk(true, s, arrivals[0].from, start, arrivals[0].at);
      EveryRunStaysBounded(Attempt(true, s, arrivals[0].from, arrivals[0].at).0, arrivals[0].at, arrivals[1..]);
    }
  }

  // ---- The bounded table is as good as an unbounded one -------------------

  /** The two limiters differ only in addresses the bounded one has forgotten, each idle for a second or more. */
  predicate Refines(s: Limiter, u: Limiter, now: Time) {
    s.perAddress == u.perAddress && s.total == u.total && s.totalBucket == u.totalBucket && LimiterOk(u, now) &&
    (forall a :: a in s.buckets ==> a in u.buckets && s.buckets[a] == u.buckets[a]) &&
    (forall a :: a in u.buckets ==> u.buckets[a].lastRefill > 0.0 && (a in s.buckets || Idle(u.buckets[a], now)))
  }

  predicate Idle(b: Bucket, now: Time) {
    now - b.lastRefill >= 1.0
  }

  /** A bucket that was idle for a second is full, like one that was never touched. */
  lemma IdleIsFull(b: Bucket, rate: nat, was: Time, now: Time)
    requires BucketOk(b, rate, was) && b.lastRefill > 0.0 && Idle(b, was) && was <= now
    ensures Take(b, rate, now) == Take(UNTOUCHED, rate, now)
  {
    hide Earned;
    EarnedAdds(0.0, 1.0, rate);
    EarnedGrows(1.0, now - b.lastRefill, rate);
  }

  /** The two tables, apart from one address, and that address's bucket in each. */
  predicate TablesRefine(st: map<Address, Bucket>, ut: map<Address, Bucket>, now: Time, apart: Address) {
    (forall a :: a in st && a != apart ==> a in ut && st[a] == ut[a]) &&
    (forall a :: a in ut && a != apart ==> ut[a].lastRefill > 0.0 && (a in st || Idle(ut[a], now)))
  }

  lemma TrackedRefines(s: Limiter, u: Limiter, address: Address, was: Time, now: Time)
    requires Refines(s, u, was) && was <= now && address in Tracked(true, s.buckets, address, now)
    ensures var st := Tracked(true, s.buckets, address, now);
            var ut := Tracked(false, u.buckets, address, now);
            address in ut && TablesRefine(st, ut, now, address) &&
            Take(st[address], s.perAddress, now) == Take(ut[address], u.perAddress, now)
  {
    hide Take, Tracked;
    TrackedKeeps(true, s.buckets, address, now);
    TrackedKeeps(false, u.buckets, address, now);
    if address in u.buckets && address !in s.buckets {
      IdleIsFull(u.buckets[address], u.perAddress, was, now);
    }
  }

  /** One attempt gets the same verdict from both, and leaves them in step. */
  lemma AttemptRefines(s: Limiter, u: Limiter, address: Address, was: Time, now: Time)
    requires Refines(s, u, was) && 0.0 < now && was <= now && !FallsBack(s, address, now)
    ensures var (t, v) := Attempt(true, s, address, now);
            var (w, x) := Attempt(false, u, address, now);
            v == x && Refines(t, w, now)
  {
    hide Take, Tracked, LimiterOk;
    StepOk(u, address, was, now);
    if s.perAddress != 0 {
      TrackedRefines(s, u, address, was, now);
      var ut := Tracked(false, u.buckets, address, now);
      assert Take(ut[address], u.perAddress, now).0.lastRefill == now by {
        TouchedAt(ut[address], u.perAddress, now);
      }
    }
  }

  lemma StepOk(u: Limiter, address: Address, was: Time, now: Time)
    requires LimiterOk(u, was) && 0.0 < now && was <= now
    ensures LimiterOk(Attempt(false, u, address, now).0, now)
  {
    hide Take;
    TakeOk(u.totalBucket, u.total, was, now);
    TakeOk(if address in u.buckets then u.buckets[address] else UNTOUCHED, u.perAddress, was, now);
  }

  lemma TouchedAt(b: Bucket, rate: nat, now: Time)
    ensures Take(b, rate, now).0.lastRefill == now
  {
  }

  /** On every run with non-decreasing times in which no attempt falls back, the bounded, evicting table gives the same
      verdicts as a table that never forgets an address. */
  lemma {:induction false} BoundedGivesSameVerdicts(s: Limiter, u: Limiter, start: Time, arrivals: seq<Arrival>)
    requires Refines(s, u, start) && NonDecreasing(start, arrivals) && NeverFallsBack(s, arrivals)
    requires forall i :: 0 <= i < |arrivals| ==> 0.0 < arrivals[i].at
    ensures Run(true, s, arrivals).1 == Run(false, u, arrivals).1
    decreases |arrivals|
  {
    if arrivals != [] {
      hide Attempt, FallsBack, Refines;
      var now, from := arrivals[0].at, arrivals[0].from;
      AttemptRefines(s, u, from, start, now);
      BoundedGivesSameVerdicts(Attempt(true, s, from, now).0, Attempt(false, u, from, now).0, now, arrivals[1..]);
    }
  }

  // ---- One address's refusals depend on its own attempts only -------------

  /** What one bucket answers to attempts at these times. */
  function TakeRun(b: Bucket, rate: nat, times: seq<Time>): (r: (Bucket, seq<bool>))
    ensures |r.1| == |times|
    decreases |times|
  {
    if times == [] then (b, [])
    else
      var (b1, taken) := Take(b, rate, times[0]);
      var (b2, rest) := TakeRun(b1, rate, times[1..]);
      (b2, [taken] + rest)
  }

  /** The times of one address's attempts. */
  function TimesOf(a: Address, arrivals: seq<Arrival>): seq<Time> {
    if arrivals == [] then []
    else (if arrivals[0].from == a then [arrivals[0].at] else []) + TimesOf(a, arrivals[1..])
  }

  /** For each attempt of one address, whether it passed the per-address limit. */
  function PassedOf(a: Address, arrivals: seq<Arrival>, verdicts: seq<Verdict>): seq<bool>
    requires |arrivals| == |verdicts|
  {
    if arrivals == [] then []
    else (if arrivals[0].from == a then [verdicts[0] != PerAddress] else []) + PassedOf(a, arrivals[1..], verdicts[1..])
  }

  function BucketOf(s: Limiter, a: Address): Bucket {
    if a in s.buckets then s.buckets[a] else UNTOUCHED
  }

  lemma {:induction false} PassedDependsOnOwnAttempts(u: Limiter, a: Address, arrivals: seq<Arrival>)
    requires u.perAddress != 0
    ensures PassedOf(a, arrivals, Run(false, u, arrivals).1) ==
            TakeRun(BucketOf(u, a), u.perAddress, TimesOf(a, arrivals)).1
    decreases |arrivals|
  {
    if arrivals != [] {
      hide Take;
      var (u1, v) := Attempt(false, u, arrivals[0].from, arrivals[0].at);
      PassedDependsOnOwnAttempts(u1, a, arrivals[1..]);
      assert Run(false, u, arrivals).1[1..] == Run(false, u1, arrivals[1..]).1;
      if arrivals[0].from == a {
        assert TimesOf(a, arrivals)[1..] == TimesOf(a, arrivals[1..]);
      } else {
        assert TimesOf(a, arrivals) == TimesOf(a, arrivals[1..]);
        assert BucketOf(u1, a) == BucketOf(u, a);
      }
    }
  }

  /** Non-decreasing times after the clock's start, and no fallback. */
  predicate GoodRun(s: Limiter, arrivals: seq<Arrival>) {
    NonDecreasing(0.0, arrivals) && (forall i :: 0 <= i < |arrivals| ==> 0.0 < arrivals[i].at) &&
    NeverFallsBack(s, arrivals)
  }

  function Fresh(perAddress: nat, total: nat): Limiter {
    Limiter(perAddress, total, UNTOUCHED, map[])
  }

  /** The per-address refusals of one address are what its own bucket answers to its own attempts. */
  lemma RefusalsAreOwn(perAddress: nat, total: nat, a: Address, arrivals: seq<Arrival>)
    requires perAddress != 0 && GoodRun(Fresh(perAddress, total), arrivals)
    ensures PassedOf(a, arrivals, Run(true, Fresh(perAddress, total), arrivals).1) ==
            TakeRun(UNTOUCHED, perAddress, TimesOf(a, arrivals)).1
  {
    hide Run, NeverFallsBack, TakeRun;
    BoundedGivesSameVerdicts(Fresh(perAddress, total), Fresh(perAddress, total), 0.0, arrivals);
    PassedDependsOnOwnAttempts(Fresh(perAddress, total), a, arrivals);
  }

  /** So in two runs in which one address attempts at the same times, and no attempt falls back, it is refused by the
      per-address limit at the same attempts, whatever the other addresses do. */
  lemma OthersDoNotMatter(perAddress: nat, total: nat, a: Address, xs: seq<Arrival>, ys: seq<Arrival>)
    requires perAddress != 0 && TimesOf(a, xs) == TimesOf(a, ys)
    requires GoodRun(Fresh(perAddress, total), xs) && GoodRun(Fresh(perAddress, total), ys)
    ensures PassedOf(a, xs, Run(true, Fresh(perAddress, total), xs).1) ==
            PassedOf(a, ys, Run(true, Fresh(perAddress, total), ys).1)
  {
    hide Run, NeverFallsBack, TakeRun;
    RefusalsAreOwn(perAddress, total, a, xs);
    RefusalsAreOwn(perAddress, total, a, ys);
  }

  // ---- How many are admitted in a window of time --------------------------

  function CountTrue(bs: seq<bool>): nat {
    if bs == [] then 0 else (if bs[0] then 1 else 0) + CountTrue(bs[1..])
  }

  predicate Within(times: seq<Time>, from: Time, to: Time) {
    (forall i :: 0 <= i < |times| ==> from <= times[i] <= to) &&
    forall i, j :: 0 <= i < j < |times| ==> times[i] <= times[j]
  }

  function One(b: bool): real {
    if b then 1.0 else 0.0
  }

  /** What is left and what was taken were there or were earned, and never exceed the capacity. */
  lemma TakeBalance(b: Bucket, rate: nat, now: Time)
    ensures var (c, taken) := Take(b, rate, now);
            c.lastRefill == now && c.tokens + One(taken) <= rate as real &&
            (b.lastRefill != 0.0 ==> c.tokens + One(taken) <= b.tokens + Earned(now - b.lastRefill, rate))
  {
    hide Earned;
  }

  lemma CountFirst(b: Bucket, rate: nat, times: seq<Time>)
    requires times != []
    ensures var (c, taken) := Take(b, rate, times[0]);
            CountTrue(TakeRun(b, rate, times).1) as real ==
            One(taken) + CountTrue(TakeRun(c, rate, times[1..]).1) as real
  {
    hide Take;
    var (c, taken) := Take(b, rate, times[0]);
    assert TakeRun(b, rate, times).1[1..] == TakeRun(c, rate, times[1..]).1;
  }

  /** Potential: tokens left plus tokens taken grow no faster than the rate. */
  lemma {:induction false} TakenAfter(b: Bucket, rate: nat, times: seq<Time>, from: Time, to: Time)
    requires BucketOk(b, rate, from) && 0.0 < b.lastRefill && Within(times, from, to) && from <= to
    ensures CountTrue(TakeRun(b, rate, times).1) as real <= b.tokens + Earned(to - b.lastRefill, rate)
    decreases |times|
  {
    hide Take, Earned;
    EarnedAdds(0.0, 0.0, rate);
    if times == [] {
      EarnedGrows(0.0, to - b.lastRefill, rate);
    } else {
      var (c, taken) := Take(b, rate, times[0]);
      TakeOk(b, rate, from, times[0]);
      TakenAfter(c, rate, times[1..], times[0], to);
      CountFirst(b, rate, times);
      TakeBalance(b, rate, times[0]);
      EarnedAdds(times[0] - b.lastRefill, to - times[0], rate);
    }
  }

  /** A bucket answers yes at most rate * (1 + T) times within T seconds, whatever it was before. */
  lemma TakenInWindow(b: Bucket, rate: nat, times: seq<Time>, from: Time, to: Time)
    requires BucketOk(b, rate, from) && Within(times, from, to) && 0.0 < from <= to
    ensures CountTrue(TakeRun(b, rate, times).1) as real <= Earned(1.0 + (to - from), rate)
  {
    hide Take, Earned;
    EarnedAdds(1.0, to - from, rate);
    EarnedAdds(0.0, 0.0, rate);
    EarnedGrows(0.0, to - from, rate);
    if times != [] {
      var (c, taken) := Take(b, rate, times[0]);
      TakeOk(b, rate, from, times[0]);
      TakenAfter(c, rate, times[1..], times[0], to);
      CountFirst(b, rate, times);
      TakeBalance(b, rate, times[0]);
      EarnedGrows(to - times[0], to - from, rate);
    }
  }

  function Admissions(verdicts: seq<Verdict>): nat {
    if verdicts == [] then 0 else (if verdicts[0] == Admitted then 1 else 0) + Admissions(verdicts[1..])
  }

  /** The times at which the total limit is asked: the attempts that passed the per-address limit. */
  function TotalTimes(arrivals: seq<Arrival>, verdicts: seq<Verdict>): seq<Time>
    requires |arrivals| == |verdicts|
  {
    if arrivals == [] then []
    else (if verdicts[0] != PerAddress then [arrivals[0].at] else []) + TotalTimes(arrivals[1..], verdicts[1..])
  }

  /** An attempt that passes the per-address limit is admitted exactly if the total bucket has a token for it. */
  lemma AttemptAsksTotal(bounded: bool, s: Limiter, address: Address, now: Time)
    requires s.total != 0
    ensures var (t, v) := Attempt(bounded, s, address, now);
            t.total == s.total &&
            if v == PerAddress then t.totalBucket == s.totalBucket
            else (t.totalBucket, v == Admitted) == Take(s.totalBucket, s.total, now)
  {
    hide Take, Tracked;
  }

  lemma {:induction false} AdmissionsAreTotalTokens(bounded: bool, s: Limiter, arrivals: seq<Arrival>)
    requires s.total != 0
    ensures var verdicts := Run(bounded, s, arrivals).1;
            Admissions(verdicts) == CountTrue(TakeRun(s.totalBucket, s.total, TotalTimes(arrivals, verdicts)).1)
    decreases |arrivals|
  {
    if arrivals != [] {
      hide Take, Attempt;
      AttemptAsksTotal(bounded, s, arrivals[0].from, arrivals[0].at);
      var (s1, v) := Attempt(bounded, s, arrivals[0].from, arrivals[0].at);
      AdmissionsAreTotalTokens(bounded, s1, arrivals[1..]);
      var verdicts := Run(bounded, s, arrivals).1;
      assert verdicts[1..] == Run(bounded, s1, arrivals[1..]).1;
      if v != PerAddress {
        assert TotalTimes(arrivals, verdicts)[1..] == TotalTimes(arrivals[1..], verdicts[1..]);
        CountFirst(s.totalBucket, s.total, TotalTimes(arrivals, verdicts));
      } else {
        assert TotalTimes(arrivals, verdicts) == TotalTimes(arrivals[1..], verdicts[1..]);
      }
    }
  }

  predicate ArrivalsWithin(arrivals: seq<Arrival>, from: Time, to: Time) {
    0.0 < from <= to && NonDecreasing(from, arrivals) && forall i :: 0 <= i < |arrivals| ==> arrivals[i].at <= to
  }

  lemma {:induction false} TotalTimesWithin(arrivals: seq<Arrival>, verdicts: seq<Verdict>, from: Time, to: Time)
    requires |arrivals| == |verdicts| && ArrivalsWithin(arrivals, from, to)
    ensures Within(TotalTimes(arrivals, verdicts), from, to)
    decreases |arrivals|
  {
    if arrivals != [] {
      TotalTimesWithin(arrivals[1..], verdicts[1..], arrivals[0].at, to);
    }
  }

  lemma {:induction false} TimesOfWithin(a: Address, arrivals: seq<Arrival>, from: Time, to: Time)
    requires ArrivalsWithin(arrivals, from, to)
    ensures Within(TimesOf(a, arrivals), from, to)
    decreases |arrivals|
  {
    if arrivals != [] {
      TimesOfWithin(a, arrivals[1..], arrivals[0].at, to);
    }
  }

  /** Within T seconds the listener admits at most rate * (1 + T) attempts, from any state and with fallbacks. */
  lemma AdmittedInWindow(s: Limiter, window: seq<Arrival>, from: Time, to: Time)
    requires s.total != 0 && LimiterOk(s, from) && ArrivalsWithin(window, from, to)
    ensures Admissions(Run(true, s, window).1) as real <= Earned(1.0 + (to - from), s.total)
  {
    hide Run, Earned, TakeRun;
    var verdicts := Run(true, s, window).1;
    AdmissionsAreTotalTokens(true, s, window);
    TotalTimesWithin(window, verdicts, from, to);
    TakenInWindow(s.totalBucket, s.total, TotalTimes(window, verdicts), from, to);
  }

  /** The admissions of one address. */
  function AdmissionsOf(a: Address, arrivals: seq<Arrival>, verdicts: seq<Verdict>): nat
    requires |arrivals| == |verdicts|
  {
    if arrivals == [] then 0
    else (if arrivals[0].from == a && verdicts[0] == Admitted then 1 else 0) +
         AdmissionsOf(a, arrivals[1..], verdicts[1..])
  }

  lemma {:induction false} AdmittedPassed(a: Address, arrivals: seq<Arrival>, verdicts: seq<Verdict>)
    requires |arrivals| == |verdicts|
    ensures AdmissionsOf(a, arrivals, verdicts) <= CountTrue(PassedOf(a, arrivals, verdicts))
  {
    if arrivals != [] {
      AdmittedPassed(a, arrivals[1..], verdicts[1..]);
      var rest := PassedOf(a, arrivals[1..], verdicts[1..]);
      if arrivals[0].from == a {
        assert PassedOf(a, arrivals, verdicts)[1..] == rest;
      } else {
        assert PassedOf(a, arrivals, verdicts) == rest;
      }
    }
  }

  /** Within T seconds one address is admitted at most rate * (1 + T) times, in any part of a run without fallbacks:
      `s` is the limiter the window starts with, `u` the one that never forgot an address. */
  lemma AddressAdmittedInWindow(s: Limiter, u: Limiter, a: Address, window: seq<Arrival>, from: Time, to: Time)
    requires s.perAddress != 0 && Refines(s, u, from) && ArrivalsWithin(window, from, to) && NeverFallsBack(s, window)
    ensures AdmissionsOf(a, window, Run(true, s, window).1) as real <= Earned(1.0 + (to - from), s.perAddress)
  {
    hide Run, Earned, TakeRun, NeverFallsBack;
    BoundedGivesSameVerdicts(s, u, from, window);
    var verdicts := Run(true, s, window).1;
    PassedDependsOnOwnAttempts(u, a, window);
    AdmittedPassed(a, window, verdicts);
    TimesOfWithin(a, window, from, to);
    TakenInWindow(BucketOf(u, a), u.perAddress, TimesOf(a, window), from, to);
  }

  /** Such a `u` exists after every run without fallbacks from the start. */
  lemma {:induction false} RunRefines(s: Limiter, u: Limiter, start: Time, arrivals: seq<Arrival>, end: Time)
    requires Refines(s, u, start) && NonDecreasing(start, arrivals) && NeverFallsBack(s, arrivals) && start <= end
    requires forall i :: 0 <= i < |arrivals| ==> 0.0 < arrivals[i].at <= end
    ensures Refines(Run(true, s, arrivals).0, Run(false, u, arrivals).0, end)
    decreases |arrivals|
  {
    if arrivals != [] {
      hide Attempt, FallsBack, Refines;
      var now, from := arrivals[0].at, arrivals[0].from;
      AttemptRefines(s, u, from, start, now);
      RunRefines(Attempt(true, s, from, now).0, Attempt(false, u, from, now).0, now, arrivals[1..], end);
    } else {
      hide Idle;
      assert forall b :: Idle(b, start) ==> Idle(b, end) by {
        LaterIsIdle(start, end);
      }
    }
  }

  lemma LaterIsIdle(start: Time, end: Time)
    requires start <= end
    ensures forall b :: Idle(b, start) ==> Idle(b, end)
  {
  }

  /** The two together: in any window of any run without fallbacks from the start. */
  lemma AddressAdmittedInAnyWindow(perAddress: nat, total: nat, a: Address, before: seq<Arrival>, window: seq<Arrival>,
                                   from: Time, to: Time)
    requires perAddress != 0 && GoodRun(Fresh(perAddress, total), before)
    requires (forall i :: 0 <= i < |before| ==> before[i].at <= from) && ArrivalsWithin(window, from, to)
    requires NeverFallsBack(Run(true, Fresh(perAddress, total), before).0, window)
    ensures AdmissionsOf(a, window, Run(true, Run(true, Fresh(perAddress, total), before).0, window).1) as real <=
            Earned(1.0 + (to - from), perAddress)
  {
    hide Earned, NeverFallsBack, Run;
    var s := Fresh(perAddress, total);
    RunRefines(s, s, 0.0, before, from);
    RatesStay(s, before);
    AddressAdmittedInWindow(Run(true, s, before).0, Run(false, s, before).0, a, window, from, to);
  }

  lemma {:induction false} RatesStay(s: Limiter, arrivals: seq<Arrival>)
    ensures Run(true, s, arrivals).0.perAddress == s.perAddress && Run(true, s, arrivals).0.total == s.total
    decreases |arrivals|
  {
    if arrivals != [] {
      RatesStay(Attempt(true, s, arrivals[0].from, arrivals[0].at).0, arrivals[1..]);
    }
  }
}
