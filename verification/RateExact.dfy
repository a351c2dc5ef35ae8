/** Exactly when the rate limits refuse a connection, told by the times of the attempts and how many passed: both the
    limits' promise to keep connections down and their promise not to refuse more than that. */
module RateExact {
  import opened Octets
  import opened RateLimit

  // ---- One bucket ---------------------------------------------------------

  predicate Times(times: seq<Time>) {
    (forall i :: 0 <= i < |times| ==> 0.0 < times[i]) && forall i, j :: 0 <= i < j < |times| ==> times[i] <= times[j]
  }

  lemma {:induction false} TakeRunSnoc(b: Bucket, rate: nat, times: seq<Time>, now: Time)
    ensures var (c, answers) := TakeRun(b, rate, times);
            TakeRun(b, rate, times + [now]) == (Take(c, rate, now).0, answers + [Take(c, rate, now).1])
    decreases |times|
  {
    hide Take;
    if times == [] {
      var one, none: seq<bool> := times + [now], [];
      assert one[0] == now && one[1..] == times;
      assert [Take(b, rate, now).1] + none == none + [Take(b, rate, now).1];
    } else {
      var c := Take(b, rate, times[0]).0;
      TakeRunSnoc(c, rate, times[1..], now);
      assert (times + [now])[1..] == times[1..] + [now];
      var answers := TakeRun(c, rate, times[1..]).1;
      var last := Take(TakeRun(c, rate, times[1..]).0, rate, now).1;
      assert [Take(b, rate, times[0]).1] + (answers + [last]) == [Take(b, rate, times[0]).1] + answers + [last];
    }
  }

  lemma {:induction false} CountSnoc(answers: seq<bool>, last: bool)
    ensures CountTrue(answers + [last]) == CountTrue(answers) + if last then 1 else 0
    decreases |answers|
  {
    if answers == [] {
      assert [last][1..] == [];
    } else {
      assert (answers + [last])[1..] == answers[1..] + [last];
      CountSnoc(answers[1..], last);
    }
  }

  /** What may be taken in a window that starts at attempt `j` and ends now: a full bucket, and what is earned in it. */
  function Allowance(rate: nat, from: Time, now: Time): real {
    Earned(1.0 + (now - from), rate)
  }

  /** What is left of that for an attempt at `now`, after these answers from attempt `j` on. */
  function LeftSince(rate: nat, times: seq<Time>, answers: seq<bool>, now: Time, j: nat): real
    requires j <= |answers| && |answers| <= |times| && j < |times|
  {
    Allowance(rate, times[j], now) - CountTrue(answers[j..]) as real
  }

  /** The tokens for an attempt at `now` are the least that is left of any window that ends there. */
  predicate LeastLeft(tokens: real, rate: nat, times: seq<Time>, answers: seq<bool>, now: Time)
    requires |times| == |answers| + 1
  {
    (forall j :: 0 <= j <= |answers| ==> tokens <= LeftSince(rate, times, answers, now, j)) &&
    exists j :: 0 <= j <= |answers| && tokens == LeftSince(rate, times, answers, now, j)
  }

  lemma {:induction false} TokensAreLeast(rate: nat, times: seq<Time>, now: Time)
    requires Times(times + [now])
    ensures var (b, answers) := TakeRun(UNTOUCHED, rate, times);
            (times != [] ==> b.lastRefill == times[|times| - 1]) &&
            LeastLeft(Refilled(b, rate, now), rate, times + [now], answers, now)
    decreases |times|
  {
    hide Earned, Take, Refilled, LeastLeft;
    if times == [] {
      assert times + [now] == [now];
      FirstIsFull(rate, now);
    } else {
      var n := |times| - 1;
      var init, was := times[..n], times[n];
      assert times == init + [was];
      assert forall i :: 0 <= i <= n ==> times[i] == (times + [now])[i];
      TokensAreLeast(rate, init, was);
      TakeRunSnoc(UNTOUCHED, rate, init, was);
      var (b, answers) := TakeRun(UNTOUCHED, rate, init);
      TakenFrom(b, rate, was);
      NextIsLeast(Refilled(b, rate, was), rate, times, answers, now, Take(b, rate, was).0, Take(b, rate, was).1);
    }
  }

  lemma FirstIsFull(rate: nat, now: Time)
    ensures LeastLeft(Refilled(UNTOUCHED, rate, now), rate, [now], [], now)
  {
    var none: seq<bool> := [];
    assert none[0..] == none && CountTrue(none) == 0;
    EarnedAdds(0.0, 0.0, rate);
    assert LeftSince(rate, [now], none, now, 0) == rate as real;
  }

  lemma TakenFrom(b: Bucket, rate: nat, now: Time)
    ensures var (c, taken) := Take(b, rate, now);
            c.lastRefill == now && c.tokens == Refilled(b, rate, now) - One(taken)
    ensures Take(b, rate, now).1 <==> Refilled(b, rate, now) >= 1.0
  {
  }

  /** One attempt further, at `now`: `times` ends with the last one, which was answered with `taken`. */
  lemma NextIsLeast(tokens: real, rate: nat, times: seq<Time>, answers: seq<bool>, now: Time, b: Bucket, taken: bool)
    requires |times| == |answers| + 1 && Times(times + [now])
    requires var was := times[|answers|];
             LeastLeft(tokens, rate, times, answers, was) && b.lastRefill == was && b.tokens == tokens - One(taken)
    ensures LeastLeft(Refilled(b, rate, now), rate, times + [now], answers + [taken], now)
  {
    hide Earned, CountTrue;
    var n, was, more, all := |answers|, times[|answers|], answers + [taken], times + [now];
    assert all[n] == was && 0.0 < was <= now by { assert all[n + 1] == now; }
    var earned := Earned(now - was, rate);
    assert Refilled(b, rate, now) ==
           if tokens - One(taken) + earned < rate as real then tokens - One(taken) + earned else rate as real;
    forall j | 0 <= j <= n
      ensures LeftSince(rate, all, more, now, j) == LeftSince(rate, times, answers, was, j) - One(taken) + earned
    {
      assert more[j..] == answers[j..] + [taken] && all[j] == times[j];
      CountSnoc(answers[j..], taken);
      EarnedAdds(1.0 + (was - times[j]), now - was, rate);
    }
    assert LeftSince(rate, all, more, now, n + 1) == rate as real by {
      NothingSince(rate, all, more, now, n + 1);
    }
    var least :| 0 <= least <= n && tokens == LeftSince(rate, times, answers, was, least);
    assert LeastLeft(Refilled(b, rate, now), rate, all, more, now) by {
      if tokens - One(taken) + earned < rate as real {
        assert Refilled(b, rate, now) == LeftSince(rate, all, more, now, least);
      } else {
        assert Refilled(b, rate, now) == LeftSince(rate, all, more, now, n + 1);
      }
    }
  }

  lemma NothingSince(rate: nat, times: seq<Time>, answers: seq<bool>, now: Time, j: nat)
    requires j == |answers| && |times| == j + 1 && times[j] == now
    ensures LeftSince(rate, times, answers, now, j) == rate as real
  {
    EarnedAdds(0.0, 0.0, rate);
    assert answers[j..] == [];
  }

  /** A bucket that was never touched answers yes exactly when no window that ends with this attempt is full: for every
      attempt `j` up to it, this one and those answered yes since `j` are no more than the rate allows in that time. */
  lemma AnswerIff(rate: nat, times: seq<Time>, k: nat)
    requires Times(times) && k < |times|
    ensures var answers := TakeRun(UNTOUCHED, rate, times).1;
            answers[k] <==>
            forall j :: 0 <= j <= k ==> 1.0 + CountTrue(answers[j..k]) as real <= Allowance(rate, times[j], times[k])
  {
    hide TakeRun, Take, Refilled, Earned, Allowance;
    var init, now := times[..k], times[k];
    TokensAreLeast(rate, init, now);
    TakeRunSnoc(UNTOUCHED, rate, init, now);
    var (b, before) := TakeRun(UNTOUCHED, rate, init);
    TakenFrom(b, rate, now);
    TakeRunPrefix(UNTOUCHED, rate, init + [now], times[k + 1..]);
    assert times == init + [now] + times[k + 1..];
    var answers := TakeRun(UNTOUCHED, rate, times).1;
    assert answers[k] == (Refilled(b, rate, now) >= 1.0);
    forall j | 0 <= j <= k
      ensures LeftSince(rate, init + [now], before, now, j) ==
              Allowance(rate, times[j], now) - CountTrue(answers[j..k]) as real
    {
      assert answers[j..k] == before[j..] && (init + [now])[j] == times[j];
    }
  }

  lemma {:induction false} TakeRunPrefix(b: Bucket, rate: nat, times: seq<Time>, more: seq<Time>)
    ensures TakeRun(b, rate, times + more).1[..|times|] == TakeRun(b, rate, times).1
    decreases |times|
  {
    hide Take;
    if times != [] {
      assert (times + more)[1..] == times[1..] + more;
      TakeRunPrefix(Take(b, rate, times[0]).0, rate, times[1..], more);
    }
  }

  // ---- Attempts that are asked, among others ------------------------------

  /** The elements that are selected. */
  function Picked<T>(xs: seq<T>, select: seq<bool>): (r: seq<T>)
    requires |xs| == |select|
    ensures |r| == CountTrue(select)
  {
    if xs == [] then [] else (if select[0] then [xs[0]] else []) + Picked(xs[1..], select[1..])
  }

  lemma {:induction false} PickedAppend<T>(xs: seq<T>, s: seq<bool>, ys: seq<T>, t: seq<bool>)
    requires |xs| == |s| && |ys| == |t|
    ensures Picked(xs + ys, s + t) == Picked(xs, s) + Picked(ys, t)
    decreases |xs|
  {
    if xs == [] {
      assert xs + ys == ys && s + t == t;
    } else {
      assert (xs + ys)[1..] == xs[1..] + ys && (s + t)[1..] == s[1..] + t;
      PickedAppend(xs[1..], s[1..], ys, t);
    }
  }

  /** A selected element, among those selected. */
  lemma PickedAt<T>(xs: seq<T>, s: seq<bool>, m: nat)
    requires |xs| == |s| && m < |xs| && s[m]
    ensures var k := CountTrue(s[..m]);
            k < |Picked(xs, s)| && Picked(xs, s)[k] == xs[m] && Picked(xs, s)[k..] == Picked(xs[m..], s[m..]) &&
            Picked(xs, s)[..k] == Picked(xs[..m], s[..m])
  {
    assert xs == xs[..m] + xs[m..] && s == s[..m] + s[m..];
    PickedAppend(xs[..m], s[..m], xs[m..], s[m..]);
  }

  /** Every one of those selected is selected somewhere. */
  lemma {:induction false} PickedFrom(s: seq<bool>, k: nat) returns (m: nat)
    requires k < CountTrue(s)
    ensures m < |s| && s[m] && CountTrue(s[..m]) == k
    decreases |s|
  {
    if s[0] && k == 0 {
      m := 0;
    } else {
      m := PickedFrom(s[1..], if s[0] then k - 1 else k);
      m := m + 1;
      assert s[..m][1..] == s[1..][..m - 1];
    }
  }

  /** How many of those selected were answered yes. */
  function Yes(answers: seq<bool>, select: seq<bool>): nat
    requires |answers| == |select|
  {
    CountTrue(Picked(answers, select))
  }

  lemma YesBetween(answers: seq<bool>, select: seq<bool>, m: nat, i: nat)
    requires |answers| == |select| && m <= i < |answers| && select[m] && select[i]
    ensures var j, k := CountTrue(select[..m]), CountTrue(select[..i]);
            j <= k <= |Picked(answers, select)| && Picked(answers, select)[j..k] == Picked(answers[m..i], select[m..i])
  {
    hide Picked, CountTrue;
    PickedAt(answers, select, i);
    var j, k, before, between :=
      CountTrue(select[..m]), CountTrue(select[..i]), Picked(answers[..m], select[..m]), Picked(answers[m..i], select[m..i]);
    assert answers[..i] == answers[..m] + answers[m..i] && select[..i] == select[..m] + select[m..i];
    PickedAppend(answers[..m], select[..m], answers[m..i], select[m..i]);
    assert Picked(answers, select)[..k] == before + between && |before| == j;
    assert Picked(answers, select)[j..k] == Picked(answers, select)[..k][j..] == between;
  }

  lemma {:induction false} PickedAreThere<T>(xs: seq<T>, select: seq<bool>)
    requires |xs| == |select|
    ensures forall x :: x in Picked(xs, select) ==> x in xs
    decreases |xs|
  {
    if xs != [] {
      PickedAreThere(xs[1..], select[1..]);
      assert xs == [xs[0]] + xs[1..];
    }
  }

  lemma {:induction false} PickedTimes(times: seq<Time>, select: seq<bool>)
    requires Times(times) && |times| == |select|
    ensures Times(Picked(times, select))
    decreases |times|
  {
    if times != [] {
      PickedTimes(times[1..], select[1..]);
      PickedAreThere(times[1..], select[1..]);
      var rest := Picked(times[1..], select[1..]);
      forall j | 0 <= j < |rest|
        ensures times[0] <= rest[j]
      {
        assert rest[j] in times[1..];
      }
    }
  }

  /** The attempts that are selected are answered by one bucket: an answer is yes exactly when no window of them that
      ends with it is full. */
  lemma SelectedIff(rate: nat, times: seq<Time>, select: seq<bool>, answers: seq<bool>, i: nat)
    requires Times(times) && |times| == |select| == |answers| && i < |times| && select[i]
    requires Picked(answers, select) == TakeRun(UNTOUCHED, rate, Picked(times, select)).1
    ensures answers[i] <==>
            forall m :: 0 <= m <= i && select[m] ==>
              1.0 + Yes(answers[m..i], select[m..i]) as real <= Allowance(rate, times[m], times[i])
  {
    hide TakeRun, Allowance, Picked, Times;
    var k := CountTrue(select[..i]);
    PickedAt(times, select, i);
    PickedAt(answers, select, i);
    PickedTimes(times, select);
    var picked := Picked(times, select);
    AnswerIff(rate, picked, k);
    forall m | 0 <= m <= i && select[m]
      ensures CountTrue(select[..m]) <= k && picked[CountTrue(select[..m])] == times[m]
      ensures Picked(answers, select)[CountTrue(select[..m])..k] == Picked(answers[m..i], select[m..i])
    {
      PickedAt(times, select, m);
      YesBetween(answers, select, m, i);
    }
    var all := TakeRun(UNTOUCHED, rate, picked).1;
    if !answers[i] {
      var j :| 0 <= j <= k && 1.0 + CountTrue(all[j..k]) as real > Allowance(rate, picked[j], picked[k]);
      var m := i;
      if j < k {
        m := PickedFrom(select[..i], j);
        assert select[..i][..m] == select[..m];
      }
      assert 0 <= m <= i && select[m] && CountTrue(select[..m]) == j;
      assert 1.0 + Yes(answers[m..i], select[m..i]) as real > Allowance(rate, times[m], times[i]);
    }
  }

  // ---- The verdicts of a run ----------------------------------------------

  function TimesIn(arrivals: seq<Arrival>): seq<Time> {
    seq(|arrivals|, i requires 0 <= i < |arrivals| => arrivals[i].at)
  }

  function From(a: Address, arrivals: seq<Arrival>): seq<bool> {
    seq(|arrivals|, i requires 0 <= i < |arrivals| => arrivals[i].from == a)
  }

  /** The attempts that passed the per-address limit, and those that were admitted. */
  function PassedLimit(verdicts: seq<Verdict>): seq<bool> {
    seq(|verdicts|, i requires 0 <= i < |verdicts| => verdicts[i] != PerAddress)
  }

  function AdmittedAt(verdicts: seq<Verdict>): seq<bool> {
    seq(|verdicts|, i requires 0 <= i < |verdicts| => verdicts[i] == Admitted)
  }

  lemma {:induction false} OwnArePicked(a: Address, arrivals: seq<Arrival>, verdicts: seq<Verdict>)
    requires |arrivals| == |verdicts|
    ensures TimesOf(a, arrivals) == Picked(TimesIn(arrivals), From(a, arrivals))
    ensures PassedOf(a, arrivals, verdicts) == Picked(PassedLimit(verdicts), From(a, arrivals))
    decreases |arrivals|
  {
    if arrivals != [] {
      OwnArePicked(a, arrivals[1..], verdicts[1..]);
      assert TimesIn(arrivals)[1..] == TimesIn(arrivals[1..]) && From(a, arrivals)[1..] == From(a, arrivals[1..]);
      assert PassedLimit(verdicts)[1..] == PassedLimit(verdicts[1..]);
    }
  }

  predicate GoodTimes(arrivals: seq<Arrival>) {
    NonDecreasing(0.0, arrivals) && forall i :: 0 <= i < |arrivals| ==> 0.0 < arrivals[i].at
  }

  /** In every run without fallbacks, an attempt is refused for its address exactly when some window of that address's
      own attempts is full: when, from one of them on, this one and those that passed are more than the rate allows. */
  lemma {:induction false} PerAddressIff(perAddress: nat, total: nat, arrivals: seq<Arrival>, i: nat)
    requires perAddress != 0 && GoodRun(Fresh(perAddress, total), arrivals) && i < |arrivals|
    ensures var verdicts, own := Run(true, Fresh(perAddress, total), arrivals).1, From(arrivals[i].from, arrivals);
            verdicts[i] == PerAddress <==>
            exists m :: 0 <= m <= i && own[m] &&
              1.0 + Yes(PassedLimit(verdicts)[m..i], own[m..i]) as real > Allowance(perAddress, arrivals[m].at, arrivals[i].at)
  {
    hide Run, TakeRun, NeverFallsBack, Allowance, Yes;
    var verdicts, a := Run(true, Fresh(perAddress, total), arrivals).1, arrivals[i].from;
    RefusalsAreOwn(perAddress, total, a, arrivals);
    OwnArePicked(a, arrivals, verdicts);
    SelectedIff(perAddress, TimesIn(arrivals), From(a, arrivals), PassedLimit(verdicts), i);
  }

  /** The attempts that pass the per-address limit are answered by the total bucket. */
  lemma {:induction false} TotalAnswers(bounded: bool, s: Limiter, arrivals: seq<Arrival>)
    requires s.total != 0
    ensures var verdicts := Run(bounded, s, arrivals).1;
            Picked(AdmittedAt(verdicts), PassedLimit(verdicts)) ==
            TakeRun(s.totalBucket, s.total, Picked(TimesIn(arrivals), PassedLimit(verdicts))).1
    decreases |arrivals|
  {
    if arrivals != [] {
      hide Take, Attempt;
      AttemptAsksTotal(bounded, s, arrivals[0].from, arrivals[0].at);
      var (s1, v) := Attempt(bounded, s, arrivals[0].from, arrivals[0].at);
      TotalAnswers(bounded, s1, arrivals[1..]);
      var verdicts := Run(bounded, s, arrivals).1;
      var rest := Run(bounded, s1, arrivals[1..]).1;
      assert verdicts[1..] == rest && verdicts[0] == v;
      assert TimesIn(arrivals)[1..] == TimesIn(arrivals[1..]);
      assert PassedLimit(verdicts)[1..] == PassedLimit(rest) && AdmittedAt(verdicts)[1..] == AdmittedAt(rest);
      hide Picked, TakeRun, Run;
      PickedFirst(TimesIn(arrivals), PassedLimit(verdicts));
      PickedFirst(AdmittedAt(verdicts), PassedLimit(verdicts));
      if v != PerAddress {
        TakeRunFirst(s.totalBucket, s.total, arrivals[0].at, Picked(TimesIn(arrivals[1..]), PassedLimit(rest)));
      }
    }
  }

  lemma PickedFirst<T>(xs: seq<T>, select: seq<bool>)
    requires |xs| == |select| && xs != []
    ensures Picked(xs, select) ==
            if select[0] then [xs[0]] + Picked(xs[1..], select[1..]) else Picked(xs[1..], select[1..])
  {
  }

  lemma TakeRunFirst(b: Bucket, rate: nat, now: Time, times: seq<Time>)
    ensures var (c, taken) := Take(b, rate, now);
            TakeRun(b, rate, [now] + times).1 == [taken] + TakeRun(c, rate, times).1
  {
    assert ([now] + times)[1..] == times;
  }

  /** In every run, fallbacks included, an attempt that passes the per-address limit is refused by the total one exactly
      when some window of such attempts is full. */
  lemma {:induction false} TotalIff(perAddress: nat, total: nat, arrivals: seq<Arrival>, i: nat)
    requires total != 0 && GoodTimes(arrivals) && i < |arrivals|
    ensures var verdicts := Run(true, Fresh(perAddress, total), arrivals).1;
            verdicts[i] == Total <==>
            verdicts[i] != PerAddress &&
            exists m :: 0 <= m <= i && PassedLimit(verdicts)[m] &&
              1.0 + Yes(AdmittedAt(verdicts)[m..i], PassedLimit(verdicts)[m..i]) as real >
              Allowance(total, arrivals[m].at, arrivals[i].at)
  {
    hide Run, TakeRun, Allowance, Yes;
    var verdicts := Run(true, Fresh(perAddress, total), arrivals).1;
    if verdicts[i] != PerAddress {
      TotalAnswers(true, Fresh(perAddress, total), arrivals);
      SelectedIff(total, TimesIn(arrivals), PassedLimit(verdicts), AdmittedAt(verdicts), i);
    }
  }

  /** A limit of 0 refuses nobody. */
  lemma {:induction false} NoLimitNoRefusal(s: Limiter, arrivals: seq<Arrival>, i: nat)
    requires i < |arrivals|
    ensures s.perAddress == 0 ==> Run(true, s, arrivals).1[i] != PerAddress
    ensures s.total == 0 ==> Run(true, s, arrivals).1[i] != Total
    decreases |arrivals|
  {
    hide Take, Tracked;
    if i > 0 {
      NoLimitNoRefusal(Attempt(true, s, arrivals[0].from, arrivals[0].at).0, arrivals[1..], i - 1);
    }
  }

  // ---- When an attempt is checked against the total limit only ------------

  /** The addresses with an attempt less than a second before `now`. */
  function Recent(arrivals: seq<Arrival>, now: Time): set<Address> {
    set i | 0 <= i < |arrivals| && now - arrivals[i].at < 1.0 :: arrivals[i].from
  }

  /** The time of the last attempt of an address. */
  function LastAt(a: Address, arrivals: seq<Arrival>): Option<Time> {
    if arrivals == [] then None
    else if LastAt(a, arrivals[1..]).Some? then LastAt(a, arrivals[1..])
    else if arrivals[0].from == a then Some(arrivals[0].at)
    else None
  }

  lemma {:induction false} LastIsLatest(a: Address, arrivals: seq<Arrival>, start: Time)
    requires NonDecreasing(start, arrivals)
    ensures LastAt(a, arrivals).Some? ==>
              exists i :: 0 <= i < |arrivals| && arrivals[i].from == a && arrivals[i].at == LastAt(a, arrivals).value
    ensures forall i :: 0 <= i < |arrivals| && arrivals[i].from == a ==>
              LastAt(a, arrivals).Some? && arrivals[i].at <= LastAt(a, arrivals).value
    decreases |arrivals|
  {
    if arrivals != [] {
      LastIsLatest(a, arrivals[1..], arrivals[0].at);
      if LastAt(a, arrivals[1..]).Some? {
        var i :| 0 <= i < |arrivals| - 1 && arrivals[1..][i].from == a &&
                 arrivals[1..][i].at == LastAt(a, arrivals[1..]).value;
        assert arrivals[i + 1].from == a;
      }
      forall i | 0 <= i < |arrivals| && arrivals[i].from == a
        ensures LastAt(a, arrivals).Some? && arrivals[i].at <= LastAt(a, arrivals).value
      {
        if i > 0 {
          assert arrivals[i] == arrivals[1..][i - 1];
        } else if LastAt(a, arrivals[1..]).Some? {
          var j :| 0 <= j < |arrivals| - 1 && arrivals[1..][j].from == a &&
                   arrivals[1..][j].at == LastAt(a, arrivals[1..]).value;
          assert arrivals[1..][j] == arrivals[j + 1];
        }
      }
    }
  }

  /** The limiter that never forgets has a bucket for each address that ever tried, touched at its last attempt. */
  lemma {:induction false} UnboundedBuckets(u: Limiter, arrivals: seq<Arrival>, a: Address)
    requires u.perAddress != 0
    ensures var last, buckets := LastAt(a, arrivals), Run(false, u, arrivals).0.buckets;
            if last.Some? then a in buckets && buckets[a].lastRefill == last.value
            else (a in buckets <==> a in u.buckets) && (a in buckets ==> buckets[a] == u.buckets[a])
    decreases |arrivals|
  {
    if arrivals != [] {
      UnboundedBuckets(Attempt(false, u, arrivals[0].from, arrivals[0].at).0, arrivals[1..], a);
    }
  }

  /** The table that forgets holds exactly the addresses tried within the last second, when the idle ones are aged
      out. */
  lemma AgedAreRecent(perAddress: nat, total: nat, arrivals: seq<Arrival>, now: Time)
    requires perAddress != 0 && GoodRun(Fresh(perAddress, total), arrivals)
    requires 0.0 <= now && forall i :: 0 <= i < |arrivals| ==> arrivals[i].at <= now
    ensures Aged(Run(true, Fresh(perAddress, total), arrivals).0.buckets, now).Keys == Recent(arrivals, now)
    ensures Recent(arrivals, now) <= Run(true, Fresh(perAddress, total), arrivals).0.buckets.Keys
  {
    hide Run, NeverFallsBack;
    var s := Fresh(perAddress, total);
    RunRefines(s, s, 0.0, arrivals, now);
    var bounded, unbounded := Run(true, s, arrivals).0.buckets, Run(false, s, arrivals).0.buckets;
    forall a
      ensures a in Recent(arrivals, now) <==> a in Aged(bounded, now)
      ensures a in Recent(arrivals, now) ==> a in bounded
    {
      LastIsLatest(a, arrivals, 0.0);
      UnboundedBuckets(s, arrivals, a);
    }
  }

  lemma SameSet<T>(a: set<T>, b: set<T>)
    requires a <= b && |b| <= |a|
    ensures a == b
  {
    assert b == a + (b - a);
    assert |b - a| == 0;
  }

  /** Up to the first fallback: an attempt is checked against the total limit only exactly when 1024 other addresses
      have tried within the last second. */
  lemma FallbackIff(perAddress: nat, total: nat, arrivals: seq<Arrival>, a: Address, now: Time)
    requires perAddress != 0 && GoodRun(Fresh(perAddress, total), arrivals)
    requires 0.0 <= now && forall i :: 0 <= i < |arrivals| ==> arrivals[i].at <= now
    ensures FallsBack(Run(true, Fresh(perAddress, total), arrivals).0, a, now) <==>
            a !in Recent(arrivals, now) && |Recent(arrivals, now)| >= 1024
  {
    hide Run, NeverFallsBack, Recent, Aged;
    var s := Run(true, Fresh(perAddress, total), arrivals).0;
    RatesStay(Fresh(perAddress, total), arrivals);
    AgedAreRecent(perAddress, total, arrivals, now);
    EveryRunStaysBounded(Fresh(perAddress, total), 0.0, arrivals);
    SubsetSize(Recent(arrivals, now), s.buckets.Keys);
    assert |Aged(s.buckets, now)| == |Aged(s.buckets, now).Keys| && |s.buckets| == |s.buckets.Keys|;
    if |Recent(arrivals, now)| >= 1024 {
      SameSet(Recent(arrivals, now), s.buckets.Keys);
    }
  }

  lemma {:induction false} NeverFallsBackSnoc(s: Limiter, arrivals: seq<Arrival>, last: Arrival)
    ensures NeverFallsBack(s, arrivals + [last]) <==>
            NeverFallsBack(s, arrivals) && !FallsBack(Run(true, s, arrivals).0, last.from, last.at)
    decreases |arrivals|
  {
    hide FallsBack, Attempt;
    var all := arrivals + [last];
    if arrivals == [] {
      assert all[0] == last && all[1..] == [];
    } else {
      assert all[0] == arrivals[0] && all[1..] == arrivals[1..] + [last];
      NeverFallsBackSnoc(Attempt(true, s, arrivals[0].from, arrivals[0].at).0, arrivals[1..], last);
    }
  }

  /** At no attempt have 1024 other addresses tried within the last second. */
  predicate HasRoom(arrivals: seq<Arrival>) {
    forall k :: 0 <= k < |arrivals| ==>
      arrivals[k].from in Recent(arrivals[..k], arrivals[k].at) || |Recent(arrivals[..k], arrivals[k].at)| < 1024
  }

  /** So this is what a run without fallbacks is. */
  lemma {:induction false} NeverFallsBackIff(perAddress: nat, total: nat, arrivals: seq<Arrival>)
    requires perAddress != 0 && GoodTimes(arrivals)
    ensures NeverFallsBack(Fresh(perAddress, total), arrivals) <==> HasRoom(arrivals)
    decreases |arrivals|
  {
    hide FallsBack, Recent, NeverFallsBack, Run;
    var s := Fresh(perAddress, total);
    if arrivals == [] {
      NoAttemptNoFallback(s);
    } else {
      var n := |arrivals| - 1;
      var init, last := arrivals[..n], arrivals[n];
      assert arrivals == init + [last];
      assert GoodTimes(init);
      NeverFallsBackIff(perAddress, total, init);
      NeverFallsBackSnoc(s, init, last);
      assert forall k :: 0 <= k < n ==> arrivals[k] == init[k] && arrivals[..k] == init[..k];
      if NeverFallsBack(s, init) {
        FallbackIff(perAddress, total, init, last.from, last.at);
      }
    }
  }

  lemma NoAttemptNoFallback(s: Limiter)
    ensures NeverFallsBack(s, [])
  {
  }
}
