/** core/breaker/googlebreaker.go and core/breaker/bucket.go: adaptive throttling over a rolling window. */
module GoogleBreakers {
  import opened RollingWindows

  datatype Mark = SuccessMark | FailMark | DropMark

  datatype Bucket = Bucket(Sum: nat, Success: nat, Failure: nat, Drop: nat)

  datatype WindowResult = WindowResult(accepts: nat, total: nat, failingBuckets: nat, workingBuckets: nat)

  const EMPTY: Bucket := Bucket(0, 0, 0, 0)
  const BUCKETS: nat := 40
  const SECOND: nat := 1_000_000_000
  const WINDOW: nat := 10 * SECOND
  const FORCE_PASS: nat := SECOND
  const K: real := 1.5
  const MIN_K: real := 1.1
  const PROTECTION: nat := 5

  function AddMark(b: Bucket, v: Mark): (r: Bucket) {
    match v
    case FailMark => b.(Sum := b.Sum + 1, Failure := b.Failure + 1)
    case DropMark => b.(Sum := b.Sum + 1, Drop := b.Drop + 1)
    case SuccessMark => b.(Sum := b.Sum + 1, Success := b.Success + 1)
  }

  // ---- what the history counts ---------------------------------------------------------------

  /** One step of the fold over the buckets of the window. */
  function Tally(h: WindowResult, b: Bucket): (r: WindowResult) {
    WindowResult(
      h.accepts + b.Success,
      h.total + b.Sum,
      if b.Success > 0 then 0 else if b.Failure > 0 then h.failingBuckets + 1 else h.failingBuckets,
      if b.Failure > 0 then 0 else if b.Success > 0 then h.workingBuckets + 1 else h.workingBuckets)
  }

  ghost function Folded(bs: seq<Bucket>): (r: WindowResult) {
    if bs == [] then WindowResult(0, 0, 0, 0) else Tally(Folded(bs[..|bs| - 1]), bs[|bs| - 1])
  }

  /** The working buckets are those with a success since the last failure, the failing buckets those with a
      failure since the last success; so not both are positive, and neither exceeds the number of buckets. */
  lemma {:induction false} RunsOfBuckets(bs: seq<Bucket>)
    ensures var h := Folded(bs);
            h.workingBuckets == |WorkingRun(bs)| && h.failingBuckets == |FailingRun(bs)| &&
            (h.workingBuckets == 0 || h.failingBuckets == 0) && h.workingBuckets <= |bs| && h.failingBuckets <= |bs|
  {
    if bs != [] {
      var init, b := bs[..|bs| - 1], bs[|bs| - 1];
      RunsOfBuckets(init);
      RunStep(bs);
    } else {
      assert WorkingRun(bs) == {} && FailingRun(bs) == {};
    }
  }

  ghost function WorkingRun(bs: seq<Bucket>): (r: set<nat>) {
    set i: nat | i < |bs| && bs[i].Success > 0 && forall j :: i <= j < |bs| ==> bs[j].Failure == 0
  }

  ghost function FailingRun(bs: seq<Bucket>): (r: set<nat>) {
    set i: nat | i < |bs| && bs[i].Failure > 0 && forall j :: i <= j < |bs| ==> bs[j].Success == 0
  }

  lemma RunStep(bs: seq<Bucket>)
    requires bs != []
    ensures var init, n, b := bs[..|bs| - 1], |bs| - 1, bs[|bs| - 1];
            WorkingRun(bs) == (if b.Failure > 0 then {} else WorkingRun(init) + if b.Success > 0 then {n} else {}) &&
            FailingRun(bs) == (if b.Success > 0 then {} else FailingRun(init) + if b.Failure > 0 then {n} else {}) &&
            n !in WorkingRun(init) && n !in FailingRun(init)
  {
    var init, n := bs[..|bs| - 1], |bs| - 1;
    assert forall i :: 0 <= i < n ==> init[i] == bs[i];
  }

  /** The events marked m in the intervals lo to hi - 1. */
  ghost function InWindow(log: seq<Event<Mark>>, lo: int, hi: int, m: Mark): (r: nat) {
    if log == [] then 0
    else
      var n := |log| - 1;
      InWindow(log[..n], lo, hi, m) + (if lo <= log[n].epoch < hi && log[n].value == m then 1 else 0)
  }

  ghost function AllInWindow(log: seq<Event<Mark>>, lo: int, hi: int): (r: nat) {
    InWindow(log, lo, hi, SuccessMark) + InWindow(log, lo, hi, FailMark) + InWindow(log, lo, hi, DropMark)
  }

  lemma {:induction false} BucketCounts(log: seq<Event<Mark>>, e: int)
    ensures BucketOf(EMPTY, AddMark, log, e)
         == Bucket(AllInWindow(log, e, e + 1), InWindow(log, e, e + 1, SuccessMark),
                   InWindow(log, e, e + 1, FailMark), InWindow(log, e, e + 1, DropMark))
  {
    if log != [] {
      BucketCounts(log[..|log| - 1], e);
    }
  }

  lemma {:induction false} WindowSplits(log: seq<Event<Mark>>, lo: int, mid: int, hi: int, m: Mark)
    requires lo <= mid <= hi
    ensures InWindow(log, lo, hi, m) == InWindow(log, lo, mid, m) + InWindow(log, mid, hi, m)
  {
    if log != [] {
      WindowSplits(log[..|log| - 1], lo, mid, hi, m);
    }
  }

  lemma {:induction false} EmptyWindow(log: seq<Event<Mark>>, lo: int, hi: int, m: Mark)
    requires forall i :: 0 <= i < |log| ==> !(lo <= log[i].epoch < hi)
    ensures InWindow(log, lo, hi, m) == 0
  {
    if log != [] {
      EmptyWindow(log[..|log| - 1], lo, hi, m);
    }
  }

  /** The fold over the buckets of consecutive intervals counts exactly the events of these intervals. */
  lemma {:induction false} FoldedCounts(log: seq<Event<Mark>>, lo: int, bs: seq<Bucket>)
    requires forall k :: 0 <= k < |bs| ==> bs[k] == BucketOf(EMPTY, AddMark, log, lo + k)
    ensures Folded(bs).accepts == InWindow(log, lo, lo + |bs|, SuccessMark)
    ensures Folded(bs).total == AllInWindow(log, lo, lo + |bs|)
  {
    hide InWindow, BucketOf;
    if bs == [] {
      NoneInEmpty(log, lo, SuccessMark);
      NoneInEmpty(log, lo, FailMark);
      NoneInEmpty(log, lo, DropMark);
    } else {
      var n := |bs| - 1;
      FoldedCounts(log, lo, bs[..n]);
      BucketCounts(log, lo + n);
      WindowSplits(log, lo, lo + n, lo + n + 1, SuccessMark);
      WindowSplits(log, lo, lo + n, lo + n + 1, FailMark);
      WindowSplits(log, lo, lo + n, lo + n + 1, DropMark);
    }
  }

  /** The buckets of n consecutive intervals. */
  ghost function BucketsFrom(log: seq<Event<Mark>>, lo: int, n: nat): (bs: seq<Bucket>) {
    seq(n, k requires 0 <= k < n => BucketOf(EMPTY, AddMark, log, lo + k))
  }

  /** What the breaker has to know at interval cur: the fold over the 40 intervals that end there. */
  ghost function Recent(log: seq<Event<Mark>>, cur: int): (r: WindowResult) {
    Folded(BucketsFrom(log, cur - BUCKETS + 1, BUCKETS))
  }

  /** It counts exactly the events of these intervals. */
  lemma RecentCounts(log: seq<Event<Mark>>, cur: int)
    ensures var h := Recent(log, cur);
            h.accepts == InWindow(log, cur - BUCKETS + 1, cur + 1, SuccessMark) &&
            h.total == AllInWindow(log, cur - BUCKETS + 1, cur + 1) &&
            (h.workingBuckets == 0 || h.failingBuckets == 0) && h.workingBuckets <= BUCKETS &&
            h.failingBuckets <= BUCKETS
  {
    FoldedCounts(log, cur - BUCKETS + 1, BucketsFrom(log, cur - BUCKETS + 1, BUCKETS));
    RunsOfBuckets(BucketsFrom(log, cur - BUCKETS + 1, BUCKETS));
  }

  /** Intervals without events do not change the fold. */
  lemma {:induction false} EmptyTail(log: seq<Event<Mark>>, lo: int, n: nat, m: nat)
    requires n <= m && forall i :: 0 <= i < |log| ==> !(lo + n <= log[i].epoch < lo + m)
    ensures Folded(BucketsFrom(log, lo, m)) == Folded(BucketsFrom(log, lo, n))
    decreases m
  {
    hide BucketOf, Folded;
    if n < m {
      EmptyTail(log, lo, n, m - 1);
      NoEvents(EMPTY, AddMark, log, lo + m - 1);
      FoldedEmpty(BucketsFrom(log, lo, m - 1));
      assert BucketsFrom(log, lo, m) == BucketsFrom(log, lo, m - 1) + [EMPTY];
    }
  }

  lemma FoldedEmpty(bs: seq<Bucket>)
    ensures Folded(bs + [EMPTY]) == Folded(bs)
  {
    assert (bs + [EMPTY])[..|bs|] == bs;
  }

  lemma NoneInEmpty(log: seq<Event<Mark>>, lo: int, m: Mark)
    ensures InWindow(log, lo, lo, m) == 0
  {
    EmptyWindow(log, lo, lo, m);
  }

  // ---- the decision ----------------------------------------------------------------------------

  function AtLeast(x: real, lower: real): (r: real) {
    if x < lower then lower else x
  }

  function Weight(failingBuckets: nat): (r: real) {
    AtLeast(K - (K - MIN_K) * failingBuckets as real / BUCKETS as real, MIN_K)
  }

  function WeightedAccepts(h: WindowResult): (r: real) {
    Weight(h.failingBuckets) * h.accepts as real
  }

  function DropRatio(h: WindowResult): (r: real) {
    ((h.total - PROTECTION) as real - WeightedAccepts(h)) / (h.total + 1) as real
  }

  function UsedRatio(h: WindowResult): (r: real) {
    DropRatio(h) * (BUCKETS - h.workingBuckets) as real / BUCKETS as real
  }

  function Passes(h: WindowResult, lastPass: int, now: int, draw: real): (r: bool) {
    || DropRatio(h) <= 0.0
    || (lastPass > 0 && now - lastPass > FORCE_PASS)
    || draw >= UsedRatio(h)
  }

  lemma ProductKeepsOrder(a: real, b: real, c: real)
    requires a <= b && c >= 0.0
    ensures a * c <= b * c
  {
    assert (b - a) * c >= 0.0;
  }

  lemma ProductSign(a: real, b: real)
    requires b > 0.0
    ensures a * b > 0.0 <==> a > 0.0
  {
  }

  lemma QuotientSign(a: real, b: real)
    requires b > 0.0
    ensures a / b > 0.0 <==> a > 0.0
  {
    ProductSign(a / b, b);
    assert (a / b) * b == a;
  }

  lemma QuotientBelowOne(a: real, b: real)
    requires b > 0.0 && a < b
    ensures a / b < 1.0
  {
    ProductSign(1.0 - a / b, b);
    assert (1.0 - a / b) * b == b - (a / b) * b == b - a;
  }

  lemma WeightIsBounded(failingBuckets: nat)
    requires failingBuckets <= BUCKETS
    ensures MIN_K <= Weight(failingBuckets) <= K
  {
  }

  lemma WeightedIsBounded(h: WindowResult)
    requires h.failingBuckets <= BUCKETS
    ensures WeightedAccepts(h) >= MIN_K * h.accepts as real >= h.accepts as real >= 0.0
  {
    WeightIsBounded(h.failingBuckets);
    hide Weight;
    ProductKeepsOrder(MIN_K, Weight(h.failingBuckets), h.accepts as real);
  }

  /** The drop ratio is below 1, and positive exactly if more failed than the weighted accepts allow. */
  lemma DropRatioIsBounded(h: WindowResult)
    requires h.failingBuckets <= BUCKETS
    ensures DropRatio(h) < 1.0
    ensures DropRatio(h) > 0.0 <==> (h.total - PROTECTION) as real > WeightedAccepts(h)
  {
    WeightedIsBounded(h);
    hide WeightedAccepts;
    var a, b := (h.total - PROTECTION) as real - WeightedAccepts(h), (h.total + 1) as real;
    QuotientSign(a, b);
    QuotientBelowOne(a, b);
  }

  lemma UsedRatioIsBounded(h: WindowResult)
    requires h.workingBuckets <= BUCKETS
    ensures DropRatio(h) > 0.0 ==> 0.0 <= UsedRatio(h) <= DropRatio(h)
    ensures h.workingBuckets == BUCKETS ==> UsedRatio(h) == 0.0
  {
    hide DropRatio;
    var d, left := DropRatio(h), (BUCKETS - h.workingBuckets) as real;
    if d > 0.0 {
      Share(d, left);
    }
  }

  lemma Share(d: real, left: real)
    requires d > 0.0 && 0.0 <= left <= BUCKETS as real
    ensures 0.0 <= d * left / BUCKETS as real <= d
  {
    ProductSign(left, d);
    ProductSign(40.0 - left, d);
    var x := left * d;
    assert (40.0 - left) * d == 40.0 * d - x;
    assert left == 0.0 || x > 0.0;
    assert left == 40.0 || 40.0 * d - x > 0.0;
    OneOfForty(x, d);
  }

  lemma OneOfForty(x: real, d: real)
    requires 0.0 <= x <= 40.0 * d
    ensures 0.0 <= x / BUCKETS as real <= d
  {
  }

  /** The weight stays between the two constants and every ratio that a draw is compared with is below 1. */
  lemma RatiosAreBounded(h: WindowResult)
    requires h.failingBuckets <= BUCKETS && h.workingBuckets <= BUCKETS
    ensures MIN_K <= Weight(h.failingBuckets) <= K
    ensures DropRatio(h) < 1.0
    ensures DropRatio(h) > 0.0 ==> 0.0 <= UsedRatio(h) <= DropRatio(h)
    ensures h.workingBuckets == BUCKETS ==> UsedRatio(h) == 0.0
  {
    hide *;
    WeightIsBounded(h.failingBuckets);
    DropRatioIsBounded(h);
    UsedRatioIsBounded(h);
  }

  lemma WeightIs(failingBuckets: nat)
    requires failingBuckets <= BUCKETS
    ensures 100.0 * Weight(failingBuckets) == (150 - failingBuckets) as real
  {
  }

  /** A hundred times the numerator of the drop ratio. */
  ghost function Excess(h: WindowResult): (r: int) {
    100 * (h.total - 5) - (150 - h.failingBuckets) * h.accepts
  }

  lemma DropRatioIs(h: WindowResult)
    requires h.failingBuckets <= BUCKETS
    ensures DropRatio(h) * (100 * (h.total + 1)) as real == Excess(h) as real
  {
    WeightIs(h.failingBuckets);
    hide Weight;
    var w, a, n := Weight(h.failingBuckets), h.accepts as real, (h.total + 1) as real;
    assert 100.0 * (w * a) == (150 - h.failingBuckets) as real * a;
    assert ((150 - h.failingBuckets) * h.accepts) as real == (150 - h.failingBuckets) as real * a;
    var top := (h.total - PROTECTION) as real - w * a;
    assert (top / n) * n == top;
    assert DropRatio(h) == top / n;
    assert (top / n) * (100.0 * n) == 100.0 * top;
  }

  /** Without a forced pass the draw is compared with (total - 5 - w * accepts) / (total + 1) * (40 - workingBuckets)
      / 40, where w is (150 - failingBuckets) / 100; here in whole numbers. */
  lemma PassesExactly(h: WindowResult, lastPass: int, now: int, draw: real)
    requires h.failingBuckets <= BUCKETS && h.workingBuckets <= BUCKETS && draw >= 0.0
    ensures var excess := 100 * (h.total - 5) - (150 - h.failingBuckets) * h.accepts;
            && (Passes(h, lastPass, now, draw) <==>
                (lastPass > 0 && now - lastPass > SECOND)
                || draw * (4000 * (h.total + 1)) as real >= (excess * (40 - h.workingBuckets)) as real)
            && (DropRatio(h) > 0.0 <==> excess > 0)
  {
    DropRatioIs(h);
    var d, n, left, e := DropRatio(h), (100 * (h.total + 1)) as real, (BUCKETS - h.workingBuckets) as real, Excess(h);
    ProductSign(d, n);
    DrawBelow(d, n, left, e as real, draw);
    RealProduct(e, BUCKETS - h.workingBuckets);
    assert (4000 * (h.total + 1)) as real == 40.0 * n;
    hide DropRatio;
  }

  lemma RealProduct(a: int, b: int)
    ensures (a * b) as real == a as real * b as real
  {
  }

  lemma DrawBelow(d: real, n: real, left: real, e: real, draw: real)
    requires n > 0.0 && 0.0 <= left <= 40.0 && draw >= 0.0 && d * n == e
    ensures d <= 0.0 || draw >= d * left / BUCKETS as real <==> draw * (40.0 * n) >= e * left
  {
    var used := d * left / 40.0;
    assert used * 40.0 == d * left;
    assert (used * 40.0) * n == e * left;
    ProductSign(used - draw, 40.0 * n);
    assert (used - draw) * (40.0 * n) == e * left - draw * (40.0 * n);
    if d <= 0.0 {
      ProductKeepsOrder(d, 0.0, left);
      assert used <= 0.0;
    }
  }

  /** A request is rejected only if more than the protected number and a tenth above the accepted ones failed
      or were dropped. */
  lemma RejectedOnlyIfFailing(h: WindowResult, lastPass: int, now: int, draw: real)
    requires h.failingBuckets <= BUCKETS && h.workingBuckets <= BUCKETS && draw >= 0.0
    requires !Passes(h, lastPass, now, draw)
    ensures (h.total - PROTECTION) as real > MIN_K * h.accepts as real
    ensures h.total > PROTECTION + h.accepts
    ensures h.workingBuckets < BUCKETS
    ensures lastPass <= 0 || now - lastPass <= FORCE_PASS
  {
    RatiosAreBounded(h);
    DropRatioIsBounded(h);
    WeightedIsBounded(h);
    hide WeightedAccepts, DropRatio, UsedRatio, Weight;
  }

  // ---- the breaker -------------------------------------------------------------------------------

  class GoogleBreaker {
    const stat: RollingWindow<Mark, Bucket>
    var lastPass: int

    constructor (now: int)
      ensures Valid() && fresh(stat) && fresh(stat.buckets) && stat.log == [] && stat.lastTime == now
    {
      stat := new RollingWindow(EMPTY, AddMark, BUCKETS, WINDOW / BUCKETS, false, now);
      lastPass := 0;
    }

    ghost predicate Valid()
      reads this, stat, stat.buckets
    {
      stat.Valid() && stat.size == BUCKETS && stat.interval == WINDOW / BUCKETS && !stat.ignoreCurrent
      && stat.empty == EMPTY && stat.addTo == AddMark
    }

    method History(now: int) returns (result: WindowResult)
      requires Valid() && now >= stat.lastTime
      ensures result == Recent(stat.log, stat.Epoch(now))
    {
      hide RollingWindow.Epoch;
      var bs := stat.Reduce(now);
      result := WindowResult(0, 0, 0, 0);
      for i := 0 to |bs|
        invariant result == Folded(bs[..i])
      {
        assert bs[..i + 1][..i] == bs[..i];
        result := Tally(result, bs[i]);
      }
      assert bs[..|bs|] == bs;
      ghost var lo := stat.Epoch(now) - BUCKETS + 1;
      assert bs == BucketsFrom(stat.log, lo, |bs|);
      EmptyTail(stat.log, lo, |bs|, BUCKETS);
    }

    /** Decides on a request; `draw` is the random number the probability is compared with. Outside a forced pass it
        rejects if and only if draw < (total - 5 - w * accepts) / (total + 1) * (40 - workingBuckets) / 40, where w
        is (150 - failingBuckets) / 100. */
    method Accept(now: int, draw: real) returns (pass: bool)
      requires Valid() && now >= stat.lastTime && 0.0 <= draw < 1.0
      modifies this`lastPass
      ensures Valid()
      ensures var h := Recent(stat.log, stat.Epoch(now));
              pass == Passes(h, old(lastPass), now, draw) &&
              lastPass == if pass && DropRatio(h) > 0.0 then now else old(lastPass)
      ensures var h := Recent(stat.log, stat.Epoch(now));
              var excess := 100 * (h.total - 5) - (150 - h.failingBuckets) * h.accepts;
              && (pass <==>
                  (old(lastPass) > 0 && now - old(lastPass) > SECOND)
                  || draw * (4000 * (h.total + 1)) as real >= (excess * (40 - h.workingBuckets)) as real)
              && lastPass == if pass && excess > 0 then now else old(lastPass)
    {
      hide DropRatio, UsedRatio, Recent, RollingWindow.Epoch, InWindow, AllInWindow;
      var history := History(now);
      RecentCounts(stat.log, stat.Epoch(now));
      PassesExactly(history, lastPass, now, draw);
      var dropRatio := DropRatio(history);
      if dropRatio <= 0.0 {
        return true;
      }
      if lastPass > 0 && now - lastPass > FORCE_PASS {
        lastPass := now;
        return true;
      }
      dropRatio := UsedRatio(history);
      if draw < dropRatio {
        return false;
      }
      lastPass := now;
      pass := true;
    }

    /** Asks for a request and records a rejection as a drop. With at most five failures and drops in the
        window, or a pass recorded more than a second ago, it does not reject. */
    method Allow(now: int, draw: real) returns (allowed: bool)
      requires Valid() && now >= stat.lastTime && 0.0 <= draw < 1.0
      modifies this`lastPass, stat, stat.buckets
      ensures Valid() && stat.lastTime <= now
      ensures allowed ==> stat.log == old(stat.log)
      ensures !allowed ==> stat.log == old(stat.log) + [Event(stat.last, DropMark)] && stat.last == stat.Epoch(now)
      ensures var cur := stat.Epoch(now);
              allowed || InWindow(old(stat.log), cur - BUCKETS + 1, cur + 1, FailMark) +
              InWindow(old(stat.log), cur - BUCKETS + 1, cur + 1, DropMark) > PROTECTION
      ensures var h := Recent(old(stat.log), stat.Epoch(now));
              allowed == Passes(h, old(lastPass), now, draw) &&
              lastPass == if allowed && DropRatio(h) > 0.0 then now else old(lastPass)
      ensures !allowed ==> old(lastPass) <= 0 || now - old(lastPass) <= FORCE_PASS
    {
      allowed := Accept(now, draw);
      if !allowed {
        RecentCounts(stat.log, stat.Epoch(now));
        RejectedOnlyIfFailing(Recent(stat.log, stat.Epoch(now)), old(lastPass), now, draw);
        stat.Add(DropMark, now);
      }
    }

    /** The events of other requests. */
    ghost function Recorded(others: seq<Other>): (events: seq<Event<Mark>>) {
      seq(|others|, i requires 0 <= i < |others| => Event(EpochOf(others[i].time), others[i].mark))
    }

    /** The interval that a time lies in, from the start of the window on. */
    ghost function EpochOf(time: int): (epoch: nat) {
      if stat.interval > 0 && time >= stat.start then stat.Epoch(time) else 0
    }

    lemma EpochIs(time: int)
      requires Valid() && time >= stat.lastTime
      ensures EpochOf(time) == stat.Epoch(time)
    {
      assert stat.interval * stat.last >= 0;
    }

    /** Runs a request through the breaker; `others` is what other requests do to it while this one runs,
        `acceptable` is the verdict on its outcome, false also for a panic, and `later` the time it ended. */
    method DoReq(now: int, draw: real, others: seq<Other>, acceptable: bool, later: int) returns (ran: bool)
      requires Valid() && now >= stat.lastTime && 0.0 <= draw < 1.0 && InTime(now, others, later)
      modifies this`lastPass, stat, stat.buckets
      ensures Valid()
      ensures ran == Passes(Recent(old(stat.log), stat.Epoch(now)), old(lastPass), now, draw)
      ensures !ran ==> stat.log == old(stat.log) + [Event(EpochOf(now), DropMark)] && lastPass == old(lastPass)
      ensures ran ==>
                stat.log == old(stat.log) + Recorded(others) +
                [Event(EpochOf(later), if acceptable then SuccessMark else FailMark)]
      ensures ran && (forall o <- others :: !o.passed) ==>
                lastPass == if DropRatio(Recent(old(stat.log), stat.Epoch(now))) > 0.0 then now else old(lastPass)
    {
      hide Recent, Passes, DropRatio, RollingWindow.Epoch, InWindow, EpochOf;
      EpochIs(now);
      ran := Allow(now, draw);
      if !ran {
        return;
      }
      ghost var pass := lastPass;
      for i := 0 to |others|
        invariant Valid() && stat.log == old(stat.log) + Recorded(others[..i])
        invariant stat.lastTime <= if i == 0 then now else others[i - 1].time
        invariant (forall o <- others[..i] :: !o.passed) ==> lastPass == pass
      {
        assert others[..i + 1] == others[..i] + [others[i]];
        EpochIs(others[i].time);
        stat.Add(others[i].mark, others[i].time);
        assert Recorded(others[..i + 1]) == Recorded(others[..i]) + [Event(EpochOf(others[i].time), others[i].mark)];
        if others[i].passed {
          lastPass := others[i].time;
        }
      }
      assert others[..|others|] == others;
      EpochIs(later);
      if acceptable {
        stat.Add(SuccessMark, later);
      } else {
        stat.Add(FailMark, later);
      }
    }
  }

  /** What another request does to the breaker: it records a mark and may set the last pass. */
  datatype Other = Other(time: int, mark: Mark, passed: bool)

  /** The times of the others lie between now and later, in their order. */
  ghost predicate InTime(now: int, others: seq<Other>, later: int) {
    && now <= later
    && (forall i :: 0 <= i < |others| ==> now <= others[i].time <= later)
    && (forall i, j :: 0 <= i < j < |others| ==> others[i].time <= others[j].time)
  }
}
