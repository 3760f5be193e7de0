/** The analytics dashboard's tallies (`dayOfWeekStats` and `monthlyStats`
    in app/page.tsx): how many ticked dates fall on each weekday, and in
    each month. A string that is not a date gives `NaN` as its index, so its
    increment lands outside the counters and it is counted nowhere. */
module Analytics {
  import opened Calendar
  import opened IsoDate

  /** What the tally is by: weekday (0 = Sunday) or month (0 = January). */
  datatype Bucketing = ByWeekday | ByMonth

  function Buckets(b: Bucketing): nat {
    match b
    case ByWeekday => 7
    case ByMonth => 12
  }

  /** `new Date(dateStr).getDay()` or `.getMonth()`; `None` for `NaN`. */
  function BucketOf(b: Bucketing, s: string): (r: Option<int>)
    ensures r.Some? <==> Parse(s).Some?
    ensures r.Some? ==> 0 <= r.value < Buckets(b)
  {
    match Parse(s)
    case None => None
    case Some(d) =>
      match b
      case ByWeekday => Some(Weekday(DayNumber(d)))
      case ByMonth => Some(d.month - 1)
  }

  /** The ticked strings that fall in bucket `k`. */
  ghost function InBucket(ticks: set<string>, b: Bucketing, k: int): set<string> {
    set s | s in ticks && BucketOf(b, s) == Some(k)
  }

  /** The ticked strings that are dates. */
  ghost function Dated(ticks: set<string>): set<string> {
    set s | s in ticks && Parse(s).Some?
  }

  function Sum(a: seq<nat>): nat {
    if a == [] then 0 else a[0] + Sum(a[1..])
  }

  lemma {:induction false} SumIncrement(a: seq<nat>, k: int)
    requires 0 <= k < |a|
    ensures Sum(a[k := a[k] + 1]) == Sum(a) + 1
  {
    if k > 0 {
      assert a[k := a[k] + 1][1..] == a[1..][k - 1 := a[k] + 1];
      SumIncrement(a[1..], k - 1);
    }
  }

  lemma {:induction false} SumZeros(n: nat)
    ensures Sum(seq(n, i => 0)) == 0
  {
    if n > 0 {
      assert seq(n, i => 0)[1..] == seq(n - 1, i => 0);
      SumZeros(n - 1);
    }
  }

  lemma InBucketAdd(done: set<string>, x: string, b: Bucketing, k: int)
    requires x !in done
    ensures |InBucket(done + {x}, b, k)| == |InBucket(done, b, k)| + (if BucketOf(b, x) == Some(k) then 1 else 0)
  {
    if BucketOf(b, x) == Some(k) {
      assert InBucket(done + {x}, b, k) == InBucket(done, b, k) + {x};
    } else {
      assert InBucket(done + {x}, b, k) == InBucket(done, b, k);
    }
  }

  lemma DatedAdd(done: set<string>, x: string)
    requires x !in done
    ensures |Dated(done + {x})| == |Dated(done)| + (if Parse(x).Some? then 1 else 0)
  {
    if Parse(x).Some? {
      assert Dated(done + {x}) == Dated(done) + {x};
    } else {
      assert Dated(done + {x}) == Dated(done);
    }
  }

  /** The counters `a` tally the strings `done`. */
  ghost predicate Tallies(a: seq<nat>, done: set<string>, b: Bucketing) {
    |a| == Buckets(b)
    && (forall k :: 0 <= k < |a| ==> a[k] == |InBucket(done, b, k)|)
    && Sum(a) == |Dated(done)|
  }

  /** The counters after one `stats[key]++` for string `x`; a string that
      is not a date changes none of them. */
  function Bump(a: seq<nat>, key: Option<int>): (a': seq<nat>)
    requires key.Some? ==> 0 <= key.value < |a|
    ensures |a'| == |a|
    ensures key.Some? ==> a'[key.value] == a[key.value] + 1
    ensures forall k :: 0 <= k < |a| && key != Some(k) ==> a'[k] == a[k]
  {
    if key.Some? then a[key.value := a[key.value] + 1] else a
  }

  /** Before any string is counted every counter is 0. */
  lemma TalliesNone(b: Bucketing)
    ensures Tallies(seq(Buckets(b), i => 0), {}, b)
  {
    SumZeros(Buckets(b));
    forall k | 0 <= k < Buckets(b)
      ensures InBucket({}, b, k) == {}
    {
    }
  }

  /** A bump adds one to the total exactly when it has a key. */
  lemma SumBump(a: seq<nat>, key: Option<int>)
    requires key.Some? ==> 0 <= key.value < |a|
    ensures Sum(Bump(a, key)) == Sum(a) + (if key.Some? then 1 else 0)
  {
    if key.Some? {
      var k := key.value;
      SumIncrement(a, k);
      assert Bump(a, key) == a[k := a[k] + 1];
    }
  }

  /** Each counter still counts its bucket after one more string ... */
  lemma BucketsStep(a: seq<nat>, done: set<string>, b: Bucketing, x: string)
    requires |a| == Buckets(b) && x !in done
    requires forall k :: 0 <= k < |a| ==> a[k] == |InBucket(done, b, k)|
    ensures forall k :: 0 <= k < |a| ==> Bump(a, BucketOf(b, x))[k] == |InBucket(done + {x}, b, k)|
  {
    forall k | 0 <= k < |a|
      ensures Bump(a, BucketOf(b, x))[k] == |InBucket(done + {x}, b, k)|
    {
      InBucketAdd(done, x, b, k);
    }
  }

  /** ... and the counters still add up to the number of dates. */
  lemma SumStep(a: seq<nat>, done: set<string>, b: Bucketing, x: string)
    requires |a| == Buckets(b) && x !in done
    requires Sum(a) == |Dated(done)|
    ensures Sum(Bump(a, BucketOf(b, x))) == |Dated(done + {x})|
  {
    DatedAdd(done, x);
    SumBump(a, BucketOf(b, x));
  }

  /** Counting one more string keeps the counters right. */
  lemma TallyStep(a: seq<nat>, done: set<string>, b: Bucketing, x: string)
    requires Tallies(a, done, b) && x !in done
    ensures Tallies(Bump(a, BucketOf(b, x)), done + {x}, b)
  {
    BucketsStep(a, done, b, x);
    SumStep(a, done, b, x);
  }

  /** `stats[key]++` in place; nothing happens for a missing key. */
  method Increment(stats: array<nat>, key: Option<int>)
    requires key.Some? ==> 0 <= key.value < stats.Length
    modifies stats
    ensures stats[..] == Bump(old(stats[..]), key)
  {
    if key.Some? {
      stats[key.value] := stats[key.value] + 1;
    }
  }

  /** One step of the `forEach`: the bucket of `dateStr`, then its increment. */
  method CountOne(stats: array<nat>, b: Bucketing, dateStr: string, ghost done: set<string>)
    requires Tallies(stats[..], done, b) && dateStr !in done
    modifies stats
    ensures Tallies(stats[..], done + {dateStr}, b)
  {
    var key := BucketOf(b, dateStr);
    TallyStep(stats[..], done, b, dateStr);
    Increment(stats, key);
  }

  /** The tally: counter `k` is the number of ticked dates in bucket `k`,
      and the counters add up to the number of ticked dates. */
  method Tally(ticks: set<string>, b: Bucketing) returns (counts: seq<nat>)
    ensures |counts| == Buckets(b)
    ensures forall k :: 0 <= k < |counts| ==> counts[k] == |InBucket(ticks, b, k)|
    ensures Sum(counts) == |Dated(ticks)|
  {
    var stats := new nat[Buckets(b)](i => 0);
    var rest := ticks;
    assert Tallies(stats[..], ticks - rest, b) by {
      assert stats[..] == seq(Buckets(b), i => 0);
      assert ticks - rest == {};
      TalliesNone(b);
    }
    while rest != {}
      invariant rest <= ticks
      invariant Tallies(stats[..], ticks - rest, b)
      decreases |rest|
    {
      var dateStr :| dateStr in rest;
      CountOne(stats, b, dateStr, ticks - rest);
      assert (ticks - rest) + {dateStr} == ticks - (rest - {dateStr});
      rest := rest - {dateStr};
    }
    assert Tallies(stats[..], ticks, b) by {
      assert ticks - rest == ticks;
    }
    counts := stats[..];
  }
}
