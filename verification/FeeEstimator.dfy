/** The fee estimator: samples by confirmation time, and a sorted cache of all of them. */
module FeeEstimator {
  import opened Basics
  import opened MemPool

  const BUFFER_SIZE := 100
  const MIN_SAMPLES := 11
  const MAX_PER_BLOCK := 10

  /** Fee and priority samples of one confirmation time. */
  datatype Bucket = Bucket(fees: seq<int>, priorities: seq<real>)

  // ---------------------------------------------------------------- descending order

  /** What the two kinds of samples are sorted by. */
  function FeeKey(fee: int): real { fee as real }
  function PriorityKey(priority: real): real { priority }

  function Insert<T>(x: T, s: seq<T>, key: T -> real): seq<T> {
    if s == [] || key(x) >= key(s[0]) then [x] + s else [s[0]] + Insert(x, s[1..], key)
  }

  /** Sorted with the greatest first. */
  function Descending<T>(s: seq<T>, key: T -> real): seq<T> {
    if s == [] then [] else Insert(s[0], Descending(s[1..], key), key)
  }

  ghost predicate IsDescending<T>(s: seq<T>, key: T -> real) {
    forall i, j :: 0 <= i <= j < |s| ==> key(s[i]) >= key(s[j])
  }

  lemma {:induction false} InsertKeeps<T>(x: T, s: seq<T>, key: T -> real)
    ensures multiset(Insert(x, s, key)) == multiset(s) + multiset{x}
  {
    if s != [] && key(x) < key(s[0]) {
      InsertKeeps(x, s[1..], key);
      assert s == [s[0]] + s[1..];
    }
  }

  lemma {:induction false} InsertSorted<T>(x: T, s: seq<T>, key: T -> real)
    requires IsDescending(s, key)
    ensures IsDescending(Insert(x, s, key), key) && multiset(Insert(x, s, key)) == multiset(s) + multiset{x}
  {
    InsertKeeps(x, s, key);
    if s != [] && key(x) < key(s[0]) {
      InsertSorted(x, s[1..], key);
      var t := Insert(x, s[1..], key);
      forall i | 0 <= i < |t| ensures key(s[0]) >= key(t[i]) {
        assert t[i] in multiset(t);
        assert t[i] in multiset(s[1..]) || t[i] == x;
      }
    }
  }

  /** A descending rearrangement of the samples. */
  lemma {:induction false} DescendingSorts<T>(s: seq<T>, key: T -> real)
    ensures IsDescending(Descending(s, key), key)
    ensures multiset(Descending(s, key)) == multiset(s) && |Descending(s, key)| == |s|
  {
    if s != [] {
      hide Insert;
      DescendingSorts(s[1..], key);
      InsertSorted(s[0], Descending(s[1..], key), key);
      assert s == [s[0]] + s[1..];
    }
    assert |multiset(Descending(s, key))| == |Descending(s, key)| && |multiset(s)| == |s|;
  }

  // ---------------------------------------------------------------- samples

  /** push_back on a circular buffer: the oldest sample goes when it is full. */
  function PushBack<T>(s: seq<T>, x: T): seq<T> {
    if |s| < BUFFER_SIZE then s + [x] else s[1..] + [x]
  }

  function Fees(b: Bucket): seq<int> { b.fees }
  function Priorities(b: Bucket): seq<real> { b.priorities }

  /** Samples of one kind in the first k buckets. */
  function Samples<T>(history: seq<Bucket>, k: nat, of: Bucket -> seq<T>): seq<T>
    requires k <= |history|
  {
    if k == 0 then [] else Samples(history, k - 1, of) + of(history[k - 1])
  }

  function AllSamples<T>(history: seq<Bucket>, of: Bucket -> seq<T>): seq<T> { Samples(history, |history|, of) }

  lemma {:induction false} SamplesGrow<T>(history: seq<Bucket>, j: nat, k: nat, of: Bucket -> seq<T>)
    requires j <= k <= |history|
    ensures |Samples(history, j, of)| <= |Samples(history, k, of)|
  {
    if j < k {
      SamplesGrow(history, j, k - 1, of);
    }
  }

  /** Which of the sorted samples answers for bucket k: those of faster buckets, and half of its own, lie before it. */
  function Index<T>(history: seq<Bucket>, k: nat, of: Bucket -> seq<T>): nat
    requires k < |history| && |AllSamples(history, of)| > 0
  {
    Min(|Samples(history, k, of)| + |of(history[k])| / 2, |AllSamples(history, of)| - 1)
  }

  /** The estimate for confirmation within nBlocksToConfirm blocks, from the history alone. */
  function Estimate<T>(history: seq<Bucket>, nBlocksToConfirm: int, of: Bucket -> seq<T>, key: T -> real, none: T): T {
    var k := nBlocksToConfirm - 1;
    if k < 0 || k >= |history| || |AllSamples(history, of)| < MIN_SAMPLES then none else
      DescendingSorts(AllSamples(history, of), key);
      Descending(AllSamples(history, of), key)[Index(history, k, of)]
  }

  function FeeEstimate(history: seq<Bucket>, n: int): int { Estimate(history, n, Fees, FeeKey, 0) }
  function PriorityEstimate(history: seq<Bucket>, n: int): real { Estimate(history, n, Priorities, PriorityKey, -1.0) }

  lemma NoEstimate<T>(history: seq<Bucket>, n: int, of: Bucket -> seq<T>, key: T -> real, none: T)
    requires !(1 <= n <= |history|)
    ensures Estimate(history, n, of, key, none) == none
  {
  }

  lemma EstimateAt<T>(history: seq<Bucket>, k: nat, of: Bucket -> seq<T>, key: T -> real, none: T)
    requires k < |history|
    ensures var sorted := Descending(AllSamples(history, of), key);
            var index := Min(|Samples(history, k, of)| + |of(history[k])| / 2, |sorted| - 1);
            if |sorted| < MIN_SAMPLES then Estimate(history, k + 1, of, key, none) == none
            else 0 <= index < |sorted| && sorted[index] == Estimate(history, k + 1, of, key, none)
  {
    hide Descending, Samples;
    DescendingSorts(AllSamples(history, of), key);
  }

  lemma IndexGrows<T>(history: seq<Bucket>, a: nat, b: nat, of: Bucket -> seq<T>)
    requires a <= b < |history| && |AllSamples(history, of)| > 0
    ensures Index(history, a, of) <= Index(history, b, of)
  {
    if a < b {
      SamplesGrow(history, a + 1, b, of);
    }
  }

  /** Estimates of either kind do not increase with the number of confirmations asked for. */
  lemma EstimateMonotone<T>(history: seq<Bucket>, a: int, b: int, of: Bucket -> seq<T>, key: T -> real, none: T)
    requires 1 <= a <= b <= |history|
    ensures key(Estimate(history, a, of, key, none)) >= key(Estimate(history, b, of, key, none))
  {
    if |AllSamples(history, of)| >= MIN_SAMPLES {
      IndexGrows(history, a - 1, b - 1, of);
      DescendingSorts(AllSamples(history, of), key);
    }
  }

  const TWO63 := 0x8000_0000_0000_0000
  const TWO64 := 0x1_0000_0000_0000_0000

  /** Satoshis per thousand bytes: the division is unsigned 64-bit, and its result is read as signed. */
  function FeeRate(fee: int, size: nat): int {
    if size > 0 then
      var q := ((fee * 1000) % TWO64) / size;
      if q >= TWO63 then q - TWO64 else q
    else 0
  }

  /** While nothing overflows, the rate is the fee for a thousand bytes, rounded down. */
  lemma FeeRateExact(fee: nat, size: nat)
    requires size > 0 && fee * 1000 < TWO63
    ensures FeeRate(fee, size) * size <= 1000 * fee < (FeeRate(fee, size) + 1) * size
  {
    var x := fee * 1000;
    var q := x / size;
    assert x % TWO64 == x;
    assert x == size * q + x % size;
    Commute(q, size);
    if q >= TWO63 {
      Grows(q, size);
    }
  }

  lemma Commute(q: int, size: nat)
    ensures q * size == size * q && (q + 1) * size == size * q + size
  {
  }

  lemma Grows(q: nat, size: nat)
    requires size > 0
    ensures size * q >= q
  {
  }

  predicate SaneFee(feeRate: int, minRelayFee: int) {
    feeRate >= 0 && feeRate <= minRelayFee * 10000
  }

  /** Record a confirmation as bought by fee or by priority when only one of them explains it. */
  function Confirm(b: Bucket, e: Entry, minRelayFee: int, freeThreshold: real): Bucket {
    var rate := FeeRate(e.fee, e.size);
    var sufficientFee, sufficientPriority := rate > minRelayFee, e.priority > freeThreshold;
    if sufficientFee && !sufficientPriority && SaneFee(rate, minRelayFee) then b.(fees := PushBack(b.fees, rate))
    else if sufficientPriority && !sufficientFee && e.priority >= 0.0 then b.(priorities := PushBack(b.priorities, e.priority))
    else b
  }

  function ConfirmAll(b: Bucket, es: seq<Entry>, minRelayFee: int, freeThreshold: real): Bucket {
    if es == [] then b else
      Confirm(ConfirmAll(b, es[..|es| - 1], minRelayFee, freeThreshold), es[|es| - 1], minRelayFee, freeThreshold)
  }

  /** Only its fee, or only its priority, explains why a transaction was confirmed. */
  predicate FeeOnly(e: Entry, minRelayFee: int, freeThreshold: real) {
    var rate := FeeRate(e.fee, e.size);
    rate > minRelayFee && e.priority <= freeThreshold && 0 <= rate <= minRelayFee * 10000
  }

  predicate PriorityOnly(e: Entry, minRelayFee: int, freeThreshold: real) {
    e.priority > freeThreshold && e.priority >= 0.0 && FeeRate(e.fee, e.size) <= minRelayFee
  }

  /** The newest samples, as many as the buffer holds. */
  function Newest<T>(s: seq<T>): seq<T> {
    if |s| <= 100 then s else s[|s| - 100..]
  }

  /** The rates, and the priorities, of the entries that only these explain. */
  function FeesOf(es: seq<Entry>, minRelayFee: int, freeThreshold: real): seq<int> {
    if es == [] then [] else
      var e := es[|es| - 1];
      FeesOf(es[..|es| - 1], minRelayFee, freeThreshold)
      + if FeeOnly(e, minRelayFee, freeThreshold) then [FeeRate(e.fee, e.size)] else []
  }

  function PrioritiesOf(es: seq<Entry>, minRelayFee: int, freeThreshold: real): seq<real> {
    if es == [] then [] else
      var e := es[|es| - 1];
      PrioritiesOf(es[..|es| - 1], minRelayFee, freeThreshold)
      + if PriorityOnly(e, minRelayFee, freeThreshold) then [e.priority] else []
  }

  lemma PushNewest<T>(s: seq<T>, x: T)
    requires |s| <= 100
    ensures PushBack(s, x) == Newest(s + [x])
  {
  }

  lemma NewestTwice<T>(s: seq<T>, t: seq<T>)
    ensures Newest(Newest(s) + t) == Newest(s + t)
  {
    if |s| > 100 {
      var u := s[|s| - 100..];
      assert s == s[..|s| - 100] + u;
      assert s + t == s[..|s| - 100] + (u + t);
    }
  }

  /** One confirmation: explained by one reason alone it becomes the newest sample of that kind, otherwise nothing changes. */
  lemma ConfirmExact(b: Bucket, e: Entry, minRelayFee: int, freeThreshold: real)
    requires |b.fees| <= 100 && |b.priorities| <= 100
    ensures var a := Confirm(b, e, minRelayFee, freeThreshold);
            && a.fees == (if FeeOnly(e, minRelayFee, freeThreshold) then Newest(b.fees + [FeeRate(e.fee, e.size)]) else b.fees)
            && a.priorities == (if PriorityOnly(e, minRelayFee, freeThreshold) then Newest(b.priorities + [e.priority]) else b.priorities)
  {
    hide FeeRate;
    PushNewest(b.fees, FeeRate(e.fee, e.size));
    PushNewest(b.priorities, e.priority);
  }

  /** Any confirmations: the newest samples of the old ones and of those that one reason alone explains, in order. */
  lemma {:induction false} ConfirmAllExact(b: Bucket, es: seq<Entry>, minRelayFee: int, freeThreshold: real)
    requires |b.fees| <= 100 && |b.priorities| <= 100
    ensures var a := ConfirmAll(b, es, minRelayFee, freeThreshold);
            && a.fees == Newest(b.fees + FeesOf(es, minRelayFee, freeThreshold))
            && a.priorities == Newest(b.priorities + PrioritiesOf(es, minRelayFee, freeThreshold))
    decreases |es|
  {
    hide Confirm, FeeOnly, PriorityOnly, Newest, FeeRate;
    if es == [] {
      assert b.fees + [] == b.fees && b.priorities + [] == b.priorities;
      NewestFits(b.fees);
      NewestFits(b.priorities);
    } else {
      var init, e := es[..|es| - 1], es[|es| - 1];
      var c := ConfirmAll(b, init, minRelayFee, freeThreshold);
      var fs, qs := FeesOf(init, minRelayFee, freeThreshold), PrioritiesOf(init, minRelayFee, freeThreshold);
      ConfirmAllExact(b, init, minRelayFee, freeThreshold);
      NewestFits(b.fees + fs);
      NewestFits(b.priorities + qs);
      ConfirmExact(c, e, minRelayFee, freeThreshold);
      NewestTwice(b.fees + fs, [FeeRate(e.fee, e.size)]);
      NewestTwice(b.priorities + qs, [e.priority]);
      assert (b.fees + fs) + [FeeRate(e.fee, e.size)] == b.fees + (fs + [FeeRate(e.fee, e.size)]);
      assert (b.priorities + qs) + [e.priority] == b.priorities + (qs + [e.priority]);
      assert fs + [] == fs && qs + [] == qs;
    }
  }

  lemma NewestFits<T>(s: seq<T>)
    ensures |Newest(s)| == Min(|s|, 100) && (|s| <= 100 ==> Newest(s) == s)
  {
  }

  /** How many entries only their fee, or only their priority, explains. */
  function CountFeeOnly(es: seq<Entry>, minRelayFee: int, freeThreshold: real): nat { |FeesOf(es, minRelayFee, freeThreshold)| }
  function CountPriorityOnly(es: seq<Entry>, minRelayFee: int, freeThreshold: real): nat { |PrioritiesOf(es, minRelayFee, freeThreshold)| }

  /** What a bucket gains from a block: a sample for each entry picked that one reason alone explains, up to the capacity. */
  lemma SampledGains(before: Bucket, after: Bucket, es: seq<Entry>, minRelayFee: int, freeThreshold: real) returns (picked: seq<Entry>)
    requires Sampled(before, after, es, minRelayFee, freeThreshold) && |before.fees| <= 100 && |before.priorities| <= 100
    ensures multiset(picked) <= multiset(es) && |picked| == Min(|es|, 10)
    ensures after.fees == Newest(before.fees + FeesOf(picked, minRelayFee, freeThreshold))
    ensures after.priorities == Newest(before.priorities + PrioritiesOf(picked, minRelayFee, freeThreshold))
    ensures |after.fees| == Min(100, |before.fees| + CountFeeOnly(picked, minRelayFee, freeThreshold))
    ensures |after.priorities| == Min(100, |before.priorities| + CountPriorityOnly(picked, minRelayFee, freeThreshold))
  {
    hide ConfirmAll, Newest;
    picked :| multiset(picked) <= multiset(es)
              && |picked| == (if |es| > MAX_PER_BLOCK then MAX_PER_BLOCK else |es|)
              && after == ConfirmAll(before, picked, minRelayFee, freeThreshold);
    ConfirmAllExact(before, picked, minRelayFee, freeThreshold);
    NewestFits(before.fees + FeesOf(picked, minRelayFee, freeThreshold));
    NewestFits(before.priorities + PrioritiesOf(picked, minRelayFee, freeThreshold));
  }

  /** The bucket an entry belongs to: blocks it waited, less one, the last bucket catching the rest; -1 for none. */
  function Waited(e: Entry, nBlockHeight: int, buckets: nat): int {
    var delta := nBlockHeight - e.height;
    if delta <= 0 then -1 else if delta - 1 >= buckets then buckets - 1 else delta - 1
  }

  function Waiting(es: seq<Entry>, nBlockHeight: int, buckets: nat, k: int): seq<Entry> {
    if es == [] then [] else
      var n := |es| - 1;
      Waiting(es[..n], nBlockHeight, buckets, k) + if Waited(es[n], nBlockHeight, buckets) == k then [es[n]] else []
  }

  /** An entry took k + 1 blocks, or more if bucket k is the last. */
  predicate Took(e: Entry, nBlockHeight: int, buckets: nat, k: nat) {
    nBlockHeight - e.height == k + 1 || (nBlockHeight - e.height > buckets && k == buckets - 1)
  }

  lemma WaitedExact(e: Entry, nBlockHeight: int, buckets: nat, k: nat)
    requires k < buckets
    ensures Waited(e, nBlockHeight, buckets) == k <==> Took(e, nBlockHeight, buckets, k)
  {
  }

  /** Bucket k holds just the entries that took that long, each as often as it came. */
  lemma {:induction false} WaitingExact(es: seq<Entry>, nBlockHeight: int, buckets: nat, k: nat, e: Entry)
    requires k < buckets
    ensures multiset(Waiting(es, nBlockHeight, buckets, k))[e] == if Took(e, nBlockHeight, buckets, k) then multiset(es)[e] else 0
    decreases |es|
  {
    hide Waited, Took;
    if es != [] {
      var n := |es| - 1;
      WaitingExact(es[..n], nBlockHeight, buckets, k, e);
      WaitedExact(es[n], nBlockHeight, buckets, k);
      assert es == es[..n] + [es[n]];
      assert multiset(es) == multiset(es[..n]) + multiset{es[n]};
    }
  }

  /** What a bucket becomes when a block is seen, for some choice of at most ten of its entries. */
  ghost predicate Sampled(before: Bucket, after: Bucket, es: seq<Entry>, minRelayFee: int, freeThreshold: real) {
    exists picked: seq<Entry> ::
      && multiset(picked) <= multiset(es)
      && |picked| == (if |es| > MAX_PER_BLOCK then MAX_PER_BLOCK else |es|)
      && after == ConfirmAll(before, picked, minRelayFee, freeThreshold)
  }

  /** At most a full buffer of each kind, every fee sane and above the relay minimum, every priority above the threshold. */
  ghost predicate SaneBucket(b: Bucket, minRelayFee: int, freeThreshold: real) {
    && |b.fees| <= BUFFER_SIZE && |b.priorities| <= BUFFER_SIZE
    && (forall i :: 0 <= i < |b.fees| ==> minRelayFee < b.fees[i] && SaneFee(b.fees[i], minRelayFee))
    && (forall i :: 0 <= i < |b.priorities| ==> b.priorities[i] > freeThreshold && b.priorities[i] >= 0.0)
  }

  ghost predicate Sane(history: seq<Bucket>, minRelayFee: int, freeThreshold: real) {
    forall k :: 0 <= k < |history| ==> SaneBucket(history[k], minRelayFee, freeThreshold)
  }

  lemma {:induction false} ConfirmAllSane(b: Bucket, es: seq<Entry>, minRelayFee: int, freeThreshold: real)
    requires SaneBucket(b, minRelayFee, freeThreshold)
    ensures SaneBucket(ConfirmAll(b, es, minRelayFee, freeThreshold), minRelayFee, freeThreshold)
    decreases |es|
  {
    hide FeeRate;
    if es != [] {
      ConfirmAllSane(b, es[..|es| - 1], minRelayFee, freeThreshold);
    }
  }

  /** Whichever entries a block's sampling picks, the buckets stay sane. */
  lemma SampledSane(before: seq<Bucket>, after: seq<Bucket>, groups: seq<seq<Entry>>, minRelayFee: int, freeThreshold: real)
    requires |before| == |after| == |groups| && Sane(before, minRelayFee, freeThreshold)
    requires forall k :: 0 <= k < |before| ==> Sampled(before[k], after[k], groups[k], minRelayFee, freeThreshold)
    ensures Sane(after, minRelayFee, freeThreshold)
  {
    hide SaneBucket, ConfirmAll;
    forall k | 0 <= k < |after| ensures SaneBucket(after[k], minRelayFee, freeThreshold) {
      assert Sampled(before[k], after[k], groups[k], minRelayFee, freeThreshold);
      var picked: seq<Entry> :| after[k] == ConfirmAll(before[k], picked, minRelayFee, freeThreshold);
      ConfirmAllSane(before[k], picked, minRelayFee, freeThreshold);
    }
  }

  lemma {:induction false} SamplesSane(history: seq<Bucket>, k: nat, minRelayFee: int, freeThreshold: real)
    requires k <= |history| && Sane(history, minRelayFee, freeThreshold)
    ensures forall x :: x in Samples(history, k, Fees) ==> minRelayFee < x && SaneFee(x, minRelayFee)
    ensures forall x :: x in Samples(history, k, Priorities) ==> x > freeThreshold && x >= 0.0
  {
    if k > 0 {
      SamplesSane(history, k - 1, minRelayFee, freeThreshold);
      assert SaneBucket(history[k - 1], minRelayFee, freeThreshold);
    }
  }

  /** An estimate is one of the samples, if there are enough of them. */
  lemma EstimateIsSample<T>(history: seq<Bucket>, n: int, of: Bucket -> seq<T>, key: T -> real, none: T)
    ensures 1 <= n <= |history| && |AllSamples(history, of)| >= MIN_SAMPLES ==>
              Estimate(history, n, of, key, none) in AllSamples(history, of)
    ensures !(1 <= n <= |history| && |AllSamples(history, of)| >= MIN_SAMPLES) ==> Estimate(history, n, of, key, none) == none
  {
    hide Descending, Samples;
    var all := AllSamples(history, of);
    DescendingSorts(all, key);
    if 1 <= n <= |history| && |all| >= MIN_SAMPLES {
      var x := Descending(all, key)[Index(history, n - 1, of)];
      assert x in multiset(Descending(all, key));
      assert x in all;
    }
  }

  /** How many samples are above a value, and how many are at least that. */
  function Above<T>(s: seq<T>, key: T -> real, v: real): nat {
    if s == [] then 0 else Above(s[..|s| - 1], key, v) + if key(s[|s| - 1]) > v then 1 else 0
  }

  function AtLeast<T>(s: seq<T>, key: T -> real, v: real): nat {
    if s == [] then 0 else AtLeast(s[..|s| - 1], key, v) + if key(s[|s| - 1]) >= v then 1 else 0
  }

  lemma {:induction false} RankSorted<T>(s: seq<T>, key: T -> real, r: nat, n: nat)
    requires IsDescending(s, key) && r < |s| && n <= |s|
    ensures Above(s[..n], key, key(s[r])) <= r && AtLeast(s[..n], key, key(s[r])) >= Min(n, r + 1)
    decreases n
  {
    if n > 0 {
      RankSorted(s, key, r, n - 1);
      assert s[..n][..n - 1] == s[..n - 1];
      if n - 1 < r {
        AboveAtMost(s[..n], key, key(s[r]));
      }
    }
  }

  lemma {:induction false} AboveAtMost<T>(s: seq<T>, key: T -> real, v: real)
    ensures Above(s, key, v) <= |s|
  {
    if s != [] {
      AboveAtMost(s[..|s| - 1], key, v);
    }
  }

  lemma DropOne<T>(t: seq<T>, i: nat, key: T -> real, v: real)
    requires i < |t|
    ensures var u := t[..i] + t[i + 1..];
            && multiset(t) == multiset(u) + multiset{t[i]}
            && Above(t, key, v) == Above(u, key, v) + (if key(t[i]) > v then 1 else 0)
            && AtLeast(t, key, v) == AtLeast(u, key, v) + (if key(t[i]) >= v then 1 else 0)
  {
    var a, b := t[..i], t[i + 1..];
    assert t == (a + [t[i]]) + b;
    CountsAppend(a + [t[i]], b, key, v);
    CountsAppend(a, b, key, v);
    assert (a + [t[i]])[..i] == a;
  }

  /** Counting does not depend on the order. */
  lemma {:induction false} CountsOfMultiset<T>(s: seq<T>, t: seq<T>, key: T -> real, v: real)
    requires multiset(s) == multiset(t)
    ensures Above(s, key, v) == Above(t, key, v) && AtLeast(s, key, v) == AtLeast(t, key, v)
    decreases |s|
  {
    assert |multiset(s)| == |s| && |multiset(t)| == |t|;
    if s != [] {
      hide Above, AtLeast;
      var k := |s| - 1;
      var x := s[k];
      assert x in multiset(t);
      var i :| 0 <= i < |t| && t[i] == x;
      DropOne(t, i, key, v);
      DropOne(s, k, key, v);
      var r, u := s[..k] + s[k + 1..], t[..i] + t[i + 1..];
      assert multiset(r) == multiset(s) - multiset{x} && multiset(u) == multiset(t) - multiset{x};
      CountsOfMultiset(r, u, key, v);
    }
  }

  lemma {:induction false} CountsAppend<T>(s: seq<T>, t: seq<T>, key: T -> real, v: real)
    ensures Above(s + t, key, v) == Above(s, key, v) + Above(t, key, v)
    ensures AtLeast(s + t, key, v) == AtLeast(s, key, v) + AtLeast(t, key, v)
    decreases |t|
  {
    if t == [] {
      assert s + t == s;
    } else {
      assert (s + t)[..|s + t| - 1] == s + t[..|t| - 1];
      CountsAppend(s, t[..|t| - 1], key, v);
    }
  }

  /** How many samples the first k buckets hold. */
  function Held<T>(history: seq<Bucket>, k: nat, of: Bucket -> seq<T>): nat
    requires k <= |history|
  {
    if k == 0 then 0 else Held(history, k - 1, of) + |of(history[k - 1])|
  }

  /** The samples are those of the buckets. */
  lemma {:induction false} SamplesMembers<T>(history: seq<Bucket>, k: nat, of: Bucket -> seq<T>, x: T)
    requires k <= |history|
    ensures x in Samples(history, k, of) <==> exists j :: 0 <= j < k && x in of(history[j])
  {
    if k > 0 {
      SamplesMembers(history, k - 1, of, x);
    }
  }

  /**
   The rank of an estimate for n blocks: of all samples, at most as many are above it as faster
   buckets and half of its own hold (or all but one), and more than that are at least as high.
   */
  lemma EstimateRank<T>(history: seq<Bucket>, n: int, of: Bucket -> seq<T>, key: T -> real, none: T)
    requires 1 <= n <= |history| && Held(history, |history|, of) >= 11
    ensures var v := key(Estimate(history, n, of, key, none));
            var all := AllSamples(history, of);
            var r := Min(Held(history, n - 1, of) + |of(history[n - 1])| / 2, |all| - 1);
            Above(all, key, v) <= r < AtLeast(all, key, v)
  {
    hide Descending, Samples, Above, AtLeast, IsDescending;
    var all := AllSamples(history, of);
    var sorted := Descending(all, key);
    DescendingSorts(all, key);
    HeldIsSize(history, |history|, of);
    HeldIsSize(history, n - 1, of);
    var r := Index(history, n - 1, of);
    RankSorted(sorted, key, r, |sorted|);
    assert sorted[..|sorted|] == sorted;
    CountsOfMultiset(sorted, all, key, key(sorted[r]));
  }

  lemma {:induction false} HeldIsSize<T>(history: seq<Bucket>, k: nat, of: Bucket -> seq<T>)
    requires k <= |history|
    ensures |Samples(history, k, of)| == Held(history, k, of)
  {
    if k > 0 {
      HeldIsSize(history, k - 1, of);
    }
  }

  /** Estimates stand for too few samples, or are as sane as the samples. */
  lemma EstimateInRange(history: seq<Bucket>, n: int, minRelayFee: int, freeThreshold: real)
    requires Sane(history, minRelayFee, freeThreshold)
    ensures FeeEstimate(history, n) == 0 ||
            (minRelayFee < FeeEstimate(history, n) && SaneFee(FeeEstimate(history, n), minRelayFee))
    ensures PriorityEstimate(history, n) == -1.0 ||
            (PriorityEstimate(history, n) > freeThreshold && PriorityEstimate(history, n) >= 0.0)
  {
    hide Estimate, Samples;
    SamplesSane(history, |history|, minRelayFee, freeThreshold);
    EstimateIsSample(history, n, Fees, FeeKey, 0);
    EstimateIsSample(history, n, Priorities, PriorityKey, -1.0);
  }

  /** Over a sane history, asking for any number of blocks more never costs more. */
  lemma EstimateFalls(history: seq<Bucket>, a: int, b: int, minRelayFee: int, freeThreshold: real)
    requires Sane(history, minRelayFee, freeThreshold) && 1 <= a <= b
    ensures FeeEstimate(history, a) >= FeeEstimate(history, b)
    ensures PriorityEstimate(history, a) >= PriorityEstimate(history, b)
  {
    hide Estimate;
    if b <= |history| {
      EstimateMonotone(history, a, b, Fees, FeeKey, 0);
      EstimateMonotone(history, a, b, Priorities, PriorityKey, -1.0);
    } else {
      EstimateInRange(history, a, minRelayFee, freeThreshold);
      EstimateIsSample(history, b, Fees, FeeKey, 0);
      EstimateIsSample(history, b, Priorities, PriorityKey, -1.0);
    }
  }

  /** random_shuffle: callers know only that the result is a rearrangement. */
  method RandomShuffle(es: seq<Entry>) returns (r: seq<Entry>)
    ensures multiset(r) == multiset(es)
  {
    r := es;
  }

  // ---------------------------------------------------------------- the object

  class MinerPolicyEstimator {
    var history: seq<Bucket>
    var sortedFeeSamples: seq<int>
    var sortedPrioritySamples: seq<real>
    var nBestSeenHeight: int

    /** Each cache is empty, or the descending sort of all current samples. */
    ghost predicate Valid()
      reads this
    {
      && |history| > 0
      && (sortedFeeSamples == [] || sortedFeeSamples == Descending(AllSamples(history, Fees), FeeKey))
      && (sortedPrioritySamples == [] || sortedPrioritySamples == Descending(AllSamples(history, Priorities), PriorityKey))
    }

    constructor (nEntries: nat)
      requires nEntries > 0
      ensures Valid() && |history| == nEntries && nBestSeenHeight == 0
      ensures forall k :: 0 <= k < nEntries ==> history[k] == Bucket([], [])
      ensures forall minRelayFee, freeThreshold :: Sane(history, minRelayFee, freeThreshold)
    {
      history := seq(nEntries, _ => Bucket([], []));
      sortedFeeSamples, sortedPrioritySamples := [], [];
      nBestSeenHeight := 0;
    }

    method CollectSamples<T>(of: Bucket -> seq<T>) returns (samples: seq<T>)
      ensures samples == AllSamples(history, of)
    {
      samples := [];
      for i := 0 to |history|
        invariant samples == Samples(history, i, of)
      {
        samples := samples + of(history[i]);
      }
    }

    method CountSamples<T>(k: nat, of: Bucket -> seq<T>) returns (n: nat)
      requires k <= |history|
      ensures n == |Samples(history, k, of)|
    {
      n := 0;
      for i := 0 to k
        invariant n == |Samples(history, i, of)|
      {
        n := n + |of(history[i])|;
      }
    }

    /** Answers from the history alone, filling the cache on the way. */
    method EstimateFee(nBlocksToConfirmIn: int) returns (rate: int)
      requires Valid()
      modifies this`sortedFeeSamples
      ensures Valid()
      ensures rate == FeeEstimate(history, nBlocksToConfirmIn)
    {
      hide Descending, Samples, AllSamples, Estimate, Fees, Priorities, FeeKey, PriorityKey;
      var nBlocksToConfirm := nBlocksToConfirmIn - 1;
      if nBlocksToConfirm < 0 || nBlocksToConfirm >= |history| {
        NoEstimate(history, nBlocksToConfirmIn, Fees, FeeKey, 0);
        return 0;
      }
      EstimateAt(history, nBlocksToConfirm, Fees, FeeKey, 0);
      if |sortedFeeSamples| == 0 {
        var samples := CollectSamples(Fees);
        sortedFeeSamples := Descending(samples, FeeKey);
      }
      if |sortedFeeSamples| < MIN_SAMPLES {
        return 0;
      }
      var nBucketSize := |Fees(history[nBlocksToConfirm])|;
      var nPrevSize := CountSamples(nBlocksToConfirm, Fees);
      var index := Min(nPrevSize + nBucketSize / 2, |sortedFeeSamples| - 1);
      rate := sortedFeeSamples[index];
    }

    /** The same for priorities. */
    method EstimatePriority(nBlocksToConfirmIn: int) returns (priority: real)
      requires Valid()
      modifies this`sortedPrioritySamples
      ensures Valid()
      ensures priority == PriorityEstimate(history, nBlocksToConfirmIn)
    {
      hide Descending, Samples, AllSamples, Estimate, Fees, Priorities, FeeKey, PriorityKey;
      var nBlocksToConfirm := nBlocksToConfirmIn - 1;
      if nBlocksToConfirm < 0 || nBlocksToConfirm >= |history| {
        NoEstimate(history, nBlocksToConfirmIn, Priorities, PriorityKey, -1.0);
        return -1.0;
      }
      EstimateAt(history, nBlocksToConfirm, Priorities, PriorityKey, -1.0);
      if |sortedPrioritySamples| == 0 {
        var samples := CollectSamples(Priorities);
        sortedPrioritySamples := Descending(samples, PriorityKey);
      }
      if |sortedPrioritySamples| < MIN_SAMPLES {
        return -1.0;
      }
      var nBucketSize := |Priorities(history[nBlocksToConfirm])|;
      var nPrevSize := CountSamples(nBlocksToConfirm, Priorities);
      var index := Min(nPrevSize + nBucketSize / 2, |sortedPrioritySamples| - 1);
      priority := sortedPrioritySamples[index];
    }

    /** One bucket: at most ten of the entries that waited this long, chosen at random. */
    method SeenBucket(k: nat, es: seq<Entry>, minRelayFee: int, freeThreshold: real)
      requires k < |history|
      modifies this`history
      ensures |history| == |old(history)|
      ensures forall i :: 0 <= i < |history| && i != k ==> history[i] == old(history)[i]
      ensures Sampled(old(history)[k], history[k], es, minRelayFee, freeThreshold)
    {
      var e := es;
      if |e| > MAX_PER_BLOCK {
        e := RandomShuffle(e);
        assert |multiset(e)| == |e| && |multiset(es)| == |es|;
        assert e == e[..MAX_PER_BLOCK] + e[MAX_PER_BLOCK..];
        assert multiset(e[..MAX_PER_BLOCK]) <= multiset(e);
        e := e[..MAX_PER_BLOCK];
      }
      for i := 0 to |e|
        invariant |history| == |old(history)|
        invariant forall j :: 0 <= j < |history| && j != k ==> history[j] == old(history)[j]
        invariant history[k] == ConfirmAll(old(history)[k], e[..i], minRelayFee, freeThreshold)
      {
        assert e[..i + 1][..i] == e[..i];
        history := history[k := Confirm(history[k], e[i], minRelayFee, freeThreshold)];
      }
      assert e[..|e|] == e;
    }

    /** What a block of confirmed pool entries makes of an earlier history; blocks at or below the best height are ignored. */
    ghost predicate Saw(was: seq<Bucket>, best: int, entries: seq<Entry>, nBlockHeight: int, minRelayFee: int, freeThreshold: real)
      reads this
    {
      && |history| == |was|
      && (nBlockHeight <= best ==> history == was && nBestSeenHeight == best)
      && (nBlockHeight > best ==>
            && nBestSeenHeight == nBlockHeight
            && forall k :: 0 <= k < |history| ==>
                 Sampled(was[k], history[k], Waiting(entries, nBlockHeight, |history|, k), minRelayFee, freeThreshold))
      && (Sane(was, minRelayFee, freeThreshold) ==> Sane(history, minRelayFee, freeThreshold))
    }

    /** A block's worth of confirmed pool entries. */
    method SeenBlock(entries: seq<Entry>, nBlockHeight: int, minRelayFee: int, freeThreshold: real)
      requires Valid()
      modifies this
      ensures Valid()
      ensures Saw(old(history), old(nBestSeenHeight), entries, nBlockHeight, minRelayFee, freeThreshold)
    {
      hide Sampled, SaneBucket, Samples, Descending, Waiting;
      if nBlockHeight <= nBestSeenHeight {
        return;
      }
      nBestSeenHeight := nBlockHeight;
      var byConfirmations := Distribute(entries, nBlockHeight, |history|);
      for i := 0 to |history|
        invariant |history| == |old(history)| == |byConfirmations| && nBestSeenHeight == nBlockHeight
        invariant forall k :: i <= k < |history| ==> history[k] == old(history)[k]
        invariant forall k :: 0 <= k < i ==> Sampled(old(history)[k], history[k], byConfirmations[k], minRelayFee, freeThreshold)
      {
        SeenBucket(i, byConfirmations[i], minRelayFee, freeThreshold);
      }
      if Sane(old(history), minRelayFee, freeThreshold) {
        SampledSane(old(history), history, byConfirmations, minRelayFee, freeThreshold);
      }
      sortedFeeSamples, sortedPrioritySamples := [], [];
      ghost var now := history;
      for i := 0 to |history|
        invariant history == now && nBestSeenHeight == nBlockHeight && Valid()
      {
        if |history[i].fees| + |history[i].priorities| > 0 {
          var rate := EstimateFee(i + 1);
          var priority := EstimatePriority(i + 1);
        }
      }
    }
  }

  /** Sort entries into buckets by how long they waited. */
  method Distribute(entries: seq<Entry>, nBlockHeight: int, buckets: nat) returns (groups: seq<seq<Entry>>)
    requires buckets > 0
    ensures |groups| == buckets
    ensures forall k :: 0 <= k < buckets ==> groups[k] == Waiting(entries, nBlockHeight, buckets, k)
  {
    groups := seq(buckets, _ => []);
    for i := 0 to |entries|
      invariant |groups| == buckets
      invariant forall k :: 0 <= k < buckets ==> groups[k] == Waiting(entries[..i], nBlockHeight, buckets, k)
    {
      assert entries[..i + 1][..i] == entries[..i];
      var delta := nBlockHeight - entries[i].height;
      if delta > 0 {
        if delta - 1 >= buckets {
          delta := buckets;
        }
        groups := groups[delta - 1 := groups[delta - 1] + [entries[i]]];
      }
    }
    assert entries[..|entries|] == entries;
  }
}
