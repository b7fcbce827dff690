// Task ratings: for every (backend, task class) the last few observed run times,
// kept in two nested double-ended queues.
module Ratings {
  import opened Results
  import opened Sorting

  const CLASSES: nat := 16
  const SAMPLES: nat := 16
  const TTL: nat := 1800

  // A double: NaN and the infinities are told apart from finite numbers only.
  datatype Seconds = Finite(value: real) | NotFinite

  // `at` is the monotonic clock in seconds, `unix` the wall clock.
  datatype Sample = Sample(at: real, seconds: real, warm: bool, unix: nat)

  datatype Class = Class(backend: string, key: string, samples: seq<Sample>)

  predicate Old(s: Sample, now: real) {
    now - s.at >= TTL as real
  }

  predicate Ordered(s: seq<Sample>) {
    forall i, j :: 0 <= i < j < |s| ==> s[i].at <= s[j].at
  }

  predicate KeptClass(c: Class, now: real) {
    && 1 <= |c.samples| <= 16 && Ordered(c.samples)
    && forall s :: s in c.samples ==> s.at <= now && s.seconds > 0.0
  }

  predicate Is(c: Class, backend: string, key: string) {
    c.backend == backend && c.key == key
  }

  predicate Has(cs: seq<Class>, backend: string, key: string) {
    cs != [] && (Is(cs[0], backend, key) || Has(cs[1..], backend, key))
  }

  // The samples kept for a task class; none when it is unknown.
  function At(cs: seq<Class>, backend: string, key: string): seq<Sample> {
    if cs == [] then []
    else if Is(cs[0], backend, key) then cs[0].samples
    else At(cs[1..], backend, key)
  }

  predicate OnePerKey(cs: seq<Class>) {
    cs == [] || (!Has(cs[1..], cs[0].backend, cs[0].key) && OnePerKey(cs[1..]))
  }

  predicate AllKept(cs: seq<Class>, now: real) {
    cs == [] || (KeptClass(cs[0], now) && AllKept(cs[1..], now))
  }

  function LastAt(c: Class): real
    requires c.samples != []
  {
    c.samples[|c.samples| - 1].at
  }

  predicate NoneBefore(cs: seq<Class>, at: real) {
    cs == [] || (cs[0].samples != [] && at <= LastAt(cs[0]) && NoneBefore(cs[1..], at))
  }

  // The classes stand in the order of their latest samples.
  predicate InOrder(cs: seq<Class>) {
    cs == [] || (cs[0].samples != [] && NoneBefore(cs[1..], LastAt(cs[0])) && InOrder(cs[1..]))
  }

  predicate Valid(cs: seq<Class>, now: real) {
    |cs| <= 16 && OnePerKey(cs) && AllKept(cs, now) && InOrder(cs)
  }

  // ----- pruning -----

  // The samples that are not old, in order: what popping the front comes to.
  function Recent(s: seq<Sample>, now: real): seq<Sample> {
    if s == [] then []
    else (if Old(s[0], now) then [] else [s[0]]) + Recent(s[1..], now)
  }

  function Pruned(cs: seq<Class>, now: real): seq<Class> {
    if cs == [] then []
    else
      var c := cs[0].(samples := Recent(cs[0].samples, now));
      (if c.samples == [] then [] else [c]) + Pruned(cs[1..], now)
  }

  lemma {:induction false} AllRecent(s: seq<Sample>, now: real)
    requires forall x :: x in s ==> !Old(x, now)
    ensures Recent(s, now) == s
  {
    if s != [] { AllRecent(s[1..], now); }
  }

  lemma {:induction false} RecentKeeps(s: seq<Sample>, now: real)
    ensures |Recent(s, now)| <= |s|
    ensures forall x :: x in Recent(s, now) <==> x in s && !Old(x, now)
    ensures Ordered(s) ==> Ordered(Recent(s, now))
  {
    if s != [] {
      RecentKeeps(s[1..], now);
      assert s == [s[0]] + s[1..];
      if Ordered(s) && !Old(s[0], now) {
        AllRecentFrom(s, now);
        assert Recent(s, now) == s;
      }
    }
  }

  // The samples younger than half an hour: a suffix of the ordered ones.
  lemma {:induction false} RecentIsExact(s: seq<Sample>, now: real) returns (n: nat)
    requires Ordered(s)
    ensures n <= |s| && Recent(s, now) == s[n..]
    ensures forall i :: 0 <= i < |s| ==> (i >= n <==> now - s[i].at < 1800.0)
  {
    if s == [] {
      n := 0;
    } else if Old(s[0], now) {
      n := RecentIsExact(s[1..], now);
      assert s[1..][n..] == s[n + 1..];
      assert forall i :: 0 < i < |s| ==> s[i] == s[1..][i - 1];
      n := n + 1;
    } else {
      n := 0;
      AllRecentFrom(s, now);
      forall i | 0 <= i < |s|
        ensures now - s[i].at < 1800.0
      {
        assert s[0].at <= s[i].at;
      }
    }
  }

  // The popping loop on one class.
  method PruneSamples(samples: seq<Sample>, now: real) returns (kept: seq<Sample>)
    requires Ordered(samples)
    ensures kept == Recent(samples, now)
  {
    kept := samples;
    while kept != [] && Old(kept[0], now)
      invariant Ordered(kept) && Recent(kept, now) == Recent(samples, now)
      decreases |kept|
    {
      kept := kept[1..];
    }
    forall x | x in kept
      ensures !Old(x, now)
    {
      var i :| 0 <= i < |kept| && kept[i] == x;
      assert kept[0].at <= kept[i].at;
    }
    AllRecent(kept, now);
  }

  lemma {:induction false} RecentKeepsLast(s: seq<Sample>, now: real)
    requires Ordered(s)
    ensures Recent(s, now) != [] ==> s != [] && Recent(s, now)[|Recent(s, now)| - 1] == s[|s| - 1]
  {
    if s != [] {
      RecentKeepsLast(s[1..], now);
      if |s| > 1 && Recent(s[1..], now) == [] && !Old(s[0], now) {
        AllRecentFrom(s, now);
      }
    }
  }

  lemma AllRecentFrom(s: seq<Sample>, now: real)
    requires Ordered(s) && s != [] && !Old(s[0], now)
    ensures Recent(s[1..], now) == s[1..]
  {
    forall x | x in s[1..]
      ensures !Old(x, now)
    {
      var i :| 0 <= i < |s[1..]| && s[1..][i] == x;
      assert s[0].at <= s[i + 1].at;
    }
    AllRecent(s[1..], now);
  }

  lemma {:induction false} NotHas(cs: seq<Class>, backend: string, key: string)
    requires !Has(cs, backend, key)
    ensures At(cs, backend, key) == []
  {
    if cs != [] { NotHas(cs[1..], backend, key); }
  }

  lemma PrunedStep(cs: seq<Class>, now: real)
    requires cs != []
    ensures var c, rest, p := cs[0].(samples := Recent(cs[0].samples, now)), Pruned(cs[1..], now), Pruned(cs, now);
            if c.samples == [] then p == rest else p != [] && p[0] == c && p[1..] == rest
  {
  }

  lemma PruneNext(cs: seq<Class>, i: nat, now: real, kept: seq<Class>, whole: seq<Class>)
    requires i < |cs| && whole == kept + Pruned(cs[i..], now)
    ensures var c := cs[i].(samples := Recent(cs[i].samples, now));
            whole == (if c.samples == [] then kept else kept + [c]) + Pruned(cs[i + 1..], now)
  {
    var c := cs[i].(samples := Recent(cs[i].samples, now));
    var later := Pruned(cs[i + 1..], now);
    assert cs[i..][1..] == cs[i + 1..];
    assert kept + ([c] + later) == kept + [c] + later;
  }

  lemma KeptNext(cs: seq<Class>, i: nat, now: real)
    requires i < |cs| && AllKept(cs[i..], now)
    ensures Ordered(cs[i].samples) && AllKept(cs[i + 1..], now)
  {
    assert cs[i..][1..] == cs[i + 1..];
  }

  lemma PrunedHead(c: Class, now: real, earlier: real)
    requires KeptClass(c, earlier) && earlier <= now
    ensures var d := c.(samples := Recent(c.samples, now));
            d.samples != [] ==> KeptClass(d, now) && LastAt(d) == LastAt(c)
  {
    RecentKeeps(c.samples, now);
    RecentKeepsLast(c.samples, now);
  }

  lemma {:induction false} PrunedFinds(cs: seq<Class>, now: real, backend: string, key: string)
    requires OnePerKey(cs)
    ensures Has(Pruned(cs, now), backend, key) ==> Has(cs, backend, key)
    ensures At(Pruned(cs, now), backend, key) == Recent(At(cs, backend, key), now)
  {
    if cs != [] {
      PrunedFinds(cs[1..], now, backend, key);
      PrunedStep(cs, now);
      if Is(cs[0], backend, key) { NotHas(Pruned(cs[1..], now), backend, key); }
    }
  }

  lemma {:induction false} PrunedNoneBefore(cs: seq<Class>, now: real, earlier: real, at: real)
    requires AllKept(cs, earlier) && NoneBefore(cs, at)
    ensures NoneBefore(Pruned(cs, now), at)
  {
    if cs != [] {
      PrunedNoneBefore(cs[1..], now, earlier, at);
      RecentKeepsLast(cs[0].samples, now);
      PrunedStep(cs, now);
    }
  }

  // Pruning keeps the bounds and the order, at any later time.
  lemma {:induction false} PrunedKeeps(cs: seq<Class>, now: real, earlier: real)
    requires Valid(cs, earlier) && earlier <= now
    ensures Valid(Pruned(cs, now), now) && |Pruned(cs, now)| <= |cs|
  {
    if cs != [] {
      PrunedKeeps(cs[1..], now, earlier);
      PrunedStep(cs, now);
      PrunedFinds(cs[1..], now, cs[0].backend, cs[0].key);
      PrunedHead(cs[0], now, earlier);
      PrunedNoneBefore(cs[1..], now, earlier, LastAt(cs[0]));
    }
  }

  // ----- recording -----

  function Removed(cs: seq<Class>, backend: string, key: string): seq<Class> {
    if cs == [] then []
    else if Is(cs[0], backend, key) then cs[1..]
    else [cs[0]] + Removed(cs[1..], backend, key)
  }

  function Without(s: seq<Sample>): seq<Sample> {
    if |s| == SAMPLES then s[1..] else s
  }

  function WithSample(s: seq<Sample>, x: Sample): seq<Sample> {
    Without(s) + [x]
  }

  predicate Admissible(backend: string, key: string, seconds: Seconds) {
    && (backend == "cpu" || backend == "cuda" || backend == "coreml")
    && |key| <= 80 && "ocr:" <= key
    && seconds.Finite? && seconds.value > 0.0
  }

  function Recorded(cs: seq<Class>, backend: string, key: string, x: Sample): seq<Class> {
    var p := Pruned(cs, x.at);
    Admitted(p, Class(backend, key, WithSample(At(p, backend, key), x)))
  }

  lemma {:induction false} RemovedKeeps(cs: seq<Class>, backend: string, key: string, now: real)
    requires OnePerKey(cs) && AllKept(cs, now) && InOrder(cs)
    ensures var r := Removed(cs, backend, key);
            && OnePerKey(r) && AllKept(r, now) && InOrder(r) && !Has(r, backend, key)
            && |r| == |cs| - (if Has(cs, backend, key) then 1 else 0)
            && (forall b, k :: Has(r, b, k) ==> Has(cs, b, k))
            && (forall b, k :: (b, k) != (backend, key) ==> At(r, b, k) == At(cs, b, k))
            && (forall at :: NoneBefore(cs, at) ==> NoneBefore(r, at))
  {
    if cs != [] {
      if Is(cs[0], backend, key) {
        NotHas(cs[1..], backend, key);
      } else {
        RemovedKeeps(cs[1..], backend, key, now);
        assert ([cs[0]] + Removed(cs[1..], backend, key))[1..] == Removed(cs[1..], backend, key);
      }
    }
  }

  lemma {:induction false} Appended(cs: seq<Class>, c: Class, now: real)
    requires OnePerKey(cs) && AllKept(cs, now) && InOrder(cs) && !Has(cs, c.backend, c.key)
    requires KeptClass(c, now) && LastAt(c) == now
    ensures var r := cs + [c];
            && OnePerKey(r) && AllKept(r, now) && InOrder(r)
            && (forall b, k :: Has(r, b, k) <==> Has(cs, b, k) || Is(c, b, k))
            && (forall b, k :: At(r, b, k) == if Is(c, b, k) then c.samples else At(cs, b, k))
            && (forall at :: at <= now && NoneBefore(cs, at) ==> NoneBefore(r, at))
  {
    if cs == [] {
      assert cs + [c] == [c] && [c][1..] == [];
    } else {
      Appended(cs[1..], c, now);
      assert (cs + [c])[1..] == cs[1..] + [c];
      assert LastAt(cs[0]) <= now;
    }
  }

  lemma WithSampleKeeps(s: seq<Sample>, x: Sample)
    requires |s| <= SAMPLES && Ordered(s) && x.seconds > 0.0
    requires forall y :: y in s ==> y.at <= x.at && y.seconds > 0.0
    ensures var c := Class("", "", WithSample(s, x)); KeptClass(c, x.at) && LastAt(c) == x.at
  {
    forall y | y in Without(s)
      ensures y in s
    {
    }
  }

  lemma {:induction false} AtIsKept(cs: seq<Class>, now: real, backend: string, key: string)
    requires AllKept(cs, now)
    ensures At(cs, backend, key) == [] || KeptClass(Class(backend, key, At(cs, backend, key)), now)
  {
    if cs != [] { AtIsKept(cs[1..], now, backend, key); }
  }

  // The class that makes room for a new one: the one at the front.
  predicate GivesWay(p: seq<Class>, backend: string, key: string, b: string, k: string) {
    |p| == 16 && !Has(p, backend, key) && Is(p[0], b, k)
  }

  // Recording keeps the bounds, adds the sample to its class, and leaves every
  // other class as it was, except the one that gives way to a 17th.
  lemma RecordedKeeps(cs: seq<Class>, backend: string, key: string, x: Sample, earlier: real)
    requires Valid(cs, earlier) && earlier <= x.at && x.seconds > 0.0
    ensures var r := Recorded(cs, backend, key, x);
            && Valid(r, x.at)
            && At(r, backend, key) == WithSample(Recent(At(cs, backend, key), x.at), x)
            && forall b, k :: (b, k) != (backend, key) ==>
                 At(r, b, k) ==
                 if GivesWay(Pruned(cs, x.at), backend, key, b, k) then [] else Recent(At(cs, b, k), x.at)
  {
    var p := Pruned(cs, x.at);
    PrunedKeeps(cs, x.at, earlier);
    AtIsKept(p, x.at, backend, key);
    WithSampleKeeps(At(p, backend, key), x);
    AdmittedKeeps(p, Class(backend, key, WithSample(At(p, backend, key), x)), x.at);
    forall b, k
      ensures At(p, b, k) == Recent(At(cs, b, k), x.at)
    {
      PrunedFinds(cs, x.at, b, k);
    }
  }

  // A class goes to the back, and the front gives way when sixteen others stay.
  function Admitted(p: seq<Class>, c: Class): seq<Class> {
    var rest := Removed(p, c.backend, c.key);
    (if |rest| == CLASSES then rest[1..] else rest) + [c]
  }

  lemma AdmittedKeeps(p: seq<Class>, c: Class, now: real)
    requires Valid(p, now) && KeptClass(c, now) && LastAt(c) == now
    ensures var r := Admitted(p, c);
            && Valid(r, now)
            && At(r, c.backend, c.key) == c.samples
            && forall b, k :: !Is(c, b, k) ==>
                 At(r, b, k) == if GivesWay(p, c.backend, c.key, b, k) then [] else At(p, b, k)
  {
    RemovedKeeps(p, c.backend, c.key, now);
    var rest := Removed(p, c.backend, c.key);
    if |rest| == CLASSES {
      RemovedNothing(p, c.backend, c.key);
      Appended(p[1..], c, now);
      NotHas(p[1..], p[0].backend, p[0].key);
    } else {
      Appended(rest, c, now);
    }
  }

  lemma {:induction false} RemovedNothing(cs: seq<Class>, backend: string, key: string)
    requires |Removed(cs, backend, key)| == |cs|
    ensures !Has(cs, backend, key) && Removed(cs, backend, key) == cs
  {
    if cs != [] { RemovedNothing(cs[1..], backend, key); }
  }

  lemma {:induction false} LastOfNoneBefore(cs: seq<Class>, at: real, backend: string, key: string)
    requires NoneBefore(cs, at) && At(cs, backend, key) != []
    ensures at <= LastAt(Class(backend, key, At(cs, backend, key)))
  {
    if !Is(cs[0], backend, key) { LastOfNoneBefore(cs[1..], at, backend, key); }
  }

  // The class that gives way has no newer observation than any class that stays.
  lemma TheLeastRecentGivesWay(p: seq<Class>, now: real, backend: string, key: string,
                               b: string, k: string, b': string, k': string)
    requires Valid(p, now) && GivesWay(p, backend, key, b, k) && At(p, b', k') != []
    ensures LastAt(p[0]) <= LastAt(Class(b', k', At(p, b', k')))
  {
    if !Is(p[0], b', k') { LastOfNoneBefore(p[1..], LastAt(p[0]), b', k'); }
  }

  // ----- the rating of a class -----

  datatype Rating = Rating(score: real, median: real, observations: nat, warm: bool, observedAt: nat, lastAt: real)

  predicate HasWarm(s: seq<Sample>) {
    exists x :: x in s && x.warm
  }

  function WarmOnes(s: seq<Sample>): seq<Sample> {
    if s == [] then [] else (if s[0].warm then [s[0]] else []) + WarmOnes(s[1..])
  }

  // Only warm samples count once there is one.
  function Counting(s: seq<Sample>): seq<Sample> {
    if HasWarm(s) then WarmOnes(s) else s
  }

  function AtMost(): (real, real) -> bool {
    (a: real, b: real) => a <= b
  }

  function Times(s: seq<Sample>): seq<real> {
    seq(|s|, i requires 0 <= i < |s| => s[i].seconds)
  }

  lemma AtMostIsTotal()
    ensures TotalPreorder(AtMost())
  {
    assert forall x: real, y: real :: AtMost()(x, y) <==> x <= y;
  }

  function Median(times: seq<real>): real
    requires times != []
  {
    AtMostIsTotal();
    StableSortSorts(AtMost(), times);
    StableSort(AtMost(), times)[|times| / 2]
  }

  lemma {:induction false} WarmOnesAre(s: seq<Sample>)
    ensures |WarmOnes(s)| <= |s| && (WarmOnes(s) != [] <==> HasWarm(s))
    ensures forall x :: x in WarmOnes(s) <==> x in s && x.warm
  {
    if s != [] {
      WarmOnesAre(s[1..]);
      assert s == [s[0]] + s[1..];
      if WarmOnes(s[1..]) != [] { assert WarmOnes(s[1..])[0] in s; }
      if s[0].warm { assert WarmOnes(s)[0] == s[0]; }
    }
  }

  // The median index and the last sample always exist.
  lemma CountingIsNonEmpty(s: seq<Sample>)
    requires s != []
    ensures 1 <= |Counting(s)| <= |s|
    ensures forall x :: x in Counting(s) ==> x in s
    ensures HasWarm(s) ==> forall x :: x in Counting(s) ==> x.warm
  {
    WarmOnesAre(s);
  }

  predicate Timed(s: seq<Sample>) {
    s != [] && forall x :: x in s ==> x.seconds > 0.0
  }

  function MedianOf(s: seq<Sample>): (m: real)
    requires Timed(s)
    ensures m > 0.0
  {
    MedianIsInTheMiddle(Times(s));
    Median(Times(s))
  }

  function RatingOf(s: seq<Sample>): Rating
    requires Timed(s)
  {
    CountingIsNonEmpty(s);
    var c := Counting(s);
    var last := c[|c| - 1];
    Rating(1.0 / MedianOf(c), MedianOf(c), |c|, HasWarm(s), last.unix, last.at)
  }

  // The last sample that counts: the last warm one, or the last one when none is.
  ghost predicate LastCounting(s: seq<Sample>, i: nat) {
    && i < |s|
    && if exists x :: x in s && x.warm then s[i].warm && forall j :: i < j < |s| ==> !s[j].warm else i == |s| - 1
  }

  lemma {:induction false} LastOfWarmOnes(s: seq<Sample>) returns (i: nat)
    requires WarmOnes(s) != []
    ensures i < |s| && s[i] == WarmOnes(s)[|WarmOnes(s)| - 1] && s[i].warm && forall j :: i < j < |s| ==> !s[j].warm
  {
    WarmOnesAre(s[1..]);
    if WarmOnes(s[1..]) == [] {
      i := 0;
      assert forall j :: 0 < j < |s| ==> s[j] == s[1..][j - 1] && s[1..][j - 1] in s[1..];
    } else {
      i := LastOfWarmOnes(s[1..]);
      assert forall j :: 0 < j < |s| ==> s[j] == s[1..][j - 1];
      i := i + 1;
    }
  }

  lemma {:induction false} WarmOnesAreCounted(s: seq<Sample>)
    ensures |WarmOnes(s)| == |set i | 0 <= i < |s| && s[i].warm|
  {
    if s != [] {
      var init, x := s[..|s| - 1], s[|s| - 1];
      assert s == init + [x];
      WarmOnesAreCounted(init);
      WarmOnesAppend(init, x);
      var before := set i | 0 <= i < |init| && init[i].warm;
      assert (set i | 0 <= i < |s| && s[i].warm) == before + (if x.warm then {|init|} else {});
    }
  }

  // What a rating says of the samples kept for a class: warm ones alone count when
  // there are any; the score is the inverse of the median of the counting times,
  // and the times given are those of the last counting sample.
  ghost predicate IsRating(s: seq<Sample>, r: Rating) {
    && (r.warm <==> exists x :: x in s && x.warm)
    && r.observations == (if r.warm then |set i | 0 <= i < |s| && s[i].warm| else |s|)
    && IsMedian(Times(Counting(s)), r.median) && Inverse(r.score, r.median)
    && exists i: nat :: LastCounting(s, i) && r.observedAt == s[i].unix && r.lastAt == s[i].at
  }

  ghost predicate IsMedian(times: seq<real>, m: real) {
    m in times && 2 * CountAtMost(times, m) > |times| && 2 * CountAtLeast(times, m) >= |times|
  }

  lemma MedianOfCounting(c: seq<Sample>)
    requires Timed(c)
    ensures IsMedian(Times(c), MedianOf(c))
  {
    MedianIsInTheMiddle(Times(c));
    assert MedianOf(c) == Median(Times(c));
  }

  lemma LastCountingExists(s: seq<Sample>) returns (i: nat)
    requires s != []
    ensures Counting(s) != [] && LastCounting(s, i) && s[i] == Counting(s)[|Counting(s)| - 1]
  {
    CountingIsNonEmpty(s);
    if HasWarm(s) {
      WarmOnesAre(s);
      i := LastOfWarmOnes(s);
    } else {
      i := |s| - 1;
    }
  }

  lemma RatingIsExact(s: seq<Sample>)
    requires Timed(s)
    ensures IsRating(s, RatingOf(s))
  {
    CountingIsNonEmpty(s);
    WarmOnesAreCounted(s);
    MedianOfCounting(Counting(s));
    var m := MedianOf(Counting(s));
    var i := LastCountingExists(s);
    RatingFields(s);
    RatingFromParts(s, RatingOf(s), i);
  }

  lemma RatingFields(s: seq<Sample>)
    requires Timed(s)
    ensures Counting(s) != [] && Timed(Counting(s))
    ensures var c, r := Counting(s), RatingOf(s);
            && r.median == MedianOf(c) && r.observations == |c| && r.warm == HasWarm(s)
            && r.observedAt == c[|c| - 1].unix && r.lastAt == c[|c| - 1].at && Inverse(r.score, r.median)
  {
    CountingIsNonEmpty(s);
  }

  predicate Inverse(a: real, b: real) {
    a * b == 1.0
  }

  lemma RatingFromParts(s: seq<Sample>, r: Rating, i: nat)
    requires LastCounting(s, i) && r.observedAt == s[i].unix && r.lastAt == s[i].at
    requires r.warm <==> exists x :: x in s && x.warm
    requires r.observations == (if r.warm then |set i | 0 <= i < |s| && s[i].warm| else |s|)
    requires IsMedian(Times(Counting(s)), r.median) && Inverse(r.score, r.median)
    ensures IsRating(s, r)
  {
  }

  function CountAtMost(s: seq<real>, m: real): nat {
    if s == [] then 0 else (if s[0] <= m then 1 else 0) + CountAtMost(s[1..], m)
  }

  function CountAtLeast(s: seq<real>, m: real): nat {
    if s == [] then 0 else (if s[0] >= m then 1 else 0) + CountAtLeast(s[1..], m)
  }

  lemma {:induction false} InsertCounts(x: real, s: seq<real>, m: real)
    ensures CountAtMost(Insert(AtMost(), x, s), m) == CountAtMost([x] + s, m)
    ensures CountAtLeast(Insert(AtMost(), x, s), m) == CountAtLeast([x] + s, m)
  {
    assert ([x] + s)[1..] == s;
    if s != [] && !AtMost()(x, s[0]) {
      InsertCounts(x, s[1..], m);
      assert ([x] + s[1..])[1..] == s[1..];
      assert Insert(AtMost(), x, s)[1..] == Insert(AtMost(), x, s[1..]);
    }
  }

  lemma {:induction false} SortCounts(s: seq<real>, m: real)
    ensures CountAtMost(StableSort(AtMost(), s), m) == CountAtMost(s, m)
    ensures CountAtLeast(StableSort(AtMost(), s), m) == CountAtLeast(s, m)
  {
    if s != [] {
      SortCounts(s[1..], m);
      InsertCounts(s[0], StableSort(AtMost(), s[1..]), m);
      assert ([s[0]] + StableSort(AtMost(), s[1..]))[1..] == StableSort(AtMost(), s[1..]);
    }
  }

  lemma {:induction false} SortedCounts(s: seq<real>, k: nat)
    requires SortedBy(AtMost(), s) && k < |s|
    ensures CountAtMost(s, s[k]) >= k + 1 && CountAtLeast(s, s[k]) >= |s| - k
  {
    forall i, j | 0 <= i < j < |s|
      ensures s[i] <= s[j]
    {
      assert AtMost()(s[i], s[j]);
    }
    if k > 0 {
      SortedCounts(s[1..], k - 1);
    } else {
      AllAtLeast(s, s[0]);
    }
  }

  lemma {:induction false} AllAtLeast(s: seq<real>, m: real)
    requires forall i :: 0 <= i < |s| ==> s[i] >= m
    ensures CountAtLeast(s, m) == |s|
  {
    if s != [] { AllAtLeast(s[1..], m); }
  }

  // The median is an observed time with more than half of the times not above it
  // and at least half not below it.
  lemma MedianIsInTheMiddle(times: seq<real>)
    requires times != []
    ensures Median(times) in times
    ensures 2 * CountAtMost(times, Median(times)) > |times|
    ensures 2 * CountAtLeast(times, Median(times)) >= |times|
  {
    var sorted := StableSort(AtMost(), times);
    AtMostIsTotal();
    StableSortSorts(AtMost(), times);
    SortedCounts(sorted, |times| / 2);
    SortCounts(times, Median(times));
    SameElements(times, sorted, Median(times));
  }

  // ----- a cold sample beside warm ones -----

  lemma {:induction false} WarmOnesAppend(s: seq<Sample>, x: Sample)
    ensures WarmOnes(s + [x]) == WarmOnes(s) + (if x.warm then [x] else [])
  {
    if s == [] {
      assert s + [x] == [x] && [x][1..] == [];
    } else {
      assert (s + [x])[1..] == s[1..] + [x] && (s + [x])[0] == s[0];
      WarmOnesAppend(s[1..], x);
      var head, rest, last := if s[0].warm then [s[0]] else [], WarmOnes(s[1..]), if x.warm then [x] else [];
      assert head + (rest + last) == (head + rest) + last;
    }
  }

  // A cold sample leaves the rating of a class with warm samples alone exactly
  // when it does not push a warm sample out of a full window.
  lemma ColdSampleKeepsRatingExactly(s: seq<Sample>, x: Sample)
    requires Timed(s) && HasWarm(s) && |s| <= SAMPLES && !x.warm && x.seconds > 0.0
    ensures RatingOf(WithSample(s, x)) == RatingOf(s) <==> !(|s| == 16 && s[0].warm)
  {
    CountingAfterCold(s, x);
    CompareRatings(s, WithSample(s, x));
  }

  lemma CompareRatings(s: seq<Sample>, t: seq<Sample>)
    requires Timed(s) && Timed(t)
    ensures Counting(s) == Counting(t) && HasWarm(s) == HasWarm(t) ==> RatingOf(s) == RatingOf(t)
    ensures |Counting(s)| != |Counting(t)| || HasWarm(s) != HasWarm(t) ==> RatingOf(s) != RatingOf(t)
  {
  }

  // Pushing out a warm sample leaves fewer warm ones or none.
  lemma CountingAfterCold(s: seq<Sample>, x: Sample)
    requires HasWarm(s) && |s| <= SAMPLES && !x.warm
    ensures |s| == SAMPLES && s[0].warm ==>
              || !HasWarm(WithSample(s, x))
              || |Counting(WithSample(s, x))| == |Counting(s)| - 1
    ensures !(|s| == SAMPLES && s[0].warm) ==>
              HasWarm(WithSample(s, x)) && Counting(WithSample(s, x)) == Counting(s)
  {
    WarmOnesAfterCold(s, x);
    WarmOnesAre(s);
    WarmOnesAre(WithSample(s, x));
  }

  lemma WarmOnesAfterCold(s: seq<Sample>, x: Sample)
    requires s != [] && |s| <= SAMPLES && !x.warm
    ensures |s| == SAMPLES && s[0].warm ==> WarmOnes(s) == [s[0]] + WarmOnes(WithSample(s, x))
    ensures !(|s| == SAMPLES && s[0].warm) ==> WarmOnes(WithSample(s, x)) == WarmOnes(s)
  {
    WarmOnesAppend(Without(s), x);
  }

  // A class rated 1.0 by its one warm run falls to the rate of its cold runs when
  // a sixteenth cold run arrives, though the warm run is not yet old.
  lemma ColdSampleCanHalveTheScore(at: real)
    ensures var warm, cold := Sample(at, 1.0, true, 0), Sample(at, 2.0, false, 0);
            var s := [warm] + seq(15, _ => cold);
            && Timed(s) && RatingOf(s).score == 1.0 && RatingOf(WithSample(s, cold)).score == 0.5
  {
    var warm, cold := Sample(at, 1.0, true, 0), Sample(at, 2.0, false, 0);
    var colds := seq(15, _ => cold);
    var s := [warm] + colds;
    assert s[0] == warm && s[1..] == colds;
    AllCold(colds);
    assert WarmOnes(s) == [warm];
    WarmOnesAre(s);
    ConstantScore(s, 1.0);
    assert WithSample(s, cold) == colds + [cold];
    AllCold(colds + [cold]);
    ConstantScore(colds + [cold], 2.0);
  }

  lemma AllCold(s: seq<Sample>)
    requires forall x :: x in s ==> !x.warm
    ensures WarmOnes(s) == [] && !HasWarm(s) && Counting(s) == s
  {
    WarmOnesAre(s);
  }

  lemma ConstantScore(s: seq<Sample>, t: real)
    requires Timed(s) && forall x :: x in Counting(s) ==> x.seconds == t
    ensures t > 0.0 && RatingOf(s).score == 1.0 / t
  {
    CountingIsNonEmpty(s);
    var c := Counting(s);
    MedianIsInTheMiddle(Times(c));
    var i :| 0 <= i < |c| && Times(c)[i] == Median(Times(c));
    assert c[i] in c;
  }

  // ----- the object -----

  // The map holds the rating of every class of the backend and nothing else.
  ghost predicate Rates(out: map<string, Rating>, cs: seq<Class>, backend: string) {
    forall k :: RatesAt(out, At(cs, backend, k), k)
  }

  ghost predicate RatesAt(out: map<string, Rating>, s: seq<Sample>, k: string) {
    && (k in out <==> s != [])
    && (k in out ==> Timed(s) && out[k] == RatingOf(s))
  }

  class Ratings {
    var classes: seq<Class>

    constructor ()
      ensures classes == [] && forall now :: Valid(classes, now)
    {
      classes := [];
    }

    method Prune(now: real, ghost earlier: real)
      requires Valid(classes, earlier) && earlier <= now
      modifies this
      ensures classes == Pruned(old(classes), now) && Valid(classes, now)
    {
      PrunedKeeps(classes, now, earlier);
      classes := PruneClasses(classes, now, earlier);
    }

    // Both loops of the source: popping old samples and dropping empty classes.
    static method PruneClasses(all: seq<Class>, now: real, ghost earlier: real) returns (kept: seq<Class>)
      requires AllKept(all, earlier)
      ensures kept == Pruned(all, now)
    {
      kept := [];
      ghost var whole := Pruned(all, now);
      assert all[0..] == all;
      var i := 0;
      while i < |all|
        invariant 0 <= i <= |all| && AllKept(all[i..], earlier)
        invariant whole == kept + Pruned(all[i..], now)
      {
        PruneNext(all, i, now, kept, whole);
        KeptNext(all, i, earlier);
        var samples := PruneSamples(all[i].samples, now);
        if samples != [] { kept := kept + [all[i].(samples := samples)]; }
        i := i + 1;
      }
      assert all[i..] == [] && kept + [] == kept;
    }

    // Times passed to the object never decrease.
    method Record(backend: string, key: string, seconds: Seconds, warm: bool, unix: nat, now: real, ghost earlier: real)
      requires Valid(classes, earlier) && earlier <= now
      modifies this
      ensures Valid(classes, now)
      ensures classes ==
              if (backend == "cpu" || backend == "cuda" || backend == "coreml") && |key| <= 80 && "ocr:" <= key
                 && seconds.Finite? && seconds.value > 0.0
              then Recorded(old(classes), backend, key, Sample(now, seconds.value, warm, unix))
              else old(classes)
    {
      if !Admissible(backend, key, seconds) {
        LaterIsValid(classes, earlier, now);
        return;
      }
      var x := Sample(now, seconds.value, warm, unix);
      RecordedKeeps(classes, backend, key, x, earlier);
      Prune(now, earlier);
      var samples := At(classes, backend, key);
      classes := Removed(classes, backend, key);
      if |samples| == SAMPLES { samples := samples[1..]; }
      samples := samples + [x];
      if |classes| == CLASSES { classes := classes[1..]; }
      classes := classes + [Class(backend, key, samples)];
    }

    // One rating for every class of the backend that has a recent sample.
    method Snapshot(backend: string, now: real, ghost earlier: real) returns (out: map<string, Rating>)
      requires Valid(classes, earlier) && earlier <= now
      modifies this
      ensures classes == Pruned(old(classes), now) && Valid(classes, now)
      ensures forall k :: RatesAt(out, Recent(At(old(classes), backend, k), now), k)
      ensures forall k :: k in out ==> IsRating(Recent(At(old(classes), backend, k), now), out[k])
    {
      ghost var cs := classes;
      Prune(now, earlier);
      out := map[];
      var all := classes;
      for i := 0 to |all|
        invariant classes == all && Rates(out, all[..i], backend)
      {
        NextRating(out, all, i, now, backend);
        if all[i].backend == backend {
          out := out[all[i].key := RatingOf(all[i].samples)];
        }
      }
      assert all[..|all|] == all;
      forall k
        ensures RatesAt(out, Recent(At(cs, backend, k), now), k)
      {
        PrunedFinds(cs, now, backend, k);
        assert RatesAt(out, At(all, backend, k), k);
      }
      forall k | k in out
        ensures IsRating(Recent(At(cs, backend, k), now), out[k])
      {
        assert RatesAt(out, Recent(At(cs, backend, k), now), k);
        RatingIsExact(Recent(At(cs, backend, k), now));
      }
    }
  }

  lemma {:induction false} LaterIsKept(cs: seq<Class>, earlier: real, now: real)
    requires AllKept(cs, earlier) && earlier <= now
    ensures AllKept(cs, now)
  {
    if cs != [] { LaterIsKept(cs[1..], earlier, now); }
  }

  lemma LaterIsValid(cs: seq<Class>, earlier: real, now: real)
    requires Valid(cs, earlier) && earlier <= now
    ensures Valid(cs, now)
  {
    LaterIsKept(cs, earlier, now);
  }

  lemma {:induction false} NextClass(cs: seq<Class>, i: nat, now: real)
    requires i < |cs| && OnePerKey(cs) && AllKept(cs, now)
    ensures Timed(cs[i].samples)
    ensures forall b, k :: At(cs[..i + 1], b, k) == if Is(cs[i], b, k) then cs[i].samples else At(cs[..i], b, k)
  {
    if i == 0 {
      assert cs[..1] == [cs[0]] && cs[..0] == [] && [cs[0]][1..] == [];
    } else {
      NextClass(cs[1..], i - 1, now);
      assert cs[..i + 1][1..] == cs[1..][..i] && cs[..i][1..] == cs[1..][..i - 1];
      HasAt(cs[1..], i - 1);
    }
  }

  lemma NextRating(out: map<string, Rating>, cs: seq<Class>, i: nat, now: real, backend: string)
    requires i < |cs| && OnePerKey(cs) && AllKept(cs, now) && Rates(out, cs[..i], backend)
    ensures Timed(cs[i].samples)
    ensures var next := if cs[i].backend == backend then out[cs[i].key := RatingOf(cs[i].samples)] else out;
            Rates(next, cs[..i + 1], backend)
  {
    NextClass(cs, i, now);
    var next := if cs[i].backend == backend then out[cs[i].key := RatingOf(cs[i].samples)] else out;
    var seen := cs[..i + 1];
    forall k
      ensures RatesAt(next, At(seen, backend, k), k)
    {
      assert RatesAt(out, At(cs[..i], backend, k), k);
    }
  }

  lemma {:induction false} HasAt(cs: seq<Class>, i: nat)
    requires i < |cs|
    ensures Has(cs, cs[i].backend, cs[i].key)
  {
    if i > 0 { HasAt(cs[1..], i - 1); }
  }
}
