// Hot-directory accounting: which bucket an event belongs to, the counters it
// moves, and what survives a restart.
module ActivityGuard {
  import opened Bytes
  import opened Results

  // A path as its components; starts_with is the prefix order.
  type Path = seq<Text>

  const U64_MAX: nat := 0xFFFF_FFFF_FFFF_FFFF

  function Saturate(n: nat): (r: nat)
    ensures r <= 18_446_744_073_709_551_615 && (n <= 18_446_744_073_709_551_615 ==> r == n)
    ensures n > 18_446_744_073_709_551_615 ==> r == 18_446_744_073_709_551_615
  {
    if n > U64_MAX then U64_MAX else n
  }

  function Since(now: nat, then': nat): (r: nat)
    ensures then' <= now ==> then' + r == now
    ensures now < then' ==> r == 0
  {
    if now < then' then 0 else now - then'
  }

  datatype Stats = Stats(
    windowStarted: nat, events: nat, changedBytes: nat, hotUntil: nat, lastEvent: nat, metadataOnly: bool)

  const NO_STATS := Stats(0, 0, 0, 0, 0, false)

  datatype Config = Config(windowMs: nat, hotEvents: nat, hotBytes: nat, cooldownMs: nat)

  // One watched path with its configured root, size and number of occurrences.
  datatype Event = Event(path: Path, root: Path, changedBytes: nat, occurrences: nat, now: nat)

  // ----- buckets -----

  // The last of the longest isolated roots above the path, as max_by_key picks it.
  function Isolated(path: Path, roots: seq<Path>): (r: Option<Path>)
    ensures r.Some? ==> r.value in roots && r.value <= path
    ensures r.Some? ==> forall i :: i in roots && i <= path ==> |i| <= |r.value|
    ensures r.None? <==> forall i :: i in roots ==> !(i <= path)
  {
    if roots == [] then None
    else
      var init, last := roots[..|roots| - 1], roots[|roots| - 1];
      assert forall i :: i in roots <==> i in init || i == last;
      var best := Isolated(path, init);
      if last <= path && (best.None? || |best.value| <= |last|) then Some(last) else best
  }

  // activity_bucket. The path lies under its configured root.
  function Bucket(path: Path, root: Path, isolated: seq<Path>): Path
    requires root <= path
  {
    match Isolated(path, isolated)
    case Some(r) => r
    case None => if |path| <= |root| + 1 then root else path[..|root| + 1]
  }

  lemma SameLengthPrefixes(a: Path, b: Path, path: Path)
    requires a <= path && b <= path && |a| == |b|
    ensures a == b
  {
  }

  // An isolated root is the bucket of exactly the paths whose longest isolated
  // ancestor it is, however the roots nest.
  lemma IsolatedBucketExactly(path: Path, root: Path, isolated: seq<Path>, r: Path)
    requires root <= path && r in isolated
    ensures Bucket(path, root, isolated) == r <==>
            r <= path && forall i :: i in isolated && i <= path ==> |i| <= |r|
  {
    var found := Isolated(path, isolated);
    if found.Some? && r <= path && |found.value| == |r| {
      SameLengthPrefixes(found.value, r, path);
    }
  }

  // Any other path belongs to the directory directly under its root that it lies in,
  // and a file directly under the root to the root.
  lemma OtherBucketsAreExact(path: Path, root: Path, isolated: seq<Path>)
    requires root <= path && forall r :: r in isolated ==> !(r <= path)
    ensures |path| <= |root| + 1 ==> Bucket(path, root, isolated) == root
    ensures |path| > |root| + 1 ==> Bucket(path, root, isolated) == root + [path[|root|]]
  {
  }

  // ----- counting -----

  function StatsOf(activity: map<Path, Stats>, bucket: Path): Stats {
    if bucket in activity then activity[bucket] else NO_STATS
  }

  function Counted(s: Stats, e: Event, c: Config): Stats {
    var w := if s.windowStarted == 0 || Since(e.now, s.windowStarted) >= c.windowMs
             then s.(windowStarted := e.now, events := 0, changedBytes := 0) else s;
    var events := Saturate(w.events + e.occurrences);
    var bytes := Saturate(w.changedBytes + Saturate(e.changedBytes * e.occurrences));
    var hot := if events >= c.hotEvents || bytes >= c.hotBytes then Saturate(e.now + c.cooldownMs) else w.hotUntil;
    w.(events := events, changedBytes := bytes, lastEvent := e.now, hotUntil := hot)
  }

  function Recorded(activity: map<Path, Stats>, e: Event, isolated: seq<Path>, c: Config): map<Path, Stats>
    requires e.root <= e.path
  {
    var b := Bucket(e.path, e.root, isolated);
    activity[b := Counted(StatsOf(activity, b), e, c)]
  }

  predicate Rooted(events: seq<Event>) {
    forall i :: 0 <= i < |events| ==> events[i].root <= events[i].path
  }

  function RecordedAll(activity: map<Path, Stats>, events: seq<Event>, isolated: seq<Path>, c: Config)
    : map<Path, Stats>
    requires Rooted(events)
  {
    if events == [] then activity
    else Recorded(RecordedAll(activity, events[..|events| - 1], isolated, c), events[|events| - 1], isolated, c)
  }

  // The counters of one bucket after its own events only.
  function CountedAll(s: Stats, events: seq<Event>, c: Config): Stats {
    if events == [] then s
    else Counted(CountedAll(s, events[..|events| - 1], c), events[|events| - 1], c)
  }

  // ----- what the counters of a bucket are -----

  // Occurrences from event w on, and their bytes.
  function Occurrences(own: seq<Event>, w: nat): nat
    requires w <= |own|
  {
    if w == |own| then 0 else Occurrences(own[..|own| - 1], w) + own[|own| - 1].occurrences
  }

  function ChangedBytes(own: seq<Event>, w: nat): nat
    requires w <= |own|
  {
    if w == |own| then 0
    else ChangedBytes(own[..|own| - 1], w) + Saturate(own[|own| - 1].changedBytes * own[|own| - 1].occurrences)
  }

  // The window the events are in was opened by event w and holds it and all later
  // events.
  ghost predicate OpenedBy(s: Stats, own: seq<Event>, c: Config, w: nat, r: Stats)
    requires w < |own|
  {
    && r.windowStarted == own[w].now
    && r.events == Saturate(Occurrences(own, w)) && r.changedBytes == Saturate(ChangedBytes(own, w))
    && (var before := CountedAll(s, own[..w], c).windowStarted;
        before == 0 || Since(own[w].now, before) >= c.windowMs)
    && forall k :: w < k < |own| ==> own[w].now != 0 && Since(own[k].now, own[w].now) < c.windowMs
  }

  // It was open before the first event, and all of them fall into it.
  ghost predicate StillOpen(s: Stats, own: seq<Event>, c: Config, r: Stats) {
    && r.windowStarted == s.windowStarted
    && r.events == Saturate(s.events + Occurrences(own, 0))
    && r.changedBytes == Saturate(s.changedBytes + ChangedBytes(own, 0))
    && forall k :: 0 <= k < |own| ==> s.windowStarted != 0 && Since(own[k].now, s.windowStarted) < c.windowMs
  }

  lemma Saturates(a: nat, b: nat)
    ensures Saturate(Saturate(a) + b) == Saturate(a + b)
  {
  }

  predicate Opens(s: Stats, e: Event, c: Config) {
    s.windowStarted == 0 || Since(e.now, s.windowStarted) >= c.windowMs
  }

  // What one event does to the counters.
  ghost predicate Moved(s: Stats, e: Event, c: Config, r: Stats) {
    && r.lastEvent == e.now && r.metadataOnly == s.metadataOnly
    && r.windowStarted == (if Opens(s, e, c) then e.now else s.windowStarted)
    && r.events == Saturate((if Opens(s, e, c) then 0 else s.events) + e.occurrences)
    && r.changedBytes ==
       Saturate((if Opens(s, e, c) then 0 else s.changedBytes) + Saturate(e.changedBytes * e.occurrences))
    && r.hotUntil == if r.events >= c.hotEvents || r.changedBytes >= c.hotBytes
                     then Saturate(e.now + c.cooldownMs) else s.hotUntil
  }

  lemma OneEvent(s: Stats, e: Event, c: Config)
    ensures Moved(s, e, c, Counted(s, e, c))
  {
  }

  lemma OpensHere(s: Stats, init: seq<Event>, e: Event, c: Config, before: Stats, r: Stats)
    requires before == CountedAll(s, init, c) && Moved(before, e, c, r) && Opens(before, e, c)
    ensures OpenedBy(s, init + [e], c, |init|, r)
  {
    var own := init + [e];
    assert own[..|init|] == init;
    assert Occurrences(init, |init|) == 0 && ChangedBytes(init, |init|) == 0;
  }

  lemma StaysOpen(s: Stats, init: seq<Event>, e: Event, c: Config, before: Stats, r: Stats)
    requires StillOpen(s, init, c, before) || (init == [] && before == s)
    requires Moved(before, e, c, r) && !Opens(before, e, c)
    ensures StillOpen(s, init + [e], c, r)
  {
    var own := init + [e];
    assert own[..|init|] == init;
    Saturates(s.events + Occurrences(init, 0), e.occurrences);
    Saturates(s.changedBytes + ChangedBytes(init, 0), Saturate(e.changedBytes * e.occurrences));
  }

  lemma StaysOpened(s: Stats, init: seq<Event>, e: Event, c: Config, w: nat, before: Stats, r: Stats)
    requires w < |init| && OpenedBy(s, init, c, w, before) && Moved(before, e, c, r) && !Opens(before, e, c)
    ensures OpenedBy(s, init + [e], c, w, r)
  {
    var own := init + [e];
    assert own[..|init|] == init && own[..w] == init[..w];
    Saturates(Occurrences(init, w), e.occurrences);
    Saturates(ChangedBytes(init, w), Saturate(e.changedBytes * e.occurrences));
  }

  // The counters of a bucket are those of its own events in the current window,
  // which the last event that found none open, or an expired one, has opened.
  lemma {:induction false} CountersAreOfTheWindow(s: Stats, own: seq<Event>, c: Config)
    requires own != []
    ensures var r := CountedAll(s, own, c);
            && r.lastEvent == own[|own| - 1].now && r.metadataOnly == s.metadataOnly
            && (StillOpen(s, own, c, r) || exists w :: 0 <= w < |own| && OpenedBy(s, own, c, w, r))
  {
    var init, e, r := own[..|own| - 1], own[|own| - 1], CountedAll(s, own, c);
    var before := CountedAll(s, init, c);
    OneEvent(before, e, c);
    assert own == init + [e];
    if init != [] { CountersAreOfTheWindow(s, init, c); }
    if Opens(before, e, c) {
      OpensHere(s, init, e, c, before, r);
    } else if init == [] || StillOpen(s, init, c, before) {
      StaysOpen(s, init, e, c, before, r);
    } else {
      var w :| 0 <= w < |init| && OpenedBy(s, init, c, w, before);
      StaysOpened(s, init, e, c, w, before, r);
    }
  }

  // Event k reached a threshold.
  ghost predicate Reached(s: Stats, own: seq<Event>, c: Config, k: nat)
    requires k < |own|
  {
    var r := CountedAll(s, own[..k + 1], c);
    r.events >= c.hotEvents || r.changedBytes >= c.hotBytes
  }

  ghost predicate LastReached(s: Stats, own: seq<Event>, c: Config, k: nat)
    requires k < |own|
  {
    Reached(s, own, c, k) && forall j :: k < j < |own| ==> !Reached(s, own, c, j)
  }

  // The hot deadline is one cooldown behind event k, the last that reached a
  // threshold; without one it stays.
  lemma {:induction false} HotDeadlineIsExact(s: Stats, own: seq<Event>, c: Config) returns (k: int)
    ensures -1 <= k < |own|
    ensures k == -1 ==>
              CountedAll(s, own, c).hotUntil == s.hotUntil && forall j :: 0 <= j < |own| ==> !Reached(s, own, c, j)
    ensures k >= 0 ==>
              CountedAll(s, own, c).hotUntil == Saturate(own[k].now + c.cooldownMs) && LastReached(s, own, c, k)
  {
    if own == [] { return -1; }
    var init, e := own[..|own| - 1], own[|own| - 1];
    k := HotDeadlineIsExact(s, init, c);
    assert own == init + [e];
    OneEvent(CountedAll(s, init, c), e, c);
    ReachedBefore(s, init, e, c);
    if Reached(s, own, c, |init|) { k := |init|; }
  }

  lemma ReachedBefore(s: Stats, init: seq<Event>, e: Event, c: Config)
    ensures forall k :: 0 <= k < |init| ==> (Reached(s, init + [e], c, k) <==> Reached(s, init, c, k))
    ensures var r := Counted(CountedAll(s, init, c), e, c);
            Reached(s, init + [e], c, |init|) <==> r.events >= c.hotEvents || r.changedBytes >= c.hotBytes
  {
    var own := init + [e];
    forall k | 0 <= k < |init|
      ensures Reached(s, own, c, k) <==> Reached(s, init, c, k)
    {
      assert own[..k + 1] == init[..k + 1];
    }
    assert own[..|init| + 1] == own && own[..|init|] == init;
  }

  function EventsOf(events: seq<Event>, bucket: Path, isolated: seq<Path>): seq<Event>
    requires Rooted(events)
  {
    if events == [] then []
    else
      var e := events[|events| - 1];
      EventsOf(events[..|events| - 1], bucket, isolated) +
      (if Bucket(e.path, e.root, isolated) == bucket then [e] else [])
  }

  // After any batch the counters and the hot deadline of every bucket are those
  // of its own events alone: no event of another bucket moves them.
  lemma {:induction false} BucketsAreIndependent(activity: map<Path, Stats>, events: seq<Event>, bucket: Path,
                                                 isolated: seq<Path>, c: Config)
    requires Rooted(events)
    ensures StatsOf(RecordedAll(activity, events, isolated, c), bucket) ==
            CountedAll(StatsOf(activity, bucket), EventsOf(events, bucket, isolated), c)
  {
    if events != [] {
      var init, e := events[..|events| - 1], events[|events| - 1];
      BucketsAreIndependent(activity, init, bucket, isolated, c);
      var own := EventsOf(init, bucket, isolated);
      if Bucket(e.path, e.root, isolated) == bucket {
        assert (own + [e])[..|own|] == own;
      } else {
        assert own + [] == own;
      }
    }
  }

  // In particular an isolated root is untouched by a batch none of whose paths
  // has it as its longest isolated ancestor.
  lemma {:induction false} IsolationHolds(activity: map<Path, Stats>, events: seq<Event>, r: Path,
                                          isolated: seq<Path>, c: Config)
    requires Rooted(events) && r in isolated
    requires forall i :: 0 <= i < |events| && r <= events[i].path ==>
               exists k :: k in isolated && k <= events[i].path && |k| > |r|
    ensures StatsOf(RecordedAll(activity, events, isolated, c), r) == StatsOf(activity, r)
  {
    if events != [] {
      var init, e := events[..|events| - 1], events[|events| - 1];
      assert forall i :: 0 <= i < |init| ==> init[i] == events[i];
      IsolationHolds(activity, init, r, isolated, c);
      IsolatedBucketExactly(e.path, e.root, isolated, r);
    }
  }

  class ActivityTable {
    var activity: map<Path, Stats>

    constructor (activity: map<Path, Stats>)
      ensures this.activity == activity
    {
      this.activity := activity;
    }

    // The counting loop of reconcile_event_paths.
    method CountBatch(events: seq<Event>, isolated: seq<Path>, c: Config)
      requires Rooted(events)
      modifies this
      ensures activity == RecordedAll(old(activity), events, isolated, c)
    {
      for i := 0 to |events|
        invariant activity == RecordedAll(old(activity), events[..i], isolated, c)
      {
        var e := events[i];
        assert events[..i + 1][..i] == events[..i];
        var bucket := Bucket(e.path, e.root, isolated);
        var stats := if bucket in activity then activity[bucket] else NO_STATS;
        stats := CountEvent(stats, e, c);
        activity := activity[bucket := stats];
      }
      assert events[..|events|] == events;
    }

    static method CountEvent(before: Stats, e: Event, c: Config) returns (stats: Stats)
      ensures stats == Counted(before, e, c)
    {
      stats := before;
      if stats.windowStarted == 0 || Since(e.now, stats.windowStarted) >= c.windowMs {
        stats := stats.(windowStarted := e.now, events := 0, changedBytes := 0);
      }
      stats := stats.(events := Saturate(stats.events + e.occurrences));
      stats := stats.(changedBytes := Saturate(stats.changedBytes + Saturate(e.changedBytes * e.occurrences)));
      stats := stats.(lastEvent := e.now);
      if stats.events >= c.hotEvents || stats.changedBytes >= c.hotBytes {
        stats := stats.(hotUntil := Saturate(e.now + c.cooldownMs));
      }
    }
  }

  // ----- restart -----

  datatype Guard = Guard(buckets: map<Path, Stats>, isolated: seq<Path>)

  // Kept in the file, and kept again when it is read.
  predicate Worth(s: Stats, known: bool, now: nat, windowMs: nat) {
    known || s.hotUntil > now || Since(now, s.windowStarted) < windowMs
  }

  // save_activity_guard
  function Save(activity: map<Path, Stats>, isolated: seq<Path>, now: nat, windowMs: nat): Guard {
    Guard(map b | b in activity && Worth(activity[b], b in isolated, now, windowMs) :: activity[b], isolated)
  }

  // ensure_isolated_activity_root with the result of the bounded walk as input.
  function Ensured(s: Stats, quiet: Option<nat>, now: nat, c: Config): Stats {
    if quiet.Some? && quiet.value <= now then
      s.(hotUntil := 0, windowStarted := now, events := 0, changedBytes := 0, metadataOnly := false)
    else
      s.(hotUntil := if quiet.Some? then quiet.value else Saturate(now + c.cooldownMs),
         events := if s.events > c.hotEvents then s.events else c.hotEvents,
         changedBytes := if s.changedBytes > c.hotBytes then s.changedBytes else c.hotBytes,
         metadataOnly := true)
  }

  function EnsuredAll(activity: map<Path, Stats>, roots: seq<Path>, quiet: Path -> Option<nat>, now: nat, c: Config)
    : map<Path, Stats>
  {
    if roots == [] then activity
    else
      var a := EnsuredAll(activity, roots[..|roots| - 1], quiet, now, c);
      var r := roots[|roots| - 1];
      a[r := Ensured(StatsOf(a, r), quiet(r), now, c)]
  }

  // load_activity_guard_at on a readable file.
  function Load(g: Guard, roots: seq<Path>, quiet: Path -> Option<nat>, now: nat, c: Config): map<Path, Stats> {
    var kept := map b | b in g.buckets && Worth(g.buckets[b], b in g.isolated, now, c.windowMs) ::
      g.buckets[b].(metadataOnly := g.buckets[b].metadataOnly || g.buckets[b].hotUntil > now);
    EnsuredAll(kept, roots, quiet, now, c)
  }

  lemma {:induction false} EnsuredLeavesOthers(activity: map<Path, Stats>, roots: seq<Path>, quiet: Path -> Option<nat>,
                                               now: nat, c: Config, b: Path)
    requires b !in roots
    ensures b in EnsuredAll(activity, roots, quiet, now, c) <==> b in activity
    ensures b in activity ==> EnsuredAll(activity, roots, quiet, now, c)[b] == activity[b]
  {
    if roots != [] {
      EnsuredLeavesOthers(activity, roots[..|roots| - 1], quiet, now, c, b);
    }
  }

  // A restart neither drops nor shortens a bucket that is still hot, and holds it
  // in metadata-only mode.
  lemma HotSurvivesRestart(activity: map<Path, Stats>, isolated: seq<Path>, saved: nat,
                           roots: seq<Path>, quiet: Path -> Option<nat>, loaded: nat, c: Config, b: Path)
    requires b in activity && b !in roots && saved <= loaded < activity[b].hotUntil
    ensures var a := Load(Save(activity, isolated, saved, c.windowMs), roots, quiet, loaded, c);
            b in a && a[b] == activity[b].(metadataOnly := true)
  {
    var g := Save(activity, isolated, saved, c.windowMs);
    assert b in g.buckets && g.buckets[b] == activity[b];
    var kept := map k | k in g.buckets && Worth(g.buckets[k], k in g.isolated, loaded, c.windowMs) ::
      g.buckets[k].(metadataOnly := g.buckets[k].metadataOnly || g.buckets[k].hotUntil > loaded);
    assert b in kept;
    EnsuredLeavesOthers(kept, roots, quiet, loaded, c, b);
  }

  // A restart invents nothing: a bucket outside the configured roots was there
  // before, with the same counters and deadline.
  lemma RestartInventsNothing(activity: map<Path, Stats>, isolated: seq<Path>, saved: nat,
                              roots: seq<Path>, quiet: Path -> Option<nat>, loaded: nat, c: Config, b: Path)
    requires b !in roots
    ensures var a := Load(Save(activity, isolated, saved, c.windowMs), roots, quiet, loaded, c);
            b in a ==> b in activity && a[b].(metadataOnly := activity[b].metadataOnly) == activity[b]
  {
    var g := Save(activity, isolated, saved, c.windowMs);
    var kept := map k | k in g.buckets && Worth(g.buckets[k], k in g.isolated, loaded, c.windowMs) ::
      g.buckets[k].(metadataOnly := g.buckets[k].metadataOnly || g.buckets[k].hotUntil > loaded);
    EnsuredLeavesOthers(kept, roots, quiet, loaded, c, b);
  }

  // Outside the configured roots a bucket survives exactly when it is isolated, or
  // hot or within its window both when the file is written and when it is read.
  lemma RestartKeepsExactly(activity: map<Path, Stats>, isolated: seq<Path>, saved: nat,
                            roots: seq<Path>, quiet: Path -> Option<nat>, loaded: nat, c: Config, b: Path)
    requires b !in roots
    ensures b in Load(Save(activity, isolated, saved, c.windowMs), roots, quiet, loaded, c) <==>
            b in activity &&
            (|| b in isolated
             || ((activity[b].hotUntil > saved || Since(saved, activity[b].windowStarted) < c.windowMs)
                 && (activity[b].hotUntil > loaded || Since(loaded, activity[b].windowStarted) < c.windowMs)))
  {
    var g := Save(activity, isolated, saved, c.windowMs);
    var kept := map k | k in g.buckets && Worth(g.buckets[k], k in g.isolated, loaded, c.windowMs) ::
      g.buckets[k].(metadataOnly := g.buckets[k].metadataOnly || g.buckets[k].hotUntil > loaded);
    EnsuredLeavesOthers(kept, roots, quiet, loaded, c, b);
  }

  // A configured root starts cool when its files have been quiet long enough, and
  // otherwise at its thresholds, hot until they are or for one cooldown.
  ghost predicate StartsAs(s: Stats, quiet: Option<nat>, now: nat, c: Config) {
    if quiet.Some? && quiet.value <= now then
      s.hotUntil == 0 && s.events == 0 && s.changedBytes == 0 && s.windowStarted == now && !s.metadataOnly
    else
      && s.hotUntil == (if quiet.Some? then quiet.value else Saturate(now + c.cooldownMs))
      && s.events >= c.hotEvents && s.changedBytes >= c.hotBytes && s.metadataOnly
  }

  lemma {:induction false} RootsStartExactly(activity: map<Path, Stats>, roots: seq<Path>, quiet: Path -> Option<nat>,
                                             now: nat, c: Config, b: Path)
    requires b in roots
    ensures b in EnsuredAll(activity, roots, quiet, now, c)
    ensures StartsAs(EnsuredAll(activity, roots, quiet, now, c)[b], quiet(b), now, c)
  {
    var init, last := roots[..|roots| - 1], roots[|roots| - 1];
    if b != last {
      assert roots == init + [last];
      RootsStartExactly(activity, init, quiet, now, c, b);
    }
  }

  // activity_bucket_is_hot
  predicate IsHot(activity: map<Path, Stats>, bucket: Path, now: nat, isolated: seq<Path>) {
    if bucket in activity then now < activity[bucket].hotUntil
    else if bucket in isolated then true
    else exists b :: b in activity && (b <= bucket || bucket <= b) && now < activity[b].hotUntil
  }

  // A bucket with counters is hot until its own deadline. One without is hot when it
  // is isolated, and otherwise when a bucket above or below it is.
  lemma HeatIsExact(activity: map<Path, Stats>, bucket: Path, now: nat, isolated: seq<Path>)
    ensures bucket in activity ==> (IsHot(activity, bucket, now, isolated) <==> activity[bucket].hotUntil > now)
    ensures bucket !in activity && bucket in isolated ==> IsHot(activity, bucket, now, isolated)
    ensures bucket !in activity ==> forall b | b in activity && (b <= bucket || bucket <= b) ::
              activity[b].hotUntil > now ==> IsHot(activity, bucket, now, isolated)
    ensures bucket !in activity && bucket !in isolated && IsHot(activity, bucket, now, isolated) ==>
              exists b :: b in activity && (b <= bucket || bucket <= b) && activity[b].hotUntil > now
  {
  }

  // An isolated root never borrows the state of another bucket.
  lemma IsolatedHeatIsItsOwn(a: map<Path, Stats>, b: map<Path, Stats>, r: Path, now: nat, isolated: seq<Path>)
    requires r in isolated
    requires r in a <==> r in b
    requires r in a ==> a[r].hotUntil == b[r].hotUntil
    ensures IsHot(a, r, now, isolated) == IsHot(b, r, now, isolated)
  {
  }
}
