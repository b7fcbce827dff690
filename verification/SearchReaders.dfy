// Readers of a running job: one that follows its cursors while hosts complete and
// other readers poll, and a run in which a reader misses a hit.
module SearchReaders {
  import opened Bytes
  import opened JobStore
  import opened Results
  import opened SearchJobs
  import opened SearchMerge
  import opened Sets

  // What may happen between two polls of one reader.
  datatype Interference =
    | HostEnds(host: Host, answer: Option<Answer>)
    | OtherPoll(cursor: Option<Handle>, pageSize: Option<nat>, handle: Handle)

  datatype Round = Round(between: seq<Interference>, pageSize: Option<nat>, handle: Handle, store: Option<Store>)

  datatype Ending = Open | Refused | Exhausted

  function PollHandles(xs: seq<Interference>): seq<Handle> {
    if xs == [] then []
    else (if xs[0].OtherPoll? then [xs[0].handle] else []) + PollHandles(xs[1..])
  }

  // Every handle made while the script runs, in order.
  function Handles(script: seq<Round>): seq<Handle> {
    if script == [] then [] else PollHandles(script[0].between) + [script[0].handle] + Handles(script[1..])
  }

  function Concat(pages: seq<seq<Hit>>): seq<Hit> {
    if pages == [] then [] else Concat(pages[..|pages| - 1]) + pages[|pages| - 1]
  }

  // Random handles are new.
  ghost predicate FreshFor(job: SearchJob, hs: seq<Handle>)
    reads job
  {
    Distinct(hs) && AllNew(TrailOf(job), hs)
  }

  // ----- what grows -----

  ghost function TrailOf(job: SearchJob): Trail
    reads job
  {
    Trail(job.arrivals, job.finished, job.pendingHosts, job.cursors, job.delivered, job.log)
  }

  datatype Trail = Trail(arrivals: Arrivals, finished: set<Host>, pending: set<Host>, cursors: map<Handle, nat>,
                         delivered: map<Handle, seq<Hit>>, log: map<Handle, Moment>)

  ghost predicate New(t: Trail, h: Handle) {
    h !in t.delivered && h !in t.cursors && h !in t.log
  }

  ghost predicate Kept<V>(a: map<Handle, V>, b: map<Handle, V>, made: seq<Handle>) {
    && (forall c :: c in a ==> c in b && b[c] == a[c])
    && (forall c :: c in b ==> c in a || c in made)
  }

  // From a to b with these handles made. A cursor never moves, and while at most
  // 256 handles exist none is evicted.
  ghost predicate Grew(a: Trail, b: Trail, made: seq<Handle>) {
    && a.arrivals.history <= b.arrivals.history && a.arrivals.admitted <= b.arrivals.admitted
    && a.arrivals.dropped <= b.arrivals.dropped && a.finished <= b.finished && b.pending <= a.pending
    && Kept(a.delivered, b.delivered, made) && Kept(a.log, b.log, made)
    && (forall c :: c in b.cursors ==> c in a.cursors || c in made)
    && (forall c :: c in b.cursors && c in a.cursors && c !in made ==> b.cursors[c] == a.cursors[c])
    && (|a.cursors| + |made| <= MAX_CURSORS_PER_JOB ==>
          |b.cursors| <= |a.cursors| + |made| && forall c :: c in a.cursors ==> c in b.cursors)
  }

  // All these handles were new before.
  ghost predicate AllNew(t: Trail, made: seq<Handle>) {
    forall h :: h in made ==> New(t, h)
  }

  lemma GrewTwice(a: Trail, b: Trail, c: Trail, m: seq<Handle>, n: seq<Handle>)
    requires Grew(a, b, m) && Grew(b, c, n) && AllNew(b, n)
    ensures Grew(a, c, m + n)
  {
    assert forall h :: h in m + n <==> h in m || h in n;
    KeptTwice(a.delivered, b.delivered, c.delivered, m, n);
    KeptTwice(a.log, b.log, c.log, m, n);
    forall h | h in c.cursors && h in a.cursors && h !in m + n
      ensures c.cursors[h] == a.cursors[h]
    {
      assert h in b.cursors;
    }
  }

  lemma KeptTwice<V>(a: map<Handle, V>, b: map<Handle, V>, c: map<Handle, V>, m: seq<Handle>, n: seq<Handle>)
    requires Kept(a, b, m) && Kept(b, c, n)
    ensures Kept(a, c, m + n)
  {
    assert forall h :: h in m + n <==> h in m || h in n;
  }

  lemma StillFresh(a: Trail, b: Trail, made: seq<Handle>, later: seq<Handle>)
    requires Grew(a, b, made) && Distinct(made + later)
    requires AllNew(a, made + later)
    ensures Distinct(later) && AllNew(b, later)
  {
    var all := made + later;
    assert forall i :: 0 <= i < |later| ==> later[i] == all[|made| + i];
    forall h | h in later
      ensures h in all && h !in made
    {
      var i :| 0 <= i < |later| && later[i] == h;
      assert all[|made| + i] == h;
      assert forall j :: 0 <= j < |made| ==> made[j] == all[j] && all[j] != all[|made| + i];
    }
  }

  // ----- single steps -----

  method EndHost(job: SearchJob, host: Host, answer: Option<Answer>, store: Option<Store>)
    requires job.Valid()
    modifies job
    ensures job.Valid() && Grew(old(TrailOf(job)), TrailOf(job), [])
  {
    ghost var a, r, seen := TrailOf(job), job.Record(), job.seen;
    job.CompleteHost(host, answer, store);
    PendingShrinks(store, r, seen, host, answer);
    GrewByHost(a, TrailOf(job), r, job.Record());
  }

  lemma PendingShrinks(store: Option<Store>, r: JobRecord, seen: set<Key>, host: Host, answer: Option<Answer>)
    ensures Saved(store, Received(r, seen, host, answer)).pendingHosts <= r.pendingHosts
  {
  }

  lemma GrewByHost(a: Trail, b: Trail, r: JobRecord, r': JobRecord)
    requires a.pending == r.pendingHosts && b.pending == r'.pendingHosts && r'.pendingHosts <= r.pendingHosts
    requires a.arrivals.history <= b.arrivals.history && a.arrivals.admitted <= b.arrivals.admitted
    requires a.arrivals.dropped <= b.arrivals.dropped && a.finished <= b.finished
    requires b.cursors == a.cursors && b.delivered == a.delivered && b.log == a.log
    ensures Grew(a, b, [])
  {
  }

  // What a poll without refusal does: the page of its moment, which is logged, and
  // a cursor at its end.
  ghost predicate Polled(v: View, log: map<Handle, Moment>, cursor: Option<Handle>, size: nat, handle: Handle,
                         page: Page, b: Trail)
    requires Accepts(v.cursors, cursor)
  {
    && b.log == log[handle := MomentOf(v, cursor)]
    && page.hits == PageAt(v.results, StartOf(v.cursors, cursor), size)
    && (handle in b.cursors ==> b.cursors[handle] == EndOf(v.results, StartOf(v.cursors, cursor), page.hits))
    && Continued(v, cursor, handle, page.hits, page.cursor, b.delivered)
    && (page.cursor.Some? ==> page.cursor.value == handle)
    && (page.cursor.None? ==> !v.running)
    && (page.cursor.Some? && |v.cursors| < MAX_CURSORS_PER_JOB ==> handle in b.cursors)
  }

  method Consult(job: SearchJob, cursor: Option<Handle>, pageSize: Option<nat>, handle: Handle, store: Option<Store>)
    returns (out: Result<Page, string>)
    requires job.Valid() && New(TrailOf(job), handle)
    modifies job
    ensures job.Valid() && Grew(old(TrailOf(job)), TrailOf(job), [handle])
    ensures job.arrivals.admitted == old(job.arrivals).admitted
    ensures out.Err? <==> !Accepts(old(job.cursors), cursor)
    ensures out.Ok? ==>
              Polled(old(job.Now()), old(job.log), cursor, PageSize(pageSize), handle, out.value, TrailOf(job))
  {
    ghost var a, v, r := TrailOf(job), job.Now(), job.Record();
    out := job.Poll(cursor, pageSize, handle, store);
    if out.Ok? {
      SavingKeepsPending(store, r.(cursors := job.cursors));
      PollIsPolled(a, v, cursor, PageSize(pageSize), handle, out.value, TrailOf(job));
    }
  }

  lemma SavingKeepsPending(store: Option<Store>, r: JobRecord)
    ensures Saved(store, r).pendingHosts <= r.pendingHosts
  {
  }

  lemma PollIsPolled(a: Trail, v: View, cursor: Option<Handle>, size: nat, handle: Handle, page: Page, b: Trail)
    requires v.cursors == a.cursors && v.delivered == a.delivered && New(a, handle) && Accepts(v.cursors, cursor)
    requires Turned(v, cursor, size, handle, page.hits, page.cursor, b.cursors)
    requires Continued(v, cursor, handle, page.hits, page.cursor, b.delivered)
    requires b.log == a.log[handle := MomentOf(v, cursor)]
    requires a.arrivals.history == b.arrivals.history && a.arrivals.admitted == b.arrivals.admitted
    requires a.arrivals.dropped <= b.arrivals.dropped && a.finished <= b.finished && b.pending <= a.pending
    ensures Grew(a, b, [handle]) && Polled(v, a.log, cursor, size, handle, page, b)
  {
    CursorsKept(v.cursors, handle, EndOf(v.results, StartOf(v.cursors, cursor), page.hits), b.cursors);
  }

  lemma CursorsKept(cursors: map<Handle, nat>, handle: Handle, end: nat, kept: map<Handle, nat>)
    requires handle !in cursors
    requires kept == cursors || Trimmed(cursors[handle := end], kept, MAX_CURSORS_PER_JOB)
    ensures forall c :: c in kept ==> c in cursors || c == handle
    ensures forall c :: c in kept ==> kept[c] == if c == handle then end else cursors[c]
    ensures |cursors| < MAX_CURSORS_PER_JOB ==> |kept| <= |cursors| + 1 && forall c :: c in cursors ==> c in kept
    ensures |cursors| < MAX_CURSORS_PER_JOB && kept != cursors ==> handle in kept
  {
    assert cursors[handle := end].Keys == cursors.Keys + {handle};
    assert |cursors[handle := end]| == |cursors[handle := end].Keys| && |cursors| == |cursors.Keys|;
  }

  method Interfere(job: SearchJob, xs: seq<Interference>, store: Option<Store>, ghost later: seq<Handle>)
    requires job.Valid() && FreshFor(job, PollHandles(xs) + later)
    modifies job
    ensures job.Valid() && FreshFor(job, later) && Grew(old(TrailOf(job)), TrailOf(job), PollHandles(xs))
    decreases |xs|
  {
    ghost var a := TrailOf(job);
    if xs == [] {
      assert [] + later == later;
      return;
    }
    ghost var rest, made := PollHandles(xs[1..]), if xs[0].OtherPoll? then [xs[0].handle] else [];
    assert PollHandles(xs) + later == made + (rest + later);
    OneInterference(job, xs[0], store, made, rest + later);
    ghost var b := TrailOf(job);
    assert AllNew(b, rest) by {
      assert forall h :: h in rest ==> h in rest + later;
    }
    Interfere(job, xs[1..], store, later);
    GrewTwice(a, b, TrailOf(job), made, rest);
  }

  method OneInterference(job: SearchJob, x: Interference, store: Option<Store>, ghost made: seq<Handle>,
                         ghost later: seq<Handle>)
    requires job.Valid() && FreshFor(job, made + later) && made == if x.OtherPoll? then [x.handle] else []
    modifies job
    ensures job.Valid() && FreshFor(job, later) && Grew(old(TrailOf(job)), TrailOf(job), made)
  {
    ghost var a := TrailOf(job);
    match x {
      case HostEnds(host, answer) =>
        EndHost(job, host, answer, store);
      case OtherPoll(cursor, pageSize, handle) =>
        assert handle in made + later;
        var out := Consult(job, cursor, pageSize, handle, store);
    }
    StillFresh(a, TrailOf(job), made, later);
  }

  // ----- one reader -----

  function PageOf(m: Moment, size: nat): seq<Hit> {
    PageAt(Held(m.admitted, m.dropped), m.start, size)
  }

  function EndAfter(m: Moment, hits: seq<Hit>): nat {
    EndOf(Held(m.admitted, m.dropped), m.start, hits)
  }

  // A page after others is the one of its moment, which is no earlier than theirs
  // and starts where the page before it ended.
  ghost predicate Entry(pages: seq<seq<Hit>>, moments: seq<Moment>, m: Moment, hits: seq<Hit>, size: nat)
    requires |moments| == |pages|
  {
    && hits == PageOf(m, size)
    && if pages == [] then m.start == 0
       else
         var last := moments[|moments| - 1];
         && m.start == EndAfter(last, pages[|pages| - 1])
         && last.admitted <= m.admitted && last.dropped <= m.dropped
  }

  // The moments are those that the job logged for the reader's own handles.
  ghost predicate Logged(log: map<Handle, Moment>, script: seq<Round>, pages: seq<seq<Hit>>, moments: seq<Moment>) {
    && |moments| == |pages| <= |script|
    && forall k :: 0 <= k < |pages| ==> LoggedAt(log, script, pages, moments, k)
  }

  ghost predicate LoggedAt(log: map<Handle, Moment>, script: seq<Round>, pages: seq<seq<Hit>>, moments: seq<Moment>,
                           k: nat)
    requires |moments| == |pages| <= |script| && k < |pages|
  {
    && script[k].handle in log && log[script[k].handle] == moments[k]
    && Entry(pages[..k], moments[..k], moments[k], pages[k], PageSize(script[k].pageSize))
  }

  lemma LoggedOneMore(log: map<Handle, Moment>, later: map<Handle, Moment>, made: seq<Handle>, script: seq<Round>,
                      pages: seq<seq<Hit>>, moments: seq<Moment>, m: Moment, hits: seq<Hit>)
    requires Logged(log, script, pages, moments) && Kept(log, later, made) && |pages| < |script|
    requires script[|pages|].handle in later && later[script[|pages|].handle] == m
    requires Entry(pages, moments, m, hits, PageSize(script[|pages|].pageSize))
    ensures Logged(later, script, pages + [hits], moments + [m])
  {
    var pages', moments' := pages + [hits], moments + [m];
    forall k | 0 <= k < |pages'|
      ensures LoggedAt(later, script, pages', moments', k)
    {
      assert pages'[..k] == pages[..k] && moments'[..k] == moments[..k];
      if k < |pages| {
        assert LoggedAt(log, script, pages, moments, k);
      } else {
        assert pages[..k] == pages && moments[..k] == moments;
      }
    }
  }

  lemma LoggedLater(log: map<Handle, Moment>, later: map<Handle, Moment>, made: seq<Handle>, script: seq<Round>,
                    pages: seq<seq<Hit>>, moments: seq<Moment>)
    requires Logged(log, script, pages, moments) && Kept(log, later, made)
    ensures Logged(later, script, pages, moments)
  {
    forall k | 0 <= k < |pages|
      ensures LoggedAt(later, script, pages, moments, k)
    {
      assert LoggedAt(log, script, pages, moments, k);
    }
  }

  // Every page was made when the chain was steady over it.
  ghost predicate AlwaysSteady(moments: seq<Moment>, pages: seq<seq<Hit>>)
    requires |moments| == |pages|
  {
    pages == [] ||
    (var n := |pages| - 1;
     && AlwaysSteady(moments[..n], pages[..n])
     && |Concat(pages[..n])| <= |moments[n].admitted|
     && Steady(moments[n].admitted, moments[n].dropped, |Concat(pages[..n])|, moments[n].start, |pages[n]|))
  }

  // The last page was made when the chain was steady over everything that was left.
  ghost predicate SteadyToTheLast(moments: seq<Moment>, pages: seq<seq<Hit>>)
    requires |moments| == |pages| > 0
  {
    var n := |pages| - 1;
    && AlwaysSteady(moments[..n], pages[..n])
    && |Concat(pages[..n])| <= |moments[n].admitted|
    && Steady(moments[n].admitted, moments[n].dropped, |Concat(pages[..n])|, moments[n].start,
              |moments[n].admitted| - |Concat(pages[..n])|)
  }

  // The pages join to a prefix of the admitted hits exactly when every one was made
  // while the chain was steady; without a drop they do.
  ghost predicate Tracks(admitted: seq<Hit>, dropped: set<Key>, pages: seq<seq<Hit>>, moments: seq<Moment>) {
    && |moments| == |pages| && |Concat(pages)| <= |admitted|
    && (Concat(pages) <= admitted <==> AlwaysSteady(moments, pages))
    && (dropped == {} ==> Concat(pages) <= admitted)
    && (pages != [] ==> moments[|moments| - 1].admitted <= admitted && moments[|moments| - 1].dropped <= dropped)
  }

  lemma TracksLater(admitted: seq<Hit>, dropped: set<Key>, pages: seq<seq<Hit>>, moments: seq<Moment>,
                    admitted': seq<Hit>, dropped': set<Key>)
    requires Tracks(admitted, dropped, pages, moments) && admitted <= admitted' && dropped <= dropped'
    ensures Tracks(admitted', dropped', pages, moments)
  {
    PrefixOfLonger(Concat(pages), admitted, admitted');
  }

  lemma PrefixOfLonger(a: seq<Hit>, b: seq<Hit>, c: seq<Hit>)
    requires b <= c && |a| <= |b|
    ensures a <= b <==> a <= c
  {
    assert forall i :: 0 <= i < |a| ==> b[i] == c[i];
  }

  lemma ConcatAppend(pages: seq<seq<Hit>>, moments: seq<Moment>, hits: seq<Hit>, moment: Moment)
    requires |moments| == |pages|
    ensures Concat(pages + [hits]) == Concat(pages) + hits
    ensures var n, m := |pages|, moment;
            AlwaysSteady(moments + [moment], pages + [hits]) <==>
              AlwaysSteady(moments, pages) && |Concat(pages)| <= |m.admitted|
              && Steady(m.admitted, m.dropped, |Concat(pages)|, m.start, |hits|)
    ensures var m := moment;
            SteadyToTheLast(moments + [moment], pages + [hits]) <==>
              AlwaysSteady(moments, pages) && |Concat(pages)| <= |m.admitted|
              && Steady(m.admitted, m.dropped, |Concat(pages)|, m.start, |m.admitted| - |Concat(pages)|)
  {
    assert (pages + [hits])[..|pages|] == pages && (moments + [moment])[..|pages|] == moments;
  }

  // One page more, and the last one.
  lemma TrackPage(v: View, cursor: Option<Handle>, handle: Handle, hits: seq<Hit>, next: Option<Handle>,
                  delivered: map<Handle, seq<Hit>>, pages: seq<seq<Hit>>, moments: seq<Moment>)
    requires Tracks(v.admitted, v.dropped, pages, moments) && UniqueKeys(v.admitted)
    requires Accepts(v.cursors, cursor) && Known(v.delivered, cursor) && Delivered(v.delivered, cursor) == Concat(pages)
    requires Chain(Held(v.admitted, v.dropped), v.admitted, StartOf(v.cursors, cursor), Concat(pages))
    requires Continued(v, cursor, handle, hits, next, delivered)
    ensures var moments' := moments + [MomentOf(v, cursor)];
            && Tracks(v.admitted, v.dropped, pages + [hits], moments')
            && (next.None? ==>
                  && (Concat(pages + [hits]) == v.admitted <==> SteadyToTheLast(moments', pages + [hits]))
                  && (v.dropped == {} ==> Concat(pages + [hits]) == v.admitted))
  {
    var joined, start := Concat(pages), StartOf(v.cursors, cursor);
    ConcatAppend(pages, moments, hits, MomentOf(v, cursor));
    NoMoreThanAdmitted(joined + hits, v.admitted);
    PrefixOfSum(joined, hits, v.admitted);
    if v.dropped == {} { NoDropStaysSteady(v.admitted, joined, start, |hits|); }
  }

  lemma NoDropStaysSteady(admitted: seq<Hit>, joined: seq<Hit>, start: nat, n: nat)
    requires joined <= admitted && Chain(Held(admitted, {}), admitted, start, joined)
    ensures Steady(admitted, {}, |joined|, start, n) && Steady(admitted, {}, |joined|, start, |admitted| - |joined|)
  {
    assert joined == admitted[..|joined|];
    NoDropIsSteady(admitted, |joined|, start, n);
    NoDropIsSteady(admitted, |joined|, start, |admitted| - |joined|);
  }

  lemma PrefixOfSum(a: seq<Hit>, b: seq<Hit>, s: seq<Hit>)
    ensures a + b <= s ==> a <= s
    ensures a + b == s ==> a <= s
  {
    if |a + b| <= |s| { assert a == (a + b)[..|a|]; }
  }

  // The reader so far: what it joined is what its chain delivered, and its cursor,
  // if it is still there, stands where its last page ended.
  ghost predicate Reading(b: Trail, cursor: Option<Handle>, pages: seq<seq<Hit>>, moments: seq<Moment>) {
    && Known(b.delivered, cursor) && Delivered(b.delivered, cursor) == Concat(pages)
    && Tracks(b.arrivals.admitted, b.arrivals.dropped, pages, moments)
    && StandsAfter(b.cursors, cursor, pages, moments)
  }

  ghost predicate StandsAfter(cursors: map<Handle, nat>, cursor: Option<Handle>, pages: seq<seq<Hit>>,
                              moments: seq<Moment>)
    requires |moments| == |pages|
  {
    && (cursor.None? <==> pages == [])
    && (cursor.Some? && cursor.value in cursors ==>
          cursors[cursor.value] == EndAfter(moments[|moments| - 1], pages[|pages| - 1]))
  }

  lemma ReadingLater(a: Trail, b: Trail, made: seq<Handle>, cursor: Option<Handle>, pages: seq<seq<Hit>>,
                     moments: seq<Moment>)
    requires Reading(a, cursor, pages, moments) && Grew(a, b, made) && AllNew(a, made)
    ensures Reading(b, cursor, pages, moments)
  {
    TracksLater(a.arrivals.admitted, a.arrivals.dropped, pages, moments, b.arrivals.admitted, b.arrivals.dropped);
  }

  // What the reader knows after one more page.
  ghost predicate Advanced(b: Trail, page: Page, pages: seq<seq<Hit>>, moments: seq<Moment>, round: Round)
    requires |moments| == |pages|
  {
    round.handle in b.log &&
    var moment := b.log[round.handle];
    var pages', moments' := pages + [page.hits], moments + [moment];
    && Entry(pages, moments, moment, page.hits, PageSize(round.pageSize))
    && Tracks(b.arrivals.admitted, b.arrivals.dropped, pages', moments')
    && (page.cursor.Some? ==> Reading(b, page.cursor, pages', moments'))
    && (page.cursor.None? ==>
          && b.pending == {}
          && (Concat(pages') == b.arrivals.admitted <==> SteadyToTheLast(moments', pages'))
          && (b.arrivals.dropped == {} ==> Concat(pages') == b.arrivals.admitted))
  }

  lemma PageIsEntry(v: View, cursor: Option<Handle>, size: nat, hits: seq<Hit>, pages: seq<seq<Hit>>,
                    moments: seq<Moment>)
    requires Tracks(v.admitted, v.dropped, pages, moments) && StandsAfter(v.cursors, cursor, pages, moments)
    requires v.results == Held(v.admitted, v.dropped) && Accepts(v.cursors, cursor)
    requires hits == PageAt(v.results, StartOf(v.cursors, cursor), size)
    ensures Entry(pages, moments, MomentOf(v, cursor), hits, size)
  {
  }

  // The handle of the next page knows what was read with this one, and stands at its end.
  lemma ReadsOn(v: View, cursor: Option<Handle>, handle: Handle, hits: seq<Hit>, b: Trail, pages: seq<seq<Hit>>,
                moments: seq<Moment>)
    requires |moments| == |pages| && v.results == Held(v.admitted, v.dropped)
    requires Accepts(v.cursors, cursor) && Known(v.delivered, cursor) && Delivered(v.delivered, cursor) == Concat(pages)
    requires Continued(v, cursor, handle, hits, Some(handle), b.delivered)
    requires handle in b.cursors ==> b.cursors[handle] == EndOf(v.results, StartOf(v.cursors, cursor), hits)
    requires Tracks(b.arrivals.admitted, b.arrivals.dropped, pages + [hits], moments + [MomentOf(v, cursor)])
    ensures Reading(b, Some(handle), pages + [hits], moments + [MomentOf(v, cursor)])
  {
    ConcatAppend(pages, moments, hits, MomentOf(v, cursor));
  }

  lemma AdvancedByPage(v: View, log: map<Handle, Moment>, b: Trail, cursor: Option<Handle>, round: Round, page: Page,
                       pages: seq<seq<Hit>>, moments: seq<Moment>)
    requires Tracks(v.admitted, v.dropped, pages, moments) && UniqueKeys(v.admitted)
    requires v.results == Held(v.admitted, v.dropped) && StandsAfter(v.cursors, cursor, pages, moments)
    requires Accepts(v.cursors, cursor) && Known(v.delivered, cursor) && Delivered(v.delivered, cursor) == Concat(pages)
    requires Chain(v.results, v.admitted, StartOf(v.cursors, cursor), Concat(pages))
    requires Polled(v, log, cursor, PageSize(round.pageSize), round.handle, page, b)
    requires page.cursor.None? ==> b.pending == {}
    requires b.arrivals.admitted == v.admitted && v.dropped <= b.arrivals.dropped
    ensures Advanced(b, page, pages, moments, round)
  {
    var moment := MomentOf(v, cursor);
    PageIsEntry(v, cursor, PageSize(round.pageSize), page.hits, pages, moments);
    TrackPage(v, cursor, round.handle, page.hits, page.cursor, b.delivered, pages, moments);
    TracksLater(v.admitted, v.dropped, pages + [page.hits], moments + [moment],
                b.arrivals.admitted, b.arrivals.dropped);
    if page.cursor.Some? { ReadsOn(v, cursor, round.handle, page.hits, b, pages, moments); }
  }

  // The reader polls once.
  method PollOnce(job: SearchJob, cursor: Option<Handle>, round: Round, ghost pages: seq<seq<Hit>>,
                  ghost moments: seq<Moment>)
    returns (answer: Result<Page, string>)
    requires job.Valid() && Reading(TrailOf(job), cursor, pages, moments)
    requires New(TrailOf(job), round.handle)
    modifies job
    ensures job.Valid() && Grew(old(TrailOf(job)), TrailOf(job), [round.handle])
    ensures answer.Ok? ==> Advanced(TrailOf(job), answer.value, pages, moments, round)
    ensures answer.Err? <==> !Accepts(old(job.cursors), cursor)
    ensures answer.Ok? && |old(job.cursors)| < MAX_CURSORS_PER_JOB ==> Accepts(job.cursors, answer.value.cursor)
  {
    ghost var v, log := job.Now(), job.log;
    MergedFacts(job.limit, Merge(job.results, job.seen, job.truncated), job.arrivals);
    answer := Consult(job, cursor, round.pageSize, round.handle, round.store);
    if answer.Ok? {
      AdvancedByPage(v, log, TrailOf(job), cursor, round, answer.value, pages, moments);
    }
  }

  // Hosts complete and others poll, then the reader polls once.
  method NextRound(job: SearchJob, cursor: Option<Handle>, round: Round, ghost later: seq<Handle>,
                   ghost pages: seq<seq<Hit>>, ghost moments: seq<Moment>)
    returns (answer: Result<Page, string>)
    requires job.Valid() && Reading(TrailOf(job), cursor, pages, moments)
    requires FreshFor(job, PollHandles(round.between) + [round.handle] + later)
    modifies job
    ensures var made := PollHandles(round.between) + [round.handle];
            && job.Valid() && FreshFor(job, later) && Grew(old(TrailOf(job)), TrailOf(job), made)
            && (|old(job.cursors)| + |made| <= MAX_CURSORS_PER_JOB && Accepts(old(job.cursors), cursor) ==>
                  answer.Ok? && Accepts(job.cursors, answer.value.cursor))
    ensures answer.Ok? ==> Advanced(TrailOf(job), answer.value, pages, moments, round)
    ensures answer.Err? ==> Reading(TrailOf(job), cursor, pages, moments)
  {
    ghost var a, made := TrailOf(job), PollHandles(round.between);
    assert made + [round.handle] + later == made + ([round.handle] + later);
    Interfere(job, round.between, round.store, [round.handle] + later);
    ghost var b := TrailOf(job);
    BeforeThePoll(a, b, made, round.handle, later, cursor, pages, moments);
    answer := PollOnce(job, cursor, round, pages, moments);
    AfterThePoll(a, b, TrailOf(job), made, round.handle, later, cursor, pages, moments);
  }

  lemma BeforeThePoll(a: Trail, b: Trail, made: seq<Handle>, handle: Handle, later: seq<Handle>,
                      cursor: Option<Handle>, pages: seq<seq<Hit>>, moments: seq<Moment>)
    requires Reading(a, cursor, pages, moments) && Grew(a, b, made) && AllNew(a, made + ([handle] + later))
    requires AllNew(b, [handle] + later)
    ensures Reading(b, cursor, pages, moments) && New(b, handle)
  {
    assert forall h :: h in made ==> h in made + ([handle] + later);
    assert handle in [handle] + later;
    ReadingLater(a, b, made, cursor, pages, moments);
  }

  lemma AfterThePoll(a: Trail, b: Trail, c: Trail, made: seq<Handle>, handle: Handle, later: seq<Handle>,
                     cursor: Option<Handle>, pages: seq<seq<Hit>>, moments: seq<Moment>)
    requires Grew(a, b, made) && Grew(b, c, [handle]) && Reading(b, cursor, pages, moments)
    requires Distinct([handle] + later) && AllNew(b, [handle] + later)
    ensures Grew(a, c, made + [handle]) && Reading(c, cursor, pages, moments)
    ensures Distinct(later) && AllNew(c, later)
  {
    assert handle in [handle] + later;
    StillFresh(b, c, [handle], later);
    GrewTwice(a, b, c, made, [handle]);
    ReadingLater(b, c, [handle], cursor, pages, moments);
  }

  // The reader before its next round.
  ghost predicate Underway(b: Trail, script: seq<Round>, cursor: Option<Handle>, pages: seq<seq<Hit>>,
                           moments: seq<Moment>)
  {
    && Logged(b.log, script, pages, moments) && Reading(b, cursor, pages, moments)
    && Distinct(Handles(script[|pages|..])) && AllNew(b, Handles(script[|pages|..]))
  }

  // The reader after a page without a cursor.
  ghost predicate Finished(b: Trail, script: seq<Round>, pages: seq<seq<Hit>>, moments: seq<Moment>) {
    && Logged(b.log, script, pages, moments) && pages != [] && b.pending == {}
    && Tracks(b.arrivals.admitted, b.arrivals.dropped, pages, moments)
    && (Concat(pages) == b.arrivals.admitted <==> SteadyToTheLast(moments, pages))
    && (b.arrivals.dropped == {} ==> Concat(pages) == b.arrivals.admitted)
  }

  // What the reader has when it stops.
  ghost predicate Stopped(b: Trail, script: seq<Round>, ending: Ending, pages: seq<seq<Hit>>, moments: seq<Moment>) {
    && (ending.Exhausted? ==> Finished(b, script, pages, moments))
    && Logged(b.log, script, pages, moments) && Tracks(b.arrivals.admitted, b.arrivals.dropped, pages, moments)
    && (ending.Open? ==> |pages| == |script|)
  }

  lemma UnderwayStops(b: Trail, script: seq<Round>, cursor: Option<Handle>, pages: seq<seq<Hit>>, moments: seq<Moment>)
    requires Underway(b, script, cursor, pages, moments) && |pages| == |script|
    ensures Stopped(b, script, Open, pages, moments)
  {
  }

  lemma ReaderStarts(b: Trail, script: seq<Round>)
    requires Distinct(Handles(script)) && AllNew(b, Handles(script))
    ensures Underway(b, script, None, [], [])
  {
    assert script[0..] == script;
  }

  // One round of the reader.
  method TakeTurn(job: SearchJob, round: Round, cursor: Option<Handle>, ghost script: seq<Round>,
                  ghost pages: seq<seq<Hit>>, ghost moments: seq<Moment>)
    returns (answer: Result<Page, string>)
    requires job.Valid() && Underway(TrailOf(job), script, cursor, pages, moments)
    requires |pages| < |script| && script[|pages|] == round
    modifies job
    ensures job.Valid()
    ensures answer.Err? ==> Stopped(TrailOf(job), script, Refused, pages, moments)
    ensures answer.Ok? ==>
              && round.handle in job.log
              && var pages', moments' := pages + [answer.value.hits], moments + [job.log[round.handle]];
                 if answer.value.cursor.Some?
                 then Underway(TrailOf(job), script, answer.value.cursor, pages', moments')
                 else Stopped(TrailOf(job), script, Exhausted, pages', moments')
    ensures |old(job.cursors)| + |Handles(script[|pages|..])| <= MAX_CURSORS_PER_JOB
            && Accepts(old(job.cursors), cursor) ==>
              && answer.Ok? && |job.cursors| + |Handles(script[|pages| + 1..])| <= MAX_CURSORS_PER_JOB
              && Accepts(job.cursors, answer.value.cursor)
  {
    ghost var a := TrailOf(job);
    ghost var made, later := PollHandles(round.between) + [round.handle], Handles(script[|pages| + 1..]);
    HandlesUnfold(script, |pages|);
    answer := NextRound(job, cursor, round, later, pages, moments);
    if answer.Ok? {
      TurnTaken(a, TrailOf(job), made, script, answer.value, pages, moments);
    } else {
      LoggedLater(a.log, job.log, made, script, pages, moments);
    }
  }

  lemma HandlesUnfold(script: seq<Round>, i: nat)
    requires i < |script|
    ensures Handles(script[i..]) == PollHandles(script[i].between) + [script[i].handle] + Handles(script[i + 1..])
  {
    assert script[i..][1..] == script[i + 1..];
  }

  lemma TurnTaken(a: Trail, b: Trail, made: seq<Handle>, script: seq<Round>, page: Page, pages: seq<seq<Hit>>,
                  moments: seq<Moment>)
    requires Logged(a.log, script, pages, moments) && Grew(a, b, made) && |pages| < |script|
    requires Distinct(Handles(script[|pages| + 1..])) && AllNew(b, Handles(script[|pages| + 1..]))
    requires Advanced(b, page, pages, moments, script[|pages|])
    ensures var pages', moments' := pages + [page.hits], moments + [b.log[script[|pages|].handle]];
            && (page.cursor.Some? ==> Underway(b, script, page.cursor, pages', moments'))
            && (page.cursor.None? ==> Stopped(b, script, Exhausted, pages', moments'))
  {
    LoggedOneMore(a.log, b.log, made, script, pages, moments, b.log[script[|pages|].handle], page.hits);
  }

  // A reader that follows the cursors of its pages while hosts complete and other
  // readers poll in any order.
  method FollowCursors(job: SearchJob, script: seq<Round>)
    returns (pages: seq<seq<Hit>>, ending: Ending, ghost moments: seq<Moment>)
    requires job.Valid() && FreshFor(job, Handles(script))
    modifies job
    // The moments are those of the reader's own polls, as the job logged them.
    ensures job.Valid() && Logged(job.log, script, pages, moments)
    // The pages join to a prefix of the admitted hits exactly when each was made
    // while the chain was steady.
    ensures Concat(pages) <= job.arrivals.admitted <==> AlwaysSteady(moments, pages)
    // Once no cursor is returned they are all of them exactly when the chain was
    // steady to the end.
    ensures ending.Exhausted? ==>
              && job.pendingHosts == {} && pages != []
              && (Concat(pages) == job.arrivals.admitted <==> SteadyToTheLast(moments, pages))
    // Without a drop: a prefix of the first distinct hits received, in the end all.
    ensures job.arrivals.dropped == {} ==> Concat(pages) <= FirstHits(job.limit, job.arrivals.history)
    ensures job.arrivals.dropped == {} && ending.Exhausted? ==>
              Concat(pages) == FirstHits(job.limit, job.arrivals.history)
    // While at most 256 handles exist the reader is never refused.
    ensures |old(job.cursors)| + |Handles(script)| <= MAX_CURSORS_PER_JOB ==> ending != Refused
    ensures ending == Open ==> |pages| == |script|
  {
    ReaderStarts(TrailOf(job), script);
    assert script[0..] == script;
    pages, ending, moments := ReadOn(job, script, None, [], []);
    WhatWasRead(job.limit, Merge(job.results, job.seen, job.truncated), TrailOf(job), script, ending, pages, moments);
  }

  lemma WhatWasRead(limit: nat, m: Merge, b: Trail, script: seq<Round>, ending: Ending, pages: seq<seq<Hit>>,
                    moments: seq<Moment>)
    requires Merged(limit, m, b.arrivals) && Stopped(b, script, ending, pages, moments)
    ensures Concat(pages) <= b.arrivals.admitted <==> AlwaysSteady(moments, pages)
    ensures b.arrivals.dropped == {} ==> Concat(pages) <= FirstHits(limit, b.arrivals.history)
    ensures b.arrivals.dropped == {} && ending.Exhausted? ==> Concat(pages) == FirstHits(limit, b.arrivals.history)
  {
  }

  method ReadOn(job: SearchJob, script: seq<Round>, cursor: Option<Handle>, before: seq<seq<Hit>>,
                ghost earlier: seq<Moment>)
    returns (pages: seq<seq<Hit>>, ending: Ending, ghost moments: seq<Moment>)
    requires job.Valid() && Underway(TrailOf(job), script, cursor, before, earlier)
    modifies job
    ensures job.Valid() && Stopped(TrailOf(job), script, ending, pages, moments)
    ensures |old(job.cursors)| + |Handles(script[|before|..])| <= MAX_CURSORS_PER_JOB
            && Accepts(old(job.cursors), cursor) ==>
              ending != Refused
    decreases |script| - |before|
  {
    if |before| == |script| {
      UnderwayStops(TrailOf(job), script, cursor, before, earlier);
      return before, Open, earlier;
    }
    var round := script[|before|];
    var answer := TakeTurn(job, round, cursor, script, before, earlier);
    if answer.Err? { return before, Refused, earlier; }
    pages, moments := before + [answer.value.hits], earlier + [job.log[round.handle]];
    if answer.value.cursor.None? { return pages, Exhausted, moments; }
    pages, ending, moments := ReadOn(job, script, answer.value.cursor, pages, moments);
  }

  // ----- a run in which a reader misses a hit -----

  // An encoding in which every result, cursor and pending host takes one kilobyte,
  // and the smallest limit of a record that the configuration can set.
  function CountedSize(r: JobRecord): nat {
    1024 * Parts(r)
  }

  function Parts(r: JobRecord): nat {
    |r.results| + |r.cursors| + |r.pendingHosts|
  }

  const FOUR_KILOBYTES := Store(4096, 1_000_000, CountedSize, true, [])

  lemma WholeRecordFits(r: JobRecord)
    requires Parts(r) <= 4
    ensures Persisted(Some(FOUR_KILOBYTES), r) && Saved(Some(FOUR_KILOBYTES), r) == r
  {
    assert Shorter(r, |r.results|) == r;
    assert FitFrom(FOUR_KILOBYTES, r, |r.results|) == |r.results|;
  }

  lemma OneResultTooMany(r: JobRecord)
    requires Parts(r) == 5 && r.results != []
    ensures Persisted(Some(FOUR_KILOBYTES), r) && Saved(Some(FOUR_KILOBYTES), r) == Shorter(r, |r.results| - 1)
  {
    var n := |r.results|;
    assert Shorter(r, n) == r;
    assert Parts(Shorter(r, n - 1)) == 4;
    assert FitFrom(FOUR_KILOBYTES, r, n) == FitFrom(FOUR_KILOBYTES, r, n - 1) == n - 1;
  }

  lemma RoomForAll(cursors: map<Handle, nat>, kept: map<Handle, nat>)
    requires |cursors| <= 2 && Trimmed(cursors, kept, MAX_CURSORS_PER_JOB)
    ensures kept == cursors
  {
  }

  // The hits of two hosts, the second to arrive after the first was read.
  function Found(hits: seq<Hit>): Option<Answer> {
    Some(Answer(false, [], hits))
  }

  const START := Merge([], {}, false)

  lemma AdmitsBoth(h1: Hit, h2: Hit)
    requires h1.key != h2.key
    ensures AdmitAll(10, START, [h1, h2]) == Merge([h1, h2], {h1.key, h2.key}, false)
  {
    var one := Merge([h1], {h1.key}, false);
    assert AdmitOne(10, START, h1) == one;
    assert AdmitOne(10, one, h2) == Merge([h1, h2], {h1.key, h2.key}, false);
    assert [h1, h2][1..] == [h2];
    AdmitsOnly(10, one, h2);
    assert AdmitAll(10, START, [h1, h2]) == AdmitAll(10, AdmitOne(10, START, [h1, h2][0]), [h1, h2][1..]);
  }

  lemma AdmitsOnly(limit: nat, m: Merge, h: Hit)
    ensures AdmitAll(limit, m, [h]) == AdmitOne(limit, m, h)
  {
    assert [h][1..] == [];
    assert AdmitAll(limit, AdmitOne(limit, m, h), []) == AdmitOne(limit, m, h);
  }

  lemma BothKeys(h1: Hit, h2: Hit)
    ensures Keys([h1, h2]) == {h1.key, h2.key}
  {
    KeysAppend([h1], h2);
    KeysAppend([], h1);
    assert [] + [h1] == [h1] && [h1] + [h2] == [h1, h2];
  }

  // A first reader gets two hits and a cursor. The poll of a second reader adds a
  // cursor, and persisting drops the second hit, already read. The other host's hit
  // takes its place, so the first reader's cursor stands behind it: its chain ends,
  // the job is complete, and it never gets a hit that the job holds.
  method SkippedHitRun(id: Text, a: Host, b: Host, x: Handle, y: Handle, z: Handle, h1: Hit, h2: Hit, h3: Hit)
    returns (job: SearchJob, first: Page, last: Page)
    requires a != b && x != y && x != z && y != z && UniqueKeys([h1, h2, h3])
    ensures job.Valid()
    ensures first == Page(Running, [h1, h2], Some(x), false)
    ensures last == Page(Complete, [], None, true)
    ensures job.results == [h1, h3] && job.limit == 10 && job.arrivals.history == [h1, h2, h3]
  {
    assert [h1, h2, h3][0] == h1 && [h1, h2, h3][1] == h2 && [h1, h2, h3][2] == h3;
    var store := Some(FOUR_KILOBYTES);
    job := new SearchJob(id, 0, {a, b}, 10);
    first := FirstPart(job, a, b, x, h1, h2, store);
    DropByOtherReader(job, b, x, y, h1, h2, store);
    last := SecondPart(job, b, x, y, z, h1, h2, h3, store);
  }

  function AfterFirst(b: Host, x: Handle, h1: Hit, h2: Hit): JobRecord {
    JobRecord(10, {b}, map[], [h1, h2], false, map[x := 2], false, false)
  }

  function AfterDrop(b: Host, x: Handle, y: Handle, h1: Hit): JobRecord {
    JobRecord(10, {b}, map[], [h1], true, map[x := 2, y := 1], false, false)
  }

  function AfterAnswer(b: Host, h1: Hit, h2: Hit): JobRecord {
    JobRecord(10, {b}, map[], [h1, h2], false, map[], false, false)
  }

  function AfterLast(x: Handle, y: Handle, h1: Hit, h3: Hit): JobRecord {
    JobRecord(10, {}, map[], [h1, h3], true, map[x := 2, y := 1], false, false)
  }

  lemma FirstAnswer(a: Host, b: Host, h1: Hit, h2: Hit)
    requires a != b && h1.key != h2.key
    ensures var r := JobRecord(10, {a, b}, map[], [], false, map[], false, false);
            Saved(Some(FOUR_KILOBYTES), Received(r, {}, a, Found([h1, h2]))) == AfterAnswer(b, h1, h2)
  {
    AdmitsBoth(h1, h2);
    assert {a, b} - {a} == {b};
    WholeRecordFits(AfterAnswer(b, h1, h2));
  }

  lemma SecondAnswer(b: Host, x: Handle, y: Handle, seen: set<Key>, h1: Hit, h3: Hit)
    requires x != y && h3.key !in seen
    ensures Saved(Some(FOUR_KILOBYTES), Received(AfterDrop(b, x, y, h1), seen, b, Found([h3])))
         == AfterLast(x, y, h1, h3)
  {
    AdmitsOnly(10, Merge([h1], seen, true), h3);
    assert {b} - {b} == {};
    RoomForTwo(x, 2, y, 1);
    WholeRecordFits(AfterLast(x, y, h1, h3));
  }

  lemma RoomForOne(x: Handle, n: nat)
    ensures |map[x := n]| == 1
  {
    assert map[x := n].Keys == {x};
  }

  lemma RoomForTwo(x: Handle, n: nat, y: Handle, m: nat)
    requires x != y
    ensures |map[x := n, y := m]| == 2 && map[x := n][y := m] == map[x := n, y := m]
  {
    assert map[x := n, y := m].Keys == {x, y};
  }

  method FirstPart(job: SearchJob, a: Host, b: Host, x: Handle, h1: Hit, h2: Hit, store: Option<Store>)
    returns (first: Page)
    requires job.Valid() && a != b && h1.key != h2.key && store == Some(FOUR_KILOBYTES)
    requires job.Record() == JobRecord(10, {a, b}, map[], [], false, map[], false, false) && job.seen == {}
    requires job.arrivals == Arrivals([], [], {}) && job.delivered == map[]
    modifies job
    ensures job.Valid() && job.Record() == AfterFirst(b, x, h1, h2) && job.seen == {h1.key, h2.key}
    ensures job.arrivals.history == [h1, h2] && job.delivered.Keys == {x}
    ensures first == Page(Running, [h1, h2], Some(x), false)
  {
    FirstAnswer(a, b, h1, h2);
    BothKeys(h1, h2);
    job.CompleteHost(a, Found([h1, h2]), store);
    first := ReadFirst(job, b, x, h1, h2, store);
  }

  // The first page of a running job that has at most one cursor.
  method OpenChain(job: SearchJob, size: nat, handle: Handle, store: Option<Store>) returns (out: Result<Page, string>)
    requires job.Valid() && job.pendingHosts != {} && |job.cursors| <= 1 && 0 < size <= MAX_PAGE_SIZE
    requires handle !in job.delivered && handle !in job.cursors
    requires Persisted(store, Opened(job.Record(), size, handle))
    modifies job
    ensures job.Valid() && job.Record() == Saved(store, Opened(old(job.Record()), size, handle))
    ensures job.seen == old(job.seen) && job.arrivals.history == old(job.arrivals).history
    ensures job.delivered.Keys == old(job.delivered).Keys + {handle}
    ensures out == Ok(Page(Running, PageAt(old(job.results), 0, size), Some(handle), old(job.truncated)))
  {
    ghost var v := job.Now();
    out := job.Poll(None, Some(size), handle, store);
    OpensChain(v, size, handle, out.value.hits, out.value.cursor, job.cursors, job.delivered);
  }

  lemma OpensChain(v: View, size: nat, handle: Handle, hits: seq<Hit>, next: Option<Handle>, kept: map<Handle, nat>,
                   delivered: map<Handle, seq<Hit>>)
    requires v.running && |v.cursors| <= 1
    requires Turned(v, None, size, handle, hits, next, kept) && Continued(v, None, handle, hits, next, delivered)
    ensures hits == PageAt(v.results, 0, size) && next == Some(handle)
    ensures kept == v.cursors[handle := |hits|] && delivered.Keys == v.delivered.Keys + {handle}
  {
    OneMoreCursor(v.cursors, handle, |hits|);
    RoomForAll(v.cursors[handle := |hits|], kept);
  }

  function Opened(r: JobRecord, size: nat, handle: Handle): JobRecord {
    r.(cursors := r.cursors[handle := |PageAt(r.results, 0, size)|])
  }

  lemma OneMoreCursor(cursors: map<Handle, nat>, handle: Handle, n: nat)
    ensures |cursors[handle := n]| <= |cursors| + 1
  {
    assert cursors[handle := n].Keys == cursors.Keys + {handle};
    assert |cursors[handle := n]| == |cursors[handle := n].Keys| && |cursors| == |cursors.Keys|;
  }

  method ReadFirst(job: SearchJob, b: Host, x: Handle, h1: Hit, h2: Hit, store: Option<Store>) returns (first: Page)
    requires job.Valid() && store == Some(FOUR_KILOBYTES)
    requires job.Record() == AfterAnswer(b, h1, h2) && job.delivered == map[]
    modifies job
    ensures job.Valid() && job.Record() == AfterFirst(b, x, h1, h2) && job.seen == old(job.seen)
    ensures job.arrivals.history == old(job.arrivals).history && job.delivered.Keys == {x}
    ensures first == Page(Running, [h1, h2], Some(x), false)
  {
    assert PageAt([h1, h2], 0, 2) == [h1, h2];
    RoomForOne(x, 2);
    WholeRecordFits(AfterFirst(b, x, h1, h2));
    assert Opened(job.Record(), 2, x) == AfterFirst(b, x, h1, h2);
    var out := OpenChain(job, 2, x, store);
    first := out.value;
  }

  lemma OpenedTooLarge(b: Host, x: Handle, y: Handle, h1: Hit, h2: Hit)
    requires x != y
    ensures var r := Opened(AfterFirst(b, x, h1, h2), 1, y);
            Persisted(Some(FOUR_KILOBYTES), r) && Saved(Some(FOUR_KILOBYTES), r) == AfterDrop(b, x, y, h1)
    ensures PageAt([h1, h2], 0, 1) == [h1]
  {
    var r := AfterFirst(b, x, h1, h2).(cursors := map[x := 2, y := 1]);
    assert PageAt([h1, h2], 0, 1) == [h1];
    RoomForTwo(x, 2, y, 1);
    assert Opened(AfterFirst(b, x, h1, h2), 1, y) == r && Parts(r) == 5;
    OneResultTooMany(r);
    assert [h1, h2][..1] == [h1];
  }

  method DropByOtherReader(job: SearchJob, b: Host, x: Handle, y: Handle, h1: Hit, h2: Hit, store: Option<Store>)
    requires job.Valid() && x != y && store == Some(FOUR_KILOBYTES)
    requires job.Record() == AfterFirst(b, x, h1, h2) && job.seen == {h1.key, h2.key}
    requires job.arrivals.history == [h1, h2] && job.delivered.Keys == {x}
    modifies job
    ensures job.Valid() && job.Record() == AfterDrop(b, x, y, h1) && job.seen == {h1.key, h2.key}
    ensures job.arrivals.history == [h1, h2] && job.delivered.Keys == {x, y}
  {
    OpenedTooLarge(b, x, y, h1, h2);
    var out := OpenChain(job, 1, y, store);
  }

  method SecondPart(job: SearchJob, b: Host, x: Handle, y: Handle, z: Handle, h1: Hit, h2: Hit, h3: Hit,
                    store: Option<Store>)
    returns (last: Page)
    requires job.Valid() && x != y && x != z && y != z && store == Some(FOUR_KILOBYTES)
    requires job.Record() == AfterDrop(b, x, y, h1) && job.seen == {h1.key, h2.key} && h3.key !in job.seen
    requires job.arrivals.history == [h1, h2] && job.delivered.Keys == {x, y}
    modifies job
    ensures job.Valid() && last == Page(Complete, [], None, true)
    ensures job.results == [h1, h3] && job.arrivals.history == [h1, h2, h3]
  {
    EndSecond(job, b, x, y, h1, h3, store);
    last := ReadLast(job, x, y, z, h1, h3, store);
  }

  method EndSecond(job: SearchJob, b: Host, x: Handle, y: Handle, h1: Hit, h3: Hit, store: Option<Store>)
    requires job.Valid() && x != y && store == Some(FOUR_KILOBYTES)
    requires job.Record() == AfterDrop(b, x, y, h1) && h3.key !in job.seen
    modifies job
    ensures job.Valid() && job.Record() == AfterLast(x, y, h1, h3)
    ensures job.arrivals.history == old(job.arrivals).history + [h3] && job.delivered == old(job.delivered)
  {
    SecondAnswer(b, x, y, job.seen, h1, h3);
    job.CompleteHost(b, Found([h3]), store);
  }

  method ReadLast(job: SearchJob, x: Handle, y: Handle, z: Handle, h1: Hit, h3: Hit, store: Option<Store>)
    returns (last: Page)
    requires job.Valid() && x != y && x != z && y != z && store == Some(FOUR_KILOBYTES)
    requires job.Record() == AfterLast(x, y, h1, h3) && job.delivered.Keys == {x, y}
    modifies job
    ensures job.Valid() && last == Page(Complete, [], None, true)
    ensures job.results == [h1, h3] && job.arrivals.history == old(job.arrivals).history
  {
    assert PageAt([h1, h3], 2, 2) == [];
    RoomForTwo(x, 2, y, 1);
    WholeRecordFits(AfterLast(x, y, h1, h3));
    var out := job.Poll(Some(x), Some(2), z, store);
    assert job.Record() == AfterLast(x, y, h1, h3);
    last := out.value;
  }
}
