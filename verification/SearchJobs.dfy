// A fan-out search job as an object: completion of hosts, polling, durability and
// restart.
module SearchJobs {
  import opened Bytes
  import opened JobStore
  import opened Results
  import opened SearchMerge
  import opened Sets

  datatype HostState = HostOk | HostPartial | HostFailed

  datatype Status = Status(host: Host, state: HostState)

  // What one host returned.
  datatype Answer = Answer(truncated: bool, statuses: seq<Status>, hits: seq<Hit>)

  datatype JobRecord = JobRecord(
    limit: nat, pendingHosts: set<Host>, hostStatus: map<Host, HostState>, results: seq<Hit>,
    truncated: bool, cursors: map<Handle, nat>, lost: bool, durabilityError: bool)

  // Where records are kept: the limit of one record, that of the whole directory,
  // the size of an encoded record, whether the file operations succeed at this
  // moment, and the artifacts that are there.
  datatype Store = Store(
    maxBytes: nat, storeMaxBytes: nat, size: JobRecord -> nat, writable: bool, directory: seq<Artifact>)

  // The file name of an artifact is the id of its job with this ending.
  const JSON: Text := [46, 106, 115, 111, 110]

  datatype JobState = Running | Lost | Broken | Complete

  datatype Page = Page(state: JobState, hits: seq<Hit>, cursor: Option<Handle>, truncated: bool)

  // ----- what one step does to the record -----

  // Later reports of a host replace earlier ones.
  function Statuses(m: map<Host, HostState>, statuses: seq<Status>): map<Host, HostState> {
    if statuses == [] then m
    else
      var last := statuses[|statuses| - 1];
      Statuses(m, statuses[..|statuses| - 1])[last.host := last.state]
  }

  function WithAnswer(r: JobRecord, seen: set<Key>, a: Answer): JobRecord {
    var m := AdmitAll(r.limit, Merge(r.results, seen, r.truncated || a.truncated), a.hits);
    r.(hostStatus := Statuses(r.hostStatus, a.statuses), results := m.results, truncated := m.truncated)
  }

  function Received(r: JobRecord, seen: set<Key>, host: Host, answer: Option<Answer>): JobRecord {
    var r' := r.(pendingHosts := r.pendingHosts - {host});
    match answer
    case None => r'.(hostStatus := r.hostStatus[host := HostFailed])
    case Some(a) => WithAnswer(r', seen, a)
  }

  // The hits that an answer brings and that are admitted.
  function Incoming(r: JobRecord, seen: set<Key>, answer: Option<Answer>): seq<Hit> {
    match answer
    case None => []
    case Some(a) => Admitted(r.limit, Merge(r.results, seen, r.truncated || a.truncated), a.hits)
  }

  function HitsOf(answer: Option<Answer>): seq<Hit> {
    if answer.Some? then answer.value.hits else []
  }

  lemma NothingIncoming(g: Arrivals, seen: set<Key>)
    ensures g.history + [] == g.history && g.admitted + [] == g.admitted && seen + Keys([]) == seen
  {
  }

  // The keys of results cut off at the end.
  function CutOff(before: seq<Hit>, after: seq<Hit>): set<Key> {
    if |after| <= |before| then Keys(before[|after|..]) else {}
  }

  // A failure to persist ends the job; otherwise the host alone leaves. The
  // truncation flag is one-way.
  ghost predicate Completed(r: JobRecord, host: Host, answer: Option<Answer>, r': JobRecord) {
    && (r'.durabilityError != r.durabilityError ==> r'.durabilityError && r'.pendingHosts == {})
    && (!r'.durabilityError ==> r'.pendingHosts == r.pendingHosts - {host})
    && (r.truncated || (answer.Some? && answer.value.truncated) ==> r'.truncated)
  }

  // A record that cannot be kept ends the job.
  lemma SavedExactly(r: JobRecord, store: Option<Store>)
    ensures var r' := Saved(store, r);
            && r'.results <= r.results && r'.hostStatus == r.hostStatus && r'.lost == r.lost
            && r'.cursors == r.cursors && r'.limit == r.limit
            && (r'.truncated <==> r.truncated || |r'.results| < |r.results|)
            && if store.None? || (store.value.writable && store.value.size(Fitted(store, r)) <= store.value.maxBytes)
               then r'.durabilityError == r.durabilityError && r'.pendingHosts == r.pendingHosts
               else r'.durabilityError && r'.pendingHosts == {}
  {
  }

  lemma CompletionOf(r: JobRecord, seen: set<Key>, host: Host, answer: Option<Answer>, store: Option<Store>)
    ensures Completed(r, host, answer, Saved(store, Received(r, seen, host, answer)))
  {
    if answer.Some? {
      MergeGrows(r.limit, Merge(r.results, seen, r.truncated || answer.value.truncated), answer.value.hits);
    }
  }

  // The record with only the first n results.
  function Shorter(r: JobRecord, n: nat): JobRecord
    requires n <= |r.results|
  {
    r.(results := r.results[..n], truncated := r.truncated || n < |r.results|)
  }

  lemma OneShorter(r: JobRecord, n: nat)
    requires 0 < n <= |r.results|
    ensures Shorter(r, n).(results := Shorter(r, n).results[..n - 1], truncated := true) == Shorter(r, n - 1)
  {
    assert r.results[..n][..n - 1] == r.results[..n - 1];
  }

  // How many of the first n results remain when the tail is dropped until the
  // record fits.
  function FitFrom(s: Store, r: JobRecord, n: nat): (k: nat)
    requires n <= |r.results|
    ensures k <= n && (k > 0 ==> s.size(Shorter(r, k)) <= s.maxBytes)
    ensures forall m :: k < m <= n ==> s.size(Shorter(r, m)) > s.maxBytes
  {
    if n == 0 || s.size(Shorter(r, n)) <= s.maxBytes then n else FitFrom(s, r, n - 1)
  }

  function Fit(s: Store, r: JobRecord): nat {
    FitFrom(s, r, |r.results|)
  }

  function Fitted(store: Option<Store>, r: JobRecord): JobRecord {
    match store
    case None => r
    case Some(s) =>
      assert Fit(s, r) <= |r.results|;
      Shorter(r, Fit(s, r))
  }

  predicate Persisted(store: Option<Store>, r: JobRecord) {
    store.None? || (store.value.writable && store.value.size(Fitted(store, r)) <= store.value.maxBytes)
  }

  // A persistence failure ends the job for every host.
  function Saved(store: Option<Store>, r: JobRecord): JobRecord {
    if Persisted(store, r) then Fitted(store, r)
    else Fitted(store, r).(pendingHosts := {}, durabilityError := true)
  }

  // Every host that was still pending is marked failed.
  function LostStatuses(r: JobRecord): map<Host, HostState> {
    map h | h in r.hostStatus.Keys + r.pendingHosts ::
      if h in r.pendingHosts then HostFailed else r.hostStatus[h]
  }

  // ----- what the hosts reported -----

  ghost predicate NoneAbout(reports: seq<Status>, from: nat, h: Host) {
    forall j :: from <= j < |reports| ==> reports[j].host != h
  }

  // The last report about a host, or its status before there was one.
  ghost predicate LastReport(base: map<Host, HostState>, reports: seq<Status>, h: Host, state: HostState) {
    || (exists i :: 0 <= i < |reports| && reports[i] == Status(h, state) && NoneAbout(reports, i + 1, h))
    || (h in base && base[h] == state && NoneAbout(reports, 0, h))
  }

  ghost predicate StatusIsLast(m: map<Host, HostState>, base: map<Host, HostState>, reports: seq<Status>) {
    forall h, state :: (h in m && m[h] == state) <==> LastReport(base, reports, h, state)
  }

  // What a completed host reports: the statuses in its answer, or its own failure.
  function ReportsOf(host: Host, answer: Option<Answer>): seq<Status> {
    match answer
    case None => [Status(host, HostFailed)]
    case Some(a) => a.statuses
  }

  lemma OneReport(m: map<Host, HostState>, base: map<Host, HostState>, reports: seq<Status>, x: Status)
    requires StatusIsLast(m, base, reports)
    ensures StatusIsLast(m[x.host := x.state], base, reports + [x])
  {
    var all := reports + [x];
    forall h, state
      ensures (h in m[x.host := x.state] && m[x.host := x.state][h] == state) <==> LastReport(base, all, h, state)
    {
      assert all[|reports|] == x && forall j :: 0 <= j < |reports| ==> all[j] == reports[j];
      if h == x.host {
        assert NoneAbout(all, |all|, h) && forall i :: 0 <= i <= |reports| ==> !NoneAbout(all, i, h);
      } else {
        assert forall i :: 0 <= i <= |reports| ==> (NoneAbout(all, i, h) <==> NoneAbout(reports, i, h));
        assert (h in m && m[h] == state) <==> LastReport(base, reports, h, state);
      }
    }
  }

  lemma {:induction false} AllReports(m: map<Host, HostState>, base: map<Host, HostState>, reports: seq<Status>,
                                      more: seq<Status>)
    requires StatusIsLast(m, base, reports)
    ensures StatusIsLast(Statuses(m, more), base, reports + more)
  {
    if more == [] {
      assert reports + more == reports;
    } else {
      var init, x := more[..|more| - 1], more[|more| - 1];
      AllReports(m, base, reports, init);
      OneReport(Statuses(m, init), base, reports + init, x);
      assert reports + init + [x] == reports + more;
    }
  }

  // ----- invariants, on values -----

  ghost predicate Paged(results: seq<Hit>, admitted: seq<Hit>, cursors: map<Handle, nat>,
                        delivered: map<Handle, seq<Hit>>) {
    && |cursors| <= MAX_CURSORS_PER_JOB
    && forall c :: c in cursors && c in delivered ==> Chain(results, admitted, cursors[c], delivered[c])
  }

  // What every written record satisfies.
  ghost predicate Recoverable(r: JobRecord) {
    UniqueKeys(r.results) && |r.results| <= r.limit && |r.cursors| <= MAX_CURSORS_PER_JOB
  }

  // The chains that a restart can go on with: those of which no hit is missing.
  ghost function Resumable(r: JobRecord, delivered: map<Handle, seq<Hit>>): map<Handle, seq<Hit>> {
    map c | c in delivered && c in r.cursors && Chain(r.results, r.results, r.cursors[c], delivered[c]) :: delivered[c]
  }

  lemma PagesSurviveAdmission(results: seq<Hit>, admitted: seq<Hit>, added: seq<Hit>, cursors: map<Handle, nat>,
                              delivered: map<Handle, seq<Hit>>)
    requires Paged(results, admitted, cursors, delivered) && UniqueKeys(admitted + added)
    ensures Paged(results + added, admitted + added, cursors, delivered)
  {
    forall c | c in cursors && c in delivered
      ensures Chain(results + added, admitted + added, cursors[c], delivered[c])
    {
      ChainSurvivesAdmission(results, admitted, added, cursors[c], delivered[c]);
    }
  }

  lemma PagesSurviveDrop(results: seq<Hit>, shorter: seq<Hit>, admitted: seq<Hit>, cursors: map<Handle, nat>,
                         delivered: map<Handle, seq<Hit>>)
    requires Paged(results, admitted, cursors, delivered) && shorter <= results
    ensures Paged(shorter, admitted, cursors, delivered)
  {
  }

  lemma FewerCursors(results: seq<Hit>, admitted: seq<Hit>, cursors: map<Handle, nat>, fewer: map<Handle, nat>,
                     delivered: map<Handle, seq<Hit>>, room: nat)
    requires Trimmed(cursors, fewer, room) && room <= MAX_CURSORS_PER_JOB
    requires forall c :: c in cursors && c in delivered ==> Chain(results, admitted, cursors[c], delivered[c])
    ensures Paged(results, admitted, fewer, delivered)
  {
  }

  // A whole answer, with its own truncation flag.
  lemma AnswerKeeps(limit: nat, m: Merge, g: Arrivals, flag: bool, hits: seq<Hit>, cursors: map<Handle, nat>,
                    delivered: map<Handle, seq<Hit>>)
    requires Merged(limit, m, g) && Paged(m.results, g.admitted, cursors, delivered)
    ensures var m1 := m.(truncated := m.truncated || flag);
            var m', g' := AdmitAll(limit, m1, hits), ArriveAll(limit, m1, g, hits);
            Merged(limit, m', g') && Paged(m'.results, g'.admitted, cursors, delivered) && g.admitted <= g'.admitted
  {
    var m1 := m.(truncated := m.truncated || flag);
    FlagKeeps(limit, m, g, flag);
    MergedGrows(limit, m1, g, hits);
    PagesSurviveAdmission(m.results, g.admitted, Admitted(limit, m1, hits), cursors, delivered);
  }

  lemma FlagKeeps(limit: nat, m: Merge, g: Arrivals, flag: bool)
    requires Merged(limit, m, g)
    ensures Merged(limit, m.(truncated := m.truncated || flag), g)
  {
  }

  lemma DropsKeep(limit: nat, m: Merge, g: Arrivals, n: nat, cursors: map<Handle, nat>,
                  delivered: map<Handle, seq<Hit>>)
    requires Merged(limit, m, g) && Paged(m.results, g.admitted, cursors, delivered) && n <= |m.results|
    ensures Merged(limit, Cut(m, n), CutArrivals(m, g, n))
    ensures Paged(m.results[..n], g.admitted, cursors, delivered)
    ensures n == |m.results| ==> CutArrivals(m, g, n) == g
  {
    CutKeeps(limit, m, g, n);
    PagesSurviveDrop(m.results, m.results[..n], g.admitted, cursors, delivered);
    if n == |m.results| { CutNothing(m, g); }
  }

  lemma RestoredMerge(r: JobRecord)
    requires Recoverable(r)
    ensures Merged(r.limit, Merge(r.results, Keys(r.results), r.truncated), Arrivals(r.results, r.results, {}))
  {
    UniqueIsDedup(r.results);
    HeldOfAll(r.results, {});
  }

  // ----- what one poll does -----

  // What a page is made from.
  datatype View = View(running: bool, results: seq<Hit>, admitted: seq<Hit>, dropped: set<Key>,
                       cursors: map<Handle, nat>, delivered: map<Handle, seq<Hit>>)

  // What was admitted and dropped when a page was made, and where it started.
  datatype Moment = Moment(admitted: seq<Hit>, dropped: set<Key>, start: nat)

  function MomentOf(v: View, cursor: Option<Handle>): Moment
    requires Accepts(v.cursors, cursor)
  {
    Moment(v.admitted, v.dropped, StartOf(v.cursors, cursor))
  }

  predicate Accepts(cursors: map<Handle, nat>, cursor: Option<Handle>) {
    cursor.Some? ==> cursor.value in cursors
  }

  function StartOf(cursors: map<Handle, nat>, cursor: Option<Handle>): nat
    requires Accepts(cursors, cursor)
  {
    if cursor.Some? then cursors[cursor.value] else 0
  }

  // Whether the deliveries of the chain behind a cursor are known: only a restart
  // forgets them.
  predicate Known(delivered: map<Handle, seq<Hit>>, cursor: Option<Handle>) {
    cursor.Some? ==> cursor.value in delivered
  }

  function Delivered(delivered: map<Handle, seq<Hit>>, cursor: Option<Handle>): seq<Hit> {
    if cursor.Some? && cursor.value in delivered then delivered[cursor.value] else []
  }

  // The page itself, the cursor it carries and the cursors kept.
  ghost predicate Turned(v: View, cursor: Option<Handle>, size: nat, handle: Handle, hits: seq<Hit>,
                         next: Option<Handle>, cursors: map<Handle, nat>)
    requires Accepts(v.cursors, cursor)
  {
    var end := EndOf(v.results, StartOf(v.cursors, cursor), hits);
    && hits == PageAt(v.results, StartOf(v.cursors, cursor), size)
    && if v.running || end < |v.results|
       then next == Some(handle) && Trimmed(v.cursors[handle := end], cursors, MAX_CURSORS_PER_JOB)
       else next == None && cursors == v.cursors
  }

  // In plain terms: up to 1 to 64 results, 32 by default, from the reader's position
  // on; with a cursor at their end while the job runs or results are left. The
  // smallest handles beyond 256 go.
  lemma TurnedIsExact(v: View, cursor: Option<Handle>, pageSize: Option<nat>, handle: Handle, hits: seq<Hit>,
                      next: Option<Handle>, cursors: map<Handle, nat>)
    requires Accepts(v.cursors, cursor) && Turned(v, cursor, PageSize(pageSize), handle, hits, next, cursors)
    ensures var size := if pageSize.None? then 32 else if pageSize.value == 0 then 1
                        else if pageSize.value > 64 then 64 else pageSize.value;
            var start := if cursor.None? then 0 else v.cursors[cursor.value];
            var from := if start < |v.results| then start else |v.results|;
            var to := if from + size < |v.results| then from + size else |v.results|;
            && hits == v.results[from..to]
            && (next == if v.running || to < |v.results| then Some(handle) else None)
            && (next.None? ==> cursors == v.cursors)
            && (next.Some? ==> |cursors| <= 256 && forall c :: c in cursors ==>
                  cursors[c] == if c == handle then to else if c in v.cursors then v.cursors[c] else 0)
  {
  }

  ghost predicate SteadyFor(v: View, cursor: Option<Handle>, n: nat)
    requires Accepts(v.cursors, cursor) && |Delivered(v.delivered, cursor)| <= |v.admitted|
  {
    Steady(v.admitted, v.dropped, |Delivered(v.delivered, cursor)|, StartOf(v.cursors, cursor), n)
  }

  // What a page means for its chain. No chain repeats a hit. A chain without a
  // gap stays without one exactly when it is steady over the page, and a chain
  // that ends has delivered every admitted hit exactly when it is steady to the
  // end.
  ghost predicate Continued(v: View, cursor: Option<Handle>, handle: Handle, hits: seq<Hit>, next: Option<Handle>,
                            delivered: map<Handle, seq<Hit>>)
    requires Accepts(v.cursors, cursor)
  {
    if !Known(v.delivered, cursor) then delivered == v.delivered
    else
      var joined := Delivered(v.delivered, cursor);
      && UniqueKeys(joined + hits) && Keys(joined + hits) <= Keys(v.admitted)
      && (joined <= v.admitted ==> (joined + hits <= v.admitted <==> SteadyFor(v, cursor, |hits|)))
      && (joined <= v.admitted && next.None? ==>
            (joined + hits == v.admitted <==> SteadyFor(v, cursor, |v.admitted| - |joined|)))
      && delivered == if next.Some? then v.delivered[handle := joined + hits] else v.delivered
  }

  function StateOf(r: JobRecord): JobState {
    if r.pendingHosts != {} then Running
    else if r.lost then Lost
    else if r.durabilityError
            || (r.hostStatus != map[] && forall h :: h in r.hostStatus ==> r.hostStatus[h] == HostFailed)
    then Broken
    else Complete
  }

  // Running, lost, failed when the record cannot be kept or every host failed,
  // otherwise complete.
  ghost predicate StateExactly(r: JobRecord, store: Option<Store>, state: JobState) {
    var saved := store.None? ||
                 (store.value.writable && store.value.size(Fitted(store, r)) <= store.value.maxBytes);
    var allFailed := r.hostStatus != map[] && forall h :: h in r.hostStatus ==> r.hostStatus[h] == HostFailed;
    && (state == Running <==> saved && r.pendingHosts != {})
    && (state == Lost <==> saved && r.pendingHosts == {} && r.lost)
    && (state == Broken <==> !saved || (r.pendingHosts == {} && !r.lost && (r.durabilityError || allFailed)))
    && (state == Complete <==> saved && r.pendingHosts == {} && !r.lost && !r.durabilityError && !allFailed)
  }

  lemma StateIsExact(r: JobRecord, store: Option<Store>, before: JobState, state: JobState)
    requires before == StateOf(r) && state == (if Persisted(store, r) then before else Broken)
    ensures StateExactly(r, store, state)
  {
  }

  // The laws of a page follow from the invariant.
  lemma PageIsContinued(v: View, cursor: Option<Handle>, size: nat, handle: Handle, hits: seq<Hit>,
                        next: Option<Handle>, delivered: map<Handle, seq<Hit>>)
    requires UniqueKeys(v.admitted) && v.results == Held(v.admitted, v.dropped) && size > 0
    requires Accepts(v.cursors, cursor) && Known(v.delivered, cursor)
    requires Paged(v.results, v.admitted, v.cursors, v.delivered)
    requires hits == PageAt(v.results, StartOf(v.cursors, cursor), size)
    requires next.None? ==> EndOf(v.results, StartOf(v.cursors, cursor), hits) >= |v.results|
    requires delivered ==
             if next.Some? then v.delivered[handle := Delivered(v.delivered, cursor) + hits] else v.delivered
    ensures Continued(v, cursor, handle, hits, next, delivered)
    ensures Chain(v.results, v.admitted, EndOf(v.results, StartOf(v.cursors, cursor), hits),
                  Delivered(v.delivered, cursor) + hits)
  {
    PageLaws(v.admitted, v.dropped, Delivered(v.delivered, cursor), StartOf(v.cursors, cursor), size);
  }

  class SearchJob {
    const id: Text
    const created: nat
    const limit: nat
    ghost const targets: set<Host>
    var pendingHosts: set<Host>
    var hostStatus: map<Host, HostState>
    var results: seq<Hit>
    var seen: set<Key>
    var truncated: bool
    var cursors: map<Handle, nat>
    var lost: bool
    var durabilityError: bool

    // What arrived, the hosts whose own task reported, and what the chain behind
    // each handle has delivered.
    ghost var arrivals: Arrivals
    ghost var finished: set<Host>
    ghost var delivered: map<Handle, seq<Hit>>

    // The moment of every page, by the handle made for it.
    ghost var log: map<Handle, Moment>

    // The status of every host when the job began, and every report since.
    ghost const base: map<Host, HostState>
    ghost var reports: seq<Status>

    ghost predicate Valid()
      reads this
    {
      Merges() && Pages() && Lifecycle()
    }

    // The status of every host is the last one reported. Only completions change
    // statuses or reports.
    ghost predicate Reported()
      reads `hostStatus, `reports
    {
      StatusIsLast(hostStatus, base, reports)
    }

    ghost predicate Merges()
      reads `results, `seen, `truncated, `arrivals
    {
      Merged(limit, Merge(results, seen, truncated), arrivals)
    }

    ghost predicate Pages()
      reads `results, `arrivals, `cursors, `delivered
    {
      Paged(results, arrivals.admitted, cursors, delivered)
    }

    // A host leaves the pending set by its own task, by a durability failure or
    // by a restart.
    ghost predicate Lifecycle()
      reads `lost, `durabilityError, `pendingHosts, `finished
    {
      !lost && !durabilityError ==> pendingHosts == targets - finished
    }

    constructor (id: Text, created: nat, targets: set<Host>, limit: nat)
      ensures Valid() && Reported() && fresh(this)
      ensures this.id == id && this.created == created && this.targets == targets
      ensures Record() == JobRecord(limit, targets, map[], [], false, map[], false, false) && seen == {}
      ensures arrivals == Arrivals([], [], {}) && finished == {} && delivered == map[] && log == map[]
      ensures base == map[] && reports == []
    {
      this.id, this.created, this.targets, this.limit := id, created, targets, limit;
      pendingHosts, hostStatus := targets, map[];
      results, seen, truncated, cursors := [], {}, false, map[];
      lost, durabilityError := false, false;
      arrivals, finished, delivered, log := Arrivals([], [], {}), {}, map[], map[];
      base, reports := map[], [];
    }

    // load after a restart: a record with pending hosts is a lost job. The hosts,
    // the finished tasks and the deliveries of the original job are known to the
    // proof only.
    constructor Restored(id: Text, created: nat, r: JobRecord, ghost targets: set<Host>, ghost finished: set<Host>,
                         ghost delivered: map<Handle, seq<Hit>>)
      requires Recoverable(r)
      requires !r.lost && !r.durabilityError ==> r.pendingHosts == targets - finished
      ensures Valid() && Reported() && this.id == id && this.created == created
      ensures this.targets == targets && this.finished == finished
      ensures Record() == r.(pendingHosts := {}, hostStatus := LostStatuses(r), lost := r.lost || r.pendingHosts != {})
      ensures r.pendingHosts != {} ==> StateOf(Record()) == Lost
      ensures arrivals == Arrivals(r.results, r.results, {}) && this.delivered == Resumable(r, delivered)
      ensures log == map[] && base == hostStatus && reports == []
      // A chain of which no hit is missing goes on.
      ensures forall c :: c in this.delivered ==> c in delivered && this.delivered[c] == delivered[c]
      ensures forall c | c in delivered && c in r.cursors :: Chain(r.results, r.results, r.cursors[c], delivered[c]) ==>
                c in this.delivered
      // Every pending host is marked failed, and no other status changes.
      ensures forall h :: h in hostStatus <==> h in r.hostStatus || h in r.pendingHosts
      ensures forall h :: h in r.pendingHosts ==> hostStatus[h] == HostFailed
      ensures forall h :: h in r.hostStatus && h !in r.pendingHosts ==> hostStatus[h] == r.hostStatus[h]
    {
      this.id, this.created, this.limit := id, created, r.limit;
      this.targets, this.finished := targets, finished;
      pendingHosts := {};
      hostStatus := LostStatuses(r);
      results, seen, truncated, cursors := r.results, Keys(r.results), r.truncated, r.cursors;
      lost := r.lost || r.pendingHosts != {};
      durabilityError := r.durabilityError;
      arrivals := Arrivals(r.results, r.results, {});
      this.delivered, log := Resumable(r, delivered), map[];
      base, reports := LostStatuses(r), [];
      new;
      RestoredMerge(r);
    }

    function Record(): JobRecord
      reads this
    {
      JobRecord(limit, pendingHosts, hostStatus, results, truncated, cursors, lost, durabilityError)
    }

    // ----- merging -----

    // merge_result
    method MergeResult(answer: Answer)
      requires Merges() && Pages()
      modifies `results, `seen, `truncated, `arrivals, `hostStatus, `reports
      ensures Merges() && Pages() && reports == old(reports) + answer.statuses
      ensures old(Reported()) ==> Reported()
      ensures Record() == WithAnswer(old(Record()), old(seen), answer)
      ensures seen == old(seen) + Keys(answer.hits)
      ensures arrivals.history == old(arrivals).history + answer.hits
      ensures arrivals.admitted == old(arrivals).admitted + Incoming(old(Record()), old(seen), Some(answer))
      ensures arrivals.dropped == old(arrivals).dropped
    {
      ghost var m, g := Merge(results, seen, truncated), arrivals;
      ghost var m1 := m.(truncated := m.truncated || answer.truncated);
      AnswerKeeps(limit, m, g, answer.truncated, answer.hits, cursors, delivered);
      SeenGrows(limit, m1, answer.hits);
      MergeFields(answer);
      arrivals := ArriveAll(limit, m1, g, answer.hits);
    }

    method MergeFields(answer: Answer)
      modifies `results, `seen, `truncated, `hostStatus, `reports
      ensures reports == old(reports) + answer.statuses && (old(Reported()) ==> Reported())
      ensures Record() == WithAnswer(old(Record()), old(seen), answer)
      ensures Merge(results, seen, truncated) ==
              AdmitAll(limit, Merge(old(results), old(seen), old(truncated) || answer.truncated), answer.hits)
    {
      truncated := truncated || answer.truncated;
      MergeStatuses(answer.statuses);
      MergeHits(answer.hits);
    }

    method MergeHits(hits: seq<Hit>)
      modifies `results, `seen, `truncated
      ensures Merge(results, seen, truncated) == AdmitAll(limit, old(Merge(results, seen, truncated)), hits)
    {
      for i := 0 to |hits|
        invariant AdmitAll(limit, Merge(results, seen, truncated), hits[i..]) ==
                  AdmitAll(limit, old(Merge(results, seen, truncated)), hits)
      {
        var hit := hits[i];
        assert hits[i..][1..] == hits[i + 1..];
        var isNew := hit.key !in seen;
        seen := seen + {hit.key};
        if isNew && |results| < limit {
          results := results + [hit];
        } else {
          truncated := true;
        }
      }
    }

    method MergeStatuses(statuses: seq<Status>)
      modifies `hostStatus, `reports
      ensures reports == old(reports) + statuses && (old(Reported()) ==> Reported())
      ensures hostStatus == Statuses(old(hostStatus), statuses)
    {
      assert statuses[..0] == [];
      for i := 0 to |statuses|
        invariant hostStatus == Statuses(old(hostStatus), statuses[..i]) && reports == old(reports)
      {
        assert statuses[..i + 1][..i] == statuses[..i];
        hostStatus := hostStatus[statuses[i].host := statuses[i].state];
      }
      assert statuses[..|statuses|] == statuses;
      if old(Reported()) { AllReports(old(hostStatus), base, reports, statuses); }
      reports := reports + statuses;
    }

    // ----- persistence -----

    // The loop of persist: drops results from the tail until the record fits.
    method DropUntilFit(s: Store)
      modifies `results, `truncated
      ensures Record() == Shorter(old(Record()), Fit(s, old(Record())))
    {
      ghost var r, n := Record(), |results|;
      assert Shorter(r, n) == r;
      while s.size(Record()) > s.maxBytes && results != []
        invariant n == |results| <= |r.results| && Record() == Shorter(r, n)
        invariant FitFrom(s, r, n) == Fit(s, r)
        decreases n
      {
        OneShorter(r, n);
        DropOne();
        n := n - 1;
      }
    }

    method DropOne()
      requires results != []
      modifies `results, `truncated
      ensures Record() == old(Record()).(results := old(results)[..|old(results)| - 1], truncated := true)
    {
      results := results[..|results| - 1];
      truncated := true;
    }

    method FitAndAccount(s: Store)
      requires Merges() && Pages()
      modifies `results, `truncated, `arrivals
      ensures Merges() && Pages()
      ensures Record() == Shorter(old(Record()), Fit(s, old(Record())))
      ensures arrivals.history == old(arrivals).history && arrivals.admitted == old(arrivals).admitted
      ensures arrivals.dropped == old(arrivals).dropped + CutOff(old(results), results)
    {
      ghost var m, n := Merge(results, seen, truncated), Fit(s, Record());
      DropUntilFit(s);
      AccountForDrops(m, n);
    }

    // The dropped results are the last ones of m.
    ghost method AccountForDrops(m: Merge, n: nat)
      requires Merged(limit, m, arrivals) && Paged(m.results, arrivals.admitted, cursors, delivered)
      requires n <= |m.results| && Merge(results, seen, truncated) == Cut(m, n)
      modifies `arrivals
      ensures Merges() && Pages()
      ensures arrivals == old(arrivals).(dropped := old(arrivals).dropped + CutOff(m.results, results))
    {
      DropsKeep(limit, m, arrivals, n, cursors, delivered);
      arrivals := CutArrivals(m, arrivals, n);
    }

    function OwnArtifact(s: Store): Artifact
      reads this
    {
      Artifact(created, id + JSON, s.size(Record()))
    }

    // persist. `held` is what the store has of this job afterwards: a write that
    // succeeds may be followed by the removal of the very record it wrote.
    method Persist(store: Option<Store>) returns (ok: bool, ghost held: Option<JobRecord>)
      requires Valid()
      modifies `results, `truncated, `arrivals
      ensures Valid() && Record() == Fitted(store, old(Record())) && ok == Persisted(store, old(Record()))
      ensures arrivals.history == old(arrivals).history && arrivals.admitted == old(arrivals).admitted
      ensures arrivals.dropped == old(arrivals).dropped + CutOff(old(results), results)
      ensures store.Some? && ok ==>
                && Recoverable(Record())
                && held == if Survives(store.value.directory, OwnArtifact(store.value), store.value.storeMaxBytes)
                           then Some(Record()) else None
    {
      held := None;
      if store.None? { return true, None; }
      FitAndAccount(store.value);
      if store.value.size(Record()) > store.value.maxBytes { return false, None; }
      if !store.value.writable { return false, None; }
      var own := OwnArtifact(store.value);
      var kept := Commit(store.value.directory, own, store.value.storeMaxBytes);
      HeldIsUnique(arrivals.admitted, arrivals.dropped);
      held := if own in kept then Some(Record()) else None;
      ok := true;
    }

    method PersistOrFail(store: Option<Store>) returns (ok: bool)
      requires Valid()
      modifies `results, `truncated, `arrivals, `durabilityError, `pendingHosts
      ensures Valid() && Record() == Saved(store, old(Record())) && ok == Persisted(store, old(Record()))
      ensures arrivals.history == old(arrivals).history && arrivals.admitted == old(arrivals).admitted
      ensures arrivals.dropped == old(arrivals).dropped + CutOff(old(results), results)
    {
      ghost var held;
      ok, held := Persist(store);
      if !ok { EndBroken(); }
    }

    method EndBroken()
      requires Valid()
      modifies `durabilityError, `pendingHosts
      ensures Valid() && Record() == old(Record()).(pendingHosts := {}, durabilityError := true)
    {
      durabilityError := true;
      pendingHosts := {};
    }

    // ----- the completion of one host -----

    // The locked step after a host's own task ended: with its answer, or with an
    // error or timeout.
    method CompleteHost(host: Host, answer: Option<Answer>, store: Option<Store>)
      requires Valid()
      modifies `pendingHosts, `hostStatus, `results, `seen, `truncated, `durabilityError, `arrivals, `finished, `reports
      ensures Valid() && Record() == Saved(store, Received(old(Record()), old(seen), host, answer))
      ensures finished == old(finished) + {host} && reports == old(reports) + ReportsOf(host, answer)
      ensures old(Reported()) ==> Reported()
      ensures seen == old(seen) + Keys(HitsOf(answer))
      ensures arrivals.history == old(arrivals).history + HitsOf(answer)
      ensures arrivals.admitted == old(arrivals).admitted + Incoming(old(Record()), old(seen), answer)
      ensures arrivals.dropped ==
              old(arrivals).dropped + CutOff(Received(old(Record()), old(seen), host, answer).results, results)
    {
      Receive(host, answer);
      var ok := PersistOrFail(store);
    }

    method Receive(host: Host, answer: Option<Answer>)
      requires Valid()
      modifies `pendingHosts, `hostStatus, `results, `seen, `truncated, `arrivals, `finished, `reports
      ensures Valid() && Record() == Received(old(Record()), old(seen), host, answer)
      ensures finished == old(finished) + {host} && reports == old(reports) + ReportsOf(host, answer)
      ensures old(Reported()) ==> Reported()
      ensures seen == old(seen) + Keys(HitsOf(answer))
      ensures arrivals.history == old(arrivals).history + HitsOf(answer)
      ensures arrivals.admitted == old(arrivals).admitted + Incoming(old(Record()), old(seen), answer)
      ensures arrivals.dropped == old(arrivals).dropped
    {
      match answer {
        case Some(a) =>
          ReceiveAnswer(host, a);
        case None =>
          HostHasFailed(host);
          NothingIncoming(arrivals, seen);
      }
    }

    method ReceiveAnswer(host: Host, a: Answer)
      requires Valid()
      modifies `pendingHosts, `hostStatus, `results, `seen, `truncated, `arrivals, `finished, `reports
      ensures Valid() && Record() == Received(old(Record()), old(seen), host, Some(a))
      ensures finished == old(finished) + {host} && reports == old(reports) + a.statuses
      ensures old(Reported()) ==> Reported()
      ensures seen == old(seen) + Keys(a.hits)
      ensures arrivals.history == old(arrivals).history + a.hits
      ensures arrivals.admitted == old(arrivals).admitted + Incoming(old(Record()), old(seen), Some(a))
      ensures arrivals.dropped == old(arrivals).dropped
    {
      HostIsDone(host);
      MergeResult(a);
    }

    method HostHasFailed(host: Host)
      requires Valid()
      modifies `pendingHosts, `hostStatus, `finished, `reports
      ensures Valid() && Record() == Received(old(Record()), seen, host, None) && finished == old(finished) + {host}
      ensures reports == old(reports) + [Status(host, HostFailed)] && (old(Reported()) ==> Reported())
    {
      if Reported() { OneReport(hostStatus, base, reports, Status(host, HostFailed)); }
      HostIsDone(host);
      hostStatus := hostStatus[host := HostFailed];
      reports := reports + [Status(host, HostFailed)];
    }

    method HostIsDone(host: Host)
      requires Lifecycle()
      modifies `pendingHosts, `finished
      ensures Lifecycle() && pendingHosts == old(pendingHosts) - {host} && finished == old(finished) + {host}
    {
      pendingHosts := pendingHosts - {host};
      finished := finished + {host};
      assert targets - old(finished) - {host} == targets - finished;
    }

    // ----- polling -----

    // Adds a cursor and evicts the smallest handles, only down to the limit: an
    // evicted cursor is forgotten, and none changes its position.
    method InsertCursor(handle: Handle, position: nat)
      requires |cursors| <= MAX_CURSORS_PER_JOB
      modifies `cursors
      ensures Trimmed(old(cursors)[handle := position], cursors, MAX_CURSORS_PER_JOB)
    {
      cursors := cursors[handle := position];
      ghost var all := cursors;
      while |cursors| > MAX_CURSORS_PER_JOB
        invariant |cursors| <= |all| && Trimmed(all, cursors, |cursors|)
        invariant |cursors| < |all| ==> |cursors| >= MAX_CURSORS_PER_JOB
        decreases |cursors|
      {
        var oldest := Least(cursors.Keys);
        TrimOneMore(all, cursors, oldest);
        cursors := cursors - {oldest};
      }
    }

    ghost function Now(): View
      reads `pendingHosts, `results, `arrivals, `cursors, `delivered
    {
      View(pendingHosts != {}, results, arrivals.admitted, arrivals.dropped, cursors, delivered)
    }

    // status_inner for one page. `handle` is the new random handle.
    method Poll(cursor: Option<Handle>, pageSize: Option<nat>, handle: Handle, store: Option<Store>)
      returns (out: Result<Page, string>)
      requires Valid() && handle !in delivered && handle !in cursors
      modifies `results, `truncated, `cursors, `durabilityError, `pendingHosts, `delivered, `arrivals, `log
      ensures Valid()
      ensures out.Err? <==> cursor.Some? && cursor.value !in old(cursors)
      ensures out.Err? ==> unchanged(this)
      ensures out.Ok? ==>
                && Turned(old(Now()), cursor, PageSize(pageSize), handle, out.value.hits, out.value.cursor, cursors)
                && Continued(old(Now()), cursor, handle, out.value.hits, out.value.cursor, delivered)
                && log == old(log)[handle := MomentOf(old(Now()), cursor)]
      ensures out.Ok? ==>
                && Record() == Saved(store, old(Record()).(cursors := cursors))
                && out.value.truncated == old(truncated)
      ensures arrivals.history == old(arrivals).history && arrivals.admitted == old(arrivals).admitted
      ensures arrivals.dropped == old(arrivals).dropped + CutOff(old(results), results)
      ensures out.Ok? ==> StateExactly(old(Record()).(cursors := cursors), store, out.value.state)
      // "complete" is reported only when every target's own task has ended.
      ensures out.Ok? && out.value.state == Complete ==> targets <= finished && !lost && !durabilityError
    {
      if cursor.Some? && cursor.value !in cursors {
        return Err("invalid cursor for search job");
      }
      var page := PollKnown(cursor, pageSize, handle, store);
      out := Ok(page);
    }

    method PollKnown(cursor: Option<Handle>, pageSize: Option<nat>, handle: Handle, store: Option<Store>)
      returns (page: Page)
      requires Valid() && handle !in delivered && handle !in cursors && Accepts(cursors, cursor)
      modifies `results, `truncated, `cursors, `durabilityError, `pendingHosts, `delivered, `arrivals, `log
      ensures Valid()
      ensures Turned(old(Now()), cursor, PageSize(pageSize), handle, page.hits, page.cursor, cursors)
      ensures Continued(old(Now()), cursor, handle, page.hits, page.cursor, delivered)
      ensures log == old(log)[handle := MomentOf(old(Now()), cursor)]
      ensures Record() == Saved(store, old(Record()).(cursors := cursors)) && page.truncated == old(truncated)
      ensures StateExactly(old(Record()).(cursors := cursors), store, page.state)
      ensures arrivals.history == old(arrivals).history && arrivals.admitted == old(arrivals).admitted
      ensures arrivals.dropped == old(arrivals).dropped + CutOff(old(results), results)
      ensures page.state == Complete ==> targets <= finished && !lost && !durabilityError
    {
      ghost var r := Record();
      var state, flag := StateOf(Record()), truncated;
      if state == Complete { EmptyDifference(targets, finished); }
      var hits, next, ok := Turn(cursor, PageSize(pageSize), handle, store);
      page := Page(if ok then state else Broken, hits, next, flag);
      StateIsExact(r.(cursors := cursors), store, state, page.state);
    }

    // The page, the cursors and the record.
    method Turn(cursor: Option<Handle>, size: nat, handle: Handle, store: Option<Store>)
      returns (hits: seq<Hit>, next: Option<Handle>, ok: bool)
      requires Valid() && handle !in delivered && handle !in cursors && 0 < size
      requires Accepts(cursors, cursor)
      modifies `results, `truncated, `cursors, `durabilityError, `pendingHosts, `delivered, `arrivals, `log
      ensures Valid()
      ensures Turned(old(Now()), cursor, size, handle, hits, next, cursors)
      ensures Continued(old(Now()), cursor, handle, hits, next, delivered)
      ensures log == old(log)[handle := MomentOf(old(Now()), cursor)]
      ensures var r := old(Record()).(cursors := cursors); Record() == Saved(store, r) && ok == Persisted(store, r)
      ensures arrivals.history == old(arrivals).history && arrivals.admitted == old(arrivals).admitted
      ensures arrivals.dropped == old(arrivals).dropped + CutOff(old(results), results)
    {
      hits, next := Advance(cursor, size, handle);
      ok := PersistOrFail(store);
    }

    method Advance(cursor: Option<Handle>, size: nat, handle: Handle) returns (hits: seq<Hit>, next: Option<Handle>)
      requires Valid() && handle !in delivered && handle !in cursors && 0 < size
      requires Accepts(cursors, cursor)
      modifies `cursors, `delivered, `log
      ensures Valid() && Record() == old(Record()).(cursors := cursors)
      ensures Turned(old(Now()), cursor, size, handle, hits, next, cursors)
      ensures Continued(old(Now()), cursor, handle, hits, next, delivered)
      ensures log == old(log)[handle := MomentOf(old(Now()), cursor)]
    {
      MergedFacts(limit, Merge(results, seen, truncated), arrivals);
      hits, next := NextPage(cursor, size, handle);
    }

    method NextPage(cursor: Option<Handle>, size: nat, handle: Handle) returns (hits: seq<Hit>, next: Option<Handle>)
      requires Pages() && UniqueKeys(arrivals.admitted) && results == Held(arrivals.admitted, arrivals.dropped)
      requires handle !in delivered && handle !in cursors && 0 < size
      requires Accepts(cursors, cursor)
      modifies `cursors, `delivered, `log
      ensures Pages() && Record() == old(Record()).(cursors := cursors)
      ensures Turned(old(Now()), cursor, size, handle, hits, next, cursors)
      ensures Continued(old(Now()), cursor, handle, hits, next, delivered)
      ensures log == old(log)[handle := MomentOf(old(Now()), cursor)]
    {
      ghost var v := Now();
      var end;
      hits, end := ReadPage(StartOf(cursors, cursor), size);
      next := if pendingHosts != {} || end < |results| then Some(handle) else None;
      ghost var joined, known := Delivered(delivered, cursor), Known(delivered, cursor);
      if known {
        PageIsContinued(v, cursor, size, handle, hits, next,
                        if next.Some? then delivered[handle := joined + hits] else delivered);
      }
      if next.Some? { IssueCursor(handle, end, joined + hits, known); }
      log := log[handle := MomentOf(v, cursor)];
    }

    method ReadPage(start: nat, size: nat) returns (page: seq<Hit>, end: nat)
      requires size > 0
      ensures page == PageAt(results, start, size)
      ensures end == EndOf(results, start, page) <= |results|
    {
      var all := results;
      var from := Min(start, |all|);
      end, page := from, [];
      while end < |all| && |page| < size
        invariant from <= end <= |all| && |page| == end - from <= size && page == all[from..end]
        decreases |all| - end
      {
        page := page + [all[end]];
        end := end + 1;
      }
    }

    method IssueCursor(handle: Handle, position: nat, ghost chain: seq<Hit>, ghost known: bool)
      requires Pages() && handle !in delivered && handle !in cursors
      requires known ==> Chain(results, arrivals.admitted, position, chain)
      modifies `cursors, `delivered
      ensures Pages()
      ensures Trimmed(old(cursors)[handle := position], cursors, MAX_CURSORS_PER_JOB)
      ensures delivered == if known then old(delivered)[handle := chain] else old(delivered)
    {
      ghost var all := cursors[handle := position];
      InsertCursor(handle, position);
      if known { delivered := delivered[handle := chain]; }
      FewerCursors(results, arrivals.admitted, all, cursors, delivered, MAX_CURSORS_PER_JOB);
    }
  }
}
