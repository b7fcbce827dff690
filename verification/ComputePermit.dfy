// The one-job admission of the OCR worker: a permit that belongs to the native
// work, not to the waiting request.
module ComputePermit {
  import opened Bytes
  import opened Results
  import opened ResultCache

  datatype Stage =
    | Preparing   // blocking decode and hash own the permit
    | Decided     // the request future owns the permit
    | Native      // the native job owns the permit
    | Ended

  // `waiting`: the HTTP waiter is still there.
  datatype Job = Job(key: ContentKey, taskClass: Option<Text>, stage: Stage, waiting: bool, answer: Option<Value>)

  datatype Worker = Worker(now: nat, permits: nat, jobs: map<nat, Job>, rows: seq<Row>, inferences: seq<ContentKey>)

  datatype Event =
    | Tick(ms: nat)
    | Request(id: nat, key: ContentKey, taskClass: Option<Text>)
    | Prepared(id: nat, valid: bool)
    | Reject(id: nat)                             // load, GPU or deadline check failed
    | Start(id: nat)                              // the native job is spawned
    | Finish(id: nat, result: Option<Value>)      // the native job ends
    | Leave(id: nat)                              // waiter timed out or disconnected

  function Set(w: Worker, id: nat, stage: Stage): Worker
    requires id in w.jobs
  {
    w.(jobs := w.jobs[id := w.jobs[id].(stage := stage)])
  }

  function Release(w: Worker, id: nat): Worker
    requires id in w.jobs
  {
    Set(w, id, Ended).(permits := w.permits + 1)
  }

  function Answered(w: Worker, id: nat, v: Value): Worker
    requires id in w.jobs
  {
    var w' := Release(w, id);
    w'.(jobs := w'.jobs[id := w'.jobs[id].(answer := Some(v))])
  }

  predicate ClassMatches(requested: Option<Text>, v: Value) {
    requested.None? || requested == v.taskClass
  }

  function Next(w: Worker, e: Event): Worker {
    match e
    case Tick(ms) => w.(now := w.now + ms)
    case Request(id, key, cls) =>
      if id in w.jobs || w.permits == 0 then w   // busy
      else w.(permits := w.permits - 1, jobs := w.jobs[id := Job(key, cls, Preparing, true, None)])
    case Prepared(id, valid) =>
      if id !in w.jobs || !w.jobs[id].stage.Preparing? then w
      else if !valid then Release(w, id)
      else
        var live := Fresh(w.rows, w.now);
        var w' := w.(rows := live);
        if !w.jobs[id].waiting then Release(w', id)
        else
          (match Lookup(live, w.jobs[id].key)
           case Some(v) => if ClassMatches(w.jobs[id].taskClass, v) then Answered(w', id, v) else Release(w', id)
           case None => Set(w', id, Decided))
    case Reject(id) =>
      if id in w.jobs && w.jobs[id].stage.Decided? then Release(w, id) else w
    case Start(id) =>
      if id in w.jobs && w.jobs[id].stage.Decided?
      then Set(w, id, Native).(inferences := w.inferences + [w.jobs[id].key]) else w
    case Finish(id, result) =>
      if id !in w.jobs || !w.jobs[id].stage.Native? then w
      else
        (match result
         case None => Release(w, id)
         case Some(v) =>
           var w' := w.(rows := Inserted(w.rows, w.jobs[id].key, v, w.now));
           if w.jobs[id].waiting then Answered(w', id, v) else Release(w', id))
    case Leave(id) =>
      if id !in w.jobs || w.jobs[id].stage.Ended? then w
      else if w.jobs[id].stage.Decided? then Release(w, id)
      else w.(jobs := w.jobs[id := w.jobs[id].(waiting := false)])
  }

  function Run(w: Worker, events: seq<Event>): Worker
    decreases |events|
  {
    if events == [] then w else Run(Next(w, events[0]), events[1..])
  }

  const START := Worker(0, 1, map[], [], [])

  // ----- one native job -----

  predicate Holds(w: Worker, id: nat) {
    id in w.jobs && !w.jobs[id].stage.Ended?
  }

  // The permit is free, or exactly one job holds it.
  ghost predicate OnePermit(w: Worker) {
    && w.permits <= 1
    && (w.permits == 1 ==> forall id :: id in w.jobs ==> !Holds(w, id))
    && (w.permits == 0 ==> exists id :: Holds(w, id))
    && (forall a, b :: a in w.jobs && b in w.jobs && Holds(w, a) && Holds(w, b) ==> a == b)
  }

  ghost predicate GoodRows(w: Worker) {
    Bounded(w.rows) && DistinctKeys(w.rows) && Ordered(w.rows, w.now)
  }

  lemma ReleaseKeepsOne(w: Worker, id: nat)
    requires OnePermit(w) && Holds(w, id)
    ensures OnePermit(Release(w, id))
  {
  }

  lemma HolderStays(w: Worker, id: nat, job: Job)
    requires OnePermit(w) && Holds(w, id) && !job.stage.Ended?
    ensures OnePermit(w.(jobs := w.jobs[id := job]))
  {
    var w' := w.(jobs := w.jobs[id := job]);
    assert Holds(w', id);
    forall a, b | a in w'.jobs && b in w'.jobs && Holds(w', a) && Holds(w', b)
      ensures a == b
    {
      assert Holds(w, a) && Holds(w, b);
    }
  }

  lemma StepKeepsOnePermit(w: Worker, e: Event)
    requires OnePermit(w)
    ensures OnePermit(Next(w, e))
  {
    match e
    case Tick(_) =>
      if w.permits == 0 {
        var id :| Holds(w, id);
        assert Holds(Next(w, e), id);
      }
      assert Next(w, e).jobs == w.jobs;
    case Request(id, _, _) =>
      if id !in w.jobs && w.permits != 0 {
        var w' := Next(w, e);
        assert Holds(w', id);
        assert forall k :: k in w.jobs ==> !Holds(w, k) && !Holds(w', k);
      }
    case Prepared(id, valid) => PreparedKeepsOnePermit(w, id, valid);
    case Reject(id) => if Holds(w, id) { ReleaseKeepsOne(w, id); }
    case Start(id) => if Holds(w, id) { HolderStays(w, id, w.jobs[id].(stage := Native)); StartKeeps(w, id); }
    case Finish(id, result) => FinishKeepsOnePermit(w, id, result);
    case Leave(id) =>
      if Holds(w, id) {
        ReleaseKeepsOne(w, id);
        HolderStays(w, id, w.jobs[id].(waiting := false));
      }
  }

  lemma StartKeeps(w: Worker, id: nat)
    requires OnePermit(w) && Holds(w, id)
    ensures OnePermit(Next(w, Start(id)))
  {
    if w.jobs[id].stage.Decided? { assert Holds(Next(w, Start(id)), id); }
  }

  lemma OtherRows(w: Worker, rows: seq<Row>)
    requires OnePermit(w)
    ensures OnePermit(w.(rows := rows))
  {
    if w.permits == 0 {
      var id :| Holds(w, id);
      assert Holds(w.(rows := rows), id);
    }
  }

  lemma AnsweredKeepsOne(w: Worker, id: nat, v: Value)
    requires OnePermit(w) && Holds(w, id)
    ensures OnePermit(Answered(w, id, v))
  {
  }

  lemma PreparedKeepsOnePermit(w: Worker, id: nat, valid: bool)
    requires OnePermit(w)
    ensures OnePermit(Next(w, Prepared(id, valid)))
  {
    if id in w.jobs && w.jobs[id].stage.Preparing? {
      var w' := w.(rows := Fresh(w.rows, w.now));
      OtherRows(w, w'.rows);
      ReleaseKeepsOne(w, id);
      ReleaseKeepsOne(w', id);
      HolderStays(w', id, w'.jobs[id].(stage := Decided));
      var found := Lookup(w'.rows, w.jobs[id].key);
      if found.Some? { AnsweredKeepsOne(w', id, found.value); }
    }
  }

  lemma FinishKeepsOnePermit(w: Worker, id: nat, result: Option<Value>)
    requires OnePermit(w)
    ensures OnePermit(Next(w, Finish(id, result)))
  {
    if id in w.jobs && w.jobs[id].stage.Native? {
      ReleaseKeepsOne(w, id);
      if result.Some? {
        var rows := Inserted(w.rows, w.jobs[id].key, result.value, w.now);
        var w' := w.(rows := rows);
        OtherRows(w, rows);
        ReleaseKeepsOne(w', id);
        AnsweredKeepsOne(w', id, result.value);
      }
    }
  }

  lemma StepKeepsRows(w: Worker, e: Event)
    requires GoodRows(w)
    ensures GoodRows(Next(w, e))
  {
    FreshKeeps(w.rows, w.now);
    match e
    case Finish(id, Some(v)) =>
      if id in w.jobs && w.jobs[id].stage.Native? && v.size <= RETAINED_BYTES {
        InsertedKeeps(w.rows, w.jobs[id].key, v, w.now);
      }
    case _ =>
  }

  lemma {:induction false} EveryRunKeeps(w: Worker, events: seq<Event>)
    requires OnePermit(w) && GoodRows(w)
    ensures OnePermit(Run(w, events)) && GoodRows(Run(w, events))
    decreases |events|
  {
    if events != [] {
      StepKeepsOnePermit(w, events[0]);
      StepKeepsRows(w, events[0]);
      EveryRunKeeps(Next(w, events[0]), events[1..]);
    }
  }

  // Whatever waiters do, at most one native job exists, and while it exists it
  // holds the only permit, so no request is admitted.
  lemma OneNativeInference(events: seq<Event>, a: nat, b: nat)
    ensures var w := Run(START, events);
            && (a in w.jobs && b in w.jobs && w.jobs[a].stage.Native? && w.jobs[b].stage.Native? ==> a == b)
            && (a in w.jobs && w.jobs[a].stage.Native? ==>
                  w.permits == 0 && forall key, cls :: Next(w, Request(b, key, cls)) == w)
  {
    EveryRunKeeps(START, events);
    var w := Run(START, events);
    if a in w.jobs && w.jobs[a].stage.Native? { assert Holds(w, a); }
    if b in w.jobs && w.jobs[b].stage.Native? { assert Holds(w, b); }
  }

  // ----- a retained result is not computed again -----

  // A request for a retained key is answered from the cache without inference.
  lemma RetainedAnswer(w: Worker, id: nat, row: Row)
    requires GoodRows(w) && row in w.rows && !Expired(row, w.now)
    requires id in w.jobs && w.jobs[id].stage.Preparing? && w.jobs[id].waiting && w.jobs[id].key == row.key
    requires w.jobs[id].taskClass.None? || w.jobs[id].taskClass == row.value.taskClass
    ensures var w' := Next(w, Prepared(id, true));
            w'.jobs[id].answer == Some(row.value) && w'.jobs[id].stage.Ended? && w'.inferences == w.inferences
  {
    FreshIsExact(w.rows, w.now, row);
    FreshKeeps(w.rows, w.now);
    LookupOfRow(Fresh(w.rows, w.now), row);
  }

  // A request that names another task class than the retained result is refused:
  // no answer and no inference.
  lemma OtherClassIsRefused(w: Worker, id: nat, row: Row)
    requires GoodRows(w) && row in w.rows && !Expired(row, w.now)
    requires id in w.jobs && w.jobs[id].stage.Preparing? && w.jobs[id].waiting && w.jobs[id].key == row.key
    requires w.jobs[id].taskClass.Some? && w.jobs[id].taskClass != row.value.taskClass
    ensures var w' := Next(w, Prepared(id, true));
            && w'.jobs[id] == w.jobs[id].(stage := Ended) && w'.inferences == w.inferences
            && w'.permits == w.permits + 1
  {
    FreshIsExact(w.rows, w.now, row);
    FreshKeeps(w.rows, w.now);
    LookupOfRow(Fresh(w.rows, w.now), row);
  }

  // Without an unexpired result for its key a waiting request goes on to native work.
  lemma MissGoesOn(w: Worker, id: nat)
    requires GoodRows(w) && id in w.jobs && w.jobs[id].stage.Preparing? && w.jobs[id].waiting
    requires forall row :: row in w.rows && row.key == w.jobs[id].key ==> Expired(row, w.now)
    ensures Next(w, Prepared(id, true)).jobs[id] == w.jobs[id].(stage := Decided)
  {
    LookupIsExact(w.rows, w.jobs[id].key, w.now);
  }

  // The result of native work goes to its own waiter, whoever else asked, and to
  // nobody when the waiter is gone; either way the permit is free again.
  lemma WaiterGetsItsResult(w: Worker, id: nat, result: Option<Value>)
    requires id in w.jobs && w.jobs[id].stage.Native?
    ensures var w' := Next(w, Finish(id, result));
            && w'.jobs[id].stage.Ended? && w'.permits == w.permits + 1
            && w'.jobs[id].answer == (if result.Some? && w.jobs[id].waiting then result else w.jobs[id].answer)
            && forall k :: k in w.jobs && k != id ==> k in w'.jobs && w'.jobs[k] == w.jobs[k]
  {
  }

  // Who gives up the permit: a request whose waiter leaves after the decision, or
  // left before it, does so at once; preparation and native work go on holding it.
  lemma LeavingIsExact(w: Worker, id: nat)
    requires Holds(w, id)
    ensures var w' := Next(w, Leave(id));
            if w.jobs[id].stage.Decided? then w'.jobs[id].stage.Ended? && w'.permits == w.permits + 1
            else w'.jobs[id] == w.jobs[id].(waiting := false) && w'.permits == w.permits
    ensures w.jobs[id].stage.Preparing? && !w.jobs[id].waiting ==>
              forall valid :: var w' := Next(w, Prepared(id, valid));
                w'.jobs[id].stage.Ended? && w'.permits == w.permits + 1 && w'.jobs[id].answer == w.jobs[id].answer
  {
  }

  ghost predicate DecidedHasWaiter(w: Worker) {
    forall id :: id in w.jobs && w.jobs[id].stage.Decided? ==> w.jobs[id].waiting
  }

  // In every run a permit between decision and start has a waiter behind it.
  lemma {:induction false} NoPermitWithoutWaiter(w: Worker, events: seq<Event>)
    requires DecidedHasWaiter(w)
    ensures DecidedHasWaiter(Run(w, events))
    decreases |events|
  {
    if events != [] { NoPermitWithoutWaiter(Next(w, events[0]), events[1..]); }
  }

  // An answer is never taken back or changed.
  lemma AnswersStay(w: Worker, e: Event, id: nat)
    requires OnePermit(w) && id in w.jobs && (w.jobs[id].answer.Some? ==> w.jobs[id].stage.Ended?)
    ensures id in Next(w, e).jobs && Next(w, e).jobs[id].key == w.jobs[id].key
    ensures Next(w, e).jobs[id].answer.Some? ==> Next(w, e).jobs[id].stage.Ended?
    ensures w.jobs[id].answer.Some? ==> Next(w, e).jobs[id].answer == w.jobs[id].answer
  {
  }

  // A retained result is lost before it expires only to a newer result for its key,
  // or because it and all newer ones do not fit beside a new one.
  lemma RowIsLostExactly(w: Worker, e: Event, row: Row)
    requires GoodRows(w) && row in w.rows && !Expired(row, w.now) && row !in Next(w, e).rows
    ensures e.Finish? && e.result.Some? && e.id in w.jobs && w.jobs[e.id].stage.Native?
    ensures e.result.value.size <= RETAINED_BYTES
    ensures w.jobs[e.id].key == row.key ||
            exists others, i ::
              && Rivals(w.rows, w.jobs[e.id].key, w.now, others) && 0 <= i < |others| && others[i] == row
              && !Fits(others[i..], e.result.value.size)
  {
    FreshIsExact(w.rows, w.now, row);
    if e.Finish? && e.id in w.jobs && e.result.Some? && e.result.value.size <= RETAINED_BYTES
       && w.jobs[e.id].key != row.key {
      var others, n := InsertedExactly(w.rows, w.jobs[e.id].key, e.result.value, w.now);
      var i :| 0 <= i < |others| && others[i] == row;
      assert forall k :: n <= k < |others| ==> others[n..][k - n] == others[k];
    }
  }

  // The row is there and unexpired at every point of the run.
  predicate Throughout(w: Worker, events: seq<Event>, row: Row)
    decreases |events|
  {
    && row in w.rows && !Expired(row, w.now)
    && (events == [] || Throughout(Next(w, events[0]), events[1..], row))
  }

  ghost predicate NoneUnderway(w: Worker, key: ContentKey) {
    forall id :: id in w.jobs && w.jobs[id].key == key ==>
      !w.jobs[id].stage.Decided? && !w.jobs[id].stage.Native?
  }

  lemma PreparedStartsNone(w: Worker, id: nat, valid: bool, row: Row)
    requires GoodRows(w) && NoneUnderway(w, row.key) && row in w.rows && !Expired(row, w.now)
    ensures NoneUnderway(Next(w, Prepared(id, valid)), row.key)
  {
    FreshIsExact(w.rows, w.now, row);
    FreshKeeps(w.rows, w.now);
    LookupOfRow(Fresh(w.rows, w.now), row);
  }

  lemma OthersStartNone(w: Worker, e: Event, key: ContentKey)
    requires NoneUnderway(w, key) && !e.Prepared?
    ensures NoneUnderway(Next(w, e), key)
  {
  }

  lemma OnlyStartInfers(w: Worker, e: Event)
    ensures Next(w, e).inferences == w.inferences
         || (e.Start? && e.id in w.jobs && w.jobs[e.id].stage.Decided?
             && Next(w, e).inferences == w.inferences + [w.jobs[e.id].key])
  {
  }

  lemma StepStartsNone(w: Worker, e: Event, row: Row)
    requires GoodRows(w) && NoneUnderway(w, row.key) && row in w.rows && !Expired(row, w.now)
    ensures NoneUnderway(Next(w, e), row.key)
    ensures w.inferences <= Next(w, e).inferences
    ensures forall i :: |w.inferences| <= i < |Next(w, e).inferences| ==> Next(w, e).inferences[i] != row.key
  {
    if e.Prepared? { PreparedStartsNone(w, e.id, e.valid, row); } else { OthersStartNone(w, e, row.key); }
    OnlyStartInfers(w, e);
  }

  // From the success of a key until its result expires or is evicted, no native
  // job for that key is started again.
  lemma {:induction false} NoSecondInference(w: Worker, events: seq<Event>, row: Row)
    requires GoodRows(w) && NoneUnderway(w, row.key) && Throughout(w, events, row)
    ensures w.inferences <= Run(w, events).inferences
    ensures forall i :: |w.inferences| <= i < |Run(w, events).inferences| ==>
              Run(w, events).inferences[i] != row.key
    decreases |events|
  {
    if events != [] {
      StepStartsNone(w, events[0], row);
      StepKeepsRows(w, events[0]);
      NoSecondInference(Next(w, events[0]), events[1..], row);
    }
  }

  // Right after a success the situation of the previous lemma holds.
  lemma SuccessIsRetained(w: Worker, id: nat, v: Value)
    requires OnePermit(w) && GoodRows(w) && v.size <= RETAINED_BYTES
    requires id in w.jobs && w.jobs[id].stage.Native?
    ensures var w' := Next(w, Finish(id, Some(v)));
            && Row(w.jobs[id].key, w.now, v) in w'.rows
            && GoodRows(w') && NoneUnderway(w', w.jobs[id].key) && w'.permits == 1
  {
    assert Holds(w, id);
    StepKeepsRows(w, Finish(id, Some(v)));
    var w' := Next(w, Finish(id, Some(v)));
    forall k | k in w'.jobs
      ensures w'.jobs[k].stage.Ended?
    {
      if k != id { assert !Holds(w, k); }
    }
  }
}
