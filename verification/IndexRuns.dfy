// Properties of whole runs of the index operations.
module IndexRuns {
  import opened Bytes
  import opened Results
  import opened Sets
  import opened IndexTables
  import opened IndexSpec
  import opened IndexEffects
  import opened IndexMigration
  import opened IndexSearchable

  // ----- compaction never shows -----

  function WithoutCompaction(ops: seq<Op>): seq<Op> {
    if ops == [] then []
    else if ops[0].Compact? then WithoutCompaction(ops[1..])
    else [ops[0]] + WithoutCompaction(ops[1..])
  }

  // Any number of batches anywhere in a run leave no trace in its result.
  lemma {:induction false} CompactionIsTransparent(s: Spec, ops: seq<Op>)
    ensures Run(s, ops) == Run(s, WithoutCompaction(ops))
    decreases |ops|
  {
    if ops != [] {
      CompactionIsTransparent(Step(s, ops[0]), ops[1..]);
    }
  }

  // ----- the durable OCR queue, over every life of an index -----

  // The step stored this document for its path.
  predicate CommitsPath(s: Searchable, e: Event, path: Text) {
    e.Did? &&
    match e.op
    case Replace(d) => d.path == path
    case Refresh(d) => d.path == path && path !in s.bodies
    case _ => false
  }

  // What the step that dequeues a path has done for it.
  predicate Handled(s': Searchable, op: Op, path: Text) {
    match op
    case Replace(d) => path in s'.bodies && s'.bodies[path] == d.body && path in s'.stamps && s'.stamps[path] == d.stamp
    case Refresh(d) => path in s'.bodies && s'.bodies[path] == d.body && path in s'.stamps && s'.stamps[path] == d.stamp
    case Remove(p) => p == path && path !in s'.bodies && path !in s'.stamps
    case RemoveEmpty(p, _) => p == path && path !in s'.bodies && path !in s'.stamps
    case Ack(p) => p == path
    case _ => false
  }

  // A queued path leaves the queue only in the step that stores its document,
  // in the step that removes it, or by an explicit acknowledgement.
  lemma QueuedPathLeavesWithItsDocument(s: Searchable, s': Searchable, e: Event, path: Text)
    requires EventStep(s, s', e) && path in s.ocr.pending
    ensures path !in s'.ocr.pending ==>
              && e.Did? && (e.op.Replace? || e.op.Refresh? ==> CommitsPath(s, e, path))
              && Handled(s', e.op, path)
    ensures CommitsPath(s, e, path) ==> path !in s'.ocr.pending
  {
    if e.Did? { OpDequeues(s, e.op, path); }
  }

  lemma OpDequeues(s: Searchable, op: Op, path: Text)
    requires path in s.ocr.pending
    ensures var s' := SearchStep(s, op);
            path !in s'.ocr.pending ==>
              (op.Replace? || op.Refresh? ==> CommitsPath(s, Did(op), path)) && Handled(s', op, path)
    ensures CommitsPath(s, Did(op), path) ==> path !in SearchStep(s, op).ocr.pending
  {
    match op
    case Replace(d) =>
    case Refresh(d) =>
    case Remove(p) =>
    case RemoveEmpty(p, _) =>
    case _ =>
  }

  // A fact that some events make true and others make false holds after n events
  // exactly when the last of these made it true, or there was none and it held
  // before.
  ghost predicate LastDecides(states: seq<Searchable>, events: seq<Event>, fact: Searchable -> bool,
                              up: (Searchable, Event) -> bool, down: (Searchable, Event) -> bool, n: nat)
    requires n <= |events| < |states|
  {
    fact(states[n]) <==>
      || (exists i :: 0 <= i < n && up(states[i], events[i]) && NoneFrom(states, events, down, i + 1, n))
      || (fact(states[0]) && NoneFrom(states, events, down, 0, n))
  }

  ghost predicate NoneFrom(states: seq<Searchable>, events: seq<Event>, down: (Searchable, Event) -> bool,
                           i: nat, n: nat)
    requires n <= |events| < |states|
  {
    forall j :: i <= j < n ==> !down(states[j], events[j])
  }

  // One event decides it like this.
  ghost predicate Decides(s: Searchable, s': Searchable, e: Event, fact: Searchable -> bool,
                          up: (Searchable, Event) -> bool, down: (Searchable, Event) -> bool)
  {
    (fact(s') <==> up(s, e) || (fact(s) && !down(s, e))) && !(up(s, e) && down(s, e))
  }

  lemma {:induction false} LastEventDecides(
    states: seq<Searchable>, events: seq<Event>, fact: Searchable -> bool,
    up: (Searchable, Event) -> bool, down: (Searchable, Event) -> bool, n: nat)
    requires IsLife(states, events) && n <= |events|
    requires forall s, s', e :: EventStep(s, s', e) ==> Decides(s, s', e, fact, up, down)
    ensures LastDecides(states, events, fact, up, down, n)
  {
    if n > 0 {
      LastEventDecides(states, events, fact, up, down, n - 1);
      assert EventStep(states[n - 1], states[n], events[n - 1]);
      if fact(states[n]) {
        if up(states[n - 1], events[n - 1]) {
          assert NoneFrom(states, events, down, n, n);
        } else if !(fact(states[0]) && NoneFrom(states, events, down, 0, n - 1)) {
          var i :| 0 <= i < n - 1 && up(states[i], events[i]) && NoneFrom(states, events, down, i + 1, n - 1);
          assert NoneFrom(states, events, down, i + 1, n);
        }
      }
      if i :| 0 <= i < n && up(states[i], events[i]) && NoneFrom(states, events, down, i + 1, n) {
        if i < n - 1 { assert NoneFrom(states, events, down, i + 1, n - 1); }
      } else if fact(states[0]) && NoneFrom(states, events, down, 0, n) {
        assert NoneFrom(states, events, down, 0, n - 1);
      }
    }
  }

  // A deferral that finds its path queued or the queue not full.
  predicate Queues(s: Searchable, e: Event, path: Text) {
    e == Did(Defer(path)) && (path in s.ocr.pending || |s.ocr.pending| < 65_536)
  }

  // An acknowledgement, a removal that is not refused, or a commit.
  predicate Unqueues(s: Searchable, e: Event, path: Text) {
    || e == Did(Ack(path)) || e == Did(Remove(path))
    || (e.Did? && e.op.RemoveEmpty? && e.op.path == path && (path in s.ocr.empties || |s.ocr.empties| < 65_536))
    || CommitsPath(s, e, path)
  }

  lemma QueueStep(s: Searchable, s': Searchable, e: Event, path: Text)
    requires EventStep(s, s', e)
    ensures path in s'.ocr.pending <==> Queues(s, e, path) || (path in s.ocr.pending && !Unqueues(s, e, path))
  {
    if e.Did? { OpQueues(s, e.op, path); }
  }

  lemma OcrOfStep(s: Searchable, op: Op)
    ensures SearchStep(s, op).ocr == StepOcr(s.bodies.Keys, s.ocr, op)
  {
  }

  // The queue after one operation, path by path.
  function PendingAfter(s: Searchable, op: Op): set<Text> {
    match op
    case Replace(d) => s.ocr.pending - {d.path}
    case Refresh(d) => if d.path in s.bodies then s.ocr.pending else s.ocr.pending - {d.path}
    case Remove(p) => s.ocr.pending - {p}
    case RemoveEmpty(p, _) =>
      if p in s.ocr.empties || |s.ocr.empties| < 65_536 then s.ocr.pending - {p} else s.ocr.pending
    case Ack(p) => s.ocr.pending - {p}
    case Defer(p) =>
      if p in s.ocr.pending || |s.ocr.pending| < 65_536 then s.ocr.pending + {p} else s.ocr.pending
    case _ => s.ocr.pending
  }

  lemma OpQueues(s: Searchable, op: Op, path: Text)
    ensures path in SearchStep(s, op).ocr.pending <==>
            Queues(s, Did(op), path) || (path in s.ocr.pending && !Unqueues(s, Did(op), path))
  {
    OcrOfStep(s, op);
    OcrPending(s, op);
    PendingAfterQueues(s, op, path);
  }

  lemma PendingAfterQueues(s: Searchable, op: Op, path: Text)
    ensures path in PendingAfter(s, op) <==>
            Queues(s, Did(op), path) || (path in s.ocr.pending && !Unqueues(s, Did(op), path))
  {
  }

  lemma OcrPending(s: Searchable, op: Op)
    ensures StepOcr(s.bodies.Keys, s.ocr, op).pending == PendingAfter(s, op)
  {
    match op
    case Replace(d) => CommitQueues(s.bodies.Keys, s.ocr, op);
    case Refresh(d) => CommitQueues(s.bodies.Keys, s.ocr, op);
    case RemoveEmpty(p, stamp) => EmptyQueues(s.bodies.Keys, s.ocr, p, stamp);
    case Defer(p) => DeferQueues(s.bodies.Keys, s.ocr, p);
    case _ =>
  }

  lemma CommitQueues(known: set<Text>, o: Ocr, op: Op)
    requires op.Replace? || op.Refresh?
    ensures StepOcr(known, o, op).pending ==
            if op.Refresh? && op.doc.path in known then o.pending else o.pending - {op.doc.path}
  {
  }

  lemma EmptyQueues(known: set<Text>, o: Ocr, p: Text, stamp: Stamp)
    ensures StepOcr(known, o, RemoveEmpty(p, stamp)).pending ==
            if p in o.empties || |o.empties| < 65_536 then o.pending - {p} else o.pending
  {
  }

  lemma DeferQueues(known: set<Text>, o: Ocr, p: Text)
    ensures StepOcr(known, o, Defer(p)).pending ==
            if p in o.pending || |o.pending| < 65_536 then o.pending + {p} else o.pending
  {
  }

  // In every life a path is queued exactly when the last event that queued or
  // unqueued it was an accepted deferral, or none did and it was queued before.
  lemma QueuedExactly(states: seq<Searchable>, events: seq<Event>, n: nat, path: Text)
    requires IsLife(states, events) && n <= |events|
    ensures var fact := (s: Searchable) => path in s.ocr.pending;
            var up := (s: Searchable, e: Event) => Queues(s, e, path);
            var down := (s: Searchable, e: Event) => Unqueues(s, e, path);
            LastDecides(states, events, fact, up, down, n)
  {
    var fact := (s: Searchable) => path in s.ocr.pending;
    var up := (s: Searchable, e: Event) => Queues(s, e, path);
    var down := (s: Searchable, e: Event) => Unqueues(s, e, path);
    forall s, s', e | EventStep(s, s', e)
      ensures Decides(s, s', e, fact, up, down)
    {
      QueueStep(s, s', e, path);
    }
    LastEventDecides(states, events, fact, up, down, n);
  }

  lemma {:induction false} QueueIsBounded(states: seq<Searchable>, events: seq<Event>, n: nat)
    requires IsLife(states, events) && n <= |events| && |states[0].ocr.pending| <= MAX_PENDING_OCR
    ensures |states[n].ocr.pending| <= MAX_PENDING_OCR
  {
    if n > 0 {
      QueueIsBounded(states, events, n - 1);
      assert EventStep(states[n - 1], states[n], events[n - 1]);
      if events[n - 1].Did? && events[n - 1].op.Defer? {
        DeferKeepsBound(states[n - 1], events[n - 1].op);
      } else {
        OnlyDeferQueues(states[n - 1], states[n], events[n - 1]);
        SubsetIsSmaller(states[n].ocr.pending, states[n - 1].ocr.pending);
      }
    }
  }

  lemma OnlyDeferQueues(s: Searchable, s': Searchable, e: Event)
    requires EventStep(s, s', e) && !(e.Did? && e.op.Defer?)
    ensures s'.ocr.pending <= s.ocr.pending
  {
  }

  lemma DeferKeepsBound(s: Searchable, op: Op)
    requires op.Defer? && |s.ocr.pending| <= MAX_PENDING_OCR
    ensures |SearchStep(s, op).ocr.pending| <= MAX_PENDING_OCR
  {
  }

  predicate Refused(s: Searchable, e: Event) {
    e.Did? && e.op.Defer? && e.op.path !in s.ocr.pending && |s.ocr.pending| >= MAX_PENDING_OCR
  }

  predicate Withdraws(e: Event) {
    e.Cleared? || (e.Did? && e.op.Rebuilt?)
  }

  // A refused deferral asks for a recovery scan. Restarts keep the request; only a
  // completed full rebuild and a clear withdraw it.
  lemma {:induction false} RefusalPersists(states: seq<Searchable>, events: seq<Event>, i: nat, n: nat)
    requires IsLife(states, events) && i < n <= |events| && Refused(states[i], events[i])
    requires forall j :: i < j < n ==> !Withdraws(events[j])
    ensures states[n].ocr.recovery
  {
    assert EventStep(states[n - 1], states[n], events[n - 1]);
    if n > i + 1 { RefusalPersists(states, events, i, n - 1); }
  }

  predicate AsksRecovery(s: Searchable, e: Event) {
    e.Did? && (e.op.SetOverflow? || Refused(s, e))
  }

  predicate Overflows(s: Searchable, e: Event) {
    e == Did(SetOverflow(true)) || Refused(s, e)
  }

  predicate ClearsOverflow(e: Event) {
    e == Did(SetOverflow(false)) || e.Cleared?
  }

  lemma FlagStep(s: Searchable, s': Searchable, e: Event)
    requires EventStep(s, s', e)
    ensures s'.ocr.recovery <==> AsksRecovery(s, e) || (s.ocr.recovery && !Withdraws(e))
    ensures s'.ocr.overflow <==> Overflows(s, e) || (s.ocr.overflow && !ClearsOverflow(e))
  {
    if e.Did? { OpFlags(s, e.op); }
  }

  lemma OpFlags(s: Searchable, op: Op)
    ensures SearchStep(s, op).ocr.recovery <==>
            AsksRecovery(s, Did(op)) || (s.ocr.recovery && !Withdraws(Did(op)))
    ensures SearchStep(s, op).ocr.overflow <==>
            Overflows(s, Did(op)) || (s.ocr.overflow && !ClearsOverflow(Did(op)))
  {
    OcrOfStep(s, op);
    match op
    case Defer(p) => DeferFlags(s.bodies.Keys, s.ocr, p);
    case SetOverflow(on) =>
    case Rebuilt(_) =>
    case _ => OtherFlags(s.bodies.Keys, s.ocr, op);
  }

  lemma DeferFlags(known: set<Text>, o: Ocr, p: Text)
    ensures var o', refused := StepOcr(known, o, Defer(p)), p !in o.pending && |o.pending| >= 65_536;
            (o'.overflow <==> o.overflow || refused) && (o'.recovery <==> o.recovery || refused)
  {
  }

  lemma OtherFlags(known: set<Text>, o: Ocr, op: Op)
    requires !op.Defer? && !op.SetOverflow? && !op.Rebuilt?
    ensures StepOcr(known, o, op).overflow == o.overflow && StepOcr(known, o, op).recovery == o.recovery
  {
  }

  // The overflow flag says that a deferral was refused, or the flag set, since it
  // was last cleared.
  lemma OverflowExactly(states: seq<Searchable>, events: seq<Event>, n: nat)
    requires IsLife(states, events) && n <= |events|
    ensures var fact := (s: Searchable) => s.ocr.overflow;
            var up := (s: Searchable, e: Event) => Overflows(s, e);
            var down := (s: Searchable, e: Event) => ClearsOverflow(e);
            LastDecides(states, events, fact, up, down, n)
  {
    var fact := (s: Searchable) => s.ocr.overflow;
    var up := (s: Searchable, e: Event) => Overflows(s, e);
    var down := (s: Searchable, e: Event) => ClearsOverflow(e);
    forall s, s', e | EventStep(s, s', e)
      ensures Decides(s, s', e, fact, up, down)
    {
      FlagStep(s, s', e);
    }
    LastEventDecides(states, events, fact, up, down, n);
  }

  // A recovery scan is asked for by a refused deferral and by every write of the
  // overflow flag, until a completed full rebuild or a clear.
  lemma RecoveryExactly(states: seq<Searchable>, events: seq<Event>, n: nat)
    requires IsLife(states, events) && n <= |events|
    ensures var fact := (s: Searchable) => s.ocr.recovery;
            var up := (s: Searchable, e: Event) => AsksRecovery(s, e);
            var down := (s: Searchable, e: Event) => Withdraws(e);
            LastDecides(states, events, fact, up, down, n)
  {
    var fact := (s: Searchable) => s.ocr.recovery;
    var up := (s: Searchable, e: Event) => AsksRecovery(s, e);
    var down := (s: Searchable, e: Event) => Withdraws(e);
    forall s, s', e | EventStep(s, s', e)
      ensures Decides(s, s', e, fact, up, down)
    {
      FlagStep(s, s', e);
    }
    LastEventDecides(states, events, fact, up, down, n);
  }

  // ----- the ledger of empty results -----

  // Recognition found no text in a version, and the ledger had room for the path.
  predicate FindsEmpty(s: Searchable, e: Event, path: Text, stamp: Stamp) {
    && e == Did(RemoveEmpty(path, stamp))
    && (path in s.ocr.empties || |s.ocr.empties| < 65_536)
  }

  predicate OtherEmpty(s: Searchable, e: Event, path: Text, stamp: Stamp) {
    && e.Did? && e.op.RemoveEmpty? && e.op.path == path && e.op.stamp != stamp
    && (path in s.ocr.empties || |s.ocr.empties| < 65_536)
  }

  predicate IsEmpty(s: Searchable, path: Text, stamp: Stamp) {
    path in s.ocr.empties && s.ocr.empties[path] == stamp
  }

  lemma EmptyStep(s: Searchable, s': Searchable, e: Event, path: Text, stamp: Stamp)
    requires EventStep(s, s', e)
    ensures IsEmpty(s', path, stamp) <==>
            || FindsEmpty(s, e, path, stamp)
            || (IsEmpty(s, path, stamp) && !OtherEmpty(s, e, path, stamp) && !CommitsVersion(s, e, path, stamp))
  {
    if e.Did? { OpEmpties(s, e.op, path, stamp); }
  }

  lemma OpEmpties(s: Searchable, op: Op, path: Text, stamp: Stamp)
    ensures IsEmpty(SearchStep(s, op), path, stamp) <==>
            || FindsEmpty(s, Did(op), path, stamp)
            || (IsEmpty(s, path, stamp) && !OtherEmpty(s, Did(op), path, stamp)
                && !CommitsVersion(s, Did(op), path, stamp))
  {
    OcrOfStep(s, op);
    OcrEmpties(s, StepOcr(s.bodies.Keys, s.ocr, op), op, path, stamp);
  }

  lemma OcrEmpties(s: Searchable, o: Ocr, op: Op, path: Text, stamp: Stamp)
    requires o == StepOcr(s.bodies.Keys, s.ocr, op)
    ensures path in o.empties && o.empties[path] == stamp <==>
            || FindsEmpty(s, Did(op), path, stamp)
            || (IsEmpty(s, path, stamp) && !OtherEmpty(s, Did(op), path, stamp)
                && !CommitsVersion(s, Did(op), path, stamp))
  {
    match op
    case Replace(d) =>
    case Refresh(d) =>
    case RemoveEmpty(p, _) =>
    case _ =>
  }

  // In every life a version is known to have no text exactly when that was found
  // and neither another version of the path was found empty nor this one stored
  // since.
  lemma KnownEmptyExactly(states: seq<Searchable>, events: seq<Event>, n: nat, path: Text, stamp: Stamp)
    requires IsLife(states, events) && n <= |events|
    ensures var fact := (s: Searchable) => IsEmpty(s, path, stamp);
            var up := (s: Searchable, e: Event) => FindsEmpty(s, e, path, stamp);
            var down := (s: Searchable, e: Event) => Refutes(s, e, path, stamp);
            LastDecides(states, events, fact, up, down, n)
  {
    var fact := (s: Searchable) => IsEmpty(s, path, stamp);
    var up := (s: Searchable, e: Event) => FindsEmpty(s, e, path, stamp);
    var down := (s: Searchable, e: Event) => Refutes(s, e, path, stamp);
    forall s, s', e | EventStep(s, s', e)
      ensures Decides(s, s', e, fact, up, down)
    {
      EmptyStep(s, s', e, path, stamp);
    }
    LastEventDecides(states, events, fact, up, down, n);
  }

  predicate Refutes(s: Searchable, e: Event, path: Text, stamp: Stamp) {
    OtherEmpty(s, e, path, stamp) || CommitsVersion(s, e, path, stamp)
  }

  // ----- the failure ledger -----

  // A step after which the count of this version starts again: the version was
  // committed, or another version of the same path reported.
  predicate Resets(s: Searchable, e: Event, path: Text, stamp: Stamp) {
    CommitsVersion(s, e, path, stamp) || (e.Did? && e.op.Fail? && e.op.path == path && e.op.stamp != stamp)
  }

  predicate CommitsVersion(s: Searchable, e: Event, path: Text, stamp: Stamp) {
    CommitsPath(s, e, path) && e.op.doc.stamp == stamp
  }

  // The attempts one step reports for a version; a report that the full ledger
  // refuses does not count.
  function ReportedBy(s: Searchable, e: Event, path: Text, stamp: Stamp): nat {
    if e.Did? && e.op.Fail? && e.op.path == path && e.op.stamp == stamp && !LedgerFull(s.ocr.attempts, path)
    then e.op.attempts else 0
  }

  // The attempts reported for a version since its count last started again.
  function SinceReset(states: seq<Searchable>, events: seq<Event>, n: nat, path: Text, stamp: Stamp, soFar: nat): nat
    requires n <= |events| < |states|
  {
    if n == 0 then soFar
    else if Resets(states[n - 1], events[n - 1], path, stamp) then 0
    else SinceReset(states, events, n - 1, path, stamp, soFar) + ReportedBy(states[n - 1], events[n - 1], path, stamp)
  }

  // The same, but only a commit starts it again: what the ledger is for.
  function SinceCommit(states: seq<Searchable>, events: seq<Event>, n: nat, path: Text, stamp: Stamp, soFar: nat): nat
    requires n <= |events| < |states|
  {
    if n == 0 then soFar
    else if CommitsVersion(states[n - 1], events[n - 1], path, stamp) then 0
    else SinceCommit(states, events, n - 1, path, stamp, soFar) + ReportedBy(states[n - 1], events[n - 1], path, stamp)
  }

  lemma OneReport(s: Searchable, s': Searchable, e: Event, path: Text, stamp: Stamp)
    requires EventStep(s, s', e) && !Resets(s, e, path, stamp) && FailureCount(s.ocr, path, stamp) <= 4
    ensures FailureCount(s'.ocr, path, stamp) ==
            Min(4, FailureCount(s.ocr, path, stamp) + ReportedBy(s, e, path, stamp))
  {
    if e.Did? { OneReportOfOp(s, e.op, path, stamp); }
  }

  lemma OneReportOfOp(s: Searchable, op: Op, path: Text, stamp: Stamp)
    requires !Resets(s, Did(op), path, stamp) && FailureCount(s.ocr, path, stamp) <= 4
    ensures FailureCount(SearchStep(s, op).ocr, path, stamp) ==
            Min(4, FailureCount(s.ocr, path, stamp) + ReportedBy(s, Did(op), path, stamp))
  {
    match op
    case Replace(d) => AcknowledgeKeepsOthers(s.ocr, d, path, stamp);
    case Refresh(d) =>
      if d.path !in s.bodies { AcknowledgeKeepsOthers(s.ocr, d, path, stamp); }
    case _ =>
  }

  lemma AcknowledgeKeepsOthers(o: Ocr, d: Document, path: Text, stamp: Stamp)
    requires !(d.path == path && d.stamp == stamp)
    ensures FailureCount(Acknowledge(o, d.path, d.stamp), path, stamp) == FailureCount(o, path, stamp)
  {
  }

  lemma ResetClears(s: Searchable, s': Searchable, e: Event, path: Text, stamp: Stamp)
    requires EventStep(s, s', e) && Resets(s, e, path, stamp)
    ensures FailureCount(s'.ocr, path, stamp) == 0
  {
  }

  // One event changes the count like this.
  predicate CountsOn(s: Searchable, s': Searchable, e: Event, path: Text, stamp: Stamp) {
    FailureCount(s.ocr, path, stamp) <= 4 ==>
      FailureCount(s'.ocr, path, stamp) ==
      if Resets(s, e, path, stamp) then 0
      else Min(4, FailureCount(s.ocr, path, stamp) + ReportedBy(s, e, path, stamp))
  }

  lemma StepCounts(s: Searchable, s': Searchable, e: Event, path: Text, stamp: Stamp)
    requires EventStep(s, s', e)
    ensures CountsOn(s, s', e, path, stamp)
  {
    if Resets(s, e, path, stamp) {
      ResetClears(s, s', e, path, stamp);
    } else if FailureCount(s.ocr, path, stamp) <= 4 {
      OneReport(s, s', e, path, stamp);
    }
  }

  ghost predicate AlwaysCounts(states: seq<Searchable>, events: seq<Event>, path: Text, stamp: Stamp) {
    |states| == |events| + 1 &&
    forall i :: 0 <= i < |events| ==> CountsOn(states[i], states[i + 1], events[i], path, stamp)
  }

  lemma LivesCount(states: seq<Searchable>, events: seq<Event>, path: Text, stamp: Stamp)
    requires IsLife(states, events)
    ensures AlwaysCounts(states, events, path, stamp)
  {
    forall i | 0 <= i < |events|
      ensures CountsOn(states[i], states[i + 1], events[i], path, stamp)
    {
      StepCounts(states[i], states[i + 1], events[i], path, stamp);
    }
  }

  lemma {:induction false} CountIsCapped(
    states: seq<Searchable>, events: seq<Event>, n: nat, path: Text, stamp: Stamp, soFar: nat)
    requires AlwaysCounts(states, events, path, stamp) && n <= |events|
    requires FailureCount(states[0].ocr, path, stamp) == Min(4, soFar)
    ensures FailureCount(states[n].ocr, path, stamp) == Min(4, SinceReset(states, events, n, path, stamp, soFar))
  {
    if n > 0 {
      CountIsCapped(states, events, n - 1, path, stamp, soFar);
      assert CountsOn(states[n - 1], states[n], events[n - 1], path, stamp);
    }
  }

  // In every life the recorded failures of a version are the sum of its reports
  // since its count last started again, capped at 4, restarts or not.
  lemma FailuresAreTheCappedSum(
    states: seq<Searchable>, events: seq<Event>, n: nat, path: Text, stamp: Stamp, soFar: nat)
    requires IsLife(states, events) && n <= |events| && FailureCount(states[0].ocr, path, stamp) == Min(4, soFar)
    ensures FailureCount(states[n].ocr, path, stamp) == Min(4, SinceReset(states, events, n, path, stamp, soFar))
  {
    LivesCount(states, events, path, stamp);
    CountIsCapped(states, events, n, path, stamp, soFar);
  }

  // After every event the count is the sum of the reports since the version was
  // last committed, capped at 4.
  ghost predicate CountsUntilCommitted(
    states: seq<Searchable>, events: seq<Event>, path: Text, stamp: Stamp, soFar: nat)
    requires IsLife(states, events)
  {
    forall n :: 0 <= n <= |events| ==>
      FailureCount(states[n].ocr, path, stamp) == Min(4, SinceCommit(states, events, n, path, stamp, soFar))
  }

  // A report for another version while failures of this one are recorded: the
  // ledger has one row for a path and drops the older count.
  predicate Forgets(s: Searchable, e: Event, path: Text, stamp: Stamp) {
    e.Did? && e.op.Fail? && e.op.path == path && e.op.stamp != stamp && FailureCount(s.ocr, path, stamp) > 0
  }

  ghost predicate NeverForgets(states: seq<Searchable>, events: seq<Event>, path: Text, stamp: Stamp)
    requires IsLife(states, events)
  {
    forall i :: 0 <= i < |events| ==> !Forgets(states[i], events[i], path, stamp)
  }

  lemma {:induction false} CountsWhileNotForgotten(
    states: seq<Searchable>, events: seq<Event>, n: nat, path: Text, stamp: Stamp, soFar: nat)
    requires AlwaysCounts(states, events, path, stamp) && n <= |events|
    requires FailureCount(states[0].ocr, path, stamp) == Min(4, soFar)
    requires forall i :: 0 <= i < |events| ==> !Forgets(states[i], events[i], path, stamp)
    ensures FailureCount(states[n].ocr, path, stamp) == Min(4, SinceCommit(states, events, n, path, stamp, soFar))
  {
    if n > 0 {
      CountsWhileNotForgotten(states, events, n - 1, path, stamp, soFar);
      assert CountsOn(states[n - 1], states[n], events[n - 1], path, stamp);
      assert !Forgets(states[n - 1], events[n - 1], path, stamp);
    }
  }

  // The ledger does what it is for in exactly the lives without such a report.
  lemma CountsUntilCommittedExactly(
    states: seq<Searchable>, events: seq<Event>, path: Text, stamp: Stamp, soFar: nat)
    requires IsLife(states, events) && FailureCount(states[0].ocr, path, stamp) == Min(4, soFar)
    ensures CountsUntilCommitted(states, events, path, stamp, soFar) <==> NeverForgets(states, events, path, stamp)
  {
    LivesCount(states, events, path, stamp);
    if NeverForgets(states, events, path, stamp) {
      forall n | 0 <= n <= |events|
        ensures FailureCount(states[n].ocr, path, stamp) == Min(4, SinceCommit(states, events, n, path, stamp, soFar))
      {
        CountsWhileNotForgotten(states, events, n, path, stamp, soFar);
      }
    } else {
      var i :| 0 <= i < |events| && Forgets(states[i], events[i], path, stamp);
      assert EventStep(states[i], states[i + 1], events[i]);
      ResetClears(states[i], states[i + 1], events[i], path, stamp);
      assert SinceCommit(states, events, i + 1, path, stamp, soFar) ==
             SinceCommit(states, events, i, path, stamp, soFar);
    }
  }

  // A file that changes and is restored: three attempts were reported for it, the
  // ledger says one.
  lemma RestoredFileStartsAgain(states: seq<Searchable>, path: Text, v1: Stamp, v2: Stamp)
    requires v1 != v2
    requires IsLife(states, RestoredFile(path, v1, v2)) && states[0].ocr == Ocr({}, false, false, map[], map[])
    ensures FailureCount(states[3].ocr, path, v1) == 1
    ensures !CountsUntilCommitted(states, RestoredFile(path, v1, v2), path, v1, 0)
  {
    var events := RestoredFile(path, v1, v2);
    assert EventStep(states[0], states[1], events[0]);
    assert EventStep(states[1], states[2], events[1]);
    assert EventStep(states[2], states[3], events[2]);
    assert FailureCount(states[1].ocr, path, v1) == 2;
    assert Forgets(states[1], events[1], path, v1);
    CountsUntilCommittedExactly(states, events, path, v1, 0);
  }

  function RestoredFile(path: Text, v1: Stamp, v2: Stamp): seq<Event> {
    [Did(Fail(path, v1, 2)), Did(Fail(path, v2, 1)), Did(Fail(path, v1, 1))]
  }

  // ----- where the metadata-only refresh breaks the bijection -----

  // A refresh of a searchable path keeps the bijection exactly when the path has
  // a cache row: otherwise its insert trigger drops the mapping.
  lemma RefreshKeepsLinkExactly(t: Tables, doc: Document)
    requires Linked(t) && doc.path in t.rows
    ensures Linked(UpsertCache(t, doc.path, CacheRow(doc.stamp, []))) <==> doc.path in t.cache
  {
    var t' := UpsertCache(t, doc.path, CacheRow(doc.stamp, []));
    if doc.path in t.cache {
      CacheRowRefines(t, t', doc.path, CacheRow(doc.stamp, []));
    } else {
      assert t.rows[doc.path] in t'.docs && !Mapped(t', t.rows[doc.path]);
    }
  }

  // The tables a start leaves when a mapped file is gone: no cache row for it.
  function FileGone(path: Text, body: Text): Tables {
    Tables(map[1 := FtsRow(path, body)], map[], map[path := 1], true,
           Meta(true, true, true, [], false, None), Ocr({}, false, false, map[], map[]))
  }

  // The lost mapping can outlive the next start: replacing any other document
  // sets the marker again, so nothing migrates and the text stays out of reach,
  // whichever files exist by then.
  lemma LostMappingSurvivesOpen(path: Text, body: Text, stamp: Stamp, other: Document, files: map<Text, Stamp>)
    requires other.path != path
    ensures var t := FileGone(path, body);
            var refreshed := UpsertCache(t, path, CacheRow(stamp, []));
            && Linked(t) && SearchBody(t, path) == Some(body) && !refreshed.rowsReady
            && forall t' :: Committed(refreshed, t', other) && t'.meta == refreshed.meta && t'.rowsReady ==>
                 && !Migrates(t')
                 && var u := Unmigrated(t', files);
                    SearchBody(u, path) == None && !Linked(u) && 1 in u.docs && u.docs[1] == FtsRow(path, body)
  {
    var t := FileGone(path, body);
    var refreshed := UpsertCache(t, path, CacheRow(stamp, []));
    forall t' | Committed(refreshed, t', other) && t'.meta == refreshed.meta && t'.rowsReady
      ensures var u := Unmigrated(t', files);
              !Migrates(t') && SearchBody(u, path) == None && !Linked(u)
              && 1 in u.docs && u.docs[1] == FtsRow(path, body)
    {
      assert refreshed.docs[1].path == path;
      ElsewhereIsPointwise(refreshed, t', {other.path}, path);
      assert !Mapped(Unmigrated(t', files), 1);
    }
  }
}
