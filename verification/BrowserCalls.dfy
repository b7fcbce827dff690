// What every call is told, over every interleaving: the decisions read off a log of
// decisions, replies and written job ids.
module BrowserCalls {
  import opened Bytes
  import opened Results
  import opened Sets
  import opened BrowserReceipts

  // The decision of every call, the replies to POSTs and the job ids written.
  datatype Entry =
    | Decided(caller: nat, id: Text, expected: Option<Text>, at: nat, decision: Decision)
    | Replied(caller: nat, reply: Reply)
    | Wrote(caller: nat, id: Text, job: Text)

  function EntriesOf(w: World, e: Event): seq<Entry> {
    match e
    case Call(c, id, expected, lag, _) =>
      if c in w.callers || lag > w.now then []
      else [Decided(c, id, expected, w.now, Admission(w.receipts, id, expected, w.now).1)]
    case Answer(c, Some(reply)) =>
      if c in w.callers && (w.callers[c].phase.Sent? || w.callers[c].phase.Resent?) then [Replied(c, reply)] else []
    case Write(c) =>
      if c in w.callers && w.callers[c].phase.Accepted? && w.callers[c].id in w.receipts
      then [Wrote(c, w.callers[c].id, w.callers[c].phase.job)] else []
    case _ => []
  }

  function LogOf(w: World, events: seq<Event>): seq<Entry>
    decreases |events|
  {
    if events == [] then [] else EntriesOf(w, events[0]) + LogOf(Next(w, events[0]), events[1..])
  }

  predicate Submits(log: seq<Entry>, i: nat, id: Text)
    requires i < |log|
  {
    log[i].Decided? && log[i].id == id && log[i].decision.Submit?
  }

  // The submission of this id whose receipt still lives: the last one, when it is
  // less than an hour old.
  ghost predicate LivingSubmission(log: seq<Entry>, i: nat, id: Text, now: nat) {
    && i < |log| && Submits(log, i, id) && now - log[i].at < 3_600_000
    && forall j :: i < j < |log| ==> !Submits(log, j, id)
  }

  ghost predicate Writes(log: seq<Entry>, k: nat, id: Text, job: Text) {
    k < |log| && log[k].Wrote? && log[k].id == id && log[k].job == job
  }

  // The last job id written for this id, after entry i.
  ghost predicate LastWritten(log: seq<Entry>, i: nat, k: nat, id: Text, job: Text) {
    && i < k && Writes(log, k, id, job)
    && forall j :: k < j < |log| ==> !(log[j].Wrote? && log[j].id == id)
  }

  ghost predicate NothingWritten(log: seq<Entry>, i: nat, id: Text) {
    forall j :: i < j < |log| ==> !(log[j].Wrote? && log[j].id == id)
  }

  // What the receipts are, read off the log.
  ghost predicate Remembers(w: World, log: seq<Entry>) {
    && (forall id :: id in w.receipts ==> exists i: nat :: ReceiptOf(w.receipts[id], log, i, id))
    && (forall id, i: nat :: LivingSubmission(log, i, id, w.now) ==>
          id in w.receipts && w.receipts[id].created == log[i].at)
  }

  ghost predicate ReceiptOf(r: Receipt, log: seq<Entry>, i: nat, id: Text) {
    && i < |log| && Submits(log, i, id) && r.created == log[i].at
    && (forall j :: i < j < |log| ==> !Submits(log, j, id))
    && match r.job
       case Some(job) => exists k: nat :: LastWritten(log, i, k, id, job)
       case None => NothingWritten(log, i, id)
  }

  lemma StillTheLast(log: seq<Entry>, x: Entry, i: nat, id: Text)
    requires i < |log| && Submits(log, i, id) && !(x.Decided? && x.id == id && x.decision.Submit?)
    requires forall j :: i < j < |log| ==> !Submits(log, j, id)
    ensures Submits(log + [x], i, id) && forall j :: i < j < |log + [x]| ==> !Submits(log + [x], j, id)
    ensures forall j :: 0 <= j < |log| ==> (log + [x])[j] == log[j]
  {
    forall j | i < j < |log + [x]|
      ensures !Submits(log + [x], j, id)
    {
      if j < |log| { assert !Submits(log, j, id); }
    }
  }

  lemma AppendKeepsReceipt(r: Receipt, log: seq<Entry>, x: Entry, i: nat, id: Text)
    requires ReceiptOf(r, log, i, id)
    requires !(x.Decided? && x.id == id && x.decision.Submit?) && !(x.Wrote? && x.id == id)
    ensures ReceiptOf(r, log + [x], i, id)
  {
    var log' := log + [x];
    StillTheLast(log, x, i, id);
    if r.job.Some? {
      var k: nat :| LastWritten(log, i, k, id, r.job.value);
      assert LastWritten(log', i, k, id, r.job.value);
    }
  }

  lemma AppendLiving(log: seq<Entry>, x: Entry, i: nat, id: Text, now: nat)
    requires LivingSubmission(log + [x], i, id, now) && i < |log|
    ensures LivingSubmission(log, i, id, now)
  {
    assert forall j :: 0 <= j < |log| ==> (log + [x])[j] == log[j];
    forall j | i < j < |log|
      ensures !Submits(log, j, id)
    {
      assert !Submits(log + [x], j, id);
    }
  }

  // An entry that neither submits nor writes, while the receipts stay.
  lemma OtherEntryRemembers(w: World, w': World, log: seq<Entry>, x: Entry)
    requires Remembers(w, log) && w'.receipts == w.receipts && w'.now == w.now
    requires !x.Wrote? && !(x.Decided? && x.decision.Submit?)
    ensures Remembers(w', log + [x])
  {
    forall id | id in w'.receipts
      ensures exists i: nat :: ReceiptOf(w'.receipts[id], log + [x], i, id)
    {
      var i: nat :| ReceiptOf(w.receipts[id], log, i, id);
      AppendKeepsReceipt(w.receipts[id], log, x, i, id);
    }
    forall id, i: nat | LivingSubmission(log + [x], i, id, w'.now)
      ensures id in w'.receipts && w'.receipts[id].created == (log + [x])[i].at
    {
      AppendLiving(log, x, i, id, w'.now);
    }
  }

  lemma LaterRemembers(w: World, w': World, log: seq<Entry>)
    requires Remembers(w, log) && w'.receipts == w.receipts && w'.now >= w.now
    ensures Remembers(w', log)
  {
    forall id, i: nat | LivingSubmission(log, i, id, w'.now)
      ensures id in w'.receipts && w'.receipts[id].created == log[i].at
    {
      assert LivingSubmission(log, i, id, w.now);
    }
  }

  lemma WriteRemembers(w: World, w': World, log: seq<Entry>, c: nat, id: Text, job: Text)
    requires Remembers(w, log) && id in w.receipts && w'.now == w.now
    requires w'.receipts == w.receipts[id := Receipt(w.receipts[id].created, Some(job))]
    ensures Remembers(w', log + [Wrote(c, id, job)])
  {
    var x := Wrote(c, id, job);
    var log' := log + [x];
    forall k | k in w'.receipts
      ensures exists i: nat :: ReceiptOf(w'.receipts[k], log', i, k)
    {
      var i: nat :| ReceiptOf(w.receipts[k], log, i, k);
      if k == id {
        StillTheLast(log, x, i, id);
        assert LastWritten(log', i, |log|, id, job);
        assert ReceiptOf(w'.receipts[k], log', i, k);
      } else {
        AppendKeepsReceipt(w.receipts[k], log, x, i, k);
      }
    }
    forall k, i: nat | LivingSubmission(log', i, k, w'.now)
      ensures k in w'.receipts && w'.receipts[k].created == log'[i].at
    {
      AppendLiving(log, x, i, k, w'.now);
    }
  }

  // Forgetting the expired receipts forgets no living submission.
  lemma PruneRemembers(w: World, log: seq<Entry>)
    requires Remembers(w, log)
    ensures Remembers(w.(receipts := Retained(w.receipts, w.now)), log)
  {
  }

  lemma SubmitRemembers(w: World, w': World, log: seq<Entry>, x: Entry)
    requires Remembers(w, log) && x.Decided? && x.decision.Submit? && x.at == w.now == w'.now
    requires w'.receipts == w.receipts[x.id := Receipt(w.now, None)]
    ensures Remembers(w', log + [x])
  {
    var log' := log + [x];
    forall k | k in w'.receipts
      ensures exists i: nat :: ReceiptOf(w'.receipts[k], log', i, k)
    {
      if k == x.id {
        assert ReceiptOf(w'.receipts[k], log', |log|, k);
      } else {
        var i: nat :| ReceiptOf(w.receipts[k], log, i, k);
        AppendKeepsReceipt(w.receipts[k], log, x, i, k);
      }
    }
    forall k, i: nat | LivingSubmission(log', i, k, w'.now)
      ensures k in w'.receipts && w'.receipts[k].created == log'[i].at
    {
      if i < |log| {
        AppendLiving(log, x, i, k, w'.now);
        assert !Submits(log', |log|, k);
      }
    }
  }

  lemma CallRemembers(w: World, log: seq<Entry>, e: BrowserReceipts.Event)
    requires Remembers(w, log) && e.Call?
    ensures Remembers(Next(w, e), log + EntriesOf(w, e))
  {
    if e.caller in w.callers || e.lag > w.now {
      assert log + [] == log;
    } else {
      var w1 := w.(receipts := Retained(w.receipts, w.now));
      AdmissionShape(w.receipts, e.id, e.expected, w.now);
      PruneRemembers(w, log);
      var x := EntriesOf(w, e)[0];
      if x.decision.Submit? {
        SubmitRemembers(w1, Next(w, e), log, x);
      } else {
        OtherEntryRemembers(w1, Next(w, e), log, x);
      }
    }
  }

  lemma StepRemembers(w: World, log: seq<Entry>, e: BrowserReceipts.Event)
    requires Remembers(w, log)
    ensures Remembers(Next(w, e), log + EntriesOf(w, e))
  {
    match e
    case Call(_, _, _, _, _) => CallRemembers(w, log, e);
    case Write(c) =>
      if EntriesOf(w, e) != [] {
        WriteRemembers(w, Next(w, e), log, c, w.callers[c].id, w.callers[c].phase.job);
      } else {
        assert log + [] == log;
        LaterRemembers(w, Next(w, e), log);
      }
    case Answer(c, _) =>
      if EntriesOf(w, e) != [] {
        OtherEntryRemembers(w, Next(w, e), log, EntriesOf(w, e)[0]);
      } else {
        assert log + [] == log;
        LaterRemembers(w, Next(w, e), log);
      }
    case _ =>
      assert log + [] == log;
      LaterRemembers(w, Next(w, e), log);
  }

  // ----- the decision on a call -----

  // The ids with a living submission.
  ghost function LivingIds(log: seq<Entry>, now: nat): set<Text> {
    set x, i | x in log && x.Decided? && 0 <= i < |log| && LivingSubmission(log, i, x.id, now) :: x.id
  }

  // What a call must be told after this log: the task last written for its living
  // submission, that it is pending, or to submit.
  ghost predicate Told(log: seq<Entry>, x: Entry)
    requires x.Decided?
  {
    && (forall i: nat, k: nat, job :: LivingSubmission(log, i, x.id, x.at) && LastWritten(log, i, k, x.id, job) ==>
          if x.expected.None? || x.expected == Some(job) then x.decision == Resume(job) else x.decision.Refuse?)
    && (forall i: nat :: LivingSubmission(log, i, x.id, x.at) && NothingWritten(log, i, x.id) ==> x.decision.Refuse?)
    && ((forall i: nat :: !LivingSubmission(log, i, x.id, x.at)) ==>
          if x.expected.None? && |LivingIds(log, x.at)| < 4096 then x.decision.Submit? else x.decision.Refuse?)
  }

  lemma LivingAreKept(w: World, log: seq<Entry>)
    requires Remembers(w, log)
    ensures Retained(w.receipts, w.now).Keys == LivingIds(log, w.now)
  {
    forall id | id in Retained(w.receipts, w.now)
      ensures id in LivingIds(log, w.now)
    {
      var i: nat :| ReceiptOf(w.receipts[id], log, i, id);
      assert LivingSubmission(log, i, id, w.now);
      assert log[i] in log && log[i].id == id;
    }
  }

  lemma LastIsLast(log: seq<Entry>, i: nat, j: nat, id: Text)
    requires i < |log| && j < |log| && Submits(log, i, id) && Submits(log, j, id)
    requires forall k :: i < k < |log| ==> !Submits(log, k, id)
    requires forall k :: j < k < |log| ==> !Submits(log, k, id)
    ensures i == j
  {
  }

  lemma CallIsTold(w: World, log: seq<Entry>, e: BrowserReceipts.Event)
    requires Remembers(w, log) && e.Call? && EntriesOf(w, e) != []
    ensures Told(log, EntriesOf(w, e)[0])
  {
    var x, kept := EntriesOf(w, e)[0], Retained(w.receipts, w.now);
    LivingAreKept(w, log);
    assert |kept| == |kept.Keys|;
    forall i: nat | LivingSubmission(log, i, x.id, x.at)
      ensures x.id in kept && ReceiptOf(kept[x.id], log, i, x.id)
    {
      var j: nat :| ReceiptOf(w.receipts[x.id], log, j, x.id);
      LastIsLast(log, i, j, x.id);
    }
    if x.id in kept {
      var i: nat :| ReceiptOf(w.receipts[x.id], log, i, x.id);
      assert LivingSubmission(log, i, x.id, x.at);
    }
    assert x.decision == DecisionOn(kept, x.id, x.expected);
    forall i: nat, k: nat, job | LivingSubmission(log, i, x.id, x.at) && LastWritten(log, i, k, x.id, job)
      ensures kept[x.id].job == Some(job)
    {
      WrittenIsKnown(kept[x.id], log, i, k, x.id, job);
    }
    forall i: nat | LivingSubmission(log, i, x.id, x.at) && NothingWritten(log, i, x.id)
      ensures kept[x.id].job == None
    {
      NothingIsKnown(kept[x.id], log, i, x.id);
    }
  }

  lemma WrittenIsKnown(r: Receipt, log: seq<Entry>, i: nat, k: nat, id: Text, job: Text)
    requires ReceiptOf(r, log, i, id) && LastWritten(log, i, k, id, job)
    ensures r.job == Some(job)
  {
    forall j: nat, other | LastWritten(log, i, j, id, other)
      ensures j == k && other == job
    {
    }
  }

  lemma NothingIsKnown(r: Receipt, log: seq<Entry>, i: nat, id: Text)
    requires ReceiptOf(r, log, i, id) && NothingWritten(log, i, id)
    ensures r.job == None
  {
  }

  // ----- over every run -----

  ghost predicate AllTold(log: seq<Entry>) {
    forall n :: 0 <= n < |log| && log[n].Decided? ==> Told(log[..n], log[n])
  }

  lemma OneMoreTold(log: seq<Entry>, x: Entry)
    requires AllTold(log) && (x.Decided? ==> Told(log, x))
    ensures AllTold(log + [x])
  {
    forall n | 0 <= n < |log + [x]| && (log + [x])[n].Decided?
      ensures Told((log + [x])[..n], (log + [x])[n])
    {
      assert (log + [x])[..n] == log[..n];
      assert log[..|log|] == log;
    }
  }

  // Where the accepted and the written job ids come from.
  ghost predicate Origins(w: World, log: seq<Entry>) {
    && (forall i :: 0 <= i < |log| && log[i].Decided? && log[i].decision.Submit? ==> AdmittedBy(w, log[i]))
    && (forall c :: c in w.callers && w.callers[c].phase.Accepted? ==>
          exists m: nat :: RepliedWith(log, m, c, w.callers[c].phase.job))
    && (forall k :: 0 <= k < |log| && log[k].Wrote? ==> FromReply(log, k))
  }

  ghost predicate AdmittedBy(w: World, x: Entry)
    requires x.Decided?
  {
    x.caller in w.callers && w.callers[x.caller].id == x.id && w.callers[x.caller].admitted == x.at
  }

  ghost predicate RepliedWith(log: seq<Entry>, m: nat, c: nat, job: Text) {
    && m < |log| && log[m].Replied? && log[m].caller == c && log[m].reply.task == Some(job)
    && |job| <= 128 && forall b :: b in job ==>
         || '0' as int <= b as int <= '9' as int || 'A' as int <= b as int <= 'Z' as int
         || 'a' as int <= b as int <= 'z' as int || b as int == '-' as int || b as int == '_' as int
  }

  ghost predicate FromReply(log: seq<Entry>, k: nat)
    requires k < |log| && log[k].Wrote?
  {
    exists m: nat :: m < k && RepliedWith(log, m, log[k].caller, log[k].job)
  }

  lemma OriginsLater(w: World, w': World, log: seq<Entry>, xs: seq<Entry>)
    requires Origins(w, log) && |xs| <= 1
    requires forall c :: c in w.callers ==>
               c in w'.callers && w'.callers[c].id == w.callers[c].id && w'.callers[c].admitted == w.callers[c].admitted
    requires forall c :: c in w'.callers && w'.callers[c].phase.Accepted? ==>
               || (c in w.callers && w.callers[c].phase == w'.callers[c].phase)
               || exists m: nat :: RepliedWith(log + xs, m, c, w'.callers[c].phase.job)
    requires xs != [] && xs[0].Decided? && xs[0].decision.Submit? ==> AdmittedBy(w', xs[0])
    requires xs != [] && xs[0].Wrote? ==> exists m: nat :: RepliedWith(log, m, xs[0].caller, xs[0].job)
    ensures Origins(w', log + xs)
  {
    var log' := log + xs;
    assert forall j :: 0 <= j < |log| ==> log'[j] == log[j];
    forall c | c in w'.callers && w'.callers[c].phase.Accepted?
      ensures exists m: nat :: RepliedWith(log', m, c, w'.callers[c].phase.job)
    {
      if c in w.callers && w.callers[c].phase == w'.callers[c].phase {
        var m: nat :| RepliedWith(log, m, c, w.callers[c].phase.job);
        assert RepliedWith(log', m, c, w.callers[c].phase.job);
      }
    }
    forall k | 0 <= k < |log'| && log'[k].Wrote?
      ensures FromReply(log', k)
    {
      if k < |log| { assert FromReply(log, k); }
      var m: nat :| m < k && RepliedWith(log, m, log'[k].caller, log'[k].job);
      assert RepliedWith(log', m, log'[k].caller, log'[k].job);
    }
  }

  lemma StepOrigins(w: World, log: seq<Entry>, e: BrowserReceipts.Event)
    requires Origins(w, log)
    ensures Origins(Next(w, e), log + EntriesOf(w, e))
  {
    CallersStay(w, e);
    PhasesStay(w, e);
    if e.Answer? && e.caller in w.callers { AnswerOrigins(w, log, e); }
    if e.Write? && EntriesOf(w, e) != [] { WriteOrigins(w, log, e); }
    OriginsLater(w, Next(w, e), log, EntriesOf(w, e));
  }

  lemma CallersStay(w: World, e: BrowserReceipts.Event)
    ensures var w', xs := Next(w, e), EntriesOf(w, e);
            && (forall c :: c in w.callers ==>
                  c in w'.callers && w'.callers[c].id == w.callers[c].id
                  && w'.callers[c].admitted == w.callers[c].admitted)
            && (xs != [] && xs[0].Decided? && xs[0].decision.Submit? ==> AdmittedBy(w', xs[0]))
            && (xs != [] && xs[0].Wrote? ==> e.Write?)
  {
  }

  // Only an answer makes a caller accepted.
  lemma PhasesStay(w: World, e: BrowserReceipts.Event)
    ensures forall c :: c in Next(w, e).callers && Next(w, e).callers[c].phase.Accepted? ==>
              c in w.callers && (w.callers[c].phase == Next(w, e).callers[c].phase || (e.Answer? && e.caller == c))
  {
  }

  lemma AnswerOrigins(w: World, log: seq<Entry>, e: BrowserReceipts.Event)
    requires e.Answer? && e.caller in w.callers
    ensures var w', xs := Next(w, e), EntriesOf(w, e);
            e.caller in w'.callers && w'.callers[e.caller].phase.Accepted?
            && w'.callers[e.caller].phase != w.callers[e.caller].phase ==>
              exists m: nat :: RepliedWith(log + xs, m, e.caller, w'.callers[e.caller].phase.job)
  {
    var w', xs := Next(w, e), EntriesOf(w, e);
    if w'.callers[e.caller].phase.Accepted? && w'.callers[e.caller].phase != w.callers[e.caller].phase {
      assert (log + xs)[|log|] == xs[0];
      assert RepliedWith(log + xs, |log|, e.caller, w'.callers[e.caller].phase.job);
    }
  }

  lemma WriteOrigins(w: World, log: seq<Entry>, e: BrowserReceipts.Event)
    requires Origins(w, log) && e.Write? && EntriesOf(w, e) != []
    ensures var x := EntriesOf(w, e)[0]; exists m: nat :: RepliedWith(log, m, x.caller, x.job)
  {
    var m: nat :| RepliedWith(log, m, e.caller, w.callers[e.caller].phase.job);
    var x := EntriesOf(w, e)[0];
    assert RepliedWith(log, m, x.caller, x.job);
  }

  // One event keeps all of it.
  lemma StepTold(w: World, log: seq<Entry>, e: BrowserReceipts.Event)
    requires Remembers(w, log) && Origins(w, log) && AllTold(log)
    ensures Remembers(Next(w, e), log + EntriesOf(w, e)) && Origins(Next(w, e), log + EntriesOf(w, e))
    ensures AllTold(log + EntriesOf(w, e))
  {
    var xs := EntriesOf(w, e);
    StepRemembers(w, log, e);
    StepOrigins(w, log, e);
    if xs == [] {
      assert log + xs == log;
    } else {
      if xs[0].Decided? { CallIsTold(w, log, e); }
      OneMoreTold(log, xs[0]);
      assert xs == [xs[0]];
    }
  }

  lemma LogUnfolds(w: World, log: seq<Entry>, events: seq<BrowserReceipts.Event>)
    ensures events == [] ==> log + LogOf(w, events) == log
    ensures events != [] ==>
              log + LogOf(w, events) == (log + EntriesOf(w, events[0])) + LogOf(Next(w, events[0]), events[1..])
  {
    if events == [] {
      assert LogOf(w, events) == [];
    } else {
      var xs, rest := EntriesOf(w, events[0]), LogOf(Next(w, events[0]), events[1..]);
      assert LogOf(w, events) == xs + rest;
      Associates(log, xs, rest);
    }
  }

  lemma Associates(a: seq<Entry>, b: seq<Entry>, c: seq<Entry>)
    ensures a + (b + c) == (a + b) + c
  {
  }

  lemma {:induction false} EveryCallIsToldFrom(w: World, log: seq<Entry>, events: seq<BrowserReceipts.Event>)
    requires Remembers(w, log) && Origins(w, log) && AllTold(log)
    ensures var all := log + LogOf(w, events);
            Remembers(Run(w, events), all) && Origins(Run(w, events), all) && AllTold(all)
    decreases |events|
  {
    LogUnfolds(w, log, events);
    if events != [] {
      StepTold(w, log, events[0]);
      EveryCallIsToldFrom(Next(w, events[0]), log + EntriesOf(w, events[0]), events[1..]);
    }
  }

  // In every run each call is told exactly what the log before it says, and every
  // written job id is the valid task of a reply to the caller that wrote it.
  lemma EveryCallIsTold(events: seq<BrowserReceipts.Event>)
    ensures AllTold(LogOf(START, events))
    ensures forall k :: 0 <= k < |LogOf(START, events)| && LogOf(START, events)[k].Wrote? ==>
              FromReply(LogOf(START, events), k)
  {
    EveryCallIsToldFrom(START, [], events);
    assert [] + LogOf(START, events) == LogOf(START, events);
  }

  // ----- whose task is resumed -----

  // The task that this decision resumes was written, after the living submission of
  // its id, by the caller of that submission, from a reply to its own POST.
  ghost predicate ResumesOwnTask(before: seq<Entry>, x: Entry)
    requires x.Decided? && x.decision.Resume?
  {
    exists i: nat, k: nat, m: nat ::
      && LivingSubmission(before, i, x.id, x.at) && LastWritten(before, i, k, x.id, x.decision.job)
      && before[k].caller == before[i].caller
      && m < k && RepliedWith(before, m, before[i].caller, x.decision.job)
  }

  predicate Resumes(w: World, e: BrowserReceipts.Event) {
    e.Call? && EntriesOf(w, e) != [] && EntriesOf(w, e)[0].decision.Resume?
  }

  // So for every call that could come next.
  ghost predicate OwnAfter(events: seq<BrowserReceipts.Event>) {
    forall e :: Resumes(Run(START, events), e) ==>
        ResumesOwnTask(LogOf(START, events), EntriesOf(Run(START, events), e)[0])
  }

  // At every point of a run.
  ghost predicate AlwaysOwn(events: seq<BrowserReceipts.Event>) {
    forall m: nat :: m <= |events| ==> OwnAfter(events[..m])
  }

  // A job id written to a receipt that still lives is written by the caller whose
  // admission created it. The code does not compare the two times.
  predicate GuardedWrite(w: World, e: BrowserReceipts.Event) {
    e.Write? && EntriesOf(w, e) != [] ==>
      var k := w.callers[e.caller];
      var r := w.receipts[k.id];
      w.now - r.created < 3_600_000 ==> r.created == k.admitted
  }

  ghost predicate GuardedWrites(events: seq<BrowserReceipts.Event>) {
    forall m: nat :: m < |events| ==> GuardedWrite(Run(START, events[..m]), events[m])
  }

  // The task written for a living submission is that of its caller.
  ghost predicate OwnTasks(w: World, log: seq<Entry>) {
    forall id, i: nat, k: nat, job :: LivingSubmission(log, i, id, w.now) && LastWritten(log, i, k, id, job) ==>
        log[k].caller == log[i].caller
  }

  lemma AppendWritten(log: seq<Entry>, x: Entry, i: nat, k: nat, id: Text, job: Text, now: nat)
    requires LivingSubmission(log + [x], i, id, now) && LastWritten(log + [x], i, k, id, job)
    ensures i < |log| && LivingSubmission(log, i, id, now) && (log + [x])[i] == log[i]
    ensures if x.Wrote? && x.id == id then k == |log| && (log + [x])[k] == x
            else LastWritten(log, i, k, id, job) && (log + [x])[k] == log[k]
  {
    assert forall j :: 0 <= j < |log| ==> (log + [x])[j] == log[j];
    assert (log + [x])[|log|] == x;
    AppendLiving(log, x, i, id, now);
  }

  // Whom the living submission of an id belongs to.
  lemma CallerOfLiving(w: World, log: seq<Entry>, i: nat, id: Text)
    requires AdmissionsApart(w) && Remembers(w, log) && Origins(w, log) && LivingSubmission(log, i, id, w.now)
    ensures id in w.receipts && w.now - w.receipts[id].created < 3_600_000
    ensures forall c :: c in w.callers && w.callers[c].id == id ==>
              (c == log[i].caller <==> w.callers[c].admitted == w.receipts[id].created)
  {
    assert AdmittedBy(w, log[i]);
    forall c | c in w.callers && w.callers[c].id == id && w.callers[c].admitted == w.receipts[id].created
      ensures c == log[i].caller
    {
      SameAdmission(w, c, log[i].caller);
    }
  }

  lemma EntryShape(w: World, e: BrowserReceipts.Event)
    requires EntriesOf(w, e) != []
    ensures Next(w, e).now == w.now && EntriesOf(w, e) == [EntriesOf(w, e)[0]]
    ensures var x := EntriesOf(w, e)[0];
            x.Wrote? ==> e.Write? && e.caller in w.callers && x.caller == e.caller && x.id == w.callers[e.caller].id
  {
  }

  lemma StepOwn(w: World, log: seq<Entry>, e: BrowserReceipts.Event)
    requires AdmissionsApart(w) && Remembers(w, log) && Origins(w, log) && OwnTasks(w, log) && GuardedWrite(w, e)
    ensures OwnTasks(Next(w, e), log + EntriesOf(w, e))
  {
    if EntriesOf(w, e) == [] {
      assert log + EntriesOf(w, e) == log;
    } else {
      var x := EntriesOf(w, e)[0];
      var log' := log + [x];
      EntryShape(w, e);
      forall id, i: nat, k: nat, job | LivingSubmission(log', i, id, w.now) && LastWritten(log', i, k, id, job)
        ensures log'[k].caller == log'[i].caller
      {
        AppendWritten(log, x, i, k, id, job, w.now);
        if x.Wrote? && x.id == id { CallerOfLiving(w, log, i, id); }
      }
    }
  }

  lemma {:induction false} InParts(w: World, a: seq<BrowserReceipts.Event>, b: seq<BrowserReceipts.Event>)
    ensures Run(w, a + b) == Run(Run(w, a), b) && LogOf(w, a + b) == LogOf(w, a) + LogOf(Run(w, a), b)
    decreases |a|
  {
    if a == [] {
      assert a + b == b;
    } else {
      var e, rest := a[0], a[1..];
      assert (a + b)[0] == e && (a + b)[1..] == rest + b;
      InParts(Next(w, e), rest, b);
      assert Run(w, a + b) == Run(Next(w, e), rest + b);
      assert LogOf(w, a + b) == EntriesOf(w, e) + LogOf(Next(w, e), rest + b);
      Associates(EntriesOf(w, e), LogOf(Next(w, e), rest), LogOf(Run(w, a), b));
    }
  }

  lemma OneEventMore(events: seq<BrowserReceipts.Event>, m: nat)
    requires m < |events|
    ensures var w := Run(START, events[..m]);
            && Run(START, events[..m + 1]) == Next(w, events[m])
            && LogOf(START, events[..m + 1]) == LogOf(START, events[..m]) + EntriesOf(w, events[m])
  {
    var w, one := Run(START, events[..m]), [events[m]];
    assert events[..m + 1] == events[..m] + one;
    InParts(START, events[..m], one);
    assert one[1..] == [] && Run(w, one) == Run(Next(w, one[0]), one[1..]) == Next(w, one[0]);
    assert LogOf(w, one) == EntriesOf(w, one[0]) + LogOf(Next(w, one[0]), one[1..]);
  }

  lemma RunIsGood(events: seq<BrowserReceipts.Event>)
    ensures var w, log := Run(START, events), LogOf(START, events);
            AdmissionsApart(w) && YoungHasReceipt(w) && Remembers(w, log) && Origins(w, log)
  {
    StartIsGood();
    EveryRunKeepsInv(START, events);
    EveryCallIsToldFrom(START, [], events);
    assert [] + LogOf(START, events) == LogOf(START, events);
  }

  lemma OneGuardedMore(events: seq<BrowserReceipts.Event>, m: nat)
    requires m < |events| && GuardedWrite(Run(START, events[..m]), events[m])
    requires OwnTasks(Run(START, events[..m]), LogOf(START, events[..m]))
    ensures OwnTasks(Run(START, events[..m + 1]), LogOf(START, events[..m + 1]))
  {
    RunIsGood(events[..m]);
    OneEventMore(events, m);
    StepOwn(Run(START, events[..m]), LogOf(START, events[..m]), events[m]);
  }

  lemma {:induction false} GuardedRunsOwn(events: seq<BrowserReceipts.Event>, m: nat)
    requires GuardedWrites(events) && m <= |events|
    ensures OwnTasks(Run(START, events[..m]), LogOf(START, events[..m]))
  {
    if m > 0 {
      GuardedRunsOwn(events, m - 1);
      OneGuardedMore(events, m - 1);
    }
  }

  lemma {:induction false} LastWrittenExists(log: seq<Entry>, i: nat, id: Text, n: nat)
    requires i < n <= |log| && forall j :: n <= j < |log| ==> !(log[j].Wrote? && log[j].id == id)
    ensures NothingWritten(log, i, id) || exists k: nat, job :: LastWritten(log, i, k, id, job)
  {
    if n > i + 1 {
      if log[n - 1].Wrote? && log[n - 1].id == id {
        assert LastWritten(log, i, n - 1, id, log[n - 1].job);
      } else {
        LastWrittenExists(log, i, id, n - 1);
      }
    }
  }

  lemma ResumeWasWritten(before: seq<Entry>, x: Entry) returns (i: nat, k: nat)
    requires x.Decided? && x.decision.Resume? && Told(before, x)
    ensures LivingSubmission(before, i, x.id, x.at) && LastWritten(before, i, k, x.id, x.decision.job)
  {
    i :| LivingSubmission(before, i, x.id, x.at);
    LastWrittenExists(before, i, x.id, |before|);
    var job;
    k, job :| LastWritten(before, i, k, x.id, job);
  }

  lemma OwnTasksAreResumed(events: seq<BrowserReceipts.Event>)
    requires OwnTasks(Run(START, events), LogOf(START, events))
    ensures OwnAfter(events)
  {
    var w, log := Run(START, events), LogOf(START, events);
    RunIsGood(events);
    forall e | Resumes(w, e)
      ensures ResumesOwnTask(log, EntriesOf(w, e)[0])
    {
      var x := EntriesOf(w, e)[0];
      CallIsTold(w, log, e);
      var i, k := ResumeWasWritten(log, x);
      assert FromReply(log, k);
      var m: nat :| m < k && RepliedWith(log, m, log[k].caller, log[k].job);
      assert RepliedWith(log, m, log[i].caller, x.decision.job);
    }
  }

  // A caller that has no number in this set.
  ghost function NewCaller(s: set<nat>): (c: nat)
    ensures forall x :: x in s ==> x < c
  {
    if s == {} then 0
    else
      var x := Pick(s);
      var c := NewCaller(s - {x});
      assert forall y :: y in s ==> y == x || y in s - {x};
      if x < c then c else x + 1
  }

  // The other half: after an unguarded write the next call resumes a task that is
  // not the one of the living submission.
  lemma ProbeResumes(w: World, e: BrowserReceipts.Event, c: nat)
    requires !GuardedWrite(w, e) && c !in Next(w, e).callers
    ensures var id, job := w.callers[e.caller].id, w.callers[e.caller].phase.job;
            && EntriesOf(w, e) == [Wrote(e.caller, id, job)]
            && EntriesOf(Next(w, e), Call(c, id, None, 0, 1)) == [Decided(c, id, None, w.now, Resume(job))]
  {
    AdmissionShape(Next(w, e).receipts, w.callers[e.caller].id, None, w.now);
  }

  lemma NotOwn(w: World, log: seq<Entry>, c: nat, x: Entry)
    requires AdmissionsApart(w) && Remembers(w, log) && Origins(w, log)
    requires c in w.callers && x.Decided? && x.decision.Resume? && x.at == w.now
    requires x.id == w.callers[c].id
    requires x.id in w.receipts ==> w.receipts[x.id].created != w.callers[c].admitted
    ensures !ResumesOwnTask(log + [Wrote(c, x.id, x.decision.job)], x)
  {
    var y := Wrote(c, x.id, x.decision.job);
    var log' := log + [y];
    forall i: nat, k: nat | LivingSubmission(log', i, x.id, x.at) && LastWritten(log', i, k, x.id, x.decision.job)
      ensures log'[k].caller != log'[i].caller
    {
      AppendWritten(log, y, i, k, x.id, x.decision.job, w.now);
      CallerOfLiving(w, log, i, x.id);
    }
  }

  lemma UnguardedWriteShows(events: seq<BrowserReceipts.Event>, m: nat)
    requires m < |events| && !GuardedWrite(Run(START, events[..m]), events[m])
    ensures !OwnAfter(events[..m + 1])
  {
    var w, e := Run(START, events[..m]), events[m];
    RunIsGood(events[..m]);
    OneEventMore(events, m);
    var c := NewCaller(Next(w, e).callers.Keys);
    var call := Call(c, w.callers[e.caller].id, None, 0, 1);
    ProbeResumes(w, e, c);
    NotOwn(w, LogOf(START, events[..m]), e.caller, EntriesOf(Next(w, e), call)[0]);
    assert Resumes(Next(w, e), call);
  }

  // Over every run: each task that a call resumes, or could resume, is that of the
  // caller whose submission lives, if and only if each write is guarded.
  lemma ResumedTasksAreOwnExactly(events: seq<BrowserReceipts.Event>)
    ensures AlwaysOwn(events) <==> GuardedWrites(events)
  {
    if GuardedWrites(events) {
      forall m: nat | m <= |events|
        ensures OwnAfter(events[..m])
      {
        GuardedRunsOwn(events, m);
        OwnTasksAreResumed(events[..m]);
      }
    } else {
      var m: nat :| m < |events| && !GuardedWrite(Run(START, events[..m]), events[m]);
      UnguardedWriteShows(events, m);
      assert !OwnAfter(events[..m + 1]);
    }
  }

  predicate PromptWrite(w: World, e: BrowserReceipts.Event) {
    e.Write? && EntriesOf(w, e) != [] ==> w.now < w.callers[e.caller].admitted + 3_600_000
  }

  // It is enough that every job id is written within an hour of its caller's admission.
  lemma PromptWritesResumeOwn(events: seq<BrowserReceipts.Event>)
    requires forall m: nat :: m < |events| ==> PromptWrite(Run(START, events[..m]), events[m])
    ensures AlwaysOwn(events)
  {
    forall m: nat | m < |events|
      ensures GuardedWrite(Run(START, events[..m]), events[m])
    {
      RunIsGood(events[..m]);
      PromptWriteIsGuarded(Run(START, events[..m]), events[m]);
    }
    ResumedTasksAreOwnExactly(events);
  }

  lemma PromptWriteIsGuarded(w: World, e: BrowserReceipts.Event)
    requires YoungHasReceipt(w) && PromptWrite(w, e)
    ensures GuardedWrite(w, e)
  {
  }

  // ----- a late write -----

  function Task(job: Text): Option<Reply> {
    Some(Reply(Some(true), false, [], Some(job)))
  }

  // The first caller gets its reply in time and writes the job id only after its
  // receipt expired and a second caller submitted, got its reply and wrote.
  function LateWriter(id: Text, a: Text, b: Text, deadline: nat): seq<BrowserReceipts.Event> {
    FirstCaller(id, a, deadline) + SecondCaller(id, b, deadline) + [Write(1)]
  }

  function FirstCaller(id: Text, a: Text, deadline: nat): seq<BrowserReceipts.Event> {
    [Call(1, id, None, 0, deadline), Send(1), Answer(1, Task(a)), Tick(RECEIPT_TTL_MS)]
  }

  function SecondCaller(id: Text, b: Text, deadline: nat): seq<BrowserReceipts.Event> {
    [Call(2, id, None, 0, deadline), Send(2), Answer(2, Task(b)), Write(2)]
  }

  // Then the living receipt of the second caller resumes the first one's task.
  lemma LateWriteChangesTask(id: Text, a: Text, b: Text, deadline: nat)
    requires ValidJobId(a) && ValidJobId(b) && a != b && 0 < deadline <= RECEIPT_TTL_MS
    ensures var w := Run(START, LateWriter(id, a, b, deadline));
            && id in w.receipts && Live(w.receipts[id], w.now) && w.receipts[id] == Receipt(RECEIPT_TTL_MS, Some(a))
            && Admission(w.receipts, id, None, w.now).1 == Resume(a)
  {
    var late, w := [Write(1)], AfterSecond(id, a, b, deadline);
    FirstReplied(id, a, deadline);
    SecondWrote(id, a, b, deadline);
    InParts(START, FirstCaller(id, a, deadline) + SecondCaller(id, b, deadline), late);
    InParts(START, FirstCaller(id, a, deadline), SecondCaller(id, b, deadline));
    LastWrite(id, a, b, deadline);
  }

  lemma LastWrite(id: Text, a: Text, b: Text, deadline: nat)
    ensures var w, w' := AfterSecond(id, a, b, deadline), Run(AfterSecond(id, a, b, deadline), [Write(1)]);
            && w'.now == RECEIPT_TTL_MS && w'.receipts == map[id := Receipt(RECEIPT_TTL_MS, Some(a))]
            && Admission(w'.receipts, id, None, w'.now).1 == Resume(a)
  {
    var w, late := AfterSecond(id, a, b, deadline), [Write(1)];
    var w' := Next(w, late[0]);
    assert late[1..] == [] && Run(w', late[1..]) == w';
    assert Run(w, late) == w';
    assert Retained(w'.receipts, w'.now) == w'.receipts;
    assert EntriesOf(w, Write(1)) == [Wrote(1, id, a)];
  }

  function AfterFirst(id: Text, a: Text, deadline: nat): World {
    World(RECEIPT_TTL_MS, map[id := Receipt(0, None)], map[1 := Caller(id, 0, deadline, Accepted(a))],
          [Post(1, 0, 1, None)])
  }

  function AfterSecond(id: Text, a: Text, b: Text, deadline: nat): World {
    World(RECEIPT_TTL_MS, map[id := Receipt(RECEIPT_TTL_MS, Some(b))],
          map[1 := Caller(id, 0, deadline, Accepted(a)),
              2 := Caller(id, RECEIPT_TTL_MS, RECEIPT_TTL_MS + deadline, Done)],
          [Post(1, 0, 1, None), Post(2, RECEIPT_TTL_MS, 1, None)])
  }

  lemma FirstReplied(id: Text, a: Text, deadline: nat)
    requires ValidJobId(a) && 0 < deadline
    ensures Run(START, FirstCaller(id, a, deadline)) == AfterFirst(id, a, deadline)
  {
    var e0 := FirstCaller(id, a, deadline);
    var e1 := e0[1..];
    var e2 := e1[1..];
    var e3 := e2[1..];
    var w1 := Next(START, e0[0]);
    assert Retained(map[], 0) == map[];
    assert w1 == World(0, map[id := Receipt(0, None)], map[1 := Caller(id, 0, deadline, Ready)], []);
    var w2 := Next(w1, e1[0]);
    assert w2 == World(0, w1.receipts, map[1 := Caller(id, 0, deadline, Sent)], [Post(1, 0, 1, None)]);
    var w3 := Next(w2, e2[0]);
    assert w3.callers == map[1 := Caller(id, 0, deadline, Accepted(a))];
    var w4 := Next(w3, e3[0]);
    assert e3[1..] == [] && Run(w4, e3[1..]) == w4;
    assert Run(w1, e1) == Run(w2, e2) == Run(w3, e3);
  }

  lemma SecondWrote(id: Text, a: Text, b: Text, deadline: nat)
    requires ValidJobId(b) && 0 < deadline
    ensures Run(AfterFirst(id, a, deadline), SecondCaller(id, b, deadline)) == AfterSecond(id, a, b, deadline)
  {
    var w0, e0 := AfterFirst(id, a, deadline), SecondCaller(id, b, deadline);
    var e1 := e0[1..];
    var e2 := e1[1..];
    var e3 := e2[1..];
    var now := RECEIPT_TTL_MS;
    var k := Caller(id, now, now + deadline, Ready);
    var w1 := Next(w0, e0[0]);
    assert Retained(w0.receipts, now) == map[];
    assert w1 == World(now, map[id := Receipt(now, None)], w0.callers[2 := k], w0.posts);
    var w2 := Next(w1, e1[0]);
    assert w2 == World(now, w1.receipts, w0.callers[2 := k.(phase := Sent)], w0.posts + [Post(2, now, 1, None)]);
    var w3 := Next(w2, e2[0]);
    assert w3 == w2.(callers := w0.callers[2 := k.(phase := Accepted(b))]);
    var w4 := Next(w3, e3[0]);
    assert e3[1..] == [] && Run(w4, e3[1..]) == w4;
    assert Run(w1, e1) == Run(w2, e2) == Run(w3, e3);
  }
}
