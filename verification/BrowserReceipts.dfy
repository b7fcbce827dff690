// Receipts of browser task submissions: the locked admission step and, above it,
// every interleaving of concurrent callers.
module BrowserReceipts {
  import opened Bytes
  import opened Results
  import opened Sets

  const RECEIPT_TTL_MS: nat := 3_600_000
  const MAX_RECEIPTS: nat := 4096

  datatype Receipt = Receipt(created: nat, job: Option<Text>)

  datatype Decision = Resume(job: Text) | Submit | Refuse(reason: string)

  predicate Live(r: Receipt, now: nat) {
    now - r.created < RECEIPT_TTL_MS
  }

  function Retained(receipts: map<Text, Receipt>, now: nat): map<Text, Receipt> {
    map id | id in receipts && Live(receipts[id], now) :: receipts[id]
  }

  // The decision on the living receipts.
  function DecisionOn(kept: map<Text, Receipt>, id: Text, expected: Option<Text>): Decision {
    if expected.Some? && !(id in kept && kept[id].job == expected) then
      Refuse("browser task receipt expired or changed; read was not resubmitted")
    else if id in kept then
      match kept[id].job
      case Some(job) => Resume(job)
      case None => Refuse("browser task admission is pending or unknown; do not resubmit")
    else if |kept| >= MAX_RECEIPTS then Refuse("browser task receipt capacity reached")
    else Submit
  }

  // The decision and the receipts after it, all under one lock.
  function Admission(receipts: map<Text, Receipt>, id: Text, expected: Option<Text>, now: nat)
    : (map<Text, Receipt>, Decision)
  {
    var kept := Retained(receipts, now);
    var d := DecisionOn(kept, id, expected);
    (if d.Submit? then kept[id := Receipt(now, None)] else kept, d)
  }

  // Writing a job id back after the response: only onto a receipt that is there.
  function Recorded(receipts: map<Text, Receipt>, id: Text, job: Text): map<Text, Receipt> {
    if id in receipts then receipts[id := receipts[id].(job := Some(job))] else receipts
  }

  class BrowserTaskClient {
    var receipts: map<Text, Receipt>

    constructor ()
      ensures receipts == map[]
    {
      receipts := map[];
    }

    // The first locked section of call_with_expected_job.
    method Admit(id: Text, expected: Option<Text>, now: nat) returns (d: Decision)
      modifies this
      ensures (receipts, d) == Admission(old(receipts), id, expected, now)
      ensures expected.Some? ==> !d.Submit?
      // Receipts of an hour are forgotten; a living one resumes its own task, and only
      // an expected one; a submission leaves a new receipt.
      ensures var kept := map k | k in old(receipts) && now - old(receipts)[k].created < 3_600_000 :: old(receipts)[k];
              && receipts == (if d.Submit? then kept[id := Receipt(now, None)] else kept)
              && (d.Submit? <==> expected.None? && id !in kept && |kept| < 4096)
              && forall job :: d == Resume(job) <==>
                   id in kept && kept[id].job == Some(job) && (expected.None? || expected == Some(job))
    {
      ghost var kept := map k | k in receipts && now - receipts[k].created < 3_600_000 :: receipts[k];
      assert kept == Retained(receipts, now);
      receipts := map k | k in receipts && Live(receipts[k], now) :: receipts[k];
      assert receipts == kept;
      d := Decide(id, expected, now);
    }

    // The decision, once the expired receipts are gone.
    method Decide(id: Text, expected: Option<Text>, now: nat) returns (d: Decision)
      modifies this
      ensures receipts == if d.Submit? then old(receipts)[id := Receipt(now, None)] else old(receipts)
      ensures forall job :: d == Resume(job) <==>
                id in old(receipts) && old(receipts)[id].job == Some(job) && (expected.None? || expected == Some(job))
      ensures d.Submit? <==> expected.None? && id !in old(receipts) && |old(receipts)| < 4096
      ensures d == DecisionOn(old(receipts), id, expected)
    {
      if expected.Some? && !(id in receipts && receipts[id].job == expected) {
        return Refuse("browser task receipt expired or changed; read was not resubmitted");
      }
      if id in receipts {
        match receipts[id].job
        case Some(job) => return Resume(job);
        case None => return Refuse("browser task admission is pending or unknown; do not resubmit");
      }
      if |receipts| >= MAX_RECEIPTS {
        return Refuse("browser task receipt capacity reached");
      }
      receipts := receipts[id := Receipt(now, None)];
      d := Submit;
    }

    // The second locked section, after the Hub accepted the submission.
    method Record(id: Text, job: Text) returns (ok: bool)
      modifies this
      ensures receipts == Recorded(old(receipts), id, job)
      ensures ok <==> id in old(receipts)
      ensures receipts == if ok then old(receipts)[id := Receipt(old(receipts)[id].created, Some(job))]
                          else old(receipts)
    {
      if id !in receipts { return false; }
      receipts := receipts[id := receipts[id].(job := Some(job))];
      ok := true;
    }
  }

  lemma AdmissionIsBounded(receipts: map<Text, Receipt>, id: Text, expected: Option<Text>, now: nat)
    requires |receipts| <= MAX_RECEIPTS
    ensures |Admission(receipts, id, expected, now).0| <= MAX_RECEIPTS
  {
    var kept := Retained(receipts, now);
    SubsetIsSmaller(kept.Keys, receipts.Keys);
    assert |kept| == |kept.Keys| && |receipts| == |receipts.Keys|;
    if id !in kept {
      assert kept[id := Receipt(now, None)].Keys == kept.Keys + {id};
    }
  }

  // ----- concurrent callers -----

  // The parts of a Hub response that the submission looks at.
  datatype Reply = Reply(executed: Option<bool>, instructionsRequired: bool, context: Text, task: Option<Text>)

  // A refusal that proves the call had no effect.
  predicate NoEffectRefusal(r: Reply) {
    r.executed == Some(false) && r.instructionsRequired
  }

  datatype Phase =
    | Ready                   // admitted, nothing sent
    | Sent                    // first POST out
    | Retry(first: Reply)     // first POST refused without effect
    | Resent(first: Reply)    // second POST out
    | Accepted(job: Text)     // job id known, not yet recorded
    | Done

  // A call that was told to submit: its key, when it was admitted, and the end
  // of its deadline, which started no later than the admission.
  datatype Caller = Caller(id: Text, admitted: nat, expires: nat, phase: Phase)

  // One POST on the wire; the second one of a caller follows a reply to the first.
  datatype Post = Post(caller: nat, at: nat, attempt: nat, after: Option<Reply>)

  datatype World = World(now: nat, receipts: map<Text, Receipt>, callers: map<nat, Caller>, posts: seq<Post>)

  datatype Event =
    | Tick(ms: nat)
    | Call(caller: nat, id: Text, expected: Option<Text>, lag: nat, deadline: nat)
    | Send(caller: nat)
    | Answer(caller: nat, reply: Option<Reply>)   // None: transport failure
    | Write(caller: nat)                          // record the job id
    | Drop(caller: nat)                           // the caller goes away

  const START := World(0, map[], map[], [])

  predicate ValidJobId(job: Text) {
    |job| <= 128 && forall b :: b in job ==>
      (48 <= b <= 57) || (65 <= b <= 90) || (97 <= b <= 122) || b == 45 || b == 95
  }

  function Taken(reply: Option<Reply>): Phase {
    if reply.Some? && reply.value.task.Some? && ValidJobId(reply.value.task.value)
    then Accepted(reply.value.task.value) else Done
  }

  function SetPhase(w: World, c: nat, p: Phase): World
    requires c in w.callers
  {
    w.(callers := w.callers[c := w.callers[c].(phase := p)])
  }

  function Next(w: World, e: Event): World {
    match e
    case Tick(ms) => w.(now := w.now + ms)
    case Call(c, id, expected, lag, deadline) =>
      if c in w.callers || lag > w.now then w
      else
        var (receipts, d) := Admission(w.receipts, id, expected, w.now);
        var w' := w.(receipts := receipts);
        if d.Submit?
        then w'.(callers := w.callers[c := Caller(id, w.now, w.now - lag + deadline, Ready)])
        else w'
    case Send(c) =>
      if c !in w.callers then w
      else
        var k := w.callers[c];
        if k.phase.Ready? then
          if w.now < k.expires
          then SetPhase(w, c, Sent).(posts := w.posts + [Post(c, w.now, 1, None)]) else SetPhase(w, c, Done)
        else if k.phase.Retry? then
          if w.now < k.expires
          then SetPhase(w, c, Resent(k.phase.first)).(posts := w.posts + [Post(c, w.now, 2, Some(k.phase.first))])
          else SetPhase(w, c, Done)
        else w
    case Answer(c, reply) =>
      if c !in w.callers then w
      else if w.callers[c].phase.Sent? then
        if reply.Some? && NoEffectRefusal(reply.value)
        then SetPhase(w, c, if reply.value.context == [] then Done else Retry(reply.value))
        else SetPhase(w, c, Taken(reply))
      else if w.callers[c].phase.Resent? then SetPhase(w, c, Taken(reply))
      else w
    case Write(c) =>
      if c in w.callers && w.callers[c].phase.Accepted?
      then SetPhase(w, c, Done).(receipts := Recorded(w.receipts, w.callers[c].id, w.callers[c].phase.job))
      else w
    case Drop(c) => if c in w.callers then SetPhase(w, c, Done) else w
  }

  function Run(w: World, events: seq<Event>): World
    decreases |events|
  {
    if events == [] then w else Run(Next(w, events[0]), events[1..])
  }

  // ----- the invariant -----

  // How many POSTs a phase allows to have happened.
  function Sends(p: Phase): nat {
    match p
    case Ready => 0
    case Sent => 1
    case Retry(_) => 1
    case _ => 2
  }

  predicate Apart(a: Caller, b: Caller) {
    a.admitted + RECEIPT_TTL_MS <= b.admitted || b.admitted + RECEIPT_TTL_MS <= a.admitted
  }

  ghost predicate AdmissionsApart(w: World) {
    forall c, d :: c in w.callers && d in w.callers && c != d && w.callers[c].id == w.callers[d].id ==>
      Apart(w.callers[c], w.callers[d])
  }

  // A young admission is the one its receipt stands for.
  ghost predicate YoungHasReceipt(w: World) {
    forall c :: c in w.callers ==>
      && w.callers[c].admitted <= w.now
      && (w.now < w.callers[c].admitted + RECEIPT_TTL_MS ==>
            && w.callers[c].id in w.receipts
            && w.receipts[w.callers[c].id].created == w.callers[c].admitted)
  }

  ghost predicate Created(w: World, id: Text, c: nat) {
    c in w.callers && w.callers[c].id == id && id in w.receipts && w.callers[c].admitted == w.receipts[id].created
  }

  ghost predicate ReceiptsHaveCreator(w: World) {
    forall id :: id in w.receipts ==> exists c :: Created(w, id, c)
  }

  ghost predicate GoodPost(w: World, p: Post) {
    && p.caller in w.callers
    && var k := w.callers[p.caller];
       && k.admitted <= p.at <= w.now && p.at < k.expires
       && 1 <= p.attempt <= Sends(k.phase) && p.attempt <= 2
       && (p.attempt == 2 ==> p.after.Some? && NoEffectRefusal(p.after.value) && p.after.value.context != [])
  }

  ghost predicate PostsDistinct(posts: seq<Post>) {
    forall i, j :: 0 <= i < j < |posts| && posts[i].caller == posts[j].caller ==>
      posts[i].attempt < posts[j].attempt
  }

  ghost predicate Inv(w: World) {
    && |w.receipts| <= MAX_RECEIPTS
    && AdmissionsApart(w)
    && YoungHasReceipt(w)
    && ReceiptsHaveCreator(w)
    && (forall p :: p in w.posts ==> GoodPost(w, p))
    && PostsDistinct(w.posts)
    && (forall c :: c in w.callers && w.callers[c].phase.Retry? ==> Repeatable(w.callers[c].phase))
  }

  predicate Repeatable(p: Phase) {
    p.Retry? ==> NoEffectRefusal(p.first) && p.first.context != []
  }

  lemma PruneKeepsInv(w: World)
    requires Inv(w)
    ensures Inv(w.(receipts := Retained(w.receipts, w.now)))
  {
    var kept := Retained(w.receipts, w.now);
    var w' := w.(receipts := kept);
    SubsetIsSmaller(kept.Keys, w.receipts.Keys);
    assert |kept| == |kept.Keys| && |w.receipts| == |w.receipts.Keys|;
    forall id | id in kept
      ensures exists c :: Created(w', id, c)
    {
      var c :| Created(w, id, c);
      assert Created(w', id, c);
    }
    forall p | p in w'.posts
      ensures GoodPost(w', p)
    {
      assert GoodPost(w, p);
    }
  }

  function Submitted(w: World, c: nat, k: Caller): World {
    w.(receipts := w.receipts[k.id := Receipt(w.now, None)], callers := w.callers[c := k])
  }

  lemma SubmitKeepsReceipts(w: World, c: nat, k: Caller)
    requires |w.receipts| < MAX_RECEIPTS && ReceiptsHaveCreator(w) && c !in w.callers && k.admitted == w.now
    ensures |Submitted(w, c, k).receipts| <= MAX_RECEIPTS && ReceiptsHaveCreator(Submitted(w, c, k))
  {
    var w' := Submitted(w, c, k);
    assert w'.receipts.Keys == w.receipts.Keys + {k.id};
    assert |w'.receipts| == |w'.receipts.Keys| && |w.receipts| == |w.receipts.Keys|;
    forall id | id in w'.receipts
      ensures exists d :: Created(w', id, d)
    {
      if id == k.id {
        assert Created(w', id, c);
      } else {
        var d :| Created(w, id, d);
        assert Created(w', id, d);
      }
    }
  }

  // The key of a new submission has no receipt, so its last admission is old.
  lemma SubmitKeepsApart(w: World, c: nat, k: Caller)
    requires AdmissionsApart(w) && YoungHasReceipt(w) && c !in w.callers
    requires k.id !in w.receipts && k.admitted == w.now
    ensures AdmissionsApart(Submitted(w, c, k)) && YoungHasReceipt(Submitted(w, c, k))
  {
    var w' := Submitted(w, c, k);
    forall d | d in w.callers && w.callers[d].id == k.id
      ensures w.callers[d].admitted + RECEIPT_TTL_MS <= w.now
    {
      assert !(w.now < w.callers[d].admitted + RECEIPT_TTL_MS);
    }
    forall a, b | a in w'.callers && b in w'.callers && a != b && w'.callers[a].id == w'.callers[b].id
      ensures Apart(w'.callers[a], w'.callers[b])
    {
      if a != c && b != c { assert Apart(w.callers[a], w.callers[b]); }
    }
  }

  lemma SubmitKeepsPosts(w: World, c: nat, k: Caller)
    requires c !in w.callers && forall p :: p in w.posts ==> GoodPost(w, p)
    ensures forall p :: p in w.posts ==> GoodPost(Submitted(w, c, k), p)
  {
    forall p | p in w.posts
      ensures GoodPost(Submitted(w, c, k), p)
    {
      assert GoodPost(w, p);
    }
  }

  lemma SubmitKeepsInv(w: World, c: nat, k: Caller)
    requires Inv(w) && c !in w.callers
    requires k.id !in w.receipts && |w.receipts| < MAX_RECEIPTS
    requires k.admitted == w.now && k.phase.Ready?
    ensures Inv(Submitted(w, c, k))
  {
    SubmitKeepsReceipts(w, c, k);
    SubmitKeepsApart(w, c, k);
    SubmitKeepsPosts(w, c, k);
  }

  lemma AdmissionShape(receipts: map<Text, Receipt>, id: Text, expected: Option<Text>, now: nat)
    ensures var kept, (receipts', d) := Retained(receipts, now), Admission(receipts, id, expected, now);
            && (d.Submit? ==> id !in kept && |kept| < MAX_RECEIPTS && receipts' == kept[id := Receipt(now, None)])
            && (!d.Submit? ==> receipts' == kept)
  {
  }

  // A call prunes the receipts, and submits only where there is room and no receipt.
  lemma CallShape(w: World, e: Event) returns (k: Caller)
    requires e.Call? && e.caller !in w.callers && e.lag <= w.now
    ensures var w1 := w.(receipts := Retained(w.receipts, w.now));
            || Next(w, e) == w1
            || (k.id !in w1.receipts && |w1.receipts| < MAX_RECEIPTS && k.admitted == w.now && k.phase.Ready?
                && Next(w, e) == Submitted(w1, e.caller, k))
  {
    AdmissionShape(w.receipts, e.id, e.expected, w.now);
    k := Caller(e.id, w.now, w.now - e.lag + e.deadline, Ready);
  }

  lemma CallKeepsInv(w: World, e: Event)
    requires Inv(w) && e.Call?
    ensures Inv(Next(w, e))
  {
    if e.caller !in w.callers && e.lag <= w.now {
      var w1 := w.(receipts := Retained(w.receipts, w.now));
      var k := CallShape(w, e);
      PruneKeepsInv(w);
      if Next(w, e) != w1 { SubmitKeepsInv(w1, e.caller, k); }
    }
  }

  lemma PhaseKeepsInv(w: World, c: nat, p: Phase)
    requires Inv(w) && c in w.callers && Sends(w.callers[c].phase) <= Sends(p) && Repeatable(p)
    ensures Inv(SetPhase(w, c, p))
  {
    var w' := SetPhase(w, c, p);
    forall id | id in w'.receipts
      ensures exists k :: Created(w', id, k)
    {
      var k :| Created(w, id, k);
      assert Created(w', id, k);
    }
    forall q | q in w'.posts
      ensures GoodPost(w', q)
    {
      assert GoodPost(w, q);
    }
  }

  lemma SendKeepsInv(w: World, e: Event)
    requires Inv(w) && e.Send?
    ensures Inv(Next(w, e))
  {
    var c := e.caller;
    if c in w.callers && (w.callers[c].phase.Ready? || w.callers[c].phase.Retry?) {
      var k := w.callers[c];
      if w.now < k.expires {
        var attempt, p := if k.phase.Ready? then 1 else 2, if k.phase.Ready? then Sent else Resent(k.phase.first);
        PhaseKeepsInv(w, c, p);
        var after := if k.phase.Ready? then None else Some(k.phase.first);
        forall i | 0 <= i < |w.posts| && w.posts[i].caller == c
          ensures w.posts[i].attempt < attempt
        {
          assert GoodPost(w, w.posts[i]);
        }
        PostKeepsInv(SetPhase(w, c, p), Post(c, w.now, attempt, after));
      } else {
        PhaseKeepsInv(w, c, Done);
      }
    }
  }

  lemma PostKeepsInv(w: World, post: Post)
    requires Inv(w) && GoodPost(w, post)
    requires forall i :: 0 <= i < |w.posts| && w.posts[i].caller == post.caller ==> w.posts[i].attempt < post.attempt
    ensures Inv(w.(posts := w.posts + [post]))
  {
    var w' := w.(posts := w.posts + [post]);
    forall q | q in w'.posts
      ensures GoodPost(w', q)
    {
      assert GoodPost(w, q);
    }
    forall id | id in w'.receipts
      ensures exists k :: Created(w', id, k)
    {
      var k :| Created(w, id, k);
      assert Created(w', id, k);
    }
  }

  lemma JobKeepsInv(w: World, id: Text, job: Text)
    requires Inv(w)
    ensures Inv(w.(receipts := Recorded(w.receipts, id, job)))
  {
    var receipts := Recorded(w.receipts, id, job);
    var w' := w.(receipts := receipts);
    assert receipts.Keys == w.receipts.Keys;
    assert |receipts| == |receipts.Keys| && |w.receipts| == |w.receipts.Keys|;
    forall k | k in receipts
      ensures receipts[k].created == w.receipts[k].created
      ensures exists c :: Created(w', k, c)
    {
      var c :| Created(w, k, c);
      assert Created(w', k, c);
    }
    forall q | q in w'.posts
      ensures GoodPost(w', q)
    {
      assert GoodPost(w, q);
    }
  }

  lemma WriteKeepsInv(w: World, e: Event)
    requires Inv(w) && e.Write?
    ensures Inv(Next(w, e))
  {
    var c := e.caller;
    if c in w.callers && w.callers[c].phase.Accepted? {
      PhaseKeepsInv(w, c, Done);
      JobKeepsInv(SetPhase(w, c, Done), w.callers[c].id, w.callers[c].phase.job);
    }
  }

  lemma TickKeepsInv(w: World, e: Event)
    requires Inv(w) && e.Tick?
    ensures Inv(Next(w, e))
  {
    var w' := Next(w, e);
    forall id | id in w'.receipts
      ensures exists k :: Created(w', id, k)
    {
      var k :| Created(w, id, k);
      assert Created(w', id, k);
    }
    forall q | q in w'.posts
      ensures GoodPost(w', q)
    {
      assert GoodPost(w, q);
    }
  }

  lemma AnswerKeepsInv(w: World, e: Event)
    requires Inv(w) && e.Answer?
    ensures Inv(Next(w, e))
  {
    var c := e.caller;
    if c in w.callers && (w.callers[c].phase.Sent? || w.callers[c].phase.Resent?) {
      PhaseKeepsInv(w, c, Next(w, e).callers[c].phase);
    }
  }

  lemma DropKeepsInv(w: World, c: nat)
    requires Inv(w)
    ensures Inv(Next(w, Drop(c)))
  {
    if c in w.callers { PhaseKeepsInv(w, c, Done); }
  }

  lemma StepKeepsInv(w: World, e: Event)
    requires Inv(w)
    ensures Inv(Next(w, e))
  {
    match e
    case Tick(_) => TickKeepsInv(w, e);
    case Call(_, _, _, _, _) => CallKeepsInv(w, e);
    case Send(_) => SendKeepsInv(w, e);
    case Write(_) => WriteKeepsInv(w, e);
    case Answer(_, _) => AnswerKeepsInv(w, e);
    case Drop(c) => DropKeepsInv(w, c);
  }

  lemma {:induction false} EveryRunKeepsInv(w: World, events: seq<Event>)
    requires Inv(w)
    ensures Inv(Run(w, events))
    decreases |events|
  {
    if events != [] {
      StepKeepsInv(w, events[0]);
      EveryRunKeepsInv(Next(w, events[0]), events[1..]);
    }
  }

  lemma StartIsGood()
    ensures Inv(START)
  {
  }

  // ----- at most one submission -----

  // No two admissions of one id are closer than the life of a receipt, each leads
  // to at most two POSTs, and the second follows a refusal without effect.
  lemma AdmissionsNeverOverlap(events: seq<Event>)
    ensures var w := Run(START, events);
            && |w.receipts| <= MAX_RECEIPTS
            && AdmissionsApart(w)
            && (forall p :: p in w.posts ==> GoodPost(w, p))
            && PostsDistinct(w.posts)
  {
    StartIsGood();
    EveryRunKeepsInv(START, events);
  }

  ghost predicate WithinReceiptLife(events: seq<Event>) {
    forall i :: 0 <= i < |events| && events[i].Call? ==> events[i].deadline <= RECEIPT_TTL_MS
  }

  ghost predicate Punctual(w: World) {
    forall c :: c in w.callers ==> w.callers[c].expires <= w.callers[c].admitted + RECEIPT_TTL_MS
  }

  lemma {:induction false} DeadlinesBoundExpiry(w: World, events: seq<Event>)
    requires Punctual(w) && WithinReceiptLife(events)
    ensures Punctual(Run(w, events))
    decreases |events|
  {
    if events != [] {
      var next := Next(w, events[0]);
      assert Punctual(next);
      assert forall i :: 0 <= i < |events[1..]| ==> events[1..][i] == events[i + 1];
      DeadlinesBoundExpiry(next, events[1..]);
    }
  }

  // While a receipt lives, every POST made for its id since it was created comes
  // from one caller.
  ghost predicate OneSubmissionPerReceipt(w: World) {
    forall id, p, q ::
      (id in w.receipts && Live(w.receipts[id], w.now) && PostFor(w, id, p) && PostFor(w, id, q))
      ==> p.caller == q.caller
  }

  ghost predicate PostFor(w: World, id: Text, p: Post) {
    && p in w.posts && p.caller in w.callers && w.callers[p.caller].id == id
    && id in w.receipts && p.at >= w.receipts[id].created
  }

  lemma SameAdmission(w: World, c: nat, d: nat)
    requires AdmissionsApart(w) && c in w.callers && d in w.callers
    requires w.callers[c].id == w.callers[d].id && w.callers[c].admitted == w.callers[d].admitted
    ensures c == d
  {
  }

  lemma AtMostOneSubmission(events: seq<Event>)
    requires WithinReceiptLife(events)
    ensures OneSubmissionPerReceipt(Run(START, events))
  {
    StartIsGood();
    EveryRunKeepsInv(START, events);
    DeadlinesBoundExpiry(START, events);
    var w := Run(START, events);
    forall id, p | id in w.receipts && Live(w.receipts[id], w.now) && PostFor(w, id, p)
      ensures w.callers[p.caller].admitted == w.receipts[id].created
    {
      assert GoodPost(w, p);
      var c :| Created(w, id, c);
      if c != p.caller { assert Apart(w.callers[c], w.callers[p.caller]); }
    }
    forall id, p, q | id in w.receipts && Live(w.receipts[id], w.now) && PostFor(w, id, p) && PostFor(w, id, q)
      ensures p.caller == q.caller
    {
      SameAdmission(w, p.caller, q.caller);
    }
  }

  // A deadline longer than the life of a receipt breaks it: the first caller may
  // still send after its receipt expired and another caller was admitted.
  lemma LongDeadlineAllowsTwoSubmissions(id: Text, deadline: nat)
    requires deadline > RECEIPT_TTL_MS
    ensures !OneSubmissionPerReceipt(Run(START, SlowCaller(id, deadline)))
  {
    var e0 := SlowCaller(id, deadline);
    var e1 := e0[1..];
    var e2 := e1[1..];
    var e3 := e2[1..];
    var e4 := e3[1..];
    var w1 := Next(START, e0[0]);
    var w2 := Next(w1, e1[0]);
    assert Retained(w2.receipts, w2.now) == map[];
    var w3 := Next(w2, e2[0]);
    assert w3.callers[1].phase == Ready && w3.callers[2].phase == Ready;
    var w4 := Next(w3, e3[0]);
    var w5 := Next(w4, e4[0]);
    assert w5.posts == [Post(1, w2.now, 1, None), Post(2, w2.now, 1, None)];
    assert e4[1..] == [] && Run(w5, e4[1..]) == w5;
    assert Run(w3, e3) == Run(w4, e4) == w5;
    assert Run(w1, e1) == Run(w2, e2) == Run(w3, e3);
    assert Run(START, e0) == Run(w1, e1);
    assert PostFor(w5, id, w5.posts[0]) && PostFor(w5, id, w5.posts[1]);
  }

  function SlowCaller(id: Text, deadline: nat): seq<Event> {
    [Call(1, id, None, 0, deadline), Tick(RECEIPT_TTL_MS), Call(2, id, None, 0, deadline), Send(1), Send(2)]
  }

  // A call that names the job it expects never sends anything.
  lemma ContinuationNeverSubmits(w: World, e: Event)
    requires e.Call? && e.expected.Some?
    ensures Next(w, e).callers == w.callers && Next(w, e).posts == w.posts
  {
  }

  // Only an admitted caller sends.
  lemma OnlySendAddsPosts(w: World, e: Event)
    ensures w.posts <= Next(w, e).posts
    ensures |Next(w, e).posts| > |w.posts| ==>
              && e.Send? && e.caller in w.callers && |Next(w, e).posts| == |w.posts| + 1
              && Next(w, e).posts[|w.posts|].caller == e.caller
  {
  }
}
