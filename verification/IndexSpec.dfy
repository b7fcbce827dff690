// What the index is for: one map from path to an entry. The invariants that tie
// the tables to it, and the simple step relation the operations must refine.
module IndexSpec {
  import opened Bytes
  import opened Results
  import opened IndexTables

  // ----- invariants, strongest last -----

  // Every mapping names an FTS row of its own path; mappings are injective then.
  predicate Sound(t: Tables) {
    forall p :: p in t.rows ==> t.rows[p] in t.docs && t.docs[t.rows[p]].path == p
  }

  predicate Mapped(t: Tables, rowid: int)
    requires rowid in t.docs
  {
    t.docs[rowid].path in t.rows && t.rows[t.docs[rowid].path] == rowid
  }

  // An FTS row without a mapping still has a cache row, which makes the next
  // replace or removal of its path delete it by path.
  predicate Repairable(t: Tables) {
    && t.meta.v3Trigger
    && Sound(t)
    && forall r :: r in t.docs ==>
         Mapped(t, r) || (t.docs[r].path !in t.rows && t.docs[r].path in t.cache)
  }

  // The row map is a bijection onto the FTS rows, by path.
  predicate Linked(t: Tables) {
    && t.meta.v3Trigger
    && Sound(t)
    && forall r :: r in t.docs ==> Mapped(t, r)
  }

  predicate Consistent(t: Tables) {
    Linked(t) && t.cache.Keys == t.rows.Keys
  }

  // ----- the simple map -----

  // `cached` is what an unchanged file is served from, `searchable` what a
  // search reads. They differ only for rows written by an older release.
  datatype Entry = Entry(stamp: Stamp, cached: Text, searchable: Text)

  datatype Spec = Spec(entries: map<Text, Entry>, ocr: Ocr)

  function EntryOf(t: Tables, path: Text): Entry
    requires Consistent(t) && path in t.rows
  {
    var searchable := t.docs[t.rows[path]].body;
    var row := t.cache[path];
    Entry(row.stamp, if row.body == [] then searchable else row.body, searchable)
  }

  function View(t: Tables): map<Text, Entry>
    requires Consistent(t)
  {
    map p | p in t.rows :: EntryOf(t, p)
  }

  function Abstract(t: Tables): Spec
    requires Consistent(t)
  {
    Spec(View(t), t.ocr)
  }

  // The abstraction is observable: both queries of the source are lookups in it.
  lemma ViewAnswersQueries(t: Tables, path: Text, stamp: Stamp)
    requires Consistent(t)
    ensures CachedBody(t, path, stamp) ==
            if path in View(t) && View(t)[path].stamp == stamp
            then Some(View(t)[path].cached) else None
    ensures SearchBody(t, path) ==
            if path in View(t) then Some(View(t)[path].searchable) else None
  {
    assert path in t.cache <==> path in t.rows;
  }

  datatype Op =
    | Replace(doc: Document)              // full extraction
    | Refresh(doc: Document)              // metadata-only, keeps the body
    | Remove(path: Text)
    | RemoveEmpty(path: Text, stamp: Stamp)
    | Prune(seen: set<Text>)
    | Compact(batch: int)
    | Defer(path: Text)
    | Ack(path: Text)
    | SetOverflow(on: bool)
    | Fail(path: Text, stamp: Stamp, attempts: nat)
    | Rebuilt(nowMs: nat)

  function Min(a: int, b: int): int { if a < b then a else b }

  function StepEntries(e: map<Text, Entry>, o: Ocr, op: Op): map<Text, Entry> {
    match op
    case Replace(d) => e[d.path := Entry(d.stamp, d.body, d.body)]
    case Refresh(d) =>
      if d.path in e
      then e[d.path := Entry(d.stamp, e[d.path].searchable, e[d.path].searchable)]
      else e[d.path := Entry(d.stamp, d.body, d.body)]
    case Remove(p) => e - {p}
    case RemoveEmpty(p, _) => if LedgerFull(o.empties, p) then e else e - {p}
    case Prune(seen) => map p | p in e && p in seen :: e[p]
    case _ => e
  }

  predicate LedgerFull<V>(ledger: map<Text, V>, path: Text) {
    path !in ledger && |ledger| >= MAX_PENDING_OCR
  }

  // ocr_failure_count: failures recorded for exactly this version.
  function FailureCount(o: Ocr, p: Text, stamp: Stamp): nat {
    if p in o.attempts && o.attempts[p].stamp == stamp then o.attempts[p].failures else 0
  }

  function Recorded(o: Ocr, p: Text, stamp: Stamp, n: nat): Attempts {
    Attempts(stamp, Min(4, FailureCount(o, p, stamp) + Min(n, 4)))
  }

  function StepOcr(known: set<Text>, o: Ocr, op: Op): Ocr {
    match op
    case Replace(d) => Acknowledge(o, d.path, d.stamp)
    case Refresh(d) => if d.path in known then o else Acknowledge(o, d.path, d.stamp)
    case Remove(p) => Dequeue(o, p)
    case RemoveEmpty(p, stamp) =>
      if LedgerFull(o.empties, p) then o
      else Dequeue(o, p).(empties := o.empties[p := stamp])
    case Defer(p) =>
      if p in o.pending then o
      else if |o.pending| >= MAX_PENDING_OCR then o.(overflow := true, recovery := true)
      else o.(pending := o.pending + {p})
    case Ack(p) => Dequeue(o, p)
    case SetOverflow(on) => o.(overflow := on, recovery := true)
    case Fail(p, stamp, n) =>
      if LedgerFull(o.attempts, p) then o
      else o.(attempts := o.attempts[p := Recorded(o, p, stamp, n)])
    case Rebuilt(_) => o.(recovery := false)
    case _ => o
  }

  function Step(s: Spec, op: Op): Spec {
    Spec(StepEntries(s.entries, s.ocr, op), StepOcr(s.entries.Keys, s.ocr, op))
  }

  function Run(s: Spec, ops: seq<Op>): Spec
    decreases |ops|
  {
    if ops == [] then s else Run(Step(s, ops[0]), ops[1..])
  }
}
