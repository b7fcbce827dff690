// What a repairable index still is: the texts that a search reads, the
// fingerprints in the cache, and the OCR state. A start may leave a mapped path
// without a cache row; this is the map that every run is, from such a state too.
module IndexSearchable {
  import opened Bytes
  import opened Results
  import opened IndexTables
  import opened IndexSpec
  import opened IndexEffects
  import opened IndexProofs
  import opened IndexCompaction
  import opened IndexMigration

  datatype Searchable = Searchable(bodies: map<Text, Text>, stamps: map<Text, Stamp>, ocr: Ocr)

  function SearchableOf(t: Tables): Searchable
    requires Sound(t)
  {
    Searchable(map p | p in t.rows :: t.docs[t.rows[p]].body, map p | p in t.cache :: t.cache[p].stamp, t.ocr)
  }

  // A refresh of a path with text but without a cache row loses the text.
  function SearchStep(s: Searchable, op: Op): Searchable {
    var ocr := StepOcr(s.bodies.Keys, s.ocr, op);
    match op
    case Replace(d) => Searchable(s.bodies[d.path := d.body], s.stamps[d.path := d.stamp], ocr)
    case Refresh(d) =>
      Searchable(
        if d.path !in s.bodies then s.bodies[d.path := d.body]
        else if d.path in s.stamps then s.bodies
        else s.bodies - {d.path},
        s.stamps[d.path := d.stamp], ocr)
    case Remove(p) => Searchable(s.bodies - {p}, s.stamps - {p}, ocr)
    case RemoveEmpty(p, _) =>
      if LedgerFull(s.ocr.empties, p) then s else Searchable(s.bodies - {p}, s.stamps - {p}, ocr)
    case Prune(seen) =>
      var unseen := s.bodies.Keys - seen;
      Searchable(s.bodies - unseen, s.stamps - unseen, ocr)
    case _ => s.(ocr := ocr)
  }

  function SearchRun(s: Searchable, ops: seq<Op>): Searchable
    decreases |ops|
  {
    if ops == [] then s else SearchRun(SearchStep(s, ops[0]), ops[1..])
  }

  // One operation: a step of the texts that a search reads, from a consistent index
  // a step of the simple map, and the compaction's settled part is kept.
  ghost predicate Stepped(t: Tables, t': Tables, op: Op)
    requires Repairable(t)
  {
    && Repairable(t')
    && SearchableOf(t') == SearchStep(SearchableOf(t), op)
    && (Consistent(t) ==>
          Consistent(t') && Abstract(t') == Step(Abstract(t), op) && (t.rowsReady ==> t'.rowsReady))
    && (ScannedSettled(t) ==> ScannedSettled(t'))
  }

  // ----- each operation is one step of it -----

  lemma CommittedElsewhere(t: Tables, t': Tables, doc: Document, p: Text)
    requires Sound(t) && Sound(t') && Committed(t, t', doc) && p != doc.path
    ensures p in SearchableOf(t').bodies <==> p in SearchableOf(t).bodies
    ensures p in SearchableOf(t).bodies ==> SearchableOf(t').bodies[p] == SearchableOf(t).bodies[p]
    ensures p in SearchableOf(t').stamps <==> p in SearchableOf(t).stamps
    ensures p in SearchableOf(t).stamps ==> SearchableOf(t').stamps[p] == SearchableOf(t).stamps[p]
  {
    ElsewhereIsPointwise(t, t', {doc.path}, p);
    if p in t.rows { assert t.docs[t.rows[p]].path == p; }
  }

  lemma CommittedSearch(t: Tables, t': Tables, doc: Document)
    requires Sound(t) && Sound(t') && Committed(t, t', doc)
    ensures SearchableOf(t') == SearchStep(SearchableOf(t), Replace(doc))
    ensures doc.path !in t.rows ==> SearchableOf(t') == SearchStep(SearchableOf(t), Refresh(doc))
  {
    var s, s' := SearchableOf(t), SearchableOf(t');
    forall p | p != doc.path
      ensures p in s'.bodies <==> p in s.bodies
      ensures p in s.bodies ==> s'.bodies[p] == s.bodies[p]
      ensures p in s'.stamps <==> p in s.stamps
      ensures p in s.stamps ==> s'.stamps[p] == s.stamps[p]
    {
      CommittedElsewhere(t, t', doc, p);
    }
    assert doc.path in t'.rows && t'.docs[t'.rows[doc.path]].body == doc.body;
    SameButOne(s.bodies, s'.bodies, doc.path, doc.body);
    SameButOne(s.stamps, s'.stamps, doc.path, doc.stamp);
  }

  lemma SameButOne<V>(m: map<Text, V>, m': map<Text, V>, k: Text, v: V)
    requires k in m' && m'[k] == v
    requires forall p :: p != k ==> (p in m' <==> p in m)
    requires forall p :: p in m && p != k ==> m'[p] == m[p]
    ensures m' == m[k := v]
  {
  }

  lemma RefreshedSearch(t: Tables, t': Tables, doc: Document)
    requires Repairable(t) && Sound(t') && doc.path in t.rows
    requires t' == UpsertCache(t, doc.path, CacheRow(doc.stamp, []))
    ensures SearchableOf(t') == SearchStep(SearchableOf(t), Refresh(doc))
  {
    assert !StaleMapping(t, doc.path);
    assert SearchableOf(t').stamps == SearchableOf(t).stamps[doc.path := doc.stamp];
  }

  lemma ErasedSearch(t: Tables, t': Tables, ps: set<Text>)
    requires Sound(t) && Sound(t') && Erased(t, t', ps)
    ensures SearchableOf(t').bodies == SearchableOf(t).bodies - ps
    ensures SearchableOf(t').stamps == SearchableOf(t).stamps - ps
  {
  }

  lemma PrunedSearch(t: Tables, t': Tables, seen: set<Text>)
    requires Sound(t) && Sound(t') && Erased(t, t', t.rows.Keys - seen) && t'.ocr == t.ocr
    ensures SearchableOf(t') == SearchStep(SearchableOf(t), Prune(seen))
  {
    ErasedSearch(t, t', t.rows.Keys - seen);
    assert SearchableOf(t).bodies.Keys == t.rows.Keys;
  }

  lemma PrunedIsStepped(t: Tables, t': Tables, seen: set<Text>)
    requires Repairable(t) && Pruned(t, t', seen) && t'.ocr == t.ocr && t'.rowsReady
    ensures Stepped(t, t', Prune(seen))
  {
    PrunedSearch(t, t', seen);
    if ScannedSettled(t) { ErasedKeepsSettled(t, t', t.rows.Keys - seen); }
  }

  lemma CompactedSearch(t: Tables, t': Tables, b: Batch, read: seq<Text>)
    requires Sound(t) && Compacted(t, t', b, read)
    ensures SearchableOf(t') == SearchableOf(t)
  {
  }

  // ----- when nothing is lost -----

  predicate AllCached(s: Searchable) {
    s.bodies.Keys <= s.stamps.Keys
  }

  // What the same operations do when no refresh can lose a text.
  function IdealBodies(s: Searchable, op: Op): map<Text, Text> {
    if op.Refresh? && op.doc.path in s.bodies then s.bodies else SearchStep(s, op).bodies
  }

  // A step loses a text against the ideal exactly when it refreshes a path that
  // has text and no cache row.
  lemma LossExactly(s: Searchable, op: Op)
    ensures SearchStep(s, op).bodies != IdealBodies(s, op) <==>
            op.Refresh? && op.doc.path in s.bodies && op.doc.path !in s.stamps
  {
    if op.Refresh? && op.doc.path in s.bodies && op.doc.path !in s.stamps {
      assert op.doc.path !in SearchStep(s, op).bodies;
    }
  }

  predicate RunsIdeally(s: Searchable, ops: seq<Op>)
    decreases |ops|
  {
    ops == [] ||
    (SearchStep(s, ops[0]).bodies == IdealBodies(s, ops[0]) && RunsIdeally(SearchStep(s, ops[0]), ops[1..]))
  }

  // No run loses a text if and only if every path with text has a cache row now.
  lemma AllRunsAreIdealExactly(s: Searchable)
    ensures (forall ops :: RunsIdeally(s, ops)) <==> AllCached(s)
  {
    if AllCached(s) {
      forall ops
        ensures RunsIdeally(s, ops)
      {
        CachedRunsIdeally(s, ops);
      }
    } else {
      var p :| p in s.bodies && p !in s.stamps;
      var op := Refresh(Document(p, [], Stamp(0, 0)));
      LossExactly(s, op);
      assert [op][0] == op;
      assert !RunsIdeally(s, [op]);
    }
  }

  lemma {:induction false} CachedRunsIdeally(s: Searchable, ops: seq<Op>)
    requires AllCached(s)
    ensures RunsIdeally(s, ops) && AllCached(SearchRun(s, ops))
    decreases |ops|
  {
    if ops != [] {
      LossExactly(s, ops[0]);
      CachedRunsIdeally(SearchStep(s, ops[0]), ops[1..]);
    }
  }

  // ----- restarts -----

  datatype Event = Did(op: Op) | Started(files: map<Text, Stamp>) | Cleared

  // What an event does to the texts, the fingerprints and the OCR state. A start
  // loses no text; it may bring back one whose mapping was lost, and it adds
  // fingerprints for files that are there.
  ghost predicate EventStep(s: Searchable, s': Searchable, e: Event) {
    match e
    case Did(op) => s' == SearchStep(s, op)
    case Started(files) =>
      && s'.ocr == s.ocr
      && (forall p :: p in s.bodies ==> p in s'.bodies && s'.bodies[p] == s.bodies[p])
      && (forall p :: p in s'.bodies ==> p in s.bodies || p in s.stamps)
      && (forall p :: p in s.stamps ==> p in s'.stamps && s'.stamps[p] == s.stamps[p])
      && (forall p :: p in s'.stamps && p !in s.stamps ==> p in s'.bodies && p in files && s'.stamps[p] == files[p])
      && (forall p :: p in s'.bodies && p in files ==> p in s'.stamps)
    case Cleared => s' == Searchable(map[], map[], s.ocr.(overflow := false, recovery := false))
  }

  ghost predicate IsLife(states: seq<Searchable>, events: seq<Event>) {
    && |states| == |events| + 1
    && forall i :: 0 <= i < |events| ==> EventStep(states[i], states[i + 1], events[i])
  }

  // The same events on the simple map: a start leaves it alone.
  function LifeStep(s: Spec, e: Event): Spec {
    match e
    case Did(op) => Step(s, op)
    case Started(_) => s
    case Cleared => Spec(map[], s.ocr.(overflow := false, recovery := false))
  }

  function Life(s: Spec, events: seq<Event>): Spec
    decreases |events|
  {
    if events == [] then s else Life(LifeStep(s, events[0]), events[1..])
  }

  lemma {:induction false} LifeAppend(s: Spec, events: seq<Event>, e: Event)
    ensures Life(s, events + [e]) == LifeStep(Life(s, events), e)
    decreases |events|
  {
    if events == [] {
      assert [e][1..] == [];
    } else {
      assert (events + [e])[1..] == events[1..] + [e];
      LifeAppend(LifeStep(s, events[0]), events[1..], e);
    }
  }

  // In a repairable index a mapped row is the only one of its path.
  lemma MappedIsHighest(t: Tables, p: Text)
    requires Repairable(t) && p in t.rows
    ensures IsHighest(t.docs, t.rows[p]) && t.docs[t.rows[p]].path == p
    ensures forall r :: r in t.docs && t.docs[r].path == p ==> r == t.rows[p]
  {
    assert forall r :: r in t.docs && t.docs[r].path == p ==> Mapped(t, r);
  }

  lemma MigratedStart(t: Tables, t': Tables, files: map<Text, Stamp>)
    requires Repairable(t) && Migrates(t) && Opened(t, t', files)
    ensures EventStep(SearchableOf(t), SearchableOf(t'), Started(files))
  {
    forall p | p in t.rows
      ensures p in t'.rows && t'.docs[t'.rows[p]].body == t.docs[t.rows[p]].body
    {
      MappedIsHighest(t, p);
      assert Mapped(t', t.rows[p]);
    }
    forall p | p in t'.rows && p !in t.rows
      ensures p in t.cache
    {
      assert t'.rows[p] in t.docs && !Mapped(t, t'.rows[p]);
    }
  }

  lemma StartedSearch(t: Tables, t': Tables, files: map<Text, Stamp>)
    requires Repairable(t) && Sound(t')
    requires if Migrates(t) then Opened(t, t', files) else t' == Unmigrated(t, files)
    ensures EventStep(SearchableOf(t), SearchableOf(t'), Started(files))
  {
    if Migrates(t) { MigratedStart(t, t', files); }
  }

  // A start leaves a consistent index as it is.
  lemma StartedConsistent(t: Tables, t': Tables, files: map<Text, Stamp>)
    requires Consistent(t) && Opened(t, t', files)
    ensures Consistent(t') && Abstract(t') == Abstract(t)
  {
    forall r | r in t.docs
      ensures IsHighest(t.docs, r)
    {
      assert Mapped(t, r);
      MappedIsHighest(t, t.docs[r].path);
    }
    assert t'.docs == t.docs;
    SameRows(t, t');
    assert t'.cache == t.cache;
  }

  lemma SameRows(t: Tables, t': Tables)
    requires Linked(t) && Linked(t') && t'.docs == t.docs
    ensures t'.rows == t.rows
  {
    forall p
      ensures p in t.rows <==> p in t'.rows
      ensures p in t.rows ==> t'.rows[p] == t.rows[p]
    {
      if p in t.rows { assert Mapped(t', t.rows[p]); }
      if p in t'.rows { assert Mapped(t, t'.rows[p]); }
    }
  }

  // Restarts included, a life that begins with a cache row for every text never
  // has a text without one, so no refresh in it loses a text.
  lemma {:induction false} CachedLivesIdeally(states: seq<Searchable>, events: seq<Event>, n: nat)
    requires IsLife(states, events) && n <= |events| && AllCached(states[0])
    ensures AllCached(states[n])
    ensures forall i :: 0 <= i < n && events[i].Did? ==>
              states[i + 1].bodies == IdealBodies(states[i], events[i].op)
  {
    if n > 0 {
      CachedLivesIdeally(states, events, n - 1);
      assert EventStep(states[n - 1], states[n], events[n - 1]);
      if events[n - 1].Did? { LossExactly(states[n - 1], events[n - 1].op); }
    }
  }
}
