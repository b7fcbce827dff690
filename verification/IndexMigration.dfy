// Startup reconciliation: rebuilding the row map from the FTS table, giving
// mapped paths a cache row, and what a rolled-back release may do in between.
module IndexMigration {
  import opened Bytes
  import opened Results
  import opened Sets
  import opened IndexTables
  import opened IndexSpec
  import opened IndexEffects

  // ----- INSERT ... SELECT path, max(rowid) ... GROUP BY path -----

  function PathsOf(docs: map<int, FtsRow>): set<Text> {
    set r | r in docs :: docs[r].path
  }

  predicate IsHighest(docs: map<int, FtsRow>, rowid: int) {
    rowid in docs && forall r :: r in docs && docs[r].path == docs[rowid].path ==> r <= rowid
  }

  lemma {:induction false} MaximumExists(s: set<int>) returns (m: int)
    requires s != {}
    ensures m in s && forall x :: x in s ==> x <= m
    decreases |s|
  {
    var first := Pick(s);
    var rest := s - {first};
    m := first;
    if rest != {} {
      var n := MaximumExists(rest);
      if n > first { m := n; }
    }
    forall x | x in s
      ensures x <= m
    {
      if x != first { assert x in rest; }
    }
  }

  lemma HighestExists(docs: map<int, FtsRow>, path: Text)
    requires path in PathsOf(docs)
    ensures exists r :: IsHighest(docs, r) && docs[r].path == path
  {
    var some :| some in docs && docs[some].path == path;
    var ids := set r | r in docs && docs[r].path == path;
    assert some in ids;
    var m := MaximumExists(ids);
    forall r | r in docs && docs[r].path == path
      ensures r <= m
    {
      assert r in ids;
    }
    assert IsHighest(docs, m);
  }

  function HighestRowid(docs: map<int, FtsRow>, path: Text): (rowid: int)
    requires path in PathsOf(docs)
    ensures IsHighest(docs, rowid) && docs[rowid].path == path
  {
    HighestExists(docs, path);
    var r :| IsHighest(docs, r) && docs[r].path == path;
    r
  }

  function RebuildRows(t: Tables): Tables {
    t.(rows := map p | p in PathsOf(t.docs) :: HighestRowid(t.docs, p))
  }

  // DELETE ... WHERE rowid NOT IN (SELECT fts_rowid FROM grepmesh_document_rows)
  function DropUnmapped(t: Tables): Tables {
    t.(docs := map r | r in t.docs && r in t.rows.Values :: t.docs[r])
  }

  // The newest FTS row of every path.
  function Newest(docs: map<int, FtsRow>): map<int, FtsRow> {
    map r | r in docs && IsHighest(docs, r) :: docs[r]
  }

  // From any FTS contents the migration builds the bijection, keeping the
  // highest rowid of each path.
  lemma MigrationLinks(t: Tables)
    requires t.meta.v3Trigger
    ensures var t' := DropUnmapped(RebuildRows(t));
            && Linked(t')
            && t'.docs == Newest(t.docs)
            && t'.rows.Keys == PathsOf(t.docs)
            && t'.cache == t.cache
  {
    var u := RebuildRows(t);
    var t' := DropUnmapped(u);
    forall r | r in t.docs
      ensures r in u.rows.Values <==> IsHighest(t.docs, r)
    {
      var p := t.docs[r].path;
      assert p in PathsOf(t.docs) && p in u.rows.Keys;
      assert IsHighest(t.docs, u.rows[p]) && t.docs[u.rows[p]].path == p;
      if IsHighest(t.docs, r) { assert u.rows[p] == r; }
      if r in u.rows.Values {
        var q :| q in u.rows && u.rows[q] == r;
      }
    }
    assert t'.docs == Newest(t.docs);
    forall p | p in t'.rows
      ensures t'.rows[p] in t'.docs && t'.docs[t'.rows[p]].path == p
    {
      assert IsHighest(t.docs, t'.rows[p]);
    }
  }

  // ----- INSERT OR IGNORE for mapped paths without a cache row -----

  // The cache after every mapped path whose file still exists has a row.
  function Backfilled(t: Tables, files: map<Text, Stamp>, ps: set<Text>): map<Text, CacheRow> {
    t.cache + map p | p in ps && p in files :: CacheRow(files[p], [])
  }

  // The backfill after it has handled these paths.
  ghost predicate BackfillState(t: Tables, tx: Tables, files: map<Text, Stamp>, done: set<Text>) {
    tx == t.(rowsReady := tx.rowsReady, cache := Backfilled(t, files, done))
  }

  // Inserting a cache row drops the mapping and the marker; both are put back.
  lemma BackfillOne(t: Tables, tx: Tables, files: map<Text, Stamp>, done: set<Text>, p: Text)
    requires Sound(t) && p in t.rows && p !in t.cache && p !in done && p in files
    requires BackfillState(t, tx, files, done)
    ensures p !in tx.cache
    ensures var tx' := UpsertCache(tx, p, CacheRow(files[p], []));
            && !RowidTaken(tx', p, t.rows[p])
            && BackfillState(t, MapRow(tx', p, t.rows[p]), files, done + {p})
  {
    var tx' := UpsertCache(tx, p, CacheRow(files[p], []));
    assert tx'.rows == t.rows - {p};
    assert (t.rows - {p})[p := t.rows[p]] == t.rows;
    BackfilledMore(t, files, done, p);
    OwnRowidIsFree(t, tx', p);
  }

  lemma BackfilledMore(t: Tables, files: map<Text, Stamp>, done: set<Text>, p: Text)
    requires p in files
    ensures Backfilled(t, files, done + {p}) == Backfilled(t, files, done)[p := CacheRow(files[p], [])]
  {
  }

  lemma OwnRowidIsFree(t: Tables, tx: Tables, p: Text)
    requires Sound(t) && p in t.rows && tx.rows == t.rows - {p}
    ensures !RowidTaken(tx, p, t.rows[p])
  {
    forall q | q in tx.rows && q != p
      ensures tx.rows[q] != t.rows[p]
    {
      assert q in t.rows && t.docs[t.rows[q]].path == q;
    }
  }

  lemma BackfillSkip(t: Tables, tx: Tables, files: map<Text, Stamp>, done: set<Text>, p: Text)
    requires BackfillState(t, tx, files, done) && p !in files
    ensures BackfillState(t, tx, files, done + {p})
  {
    assert Backfilled(t, files, done + {p}) == Backfilled(t, files, done);
  }

  // Backfilling keeps every mapping and every cached body.
  lemma BackfillKeeps(t: Tables, t': Tables, files: map<Text, Stamp>)
    requires t'.docs == t.docs && t'.rows == t.rows && t'.meta.v3Trigger == t.meta.v3Trigger
    requires t'.cache == Backfilled(t, files, t.rows.Keys - t.cache.Keys)
    ensures Linked(t) ==> Linked(t')
    ensures Repairable(t) ==> Repairable(t')
    ensures forall p :: p in t.cache ==> p in t'.cache && t'.cache[p] == t.cache[p]
    ensures Linked(t) && t.cache.Keys <= t.rows.Keys <= t.cache.Keys + files.Keys ==> Consistent(t')
  {
    assert forall r :: r in t.docs ==> Mapped(t', r) == Mapped(t, r);
  }

  // ----- what a start of the index guarantees -----

  predicate Migrates(t: Tables) {
    !(t.rowsReady && t.meta.triggersReady && t.meta.v3Mark)
  }

  // What a start does to an index whose markers are all set.
  function Unmigrated(t: Tables, files: map<Text, Stamp>): Tables {
    t.(rowsReady := true, cache := Backfilled(t, files, t.rows.Keys - t.cache.Keys))
  }

  // After `open`: the bijection is rebuilt when any marker is missing and kept
  // otherwise; every mapped path whose file exists has a cache row; existing
  // cache rows are untouched.
  ghost predicate Opened(t: Tables, t': Tables, files: map<Text, Stamp>) {
    && Linked(t')
    && t'.rowsReady && t'.meta.triggersReady && t'.meta.v3Mark
    && t'.docs == (if Migrates(t) then Newest(t.docs) else t.docs)
    && t'.cache == Backfilled(t, files, t'.rows.Keys - t.cache.Keys)
    && t'.ocr == t.ocr
  }

  // An index whose marker was honest before a rollback is restored by the next
  // start, whatever the other release did.
  lemma RollbackThenOpen(t: Tables, steps: seq<LegacyStep>)
    requires Consistent(t) && t.rowsReady
    ensures var u := LegacyRun(t, steps); Migrates(u) || Consistent(u)
  {
    RollbackIsSafe(t, steps);
  }

  // ----- a release that does not know the row map -----

  datatype LegacyStep =
    | Rewrite(doc: Document, rowid: int)     // delete by path, insert, upsert with the body
    | Erase(path: Text)                      // delete by path from both tables
    | Touch(path: Text, row: CacheRow)       // upsert of a cache row alone

  function Legacy(t: Tables, step: LegacyStep): Tables {
    match step
    case Rewrite(d, rowid) =>
      var t1 := DeleteDocumentsByPath(t, d.path);
      if rowid in t1.docs then t
      else UpsertCache(InsertDocument(t1, rowid, d.path, d.body), d.path, CacheRow(d.stamp, d.body))
    case Erase(p) => DeleteCache(DeleteDocumentsByPath(t, p), p)
    case Touch(p, row) => UpsertCache(t, p, row)
  }

  function LegacyRun(t: Tables, steps: seq<LegacyStep>): Tables
    decreases |steps|
  {
    if steps == [] then t else LegacyRun(Legacy(t, steps[0]), steps[1..])
  }

  // The marker vouches for the row map.
  predicate MarkerHonest(t: Tables) {
    t.rowsReady ==> Consistent(t)
  }

  // When the update trigger stays silent, the rewrite got the old rowid back.
  lemma RewriteReusesRowid(t: Tables, t': Tables, d: Document, rowid: int)
    requires Consistent(t) && d.path in t.rows
    requires t'.docs == OtherDocs(t, d.path)[rowid := FtsRow(d.path, d.body)]
    requires t'.rows == t.rows && t'.cache == t.cache[d.path := CacheRow(d.stamp, d.body)]
    requires t'.meta == t.meta
    requires t.rows[d.path] in t'.docs && t'.docs[t.rows[d.path]].path == d.path
    ensures Consistent(t')
  {
    assert rowid == t.rows[d.path];
    forall r | r in t'.docs
      ensures Mapped(t', r)
    {
      assert r in t.docs && t.docs[r].path == t'.docs[r].path && Mapped(t, r);
    }
    forall p | p in t'.rows
      ensures t'.rows[p] in t'.docs && t'.docs[t'.rows[p]].path == p
    {
      if p != d.path { assert t.rows[p] in OtherDocs(t, d.path); }
    }
  }

  lemma LegacyStepHonest(t: Tables, step: LegacyStep)
    requires MarkerHonest(t) && t.meta.v3Trigger
    ensures MarkerHonest(Legacy(t, step)) && Legacy(t, step).meta == t.meta
  {
    var t' := Legacy(t, step);
    if t'.rowsReady {
      match step
      case Rewrite(d, rowid) =>
        if t' != t {
          assert d.path in t.cache && d.path in t.rows;
          assert t'.rows == t.rows && t'.docs[t.rows[d.path]].path == d.path;
          RewriteReusesRowid(t, t', d, rowid);
        }
      case Erase(p) =>
        assert p !in t.cache && p !in t.rows;
        forall r | r in t.docs
          ensures t.docs[r].path != p
        {
          assert Mapped(t, r);
        }
        assert t'.docs == t.docs;
      case Touch(p, row) =>
        assert p in t.cache && p in t.rows;
        assert forall r :: r in t'.docs ==> Mapped(t', r) == Mapped(t, r);
    }
  }

  // Rollback safety: whatever a legacy release does to a consistent index, reused
  // rowids included, either the marker is gone or the row map is still right.
  lemma {:induction false} RollbackIsSafe(t: Tables, steps: seq<LegacyStep>)
    requires MarkerHonest(t) && t.meta.v3Trigger
    ensures MarkerHonest(LegacyRun(t, steps)) && LegacyRun(t, steps).meta == t.meta
    decreases |steps|
  {
    if steps != [] {
      LegacyStepHonest(t, steps[0]);
      RollbackIsSafe(Legacy(t, steps[0]), steps[1..]);
    }
  }

  predicate Trusted(t: Tables) {
    t.rowsReady ==> Linked(t)
  }

  // The row map of a marked index survives every rollback exactly when the cache
  // and the row map hold the same paths. A mapped path without a cache row is
  // erased unnoticed; a cached path without a mapping is rewritten unnoticed.
  lemma RollbackNeedsEqualPaths(t: Tables)
    requires Linked(t) && t.rowsReady
    ensures (forall steps :: Trusted(LegacyRun(t, steps))) <==> t.cache.Keys == t.rows.Keys
  {
    if t.cache.Keys == t.rows.Keys {
      forall steps
        ensures Trusted(LegacyRun(t, steps))
      {
        RollbackIsSafe(t, steps);
      }
    } else {
      var steps := UnnoticedRollback(t);
      assert !Trusted(LegacyRun(t, steps));
    }
  }

  lemma UnnoticedRollback(t: Tables) returns (steps: seq<LegacyStep>)
    requires Linked(t) && t.rowsReady && t.cache.Keys != t.rows.Keys
    ensures !Trusted(LegacyRun(t, steps))
  {
    if p :| p in t.rows && p !in t.cache {
      steps := [Erase(p)];
      var t' := Legacy(t, steps[0]);
      assert steps[1..] == [] && LegacyRun(t, steps) == t';
      assert p in t'.rows && t'.rows[p] !in t'.docs;
    } else {
      assert t.rows.Keys <= t.cache.Keys;
      var p := Extra(t.cache.Keys, t.rows.Keys);
      var rowid := Unused(t.docs.Keys);
      steps := [Rewrite(Document(p, [], Stamp(0, 0)), rowid)];
      var t' := Legacy(t, steps[0]);
      assert steps[1..] == [] && LegacyRun(t, steps) == t';
      assert rowid in t'.docs && t'.docs[rowid].path == p && p !in t'.rows;
      assert !Mapped(t', rowid);
    }
  }

  lemma Unused(s: set<int>) returns (x: int)
    ensures x !in s
  {
    if s == {} {
      x := 0;
    } else {
      var m := MaximumExists(s);
      x := m + 1;
    }
  }
}
