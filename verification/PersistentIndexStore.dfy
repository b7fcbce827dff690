// The operations of the persistent index, statement by statement. A transaction
// works on a local copy of the tables and stores it back on commit, so every
// error return leaves the database as it was.
module PersistentIndexStore {
  import opened Bytes
  import opened Results
  import opened Sets
  import opened IndexTables
  import opened IndexSpec
  import opened IndexEffects
  import opened IndexProofs
  import opened IndexCompaction
  import opened IndexMigration
  import opened IndexSearchable

  type Outcome = Result<(), string>

  const QUEUE_FULL := "durable OCR queue is full; reconciliation is required"

  class PersistentIndex {
    var db: Tables

    constructor (tables: Tables)
      ensures db == tables
    {
      db := tables;
    }

    // SQLite may hand out any rowid that no row has, including one just freed.
    static method FreshRowid(docs: map<int, FtsRow>) returns (rowid: int)
      ensures rowid !in docs
    {
      rowid := 1;
      var left: set<int> := docs.Keys;
      while left != {}
        invariant left <= docs.Keys
        invariant forall r :: r in docs && r !in left ==> r < rowid
        decreases |left|
      {
        ghost var some := Pick(left);
        var r: int :| r in left;
        left := left - {r};
        if rowid <= r { rowid := r + 1; }
      }
    }

    // replace_indexed_document_with_mode. `admitted` is the source policy's
    // answer; `preserve` is the metadata-only mode.
    method ReplaceDocument(doc: Document, preserve: bool, admitted: bool) returns (out: Outcome)
      modifies this
      ensures out.Err? ==> db == old(db)
      ensures out.Ok? ==> admitted
      ensures admitted && Repairable(old(db)) ==> out.Ok? && ReplaceDone(old(db), db, doc, preserve)
      // Metadata-only for a searchable path: one cache row and nothing else,
      // except that a missing cache row costs the path its mapping.
      ensures out.Ok? && Repairable(old(db)) && preserve && doc.path in old(db).rows ==>
                db == UpsertCache(old(db), doc.path, CacheRow(doc.stamp, []))
      // Any other success settles the version with the recognition queue.
      ensures out.Ok? && Repairable(old(db)) && !(preserve && doc.path in old(db).rows) ==>
                VersionSettled(old(db).ocr, db.ocr, doc.path, doc.stamp)
      ensures db.meta == old(db).meta
    {
      if !admitted {
        return Err("source-only manifest denies document ingestion");
      }
      var tx := db;
      var path := doc.path;
      var cacheExists := path in tx.cache;
      var cacheMatches := cacheExists && tx.cache[path].stamp == doc.stamp
                          && (tx.cache[path].body == [] || tx.cache[path].body == doc.body);
      var mapped := path in tx.rows;
      var ftsMatches := mapped && tx.rows[path] in tx.docs
                        && tx.docs[tx.rows[path]] == FtsRow(path, doc.body);
      if preserve && mapped && !StaleMapping(tx, path) {
        tx := UpsertCache(tx, path, CacheRow(doc.stamp, []));
        ProveRefresh(db, tx, doc);
        db := tx;
        return Ok(());
      }
      if cacheMatches && ftsMatches {
        tx := tx.(ocr := Acknowledge(tx.ocr, path, doc.stamp));
        assert db.cache[path := db.cache[path]] == db.cache;
        ProveRetained(db, tx, doc, db.cache[path], preserve);
        db := tx;
        return Ok(());
      }
      if cacheExists && ftsMatches {
        tx := UpdateCache(tx, path, CacheRow(doc.stamp, []));
        tx := tx.(ocr := Acknowledge(tx.ocr, path, doc.stamp));
        ProveRetained(db, tx, doc, CacheRow(doc.stamp, []), preserve);
        db := tx;
        return Ok(());
      }
      tx, out := StoreFresh(db, doc, preserve);
      if out.Ok? { db := tx; }
    }

    // The branch of a replace that writes a new full-text row.
    static method StoreFresh(base: Tables, doc: Document, ghost preserve: bool) returns (tx: Tables, out: Outcome)
      requires preserve && doc.path in base.rows ==> StaleMapping(base, doc.path)
      ensures Repairable(base) ==> out.Ok? && ReplaceDone(base, tx, doc, preserve)
      ensures out.Ok? ==> MappedAlone(tx, doc.path)
      ensures tx.meta == base.meta
    {
      var path := doc.path;
      tx := DeleteOldRow(base, path);
      var rowid := FreshRowid(tx.docs);
      tx := InsertDocument(tx, rowid, path, doc.body);
      tx := UpsertCache(tx, path, CacheRow(doc.stamp, []));
      ProveInserted(base, tx, doc, rowid, preserve);
      if RowidTaken(tx, path, rowid) {
        return tx, Err("UNIQUE constraint failed: grepmesh_document_rows.fts_rowid");
      }
      FreeRowid(tx, path, rowid);
      tx := MapRow(tx, path, rowid);
      tx := MarkRows(tx);
      tx := tx.(ocr := Acknowledge(tx.ocr, path, doc.stamp));
      out := Ok(());
    }

    // By rowid when the path is mapped, by path when only its cache row is left.
    static method DeleteOldRow(base: Tables, path: Text) returns (tx: Tables)
      ensures tx == WithoutOldRow(base, path)
    {
      tx := base;
      if path in tx.rows {
        tx := DeleteDocument(tx, tx.rows[path]);
      } else if path in tx.cache {
        tx := DeleteDocumentsByPath(tx, path);
      }
    }

    // remove_document_with_empty. With `empty` the version is also entered in the
    // ledger of inputs whose recognition found no text; a full ledger is reported
    // after the deletions and rolls all of them back.
    method RemoveDocument(path: Text, empty: Option<Stamp>) returns (out: Outcome)
      modifies this
      ensures out.Err? <==>
                empty.Some? && path !in old(db).ocr.empties && |old(db).ocr.empties| >= 65_536
      ensures out.Err? ==> db == old(db)
      ensures db.meta == old(db).meta
      ensures out.Ok? ==>
                && db.rowsReady
                && db.ocr == old(db).ocr.(
                     pending := old(db).ocr.pending - {path},
                     empties := if empty.Some? then old(db).ocr.empties[path := empty.value] else old(db).ocr.empties)
      ensures out.Ok? && Repairable(old(db)) ==> Repairable(db) && Erased(old(db), db, {path})
      ensures Linked(old(db)) ==> Linked(db)
      ensures Consistent(old(db)) ==>
                && Consistent(db)
                && Abstract(db) == Step(Abstract(old(db)),
                     if empty.Some? then RemoveEmpty(path, empty.value) else Remove(path))
    {
      var tx := db;
      var cacheExists := path in tx.cache;
      if path in tx.rows {
        tx := DeleteDocument(tx, tx.rows[path]);
      } else if cacheExists {
        tx := DeleteDocumentsByPath(tx, path);
      }
      tx := DeleteCache(tx, path);
      tx := UnmapRow(tx, path);
      tx := MarkRows(tx);
      tx := tx.(ocr := Dequeue(tx.ocr, path));
      if empty.Some? {
        if LedgerFull(tx.ocr.empties, path) {
          return Err("OCR empty-result ledger is full");
        }
        tx := tx.(ocr := tx.ocr.(empties := tx.ocr.empties[path := empty.value]));
      }
      if Repairable(db) {
        OldRowErased(db, tx, path);
        ErasedRefines(db, tx, {path});
      }
      db := tx;
      out := Ok(());
    }

    // prune_except: drops every mapped path that the rebuild did not see.
    method PruneExcept(seen: set<Text>)
      modifies this
      ensures db.meta == old(db).meta && db.ocr == old(db).ocr && db.rowsReady
      ensures Repairable(old(db)) ==> Pruned(old(db), db, seen)
    {
      var unseen := Listed(db.rows.Keys - seen);
      var tx := PruneRows(db, unseen);
      if Repairable(db) { ProvePruned(db, tx, seen); }
      tx := MarkRows(tx);
      db := tx;
    }

    // The loop of prune_except over the rows selected before the transaction.
    static method PruneRows(base: Tables, unseen: seq<Text>) returns (tx: Tables)
      requires Distinct(unseen) && Elements(unseen) <= base.rows.Keys
      ensures tx.meta == base.meta && tx.ocr == base.ocr
      ensures Repairable(base) ==> Erased(base, tx, Elements(unseen))
    {
      tx := base;
      for i := 0 to |unseen|
        invariant tx.meta == base.meta && tx.ocr == base.ocr
        invariant Repairable(base) ==> Erased(base, tx, Elements(unseen[..i]))
      {
        var path := unseen[i];
        NextElement(unseen, i);
        ghost var before := tx;
        tx := DeleteDocument(tx, base.rows[path]);
        tx := DeleteCache(tx, path);
        tx := UnmapRow(tx, path);
        if Repairable(base) { PruneOne(base, before, tx, Elements(unseen[..i]), path); }
      }
      assert unseen[..|unseen|] == unseen;
    }

    // ----- the durable OCR queue and its ledgers -----

    // A full queue commits both flags and still reports an error.
    method DeferOcr(path: Text) returns (out: Outcome)
      modifies this
      ensures db == old(db).(ocr := StepOcr({}, old(db).ocr, Defer(path)))
      ensures out.Err? <==> path !in old(db).ocr.pending && |old(db).ocr.pending| >= 65_536
      ensures out.Err? ==> db == old(db).(ocr := old(db).ocr.(overflow := true, recovery := true))
      ensures out.Ok? ==> db == old(db).(ocr := old(db).ocr.(pending := old(db).ocr.pending + {path}))
    {
      var tx := db;
      if path in tx.ocr.pending {
        return Ok(());
      }
      if |tx.ocr.pending| >= MAX_PENDING_OCR {
        tx := tx.(ocr := tx.ocr.(overflow := true, recovery := true));
        db := tx;
        return Err(QUEUE_FULL);
      }
      tx := tx.(ocr := tx.ocr.(pending := tx.ocr.pending + {path}));
      db := tx;
      out := Ok(());
    }

    method AckPendingOcr(path: Text)
      modifies this
      ensures db == old(db).(ocr := StepOcr({}, old(db).ocr, Ack(path)))
      ensures db == old(db).(ocr := old(db).ocr.(pending := old(db).ocr.pending - {path}))
    {
      db := db.(ocr := Dequeue(db.ocr, path));
    }

    method SetOcrOverflow(on: bool)
      modifies this
      ensures db == old(db).(ocr := StepOcr({}, old(db).ocr, SetOverflow(on)))
      ensures db == old(db).(ocr := old(db).ocr.(overflow := on, recovery := true))
    {
      var tx := db;
      tx := tx.(ocr := tx.ocr.(recovery := true));
      tx := tx.(ocr := tx.ocr.(overflow := on));
      db := tx;
    }

    method RecordOcrFailures(path: Text, stamp: Stamp, attempts: nat) returns (out: Result<nat, string>)
      modifies this
      ensures out.Err? <==> path !in old(db).ocr.attempts && |old(db).ocr.attempts| >= 65_536
      ensures out.Err? ==> db == old(db)
      ensures db == old(db).(ocr := StepOcr({}, old(db).ocr, Fail(path, stamp, attempts)))
      // The one row of the path is for this version; the failures of another
      // version are forgotten, those of this one are added up to four.
      ensures out.Ok? ==>
                && db == old(db).(ocr := old(db).ocr.(
                     attempts := old(db).ocr.attempts[path := Attempts(stamp, out.value)]))
                && out.value == if path in old(db).ocr.attempts && old(db).ocr.attempts[path].stamp == stamp
                                then Min(4, old(db).ocr.attempts[path].failures + attempts) else Min(4, attempts)
      ensures out.Ok? ==> out.value == FailureCount(db.ocr, path, stamp) <= 4
    {
      var tx := db;
      if LedgerFull(tx.ocr.attempts, path) {
        return Err("OCR failure ledger is full");
      }
      var added := Min(attempts, 4);
      var row := Attempts(stamp, added);
      if path in tx.ocr.attempts {
        var kept := if tx.ocr.attempts[path].stamp == stamp then tx.ocr.attempts[path].failures else 0;
        row := Attempts(stamp, Min(4, kept + added));
      }
      tx := tx.(ocr := tx.ocr.(attempts := tx.ocr.attempts[path := row]));
      db := tx;
      out := Ok(row.failures);
    }

    method MarkFullRebuild(nowMs: nat)
      modifies this
      ensures db == old(db).(meta := old(db).meta.(lastRebuild := Some(nowMs)),
                             ocr := StepOcr({}, old(db).ocr, Rebuilt(nowMs)))
      ensures db.ocr == old(db).ocr.(recovery := false)
    {
      var tx := db;
      tx := tx.(meta := tx.meta.(lastRebuild := Some(nowMs)));
      tx := tx.(ocr := tx.ocr.(recovery := false));
      db := tx;
    }

    // ----- cache-body compaction -----

    // compact_duplicate_cache_bodies_batch. `read` lists the scanned paths and
    // `compared` counts the body bytes read for comparison.
    method CompactDuplicateCacheBodies(batchRows: int)
      returns (out: Result<Batch, string>, compared: nat, ghost read: seq<Text>)
      modifies this
      ensures out.Err? ==> db == old(db)
      ensures Repairable(old(db)) ==>
                && out.Ok?
                && Compacted(old(db), db, out.value, read)
                && out.value.clearedBytes <= compared <= MAX_BATCH_BODY_BYTES
                && Extent(old(db), batchRows, read, compared)
    {
      compared, read := 0, [];
      var limit: nat := Clamp(batchRows, 1, 256);
      var tx := db;
      if tx.meta.compacted {
        if Repairable(db) { CompletedIsNoop(db); }
        return Ok(Batch(0, 0, 0, 0, 0, true)), 0, [];
      }
      var candidates := SelectCandidates(tx, tx.meta.cursor, limit);
      var scan;
      tx, scan, compared := ScanCandidates(tx, candidates, limit);
      if scan.Err? {
        return Err(scan.error), compared, [];
      }
      var batch := scan.value;
      if batch.scanned > 0 {
        tx := tx.(meta := tx.meta.(cursor := candidates[batch.scanned - 1]));
      }
      if batch.complete && batch.scanned == |candidates| {
        tx := tx.(meta := tx.meta.(compacted := true));
      }
      read := candidates[..batch.scanned];
      if Repairable(db) {
        ProveCompacted(db, tx, candidates, limit, batch);
        ExtentOf(db, batchRows, candidates, batch.scanned, compared);
      }
      db := tx;
      out := Ok(batch);
    }

    // The loop over the selected candidates: at most 8 MiB is compared, and a
    // candidate that would exceed it ends the batch unless it is the first.
    static method ScanCandidates(base: Tables, c: seq<Text>, limit: nat)
      returns (tx: Tables, scan: Result<Batch, string>, compared: nat)
      requires IsSelection(base, base.meta.cursor, limit, c)
      ensures scan.Ok? ==>
                && scan.value.scanned <= |c|
                && scan.value.clearedBytes <= compared <= MAX_BATCH_BODY_BYTES
                && compared == ComparedBytes(base, c[..scan.value.scanned])
                && (scan.value.scanned < |c| ==> ExceedsBatch(base, c[scan.value.scanned], compared))
      ensures Repairable(base) ==>
                && scan.Ok?
                && (|c| > 0 ==> scan.value.scanned > 0)
                && ScanState(base, tx, scan.value, c, scan.value.scanned)
                && (scan.value.complete <==> scan.value.scanned == |c| < limit)
    {
      tx, compared := base, 0;
      var b := Batch(0, 0, 0, 0, 0, |c| < limit);
      ClearNothing(base);
      while b.scanned < |c|
        invariant b.scanned <= |c| && b.complete == (|c| < limit)
        invariant b.clearedBytes <= compared <= MAX_BATCH_BODY_BYTES && (compared > 0 ==> b.scanned > 0)
        invariant Repairable(base) ==> ScanState(base, tx, b, c, b.scanned)
        invariant compared == ComparedBytes(base, c[..b.scanned])
        decreases |c| - b.scanned
      {
        var step;
        assert c[..b.scanned + 1][..b.scanned] == c[..b.scanned];
        tx, step, compared := ScanCandidate(base, tx, b, c, compared);
        if step.Err? { return tx, Err(step.error), compared; }
        if step.value.None? {
          b := b.(complete := false);
          break;
        }
        b := step.value.value;
      }
      scan := Ok(b);
    }

    // The next candidate: too large to compare, over the budget of the batch
    // (None), different, or a duplicate whose cache body is emptied.
    static method ScanCandidate(base: Tables, tx0: Tables, b: Batch, c: seq<Text>, compared0: nat)
      returns (tx: Tables, step: Result<Option<Batch>, string>, compared: nat)
      requires b.scanned < |c| && Ascending(c)
      requires forall j :: 0 <= j < |c| ==> c[j] in base.cache && c[j] in base.rows
      requires b.clearedBytes <= compared0 <= MAX_BATCH_BODY_BYTES
      requires Repairable(base) ==> ScanState(base, tx0, b, c, b.scanned)
      ensures Repairable(base) ==> step.Ok?
      ensures step == Ok(None) ==> tx == tx0 && compared == compared0 > 0
      ensures step == Ok(None) ==> ExceedsBatch(base, c[b.scanned], compared0)
      ensures step.Ok? && step.value.Some? ==> compared == compared0 + ComparedSize(base, c[b.scanned])
      ensures step.Ok? && step.value.Some? ==>
                var b' := step.value.value;
                && b'.scanned == b.scanned + 1 && b'.complete == b.complete
                && b'.clearedBytes <= compared <= MAX_BATCH_BODY_BYTES
                && (Repairable(base) ==> ScanState(base, tx, b', c, b'.scanned))
    {
      tx, compared := tx0, compared0;
      var path := c[b.scanned];
      var size := |base.cache[path].body|;
      if Repairable(base) { NextCandidate(base, tx, b, c, b.scanned); }
      if size > MAX_BATCH_BODY_BYTES {
        return tx, Ok(Some(b.(scanned := b.scanned + 1, oversized := b.oversized + 1))), compared;
      }
      if compared > 0 && compared + size > MAX_BATCH_BODY_BYTES {
        return tx, Ok(None), compared;
      }
      tx, step, compared := CompareCandidate(base, tx, b, c, compared);
    }

    // The comparison of one cache body with the searchable body.
    static method CompareCandidate(base: Tables, tx0: Tables, b: Batch, c: seq<Text>, compared0: nat)
      returns (tx: Tables, step: Result<Option<Batch>, string>, compared: nat)
      requires b.scanned < |c| && Ascending(c)
      requires forall j :: 0 <= j < |c| ==> c[j] in base.cache && c[j] in base.rows
      requires var size := |base.cache[c[b.scanned]].body|;
               size <= MAX_BATCH_BODY_BYTES && (compared0 == 0 || compared0 + size <= MAX_BATCH_BODY_BYTES)
      requires b.clearedBytes <= compared0
      requires Repairable(base) ==> ScanState(base, tx0, b, c, b.scanned)
      ensures Repairable(base) ==> step.Ok?
      ensures step.Ok? ==>
                && step.value.Some? && compared == compared0 + ComparedSize(base, c[b.scanned])
                && var b' := step.value.value;
                && b'.scanned == b.scanned + 1 && b'.complete == b.complete
                && b'.clearedBytes <= compared <= MAX_BATCH_BODY_BYTES
                && (Repairable(base) ==> ScanState(base, tx, b', c, b'.scanned))
    {
      tx, compared := tx0, compared0;
      var path := c[b.scanned];
      var size := |base.cache[path].body|;
      if Repairable(base) { NextCandidate(base, tx, b, c, b.scanned); }
      if path !in tx.cache || path !in tx.rows || tx.rows[path] !in tx.docs {
        return tx, Err("Query returned no rows"), compared;
      }
      compared := compared + size;
      var b';
      tx, b' := ClearIfEqual(tx, path, b, size);
      step := Ok(Some(b'));
    }

    static method ClearIfEqual(tx0: Tables, path: Text, b: Batch, size: nat) returns (tx: Tables, b': Batch)
      requires path in tx0.cache && path in tx0.rows && tx0.rows[path] in tx0.docs
      ensures tx0.cache[path].body != tx0.docs[tx0.rows[path]].body ==>
                tx == tx0 && b' == b.(scanned := b.scanned + 1, mismatches := b.mismatches + 1)
      ensures tx0.cache[path].body == tx0.docs[tx0.rows[path]].body ==>
                && tx == UpdateCache(tx0, path, tx0.cache[path].(body := []))
                && b' == b.(scanned := b.scanned + 1, cleared := b.cleared + 1, clearedBytes := b.clearedBytes + size)
    {
      var cachedBody, ftsBody := tx0.cache[path].body, tx0.docs[tx0.rows[path]].body;
      if cachedBody != ftsBody {
        return tx0, b.(scanned := b.scanned + 1, mismatches := b.mismatches + 1);
      }
      tx := UpdateCache(tx0, path, tx0.cache[path].(body := []));
      b' := b.(scanned := b.scanned + 1, cleared := b.cleared + 1, clearedBytes := b.clearedBytes + size);
    }

    // ----- startup -----

    // migrate_cache_update_trigger
    method MigrateCacheUpdateTrigger()
      modifies this
      ensures old(db).meta.v3Mark ==> db == old(db)
      ensures !old(db).meta.v3Mark ==>
                db == old(db).(rowsReady := false, meta := old(db).meta.(v3Mark := true, v3Trigger := true))
    {
      if db.meta.v3Mark { return; }
      var tx := db;
      tx := tx.(meta := tx.meta.(v3Trigger := true));
      tx := tx.(meta := tx.meta.(v3Mark := true));
      tx := tx.(rowsReady := false);
      db := tx;
    }

    // migrate_document_rows
    method MigrateDocumentRows()
      modifies this
      ensures old(db).rowsReady && old(db).meta.triggersReady ==> db == old(db)
      ensures !(old(db).rowsReady && old(db).meta.triggersReady) ==>
                && db.rowsReady && db.meta == old(db).meta.(triggersReady := true)
                && db.docs == Newest(old(db).docs) && db.rows.Keys == PathsOf(old(db).docs)
                && db.cache == old(db).cache && db.ocr == old(db).ocr
                && (db.meta.v3Trigger ==> Linked(db))
    {
      if db.rowsReady && db.meta.triggersReady { return; }
      MigrationLinks(db.(meta := db.meta.(v3Trigger := true)));
      var tx := db;
      tx := tx.(rows := map[]);
      tx := RebuildRows(tx);
      tx := DropUnmapped(tx);
      tx := MarkRows(tx);
      tx := tx.(meta := tx.meta.(triggersReady := true));
      db := tx;
    }

    // backfill_cache_from_fts. `files` holds the fingerprints of the paths that
    // are regular files now.
    method BackfillCache(files: map<Text, Stamp>) returns (out: Outcome)
      modifies this
      ensures out.Err? ==> db == old(db)
      ensures Sound(old(db)) ==>
                && out.Ok?
                && db == old(db).(rowsReady := true,
                                  cache := Backfilled(old(db), files, old(db).rows.Keys - old(db).cache.Keys))
    {
      var missing := Listed(db.rows.Keys - db.cache.Keys);
      var tx;
      tx, out := BackfillRows(db, files, missing);
      if out.Ok? {
        tx := MarkRows(tx);
        db := tx;
      }
    }

    static method BackfillRows(base: Tables, files: map<Text, Stamp>, missing: seq<Text>)
      returns (tx: Tables, out: Outcome)
      requires Distinct(missing) && Elements(missing) == base.rows.Keys - base.cache.Keys
      ensures Sound(base) ==> out.Ok? && BackfillState(base, tx, files, Elements(missing))
    {
      tx := base;
      assert Backfilled(base, files, {}) == base.cache;
      for i := 0 to |missing|
        invariant Sound(base) ==> BackfillState(base, tx, files, Elements(missing[..i]))
      {
        var path := missing[i];
        NextElement(missing, i);
        if path !in files {
          if Sound(base) { BackfillSkip(base, tx, files, Elements(missing[..i]), path); }
          continue;
        }
        if Sound(base) { BackfillOne(base, tx, files, Elements(missing[..i]), path); }
        if path !in tx.cache {
          tx := UpsertCache(tx, path, CacheRow(files[path], []));
        }
        if RowidTaken(tx, path, base.rows[path]) {
          return tx, Err("UNIQUE constraint failed: grepmesh_document_rows.fts_rowid");
        }
        tx := MapRow(tx, path, base.rows[path]);
      }
      assert missing[..|missing|] == missing;
      out := Ok(());
    }

    // PersistentIndex::open on an existing database.
    method Open(files: map<Text, Stamp>) returns (out: Outcome)
      modifies this
      ensures (old(db).meta.v3Mark ==> old(db).meta.v3Trigger) && (Migrates(old(db)) || Linked(old(db))) ==>
                out.Ok? && Opened(old(db), db, files)
      ensures !Migrates(old(db)) && Repairable(old(db)) ==> out.Ok? && Repairable(db)
      // A start restores the bijection exactly when it migrates or finds it.
      ensures (old(db).meta.v3Mark ==> old(db).meta.v3Trigger) && Repairable(old(db)) ==>
                (Linked(db) <==> Migrates(old(db)) || Linked(old(db)))
      // Without a migration it only adds cache rows.
      ensures !Migrates(old(db)) && Sound(old(db)) ==> out.Ok? && db == Unmigrated(old(db), files)
    {
      MigrateCacheUpdateTrigger();
      MigrateDocumentRows();
      ghost var linked := db;
      out := BackfillCache(files);
      if Sound(linked) { BackfillKeeps(linked, db, files); }
    }

    // clear: four statements, each committed on its own. The installed trigger
    // stays although its marker is deleted with the rest of the metadata.
    method Clear()
      modifies this
      ensures db.docs == map[] && db.cache == map[] && db.rows == map[] && !db.rowsReady
      ensures db.meta == Meta(false, false, old(db).meta.v3Trigger, [], false, None)
      ensures db.ocr == old(db).ocr.(overflow := false, recovery := false)
    {
      db := db.(docs := map[]);
      db := db.(cache := map[], rowsReady := db.rowsReady && db.cache == map[]);
      db := db.(rows := map[]);
      db := db.(rowsReady := false,
                meta := Meta(false, false, db.meta.v3Trigger, [], false, None),
                ocr := db.ocr.(overflow := false, recovery := false));
    }

    // ----- runs -----

    // One operation on an index that may have mapped paths without a cache row.
    method Apply(op: Op)
      requires Repairable(db)
      modifies this
      ensures Stepped(old(db), db, op)
    {
      if QueueOp(op) {
        ApplyQueue(op);
        return;
      }
      match op {
        case Replace(doc) => ApplyReplace(doc, false);
        case Refresh(doc) => ApplyReplace(doc, true);
        case Remove(path) => ApplyRemove(path, None);
        case RemoveEmpty(path, stamp) => ApplyRemove(path, Some(stamp));
        case Prune(seen) => ApplyPrune(seen);
        case Compact(batch) => ApplyCompact(batch);
      }
    }

    method ApplyReplace(doc: Document, preserve: bool)
      requires Repairable(db)
      modifies this
      ensures Stepped(old(db), db, if preserve then Refresh(doc) else Replace(doc))
    {
      ghost var before := db;
      var out := ReplaceDocument(doc, preserve, true);
      if preserve && doc.path in before.rows {
        RefreshedSearch(before, db, doc);
        if ScannedSettled(before) { RefreshKeepsSettled(before, db, doc.path, doc.stamp); }
      } else {
        CommittedSearch(before, db, doc);
        if ScannedSettled(before) { CommittedKeepsSettled(before, db, doc); }
      }
    }

    method ApplyRemove(path: Text, empty: Option<Stamp>)
      requires Repairable(db)
      modifies this
      ensures Stepped(old(db), db, if empty.Some? then RemoveEmpty(path, empty.value) else Remove(path))
    {
      ghost var before := db;
      var out := RemoveDocument(path, empty);
      if out.Ok? {
        ErasedSearch(before, db, {path});
        if ScannedSettled(before) { ErasedKeepsSettled(before, db, {path}); }
      }
    }

    method ApplyPrune(seen: set<Text>)
      requires Repairable(db)
      modifies this
      ensures Stepped(old(db), db, Prune(seen))
    {
      ghost var before := db;
      PruneExcept(seen);
      PrunedIsStepped(before, db, seen);
    }

    method ApplyCompact(batch: int)
      requires Repairable(db)
      modifies this
      ensures Stepped(old(db), db, Compact(batch))
    {
      ghost var before := db;
      var out, compared, read := CompactDuplicateCacheBodies(batch);
      CompactedSearch(before, db, out.value, read);
    }

    static predicate QueueOp(op: Op) {
      op.Defer? || op.Ack? || op.SetOverflow? || op.Fail? || op.Rebuilt?
    }

    method ApplyQueue(op: Op)
      requires QueueOp(op)
      modifies this
      ensures db.ocr == StepOcr({}, old(db).ocr, op)
      ensures db == old(db).(ocr := db.ocr, meta := old(db).meta.(lastRebuild := db.meta.lastRebuild))
      ensures Repairable(old(db)) ==> Stepped(old(db), db, op)
    {
      match op {
        case Defer(path) =>
          var out := DeferOcr(path);
        case Ack(path) =>
          AckPendingOcr(path);
        case SetOverflow(on) =>
          SetOcrOverflow(on);
        case Fail(path, stamp, attempts) =>
          var out := RecordOcrFailures(path, stamp, attempts);
        case Rebuilt(nowMs) =>
          MarkFullRebuild(nowMs);
      }
      QueueStepKeeps(old(db), db);
    }

    // Every run of the operations keeps the tables in agreement and is the same run
    // of the simple map; from a start that left paths without a cache row it is the
    // run of the texts that a search reads.
    method RunAll(ops: seq<Op>)
      requires Repairable(db)
      modifies this
      ensures Repairable(db) && SearchableOf(db) == SearchRun(SearchableOf(old(db)), ops)
      ensures Consistent(old(db)) ==>
                Consistent(db) && Abstract(db) == Run(Abstract(old(db)), ops) && (old(db).rowsReady ==> db.rowsReady)
      ensures ScannedSettled(old(db)) ==> ScannedSettled(db)
    {
      var i := 0;
      while i < |ops|
        invariant i <= |ops| && Repairable(db)
        invariant SearchRun(SearchableOf(db), ops[i..]) == SearchRun(SearchableOf(old(db)), ops)
        invariant Consistent(old(db)) ==>
                    && Consistent(db) && (old(db).rowsReady ==> db.rowsReady)
                    && Run(Abstract(db), ops[i..]) == Run(Abstract(old(db)), ops)
        invariant ScannedSettled(old(db)) ==> ScannedSettled(db)
      {
        assert ops[i..][1..] == ops[i + 1..];
        Apply(ops[i]);
        i := i + 1;
      }
    }

    // One event of the life of an index: an operation, a start or a clear.
    method Undergo(e: Event)
      requires Repairable(db)
      modifies this
      ensures Repairable(db) && EventStep(SearchableOf(old(db)), SearchableOf(db), e)
      ensures Consistent(old(db)) ==> Consistent(db) && Abstract(db) == LifeStep(Abstract(old(db)), e)
    {
      ghost var before := db;
      match e {
        case Did(op) =>
          Apply(op);
        case Started(files) =>
          var out := Open(files);
          StartedSearch(before, db, files);
          if Consistent(before) { StartedConsistent(before, db, files); }
        case Cleared =>
          Clear();
      }
    }

    // Every life of an index, with restarts. `states` are the searchable contents
    // after each event.
    method Live(events: seq<Event>) returns (ghost states: seq<Searchable>)
      requires Repairable(db)
      modifies this
      ensures Repairable(db) && IsLife(states, events)
      ensures states[0] == SearchableOf(old(db)) && states[|events|] == SearchableOf(db)
      ensures Consistent(old(db)) ==> Consistent(db) && Abstract(db) == Life(Abstract(old(db)), events)
    {
      states := [SearchableOf(db)];
      for i := 0 to |events|
        invariant Repairable(db) && IsLife(states, events[..i])
        invariant states[0] == SearchableOf(old(db)) && states[i] == SearchableOf(db)
        invariant Consistent(old(db)) ==> Consistent(db) && Abstract(db) == Life(Abstract(old(db)), events[..i])
      {
        assert events[..i + 1] == events[..i] + [events[i]];
        if Consistent(old(db)) { LifeAppend(Abstract(old(db)), events[..i], events[i]); }
        Undergo(events[i]);
        states := states + [SearchableOf(db)];
      }
      assert events[..|events|] == events;
    }
  }
}
