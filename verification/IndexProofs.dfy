// Each commit branch of the index operations does what the simple map asks.
module IndexProofs {
  import opened Bytes
  import opened Results
  import opened IndexTables
  import opened IndexSpec
  import opened IndexEffects

  // What a replace of either mode achieves. Full extraction, and metadata-only
  // for a path without searchable text, commits the document; in a consistent
  // index both are one step of the simple map.
  ghost predicate ReplaceDone(t: Tables, t': Tables, doc: Document, preserve: bool) {
    && Repairable(t')
    && (!(preserve && doc.path in t.rows) ==>
          Committed(t, t', doc) && (Linked(t) ==> Linked(t')))
    && (Consistent(t) ==>
          && Consistent(t') && (t.rowsReady ==> t'.rowsReady)
          && Abstract(t') == Step(Abstract(t), if preserve then Refresh(doc) else Replace(doc)))
  }

  // ----- proofs of the four commit branches -----

  lemma ProveRefresh(t: Tables, t': Tables, doc: Document)
    requires doc.path in t.rows && t' == UpsertCache(t, doc.path, CacheRow(doc.stamp, []))
    requires !StaleMapping(t, doc.path)
    ensures Repairable(t) ==> ReplaceDone(t, t', doc, true)
  {
    if Repairable(t) {
      if doc.path in t.cache {
        CacheRowRefines(t, t', doc.path, CacheRow(doc.stamp, []));
      }
    }
  }

  lemma ProveRetained(t: Tables, t': Tables, doc: Document, row: CacheRow, preserve: bool)
    requires doc.path in t.rows && t.rows[doc.path] in t.docs && doc.path in t.cache
    requires t.docs[t.rows[doc.path]] == FtsRow(doc.path, doc.body)
    requires row.stamp == doc.stamp
    requires row.body == [] || (row.body == doc.body && row == t.cache[doc.path])
    requires !preserve
    requires Repairable(t) ==>
               t' == t.(cache := t.cache[doc.path := row],
                        ocr := Acknowledge(t.ocr, doc.path, doc.stamp))
    ensures Repairable(t) ==> ReplaceDone(t, t', doc, preserve)
  {
    if Repairable(t) {
      RetainedRowCommits(t, t', doc, row);
      CommittedRefines(t, t', doc);
    }
  }

  // The statements of the inserting branch, triggers included.
  ghost function Inserted(t: Tables, doc: Document, rowid: int): Tables {
    UpsertCache(InsertDocument(WithoutOldRow(t, doc.path), rowid, doc.path, doc.body),
                doc.path, CacheRow(doc.stamp, []))
  }

  lemma InsertedTables(t: Tables, doc: Document, rowid: int)
    requires Repairable(t)
    ensures var tx := Inserted(t, doc, rowid);
            && tx.docs == OtherDocs(t, doc.path)[rowid := FtsRow(doc.path, doc.body)]
            && tx.cache == t.cache[doc.path := CacheRow(doc.stamp, [])]
            && tx.rows - {doc.path} == t.rows - {doc.path}
            && tx.meta.v3Trigger && tx.ocr == t.ocr
  {
    OldRowIsGone(t, doc.path);
    var tx := Inserted(t, doc, rowid);
    assert t.rows - {doc.path} - {doc.path} == t.rows - {doc.path};
  }

  // The rest of the inserting branch once the rowid is known to be free.
  ghost function Finished(tx: Tables, doc: Document, rowid: int): Tables {
    MarkRows(MapRow(tx, doc.path, rowid)).(ocr := Acknowledge(tx.ocr, doc.path, doc.stamp))
  }

  lemma ProveInserted(t: Tables, tx: Tables, doc: Document, rowid: int, preserve: bool)
    requires rowid !in WithoutOldRow(t, doc.path).docs && tx == Inserted(t, doc, rowid)
    requires preserve && doc.path in t.rows ==> StaleMapping(t, doc.path)
    ensures Repairable(t) ==>
              && !RowidTaken(tx, doc.path, rowid)
              && (forall p :: p in tx.rows && p != doc.path ==> tx.rows[p] != rowid)
              && ReplaceDone(t, Finished(tx, doc, rowid), doc, preserve)
    ensures tx.meta == t.meta
  {
    if Repairable(t) {
      var t' := Finished(tx, doc, rowid);
      InsertedTables(t, doc, rowid);
      OldRowIsGone(t, doc.path);
      FreshRowCommits(t, doc, rowid, tx, t');
      CommittedRefines(t, t', doc);
      if preserve && Consistent(t) { UnsearchableRefreshIsReplace(t, doc); }
    }
  }

  // ----- removal and pruning -----

  // Everything about the paths is deleted, nothing else is touched.
  ghost predicate Erased(t: Tables, t': Tables, ps: set<Text>) {
    && t'.rows == t.rows - ps
    && t'.cache == t.cache - ps
    && t'.docs == DocsOutside(t, ps)
    && t'.meta == t.meta
  }

  lemma ErasedRefines(t: Tables, t': Tables, ps: set<Text>)
    requires Repairable(t) && Erased(t, t', ps)
    ensures Gone(t', ps) && SameElsewhere(t, t', ps)
    ensures Repairable(t')
    ensures Linked(t) ==> Linked(t')
    ensures Consistent(t) ==> Consistent(t') && View(t') == View(t) - ps
  {
    assert DocsOutside(t', ps) == t'.docs;
    assert t.rows - ps - ps == t.rows - ps && t.cache - ps - ps == t.cache - ps;
    GoneRefines(t, t', ps);
  }

  lemma OldRowErased(t: Tables, t': Tables, path: Text)
    requires Repairable(t)
    requires t'.docs == WithoutOldRow(t, path).docs && t'.meta == t.meta
    requires t'.rows == t.rows - {path} && t'.cache == DeleteCache(t, path).cache
    ensures Erased(t, t', {path})
  {
    OldRowIsGone(t, path);
    assert OtherDocs(t, path) == DocsOutside(t, {path});
    if path !in t.cache { assert t.cache - {path} == t.cache; }
  }

  // One iteration of the prune loop: the mapped row, the cache row, the mapping.
  lemma PruneOne(t: Tables, tx: Tables, tx': Tables, done: set<Text>, path: Text)
    requires Repairable(t) && Erased(t, tx, done)
    requires path in t.rows && path !in done
    requires tx' == UnmapRow(DeleteCache(DeleteDocument(tx, t.rows[path]), path), path)
    ensures Erased(t, tx', done + {path})
  {
    var more := done + {path};
    assert t.rows - done - {path} == t.rows - more;
    assert t.cache - done - {path} == t.cache - more;
    if path !in tx.cache { assert t.cache - done == t.cache - more; }
    forall r | r in t.docs && t.docs[r].path == path
      ensures r == t.rows[path]
    {
      assert Mapped(t, r);
    }
    assert DocsOutside(t, done) - {t.rows[path]} == DocsOutside(t, more);
  }

  // Pruning restricts the index, and the simple map, to the seen paths.
  ghost predicate Pruned(t: Tables, t': Tables, seen: set<Text>) {
    && Repairable(t')
    && Erased(t, t', t.rows.Keys - seen)
    && (Linked(t) ==> Linked(t'))
    && (Consistent(t) ==> Consistent(t') && Abstract(t') == Step(Abstract(t), Prune(seen)))
  }

  lemma ProvePruned(t: Tables, tx: Tables, seen: set<Text>)
    requires Repairable(t) && Erased(t, tx, t.rows.Keys - seen) && tx.ocr == t.ocr
    ensures Pruned(t, MarkRows(tx), seen)
  {
    var t' := MarkRows(tx);
    assert Erased(t, t', t.rows.Keys - seen);
    ErasedRefines(t, t', t.rows.Keys - seen);
    if Consistent(t) {
      assert View(t') == StepEntries(View(t), t.ocr, Prune(seen));
    }
  }
}
