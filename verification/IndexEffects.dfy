// What one operation does to the tables, path by path, and why that keeps the
// invariants and is one step of the simple map.
module IndexEffects {
  import opened Bytes
  import opened Results
  import opened IndexTables
  import opened IndexSpec

  function DocsOutside(t: Tables, ps: set<Text>): map<int, FtsRow> {
    map r | r in t.docs && t.docs[r].path !in ps :: t.docs[r]
  }

  // No table says anything new about a path outside `ps`.
  predicate SameElsewhere(t: Tables, t': Tables, ps: set<Text>) {
    && t.rows - ps == t'.rows - ps
    && t.cache - ps == t'.cache - ps
    && DocsOutside(t, ps) == DocsOutside(t', ps)
    && t.meta.v3Trigger == t'.meta.v3Trigger
  }

  // Exactly one FTS row for the path, mapped, with the given fingerprint, and a
  // cache body that is either empty or the same text.
  predicate Stored(t: Tables, path: Text, body: Text, stamp: Stamp) {
    && path in t.rows && t.rows[path] in t.docs
    && t.docs[t.rows[path]] == FtsRow(path, body)
    && (forall r :: r in t.docs && t.docs[r].path == path ==> r == t.rows[path])
    && path in t.cache && t.cache[path].stamp == stamp
    && (t.cache[path].body == [] || t.cache[path].body == body)
  }

  predicate Gone(t: Tables, ps: set<Text>) {
    && t.rows.Keys !! ps
    && t.cache.Keys !! ps
    && forall r :: r in t.docs ==> t.docs[r].path !in ps
  }

  lemma ElsewhereIsPointwise(t: Tables, t': Tables, ps: set<Text>, p: Text)
    requires SameElsewhere(t, t', ps) && p !in ps
    ensures p in t.rows <==> p in t'.rows
    ensures p in t.rows ==> t.rows[p] == t'.rows[p]
    ensures p in t.cache <==> p in t'.cache
    ensures p in t.cache ==> t.cache[p] == t'.cache[p]
    ensures forall r :: r in t.docs && t.docs[r].path == p ==> r in t'.docs && t'.docs[r] == t.docs[r]
    ensures forall r :: r in t'.docs && t'.docs[r].path == p ==> r in t.docs && t'.docs[r] == t.docs[r]
  {
    assert p in t.rows <==> p in t.rows - ps;
    assert p in t'.rows <==> p in t'.rows - ps;
    assert p in t.cache <==> p in t.cache - ps;
    assert p in t'.cache <==> p in t'.cache - ps;
    forall r | r in t.docs && t.docs[r].path == p
      ensures r in t'.docs && t'.docs[r] == t.docs[r]
    {
      assert r in DocsOutside(t, ps) && r in DocsOutside(t', ps);
      assert DocsOutside(t, ps)[r] == DocsOutside(t', ps)[r];
    }
    forall r | r in t'.docs && t'.docs[r].path == p
      ensures r in t.docs && t'.docs[r] == t.docs[r]
    {
      assert r in DocsOutside(t', ps) && r in DocsOutside(t, ps);
      assert DocsOutside(t, ps)[r] == DocsOutside(t', ps)[r];
    }
  }

  // If the touched paths are each either stored or gone, the invariants hold.
  lemma InvariantsKept(t: Tables, t': Tables, ps: set<Text>)
    requires SameElsewhere(t, t', ps) && Repairable(t)
    requires forall p | p in ps ::
               (p in t'.rows ==> t'.rows[p] in t'.docs && t'.docs[t'.rows[p]].path == p)
    requires forall r | r in t'.docs && t'.docs[r].path in ps :: Mapped(t', r)
    ensures Repairable(t')
    ensures Linked(t) ==> Linked(t')
  {
    forall p | p in t'.rows && p !in ps
      ensures t'.rows[p] in t'.docs && t'.docs[t'.rows[p]].path == p
    {
      ElsewhereIsPointwise(t, t', ps, p);
    }
    forall r | r in t'.docs && t'.docs[r].path !in ps
      ensures r in t.docs && t.docs[r] == t'.docs[r]
      ensures Mapped(t, r) ==> Mapped(t', r)
      ensures Mapped(t', r) || (t'.docs[r].path !in t'.rows && t'.docs[r].path in t'.cache)
    {
      ElsewhereIsPointwise(t, t', ps, t'.docs[r].path);
    }
  }

  lemma EntriesElsewhere(t: Tables, t': Tables, ps: set<Text>, p: Text)
    requires SameElsewhere(t, t', ps) && p !in ps
    requires Consistent(t) && Consistent(t')
    ensures p in View(t) <==> p in View(t')
    ensures p in View(t) ==> View(t)[p] == View(t')[p]
  {
    ElsewhereIsPointwise(t, t', ps, p);
  }

  lemma KeysElsewhere(t: Tables, t': Tables, ps: set<Text>)
    requires SameElsewhere(t, t', ps) && Consistent(t) && Linked(t')
    requires forall p | p in ps :: p in t'.rows <==> p in t'.cache
    ensures Consistent(t')
  {
    forall p
      ensures p in t'.rows <==> p in t'.cache
    {
      if p !in ps {
        ElsewhereIsPointwise(t, t', ps, p);
        assert p in t.rows.Keys <==> p in t.cache.Keys;
      }
    }
  }

  // Storing one document is a map update with every other path unchanged.
  lemma StoredRefines(t: Tables, t': Tables, path: Text, body: Text, stamp: Stamp)
    requires Repairable(t) && SameElsewhere(t, t', {path}) && Stored(t', path, body, stamp)
    ensures Repairable(t')
    ensures Linked(t) ==> Linked(t')
    ensures Consistent(t) ==> Consistent(t')
    ensures Consistent(t) ==> View(t') == View(t)[path := Entry(stamp, body, body)]
    ensures CachedBody(t', path, stamp) == SearchBody(t', path) == Some(body)
  {
    InvariantsKept(t, t', {path});
    if Consistent(t) {
      KeysElsewhere(t, t', {path});
      forall p | p != path
        ensures p in View(t) <==> p in View(t')
        ensures p in View(t) ==> View(t)[p] == View(t')[p]
      {
        EntriesElsewhere(t, t', {path}, p);
      }
    }
  }

  // Deleting paths is a map restriction.
  lemma GoneRefines(t: Tables, t': Tables, ps: set<Text>)
    requires Repairable(t) && SameElsewhere(t, t', ps) && Gone(t', ps)
    ensures Repairable(t')
    ensures Linked(t) ==> Linked(t')
    ensures Consistent(t) ==> Consistent(t')
    ensures Consistent(t) ==> View(t') == View(t) - ps
  {
    InvariantsKept(t, t', ps);
    if Consistent(t) {
      KeysElsewhere(t, t', ps);
      forall p | p !in ps
        ensures p in View(t) <==> p in View(t')
        ensures p in View(t) ==> View(t)[p] == View(t')[p]
      {
        EntriesElsewhere(t, t', ps, p);
      }
    }
  }

  // No other path is mapped to the rowid of this one.
  predicate MappedAlone(t: Tables, path: Text) {
    path in t.rows && forall p :: p in t.rows && p != path ==> t.rows[p] != t.rows[path]
  }

  lemma FreeRowid(t: Tables, path: Text, rowid: int)
    requires !RowidTaken(t, path, rowid)
    ensures MappedAlone(MapRow(t, path, rowid), path)
  {
  }

  // Why the trigger is replaced before anything is compacted: under the older one
  // every update of a cache row unmaps its path.
  lemma UpdateKeepsMappingExactly(t: Tables, path: Text, row: CacheRow)
    requires path in t.cache && path in t.rows && t.rowsReady
    ensures var t', named := UpdateCache(t, path, row), t.rows[path] in t.docs && t.docs[t.rows[path]].path == path;
            && (path in t'.rows <==> t.meta.v3Trigger && named)
            && (t'.rowsReady <==> t.meta.v3Trigger && named)
            && t'.rows - {path} == t.rows - {path} && t'.docs == t.docs
  {
    assert t.rows - {path} - {path} == t.rows - {path};
  }

  // Emptying or refreshing one cache row: only the fingerprint and the choice of
  // the served body can change.
  lemma CacheRowRefines(t: Tables, t': Tables, path: Text, row: CacheRow)
    requires Repairable(t) && path in t.rows && path in t.cache
    requires t' == UpsertCache(t, path, row)
    ensures t' == t.(cache := t.cache[path := row])
    ensures Repairable(t')
    ensures Linked(t) ==> Linked(t')
    ensures Consistent(t) ==> Consistent(t')
    ensures Consistent(t) ==>
              View(t') == View(t)[path := Entry(row.stamp,
                if row.body == [] then View(t)[path].searchable else row.body,
                View(t)[path].searchable)]
  {
    assert forall r :: r in t.docs ==> Mapped(t, r) == Mapped(t', r);
  }

  // The effect of committing a full document.
  predicate Committed(t: Tables, t': Tables, doc: Document) {
    && Stored(t', doc.path, doc.body, doc.stamp)
    && SameElsewhere(t, t', {doc.path})
    && t'.ocr == Acknowledge(t.ocr, doc.path, doc.stamp)
    && (t.rowsReady ==> t'.rowsReady)
    // No second copy of the text is written: a non-empty cache body was there.
    && (t'.cache[doc.path].body == [] || (t'.docs == t.docs && t'.cache == t.cache && t'.rows == t.rows))
  }

  // A committed version leaves the queue and both ledgers; every other path and
  // every other version stays as it was.
  ghost predicate VersionSettled(o: Ocr, o': Ocr, path: Text, stamp: Stamp) {
    && o'.pending == o.pending - {path} && o'.overflow == o.overflow && o'.recovery == o.recovery
    && !(path in o'.empties && o'.empties[path] == stamp)
    && !(path in o'.attempts && o'.attempts[path].stamp == stamp)
    && (forall p :: p in o'.empties ==> p in o.empties && o'.empties[p] == o.empties[p])
    && (forall p :: p in o'.attempts ==> p in o.attempts && o'.attempts[p] == o.attempts[p])
    && (forall p :: p in o.empties && !(p == path && o.empties[p] == stamp) ==> p in o'.empties)
    && (forall p :: p in o.attempts && !(p == path && o.attempts[p].stamp == stamp) ==> p in o'.attempts)
  }

  lemma CommittedRefines(t: Tables, t': Tables, doc: Document)
    requires Repairable(t) && Committed(t, t', doc)
    ensures Repairable(t')
    ensures Linked(t) ==> Linked(t')
    ensures Consistent(t) ==> Consistent(t') && Abstract(t') == Step(Abstract(t), Replace(doc))
    ensures CachedBody(t', doc.path, doc.stamp) == SearchBody(t', doc.path) == Some(doc.body)
  {
    StoredRefines(t, t', doc.path, doc.body, doc.stamp);
  }

  lemma UnsearchableRefreshIsReplace(t: Tables, doc: Document)
    requires Consistent(t) && doc.path !in t.rows
    ensures Step(Abstract(t), Refresh(doc)) == Step(Abstract(t), Replace(doc))
  {
  }

  // The mapped FTS row already holds this text: refresh at most the cache row.
  lemma RetainedRowCommits(t: Tables, t': Tables, doc: Document, row: CacheRow)
    requires Repairable(t) && doc.path in t.rows && doc.path in t.cache
    requires t.docs[t.rows[doc.path]].body == doc.body
    requires row.stamp == doc.stamp && (row.body == [] || (row.body == doc.body && row == t.cache[doc.path]))
    requires t' == t.(cache := t.cache[doc.path := row],
                      ocr := Acknowledge(t.ocr, doc.path, doc.stamp))
    ensures Committed(t, t', doc)
  {
    assert t'.cache - {doc.path} == t.cache - {doc.path};
    assert row == t.cache[doc.path] ==> t'.cache == t.cache;
  }

  // The tables after the old FTS row of the path is deleted: by rowid when it is
  // mapped, by path when only a cache row is left, not at all for a new path.
  function WithoutOldRow(t: Tables, path: Text): Tables {
    if path in t.rows then DeleteDocument(t, t.rows[path])
    else if path in t.cache then DeleteDocumentsByPath(t, path)
    else t
  }

  lemma OldRowIsGone(t: Tables, path: Text)
    requires Repairable(t)
    ensures WithoutOldRow(t, path).docs == OtherDocs(t, path)
  {
    if path in t.rows {
      var id := t.rows[path];
      forall r | r in t.docs
        ensures r == id <==> t.docs[r].path == path
      {
        assert t.docs[r].path == path ==> Mapped(t, r);
      }
      assert t.docs - {id} == OtherDocs(t, path);
    } else if path !in t.cache {
      forall r | r in t.docs
        ensures t.docs[r].path != path
      {
        assert Mapped(t, r) || t.docs[r].path in t.cache;
      }
      assert t.docs == OtherDocs(t, path);
    }
  }

  // A fresh row at a path that no FTS row has, with its mapping dropped by a
  // trigger or not, ends up as the one row of that path.
  lemma FreshRowCommits(t: Tables, doc: Document, rowid: int, tx: Tables, t': Tables)
    requires Repairable(t) && rowid !in OtherDocs(t, doc.path)
    requires tx.docs == OtherDocs(t, doc.path)[rowid := FtsRow(doc.path, doc.body)]
    requires tx.cache == t.cache[doc.path := CacheRow(doc.stamp, [])]
    requires tx.rows - {doc.path} == t.rows - {doc.path}
    requires tx.meta.v3Trigger && t'.meta.v3Trigger && t'.rowsReady
    requires t'.docs == tx.docs && t'.cache == tx.cache && t'.rows == tx.rows[doc.path := rowid]
    requires t'.ocr == Acknowledge(t.ocr, doc.path, doc.stamp)
    ensures !RowidTaken(tx, doc.path, rowid)
    ensures Committed(t, t', doc)
  {
    var path := doc.path;
    forall p | p in tx.rows && p != path
      ensures tx.rows[p] != rowid
    {
      assert p in tx.rows - {path} && (t.rows - {path})[p] == (tx.rows - {path})[p];
      assert t.rows[p] in OtherDocs(t, path);
    }
    assert t'.rows - {path} == tx.rows - {path};
    assert t'.cache - {path} == t.cache - {path};
    assert DocsOutside(t, {path}) == DocsOutside(t', {path});
  }
}
