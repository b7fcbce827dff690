// The SQLite tables behind the persistent index. Each SQL statement of the
// source is a function on the tables with the triggers it fires inlined, so a
// transaction is a local copy of the tables that is stored back on commit.
module IndexTables {
  import opened Bytes
  import opened Results

  // File fingerprint: size in bytes and modification time in nanoseconds.
  datatype Stamp = Stamp(size: nat, mtime: nat)

  datatype Document = Document(path: Text, body: Text, stamp: Stamp)

  datatype FtsRow = FtsRow(path: Text, body: Text)

  datatype CacheRow = CacheRow(stamp: Stamp, body: Text)

  datatype Attempts = Attempts(stamp: Stamp, failures: nat)

  // The durable OCR queue, its two metadata flags and the two ledgers.
  datatype Ocr = Ocr(
    pending: set<Text>,
    overflow: bool,
    recovery: bool,
    attempts: map<Text, Attempts>,
    empties: map<Text, Stamp>)

  // The other keys of grepmesh_metadata, and which update trigger is installed.
  datatype Meta = Meta(
    triggersReady: bool,         // document_rows_triggers_v1 = '1'
    v3Mark: bool,                // cache_update_trigger_v3 = '1'
    v3Trigger: bool,             // the conditional update trigger is installed
    cursor: Text,                // cache_body_compaction_v1_cursor
    compacted: bool,             // cache_body_compaction_v1_done = '1'
    lastRebuild: Option<nat>)    // last_full_rebuild_ms

  datatype Tables = Tables(
    docs: map<int, FtsRow>,      // grepmesh_documents, keyed by FTS rowid
    cache: map<Text, CacheRow>,  // grepmesh_extraction_cache
    rows: map<Text, int>,        // grepmesh_document_rows; fts_rowid is UNIQUE
    rowsReady: bool,             // metadata document_rows_v1 = '1'
    meta: Meta,
    ocr: Ocr)

  const MAX_PENDING_OCR: nat := 65_536

  // ----- triggers -----

  function CacheInserted(t: Tables, path: Text): Tables {
    t.(rows := t.rows - {path}, rowsReady := false)
  }

  // Whether the mapping of `path` names an FTS row that is absent or belongs to
  // another path.
  predicate StaleMapping(t: Tables, path: Text) {
    path in t.rows && !(t.rows[path] in t.docs && t.docs[t.rows[path]].path == path)
  }

  // An update never changes the primary key here, so OLD.path = NEW.path.
  function CacheUpdated(t: Tables, path: Text): Tables {
    if !t.meta.v3Trigger || StaleMapping(t, path)
    then t.(rows := t.rows - {path}, rowsReady := false)
    else t
  }

  // ----- statements on the FTS table -----

  function DeleteDocument(t: Tables, rowid: int): Tables {
    t.(docs := t.docs - {rowid})
  }

  function OtherDocs(t: Tables, path: Text): map<int, FtsRow> {
    map r | r in t.docs && t.docs[r].path != path :: t.docs[r]
  }

  function DeleteDocumentsByPath(t: Tables, path: Text): Tables {
    t.(docs := OtherDocs(t, path))
  }

  function InsertDocument(t: Tables, rowid: int, path: Text, body: Text): Tables {
    t.(docs := t.docs[rowid := FtsRow(path, body)])
  }

  // ----- statements on the extraction cache -----

  function UpsertCache(t: Tables, path: Text, row: CacheRow): Tables {
    var t' := t.(cache := t.cache[path := row]);
    if path in t.cache then CacheUpdated(t', path) else CacheInserted(t', path)
  }

  function UpdateCache(t: Tables, path: Text, row: CacheRow): Tables {
    if path in t.cache then CacheUpdated(t.(cache := t.cache[path := row]), path) else t
  }

  function DeleteCache(t: Tables, path: Text): Tables {
    if path in t.cache then t.(cache := t.cache - {path}, rowsReady := false) else t
  }

  // ----- statements on the row map and the marker -----

  // The upsert resolves a conflict on the path only: a rowid that is mapped by
  // another path violates the UNIQUE constraint.
  predicate RowidTaken(t: Tables, path: Text, rowid: int) {
    exists p :: p in t.rows && p != path && t.rows[p] == rowid
  }

  function MapRow(t: Tables, path: Text, rowid: int): Tables {
    t.(rows := t.rows[path := rowid])
  }

  function UnmapRow(t: Tables, path: Text): Tables {
    t.(rows := t.rows - {path})
  }

  function MarkRows(t: Tables): Tables {
    t.(rowsReady := true)
  }

  // ----- statements on the OCR tables -----

  function Dequeue(o: Ocr, path: Text): Ocr {
    o.(pending := o.pending - {path})
  }

  // Committing one version of a document leaves the queue and clears exactly
  // that version from both ledgers.
  function Acknowledge(o: Ocr, path: Text, stamp: Stamp): Ocr {
    o.(pending := o.pending - {path},
       attempts := if path in o.attempts && o.attempts[path].stamp == stamp
                   then o.attempts - {path} else o.attempts,
       empties := if path in o.empties && o.empties[path] == stamp
                  then o.empties - {path} else o.empties)
  }

  // ----- queries -----

  // SELECT CASE WHEN cache.body='' THEN documents.body ELSE cache.body END ...
  function CachedBody(t: Tables, path: Text, stamp: Stamp): Option<Text> {
    if path in t.cache && t.cache[path].stamp == stamp then
      if t.cache[path].body != [] then Some(t.cache[path].body)
      else if path in t.rows && t.rows[path] in t.docs then Some(t.docs[t.rows[path]].body)
      else None
    else None
  }

  // The body a search reads for a path: through the row map.
  function SearchBody(t: Tables, path: Text): Option<Text> {
    if path in t.rows && t.rows[path] in t.docs
    then Some(t.docs[t.rows[path]].body) else None
  }
}
