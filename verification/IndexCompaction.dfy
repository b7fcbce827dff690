// Resumable removal of cache bodies that duplicate the searchable body.
module IndexCompaction {
  import opened Bytes
  import opened Results
  import opened Sets
  import opened IndexTables
  import opened IndexSpec
  import opened IndexEffects

  const MAX_BATCH_BODY_BYTES: nat := 8 * 1024 * 1024

  datatype Batch = Batch(
    scanned: nat, cleared: nat, clearedBytes: nat, mismatches: nat, oversized: nat, complete: bool)

  function Clamp(n: int, lo: int, hi: int): int {
    if n < lo then lo else if n > hi then hi else n
  }

  // cache.path > cursor AND cache.body <> '', joined with the row map.
  predicate Eligible(t: Tables, cursor: Text, path: Text) {
    path in t.cache && path in t.rows && Below(cursor, path) && t.cache[path].body != []
  }

  // Nothing left to do for this path: its cache body is empty, too large to
  // compare, or differs from the searchable body.
  predicate Settled(t: Tables, path: Text)
    requires path in t.cache && path in t.rows
  {
    || t.cache[path].body == []
    || |t.cache[path].body| > MAX_BATCH_BODY_BYTES
    || (t.rows[path] in t.docs && t.docs[t.rows[path]].body != t.cache[path].body)
  }

  // The scan is past this path. The scan starts above the empty path.
  predicate Passed(t: Tables, path: Text) {
    path != [] && (t.meta.compacted || !Below(t.meta.cursor, path))
  }

  predicate ScannedSettled(t: Tables) {
    forall p :: p in t.cache && p in t.rows && Passed(t, p) ==> Settled(t, p)
  }

  predicate Ascending(c: seq<Text>) {
    forall i, j :: 0 <= i < j < |c| ==> Below(c[i], c[j])
  }

  // The first `limit` eligible paths in path order.
  ghost predicate IsSelection(t: Tables, cursor: Text, limit: nat, c: seq<Text>) {
    && |c| <= limit
    && Ascending(c)
    && (forall i :: 0 <= i < |c| ==> Eligible(t, cursor, c[i]))
    && forall p :: Eligible(t, cursor, p) ==>
         p in c || (0 < |c| == limit && Below(c[|c| - 1], p))
  }

  method SelectCandidates(t: Tables, cursor: Text, limit: nat) returns (c: seq<Text>)
    requires limit > 0
    ensures IsSelection(t, cursor, limit, c)
  {
    c := [];
    var left := set p | p in t.cache && Eligible(t, cursor, p);
    while |c| < limit && left != {}
      invariant |c| <= limit && Ascending(c)
      invariant forall p :: p in left ==> Eligible(t, cursor, p)
      invariant forall i :: 0 <= i < |c| ==> Eligible(t, cursor, c[i])
      invariant forall p :: Eligible(t, cursor, p) ==> p in c || p in left
      invariant forall i, p :: 0 <= i < |c| && p in left ==> Below(c[i], p)
      decreases |left|
    {
      var m := Least(left);
      c := c + [m];
      left := left - {m};
    }
  }

  // ----- one batch -----

  datatype Kind = Oversized | Duplicate | Mismatch

  function KindOf(t: Tables, path: Text): Kind
    requires path in t.cache && path in t.rows && t.rows[path] in t.docs
  {
    if |t.cache[path].body| > MAX_BATCH_BODY_BYTES then Oversized
    else if t.docs[t.rows[path]].body == t.cache[path].body then Duplicate
    else Mismatch
  }

  ghost predicate AllMapped(t: Tables, ps: seq<Text>) {
    forall p :: p in ps ==> p in t.cache && p in t.rows && t.rows[p] in t.docs
  }

  // What a batch reports for the rows it scanned.
  ghost function Tally(t: Tables, ps: seq<Text>): (b: Batch)
    requires AllMapped(t, ps)
    ensures b.scanned == |ps| == b.cleared + b.mismatches + b.oversized
  {
    if ps == [] then Batch(0, 0, 0, 0, 0, false)
    else
      var p := ps[|ps| - 1];
      var b := Tally(t, ps[..|ps| - 1]);
      match KindOf(t, p)
      case Oversized => b.(scanned := b.scanned + 1, oversized := b.oversized + 1)
      case Mismatch => b.(scanned := b.scanned + 1, mismatches := b.mismatches + 1)
      case Duplicate => b.(scanned := b.scanned + 1, cleared := b.cleared + 1,
                           clearedBytes := b.clearedBytes + |t.cache[p].body|)
  }

  // The tables after a batch scanned exactly these paths: each duplicate body
  // among them is emptied and nothing else differs.
  ghost function ClearDuplicates(t: Tables, ps: seq<Text>): Tables
    requires AllMapped(t, ps)
  {
    t.(cache := map p | p in t.cache ::
         if p in ps && KindOf(t, p).Duplicate? then t.cache[p].(body := []) else t.cache[p])
  }

  lemma ClearNothing(t: Tables)
    ensures ClearDuplicates(t, []) == t
  {
    assert ClearDuplicates(t, []).cache == t.cache;
  }

  // One more row scanned. Emptying a duplicate fires the update trigger, whose
  // condition is false while the mapping is sound.
  lemma ScanOne(t: Tables, ps: seq<Text>, p: Text)
    requires Sound(t) && t.meta.v3Trigger && AllMapped(t, ps + [p]) && p !in ps
    ensures AllMapped(t, ps)
    ensures ScanStep(t, ps, p)
  {
    assert forall q :: q in ps ==> q in ps + [p];
    assert (ps + [p])[..|ps|] == ps;
    var tx := ClearDuplicates(t, ps);
    var tx' := ClearDuplicates(t, ps + [p]);
    if KindOf(t, p).Duplicate? {
      assert UpdateCache(tx, p, tx.cache[p].(body := [])) == tx.(cache := tx.cache[p := tx.cache[p].(body := [])]);
      assert tx'.cache == tx.cache[p := tx.cache[p].(body := [])];
    } else {
      assert tx'.cache == tx.cache;
    }
  }

  // The scan after the first i candidates.
  ghost predicate ScanState(t: Tables, tx: Tables, b: Batch, c: seq<Text>, i: nat) {
    && i <= |c|
    && AllMapped(t, c[..i])
    && tx == ClearDuplicates(t, c[..i])
    && b == Tally(t, c[..i]).(complete := b.complete)
  }

  // The next candidate extends the scan by one row it has not touched yet.
  lemma NextCandidate(t: Tables, tx: Tables, b: Batch, c: seq<Text>, i: nat)
    requires Repairable(t) && i < |c| && Ascending(c) && ScanState(t, tx, b, c, i)
    requires forall j :: 0 <= j < |c| ==> c[j] in t.cache && c[j] in t.rows
    ensures c[i] in tx.cache && tx.cache[c[i]] == t.cache[c[i]]
    ensures c[i] in tx.rows && tx.rows[c[i]] in tx.docs
    ensures var size := |tx.cache[c[i]].body|;
            if size > MAX_BATCH_BODY_BYTES then
              ScanState(t, tx, b.(scanned := b.scanned + 1, oversized := b.oversized + 1), c, i + 1)
            else if tx.cache[c[i]].body != tx.docs[tx.rows[c[i]]].body then
              ScanState(t, tx, b.(scanned := b.scanned + 1, mismatches := b.mismatches + 1), c, i + 1)
            else
              ScanState(t, UpdateCache(tx, c[i], tx.cache[c[i]].(body := [])),
                        b.(scanned := b.scanned + 1, cleared := b.cleared + 1,
                           clearedBytes := b.clearedBytes + size), c, i + 1)
  {
    assert c[..i + 1] == c[..i] + [c[i]];
    if c[i] in c[..i] {
      var j :| 0 <= j < i && c[j] == c[i];
      BelowTrichotomy(c[j], c[i]);
    }
    ScanOne(t, c[..i], c[i]);
  }

  ghost predicate ScanStep(t: Tables, ps: seq<Text>, p: Text)
    requires AllMapped(t, ps) && AllMapped(t, ps + [p])
  {
    var tx := ClearDuplicates(t, ps);
    var b, b' := Tally(t, ps), Tally(t, ps + [p]);
    && tx.cache[p] == t.cache[p]
    && match KindOf(t, p)
       case Oversized =>
         ClearDuplicates(t, ps + [p]) == tx
         && b' == b.(scanned := b.scanned + 1, oversized := b.oversized + 1)
       case Mismatch =>
         ClearDuplicates(t, ps + [p]) == tx
         && b' == b.(scanned := b.scanned + 1, mismatches := b.mismatches + 1)
       case Duplicate =>
         ClearDuplicates(t, ps + [p]) == UpdateCache(tx, p, tx.cache[p].(body := []))
         && b' == b.(scanned := b.scanned + 1, cleared := b.cleared + 1,
                     clearedBytes := b.clearedBytes + |t.cache[p].body|)
  }

  // No query can tell a batch from no batch.
  lemma BatchIsInvisible(t: Tables, t': Tables, ps: seq<Text>)
    requires Repairable(t) && AllMapped(t, ps)
    requires t' == ClearDuplicates(t, ps).(meta := t'.meta) && t'.meta.v3Trigger
    ensures Repairable(t')
    ensures Linked(t) ==> Linked(t')
    ensures forall p, s :: CachedBody(t', p, s) == CachedBody(t, p, s)
    ensures Consistent(t) ==> Consistent(t') && Abstract(t') == Abstract(t)
  {
    assert forall r :: r in t.docs ==> Mapped(t', r) == Mapped(t, r);
    assert t'.cache.Keys == t.cache.Keys;
    if Consistent(t) {
      forall p | p in t.rows
        ensures EntryOf(t', p) == EntryOf(t, p)
      {
        assert p in t.cache;
      }
      assert View(t') == View(t);
    }
  }

  // Where the cursor stands after scanning n of the candidates.
  function CursorAfter(cursor: Text, c: seq<Text>, n: nat): Text
    requires n <= |c|
  {
    if n == 0 then cursor else c[n - 1]
  }

  // An eligible path that was not scanned lies after the new cursor, and the
  // batch did not reach the end.
  lemma LeftBehind(t: Tables, c: seq<Text>, limit: nat, n: nat, p: Text)
    requires IsSelection(t, t.meta.cursor, limit, c) && Eligible(t, t.meta.cursor, p)
    requires n <= |c| && (|c| > 0 ==> n > 0) && p !in c[..n]
    ensures Below(CursorAfter(t.meta.cursor, c, n), p)
    ensures !(n == |c| < limit)
  {
    if p in c {
      assert c == c[..n] + c[n..];
      var j :| 0 <= j < |c[n..]| && c[n..][j] == p;
      assert c[n + j] == p;
    } else if n < |c| {
      BelowTransitive(c[n - 1], c[|c| - 1], p);
    }
  }

  // The scanned paths are exactly the eligible ones up to the new cursor.
  lemma ScannedUpToCursor(t: Tables, c: seq<Text>, limit: nat, n: nat, p: Text)
    requires IsSelection(t, t.meta.cursor, limit, c) && n <= |c| && (|c| > 0 ==> n > 0)
    ensures p in c[..n] <==> Eligible(t, t.meta.cursor, p) && !Below(CursorAfter(t.meta.cursor, c, n), p)
  {
    if p in c[..n] {
      var i :| 0 <= i < n && c[i] == p;
      BelowTrichotomy(c[i], c[n - 1]);
    } else if Eligible(t, t.meta.cursor, p) {
      LeftBehind(t, c, limit, n, p);
    }
  }

  // ----- how far a batch goes -----

  // The bytes compared for these paths: the bodies of at most 8 MiB.
  ghost function ComparedBytes(t: Tables, ps: seq<Text>): nat {
    if ps == [] then 0 else ComparedBytes(t, ps[..|ps| - 1]) + ComparedSize(t, ps[|ps| - 1])
  }

  ghost function ComparedSize(t: Tables, p: Text): nat {
    if p in t.cache && |t.cache[p].body| <= 8 * 1024 * 1024 then |t.cache[p].body| else 0
  }

  // A comparison that would exceed 8 MiB, unless it is the first.
  predicate ExceedsBatch(t: Tables, p: Text, compared: nat) {
    && 0 < compared && p in t.cache
    && |t.cache[p].body| <= 8 * 1024 * 1024 && compared + |t.cache[p].body| > 8 * 1024 * 1024
  }

  // The first eligible path that was not read.
  ghost predicate FirstUnread(t: Tables, read: seq<Text>, q: Text) {
    && Eligible(t, t.meta.cursor, q) && q !in read
    && forall p :: Eligible(t, t.meta.cursor, p) && p !in read ==> p == q || Below(q, p)
  }

  // A batch reads 1 to 256 rows; fewer than asked for only when nothing is left or
  // the next comparison would be too much.
  ghost predicate Extent(t: Tables, batchRows: int, read: seq<Text>, compared: nat) {
    var limit := if batchRows < 1 then 1 else if batchRows > 256 then 256 else batchRows;
    if t.meta.compacted then read == [] && compared == 0
    else
      && |read| <= limit && compared == ComparedBytes(t, read) <= 8 * 1024 * 1024
      && (|read| < limit ==>
            || (forall p :: Eligible(t, t.meta.cursor, p) ==> p in read)
            || exists q :: FirstUnread(t, read, q) && ExceedsBatch(t, q, compared))
  }

  lemma ExtentOf(t: Tables, batchRows: int, c: seq<Text>, n: nat, compared: nat)
    requires !t.meta.compacted && IsSelection(t, t.meta.cursor, Clamp(batchRows, 1, 256), c)
    requires n <= |c| && compared == ComparedBytes(t, c[..n]) <= MAX_BATCH_BODY_BYTES
    requires n < |c| ==> ExceedsBatch(t, c[n], compared)
    ensures Extent(t, batchRows, c[..n], compared)
  {
    var read := c[..n];
    assert forall j :: 0 <= j < n ==> read[j] == c[j];
    if n < |c| {
      forall p | Eligible(t, t.meta.cursor, p) && p !in read
        ensures p == c[n] || Below(c[n], p)
      {
        if p in c {
          var j :| 0 <= j < |c| && c[j] == p;
        } else if n < |c| - 1 {
          BelowTransitive(c[n], c[|c| - 1], p);
        }
      }
      if c[n] in read {
        var j :| 0 <= j < n && read[j] == c[n];
        BelowTrichotomy(c[j], c[n]);
      }
      assert FirstUnread(t, read, c[n]);
    } else {
      assert read == c;
    }
  }

  // A cache body is too large to compare, equal to the searchable body, or not.
  predicate IsKind(t: Tables, p: Text, k: Kind) {
    && p in t.cache && p in t.rows && t.rows[p] in t.docs
    && match k
       case Oversized => |t.cache[p].body| > 8 * 1024 * 1024
       case Duplicate => |t.cache[p].body| <= 8 * 1024 * 1024 && t.docs[t.rows[p]].body == t.cache[p].body
       case Mismatch => |t.cache[p].body| <= 8 * 1024 * 1024 && t.docs[t.rows[p]].body != t.cache[p].body
  }

  ghost function Count(t: Tables, ps: seq<Text>, k: Kind): nat {
    |set p | p in ps && IsKind(t, p, k)|
  }

  lemma OneMore(t: Tables, init: seq<Text>, x: Text, k: Kind)
    requires x !in init
    ensures Count(t, init + [x], k) == Count(t, init, k) + (if IsKind(t, x, k) then 1 else 0)
  {
    var before := set p | p in init && IsKind(t, p, k);
    assert (set p | p in init + [x] && IsKind(t, p, k)) == before + (if IsKind(t, x, k) then {x} else {});
  }

  // What a batch reports: how many rows were too large, how many equal to the
  // searchable text and emptied, and how many different.
  lemma {:induction false} TallyIsExact(t: Tables, ps: seq<Text>)
    requires AllMapped(t, ps) && Distinct(ps)
    ensures var b := Tally(t, ps);
            && b.oversized == Count(t, ps, Oversized) && b.cleared == Count(t, ps, Duplicate)
            && b.mismatches == Count(t, ps, Mismatch)
  {
    if ps != [] {
      var init, x := ps[..|ps| - 1], ps[|ps| - 1];
      assert ps == init + [x];
      assert forall p :: p in init ==> p in ps;
      TallyIsExact(t, init);
      OneMore(t, init, x, Oversized);
      OneMore(t, init, x, Duplicate);
      OneMore(t, init, x, Mismatch);
    }
  }

  // What one batch achieves. `read` lists the paths it scanned.
  ghost predicate Compacted(t: Tables, t': Tables, b: Batch, read: seq<Text>) {
    && AllMapped(t, read) && Ascending(read)
    && (forall p :: p in read <==>
          && !t.meta.compacted && p in t.cache && p in t.rows && t.cache[p].body != []
          && Below(t.meta.cursor, p) && !Below(t'.meta.cursor, p))
    && t' == ClearDuplicates(t, read).(
               meta := t.meta.(cursor := t'.meta.cursor, compacted := t'.meta.compacted))
    && b == Tally(t, read).(complete := b.complete)
    // Progress: the cursor moves strictly with every batch that scans, and a
    // batch that scans nothing is the last one.
    && (read == [] ==> t'.meta.cursor == t.meta.cursor && t'.meta.compacted)
    && (read != [] ==> Below(t.meta.cursor, t'.meta.cursor))
    && b.complete == t'.meta.compacted && (t.meta.compacted ==> t'.meta.compacted)
    // Nothing observable changes, and what the scan has passed is settled.
    && Repairable(t')
    && (Linked(t) ==> Linked(t'))
    && (forall p, s :: CachedBody(t', p, s) == CachedBody(t, p, s))
    && (Consistent(t) ==> Consistent(t') && Abstract(t') == Abstract(t))
    && (ScannedSettled(t) ==> ScannedSettled(t'))
  }

  lemma ProveCompacted(t: Tables, t': Tables, c: seq<Text>, limit: nat, b: Batch)
    requires Repairable(t) && !t.meta.compacted && limit > 0
    requires IsSelection(t, t.meta.cursor, limit, c)
    requires b.scanned <= |c| && (|c| > 0 ==> b.scanned > 0)
    requires AllMapped(t, c[..b.scanned])
    requires b == Tally(t, c[..b.scanned]).(complete := b.complete)
    requires b.complete <==> b.scanned == |c| < limit
    requires t' == ClearDuplicates(t, c[..b.scanned]).(
               meta := t.meta.(cursor := CursorAfter(t.meta.cursor, c, b.scanned), compacted := b.complete))
    ensures Compacted(t, t', b, c[..b.scanned])
  {
    var read := c[..b.scanned];
    BatchIsInvisible(t, t', read);
    forall p
      ensures p in read <==> Eligible(t, t.meta.cursor, p) && !Below(t'.meta.cursor, p)
    {
      ScannedUpToCursor(t, c, limit, b.scanned, p);
    }
    if ScannedSettled(t) { BatchSettles(t, t', c, limit, b.scanned); }
  }

  lemma CompletedIsNoop(t: Tables)
    requires Repairable(t) && t.meta.compacted
    ensures Compacted(t, t, Batch(0, 0, 0, 0, 0, true), [])
  {
    ClearNothing(t);
    BatchIsInvisible(t, t, []);
  }

  // Every path the cursor has passed stays settled, and completion is claimed
  // only when nothing is left behind.
  lemma BatchSettles(t: Tables, t': Tables, c: seq<Text>, limit: nat, n: nat)
    requires Sound(t) && ScannedSettled(t) && !t.meta.compacted
    requires IsSelection(t, t.meta.cursor, limit, c)
    requires n <= |c| && (|c| > 0 ==> n > 0) && AllMapped(t, c[..n])
    requires t' == ClearDuplicates(t, c[..n]).(meta := t'.meta)
    requires t'.meta.cursor == CursorAfter(t.meta.cursor, c, n)
    requires t'.meta.compacted ==> n == |c| < limit
    ensures ScannedSettled(t')
  {
    forall p | p in t'.cache && p in t'.rows && Passed(t', p)
      ensures Settled(t', p)
    {
      BelowTrichotomy(CursorAfter(t.meta.cursor, c, n), p);
      if p in c[..n] {
        assert KindOf(t, p).Duplicate? || Settled(t, p);
      } else if Below(t.meta.cursor, p) {
        if t.cache[p].body != [] { LeftBehind(t, c, limit, n, p); }
      } else {
        assert Passed(t, p);
      }
    }
  }

  // ----- what the other operations do to the settled part -----

  // Replacing a document keeps it: the cache body it leaves behind is empty, or
  // the tables did not change.
  lemma CommittedKeepsSettled(t: Tables, t': Tables, doc: Document)
    requires Sound(t) && ScannedSettled(t) && Committed(t, t', doc) && t'.meta == t.meta
    ensures ScannedSettled(t')
  {
    forall p | p in t'.cache && p in t'.rows && Passed(t', p)
      ensures Settled(t', p)
    {
      if p != doc.path {
        ElsewhereIsPointwise(t, t', {doc.path}, p);
        assert Passed(t, p) && t.docs[t.rows[p]].path == p;
      } else if t'.cache[p].body != [] {
        assert Passed(t, p);
      }
    }
  }

  lemma ErasedKeepsSettled(t: Tables, t': Tables, ps: set<Text>)
    requires Sound(t) && ScannedSettled(t)
    requires t'.rows == t.rows - ps && t'.cache == t.cache - ps
    requires t'.docs == DocsOutside(t, ps) && t'.meta == t.meta
    ensures ScannedSettled(t')
  {
    forall p | p in t'.cache && p in t'.rows && Passed(t', p)
      ensures Settled(t', p)
    {
      assert p !in ps && Passed(t, p);
    }
  }

  lemma RefreshKeepsSettled(t: Tables, t': Tables, path: Text, stamp: Stamp)
    requires ScannedSettled(t) && t' == UpsertCache(t, path, CacheRow(stamp, []))
    ensures ScannedSettled(t')
  {
    forall p | p in t'.cache && p in t'.rows && Passed(t', p)
      ensures Settled(t', p)
    {
      if p != path { assert Passed(t, p) && p in t.cache && p in t.rows; }
    }
  }

  // The OCR state and the rebuild time play no part in the map of documents.
  lemma QueueStepKeeps(t: Tables, t': Tables)
    requires t' == t.(ocr := t'.ocr, meta := t.meta.(lastRebuild := t'.meta.lastRebuild))
    ensures Consistent(t) ==> Consistent(t') && View(t') == View(t)
    ensures ScannedSettled(t) ==> ScannedSettled(t')
  {
    assert forall r :: r in t.docs ==> Mapped(t', r) == Mapped(t, r);
    if ScannedSettled(t) {
      forall p | p in t'.cache && p in t'.rows && Passed(t', p)
        ensures Settled(t', p)
      {
        assert Passed(t, p);
      }
    }
  }
}
