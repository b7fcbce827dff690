// The process-local cache of finished native results, and the single permit under
// which a native job runs.
module ResultCache {
  import opened Bytes
  import opened Results

  const RETAINED_COUNT: nat := 64
  const RETAINED_BYTES: nat := 64 * 1024 * 1024
  const RETAINED_TTL_MS: nat := 7_200_000

  type ContentKey = Text

  // A result with the class it was computed for and its encoded size.
  datatype Value = Value(taskClass: Option<Text>, text: Text, size: nat)

  datatype Row = Row(key: ContentKey, at: nat, value: Value)

  function Sum(rows: seq<Row>): nat {
    if rows == [] then 0 else rows[0].value.size + Sum(rows[1..])
  }

  predicate DistinctKeys(rows: seq<Row>) {
    forall i, j :: 0 <= i < j < |rows| ==> rows[i].key != rows[j].key
  }

  // Rows are in the order of their insertion times, none later than `now`.
  predicate Ordered(rows: seq<Row>, now: nat) {
    && (forall i, j :: 0 <= i < j < |rows| ==> rows[i].at <= rows[j].at)
    && (forall i :: 0 <= i < |rows| ==> rows[i].at <= now)
  }

  predicate Bounded(rows: seq<Row>) {
    |rows| <= RETAINED_COUNT && Sum(rows) <= RETAINED_BYTES
  }

  predicate Expired(row: Row, now: nat) {
    now - row.at >= RETAINED_TTL_MS
  }

  // ----- what the cache is -----

  function Fresh(rows: seq<Row>, now: nat): seq<Row> {
    if rows == [] then []
    else if Expired(rows[0], now) then Fresh(rows[1..], now)
    else [rows[0]] + Fresh(rows[1..], now)
  }

  function Without(rows: seq<Row>, key: ContentKey): seq<Row> {
    if rows == [] then []
    else if rows[0].key == key then Without(rows[1..], key)
    else [rows[0]] + Without(rows[1..], key)
  }

  // The longest run of newest rows that leaves room for one more of this size.
  function Evicted(rows: seq<Row>, size: nat): (r: seq<Row>)
    decreases |rows|
  {
    if rows != [] && (|rows| >= RETAINED_COUNT || Sum(rows) + size > RETAINED_BYTES)
    then Evicted(rows[1..], size) else rows
  }

  function Lookup(rows: seq<Row>, key: ContentKey): Option<Value> {
    if rows == [] then None
    else if rows[0].key == key then Some(rows[0].value)
    else Lookup(rows[1..], key)
  }

  function Inserted(rows: seq<Row>, key: ContentKey, value: Value, now: nat): seq<Row> {
    if value.size > RETAINED_BYTES then Fresh(rows, now)
    else Evicted(Without(Fresh(rows, now), key), value.size) + [Row(key, now, value)]
  }

  // ----- lemmas on rows -----

  lemma {:induction false} SumAppend(a: seq<Row>, b: seq<Row>)
    ensures Sum(a + b) == Sum(a) + Sum(b)
  {
    if a == [] {
      assert a + b == b;
    } else {
      assert (a + b)[1..] == a[1..] + b;
      SumAppend(a[1..], b);
    }
  }

  // With ordered times the expired rows are exactly a prefix.
  lemma {:induction false} FreshOfOrdered(rows: seq<Row>, now: nat)
    requires Ordered(rows, now)
    ensures rows != [] && !Expired(rows[0], now) ==> Fresh(rows, now) == rows
    ensures exists n :: 0 <= n <= |rows| && Fresh(rows, now) == rows[n..]
  {
    if rows == [] || !Expired(rows[0], now) {
      NoneExpired(rows, now);
      assert Fresh(rows, now) == rows[0..];
    } else {
      FreshOfOrdered(rows[1..], now);
      var n :| 0 <= n <= |rows[1..]| && Fresh(rows[1..], now) == rows[1..][n..];
      assert rows[1..][n..] == rows[n + 1..];
    }
  }

  lemma {:induction false} NoneExpired(rows: seq<Row>, now: nat)
    requires forall i :: 0 <= i < |rows| ==> !Expired(rows[i], now)
    ensures Fresh(rows, now) == rows
  {
    if rows != [] { NoneExpired(rows[1..], now); }
  }

  lemma {:induction false} FreshIsExact(rows: seq<Row>, now: nat, row: Row)
    ensures row in Fresh(rows, now) <==> row in rows && !Expired(row, now)
  {
    if rows != [] {
      FreshIsExact(rows[1..], now, row);
    }
  }

  lemma {:induction false} WithoutIsExact(rows: seq<Row>, key: ContentKey, row: Row)
    ensures row in Without(rows, key) <==> row in rows && row.key != key
  {
    if rows != [] {
      WithoutIsExact(rows[1..], key, row);
    }
  }

  // Removing the row of a key that occurs at one index.
  lemma {:induction false} WithoutIndex(rows: seq<Row>, key: ContentKey, i: nat)
    requires DistinctKeys(rows) && i < |rows| && rows[i].key == key
    ensures Without(rows, key) == rows[..i] + rows[i + 1..]
  {
    if i == 0 {
      WithoutAbsent(rows[1..], key);
      assert rows[..0] + rows[1..] == rows[1..];
    } else {
      WithoutIndex(rows[1..], key, i - 1);
      assert rows[..i] == [rows[0]] + rows[1..][..i - 1];
      assert rows[1..][i..] == rows[i + 1..];
    }
  }

  lemma {:induction false} WithoutAbsent(rows: seq<Row>, key: ContentKey)
    requires forall i :: 0 <= i < |rows| ==> rows[i].key != key
    ensures Without(rows, key) == rows
  {
    if rows != [] { WithoutAbsent(rows[1..], key); }
  }

  // There is room beside these rows for one more of this size.
  predicate Fits(rows: seq<Row>, size: nat) {
    |rows| < 64 && Sum(rows) + size <= 64 * 1024 * 1024
  }

  // Eviction drops the fewest oldest rows that make room.
  lemma {:induction false} EvictedFits(rows: seq<Row>, size: nat) returns (n: nat)
    requires size <= RETAINED_BYTES
    ensures n <= |rows| && Evicted(rows, size) == rows[n..] && Fits(rows[n..], size)
    ensures forall m :: 0 <= m < n ==> !Fits(rows[m..], size)
    decreases |rows|
  {
    if rows != [] && !Fits(rows, size) {
      n := EvictedFits(rows[1..], size);
      assert rows[1..][n..] == rows[n + 1..];
      forall m | 0 <= m < n + 1
        ensures !Fits(rows[m..], size)
      {
        if m == 0 {
          assert rows[0..] == rows;
        } else {
          assert rows[1..][m - 1..] == rows[m..];
        }
      }
      n := n + 1;
    } else {
      n := 0;
      assert rows == rows[0..];
    }
  }

  // A row is lost exactly when it and all newer rows leave no room.
  lemma EvictedExactly(rows: seq<Row>, size: nat, i: nat)
    requires size <= RETAINED_BYTES && DistinctKeys(rows) && i < |rows|
    ensures rows[i] in Evicted(rows, size) <==> Fits(rows[i..], size)
  {
    var n := EvictedFits(rows, size);
    if i >= n {
      assert rows[n..][i - n] == rows[i];
      FewerFit(rows, n, i, size);
    } else {
      forall j | n <= j < |rows|
        ensures rows[j] != rows[i]
      {
        assert rows[i].key != rows[j].key;
      }
      assert rows[i] !in rows[n..];
    }
  }

  lemma {:induction false} FewerFit(rows: seq<Row>, n: nat, i: nat, size: nat)
    requires n <= i <= |rows| && Fits(rows[n..], size)
    ensures Fits(rows[i..], size)
  {
    assert rows[n..] == rows[n..i] + rows[i..];
    SumAppend(rows[n..i], rows[i..]);
  }

  lemma {:induction false} WithoutKeeps(rows: seq<Row>, key: ContentKey, now: nat)
    requires DistinctKeys(rows) && Ordered(rows, now)
    ensures DistinctKeys(Without(rows, key)) && Ordered(Without(rows, key), now)
    ensures |Without(rows, key)| <= |rows| && Sum(Without(rows, key)) <= Sum(rows)
  {
    if rows != [] {
      var rest := Without(rows[1..], key);
      WithoutKeeps(rows[1..], key, now);
      forall row | row in rest
        ensures row.key != rows[0].key && rows[0].at <= row.at
      {
        WithoutIsExact(rows[1..], key, row);
        var i :| 0 <= i < |rows[1..]| && rows[1..][i] == row;
        assert rows[i + 1] == row;
      }
      PutInFront(rows[0], rest, now);
    }
  }

  lemma PutInFront(row: Row, rest: seq<Row>, now: nat)
    requires DistinctKeys(rest) && Ordered(rest, now) && row.at <= now
    requires forall r :: r in rest ==> r.key != row.key && row.at <= r.at
    ensures DistinctKeys([row] + rest) && Ordered([row] + rest, now)
    ensures Sum([row] + rest) == row.value.size + Sum(rest)
  {
    var all := [row] + rest;
    assert all[1..] == rest;
    forall i, j | 0 <= i < j < |all|
      ensures all[i].key != all[j].key && all[i].at <= all[j].at
    {
      assert all[j] == rest[j - 1] && rest[j - 1] in rest;
    }
  }

  lemma {:induction false} FreshKeeps(rows: seq<Row>, now: nat)
    requires DistinctKeys(rows) && Ordered(rows, now)
    ensures DistinctKeys(Fresh(rows, now)) && Ordered(Fresh(rows, now), now)
    ensures |Fresh(rows, now)| <= |rows| && Sum(Fresh(rows, now)) <= Sum(rows)
  {
    if rows != [] {
      if Expired(rows[0], now) {
        FreshKeeps(rows[1..], now);
      } else {
        FreshOfOrdered(rows, now);
      }
    }
  }

  lemma {:induction false} EvictedKeeps(rows: seq<Row>, size: nat, now: nat)
    requires DistinctKeys(rows) && Ordered(rows, now)
    ensures DistinctKeys(Evicted(rows, size)) && Ordered(Evicted(rows, size), now)
    ensures forall r :: r in Evicted(rows, size) ==> r in rows
    decreases |rows|
  {
    if rows != [] && (|rows| >= RETAINED_COUNT || Sum(rows) + size > RETAINED_BYTES) {
      EvictedKeeps(rows[1..], size, now);
    }
  }

  lemma AppendKeeps(rows: seq<Row>, row: Row)
    requires DistinctKeys(rows) && Ordered(rows, row.at)
    requires forall r :: r in rows ==> r.key != row.key
    requires |rows| < RETAINED_COUNT && Sum(rows) + row.value.size <= RETAINED_BYTES
    ensures Bounded(rows + [row]) && DistinctKeys(rows + [row]) && Ordered(rows + [row], row.at)
  {
    SumAppend(rows, [row]);
    assert Sum([row]) == row.value.size;
    assert forall i :: 0 <= i < |rows| ==> rows[i] in rows;
  }

  // An insertion keeps the keys distinct, the times ordered and both bounds.
  lemma InsertedKeeps(rows: seq<Row>, key: ContentKey, value: Value, now: nat)
    requires Bounded(rows) && DistinctKeys(rows) && Ordered(rows, now) && value.size <= RETAINED_BYTES
    ensures Bounded(Inserted(rows, key, value, now))
    ensures DistinctKeys(Inserted(rows, key, value, now)) && Ordered(Inserted(rows, key, value, now), now)
  {
    var live := Fresh(rows, now);
    FreshKeeps(rows, now);
    var others := Without(live, key);
    WithoutKeeps(live, key, now);
    var kept := Evicted(others, value.size);
    var n := EvictedFits(others, value.size);
    EvictedKeeps(others, value.size, now);
    forall r | r in kept
      ensures r.key != key
    {
      WithoutIsExact(live, key, r);
    }
    AppendKeeps(kept, Row(key, now, value));
  }

  // ----- what a reader sees -----

  lemma {:induction false} LookupOfRow(rows: seq<Row>, row: Row)
    requires DistinctKeys(rows) && row in rows
    ensures Lookup(rows, row.key) == Some(row.value)
  {
    if rows[0] != row {
      assert row in rows[1..];
      var i :| 0 <= i < |rows| && rows[i] == row;
      assert rows[0].key != rows[i].key;
      LookupOfRow(rows[1..], row);
    }
  }

  lemma {:induction false} LookupFindsRow(rows: seq<Row>, key: ContentKey)
    ensures Lookup(rows, key).Some? ==>
              exists row :: row in rows && row.key == key && row.value == Lookup(rows, key).value
  {
    if rows != [] {
      if rows[0].key == key {
        assert rows[0] in rows;
      } else {
        LookupFindsRow(rows[1..], key);
      }
    }
  }

  predicate Answers(row: Row, key: ContentKey, v: Value, now: nat) {
    row.key == key && row.value == v && now - row.at < 7_200_000
  }

  // A lookup among the unexpired rows finds the one row of the key, if there is one.
  lemma LookupIsExact(rows: seq<Row>, key: ContentKey, now: nat)
    requires DistinctKeys(rows) && Ordered(rows, now)
    ensures var v := Lookup(Fresh(rows, now), key);
            && (forall row :: row in rows && row.key == key && now - row.at < 7_200_000 ==> v == Some(row.value))
            && (v.Some? ==> exists row :: row in rows && Answers(row, key, v.value, now))
  {
    FreshKeeps(rows, now);
    LookupFindsRow(Fresh(rows, now), key);
    forall row
      ensures row in Fresh(rows, now) <==> row in rows && !Expired(row, now)
    {
      FreshIsExact(rows, now, row);
    }
    forall row | row in rows && row.key == key && now - row.at < 7_200_000
      ensures Lookup(Fresh(rows, now), key) == Some(row.value)
    {
      LookupOfRow(Fresh(rows, now), row);
    }
    if Lookup(Fresh(rows, now), key).Some? {
      var row :| row in Fresh(rows, now) && row.key == key && row.value == Lookup(Fresh(rows, now), key).value;
      assert Answers(row, key, row.value, now);
    }
  }

  // An inserted result is what its key finds, until it expires or is evicted:
  // inserting other keys can only make it disappear, never change it.
  lemma InsertThenLookup(rows: seq<Row>, key: ContentKey, value: Value, now: nat, other: ContentKey)
    requires Bounded(rows) && DistinctKeys(rows) && Ordered(rows, now) && value.size <= RETAINED_BYTES
    ensures Lookup(Inserted(rows, key, value, now), key) == Some(value)
    ensures other != key ==>
              || Lookup(Inserted(rows, key, value, now), other) == None
              || Lookup(Inserted(rows, key, value, now), other) == Lookup(rows, other)
  {
    var rows' := Inserted(rows, key, value, now);
    InsertedKeeps(rows, key, value, now);
    LookupOfRow(rows', Row(key, now, value));
    LookupFindsRow(rows', other);
    if other != key && Lookup(rows', other).Some? {
      var row :| row in rows' && row.key == other && row.value == Lookup(rows', other).value;
      InsertedComesFrom(rows, key, value, now, row);
      LookupOfRow(rows, row);
    }
  }

  lemma InsertedComesFrom(rows: seq<Row>, key: ContentKey, value: Value, now: nat, row: Row)
    requires DistinctKeys(rows) && Ordered(rows, now)
    requires row in Inserted(rows, key, value, now) && row != Row(key, now, value)
    ensures row in rows && !Expired(row, now)
  {
    FreshIsExact(rows, now, row);
    if value.size <= RETAINED_BYTES {
      var live := Fresh(rows, now);
      FreshKeeps(rows, now);
      WithoutKeeps(live, key, now);
      EvictedKeeps(Without(live, key), value.size, now);
      WithoutIsExact(live, key, row);
    }
  }

  // The rows that are neither expired nor of this key, oldest first.
  ghost predicate Rivals(rows: seq<Row>, key: ContentKey, now: nat, others: seq<Row>) {
    && DistinctKeys(others) && Ordered(others, now)
    && forall row :: row in others <==> row in rows && row.key != key && now - row.at < 7_200_000
  }

  // After an insertion the cache holds the new row behind the rivals from some
  // point on: a rival is lost exactly when it and all newer ones do not fit beside
  // the new row.
  lemma InsertedExactly(rows: seq<Row>, key: ContentKey, value: Value, now: nat) returns (others: seq<Row>, n: nat)
    requires DistinctKeys(rows) && Ordered(rows, now) && value.size <= RETAINED_BYTES
    ensures Rivals(rows, key, now, others) && n <= |others|
    ensures Inserted(rows, key, value, now) == others[n..] + [Row(key, now, value)]
    ensures forall i :: 0 <= i < |others| ==> (i >= n <==> Fits(others[i..], value.size))
  {
    var live := Fresh(rows, now);
    others := Without(live, key);
    FreshKeeps(rows, now);
    WithoutKeeps(live, key, now);
    forall row
      ensures row in others <==> row in rows && row.key != key && !Expired(row, now)
    {
      FreshIsExact(rows, now, row);
      WithoutIsExact(live, key, row);
    }
    n := EvictedFits(others, value.size);
    forall i | n <= i < |others|
      ensures Fits(others[i..], value.size)
    {
      FewerFit(others, n, i, value.size);
    }
  }

  // ----- the cache -----

  class RetainedResults {
    var rows: seq<Row>
    var bytes: nat

    ghost predicate Valid(now: nat)
      reads this
    {
      bytes == Sum(rows) && Bounded(rows) && DistinctKeys(rows) && Ordered(rows, now)
    }

    constructor ()
      ensures rows == [] && Valid(0)
    {
      rows, bytes := [], 0;
    }

    // Pops from the front while the front row is expired.
    method Prune(now: nat)
      requires Valid(now)
      modifies this
      ensures Valid(now) && rows == Fresh(old(rows), now)
      ensures forall row :: row in rows <==> row in old(rows) && now - row.at < 7_200_000
    {
      forall row
        ensures row in Fresh(rows, now) <==> row in rows && !Expired(row, now)
      {
        FreshIsExact(rows, now, row);
      }
      while rows != [] && Expired(rows[0], now)
        invariant Valid(now) && Fresh(rows, now) == Fresh(old(rows), now)
        decreases |rows|
      {
        bytes := bytes - rows[0].value.size;
        rows := rows[1..];
      }
      FreshOfOrdered(rows, now);
    }

    // A read prunes and never moves or renews a row.
    method Get(key: ContentKey, now: nat) returns (v: Option<Value>)
      requires Valid(now)
      modifies this
      ensures Valid(now) && rows == Fresh(old(rows), now)
      ensures v == Lookup(Fresh(old(rows), now), key)
      ensures forall row :: row in old(rows) && row.key == key && now - row.at < 7_200_000 ==> v == Some(row.value)
      ensures v.Some? ==> exists row :: row in old(rows) && Answers(row, key, v.value, now)
    {
      LookupIsExact(rows, key, now);
      Prune(now);
      var i := 0;
      while i < |rows|
        invariant i <= |rows| && Lookup(rows[i..], key) == Lookup(rows, key)
      {
        assert rows[i..][1..] == rows[i + 1..];
        if rows[i].key == key { return Some(rows[i].value); }
        i := i + 1;
      }
      v := None;
    }

    // A result larger than the whole budget is not kept. The eviction loop never
    // pops an empty queue.
    method Insert(key: ContentKey, value: Value, now: nat)
      requires Valid(now)
      modifies this
      ensures Valid(now) && rows == Inserted(old(rows), key, value, now)
      // A result that fits stands last, behind the newest rivals that fit beside it;
      // a larger one leaves the unexpired rows alone.
      ensures value.size <= 64 * 1024 * 1024 ==>
                exists others, n ::
                  && Rivals(old(rows), key, now, others) && 0 <= n <= |others|
                  && rows == others[n..] + [Row(key, now, value)]
                  && forall i :: 0 <= i < |others| ==> (i >= n <==> Fits(others[i..], value.size))
      ensures value.size > 64 * 1024 * 1024 ==>
                forall row :: row in rows <==> row in old(rows) && now - row.at < 7_200_000
    {
      forall row
        ensures row in Fresh(rows, now) <==> row in rows && !Expired(row, now)
      {
        FreshIsExact(rows, now, row);
      }
      if value.size <= RETAINED_BYTES {
        InsertedKeeps(rows, key, value, now);
        ghost var others, n := InsertedExactly(rows, key, value, now);
      }
      Prune(now);
      if value.size > RETAINED_BYTES { return; }
      RemoveKey(key);
      Evict(value.size);
      SumAppend(rows, [Row(key, now, value)]);
      rows := rows + [Row(key, now, value)];
      bytes := bytes + value.size;
    }

    method RemoveKey(key: ContentKey)
      requires bytes == Sum(rows) && DistinctKeys(rows)
      modifies this
      ensures bytes == Sum(rows) && rows == Without(old(rows), key)
    {
      var i := 0;
      while i < |rows| && rows[i].key != key
        invariant i <= |rows| && forall j :: 0 <= j < i ==> rows[j].key != key
      {
        i := i + 1;
      }
      if i < |rows| {
        WithoutIndex(rows, key, i);
        SumAppend(rows[..i], rows[i..]);
        SumAppend(rows[..i], rows[i + 1..]);
        assert rows == rows[..i] + rows[i..] && rows[i..][1..] == rows[i + 1..];
        bytes := bytes - rows[i].value.size;
        rows := rows[..i] + rows[i + 1..];
      } else {
        WithoutAbsent(rows, key);
      }
    }

    method Evict(size: nat)
      requires bytes == Sum(rows) && size <= RETAINED_BYTES
      modifies this
      ensures bytes == Sum(rows) && rows == Evicted(old(rows), size)
    {
      while |rows| >= RETAINED_COUNT || bytes + size > RETAINED_BYTES
        invariant bytes == Sum(rows) && Evicted(rows, size) == Evicted(old(rows), size)
        decreases |rows|
      {
        bytes := bytes - rows[0].value.size;
        rows := rows[1..];
      }
    }
  }
}
