// Bounds of the job table and of the directory of job artifacts.
module JobStore {
  import opened Bytes
  import opened Sets
  import opened Sorting

  const MAX_JOBS: nat := 256

  datatype Artifact = Artifact(created: nat, path: Text, bytes: nat)

  function Total(s: seq<Artifact>): nat {
    if s == [] then 0 else s[0].bytes + Total(s[1..])
  }

  predicate WithinBudget(s: seq<Artifact>, maxBytes: nat) {
    |s| <= 256 && Total(s) <= maxBytes
  }

  // enforce_store_budget after the artifacts are sorted oldest first: the kept
  // ones are the longest run of newest artifacts that fits both limits, and the
  // loop never removes from an empty list.
  method EnforceStoreBudget(artifacts: seq<Artifact>, maxBytes: nat) returns (removed: nat)
    ensures removed <= |artifacts|
    ensures WithinBudget(artifacts[removed..], maxBytes)
    ensures forall n :: 0 <= n < removed ==> !WithinBudget(artifacts[n..], maxBytes)
  {
    removed := 0;
    var kept := artifacts;
    var total := Total(artifacts);
    while |kept| > MAX_JOBS || total > maxBytes
      invariant removed <= |artifacts| && kept == artifacts[removed..] && total == Total(kept)
      invariant forall n :: 0 <= n < removed ==> !WithinBudget(artifacts[n..], maxBytes)
      decreases |kept|
    {
      total := total - kept[0].bytes;
      kept := kept[1..];
      removed := removed + 1;
    }
  }

  // ----- what one successful write leaves -----

  // The order of removal: by creation time, then by path.
  predicate Before(a: Artifact, b: Artifact) {
    a.created < b.created || (a.created == b.created && Below(a.path, b.path))
  }

  function ByAge(): (Artifact, Artifact) -> bool {
    (a: Artifact, b: Artifact) => !Before(b, a)
  }

  lemma ByAgeIsTotal()
    ensures TotalPreorder(ByAge())
  {
    forall a, b
      ensures ByAge()(a, b) || ByAge()(b, a)
    {
      BelowTrichotomy(a.path, b.path);
    }
    forall a, b, c | ByAge()(a, b) && ByAge()(b, c)
      ensures ByAge()(a, c)
    {
      AgesChain(a, b, c);
    }
  }

  lemma AgesChain(a: Artifact, b: Artifact, c: Artifact)
    requires !Before(b, a) && !Before(c, b)
    ensures !Before(c, a)
  {
    BelowTrichotomy(a.path, b.path);
    BelowTrichotomy(b.path, c.path);
    BelowTrichotomy(a.path, c.path);
    if Below(a.path, b.path) && Below(b.path, c.path) { BelowTransitive(a.path, b.path, c.path); }
  }

  // The artifacts that are not removed before `own`.
  function Onward(s: seq<Artifact>, own: Artifact): seq<Artifact> {
    if s == [] then [] else (if Before(s[0], own) then [] else [s[0]]) + Onward(s[1..], own)
  }

  function Others(directory: seq<Artifact>, path: Text): seq<Artifact> {
    if directory == [] then []
    else (if directory[0].path == path then [] else [directory[0]]) + Others(directory[1..], path)
  }

  // After the rename the directory holds this artifact in place of its older version.
  function Written(directory: seq<Artifact>, own: Artifact): seq<Artifact> {
    Others(directory, own.path) + [own]
  }

  // The artifact survives its own write: it and everything that would be removed
  // after it fit both limits.
  predicate Survives(directory: seq<Artifact>, own: Artifact, maxBytes: nat) {
    WithinBudget(Onward(Written(directory, own), own), maxBytes)
  }

  lemma OnwardOfFirst(x: Artifact, s: seq<Artifact>, own: Artifact)
    ensures |Onward([x] + s, own)| == (if Before(x, own) then 0 else 1) + |Onward(s, own)|
    ensures Total(Onward([x] + s, own)) == (if Before(x, own) then 0 else x.bytes) + Total(Onward(s, own))
  {
    assert ([x] + s)[1..] == s;
    if Before(x, own) {
      assert Onward([x] + s, own) == Onward(s, own);
    } else {
      assert Onward([x] + s, own) == [x] + Onward(s, own);
      assert ([x] + Onward(s, own))[1..] == Onward(s, own);
    }
  }

  lemma {:induction false} InsertKeepsOnward(x: Artifact, s: seq<Artifact>, own: Artifact)
    ensures |Onward(Insert(ByAge(), x, s), own)| == |Onward([x] + s, own)|
    ensures Total(Onward(Insert(ByAge(), x, s), own)) == Total(Onward([x] + s, own))
  {
    if s != [] && !ByAge()(x, s[0]) {
      var rest := Insert(ByAge(), x, s[1..]);
      InsertKeepsOnward(x, s[1..], own);
      assert s == [s[0]] + s[1..];
      OnwardOfFirst(s[0], rest, own);
      OnwardOfFirst(x, s[1..], own);
      OnwardOfFirst(s[0], s[1..], own);
      OnwardOfFirst(x, s, own);
    }
  }

  lemma {:induction false} SortKeepsOnward(s: seq<Artifact>, own: Artifact)
    ensures |Onward(StableSort(ByAge(), s), own)| == |Onward(s, own)|
    ensures Total(Onward(StableSort(ByAge(), s), own)) == Total(Onward(s, own))
  {
    if s != [] {
      var rest := StableSort(ByAge(), s[1..]);
      SortKeepsOnward(s[1..], own);
      InsertKeepsOnward(s[0], rest, own);
      assert s == [s[0]] + s[1..];
      OnwardOfFirst(s[0], rest, own);
      OnwardOfFirst(s[0], s[1..], own);
    }
  }

  // In a sorted listing they are a suffix.
  lemma {:induction false} OnwardIsASuffix(s: seq<Artifact>, own: Artifact) returns (n: nat)
    requires SortedBy(ByAge(), s)
    ensures n <= |s| && Onward(s, own) == s[n..]
    ensures forall i :: 0 <= i < |s| ==> (Before(s[i], own) <==> i < n)
  {
    if s == [] {
      n := 0;
    } else if Before(s[0], own) {
      n := OnwardIsASuffix(s[1..], own);
      assert s[1..][n..] == s[n + 1..];
      assert forall i :: 0 < i < |s| ==> s[i] == s[1..][i - 1];
      n := n + 1;
    } else {
      n := 0;
      forall i | 0 <= i < |s|
        ensures !Before(s[i], own)
      {
        if i > 0 {
          assert ByAge()(s[0], s[i]);
          AgesChain(own, s[0], s[i]);
        }
      }
      NoneIsBefore(s, own);
    }
  }

  lemma {:induction false} NoneIsBefore(s: seq<Artifact>, own: Artifact)
    requires forall i :: 0 <= i < |s| ==> !Before(s[i], own)
    ensures Onward(s, own) == s
  {
    if s != [] { NoneIsBefore(s[1..], own); }
  }

  lemma {:induction false} OthersDiffer(directory: seq<Artifact>, path: Text)
    ensures forall a :: a in Others(directory, path) ==> a.path != path
  {
    if directory != [] { OthersDiffer(directory[1..], path); }
  }

  lemma {:induction false} SuffixTotals(s: seq<Artifact>, n: nat)
    requires n <= |s|
    ensures Total(s[n..]) <= Total(s)
  {
    if n > 0 {
      SuffixTotals(s[1..], n - 1);
      assert s[1..][n - 1..] == s[n..];
    }
  }

  lemma LaterSuffixFits(s: seq<Artifact>, m: nat, n: nat, maxBytes: nat)
    requires m <= n <= |s| && WithinBudget(s[m..], maxBytes)
    ensures WithinBudget(s[n..], maxBytes)
  {
    assert s[m..][n - m..] == s[n..];
    SuffixTotals(s[m..], n - m);
  }

  // persist from the rename on: the listing is sorted and trimmed, and nothing
  // reports whether the new artifact is still there.
  method Commit(directory: seq<Artifact>, own: Artifact, maxBytes: nat) returns (kept: seq<Artifact>)
    ensures own in kept <==> Survives(directory, own, maxBytes)
    ensures WithinBudget(kept, maxBytes)
    ensures forall a :: a in kept ==> a in Written(directory, own)
    ensures OldestGo(Written(directory, own), kept)
  {
    var listing := StableSort(ByAge(), Written(directory, own));
    var removed := EnforceStoreBudget(listing, maxBytes);
    kept := listing[removed..];
    ByAgeIsTotal();
    StableSortSorts(ByAge(), Written(directory, own));
    SortKeepsOnward(Written(directory, own), own);
    SurvivesExactly(directory, own, listing, removed, maxBytes);
    KeptWereWritten(directory, own, listing, removed);
    SuffixIsYoungest(directory, own, listing, removed);
  }

  // Of what was written the oldest go, and of one age those with the smaller path.
  ghost predicate OldestGo(written: seq<Artifact>, kept: seq<Artifact>) {
    forall gone, a :: gone in written && gone !in kept && a in kept ==>
      gone.created < a.created || (gone.created == a.created && (gone.path == a.path || Below(gone.path, a.path)))
  }

  lemma SuffixIsYoungest(directory: seq<Artifact>, own: Artifact, listing: seq<Artifact>, removed: nat)
    requires SortedBy(ByAge(), listing) && multiset(listing) == multiset(Written(directory, own))
    requires removed <= |listing|
    ensures OldestGo(Written(directory, own), listing[removed..])
  {
    var kept := listing[removed..];
    assert forall i :: removed <= i < |listing| ==> kept[i - removed] == listing[i];
    forall gone, a | gone in Written(directory, own) && gone !in kept && a in kept
      ensures gone.created < a.created ||
              (gone.created == a.created && (gone.path == a.path || Below(gone.path, a.path)))
    {
      SameElements(listing, Written(directory, own), gone);
      var i :| 0 <= i < |listing| && listing[i] == gone;
      var j :| 0 <= j < |kept| && kept[j] == a;
      assert ByAge()(listing[i], listing[removed + j]);
      BelowTrichotomy(gone.path, a.path);
    }
  }

  lemma SurvivesExactly(directory: seq<Artifact>, own: Artifact, listing: seq<Artifact>, removed: nat, maxBytes: nat)
    requires SortedBy(ByAge(), listing) && multiset(listing) == multiset(Written(directory, own))
    requires |Onward(listing, own)| == |Onward(Written(directory, own), own)|
    requires Total(Onward(listing, own)) == Total(Onward(Written(directory, own), own))
    requires removed <= |listing| && WithinBudget(listing[removed..], maxBytes)
    requires forall n :: 0 <= n < removed ==> !WithinBudget(listing[n..], maxBytes)
    ensures own in listing[removed..] <==> Survives(directory, own, maxBytes)
  {
    var n := OwnPosition(directory, own, listing);
    assert Survives(directory, own, maxBytes) <==> WithinBudget(listing[n..], maxBytes);
    if own in listing[removed..] { KeptIsNotRemoved(listing, own, n, removed); }
    if removed <= n {
      assert listing[removed..][n - removed] == own;
      LaterSuffixFits(listing, removed, n, maxBytes);
    }
  }

  lemma KeptWereWritten(directory: seq<Artifact>, own: Artifact, listing: seq<Artifact>, removed: nat)
    requires multiset(listing) == multiset(Written(directory, own)) && removed <= |listing|
    ensures forall a :: a in listing[removed..] ==> a in Written(directory, own)
  {
    forall a | a in listing[removed..]
      ensures a in Written(directory, own)
    {
      assert a in listing;
      SameElements(listing, Written(directory, own), a);
    }
  }

  // Where the new artifact stands in the sorted listing.
  lemma OwnPosition(directory: seq<Artifact>, own: Artifact, listing: seq<Artifact>) returns (n: nat)
    requires SortedBy(ByAge(), listing) && multiset(listing) == multiset(Written(directory, own))
    ensures n < |listing| && listing[n] == own && Onward(listing, own) == listing[n..]
    ensures forall i :: 0 <= i < |listing| && listing[i] == own ==> i <= n
  {
    n := OnwardIsASuffix(listing, own);
    OthersDiffer(directory, own.path);
    var written := Written(directory, own);
    assert written[|written| - 1] == own;
    SameElements(listing, written, own);
    var i :| 0 <= i < |listing| && listing[i] == own;
    BelowTrichotomy(own.path, own.path);
    assert n <= i;
    forall j | n <= j < |listing| && j <= i
      ensures listing[j] == own
    {
      if j < i { assert ByAge()(listing[j], listing[i]); }
      BelowTrichotomy(listing[j].path, own.path);
      assert listing[j].path == own.path;
      SameElements(listing, written, listing[j]);
      assert listing[j] in Others(directory, own.path) + [own];
    }
    OwnStandsOnce(directory, own, listing);
  }

  lemma OwnStandsOnce(directory: seq<Artifact>, own: Artifact, listing: seq<Artifact>)
    requires multiset(listing) == multiset(Written(directory, own))
    ensures forall i, j :: 0 <= i < j < |listing| && listing[i] == own ==> listing[j] != own
  {
    OthersDiffer(directory, own.path);
    assert own !in Others(directory, own.path);
    assert multiset(Written(directory, own))[own] == 1;
    forall i, j | 0 <= i < j < |listing| && listing[i] == own
      ensures listing[j] != own
    {
      assert listing == listing[..i] + [listing[i]] + listing[i + 1..j] + [listing[j]] + listing[j + 1..];
    }
  }

  lemma KeptIsNotRemoved(listing: seq<Artifact>, own: Artifact, n: nat, removed: nat)
    requires n < |listing| && removed <= |listing| && own in listing[removed..]
    requires forall i :: 0 <= i < |listing| && listing[i] == own ==> i <= n
    ensures removed <= n
  {
    var i :| 0 <= i < |listing[removed..]| && listing[removed..][i] == own;
    assert listing[removed + i] == own;
  }

  // A record larger than the whole store is deleted by the write that succeeds.
  lemma TooLargeDoesNotSurvive(directory: seq<Artifact>, own: Artifact, maxBytes: nat)
    requires own.bytes > maxBytes
    ensures !Survives(directory, own, maxBytes)
  {
    BelowTrichotomy(own.path, own.path);
    OwnIsCounted(Others(directory, own.path), own);
  }

  lemma {:induction false} OwnIsCounted(s: seq<Artifact>, own: Artifact)
    requires !Before(own, own)
    ensures Total(Onward(s + [own], own)) >= own.bytes
  {
    if s == [] {
      assert s + [own] == [own] + [];
      OnwardOfFirst(own, [], own);
    } else {
      assert s + [own] == [s[0]] + (s[1..] + [own]);
      OwnIsCounted(s[1..], own);
      OnwardOfFirst(s[0], s[1..] + [own], own);
    }
  }

  // ----- the table of jobs -----

  // prune: expired jobs go, then the oldest ones beyond the limit.
  method Prune(jobs: map<Text, nat>, now: nat, ttl: nat) returns (kept: map<Text, nat>)
    ensures kept.Keys <= jobs.Keys && |kept| <= 256
    ensures forall id :: id in kept ==> kept[id] == jobs[id] && now - jobs[id] < ttl
    ensures forall gone, id :: gone in jobs && gone !in kept && now - jobs[gone] < ttl && id in kept ==>
              jobs[gone] <= jobs[id]
    ensures |kept| == if |Unexpired(jobs, now, ttl)| <= 256 then |Unexpired(jobs, now, ttl)| else 256
    ensures |Unexpired(jobs, now, ttl)| <= 256 ==> kept == Unexpired(jobs, now, ttl)
  {
    kept := Unexpired(jobs, now, ttl);
    while |kept| > MAX_JOBS
      invariant kept.Keys <= jobs.Keys
      invariant forall id :: id in kept ==> kept[id] == jobs[id] && now - jobs[id] < ttl
      invariant forall gone, id :: gone in jobs && gone !in kept && now - jobs[gone] < ttl && id in kept ==>
                  jobs[gone] <= jobs[id]
      invariant kept == Unexpired(jobs, now, ttl) || |Unexpired(jobs, now, ttl)| > MAX_JOBS
      invariant kept == Unexpired(jobs, now, ttl) || |kept| >= MAX_JOBS
      decreases |kept|
    {
      var oldest := Oldest(kept);
      assert (kept - {oldest}).Keys == kept.Keys - {oldest};
      kept := kept - {oldest};
    }
  }

  function Unexpired(jobs: map<Text, nat>, now: nat, ttl: nat): map<Text, nat> {
    map id | id in jobs && now - jobs[id] < ttl :: jobs[id]
  }

  method Oldest(jobs: map<Text, nat>) returns (id: Text)
    requires |jobs| > 0
    ensures id in jobs && forall k :: k in jobs ==> jobs[id] <= jobs[k]
  {
    ghost var some := Pick(jobs.Keys);
    id :| id in jobs;
    var ids := Listed(jobs.Keys);
    for i := 0 to |ids|
      invariant id in jobs && forall j :: 0 <= j < i ==> ids[j] in jobs && jobs[id] <= jobs[ids[j]]
    {
      assert ids[i] in Elements(ids);
      if jobs[ids[i]] < jobs[id] { id := ids[i]; }
    }
    forall k | k in jobs
      ensures jobs[id] <= jobs[k]
    {
      assert k in Elements(ids);
      var j :| 0 <= j < |ids| && ids[j] == k;
    }
  }
}
