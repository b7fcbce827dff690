// How a fan-out job admits hits and cuts them into pages: the merge rule, what
// dropping results does to it, and what a chain of cursors has delivered.
module SearchMerge {
  import opened Bytes
  import opened Results
  import opened Sets

  const MAX_CURSORS_PER_JOB: nat := 256
  const DEFAULT_PAGE_SIZE: nat := 32
  const MAX_PAGE_SIZE: nat := 64

  type Host = Text

  type Handle = Text

  datatype Key = Key(host: Host, source: Option<Host>, path: Text, line: nat)

  datatype Hit = Hit(key: Key, text: Text)

  function Min(a: int, b: int): int { if a < b then a else b }

  // ----- the admission rule -----

  function Keys(hs: seq<Hit>): set<Key> {
    set h | h in hs :: h.key
  }

  // The first occurrence of every key, in arrival order.
  function Dedup(hs: seq<Hit>): seq<Hit> {
    if hs == [] then []
    else
      var init, h := hs[..|hs| - 1], hs[|hs| - 1];
      if h.key in Keys(init) then Dedup(init) else Dedup(init) + [h]
  }

  function Take<T>(s: seq<T>, n: nat): seq<T> {
    if |s| <= n then s else s[..n]
  }

  predicate UniqueKeys(hs: seq<Hit>) {
    forall i, j :: 0 <= i < j < |hs| ==> hs[i].key != hs[j].key
  }

  lemma KeysAppend(hs: seq<Hit>, h: Hit)
    ensures Keys(hs + [h]) == Keys(hs) + {h.key}
  {
    assert forall x :: x in hs + [h] <==> x in hs || x == h;
    assert h in hs + [h];
    forall k | k in Keys(hs) + {h.key}
      ensures k in Keys(hs + [h])
    {
      if k in Keys(hs) {
        var x :| x in hs && x.key == k;
        assert x in hs + [h];
      }
    }
  }

  lemma KeyOfElement(hs: seq<Hit>, i: nat)
    requires i < |hs|
    ensures hs[i].key in Keys(hs)
  {
    assert hs[i] in hs;
  }

  lemma DedupAppend(hs: seq<Hit>, h: Hit)
    ensures Dedup(hs + [h]) == if h.key in Keys(hs) then Dedup(hs) else Dedup(hs) + [h]
  {
    assert (hs + [h])[..|hs|] == hs;
  }

  lemma UniqueAppend(hs: seq<Hit>, h: Hit)
    requires UniqueKeys(hs) && h.key !in Keys(hs)
    ensures UniqueKeys(hs + [h])
  {
    forall i | 0 <= i < |hs|
      ensures hs[i].key != h.key
    {
      KeyOfElement(hs, i);
    }
  }

  // The first occurrences cover every received key once.
  lemma {:induction false} DedupIsExact(hs: seq<Hit>)
    ensures UniqueKeys(Dedup(hs)) && Keys(Dedup(hs)) == Keys(hs)
    ensures |Dedup(hs)| <= |hs|
  {
    if hs != [] {
      var init, h := hs[..|hs| - 1], hs[|hs| - 1];
      assert hs == init + [h];
      DedupIsExact(init);
      DedupAppend(init, h);
      KeysAppend(init, h);
      KeysAppend(Dedup(init), h);
      if h.key !in Keys(init) { UniqueAppend(Dedup(init), h); }
    }
  }

  lemma {:induction false} UniqueIsDedup(hs: seq<Hit>)
    requires UniqueKeys(hs)
    ensures Dedup(hs) == hs
  {
    if hs != [] {
      var init, h := hs[..|hs| - 1], hs[|hs| - 1];
      UniqueIsDedup(init);
      assert hs == init + [h];
      assert forall i :: 0 <= i < |init| ==> init[i] == hs[i] && init[i].key != h.key;
      assert h.key !in Keys(init);
    }
  }

  // The part of a job that merging changes.
  datatype Merge = Merge(results: seq<Hit>, seen: set<Key>, truncated: bool)

  predicate Admits(limit: nat, m: Merge, h: Hit) {
    h.key !in m.seen && |m.results| < limit
  }

  // One received hit: admitted when its key is new and there is room.
  function AdmitOne(limit: nat, m: Merge, h: Hit): Merge {
    if Admits(limit, m, h)
    then Merge(m.results + [h], m.seen + {h.key}, m.truncated)
    else Merge(m.results, m.seen + {h.key}, true)
  }

  function AdmitAll(limit: nat, m: Merge, hits: seq<Hit>): Merge
    decreases |hits|
  {
    if hits == [] then m else AdmitAll(limit, AdmitOne(limit, m, hits[0]), hits[1..])
  }

  // The hits among these that are admitted.
  function Admitted(limit: nat, m: Merge, hits: seq<Hit>): seq<Hit>
    decreases |hits|
  {
    if hits == [] then []
    else (if Admits(limit, m, hits[0]) then [hits[0]] else []) + Admitted(limit, AdmitOne(limit, m, hits[0]), hits[1..])
  }

  lemma {:induction false} MergeGrows(limit: nat, m: Merge, hits: seq<Hit>)
    ensures AdmitAll(limit, m, hits).results == m.results + Admitted(limit, m, hits)
    ensures m.truncated ==> AdmitAll(limit, m, hits).truncated
    decreases |hits|
  {
    if hits != [] { MergeGrows(limit, AdmitOne(limit, m, hits[0]), hits[1..]); }
  }

  lemma {:induction false} SeenGrows(limit: nat, m: Merge, hits: seq<Hit>)
    ensures AdmitAll(limit, m, hits).seen == m.seen + Keys(hits)
    decreases |hits|
  {
    if hits != [] {
      SeenGrows(limit, AdmitOne(limit, m, hits[0]), hits[1..]);
      KeysOfSum([hits[0]], hits[1..]);
      assert hits == [hits[0]] + hits[1..] && Keys([hits[0]]) == {hits[0].key};
    }
  }

  // ----- what has arrived -----

  // Every hit received, every hit admitted, both in order, and the keys that
  // persisting dropped again.
  datatype Arrivals = Arrivals(history: seq<Hit>, admitted: seq<Hit>, dropped: set<Key>)

  // The admitted hits that are still held.
  function Held(s: seq<Hit>, dropped: set<Key>): seq<Hit> {
    if s == [] then []
    else Held(s[..|s| - 1], dropped) + (if s[|s| - 1].key in dropped then [] else [s[|s| - 1]])
  }

  function FirstHits(limit: nat, history: seq<Hit>): seq<Hit> {
    Take(Dedup(history), limit)
  }

  // The results are the admitted hits that were not dropped. Without a drop those
  // are the first `limit` distinct received hits; after one they never are again.
  ghost predicate Merged(limit: nat, m: Merge, g: Arrivals) {
    Accounted(limit, m, g) && Arrived(limit, m, g)
  }

  ghost predicate Accounted(limit: nat, m: Merge, g: Arrivals) {
    && UniqueKeys(g.admitted)
    && m.seen == Keys(g.history) && Keys(g.admitted) <= m.seen && g.dropped <= Keys(g.admitted)
    && m.results == Held(g.admitted, g.dropped) && |m.results| <= limit
  }

  ghost predicate Arrived(limit: nat, m: Merge, g: Arrivals) {
    && |g.admitted| <= |Dedup(g.history)|
    && FirstHits(limit, g.history) <= g.admitted
    && (g.dropped == {} ==> g.admitted == FirstHits(limit, g.history))
    && (g.dropped != {} ==> m.truncated && AFirstHitIsDropped(limit, g))
    && (!m.truncated ==> m.results == g.history)
  }

  ghost predicate AFirstHitIsDropped(limit: nat, g: Arrivals) {
    exists i :: 0 <= i < |FirstHits(limit, g.history)| && FirstHits(limit, g.history)[i].key in g.dropped
  }

  lemma MergedFacts(limit: nat, m: Merge, g: Arrivals)
    requires Merged(limit, m, g)
    ensures UniqueKeys(g.admitted) && m.results == Held(g.admitted, g.dropped) && UniqueKeys(m.results)
  {
    HeldIsUnique(g.admitted, g.dropped);
  }

  lemma HeldAppend(s: seq<Hit>, h: Hit, dropped: set<Key>)
    ensures Held(s + [h], dropped) == Held(s, dropped) + (if h.key in dropped then [] else [h])
  {
    assert (s + [h])[..|s|] == s;
  }

  lemma {:induction false} HeldOfSum(a: seq<Hit>, b: seq<Hit>, dropped: set<Key>)
    ensures Held(a + b, dropped) == Held(a, dropped) + Held(b, dropped)
  {
    if b == [] {
      assert a + b == a;
    } else {
      var init, h := b[..|b| - 1], b[|b| - 1];
      HeldOfSum(a, init, dropped);
      assert (a + b)[..|a + b| - 1] == a + init && (a + b)[|a + b| - 1] == h;
    }
  }

  lemma {:induction false} HeldIsExact(s: seq<Hit>, dropped: set<Key>)
    ensures |Held(s, dropped)| <= |s|
    ensures forall h :: h in Held(s, dropped) <==> h in s && h.key !in dropped
  {
    if s != [] {
      HeldIsExact(s[..|s| - 1], dropped);
      assert s == s[..|s| - 1] + [s[|s| - 1]];
    }
  }

  lemma {:induction false} HeldOfAll(s: seq<Hit>, dropped: set<Key>)
    requires forall i :: 0 <= i < |s| ==> s[i].key !in dropped
    ensures Held(s, dropped) == s
  {
    if s != [] { HeldOfAll(s[..|s| - 1], dropped); }
  }

  lemma {:induction false} HeldIsUnique(s: seq<Hit>, dropped: set<Key>)
    requires UniqueKeys(s)
    ensures UniqueKeys(Held(s, dropped)) && Keys(Held(s, dropped)) <= Keys(s)
  {
    if s != [] {
      var init, h := s[..|s| - 1], s[|s| - 1];
      HeldIsUnique(init, dropped);
      assert s == init + [h];
      assert forall i :: 0 <= i < |init| ==> init[i] == s[i] && init[i].key != h.key;
      assert h.key !in Keys(init);
      KeysAppend(init, h);
      if h.key !in dropped {
        KeysAppend(Held(init, dropped), h);
        UniqueAppend(Held(init, dropped), h);
      }
    }
  }

  // Dropping the last held hit.
  lemma {:induction false} HeldDropsLast(s: seq<Hit>, dropped: set<Key>)
    requires UniqueKeys(s) && Held(s, dropped) != []
    ensures var held := Held(s, dropped);
            Held(s, dropped + {held[|held| - 1].key}) == held[..|held| - 1]
  {
    var init, h := s[..|s| - 1], s[|s| - 1];
    assert UniqueKeys(init) && forall i :: 0 <= i < |init| ==> init[i].key != h.key;
    if h.key in dropped {
      var held := Held(init, dropped);
      assert Held(s, dropped) == held;
      HeldDropsLast(init, dropped);
    } else {
      var held := Held(init, dropped) + [h];
      assert held[|held| - 1] == h && held[..|held| - 1] == Held(init, dropped);
      NoneOfKey(init, dropped, h.key);
    }
  }

  lemma {:induction false} NoneOfKey(s: seq<Hit>, dropped: set<Key>, k: Key)
    requires forall i :: 0 <= i < |s| ==> s[i].key != k
    ensures Held(s, dropped + {k}) == Held(s, dropped)
  {
    if s != [] { NoneOfKey(s[..|s| - 1], dropped, k); }
  }

  lemma TakeAppend(s: seq<Hit>, h: Hit, n: nat)
    ensures Take(s + [h], n) == if |s| < n then s + [h] else Take(s, n)
  {
  }

  // ----- merging keeps it -----

  function ArriveOne(limit: nat, m: Merge, g: Arrivals, h: Hit): Arrivals {
    g.(history := g.history + [h], admitted := if Admits(limit, m, h) then g.admitted + [h] else g.admitted)
  }

  function ArriveAll(limit: nat, m: Merge, g: Arrivals, hits: seq<Hit>): Arrivals {
    g.(history := g.history + hits, admitted := g.admitted + Admitted(limit, m, hits))
  }

  lemma FirstHitsAppend(limit: nat, history: seq<Hit>, h: Hit)
    ensures FirstHits(limit, history + [h]) ==
            if h.key !in Keys(history) && |Dedup(history)| < limit
            then FirstHits(limit, history) + [h] else FirstHits(limit, history)
  {
    DedupAppend(history, h);
    TakeAppend(Dedup(history), h, limit);
  }

  // While fewer hits than the limit are distinct, every one of them was admitted.
  lemma RoomMeansAllAdmitted(limit: nat, m: Merge, g: Arrivals)
    requires Merged(limit, m, g) && |Dedup(g.history)| < limit
    ensures g.admitted == FirstHits(limit, g.history) == Dedup(g.history)
  {
    assert FirstHits(limit, g.history) == Dedup(g.history) <= g.admitted;
  }

  lemma AdmitAccounted(limit: nat, m: Merge, g: Arrivals, h: Hit)
    requires Accounted(limit, m, g)
    ensures Accounted(limit, AdmitOne(limit, m, h), ArriveOne(limit, m, g, h))
  {
    KeysAppend(g.history, h);
    if Admits(limit, m, h) {
      KeysAppend(g.admitted, h);
      UniqueAppend(g.admitted, h);
      HeldAppend(g.admitted, h, g.dropped);
    }
  }

  lemma AdmitFirstHits(limit: nat, m: Merge, g: Arrivals, h: Hit)
    requires Merged(limit, m, g)
    ensures var g' := ArriveOne(limit, m, g, h);
            && |g'.admitted| <= |Dedup(g'.history)|
            && FirstHits(limit, g.history) <= FirstHits(limit, g'.history) <= g'.admitted
  {
    var g' := ArriveOne(limit, m, g, h);
    DedupAppend(g.history, h);
    FirstHitsAppend(limit, g.history, h);
    assert Admits(limit, m, h) ==> h.key !in Keys(g.history);
    assert g.admitted <= g'.admitted;
    if |Dedup(g.history)| < limit {
      RoomMeansAllAdmitted(limit, m, g);
      RoomIsLeft(limit, m, g);
    } else {
      assert FirstHits(limit, g'.history) == FirstHits(limit, g.history) <= g.admitted;
    }
  }

  lemma AdmitWithoutDrop(limit: nat, m: Merge, g: Arrivals, h: Hit)
    requires Merged(limit, m, g) && g.dropped == {}
    ensures var g' := ArriveOne(limit, m, g, h); g'.admitted == FirstHits(limit, g'.history)
  {
    FirstHitsAppend(limit, g.history, h);
    HeldOfAll(g.admitted, {});
    if |Dedup(g.history)| < limit { RoomIsLeft(limit, m, g); }
  }

  lemma AdmitArrives(limit: nat, m: Merge, g: Arrivals, h: Hit)
    requires Merged(limit, m, g)
    ensures Arrived(limit, AdmitOne(limit, m, h), ArriveOne(limit, m, g, h))
  {
    AdmitFirstHits(limit, m, g, h);
    DroppedStaysDropped(limit, g, ArriveOne(limit, m, g, h));
    if g.dropped == {} { AdmitWithoutDrop(limit, m, g, h); }
  }

  lemma RoomIsLeft(limit: nat, m: Merge, g: Arrivals)
    requires Merged(limit, m, g) && |Dedup(g.history)| < limit
    ensures |m.results| < limit
  {
    HeldIsExact(g.admitted, g.dropped);
  }

  lemma AdmitStep(limit: nat, m: Merge, g: Arrivals, h: Hit)
    requires Merged(limit, m, g)
    ensures Merged(limit, AdmitOne(limit, m, h), ArriveOne(limit, m, g, h))
  {
    AdmitAccounted(limit, m, g, h);
    AdmitArrives(limit, m, g, h);
  }

  lemma DroppedStaysDropped(limit: nat, g: Arrivals, g': Arrivals)
    requires FirstHits(limit, g.history) <= FirstHits(limit, g'.history) && g.dropped <= g'.dropped
    ensures AFirstHitIsDropped(limit, g) ==> AFirstHitIsDropped(limit, g')
  {
    if AFirstHitIsDropped(limit, g) {
      var i :| 0 <= i < |FirstHits(limit, g.history)| && FirstHits(limit, g.history)[i].key in g.dropped;
      assert FirstHits(limit, g'.history)[i] == FirstHits(limit, g.history)[i];
    }
  }

  lemma ArriveOneByOne(limit: nat, m: Merge, g: Arrivals, hits: seq<Hit>)
    requires hits != []
    ensures ArriveAll(limit, AdmitOne(limit, m, hits[0]), ArriveOne(limit, m, g, hits[0]), hits[1..])
         == ArriveAll(limit, m, g, hits)
  {
    assert (g.history + [hits[0]]) + hits[1..] == g.history + hits;
    var later := Admitted(limit, AdmitOne(limit, m, hits[0]), hits[1..]);
    assert (g.admitted + [hits[0]]) + later == g.admitted + ([hits[0]] + later);
    assert g.admitted + ([] + later) == g.admitted + later;
  }

  lemma {:induction false} MergeKeeps(limit: nat, m: Merge, g: Arrivals, hits: seq<Hit>)
    requires Merged(limit, m, g)
    ensures Merged(limit, AdmitAll(limit, m, hits), ArriveAll(limit, m, g, hits))
    decreases |hits|
  {
    if hits == [] {
      assert g.history + [] == g.history && g.admitted + [] == g.admitted;
    } else {
      AdmitStep(limit, m, g, hits[0]);
      MergeKeeps(limit, AdmitOne(limit, m, hits[0]), ArriveOne(limit, m, g, hits[0]), hits[1..]);
      ArriveOneByOne(limit, m, g, hits);
    }
  }

  // ----- dropping keeps it -----

  function DropLast(m: Merge): Merge
    requires m.results != []
  {
    Merge(m.results[..|m.results| - 1], m.seen, true)
  }

  lemma DropKeeps(limit: nat, m: Merge, g: Arrivals)
    requires Merged(limit, m, g) && m.results != []
    ensures Merged(limit, DropLast(m), g.(dropped := g.dropped + {m.results[|m.results| - 1].key}))
  {
    var last := m.results[|m.results| - 1];
    var g' := g.(dropped := g.dropped + {last.key});
    HeldDropsLast(g.admitted, g.dropped);
    HeldIsExact(g.admitted, g.dropped);
    assert last in g.admitted;
    if g.dropped == {} {
      var i :| 0 <= i < |g.admitted| && g.admitted[i] == last;
      assert FirstHits(limit, g'.history)[i].key in g'.dropped;
    } else {
      DroppedStaysDropped(limit, g, g');
    }
  }

  // The results shortened to n.
  function Cut(m: Merge, n: nat): Merge
    requires n <= |m.results|
  {
    Merge(m.results[..n], m.seen, m.truncated || n < |m.results|)
  }

  function CutArrivals(m: Merge, g: Arrivals, n: nat): Arrivals
    requires n <= |m.results|
  {
    g.(dropped := g.dropped + Keys(m.results[n..]))
  }

  lemma {:induction false} CutKeeps(limit: nat, m: Merge, g: Arrivals, n: nat)
    requires Merged(limit, m, g) && n <= |m.results|
    ensures Merged(limit, Cut(m, n), CutArrivals(m, g, n))
    decreases |m.results|
  {
    if n == |m.results| {
      CutNothing(m, g);
    } else {
      var last := m.results[|m.results| - 1];
      var g' := g.(dropped := g.dropped + {last.key});
      DropKeeps(limit, m, g);
      CutKeeps(limit, DropLast(m), g', n);
      CutInSteps(m, g, n);
    }
  }

  lemma CutInSteps(m: Merge, g: Arrivals, n: nat)
    requires n < |m.results|
    ensures var g' := g.(dropped := g.dropped + {m.results[|m.results| - 1].key});
            Cut(DropLast(m), n) == Cut(m, n) && CutArrivals(DropLast(m), g', n) == CutArrivals(m, g, n)
  {
    var less, last := DropLast(m).results, m.results[|m.results| - 1];
    assert less[..n] == m.results[..n];
    assert m.results[n..] == less[n..] + [last];
    KeysAppend(less[n..], last);
    assert g.dropped + {last.key} + Keys(less[n..]) == g.dropped + Keys(m.results[n..]);
  }

  lemma CutNothing(m: Merge, g: Arrivals)
    ensures Cut(m, |m.results|) == m && CutArrivals(m, g, |m.results|) == g
  {
    assert m.results[..|m.results|] == m.results && Keys(m.results[|m.results|..]) == {};
  }

  // A job holds the first distinct hits it received exactly when persisting never
  // dropped a result: a dropped hit is never admitted again.
  lemma FirstHitsExactly(limit: nat, m: Merge, g: Arrivals)
    requires Merged(limit, m, g)
    ensures m.results == FirstHits(limit, g.history) <==> g.dropped == {}
  {
    HeldIsExact(g.admitted, g.dropped);
    if g.dropped == {} {
      HeldOfAll(g.admitted, g.dropped);
    } else {
      var i :| 0 <= i < |FirstHits(limit, g.history)| && FirstHits(limit, g.history)[i].key in g.dropped;
      assert FirstHits(limit, g.history)[i] !in m.results;
    }
  }

  // ----- pages -----

  // At most `size` results from a position on; none behind the end.
  function PageAt(results: seq<Hit>, start: nat, size: nat): seq<Hit> {
    var from := Min(start, |results|);
    results[from..Min(from + size, |results|)]
  }

  function EndOf(results: seq<Hit>, start: nat, page: seq<Hit>): nat {
    Min(start, |results|) + |page|
  }

  function PageSize(requested: Option<nat>): (n: nat)
    ensures 1 <= n <= 64 && (requested.None? ==> n == 32)
    ensures requested.Some? && 1 <= requested.value <= 64 ==> n == requested.value
  {
    match requested
    case None => DEFAULT_PAGE_SIZE
    case Some(n) => if n < 1 then 1 else if n > MAX_PAGE_SIZE then MAX_PAGE_SIZE else n
  }

  // A chain of pages that delivered `joined` and continues at `pos`: it repeated
  // nothing, and nothing behind its position was delivered.
  ghost predicate Chain(results: seq<Hit>, admitted: seq<Hit>, pos: nat, joined: seq<Hit>) {
    && UniqueKeys(joined) && Keys(joined) <= Keys(admitted) && pos <= |joined|
    && forall j :: pos <= j < |results| ==> results[j].key !in Keys(joined)
  }

  lemma {:induction false} KeysOfSum(a: seq<Hit>, b: seq<Hit>)
    ensures Keys(a + b) == Keys(a) + Keys(b)
  {
    if b == [] {
      assert a + b == a;
    } else {
      var init, h := b[..|b| - 1], b[|b| - 1];
      KeysOfSum(a, init);
      assert a + b == (a + init) + [h] && b == init + [h];
      KeysAppend(a + init, h);
      KeysAppend(init, h);
    }
  }

  lemma KeyNotInSlice(s: seq<Hit>, a: nat, b: nat, j: nat)
    requires UniqueKeys(s) && a <= b <= |s| && j < |s| && !(a <= j < b)
    ensures s[j].key !in Keys(s[a..b])
  {
    forall h | h in s[a..b]
      ensures h.key != s[j].key
    {
      var i :| 0 <= i < |s[a..b]| && s[a..b][i] == h;
      assert s[a + i] == h;
    }
  }

  // One page more: still nothing is repeated.
  lemma PageExtendsChain(results: seq<Hit>, admitted: seq<Hit>, pos: nat, joined: seq<Hit>, size: nat)
    requires Chain(results, admitted, pos, joined) && UniqueKeys(results) && Keys(results) <= Keys(admitted) && size > 0
    ensures var page := PageAt(results, pos, size);
            && Chain(results, admitted, EndOf(results, pos, page), joined + page)
            && |page| <= size && (pos < |results| ==> page != []) && EndOf(results, pos, page) <= |results|
  {
    var page := PageAt(results, pos, size);
    var from := Min(pos, |results|);
    KeysOfSum(joined, page);
    PageIsNew(results, pos, joined, from, page);
    JoinUnique(joined, page);
    forall j | from + |page| <= j < |results|
      ensures results[j].key !in Keys(joined + page)
    {
      KeyNotInSlice(results, from, from + |page|, j);
    }
  }

  lemma PageIsNew(results: seq<Hit>, pos: nat, joined: seq<Hit>, from: nat, page: seq<Hit>)
    requires UniqueKeys(results) && from + |page| <= |results| && page == results[from..from + |page|]
    requires from == Min(pos, |results|)
    requires forall j :: pos <= j < |results| ==> results[j].key !in Keys(joined)
    ensures UniqueKeys(page) && Keys(page) <= Keys(results) && Keys(page) !! Keys(joined)
  {
    assert forall i :: 0 <= i < |page| ==> page[i] == results[from + i];
    forall k | k in Keys(page)
      ensures k in Keys(results) && k !in Keys(joined)
    {
      var h :| h in page && h.key == k;
      var i :| 0 <= i < |page| && page[i] == h;
      KeyOfElement(results, from + i);
    }
  }

  lemma JoinUnique(a: seq<Hit>, b: seq<Hit>)
    requires UniqueKeys(a) && UniqueKeys(b) && Keys(a) !! Keys(b)
    ensures UniqueKeys(a + b)
  {
    forall i, j | 0 <= i < j < |a + b|
      ensures (a + b)[i].key != (a + b)[j].key
    {
      if i < |a| <= j {
        KeyOfElement(a, i);
        KeyOfElement(b, j - |a|);
      }
    }
  }

  // Hits admitted later have new keys, and a drop only shortens the results.
  lemma ChainSurvivesAdmission(results: seq<Hit>, admitted: seq<Hit>, added: seq<Hit>, pos: nat, joined: seq<Hit>)
    requires Chain(results, admitted, pos, joined) && UniqueKeys(admitted + added)
    ensures Chain(results + added, admitted + added, pos, joined)
  {
    KeysOfSum(admitted, added);
    forall j | pos <= j < |results + added|
      ensures (results + added)[j].key !in Keys(joined)
    {
      if j >= |results| {
        var i := |admitted| + (j - |results|);
        assert (admitted + added)[i] == (results + added)[j];
        KeyNotInSlice(admitted + added, 0, |admitted|, i);
        assert (admitted + added)[0..|admitted|] == admitted;
      }
    }
  }

  // ----- when a page continues its chain without a gap -----

  // The cursor stands where the delivered hits that are still held end, and none of
  // the next n admitted hits was dropped.
  ghost predicate Steady(admitted: seq<Hit>, dropped: set<Key>, delivered: nat, pos: nat, n: nat)
    requires delivered <= |admitted|
  {
    n == 0 ||
    (pos == |Held(admitted[..delivered], dropped)|
     && forall i :: delivered <= i < delivered + n && i < |admitted| ==> admitted[i].key !in dropped)
  }

  // The held hits of the delivered part all stand before the position.
  lemma PositionIsBehindHeld(admitted: seq<Hit>, dropped: set<Key>, delivered: nat, pos: nat)
    requires delivered <= |admitted|
    requires Chain(Held(admitted, dropped), admitted, pos, admitted[..delivered])
    ensures |Held(admitted[..delivered], dropped)| <= pos
    ensures Held(admitted, dropped) == Held(admitted[..delivered], dropped) + Held(admitted[delivered..], dropped)
  {
    var mine, rest := Held(admitted[..delivered], dropped), Held(admitted[delivered..], dropped);
    assert admitted == admitted[..delivered] + admitted[delivered..];
    HeldOfSum(admitted[..delivered], admitted[delivered..], dropped);
    HeldIsExact(admitted[..delivered], dropped);
    forall i | 0 <= i < |mine|
      ensures mine[i] == Held(admitted, dropped)[i] && i < pos
    {
      assert mine[i] in admitted[..delivered];
      assert mine[i].key in Keys(admitted[..delivered]);
    }
    if mine != [] { assert mine[|mine| - 1] == Held(admitted, dropped)[|mine| - 1]; }
  }

  // Of what follows the delivered part, the first n held hits are the first n hits
  // exactly when none of those was dropped.
  lemma {:induction false} FirstHeldAreFirst(rest: seq<Hit>, dropped: set<Key>, n: nat)
    requires n <= |Held(rest, dropped)|
    ensures |Held(rest, dropped)| <= |rest|
    ensures Held(rest, dropped)[..n] == rest[..n] <==> forall i :: 0 <= i < n ==> rest[i].key !in dropped
  {
    HeldIsExact(rest, dropped);
    assert rest == rest[..n] + rest[n..];
    HeldOfSum(rest[..n], rest[n..], dropped);
    if forall i :: 0 <= i < n ==> rest[i].key !in dropped {
      HeldOfAll(rest[..n], dropped);
    }
    forall i | 0 <= i < n && Held(rest, dropped)[..n] == rest[..n]
      ensures rest[i].key !in dropped
    {
      assert rest[i] == rest[..n][i] == Held(rest, dropped)[i];
      assert Held(rest, dropped)[i] in Held(rest, dropped);
    }
  }

  lemma HeldWhole(s: seq<Hit>, dropped: set<Key>)
    ensures Held(s, dropped) == s <==> forall i :: 0 <= i < |s| ==> s[i].key !in dropped
  {
    HeldIsExact(s, dropped);
    if forall i :: 0 <= i < |s| ==> s[i].key !in dropped {
      HeldOfAll(s, dropped);
    }
    forall i | 0 <= i < |s| && Held(s, dropped) == s
      ensures s[i].key !in dropped
    {
      assert s[i] in s;
    }
  }

  // A page continues the admitted hits without a gap if and only if the chain is
  // steady over its length.
  lemma PageContinuesExactly(admitted: seq<Hit>, dropped: set<Key>, delivered: nat, pos: nat, size: nat)
    requires UniqueKeys(admitted) && delivered <= |admitted| && size > 0
    requires Chain(Held(admitted, dropped), admitted, pos, admitted[..delivered])
    ensures var page := PageAt(Held(admitted, dropped), pos, size);
            admitted[..delivered] + page <= admitted <==> Steady(admitted, dropped, delivered, pos, |page|)
  {
    var results, page := Held(admitted, dropped), PageAt(Held(admitted, dropped), pos, size);
    var mine, rest := Held(admitted[..delivered], dropped), Held(admitted[delivered..], dropped);
    PositionIsBehindHeld(admitted, dropped, delivered, pos);
    if page != [] && pos == |mine| {
      PageBehind(mine, rest, size);
      AlignedPage(admitted, dropped, delivered, page);
    } else if page != [] {
      OvershootSkips(admitted, dropped, delivered, pos, size);
    }
  }

  lemma PageBehind(a: seq<Hit>, b: seq<Hit>, size: nat)
    ensures PageAt(a + b, |a|, size) == b[..Min(size, |b|)]
  {
  }

  lemma AlignedPage(admitted: seq<Hit>, dropped: set<Key>, delivered: nat, page: seq<Hit>)
    requires delivered <= |admitted|
    requires var rest := Held(admitted[delivered..], dropped); |page| <= |rest| && page == rest[..|page|]
    ensures admitted[..delivered] + page <= admitted <==>
            forall i :: delivered <= i < delivered + |page| && i < |admitted| ==> admitted[i].key !in dropped
  {
    var after := admitted[delivered..];
    HeldIsExact(after, dropped);
    FirstHeldAreFirst(after, dropped, |page|);
    PrefixFrom(admitted, delivered, page);
    assert forall i :: delivered <= i < |admitted| ==> admitted[i] == after[i - delivered];
    assert forall i :: 0 <= i < |after| ==> after[i] == admitted[delivered + i];
  }

  lemma PrefixFrom(s: seq<Hit>, n: nat, page: seq<Hit>)
    requires n <= |s| && |page| <= |s| - n
    ensures s[..n] + page <= s <==> page == s[n..][..|page|]
  {
    if s[..n] + page <= s {
      assert forall i :: 0 <= i < |page| ==> page[i] == (s[..n] + page)[n + i] == s[n + i];
    }
  }

  // A position past the held hits skips the first of the undelivered ones.
  lemma OvershootSkips(admitted: seq<Hit>, dropped: set<Key>, delivered: nat, pos: nat, size: nat)
    requires UniqueKeys(admitted) && delivered <= |admitted| && size > 0
    requires |Held(admitted[..delivered], dropped)| < pos < |Held(admitted, dropped)|
    ensures !(admitted[..delivered] + PageAt(Held(admitted, dropped), pos, size) <= admitted)
  {
    var results, page := Held(admitted, dropped), PageAt(Held(admitted, dropped), pos, size);
    FirstUndeliveredDiffers(admitted, dropped, delivered, pos);
    assert page[0] == results[pos];
    PrefixNext(admitted[..delivered], page, admitted);
  }

  lemma PrefixNext(a: seq<Hit>, page: seq<Hit>, s: seq<Hit>)
    requires page != [] && |a| < |s|
    ensures a + page <= s ==> page[0] == s[|a|]
  {
    assert (a + page)[|a|] == page[0];
  }

  lemma FirstUndeliveredDiffers(admitted: seq<Hit>, dropped: set<Key>, delivered: nat, pos: nat)
    requires UniqueKeys(admitted) && delivered <= |admitted|
    requires |Held(admitted[..delivered], dropped)| < pos < |Held(admitted, dropped)|
    ensures delivered < |admitted| && Held(admitted, dropped)[pos] != admitted[delivered]
  {
    var results := Held(admitted, dropped);
    var mine, rest := Held(admitted[..delivered], dropped), Held(admitted[delivered..], dropped);
    assert admitted == admitted[..delivered] + admitted[delivered..];
    HeldOfSum(admitted[..delivered], admitted[delivered..], dropped);
    HeldIsUnique(admitted, dropped);
    HeldIsExact(admitted, dropped);
    HeldIsExact(admitted[delivered..], dropped);
    assert results[pos] in results;
    if admitted[delivered].key !in dropped {
      FirstHeldIsFirst(admitted[delivered..], dropped);
      assert results[|mine|] == rest[0];
    }
  }

  lemma {:induction false} FirstHeldIsFirst(s: seq<Hit>, dropped: set<Key>)
    requires s != [] && s[0].key !in dropped
    ensures Held(s, dropped) != [] && Held(s, dropped)[0] == s[0]
  {
    assert s == [s[0]] + s[1..];
    HeldOfSum([s[0]], s[1..], dropped);
    assert [s[0]][..0] == [];
  }

  // A chain that ended delivered every admitted hit if and only if it was steady
  // over all that was left.
  lemma ChainEndsExactly(admitted: seq<Hit>, dropped: set<Key>, delivered: nat, pos: nat, page: seq<Hit>)
    requires UniqueKeys(admitted) && delivered <= |admitted|
    requires Chain(Held(admitted, dropped), admitted, pos, admitted[..delivered])
    requires page == Held(admitted, dropped)[Min(pos, |Held(admitted, dropped)|)..]
    ensures admitted[..delivered] + page == admitted <==>
            Steady(admitted, dropped, delivered, pos, |admitted| - delivered)
  {
    var mine, rest := Held(admitted[..delivered], dropped), Held(admitted[delivered..], dropped);
    var left := admitted[delivered..];
    PositionIsBehindHeld(admitted, dropped, delivered, pos);
    assert admitted == admitted[..delivered] + left;
    SumCancels(admitted[..delivered], page, left);
    HeldIsExact(left, dropped);
    SuffixOfSum(mine, rest, pos);
    SuffixEquals(rest, left, pos - |mine|);
    SteadyToTheEnd(admitted, dropped, delivered, pos);
  }

  lemma SteadyToTheEnd(admitted: seq<Hit>, dropped: set<Key>, delivered: nat, pos: nat)
    requires delivered <= |admitted|
    ensures var left := admitted[delivered..];
            Steady(admitted, dropped, delivered, pos, |left|) <==>
            left == [] || (pos == |Held(admitted[..delivered], dropped)| && Held(left, dropped) == left)
  {
    var left := admitted[delivered..];
    HeldWhole(left, dropped);
    assert forall i :: delivered <= i < |admitted| ==> admitted[i] == left[i - delivered];
    assert forall i :: 0 <= i < |left| ==> left[i] == admitted[delivered + i];
  }

  lemma SumCancels(a: seq<Hit>, b: seq<Hit>, c: seq<Hit>)
    ensures a + b == a + c <==> b == c
  {
    assert (a + b)[|a|..] == b && (a + c)[|a|..] == c;
  }

  lemma SuffixOfSum(a: seq<Hit>, b: seq<Hit>, n: nat)
    requires |a| <= n
    ensures (a + b)[Min(n, |a + b|)..] == b[Min(n - |a|, |b|)..]
  {
  }

  // A suffix of at most as many hits is all of them only when nothing was cut off.
  lemma SuffixEquals(b: seq<Hit>, c: seq<Hit>, n: nat)
    requires |b| <= |c|
    ensures b[Min(n, |b|)..] == c <==> c == [] || (n == 0 && b == c)
  {
  }

  lemma {:induction false} OneKeyEach(s: seq<Hit>)
    requires UniqueKeys(s)
    ensures |Keys(s)| == |s|
  {
    if s != [] {
      var init, h := s[..|s| - 1], s[|s| - 1];
      assert UniqueKeys(init) && forall i :: 0 <= i < |init| ==> init[i].key != h.key;
      OneKeyEach(init);
      assert h.key !in Keys(init) && s == init + [h];
      KeysAppend(init, h);
    }
  }

  // Different hits that were all admitted are no more than the admitted ones.
  lemma NoMoreThanAdmitted(joined: seq<Hit>, admitted: seq<Hit>)
    requires UniqueKeys(joined) && UniqueKeys(admitted) && Keys(joined) <= Keys(admitted)
    ensures |joined| <= |admitted|
  {
    OneKeyEach(joined);
    OneKeyEach(admitted);
    SubsetIsSmaller(Keys(joined), Keys(admitted));
  }

  // Without a drop every chain is steady.
  lemma NoDropIsSteady(admitted: seq<Hit>, delivered: nat, pos: nat, n: nat)
    requires delivered <= |admitted|
    requires Chain(Held(admitted, {}), admitted, pos, admitted[..delivered])
    ensures Steady(admitted, {}, delivered, pos, n)
  {
    PositionIsBehindHeld(admitted, {}, delivered, pos);
    HeldOfAll(admitted[..delivered], {});
  }

  // All laws of one page: nothing is repeated; a chain without a gap stays without
  // one, and one that ends has everything, exactly when it is steady.
  lemma PageLaws(admitted: seq<Hit>, dropped: set<Key>, joined: seq<Hit>, pos: nat, size: nat)
    requires UniqueKeys(admitted) && size > 0
    requires Chain(Held(admitted, dropped), admitted, pos, joined)
    ensures var results := Held(admitted, dropped);
            var page := PageAt(results, pos, size);
            var end := EndOf(results, pos, page);
            && Chain(results, admitted, end, joined + page)
            && UniqueKeys(joined + page)
            && (joined <= admitted ==>
                  (joined + page <= admitted <==> Steady(admitted, dropped, |joined|, pos, |page|)))
            && (joined <= admitted && end >= |results| ==>
                  (joined + page == admitted <==> Steady(admitted, dropped, |joined|, pos, |admitted| - |joined|)))
  {
    var results := Held(admitted, dropped);
    var page := PageAt(results, pos, size);
    HeldIsUnique(admitted, dropped);
    PageExtendsChain(results, admitted, pos, joined, size);
    if joined <= admitted {
      assert joined == admitted[..|joined|];
      PageContinuesExactly(admitted, dropped, |joined|, pos, size);
      if EndOf(results, pos, page) >= |results| {
        LastPage(results, pos, size);
        ChainEndsExactly(admitted, dropped, |joined|, pos, page);
      }
    }
  }

  lemma LastPage(results: seq<Hit>, pos: nat, size: nat)
    requires EndOf(results, pos, PageAt(results, pos, size)) >= |results|
    ensures PageAt(results, pos, size) == results[Min(pos, |results|)..]
  {
  }

  lemma MergedGrows(limit: nat, m: Merge, g: Arrivals, hits: seq<Hit>)
    requires Merged(limit, m, g)
    ensures Merged(limit, AdmitAll(limit, m, hits), ArriveAll(limit, m, g, hits))
    ensures AdmitAll(limit, m, hits).results == m.results + Admitted(limit, m, hits)
    ensures UniqueKeys(g.admitted + Admitted(limit, m, hits))
  {
    MergeKeeps(limit, m, g, hits);
    MergeGrows(limit, m, hits);
  }
}
