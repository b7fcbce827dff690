// The bounded reader over the index and the simple scan it must agree with.
module IndexedSearch {
  import opened Bytes
  import opened Results
  import opened Sets
  import opened IndexTables
  import opened IndexSpec

  const BODY_BUDGET: nat := 64 * 1024 * 1024
  const CANDIDATE_BUDGET: nat := 20_000

  datatype TextHit = TextHit(path: Text, line: nat, text: Text, context: seq<(nat, Text)>)

  datatype Found = Found(hits: seq<TextHit>, truncated: bool)

  datatype SearchError = Deadline | CandidateBudget | BodyBudget

  // One search. `fold` is the identity or lower-casing, `allow` the complete
  // glob and exclusion test, `matches` the FTS MATCH of the query on a body and
  // `like` the LIKE of the query on a path.
  datatype Request = Request(
    query: Text, root: Text, limit: nat, context: nat, globs: seq<Text>,
    fold: Text -> Text, allow: Text -> bool, matches: Text -> bool, like: Text -> bool)

  // ----- the simple scan -----

  // trim_end_matches('/')
  function Stem(root: Text): Text {
    if root != [] && root[|root| - 1] == SLASH then Stem(root[..|root| - 1]) else root
  }

  predicate UnderRoot(root: Text, path: Text) {
    path == root || Stem(root) + [SLASH] <= path
  }

  predicate LineMatches(q: Request, line: Text) {
    Contains(q.fold(line), q.fold(q.query))
  }

  function Window(lines: seq<Text>, index: nat, context: nat): seq<(nat, Text)>
    requires index < |lines|
  {
    var from := if index < context then 0 else index - context;
    var to := Min(index + context + 1, |lines|);
    seq(to - from, k requires 0 <= k < to - from => (from + k + 1, lines[from + k]))
  }

  function HitAt(q: Request, path: Text, lines: seq<Text>, index: nat): TextHit
    requires index < |lines|
  {
    TextHit(path, index + 1, lines[index], Window(lines, index, q.context))
  }

  // The matching lines among the first n.
  function ContentHits(q: Request, path: Text, lines: seq<Text>, n: nat): seq<TextHit>
    requires n <= |lines|
  {
    if n == 0 then []
    else ContentHits(q, path, lines, n - 1) +
         (if LineMatches(q, lines[n - 1]) then [HitAt(q, path, lines, n - 1)] else [])
  }

  // A document without a matching line is reported once when its path matches.
  function DocumentHits(q: Request, path: Text, body: Text): seq<TextHit> {
    var content := ContentHits(q, path, Lines(body), |Lines(body)|);
    if content == [] && LineMatches(q, path) then [TextHit(path, 0, path, [])] else content
  }

  ghost predicate Admitted(t: Tables, q: Request, path: Text) {
    path in t.rows && t.rows[path] in t.docs && UnderRoot(q.root, path) && q.allow(path)
  }

  ghost function Scan(t: Tables, q: Request, paths: seq<Text>): seq<TextHit>
    requires forall p :: p in paths ==> Admitted(t, q, p)
  {
    if paths == [] then []
    else
      var p := paths[|paths| - 1];
      assert Admitted(t, q, p);
      Scan(t, q, paths[..|paths| - 1]) + DocumentHits(q, p, t.docs[t.rows[p]].body)
  }

  lemma {:induction false} ContentHitsMember(q: Request, path: Text, lines: seq<Text>, n: nat, h: TextHit)
    requires n <= |lines|
    ensures h in ContentHits(q, path, lines, n) <==>
            exists i :: 0 <= i < n && LineMatches(q, lines[i]) && h == HitAt(q, path, lines, i)
  {
    if n > 0 { ContentHitsMember(q, path, lines, n - 1, h); }
  }

  lemma {:induction false} ContentHitsAscend(q: Request, path: Text, lines: seq<Text>, n: nat)
    requires n <= |lines|
    ensures var hs := ContentHits(q, path, lines, n);
            && (forall h :: h in hs ==> h.path == path && 0 < h.line <= n)
            && forall i, j :: 0 <= i < j < |hs| ==> hs[i].line < hs[j].line
  {
    if n > 0 { ContentHitsAscend(q, path, lines, n - 1); }
  }

  lemma {:induction false} ScanMember(t: Tables, q: Request, paths: seq<Text>, h: TextHit)
    requires forall p :: p in paths ==> Admitted(t, q, p)
    ensures h in Scan(t, q, paths) <==>
            exists p :: p in paths && h in DocumentHits(q, p, t.docs[t.rows[p]].body)
  {
    if paths != [] {
      var init, p := paths[..|paths| - 1], paths[|paths| - 1];
      assert paths == init + [p];
      ScanMember(t, q, init, h);
    }
  }

  lemma DocumentHitsOfPath(q: Request, path: Text, body: Text)
    ensures var hs := DocumentHits(q, path, body);
            && (forall h :: h in hs ==> h.path == path)
            && forall i, j :: 0 <= i < j < |hs| ==> hs[i].line != hs[j].line
  {
    ContentHitsAscend(q, path, Lines(body), |Lines(body)|);
  }

  predicate NoLineTwice(hits: seq<TextHit>) {
    forall i, j :: 0 <= i < j < |hits| ==> hits[i].path != hits[j].path || hits[i].line != hits[j].line
  }

  lemma {:induction false} ScanReportsNoLineTwice(t: Tables, q: Request, paths: seq<Text>)
    requires Distinct(paths) && forall p :: p in paths ==> Admitted(t, q, p)
    ensures NoLineTwice(Scan(t, q, paths))
  {
    if paths != [] {
      var init, p := paths[..|paths| - 1], paths[|paths| - 1];
      assert paths == init + [p];
      assert p in paths;
      ScanReportsNoLineTwice(t, q, init);
      var before, here := Scan(t, q, init), DocumentHits(q, p, t.docs[t.rows[p]].body);
      DocumentHitsOfPath(q, p, t.docs[t.rows[p]].body);
      forall h | h in before
        ensures h.path != p
      {
        ScanMember(t, q, init, h);
        var o :| o in init && h in DocumentHits(q, o, t.docs[t.rows[o]].body);
        DocumentHitsOfPath(q, o, t.docs[t.rows[o]].body);
      }
      var all := before + here;
      forall i, j | 0 <= i < j < |all|
        ensures all[i].path != all[j].path || all[i].line != all[j].line
      {
        if i < |before| <= j { assert all[i] in before && all[j] in here; }
      }
    }
  }

  // ----- the candidate queries -----

  datatype Query = ByMatch | ByPath | ByName(name: Text)

  predicate InRoot(root: Text, path: Text) {
    path == root || InDirectoryRange(Stem(root), path)
  }

  predicate EndsWith(s: Text, suffix: Text) {
    |suffix| <= |s| && s[|s| - |suffix|..] == suffix
  }

  // WHERE clauses of the three statements over the row map.
  predicate Selects(t: Tables, q: Request, query: Query, path: Text)
    requires path in t.rows
  {
    InRoot(q.root, path) &&
    match query
    case ByMatch => t.rows[path] in t.docs && q.matches(t.docs[t.rows[path]].body)
    case ByPath => q.like(path)
    case ByName(name) => EndsWith(path, [SLASH] + name)
  }

  // The byte range of the statements selects exactly the paths under the root.
  lemma RangeIsRoot(root: Text, path: Text)
    ensures InRoot(root, path) <==> UnderRoot(root, path)
  {
    DirectoryRangeIsPrefix(Stem(root), path);
  }

  // ----- the exact-basename prefilter -----

  const BACKSLASH: Byte := 92

  predicate MetaByte(b: Byte) {
    b == 42 || b == 63 || b == 91 || b == 93 || b == 123 || b == 125  // * ? [ ] { }
  }

  // The part after the last separator.
  function LastComponent(s: Text): Text {
    if SLASH in s then LastComponent(s[1..]) else s
  }

  predicate LiteralName(glob: Text) {
    var name := LastComponent(glob);
    BACKSLASH !in glob && name != [] && forall b :: b in name ==> !MetaByte(b)
  }

  // exact_glob_basenames: None keeps the general reader.
  function ExactBasenames(globs: seq<Text>): Option<set<Text>> {
    if globs == [] || |globs| > 16 || exists g :: g in globs && !LiteralName(g) then None
    else Some(Names(globs))
  }

  function Names(globs: seq<Text>): set<Text> {
    set g | g in globs :: LastComponent(g)
  }

  // One to sixteen globs without a backslash, each with a last component that is not
  // empty and has none of * ? [ ] { }, are looked up by their last components.
  lemma ExactBasenamesIsExact(globs: seq<Text>)
    ensures ExactBasenames(globs).Some? <==>
              && 1 <= |globs| <= 16
              && forall g :: g in globs ==>
                   && 92 !in g && LastComponent(g) != []
                   && forall b :: b in LastComponent(g) ==> b !in {42, 63, 91, 93, 123, 125}
    ensures ExactBasenames(globs).Some? ==>
              forall name :: name in ExactBasenames(globs).value <==> exists g :: g in globs && name == LastComponent(g)
  {
    forall g
      ensures LiteralName(g) <==>
              && 92 !in g && LastComponent(g) != []
              && forall b :: b in LastComponent(g) ==> b !in {42, 63, 91, 93, 123, 125}
    {
    }
  }

  // The one law of the glob matcher that is needed: a glob whose last component
  // is literal matches only texts with exactly that last component.
  ghost predicate RespectsLiteralNames(globMatches: (Text, Text) -> bool) {
    forall g, s :: globMatches(g, s) && LiteralName(g) ==>
      s == LastComponent(g) || EndsWith(s, [SLASH] + LastComponent(g))
  }

  // `allow` tests a path and the path relative to the root.
  ghost predicate AllowNeedsGlob(q: Request, globMatches: (Text, Text) -> bool) {
    forall p :: q.allow(p) && UnderRoot(q.root, p) ==>
      exists g, s :: g in q.globs && globMatches(g, s) && (s == p || p == Stem(q.root) + [SLASH] + s)
  }

  // What stands behind the last separator, or everything when there is none.
  lemma {:induction false} LastComponentIsExact(s: Text)
    ensures SLASH !in LastComponent(s)
    ensures s == LastComponent(s) || exists dir :: s == dir + [SLASH] + LastComponent(s)
  {
    if SLASH in s {
      LastComponentIsExact(s[1..]);
      var name := LastComponent(s[1..]);
      if s[1..] == name {
        assert s == [s[0]] + s[1..] && s[0] == SLASH;
        assert s == [] + [SLASH] + name;
      } else {
        var dir :| s[1..] == dir + [SLASH] + name;
        assert s == ([s[0]] + dir) + [SLASH] + name;
      }
    }
  }

  lemma {:induction false} NamedIsLast(path: Text, name: Text)
    requires SLASH !in name
    ensures EndsWith(path, [SLASH] + name) <==> SLASH in path && LastComponent(path) == name
  {
    if EndsWith(path, [SLASH] + name) {
      assert path[|path| - |name| - 1..][0] == path[|path| - |name| - 1] == SLASH;
      assert path[|path| - |name|..] == path[|path| - |name| - 1..][1..] == name;
    }
    if SLASH in path {
      var rest := path[1..];
      NamedIsLast(rest, name);
      assert |name| < |rest| ==> rest[|rest| - |name| - 1..] == path[|path| - |name| - 1..];
      if SLASH !in rest && rest == name { assert path == [SLASH] + name; }
    }
  }

  // The statement of a name selects the paths under the root with exactly this last
  // component.
  lemma NameQueryIsExact(t: Tables, q: Request, name: Text, path: Text)
    requires path in t.rows && SLASH !in name
    ensures Selects(t, q, ByName(name), path) <==>
              UnderRoot(q.root, path) && SLASH in path && LastComponent(path) == name
  {
    RangeIsRoot(q.root, path);
    NamedIsLast(path, name);
  }

  // Looking only at paths that end in one of the names loses no allowed path.
  lemma ExactBasenamesLoseNothing(q: Request, globMatches: (Text, Text) -> bool, path: Text)
    requires RespectsLiteralNames(globMatches) && AllowNeedsGlob(q, globMatches)
    requires ExactBasenames(q.globs).Some?
    requires UnderRoot(q.root, path) && q.allow(path) && path != [] && path[0] == SLASH
    ensures exists name :: name in ExactBasenames(q.globs).value && EndsWith(path, [SLASH] + name)
  {
    var g, s :| g in q.globs && globMatches(g, s) && (s == path || path == Stem(q.root) + [SLASH] + s);
    assert LiteralName(g);
    var name := LastComponent(g);
    LastComponentIsExact(g);
    assert name in ExactBasenames(q.globs).value;
    assert s == name || EndsWith(s, [SLASH] + name);
    if s == path {
      assert path[0] == SLASH && SLASH !in name;
      assert EndsWith(path, [SLASH] + name);
    } else {
      assert path[|path| - |s|..] == s;
      if s == name {
        assert path[|path| - |s| - 1..] == [SLASH] + s;
      } else {
        assert s[|s| - |name| - 1..] == [SLASH] + name;
        assert path[|path| - |name| - 1..] == s[|s| - |name| - 1..];
      }
      assert EndsWith(path, [SLASH] + name);
    }
  }

  // ----- the bounded reader -----

  // The visitor of one document: appends its hits until the limit is reached.
  // `ticks` is the number of clock readings left before the deadline.
  method VisitDocument(q: Request, path: Text, body: Text, hits: seq<TextHit>, ticks: nat)
    returns (out: Result<(seq<TextHit>, bool), SearchError>, left: nat)
    requires |hits| < q.limit
    ensures out.Ok? ==>
              var (hits', more) := out.value;
              && hits' <= hits + DocumentHits(q, path, body)
              && (more ==> hits' == hits + DocumentHits(q, path, body) && |hits'| < q.limit)
              && (!more ==> |hits'| == q.limit)
    ensures out.Ok? && out.value.1 ==> ticks == left + |Lines(body)|
    ensures out.Err? ==> out.error == Deadline && ticks < |Lines(body)|
  {
    var step;
    ghost var n: nat;
    step, left, n := VisitLines(q, path, Lines(body), hits, ticks);
    if step.Err? { return Err(step.error), left; }
    var (own, more) := step.value;
    var found := hits + own;
    if !more {
      StoppedInside(q, path, body, hits, n, own);
      return Ok((found, false)), left;
    }
    if own == [] && LineMatches(q, path) {
      found := found + [TextHit(path, 0, path, [])];
      if |found| >= q.limit { return Ok((found, false)), left; }
    }
    out := Ok((found, true));
  }

  // The loop over the lines of one document. `n` lines were looked at.
  method VisitLines(q: Request, path: Text, lines: seq<Text>, hits: seq<TextHit>, ticks: nat)
    returns (out: Result<(seq<TextHit>, bool), SearchError>, left: nat, ghost n: nat)
    requires |hits| < q.limit
    ensures out.Ok? ==>
              var (own, more) := out.value;
              && n <= |lines| && own == ContentHits(q, path, lines, n)
              && (more ==> n == |lines| && |hits + own| < q.limit)
              && (!more ==> own != [] && |hits + own| == q.limit)
              && (more ==> ticks == left + |lines|)
    ensures out.Err? ==> out.error == Deadline && ticks < |lines|
  {
    left, n := ticks, 0;
    var own := [];
    var index := 0;
    while index < |lines|
      invariant index <= |lines| && |hits| + |own| < q.limit && ticks == left + index
      invariant own == ContentHits(q, path, lines, index)
    {
      if left == 0 { return Err(Deadline), 0, 0; }
      left := left - 1;
      if LineMatches(q, lines[index]) {
        own := own + [HitAt(q, path, lines, index)];
        if |hits| + |own| >= q.limit { return Ok((own, false)), left, index + 1; }
      }
      index := index + 1;
    }
    out, n := Ok((own, true)), index;
  }

  // Stopping at a matching line leaves a prefix of the document's hits.
  lemma StoppedInside(q: Request, path: Text, body: Text, hits: seq<TextHit>, n: nat, own: seq<TextHit>)
    requires n <= |Lines(body)| && own == ContentHits(q, path, Lines(body), n) && own != []
    ensures hits + own <= hits + DocumentHits(q, path, body)
  {
    ContentHitsGrow(q, path, Lines(body), n, |Lines(body)|);
  }

  lemma {:induction false} ContentHitsGrow(q: Request, path: Text, lines: seq<Text>, m: nat, n: nat)
    requires m <= n <= |lines|
    ensures ContentHits(q, path, lines, m) <= ContentHits(q, path, lines, n)
  {
    if m < n { ContentHitsGrow(q, path, lines, m, n - 1); }
  }

  ghost function RowSet(t: Tables, q: Request, query: Query): set<Text> {
    set p | p in t.rows && Selects(t, q, query, p)
  }

  // The rows of one statement, in any order.
  method SelectRows(t: Tables, q: Request, query: Query) returns (rows: seq<Text>)
    ensures Elements(rows) == RowSet(t, q, query) && Distinct(rows)
  {
    rows := Listed(set p | p in t.rows && Selects(t, q, query, p));
  }

  ghost predicate StatementsOf(q: Request, queries: seq<Query>) {
    match ExactBasenames(q.globs)
    case Some(names) => forall x :: x in queries <==> x.ByName? && x.name in names
    case None => queries == [ByMatch, ByPath]
  }

  lemma {:induction false} NamesAreFew(globs: seq<Text>)
    ensures |Names(globs)| <= |globs|
  {
    if globs != [] {
      var init, last := globs[..|globs| - 1], globs[|globs| - 1];
      NamesAreFew(init);
      assert globs == init + [last];
      assert forall g :: g in globs <==> g in init || g == last;
      assert Names(globs) == Names(init) + {LastComponent(last)};
    }
  }

  // Which statements run: one per exact name, or MATCH and then LIKE.
  method Statements(q: Request) returns (queries: seq<Query>)
    ensures StatementsOf(q, queries) && |queries| <= 16
  {
    match ExactBasenames(q.globs)
    case None => queries := [ByMatch, ByPath];
    case Some(names) =>
      var listed := Listed(names);
      DistinctCount(listed);
      NamesAreFew(q.globs);
      queries := seq(|listed|, i requires 0 <= i < |listed| => ByName(listed[i]));
      forall x
        ensures x in queries <==> x.ByName? && x.name in names
      {
        if x.ByName? && x.name in names {
          assert x.name in Elements(listed);
          var i :| 0 <= i < |listed| && listed[i] == x.name;
          assert queries[i] == x;
        }
        if x in queries {
          var i :| 0 <= i < |queries| && queries[i] == x;
          assert listed[i] in Elements(listed);
        }
      }
  }

  // The reader's progress: the documents visited so far, each once, and their
  // hits in visiting order.
  ghost predicate Progress(t: Tables, q: Request, visited: seq<Text>, seen: set<int>, hits: seq<TextHit>) {
    && Distinct(visited)
    && (forall p :: p in visited ==> Admitted(t, q, p) && t.rows[p] in seen)
    && (forall id :: id in seen ==> exists p :: p in visited && t.rows[p] == id)
    && hits == Scan(t, q, visited)
    && |hits| < q.limit
  }

  // The reader stopped at the limit inside the last visited document.
  ghost predicate Stopped(t: Tables, q: Request, visited: seq<Text>, hits: seq<TextHit>) {
    && Distinct(visited)
    && (forall p :: p in visited ==> Admitted(t, q, p))
    && hits <= Scan(t, q, visited)
    && |hits| == q.limit
  }

  // ----- what a refusal means -----

  function BodyOf(t: Tables, path: Text): Text {
    if path in t.rows && t.rows[path] in t.docs then t.docs[t.rows[path]].body else []
  }

  function BodyBytes(t: Tables, paths: seq<Text>): nat {
    if paths == [] then 0
    else BodyBytes(t, paths[..|paths| - 1]) + |BodyOf(t, paths[|paths| - 1])|
  }

  // Lines looked at when these documents are visited, one clock reading each.
  function LineReads(t: Tables, paths: seq<Text>): nat {
    if paths == [] then 0
    else LineReads(t, paths[..|paths| - 1]) + |Lines(BodyOf(t, paths[|paths| - 1]))|
  }

  predicate Allowed(t: Tables, q: Request, path: Text) {
    path in t.rows && UnderRoot(q.root, path) && q.allow(path)
  }

  // A refusal names a limit that the allowed documents really exceed. `ticks`
  // readings were available and at most `rows` rows are read.
  ghost predicate Justified(t: Tables, q: Request, e: SearchError, ticks: nat, rows: nat) {
    exists ps :: Distinct(ps) && (forall p :: p in ps ==> Allowed(t, q, p)) && Exceeds(t, ps, e, ticks, rows)
  }

  ghost predicate Exceeds(t: Tables, ps: seq<Text>, e: SearchError, ticks: nat, rows: nat) {
    match e
    case Deadline => ticks < rows + LineReads(t, ps)
    case CandidateBudget => |ps| > 20_000
    case BodyBudget => !Sound(t) || BodyBytes(t, ps) > 64 * 1024 * 1024
  }

  lemma JustifiedByMoreRows(t: Tables, q: Request, e: SearchError, ticks: nat, rows: nat, more: nat)
    requires Justified(t, q, e, ticks, rows) && rows <= more
    ensures Justified(t, q, e, ticks, more)
  {
    var ps :| Distinct(ps) && (forall p :: p in ps ==> Allowed(t, q, p)) && Exceeds(t, ps, e, ticks, rows);
    assert Exceeds(t, ps, e, ticks, more);
  }

  // What the reader has spent after reading `read` rows.
  ghost predicate Accounted(t: Tables, visited: seq<Text>, r: Reader, start: nat, read: nat) {
    && r.bodyBytes == BodyBytes(t, visited) && |r.seen| == |visited|
    && start == r.ticks + read + LineReads(t, visited)
  }

  // The refusal of one row, in terms of what was spent before it.
  ghost predicate RowRefused(t: Tables, q: Request, path: Text, r: Reader, e: SearchError) {
    || (e == Deadline && r.ticks == 0)
    || (Allowed(t, q, path) && t.rows[path] !in r.seen &&
        match e
        case Deadline => 0 < r.ticks <= |Lines(BodyOf(t, path))|
        case CandidateBudget => |r.seen| + 1 > CANDIDATE_BUDGET
        case BodyBudget => t.rows[path] !in t.docs || r.bodyBytes + |BodyOf(t, path)| > BODY_BUDGET)
  }

  lemma RefusalIsJustified(t: Tables, q: Request, path: Text, r: Reader, e: SearchError,
                           visited: seq<Text>, start: nat, read: nat)
    requires path in t.rows && Progress(t, q, visited, r.seen, r.hits) && Accounted(t, visited, r, start, read)
    requires RowRefused(t, q, path, r, e)
    ensures Justified(t, q, e, start, read + 1)
  {
    forall p | p in visited
      ensures Allowed(t, q, p)
    {
      assert Admitted(t, q, p);
    }
    if e == Deadline && r.ticks == 0 {
      assert Exceeds(t, visited, e, start, read + 1);
    } else {
      var ps := visited + [path];
      assert ps[..|visited|] == visited;
      assert path !in visited;
      assert Distinct(ps) && forall p :: p in ps ==> Allowed(t, q, p);
      assert Exceeds(t, ps, e, start, read + 1);
    }
  }

  datatype Reader = Reader(seen: set<int>, hits: seq<TextHit>, bodyBytes: nat, ticks: nat)

  ghost predicate Covered(t: Tables, q: Request, path: Text, visited: seq<Text>) {
    Sound(t) && UnderRoot(q.root, path) && q.allow(path) ==> path in visited
  }

  // One row of a statement: skipped, refused by a budget, or visited.
  method VisitRow(t: Tables, q: Request, path: Text, r: Reader, ghost visited: seq<Text>,
                  ghost start: nat, ghost read: nat)
    returns (out: Result<(Reader, bool), SearchError>, ghost visited': seq<Text>)
    requires path in t.rows && Progress(t, q, visited, r.seen, r.hits) && Accounted(t, visited, r, start, read)
    ensures visited' == visited || visited' == visited + [path]
    ensures out.Ok? && out.value.1 ==>
              && Progress(t, q, visited', out.value.0.seen, out.value.0.hits) && Covered(t, q, path, visited')
              && Accounted(t, visited', out.value.0, start, read + 1)
    ensures out.Ok? && !out.value.1 ==> Stopped(t, q, visited', out.value.0.hits)
    ensures out.Err? ==> Justified(t, q, out.error, start, read + 1)
  {
    out, visited' := ReadRow(t, q, path, r, visited);
    if out.Err? {
      RefusalIsJustified(t, q, path, r, out.error, visited, start, read);
    } else if out.value.1 && visited' != visited {
      assert visited'[..|visited|] == visited;
    }
  }

  method ReadRow(t: Tables, q: Request, path: Text, r: Reader, ghost visited: seq<Text>)
    returns (out: Result<(Reader, bool), SearchError>, ghost visited': seq<Text>)
    requires path in t.rows && Progress(t, q, visited, r.seen, r.hits)
    ensures visited' == visited || visited' == visited + [path]
    ensures out.Ok? && out.value.1 ==>
              var r' := out.value.0;
              && Progress(t, q, visited', r'.seen, r'.hits) && Covered(t, q, path, visited')
              && (visited' == visited ==> r' == r.(ticks := r'.ticks) && r.ticks == r'.ticks + 1)
              && (visited' != visited ==>
                    && |r'.seen| == |r.seen| + 1 && r'.bodyBytes == r.bodyBytes + |BodyOf(t, path)|
                    && r.ticks == r'.ticks + 1 + |Lines(BodyOf(t, path))|)
    ensures out.Ok? && !out.value.1 ==> Stopped(t, q, visited', out.value.0.hits)
    ensures out.Err? ==> RowRefused(t, q, path, r, out.error)
  {
    visited' := visited;
    if r.ticks == 0 { return Err(Deadline), visited; }
    var ticks := r.ticks - 1;
    var id := t.rows[path];
    if !UnderRoot(q.root, path) || !q.allow(path) || id in r.seen {
      return Ok((r.(ticks := ticks), true)), visited;
    }
    var seen := r.seen + {id};
    if |seen| > CANDIDATE_BUDGET { return Err(CandidateBudget), visited; }
    var remaining := if r.bodyBytes < BODY_BUDGET then BODY_BUDGET - r.bodyBytes else 0;
    if id !in t.docs || |t.docs[id].body| > remaining {
      return Err(BodyBudget), visited;
    }
    var body := t.docs[id].body;
    visited' := visited + [path];
    var step, left := VisitDocument(q, path, body, r.hits, ticks);
    if step.Err? { return Err(step.error), visited; }
    var (hits, more) := step.value;
    assert Admitted(t, q, path);
    ScanOneMore(t, q, visited, path);
    if more { ExtendProgress(t, q, visited, r.seen, r.hits, path, hits); }
    out := Ok((Reader(seen, hits, r.bodyBytes + |body|, left), more));
  }

  lemma ScanOneMore(t: Tables, q: Request, visited: seq<Text>, path: Text)
    requires (forall p :: p in visited ==> Admitted(t, q, p)) && Admitted(t, q, path)
    ensures Scan(t, q, visited + [path]) == Scan(t, q, visited) + DocumentHits(q, path, t.docs[t.rows[path]].body)
  {
    assert (visited + [path])[..|visited|] == visited;
  }

  lemma ExtendProgress(t: Tables, q: Request, visited: seq<Text>, seen: set<int>, hits: seq<TextHit>,
                       path: Text, hits': seq<TextHit>)
    requires Progress(t, q, visited, seen, hits)
    requires Admitted(t, q, path) && t.rows[path] !in seen
    requires hits' == hits + DocumentHits(q, path, t.docs[t.rows[path]].body) && |hits'| < q.limit
    ensures Progress(t, q, visited + [path], seen + {t.rows[path]}, hits')
  {
    var visited' := visited + [path];
    assert visited'[..|visited|] == visited;
    forall p | p in visited
      ensures p != path
    {
      assert t.rows[p] in seen;
    }
    forall id | id in seen
      ensures exists p :: p in visited' && t.rows[p] == id
    {
      var p :| p in visited && t.rows[p] == id;
      assert p in visited';
    }
    assert path in visited';
  }

  ghost predicate AllCovered(t: Tables, q: Request, paths: set<Text>, visited: seq<Text>) {
    forall p :: p in paths ==> Covered(t, q, p, visited)
  }

  lemma CoverageGrows(t: Tables, q: Request, paths: set<Text>, visited: seq<Text>, visited': seq<Text>)
    requires AllCovered(t, q, paths, visited) && visited <= visited'
    ensures AllCovered(t, q, paths, visited')
  {
    forall p | p in paths
      ensures Covered(t, q, p, visited')
    {
      if p in visited {
        var i :| 0 <= i < |visited| && visited[i] == p;
        assert visited'[i] == p;
      }
    }
  }

  lemma CoverOneMore(t: Tables, q: Request, rows: seq<Text>, i: nat, visited: seq<Text>, visited': seq<Text>)
    requires i < |rows| && AllCovered(t, q, Elements(rows[..i]), visited) && visited <= visited'
    requires Covered(t, q, rows[i], visited')
    ensures AllCovered(t, q, Elements(rows[..i + 1]), visited')
  {
    CoverageGrows(t, q, Elements(rows[..i]), visited, visited');
    assert rows[..i + 1] == rows[..i] + [rows[i]];
    assert forall p :: p in rows[..i + 1] ==> p in Elements(rows[..i]) || p == rows[i];
  }

  // Nothing but these rows was visited in addition.
  ghost predicate Drawn(visited': seq<Text>, visited: seq<Text>, rows: set<Text>) {
    forall p :: p in visited' ==> p in visited || p in rows
  }

  // The rows of one statement in turn.
  method VisitRows(t: Tables, q: Request, rows: seq<Text>, r: Reader, ghost visited: seq<Text>,
                   ghost start: nat, ghost read: nat)
    returns (out: Result<(Reader, bool), SearchError>, ghost visited': seq<Text>)
    requires Elements(rows) <= t.rows.Keys && Progress(t, q, visited, r.seen, r.hits)
    requires Accounted(t, visited, r, start, read)
    ensures visited <= visited' && Drawn(visited', visited, Elements(rows))
    ensures out.Ok? && out.value.1 ==>
              && Progress(t, q, visited', out.value.0.seen, out.value.0.hits)
              && AllCovered(t, q, Elements(rows), visited')
              && Accounted(t, visited', out.value.0, start, read + |rows|)
    ensures out.Ok? && !out.value.1 ==> Stopped(t, q, visited', out.value.0.hits)
    ensures out.Err? ==> Justified(t, q, out.error, start, read + |rows|)
  {
    out := Ok((r, true));
    visited' := visited;
    for i := 0 to |rows|
      invariant out.Ok? && out.value.1 && visited <= visited' && Drawn(visited', visited, Elements(rows))
      invariant Progress(t, q, visited', out.value.0.seen, out.value.0.hits)
      invariant AllCovered(t, q, Elements(rows[..i]), visited')
      invariant Accounted(t, visited', out.value.0, start, read + i)
    {
      assert rows[i] in Elements(rows);
      ghost var before := visited';
      out, visited' := VisitRow(t, q, rows[i], out.value.0, visited', start, read + i);
      if out.Err? { JustifiedByMoreRows(t, q, out.error, start, read + i + 1, read + |rows|); }
      if out.Err? || !out.value.1 { return; }
      CoverOneMore(t, q, rows, i, before, visited');
    }
    assert rows[..|rows|] == rows;
  }

  ghost function RowsUpTo(t: Tables, q: Request, queries: seq<Query>, n: nat): set<Text>
    requires n <= |queries|
  {
    if n == 0 then {} else RowsUpTo(t, q, queries, n - 1) + RowSet(t, q, queries[n - 1])
  }

  lemma {:induction false} RowsUpToMember(t: Tables, q: Request, queries: seq<Query>, n: nat, j: nat)
    requires j < n <= |queries|
    ensures RowSet(t, q, queries[j]) <= RowsUpTo(t, q, queries, n)
  {
    if j < n - 1 { RowsUpToMember(t, q, queries, n - 1, j); }
  }

  lemma DrawnFurther(t: Tables, q: Request, queries: seq<Query>, k: nat, visited': seq<Text>, visited: seq<Text>)
    requires k < |queries| && Drawn(visited', visited, RowSet(t, q, queries[k]))
    requires Drawn(visited, [], RowsUpTo(t, q, queries, |queries|))
    ensures Drawn(visited', [], RowsUpTo(t, q, queries, |queries|))
  {
    RowsUpToMember(t, q, queries, |queries|, k);
  }

  // The statements in turn, with one set of seen rows and one body budget.
  method VisitStatements(t: Tables, q: Request, queries: seq<Query>, ticks: nat)
    returns (out: Result<(Reader, bool), SearchError>, ghost visited: seq<Text>)
    requires 0 < q.limit
    ensures out.Ok? && out.value.1 ==>
              && Progress(t, q, visited, out.value.0.seen, out.value.0.hits)
              && AllCovered(t, q, RowsUpTo(t, q, queries, |queries|), visited)
    ensures out.Ok? && !out.value.1 ==> Stopped(t, q, visited, out.value.0.hits)
    ensures Drawn(visited, [], RowsUpTo(t, q, queries, |queries|))
    ensures out.Err? ==> Justified(t, q, out.error, ticks, |queries| * |t.rows|)
  {
    out := Ok((Reader({}, [], 0, ticks), true));
    visited := [];
    ghost var read: nat := 0;
    for k := 0 to |queries|
      invariant out.Ok? && out.value.1
      invariant ReadUpTo(t, q, queries, k, out.value.0, visited, ticks, read)
    {
      out, visited, read := VisitStatement(t, q, queries, k, out.value.0, visited, ticks, read);
      if out.Err? || !out.value.1 { return; }
    }
  }

  // The first k statements are read.
  ghost predicate ReadUpTo(t: Tables, q: Request, queries: seq<Query>, k: nat, r: Reader, visited: seq<Text>,
                           ticks: nat, read: nat)
    requires k <= |queries|
  {
    && Progress(t, q, visited, r.seen, r.hits)
    && AllCovered(t, q, RowsUpTo(t, q, queries, k), visited)
    && Drawn(visited, [], RowsUpTo(t, q, queries, |queries|))
    && Accounted(t, visited, r, ticks, read) && read <= k * |t.rows|
  }

  method VisitStatement(t: Tables, q: Request, queries: seq<Query>, k: nat, r: Reader, ghost visited: seq<Text>,
                        ghost ticks: nat, ghost read: nat)
    returns (out: Result<(Reader, bool), SearchError>, ghost visited': seq<Text>, ghost read': nat)
    requires k < |queries| && ReadUpTo(t, q, queries, k, r, visited, ticks, read)
    ensures out.Ok? && out.value.1 ==> ReadUpTo(t, q, queries, k + 1, out.value.0, visited', ticks, read')
    ensures out.Ok? && !out.value.1 ==> Stopped(t, q, visited', out.value.0.hits)
    ensures Drawn(visited', [], RowsUpTo(t, q, queries, |queries|))
    ensures out.Err? ==> Justified(t, q, out.error, ticks, |queries| * |t.rows|)
  {
    var rows := SelectRows(t, q, queries[k]);
    RowsAreFew(t, rows, read, k, |queries|);
    read' := read + |rows|;
    out, visited' := VisitRows(t, q, rows, r, visited, ticks, read);
    DrawnFurther(t, q, queries, k, visited', visited);
    if out.Err? {
      JustifiedByMoreRows(t, q, out.error, ticks, read', |queries| * |t.rows|);
    } else {
      CoverageGrows(t, q, RowsUpTo(t, q, queries, k), visited, visited');
    }
  }

  lemma RowsAreFew(t: Tables, rows: seq<Text>, read: nat, k: nat, n: nat)
    requires Distinct(rows) && Elements(rows) <= t.rows.Keys && read <= k * |t.rows| && k < n
    ensures read + |rows| <= (k + 1) * |t.rows| <= n * |t.rows|
  {
    DistinctCount(rows);
    SubsetIsSmaller(Elements(rows), t.rows.Keys);
    assert |t.rows| == |t.rows.Keys|;
    MoreTimes(k + 1, n, |t.rows|);
  }

  lemma MoreTimes(a: nat, b: nat, x: nat)
    requires a <= b
    ensures a * x <= b * x
  {
  }

  // ----- what an answer means -----

  // The text of a hit is its line, and its context the lines up to q.context before
  // and behind it, each with its number, in order.
  ghost predicate ShowsLine(q: Request, lines: seq<Text>, h: TextHit) {
    && 0 < h.line <= |lines| && h.text == lines[h.line - 1]
    && (forall k, s :: (k, s) in h.context <==>
          1 <= k <= |lines| && h.line - q.context <= k <= h.line + q.context && s == lines[k - 1])
    && forall i, j :: 0 <= i < j < |h.context| ==> h.context[i].0 < h.context[j].0
  }

  lemma HitAtShowsLine(q: Request, path: Text, lines: seq<Text>, index: nat)
    requires index < |lines|
    ensures var h := HitAt(q, path, lines, index); h.path == path && h.line == index + 1 && ShowsLine(q, lines, h)
  {
    var h := HitAt(q, path, lines, index);
    var from := if index < q.context then 0 else index - q.context;
    forall k, s | 1 <= k <= |lines| && h.line - q.context <= k <= h.line + q.context && s == lines[k - 1]
      ensures (k, s) in h.context
    {
      assert h.context[k - 1 - from] == (k, s);
    }
  }

  ghost predicate IsLineHit(t: Tables, q: Request, h: TextHit) {
    && Admitted(t, q, h.path)
    && var lines := Lines(t.docs[t.rows[h.path]].body);
       ShowsLine(q, lines, h) && LineMatches(q, h.text)
  }

  ghost predicate IsPathHit(t: Tables, q: Request, h: TextHit) {
    && Admitted(t, q, h.path) && h == TextHit(h.path, 0, h.path, []) && LineMatches(q, h.path)
    && var lines := Lines(t.docs[t.rows[h.path]].body);
       forall i :: 0 <= i < |lines| ==> !LineMatches(q, lines[i])
  }

  ghost predicate AllLinesFound(t: Tables, q: Request, hits: seq<TextHit>) {
    forall p :: Admitted(t, q, p) ==>
      var lines := Lines(t.docs[t.rows[p]].body);
      forall i :: 0 <= i < |lines| && LineMatches(q, lines[i]) ==> LineIsFound(q, p, lines, i, hits)
  }

  // A hit for this line of this document.
  ghost predicate LineIsFound(q: Request, p: Text, lines: seq<Text>, i: nat, hits: seq<TextHit>)
    requires i < |lines|
  {
    exists h :: h in hits && h.path == p && h.line == i + 1 && ShowsLine(q, lines, h)
  }

  ghost predicate AllPathsFound(t: Tables, q: Request, hits: seq<TextHit>) {
    forall p :: Admitted(t, q, p) && LineMatches(q, p)
                && (forall line :: line in Lines(t.docs[t.rows[p]].body) ==> !LineMatches(q, line))
      ==> TextHit(p, 0, p, []) in hits
  }

  // LIKE returns every path that contains the query.
  ghost predicate LikeIsComplete(q: Request) {
    forall p :: LineMatches(q, p) ==> q.like(p)
  }

  // LIKE returns every such path that the request allows.
  ghost predicate PathsAreSelected(q: Request) {
    forall p :: UnderRoot(q.root, p) && q.allow(p) && LineMatches(q, p) ==> q.like(p)
  }

  // A row that one of the request's statements selects.
  ghost predicate Chosen(t: Tables, q: Request, p: Text)
    requires p in t.rows
  {
    match ExactBasenames(q.globs)
    case Some(names) => exists name :: name in names && Selects(t, q, ByName(name), p)
    case None => Selects(t, q, ByMatch, p) || Selects(t, q, ByPath, p)
  }

  // The hits of every admitted row that is chosen, in some order of the rows.
  ghost predicate WholeAnswer(t: Tables, q: Request, hits: seq<TextHit>) {
    exists visited :: ScansChosen(t, q, visited, hits)
  }

  ghost predicate ScansChosen(t: Tables, q: Request, visited: seq<Text>, hits: seq<TextHit>) {
    && Distinct(visited)
    && (forall p :: p in visited <==> Admitted(t, q, p) && Chosen(t, q, p))
    && hits == Scan(t, q, visited)
  }

  lemma {:induction false} RowsUpToFrom(t: Tables, q: Request, queries: seq<Query>, n: nat, p: Text)
    requires n <= |queries|
    ensures p in RowsUpTo(t, q, queries, n) <==> exists j :: 0 <= j < n && p in RowSet(t, q, queries[j])
  {
    if n > 0 { RowsUpToFrom(t, q, queries, n - 1, p); }
  }

  lemma RowsAreChosen(t: Tables, q: Request, queries: seq<Query>, p: Text)
    requires StatementsOf(q, queries) && p in t.rows
    ensures p in RowsUpTo(t, q, queries, |queries|) <==> Chosen(t, q, p)
  {
    RowsUpToFrom(t, q, queries, |queries|, p);
    match ExactBasenames(q.globs)
    case None =>
      assert queries[0] == ByMatch && queries[1] == ByPath;
      assert p in RowSet(t, q, ByMatch) <==> Selects(t, q, ByMatch, p);
      assert p in RowSet(t, q, ByPath) <==> Selects(t, q, ByPath, p);
    case Some(names) =>
      if Chosen(t, q, p) {
        var name :| name in names && Selects(t, q, ByName(name), p);
        var j :| 0 <= j < |queries| && queries[j] == ByName(name);
        assert p in RowSet(t, q, queries[j]);
      }
      if p in RowsUpTo(t, q, queries, |queries|) {
        var j :| 0 <= j < |queries| && p in RowSet(t, q, queries[j]);
        assert queries[j] in queries;
        assert Selects(t, q, ByName(queries[j].name), p);
      }
  }

  // Everything that was covered is the whole answer.
  lemma CoveredIsWhole(t: Tables, q: Request, queries: seq<Query>, visited: seq<Text>)
    requires Sound(t) && StatementsOf(q, queries) && Distinct(visited)
    requires forall p :: p in visited ==> Admitted(t, q, p)
    requires Drawn(visited, [], RowsUpTo(t, q, queries, |queries|))
    requires AllCovered(t, q, RowsUpTo(t, q, queries, |queries|), visited)
    ensures ScansChosen(t, q, visited, Scan(t, q, visited))
  {
    forall p
      ensures p in visited <==> Admitted(t, q, p) && Chosen(t, q, p)
    {
      if p in t.rows { RowsAreChosen(t, q, queries, p); }
      if Admitted(t, q, p) && Chosen(t, q, p) { assert Covered(t, q, p, visited); }
    }
  }

  // MATCH returns every body with a matching line.
  ghost predicate MatchIsComplete(q: Request) {
    forall body, i :: 0 <= i < |Lines(body)| && LineMatches(q, Lines(body)[i]) ==> q.matches(body)
  }

  ghost predicate PrefilterIsComplete(q: Request) {
    forall p, names :: ExactBasenames(q.globs) == Some(names) && UnderRoot(q.root, p) && q.allow(p) ==>
      exists name :: name in names && EndsWith(p, [SLASH] + name)
  }

  lemma DocumentHitIsReal(t: Tables, q: Request, p: Text, h: TextHit)
    requires Admitted(t, q, p) && h in DocumentHits(q, p, t.docs[t.rows[p]].body)
    ensures IsLineHit(t, q, h) || IsPathHit(t, q, h)
  {
    var lines := Lines(t.docs[t.rows[p]].body);
    var content := ContentHits(q, p, lines, |lines|);
    ContentHitsMember(q, p, lines, |lines|, h);
    if h in content {
      var i :| 0 <= i < |lines| && LineMatches(q, lines[i]) && h == HitAt(q, p, lines, i);
      HitAtShowsLine(q, p, lines, i);
    } else {
      forall i | 0 <= i < |lines|
        ensures !LineMatches(q, lines[i])
      {
        ContentHitsMember(q, p, lines, |lines|, HitAt(q, p, lines, i));
      }
    }
  }

  lemma AnswerIsSound(t: Tables, q: Request, queries: seq<Query>, visited: seq<Text>, hits: seq<TextHit>)
    requires Distinct(visited) && forall p :: p in visited ==> Admitted(t, q, p)
    requires StatementsOf(q, queries) && Drawn(visited, [], RowsUpTo(t, q, queries, |queries|))
    requires hits <= Scan(t, q, visited)
    ensures forall h :: h in hits ==>
              h.path in t.rows && Chosen(t, q, h.path) && (IsLineHit(t, q, h) || IsPathHit(t, q, h))
    ensures NoLineTwice(hits)
  {
    ScanReportsNoLineTwice(t, q, visited);
    forall h | h in hits
      ensures h.path in t.rows && Chosen(t, q, h.path) && (IsLineHit(t, q, h) || IsPathHit(t, q, h))
    {
      ScanMember(t, q, visited, h);
      var p :| p in visited && h in DocumentHits(q, p, t.docs[t.rows[p]].body);
      DocumentHitsOfPath(q, p, t.docs[t.rows[p]].body);
      DocumentHitIsReal(t, q, p, h);
      RowsAreChosen(t, q, queries, p);
    }
  }

  lemma AdmittedIsChosen(t: Tables, q: Request, p: Text)
    requires PrefilterIsComplete(q) && Admitted(t, q, p)
    requires ExactBasenames(q.globs).Some? || q.matches(t.docs[t.rows[p]].body) || q.like(p)
    ensures Chosen(t, q, p)
  {
    RangeIsRoot(q.root, p);
    match ExactBasenames(q.globs)
    case None =>
    case Some(names) =>
      var name :| name in names && EndsWith(p, [SLASH] + name);
      assert Selects(t, q, ByName(name), p);
  }

  // With exact basenames neither MATCH nor LIKE is asked.
  lemma AnswerIsComplete(t: Tables, q: Request, hits: seq<TextHit>)
    requires Sound(t) && PrefilterIsComplete(q) && WholeAnswer(t, q, hits)
    ensures ExactBasenames(q.globs).Some? || MatchIsComplete(q) ==> AllLinesFound(t, q, hits)
    ensures ExactBasenames(q.globs).Some? || PathsAreSelected(q) ==> AllPathsFound(t, q, hits)
  {
    var visited :| ScansChosen(t, q, visited, hits);
    forall p, i | (ExactBasenames(q.globs).Some? || MatchIsComplete(q)) && Admitted(t, q, p)
                  && 0 <= i < |Lines(t.docs[t.rows[p]].body)| && LineMatches(q, Lines(t.docs[t.rows[p]].body)[i])
      ensures LineIsFound(q, p, Lines(t.docs[t.rows[p]].body), i, hits)
    {
      AdmittedIsChosen(t, q, p);
      VisitedLineIsFound(t, q, visited, p, i);
    }
    forall p | (ExactBasenames(q.globs).Some? || PathsAreSelected(q)) && Admitted(t, q, p) && LineMatches(q, p)
               && (forall line :: line in Lines(t.docs[t.rows[p]].body) ==> !LineMatches(q, line))
      ensures TextHit(p, 0, p, []) in hits
    {
      AdmittedIsChosen(t, q, p);
      PathIsAHit(q, p, t.docs[t.rows[p]].body);
      ScanMember(t, q, visited, TextHit(p, 0, p, []));
    }
  }

  lemma VisitedLineIsFound(t: Tables, q: Request, visited: seq<Text>, path: Text, i: nat)
    requires (forall p :: p in visited ==> Admitted(t, q, p)) && path in visited && Admitted(t, q, path)
    requires var lines := Lines(t.docs[t.rows[path]].body); i < |lines| && LineMatches(q, lines[i])
    ensures LineIsFound(q, path, Lines(t.docs[t.rows[path]].body), i, Scan(t, q, visited))
  {
    var lines := Lines(t.docs[t.rows[path]].body);
    var h := HitAt(q, path, lines, i);
    ContentHitsMember(q, path, lines, |lines|, h);
    HitAtShowsLine(q, path, lines, i);
    ScanMember(t, q, visited, h);
  }

  lemma PathIsAHit(q: Request, path: Text, body: Text)
    requires LineMatches(q, path) && forall line :: line in Lines(body) ==> !LineMatches(q, line)
    ensures DocumentHits(q, path, body) == [TextHit(path, 0, path, [])]
  {
    var content := ContentHits(q, path, Lines(body), |Lines(body)|);
    if content != [] { ContentHitsMember(q, path, Lines(body), |Lines(body)|, content[0]); }
  }

  // What a reader may rely on. An answer that is not truncated is the scan of
  // exactly the rows that the statements choose.
  ghost predicate GoodAnswer(t: Tables, q: Request, found: Found) {
    && |found.hits| <= q.limit
    && (found.truncated ==> |found.hits| == q.limit)
    && (forall h :: h in found.hits ==>
          h.path in t.rows && Chosen(t, q, h.path) && (IsLineHit(t, q, h) || IsPathHit(t, q, h)))
    && NoLineTwice(found.hits)
    && (!found.truncated && Sound(t) ==> WholeAnswer(t, q, found.hits))
    && (!found.truncated && Sound(t) && PrefilterIsComplete(q) ==>
          && (ExactBasenames(q.globs).Some? || MatchIsComplete(q) ==> AllLinesFound(t, q, found.hits))
          && (ExactBasenames(q.globs).Some? || PathsAreSelected(q) ==> AllPathsFound(t, q, found.hits)))
  }

  // search_text_hits_filtered_until. None sends the caller to the live search.
  method SearchTextHits(t: Tables, q: Request, ready: bool, ticks: nat)
    returns (out: Result<Option<Found>, SearchError>)
    ensures out.Ok? && out.value.Some? ==> GoodAnswer(t, q, out.value.value)
    ensures |q.query| < 3 || q.limit == 0 ==> out == Ok(None)
    ensures out == Ok(None) ==> |q.query| < 3 || q.limit == 0 || !ready
    ensures ticks == 0 && |q.query| >= 3 && q.limit > 0 ==> out == Err(Deadline)
    // Any other refusal means that the allowed documents exceed the named limit.
    ensures out.Err? && ticks > 0 ==> Justified(t, q, out.error, ticks - 1, 16 * |t.rows|)
  {
    if |q.query| < 3 || q.limit == 0 { return Ok(None); }
    if ticks == 0 { return Err(Deadline); }
    if !ready { return Ok(None); }
    var queries := Statements(q);
    var read;
    ghost var visited: seq<Text>;
    read, visited := VisitStatements(t, q, queries, ticks - 1);
    if read.Err? {
      MoreTimes(|queries|, 16, |t.rows|);
      JustifiedByMoreRows(t, q, read.error, ticks - 1, |queries| * |t.rows|, 16 * |t.rows|);
      return Err(read.error);
    }
    var (reader, exhausted) := read.value;
    AnswerIsSound(t, q, queries, visited, reader.hits);
    if exhausted && Sound(t) {
      CoveredIsWhole(t, q, queries, visited);
      if PrefilterIsComplete(q) { AnswerIsComplete(t, q, reader.hits); }
    }
    out := Ok(Some(Found(reader.hits, !exhausted)));
  }

  // ----- when the assumptions of completeness hold -----

  // The stem is the root without the separators at its end.
  lemma {:induction false} StemIsExact(root: Text)
    ensures Stem(root) <= root && forall i :: |Stem(root)| <= i < |root| ==> root[i] == SLASH
    ensures Stem(root) != [] ==> Stem(root)[|Stem(root)| - 1] != SLASH
    decreases |root|
  {
    if root != [] && root[|root| - 1] == SLASH { StemIsExact(root[..|root| - 1]); }
  }

  // The basename prefilter is complete for every glob matcher that respects
  // literal names, under an absolute root.
  lemma PrefilterLosesNothing(q: Request, globMatches: (Text, Text) -> bool)
    requires RespectsLiteralNames(globMatches) && AllowNeedsGlob(q, globMatches)
    requires q.root != [] && q.root[0] == SLASH
    ensures PrefilterIsComplete(q)
  {
    forall p, names | ExactBasenames(q.globs) == Some(names) && UnderRoot(q.root, p) && q.allow(p)
      ensures exists name :: name in names && EndsWith(p, [SLASH] + name)
    {
      StemIsExact(q.root);
      assert p != [] && p[0] == SLASH;
      ExactBasenamesLoseNothing(q, globMatches, p);
    }
  }
}
