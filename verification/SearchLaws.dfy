// When the answers of the index are complete: what MATCH and LIKE return, and the
// exact conditions under which no line and no path is lost.
module SearchLaws {
  import opened Bytes
  import opened Results
  import opened Sets
  import opened IndexTables
  import opened IndexSpec
  import opened IndexedSearch

  // Characters of a UTF-8 text: every byte that is not a continuation byte.
  function CharCount(s: Text): nat {
    if s == [] then 0
    else (if 0x80 <= s[0] < 0xC0 then 0 else 1) + CharCount(s[1..])
  }

  // MATCH on the trigram table, which folds case in either mode of the search: no
  // row for fewer than three characters and none for an empty text, and otherwise
  // every text that contains the query in the request's own reading.
  ghost predicate TrigramLaw(query: Text, fold: Text -> Text, matches: Text -> bool) {
    && (forall b :: CharCount(query) >= 3 && Contains(fold(b), fold(query)) ==> matches(b))
    && (forall b :: CharCount(query) < 3 ==> !matches(b))
    && !matches([])
  }

  ghost predicate MatchesByTrigrams(q: Request) {
    TrigramLaw(q.query, q.fold, q.matches)
  }

  // A fold works line by line. Both the identity and lower-casing do; lower-casing
  // does not work piece by piece, because a sigma changes with what follows it.
  ghost predicate FoldsLines(fold: Text -> Text) {
    && (forall a, b :: fold(a + [LF] + b) == fold(a) + [LF] + fold(b))
    && (forall a :: fold(a + [CR]) == fold(a) + [CR])
  }

  lemma ContainsIn(pre: Text, s: Text, post: Text, needle: Text)
    requires Contains(s, needle)
    ensures Contains(pre + s + post, needle)
  {
    var i :| 0 <= i <= |s| && OccursAt(s, needle, i);
    var all := pre + s + post;
    assert all[|pre| + i..|pre| + i + |needle|] == s[i..i + |needle|];
    assert OccursAt(all, needle, |pre| + i);
  }

  lemma SplitAt(s: Text, n: nat)
    requires n < |s|
    ensures s == s[..n] + [s[n]] + s[n + 1..]
  {
  }

  lemma LinesUnfold(body: Text)
    requires LineEnd(body) < |body|
    ensures Lines(body) == [StripCr(body[..LineEnd(body)])] + Lines(body[LineEnd(body) + 1..])
  {
  }

  lemma ContainedBeforeCr(fold: Text -> Text, s: Text, needle: Text)
    requires FoldsLines(fold) && Contains(fold(StripCr(s)), needle)
    ensures Contains(fold(s), needle)
  {
    var line := StripCr(s);
    if line != s {
      assert s == line + [CR];
      ContainsIn([], fold(line), [CR], needle);
      assert [] + fold(line) + [CR] == fold(s);
    }
  }

  lemma ContainedInEither(head: Text, tail: Text, needle: Text)
    requires Contains(head, needle) || Contains(tail, needle)
    ensures Contains(head + [LF] + tail, needle)
  {
    if Contains(head, needle) {
      ContainsIn([], head, [LF] + tail, needle);
      assert [] + head + ([LF] + tail) == head + [LF] + tail;
    } else {
      ContainsIn(head + [LF], tail, [], needle);
      assert head + [LF] + tail + [] == head + [LF] + tail;
    }
  }

  // What a line contains, the body contains.
  lemma {:induction false} LineInBody(fold: Text -> Text, body: Text, i: nat, needle: Text)
    requires FoldsLines(fold) && i < |Lines(body)| && Contains(fold(Lines(body)[i]), needle)
    ensures Contains(fold(body), needle)
    decreases |body|
  {
    var n := LineEnd(body);
    if n < |body| {
      LinesUnfold(body);
      SplitAt(body, n);
      var head, tail := body[..n], body[n + 1..];
      assert fold(body) == fold(head) + [LF] + fold(tail);
      if i == 0 {
        ContainedBeforeCr(fold, head, needle);
      } else {
        LineInBody(fold, tail, i - 1, needle);
      }
      ContainedInEither(fold(head), fold(tail), needle);
    }
  }

  lemma SingleLine(s: Text)
    requires s != [] && LF !in s
    ensures Lines(s) == [s]
  {
    assert forall k :: 0 <= k < |s| ==> s[k] in s && s[k] != LF;
  }

  // MATCH returns every body with a matching line exactly when the query has three
  // characters. The guard of the search counts bytes instead.
  lemma MatchIsCompleteExactly(q: Request)
    requires FoldsLines(q.fold) && MatchesByTrigrams(q)
    requires q.query != [] && LF !in q.query
    ensures MatchIsComplete(q) <==> CharCount(q.query) >= 3
  {
    if CharCount(q.query) >= 3 {
      forall body, i | 0 <= i < |Lines(body)| && LineMatches(q, Lines(body)[i])
        ensures q.matches(body)
      {
        LineInBody(q.fold, body, i, q.fold(q.query));
      }
    } else {
      QueryIsALine(q);
      assert !q.matches(q.query);
    }
  }

  lemma QueryIsALine(q: Request)
    requires q.query != [] && LF !in q.query
    ensures Lines(q.query) == [q.query] && LineMatches(q, Lines(q.query)[0])
  {
    SingleLine(q.query);
    var f := q.fold(q.query);
    assert OccursAt(f, f, 0);
  }

  // An index of one document.
  function Single(p: Text, body: Text): Tables {
    Tables(map[1 := FtsRow(p, body)], map[p := CacheRow(Stamp(0, 0), body)], map[p := 1], true,
           Meta(true, true, true, [], false, None), Ocr({}, false, false, map[], map[]))
  }

  // When no statement chooses the one document, the answer is empty.
  lemma NothingIsChosen(q: Request, p: Text, body: Text)
    requires ExactBasenames(q.globs).None? && !q.matches(body) && !q.like(p)
    ensures Consistent(Single(p, body)) && WholeAnswer(Single(p, body), q, [])
  {
    assert ScansChosen(Single(p, body), q, [], []);
  }

  ghost predicate AnswersHaveAllLines(q: Request) {
    forall t, hits :: Consistent(t) && WholeAnswer(t, q, hits) ==> AllLinesFound(t, q, hits)
  }

  ghost predicate AnswersHaveAllPaths(q: Request) {
    forall t, hits :: Consistent(t) && WholeAnswer(t, q, hits) ==> AllPathsFound(t, q, hits)
  }

  // The answers of the index have every matching line exactly when the globs name
  // files, the query has three characters or LIKE selects every allowed path.
  lemma AnswersHaveAllLinesExactly(q: Request)
    requires FoldsLines(q.fold) && MatchesByTrigrams(q) && PrefilterIsComplete(q)
    requires q.query != [] && LF !in q.query
    ensures AnswersHaveAllLines(q) <==>
            || ExactBasenames(q.globs).Some? || CharCount(q.query) >= 3
            || forall p :: UnderRoot(q.root, p) && q.allow(p) ==> q.like(p)
  {
    MatchIsCompleteExactly(q);
    if ExactBasenames(q.globs).Some? || CharCount(q.query) >= 3 {
      forall t, hits | Consistent(t) && WholeAnswer(t, q, hits)
        ensures AllLinesFound(t, q, hits)
      {
        AnswerIsComplete(t, q, hits);
      }
    } else if forall p :: UnderRoot(q.root, p) && q.allow(p) ==> q.like(p) {
      forall t, hits | Consistent(t) && WholeAnswer(t, q, hits)
        ensures AllLinesFound(t, q, hits)
      {
        EveryPathIsChosen(t, q, hits);
      }
    } else {
      var p :| UnderRoot(q.root, p) && q.allow(p) && !q.like(p);
      NothingIsChosen(q, p, q.query);
      QueryIsALine(q);
      assert Admitted(Single(p, q.query), q, p);
      assert !AllLinesFound(Single(p, q.query), q, []);
    }
  }

  lemma EveryPathIsChosen(t: Tables, q: Request, hits: seq<TextHit>)
    requires Sound(t) && PrefilterIsComplete(q) && WholeAnswer(t, q, hits)
    requires forall p :: UnderRoot(q.root, p) && q.allow(p) ==> q.like(p)
    ensures AllLinesFound(t, q, hits)
  {
    var visited :| ScansChosen(t, q, visited, hits);
    forall p, i | Admitted(t, q, p) && 0 <= i < |Lines(t.docs[t.rows[p]].body)|
                  && LineMatches(q, Lines(t.docs[t.rows[p]].body)[i])
      ensures LineIsFound(q, p, Lines(t.docs[t.rows[p]].body), i, hits)
    {
      AdmittedIsChosen(t, q, p);
      VisitedLineIsFound(t, q, visited, p, i);
    }
  }

  // They have every matching path exactly when the globs name files or LIKE
  // selects every allowed path that matches.
  lemma AnswersHaveAllPathsExactly(q: Request)
    requires MatchesByTrigrams(q) && PrefilterIsComplete(q)
    ensures AnswersHaveAllPaths(q) <==> ExactBasenames(q.globs).Some? || PathsAreSelected(q)
  {
    if ExactBasenames(q.globs).Some? || PathsAreSelected(q) {
      forall t, hits | Consistent(t) && WholeAnswer(t, q, hits)
        ensures AllPathsFound(t, q, hits)
      {
        AnswerIsComplete(t, q, hits);
      }
    } else {
      var p :| UnderRoot(q.root, p) && q.allow(p) && LineMatches(q, p) && !q.like(p);
      NothingIsChosen(q, p, []);
      assert Admitted(Single(p, []), q, p) && Lines(Single(p, []).docs[1].body) == [];
      assert !AllPathsFound(Single(p, []), q, []);
    }
  }

  const EURO: Text := [0xE2, 0x82, 0xAC]

  // An index of two documents, the first one empty.
  function Pair(named: Text, other: Text, body: Text): Tables {
    Tables(map[1 := FtsRow(named, []), 2 := FtsRow(other, body)],
           map[named := CacheRow(Stamp(0, 0), []), other := CacheRow(Stamp(0, 0), body)],
           map[named := 1, other := 2], true,
           Meta(true, true, true, [], false, None), Ocr({}, false, false, map[], map[]))
  }

  // A query of three bytes and one character passes the guard. Of two documents,
  // one named by the query and one that contains it, every answer has only the
  // first, so the answer is not empty and the line is lost.
  lemma ThreeByteQueryLosesLine(q: Request, named: Text, other: Text, hits: seq<TextHit>)
    requires q.query == EURO && ExactBasenames(q.globs).None? && MatchesByTrigrams(q)
    requires Admitted(Pair(named, other, EURO), q, named) && LineMatches(q, named) && q.like(named)
    requires Admitted(Pair(named, other, EURO), q, other) && !q.like(other)
    ensures |q.query| >= 3 && Consistent(Pair(named, other, EURO))
    ensures WholeAnswer(Pair(named, other, EURO), q, hits) <==> hits == [TextHit(named, 0, named, [])]
    ensures !AllLinesFound(Pair(named, other, EURO), q, [TextHit(named, 0, named, [])])
  {
    var t := Pair(named, other, EURO);
    EuroIsOneCharacter();
    QueryIsALine(q);
    RangeIsRoot(q.root, named);
    assert Chosen(t, q, named) && !Chosen(t, q, other);
    assert DocumentHits(q, named, []) == [TextHit(named, 0, named, [])];
    assert [named][..0] == [];
    assert Scan(t, q, [named]) == Scan(t, q, []) + DocumentHits(q, named, []);
    assert ScansChosen(t, q, [named], [TextHit(named, 0, named, [])]);
    if WholeAnswer(t, q, hits) {
      var visited :| ScansChosen(t, q, visited, hits);
      OnlyOne(visited, named);
    }
  }

  lemma EuroIsOneCharacter()
    ensures |EURO| == 3 && CharCount(EURO) == 1
  {
    assert EURO[1..] == [0x82, 0xAC] && EURO[1..][1..] == [0xAC];
    assert CharCount(EURO[1..][1..]) == 0 && CharCount(EURO[1..]) == 0;
  }

  lemma OnlyOne(s: seq<Text>, x: Text)
    requires Distinct(s) && forall p :: p in s <==> p == x
    ensures s == [x]
  {
    DistinctCount(s);
    assert Elements(s) == {x};
    assert s[0] in s;
  }

  // ----- when LIKE finds every path -----

  // LIKE with the query between two wildcards compares with ASCII case folded.
  ghost predicate LikeLaw(q: Request) {
    forall p :: q.like(p) <==> Contains(Lower(p), Lower(q.query))
  }

  // A matching path of which no shorter part matches.
  ghost predicate Shortest(q: Request, v: Text) {
    LineMatches(q, v) && forall s :: Contains(v, s) && |s| < |v| ==> !LineMatches(q, s)
  }

  lemma ContainsPart(p: Text, s: Text, v: Text)
    requires Contains(p, s) && Contains(s, v)
    ensures Contains(p, v)
  {
    var i :| 0 <= i <= |p| && OccursAt(p, s, i);
    ContainsIn(p[..i], s, p[i + |s|..], v);
    assert p == p[..i] + s + p[i + |s|..];
  }

  lemma {:induction false} HasShortestPart(q: Request, p: Text) returns (v: Text)
    requires LineMatches(q, p)
    ensures Contains(p, v) && Shortest(q, v)
    decreases |p|
  {
    if s :| Contains(p, s) && |s| < |p| && LineMatches(q, s) {
      v := HasShortestPart(q, s);
      ContainsPart(p, s, v);
    } else {
      v := p;
      assert OccursAt(p, p, 0);
    }
  }

  lemma LowerContains(p: Text, v: Text, needle: Text)
    requires Contains(p, v) && Contains(Lower(v), Lower(needle))
    ensures Contains(Lower(p), Lower(needle))
  {
    var i :| 0 <= i <= |p| && OccursAt(p, v, i);
    var pre, post := Lower(p)[..i], Lower(p)[i + |v|..];
    assert Lower(p)[i..i + |v|] == Lower(p[i..i + |v|]);
    assert Lower(p) == pre + Lower(v) + post;
    ContainsIn(pre, Lower(v), post, Lower(needle));
  }

  // LIKE finds every matching path exactly when every shortest one is the query up
  // to ASCII case, for every fold.
  lemma LikeIsCompleteExactly(q: Request)
    requires LikeLaw(q)
    ensures LikeIsComplete(q) <==> forall v :: Shortest(q, v) ==> Contains(Lower(v), Lower(q.query))
  {
    if forall v :: Shortest(q, v) ==> Contains(Lower(v), Lower(q.query)) {
      forall p | LineMatches(q, p)
        ensures q.like(p)
      {
        var v := HasShortestPart(q, p);
        LowerContains(p, v, q.query);
      }
    }
  }

  lemma VariantMatches(q: Request, v: Text)
    requires q.fold(v) == q.fold(q.query)
    ensures LineMatches(q, v)
  {
    assert OccursAt(q.fold(v), q.fold(q.query), 0);
  }

  // A case-sensitive search loses no path.
  lemma LikeIsCompleteWhenCaseSensitive(q: Request)
    requires LikeLaw(q) && forall s :: q.fold(s) == s
    ensures LikeIsComplete(q)
  {
    forall p | LineMatches(q, p)
      ensures q.like(p)
    {
      assert OccursAt(Lower(q.query), Lower(q.query), 0);
      LowerContains(p, q.query, q.query);
    }
  }

  // A search for a word with an upper-case umlaut misses the path with the
  // lower-case one.
  lemma UmlautPathIsLost(q: Request)
    requires LikeLaw(q) && q.query == [0xC3, 0x84, 0x62]
    requires q.fold([0xC3, 0xA4, 0x62]) == q.fold(q.query)
    ensures LineMatches(q, [0xC3, 0xA4, 0x62]) && !q.like([0xC3, 0xA4, 0x62]) && !LikeIsComplete(q)
  {
    var v: Text := [0xC3, 0xA4, 0x62];
    VariantMatches(q, v);
    assert Lower(v) == v && Lower(q.query) == q.query;
    assert v[0..3] == v && v[1] != q.query[1];
    assert forall i :: 0 <= i <= |v| ==> !OccursAt(v, q.query, i);
  }

  // Lower-casing the capital I with a dot gives two characters, of which the first
  // is the last one of the query: the query has no variants but those of ASCII
  // case, and the path is still missed.
  lemma DottedCapitalIsLost(q: Request)
    requires LikeLaw(q) && q.query == [0x61, 0x62, 0x69] && q.fold(q.query) == q.query
    requires q.fold([0x61, 0x62, 0xC4, 0xB0]) == [0x61, 0x62, 0x69, 0xCC, 0x87]
    ensures LineMatches(q, [0x61, 0x62, 0xC4, 0xB0]) && !q.like([0x61, 0x62, 0xC4, 0xB0]) && !LikeIsComplete(q)
  {
    var v: Text := [0x61, 0x62, 0xC4, 0xB0];
    assert OccursAt(q.fold(v), q.query, 0);
    assert Lower(v) == v && Lower(q.query) == q.query;
    assert v[0..3][2] != q.query[2] && v[1..4][0] != q.query[0];
    assert forall i :: 0 <= i <= |v| ==> !OccursAt(v, q.query, i);
  }
}
