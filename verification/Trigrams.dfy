// The candidate paths of a query: from trigram postings built by the walk, or from
// the persistent index.
module Trigrams {
  import opened Bytes
  import opened Results
  import opened Sets
  import opened IndexTables
  import opened SearchLaws

  type Postings = map<Text, set<Text>>

  datatype Walked = Walked(path: Text, body: Text)

  // `lossy` is the replacement decoding of a three-byte window, which may cut a
  // character and map different windows to one gram.
  function GramAt(lossy: Text -> Text, s: Text, i: nat): Text
    requires i + 3 <= |s|
  {
    lossy(s[i..i + 3])
  }

  function Grams(lossy: Text -> Text, s: Text): set<Text> {
    set i | 0 <= i < |s| - 2 :: GramAt(lossy, s, i)
  }

  // ----- building -----

  ghost predicate PostingsOf(lossy: Text -> Text, walked: seq<Walked>, m: Postings) {
    forall d, g :: d in walked && g in Grams(lossy, Lower(d.body)) ==> g in m && d.path in m[g]
  }

  ghost predicate OnlyWalked(lossy: Text -> Text, walked: seq<Walked>, m: Postings) {
    forall g, p :: g in m && p in m[g] ==>
      exists d :: d in walked && d.path == p && g in Grams(lossy, Lower(d.body))
  }

  // map.entry(gram).or_default().insert(path)
  function Post(m: Postings, g: Text, path: Text): Postings {
    m[g := (if g in m then m[g] else {}) + {path}]
  }

  method PostDocument(m: Postings, lossy: Text -> Text, d: Walked) returns (m': Postings)
    ensures forall g :: g in m' <==> g in m || g in Grams(lossy, Lower(d.body))
    ensures forall g :: g in m' ==>
              m'[g] == (if g in m then m[g] else {}) + (if g in Grams(lossy, Lower(d.body)) then {d.path} else {})
  {
    m' := m;
    var grams := Listed(Grams(lossy, Lower(d.body)));
    for i := 0 to |grams|
      invariant forall g :: g in m' <==> g in m || g in Elements(grams[..i])
      invariant forall g :: g in m' ==>
                  m'[g] == (if g in m then m[g] else {}) + (if g in Elements(grams[..i]) then {d.path} else {})
    {
      NextElement(grams, i);
      m' := Post(m', grams[i], d.path);
    }
    assert grams[..|grams|] == grams;
  }

  // The walk over every document of a root.
  method BuildPostings(lossy: Text -> Text, walked: seq<Walked>) returns (m: Postings)
    ensures PostingsOf(lossy, walked, m) && OnlyWalked(lossy, walked, m)
  {
    m := map[];
    for i := 0 to |walked|
      invariant PostingsOf(lossy, walked[..i], m) && OnlyWalked(lossy, walked[..i], m)
    {
      assert walked[..i + 1] == walked[..i] + [walked[i]];
      ghost var before := m;
      m := PostDocument(m, lossy, walked[i]);
      ExtendPostings(lossy, walked[..i], before, walked[i], m);
    }
    assert walked[..|walked|] == walked;
  }

  lemma ExtendPostings(lossy: Text -> Text, walked: seq<Walked>, m: Postings, d: Walked, m': Postings)
    requires PostingsOf(lossy, walked, m) && OnlyWalked(lossy, walked, m)
    requires forall g :: g in m' <==> g in m || g in Grams(lossy, Lower(d.body))
    requires forall g :: g in m' ==>
               m'[g] == (if g in m then m[g] else {}) + (if g in Grams(lossy, Lower(d.body)) then {d.path} else {})
    ensures PostingsOf(lossy, walked + [d], m') && OnlyWalked(lossy, walked + [d], m')
  {
    forall g, p | g in m' && p in m'[g]
      ensures exists e :: e in walked + [d] && e.path == p && g in Grams(lossy, Lower(e.body))
    {
      if g in m && p in m[g] {
        var e :| e in walked && e.path == p && g in Grams(lossy, Lower(e.body));
        assert e in walked + [d];
      } else {
        assert d in walked + [d];
      }
    }
  }

  // ----- querying -----

  // Where the candidates come from. The persistent index goes first when there is
  // one; `matches` is its MATCH of the query, and it may fail to be read.
  datatype Source =
    | Memory(postings: Postings)
    | Persistent(tables: Tables, matches: Text -> bool, readable: bool)

  // The paths of the rows that MATCH returns.
  function MatchedPaths(t: Tables, matches: Text -> bool): set<Text> {
    set r | r in t.docs && matches(t.docs[r].body) :: t.docs[r].path
  }

  // candidate_paths. None when the root is not ready, the query has no trigram, one
  // of its trigrams has no postings or the index cannot be read: the caller scans
  // live.
  method Candidates(ready: bool, source: Source, lossy: Text -> Text, query: Text, under: Text -> bool)
    returns (out: Option<set<Text>>)
    ensures out.None? <==>
            || !ready || |query| < 3
            || match source
               case Memory(m) => exists g :: g in Grams(lossy, Lower(query)) && g !in m
               case Persistent(_, _, readable) => !readable
    ensures out.Some? ==> forall p :: p in out.value <==>
              && under(p)
              && match source
                 case Memory(m) => forall g :: g in Grams(lossy, Lower(query)) ==> g in m && p in m[g]
                 case Persistent(t, matches, _) =>
                   exists r :: r in t.docs && t.docs[r].path == p && matches(t.docs[r].body)
  {
    if !ready || |query| < 3 { return None; }
    match source {
      case Memory(m) =>
        out := Intersection(m, lossy, query, under);
      case Persistent(t, matches, readable) =>
        if !readable { return None; }
        out := Some(set p | p in MatchedPaths(t, matches) && under(p));
    }
  }

  // The postings of every trigram, under the root.
  method Intersection(m: Postings, lossy: Text -> Text, query: Text, under: Text -> bool)
    returns (out: Option<set<Text>>)
    requires |query| >= 3
    ensures out.None? <==> exists g :: g in Grams(lossy, Lower(query)) && g !in m
    ensures out.Some? ==> forall p :: p in out.value <==>
              under(p) && forall g :: g in Grams(lossy, Lower(query)) ==> g in m && p in m[g]
  {
    var all := Grams(lossy, Lower(query));
    assert GramAt(lossy, Lower(query), 0) in all;
    var grams := Listed(all);
    assert grams != [];
    if grams[0] !in m { assert grams[0] in Elements(grams); return None; }
    var acc := m[grams[0]];
    for i := 1 to |grams|
      invariant forall j :: 0 <= j < i ==> grams[j] in m
      invariant forall p :: p in acc <==> forall j :: 0 <= j < i ==> p in m[grams[j]]
    {
      if grams[i] !in m { assert grams[i] in Elements(grams); return None; }
      acc := acc * m[grams[i]];
    }
    forall g | g in all
      ensures exists j :: 0 <= j < |grams| && grams[j] == g
    {
      assert g in Elements(grams);
    }
    assert forall j :: 0 <= j < |grams| ==> grams[j] in Elements(grams);
    out := Some(set p | p in acc && under(p));
  }

  lemma WindowOfOccurrence(s: Text, needle: Text, at: nat, i: nat)
    requires OccursAt(s, needle, at) && i + 3 <= |needle|
    ensures s[at + i..at + i + 3] == needle[i..i + 3]
  {
    assert forall k :: 0 <= k < |needle| ==> s[at + k] == s[at..at + |needle|][k] == needle[k];
  }

  // Every window of a substring is a window of the text.
  lemma GramsOfOccurrence(lossy: Text -> Text, body: Text, query: Text)
    requires Contains(Lower(body), Lower(query))
    ensures Grams(lossy, Lower(query)) <= Grams(lossy, Lower(body))
  {
    var b, q := Lower(body), Lower(query);
    var at :| 0 <= at <= |b| && OccursAt(b, q, at);
    forall g | g in Grams(lossy, q)
      ensures g in Grams(lossy, b)
    {
      var i :| 0 <= i < |q| - 2 && GramAt(lossy, q, i) == g;
      WindowOfOccurrence(b, q, at, i);
      assert GramAt(lossy, b, at + i) == g;
    }
  }

  // The candidate set is sound: a walked document under the root that contains
  // the query, ASCII case folded, is a candidate whenever there is an answer.
  lemma CandidatesAreSound(lossy: Text -> Text, walked: seq<Walked>, m: Postings, query: Text, d: Walked)
    requires PostingsOf(lossy, walked, m) && d in walked && Contains(Lower(d.body), Lower(query))
    ensures forall g :: g in Grams(lossy, Lower(query)) ==> g in m && d.path in m[g]
  {
    GramsOfOccurrence(lossy, d.body, query);
  }

  // Walk and query together, without a persistent index.
  method SearchCandidates(ready: bool, lossy: Text -> Text, walked: seq<Walked>, query: Text, under: Text -> bool)
    returns (out: Option<set<Text>>)
    ensures !ready || |query| < 3 ==> out.None?
    ensures out.Some? ==> forall d :: d in walked && under(d.path) && Contains(Lower(d.body), Lower(query)) ==>
              d.path in out.value
    ensures out.None? && ready && |query| >= 3 ==> forall d :: d in walked ==> !Contains(Lower(d.body), Lower(query))
  {
    var m := BuildPostings(lossy, walked);
    out := Candidates(ready, Memory(m), lossy, query, under);
    forall d | d in walked && Contains(Lower(d.body), Lower(query))
      ensures forall g :: g in Grams(lossy, Lower(query)) ==> g in m && d.path in m[g]
    {
      CandidatesAreSound(lossy, walked, m, query, d);
    }
  }

  // Every indexed document under the root that contains the query is a candidate.
  ghost predicate IndexCandidatesAreSound(query: Text, fold: Text -> Text, matches: Text -> bool, under: Text -> bool) {
    forall t: Tables, r :: r in t.docs && under(t.docs[r].path) && Contains(fold(t.docs[r].body), fold(query)) ==>
      t.docs[r].path in MatchedPaths(t, matches)
  }

  // The candidates of the persistent index are sound exactly when the query has
  // three characters; the guard asks for one trigram of bytes.
  lemma IndexCandidatesAreSoundExactly(query: Text, fold: Text -> Text, matches: Text -> bool, under: Text -> bool)
    requires TrigramLaw(query, fold, matches)
    ensures IndexCandidatesAreSound(query, fold, matches, under) <==> CharCount(query) >= 3 || forall p :: !under(p)
  {
    if CharCount(query) < 3 && exists p :: under(p) {
      var p :| under(p);
      var t := Single(p, query);
      assert OccursAt(fold(query), fold(query), 0);
      assert 1 in t.docs && t.docs[1].path == p && MatchedPaths(t, matches) == {};
    }
  }

  // One character of three bytes has a trigram, and the persistent index answers
  // that no file contains it: the caller does not scan live.
  method EuroHasNoCandidates(t: Tables, lossy: Text -> Text, fold: Text -> Text, matches: Text -> bool,
                             under: Text -> bool)
    returns (out: Option<set<Text>>)
    requires TrigramLaw(EURO, fold, matches)
    ensures Grams(lossy, Lower(EURO)) != {} && out == Some({})
  {
    EuroIsOneCharacter();
    assert GramAt(lossy, Lower(EURO), 0) in Grams(lossy, Lower(EURO));
    out := Candidates(true, Persistent(t, matches, true), lossy, EURO, under);
    assert out.Some? && out.value == {};
  }
}
