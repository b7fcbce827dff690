// The context lines kept with a preview handle, and the lines a preview shows.
module PreviewContext {
  import opened Bytes
  import opened Results
  import opened Sets
  import opened Sorting
  import opened Utf8

  const MAX_LINES: nat := 200
  const MAX_BYTES: nat := 65536

  datatype Line = Line(number: nat, text: Text)

  // ----- order of preference -----

  function Distance(a: nat, b: nat): nat {
    if a < b then b - a else a - b
  }

  // The match first, then by distance, then by line number.
  predicate RankLe(n: nat, a: nat, b: nat) {
    if (a == n) != (b == n) then a == n
    else if Distance(a, n) != Distance(b, n) then Distance(a, n) < Distance(b, n)
    else a <= b
  }

  function ByNumber(): (Line, Line) -> bool {
    (a: Line, b: Line) => a.number <= b.number
  }

  function ByRank(n: nat): (Line, Line) -> bool {
    (a: Line, b: Line) => RankLe(n, a.number, b.number)
  }

  lemma OrdersAreTotal(n: nat)
    ensures TotalPreorder(ByNumber()) && TotalPreorder(ByRank(n))
  {
  }

  // ----- the reference: the first text given for each line number -----

  function FirstWith(s: seq<Line>, m: nat): Option<Text> {
    if s == [] then None else if s[0].number == m then Some(s[0].text) else FirstWith(s[1..], m)
  }

  // The first line with this number, if there is one.
  lemma {:induction false} FirstWithIsExact(s: seq<Line>, m: nat, t: Text)
    ensures FirstWith(s, m) == Some(t) <==>
            exists i :: 0 <= i < |s| && s[i] == Line(m, t) && forall j :: 0 <= j < i ==> s[j].number != m
  {
    if s != [] && s[0].number != m {
      FirstWithIsExact(s[1..], m, t);
      assert forall i :: 0 < i < |s| ==> s[i] == s[1..][i - 1];
      if i :| 0 <= i < |s[1..]| && s[1..][i] == Line(m, t) && forall j :: 0 <= j < i ==> s[1..][j].number != m {
        assert s[i + 1] == Line(m, t) && forall j :: 0 <= j < i + 1 ==> s[j].number != m;
      }
      if i :| 0 <= i < |s| && s[i] == Line(m, t) && forall j :: 0 <= j < i ==> s[j].number != m {
        assert s[1..][i - 1] == Line(m, t) && forall j :: 0 <= j < i - 1 ==> s[1..][j].number != m;
      }
    }
  }

  predicate Increasing(s: seq<Line>) {
    forall i, j :: 0 <= i < j < |s| ==> s[i].number < s[j].number
  }

  predicate OnePerNumber(s: seq<Line>) {
    forall k, l :: k in s && l in s && k.number == l.number ==> k == l
  }

  lemma {:induction false} FirstIsAnElement(s: seq<Line>, m: nat)
    ensures FirstWith(s, m).Some? ==> Line(m, FirstWith(s, m).value) in s
    ensures FirstWith(s, m).None? ==> forall l :: l in s ==> l.number != m
  {
    if s != [] {
      FirstIsAnElement(s[1..], m);
      assert s == [s[0]] + s[1..];
    }
  }

  lemma OnlyOneIsFirst(s: seq<Line>, l: Line)
    requires OnePerNumber(s) && l in s
    ensures FirstWith(s, l.number) == Some(l.text)
  {
    FirstIsAnElement(s, l.number);
  }

  lemma SameLinesSameFirsts(a: seq<Line>, b: seq<Line>, m: nat)
    requires multiset(a) == multiset(b) && OnePerNumber(a)
    ensures OnePerNumber(b) && FirstWith(a, m) == FirstWith(b, m)
  {
    forall l
      ensures l in a <==> l in b
    {
      SameElements(a, b, l);
    }
    FirstIsAnElement(a, m);
    FirstIsAnElement(b, m);
  }

  // ----- gathering, sorting and removing duplicates -----

  function Gathered(n: nat, context: seq<Line>, text: Option<Text>): seq<Line> {
    if FirstWith(context, n).None? && text.Some? then context + [Line(n, text.value)] else context
  }

  // dedup_by_key keeps the first line of every run with one number.
  function Dedup(s: seq<Line>): seq<Line>
    decreases |s|
  {
    if |s| <= 1 then s
    else if s[0].number == s[1].number then Dedup([s[0]] + s[2..])
    else [s[0]] + Dedup(s[1..])
  }

  lemma {:induction false} InsertKeepsFirst(x: Line, s: seq<Line>, m: nat)
    ensures FirstWith(Insert(ByNumber(), x, s), m) == (if x.number == m then Some(x.text) else FirstWith(s, m))
  {
    if s != [] && !ByNumber()(x, s[0]) {
      InsertKeepsFirst(x, s[1..], m);
    }
  }

  lemma {:induction false} SortKeepsFirst(s: seq<Line>, m: nat)
    ensures FirstWith(StableSort(ByNumber(), s), m) == FirstWith(s, m)
  {
    if s != [] {
      SortKeepsFirst(s[1..], m);
      InsertKeepsFirst(s[0], StableSort(ByNumber(), s[1..]), m);
    }
  }

  lemma {:induction false} DedupKeepsFirst(s: seq<Line>, m: nat)
    ensures FirstWith(Dedup(s), m) == FirstWith(s, m)
    decreases |s|
  {
    if |s| > 1 {
      if s[0].number == s[1].number {
        DedupKeepsFirst([s[0]] + s[2..], m);
        assert s[1..][1..] == s[2..];
      } else {
        DedupKeepsFirst(s[1..], m);
      }
    }
  }

  lemma {:induction false} DedupIncreases(s: seq<Line>)
    requires SortedBy(ByNumber(), s)
    ensures Increasing(Dedup(s)) && (s != [] ==> Dedup(s) != [] && Dedup(s)[0] == s[0])
    decreases |s|
  {
    forall i, j | 0 <= i < j < |s|
      ensures s[i].number <= s[j].number
    {
      assert ByNumber()(s[i], s[j]);
    }
    if |s| > 1 {
      if s[0].number == s[1].number {
        DedupIncreases([s[0]] + s[2..]);
      } else {
        DedupIncreases(s[1..]);
      }
    }
  }

  // One line for every number, in order, with the first text given for it.
  lemma DistinctLines(g: seq<Line>)
    ensures var d := Dedup(StableSort(ByNumber(), g));
            Increasing(d) && OnePerNumber(d) && forall m :: FirstWith(d, m) == FirstWith(g, m)
  {
    OrdersAreTotal(0);
    StableSortSorts(ByNumber(), g);
    DedupIncreases(StableSort(ByNumber(), g));
    forall m
      ensures FirstWith(Dedup(StableSort(ByNumber(), g)), m) == FirstWith(g, m)
    {
      SortKeepsFirst(g, m);
      DedupKeepsFirst(StableSort(ByNumber(), g), m);
    }
  }

  function Ranked(n: nat, g: seq<Line>): seq<Line> {
    StableSort(ByRank(n), Dedup(StableSort(ByNumber(), g)))
  }

  // ----- the byte budget -----

  function TotalBytes(s: seq<Line>): nat {
    if s == [] then 0 else |s[0].text| + TotalBytes(s[1..])
  }

  function Budget(s: seq<Line>, remaining: nat): (seq<Line>, bool) {
    if s == [] then ([], false)
    else if remaining == 0 then ([], true)
    else
      var cut := Truncated(s[0].text, remaining);
      var (rest, lost) := Budget(s[1..], remaining - |cut|);
      ([Line(s[0].number, cut)] + rest, lost || |s[0].text| > remaining)
  }

  ghost predicate Prefixes(kept: seq<Line>, s: seq<Line>) {
    |kept| <= |s| && forall i :: 0 <= i < |kept| ==> kept[i].number == s[i].number && kept[i].text <= s[i].text
  }

  ghost predicate Shorter(kept: seq<Line>, s: seq<Line>)
    requires |kept| <= |s|
  {
    |kept| < |s| || exists i :: 0 <= i < |kept| && kept[i].text != s[i].text
  }

  lemma KeepFirst(s: seq<Line>, cut: Text, rest: seq<Line>)
    requires s != [] && cut <= s[0].text && Prefixes(rest, s[1..])
    ensures var kept := [Line(s[0].number, cut)] + rest;
            && Prefixes(kept, s) && TotalBytes(kept) == |cut| + TotalBytes(rest)
            && (Shorter(kept, s) <==> cut != s[0].text || Shorter(rest, s[1..]))
  {
    var kept := [Line(s[0].number, cut)] + rest;
    assert kept[1..] == rest;
    assert forall i :: 0 < i < |kept| ==> kept[i] == rest[i - 1] && s[i] == s[1..][i - 1];
    if Shorter(rest, s[1..]) && |rest| == |s[1..]| {
      var i :| 0 <= i < |rest| && rest[i].text != s[1..][i].text;
      assert kept[i + 1].text != s[i + 1].text;
    }
    assert kept[0].text != s[0].text <==> cut != s[0].text;
  }

  // The budget keeps a prefix of the lines and of each text, and reports every loss.
  lemma {:induction false} BudgetKeepsAPrefix(s: seq<Line>, remaining: nat)
    ensures var (kept, lost) := Budget(s, remaining);
            Prefixes(kept, s) && TotalBytes(kept) <= remaining && (lost <==> Shorter(kept, s))
  {
    if s != [] && remaining > 0 {
      var cut := Truncated(s[0].text, remaining);
      BudgetKeepsAPrefix(s[1..], remaining - |cut|);
      KeepFirst(s, cut, Budget(s[1..], remaining - |cut|).0);
    }
  }

  // Line i has what the lines kept before it leave of the budget.
  ghost predicate HasItsShare(kept: seq<Line>, s: seq<Line>, remaining: nat, i: nat)
    requires i < |kept| <= |s|
  {
    var spent := TotalBytes(kept[..i]);
    spent < remaining && kept[i] == Line(s[i].number, Truncated(s[i].text, remaining - spent))
  }

  // Each kept line has its share, and a line is dropped only when nothing is left.
  lemma {:induction false} BudgetKeepsMost(s: seq<Line>, remaining: nat)
    ensures var kept := Budget(s, remaining).0;
            && |kept| <= |s| && (|kept| < |s| ==> TotalBytes(kept) == remaining)
            && forall i :: 0 <= i < |kept| ==> HasItsShare(kept, s, remaining, i)
  {
    if s != [] && remaining > 0 {
      var cut := Truncated(s[0].text, remaining);
      BudgetKeepsMost(s[1..], remaining - |cut|);
      var rest := Budget(s[1..], remaining - |cut|).0;
      var kept := [Line(s[0].number, cut)] + rest;
      assert kept[1..] == rest;
      forall i | 0 <= i < |kept|
        ensures HasItsShare(kept, s, remaining, i)
      {
        if i > 0 { ShareBehind(rest, s, cut, remaining, i - 1); }
      }
    }
  }

  lemma ShareBehind(rest: seq<Line>, s: seq<Line>, cut: Text, remaining: nat, i: nat)
    requires s != [] && |cut| <= remaining && i < |rest| < |s| && HasItsShare(rest, s[1..], remaining - |cut|, i)
    ensures HasItsShare([Line(s[0].number, cut)] + rest, s, remaining, i + 1)
  {
    var kept := [Line(s[0].number, cut)] + rest;
    assert kept[..i + 1][1..] == rest[..i];
  }

  lemma {:induction false} BudgetKeepsText(s: seq<Line>, remaining: nat)
    requires forall l :: l in s ==> WellFormed(l.text)
    ensures forall l :: l in Budget(s, remaining).0 ==> WellFormed(l.text)
  {
    if s != [] && remaining > 0 {
      assert s[0] in s;
      TruncatedIsLongest(s[0].text, remaining);
      BudgetKeepsText(s[1..], remaining - |Truncated(s[0].text, remaining)|);
    }
  }

  lemma {:induction false} SortKeepsBytes(s: seq<Line>)
    ensures TotalBytes(StableSort(ByNumber(), s)) == TotalBytes(s)
  {
    if s != [] {
      SortKeepsBytes(s[1..]);
      InsertAddsBytes(s[0], StableSort(ByNumber(), s[1..]));
    }
  }

  lemma {:induction false} InsertAddsBytes(x: Line, s: seq<Line>)
    ensures TotalBytes(Insert(ByNumber(), x, s)) == |x.text| + TotalBytes(s)
  {
    if s == [] {
      assert Insert(ByNumber(), x, s)[1..] == [];
    } else if ByNumber()(x, s[0]) {
      assert Insert(ByNumber(), x, s)[1..] == s;
    } else {
      InsertAddsBytes(x, s[1..]);
      assert Insert(ByNumber(), x, s)[1..] == Insert(ByNumber(), x, s[1..]);
    }
  }

  function Shortened(s: seq<Line>): seq<Line> {
    if |s| > MAX_LINES then s[..MAX_LINES] else s
  }

  // The lines kept for a match at line n, and match_truncated.
  function Bounded(n: nat, g: seq<Line>): (seq<Line>, bool) {
    var ranked := Ranked(n, g);
    var (kept, lost) := Budget(Shortened(ranked), MAX_BYTES);
    (StableSort(ByNumber(), kept), |ranked| > MAX_LINES || lost)
  }

  lemma BudgetStep(s: seq<Line>, i: nat, remaining: nat)
    requires i < |s| && remaining > 0
    ensures var cut := Truncated(s[i].text, remaining);
            && |cut| <= remaining
            && Budget(s[i..], remaining).0
                 == [Line(s[i].number, cut)] + Budget(s[i + 1..], remaining - |cut|).0
            && Budget(s[i..], remaining).1
                 == (Budget(s[i + 1..], remaining - |cut|).1 || |s[i].text| > remaining)
  {
    assert s[i..][1..] == s[i + 1..];
  }

  // The loop of the source over the ranked lines.
  method BoundContext(n: nat, context: seq<Line>, text: Option<Text>) returns (lines: seq<Line>, truncated: bool)
    ensures (lines, truncated) == Bounded(n, Gathered(n, context, text))
  {
    var ranked := Ranked(n, Gathered(n, context, text));
    var kept, lost := SpendBudget(Shortened(ranked));
    truncated := |ranked| > MAX_LINES || lost;
    lines := StableSort(ByNumber(), kept);
  }

  method SpendBudget(s: seq<Line>) returns (kept: seq<Line>, lost: bool)
    ensures (kept, lost) == Budget(s, MAX_BYTES)
  {
    var remaining: nat := MAX_BYTES;
    kept, lost := [], false;
    var i := 0;
    assert s[0..] == s;
    while i < |s| && remaining > 0
      invariant 0 <= i <= |s| && Spent(s, kept, lost, i, remaining)
    {
      SpendOne(s, kept, lost, i, remaining);
      var line := TruncateUtf8(s[i].text, remaining);
      lost := lost || |s[i].text| > remaining;
      remaining := remaining - |line|;
      kept := kept + [Line(s[i].number, line)];
      i := i + 1;
    }
    SpendLast(s, kept, lost, i, remaining);
    if i < |s| { lost := true; }
  }

  // The whole result is what was kept so far followed by the result for the rest.
  ghost predicate Spent(s: seq<Line>, kept: seq<Line>, lost: bool, i: nat, remaining: nat)
    requires i <= |s|
  {
    && Budget(s, MAX_BYTES).0 == kept + Budget(s[i..], remaining).0
    && Budget(s, MAX_BYTES).1 == (lost || Budget(s[i..], remaining).1)
  }

  lemma SpendOne(s: seq<Line>, kept: seq<Line>, lost: bool, i: nat, remaining: nat)
    requires i < |s| && remaining > 0 && Spent(s, kept, lost, i, remaining)
    ensures var cut := Truncated(s[i].text, remaining);
            && |cut| <= remaining
            && Spent(s, kept + [Line(s[i].number, cut)], lost || |s[i].text| > remaining, i + 1, remaining - |cut|)
  {
    BudgetStep(s, i, remaining);
    var line := [Line(s[i].number, Truncated(s[i].text, remaining))];
    var rest := Budget(s[i + 1..], remaining - |Truncated(s[i].text, remaining)|).0;
    assert kept + (line + rest) == (kept + line) + rest;
  }

  lemma SpendLast(s: seq<Line>, kept: seq<Line>, lost: bool, i: nat, remaining: nat)
    requires i <= |s| && (i == |s| || remaining == 0) && Spent(s, kept, lost, i, remaining)
    ensures (kept, lost || i < |s|) == Budget(s, MAX_BYTES)
  {
    assert kept + [] == kept;
  }

  // ----- what is kept -----

  // The lines in order of preference: the distinct lines of g, best first.
  lemma RankedLines(n: nat, g: seq<Line>)
    ensures var r := Ranked(n, g);
            && OnePerNumber(r) && (forall m :: FirstWith(r, m) == FirstWith(g, m))
            && (forall i, j :: 0 <= i < j < |r| ==> RankLe(n, r[i].number, r[j].number) && r[i].number != r[j].number)
  {
    var d := Dedup(StableSort(ByNumber(), g));
    DistinctLines(g);
    OrdersAreTotal(n);
    StableSortSorts(ByRank(n), d);
    RankedPermutation(n, d, Ranked(n, g));
  }

  lemma RankedPermutation(n: nat, d: seq<Line>, r: seq<Line>)
    requires Increasing(d) && OnePerNumber(d) && multiset(d) == multiset(r) && SortedBy(ByRank(n), r)
    ensures OnePerNumber(r) && forall m :: FirstWith(r, m) == FirstWith(d, m)
    ensures forall i, j :: 0 <= i < j < |r| ==> RankLe(n, r[i].number, r[j].number) && r[i].number != r[j].number
  {
    SameLinesSameFirsts(d, r, 0);
    forall m
      ensures FirstWith(r, m) == FirstWith(d, m)
    {
      SameLinesSameFirsts(d, r, m);
    }
    forall i, j | 0 <= i < j < |r|
      ensures RankLe(n, r[i].number, r[j].number) && r[i].number != r[j].number
    {
      assert ByRank(n)(r[i], r[j]);
      NoLineTwice(d, r, i, j);
      assert r[i] in r && r[j] in r;
    }
  }

  // A permutation of different lines repeats none of them.
  lemma NoLineTwice(d: seq<Line>, r: seq<Line>, i: nat, j: nat)
    requires Distinct(d) && multiset(d) == multiset(r)
    requires i < j < |r|
    ensures r[i] != r[j]
  {
    AtMostOnce(d, r[i]);
    assert r == r[..i] + [r[i]] + r[i + 1..j] + [r[j]] + r[j + 1..];
  }

  lemma {:induction false} AtMostOnce(d: seq<Line>, x: Line)
    requires Distinct(d)
    ensures multiset(d)[x] <= 1
  {
    if d != [] {
      AtMostOnce(d[1..], x);
      assert d == [d[0]] + d[1..];
      if d[0] == x {
        assert x !in d[1..];
      }
    }
  }

  // The kept lines follow the ranked ones from the best down, each with a prefix
  // of its text, and the flag says whether anything differs.
  lemma KeptIsARankedPrefix(n: nat, g: seq<Line>)
    ensures var r, kept := Ranked(n, g), Budget(Shortened(Ranked(n, g)), MAX_BYTES).0;
            && Prefixes(kept, r) && |kept| <= MAX_LINES && TotalBytes(kept) <= MAX_BYTES
            && (Bounded(n, g).1 <==> Shorter(kept, r))
            && (r != [] ==> kept != [] && kept[0].text == Truncated(r[0].text, MAX_BYTES))
  {
    BudgetKeepsAPrefix(Shortened(Ranked(n, g)), MAX_BYTES);
  }

  // The result holds the same lines as the kept ones, in increasing order.
  lemma ResultHoldsTheKept(n: nat, g: seq<Line>)
    ensures var out, kept := Bounded(n, g).0, Budget(Shortened(Ranked(n, g)), MAX_BYTES).0;
            && Increasing(out) && OnePerNumber(out) && |out| == |kept| && TotalBytes(out) == TotalBytes(kept)
            && (forall l :: l in out <==> l in kept)
  {
    var kept := Budget(Shortened(Ranked(n, g)), MAX_BYTES).0;
    RankedLines(n, g);
    KeptIsARankedPrefix(n, g);
    SortedByNumber(kept);
    SortKeepsBytes(kept);
  }

  lemma SortedByNumber(kept: seq<Line>)
    requires forall i, j :: 0 <= i < j < |kept| ==> kept[i].number != kept[j].number
    ensures var out := StableSort(ByNumber(), kept);
            && Increasing(out) && OnePerNumber(out) && |out| == |kept|
            && (forall l :: l in out <==> l in kept)
  {
    var out := StableSort(ByNumber(), kept);
    OrdersAreTotal(0);
    StableSortSorts(ByNumber(), kept);
    forall l
      ensures l in out <==> l in kept
    {
      SameElements(out, kept, l);
    }
    forall i, j | 0 <= i < j < |out|
      ensures out[i].number < out[j].number
    {
      assert ByNumber()(out[i], out[j]);
      NoLineTwice(kept, out, i, j);
      assert out[i] in kept && out[j] in kept;
    }
  }

  // What the result holds for line m, in terms of the ranked lines.
  lemma ResultAt(n: nat, g: seq<Line>, m: nat)
    ensures var r, kept, out := Ranked(n, g), Budget(Shortened(Ranked(n, g)), MAX_BYTES).0, Bounded(n, g).0;
            && |kept| <= |r|
            && (FirstWith(out, m).Some? ==> exists i :: 0 <= i < |kept| && r[i].number == m)
            && (forall i :: 0 <= i < |kept| && r[i].number == m ==> FirstWith(out, m) == Some(kept[i].text))
            && (forall i :: 0 <= i < |r| && r[i].number == m ==> FirstWith(g, m) == Some(r[i].text))
            && (FirstWith(g, m).Some? ==> exists i :: 0 <= i < |r| && r[i].number == m)
  {
    var r, kept, out := Ranked(n, g), Budget(Shortened(Ranked(n, g)), MAX_BYTES).0, Bounded(n, g).0;
    RankedLines(n, g);
    KeptIsARankedPrefix(n, g);
    ResultHoldsTheKept(n, g);
    FirstIsAnElement(out, m);
    FirstIsAnElement(r, m);
    forall i | 0 <= i < |kept| && r[i].number == m
      ensures FirstWith(out, m) == Some(kept[i].text)
    {
      assert kept[i] in out;
    }
    forall i | 0 <= i < |r| && r[i].number == m
      ensures FirstWith(g, m) == Some(r[i].text)
    {
      assert r[i] in r;
    }
  }

  // ----- main results -----

  // At most 200 lines and 64 KiB, in increasing order of number, each a
  // character-aligned prefix of the first text given for its number.
  lemma ResultIsBounded(n: nat, g: seq<Line>)
    requires forall l :: l in g ==> WellFormed(l.text)
    ensures var out := Bounded(n, g).0;
            && Increasing(out) && |out| <= MAX_LINES && TotalBytes(out) <= MAX_BYTES
            && forall l :: l in out ==>
                 WellFormed(l.text) && FirstWith(g, l.number).Some? && l.text <= FirstWith(g, l.number).value
  {
    var r, out := Ranked(n, g), Bounded(n, g).0;
    RankedLines(n, g);
    KeptIsARankedPrefix(n, g);
    ResultHoldsTheKept(n, g);
    forall l | l in r
      ensures WellFormed(l.text)
    {
      OnlyOneIsFirst(r, l);
      FirstIsAnElement(g, l.number);
    }
    BudgetKeepsText(Shortened(r), MAX_BYTES);
    forall l | l in out
      ensures FirstWith(g, l.number).Some? && l.text <= FirstWith(g, l.number).value
    {
      ResultAt(n, g, l.number);
      OnlyOneIsFirst(out, l);
    }
  }

  // The lines kept are the nearest ones: the match itself, then by distance from it,
  // and of two at one distance the one before it.
  lemma NearestAreKept(n: nat, g: seq<Line>, near: nat, far: nat)
    requires FirstWith(Bounded(n, g).0, near).Some?
    requires FirstWith(g, far).Some? && FirstWith(Bounded(n, g).0, far).None?
    ensures near != far
    ensures || near == n
            || (far != n
                && var d: int, e: int := near - n, far - n;
                   var a, b := if d < 0 then -d else d, if e < 0 then -e else e;
                   a < b || (a == b && near < n < far))
  {
    RankedLines(n, g);
    ResultAt(n, g, near);
    ResultAt(n, g, far);
  }

  // A line is dropped only when 200 are kept or they fill 64 KiB.
  lemma MostAreKept(n: nat, g: seq<Line>)
    ensures var out, all := Bounded(n, g).0, Ranked(n, g);
            && |out| <= |all| && |out| <= 200 && TotalBytes(out) <= 65536
            && (|out| < |all| ==> |out| == 200 || TotalBytes(out) == 65536)
  {
    ResultHoldsTheKept(n, g);
    KeptIsARankedPrefix(n, g);
    BudgetKeepsMost(Shortened(Ranked(n, g)), MAX_BYTES);
  }

  // The matched line is always among them, cut only if it alone exceeds 64 KiB.
  lemma MatchLineIsKept(n: nat, g: seq<Line>)
    requires FirstWith(g, n).Some?
    ensures FirstWith(Bounded(n, g).0, n) == Some(Truncated(FirstWith(g, n).value, MAX_BYTES))
  {
    RankedLines(n, g);
    KeptIsARankedPrefix(n, g);
    ResultAt(n, g, n);
    var r := Ranked(n, g);
    var i :| 0 <= i < |r| && r[i].number == n;
    assert i == 0;
  }

  // match_truncated is set exactly when some line number lost text.
  lemma FlagIsExact(n: nat, g: seq<Line>)
    ensures Bounded(n, g).1 <==> exists m :: FirstWith(Bounded(n, g).0, m) != FirstWith(g, m)
  {
    if Bounded(n, g).1 {
      var m := FlagMarksALoss(n, g);
    } else {
      forall m
        ensures FirstWith(Bounded(n, g).0, m) == FirstWith(g, m)
      {
        UnflaggedLosesNothing(n, g, m);
      }
    }
  }

  lemma FlagMarksALoss(n: nat, g: seq<Line>) returns (m: nat)
    requires Bounded(n, g).1
    ensures FirstWith(Bounded(n, g).0, m) != FirstWith(g, m)
  {
    var r, kept := Ranked(n, g), Budget(Shortened(Ranked(n, g)), MAX_BYTES).0;
    RankedLines(n, g);
    KeptIsARankedPrefix(n, g);
    var i: nat;
    if |kept| < |r| {
      i := |kept|;
    } else {
      i :| i < |kept| && kept[i].text != r[i].text;
    }
    m := r[i].number;
    ResultAt(n, g, m);
  }

  lemma UnflaggedLosesNothing(n: nat, g: seq<Line>, m: nat)
    requires !Bounded(n, g).1
    ensures FirstWith(Bounded(n, g).0, m) == FirstWith(g, m)
  {
    KeptIsARankedPrefix(n, g);
    ResultAt(n, g, m);
  }

  lemma BytesOfAllButLast(s: seq<Line>)
    requires |s| > 1
    ensures TotalBytes(s[..|s| - 1]) == |s[0].text| + TotalBytes(s[1..][..|s| - 2])
  {
    assert s[..|s| - 1][1..] == s[1..][..|s| - 2];
  }

  // The budget loses something exactly when the lines exceed it, or when the
  // lines before the last one already use it up.
  lemma {:induction false} BudgetLosesExactly(s: seq<Line>, remaining: nat)
    ensures Budget(s, remaining).1 <==>
            s != [] && (TotalBytes(s) > remaining || TotalBytes(s[..|s| - 1]) >= remaining)
  {
    if s != [] && 0 < remaining && |s[0].text| <= remaining {
      BudgetLosesExactly(s[1..], remaining - |s[0].text|);
      if |s| > 1 {
        BytesOfAllButLast(s);
      } else {
        assert s[1..] == [] && s[..0] == [];
      }
    }
  }

  // The distinct lines, farthest from the match last, exceed a limit.
  predicate TooMuch(ranked: seq<Line>) {
    || |ranked| > 200
    || (ranked != [] && (TotalBytes(ranked) > 65536 || TotalBytes(ranked[..|ranked| - 1]) >= 65536))
  }

  lemma FlagMeansTooMuch(n: nat, g: seq<Line>)
    ensures Bounded(n, g).1 <==> TooMuch(Ranked(n, g))
  {
    BudgetLosesExactly(Shortened(Ranked(n, g)), MAX_BYTES);
  }

  // Every gathered line is kept whole exactly when the distinct lines fit the
  // limits and no two gathered lines with one number differ.
  lemma NothingLostExactly(n: nat, g: seq<Line>)
    ensures (forall l :: l in g ==> l in Bounded(n, g).0) <==> !TooMuch(Ranked(n, g)) && OnePerNumber(g)
  {
    var out := Bounded(n, g).0;
    FlagMeansTooMuch(n, g);
    ResultHoldsTheKept(n, g);
    FlagIsExact(n, g);
    if forall l :: l in g ==> l in out {
      forall m
        ensures FirstWith(out, m) == FirstWith(g, m)
      {
        ResultAt(n, g, m);
        FirstIsAnElement(g, m);
        FirstIsAnElement(out, m);
      }
    }
    if !Bounded(n, g).1 && OnePerNumber(g) {
      forall l | l in g
        ensures l in out
      {
        OnlyOneIsFirst(g, l);
        FirstIsAnElement(out, l.number);
      }
    }
  }

  // The flag alone does not tell: a second text for a line number is dropped
  // without setting it.
  lemma DuplicateIsDroppedUnflagged()
    ensures var g := [Line(1, [97]), Line(1, [98])];
            !Bounded(1, g).1 && g[1] !in Bounded(1, g).0
  {
    var g := [Line(1, [97]), Line(1, [98])];
    var once := [g[0]];
    assert g[1..] == [g[1]] && g[1..][1..] == [] && g[2..] == [];
    assert StableSort(ByNumber(), g[1..]) == [g[1]];
    assert StableSort(ByNumber(), g) == g;
    assert [g[0]] + g[2..] == once;
    assert Dedup(g) == once;
    assert once[1..] == [];
    assert Ranked(1, g) == once;
    assert Budget(once, MAX_BYTES) == (once, false);
    assert StableSort(ByNumber(), once) == once;
  }

  // Lines gathered for a match: the context, and the hit's own text for the
  // matched line when the context does not give it.
  lemma {:induction false} GatheredFirsts(n: nat, context: seq<Line>, text: Option<Text>, m: nat)
    ensures FirstWith(Gathered(n, context, text), m)
         == if m == n && FirstWith(context, n).None? then text else FirstWith(context, m)
  {
    if FirstWith(context, n).None? && text.Some? {
      AppendedFirst(context, Line(n, text.value), m);
    }
  }

  lemma {:induction false} AppendedFirst(s: seq<Line>, x: Line, m: nat)
    ensures FirstWith(s + [x], m)
         == if FirstWith(s, m).Some? then FirstWith(s, m) else if x.number == m then Some(x.text) else None
  {
    if s != [] {
      assert (s + [x])[1..] == s[1..] + [x];
      AppendedFirst(s[1..], x, m);
    }
  }

  // ----- the lines a preview shows -----

  datatype Shown = Shown(number: nat, text: Option<Text>)

  function TextOf(l: Shown): Text {
    if l.text.Some? then l.text.value else []
  }

  function ShownBytes(s: seq<Shown>): nat {
    if s == [] then 0 else |TextOf(s[0])| + ShownBytes(s[1..])
  }

  // The lines of all chunks; a chunk without lines is passed over.
  function Flattened(chunks: seq<Option<seq<Shown>>>): seq<Shown> {
    if chunks == [] then []
    else (if chunks[0].Some? then chunks[0].value else []) + Flattened(chunks[1..])
  }

  // All lines of all chunks, in order.
  lemma {:induction false} FlattenedIsExact(a: seq<Option<seq<Shown>>>, c: Option<seq<Shown>>)
    ensures Flattened([]) == []
    ensures Flattened(a + [c]) == Flattened(a) + (if c.Some? then c.value else [])
  {
    if a == [] {
      assert a + [c] == [c] && [c][1..] == [];
    } else {
      assert (a + [c])[1..] == a[1..] + [c] && (a + [c])[0] == a[0];
      FlattenedIsExact(a[1..], c);
      Joined(if a[0].Some? then a[0].value else [], Flattened(a[1..]), if c.Some? then c.value else []);
    }
  }

  lemma Joined(a: seq<Shown>, b: seq<Shown>, c: seq<Shown>)
    ensures a + (b + c) == (a + b) + c
  {
  }

  function Preview(lines: seq<Shown>, shown: nat, used: nat): (seq<Shown>, bool)
    requires used <= MAX_BYTES
    decreases |lines|
  {
    if lines == [] then ([], false)
    else if shown >= MAX_LINES then ([], true)
    else if used + |TextOf(lines[0])| > MAX_BYTES then
      var prefix := Truncated(TextOf(lines[0]), MAX_BYTES - used);
      (if prefix == [] then [] else [Shown(lines[0].number, Some(prefix))], true)
    else
      var (rest, cut) := Preview(lines[1..], shown + 1, used + |TextOf(lines[0])|);
      ([lines[0]] + rest, cut)
  }

  // What is shown in the end when `rest` follows the lines shown so far.
  function Whole(shown: seq<Shown>, rest: seq<Shown>, used: nat): (seq<Shown>, bool)
    requires used <= MAX_BYTES
  {
    var (more, cut) := Preview(rest, |shown|, used);
    (shown + more, cut)
  }

  method BoundedPreview(chunks: seq<Option<seq<Shown>>>, matchTruncated: bool, dataTruncated: bool)
    returns (lines: seq<Shown>, truncated: bool)
    ensures lines == Preview(Flattened(chunks), 0, 0).0
    ensures truncated == (matchTruncated || dataTruncated || Preview(Flattened(chunks), 0, 0).1)
  {
    var cut;
    lines, cut := ShowChunks(chunks);
    truncated := matchTruncated || dataTruncated || cut;
    assert [] + Preview(Flattened(chunks), 0, 0).0 == Preview(Flattened(chunks), 0, 0).0;
  }

  // The outer loop over the chunks.
  method ShowChunks(chunks: seq<Option<seq<Shown>>>) returns (lines: seq<Shown>, cut: bool)
    ensures (lines, cut) == Whole([], Flattened(chunks), 0)
  {
    lines, cut := [], false;
    var used: nat := 0;
    ghost var whole := Whole([], Flattened(chunks), 0);
    assert chunks[0..] == chunks;
    var i := 0;
    while i < |chunks|
      invariant 0 <= i <= |chunks| && used <= MAX_BYTES && !cut
      invariant Whole(lines, Flattened(chunks[i..]), used) == whole
    {
      FlattenedStep(chunks, i);
      if chunks[i].Some? {
        lines, used, cut := ShowLines(chunks[i].value, lines, used, Flattened(chunks[i + 1..]));
        if cut { return; }
      }
      i := i + 1;
    }
    NothingMore(lines, used);
  }

  lemma NothingMore(lines: seq<Shown>, used: nat)
    requires used <= MAX_BYTES
    ensures Whole(lines, Flattened([]), used) == (lines, false)
  {
    assert lines + [] == lines;
  }

  lemma FlattenedStep(chunks: seq<Option<seq<Shown>>>, i: nat)
    requires i < |chunks|
    ensures chunks[i].Some? ==> Flattened(chunks[i..]) == chunks[i].value + Flattened(chunks[i + 1..])
    ensures chunks[i].None? ==> Flattened(chunks[i..]) == Flattened(chunks[i + 1..])
  {
    assert chunks[i..][1..] == chunks[i + 1..];
  }

  // The inner loop over the lines of one chunk; `later` are those behind it.
  method ShowLines(c: seq<Shown>, shown: seq<Shown>, used: nat, ghost later: seq<Shown>)
    returns (lines: seq<Shown>, total: nat, cut: bool)
    requires used <= MAX_BYTES
    ensures total <= MAX_BYTES
    ensures !cut ==> Whole(lines, later, total) == Whole(shown, c + later, used)
    ensures cut ==> Whole(shown, c + later, used) == (lines, true)
  {
    lines, total, cut := shown, used, false;
    var j := 0;
    assert c[0..] == c;
    while j < |c|
      invariant 0 <= j <= |c| && total <= MAX_BYTES && !cut
      invariant Whole(lines, c[j..] + later, total) == Whole(shown, c + later, used)
    {
      ghost var rest := c[j..] + later;
      assert rest[1..] == c[j + 1..] + later;
      ShowNext(lines, rest, total);
      if |lines| >= MAX_LINES {
        return lines, total, true;
      }
      var text := TextOf(c[j]);
      if total + |text| > MAX_BYTES {
        var prefix := TruncateUtf8(text, MAX_BYTES - total);
        if prefix != [] { lines := lines + [Shown(c[j].number, Some(prefix))]; }
        return lines, total, true;
      }
      total := total + |text|;
      lines := lines + [c[j]];
      j := j + 1;
    }
    assert c[j..] == [] && [] + later == later;
  }

  lemma ShowNext(shown: seq<Shown>, rest: seq<Shown>, used: nat)
    requires rest != [] && used <= MAX_BYTES
    ensures var text := TextOf(rest[0]);
            if |shown| >= MAX_LINES then Whole(shown, rest, used) == (shown, true)
            else if used + |text| > MAX_BYTES then
              var prefix := Truncated(text, MAX_BYTES - used);
              Whole(shown, rest, used)
                == (if prefix == [] then shown else shown + [Shown(rest[0].number, Some(prefix))], true)
            else Whole(shown, rest, used) == Whole(shown + [rest[0]], rest[1..], used + |text|)
  {
    assert shown + [] == shown;
    if |shown| < MAX_LINES && used + |TextOf(rest[0])| <= MAX_BYTES {
      var more := Preview(rest[1..], |shown| + 1, used + |TextOf(rest[0])|).0;
      assert shown + ([rest[0]] + more) == (shown + [rest[0]]) + more;
    }
  }

  ghost predicate ShowsAPrefix(lines: seq<Shown>, out: seq<Shown>) {
    && |out| <= |lines|
    && (forall i :: 0 <= i < |out| - 1 ==> out[i] == lines[i])
    && (out != [] ==> var last := |out| - 1;
          out[last].number == lines[last].number && TextOf(out[last]) <= TextOf(lines[last]))
  }

  lemma ShowFirst(lines: seq<Shown>, out: seq<Shown>)
    requires lines != [] && ShowsAPrefix(lines[1..], out)
    ensures ShowsAPrefix(lines, [lines[0]] + out)
    ensures ShownBytes([lines[0]] + out) == |TextOf(lines[0])| + ShownBytes(out)
  {
    assert ([lines[0]] + out)[1..] == out;
    assert forall i :: 0 < i < |lines| ==> lines[i] == lines[1..][i - 1];
  }

  lemma ShowCut(lines: seq<Shown>, prefix: Text)
    requires lines != [] && prefix <= TextOf(lines[0])
    ensures var out := [Shown(lines[0].number, Some(prefix))]; ShowsAPrefix(lines, out) && ShownBytes(out) == |prefix|
  {
  }

  // A preview keeps both limits and shows the lines from the first on, the last
  // one cut at a character boundary.
  lemma {:induction false} PreviewIsBounded(lines: seq<Shown>, shown: nat, used: nat)
    requires shown <= MAX_LINES && used <= MAX_BYTES
    ensures var out := Preview(lines, shown, used).0;
            && shown + |out| <= MAX_LINES && used + ShownBytes(out) <= MAX_BYTES
            && ShowsAPrefix(lines, out)
    decreases |lines|
  {
    if lines == [] || shown >= MAX_LINES {
      return;
    }
    var text := TextOf(lines[0]);
    if used + |text| > MAX_BYTES {
      ShowCut(lines, Truncated(text, MAX_BYTES - used));
    } else {
      PreviewIsBounded(lines[1..], shown + 1, used + |text|);
      ShowFirst(lines, Preview(lines[1..], shown + 1, used + |text|).0);
    }
  }

  // It reports a cut exactly when the lines do not fit the limits, and without a
  // cut it shows them all.
  lemma {:induction false} PreviewIsExact(lines: seq<Shown>, shown: nat, used: nat)
    requires shown <= MAX_LINES && used <= MAX_BYTES
    ensures var (out, cut) := Preview(lines, shown, used);
            && (!cut <==> out == lines)
            && (!cut <==> shown + |lines| <= MAX_LINES && used + ShownBytes(lines) <= MAX_BYTES)
    decreases |lines|
  {
    if lines != [] && shown < MAX_LINES {
      var text := TextOf(lines[0]);
      if used + |text| <= MAX_BYTES {
        PreviewIsExact(lines[1..], shown + 1, used + |text|);
        var out, rest := Preview(lines, shown, used).0, Preview(lines[1..], shown + 1, used + |text|).0;
        assert out == [lines[0]] + rest && out[1..] == rest;
        assert lines == [lines[0]] + lines[1..];
      } else {
        assert Preview(lines, shown, used).0 != lines;
      }
    }
  }

  // A preview that is cut shows as much as fits: 200 lines, or whole lines up to one
  // that does not fit and what fits of that one.
  lemma {:induction false} PreviewShowsMost(lines: seq<Shown>, shown: nat, used: nat) returns (n: nat)
    requires shown <= MAX_LINES && used <= MAX_BYTES && Preview(lines, shown, used).1
    ensures n < |lines| && used + ShownBytes(lines[..n]) <= MAX_BYTES
    ensures var out, left := Preview(lines, shown, used).0, MAX_BYTES - used - ShownBytes(lines[..n]);
            || (shown + n == 200 && out == lines[..n])
            || (|TextOf(lines[n])| > left
                && out == lines[..n] + (if Truncated(TextOf(lines[n]), left) == [] then []
                                        else [Shown(lines[n].number, Some(Truncated(TextOf(lines[n]), left)))]))
    decreases |lines|
  {
    var text := TextOf(lines[0]);
    if shown < MAX_LINES && used + |text| <= MAX_BYTES {
      n := PreviewShowsMost(lines[1..], shown + 1, used + |text|);
      n := n + 1;
      assert lines[..n] == [lines[0]] + lines[1..][..n - 1];
      assert lines[..n][1..] == lines[1..][..n - 1];
    } else {
      n := 0;
      assert lines[..0] == [];
    }
  }

  function AsShown(s: seq<Line>): seq<Shown> {
    seq(|s|, i requires 0 <= i < |s| => Shown(s[i].number, Some(s[i].text)))
  }

  lemma {:induction false} ShownBytesOfLines(s: seq<Line>)
    ensures ShownBytes(AsShown(s)) == TotalBytes(s)
  {
    if s != [] {
      ShownBytesOfLines(s[1..]);
      assert AsShown(s)[1..] == AsShown(s[1..]);
    }
  }

  // The match view shows the lines kept with the handle as they are.
  lemma MatchViewIsVerbatim(n: nat, g: seq<Line>)
    ensures var (lines, _) := Bounded(n, g);
            Preview(Flattened([Some(AsShown(lines))]), 0, 0) == (AsShown(lines), false)
  {
    var lines := Bounded(n, g).0;
    KeptIsARankedPrefix(n, g);
    ResultHoldsTheKept(n, g);
    ShownBytesOfLines(lines);
    var chunks := [Some(AsShown(lines))];
    assert chunks[1..] == [];
    assert Flattened(chunks) == AsShown(lines);
    PreviewIsExact(AsShown(lines), 0, 0);
  }
}
