// The handles by which the console lets a browser ask for previews: a bounded
// map whose oldest handles make room for those of the next response.
module PreviewHandles {
  import opened Bytes
  import opened PreviewContext
  import opened Results
  import opened Sets

  const MAX_HANDLES: nat := 512
  const TTL_MS: nat := 300_000

  datatype Target = Target(
    created: nat,
    host: Text,
    sourceHost: Option<Text>,
    path: Text,
    lineNumber: nat,
    lines: seq<Line>,
    truncated: bool)

  datatype Entry = Entry(
    isFile: bool,
    path: Option<Text>,
    host: Option<Text>,
    sourceHost: Option<Text>,
    lineNumber: Option<nat>,
    context: seq<Line>,
    text: Option<Text>,
    previewId: Option<Text>,
    unavailable: bool)

  // ----- handle ids -----

  function HexDigit(d: nat): (b: Byte)
    requires d < 16
    ensures b == "0123456789abcdef"[d] as int
  {
    if d < 10 then 48 + d else 87 + d
  }

  // Lower-case hexadecimal without leading zeros.
  function Hex(n: nat): (s: Text)
    ensures s != []
  {
    if n < 16 then [HexDigit(n)] else Hex(n / 16) + [HexDigit(n % 16)]
  }

  // "p", the clock in milliseconds and the process counter, with no separator.
  function Id(ms: nat, count: nat): Text {
    [112] + Hex(ms) + Hex(count)
  }

  // Clock readings of eleven hexadecimal digits: November 2004 until the year 2527.
  predicate Wide(ms: nat) {
    0x100_0000_0000 <= ms < 0x1000_0000_0000
  }

  lemma {:induction false} HexIsInjective(a: nat, b: nat)
    requires Hex(a) == Hex(b)
    ensures a == b
  {
    var s, t := Hex(a), Hex(b);
    if a < 16 && b < 16 {
      assert s[0] == HexDigit(a) && t[0] == HexDigit(b);
    } else if a >= 16 && b >= 16 {
      assert s[..|s| - 1] == Hex(a / 16) && t[..|t| - 1] == Hex(b / 16);
      assert s[|s| - 1] == HexDigit(a % 16) && t[|t| - 1] == HexDigit(b % 16);
      HexIsInjective(a / 16, b / 16);
    }
  }

  lemma {:induction false} WideReadingsHaveElevenDigits(ms: nat, digits: nat)
    requires 1 <= digits <= 11
    requires Power16(digits - 1) <= ms < Power16(digits)
    ensures |Hex(ms)| == digits
  {
    if digits > 1 {
      assert ms >= 16;
      WideReadingsHaveElevenDigits(ms / 16, digits - 1);
    }
  }

  function Power16(k: nat): nat {
    if k == 0 then 1 else 16 * Power16(k - 1)
  }

  lemma WideHex(ms: nat)
    requires Wide(ms)
    ensures |Hex(ms)| == 11
  {
    assert Power16(10) == 0x100_0000_0000 && Power16(11) == 0x1000_0000_0000;
    WideReadingsHaveElevenDigits(ms, 11);
  }

  // Two ids with different counters differ while the clock keeps its width.
  lemma IdsDiffer(ms: nat, count: nat, ms': nat, count': nat)
    requires Wide(ms) && Wide(ms') && count != count'
    ensures Id(ms, count) != Id(ms', count')
  {
    WideHex(ms);
    WideHex(ms');
    if Id(ms, count) == Id(ms', count') {
      assert Id(ms, count)[12..] == Hex(count) && Id(ms', count')[12..] == Hex(count');
      HexIsInjective(count, count');
    }
  }

  // Without the width the concatenation is ambiguous.
  lemma NarrowReadingsCollide()
    ensures Id(0x1, 0x23) == Id(0x12, 0x3)
  {
    assert Hex(0x23) == Hex(2) + Hex(3) && Hex(0x12) == Hex(1) + Hex(2);
  }

  lemma {:induction false} CommonPrefix(p: Text, a: Text, b: Text)
    requires Below(a, b)
    ensures Below(p + a, p + b)
  {
    if p == [] {
      assert p + a == a && p + b == b;
    } else {
      CommonPrefix(p[1..], a, b);
      assert (p + a)[1..] == p[1..] + a && (p + b)[1..] == p[1..] + b;
    }
  }

  lemma {:induction false} HexSortsByValue(a: nat, b: nat, x: Text, y: Text)
    requires a < b && |Hex(a)| == |Hex(b)|
    ensures Below(Hex(a) + x, Hex(b) + y)
  {
    if a >= 16 {
      var p, q := Hex(a / 16), Hex(b / 16);
      var u, v := [HexDigit(a % 16)] + x, [HexDigit(b % 16)] + y;
      assert Hex(a) + x == p + u && Hex(b) + y == q + v;
      if a / 16 < b / 16 {
        HexSortsByValue(a / 16, b / 16, u, v);
      } else {
        assert a / 16 == b / 16 && a % 16 < b % 16;
        CommonPrefix(p, u, v);
      }
    }
  }

  // The map's smallest key was issued no later, in milliseconds, than any other:
  // removing the smallest key first removes the oldest handles first.
  lemma SmallerIdsAreOlder(ms: nat, count: nat, ms': nat, count': nat)
    requires Wide(ms) && Wide(ms') && Below(Id(ms, count), Id(ms', count'))
    ensures ms <= ms'
  {
    if ms' < ms {
      EarlierIdsAreSmaller(ms', count', ms, count);
      BelowTrichotomy(Id(ms, count), Id(ms', count'));
    }
  }

  lemma EarlierIdsAreSmaller(ms: nat, count: nat, ms': nat, count': nat)
    requires Wide(ms) && Wide(ms') && ms < ms'
    ensures Below(Id(ms, count), Id(ms', count'))
  {
    WideHex(ms);
    WideHex(ms');
    HexSortsByValue(ms, ms', Hex(count), Hex(count'));
    PrefixedBelow(Hex(ms), Hex(count), Hex(ms'), Hex(count'));
  }

  lemma PrefixedBelow(a: Text, x: Text, b: Text, y: Text)
    requires Below(a + x, b + y)
    ensures Below([112] + a + x, [112] + b + y)
  {
    CommonPrefix([112], a + x, b + y);
    assert [112] + (a + x) == [112] + a + x && [112] + (b + y) == [112] + b + y;
  }

  ghost predicate IsIssued(k: Text, count: nat) {
    exists ms: nat, c: nat :: Wide(ms) && c < count && k == Id(ms, c)
  }

  ghost predicate IssuedBefore(keys: set<Text>, count: nat) {
    forall k :: k in keys ==> IsIssued(k, count)
  }

  // ----- one response -----

  // `clock` holds the reading taken when each entry is reached.
  datatype Request = Request(entries: seq<Entry>, fallback: Option<Text>, filesOnly: bool, now: nat, clock: seq<nat>)

  ghost predicate Timely(r: Request) {
    |r.clock| == |r.entries| && forall j :: 0 <= j < |r.clock| ==> Wide(r.clock[j])
  }

  function HostOf(e: Entry, fallback: Option<Text>): Option<Text> {
    if e.host.Some? then e.host else fallback
  }

  predicate Eligible(r: Request, j: nat)
    requires j < |r.entries|
  {
    var e := r.entries[j];
    (!r.filesOnly || e.isFile) && e.path.Some? && HostOf(e, r.fallback).Some?
  }

  // Eligible entries before position j.
  function EligibleBefore(r: Request, j: nat): (n: nat)
    requires j <= |r.entries|
    ensures n <= j
  {
    if j == 0 then 0 else EligibleBefore(r, j - 1) + (if Eligible(r, j - 1) then 1 else 0)
  }

  // An entry that can have a handle: a file where only files are asked for, with a
  // path, and with a host of its own or the response's.
  predicate CanHave(r: Request, j: nat)
    requires j < |r.entries|
  {
    && (r.filesOnly ==> r.entries[j].isFile) && r.entries[j].path.Some?
    && (r.entries[j].host.Some? || r.fallback.Some?)
  }

  lemma {:induction false} EligibleAreCounted(r: Request, j: nat)
    requires j <= |r.entries|
    ensures forall k :: 0 <= k < |r.entries| ==> (Eligible(r, k) <==> CanHave(r, k))
    ensures EligibleBefore(r, j) == |set k: nat | k < j && CanHave(r, k)|
  {
    if j > 0 {
      EligibleAreCounted(r, j - 1);
      var before := set k: nat | k < j - 1 && CanHave(r, k);
      assert (set k: nat | k < j && CanHave(r, k)) == before + (if CanHave(r, j - 1) then {j - 1} else {});
    }
    var counted := set k: nat | k < j && CanHave(r, k);
    NoneBelow(counted, j);
  }

  lemma NoneBelow(s: set<nat>, j: nat)
    requires forall k :: k in s ==> k < j
    ensures j == 0 ==> s == {}
  {
  }

  lemma {:induction false} LaterCountsMore(r: Request, j: nat, k: nat)
    requires j <= k <= |r.entries|
    ensures EligibleBefore(r, j) <= EligibleBefore(r, k)
  {
    if j < k { LaterCountsMore(r, j, k - 1); }
  }

  function AtMost(a: nat, b: nat): nat {
    if a < b then a else b
  }

  predicate Served(r: Request, j: nat)
    requires j < |r.entries|
  {
    Eligible(r, j) && EligibleBefore(r, j) < 512
  }

  // Entries before position j that get a handle.
  function ServedBefore(r: Request, j: nat): nat
    requires j <= |r.entries|
  {
    AtMost(EligibleBefore(r, j), 512)
  }

  lemma ServedStep(r: Request, i: nat)
    requires i < |r.entries|
    ensures ServedBefore(r, i + 1) == ServedBefore(r, i) + (if Served(r, i) then 1 else 0)
    ensures Eligible(r, i) ==> (Served(r, i) <==> ServedBefore(r, i) < ServedBefore(r, |r.entries|))
  {
    LaterCountsMore(r, i + 1, |r.entries|);
  }

  lemma LaterServesMore(r: Request, i: nat, j: nat)
    requires i < j <= |r.entries| && Served(r, i)
    ensures ServedBefore(r, i) < ServedBefore(r, j)
  {
    LaterCountsMore(r, i + 1, j);
  }

  function LineOf(e: Entry): nat {
    if e.lineNumber.Some? && e.lineNumber.value >= 1 then e.lineNumber.value else 1
  }

  // The id made for each entry that gets one.
  function Ids(r: Request, first: nat): (ids: seq<Text>)
    requires |r.entries| == |r.clock|
    ensures |ids| == |r.entries|
  {
    seq(|r.entries|, j requires 0 <= j < |r.entries| => Id(r.clock[j], first + ServedBefore(r, j)))
  }

  // The ids of one response are new and differ.
  ghost predicate FreshIds(r: Request, ids: seq<Text>, keys: set<Text>) {
    && |ids| == |r.entries|
    && (forall j :: 0 <= j < |ids| && Served(r, j) ==> ids[j] !in keys)
    && (forall i, j :: 0 <= i < j < |ids| && Served(r, i) && Served(r, j) ==> ids[i] != ids[j])
  }

  lemma NextIdIsNew(ms: nat, n: nat, count: nat)
    requires Wide(ms) && n >= count
    ensures !IsIssued(Id(ms, n), count)
  {
    if IsIssued(Id(ms, n), count) {
      var ms': nat, c: nat :| Wide(ms') && c < count && Id(ms, n) == Id(ms', c);
      IdsDiffer(ms, n, ms', c);
    }
  }

  lemma IdsAreFresh(r: Request, first: nat, keys: set<Text>)
    requires Timely(r) && IssuedBefore(keys, first)
    ensures FreshIds(r, Ids(r, first), keys)
  {
    var ids := Ids(r, first);
    forall j | 0 <= j < |ids| && Served(r, j)
      ensures ids[j] !in keys
    {
      NextIdIsNew(r.clock[j], first + ServedBefore(r, j), first);
    }
    forall i, j | 0 <= i < j < |ids| && Served(r, i) && Served(r, j)
      ensures ids[i] != ids[j]
    {
      LaterServesMore(r, i, j);
      IdsDiffer(r.clock[i], first + ServedBefore(r, i), r.clock[j], first + ServedBefore(r, j));
    }
  }

  function TargetFor(r: Request, j: nat): Target
    requires j < |r.entries| && Eligible(r, j)
  {
    var e := r.entries[j];
    var (lines, truncated) := Bounded(LineOf(e), Gathered(LineOf(e), e.context, e.text));
    Target(r.now, HostOf(e, r.fallback).value, e.sourceHost, e.path.value, LineOf(e), lines, truncated)
  }

  // The entry as the response shows it.
  function Answer(r: Request, ids: seq<Text>, j: nat): Entry
    requires j < |r.entries| == |ids|
  {
    var e := r.entries[j];
    if !Eligible(r, j) then e
    else if Served(r, j) then e.(previewId := Some(ids[j]), unavailable := false)
    else e.(previewId := None, unavailable := true)
  }

  // A handle leads to the entry's own path and line, on its own host or else the
  // response's, with the lines kept for it.
  ghost predicate LeadsTo(r: Request, e: Entry, t: Target)
    requires e.path.Some? && (e.host.Some? || r.fallback.Some?)
  {
    && t.created == r.now && t.path == e.path.value && t.sourceHost == e.sourceHost
    && t.host == (if e.host.Some? then e.host.value else r.fallback.value)
    && t.lineNumber == (if e.lineNumber.Some? && e.lineNumber.value > 0 then e.lineNumber.value else 1)
    && (t.lines, t.truncated) == Bounded(t.lineNumber, Gathered(t.lineNumber, e.context, e.text))
  }

  // The first 512 entries that can have a handle get one that is in the map and
  // leads to them; the others of these are marked; the rest stay as they are.
  ghost predicate IsServed(r: Request, j: nat, answer: Entry, handles: map<Text, Target>)
    requires j < |r.entries|
  {
    var e := r.entries[j];
    if !CanHave(r, j) then answer == e
    else if |set k: nat | k < j && CanHave(r, k)| >= 512 then
      answer == e.(previewId := None, unavailable := true)
    else
      && answer.previewId.Some? && answer == e.(previewId := answer.previewId, unavailable := false)
      && answer.previewId.value in handles && LeadsTo(r, e, handles[answer.previewId.value])
  }

  lemma AnswerIsServed(r: Request, ids: seq<Text>, h: map<Text, Target>, j: nat)
    requires j < |r.entries| == |ids| && Holds(r, ids, h, j)
    ensures IsServed(r, j, Answer(r, ids, j), h)
  {
    EligibleAreCounted(r, j);
  }

  // The handle map after the first i entries.
  function Issued(r: Request, ids: seq<Text>, h: map<Text, Target>, i: nat): map<Text, Target>
    requires i <= |r.entries| == |ids|
  {
    if i == 0 then h
    else if Served(r, i - 1) then Issued(r, ids, h, i - 1)[ids[i - 1] := TargetFor(r, i - 1)]
    else Issued(r, ids, h, i - 1)
  }

  ghost predicate Holds(r: Request, ids: seq<Text>, h: map<Text, Target>, j: nat)
    requires j < |r.entries| == |ids|
  {
    Served(r, j) ==> ids[j] in h && h[ids[j]] == TargetFor(r, j)
  }

  // Earlier handles stay, and any other key is the id of a served entry.
  lemma {:induction false} IssuedKeys(r: Request, ids: seq<Text>, h: map<Text, Target>, i: nat, k: Text)
    requires FreshIds(r, ids, h.Keys) && i <= |ids|
    ensures var m := Issued(r, ids, h, i);
            && (k in h ==> k in m && m[k] == h[k])
            && (k in m && k !in h ==> exists j :: 0 <= j < i && Served(r, j) && k == ids[j])
  {
    if i > 0 { IssuedKeys(r, ids, h, i - 1, k); }
  }

  lemma {:induction false} IssuedCount(r: Request, ids: seq<Text>, h: map<Text, Target>, i: nat)
    requires FreshIds(r, ids, h.Keys) && i <= |ids|
    ensures |Issued(r, ids, h, i)| == |h| + ServedBefore(r, i)
  {
    if i > 0 {
      IssuedCount(r, ids, h, i - 1);
      IssuedKeys(r, ids, h, i - 1, ids[i - 1]);
      if Served(r, i - 1) {
        assert Issued(r, ids, h, i).Keys == Issued(r, ids, h, i - 1).Keys + {ids[i - 1]};
      }
    }
  }

  // No handle of the response is overwritten by a later one.
  lemma {:induction false} IssuedHolds(r: Request, ids: seq<Text>, h: map<Text, Target>, i: nat, j: nat)
    requires FreshIds(r, ids, h.Keys) && j < i <= |ids|
    ensures Holds(r, ids, Issued(r, ids, h, i), j)
  {
    if j < i - 1 { IssuedHolds(r, ids, h, i - 1, j); }
  }

  lemma IssuedIdsAreCounted(r: Request, first: nat, h: map<Text, Target>)
    requires Timely(r) && IssuedBefore(h.Keys, first)
    ensures IssuedBefore(Issued(r, Ids(r, first), h, |r.entries|).Keys,
              first + ServedBefore(r, |r.entries|))
  {
    var ids := Ids(r, first);
    var after := first + ServedBefore(r, |r.entries|);
    IdsAreFresh(r, first, h.Keys);
    forall k | k in Issued(r, ids, h, |r.entries|)
      ensures IsIssued(k, after)
    {
      IssuedKeys(r, ids, h, |r.entries|, k);
      if k in h {
        LaterCount(k, first, after);
      } else {
        var j :| 0 <= j < |r.entries| && Served(r, j) && k == ids[j];
        LaterServesMore(r, j, |r.entries|);
        OwnIdIsIssued(r.clock[j], first + ServedBefore(r, j), after);
      }
    }
  }

  // What the map holds once a response is complete.
  lemma ResponseIsHeld(r: Request, first: nat, kept: map<Text, Target>)
    requires Timely(r) && IssuedBefore(kept.Keys, first)
    ensures var ids := Ids(r, first);
            var m := Issued(r, ids, kept, |r.entries|);
            && FreshIds(r, ids, kept.Keys)
            && |m| == |kept| + ServedBefore(r, |r.entries|)
            && IssuedBefore(m.Keys, first + ServedBefore(r, |r.entries|))
            && forall j :: 0 <= j < |r.entries| ==> Holds(r, ids, m, j)
  {
    var ids := Ids(r, first);
    IdsAreFresh(r, first, kept.Keys);
    IssuedCount(r, ids, kept, |r.entries|);
    IssuedIdsAreCounted(r, first, kept);
    forall j | 0 <= j < |r.entries|
      ensures Holds(r, ids, Issued(r, ids, kept, |r.entries|), j)
    {
      IssuedHolds(r, ids, kept, |r.entries|, j);
    }
  }

  lemma OwnIdIsIssued(ms: nat, n: nat, count: nat)
    requires Wide(ms) && n < count
    ensures IsIssued(Id(ms, n), count)
  {
  }

  lemma LaterCount(k: Text, count: nat, after: nat)
    requires IsIssued(k, count) && count <= after
    ensures IsIssued(k, after)
  {
    var ms: nat, c: nat :| Wide(ms) && c < count && k == Id(ms, c);
  }

  function Unexpired(h: map<Text, Target>, now: nat): map<Text, Target> {
    map k | k in h && now - h[k].created < TTL_MS :: h[k]
  }

  // `h` trimmed to the room the response needs, with the response's handles added.
  ghost predicate Replaced(r: Request, ids: seq<Text>, h: map<Text, Target>, h': map<Text, Target>)
    requires |r.entries| == |ids|
  {
    var room := MAX_HANDLES - ServedBefore(r, |r.entries|);
    exists kept :: Trimmed(h, kept, room) && h' == Issued(r, ids, kept, |r.entries|)
  }

  lemma TrimmedIsReplaced(r: Request, ids: seq<Text>, h: map<Text, Target>, kept: map<Text, Target>)
    requires |r.entries| == |ids| && Trimmed(h, kept, MAX_HANDLES - ServedBefore(r, |r.entries|))
    ensures Replaced(r, ids, h, Issued(r, ids, kept, |r.entries|))
  {
  }

  lemma RoomIsLeft(h: map<Text, Target>, kept: map<Text, Target>, room: nat)
    requires Trimmed(h, kept, room)
    ensures |kept| <= room
  {
  }

  class Previews {
    var handles: map<Text, Target>
    var counter: nat

    ghost predicate Valid()
      reads this
    {
      |handles| <= 512 && IssuedBefore(handles.Keys, counter)
    }

    constructor ()
      ensures Valid() && handles == map[]
    {
      handles := map[];
      counter := 0;
    }

    method Prune(now: nat)
      requires Valid()
      modifies this`handles
      ensures Valid() && handles == Unexpired(old(handles), now)
    {
      SubsetIsSmaller(Unexpired(handles, now).Keys, handles.Keys);
      handles := Unexpired(handles, now);
    }

    // A handle is found while it is kept and younger than five minutes.
    method Take(id: Text, now: nat) returns (t: Option<Target>)
      requires Valid()
      modifies this`handles
      ensures Valid() && handles == Unexpired(old(handles), now)
      ensures t == if id in old(handles) && now - old(handles)[id].created < 300_000
                   then Some(old(handles)[id]) else None
    {
      Prune(now);
      t := if id in handles then Some(handles[id]) else None;
    }

    method MakeRoom(room: nat)
      requires Valid()
      modifies this`handles
      ensures Valid() && Trimmed(old(handles), handles, room)
    {
      while |handles| > room
        invariant Valid() && |handles| <= |old(handles)|
        invariant Trimmed(old(handles), handles, |handles|)
        invariant |handles| < |old(handles)| ==> |handles| >= room
        decreases |handles|
      {
        var least := Least(handles.Keys);
        ghost var before := handles;
        handles := handles - {least};
        assert handles.Keys == before.Keys - {least};
        TrimOneMore(old(handles), before, least);
      }
    }

    // Handles for one response. The eligible entries, up to 512, all get one that
    // is in the map afterwards; those beyond are marked; older handles give way,
    // smallest ids first, and only as many as needed.
    method IssueHandles(r: Request) returns (out: seq<Entry>)
      requires Valid() && Timely(r)
      modifies this
      ensures Valid() && |out| == |r.entries|
      ensures var ids := Ids(r, old(counter));
              && (forall j :: 0 <= j < |out| ==> out[j] == Answer(r, ids, j))
              && (forall j :: 0 <= j < |out| ==> Holds(r, ids, handles, j))
              && Replaced(r, ids, Unexpired(old(handles), r.now), handles)
      ensures forall j :: 0 <= j < |out| ==> IsServed(r, j, out[j], handles)
      ensures counter == old(counter) + ServedBefore(r, |r.entries|)
    {
      Prune(r.now);
      var capacity := ServedBefore(r, |r.entries|);
      MakeRoom(MAX_HANDLES - capacity);
      ghost var first, kept, ids := counter, handles, Ids(r, counter);
      RoomIsLeft(Unexpired(old(handles), r.now), kept, MAX_HANDLES - capacity);
      out := Issue(r, capacity, ids);
      ResponseIsHeld(r, first, kept);
      TrimmedIsReplaced(r, ids, Unexpired(old(handles), r.now), kept);
      forall j | 0 <= j < |out|
        ensures IsServed(r, j, out[j], handles)
      {
        AnswerIsServed(r, ids, handles, j);
      }
    }

    method IssueEntry(r: Request, i: nat, capacity: nat, issued: nat, ghost ids: seq<Text>) returns (answer: Entry)
      requires i < |r.entries| == |r.clock| && issued <= counter && ids == Ids(r, counter - issued)
      requires issued == ServedBefore(r, i) && capacity == ServedBefore(r, |r.entries|)
      modifies this
      ensures Served(r, i) ==> handles == old(handles)[ids[i] := TargetFor(r, i)] && counter == old(counter) + 1
      ensures !Served(r, i) ==> handles == old(handles) && counter == old(counter)
      ensures answer == Answer(r, ids, i)
    {
      ServedStep(r, i);
      answer := r.entries[i];
      if (r.filesOnly && !answer.isFile) || HostOf(answer, r.fallback).None? || answer.path.None? {
        return;
      }
      if issued >= capacity {
        answer := answer.(previewId := None, unavailable := true);
        return;
      }
      var target := TargetOf(r, i);
      var id := Id(r.clock[i], counter);
      counter := counter + 1;
      handles := handles[id := target];
      answer := answer.(previewId := Some(id), unavailable := false);
    }

    // The loop of the source over the entries.
    method Issue(r: Request, capacity: nat, ghost ids: seq<Text>) returns (out: seq<Entry>)
      requires |r.clock| == |r.entries| && ids == Ids(r, counter)
      requires capacity == ServedBefore(r, |r.entries|)
      modifies this
      ensures handles == Issued(r, ids, old(handles), |r.entries|)
      ensures counter == old(counter) + capacity
      ensures |out| == |r.entries| && forall j :: 0 <= j < |out| ==> out[j] == Answer(r, ids, j)
    {
      var first, issued := counter, 0;
      out := [];
      for i := 0 to |r.entries|
        invariant |out| == i && issued == ServedBefore(r, i) && counter == old(counter) + issued
        invariant handles == Issued(r, ids, old(handles), i)
        invariant forall j :: 0 <= j < i ==> out[j] == Answer(r, ids, j)
      {
        ServedStep(r, i);
        var answer := IssueEntry(r, i, capacity, issued, ids);
        out := out + [answer];
        issued := counter - first;
      }
    }
  }

  method TargetOf(r: Request, i: nat) returns (t: Target)
    requires i < |r.entries| && Eligible(r, i)
    ensures t == TargetFor(r, i)
  {
    var e := r.entries[i];
    var lines, truncated := BoundContext(LineOf(e), e.context, e.text);
    t := Target(r.now, HostOf(e, r.fallback).value, e.sourceHost, e.path.value, LineOf(e), lines, truncated);
  }
}
