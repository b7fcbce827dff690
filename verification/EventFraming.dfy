// Incremental framing of the subscription stream. Only LF LF and
// CR LF CR LF end an event, a subset of section 9.2 of the HTML Living Standard.
module EventFraming {
  import opened Bytes
  import opened Results

  const MAX_BUFFER: nat := 4 * 1024 * 1024

  predicate LfLfAt(s: Text, i: nat) {
    i + 2 <= |s| && s[i] == LF && s[i + 1] == LF
  }

  predicate CrLfCrLfAt(s: Text, i: nat) {
    i + 4 <= |s| && s[i] == CR && s[i + 1] == LF && s[i + 2] == CR && s[i + 3] == LF
  }

  predicate EndsAt(s: Text, i: nat) {
    LfLfAt(s, i) || CrLfCrLfAt(s, i)
  }

  // windows(n).position(...): the first index at or after `from`, or the length.
  function FirstLfLf(s: Text, from: nat): (i: nat)
    requires from <= |s|
    ensures from <= i <= |s| && (i < |s| ==> LfLfAt(s, i))
    ensures forall k :: from <= k < i ==> !LfLfAt(s, k)
    decreases |s| - from
  {
    if from == |s| || LfLfAt(s, from) then from else FirstLfLf(s, from + 1)
  }

  function FirstCrLfCrLf(s: Text, from: nat): (i: nat)
    requires from <= |s|
    ensures from <= i <= |s| && (i < |s| ==> CrLfCrLfAt(s, i))
    ensures forall k :: from <= k < i ==> !CrLfCrLfAt(s, k)
    decreases |s| - from
  {
    if from == |s| || CrLfCrLfAt(s, from) then from else FirstCrLfCrLf(s, from + 1)
  }

  // Length of the first complete event with its terminator, 0 when there is none.
  function FirstEvent(s: Text): (n: nat)
    ensures n <= |s|
    ensures n == 0 ==> forall k :: 0 <= k < |s| ==> !EndsAt(s, k)
  {
    var lf, crlf := FirstLfLf(s, 0), FirstCrLfCrLf(s, 0);
    if lf == |s| && crlf == |s| then 0
    else if lf <= crlf then lf + 2
    else crlf + 4
  }

  // The event ends at `end`, and nothing before it is a terminator.
  ghost predicate EarliestEnd(s: Text, end: nat) {
    EndsAt(s, end) && forall k :: 0 <= k < end ==> !EndsAt(s, k)
  }

  // LF LF or CR LF CR LF at this position, in bytes.
  lemma EndsAtIsExact(s: Text, i: nat)
    requires i <= |s|
    ensures EndsAt(s, i) <==> [10, 10] <= s[i..] || [13, 10, 13, 10] <= s[i..]
    ensures LfLfAt(s, i) <==> [10, 10] <= s[i..]
  {
    var t := s[i..];
    assert forall k :: 0 <= k < |t| ==> t[k] == s[i + k];
  }

  lemma FirstEventEnds(s: Text, end: nat)
    requires EarliestEnd(s, end)
    ensures FirstEvent(s) == end + (if LfLfAt(s, end) then 2 else 4)
  {
    var lf, crlf := FirstLfLf(s, 0), FirstCrLfCrLf(s, 0);
    if lf < |s| { assert EndsAt(s, lf); }
    if crlf < |s| { assert EndsAt(s, crlf); }
  }

  lemma FirstEventHasEnd(s: Text) returns (end: nat)
    requires FirstEvent(s) > 0
    ensures EarliestEnd(s, end) && end < FirstEvent(s)
  {
    var lf, crlf := FirstLfLf(s, 0), FirstCrLfCrLf(s, 0);
    end := if lf <= crlf then lf else crlf;
  }

  // One event: a terminator at its very end and none before.
  predicate IsEvent(e: Text) {
    e != [] && FirstEvent(e) == |e|
  }

  function Concat(parts: seq<Text>): Text {
    if parts == [] then [] else parts[0] + Concat(parts[1..])
  }

  // The whole-buffer split: complete events in order, then the rest.
  function Split(s: Text): (seq<Text>, Text)
    decreases |s|
  {
    var n := FirstEvent(s);
    if n == 0 then ([], s)
    else
      var (events, rest) := Split(s[n..]);
      ([s[..n]] + events, rest)
  }

  // A cut of the stream into complete events and an unfinished rest.
  ghost predicate IsSplit(s: Text, events: seq<Text>, rest: Text) {
    && (forall e :: e in events ==> IsEvent(e))
    && FirstEvent(rest) == 0
    && s == Concat(events) + rest
  }

  // ----- an event that is complete stays the first one -----

  lemma FirstEventOfPrefix(s: Text, more: Text)
    requires FirstEvent(s) > 0
    ensures FirstEvent(s + more) == FirstEvent(s)
  {
    var end := FirstEventHasEnd(s);
    var all := s + more;
    forall k | 0 <= k < end
      ensures !EndsAt(all, k)
    {
      assert !EndsAt(s, k);
    }
    assert EarliestEnd(all, end);
    FirstEventEnds(s, end);
    FirstEventEnds(all, end);
  }

  lemma FirstEventIsEvent(s: Text)
    requires FirstEvent(s) > 0
    ensures IsEvent(s[..FirstEvent(s)])
  {
    var end := FirstEventHasEnd(s);
    FirstEventEnds(s, end);
    var e := s[..FirstEvent(s)];
    assert EndsAt(e, end);
    forall k | 0 <= k < end
      ensures !EndsAt(e, k)
    {
      assert !EndsAt(s, k);
    }
    FirstEventEnds(e, end);
  }

  lemma SplitFirst(s: Text, e: Text, tail: Text)
    requires IsEvent(e) && s == e + tail
    ensures Split(s) == ([e] + Split(tail).0, Split(tail).1)
  {
    FirstEventOfPrefix(e, tail);
    assert s[..|e|] == e && s[|e|..] == tail;
  }

  lemma PutFirst(s: Text, e: Text, tail: Text, events: seq<Text>, rest: Text)
    requires IsEvent(e) && s == e + tail && IsSplit(tail, events, rest)
    ensures IsSplit(s, [e] + events, rest)
  {
    assert ([e] + events)[1..] == events;
    assert e + (Concat(events) + rest) == (e + Concat(events)) + rest;
  }

  lemma {:induction false} SplitIsSplit(s: Text)
    ensures IsSplit(s, Split(s).0, Split(s).1)
    decreases |s|
  {
    var n := FirstEvent(s);
    if n > 0 {
      FirstEventIsEvent(s);
      SplitIsSplit(s[n..]);
      PutFirst(s, s[..n], s[n..], Split(s[n..]).0, Split(s[n..]).1);
    } else {
      assert Split(s) == ([], s);
    }
  }

  // There is only one such cut.
  lemma {:induction false} SplitIsUnique(s: Text, events: seq<Text>, rest: Text)
    requires IsSplit(s, events, rest)
    ensures Split(s) == (events, rest)
    decreases |events|
  {
    if events == [] {
      assert s == rest;
    } else {
      var tail := Concat(events[1..]) + rest;
      assert s == events[0] + tail;
      SplitIsUnique(tail, events[1..], rest);
      SplitFirst(s, events[0], tail);
      assert events == [events[0]] + events[1..];
    }
  }

  lemma {:induction false} ConcatSum(a: seq<Text>, b: seq<Text>)
    ensures Concat(a + b) == Concat(a) + Concat(b)
  {
    if a == [] {
      assert a + b == b;
    } else {
      assert (a + b)[1..] == a[1..] + b;
      ConcatSum(a[1..], b);
    }
  }

  // Draining what is complete and continuing with the rest cuts the stream the
  // same way as reading everything at once.
  lemma SplitContinues(s: Text, done: seq<Text>, rest: Text, more: Text, drained: seq<Text>, rest': Text)
    requires IsSplit(s, done, rest) && IsSplit(rest + more, drained, rest')
    ensures IsSplit(s + more, done + drained, rest')
  {
    ConcatSum(done, drained);
    assert s + more == Concat(done) + (rest + more);
    assert Concat(done) + (Concat(drained) + rest') == Concat(done + drained) + rest';
  }

  // ----- the reader -----

  lemma ConcatOneMore(buffer: Text, events: seq<Text>, rest: Text, e: Text, tail: Text)
    requires buffer == Concat(events) + rest && rest == e + tail
    ensures buffer == Concat(events + [e]) + tail
  {
    ConcatSum(events, [e]);
    assert [e][1..] == [] && Concat([e]) == e;
    assert Concat(events) + (e + tail) == Concat(events) + e + tail;
  }

  // The inner loop: drains every complete event from the buffer.
  method Drain(buffer: Text) returns (events: seq<Text>, rest: Text)
    ensures IsSplit(buffer, events, rest)
  {
    events, rest := [], buffer;
    var n := FirstEvent(rest);
    while n > 0
      invariant n == FirstEvent(rest)
      invariant (forall e :: e in events ==> IsEvent(e)) && buffer == Concat(events) + rest
      decreases |rest|
    {
      FirstEventIsEvent(rest);
      ConcatOneMore(buffer, events, rest, rest[..n], rest[n..]);
      events := events + [rest[..n]];
      rest := rest[n..];
      n := FirstEvent(rest);
    }
  }

  // Whether every chunk fits beside what the earlier ones left unfinished.
  predicate ChunksFit(chunks: seq<Text>) {
    forall i :: 0 <= i < |chunks| ==> ChunkFits(chunks, i)
  }

  predicate ChunkFits(chunks: seq<Text>, i: nat)
    requires i < |chunks|
  {
    |Split(Concat(chunks[..i])).1| + |chunks[i]| <= 4 * 1024 * 1024
  }

  // The outer loop over the chunks. The drained events depend on the bytes of the
  // stream alone, never on where the chunks were cut.
  method ReadEvents(chunks: seq<Text>) returns (out: Result<(seq<Text>, Text), string>)
    ensures out.Ok? <==> ChunksFit(chunks)
    ensures out.Ok? ==> out.value == Split(Concat(chunks))
  {
    var events, buffer := [], [];
    for i := 0 to |chunks|
      invariant IsSplit(Concat(chunks[..i]), events, buffer)
      invariant forall j :: 0 <= j < i ==> ChunkFits(chunks, j)
    {
      SplitIsUnique(Concat(chunks[..i]), events, buffer);
      if |buffer| + |chunks[i]| > MAX_BUFFER {
        assert !ChunkFits(chunks, i);
        return Err("GPTAdmin task subscription event exceeds limit");
      }
      var drained, rest := Drain(buffer + chunks[i]);
      SplitContinues(Concat(chunks[..i]), events, buffer, chunks[i], drained, rest);
      NextChunk(chunks, i);
      events, buffer := events + drained, rest;
    }
    assert chunks[..|chunks|] == chunks;
    SplitIsUnique(Concat(chunks), events, buffer);
    out := Ok((events, buffer));
  }

  lemma NextChunk(chunks: seq<Text>, i: nat)
    requires i < |chunks|
    ensures Concat(chunks[..i + 1]) == Concat(chunks[..i]) + chunks[i]
  {
    assert chunks[..i + 1] == chunks[..i] + [chunks[i]];
    ConcatSum(chunks[..i], [chunks[i]]);
    assert Concat([chunks[i]]) == chunks[i];
  }
}
