// Bounded reading of a line range from a file.
module ReadText {
  import opened Bytes
  import opened Results

  const MAX_BOUNDED_TEXT_READ_BYTES: nat := 1024 * 1024

  datatype Line = Line(number: nat, text: Text)

  datatype Chunk = Chunk(startLine: nat, endLine: nat, lines: seq<Line>)

  // The file as the reader meets it: the size reported before it was opened, and
  // the bytes found when reading, which may have grown or shrunk since.
  datatype File = File(size: nat, data: Text)

  function Min(a: int, b: int): int { if a < b then a else b }

  function Max(a: int, b: int): int { if a > b then a else b }

  // ----- the simple reading -----

  // Number of bytes of the first line with its LF; 0 for an empty text.
  function RawLength(s: Text): (n: nat)
    ensures n <= |s| && (s != [] ==> n > 0)
  {
    if LineEnd(s) == |s| then |s| else LineEnd(s) + 1
  }

  // Lines start..=end of the whole file, numbered from 1.
  function Numbered(lines: seq<Text>, start: nat, end: nat): seq<Line>
    requires 1 <= start
  {
    var to := Min(end, |lines|);
    if to < start then []
    else seq(to - start + 1, k requires 0 <= k < to - start + 1 => Line(start + k, lines[start + k - 1]))
  }

  function Requested(startLine: Option<nat>, endLine: Option<nat>): (nat, Option<nat>) {
    var start := if startLine.Some? then Max(startLine.value, 1) else 1;
    (start, if endLine.Some? then Some(Max(endLine.value, start)) else None)
  }

  function Budget(f: File, end: Option<nat>): nat {
    if end.Some? then MAX_BOUNDED_TEXT_READ_BYTES else f.size
  }

  // The lines that the reader has to pass: up to the requested end, or all.
  function Needed(f: File, end: Option<nat>): nat {
    var n := |Lines(f.data)|;
    if end.Some? then Min(end.value, n) else n
  }

  // ----- the loop -----

  // read_line on a stream: the bytes up to and including the next LF.
  function NextLine(s: Text): Text {
    s[..RawLength(s)]
  }

  // Strip one LF, and one CR before it; a line without LF is kept.
  function Stripped(raw: Text): Text {
    if raw != [] && raw[|raw| - 1] == LF then StripCr(raw[..|raw| - 1]) else raw
  }

  lemma LinesUnfold(s: Text)
    requires s != []
    ensures Lines(s) == [Stripped(NextLine(s))] + Lines(s[RawLength(s)..])
  {
    var n := LineEnd(s);
    if n == |s| {
      assert NextLine(s) == s && s[|s|..] == [];
    } else {
      assert NextLine(s) == s[..n] + [LF];
      assert NextLine(s)[..n] == s[..n];
    }
  }

  // The lines of a text with their terminators.
  function RawLines(s: Text): seq<Text>
    decreases |s|
  {
    if s == [] then [] else [NextLine(s)] + RawLines(s[RawLength(s)..])
  }

  // Bytes of the first n lines.
  function Offset(raws: seq<Text>, n: nat): nat
    requires n <= |raws|
  {
    if n == 0 then 0 else Offset(raws, n - 1) + |raws[n - 1]|
  }

  lemma {:induction false} LinesAreStripped(s: Text)
    ensures |Lines(s)| == |RawLines(s)|
    ensures forall i :: 0 <= i < |Lines(s)| ==> Lines(s)[i] == Stripped(RawLines(s)[i])
    decreases |s|
  {
    if s != [] {
      LinesUnfold(s);
      LinesAreStripped(s[RawLength(s)..]);
    }
  }

  function Glued(raws: seq<Text>): Text {
    if raws == [] then [] else raws[0] + Glued(raws[1..])
  }

  // A raw line is its line with LF or CR LF behind it; only the last one may end
  // without.
  predicate EndsLine(raw: Text, line: Text, last: bool) {
    && 10 !in line
    && (|| (raw == line + [10] && (line == [] || line[|line| - 1] != 13))
        || raw == line + [13, 10]
        || (last && raw == line != []))
  }

  lemma NextLineEnds(s: Text)
    requires s != []
    ensures EndsLine(NextLine(s), Stripped(NextLine(s)), RawLength(s) == |s|)
    ensures s == NextLine(s) + s[RawLength(s)..]
  {
    var n, raw := LineEnd(s), NextLine(s);
    if n < |s| {
      assert raw == s[..n] + [LF] && raw[..n] == s[..n];
      var line := StripCr(s[..n]);
      assert s[..n] == line || s[..n] == line + [CR];
      assert line + [13, 10] == (line + [CR]) + [LF];
    }
  }

  // The lines of a text cut it into pieces that end in LF or CR LF, the last one
  // possibly not: nothing is lost and nothing added.
  lemma {:induction false} LinesAreExact(s: Text)
    ensures var raws := RawLines(s);
            && Glued(raws) == s && |raws| == |Lines(s)|
            && forall i :: 0 <= i < |raws| ==> EndsLine(raws[i], Lines(s)[i], i == |raws| - 1)
    decreases |s|
  {
    if s != [] {
      var rest := s[RawLength(s)..];
      NextLineEnds(s);
      LinesUnfold(s);
      LinesAreExact(rest);
      var raws := RawLines(s);
      assert raws == [NextLine(s)] + RawLines(rest) && raws[1..] == RawLines(rest);
      forall i | 0 <= i < |raws|
        ensures EndsLine(raws[i], Lines(s)[i], i == |raws| - 1)
      {
        if i > 0 { assert raws[i] == RawLines(rest)[i - 1] && Lines(s)[i] == Lines(rest)[i - 1]; }
      }
    }
  }

  lemma {:induction false} OffsetIsBytes(raws: seq<Text>, n: nat)
    requires n <= |raws|
    ensures Offset(raws, n) == |Glued(raws[..n])|
  {
    if n > 0 {
      OffsetIsBytes(raws, n - 1);
      assert raws[..n] == raws[..n - 1] + [raws[n - 1]];
      GluedAppend(raws[..n - 1], raws[n - 1]);
    } else {
      assert raws[..0] == [];
    }
  }

  lemma {:induction false} GluedAppend(raws: seq<Text>, x: Text)
    ensures Glued(raws + [x]) == Glued(raws) + x
  {
    if raws == [] {
      assert raws + [x] == [x] && [x][1..] == [];
    } else {
      assert (raws + [x])[1..] == raws[1..] + [x];
      GluedAppend(raws[1..], x);
    }
  }

  lemma {:induction false} OffsetGrows(raws: seq<Text>, m: nat, n: nat)
    requires m <= n <= |raws|
    ensures Offset(raws, m) <= Offset(raws, n)
  {
    if m < n { OffsetGrows(raws, m, n - 1); }
  }

  lemma {:induction false} OffsetShift(first: Text, raws: seq<Text>, n: nat)
    requires n <= |raws|
    ensures Offset([first] + raws, n + 1) == |first| + Offset(raws, n)
  {
    if n == 0 {
      assert Offset([first] + raws, 0) == 0;
    } else {
      OffsetShift(first, raws, n - 1);
    }
  }

  lemma RawUnfold(s: Text)
    requires s != []
    ensures RawLines(s) == [NextLine(s)] + RawLines(s[RawLength(s)..])
    ensures |NextLine(s)| == RawLength(s)
  {
  }

  // The rest of the text after n lines holds exactly the remaining lines.
  lemma {:induction false} RestAfter(s: Text, raws: seq<Text>, n: nat) returns (rest: Text)
    requires raws == RawLines(s) && n <= |raws|
    ensures Offset(raws, n) <= |s| && rest == s[Offset(raws, n)..]
    ensures RawLines(rest) == raws[n..]
    decreases n
  {
    if n == 0 {
      rest := s;
    } else {
      RawUnfold(s);
      var first, tail := NextLine(s), s[RawLength(s)..];
      rest := RestAfter(tail, RawLines(tail), n - 1);
      SkipFirst(s, raws, n, first, tail, RawLines(tail), rest, RawLines(rest));
    }
  }

  lemma SkipFirst(s: Text, raws: seq<Text>, n: nat, first: Text, tail: Text, more: seq<Text>,
                  rest: Text, remaining: seq<Text>)
    requires raws == [first] + more && |first| <= |s| && tail == s[|first|..]
    requires 1 <= n <= |raws| && Offset(more, n - 1) <= |tail|
    requires rest == tail[Offset(more, n - 1)..] && remaining == more[n - 1..]
    ensures Offset(raws, n) <= |s| && rest == s[Offset(raws, n)..] && remaining == raws[n..]
  {
    OffsetShift(first, more, n - 1);
  }

  // Reading from the stream cut at `cut`: the next line is the file's own next
  // line, unless the stream ends inside it.
  lemma CutLine(data: Text, cut: nat, pos: nat, raw: Text)
    requires pos <= cut <= |data| && raw == NextLine(data[pos..cut])
    ensures raw == NextLine(data[pos..]) || (pos + |raw| == cut && cut < pos + RawLength(data[pos..]))
  {
    var stream, whole := data[pos..cut], data[pos..];
    var n := LineEnd(whole);
    assert forall k :: 0 <= k < |stream| ==> stream[k] == whole[k];
    if n < |stream| {
      assert LineEnd(stream) == n;
      assert stream[..n + 1] == whole[..n + 1];
    } else {
      assert LineEnd(stream) == |stream|;
      if |stream| == |whole| { assert stream == whole; }
    }
  }

  // The line read after n lines: the file's own, or cut short at the limit.
  lemma NextRaw(data: Text, raws: seq<Text>, n: nat, cut: nat, raw: Text)
    requires raws == RawLines(data) && n <= |raws|
    requires Offset(raws, n) < cut <= |data| && raw == NextLine(data[Offset(raws, n)..cut])
    ensures raw != [] && n < |raws|
    ensures Offset(raws, n + 1) == Offset(raws, n) + |raws[n]| <= |data|
    ensures raw == raws[n] || (Offset(raws, n) + |raw| == cut && cut < Offset(raws, n + 1))
  {
    var pos := Offset(raws, n);
    var rest := RestAfter(data, raws, n);
    RawUnfold(rest);
    CutLine(data, cut, pos, raw);
    assert raws[n] == raws[n..][0] == NextLine(rest);
  }

  // One step of the reader: it gets the next line, or the needed lines do not fit.
  lemma StepOfReader(data: Text, raws: seq<Text>, n: nat, needed: nat, budget: nat, cut: nat, raw: Text)
    requires raws == RawLines(data) && n < needed <= |raws| && cut == Min(budget + 1, |data|)
    requires Offset(raws, n) < cut && raw == NextLine(data[Offset(raws, n)..cut])
    ensures raw != []
    ensures raw == raws[n] ==> Offset(raws, n + 1) == Offset(raws, n) + |raw| <= Offset(raws, needed)
    ensures raw != raws[n] ==> Offset(raws, n) + |raw| == cut == budget + 1 <= Offset(raws, needed)
  {
    NextRaw(data, raws, n, cut, raw);
    OffsetGrows(raws, n + 1, needed);
  }

  lemma MoreToRead(data: Text, raws: seq<Text>, n: nat)
    requires raws == RawLines(data) && n <= |raws| && Offset(raws, n) < |data|
    ensures n < |raws|
  {
    var rest := RestAfter(data, raws, n);
    RawUnfold(rest);
  }

  lemma AllRead(data: Text, raws: seq<Text>, n: nat)
    requires raws == RawLines(data) && n <= |raws|
    ensures Offset(raws, n) <= |data| && (Offset(raws, n) == |data| ==> n == |raws|)
  {
    var rest := RestAfter(data, raws, n);
    if Offset(raws, n) == |data| { assert rest == []; }
  }

  ghost predicate LinesValid(raws: seq<Text>, n: nat, valid: Text -> bool)
    requires n <= |raws|
  {
    forall i :: 0 <= i < n ==> valid(raws[i])
  }

  // The selected lines after n lines were read.
  function Selection(raws: seq<Text>, start: nat, n: nat): seq<Line>
    requires n <= |raws|
  {
    if n == 0 then []
    else Selection(raws, start, n - 1) + (if n >= start then [Line(n, Stripped(raws[n - 1]))] else [])
  }

  lemma NumberedStep(lines: seq<Text>, start: nat, n: nat)
    requires 1 <= start && 1 <= n <= |lines|
    ensures Numbered(lines, start, n) ==
            Numbered(lines, start, n - 1) + (if n >= start then [Line(n, lines[n - 1])] else [])
  {
    var all, fewer := Numbered(lines, start, n), Numbered(lines, start, n - 1);
    if n >= start {
      assert |all| == n - start + 1 && |fewer| == n - start;
      assert forall k :: 0 <= k < |fewer| ==> all[k] == fewer[k];
      assert all[n - start] == Line(n, lines[n - 1]);
      assert all == all[..n - start] + [all[n - start]];
    }
  }

  lemma {:induction false} SelectionIsNumbered(raws: seq<Text>, lines: seq<Text>, start: nat, n: nat)
    requires 1 <= start && n <= |raws| == |lines|
    requires forall i :: 0 <= i < n ==> lines[i] == Stripped(raws[i])
    ensures Selection(raws, start, n) == Numbered(lines, start, n)
  {
    if n > 0 {
      SelectionIsNumbered(raws, lines, start, n - 1);
      NumberedStep(lines, start, n);
    }
  }

  // The lines from max(start, 1) to max(end, start) or the end of the file, with
  // their numbers.
  ghost predicate IsRange(data: Text, startLine: Option<nat>, endLine: Option<nat>, c: Chunk) {
    var lines := Lines(data);
    var first := if startLine.None? || startLine.value == 0 then 1 else startLine.value;
    var asked := if endLine.None? then |lines| else if endLine.value < first then first else endLine.value;
    var last := if asked < |lines| then asked else |lines|;
    && c.startLine == first && c.endLine == (if last < first then first else last)
    && |c.lines| == (if last < first then 0 else last - first + 1)
    && forall k :: 0 <= k < |c.lines| ==> c.lines[k] == Line(first + k, lines[first + k - 1])
  }

  lemma NumberedIsRange(f: File, startLine: Option<nat>, endLine: Option<nat>, c: Chunk)
    requires var (start, end) := Requested(startLine, endLine);
             var n := Needed(f, end);
             c == Chunk(start, if n < start then start else n, Numbered(Lines(f.data), start, n))
    ensures IsRange(f.data, startLine, endLine, c)
  {
  }

  // read_text after the path was authorised. `valid` is the UTF-8 check of the
  // line reader. Success is exact: the requested lines of the whole file, never a
  // line shortened by the limit on the bytes taken.
  method ReadText(f: File, maxFileBytes: nat, startLine: Option<nat>, endLine: Option<nat>, valid: Text -> bool)
    returns (out: Result<Chunk, string>)
    ensures |Lines(f.data)| == |RawLines(f.data)|
    ensures var (start, end) := Requested(startLine, endLine);
            var n, raws := Needed(f, end), RawLines(f.data);
            && (out.Ok? <==>
                  && f.size <= maxFileBytes && LinesValid(raws, n, valid)
                  && Offset(raws, n) <= if endLine.Some? then 1024 * 1024 else f.size)
            && (out.Ok? ==>
                  out.value == Chunk(start, if n < start then start else n, Numbered(Lines(f.data), start, n)))
    ensures out.Ok? ==> IsRange(f.data, startLine, endLine, out.value)
  {
    LinesAreStripped(f.data);
    if f.size > maxFileBytes { return Err("file exceeds max_file_bytes"); }
    var (start, end) := Requested(startLine, endLine);
    var read := ReadRange(f.data, start, end, Budget(f, end), valid, RawLines(f.data), Needed(f, end));
    if read.Err? { return Err(read.error); }
    var (lineNumber, selected) := read.value;
    SelectionIsNumbered(RawLines(f.data), Lines(f.data), start, lineNumber);
    var last := if lineNumber < start then start
                else Min(if end.Some? then end.value else lineNumber, lineNumber);
    out := Ok(Chunk(start, last, selected));
    NumberedIsRange(f, startLine, endLine, out.value);
  }

  // The loop over the reader, which takes at most one byte more than the budget.
  method ReadRange(data: Text, start: nat, end: Option<nat>, budget: nat, valid: Text -> bool,
                   ghost raws: seq<Text>, ghost needed: nat)
    returns (out: Result<(nat, seq<Line>), string>)
    requires 1 <= start && raws == RawLines(data)
    requires needed == if end.Some? then Min(end.value, |raws|) else |raws|
    ensures out.Ok? <==> Offset(raws, needed) <= budget && LinesValid(raws, needed, valid)
    ensures out.Ok? ==> out.value.0 == needed && out.value.1 == Selection(raws, start, needed)
  {
    var cut := Min(budget + 1, |data|);
    var lineNumber, bytesRead, selected := 0, 0, [];
    while !(end.Some? && lineNumber >= end.value) && bytesRead < cut
      invariant lineNumber <= needed && bytesRead <= cut && bytesRead <= budget
      invariant ReadSoFar(raws, start, valid, lineNumber, bytesRead, selected)
      decreases cut - bytesRead
    {
      var raw := NextLine(data[bytesRead..cut]);
      ReaderStep(data, raws, start, valid, lineNumber, bytesRead, selected, needed, budget, raw);
      if !valid(raw) { return Err("stream did not contain valid UTF-8"); }
      bytesRead := bytesRead + |raw|;
      if bytesRead > budget { return Err("requested text range exceeds the read limit"); }
      lineNumber := lineNumber + 1;
      if lineNumber >= start { selected := selected + [Line(lineNumber, Stripped(raw))]; }
    }
    AllRead(data, raws, lineNumber);
    out := Ok((lineNumber, selected));
  }

  // The state of the reader after n lines.
  ghost predicate ReadSoFar(raws: seq<Text>, start: nat, valid: Text -> bool, n: nat, bytes: nat, selected: seq<Line>) {
    n <= |raws| && bytes == Offset(raws, n) && selected == Selection(raws, start, n) && LinesValid(raws, n, valid)
  }

  lemma ReadOneMore(raws: seq<Text>, start: nat, valid: Text -> bool, n: nat, bytes: nat, selected: seq<Line>)
    requires n < |raws| && ReadSoFar(raws, start, valid, n, bytes, selected)
    ensures valid(raws[n]) ==>
              ReadSoFar(raws, start, valid, n + 1, bytes + |raws[n]|,
                        if n + 1 >= start then selected + [Line(n + 1, Stripped(raws[n]))] else selected)
  {
  }

  // One turn of the loop: the reader has one line more of the file, or the needed
  // lines do not fit the budget or are not all valid.
  lemma ReaderStep(data: Text, raws: seq<Text>, start: nat, valid: Text -> bool, n: nat, bytes: nat,
                   selected: seq<Line>, needed: nat, budget: nat, raw: Text)
    requires raws == RawLines(data) && ReadSoFar(raws, start, valid, n, bytes, selected)
    requires n <= needed <= |raws| && (n < needed || needed == |raws|)
    requires bytes <= budget && bytes < Min(budget + 1, |data|) && raw == NextLine(data[bytes..Min(budget + 1, |data|)])
    ensures raw != []
    ensures bytes + |raw| > budget || !valid(raw) ==>
              !(Offset(raws, needed) <= budget && LinesValid(raws, needed, valid))
    ensures bytes + |raw| <= budget && valid(raw) ==>
              && n + 1 <= needed && bytes + |raw| <= |data|
              && ReadSoFar(raws, start, valid, n + 1, bytes + |raw|,
                           if n + 1 >= start then selected + [Line(n + 1, Stripped(raw))] else selected)
  {
    MoreToRead(data, raws, n);
    StepOfReader(data, raws, n, needed, budget, Min(budget + 1, |data|), raw);
    ReadOneMore(raws, start, valid, n, bytes, selected);
    AllRead(data, raws, n + 1);
  }
}
