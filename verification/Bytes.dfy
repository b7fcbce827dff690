// Byte strings as SQLite and the file reader see them: the BINARY collation
// order, and the split of a text into lines.
module Bytes {
  import opened Sets

  type Byte = b: int | 0 <= b < 256
  type Text = seq<Byte>

  const LF: Byte := 10
  const CR: Byte := 13
  const SLASH: Byte := 47

  // memcmp order with the shorter string first: SQLite's BINARY collation.
  predicate Below(a: Text, b: Text) {
    if b == [] then false
    else if a == [] then true
    else if a[0] != b[0] then a[0] < b[0]
    else Below(a[1..], b[1..])
  }

  lemma {:induction false} BelowTrichotomy(a: Text, b: Text)
    ensures Below(a, b) || a == b || Below(b, a)
    ensures !(Below(a, b) && Below(b, a))
    ensures a == b ==> !Below(a, b)
  {
    if a != [] && b != [] && a[0] == b[0] {
      BelowTrichotomy(a[1..], b[1..]);
      if a[1..] == b[1..] {
        assert a == [a[0]] + a[1..] && b == [b[0]] + b[1..];
      }
    }
  }

  lemma {:induction false} BelowTransitive(a: Text, b: Text, c: Text)
    requires Below(a, b) && Below(b, c)
    ensures Below(a, c)
  {
    if a != [] && a[0] == b[0] && b[0] == c[0] {
      BelowTransitive(a[1..], b[1..], c[1..]);
    }
  }

  // The half-open byte range used by the path index: at or after `stem/` and
  // before `stem0`, the byte after the separator.
  predicate InDirectoryRange(stem: Text, path: Text) {
    !Below(path, stem + [SLASH]) && Below(path, stem + [SLASH + 1])
  }

  // The range is exactly the paths that begin with `stem/`.
  lemma {:induction false} DirectoryRangeIsPrefix(stem: Text, path: Text)
    ensures InDirectoryRange(stem, path) <==> stem + [SLASH] <= path
  {
    if stem == [] {
      assert stem + [SLASH] == [SLASH] && stem + [SLASH + 1] == [SLASH + 1];
      if path != [] && path[0] == SLASH {
        assert !Below(path[1..], [SLASH][1..]);
      }
      if path != [] && path[0] == SLASH + 1 {
        assert !Below(path[1..], [SLASH + 1][1..]);
      }
    } else {
      var lo, hi := stem + [SLASH], stem + [SLASH + 1];
      assert lo[1..] == stem[1..] + [SLASH] && hi[1..] == stem[1..] + [SLASH + 1];
      if path != [] && path[0] == stem[0] {
        DirectoryRangeIsPrefix(stem[1..], path[1..]);
        assert lo == [stem[0]] + lo[1..] && path == [path[0]] + path[1..];
        assert lo[1..] <= path[1..] <==> lo <= path;
      }
    }
  }

  // Position of the first line feed, or the length when there is none.
  function LineEnd(s: Text): (n: nat)
    ensures n <= |s| && (n < |s| ==> s[n] == LF)
    ensures forall k :: 0 <= k < n ==> s[k] != LF
  {
    FirstLfFrom(s, 0)
  }

  function FirstLfFrom(s: Text, from: nat): (n: nat)
    requires from <= |s|
    ensures from <= n <= |s| && (n < |s| ==> s[n] == LF)
    ensures forall k :: from <= k < n ==> s[k] != LF
    decreases |s| - from
  {
    if from == |s| || s[from] == LF then from else FirstLfFrom(s, from + 1)
  }

  function StripCr(s: Text): Text {
    if s != [] && s[|s| - 1] == CR then s[..|s| - 1] else s
  }

  // Lines ended by LF with one CR before it removed; a last line without LF is
  // kept as it is, and nothing follows a final LF.
  function Lines(s: Text): seq<Text>
    decreases |s|
  {
    if s == [] then []
    else
      var n := LineEnd(s);
      if n == |s| then [s] else [StripCr(s[..n])] + Lines(s[n + 1..])
  }

  function LowerByte(b: Byte): Byte {
    if 65 <= b <= 90 then b + 32 else b
  }

  // to_ascii_lowercase
  function Lower(s: Text): Text {
    seq(|s|, i requires 0 <= i < |s| => LowerByte(s[i]))
  }

  // The letters A to Z become a to z, and every other byte stays.
  lemma LowerIsAscii(s: Text)
    ensures |Lower(s)| == |s|
    ensures forall i :: 0 <= i < |s| ==>
              if 'A' as int <= s[i] as int <= 'Z' as int
              then Lower(s)[i] as int == s[i] as int + ('a' as int - 'A' as int) else Lower(s)[i] == s[i]
  {
  }

  predicate OccursAt(s: Text, needle: Text, i: nat) {
    i + |needle| <= |s| && s[i..i + |needle|] == needle
  }

  predicate Contains(s: Text, needle: Text) {
    exists i | 0 <= i <= |s| :: OccursAt(s, needle, i)
  }

  // The entries of h that stay when the smallest keys are removed down to `room`.
  ghost predicate Trimmed<V>(h: map<Text, V>, kept: map<Text, V>, room: nat) {
    && (forall k :: k in kept ==> k in h && kept[k] == h[k])
    && (forall gone, k :: gone in h && gone !in kept && k in kept ==> Below(gone, k))
    && (if |h| <= room then kept == h else |kept| == room)
  }

  lemma TrimOneMore<V>(h: map<Text, V>, before: map<Text, V>, least: Text)
    requires Trimmed(h, before, |before|) && |before| <= |h|
    requires least in before && forall k :: k in before && k != least ==> Below(least, k)
    ensures Trimmed(h, before - {least}, |before| - 1) && |before - {least}| == |before| - 1
  {
    var kept := before - {least};
    assert kept.Keys == before.Keys - {least};
    forall gone, k | gone in h && gone !in kept && k in kept
      ensures Below(gone, k)
    {
      assert k in before && k != least;
    }
  }

  // The first key of an ordered map.
  method Least(s: set<Text>) returns (m: Text)
    requires s != {}
    ensures m in s && forall p :: p in s && p != m ==> Below(m, p)
  {
    ghost var some := Pick(s);
    m :| m in s;
    var left := s - {m};
    while left != {}
      invariant left <= s && m in s && m !in left
      invariant forall p :: p in s && p !in left && p != m ==> Below(m, p)
      decreases |left|
    {
      ghost var other := Pick(left);
      var q: Text :| q in left;
      left := left - {q};
      BelowTrichotomy(m, q);
      if Below(q, m) {
        forall p | p in s && p !in left && p != q
          ensures Below(q, p)
        {
          if p != m { BelowTransitive(q, m, p); }
        }
        m := q;
      }
    }
  }
}
