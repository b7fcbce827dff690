// UTF-8 as section 4 of RFC 3629 defines it, and the cut that keeps a text
// within a byte limit without splitting a character.
module Utf8 {
  import opened Bytes

  predicate Continuation(b: Byte) {
    0x80 <= b < 0xC0
  }

  // The positions where a string may be cut: is_char_boundary.
  predicate Boundary(s: Text, e: nat)
    requires e <= |s|
  {
    e == 0 || e == |s| || !Continuation(s[e])
  }

  predicate SecondByte(first: Byte, second: Byte) {
    if first == 0xE0 then 0xA0 <= second < 0xC0
    else if first == 0xED then 0x80 <= second < 0xA0
    else if first == 0xF0 then 0x90 <= second < 0xC0
    else if first == 0xF4 then 0x80 <= second < 0x90
    else Continuation(second)
  }

  // Bytes that a first byte announces; 0 for a byte that starts no character.
  function Announced(first: Byte): nat {
    if first < 0x80 then 1
    else if 0xC2 <= first < 0xE0 then 2
    else if 0xE0 <= first < 0xF0 then 3
    else if 0xF0 <= first < 0xF5 then 4
    else 0
  }

  predicate StartsWithCharacter(s: Text) {
    && s != []
    && 0 < Announced(s[0]) <= |s|
    && (Announced(s[0]) > 1 ==> SecondByte(s[0], s[1]))
    && forall k :: 2 <= k < Announced(s[0]) ==> Continuation(s[k])
  }

  // ----- the bytes of a character -----

  predicate IsScalar(c: nat) {
    c < 0xD800 || 0xE000 <= c <= 0x10FFFF
  }

  // The bit patterns of section 3 of RFC 3629.
  function Encode(c: nat): Text
    requires IsScalar(c)
  {
    if c < 0x80 then [c]
    else if c < 0x800 then [0xC0 + c / 64, 0x80 + c % 64]
    else if c < 0x1_0000 then [0xE0 + c / 64 / 64, 0x80 + c / 64 % 64, 0x80 + c % 64]
    else [0xF0 + c / 64 / 64 / 64, 0x80 + c / 64 / 64 % 64, 0x80 + c / 64 % 64, 0x80 + c % 64]
  }

  lemma EncodedStarts(c: nat)
    requires IsScalar(c)
    ensures StartsWithCharacter(Encode(c)) && Announced(Encode(c)[0]) == |Encode(c)|
  {
  }

  // The value of the character that a text starts with.
  function Decode(s: Text): nat
    requires StartsWithCharacter(s)
  {
    var a: int := s[0];
    if a < 0x80 then a
    else if a < 0xE0 then Joined(a - 0xC0, s[1])
    else if a < 0xF0 then Joined(Joined(a - 0xE0, s[1]), s[2])
    else Joined(Joined(Joined(a - 0xF0, s[1]), s[2]), s[3])
  }

  // Six more bits.
  function Joined(high: nat, low: int): (c: nat)
    requires 0x80 <= low < 0xC0
    ensures c / 64 == high && c % 64 == low - 0x80
  {
    high * 64 + (low - 0x80)
  }

  // A text starts with a character exactly when it starts with the bytes of a
  // Unicode scalar value.
  lemma CharactersAreScalars(s: Text)
    ensures StartsWithCharacter(s) <==> exists c: nat :: IsScalar(c) && Encode(c) <= s
  {
    if StartsWithCharacter(s) {
      DecodedIsScalar(s);
      assert Encode(Decode(s)) <= s;
    }
    if c: nat :| IsScalar(c) && Encode(c) <= s {
      EncodedStarts(c);
      assert forall k :: 0 <= k < |Encode(c)| ==> s[k] == Encode(c)[k];
    }
  }

  lemma DecodedIsScalar(s: Text)
    requires StartsWithCharacter(s)
    ensures IsScalar(Decode(s)) && Encode(Decode(s)) == s[..Announced(s[0])]
  {
  }

  predicate WellFormed(s: Text)
    decreases |s|
  {
    s == [] || (StartsWithCharacter(s) && WellFormed(s[Announced(s[0])..]))
  }

  lemma InsideACharacter(s: Text, e: nat)
    requires StartsWithCharacter(s) && 0 < e < Announced(s[0])
    ensures Continuation(s[e]) && !WellFormed(s[..e])
  {
    assert SecondByte(s[0], s[1]) ==> Continuation(s[1]);
    assert s[..e][0] == s[0] && !StartsWithCharacter(s[..e]);
  }

  // Cutting a well-formed text gives a well-formed text exactly at a boundary.
  lemma {:induction false} CutIsWellFormedAtBoundaries(s: Text, e: nat)
    requires WellFormed(s) && e <= |s|
    ensures WellFormed(s[..e]) <==> Boundary(s, e)
    decreases |s|
  {
    if e > 0 {
      var n := Announced(s[0]);
      if e >= n {
        CutIsWellFormedAtBoundaries(s[n..], e - n);
        assert s[..e][n..] == s[n..][..e - n];
      } else {
        InsideACharacter(s, e);
      }
    }
  }

  // Boundaries are at most four bytes apart.
  lemma {:induction false} BoundaryIsNear(s: Text, e: nat) returns (k: nat)
    requires WellFormed(s) && e <= |s|
    ensures k <= e <= k + 3 && Boundary(s, k)
    decreases |s|
  {
    if s == [] || e < Announced(s[0]) {
      k := 0;
    } else {
      var n := Announced(s[0]);
      k := BoundaryIsNear(s[n..], e - n);
      k := k + n;
    }
  }

  function BoundaryBelow(s: Text, e: nat): (r: nat)
    requires e <= |s|
    ensures r <= e && Boundary(s, r)
    ensures forall k :: r < k <= e ==> !Boundary(s, k)
  {
    if Boundary(s, e) then e else BoundaryBelow(s, e - 1)
  }

  function Truncated(s: Text, maxBytes: nat): Text {
    if |s| <= maxBytes then s else s[..BoundaryBelow(s, maxBytes)]
  }

  method TruncateUtf8(value: Text, maxBytes: nat) returns (r: Text)
    ensures r == Truncated(value, maxBytes)
  {
    if |value| <= maxBytes { return value; }
    var end: nat := maxBytes;
    while !Boundary(value, end)
      invariant end <= maxBytes && BoundaryBelow(value, maxBytes) == BoundaryBelow(value, end)
      decreases end
    {
      end := end - 1;
    }
    r := value[..end];
  }

  // The cut text is the longest well-formed prefix within the limit, and at most
  // three bytes of the limit stay unused when something was cut.
  lemma TruncatedIsLongest(s: Text, maxBytes: nat)
    requires WellFormed(s)
    ensures Truncated(s, maxBytes) <= s && |Truncated(s, maxBytes)| <= maxBytes
    ensures WellFormed(Truncated(s, maxBytes))
    ensures forall e :: |Truncated(s, maxBytes)| < e <= |s| && e <= maxBytes ==> !WellFormed(s[..e])
    ensures |s| > maxBytes ==> |Truncated(s, maxBytes)| + 3 >= maxBytes
  {
    if |s| > maxBytes {
      CutIsWellFormedAtBoundaries(s, BoundaryBelow(s, maxBytes));
      forall e | |Truncated(s, maxBytes)| < e <= |s| && e <= maxBytes
        ensures !WellFormed(s[..e])
      {
        CutIsWellFormedAtBoundaries(s, e);
      }
      var near := BoundaryIsNear(s, maxBytes);
    }
  }
}
