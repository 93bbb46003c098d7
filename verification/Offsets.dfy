/**
 * UTF-8 and UTF-16 offsets into a text (crates/examples/upstream/input.rs), section 3 of
 * RFC 3629 and section 2.1 of RFC 2781. A text is a sequence of Unicode scalar values.
 */
module Offsets {

  datatype Encoding = Utf8 | Utf16
  {
    function Other(): Encoding { if this == Utf8 then Utf16 else Utf8 }
  }

  /** How many bytes, or 16-bit units, a character takes. */
  function Width(enc: Encoding, c: char): (w: nat)
    ensures 1 <= w <= 4
  {
    match enc
    case Utf8 => if c as int < 0x80 then 1 else if c as int < 0x800 then 2 else if c as int < 0x10000 then 3 else 4
    case Utf16 => if c as int < 0x10000 then 1 else 2
  }

  /** The length of a text. */
  function Length(enc: Encoding, s: string): nat {
    if s == [] then 0 else Length(enc, s[..|s| - 1]) + Width(enc, s[|s| - 1])
  }

  /** The offset of the boundary before character `k`. */
  function Pos(enc: Encoding, s: string, k: nat): nat
    requires k <= |s|
  {
    Length(enc, s[..k])
  }

  ghost predicate IsBoundary(enc: Encoding, s: string, offset: nat) {
    exists k: nat :: k <= |s| && Pos(enc, s, k) == offset
  }

  lemma PosNext(enc: Encoding, s: string, k: nat)
    requires k < |s|
    ensures Pos(enc, s, k + 1) == Pos(enc, s, k) + Width(enc, s[k])
  {
    assert s[..k + 1][..k] == s[..k];
  }

  lemma {:induction false} PosIncreases(enc: Encoding, s: string, j: nat, k: nat)
    requires j <= k <= |s|
    ensures Pos(enc, s, j) + (k - j) <= Pos(enc, s, k)
    decreases k - j
  {
    if j < k {
      PosIncreases(enc, s, j, k - 1);
      PosNext(enc, s, k - 1);
    }
  }

  lemma {:induction false} LengthConcat(enc: Encoding, a: string, b: string)
    ensures Length(enc, a + b) == Length(enc, a) + Length(enc, b)
  {
    if b == [] {
      assert a + b == a;
    } else {
      LengthConcat(enc, a, b[..|b| - 1]);
      assert (a + b)[..|a + b| - 1] == a + b[..|b| - 1];
    }
  }

  /** The first boundary at or after `offset`, as a character index; the end if there is none. */
  function Ceiling(enc: Encoding, s: string, offset: nat): (k: nat)
    ensures k <= |s|
    ensures k < |s| ==> offset <= Pos(enc, s, k)
    ensures forall j :: 0 <= j < k ==> Pos(enc, s, j) < offset
  {
    CeilingFrom(enc, s, offset, 0)
  }

  function CeilingFrom(enc: Encoding, s: string, offset: nat, k: nat): (r: nat)
    requires k <= |s|
    requires forall j :: 0 <= j < k ==> Pos(enc, s, j) < offset
    ensures k <= r <= |s|
    ensures r < |s| ==> offset <= Pos(enc, s, r)
    ensures forall j :: 0 <= j < r ==> Pos(enc, s, j) < offset
    decreases |s| - k
  {
    if k == |s| || Pos(enc, s, k) >= offset then k else CeilingFrom(enc, s, offset, k + 1)
  }

  /** The conversion of an offset in one encoding to the other. */
  function Convert(from: Encoding, s: string, offset: nat): nat {
    Pos(from.Other(), s, Ceiling(from, s, offset))
  }

  /** The loop shared by the two conversions. */
  method ConvertOffset(from: Encoding, content: string, offset: nat) returns (converted: nat)
    ensures converted == Convert(from, content, offset)
  {
    converted := 0;
    var count := 0;
    var k := 0;
    while k < |content|
      invariant k <= |content|
      invariant count == Pos(from, content, k) && converted == Pos(from.Other(), content, k)
      invariant forall j :: 0 <= j < k ==> Pos(from, content, j) < offset
    {
      if count >= offset {
        break;
      }
      PosNext(from, content, k);
      PosNext(from.Other(), content, k);
      count := count + Width(from, content[k]);
      converted := converted + Width(from.Other(), content[k]);
      k := k + 1;
    }
    CeilingUnique(from, content, offset, k);
  }

  lemma CeilingUnique(enc: Encoding, s: string, offset: nat, k: nat)
    requires k <= |s| && (k < |s| ==> offset <= Pos(enc, s, k))
    requires forall j :: 0 <= j < k ==> Pos(enc, s, j) < offset
    ensures k == Ceiling(enc, s, offset)
  {}

  /** A boundary is its own ceiling. */
  lemma CeilingOfBoundary(enc: Encoding, s: string, k: nat)
    requires k <= |s|
    ensures Ceiling(enc, s, Pos(enc, s, k)) == k
  {
    forall j | 0 <= j < k ensures Pos(enc, s, j) < Pos(enc, s, k) { PosIncreases(enc, s, j, k); }
    CeilingUnique(enc, s, Pos(enc, s, k), k);
  }

  // ----- What is counted ------------------------------------------------------------

  /** The bytes, or the 16-bit units, of a character. */
  function Encode(enc: Encoding, c: char): seq<int> {
    var n := c as int;
    match enc
    case Utf8 =>
      if n < 0x80 then [n]
      else if n < 0x800 then [0xC0 + n / 64, 0x80 + n % 64]
      else if n < 0x10000 then [0xE0 + n / 4096, 0x80 + n / 64 % 64, 0x80 + n % 64]
      else [0xF0 + n / 262144, 0x80 + n / 4096 % 64, 0x80 + n / 64 % 64, 0x80 + n % 64]
    case Utf16 =>
      if n < 0x10000 then [n] else [0xD800 + (n - 0x10000) / 1024, 0xDC00 + (n - 0x10000) % 1024]
  }

  /** The scalar value that a well-formed sequence stands for, by its first unit. */
  function Decode(enc: Encoding, u: seq<int>): int {
    match enc
    case Utf8 =>
      if |u| == 1 && u[0] < 0x80 then u[0]
      else if |u| == 2 && 0xC0 <= u[0] < 0xE0 then (u[0] - 0xC0) * 64 + (u[1] - 0x80)
      else if |u| == 3 && 0xE0 <= u[0] < 0xF0 then ((u[0] - 0xE0) * 64 + (u[1] - 0x80)) * 64 + (u[2] - 0x80)
      else if |u| == 4 && 0xF0 <= u[0] < 0xF8 then (((u[0] - 0xF0) * 64 + (u[1] - 0x80)) * 64 + (u[2] - 0x80)) * 64 + (u[3] - 0x80)
      else -1
    case Utf16 =>
      if |u| == 1 && !(0xD800 <= u[0] < 0xE000) then u[0]
      else if |u| == 2 && 0xD800 <= u[0] < 0xDC00 <= u[1] < 0xE000 then 0x10000 + (u[0] - 0xD800) * 1024 + (u[1] - 0xDC00)
      else -1
  }

  /** Widths are the lengths of the encodings, which stand for their character. */
  lemma EncodeRoundTrip(enc: Encoding, c: char)
    ensures |Encode(enc, c)| == Width(enc, c) && Decode(enc, Encode(enc, c)) == c as int
    ensures forall k :: 0 <= k < |Encode(enc, c)| ==> 0 <= Encode(enc, c)[k] < if enc == Utf8 then 0x100 else 0x10000
    ensures Width(Utf16, c) == 2 <==> c as int > 0xFFFF
    ensures Width(Utf8, c) == 4 <==> c as int > 0xFFFF
    ensures Width(Utf8, c) == 1 <==> c as int < 0x80
    ensures Width(Utf8, c) == 2 <==> 0x80 <= c as int < 0x800
  {
    var n := c as int;
    assert n / 4096 == n / 64 / 64 && n / 262144 == n / 64 / 64 / 64;
  }

  function EncodeAll(enc: Encoding, s: string): seq<int> {
    if s == [] then [] else EncodeAll(enc, s[..|s| - 1]) + Encode(enc, s[|s| - 1])
  }

  /** Offsets count bytes, or 16-bit units, of the encoded text. */
  lemma {:induction false} LengthIsEncoded(enc: Encoding, s: string)
    ensures |EncodeAll(enc, s)| == Length(enc, s)
  {
    if s != [] {
      LengthIsEncoded(enc, s[..|s| - 1]);
      EncodeRoundTrip(enc, s[|s| - 1]);
    }
  }

  /** A boundary is converted to the same boundary, counted in the other encoding. */
  lemma ConvertAtBoundary(from: Encoding, s: string, k: nat)
    requires k <= |s|
    ensures Convert(from, s, |EncodeAll(from, s[..k])|) == |EncodeAll(from.Other(), s[..k])|
  {
    LengthIsEncoded(from, s[..k]);
    LengthIsEncoded(from.Other(), s[..k]);
    CeilingOfBoundary(from, s, k);
  }

  // ----- What the conversions promise -----------------------------------------------

  lemma ConvertLandsOnBoundary(from: Encoding, s: string, offset: nat)
    ensures IsBoundary(from.Other(), s, Convert(from, s, offset))
    ensures Convert(from, s, offset) <= Length(from.Other(), s)
  {
    PosIncreases(from.Other(), s, Ceiling(from, s, offset), |s|);
    assert s[..|s|] == s;
  }

  lemma ConvertIsMonotone(from: Encoding, s: string, o1: nat, o2: nat)
    requires o1 <= o2
    ensures Convert(from, s, o1) <= Convert(from, s, o2)
  {
    var k1, k2 := Ceiling(from, s, o1), Ceiling(from, s, o2);
    assert k1 <= k2;
    PosIncreases(from.Other(), s, k1, k2);
  }

  /** On boundaries the two conversions are inverse to each other. */
  lemma ConvertRoundTrip(from: Encoding, s: string, offset: nat)
    requires IsBoundary(from, s, offset)
    ensures Convert(from.Other(), s, Convert(from, s, offset)) == offset
  {
    var k: nat :| k <= |s| && Pos(from, s, k) == offset;
    CeilingOfBoundary(from, s, k);
    CeilingOfBoundary(from.Other(), s, k);
  }

  /** Elsewhere, going there and back rounds up: to the least boundary at or after the offset. */
  lemma ConvertRoundsUp(from: Encoding, s: string, offset: nat)
    requires offset <= Length(from, s)
    ensures var back := Convert(from.Other(), s, Convert(from, s, offset));
            && IsBoundary(from, s, back) && offset <= back
            && forall b: nat :: IsBoundary(from, s, b) && offset <= b ==> back <= b
  {
    var k := Ceiling(from, s, offset);
    CeilingOfBoundary(from.Other(), s, k);
    assert s[..|s|] == s;
    assert offset <= Pos(from, s, k);
    forall b: nat | IsBoundary(from, s, b) && offset <= b ensures Pos(from, s, k) <= b {
      var j: nat :| j <= |s| && Pos(from, s, j) == b;
      assert k <= j;
      PosIncreases(from, s, k, j);
    }
  }

  /** For offsets within the text: one half of a Galois connection always holds. */
  lemma ConvertBelow(from: Encoding, s: string, offset: nat, p: nat)
    requires offset <= Length(from, s) && Convert(from, s, offset) <= p
    ensures offset <= Convert(from.Other(), s, p)
  {
    ConvertIsMonotone(from.Other(), s, Convert(from, s, offset), p);
    ConvertRoundsUp(from, s, offset);
  }

  /** The two conversions are adjoint at `p`: each bound on one side is a bound on the other. */
  ghost predicate AdjointAt(from: Encoding, s: string, p: nat) {
    forall o: nat :: o <= Length(from, s) ==> (Convert(from, s, o) <= p <==> o <= Convert(from.Other(), s, p))
  }

  /**
   * The other half holds exactly at the boundaries, and beyond the end of the text: inside
   * a character both conversions round up, and then they do not form a Galois connection.
   */
  lemma GaloisExactlyOnBoundaries(from: Encoding, s: string, p: nat)
    ensures AdjointAt(from, s, p) <==> IsBoundary(from.Other(), s, p) || p >= Length(from.Other(), s)
  {
    var to := from.Other();
    assert to.Other() == from;
    var g := Convert(to, s, p);
    ConvertLandsOnBoundary(to, s, p);
    if IsBoundary(to, s, p) || p >= Length(to, s) {
      forall o: nat | o <= Length(from, s) ensures Convert(from, s, o) <= p <==> o <= g {
        if Convert(from, s, o) <= p { ConvertBelow(from, s, o, p); }
        if o <= g {
          ConvertIsMonotone(from, s, o, g);
          ConvertLandsOnBoundary(from, s, o);
          if IsBoundary(to, s, p) { ConvertRoundTrip(to, s, p); }
        }
      }
    } else {
      // At o = g the right side holds, but converting g rounds p up past itself.
      ConvertRoundsUp(to, s, p);
      assert Convert(from, s, g) != p;
      assert g <= Length(from, s) && !(Convert(from, s, g) <= p);
    }
  }

  /** The smallest instance: one two-byte character, and the offset inside it. */
  lemma GaloisFailsInsideCharacter()
    ensures var s := [0xE9 as char];
            Length(Utf16, s) == 1 && Convert(Utf8, s, 1) == 1 && Convert(Utf16, s, 1) == 2 && !AdjointAt(Utf16, s, 1)
  {}

  // ----- Conversion in a text made of parts -----------------------------------------

  lemma PosConcat(enc: Encoding, a: string, b: string, j: nat)
    requires j <= |b|
    ensures Pos(enc, a + b, |a| + j) == Length(enc, a) + Pos(enc, b, j)
  {
    assert (a + b)[..|a| + j] == a + b[..j];
    LengthConcat(enc, a, b[..j]);
  }

  lemma ConvertPrefix(from: Encoding, a: string, b: string, offset: nat)
    requires offset <= Length(from, a)
    ensures Convert(from, a + b, offset) == Convert(from, a, offset)
  {
    var k := Ceiling(from, a, offset);
    assert a[..|a|] == a;
    forall j: nat, enc | j <= |a| ensures Pos(enc, a + b, j) == Pos(enc, a, j) { assert (a + b)[..j] == a[..j]; }
    CeilingUnique(from, a + b, offset, k);
  }

  /** Past the first part, an offset is converted in the second. */
  lemma ConvertConcat(from: Encoding, a: string, b: string, offset: nat)
    requires offset > Length(from, a)
    ensures Convert(from, a + b, offset) == Length(from.Other(), a) + Convert(from, b, offset - Length(from, a))
  {
    var k := Ceiling(from, b, offset - Length(from, a));
    PosConcat(from, a, b, k);
    PosConcat(from.Other(), a, b, k);
    assert (a + b)[..|a|] == a;
    forall j: nat | j < |a| + k ensures Pos(from, a + b, j) < offset {
      if j <= |a| { PosIncreases(from, a + b, j, |a|); } else { PosConcat(from, a, b, j - |a|); }
    }
    CeilingUnique(from, a + b, offset, |a| + k);
  }

  /** An offset just inside a character is converted to the end of that character. */
  lemma ConvertInside(from: Encoding, s: string, k: nat)
    requires k < |s|
    ensures Convert(from, s, Pos(from, s, k) + 1) == Pos(from.Other(), s, k + 1)
    ensures Pos(from, s, k) + 1 <= Length(from, s)
  {
    PosNext(from, s, k);
    PosIncreases(from, s, k + 1, |s|);
    assert s[..|s|] == s;
    forall j | 0 <= j < k + 1 ensures Pos(from, s, j) < Pos(from, s, k) + 1 { PosIncreases(from, s, j, k); }
    CeilingUnique(from, s, Pos(from, s, k) + 1, k + 1);
  }
}
