/** Strings as the parser sees them: a sequence of Unicode scalar values together
    with its UTF-8 bytes (sections 3 and 4 of RFC 3629), and the slicing rule of
    `str` that a slice may only start and end on a character boundary. */
module Utf8 {
  import opened Prelude

  predicate IsContinuation(b: byte) {
    0x80 <= b < 0xC0
  }

  /** The octet sequence of one character (table of section 3 of RFC 3629). */
  function EncodeChar(c: char): (bs: seq<byte>)
    ensures 1 <= |bs| <= 4
    ensures !IsContinuation(bs[0])
    ensures forall k :: 1 <= k < |bs| ==> IsContinuation(bs[k])
    ensures c < 128 as char ==> |bs| == 1 && bs[0] as int == c as int
    ensures c >= 128 as char ==> forall k :: 0 <= k < |bs| ==> bs[k] >= 0x80
  {
    var x := c as int;
    if x < 0x80 then
      [x as byte]
    else if x < 0x800 then
      [(0xC0 + x / 64) as byte, (0x80 + x % 64) as byte]
    else if x < 0x1_0000 then
      [(0xE0 + x / 4096) as byte, (0x80 + x / 64 % 64) as byte, (0x80 + x % 64) as byte]
    else
      [(0xF0 + x / 262144) as byte, (0x80 + x / 4096 % 64) as byte,
       (0x80 + x / 64 % 64) as byte, (0x80 + x % 64) as byte]
  }

  function Encode(s: string): seq<byte> {
    if s == [] then [] else EncodeChar(s[0]) + Encode(s[1..])
  }

  lemma {:induction false} EncodeAppend(s: string, t: string)
    ensures Encode(s + t) == Encode(s) + Encode(t)
  {
    if s == [] {
      assert s + t == t;
    } else {
      EncodeAppend(s[1..], t);
      assert (s + t)[1..] == s[1..] + t;
    }
  }

  /** The scalar value held by one octet sequence: the inverse of the table. */
  function DecodeChar(bs: seq<byte>): int {
    if |bs| == 1 then bs[0] as int
    else if |bs| == 2 then (bs[0] as int - 0xC0) * 64 + (bs[1] as int - 0x80)
    else if |bs| == 3 then
      (bs[0] as int - 0xE0) * 4096 + (bs[1] as int - 0x80) * 64 + (bs[2] as int - 0x80)
    else if |bs| == 4 then
      (bs[0] as int - 0xF0) * 262144 + (bs[1] as int - 0x80) * 4096
      + (bs[2] as int - 0x80) * 64 + (bs[3] as int - 0x80)
    else -1
  }

  lemma {:induction false} DecodeEncodeChar(c: char)
    ensures DecodeChar(EncodeChar(c)) == c as int
  {
    var x := c as int;
    assert x / 4096 == x / 64 / 64 && x / 262144 == x / 4096 / 64;
  }

  /** The examples of section 7 of RFC 3629. */
  lemma {:induction false} Examples()
    ensures EncodeChar('A') == [0x41] && EncodeChar('\U{0391}') == [0xCE, 0x91]
    ensures EncodeChar('\U{2262}') == [0xE2, 0x89, 0xA2] && EncodeChar('\U{D55C}') == [0xED, 0x95, 0x9C]
    ensures EncodeChar('\U{233B4}') == [0xF0, 0xA3, 0x8E, 0xB4]
  {
  }

  /** No encoded character is a prefix of another one's encoding. */
  lemma {:induction false} EncodeCharPrefixFree(c: char, d: char, x: seq<byte>, y: seq<byte>)
    requires EncodeChar(c) + x == EncodeChar(d) + y
    ensures c == d && x == y
  {
    var p, q := EncodeChar(c), EncodeChar(d);
    var z := p + x;
    assert forall k :: 0 <= k < |p| ==> z[k] == p[k];
    assert forall k :: 0 <= k < |q| ==> (q + y)[k] == q[k];
    assert z[0] == p[0] == q[0];
    assert |p| == |q|;
    assert p == z[..|p|] == q;
    DecodeEncodeChar(c);
    DecodeEncodeChar(d);
    assert x == z[|p|..] && y == (q + y)[|q|..];
  }

  /** Different strings have different bytes, so a byte slice names one string. */
  lemma {:induction false} EncodeInjective(s: string, t: string)
    requires Encode(s) == Encode(t)
    ensures s == t
  {
    if s != [] && t != [] {
      EncodeCharPrefixFree(s[0], t[0], Encode(s[1..]), Encode(t[1..]));
      EncodeInjective(s[1..], t[1..]);
    }
  }

  /** `str::is_char_boundary`: the test that decides whether slicing at `i` panics. */
  predicate IsCharBoundary(b: seq<byte>, i: int) {
    i == 0 || i == |b| || (0 <= i < |b| && !IsContinuation(b[i]))
  }

  /** Byte offset of character number `c`. */
  function Offset(s: string, c: nat): nat
    requires c <= |s|
  {
    |Encode(s[..c])|
  }

  /** Character number of a byte offset that lies on a boundary. */
  function CharIndex(s: string, i: nat): (c: nat)
    requires IsCharBoundary(Encode(s), i)
    ensures c <= |s| && Offset(s, c) == i
  {
    if i == 0 then
      0
    else
      var n := |EncodeChar(s[0])|;
      assert Encode(s) == EncodeChar(s[0]) + Encode(s[1..]);
      var c := CharIndex(s[1..], i - n);
      assert s[..c + 1] == [s[0]] + s[1..][..c];
      EncodeAppend([s[0]], s[1..][..c]);
      c + 1
  }

  lemma {:induction false} CutAt(s: string, c: nat)
    requires c <= |s|
    ensures Encode(s) == Encode(s[..c]) + Encode(s[c..])
  {
    assert s == s[..c] + s[c..];
    EncodeAppend(s[..c], s[c..]);
  }

  lemma {:induction false} EncodeFirst(t: string)
    requires t != ""
    ensures |Encode(t)| > 0 && Encode(t)[0] == EncodeChar(t[0])[0]
    ensures t[0] < 128 as char <==> Encode(t)[0] < 0x80
  {
  }

  lemma {:induction false} SplitAt(s: string, c: nat, d: nat)
    requires c <= d <= |s|
    ensures Encode(s) == Encode(s[..c]) + Encode(s[c..d]) + Encode(s[d..])
    ensures Offset(s, d) == Offset(s, c) + |Encode(s[c..d])|
  {
    CutAt(s, d);
    CutAt(s[..d], c);
    assert s[..d][..c] == s[..c] && s[..d][c..] == s[c..d];
  }

  lemma {:induction false} OffsetIsBoundary(s: string, c: nat)
    requires c <= |s|
    ensures IsCharBoundary(Encode(s), Offset(s, c))
  {
    hide Encode, EncodeChar;
    CutAt(s, c);
    if c < |s| {
      EncodeFirst(s[c..]);
      assert Encode(s)[Offset(s, c)] == Encode(s[c..])[0];
    } else {
      assert s[..c] == s;
    }
  }

  /** The boundaries that `str` accepts are exactly the offsets between characters. */
  lemma {:induction false} BoundaryIff(s: string, i: nat)
    ensures IsCharBoundary(Encode(s), i) <==> exists c: nat :: c <= |s| && Offset(s, c) == i
  {
    hide Encode, EncodeChar;
    if IsCharBoundary(Encode(s), i) {
      assert Offset(s, CharIndex(s, i)) == i;
    }
    if c: nat :| c <= |s| && Offset(s, c) == i {
      OffsetIsBoundary(s, c);
    }
  }

  lemma {:induction false} OffsetStrict(s: string, c: nat, d: nat)
    requires c < d <= |s|
    ensures Offset(s, c) < Offset(s, d)
  {
    SplitAt(s, c, d);
    EncodeFirst(s[c..d]);
  }

  lemma {:induction false} OffsetMonotone(s: string, c: nat, d: nat)
    requires c <= |s| && d <= |s| && Offset(s, c) <= Offset(s, d)
    ensures c <= d
  {
    if d < c {
      OffsetStrict(s, d, c);
      assert false;
    }
  }

  /** `&s[i..j]`: defined only on boundaries, and it is the string with those bytes. */
  function StrSlice(s: string, i: nat, j: nat): (t: string)
    requires i <= j <= |Encode(s)|
    requires IsCharBoundary(Encode(s), i) && IsCharBoundary(Encode(s), j)
    ensures Encode(t) == Encode(s)[i..j]
  {
    var c, d := CharIndex(s, i), CharIndex(s, j);
    OffsetMonotone(s, c, d);
    SplitAt(s, c, d);
    s[c..d]
  }

  /** An ASCII byte of the encoding is a whole character, so it never occurs inside a
      multi-byte sequence: both its ends are boundaries. */
  lemma {:induction false} AsciiByteIsChar(s: string, i: nat)
    requires i < |Encode(s)| && Encode(s)[i] < 0x80
    ensures IsCharBoundary(Encode(s), i) && IsCharBoundary(Encode(s), i + 1)
    ensures CharIndex(s, i) < |s| && s[CharIndex(s, i)] as int == Encode(s)[i] as int
    ensures CharIndex(s, i + 1) == CharIndex(s, i) + 1
  {
    hide Encode, EncodeChar, CharIndex;
    var c := CharIndex(s, i);
    CutAt(s, c);
    assert s[..|s|] == s;
    assert c < |s|;
    EncodeFirst(s[c..]);
    assert Encode(s)[i] == Encode(s[c..])[0];
    OneCharWide(s, c);
    OffsetIsBoundary(s, c + 1);
    OffsetMonotone(s, CharIndex(s, i + 1), c + 1);
    OffsetMonotone(s, c + 1, CharIndex(s, i + 1));
  }

  lemma {:induction false} OneCharWide(s: string, c: nat)
    requires c < |s| && s[c] < 128 as char
    ensures Offset(s, c + 1) == Offset(s, c) + 1
  {
    SplitAt(s, c, c + 1);
    assert s[c..c + 1] == [s[c]];
    assert Encode([s[c]]) == EncodeChar(s[c]) + Encode([]);
  }

  /** Every character of a string contributes its first byte to the encoding. */
  lemma {:induction false} LeadByteIn(s: string, c: char)
    requires c in s
    ensures EncodeChar(c)[0] in Encode(s)
  {
    if s[0] == c {
      assert Encode(s)[0] == EncodeChar(c)[0];
    } else {
      LeadByteIn(s[1..], c);
      var k :| 0 <= k < |Encode(s[1..])| && Encode(s[1..])[k] == EncodeChar(c)[0];
      assert Encode(s)[k + |EncodeChar(s[0])|] == EncodeChar(c)[0];
    }
  }
}
