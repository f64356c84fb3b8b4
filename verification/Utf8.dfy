/** str.encode("utf-8") (section 3 of RFC 3629); a Dafny character is a Unicode scalar value. */
module Utf8 {
  import opened Octets

  function EncodeChar(c: char): (s: seq<Byte>)
    ensures 1 <= |s| <= 4
  {
    var u := c as int;
    if u < 0x80 then [u]
    else if u < 0x800 then [0xC0 + u / 0x40, 0x80 + u % 0x40]
    else if u < 0x1_0000 then [0xE0 + u / 0x1000, 0x80 + u / 0x40 % 0x40, 0x80 + u % 0x40]
    else [0xF0 + u / 0x4_0000, 0x80 + u / 0x1000 % 0x40, 0x80 + u / 0x40 % 0x40, 0x80 + u % 0x40]
  }

  function Encode(s: string): seq<Byte> { if s == [] then [] else EncodeChar(s[0]) + Encode(s[1..]) }

  /** How many bytes the character takes that begins with a byte. */
  function Width(b: Byte): nat { if b < 0x80 then 1 else if b < 0xE0 then 2 else if b < 0xF0 then 3 else 4 }

  /** The six bits of a continuation byte. */
  function Low(b: Byte): int { b as int - 0x80 }

  /** The code point the first bytes stand for. */
  function FirstCode(s: seq<Byte>): int
    requires s != [] && |s| >= Width(s[0])
  {
    var first: int := s[0];
    if Width(s[0]) == 1 then first
    else if Width(s[0]) == 2 then (first - 0xC0) * 0x40 + Low(s[1])
    else if Width(s[0]) == 3 then ((first - 0xE0) * 0x40 + Low(s[1])) * 0x40 + Low(s[2])
    else (((first - 0xF0) * 0x40 + Low(s[1])) * 0x40 + Low(s[2])) * 0x40 + Low(s[3])
  }

  lemma Base64(u: nat)
    ensures u == u / 0x40 * 0x40 + u % 0x40
    ensures u / 0x40 == u / 0x1000 * 0x40 + u / 0x40 % 0x40
    ensures u / 0x1000 == u / 0x4_0000 * 0x40 + u / 0x1000 % 0x40
  {
    assert u / 0x1000 == u / 0x40 / 0x40 && u / 0x4_0000 == u / 0x1000 / 0x40;
  }

  lemma FirstCodeInverse(c: char, rest: seq<Byte>)
    ensures var s := EncodeChar(c) + rest;
            Width(s[0]) == |EncodeChar(c)| && FirstCode(s) == c as int
  {
    Base64(c as int);
  }

  predicate IsTail(b: Byte) { 0x80 <= b <= 0xBF }

  /** The bytes of one character by the syntax of section 4 of RFC 3629: the shortest form, and no surrogate. */
  predicate IsCharacter(s: seq<Byte>) {
    || (|s| == 1 && s[0] <= 0x7F)
    || (|s| == 2 && 0xC2 <= s[0] <= 0xDF && IsTail(s[1]))
    || (|s| == 3 && IsTail(s[1]) && IsTail(s[2])
        && ((s[0] == 0xE0 && 0xA0 <= s[1]) || 0xE1 <= s[0] <= 0xEC || (s[0] == 0xED && s[1] <= 0x9F)
            || 0xEE <= s[0] <= 0xEF))
    || (|s| == 4 && IsTail(s[1]) && IsTail(s[2]) && IsTail(s[3])
        && ((s[0] == 0xF0 && 0x90 <= s[1]) || 0xF1 <= s[0] <= 0xF3 || (s[0] == 0xF4 && s[1] <= 0x8F)))
  }

  /** A character is encoded as well-formed bytes that stand for its code point. */
  lemma EncodeCharIs(c: char)
    ensures IsCharacter(EncodeChar(c)) && |EncodeChar(c)| == Width(EncodeChar(c)[0])
    ensures FirstCode(EncodeChar(c)) == c as int
  {
    FirstCodeInverse(c, []);
    assert EncodeChar(c) + [] == EncodeChar(c);
  }

  /** A text is encoded character by character. */
  lemma {:induction false} EncodeConcat(s: string, t: string)
    ensures Encode(s + t) == Encode(s) + Encode(t)
  {
    hide EncodeChar;
    if s == "" {
      assert s + t == t;
    } else {
      assert (s + t)[1..] == s[1..] + t;
      EncodeConcat(s[1..], t);
    }
  }

  /** ASCII text is its own bytes. */
  lemma {:induction false} AsciiAsIs(s: string)
    requires forall i :: 0 <= i < |s| ==> s[i] as int < 0x80
    ensures |Encode(s)| == |s| && forall i :: 0 <= i < |s| ==> Encode(s)[i] == s[i] as int
  {
    if s != "" { AsciiAsIs(s[1..]); }
  }

  /** Two texts with the same bytes are the same text. */
  lemma {:induction false} EncodeInjective(s: string, t: string)
    requires Encode(s) == Encode(t)
    ensures s == t
  {
    hide EncodeChar, FirstCode, Width;
    if s != [] && t != [] {
      FirstCodeInverse(s[0], Encode(s[1..]));
      FirstCodeInverse(t[0], Encode(t[1..]));
      assert s[0] as int == t[0] as int;
      assert Encode(s[1..]) == Encode(s)[|EncodeChar(s[0])|..];
      assert Encode(t[1..]) == Encode(t)[|EncodeChar(t[0])|..];
      EncodeInjective(s[1..], t[1..]);
    }
  }
}
