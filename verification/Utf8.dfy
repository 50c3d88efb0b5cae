/** Well-formed UTF-8 (section 4 of RFC 3629), as String::from_utf8 accepts it. */
module Utf8 {
  import opened Words

  predicate Tail(b: Byte) {
    0x80 <= b <= 0xBF
  }

  /** The length of the well-formed character at the front, or 0. */
  function CharLength(s: seq<Byte>): (n: nat)
    ensures n <= |s|
  {
    if |s| >= 1 && s[0] <= 0x7F then 1
    else if |s| >= 2 && 0xC2 <= s[0] <= 0xDF && Tail(s[1]) then 2
    else if |s| >= 3 && Tail(s[2])
            && (if s[0] == 0xE0 then 0xA0 <= s[1] <= 0xBF
                else if s[0] == 0xED then 0x80 <= s[1] <= 0x9F
                else 0xE1 <= s[0] <= 0xEF && Tail(s[1])) then 3
    else if |s| >= 4 && Tail(s[2]) && Tail(s[3])
            && (if s[0] == 0xF0 then 0x90 <= s[1] <= 0xBF
                else if s[0] == 0xF4 then 0x80 <= s[1] <= 0x8F
                else 0xF1 <= s[0] <= 0xF3 && Tail(s[1])) then 4
    else 0
  }

  predicate ValidUtf8(s: seq<Byte>) {
    s == [] || (CharLength(s) > 0 && ValidUtf8(s[CharLength(s)..]))
  }

  // ----- what that accepts -----

  /** A Unicode scalar value: a code point that is not a surrogate. */
  predicate IsScalar(c: nat) {
    c < 0xD800 || 0xE000 <= c < 0x110000
  }

  /** The table in section 3 of RFC 3629. */
  function Encode(c: nat): (bytes: seq<Byte>)
    requires IsScalar(c)
  {
    if c < 0x80 then [c]
    else if c < 0x800 then [0xC0 + c / 0x40, 0x80 + c % 0x40]
    else if c < 0x10000 then [0xE0 + c / 0x1000, 0x80 + c / 0x40 % 0x40, 0x80 + c % 0x40]
    else [0xF0 + c / 0x40000, 0x80 + c / 0x1000 % 0x40, 0x80 + c / 0x40 % 0x40, 0x80 + c % 0x40]
  }

  /** A text's encoding: its characters', one after the other. */
  ghost predicate IsEncoding(text: seq<nat>, bytes: seq<Byte>)
    decreases |text|
  {
    if text == [] then bytes == []
    else
      && IsScalar(text[0]) && Encode(text[0]) <= bytes
      && IsEncoding(text[1..], bytes[|Encode(text[0])|..])
  }

  /** The character at the front is recognised for what it is. */
  lemma EncodedLength(c: nat, s: seq<Byte>)
    requires IsScalar(c) && Encode(c) <= s
    ensures CharLength(s) == |Encode(c)|
  {
    var bytes := Encode(c);
    assert forall i | 0 <= i < |bytes| :: s[i] == bytes[i];
  }

  /** What is recognised at the front is a character. */
  lemma DecodedAtFront(s: seq<Byte>) returns (c: nat)
    requires CharLength(s) > 0
    ensures IsScalar(c) && Encode(c) <= s && |Encode(c)| == CharLength(s)
  {
    var n := CharLength(s);
    if n == 1 {
      c := s[0];
    } else if n == 2 {
      var b0: int, b1: int := s[0], s[1];
      c := (b0 - 0xC0) * 0x40 + (b1 - 0x80);
    } else if n == 3 {
      var b0: int, b1: int, b2: int := s[0], s[1], s[2];
      c := (b0 - 0xE0) * 0x1000 + (b1 - 0x80) * 0x40 + (b2 - 0x80);
      ThreeBytes(b0 - 0xE0, b1 - 0x80, b2 - 0x80, c);
    } else {
      var b0: int, b1: int, b2: int, b3: int := s[0], s[1], s[2], s[3];
      c := (b0 - 0xF0) * 0x40000 + (b1 - 0x80) * 0x1000 + (b2 - 0x80) * 0x40 + (b3 - 0x80);
      FourBytes(b0 - 0xF0, b1 - 0x80, b2 - 0x80, b3 - 0x80, c);
    }
  }

  lemma ThreeBytes(x: nat, y: nat, z: nat, c: nat)
    requires y < 0x40 && z < 0x40 && c == x * 0x1000 + y * 0x40 + z
    ensures c / 0x1000 == x && c / 0x40 % 0x40 == y && c % 0x40 == z
  {
    assert c / 0x40 == x * 0x40 + y;
  }

  lemma FourBytes(w: nat, x: nat, y: nat, z: nat, c: nat)
    requires x < 0x40 && y < 0x40 && z < 0x40 && c == w * 0x40000 + x * 0x1000 + y * 0x40 + z
    ensures c / 0x40000 == w && c / 0x1000 % 0x40 == x && c / 0x40 % 0x40 == y && c % 0x40 == z
  {
    assert c / 0x40 == w * 0x1000 + x * 0x40 + y;
    assert c / 0x1000 == w * 0x40 + x;
  }

  lemma {:induction false} EncodingIsValid(text: seq<nat>, s: seq<Byte>)
    requires IsEncoding(text, s)
    ensures ValidUtf8(s)
    decreases |text|
  {
    if text == [] {
    } else {
      EncodedLength(text[0], s);
      hide CharLength;
      EncodingIsValid(text[1..], s[|Encode(text[0])|..]);
    }
  }

  lemma {:induction false} ValidHasText(s: seq<Byte>) returns (text: seq<nat>)
    requires ValidUtf8(s)
    ensures IsEncoding(text, s)
    decreases |s|
  {
    if s == [] {
      text := [];
    } else {
      hide Encode;
      var c := DecodedAtFront(s);
      var rest := ValidHasText(s[CharLength(s)..]);
      text := [c] + rest;
      assert text[1..] == rest;
    }
  }

  /** Bytes are accepted exactly when they are the encoding of some text. */
  lemma ValidIff(s: seq<Byte>)
    ensures ValidUtf8(s) <==> exists text :: IsEncoding(text, s)
  {
    if ValidUtf8(s) {
      var text := ValidHasText(s);
    }
    if text :| IsEncoding(text, s) {
      EncodingIsValid(text, s);
    }
  }
}
