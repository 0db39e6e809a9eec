/**
 The check applied to every TEXT frame (`isValidUtf8`), proved against the grammar
 of UTF-8 in section 4 of RFC 3629.
 */
module Utf8 {
  import opened Bytes

  predicate Tail(b: byte) {
    0x80 <= b <= 0xBF
  }

  /** UTF8-2 of RFC 3629, and the two overlong lead bytes C0 and C1 the library lets through. */
  predicate Form2(c: bytes) {
    |c| == 2 && 0xC0 <= c[0] <= 0xDF && Tail(c[1])
  }

  predicate Form3(c: bytes) {
    && |c| == 3
    && Tail(c[2])
    && (|| (c[0] == 0xE0 && 0xA0 <= c[1] <= 0xBF)
        || ((0xE1 <= c[0] <= 0xEC || 0xEE <= c[0] <= 0xEF) && Tail(c[1]))
        || (c[0] == 0xED && 0x80 <= c[1] <= 0x9F))
  }

  predicate Form4(c: bytes) {
    && |c| == 4
    && Tail(c[2])
    && Tail(c[3])
    && (|| (c[0] == 0xF0 && 0x90 <= c[1] <= 0xBF)
        || (0xF1 <= c[0] <= 0xF3 && Tail(c[1]))
        || (c[0] == 0xF4 && 0x80 <= c[1] <= 0x8F))
  }

  /** One UTF8-char. */
  predicate Char(c: bytes) {
    || (|c| == 1 && c[0] <= 0x7F)
    || Form2(c)
    || Form3(c)
    || Form4(c)
  }

  function Flatten(chars: seq<bytes>): bytes {
    if chars == [] then [] else chars[0] + Flatten(chars[1..])
  }

  /** `s` is a concatenation of UTF8-chars. */
  ghost predicate Splits(s: bytes) {
    exists chars: seq<bytes> :: (forall i | 0 <= i < |chars| :: Char(chars[i])) && Flatten(chars) == s
  }

  /** The length of the UTF8-char that starts `s`, or 0 if none does. */
  function CharLen(s: bytes): (n: nat)
    ensures n <= 4 && n <= |s|
    ensures n > 0 ==> Char(s[..n])
  {
    if |s| >= 1 && Char(s[..1]) then 1
    else if |s| >= 2 && Char(s[..2]) then 2
    else if |s| >= 3 && Char(s[..3]) then 3
    else if |s| >= 4 && Char(s[..4]) then 4
    else 0
  }

  /** The grammar as a left-to-right scan. */
  predicate Valid(s: bytes)
    decreases |s|
  {
    s == [] || (CharLen(s) > 0 && Valid(s[CharLen(s)..]))
  }

  /** The grammar is a prefix code: a char is recognised whatever follows it. */
  lemma CharLenOfPrefix(c: bytes, rest: bytes)
    requires Char(c)
    ensures CharLen(c + rest) == |c|
  {
  }

  lemma {:induction false} ValidOfConcat(a: bytes, b: bytes)
    requires Valid(a)
    ensures Valid(a + b) <==> Valid(b)
    decreases |a|
  {
    if a == [] {
      assert a + b == b;
    } else {
      var n := CharLen(a);
      CharLenOfPrefix(a[..n], a[n..] + b);
      assert a + b == a[..n] + (a[n..] + b);
      assert (a + b)[n..] == a[n..] + b;
      ValidOfConcat(a[n..], b);
    }
  }

  lemma TailsOfChar(c: bytes)
    requires Char(c)
    ensures !Tail(c[0]) && forall k | 0 < k < |c| :: Tail(c[k])
  {
  }

  /** No char starts inside another. */
  lemma StartsOutside(s: bytes, t: bytes, n: nat)
    requires Valid(s) && n <= |t| && Char(t[..n])
    ensures s != [] ==> forall k | 0 < k < n :: s[0] != t[k]
  {
    TailsOfChar(t[..n]);
    if s != [] {
      TailsOfChar(s[..CharLen(s)]);
      assert s[0] == s[..CharLen(s)][0];
    }
    assert forall k | 0 < k < n :: t[k] == t[..n][k];
  }

  /** What comes before a text, in a text, is a text. */
  lemma {:induction false} ValidBefore(a: bytes, b: bytes)
    requires Valid(a + b) && Valid(b)
    ensures Valid(a)
    decreases |a|
  {
    if a != [] {
      var n := CharLen(a + b);
      var c := (a + b)[..n];
      StartsOutside(b, a + b, n);
      assert b != [] ==> (a + b)[|a|] == b[0];
      hide Char, CharLen, Tail;
      if n > |a| {
        assert false;
      }
      assert c == a[..n];
      CharLenOfPrefix(c, a[n..]);
      assert a == c + a[n..];
      assert (a + b)[n..] == a[n..] + b;
      ValidBefore(a[n..], b);
    }
  }

  lemma {:induction false} ValidOfChars(chars: seq<bytes>)
    requires forall i | 0 <= i < |chars| :: Char(chars[i])
    ensures Valid(Flatten(chars))
    decreases |chars|
  {
    if chars != [] {
      var rest := Flatten(chars[1..]);
      CharLenOfPrefix(chars[0], rest);
      assert (chars[0] + rest)[|chars[0]|..] == rest;
      ValidOfChars(chars[1..]);
    }
  }

  lemma {:induction false} CharsOfValid(s: bytes) returns (chars: seq<bytes>)
    requires Valid(s)
    ensures forall i | 0 <= i < |chars| :: Char(chars[i])
    ensures Flatten(chars) == s
    decreases |s|
  {
    if s == [] {
      chars := [];
    } else {
      var n := CharLen(s);
      var rest := CharsOfValid(s[n..]);
      chars := [s[..n]] + rest;
      assert chars[1..] == rest;
      assert s[..n] + s[n..] == s;
    }
  }

  lemma ValidIffSplits(s: bytes)
    ensures Valid(s) <==> Splits(s)
  {
    if Valid(s) {
      var chars := CharsOfValid(s);
    }
    if Splits(s) {
      var chars: seq<bytes> :| (forall i | 0 <= i < |chars| :: Char(chars[i])) && Flatten(chars) == s;
      ValidOfChars(chars);
    }
  }

  /** The library's scan, with its bit tests. */
  method IsValidUtf8(s: bytes) returns (ok: bool)
    ensures ok <==> Splits(s)
  {
    ValidIffSplits(s);
    hide And, Splits, CharLen, Char;
    var i := 0;
    while i < |s|
      invariant 0 <= i <= |s|
      invariant Valid(s) <==> Valid(s[i..])
      decreases |s| - i
    {
      var n := ScanChar(s[i..]);
      if n == 0 {
        return false;
      }
      assert s[i..][n..] == s[i + n..];
      i := i + n;
    }
    return true;
  }

  /** One turn of the scan: the length of the char at the front, or 0 if there is none. */
  method ScanChar(s: bytes) returns (n: nat)
    requires s != []
    ensures n == CharLen(s)
  {
    MaskRanges(s[0]);
    hide And;
    if And(s[0], 0x80) == 0 {
      return 1;
    }
    if And(s[0], 0xE0) == 0xC0 {
      if 1 >= |s| || !IsTail(s[1]) {
        return 0;
      }
      return 2;
    } else if And(s[0], 0xF0) == 0xE0 {
      if 2 >= |s| || !IsTail(s[1]) || !IsTail(s[2]) {
        return 0;
      }
      MaskRanges(s[1]);
      if s[0] == 0xE0 && And(s[1], 0xE0) == 0x80 {
        return 0;
      }
      if s[0] == 0xED && And(s[1], 0xE0) == 0xA0 {
        return 0;
      }
      return 3;
    } else if And(s[0], 0xF8) == 0xF0 {
      if 3 >= |s| || !IsTail(s[1]) || !IsTail(s[2]) || !IsTail(s[3]) {
        return 0;
      }
      MaskRanges(s[1]);
      if s[0] == 0xF0 && And(s[1], 0xF0) == 0x80 {
        return 0;
      }
      if s[0] > 0xF4 || (s[0] == 0xF4 && s[1] > 0x8F) {
        return 0;
      }
      return 4;
    }
    return 0;
  }

  predicate IsTail(b: byte)
    ensures IsTail(b) <==> Tail(b)
  {
    MaskRanges(b);
    And(b, 0xC0) == 0x80
  }

  // ---- Scalar values (sections 3 and 4 of RFC 3629) ----

  type scalar = c: int | 0 <= c < 0xD800 || 0xE000 <= c <= 0x10FFFF

  function Encode(c: scalar): bytes {
    if c < 0x80 then [c]
    else if c < 0x800 then [0xC0 + c / 64, 0x80 + c % 64]
    else if c < 0x10000 then [0xE0 + c / 64 / 64, 0x80 + c / 64 % 64, 0x80 + c % 64]
    else [0xF0 + c / 64 / 64 / 64, 0x80 + c / 64 / 64 % 64, 0x80 + c / 64 % 64, 0x80 + c % 64]
  }

  function EncodeAll(cs: seq<scalar>): bytes {
    if cs == [] then [] else Encode(cs[0]) + EncodeAll(cs[1..])
  }

  predicate Overlong2(b: byte) {
    b == 0xC0 || b == 0xC1
  }

  lemma EncodeIsChar(c: scalar)
    ensures Char(Encode(c))
    ensures forall i | 0 <= i < |Encode(c)| :: !Overlong2(Encode(c)[i])
  {
  }

  lemma Encoded2(lead: int, x: int, v: int)
    requires 2 <= lead < 32 && 0 <= x < 64 && v == 64 * lead + x
    ensures 0x80 <= v < 0x800 && Encode(v) == [0xC0 + lead, 0x80 + x]
  {
  }

  lemma Encoded3(lead: int, x: int, y: int, v: int)
    requires 0 <= lead < 16 && 0 <= x < 64 && 0 <= y < 64 && v == 64 * (64 * lead + x) + y
    requires lead == 0 ==> 32 <= x
    requires lead == 13 ==> x < 32
    ensures 0x800 <= v < 0xD800 || 0xE000 <= v < 0x10000
    ensures Encode(v) == [0xE0 + lead, 0x80 + x, 0x80 + y]
  {
  }

  lemma Encoded4(lead: int, x: int, y: int, z: int, v: int)
    requires 0 <= lead < 5 && 0 <= x < 64 && 0 <= y < 64 && 0 <= z < 64
    requires v == 64 * (64 * (64 * lead + x) + y) + z
    requires lead == 0 ==> 16 <= x
    requires lead == 4 ==> x < 16
    ensures 0x10000 <= v <= 0x10FFFF
    ensures Encode(v) == [0xF0 + lead, 0x80 + x, 0x80 + y, 0x80 + z]
  {
  }

  lemma CharIsEncoded(c: bytes) returns (v: scalar)
    requires Char(c) && !Overlong2(c[0])
    ensures Encode(v) == c
  {
    var b: seq<int> := seq(|c|, i requires 0 <= i < |c| => c[i] as int - 0x80);
    var code: int := c[0];
    if |c| == 2 {
      code := 64 * (b[0] - 0x40) + b[1];
      Encoded2(b[0] - 0x40, b[1], code);
    } else if |c| == 3 {
      code := 64 * (64 * (b[0] - 0x60) + b[1]) + b[2];
      Encoded3(b[0] - 0x60, b[1], b[2], code);
    } else if |c| == 4 {
      code := 64 * (64 * (64 * (b[0] - 0x70) + b[1]) + b[2]) + b[3];
      Encoded4(b[0] - 0x70, b[1], b[2], b[3], code);
    }
    v := code;
  }

  lemma {:induction false} EncodeAllIsValid(cs: seq<scalar>)
    ensures Valid(EncodeAll(cs))
    ensures forall i | 0 <= i < |EncodeAll(cs)| :: !Overlong2(EncodeAll(cs)[i])
    decreases |cs|
  {
    if cs != [] {
      var rest := EncodeAll(cs[1..]);
      EncodeIsChar(cs[0]);
      CharLenOfPrefix(Encode(cs[0]), rest);
      assert (Encode(cs[0]) + rest)[|Encode(cs[0])|..] == rest;
      EncodeAllIsValid(cs[1..]);
    }
  }

  lemma {:induction false} ScalarsOfValid(s: bytes) returns (cs: seq<scalar>)
    requires Valid(s)
    requires forall i | 0 <= i < |s| :: !Overlong2(s[i])
    ensures EncodeAll(cs) == s
    decreases |s|
  {
    if s == [] {
      cs := [];
    } else {
      var n := CharLen(s);
      var first := CharIsEncoded(s[..n]);
      var rest := ScalarsOfValid(s[n..]);
      cs := [first] + rest;
      assert cs[1..] == rest;
      assert s[..n] + s[n..] == s;
    }
  }

  /**
   What the check accepts, in terms of text: a byte string is the UTF-8 form of some scalar values
   exactly when it is accepted and holds neither C0 nor C1. So the encoding of every text is accepted,
   and nothing that is refused (surrogates, longer overlongs, values above 10FFFF) encodes a text.
   */
  lemma AcceptedTexts(s: bytes)
    ensures (exists cs: seq<scalar> :: EncodeAll(cs) == s)
       <==> Splits(s) && forall i | 0 <= i < |s| :: !Overlong2(s[i])
  {
    ValidIffSplits(s);
    if exists cs: seq<scalar> :: EncodeAll(cs) == s {
      var cs: seq<scalar> :| EncodeAll(cs) == s;
      EncodeAllIsValid(cs);
    }
    if Valid(s) && forall i | 0 <= i < |s| :: !Overlong2(s[i]) {
      var cs := ScalarsOfValid(s);
    }
  }

  /** At an input: the overlong form of the null character is accepted, though it is the encoding of no text. */
  lemma OverlongIsAccepted()
    ensures Splits([0xC0, 0x80]) && !exists cs: seq<scalar> :: EncodeAll(cs) == [0xC0, 0x80]
  {
    var c: bytes := [0xC0, 0x80];
    assert Flatten([c]) == c;
    AcceptedTexts(c);
    assert Overlong2(c[0]);
  }
}
