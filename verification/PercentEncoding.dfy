/**
 urlencode and urldecode of includes/udho/util.h (section 2.1 of RFC 3986, with '+' for a space).
 A char below 256 stands for a byte; the signed char of the source has the same bits.
 */
module PercentEncoding {

  type Byte = c: char | c as int < 256

  type Bytes = seq<Byte>

  /** Letters, digits and the marks of section 2.3 of RFC 2396. */
  predicate Unreserved(c: char) {
    'A' <= c <= 'Z' || 'a' <= c <= 'z' || '0' <= c <= '9' || c in "-_.!~*'()"
  }

  predicate IsHex(c: char) {
    '0' <= c <= '9' || 'A' <= c <= 'F' || 'a' <= c <= 'f'
  }

  /** A digit as charToHex writes it. */
  function HexDigit(d: nat): Byte
    requires d < 16
  {
    if d > 9 then ('A' as int - 10 + d) as char else ('0' as int + d) as char
  }

  function CharToHex(c: Byte): Bytes {
    [HexDigit(c as int / 16), HexDigit(c as int % 16)]
  }

  /** A digit as hexToChar reads it: the mask 0xDF makes a small letter a capital one. */
  function HexValue(c: char): (d: nat)
    requires IsHex(c)
    ensures d < 16
  {
    if c >= 'a' then c as int - 'a' as int + 10
    else if c >= 'A' then c as int - 'A' as int + 10
    else c as int - '0' as int
  }

  function HexToChar(first: char, second: char): Byte
    requires IsHex(first) && IsHex(second)
  {
    (16 * HexValue(first) + HexValue(second)) as char
  }

  function EncodeChar(c: Byte): Bytes {
    if c == ' ' then "+" else if Unreserved(c) then [c] else "%" + CharToHex(c)
  }

  function Encode(s: Bytes): Bytes {
    if s == [] then [] else EncodeChar(s[0]) + Encode(s[1..])
  }

  /** A character of a string as its iterator finds it: the end reads as the terminator. */
  function Peek(s: Bytes, i: nat): Byte {
    if i < |s| then s[i] else '\0'
  }

  /** The test that urldecode makes on a '%' at position `i`. */
  predicate Escape(s: Bytes, i: nat) {
    i + 2 <= |s| && s[i] == '%' && IsHex(Peek(s, i + 1)) && IsHex(Peek(s, i + 2))
  }

  function Decode(s: Bytes): Bytes {
    if s == [] then []
    else if s[0] == '+' then " " + Decode(s[1..])
    else if Escape(s, 0) then [HexToChar(s[1], s[2])] + Decode(s[3..])
    else [s[0]] + Decode(s[1..])
  }

  lemma {:induction false} EncodeAt(s: Bytes, i: nat, done: Bytes)
    requires i < |s|
    ensures done + Encode(s[i..]) == done + EncodeChar(s[i]) + Encode(s[i + 1..])
  {
    hide EncodeChar;
    assert s[i..][1..] == s[i + 1..];
    assert done + (EncodeChar(s[i]) + Encode(s[i + 1..])) == done + EncodeChar(s[i]) + Encode(s[i + 1..]);
  }

  method EncodeLoop(src: Bytes) returns (result: Bytes)
    ensures result == Encode(src)
  {
    hide EncodeChar;
    result := [];
    assert src[0..] == src;
    for i := 0 to |src|
      invariant result + Encode(src[i..]) == Encode(src)
    {
      EncodeAt(src, i, result);
      result := result + EncodeChar(src[i]);
    }
  }

  method DecodeLoop(src: Bytes) returns (result: Bytes)
    ensures result == Decode(src)
  {
    result := [];
    var i := 0;
    while i < |src|
      invariant i <= |src|
      invariant result + Decode(src[i..]) == Decode(src)
    {
      DecodeAt(src, i, result);
      if src[i] == '+' {
        result := result + " ";
      } else if src[i] == '%' {
        if i + 2 <= |src| && IsHex(Peek(src, i + 1)) && IsHex(Peek(src, i + 2)) {
          result := result + [HexToChar(src[i + 1], src[i + 2])];
          i := i + 2;
        } else {
          result := result + "%";
        }
      } else {
        result := result + [src[i]];
      }
      i := i + 1;
    }
  }

  /** One character, or one escape, is read off the front of what is left. */
  lemma DecodeAt(s: Bytes, i: nat, done: Bytes)
    requires i < |s|
    ensures Escape(s, i) ==> i + 2 < |s|
    ensures done + Decode(s[i..]) ==
      if s[i] == '+' then done + " " + Decode(s[i + 1..])
      else if Escape(s, i) then done + [HexToChar(s[i + 1], s[i + 2])] + Decode(s[i + 3..])
      else done + [s[i]] + Decode(s[i + 1..])
  {
    var t := s[i..];
    assert Escape(t, 0) == Escape(s, i);
    assert t[1..] == s[i + 1..];
    if Escape(s, i) { assert t[3..] == s[i + 3..]; }
  }

  /* ---- what they promise ---- */

  lemma HexRoundTrip(c: Byte)
    ensures IsHex(CharToHex(c)[0]) && IsHex(CharToHex(c)[1])
    ensures HexToChar(CharToHex(c)[0], CharToHex(c)[1]) == c
  {
  }

  lemma DecodeOne(c: Byte, rest: Bytes)
    ensures Decode(EncodeChar(c) + rest) == [c] + Decode(rest)
  {
    var s := EncodeChar(c) + rest;
    if c == ' ' || Unreserved(c) {
      assert s[1..] == rest;
    } else {
      HexRoundTrip(c);
      assert s[3..] == rest;
    }
  }

  /** Decoding takes every encoded byte string back. */
  lemma {:induction false} EncodingRoundTrip(s: Bytes)
    ensures Decode(Encode(s)) == s
  {
    if s != [] {
      DecodeOne(s[0], Encode(s[1..]));
      EncodingRoundTrip(s[1..]);
    }
  }

  const CAPITALS := "ABCDEFGHIJKLMNOPQRSTUVWXYZ"
  const SMALLS := "abcdefghijklmnopqrstuvwxyz"
  const MARKS := "0123456789-_.!~*'()"
  const DIGITS := "0123456789ABCDEF"
  const SMALL_DIGITS := "0123456789abcdef"

  /** What one byte is written as. */
  lemma EncodeByte(c: Byte)
    ensures Encode([c]) ==
      if c == ' ' then "+"
      else if c in CAPITALS || c in SMALLS || c in MARKS then [c]
      else ['%', DIGITS[c as int / 16], DIGITS[c as int % 16]]
  {
    assert [c][1..] == [];
    PlainIs(c);
    HexDigitIs(c as int / 16);
    HexDigitIs(c as int % 16);
  }

  lemma PlainIs(c: char)
    ensures Unreserved(c) <==> c in CAPITALS || c in SMALLS || c in MARKS
  {
    CapitalIs(c);
    SmallIs(c);
    assert Unreserved(c) <==> 'A' <= c <= 'Z' || 'a' <= c <= 'z' || c in MARKS by {
      if '0' <= c <= '9' { assert MARKS[c as int - 48] == c; }
    }
  }

  lemma CapitalIs(c: char)
    ensures c in CAPITALS <==> 'A' <= c <= 'Z'
  {
    if 'A' <= c <= 'Z' { assert CAPITALS[c as int - 65] == c; }
  }

  lemma SmallIs(c: char)
    ensures c in SMALLS <==> 'a' <= c <= 'z'
  {
    if 'a' <= c <= 'z' { assert SMALLS[c as int - 97] == c; }
  }

  lemma HexDigitIs(d: nat)
    requires d < 16
    ensures HexDigit(d) == DIGITS[d]
  {
  }

  /** What an escape of any two digits, large or small, is read as. */
  lemma DecodeEscape(h: nat, l: nat, small: bool)
    requires h < 16 && l < 16
    ensures var digits := if small then SMALL_DIGITS else DIGITS;
            Decode(['%', digits[h], digits[l]]) == [(16 * h + l) as char]
  {
    var digits := if small then SMALL_DIGITS else DIGITS;
    var t: Bytes := ['%', digits[h], digits[l]];
    assert t[3..] == [];
    assert IsHex(digits[h]) && IsHex(digits[l]) && HexValue(digits[h]) == h && HexValue(digits[l]) == l;
  }

  /** What urlencode can write: unreserved characters, '+', and upper-case escapes of everything else. */
  predicate Canonical(t: Bytes) {
    if t == [] then true
    else if t[0] == '%' then
      && |t| >= 3 && IsHex(t[1]) && IsHex(t[2])
      && EncodeChar(HexToChar(t[1], t[2])) == t[..3]
      && Canonical(t[3..])
    else (t[0] == '+' || Unreserved(t[0])) && Canonical(t[1..])
  }

  lemma EncodeCharCanonical(c: Byte, rest: Bytes)
    ensures Canonical(EncodeChar(c) + rest) <==> Canonical(rest)
  {
    var s := EncodeChar(c) + rest;
    if c == ' ' || Unreserved(c) {
      assert s[1..] == rest;
    } else {
      HexRoundTrip(c);
      assert s[3..] == rest && s[..3] == EncodeChar(c);
    }
  }

  lemma {:induction false} EncodeCanonical(s: Bytes)
    ensures Canonical(Encode(s))
  {
    if s != [] {
      EncodeCanonical(s[1..]);
      EncodeCharCanonical(s[0], Encode(s[1..]));
    }
  }

  lemma {:induction false} CanonicalBack(t: Bytes)
    requires Canonical(t)
    ensures Encode(Decode(t)) == t
    decreases |t|
  {
    if t != [] {
      var k := if t[0] == '%' then 3 else 1;
      CanonicalBack(t[k..]);
      assert t == t[..k] + t[k..];
      assert Decode(t)[1..] == Decode(t[k..]);
    }
  }

  /** Encoding takes a decoded text back iff the text is one that urlencode writes. */
  lemma EncodeAfterDecode(t: Bytes)
    ensures Encode(Decode(t)) == t <==> Canonical(t)
  {
    EncodeCanonical(Decode(t));
    if Canonical(t) { CanonicalBack(t); }
  }

  lemma {:induction false} DecodeLength(t: Bytes)
    ensures |Decode(t)| <= |t|
    decreases |t|
  {
    if t != [] {
      DecodeLength(t[1..]);
      if Escape(t, 0) { DecodeLength(t[3..]); }
    }
  }

  lemma EscapeIn(t: Bytes, i: nat)
    requires 0 < i <= |t|
    ensures Escape(t, i) <==> Escape(t[1..], i - 1)
  {
  }

  /** A text passes through unchanged, malformed '%' included, iff it has no '+' and no well-formed escape. */
  lemma {:induction false} DecodeUnchanged(t: Bytes)
    ensures Decode(t) == t <==> '+' !in t && forall i: nat | i <= |t| :: !Escape(t, i)
    decreases |t|
  {
    if t != [] {
      var rest := t[1..];
      assert t == [t[0]] + rest;
      DecodeUnchanged(rest);
      forall i: nat | 0 < i <= |t| ensures Escape(t, i) <==> Escape(rest, i - 1) { EscapeIn(t, i); }
      if Escape(t, 0) {
        DecodeLength(t[3..]);
      } else {
        assert Decode(t)[1..] == Decode(rest);
        if forall i: nat | i <= |t| :: !Escape(t, i) {
          forall i: nat | i <= |rest| ensures !Escape(rest, i) { assert !Escape(t, i + 1); }
        }
        if forall i: nat | i <= |rest| :: !Escape(rest, i) {
          forall i: nat | i <= |t| ensures !Escape(t, i) { if i > 0 { assert !Escape(rest, i - 1); } }
        }
      }
    }
  }

  /** Encoded text cannot be mistaken for the separators of a query or of a URL. */
  lemma {:induction false} EncodedSafe(s: Bytes)
    ensures '&' !in Encode(s) && '=' !in Encode(s) && '?' !in Encode(s) && '/' !in Encode(s) && ':' !in Encode(s)
  {
    if s != [] {
      EncodedSafe(s[1..]);
      CharSafe(s[0]);
      hide EncodeChar;
    }
  }

  lemma CharSafe(c: Byte)
    ensures forall d | d in EncodeChar(c) :: d !in {'&', '=', '?', '/', ':'}
  {
  }
}
