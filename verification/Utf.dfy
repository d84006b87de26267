/** Unicode characters in UTF-8 and UTF-16, one character at a time (ConvertUTF.c; sections 3 and 4 of
    RFC 3629, section 2 of RFC 2781).  Masks and shifts are written as quotients, remainders and sums. */
module Utf {
  import opened Base

  const UNI_REPLACEMENT_CHAR := 0xFFFD
  const UNI_MAX_BMP := 0xFFFF
  const UNI_MAX_LEGAL_UTF32 := 0x10FFFF
  const HALF_BASE := 0x10000
  const UNI_SUR_HIGH_START := 0xD800
  const UNI_SUR_HIGH_END := 0xDBFF
  const UNI_SUR_LOW_START := 0xDC00
  const UNI_SUR_LOW_END := 0xDFFF

  predicate IsSurrogate(ch: nat) {
    UNI_SUR_HIGH_START <= ch <= UNI_SUR_LOW_END
  }

  /** A Unicode scalar value */
  predicate IsScalar(ch: nat) {
    ch <= UNI_MAX_LEGAL_UTF32 && !IsSurrogate(ch)
  }

  // ---------- UTF-8 ----------

  /** Section 3 of RFC 3629 */
  function Utf8(ch: nat): Bytes
    requires ch <= UNI_MAX_LEGAL_UTF32
  {
    if ch < 0x80 then [ch]
    else if ch < 0x800 then [0xC0 + ch / 64, 0x80 + ch % 64]
    else if ch < 0x10000 then [0xE0 + ch / 4096, 0x80 + ch / 64 % 64, 0x80 + ch % 64]
    else [0xF0 + ch / 262144, 0x80 + ch / 4096 % 64, 0x80 + ch / 64 % 64, 0x80 + ch % 64]
  }

  /** trailingBytesForUTF8 */
  function TrailingBytes(b: Byte): nat {
    if b < 0xC0 then 0 else if b < 0xE0 then 1 else if b < 0xF0 then 2 else if b < 0xF8 then 3
    else if b < 0xFC then 4 else 5
  }

  predicate IsContinuation(b: Byte) {
    0x80 <= b <= 0xBF
  }

  predicate SecondIsLegal(b: Byte, a: Byte) {
    a <= 0xBF &&
    if b == 0xE0 then a >= 0xA0
    else if b == 0xED then 0x80 <= a <= 0x9F
    else if b == 0xF0 then a >= 0x90
    else if b == 0xF4 then a <= 0x8F
    else a >= 0x80
  }

  /** isLegalUTF8 on a sequence as long as its first byte says */
  predicate IsLegal(s: Bytes)
    requires s != []
  {
    |s| <= 4 &&
    (|s| == 4 ==> IsContinuation(s[3])) &&
    (|s| >= 3 ==> IsContinuation(s[2])) &&
    (|s| >= 2 ==> SecondIsLegal(s[0], s[1])) &&
    !(0x80 <= s[0] < 0xC2) && s[0] <= 0xF4
  }

  /** The sequences isLegalUTF8 should not let through: after F4 it does not ask for a continuation byte. */
  predicate IsStray(s: Bytes) {
    |s| == 4 && s[0] == 0xF4 && s[1] < 0x80
  }

  /** offsetsFromUTF8 */
  function Offset(extra: nat): nat
    requires extra < 4
  {
    match extra
    case 0 => 0
    case 1 => 0x3080
    case 2 => 0xE2080
    case _ => 0x3C82080
  }

  function Joined(s: Bytes): nat {
    if s == [] then 0 else 64 * Joined(s[..|s| - 1]) + s[|s| - 1]
  }

  /** The character of a legal sequence */
  function Decode(s: Bytes): int
    requires 1 <= |s| <= 4
  {
    Joined(s) - Offset(|s| - 1)
  }

  lemma JoinedBytes(s: Bytes)
    requires 1 <= |s| <= 4
    ensures |s| == 1 ==> Joined(s) == s[0]
    ensures |s| == 2 ==> Joined(s) == 64 * (s[0] as nat) + s[1]
    ensures |s| == 3 ==> Joined(s) == 4096 * (s[0] as nat) + 64 * (s[1] as nat) + s[2]
    ensures |s| == 4 ==> Joined(s) == 262144 * (s[0] as nat) + 4096 * (s[1] as nat) + 64 * (s[2] as nat) + s[3]
  {
    assert s[..|s|] == s;
    if |s| > 1 {
      JoinedBytes(s[..|s| - 1]);
    }
  }

  /** A number cut into digits of six bits */
  lemma SixBits(ch: nat)
    ensures ch == 64 * (ch / 64) + ch % 64
    ensures ch / 64 == 64 * (ch / 4096) + ch / 64 % 64
    ensures ch / 4096 == 64 * (ch / 262144) + ch / 4096 % 64
  {
  }

  lemma DigitsUnique(a: nat, b: nat, c: nat, d: nat, ch: nat)
    requires ch == 262144 * a + 4096 * b + 64 * c + d && b < 64 && c < 64 && d < 64
    ensures ch % 64 == d && ch / 64 % 64 == c && ch / 4096 % 64 == b && ch / 262144 == a
  {
    assert ch / 64 == 4096 * a + 64 * b + c;
    assert ch / 4096 == 64 * a + b;
  }

  /** The characters of the examples in section 7 of RFC 3629 */
  lemma KnownEncodings()
    ensures Utf8(0x0041) == [0x41] && Utf8(0x0391) == [0xCE, 0x91]
    ensures Utf8(0x2262) == [0xE2, 0x89, 0xA2] && Utf8(0x233B4) == [0xF0, 0xA3, 0x8E, 0xB4]
  {
  }

  /** Encoding, then decoding */
  lemma DecodeEncoded(ch: nat)
    requires ch <= UNI_MAX_LEGAL_UTF32
    ensures |Utf8(ch)| == TrailingBytes(Utf8(ch)[0]) + 1 <= 4
    ensures Decode(Utf8(ch)) == ch
    ensures IsScalar(ch) ==> IsLegal(Utf8(ch)) && !IsStray(Utf8(ch))
  {
    SixBits(ch);
    JoinedBytes(Utf8(ch));
  }

  /** Decoding, then encoding: a legal sequence is the encoding of a scalar value, unless it is a stray one. */
  lemma EncodeDecoded(s: Bytes)
    requires s != [] && |s| == TrailingBytes(s[0]) + 1 && IsLegal(s)
    ensures 0 <= Decode(s) && IsScalar(Decode(s))
    ensures Utf8(Decode(s)) == s <==> !IsStray(s)
  {
    JoinedBytes(s);
    var ch := Decode(s);
    if |s| == 2 {
      DigitsUnique(0, 0, s[0] - 0xC0, s[1] - 0x80, ch);
    } else if |s| == 3 {
      DigitsUnique(0, s[0] - 0xE0, s[1] - 0x80, s[2] - 0x80, ch);
    } else if |s| == 4 && !IsStray(s) {
      DigitsUnique(s[0] - 0xF0, s[1] - 0x80, s[2] - 0x80, s[3] - 0x80, ch);
    }
  }

  /** isLegalUTF8 on a sequence of the right length, said without its cases */
  lemma LegalOrStray(s: Bytes)
    requires s != [] && |s| == TrailingBytes(s[0]) + 1
    ensures (exists ch: nat :: IsScalar(ch) && Utf8(ch) == s) <==> IsLegal(s) && !IsStray(s)
  {
    if IsLegal(s) && !IsStray(s) {
      EncodeDecoded(s);
      assert IsScalar(Decode(s)) && Utf8(Decode(s)) == s;
    }
    if ch: nat :| IsScalar(ch) && Utf8(ch) == s {
      DecodeEncoded(ch);
    }
  }

  // ---------- whole strings ----------

  predicate AllScalar(chars: seq<nat>) {
    forall k :: 0 <= k < |chars| ==> IsScalar(chars[k])
  }

  function Utf8All(chars: seq<nat>): Bytes
    requires AllScalar(chars)
  {
    if chars == [] then [] else Utf8(chars[0]) + Utf8All(chars[1..])
  }

  /** The string is a sequence of encoded Unicode scalar values. */
  ghost predicate IsText(s: Bytes) {
    exists chars :: AllScalar(chars) && Utf8All(chars) == s
  }

  /** How many bytes isLegalUTF8Sequence and tr_utf8_validate get through */
  function GoodPrefix(s: Bytes): (n: nat)
    ensures n <= |s|
  {
    if s == [] then 0 else
      var len := TrailingBytes(s[0]) + 1;
      if len > |s| || !IsLegal(s[..len]) then 0 else len + GoodPrefix(s[len..])
  }

  predicate IsStrayAt(s: Bytes, i: nat) {
    i + 1 < |s| && s[i] == 0xF4 && s[i + 1] < 0x80
  }

  /** Somewhere F4 is followed by an ASCII character. */
  ghost predicate HasStray(s: Bytes) {
    exists i: nat :: IsStrayAt(s, i)
  }

  lemma NoStrayInText(chars: seq<nat>)
    requires AllScalar(chars)
    ensures !HasStray(Utf8All(chars))
  {
    if i: nat :| IsStrayAt(Utf8All(chars), i) {
      StrayNowhere(chars, i);
    }
  }

  lemma {:induction false} StrayNowhere(chars: seq<nat>, i: nat)
    requires AllScalar(chars)
    ensures !IsStrayAt(Utf8All(chars), i)
  {
    if chars != [] {
      var n := |Utf8(chars[0])|;
      var rest := Utf8All(chars[1..]);
      DecodeEncoded(chars[0]);
      SixBits(chars[0]);
      if i >= n {
        StrayNowhere(chars[1..], i - n);
      }
    }
  }

  lemma TextStep(s: Bytes, len: nat)
    requires 0 < len <= |s| && len == TrailingBytes(s[0]) + 1 && IsLegal(s[..len]) && !IsStray(s[..len])
    ensures IsText(s[len..]) ==> IsText(s)
  {
    if chars :| AllScalar(chars) && Utf8All(chars) == s[len..] {
      EncodeDecoded(s[..len]);
      var all := [Decode(s[..len])] + chars;
      assert all[1..] == chars;
      assert AllScalar(all) && Utf8All(all) == s[..len] + s[len..];
    }
  }

  lemma StrayParts(s: Bytes, len: nat)
    requires len <= |s|
    ensures IsStray(s[..len]) || HasStray(s[len..]) ==> HasStray(s)
  {
    if IsStray(s[..len]) {
      assert IsStrayAt(s, 0);
    }
    if i: nat :| IsStrayAt(s[len..], i) {
      assert IsStrayAt(s, len + i);
    }
  }

  lemma {:induction false} GoodPrefixIsText(s: Bytes)
    requires !HasStray(s) && GoodPrefix(s) == |s|
    ensures IsText(s)
  {
    if s == [] {
      assert AllScalar([]) && Utf8All([]) == s;
    } else {
      var len := TrailingBytes(s[0]) + 1;
      StrayParts(s, len);
      GoodPrefixIsText(s[len..]);
      TextStep(s, len);
    }
  }

  /** All of the good part is good. */
  lemma {:induction false} GoodOfGood(s: Bytes)
    ensures GoodPrefix(s[..GoodPrefix(s)]) == GoodPrefix(s)
  {
    if GoodPrefix(s) > 0 {
      var len := TrailingBytes(s[0]) + 1;
      var t, good := s[len..], s[..GoodPrefix(s)];
      GoodOfGood(t);
      assert good[..len] == s[..len] && good[len..] == t[..GoodPrefix(t)];
    }
  }

  /** Every text at the front of the string is gone through. */
  lemma {:induction false} TextIsGood(chars: seq<nat>, s: Bytes)
    requires AllScalar(chars)
    ensures GoodPrefix(Utf8All(chars) + s) == |Utf8All(chars)| + GoodPrefix(s)
  {
    if chars == [] {
      assert [] + s == s;
    } else {
      var first, rest := Utf8(chars[0]), Utf8All(chars[1..]);
      DecodeEncoded(chars[0]);
      assert (first + rest) + s == first + (rest + s);
      FirstIsGood(first, rest + s);
      TextIsGood(chars[1..], s);
    }
  }

  lemma FirstIsGood(first: Bytes, rest: Bytes)
    requires first != [] && |first| == TrailingBytes(first[0]) + 1 && IsLegal(first)
    ensures GoodPrefix(first + rest) == |first| + GoodPrefix(rest)
  {
    var all := first + rest;
    assert all[..|first|] == first && all[|first|..] == rest;
  }

  /** A string is text exactly when all of it is gone through and no F4 in it is followed by ASCII. */
  lemma ValidExactly(s: Bytes)
    ensures IsText(s) <==> GoodPrefix(s) == |s| && !HasStray(s)
  {
    if GoodPrefix(s) == |s| && !HasStray(s) {
      GoodPrefixIsText(s);
    }
    if chars :| AllScalar(chars) && Utf8All(chars) == s {
      NoStrayInText(chars);
      TextIsGood(chars, []);
      assert s + [] == s;
    }
  }

  /** What is gone through reaches as far as any text at the front of the string, and is itself text exactly when no
      F4 in it is followed by ASCII. */
  lemma LongestGoodPrefix(s: Bytes, n: nat)
    requires n <= |s|
    ensures IsText(s[..GoodPrefix(s)]) <==> !HasStray(s[..GoodPrefix(s)])
    ensures IsText(s[..n]) ==> n <= GoodPrefix(s)
  {
    GoodOfGood(s);
    ValidExactly(s[..GoodPrefix(s)]);
    if chars :| AllScalar(chars) && Utf8All(chars) == s[..n] {
      TextWithin(chars, s, n);
    }
  }

  lemma TextWithin(chars: seq<nat>, s: Bytes, n: nat)
    requires n <= |s| && AllScalar(chars) && Utf8All(chars) == s[..n]
    ensures n <= GoodPrefix(s)
  {
    TextIsGood(chars, s[n..]);
    assert s[..n] + s[n..] == s;
  }

  /** A string that is let through though it is not text */
  lemma StrayIsLetThrough()
    ensures var s: Bytes := [0xF4, 0x41, 0x80, 0x80]; GoodPrefix(s) == |s| && !IsText(s)
  {
    var s: Bytes := [0xF4, 0x41, 0x80, 0x80];
    assert s[..4] == s && s[4..] == [];
    assert IsStrayAt(s, 0);
    ValidExactly(s);
  }

  /** isLegalUTF8 with its falling through */
  method IsLegalUtf8(s: Bytes) returns (legal: bool)
    requires s != []
    ensures legal == IsLegal(s)
  {
    if |s| > 4 {
      return false;
    }
    if |s| >= 4 && (s[3] < 0x80 || s[3] > 0xBF) {
      return false;
    }
    if |s| >= 3 && (s[2] < 0x80 || s[2] > 0xBF) {
      return false;
    }
    if |s| >= 2 {
      var a := s[1];
      if a > 0xBF {
        return false;
      }
      match s[0] {
        case 0xE0 => if a < 0xA0 { return false; }
        case 0xED => if a < 0x80 || a > 0x9F { return false; }
        case 0xF0 => if a < 0x90 { return false; }
        case 0xF4 => if a > 0x8F { return false; }
        case _ => if a < 0x80 { return false; }
      }
    }
    if s[0] >= 0x80 && s[0] < 0xC2 {
      return false;
    }
    legal := s[0] <= 0xF4;
  }

  lemma GoodStep(s: Bytes, at: nat)
    requires at < |s|
    ensures var len := TrailingBytes(s[at]) + 1;
      GoodPrefix(s[at..]) == (if at + len <= |s| && IsLegal(s[at..at + len]) then len + GoodPrefix(s[at + len..]) else 0)
  {
    var len := TrailingBytes(s[at]) + 1;
    if at + len <= |s| {
      assert s[at..][..len] == s[at..at + len] && s[at..][len..] == s[at + len..];
    }
  }

  /** tr_utf8_validate: where the good part of a string ends, and whether it is all of it.  The end is never short of
      the longest text, and is past it, or the verdict wrong, exactly where an F4 that is followed by ASCII has been
      gone through. */
  method Utf8Validate(s: Bytes) returns (good: bool, end: nat)
    ensures end <= |s| && good == (end == |s|)
    ensures IsText(s[..end]) <==> !HasStray(s[..end])
    ensures forall n: nat :: n <= |s| && IsText(s[..n]) ==> n <= end
    ensures (good <==> IsText(s)) <==> !(good && HasStray(s))
  {
    good, end := ValidPart(s);
    ValidExactly(s);
    forall n: nat | n <= |s|
      ensures IsText(s[..n]) ==> n <= end
    {
      LongestGoodPrefix(s, n);
    }
    LongestGoodPrefix(s, 0);
  }

  method ValidPart(s: Bytes) returns (good: bool, end: nat)
    ensures end == GoodPrefix(s) && good == (end == |s|)
  {
    end := 0;
    if s == [] {
      return true, end;
    }
    while true
      invariant end < |s| && end + GoodPrefix(s[end..]) == GoodPrefix(s)
      decreases |s| - end
    {
      GoodStep(s, end);
      var length := TrailingBytes(s[end]) + 1;
      if end + length > |s| {
        return false, end;
      }
      var legal := IsLegalUtf8(s[end..end + length]);
      if !legal {
        return false, end;
      }
      end := end + length;
      if end >= |s| {
        return true, end;
      }
    }
  }
}
