/** The local hexadecimal helpers of the chain crate. */
module Hex {
  import opened Common

  type Byte = b: nat | b < 256

  function Digit(n: nat): (c: char)
    requires n < 16
    ensures '0' <= c <= '9' || 'a' <= c <= 'f'
  {
    if n < 10 then '0' + n as char else 'a' + (n - 10) as char
  }

  function Nibble(c: char): Option<nat> {
    if '0' <= c <= '9' then Some((c - '0') as nat)
    else if 'a' <= c <= 'f' then Some((c - 'a') as nat + 10)
    else if 'A' <= c <= 'F' then Some((c - 'A') as nat + 10)
    else None
  }

  /** Lowercase hexadecimal text of a byte string. */
  function Encode(bytes: seq<Byte>): (s: string)
    ensures |s| == 2 * |bytes|
  {
    if bytes == [] then "" else [Digit(bytes[0] / 16), Digit(bytes[0] % 16)] + Encode(bytes[1..])
  }

  /** Strict decoding: an even number of hex digits of either case, nothing else. */
  function Decode(s: string): (r: Option<seq<Byte>>)
    ensures r.Some? ==> |s| == 2 * |r.value|
  {
    if s == "" then Some([])
    else if |s| == 1 then None
    else
      match (Nibble(s[0]), Nibble(s[1]), Decode(s[2..]))
      case (Some(hi), Some(lo), Some(rest)) =>
        NibbleBound(s[0]);
        NibbleBound(s[1]);
        Some([(16 * hi + lo) as Byte] + rest)
      case _ => None
  }

  /** Exactly the texts of hexadecimal digits in pairs decode. */
  lemma {:induction false} DecodesExactly(s: string)
    ensures Decode(s).Some? <==> |s| % 2 == 0 && forall i :: 0 <= i < |s| ==> IsHexDigit(s[i])
    decreases |s|
  {
    if |s| >= 2 {
      DecodesExactly(s[2..]);
      assert forall i :: 2 <= i < |s| ==> s[i] == s[2..][i - 2];
      NibbleBound(s[0]);
      NibbleBound(s[1]);
    }
  }

  predicate IsHexDigit(c: char) {
    '0' <= c <= '9' || 'a' <= c <= 'f' || 'A' <= c <= 'F'
  }

  predicate IsLowerHex(s: string, byteLen: nat) {
    |s| == 2 * byteLen && forall i :: 0 <= i < |s| ==> '0' <= s[i] <= '9' || 'a' <= s[i] <= 'f'
  }

  lemma NibbleBound(c: char)
    ensures Nibble(c).Some? ==> Nibble(c).value < 16
  {
  }

  lemma NibbleOfDigit(n: nat)
    requires n < 16
    ensures Nibble(Digit(n)) == Some(n)
  {
  }

  /** Encoding is canonical lowercase and decodes to the bytes it came from. */
  lemma {:induction false} RoundTrip(bytes: seq<Byte>)
    ensures Decode(Encode(bytes)) == Some(bytes)
    ensures IsLowerHex(Encode(bytes), |bytes|)
  {
    if bytes != [] {
      var s := Encode(bytes);
      RoundTrip(bytes[1..]);
      assert s[2..] == Encode(bytes[1..]);
      NibbleOfDigit(bytes[0] / 16);
      NibbleOfDigit(bytes[0] % 16);
      assert bytes == [bytes[0]] + bytes[1..];
      forall i | 0 <= i < |s| ensures '0' <= s[i] <= '9' || 'a' <= s[i] <= 'f' {
        if i >= 2 {
          assert s[i] == Encode(bytes[1..])[i - 2];
        }
      }
    }
  }

  function LowerDigit(c: char): char {
    if 'A' <= c <= 'F' then c - 'A' + 'a' else c
  }

  function LowerCase(s: string): (r: string)
    ensures |r| == |s| && forall i :: 0 <= i < |s| ==> r[i] == LowerDigit(s[i])
  {
    if s == "" then "" else [LowerDigit(s[0])] + LowerCase(s[1..])
  }

  function UpperDigit(c: char): char {
    if 'a' <= c <= 'f' then c - 'a' + 'A' else c
  }

  function UpperCase(s: string): (r: string)
    ensures |r| == |s| && forall i :: 0 <= i < |s| ==> r[i] == UpperDigit(s[i])
  {
    if s == "" then "" else [UpperDigit(s[0])] + UpperCase(s[1..])
  }

  predicate IsLetter(c: char) {
    'a' <= c <= 'f' || 'A' <= c <= 'F'
  }

  /** No hexadecimal digit of the text has two spellings. */
  predicate NoLetters(s: string) {
    forall i :: 0 <= i < |s| ==> !IsLetter(s[i])
  }

  lemma DigitCases(c: char)
    ensures LowerDigit(UpperDigit(c)) == LowerDigit(c) == LowerDigit(LowerDigit(c))
    ensures IsLetter(c) <==> LowerDigit(c) != c || UpperDigit(c) != c
  {
  }

  lemma UpperCaseIsRespelling(s: string)
    ensures LowerCase(UpperCase(s)) == LowerCase(s)
  {
    hide LowerCase, UpperCase, LowerDigit, UpperDigit;
    forall i | 0 <= i < |s| ensures LowerCase(UpperCase(s))[i] == LowerCase(s)[i] {
      DigitCases(s[i]);
    }
  }

  lemma LettersHaveTwoSpellings(s: string)
    ensures NoLetters(s) <==> LowerCase(s) == s && UpperCase(s) == s
  {
    hide LowerCase, UpperCase, LowerDigit, UpperDigit, IsLetter;
    forall i | 0 <= i < |s| ensures !IsLetter(s[i]) <==> LowerCase(s)[i] == s[i] && UpperCase(s)[i] == s[i] {
      DigitCases(s[i]);
    }
  }

  /** A text without letters has no other spelling. */
  lemma NoLettersNoSpelling(s: string, t: string)
    requires NoLetters(s) && LowerCase(s) == LowerCase(t)
    ensures s == t
  {
    hide LowerCase;
    forall i | 0 <= i < |s| ensures s[i] == t[i] {
      assert LowerDigit(s[i]) == LowerCase(s)[i] == LowerCase(t)[i] == LowerDigit(t[i]);
    }
  }

  lemma LowerCaseTwice(s: string)
    ensures LowerCase(LowerCase(s)) == LowerCase(s)
  {
    hide LowerCase, LowerDigit;
    forall i | 0 <= i < |s| ensures LowerCase(LowerCase(s))[i] == LowerCase(s)[i] {
      DigitCases(s[i]);
    }
  }

  lemma NibbleOfChar(c: char)
    ensures Nibble(c).Some? ==> Nibble(c).value < 16 && Digit(Nibble(c).value) == LowerDigit(c)
    ensures Nibble(LowerDigit(c)) == Nibble(c)
  {
  }

  lemma SplitByte(hi: nat, lo: nat)
    requires hi < 16 && lo < 16
    ensures (16 * hi + lo) / 16 == hi && (16 * hi + lo) % 16 == lo
  {
  }

  lemma EncodeFirst(hi: nat, lo: nat, rest: seq<Byte>)
    requires hi < 16 && lo < 16
    ensures 16 * hi + lo < 256 && Encode([(16 * hi + lo) as Byte] + rest) == [Digit(hi), Digit(lo)] + Encode(rest)
  {
    SplitByte(hi, lo);
    assert ([(16 * hi + lo) as Byte] + rest)[1..] == rest;
  }

  lemma DecodeFirst(x: char, y: char, rest: string)
    ensures Decode([x, y] + rest).Some? <==> Nibble(x).Some? && Nibble(y).Some? && Decode(rest).Some?
    ensures Decode([x, y] + rest).Some? ==>
      && Nibble(x).value < 16 && Nibble(y).value < 16
      && Decode([x, y] + rest).value == [(16 * Nibble(x).value + Nibble(y).value) as Byte] + Decode(rest).value
  {
    var s := [x, y] + rest;
    assert s[2..] == rest && s[0] == x && s[1] == y;
    NibbleBound(x);
    NibbleBound(y);
  }

  lemma LowerCaseFirst(x: char, y: char, rest: string)
    ensures LowerCase([x, y] + rest) == [LowerDigit(x), LowerDigit(y)] + LowerCase(rest)
  {
    assert ([x, y] + rest)[1..] == [y] + rest && ([y] + rest)[1..] == rest;
  }

  lemma DecodeShort(s: string)
    requires |s| < 2
    ensures Decode(LowerCase(s)) == Decode(s) && (Decode(s).Some? ==> Encode(Decode(s).value) == LowerCase(s))
  {
    assert |LowerCase(s)| == |s|;
  }

  /** Re-encoding what a text decodes to is the text in lower case. */
  lemma {:induction false} DecodeThenEncode(s: string)
    ensures Decode(s).Some? ==> Encode(Decode(s).value) == LowerCase(s)
    ensures Decode(LowerCase(s)) == Decode(s)
    decreases |s|
  {
    hide Nibble, Digit, LowerDigit, Encode, Decode, LowerCase;
    if |s| < 2 {
      DecodeShort(s);
    } else {
      var x, y, rest := s[0], s[1], s[2..];
      assert s == [x, y] + rest;
      DecodeThenEncode(rest);
      DecodeFirst(x, y, rest);
      DecodeFirst(LowerDigit(x), LowerDigit(y), LowerCase(rest));
      LowerCaseFirst(x, y, rest);
      NibbleOfChar(x);
      NibbleOfChar(y);
      if Decode(s).Some? {
        EncodeFirst(Nibble(x).value, Nibble(y).value, Decode(rest).value);
      }
    }
  }

  /** Two texts name the same bytes exactly when they differ in letter case only. */
  lemma SameBytesUpToCase(s: string, t: string)
    requires Decode(s).Some?
    ensures Decode(s) == Decode(t) <==> LowerCase(s) == LowerCase(t)
  {
    DecodeThenEncode(s);
    DecodeThenEncode(t);
  }

  lemma LowerHexIsItsOwnLowerCase(s: string, byteLen: nat)
    requires IsLowerHex(s, byteLen)
    ensures LowerCase(s) == s
  {
    assert forall i :: 0 <= i < |s| ==> LowerDigit(s[i]) == s[i];
  }

  lemma EncodeInjective(a: seq<Byte>, b: seq<Byte>)
    requires Encode(a) == Encode(b)
    ensures a == b
  {
    RoundTrip(a);
    RoundTrip(b);
  }
}
