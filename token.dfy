/**
 * The textual form of an identifier: 13 characters, each one 5-bit group of
 * the identifier, most significant group first. The symbols are the
 * "Extended Hex" Base 32 alphabet of section 7 of RFC 4648, without that
 * standard's byte-oriented grouping or padding: the window is a fixed
 * 65 bits.
 */
module Tokens {
  import opened Bits

  /** The "Extended Hex" Base 32 alphabet, section 7 of RFC 4648. */
  const ExtendedHex: string := "0123456789ABCDEFGHIJKLMNOPQRSTUV"

  /** Number of characters in a token. */
  const TokenLength: nat := 13

  /** A character the token alphabet contains. */
  predicate IsTokenChar(c: char)
  {
    '0' <= c <= '9' || 'A' <= c <= 'V'
  }

  /** `get_char`: digits below ten map to '0'..'9', the rest to 'A' onwards. */
  function GetChar(num: nat): (c: char)
    requires num < 32
    ensures IsTokenChar(c)
  {
    if num <= 9 then (num + '0' as int) as char else (num - 10 + 'A' as int) as char
  }

  /** get_char maps each digit to its symbol of the Extended Hex alphabet. */
  lemma GetCharAlphabet(num: nat)
    requires num < 32
    ensures GetChar(num) == ExtendedHex[num]
  {
  }

  /** The inverse of GetChar on the token alphabet. */
  function DigitValue(c: char): (d: nat)
    requires IsTokenChar(c)
    ensures d < 32 && GetChar(d) == c
  {
    if c <= '9' then c as int - '0' as int else c as int - 'A' as int + 10
  }

  /** The k low 5-bit groups of x as characters, most significant first. */
  function Digits(x: nat, k: nat): (s: string)
    ensures |s| == k
    ensures forall i :: 0 <= i < k ==> IsTokenChar(s[i])
  {
    if k == 0 then [] else Digits(x / 32, k - 1) + [GetChar(x % 32)]
  }

  /** The 13-character token of an identifier. */
  function Token(id: nat): (s: string)
    ensures |s| == TokenLength
    ensures forall i :: 0 <= i < |s| ==> IsTokenChar(s[i])
  {
    Digits(id, TokenLength)
  }

  /** Reads a string of token characters back as a number, most significant first. */
  function Decode(s: string): nat
    requires forall i :: 0 <= i < |s| ==> IsTokenChar(s[i])
  {
    if s == [] then 0 else Decode(s[..|s| - 1]) * 32 + DigitValue(s[|s| - 1])
  }

  /** Python's `<` on strings: a proper prefix, or a smaller character where they first differ. */
  predicate LexLess(a: string, b: string)
  {
    |b| > 0 && (|a| == 0 || a[0] < b[0] || (a[0] == b[0] && LexLess(a[1..], b[1..])))
  }

  /**
   * The 13-step loop of `next_str`: take the low 5 bits, store their
   * character from the right end, shift right by 5.
   */
  method EncodeId(id: nat) returns (s: string)
    ensures s == Token(id)
    ensures |s| == TokenLength
    ensures forall i :: 0 <= i < |s| ==> IsTokenChar(s[i])
  {
    var chars := new char[TokenLength](_ => '0');
    var n := id;
    for i := 0 to TokenLength
      invariant Digits(n, TokenLength - i) + chars[TokenLength - i..] == Token(id)
    {
      LowGroup(n);
      var c := GetChar(BitAnd(n, 0x1f));
      ghost var done := chars[TokenLength - i..];
      chars[TokenLength - 1 - i] := c;
      assert chars[TokenLength - 1 - i..] == [c] + done;
      n := ShiftRight(n, 5);
    }
    s := chars[..];
  }

  /** `n & 0x1f` is the low 5-bit group of n and `n >> 5` the rest. */
  lemma LowGroup(n: nat)
    ensures BitAnd(n, 0x1f) == n % 32 && ShiftRight(n, 5) == n / 32
  {
    assert Pow2(5) == 32;
    AndLowMask(n, 5);
  }

  /** get_char is injective and preserves order: the alphabet is sorted by code point. */
  lemma GetCharOrder(a: nat, b: nat)
    requires a < 32 && b < 32
    ensures GetChar(a) < GetChar(b) <==> a < b
    ensures GetChar(a) == GetChar(b) <==> a == b
  {
  }

  lemma Pow2Five(k: nat)
    requires k >= 1
    ensures Pow2(5 * k) == 32 * Pow2(5 * (k - 1))
  {
    Pow2Add(5, 5 * (k - 1));
    assert Pow2(5) == 32;
  }

  /** Decoding the k digits of x gives x back whenever x fits in 5k bits. */
  lemma {:induction false} DigitsRoundTrip(x: nat, k: nat)
    requires x < Pow2(5 * k)
    ensures Decode(Digits(x, k)) == x
  {
    if k > 0 {
      Pow2Five(k);
      DigitsRoundTrip(x / 32, k - 1);
      var s := Digits(x, k);
      assert s[..|s| - 1] == Digits(x / 32, k - 1);
    }
  }

  /** Decoding a token reproduces every identifier below 2^65. */
  lemma TokenRoundTrip(id: nat)
    requires id < Pow2(65)
    ensures Decode(Token(id)) == id
  {
    DigitsRoundTrip(id, TokenLength);
  }

  /** Two different identifiers below 2^65 have different tokens. */
  lemma TokenInjective(a: nat, b: nat)
    requires a < Pow2(65) && b < Pow2(65) && Token(a) == Token(b)
    ensures a == b
  {
    TokenRoundTrip(a);
    TokenRoundTrip(b);
  }

  /** Appending one character to two equally long strings compares them by the prefixes first. */
  lemma {:induction false} LexLessAppend(a: string, b: string, c: char, d: char)
    requires |a| == |b|
    ensures LexLess(a + [c], b + [d]) <==> LexLess(a, b) || (a == b && c < d)
  {
    if |a| > 0 {
      assert (a + [c])[1..] == a[1..] + [c];
      assert (b + [d])[1..] == b[1..] + [d];
      LexLessAppend(a[1..], b[1..], c, d);
      assert a == b <==> a[0] == b[0] && a[1..] == b[1..] by {
        if a[0] == b[0] && a[1..] == b[1..] {
          assert a == [a[0]] + a[1..];
          assert b == [b[0]] + b[1..];
        }
      }
    }
  }

  /** Tokens of the same length compare as strings exactly as the numbers compare. */
  lemma {:induction false} DigitsOrder(x: nat, y: nat, k: nat)
    requires x < Pow2(5 * k) && y < Pow2(5 * k)
    ensures LexLess(Digits(x, k), Digits(y, k)) <==> x < y
  {
    if k == 0 {
      assert x == 0 && y == 0;
    } else {
      var p := Pow2(5 * (k - 1));
      Pow2Five(k);
      DivBelow(x, 32, p);
      DivBelow(y, 32, p);
      DigitsOrder(x / 32, y / 32, k - 1);
      DigitsOrderStep(x, y, k);
    }
  }

  /** The last digit decides the order only when the higher digits agree. */
  lemma DigitsOrderStep(x: nat, y: nat, k: nat)
    requires k > 0 && x / 32 < Pow2(5 * (k - 1)) && y / 32 < Pow2(5 * (k - 1))
    requires LexLess(Digits(x / 32, k - 1), Digits(y / 32, k - 1)) <==> x / 32 < y / 32
    ensures LexLess(Digits(x, k), Digits(y, k)) <==> x < y
  {
    LexLessAppend(Digits(x / 32, k - 1), Digits(y / 32, k - 1), GetChar(x % 32), GetChar(y % 32));
    GetCharOrder(x % 32, y % 32);
    DigitsRoundTrip(x / 32, k - 1);
    DigitsRoundTrip(y / 32, k - 1);
    GroupOrder(x, y);
  }

  /** Numbers compare by their quotients by 32 first, then by their remainders. */
  lemma GroupOrder(x: nat, y: nat)
    ensures x < y <==> x / 32 < y / 32 || (x / 32 == y / 32 && x % 32 < y % 32)
  {
  }

  /** String order of tokens is numeric order of identifiers below 2^65. */
  lemma TokenOrder(a: nat, b: nat)
    requires a < Pow2(65) && b < Pow2(65)
    ensures LexLess(Token(a), Token(b)) <==> a < b
  {
    DigitsOrder(a, b, TokenLength);
  }

  /** Division by 32 and then by p is division by q = 32 * p. */
  lemma DivDiv32(x: nat, p: nat, q: nat)
    requires p >= 1 && q == 32 * p
    ensures (x / 32) / p == x / q
  {
    var d, r := (x / 32) / p, (x / 32) % p;
    assert x == d * q + (32 * r + x % 32);
    DivModUnique(x, q, d, 32 * r + x % 32);
  }

  /** x below m * p leaves a quotient below m. */
  lemma DivBelow(x: nat, p: nat, m: nat)
    requires p >= 1 && x < m * p
    ensures x / p < m
  {
    DivModUnique(x, p, x / p, x % p);
    if x / p >= m {
      MulAtLeast(x / p - m + 1, p);
    }
  }

  /** The first of k digits is the group above the k - 1 lower ones: `x >> 5(k - 1)`. */
  lemma {:induction false} LeadingDigit(x: nat, k: nat)
    requires k >= 1 && x < Pow2(5 * k)
    ensures ShiftRight(x, 5 * (k - 1)) < 32
    ensures Digits(x, k)[0] == GetChar(ShiftRight(x, 5 * (k - 1)))
  {
    var p := Pow2(5 * (k - 1));
    Pow2Five(k);
    DivBelow(x, p, 32);
    if k == 1 {
      assert p == 1;
      DivModUnique(x, p, x, 0);
    } else {
      var p' := Pow2(5 * (k - 2));
      Pow2Five(k - 1);
      DivBelow(x, 32, p);
      LeadingDigit(x / 32, k - 1);
      LeadingDigitStep(x, k, p, p');
    }
  }

  /** The first digit of x is the first digit of x / 32, one digit shorter. */
  lemma LeadingDigitStep(x: nat, k: nat, p: nat, p': nat)
    requires k > 1 && p == Pow2(5 * (k - 1)) && p' == Pow2(5 * (k - 2)) && p == 32 * p'
    requires ShiftRight(x / 32, 5 * (k - 2)) < 32
    requires Digits(x / 32, k - 1)[0] == GetChar(ShiftRight(x / 32, 5 * (k - 2)))
    ensures ShiftRight(x, 5 * (k - 1)) < 32
    ensures Digits(x, k)[0] == GetChar(ShiftRight(x, 5 * (k - 1)))
  {
    DivDiv32(x, p', p);
    assert Digits(x, k)[0] == Digits(x / 32, k - 1)[0];
  }

  /** When the top bit of the 5k-bit window is zero, the first digit is one of '0'..'F'. */
  lemma LeadingDigitHalf(x: nat, k: nat)
    requires k >= 1 && x < Pow2(5 * k - 1)
    ensures '0' <= Digits(x, k)[0] <= 'F'
  {
    var p := Pow2(5 * (k - 1));
    Pow2Add(4, 5 * (k - 1));
    assert Pow2(4) == 16;
    Pow2Monotone(5 * k - 1, 5 * k);
    DivBelow(x, p, 16);
    LeadingDigit(x, k);
  }

  /** For a 64-bit identifier the top bit of the window is zero: the first character is one of '0'..'F'. */
  lemma LeadingSymbol(id: nat)
    requires id < Pow2(64)
    ensures '0' <= Token(id)[0] <= 'F'
  {
    LeadingDigitHalf(id, TokenLength);
  }
}
