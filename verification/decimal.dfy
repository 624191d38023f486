/** Decimal digit strings: fixed-width zero-padded fields (the YYYY, MM and DD
    of a day identifier), plain base-10 rendering of a natural number (as
    template literals render an integral number), and character-by-character
    string order. */
module Decimal {

  import opened Optional

  predicate IsDigit(c: char) {
    '0' <= c <= '9'
  }

  predicate AllDigits(s: string) {
    forall i :: 0 <= i < |s| ==> IsDigit(s[i])
  }

  function DigitChar(n: nat): (c: char)
    requires n < 10
    ensures IsDigit(c)
  {
    ('0' as int + n) as char
  }

  function DigitValue(c: char): (n: nat)
    requires IsDigit(c)
    ensures n < 10 && DigitChar(n) == c
  {
    c as int - '0' as int
  }

  function Pow10(w: nat): (p: nat)
    ensures p >= 1
  {
    if w == 0 then 1 else 10 * Pow10(w - 1)
  }

  /** The number a string of digits denotes, most significant digit first. */
  function DigitsValue(s: string): (n: nat)
    requires AllDigits(s)
    ensures n < Pow10(|s|)
  {
    if |s| == 0 then 0
    else 10 * DigitsValue(s[..|s| - 1]) + DigitValue(s[|s| - 1])
  }

  /** x written in exactly w digits, with leading zeros. */
  function Pad(x: nat, w: nat): (s: string)
    requires x < Pow10(w)
    ensures |s| == w && AllDigits(s) && DigitsValue(s) == x
  {
    if w == 0 then []
    else
      var s := Pad(x / 10, w - 1) + [DigitChar(x % 10)];
      assert s[..|s| - 1] == Pad(x / 10, w - 1);
      s
  }

  /** A fixed-width field is the padding of the number it denotes. */
  lemma {:induction false} PadDigitsValue(s: string)
    requires AllDigits(s)
    ensures Pad(DigitsValue(s), |s|) == s
  {
    if |s| > 0 {
      var init := s[..|s| - 1];
      PadDigitsValue(init);
      assert DigitsValue(s) / 10 == DigitsValue(init);
      assert s == init + [s[|s| - 1]];
    }
  }

  /** Base-10 rendering of a natural number, without leading zeros. */
  function Natural(n: nat): (s: string)
    ensures |s| > 0 && AllDigits(s) && DigitsValue(s) == n
    ensures s[0] == '0' ==> n == 0
  {
    if n < 10 then [DigitChar(n)]
    else
      var s := Natural(n / 10) + [DigitChar(n % 10)];
      assert s[..|s| - 1] == Natural(n / 10);
      s
  }

  /** Reads back a plain decimal numeral. */
  function ReadNatural(s: string): (r: Option<nat>)
    ensures r.Some? ==> Natural(r.value) == s
  {
    if |s| > 0 && AllDigits(s) && (s[0] == '0' ==> |s| == 1) then
      NaturalOfDigits(s);
      Some(DigitsValue(s))
    else None
  }

  lemma {:induction false} NaturalOfDigits(s: string)
    requires |s| > 0 && AllDigits(s) && (s[0] == '0' ==> |s| == 1)
    ensures Natural(DigitsValue(s)) == s
  {
    if |s| > 1 {
      var init := s[..|s| - 1];
      NaturalOfDigits(init);
      assert DigitsValue(s) / 10 == DigitsValue(init);
      assert DigitsValue(s) >= 10 by {
        assert init[0] == s[0];
        assert DigitsValue(init) > 0;
      }
      assert s == init + [s[|s| - 1]];
    }
  }

  lemma NaturalRoundTrip(n: nat)
    ensures ReadNatural(Natural(n)) == Some(n)
  {
  }

  /** Character-by-character string order: the first differing position
      decides, and a proper prefix is smaller. The `<` operator on strings
      compares UTF-16 code units instead; the two agree on strings of
      characters below U+10000, which include the ASCII day identifiers. */
  predicate LexLess(a: string, b: string)
  {
    if |a| == 0 then |b| > 0
    else |b| > 0 && (if a[0] == b[0] then LexLess(a[1..], b[1..]) else a[0] < b[0])
  }

  /** Comparing two concatenations whose first parts have equal length. */
  lemma {:induction false} LexLessAppend(a: string, c: string, b: string, d: string)
    requires |a| == |b|
    ensures LexLess(a + c, b + d) <==> LexLess(a, b) || (a == b && LexLess(c, d))
  {
    if |a| > 0 {
      assert (a + c)[0] == a[0] && (b + d)[0] == b[0];
      assert (a + c)[1..] == a[1..] + c && (b + d)[1..] == b[1..] + d;
      LexLessAppend(a[1..], c, b[1..], d);
      if a[0] == b[0] {
        assert a == b <==> a[1..] == b[1..] by {
          if a[1..] == b[1..] {
            assert a == [a[0]] + a[1..] && b == [b[0]] + b[1..];
          }
        }
      }
    } else {
      assert a + c == c && b + d == d;
    }
  }

  /** Zero-padded fields of equal width compare as their numbers do. */
  lemma {:induction false} PadOrder(x: nat, y: nat, w: nat)
    requires x < Pow10(w) && y < Pow10(w)
    ensures LexLess(Pad(x, w), Pad(y, w)) <==> x < y
  {
    if w > 0 {
      PadOrderStep(x, y, w);
      PadOrder(x / 10, y / 10, w - 1);
      DigitOrder(x % 10, y % 10);
      PlaceValueOrder(x, y);
    }
  }

  /** Comparing padded fields: the leading digits decide, and on a tie the last one. */
  lemma PadOrderStep(x: nat, y: nat, w: nat)
    requires x < Pow10(w) && y < Pow10(w) && w > 0
    ensures x / 10 < Pow10(w - 1) && y / 10 < Pow10(w - 1)
    ensures LexLess(Pad(x, w), Pad(y, w))
        <==> LexLess(Pad(x / 10, w - 1), Pad(y / 10, w - 1))
             || (x / 10 == y / 10 && LexLess([DigitChar(x % 10)], [DigitChar(y % 10)]))
  {
    PadLast(x, w);
    PadLast(y, w);
    var hx, hy := Pad(x / 10, w - 1), Pad(y / 10, w - 1);
    LexLessAppend(hx, [DigitChar(x % 10)], hy, [DigitChar(y % 10)]);
    assert hx == hy <==> x / 10 == y / 10;
  }

  lemma PadLast(x: nat, w: nat)
    requires x < Pow10(w) && w > 0
    ensures x / 10 < Pow10(w - 1)
    ensures Pad(x, w) == Pad(x / 10, w - 1) + [DigitChar(x % 10)]
  {
  }

  lemma DigitOrder(a: nat, b: nat)
    requires a < 10 && b < 10
    ensures LexLess([DigitChar(a)], [DigitChar(b)]) <==> a < b
    ensures DigitChar(a) == DigitChar(b) <==> a == b
  {
    assert [DigitChar(a)][1..] == [] && [DigitChar(b)][1..] == [];
  }

  lemma PlaceValueOrder(x: nat, y: nat)
    ensures x < y <==> x / 10 < y / 10 || (x / 10 == y / 10 && x % 10 < y % 10)
    ensures x == y <==> x / 10 == y / 10 && x % 10 == y % 10
  {
    assert x == 10 * (x / 10) + x % 10;
    assert y == 10 * (y / 10) + y % 10;
  }
}
