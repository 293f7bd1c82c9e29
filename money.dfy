/**
 * Totals and their text form. Both edge functions compute a total with
 * `reduce((sum, item) => sum + price * item.quantity, 0)` and send it as
 * `total.toFixed(2)`. Here prices are integer cents, the fold is `Total`,
 * and `toFixed(2)` is `FormatCents`, with `ParseCents` as its inverse.
 */
module Money {
  import opened Records

  /** What one cart item contributes to a total: unit price times quantity. */
  function LineTotal(item: CartItem): int {
    item.product.price * item.row.quantity
  }

  /** The left fold `items.reduce((sum, item) => sum + LineTotal(item), 0)`. */
  function Total(items: seq<CartItem>): (r: int)
    ensures (forall k | 0 <= k < |items| :: items[k].row.quantity >= 0) ==> r >= 0
    ensures (forall k | 0 <= k < |items| :: items[k].row.quantity == 0) ==> r == 0
  {
    if items == [] then 0 else Total(items[..|items| - 1]) + LineTotal(items[|items| - 1])
  }

  /** The total of a concatenation is the sum of the totals of its parts. */
  lemma {:induction false} TotalAppend(a: seq<CartItem>, b: seq<CartItem>)
    ensures Total(a + b) == Total(a) + Total(b)
    decreases |b|
  {
    if b == [] {
      assert a + b == a;
    } else {
      var b' := b[..|b| - 1];
      assert (a + b)[..|a + b| - 1] == a + b';
      assert (a + b)[|a + b| - 1] == b[|b| - 1];
      TotalAppend(a, b');
    }
  }

  /** The total does not depend on the order in which the rows arrive. */
  lemma {:induction false} TotalPermutation(a: seq<CartItem>, b: seq<CartItem>)
    requires multiset(a) == multiset(b)
    ensures Total(a) == Total(b)
    decreases |a|
  {
    if a == [] {
      assert |multiset(b)| == 0;
      assert b == [];
    } else {
      var a' := a[..|a| - 1];
      var x := a[|a| - 1];
      assert a == a' + [x];
      assert x in multiset(b);
      var k :| 0 <= k < |b| && b[k] == x;
      var b' := b[..k] + b[k + 1..];
      assert b == b[..k] + [x] + b[k + 1..];
      assert multiset(b) == multiset(b[..k]) + multiset([x]) + multiset(b[k + 1..]);
      assert multiset(b') == multiset(b[..k]) + multiset(b[k + 1..]);
      assert multiset(a) == multiset(a') + multiset([x]);
      forall y ensures multiset(a')[y] == multiset(b')[y] {
        assert multiset(a)[y] == multiset(a')[y] + multiset([x])[y];
        assert multiset(b)[y] == multiset(b')[y] + multiset([x])[y];
      }
      assert multiset(a') == multiset(b');
      TotalPermutation(a', b');
      TotalAppend(b[..k] + [x], b[k + 1..]);
      TotalAppend(b[..k], [x]);
      TotalAppend(b[..k], b[k + 1..]);
      assert [x][..0] == [];
      assert Total([x]) == LineTotal(x);
    }
  }

  predicate IsDigit(c: char) {
    '0' <= c <= '9'
  }

  predicate AllDigits(s: string) {
    forall i :: 0 <= i < |s| ==> IsDigit(s[i])
  }

  function DigitChar(d: nat): (c: char)
    requires d < 10
    ensures IsDigit(c) && c as int - '0' as int == d
  {
    ('0' as int + d) as char
  }

  /** The decimal numeral of `n`, without leading zeros. */
  function NatToDigits(n: nat): (s: string)
    ensures |s| >= 1 && AllDigits(s)
    ensures |s| == 1 <==> n < 10
    ensures s[0] == '0' <==> n == 0
    decreases n
  {
    if n < 10 then [DigitChar(n)] else NatToDigits(n / 10) + [DigitChar(n % 10)]
  }

  /** The value of a decimal numeral. */
  function DigitsValue(s: string): nat
    requires AllDigits(s)
  {
    if s == [] then 0 else DigitsValue(s[..|s| - 1]) * 10 + (s[|s| - 1] as int - '0' as int)
  }

  lemma {:induction false} DigitsRoundTrip(n: nat)
    ensures DigitsValue(NatToDigits(n)) == n
    decreases n
  {
    if n >= 10 {
      var s := NatToDigits(n);
      assert s[..|s| - 1] == NatToDigits(n / 10);
      DigitsRoundTrip(n / 10);
    }
  }

  /**
   * The unsigned part of `toFixed(2)`: whole units without leading zeros, `.`, two
   * digits for the cents.
   */
  function UnsignedCents(m: nat): (s: string)
    ensures |s| >= 4 && s[|s| - 3] == '.'
    ensures AllDigits(s[..|s| - 3]) && AllDigits(s[|s| - 2..])
    ensures s[0] == '0' ==> |s| == 4
  {
    var r := m % 100;
    NatToDigits(m / 100) + "." + [DigitChar(r / 10), DigitChar(r % 10)]
  }

  /** `toFixed(2)` of an amount given in cents: optional `-`, whole units, `.`, two digits. */
  function FormatCents(c: int): (s: string)
    ensures |s| >= 4 && s[|s| - 3] == '.'
    ensures s[0] == '-' <==> c < 0
  {
    (if c < 0 then "-" else "") + UnsignedCents(if c < 0 then -c else c)
  }

  /** Reads back a `toFixed(2)` text as cents; `None` for any other text. */
  function ParseCents(s: string): Option<int> {
    var neg := |s| > 0 && s[0] == '-';
    var body := if neg then s[1..] else s;
    if |body| >= 4 && body[|body| - 3] == '.'
       && AllDigits(body[..|body| - 3]) && AllDigits(body[|body| - 2..])
    then
      var v := DigitsValue(body[..|body| - 3]) * 100 + DigitsValue(body[|body| - 2..]);
      Some(if neg then -v else v)
    else
      None
  }

  lemma UnsignedCentsValue(m: nat)
    ensures var b := UnsignedCents(m);
      && AllDigits(b[..|b| - 3]) && AllDigits(b[|b| - 2..])
      && DigitsValue(b[..|b| - 3]) * 100 + DigitsValue(b[|b| - 2..]) == m
  {
    var r := m % 100;
    var whole := NatToDigits(m / 100);
    var frac := [DigitChar(r / 10), DigitChar(r % 10)];
    var b := UnsignedCents(m);
    assert b == whole + "." + frac;
    assert b[..|b| - 3] == whole;
    assert b[|b| - 2..] == frac;
    DigitsRoundTrip(m / 100);
    assert frac[..1] == [DigitChar(r / 10)];
    assert [DigitChar(r / 10)][..0] == [];
    assert DigitsValue([DigitChar(r / 10)]) == r / 10;
    assert DigitsValue(frac) == (r / 10) * 10 + r % 10;
  }

  /** Worked values: 500, 5, -5 and 123456 cents. */
  lemma FormatExamples()
    ensures FormatCents(500) == "5.00"
    ensures FormatCents(5) == "0.05"
    ensures FormatCents(-5) == "-0.05"
    ensures FormatCents(123456) == "1234.56"
  {
    assert NatToDigits(12) == NatToDigits(1) + ['2'];
    assert NatToDigits(123) == NatToDigits(12) + ['3'];
    assert NatToDigits(1234) == NatToDigits(123) + ['4'];
  }

  /** `ParseCents` reads an unsigned numeral of value `v`, and the same numeral behind a `-`. */
  lemma ParseUnsigned(b: string, v: nat)
    requires |b| >= 4 && b[|b| - 3] == '.' && b[0] != '-'
    requires AllDigits(b[..|b| - 3]) && AllDigits(b[|b| - 2..])
    requires DigitsValue(b[..|b| - 3]) * 100 + DigitsValue(b[|b| - 2..]) == v
    ensures ParseCents(b) == Some(v)
    ensures ParseCents("-" + b) == Some(-(v as int))
  {
    assert ("-" + b)[1..] == b;
  }

  /** The unsigned text reads back as its amount, and behind a `-` as its negation. */
  lemma UnsignedCentsParse(m: nat)
    ensures ParseCents(UnsignedCents(m)) == Some(m)
    ensures ParseCents("-" + UnsignedCents(m)) == Some(-(m as int))
  {
    var b := UnsignedCents(m);
    UnsignedCentsValue(m);
    assert IsDigit(b[..|b| - 3][0]);
    ParseUnsigned(b, m);
  }

  /** The formatted total is exact: reading it back gives the cents it came from. */
  lemma CentsRoundTrip(c: int)
    ensures ParseCents(FormatCents(c)) == Some(c)
  {
    var m := if c < 0 then -c else c;
    var b := UnsignedCents(m);
    var f := FormatCents(c);
    UnsignedCentsParse(m);
    if c < 0 {
      assert f == "-" + b;
    } else {
      assert "" + b == b;
      assert f == b;
    }
  }
}
