/** Integer formatting for display: zero padding to a width, and prices with
    their integer digits grouped in threes by commas. */
module NumberFormatter {
  import opened Wrappers

  // ---------------------------------------------------------------------
  // Decimal digit strings

  predicate IsDigit(c: char) {
    '0' <= c <= '9'
  }

  predicate AllDigits(s: string) {
    forall i :: 0 <= i < |s| ==> IsDigit(s[i])
  }

  function DigitChar(d: nat): (c: char)
    requires d < 10
    ensures IsDigit(c)
  {
    ('0' as int + d) as char
  }

  function DigitValue(c: char): (d: nat)
    requires IsDigit(c)
    ensures d < 10 && DigitChar(d) == c
  {
    c as int - '0' as int
  }

  /** The decimal digits of `n` with no leading zero, "0" for zero: what
      JavaScript's `String(n)` gives for a non-negative integer. */
  function Digits(n: nat): (s: string)
    ensures |s| >= 1 && AllDigits(s)
    ensures s[0] == '0' ==> n == 0
    ensures |s| == 1 <==> n < 10
  {
    if n < 10 then [DigitChar(n)] else Digits(n / 10) + [DigitChar(n % 10)]
  }

  /** The number a string of digits denotes, leading zeros allowed. */
  function Value(s: string): nat
    requires AllDigits(s)
  {
    if |s| == 0 then 0 else Value(s[..|s| - 1]) * 10 + DigitValue(s[|s| - 1])
  }

  lemma ValueSnoc(s: string, c: char)
    requires AllDigits(s) && IsDigit(c)
    ensures AllDigits(s + [c]) && Value(s + [c]) == Value(s) * 10 + DigitValue(c)
  {
    assert (s + [c])[..|s|] == s;
  }

  /** Reading back the digits of `n` gives `n`. */
  lemma {:induction false} DigitsValue(n: nat)
    ensures Value(Digits(n)) == n
  {
    if n >= 10 {
      DigitsValue(n / 10);
      ValueSnoc(Digits(n / 10), DigitChar(n % 10));
    }
  }

  /** The number of digits of `n` is at most three exactly when `n < 1000`. */
  lemma DigitsAtMostThree(n: nat)
    ensures |Digits(n)| <= 3 <==> n < 1000
  {
    if n >= 10 {
      if n >= 100 {
        if n >= 1000 {
          assert |Digits(n / 10)| >= 3 by { assert |Digits(n / 100)| >= 2; }
        }
      }
    }
  }

  function Zeros(k: nat): (r: string)
    ensures |r| == k && forall i :: 0 <= i < k ==> r[i] == '0'
  {
    if k == 0 then [] else Zeros(k - 1) + ['0']
  }

  /** Leading zeros do not change the value of a digit string. */
  lemma {:induction false} ZerosValue(k: nat, s: string)
    requires AllDigits(s)
    ensures AllDigits(Zeros(k) + s) && Value(Zeros(k) + s) == Value(s)
    decreases |s|, k
  {
    if |s| == 0 {
      assert Zeros(k) + s == Zeros(k);
      if k > 0 {
        ZerosValue(k - 1, s);
        assert Zeros(k - 1) + s == Zeros(k - 1);
        ValueSnoc(Zeros(k - 1), '0');
      }
    } else {
      var init := s[..|s| - 1];
      var last := s[|s| - 1];
      assert s == init + [last];
      ZerosValue(k, init);
      assert Zeros(k) + s == (Zeros(k) + init) + [last];
      ValueSnoc(Zeros(k) + init, last);
      ValueSnoc(init, last);
    }
  }

  // ---------------------------------------------------------------------
  // paddingZero

  /** `paddingZero(n, width)`: the decimal of `n`, left-padded with zeros to
      `width` characters when it is shorter, unchanged otherwise. */
  function PaddingZero(n: nat, width: int): (r: string)
    ensures |r| == if width > |Digits(n)| then width else |Digits(n)|
    ensures r[|r| - |Digits(n)|..] == Digits(n)
    ensures forall i :: 0 <= i < |r| - |Digits(n)| ==> r[i] == '0'
  {
    var d := Digits(n);
    if |d| < width then Zeros(width - |d|) + d else d
  }

  /** The padded string still reads as `n`. */
  lemma PaddingZeroValue(n: nat, width: int)
    ensures AllDigits(PaddingZero(n, width)) && Value(PaddingZero(n, width)) == n
  {
    var d := Digits(n);
    DigitsValue(n);
    if |d| < width {
      ZerosValue(width - |d|, d);
    }
  }

  lemma PaddingZeroExamples()
    ensures PaddingZero(9, 3) == "009"
    ensures PaddingZero(19, 3) == "019"
    ensures PaddingZero(999, 4) == "0999"
    ensures PaddingZero(9, 1) == "9" && PaddingZero(9, 0) == "9"
    ensures PaddingZero(19, 2) == "19" && PaddingZero(999, 2) == "999"
  {
    assert Digits(19) == "19";
    assert Digits(99) == "99";
    assert Digits(999) == "999";
    assert Zeros(2) == "00";
  }

  // ---------------------------------------------------------------------
  // formatPrice on integers

  /** Commas between groups of three digits, counted from the right. */
  function Group(d: string): string
    decreases |d|
  {
    if |d| <= 3 then d else Group(d[..|d| - 3]) + "," + d[|d| - 3..]
  }

  /** `formatPrice`: "" for null; otherwise the sign, then the grouped
      digits of the absolute value. */
  function FormatPrice(x: Option<int>): (r: string)
    ensures x.None? <==> r == ""
    ensures x.Some? && x.value < 0 ==> r[0] == '-'
    ensures x.Some? && x.value >= 0 ==> IsDigit(r[0])
  {
    match x
    case None => ""
    case Some(n) =>
      if n < 0 then "-" + Group(Digits(-n))
      else GroupStartsWithDigit(Digits(n)); Group(Digits(n))
  }

  lemma {:induction false} GroupStartsWithDigit(d: string)
    requires |d| >= 1 && AllDigits(d)
    ensures |Group(d)| >= 1 && Group(d)[0] == d[0]
    decreases |d|
  {
    if |d| > 3 {
      GroupStartsWithDigit(d[..|d| - 3]);
    }
  }

  /** The plain decimal of an integer: JavaScript's `String(n)`. */
  function Decimal(n: int): string {
    if n < 0 then "-" + Digits(-n) else Digits(n)
  }

  function RemoveCommas(s: string): string {
    if |s| == 0 then []
    else RemoveCommas(s[..|s| - 1]) + (if s[|s| - 1] == ',' then [] else [s[|s| - 1]])
  }

  lemma {:induction false} RemoveCommasAppend(a: string, b: string)
    ensures RemoveCommas(a + b) == RemoveCommas(a) + RemoveCommas(b)
    decreases |b|
  {
    if |b| > 0 {
      var init := b[..|b| - 1];
      assert a + b == (a + init) + [b[|b| - 1]];
      assert (a + b)[..|a + b| - 1] == a + init;
      RemoveCommasAppend(a, init);
    } else {
      assert a + b == a;
    }
  }

  lemma {:induction false} RemoveCommasDigits(d: string)
    requires AllDigits(d)
    ensures RemoveCommas(d) == d
  {
    if |d| > 0 {
      RemoveCommasDigits(d[..|d| - 1]);
      assert d == d[..|d| - 1] + [d[|d| - 1]];
    }
  }

  lemma {:induction false} GroupLength(d: string)
    requires |d| >= 1
    ensures |Group(d)| == |d| + (|d| - 1) / 3
    decreases |d|
  {
    if |d| > 3 {
      GroupLength(d[..|d| - 3]);
    }
  }

  /** Commas exactly at the positions a multiple of four from the end, and
      digits everywhere else. */
  ghost predicate CommasEveryFourth(r: string) {
    && (forall i :: 0 <= i < |r| ==> (r[i] == ',' <==> (|r| - i) % 4 == 0))
    && (forall i :: 0 <= i < |r| && r[i] != ',' ==> IsDigit(r[i]))
  }

  /** Appending a comma and three digits keeps the commas every fourth. */
  lemma CommasStep(r0: string, tail: string)
    requires CommasEveryFourth(r0) && |tail| == 3 && AllDigits(tail)
    ensures CommasEveryFourth(r0 + "," + tail)
  {
    var r := r0 + "," + tail;
    forall i | 0 <= i < |r|
      ensures r[i] == ',' <==> (|r| - i) % 4 == 0
      ensures r[i] != ',' ==> IsDigit(r[i])
    {
      if i < |r0| {
        assert r[i] == r0[i];
        assert |r| - i == (|r0| - i) + 4;
      } else if i > |r0| {
        assert r[i] == tail[i - |r0| - 1];
      }
    }
  }

  /** In a grouped digit string the commas stand exactly at the positions a
      multiple of four from the end, and every other character is a digit. */
  lemma {:induction false} GroupCommas(d: string)
    requires |d| >= 1 && AllDigits(d)
    ensures CommasEveryFourth(Group(d))
    decreases |d|
  {
    if |d| > 3 {
      var head := d[..|d| - 3];
      GroupCommas(head);
      CommasStep(Group(head), d[|d| - 3..]);
    } else {
      GroupLength(d);
    }
  }

  /** Taking the commas out of a grouped digit string gives the digits back. */
  lemma {:induction false} GroupRemoveCommas(d: string)
    requires AllDigits(d)
    ensures RemoveCommas(Group(d)) == d
    decreases |d|
  {
    if |d| <= 3 {
      RemoveCommasDigits(d);
    } else {
      var head := d[..|d| - 3];
      var tail := d[|d| - 3..];
      GroupRemoveCommas(head);
      var r0 := Group(head);
      assert Group(d) == (r0 + ",") + tail;
      RemoveCommasAppend(r0 + ",", tail);
      RemoveCommasAppend(r0, ",");
      RemoveCommasDigits(tail);
      assert RemoveCommas(",") == [] by {
        assert ","[..0] == [];
      }
      assert d == head + tail;
    }
  }

  /** Removing the commas from a formatted integer gives its plain decimal. */
  lemma FormatPriceRemoveCommas(n: int)
    ensures RemoveCommas(FormatPrice(Some(n))) == Decimal(n)
  {
    if n < 0 {
      var g := Group(Digits(-n));
      assert FormatPrice(Some(n)) == "-" + g;
      GroupRemoveCommas(Digits(-n));
      RemoveCommasAppend("-", g);
      assert RemoveCommas("-") == "-" by {
        assert "-"[..0] == [];
      }
    } else {
      assert FormatPrice(Some(n)) == Group(Digits(n));
      GroupRemoveCommas(Digits(n));
    }
  }

  /** Reading a plain decimal back: an optional minus sign, then digits. */
  function ParseDecimal(s: string): Option<int> {
    if |s| >= 2 && s[0] == '-' && AllDigits(s[1..]) then Some(0 - Value(s[1..]))
    else if |s| >= 1 && AllDigits(s) then Some(Value(s))
    else None
  }

  /** The plain decimal reads back as the integer. */
  lemma DecimalRoundTrip(n: int)
    ensures ParseDecimal(Decimal(n)) == Some(n)
  {
    if n < 0 {
      var d := Digits(-n);
      DigitsValue(-n);
      assert Decimal(n) == "-" + d;
      assert ("-" + d)[1..] == d;
      assert ("-" + d)[0] == '-';
    } else {
      DigitsValue(n);
      assert Decimal(n) == Digits(n);
    }
  }

  /** The round trip: a formatted integer, with its commas removed, reads
      back as the integer. */
  lemma FormatPriceRoundTrip(n: int)
    ensures ParseDecimal(RemoveCommas(FormatPrice(Some(n)))) == Some(n)
  {
    FormatPriceRemoveCommas(n);
    DecimalRoundTrip(n);
  }

  /** A negative integer formats as a minus sign before the formatting of its
      absolute value. */
  lemma FormatPriceNegative(n: int)
    requires n < 0
    ensures FormatPrice(Some(n)) == "-" + FormatPrice(Some(-n))
  {
  }

  /** The separator appears exactly when the absolute value reaches 1000;
      below that the result is the plain decimal. */
  lemma FormatPriceSeparator(n: int)
    ensures (-1000 < n < 1000) ==> FormatPrice(Some(n)) == Decimal(n)
    ensures ',' in FormatPrice(Some(n)) <==> !(-1000 < n < 1000)
  {
    var a: nat := if n < 0 then -n else n;
    DigitsAtMostThree(a);
    GroupLength(Digits(a));
    GroupCommas(Digits(a));
    var r := Group(Digits(a));
    if a >= 1000 {
      assert r[|r| - 4] == ',';
      if n < 0 {
        assert FormatPrice(Some(n))[|r| - 3] == ',';
      }
    } else {
      assert r == Digits(a);
      assert !IsDigit(',');
    }
  }

  /** Commas group the digits of `formatPrice` in threes counted from the
      right; a negative is `-` before the formatting of its absolute value. */
  lemma FormatPriceGroupsFromRight(n: int)
    ensures n >= 0 ==> CommasEveryFourth(FormatPrice(Some(n)))
    ensures n < 0 ==>
      && FormatPrice(Some(n))[1..] == FormatPrice(Some(-n))
      && CommasEveryFourth(FormatPrice(Some(n))[1..])
  {
    GroupCommas(Digits(if n < 0 then -n else n));
  }

  lemma FormatPriceSmallExamples()
    ensures FormatPrice(None) == ""
    ensures FormatPrice(Some(0)) == "0"
    ensures FormatPrice(Some(89)) == "89"
    ensures FormatPrice(Some(-999)) == "-999"
  {
    assert Digits(89) == "89";
    assert Digits(99) == "99";
    assert Digits(999) == "999";
  }

  lemma FormatPriceThousandExample()
    ensures FormatPrice(Some(1000)) == "1,000"
  {
    assert Digits(1) == "1";
    assert Digits(10) == "10";
    assert Digits(100) == "100";
    assert Digits(1000) == "1000";
    assert "1000"[..1] == "1" && "1000"[1..] == "000";
    assert Group("1") == "1";
    assert Group("1000") == "1,000";
  }

  lemma FormatPriceNegativeExample()
    ensures FormatPrice(Some(-1001)) == "-1,001"
  {
    assert Digits(1) == "1";
    assert Digits(10) == "10";
    assert Digits(100) == "100";
    assert Digits(1001) == "1001";
    assert "1001"[..1] == "1" && "1001"[1..] == "001";
    assert Group("1") == "1";
    assert Group("1001") == "1,001";
  }

  lemma FormatPriceWideExample()
    ensures FormatPrice(Some(-10100)) == "-10,100"
  {
    assert Digits(1) == "1";
    assert Digits(10) == "10";
    assert Digits(101) == "101";
    assert Digits(1010) == "1010";
    assert Digits(10100) == "10100";
    assert "10100"[..2] == "10" && "10100"[2..] == "100";
    assert Group("10") == "10";
    assert Group("10100") == "10,100";
  }
}
