/** The project view's derived texts: the budget line built from the optional
    lower and upper bounds, the money format it uses, and the status text. */
module ProjectView {

  import opened Wrappers
  import P = ProjectEntity

  /** 10 to the n. */
  function Pow10(n: nat): (r: nat)
    ensures r > 0
  {
    if n == 0 then 1 else 10 * Pow10(n - 1)
  }

  lemma {:induction false} Pow10Add(m: nat, n: nat)
    ensures Pow10(m + n) == Pow10(m) * Pow10(n)
    decreases n
  {
    if n > 0 {
      Pow10Add(m, n - 1);
      assert Pow10(m + n) == 10 * Pow10(m + n - 1);
    }
  }

  /** A BigDecimal: the number unscaled / 10^scale. The amounts the view formats
      come from DECIMAL columns, so their scale is never negative. */
  datatype Decimal = Decimal(unscaled: int, scale: nat)

  /** Two representations of the same number (BigDecimal.compareTo == 0):
      a.unscaled / 10^a.scale == b.unscaled / 10^b.scale, cross-multiplied. */
  predicate SameValue(a: Decimal, b: Decimal)
  {
    a.unscaled * Pow10(b.scale) == b.unscaled * Pow10(a.scale)
  }

  /** multiplication by a positive factor can be cancelled. */
  lemma Cancel(x: int, y: int, k: int)
    requires k > 0 && x * k == y * k
    ensures x == y
  {
  }

  lemma SameValueTrans(a: Decimal, b: Decimal, c: Decimal)
    requires SameValue(a, b) && SameValue(b, c)
    ensures SameValue(a, c)
  {
    var pa, pb, pc := Pow10(a.scale), Pow10(b.scale), Pow10(c.scale);
    calc {
      (a.unscaled * pc) * pb;
      { Swap(a.unscaled, pc, pb); }
      (a.unscaled * pb) * pc;
      (b.unscaled * pa) * pc;
      { Swap(b.unscaled, pa, pc); }
      (b.unscaled * pc) * pa;
      (c.unscaled * pb) * pa;
      { Swap(c.unscaled, pb, pa); }
      (c.unscaled * pa) * pb;
    }
    Cancel(a.unscaled * pc, c.unscaled * pa, pb);
  }

  lemma Swap(x: int, y: int, z: int)
    ensures (x * y) * z == (x * z) * y
  {
  }

  /** No trailing zero is left to strip: the scale is 0 or the last digit is not
      zero. */
  predicate Stripped(d: Decimal)
  {
    d.scale == 0 || d.unscaled % 10 != 0
  }

  /** stripTrailingZeros, down to scale 0. BigDecimal goes on to a negative scale
      for whole numbers ending in zeros, which toPlainString renders the same
      way as scale 0. */
  function Strip(d: Decimal): (r: Decimal)
    ensures Stripped(r) && r.scale <= d.scale
    decreases d.scale
  {
    if d.scale > 0 && d.unscaled % 10 == 0 then Strip(Decimal(d.unscaled / 10, d.scale - 1))
    else d
  }

  /** Stripping keeps the number. */
  lemma {:induction false} StripSameValue(d: Decimal)
    ensures SameValue(Strip(d), d)
    decreases d.scale
  {
    if d.scale > 0 && d.unscaled % 10 == 0 {
      var e := Decimal(d.unscaled / 10, d.scale - 1);
      StripSameValue(e);
      assert Pow10(d.scale) == 10 * Pow10(e.scale);
      assert d.unscaled == 10 * e.unscaled;
      assert SameValue(e, d);
      SameValueTrans(Strip(d), e, d);
    }
  }

  /** Two stripped decimals of the same number are the same representation. */
  lemma StrippedUnique(a: Decimal, b: Decimal)
    requires Stripped(a) && Stripped(b) && SameValue(a, b)
    ensures a == b
  {
    if a.scale <= b.scale {
      StrippedUniqueOrdered(a, b);
    } else {
      StrippedUniqueOrdered(b, a);
    }
  }

  lemma StrippedUniqueOrdered(a: Decimal, b: Decimal)
    requires Stripped(a) && Stripped(b) && SameValue(a, b) && a.scale <= b.scale
    ensures a == b
  {
    var k: nat := b.scale - a.scale;
    Pow10Add(a.scale, k);
    var pa := Pow10(a.scale);
    assert (a.unscaled * Pow10(k)) * pa == b.unscaled * pa;
    Cancel(a.unscaled * Pow10(k), b.unscaled, pa);
    if k > 0 {
      TimesPowerOfTen(a.unscaled, k);
    }
  }

  lemma TimesPowerOfTen(x: int, k: nat)
    requires k > 0
    ensures (x * Pow10(k)) % 10 == 0
  {
    var y := x * Pow10(k - 1);
    assert Pow10(k) == 10 * Pow10(k - 1);
    assert x * Pow10(k) == 10 * y;
    assert (10 * y) % 10 == 0;
  }

  /** Stripping depends on the number only, not on its representation. */
  lemma StripCanonical(a: Decimal, b: Decimal)
    requires SameValue(a, b)
    ensures Strip(a) == Strip(b)
  {
    StripSameValue(a);
    StripSameValue(b);
    SameValueTrans(Strip(a), a, b);
    assert SameValue(b, Strip(b));
    SameValueTrans(Strip(a), b, Strip(b));
    StrippedUnique(Strip(a), Strip(b));
  }

  /** The decimal digit characters. */
  function DigitChar(n: nat): char
    requires n < 10
  {
    "0123456789"[n]
  }

  predicate IsDigit(c: char)
  {
    '0' <= c <= '9'
  }

  /** The decimal numeral of n, without leading zeros. */
  function Digits(n: nat): (r: string)
    ensures |r| >= 1 && r[|r| - 1] == DigitChar(n % 10)
    ensures forall i :: 0 <= i < |r| ==> IsDigit(r[i])
  {
    if n < 10 then [DigitChar(n)] else Digits(n / 10) + [DigitChar(n % 10)]
  }

  /** Left-padding with zeros to a width. */
  function PadLeft(s: string, width: nat): (r: string)
    ensures |r| == if |s| >= width then |s| else width
    ensures r[|r| - |s|..] == s
    decreases width - |s|
  {
    if |s| >= width then s
    else
      var r := PadLeft("0" + s, width);
      assert r[|r| - |s|..] == r[|r| - |s| - 1..][1..];
      r
  }

  function Abs(x: int): nat
  {
    if x < 0 then -x else x
  }

  /** A digit string with a point before its last `scale` digits, when the
      scale is positive. */
  function Pointed(digits: string, scale: nat): string
    requires |digits| > scale
  {
    if scale == 0 then digits
    else digits[..|digits| - scale] + "." + digits[|digits| - scale..]
  }

  /** toPlainString of a decimal: an optional minus sign, then the digits of
      the unscaled value, padded with leading zeros to more than `scale` digits,
      with a point before the last `scale` of them. */
  function Render(d: Decimal): string
  {
    var sign := if d.unscaled < 0 then "-" else "";
    sign + Pointed(PadLeft(Digits(Abs(d.unscaled)), d.scale + 1), d.scale)
  }

  /** stripTrailingZeros().toPlainString(). */
  function Plain(d: Decimal): string
  {
    Render(Strip(d))
  }

  function Last(s: string): char
    requires |s| >= 1
  {
    s[|s| - 1]
  }

  lemma LastOfConcat(a: string, b: string)
    requires |b| >= 1
    ensures Last(a + b) == Last(b)
  {
  }

  lemma PadLeftLast(f: string, width: nat)
    requires |f| >= 1
    ensures Last(PadLeft(f, width)) == Last(f)
  {
    var r := PadLeft(f, width);
    assert r[|r| - |f|..] == f;
    assert r[|r| - 1] == r[|r| - |f|..][|f| - 1];
  }

  lemma PointedLast(digits: string, scale: nat)
    requires |digits| > scale
    ensures |Pointed(digits, scale)| >= 1 && Last(Pointed(digits, scale)) == Last(digits)
  {
    if scale > 0 {
      var tail := digits[|digits| - scale..];
      assert Last(tail) == Last(digits);
      LastOfConcat(digits[..|digits| - scale] + ".", tail);
    }
  }

  /** The last character of a rendering is the last digit of the unscaled
      value. */
  lemma RenderEnding(d: Decimal)
    ensures |Render(d)| >= 1 && Last(Render(d)) == DigitChar(Abs(d.unscaled) % 10)
  {
    RenderedDigits(d);
    var f := Digits(Abs(d.unscaled));
    assert Last(f) == DigitChar(Abs(d.unscaled) % 10);
  }

  /** A rendering ends with the last digit of the unscaled value's numeral. */
  lemma RenderedDigits(d: Decimal)
    ensures |Render(d)| >= 1 && Last(Render(d)) == Last(Digits(Abs(d.unscaled)))
  {
    RenderIs(d);
    var f := Digits(Abs(d.unscaled));
    RenderedLast(if d.unscaled < 0 then "-" else "", f, d.scale);
  }

  lemma RenderIs(d: Decimal)
    ensures Render(d) == (if d.unscaled < 0 then "-" else "") + Pointed(PadLeft(Digits(Abs(d.unscaled)), d.scale + 1), d.scale)
  {
    var p := Pointed(PadLeft(Digits(Abs(d.unscaled)), d.scale + 1), d.scale);
    if d.unscaled < 0 {
      assert Render(d) == "-" + p;
    } else {
      assert Render(d) == "" + p;
    }
  }

  /** A sign, then digits padded and pointed, ends with the digits' last one. */
  lemma RenderedLast(sign: string, f: string, scale: nat)
    requires |f| >= 1
    ensures |sign + Pointed(PadLeft(f, scale + 1), scale)| >= 1
    ensures Last(sign + Pointed(PadLeft(f, scale + 1), scale)) == Last(f)
  {
    var digits := PadLeft(f, scale + 1);
    PadLeftLast(f, scale + 1);
    PointedLast(digits, scale);
    LastOfConcat(sign, Pointed(digits, scale));
  }

  /** The plain text of a number ends in a digit, and when it has a fractional
      part, that digit is not zero. */
  lemma PlainEnding(d: Decimal)
    ensures |Plain(d)| >= 1 && IsDigit(Last(Plain(d)))
    ensures Strip(d).scale > 0 ==> Last(Plain(d)) != '0'
  {
    RenderEnding(Strip(d));
  }

  /** compareTo(10000) >= 0. */
  predicate AtLeastTenThousand(d: Decimal)
  {
    d.unscaled >= 10000 * Pow10(d.scale)
  }

  /** divide(10000): exact, as 10000 is a power of ten. */
  function DivTenThousand(d: Decimal): (r: Decimal)
    ensures r.unscaled == d.unscaled && Pow10(r.scale) == 10000 * Pow10(d.scale)
  {
    Pow10Add(d.scale, 4);
    Decimal(d.unscaled, d.scale + 4)
  }

  /** formatMoney: "0" for no amount; from 10000 up the number of ten-thousands
      followed by 万; below that the number itself; both without trailing
      zeros. */
  function FormatMoney(amount: Option<Decimal>): string
  {
    if amount.None? then "0"
    else if AtLeastTenThousand(amount.value) then Plain(DivTenThousand(amount.value)) + "万"
    else Plain(amount.value)
  }

  /** Stripping does not move a number across the 10000 threshold. */
  lemma {:induction false} StripKeepsThreshold(d: Decimal)
    ensures AtLeastTenThousand(Strip(d)) <==> AtLeastTenThousand(d)
    decreases d.scale
  {
    if d.scale > 0 && d.unscaled % 10 == 0 {
      var e := Decimal(d.unscaled / 10, d.scale - 1);
      StripKeepsThreshold(e);
      assert Pow10(d.scale) == 10 * Pow10(e.scale);
      assert d.unscaled == 10 * e.unscaled;
    }
  }

  lemma DivKeepsSameValue(a: Decimal, b: Decimal)
    requires SameValue(a, b)
    ensures SameValue(DivTenThousand(a), DivTenThousand(b))
  {
    Pow10Add(a.scale, 4);
    Pow10Add(b.scale, 4);
    assert Pow10(4) == 10000;
    var pa, pb := Pow10(a.scale), Pow10(b.scale);
    calc {
      a.unscaled * Pow10(b.scale + 4);
      a.unscaled * (pb * 10000);
      (a.unscaled * pb) * 10000;
      (b.unscaled * pa) * 10000;
      b.unscaled * (pa * 10000);
      b.unscaled * Pow10(a.scale + 4);
    }
  }

  /** The text depends on the amount's number only: 5000, 5000.0 and 5000.00
      all read the same. */
  lemma FormatMoneyByValue(a: Decimal, b: Decimal)
    requires SameValue(a, b)
    ensures FormatMoney(Some(a)) == FormatMoney(Some(b))
  {
    StripCanonical(a, b);
    StripKeepsThreshold(a);
    StripKeepsThreshold(b);
    DivKeepsSameValue(a, b);
    StripCanonical(DivTenThousand(a), DivTenThousand(b));
  }

  /** What formatMoney ends with: 万 from 10000 up, otherwise a digit, and no
      trailing zero after a decimal point. */
  lemma FormatMoneyEnding(amount: Option<Decimal>)
    ensures var t := FormatMoney(amount);
      |t| >= 1 && (Last(t) == '万' || IsDigit(Last(t)))
      && (Last(t) == '万' <==> amount.Some? && AtLeastTenThousand(amount.value))
  {
    if amount.Some? {
      if AtLeastTenThousand(amount.value) {
        LastOfConcat(Plain(DivTenThousand(amount.value)), "万");
      } else {
        PlainEnding(amount.value);
      }
    }
  }

  lemma FormatMoneyExamples()
    ensures FormatMoney(None) == "0"
    ensures FormatMoney(Some(Decimal(500000, 2))) == "5000"
    ensures FormatMoney(Some(Decimal(1250000, 2))) == "1.25万"
  {
    FormatWholeExample();
    FormatTenThousandsExample();
  }

  lemma FormatWholeExample()
    ensures FormatMoney(Some(Decimal(500000, 2))) == "5000"
  {
    assert Pow10(2) == 100;
    assert !AtLeastTenThousand(Decimal(500000, 2));
    StripWholeExample();
    RenderWholeExample();
  }

  lemma StripWholeExample()
    ensures Strip(Decimal(500000, 2)) == Decimal(5000, 0)
  {
    assert Strip(Decimal(5000, 0)) == Decimal(5000, 0);
    assert Strip(Decimal(50000, 1)) == Decimal(5000, 0);
  }

  lemma RenderWholeExample()
    ensures Render(Decimal(5000, 0)) == "5000"
  {
    assert Digits(5) == "5";
    assert Digits(50) == "50";
    assert Digits(500) == "500";
    assert Digits(5000) == "5000";
    assert PadLeft("5000", 1) == "5000";
    assert Pointed("5000", 0) == "5000";
  }

  lemma FormatTenThousandsExample()
    ensures FormatMoney(Some(Decimal(1250000, 2))) == "1.25万"
  {
    assert Pow10(2) == 100;
    assert AtLeastTenThousand(Decimal(1250000, 2));
    assert DivTenThousand(Decimal(1250000, 2)) == Decimal(1250000, 6);
    StripTenThousandsExample();
    RenderExample();
  }

  lemma StripTenThousandsExample()
    ensures Strip(Decimal(1250000, 6)) == Decimal(125, 2)
  {
    assert Strip(Decimal(125, 2)) == Decimal(125, 2);
    assert Strip(Decimal(1250, 3)) == Decimal(125, 2);
    assert Strip(Decimal(12500, 4)) == Decimal(125, 2);
    assert Strip(Decimal(125000, 5)) == Decimal(125, 2);
  }

  lemma RenderExample()
    ensures Render(Decimal(125, 2)) == "1.25"
  {
    assert Digits(1) == "1";
    assert Digits(12) == "12";
    assert Digits(125) == "125";
    assert PadLeft("125", 3) == "125";
    assert "125"[..1] == "1" && "125"[1..] == "25";
    assert Pointed("125", 2) == "1.25";
  }

  /** getBudgetText: 面议 without bounds; "¥min - max", "¥min起" or "不超过¥max"
      by which bounds are present. */
  function BudgetText(budgetMin: Option<Decimal>, budgetMax: Option<Decimal>): string
  {
    if budgetMin.None? && budgetMax.None? then "面议"
    else if budgetMin.Some? && budgetMax.Some? then
      "¥" + FormatMoney(budgetMin) + " - " + FormatMoney(budgetMax)
    else if budgetMin.Some? then "¥" + FormatMoney(budgetMin) + "起"
    else "不超过¥" + FormatMoney(budgetMax)
  }

  /** The text tells which bounds a project has: it starts with ¥ exactly when
      there is a lower bound, ends with 起 exactly when there is only a lower
      bound, and is 面议 exactly when there is none. */
  lemma BudgetTextShowsBounds(budgetMin: Option<Decimal>, budgetMax: Option<Decimal>)
    ensures var t := BudgetText(budgetMin, budgetMax);
      |t| >= 2
      && (t == "面议" <==> budgetMin.None? && budgetMax.None?)
      && (t[0] == '¥' <==> budgetMin.Some?)
      && (Last(t) == '起' <==> budgetMin.Some? && budgetMax.None?)
  {
    var t := BudgetText(budgetMin, budgetMax);
    if budgetMax.Some? {
      var m := FormatMoney(budgetMax);
      FormatMoneyEnding(budgetMax);
      if budgetMin.Some? {
        LastOfConcat("¥" + FormatMoney(budgetMin) + " - ", m);
        assert t[0] == '¥';
      } else {
        LastOfConcat("不超过¥", m);
        assert t[0] == '不';
      }
    } else if budgetMin.Some? {
      LastOfConcat("¥" + FormatMoney(budgetMin), "起");
      assert t[0] == '¥';
    }
  }

  /** getStatusText: the description of the status code, code 0 (draft) when
      the status is null. */
  function StatusText(status: Option<int>): (r: string)
    ensures status.None? ==> r == P.Status.Draft.Desc()
    ensures status.Some? ==> r == P.GetDesc(status.value)
  {
    P.GetDescOfCode(P.Status.Draft);
    P.GetDesc(if status.Some? then status.value else 0)
  }

  /** The status text of each status is its own description. */
  lemma StatusTextOfStatus(s: P.Status)
    ensures StatusText(Some(s.Code())) == s.Desc()
  {
    P.GetDescOfCode(s);
  }
}
