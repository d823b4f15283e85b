/**
 * The numeral formatter of the listening drill: an integer up to 999 as
 * Mandarin numeral text, Taiwan style (兩百 for the two hundreds), with 零
 * marking a skipped tens position.
 *
 * `NumberToChinese` follows `numberToChinese` branch by branch. `Reading`
 * states the same text position by position, and `ChineseToNumber` reads
 * such text back; the lemmas tie the three together.
 */
module Numerals {

  datatype Option<T> = None | Some(value: T)

  /** Glyphs of the digits 0 to 9. */
  const Digits: string := "零一二三四五六七八九"
  const ZeroGlyph: char := '零'
  const TenGlyph: char := '十'
  const HundredGlyph: char := '百'
  /** 兩, the word for "two" used to count hundreds. */
  const LiangGlyph: char := '兩'

  /** 零 when the tens of `rest` are skipped but its units are not. */
  function ZeroMarker(rest: int): (r: string)
    ensures r == [] || r == [ZeroGlyph]
    ensures 0 <= rest < 100 ==> (r == [ZeroGlyph] <==> rest / 10 == 0 && rest % 10 != 0)
  {
    if 0 < rest < 10 then [ZeroGlyph] else []
  }

  /** Appends the tens (`<digit>十`) and the units (`<digit>`) of `num` to `str`. */
  function AppendTensAndUnits(str: string, num: int): (r: string)
    requires num < 100
    ensures 0 <= num ==> r == str + TensAndUnitsReading(num)
    ensures num < 0 ==> r == str
  {
    assert 0 <= num < 10 ==> num % 10 == num && num / 10 == 0;
    var withTens := if num >= 10 then str + [Digits[num / 10], TenGlyph] else str;
    var units := if num >= 10 then num % 10 else num;
    if units > 0 then withTens + [Digits[units]] else withTens
  }

  /** Drops one trailing 零, when there is one, and nothing else. */
  function StripTrailingZero(str: string): (r: string)
    ensures r == str || (r + [ZeroGlyph] == str)
    ensures r + [ZeroGlyph] == str <==> |str| > 0 && str[|str| - 1] == ZeroGlyph
  {
    if |str| > 0 && str[|str| - 1] == ZeroGlyph then str[..|str| - 1] else str
  }

  /**
   * The numeral text of `num`. The two hundreds take 兩; the branch for
   * exactly 200 after it is never reached (200 falls in the first branch)
   * and is kept as the source has it. Above 999 the source indexes past
   * the digit table, hence the precondition; a negative `num` gives "".
   */
  function NumberToChinese(num: int): (r: string)
    requires num <= 999
    ensures |r| <= 5
    ensures r == [] <==> num <= 0
  {
    if 200 <= num < 300 then
      var rest := num % 100;
      StripTrailingZero(AppendTensAndUnits([LiangGlyph, HundredGlyph] + ZeroMarker(rest), rest))
    else if num == 200 then
      [LiangGlyph, HundredGlyph]
    else if num >= 100 then
      var rest := num % 100;
      StripTrailingZero(AppendTensAndUnits([Digits[num / 100], HundredGlyph] + ZeroMarker(rest), rest))
    else
      StripTrailingZero(AppendTensAndUnits([], num))
  }

  /** The glyph that counts `h` hundreds. */
  function HundredsGlyph(h: int): (g: char)
    requires 1 <= h <= 9
  {
    if h == 2 then LiangGlyph else Digits[h]
  }

  /** The tens (`<digit>十`) and units (`<digit>`) of `r`, each read only when not zero. */
  function TensAndUnitsReading(num: int): (s: string)
    requires 0 <= num < 100
  {
    var t, u := num / 10, num % 10;
    (if t > 0 then [Digits[t], TenGlyph] else []) + (if u > 0 then [Digits[u]] else [])
  }

  /**
   * The reading of `n` position by position: hundreds glyph and 百 when
   * there are hundreds; 零 when hundreds are followed by units with no
   * tens; then tens and units. Nothing is read for 0 or a negative number.
   */
  function Reading(n: int): (s: string)
    requires n <= 999
  {
    if n <= 0 then []
    else
      var h, rest := n / 100, n % 100;
      (if h > 0 then [HundredsGlyph(h), HundredGlyph] else [])
      + (if h > 0 && 0 < rest < 10 then [ZeroGlyph] else [])
      + TensAndUnitsReading(rest)
  }

  /** Value of a digit glyph 一 … 九. */
  function DigitValue(c: char): (v: Option<int>)
    ensures v.Some? ==> 1 <= v.value <= 9
  {
    if c == '一' then Some(1)
    else if c == '二' then Some(2)
    else if c == '三' then Some(3)
    else if c == '四' then Some(4)
    else if c == '五' then Some(5)
    else if c == '六' then Some(6)
    else if c == '七' then Some(7)
    else if c == '八' then Some(8)
    else if c == '九' then Some(9)
    else None
  }

  /** Value of a glyph that counts hundreds: 兩 stands for two, 二 does not. */
  function HundredsValue(c: char): (v: Option<int>)
    ensures v.Some? ==> 1 <= v.value <= 9
  {
    if c == LiangGlyph then Some(2)
    else if c == '二' then None
    else DigitValue(c)
  }

  /** Reads what follows the hundreds (or the whole text when there are none). */
  function BelowHundredValue(s: string, afterHundreds: bool): (v: Option<int>)
    ensures v.Some? ==> 0 <= v.value < 100
  {
    if |s| == 0 then Some(0)
    else if |s| == 1 && !afterHundreds && DigitValue(s[0]).Some? then DigitValue(s[0])
    else if |s| == 2 && afterHundreds && s[0] == ZeroGlyph && DigitValue(s[1]).Some? then DigitValue(s[1])
    else if |s| == 2 && s[1] == TenGlyph && DigitValue(s[0]).Some? then Some(10 * DigitValue(s[0]).value)
    else if |s| == 3 && s[1] == TenGlyph && DigitValue(s[0]).Some? && DigitValue(s[2]).Some? then
      Some(10 * DigitValue(s[0]).value + DigitValue(s[2]).value)
    else None
  }

  /** Reads numeral text of the form `NumberToChinese` writes; None for anything else. */
  function ChineseToNumber(s: string): (v: Option<int>)
    ensures v.Some? ==> 0 <= v.value <= 999
  {
    if |s| >= 2 && s[1] == HundredGlyph && HundredsValue(s[0]).Some? then
      match BelowHundredValue(s[2..], true)
      case Some(rest) => Some(100 * HundredsValue(s[0]).value + rest)
      case None => None
    else BelowHundredValue(s, false)
  }

  /** The digit glyphs 一 … 九 are told apart from each other and from 零, 十, 百, 兩. */
  lemma DigitGlyph(d: int)
    requires 1 <= d <= 9
    ensures DigitValue(Digits[d]) == Some(d)
    ensures Digits[d] !in {ZeroGlyph, TenGlyph, HundredGlyph, LiangGlyph}
    ensures d != 2 ==> HundredsValue(Digits[d]) == Some(d) && Digits[d] != '二'
    ensures d == 2 ==> Digits[d] == '二'
  {
  }

  /** Appending tens and units to text that ends in 零 only before units never leaves a trailing 零. */
  lemma TensAndUnitsNeverEndInZero(str: string, num: int)
    requires num < 100
    requires |str| > 0 && str[|str| - 1] == ZeroGlyph ==> 0 < num < 10
    ensures var r := AppendTensAndUnits(str, num); |r| > 0 ==> r[|r| - 1] != ZeroGlyph
    ensures StripTrailingZero(AppendTensAndUnits(str, num)) == AppendTensAndUnits(str, num)
  {
    if num >= 10 {
      DigitGlyph(num / 10);
      if num % 10 > 0 { DigitGlyph(num % 10); }
    } else if num > 0 {
      DigitGlyph(num);
    }
  }

  /** `NumberToChinese` writes exactly the positional reading, and never has a 零 to strip. */
  lemma NumberToChineseIsReading(n: int)
    requires n <= 999
    ensures NumberToChinese(n) == Reading(n)
  {
    if n >= 100 {
      var h, rest := n / 100, n % 100;
      var head := [HundredsGlyph(h), HundredGlyph] + ZeroMarker(rest);
      assert 200 <= n < 300 ==> h == 2;
      TensAndUnitsNeverEndInZero(head, rest);
      assert NumberToChinese(n) == head + TensAndUnitsReading(rest);
    } else if n > 0 {
      TensAndUnitsNeverEndInZero([], n);
      assert n / 100 == 0 && n % 100 == n;
    }
  }

  /** The text after the hundreds (or all of it, when there are none) reads back as `rest`. */
  lemma BelowHundredReadsBack(rest: int, afterHundreds: bool)
    requires 0 <= rest < 100
    ensures BelowHundredValue((if afterHundreds && 0 < rest < 10 then [ZeroGlyph] else []) + TensAndUnitsReading(rest), afterHundreds) == Some(rest)
  {
    var t, u := rest / 10, rest % 10;
    if t > 0 { DigitGlyph(t); }
    if u > 0 { DigitGlyph(u); }
  }

  /** Division by ten is determined by quotient and remainder. */
  lemma DivModTen(n: int, q: int, r: int)
    requires n == 10 * q + r && 0 <= r < 10
    ensures n / 10 == q && n % 10 == r
  {
  }

  /** A number splits into its hundreds, tens and units digits. */
  lemma DigitsOfNumber(n: int)
    requires 0 <= n
    ensures n == 100 * (n / 100) + 10 * (n % 100 / 10) + n % 10
    ensures n % 100 % 10 == n % 10
  {
    var h, rest := n / 100, n % 100;
    var t, u := rest / 10, rest % 10;
    assert rest == 10 * t + u;
    DivModTen(n, 10 * h + t, u);
  }

  /** Text that opens with a hundreds glyph and 百 reads as those hundreds plus the rest. */
  lemma HundredsReadBack(h: int, below: string, rest: int)
    requires 1 <= h <= 9
    requires BelowHundredValue(below, true) == Some(rest)
    ensures ChineseToNumber([HundredsGlyph(h), HundredGlyph] + below) == Some(100 * h + rest)
  {
    DigitGlyph(h);
    var s := [HundredsGlyph(h), HundredGlyph] + below;
    assert s[2..] == below;
    assert HundredsValue(s[0]) == Some(h);
  }

  /** A reading with hundreds reads back as its number. */
  lemma ReadingWithHundredsReadsBack(n: int)
    requires 100 <= n <= 999
    ensures ChineseToNumber(Reading(n)) == Some(n)
  {
    var h, rest := n / 100, n % 100;
    var below := (if 0 < rest < 10 then [ZeroGlyph] else []) + TensAndUnitsReading(rest);
    assert Reading(n) == [HundredsGlyph(h), HundredGlyph] + below;
    BelowHundredReadsBack(rest, true);
    HundredsReadBack(h, below, rest);
  }

  /** A reading below one hundred reads back as its number. */
  lemma ReadingBelowHundredReadsBack(n: int)
    requires 0 <= n < 100
    ensures ChineseToNumber(Reading(n)) == Some(n)
  {
    var r := TensAndUnitsReading(n);
    assert n % 100 == n && n / 100 == 0;
    assert Reading(n) == r;
    BelowHundredReadsBack(n, false);
    if n >= 10 {
      DigitGlyph(n / 10);
    }
    assert !(|r| >= 2 && r[1] == HundredGlyph);
  }

  /** Reading the text back gives the number: the formatter loses nothing. */
  lemma ReadBack(n: int)
    requires 0 <= n <= 999
    ensures ChineseToNumber(NumberToChinese(n)) == Some(n)
  {
    NumberToChineseIsReading(n);
    if n >= 100 {
      ReadingWithHundredsReadsBack(n);
    } else {
      ReadingBelowHundredReadsBack(n);
    }
  }

  /** Different numbers are never spoken alike. */
  lemma NumberToChineseInjective(m: int, n: int)
    requires 0 <= m <= 999 && 0 <= n <= 999
    ensures m != n ==> NumberToChinese(m) != NumberToChinese(n)
  {
    ReadBack(m);
    ReadBack(n);
  }

  /** The tens and units are read with digit glyphs and 十 only, and read nothing for 0. */
  lemma TensAndUnitsGlyphs(r: int)
    requires 0 <= r < 100
    ensures var tu := TensAndUnitsReading(r);
      && (|tu| == 0 <==> r == 0)
      && (forall i | 0 <= i < |tu| :: tu[i] != ZeroGlyph && tu[i] != HundredGlyph)
  {
    if r / 10 > 0 { DigitGlyph(r / 10); }
    if r % 10 > 0 { DigitGlyph(r % 10); }
  }

  /** `HundredsLead`, stated of the positional reading of a positive number. */
  lemma ReadingHundredsLead(n: int)
    requires 0 < n <= 999
    ensures var s := Reading(n);
      && (100 <= n ==> |s| >= 2 && s[0] == (if 200 <= n < 300 then LiangGlyph else Digits[n / 100]) && s[1] == HundredGlyph)
      && (forall i | 0 <= i < |s| - 1 :: !(s[i] == '二' && s[i + 1] == HundredGlyph))
  {
    var h, rest := n / 100, n % 100;
    var tu := TensAndUnitsReading(rest);
    TensAndUnitsGlyphs(rest);
    if h > 0 {
      DigitGlyph(h);
      var m := if 0 < rest < 10 then [ZeroGlyph] else [];
      var s := [HundredsGlyph(h), HundredGlyph] + m + tu;
      assert Reading(n) == s;
      forall j | 2 <= j < |s|
        ensures s[j] != HundredGlyph
      {
        if j < 2 + |m| {
          assert s[j] == ZeroGlyph;
        } else {
          assert s[j] == tu[j - 2 - |m|];
        }
      }
    } else {
      assert Reading(n) == tu;
    }
  }

  /** The hundreds come first: 兩百 for the two hundreds, otherwise the digit and 百; 二百 never occurs. */
  lemma HundredsLead(n: int)
    requires n <= 999
    ensures var s := NumberToChinese(n);
      && (100 <= n ==> |s| >= 2 && s[0] == (if 200 <= n < 300 then LiangGlyph else Digits[n / 100]) && s[1] == HundredGlyph)
      && (forall i | 0 <= i < |s| - 1 :: !(s[i] == '二' && s[i + 1] == HundredGlyph))
  {
    NumberToChineseIsReading(n);
    if n > 0 {
      ReadingHundredsLead(n);
    }
  }

  /** `ZeroPlacement`, stated of the positional reading of a positive number. */
  lemma ReadingZeroPlacement(n: int)
    requires 0 < n <= 999
    ensures var s := Reading(n);
      && (ZeroGlyph in s <==> 100 <= n && 0 < n % 100 < 10)
      && (ZeroGlyph in s ==> s[2] == ZeroGlyph && forall i | 0 <= i < |s| && i != 2 :: s[i] != ZeroGlyph)
      && (|s| > 0 ==> s[|s| - 1] != ZeroGlyph)
  {
    var h, rest := n / 100, n % 100;
    var tu := TensAndUnitsReading(rest);
    TensAndUnitsGlyphs(rest);
    if h > 0 {
      DigitGlyph(h);
      var m := if 0 < rest < 10 then [ZeroGlyph] else [];
      var s := [HundredsGlyph(h), HundredGlyph] + m + tu;
      assert Reading(n) == s;
      forall i | 0 <= i < |s| && (i != 2 || |m| == 0)
        ensures s[i] != ZeroGlyph
      {
        if i >= 2 + |m| {
          assert s[i] == tu[i - 2 - |m|];
        }
      }
      if |m| == 1 {
        assert s[2] == ZeroGlyph;
      }
      assert s[|s| - 1] != ZeroGlyph;
    } else {
      assert Reading(n) == tu;
      assert forall i | 0 <= i < |tu| :: tu[i] != ZeroGlyph;
    }
  }

  /**
   * 零 appears exactly when hundreds are followed by units with no tens; it
   * then sits directly after 百 and nowhere else. The text never ends in 零.
   */
  lemma ZeroPlacement(n: int)
    requires n <= 999
    ensures var s := NumberToChinese(n);
      && (ZeroGlyph in s <==> 100 <= n && 0 < n % 100 < 10)
      && (ZeroGlyph in s ==> s[2] == ZeroGlyph && forall i | 0 <= i < |s| && i != 2 :: s[i] != ZeroGlyph)
      && (|s| > 0 ==> s[|s| - 1] != ZeroGlyph)
  {
    NumberToChineseIsReading(n);
    if n > 0 {
      ReadingZeroPlacement(n);
    }
  }

  /**
   * Tens are read `<digit>十` and units come last; an exact hundred is read
   * as its hundreds alone.
   */
  lemma TensThenUnits(n: int)
    requires 0 <= n <= 999
    ensures var s, t, u := NumberToChinese(n), n % 100 / 10, n % 10;
      && (t > 0 ==> var k := if u > 0 then 3 else 2; |s| >= k && s[|s| - k] == Digits[t] && s[|s| - k + 1] == TenGlyph)
      && (u > 0 ==> |s| > 0 && s[|s| - 1] == Digits[u])
      && (100 <= n && n % 100 == 0 ==> |s| == 2)
  {
    NumberToChineseIsReading(n);
    DigitsOfNumber(n);
    var s, rest := Reading(n), n % 100;
    if n > 0 {
      var head := (if n / 100 > 0 then [HundredsGlyph(n / 100), HundredGlyph] else [])
        + (if n / 100 > 0 && 0 < rest < 10 then [ZeroGlyph] else []);
      assert s == head + TensAndUnitsReading(rest);
    }
  }

  /** Worked reading: 零 for the skipped tens of 101. */
  lemma ExampleOneHundredOne()
    ensures NumberToChinese(101) == "一百零一"
  {
    assert AppendTensAndUnits("一百零", 1) == "一百零一";
  }

  /** Worked reading: 兩 and 零 in 205. */
  lemma ExampleTwoHundredFive()
    ensures NumberToChinese(205) == "兩百零五"
  {
    assert 205 % 100 == 5 && ZeroMarker(5) == [ZeroGlyph];
    assert AppendTensAndUnits("兩百零", 5) == "兩百零五";
  }

  /** Worked reading: 兩 and the tens of 250. */
  lemma ExampleTwoHundredFifty()
    ensures NumberToChinese(250) == "兩百五十"
  {
    assert 250 % 100 == 50 && ZeroMarker(50) == [];
    assert AppendTensAndUnits("兩百", 50) == "兩百五十";
  }

  /** Worked reading: the exact hundred 200. */
  lemma ExampleTwoHundred()
    ensures NumberToChinese(200) == "兩百"
  {
    assert 200 % 100 == 0 && ZeroMarker(0) == [];
    assert AppendTensAndUnits("兩百", 0) == "兩百";
  }

  /** Worked reading: 一十 for the tens of 110. */
  lemma ExampleOneHundredTen()
    ensures NumberToChinese(110) == "一百一十"
  {
    assert AppendTensAndUnits("一百", 10) == "一百一十";
  }

  /** Worked reading: all three digits of 999. */
  lemma ExampleNineHundredNinetyNine()
    ensures NumberToChinese(999) == "九百九十九"
  {
    assert AppendTensAndUnits("九百", 99) == "九百九十九";
  }

  /** Worked reading: 一十五 for 15, with no hundreds. */
  lemma ExampleFifteen()
    ensures NumberToChinese(15) == "一十五"
  {
    assert AppendTensAndUnits("", 15) == "一十五";
  }

  /** Worked reading: nothing is read for 0. */
  lemma ExampleZero()
    ensures NumberToChinese(0) == ""
  {
    assert AppendTensAndUnits("", 0) == "";
  }
}
