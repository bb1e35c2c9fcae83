/**
 Decimal amounts as text: formatting, grouping and exact parsing
 (packages/shared/src/presentation.ts:12-93).
 */
module Decimals {
  import opened Wrappers
  import Uint256

  datatype Error = BadDecimals | NotDecimal | TooManyFractionDigits | NotUint256

  // ----- Digit strings

  predicate IsDigit(c: char) {
    '0' <= c <= '9'
  }

  predicate AllDigits(s: string) {
    forall i :: 0 <= i < |s| ==> IsDigit(s[i])
  }

  function DigitValue(c: char): (d: nat)
    requires IsDigit(c)
    ensures d < 10
  {
    c as int - '0' as int
  }

  function DigitChar(d: nat): (c: char)
    requires d < 10
    ensures IsDigit(c) && DigitValue(c) == d
  {
    ('0' as int + d) as char
  }

  /** What BigInt reads from a digit string. */
  function ValueOf(s: string): nat
    requires AllDigits(s)
  {
    if s == "" then 0 else 10 * ValueOf(s[..|s| - 1]) + DigitValue(s[|s| - 1])
  }

  /** What a natural BigInt prints. */
  function ToDecimal(n: nat): (s: string)
    ensures AllDigits(s) && |s| > 0
  {
    if n < 10 then [DigitChar(n)] else ToDecimal(n / 10) + [DigitChar(n % 10)]
  }

  /** The alternatives 0 and [1-9][0-9]* of the source's pattern. */
  predicate IsWhole(s: string) {
    |s| > 0 && AllDigits(s) && (s[0] == '0' ==> |s| == 1)
  }

  function Zeros(n: nat): (s: string)
    ensures |s| == n && AllDigits(s)
  {
    seq(n, _ => '0')
  }

  function PadStart(s: string, n: nat): string {
    if |s| < n then Zeros(n - |s|) + s else s
  }

  function PadEnd(s: string, n: nat): string {
    if |s| < n then s + Zeros(n - |s|) else s
  }

  function StripZeros(s: string): string {
    if s != "" && s[|s| - 1] == '0' then StripZeros(s[..|s| - 1]) else s
  }

  lemma {:induction false} ReadsWhatItPrints(n: nat)
    ensures ValueOf(ToDecimal(n)) == n && IsWhole(ToDecimal(n))
    ensures n > 0 ==> ToDecimal(n)[0] != '0'
  {
    if n < 10 {
      assert ToDecimal(n)[..0] == "";
    } else {
      ReadsWhatItPrints(n / 10);
      var front := ToDecimal(n / 10);
      assert ToDecimal(n)[..|front|] == front;
    }
  }

  lemma {:induction false} PrintsWhatItReads(s: string)
    requires IsWhole(s)
    ensures ToDecimal(ValueOf(s)) == s
    ensures s[0] != '0' ==> ValueOf(s) > 0
    decreases |s|
  {
    var front, last := s[..|s| - 1], s[|s| - 1];
    assert s == front + [last];
    if front != "" {
      PrintsWhatItReads(front);
    }
  }

  lemma ValueOfAppend(s: string, c: char)
    requires AllDigits(s) && IsDigit(c)
    ensures AllDigits(s + [c]) && ValueOf(s + [c]) == 10 * ValueOf(s) + DigitValue(c)
  {
    assert (s + [c])[..|s + [c]| - 1] == s;
  }

  lemma {:induction false} ValueOfConcat(a: string, b: string)
    requires AllDigits(a) && AllDigits(b)
    ensures AllDigits(a + b) && ValueOf(a + b) == ValueOf(a) * Uint256.Pow10(|b|) + ValueOf(b)
    decreases |b|
  {
    if b == "" {
      assert a + b == a;
    } else {
      hide ValueOf, DigitValue;
      var front, last := b[..|b| - 1], b[|b| - 1];
      assert b == front + [last];
      assert a + b == (a + front) + [last];
      ValueOfConcat(a, front);
      ValueOfAppend(front, last);
      ValueOfAppend(a + front, last);
      TenTimes(ValueOf(a), Uint256.Pow10(|front|));
    }
  }

  lemma TenTimes(a: nat, b: nat)
    ensures 10 * (a * b) == a * (10 * b)
  {
  }

  lemma {:induction false} ValueIsBelow(s: string)
    requires AllDigits(s)
    ensures ValueOf(s) < Uint256.Pow10(|s|)
    decreases |s|
  {
    if s != "" {
      ValueIsBelow(s[..|s| - 1]);
    }
  }

  lemma {:induction false} EqualLengthDigitsUnique(a: string, b: string)
    requires AllDigits(a) && AllDigits(b) && |a| == |b| && ValueOf(a) == ValueOf(b)
    ensures a == b
    decreases |a|
  {
    if a != "" {
      EqualLengthDigitsUnique(a[..|a| - 1], b[..|b| - 1]);
      assert a == a[..|a| - 1] + [a[|a| - 1]] && b == b[..|b| - 1] + [b[|b| - 1]];
    }
  }

  lemma {:induction false} ZerosAreZero(n: nat)
    ensures ValueOf(Zeros(n)) == 0
  {
    if n > 0 {
      assert Zeros(n)[..n - 1] == Zeros(n - 1);
      ZerosAreZero(n - 1);
    }
  }

  lemma {:induction false} PrintedLength(n: nat, d: nat)
    requires 0 < d && n < Uint256.Pow10(d)
    ensures |ToDecimal(n)| <= d
    decreases d
  {
    if n >= 10 {
      PrintedLength(n / 10, d - 1);
    }
  }

  /** Stripping removes zeros only, and padding puts them back. */
  lemma {:induction false} StripThenPad(s: string)
    ensures |StripZeros(s)| <= |s| && PadEnd(StripZeros(s), |s|) == s
    ensures StripZeros(s) != "" ==> StripZeros(s)[|StripZeros(s)| - 1] != '0'
    decreases |s|
  {
    if s != "" && s[|s| - 1] == '0' {
      var front := s[..|s| - 1];
      StripThenPad(front);
      assert s == front + ['0'];
      var kept := StripZeros(front);
      assert Zeros(|front| - |kept|) + ['0'] == Zeros(|s| - |kept|);
    }
  }

  lemma {:induction false} StripIgnoresZeros(s: string, n: nat)
    ensures StripZeros(s + Zeros(n)) == StripZeros(s)
    decreases n
  {
    if n == 0 {
      assert s + Zeros(n) == s;
    } else {
      var padded := s + Zeros(n);
      assert padded[..|padded| - 1] == s + Zeros(n - 1);
      StripIgnoresZeros(s, n - 1);
    }
  }

  // ----- Formatting

  function Split(magnitude: nat, unit: nat): (nat, nat)
    requires unit > 0
  {
    (magnitude / unit, magnitude % unit)
  }

  function FormatMagnitude(magnitude: nat, decimals: nat): string {
    var (whole, fraction) := Split(magnitude, Uint256.Pow10(decimals));
    if fraction == 0 then ToDecimal(whole)
    else ToDecimal(whole) + "." + StripZeros(PadStart(ToDecimal(fraction), decimals))
  }

  function FormatDecimalUnits(value: int, decimals: int): Result<string, Error> {
    if decimals < 0 || decimals > Uint256.MAX_DECIMALS then Err(BadDecimals)
    else if value < 0 then Ok("-" + FormatMagnitude(-value, decimals))
    else Ok(FormatMagnitude(value, decimals))
  }

  // ----- Parsing

  function Find(s: string, c: char): (i: nat)
    ensures i <= |s| && c !in s[..i] && (i < |s| ==> s[i] == c)
  {
    if s == "" || s[0] == c then 0 else 1 + Find(s[1..], c)
  }

  /** The two groups of ^(0|[1-9][0-9]*)(?:\.([0-9]+))?$, an absent fraction being empty. */
  function Match(s: string): (groups: Option<(string, string)>)
    ensures groups.Some? ==> IsWhole(groups.value.0) && AllDigits(groups.value.1)
  {
    var dot := Find(s, '.');
    var whole := s[..dot];
    if !IsWhole(whole) then None
    else if dot == |s| then Some((whole, ""))
    else if dot + 1 < |s| && AllDigits(s[dot + 1..]) then Some((whole, s[dot + 1..]))
    else None
  }

  function ParseDecimalUnits(s: string, decimals: int): Result<nat, Error> {
    if decimals < 0 || decimals > Uint256.MAX_DECIMALS then Err(BadDecimals)
    else
      var groups := Match(s);
      if groups == None then Err(NotDecimal)
      else
        var (whole, fraction) := groups.value;
        if |fraction| > decimals then Err(TooManyFractionDigits)
        else
          var digits := whole + PadEnd(fraction, decimals);
          assert AllDigits(digits);
          var scaled := ValueOf(digits);
          if scaled > Uint256.UINT256_MAX then Err(NotUint256) else Ok(scaled)
  }

  function Joined(whole: string, fraction: string): string {
    if fraction == "" then whole else whole + "." + fraction
  }

  /** The pattern accepts exactly the joined forms, and splits them back. */
  lemma MatchIff(s: string, whole: string, fraction: string)
    ensures Match(s) == Some((whole, fraction))
      <==> s == Joined(whole, fraction) && IsWhole(whole) && AllDigits(fraction)
  {
    var dot := Find(s, '.');
    if Match(s) == Some((whole, fraction)) && dot < |s| {
      assert s == s[..dot] + [s[dot]] + s[dot + 1..];
    }
    if s == Joined(whole, fraction) && IsWhole(whole) && AllDigits(fraction) {
      DotOfJoined(whole, fraction);
    }
  }

  lemma DotOfJoined(whole: string, fraction: string)
    requires AllDigits(whole)
    ensures var s := Joined(whole, fraction);
            && Find(s, '.') == |whole| && s[..|whole|] == whole
            && (fraction != "" ==> |whole| < |s| && s[|whole| + 1..] == fraction)
            && (fraction == "" ==> |whole| == |s|)
  {
    hide Find;
    var s := Joined(whole, fraction);
    var dot := Find(s, '.');
    assert forall i :: 0 <= i < |whole| ==> s[i] == whole[i] && s[i] != '.';
    assert fraction != "" ==> s[|whole|] == '.';
    assert forall i :: 0 <= i < dot ==> s[..dot][i] != '.';
    assert forall i :: 0 <= i < dot ==> s[i] == s[..dot][i];
    assert dot >= |whole|;
    assert dot <= |whole|;
  }

  // ----- Exactness

  /** The parsed number is the written one scaled by the unit, without rounding. */
  lemma ScaledValue(whole: string, fraction: string, decimals: nat)
    requires IsWhole(whole) && AllDigits(fraction) && |fraction| <= decimals
    ensures AllDigits(whole + PadEnd(fraction, decimals))
    ensures ValueOf(whole + PadEnd(fraction, decimals))
      == ValueOf(whole) * Uint256.Pow10(decimals) + ValueOf(PadEnd(fraction, decimals))
    ensures ValueOf(PadEnd(fraction, decimals))
      == ValueOf(fraction) * Uint256.Pow10(decimals - |fraction|) < Uint256.Pow10(decimals)
  {
    var padded := PadEnd(fraction, decimals);
    ValueOfConcat(whole, padded);
    assert padded == fraction + Zeros(decimals - |fraction|);
    ValueOfConcat(fraction, Zeros(decimals - |fraction|));
    ZerosAreZero(decimals - |fraction|);
    ValueIsBelow(padded);
  }

  lemma ParseJoined(whole: string, fraction: string, decimals: nat)
    requires IsWhole(whole) && AllDigits(fraction) && decimals <= Uint256.MAX_DECIMALS
    ensures |fraction| > decimals ==> ParseDecimalUnits(Joined(whole, fraction), decimals) == Err(TooManyFractionDigits)
    ensures |fraction| <= decimals ==>
              && AllDigits(PadEnd(fraction, decimals))
              && ParseDecimalUnits(Joined(whole, fraction), decimals)
                 == Limited(ValueOf(whole) * Uint256.Pow10(decimals) + ValueOf(PadEnd(fraction, decimals)))
  {
    hide ValueOf, Match, IsWhole, Uint256.Pow10;
    MatchIff(Joined(whole, fraction), whole, fraction);
    if |fraction| <= decimals {
      ScaledValue(whole, fraction, decimals);
    }
  }

  function Limited(v: nat): Result<nat, Error> {
    if v > Uint256.UINT256_MAX then Err(NotUint256) else Ok(v)
  }

  ghost predicate Writes(s: string, whole: string, fraction: string, decimals: nat, v: nat) {
    && s == Joined(whole, fraction) && IsWhole(whole) && AllDigits(fraction) && |fraction| <= decimals
    && v == ValueOf(whole) * Uint256.Pow10(decimals) + ValueOf(fraction) * Uint256.Pow10(decimals - |fraction|)
    && v <= Uint256.UINT256_MAX
  }

  lemma ParsedIsWritten(s: string, decimals: nat, v: nat) returns (whole: string, fraction: string)
    requires decimals <= Uint256.MAX_DECIMALS && ParseDecimalUnits(s, decimals) == Ok(v)
    ensures Writes(s, whole, fraction, decimals, v)
  {
    var groups := Match(s).value;
    whole, fraction := groups.0, groups.1;
    hide ValueOf, Match, IsWhole, Uint256.Pow10, ParseDecimalUnits, PadEnd, Joined;
    MatchIff(s, whole, fraction);
    ParseJoined(whole, fraction, decimals);
    ScaledValue(whole, fraction, decimals);
  }

  lemma WrittenParses(s: string, whole: string, fraction: string, decimals: nat, v: nat)
    requires decimals <= Uint256.MAX_DECIMALS && Writes(s, whole, fraction, decimals, v)
    ensures ParseDecimalUnits(s, decimals) == Ok(v)
  {
    hide ValueOf, Match, IsWhole, Uint256.Pow10, ParseDecimalUnits, PadEnd, Joined;
    ParseJoined(whole, fraction, decimals);
    ScaledValue(whole, fraction, decimals);
  }

  /** Exactly which strings parse, and to what number. */
  lemma ParseIff(s: string, decimals: nat, v: nat)
    requires decimals <= Uint256.MAX_DECIMALS
    ensures ParseDecimalUnits(s, decimals) == Ok(v)
      <==> exists whole, fraction :: Writes(s, whole, fraction, decimals, v)
  {
    hide ParseDecimalUnits, Writes;
    if ParseDecimalUnits(s, decimals) == Ok(v) {
      var whole, fraction := ParsedIsWritten(s, decimals, v);
    }
    if exists whole, fraction :: Writes(s, whole, fraction, decimals, v) {
      var whole, fraction :| Writes(s, whole, fraction, decimals, v);
      WrittenParses(s, whole, fraction, decimals, v);
    }
  }

  // ----- Round trips

  lemma AtLeastOnce(d: int, unit: int)
    requires unit >= 0
    ensures d >= 1 ==> d * unit >= unit
    ensures d <= -1 ==> d * unit <= -unit
  {
  }

  lemma QuotientOf(q: nat, r: nat, unit: nat)
    requires r < unit
    ensures (q * unit + r) / unit == q && (q * unit + r) % unit == r
  {
    var v := q * unit + r;
    var k := v / unit;
    assert v == k * unit + v % unit;
    assert (q - k) * unit == v % unit - r;
    AtLeastOnce(q - k, unit);
  }

  lemma PositiveScale(n: nat, decimals: nat)
    requires 0 < n < Uint256.Pow10(decimals)
    ensures decimals > 0
  {
  }

  lemma PaddedToScale(fraction: nat, decimals: nat)
    requires 0 < fraction < Uint256.Pow10(decimals)
    ensures var padded := PadStart(ToDecimal(fraction), decimals);
            |padded| == decimals && AllDigits(padded) && ValueOf(padded) == fraction
  {
    hide ValueOf, ToDecimal, Uint256.Pow10, IsWhole;
    var printed := ToDecimal(fraction);
    PositiveScale(fraction, decimals);
    PrintedLength(fraction, decimals);
    ReadsWhatItPrints(fraction);
    var zeros := Zeros(decimals - |printed|);
    assert PadStart(printed, decimals) == zeros + printed;
    ValueOfConcat(zeros, printed);
    ZerosAreZero(|zeros|);
  }

  /** The fraction digits printed for a nonzero remainder: nonempty, not longer than the scale, padding back to it. */
  lemma PrintedFraction(fraction: nat, decimals: nat)
    requires 0 < fraction < Uint256.Pow10(decimals)
    ensures var padded := PadStart(ToDecimal(fraction), decimals);
            && |padded| == decimals && AllDigits(padded) && ValueOf(padded) == fraction
            && StripZeros(padded) != "" && |StripZeros(padded)| <= decimals && AllDigits(StripZeros(padded))
            && PadEnd(StripZeros(padded), decimals) == padded
  {
    hide ValueOf, ToDecimal, Uint256.Pow10, PadStart, StripZeros;
    PaddedToScale(fraction, decimals);
    var padded := PadStart(ToDecimal(fraction), decimals);
    StripThenPad(padded);
    var kept := StripZeros(padded);
    assert padded == kept + Zeros(decimals - |kept|);
    assert forall i :: 0 <= i < |kept| ==> kept[i] == padded[i];
    ZerosAreZero(decimals);
    assert kept == "" ==> padded == Zeros(decimals);
  }

  /** A formatted number is its whole and fraction digits joined, and those spell the number. */
  lemma FormatJoins(v: nat, decimals: nat) returns (whole: string, fraction: string)
    ensures FormatMagnitude(v, decimals) == Joined(whole, fraction)
    ensures IsWhole(whole) && AllDigits(fraction) && |fraction| <= decimals && AllDigits(PadEnd(fraction, decimals))
    ensures v == ValueOf(whole) * Uint256.Pow10(decimals) + ValueOf(PadEnd(fraction, decimals))
  {
    hide ValueOf, ToDecimal, Uint256.Pow10, PadStart, StripZeros, PadEnd, IsWhole;
    var unit := Uint256.Pow10(decimals);
    assert v == (v / unit) * unit + v % unit;
    whole := ToDecimal(v / unit);
    ReadsWhatItPrints(v / unit);
    if v % unit == 0 {
      fraction := "";
      PaddedEmpty(decimals);
    } else {
      fraction := StripZeros(PadStart(ToDecimal(v % unit), decimals));
      PrintedFraction(v % unit, decimals);
    }
  }

  lemma PaddedEmpty(decimals: nat)
    ensures PadEnd("", decimals) == Zeros(decimals) && ValueOf(Zeros(decimals)) == 0
  {
    ZerosAreZero(decimals);
    assert "" + Zeros(decimals) == Zeros(decimals);
  }

  /** Parsing a formatted number gives it back exactly when it is a uint256; a negative one is refused. */
  lemma ParseOfFormat(v: int, decimals: nat)
    requires decimals <= Uint256.MAX_DECIMALS
    ensures ParseDecimalUnits(FormatDecimalUnits(v, decimals).value, decimals)
         == if v < 0 then Err(NotDecimal) else if v > Uint256.UINT256_MAX then Err(NotUint256) else Ok(v)
  {
    if v < 0 {
      NegativeIsRefused(FormatMagnitude(-v, decimals));
    } else {
      hide ValueOf, FormatMagnitude, Joined, IsWhole, Uint256.Pow10, PadEnd, ParseDecimalUnits;
      var whole, fraction := FormatJoins(v, decimals);
      ParseJoined(whole, fraction, decimals);
    }
  }

  lemma NegativeIsRefused(s: string)
    ensures Match("-" + s) == None
  {
    var text := "-" + s;
    var dot := Find(text, '.');
    if dot > 0 {
      assert text[..dot][0] == '-';
    }
  }

  /** Formatting what was parsed gives the same text with the redundant fraction zeros dropped. */
  lemma FormatOfParse(s: string, decimals: nat, v: nat)
    requires decimals <= Uint256.MAX_DECIMALS && ParseDecimalUnits(s, decimals) == Ok(v)
    ensures Match(s).Some? && FormatDecimalUnits(v, decimals)
      == Ok(Joined(Match(s).value.0, StripZeros(Match(s).value.1)))
  {
    var (whole, fraction) := Match(s).value;
    hide ValueOf, ToDecimal, Uint256.Pow10, PadStart, StripZeros, IsWhole, Match;
    var padded := PadEnd(fraction, decimals);
    ScaledValue(whole, fraction, decimals);
    QuotientOf(ValueOf(whole), ValueOf(padded), Uint256.Pow10(decimals));
    PrintsWhatItReads(whole);
    assert padded == fraction + Zeros(decimals - |fraction|);
    StripIgnoresZeros(fraction, decimals - |fraction|);
    if ValueOf(padded) == 0 {
      PaddedEmpty(decimals);
      EqualLengthDigitsUnique(padded, Zeros(decimals));
      StripIgnoresZeros("", decimals);
      StripOfEmpty();
    } else {
      PaddedToScale(ValueOf(padded), decimals);
      PrintedFraction(ValueOf(padded), decimals);
      EqualLengthDigitsUnique(padded, PadStart(ToDecimal(ValueOf(padded)), decimals));
    }
  }

  lemma StripOfEmpty()
    ensures StripZeros("") == "" && forall n: nat :: "" + Zeros(n) == Zeros(n)
  {
  }

  // ----- Grouping

  /** A comma before every group of three digits counted from the right. */
  function Group(whole: string): string {
    if |whole| <= 3 then whole else Group(whole[..|whole| - 3]) + "," + whole[|whole| - 3..]
  }

  function FormatGroupedDecimalUnits(value: int, decimals: int): Result<string, Error> {
    var formatted := FormatDecimalUnits(value, decimals);
    if formatted.Err? then formatted
    else
      var sign := if formatted.value != "" && formatted.value[0] == '-' then "-" else "";
      var unsigned := formatted.value[|sign|..];
      var dot := Find(unsigned, '.');
      Ok(sign + Group(unsigned[..dot]) + unsigned[dot..])
  }

  function WithoutCommas(s: string): string {
    if s == "" then "" else WithoutCommas(s[..|s| - 1]) + if s[|s| - 1] == ',' then "" else [s[|s| - 1]]
  }

  lemma {:induction false} WithoutCommasConcat(a: string, b: string)
    ensures WithoutCommas(a + b) == WithoutCommas(a) + WithoutCommas(b)
    decreases |b|
  {
    if b == "" {
      assert a + b == a;
    } else {
      assert (a + b)[..|a + b| - 1] == a + b[..|b| - 1];
      WithoutCommasConcat(a, b[..|b| - 1]);
    }
  }

  lemma {:induction false} NoCommas(s: string)
    requires ',' !in s
    ensures WithoutCommas(s) == s
    decreases |s|
  {
    if s != "" {
      NoCommas(s[..|s| - 1]);
      assert s == s[..|s| - 1] + [s[|s| - 1]];
    }
  }

  /** Removing the commas undoes the grouping. */
  lemma {:induction false} UngroupedIsWhole(whole: string)
    requires AllDigits(whole)
    ensures WithoutCommas(Group(whole)) == whole
    decreases |whole|
  {
    if |whole| <= 3 {
      NoCommas(whole);
    } else {
      hide WithoutCommas;
      var front, tail := whole[..|whole| - 3], whole[|whole| - 3..];
      var g := Group(front);
      UngroupedIsWhole(front);
      NoCommas(tail);
      WithoutCommasConcat(g + ",", tail);
      WithoutCommasConcat(g, ",");
      OneComma();
      assert whole == front + tail;
    }
  }

  lemma OneComma()
    ensures WithoutCommas(",") == ""
  {
    assert ","[..0] == "";
  }

  /** Commas stand exactly at every fourth place from the right, and never in front. */
  lemma {:induction false} GroupingIsByThrees(whole: string)
    requires AllDigits(whole) && |whole| > 0
    ensures Group(whole) != "" && Group(whole)[0] != ','
    ensures forall i :: 0 <= i < |Group(whole)| ==> (Group(whole)[|Group(whole)| - 1 - i] == ',' <==> i % 4 == 3)
    decreases |whole|
  {
    if |whole| > 3 {
      var front, tail := whole[..|whole| - 3], whole[|whole| - 3..];
      GroupingIsByThrees(front);
      CommaPlaces(Group(front), tail);
    }
  }

  lemma CommaPlaces(g: string, tail: string)
    requires AllDigits(tail) && |tail| == 3
    requires forall i :: 0 <= i < |g| ==> (g[|g| - 1 - i] == ',' <==> i % 4 == 3)
    ensures var all := g + "," + tail;
            forall i :: 0 <= i < |all| ==> (all[|all| - 1 - i] == ',' <==> i % 4 == 3)
  {
    var all := g + "," + tail;
    forall i | 0 <= i < |all|
      ensures all[|all| - 1 - i] == ',' <==> i % 4 == 3
    {
      if i >= 4 {
        assert all[|all| - 1 - i] == g[|g| - 1 - (i - 4)];
        assert (i - 4) % 4 == i % 4;
      } else if i < 3 {
        assert all[|all| - 1 - i] == tail[2 - i];
        assert IsDigit(tail[2 - i]);
      }
    }
  }

  lemma UngroupedMagnitude(sign: string, v: nat, decimals: nat)
    requires sign == "" || sign == "-"
    ensures var unsigned := FormatMagnitude(v, decimals);
            var dot := Find(unsigned, '.');
            && unsigned != "" && unsigned[0] != '-'
            && WithoutCommas(sign + Group(unsigned[..dot]) + unsigned[dot..]) == sign + unsigned
  {
    hide ValueOf, FormatMagnitude, Uint256.Pow10, PadEnd, WithoutCommas, Group, Find;
    var unsigned := FormatMagnitude(v, decimals);
    var whole, fraction := FormatJoins(v, decimals);
    DotOfJoined(whole, fraction);
    var rest := unsigned[|whole|..];
    assert unsigned == whole + rest;
    assert rest == if fraction == "" then "" else "." + fraction;
    UngroupedIsWhole(whole);
    NoCommas(sign);
    NoCommas(rest);
    WithoutCommasConcat(sign + Group(whole), rest);
    WithoutCommasConcat(sign, Group(whole));
    assert sign + whole + rest == sign + unsigned;
  }

  /** Removing the commas from the grouped form gives back the plain form, sign and fraction included. */
  lemma UngroupedIsPlain(v: int, decimals: nat)
    requires decimals <= Uint256.MAX_DECIMALS
    ensures FormatGroupedDecimalUnits(v, decimals).Ok?
    ensures WithoutCommas(FormatGroupedDecimalUnits(v, decimals).value) == FormatDecimalUnits(v, decimals).value
  {
    hide WithoutCommas, Group, FormatMagnitude, Find;
    if v < 0 {
      UngroupedMagnitude("-", -v, decimals);
      assert ("-" + FormatMagnitude(-v, decimals))[1..] == FormatMagnitude(-v, decimals);
    } else {
      UngroupedMagnitude("", v, decimals);
      assert FormatMagnitude(v, decimals)[0..] == FormatMagnitude(v, decimals);
    }
  }
}
