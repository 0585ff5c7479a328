/** Turning the named captures of a successful parse match back into a duration
    (`TimeSpanFromParseMatch`): whole days, hours, minutes and seconds through the
    four-argument constructor, then the sub-second part and the extra ticks added on. */
module Reconstruction {
  import opened Wrappers
  import opened Strings
  import opened Spans
  import opened Cultures

  /** C# `unchecked` int arithmetic: the value modulo 2^32, read as signed. */
  function Wrap32(x: int): (r: Int32)
    ensures MinInt32 <= x <= MaxInt32 ==> r == x
    ensures (x - r) % 0x1_0000_0000 == 0
  {
    var m := x % 0x1_0000_0000;
    if m > MaxInt32 then m - 0x1_0000_0000 else m
  }

  /** `int.Parse` of a group's value when the group took part, else `otherwise`. */
  function GroupInt(caps: Captures, name: string, otherwise: Int32): (r: Result<Int32>)
    ensures name !in caps ==> r == Ok(otherwise)
    ensures name in caps ==> (r.Ok? <==> ParseInt32(caps[name]).Some?)
    ensures name in caps && r.Ok? ==> r.value == ParseInt32(caps[name]).value
  {
    if name in caps then
      match ParseIntText(caps[name])
      case Ok(v) => Ok(v)
      case Err(e) => Err(e)
    else Ok(otherwise)
  }

  /** Where the decimal separator first occurs in a `p` capture, or -1. */
  function SeparatorAt(text: string, c: Culture): (i: int)
    ensures -1 <= i && (i >= 0 ==> i + |c.decimalSeparator| <= |text|)
  {
    if c.decimalSeparator == "" then -1 else IndexOf(text, c.decimalSeparator)
  }

  /** `double.Parse` of a `p` capture split into whole seconds (`(int)Math.Truncate`) and
      the rest as ticks (`Math.Round(rest * 1e7)`). With at most eight integer digits and
      seven decimals the double arithmetic is exact; beyond that the platform decides. */
  function PSeconds(text: string, c: Culture, pf: Platform): (Int32, Int64) {
    var i := SeparatorAt(text, c);
    var whole := if i < 0 then text else text[..i];
    var frac := if i < 0 then "" else text[i + |c.decimalSeparator|..];
    if IsExactP(whole, frac) then ExactSeconds(whole, frac) else pf.pSeconds(text)
  }

  predicate IsExactP(whole: string, frac: string) {
    whole != [] && AllDigits(whole) && |whole| <= 8 && AllDigits(frac) && |frac| <= 7
  }

  /** Whole seconds and decimals in ticks, where the double arithmetic is exact. */
  function ExactSeconds(whole: string, frac: string): (r: (Int32, Int64))
    requires IsExactP(whole, frac)
    ensures 0 <= r.0 < 100_000_000 && 0 <= r.1 < TicksPerSecond
  {
    ExactSecondsBound(whole, frac);
    (DigitsValue(whole), DigitsValue(frac) * Pow10(7 - |frac|))
  }

  lemma ExactSecondsBound(whole: string, frac: string)
    requires IsExactP(whole, frac)
    ensures DigitsValue(whole) < 100_000_000 && DigitsValue(frac) * Pow10(7 - |frac|) < TicksPerSecond
  {
    DigitsValueBound(whole);
    Pow10Monotone(|whole|, 8);
    ScaledDigitsBound(frac, 7);
    assert Pow10(8) == 100_000_000 && Pow10(7) == TicksPerSecond;
  }

  lemma {:induction false} Pow10Monotone(a: nat, b: nat)
    requires a <= b
    ensures Pow10(a) <= Pow10(b)
    decreases b
  {
    if a < b {
      Pow10Monotone(a, b - 1);
    }
  }

  /** The whole units a match names and the ticks of a `p` fraction. */
  datatype Whole = Whole(days: Int32, hours: Int32, minutes: Int32, seconds: Int32, fraction: Int64)

  /** The `try` block: `d`, then `w` weeks added as seven days each in wrapping int
      arithmetic, `h`, `m`, `s`, and `p` replacing the seconds; any failure there becomes
      OverflowException. */
  function ReadWhole(caps: Captures, c: Culture, pf: Platform): (r: Result<Whole>)
    ensures r.Err? ==> r.error == OverflowException
  {
    match (GroupInt(caps, "d", 0), GroupInt(caps, "w", 0), GroupInt(caps, "h", 0), GroupInt(caps, "m", 0), GroupInt(caps, "s", 0))
    case (Ok(d), Ok(w), Ok(h), Ok(m), Ok(s)) =>
      var days := if "w" in caps then Wrap32(d as int + Wrap32(w as int * 7)) else d;
      if "p" in caps then
        var (ps, pt) := PSeconds(caps["p"], c, pf);
        Ok(Whole(days, h, m, ps, pt))
      else Ok(Whole(days, h, m, s, 0))
    case _ => Err(OverflowException)
  }

  /** The ticks of `f`/`F` decimals: `double.Parse("0" + separator + digits)` times 10^7,
      rounded. Exact for up to seven digits; the platform rounds longer runs. Text that is
      not a digit run raises FormatException. */
  function FractionDigitsTicks(digits: string, pf: Platform): (r: Result<Int64>)
    ensures r.Err? <==> digits == [] || !AllDigits(digits)
    ensures r.Err? ==> r.error == FormatException
    ensures r.Ok? && |digits| <= 7 ==> 0 <= r.value < TicksPerSecond
  {
    if digits != [] && AllDigits(digits) then
      if |digits| <= 7 then
        ScaledDigitsBound(digits, 7);
        assert Pow10(7) == TicksPerSecond;
        Ok(DigitsValue(digits) * Pow10(7 - |digits|))
      else Ok(pf.fractionRound(digits))
    else Err(FormatException)
  }

  /** The sub-second ticks: `k` milliseconds win, then the `f` or else `F` decimals, then
      the fraction of `p`. */
  function FractionTicks(caps: Captures, pTicks: Int64, pf: Platform): Result<Int64> {
    var fVal := if "f" in caps then caps["f"] else if "F" in caps then caps["F"] else "";
    var dk :- if fVal != "" then FractionDigitsTicks(fVal, pf) else Ok(pTicks);
    if "k" in caps then
      var k :- ParseIntText(caps["k"]);
      Ok(k * TicksPerMillisecond)
    else Ok(dk)
  }

  /** The duration a match stands for: the whole units through the four-argument
      constructor (ArgumentOutOfRangeException out of range), plus the sub-second ticks when
      nonzero, plus `t` ticks (OverflowException when a sum leaves the tick range). */
  function FromCaptures(caps: Captures, c: Culture, pf: Platform): (r: Result<TimeSpan2>)
    ensures ReadWhole(caps, c, pf).Err? ==> r == Err(OverflowException)
    ensures r.Err? ==> r.error == OverflowException || r.error == ArgumentOutOfRangeException || r.error == FormatException
    ensures r.Ok? ==> ReadWhole(caps, c, pf).Ok?
    ensures r.Ok? ==>
      var w := ReadWhole(caps, c, pf).value;
      && FromDhms(w.days, w.hours, w.minutes, w.seconds).Ok?
      && FractionTicks(caps, w.fraction, pf).Ok?
      && ("t" in caps ==> ParseInt32(caps["t"]).Some?)
      && r.value.ticks == FromDhms(w.days, w.hours, w.minutes, w.seconds).value.ticks
                          + FractionTicks(caps, w.fraction, pf).value
                          + (if "t" in caps then ParseInt32(caps["t"]).value else 0)
  {
    var w :- ReadWhole(caps, c, pf);
    var ret :- FromDhms(w.days, w.hours, w.minutes, w.seconds);
    var dk :- FractionTicks(caps, w.fraction, pf);
    var withFraction :- if dk != 0 then ret.Add(TimeSpan2(dk)) else Ok(ret);
    if "t" in caps then
      var t :- ParseIntText(caps["t"]);
      withFraction.Add(TimeSpan2(t))
    else Ok(withFraction)
  }

  /** The first part of `TimeSpanFromParseMatch`: the updates to `d`, `h`, `m`, `s` and the
      `p` ticks. */
  method ReadMatchWhole(caps: Captures, c: Culture, pf: Platform) returns (r: Result<Whole>)
    ensures r == ReadWhole(caps, c, pf)
  {
    var gd := GroupInt(caps, "d", 0);
    var gw := GroupInt(caps, "w", 0);
    var gh := GroupInt(caps, "h", 0);
    var gm := GroupInt(caps, "m", 0);
    var gs := GroupInt(caps, "s", 0);
    if gd.Err? || gw.Err? || gh.Err? || gm.Err? || gs.Err? {
      return Err(OverflowException);
    }
    var d: Int32, h: Int32, m: Int32, s: Int32, dk: Int64 := gd.value, gh.value, gm.value, gs.value, 0;
    if "w" in caps {
      d := Wrap32(d as int + Wrap32(gw.value as int * 7));
    }
    if "p" in caps {
      var (ps, pt) := PSeconds(caps["p"], c, pf);
      s, dk := ps, pt;
    }
    return Ok(Whole(d, h, m, s, dk));
  }

  /** `TimeSpanFromParseMatch`: the source's sequence of updates to `d`, `h`, `m`, `s` and
      `dk`, then to the result. */
  method TimeSpanFromParseMatch(caps: Captures, c: Culture, pf: Platform) returns (r: Result<TimeSpan2>)
    ensures r == FromCaptures(caps, c, pf)
  {
    var w := ReadMatchWhole(caps, c, pf);
    if w.Err? {
      return Err(w.error);
    }
    var d, h, m, s, dk := w.value.days, w.value.hours, w.value.minutes, w.value.seconds, w.value.fraction;
    var ret := FromDhms(d, h, m, s);
    if ret.Err? {
      return Err(ret.error);
    }
    var fVal := "";
    if "f" in caps {
      fVal := caps["f"];
    } else if "F" in caps {
      fVal := caps["F"];
    }
    if |fVal| > 0 {
      var f := FractionDigitsTicks(fVal, pf);
      if f.Err? {
        return Err(f.error);
      }
      dk := f.value;
    }
    if "k" in caps {
      var k := ParseIntText(caps["k"]);
      if k.Err? {
        return Err(k.error);
      }
      dk := k.value * TicksPerMillisecond;
    }
    assert FractionTicks(caps, w.value.fraction, pf) == Ok(dk);
    var result := ret.value;
    if dk != 0 {
      var sum := result.Add(TimeSpan2(dk));
      if sum.Err? {
        return Err(sum.error);
      }
      result := sum.value;
    }
    if "t" in caps {
      var t := ParseIntText(caps["t"]);
      if t.Err? {
        return Err(t.error);
      }
      var sum := result.Add(TimeSpan2(t.value));
      if sum.Err? {
        return Err(sum.error);
      }
      result := sum.value;
    }
    return Ok(result);
  }

  // ----- properties -----

  /** The groups the reconstruction never reads: the sign, the totals, the day of the week. */
  const Unread: set<string> := {"n", "D", "H", "M", "S", "K", "r"}

  /** Two matches give the same value for a group. */
  predicate SameGroup(a: Captures, b: Captures, g: string) {
    (g in a <==> g in b) && (g in a ==> a[g] == b[g])
  }

  /** The reconstruction depends only on `d w h m s p f F k t`. */
  lemma ReadsOnly(a: Captures, b: Captures, c: Culture, pf: Platform)
    requires SameGroup(a, b, "d") && SameGroup(a, b, "w") && SameGroup(a, b, "h") && SameGroup(a, b, "m")
    requires SameGroup(a, b, "s") && SameGroup(a, b, "p") && SameGroup(a, b, "f") && SameGroup(a, b, "F")
    requires SameGroup(a, b, "k") && SameGroup(a, b, "t")
    ensures FromCaptures(a, c, pf) == FromCaptures(b, c, pf)
  {
    WholeReadsOnly(a, b, c, pf);
    var w := ReadWhole(a, c, pf);
    if w.Ok? {
      FractionReadsOnly(a, b, w.value.fraction, pf);
    }
    assert "t" in a ==> ParseIntText(a["t"]) == ParseIntText(b["t"]);
  }

  lemma WholeReadsOnly(a: Captures, b: Captures, c: Culture, pf: Platform)
    requires SameGroup(a, b, "d") && SameGroup(a, b, "w") && SameGroup(a, b, "h") && SameGroup(a, b, "m")
    requires SameGroup(a, b, "s") && SameGroup(a, b, "p")
    ensures ReadWhole(a, c, pf) == ReadWhole(b, c, pf)
  {
    assert GroupInt(a, "d", 0) == GroupInt(b, "d", 0) && GroupInt(a, "w", 0) == GroupInt(b, "w", 0);
    assert GroupInt(a, "h", 0) == GroupInt(b, "h", 0) && GroupInt(a, "m", 0) == GroupInt(b, "m", 0);
    assert GroupInt(a, "s", 0) == GroupInt(b, "s", 0);
  }

  lemma FractionReadsOnly(a: Captures, b: Captures, x: Int64, pf: Platform)
    requires SameGroup(a, b, "f") && SameGroup(a, b, "F") && SameGroup(a, b, "k")
    ensures FractionTicks(a, x, pf) == FractionTicks(b, x, pf)
  {
  }

  /** The sign and the totals play no part: a parsed `-` does not make the duration
      negative, and a total such as `H` does not contribute its hours. */
  lemma UnreadGroupsIgnored(caps: Captures, c: Culture, pf: Platform)
    ensures FromCaptures(caps, c, pf) == FromCaptures(caps - Unread, c, pf)
  {
    var rest := caps - Unread;
    assert SameGroup(caps, rest, "d") && SameGroup(caps, rest, "w") && SameGroup(caps, rest, "h");
    assert SameGroup(caps, rest, "m") && SameGroup(caps, rest, "s") && SameGroup(caps, rest, "p");
    assert SameGroup(caps, rest, "f") && SameGroup(caps, rest, "F") && SameGroup(caps, rest, "k");
    assert SameGroup(caps, rest, "t");
    ReadsOnly(caps, rest, c, pf);
  }

  /** Which sub-second source counts: `k` over everything else, `f` over `F`, and either over
      the fraction of `p`, which counts only when none of them took part. */
  lemma FractionPrecedence(caps: Captures, pTicks: Int64, pf: Platform)
    ensures "k" in caps && FractionTicks(caps, pTicks, pf).Ok? ==>
      ParseIntText(caps["k"]).Ok? && FractionTicks(caps, pTicks, pf).value == ParseIntText(caps["k"]).value * TicksPerMillisecond
    ensures "k" !in caps && "f" in caps && caps["f"] != "" ==>
      FractionTicks(caps, pTicks, pf) == FractionDigitsTicks(caps["f"], pf)
    ensures "k" !in caps && "f" !in caps && "F" in caps && caps["F"] != "" ==>
      FractionTicks(caps, pTicks, pf) == FractionDigitsTicks(caps["F"], pf)
    ensures "k" !in caps && "f" !in caps && "F" !in caps ==> FractionTicks(caps, pTicks, pf) == Ok(pTicks)
  {
  }

  /** Weeks count seven days each, added to the days, while the sum stays in the int range. */
  lemma WeeksAddDays(caps: Captures, c: Culture, pf: Platform)
    requires ReadWhole(caps, c, pf).Ok? && "w" in caps
    requires var d := GroupInt(caps, "d", 0).value; var w := GroupInt(caps, "w", 0).value;
      d + 7 * w <= MaxInt32
    ensures ReadWhole(caps, c, pf).value.days == GroupInt(caps, "d", 0).value + 7 * GroupInt(caps, "w", 0).value
  {
  }

  /** The weeks product wraps: `w` = 613566756 gives 7·w = 2^32 - 4 days, which the unchecked
      int arithmetic reads as -4, so a text with no sign parses as a negative duration. */
  lemma WeeksWrapNegative(caps: Captures, c: Culture, pf: Platform)
    requires caps == map["w" := "613566756"]
    ensures ReadWhole(caps, c, pf) == Ok(Whole(-4, 0, 0, 0, 0))
    ensures FromCaptures(caps, c, pf) == Ok(TimeSpan2(-4 * TicksPerDay))
  {
    WeeksText(caps["w"]);
    assert Wrap32(613566756 * 7) == -4;
    assert ReadWhole(caps, c, pf) == Ok(Whole(-4, 0, 0, 0, 0));
    assert FromDhms(-4, 0, 0, 0) == Ok(TimeSpan2(-4 * TicksPerDay));
    assert FractionTicks(caps, 0, pf) == Ok(0);
  }

  lemma WeeksText(w: string)
    requires w == "613566756"
    ensures ParseIntText(w) == Ok(613566756)
  {
    assert AllDigits(w);
    assert w[..1][..0] == w[..0] && DigitsValue(w[..1]) == 6;
    assert w[..2][..1] == w[..1] && DigitsValue(w[..2]) == 61;
    assert w[..3][..2] == w[..2] && DigitsValue(w[..3]) == 613;
    assert w[..4][..3] == w[..3] && DigitsValue(w[..4]) == 6135;
    assert w[..5][..4] == w[..4] && DigitsValue(w[..5]) == 61356;
    assert w[..6][..5] == w[..5] && DigitsValue(w[..6]) == 613566;
    assert w[..7][..6] == w[..6] && DigitsValue(w[..7]) == 6135667;
    assert w[..8][..7] == w[..7] && DigitsValue(w[..8]) == 61356675;
    assert w[..9][..8] == w[..8] && DigitsValue(w[..9]) == 613566756;
    assert w[..9] == w;
  }

  /** A `p` capture with at most eight integer digits and seven decimals reads back as its
      whole seconds and its decimals in ticks, when the separator starts with a non-digit. */
  lemma PSecondsReadsBack(whole: string, frac: string, c: Culture, pf: Platform)
    requires whole != [] && AllDigits(whole) && |whole| <= 8
    requires AllDigits(frac) && |frac| <= 7
    requires c.decimalSeparator != [] && !IsDigit(c.decimalSeparator[0])
    ensures PSeconds(whole + c.decimalSeparator + frac, c, pf) == (DigitsValue(whole), DigitsValue(frac) * Pow10(7 - |frac|))
  {
    var sep := c.decimalSeparator;
    var text := whole + sep + frac;
    assert OccursAt(text, sep, |whole|) by {
      assert text[|whole|..|whole| + |sep|] == sep;
    }
    var i := IndexOf(text, sep);
    assert i == |whole|;
    assert text[..i] == whole;
    assert text[i + |sep|..] == frac;
  }

  /** The captures a match of the `c` pattern's `d`, `hh`, `mm`, `ss` and `fffffff` yields on
      the text formatting renders for them. */
  function ClockCaptures(t: TimeSpan2, c: Culture): Captures
    requires t.ticks >= 0
  {
    map["d" := NumberText(t.Days(), c.negativeSign),
        "h" := PaddedText(t.Hours(), 2, c.negativeSign),
        "m" := PaddedText(t.Minutes(), 2, c.negativeSign),
        "s" := PaddedText(t.Seconds(), 2, c.negativeSign),
        "f" := SevenDecimals(Rem(t.ticks, TicksPerSecond))]
  }

  /** What formatting renders for `d`, `hh`, `mm`, `ss` and `fffffff` parses back to the same
      duration, for a non-negative value: the seven decimals carry milliseconds and
      sub-millisecond ticks alike. */
  lemma FormattedComponentsParseBack(t: TimeSpan2, c: Culture, pf: Platform)
    requires t.ticks >= 0
    ensures FromCaptures(ClockCaptures(t, c), c, pf) == Ok(t)
  {
    var caps := ClockCaptures(t, c);
    var rem := Rem(t.ticks, TicksPerSecond);
    var ret := TimeSpan2(t.ticks - rem);
    var w := Whole(t.Days(), t.Hours(), t.Minutes(), t.Seconds(), 0);
    ClockWhole(t, c, pf);
    WholeSecondsRoundTrip(t);
    ClockFraction(t, c, pf);
    FromCapturesWithoutTicks(caps, c, pf, w, ret, rem, t);
  }

  /** The reconstruction when no `t` group took part, one phase at a time: the whole part,
      then the ticks of the fraction added to it. */
  lemma FromCapturesWithoutTicks(caps: Captures, c: Culture, pf: Platform, w: Whole, ret: TimeSpan2, dk: Int64, t: TimeSpan2)
    requires ReadWhole(caps, c, pf) == Ok(w) && "t" !in caps
    requires FromDhms(w.days, w.hours, w.minutes, w.seconds) == Ok(ret)
    requires FractionTicks(caps, w.fraction, pf) == Ok(dk)
    requires ret.ticks + dk == t.ticks
    ensures FromCaptures(caps, c, pf) == Ok(t)
  {
    assert dk != 0 ==> ret.Add(TimeSpan2(dk)) == Ok(t);
  }

  lemma ClockWhole(t: TimeSpan2, c: Culture, pf: Platform)
    requires t.ticks >= 0
    ensures ReadWhole(ClockCaptures(t, c), c, pf) == Ok(Whole(t.Days(), t.Hours(), t.Minutes(), t.Seconds(), 0))
  {
    var caps := ClockCaptures(t, c);
    assert t.Days() >= 0;
    PaddedTextParses(t.Days(), 0, c.negativeSign);
    PaddedTextParses(t.Hours(), 2, c.negativeSign);
    PaddedTextParses(t.Minutes(), 2, c.negativeSign);
    PaddedTextParses(t.Seconds(), 2, c.negativeSign);
    assert GroupInt(caps, "d", 0) == Ok(t.Days());
    assert GroupInt(caps, "h", 0) == Ok(t.Hours());
    assert GroupInt(caps, "m", 0) == Ok(t.Minutes());
    assert GroupInt(caps, "s", 0) == Ok(t.Seconds());
    assert "w" !in caps && "p" !in caps;
  }

  lemma ClockFraction(t: TimeSpan2, c: Culture, pf: Platform)
    requires t.ticks >= 0
    ensures FractionTicks(ClockCaptures(t, c), 0, pf) == Ok(Rem(t.ticks, TicksPerSecond))
  {
    var caps := ClockCaptures(t, c);
    var rem := Rem(t.ticks, TicksPerSecond);
    SevenDecimalsValue(rem);
    assert caps["f"] == SevenDecimals(rem) && "k" !in caps;
    assert FractionDigitsTicks(SevenDecimals(rem), pf) == Ok(rem);
  }

  /** The seven decimals of a sub-second tick count (the digits `fffffff` renders). */
  function SevenDecimals(rem: int): string
    requires 0 <= rem < TicksPerSecond
  {
    ZeroPad(DecimalText(rem), 7)
  }

  lemma SevenDecimalsValue(rem: int)
    requires 0 <= rem < TicksPerSecond
    ensures |SevenDecimals(rem)| == 7 && AllDigits(SevenDecimals(rem)) && DigitsValue(SevenDecimals(rem)) == rem
  {
    assert Pow10(7) == TicksPerSecond;
    DecimalTextLength(rem, 7);
    ZerosValue(7 - |DecimalText(rem)|, DecimalText(rem));
    DecimalTextValue(rem);
  }
}
