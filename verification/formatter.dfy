/** The formatting interpreter: the text of every leaf of a pattern tree for a duration
    (`GetValueForGroup`, `GetStringValue`, `GetCultureString`) and the walk over the tree
    that joins them, drops optional groups in which no number is nonzero and places the
    list and word separators (`ProcessFormatEntity`). */
module Formatting {
  import opened Wrappers
  import opened Strings
  import opened Spans
  import opened Cultures
  import opened Patterns
  import opened Trees

  const TwoTo53: int := 0x20_0000_0000_0000
  /** Below this magnitude `double.ToString` writes an integral value as plain digits. */
  const PlainLimit: int := 1_000_000_000_000_000

  /** `(double)n` for a natural number: the nearest double, ties to even, where `unit` is the
      spacing of doubles already ruled out as too fine. */
  function RoundMagnitude(n: nat, unit: nat): (d: nat)
    requires 1 <= unit <= n + 1 && (n > 0 ==> unit <= n)
    ensures n > 0 ==> d > 0
    ensures unit == 1 && n < TwoTo53 ==> d == n
    decreases n + 1 - unit
  {
    if n < TwoTo53 * unit then NearestMultiple(n, unit)
    else
      DoubleFits(n, unit);
      RoundMagnitude(n, unit * 2)
  }

  /** The multiple of `unit` nearest to `n`, ties to the even multiple. */
  function NearestMultiple(n: nat, unit: nat): (d: nat)
    requires 1 <= unit && (n > 0 ==> unit <= n)
    ensures n > 0 ==> d > 0
    ensures unit == 1 ==> d == n
  {
    var q, r := n / unit, n % unit;
    QuotientPositive(n, unit, q);
    if 2 * r > unit || (2 * r == unit && q % 2 == 1) then
      (q + 1) * unit
    else
      q * unit
  }

  lemma QuotientPositive(n: nat, unit: nat, q: int)
    requires 1 <= unit && (n > 0 ==> unit <= n) && q == n / unit
    ensures n > 0 ==> q >= 1 && q * unit >= 1 && (q + 1) * unit >= 1
  {
  }

  lemma DoubleFits(n: nat, unit: nat)
    requires 1 <= unit && TwoTo53 * unit <= n
    ensures unit * 2 <= n
  {
    assert TwoTo53 * unit == 2 * unit + (TwoTo53 - 2) * unit;
  }

  /** `(double)x` for an integer `x`: exact below 2^53 in magnitude, rounded beyond. */
  function RoundToDouble(x: int): (d: int)
    ensures -TwoTo53 < x < TwoTo53 ==> d == x
    ensures x < 0 <==> d < 0
  {
    if x < 0 then 0 - RoundMagnitude(-x, 1) as int else RoundMagnitude(x, 1)
  }

  /** A value `GetValueForGroup` yields, as far as formatting depends on it:
      an integral component; the sub-second part of a tick count for `f`/`F` (the C#
      remainder of `(double)ticks` by one second, and whether that double is negative);
      or another double (a total, `p` or `w`), of which the model keeps whether it is nonzero
      and leaves its digits to the platform. */
  datatype Num =
    | Integral(v: int)
    | SubSecond(r: int, negative: bool)
    | Double(nonZero: bool)
  {
    predicate IsZero() {
      match this
      case Integral(v) => v == 0
      case SubSecond(r, _) => r == 0
      case Double(nz) => !nz
    }
  }

  /** The group names `GetValueForGroup` knows, each a single letter. */
  const ValueLetters: set<char> := {'d', 'D', 'h', 'H', 'm', 'M', 's', 'S', 't', 'k', 'K', 'f', 'F', 'p', 'w', 'r'}

  /** `GetValueForGroup`: the number a group name stands for; FormatException for any other
      name. Whether `p` (`TotalSeconds % 60`) is nonzero depends on double rounding and is
      the platform's. */
  function GetValueForGroup(core: TimeSpan2, name: string, pf: Platform): (r: Result<Num>)
    ensures r.Err? <==> !(|name| == 1 && name[0] in ValueLetters)
    ensures r.Err? ==> r.error == FormatException
    ensures r.Ok? ==> (r.value.SubSecond? <==> name[0] == 'f' || name[0] == 'F')
    ensures r.Ok? && r.value.SubSecond? ==> -TicksPerSecond < r.value.r < TicksPerSecond
  {
    if |name| != 1 then Err(FormatException)
    else
      match name[0]
      case 'd' => Ok(Integral(core.Days()))
      case 'D' => Ok(Double(core.ticks != 0))
      case 'h' => Ok(Integral(core.Hours()))
      case 'H' => Ok(Double(core.ticks != 0))
      case 'm' => Ok(Integral(core.Minutes()))
      case 'M' => Ok(Double(core.ticks != 0))
      case 's' => Ok(Integral(core.Seconds()))
      case 'S' => Ok(Double(core.ticks != 0))
      case 't' => Ok(Integral(core.ticks))
      case 'k' => Ok(Integral(core.Milliseconds()))
      case 'K' => Ok(Double(core.ticks != 0))
      case 'f' => Ok(SubSecond(Rem(RoundToDouble(core.ticks), TicksPerSecond), core.ticks < 0))
      case 'F' => Ok(SubSecond(Rem(RoundToDouble(core.ticks), TicksPerSecond), core.ticks < 0))
      case 'p' => Ok(Double(pf.pNonZero(core.ticks)))
      case 'w' => Ok(Double(core.Days() != 0))
      case 'r' => Ok(Integral(Rem(core.Days(), 7)))
      case _ => Err(FormatException)
  }

  /** The integral value a unit letter stands for: `GetValueForGroup` of its letter. */
  function UnitValue(core: TimeSpan2, u: Unit): (v: int)
    ensures forall pf: Platform :: GetValueForGroup(core, [UnitLetter(u)], pf) == Ok(Integral(v))
  {
    match u
    case Day => core.Days()
    case Hour => core.Hours()
    case Minute => core.Minutes()
    case Second => core.Seconds()
    case Millisecond => core.Milliseconds()
    case Tick => core.ticks
  }

  /** `value.ToString("f7")` of the sub-second double: sign when negative, `0`, the decimal
      separator and seven digits. */
  function SevenDigits(r: int, negative: bool, c: Culture): string
    requires -TicksPerSecond < r < TicksPerSecond
  {
    (if negative then c.negativeSign else "") + "0" + c.decimalSeparator
      + ZeroPad(DecimalText(if r < 0 then -r else r), 7)
  }

  /** `value.ToString()` of an integral value, or the platform's text for a double. */
  function PlainText(value: Num, t: Token, core: TimeSpan2, c: Culture, pf: Platform): string {
    match value
    case Integral(v) =>
      if -PlainLimit < v < PlainLimit then NumberText(v, c.negativeSign)
      else pf.doubleText(GroupName(t.name), t.text, core.ticks)
    case _ => pf.doubleText(GroupName(t.name), t.text, core.ticks)
  }

  /** `GetStringValue`: the text of a numeric leaf.
      `f`/`F`: the first n of the seven sub-second digits (n = the run length, 1 for `%f`),
      taken from the fixed-point text at offset 2, with trailing zeros trimmed for `F`;
      `%x` or a single letter: the plain number; a letter run: the number zero-padded to the
      run length; a letter with digits: rounded to that many decimals by the platform, with
      OverflowException past `int.MaxValue` and ArgumentOutOfRangeException past 15 decimals. */
  function GetStringValue(value: Num, t: Token, core: TimeSpan2, c: Culture, pf: Platform): (r: Result<string>)
    requires GroupName(t.name) == "f" || GroupName(t.name) == "F" <==> value.SubSecond?
    requires value.SubSecond? ==> -TicksPerSecond < value.r < TicksPerSecond
    ensures value.SubSecond? && t.text == [] ==> r == Err(IndexOutOfRangeException)
    ensures value.SubSecond? && !value.negative && 0 <= value.r && |c.decimalSeparator| == 1
            && WellFormed(t) && t.name.Fraction? ==>
      var n := if t.text[0] == '%' then 1 else |t.text|;
      r.Ok? && FractionDigitsShape(r.value, value.r, n, t.name.c == 'F')
    ensures value.Integral? && 0 <= value.v <= MaxInt32 && t.text != []
            && (t.text[0] == '%' || |t.text| == 1 || !IsDigit(t.text[1])) ==>
      && r.Ok? && ParseInt32(r.value) == Some(value.v)
      && (t.text[0] == '%' || |t.text| == 1 ==> r.value == DecimalText(value.v))
      && (t.text[0] != '%' && |t.text| >= 2 ==> IsPadded(r.value, DecimalText(value.v), |t.text|))
    ensures !value.SubSecond? && |t.text| >= 2 && t.text[0] != '%' && IsDigit(t.text[1]) ==>
      (r.Err? <==> ParseIntText(t.text[1..]).Err? || ParseIntText(t.text[1..]).value > 15)
  {
    var s := t.text;
    if value.SubSecond? then SubSecondText(value, t, c)
    else if (s != [] && s[0] == '%') || |s| == 1 then
      IntegralFacts(value, |s|, c.negativeSign);
      Ok(PlainText(value, t, core, c, pf))
    else if |s| < 2 then Err(ArgumentOutOfRangeException)
    else if !IsDigit(s[1]) then
      match value
      case Integral(v) =>
        IntegralFacts(value, |s|, c.negativeSign);
        Ok(if -PlainLimit < v < PlainLimit then PaddedText(v, |s|, c.negativeSign)
           else pf.doubleText(GroupName(t.name), s, core.ticks))
      case _ => Ok(pf.doubleText(GroupName(t.name), s, core.ticks))
    else
      var precision :- ParseIntText(s[1..]);
      if precision > 15 then Err(ArgumentOutOfRangeException)
      else Ok(PlainText(value, t, core, c, pf))
  }

  /** The `f`/`F` case of `GetStringValue`: n of the seven digits of the fixed-point text,
      from offset 2, trimmed for `F`. */
  function SubSecondText(value: Num, t: Token, c: Culture): (r: Result<string>)
    requires value.SubSecond? && -TicksPerSecond < value.r < TicksPerSecond
    ensures t.text == [] ==> r == Err(IndexOutOfRangeException)
    ensures !value.negative && 0 <= value.r && |c.decimalSeparator| == 1 && WellFormed(t) && t.name.Fraction? ==>
      var n := if t.text[0] == '%' then 1 else |t.text|;
      r.Ok? && FractionDigitsShape(r.value, value.r, n, t.name.c == 'F')
  {
    var s := t.text;
    if s == [] then Err(IndexOutOfRangeException)
    else
      var count := if s[0] == '%' then |s| - 1 else |s|;
      var text := SevenDigits(value.r, value.negative, c);
      FractionCount(t);
      if 2 + count > |text| then
        FractionFits(value, t, c, count, text);
        Err(ArgumentOutOfRangeException)
      else
        var digits := text[2..2 + count];
        var out := if GroupName(t.name) == "F" then TrimEndZeros(digits) else digits;
        FractionFacts(value.r, value.negative, c, count, GroupName(t.name) == "F", digits, out);
        Ok(out)
  }

  /** For a non-negative value the fixed-point text has room for every `f`/`F` leaf. */
  lemma FractionFits(value: Num, t: Token, c: Culture, count: int, text: string)
    requires value.SubSecond? && -TicksPerSecond < value.r < TicksPerSecond && t.text != []
    requires count == (if t.text[0] == '%' then |t.text| - 1 else |t.text|)
    requires text == SevenDigits(value.r, value.negative, c)
    ensures !value.negative && 0 <= value.r && |c.decimalSeparator| == 1 && FractionShape(t) ==>
      2 + count <= |text|
  {
    if !value.negative && 0 <= value.r && |c.decimalSeparator| == 1 && FractionShape(t) {
      SevenDigitsValue(value.r, c);
    }
  }

  /** `out` is the text of an `f` leaf (untrimmed) or an `F` leaf (trimmed) of n digits for
      a sub-second tick count r: n decimals of the fraction of a second, and for `F` the
      same decimals without their trailing zeros. */
  predicate FractionDigitsShape(out: string, r: int, n: nat, trimmed: bool) {
    && n <= 7 && AllDigits(out)
    && (!trimmed ==> |out| == n && DigitsValue(out) == r / Pow10(7 - n))
    && (trimmed ==> |out| <= n && DigitsValue(out) * Pow10(n - |out|) == r / Pow10(7 - n))
  }

  /** The digits an `f`/`F` leaf takes from the fixed-point text of a non-negative
      sub-second value: n of them, worth the value cut to n places; trimmed for `F`. */
  lemma FractionFacts(r: int, negative: bool, c: Culture, n: int, trimmed: bool, digits: string, out: string)
    requires -TicksPerSecond < r < TicksPerSecond
    requires 0 <= n && 2 + n <= |SevenDigits(r, negative, c)|
    requires digits == SevenDigits(r, negative, c)[2..2 + n]
    requires out == if trimmed then TrimEndZeros(digits) else digits
    ensures !negative && 0 <= r && |c.decimalSeparator| == 1 && 1 <= n <= 7 ==>
      FractionDigitsShape(out, r, n, trimmed)
  {
    if !negative && 0 <= r && |c.decimalSeparator| == 1 && 1 <= n <= 7 {
      FractionDigitsFacts(r, negative, n, c, digits);
      FractionOut(r, n, trimmed, digits, out);
    }
  }

  /** The `f` leaf keeps the digits, the `F` leaf trims them. */
  lemma FractionOut(r: int, n: nat, trimmed: bool, digits: string, out: string)
    requires 1 <= n <= 7
    requires AllDigits(digits) && |digits| == n && DigitsValue(digits) == r / Pow10(7 - n)
    requires AllDigits(TrimEndZeros(digits)) && |TrimEndZeros(digits)| <= n
    requires DigitsValue(TrimEndZeros(digits)) * Pow10(n - |TrimEndZeros(digits)|) == r / Pow10(7 - n)
    requires out == if trimmed then TrimEndZeros(digits) else digits
    ensures AllDigits(out)
    ensures !trimmed ==> |out| == n && DigitsValue(out) == r / Pow10(7 - n)
    ensures trimmed ==> |out| <= n && DigitsValue(out) * Pow10(n - |out|) == r / Pow10(7 - n)
  {
  }

  /** An `f`/`F` leaf takes as many digits as it has letters, one for `%f`. */
  lemma FractionCount(t: Token)
    ensures WellFormed(t) && t.name.Fraction? ==> FractionShape(t)
  {
    if WellFormed(t) && t.name.Fraction? {
      assert GroupName(t.name) == [t.name.c];
      assert GroupName(t.name) == "F" ==> GroupName(t.name)[0] == 'F';
    }
  }

  /** The shape of an `f`/`F` leaf that the digit count relies on. */
  predicate FractionShape(t: Token) {
    && t.name.Fraction? && t.text != [] && (t.text[0] == '%' ==> |t.text| == 2)
    && 1 <= (if t.text[0] == '%' then 1 else |t.text|) <= 7
    && (if t.text[0] == '%' then |t.text| - 1 else |t.text|) == (if t.text[0] == '%' then 1 else |t.text|)
    && (GroupName(t.name) == "F" <==> t.name.c == 'F')
  }

  lemma FractionDigitsFacts(r: int, negative: bool, n: nat, c: Culture, digits: string)
    requires 0 <= r < TicksPerSecond && !negative && 1 <= n <= 7 && |c.decimalSeparator| == 1
    requires digits == SevenDigits(r, negative, c)[2..2 + n]
    ensures AllDigits(digits) && |digits| == n && DigitsValue(digits) == r / Pow10(7 - n)
    ensures AllDigits(TrimEndZeros(digits)) && |TrimEndZeros(digits)| <= n
    ensures DigitsValue(TrimEndZeros(digits)) * Pow10(n - |TrimEndZeros(digits)|) == r / Pow10(7 - n)
  {
    FractionDigitsValue(r, n, c);
    TrimmedFractionValue(r, n, c);
  }

  /** The plain and the zero-padded text of a non-negative `int` read back as the value;
      the padded one is at least as long as the run. */
  lemma IntegralFacts(value: Num, width: nat, negativeSign: string)
    ensures value.Integral? && 0 <= value.v <= MaxInt32 ==>
      && -PlainLimit < value.v < PlainLimit
      && ParseInt32(PaddedText(value.v, width, negativeSign)) == Some(value.v)
      && ParseInt32(NumberText(value.v, negativeSign)) == Some(value.v)
      && IsPadded(PaddedText(value.v, width, negativeSign), DecimalText(value.v), width)
      && NumberText(value.v, negativeSign) == DecimalText(value.v)
  {
    if value.Integral? && 0 <= value.v <= MaxInt32 {
      PaddedTextParses(value.v, width, negativeSign);
      ZeroPadShape(DecimalText(value.v), width);
    }
  }

  /** `GetCultureString`: the singular template of the unit named by the letter after `@`
      when the value is 1, the plural one otherwise, with its first character upper-cased
      when that letter is upper case; empty for a letter that names no unit. */
  function GetCultureString(value: int, matchValue: string, c: Culture): (r: string)
    requires |matchValue| >= 2
    ensures LetterUnit(ToLowerChar(matchValue[1])).None? ==> r == ""
    ensures LetterUnit(ToLowerChar(matchValue[1])).Some? ==>
      (var u := LetterUnit(ToLowerChar(matchValue[1])).value;
       var template := if value == 1 then c.one.Get(u) else c.many.Get(u);
       |r| == |template|
       && (r != [] ==> r[1..] == template[1..]
                       && r[0] == if IsUpper(matchValue[1]) then ToUpperChar(template[0]) else template[0]))
  {
    var ret := match LetterUnit(ToLowerChar(matchValue[1]))
      case None => ""
      case Some(u) => if value == 1 then c.one.Get(u) else c.many.Get(u);
    if |ret| > 0 && IsUpper(matchValue[1]) then [ToUpperChar(ret[0])] + ret[1..] else ret
  }

  /** What formatting an entity yields: its text and whether it holds a nonzero number. */
  datatype Out = Out(text: string, found: bool)

  predicate IsNumeric(n: Name) {
    n.Component? || n.Total? || n.Precision? || n.Fraction?
  }

  /** The leaf case of `ProcessFormatEntity`. */
  function FormatLeaf(t: Token, core: TimeSpan2, c: Culture, pf: Platform): (r: Result<Out>)
    ensures r.Ok? && r.value.found ==> IsNumeric(t.name)
  {
    match t.name
    case Negative => Ok(Out(if core.ticks < 0 then c.negativeSign else "", false))
    case TimeSep => Ok(Out(c.timeSeparator, false))
    case DecimalSep => Ok(Out(c.decimalSeparator, false))
    case WordSep => Ok(Out(" ", false))
    case ListSep => Ok(Out("", false))
    case Verbose(u) =>
      if |t.text| < 2 then Err(IndexOutOfRangeException)
      else Ok(Out(GetCultureString(UnitValue(core, u), t.text, c), false))
    case Quoted => Ok(Out(t.text, false))
    case Escaped => Ok(Out(t.text, false))
    case ZeroText => Ok(Out(t.text, false))
    case _ =>
      var value :- GetValueForGroup(core, GroupName(t.name), pf);
      var text :- GetStringValue(value, t, core, c, pf);
      Ok(Out(text, !value.IsZero()))
  }

  /** The state of the loop over a group's children: the text so far, whether a nonzero
      number was seen, and whether a list or word separator waits for the next text. */
  datatype Acc = Acc(sb: string, found: bool, sep: bool, space: bool)

  const Start: Acc := Acc("", false, false, false)

  predicate IsLeafNamed(e: Entity, n: Name) {
    e.Leaf? && e.token.name == n
  }

  /** One turn of the loop for child `e` with output `o`: `fs` and `ws` only arm a separator,
      and only after text; any other child first emits the armed separators (when its own
      text is nonempty) and then its text. */
  function Step(acc: Acc, e: Entity, o: Out, listSeparator: string): Acc {
    var found := acc.found || o.found;
    if IsLeafNamed(e, ListSep) then Acc(acc.sb, found, acc.sep || acc.sb != "", acc.space)
    else if IsLeafNamed(e, WordSep) then Acc(acc.sb, found, acc.sep, acc.space || acc.sb != "")
    else
      var withSep := if acc.sep && o.text != "" then acc.sb + listSeparator else acc.sb;
      var withSpace := if acc.space && o.text != "" then withSep + " " else withSep;
      Acc(withSpace + o.text, found, acc.sep && o.text == "", acc.space && o.text == "")
  }

  /** The text and found flag of an entity: a leaf by `FormatLeaf`; a group (the root
      included) by folding `Step` over its children, keeping the text only when some child
      found a nonzero number. The first exception raised anywhere is the result. */
  function FormatEntity(e: Entity, core: TimeSpan2, c: Culture, pf: Platform): Result<Out>
    decreases e
  {
    match e
    case Leaf(t) => FormatLeaf(t, core, c, pf)
    case Node(_, _, _, cs) =>
      var acc :- FormatChildren(cs, Start, core, c, pf);
      Ok(Out(if acc.found then acc.sb else "", acc.found))
  }

  function FormatChildren(cs: seq<Entity>, acc: Acc, core: TimeSpan2, c: Culture, pf: Platform): Result<Acc>
    decreases cs
  {
    if cs == [] then Ok(acc)
    else
      var o :- FormatEntity(cs[0], core, c, pf);
      FormatChildren(cs[1..], Step(acc, cs[0], o, c.listSeparator), core, c, pf)
  }

  /** `ProcessFormatEntity`: the recursive walk, with the source's `StringBuilder` loop and
      its `foundValue`/`foundSep`/`foundSpace` flags. */
  method ProcessFormatEntity(e: Entity, core: TimeSpan2, c: Culture, pf: Platform) returns (r: Result<Out>)
    ensures r == FormatEntity(e, core, c, pf)
    decreases e
  {
    if e.Leaf? {
      return FormatLeaf(e.token, core, c, pf);
    }
    var sb, foundValue, foundSep, foundSpace := "", false, false, false;
    var i := 0;
    while i < |e.children|
      invariant i <= |e.children|
      invariant FormatChildren(e.children, Start, core, c, pf)
        == FormatChildren(e.children[i..], Acc(sb, foundValue, foundSep, foundSpace), core, c, pf)
    {
      var child := e.children[i];
      var o := ProcessFormatEntity(child, core, c, pf);
      if o.Err? {
        return Err(o.error);
      }
      if o.value.found && !foundValue {
        foundValue := true;
      }
      if IsLeafNamed(child, ListSep) {
        if |sb| > 0 {
          foundSep := true;
        }
      } else if IsLeafNamed(child, WordSep) {
        if |sb| > 0 {
          foundSpace := true;
        }
      } else {
        if foundSep && o.value.text != "" {
          sb := sb + c.listSeparator;
          foundSep := false;
        }
        if foundSpace && o.value.text != "" {
          sb := sb + " ";
          foundSpace := false;
        }
        sb := sb + o.value.text;
      }
      assert e.children[i..][1..] == e.children[i + 1..];
      i := i + 1;
    }
    return Ok(Out(if foundValue then sb else "", foundValue));
  }

  // ----- properties of the interpreter -----

  /** A leaf that holds a nonzero number: a numeric capture whose group value is not zero. */
  predicate LeafNonZero(t: Token, core: TimeSpan2, pf: Platform) {
    IsNumeric(t.name)
    && var v := GetValueForGroup(core, GroupName(t.name), pf);
       v.Ok? && !v.value.IsZero()
  }

  predicate AnyNonZero(ts: seq<Token>, core: TimeSpan2, pf: Platform) {
    exists k :: 0 <= k < |ts| && LeafNonZero(ts[k], core, pf)
  }

  lemma AnyNonZeroAppend(a: seq<Token>, b: seq<Token>, core: TimeSpan2, pf: Platform)
    ensures AnyNonZero(a + b, core, pf) <==> AnyNonZero(a, core, pf) || AnyNonZero(b, core, pf)
  {
    if AnyNonZero(a + b, core, pf) {
      var k :| 0 <= k < |a + b| && LeafNonZero((a + b)[k], core, pf);
      if k < |a| {
        assert (a + b)[k] == a[k];
      } else {
        assert (a + b)[k] == b[k - |a|];
      }
    }
    if AnyNonZero(a, core, pf) {
      var k :| 0 <= k < |a| && LeafNonZero(a[k], core, pf);
      assert (a + b)[k] == a[k];
    }
    if AnyNonZero(b, core, pf) {
      var k :| 0 <= k < |b| && LeafNonZero(b[k], core, pf);
      assert (a + b)[|a| + k] == b[k];
    }
  }

  /** A leaf reports a value found exactly when it is a number and that number is nonzero. */
  lemma LeafFound(t: Token, core: TimeSpan2, c: Culture, pf: Platform)
    requires FormatLeaf(t, core, c, pf).Ok?
    ensures FormatLeaf(t, core, c, pf).value.found <==> LeafNonZero(t, core, pf)
  {
  }

  /** An entity reports a value found exactly when one of the numbers inside it, at any depth,
      is nonzero; a group (optional or the root) in which every number is zero renders as
      nothing at all, whatever literals it holds. */
  lemma {:induction false} EntityFound(e: Entity, core: TimeSpan2, c: Culture, pf: Platform)
    requires FormatEntity(e, core, c, pf).Ok?
    ensures FormatEntity(e, core, c, pf).value.found <==> AnyNonZero(Flatten(e), core, pf)
    ensures e.Node? && !AnyNonZero(Flatten(e), core, pf) ==> FormatEntity(e, core, c, pf).value.text == ""
    decreases e
  {
    match e
    case Leaf(t) =>
      LeafFound(t, core, c, pf);
      assert Flatten(e) == [t];
      assert AnyNonZero([t], core, pf) <==> LeafNonZero(t, core, pf) by {
        assert [t][0] == t;
      }
    case Node(_, _, _, cs) =>
      ChildrenFound(cs, Start, core, c, pf);
  }

  lemma {:induction false} ChildrenFound(cs: seq<Entity>, acc: Acc, core: TimeSpan2, c: Culture, pf: Platform)
    requires FormatChildren(cs, acc, core, c, pf).Ok?
    ensures FormatChildren(cs, acc, core, c, pf).value.found
            <==> acc.found || AnyNonZero(FlattenAll(cs), core, pf)
    decreases cs
  {
    if cs != [] {
      var o := FormatEntity(cs[0], core, c, pf).value;
      EntityFound(cs[0], core, c, pf);
      ChildrenFound(cs[1..], Step(acc, cs[0], o, c.listSeparator), core, c, pf);
      AnyNonZeroAppend(Flatten(cs[0]), FlattenAll(cs[1..]), core, pf);
    }
  }

  /** The text a list (`fs`) or word (`ws`) separator stands for. */
  function Gap(n: Name, c: Culture): string {
    if n == ListSep then c.listSeparator else " "
  }

  predicate IsSeparator(e: Entity) {
    IsLeafNamed(e, ListSep) || IsLeafNamed(e, WordSep)
  }

  /** A separator between two entities shows only when text stands on both sides of it. */
  lemma SeparatorBetween(x: Entity, sep: Entity, y: Entity, core: TimeSpan2, c: Culture, pf: Platform)
    requires IsSeparator(sep) && !IsSeparator(x) && !IsSeparator(y)
    requires FormatEntity(x, core, c, pf).Ok? && FormatEntity(y, core, c, pf).Ok?
    ensures var a, b := FormatEntity(x, core, c, pf).value.text, FormatEntity(y, core, c, pf).value.text;
      var r := FormatChildren([x, sep, y], Start, core, c, pf);
      r.Ok? && r.value.sb == a + (if a != "" && b != "" then Gap(sep.token.name, c) else "") + b
  {
    var ox, oy := FormatEntity(x, core, c, pf).value, FormatEntity(y, core, c, pf).value;
    assert FormatEntity(sep, core, c, pf).Ok?;
    var os := FormatEntity(sep, core, c, pf).value;
    var a1 := Step(Start, x, ox, c.listSeparator);
    var a2 := Step(a1, sep, os, c.listSeparator);
    StepsAround(x, sep, y, ox, os, oy, c);
    ChildrenCons([x, sep, y], Start, core, c, pf);
    ChildrenCons([sep, y], a1, core, c, pf);
    ChildrenCons([y], a2, core, c, pf);
    assert [x, sep, y][1..] == [sep, y] && [sep, y][1..] == [y] && [y][1..] == [];
  }

  lemma StepsAround(x: Entity, sep: Entity, y: Entity, ox: Out, os: Out, oy: Out, c: Culture)
    requires IsSeparator(sep) && !IsSeparator(x) && !IsSeparator(y)
    ensures var a := Step(Step(Step(Start, x, ox, c.listSeparator), sep, os, c.listSeparator), y, oy, c.listSeparator);
      a.sb == ox.text + (if ox.text != "" && oy.text != "" then Gap(sep.token.name, c) else "") + oy.text
  {
    var a1 := Step(Start, x, ox, c.listSeparator);
    var a2 := Step(a1, sep, os, c.listSeparator);
    assert a1.sb == ox.text && !a1.sep && !a1.space;
    assert a2.sb == ox.text;
    assert a2.sep || a2.space <==> ox.text != "";
    assert a2.sep ==> sep.token.name == ListSep && !a2.space;
    assert a2.space ==> sep.token.name == WordSep && !a2.sep;
  }

  /** The fold over a group's children, one child at a time. */
  lemma ChildrenCons(cs: seq<Entity>, acc: Acc, core: TimeSpan2, c: Culture, pf: Platform)
    requires cs != [] && FormatEntity(cs[0], core, c, pf).Ok?
    ensures FormatChildren(cs, acc, core, c, pf)
            == FormatChildren(cs[1..], Step(acc, cs[0], FormatEntity(cs[0], core, c, pf).value, c.listSeparator), core, c, pf)
  {
  }

  /** A separator with nothing after it in its group shows nothing. */
  lemma SeparatorAtEnd(x: Entity, sep: Entity, core: TimeSpan2, c: Culture, pf: Platform)
    requires IsSeparator(sep) && !IsSeparator(x)
    requires FormatEntity(x, core, c, pf).Ok?
    ensures var r := FormatChildren([x, sep], Start, core, c, pf);
      r.Ok? && r.value.sb == FormatEntity(x, core, c, pf).value.text
  {
    var ox, os := FormatEntity(x, core, c, pf).value, FormatEntity(sep, core, c, pf).value;
    var a1 := Step(Start, x, ox, c.listSeparator);
    assert [x, sep][1..] == [sep] && [sep][1..] == [];
    assert FormatChildren([sep], a1, core, c, pf) == Ok(Step(a1, sep, os, c.listSeparator));
    assert FormatChildren([x, sep], Start, core, c, pf) == FormatChildren([sep], a1, core, c, pf);
  }

  /** A unit letter (`d`, `hh`, `%m`, ...) renders its component so that reading the text back
      as an integer gives the component, padded to at least the run's length. */
  lemma IntegerLeafReadsBack(t: Token, u: Unit, core: TimeSpan2, c: Culture, pf: Platform)
    requires WellFormed(t) && t.name == Component(UnitLetter(u))
    requires 0 <= UnitValue(core, u) <= MaxInt32
    ensures FormatLeaf(t, core, c, pf).Ok?
    ensures ParseInt32(FormatLeaf(t, core, c, pf).value.text) == Some(UnitValue(core, u))
    ensures t.text[0] == '%' || |t.text| == 1 ==>
      FormatLeaf(t, core, c, pf).value.text == DecimalText(UnitValue(core, u))
    ensures t.text[0] != '%' && |t.text| >= 2 ==>
      IsPadded(FormatLeaf(t, core, c, pf).value.text, DecimalText(UnitValue(core, u)), |t.text|)
  {
    var v := UnitValue(core, u);
    assert GetValueForGroup(core, GroupName(t.name), pf) == Ok(Integral(v));
    assert t.text[0] == '%' || |t.text| == 1 || !IsDigit(t.text[1]) by {
      if |t.text| >= 2 && t.text[0] != '%' {
        assert t.text[1] == UnitLetter(u);
      }
    }
    var r := GetStringValue(Integral(v), t, core, c, pf);
    NumericLeaf(t, core, c, pf, Integral(v), r.value);
  }

  /** A digit run's first n digits are worth its value divided by ten to the digits cut off. */
  lemma PrefixValue(s: string, n: nat)
    requires AllDigits(s) && n <= |s|
    ensures AllDigits(s[..n]) && DigitsValue(s[..n]) == DigitsValue(s) / Pow10(|s| - n)
  {
    assert s == s[..n] + s[n..];
    DigitsValueAppend(s[..n], s[n..]);
    DigitsValueBound(s[n..]);
    DivUnique(DigitsValue(s), Pow10(|s| - n), DigitsValue(s[..n]), DigitsValue(s[n..]));
  }

  /** The seven digits of the sub-second part of a non-negative duration. */
  lemma SevenDigitsValue(r: int, c: Culture)
    requires 0 <= r < TicksPerSecond && |c.decimalSeparator| == 1
    ensures var text := SevenDigits(r, false, c);
      |text| == 9 && AllDigits(text[2..]) && DigitsValue(text[2..]) == r
  {
    assert Pow10(7) == TicksPerSecond;
    DecimalTextLength(r, 7);
    var d := DecimalText(r);
    ZerosValue(7 - |d|, d);
    DecimalTextValue(r);
    assert SevenDigits(r, false, c)[2..] == ZeroPad(d, 7);
  }

  /** The text of a fraction leaf for a non-negative duration below 2^53 ticks: the first n
      of the seven fixed-point digits (n letters, one for `%f`), trimmed for `F`. */
  lemma FractionLeafText(t: Token, core: TimeSpan2, c: Culture, pf: Platform)
    requires WellFormed(t) && t.name.Fraction?
    requires 0 <= core.ticks < TwoTo53 && |c.decimalSeparator| == 1
    ensures var n := if t.text[0] == '%' then 1 else |t.text|;
      FormatLeaf(t, core, c, pf)
      == Ok(Out(FractionDigits(core.ticks % TicksPerSecond, n, t.name.c == 'F', c), core.ticks % TicksPerSecond != 0))
  {
    var rem := Rem(core.ticks, TicksPerSecond);
    var v := SubSecond(rem, false);
    assert RoundToDouble(core.ticks) == core.ticks;
    SubSecondValue(core, t.name.c, pf);
    assert GroupName(t.name) == [t.name.c];
    FractionTextOf(v, t, core, c, pf);
    assert t.text[0] == '%' ==> |t.text| == 2;
    var n := if t.text[0] == '%' then 1 else |t.text|;
    NumericLeaf(t, core, c, pf, v, FractionDigits(rem, n, t.name.c == 'F', c));
  }

  /** The text of an `f`/`F` leaf of n letters (one for `%f`) for a non-negative sub-second
      tick count `r`: the first n of its seven fixed-point digits, trimmed of trailing zeros
      for `F`. */
  function FractionDigits(r: int, n: nat, trim: bool, c: Culture): string
    requires 0 <= r < TicksPerSecond && 1 <= n <= 7 && |c.decimalSeparator| == 1
  {
    SevenDigitsValue(r, c);
    var digits := SevenDigits(r, false, c)[2..2 + n];
    if trim then TrimEndZeros(digits) else digits
  }

  /** `GetStringValue` of a non-negative sub-second value for an `f`/`F` leaf. */
  lemma FractionTextOf(v: Num, t: Token, core: TimeSpan2, c: Culture, pf: Platform)
    requires WellFormed(t) && t.name.Fraction? && v.SubSecond? && !v.negative
    requires 0 <= v.r < TicksPerSecond && |c.decimalSeparator| == 1
    ensures var n := if t.text[0] == '%' then 1 else |t.text|;
      GetStringValue(v, t, core, c, pf) == Ok(FractionDigits(v.r, n, t.name.c == 'F', c))
  {
    FractionSubText(v, t, c);
  }

  /** The same, stated on the `f`/`F` branch of `GetStringValue`. */
  lemma FractionSubText(v: Num, t: Token, c: Culture)
    requires WellFormed(t) && t.name.Fraction? && v.SubSecond? && !v.negative
    requires 0 <= v.r < TicksPerSecond && |c.decimalSeparator| == 1
    ensures var n := if t.text[0] == '%' then 1 else |t.text|;
      SubSecondText(v, t, c) == Ok(FractionDigits(v.r, n, t.name.c == 'F', c))
  {
    SevenDigitsValue(v.r, c);
    assert t.text[0] == '%' ==> |t.text| == 2;
    assert GroupName(t.name) == "F" <==> t.name.c == 'F' by {
      assert GroupName(t.name) == [t.name.c];
      assert GroupName(t.name) == "F" ==> GroupName(t.name)[0] == 'F';
    }
  }

  lemma SubSecondValue(core: TimeSpan2, ch: char, pf: Platform)
    requires ch == 'f' || ch == 'F'
    ensures GetValueForGroup(core, [ch], pf)
            == Ok(SubSecond(Rem(RoundToDouble(core.ticks), TicksPerSecond), core.ticks < 0))
  {
  }

  /** A numeric leaf renders the text `GetStringValue` gives for its group's value. */
  lemma NumericLeaf(t: Token, core: TimeSpan2, c: Culture, pf: Platform, v: Num, text: string)
    requires IsNumeric(t.name) && !t.name.Precision?
    requires GetValueForGroup(core, GroupName(t.name), pf) == Ok(v)
    requires GetStringValue(v, t, core, c, pf) == Ok(text)
    ensures FormatLeaf(t, core, c, pf) == Ok(Out(text, !v.IsZero()))
  {
  }

  /** The text of an `f` leaf of n letters is n decimal digits worth the sub-second tick
      count `r` divided by 10^(7-n): the first n decimals of the fraction of a second. */
  lemma FractionDigitsValue(r: int, n: nat, c: Culture)
    requires 0 <= r < TicksPerSecond && 1 <= n <= 7 && |c.decimalSeparator| == 1
    ensures var d := FractionDigits(r, n, false, c);
      |d| == n && AllDigits(d) && DigitsValue(d) == r / Pow10(7 - n)
  {
    var seven := SevenDigits(r, false, c)[2..];
    SevenDigitsValue(r, c);
    PrefixValue(seven, n);
    assert SevenDigits(r, false, c)[2..2 + n] == seven[..n];
  }

  /** The text of an `F` leaf is the same digits without their trailing zeros: they keep
      their worth, scaled by the zeros dropped. */
  lemma TrimmedFractionValue(r: int, n: nat, c: Culture)
    requires 0 <= r < TicksPerSecond && 1 <= n <= 7 && |c.decimalSeparator| == 1
    ensures var e := FractionDigits(r, n, true, c);
      |e| <= n && AllDigits(e) && DigitsValue(e) * Pow10(n - |e|) == r / Pow10(7 - n)
  {
    var d := FractionDigits(r, n, false, c);
    FractionDigitsValue(r, n, c);
    assert FractionDigits(r, n, true, c) == TrimEndZeros(d);
    TrimEndZerosValue(d);
  }

  /** The fraction of a negative duration comes out shifted by one place: the fixed-point
      text then begins with the negative sign, so the digits taken from offset 2 start with
      the decimal separator (half a second before zero, `ff`, renders `.5`). */
  lemma NegativeFractionShifted(c: Culture, pf: Platform)
    requires c.negativeSign == "-" && c.decimalSeparator == "."
    ensures FormatLeaf(Token(Fraction('f'), "ff", 0), TimeSpan2(-5_000_000), c, pf) == Ok(Out(".5", true))
  {
    var core := TimeSpan2(-5_000_000);
    var t := Token(Fraction('f'), "ff", 0);
    assert GroupName(t.name) == ['f'];
    assert RoundToDouble(core.ticks) == -5_000_000;
    assert Rem(-5_000_000, TicksPerSecond) == -5_000_000;
    SubSecondValue(core, 'f', pf);
    NegativeSevenDigits(core, c, pf);
    NumericLeaf(t, core, c, pf, SubSecond(-5_000_000, true), ".5");
  }

  /** A negative duration printed through `-hh`: the sign leaf prints the negative sign and the
      hour run prints the signed hour component, so minus five hours comes out as `--05`. */
  lemma NegativeHoursDoubleSign(c: Culture, pf: Platform)
    requires c.negativeSign == "-"
    ensures FormatChildren([Leaf(Token(Negative, "-", 0)), Leaf(Token(Component('h'), "hh", 1))], Start,
                           TimeSpan2(-5 * TicksPerHour), c, pf)
         == Ok(Acc("--05", true, false, false))
  {
    var core := TimeSpan2(-5 * TicksPerHour);
    var sign, hours := Token(Negative, "-", 0), Token(Component('h'), "hh", 1);
    MinusFiveHours(core);
    assert GroupName(hours.name) == "h";
    RunLeafText(-5, hours, core, c, pf);
    MinusFivePadded();
    NumericLeaf(hours, core, c, pf, Integral(-5), "-05");
    TwoLeaves(sign, hours, core, c, pf, Out("-", false), Out("-05", true));
    assert "-" + "-05" == "--05";
  }

  lemma MinusFivePadded()
    ensures PaddedText(-5, 2, "-") == "-05"
  {
    assert DecimalText(5) == "5";
    assert Zeros(1) == "0";
  }

  /** Two leaves that are not separators print one after the other. */
  lemma TwoLeaves(a: Token, b: Token, core: TimeSpan2, c: Culture, pf: Platform, oa: Out, ob: Out)
    requires FormatLeaf(a, core, c, pf) == Ok(oa) && FormatLeaf(b, core, c, pf) == Ok(ob)
    requires a.name != ListSep && a.name != WordSep && b.name != ListSep && b.name != WordSep
    ensures FormatChildren([Leaf(a), Leaf(b)], Start, core, c, pf)
         == Ok(Acc(oa.text + ob.text, oa.found || ob.found, false, false))
  {
    var a1 := Step(Start, Leaf(a), oa, c.listSeparator);
    assert a1 == Acc(oa.text, oa.found, false, false);
    assert [Leaf(a), Leaf(b)][1..] == [Leaf(b)] && [Leaf(b)][1..] == [];
    assert FormatChildren([Leaf(b)], a1, core, c, pf) == FormatChildren([], Step(a1, Leaf(b), ob, c.listSeparator), core, c, pf);
  }

  lemma MinusFiveHours(core: TimeSpan2)
    requires core.ticks == -5 * TicksPerHour
    ensures core.Hours() == -5
  {
    assert Quot(core.ticks, TicksPerHour) == -5 && Rem(-5, 24) == -5;
  }

  /** A run of two or more letters prints an integral value within the plain range zero-filled
      to the run's length, after the sign. */
  lemma RunLeafText(v: int, t: Token, core: TimeSpan2, c: Culture, pf: Platform)
    requires GroupName(t.name) != "f" && GroupName(t.name) != "F"
    requires |t.text| >= 2 && t.text[0] != '%' && !IsDigit(t.text[1]) && -PlainLimit < v < PlainLimit
    ensures GetStringValue(Integral(v), t, core, c, pf) == Ok(PaddedText(v, |t.text|, c.negativeSign))
  {
  }

  lemma NegativeSevenDigits(core: TimeSpan2, c: Culture, pf: Platform)
    requires c.negativeSign == "-" && c.decimalSeparator == "."
    ensures GetStringValue(SubSecond(-5_000_000, true), Token(Fraction('f'), "ff", 0), core, c, pf) == Ok(".5")
  {
    var text := SevenDigits(-5_000_000, true, c);
    assert text == "-0.5000000" by {
      FiveMillionText();
    }
    assert text[2..4] == ".5";
  }

  lemma FiveMillionText()
    ensures DecimalText(5_000_000) == "5000000"
  {
    assert DecimalText(5) == "5";
    assert DecimalText(50) == "50";
    assert DecimalText(500) == "500";
    assert DecimalText(5_000) == "5000";
    assert DecimalText(50_000) == "50000";
    assert DecimalText(500_000) == "500000";
  }
}
