/** The .NET string and number primitives the duration engine leans on:
    white space and `Trim`, decimal digits and `int.Parse`, `Split`/`Join`,
    `IndexOf`, `StringBuilder.Replace` and ASCII case mapping. */
module Strings {
  import opened Wrappers

  /** `char.IsWhiteSpace` and the regex class `\s`, restricted to the ASCII and Latin-1 white space. */
  predicate IsWhite(c: char) {
    c == ' ' || c == '\t' || c == '\n' || c == '\r' || c == '\U{000B}' || c == '\U{000C}'
    || c == '\U{0085}' || c == '\U{00A0}'
  }

  predicate AllWhite(s: string) {
    forall i :: 0 <= i < |s| ==> IsWhite(s[i])
  }

  /** Length of the white-space run that starts `s`. */
  function WhitePrefix(s: string): (n: nat)
    ensures n <= |s|
    ensures forall k :: 0 <= k < n ==> IsWhite(s[k])
    ensures n < |s| ==> !IsWhite(s[n])
  {
    if s != [] && IsWhite(s[0]) then 1 + WhitePrefix(s[1..]) else 0
  }

  /** Length of the white-space run that ends `s`. */
  function WhiteSuffix(s: string): (n: nat)
    ensures n <= |s|
    ensures forall k :: |s| - n <= k < |s| ==> IsWhite(s[k])
    ensures n < |s| ==> !IsWhite(s[|s| - n - 1])
  {
    if s != [] && IsWhite(s[|s| - 1]) then 1 + WhiteSuffix(s[..|s| - 1]) else 0
  }

  /** `string.Trim()`: the input with leading and trailing white space removed. */
  function Trim(s: string): (r: string)
    ensures exists a, b :: 0 <= a <= b <= |s| && r == s[a..b] && AllWhite(s[..a]) && AllWhite(s[b..])
    ensures r != [] ==> !IsWhite(r[0]) && !IsWhite(r[|r| - 1])
  {
    var a := WhitePrefix(s);
    var n := WhiteSuffix(s[a..]);
    var b := |s| - n;
    assert AllWhite(s[b..]) by {
      forall k | 0 <= k < n
        ensures IsWhite(s[b..][k])
      {
        assert s[b..][k] == s[a..][|s| - a - n + k];
      }
    }
    s[a..b]
  }

  // ----- decimal digits -----

  predicate IsDigit(c: char) { '0' <= c <= '9' }

  predicate AllDigits(s: string) {
    forall i :: 0 <= i < |s| ==> IsDigit(s[i])
  }

  function DigitValue(c: char): nat
    requires IsDigit(c)
  {
    (c as int - '0' as int) as nat
  }

  function DigitChar(d: nat): (c: char)
    requires d < 10
    ensures IsDigit(c) && DigitValue(c) == d
  {
    ('0' as int + d) as char
  }

  function Pow10(k: nat): (r: nat)
    ensures r >= 1
  {
    if k == 0 then 1 else 10 * Pow10(k - 1)
  }

  /** The value of a run of decimal digits, most significant first. */
  function DigitsValue(s: string): nat
    requires AllDigits(s)
  {
    if s == [] then 0 else DigitsValue(s[..|s| - 1]) * 10 + DigitValue(s[|s| - 1])
  }

  /** `TrimEnd('0')`: the text without its trailing zeros. */
  function TrimEndZeros(s: string): (r: string)
    ensures |r| <= |s| && r == s[..|r|]
    ensures r != [] ==> r[|r| - 1] != '0'
    ensures forall k :: |r| <= k < |s| ==> s[k] == '0'
  {
    if s == [] || s[|s| - 1] != '0' then s else TrimEndZeros(s[..|s| - 1])
  }

  /** Plain decimal text of a natural number (no leading zeros). */
  function DecimalText(n: nat): (r: string)
    ensures 1 <= |r| && AllDigits(r)
    ensures n < 10 <==> |r| == 1
    ensures r[0] == '0' <==> n == 0
  {
    if n < 10 then [DigitChar(n)] else DecimalText(n / 10) + [DigitChar(n % 10)]
  }

  /** Reading back the digits of `DecimalText` gives the number. */
  lemma {:induction false} DecimalTextValue(n: nat)
    ensures DigitsValue(DecimalText(n)) == n
  {
    if n >= 10 {
      var r := DecimalText(n);
      assert r[..|r| - 1] == DecimalText(n / 10);
      DecimalTextValue(n / 10);
    }
  }

  /** `DecimalText(n)` has at most `k` digits exactly when `n < 10^k`. */
  lemma {:induction false} DecimalTextLength(n: nat, k: nat)
    requires k >= 1
    ensures |DecimalText(n)| <= k <==> n < Pow10(k)
  {
    Pow10AtLeastTen(k);
    if n >= 10 {
      if k == 1 {
        assert |DecimalText(n)| == |DecimalText(n / 10)| + 1;
      } else {
        DecimalTextLength(n / 10, k - 1);
        assert n < Pow10(k) <==> n / 10 < Pow10(k - 1);
      }
    }
  }

  lemma Pow10AtLeastTen(k: nat)
    requires k > 0
    ensures Pow10(k) >= 10
  {
  }

  function Zeros(k: nat): (r: string)
    ensures |r| == k && AllDigits(r)
    ensures forall i :: 0 <= i < k ==> r[i] == '0'
  {
    seq(k, _ => '0')
  }

  /** Leading zeros do not change the value of a digit run. */
  lemma {:induction false} ZerosValue(k: nat, s: string)
    requires AllDigits(s)
    ensures AllDigits(Zeros(k) + s) && DigitsValue(Zeros(k) + s) == DigitsValue(s)
    decreases |s|
  {
    var z := Zeros(k) + s;
    if s == [] {
      assert z == Zeros(k);
      ZerosOnlyValue(k);
    } else {
      assert z[..|z| - 1] == Zeros(k) + s[..|s| - 1];
      ZerosValue(k, s[..|s| - 1]);
    }
  }

  lemma {:induction false} Pow10Add(a: nat, b: nat)
    ensures Pow10(a) * Pow10(b) == Pow10(a + b)
    decreases a
  {
    if a > 0 {
      Pow10Add(a - 1, b);
      assert Pow10(a) * Pow10(b) == 10 * (Pow10(a - 1) * Pow10(b));
    }
  }

  /** Digits scaled up to a fixed number of places stay below 10 to those places. */
  lemma ScaledDigitsBound(s: string, places: nat)
    requires AllDigits(s) && |s| <= places
    ensures DigitsValue(s) * Pow10(places - |s|) < Pow10(places)
  {
    DigitsValueBound(s);
    Pow10Add(|s|, places - |s|);
    MulStrict(DigitsValue(s), Pow10(|s|), Pow10(places - |s|));
  }

  lemma MulStrict(v: nat, p: nat, k: nat)
    requires v < p && k >= 1
    ensures v * k < p * k
  {
  }

  /** A digit run of length n is below 10^n. */
  lemma {:induction false} DigitsValueBound(s: string)
    requires AllDigits(s)
    ensures DigitsValue(s) < Pow10(|s|)
  {
    if s != [] {
      DigitsValueBound(s[..|s| - 1]);
    }
  }

  lemma ScaleByTen(v: int, w: int, x: int, p: int, y: int, d: int)
    requires v == w * 10 + d && w == x * p + y
    ensures v == x * (10 * p) + (y * 10 + d)
  {
  }

  /** The value of two digit runs written one after the other. */
  lemma {:induction false} DigitsValueAppend(a: string, b: string)
    requires AllDigits(a) && AllDigits(b)
    ensures AllDigits(a + b) && DigitsValue(a + b) == DigitsValue(a) * Pow10(|b|) + DigitsValue(b)
    decreases |b|
  {
    if b == [] {
      assert a + b == a;
    } else {
      var ab, b' := a + b, b[..|b| - 1];
      assert ab[..|ab| - 1] == a + b' && ab[|ab| - 1] == b[|b| - 1];
      DigitsValueAppend(a, b');
      ScaleByTen(DigitsValue(ab), DigitsValue(a + b'), DigitsValue(a), Pow10(|b'|), DigitsValue(b'), DigitValue(b[|b| - 1]));
    }
  }

  /** Trailing zeros of a fraction's digits carry no value: the trimmed digits, scaled back
      by the zeros removed, are worth the original digits. */
  lemma TrimEndZerosValue(s: string)
    requires AllDigits(s)
    ensures AllDigits(TrimEndZeros(s))
    ensures DigitsValue(TrimEndZeros(s)) * Pow10(|s| - |TrimEndZeros(s)|) == DigitsValue(s)
  {
    var t := TrimEndZeros(s);
    var k := |s| - |t|;
    assert s == t + Zeros(k);
    DigitsValueAppend(t, Zeros(k));
    ZerosOnlyValue(k);
  }

  lemma {:induction false} ZerosOnlyValue(k: nat)
    ensures DigitsValue(Zeros(k)) == 0
  {
    if k > 0 {
      assert Zeros(k)[..k - 1] == Zeros(k - 1);
      ZerosOnlyValue(k - 1);
    }
  }

  /** The custom numeric format "00…0" (`width` zeros): at least `width` digits, zero-filled on the left. */
  function ZeroPad(s: string, width: nat): (r: string)
    ensures |r| == if |s| >= width then |s| else width
  {
    if |s| >= width then s else Zeros(width - |s|) + s
  }

  /** `text` is `digits` zero-filled on the left to `width` characters, or `digits` itself when
      they are already that long. */
  predicate IsPadded(text: string, digits: string, width: nat) {
    && |text| == (if |digits| >= width then |digits| else width)
    && text[|text| - |digits|..] == digits
    && forall i :: 0 <= i < |text| - |digits| ==> text[i] == '0'
  }

  /** `ZeroPad` keeps the digits at the right end and fills only with zeros. */
  lemma ZeroPadShape(s: string, width: nat)
    ensures IsPadded(ZeroPad(s, width), s, width)
  {
  }

  /** Integral value rendered as `double.ToString()` does below 10^15: sign, then plain digits. */
  function NumberText(v: int, negativeSign: string): string {
    if v < 0 then negativeSign + DecimalText(-v) else DecimalText(v)
  }

  /** Integral value rendered with the custom format "00…0": sign, then zero-padded digits. */
  function PaddedText(v: int, width: nat, negativeSign: string): string {
    (if v < 0 then negativeSign else "") + ZeroPad(DecimalText(if v < 0 then -v else v), width)
  }

  /** `int.Parse` applied to a `\d+` capture: ASCII digits only, at most `int.MaxValue`. */
  function ParseInt32(s: string): (r: Option<int>)
    ensures r.Some? ==> 0 <= r.value <= 0x7FFF_FFFF
  {
    if s != [] && AllDigits(s) && DigitsValue(s) <= 0x7FFF_FFFF then Some(DigitsValue(s)) else None
  }

  /** `int.Parse` on text meant to be digits: FormatException unless it is a digit run,
      OverflowException past `int.MaxValue`. */
  function ParseIntText(s: string): (r: Result<int>)
    ensures r.Ok? <==> ParseInt32(s).Some?
    ensures r.Ok? ==> r.value == ParseInt32(s).value
    ensures r.Err? ==> r.error == (if s != [] && AllDigits(s) then OverflowException else FormatException)
  {
    if s != [] && AllDigits(s) then
      if DigitsValue(s) <= 0x7FFF_FFFF then Ok(DigitsValue(s)) else Err(OverflowException)
    else Err(FormatException)
  }

  /** A zero-padded rendering of a value reads back as that value. */
  lemma PaddedTextParses(v: nat, width: nat, negativeSign: string)
    requires v <= 0x7FFF_FFFF
    ensures ParseInt32(PaddedText(v, width, negativeSign)) == Some(v)
    ensures ParseInt32(NumberText(v, negativeSign)) == Some(v)
  {
    var d := DecimalText(v);
    DecimalTextValue(v);
    assert PaddedText(v, width, negativeSign) == ZeroPad(d, width);
    assert NumberText(v, negativeSign) == d;
    if |d| < width {
      ZerosValue(width - |d|, d);
    }
  }

  // ----- Split / Join -----

  /** First index of `c` in `s`, or `|s|` when there is none. */
  function CharIndex(s: string, c: char): (i: nat)
    ensures i <= |s| && c !in s[..i]
    ensures i < |s| ==> s[i] == c
  {
    if s == [] then 0
    else if s[0] == c then 0
    else
      var i := 1 + CharIndex(s[1..], c);
      assert s[..i] == [s[0]] + s[1..][..i - 1];
      i
  }

  /** `string.Split(char)`: the pieces between separators, empty pieces kept. */
  function Split(s: string, sep: char): (r: seq<string>)
    ensures |r| >= 1
    ensures forall k :: 0 <= k < |r| ==> sep !in r[k]
    decreases |s|
  {
    var i := CharIndex(s, sep);
    if i == |s| then [s] else [s[..i]] + Split(s[i + 1..], sep)
  }

  /** `string.Join(sep, parts)`. */
  function Join(sep: string, parts: seq<string>): string {
    if |parts| == 0 then ""
    else if |parts| == 1 then parts[0]
    else parts[0] + sep + Join(sep, parts[1..])
  }

  /** Joining the pieces of a split with the separator gives back the string. */
  lemma {:induction false} JoinSplit(s: string, sep: char)
    ensures Join([sep], Split(s, sep)) == s
    decreases |s|
  {
    var i := CharIndex(s, sep);
    if i < |s| {
      var rest := Split(s[i + 1..], sep);
      assert Split(s, sep) == [s[..i]] + rest;
      JoinCons([sep], s[..i], rest);
      JoinSplit(s[i + 1..], sep);
      assert s == s[..i] + [sep] + s[i + 1..];
    }
  }

  /** Joining a piece in front of at least one more puts the separator after it. */
  lemma JoinCons(sep: string, a: string, rest: seq<string>)
    requires |rest| >= 1
    ensures Join(sep, [a] + rest) == a + sep + Join(sep, rest)
  {
    assert ([a] + rest)[0] == a && ([a] + rest)[1..] == rest;
  }

  /** A character absent from a string is absent from each of its pieces. */
  lemma {:induction false} SplitPiecesLack(s: string, sep: char, c: char)
    requires c !in s
    ensures forall k :: 0 <= k < |Split(s, sep)| ==> c !in Split(s, sep)[k]
    decreases |s|
  {
    var i := CharIndex(s, sep);
    if i < |s| {
      assert forall x :: x in s[..i] ==> x in s;
      assert forall x :: x in s[i + 1..] ==> x in s;
      SplitPiecesLack(s[i + 1..], sep, c);
    }
  }

  /** The separator first occurs right after a piece that does not hold it. */
  lemma {:induction false} CharIndexAfterPiece(a: string, b: string, sep: char)
    requires sep !in a
    ensures CharIndex(a, sep) == |a|
    ensures CharIndex(a + [sep] + b, sep) == |a|
    decreases |a|
  {
    if a != [] {
      assert (a + [sep] + b)[1..] == a[1..] + [sep] + b;
      CharIndexAfterPiece(a[1..], b, sep);
    }
  }

  /** Splitting a join at its separator gives back the pieces, when no piece holds it. */
  lemma {:induction false} SplitJoin(parts: seq<string>, sep: char)
    requires |parts| >= 1 && forall k :: 0 <= k < |parts| ==> sep !in parts[k]
    ensures Split(Join([sep], parts), sep) == parts
    decreases |parts|
  {
    if |parts| == 1 {
      CharIndexAfterPiece(parts[0], [], sep);
    } else {
      var rest := Join([sep], parts[1..]);
      var j := Join([sep], parts);
      assert parts == [parts[0]] + parts[1..];
      JoinCons([sep], parts[0], parts[1..]);
      assert j == parts[0] + [sep] + rest;
      CharIndexAfterPiece(parts[0], rest, sep);
      assert j[..|parts[0]|] == parts[0];
      assert j[|parts[0]| + 1..] == rest;
      SplitJoin(parts[1..], sep);
    }
  }

  // ----- searching and replacing -----

  predicate OccursAt(s: string, sub: string, i: nat) {
    i + |sub| <= |s| && s[i..i + |sub|] == sub
  }

  predicate Contains(s: string, sub: string) {
    exists i: nat | i <= |s| :: OccursAt(s, sub, i)
  }

  /** `string.IndexOf(string)` (ordinal): the first occurrence, or -1; the empty string occurs at 0. */
  function IndexOf(s: string, sub: string): (r: int)
    ensures -1 <= r <= |s|
    ensures r >= 0 ==> OccursAt(s, sub, r) && forall j: nat :: j < r ==> !OccursAt(s, sub, j)
    ensures r == -1 <==> !Contains(s, sub)
    decreases |s|
  {
    if OccursAt(s, sub, 0) then 0
    else if |s| <= |sub| then
      assert forall j: nat :: !OccursAt(s, sub, j) by {
        forall j: nat ensures !OccursAt(s, sub, j) {
          if j > 0 {
            assert j + |sub| > |s|;
          }
        }
      }
      -1
    else
      var r := IndexOf(s[1..], sub);
      ShiftOccurrence(s, sub);
      assert Contains(s, sub) <==> Contains(s[1..], sub) by {
        if Contains(s, sub) {
          var i: nat :| i <= |s| && OccursAt(s, sub, i);
          assert i > 0 && OccursAt(s[1..], sub, i - 1);
        }
      }
      if r == -1 then -1 else
        assert forall j: nat :: j < r + 1 ==> !OccursAt(s, sub, j) by {
          forall j: nat | j < r + 1 ensures !OccursAt(s, sub, j) {
            if j > 0 {
              assert !OccursAt(s[1..], sub, j - 1);
            }
          }
        }
        r + 1
  }

  lemma ShiftOccurrence(s: string, sub: string)
    requires s != []
    ensures forall j: nat :: OccursAt(s[1..], sub, j) <==> OccursAt(s, sub, j + 1)
  {
    forall j: nat ensures OccursAt(s[1..], sub, j) <==> OccursAt(s, sub, j + 1) {
      if j + 1 + |sub| <= |s| {
        assert s[1..][j..j + |sub|] == s[j + 1..j + 1 + |sub|];
      }
    }
    assert forall j: nat :: OccursAt(s[1..], sub, j) ==> Contains(s, sub) by {
      forall j: nat | OccursAt(s[1..], sub, j) ensures Contains(s, sub) {
        assert OccursAt(s, sub, j + 1);
      }
    }
  }

  /** `StringBuilder.Replace(pat, rep)`: every occurrence of `pat`, scanning left to right
      without overlaps, becomes `rep`. */
  function Replace(s: string, pat: string, rep: string): string
    requires pat != []
    decreases |s|
  {
    if |s| < |pat| then s
    else if s[..|pat|] == pat then rep + Replace(s[|pat|..], pat, rep)
    else [s[0]] + Replace(s[1..], pat, rep)
  }

  /** Replacing a string that does not occur changes nothing. */
  lemma {:induction false} ReplaceAbsent(s: string, pat: string, rep: string)
    requires pat != [] && !Contains(s, pat)
    ensures Replace(s, pat, rep) == s
    decreases |s|
  {
    if |s| >= |pat| {
      assert !OccursAt(s, pat, 0);
      ShiftOccurrence(s, pat);
      assert !Contains(s[1..], pat);
      ReplaceAbsent(s[1..], pat, rep);
    }
  }

  /** The first occurrence `IndexOf` finds is the first one replaced: everything before it is
      kept, it becomes `rep`, and the search goes on after it. */
  lemma ReplaceAtFirst(s: string, pat: string, rep: string)
    requires pat != [] && Contains(s, pat)
    ensures var i := IndexOf(s, pat);
      Replace(s, pat, rep) == s[..i] + rep + Replace(s[i + |pat|..], pat, rep)
  {
    var i := IndexOf(s, pat);
    assert OccursAt(s, pat, i);
    IndexOfNoMatchBefore(s, pat);
    ReplaceFirstAt(s, pat, rep, i);
    assert ReplacedAt(s, pat, rep, i);
  }

  /** No occurrence starts before `i`, stated one character at a time. */
  predicate NoMatchBefore(s: string, pat: string, i: nat)
    decreases i
  {
    i == 0 || (|s| > 0 && !OccursAt(s, pat, 0) && NoMatchBefore(s[1..], pat, i - 1))
  }

  lemma {:induction false} IndexOfNoMatchBefore(s: string, pat: string)
    requires pat != [] && Contains(s, pat)
    ensures NoMatchBefore(s, pat, IndexOf(s, pat))
    decreases |s|
  {
    if IndexOf(s, pat) != 0 {
      IndexOfStep(s, pat);
      IndexOfNoMatchBefore(s[1..], pat);
    }
  }

  /** `Replace` keeps `s[..i]`, puts `rep` for the occurrence at `i`, and goes on after it. */
  predicate ReplacedAt(s: string, pat: string, rep: string, i: nat)
    requires pat != []
  {
    i + |pat| <= |s| && Replace(s, pat, rep) == s[..i] + rep + Replace(s[i + |pat|..], pat, rep)
  }

  lemma {:induction false} ReplaceFirstAt(s: string, pat: string, rep: string, i: nat)
    requires pat != [] && OccursAt(s, pat, i) && NoMatchBefore(s, pat, i)
    ensures ReplacedAt(s, pat, rep, i)
    decreases i
  {
    if i == 0 {
      ReplaceAtZero(s, pat, rep);
    } else {
      assert !OccursAt(s, pat, 0) && NoMatchBefore(s[1..], pat, i - 1);
      assert s[1..][i - 1..i - 1 + |pat|] == s[i..i + |pat|];
      ReplaceFirstAt(s[1..], pat, rep, i - 1);
      ReplaceCons(s, pat, rep, i);
    }
  }

  /** One character that starts no match is kept in front of the rest's replacement. */
  lemma ReplaceCons(s: string, pat: string, rep: string, i: nat)
    requires pat != [] && 0 < i && i + |pat| <= |s| && !OccursAt(s, pat, 0)
    requires ReplacedAt(s[1..], pat, rep, i - 1)
    ensures ReplacedAt(s, pat, rep, i)
  {
    var rest := Replace(s[i + |pat|..], pat, rep);
    assert s[1..][i - 1 + |pat|..] == s[i + |pat|..];
    assert Replace(s[1..], pat, rep) == s[1..][..i - 1] + rep + rest;
    assert s[..|pat|] == s[0..0 + |pat|];
    assert Replace(s, pat, rep) == [s[0]] + Replace(s[1..], pat, rep);
    ConsPrefix(s, i, rep, rest);
  }

  lemma ReplaceAtZero(s: string, pat: string, rep: string)
    requires pat != [] && OccursAt(s, pat, 0)
    ensures ReplacedAt(s, pat, rep, 0)
  {
    assert s[..|pat|] == pat;
    assert s[..0] + rep == rep;
  }

  lemma ConsPrefix(s: string, i: nat, a: string, b: string)
    requires 0 < i <= |s|
    ensures [s[0]] + (s[1..][..i - 1] + a + b) == s[..i] + a + b
  {
    assert [s[0]] + s[1..][..i - 1] == s[..i];
  }

  /** Past a front that does not match, the search moves one character on. */
  lemma IndexOfStep(s: string, pat: string)
    requires pat != [] && Contains(s, pat) && IndexOf(s, pat) != 0
    ensures |s| > |pat| && s[..|pat|] != pat
    ensures Contains(s[1..], pat) && IndexOf(s, pat) == IndexOf(s[1..], pat) + 1
  {
    assert !OccursAt(s, pat, 0);
  }

  // ----- ASCII case mapping -----

  function ToLowerChar(c: char): char {
    if 'A' <= c <= 'Z' then (c as int + 32) as char else c
  }

  function ToUpperChar(c: char): char {
    if 'a' <= c <= 'z' then (c as int - 32) as char else c
  }

  predicate IsUpper(c: char) { 'A' <= c <= 'Z' }

  function ToLower(s: string): (r: string)
    ensures |r| == |s| && forall i :: 0 <= i < |s| ==> r[i] == ToLowerChar(s[i])
  {
    seq(|s|, i requires 0 <= i < |s| => ToLowerChar(s[i]))
  }

  /** `string.Compare(a, b, ignoreCase) == 0`, with case folded on ASCII letters only. */
  predicate EqualsIgnoreCase(a: string, b: string) {
    ToLower(a) == ToLower(b)
  }
}
