/** The custom duration-pattern grammar, as a hand-written scanner.

    The grammar is `^\s*(?<n>-)?`, then a body of tokens, then `(?:;(?<z>[ A-Za-z0-9,:()]+))?\s*$`.
    Every body alternative sits in an atomic group and is chosen by its first characters,
    so the body is one greedy left-to-right run of tokens: a pattern is accepted exactly
    when that run stops with every `[` closed, at a point where only white space, or a
    `;zero-text` and white space, remain. Tokens carry the name of the regex group that
    captured them, the captured text and its offset; each balanced `[`...`]` yields a span
    from the `[` to just past the `]`, in the order the brackets close. */
module Patterns {
  import opened Wrappers
  import opened Strings
  import opened Cultures

  /** The regex group a capture belongs to. */
  datatype Name =
    | Quoted                 // q: text between single quotes
    | Escaped                // e: the character after a backslash
    | Negative               // n: the leading minus
    | ZeroText               // z: text after the final `;`
    | ListSep                // fs: `,`
    | WordSep                // ws: `_`
    | TimeSep                // ts: `:`
    | DecimalSep             // ds: `.`
    | Component(c: char)     // w r d h m s k t: a run of the letter, or `%` and the letter
    | Total(c: char)         // D H M S K: the letter and optional digits, or `%` and the letter
    | Precision              // p: `p` and optional digits
    | Fraction(c: char)      // f F: two to seven letters, or `%` and the letter
    | Verbose(u: Unit)       // vd vh vm vs vk vt: `@` and the unit's letter in either case

  /** The group name the source's grammar gives each kind of capture. */
  function GroupName(n: Name): string {
    match n
    case Quoted => "q"
    case Escaped => "e"
    case Negative => "n"
    case ZeroText => "z"
    case ListSep => "fs"
    case WordSep => "ws"
    case TimeSep => "ts"
    case DecimalSep => "ds"
    case Component(c) => [c]
    case Total(c) => [c]
    case Precision => "p"
    case Fraction(c) => [c]
    case Verbose(u) => ['v', UnitLetter(u)]
  }

  /** A named capture: its group, its value and its index in the pattern. */
  datatype Token = Token(name: Name, text: string, start: nat)
  {
    function End(): nat { start + |text| }

    /** The stretch of the pattern the token was read from: the quotes around a quoted
        text and the backslash before an escaped character belong to it. */
    function SourceStart(): int { if name == Quoted || name == Escaped then start - 1 else start }
    function SourceEnd(): nat { if name == Quoted then End() + 1 else End() }
  }

  /** A balanced optional group: the offset of `[` and the length through `]`. */
  datatype Span = Span(start: nat, length: nat)
  {
    function End(): nat { start + length }
  }

  /** The captures of an accepted pattern: tokens in pattern order, spans in closing order. */
  datatype Scanned = Scanned(tokens: seq<Token>, spans: seq<Span>)

  /** Unit letters: `d h m s k t`, the letters of the verbose words `@d` ... `@t`. */
  predicate IsUnitLetter(c: char) {
    c == 'd' || c == 'h' || c == 'm' || c == 's' || c == 'k' || c == 't'
  }

  /** Specifier letters that form runs (`dd`, `hhh`, ...). */
  predicate IsRunLetter(c: char) {
    IsUnitLetter(c) || c == 'w' || c == 'r'
  }

  /** Specifier letters that take a digit suffix (`D`, `H2`, ...). */
  predicate IsTotalLetter(c: char) {
    c == 'D' || c == 'H' || c == 'M' || c == 'S' || c == 'K'
  }

  /** Letters accepted after `%`. */
  predicate IsPercentLetter(c: char) {
    IsRunLetter(c) || IsTotalLetter(c) || c == 'f' || c == 'F'
  }

  /** Characters allowed in a `;zero-text` suffix. */
  predicate IsZeroChar(c: char) {
    c == ' ' || 'A' <= c <= 'Z' || 'a' <= c <= 'z' || '0' <= c <= '9' || c == ',' || c == ':' || c == '(' || c == ')'
  }

  /** Length of the run of `c` starting at `i`. */
  function RunOf(p: string, i: nat, c: char): (n: nat)
    requires i <= |p|
    ensures i + n <= |p|
    ensures forall k :: i <= k < i + n ==> p[k] == c
    ensures i + n < |p| ==> p[i + n] != c
    decreases |p| - i
  {
    if i < |p| && p[i] == c then 1 + RunOf(p, i + 1, c) else 0
  }

  /** Length of the run of decimal digits starting at `i`. */
  function DigitRun(p: string, i: nat): (n: nat)
    requires i <= |p|
    ensures i + n <= |p|
    ensures forall k :: i <= k < i + n ==> IsDigit(p[k])
    ensures i + n < |p| ==> !IsDigit(p[i + n])
    decreases |p| - i
  {
    if i < |p| && IsDigit(p[i]) then 1 + DigitRun(p, i + 1) else 0
  }

  /** Length of the run of zero-text characters starting at `i`. */
  function ZeroRun(p: string, i: nat): (n: nat)
    requires i <= |p|
    ensures i + n <= |p|
    ensures forall k :: i <= k < i + n ==> IsZeroChar(p[k])
    ensures i + n < |p| ==> !IsZeroChar(p[i + n])
    decreases |p| - i
  {
    if i < |p| && IsZeroChar(p[i]) then 1 + ZeroRun(p, i + 1) else 0
  }

  function Min(a: nat, b: nat): nat { if a <= b then a else b }

  /** The group of a `%x` specifier. */
  function PercentName(c: char): Name
    requires IsPercentLetter(c)
  {
    if IsRunLetter(c) then Component(c) else if IsTotalLetter(c) then Total(c) else Fraction(c)
  }

  /** A lexeme found at `i`: a token whose text is the slice of `p` it was captured from,
      inside the stretch it consumes, which ends at the returned offset; its text has the
      shape its alternative of the grammar allows. */
  predicate Fits(p: string, i: nat, r: Option<(Token, nat)>) {
    r.Some? ==>
      var (t, k) := r.value;
      && i < k <= |p| && i <= t.start < k && t.End() <= k
      && p[t.start..t.End()] == t.text
      && WellFormed(t) && t.name != ZeroText
      && t.SourceStart() == i && t.SourceEnd() == k
  }

  /** The body token that starts at `i` (other than a bracket), with the offset just past
      it, or `None` when no alternative of the grammar matches there. */
  function Lexeme(p: string, i: nat): (r: Option<(Token, nat)>)
    requires i < |p|
    ensures Fits(p, i, r)
  {
    var c := p[i];
    if c == '\'' then QuotedLexeme(p, i)
    else if c == '\\' then
      if i + 1 < |p| then Some((Token(Escaped, p[i + 1..i + 2], i + 1), i + 2)) else None
    else if c == '%' then PercentLexeme(p, i)
    else if IsRunLetter(c) then RunLexeme(p, i)
    else if IsTotalLetter(c) || c == 'p' then SuffixLexeme(p, i)
    else if c == '@' then VerboseLexeme(p, i)
    else if c == 'f' || c == 'F' then FractionLexeme(p, i)
    else if c == ',' || c == '_' || c == ':' || c == '.' then SymbolLexeme(p, i)
    else None
  }

  /** `,` `_` `:` `.`: the list, word, time and decimal separators. */
  function SymbolLexeme(p: string, i: nat): (r: Option<(Token, nat)>)
    requires i < |p| && (p[i] == ',' || p[i] == '_' || p[i] == ':' || p[i] == '.')
    ensures Fits(p, i, r) && r.Some?
  {
    var c := p[i];
    var name := if c == ',' then ListSep else if c == '_' then WordSep else if c == ':' then TimeSep else DecimalSep;
    assert p[i..i + 1] == [c];
    Some((Token(name, [c], i), i + 1))
  }

  /** `'text'`: everything up to the next quote, which must exist. */
  function QuotedLexeme(p: string, i: nat): (r: Option<(Token, nat)>)
    requires i < |p| && p[i] == '\''
    ensures Fits(p, i, r)
  {
    var k := CharIndex(p[i + 1..], '\'');
    if i + 1 + k == |p| then None
    else Some((Token(Quoted, p[i + 1..i + 1 + k], i + 1), i + 2 + k))
  }

  /** `%x`: one specifier letter on its own. */
  function PercentLexeme(p: string, i: nat): (r: Option<(Token, nat)>)
    requires i < |p| && p[i] == '%'
    ensures Fits(p, i, r)
  {
    if i + 1 < |p| && IsPercentLetter(p[i + 1]) then Some((Token(PercentName(p[i + 1]), p[i..i + 2], i), i + 2))
    else None
  }

  /** A run of one unit letter (`d`, `hh`, `ttt`, ...). */
  function RunLexeme(p: string, i: nat): (r: Option<(Token, nat)>)
    requires i < |p| && IsRunLetter(p[i])
    ensures Fits(p, i, r) && r.Some?
  {
    var n := RunOf(p, i, p[i]);
    Some((Token(Component(p[i]), p[i..i + n], i), i + n))
  }

  /** A total letter or `p`, then any digits. */
  function SuffixLexeme(p: string, i: nat): (r: Option<(Token, nat)>)
    requires i < |p| && (IsTotalLetter(p[i]) || p[i] == 'p')
    ensures Fits(p, i, r) && r.Some?
  {
    var n := 1 + DigitRun(p, i + 1);
    var digits := p[i..i + n][1..];
    assert AllDigits(digits) by {
      forall k | 0 <= k < |digits| ensures IsDigit(digits[k]) {
        assert digits[k] == p[i + 1 + k];
      }
    }
    Some((Token(if p[i] == 'p' then Precision else Total(p[i]), p[i..i + n], i), i + n))
  }

  /** `@x`: a unit word. */
  function VerboseLexeme(p: string, i: nat): (r: Option<(Token, nat)>)
    requires i < |p| && p[i] == '@'
    ensures Fits(p, i, r)
  {
    if i + 1 < |p| && IsUnitLetter(ToLowerChar(p[i + 1])) then
      Some((Token(Verbose(LetterUnit(ToLowerChar(p[i + 1])).value), p[i..i + 2], i), i + 2))
    else None
  }

  /** Two to seven `f` (or `F`); a longer run leaves the rest to the next token. */
  function FractionLexeme(p: string, i: nat): (r: Option<(Token, nat)>)
    requires i < |p| && (p[i] == 'f' || p[i] == 'F')
    ensures Fits(p, i, r)
  {
    var n := RunOf(p, i, p[i]);
    if n < 2 then None else Some((Token(Fraction(p[i]), p[i..i + Min(n, 7)], i), i + Min(n, 7)))
  }

  /** Where the body run stops, the `[` offsets still open there, and what it captured. */
  datatype BodyEnd = BodyEnd(end: nat, open: seq<nat>, scanned: Scanned)

  /** The greedy body run from `i`: `[` opens a group, `]` closes the innermost one (and
      stops the run when none is open), anything else must be a `Lexeme`. */
  function ScanBody(p: string, i: nat, open: seq<nat>, acc: Scanned): (r: BodyEnd)
    requires i <= |p| && forall k :: 0 <= k < |open| ==> open[k] < i
    ensures i <= r.end <= |p|
    decreases |p| - i
  {
    if i == |p| then BodyEnd(i, open, acc)
    else if p[i] == '[' then ScanBody(p, i + 1, open + [i], acc)
    else if p[i] == ']' then
      if open == [] then BodyEnd(i, open, acc)
      else
        var j := open[|open| - 1];
        ScanBody(p, i + 1, open[..|open| - 1], Scanned(acc.tokens, acc.spans + [Span(j, i + 1 - j)]))
    else
      match Lexeme(p, i)
      case None => BodyEnd(i, open, acc)
      case Some((t, k)) => ScanBody(p, k, open, Scanned(acc.tokens + [t], acc.spans))
  }

  /** Only white space from offset `i` to the end of the pattern. */
  predicate WhiteFrom(p: string, i: nat) {
    forall k :: i <= k < |p| ==> IsWhite(p[k])
  }

  /** The tail `(?:;(?<z>...))?\s*$` at offset `e`: `Some([])` for white space only,
      `Some([z])` for a zero-text suffix, `None` when the tail does not match. */
  function Post(p: string, e: nat): (r: Option<seq<Token>>)
    requires e <= |p|
  {
    if WhiteFrom(p, e) then Some([])
    else if p[e] == ';' then ZeroTail(p, e + 1)
    else None
  }

  /** What follows the `;`: at least one zero-text character, then only white space. */
  function ZeroTail(p: string, i: nat): Option<seq<Token>>
    requires i <= |p|
  {
    var n := ZeroRun(p, i);
    if n >= 1 && WhiteFrom(p, i + n) then Some([ZeroToken(p, i)])
    else None
  }

  /** The `z` capture: the run of zero-text characters from `i` on. */
  function ZeroToken(p: string, i: nat): Token
    requires i <= |p|
  {
    Token(ZeroText, p[i..i + ZeroRun(p, i)], i)
  }

  /** Offset where the body starts and the optional leading `n` (negative sign) token. */
  function Pre(p: string): (r: (nat, seq<Token>))
    ensures r.0 <= |p| && |r.1| <= 1
  {
    var a := WhitePrefix(p);
    if a < |p| && p[a] == '-' then (a + 1, [Token(Negative, "-", a)]) else (a, [])
  }

  /** The body run of a pattern, from its start. */
  function BodyOf(p: string): BodyEnd {
    var (i, pre) := Pre(p);
    ScanBody(p, i, [], Scanned(pre, []))
  }

  /** The whole-pattern match (`ValidateCustomPattern`'s regex): the captures when the
      pattern is accepted, `None` when it is not. */
  function Scan(p: string): (r: Option<Scanned>)
    ensures r.Some? ==>
      && Ordered(r.value.tokens)
      && (forall k :: 0 <= k < |r.value.tokens| ==> TokenBefore(p, |p|, r.value.tokens[k]))
      && (forall k :: 0 <= k < |r.value.spans| ==> SpanBefore(p, |p|, r.value.spans[k]))
  {
    var b := BodyOf(p);
    if b.open != [] then None
    else
      match Post(p, b.end)
      case None => None
      case Some(z) =>
        BodyOfInvariant(p);
        TailProperties(p, b, z);
        Some(Scanned(b.scanned.tokens + z, b.scanned.spans))
  }

  /** Offset of the last occurrence of `c`, if any. */
  function LastIndex(p: string, c: char): (r: Option<nat>)
    ensures r.Some? ==> r.value < |p| && p[r.value] == c && forall k :: r.value < k < |p| ==> p[k] != c
    ensures r.None? ==> forall k :: 0 <= k < |p| ==> p[k] != c
  {
    LastIndexBefore(p, c, |p|)
  }

  /** Offset of the last occurrence of `c` before offset `j`, if any. */
  function LastIndexBefore(p: string, c: char, j: nat): (r: Option<nat>)
    requires j <= |p|
    ensures r.Some? ==> r.value < j && p[r.value] == c && forall k :: r.value < k < j ==> p[k] != c
    ensures r.None? ==> forall k :: 0 <= k < j ==> p[k] != c
  {
    if j == 0 then None
    else if p[j - 1] == c then Some(j - 1)
    else LastIndexBefore(p, c, j - 1)
  }

  /** The unanchored search for the tail expression that `CustomFormat` runs on a zero
      duration before validating anything: it finds a zero text only after the last `;`. */
  function ZeroSuffix(p: string): Option<string> {
    match LastIndex(p, ';')
    case None => None
    case Some(i) =>
      var n := ZeroRun(p, i + 1);
      if n >= 1 && WhiteFrom(p, i + 1 + n) then Some(p[i + 1..i + 1 + n]) else None
  }

  /** What the quick zero check finds is a nonempty run of zero-text characters. */
  lemma ZeroSuffixShape(p: string)
    ensures var r := ZeroSuffix(p);
      r.Some? ==> r.value != [] && forall k :: 0 <= k < |r.value| ==> IsZeroChar(r.value[k])
  {
    match LastIndex(p, ';')
    case None =>
    case Some(i) =>
      var n := ZeroRun(p, i + 1);
      var r := p[i + 1..i + 1 + n];
      forall k | 0 <= k < |r| ensures IsZeroChar(r[k]) {
        assert r[k] == p[i + 1 + k];
      }
  }

  // ----- token shapes -----

  predicate AllChar(s: string, c: char) {
    forall k :: 0 <= k < |s| ==> s[k] == c
  }

  /** The text of each named capture has the shape its grammar alternative admits. */
  predicate WellFormed(t: Token) {
    var s := t.text;
    match t.name
    case Quoted => true
    case Escaped => |s| == 1
    case Negative => s == "-"
    case ZeroText => s != [] && forall k :: 0 <= k < |s| ==> IsZeroChar(s[k])
    case ListSep => s == ","
    case WordSep => s == "_"
    case TimeSep => s == ":"
    case DecimalSep => s == "."
    case Component(c) => IsRunLetter(c) && (s == ['%', c] || (|s| >= 1 && AllChar(s, c)))
    case Total(c) => IsTotalLetter(c) && (s == ['%', c] || (|s| >= 1 && s[0] == c && AllDigits(s[1..])))
    case Precision => |s| >= 1 && s[0] == 'p' && AllDigits(s[1..])
    case Fraction(c) => (c == 'f' || c == 'F') && (s == ['%', c] || (2 <= |s| <= 7 && AllChar(s, c)))
    case Verbose(u) => |s| == 2 && s[0] == '@' && ToLowerChar(s[1]) == UnitLetter(u)
  }

  /** Tokens in order: each starts after the previous one starts and no earlier than it ends. */
  predicate Ordered(ts: seq<Token>) {
    forall k :: 0 <= k < |ts| - 1 ==> ts[k].start < ts[k + 1].start && ts[k].End() <= ts[k + 1].start
  }

  /** A token captured before offset `i`, with its text taken from the pattern. */
  predicate TokenBefore(p: string, i: nat, t: Token) {
    t.start < i && t.End() <= i && i <= |p| && p[t.start..t.End()] == t.text && WellFormed(t)
  }

  /** A span closed before offset `i`, running from a `[` to a `]`. */
  predicate SpanBefore(p: string, i: nat, sp: Span) {
    sp.End() <= i && i <= |p| && sp.length >= 2 && p[sp.start] == '[' && p[sp.End() - 1] == ']'
  }

  /** What the body run keeps true up to offset `i`. */
  predicate BodyInvariant(p: string, i: nat, open: seq<nat>, acc: Scanned) {
    i <= |p|
    && Ordered(acc.tokens)
    && (forall k :: 0 <= k < |acc.tokens| ==> TokenBefore(p, i, acc.tokens[k]) && acc.tokens[k].name != ZeroText)
    && (forall k :: 0 <= k < |open| ==> open[k] < i && p[open[k]] == '[')
    && (forall k :: 0 <= k < |acc.spans| ==> SpanBefore(p, i, acc.spans[k]))
  }

  lemma PushStep(p: string, i: nat, open: seq<nat>, acc: Scanned)
    requires BodyInvariant(p, i, open, acc) && i < |p| && p[i] == '['
    ensures BodyInvariant(p, i + 1, open + [i], acc)
  {
  }

  lemma PopStep(p: string, i: nat, open: seq<nat>, acc: Scanned)
    requires BodyInvariant(p, i, open, acc) && i < |p| && p[i] == ']' && open != []
    ensures var j := open[|open| - 1];
      BodyInvariant(p, i + 1, open[..|open| - 1], Scanned(acc.tokens, acc.spans + [Span(j, i + 1 - j)]))
  {
  }

  lemma TokenStep(p: string, i: nat, open: seq<nat>, acc: Scanned)
    requires BodyInvariant(p, i, open, acc) && i < |p| && Lexeme(p, i).Some?
    ensures var (t, k) := Lexeme(p, i).value;
      BodyInvariant(p, k, open, Scanned(acc.tokens + [t], acc.spans))
  {
    var (t, k) := Lexeme(p, i).value;
    var ts := acc.tokens + [t];
    assert TokenBefore(p, k, t);
    assert forall m :: 0 <= m < |acc.tokens| ==> TokenBefore(p, k, acc.tokens[m]);
    assert Ordered(ts) by {
      if |acc.tokens| > 0 {
        assert TokenBefore(p, i, acc.tokens[|acc.tokens| - 1]);
      }
    }
  }

  lemma {:induction false} ScanBodyInvariant(p: string, i: nat, open: seq<nat>, acc: Scanned)
    requires BodyInvariant(p, i, open, acc)
    ensures var r := ScanBody(p, i, open, acc); BodyInvariant(p, r.end, r.open, r.scanned)
    decreases |p| - i
  {
    if i == |p| {
    } else if p[i] == '[' {
      PushStep(p, i, open, acc);
      ScanBodyInvariant(p, i + 1, open + [i], acc);
    } else if p[i] == ']' {
      if open != [] {
        var j := open[|open| - 1];
        PopStep(p, i, open, acc);
        ScanBodyInvariant(p, i + 1, open[..|open| - 1], Scanned(acc.tokens, acc.spans + [Span(j, i + 1 - j)]));
      }
    } else if Lexeme(p, i).Some? {
      var (t, k) := Lexeme(p, i).value;
      TokenStep(p, i, open, acc);
      ScanBodyInvariant(p, k, open, Scanned(acc.tokens + [t], acc.spans));
    }
  }

  /** The captures of an accepted pattern: tokens are ordered by offset, none overlap, each
      one's text is the slice of the pattern it was captured from (quotes and the escaping
      backslash excluded) and has its alternative's shape; every span runs from a `[` to its `]`. */
  lemma ScanProperties(p: string)
    requires Scan(p).Some?
    ensures var s := Scan(p).value;
      Ordered(s.tokens)
      && (forall k :: 0 <= k < |s.tokens| ==> TokenBefore(p, |p|, s.tokens[k]))
      && (forall k :: 0 <= k < |s.spans| ==> SpanBefore(p, |p|, s.spans[k]))
  {
    var b := BodyOf(p);
    BodyOfInvariant(p);
    ScanParts(p);
    TailProperties(p, b, Post(p, b.end).value);
  }

  /** The body run of a whole pattern ends in a state that satisfies its invariant. */
  lemma BodyOfInvariant(p: string)
    ensures var b := BodyOf(p); BodyInvariant(p, b.end, b.open, b.scanned)
  {
    var (i, pre) := Pre(p);
    PreInvariant(p);
    ScanBodyInvariant(p, i, [], Scanned(pre, []));
  }

  /** An accepted pattern's captures are the body's, then the tail's. */
  lemma ScanParts(p: string)
    requires Scan(p).Some?
    ensures var b := BodyOf(p);
      b.open == [] && Post(p, b.end).Some?
      && Scan(p).value == Scanned(b.scanned.tokens + Post(p, b.end).value, b.scanned.spans)
      && Scan(p).value.tokens == b.scanned.tokens + Post(p, b.end).value
  {
  }

  /** Adding the tail's capture to a body that keeps its invariant keeps the captures in
      order and taken from the pattern. */
  lemma TailProperties(p: string, b: BodyEnd, z: seq<Token>)
    requires BodyInvariant(p, b.end, b.open, b.scanned) && Post(p, b.end) == Some(z)
    ensures var ts := b.scanned.tokens + z;
      Ordered(ts)
      && (forall k :: 0 <= k < |ts| ==> TokenBefore(p, |p|, ts[k]))
      && (forall k :: 0 <= k < |b.scanned.spans| ==> SpanBefore(p, |p|, b.scanned.spans[k]))
  {
    if z != [] {
      PostZero(p, b.end);
      ZeroTailShape(p, b.end + 1);
      ZeroTokenBefore(p, b.end + 1);
      assert z == [ZeroToken(p, b.end + 1)];
      AppendZero(p, b.end, b.open, b.scanned, ZeroToken(p, b.end + 1));
    } else {
      assert b.scanned.tokens + z == b.scanned.tokens;
      BodyInvariantWeakens(p, b.end, b.open, b.scanned);
    }
  }

  /** A tail that captures a zero text: a `;`, then the longest run of zero-text characters,
      of which there is at least one, then only white space. */
  lemma PostZero(p: string, e: nat)
    requires e <= |p| && Post(p, e).Some? && Post(p, e).value != []
    ensures e < |p| && p[e] == ';' && Post(p, e) == ZeroTail(p, e + 1)
  {
    assert !WhiteFrom(p, e);
  }

  /** A zero-text tail: at least one zero-text character, then only white space. */
  lemma ZeroTailShape(p: string, i: nat)
    requires i <= |p| && ZeroTail(p, i).Some?
    ensures ZeroRun(p, i) >= 1 && WhiteFrom(p, i + ZeroRun(p, i)) && ZeroTail(p, i) == Some([ZeroToken(p, i)])
  {
  }

  /** The properties of the body's captures hold up to the end of the pattern. */
  lemma BodyInvariantWeakens(p: string, e: nat, open: seq<nat>, acc: Scanned)
    requires BodyInvariant(p, e, open, acc)
    ensures Ordered(acc.tokens)
    ensures forall k :: 0 <= k < |acc.tokens| ==> TokenBefore(p, |p|, acc.tokens[k])
    ensures forall k :: 0 <= k < |acc.spans| ==> SpanBefore(p, |p|, acc.spans[k])
  {
  }

  /** The zero text after the body comes after every body token. */
  lemma AppendZero(p: string, e: nat, open: seq<nat>, acc: Scanned, z: Token)
    requires BodyInvariant(p, e, open, acc) && e <= z.start && TokenBefore(p, |p|, z)
    ensures var ts := acc.tokens + [z];
      Ordered(ts)
      && (forall k :: 0 <= k < |ts| ==> TokenBefore(p, |p|, ts[k]))
      && (forall k :: 0 <= k < |acc.spans| ==> SpanBefore(p, |p|, acc.spans[k]))
  {
    BodyInvariantWeakens(p, e, open, acc);
    var ts := acc.tokens + [z];
    assert forall k :: 0 <= k < |acc.tokens| ==> ts[k] == acc.tokens[k];
    if |acc.tokens| > 0 {
      assert TokenBefore(p, e, acc.tokens[|acc.tokens| - 1]);
    }
  }

  /** The zero text after the `;` is a well-formed capture taken from the pattern. */
  lemma ZeroTokenBefore(p: string, i: nat)
    requires i <= |p| && ZeroRun(p, i) >= 1
    ensures TokenBefore(p, |p|, ZeroToken(p, i))
  {
    var z := ZeroToken(p, i);
    assert WellFormed(z) by {
      forall k | 0 <= k < |z.text| ensures IsZeroChar(z.text[k]) {
        assert z.text[k] == p[i + k];
      }
    }
  }

  /** The quick zero check agrees with the full grammar whenever the full grammar finds a
      zero text. */
  lemma ZeroSuffixAgrees(p: string)
    requires Scan(p).Some?
    requires var ts := Scan(p).value.tokens; |ts| > 0 && ts[|ts| - 1].name == ZeroText
    ensures ZeroSuffix(p) == Some(Scan(p).value.tokens[|Scan(p).value.tokens| - 1].text)
  {
    ScanParts(p);
    BodyHasNoZeroText(p);
    var b := BodyOf(p);
    LastZeroSuffix(p, b.scanned.tokens, b.end, Post(p, b.end).value);
  }

  lemma LastZeroSuffix(p: string, a: seq<Token>, e: nat, z: seq<Token>)
    requires forall k :: 0 <= k < |a| ==> a[k].name != ZeroText
    requires e <= |p| && Post(p, e) == Some(z)
    requires var ts := a + z; |ts| > 0 && ts[|ts| - 1].name == ZeroText
    ensures var ts := a + z; ZeroSuffix(p) == Some(ts[|ts| - 1].text)
  {
    TailNotEmpty(a, z);
    TailZero(p, e, z);
    ZeroSuffixAt(p, e, ZeroRun(p, e + 1));
  }

  /** When the grammar captures a zero text, it is the whole run of zero-text characters
      after the `;` at which the body stopped, and only white space follows it. */
  lemma ZeroTextFollowsSemicolon(p: string)
    requires Scan(p).Some?
    requires var ts := Scan(p).value.tokens; |ts| > 0 && ts[|ts| - 1].name == ZeroText
    ensures var e := BodyOf(p).end;
      e < |p| && p[e] == ';'
      && (var n := ZeroRun(p, e + 1);
          n >= 1 && WhiteFrom(p, e + 1 + n)
          && Scan(p).value.tokens[|Scan(p).value.tokens| - 1].text == p[e + 1..e + 1 + n])
  {
    ScanParts(p);
    BodyHasNoZeroText(p);
    LastZeroText(p, BodyOf(p).scanned.tokens, BodyOf(p).end, Post(p, BodyOf(p).end).value);
  }

  lemma LastZeroText(p: string, a: seq<Token>, e: nat, z: seq<Token>)
    requires forall k :: 0 <= k < |a| ==> a[k].name != ZeroText
    requires e <= |p| && Post(p, e) == Some(z)
    requires var ts := a + z; |ts| > 0 && ts[|ts| - 1].name == ZeroText
    ensures e < |p| && p[e] == ';'
      && (var n := ZeroRun(p, e + 1);
          n >= 1 && WhiteFrom(p, e + 1 + n)
          && (a + z)[|a + z| - 1].text == p[e + 1..e + 1 + n])
  {
    TailNotEmpty(a, z);
    TailZero(p, e, z);
  }

  /** A tail that captures something captures the zero text after the `;`. */
  lemma TailZero(p: string, e: nat, z: seq<Token>)
    requires e <= |p| && Post(p, e) == Some(z) && z != []
    ensures e < |p| && p[e] == ';'
      && (var n := ZeroRun(p, e + 1);
          n >= 1 && WhiteFrom(p, e + 1 + n)
          && z == [ZeroToken(p, e + 1)]
          && ZeroToken(p, e + 1).text == p[e + 1..e + 1 + n])
  {
    PostZero(p, e);
    ZeroTailShape(p, e + 1);
    ZeroTokenText(p, e + 1);
  }

  /** A zero text that ends the captures comes from the tail, not the body; the last
      capture is then the tail's. */
  lemma TailNotEmpty(a: seq<Token>, z: seq<Token>)
    requires forall k :: 0 <= k < |a| ==> a[k].name != ZeroText
    requires var ts := a + z; |ts| > 0 && ts[|ts| - 1].name == ZeroText
    ensures z != [] && (a + z)[|a + z| - 1] == z[|z| - 1]
  {
    if z == [] {
      assert false;
    }
  }

  lemma ZeroTokenText(p: string, i: nat)
    requires i <= |p|
    ensures ZeroToken(p, i).text == p[i..i + ZeroRun(p, i)]
  {
  }

  lemma BodyHasNoZeroText(p: string)
    ensures forall k :: 0 <= k < |BodyOf(p).scanned.tokens| ==> BodyOf(p).scanned.tokens[k].name != ZeroText
  {
    BodyOfInvariant(p);
  }

  /** The body run starts in a state that satisfies its invariant. */
  lemma PreInvariant(p: string)
    ensures BodyInvariant(p, Pre(p).0, [], Scanned(Pre(p).1, []))
  {
    var a := WhitePrefix(p);
    if a < |p| && p[a] == '-' {
      var t := Token(Negative, "-", a);
      assert p[a..a + 1] == "-";
      assert TokenBefore(p, a + 1, t);
    }
  }

  lemma ZeroSuffixAt(p: string, e: nat, n: nat)
    requires e < |p| && p[e] == ';' && n == ZeroRun(p, e + 1) && n >= 1 && WhiteFrom(p, e + 1 + n)
    ensures ZeroSuffix(p) == Some(p[e + 1..e + 1 + n])
  {
    SemicolonBeforeZeroText(p, e, n);
    ZeroSuffixAfterLast(p, e, n);
  }

  lemma {:induction false} ZeroSuffixAfterLast(p: string, e: nat, n: nat)
    requires e < |p| && LastIndex(p, ';') == Some(e) && n == ZeroRun(p, e + 1) && n >= 1 && WhiteFrom(p, e + 1 + n)
    ensures ZeroSuffix(p) == Some(p[e + 1..e + 1 + n])
  {
    var r := ZeroSuffix(p);
    assert r == (if n >= 1 && WhiteFrom(p, e + 1 + n) then Some(p[e + 1..e + 1 + n]) else None);
  }

  /** A `;` followed only by zero-text characters and white space is the last `;`. */
  lemma SemicolonBeforeZeroText(p: string, e: nat, n: nat)
    requires e + 1 + n <= |p| && p[e] == ';'
    requires forall k :: e + 1 <= k < e + 1 + n ==> IsZeroChar(p[k])
    requires WhiteFrom(p, e + 1 + n)
    ensures LastIndex(p, ';') == Some(e)
  {
    LastIndexIs(p, ';', e);
  }

  lemma LastIndexIs(p: string, c: char, e: nat)
    requires e < |p| && p[e] == c && forall k :: e < k < |p| ==> p[k] != c
    ensures LastIndex(p, c) == Some(e)
  {
    LastIndexBeforeIs(p, c, e, |p|);
  }

  lemma {:induction false} LastIndexBeforeIs(p: string, c: char, e: nat, j: nat)
    requires e < j <= |p| && p[e] == c && forall k :: e < k < j ==> p[k] != c
    ensures LastIndexBefore(p, c, j) == Some(e)
    decreases j
  {
    if j - 1 != e {
      LastIndexBeforeIs(p, c, e, j - 1);
    }
  }

  // ----- coverage and balance -----

  /** Offset `o` lies in the stretch token `t` was read from. */
  predicate InSource(t: Token, o: int) {
    t.SourceStart() <= o < t.SourceEnd()
  }

  /** Offset `o` is the `[` or the `]` of span `sp`. */
  predicate Endpoint(sp: Span, o: int) {
    o == sp.start || o == sp.End() - 1
  }

  /** Spans in closing order are properly nested: one that closes earlier lies wholly before
      a later one or strictly inside it. */
  predicate Nested(spans: seq<Span>) {
    forall a, b :: 0 <= a < b < |spans| ==>
      spans[a].End() <= spans[b].start || (spans[b].start < spans[a].start && spans[a].End() < spans[b].End())
  }

  /** The stretches of tokens in pattern order do not overlap. */
  predicate Apart(ts: seq<Token>) {
    forall a, b :: 0 <= a < b < |ts| ==> ts[a].SourceEnd() <= ts[b].SourceStart()
  }

  /** Each token's text, and its offset, lie within its stretch. */
  predicate Extents(ts: seq<Token>) {
    forall k :: 0 <= k < |ts| ==>
      ts[k].SourceStart() <= ts[k].start < ts[k].SourceEnd() && ts[k].End() <= ts[k].SourceEnd()
  }

  /** No bracket of a span lies within a token's stretch. */
  predicate BracketsOutside(ts: seq<Token>, spans: seq<Span>) {
    forall m, k :: 0 <= m < |spans| && 0 <= k < |ts| ==>
      !InSource(ts[k], spans[m].start) && !InSource(ts[k], spans[m].End() - 1)
  }

  /** How the captures of an accepted pattern lie in it: token stretches apart, brackets
      outside them, spans properly nested. */
  predicate Separated(s: Scanned) {
    && Apart(s.tokens) && Extents(s.tokens) && Nested(s.spans) && BracketsOutside(s.tokens, s.spans)
    && forall m :: 0 <= m < |s.spans| ==> s.spans[m].length >= 2
  }

  /** What the body run accounts for at offset `o`: a token's stretch, an open `[`, or a
      bracket of a closed span. */
  predicate CoveredInBody(o: nat, open: seq<nat>, acc: Scanned) {
    || (exists k :: 0 <= k < |acc.tokens| && InSource(acc.tokens[k], o))
    || o in open
    || (exists m :: 0 <= m < |acc.spans| && Endpoint(acc.spans[m], o))
  }

  /** The shape of what the body run has read before offset `i`, from offset `lo` on. */
  predicate ShapeInvariant(i: nat, open: seq<nat>, acc: Scanned) {
    var ts, sps := acc.tokens, acc.spans;
    && Separated(acc)
    && (forall k :: 0 <= k < |ts| ==> ts[k].SourceEnd() <= i)
    && (forall m :: 0 <= m < |sps| ==> sps[m].End() <= i)
    && (forall k :: 0 <= k < |open| ==> open[k] < i)
    && (forall a, b :: 0 <= a < b < |open| ==> open[a] < open[b])
    && (forall k, m :: 0 <= k < |open| && 0 <= m < |sps| ==> sps[m].End() <= open[k] || open[k] < sps[m].start)
    && (forall k, j :: 0 <= k < |open| && 0 <= j < |ts| ==> !InSource(ts[j], open[k]))
  }

  predicate CoverInvariant(lo: nat, i: nat, open: seq<nat>, acc: Scanned) {
    ShapeInvariant(i, open, acc) && forall o: nat :: lo <= o < i ==> CoveredInBody(o, open, acc)
  }

  lemma PushShape(i: nat, open: seq<nat>, acc: Scanned)
    requires ShapeInvariant(i, open, acc)
    ensures ShapeInvariant(i + 1, open + [i], acc)
  {
  }

  lemma PushCover(lo: nat, i: nat, open: seq<nat>, acc: Scanned)
    requires CoverInvariant(lo, i, open, acc)
    ensures CoverInvariant(lo, i + 1, open + [i], acc)
  {
    PushShape(i, open, acc);
    forall o: nat | lo <= o < i + 1
      ensures CoveredInBody(o, open + [i], acc)
    {
      if o < i {
        assert CoveredInBody(o, open, acc);
      }
    }
  }

  lemma PopShape(i: nat, open: seq<nat>, acc: Scanned)
    requires ShapeInvariant(i, open, acc) && open != []
    ensures var j := open[|open| - 1];
      ShapeInvariant(i + 1, open[..|open| - 1], Scanned(acc.tokens, acc.spans + [Span(j, i + 1 - j)]))
  {
    PopCaptures(i, open, acc);
    PopOpenRest(i, open, acc);
  }

  /** After a pop the captures stay separated and end by `i + 1`. */
  lemma PopCaptures(i: nat, open: seq<nat>, acc: Scanned)
    requires ShapeInvariant(i, open, acc) && open != []
    ensures var j := open[|open| - 1];
      var sps := acc.spans + [Span(j, i + 1 - j)];
      && Separated(Scanned(acc.tokens, sps))
      && (forall k :: 0 <= k < |acc.tokens| ==> acc.tokens[k].SourceEnd() <= i + 1)
      && (forall m :: 0 <= m < |sps| ==> sps[m].End() <= i + 1)
  {
    TopOutside(open, acc.tokens, acc.spans);
    PopSeparated(i, open[|open| - 1], acc);
  }

  /** After a pop the `[` still open lie before `i + 1`, in order, and outside every token and
      every closed span, the new one included. */
  lemma PopOpenRest(i: nat, open: seq<nat>, acc: Scanned)
    requires ShapeInvariant(i, open, acc) && open != []
    ensures var j := open[|open| - 1];
      var rest, sps := open[..|open| - 1], acc.spans + [Span(j, i + 1 - j)];
      && (forall k :: 0 <= k < |rest| ==> rest[k] < i + 1)
      && (forall a, b :: 0 <= a < b < |rest| ==> rest[a] < rest[b])
      && (forall k, m :: 0 <= k < |rest| && 0 <= m < |sps| ==> sps[m].End() <= rest[k] || rest[k] < sps[m].start)
      && (forall k, t :: 0 <= k < |rest| && 0 <= t < |acc.tokens| ==> !InSource(acc.tokens[t], rest[k]))
  {
    var j := open[|open| - 1];
    PopRest(open, acc.tokens, acc.spans);
    PopOpen(j, open[..|open| - 1], acc.spans, Span(j, i + 1 - j));
  }

  /** The innermost open `[` lies outside every token and every closed span. */
  lemma TopOutside(open: seq<nat>, ts: seq<Token>, spans: seq<Span>)
    requires open != []
    requires forall k, j :: 0 <= k < |open| && 0 <= j < |ts| ==> !InSource(ts[j], open[k])
    requires forall k, m :: 0 <= k < |open| && 0 <= m < |spans| ==> spans[m].End() <= open[k] || open[k] < spans[m].start
    ensures var j := open[|open| - 1];
      && (forall k :: 0 <= k < |ts| ==> !InSource(ts[k], j))
      && (forall m :: 0 <= m < |spans| ==> spans[m].End() <= j || j < spans[m].start)
  {
  }

  /** Closing a span at `i` whose `[` at `j` lies outside every token and every closed
      span keeps the captures separated. */
  lemma PopSeparated(i: nat, j: nat, acc: Scanned)
    requires Separated(acc) && j < i
    requires forall k :: 0 <= k < |acc.tokens| ==> acc.tokens[k].SourceEnd() <= i && !InSource(acc.tokens[k], j)
    requires forall m :: 0 <= m < |acc.spans| ==> acc.spans[m].End() <= i
    requires forall m :: 0 <= m < |acc.spans| ==> acc.spans[m].End() <= j || j < acc.spans[m].start
    ensures var sps := acc.spans + [Span(j, i + 1 - j)];
      Separated(Scanned(acc.tokens, sps)) && forall m :: 0 <= m < |sps| ==> sps[m].End() <= i + 1
  {
    PopNested(i, j, acc.spans);
    PopBrackets(i, j, acc.tokens, acc.spans);
    PopBounds(i, j, acc.spans);
  }

  /** The span a pop closes ends at `i + 1` and holds its two brackets. */
  lemma PopBounds(i: nat, j: nat, spans: seq<Span>)
    requires j < i
    requires forall m :: 0 <= m < |spans| ==> spans[m].End() <= i && spans[m].length >= 2
    ensures var sps := spans + [Span(j, i + 1 - j)];
      forall m :: 0 <= m < |sps| ==> sps[m].End() <= i + 1 && sps[m].length >= 2
  {
  }

  /** The `[` left open after a pop are those before it, still in order and outside every
      token's stretch. */
  lemma PopRest(open: seq<nat>, ts: seq<Token>, spans: seq<Span>)
    requires open != []
    requires forall a, b :: 0 <= a < b < |open| ==> open[a] < open[b]
    requires forall k, j :: 0 <= k < |open| && 0 <= j < |ts| ==> !InSource(ts[j], open[k])
    requires forall k, m :: 0 <= k < |open| && 0 <= m < |spans| ==> spans[m].End() <= open[k] || open[k] < spans[m].start
    ensures var rest := open[..|open| - 1];
      && (forall k :: 0 <= k < |rest| ==> rest[k] < open[|open| - 1])
      && (forall a, b :: 0 <= a < b < |rest| ==> rest[a] < rest[b])
      && (forall k, j :: 0 <= k < |rest| && 0 <= j < |ts| ==> !InSource(ts[j], rest[k]))
      && (forall k, m :: 0 <= k < |rest| && 0 <= m < |spans| ==> spans[m].End() <= rest[k] || rest[k] < spans[m].start)
  {
    var rest := open[..|open| - 1];
    assert forall k :: 0 <= k < |rest| ==> rest[k] == open[k];
  }

  /** Closing the innermost open `[` keeps the spans nested. */
  lemma PopNested(i: nat, j: nat, spans: seq<Span>)
    requires j < i && Nested(spans)
    requires forall m :: 0 <= m < |spans| ==> spans[m].End() <= i
    requires forall m :: 0 <= m < |spans| ==> spans[m].End() <= j || j < spans[m].start
    ensures Nested(spans + [Span(j, i + 1 - j)])
  {
    var sps := spans + [Span(j, i + 1 - j)];
    forall a, b | 0 <= a < b < |sps|
      ensures sps[a].End() <= sps[b].start || (sps[b].start < sps[a].start && sps[a].End() < sps[b].End())
    {
      assert sps[a] == spans[a];
      if b < |spans| {
        assert sps[b] == spans[b];
      }
    }
  }

  /** The brackets of the new span lie outside every token's stretch. */
  lemma PopBrackets(i: nat, j: nat, ts: seq<Token>, spans: seq<Span>)
    requires BracketsOutside(ts, spans) && j < i
    requires forall k :: 0 <= k < |ts| ==> ts[k].SourceEnd() <= i && !InSource(ts[k], j)
    ensures BracketsOutside(ts, spans + [Span(j, i + 1 - j)])
  {
    var sps := spans + [Span(j, i + 1 - j)];
    forall m, k | 0 <= m < |sps| && 0 <= k < |ts|
      ensures !InSource(ts[k], sps[m].start) && !InSource(ts[k], sps[m].End() - 1)
    {
      if m < |spans| {
        assert sps[m] == spans[m];
      }
    }
  }

  /** The `[` still open lie before the new span and outside the earlier ones they follow. */
  lemma PopOpen(j: nat, rest: seq<nat>, spans: seq<Span>, sp: Span)
    requires sp.start == j && forall k :: 0 <= k < |rest| ==> rest[k] < j
    requires forall k, m :: 0 <= k < |rest| && 0 <= m < |spans| ==> spans[m].End() <= rest[k] || rest[k] < spans[m].start
    ensures var sps := spans + [sp];
      forall k, m :: 0 <= k < |rest| && 0 <= m < |sps| ==> sps[m].End() <= rest[k] || rest[k] < sps[m].start
  {
    var sps := spans + [sp];
    forall k, m | 0 <= k < |rest| && 0 <= m < |sps|
      ensures sps[m].End() <= rest[k] || rest[k] < sps[m].start
    {
      if m < |spans| {
        assert sps[m] == spans[m];
      }
    }
  }

  lemma PopCover(lo: nat, i: nat, open: seq<nat>, acc: Scanned)
    requires CoverInvariant(lo, i, open, acc) && open != []
    ensures var j := open[|open| - 1];
      CoverInvariant(lo, i + 1, open[..|open| - 1], Scanned(acc.tokens, acc.spans + [Span(j, i + 1 - j)]))
  {
    var j := open[|open| - 1];
    var rest := open[..|open| - 1];
    var next := Scanned(acc.tokens, acc.spans + [Span(j, i + 1 - j)]);
    PopShape(i, open, acc);
    forall o: nat | lo <= o < i + 1
      ensures CoveredInBody(o, rest, next)
    {
      if o == i || o == j {
        assert Endpoint(next.spans[|acc.spans|], o);
      } else {
        assert CoveredInBody(o, open, acc);
        if o in open {
          var k :| 0 <= k < |open| && open[k] == o;
          assert rest[k] == o;
        } else if exists m :: 0 <= m < |acc.spans| && Endpoint(acc.spans[m], o) {
          var m :| 0 <= m < |acc.spans| && Endpoint(acc.spans[m], o);
          assert next.spans[m] == acc.spans[m];
        }
      }
    }
  }

  lemma TokenShape(i: nat, open: seq<nat>, acc: Scanned, t: Token, k: nat)
    requires ShapeInvariant(i, open, acc)
    requires t.SourceStart() == i && t.SourceEnd() == k && i <= t.start < k && t.End() <= k
    ensures ShapeInvariant(k, open, Scanned(acc.tokens + [t], acc.spans))
  {
    AppendApart(acc.tokens, t, i);
    AppendBracketsOutside(acc.tokens, acc.spans, t, i);
    AppendOpenOutside(acc.tokens, open, t, i);
  }

  /** A token read at the offset the earlier ones end by keeps the stretches apart. */
  lemma AppendApart(ts: seq<Token>, t: Token, i: nat)
    requires Apart(ts) && Extents(ts) && forall k :: 0 <= k < |ts| ==> ts[k].SourceEnd() <= i
    requires t.SourceStart() == i && t.start < t.SourceEnd() && t.End() <= t.SourceEnd() && i <= t.start
    ensures Apart(ts + [t]) && Extents(ts + [t])
  {
    var r := ts + [t];
    assert forall m :: 0 <= m < |ts| ==> r[m] == ts[m];
  }

  /** The brackets closed before offset `i` lie outside a token read from `i` on. */
  lemma AppendBracketsOutside(ts: seq<Token>, spans: seq<Span>, t: Token, i: nat)
    requires BracketsOutside(ts, spans) && forall m :: 0 <= m < |spans| ==> spans[m].End() <= i && spans[m].length >= 2
    requires t.SourceStart() == i
    ensures BracketsOutside(ts + [t], spans)
  {
    var r := ts + [t];
    assert forall m :: 0 <= m < |ts| ==> r[m] == ts[m];
  }

  /** So do the `[` still open. */
  lemma AppendOpenOutside(ts: seq<Token>, open: seq<nat>, t: Token, i: nat)
    requires forall k, j :: 0 <= k < |open| && 0 <= j < |ts| ==> !InSource(ts[j], open[k])
    requires forall k :: 0 <= k < |open| ==> open[k] < i
    requires t.SourceStart() == i
    ensures var r := ts + [t];
      forall k, j :: 0 <= k < |open| && 0 <= j < |r| ==> !InSource(r[j], open[k])
  {
    var r := ts + [t];
    assert forall m :: 0 <= m < |ts| ==> r[m] == ts[m];
  }

  lemma TokenCover(lo: nat, i: nat, open: seq<nat>, acc: Scanned, t: Token, k: nat)
    requires CoverInvariant(lo, i, open, acc)
    requires t.SourceStart() == i && t.SourceEnd() == k && i <= t.start < k && t.End() <= k
    ensures CoverInvariant(lo, k, open, Scanned(acc.tokens + [t], acc.spans))
  {
    var next := Scanned(acc.tokens + [t], acc.spans);
    TokenShape(i, open, acc, t, k);
    forall o: nat | lo <= o < k
      ensures CoveredInBody(o, open, next)
    {
      if o >= i {
        assert InSource(next.tokens[|acc.tokens|], o);
      } else {
        assert CoveredInBody(o, open, acc);
        if exists m :: 0 <= m < |acc.tokens| && InSource(acc.tokens[m], o) {
          var m :| 0 <= m < |acc.tokens| && InSource(acc.tokens[m], o);
          assert next.tokens[m] == acc.tokens[m];
        }
      }
    }
  }

  lemma {:induction false} ScanBodyCovers(p: string, lo: nat, i: nat, open: seq<nat>, acc: Scanned)
    requires i <= |p| && (forall k :: 0 <= k < |open| ==> open[k] < i)
    requires CoverInvariant(lo, i, open, acc)
    ensures var r := ScanBody(p, i, open, acc); CoverInvariant(lo, r.end, r.open, r.scanned)
    decreases |p| - i
  {
    if i == |p| {
    } else if p[i] == '[' {
      PushCover(lo, i, open, acc);
      ScanBodyCovers(p, lo, i + 1, open + [i], acc);
    } else if p[i] == ']' {
      if open != [] {
        var j := open[|open| - 1];
        PopCover(lo, i, open, acc);
        ScanBodyCovers(p, lo, i + 1, open[..|open| - 1], Scanned(acc.tokens, acc.spans + [Span(j, i + 1 - j)]));
      }
    } else if Lexeme(p, i).Some? {
      var (t, k) := Lexeme(p, i).value;
      TokenCover(lo, i, open, acc, t, k);
      ScanBodyCovers(p, lo, k, open, Scanned(acc.tokens + [t], acc.spans));
    }
  }

  /** The body run starts having accounted for the leading minus, if any. */
  lemma PreCovers(p: string)
    ensures CoverInvariant(WhitePrefix(p), Pre(p).0, [], Scanned(Pre(p).1, []))
  {
    var a := WhitePrefix(p);
    if a < |p| && p[a] == '-' {
      var acc := Scanned(Pre(p).1, []);
      assert InSource(acc.tokens[0], a);
    }
  }

  lemma BodyOfCovers(p: string)
    ensures var b := BodyOf(p); CoverInvariant(WhitePrefix(p), b.end, b.open, b.scanned)
  {
    PreCovers(p);
    ScanBodyCovers(p, WhitePrefix(p), Pre(p).0, [], Scanned(Pre(p).1, []));
  }

  /** What accounts for offset `o` of an accepted pattern: the leading white space, the
      stretch of a token (the minus sign and the zero text included), a bracket of a span,
      the `;` before the zero text, or the white space that ends the pattern. */
  predicate Covered(p: string, s: Scanned, o: nat) {
    || o < WhitePrefix(p)
    || (exists k :: 0 <= k < |s.tokens| && InSource(s.tokens[k], o))
    || (exists m :: 0 <= m < |s.spans| && Endpoint(s.spans[m], o))
    || (o < |p| && p[o] == ';' && exists k :: 0 <= k < |s.tokens| && s.tokens[k].name == ZeroText && s.tokens[k].start == o + 1)
    || WhiteFrom(p, o)
  }

  /** An accepted pattern is accounted for character by character: every offset is covered,
      by the stretch of at most one token, and the captures lie apart with their spans
      properly nested. */
  lemma ScanCovers(p: string)
    requires Scan(p).Some?
    ensures Separated(Scan(p).value)
    ensures forall o: nat :: o < |p| ==> Covered(p, Scan(p).value, o)
  {
    var b := BodyOf(p);
    var lo := WhitePrefix(p);
    BodyOfCovers(p);
    ScanParts(p);
    var z := Post(p, b.end).value;
    var s := Scan(p).value;
    assert s.spans == b.scanned.spans;
    if z == [] {
      assert s.tokens == b.scanned.tokens;
      forall o: nat | o < |p|
        ensures Covered(p, s, o)
      {
        if lo <= o < b.end {
          assert CoveredInBody(o, [], b.scanned);
        }
      }
    } else {
      var e := b.end;
      TailZero(p, e, z);
      var zt := ZeroToken(p, e + 1);
      var n := ZeroRun(p, e + 1);
      ZeroCovers(b.end, b.scanned, zt);
      forall o: nat | o < |p|
        ensures Covered(p, s, o)
      {
        if lo <= o < e {
          assert CoveredInBody(o, [], b.scanned);
          if exists k :: 0 <= k < |b.scanned.tokens| && InSource(b.scanned.tokens[k], o) {
            var k :| 0 <= k < |b.scanned.tokens| && InSource(b.scanned.tokens[k], o);
            assert s.tokens[k] == b.scanned.tokens[k];
          }
        } else if o == e {
          assert s.tokens[|b.scanned.tokens|] == zt;
        } else if e < o < e + 1 + n {
          assert InSource(s.tokens[|b.scanned.tokens|], o);
        }
      }
    }
  }

  /** The zero text after the body keeps the captures apart. */
  lemma ZeroCovers(e: nat, acc: Scanned, zt: Token)
    requires ShapeInvariant(e, [], acc)
    requires zt.name == ZeroText && zt.start == e + 1 && |zt.text| >= 1
    ensures Separated(Scanned(acc.tokens + [zt], acc.spans))
  {
    var ts := acc.tokens + [zt];
    assert forall m :: 0 <= m < |acc.tokens| ==> ts[m] == acc.tokens[m];
  }

  /** Brackets balance: the spans are properly nested, and every `[` or `]` outside the
      stretch of a token (a quoted text or an escaped character) is a bracket of a span. */
  lemma ScanBalanced(p: string)
    requires Scan(p).Some?
    ensures Nested(Scan(p).value.spans)
    ensures var s := Scan(p).value;
      forall o: nat :: o < |p| && (p[o] == '[' || p[o] == ']') && (forall k :: 0 <= k < |s.tokens| ==> !InSource(s.tokens[k], o)) ==>
        exists m :: 0 <= m < |s.spans| && Endpoint(s.spans[m], o)
  {
    ScanCovers(p);
    var s := Scan(p).value;
    forall o: nat | o < |p| && (p[o] == '[' || p[o] == ']') && (forall k :: 0 <= k < |s.tokens| ==> !InSource(s.tokens[k], o))
      ensures exists m :: 0 <= m < |s.spans| && Endpoint(s.spans[m], o)
    {
      assert Covered(p, s, o);
      assert !IsWhite(p[o]);
    }
  }

  /** A lone `f` is no token, an unclosed `[` and a stray `]` leave the brackets unbalanced:
      none of these patterns is accepted. */
  lemma ScanRejects()
    ensures Scan("f") == None
    ensures Scan("[hh") == None
    ensures Scan("hh]") == None
  {
    LoneFractionRejected();
    UnclosedRejected();
    StrayCloseRejected();
  }

  lemma LoneFractionRejected()
    ensures Scan("f") == None
  {
    var p := "f";
    assert WhitePrefix(p) == 0 && Pre(p) == (0, []);
    assert RunOf(p, 0, 'f') == 1;
    assert Lexeme(p, 0) == None;
    assert BodyOf(p).end == 0;
    assert !WhiteFrom(p, 0);
  }

  lemma UnclosedRejected()
    ensures Scan("[hh") == None
  {
    var p := "[hh";
    assert WhitePrefix(p) == 0 && Pre(p) == (0, []);
    assert RunOf(p, 1, 'h') == 2;
    var t := Token(Component('h'), "hh", 1);
    assert p[1..3] == "hh";
    assert RunLexeme(p, 1) == Some((t, 3));
    assert Lexeme(p, 1) == Some((t, 3));
    assert ScanBody(p, 3, [0], Scanned([t], [])).open == [0];
    assert BodyOf(p).open == [0];
  }

  lemma StrayCloseRejected()
    ensures Scan("hh]") == None
  {
    var p := "hh]";
    assert WhitePrefix(p) == 0 && Pre(p) == (0, []);
    assert RunOf(p, 0, 'h') == 2;
    var t := Token(Component('h'), "hh", 0);
    assert p[0..2] == "hh";
    assert RunLexeme(p, 0) == Some((t, 2));
    assert Lexeme(p, 0) == Some((t, 2));
    assert BodyOf(p).end == 2 && BodyOf(p).open == [];
    assert !WhiteFrom(p, 2);
  }

  // ----- acceptance -----

  /** The grammar accepts its own patterns: a bare run, runs with a quoted separator, an
      optional group, and the default pattern `-[d'.']hh':'mm':'ss['.'fffffff]` every
      standard format falls back to, each with the captures the grammar gives it. */
  lemma ScanAccepts()
    ensures Scan("hh") == Some(Scanned([Token(Component('h'), "hh", 0)], []))
    ensures Scan("hh':'mm") == Some(Scanned(
      [Token(Component('h'), "hh", 0), Token(Quoted, ":", 3), Token(Component('m'), "mm", 5)], []))
    ensures Scan("[hh]") == Some(Scanned([Token(Component('h'), "hh", 1)], [Span(0, 4)]))
    ensures Scan(DefaultText) == Some(Scanned(DefaultTokens, [Span(1, 6), Span(19, 12)]))
  {
    RunAccepted("hh");
    QuotedRunsAccepted("hh':'mm");
    GroupAccepted("[hh]");
    DefaultAccepted();
  }

  const DefaultText: string := "-[d'.']hh':'mm':'ss['.'fffffff]"

  const DefaultTokens: seq<Token> := [
    Token(Negative, "-", 0), Token(Component('d'), "d", 2), Token(Quoted, ".", 4),
    Token(Component('h'), "hh", 7), Token(Quoted, ":", 10), Token(Component('m'), "mm", 12),
    Token(Quoted, ":", 15), Token(Component('s'), "ss", 17), Token(Quoted, ".", 21),
    Token(Fraction('f'), "fffffff", 23)]

  /** `ts` are the lexemes read one after another from offset `i` up to offset `j`, with no
      bracket among them. */
  predicate Lexes(p: string, i: nat, ts: seq<Token>, j: nat)
    decreases |ts|
  {
    if ts == [] then i == j <= |p|
    else
      && i < |p| && p[i] != '[' && p[i] != ']'
      && match Lexeme(p, i)
         case None => false
         case Some((t, k)) => t == ts[0] && Lexes(p, k, ts[1..], j)
  }

  /** One body step over a lexeme. */
  lemma LexemeStep(p: string, i: nat, open: seq<nat>, acc: Scanned)
    requires i < |p| && p[i] != '[' && p[i] != ']' && Lexeme(p, i).Some?
    requires forall k :: 0 <= k < |open| ==> open[k] < i
    ensures ScanBody(p, i, open, acc)
         == ScanBody(p, Lexeme(p, i).value.1, open, Scanned(acc.tokens + [Lexeme(p, i).value.0], acc.spans))
  {
  }

  /** The body run reads such lexemes in a row. */
  lemma {:induction false} LexesRun(p: string, i: nat, ts: seq<Token>, j: nat, open: seq<nat>, acc: Scanned)
    requires Lexes(p, i, ts, j) && forall k :: 0 <= k < |open| ==> open[k] < i
    ensures i <= j <= |p|
    ensures ScanBody(p, i, open, acc) == ScanBody(p, j, open, Scanned(acc.tokens + ts, acc.spans))
    decreases |ts|
  {
    if ts != [] {
      var (t, k) := Lexeme(p, i).value;
      var next := Scanned(acc.tokens + [t], acc.spans);
      LexemeStep(p, i, open, acc);
      LexesRun(p, k, ts[1..], j, open, next);
      AppendHead(acc.tokens, ts);
    } else {
      assert Scanned(acc.tokens + ts, acc.spans) == acc;
    }
  }

  /** Appending the head of `ts` and then its tail appends `ts`. */
  lemma AppendHead(a: seq<Token>, ts: seq<Token>)
    requires ts != []
    ensures (a + [ts[0]]) + ts[1..] == a + ts
  {
    assert ts == [ts[0]] + ts[1..];
  }

  /** The lexeme of a run `text` of one run letter. */
  lemma RunLexemeIs(p: string, i: nat, text: string)
    requires text != [] && IsRunLetter(text[0]) && forall k :: 0 <= k < |text| ==> text[k] == text[0]
    requires i + |text| <= |p| && p[i..i + |text|] == text && (i + |text| == |p| || p[i + |text|] != text[0])
    ensures Lexeme(p, i) == Some((Token(Component(text[0]), text, i), i + |text|))
  {
    assert forall k :: i <= k < i + |text| ==> p[k] == p[i..i + |text|][k - i];
    assert RunOf(p, i, text[0]) == |text|;
  }

  /** The lexeme of a quoted `text` that holds no quote. */
  lemma QuotedLexemeIs(p: string, i: nat, text: string)
    requires i + |text| + 1 < |p| && p[i] == '\'' && p[i + 1..i + 1 + |text|] == text
    requires '\'' !in text && p[i + 1 + |text|] == '\''
    ensures Lexeme(p, i) == Some((Token(Quoted, text, i + 1), i + |text| + 2))
  {
    var q := p[i + 1..];
    assert q[..|text|] == text && q[|text|] == '\'';
    assert CharIndex(q, '\'') == |text|;
  }

  /** The lexeme of a run of exactly seven `f`. */
  lemma FractionLexemeIs(p: string, i: nat)
    requires i + 7 <= |p| && p[i..i + 7] == "fffffff" && (i + 7 == |p| || p[i + 7] != 'f')
    ensures Lexeme(p, i) == Some((Token(Fraction('f'), "fffffff", i), i + 7))
  {
    assert forall k :: i <= k < i + 7 ==> p[k] == p[i..i + 7][k - i];
    assert RunOf(p, i, 'f') == 7;
  }

  /** The characters of `s` appear in `p` from offset `i` on. */
  lemma SliceIs(p: string, i: nat, s: string)
    requires i + |s| <= |p| && forall k :: 0 <= k < |s| ==> s[k] == p[i + k]
    ensures p[i..i + |s|] == s
  {
  }

  /** A body run that ends with no group open and only white space after it is accepted
      with the body's captures. */
  lemma ScanOfBody(p: string, b: BodyEnd)
    requires BodyOf(p) == b && b.open == [] && WhiteFrom(p, b.end)
    ensures Scan(p) == Some(b.scanned)
  {
    assert b.scanned.tokens + [] == b.scanned.tokens;
  }

  lemma RunAccepted(p: string)
    requires p == "hh"
    ensures Scan(p) == Some(Scanned([Token(Component('h'), "hh", 0)], []))
  {
    var t := Token(Component('h'), "hh", 0);
    assert Pre(p) == (0, []);
    SliceIs(p, 0, "hh");
    RunLexemeIs(p, 0, "hh");
    assert Lexes(p, 0, [t], 2);
    LexesRun(p, 0, [t], 2, [], Scanned([], []));
    assert [] + [t] == [t];
    ScanOfBody(p, BodyEnd(2, [], Scanned([t], [])));
  }

  lemma QuotedRunsAccepted(p: string)
    requires p == "hh':'mm"
    ensures Scan(p) == Some(Scanned(
      [Token(Component('h'), "hh", 0), Token(Quoted, ":", 3), Token(Component('m'), "mm", 5)], []))
  {
    var ts := [Token(Component('h'), "hh", 0), Token(Quoted, ":", 3), Token(Component('m'), "mm", 5)];
    QuotedRunsBody(p, ts);
    ScanOfBody(p, BodyEnd(7, [], Scanned(ts, [])));
  }

  lemma QuotedRunsBody(p: string, ts: seq<Token>)
    requires p == "hh':'mm"
    requires ts == [Token(Component('h'), "hh", 0), Token(Quoted, ":", 3), Token(Component('m'), "mm", 5)]
    ensures BodyOf(p) == BodyEnd(7, [], Scanned(ts, []))
  {
    assert Pre(p) == (0, []);
    QuotedRunsLexes(p);
    LexesRun(p, 0, ts, 7, [], Scanned([], []));
    assert [] + ts == ts;
  }

  lemma QuotedRunsLexes(p: string)
    requires p == "hh':'mm"
    ensures Lexes(p, 0, [Token(Component('h'), "hh", 0), Token(Quoted, ":", 3), Token(Component('m'), "mm", 5)], 7)
  {
    var t0, t1, t2 := Token(Component('h'), "hh", 0), Token(Quoted, ":", 3), Token(Component('m'), "mm", 5);
    SliceIs(p, 5, "mm");
    RunLexemeIs(p, 5, "mm");
    assert Lexes(p, 5, [t2], 7);
    SliceIs(p, 3, ":");
    QuotedLexemeIs(p, 2, ":");
    assert Lexes(p, 2, [t1, t2], 7);
    SliceIs(p, 0, "hh");
    RunLexemeIs(p, 0, "hh");
  }

  /** The opening '[' of "[hh]" pushes its offset and moves on. */
  lemma GroupOpens(p: string)
    requires p == "[hh]"
    ensures BodyOf(p) == ScanBody(p, 1, [0], Scanned([], []))
  {
    assert Pre(p) == (0, []) && [] + [0] == [0];
  }

  /** The closing ']' of "[hh]" pops the group, records its span and ends the body. */
  lemma GroupCloses(p: string, t: Token)
    requires p == "[hh]"
    ensures ScanBody(p, 3, [0], Scanned([t], [])) == BodyEnd(4, [], Scanned([t], [Span(0, 4)]))
  {
    assert p[3] == ']' && [0][..0] == [] && [] + [Span(0, 4)] == [Span(0, 4)];
  }

  lemma GroupAccepted(p: string)
    requires p == "[hh]"
    ensures Scan(p) == Some(Scanned([Token(Component('h'), "hh", 1)], [Span(0, 4)]))
  {
    var t := Token(Component('h'), "hh", 1);
    var b := BodyEnd(4, [], Scanned([t], [Span(0, 4)]));
    GroupOpens(p);
    SliceIs(p, 1, "hh");
    RunLexemeIs(p, 1, "hh");
    assert Lexes(p, 1, [t], 3);
    LexesRun(p, 1, [t], 3, [0], Scanned([], []));
    assert [] + [t] == [t];
    GroupCloses(p, t);
    assert BodyOf(p) == b;
    ScanOfBody(p, b);
  }

  /** The default pattern, character by character. */
  predicate DefaultChars(p: string) {
    && |p| == 31 && p[0] == '-' && p[1] == '[' && p[2] == 'd' && p[3] == '\'' && p[4] == '.'
    && p[5] == '\'' && p[6] == ']' && p[7] == 'h' && p[8] == 'h' && p[9] == '\''
    && p[10] == ':' && p[11] == '\'' && p[12] == 'm' && p[13] == 'm' && p[14] == '\''
    && p[15] == ':' && p[16] == '\'' && p[17] == 's' && p[18] == 's' && p[19] == '['
    && p[20] == '\'' && p[21] == '.' && p[22] == '\'' && p[23] == 'f' && p[24] == 'f'
    && p[25] == 'f' && p[26] == 'f' && p[27] == 'f' && p[28] == 'f' && p[29] == 'f'
    && p[30] == ']'
  }

  /** The default pattern as its three stretches: the days group, the clock, the fraction group. */
  lemma DefaultStretches()
    ensures DefaultText == "-[d'.']" + "hh':'mm':'ss" + "['.'fffffff]"
  {
  }

  lemma StretchesChars(p: string)
    requires p == "-[d'.']" + "hh':'mm':'ss" + "['.'fffffff]"
    ensures DefaultChars(p)
  {
  }

  lemma DefaultTextChars()
    ensures DefaultChars(DefaultText)
  {
    DefaultStretches();
    StretchesChars(DefaultText);
  }

  /** The default pattern, one lexeme at a time from the end of each bracket-free stretch
      back: `DefaultLexesK` reads the tokens from the `K`-th up to the stretch's end. */
  lemma DefaultLexes1(p: string)
    requires DefaultChars(p)
    ensures Lexes(p, 2, DefaultTokens[1..3], 6)
  {
    DefaultLexes2(p);
    SliceIs(p, 2, "d");
    RunLexemeIs(p, 2, "d");
  }

  lemma DefaultLexes2(p: string)
    requires DefaultChars(p)
    ensures Lexes(p, 3, DefaultTokens[2..3], 6)
  {
    assert Lexes(p, 6, [], 6);
    SliceIs(p, 4, ".");
    QuotedLexemeIs(p, 3, ".");
  }

  lemma DefaultLexes3(p: string)
    requires DefaultChars(p)
    ensures Lexes(p, 7, DefaultTokens[3..8], 19)
  {
    DefaultLexes4(p);
    SliceIs(p, 7, "hh");
    RunLexemeIs(p, 7, "hh");
  }

  lemma DefaultLexes4(p: string)
    requires DefaultChars(p)
    ensures Lexes(p, 9, DefaultTokens[4..8], 19)
  {
    DefaultLexes5(p);
    SliceIs(p, 10, ":");
    QuotedLexemeIs(p, 9, ":");
  }

  lemma DefaultLexes5(p: string)
    requires DefaultChars(p)
    ensures Lexes(p, 12, DefaultTokens[5..8], 19)
  {
    DefaultLexes6(p);
    SliceIs(p, 12, "mm");
    RunLexemeIs(p, 12, "mm");
  }

  lemma DefaultLexes6(p: string)
    requires DefaultChars(p)
    ensures Lexes(p, 14, DefaultTokens[6..8], 19)
  {
    DefaultLexes7(p);
    SliceIs(p, 15, ":");
    QuotedLexemeIs(p, 14, ":");
  }

  lemma DefaultLexes7(p: string)
    requires DefaultChars(p)
    ensures Lexes(p, 17, DefaultTokens[7..8], 19)
  {
    assert Lexes(p, 19, [], 19);
    SliceIs(p, 17, "ss");
    RunLexemeIs(p, 17, "ss");
  }

  lemma DefaultLexes8(p: string)
    requires DefaultChars(p)
    ensures Lexes(p, 20, DefaultTokens[8..], 30)
  {
    DefaultLexes9(p);
    SliceIs(p, 21, ".");
    QuotedLexemeIs(p, 20, ".");
  }

  lemma DefaultLexes9(p: string)
    requires DefaultChars(p)
    ensures Lexes(p, 23, DefaultTokens[9..], 30)
  {
    assert Lexes(p, 30, [], 30);
    SliceIs(p, 23, "fffffff");
    FractionLexemeIs(p, 23);
  }

  /** The body run over the default pattern, bracket by bracket: the sign and the days group, */
  lemma DefaultHead(p: string)
    requires DefaultChars(p)
    ensures BodyOf(p) == ScanBody(p, 7, [], Scanned(DefaultTokens[..3], [Span(1, 6)]))
  {
    var ts := DefaultTokens;
    assert !IsWhite(p[0]) && WhitePrefix(p) == 0;
    assert ts[..1] == [Token(Negative, "-", 0)];
    assert Pre(p) == (1, ts[..1]);
    assert [] + [1] == [1];
    assert ScanBody(p, 1, [], Scanned(ts[..1], [])) == ScanBody(p, 2, [1], Scanned(ts[..1], []));
    DefaultLexes1(p);
    LexesRun(p, 2, ts[1..3], 6, [1], Scanned(ts[..1], []));
    assert ts[..1] + ts[1..3] == ts[..3];
    assert [1][..0] == [] && [] + [Span(1, 6)] == [Span(1, 6)];
    assert ScanBody(p, 6, [1], Scanned(ts[..3], [])) == ScanBody(p, 7, [], Scanned(ts[..3], [Span(1, 6)]));
  }

  /** the clock up to the fraction group's `[`, */
  lemma DefaultMiddle(p: string)
    requires DefaultChars(p)
    ensures ScanBody(p, 7, [], Scanned(DefaultTokens[..3], [Span(1, 6)]))
         == ScanBody(p, 20, [19], Scanned(DefaultTokens[..8], [Span(1, 6)]))
  {
    var ts := DefaultTokens;
    DefaultLexes3(p);
    LexesRun(p, 7, ts[3..8], 19, [], Scanned(ts[..3], [Span(1, 6)]));
    assert ts[..3] + ts[3..8] == ts[..8];
    assert [] + [19] == [19];
    assert ScanBody(p, 19, [], Scanned(ts[..8], [Span(1, 6)])) == ScanBody(p, 20, [19], Scanned(ts[..8], [Span(1, 6)]));
  }

  /** and the fraction group to the end. */
  lemma DefaultEnd(p: string)
    requires DefaultChars(p)
    ensures ScanBody(p, 20, [19], Scanned(DefaultTokens[..8], [Span(1, 6)]))
         == BodyEnd(31, [], Scanned(DefaultTokens, [Span(1, 6), Span(19, 12)]))
  {
    var ts, sp0, sp1 := DefaultTokens, Span(1, 6), Span(19, 12);
    DefaultLexes8(p);
    LexesRun(p, 20, ts[8..], 30, [19], Scanned(ts[..8], [sp0]));
    assert ts[..8] + ts[8..] == ts;
    assert [19][..0] == [] && [sp0] + [sp1] == [sp0, sp1];
    assert ScanBody(p, 30, [19], Scanned(ts, [sp0])) == ScanBody(p, 31, [], Scanned(ts, [sp0, sp1]));
  }

  lemma DefaultAccepted()
    ensures Scan(DefaultText) == Some(Scanned(DefaultTokens, [Span(1, 6), Span(19, 12)]))
  {
    DefaultTextChars();
    DefaultHead(DefaultText);
    DefaultMiddle(DefaultText);
    DefaultEnd(DefaultText);
    ScanOfBody(DefaultText, BodyEnd(31, [], Scanned(DefaultTokens, [Span(1, 6), Span(19, 12)])));
  }
}
