/** `TimeSpan2FormatInfo`: the format provider that resolves standard formats to patterns,
    formats a duration through the pattern tree and parses text by trying patterns in turn.
    The instance keeps three settable strings; the accepted patterns are kept in a cache
    shared by all instances. */
module FormatInfo {
  import opened Wrappers
  import opened Strings
  import opened Spans
  import opened Cultures
  import opened Patterns
  import opened Trees
  import opened Formatting
  import opened Expressions
  import opened Reconstruction

  /** `TimeSpanPatternType`: whether a standard format is wanted for output or for input. */
  datatype PatternType = ForFormatting | ForParsing

  const DefaultPattern: string := "-[d'.']hh':'mm':'ss['.'fffffff]"
  const GeneralLongPattern: string := "-d.hh:mm:ss.fffffff"
  const GeneralShortPattern: string := "-[d.]h:mm:ss[.FFFFFFF]"
  const Iso8601Pattern: string := "'P'[d'D']['T'[h'H'][m'M'][p3'S']];PT0S"

  /** The pattern every standard format without a pattern of its own resolves to is one the
      grammar accepts, with its ten captures and its two optional groups. */
  lemma DefaultPatternAccepted()
    ensures Scan(DefaultPattern) == Some(Scanned(DefaultTokens, [Span(1, 6), Span(19, 12)]))
  {
    assert DefaultPattern == DefaultText;
    DefaultAccepted();
  }

  /** The standard format letters, in the order `GetAllTimeSpanPatterns` lists them. */
  const StandardFormats: string := "cgGfxj"

  /** The letters `GetCustomFormatString` resolves to a standard pattern. */
  predicate IsStandard(ch: char) {
    ch == 'c' || ch == 'g' || ch == 'G' || ch == 'f' || ch == 'j' || ch == 'x'
  }

  /** The cache after a pattern was validated: an accepted pattern is recorded with its
      captures, a refused one leaves it as it was. */
  function Cached(entries: map<string, Scanned>, p: string): (r: map<string, Scanned>)
    ensures p in r <==> p in entries || Scan(p).Some?
  {
    if Scan(p).Some? then entries[p := Scan(p).value] else entries
  }

  /** `fullPatternCache`: each pattern accepted so far with its captures. */
  class PatternCache {
    var entries: map<string, Scanned>

    /** Every recorded pattern carries the captures the grammar gives it. */
    ghost predicate Valid()
      reads this
    {
      forall p :: p in entries ==> Scan(p) == Some(entries[p])
    }

    constructor ()
      ensures entries == map[] && Valid()
    {
      entries := map[];
    }

    /** `ValidateCustomPattern`: the captures of an accepted pattern, from the cache when it
        is there; FormatException for a pattern the grammar refuses. */
    method ValidateCustomPattern(p: string) returns (r: Result<Scanned>)
      requires Valid()
      modifies this
      ensures Valid()
      ensures r == if Scan(p).Some? then Ok(Scan(p).value) else Err(FormatException)
      ensures entries == Cached(old(entries), p)
    {
      if p in entries {
        assert entries[p := entries[p]] == entries;
        return Ok(entries[p]);
      }
      var m := Scan(p);
      if m.None? {
        return Err(FormatException);
      }
      entries := entries[p := m.value];
      return Ok(m.value);
    }
  }

  /** `CustomFormat`: a zero duration shows the pattern's own `;text` when it ends in one and
      the zero text otherwise, without the pattern being validated; any other duration is
      formatted through the tree of the validated pattern, without its zero text. */
  function CustomFormatOf(core: TimeSpan2, format: string, zeroFormat: string, c: Culture, pf: Platform): Result<string> {
    if core.IsZero() then
      Ok(match ZeroSuffix(format) case Some(z) => z case None => zeroFormat)
    else
      match Scan(format)
      case None => Err(FormatException)
      case Some(s) =>
        var head :- BuildTree(format, s);
        match head
        case Leaf(_) => Err(FormatException)
        case Node(isRoot, start, length, cs) =>
          var out :- FormatEntity(Node(isRoot, start, length, RemoveFirstZero(cs)), core, c, pf);
          Ok(out.text)
  }

  /** `List.Remove` of the first child that is the zero text. */
  function RemoveFirstZero(cs: seq<Entity>): (r: seq<Entity>)
    ensures |r| == |cs| || |r| == |cs| - 1
  {
    if cs == [] then []
    else if IsLeafNamed(cs[0], ZeroText) then cs[1..]
    else [cs[0]] + RemoveFirstZero(cs[1..])
  }

  /** The format provider. `culture` and `platform` stand for the resources and the runtime
      services it consults; `patterns` is the shared pattern cache. */
  class TimeSpan2FormatInfo {
    var longPattern: string
    var shortPattern: string
    var zeroDisplay: string
    const culture: Culture
    const platform: Platform
    const patterns: PatternCache

    /** A new instance has the general patterns and no zero text. */
    constructor (culture: Culture, platform: Platform, patterns: PatternCache)
      ensures this.culture == culture && this.platform == platform && this.patterns == patterns
      ensures longPattern == GeneralLongPattern && shortPattern == GeneralShortPattern && zeroDisplay == ""
    {
      this.culture := culture;
      this.platform := platform;
      this.patterns := patterns;
      longPattern := GeneralLongPattern;
      shortPattern := GeneralShortPattern;
      zeroDisplay := "";
    }

    /** `GetTimeSpanPattern`: the pattern of a standard format letter; the word (`f`) and Jira
        (`j`) patterns differ between output and input. ArgumentException for any other
        letter. */
    function GetTimeSpanPattern(kind: PatternType, format: char): (r: Result<string>)
      reads this
      ensures r.Ok? <==> IsStandard(format)
      ensures r.Err? ==> r.error == ArgumentException
    {
      match format
      case 'c' => Ok(DefaultPattern)
      case 'g' => Ok(shortPattern)
      case 'G' => Ok(longPattern)
      case 'f' => Ok(if kind == ForFormatting then culture.wordFormat else culture.wordPattern)
      case 'j' => Ok(if kind == ForFormatting then culture.jiraFormat else culture.jiraPattern)
      case 'x' => Ok(Iso8601Pattern)
      case _ => Err(ArgumentException)
    }

    /** `GetCustomFormatString`: the pattern a format string stands for, and the text for a
        zero duration. A leading `;` selects the default pattern with the rest as zero text; a
        standard letter followed by `;` selects its pattern with the text after the `;`; any
        other string of two or more characters is itself the pattern. */
    function CustomFormatString(kind: PatternType, format: string): (string, string)
      reads this
    {
      var fmt := if format == "" then 'c' else format[0];
      if |format| > 1 then
        if format[0] == ';' then
          (DefaultPattern, format[1..])
        else if format[0] != '\\' && format[1] == ';' then
          (if IsStandard(fmt) then GetTimeSpanPattern(kind, fmt).value else format, format[2..])
        else
          (format, zeroDisplay)
      else
        (if IsStandard(fmt) then GetTimeSpanPattern(kind, fmt).value else format, zeroDisplay)
    }

    /** The patterns of all standard formats, in the order `c g G f x j`. */
    function AllTimeSpanPatterns(kind: PatternType): (r: seq<string>)
      reads this
      ensures |r| == |StandardFormats|
      ensures forall i :: 0 <= i < |r| ==> r[i] == GetTimeSpanPattern(kind, StandardFormats[i]).value
    {
      [DefaultPattern, shortPattern, longPattern,
       if kind == ForFormatting then culture.wordFormat else culture.wordPattern,
       Iso8601Pattern,
       if kind == ForFormatting then culture.jiraFormat else culture.jiraPattern]
    }

    /** `GetAllTimeSpanPatterns`: one pattern per standard letter. */
    method GetAllTimeSpanPatterns(kind: PatternType) returns (r: seq<string>)
      ensures r == AllTimeSpanPatterns(kind)
    {
      r := [];
      var i := 0;
      while i < |StandardFormats|
        invariant i <= |StandardFormats|
        invariant r == AllTimeSpanPatterns(kind)[..i]
      {
        var p := GetTimeSpanPattern(kind, StandardFormats[i]);
        r := r + [p.value];
        i := i + 1;
      }
    }

    /** `FormatTimeSpan`: resolve the format, then format with the pattern; an empty pattern
        falls back to the zero text or the platform's text. */
    function FormatOf(core: TimeSpan2, format: string): Result<string>
      reads this
    {
      var (cFormat, zeroFormat) := CustomFormatString(ForFormatting, format);
      if cFormat == "" then
        Ok(if core.IsZero() then zeroFormat else platform.timeSpanText(core.ticks))
      else
        CustomFormatOf(core, cFormat, zeroFormat, culture, platform)
    }

    /** The patterns a list of formats resolves to for input. */
    ghost function TriedPatterns(formats: seq<string>): set<string>
      reads this
    {
      set f | f in formats :: CustomFormatString(ForParsing, f).0
    }

    /** `TryParseExact`: the formats in order; the first whose expression matches `s` and
        whose captures make a duration wins. A format whose pattern is empty hands `s` to the
        platform's parser and ends the search. A pattern the grammar refuses, or a tree the
        builder cannot make, raises. Failure yields zero. */
    function TryParseExactOf(s: string, formats: seq<string>): Result<(bool, TimeSpan2)>
      reads this
    {
      FirstDecided(Decisions(s, formats))
    }

    /** The decision of each format, in order. */
    function Decisions(s: string, formats: seq<string>): (ds: seq<Decision>)
      reads this
      ensures |ds| == |formats| && forall i :: 0 <= i < |formats| ==> ds[i] == FormatDecision(s, formats[i])
    {
      seq(|formats|, i requires 0 <= i < |formats| reads this => FormatDecision(s, formats[i]))
    }

    /** What trying one format decides: the platform's parser for a standard format, the
        exception of a pattern that fails, the duration of a pattern that reads `s`; None to
        go on with the next format. */
    function FormatDecision(s: string, format: string): Decision
      reads this
    {
      var cFormat := CustomFormatString(ForParsing, format).0;
      if cFormat == "" then
        Some(Ok(match platform.timeSpanTryParse(s) case Some(t) => (true, TimeSpan2(t)) case None => (false, Zero)))
      else
        match PatternAttempt(s, cFormat, culture, platform)
        case Err(e) => Some(Err(e))
        case Ok(a) => if a.Some? then Some(Ok((true, a.value))) else None
    }

    /** A custom pattern decides only by raising or by reading a duration. */
    lemma PatternDecides(s: string, format: string)
      requires CustomFormatString(ForParsing, format).0 != ""
      ensures Decisive(FormatDecision(s, format))
    {
    }

    /** A format that fails to read `s` without raising yields zero. */
    lemma FailureYieldsZero(s: string, format: string)
      ensures FailsWithZero(FormatDecision(s, format))
    {
    }

    /** `TryParse`: the trimmed text against every standard pattern for input; failing that,
        the zero text (case ignored) reads as zero. Blank text fails. */
    function TryParseOf(s: string): Result<(bool, TimeSpan2)>
      reads this
    {
      var t := Trim(s);
      if t == "" then Ok((false, Zero))
      else
        var r :- TryParseExactOf(t, AllTimeSpanPatterns(ForParsing));
        if r.0 then Ok(r)
        else if zeroDisplay != "" && EqualsIgnoreCase(t, zeroDisplay) then Ok((true, r.1))
        else Ok((false, r.1))
    }

    /** `Parse`: ArgumentNullException for empty text, FormatException when `TryParse` fails. */
    function ParseOf(s: string): Result<TimeSpan2>
      reads this
    {
      if s == "" then Err(ArgumentNullException)
      else
        var r :- TryParseOf(s);
        if r.0 then Ok(r.1) else Err(FormatException)
    }

    /** `ParseExact`: FormatException when `TryParseExact` fails. */
    function ParseExactOf(s: string, formats: seq<string>): Result<TimeSpan2>
      reads this
    {
      var r :- TryParseExactOf(s, formats);
      if r.0 then Ok(r.1) else Err(FormatException)
    }

    // ----- the operations, with the pattern cache -----

    /** `CustomFormat`. */
    method CustomFormat(core: TimeSpan2, format: string, zeroFormat: string) returns (r: Result<string>)
      requires patterns.Valid()
      modifies patterns
      ensures patterns.Valid()
      ensures patterns.entries == if core.IsZero() then old(patterns.entries) else Cached(old(patterns.entries), format)
      ensures r == CustomFormatOf(core, format, zeroFormat, culture, platform)
    {
      if core.IsZero() {
        var z := ZeroSuffix(format);
        return Ok(if z.Some? then z.value else zeroFormat);
      }
      var m := patterns.ValidateCustomPattern(format);
      if m.Err? {
        return Err(m.error);
      }
      var head := GetParsedTokens(format, m.value);
      if head.Err? {
        return Err(head.error);
      }
      if head.value.Leaf? {
        return Err(FormatException);
      }
      var root := head.value.(children := RemoveFirstZero(head.value.children));
      var out := ProcessFormatEntity(root, core, culture, platform);
      if out.Err? {
        return Err(out.error);
      }
      return Ok(out.value.text);
    }

    /** `FormatTimeSpan`. */
    method FormatTimeSpan(core: TimeSpan2, format: string) returns (r: Result<string>)
      requires patterns.Valid()
      modifies patterns
      ensures patterns.Valid()
      ensures var cFormat := CustomFormatString(ForFormatting, format).0;
        patterns.entries == if cFormat == "" || core.IsZero() then old(patterns.entries)
                            else Cached(old(patterns.entries), cFormat)
      ensures r == FormatOf(core, format)
    {
      var (cFormat, zeroFormat) := CustomFormatString(ForFormatting, format);
      if cFormat == "" {
        return Ok(if core.IsZero() then zeroFormat else platform.timeSpanText(core.ticks));
      }
      r := CustomFormat(core, cFormat, zeroFormat);
    }

    /** One turn of the loop of `TryParseExact`: the platform's parser for a standard
        format; otherwise the pattern, checked and kept in the cache, its expression matched
        against `s` and the captures read. */
    method TryFormat(s: string, format: string) returns (d: Decision)
      requires patterns.Valid()
      modifies patterns
      ensures patterns.Valid()
      ensures var cFormat := CustomFormatString(ForParsing, format).0;
        patterns.entries == if cFormat == "" then old(patterns.entries) else Cached(old(patterns.entries), cFormat)
      ensures d == FormatDecision(s, format)
    {
      var cFormat := CustomFormatString(ForParsing, format).0;
      if cFormat == "" {
        var t := platform.timeSpanTryParse(s);
        return Some(Ok(if t.Some? then (true, TimeSpan2(t.value)) else (false, Zero)));
      }
      var m := patterns.ValidateCustomPattern(cFormat);
      if m.Err? {
        return Some(Err(m.error));
      }
      var pExp := BuildParsingExpression(cFormat, m.value, culture);
      if pExp.Err? {
        return Some(Err(pExp.error));
      }
      var p := platform.regexMatch(s, pExp.value);
      if p.None? {
        return None;
      }
      var v := TimeSpanFromParseMatch(p.value, culture, platform);
      return if v.Ok? then Some(Ok((true, v.value))) else None;
    }

    /** `TryParseExact`, with the loop over the formats. */
    method TryParseExact(s: string, formats: seq<string>) returns (r: Result<(bool, TimeSpan2)>)
      requires patterns.Valid()
      modifies patterns
      ensures patterns.Valid()
      ensures old(patterns.entries).Keys <= patterns.entries.Keys <= old(patterns.entries).Keys + TriedPatterns(formats)
      ensures r == TryParseExactOf(s, formats)
    {
      ghost var ds := Decisions(s, formats);
      var i := 0;
      while i < |formats|
        invariant i <= |formats|
        invariant patterns.Valid()
        invariant old(patterns.entries).Keys <= patterns.entries.Keys <= old(patterns.entries).Keys + TriedPatterns(formats)
        invariant TryParseExactOf(s, formats) == FirstDecided(ds[i..])
      {
        FirstDecidedStep(ds, i);
        assert CustomFormatString(ForParsing, formats[i]).0 in TriedPatterns(formats) by {
          assert formats[i] in formats;
        }
        var d := TryFormat(s, formats[i]);
        if d.Some? {
          return d.value;
        }
        i := i + 1;
      }
      return Ok((false, Zero));
    }

    /** `TryParse`. */
    method TryParse(s: string) returns (r: Result<(bool, TimeSpan2)>)
      requires patterns.Valid()
      modifies patterns
      ensures patterns.Valid()
      ensures old(patterns.entries).Keys <= patterns.entries.Keys
              <= old(patterns.entries).Keys + TriedPatterns(AllTimeSpanPatterns(ForParsing))
      ensures r == TryParseOf(s)
    {
      var t := Trim(s);
      if t == "" {
        return Ok((false, Zero));
      }
      var all := GetAllTimeSpanPatterns(ForParsing);
      var e := TryParseExact(t, all);
      if e.Err? || e.value.0 {
        return e;
      }
      if zeroDisplay != "" && EqualsIgnoreCase(t, zeroDisplay) {
        return Ok((true, e.value.1));
      }
      return Ok((false, e.value.1));
    }

    /** `Parse`. */
    method Parse(s: string) returns (r: Result<TimeSpan2>)
      requires patterns.Valid()
      modifies patterns
      ensures patterns.Valid()
      ensures old(patterns.entries).Keys <= patterns.entries.Keys
              <= old(patterns.entries).Keys + TriedPatterns(AllTimeSpanPatterns(ForParsing))
      ensures r == ParseOf(s)
    {
      if s == "" {
        return Err(ArgumentNullException);
      }
      var e := TryParse(s);
      if e.Err? {
        return Err(e.error);
      }
      if !e.value.0 {
        return Err(FormatException);
      }
      return Ok(e.value.1);
    }

    /** `ParseExact`. */
    method ParseExact(s: string, formats: seq<string>) returns (r: Result<TimeSpan2>)
      requires patterns.Valid()
      modifies patterns
      ensures patterns.Valid()
      ensures old(patterns.entries).Keys <= patterns.entries.Keys <= old(patterns.entries).Keys + TriedPatterns(formats)
      ensures r == ParseExactOf(s, formats)
    {
      var e := TryParseExact(s, formats);
      if e.Err? {
        return Err(e.error);
      }
      if !e.value.0 {
        return Err(FormatException);
      }
      return Ok(e.value.1);
    }

    // ----- properties -----

    /** How a format string resolves: a standard letter alone, or followed by `;text`,
        selects its pattern (with `text` for zero); `;text` selects the default pattern; any
        other string is its own pattern, with the instance's zero text. */
    lemma FormatResolution(kind: PatternType, format: string)
      ensures format == "" ==> CustomFormatString(kind, format) == (DefaultPattern, zeroDisplay)
      ensures |format| == 1 && IsStandard(format[0])
              ==> CustomFormatString(kind, format) == (GetTimeSpanPattern(kind, format[0]).value, zeroDisplay)
      ensures |format| >= 2 && IsStandard(format[0]) && format[1] == ';'
              ==> CustomFormatString(kind, format) == (GetTimeSpanPattern(kind, format[0]).value, format[2..])
      ensures |format| >= 2 && format[0] == ';' ==> CustomFormatString(kind, format) == (DefaultPattern, format[1..])
      ensures (|format| == 1 && !IsStandard(format[0]))
              || (|format| >= 2 && format[0] != ';' && !IsStandard(format[0]))
              || (|format| >= 2 && format[1] != ';' && format[0] != ';')
              ==> CustomFormatString(kind, format).0 == format
    {
    }

    /** A zero duration never raises, whatever the pattern: it shows the pattern's own zero
        text when the pattern ends in one, and the resolved zero text otherwise. */
    lemma ZeroNeverFails(format: string, zeroFormat: string)
      ensures CustomFormatOf(Zero, format, zeroFormat, culture, platform).Ok?
      ensures ZeroSuffix(format).Some? ==> CustomFormatOf(Zero, format, zeroFormat, culture, platform) == Ok(ZeroSuffix(format).value)
      ensures ZeroSuffix(format).None? ==> CustomFormatOf(Zero, format, zeroFormat, culture, platform) == Ok(zeroFormat)
    {
    }

    /** `;text` shows `text` for a zero duration: the default pattern has no zero text. */
    lemma ZeroTextOverride(z: string)
      requires z != ""
      ensures FormatOf(Zero, ";" + z) == Ok(z)
    {
      assert CustomFormatString(ForFormatting, ";" + z) == (DefaultPattern, z);
      assert ';' !in DefaultPattern by {
        forall k | 0 <= k < |DefaultPattern|
          ensures DefaultPattern[k] != ';'
        {
        }
      }
    }

    /** The ISO 8601 format `x` shows zero as `PT0S`, whatever the instance's zero text. */
    lemma IsoZero()
      ensures FormatOf(Zero, "x") == Ok("PT0S")
    {
      var p := Iso8601Pattern;
      assert CustomFormatString(ForFormatting, "x") == (p, zeroDisplay);
      assert LastIndex(p, ';') == Some(33) by {
        assert p[33] == ';' && p[34..] == "PT0S";
        LastIndexIs(p, ';', 33);
      }
      assert p[34..34 + 4] == "PT0S" && p[34 + 4..] == [];
      assert ZeroRun(p, 34) == 4 by {
        ZeroRunAll(p, 34);
      }
    }

    /** The rendering of a nonzero duration is empty when no number in the pattern is
        nonzero: the root keeps its text only when a nonzero number was found. */
    lemma NothingNonZeroRendersEmpty(core: TimeSpan2, format: string, zeroFormat: string)
      requires !core.IsZero()
      requires Scan(format).Some? && !AnyNonZero(Scan(format).value.tokens, core, platform)
      requires CustomFormatOf(core, format, zeroFormat, culture, platform).Ok?
      ensures CustomFormatOf(core, format, zeroFormat, culture, platform) == Ok("")
    {
      var s := Scan(format).value;
      var head := BuildTree(format, s).value;
      TreeKeepsTokens(format, s);
      RemoveFirstZeroTokens(head.children, core, platform);
      var root := Node(head.isRoot, head.start, head.length, RemoveFirstZero(head.children));
      EntityFound(root, core, culture, platform);
    }

    /** A failed attempt leaves zero as the result. */
    lemma FailureIsZero(s: string, formats: seq<string>)
      requires TryParseExactOf(s, formats).Ok? && !TryParseExactOf(s, formats).value.0
      ensures TryParseExactOf(s, formats).value.1 == Zero
    {
      var ds := Decisions(s, formats);
      forall i | 0 <= i < |ds|
        ensures FailsWithZero(ds[i])
      {
        FailureYieldsZero(s, formats[i]);
      }
      FirstDecidedZero(ds);
    }

    /** Formats are tried in order and the first that decides wins: unless some format of `a`
        defers to the platform's parser, `a + b` gives what `a` gives when `a` succeeds or
        raises, and what `b` gives otherwise. */
    lemma FirstFormatWins(s: string, a: seq<string>, b: seq<string>)
      requires forall i :: 0 <= i < |a| ==> CustomFormatString(ForParsing, a[i]).0 != ""
      ensures var ra := TryParseExactOf(s, a);
        TryParseExactOf(s, a + b) == if ra.Ok? && !ra.value.0 then TryParseExactOf(s, b) else ra
    {
      var da, db := Decisions(s, a), Decisions(s, b);
      assert Decisions(s, a + b) == da + db;
      forall i | 0 <= i < |da|
        ensures Decisive(da[i])
      {
        PatternDecides(s, a[i]);
      }
      FirstDecidedAppend(da, db);
    }

    /** Blank text never parses. */
    lemma BlankFails(s: string)
      requires AllWhite(s)
      ensures TryParseOf(s) == Ok((false, Zero))
    {
    }

    /** The zero text, in any letter case and with white space around it, parses as zero
        when no standard pattern reads it. */
    lemma ZeroDisplayParses(s: string)
      requires zeroDisplay != "" && EqualsIgnoreCase(Trim(s), zeroDisplay)
      requires TryParseExactOf(Trim(s), AllTimeSpanPatterns(ForParsing)) == Ok((false, Zero))
      ensures TryParseOf(s) == Ok((true, Zero))
    {
    }

    /** `Parse` succeeds exactly when `TryParse` does, with the same duration; empty text
        raises ArgumentNullException and text `TryParse` rejects raises FormatException. */
    lemma ParseAgreesWithTryParse(s: string, v: TimeSpan2)
      ensures ParseOf(s) == Ok(v) <==> s != "" && TryParseOf(s) == Ok((true, v))
      ensures s == "" ==> ParseOf(s) == Err(ArgumentNullException)
      ensures s != "" && TryParseOf(s).Ok? && !TryParseOf(s).value.0 ==> ParseOf(s) == Err(FormatException)
    {
    }

    /** `ParseExact` succeeds exactly when `TryParseExact` does, with the same duration. */
    lemma ParseExactAgreesWithTryParseExact(s: string, formats: seq<string>, v: TimeSpan2)
      ensures ParseExactOf(s, formats) == Ok(v) <==> TryParseExactOf(s, formats) == Ok((true, v))
      ensures TryParseExactOf(s, formats) == Ok((false, Zero)) ==> ParseExactOf(s, formats) == Err(FormatException)
    {
    }
  }

  /** What trying one format decides; None to go on with the next format. */
  type Decision = Option<Result<(bool, TimeSpan2)>>

  /** The first decision made, in order; a failure with zero when none is made. */
  function FirstDecided(ds: seq<Decision>): Result<(bool, TimeSpan2)> {
    if ds == [] then Ok((false, Zero))
    else
      match ds[0]
      case Some(r) => r
      case None => FirstDecided(ds[1..])
  }

  /** One step of the search: the decision at `i`, or the search from `i + 1`. */
  lemma FirstDecidedStep(ds: seq<Decision>, i: nat)
    requires i < |ds|
    ensures FirstDecided(ds[i..]) == match ds[i] case Some(r) => r case None => FirstDecided(ds[i + 1..])
  {
    assert ds[i..][0] == ds[i] && ds[i..][1..] == ds[i + 1..];
  }

  /** A decision that is not a failure: none at all, an exception, or a success. */
  predicate Decisive(d: Decision) {
    d.None? || d.value.Err? || d.value.value.0
  }

  /** A decision that, when it is a failure, is a failure with zero. */
  predicate FailsWithZero(d: Decision) {
    d.Some? && d.value.Ok? && !d.value.value.0 ==> d.value.value.1 == Zero
  }

  /** The first decision of a concatenation is that of its first part, unless the first part
      makes none. */
  lemma {:induction false} FirstDecidedAppend(ds: seq<Decision>, es: seq<Decision>)
    requires forall i :: 0 <= i < |ds| ==> Decisive(ds[i])
    ensures var r := FirstDecided(ds);
      FirstDecided(ds + es) == if r.Ok? && !r.value.0 then FirstDecided(es) else r
    decreases |ds|
  {
    if ds == [] {
      assert ds + es == es;
    } else {
      assert (ds + es)[0] == ds[0] && (ds + es)[1..] == ds[1..] + es;
      if ds[0].None? {
        FirstDecidedAppend(ds[1..], es);
      }
    }
  }

  /** No decision fails with anything but zero, so neither does the first. */
  lemma {:induction false} FirstDecidedZero(ds: seq<Decision>)
    requires forall i :: 0 <= i < |ds| ==> FailsWithZero(ds[i])
    ensures var r := FirstDecided(ds); r.Ok? && !r.value.0 ==> r.value.1 == Zero
    decreases |ds|
  {
    if ds != [] && ds[0].None? {
      FirstDecidedZero(ds[1..]);
    }
  }

  /** One pattern tried on `s`: FormatException when the grammar refuses the pattern, the
      tree builder's exception, no duration when the expression does not match or the
      captures make no duration (the source swallows that exception), else the duration. */
  function PatternAttempt(s: string, cFormat: string, c: Culture, pf: Platform): Result<Option<TimeSpan2>> {
    match Scan(cFormat)
    case None => Err(FormatException)
    case Some(m) =>
      var pExp :- ParsingExpression(cFormat, m, c);
      match pf.regexMatch(s, pExp)
      case None => Ok(None)
      case Some(caps) =>
        match FromCaptures(caps, c, pf)
        case Ok(v) => Ok(Some(v))
        case Err(_) => Ok(None)
  }

  // ----- helpers -----

  /** `List.Remove` takes out the first zero-text child and keeps the others in order, */
  lemma {:induction false} RemoveFirstZeroAt(cs: seq<Entity>, i: nat)
    requires i < |cs| && IsLeafNamed(cs[i], ZeroText)
    requires forall j :: 0 <= j < i ==> !IsLeafNamed(cs[j], ZeroText)
    ensures RemoveFirstZero(cs) == cs[..i] + cs[i + 1..]
  {
    if i > 0 {
      assert !IsLeafNamed(cs[0], ZeroText);
      RemoveFirstZeroAt(cs[1..], i - 1);
      assert cs[1..][..i - 1] == cs[1..i] && cs[1..][i..] == cs[i + 1..];
      assert cs[..i] == [cs[0]] + cs[1..i];
    }
  }

  /** and leaves the children as they are when none is zero text. */
  lemma {:induction false} RemoveFirstZeroNone(cs: seq<Entity>)
    requires forall k :: 0 <= k < |cs| ==> !IsLeafNamed(cs[k], ZeroText)
    ensures RemoveFirstZero(cs) == cs
  {
    if cs != [] {
      assert !IsLeafNamed(cs[0], ZeroText);
      RemoveFirstZeroNone(cs[1..]);
      assert cs == [cs[0]] + cs[1..];
    }
  }

  /** Removing the zero text loses no number: the children hold a nonzero number exactly
      when they did before. */
  lemma {:induction false} RemoveFirstZeroTokens(cs: seq<Entity>, core: TimeSpan2, pf: Platform)
    ensures AnyNonZero(FlattenAll(RemoveFirstZero(cs)), core, pf) <==> AnyNonZero(FlattenAll(cs), core, pf)
    decreases |cs|
  {
    if cs != [] {
      AnyNonZeroAppend(Flatten(cs[0]), FlattenAll(cs[1..]), core, pf);
      if IsLeafNamed(cs[0], ZeroText) {
        assert !AnyNonZero(Flatten(cs[0]), core, pf) by {
          assert Flatten(cs[0]) == [cs[0].token];
        }
      } else {
        var r := [cs[0]] + RemoveFirstZero(cs[1..]);
        assert r[0] == cs[0] && r[1..] == RemoveFirstZero(cs[1..]);
        RemoveFirstZeroTokens(cs[1..], core, pf);
        AnyNonZeroAppend(Flatten(cs[0]), FlattenAll(RemoveFirstZero(cs[1..])), core, pf);
      }
    }
  }

  lemma {:induction false} ZeroRunAll(p: string, i: nat)
    requires i <= |p| && forall k :: i <= k < |p| ==> IsZeroChar(p[k])
    ensures ZeroRun(p, i) == |p| - i
    decreases |p| - i
  {
    if i < |p| {
      ZeroRunAll(p, i + 1);
    }
  }
}
