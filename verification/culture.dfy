/** The culture-dependent strings and the .NET runtime services the duration engine
    consults. The model passes them in as values: `Culture` holds what the source reads
    from `CultureInfo` and from its localized resources, and `Platform` stands for the
    library routines whose behaviour is not part of this model (regular-expression
    matching of input text, `TimeSpan.TryParse`/`ToString`, and double rendering). */
module Cultures {
  import opened Wrappers
  import Spans

  /** The six units a duration is spoken of in. */
  datatype Unit = Day | Hour | Minute | Second | Millisecond | Tick

  /** One string per unit, as the resources hold them (e.g. `TimeSpanOneDayFormat`). */
  datatype UnitStrings = UnitStrings(day: string, hour: string, minute: string, second: string,
                                     millisecond: string, tick: string)
  {
    function Get(u: Unit): string {
      match u
      case Day => day
      case Hour => hour
      case Minute => minute
      case Second => second
      case Millisecond => millisecond
      case Tick => tick
    }
  }

  /** The letter a pattern uses for a unit, and back (`d h m s k t`). */
  function UnitLetter(u: Unit): (c: char)
    ensures LetterUnit(c) == Some(u)
  {
    match u
    case Day => 'd'
    case Hour => 'h'
    case Minute => 'm'
    case Second => 's'
    case Millisecond => 'k'
    case Tick => 't'
  }

  function LetterUnit(c: char): Option<Unit> {
    if c == 'd' then Some(Day)
    else if c == 'h' then Some(Hour)
    else if c == 'm' then Some(Minute)
    else if c == 's' then Some(Second)
    else if c == 'k' then Some(Millisecond)
    else if c == 't' then Some(Tick)
    else None
  }

  /** Culture and resource strings.
      `one`/`many`: the singular and plural templates per unit (`TimeSpanOneDayFormat`, ...);
      `words`: the comma-separated synonyms per unit (`TimeSpanDayStrings`, ...);
      `listSeparator`: `TimeSpanSeparator`; `buildOrder`: `TimeSpanFullBuildOrder`;
      `wordFormat`/`wordPattern`, `jiraFormat`/`jiraPattern`: the resource patterns of the
      `f` and `j` standard formats; `parseRegEx`: the earlier parser's `TimeSpanParseRegEx`. */
  datatype Culture = Culture(
    negativeSign: string,
    timeSeparator: string,
    decimalSeparator: string,
    listSeparator: string,
    one: UnitStrings,
    many: UnitStrings,
    words: UnitStrings,
    buildOrder: string,
    wordPatternIgnoreCase: bool,
    wordFormat: string,
    wordPattern: string,
    jiraFormat: string,
    jiraPattern: string,
    parseRegEx: string)
  {
    /** .NET refuses an empty `NumberDecimalSeparator`, so every culture has one. */
    predicate Valid() {
      decimalSeparator != ""
    }
  }

  /** Named captures of a successful regular-expression match: group name to the value of
      its last capture; groups that did not participate are absent. */
  type Captures = map<string, string>

  /** Library services outside the model, as total functions:
      `regexMatch(input, expression)`: `Regex.Match` of a compiled parse expression;
      `legacyMatch(input)`: the earlier parser's match against its resource expression;
      `timeSpanTryParse`/`timeSpanText`: `TimeSpan.TryParse` and `TimeSpan.ToString()`;
      `doubleText(name, text, x)`: the text of a double-valued leaf (a `Total*` value, `p`,
      `w`, or an integer of magnitude 10^15 or more) as `GetStringValue` renders it;
      `pNonZero(ticks)`: `TotalSeconds % 60 != 0`;
      `fractionRound(digits)`: `Math.Round(double.Parse("0." + digits) * 1e7)` for more
      than seven digits; `pSeconds(text)`: the whole seconds and fraction ticks of a `p`
      capture outside the range where the double arithmetic is exact;
      `totalText(letter, ticks)`: the earlier formatter's text of a duration counted in one
      unit as a double (`TotalSeconds` for `s`, ..., `TotalMilliseconds` for `t`), filled
      into that unit's one or many template. */
  datatype Platform = Platform(
    regexMatch: (string, string) -> Option<Captures>,
    legacyMatch: string -> Option<Captures>,
    timeSpanTryParse: string -> Option<Spans.Int64>,
    timeSpanText: Spans.Int64 -> string,
    doubleText: (string, string, int) -> string,
    pNonZero: int -> bool,
    fractionRound: string -> Spans.Int64,
    pSeconds: string -> (Spans.Int32, Spans.Int64),
    totalText: (char, Spans.Int64) -> string)
}
