# TimeSpan2 duration patterns, in Dafny

This project models the duration-pattern engine of TimeSpan2, which has three parts.

- **`TimeSpan2FormatInfo`** (`TimeSpan2.Core/TimeSpanFormatInfo.cs`) is a small compiler and interpreter for a duration pattern language:
  - resolving the standard format codes `c g G f j x` and the `;zero-text` suffixes;
  - scanning a pattern into tokens and `[ ]` optional groups;
  - building the token tree;
  - rendering a duration through the tree, with group suppression and separator rules;
  - compiling the tree into a parse expression;
  - rebuilding a duration from the named captures of a match;
  - the `TryParseExact` / `TryParse` / `Parse` / `ParseExact` drivers with their cache of validated patterns.
- **The earlier `TimeSpanFormatInfo`** (`TimeSpan2/TimeSpanFormatInfo.cs`) covers:
  - the zero-text override;
  - the verbose `f` format: one localized piece per positive component, ordered by the culture's build order;
  - `TryParse` with its word-to-letter pass;
  - `Parse`.
- **`TimeSpan2`** (`TimeSpan2/TimeSpan2.cs`) is the duration value itself: one signed 64-bit tick count, with component getters, arithmetic and comparisons.

## Modules

| file | module | what it holds |
|---|---|---|
| `wrappers.dfy` | `Wrappers` | `Option`, `Result` and the .NET exception kinds |
| `strings.dfy` | `Strings` | the string and number primitives the engine uses:<br>• `Trim`, `Split`, `Join`, `IndexOf`<br>• `StringBuilder.Replace`<br>• `int.Parse` of digit runs<br>• zero-padded number text |
| `timespan2.dfy` | `Spans` | the `TimeSpan2` value:<br>• C# truncating `/` and `%`<br>• the components, `Add`, `Subtract`, `Negate`, `Duration`, the comparisons<br>• the constructors |
| `culture.dfy` | `Cultures` | the culture resources as one record<br>the library services outside the model as a record of functions (`Platform`) |
| `scanner.dfy` | `Patterns` | a hand-written scanner equivalent to the pattern grammar (core lines 28-30)<br>the quick zero-text check of `CustomFormat` |
| `tree.dfy` | `Trees` | `GetParsedTokens`: sort the captures, then splice each bracket span into a group |
| `formatter.dfy` | `Formatting` | `ProcessFormatEntity`, `GetStringValue`, `GetValueForGroup`, `GetCultureString` |
| `parse_expr.dfy` | `Expressions` | `ProcessParseEntity`, `GetVerboseParseString`, `Regex.Escape` |
| `reconstruct.dfy` | `Reconstruction` | `TimeSpanFromParseMatch` |
| `format_info.dfy` | `FormatInfo` | the class `TimeSpan2FormatInfo`, holding:<br>• format resolution, `CustomFormat`, `FormatTimeSpan`<br>• the parse drivers<br>• the `PatternCache` class for `ValidateCustomPattern` |
| `legacy.dfy` | `Legacy` | the earlier class `TimeSpanFormatInfo` |

## How the model is built

- **Imperative code stays imperative.** Some source routines change state step by step:
  - the `StringBuilder` loops with their flags;
  - the list splicing in the tree builder;
  - the update sequence of `TimeSpanFromParseMatch`;
  - the format loop of `TryParseExact`;
  - the pattern cache;
  - the `vals` array of the full format;
  - the word pass.

  Each of these is a Dafny `method` with its loop invariants. It is proved equal to a function that specifies it, and the properties are proved about that function.
- **Mutated fields become return values.** The fields that `ProcessFormatEntity` and `ProcessParseEntity` write into each node (`output`) are returned as values instead.
- **Regex matches are capture maps.** A match is a map from group name to the value of its last capture.
- **Negative `f`/`F` leaves are kept as written.** A negative duration's `f`/`F` leaf is modelled as the code renders it: `Substring(2)` of `"-0.ddddddd"` is off by one. See `Formatting.NegativeFractionShifted`.
- **The `n` capture is never read.** `Reconstruction.UnreadGroupsIgnored` states this, so a parsed sign is lost. Parsed durations are therefore never negative unless the weeks product wraps: `d += w * 7` is unchecked int arithmetic, and `Reconstruction.WeeksWrapNegative` shows `w` = 613566756 reading as -4 days.

## Where the description and the code differ

The model follows the code in each case.

- **`CustomFormat`'s zero check matches `post` unanchored** (core lines 382-386):
  - it finds a zero text only after the last `;` of the pattern;
  - the resolved zero text is never null, so a zero duration always returns at line 386;
  - the later `z` test at lines 399-403 is therefore never reached with a zero duration.
- **The old `TryParse` stores the `t` group in the seconds** (legacy line 168). `Legacy.CapturesValueAsWritten` reads the captures as the code does, and `TryParseOf` and `TryParse` use it. `Legacy.CapturesValue` is the intended reading, kept beside it; see `## Findings`.

## Model

| member | source | states |
|---|---|---|
| `Spans.Quot` | TimeSpan2/TimeSpan2.cs:119-172 | C# integer division truncates toward zero: for a dividend `a >= 0` the quotient is the largest `q >= 0` with `q·b <= a`; for `a < 0` it is the smallest `q <= 0` with `q·b >= a` |
| `Spans.Rem` | TimeSpan2/TimeSpan2.cs:119-172 | C# remainder: quotient times divisor plus remainder is the dividend; the remainder carries the dividend's sign and lies within the divisor |
| `Spans.CompareTicks` | TimeSpan2/TimeSpan2.cs:375-378 | -1, 0, 1 exactly for less, equal, greater |
| `Spans.TimeSpan2.IsZero` | TimeSpan2/TimeSpan2.cs:139-142 | holds exactly for the zero duration |
| `Spans.TimeSpan2.Days` | TimeSpan2/TimeSpan2.cs:119-122 | whole days truncated toward zero: bracketed by the day multiples on the value's side of zero |
| `Spans.TimeSpan2.Hours` | TimeSpan2/TimeSpan2.cs:129-132 | hours lie in -23..23, with the sign of the value |
| `Spans.TimeSpan2.Minutes` | TimeSpan2/TimeSpan2.cs:159-162 | minutes lie in -59..59, with the sign of the value |
| `Spans.TimeSpan2.Seconds` | TimeSpan2/TimeSpan2.cs:169-172 | seconds lie in -59..59, with the sign of the value |
| `Spans.TimeSpan2.Milliseconds` | TimeSpan2/TimeSpan2.cs:149-152 | milliseconds lie in -999..999, with the sign of the value |
| `Spans.TimeSpan2.Add` | TimeSpan2/TimeSpan2.cs:558-561 | the tick sum, succeeding iff it stays in the 64-bit range; otherwise OverflowException |
| `Spans.TimeSpan2.Subtract` | TimeSpan2/TimeSpan2.cs:779-782 | the tick difference, succeeding iff it stays in range; otherwise OverflowException |
| `Spans.TimeSpan2.Negate` | TimeSpan2/TimeSpan2.cs:769-772 | the opposite tick count; OverflowException exactly for MinValue |
| `Spans.TimeSpan2.Duration` | TimeSpan2/TimeSpan2.cs:620-623 | a non-negative value of the same magnitude; OverflowException exactly for MinValue |
| `Spans.TimeSpan2.CompareTo` | TimeSpan2/TimeSpan2.cs:594-597 | -1, 0, 1 exactly when shorter, equal, longer |
| `Spans.TimeSpan2.Equals` | TimeSpan2/TimeSpan2.cs:642-645 | equality holds iff `CompareTo` gives 0 |
| `Spans.Plus` | TimeSpan2/TimeSpan2.cs:270-273 | unary `+` keeps the tick count |
| `Spans.Compare` | TimeSpan2/TimeSpan2.cs:375-378 | -1, 0, 1 exactly when the first is shorter, equal, longer |
| `Spans.Less` | TimeSpan2/TimeSpan2.cs:313-316 | `<` holds iff `Compare` gives -1 |
| `Spans.LessOrEqual` | TimeSpan2/TimeSpan2.cs:324-327 | `<=` holds iff `Compare` is not 1 |
| `Spans.Greater` | TimeSpan2/TimeSpan2.cs:346-349 | `>` holds iff `Compare` gives 1 |
| `Spans.GreaterOrEqual` | TimeSpan2/TimeSpan2.cs:357-360 | `>=` holds iff `Compare` is not -1 |
| `Spans.FromHms` | TimeSpan2/TimeSpan2.cs:74-77 | whole seconds of h:m:s; ArgumentOutOfRangeException exactly when the total leaves the tick range |
| `Spans.FromDhmsm` | TimeSpan2/TimeSpan2.cs:99-102 | whole milliseconds of d.h:m:s.ms; ArgumentOutOfRangeException exactly when the total leaves the range |
| `Spans.FromDhms` | TimeSpan2/TimeSpan2.cs:86-89 | the four-argument constructor equals the five-argument one with 0 milliseconds |
| `Spans.Decomposition` | TimeSpan2/TimeSpan2.cs:119-172 | the components times their tick sizes plus the sub-millisecond remainder add up to the ticks |
| `Spans.ComponentsRoundTrip` | TimeSpan2/TimeSpan2.cs:99-172 | rebuilding from the five components gives the value truncated to whole milliseconds |
| `Spans.WholeSecondsRoundTrip` | TimeSpan2/TimeSpan2.cs:86-172 | for a non-negative value, the four-argument constructor rebuilds the whole seconds; the sub-second rest is milliseconds plus ticks |
| `Spans.AddSubtractInverse` | TimeSpan2/TimeSpan2.cs:558-561 | subtracting what was added gives the original back |
| `Spans.CompareAntisymmetric` | TimeSpan2/TimeSpan2.cs:375-378 | swapping the arguments negates `Compare` |
| `Cultures.UnitLetter` | TimeSpan2.Core/TimeSpanFormatInfo.cs:424-449 | the pattern letter of each unit maps back to that unit |
| `Strings.Trim` | TimeSpan2.Core/TimeSpanFormatInfo.cs:297 | the result is the input minus a white prefix and a white suffix, and neither of its ends is white |
| `Strings.TrimEndZeros` | TimeSpan2.Core/TimeSpanFormatInfo.cs:534 | a prefix of the input, not ending in `0`, with only zeros cut off |
| `Strings.DecimalText` | TimeSpan2.Core/TimeSpanFormatInfo.cs:541 | nonempty digits; a single digit iff the number is below 10; a leading `0` only for zero itself |
| `Strings.DecimalTextValue` | TimeSpan2.Core/TimeSpanFormatInfo.cs:541 | reading the decimal text back gives the number |
| `Strings.ZeroPad` | TimeSpan2.Core/TimeSpanFormatInfo.cs:546 | the padded text has at least `width` characters, exactly the input's length when it was longer; its content is stated by `Strings.ZeroPadShape` |
| `Strings.ZeroPadShape` | TimeSpan2.Core/TimeSpanFormatInfo.cs:546 | the padded text is the input's digits, right-aligned, after nothing but `0`s, `max(len, width)` long |
| `Strings.ParseIntText` | TimeSpan2.Core/TimeSpanFormatInfo.cs:807 | `int.Parse` succeeds exactly on digit runs up to `int.MaxValue`; OverflowException for longer digit runs, FormatException otherwise |
| `Strings.PaddedTextParses` | TimeSpan2.Core/TimeSpanFormatInfo.cs:539-547 | a non-negative value rendered plain or zero-padded parses back to itself |
| `Strings.TrimEndZerosValue` | TimeSpan2.Core/TimeSpanFormatInfo.cs:532-535 | trailing zeros of fraction digits carry no value |
| `Strings.Split` | TimeSpan2/TimeSpanFormatInfo.cs:143 | at least one piece, none holding the separator |
| `Strings.JoinSplit` | TimeSpan2.Core/TimeSpanFormatInfo.cs:597 | joining a split with its separator gives the string back |
| `Strings.SplitJoin` | TimeSpan2.Core/TimeSpanFormatInfo.cs:597 | splitting a join gives the pieces back when no piece holds the separator |
| `Strings.IndexOf` | TimeSpan2/TimeSpanFormatInfo.cs:144 | the first occurrence; -1 exactly when there is none; the empty string occurs at 0 |
| `Strings.ReplaceAbsent` | TimeSpan2/TimeSpanFormatInfo.cs:144 | replacing an absent string changes nothing |
| `Strings.ReplaceAtFirst` | TimeSpan2/TimeSpanFormatInfo.cs:144 | once a unit word is found, replacing it keeps the text before the first occurrence `IndexOf` finds, puts the replacement for that occurrence, and resumes right after it |
| `Strings.ToLower` | TimeSpan2/TimeSpanFormatInfo.cs:142 | same length, each character lower-cased |
| `Patterns.RunOf` | TimeSpan2.Core/TimeSpanFormatInfo.cs:28 | the maximal run of one letter at an offset |
| `Patterns.DigitRun` | TimeSpan2.Core/TimeSpanFormatInfo.cs:28 | the maximal digit run at an offset (`D\d*`, `p\d*`) |
| `Patterns.ZeroRun` | TimeSpan2.Core/TimeSpanFormatInfo.cs:29 | the maximal run of zero-text characters `[ A-Za-z0-9,:()]` |
| `Patterns.Lexeme` | TimeSpan2.Core/TimeSpanFormatInfo.cs:28 | the token at an offset fits the shape of its grammar alternative |
| `Patterns.QuotedLexeme` | TimeSpan2.Core/TimeSpanFormatInfo.cs:28 | `'text'` up to the closing quote, which must exist |
| `Patterns.PercentLexeme` | TimeSpan2.Core/TimeSpanFormatInfo.cs:28 | `%x` for one specifier letter |
| `Patterns.RunLexeme` | TimeSpan2.Core/TimeSpanFormatInfo.cs:28 | a run of one unit letter always matches |
| `Patterns.SuffixLexeme` | TimeSpan2.Core/TimeSpanFormatInfo.cs:28 | a total letter or `p` with any digits always matches |
| `Patterns.VerboseLexeme` | TimeSpan2.Core/TimeSpanFormatInfo.cs:28 | `@x` for a unit letter |
| `Patterns.FractionLexeme` | TimeSpan2.Core/TimeSpanFormatInfo.cs:28 | two to seven `f`/`F`, or `%f`/`%F` |
| `Patterns.SymbolLexeme` | TimeSpan2.Core/TimeSpanFormatInfo.cs:28 | `,` `_` `:` `.` are one-character separator tokens |
| `Patterns.ScanBody` | TimeSpan2.Core/TimeSpanFormatInfo.cs:28 | the greedy body run stays within the pattern |
| `Patterns.Pre` | TimeSpan2.Core/TimeSpanFormatInfo.cs:30 | leading white space and at most one sign token |
| `Patterns.LastIndex` | TimeSpan2.Core/TimeSpanFormatInfo.cs:382 | the last occurrence of a character, or none at all |
| `Patterns.ZeroSuffixShape` | TimeSpan2.Core/TimeSpanFormatInfo.cs:382-386 | the quick zero check finds a nonempty run of zero-text characters |
| `Patterns.ScanProperties` | TimeSpan2.Core/TimeSpanFormatInfo.cs:28-33 | an accepted pattern's captures are in offset order, each taken from the pattern in its alternative's shape; each span runs from a `[` to its `]` |
| `Patterns.ScanCovers` | TimeSpan2.Core/TimeSpanFormatInfo.cs:28-33 | every offset of an accepted pattern is accounted for: leading white space, the stretch of a token (a sign, a quote with its quotes, an escape with its backslash), a span's `[` or `]`, the `;` before the zero text, or trailing white space; token stretches never overlap, no bracket lies inside one, and the spans are properly nested |
| `Patterns.ScanBalanced` | TimeSpan2.Core/TimeSpanFormatInfo.cs:28-33 | the spans of an accepted pattern are properly nested, and every `[` or `]` outside a token is an end of some span |
| `Patterns.Scan` | TimeSpan2.Core/TimeSpanFormatInfo.cs:28-33 | an accepted pattern's captures are in offset order and each is taken from the pattern before its end |
| `Patterns.ScanAccepts` | TimeSpan2.Core/TimeSpanFormatInfo.cs:28-33 | `hh`, `hh':'mm`, `[hh]` and the default pattern are accepted, with exactly their tokens (name, text, offset) and group spans |
| `Patterns.ScanRejects` | TimeSpan2.Core/TimeSpanFormatInfo.cs:28-33 | a lone `f`, an unclosed `[hh` and a stray `hh]` are rejected |
| `Patterns.ZeroSuffixAgrees` | TimeSpan2.Core/TimeSpanFormatInfo.cs:382-403 | the quick zero check finds the same zero text as the full grammar whenever the grammar captures one |
| `Patterns.ZeroTextFollowsSemicolon` | TimeSpan2.Core/TimeSpanFormatInfo.cs:29 | a captured zero text is the whole zero-text run after the `;` at which the body stopped, followed by white space only |
| `Patterns.SemicolonBeforeZeroText` | TimeSpan2.Core/TimeSpanFormatInfo.cs:382 | a `;` followed only by zero-text characters and white space is the last `;` |
| `Trees.FindFirstAfter` | TimeSpan2.Core/TimeSpanFormatInfo.cs:505 | an entity starting after the index, or -1 |
| `Trees.FirstAfterIsFirst` | TimeSpan2.Core/TimeSpanFormatInfo.cs:505 | no earlier entity starts after the index |
| `Trees.FindLastBefore` | TimeSpan2.Core/TimeSpanFormatInfo.cs:506 | an entity ending before the end, or -1 |
| `Trees.LastBeforeIsLast` | TimeSpan2.Core/TimeSpanFormatInfo.cs:506 | no later entity ends before the end |
| `Trees.Splice` | TimeSpan2.Core/TimeSpanFormatInfo.cs:505-510 | a failed splice is ArgumentOutOfRangeException |
| `Trees.SpliceOutcome` | TimeSpan2.Core/TimeSpanFormatInfo.cs:505-510 | fails exactly when nothing starts after the `[` or the count is negative; otherwise the entities before the run and after it stay in place and one node over the run sits where it began |
| `Trees.RunInside` | TimeSpan2.Core/TimeSpanFormatInfo.cs:505-506 | in a list in offset order, the run from the first entity after the `[` to the last before the `]` is exactly the entities strictly inside the span |
| `Trees.SpliceGroupsInside` | TimeSpan2.Core/TimeSpanFormatInfo.cs:505-510 | a successful splice of a list in offset order puts the new node at the first index after the `[`, with exactly the entities strictly inside the span as its children |
| `Trees.SpliceStep` | TimeSpan2.Core/TimeSpanFormatInfo.cs:503-511 | splicing the spans in closing order keeps the list in offset order, keeps its tokens, and each node holds exactly the tokens inside its span |
| `Trees.SpliceAll` | TimeSpan2.Core/TimeSpanFormatInfo.cs:503-511 | each span's captures become one group node, in the order the brackets close; the first span that cannot be placed ends it (no ensures of its own; `Trees.SpliceAllKeepsTokens` shows the splices lose and invent no token) |
| `Trees.BuildTree` | TimeSpan2.Core/TimeSpanFormatInfo.cs:481-519 | the root's children are the captures in offset order with the group nodes spliced in (no ensures of its own; `Trees.TreeGroupsSpans`, `Trees.TreeKeepsTokens` and `Trees.AcceptedTreeGroups` state the grouping and that no token is lost) |
| `Trees.TreeGroupsSpans` | TimeSpan2.Core/TimeSpanFormatInfo.cs:481-519 | for separated captures, the built tree's root children are in offset order, every node holds exactly the tokens inside its span, and the nodes are exactly one per span |
| `Trees.AcceptedTreeGroups` | TimeSpan2.Core/TimeSpanFormatInfo.cs:481-519 | the same for the captures of every accepted pattern |
| `Trees.Leaves` | TimeSpan2.Core/TimeSpanFormatInfo.cs:486-499 | one leaf per capture, in order |
| `Trees.GetParsedTokens` | TimeSpan2.Core/TimeSpanFormatInfo.cs:481-519 | the splicing loop builds the specified tree |
| `Trees.SpliceGroup` | TimeSpan2.Core/TimeSpanFormatInfo.cs:505-510 | one loop turn (`GetRange`, `RemoveRange`, `Insert`) is one splice |
| `Trees.RemoveRange` | TimeSpan2.Core/TimeSpanFormatInfo.cs:508 | the list without the removed run, everything else in place |
| `Trees.Insert` | TimeSpan2.Core/TimeSpanFormatInfo.cs:510 | the item at the index, everything else shifted |
| `Trees.RemoveThenInsert` | TimeSpan2.Core/TimeSpanFormatInfo.cs:507-510 | `RemoveRange` then `Insert` of the group is the splice |
| `Trees.GroupKeepsTokens` | TimeSpan2.Core/TimeSpanFormatInfo.cs:507-510 | replacing a run by a group over it keeps the tokens in order |
| `Trees.SpliceKeepsTokens` | TimeSpan2.Core/TimeSpanFormatInfo.cs:505-510 | a splice neither loses nor duplicates tokens |
| `Trees.SpliceAllKeepsTokens` | TimeSpan2.Core/TimeSpanFormatInfo.cs:503-511 | nor do all the splices together |
| `Trees.TreeKeepsTokens` | TimeSpan2.Core/TimeSpanFormatInfo.cs:481-511 | flattening the tree gives back the captures in offset order |
| `Formatting.RoundToDouble` | TimeSpan2.Core/TimeSpanFormatInfo.cs:578 | `(double)ticks`: exact below 2^53, sign kept |
| `Formatting.GetValueForGroup` | TimeSpan2.Core/TimeSpanFormatInfo.cs:565-583 | FormatException exactly for unknown names; `f`/`F` give a sub-second value below one second |
| `Formatting.UnitValue` | TimeSpan2.Core/TimeSpanFormatInfo.cs:567-576 | a unit letter's value is its component |
| `Formatting.GetCultureString` | TimeSpan2.Core/TimeSpanFormatInfo.cs:421-456 | empty for a non-unit letter; otherwise the one template iff the value is 1 (else many), first letter upper-cased iff the letter after `@` is |
| `Formatting.GetStringValue` | TimeSpan2.Core/TimeSpanFormatInfo.cs:521-547 | `f`/`F`: IndexOutOfRangeException on empty text; for a non-negative value the first n digits worth the value cut to n places, trailing zeros trimmed for `F`. Plain, `%x` and run leaves of a non-negative `int`: text that reads back as the value; for `%x` or a single letter exactly its decimal digits, for a run those digits left-padded with `0` to the run's length. A letter with digits: fails exactly when the digits do not parse or exceed 15 |
| `Formatting.SubSecondText` | TimeSpan2.Core/TimeSpanFormatInfo.cs:523-537 | the `f`/`F` case: n digits worth `value / 10^(7-n)`, or for `F` the trimmed digits worth the same once scaled back |
| `Formatting.FormatLeaf` | TimeSpan2.Core/TimeSpanFormatInfo.cs:650-711 | only numeric specifiers report a value found |
| `Formatting.ProcessFormatEntity` | TimeSpan2.Core/TimeSpanFormatInfo.cs:600-713 | the `StringBuilder` walk with its flags computes the specified rendering |
| `Formatting.Step` | TimeSpan2.Core/TimeSpanFormatInfo.cs:618-645 | one turn of the children's loop: a `fs` or `ws` only marks a pending gap, any other child emits that gap, once, before nonempty text (no ensures of its own; `Formatting.SeparatorBetween` and `Formatting.SeparatorAtEnd` state when the gap shows) |
| `Formatting.FormatChildren` | TimeSpan2.Core/TimeSpanFormatInfo.cs:611-646 | the loop over a node's children, in order, ending at the first exception (no ensures of its own; `Formatting.ChildrenFound` states that it reports found iff some child number is nonzero) |
| `Formatting.FormatEntity` | TimeSpan2.Core/TimeSpanFormatInfo.cs:600-713 | `ProcessFormatEntity`: a leaf gives its own text; a node gives its children's text only when one of them found a value, and no text otherwise; the first exception is the result (no ensures of its own; `Formatting.EntityFound` and `Formatting.LeafFound` state the found flag and the empty text) |
| `Formatting.LeafFound` | TimeSpan2.Core/TimeSpanFormatInfo.cs:676-679 | a leaf reports found iff it is numeric and nonzero |
| `Formatting.EntityFound` | TimeSpan2.Core/TimeSpanFormatInfo.cs:607-648 | a node reports found iff some number under it is nonzero; otherwise its text is empty |
| `Formatting.ChildrenFound` | TimeSpan2.Core/TimeSpanFormatInfo.cs:611-616 | the children's loop reports found iff it had or some child number is nonzero |
| `Formatting.SeparatorBetween` | TimeSpan2.Core/TimeSpanFormatInfo.cs:618-645 | `fs`/`ws` between two entities shows its gap only when both sides have text |
| `Formatting.SeparatorAtEnd` | TimeSpan2.Core/TimeSpanFormatInfo.cs:618-645 | a separator with nothing after it shows nothing |
| `Formatting.IntegerLeafReadsBack` | TimeSpan2.Core/TimeSpanFormatInfo.cs:539-547 | a unit leaf's text parses back to its component; it is the component's decimal digits for `%x` or one letter, and those digits zero-padded to the run length for a run |
| `Formatting.NegativeHoursDoubleSign` | TimeSpan2.Core/TimeSpanFormatInfo.cs:544-547 | with the `-` sign, `-` followed by `hh` renders -5 hours as `--05`: the literal sign and the sign `ToString("00")` puts on the negative component |
| `Formatting.SevenDigitsValue` | TimeSpan2.Core/TimeSpanFormatInfo.cs:531 | `"0.ddddddd"`'s digits are the sub-second ticks |
| `Formatting.FractionLeafText` | TimeSpan2.Core/TimeSpanFormatInfo.cs:521-538 | for a non-negative duration, an `f`/`F` leaf is the first n fraction digits, `F` trimmed |
| `Formatting.FractionTextOf` | TimeSpan2.Core/TimeSpanFormatInfo.cs:523-537 | `GetStringValue` of a non-negative sub-second value is those digits |
| `Formatting.SubSecondValue` | TimeSpan2.Core/TimeSpanFormatInfo.cs:578 | `f`/`F` take the remainder of the double ticks by one second |
| `Formatting.NumericLeaf` | TimeSpan2.Core/TimeSpanFormatInfo.cs:676-679 | a numeric leaf's text is `GetStringValue` of its value; found iff nonzero |
| `Formatting.FractionDigitsValue` | TimeSpan2.Core/TimeSpanFormatInfo.cs:531 | n `f` digits are worth the sub-second ticks divided by 10^(7-n) |
| `Formatting.TrimmedFractionValue` | TimeSpan2.Core/TimeSpanFormatInfo.cs:532-535 | the `F` digits keep that worth, scaled by the zeros dropped |
| `Formatting.NegativeFractionShifted` | TimeSpan2.Core/TimeSpanFormatInfo.cs:531 | a negative duration's `ff` leaf takes the separator into its text: -0.5 s renders `.5` |
| `Formatting.NegativeSevenDigits` | TimeSpan2.Core/TimeSpanFormatInfo.cs:531 | `Substring(2)` of `"-0.5000000"` starts at the separator |
| `Expressions.Escape` | TimeSpan2.Core/TimeSpanFormatInfo.cs:794 | `Regex.Escape` never shortens its input |
| `Expressions.EscapeCharForm` | TimeSpan2.Core/TimeSpanFormatInfo.cs:794 | a metacharacter or white space becomes a backslash pair; anything else is kept |
| `Expressions.EscapeRoundTrip` | TimeSpan2.Core/TimeSpanFormatInfo.cs:794 | unescaping the escaped text gives the original |
| `Expressions.UnescapeCanonical` | TimeSpan2.Core/TimeSpanFormatInfo.cs:794 | any canonical escape of a text is `Escape` of it |
| `Expressions.AlternativesAreWords` | TimeSpan2.Core/TimeSpanFormatInfo.cs:585-598 | the alternation's alternatives are the unit's comma-separated words, in resource order |
| `Expressions.ProcessParseEntity` | TimeSpan2.Core/TimeSpanFormatInfo.cs:715-797 | the `StringBuilder` walk computes the specified expression |
| `Expressions.ProcessParseNode` | TimeSpan2.Core/TimeSpanFormatInfo.cs:722-734 | a node's loop over its children computes the specified expression |
| `Expressions.PrefixStep` | TimeSpan2.Core/TimeSpanFormatInfo.cs:726-730 | each further child appends its expression after those before it |
| `Expressions.BuildParsingExpression` | TimeSpan2.Core/TimeSpanFormatInfo.cs:365-375 | the tree, then its expression, or the builder's exception |
| `Expressions.ParseEntity` | TimeSpan2.Core/TimeSpanFormatInfo.cs:715-797 | `ProcessParseEntity`: a leaf's expression; a node's is its opening, its children's expressions, its closing (no ensures of its own; `Expressions.SpliceExpression` and `Expressions.FlatPatternExpression` state the group and root forms) |
| `Expressions.ParseChildren` | TimeSpan2.Core/TimeSpanFormatInfo.cs:726-730 | the children's expressions concatenated in order (no ensures of its own; `Expressions.ParseChildrenAppend` and `Expressions.LeavesExpression` state that it distributes over concatenation) |
| `Expressions.LeavesExpression` | TimeSpan2.Core/TimeSpanFormatInfo.cs:735-797 | a list of leaves gives their expressions in order |
| `Expressions.FlatPatternExpression` | TimeSpan2.Core/TimeSpanFormatInfo.cs:722-733 | a pattern without groups gives `^\s*` + the leaves' expressions + `\s*$` |
| `Expressions.ParseChildrenAppend` | TimeSpan2.Core/TimeSpanFormatInfo.cs:726-730 | the expression of a concatenation is the concatenation of the expressions |
| `Expressions.ParseLeaf` | TimeSpan2.Core/TimeSpanFormatInfo.cs:734-796 | `z` gives nothing; literal leaves (quotes, escapes, time and decimal separators) give a pattern that stands for exactly their text; `n` is an optional group standing for the negative sign; numeric leaves capture digits under their own group name; `_` gives `\s+`; `,` gives the trimmed list separator escaped between `\s*`; `p`N gives an optional decimal separator followed by at most N digits; `@x` gives the unit's word alternation |
| `Expressions.GetVerboseParseString` | TimeSpan2.Core/TimeSpanFormatInfo.cs:585-598 | `\b(?i:` (or `\b(?:`) + the unit's words joined by vertical bars + `)\b`: the alternatives are exactly the comma-separated words |
| `Expressions.SpliceExpression` | TimeSpan2.Core/TimeSpanFormatInfo.cs:725-731 | a group wraps its children's expressions in `(?:` ... `)?`, in place |
| `Reconstruction.Wrap32` | TimeSpan2.Core/TimeSpanFormatInfo.cs:812 | unchecked int arithmetic: the value itself when in range, always congruent mod 2^32 |
| `Reconstruction.GroupInt` | TimeSpan2.Core/TimeSpanFormatInfo.cs:805-828 | the default when the group is absent; otherwise succeeds iff `int.Parse` does, with its value |
| `Reconstruction.SeparatorAt` | TimeSpan2.Core/TimeSpanFormatInfo.cs:832 | where the decimal separator sits in a `p` capture, within the text |
| `Reconstruction.ExactSeconds` | TimeSpan2.Core/TimeSpanFormatInfo.cs:832-834 | whole seconds and fraction ticks, with the ticks below one second |
| `Reconstruction.ReadWhole` | TimeSpan2.Core/TimeSpanFormatInfo.cs:801-846 | a failed digit parse becomes OverflowException |
| `Reconstruction.FractionDigitsTicks` | TimeSpan2.Core/TimeSpanFormatInfo.cs:858-861 | FormatException exactly for empty or non-digit text; at most 7 digits give ticks below a second |
| `Reconstruction.ReadMatchWhole` | TimeSpan2.Core/TimeSpanFormatInfo.cs:801-846 | the update sequence on `d h m s` computes the specified whole part |
| `Reconstruction.TimeSpanFromParseMatch` | TimeSpan2.Core/TimeSpanFormatInfo.cs:799-879 | the full update sequence computes the specified duration |
| `Reconstruction.ReadsOnly` | TimeSpan2.Core/TimeSpanFormatInfo.cs:799-879 | only `d w h m s p f F k t` matter |
| `Reconstruction.WholeReadsOnly` | TimeSpan2.Core/TimeSpanFormatInfo.cs:801-846 | the whole part reads only `d w h m s p` |
| `Reconstruction.FractionTicks` | TimeSpan2.Core/TimeSpanFormatInfo.cs:848-871 | the sub-second ticks: `k` milliseconds over the `f` (else `F`) decimals over the `p` fraction (no ensures of its own; `Reconstruction.FractionPrecedence` and `Reconstruction.FractionReadsOnly` state the precedence and which captures are read) |
| `Reconstruction.FractionReadsOnly` | TimeSpan2.Core/TimeSpanFormatInfo.cs:848-871 | the fraction reads only `f F k` |
| `Reconstruction.UnreadGroupsIgnored` | TimeSpan2.Core/TimeSpanFormatInfo.cs:799-879 | removing `n`, `D H M S K` and `r` changes nothing, so a parsed sign is lost |
| `Reconstruction.FractionPrecedence` | TimeSpan2.Core/TimeSpanFormatInfo.cs:848-871 | `k` wins over everything; `f` wins over `F`; either wins over `p`'s fraction |
| `Reconstruction.WeeksAddDays` | TimeSpan2.Core/TimeSpanFormatInfo.cs:805-813 | days = `d` + 7·`w` |
| `Reconstruction.WeeksWrapNegative` | TimeSpan2.Core/TimeSpanFormatInfo.cs:810-813 | a `w` capture of 613566756 gives 7·w = 2^32 - 4, which wraps to -4 days: the parse yields a negative duration with no sign in the text |
| `Reconstruction.PSeconds` | TimeSpan2.Core/TimeSpanFormatInfo.cs:830-835 | a `p` capture split at the decimal separator into whole seconds and the rest in ticks, exactly for up to eight integer digits and seven decimals, by the platform's double arithmetic beyond (no ensures of its own; `Reconstruction.PSecondsReadsBack` states what a `p` capture reads as) |
| `Reconstruction.PSecondsReadsBack` | TimeSpan2.Core/TimeSpanFormatInfo.cs:830-835 | a `p` capture reads as its whole seconds and its decimals in ticks |
| `Reconstruction.FormattedComponentsParseBack` | TimeSpan2.Core/TimeSpanFormatInfo.cs:799-879 | the captures of a non-negative duration's `d h m s fffffff` components rebuild the duration exactly |
| `Reconstruction.FromCaptures` | TimeSpan2.Core/TimeSpanFormatInfo.cs:799-879 | the duration is the whole units plus the sub-second ticks plus the `t` ticks; a failure in the whole part is OverflowException, and every failure is OverflowException, ArgumentOutOfRangeException or FormatException |
| `Reconstruction.FromCapturesWithoutTicks` | TimeSpan2.Core/TimeSpanFormatInfo.cs:846-871 | with no `t`: the whole part plus the fraction ticks |
| `Reconstruction.ClockWhole` | TimeSpan2.Core/TimeSpanFormatInfo.cs:801-846 | clock captures read back as the components |
| `Reconstruction.ClockFraction` | TimeSpan2.Core/TimeSpanFormatInfo.cs:848-871 | seven `f` digits read back as the sub-second ticks |
| `FormatInfo.Cached` | TimeSpan2.Core/TimeSpanFormatInfo.cs:888-899 | the cache afterwards holds the old keys plus the pattern iff the grammar accepts it |
| `FormatInfo.PatternCache.constructor` | TimeSpan2.Core/TimeSpanFormatInfo.cs:35 | an empty, valid cache |
| `FormatInfo.PatternCache.ValidateCustomPattern` | TimeSpan2.Core/TimeSpanFormatInfo.cs:881-907 | the scan's captures, or FormatException for a refused pattern; only accepted patterns are cached; cached entries stay valid |
| `FormatInfo.DefaultPatternAccepted` | TimeSpan2.Core/TimeSpanFormatInfo.cs:23 | the default pattern `-[d'.']hh':'mm':'ss['.'fffffff]` passes the pattern grammar, with its ten tokens and its two optional groups |
| `FormatInfo.RemoveFirstZero` | TimeSpan2.Core/TimeSpanFormatInfo.cs:405 | `List.Remove` drops at most one child; which one is stated by `FormatInfo.RemoveFirstZeroAt` and `FormatInfo.RemoveFirstZeroNone` |
| `FormatInfo.RemoveFirstZeroAt` | TimeSpan2.Core/TimeSpanFormatInfo.cs:405 | when the first zero-text child is at `i`, exactly that child is removed and the others keep their order |
| `FormatInfo.RemoveFirstZeroNone` | TimeSpan2.Core/TimeSpanFormatInfo.cs:405 | with no zero-text child the children are unchanged |
| `FormatInfo.TimeSpan2FormatInfo.constructor` | TimeSpan2.Core/TimeSpanFormatInfo.cs:41-66 | the general long and short patterns, no zero display |
| `FormatInfo.TimeSpan2FormatInfo.GetTimeSpanPattern` | TimeSpan2.Core/TimeSpanFormatInfo.cs:554-563 | a pattern exactly for `c g G f j x`; ArgumentException otherwise |
| `FormatInfo.TimeSpan2FormatInfo.AllTimeSpanPatterns` | TimeSpan2.Core/TimeSpanFormatInfo.cs:206-215 | one pattern per standard letter, in `cgGfxj` order |
| `FormatInfo.TimeSpan2FormatInfo.GetAllTimeSpanPatterns` | TimeSpan2.Core/TimeSpanFormatInfo.cs:206-225 | the loop collects those patterns |
| `FormatInfo.TimeSpan2FormatInfo.Decisions` | TimeSpan2.Core/TimeSpanFormatInfo.cs:335-359 | one decision per format, in order |
| `FormatInfo.PatternAttempt` | TimeSpan2.Core/TimeSpanFormatInfo.cs:343-358 | one custom pattern tried on the text (no ensures of its own; `FormatInfo.TimeSpan2FormatInfo.PatternDecides` states its three outcomes) |
| `FormatInfo.TimeSpan2FormatInfo.FormatDecision` | TimeSpan2.Core/TimeSpanFormatInfo.cs:337-358 | what one format decides: the platform's parser when the format resolves to no pattern, else the pattern's attempt (no ensures of its own; `FormatInfo.TimeSpan2FormatInfo.PatternDecides` and `FormatInfo.TimeSpan2FormatInfo.FailureYieldsZero` state that it raises, succeeds, passes on, or fails with zero) |
| `FormatInfo.TimeSpan2FormatInfo.TryParseExactOf` | TimeSpan2.Core/TimeSpanFormatInfo.cs:333-363 | the formats tried in order, the first decision kept (no ensures of its own; `FormatInfo.TimeSpan2FormatInfo.FirstFormatWins`, `FormatInfo.TimeSpan2FormatInfo.FailureIsZero`, `FormatInfo.FirstDecidedAppend` and `FormatInfo.FirstDecidedZero` state that the first format that decides wins and that total failure is zero) |
| `FormatInfo.TimeSpan2FormatInfo.PatternDecides` | TimeSpan2.Core/TimeSpanFormatInfo.cs:343-358 | a custom pattern either raises, reads a duration, or passes on to the next format |
| `FormatInfo.TimeSpan2FormatInfo.FailureYieldsZero` | TimeSpan2.Core/TimeSpanFormatInfo.cs:337-358 | a failing format yields zero |
| `FormatInfo.TimeSpan2FormatInfo.CustomFormat` | TimeSpan2.Core/TimeSpanFormatInfo.cs:377-408 | the specified text; a zero duration leaves the cache untouched; otherwise the pattern goes through the cache |
| `FormatInfo.TimeSpan2FormatInfo.FormatTimeSpan` | TimeSpan2.Core/TimeSpanFormatInfo.cs:410-419 | the specified text; the cache changes only by validating the resolved pattern |
| `FormatInfo.TimeSpan2FormatInfo.TryFormat` | TimeSpan2.Core/TimeSpanFormatInfo.cs:337-358 | one loop turn computes that format's decision and caches only its pattern |
| `FormatInfo.TimeSpan2FormatInfo.TryParseExact` | TimeSpan2.Core/TimeSpanFormatInfo.cs:333-363 | the loop computes the first decision; the cache grows only by the patterns tried |
| `FormatInfo.TimeSpan2FormatInfo.TryParse` | TimeSpan2.Core/TimeSpanFormatInfo.cs:295-316 | the specified result; the cache grows only by standard patterns |
| `FormatInfo.TimeSpan2FormatInfo.Parse` | TimeSpan2.Core/TimeSpanFormatInfo.cs:241-254 | the specified result; cache bounded likewise |
| `FormatInfo.TimeSpan2FormatInfo.ParseExact` | TimeSpan2.Core/TimeSpanFormatInfo.cs:267-280 | the specified result; cache bounded by the formats |
| `FormatInfo.TimeSpan2FormatInfo.CustomFormatString` | TimeSpan2.Core/TimeSpanFormatInfo.cs:458-479 | the pattern and zero text a format names (no ensures of its own; `FormatInfo.TimeSpan2FormatInfo.FormatResolution` states each case) |
| `FormatInfo.CustomFormatOf` | TimeSpan2.Core/TimeSpanFormatInfo.cs:377-408 | `CustomFormat`: the quick zero answer, then the tree, the `z` leaf for zero, else the rendered tree (no ensures of its own; `FormatInfo.TimeSpan2FormatInfo.ZeroNeverFails` and `FormatInfo.TimeSpan2FormatInfo.NothingNonZeroRendersEmpty` state the zero and empty results) |
| `FormatInfo.TimeSpan2FormatInfo.FormatOf` | TimeSpan2.Core/TimeSpanFormatInfo.cs:410-419 | `FormatTimeSpan`: the platform text (or the zero text for zero) when the resolved pattern is empty, else the custom format (no ensures of its own; `FormatInfo.TimeSpan2FormatInfo.ZeroTextOverride` and `FormatInfo.TimeSpan2FormatInfo.IsoZero` state the zero cases) |
| `FormatInfo.TimeSpan2FormatInfo.FormatResolution` | TimeSpan2.Core/TimeSpanFormatInfo.cs:458-479 | covers each case:<br>• empty → default pattern<br>• a standard letter → its pattern<br>• `X;t` → X's pattern with zero text t<br>• `;t` → `c` with t<br>• any other string verbatim |
| `FormatInfo.TimeSpan2FormatInfo.ZeroNeverFails` | TimeSpan2.Core/TimeSpanFormatInfo.cs:380-388 | zero never raises: the pattern's own zero text, else the resolved one |
| `FormatInfo.TimeSpan2FormatInfo.ZeroTextOverride` | TimeSpan2.Core/TimeSpanFormatInfo.cs:464-467 | `;text` formats zero as `text` |
| `FormatInfo.TimeSpan2FormatInfo.IsoZero` | TimeSpan2.Core/TimeSpanFormatInfo.cs:26 | format `x` shows zero as `PT0S` |
| `FormatInfo.TimeSpan2FormatInfo.NothingNonZeroRendersEmpty` | TimeSpan2.Core/TimeSpanFormatInfo.cs:647 | with no nonzero number, a nonzero duration renders `""` |
| `FormatInfo.TimeSpan2FormatInfo.FailureIsZero` | TimeSpan2.Core/TimeSpanFormatInfo.cs:361-362 | total failure returns zero |
| `FormatInfo.TimeSpan2FormatInfo.FirstFormatWins` | TimeSpan2.Core/TimeSpanFormatInfo.cs:335-359 | over custom formats `a + b`: `a`'s result unless it failed, then `b`'s |
| `FormatInfo.TimeSpan2FormatInfo.TryParseOf` | TimeSpan2.Core/TimeSpanFormatInfo.cs:295-316 | the trimmed text; blank fails, then every parsing pattern, then the zero display (no ensures of its own; `FormatInfo.TimeSpan2FormatInfo.BlankFails` and `FormatInfo.TimeSpan2FormatInfo.ZeroDisplayParses` state the blank and zero-display paths) |
| `FormatInfo.TimeSpan2FormatInfo.BlankFails` | TimeSpan2.Core/TimeSpanFormatInfo.cs:297-302 | blank text fails with zero |
| `FormatInfo.TimeSpan2FormatInfo.ZeroDisplayParses` | TimeSpan2.Core/TimeSpanFormatInfo.cs:310-313 | the zero display (any case, padded) parses as zero when no pattern reads it |
| `FormatInfo.TimeSpan2FormatInfo.ParseOf` | TimeSpan2.Core/TimeSpanFormatInfo.cs:241-254 | `Parse` over `TryParse` (no ensures of its own; `FormatInfo.TimeSpan2FormatInfo.ParseAgreesWithTryParse` states the agreement and the exceptions) |
| `FormatInfo.TimeSpan2FormatInfo.ParseExactOf` | TimeSpan2.Core/TimeSpanFormatInfo.cs:267-280 | `ParseExact` over `TryParseExact` (no ensures of its own; `FormatInfo.TimeSpan2FormatInfo.ParseExactAgreesWithTryParseExact` states the agreement) |
| `FormatInfo.TimeSpan2FormatInfo.ParseAgreesWithTryParse` | TimeSpan2.Core/TimeSpanFormatInfo.cs:241-254 | `Parse` returns v iff `TryParse` succeeds with v; ArgumentNullException on empty, FormatException on failure |
| `FormatInfo.TimeSpan2FormatInfo.ParseExactAgreesWithTryParseExact` | TimeSpan2.Core/TimeSpanFormatInfo.cs:267-280 | likewise for the exact pair |
| `FormatInfo.FirstDecidedAppend` | TimeSpan2.Core/TimeSpanFormatInfo.cs:335-359 | the first decision of a concatenation is the first part's unless it failed |
| `FormatInfo.FirstDecidedZero` | TimeSpan2.Core/TimeSpanFormatInfo.cs:361-362 | if every failure is with zero, so is the first |
| `FormatInfo.RemoveFirstZeroTokens` | TimeSpan2.Core/TimeSpanFormatInfo.cs:399-406 | removing the zero text loses no nonzero number |
| `Legacy.Blanks` | TimeSpan2/TimeSpanFormatInfo.cs:228 | n empty slots |
| `Legacy.OrderedOf` | TimeSpan2/TimeSpanFormatInfo.cs:227-233 | one slot per piece; errors are IndexOutOfRangeException only |
| `Legacy.Ordered` | TimeSpan2/TimeSpanFormatInfo.cs:227-233 | the array loop fills the specified slots |
| `Legacy.FullTextOf` | TimeSpan2/TimeSpanFormatInfo.cs:213-234 | errors are IndexOutOfRangeException only |
| `Legacy.FullText` | TimeSpan2/TimeSpanFormatInfo.cs:213-234 | the method computes the full text |
| `Legacy.Components` | TimeSpan2/TimeSpanFormatInfo.cs:214-224 | the positive day, hour, minute, second and millisecond components, each under its letter (no ensures of its own; `Legacy.NoComponents` and `Legacy.NotPositiveComponents` state when there are none) |
| `Legacy.FullPieces` | TimeSpan2/TimeSpanFormatInfo.cs:214-226 | the pieces of the `f` format (no ensures of its own; `Legacy.FullPiecesShape` and `Legacy.SubMillisecond` state their keys and texts) |
| `Legacy.Picks` | TimeSpan2/TimeSpanFormatInfo.cs:227-233 | the pieces the letters of the resources' build order name, in that order (no ensures of its own; `Legacy.PicksCount`, `Legacy.PicksMember` and `Legacy.PicksBeyond` state which are taken and when the order overflows the slots) |
| `Legacy.PicksBeyond` | TimeSpan2/TimeSpanFormatInfo.cs:229-233 | once more pieces are picked than slots exist, the whole order overflows |
| `Legacy.FullPiecesShape` | TimeSpan2/TimeSpanFormatInfo.cs:214-226 | as follows:<br>• keys lie in `dhmst`<br>• each positive component has its piece, with the one template iff it equals 1<br>• the only other key is `s` for durations under a millisecond<br>• there are no pieces iff the duration is not positive |
| `Legacy.NoComponents` | TimeSpan2/TimeSpanFormatInfo.cs:225 | no pieces means no positive component |
| `Legacy.NotPositiveComponents` | TimeSpan2/TimeSpanFormatInfo.cs:214-224 | a non-positive duration has no positive component |
| `Legacy.SubMillisecond` | TimeSpan2/TimeSpanFormatInfo.cs:225-226 | a positive duration without positive components is under a millisecond |
| `Legacy.PicksCount` | TimeSpan2/TimeSpanFormatInfo.cs:227-233 | with distinct letters, the pieces picked are those whose key is in the order |
| `Legacy.FullTextInOrder` | TimeSpan2/TimeSpanFormatInfo.cs:227-234 | with a valid order, every piece is picked and the text is the picks joined with the separator |
| `Legacy.OnePieceNoSeparator` | TimeSpan2/TimeSpanFormatInfo.cs:234 | one piece is the whole text; none gives `""` |
| `Legacy.PicksMember` | TimeSpan2/TimeSpanFormatInfo.cs:230-232 | a letter of the order that has a piece gets it picked |
| `Legacy.NotPositiveFullIsEmpty` | TimeSpan2/TimeSpanFormatInfo.cs:214-234 | a non-positive duration renders `""` in full format |
| `Legacy.ReplaceWord` | TimeSpan2/TimeSpanFormatInfo.cs:144 | raises iff the word is empty; otherwise the flag is set iff the word occurs |
| `Legacy.ReplaceWords` | TimeSpan2/TimeSpanFormatInfo.cs:143-144 | the `foreach` loop computes the specified pass over one unit |
| `Legacy.WordUnits` | TimeSpan2/TimeSpanFormatInfo.cs:143-152 | the five unit word lists, milliseconds first, each with the letter it becomes (no ensures of its own; `Legacy.WordPassNone` states the pass over them) |
| `Legacy.ReplaceWordsOf` | TimeSpan2/TimeSpanFormatInfo.cs:143-144 | one unit's words, each replaced by the letter where it occurs (no ensures of its own; `Legacy.ReplaceWordsKeepFound`, `Legacy.ReplaceWordsNone` and `Legacy.ReplaceWordsRaise` state the flag, the no-change case and the exception) |
| `Legacy.WordPassOf` | TimeSpan2/TimeSpanFormatInfo.cs:141-152 | the five unit loops one after another (no ensures of its own; `Legacy.WordPass` computes it; `Legacy.WordPassRaises`, `Legacy.WordPassKeepFound` and `Legacy.WordPassNone` state the same facts for the whole pass) |
| `Legacy.WordPass` | TimeSpan2/TimeSpanFormatInfo.cs:141-152 | the five loops compute the specified pass |
| `Legacy.ReplaceWordsKeepFound` | TimeSpan2/TimeSpanFormatInfo.cs:143-144 | once set, the flag stays set |
| `Legacy.ReplaceWordsNone` | TimeSpan2/TimeSpanFormatInfo.cs:143-144 | nothing is replaced iff no word occurs, and the text is then unchanged |
| `Legacy.ReplaceWordsRaise` | TimeSpan2/TimeSpanFormatInfo.cs:143-144 | raises only ArgumentException, and always raises it when a word is empty |
| `Legacy.WordPassRaises` | TimeSpan2/TimeSpanFormatInfo.cs:141-152 | likewise for the whole pass |
| `Legacy.WordPassKeepFound` | TimeSpan2/TimeSpanFormatInfo.cs:141-152 | the flag stays set through the pass |
| `Legacy.WordPassNone` | TimeSpan2/TimeSpanFormatInfo.cs:141-153 | the regex step is skipped iff no synonym of any unit occurs; the text is then unchanged |
| `Legacy.GroupInt` | TimeSpan2/TimeSpanFormatInfo.cs:164-168 | 0 when the group is absent; when present, succeeds iff `int.Parse` does, with its value; parsed values are non-negative |
| `Legacy.CapturesValueAsWritten` | TimeSpan2/TimeSpanFormatInfo.cs:163-169 | as written: always a whole number of seconds; with a `t` capture, the reading of the captures with `t` moved into `s` |
| `Legacy.CapturesValue` | TimeSpan2/TimeSpanFormatInfo.cs:163-169 | intended reading: whole milliseconds, and not whole seconds when `t` is not a multiple of 1000 |
| `Legacy.AsWrittenWithoutMilliseconds` | TimeSpan2/TimeSpanFormatInfo.cs:163-169 | without a `t` capture the two readings agree |
| `Legacy.CapturesReadBack` | TimeSpan2/TimeSpanFormatInfo.cs:163-169 | intended reading: captures of d h m s t give the five-argument duration, ticks by formula |
| `Legacy.MillisecondsOverwriteSeconds` | TimeSpan2/TimeSpanFormatInfo.cs:167-168 | s=2, t=5 reads as 5 s as written; intended 2 s 5 ms |
| `Legacy.TimeSpanFormatInfo.constructor` | TimeSpan2/TimeSpanFormatInfo.cs:17-29 | the culture's resources, no zero display |
| `Legacy.TimeSpanFormatInfo.FormatTimeSpan` | TimeSpan2/TimeSpanFormatInfo.cs:199-248 | the method computes the specified format result |
| `Legacy.TimeSpanFormatInfo.TryParseOf` | TimeSpan2/TimeSpanFormatInfo.cs:123-175 | a failure always carries zero |
| `Legacy.TimeSpanFormatInfo.MatchedAsWritten` | TimeSpan2/TimeSpanFormatInfo.cs:153-170 | text that reaches and matches the resource expression parses to its captures read as written, so always to whole seconds |
| `Legacy.TimeSpanFormatInfo.TryParse` | TimeSpan2/TimeSpanFormatInfo.cs:123-175 | the method computes the specified result |
| `Legacy.TimeSpanFormatInfo.ZeroTextOf` | TimeSpan2/TimeSpanFormatInfo.cs:202-204 | the zero text: what follows a `;` in second place, else the zero display (no ensures of its own; `Legacy.TimeSpanFormatInfo.ZeroTextWins` states its precedence) |
| `Legacy.TimeSpanFormatInfo.FormatOf` | TimeSpan2/TimeSpanFormatInfo.cs:199-248 | `FormatTimeSpan`: the zero text for zero, else the first letter's format (no ensures of its own; `Legacy.TimeSpanFormatInfo.ZeroTextWins` and `Legacy.TimeSpanFormatInfo.UnknownLetterRaises` state the zero text and the exception) |
| `Legacy.TimeSpanFormatInfo.ZeroTextWins` | TimeSpan2/TimeSpanFormatInfo.cs:201-207 | a zero duration with a zero text formats as that text, whatever the letter |
| `Legacy.TimeSpanFormatInfo.UnknownLetterRaises` | TimeSpan2/TimeSpanFormatInfo.cs:209-247 | FormatException iff the first letter is outside `nfsmhdt` and the zero text does not answer first |
| `Legacy.TimeSpanFormatInfo.BlankFails` | TimeSpan2/TimeSpanFormatInfo.cs:125-128 | blank text fails with zero |
| `Legacy.TimeSpanFormatInfo.ZeroDisplayParses` | TimeSpan2/TimeSpanFormatInfo.cs:135-138 | the zero display parses as zero when the platform parser does not read it |
| `Legacy.TimeSpanFormatInfo.NoWordsFail` | TimeSpan2/TimeSpanFormatInfo.cs:141-153 | with no unit word in the text, parsing fails without reaching the regex |
| `Legacy.TimeSpanFormatInfo.EmptyWordRaises` | TimeSpan2/TimeSpanFormatInfo.cs:141-152 | an empty synonym makes the word pass raise ArgumentException |
| `Legacy.TimeSpanFormatInfo.ParseOf` | TimeSpan2/TimeSpanFormatInfo.cs:184-192 | `Parse` over `TryParse` (no ensures of its own; `Legacy.TimeSpanFormatInfo.ParseAgreesWithTryParse` states the agreement and the exceptions) |
| `Legacy.TimeSpanFormatInfo.ParseAgreesWithTryParse` | TimeSpan2/TimeSpanFormatInfo.cs:184-192 | `Parse` succeeds iff `TryParse` does, with the same value; ArgumentNullException on empty |

## Left out

- The .NET regular-expression engine is left out:
  - The pattern grammar is replaced by the scanner `Patterns.Scan`.
  - Matching input against a compiled parse expression (core line 347) is the oracle `Platform.regexMatch`.
  - The earlier class's resource expression (legacy lines 155-160) is the oracle `Platform.legacyMatch`.
  - Regex options, such as `IgnorePatternWhitespace`, are part of those oracles.
- `TimeSpan.TryParse` and `TimeSpan.ToString()` are the oracles `timeSpanTryParse` and `timeSpanText`, because they are library code.
- Floating point is left out, because double formatting is outside Dafny. Several values come from oracles instead:
  - totals `D H M S K`, `p`, `w`, and integers of magnitude 10^15 or more → `doubleText`;
  - whether `p` is nonzero → `pNonZero`;
  - rounding of more than seven fraction digits → `fractionRound`;
  - a `p` capture outside the range where the double arithmetic is exact → `pSeconds`;
  - the earlier class's `s m h d t` formats and its sub-millisecond `TotalSeconds` fallback → `totalText`.
- `f`/`F` leaves are exact integers below 2^53 ticks; the rounding of `(double)ticks` above that is modelled by `Formatting.RoundToDouble`.
- Culture-sensitive operations are ordinal or ASCII in the model:
  - `ToLower`, `ToUpper`, `IndexOf` and `string.Compare(..., CurrentCultureIgnoreCase)`;
  - `\s`, `\d` and `char.IsWhiteSpace`, whose white space is limited to ASCII and Latin-1.
- `string.Format` of a unit template is modelled as replacing `{0}`, because the resource templates hold no other placeholder.
- `int.Parse` accepts only ASCII digit runs. Sign and surrounding white space are never reached, because the regex captures are `\d+`.
- Null strings are left out: the model has no null reference.
  - It omits the `ArgumentNullException` of core `ParseExact` on a null input.
  - It omits the `NullReferenceException` on a null format or value.
  - The empty string stands in for a null zero display.
- `Format` (type dispatch over the argument), `GetFormat`, `GetInstance`, `CurrentInfo`, the instance cache and its locking are plumbing, and are left out. `Properties.Resources` and `TimeSpanResources` become the `Culture` record.
- The `OPT` and `LEVEL` balancing groups and `#if DEBUG` output are left out; the scanner's spans replace them.
- The parent links and `output` fields of `ParseEntity` are not modelled; the outputs are return values.
- In `TimeSpan2.cs`, several members are left out as conversion or framework plumbing:
  - `IConvertible`, `ISerializable`, `GetHashCode`;
  - the `TryParse`/`Parse`/`ToString` forwards;
  - the `FromX(double)` factories and the `Total*` getters;
  - the `TimeSpan` conversions.
- The `fs` separator in a parse expression uses the list separator after `Trim`, which `Strings.Trim` models. Its `Regex.Escape` is `Expressions.Escape`.
- `FormatInfo.TimeSpan2FormatInfo.TryParseExact`: the cache bound is stated for the patterns tried, not for the exact prefix of `formats` processed before a result.
- `Legacy.TimeSpanFormatInfo.TryParseOf`: its own contract states only that a failure carries zero. Each path is stated by a lemma beside it (`BlankFails`, `ZeroDisplayParses`, `NoWordsFail`, `EmptyWordRaises`, `MatchedAsWritten`).
- `Trees.Splice`: its own contract names only the error. Where the node goes and which entities it holds is stated by `Trees.SpliceOutcome` and `Trees.SpliceGroupsInside`.
- `Strings.ZeroPad`: its own contract states only the length, because a quantified contract on this widely used function makes every proof that uses it much slower. `Strings.ZeroPadShape` states the content: zeros, then the input.
- `FormatInfo.RemoveFirstZero`: its own contract states only the length, for the same reason. `FormatInfo.RemoveFirstZeroAt` and `FormatInfo.RemoveFirstZeroNone` state which child goes.
- Two thread cultures are one record. In the source the signs, separators and unit words come from `CurrentUICulture`, while `double.Parse` (core lines 832 and 860) and `ToString` (core lines 541 and 551) use `CurrentCulture`. The `Culture` record stands for both, and for the culture the instance was built with. So `Reconstruction.PSeconds`, `Reconstruction.FractionDigitsTicks` and `Formatting.GetStringValue` assume that the two cultures agree. The model does not capture a `p` or `f` capture written with the UI culture's decimal separator and then read under a different culture's rules, such as an en-US UI culture with a de-DE culture.
- `Legacy.FullPiecesShape`: the text of the sub-millisecond `s` piece comes from the `totalText` oracle and is not described further.

## Findings

| source | as written | input that shows it | evidently intended | confidence | as-written member | corrected member |
|---|---|---|---|---|---|---|
| TimeSpan2/TimeSpanFormatInfo.cs:168 | `sc = int.Parse(m.Groups["t"].Value)`: the milliseconds capture overwrites the seconds, and `t` stays 0 | "2 seconds 5 milliseconds", rewritten to `2 s 5 t`, captures s = "2", t = "5" and reads as 5 seconds | `t = int.Parse(...)`: 2 seconds and 5 milliseconds | not executed | `Legacy.MillisecondsOverwriteSeconds` (on `Legacy.CapturesValueAsWritten`, which `TryParseOf` uses; see `MatchedAsWritten`) | `Legacy.CapturesReadBack` (on `Legacy.CapturesValue`) |
