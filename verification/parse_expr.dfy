/** The parsing side of the pattern tree: `Regex.Escape`, the alternation of unit words,
    and the regular expression `ProcessParseEntity` writes for each entity of the tree
    (`BuildParsingExpression`). The expression is handed to the platform's matcher; the
    model keeps its text exactly. */
module Expressions {
  import opened Wrappers
  import opened Strings
  import opened Cultures
  import opened Patterns
  import opened Trees

  // ----- Regex.Escape -----

  const FormFeed: char := '\U{000C}'

  /** The characters `Regex.Escape` writes with a backslash in front. */
  predicate IsMeta(ch: char) {
    ch == '\\' || ch == '*' || ch == '+' || ch == '?' || ch == '|' || ch == '{' || ch == '['
    || ch == '(' || ch == ')' || ch == '^' || ch == '$' || ch == '.' || ch == '#'
  }

  /** The white space `Regex.Escape` writes as a backslash and a letter (or a space). */
  predicate IsEscapedWhite(ch: char) {
    ch == '\t' || ch == '\n' || ch == '\r' || ch == FormFeed || ch == ' '
  }

  function EscapeChar(ch: char): string {
    if ch == '\t' then @"\t"
    else if ch == '\n' then @"\n"
    else if ch == '\r' then @"\r"
    else if ch == FormFeed then @"\f"
    else if ch == ' ' then @"\ "
    else if IsMeta(ch) then ['\\', ch]
    else [ch]
  }

  /** `Regex.Escape`: a pattern that matches `s` literally. */
  function Escape(s: string): (r: string)
    ensures |r| >= |s|
  {
    if s == [] then [] else EscapeChar(s[0]) + Escape(s[1..])
  }

  /** The character an escape `\d` denotes, for the escapes `Escape` writes. */
  function EscapedChar(d: char): Option<char> {
    if d == 't' then Some('\t')
    else if d == 'n' then Some('\n')
    else if d == 'r' then Some('\r')
    else if d == 'f' then Some(FormFeed)
    else if d == ' ' then Some(' ')
    else if IsMeta(d) then Some(d)
    else None
  }

  /** The literal text a pattern made only of plain characters and escapes stands for;
      None for a bare metacharacter or white space, or an escape `Escape` never writes. */
  function Unescape(r: string): Option<string>
    decreases |r|
  {
    if r == [] then Some([])
    else if r[0] == '\\' then
      if |r| < 2 then None
      else
        match (EscapedChar(r[1]), Unescape(r[2..]))
        case (Some(ch), Some(rest)) => Some([ch] + rest)
        case _ => None
    else if IsMeta(r[0]) || IsEscapedWhite(r[0]) then None
    else
      match Unescape(r[1..])
      case Some(rest) => Some([r[0]] + rest)
      case None => None
  }

  lemma EscapeCharForm(ch: char)
    ensures var e := EscapeChar(ch);
      if IsMeta(ch) || IsEscapedWhite(ch) then |e| == 2 && e[0] == '\\' && EscapedChar(e[1]) == Some(ch)
      else e == [ch]
  {
  }

  /** Escaping loses nothing: the escaped text stands for exactly the original. */
  lemma {:induction false} EscapeRoundTrip(s: string)
    ensures Unescape(Escape(s)) == Some(s)
    decreases |s|
  {
    if s != [] {
      var e := EscapeChar(s[0]);
      var r := Escape(s);
      EscapeCharForm(s[0]);
      EscapeRoundTrip(s[1..]);
      assert r == e + Escape(s[1..]);
      if |e| == 2 {
        assert r[0] == '\\' && r[1] == e[1];
        assert r[2..] == Escape(s[1..]);
        assert Unescape(r) == Some([s[0]] + s[1..]);
      } else {
        assert r[0] == s[0] && r[1..] == Escape(s[1..]);
        assert Unescape(r) == Some([s[0]] + s[1..]);
      }
      assert [s[0]] + s[1..] == s;
    }
  }

  /** ... and `Escape` is the only way to write a text: whatever stands for `s` is `Escape(s)`. */
  lemma {:induction false} UnescapeCanonical(r: string, s: string)
    requires Unescape(r) == Some(s)
    ensures r == Escape(s)
    decreases |r|
  {
    if r != [] {
      if r[0] == '\\' {
        UnescapeCanonical(r[2..], s[1..]);
        EscapeCharForm(s[0]);
        assert r == r[..2] + r[2..];
      } else {
        UnescapeCanonical(r[1..], s[1..]);
        assert r == [r[0]] + r[1..];
      }
    }
  }

  // ----- the expression of each entity -----

  /** The alternation of a unit's comma-separated words (`string.Join("|", words.Split(','))`). */
  function Alternation(words: string): string {
    Join("|", Split(words, ','))
  }

  /** `r` is a whole-word group, case-insensitive when `ignoreCase`, whose alternatives are
      the comma-separated `words` (when no word holds a `|`). */
  predicate IsWordAlternation(r: string, words: string, ignoreCase: bool) {
    var lead := if ignoreCase then @"\b(?i:" else @"\b(?:";
    && |r| >= |lead| + 3 && r[..|lead|] == lead && r[|r| - 3..] == @")\b"
    && ('|' !in words ==> Split(r[|lead|..|r| - 3], '|') == Split(words, ','))
  }

  /** `GetVerboseParseString`: the unit's words as one alternation between word boundaries,
      case-insensitive when the resources say so. The words themselves are not escaped. */
  function GetVerboseParseString(u: Unit, c: Culture): (r: string)
    ensures IsWordAlternation(r, c.words.Get(u), c.wordPatternIgnoreCase)
  {
    var words := c.words.Get(u);
    var alt := Alternation(words);
    var lead := if c.wordPatternIgnoreCase then @"\b(?i:" else @"\b(?:";
    var g := @"\b(?" + (if c.wordPatternIgnoreCase then "i" else "") + ":" + alt + @")\b";
    assert g == lead + alt + @")\b";
    assert g[|lead|..|g| - 3] == alt;
    if '|' in words then g
    else AlternativesAreWords(words); g
  }

  /** The alternatives of the alternation are exactly the unit's words, in order, provided
      no word holds a `|`. */
  lemma AlternativesAreWords(words: string)
    requires '|' !in words
    ensures Split(Alternation(words), '|') == Split(words, ',')
  {
    SplitPiecesLack(words, ',', '|');
    SplitJoin(Split(words, ','), '|');
  }

  /** A named group of one or more digits. */
  function DigitsGroup(name: string): string {
    "(?<" + name + @">\d+)"
  }

  /** The expression of one captured token. `z` yields nothing; the digits after `p` bound
      the number of decimals (a `p` capture always starts with the letter). */
  function ParseLeaf(t: Token, c: Culture): (r: string)
    ensures t.name.ZeroText? ==> r == ""
    ensures t.name.Quoted? || t.name.Escaped? ==> Unescape(r) == Some(t.text)
    ensures t.name.TimeSep? ==> Unescape(r) == Some(c.timeSeparator)
    ensures t.name.DecimalSep? ==> Unescape(r) == Some(c.decimalSeparator)
    ensures t.name.Negative? ==> IsNegativeGroup(r, c)
    ensures t.name.Component? || t.name.Total? || t.name.Fraction? ==> r == DigitsGroup(GroupName(t.name))
    ensures t.name.WordSep? ==> r == @"\s+"
    ensures t.name.ListSep? ==> IsListSeparator(r, c)
    ensures t.name.Precision? ==> IsPrecisionGroup(r, if |t.text| >= 1 then t.text[1..] else "", c)
    ensures t.name.Verbose? ==> IsWordAlternation(r, c.words.Get(t.name.u), c.wordPatternIgnoreCase)
  {
    match t.name
    case ZeroText => ""
    case Negative => NegativeExpression(c)
    case Component(_) => DigitsGroup(GroupName(t.name))
    case Total(_) => DigitsGroup(GroupName(t.name))
    case Fraction(_) => DigitsGroup(GroupName(t.name))
    case Precision => PrecisionExpression(if |t.text| >= 1 then t.text[1..] else "", c)
    case Verbose(u) => GetVerboseParseString(u, c)
    case TimeSep => EscapeRoundTrip(c.timeSeparator); Escape(c.timeSeparator)
    case DecimalSep => EscapeRoundTrip(c.decimalSeparator); Escape(c.decimalSeparator)
    case WordSep => @"\s+"
    case ListSep => ListSepExpression(c)
    case Quoted => EscapeRoundTrip(t.text); Escape(t.text)
    case Escaped => EscapeRoundTrip(t.text); Escape(t.text)
  }

  /** `r` is an optional group named `n` that stands for the negative sign. */
  predicate IsNegativeGroup(r: string, c: Culture) {
    |r| >= 7 && r[..5] == "(?<n>" && r[|r| - 2..] == ")?" && Unescape(r[5..|r| - 2]) == Some(c.negativeSign)
  }

  /** `r` is `(?<p>\d+(?:`, then an escape of the decimal separator, then at most `places`
      decimals and the closing `)?)`. */
  predicate IsPrecisionGroup(r: string, places: string, c: Culture) {
    var k := |r| - 9 - |places|;
    && 11 <= k && r[..11] == @"(?<p>\d+(?:" && Unescape(r[11..k]) == Some(c.decimalSeparator)
    && r[k..] == @"\d{0," + places + "})?)"
  }

  /** `r` is an escape of the trimmed list separator between two `\s*`. */
  predicate IsListSeparator(r: string, c: Culture) {
    |r| >= 6 && r[..3] == @"\s*" && r[|r| - 3..] == @"\s*" && Unescape(r[3..|r| - 3]) == Some(Trim(c.listSeparator))
  }

  /** `n`: an optional group holding the escaped negative sign. */
  function NegativeExpression(c: Culture): (r: string)
    ensures IsNegativeGroup(r, c)
  {
    var e := Escape(c.negativeSign);
    EscapeRoundTrip(c.negativeSign);
    var g := "(?<n>" + e + ")?";
    assert g[5..|g| - 2] == e;
    g
  }

  /** `p`N: whole seconds, then optionally the escaped decimal separator and at most N
      decimals (`places` is the text after the `p`). */
  function PrecisionExpression(places: string, c: Culture): (r: string)
    ensures IsPrecisionGroup(r, places, c)
  {
    var e := Escape(c.decimalSeparator);
    EscapeRoundTrip(c.decimalSeparator);
    var tail := @"\d{0," + places + "})?)";
    var g := @"(?<p>\d+(?:" + e + tail;
    assert g[..11] == @"(?<p>\d+(?:" && g[11..|g| - |tail|] == e && g[|g| - |tail|..] == tail;
    g
  }

  /** `,`: the escaped, trimmed list separator with optional white space around it. */
  function ListSepExpression(c: Culture): (r: string)
    ensures IsListSeparator(r, c)
  {
    var e := Escape(Trim(c.listSeparator));
    EscapeRoundTrip(Trim(c.listSeparator));
    var g := @"\s*" + e + @"\s*";
    assert g[..3] == @"\s*" && g[3..|g| - 3] == e && g[|g| - 3..] == @"\s*";
    g
  }

  /** The expression of an entity: the root is anchored at both ends with white space
      allowed around the text; an optional group is an optional non-capturing group. */
  function ParseEntity(e: Entity, c: Culture): string
    decreases e
  {
    match e
    case Leaf(t) => ParseLeaf(t, c)
    case Node(isRoot, _, _, cs) =>
      if isRoot then @"^\s*" + ParseChildren(cs, c) + @"\s*$"
      else "(?:" + ParseChildren(cs, c) + ")?"
  }

  function ParseChildren(cs: seq<Entity>, c: Culture): string
    decreases cs
  {
    if cs == [] then "" else ParseEntity(cs[0], c) + ParseChildren(cs[1..], c)
  }

  /** `ProcessParseEntity`: the recursive walk with the source's `StringBuilder` loop. */
  method ProcessParseEntity(e: Entity, c: Culture) returns (r: string)
    ensures r == ParseEntity(e, c)
    decreases e, 1
  {
    if e.Leaf? {
      return ParseLeaf(e.token, c);
    }
    r := ProcessParseNode(e, c);
  }

  /** The loop over a node's children, between its opening and its closing text. */
  method ProcessParseNode(e: Entity, c: Culture) returns (r: string)
    requires e.Node?
    ensures r == ParseEntity(e, c)
    decreases e, 0
  {
    var open := if e.isRoot then @"^\s*" else "(?:";
    var sb := open;
    var i := 0;
    while i < |e.children|
      invariant i <= |e.children|
      invariant sb == open + ParseChildren(e.children[..i], c)
    {
      var out := ProcessParseEntity(e.children[i], c);
      PrefixStep(open, e.children, i, c);
      sb := sb + out;
      i := i + 1;
    }
    NodeText(e, c);
    sb := sb + if e.isRoot then @"\s*$" else ")?";
    return sb;
  }

  /** One more child appends its expression. */
  lemma PrefixStep(open: string, cs: seq<Entity>, i: nat, c: Culture)
    requires i < |cs|
    ensures open + ParseChildren(cs[..i + 1], c) == (open + ParseChildren(cs[..i], c)) + ParseEntity(cs[i], c)
  {
    assert cs[..i + 1] == cs[..i] + [cs[i]];
    ParseChildrenAppend(cs[..i], [cs[i]], c);
    assert [cs[i]][1..] == [];
  }

  /** A node's expression is its opening, its children's expressions and its closing. */
  lemma NodeText(e: Entity, c: Culture)
    requires e.Node?
    ensures var open, close := if e.isRoot then @"^\s*" else "(?:", if e.isRoot then @"\s*$" else ")?";
      ParseEntity(e, c) == (open + ParseChildren(e.children[..|e.children|], c)) + close
  {
    assert e.children[..|e.children|] == e.children;
  }

  /** The parse expression of an accepted pattern: that of its tree, or the tree builder's
      exception. */
  function ParsingExpression(p: string, s: Scanned, c: Culture): Result<string> {
    match BuildTree(p, s)
    case Err(e) => Err(e)
    case Ok(root) => Ok(ParseEntity(root, c))
  }

  /** `BuildParsingExpression`: build the tree, then walk it. */
  method BuildParsingExpression(p: string, s: Scanned, c: Culture) returns (r: Result<string>)
    ensures r == ParsingExpression(p, s, c)
  {
    var head := GetParsedTokens(p, s);
    if head.Err? {
      return Err(head.error);
    }
    var text := ProcessParseEntity(head.value, c);
    return Ok(text);
  }

  // ----- properties -----

  /** The expressions of the tokens, one after the other. */
  function LeafExpressions(ts: seq<Token>, c: Culture): string {
    if ts == [] then "" else ParseLeaf(ts[0], c) + LeafExpressions(ts[1..], c)
  }

  lemma {:induction false} LeavesExpression(ts: seq<Token>, c: Culture)
    ensures ParseChildren(Leaves(ts), c) == LeafExpressions(ts, c)
  {
    if ts != [] {
      assert Leaves(ts)[1..] == Leaves(ts[1..]);
      LeavesExpression(ts[1..], c);
    }
  }

  /** A pattern without optional groups parses with the expressions of its captures in
      pattern order, anchored, white space allowed at both ends. */
  lemma FlatPatternExpression(p: string, s: Scanned, c: Culture)
    requires s.spans == []
    ensures ParsingExpression(p, s, c) == Ok(@"^\s*" + LeafExpressions(s.tokens, c) + @"\s*$")
  {
    LeavesExpression(s.tokens, c);
  }

  /** The expression of a sequence of entities is the expressions of its parts in order. */
  lemma {:induction false} ParseChildrenAppend(a: seq<Entity>, b: seq<Entity>, c: Culture)
    ensures ParseChildren(a + b, c) == ParseChildren(a, c) + ParseChildren(b, c)
    decreases |a|
  {
    if a == [] {
      assert a + b == b;
    } else {
      assert (a + b)[0] == a[0];
      assert (a + b)[1..] == a[1..] + b;
      ParseChildrenAppend(a[1..], b, c);
    }
  }

  /** Grouping keeps the expressions of the grouped entities in place and only wraps them in
      an optional group: one splice of the tree builder, seen from the expression. */
  lemma SpliceExpression(a: seq<Entity>, b: seq<Entity>, d: seq<Entity>, start: nat, length: nat, c: Culture)
    ensures ParseChildren(a + [Node(false, start, length, b)] + d, c)
            == ParseChildren(a, c) + "(?:" + ParseChildren(b, c) + ")?" + ParseChildren(d, c)
  {
    var g := Node(false, start, length, b);
    ParseChildrenAppend(a + [g], d, c);
    ParseChildrenAppend(a, [g], c);
    OneExpression(g, c);
    var x, y, z := ParseChildren(a, c), ParseChildren(b, c), ParseChildren(d, c);
    Regroup(x, "(?:", y, ")?", z);
  }

  lemma Regroup(x: string, o: string, y: string, k: string, z: string)
    ensures x + (o + y + k) + z == x + o + y + k + z
  {
  }

  lemma OneExpression(e: Entity, c: Culture)
    ensures ParseChildren([e], c) == ParseEntity(e, c)
  {
    assert [e][1..] == [];
  }
}
