/** The earlier duration formatter, `TimeSpanFormatInfo` of the first `TimeSpan2` library:
    a handful of one-letter formats (`n`, the verbose full format `f`, and a total in one
    unit), a zero text that overrides them, and a parser that first hands the text to the
    platform and otherwise rewrites unit words into letters before matching a resource
    expression. */
module Legacy {
  import opened Wrappers
  import opened Strings
  import opened Spans
  import opened Cultures

  // ----- the pieces of the full format -----

  /** The letters the full format keys its pieces by, one per unit it shows. */
  const FullKeys: string := "dhmst"

  /** The unit a key letter stands for (`t` is milliseconds here). */
  function KeyUnit(k: char): Unit {
    if k == 'd' then Day
    else if k == 'h' then Hour
    else if k == 'm' then Minute
    else if k == 's' then Second
    else Millisecond
  }

  /** The component of a duration shown under a key letter. */
  function KeyValue(core: TimeSpan2, k: char): int {
    if k == 'd' then core.Days()
    else if k == 'h' then core.Hours()
    else if k == 'm' then core.Minutes()
    else if k == 's' then core.Seconds()
    else core.Milliseconds()
  }

  /** `string.Format(template, n)` for a template whose placeholder is `{0}`. */
  function FillTemplate(template: string, n: nat): string {
    Replace(template, "{0}", DecimalText(n))
  }

  /** The piece of one positive component: the singular template for exactly 1, the plural
      one otherwise, filled with the number. */
  function Piece(u: Unit, v: nat, c: Culture): string {
    FillTemplate(if v == 1 then c.one.Get(u) else c.many.Get(u), v)
  }

  /** A piece per positive component, keyed by its letter (the five conditional `Add`s,
      whose keys are distinct). */
  function Components(core: TimeSpan2, c: Culture): map<char, string> {
    map k | k in FullKeys && KeyValue(core, k) > 0 :: Piece(KeyUnit(k), KeyValue(core, k), c)
  }

  /** The dictionary of the full format: a piece per positive component; a positive
      duration without any gets its total seconds, rendered by the platform, instead. */
  function FullPieces(core: TimeSpan2, c: Culture, pf: Platform): map<char, string> {
    var sc := Components(core, c);
    if |sc| == 0 && core.ticks > 0 then map['s' := pf.totalText('s', core.ticks)] else sc
  }

  /** The pieces the letters of `o` name, in the order of `o`. */
  function Picks(sc: map<char, string>, o: string): seq<string>
    decreases |o|
  {
    if o == [] then []
    else Picks(sc, o[..|o| - 1]) + (if o[|o| - 1] in sc then [sc[o[|o| - 1]]] else [])
  }

  /** Slots of the `vals` array that nothing fills; `string.Join` writes them as empty. */
  function Blanks(n: nat): (r: seq<string>)
    ensures |r| == n && forall k :: 0 <= k < n ==> r[k] == ""
  {
    seq(n, _ => "")
  }

  /** The `vals` array: the pieces in the order of the first five letters of the build
      order, unfilled slots left empty. IndexOutOfRangeException when the build order is
      shorter than five letters or names more pieces than there are. */
  function OrderedOf(sc: map<char, string>, ordering: string): (r: Result<seq<string>>)
    ensures r.Err? ==> r.error == IndexOutOfRangeException
    ensures r.Ok? ==> |r.value| == |sc|
  {
    if |ordering| < 5 then Err(IndexOutOfRangeException)
    else
      var picks := Picks(sc, ordering[..5]);
      if |picks| > |sc| then Err(IndexOutOfRangeException)
      else Ok(picks + Blanks(|sc| - |picks|))
  }

  /** The `for` loop of the full format: each letter of the build order that names a piece
      puts it in the next slot of `vals`. */
  method Ordered(sc: map<char, string>, ordering: string) returns (r: Result<seq<string>>)
    ensures r == OrderedOf(sc, ordering)
  {
    var vals := new string[|sc|](_ => "");
    var p := 0;
    for i := 0 to 5
      invariant i <= |ordering|
      invariant p == |Picks(sc, ordering[..i])| <= vals.Length
      invariant vals[..p] == Picks(sc, ordering[..i])
      invariant forall k :: p <= k < vals.Length ==> vals[k] == ""
    {
      if i >= |ordering| {
        return Err(IndexOutOfRangeException);
      }
      assert ordering[..i + 1][..i] == ordering[..i];
      if ordering[i] in sc {
        if p >= vals.Length {
          if |ordering| >= 5 {
            PicksBeyond(sc, ordering, i);
          }
          return Err(IndexOutOfRangeException);
        }
        vals[p] := sc[ordering[i]];
        p := p + 1;
      }
    }
    assert vals[..] == vals[..p] + Blanks(vals.Length - p);
    return Ok(vals[..]);
  }

  /** The full format: the ordered pieces joined with the list separator. */
  function FullTextOf(core: TimeSpan2, c: Culture, pf: Platform): (r: Result<string>)
    ensures r.Err? ==> r.error == IndexOutOfRangeException
  {
    var vals :- OrderedOf(FullPieces(core, c, pf), c.buildOrder);
    Ok(Join(c.listSeparator, vals))
  }

  method FullText(core: TimeSpan2, c: Culture, pf: Platform) returns (r: Result<string>)
    ensures r == FullTextOf(core, c, pf)
  {
    var sc := FullPieces(core, c, pf);
    var vals := Ordered(sc, c.buildOrder);
    if vals.Err? {
      return Err(vals.error);
    }
    return Ok(Join(c.listSeparator, vals.value));
  }

  /** Once the slots are used up, a further piece overflows them for good. */
  lemma PicksBeyond(sc: map<char, string>, o: string, i: nat)
    requires i < 5 <= |o| && o[i] in sc && |Picks(sc, o[..i])| >= |sc|
    ensures |Picks(sc, o[..5])| > |sc|
  {
    assert o[..i + 1][..i] == o[..i];
    PicksGrow(sc, o[..5], i + 1);
    assert o[..5][..i + 1] == o[..i + 1];
  }

  /** Later letters only add pieces. */
  lemma {:induction false} PicksGrow(sc: map<char, string>, o: string, i: nat)
    requires i <= |o|
    ensures |Picks(sc, o[..i])| <= |Picks(sc, o)|
    decreases |o| - i
  {
    if i < |o| {
      PicksGrow(sc, o, i + 1);
      assert o[..i + 1][..i] == o[..i];
    } else {
      assert o[..i] == o;
    }
  }

  // ----- properties of the full format -----

  /** Which pieces there are: a key letter holds a piece exactly when its component is
      positive, with the singular template exactly for 1; the only other piece is the total
      seconds of a duration under a millisecond. A duration that is not positive has none. */
  lemma FullPiecesShape(core: TimeSpan2, c: Culture, pf: Platform)
    ensures var sc := FullPieces(core, c, pf);
      (forall k :: k in sc ==> k in FullKeys)
      && (forall k :: k in FullKeys && KeyValue(core, k) > 0 ==> k in sc && sc[k] == Piece(KeyUnit(k), KeyValue(core, k), c))
      && (forall k :: k in sc && KeyValue(core, k) <= 0 ==> k == 's' && 0 < core.ticks < TicksPerMillisecond)
      && (core.ticks <= 0 <==> sc == map[])
  {
    var cs := Components(core, c);
    if |cs| == 0 && core.ticks > 0 {
      NoComponents(core, c);
      SubMillisecond(core);
    } else if core.ticks <= 0 {
      NotPositiveComponents(core);
      assert cs == map[];
    }
  }

  /** Without any piece, no component is positive. */
  lemma NoComponents(core: TimeSpan2, c: Culture)
    requires |Components(core, c)| == 0
    ensures forall k :: k in FullKeys ==> KeyValue(core, k) <= 0
  {
    forall k | k in FullKeys
      ensures KeyValue(core, k) <= 0
    {
      NotKey(core, c, k);
    }
  }

  lemma NotKey(core: TimeSpan2, c: Culture, k: char)
    requires |Components(core, c)| == 0 && k in FullKeys
    ensures KeyValue(core, k) <= 0
  {
    assert k !in Components(core, c);
  }

  /** A duration that is not positive has no positive component. */
  lemma NotPositiveComponents(core: TimeSpan2)
    requires core.ticks <= 0
    ensures forall k :: KeyValue(core, k) <= 0
  {
    var d := core.Days();
    if d > 0 {
      assert false;
    }
  }

  /** A positive duration without a positive component is under a millisecond. */
  lemma SubMillisecond(core: TimeSpan2)
    requires core.ticks > 0
    requires forall k :: k in FullKeys ==> KeyValue(core, k) <= 0
    ensures core.ticks < TicksPerMillisecond
  {
    assert FullKeys[0] == 'd' && FullKeys[1] == 'h' && FullKeys[2] == 'm' && FullKeys[3] == 's' && FullKeys[4] == 't';
    assert KeyValue(core, 'd') <= 0 && KeyValue(core, 'h') <= 0 && KeyValue(core, 'm') <= 0;
    assert KeyValue(core, 's') <= 0 && KeyValue(core, 't') <= 0;
    ZeroComponents(core);
  }

  lemma ZeroComponents(core: TimeSpan2)
    requires core.ticks > 0
    requires core.Days() <= 0 && core.Hours() <= 0 && core.Minutes() <= 0 && core.Seconds() <= 0 && core.Milliseconds() <= 0
    ensures core.ticks < TicksPerMillisecond
  {
    Decomposition(core);
    var d := core.Days();
    if d < 0 {
      assert false;
    }
  }

  /** The build order the resources are meant to hold: the five key letters, each once. */
  predicate ValidBuildOrder(o: string) {
    |o| >= 5 && (forall i, j :: 0 <= i < j < 5 ==> o[i] != o[j]) && forall k :: k in FullKeys ==> k in o[..5]
  }

  /** The letters of a string. */
  function Letters(o: string): set<char> {
    set k | k in o
  }

  /** With distinct letters, the pieces picked are those whose keys occur in the order. */
  lemma {:induction false} PicksCount(sc: map<char, string>, o: string)
    requires forall i, j :: 0 <= i < j < |o| ==> o[i] != o[j]
    ensures |Picks(sc, o)| == |sc.Keys * Letters(o)|
    decreases |o|
  {
    if o == [] {
      assert sc.Keys * Letters(o) == {};
    } else {
      var x, q := o[|o| - 1], o[..|o| - 1];
      PicksCount(sc, q);
      LettersSnoc(o);
      assert x !in Letters(q) by {
        assert forall i :: 0 <= i < |q| ==> q[i] == o[i];
      }
      CardStep(sc.Keys, Letters(q), x);
    }
  }

  lemma LettersSnoc(o: string)
    requires o != []
    ensures Letters(o) == Letters(o[..|o| - 1]) + {o[|o| - 1]}
  {
    assert o == o[..|o| - 1] + [o[|o| - 1]];
  }

  lemma CardStep(keys: set<char>, letters: set<char>, x: char)
    requires x !in letters
    ensures |keys * (letters + {x})| == |keys * letters| + (if x in keys then 1 else 0)
  {
    if x in keys {
      assert keys * (letters + {x}) == (keys * letters) + {x};
    } else {
      assert keys * (letters + {x}) == keys * letters;
    }
  }

  /** With a valid build order every piece gets a slot of its own and the text is the pieces
      in build order with a separator between each two; so the separator appears only when
      there are at least two pieces. */
  lemma FullTextInOrder(core: TimeSpan2, c: Culture, pf: Platform)
    requires ValidBuildOrder(c.buildOrder)
    ensures var sc := FullPieces(core, c, pf);
      var picks := Picks(sc, c.buildOrder[..5]);
      |picks| == |sc| && FullTextOf(core, c, pf) == Ok(Join(c.listSeparator, picks))
  {
    var sc := FullPieces(core, c, pf);
    var o := c.buildOrder[..5];
    FullPiecesShape(core, c, pf);
    PicksCount(sc, o);
    assert sc.Keys * Letters(o) == sc.Keys;
    assert Picks(sc, o) + Blanks(0) == Picks(sc, o);
  }

  /** A single piece is the whole text, and no pieces make the empty text. */
  lemma OnePieceNoSeparator(core: TimeSpan2, c: Culture, pf: Platform)
    requires ValidBuildOrder(c.buildOrder) && |FullPieces(core, c, pf)| <= 1
    ensures var sc := FullPieces(core, c, pf);
      FullTextOf(core, c, pf).Ok?
      && (sc == map[] ==> FullTextOf(core, c, pf).value == "")
      && (forall k :: k in sc ==> FullTextOf(core, c, pf).value == sc[k])
  {
    FullTextInOrder(core, c, pf);
    FullPiecesShape(core, c, pf);
    OnePick(FullPieces(core, c, pf), c.buildOrder[..5], c.listSeparator);
  }

  lemma OnePick(sc: map<char, string>, o: string, sep: string)
    requires |Picks(sc, o)| == |sc| <= 1 && forall k :: k in sc ==> k in o
    ensures sc == map[] ==> Join(sep, Picks(sc, o)) == ""
    ensures forall k :: k in sc ==> Join(sep, Picks(sc, o)) == sc[k]
  {
    forall k | k in sc
      ensures Join(sep, Picks(sc, o)) == sc[k]
    {
      PicksMember(sc, o, k);
    }
  }

  /** A picked piece is a value of the dictionary, and a letter of the order that holds a
      piece has it picked. */
  lemma {:induction false} PicksMember(sc: map<char, string>, o: string, k: char)
    requires k in sc && k in o
    ensures sc[k] in Picks(sc, o)
    decreases |o|
  {
    if o[|o| - 1] != k {
      PicksMember(sc, o[..|o| - 1], k);
    }
  }

  /** A duration that is not positive has nothing to show in the full format. */
  lemma NotPositiveFullIsEmpty(core: TimeSpan2, c: Culture, pf: Platform)
    requires core.ticks <= 0 && |c.buildOrder| >= 5
    ensures FullTextOf(core, c, pf) == Ok("")
  {
    FullPiecesShape(core, c, pf);
    NoPicks(FullPieces(core, c, pf), c.buildOrder[..5]);
  }

  lemma {:induction false} NoPicks(sc: map<char, string>, o: string)
    requires sc == map[]
    ensures Picks(sc, o) == []
    decreases |o|
  {
    if o != [] {
      NoPicks(sc, o[..|o| - 1]);
    }
  }

  // ----- the word pass of the parser -----

  /** One synonym: `IndexOf`, then `StringBuilder.Replace` with the letter when it occurs.
      The empty word occurs everywhere and `Replace` refuses it. */
  function ReplaceWord(sb: string, w: string, letter: char): (r: Result<(string, bool)>)
    ensures r.Err? <==> w == []
    ensures r.Ok? ==> (r.value.1 <==> Contains(sb, w))
  {
    if IndexOf(sb, w) == -1 then Ok((sb, false))
    else if w == [] then Err(ArgumentException)
    else Ok((Replace(sb, w, [letter]), true))
  }

  /** The `foreach` over one unit's synonyms, in the order of the list; `found` says
      whether any replacement happened so far. */
  function ReplaceWordsOf(sb: string, found: bool, ws: seq<string>, letter: char): Result<(string, bool)>
    decreases |ws|
  {
    if ws == [] then Ok((sb, found))
    else
      match ReplaceWord(sb, ws[0], letter)
      case Err(e) => Err(e)
      case Ok(x) => ReplaceWordsOf(x.0, found || x.1, ws[1..], letter)
  }

  /** The units in the order the parser rewrites them, with their letters. */
  function WordUnits(c: Culture): seq<(string, char)> {
    [(c.words.millisecond, 't'), (c.words.second, 's'), (c.words.minute, 'm'),
     (c.words.hour, 'h'), (c.words.day, 'd')]
  }

  /** The five loops, one unit after the other. */
  function WordPassOf(sb: string, found: bool, units: seq<(string, char)>): Result<(string, bool)>
    decreases |units|
  {
    if units == [] then Ok((sb, found))
    else
      match ReplaceWordsOf(sb, found, Split(units[0].0, ','), units[0].1)
      case Err(e) => Err(e)
      case Ok(x) => WordPassOf(x.0, x.1, units[1..])
  }

  method ReplaceWords(sb: string, found: bool, words: string, letter: char) returns (r: Result<(string, bool)>)
    ensures r == ReplaceWordsOf(sb, found, Split(words, ','), letter)
  {
    var ws := Split(words, ',');
    var text, f := sb, found;
    for i := 0 to |ws|
      invariant ReplaceWordsOf(sb, found, ws, letter) == ReplaceWordsOf(text, f, ws[i..], letter)
    {
      assert ws[i..][0] == ws[i] && ws[i..][1..] == ws[i + 1..];
      if IndexOf(text, ws[i]) != -1 {
        if ws[i] == [] {
          return Err(ArgumentException);
        }
        f := true;
        text := Replace(text, ws[i], [letter]);
      }
    }
    assert ws[|ws|..] == [];
    return Ok((text, f));
  }

  method WordPass(sb: string, units: seq<(string, char)>) returns (r: Result<(string, bool)>)
    ensures r == WordPassOf(sb, false, units)
  {
    var text, f := sb, false;
    for u := 0 to |units|
      invariant WordPassOf(sb, false, units) == WordPassOf(text, f, units[u..])
    {
      assert units[u..][0] == units[u] && units[u..][1..] == units[u + 1..];
      var step := ReplaceWords(text, f, units[u].0, units[u].1);
      if step.Err? {
        return Err(step.error);
      }
      text, f := step.value.0, step.value.1;
    }
    assert units[|units|..] == [];
    return Ok((text, f));
  }

  // ----- properties of the word pass -----

  predicate NoneOccurs(t: string, ws: seq<string>) {
    forall j :: 0 <= j < |ws| ==> !Contains(t, ws[j])
  }

  predicate NoWordOccurs(t: string, units: seq<(string, char)>) {
    forall i :: 0 <= i < |units| ==> NoneOccurs(t, Split(units[i].0, ','))
  }

  predicate HasEmptyWord(units: seq<(string, char)>) {
    exists i :: 0 <= i < |units| && [] in Split(units[i].0, ',')
  }

  /** Once a replacement happened, the flag stays set. */
  lemma {:induction false} ReplaceWordsKeepFound(sb: string, ws: seq<string>, letter: char)
    ensures var r := ReplaceWordsOf(sb, true, ws, letter); r.Ok? ==> r.value.1
    decreases |ws|
  {
    if ws != [] && ReplaceWord(sb, ws[0], letter).Ok? {
      ReplaceWordsKeepFound(ReplaceWord(sb, ws[0], letter).value.0, ws[1..], letter);
    }
  }

  /** A unit's loop replaces nothing exactly when none of its words occurs; the text is then
      unchanged. */
  lemma {:induction false} ReplaceWordsNone(sb: string, ws: seq<string>, letter: char)
    ensures var r := ReplaceWordsOf(sb, false, ws, letter);
      (r.Ok? && !r.value.1 <==> NoneOccurs(sb, ws))
      && (NoneOccurs(sb, ws) ==> r == Ok((sb, false)))
    decreases |ws|
  {
    if ws != [] {
      var x := ReplaceWord(sb, ws[0], letter);
      if x.Ok? && x.value.1 {
        ReplaceWordsKeepFound(x.value.0, ws[1..], letter);
      } else if x.Ok? {
        ReplaceWordsNone(sb, ws[1..], letter);
      }
    }
  }

  /** The word pass only ever raises ArgumentException, and raises it whenever some unit's
      synonym list holds an empty word (as an empty list, or two commas in a row, does). */
  lemma {:induction false} ReplaceWordsRaise(sb: string, found: bool, ws: seq<string>, letter: char)
    ensures var r := ReplaceWordsOf(sb, found, ws, letter);
      (r.Err? ==> r.error == ArgumentException) && ([] in ws ==> r == Err(ArgumentException))
    decreases |ws|
  {
    if ws != [] {
      var x := ReplaceWord(sb, ws[0], letter);
      if x.Ok? {
        ReplaceWordsRaise(x.value.0, found || x.value.1, ws[1..], letter);
      }
    }
  }

  lemma {:induction false} WordPassRaises(sb: string, found: bool, units: seq<(string, char)>)
    ensures var r := WordPassOf(sb, found, units);
      (r.Err? ==> r.error == ArgumentException) && (HasEmptyWord(units) ==> r == Err(ArgumentException))
    decreases |units|
  {
    if units != [] {
      var ws := Split(units[0].0, ',');
      ReplaceWordsRaise(sb, found, ws, units[0].1);
      var x := ReplaceWordsOf(sb, found, ws, units[0].1);
      if x.Ok? {
        WordPassRaises(x.value.0, x.value.1, units[1..]);
        if HasEmptyWord(units) {
          var i :| 0 <= i < |units| && [] in Split(units[i].0, ',');
          assert i != 0;
          assert [] in Split(units[1..][i - 1].0, ',');
        }
      }
    }
  }

  lemma {:induction false} WordPassKeepFound(sb: string, units: seq<(string, char)>)
    ensures var r := WordPassOf(sb, true, units); r.Ok? ==> r.value.1
    decreases |units|
  {
    if units != [] {
      var ws := Split(units[0].0, ',');
      ReplaceWordsKeepFound(sb, ws, units[0].1);
      var x := ReplaceWordsOf(sb, true, ws, units[0].1);
      if x.Ok? {
        WordPassKeepFound(x.value.0, units[1..]);
      }
    }
  }

  /** The pass replaces nothing exactly when no synonym of any unit occurs in the text, and
      the text then comes out unchanged. */
  lemma {:induction false} WordPassNone(sb: string, units: seq<(string, char)>)
    ensures var r := WordPassOf(sb, false, units);
      (r.Ok? && !r.value.1 <==> NoWordOccurs(sb, units))
      && (NoWordOccurs(sb, units) ==> r == Ok((sb, false)))
    decreases |units|
  {
    if units != [] {
      var ws := Split(units[0].0, ',');
      ReplaceWordsNone(sb, ws, units[0].1);
      var x := ReplaceWordsOf(sb, false, ws, units[0].1);
      if x.Ok? && x.value.1 {
        WordPassKeepFound(x.value.0, units[1..]);
      } else if x.Ok? {
        WordPassNone(sb, units[1..]);
        assert NoWordOccurs(sb, units) <==> NoneOccurs(sb, ws) && NoWordOccurs(sb, units[1..]) by {
          if NoneOccurs(sb, ws) && NoWordOccurs(sb, units[1..]) {
            forall i | 0 <= i < |units| ensures NoneOccurs(sb, Split(units[i].0, ',')) {
              if i > 0 {
                assert units[i] == units[1..][i - 1];
              }
            }
          }
          if NoWordOccurs(sb, units) {
            forall i | 0 <= i < |units| - 1 ensures NoneOccurs(sb, Split(units[1..][i].0, ',')) {
              assert units[1..][i] == units[i + 1];
            }
          }
        }
      }
    }
  }

  // ----- the captures of the resource expression -----

  /** `int.Parse` of a group, or 0 when the group did not take part. */
  function GroupInt(caps: Captures, name: string): (r: Result<Int32>)
    ensures r.Ok? ==> r.value >= 0
    ensures name !in caps ==> r == Ok(0)
    ensures name in caps ==> (r.Ok? <==> ParseInt32(caps[name]).Some?)
    ensures name in caps && r.Ok? ==> r.value == ParseInt32(caps[name]).value
  {
    if name in caps then
      match ParseIntText(caps[name])
      case Err(e) => Err(e)
      case Ok(v) => Ok(v)
    else Ok(0)
  }

  /** The captures AS WRITTEN: the milliseconds group is parsed into the seconds variable,
      so it overwrites any seconds and the milliseconds argument stays 0. */
  function CapturesValueAsWritten(caps: Captures): (r: Result<TimeSpan2>)
    ensures r.Ok? ==> r.value.ticks % TicksPerSecond == 0
    ensures "t" in caps && GroupInt(caps, "s").Ok? ==>
      r == CapturesValue(caps["s" := caps["t"]] - {"t"})
  {
    RenamedGroups(caps);
    var d :- GroupInt(caps, "d");
    var h :- GroupInt(caps, "h");
    var mi :- GroupInt(caps, "m");
    var sc :- GroupInt(caps, "s");
    var t :- GroupInt(caps, "t");
    var seconds := if "t" in caps then t else sc;
    MillisecondTicks(((d * 24 + h) * 60 + mi) * 60 + seconds, 0);
    FromDhmsm(d, h, mi, seconds, 0)
  }

  /** The captures as intended: every group goes to its own argument of the constructor. */
  function CapturesValue(caps: Captures): (r: Result<TimeSpan2>)
    ensures r.Ok? ==> r.value.ticks % TicksPerMillisecond == 0
    ensures GroupInt(caps, "t").Ok? && GroupInt(caps, "t").value % 1000 != 0 && r.Ok? ==>
      r.value.ticks % TicksPerSecond != 0
  {
    var d :- GroupInt(caps, "d");
    var h :- GroupInt(caps, "h");
    var mi :- GroupInt(caps, "m");
    var sc :- GroupInt(caps, "s");
    var t :- GroupInt(caps, "t");
    MillisecondTicks(((d * 24 + h) * 60 + mi) * 60 + sc, t);
    FromDhmsm(d, h, mi, sc, t)
  }

  /** Renaming the `t` capture to `s` moves its value into the seconds group and leaves
      the others alone. */
  lemma RenamedGroups(caps: Captures)
    ensures "t" in caps ==>
      var renamed := caps["s" := caps["t"]] - {"t"};
      && GroupInt(renamed, "d") == GroupInt(caps, "d")
      && GroupInt(renamed, "h") == GroupInt(caps, "h")
      && GroupInt(renamed, "m") == GroupInt(caps, "m")
      && GroupInt(renamed, "s") == GroupInt(caps, "t")
      && GroupInt(renamed, "t") == Ok(0)
  {
    if "t" in caps {
      var renamed := caps["s" := caps["t"]] - {"t"};
      assert "d" != "s" && "d" != "t" && "h" != "s" && "h" != "t" && "m" != "s" && "m" != "t" && "s" != "t";
      assert "t" !in renamed;
    }
  }

  /** A count of milliseconds in ticks: always whole milliseconds, whole seconds exactly
      when the milliseconds beyond the whole seconds are zero. */
  lemma MillisecondTicks(seconds: int, ms: int)
    ensures (seconds * 1000 + ms) * TicksPerMillisecond % TicksPerMillisecond == 0
    ensures (seconds * 1000 + ms) * TicksPerMillisecond % TicksPerSecond == 0 <==> ms % 1000 == 0
  {
    var x := seconds * 1000 + ms;
    assert x * TicksPerMillisecond == x * 10_000;
    assert x % 1000 == ms % 1000 by {
      assert x == seconds * 1000 + ms;
    }
    assert x * 10_000 % 10_000_000 == (x % 1000) * 10_000;
  }

  /** The decimal text of a count reads back as that count. */
  lemma DecimalTextParses(n: nat)
    requires n <= MaxInt32
    ensures ParseIntText(DecimalText(n)) == Ok(n)
  {
    DecimalTextValue(n);
  }

  /** The captures of five counts read back as the duration the constructor makes of them:
      the milliseconds land in the milliseconds, not in the seconds. */
  lemma CapturesReadBack(d: nat, h: nat, m: nat, s: nat, t: nat)
    requires d <= MaxInt32 && h <= MaxInt32 && m <= MaxInt32 && s <= MaxInt32 && t <= MaxInt32
    ensures var caps := map["d" := DecimalText(d), "h" := DecimalText(h), "m" := DecimalText(m),
                            "s" := DecimalText(s), "t" := DecimalText(t)];
      CapturesValue(caps) == FromDhmsm(d, h, m, s, t)
      && (CapturesValue(caps).Ok? ==>
            CapturesValue(caps).value.ticks
            == d * TicksPerDay + h * TicksPerHour + m * TicksPerMinute + s * TicksPerSecond + t * TicksPerMillisecond)
  {
    DecimalTextParses(d);
    DecimalTextParses(h);
    DecimalTextParses(m);
    DecimalTextParses(s);
    DecimalTextParses(t);
  }

  /** "2 seconds 5 milliseconds", rewritten to "2 s 5 t", captures s = 2 and t = 5: as
      written that reads as five seconds; intended are two seconds and five milliseconds. */
  lemma MillisecondsOverwriteSeconds()
    ensures var caps := map["s" := "2", "t" := "5"];
      CapturesValueAsWritten(caps) == Ok(TimeSpan2(5 * TicksPerSecond))
      && CapturesValue(caps) == Ok(TimeSpan2(2 * TicksPerSecond + 5 * TicksPerMillisecond))
  {
    var caps := map["s" := "2", "t" := "5"];
    assert ParseIntText("2") == Ok(2) by {
      assert DigitsValue("2") == 2;
    }
    assert ParseIntText("5") == Ok(5) by {
      assert DigitsValue("5") == 5;
    }
    assert GroupInt(caps, "s") == Ok(2);
    assert GroupInt(caps, "t") == Ok(5);
  }

  /** Without a milliseconds capture the reading as written is the intended one. */
  lemma AsWrittenWithoutMilliseconds(caps: Captures)
    requires "t" !in caps
    ensures CapturesValueAsWritten(caps) == CapturesValue(caps)
  {
    assert GroupInt(caps, "t") == Ok(0);
  }

  // ----- the formatter and parser -----

  /** The letters of the one-letter formats. */
  const FormatLetters: string := "nfsmhdt"

  class TimeSpanFormatInfo {
    /** `TimeSpanZeroDisplay`; an unset one reads as empty. */
    var zeroDisplay: string
    /** The resources of the culture the instance was made for. */
    const culture: Culture
    const platform: Platform

    constructor (culture: Culture, platform: Platform)
      ensures this.culture == culture && this.platform == platform && zeroDisplay == ""
    {
      this.culture := culture;
      this.platform := platform;
      zeroDisplay := "";
    }

    /** The zero text of a format: what follows a `;` in second place, else the zero display. */
    function ZeroTextOf(format: string): string
      reads this
    {
      if |format| > 1 && format[1] == ';' then format[2..] else zeroDisplay
    }

    /** `FormatTimeSpan`: a zero duration with a zero text is that text; otherwise the first
      letter picks the format (`n` when there is none). FormatException for any other letter. */
    function FormatOf(core: TimeSpan2, format: string): Result<string>
      reads this
    {
      var fmt := if format == "" then 'n' else format[0];
      var zeroFormat := ZeroTextOf(format);
      if core.IsZero() && zeroFormat != "" then Ok(zeroFormat)
      else if fmt == 'n' then Ok(platform.timeSpanText(core.ticks))
      else if fmt == 'f' then FullTextOf(core, culture, platform)
      else if fmt in "smhdt" then Ok(platform.totalText(fmt, core.ticks))
      else Err(FormatException)
    }

    method FormatTimeSpan(core: TimeSpan2, format: string) returns (r: Result<string>)
      ensures r == FormatOf(core, format)
    {
      var fmt := if format == "" then 'n' else format[0];
      var zeroFormat := zeroDisplay;
      if |format| > 1 && format[1] == ';' {
        zeroFormat := format[2..];
      }
      if core.IsZero() && zeroFormat != "" {
        return Ok(zeroFormat);
      }
      if fmt == 'n' {
        return Ok(platform.timeSpanText(core.ticks));
      } else if fmt == 'f' {
        r := FullText(core, culture, platform);
      } else if fmt in "smhdt" {
        return Ok(platform.totalText(fmt, core.ticks));
      } else {
        return Err(FormatException);
      }
    }

    /** `TryParse`: the trimmed text; blank fails. The platform's parser first, then the
      zero display (case ignored), then the word pass and the resource expression, which
      runs only when some word was replaced; its captures are read as written, milliseconds
      into the seconds. Failure yields zero. */
    function TryParseOf(value: string): (r: Result<(bool, TimeSpan2)>)
      reads this
      ensures r.Ok? && !r.value.0 ==> r.value.1 == Zero
    {
      var v := Trim(value);
      if v == "" then Ok((false, Zero))
      else if platform.timeSpanTryParse(v).Some? then Ok((true, TimeSpan2(platform.timeSpanTryParse(v).value)))
      else if zeroDisplay != "" && EqualsIgnoreCase(v, zeroDisplay) then Ok((true, Zero))
      else
        var w :- WordPassOf(ToLower(v), false, WordUnits(culture));
        if !w.1 then Ok((false, Zero))
        else
          match platform.legacyMatch(w.0)
          case None => Ok((false, Zero))
          case Some(caps) =>
            var t :- CapturesValueAsWritten(caps);
            Ok((true, t))
    }

    method TryParse(value: string) returns (r: Result<(bool, TimeSpan2)>)
      ensures r == TryParseOf(value)
    {
      var v := Trim(value);
      if v == "" {
        return Ok((false, Zero));
      }
      var easy := platform.timeSpanTryParse(v);
      if easy.Some? {
        return Ok((true, TimeSpan2(easy.value)));
      }
      if zeroDisplay != "" && EqualsIgnoreCase(v, zeroDisplay) {
        return Ok((true, Zero));
      }
      var w := WordPass(ToLower(v), WordUnits(culture));
      if w.Err? {
        return Err(w.error);
      }
      if w.value.1 {
        var m := platform.legacyMatch(w.value.0);
        if m.Some? {
          var t := CapturesValueAsWritten(m.value);
          if t.Err? {
            return Err(t.error);
          }
          return Ok((true, t.value));
        }
      }
      return Ok((false, Zero));
    }

    /** `Parse`: ArgumentNullException for empty text, FormatException when `TryParse` fails. */
    function ParseOf(s: string): Result<TimeSpan2>
      reads this
    {
      if s == "" then Err(ArgumentNullException)
      else
        var r :- TryParseOf(s);
        if r.0 then Ok(r.1) else Err(FormatException)
    }

    // ----- properties -----

    /** A zero duration with a zero text formats as exactly that text, whatever the letter. */
    lemma ZeroTextWins(format: string)
      requires ZeroTextOf(format) != ""
      ensures FormatOf(Zero, format) == Ok(ZeroTextOf(format))
    {
    }

    /** FormatException exactly for a letter outside `n f s m h d t`, unless the zero text
        answers first. */
    lemma UnknownLetterRaises(core: TimeSpan2, format: string)
      ensures FormatOf(core, format) == Err(FormatException)
              <==> !(core.IsZero() && ZeroTextOf(format) != "") && format != [] && format[0] !in FormatLetters
    {
    }

    /** Blank text fails, without raising. */
    lemma BlankFails(s: string)
      requires AllWhite(s)
      ensures TryParseOf(s) == Ok((false, Zero))
    {
    }

    /** The zero display, in any letter case and with white space around it, reads as zero
        when the platform's parser does not read it. */
    lemma ZeroDisplayParses(s: string)
      requires zeroDisplay != "" && EqualsIgnoreCase(Trim(s), zeroDisplay)
      requires platform.timeSpanTryParse(Trim(s)).None?
      ensures TryParseOf(s) == Ok((true, Zero))
    {
    }

    /** Text the platform does not read, that is not the zero display, and in which no unit
        word occurs never reaches the resource expression: it fails. */
    lemma NoWordsFail(s: string)
      requires var v := Trim(s);
        v != "" && platform.timeSpanTryParse(v).None?
        && !(zeroDisplay != "" && EqualsIgnoreCase(v, zeroDisplay))
        && NoWordOccurs(ToLower(v), WordUnits(culture))
      ensures TryParseOf(s) == Ok((false, Zero))
    {
      WordPassNone(ToLower(Trim(s)), WordUnits(culture));
    }

    /** Text that reaches the resource expression and matches it is read as written: the
        result is the captures' reading with milliseconds in the seconds, so a duration
        parsed this way is always a whole number of seconds. */
    lemma MatchedAsWritten(s: string, caps: Captures)
      requires var v := Trim(s);
        v != "" && platform.timeSpanTryParse(v).None?
        && !(zeroDisplay != "" && EqualsIgnoreCase(v, zeroDisplay))
        && WordPassOf(ToLower(v), false, WordUnits(culture)).Ok?
        && WordPassOf(ToLower(v), false, WordUnits(culture)).value.1
        && platform.legacyMatch(WordPassOf(ToLower(v), false, WordUnits(culture)).value.0) == Some(caps)
      ensures CapturesValueAsWritten(caps).Ok? ==>
        TryParseOf(s) == Ok((true, CapturesValueAsWritten(caps).value))
        && TryParseOf(s).value.1.ticks % TicksPerSecond == 0
      ensures CapturesValueAsWritten(caps).Err? ==> TryParseOf(s) == Err(CapturesValueAsWritten(caps).error)
    {
    }

    /** A culture with an empty unit word makes every text that gets as far as the word pass
        raise ArgumentException. */
    lemma EmptyWordRaises(s: string)
      requires var v := Trim(s);
        v != "" && platform.timeSpanTryParse(v).None?
        && !(zeroDisplay != "" && EqualsIgnoreCase(v, zeroDisplay))
      requires HasEmptyWord(WordUnits(culture))
      ensures TryParseOf(s) == Err(ArgumentException)
    {
      WordPassRaises(ToLower(Trim(s)), false, WordUnits(culture));
    }

    /** `Parse` returns a duration exactly when `TryParse` succeeds with it. */
    lemma ParseAgreesWithTryParse(s: string)
      ensures s != "" ==> (ParseOf(s).Ok? <==> TryParseOf(s).Ok? && TryParseOf(s).value.0)
      ensures ParseOf(s).Ok? ==> TryParseOf(s) == Ok((true, ParseOf(s).value))
      ensures s == "" ==> ParseOf(s) == Err(ArgumentNullException)
    {
    }
  }
}
