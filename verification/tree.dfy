/** The parse tree of a validated pattern (`GetParsedTokens`): the captures, in pattern
    order, with every balanced `[`...`]` spliced into one group node that holds the entities
    captured inside it. */
module Trees {
  import opened Wrappers
  import opened Patterns

  /** A captured token, or a group: an optional `[`...`]` group or the root of the pattern,
      with its offset, its length and its entities in pattern order. */
  datatype Entity =
    | Leaf(token: Token)
    | Node(isRoot: bool, start: nat, length: nat, children: seq<Entity>)
  {
    function Start(): nat { if Leaf? then token.start else start }
    function Length(): nat { if Leaf? then |token.text| else length }
    function End(): nat { Start() + Length() }
  }

  /** `List.FindIndex(e => e.start > index)`: the first entity that starts after `index`,
      or -1. */
  function FindFirstAfter(list: seq<Entity>, index: nat): (f: int)
    ensures -1 <= f < |list|
    ensures f >= 0 ==> list[f].Start() > index
  {
    if list == [] then -1
    else if list[0].Start() > index then 0
    else
      var r := FindFirstAfter(list[1..], index);
      if r == -1 then -1 else r + 1
  }

  /** No entity before the one found starts after `index`; none at all when -1. */
  lemma {:induction false} FirstAfterIsFirst(list: seq<Entity>, index: nat)
    ensures var f := FindFirstAfter(list, index);
      forall k :: 0 <= k < |list| && (f == -1 || k < f) ==> list[k].Start() <= index
  {
    if list != [] && list[0].Start() <= index {
      FirstAfterIsFirst(list[1..], index);
      var f := FindFirstAfter(list, index);
      forall k | 1 <= k < |list| && (f == -1 || k < f)
        ensures list[k].Start() <= index
      {
        assert list[1..][k - 1] == list[k];
      }
    }
  }

  /** `List.FindLastIndex(e => e.start + e.length < end)`: the last entity that ends before
      `end`, or -1. */
  function FindLastBefore(list: seq<Entity>, end: nat): (l: int)
    ensures -1 <= l < |list|
    ensures l >= 0 ==> list[l].End() < end
  {
    if list == [] then -1
    else if list[|list| - 1].End() < end then |list| - 1
    else FindLastBefore(list[..|list| - 1], end)
  }

  /** No entity after the one found ends before `end`. */
  lemma {:induction false} LastBeforeIsLast(list: seq<Entity>, end: nat)
    ensures var l := FindLastBefore(list, end);
      forall k :: l < k < |list| ==> list[k].End() >= end
  {
    if list != [] && list[|list| - 1].End() >= end {
      LastBeforeIsLast(list[..|list| - 1], end);
      var l := FindLastBefore(list, end);
      forall k | l < k < |list| - 1
        ensures list[k].End() >= end
      {
        assert list[..|list| - 1][k] == list[k];
      }
    }
  }

  /** One splice of the builder: the group of span `sp` takes the place of the entities from
      the first that starts after its `[` through the last that ends before its end;
      `List.GetRange` raises ArgumentOutOfRangeException for a negative start or count. */
  function Splice(list: seq<Entity>, sp: Span): (r: Result<seq<Entity>>)
    ensures r.Err? ==> r.error == ArgumentOutOfRangeException
  {
    var f := FindFirstAfter(list, sp.start);
    var l := FindLastBefore(list, sp.End());
    if f < 0 || l - f + 1 < 0 then Err(ArgumentOutOfRangeException)
    else Ok(list[..f] + [Node(false, sp.start, sp.length, list[f..l + 1])] + list[l + 1..])
  }

  /** A splice fails exactly when no entity starts after the `[` or the run would have a
      negative count; otherwise the run is replaced by one entity. */
  lemma SpliceOutcome(list: seq<Entity>, sp: Span)
    ensures var f, l := FindFirstAfter(list, sp.start), FindLastBefore(list, sp.End());
      && (Splice(list, sp).Err? <==> f < 0 || l < f - 1)
      && (Splice(list, sp).Ok? ==> |Splice(list, sp).value| == |list| + 1 - (l - f + 1))
      && (Splice(list, sp).Ok? ==>
            && Splice(list, sp).value[..f] == list[..f]
            && Splice(list, sp).value[f] == Node(false, sp.start, sp.length, list[f..l + 1])
            && Splice(list, sp).value[f + 1..] == list[l + 1..])
  {
    var f, l := FindFirstAfter(list, sp.start), FindLastBefore(list, sp.End());
    if Splice(list, sp).Ok? {
      var r := Splice(list, sp).value;
      assert r == list[..f] + [Node(false, sp.start, sp.length, list[f..l + 1])] + list[l + 1..];
      assert r[..f] == list[..f];
      assert r[f + 1..] == list[l + 1..];
    }
  }

  /** The splices for the spans in the order their brackets close. */
  function SpliceAll(list: seq<Entity>, spans: seq<Span>): Result<seq<Entity>>
    decreases |spans|
  {
    if spans == [] then Ok(list)
    else
      match Splice(list, spans[0])
      case Err(e) => Err(e)
      case Ok(next) => SpliceAll(next, spans[1..])
  }

  function Leaves(ts: seq<Token>): (r: seq<Entity>)
    ensures |r| == |ts| && forall k :: 0 <= k < |ts| ==> r[k] == Leaf(ts[k])
  {
    if ts == [] then [] else [Leaf(ts[0])] + Leaves(ts[1..])
  }

  /** The tree of an accepted pattern `p` with captures `s`: a root over the whole pattern
      whose entities are the spliced capture list. */
  function BuildTree(p: string, s: Scanned): Result<Entity> {
    match SpliceAll(Leaves(s.tokens), s.spans)
    case Err(e) => Err(e)
    case Ok(list) => Ok(Node(true, 0, |p|, list))
  }

  /** `GetParsedTokens`: start from the capture list in offset order (the scanner yields the
      captures in that order, which is what the source's sort establishes), then splice in one
      group per bracket pair, in closing order. */
  method GetParsedTokens(p: string, s: Scanned) returns (r: Result<Entity>)
    ensures r == BuildTree(p, s)
  {
    var list := Leaves(s.tokens);
    var j := 0;
    while j < |s.spans|
      invariant j <= |s.spans|
      invariant SpliceAll(Leaves(s.tokens), s.spans) == SpliceAll(list, s.spans[j..])
    {
      SpliceAllStep(list, s.spans, j);
      var next := SpliceGroup(list, s.spans[j]);
      if next.Err? {
        return Err(next.error);
      }
      list := next.value;
      j := j + 1;
    }
    assert s.spans[j..] == [];
    return Ok(Node(true, 0, |p|, list));
  }

  /** The body of the builder's loop for one span: find the run, then `RemoveRange` and
      `Insert` the group in its place. */
  method SpliceGroup(list: seq<Entity>, c: Span) returns (r: Result<seq<Entity>>)
    ensures r == Splice(list, c)
  {
    var f := FindFirstAfter(list, c.start);
    var l := FindLastBefore(list, c.start + c.length);
    if f < 0 || l - f + 1 < 0 {
      return Err(ArgumentOutOfRangeException);
    }
    var group := Node(false, c.start, c.length, list[f..l + 1]);
    RemoveThenInsert(list, c, f, l, group);
    return Ok(Insert(RemoveRange(list, f, l - f + 1), f, group));
  }

  /** One step of the splices: the splice for span `j` first, then those after it. */
  lemma SpliceAllStep(list: seq<Entity>, spans: seq<Span>, j: nat)
    requires j < |spans|
    ensures Splice(list, spans[j]).Err? ==> SpliceAll(list, spans[j..]) == Err(ArgumentOutOfRangeException)
    ensures Splice(list, spans[j]).Ok? ==>
      SpliceAll(list, spans[j..]) == SpliceAll(Splice(list, spans[j]).value, spans[j + 1..])
  {
    assert spans[j..][0] == spans[j] && spans[j..][1..] == spans[j + 1..];
  }

  lemma SpliceAt(list: seq<Entity>, sp: Span, f: int, l: int)
    requires f == FindFirstAfter(list, sp.start) && l == FindLastBefore(list, sp.End())
    requires 0 <= f && 0 <= l - f + 1
    ensures Splice(list, sp) == Ok(list[..f] + [Node(false, sp.start, sp.length, list[f..l + 1])] + list[l + 1..])
  {
  }

  /** `List.RemoveRange(index, count)`. */
  function RemoveRange(list: seq<Entity>, index: nat, count: nat): (r: seq<Entity>)
    requires index + count <= |list|
    ensures |r| == |list| - count
    ensures r[..index] == list[..index] && r[index..] == list[index + count..]
  {
    list[..index] + list[index + count..]
  }

  /** `List.Insert(index, item)`. */
  function Insert(list: seq<Entity>, index: nat, item: Entity): (r: seq<Entity>)
    requires index <= |list|
    ensures |r| == |list| + 1 && r[index] == item
    ensures r[..index] == list[..index] && r[index + 1..] == list[index..]
  {
    list[..index] + [item] + list[index..]
  }

  /** `RemoveRange` of the grouped run followed by `Insert` of the group is one splice. */
  lemma RemoveThenInsert(list: seq<Entity>, sp: Span, f: int, l: int, g: Entity)
    requires f == FindFirstAfter(list, sp.start) && l == FindLastBefore(list, sp.End())
    requires 0 <= f && 0 <= l - f + 1
    requires g == Node(false, sp.start, sp.length, list[f..l + 1])
    ensures Splice(list, sp) == Ok(Insert(RemoveRange(list, f, l - f + 1), f, g))
  {
    var rest := RemoveRange(list, f, l - f + 1);
    SpliceAt(list, sp, f, l);
    calc {
      Insert(rest, f, g);
      rest[..f] + [g] + rest[f..];
      list[..f] + [g] + list[l + 1..];
    }
  }

  // ----- flattening -----

  /** The tokens of an entity, left to right. */
  function Flatten(e: Entity): seq<Token>
    decreases e
  {
    match e
    case Leaf(t) => [t]
    case Node(_, _, _, cs) => FlattenAll(cs)
  }

  function FlattenAll(es: seq<Entity>): seq<Token>
    decreases es
  {
    if es == [] then [] else Flatten(es[0]) + FlattenAll(es[1..])
  }

  lemma {:induction false} FlattenAllAppend(a: seq<Entity>, b: seq<Entity>)
    ensures FlattenAll(a + b) == FlattenAll(a) + FlattenAll(b)
    decreases |a|
  {
    if a == [] {
      assert a + b == b;
    } else {
      assert (a + b)[0] == a[0];
      assert (a + b)[1..] == a[1..] + b;
      FlattenAllAppend(a[1..], b);
    }
  }

  /** Replacing a run of entities by one group over that run keeps the tokens. */
  lemma GroupKeepsTokens(a: seq<Entity>, b: seq<Entity>, c: seq<Entity>, g: Entity)
    requires g.Node? && g.children == b
    ensures FlattenAll(a + [g] + c) == FlattenAll(a) + FlattenAll(b) + FlattenAll(c)
  {
    FlattenAllAppend(a + [g], c);
    FlattenAllAppend(a, [g]);
    assert FlattenAll([g]) == Flatten(g) + FlattenAll([g][1..]);
  }

  /** The tokens of a list are those of its three consecutive parts. */
  lemma FlattenThree(list: seq<Entity>, i: nat, j: nat)
    requires i <= j <= |list|
    ensures FlattenAll(list) == FlattenAll(list[..i]) + FlattenAll(list[i..j]) + FlattenAll(list[j..])
  {
    var a, b, c := list[..i], list[i..j], list[j..];
    FlattenAllAppend(a, b);
    FlattenAllAppend(a + b, c);
    FlattenPieces(list, a, b, c, i, j);
  }

  lemma FlattenPieces(list: seq<Entity>, a: seq<Entity>, b: seq<Entity>, c: seq<Entity>, i: nat, j: nat)
    requires i <= j <= |list| && a == list[..i] && b == list[i..j] && c == list[j..]
    ensures FlattenAll(list) == FlattenAll(a + b + c)
  {
    assert list == a + b + c;
  }

  lemma {:induction false} FlattenLeaves(ts: seq<Token>)
    ensures FlattenAll(Leaves(ts)) == ts
  {
    if ts != [] {
      FlattenLeaves(ts[1..]);
    }
  }

  /** A splice neither loses nor duplicates anything: the tokens read left to right are the
      same before and after it. */
  lemma SpliceKeepsTokens(list: seq<Entity>, sp: Span)
    requires Splice(list, sp).Ok?
    ensures FlattenAll(Splice(list, sp).value) == FlattenAll(list)
  {
    var f := FindFirstAfter(list, sp.start);
    var l := FindLastBefore(list, sp.End());
    var a, b, c := list[..f], list[f..l + 1], list[l + 1..];
    var g := Node(false, sp.start, sp.length, b);
    SpliceAt(list, sp, f, l);
    GroupKeepsTokens(a, b, c, g);
    FlattenThree(list, f, l + 1);
  }

  lemma {:induction false} SpliceAllKeepsTokens(list: seq<Entity>, spans: seq<Span>)
    requires SpliceAll(list, spans).Ok?
    ensures FlattenAll(SpliceAll(list, spans).value) == FlattenAll(list)
    decreases |spans|
  {
    if spans != [] {
      SpliceKeepsTokens(list, spans[0]);
      SpliceAllKeepsTokens(Splice(list, spans[0]).value, spans[1..]);
    }
  }

  /** Building the tree loses and duplicates nothing: reading its tokens left to right gives
      back the captures of the pattern in offset order. */
  lemma TreeKeepsTokens(p: string, s: Scanned)
    requires BuildTree(p, s).Ok?
    ensures Flatten(BuildTree(p, s).value) == s.tokens
  {
    SpliceAllKeepsTokens(Leaves(s.tokens), s.spans);
    FlattenLeaves(s.tokens);
  }

  // ----- what the groups hold -----

  /** Entities in pattern order, none overlapping the next. */
  predicate Sorted(list: seq<Entity>) {
    forall a, b :: 0 <= a < b < |list| ==> list[a].End() <= list[b].Start()
  }

  /** In a sorted list the run a splice groups is exactly the entities strictly inside the
      span: the group sits where the run began and holds that run, in order. */
  lemma SpliceGroupsInside(list: seq<Entity>, sp: Span)
    requires Sorted(list) && Splice(list, sp).Ok?
    ensures var f, l := FindFirstAfter(list, sp.start), FindLastBefore(list, sp.End());
      && 0 <= f && f <= l + 1
      && Splice(list, sp).value == list[..f] + [Node(false, sp.start, sp.length, list[f..l + 1])] + list[l + 1..]
      && Splice(list, sp).value[f] == Node(false, sp.start, sp.length, list[f..l + 1])
      && forall k :: 0 <= k < |list| ==> (f <= k <= l <==> sp.start < list[k].Start() && list[k].End() < sp.End())
  {
    SpliceShape(list, sp);
    RunInside(list, sp, FindFirstAfter(list, sp.start), FindLastBefore(list, sp.End()));
  }

  /** A splice that succeeds puts the group where the run began. */
  lemma SpliceShape(list: seq<Entity>, sp: Span)
    requires Splice(list, sp).Ok?
    ensures var f, l := FindFirstAfter(list, sp.start), FindLastBefore(list, sp.End());
      && 0 <= f && f <= l + 1
      && Splice(list, sp).value == list[..f] + [Node(false, sp.start, sp.length, list[f..l + 1])] + list[l + 1..]
      && Splice(list, sp).value[f] == Node(false, sp.start, sp.length, list[f..l + 1])
  {
    var f, l := FindFirstAfter(list, sp.start), FindLastBefore(list, sp.End());
    SpliceAt(list, sp, f, l);
    AtIndex(list[..f], Node(false, sp.start, sp.length, list[f..l + 1]), list[l + 1..]);
  }

  lemma AtIndex(a: seq<Entity>, g: Entity, c: seq<Entity>)
    ensures (a + [g] + c)[|a|] == g
  {
  }

  /** The run from the first entity after the `[` to the last before the end is exactly the
      entities strictly inside the span. */
  lemma RunInside(list: seq<Entity>, sp: Span, f: int, l: int)
    requires Sorted(list) && f == FindFirstAfter(list, sp.start) && l == FindLastBefore(list, sp.End())
    requires 0 <= f
    ensures forall k :: 0 <= k < |list| ==> (f <= k <= l <==> sp.start < list[k].Start() && list[k].End() < sp.End())
  {
    FirstAfterIsFirst(list, sp.start);
    LastBeforeIsLast(list, sp.End());
    forall k | 0 <= k < |list| && f <= k <= l
      ensures sp.start < list[k].Start() && list[k].End() < sp.End()
    {
      assert k == f || list[f].End() <= list[k].Start();
      assert k == l || list[k].End() <= list[l].Start();
    }
  }

  /** A capture lies strictly inside a span. */
  predicate Inside(t: Token, sp: Span) {
    sp.start < t.start && t.End() < sp.End()
  }

  /** The captures strictly inside a span, in order. */
  function TokensIn(ts: seq<Token>, sp: Span): (r: seq<Token>)
    ensures forall t :: t in r ==> Inside(t, sp)
  {
    if ts == [] then [] else (if Inside(ts[0], sp) then [ts[0]] else []) + TokensIn(ts[1..], sp)
  }

  lemma {:induction false} TokensInAppend(a: seq<Token>, b: seq<Token>, sp: Span)
    ensures TokensIn(a + b, sp) == TokensIn(a, sp) + TokensIn(b, sp)
  {
    if a != [] {
      assert (a + b)[0] == a[0] && (a + b)[1..] == a[1..] + b;
      TokensInAppend(a[1..], b, sp);
    } else {
      assert a + b == b;
    }
  }

  lemma {:induction false} TokensInAll(ts: seq<Token>, sp: Span)
    requires forall t :: t in ts ==> Inside(t, sp)
    ensures TokensIn(ts, sp) == ts
  {
    if ts != [] {
      TokensInAll(ts[1..], sp);
    }
  }

  lemma {:induction false} TokensInNone(ts: seq<Token>, sp: Span)
    requires forall t :: t in ts ==> !Inside(t, sp)
    ensures TokensIn(ts, sp) == []
  {
    if ts != [] {
      TokensInNone(ts[1..], sp);
    }
  }

  /** Every group node, at any depth, holds in order exactly the captures of `ts` strictly
      inside its brackets. */
  predicate HoldsInside(e: Entity, ts: seq<Token>)
    decreases e
  {
    match e
    case Leaf(_) => true
    case Node(_, st, len, cs) => FlattenAll(cs) == TokensIn(ts, Span(st, len)) && forall c :: c in cs ==> HoldsInside(c, ts)
  }

  /** The spans of the group nodes of an entity, the root excepted. */
  function GroupSpans(e: Entity): set<Span>
    decreases e
  {
    match e
    case Leaf(_) => {}
    case Node(isRoot, st, len, cs) => (if isRoot then {} else {Span(st, len)}) + GroupSpansAll(cs)
  }

  function GroupSpansAll(es: seq<Entity>): set<Span>
    decreases es
  {
    if es == [] then {} else GroupSpans(es[0]) + GroupSpansAll(es[1..])
  }

  lemma {:induction false} GroupSpansAllAppend(a: seq<Entity>, b: seq<Entity>)
    ensures GroupSpansAll(a + b) == GroupSpansAll(a) + GroupSpansAll(b)
    decreases |a|
  {
    if a == [] {
      assert a + b == b;
    } else {
      assert (a + b)[0] == a[0];
      assert (a + b)[1..] == a[1..] + b;
      GroupSpansAllAppend(a[1..], b);
    }
  }

  lemma {:induction false} GroupSpansLeaves(ts: seq<Token>)
    ensures GroupSpansAll(Leaves(ts)) == {}
  {
    if ts != [] {
      GroupSpansLeaves(ts[1..]);
    }
  }

  /** The tokens of an entity lie within it. */
  lemma TokensWithin(e: Entity, ts: seq<Token>)
    requires HoldsInside(e, ts)
    ensures forall t :: t in Flatten(e) ==> e.Start() <= t.start && t.End() <= e.End()
  {
  }

  lemma {:induction false} FlattenAllMember(es: seq<Entity>, t: Token)
    requires t in FlattenAll(es)
    ensures exists k :: 0 <= k < |es| && t in Flatten(es[k])
  {
    if t !in Flatten(es[0]) {
      FlattenAllMember(es[1..], t);
      var k :| 0 <= k < |es[1..]| && t in Flatten(es[1..][k]);
      assert es[k + 1] == es[1..][k];
    }
  }

  /** Entities that end by the `[`, or start after the `]`, contribute nothing inside the span;
      entities strictly inside it contribute all their tokens. */
  lemma RunTokens(es: seq<Entity>, ts: seq<Token>, sp: Span, where: int)
    requires forall k :: 0 <= k < |es| ==> HoldsInside(es[k], ts)
    requires where < 0 ==> forall k :: 0 <= k < |es| ==> es[k].End() <= sp.start
    requires where == 0 ==> forall k :: 0 <= k < |es| ==> sp.start < es[k].Start() && es[k].End() < sp.End()
    requires where > 0 ==> forall k :: 0 <= k < |es| ==> sp.End() <= es[k].Start()
    ensures TokensIn(FlattenAll(es), sp) == if where == 0 then FlattenAll(es) else []
  {
    forall t | t in FlattenAll(es)
      ensures Inside(t, sp) <==> where == 0
    {
      FlattenAllMember(es, t);
      var k :| 0 <= k < |es| && t in Flatten(es[k]);
      TokensWithin(es[k], ts);
    }
    if where == 0 {
      TokensInAll(FlattenAll(es), sp);
    } else {
      TokensInNone(FlattenAll(es), sp);
    }
  }

  /** Where an entity of the list being built comes from: a capture of `s`, or the group of
      one of the first `j` spans; either way it holds what lies inside it. */
  predicate Placed(e: Entity, s: Scanned, j: nat) {
    && HoldsInside(e, s.tokens)
    && (e.Leaf? ==> e.token in s.tokens)
    && (e.Node? ==> !e.isRoot && exists a :: 0 <= a < j && a < |s.spans| && s.spans[a] == Span(e.start, e.length))
  }

  function SpanSet(spans: seq<Span>, j: nat): set<Span>
    requires j <= |spans|
  {
    set a | 0 <= a < j :: spans[a]
  }

  /** The list after the splices of the first `j` spans. */
  predicate Built(list: seq<Entity>, s: Scanned, j: nat)
    requires j <= |s.spans|
  {
    && FlattenAll(list) == s.tokens
    && Sorted(list)
    && (forall k :: 0 <= k < |list| ==> Placed(list[k], s, j))
    && GroupSpansAll(list) == SpanSet(s.spans, j)
  }

  /** An entity that starts no later than the `[` of the next span ends by it: captures do
      not straddle brackets, and earlier spans lie before or inside later ones. */
  lemma EntityBefore(e: Entity, s: Scanned, j: nat)
    requires Separated(s) && j < |s.spans| && Placed(e, s, j)
    requires e.Start() <= s.spans[j].start
    ensures e.End() <= s.spans[j].start
  {
    if e.Leaf? {
      var k :| 0 <= k < |s.tokens| && s.tokens[k] == e.token;
      assert !InSource(s.tokens[k], s.spans[j].start);
    } else {
      var a :| 0 <= a < j && s.spans[a] == Span(e.start, e.length);
    }
  }

  /** An entity that ends no earlier than the end of the next span starts after its `]`. */
  lemma EntityAfter(e: Entity, s: Scanned, j: nat)
    requires Separated(s) && j < |s.spans| && Placed(e, s, j)
    requires e.End() >= s.spans[j].End()
    ensures e.Start() >= s.spans[j].End()
  {
    if e.Leaf? {
      var k :| 0 <= k < |s.tokens| && s.tokens[k] == e.token;
      assert !InSource(s.tokens[k], s.spans[j].End() - 1);
    }
  }

  lemma SortedSplice(a: seq<Entity>, c: seq<Entity>, g: Entity)
    requires Sorted(a) && Sorted(c)
    requires forall k :: 0 <= k < |a| ==> a[k].End() <= g.Start()
    requires forall k :: 0 <= k < |c| ==> g.End() <= c[k].Start()
    ensures Sorted(a + [g] + c)
  {
    var r := a + [g] + c;
    forall x, y | 0 <= x < y < |r|
      ensures r[x].End() <= r[y].Start()
    {
      if y > |a| && x < |a| {
        assert r[x].End() <= g.Start() <= g.End() <= r[y].Start();
      }
    }
  }

  lemma SortedSlice(list: seq<Entity>, i: nat, j: nat)
    requires Sorted(list) && i <= j <= |list|
    ensures Sorted(list[i..j])
  {
  }

  /** One splice keeps the list built: the new group holds exactly the captures inside its
      span, and nothing else moves. */
  lemma SpliceStep(list: seq<Entity>, s: Scanned, j: nat)
    requires Separated(s) && j < |s.spans| && Built(list, s, j) && Splice(list, s.spans[j]).Ok?
    ensures Built(Splice(list, s.spans[j]).value, s, j + 1)
  {
    var sp := s.spans[j];
    var f, l := FindFirstAfter(list, sp.start), FindLastBefore(list, sp.End());
    SpliceAt(list, sp, f, l);
    Classify(list, s, j, f, l);
    SpliceSorted(list, sp, f, l);
    SpliceKeepsTokens(list, sp);
    GroupHolds(list, s.tokens, sp, f, l);
    SplicePlaced(list, s, j, f, l);
    SpliceGroupSpans(list, s, j, f, l);
  }

  /** Around the next span, the list falls into entities before its `[`, entities strictly
      inside it, and entities after its `]`. */
  lemma Classify(list: seq<Entity>, s: Scanned, j: nat, f: int, l: int)
    requires Separated(s) && j < |s.spans| && Built(list, s, j)
    requires f == FindFirstAfter(list, s.spans[j].start) && l == FindLastBefore(list, s.spans[j].End())
    requires 0 <= f && 0 <= l - f + 1
    ensures forall k :: 0 <= k < |list| ==> HoldsInside(list[k], s.tokens)
    ensures forall k :: 0 <= k < f ==> list[k].End() <= s.spans[j].start
    ensures forall k :: f <= k <= l ==> s.spans[j].start < list[k].Start() && list[k].End() < s.spans[j].End()
    ensures forall k :: l < k < |list| ==> s.spans[j].End() <= list[k].Start()
  {
    var sp := s.spans[j];
    RunInside(list, sp, f, l);
    FirstAfterIsFirst(list, sp.start);
    LastBeforeIsLast(list, sp.End());
    forall k | 0 <= k < f
      ensures list[k].End() <= sp.start
    {
      EntityBefore(list[k], s, j);
    }
    forall k | l < k < |list|
      ensures sp.End() <= list[k].Start()
    {
      EntityAfter(list[k], s, j);
    }
  }

  /** The list stays sorted when a run inside the span becomes its group. */
  lemma SpliceSorted(list: seq<Entity>, sp: Span, f: nat, l: int)
    requires Sorted(list) && f <= l + 1 <= |list|
    requires forall k :: 0 <= k < f ==> list[k].End() <= sp.start
    requires forall k :: l < k < |list| ==> sp.End() <= list[k].Start()
    ensures Sorted(list[..f] + [Node(false, sp.start, sp.length, list[f..l + 1])] + list[l + 1..])
  {
    var a, c := list[..f], list[l + 1..];
    SortedSlice(list, 0, f);
    SortedSlice(list, l + 1, |list|);
    assert forall k :: 0 <= k < |c| ==> c[k] == list[l + 1 + k];
    SortedSplice(a, c, Node(false, sp.start, sp.length, list[f..l + 1]));
  }

  /** The new group holds exactly the captures inside its span. */
  lemma GroupHolds(list: seq<Entity>, ts: seq<Token>, sp: Span, f: nat, l: int)
    requires f <= l + 1 <= |list| && FlattenAll(list) == ts
    requires forall k :: 0 <= k < |list| ==> HoldsInside(list[k], ts)
    requires forall k :: 0 <= k < f ==> list[k].End() <= sp.start
    requires forall k :: f <= k <= l ==> sp.start < list[k].Start() && list[k].End() < sp.End()
    requires forall k :: l < k < |list| ==> sp.End() <= list[k].Start()
    ensures HoldsInside(Node(false, sp.start, sp.length, list[f..l + 1]), ts)
  {
    var a, b, c := list[..f], list[f..l + 1], list[l + 1..];
    SliceThree(list, f, l + 1);
    assert forall k :: 0 <= k < |a| ==> a[k] == list[k];
    assert forall k :: 0 <= k < |b| ==> b[k] == list[f + k];
    assert forall k :: 0 <= k < |c| ==> c[k] == list[l + 1 + k];
    GroupOfRun(a, b, c, ts, sp);
  }

  /** A run strictly inside the span, between entities that end by its `[` and entities
      that start after its `]`, holds exactly the captures inside the span. */
  lemma GroupOfRun(a: seq<Entity>, b: seq<Entity>, c: seq<Entity>, ts: seq<Token>, sp: Span)
    requires FlattenAll(a + b + c) == ts
    requires forall k :: 0 <= k < |a| ==> HoldsInside(a[k], ts) && a[k].End() <= sp.start
    requires forall k :: 0 <= k < |b| ==> HoldsInside(b[k], ts) && sp.start < b[k].Start() && b[k].End() < sp.End()
    requires forall k :: 0 <= k < |c| ==> HoldsInside(c[k], ts) && sp.End() <= c[k].Start()
    ensures HoldsInside(Node(false, sp.start, sp.length, b), ts)
  {
    FlattenAllAppend(a + b, c);
    FlattenAllAppend(a, b);
    TokensInAppend(FlattenAll(a) + FlattenAll(b), FlattenAll(c), sp);
    TokensInAppend(FlattenAll(a), FlattenAll(b), sp);
    RunTokens(a, ts, sp, -1);
    RunTokens(b, ts, sp, 0);
    RunTokens(c, ts, sp, 1);
    assert forall e :: e in b ==> HoldsInside(e, ts);
  }

  /** Every entity after the splice is a capture or the group of one of the first `j + 1`
      spans. */
  lemma SplicePlaced(list: seq<Entity>, s: Scanned, j: nat, f: nat, l: int)
    requires j < |s.spans| && f <= l + 1 <= |list|
    requires forall k :: 0 <= k < |list| ==> Placed(list[k], s, j)
    requires HoldsInside(Node(false, s.spans[j].start, s.spans[j].length, list[f..l + 1]), s.tokens)
    ensures var next := list[..f] + [Node(false, s.spans[j].start, s.spans[j].length, list[f..l + 1])] + list[l + 1..];
      forall k :: 0 <= k < |next| ==> Placed(next[k], s, j + 1)
  {
    var g := Node(false, s.spans[j].start, s.spans[j].length, list[f..l + 1]);
    var next := list[..f] + [g] + list[l + 1..];
    forall k | 0 <= k < |next|
      ensures Placed(next[k], s, j + 1)
    {
      if k < f {
        assert next[k] == list[k];
      } else if k > f {
        assert next[k] == list[l + 1 + (k - f - 1)];
      } else {
        assert next[k] == g && s.spans[j] == Span(g.start, g.length);
      }
    }
  }

  /** The splice adds exactly its span to the group spans. */
  lemma SpliceGroupSpans(list: seq<Entity>, s: Scanned, j: nat, f: nat, l: int)
    requires j < |s.spans| && f <= l + 1 <= |list| && GroupSpansAll(list) == SpanSet(s.spans, j)
    ensures var next := list[..f] + [Node(false, s.spans[j].start, s.spans[j].length, list[f..l + 1])] + list[l + 1..];
      GroupSpansAll(next) == SpanSet(s.spans, j + 1)
  {
    var a, b, c := list[..f], list[f..l + 1], list[l + 1..];
    SliceThree(list, f, l + 1);
    GroupReplacesRun(a, b, c, s.spans[j]);
    SpanSetStep(s.spans, j);
  }

  lemma SliceThree(list: seq<Entity>, i: nat, j: nat)
    requires i <= j <= |list|
    ensures list == list[..i] + list[i..j] + list[j..]
  {
  }

  /** A group over a run adds its own span to those of the list. */
  lemma GroupReplacesRun(a: seq<Entity>, b: seq<Entity>, c: seq<Entity>, sp: Span)
    ensures GroupSpansAll(a + [Node(false, sp.start, sp.length, b)] + c) == GroupSpansAll(a + b + c) + {sp}
  {
    var g := Node(false, sp.start, sp.length, b);
    GroupSpansThree(a, [g], c);
    GroupSpansThree(a, b, c);
    GroupSpansOne(g);
  }

  lemma GroupSpansThree(a: seq<Entity>, b: seq<Entity>, c: seq<Entity>)
    ensures GroupSpansAll(a + b + c) == GroupSpansAll(a) + GroupSpansAll(b) + GroupSpansAll(c)
  {
    GroupSpansAllAppend(a + b, c);
    GroupSpansAllAppend(a, b);
  }

  lemma GroupSpansOne(g: Entity)
    requires g.Node? && !g.isRoot
    ensures GroupSpansAll([g]) == {Span(g.start, g.length)} + GroupSpansAll(g.children)
  {
    assert GroupSpansAll([g]) == GroupSpans(g) + GroupSpansAll([]);
  }

  lemma SpanSetStep(spans: seq<Span>, j: nat)
    requires j < |spans|
    ensures SpanSet(spans, j + 1) == SpanSet(spans, j) + {spans[j]}
  {
  }

  lemma {:induction false} SpliceAllBuilt(list: seq<Entity>, s: Scanned, j: nat)
    requires Separated(s) && j <= |s.spans| && Built(list, s, j)
    requires SpliceAll(list, s.spans[j..]).Ok?
    ensures Built(SpliceAll(list, s.spans[j..]).value, s, |s.spans|)
    decreases |s.spans| - j
  {
    if j == |s.spans| {
      assert s.spans[j..] == [];
    } else {
      SpliceAllStep(list, s.spans, j);
      SpliceStep(list, s, j);
      SpliceAllBuilt(Splice(list, s.spans[j]).value, s, j + 1);
    }
  }

  /** The capture list the builder starts from is built for no span yet. */
  lemma LeavesBuilt(s: Scanned)
    requires Separated(s)
    ensures Built(Leaves(s.tokens), s, 0)
  {
    var list := Leaves(s.tokens);
    FlattenLeaves(s.tokens);
    GroupSpansLeaves(s.tokens);
    assert SpanSet(s.spans, 0) == {};
    forall a, b | 0 <= a < b < |list|
      ensures list[a].End() <= list[b].Start()
    {
      assert list[a].token == s.tokens[a] && list[b].token == s.tokens[b];
    }
  }

  /** The tree of captures that lie apart with properly nested spans: every span becomes
      exactly one group node, and every group node, at any depth, holds in order exactly the
      captures strictly inside its brackets. */
  lemma TreeGroupsSpans(p: string, s: Scanned)
    requires Separated(s) && BuildTree(p, s).Ok?
    ensures var root := BuildTree(p, s).value;
      && root.Node? && root.isRoot
      && Sorted(root.children)
      && (forall e :: e in root.children ==> HoldsInside(e, s.tokens))
      && GroupSpansAll(root.children) == set m | 0 <= m < |s.spans| :: s.spans[m]
  {
    LeavesBuilt(s);
    assert s.spans[0..] == s.spans;
    SpliceAllBuilt(Leaves(s.tokens), s, 0);
    var list := SpliceAll(Leaves(s.tokens), s.spans).value;
    forall e | e in list
      ensures HoldsInside(e, s.tokens)
    {
      var k :| 0 <= k < |list| && list[k] == e;
      assert Placed(list[k], s, |s.spans|);
    }
  }

  /** For an accepted pattern: the groups of its tree are its bracket pairs, each holding
      exactly the captures between its brackets. */
  lemma AcceptedTreeGroups(p: string)
    requires Scan(p).Some? && BuildTree(p, Scan(p).value).Ok?
    ensures var s, root := Scan(p).value, BuildTree(p, Scan(p).value).value;
      && (forall e :: e in root.children ==> HoldsInside(e, s.tokens))
      && GroupSpansAll(root.children) == set m | 0 <= m < |s.spans| :: s.spans[m]
  {
    ScanCovers(p);
    TreeGroupsSpans(p, Scan(p).value);
  }
}
