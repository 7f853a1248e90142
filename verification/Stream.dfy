/** A structure block that is written token by token: the calls that write it, the trees
    that a balanced sequence of calls describes, and the block as a sequence of tokens. */
module Stream {
  import opened Bytes
  import opened Syntax
  import opened DeviceTree

  // ---- calls ----

  datatype Event = BeginNode(name: seq<byte>) | EndNode | AddProp(name: seq<byte>, val: seq<byte>)

  /** Every EndNode ends a node begun before, and all but k nodes begun earlier stay open:
      the nesting depth counter starts at k and ends at 0 without dropping below. */
  predicate Balanced(es: seq<Event>, k: nat) {
    if es == [] then k == 0
    else match es[0]
      case BeginNode(_) => Balanced(es[1..], k + 1)
      case EndNode => k > 0 && Balanced(es[1..], k - 1)
      case AddProp(_, _) => Balanced(es[1..], k)
  }

  /** What a balanced sequence of calls describes, in the order of the calls. */
  datatype Desc = Done | PropThen(name: seq<byte>, val: seq<byte>, next: Desc) | NodeThen(name: seq<byte>,
    body: Desc, next: Desc)

  function Events(d: Desc): seq<Event> {
    match d
    case Done => []
    case PropThen(name, val, next) => [AddProp(name, val)] + Events(next)
    case NodeThen(name, body, next) => [BeginNode(name)] + Events(body) + [EndNode] + Events(next)
  }

  /** Every balanced sequence of calls describes something. */
  function Describe(es: seq<Event>, k: nat): (r: (Desc, seq<Event>))
    requires Balanced(es, k)
    ensures es == Events(r.0) + r.1 && Balanced(r.1, k) && |r.1| <= |es|
    ensures r.1 == [] || r.1[0].EndNode?
    decreases |es|
  {
    if es == [] || es[0].EndNode? then (Done, es)
    else if es[0].AddProp? then
      var (d, rest) := Describe(es[1..], k);
      (PropThen(es[0].name, es[0].val, d), rest)
    else
      var (body, rest) := Describe(es[1..], k + 1);
      var (next, rest') := Describe(rest[1..], k);
      (NodeThen(es[0].name, body, next), rest')
  }

  lemma {:induction false} EventsBalanced(d: Desc, es: seq<Event>, k: nat)
    requires Balanced(es, k)
    ensures Balanced(Events(d) + es, k)
    decreases d
  {
    match d
    case Done => assert [] + es == es;
    case PropThen(name, val, next) =>
      EventsBalanced(next, es, k);
      assert (Events(d) + es)[1..] == Events(next) + es;
    case NodeThen(name, body, next) =>
      EventsBalanced(next, es, k);
      var tail := [EndNode] + (Events(next) + es);
      assert tail[1..] == Events(next) + es;
      EventsBalanced(body, tail, k + 1);
      Unnest(BeginNode(name), Events(body), Events(next), es);
  }

  lemma {:induction false} Unnest(a: Event, b: seq<Event>, c: seq<Event>, es: seq<Event>)
    ensures (([a] + b + [EndNode] + c) + es)[0] == a &&
            (([a] + b + [EndNode] + c) + es)[1..] == b + ([EndNode] + (c + es))
  {
  }

  /** The calls are balanced exactly if they describe something. */
  lemma {:induction false} BalancedMeans(es: seq<Event>)
    ensures Balanced(es, 0) <==> exists d :: es == Events(d)
  {
    if Balanced(es, 0) {
      var (d, rest) := Describe(es, 0);
      assert rest == [];
      assert es == Events(d);
    }
    if d :| es == Events(d) {
      EventsBalanced(d, [], 0);
      assert Events(d) + [] == es;
    }
  }

  /** The properties and the subnodes described at the outermost level. */
  function PropsOf(d: Desc): seq<Property> {
    match d
    case Done => []
    case PropThen(name, val, next) => [Property(name, val)] + PropsOf(next)
    case NodeThen(_, _, next) => PropsOf(next)
  }

  function ForestOf(d: Desc): seq<Tree> {
    match d
    case Done => []
    case PropThen(_, _, next) => ForestOf(next)
    case NodeThen(name, body, next) => [Tree(name, PropsOf(body), ForestOf(body))] + ForestOf(next)
  }

  predicate NoPropsIn(d: Desc) {
    match d
    case Done => true
    case PropThen(_, _, _) => false
    case NodeThen(_, _, next) => NoPropsIn(next)
  }

  /** In every node the properties are written before the subnodes. */
  predicate OrderedDesc(d: Desc) {
    match d
    case Done => true
    case PropThen(_, _, next) => OrderedDesc(next)
    case NodeThen(_, body, next) => OrderedDesc(body) && NoPropsIn(next) && OrderedDesc(next)
  }

  // ---- tokens in a row ----

  ghost function OffBody(ks: seq<Tok>, i: nat): (n: nat)
    requires i <= |ks|
    decreases i, 1
  {
    if i == 0 then 0 else Off(ks, i - 1) + TokSize(ks[i - 1])
  }

  ghost predicate IsOff(ks: seq<Tok>, i: nat, n: nat)
    requires i <= |ks|
    decreases i, 2
  {
    forall z :: Unseal(z) ==> n == OffBody(ks, i)
  }

  /** Offset of the i-th token; sealed. */
  ghost function Off(ks: seq<Tok>, i: nat): (n: nat)
    requires i <= |ks|
    decreases i, 3
  {
    assert IsOff(ks, i, OffBody(ks, i));
    var n: nat :| IsOff(ks, i, n);
    n
  }

  lemma {:induction false} OffDef(ks: seq<Tok>, i: nat)
    requires i <= |ks|
    ensures Off(ks, i) == OffBody(ks, i)
  {
    assert Unseal(0);
  }

  predicate Readable(k: Tok) { !k.Bad? }

  ghost predicate SpeltBody(s: seq<byte>, ks: seq<Tok>) {
    |s| == Off(ks, |ks|) && forall i | 0 <= i < |ks| :: Readable(ks[i]) && TokAt(s, Off(ks, i)) == ks[i]
  }

  ghost predicate IsSpelt(s: seq<byte>, ks: seq<Tok>, r: bool) { forall z :: Unseal(z) ==> r == SpeltBody(s, ks) }

  /** The block s consists of the tokens ks; sealed. */
  ghost predicate Spelt(s: seq<byte>, ks: seq<Tok>) {
    assert IsSpelt(s, ks, SpeltBody(s, ks));
    var r :| IsSpelt(s, ks, r);
    r
  }

  lemma {:induction false} SpeltDef(s: seq<byte>, ks: seq<Tok>)
    ensures Spelt(s, ks) == SpeltBody(s, ks)
  {
    assert Unseal(0);
  }

  lemma {:induction false} SpeltAt(s: seq<byte>, ks: seq<Tok>, i: nat)
    requires Spelt(s, ks) && i < |ks|
    ensures TokAt(s, Off(ks, i)) == ks[i] && Readable(ks[i]) && Off(ks, i) + TokSize(ks[i]) == Off(ks, i + 1) <= |s|
    ensures Off(ks, |ks|) == |s|
  {
    SpeltDef(s, ks);
    TokFits(s, Off(ks, i));
    OffDef(ks, i + 1);
  }

  lemma {:induction false} OffAligned(ks: seq<Tok>, i: nat)
    requires i <= |ks|
    ensures Aligned(Off(ks, i))
    decreases i
  {
    AlignedConst();
    OffDef(ks, i);
    if i > 0 {
      OffAligned(ks, i - 1);
      TokSizeAligned(ks[i - 1]);
      AlignedAdd(Off(ks, i - 1), TokSize(ks[i - 1]));
    }
  }

  lemma {:induction false} OffCongruent(ks: seq<Tok>, ks': seq<Tok>, i: nat)
    requires i <= |ks| && i <= |ks'| && forall j | 0 <= j < i :: TokSize(ks[j]) == TokSize(ks'[j])
    ensures Off(ks, i) == Off(ks', i)
    decreases i
  {
    OffDef(ks, i);
    OffDef(ks', i);
    if i > 0 {
      OffCongruent(ks, ks', i - 1);
    }
  }

  lemma {:induction false} OffMonotone(ks: seq<Tok>, i: nat, j: nat)
    requires i <= j <= |ks|
    ensures Off(ks, i) <= Off(ks, j) && (i < j ==> Off(ks, i) + TokSize(ks[i]) == Off(ks, i + 1) <= Off(ks, j))
    decreases j - i
  {
    if i < j {
      OffMonotone(ks, i, j - 1);
      OffDef(ks, j);
      OffDef(ks, i + 1);
    }
  }

  /** A token inside an unchanged range stays. */
  lemma {:induction false} TokStays(s: seq<byte>, s': seq<byte>, ks: seq<Tok>, i: nat, lo: int, hi: int)
    requires Spelt(s, ks) && i < |ks| && 0 <= lo && Same(s, lo, s', lo, hi - lo) && lo <= Off(ks, i) &&
             Off(ks, i + 1) <= hi
    ensures TokAt(s', Off(ks, i)) == ks[i] && Readable(ks[i])
  {
    SpeltAt(s, ks, i);
    SamePart(s, lo, s', lo, hi - lo, Off(ks, i) - lo, TokSize(ks[i]));
    TokMoved(s, Off(ks, i), s', Off(ks, i));
  }

  /** Writing one more token at the end. */
  lemma {:induction false} SpeltAppend(s: seq<byte>, s': seq<byte>, ks: seq<Tok>, k: Tok)
    requires Spelt(s, ks) && Readable(k) && |s'| == |s| + TokSize(k) && Same(s, 0, s', 0, |s|) && TokAt(s', |s|) == k
    ensures Spelt(s', ks + [k])
  {
    var ks' := ks + [k];
    assert Off(ks, |ks|) == |s| by { SpeltDef(s, ks); }
    OffCongruent(ks, ks', |ks|);
    OffDef(ks', |ks'|);
    forall i | 0 <= i < |ks'| ensures Readable(ks'[i]) && TokAt(s', Off(ks', i)) == ks'[i] {
      if i < |ks| {
        OffCongruent(ks, ks', i);
        OffMonotone(ks, i, |ks|);
        TokStays(s, s', ks, i, 0, |s|);
      }
    }
    SpeltDef(s', ks');
  }

  /** Overwriting one token by another of the same size. */
  lemma {:induction false} SpeltUpdate(s: seq<byte>, s': seq<byte>, ks: seq<Tok>, i: nat, k: Tok, o: int)
    requires Spelt(s, ks) && i < |ks| && Readable(k) && TokSize(k) == TokSize(ks[i]) && |s'| == |s| && o == Off(ks, i)
    requires Same(s, 0, s', 0, o) && Same(s, o + TokSize(k), s', o + TokSize(k), |s| - o - TokSize(k)) &&
             TokAt(s', o) == k
    ensures Spelt(s', ks[i := k])
  {
    var ks' := ks[i := k];
    assert Off(ks, |ks|) == |s| by { SpeltDef(s, ks); }
    OffCongruent(ks, ks', |ks|);
    forall j | 0 <= j < |ks'| ensures Readable(ks'[j]) && TokAt(s', Off(ks', j)) == ks'[j] {
      OffCongruent(ks, ks', j);
      if j != i {
        OtherTok(s, s', ks, i, o, j);
      }
    }
    SpeltDef(s', ks');
  }

  lemma {:induction false} OtherTok(s: seq<byte>, s': seq<byte>, ks: seq<Tok>, i: nat, o: int, j: nat)
    requires Spelt(s, ks) && i < |ks| && o == Off(ks, i) && j < |ks| && j != i && Off(ks, |ks|) == |s|
    requires Same(s, 0, s', 0, o) && Same(s, o + TokSize(ks[i]), s', o + TokSize(ks[i]), |s| - o - TokSize(ks[i]))
    ensures TokAt(s', Off(ks, j)) == ks[j] && Readable(ks[j])
  {
    if j < i {
      OffMonotone(ks, j, i);
      TokStays(s, s', ks, j, 0, o);
    } else {
      OffMonotone(ks, i, j);
      OffMonotone(ks, j, |ks|);
      TokStays(s, s', ks, j, o + TokSize(ks[i]), |s|);
    }
  }

  // ---- tokens against calls ----

  /** Token k is what the call e writes; name offsets count from `base` into the strings. */
  ghost predicate Writes(k: Tok, e: Event, strs: seq<byte>, base: int) {
    match e
    case BeginNode(name) => k == Open(name)
    case EndNode => k == Close
    case AddProp(name, val) =>
      k.Prop? && k.val == val && 0 <= k.nameoff < 0x1_0000_0000 && StrAt(strs, k.nameoff - base) == Some(name)
  }

  ghost predicate Transcribes(ks: seq<Tok>, es: seq<Event>, strs: seq<byte>, base: int) {
    |ks| == |es| && forall i | 0 <= i < |ks| :: Writes(ks[i], es[i], strs, base)
  }

  /** Number of calls. */
  function Count(d: Desc): nat {
    match d
    case Done => 0
    case PropThen(_, _, next) => 1 + Count(next)
    case NodeThen(_, body, next) => 2 + Count(body) + Count(next)
  }

  /** The calls from the i-th on are those of d. */
  predicate Part(es: seq<Event>, i: nat, d: Desc)
    decreases d
  {
    match d
    case Done => i <= |es|
    case PropThen(name, val, next) => i < |es| && es[i] == AddProp(name, val) && Part(es, i + 1, next)
    case NodeThen(name, body, next) =>
      var m := i + 1 + Count(body);
      m < |es| && es[i] == BeginNode(name) && Part(es, i + 1, body) && es[m] == EndNode && Part(es, m + 1, next)
  }

  lemma {:induction false} EventsPart(es: seq<Event>, pre: seq<Event>, d: Desc, post: seq<Event>)
    requires es == pre + Events(d) + post
    ensures Part(es, |pre|, d) && |Events(d)| == Count(d)
    decreases d
  {
    match d
    case Done =>
    case PropThen(name, val, next) =>
      Regroup(pre, AddProp(name, val), Events(next), post);
      EventsPart(es, pre + [AddProp(name, val)], next, post);
    case NodeThen(name, body, next) =>
      RegroupNode(es, pre, BeginNode(name), Events(body), Events(next), post);
      EventsPart(es, pre + [BeginNode(name)], body, [EndNode] + Events(next) + post);
      EventsPart(es, pre + [BeginNode(name)] + Events(body) + [EndNode], next, post);
  }

  lemma {:induction false} Regroup(p: seq<Event>, a: Event, c: seq<Event>, q: seq<Event>)
    ensures p + ([a] + c) + q == (p + [a]) + c + q && (p + ([a] + c) + q)[|p|] == a
  {
  }

  lemma {:induction false} RegroupNode(es: seq<Event>, p: seq<Event>, a: Event, b: seq<Event>, c: seq<Event>,
    q: seq<Event>)
    requires es == p + ([a] + b + [EndNode] + c) + q
    ensures es == (p + [a]) + b + ([EndNode] + c + q) == (p + [a] + b + [EndNode]) + c + q
    ensures |es| == |p| + 2 + |b| + |c| + |q| && es[|p|] == a && es[|p| + 1 + |b|] == EndNode
  {
  }

  /** The items spelled by the tokens from i on, of the shape d. */
  function Build(ks: seq<Tok>, i: nat, d: Desc): Items
    requires i + Count(d) <= |ks|
    decreases d
  {
    match d
    case Done => Nil
    case PropThen(_, _, next) => Leaf(ks[i], Build(ks, i + 1, next))
    case NodeThen(name, body, next) => Node(name, Build(ks, i + 1, body), Build(ks, i + 2 + Count(body), next))
  }

  lemma {:induction false} PartFits(es: seq<Event>, i: nat, d: Desc)
    requires Part(es, i, d)
    ensures i + Count(d) <= |es|
    decreases d
  {
    if d != Done {
      PartFits(es, if d.PropThen? then i + 1 else i + 2 + Count(d.body), d.next);
    }
  }

  /** What the tokens from i on denote is what d describes. */
  lemma {:induction false} BuildDenotes(ks: seq<Tok>, es: seq<Event>, strs: seq<byte>, i: nat, d: Desc)
    requires Transcribes(ks, es, strs, 0) && Part(es, i, d)
    ensures i + Count(d) <= |ks|
    ensures var t := Build(ks, i, d);
            Named(t, strs) && Props(t, strs) == PropsOf(d) && Forest(t, strs) == ForestOf(d) &&
            (NoPropsIn(d) ==> NoProps(t)) && (OrderedDesc(d) ==> Ordered(t))
    decreases d
  {
    PartFits(es, i, d);
    match d
    case Done =>
    case PropThen(name, val, next) =>
      assert Writes(ks[i], es[i], strs, 0);
      BuildDenotes(ks, es, strs, i + 1, next);
    case NodeThen(name, body, next) =>
      BuildDenotes(ks, es, strs, i + 1, body);
      BuildDenotes(ks, es, strs, i + 2 + Count(body), next);
  }

  /** The tokens lie in s one after the other. */
  ghost predicate Stands(s: seq<byte>, ks: seq<Tok>) {
    forall i | 0 <= i < |ks| :: TokAt(s, Off(ks, i)) == ks[i]
  }

  /** The items t lie in s from the i-th token up to the j-th. */
  ghost predicate Span(s: seq<byte>, ks: seq<Tok>, i: nat, j: nat, t: Items) {
    i <= |ks| && j <= |ks| && Lies(s, Off(ks, i), t) && Off(ks, i) + Size(t) == Off(ks, j)
  }

  /** The tokens from i on, as items, lie in s. */
  lemma {:induction false} BuildLies(s: seq<byte>, ks: seq<Tok>, es: seq<Event>, strs: seq<byte>, i: nat, d: Desc)
    requires Stands(s, ks) && Transcribes(ks, es, strs, 0) && Part(es, i, d)
    ensures i + Count(d) <= |ks| && Span(s, ks, i, i + Count(d), Build(ks, i, d))
    decreases d
  {
    PartFits(es, i, d);
    match d
    case Done =>
      SizeDef(Nil);
      LiesNil(s, Off(ks, i));
    case PropThen(name, val, next) =>
      assert Writes(ks[i], es[i], strs, 0);
      BuildLies(s, ks, es, strs, i + 1, next);
      SpanLeaf(s, ks, i, i + Count(d), Build(ks, i + 1, next));
    case NodeThen(name, body, next) =>
      var m := i + 1 + Count(body);
      assert Writes(ks[i], es[i], strs, 0) && Writes(ks[m], es[m], strs, 0);
      BuildLies(s, ks, es, strs, i + 1, body);
      BuildLies(s, ks, es, strs, m + 1, next);
      SpanNode(s, ks, i, m, i + Count(d), name, Build(ks, i + 1, body), Build(ks, m + 1, next));
  }

  lemma {:induction false} SpanLeaf(s: seq<byte>, ks: seq<Tok>, i: nat, j: nat, next: Items)
    requires Stands(s, ks) && i < |ks| && IsLeaf(ks[i]) && Span(s, ks, i + 1, j, next)
    ensures Span(s, ks, i, j, Leaf(ks[i], next))
  {
    OffDef(ks, i + 1);
    SizeDef(Leaf(ks[i], next));
    LiesLeaf(s, Off(ks, i), ks[i], next);
  }

  lemma {:induction false} SpanNode(s: seq<byte>, ks: seq<Tok>, i: nat, m: nat, j: nat, name: seq<byte>,
    body: Items, next: Items)
    requires Stands(s, ks) && i < m < |ks| && ks[i] == Open(name) && ks[m] == Close
    requires Span(s, ks, i + 1, m, body) && Span(s, ks, m + 1, j, next)
    ensures Span(s, ks, i, j, Node(name, body, next))
  {
    OffDef(ks, i + 1);
    OffDef(ks, m + 1);
    SizeDef(Node(name, body, next));
    LiesNode(s, Off(ks, i), name, body, next);
  }
}
