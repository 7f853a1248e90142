/** fdt.c and fdt_ro.c: which nodes the node walkers visit.  On every structure block whose
    items are known, fdt_next_node goes through them in preorder, the subnode functions
    enumerate exactly the children, and the supernode functions find the true ancestors. */
module Visit {
  import opened Bytes
  import opened Syntax
  import opened DeviceTree
  import opened Fdt
  import opened Walk
  import opened Blob
  import opened EditTheorems

  // ---- fdt_next_node, iterated ----

  /** The nodes that repeated calls of fdt_next_node visit, with their depths, from the node
      at o on, until the depth is negative or an error ends the walk. */
  ghost function Visits(b: seq<byte>, o: int, depth: int): seq<(int, int)>
    requires Buf(b) && o < 0x8000_0000
    decreases 0x8000_0000 - o
  {
    if o < 0 || depth < 0 then []
    else
      NextTagBound(b, o);
      NextNodeBound(b, NextTag(b, o).1, depth, true);
      var (o', d) := NextNode(b, o, depth, true);
      if o' <= o then [(o, depth)] else [(o, depth)] + Visits(b, o', d)
  }

  /** The walk goes on from the token at pos. */
  ghost function VisitFrom(b: seq<byte>, pos: int, depth: int): seq<(int, int)>
    requires Buf(b) && pos < 0x8000_0000
  {
    NextNodeBound(b, pos, depth, true);
    var (o, d) := NextNodeLoop(b, pos, depth, true);
    Visits(b, o, d)
  }

  /** The nodes among the items t at o, in preorder; depth is that of the node around them. */
  ghost function Preorder(t: Items, o: int, depth: int): seq<(int, int)>
    decreases t
  {
    match t
    case Nil => []
    case Leaf(tok, next) => Preorder(next, o + TokSize(tok), depth)
    case Node(name, body, next) =>
      [(o, depth + 1)] + Preorder(body, o + OpenSize(|name|), depth + 1) +
        Preorder(next, o + NodeSize(name, body), depth)
  }

  lemma {:induction false} VisitOpen(b: seq<byte>, o: int, k: Tok, depth: int)
    requires On(b, o, k) && k.Open? && depth >= 0
    ensures 0 <= o < 0x8000_0000 && o + TokSize(k) < 0x8000_0000
    ensures Visits(b, o, depth) == [(o, depth)] + VisitFrom(b, o + TokSize(k), depth)
  {
    NextNodeOpen(b, o, k, depth);
    NextNodeBound(b, o + TokSize(k), depth, true);
    OnStep(b, o, k);
    assert [(o, depth)] + [] == [(o, depth)];
  }

  lemma {:induction false} VisitItems(b: seq<byte>, o: int, t: Items, depth: int)
    requires Framed(b) && Aligned(o) && Lies(Struct(b), o, t) && depth >= 0 && 0 <= o && o + Size(t) <= SizeStruct(b)
    ensures VisitFrom(b, o, depth) == Preorder(t, o, depth) + VisitFrom(b, o + Size(t), depth)
    decreases t, 0
  {
    SizeDef(t);
    match t
    case Nil => assert [] + VisitFrom(b, o, depth) == VisitFrom(b, o, depth);
    case Leaf(tok, next) =>
      LiesLeaf(Struct(b), o, tok, next);
      OnStep(b, o, tok);
      NextNodeLeaf(b, o, tok, depth);
      VisitItems(b, o + TokSize(tok), next, depth);
    case Node(name, body, next) =>
      LiesNode(Struct(b), o, name, body, next);
      VisitNode(b, o, name, body, depth);
      VisitItems(b, o + NodeSize(name, body), next, depth);
      VisitJoin(b, o, name, body, next, depth);
  }

  /** The node and the items behind it. */
  lemma {:induction false} VisitJoin(b: seq<byte>, o: int, name: seq<byte>, body: Items, next: Items, depth: int)
    requires Buf(b) && o + NodeSize(name, body) < 0x8000_0000 && o < 0x8000_0000
    requires o + NodeSize(name, body) + Size(next) < 0x8000_0000
    requires VisitFrom(b, o, depth) ==
             [(o, depth + 1)] + Preorder(body, o + OpenSize(|name|), depth + 1) +
             VisitFrom(b, o + NodeSize(name, body), depth)
    requires VisitFrom(b, o + NodeSize(name, body), depth) ==
             Preorder(next, o + NodeSize(name, body), depth) +
             VisitFrom(b, o + NodeSize(name, body) + Size(next), depth)
    ensures VisitFrom(b, o, depth) ==
            Preorder(Node(name, body, next), o, depth) + VisitFrom(b, o + NodeSize(name, body) + Size(next), depth)
  {
    var e := o + NodeSize(name, body);
    var x, y := [(o, depth + 1)] + Preorder(body, o + OpenSize(|name|), depth + 1), Preorder(next, e, depth);
    assert Preorder(Node(name, body, next), o, depth) == x + y;
    Chain(x, y, VisitFrom(b, e + Size(next), depth));
  }

  lemma {:induction false} Chain(a: seq<(int, int)>, b: seq<(int, int)>, c: seq<(int, int)>)
    ensures a + (b + c) == a + b + c
  {
  }

  lemma {:induction false} VisitNode(b: seq<byte>, o: int, name: seq<byte>, body: Items, depth: int)
    requires Framed(b) && Aligned(o) && NodeLies(Struct(b), o, name, body) && depth >= 0
    ensures 0 <= o && o + NodeSize(name, body) <= SizeStruct(b) && Aligned(o + NodeSize(name, body))
    ensures VisitFrom(b, o, depth) ==
            [(o, depth + 1)] + Preorder(body, o + OpenSize(|name|), depth + 1) +
              VisitFrom(b, o + NodeSize(name, body), depth)
    decreases body, 1
  {
    var m, e := NodeTags(b, o, name, body);
    NextNodeOpen(b, o, Open(name), depth);
    VisitOpen(b, o, Open(name), depth + 1);
    VisitItems(b, m, body, depth + 1);
    NextNodeClose(b, e, depth + 1);
    Chain([(o, depth + 1)], Preorder(body, m, depth + 1), VisitFrom(b, e, depth + 1));
  }

  /** From any node, fdt_next_node with a depth counter that starts at 0 visits the node and
      exactly its descendants, in preorder and with their true depths. */
  lemma {:induction false} VisitsSubtree(b: seq<byte>, o: int, name: seq<byte>, body: Items)
    requires Framed(b) && Aligned(o) && NodeLies(Struct(b), o, name, body)
    ensures 0 <= o < 0x8000_0000 && Visits(b, o, 0) == [(o, 0)] + Preorder(body, o + OpenSize(|name|), 0)
  {
    var m, e := NodeTags(b, o, name, body);
    VisitOpen(b, o, Open(name), 0);
    VisitItems(b, m, body, 0);
    NextNodeClose(b, e, 0);
    assert Preorder(body, m, 0) + [] == Preorder(body, m, 0);
  }

  // ---- fdt_first_subnode, fdt_next_subnode ----

  ghost function FirstSubnode(b: seq<byte>, off: int): int
    requires Buf(b) && off < 0x8000_0000
  {
    var (o, d) := NextNode(b, off, 0, true);
    if o == DIVERGES then DIVERGES else if o < 0 || d != 1 then NOTFOUND else o
  }

  /** The loop of fdt_next_subnode. */
  ghost function NextSubnodeLoop(b: seq<byte>, off: int, depth: int): int
    requires Buf(b) && off < 0x8000_0000
    decreases 0x8000_0000 - off
  {
    NextTagBound(b, if off < 0 then 0 else off);
    NextNodeBound(b, if off < 0 then 0 else NextTag(b, off).1, depth, true);
    var (o, d) := NextNode(b, off, depth, true);
    if o == DIVERGES then DIVERGES
    else if o < 0 || d < 1 then NOTFOUND
    else if d == 1 then o
    else if o <= off then DIVERGES
    else NextSubnodeLoop(b, o, d)
  }

  ghost function NextSubnode(b: seq<byte>, off: int): int
    requires Buf(b) && off < 0x8000_0000
  {
    NextSubnodeLoop(b, off, 1)
  }

  /** The first node at the outermost level of the items at o; end if there is none. */
  ghost function FirstNode(t: Items, o: int): Option<int>
    decreases t
  {
    match t
    case Nil => None
    case Leaf(tok, next) => FirstNode(next, o + TokSize(tok))
    case Node(_, _, _) => Some(o)
  }

  /** The search for a node at depth 1 goes on from the token at pos. */
  ghost function SubFrom1(b: seq<byte>, pos: int, depth: int): int
    requires Buf(b) && pos < 0x8000_0000
  {
    NextNodeBound(b, pos, depth, true);
    var (o, d) := NextNodeLoop(b, pos, depth, true);
    if o == DIVERGES then DIVERGES
    else if o < 0 || d < 1 then NOTFOUND
    else if d == 1 then o
    else NextSubnodeLoop(b, o, d)
  }

  lemma {:induction false} SubFrom1Open(b: seq<byte>, o: int, k: Tok, depth: int)
    requires On(b, o, k) && k.Open? && depth >= 1
    ensures 0 <= o < 0x8000_0000 && o + TokSize(k) < 0x8000_0000
    ensures NextSubnodeLoop(b, o, depth) == SubFrom1(b, o + TokSize(k), depth)
  {
    NextNodeOpen(b, o, k, depth);
    NextNodeBound(b, o + TokSize(k), depth, true);
    OnStep(b, o, k);
  }

  /** Below the level of the children the search passes over complete items. */
  lemma {:induction false} SubPass(b: seq<byte>, o: int, t: Items, depth: int)
    requires Framed(b) && Aligned(o) && Lies(Struct(b), o, t) && depth >= 1 && 0 <= o && o + Size(t) <= SizeStruct(b)
    ensures SubFrom1(b, o, depth) == SubFrom1(b, o + Size(t), depth)
    decreases t, 0
  {
    SizeDef(t);
    match t
    case Nil =>
    case Leaf(tok, next) =>
      LiesLeaf(Struct(b), o, tok, next);
      OnStep(b, o, tok);
      NextNodeLeaf(b, o, tok, depth);
      SubPass(b, o + TokSize(tok), next, depth);
    case Node(name, body, next) =>
      LiesNode(Struct(b), o, name, body, next);
      SubPassNode(b, o, name, body, depth);
      SubPass(b, o + NodeSize(name, body), next, depth);
  }

  lemma {:induction false} SubPassNode(b: seq<byte>, o: int, name: seq<byte>, body: Items, depth: int)
    requires Framed(b) && Aligned(o) && NodeLies(Struct(b), o, name, body) && depth >= 1
    ensures 0 <= o && o + NodeSize(name, body) <= SizeStruct(b) && Aligned(o + NodeSize(name, body))
    ensures SubFrom1(b, o, depth) == SubFrom1(b, o + NodeSize(name, body), depth)
    decreases body, 1
  {
    var m, e := NodeTags(b, o, name, body);
    NextNodeOpen(b, o, Open(name), depth);
    SubFrom1Open(b, o, Open(name), depth + 1);
    SubPass(b, m, body, depth + 1);
    NextNodeClose(b, e, depth + 1);
  }

  lemma {:induction false} SubFirst(b: seq<byte>, o: int, t: Items)
    requires Framed(b) && Aligned(o) && Lies(Struct(b), o, t) && 0 <= o && TokAt(Struct(b), o + Size(t)) == Close
    ensures o < 0x8000_0000 && SubFrom1(b, o, 0) == FirstNode(t, o).GetOr(NOTFOUND)
    decreases t
  {
    SizeDef(t);
    match t
    case Nil =>
      OnStep(b, o, Close);
      NextNodeClose(b, o, 0);
    case Leaf(tok, next) =>
      LiesLeaf(Struct(b), o, tok, next);
      OnStep(b, o, tok);
      NextNodeLeaf(b, o, tok, 0);
      SubFirst(b, o + TokSize(tok), next);
    case Node(name, body, next) =>
      LiesNode(Struct(b), o, name, body, next);
      NextNodeOpen(b, o, Open(name), 0);
  }

  /** fdt_first_subnode returns the first child, fdt_next_subnode the next one after a child,
      and NOTFOUND when there is none. */
  lemma {:induction false} FirstSubnodeIs(b: seq<byte>, o: int, name: seq<byte>, body: Items)
    requires Framed(b) && Aligned(o) && NodeLies(Struct(b), o, name, body)
    ensures 0 <= o < 0x8000_0000 && FirstSubnode(b, o) == FirstNode(body, o + OpenSize(|name|)).GetOr(NOTFOUND)
  {
    var m, e := NodeTags(b, o, name, body);
    NextNodeOpen(b, o, Open(name), 0);
    SubFirst(b, m, body);
    FirstAtOne(b, m, body);
  }

  lemma {:induction false} FirstAtOne(b: seq<byte>, o: int, t: Items)
    requires Framed(b) && Aligned(o) && Lies(Struct(b), o, t) && 0 <= o && TokAt(Struct(b), o + Size(t)) == Close
    ensures o < 0x8000_0000
    ensures var r := NextNodeLoop(b, o, 0, true); r.1 == 1 || r.1 < 0
    decreases t
  {
    SizeDef(t);
    match t
    case Nil =>
      OnStep(b, o, Close);
      NextNodeClose(b, o, 0);
    case Leaf(tok, next) =>
      LiesLeaf(Struct(b), o, tok, next);
      OnStep(b, o, tok);
      NextNodeLeaf(b, o, tok, 0);
      FirstAtOne(b, o + TokSize(tok), next);
    case Node(name, body, next) =>
      LiesNode(Struct(b), o, name, body, next);
      NextNodeOpen(b, o, Open(name), 0);
  }

  lemma {:induction false} NextSubnodeIs(b: seq<byte>, o: int, name: seq<byte>, body: Items, next: Items)
    requires Framed(b) && Aligned(o) && NodeLies(Struct(b), o, name, body)
    requires Lies(Struct(b), o + NodeSize(name, body), next) &&
             TokAt(Struct(b), o + NodeSize(name, body) + Size(next)) == Close
    ensures 0 <= o < 0x8000_0000 && NextSubnode(b, o) == FirstNode(next, o + NodeSize(name, body)).GetOr(NOTFOUND)
  {
    var m, e := NodeTags(b, o, name, body);
    SubFrom1Open(b, o, Open(name), 1);
    SubPass(b, m, body, 1);
    NextNodeClose(b, e, 1);
    SubFirst(b, e + 4, next);
  }

  // ---- fdt_supernode_atdepth_offset ----

  /** Its loop: the last node seen at depth k is acc. */
  ghost function SuperLoop(b: seq<byte>, off: int, depth: int, target: int, k: int, acc: int): int
    requires Buf(b) && off < 0x8000_0000
    decreases 0x8000_0000 - off
  {
    if off < 0 || off > target then SuperEnd(off)
    else
      var acc' := if depth == k then off else acc;
      if off == target then (if k > depth then NOTFOUND else acc')
      else
        NextTagBound(b, off);
        NextNodeBound(b, NextTag(b, off).1, depth, true);
        var (o, d) := NextNode(b, off, depth, true);
        if o < 0 then SuperEnd(o) else if o <= off then DIVERGES else SuperLoop(b, o, d, target, k, acc')
  }

  /** The code returned when the walk ends without meeting the node. */
  function SuperEnd(off: int): int {
    if off == NOTFOUND || off >= 0 then BADOFFSET else if off == BADOFFSET then BADSTRUCTURE else off
  }

  ghost function Supernode(b: seq<byte>, target: int, k: int): int
    requires Buf(b)
  {
    if RoProbe(b) < 0 then RoProbe(b) else if k < 0 then NOTFOUND else SuperLoop(b, 0, 0, target, k, INTERNAL)
  }

  /** The loop goes on from the token at pos. */
  ghost function SuperFrom(b: seq<byte>, pos: int, depth: int, target: int, k: int, acc: int): int
    requires Buf(b) && pos < 0x8000_0000
  {
    NextNodeBound(b, pos, depth, true);
    var (o, d) := NextNodeLoop(b, pos, depth, true);
    SuperLoop(b, o, d, target, k, acc)
  }

  lemma {:induction false} SuperOpen(b: seq<byte>, o: int, k: Tok, depth: int, target: int, level: int, acc: int)
    requires On(b, o, k) && k.Open? && o < target
    ensures 0 <= o < 0x8000_0000 && o + TokSize(k) < 0x8000_0000
    ensures SuperLoop(b, o, depth, target, level, acc) ==
            SuperFrom(b, o + TokSize(k), depth, target, level, if depth == level then o else acc)
  {
    NextNodeOpen(b, o, k, depth);
    NextNodeBound(b, o + TokSize(k), depth, true);
    OnStep(b, o, k);
  }

  /** Complete items before the target change at most what is remembered, and not even that
      if they lie below the level asked for. */
  ghost predicate Passes(b: seq<byte>, o: int, e: int, depth: int, target: int, level: int, acc: int)
    requires Buf(b) && o < 0x8000_0000 && e < 0x8000_0000
  {
    exists acc' :: SuperFrom(b, o, depth, target, level, acc) == SuperFrom(b, e, depth, target, level, acc') &&
      (depth >= level ==> acc' == acc)
  }

  lemma {:induction false} SuperPass(b: seq<byte>, o: int, t: Items, depth: int, target: int, level: int, acc: int)
    requires Framed(b) && Aligned(o) && Lies(Struct(b), o, t) && depth >= 0 && 0 <= o &&
             o + Size(t) <= SizeStruct(b) && o + Size(t) <= target
    ensures Passes(b, o, o + Size(t), depth, target, level, acc)
    decreases t, 0
  {
    SizeDef(t);
    match t
    case Nil =>
      assert SuperFrom(b, o, depth, target, level, acc) == SuperFrom(b, o + Size(t), depth, target, level, acc);
    case Leaf(tok, next) =>
      LiesLeaf(Struct(b), o, tok, next);
      OnStep(b, o, tok);
      NextNodeLeaf(b, o, tok, depth);
      SuperPass(b, o + TokSize(tok), next, depth, target, level, acc);
    case Node(name, body, next) =>
      LiesNode(Struct(b), o, name, body, next);
      var e := o + NodeSize(name, body);
      SuperPassNode(b, o, name, body, depth, target, level, acc);
      var acc1 :| SuperFrom(b, o, depth, target, level, acc) == SuperFrom(b, e, depth, target, level, acc1) &&
        (depth >= level ==> acc1 == acc);
      SuperPass(b, e, next, depth, target, level, acc1);
  }

  lemma {:induction false} SuperPassNode(b: seq<byte>, o: int, name: seq<byte>, body: Items, depth: int,
    target: int, level: int, acc: int)
    requires Framed(b) && Aligned(o) && NodeLies(Struct(b), o, name, body) && depth >= 0 &&
             o + NodeSize(name, body) <= target
    ensures 0 <= o && o + NodeSize(name, body) <= SizeStruct(b) && Aligned(o + NodeSize(name, body))
    ensures Passes(b, o, o + NodeSize(name, body), depth, target, level, acc)
    decreases body, 1
  {
    var m, e := NodeTags(b, o, name, body);
    NextNodeOpen(b, o, Open(name), depth);
    SuperOpen(b, o, Open(name), depth + 1, target, level, acc);
    var acc1 := if depth + 1 == level then o else acc;
    SuperPass(b, m, body, depth + 1, target, level, acc1);
    var acc2 :| SuperFrom(b, m, depth + 1, target, level, acc1) == SuperFrom(b, e, depth + 1, target, level, acc2) &&
      (depth + 1 >= level ==> acc2 == acc1);
    NextNodeClose(b, e, depth + 1);
    assert SuperFrom(b, o, depth, target, level, acc) == SuperFrom(b, e + 4, depth, target, level, acc2);
  }

  /** Walking through a context to the node in its hole: the node remembered at each level
      below the outermost is the one that the hole lies in. */
  lemma {:induction false} SuperInto(b: seq<byte>, o: int, c: Ctx, n: Items, depth: int, target: int, level: int,
    acc: int)
    requires Framed(b) && Aligned(o) && n.Node? && Lies(Struct(b), o, Plug(c, n)) && depth >= 0 && 0 <= o &&
             o + Size(Plug(c, n)) <= SizeStruct(b)
    requires target == o + PreSize(c) && level > depth
    ensures var p := PathOf(c);
            SuperFrom(b, o, depth, target, level, acc) ==
            if level > depth + |p| then NOTFOUND else o + NodeOffset(Plug(c, n), p[..level - depth])
    decreases c
  {
    CtxSizeDef(c);
    SizeDef(Plug(c, n));
    var p, t := PathOf(c), Plug(c, n);
    match c
    case Hole =>
      LiesNode(Struct(b), o, n.name, n.body, n.next);
      NextNodeOpen(b, o, Open(n.name), depth);
      assert level == depth + 1 ==> p[..1] == p;
    case AfterLeaf(tok, rest) =>
      LiesLeaf(Struct(b), o, tok, Plug(rest, n));
      OnStep(b, o, tok);
      NextNodeLeaf(b, o, tok, depth);
      SuperInto(b, o + TokSize(tok), rest, n, depth, target, level, acc);
      if level <= depth + |p| {
        SuperStep(c, n, depth, level);
      }
    case AfterNode(name, body, rest) =>
      LiesNode(Struct(b), o, name, body, Plug(rest, n));
      var e := o + NodeSize(name, body);
      SuperPassNode(b, o, name, body, depth, target, level, acc);
      var acc1 :| SuperFrom(b, o, depth, target, level, acc) == SuperFrom(b, e, depth, target, level, acc1) &&
        (depth >= level ==> acc1 == acc);
      SuperInto(b, e, rest, n, depth, target, level, acc1);
      if level <= depth + |p| {
        SuperStep(c, n, depth, level);
      }
    case Inside(name, rest, next) => SuperInside(b, o, c, n, depth, target, level, acc);
  }

  /** The offsets of the prefixes of the path, one context constructor further out. */
  lemma {:induction false} SuperStep(c: Ctx, n: Items, depth: int, level: int)
    requires n.Node? && (c.AfterLeaf? || c.AfterNode?) && depth < level <= depth + |PathOf(c)|
    ensures var k := if c.AfterLeaf? then TokSize(c.tok) else NodeSize(c.name, c.body);
            |PathOf(c.rest)| == |PathOf(c)| &&
            NodeOffset(Plug(c, n), PathOf(c)[..level - depth]) ==
              k + NodeOffset(Plug(c.rest, n), PathOf(c.rest)[..level - depth])
  {
    var q := PathOf(c)[..level - depth];
    CtxSizeDef(CtxAt(Plug(c, n), q));
    if c.AfterNode? {
      assert [q[0] - 1] + q[1..] == PathOf(c.rest)[..level - depth];
    }
  }

  lemma {:induction false} SuperInside(b: seq<byte>, o: int, c: Ctx, n: Items, depth: int, target: int, level: int,
    acc: int)
    requires Framed(b) && Aligned(o) && n.Node? && Lies(Struct(b), o, Plug(c, n)) && depth >= 0 && 0 <= o &&
             o + Size(Plug(c, n)) <= SizeStruct(b)
    requires target == o + PreSize(c) && level > depth && c.Inside?
    ensures var p := PathOf(c);
            SuperFrom(b, o, depth, target, level, acc) ==
            if level > depth + |p| then NOTFOUND else o + NodeOffset(Plug(c, n), p[..level - depth])
    decreases c, 0
  {
    CtxSizeDef(c);
    SizeDef(Plug(c, n));
    var body := Plug(c.rest, n);
    LiesNode(Struct(b), o, c.name, body, c.next);
    var m, e := NodeTags(b, o, c.name, body);
    NextNodeOpen(b, o, Open(c.name), depth);
    SuperOpen(b, o, Open(c.name), depth + 1, target, level, acc);
    var q := PathOf(c)[..if level > depth + |PathOf(c)| then 1 else level - depth];
    CtxSizeDef(CtxAt(Plug(c, n), q));
    if level > depth + 1 {
      SuperInto(b, m, c.rest, n, depth + 1, target, level, acc);
      assert PathOf(c)[1..] == PathOf(c.rest);
      assert level <= depth + |PathOf(c)| ==> q[1..] == PathOf(c.rest)[..level - depth - 1];
    } else {
      SuperKeeps(b, m, c.rest, n, depth + 1, target, level, o);
      CtxSizeDef(Hole);
    }
  }

  /** Below the level asked for, the node remembered stays. */
  lemma {:induction false} SuperKeeps(b: seq<byte>, o: int, c: Ctx, n: Items, depth: int, target: int, level: int,
    acc: int)
    requires Framed(b) && Aligned(o) && n.Node? && Lies(Struct(b), o, Plug(c, n)) && depth >= 0 && 0 <= o &&
             o + Size(Plug(c, n)) <= SizeStruct(b)
    requires target == o + PreSize(c) && level <= depth
    ensures SuperFrom(b, o, depth, target, level, acc) == acc
    decreases c
  {
    CtxSizeDef(c);
    SizeDef(Plug(c, n));
    match c
    case Hole =>
      LiesNode(Struct(b), o, n.name, n.body, n.next);
      NextNodeOpen(b, o, Open(n.name), depth);
    case AfterLeaf(tok, rest) =>
      LiesLeaf(Struct(b), o, tok, Plug(rest, n));
      OnStep(b, o, tok);
      NextNodeLeaf(b, o, tok, depth);
      SuperKeeps(b, o + TokSize(tok), rest, n, depth, target, level, acc);
    case AfterNode(name, body, rest) =>
      LiesNode(Struct(b), o, name, body, Plug(rest, n));
      SuperPassNode(b, o, name, body, depth, target, level, acc);
      SuperKeeps(b, o + NodeSize(name, body), rest, n, depth, target, level, acc);
    case Inside(name, rest, next) =>
      LiesNode(Struct(b), o, name, Plug(rest, n), next);
      var m, e := NodeTags(b, o, name, Plug(rest, n));
      NextNodeOpen(b, o, Open(name), depth);
      SuperOpen(b, o, Open(name), depth + 1, target, level, acc);
      SuperKeeps(b, m, rest, n, depth + 1, target, level, acc);
  }

  /** fdt_supernode_atdepth_offset returns the ancestor at that depth of every node below the
      root at offset 0 (and the root itself at depth 0), or NOTFOUND when the node is not
      that deep; fdt_parent_offset is the case of one level up. */
  lemma {:induction false} SupernodeIs(b: seq<byte>, t: Items, p: seq<nat>, k: int)
    requires Addresses(b, t, p) && t.Node? && p[0] == 0 && 0 <= k
    ensures Supernode(b, NodeOffset(t, p), k) == if k >= |p| then NOTFOUND else NodeOffset(t, p[..k + 1])
  {
    Located(b, t, p);
    var c, n := CtxAt(t, p), ItemsAt(t, p);
    HoldsDef(b, t);
    SizeDef(t);
    AlignedConst();
    LiesNode(Struct(b), 0, t.name, t.body, t.next);
    CtxSizeDef(c);
    RwProbeDef(b);
    var m, e := NodeTags(b, 0, t.name, t.body);
    if |p| == 1 {
      assert p == [0];
      assert k == 0 ==> p[..1] == p;
    } else {
      SuperRoot(b, t, p, k, c, n);
    }
  }

  lemma {:induction false} SuperRoot(b: seq<byte>, t: Items, p: seq<nat>, k: int, c: Ctx, n: Items)
    requires Framed(b) && Lies(Struct(b), 0, t) && Size(t) <= SizeStruct(b) && t.Node? && |p| > 1 && p[0] == 0 && 0 <= k
    requires c == CtxAt(t, p) && Plug(c, n) == t && PathOf(c) == p && n.Node?
    ensures SuperLoop(b, 0, 0, NodeOffset(t, p), k, INTERNAL) == if k >= |p| then NOTFOUND
            else NodeOffset(t, p[..k + 1])
  {
    AlignedConst();
    SizeDef(t);
    CtxSizeDef(c);
    LiesNode(Struct(b), 0, t.name, t.body, t.next);
    var m, e := NodeTags(b, 0, t.name, t.body);
    var target := NodeOffset(t, p);
    SuperOpen(b, 0, Open(t.name), 0, target, k, INTERNAL);
    var d := CtxAt(t.body, p[1..]);
    assert c == Inside(t.name, d, t.next);
    assert PathOf(d) == p[1..] by { assert ([0] + PathOf(d))[1..] == PathOf(d); }
    if k == 0 {
      SuperKeeps(b, m, d, n, 0, target, 0, 0);
      CtxSizeDef(CtxAt(t, p[..1]));
    } else {
      SuperInto(b, m, d, n, 0, target, k, INTERNAL);
      if k < |p| {
        CtxSizeDef(CtxAt(t, p[..k + 1]));
        assert p[..k + 1][1..] == p[1..][..k];
      }
    }
  }

  // ---- fdt_node_depth, fdt_parent_offset ----

  /** What the same loop stores in *nodedepth, if it gets to the node. */
  ghost function DepthLoop(b: seq<byte>, off: int, depth: int, target: int): Option<int>
    requires Buf(b) && off < 0x8000_0000
    decreases 0x8000_0000 - off
  {
    if !(0 <= off <= target) then None
    else if off == target then Some(depth)
    else
      NextTagBound(b, off);
      NextNodeBound(b, NextTag(b, off).1, depth, true);
      var (o, d) := NextNode(b, off, depth, true);
      if o <= off then None else DepthLoop(b, o, d, target)
  }

  ghost function NodeDepth(b: seq<byte>, target: int): int
    requires Buf(b)
  {
    var err := Supernode(b, target, 0);
    if err < 0 then err else if err > 0 then INTERNAL else DepthLoop(b, 0, 0, target).GetOr(INTERNAL)
  }

  ghost function ParentOffset(b: seq<byte>, target: int): int
    requires Buf(b)
  {
    var d := NodeDepth(b, target);
    if d < 0 then d else Supernode(b, target, d - 1)
  }

  /** The loop answers NOTFOUND iff it gets to the node and the level asked for is below its
      depth. */
  lemma {:induction false} DepthDecides(b: seq<byte>, off: int, depth: int, target: int, k: int, acc: int)
    requires Buf(b) && off < 0x8000_0000 && (acc >= 0 || acc == INTERNAL)
    ensures var r, d := SuperLoop(b, off, depth, target, k, acc), DepthLoop(b, off, depth, target);
            (r == NOTFOUND <==> d.Some? && k > d.value) && (r >= 0 ==> d.Some? && k <= d.value)
    decreases 0x8000_0000 - off
  {
    if 0 <= off < target {
      NextTagBound(b, off);
      NextNodeBound(b, NextTag(b, off).1, depth, true);
      var (o, d) := NextNode(b, off, depth, true);
      if off < o {
        DepthDecides(b, o, d, target, k, if depth == k then off else acc);
      }
    }
  }

  /** fdt_node_depth returns the depth of every node below the root at offset 0, and
      fdt_parent_offset its parent, or NOTFOUND for the root. */
  lemma {:induction false} ParentIs(b: seq<byte>, t: Items, p: seq<nat>)
    requires Addresses(b, t, p) && t.Node? && p[0] == 0
    ensures NodeDepth(b, NodeOffset(t, p)) == |p| - 1
    ensures ParentOffset(b, NodeOffset(t, p)) == if |p| == 1 then NOTFOUND else NodeOffset(t, p[..|p| - 1])
  {
    var target := NodeOffset(t, p);
    SupernodeIs(b, t, p, 0);
    SupernodeIs(b, t, p, |p| - 1);
    SupernodeIs(b, t, p, |p|);
    DepthDecides(b, 0, 0, target, |p| - 1, INTERNAL);
    DepthDecides(b, 0, 0, target, |p|, INTERNAL);
    Located(b, t, p);
    HoldsDef(b, t);
    RwProbeDef(b);
    CtxSizeDef(CtxAt(t, p[..1]));
    CtxSizeDef(Hole);
    assert p[..|p|] == p;
    if |p| > 1 {
      SupernodeIs(b, t, p, |p| - 2);
    }
  }
}
