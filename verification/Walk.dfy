/** fdt.c and fdt_wip.c: the walkers that visit nodes with a depth counter, and what
    they return on a structure block whose items are known. */
module Walk {
  import opened Bytes
  import opened Syntax
  import opened Fdt

  /** Not an error code of libfdt: the C loop never ends.  Module Ending shows when. */
  const DIVERGES: int := -100

  /** Not an error code of libfdt either: the C code would read or write outside the buffer. */
  const STRAYS: int := -101

  /** fdt_check_node_offset_. */
  ghost function CheckNodeOffset(b: seq<byte>, off: int): int
    requires Buf(b) && off < 0x8000_0000
  {
    if off < 0 || off % 4 != 0 || NextTag(b, off).0 != FDT_BEGIN_NODE then BADOFFSET else NextTag(b, off).1
  }

  /** fdt_check_prop_offset_. */
  ghost function CheckPropOffset(b: seq<byte>, off: int): int
    requires Buf(b) && off < 0x8000_0000
  {
    if off < 0 || off % 4 != 0 || NextTag(b, off).0 != FDT_PROP then BADOFFSET else NextTag(b, off).1
  }

  /** The loop of fdt_next_node: the offset it returns and the new depth.  `track` is
      false when the caller passes no depth pointer. */
  ghost function NextNodeLoop(b: seq<byte>, pos: int, depth: int, track: bool): (int, int)
    requires Buf(b) && pos < 0x8000_0000
    decreases 0x8000_0000 - pos
  {
    NextTagBound(b, pos);
    var (tag, next) := NextTag(b, pos);
    if tag == FDT_BEGIN_NODE then (pos, depth + 1)
    else if tag == FDT_END then (if next >= 0 || (next == TRUNCATED && !track) then NOTFOUND else next, depth)
    else if tag == FDT_END_NODE && track && depth - 1 < 0 then (next, depth - 1)
    else if next <= pos then (DIVERGES, depth)
    else NextNodeLoop(b, next, if tag == FDT_END_NODE then depth - 1 else depth, track)
  }

  ghost function NextNode(b: seq<byte>, off: int, depth: int, track: bool): (int, int)
    requires Buf(b) && off < 0x8000_0000
  {
    if off < 0 then NextNodeLoop(b, 0, depth, track)
    else
      NextTagBound(b, off);
      var next := CheckNodeOffset(b, off);
      if next < 0 then (next, depth) else NextNodeLoop(b, next, depth, track)
  }

  lemma {:induction false} NextNodeBound(b: seq<byte>, pos: int, depth: int, track: bool)
    requires Buf(b) && pos < 0x8000_0000
    ensures NextNodeLoop(b, pos, depth, track).0 < 0x8000_0000
    ensures NextNodeLoop(b, pos, depth, track).0 >= 0 ==> NextNodeLoop(b, pos, depth, track).0 >= pos
    decreases 0x8000_0000 - pos
  {
    NextTagBound(b, pos);
    var (tag, next) := NextTag(b, pos);
    if pos < next {
      NextNodeBound(b, next, if tag == FDT_END_NODE then depth - 1 else depth, track);
    }
  }

  // ---- fdt_next_node, token by token ----

  /** Everything the walkers need to know about the place they stand at. */
  ghost predicate On(b: seq<byte>, o: int, k: Tok) {
    Framed(b) && Aligned(o) && TokAt(Struct(b), o) == k && !k.Bad?
  }

  /** One step of the tag reader from a token to the next offset. */
  lemma {:induction false} OnStep(b: seq<byte>, o: int, k: Tok)
    requires On(b, o, k)
    ensures 0 <= o && o + TokSize(k) <= SizeStruct(b) < 0x8000_0000 && Aligned(o + TokSize(k)) && o % 4 == 0
    ensures NextTag(b, o) == (TagOf(k), o + TokSize(k))
  {
    NextTagTok(b, o);
    TokFits(Struct(b), o);
    TokSizeAligned(k);
    AlignedAdd(o, TokSize(k));
    AlignedMod(o);
  }

  lemma {:induction false} NextNodeLeaf(b: seq<byte>, o: int, k: Tok, depth: int)
    requires On(b, o, k) && IsLeaf(k)
    ensures o + TokSize(k) < 0x8000_0000 && o < 0x8000_0000
    ensures NextNodeLoop(b, o, depth, true) == NextNodeLoop(b, o + TokSize(k), depth, true)
  {
    OnStep(b, o, k);
  }

  lemma {:induction false} NextNodeOpen(b: seq<byte>, o: int, k: Tok, depth: int)
    requires On(b, o, k) && k.Open?
    ensures 0 <= o < 0x8000_0000 && o + TokSize(k) < 0x8000_0000
    ensures NextNodeLoop(b, o, depth, true) == (o, depth + 1)
    ensures NextNode(b, o, depth, true) == NextNodeLoop(b, o + TokSize(k), depth, true)
  {
    OnStep(b, o, k);
  }

  lemma {:induction false} NextNodeClose(b: seq<byte>, o: int, depth: int)
    requires On(b, o, Close)
    ensures o + 4 < 0x8000_0000
    ensures NextNodeLoop(b, o, depth, true) == if depth < 1 then (o + 4, depth - 1)
            else NextNodeLoop(b, o + 4, depth - 1, true)
  {
    OnStep(b, o, Close);
  }

  // ---- fdt_node_end_offset_ ----

  /** The loop of fdt_node_end_offset_: step from node to node, counting depth, until the
      depth of the starting node is left or a step fails; the last offset is the result. */
  ghost function NodeEndLoop(b: seq<byte>, off: int, depth: int): int
    requires Buf(b) && off < 0x8000_0000
    decreases 0x8000_0000 - off
  {
    if off < 0 || depth < 0 then off
    else
      NextTagBound(b, off);
      NextNodeBound(b, NextTag(b, off).1, depth, true);
      var (o, d) := NextNode(b, off, depth, true);
      if o < 0 || d < 0 then o
      else if o <= off then DIVERGES
      else NodeEndLoop(b, o, d)
  }

  ghost function NodeEndOffset(b: seq<byte>, off: int): int
    requires Buf(b) && off < 0x8000_0000
  {
    NodeEndLoop(b, off, 0)
  }

  /** The loop goes on from the token at pos. */
  ghost function EndFrom(b: seq<byte>, pos: int, depth: int): int
    requires Buf(b) && pos < 0x8000_0000
  {
    NextNodeBound(b, pos, depth, true);
    var (o, d) := NextNodeLoop(b, pos, depth, true);
    if o < 0 || d < 0 then o else NodeEndLoop(b, o, d)
  }

  lemma {:induction false} EndFromOpen(b: seq<byte>, o: int, k: Tok, depth: int)
    requires On(b, o, k) && k.Open? && depth >= 0
    ensures 0 <= o < 0x8000_0000 && o + TokSize(k) < 0x8000_0000
    ensures NodeEndLoop(b, o, depth) == EndFrom(b, o + TokSize(k), depth)
  {
    NextNodeOpen(b, o, k, depth);
    NextNodeBound(b, o + TokSize(k), depth, true);
  }

  /** The loop passes over any complete items at its own or a deeper level. */
  lemma {:induction false} EndFromItems(b: seq<byte>, o: int, t: Items, depth: int)
    requires Framed(b) && Aligned(o) && Lies(Struct(b), o, t) && depth >= 0 && 0 <= o && o + Size(t) <= SizeStruct(b)
    ensures EndFrom(b, o, depth) == EndFrom(b, o + Size(t), depth)
    decreases t, 0
  {
    SizeDef(t);
    match t
    case Nil =>
    case Leaf(tok, next) =>
      LiesLeaf(Struct(b), o, tok, next);
      OnStep(b, o, tok);
      NextNodeLeaf(b, o, tok, depth);
      EndFromItems(b, o + TokSize(tok), next, depth);
    case Node(name, body, next) =>
      LiesNode(Struct(b), o, name, body, next);
      EndFromNode(b, o, name, body, depth);
      EndFromItems(b, o + NodeSize(name, body), next, depth);
  }

  lemma {:induction false} EndFromNode(b: seq<byte>, o: int, name: seq<byte>, body: Items, depth: int)
    requires Framed(b) && Aligned(o) && NodeLies(Struct(b), o, name, body) && depth >= 0
    ensures 0 <= o && o + NodeSize(name, body) <= SizeStruct(b) && Aligned(o + NodeSize(name, body))
    ensures EndFrom(b, o, depth) == EndFrom(b, o + NodeSize(name, body), depth)
    decreases body, 1
  {
    var m, e := NodeTags(b, o, name, body);
    NextNodeOpen(b, o, Open(name), depth);
    EndFromOpen(b, o, Open(name), depth + 1);
    EndFromItems(b, m, body, depth + 1);
    NextNodeClose(b, e, depth + 1);
  }

  /** The offsets of a node's body and of its FDT_END_NODE. */
  lemma {:induction false} NodeTags(b: seq<byte>, o: int, name: seq<byte>, body: Items) returns (m: int, e: int)
    requires Framed(b) && Aligned(o) && NodeLies(Struct(b), o, name, body)
    ensures m == o + OpenSize(|name|) && e == m + Size(body) && e + 4 == o + NodeSize(name, body)
    ensures 0 <= o && e + 4 <= SizeStruct(b) && Aligned(m) && Aligned(e) && Aligned(e + 4) && On(b, o, Open(name)) &&
            On(b, e, Close)
  {
    m := o + OpenSize(|name|);
    e := m + Size(body);
    OnStep(b, o, Open(name));
    SizeAligned(body);
    AlignedAdd(m, Size(body));
    OnStep(b, e, Close);
  }

  /** fdt_node_end_offset_ returns the offset just after the node. */
  lemma {:induction false} NodeEndIs(b: seq<byte>, o: int, name: seq<byte>, body: Items)
    requires Framed(b) && Aligned(o) && NodeLies(Struct(b), o, name, body)
    ensures 0 <= o && o + NodeSize(name, body) <= SizeStruct(b) && NodeEndOffset(b, o) == o + NodeSize(name, body)
  {
    var m, e := NodeTags(b, o, name, body);
    EndFromOpen(b, o, Open(name), 0);
    EndFromItems(b, m, body, 0);
    NextNodeClose(b, e, 0);
  }
}
