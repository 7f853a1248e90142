/** Byte-level effect of deleting properties and nodes, adding subnodes and renaming. */
module RefineNodes {
  import opened Bytes
  import opened Syntax
  import opened DeviceTree
  import opened Fdt
  import opened Walk
  import opened Blob
  import opened Lookup
  import opened Splice
  import opened Edit
  import opened Refine

  // ---- removal ----

  /** Cutting out the bytes between the items x and the items x' that follow them. */
  lemma {:induction false} Cut(b: seq<byte>, b': seq<byte>, h: int, x: Items, x': Items)
    requires Size(x') <= Size(x) && StructSpliced(b, b', h, Size(x) - Size(x'), 0) && h + Size(x) <= SizeStruct(b)
    requires Lies(Struct(b), h + Size(x) - Size(x'), x')
    ensures Replaced(b, b', h, x, x')
  {
    var s, s', k := Struct(b), Struct(b'), h + Size(x) - Size(x');
    var n := SizeStruct(b) - k;
    TailMoved(s, k, s', h, n, x');
    SamePart(s, k, s', h, n, Size(x'), n - Size(x'));
  }

  lemma {:induction false} DelPropIs(b: seq<byte>, c: Ctx, n: Items, name: seq<byte>, x: Items, h: int)
    requires n.Node? && Holds(b, Plug(c, n)) && FindProp(n.body, Strings(b), name).Some?
    requires x == PropTail(n.body, Strings(b), name) && h == PropOffset(b, c, n, name)
    ensures x.Leaf? && PreSize(c) < 0x8000_0000 && Editable(b)
    ensures var r := DelProp(b, PreSize(c), name);
            r.code == 0 && Kept(b, r.blob) && Strings(r.blob) == Strings(b) && Replaced(b, r.blob, h, x, x.next)
  {
    SizeDef(x);
    PropertyFound(b, c, n, name, x, h);
    SpliceStructIs(b, h, PropSize(|x.tok.val|), 0);
    LiesLeaf(Struct(b), h, x.tok, x.next);
    Cut(b, DelProp(b, PreSize(c), name).blob, h, x, x.next);
  }

  lemma {:induction false} DelNodeIs(b: seq<byte>, c: Ctx, n: Items)
    requires n.Node? && Holds(b, Plug(c, n))
    ensures PreSize(c) < 0x8000_0000 && Editable(b)
    ensures var r := DelNode(b, PreSize(c));
            r.code == 0 && Kept(b, r.blob) && Strings(r.blob) == Strings(b) &&
              Replaced(b, r.blob, PreSize(c), n, n.next)
  {
    NodeFacts(b, c, n);
    LiesNode(Struct(b), PreSize(c), n.name, n.body, n.next);
    LiesFits(Struct(b), PreSize(c), n);
    DelNodeAt(b, PreSize(c), n);
  }

  lemma {:induction false} DelNodeAt(b: seq<byte>, h: int, n: Items)
    requires Sane(b) && RwProbe(b) == 0 && Aligned(h) && n.Node? && NodeLies(Struct(b), h, n.name, n.body)
    requires Lies(Struct(b), h + NodeSize(n.name, n.body), n.next) && h + Size(n) <= SizeStruct(b)
    ensures 0 <= h < 0x8000_0000
    ensures var r := DelNode(b, h);
            r.code == 0 && Kept(b, r.blob) && Strings(r.blob) == Strings(b) && Replaced(b, r.blob, h, n, n.next)
  {
    SizeDef(n);
    NodeEndIs(b, h, n.name, n.body);
    SpliceStructIs(b, h, NodeSize(n.name, n.body), 0);
    Cut(b, DelNode(b, h).blob, h, n, n.next);
  }

  // ---- renaming ----

  lemma {:induction false} OpenSpelled(s: seq<byte>, p: int, name: seq<byte>)
    requires TagHere(s, p, FDT_BEGIN_NODE) && p + OpenSize(|name|) <= |s| && NulFree(name)
    requires s[p + 4..p + 4 + |name| + 1] == name + [0]
    ensures Spells(s, p, Open(name))
  {
    SliceSlice(s, p + 4, p + 4 + |name| + 1, 0, |name|);
    assert (name + [0])[0..|name|] == name;
    assert s[p + 4 + |name|] == s[p + 4..p + 4 + |name| + 1][|name|];
  }

  ghost predicate TagHere(s: seq<byte>, p: int, tag: int) { 0 <= p <= |s| - 4 && Ld32(s, p) == tag }

  /** The bytes fdt_set_name leaves. */
  lemma {:induction false} NameWritten(b: seq<byte>, b1: seq<byte>, h: int, n: Items, name: seq<byte>)
    requires n.Node? && StructSpliced(b, b1, h + 4, Align4(|n.name| + 1), Align4(|name| + 1)) && NulFree(name)
    requires 0 <= h && Spells(Struct(b), h, Open(n.name)) && h + Size(n) <= SizeStruct(b)
    ensures OffStruct(b) + h + 4 + |name| + 1 <= |b1|
    ensures var b' := Put(b1, OffStruct(b) + h + 4, name + [0]);
            var m, m' := h + OpenSize(|n.name|), h + OpenSize(|name|);
            Kept(b, b') && Strings(b') == Strings(b) && SizeStruct(b') == SizeStruct(b) - m + m' &&
            Spells(Struct(b'), h, Open(name)) && Same(Struct(b), 0, Struct(b'), 0, h) &&
            Same(Struct(b), m, Struct(b'), m', SizeStruct(b) - m)
  {
    SizeDef(n);
    var m, m' := h + OpenSize(|n.name|), h + OpenSize(|name|);
    var y := name + [0];
    PutStruct(b1, h + 4, y);
    var b' := Put(b1, OffStruct(b) + h + 4, y);
    var s, s1, s' := Struct(b), Struct(b1), Struct(b');
    PutInside(s1, h + 4, y);
    SamePart(s, 0, s1, 0, h + 4, h, 4);
    LdSame(s, h, s1, h);
    LdPutOther(s1, h + 4, y, h);
    OpenSpelled(s', h, name);
    SamePart(s, 0, s1, 0, h + 4, 0, h);
    SamePut(s, 0, s1, 0, h, h + 4, y);
    SamePut(s, m, s1, m', SizeStruct(b) - m, h + 4, y);
  }

  lemma {:induction false} SetNameIs(b: seq<byte>, c: Ctx, n: Items, name: seq<byte>)
    requires n.Node? && Holds(b, Plug(c, n)) && NulFree(name) && |name| < 0x7fff_fff0
    ensures PreSize(c) < 0x8000_0000 && Editable(b)
    ensures var r := SetName(b, PreSize(c), name);
            if DataSize(b) - Align4(|n.name| + 1) + Align4(|name| + 1) <= TotalSize(b) then
              r.code == 0 && Kept(b, r.blob) && Strings(r.blob) == Strings(b) &&
                Replaced(b, r.blob, PreSize(c), n, n.(name := name))
            else r == Res(NOSPACE, b)
  {
    NodeFacts(b, c, n);
    LiesFits(Struct(b), PreSize(c), n);
    SetNameAt(b, PreSize(c), n, name);
  }

  lemma {:induction false} SetNameAt(b: seq<byte>, h: int, n: Items, name: seq<byte>)
    requires Sane(b) && RwProbe(b) == 0 && Aligned(h) && n.Node? && Lies(Struct(b), h, n) &&
             h + Size(n) <= SizeStruct(b)
    requires TokAt(Struct(b), h) == Open(n.name) && NulFree(name) && |name| < 0x7fff_fff0
    ensures 0 <= h < 0x8000_0000
    ensures var r := SetName(b, h, name);
            if DataSize(b) - Align4(|n.name| + 1) + Align4(|name| + 1) <= TotalSize(b) then
              r.code == 0 && Kept(b, r.blob) && Strings(r.blob) == Strings(b) &&
                Replaced(b, r.blob, h, n, n.(name := name))
            else r == Res(NOSPACE, b)
  {
    OnStep(b, h, Open(n.name));
    GetNameIs(b, h, n.name);
    RenameIs(b, h, n, name);
  }

  lemma {:induction false} RenameIs(b: seq<byte>, h: int, n: Items, name: seq<byte>)
    requires Sane(b) && 0 <= h && n.Node? && Lies(Struct(b), h, n) && h + Size(n) <= SizeStruct(b)
    requires TokAt(Struct(b), h) == Open(n.name) && NulFree(name)
    ensures var r := Rename(b, h, |n.name|, name);
            if DataSize(b) - Align4(|n.name| + 1) + Align4(|name| + 1) <= TotalSize(b) then
              r.code == 0 && Kept(b, r.blob) && Strings(r.blob) == Strings(b) &&
                Replaced(b, r.blob, h, n, n.(name := name))
            else r == Res(NOSPACE, b)
  {
    SizeDef(n);
    SpliceStructIs(b, h + 4, Align4(|n.name| + 1), Align4(|name| + 1));
    if DataSize(b) - Align4(|n.name| + 1) + Align4(|name| + 1) <= TotalSize(b) {
      NameReplaced(b, SpliceStruct(b, h + 4, Align4(|n.name| + 1), Align4(|name| + 1)).blob, h, n, name);
    }
  }

  lemma {:induction false} NameReplaced(b: seq<byte>, b1: seq<byte>, h: int, n: Items, name: seq<byte>)
    requires n.Node? && StructSpliced(b, b1, h + 4, Align4(|n.name| + 1), Align4(|name| + 1)) && NulFree(name)
    requires 0 <= h && TokAt(Struct(b), h) == Open(n.name) && Lies(Struct(b), h, n) && h + Size(n) <= SizeStruct(b)
    ensures OffStruct(b) + h + 4 + |name| + 1 <= |b1|
    ensures var b' := Put(b1, OffStruct(b) + h + 4, name + [0]);
            Kept(b, b') && Strings(b') == Strings(b) && Replaced(b, b', h, n, n.(name := name))
  {
    SizeDef(n);
    SizeDef(n.(name := name));
    TokIs(Struct(b), h, Open(n.name));
    NameWritten(b, b1, h, n, name);
    var b' := Put(b1, OffStruct(b) + h + 4, name + [0]);
    Renamed(Struct(b), Struct(b'), h, n, name, SizeStruct(b) - h - OpenSize(|n.name|));
  }

  lemma {:induction false} Renamed(s: seq<byte>, s': seq<byte>, h: int, n: Items, name: seq<byte>, k: int)
    requires n.Node? && Lies(s, h, n) && Spells(s', h, Open(name)) && Size(n) - OpenSize(|n.name|) <= k
    requires Same(s, h + OpenSize(|n.name|), s', h + OpenSize(|name|), k)
    ensures Lies(s', h, n.(name := name))
    ensures Same(s, h + Size(n), s', h + Size(n.(name := name)), k + OpenSize(|n.name|) - Size(n))
  {
    SizeDef(n);
    SizeDef(n.(name := name));
    var m, m' := h + OpenSize(|n.name|), h + OpenSize(|name|);
    LiesNode(s, h, n.name, n.body, n.next);
    TokIs(s', h, Open(name));
    SameCarries(s, s', m' - m, m, k);
    LiesMoved(s, s', m' - m, m, k, m, n.body);
    CloseMoved(s, s', m' - m, m, m + k, m + Size(n.body), n.next);
    LiesNode(s', h, name, n.body, n.next);
    SamePart(s, m, s', m', k, Size(n.body) + 4 + Size(n.next), k - Size(n.body) - 4 - Size(n.next));
  }

  // ---- new subnodes ----

  /** Context and tail of the first subnode, or of the end, of a node's items. */
  function LeadCtx(t: Items): Ctx { if t.Leaf? then AfterLeaf(t.tok, LeadCtx(t.next)) else Hole }

  function LeadTail(t: Items): Items { if t.Leaf? then LeadTail(t.next) else t }

  lemma {:induction false} LeadSplit(t: Items, strs: seq<byte>, name: seq<byte>)
    ensures Plug(LeadCtx(t), LeadTail(t)) == t && !LeadTail(t).Leaf?
    ensures Props(Plug(LeadCtx(t), Node(name, Nil, LeadTail(t))), strs) == Props(t, strs)
    ensures Forest(Plug(LeadCtx(t), Node(name, Nil, LeadTail(t))), strs) == [Tree(name, [], [])] + Forest(t, strs)
    ensures Ordered(t) ==> NoProps(LeadTail(t)) && Ordered(Plug(LeadCtx(t), Node(name, Nil, LeadTail(t))))
    ensures Named(t, strs) ==> Named(Plug(LeadCtx(t), Node(name, Nil, LeadTail(t))), strs)
    decreases t
  {
    if t.Leaf? {
      LeadSplit(t.next, strs, name);
    }
  }

  /** The loop of fdt_add_subnode_namelen stops at the first subnode or at the end. */
  lemma {:induction false} SkipPropsIs(b: seq<byte>, o: int, t: Items)
    requires Framed(b) && Aligned(o) && 0 <= o && Lies(Struct(b), o, t) && TokAt(Struct(b), o + Size(t)) == Close
    ensures o < 0x8000_0000 && SkipProps(b, o) == o + PreSize(LeadCtx(t))
    decreases t
  {
    SizeDef(t);
    CtxSizeDef(LeadCtx(t));
    match t
    case Nil => OnStep(b, o, Close);
    case Leaf(tok, next) =>
      LiesLeaf(Struct(b), o, tok, next);
      OnStep(b, o, tok);
      SkipPropsIs(b, o + TokSize(tok), next);
    case Node(name, body, next) =>
      LiesNode(Struct(b), o, name, body, next);
      OnStep(b, o, Open(name));
  }

  lemma {:induction false} EmptyNodeSpelled(s: seq<byte>, p: int, name: seq<byte>)
    requires 0 <= p && p + OpenSize(|name|) + 4 <= |s| && NulFree(name)
    requires s[p..p + OpenSize(|name|) + 4] == EmptyNode(name)
    ensures Spells(s, p, Open(name)) && Spells(s, p + OpenSize(|name|), Close)
  {
    var n := OpenSize(|name|);
    var x := EmptyNode(name);
    assert x[0..4] == Be32(FDT_BEGIN_NODE) && x[n..n + 4] == Be32(FDT_END_NODE);
    assert x[4..4 + |name| + 1] == name + [0];
    SliceSlice(s, p, p + n + 4, 0, 4);
    SliceSlice(s, p, p + n + 4, n, n + 4);
    SliceSlice(s, p, p + n + 4, 4, 4 + |name| + 1);
    LdBe32(s, p, FDT_BEGIN_NODE);
    LdBe32(s, p + n, FDT_END_NODE);
    OpenSpelled(s, p, name);
  }

  lemma {:induction false} NodeInserted(b: seq<byte>, b1: seq<byte>, h: int, x: Items, name: seq<byte>)
    requires StructSpliced(b, b1, h, 0, OpenSize(|name|) + 4) && Lies(Struct(b), h, x) &&
             h + Size(x) <= SizeStruct(b) && NulFree(name)
    ensures OffStruct(b) + h + OpenSize(|name|) + 4 <= |b1|
    ensures var b' := Put(b1, OffStruct(b) + h, EmptyNode(name));
            Kept(b, b') && Strings(b') == Strings(b) && Replaced(b, b', h, x, Node(name, Nil, x))
  {
    SizeDef(Node(name, Nil, x));
    SizeDef(Nil);
    var y := EmptyNode(name);
    var n := SizeStruct(b) - h;
    var k := OpenSize(|name|) + 4;
    PutStruct(b1, h, y);
    var b' := Put(b1, OffStruct(b) + h, y);
    var s, s1, s' := Struct(b), Struct(b1), Struct(b');
    PutInside(s1, h, y);
    SamePut(s, 0, s1, 0, h, h, y);
    SamePut(s, h, s1, h + k, n, h, y);
    EmptyNodeSpelled(s', h, name);
    TokIs(s', h, Open(name));
    TokIs(s', h + OpenSize(|name|), Close);
    TailMoved(s, h, s', h + k, n, x);
    LiesNil(s', h + OpenSize(|name|));
    LiesNode(s', h, name, Nil, x);
    SamePart(s, h, s', h + k, n, Size(x), n - Size(x));
  }

  lemma {:induction false} AddSubnodeIs(b: seq<byte>, c: Ctx, n: Items, name: seq<byte>, h: int)
    requires n.Node? && Holds(b, Plug(c, n)) && NulFree(name) && |name| < 0x7fff_fff0
    requires h == PreSize(c) + OpenSize(|n.name|) + PreSize(LeadCtx(n.body))
    ensures PreSize(c) < 0x8000_0000 && Editable(b)
    ensures var r := AddSubnode(b, PreSize(c), name);
            if FindNode(n.body, name).Some? then r == Res(EXISTS, b)
            else if DataSize(b) + OpenSize(|name|) + 4 <= TotalSize(b) then
              r.code == h && Kept(b, r.blob) && Strings(r.blob) == Strings(b) &&
              Replaced(b, r.blob, h, LeadTail(n.body), Node(name, Nil, LeadTail(n.body)))
            else r == Res(NOSPACE, b)
  {
    NodeFacts(b, c, n);
    AddSubnodeAt(b, PreSize(c), n.name, n.body, name, h);
  }

  lemma {:induction false} AddSubnodeAt(b: seq<byte>, o: int, nodename: seq<byte>, body: Items, name: seq<byte>, h: int)
    requires Sane(b) && RwProbe(b) == 0 && Aligned(o) && NodeLies(Struct(b), o, nodename, body)
    requires NulFree(name) && |name| < 0x7fff_fff0 && h == o + OpenSize(|nodename|) + PreSize(LeadCtx(body))
    ensures 0 <= o < 0x8000_0000
    ensures var r := AddSubnode(b, o, name);
            if FindNode(body, name).Some? then r == Res(EXISTS, b)
            else if DataSize(b) + OpenSize(|name|) + 4 <= TotalSize(b) then
              r.code == h && Kept(b, r.blob) && Strings(r.blob) == Strings(b) &&
              Replaced(b, r.blob, h, LeadTail(body), Node(name, Nil, LeadTail(body)))
            else r == Res(NOSPACE, b)
  {
    SubnodeOffsetIs(b, o, nodename, body, name);
    if FindNode(body, name).None? {
      AddSubnodeInserts(b, o, nodename, body, name, h);
      LeadLies(b, o + OpenSize(|nodename|), body, h);
      InsertNodeIs(b, h, LeadTail(body), name);
    }
  }

  lemma {:induction false} AddSubnodeInserts(b: seq<byte>, o: int, nodename: seq<byte>, body: Items,
    name: seq<byte>, h: int)
    requires Sane(b) && RwProbe(b) == 0 && Aligned(o) && NodeLies(Struct(b), o, nodename, body)
    requires h == o + OpenSize(|nodename|) + PreSize(LeadCtx(body)) && 0 <= o < 0x8000_0000 &&
             SubnodeOffset(b, o, name) == NOTFOUND
    ensures AddSubnode(b, o, name) == InsertNode(b, h, name)
    ensures o + OpenSize(|nodename|) <= SizeStruct(b)
  {
    var m := o + OpenSize(|nodename|);
    assert NextTag(b, o) == (FDT_BEGIN_NODE, m) && Aligned(m) && m <= SizeStruct(b) by { OnStep(b, o, Open(nodename)); }
    assert SkipProps(b, m) == h by { SkipPropsIs(b, m, body); }
    AddSubnodeEval(b, o, name, m, h);
  }

  lemma {:induction false} AddSubnodeEval(b: seq<byte>, o: int, name: seq<byte>, m: int, h: int)
    requires Sane(b) && RwProbe(b) == 0 && o < 0x8000_0000 && SubnodeOffset(b, o, name) == NOTFOUND
    requires NextTag(b, o) == (FDT_BEGIN_NODE, m) && m < 0x8000_0000 && SkipProps(b, m) == h && 0 <= h
    ensures AddSubnode(b, o, name) == InsertNode(b, h, name)
  {
  }

  lemma {:induction false} InsertNodeIs(b: seq<byte>, h: int, x: Items, name: seq<byte>)
    requires Sane(b) && 0 <= h && Lies(Struct(b), h, x) && h + Size(x) <= SizeStruct(b) && NulFree(name)
    ensures var r := InsertNode(b, h, name);
            if DataSize(b) + OpenSize(|name|) + 4 <= TotalSize(b) then
              r.code == h && Kept(b, r.blob) && Strings(r.blob) == Strings(b) &&
                Replaced(b, r.blob, h, x, Node(name, Nil, x))
            else r == Res(NOSPACE, b)
  {
    SpliceStructIs(b, h, 0, OpenSize(|name|) + 4);
    if DataSize(b) + OpenSize(|name|) + 4 <= TotalSize(b) {
      NodeInserted(b, SpliceStruct(b, h, 0, OpenSize(|name|) + 4).blob, h, x, name);
    }
  }

  lemma {:induction false} LeadLies(b: seq<byte>, m: int, t: Items, h: int)
    requires Framed(b) && 0 <= m <= SizeStruct(b) && Lies(Struct(b), m, t) && h == m + PreSize(LeadCtx(t))
    ensures 0 <= h && h + Size(LeadTail(t)) <= SizeStruct(b) && Lies(Struct(b), h, LeadTail(t))
  {
    LeadSplit(t, [], []);
    PlugLies(Struct(b), m, LeadCtx(t), LeadTail(t));
    LiesFits(Struct(b), m, t);
    PlugSize(LeadCtx(t), LeadTail(t));
  }
}
