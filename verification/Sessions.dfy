/** A session on the buffer itself: calls of fdt_rw.c and fdt_wip.c on nodes that are looked up
    with fdt_next_node, fdt_first_subnode and fdt_next_subnode. */
module Sessions {
  import opened Bytes
  import opened Syntax
  import opened DeviceTree
  import opened Fdt
  import opened Walk
  import opened Blob
  import opened Splice
  import opened Refine
  import opened EditTheorems
  import opened EditRuns
  import opened Visit
  import opened Reader
  import opened Walkers
  import opened InPlace

  // ---- finding a node ----

  /** Without depth counter the walk from the start stops at the first node. */
  lemma {:induction false} FirstTop(b: seq<byte>, o: int, t: Items)
    requires Framed(b) && Aligned(o) && 0 <= o && Lies(Struct(b), o, t) && TokAt(Struct(b), o + Size(t)) == End
    ensures o < 0x8000_0000 && NextNodeLoop(b, o, 0, false).0 == FirstNode(t, o).GetOr(NOTFOUND)
    decreases t
  {
    SizeDef(t);
    match t
    case Nil => OnStep(b, o, End);
    case Leaf(tok, next) =>
      LiesLeaf(Struct(b), o, tok, next);
      OnStep(b, o, tok);
      FirstTop(b, o + TokSize(tok), next);
    case Node(name, body, next) =>
      LiesNode(Struct(b), o, name, body, next);
      OnStep(b, o, Open(name));
  }

  lemma {:induction false} FirstNodeAt(t: Items, o: int, strs: seq<byte>)
    ensures FirstNode(t, o) == if Forest(t, strs) == [] then None else Some(o + PreSize(CtxAt(t, [0])))
    decreases t
  {
    CtxSizeDef(CtxAt(t, [0]));
    if t.Leaf? {
      FirstNodeAt(t.next, o + TokSize(t.tok), strs);
    }
  }

  /** Behind the i-th node of the items comes the next one. */
  lemma {:induction false} NextNodeAt(t: Items, o: int, strs: seq<byte>, i: nat)
    requires i < |Forest(t, strs)|
    ensures var n := ItemsAt(t, [i]);
            n.Node? &&
            FirstNode(n.next, o + PreSize(CtxAt(t, [i])) + NodeSize(n.name, n.body)) ==
            if i + 1 < |Forest(t, strs)| then Some(o + PreSize(CtxAt(t, [i + 1]))) else None
    decreases t
  {
    CtxSizeDef(CtxAt(t, [i]));
    CtxSizeDef(CtxAt(t, [i + 1]));
    if t.Leaf? {
      NextNodeAt(t.next, o + TokSize(t.tok), strs, i);
    } else {
      var e := o + NodeSize(t.name, t.body);
      assert [i + 1][1..] == [] && [i] + [] == [i];
      if i == 0 {
        FirstNodeAt(t.next, e, strs);
      } else {
        assert [i][1..] == [] && [i - 1] + [] == [i - 1];
        NextNodeAt(t.next, e, strs, i - 1);
      }
    }
  }

  /** The first node of a blob. */
  lemma {:induction false} RootFound(b: seq<byte>, t: Items)
    requires Holds(b, t)
    ensures NextNode(b, -1, 0, false).0 == if Trees(b, t) == [] then NOTFOUND else NodeOffset(t, [0])
  {
    HoldsDef(b, t);
    AlignedConst();
    FirstTop(b, 0, t);
    FirstNodeAt(t, 0, Strings(b));
  }

  /** The children of a node, one after the other. */
  lemma {:induction false} ChildrenFound(b: seq<byte>, t: Items, p: seq<nat>, i: nat)
    requires Addresses(b, t, p)
    ensures NodeOffset(t, p) < 0x8000_0000
    ensures var n := |Get(Trees(b, t), p).value.kids|;
            FirstSubnode(b, NodeOffset(t, p)) == (if n == 0 then NOTFOUND else NodeOffset(t, p + [0])) &&
            (i < n ==> NodeOffset(t, p + [i]) < 0x8000_0000 &&
                       NextSubnode(b, NodeOffset(t, p + [i])) == if i + 1 < n then NodeOffset(t, p + [i + 1])
                         else NOTFOUND)
  {
    Located(b, t, p);
    var c, n := CtxAt(t, p), ItemsAt(t, p);
    NodeFacts(b, c, n);
    FirstSubnodeIs(b, PreSize(c), n.name, n.body);
    FirstNodeAt(n.body, PreSize(c) + OpenSize(|n.name|), Strings(b));
    ChildOffset(c, n, 0);
    if i < |Forest(n.body, Strings(b))| {
      SiblingFound(b, t, c, n, i);
    }
  }

  lemma {:induction false} SiblingFound(b: seq<byte>, t: Items, c: Ctx, n: Items, i: nat)
    requires Holds(b, t) && n.Node? && Plug(c, n) == t && i < |Forest(n.body, Strings(b))|
    ensures var o, o' := NodeOffset(t, PathOf(c) + [i]), NodeOffset(t, PathOf(c) + [i + 1]);
            o < 0x8000_0000 && NextSubnode(b, o) == if i + 1 < |Forest(n.body, Strings(b))| then o' else NOTFOUND
  {
    NodeFacts(b, c, n);
    ChildOffset(c, n, i);
    ChildOffset(c, n, i + 1);
    var m := PreSize(c) + OpenSize(|n.name|);
    NextNodeAt(n.body, m, Strings(b), i);
    var d, k := CtxAt(n.body, [i]), ItemsAt(n.body, [i]);
    assert Get(Forest(n.body, Strings(b)), [i]).Some?;
    CtxOfPath(n.body, Strings(b), [i]);
    PlugLies(Struct(b), m, d, k);
    PlugSize(d, k);
    CtxPostNone(d, n.body, i);
    SizeDef(k);
    LiesNode(Struct(b), m + PreSize(d), k.name, k.body, k.next);
    PreSizeAligned(d);
    TokSizeAligned(Open(n.name));
    AlignedAdd(PreSize(c), OpenSize(|n.name|));
    AlignedAdd(m, PreSize(d));
    NextSubnodeIs(b, m + PreSize(d), k.name, k.body, k.next);
  }

  /** Nothing follows the siblings of a node at the outermost level. */
  lemma {:induction false} CtxPostNone(d: Ctx, t: Items, i: nat)
    requires d == CtxAt(t, [i])
    ensures PostSize(d) == 0
    decreases t
  {
    CtxSizeDef(d);
    if t.Leaf? {
      CtxPostNone(d.rest, t.next, i);
    } else if t.Node? && i > 0 {
      assert [i - 1] + [i][1..] == [i - 1];
      CtxPostNone(d.rest, t.next, i - 1);
    }
  }

  /** The i-th child of the node at off, or an error. */
  method Child(fdt: array<byte>, off: int, i: nat, ghost t: Items, ghost p: seq<nat>) returns (r: int)
    requires Addresses(fdt[..], t, p) && off == NodeOffset(t, p)
    ensures if i < |Get(Trees(fdt[..], t), p).value.kids| then r == NodeOffset(t, p + [i]) else r < 0
  {
    ghost var n := |Get(Trees(fdt[..], t), p).value.kids|;
    ChildrenFound(fdt[..], t, p, 0);
    Located(fdt[..], t, p);
    r := FirstChild(fdt, off);
    var j := 0;
    while j < i && r >= 0
      invariant j <= i && (if j < n then r == NodeOffset(t, p + [j]) else r < 0)
    {
      ChildrenFound(fdt[..], t, p, j);
      r := NextChild(fdt, r);
      j := j + 1;
    }
  }

  /** The node at path p below the first root, or an error. */
  method Locate(fdt: array<byte>, p: seq<nat>, ghost t: Items) returns (r: int)
    requires Holds(fdt[..], t) && |p| > 0 && p[0] == 0
    ensures if Addresses(fdt[..], t, p) then r == NodeOffset(t, p) else r < 0
  {
    RootFound(fdt[..], t);
    ghost var depth;
    r, depth := StepNode(fdt, -1, 0, false);
    assert p[..1] == [0];
    assert Trees(fdt[..], t) != [] ==> Get(Trees(fdt[..], t), [0]) == Some(Trees(fdt[..], t)[0]);
    if r < 0 {
      return;
    }
    var k := 1;
    while k < |p|
      invariant 1 <= k <= |p| && Addresses(fdt[..], t, p[..k]) && r == NodeOffset(t, p[..k])
    {
      assert p[..k + 1] == p[..k] + [p[k]];
      PathStep(Trees(fdt[..], t), p, k);
      r := Child(fdt, r, p[k], t, p[..k]);
      if r < 0 {
        return;
      }
      k := k + 1;
    }
    assert p[..k] == p;
  }

  /** A node exists only below existing nodes. */
  lemma {:induction false} PathStep(f: seq<Tree>, p: seq<nat>, k: nat)
    requires 0 < k < |p| && Get(f, p[..k]).Some?
    ensures Get(f, p[..k + 1]).Some? <==> p[k] < |Get(f, p[..k]).value.kids|
    ensures Get(f, p).Some? ==> p[k] < |Get(f, p[..k]).value.kids|
    decreases k
  {
    var q := p[1..];
    assert p[..k][1..] == q[..k - 1] && p[..k + 1][1..] == q[..k];
    if k > 1 {
      PathStep(f[p[0]].kids, q, k - 1);
    } else {
      assert q[0] == p[1] && q[..1] == [p[1]] && Get(f, p[..1]) == Some(f[p[0]]);
      assert Get(f, p).Some? ==> Get(f[p[0]].kids, q).Some?;
    }
  }

  // ---- running calls ----

  /** One call on the node at off. */
  method CallAt(fdt: array<byte>, off: int, k: Call) returns (code: int)
    requires Edit.Editable(fdt[..]) && off < 0x8000_0000
    modifies fdt
    ensures Res(code, fdt[..]) == PerformAt(old(fdt[..]), off, k)
  {
    match k
    case CallSetProp(_, name, val) => code := SetProperty(fdt, off, name, val);
    case CallDelProp(_, name) => code := DeleteProperty(fdt, off, name);
    case CallAddSubnode(_, name) => code := AddNode(fdt, off, name);
    case CallDelNode(_) => code := DeleteNode(fdt, off);
    case CallSetName(_, name) => code := RenameNode(fdt, off, name);
    case CallNopProperty(_, name) => code := NopProp(fdt, off, name);
    case CallNopNode(_) => code := NopSubtree(fdt, off);
  }

  /** A whole session in place: whatever calls fail, the buffer ends up holding exactly the trees
      that the successful calls describe, with its reservation block, its capacity and its
      layout as before. */
  method RunCalls(fdt: array<byte>, calls: seq<Call>, ghost t: Items) returns (codes: seq<int>, ghost f: seq<Tree>)
    requires Holds(fdt[..], t) && forall i | 0 <= i < |calls| :: Legal(calls[i]) && calls[i].path[0] == 0
    modifies fdt
    ensures |codes| == |calls| && Session(old(fdt[..]), Trees(old(fdt[..]), t), calls, fdt[..], f)
    ensures Kept(old(fdt[..]), fdt[..]) && exists u :: Holds(fdt[..], u) && Trees(fdt[..], u) == f
    decreases |calls|
  {
    if calls == [] {
      return [], Trees(fdt[..], t);
    }
    ghost var b := fdt[..];
    var k := calls[0];
    var off := Locate(fdt, k.path, t);
    var code := NOTFOUND;
    if off >= 0 {
      Located(b, t, k.path);
      code := CallAt(fdt, off, k);
    }
    PerformRefines(b, t, k);
    ghost var r := Perform(b, t, k);
    assert r == Res(code, fdt[..]);
    ghost var u :| Holds(r.blob, u) && Trees(r.blob, u) == if r.code >= 0 then Update(Trees(b, t), k) else Trees(b, t);
    codes, f := RunCalls(fdt, calls[1..], u);
    codes := [code] + codes;
    assert Session(b, Trees(b, t), calls, fdt[..], f);
    SessionRefines(b, t, calls, fdt[..], f);
  }
}
