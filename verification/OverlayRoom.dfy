/** fdt_overlay.c: how much room overlay_apply_node needs in the base blob. */
module OverlayRoom {
  import opened Bytes
  import opened Syntax
  import opened DeviceTree
  import opened Fdt
  import opened Walk
  import opened Blob
  import opened Lookup
  import opened Splice
  import opened Edit
  import opened Refine
  import opened RefineNodes
  import opened EditTheorems
  import opened Overlay
  import opened OverlayBlob

  /** A property with its header, its value and its name, as if the name were new. */
  ghost function NeedProps(ps: seq<Property>): (n: int)
    ensures n >= 0
  {
    if ps == [] then 0 else |ps[0].name| + 1 + PropSize(|ps[0].val|) + NeedProps(ps[1..])
  }

  /** The overlay node, with all below it as if it were new. */
  ghost function Need(t: Tree): (n: int)
    ensures n >= 0
    decreases t, 1
  {
    NeedProps(t.props) + NeedAll(t.kids)
  }

  ghost function NeedAll(ts: seq<Tree>): (n: int)
    ensures n >= 0
    decreases ts, 0
  {
    if ts == [] then 0 else OpenSize(|ts[0].name|) + 4 + Need(ts[0]) + NeedAll(ts[1..])
  }

  /** The call succeeds, and takes no more than n bytes. */
  ghost predicate Takes(b: seq<byte>, r: Res, n: int) {
    |b| >= 40 && |r.blob| >= 40 && r.code >= 0 && DataSize(r.blob) <= DataSize(b) + n &&
    TotalSize(r.blob) == TotalSize(b)
  }

  lemma {:induction false} SetPropRoom(b: seq<byte>, t: Items, p: seq<nat>, name: seq<byte>, val: seq<byte>)
    requires Addresses(b, t, p) && NulFree(name) && |name| < 0x7fff_fff0 && |val| < 0x7fff_fff0
    requires DataSize(b) + |name| + 1 + PropSize(|val|) <= TotalSize(b)
    ensures Ready(b, NodeOffset(t, p))
    ensures var r := SetProp(b, NodeOffset(t, p), name, val);
            r.code == 0 && Takes(b, r, |name| + 1 + PropSize(|val|))
  {
    Located(b, t, p);
    var c, n := CtxAt(t, p), ItemsAt(t, p);
    if FindProp(n.body, Strings(b), name).Some? {
      var x := PropTail(n.body, Strings(b), name);
      SetPropExisting(b, c, n, name, val, x, PropOffset(b, c, n, name));
      ExistingSize(b, SetProp(b, PreSize(c), name, val), x, PropOffset(b, c, n, name), val);
    } else {
      SetPropNew(b, c, n, name, val);
      var f := FindAddString(b, name).0;
      NewSize(b, f.blob, SetProp(b, PreSize(c), name, val).blob, PreSize(c) + OpenSize(|n.name|), n.body, f.code, name,
        val);
    }
  }

  lemma {:induction false} ExistingSize(b: seq<byte>, r: Res, x: Items, h: int, val: seq<byte>)
    requires x.Leaf? && x.tok.Prop? && Kept(b, r.blob) && Strings(r.blob) == Strings(b)
    requires Replaced(b, r.blob, h, x, Leaf(Prop(x.tok.nameoff, val), x.next))
    ensures DataSize(r.blob) == DataSize(b) - Align4(|x.tok.val|) + Align4(|val|)
  {
    SizeDef(x);
    SizeDef(Leaf(Prop(x.tok.nameoff, val), x.next));
    StringsDef(b);
    StringsDef(r.blob);
  }

  lemma {:induction false} NewSize(b: seq<byte>, b1: seq<byte>, b2: seq<byte>, h: int, body: Items, off: int,
    name: seq<byte>, val: seq<byte>)
    requires Sane(b) && Grown(b, b1, NewString(Strings(b), name)) && Kept(b1, b2) && Strings(b2) == Strings(b1)
    requires Replaced(b1, b2, h, body, Leaf(Prop(off, val), body))
    ensures DataSize(b2) <= DataSize(b) + |name| + 1 + PropSize(|val|)
  {
    SizeDef(Leaf(Prop(off, val), body));
    StringsDef(b);
    StringsDef(b1);
    StringsDef(b2);
    StructDef(b);
    StructDef(b1);
  }

  lemma {:induction false} PropsRoom(b: seq<byte>, t: Items, p: seq<nat>, ps: seq<Property>)
    requires Addresses(b, t, p) && LegibleProps(ps) && DataSize(b) + NeedProps(ps) <= TotalSize(b)
    ensures var r := ApplyProps(b, NodeOffset(t, p), ps); r.code == 0 && Takes(b, r, NeedProps(ps))
    decreases |ps|
  {
    if ps == [] {
      Unchanged(b, t, p);
    } else {
      SetPropRoom(b, t, p, ps[0].name, ps[0].val);
      SetPropOutcome(b, t, p, ps[0].name, ps[0].val);
      var r := SetProp(b, NodeOffset(t, p), ps[0].name, ps[0].val);
      var x := WithProp(Get(Trees(b, t), p).value, ps[0].name, ps[0].val);
      var t1 :| BecomesItems(b, r.blob, t, p, [x], t1);
      BecomesAddress(b, r.blob, t, p, x, t1);
      PropsRoom(r.blob, t1, p, ps[1..]);
    }
  }

  lemma {:induction false} AddSubnodeRoom(b: seq<byte>, t: Items, p: seq<nat>, name: seq<byte>)
    requires Addresses(b, t, p) && NulFree(name) && |name| < 0x7fff_fff0
    requires Match(Get(Trees(b, t), p).value.kids, name).None? && DataSize(b) + OpenSize(|name|) + 4 <= TotalSize(b)
    ensures Ready(b, NodeOffset(t, p)) && Takes(b, AddSubnode(b, NodeOffset(t, p), name), OpenSize(|name|) + 4)
  {
    Located(b, t, p);
    var c, n := CtxAt(t, p), ItemsAt(t, p);
    var h := PreSize(c) + OpenSize(|n.name|) + PreSize(LeadCtx(n.body));
    FindNodeMatch(n.body, Strings(b), name);
    AddSubnodeIs(b, c, n, name, h);
    var r := AddSubnode(b, PreSize(c), name);
    SizeDef(Node(name, Nil, LeadTail(n.body)));
    SizeDef(Nil);
    StringsDef(b);
    StringsDef(r.blob);
    AddSubnodeRefines(b, t, p, name);
    CtxSizeDef(LeadCtx(n.body));
  }

  /** With that much room overlay_apply_node succeeds, and it takes no more. */
  lemma {:induction false} ApplyNodeRoom(b: seq<byte>, t: Items, p: seq<nat>, over: Tree)
    requires Addresses(b, t, p) && Legible(over) && DataSize(b) + Need(over) <= TotalSize(b)
    ensures var r := ApplyNode(b, NodeOffset(t, p), over); r.code == 0 && Takes(b, r, Need(over))
    decreases over, 1
  {
    PropsRoom(b, t, p, over.props);
    ApplyPropsRefines(b, t, p, over.props);
    var r := ApplyProps(b, NodeOffset(t, p), over.props);
    var tree := Get(Trees(b, t), p).value;
    var x := tree.(props := WithProps(tree.props, over.props));
    var t1 :| BecomesItems(b, r.blob, t, p, [x], t1);
    BecomesAddress(b, r.blob, t, p, x, t1);
    ApplyKidsRoom(r.blob, t1, p, over.kids);
  }

  lemma {:induction false} ApplyKidsRoom(b: seq<byte>, t: Items, p: seq<nat>, ks: seq<Tree>)
    requires Addresses(b, t, p) && AllLegible(ks) && DataSize(b) + NeedAll(ks) <= TotalSize(b)
    ensures var r := ApplyKids(b, NodeOffset(t, p), ks); r.code == 0 && Takes(b, r, NeedAll(ks))
    decreases ks, 0
  {
    if ks == [] {
      Unchanged(b, t, p);
    } else {
      assert forall i | 0 <= i < |ks| - 1 :: ks[1..][i] == ks[i + 1];
      ApplyOneRoom(b, t, p, ks[0]);
      ApplyOneRefines(b, t, p, ks[0]);
      var r := ApplyOne(b, NodeOffset(t, p), ks[0]);
      var tree := Get(Trees(b, t), p).value;
      var x := tree.(kids := MergeOne(tree.kids, ks[0]));
      var t1 :| BecomesItems(b, r.blob, t, p, [x], t1);
      BecomesAddress(b, r.blob, t, p, x, t1);
      ApplyKidsRoom(r.blob, t1, p, ks[1..]);
    }
  }

  lemma {:induction false} ApplyOneRoom(b: seq<byte>, t: Items, p: seq<nat>, k: Tree)
    requires Addresses(b, t, p) && Legible(k) && DataSize(b) + OpenSize(|k.name|) + 4 + Need(k) <= TotalSize(b)
    ensures var r := ApplyOne(b, NodeOffset(t, p), k); r.code == 0 && Takes(b, r, OpenSize(|k.name|) + 4 + Need(k))
    decreases k, 2
  {
    var tree := Get(Trees(b, t), p).value;
    AddSubnodeMatch(b, t, p, k.name);
    SubnodeFound(b, t, p, k.name);
    var a := AddSubnode(b, NodeOffset(t, p), k.name);
    var i := Match(tree.kids, k.name);
    if i.Some? {
      ReplaceChild(Trees(b, t), p, i.value, tree);
      ApplyNodeRoom(b, t, p + [i.value], k);
    } else {
      AddSubnodeRoom(b, t, p, k.name);
      var t1 :| BecomesItems(b, a.blob, t, p, [WithChild(tree, k.name)], t1) && a.code == NodeOffset(t1, p + [0]);
      NewChild(b, a.blob, t, p, t1, k.name);
      ApplyNodeRoom(a.blob, t1, p + [0], k);
    }
  }
}
