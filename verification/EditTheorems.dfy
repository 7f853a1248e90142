/** The main results on fdt_rw.c: on every blob that holds device trees and for every
    node of them, each edit succeeds exactly when its outcome fits, and then the blob
    holds the same trees with exactly that update. */
module EditTheorems {
  import opened Bytes
  import opened Syntax
  import opened DeviceTree
  import opened Fdt
  import opened Blob
  import opened Lookup
  import opened Splice
  import opened Edit
  import opened Refine
  import opened RefineNodes

  /** p addresses a node of the trees that b holds as t. */
  ghost predicate Addresses(b: seq<byte>, t: Items, p: seq<nat>) {
    Holds(b, t) && |p| > 0 && Get(Trees(b, t), p).Some?
  }

  /** The node at path p in its context. */
  lemma {:induction false} Located(b: seq<byte>, t: Items, p: seq<nat>)
    requires Addresses(b, t, p)
    ensures ItemsAt(t, p).Node? && Plug(CtxAt(t, p), ItemsAt(t, p)) == t && PathOf(CtxAt(t, p)) == p
    ensures Get(Trees(b, t), p) == Some(TreeOf(ItemsAt(t, p).name, ItemsAt(t, p).body, Strings(b)))
    ensures Editable(b) && RwProbe(b) == 0 && NodeOffset(t, p) < 0x8000_0000
  {
    CtxOfPath(t, Strings(b), p);
    NodeForest(CtxAt(t, p), ItemsAt(t, p), ItemsAt(t, p), Strings(b));
    NodeFacts(b, CtxAt(t, p), ItemsAt(t, p));
  }

  lemma {:induction false} SetPropExistingTree(b: seq<byte>, c: Ctx, n: Items, name: seq<byte>, val: seq<byte>)
    requires n.Node? && Holds(b, Plug(c, n)) && FindProp(n.body, Strings(b), name).Some? && |val| < 0x7fff_fff0
    requires DataSize(b) + SetPropGrowth(b, n, name, val) <= TotalSize(b)
    ensures PreSize(c) < 0x8000_0000 && Editable(b)
    ensures var r := SetProp(b, PreSize(c), name, val);
            r.code == 0 && Becomes(b, r.blob, Plug(c, n), PathOf(c),
              [WithProp(TreeOf(n.name, n.body, Strings(b)), name, val)])
  {
    var strs := Strings(b);
    var d, x, h := PropCtx(n.body, strs, name), PropTail(n.body, strs, name), PropOffset(b, c, n, name);
    PropSplit(n.body, strs, name);
    SetPropExisting(b, c, n, name, val, x, h);
    var b' := SetProp(b, PreSize(c), name, val).blob;
    var x' := Leaf(Prop(x.tok.nameoff, val), x.next);
    var n' := n.(body := Plug(d, x'));
    HoldsProper(b, c, n);
    PropsEdited(n.body, strs, name, val);
    FindPropHas(n.body, strs, name);
    ProperDef(n'.body, strs);
    BodyHolds(b, b', c, n, d, h, x, x');
    NodeForest(c, n, n', strs);
    assert BecomesItems(b, b', Plug(c, n), PathOf(c), [TreeOf(n'.name, n'.body, strs)], Plug(c, n'));
  }

  /** What Holds says about the names and the order of a node's items. */
  lemma {:induction false} HoldsProper(b: seq<byte>, c: Ctx, n: Items)
    requires n.Node? && Holds(b, Plug(c, n))
    ensures Proper(Plug(c, n), Strings(b)) && Named(n.body, Strings(b)) && Ordered(n.body)
  {
    HoldsDef(b, Plug(c, n));
    NodeFacts(b, c, n);
    ProperDef(n.body, Strings(b));
  }

  lemma {:induction false} SetPropNewTree(b: seq<byte>, c: Ctx, n: Items, name: seq<byte>, val: seq<byte>)
    requires n.Node? && Holds(b, Plug(c, n)) && FindProp(n.body, Strings(b), name).None?
    requires NulFree(name) && |val| < 0x7fff_fff0 && DataSize(b) + SetPropGrowth(b, n, name, val) <= TotalSize(b)
    ensures PreSize(c) < 0x8000_0000 && Editable(b)
    ensures var r := SetProp(b, PreSize(c), name, val);
            r.code == 0 && Becomes(b, r.blob, Plug(c, n), PathOf(c),
              [WithProp(TreeOf(n.name, n.body, Strings(b)), name, val)])
  {
    SetPropNew(b, c, n, name, val);
    var f := FindAddString(b, name).0;
    GrownHolds(b, f.blob, NewString(Strings(b), name), Plug(c, n));
    SetPropGrown(b, f.blob, SetProp(b, PreSize(c), name, val).blob, c, n, name, val, f.code);
  }

  lemma {:induction false} SetPropGrown(b: seq<byte>, b1: seq<byte>, b': seq<byte>, c: Ctx, n: Items,
    name: seq<byte>, val: seq<byte>, off: int)
    requires n.Node? && Holds(b, Plug(c, n)) && FindProp(n.body, Strings(b), name).None?
    requires Grown(b, b1, NewString(Strings(b), name)) && Kept(b1, b') && Strings(b') == Strings(b1)
    requires Holds(b1, Plug(c, n)) && Trees(b1, Plug(c, n)) == Trees(b, Plug(c, n))
    requires StrAt(Strings(b1), off) == Some(name)
    requires Replaced(b1, b', PreSize(c) + OpenSize(|n.name|), n.body, Leaf(Prop(off, val), n.body))
    ensures Becomes(b, b', Plug(c, n), PathOf(c), [WithProp(TreeOf(n.name, n.body, Strings(b)), name, val)])
  {
    CtxSizeDef(Hole);
    var strs, strs' := Strings(b), Strings(b1);
    var x' := Leaf(Prop(off, val), n.body);
    var n' := n.(body := x');
    HoldsProper(b, c, n);
    HoldsProper(b1, c, n);
    FindPropHas(n.body, strs, name);
    DenotesAppend(n.body, strs, NewString(strs, name));
    ProperDef(n.body, strs');
    ProperLeaf(Prop(off, val), n.body, strs');
    BodyHolds(b1, b', c, n, Hole, PreSize(c) + OpenSize(|n.name|), n.body, x');
    NodeForest(c, n, n', strs');
    assert TreeOf(n.name, x', strs') == WithProp(TreeOf(n.name, n.body, strs), name, val);
    assert BecomesItems(b, b', Plug(c, n), PathOf(c), [TreeOf(n.name, x', strs')], Plug(c, n'));
  }

  /** fdt_setprop sets the property of exactly that node, a new property coming first; it
      fails only for lack of room, and then header, structure and strings are as before. */
  lemma {:induction false} SetPropRefines(b: seq<byte>, t: Items, p: seq<nat>, name: seq<byte>, val: seq<byte>)
    requires Addresses(b, t, p) && NulFree(name) && |name| < 0x7fff_fff0 && |val| < 0x7fff_fff0
    ensures Editable(b) && NodeOffset(t, p) < 0x8000_0000 && ItemsAt(t, p).Node?
    ensures var r := SetProp(b, NodeOffset(t, p), name, val);
            if DataSize(b) + SetPropGrowth(b, ItemsAt(t, p), name, val) <= TotalSize(b) then
              r.code == 0 && Becomes(b, r.blob, t, p, [WithProp(Get(Trees(b, t), p).value, name, val)])
            else r.code == NOSPACE && Untouched(b, r.blob)
  {
    Located(b, t, p);
    var c, n := CtxAt(t, p), ItemsAt(t, p);
    if FindProp(n.body, Strings(b), name).Some? {
      SetPropExisting(b, c, n, name, val, PropTail(n.body, Strings(b), name), PropOffset(b, c, n, name));
      if DataSize(b) + SetPropGrowth(b, n, name, val) <= TotalSize(b) {
        SetPropExistingTree(b, c, n, name, val);
      }
    } else {
      SetPropNew(b, c, n, name, val);
      if DataSize(b) + SetPropGrowth(b, n, name, val) <= TotalSize(b) {
        SetPropNewTree(b, c, n, name, val);
      }
    }
  }

  /** fdt_delprop removes the first property of that name from exactly that node; without
      such a property it reports NOTFOUND and changes nothing. */
  lemma {:induction false} DelPropRefines(b: seq<byte>, t: Items, p: seq<nat>, name: seq<byte>)
    requires Addresses(b, t, p) && |name| < 0x7fff_fff0
    ensures Editable(b) && NodeOffset(t, p) < 0x8000_0000
    ensures var r := DelProp(b, NodeOffset(t, p), name);
            var tree := Get(Trees(b, t), p).value;
            if HasProp(tree.props, name) then r.code == 0 && Becomes(b, r.blob, t, p, [WithoutProp(tree, name)])
            else r == Res(NOTFOUND, b)
  {
    Located(b, t, p);
    var c, n := CtxAt(t, p), ItemsAt(t, p);
    NodeFacts(b, c, n);
    HoldsProper(b, c, n);
    FindPropHas(n.body, Strings(b), name);
    GetPropertyIs(b, PreSize(c), n.name, n.body, name);
    if FindProp(n.body, Strings(b), name).Some? {
      DelPropTree(b, c, n, name);
    }
  }

  lemma {:induction false} DelPropTree(b: seq<byte>, c: Ctx, n: Items, name: seq<byte>)
    requires n.Node? && Holds(b, Plug(c, n)) && FindProp(n.body, Strings(b), name).Some?
    ensures PreSize(c) < 0x8000_0000 && Editable(b)
    ensures var r := DelProp(b, PreSize(c), name);
            r.code == 0 && Becomes(b, r.blob, Plug(c, n), PathOf(c),
              [WithoutProp(TreeOf(n.name, n.body, Strings(b)), name)])
  {
    var strs := Strings(b);
    var d, x, h := PropCtx(n.body, strs, name), PropTail(n.body, strs, name), PropOffset(b, c, n, name);
    PropSplit(n.body, strs, name);
    DelPropIs(b, c, n, name, x, h);
    var b' := DelProp(b, PreSize(c), name).blob;
    var n' := n.(body := Plug(d, x.next));
    HoldsProper(b, c, n);
    PropsEdited(n.body, strs, name, []);
    ProperDef(n'.body, strs);
    BodyHolds(b, b', c, n, d, h, x, x.next);
    NodeForest(c, n, n', strs);
    assert BecomesItems(b, b', Plug(c, n), PathOf(c), [TreeOf(n'.name, n'.body, strs)], Plug(c, n'));
  }

  /** fdt_add_subnode adds an empty first child to exactly that node and returns its
      offset; it reports EXISTS iff a child already matches the name, NOSPACE iff there
      is no room, and then changes nothing. */
  lemma {:induction false} AddSubnodeRefines(b: seq<byte>, t: Items, p: seq<nat>, name: seq<byte>)
    requires Addresses(b, t, p) && NulFree(name) && |name| < 0x7fff_fff0
    ensures Editable(b) && NodeOffset(t, p) < 0x8000_0000
    ensures var r := AddSubnode(b, NodeOffset(t, p), name);
            var tree := Get(Trees(b, t), p).value;
            if exists i | 0 <= i < |tree.kids| :: Called(tree.kids[i].name, name) then r == Res(EXISTS, b)
            else if DataSize(b) + OpenSize(|name|) + 4 <= TotalSize(b) then
              exists t' :: BecomesItems(b, r.blob, t, p, [WithChild(tree, name)], t') &&
                r.code == NodeOffset(t', p + [0])
            else r == Res(NOSPACE, b)
  {
    Located(b, t, p);
    var c, n := CtxAt(t, p), ItemsAt(t, p);
    FindNodeHas(n.body, Strings(b), name);
    var kids := Get(Trees(b, t), p).value.kids;
    forall i | 0 <= i < |kids| ensures NodeNameEq(kids[i].name, name) <==> Called(kids[i].name, name) {
      NodeNameIs(kids[i].name, name);
    }
    var h := PreSize(c) + OpenSize(|n.name|) + PreSize(LeadCtx(n.body));
    AddSubnodeIs(b, c, n, name, h);
    if FindNode(n.body, name).None? && DataSize(b) + OpenSize(|name|) + 4 <= TotalSize(b) {
      AddSubnodeTree(b, AddSubnode(b, PreSize(c), name).blob, c, n, name, h);
    }
  }

  lemma {:induction false} FindNodeHas(t: Items, strs: seq<byte>, name: seq<byte>)
    ensures FindNode(t, name).Some? <==> exists i | 0 <= i < |Forest(t, strs)| ::
            NodeNameEq(Forest(t, strs)[i].name, name)
    decreases t
  {
    if t.Leaf? {
      FindNodeHas(t.next, strs, name);
      assert Forest(t, strs) == Forest(t.next, strs);
    } else if t.Node? {
      FindNodeHas(t.next, strs, name);
      var f, g := Forest(t, strs), Forest(t.next, strs);
      assert f[0].name == t.name && f[1..] == g;
      if i :| 0 <= i < |g| && NodeNameEq(g[i].name, name) {
        assert f[i + 1] == g[i];
      }
      if i :| 0 < i < |f| && NodeNameEq(f[i].name, name) {
        assert f[i] == g[i - 1];
      }
    }
  }

  lemma {:induction false} AddSubnodeTree(b: seq<byte>, b': seq<byte>, c: Ctx, n: Items, name: seq<byte>, h: int)
    requires n.Node? && Holds(b, Plug(c, n)) && h == PreSize(c) + OpenSize(|n.name|) + PreSize(LeadCtx(n.body))
    requires Kept(b, b') && Strings(b') == Strings(b) &&
             Replaced(b, b', h, LeadTail(n.body), Node(name, Nil, LeadTail(n.body)))
    ensures exists t' :: BecomesItems(b, b', Plug(c, n), PathOf(c),
            [WithChild(TreeOf(n.name, n.body, Strings(b)), name)], t') &&
                         h == NodeOffset(t', PathOf(c) + [0])
  {
    var strs := Strings(b);
    var d, x := LeadCtx(n.body), LeadTail(n.body);
    var n' := n.(body := Plug(d, Node(name, Nil, x)));
    HoldsProper(b, c, n);
    LeadSplit(n.body, strs, name);
    ProperDef(n'.body, strs);
    BodyHolds(b, b', c, n, d, h, x, Node(name, Nil, x));
    NodeForest(c, n, n', strs);
    LeadIsFirst(n.body, name);
    ChildOffset(c, n', 0);
    assert BecomesItems(b, b', Plug(c, n), PathOf(c), [TreeOf(n'.name, n'.body, strs)], Plug(c, n'));
  }

  lemma {:induction false} LeadIsFirst(t: Items, name: seq<byte>)
    ensures CtxAt(Plug(LeadCtx(t), Node(name, Nil, LeadTail(t))), [0]) == LeadCtx(t)
    decreases t
  {
    if t.Leaf? {
      LeadIsFirst(t.next, name);
    }
  }

  /** fdt_del_node always succeeds and removes exactly that node with all below it. */
  lemma {:induction false} DelNodeRefines(b: seq<byte>, t: Items, p: seq<nat>)
    requires Addresses(b, t, p)
    ensures Editable(b) && NodeOffset(t, p) < 0x8000_0000
    ensures var r := DelNode(b, NodeOffset(t, p)); r.code == 0 && Becomes(b, r.blob, t, p, [])
  {
    Located(b, t, p);
    var c, n := CtxAt(t, p), ItemsAt(t, p);
    DelNodeIs(b, c, n);
    ProperNode(n.name, n.body, n.next, Strings(b));
    NodeTree(b, DelNode(b, PreSize(c)).blob, c, n, n.next, []);
  }

  /** Replacing a node by other items of its level. */
  lemma {:induction false} NodeTree(b: seq<byte>, b': seq<byte>, c: Ctx, n: Items, n': Items, ts: seq<Tree>)
    requires n.Node? && Holds(b, Plug(c, n)) && Kept(b, b') && Strings(b') == Strings(b) &&
             Replaced(b, b', PreSize(c), n, n')
    requires (Proper(n, Strings(b)) ==> Proper(n', Strings(b))) && (NoProps(n) ==> NoProps(n'))
    requires Props(n', Strings(b)) == Props(n, Strings(b)) && Forest(n', Strings(b)) == ts + Forest(n.next, Strings(b))
    requires |ts| == 1 ==> n'.Node?
    ensures Becomes(b, b', Plug(c, n), PathOf(c), ts)
  {
    HoldsProper(b, c, n);
    ProperPlug(c, n, n', Strings(b));
    ReplacedHolds(b, b', c, PreSize(c), n, n', Plug(c, n), Plug(c, n'));
    PlugForest(c, n, n', Strings(b), ts);
    if |ts| == 1 {
      PlugOffsets(c, n, n');
    }
    assert BecomesItems(b, b', Plug(c, n), PathOf(c), ts, Plug(c, n'));
  }

  /** fdt_set_name renames exactly that node; it fails only for lack of room, and then
      changes nothing. */
  lemma {:induction false} SetNameRefines(b: seq<byte>, t: Items, p: seq<nat>, name: seq<byte>)
    requires Addresses(b, t, p) && NulFree(name) && |name| < 0x7fff_fff0
    ensures Editable(b) && NodeOffset(t, p) < 0x8000_0000
    ensures var r := SetName(b, NodeOffset(t, p), name);
            var tree := Get(Trees(b, t), p).value;
            if DataSize(b) - Align4(|tree.name| + 1) + Align4(|name| + 1) <= TotalSize(b) then
              r.code == 0 && Becomes(b, r.blob, t, p, [tree.(name := name)])
            else r == Res(NOSPACE, b)
  {
    Located(b, t, p);
    var c, n := CtxAt(t, p), ItemsAt(t, p);
    SetNameIs(b, c, n, name);
    if DataSize(b) - Align4(|n.name| + 1) + Align4(|name| + 1) <= TotalSize(b) {
      ProperNode(n.name, n.body, n.next, Strings(b));
      ProperNode(name, n.body, n.next, Strings(b));
      NodeTree(b, SetName(b, PreSize(c), name).blob, c, n, n.(name := name), [TreeOf(name, n.body, Strings(b))]);
    }
  }
}
