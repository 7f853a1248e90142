/** fdt_overlay.c: overlay_apply_node on the base blob, by calls of fdt_setprop and
    fdt_add_subnode, is the merge of trees of module Overlay. */
module OverlayBlob {
  import opened Bytes
  import opened Syntax
  import opened DeviceTree
  import opened Fdt
  import opened Walk
  import opened Blob
  import opened Lookup
  import opened Splice
  import opened Edit
  import opened Refine
  import opened EditTheorems
  import opened Overlay

  ghost predicate Ready(b: seq<byte>, target: int) { Editable(b) && target < 0x8000_0000 }

  /** The property loop of overlay_apply_node.  Here and below, a buffer that is not Ready
      is outside the model; a blob that holds trees always is. */
  ghost function ApplyProps(b: seq<byte>, target: int, ps: seq<Property>): Res
    decreases |ps|
  {
    if ps == [] then Res(0, b)
    else if !Ready(b, target) then Res(STRAYS, b)
    else
      var r := SetProp(b, target, ps[0].name, ps[0].val);
      if r.code != 0 then r else ApplyProps(r.blob, target, ps[1..])
  }

  /** overlay_apply_node for the overlay node `over`. */
  ghost function ApplyNode(b: seq<byte>, target: int, over: Tree): Res
    decreases over, 1
  {
    var r := ApplyProps(b, target, over.props);
    if r.code != 0 then r else ApplyKids(r.blob, target, over.kids)
  }

  ghost function ApplyKids(b: seq<byte>, target: int, ks: seq<Tree>): Res
    decreases ks, 0
  {
    if ks == [] then Res(0, b)
    else
      var r := ApplyOne(b, target, ks[0]);
      if r.code != 0 then r else ApplyKids(r.blob, target, ks[1..])
  }

  /** One turn of the subnode loop; the new or existing node is looked up again. */
  ghost function ApplyOne(b: seq<byte>, target: int, k: Tree): Res
    decreases k, 2
  {
    if !Ready(b, target) then Res(STRAYS, b)
    else
      var a := AddSubnode(b, target, k.name);
      var n := if a.code == EXISTS && Ready(a.blob, target) then SubnodeOffset(a.blob, target, k.name) else a.code;
      if a.code == EXISTS && n == NOTFOUND then Res(INTERNAL, a.blob)
      else if n < 0 then Res(n, a.blob)
      else ApplyNode(a.blob, n, k)
  }

  // ---- trees at paths ----

  lemma {:induction false} ReplaceGet(f: seq<Tree>, p: seq<nat>, x: Tree)
    requires Get(f, p).Some?
    ensures Get(Replace(f, p, [x]), p) == Some(x)
    decreases |p|
  {
    var i := p[0];
    var g := Replace(f, p, [x]);
    if |p| == 1 {
      assert g[i] == x;
    } else {
      ReplaceGet(f[i].kids, p[1..], x);
      assert g[i] == f[i].(kids := Replace(f[i].kids, p[1..], [x]));
    }
  }

  lemma {:induction false} ReplaceTwice(f: seq<Tree>, p: seq<nat>, x: Tree, y: Tree)
    requires Get(f, p).Some?
    ensures Replace(Replace(f, p, [x]), p, [y]) == Replace(f, p, [y])
    decreases |p|
  {
    var i := p[0];
    var g := Replace(f, p, [x]);
    if |p| == 1 {
      assert g[..i] == f[..i] && g[i + 1..] == f[i + 1..];
    } else {
      ReplaceTwice(f[i].kids, p[1..], x, y);
      assert g[..i] == f[..i] && g[i + 1..] == f[i + 1..];
      assert g[i] == f[i].(kids := Replace(f[i].kids, p[1..], [x]));
    }
  }

  lemma {:induction false} ReplaceChild(f: seq<Tree>, p: seq<nat>, i: nat, x: Tree)
    requires Get(f, p).Some? && i < |Get(f, p).value.kids|
    ensures var t := Get(f, p).value;
            Get(f, p + [i]) == Some(t.kids[i]) &&
              Replace(f, p + [i], [x]) == Replace(f, p, [t.(kids := t.kids[i := x])])
    decreases |p|
  {
    var t := Get(f, p).value;
    var q := p + [i];
    if |p| == 1 {
      assert q[1..] == [i];
      assert Replace(t.kids, [i], [x]) == t.kids[i := x];
    } else {
      assert q[1..] == p[1..] + [i];
      ReplaceChild(f[p[0]].kids, p[1..], i, x);
    }
  }

  // ---- sequences of edits ----

  /** After the edits b' holds the trees with x at p, or, if there was no room, some trees. */
  ghost predicate Outcome(b: seq<byte>, t: Items, p: seq<nat>, r: Res, x: Tree) {
    if r.code == 0 then Becomes(b, r.blob, t, p, [x])
    else r.code == NOSPACE && Kept(b, r.blob) && exists t' :: Holds(r.blob, t')
  }

  lemma {:induction false} BecomesAddress(b: seq<byte>, b': seq<byte>, t: Items, p: seq<nat>, x: Tree, t': Items)
    requires Addresses(b, t, p) && BecomesItems(b, b', t, p, [x], t')
    ensures Addresses(b', t', p) && Get(Trees(b', t'), p) == Some(x) && NodeOffset(t', p) == NodeOffset(t, p)
  {
    ReplaceGet(Trees(b, t), p, x);
    assert p[..|p|] == p;
  }

  lemma {:induction false} OutcomeTrans(b: seq<byte>, b1: seq<byte>, t: Items, t1: Items, p: seq<nat>, x: Tree,
    r: Res, y: Tree)
    requires Addresses(b, t, p) && BecomesItems(b, b1, t, p, [x], t1) && Outcome(b1, t1, p, r, y)
    ensures Outcome(b, t, p, r, y)
  {
    if r.code == 0 {
      var t2 :| BecomesItems(b1, r.blob, t1, p, [y], t2);
      ReplaceTwice(Trees(b, t), p, x, y);
      forall k | 0 < k <= |p| ensures NodeOffset(t2, p[..k]) == NodeOffset(t, p[..k]) {
        assert NodeOffset(t1, p[..k]) == NodeOffset(t, p[..k]);
      }
      assert BecomesItems(b, r.blob, t, p, [y], t2);
    }
  }

  /** An outcome at a child is an outcome at the node. */
  lemma {:induction false} OutcomeChild(b: seq<byte>, t: Items, p: seq<nat>, i: nat, r: Res, y: Tree)
    requires Addresses(b, t, p) && i < |Get(Trees(b, t), p).value.kids| && Outcome(b, t, p + [i], r, y)
    ensures var tree := Get(Trees(b, t), p).value; Outcome(b, t, p, r, tree.(kids := tree.kids[i := y]))
  {
    if r.code == 0 {
      var tree := Get(Trees(b, t), p).value;
      var q := p + [i];
      var t' :| BecomesItems(b, r.blob, t, q, [y], t');
      ReplaceChild(Trees(b, t), p, i, y);
      forall k | 0 < k <= |p| ensures NodeOffset(t', p[..k]) == NodeOffset(t, p[..k]) {
        assert q[..k] == p[..k];
      }
      assert BecomesItems(b, r.blob, t, p, [tree.(kids := tree.kids[i := y])], t');
    }
  }

  lemma {:induction false} Unchanged(b: seq<byte>, t: Items, p: seq<nat>)
    requires Addresses(b, t, p)
    ensures Outcome(b, t, p, Res(0, b), Get(Trees(b, t), p).value)
  {
    ReplaceSame(Trees(b, t), p);
    assert BecomesItems(b, b, t, p, [Get(Trees(b, t), p).value], t);
  }

  lemma {:induction false} ReplaceSame(f: seq<Tree>, p: seq<nat>)
    requires Get(f, p).Some?
    ensures Replace(f, p, [Get(f, p).value]) == f
    decreases |p|
  {
    if |p| > 1 {
      ReplaceSame(f[p[0]].kids, p[1..]);
    }
  }

  // ---- the overlay's properties and nodes ----

  /** What a tree read from a blob satisfies: names end at their NUL, lengths are C ints. */
  predicate Legible(t: Tree)
    decreases t, 1
  {
    NulFree(t.name) && |t.name| < 0x7fff_fff0 && LegibleProps(t.props) && AllLegible(t.kids)
  }

  predicate LegibleProps(ps: seq<Property>) {
    forall i | 0 <= i < |ps| :: NulFree(ps[i].name) && |ps[i].name| < 0x7fff_fff0 && |ps[i].val| < 0x7fff_fff0
  }

  predicate AllLegible(ts: seq<Tree>)
    decreases ts, 0
  {
    forall i | 0 <= i < |ts| :: Legible(ts[i])
  }

  lemma {:induction false} SetPropOutcome(b: seq<byte>, t: Items, p: seq<nat>, name: seq<byte>, val: seq<byte>)
    requires Addresses(b, t, p) && NulFree(name) && |name| < 0x7fff_fff0 && |val| < 0x7fff_fff0
    ensures Ready(b, NodeOffset(t, p))
    ensures Outcome(b, t, p, SetProp(b, NodeOffset(t, p), name, val), WithProp(Get(Trees(b, t), p).value, name, val))
  {
    SetPropRefines(b, t, p, name, val);
    var r := SetProp(b, NodeOffset(t, p), name, val);
    if r.code != 0 {
      UntouchedHolds(b, r.blob, t);
    }
  }

  /** The property loop sets the overlay's properties. */
  lemma {:induction false} ApplyPropsRefines(b: seq<byte>, t: Items, p: seq<nat>, ps: seq<Property>)
    requires Addresses(b, t, p) && LegibleProps(ps)
    ensures var tree := Get(Trees(b, t), p).value;
            Outcome(b, t, p, ApplyProps(b, NodeOffset(t, p), ps), tree.(props := WithProps(tree.props, ps)))
    decreases |ps|
  {
    var tree := Get(Trees(b, t), p).value;
    if ps == [] {
      Unchanged(b, t, p);
    } else {
      SetPropOutcome(b, t, p, ps[0].name, ps[0].val);
      var r := SetProp(b, NodeOffset(t, p), ps[0].name, ps[0].val);
      if r.code == 0 {
        var x := WithProp(tree, ps[0].name, ps[0].val);
        var t1 :| BecomesItems(b, r.blob, t, p, [x], t1);
        BecomesAddress(b, r.blob, t, p, x, t1);
        ApplyPropsRefines(r.blob, t1, p, ps[1..]);
        OutcomeTrans(b, r.blob, t, t1, p, x, ApplyProps(r.blob, NodeOffset(t, p), ps[1..]),
          x.(props := WithProps(x.props, ps[1..])));
      }
    }
  }

  /** fdt_subnode_offset finds the offset of the first child that matches. */
  lemma {:induction false} SubnodeFound(b: seq<byte>, t: Items, p: seq<nat>, name: seq<byte>)
    requires Addresses(b, t, p)
    ensures Ready(b, NodeOffset(t, p))
    ensures var i := Match(Get(Trees(b, t), p).value.kids, name);
            SubnodeOffset(b, NodeOffset(t, p), name) == if i.Some? then NodeOffset(t, p + [i.value]) else NOTFOUND
  {
    Located(b, t, p);
    var c, n := CtxAt(t, p), ItemsAt(t, p);
    NodeFacts(b, c, n);
    SubnodeOffsetIs(b, PreSize(c), n.name, n.body, name);
    FindNodeMatch(n.body, Strings(b), name);
    var i := Match(Get(Trees(b, t), p).value.kids, name);
    if i.Some? {
      ChildOffset(c, n, i.value);
    }
  }

  /** fdt_subnode_offset, by the names of the children: the first that is called so, or none. */
  lemma {:induction false} SubnodeNamed(b: seq<byte>, t: Items, p: seq<nat>, name: seq<byte>)
    requires Addresses(b, t, p)
    ensures Ready(b, NodeOffset(t, p))
    ensures var r, kids := SubnodeOffset(b, NodeOffset(t, p), name), Get(Trees(b, t), p).value.kids;
            if exists i | 0 <= i < |kids| :: Called(kids[i].name, name) then
              exists i :: 0 <= i < |kids| && Called(kids[i].name, name) && r == NodeOffset(t, p + [i]) &&
                forall j | 0 <= j < i :: !Called(kids[j].name, name)
            else r == NOTFOUND
  {
    SubnodeFound(b, t, p, name);
    MatchIs(Get(Trees(b, t), p).value.kids, name);
  }

  lemma {:induction false} FindNodeMatch(t: Items, strs: seq<byte>, name: seq<byte>)
    ensures var i := Match(Forest(t, strs), name);
            FindNode(t, name) == if i.Some? then Some(PreSize(CtxAt(t, [i.value]))) else None
    decreases t
  {
    var i := Match(Forest(t, strs), name);
    match t
    case Nil =>
    case Leaf(tok, next) =>
      FindNodeMatch(next, strs, name);
      if i.Some? {
        CtxSizeDef(CtxAt(t, [i.value]));
      }
    case Node(nodename, body, next) =>
      FindNodeMatch(next, strs, name);
      MatchFirst(TreeOf(nodename, body, strs), Forest(next, strs), name);
      if i.Some? {
        SiblingSize(nodename, body, next, i.value);
      }
  }

  lemma {:induction false} MatchFirst(x: Tree, ts: seq<Tree>, name: seq<byte>)
    ensures Match([x] + ts, name) ==
            if NodeNameEq(x.name, name) then Some(0)
            else if Match(ts, name).None? then None else Some(Match(ts, name).value + 1)
  {
    assert ([x] + ts)[1..] == ts;
  }

  lemma {:induction false} SiblingSize(name: seq<byte>, body: Items, next: Items, i: nat)
    ensures PreSize(CtxAt(Node(name, body, next), [i])) ==
            if i == 0 then 0 else NodeSize(name, body) + PreSize(CtxAt(next, [i - 1]))
  {
    CtxSizeDef(CtxAt(Node(name, body, next), [i]));
    assert i > 0 ==> [i - 1] + [i][1..] == [i - 1];
  }

  lemma {:induction false} ApplyNodeRefines(b: seq<byte>, t: Items, p: seq<nat>, over: Tree)
    requires Addresses(b, t, p) && Legible(over)
    ensures Outcome(b, t, p, ApplyNode(b, NodeOffset(t, p), over), Merge(Get(Trees(b, t), p).value, over))
    decreases over, 1
  {
    var o, tree := NodeOffset(t, p), Get(Trees(b, t), p).value;
    ApplyPropsRefines(b, t, p, over.props);
    var r := ApplyProps(b, o, over.props);
    if r.code == 0 {
      var x := tree.(props := WithProps(tree.props, over.props));
      var t1 :| BecomesItems(b, r.blob, t, p, [x], t1);
      BecomesAddress(b, r.blob, t, p, x, t1);
      ApplyKidsRefines(r.blob, t1, p, over.kids);
      OutcomeTrans(b, r.blob, t, t1, p, x, ApplyKids(r.blob, o, over.kids), x.(kids := MergeKids(x.kids, over.kids)));
    }
  }

  lemma {:induction false} ApplyKidsRefines(b: seq<byte>, t: Items, p: seq<nat>, ks: seq<Tree>)
    requires Addresses(b, t, p) && AllLegible(ks)
    ensures var tree := Get(Trees(b, t), p).value;
            Outcome(b, t, p, ApplyKids(b, NodeOffset(t, p), ks), tree.(kids := MergeKids(tree.kids, ks)))
    decreases ks, 0
  {
    var o, tree := NodeOffset(t, p), Get(Trees(b, t), p).value;
    if ks == [] {
      Unchanged(b, t, p);
    } else {
      ApplyOneRefines(b, t, p, ks[0]);
      var r := ApplyOne(b, o, ks[0]);
      if r.code == 0 {
        var x := tree.(kids := MergeOne(tree.kids, ks[0]));
        var t1 :| BecomesItems(b, r.blob, t, p, [x], t1);
        BecomesAddress(b, r.blob, t, p, x, t1);
        ApplyKidsRefines(r.blob, t1, p, ks[1..]);
        OutcomeTrans(b, r.blob, t, t1, p, x, ApplyKids(r.blob, o, ks[1..]), x.(kids := MergeKids(x.kids, ks[1..])));
      }
    }
  }

  lemma {:induction false} AddSubnodeMatch(b: seq<byte>, t: Items, p: seq<nat>, name: seq<byte>)
    requires Addresses(b, t, p) && NulFree(name) && |name| < 0x7fff_fff0
    ensures Editable(b) && NodeOffset(t, p) < 0x8000_0000
    ensures var r := AddSubnode(b, NodeOffset(t, p), name);
            var tree := Get(Trees(b, t), p).value;
            if Match(tree.kids, name).Some? then r == Res(EXISTS, b)
            else if DataSize(b) + OpenSize(|name|) + 4 <= TotalSize(b) then
              exists t' :: BecomesItems(b, r.blob, t, p, [WithChild(tree, name)], t') &&
                r.code == NodeOffset(t', p + [0])
            else r == Res(NOSPACE, b)
  {
    AddSubnodeRefines(b, t, p, name);
    MatchIs(Get(Trees(b, t), p).value.kids, name);
  }

  lemma {:induction false} ApplyOneRefines(b: seq<byte>, t: Items, p: seq<nat>, k: Tree)
    requires Addresses(b, t, p) && Legible(k)
    ensures var tree := Get(Trees(b, t), p).value;
            Outcome(b, t, p, ApplyOne(b, NodeOffset(t, p), k), tree.(kids := MergeOne(tree.kids, k)))
    decreases k, 2
  {
    var tree := Get(Trees(b, t), p).value;
    AddSubnodeMatch(b, t, p, k.name);
    SubnodeFound(b, t, p, k.name);
    var a := AddSubnode(b, NodeOffset(t, p), k.name);
    var i := Match(tree.kids, k.name);
    if i.Some? {
      ReplaceChild(Trees(b, t), p, i.value, tree);
      ApplyNodeRefines(b, t, p + [i.value], k);
      OutcomeChild(b, t, p, i.value, ApplyNode(b, NodeOffset(t, p + [i.value]), k), Merge(tree.kids[i.value], k));
    } else if a.code >= 0 {
      var t1 :| BecomesItems(b, a.blob, t, p, [WithChild(tree, k.name)], t1) && a.code == NodeOffset(t1, p + [0]);
      NewChild(b, a.blob, t, p, t1, k.name);
      ApplyNodeRefines(a.blob, t1, p + [0], k);
      MergedChild(b, a.blob, t, p, t1, k.name, ApplyNode(a.blob, a.code, k), Merge(Tree(k.name, [], []), k));
    }
  }

  lemma {:induction false} NewChild(b: seq<byte>, b1: seq<byte>, t: Items, p: seq<nat>, t1: Items, name: seq<byte>)
    requires Addresses(b, t, p) && BecomesItems(b, b1, t, p, [WithChild(Get(Trees(b, t), p).value, name)], t1)
    ensures Addresses(b1, t1, p) && Get(Trees(b1, t1), p) == Some(WithChild(Get(Trees(b, t), p).value, name))
    ensures Addresses(b1, t1, p + [0]) && Get(Trees(b1, t1), p + [0]) == Some(Tree(name, [], []))
  {
    var x := WithChild(Get(Trees(b, t), p).value, name);
    BecomesAddress(b, b1, t, p, x, t1);
    ReplaceChild(Trees(b1, t1), p, 0, x);
  }

  lemma {:induction false} MergedChild(b: seq<byte>, b1: seq<byte>, t: Items, p: seq<nat>, t1: Items,
    name: seq<byte>, r: Res, m: Tree)
    requires Addresses(b, t, p) && BecomesItems(b, b1, t, p, [WithChild(Get(Trees(b, t), p).value, name)], t1)
    requires Outcome(b1, t1, p + [0], r, m)
    ensures var tree := Get(Trees(b, t), p).value; Outcome(b, t, p, r, tree.(kids := [m] + tree.kids))
  {
    var tree := Get(Trees(b, t), p).value;
    var x := WithChild(tree, name);
    NewChild(b, b1, t, p, t1, name);
    OutcomeChild(b1, t1, p, 0, r, m);
    OutcomeTrans(b, b1, t, t1, p, x, r, x.(kids := x.kids[0 := m]));
    assert x.kids[0 := m] == [m] + tree.kids;
  }

  // ---- what is read from a blob can be applied ----

  lemma {:induction false} ItemsLegible(s: seq<byte>, o: int, t: Items, strs: seq<byte>)
    requires Lies(s, o, t) && 0 <= o <= |s| < 0x7fff_fff0 && |strs| < 0x7fff_fff0 && Named(t, strs)
    ensures LegibleProps(Props(t, strs)) && AllLegible(Forest(t, strs))
    decreases t
  {
    match t
    case Nil =>
    case Leaf(tok, next) =>
      LiesLeaf(s, o, tok, next);
      TokIs(s, o, tok);
      ItemsLegible(s, o + TokSize(tok), next, strs);
      if tok.Prop? {
        StrIs(strs, tok.nameoff, StrAt(strs, tok.nameoff).value);
      }
    case Node(name, body, next) =>
      LiesNode(s, o, name, body, next);
      TokIs(s, o, Open(name));
      TokFits(s, o + OpenSize(|name|) + Size(body));
      ItemsLegible(s, o + OpenSize(|name|), body, strs);
      ItemsLegible(s, o + NodeSize(name, body), next, strs);
  }

  lemma {:induction false} TreesLegible(b: seq<byte>, t: Items)
    requires Holds(b, t)
    ensures AllLegible(Trees(b, t))
  {
    HoldsDef(b, t);
    ProperDef(t, Strings(b));
    ItemsLegible(Struct(b), 0, t, Strings(b));
  }

  lemma {:induction false} LegibleAt(f: seq<Tree>, q: seq<nat>)
    requires AllLegible(f) && Get(f, q).Some?
    ensures Legible(Get(f, q).value)
    decreases |q|
  {
    assert Legible(f[q[0]]);
    if |q| > 1 {
      LegibleAt(f[q[0]].kids, q[1..]);
    }
  }

  /** overlay_apply_node from blob to blob: the node at q of the overlay, applied to the node at p of
      the base, becomes exactly the merge of the two trees, or the call fails. */
  lemma {:induction false} ApplyBlobRefines(b: seq<byte>, t: Items, p: seq<nat>, bo: seq<byte>, to: Items, q: seq<nat>)
    requires Addresses(b, t, p) && Addresses(bo, to, q)
    ensures var tree, over := Get(Trees(b, t), p).value, Get(Trees(bo, to), q).value;
            Outcome(b, t, p, ApplyNode(b, NodeOffset(t, p), over), Merge(tree, over))
  {
    TreesLegible(bo, to);
    LegibleAt(Trees(bo, to), q);
    ApplyNodeRefines(b, t, p, Get(Trees(bo, to), q).value);
  }
}
