/** livetree.c: merging an override tree into a live tree.  Deleted properties and nodes stay
    in their lists as tombstones; in an override tree they are delete directives. */
module LiveTree {
  import opened Bytes

  type Name = seq<byte>

  datatype LiveProp = LiveProp(name: Name, val: seq<byte>, deleted: bool)

  datatype LiveNode = LiveNode(name: Name, props: seq<LiveProp>, kids: seq<LiveNode>, deleted: bool)

  // ---- the operations ----

  /** delete_property_by_name. */
  function DeleteProp(ps: seq<LiveProp>, name: Name): seq<LiveProp> {
    if ps == [] then []
    else if ps[0].name == name then [ps[0].(deleted := true)] + ps[1..]
    else [ps[0]] + DeleteProp(ps[1..], name)
  }

  /** The collision loop of merge_nodes, and add_property without a collision. */
  function PutProp(ps: seq<LiveProp>, p: LiveProp): seq<LiveProp> {
    if ps == [] then [p]
    else if ps[0].name == p.name then [LiveProp(p.name, p.val, false)] + ps[1..]
    else [ps[0]] + PutProp(ps[1..], p)
  }

  /** The property loop of merge_nodes. */
  function MergeProps(ps: seq<LiveProp>, over: seq<LiveProp>): seq<LiveProp>
    decreases |over|
  {
    if over == [] then ps
    else MergeProps(if over[0].deleted then DeleteProp(ps, over[0].name) else PutProp(ps, over[0]), over[1..])
  }

  function DeleteProps(ps: seq<LiveProp>): seq<LiveProp> {
    if ps == [] then [] else [ps[0].(deleted := true)] + DeleteProps(ps[1..])
  }

  /** delete_node: what is deleted already is not visited again. */
  function DeleteNode(n: LiveNode): LiveNode
    decreases n, 1
  {
    LiveNode(n.name, DeleteProps(n.props), DeleteNodes(n.kids), true)
  }

  function DeleteNodes(ks: seq<LiveNode>): seq<LiveNode>
    decreases ks, 0
  {
    if ks == [] then [] else [if ks[0].deleted then ks[0] else DeleteNode(ks[0])] + DeleteNodes(ks[1..])
  }

  /** delete_node_by_name. */
  function DeleteKid(ks: seq<LiveNode>, name: Name): seq<LiveNode> {
    if ks == [] then []
    else if ks[0].name == name then [DeleteNode(ks[0])] + ks[1..]
    else [ks[0]] + DeleteKid(ks[1..], name)
  }

  /** merge_nodes. */
  function MergeNodes(n: LiveNode, over: LiveNode): LiveNode
    decreases over, 2
  {
    LiveNode(n.name, MergeProps(n.props, over.props), MergeKids(n.kids, over.kids), false)
  }

  function MergeKids(ks: seq<LiveNode>, over: seq<LiveNode>): seq<LiveNode>
    decreases over, 0
  {
    if over == [] then ks
    else MergeKids(if over[0].deleted then DeleteKid(ks, over[0].name) else PutKid(ks, over[0]), over[1..])
  }

  /** The collision loop for one child, and add_child without a collision. */
  function PutKid(ks: seq<LiveNode>, k: LiveNode): seq<LiveNode>
    decreases k, 3, |ks|
  {
    if ks == [] then [k]
    else if ks[0].name == k.name then [MergeNodes(ks[0], k)] + ks[1..]
    else [ks[0]] + PutKid(ks[1..], k)
  }

  // ---- invariants ----

  function PropNames(ps: seq<LiveProp>): set<Name> { if ps == [] then {} else {ps[0].name} + PropNames(ps[1..]) }

  function KidNames(ks: seq<LiveNode>): set<Name> { if ks == [] then {} else {ks[0].name} + KidNames(ks[1..]) }

  predicate DistinctProps(ps: seq<LiveProp>) {
    ps == [] ||
    (ps[0].name !in PropNames(ps[1..]) && DistinctProps(ps[1..]))
  }

  /** Names are unique in every list, tombstones and directives included, and everything
      below a deleted node is deleted. */
  predicate Valid(n: LiveNode)
    decreases n, 1
  {
    DistinctProps(n.props) && ValidKids(n.kids) && (n.deleted ==> Gone(n))
  }

  predicate ValidKids(ks: seq<LiveNode>)
    decreases ks, 0
  {
    ks == [] || (ks[0].name !in KidNames(ks[1..]) && Valid(ks[0]) && ValidKids(ks[1..]))
  }

  predicate Gone(n: LiveNode)
    decreases n, 1
  {
    n.deleted && (forall i | 0 <= i < |n.props| :: n.props[i].deleted) && AllGone(n.kids)
  }

  predicate AllGone(ks: seq<LiveNode>)
    decreases ks, 0
  {
    ks == [] || (Gone(ks[0]) && AllGone(ks[1..]))
  }

  // ---- the live view ----

  /** What is not deleted, by name. */
  datatype View = View(props: map<Name, seq<byte>>, kids: map<Name, View>)

  const NOTHING: View := View(map[], map[])

  function PropView(ps: seq<LiveProp>): map<Name, seq<byte>> {
    if ps == [] then map[]
    else if ps[0].deleted then PropView(ps[1..])
    else PropView(ps[1..])[ps[0].name := ps[0].val]
  }

  function ViewOf(n: LiveNode): View
    decreases n, 1
  {
    View(PropView(n.props), KidView(n.kids))
  }

  function KidView(ks: seq<LiveNode>): map<Name, View>
    decreases ks, 0
  {
    if ks == [] then map[]
    else if ks[0].deleted then KidView(ks[1..])
    else KidView(ks[1..])[ks[0].name := ViewOf(ks[0])]
  }

  /** The view v overridden by the tree `over`: directives remove, properties replace, and
      nodes override recursively what is there, or nothing. */
  function Override(v: View, over: LiveNode): View
    decreases over, 1
  {
    View(OverrideProps(v.props, over.props), OverrideKids(v.kids, over.kids))
  }

  function OverrideProps(m: map<Name, seq<byte>>, over: seq<LiveProp>): map<Name, seq<byte>>
    decreases |over|
  {
    if over == [] then m
    else OverrideProps(if over[0].deleted then m - {over[0].name} else m[over[0].name := over[0].val], over[1..])
  }

  function OverrideKids(m: map<Name, View>, over: seq<LiveNode>): map<Name, View>
    decreases over, 0
  {
    if over == [] then m
    else
      var k := over[0];
      OverrideKids(if k.deleted then m - {k.name}
        else m[k.name := Override(if k.name in m then m[k.name] else NOTHING, k)], over[1..])
  }

  // ---- properties ----

  lemma {:induction false} PropViewNames(ps: seq<LiveProp>)
    ensures PropView(ps).Keys <= PropNames(ps)
    decreases |ps|
  {
    if ps != [] {
      PropViewNames(ps[1..]);
    }
  }

  lemma {:induction false} DeletePropIs(ps: seq<LiveProp>, name: Name)
    requires DistinctProps(ps)
    ensures PropNames(DeleteProp(ps, name)) == PropNames(ps) && DistinctProps(DeleteProp(ps, name))
    ensures PropView(DeleteProp(ps, name)) == PropView(ps) - {name}
    decreases |ps|
  {
    if ps != [] {
      PropViewNames(ps[1..]);
      var qs := DeleteProp(ps, name);
      if ps[0].name == name {
        assert qs[1..] == ps[1..];
        assert PropView(ps[1..]) == PropView(ps[1..]) - {name};
      } else {
        DeletePropIs(ps[1..], name);
        assert qs[1..] == DeleteProp(ps[1..], name);
      }
    }
  }

  lemma {:induction false} PutPropIs(ps: seq<LiveProp>, p: LiveProp)
    requires DistinctProps(ps) && !p.deleted
    ensures PropNames(PutProp(ps, p)) == PropNames(ps) + {p.name} && DistinctProps(PutProp(ps, p))
    ensures PropView(PutProp(ps, p)) == PropView(ps)[p.name := p.val]
    decreases |ps|
  {
    var qs := PutProp(ps, p);
    if ps == [] {
      assert qs[1..] == [];
    } else {
      PropViewNames(ps[1..]);
      if ps[0].name == p.name {
        assert qs[1..] == ps[1..];
      } else {
        PutPropIs(ps[1..], p);
        assert qs[1..] == PutProp(ps[1..], p);
      }
    }
  }

  lemma {:induction false} MergePropsIs(ps: seq<LiveProp>, over: seq<LiveProp>)
    requires DistinctProps(ps)
    ensures DistinctProps(MergeProps(ps, over)) && PropView(MergeProps(ps, over)) == OverrideProps(PropView(ps), over)
    decreases |over|
  {
    if over != [] {
      if over[0].deleted {
        DeletePropIs(ps, over[0].name);
        MergePropsIs(DeleteProp(ps, over[0].name), over[1..]);
      } else {
        PutPropIs(ps, over[0]);
        MergePropsIs(PutProp(ps, over[0]), over[1..]);
      }
    }
  }

  // ---- deletion ----

  lemma {:induction false} DeletePropsIs(ps: seq<LiveProp>)
    requires DistinctProps(ps)
    ensures DistinctProps(DeleteProps(ps)) && PropNames(DeleteProps(ps)) == PropNames(ps)
    ensures forall i | 0 <= i < |DeleteProps(ps)| :: DeleteProps(ps)[i].deleted
    decreases |ps|
  {
    if ps != [] {
      DeletePropsIs(ps[1..]);
      assert DeleteProps(ps)[1..] == DeleteProps(ps[1..]);
    }
  }

  /** Deleting a node deletes everything below it. */
  lemma {:induction false} DeleteNodeIs(n: LiveNode)
    requires Valid(n)
    ensures Valid(DeleteNode(n)) && Gone(DeleteNode(n))
    decreases n, 1
  {
    DeletePropsIs(n.props);
    DeleteNodesIs(n.kids);
  }

  lemma {:induction false} DeleteNodesIs(ks: seq<LiveNode>)
    requires ValidKids(ks)
    ensures ValidKids(DeleteNodes(ks)) && AllGone(DeleteNodes(ks)) && KidNames(DeleteNodes(ks)) == KidNames(ks)
    decreases ks, 0
  {
    if ks != [] {
      var js := DeleteNodes(ks);
      DeleteNodesIs(ks[1..]);
      assert js[1..] == DeleteNodes(ks[1..]);
      if !ks[0].deleted {
        DeleteNodeIs(ks[0]);
      }
    }
  }

  lemma {:induction false} KidViewNames(ks: seq<LiveNode>)
    ensures KidView(ks).Keys <= KidNames(ks)
    decreases |ks|
  {
    if ks != [] {
      KidViewNames(ks[1..]);
    }
  }

  lemma {:induction false} DeleteKidIs(ks: seq<LiveNode>, name: Name)
    requires ValidKids(ks)
    ensures ValidKids(DeleteKid(ks, name)) && KidNames(DeleteKid(ks, name)) == KidNames(ks)
    ensures KidView(DeleteKid(ks, name)) == KidView(ks) - {name}
    decreases |ks|
  {
    if ks != [] {
      KidViewNames(ks[1..]);
      var js := DeleteKid(ks, name);
      if ks[0].name == name {
        DeleteNodeIs(ks[0]);
        assert js[1..] == ks[1..];
        assert KidView(ks[1..]) == KidView(ks[1..]) - {name};
      } else {
        DeleteKidIs(ks[1..], name);
        assert js[1..] == DeleteKid(ks[1..], name);
      }
    }
  }

  // ---- what a deleted node shows ----

  lemma {:induction false} GonePropsView(ps: seq<LiveProp>)
    requires forall i | 0 <= i < |ps| :: ps[i].deleted
    ensures PropView(ps) == map[]
    decreases |ps|
  {
    if ps != [] {
      GonePropsView(ps[1..]);
    }
  }

  lemma {:induction false} GoneView(n: LiveNode)
    requires Gone(n)
    ensures ViewOf(n) == NOTHING
  {
    GonePropsView(n.props);
    AllGoneView(n.kids);
  }

  lemma {:induction false} AllGoneView(ks: seq<LiveNode>)
    requires AllGone(ks)
    ensures KidView(ks) == map[]
    decreases |ks|
  {
    if ks != [] {
      AllGoneView(ks[1..]);
    }
  }

  // ---- a tree overriding nothing is its own live view ----

  /** What a property list does to one name. */
  lemma {:induction false} OverridePropsAt(m: map<Name, seq<byte>>, over: seq<LiveProp>, name: Name)
    requires DistinctProps(over)
    ensures var r := OverrideProps(m, over);
            if name in PropNames(over) then (name in r <==> name in PropView(over)) &&
              (name in r ==> r[name] == PropView(over)[name])
            else (name in r <==> name in m) && (name in r ==> r[name] == m[name])
    decreases |over|
  {
    if over != [] {
      var m' := if over[0].deleted then m - {over[0].name} else m[over[0].name := over[0].val];
      OverridePropsAt(m', over[1..], name);
      PropViewNames(over[1..]);
    }
  }

  lemma {:induction false} OverridePropsNothing(over: seq<LiveProp>)
    requires DistinctProps(over)
    ensures OverrideProps(map[], over) == PropView(over)
  {
    var r, v := OverrideProps(map[], over), PropView(over);
    PropViewNames(over);
    forall name ensures (name in r <==> name in v) && (name in r ==> r[name] == v[name]) {
      OverridePropsAt(map[], over, name);
    }
  }

  lemma {:induction false} OverrideKidsAt(m: map<Name, View>, over: seq<LiveNode>, name: Name)
    requires ValidKids(over) && (forall i | 0 <= i < |over| :: over[i].name !in m)
    ensures var r := OverrideKids(m, over);
            if name in KidNames(over) then (name in r <==> name in KidView(over)) &&
              (name in r ==> r[name] == KidView(over)[name])
            else (name in r <==> name in m) && (name in r ==> r[name] == m[name])
    decreases over, 0
  {
    if over != [] {
      var k := over[0];
      var m' := if k.deleted then m - {k.name} else m[k.name := Override(NOTHING, k)];
      if !k.deleted {
        OverrideNothing(k);
      }
      NamesAt(over[1..], k.name);
      OverrideKidsAt(m', over[1..], name);
      KidViewNames(over[1..]);
    }
  }

  lemma {:induction false} NamesAt(ks: seq<LiveNode>, name: Name)
    requires name !in KidNames(ks)
    ensures forall i | 0 <= i < |ks| :: ks[i].name != name
    decreases |ks|
  {
    if ks != [] {
      NamesAt(ks[1..], name);
    }
  }

  /** A node added, or re-added after its deletion, shows exactly its own contents. */
  lemma {:induction false} OverrideNothing(n: LiveNode)
    requires Valid(n)
    ensures Override(NOTHING, n) == ViewOf(n)
    decreases n, 1
  {
    OverridePropsNothing(n.props);
    var r, v := OverrideKids(map[], n.kids), KidView(n.kids);
    KidViewNames(n.kids);
    forall name ensures (name in r <==> name in v) && (name in r ==> r[name] == v[name]) {
      OverrideKidsAt(map[], n.kids, name);
    }
  }

  // ---- merge_nodes ----

  lemma {:induction false} PutKidIs(ks: seq<LiveNode>, k: LiveNode)
    requires ValidKids(ks) && Valid(k) && !k.deleted
    ensures ValidKids(PutKid(ks, k)) && KidNames(PutKid(ks, k)) == KidNames(ks) + {k.name}
    ensures var m := KidView(ks);
              KidView(PutKid(ks, k)) ==
              m[k.name := Override(if k.name in m then m[k.name] else NOTHING, k)]
    decreases k, 3, |ks|
  {
    if ks == [] {
      OverrideNothing(k);
      assert PutKid(ks, k)[1..] == [];
    } else if ks[0].name == k.name {
      MergeIs(ks[0], k);
      PutKidHit(ks, k);
    } else {
      PutKidIs(ks[1..], k);
      PutKidMiss(ks, k);
    }
  }

  lemma {:induction false} PutKidHit(ks: seq<LiveNode>, k: LiveNode)
    requires ValidKids(ks) && ks != [] && ks[0].name == k.name
    requires var n := MergeNodes(ks[0], k); Valid(n) && !n.deleted && ViewOf(n) == Override(ViewOf(ks[0]), k)
    ensures ValidKids(PutKid(ks, k)) && KidNames(PutKid(ks, k)) == KidNames(ks)
    ensures var m := KidView(ks);
              KidView(PutKid(ks, k)) ==
              m[k.name := Override(if k.name in m then m[k.name] else NOTHING, k)]
  {
    var js := PutKid(ks, k);
    assert js[0] == MergeNodes(ks[0], k) && js[1..] == ks[1..];
    KidViewNames(ks[1..]);
    if ks[0].deleted {
      GoneView(ks[0]);
    }
    assert KidView(js) == KidView(ks[1..])[k.name := ViewOf(js[0])];
  }

  lemma {:induction false} PutKidMiss(ks: seq<LiveNode>, k: LiveNode)
    requires ValidKids(ks) && ks != [] && ks[0].name != k.name
    requires ValidKids(PutKid(ks[1..], k)) && KidNames(PutKid(ks[1..], k)) == KidNames(ks[1..]) + {k.name}
    requires var m := KidView(ks[1..]);
               KidView(PutKid(ks[1..], k)) ==
               m[k.name := Override(if k.name in m then m[k.name] else NOTHING, k)]
    ensures ValidKids(PutKid(ks, k)) && KidNames(PutKid(ks, k)) == KidNames(ks) + {k.name}
    ensures var m := KidView(ks);
              KidView(PutKid(ks, k)) ==
              m[k.name := Override(if k.name in m then m[k.name] else NOTHING, k)]
  {
    var js := PutKid(ks, k);
    assert js[0] == ks[0] && js[1..] == PutKid(ks[1..], k);
    var m, m' := KidView(ks[1..]), KidView(ks);
    var v := Override(if k.name in m then m[k.name] else NOTHING, k);
    if !ks[0].deleted {
      var w := ViewOf(ks[0]);
      assert m' == m[ks[0].name := w];
      assert KidView(js) == m[k.name := v][ks[0].name := w];
      assert (k.name in m' <==> k.name in m) && (k.name in m ==> m'[k.name] == m[k.name]);
      MapSwap(m, k.name, v, ks[0].name, w);
    }
  }

  lemma {:induction false} MapSwap(m: map<Name, View>, a: Name, v: View, b: Name, w: View)
    requires a != b
    ensures m[a := v][b := w] == m[b := w][a := v]
  {
  }

  lemma {:induction false} MergeKidsIs(ks: seq<LiveNode>, over: seq<LiveNode>)
    requires ValidKids(ks) && ValidKids(over)
    ensures ValidKids(MergeKids(ks, over)) && KidView(MergeKids(ks, over)) == OverrideKids(KidView(ks), over)
    decreases over, 0
  {
    if over != [] {
      if over[0].deleted {
        DeleteKidIs(ks, over[0].name);
        MergeKidsIs(DeleteKid(ks, over[0].name), over[1..]);
      } else {
        PutKidIs(ks, over[0]);
        MergeKidsIs(PutKid(ks, over[0]), over[1..]);
      }
    }
  }

  /** The main result: merge_nodes keeps unique names and the tombstone invariant, and its
      live view is the old live view, overridden; a deleted node counts as nothing. */
  lemma {:induction false} MergeIs(n: LiveNode, over: LiveNode)
    requires Valid(n) && Valid(over)
    ensures Valid(MergeNodes(n, over)) && !MergeNodes(n, over).deleted
    ensures ViewOf(MergeNodes(n, over)) == Override(ViewOf(n), over)
    ensures n.deleted ==> ViewOf(MergeNodes(n, over)) == ViewOf(over)
    decreases over, 2
  {
    MergePropsIs(n.props, over.props);
    MergeKidsIs(n.kids, over.kids);
    if n.deleted {
      GoneView(n);
      OverrideNothing(over);
    }
  }
}
