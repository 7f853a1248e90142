/** livetree.c and fdt_overlay.c together: every reference by label that the compiler leaves to the loader
    holds, after the loader's fixups, the phandle that the label stands for in the base. */
module LabelLinking {
  import opened Bytes
  import opened DeviceTree
  import opened Fdt
  import opened Lookup
  import opened Overlay
  import opened OverlayRefs
  import opened TreePaths
  import opened OverlayApply
  import opened OverlayKeeps
  import opened SymbolicFixups
  import opened LabelFixups
  import Fixups
  import Paths
  import P = LivePhandles
  import R = LiveReferences
  import LiveChecks
  import LivePaths

  // ---- generate_fixups_tree_internal ----

  /** The references of a property that mean no node. */
  ghost function LooseRefs(s: P.Shape, path: seq<byte>, name: seq<byte>, rs: seq<P.Ref>): seq<Labelled> {
    if rs == [] then []
    else
      (if P.ByRef(s, rs[0].target).None? then [Labelled(rs[0].target, Fixups.Entry(path, name, rs[0].off))] else []) +
      LooseRefs(s, path, name, rs[1..])
  }

  ghost function LooseProps(s: P.Shape, path: seq<byte>, ps: seq<P.Prop>): seq<Labelled> {
    if ps == [] then [] else LooseRefs(s, path, ps[0].name, ps[0].refs) + LooseProps(s, path, ps[1..])
  }

  /** Those of the given nodes. */
  ghost function Loose(s: P.Shape, props: seq<seq<P.Prop>>, ids: seq<nat>): seq<Labelled>
    requires forall i | 0 <= i < |ids| :: ids[i] < |props| && ids[i] in P.Ids(s)
  {
    if ids == [] then []
    else
      assert forall i | 0 <= i < |ids| - 1 :: ids[1..][i] == ids[i + 1];
      LooseProps(s, LivePaths.FullPath(s, ids[0]), props[ids[0]]) + Loose(s, props, ids[1..])
  }

  ghost predicate FromRef(s: P.Shape, path: seq<byte>, name: seq<byte>, rs: seq<P.Ref>, l: Labelled, k: nat) {
    k < |rs| && P.Dangling(s, rs[k].target) && l == Labelled(rs[k].target, Fixups.Entry(path, name, rs[k].off))
  }

  /** l is the k-th reference of the i-th property of a node with that path. */
  ghost predicate From(s: P.Shape, path: seq<byte>, ps: seq<P.Prop>, l: Labelled, i: nat, k: nat) {
    i < |ps| && FromRef(s, path, ps[i].name, ps[i].refs, l, k)
  }

  lemma {:induction false} LooseRefsIs(s: P.Shape, path: seq<byte>, name: seq<byte>, rs: seq<P.Ref>, l: Labelled)
    ensures l in LooseRefs(s, path, name, rs) <==> exists k: nat :: FromRef(s, path, name, rs, l, k)
    decreases |rs|
  {
    if rs != [] {
      LooseRefsIs(s, path, name, rs[1..], l);
      P.ByRefExact(s, rs[0].target);
      if k: nat :| FromRef(s, path, name, rs, l, k) {
        if k > 0 {
          assert FromRef(s, path, name, rs[1..], l, k - 1);
        }
      }
      if k: nat :| FromRef(s, path, name, rs[1..], l, k) {
        assert FromRef(s, path, name, rs, l, k + 1);
      }
      if P.ByRef(s, rs[0].target).None? && l == Labelled(rs[0].target, Fixups.Entry(path, name, rs[0].off)) {
        assert FromRef(s, path, name, rs, l, 0);
      }
    }
  }

  lemma {:induction false} LoosePropsIs(s: P.Shape, path: seq<byte>, ps: seq<P.Prop>, l: Labelled)
    ensures l in LooseProps(s, path, ps) <==> exists i: nat, k: nat :: From(s, path, ps, l, i, k)
    decreases |ps|
  {
    if ps != [] {
      LoosePropsIs(s, path, ps[1..], l);
      LooseRefsIs(s, path, ps[0].name, ps[0].refs, l);
      if i: nat, k: nat :| From(s, path, ps, l, i, k) {
        if i > 0 {
          assert From(s, path, ps[1..], l, i - 1, k);
        } else {
          assert FromRef(s, path, ps[0].name, ps[0].refs, l, k);
        }
      }
      if i: nat, k: nat :| From(s, path, ps[1..], l, i, k) {
        assert From(s, path, ps, l, i + 1, k);
      }
      if k: nat :| FromRef(s, path, ps[0].name, ps[0].refs, l, k) {
        assert From(s, path, ps, l, 0, k);
      }
    }
  }

  /** The references of the node of that number. */
  ghost predicate Of(s: P.Shape, props: seq<seq<P.Prop>>, id: nat, l: Labelled) {
    id < |props| && id in P.Ids(s) && exists i: nat, k: nat :: From(s, LivePaths.FullPath(s, id), props[id], l, i, k)
  }

  lemma {:induction false} LooseIs(s: P.Shape, props: seq<seq<P.Prop>>, ids: seq<nat>, l: Labelled)
    requires forall i | 0 <= i < |ids| :: ids[i] < |props| && ids[i] in P.Ids(s)
    ensures l in Loose(s, props, ids) <==> exists j :: 0 <= j < |ids| && Of(s, props, ids[j], l)
    decreases |ids|
  {
    if ids != [] {
      assert forall i | 0 <= i < |ids| - 1 :: ids[1..][i] == ids[i + 1];
      LooseIs(s, props, ids[1..], l);
      LoosePropsIs(s, LivePaths.FullPath(s, ids[0]), props[ids[0]], l);
      if j :| 0 <= j < |ids| - 1 && Of(s, props, ids[1..][j], l) {
        assert Of(s, props, ids[j + 1], l);
      }
      if j :| 0 <= j < |ids| && Of(s, props, ids[j], l) {
        if j > 0 {
          assert Of(s, props, ids[1..][j - 1], l);
        }
      }
    }
  }

  // ---- no two entries are for the same bytes ----

  predicate Overlap(a: Labelled, b: Labelled) {
    a.entry.path == b.entry.path && a.entry.name == b.entry.name && a.entry.off < b.entry.off + 4 &&
    b.entry.off < a.entry.off + 4
  }

  predicate Scattered(ls: seq<Labelled>) { forall i, j | 0 <= i < j < |ls| :: !Overlap(ls[i], ls[j]) }

  lemma {:induction false} ScatteredBoth(a: seq<Labelled>, b: seq<Labelled>)
    requires Scattered(a) && Scattered(b) && forall x, y | x in a && y in b :: !Overlap(x, y)
    ensures Scattered(a + b)
  {
    var c := a + b;
    forall i, j | 0 <= i < j < |c| ensures !Overlap(c[i], c[j]) {
      if i < |a| && j >= |a| {
        assert c[i] in a && c[j] in b;
      }
    }
  }

  predicate RefsApart(rs: seq<P.Ref>) { forall k, l | 0 <= k < l < |rs| :: R.Apart(rs[k], rs[l]) }

  lemma {:induction false} RefsScattered(s: P.Shape, path: seq<byte>, name: seq<byte>, rs: seq<P.Ref>)
    requires RefsApart(rs)
    ensures Scattered(LooseRefs(s, path, name, rs))
    decreases |rs|
  {
    if rs != [] {
      assert forall k, l | 0 <= k < l < |rs| - 1 :: rs[1..][k] == rs[k + 1] && rs[1..][l] == rs[l + 1];
      RefsScattered(s, path, name, rs[1..]);
      var head :=
        if P.ByRef(s, rs[0].target).None? then [Labelled(rs[0].target, Fixups.Entry(path, name, rs[0].off))] else [];
      forall x, y | x in head && y in LooseRefs(s, path, name, rs[1..]) ensures !Overlap(x, y) {
        LooseRefsIs(s, path, name, rs[1..], y);
        var k: nat :| FromRef(s, path, name, rs[1..], y, k);
        assert R.Apart(rs[0], rs[k + 1]);
      }
      ScatteredBoth(head, LooseRefs(s, path, name, rs[1..]));
    }
  }

  /** Property names are unique, and markers stand at cells of their values that do not overlap. */
  ghost predicate NodeFits(ps: seq<P.Prop>) {
    (forall i, j | 0 <= i < j < |ps| :: ps[i].name != ps[j].name) && forall i | 0 <= i < |ps| :: R.RefsFit(ps[i])
  }

  lemma {:induction false} PropsScattered(s: P.Shape, path: seq<byte>, ps: seq<P.Prop>)
    requires NodeFits(ps)
    ensures Scattered(LooseProps(s, path, ps))
    decreases |ps|
  {
    if ps != [] {
      assert forall i | 0 <= i < |ps| - 1 :: ps[1..][i] == ps[i + 1];
      PropsScattered(s, path, ps[1..]);
      R.RefsFitDef(ps[0]);
      RefsScattered(s, path, ps[0].name, ps[0].refs);
      forall x, y | x in LooseRefs(s, path, ps[0].name, ps[0].refs) && y in LooseProps(s, path, ps[1..])
        ensures !Overlap(x, y)
      {
        LooseRefsIs(s, path, ps[0].name, ps[0].refs, x);
        LoosePropsIs(s, path, ps[1..], y);
        var i: nat, k: nat :| From(s, path, ps[1..], y, i, k);
        assert ps[0].name != ps[i + 1].name;
      }
      ScatteredBoth(LooseRefs(s, path, ps[0].name, ps[0].refs), LooseProps(s, path, ps[1..]));
    }
  }

  /** The full path of a node is that of no other. */
  lemma {:induction false} PathOnce(s: P.Shape, a: nat, b: nat)
    requires s.name == [] && LivePaths.Plain(s) && a in P.Ids(s) && b in P.Ids(s)
    requires LivePaths.FullPath(s, a) == LivePaths.FullPath(s, b)
    ensures a == b
  {
    LivePaths.FullPathMeans(s, a);
    LivePaths.FullPathMeans(s, b);
    P.ByRefExact(s, LivePaths.FullPath(s, a));
  }

  lemma {:induction false} AllScattered(s: P.Shape, props: seq<seq<P.Prop>>, ids: seq<nat>)
    requires forall i | 0 <= i < |ids| :: ids[i] < |props| && ids[i] in P.Ids(s)
    requires forall i, j | 0 <= i < j < |ids| :: ids[i] != ids[j]
    requires s.name == [] && LivePaths.Plain(s) && forall x: nat | x < |props| :: NodeFits(props[x])
    ensures Scattered(Loose(s, props, ids))
    decreases |ids|
  {
    if ids != [] {
      assert forall i | 0 <= i < |ids| - 1 :: ids[1..][i] == ids[i + 1];
      AllScattered(s, props, ids[1..]);
      var path := LivePaths.FullPath(s, ids[0]);
      PropsScattered(s, path, props[ids[0]]);
      forall x, y | x in LooseProps(s, path, props[ids[0]]) && y in Loose(s, props, ids[1..]) ensures !Overlap(x, y) {
        LoosePropsIs(s, path, props[ids[0]], x);
        LooseIs(s, props, ids[1..], y);
        var j :| 0 <= j < |ids| - 1 && Of(s, props, ids[1..][j], y);
        if x.entry.path == y.entry.path {
          PathOnce(s, ids[0], ids[j + 1]);
        }
      }
      ScatteredBoth(LooseProps(s, path, props[ids[0]]), Loose(s, props, ids[1..]));
    }
  }

  lemma {:induction false} TwiceInside(ls: seq<Labelled>, x: Labelled) returns (i: nat, j: nat)
    requires multiset(ls)[x] >= 2
    ensures i < j < |ls| && ls[i] == x && ls[j] == x && Overlap(ls[i], ls[j])
    decreases |ls|
  {
    assert ls == [ls[0]] + ls[1..];
    assert multiset(ls) == multiset([ls[0]]) + multiset(ls[1..]);
    if ls[0] == x {
      assert x in multiset(ls[1..]);
      var k :| 0 <= k < |ls| - 1 && ls[1..][k] == x;
      i, j := 0, k + 1;
    } else {
      i, j := TwiceInside(ls[1..], x);
      i, j := i + 1, j + 1;
    }
  }

  lemma {:induction false} TwiceCounted(ls: seq<Labelled>, i: nat, j: nat)
    requires i < j < |ls| && ls[i] == ls[j]
    ensures multiset(ls)[ls[i]] >= 2
  {
    assert ls == ls[..j] + ls[j..];
    assert multiset(ls) == multiset(ls[..j]) + multiset(ls[j..]);
    assert ls[..j][i] == ls[i] && ls[j..][0] == ls[i];
    assert ls[i] in multiset(ls[..j]) && ls[i] in multiset(ls[j..]);
  }

  lemma {:induction false} NotTwice(ls: seq<Labelled>, x: Labelled)
    requires Scattered(ls)
    ensures multiset(ls)[x] < 2
  {
    if multiset(ls)[x] >= 2 {
      var a, b := TwiceInside(ls, x);
    }
  }

  /** In another order they are scattered as well. */
  lemma {:induction false} ScatteredAgain(ls: seq<Labelled>, es: seq<Labelled>)
    requires Scattered(ls) && multiset(es) == multiset(ls)
    ensures Scattered(es)
  {
    forall i, j | 0 <= i < j < |es| ensures !Overlap(es[i], es[j]) {
      if es[i] == es[j] {
        TwiceCounted(es, i, j);
        NotTwice(ls, es[i]);
      } else {
        assert es[i] in multiset(ls) && es[j] in multiset(ls);
        var a :| 0 <= a < |ls| && ls[a] == es[i];
        var b :| 0 <= b < |ls| && ls[b] == es[j];
        assert a < b ==> !Overlap(ls[a], ls[b]);
        assert b < a ==> !Overlap(ls[b], ls[a]);
      }
    }
  }

  // ---- the compiled tree ----

  /** The tree with the list of references that are left. */
  ghost function Compiled(s: P.Shape, props: seq<seq<P.Prop>>): Tree
    requires P.Numbered(s, |props|)
  {
    P.NumberedDef(s, |props|);
    var t := LiveChecks.Build(s, props);
    t.(kids := t.kids + [Tree(FIXUPS, Collect([], Loose(s, props, P.Ids(s))), [])])
  }

  /** No earlier sibling, of the node or of one above it, is called as it is. */
  ghost predicate FirstCalled(s: P.Shape, p: seq<nat>)
    decreases |p|
  {
    p == [] ||
    (p[0] < |s.kids| && (forall j | 0 <= j < p[0] :: !Called(s.kids[j].name, s.kids[p[0]].name)) &&
     FirstCalled(s.kids[p[0]], p[1..]))
  }

  lemma {:induction false} BuiltKid(ss: seq<P.Shape>, props: seq<seq<P.Prop>>, i: nat)
    requires LiveChecks.Below(P.IdsOf(ss), |props|)
    ensures |LiveChecks.BuildAll(ss, props)| == |ss|
    ensures i < |ss| ==> LiveChecks.Below(P.Ids(ss[i]), |props|)
    ensures i < |ss| ==> LiveChecks.BuildAll(ss, props)[i] == LiveChecks.Build(ss[i], props)
    decreases |ss|
  {
    if ss != [] {
      LiveChecks.BelowParts(P.Ids(ss[0]), P.IdsOf(ss[1..]), |props|);
      BuiltKid(ss[1..], props, if i > 0 then i - 1 else 0);
    }
  }

  /** The node at p of t is that of the shape, and the names on the way are the same. */
  ghost predicate Mirrors(s: P.Shape, props: seq<seq<P.Prop>>, t: Tree, p: seq<nat>) {
    P.At(s, p).Some? && P.At(s, p).value.id < |props| && Follow(t, p).Some? &&
    Follow(t, p).value.props == P.Strip(props[P.At(s, p).value.id]) &&
    Paths.NamesTo(t, p) == Some(LivePaths.Way(s, p)) && (FirstCalled(s, p) ==> Paths.Resolvable(t, p))
  }

  lemma {:induction false} BuiltMirrors(s: P.Shape, props: seq<seq<P.Prop>>, p: seq<nat>)
    requires LiveChecks.Below(P.Ids(s), |props|) && P.At(s, p).Some? && LivePaths.Plain(s)
    ensures Mirrors(s, props, LiveChecks.Build(s, props), p)
    decreases |p|
  {
    LiveChecks.BelowParts([s.id], P.IdsOf(s.kids), |props|);
    assert P.Ids(s)[0] == s.id;
    if p != [] {
      var kid := s.kids[p[0]];
      BuiltKid(s.kids, props, p[0]);
      BuiltMirrors(kid, props, p[1..]);
      forall i | 0 <= i < |s.kids| ensures LiveChecks.Build(s, props).kids[i].name == s.kids[i].name {
        BuiltKid(s.kids, props, i);
      }
      KidMirrors(s, props, LiveChecks.Build(s, props), p);
    }
  }

  /** One step up; children further back do not matter. */
  lemma {:induction false} KidMirrors(s: P.Shape, props: seq<seq<P.Prop>>, t: Tree, p: seq<nat>)
    requires p != [] && p[0] < |s.kids| <= |t.kids| && LivePaths.Plain(s)
    requires Mirrors(s.kids[p[0]], props, t.kids[p[0]], p[1..])
    requires forall i | 0 <= i < |s.kids| :: t.kids[i].name == s.kids[i].name
    ensures Mirrors(s, props, t, p)
  {
    var names := LivePaths.Way(s, p);
    assert names == [s.kids[p[0]].name] + LivePaths.Way(s.kids[p[0]], p[1..]);
    if FirstCalled(s, p) {
      forall j | 0 <= j < p[0] ensures !NodeNameEq(t.kids[j].name, t.kids[p[0]].name) {
        NodeNameIs(t.kids[j].name, t.kids[p[0]].name);
      }
    }
  }

  lemma {:induction false} CompiledMirrors(s: P.Shape, props: seq<seq<P.Prop>>, p: seq<nat>)
    requires P.Numbered(s, |props|) && P.At(s, p).Some? && LivePaths.Plain(s)
    ensures Mirrors(s, props, Compiled(s, props), p)
  {
    P.NumberedDef(s, |props|);
    BuiltMirrors(s, props, p);
    if p != [] {
      LiveChecks.BelowParts([s.id], P.IdsOf(s.kids), |props|);
      BuiltKid(s.kids, props, p[0]);
      BuiltMirrors(s.kids[p[0]], props, p[1..]);
      forall i | 0 <= i < |s.kids| ensures Compiled(s, props).kids[i].name == s.kids[i].name {
        BuiltKid(s.kids, props, i);
      }
      KidMirrors(s, props, Compiled(s, props), p);
    }
  }

  lemma {:induction false} SameText(names: seq<seq<byte>>)
    ensures LivePaths.Joined(names) == Paths.FullPath(names)
    decreases |names|
  {
    if names != [] {
      SameText(names[1..]);
      if |names| == 1 {
        assert names[1..] == [];
        assert Paths.PathText([]) == [];
        assert [P.SLASH] + names[0] + [] == [P.SLASH] + names[0];
      }
    }
  }

  // ---- numbers and places ----

  predicate NoTwo(ids: seq<nat>) { forall i, j | 0 <= i < j < |ids| :: ids[i] != ids[j] }

  lemma {:induction false} NoTwoParts(a: seq<nat>, b: seq<nat>)
    requires NoTwo(a + b)
    ensures NoTwo(a) && NoTwo(b) && forall x | x in a :: x !in b
  {
    var c := a + b;
    assert forall i | 0 <= i < |a| :: c[i] == a[i];
    assert forall i | 0 <= i < |b| :: c[|a| + i] == b[i];
    forall x | x in a ensures x !in b {
      var i :| 0 <= i < |a| && a[i] == x;
      assert c[i] == x;
    }
  }

  lemma {:induction false} NumberInside(s: P.Shape, p: seq<nat>)
    requires P.At(s, p).Some?
    ensures P.At(s, p).value.id in P.Ids(s)
    decreases |p|
  {
    if p != [] {
      NumberInside(s.kids[p[0]], p[1..]);
      P.KidId(s.kids, p[0], P.At(s, p).value.id);
    }
  }

  lemma {:induction false} KidOnce(ss: seq<P.Shape>, i: nat, j: nat, id: nat)
    requires NoTwo(P.IdsOf(ss)) && i < |ss| && j < |ss| && id in P.Ids(ss[i]) && id in P.Ids(ss[j])
    ensures i == j && NoTwo(P.Ids(ss[i]))
    decreases |ss|
  {
    NoTwoParts(P.Ids(ss[0]), P.IdsOf(ss[1..]));
    if i > 0 && j > 0 {
      KidOnce(ss[1..], i - 1, j - 1, id);
    } else if i > 0 {
      P.KidId(ss[1..], i - 1, id);
    } else if j > 0 {
      P.KidId(ss[1..], j - 1, id);
    }
  }

  /** A number is that of one place. */
  lemma {:induction false} PlaceOnce(s: P.Shape, p: seq<nat>, q: seq<nat>)
    requires NoTwo(P.Ids(s)) && P.At(s, p).Some? && P.At(s, q).Some? && P.At(s, p).value.id == P.At(s, q).value.id
    ensures p == q
    decreases |p|
  {
    NoTwoParts([s.id], P.IdsOf(s.kids));
    if p != [] {
      NumberInside(s.kids[p[0]], p[1..]);
      P.KidId(s.kids, p[0], P.At(s, p).value.id);
    }
    if q != [] {
      NumberInside(s.kids[q[0]], q[1..]);
      P.KidId(s.kids, q[0], P.At(s, q).value.id);
    }
    if p != [] && q != [] {
      KidOnce(s.kids, p[0], q[0], P.At(s, p).value.id);
      PlaceOnce(s.kids[p[0]], p[1..], q[1..]);
      assert p == [p[0]] + p[1..] && q == [q[0]] + q[1..];
    }
  }

  // ---- the loader on the compiled tree ----

  /** What the compiler ensures: names and markers as the parser and the checks leave them, no text with
      a colon, and no node at the top called "__fixups__".  Nodes with references that are left must be
      found by the loader: no earlier sibling, of them or of a node above them, is called as they are. */
  ghost predicate WellLinked(s: P.Shape, props: seq<seq<P.Prop>>) {
    P.Numbered(s, |props|) && s.name == [] && LivePaths.Plain(s) &&
    (forall x: nat | x < |props| :: NodeFits(props[x])) &&
    (forall x: nat, i | x < |props| && 0 <= i < |props[x]| :: |props[x][i].val| < 0x1_0000_0000) &&
    (forall i | 0 <= i < |s.kids| :: !Called(s.kids[i].name, FIXUPS)) &&
    (forall x: nat, l | Of(s, props, x, l) :: Fixups.Clean(l.entry)) &&
    forall p, l | P.At(s, p).Some? && Of(s, props, P.At(s, p).value.id, l) :: FirstCalled(s, p)
  }

  /** The tree as the loader has it when it comes to the fixups: values may have changed, but for the
      list itself. */
  ghost predicate Loaded(s: P.Shape, props: seq<seq<P.Prop>>, u: Tree)
    requires P.Numbered(s, |props|)
  {
    var c := Compiled(s, props);
    Like(c, u, false) && |u.kids| == |c.kids| && u.kids[|u.kids| - 1] == c.kids[|c.kids| - 1]
  }

  lemma {:induction false} AllLoose(s: P.Shape, props: seq<seq<P.Prop>>, l: Labelled)
    requires P.Numbered(s, |props|)
    ensures forall i | 0 <= i < |P.Ids(s)| :: P.Ids(s)[i] < |props| && P.Ids(s)[i] in P.Ids(s)
    ensures l in Loose(s, props, P.Ids(s)) <==> exists x: nat :: Of(s, props, x, l)
  {
    P.NumberedDef(s, |props|);
    LooseIs(s, props, P.Ids(s), l);
    if x: nat :| Of(s, props, x, l) {
      var j :| 0 <= j < |P.Ids(s)| && P.Ids(s)[j] == x;
      assert Of(s, props, P.Ids(s)[j], l);
    }
  }

  /** What is left, as one list. */
  lemma {:induction false} LooseList(s: P.Shape, props: seq<seq<P.Prop>>) returns (ls: seq<Labelled>)
    requires WellLinked(s, props)
    ensures forall i | 0 <= i < |P.Ids(s)| :: P.Ids(s)[i] < |props| && P.Ids(s)[i] in P.Ids(s)
    ensures ls == Loose(s, props, P.Ids(s)) && AllClean(ls) && Scattered(ls)
    ensures forall l :: l in ls <==> exists x: nat :: Of(s, props, x, l)
  {
    P.NumberedDef(s, |props|);
    AllScattered(s, props, P.Ids(s));
    ls := Loose(s, props, P.Ids(s));
    forall l ensures l in ls <==> exists x: nat :: Of(s, props, x, l) {
      AllLoose(s, props, l);
    }
    forall i | 0 <= i < |ls| ensures Fixups.Clean(ls[i].entry) {
      assert ls[i] in ls;
    }
  }

  /** The loader reads the references that are left, in some order, and none of them for the same bytes
      as another. */
  lemma {:induction false} LoadedList(s: P.Shape, props: seq<seq<P.Prop>>, u: Tree)
    requires WellLinked(s, props) && Loaded(s, props, u)
    ensures Match(u.kids, FIXUPS).Some? && Entries(u.kids[Match(u.kids, FIXUPS).value].props).Some?
    ensures Scattered(FixupsOf(u)) && forall l :: l in FixupsOf(u) <==> exists x: nat :: Of(s, props, x, l)
  {
    var ls := LooseList(s, props);
    CollectedRead(ls);
    FixupsLast(s, props, u);
    ScatteredAgain(ls, FixupsOf(u));
    SameMembers(FixupsOf(u), ls);
  }

  lemma {:induction false} SameMembers(a: seq<Labelled>, b: seq<Labelled>)
    requires multiset(a) == multiset(b)
    ensures forall l :: l in a <==> l in b
  {
    forall l ensures l in a <==> l in b {
      assert l in multiset(a) <==> l in multiset(b);
    }
  }

  lemma {:induction false} SameKidName(t: Tree, u: Tree, i: nat)
    requires Like(t, u, false) && i < |t.kids|
    ensures i < |u.kids| && u.kids[i].name == t.kids[i].name
  {
    LikeFollow(t, u, [i], false);
    assert [i][1..] == [];
  }

  lemma {:induction false} CompiledKids(s: P.Shape, props: seq<seq<P.Prop>>)
    requires P.Numbered(s, |props|)
    ensures forall i | 0 <= i < |P.Ids(s)| :: P.Ids(s)[i] < |props| && P.Ids(s)[i] in P.Ids(s)
    ensures var ks := Compiled(s, props).kids;
            |ks| == |s.kids| + 1 && ks[|s.kids|] == Tree(FIXUPS, Collect([], Loose(s, props, P.Ids(s))), []) &&
            forall i | 0 <= i < |s.kids| :: ks[i].name == s.kids[i].name
  {
    P.NumberedDef(s, |props|);
    assert LiveChecks.Below(P.Ids(s), |props|);
    LiveChecks.BelowParts([s.id], P.IdsOf(s.kids), |props|);
    BuiltKid(s.kids, props, 0);
    forall i | 0 <= i < |s.kids| ensures Compiled(s, props).kids[i].name == s.kids[i].name {
      BuiltKid(s.kids, props, i);
    }
  }

  lemma {:induction false} LastFound(ks: seq<Tree>, n: nat, name: seq<byte>)
    requires |ks| == n + 1 && ks[n].name == name && forall i | 0 <= i < n :: !Called(ks[i].name, name)
    ensures Match(ks, name) == Some(n)
  {
    MatchIs(ks, name);
    assert Called(ks[n].name, name);
  }

  lemma {:induction false} FixupsLast(s: P.Shape, props: seq<seq<P.Prop>>, u: Tree)
    requires P.Numbered(s, |props|) && Loaded(s, props, u)
    requires forall i | 0 <= i < |s.kids| :: !Called(s.kids[i].name, FIXUPS)
    ensures Match(u.kids, FIXUPS) == Some(|s.kids|) && |u.kids| == |s.kids| + 1
    ensures forall i | 0 <= i < |P.Ids(s)| :: P.Ids(s)[i] < |props| && P.Ids(s)[i] in P.Ids(s)
    ensures u.kids[|s.kids|].props == Collect([], Loose(s, props, P.Ids(s)))
  {
    CompiledKids(s, props);
    var c := Compiled(s, props);
    forall i | 0 <= i < |s.kids| ensures !Called(u.kids[i].name, FIXUPS) {
      SameKidName(c, u, i);
    }
    LastFound(u.kids, |s.kids|, FIXUPS);
  }

  /** The entry of a reference that is left leads to the place of its node. */
  lemma {:induction false} LeadsBack(s: P.Shape, props: seq<seq<P.Prop>>, u: Tree, l: Labelled, id: nat)
    returns (p: seq<nat>)
    requires WellLinked(s, props) && Loaded(s, props, u) && Of(s, props, id, l)
    ensures P.At(s, p).Some? && P.At(s, p).value.id == id && l.entry.path == LivePaths.FullPath(s, id)
    ensures FindPath(u, l.entry.path) == Ok(p) && Mirrors(s, props, Compiled(s, props), p)
  {
    var i: nat, k: nat :| From(s, LivePaths.FullPath(s, id), props[id], l, i, k);
    LivePaths.FullPathMeans(s, id);
    p :| P.At(s, p).Some? && P.At(s, p).value.id == id &&
      LivePaths.FullPath(s, id) == LivePaths.Joined(LivePaths.Way(s, p));
    CompiledMirrors(s, props, p);
    SameText(LivePaths.Way(s, p));
    FindPathIs(Compiled(s, props), p);
    LikeFindPath(Compiled(s, props), u, l.entry.path);
  }

  /** Its cell is there. */
  lemma {:induction false} Stands(s: P.Shape, props: seq<seq<P.Prop>>, u: Tree, l: Labelled, id: nat)
    requires WellLinked(s, props) && Loaded(s, props, u) && Of(s, props, id, l)
    ensures Standing(u, l) && Offset32(l.entry.off) == l.entry.off
  {
    var i: nat, k: nat :| From(s, LivePaths.FullPath(s, id), props[id], l, i, k);
    var p := LeadsBack(s, props, u, l, id);
    var ps := props[id];
    FirstNamed(ps, i);
    P.StripValue(ps, ps[i].name);
    R.RefsFitDef(ps[i]);
    assert R.RefsFit(ps[i]) && R.RefFits(ps[i], ps[i].refs[k]);
    U32Small(l.entry.off);
    LikeFindPath(Compiled(s, props), u, l.entry.path);
    StandingLike(Compiled(s, props), u, l);
  }

  lemma {:induction false} FirstNamed(ps: seq<P.Prop>, i: nat)
    requires i < |ps| && forall a, b | 0 <= a < b < |ps| :: ps[a].name != ps[b].name
    ensures P.Find(ps, ps[i].name) == Some(i)
  {
    P.FindFirst(ps, ps[i].name);
    assert forall a | 0 <= a < i :: ps[a].name != ps[i].name;
  }

  /** The main result on references by label, compiler and loader together.  The loader's fixups succeed
      iff every label that the compiler has left stands for a phandle of the base; and then every cell
      with a reference to such a label holds this phandle. */
  lemma {:induction false} LabelsResolved(s: P.Shape, props: seq<seq<P.Prop>>, base: Tree, u: Tree)
    requires WellLinked(s, props) && Loaded(s, props, u)
    ensures FixAll(base, u).Ok? <==> forall x: nat, l | Of(s, props, x, l) :: SymbolPhandle(base, l.symbol).Ok?
    ensures forall p, l | FixAll(base, u).Ok? && P.At(s, p).Some? && Of(s, props, P.At(s, p).value.id, l) ::
              SymbolPhandle(base, l.symbol).Ok? &&
              CellIs(FixAll(base, u).value, p, l.entry.name, l.entry.off, SymbolPhandle(base, l.symbol).value)
  {
    LoadedList(s, props, u);
    var es := FixupsOf(u);
    PropsFix(base, u, u.kids[Match(u.kids, FIXUPS).value].props);
    forall i | 0 <= i < |es| ensures Standing(u, es[i]) {
      assert es[i] in es;
      var x: nat :| Of(s, props, x, es[i]);
      Stands(s, props, u, es[i], x);
    }
    ListSucceeds(base, u, es);
    SuccessOf(s, props, base, es);
    forall p, l | FixAll(base, u).Ok? && P.At(s, p).Some? && Of(s, props, P.At(s, p).value.id, l)
      ensures SymbolPhandle(base, l.symbol).Ok? &&
              CellIs(FixAll(base, u).value, p, l.entry.name, l.entry.off, SymbolPhandle(base, l.symbol).value)
    {
      LabelResolved(s, props, base, u, p, l);
    }
  }

  lemma {:induction false} SuccessOf(s: P.Shape, props: seq<seq<P.Prop>>, base: Tree, es: seq<Labelled>)
    requires forall l :: l in es <==> exists x: nat :: Of(s, props, x, l)
    ensures (forall i | 0 <= i < |es| :: SymbolPhandle(base, es[i].symbol).Ok?) <==>
            forall x: nat, l | Of(s, props, x, l) :: SymbolPhandle(base, l.symbol).Ok?
  {
    if forall i | 0 <= i < |es| :: SymbolPhandle(base, es[i].symbol).Ok? {
      forall x: nat, l | Of(s, props, x, l) ensures SymbolPhandle(base, l.symbol).Ok? {
        assert l in es;
      }
    }
    if forall x: nat, l | Of(s, props, x, l) :: SymbolPhandle(base, l.symbol).Ok? {
      forall i | 0 <= i < |es| ensures SymbolPhandle(base, es[i].symbol).Ok? {
        assert es[i] in es;
        var x: nat :| Of(s, props, x, es[i]);
      }
    }
  }

  lemma {:induction false} LabelResolved(s: P.Shape, props: seq<seq<P.Prop>>, base: Tree, u: Tree, p: seq<nat>,
    l: Labelled)
    requires WellLinked(s, props) && Loaded(s, props, u) && FixAll(base, u).Ok?
    requires P.At(s, p).Some? && Of(s, props, P.At(s, p).value.id, l)
    ensures SymbolPhandle(base, l.symbol).Ok?
    ensures CellIs(FixAll(base, u).value, p, l.entry.name, l.entry.off, SymbolPhandle(base, l.symbol).value)
  {
    LoadedList(s, props, u);
    FixupsHold(base, u);
    var es, id := FixupsOf(u), P.At(s, p).value.id;
    assert l in es;
    var a :| 0 <= a < |es| && es[a] == l;
    var q := LeadsBack(s, props, u, l, id);
    Stands(s, props, u, l, id);
    P.NumberedDef(s, |props|);
    PlaceOnce(s, p, q);
    NotAgain(s, props, u, p, a);
  }

  /** No later entry is for the same bytes. */
  lemma {:induction false} NotAgain(s: P.Shape, props: seq<seq<P.Prop>>, u: Tree, p: seq<nat>, a: nat)
    requires WellLinked(s, props) && Loaded(s, props, u) && a < |FixupsOf(u)| && P.At(s, p).Some?
    requires Of(s, props, P.At(s, p).value.id, FixupsOf(u)[a])
    ensures !Touched(u, FixupsOf(u)[a + 1..], p, FixupsOf(u)[a].entry.name, FixupsOf(u)[a].entry.off)
  {
    var x := FixupsOf(u)[a];
    forall b | a < b < |FixupsOf(u)| ensures !Touches(u, FixupsOf(u)[b], p, x.entry.name, x.entry.off) {
      OtherBytes(s, props, u, p, a, b);
    }
    NoneTouches(u, FixupsOf(u), a, p, x.entry.name, x.entry.off);
  }

  lemma {:induction false} NoneTouches(u: Tree, es: seq<Labelled>, a: nat, p: seq<nat>, name: seq<byte>, o: int)
    requires a < |es| && forall b | a < b < |es| :: !Touches(u, es[b], p, name, o)
    ensures !Touched(u, es[a + 1..], p, name, o)
  {
    var rest := es[a + 1..];
    assert forall j | 0 <= j < |rest| :: rest[j] == es[a + 1 + j];
  }

  lemma {:induction false} OtherBytes(s: P.Shape, props: seq<seq<P.Prop>>, u: Tree, p: seq<nat>, a: nat, b: nat)
    requires WellLinked(s, props) && Loaded(s, props, u) && a < b < |FixupsOf(u)| && P.At(s, p).Some?
    requires Of(s, props, P.At(s, p).value.id, FixupsOf(u)[a])
    ensures !Touches(u, FixupsOf(u)[b], p, FixupsOf(u)[a].entry.name, FixupsOf(u)[a].entry.off)
  {
    LoadedList(s, props, u);
    var x, y := FixupsOf(u)[a], FixupsOf(u)[b];
    assert y in FixupsOf(u);
    var id: nat :| Of(s, props, id, y);
    var p' := LeadsBack(s, props, u, x, P.At(s, p).value.id);
    var q := LeadsBack(s, props, u, y, id);
    Stands(s, props, u, y, id);
    assert !Overlap(x, y);
  }
}
