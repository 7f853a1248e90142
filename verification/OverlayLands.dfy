/** fdt_overlay.c: where the nodes of an overlay are after the merge, and what is there. */
module OverlayLands {
  import opened Bytes
  import opened DeviceTree
  import opened Lookup
  import opened Overlay
  import opened OverlayRefs
  import opened TreePaths
  import opened OverlayApply
  import opened OverlayDistinct
  import opened OverlayImages
  import opened OverlayKeeps
  import opened SymbolicFixups

  // ---- one merge ----

  /** The path, in the merged tree, of the node that the overlay node at r is applied to. */
  function LandIn(t: Tree, over: Tree, r: seq<nat>): seq<nat>
    decreases over, 1
  {
    if r == [] then [] else LandKids(t.kids, over.kids, r)
  }

  function LandKids(ks: seq<Tree>, os: seq<Tree>, r: seq<nat>): seq<nat>
    decreases os, 0
  {
    if os == [] || r == [] then []
    else
      var ks1 := MergeOne(ks, os[0]);
      if r[0] == 0 then ImageKids(ks1, os[1..], LandOne(ks, os[0], r[1..]))
      else LandKids(ks1, os[1..], [r[0] - 1] + r[1..])
  }

  function LandOne(ks: seq<Tree>, o: Tree, r: seq<nat>): seq<nat>
    decreases o, 2
  {
    var m := Match(ks, o.name);
    if m.Some? then [m.value] + LandIn(ks[m.value], o, r) else [0] + LandIn(Tree(o.name, [], []), o, r)
  }

  /** No overlay node that comes later lands on the same node and has the property. */
  predicate Lasts(t: Tree, over: Tree, r: seq<nat>, name: seq<byte>)
    decreases over, 1
  {
    r == [] || LastsKids(t.kids, over.kids, r, name)
  }

  predicate LastsKids(ks: seq<Tree>, os: seq<Tree>, r: seq<nat>, name: seq<byte>)
    decreases os, 0
  {
    if os == [] || r == [] then true
    else
      var ks1 := MergeOne(ks, os[0]);
      if r[0] == 0 then
        LastsOne(ks, os[0], r[1..], name) && SparedKids(ks1, os[1..], LandOne(ks, os[0], r[1..]), name)
      else LastsKids(ks1, os[1..], [r[0] - 1] + r[1..], name)
  }

  predicate LastsOne(ks: seq<Tree>, o: Tree, r: seq<nat>, name: seq<byte>)
    decreases o, 2
  {
    var m := Match(ks, o.name);
    Lasts(if m.Some? then ks[m.value] else Tree(o.name, [], []), o, r, name)
  }

  /** n is the node that o was applied to: what o says of the property holds, if nothing later says
      otherwise, and, but for the target itself, n is called as o is. */
  ghost predicate Landed(n: Option<Tree>, o: Tree, name: seq<byte>, lasts: bool, below: bool) {
    n.Some? && (below ==> Called(n.value.name, o.name)) &&
    (lasts && Last(o.props, name).Some? ==> Value(n.value.props, name) == Last(o.props, name))
  }

  lemma {:induction false} LandedTrans(n: Option<Tree>, n': Option<Tree>, o: Tree, name: seq<byte>, a: bool, b: bool,
    below: bool)
    requires Landed(n, o, name, a, below) && Became(n.value, n', name, b, false)
    ensures Landed(n', o, name, a && b, below)
  {
  }

  /** Every node of the overlay is applied to some node of the merged tree. */
  lemma {:induction false} LandIs(t: Tree, over: Tree, r: seq<nat>, name: seq<byte>)
    requires Follow(over, r).Some?
    ensures Landed(Follow(Merge(t, over), LandIn(t, over, r)), Follow(over, r).value, name, Lasts(t, over, r, name),
              r != [])
    decreases over, 1
  {
    if r == [] {
      ValueWithProps(t.props, over.props, name);
    } else {
      LandKidsIs(t.kids, over.kids, r, name);
      AmongFollow(Merge(t, over), LandKids(t.kids, over.kids, r));
      AmongFollow(over, r);
    }
  }

  lemma {:induction false} LandKidsIs(ks: seq<Tree>, os: seq<Tree>, r: seq<nat>, name: seq<byte>)
    requires Among(os, r).Some?
    ensures LandKids(ks, os, r) != []
    ensures Landed(Among(MergeKids(ks, os), LandKids(ks, os, r)), Among(os, r).value, name, LastsKids(ks, os, r, name),
              true)
    decreases os, 0
  {
    var ks1 := MergeOne(ks, os[0]);
    if r[0] == 0 {
      LandOneIs(ks, os[0], r[1..], name);
      var l := LandOne(ks, os[0], r[1..]);
      KidsBecame(ks1, os[1..], l, name, false);
      LandedTrans(Among(ks1, l), Among(MergeKids(ks, os), LandKids(ks, os, r)), Among(os, r).value, name,
        LastsOne(ks, os[0], r[1..], name), SparedKids(ks1, os[1..], l, name), true);
    } else {
      var r' := [r[0] - 1] + r[1..];
      assert r'[1..] == r[1..] && os[1..][r[0] - 1] == os[r[0]];
      LandKidsIs(ks1, os[1..], r', name);
    }
  }

  lemma {:induction false} LandOneIs(ks: seq<Tree>, o: Tree, r: seq<nat>, name: seq<byte>)
    requires Follow(o, r).Some?
    ensures LandOne(ks, o, r) != []
    ensures Landed(Among(MergeOne(ks, o), LandOne(ks, o, r)), Follow(o, r).value, name, LastsOne(ks, o, r, name), true)
    decreases o, 2
  {
    var m := Match(ks, o.name);
    MatchIs(ks, o.name);
    var k := if m.Some? then ks[m.value] else Tree(o.name, [], []);
    var i := if m.Some? then m.value else 0;
    LandIs(k, o, r, name);
    var l := LandIn(k, o, r);
    assert ([i] + l)[1..] == l && MergeOne(ks, o)[i] == Merge(k, o);
  }

  // ---- children land on children ----

  lemma {:induction false} LandPrefix(t: Tree, over: Tree, r: seq<nat>, n: nat)
    requires Follow(over, r).Some? && n <= |r|
    ensures Prefixes(r, LandIn(t, over, r), n, LandIn(t, over, r[..n]))
    decreases over, 1
  {
    if r != [] {
      AmongFollow(over, r);
      LandKidsPrefix(t.kids, over.kids, r, n);
      if n == 0 {
        assert r[..0] == [];
      }
    }
  }

  lemma {:induction false} LandKidsPrefix(ks: seq<Tree>, os: seq<Tree>, r: seq<nat>, n: nat)
    requires Among(os, r).Some? && n <= |r|
    ensures Prefixes(r, LandKids(ks, os, r), n, LandKids(ks, os, r[..n]))
    decreases os, 0
  {
    var ks1 := MergeOne(ks, os[0]);
    if n > 0 {
      assert r[..n][0] == r[0] && r[..n][1..] == r[1..][..n - 1];
    }
    if r[0] == 0 {
      var l := LandOne(ks, os[0], r[1..]);
      LandOnePrefix(ks, os[0], r[1..], if n > 0 then n - 1 else 0);
      ImageKidsPrefix(ks1, os[1..], l, n);
    } else {
      var r' := [r[0] - 1] + r[1..];
      assert r'[1..] == r[1..] && os[1..][r[0] - 1] == os[r[0]];
      LandKidsPrefix(ks1, os[1..], r', n);
      if n > 0 {
        ConsPrefix(r[0] - 1, r[1..], n);
      }
    }
  }

  lemma {:induction false} LandOnePrefix(ks: seq<Tree>, o: Tree, r: seq<nat>, n: nat)
    requires Follow(o, r).Some? && n <= |r|
    ensures var l := LandOne(ks, o, r); |l| == |r| + 1 && l[..n + 1] == LandOne(ks, o, r[..n])
    decreases o, 2
  {
    var m := Match(ks, o.name);
    var k := if m.Some? then ks[m.value] else Tree(o.name, [], []);
    LandPrefix(k, o, r, n);
    ConsPrefix(if m.Some? then m.value else 0, LandIn(k, o, r), n + 1);
  }

  // ---- fragments ----

  lemma {:induction false} FollowGraft(t: Tree, q: seq<nat>, x: Tree, l: seq<nat>)
    requires Follow(t, q).Some?
    ensures Follow(Graft(t, q, x), q + l) == Follow(x, l)
    decreases |q|
  {
    if q == [] {
      assert q + l == l;
    } else {
      assert (q + l)[1..] == q[1..] + l;
      FollowGraft(t.kids[q[0]], q[1..], x, l);
    }
  }

  /** The base as the k-th fragment finds it. */
  ghost function Halfway(base: Tree, fs: seq<Tree>, k: nat): Tree
    requires k <= |fs|
    decreases k
  {
    if k == 0 then base
    else if Part(fs[0]).None? || Target(base, fs[0]).Err? then Halfway(base, fs[1..], k - 1)
    else Halfway(MergeAt(base, fs[0]), fs[1..], k - 1)
  }

  lemma {:induction false} BeforeMerges(base: Tree, fs: seq<Tree>, k: nat)
    requires k <= |fs| && MergeFragments(base, fs).Ok?
    ensures MergeFragments(Halfway(base, fs, k), fs[k..]) == MergeFragments(base, fs)
    decreases k
  {
    if k == 0 {
      assert fs[0..] == fs;
    } else {
      assert fs[1..][k - 1..] == fs[k..];
      BeforeMerges(if Part(fs[0]).None? then base else MergeAt(base, fs[0]), fs[1..], k - 1);
    }
  }

  /** The path, after all fragments, of the node that the overlay node at r in the fragment at k is
      applied to, when the fragment's target is at q. */
  ghost function LandAll(base: Tree, fs: seq<Tree>, k: nat, q: seq<nat>, r: seq<nat>): seq<nat>
    requires k < |fs| && Part(fs[k]).Some? && Target(Halfway(base, fs, k), fs[k]) == Ok(q)
  {
    var b := Halfway(base, fs, k);
    TargetFollows(b, fs[k]);
    ImageAll(MergeAt(b, fs[k]), fs[k + 1..], q + LandIn(Follow(b, q).value, Part(fs[k]).value, r))
  }

  /** Nothing later sets the property of that node. */
  ghost predicate LastsAll(base: Tree, fs: seq<Tree>, k: nat, q: seq<nat>, r: seq<nat>, name: seq<byte>)
    requires k < |fs| && Part(fs[k]).Some? && Target(Halfway(base, fs, k), fs[k]) == Ok(q)
  {
    var b := Halfway(base, fs, k);
    TargetFollows(b, fs[k]);
    var over := Part(fs[k]).value;
    Lasts(Follow(b, q).value, over, r, name) &&
    SparedAll(MergeAt(b, fs[k]), fs[k + 1..], q + LandIn(Follow(b, q).value, over, r), name)
  }

  /** The main result on what an overlay does.  Every fragment with an __overlay__ node has a target,
      the node that its "target" or "target-path" means in the base as it is by then; after all
      fragments, each node below __overlay__ has a node that it was applied to, which was the target
      for __overlay__ itself and is called as the overlay node is for all others, and that node holds
      what the overlay node says, unless something later says otherwise. */
  lemma {:induction false} OverlayLands(base: Tree, over: Tree, k: nat, r: seq<nat>, name: seq<byte>)
    requires Apply(base, over).Ok?
    requires var fs := Prepared(base, over).value.kids;
             k < |fs| && Part(fs[k]).Some? && Follow(Part(fs[k]).value, r).Some?
    ensures var fs := Prepared(base, over).value.kids;
            var b := Halfway(base, fs, k);
            Target(b, fs[k]).Ok? && Aims(b, fs[k], Target(b, fs[k]).value)
    ensures var fs := Prepared(base, over).value.kids;
            var q := Target(Halfway(base, fs, k), fs[k]).value;
            Landed(Follow(Apply(base, over).value, LandAll(base, fs, k, q, r)), Follow(Part(fs[k]).value, r).value,
              name, LastsAll(base, fs, k, q, r, name), r != [])
  {
    var fs := Prepared(base, over).value.kids;
    var b := Halfway(base, fs, k);
    BeforeMerges(base, fs, k);
    var rest := fs[k..];
    assert rest[0] == fs[k] && rest[1..] == fs[k + 1..];
    var q, o := Target(b, fs[k]).value, Part(fs[k]).value;
    TargetIs(b, fs[k], q);
    TargetFollows(b, fs[k]);
    var t := Follow(b, q).value;
    LandIs(t, o, r, name);
    FollowGraft(b, q, Merge(t, o), LandIn(t, o, r));
    var l, b1 := q + LandIn(t, o, r), MergeAt(b, fs[k]);
    BaseBecame(b1, fs[k + 1..], l, name, false);
    LandedTrans(Follow(b1, l), Follow(Apply(base, over).value, LandAll(base, fs, k, q, r)), Follow(o, r).value, name,
      Lasts(t, o, r, name), SparedAll(b1, fs[k + 1..], l, name), r != []);
  }

  /** What a child in the overlay is applied to is a child of what its parent is applied to. */
  lemma {:induction false} ChildLands(base: Tree, fs: seq<Tree>, k: nat, q: seq<nat>, r: seq<nat>, n: nat)
    requires k < |fs| && Part(fs[k]).Some? && Target(Halfway(base, fs, k), fs[k]) == Ok(q)
    requires Follow(Part(fs[k]).value, r).Some? && n <= |r|
    ensures var l := LandAll(base, fs, k, q, r);
            |l| == |q| + |r| && l[..|q| + n] == LandAll(base, fs, k, q, r[..n])
  {
    var b, o := Halfway(base, fs, k), Part(fs[k]).value;
    TargetFollows(b, fs[k]);
    var t := Follow(b, q).value;
    LandPrefix(t, o, r, n);
    var l := q + LandIn(t, o, r);
    BasePrefix(MergeAt(b, fs[k]), fs[k + 1..], l, |q| + n);
    assert l[..|q| + n] == q + LandIn(t, o, r)[..n];
  }

  // ---- references by label ----

  /** The entry patches a cell of the node at r below the __overlay__ node of the k-th fragment, and no
      later entry touches that cell. */
  ghost predicate Patches(u: Tree, i: nat, fs: seq<Tree>, k: nat, r: seq<nat>) {
    var ls := FixupsOf(u);
    i < |ls| && k < |fs| && Match(fs[k].kids, OVERLAY).Some? &&
    var p := [k, Match(fs[k].kids, OVERLAY).value] + r;
    FindPath(u, ls[i].entry.path) == Ok(p) &&
    !Touched(u, ls[i + 1..], p, ls[i].entry.name, Offset32(ls[i].entry.off))
  }

  lemma {:induction false} FollowPart(t: Tree, k: nat, j: nat, r: seq<nat>)
    requires k < |t.kids| && j < |t.kids[k].kids|
    ensures Follow(t, [k, j] + r) == Follow(t.kids[k].kids[j], r)
  {
    assert ([k, j] + r)[1..] == [j] + r && ([j] + r)[1..] == r;
  }

  /** The cell in the overlay as it is merged. */
  lemma {:induction false} PatchedCell(base: Tree, over: Tree, i: nat, k: nat, r: seq<nat>)
    requires UniqueProps(over) && Apply(base, over).Ok?
    requires Patches(Updated(base, over), i, Prepared(base, over).value.kids, k, r)
    ensures var fs, l := Prepared(base, over).value.kids, FixupsOf(Updated(base, over))[i];
            SymbolPhandle(base, l.symbol).Ok? && Part(fs[k]).Some? &&
            CellIs(Part(fs[k]).value, r, l.entry.name, Offset32(l.entry.off), SymbolPhandle(base, l.symbol).value) &&
            var ps := Follow(Part(fs[k]).value, r).value.props;
            Last(ps, l.entry.name) == Value(ps, l.entry.name)
  {
    var u, t := Updated(base, over), Prepared(base, over).value;
    var l, j := FixupsOf(u)[i], Match(t.kids[k].kids, OVERLAY).value;
    FixupsHold(base, u);
    FollowPart(t, k, j, r);
    PreparedSound(base, over);
    PartSound(t.kids[k]);
    SoundAt(Part(t.kids[k]).value, r);
    LastIsValue(Follow(Part(t.kids[k]).value, r).value.props, l.entry.name);
  }

  /** The main result on references by label, from the source of the overlay to the merged tree: the cell
      holds the phandle that the node of that label in the base still has, if no overlay node with a
      phandle lands on a node that has one, and nothing later sets the property. */
  lemma {:induction false} LabelReferenceHolds(base: Tree, over: Tree, i: nat, k: nat, r: seq<nat>, s: seq<nat>)
    requires UniqueProps(over) && Apply(base, over).Ok? && NoClashAll(base, Prepared(base, over).value.kids)
    requires Patches(Updated(base, over), i, Prepared(base, over).value.kids, k, r)
    requires Symbol(base, FixupsOf(Updated(base, over))[i].symbol, s)
    ensures var fs, l := Prepared(base, over).value.kids, FixupsOf(Updated(base, over))[i];
            Part(fs[k]).Some? && Target(Halfway(base, fs, k), fs[k]).Ok? &&
            var result, q := Apply(base, over).value, Target(Halfway(base, fs, k), fs[k]).value;
            var n := Follow(result, ImageAll(base, fs, s));
            n.Some? &&
            (LastsAll(base, fs, k, q, r, l.entry.name) ==>
               CellIs(result, LandAll(base, fs, k, q, r), l.entry.name, Offset32(l.entry.off), Phandle(n.value.props)))
  {
    var fs, l := Prepared(base, over).value.kids, FixupsOf(Updated(base, over))[i];
    PatchedCell(base, over, i, k, r);
    OverlayLands(base, over, k, r, l.entry.name);
    var v := SymbolPhandle(base, l.symbol).value;
    SymbolOnce(base, l.symbol, s);
    PreparedSound(base, over);
    BaseBecame(base, fs, s, l.entry.name, true);
  }

  /** A label stands for one node. */
  lemma {:induction false} SymbolOnce(base: Tree, symbol: seq<byte>, s: seq<nat>)
    requires Symbol(base, symbol, s) && SymbolPhandle(base, symbol).Ok?
    ensures HasPhandle(base, s, SymbolPhandle(base, symbol).value)
  {
    MatchIs(base.kids, SYMBOLS);
    var i, val :| 0 <= i < |base.kids| && Called(base.kids[i].name, SYMBOLS) &&
      (forall j | 0 <= j < i :: !Called(base.kids[j].name, SYMBOLS)) &&
      Says(base.kids[i].props, symbol, val) && HoldsPath(base, val, s);
    assert Match(base.kids, SYMBOLS) == Some(i);
    SaysValue(base.kids[i].props, symbol, val);
    PathHeld(base, val, s);
    FindPathFollows(base, CString(val).value);
  }
}
