/** fdt_overlay.c: where the nodes of the base are after the merge, and that references into the base
    still lead to the nodes they led to. */
module OverlayImages {
  import opened Bytes
  import opened DeviceTree
  import opened Overlay
  import opened OverlayRefs
  import opened TreePaths
  import opened OverlayApply
  import opened OverlayDistinct

  // ---- the image of a path ----

  /** The path, after merging, of the node that was at p: new children come first. */
  function ImageIn(t: Tree, over: Tree, p: seq<nat>): seq<nat>
    decreases over, 1
  {
    if p == [] then [] else ImageKids(t.kids, over.kids, p)
  }

  function ImageKids(ks: seq<Tree>, os: seq<Tree>, p: seq<nat>): seq<nat>
    decreases os, 0
  {
    if os == [] then p else ImageKids(MergeOne(ks, os[0]), os[1..], ImageOne(ks, os[0], p))
  }

  function ImageOne(ks: seq<Tree>, o: Tree, p: seq<nat>): seq<nat>
    decreases o, 2
  {
    var m := Match(ks, o.name);
    if p == [] then p
    else if m.None? then [p[0] + 1] + p[1..]
    else if p[0] == m.value then [p[0]] + ImageIn(ks[m.value], o, p[1..])
    else p
  }

  /** No overlay node that lands on the node at p has the property. */
  predicate Spared(t: Tree, over: Tree, p: seq<nat>, name: seq<byte>)
    decreases over, 1
  {
    if p == [] then Value(over.props, name).None? else SparedKids(t.kids, over.kids, p, name)
  }

  predicate SparedKids(ks: seq<Tree>, os: seq<Tree>, p: seq<nat>, name: seq<byte>)
    decreases os, 0
  {
    os == [] ||
    (SparedOne(ks, os[0], p, name) && SparedKids(MergeOne(ks, os[0]), os[1..], ImageOne(ks, os[0], p), name))
  }

  predicate SparedOne(ks: seq<Tree>, o: Tree, p: seq<nat>, name: seq<byte>)
    decreases o, 2
  {
    var m := Match(ks, o.name);
    p != [] && m.Some? && p[0] == m.value ==> Spared(ks[m.value], o, p[1..], name)
  }

  /** The node at p below one of the trees. */
  function Among(ks: seq<Tree>, p: seq<nat>): Option<Tree> {
    if p == [] || p[0] >= |ks| then None else Follow(ks[p[0]], p[1..])
  }

  /** n' is what has become of n: the same name, the same phandle if n has one and there are no clashes,
      and the same property if no overlay node has set it. */
  ghost predicate Became(n: Tree, n': Option<Tree>, name: seq<byte>, spared: bool, clean: bool) {
    n'.Some? && n'.value.name == n.name &&
    (clean && Phandle(n.props) > 0 ==> Phandle(n'.value.props) == Phandle(n.props)) &&
    (spared ==> Value(n'.value.props, name) == Value(n.props, name))
  }

  lemma {:induction false} BecameTrans(n: Tree, n1: Option<Tree>, n2: Option<Tree>, name: seq<byte>, a: bool, b: bool,
    clean: bool)
    requires Became(n, n1, name, a, clean) && Became(n1.value, n2, name, b, clean)
    ensures Became(n, n2, name, a && b, clean)
  {
  }

  lemma {:induction false} LastNone(ps: seq<Property>, name: seq<byte>)
    ensures Last(ps, name).None? <==> Value(ps, name).None?
    decreases |ps|
  {
    if ps != [] {
      var init := ps[..|ps| - 1];
      LastNone(init, name);
      ValueAppend(init, ps[|ps| - 1], name);
      assert init + [ps[|ps| - 1]] == ps;
    }
  }

  /** The node itself. */
  lemma {:induction false} PropsBecame(t: Tree, over: Tree, name: seq<byte>, clean: bool)
    requires clean ==> Sound(over) && NoClash(t, over)
    ensures Became(t, Some(Merge(t, over)), name, Value(over.props, name).None?, clean)
  {
    if clean {
      MergedPhandle(t.props, over.props);
    }
    ValueWithProps(t.props, over.props, name);
    LastNone(over.props, name);
  }

  /** Every node of the base is, at its image, what has become of it. */
  lemma {:induction false} ImageBecame(t: Tree, over: Tree, p: seq<nat>, name: seq<byte>, clean: bool)
    requires (clean ==> Sound(over) && NoClash(t, over)) && Follow(t, p).Some?
    ensures Became(Follow(t, p).value, Follow(Merge(t, over), ImageIn(t, over, p)), name, Spared(t, over, p, name),
              clean)
    decreases over, 1
  {
    if p == [] {
      PropsBecame(t, over, name, clean);
    } else {
      KidsBecame(t.kids, over.kids, p, name, clean);
      AmongFollow(Merge(t, over), ImageKids(t.kids, over.kids, p));
      AmongFollow(t, p);
    }
  }

  lemma {:induction false} AmongFollow(t: Tree, p: seq<nat>)
    requires p != []
    ensures Among(t.kids, p) == Follow(t, p)
  {
  }

  lemma {:induction false} KidsBecame(ks: seq<Tree>, os: seq<Tree>, p: seq<nat>, name: seq<byte>, clean: bool)
    requires (clean ==> AllSound(os) && NoClashKids(ks, os)) && Among(ks, p).Some?
    ensures ImageKids(ks, os, p) != []
    ensures Became(Among(ks, p).value, Among(MergeKids(ks, os), ImageKids(ks, os, p)), name,
            SparedKids(ks, os, p, name), clean)
    decreases os, 0
  {
    if os != [] {
      OneBecame(ks, os[0], p, name, clean);
      var p1, ks1 := ImageOne(ks, os[0], p), MergeOne(ks, os[0]);
      assert forall i | 0 <= i < |os| - 1 :: os[1..][i] == os[i + 1];
      KidsBecame(ks1, os[1..], p1, name, clean);
      BecameTrans(Among(ks, p).value, Among(ks1, p1), Among(MergeKids(ks, os), ImageKids(ks, os, p)), name,
        SparedOne(ks, os[0], p, name), SparedKids(ks1, os[1..], p1, name), clean);
    }
  }

  lemma {:induction false} OneBecame(ks: seq<Tree>, o: Tree, p: seq<nat>, name: seq<byte>, clean: bool)
    requires (clean ==> Sound(o) && NoClashOne(ks, o)) && Among(ks, p).Some?
    ensures ImageOne(ks, o, p) != []
    ensures Became(Among(ks, p).value, Among(MergeOne(ks, o), ImageOne(ks, o, p)), name, SparedOne(ks, o, p, name),
              clean)
    decreases o, 2
  {
    var m := Match(ks, o.name);
    if m.None? {
      var k := Merge(Tree(o.name, [], []), o);
      assert ([k] + ks)[p[0] + 1] == ks[p[0]] && ([p[0] + 1] + p[1..])[1..] == p[1..];
    } else if p[0] == m.value {
      ImageBecame(ks[m.value], o, p[1..], name, clean);
      var q := ImageIn(ks[m.value], o, p[1..]);
      assert ([p[0]] + q)[1..] == q;
    }
  }

  // ---- fragments ----

  /** The node that was at p, when the node at q is merged with o. */
  function ImageAt(t: Tree, q: seq<nat>, o: Tree, p: seq<nat>): seq<nat>
    requires Follow(t, q).Some?
    decreases |q|
  {
    if q == [] then ImageIn(t, o, p)
    else if p == [] || p[0] != q[0] then p
    else [p[0]] + ImageAt(t.kids[q[0]], q[1..], o, p[1..])
  }

  predicate SparedAt(t: Tree, q: seq<nat>, o: Tree, p: seq<nat>, name: seq<byte>)
    requires Follow(t, q).Some?
    decreases |q|
  {
    if q == [] then Spared(t, o, p, name)
    else p != [] && p[0] == q[0] ==> SparedAt(t.kids[q[0]], q[1..], o, p[1..], name)
  }

  lemma {:induction false} GraftBecame(t: Tree, q: seq<nat>, o: Tree, p: seq<nat>, name: seq<byte>, clean: bool)
    requires Follow(t, q).Some? && Follow(t, p).Some? && (clean ==> Sound(o) && NoClash(Follow(t, q).value, o))
    ensures var g := Graft(t, q, Merge(Follow(t, q).value, o));
            Became(Follow(t, p).value, Follow(g, ImageAt(t, q, o, p)), name, SparedAt(t, q, o, p, name), clean)
    decreases |q|
  {
    if q == [] {
      ImageBecame(t, o, p, name, clean);
    } else if p != [] && p[0] == q[0] {
      GraftBecame(t.kids[q[0]], q[1..], o, p[1..], name, clean);
      var r := ImageAt(t.kids[q[0]], q[1..], o, p[1..]);
      assert ([p[0]] + r)[1..] == r;
    }
  }

  /** The path, after all fragments, of the node that was at p. */
  ghost function ImageAll(base: Tree, fs: seq<Tree>, p: seq<nat>): seq<nat>
    decreases |fs|
  {
    if fs == [] then p
    else if Part(fs[0]).None? || Target(base, fs[0]).Err? then ImageAll(base, fs[1..], p)
    else ImageAll(MergeAt(base, fs[0]), fs[1..], ImageFragment(base, fs[0], p))
  }

  ghost function ImageFragment(base: Tree, f: Tree, p: seq<nat>): seq<nat>
    requires Part(f).Some? && Target(base, f).Ok?
  {
    TargetFollows(base, f);
    ImageAt(base, Target(base, f).value, Part(f).value, p)
  }

  /** No fragment sets the property of the node that was at p. */
  ghost predicate SparedAll(base: Tree, fs: seq<Tree>, p: seq<nat>, name: seq<byte>)
    decreases |fs|
  {
    if fs == [] then true
    else if Part(fs[0]).None? || Target(base, fs[0]).Err? then SparedAll(base, fs[1..], p, name)
    else SparedFragment(base, fs[0], p, name) &&
         SparedAll(MergeAt(base, fs[0]), fs[1..], ImageFragment(base, fs[0], p), name)
  }

  ghost predicate SparedFragment(base: Tree, f: Tree, p: seq<nat>, name: seq<byte>)
    requires Part(f).Some? && Target(base, f).Ok?
  {
    TargetFollows(base, f);
    SparedAt(base, Target(base, f).value, Part(f).value, p, name)
  }

  /** After all fragments every node of the base is, at its image, what has become of it. */
  lemma {:induction false} BaseBecame(base: Tree, fs: seq<Tree>, p: seq<nat>, name: seq<byte>, clean: bool)
    requires clean ==> AllSound(fs) && NoClashAll(base, fs)
    requires MergeFragments(base, fs).Ok? && Follow(base, p).Some?
    ensures Became(Follow(base, p).value, Follow(MergeFragments(base, fs).value, ImageAll(base, fs, p)), name,
              SparedAll(base, fs, p, name), clean)
    decreases |fs|
  {
    if fs != [] {
      assert forall i | 0 <= i < |fs| - 1 :: fs[1..][i] == fs[i + 1];
      if Part(fs[0]).None? {
        BaseBecame(base, fs[1..], p, name, clean);
      } else {
        FragmentBecame(base, fs[0], p, name, clean);
        var b1, p1 := MergeAt(base, fs[0]), ImageFragment(base, fs[0], p);
        BaseBecame(b1, fs[1..], p1, name, clean);
        BecameTrans(Follow(base, p).value, Follow(b1, p1),
          Follow(MergeFragments(base, fs).value, ImageAll(base, fs, p)), name, SparedFragment(base, fs[0], p, name),
          SparedAll(b1, fs[1..], p1, name), clean);
      }
    }
  }

  lemma {:induction false} FragmentBecame(base: Tree, f: Tree, p: seq<nat>, name: seq<byte>, clean: bool)
    requires Part(f).Some? && Target(base, f).Ok? && (clean ==> Sound(f) && NoClashAt(base, f))
    requires Follow(base, p).Some?
    ensures Became(Follow(base, p).value, Follow(MergeAt(base, f), ImageFragment(base, f, p)), name,
              SparedFragment(base, f, p, name), clean)
  {
    TargetFollows(base, f);
    if clean {
      PartSound(f);
    }
    GraftBecame(base, Target(base, f).value, Part(f).value, p, name, clean);
  }

  // ---- children stay children ----

  /** q is the path that p becomes, and its prefixes are what the prefixes of p become. */
  predicate Prefixes(p: seq<nat>, q: seq<nat>, n: nat, init: seq<nat>) { n <= |p| == |q| && q[..n] == init }

  lemma {:induction false} ImagePrefix(t: Tree, over: Tree, p: seq<nat>, n: nat)
    requires n <= |p|
    ensures Prefixes(p, ImageIn(t, over, p), n, ImageIn(t, over, p[..n]))
    decreases over, 1
  {
    if p != [] {
      ImageKidsPrefix(t.kids, over.kids, p, n);
      if n == 0 {
        assert p[..0] == [];
      }
    }
  }

  lemma {:induction false} ImageKidsPrefix(ks: seq<Tree>, os: seq<Tree>, p: seq<nat>, n: nat)
    requires n <= |p|
    ensures Prefixes(p, ImageKids(ks, os, p), n, ImageKids(ks, os, p[..n]))
    decreases os, 0
  {
    if os != [] {
      ImageOnePrefix(ks, os[0], p, n);
      ImageKidsPrefix(MergeOne(ks, os[0]), os[1..], ImageOne(ks, os[0], p), n);
    }
  }

  lemma {:induction false} ImageOnePrefix(ks: seq<Tree>, o: Tree, p: seq<nat>, n: nat)
    requires n <= |p|
    ensures Prefixes(p, ImageOne(ks, o, p), n, ImageOne(ks, o, p[..n]))
    decreases o, 2
  {
    var m := Match(ks, o.name);
    if n > 0 {
      assert p[..n][0] == p[0] && p[..n][1..] == p[1..][..n - 1];
      if m.None? {
        ConsPrefix(p[0] + 1, p[1..], n);
      } else if p[0] == m.value {
        ImagePrefix(ks[m.value], o, p[1..], n - 1);
        ConsPrefix(p[0], ImageIn(ks[m.value], o, p[1..]), n);
      }
    } else if p != [] && m.Some? && p[0] == m.value {
      ImagePrefix(ks[m.value], o, p[1..], 0);
    }
  }

  lemma {:induction false} ConsPrefix(a: nat, p: seq<nat>, n: nat)
    requires 0 < n <= |p| + 1
    ensures ([a] + p)[..n] == [a] + p[..n - 1]
  {
  }

  lemma {:induction false} ImageAtPrefix(t: Tree, q: seq<nat>, o: Tree, p: seq<nat>, n: nat)
    requires Follow(t, q).Some? && n <= |p|
    ensures Prefixes(p, ImageAt(t, q, o, p), n, ImageAt(t, q, o, p[..n]))
    decreases |q|
  {
    if q == [] {
      ImagePrefix(t, o, p, n);
    } else if p != [] && p[0] == q[0] {
      if n > 0 {
        assert p[..n][0] == p[0] && p[..n][1..] == p[1..][..n - 1];
        ImageAtPrefix(t.kids[q[0]], q[1..], o, p[1..], n - 1);
        ConsPrefix(p[0], ImageAt(t.kids[q[0]], q[1..], o, p[1..]), n);
      } else {
        ImageAtPrefix(t.kids[q[0]], q[1..], o, p[1..], 0);
      }
    } else if n > 0 {
      assert p[..n][0] == p[0];
    }
  }

  /** After all fragments the nodes above the image of a node are the images of those above the node. */
  lemma {:induction false} BasePrefix(base: Tree, fs: seq<Tree>, p: seq<nat>, n: nat)
    requires n <= |p|
    ensures |ImageAll(base, fs, p)| == |p| && ImageAll(base, fs, p)[..n] == ImageAll(base, fs, p[..n])
    decreases |fs|
  {
    if fs != [] {
      if Part(fs[0]).None? || Target(base, fs[0]).Err? {
        BasePrefix(base, fs[1..], p, n);
      } else {
        TargetFollows(base, fs[0]);
        ImageAtPrefix(base, Target(base, fs[0]).value, Part(fs[0]).value, p, n);
        BasePrefix(MergeAt(base, fs[0]), fs[1..], ImageFragment(base, fs[0], p), n);
      }
    }
  }

  // ---- references of the base ----

  /** The main result on references of the base.  If no overlay node with a phandle lands on a node
      that has one: the node at q of the base keeps its phandle; if phandles are distinct after the
      merge, the lookup by that phandle leads to it; and a cell that held the phandle still does, if no
      overlay node that lands on its node sets the property. */
  lemma {:induction false} BaseReferenceKept(base: Tree, over: Tree, p: seq<nat>, name: seq<byte>, off: nat,
    q: seq<nat>)
    requires UniqueProps(over) && Apply(base, over).Ok? && NoClashAll(base, Prepared(base, over).value.kids)
    requires Follow(base, p).Some? && Follow(base, q).Some? && Value(Follow(base, p).value.props, name).Some?
    requires var v := Value(Follow(base, p).value.props, name).value;
             off + 4 <= |v| && Ld32(v, off) == Phandle(Follow(base, q).value.props) > 0
    ensures var r, fs := Apply(base, over).value, Prepared(base, over).value.kids;
            var p', q' := ImageAll(base, fs, p), ImageAll(base, fs, q);
            var phandle := Phandle(Follow(base, q).value.props);
            Follow(r, p').Some? && Follow(r, q').Some? && Phandle(Follow(r, q').value.props) == phandle &&
            (Distinct(Phandles(r)) ==> WithPhandle(r, phandle) == Some(q')) &&
            (SparedAll(base, fs, p, name) ==>
               Value(Follow(r, p').value.props, name) == Value(Follow(base, p).value.props, name) &&
               Ld32(Value(Follow(r, p').value.props, name).value, off) == Phandle(Follow(r, q').value.props))
  {
    PreparedSound(base, over);
    var r, fs := Apply(base, over).value, Prepared(base, over).value.kids;
    BaseBecame(base, fs, p, name, true);
    BaseBecame(base, fs, q, name, true);
    if Distinct(Phandles(r)) {
      PhandleFinds(r, ImageAll(base, fs, q));
    }
  }
}
