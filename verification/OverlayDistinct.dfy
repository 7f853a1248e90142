/** fdt_overlay.c: when the phandles are distinct after an overlay has been applied. */
module OverlayDistinct {
  import opened Bytes
  import opened DeviceTree
  import opened Overlay
  import opened OverlayRefs
  import opened TreePaths
  import opened OverlayApply
  import opened OverlayKeeps
  import opened Fixups
  import opened SymbolicFixups
  import LocalFixups

  // ---- conservation ----

  /** No overlay node with a phandle lands on a node that already has one. */
  ghost predicate NoClash(t: Tree, over: Tree)
    decreases over, 1
  {
    Alone(t.props, over.props) && NoClashKids(t.kids, over.kids)
  }

  /** At most one of the two has a phandle, and "phandle" does not hide "linux,phandle". */
  ghost predicate Alone(ps: seq<Property>, over: seq<Property>) {
    (Phandle(ps) == 0 || (Value(over, PHANDLE).None? && Value(over, LINUX_PHANDLE).None?)) &&
    (Cell(ps, PHANDLE).None? || Phandle(over) == 0 || Value(over, PHANDLE).Some?)
  }

  ghost predicate NoClashKids(ks: seq<Tree>, over: seq<Tree>)
    decreases over, 0
  {
    over == [] || (NoClashOne(ks, over[0]) && NoClashKids(MergeOne(ks, over[0]), over[1..]))
  }

  ghost predicate NoClashOne(ks: seq<Tree>, o: Tree)
    decreases o, 2
  {
    var i := Match(ks, o.name);
    NoClash(if i.Some? then ks[i.value] else Tree(o.name, [], []), o)
  }

  /** So for every fragment, on the base as it is by then. */
  ghost predicate NoClashAll(base: Tree, fs: seq<Tree>)
    decreases |fs|
  {
    fs == [] ||
    (if Part(fs[0]).None? || Target(base, fs[0]).Err? then NoClashAll(base, fs[1..])
     else NoClashAt(base, fs[0]) && NoClashAll(MergeAt(base, fs[0]), fs[1..]))
  }

  ghost predicate NoClashAt(base: Tree, f: Tree)
    requires Part(f).Some? && Target(base, f).Ok?
  {
    TargetFollows(base, f);
    NoClash(Follow(base, Target(base, f).value).value, Part(f).value)
  }

  /** Without such clashes merging neither loses nor invents a phandle. */
  lemma {:induction false} MergeConserves(t: Tree, over: Tree)
    requires Sound(over) && NoClash(t, over)
    ensures Phandles(Merge(t, over)) == Phandles(t) + Phandles(over)
    decreases over, 1
  {
    OwnConserves(t.props, over.props);
    MergeKidsConserves(t.kids, over.kids);
  }

  lemma {:induction false} OwnConserves(ps: seq<Property>, over: seq<Property>)
    requires UniqueNames(over) && (Value(over, PHANDLE).Some? ==> Cell(over, PHANDLE).Some?)
    requires Value(over, LINUX_PHANDLE).Some? ==> Cell(over, LINUX_PHANDLE).Some?
    requires Alone(ps, over)
    ensures Own(Phandle(WithProps(ps, over))) == Own(Phandle(ps)) + Own(Phandle(over))
  {
    ValueWithProps(ps, over, PHANDLE);
    ValueWithProps(ps, over, LINUX_PHANDLE);
    LastIsValue(over, PHANDLE);
    LastIsValue(over, LINUX_PHANDLE);
  }

  lemma {:induction false} MergeKidsConserves(ks: seq<Tree>, over: seq<Tree>)
    requires AllSound(over) && NoClashKids(ks, over)
    ensures PhandlesOf(MergeKids(ks, over)) == PhandlesOf(ks) + PhandlesOf(over)
    decreases over, 0
  {
    if over != [] {
      MergeOneConserves(ks, over[0]);
      MergeKidsConserves(MergeOne(ks, over[0]), over[1..]);
    }
  }

  lemma {:induction false} MergeOneConserves(ks: seq<Tree>, o: Tree)
    requires Sound(o) && NoClashOne(ks, o)
    ensures PhandlesOf(MergeOne(ks, o)) == PhandlesOf(ks) + Phandles(o)
    decreases o, 2
  {
    var i := Match(ks, o.name);
    if i.Some? {
      MergeConserves(ks[i.value], o);
      ReplacedKid(ks, i.value, Merge(ks[i.value], o), Phandles(o));
    } else {
      MergeConserves(Tree(o.name, [], []), o);
      EmptyPhandles(o.name);
      assert ([Merge(Tree(o.name, [], []), o)] + ks)[1..] == ks;
    }
  }

  lemma {:induction false} ReplacedKid(ks: seq<Tree>, i: nat, t: Tree, o: multiset<int>)
    requires i < |ks| && Phandles(t) == Phandles(ks[i]) + o
    ensures PhandlesOf(ks[i := t]) == PhandlesOf(ks) + o
  {
    PhandlesUpdate(ks, i, t);
    Balance(PhandlesOf(ks[i := t]), Phandles(ks[i]), PhandlesOf(ks), o);
  }

  lemma {:induction false} Balance(a': multiset<int>, x: multiset<int>, a: multiset<int>, o: multiset<int>)
    requires a' + x == a + (x + o)
    ensures a' == a + o
  {
    forall v ensures a'[v] == (a + o)[v] {
      assert (a' + x)[v] == (a + (x + o))[v];
    }
  }

  lemma {:induction false} GraftPhandles(t: Tree, p: seq<nat>, x: Tree)
    requires Follow(t, p).Some?
    ensures Phandles(Graft(t, p, x)) + Phandles(Follow(t, p).value) == Phandles(t) + Phandles(x)
    decreases |p|
  {
    if p != [] {
      var k := Graft(t.kids[p[0]], p[1..], x);
      GraftPhandles(t.kids[p[0]], p[1..], x);
      PhandlesUpdate(t.kids, p[0], k);
      var ks := t.kids[p[0] := k];
      Exchange(PhandlesOf(ks), Phandles(t.kids[p[0]]), PhandlesOf(t.kids), Phandles(k), Phandles(Follow(t, p).value),
        Phandles(x), Own(Phandle(t.props)));
    }
  }

  lemma {:induction false} Exchange(a: multiset<int>, x: multiset<int>, b: multiset<int>, y: multiset<int>,
    g: multiset<int>, t: multiset<int>, o: multiset<int>)
    requires a + x == b + y && y + g == x + t
    ensures (o + a) + g == (o + b) + t
  {
    forall v ensures ((o + a) + g)[v] == ((o + b) + t)[v] {
      assert (a + x)[v] == (b + y)[v] && (y + g)[v] == (x + t)[v];
    }
  }

  /** The phandles in the parts of the fragments that are merged. */
  ghost function PartsOf(fs: seq<Tree>): multiset<int> {
    if fs == [] then multiset{}
    else (if Part(fs[0]).None? then multiset{} else Phandles(Part(fs[0]).value)) + PartsOf(fs[1..])
  }

  lemma {:induction false} PartSound(f: Tree)
    requires Sound(f) && Part(f).Some?
    ensures Sound(Part(f).value)
  {
    var i := Match(f.kids, OVERLAY).value;
    assert Sound(f.kids[i]);
  }

  lemma {:induction false} ConservedAt(base: Tree, f: Tree)
    requires Sound(f) && Part(f).Some? && Target(base, f).Ok? && NoClashAt(base, f)
    ensures Phandles(MergeAt(base, f)) == Phandles(base) + Phandles(Part(f).value)
  {
    var p, o := Target(base, f).value, Part(f).value;
    TargetFollows(base, f);
    var n := Follow(base, p).value;
    PartSound(f);
    MergeConserves(n, o);
    GraftPhandles(base, p, Merge(n, o));
    Balance(Phandles(MergeAt(base, f)), Phandles(n), Phandles(base), Phandles(o));
  }

  lemma {:induction false} Regroup(a: multiset<int>, b: multiset<int>, c: multiset<int>)
    ensures (a + b) + c == a + (b + c)
  {
  }

  lemma {:induction false} AllConserved(base: Tree, fs: seq<Tree>)
    requires AllSound(fs) && MergeFragments(base, fs).Ok? && NoClashAll(base, fs)
    ensures Phandles(MergeFragments(base, fs).value) == Phandles(base) + PartsOf(fs)
    decreases |fs|
  {
    if fs != [] {
      assert forall i | 0 <= i < |fs| - 1 :: fs[1..][i] == fs[i + 1];
      if Part(fs[0]).None? {
        AllConserved(base, fs[1..]);
      } else {
        ConservedAt(base, fs[0]);
        AllConserved(MergeAt(base, fs[0]), fs[1..]);
        Regroup(Phandles(base), Phandles(Part(fs[0]).value), PartsOf(fs[1..]));
      }
    }
  }

  /** With clashes phandles are lost, but none is invented. */
  lemma {:induction false} NoneInvented(base: Tree, fs: seq<Tree>)
    requires AllSound(fs) && MergeFragments(base, fs).Ok?
    ensures Phandles(MergeFragments(base, fs).value) <= Phandles(base) + PartsOf(fs)
    decreases |fs|
  {
    if fs != [] {
      assert forall i | 0 <= i < |fs| - 1 :: fs[1..][i] == fs[i + 1];
      if Part(fs[0]).None? {
        NoneInvented(base, fs[1..]);
      } else {
        var p, o := Target(base, fs[0]).value, Part(fs[0]).value;
        TargetFollows(base, fs[0]);
        var n := Follow(base, p).value;
        PartSound(fs[0]);
        MergePhandles(n, o);
        GraftPhandles(base, p, Merge(n, o));
        Rearrange(Phandles(MergeAt(base, fs[0])), Phandles(n), Phandles(base), Phandles(Merge(n, o)), Phandles(o));
        NoneInvented(MergeAt(base, fs[0]), fs[1..]);
      }
    }
  }

  // ---- the parts before and after each step ----

  lemma {:induction false} LikePart(f: Tree, g: Tree, same: bool)
    requires Like(f, g, same)
    ensures Part(f).Some? <==> Part(g).Some?
    ensures Part(f).Some? ==>
              Like(Part(f).value, Part(g).value, same) &&
              Match(f.kids, OVERLAY) == Match(g.kids, OVERLAY)
  {
    LikeHomonyms(f.kids, g.kids, same);
    MatchHomonyms(f.kids, g.kids, OVERLAY);
  }

  lemma {:induction false} LikeParts(fs: seq<Tree>, gs: seq<Tree>)
    requires |fs| == |gs| && forall i | 0 <= i < |fs| :: PartsLike(fs[i], gs[i])
    ensures PartsOf(fs) == PartsOf(gs)
    decreases |fs|
  {
    if fs != [] {
      assert PartsLike(fs[0], gs[0]);
      forall i | 0 <= i < |fs| - 1 ensures PartsLike(fs[1..][i], gs[1..][i]) {
        assert PartsLike(fs[i + 1], gs[i + 1]);
      }
      LikeParts(fs[1..], gs[1..]);
      if Part(fs[0]).Some? {
        LikePhandles(Part(fs[0]).value, Part(gs[0]).value);
      }
    }
  }

  ghost predicate PartsLike(f: Tree, g: Tree) {
    (Part(f).Some? <==> Part(g).Some?) && (Part(f).Some? ==> Like(Part(f).value, Part(g).value, true))
  }

  lemma {:induction false} TreesLikeParts(t: Tree, u: Tree)
    requires Like(t, u, true)
    ensures PartsOf(t.kids) == PartsOf(u.kids)
  {
    forall i | 0 <= i < |t.kids| ensures PartsLike(t.kids[i], u.kids[i]) {
      LikePart(t.kids[i], u.kids[i], true);
    }
    LikeParts(t.kids, u.kids);
  }

  /** p is the path of a node that is merged. */
  ghost predicate MergedPath(t: Tree, p: seq<nat>) {
    |p| >= 2 && p[0] < |t.kids| && Match(t.kids[p[0]].kids, OVERLAY) == Some(p[1]) && Follow(t, p).Some?
  }

  lemma {:induction false} Pathwise(t: Tree, u: Tree)
    requires Like(t, u, false)
    requires forall p | Follow(t, p).Some? :: Follow(u, p).Some? && PhandleAt(u, p) == PhandleAt(t, p)
    ensures Like(t, u, true)
    decreases t
  {
    assert Follow(t, []) == Some(t) && Follow(u, []) == Some(u);
    assert PhandleAt(u, []) == PhandleAt(t, []);
    forall i | 0 <= i < |t.kids| ensures Like(t.kids[i], u.kids[i], true) {
      forall p | Follow(t.kids[i], p).Some?
        ensures Follow(u.kids[i], p).Some? && PhandleAt(u.kids[i], p) == PhandleAt(t.kids[i], p)
      {
        assert ([i] + p)[1..] == p;
        assert Follow(t, [i] + p).Some?;
        assert PhandleAt(u, [i] + p) == PhandleAt(t, [i] + p);
      }
      Pathwise(t.kids[i], u.kids[i]);
    }
  }

  /** Two steps of a path. */
  lemma {:induction false} Below2(t: Tree, p: seq<nat>)
    requires |p| >= 2 && p[0] < |t.kids| && p[1] < |t.kids[p[0]].kids|
    ensures Follow(t, p) == Follow(t.kids[p[0]].kids[p[1]], p[2..])
  {
    assert p[1..][0] == p[1] && p[1..][1..] == p[2..];
    assert Follow(t, p) == Follow(t.kids[p[0]], p[1..]);
    assert Follow(t.kids[p[0]], p[1..]) == Follow(t.kids[p[0]].kids[p[1]], p[1..][1..]);
  }

  /** If no merged node changes its phandle, the parts have the same phandles. */
  lemma {:induction false} PartsPathwise(t: Tree, u: Tree)
    requires Like(t, u, false)
    requires forall p | MergedPath(t, p) :: Follow(u, p).Some? && PhandleAt(u, p) == PhandleAt(t, p)
    ensures PartsOf(t.kids) == PartsOf(u.kids)
  {
    forall i | 0 <= i < |t.kids| ensures PartsLike(t.kids[i], u.kids[i]) {
      LikePart(t.kids[i], u.kids[i], false);
      if Part(t.kids[i]).Some? {
        PartPathwise(t, u, i);
      }
    }
    LikeParts(t.kids, u.kids);
  }

  lemma {:induction false} PartPathwise(t: Tree, u: Tree, i: nat)
    requires Like(t, u, false) && i < |t.kids| == |u.kids| && Part(t.kids[i]).Some? && Part(u.kids[i]).Some?
    requires Like(Part(t.kids[i]).value, Part(u.kids[i]).value, false)
    requires Match(t.kids[i].kids, OVERLAY) == Match(u.kids[i].kids, OVERLAY)
    requires forall p | MergedPath(t, p) :: Follow(u, p).Some? && PhandleAt(u, p) == PhandleAt(t, p)
    ensures Like(Part(t.kids[i]).value, Part(u.kids[i]).value, true)
  {
    var m := Match(t.kids[i].kids, OVERLAY).value;
    var a, b := Part(t.kids[i]).value, Part(u.kids[i]).value;
    forall p | Follow(a, p).Some? ensures Follow(b, p).Some? && PhandleAt(b, p) == PhandleAt(a, p) {
      var q := [i, m] + p;
      assert q[2..] == p;
      Below2(t, q);
      Below2(u, q);
      assert MergedPath(t, q);
    }
    Pathwise(a, b);
  }

  lemma {:induction false} MergedAmong(t: Tree, p: seq<nat>)
    requires MergedPath(t, p) && PhandleAt(t, p) > 0
    ensures PhandleAt(t, p) in PartsOf(t.kids)
  {
    var part := Part(t.kids[p[0]]).value;
    Below2(t, p);
    PhandleAmong(part, p[2..]);
    PartAmong(t.kids, p[0]);
  }

  lemma {:induction false} PartAmong(fs: seq<Tree>, i: nat)
    requires i < |fs| && Part(fs[i]).Some?
    ensures Phandles(Part(fs[i]).value) <= PartsOf(fs)
    decreases |fs|
  {
    if i > 0 {
      PartAmong(fs[1..], i - 1);
    }
  }

  // ---- the shift ----

  ghost predicate PartsPositive(fs: seq<Tree>) {
    forall i | 0 <= i < |fs| && Part(fs[i]).Some? :: Positive(Part(fs[i]).value)
  }

  lemma {:induction false} ShiftPart(f: Tree, delta: int)
    requires Shift(f, delta).Ok?
    ensures Part(f).Some? <==> Part(Shift(f, delta).value).Some?
    ensures Part(f).Some? ==> Shift(Part(f).value, delta) == Ok(Part(Shift(f, delta).value).value)
  {
    ShiftHomonyms(f.kids, delta);
    MatchHomonyms(f.kids, ShiftAll(f.kids, delta).value, OVERLAY);
    var i := Match(f.kids, OVERLAY);
    if i.Some? {
      ShiftAllAt(f.kids, delta, i.value);
    }
  }

  lemma {:induction false} PartsRaised(fs: seq<Tree>, delta: int)
    requires 0 <= delta < 0x1_0000_0000 && ShiftAll(fs, delta).Ok? && PartsPositive(fs)
    ensures Raised(PartsOf(fs), PartsOf(ShiftAll(fs, delta).value), delta)
    decreases |fs|
  {
    if fs != [] {
      var gs := ShiftAll(fs, delta).value;
      assert gs[0] == Shift(fs[0], delta).value && gs[1..] == ShiftAll(fs[1..], delta).value;
      forall i | 0 <= i < |fs| - 1 && Part(fs[1..][i]).Some? ensures Positive(Part(fs[1..][i]).value) {
        assert fs[1..][i] == fs[i + 1];
      }
      PartsRaised(fs[1..], delta);
      ShiftPart(fs[0], delta);
      if Part(fs[0]).Some? {
        ShiftRaises(Part(fs[0]).value, delta);
        RaisedSum(Phandles(Part(fs[0]).value), Phandles(Part(gs[0]).value), PartsOf(fs[1..]), PartsOf(gs[1..]), delta);
      } else {
        assert multiset{} + PartsOf(fs[1..]) == PartsOf(fs[1..]) && multiset{} + PartsOf(gs[1..]) == PartsOf(gs[1..]);
      }
    }
  }

  /** A phandle of 0 becomes the offset itself. */
  lemma {:induction false} ZeroShifted(t: Tree, delta: int)
    requires 0 < delta < 0x1_0000_0000 && Shift(t, delta).Ok? && !Positive(t)
    ensures delta in Phandles(Shift(t, delta).value)
    decreases t
  {
    ShiftPropsIs(t.props, delta);
    if AllPositive(t.kids) {
      assert Phandle(Shift(t, delta).value.props) == delta;
    } else {
      var i :| 0 <= i < |t.kids| && !Positive(t.kids[i]);
      ShiftAllLength(t.kids, delta);
      ShiftAllAt(t.kids, delta, i);
      ZeroShifted(t.kids[i], delta);
      PhandlesSplit(ShiftAll(t.kids, delta).value, i);
    }
  }

  lemma {:induction false} ZeroParts(t: Tree, delta: int)
    requires 0 < delta < 0x1_0000_0000 && Shift(t, delta).Ok? && !PartsPositive(t.kids)
    ensures delta in PartsOf(Shift(t, delta).value.kids)
  {
    var i :| 0 <= i < |t.kids| && Part(t.kids[i]).Some? && !Positive(Part(t.kids[i]).value);
    ShiftAllLength(t.kids, delta);
    ShiftAllAt(t.kids, delta, i);
    ShiftPart(t.kids[i], delta);
    ZeroShifted(Part(t.kids[i]).value, delta);
    PartAmong(Shift(t, delta).value.kids, i);
  }

  /** The largest phandle is one. */
  lemma {:induction false} MaxAttained(ts: seq<Tree>)
    requires MaxPhandle(ts) > 0
    ensures MaxPhandle(ts) in PhandlesOf(ts)
    decreases ts
  {
    if MaxPhandle(ts) == MaxPhandle(ts[1..]) {
      MaxAttained(ts[1..]);
    } else if MaxPhandle(ts) == MaxPhandle(ts[0].kids) {
      MaxAttained(ts[0].kids);
    }
  }

  lemma {:induction false} ShiftZeroLike(t: Tree)
    requires Shift(t, 0).Ok?
    ensures Like(t, Shift(t, 0).value, true)
    decreases t
  {
    ShiftPropsIs(t.props, 0);
    ShiftLayout(t.props, 0);
    ShiftAllLength(t.kids, 0);
    forall i | 0 <= i < |t.kids| ensures Like(t.kids[i], ShiftAll(t.kids, 0).value[i], true) {
      ShiftAllAt(t.kids, 0, i);
      ShiftZeroLike(t.kids[i]);
    }
  }

  lemma {:induction false} AllAboveZero(t: Tree)
    ensures forall v | v in Phandles(t) :: v > 0
    decreases t, 1
  {
    AllOfAboveZero(t.kids);
  }

  lemma {:induction false} AllOfAboveZero(ts: seq<Tree>)
    ensures forall v | v in PhandlesOf(ts) :: v > 0
    decreases ts, 0
  {
    if ts != [] {
      AllAboveZero(ts[0]);
      AllOfAboveZero(ts[1..]);
    }
  }

  lemma {:induction false} PartsAboveZero(fs: seq<Tree>)
    ensures forall v | v in PartsOf(fs) :: v > 0
    decreases |fs|
  {
    if fs != [] {
      PartsAboveZero(fs[1..]);
      if Part(fs[0]).Some? {
        AllAboveZero(Part(fs[0]).value);
      }
    }
  }

  lemma {:induction false} RaisedDistinct(m: multiset<int>, m': multiset<int>, delta: int)
    requires 0 <= delta && Raised(m, m', delta) && forall v | v in m :: v > 0
    ensures Distinct(m') <==> Distinct(m)
    ensures forall v | v in m' :: v > delta
  {
    if Distinct(m') {
      forall v ensures m[v] <= 1 {
        assert v > 0 ==> m'[v + delta] == m[v];
        assert v <= 0 ==> v !in m;
      }
    }
    if Distinct(m) {
      forall v ensures m'[v] <= 1 {
        assert v > delta ==> m'[v] == m[v - delta];
      }
    }
  }

  // ---- the result ----

  /** The overlay when the symbolic fixups are applied. */
  ghost function Updated(base: Tree, over: Tree): Tree
    requires Prepared(base, over).Ok?
  {
    var delta := MaxPhandle([base]);
    UpdateLocal(Shift(over, delta).value, delta).value
  }

  /** Some symbolic fixup writes into the phandle of a node that is merged. */
  ghost predicate HitsMerged(u: Tree) { exists p :: MergedPath(u, p) && Hit(u, FixupsOf(u), p) }

  lemma {:induction false} PreparedSound(base: Tree, over: Tree)
    requires UniqueProps(over) && Prepared(base, over).Ok?
    ensures var delta := MaxPhandle([base]);
            var s, u := Shift(over, delta).value, Updated(base, over);
            Sound(s) && Sound(u) && Like(s, u, true) && Sound(Prepared(base, over).value) &&
            Like(u, Prepared(base, over).value, false)
  {
    var delta := MaxPhandle([base]);
    ShiftSound(over, delta);
    LocalKeepsPhandles(over, delta);
    var s, u := Shift(over, delta).value, Updated(base, over);
    LikeSound(s, u, true);
    AllFixed(base, u, []);
    LikeSound(u, Prepared(base, over).value, false);
  }

  /** A phandle that a symbolic fixup has written is one of the base. */
  lemma {:induction false} HitClashes(base: Tree, over: Tree)
    requires UniqueProps(over) && Prepared(base, over).Ok? && HitsMerged(Updated(base, over))
    ensures !(Phandles(base) !! PartsOf(Prepared(base, over).value.kids))
  {
    PreparedSound(base, over);
    var u, x := Updated(base, over), Prepared(base, over).value;
    var p :| MergedPath(u, p) && Hit(u, FixupsOf(u), p);
    AllFixed(base, u, p);
    LikePart(u.kids[p[0]], x.kids[p[0]], false);
    MergedAmong(x, p);
    var v := PhandleAt(x, p);
    assert v in Phandles(base) && v in PartsOf(x.kids);
  }

  /** Otherwise the parts have the phandles that the shift has given them. */
  lemma {:induction false} NoHitKeeps(base: Tree, over: Tree)
    requires UniqueProps(over) && Prepared(base, over).Ok? && !HitsMerged(Updated(base, over))
    ensures PartsOf(Prepared(base, over).value.kids) == PartsOf(Shift(over, MaxPhandle([base])).value.kids)
  {
    PreparedSound(base, over);
    var u, x := Updated(base, over), Prepared(base, over).value;
    forall p | MergedPath(u, p) ensures Follow(x, p).Some? && PhandleAt(x, p) == PhandleAt(u, p) {
      AllFixed(base, u, p);
    }
    PartsPathwise(u, x);
    TreesLikeParts(Shift(over, MaxPhandle([base])).value, u);
  }

  /** What the shift has given the parts: distinct and disjoint from the base iff the parts were
      distinct and, if the base has phandles, none of them was 0. */
  lemma {:induction false} ShiftedParts(base: Tree, over: Tree)
    requires Shift(over, MaxPhandle([base])).Ok?
    ensures var delta := MaxPhandle([base]);
            var m := PartsOf(Shift(over, delta).value.kids);
            Distinct(m) && Phandles(base) !! m <==>
            Distinct(PartsOf(over.kids)) && (delta == 0 || PartsPositive(over.kids))
  {
    var delta := MaxPhandle([base]);
    var m := PartsOf(Shift(over, delta).value.kids);
    assert PhandlesOf([base]) == Phandles(base) + PhandlesOf([]) == Phandles(base);
    forall v | v in Phandles(base) ensures 0 < v <= delta {
      MaxIsBound([base], v);
    }
    PartsAboveZero(over.kids);
    if delta == 0 {
      ShiftZeroLike(over);
      TreesLikeParts(over, Shift(over, 0).value);
    } else if PartsPositive(over.kids) {
      PartsRaised(over.kids, delta);
      RaisedDistinct(PartsOf(over.kids), m, delta);
    } else {
      ZeroParts(over, delta);
      MaxAttained([base]);
    }
  }

  /** The main result on phandles.  If no overlay node with a phandle lands on a node that has one,
      then after a successful application all phandles are distinct iff those of the base and those
      of the merged nodes of the overlay were, no merged node has a phandle of 0 (unless the base has
      no phandles at all), and no symbolic fixup writes into the phandle of a merged node. */
  lemma {:induction false} DistinctExact(base: Tree, over: Tree)
    requires UniqueProps(over) && Apply(base, over).Ok? && NoClashAll(base, Prepared(base, over).value.kids)
    ensures Distinct(Phandles(Apply(base, over).value)) <==>
            Distinct(Phandles(base)) && Distinct(PartsOf(over.kids)) &&
            (MaxPhandle([base]) == 0 || PartsPositive(over.kids)) && !HitsMerged(Updated(base, over))
  {
    PreparedSound(base, over);
    var x := Prepared(base, over).value;
    AllConserved(base, x.kids);
    DistinctParts(Phandles(base), PartsOf(x.kids));
    if HitsMerged(Updated(base, over)) {
      HitClashes(base, over);
    } else {
      NoHitKeeps(base, over);
      ShiftedParts(base, over);
    }
  }

  /** With clashes the conditions still suffice. */
  lemma {:induction false} DistinctAfter(base: Tree, over: Tree)
    requires UniqueProps(over) && Apply(base, over).Ok?
    requires Distinct(Phandles(base)) && Distinct(PartsOf(over.kids)) && !HitsMerged(Updated(base, over))
    requires MaxPhandle([base]) == 0 || PartsPositive(over.kids)
    ensures Distinct(Phandles(Apply(base, over).value))
  {
    PreparedSound(base, over);
    var x := Prepared(base, over).value;
    NoneInvented(base, x.kids);
    NoHitKeeps(base, over);
    ShiftedParts(base, over);
    DistinctParts(Phandles(base), PartsOf(x.kids));
    forall v ensures Phandles(Apply(base, over).value)[v] <= 1 {
      assert Phandles(Apply(base, over).value)[v] <= (Phandles(base) + PartsOf(x.kids))[v];
    }
  }

  // ---- the same, as a condition on the overlay that is applied ----

  lemma {:induction false} FixForNames(ks: seq<Tree>, fs: seq<Tree>, gs: seq<Tree>, i: nat)
    requires Homonyms(fs, gs)
    ensures FixFor(ks, fs, i).None? <==> FixFor(ks, gs, i).None?
    decreases |fs|
  {
    if fs != [] {
      assert fs[0].name == gs[0].name;
      assert forall j | 0 <= j < |fs| - 1 :: fs[1..][j] == fs[j + 1] && gs[1..][j] == gs[j + 1];
      FixForNames(ks, fs[1..], gs[1..], i);
    }
  }

  /** The local fixups do not lead into /__fixups__. */
  ghost predicate SparesFixups(over: Tree) {
    var i, j := Match(over.kids, LOCAL_FIXUPS), Match(over.kids, FIXUPS);
    i.Some? && j.Some? ==> FixFor(over.kids, over.kids[i.value].kids, j.value).None?
  }

  /** Too short for a path, a name, an offset and two colons. */
  lemma {:induction false} ShortEntry(s: seq<byte>)
    requires |s| < 4
    ensures ParseEntry(s).None?
  {
    var sep := Find(s, COLON);
    if sep.Some? {
      var rest := s[sep.value + 1..];
      var sep2 := Find(rest, COLON);
      if sep2.Some? && sep2.value > 0 {
        assert rest[sep2.value + 1..] == [];
      }
    }
  }

  /** So no property of /__fixups__ is taken for a phandle. */
  lemma {:induction false} EntriesSpare(fs: seq<Property>, i: nat)
    requires Entries(fs).Some? && i < |fs|
    ensures |fs[i].val| != 4
    decreases |fs|
  {
    if i == 0 {
      var end := Find(fs[0].val, 0).value;
      if |fs[0].val| == 4 {
        ShortEntry(fs[0].val[..end]);
      }
    } else {
      EntriesSpare(fs[1..], i - 1);
    }
  }

  lemma {:induction false} EntriesShifted(ps: seq<Property>, delta: int)
    requires 0 <= delta < 0x1_0000_0000 && ShiftProps(ps, delta).Ok? && Entries(ShiftProps(ps, delta).value).Some?
    ensures ShiftProps(ps, delta).value == ps
  {
    var qs := ShiftProps(ps, delta).value;
    ShiftedValues(ps, delta);
    NoneOfFour(qs, PHANDLE);
    NoneOfFour(qs, LINUX_PHANDLE);
    assert IsPhandleName(PHANDLE) && IsPhandleName(LINUX_PHANDLE);
    ShiftLayout(ps, delta);
    LayoutValue(ps, qs, PHANDLE);
    LayoutValue(ps, qs, LINUX_PHANDLE);
  }

  lemma {:induction false} NoneOfFour(fs: seq<Property>, name: seq<byte>)
    requires Entries(fs).Some?
    ensures Value(fs, name).Some? ==> |Value(fs, name).value| != 4
    decreases |fs|
  {
    if fs != [] {
      EntriesSpare(fs, 0);
      NoneOfFour(fs[1..], name);
    }
  }

  /** The symbolic fixups are applied as they stand in the overlay. */
  lemma {:induction false} FixupsStand(base: Tree, over: Tree)
    requires Prepared(base, over).Ok? && SparesFixups(over)
    ensures FixupsOf(Updated(base, over)) == FixupsOf(over)
  {
    var delta := MaxPhandle([base]);
    var s, u := Shift(over, delta).value, Updated(base, over);
    ShiftHomonyms(over.kids, delta);
    MatchHomonyms(over.kids, s.kids, FIXUPS);
    MatchHomonyms(over.kids, s.kids, LOCAL_FIXUPS);
    var i, j := Match(over.kids, LOCAL_FIXUPS), Match(over.kids, FIXUPS);
    if i.Some? {
      UpdateLike(s, s.kids[i.value], delta);
      LikeHomonyms(s.kids, u.kids, false);
      MatchHomonyms(s.kids, u.kids, FIXUPS);
    }
    if j.Some? {
      ShiftAllAt(over.kids, delta, j.value);
      if i.Some? {
        NotLed(over, s, delta, i.value, j.value);
      }
      PropsFixed(base, u, u.kids[j.value].props);
      EntriesShifted(over.kids[j.value].props, delta);
    }
  }

  lemma {:induction false} NotLed(over: Tree, s: Tree, delta: int, i: nat, j: nat)
    requires Shift(over, delta) == Ok(s) && i < |over.kids| == |s.kids| && j < |over.kids|
    requires FixFor(over.kids, over.kids[i].kids, j).None? && Update(s, s.kids[i], delta).Ok?
    ensures |Update(s, s.kids[i], delta).value.kids| == |s.kids|
    ensures Update(s, s.kids[i], delta).value.kids[j] == s.kids[j]
  {
    ShiftHomonyms(over.kids, delta);
    ShiftAllAt(over.kids, delta, i);
    ShiftHomonyms(over.kids[i].kids, delta);
    FixForHomonyms(over.kids, s.kids, over.kids[i].kids, j);
    FixForNames(s.kids, over.kids[i].kids, s.kids[i].kids, j);
    LocalFixups.Untouched(s.kids, s.kids[i].kids, delta, j);
  }

  /** The condition on the fixups, read off the overlay. */
  lemma {:induction false} HitsStand(base: Tree, over: Tree)
    requires UniqueProps(over) && Prepared(base, over).Ok? && SparesFixups(over)
    ensures HitsMerged(Updated(base, over)) <==> HitsMerged(over)
  {
    var u := Updated(base, over);
    FixupsStand(base, over);
    PreparedSound(base, over);
    ShiftLike(over, MaxPhandle([base]));
    LikeLoose(Shift(over, MaxPhandle([base])).value, u);
    LikeTrans(over, Shift(over, MaxPhandle([base])).value, u, false);
    forall p ensures MergedPath(over, p) && Hit(over, FixupsOf(over), p) <==>
                     MergedPath(u, p) && Hit(u, FixupsOf(u), p) {
      LikeFollow(over, u, p, false);
      LikeHits(over, u, FixupsOf(over), p);
      if |p| >= 2 && p[0] < |over.kids| {
        LikePart(over.kids[p[0]], u.kids[p[0]], false);
      }
    }
  }
}
