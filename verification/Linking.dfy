/** Compiler and overlay loader together: references inside an overlay survive the renumbering of
    its phandles (livetree.c, fdt_overlay.c). */
module Linking {
  import opened Bytes
  import opened Syntax
  import opened DeviceTree
  import opened Fdt
  import opened Lookup
  import opened Overlay
  import opened OverlayRefs
  import opened OverlayApply
  import opened OverlayKeeps
  import opened LocalFixups

  // ---- the tree that is flattened ----

  /** A generated node, which has no REF_PHANDLE markers. */
  function Lift(t: Tree): Source
    decreases t, 1
  {
    Source(t.name, LiftProps(t.props), LiftAll(t.kids))
  }

  function LiftProps(ps: seq<Property>): (qs: seq<LiveProperty>)
    ensures |qs| == |ps| && forall i | 0 <= i < |ps| :: qs[i] == LiveProperty(ps[i].name, ps[i].val, [])
  {
    if ps == [] then [] else [LiveProperty(ps[0].name, ps[0].val, [])] + LiftProps(ps[1..])
  }

  function LiftAll(ts: seq<Tree>): (ks: seq<Source>)
    ensures |ks| == |ts| && forall i | 0 <= i < |ts| :: ks[i] == Lift(ts[i])
    decreases ts, 0
  {
    if ts == [] then [] else [Lift(ts[0])] + LiftAll(ts[1..])
  }

  lemma {:induction false} LiftIs(t: Tree)
    ensures Strip(Lift(t)) == t && !Marked(Lift(t)) && AllCells(Lift(t))
    decreases t
  {
    forall i | 0 <= i < |t.kids|
      ensures Strip(LiftAll(t.kids)[i]) == t.kids[i] && !Marked(LiftAll(t.kids)[i]) && AllCells(LiftAll(t.kids)[i])
    {
      LiftIs(t.kids[i]);
    }
    assert StripKids(LiftAll(t.kids)) == t.kids;
    assert StripProps(LiftProps(t.props)) == t.props;
  }

  /** generate_local_fixups_tree: a marked overlay gets the generated node as its last child. */
  ghost function WithFixups(t: Source): Source {
    if Marked(t) then t.(kids := t.kids + [Lift(Generate(Tree(LOCAL_FIXUPS, [], []), [], t))]) else t
  }

  // ---- new values, same markers ----

  /** u has the names and the value lengths of t. */
  ghost predicate Fits(t: Source, u: Tree)
    decreases t, 1
  {
    t.name == u.name && |t.props| == |u.props| && AllFit(t.kids, u.kids) &&
    forall i | 0 <= i < |t.props| :: t.props[i].name == u.props[i].name && |t.props[i].val| == |u.props[i].val|
  }

  ghost predicate AllFit(ks: seq<Source>, us: seq<Tree>)
    decreases ks, 0
  {
    |ks| == |us| && forall i | 0 <= i < |ks| :: Fits(ks[i], us[i])
  }

  /** t with the values of u. */
  ghost function Revalue(t: Source, u: Tree): Source
    requires Fits(t, u)
    decreases t, 1
  {
    Source(t.name, RevalueProps(t.props, u.props), RevalueAll(t.kids, u.kids))
  }

  function RevalueProps(ps: seq<LiveProperty>, us: seq<Property>): (qs: seq<LiveProperty>)
    requires |ps| == |us|
    ensures |qs| == |ps| && forall i | 0 <= i < |ps| :: qs[i] == ps[i].(val := us[i].val)
  {
    if ps == [] then [] else [ps[0].(val := us[0].val)] + RevalueProps(ps[1..], us[1..])
  }

  ghost function RevalueAll(ks: seq<Source>, us: seq<Tree>): (ls: seq<Source>)
    requires AllFit(ks, us)
    ensures |ls| == |ks| && forall i | 0 <= i < |ks| :: ls[i] == Revalue(ks[i], us[i])
    decreases ks, 0
  {
    if ks == [] then []
    else
      assert forall i | 0 <= i < |ks| - 1 :: ks[1..][i] == ks[i + 1] && us[1..][i] == us[i + 1];
      [Revalue(ks[0], us[0])] + RevalueAll(ks[1..], us[1..])
  }

  lemma {:induction false} RevalueMirror(ps: seq<LiveProperty>, us: seq<Property>)
    requires |ps| == |us|
    ensures MirrorProps(RevalueProps(ps, us)) == MirrorProps(ps)
    decreases |ps|
  {
    if ps != [] {
      RevalueMirror(ps[1..], us[1..]);
      assert RevalueProps(ps, us)[1..] == RevalueProps(ps[1..], us[1..]);
    }
  }

  lemma {:induction false} RevalueMarked(t: Source, u: Tree)
    requires Fits(t, u)
    ensures Marked(Revalue(t, u)) <==> Marked(t)
    decreases t
  {
    var r := Revalue(t, u);
    forall i | 0 <= i < |t.kids| ensures Marked(r.kids[i]) <==> Marked(t.kids[i]) {
      RevalueMarked(t.kids[i], u.kids[i]);
    }
    assert forall i | 0 <= i < |t.props| :: Offsets(r.props[i].marks) == Offsets(t.props[i].marks);
  }

  lemma {:induction false} RevalueKids(ks: seq<Source>, us: seq<Tree>)
    requires AllFit(ks, us)
    ensures MirrorKids(RevalueAll(ks, us)) == MirrorKids(ks)
    decreases ks, 0
  {
    if ks != [] {
      assert forall i | 0 <= i < |ks| - 1 :: ks[1..][i] == ks[i + 1] && us[1..][i] == us[i + 1];
      RevalueMarked(ks[0], us[0]);
      RevalueSame(ks[0], us[0]);
      RevalueKids(ks[1..], us[1..]);
      assert RevalueAll(ks, us)[1..] == RevalueAll(ks[1..], us[1..]);
    }
  }

  /** The generated fixups depend on names and markers alone. */
  lemma {:induction false} RevalueSame(t: Source, u: Tree)
    requires Fits(t, u)
    ensures Strip(Revalue(t, u)) == u && forall name :: Mirror(name, Revalue(t, u)) == Mirror(name, t)
    decreases t, 1
  {
    RevalueMirror(t.props, u.props);
    RevalueKids(t.kids, u.kids);
    RevalueStrip(t.kids, u.kids);
    assert StripProps(RevalueProps(t.props, u.props)) == u.props;
  }

  lemma {:induction false} RevalueStrip(ks: seq<Source>, us: seq<Tree>)
    requires AllFit(ks, us)
    ensures StripKids(RevalueAll(ks, us)) == us
    decreases ks, 0
  {
    forall i | 0 <= i < |ks| ensures StripKids(RevalueAll(ks, us))[i] == us[i] {
      RevalueSame(ks[i], us[i]);
    }
  }

  /** So do the conditions on them. */
  lemma {:induction false} RevalueKeeps(t: Source, u: Tree)
    requires Fits(t, u)
    ensures WellNamed(t) ==> WellNamed(Revalue(t, u))
    ensures AllCells(t) ==> AllCells(Revalue(t, u))
    ensures Unambiguous(t) ==> Unambiguous(Revalue(t, u))
  {
    if WellNamed(t) {
      RevalueNamed(t, u);
    }
    if AllCells(t) {
      RevalueCells(t, u);
    }
    if Unambiguous(t) {
      RevalueFound(t, u);
    }
  }

  lemma {:induction false} RevalueNamed(t: Source, u: Tree)
    requires Fits(t, u) && WellNamed(t)
    ensures WellNamed(Revalue(t, u))
    decreases t
  {
    var ks := RevalueAll(t.kids, u.kids);
    forall i | 0 <= i < |ks| && Marked(ks[i]) ensures WellNamed(ks[i]) {
      RevalueMarked(t.kids[i], u.kids[i]);
      RevalueNamed(t.kids[i], u.kids[i]);
    }
    assert forall i | 0 <= i < |ks| :: ks[i].name == t.kids[i].name;
  }

  lemma {:induction false} RevalueCells(t: Source, u: Tree)
    requires Fits(t, u) && AllCells(t)
    ensures AllCells(Revalue(t, u))
    decreases t
  {
    var ks, ps := RevalueAll(t.kids, u.kids), RevalueProps(t.props, u.props);
    forall i | 0 <= i < |ks| ensures AllCells(ks[i]) {
      RevalueCells(t.kids[i], u.kids[i]);
    }
    forall i | 0 <= i < |ps| ensures CellsThere(ps[i]) {
      assert CellsThere(t.props[i]);
    }
  }

  lemma {:induction false} RevalueFound(t: Source, u: Tree)
    requires Fits(t, u) && Unambiguous(t)
    ensures Unambiguous(Revalue(t, u))
    decreases t
  {
    var ks := RevalueAll(t.kids, u.kids);
    assert forall i | 0 <= i < |ks| :: ks[i].name == t.kids[i].name;
    forall i | 0 <= i < |ks| && Marked(ks[i]) ensures FoundFirst(ks, i) && Unambiguous(ks[i]) {
      RevalueMarked(t.kids[i], u.kids[i]);
      assert FoundFirst(t.kids, i);
      RevalueFound(t.kids[i], u.kids[i]);
    }
  }

  // ---- shifting the phandles ----

  lemma {:induction false} SetFirstAt(ps: seq<Property>, name: seq<byte>, val: seq<byte>, i: nat)
    requires i < |ps|
    ensures var qs := SetFirst(ps, name, val);
            |qs| == |ps| && qs[i].name == ps[i].name && (qs[i] == ps[i] || (ps[i].name == name && qs[i].val == val))
    decreases |ps|
  {
    if ps[0].name != name && i > 0 {
      SetFirstAt(ps[1..], name, val, i - 1);
      assert SetFirst(ps, name, val)[1..] == SetFirst(ps[1..], name, val);
    } else if ps[0].name != name && |ps| > 1 {
      SetFirstAt(ps[1..], name, val, 0);
    }
  }

  lemma {:induction false} ShiftIfThereAt(ps: seq<Property>, name: seq<byte>, delta: int, i: nat)
    requires i < |ps| && ShiftIfThere(ps, name, delta).Ok?
    ensures var qs := ShiftIfThere(ps, name, delta).value;
            |qs| == |ps| && qs[i].name == ps[i].name && |qs[i].val| == |ps[i].val| &&
            (ps[i].name != name ==> qs[i] == ps[i])
  {
    var v := Value(ps, name);
    if v.Some? {
      var x := Be32(Ld32(v.value, 0) + delta);
      SetFirstAt(ps, name, x, i);
      SetFirstLengths(ps, name, x, i);
    }
  }

  lemma {:induction false} SetFirstLengths(ps: seq<Property>, name: seq<byte>, val: seq<byte>, i: nat)
    requires i < |ps| && Value(ps, name).Some? && |Value(ps, name).value| == |val|
    ensures |SetFirst(ps, name, val)| == |ps| && |SetFirst(ps, name, val)[i].val| == |ps[i].val|
    decreases |ps|
  {
    if ps[0].name != name {
      SetFirstLengths(ps[1..], name, val, if i > 0 then i - 1 else 0);
      assert SetFirst(ps, name, val)[1..] == SetFirst(ps[1..], name, val);
    }
  }

  lemma {:induction false} ShiftPropsAt(ps: seq<Property>, delta: int, i: nat)
    requires i < |ps| && ShiftProps(ps, delta).Ok?
    ensures var qs := ShiftProps(ps, delta).value;
            |qs| == |ps| && qs[i].name == ps[i].name && |qs[i].val| == |ps[i].val| &&
            (!IsPhandleName(ps[i].name) ==> qs[i] == ps[i])
  {
    ShiftIfThereAt(ps, PHANDLE, delta, i);
    ShiftIfThereAt(ShiftIfThere(ps, PHANDLE, delta).value, LINUX_PHANDLE, delta, i);
  }

  lemma {:induction false} ShiftPropsLength(ps: seq<Property>, delta: int)
    requires ShiftProps(ps, delta).Ok?
    ensures |ShiftProps(ps, delta).value| == |ps|
  {
    if ps != [] {
      ShiftPropsAt(ps, delta, 0);
    }
  }

  /** Shifting changes values only, and no lengths. */
  lemma {:induction false} ShiftFits(t: Source, delta: int)
    requires Shift(Strip(t), delta).Ok?
    ensures Fits(t, Shift(Strip(t), delta).value)
    decreases t
  {
    var ps, ts := StripProps(t.props), StripKids(t.kids);
    ShiftPropsLength(ps, delta);
    forall i | 0 <= i < |ps|
      ensures var q := ShiftProps(ps, delta).value[i];
              q.name == t.props[i].name && |q.val| == |t.props[i].val|
    {
      ShiftPropsAt(ps, delta, i);
    }
    ShiftAllLength(ts, delta);
    forall i | 0 <= i < |ts| ensures Fits(t.kids[i], ShiftAll(ts, delta).value[i]) {
      ShiftAllAt(ts, delta, i);
      ShiftFits(t.kids[i], delta);
    }
  }

  /** t with shifted phandles. */
  ghost function Shifted(t: Source, delta: int): Source
    requires Shift(Strip(t), delta).Ok?
  {
    ShiftFits(t, delta);
    Revalue(t, Shift(Strip(t), delta).value)
  }

  // ---- the generated node in its place ----

  lemma {:induction false} MirrorAppend(ks: seq<Source>, x: Source)
    requires !Marked(x)
    ensures MirrorKids(ks + [x]) == MirrorKids(ks)
    decreases |ks|
  {
    if ks == [] {
      assert ks + [x] == [x] && [x][1..] == [];
    } else {
      assert (ks + [x])[1..] == ks[1..] + [x];
      MirrorAppend(ks[1..], x);
    }
  }

  lemma {:induction false} StripAppend(ks: seq<Source>, x: Source)
    ensures StripKids(ks + [x]) == StripKids(ks) + [Strip(x)]
  {
  }

  /** No child of t is what fdt_subnode_offset takes for "__local_fixups__". */
  predicate NoFixupsYet(t: Source) { forall i | 0 <= i < |t.kids| :: !NodeNameEq(t.kids[i].name, LOCAL_FIXUPS) }

  /** The generated node is found, and does not count among the marked ones. */
  lemma {:induction false} Attached(t: Source)
    requires WellNamed(t) && Marked(t) && NoFixupsYet(t)
    ensures var w := WithFixups(t);
            StripKids(w.kids) == StripKids(t.kids) + [Mirror(LOCAL_FIXUPS, t)] && w.props == t.props &&
            MirrorKids(w.kids) == MirrorKids(t.kids) && Match(StripKids(w.kids), LOCAL_FIXUPS) == Some(|t.kids|)
  {
    GenerateIs(LOCAL_FIXUPS, t);
    var m := Mirror(LOCAL_FIXUPS, t);
    LiftIs(m);
    StripAppend(t.kids, Lift(m));
    MirrorAppend(t.kids, Lift(m));
    assert forall i | 0 <= i < |t.kids| :: StripKids(t.kids)[i].name == t.kids[i].name;
    MatchLast(StripKids(t.kids), m);
  }

  lemma {:induction false} MatchLast(ts: seq<Tree>, m: Tree)
    requires forall i | 0 <= i < |ts| :: !NodeNameEq(ts[i].name, m.name)
    ensures Match(ts + [m], m.name) == Some(|ts|)
    decreases |ts|
  {
    SameName(m.name);
    if ts == [] {
      assert ts + [m] == [m];
    } else {
      assert (ts + [m])[1..] == ts[1..] + [m] && (ts + [m])[0] == ts[0];
      assert forall i | 0 <= i < |ts| - 1 :: ts[1..][i] == ts[i + 1];
      MatchLast(ts[1..], m);
    }
  }

  lemma {:induction false} AttachedNamed(t: Source)
    requires WellNamed(t) && Marked(t) && NoFixupsYet(t)
    ensures WellNamed(WithFixups(t))
  {
    var m := Generate(Tree(LOCAL_FIXUPS, [], []), [], t);
    LiftIs(m);
    SameName(LOCAL_FIXUPS);
    var ks := t.kids + [Lift(m)];
    forall i | 0 <= i < |ks| && Marked(ks[i]) ensures WellNamed(ks[i]) {
      assert ks[i] == t.kids[i];
    }
    assert forall i | 0 <= i < |t.kids| :: ks[i].name == t.kids[i].name != LOCAL_FIXUPS;
  }

  lemma {:induction false} AttachedCells(t: Source)
    requires AllCells(t)
    ensures AllCells(WithFixups(t))
  {
    var m := Generate(Tree(LOCAL_FIXUPS, [], []), [], t);
    LiftIs(m);
    var ks := t.kids + [Lift(m)];
    forall i | 0 <= i < |ks| ensures AllCells(ks[i]) {
      if i < |t.kids| {
        assert ks[i] == t.kids[i];
      }
    }
  }

  lemma {:induction false} AttachedFound(t: Source)
    requires Unambiguous(t)
    ensures Unambiguous(WithFixups(t))
  {
    var m := Generate(Tree(LOCAL_FIXUPS, [], []), [], t);
    LiftIs(m);
    var ks := t.kids + [Lift(m)];
    forall i | 0 <= i < |ks| && Marked(ks[i]) ensures FoundFirst(ks, i) && Unambiguous(ks[i]) {
      assert ks[i] == t.kids[i] && FoundFirst(t.kids, i);
      assert forall j | 0 <= j < i :: ks[j] == t.kids[j];
    }
  }

  // ---- no references in phandle properties ----

  predicate PropsSpare(ps: seq<LiveProperty>) {
    forall i | 0 <= i < |ps| && IsPhandleName(ps[i].name) :: Offsets(ps[i].marks) == []
  }

  /** No resolved marker stands in a phandle property. */
  predicate SparesAll(t: Source)
    decreases t, 1
  {
    PropsSpare(t.props) && KidsSpare(t.kids)
  }

  predicate KidsSpare(ks: seq<Source>)
    decreases ks, 0
  {
    forall i | 0 <= i < |ks| :: SparesAll(ks[i])
  }

  lemma {:induction false} MirrorPropsSpare(ps: seq<LiveProperty>)
    requires PropsSpare(ps)
    ensures forall i | 0 <= i < |MirrorProps(ps)| :: !IsPhandleName(MirrorProps(ps)[i].name)
    decreases |ps|
  {
    if ps != [] {
      assert forall i | 0 <= i < |ps| - 1 :: ps[1..][i] == ps[i + 1];
      MirrorPropsSpare(ps[1..]);
    }
  }

  lemma {:induction false} MirrorSpares(name: seq<byte>, t: Source)
    requires SparesAll(t)
    ensures SparesPhandles(Mirror(name, t))
    decreases t, 1
  {
    MirrorPropsSpare(t.props);
    MirrorKidsSpare(t.kids);
  }

  lemma {:induction false} MirrorKidsSpare(ks: seq<Source>)
    requires KidsSpare(ks)
    ensures AllSpare(MirrorKids(ks))
    decreases ks, 0
  {
    if ks != [] {
      assert forall i | 0 <= i < |ks| - 1 :: ks[1..][i] == ks[i + 1];
      MirrorSpares(ks[0].name, ks[0]);
      MirrorKidsSpare(ks[1..]);
    }
  }

  // ---- the local update of a compiled overlay ----

  /** What is asked of the overlay that is compiled. */
  ghost predicate Linkable(t: Source) { WellNamed(t) && AllCells(t) && Unambiguous(t) && NoFixupsYet(t) }

  /** If no resolved marker stands in a phandle property, or nothing is added: shifting and updating a
      compiled overlay adds delta to its phandles and to exactly the cells with a resolved marker. */
  lemma {:induction false} LocalUpdateIs(t: Source, delta: int)
    requires Linkable(t) && 0 <= delta < 0x1_0000_0000 && Shift(Strip(WithFixups(t)), delta).Ok?
    requires delta == 0 || SparesAll(t)
    ensures AllCells(Shifted(WithFixups(t), delta))
    ensures UpdateLocal(Shift(Strip(WithFixups(t)), delta).value, delta) ==
            Ok(Relocated(Shifted(WithFixups(t), delta), delta))
  {
    var w := WithFixups(t);
    var u := Shift(Strip(w), delta).value;
    AttachedCells(t);
    ShiftFits(w, delta);
    RevalueKeeps(w, u);
    RevalueSame(w, u);
    if Marked(t) {
      MarkedUpdate(t, delta);
    } else {
      ShiftHomonyms(StripKids(t.kids), delta);
      assert forall i | 0 <= i < |t.kids| :: u.kids[i].name == StripKids(t.kids)[i].name == t.kids[i].name;
      RevalueMarked(t, u);
      UnmarkedStays(Shifted(t, delta), delta);
    }
  }

  lemma {:induction false} MarkedUpdate(t: Source, delta: int)
    requires Linkable(t) && Marked(t) && 0 <= delta < 0x1_0000_0000 && Shift(Strip(WithFixups(t)), delta).Ok?
    requires AllCells(Shifted(WithFixups(t), delta)) && (delta == 0 || SparesAll(t))
    ensures UpdateLocal(Shift(Strip(WithFixups(t)), delta).value, delta) ==
            Ok(Relocated(Shifted(WithFixups(t), delta), delta))
  {
    var w, m := WithFixups(t), Mirror(LOCAL_FIXUPS, t);
    var u := Shift(Strip(w), delta).value;
    Attached(t);
    AttachedNamed(t);
    AttachedFound(t);
    FixupsFound(t, delta);
    if delta == 0 {
      ShiftNothing(m);
    } else {
      MirrorSpares(LOCAL_FIXUPS, t);
      ShiftSpares(m, delta);
    }
    assert u.kids[|t.kids|] == m;
    ShiftFits(w, delta);
    RevalueKeeps(w, u);
    RevalueSame(w, u);
    GeneratedFixups(Shifted(w, delta), delta);
    ResolvesDef(Shifted(w, delta), delta);
    SameFixups(u, m, Mirror(w.name, w), delta);
  }

  /** Where the shifted fixups are. */
  lemma {:induction false} FixupsFound(t: Source, delta: int)
    requires Linkable(t) && Marked(t) && Shift(Strip(WithFixups(t)), delta).Ok?
    ensures var u := Shift(Strip(WithFixups(t)), delta).value;
            |u.kids| == |t.kids| + 1 && Match(u.kids, LOCAL_FIXUPS) == Some(|t.kids|) &&
            Shift(Mirror(LOCAL_FIXUPS, t), delta) == Ok(u.kids[|t.kids|])
  {
    var w := WithFixups(t);
    var u := Shift(Strip(w), delta).value;
    Attached(t);
    ShiftHomonyms(StripKids(w.kids), delta);
    MatchHomonyms(StripKids(w.kids), u.kids, LOCAL_FIXUPS);
    ShiftAllAt(StripKids(w.kids), delta, |t.kids|);
  }

  // ---- a phandle that refers to itself ----

  lemma {:induction false} MirrorPropsBack(ps: seq<LiveProperty>)
    requires forall i | 0 <= i < |MirrorProps(ps)| :: !IsPhandleName(MirrorProps(ps)[i].name)
    ensures PropsSpare(ps)
    decreases |ps|
  {
    if ps != [] {
      var m, a, b := MirrorProps(ps), MirrorProp(ps[0]), MirrorProps(ps[1..]);
      assert m == a + b;
      forall i | 0 <= i < |b| ensures !IsPhandleName(b[i].name) {
        assert b[i] == m[|a| + i];
      }
      MirrorPropsBack(ps[1..]);
      if a != [] {
        assert a[0] == m[0];
      }
      assert forall i | 0 < i < |ps| :: ps[i] == ps[1..][i - 1];
    }
  }

  /** Fixups without phandle properties come from a tree without references in them. */
  lemma {:induction false} MirrorBack(name: seq<byte>, t: Source)
    requires SparesPhandles(Mirror(name, t))
    ensures SparesAll(t)
    decreases t, 1
  {
    MirrorPropsBack(t.props);
    MirrorKidsBack(t.kids);
  }

  lemma {:induction false} MirrorKidsBack(ks: seq<Source>)
    requires AllSpare(MirrorKids(ks))
    ensures KidsSpare(ks)
    decreases ks, 0
  {
    if ks != [] {
      var a, b := if Marked(ks[0]) then [Mirror(ks[0].name, ks[0])] else [], MirrorKids(ks[1..]);
      assert forall i | 0 <= i < |b| :: b[i] == (a + b)[|a| + i];
      MirrorKidsBack(ks[1..]);
      if Marked(ks[0]) {
        assert a[0] == (a + b)[0];
        MirrorBack(ks[0].name, ks[0]);
      } else {
        UnmarkedSpares(ks[0]);
      }
      assert forall i | 0 < i < |ks| :: ks[i] == ks[1..][i - 1];
    }
  }

  lemma {:induction false} UnmarkedSpares(t: Source)
    requires !Marked(t)
    ensures SparesAll(t)
    decreases t
  {
    forall i | 0 <= i < |t.kids| ensures SparesAll(t.kids[i]) {
      UnmarkedSpares(t.kids[i]);
    }
  }

  lemma {:induction false} MirrorPropsNamed(ps: seq<LiveProperty>)
    requires DistinctNames(ps)
    ensures UniqueNames(MirrorProps(ps))
    ensures forall i | 0 <= i < |MirrorProps(ps)| :: exists j :: 0 <= j < |ps| && ps[j].name == MirrorProps(ps)[i].name
    decreases |ps|
  {
    if ps != [] {
      var a, b := MirrorProp(ps[0]), MirrorProps(ps[1..]);
      assert forall i | 0 <= i < |ps| - 1 :: ps[1..][i] == ps[i + 1];
      MirrorPropsNamed(ps[1..]);
      forall i | 0 <= i < |b| ensures b[i].name != ps[0].name && exists j :: 0 <= j < |ps| && ps[j].name == b[i].name {
        var j :| 0 <= j < |ps| - 1 && ps[1..][j].name == b[i].name;
        assert ps[j + 1].name == b[i].name;
      }
      assert a != [] ==> ps[0].name == a[0].name;
    }
  }

  lemma {:induction false} MirrorUnique(name: seq<byte>, t: Source)
    requires WellNamed(t)
    ensures UniqueProps(Mirror(name, t))
    decreases t, 1
  {
    MirrorPropsNamed(t.props);
    MirrorKidsUnique(t.kids);
  }

  lemma {:induction false} MirrorKidsUnique(ks: seq<Source>)
    requires AllWellNamed(ks)
    ensures AllUniqueProps(MirrorKids(ks))
    decreases ks, 0
  {
    if ks != [] {
      assert forall i | 0 <= i < |ks| - 1 :: ks[1..][i] == ks[i + 1];
      if Marked(ks[0]) {
        MirrorUnique(ks[0].name, ks[0]);
      }
      MirrorKidsUnique(ks[1..]);
    }
  }

  /** With such a reference the loader refuses the overlay, if there is anything to add: the shift has
      changed the offset that the fixups list for the phandle, because the list is itself the value of
      a property named "phandle". */
  lemma {:induction false} SelfReferenceRefused(t: Source, delta: int)
    requires Linkable(t) && 0 < delta < 0x1_0000_0000 && Shift(Strip(WithFixups(t)), delta).Ok? && !SparesAll(t)
    ensures UpdateLocal(Shift(Strip(WithFixups(t)), delta).value, delta).Err?
  {
    if !Marked(t) {
      UnmarkedSpares(t);
    }
    var u, m := Shift(Strip(WithFixups(t)), delta).value, Mirror(LOCAL_FIXUPS, t);
    FixupsFound(t, delta);
    var m' := u.kids[|t.kids|];
    if Update(u, m', delta).Ok? {
      ShiftFour(Strip(WithFixups(t)), delta);
      MirrorUnique(LOCAL_FIXUPS, t);
      ShiftNoZero(m, delta);
      UpdateSpares(u, m', delta);
      ShiftLike(m, delta);
      LikeSpares(m, m', false);
      MirrorBack(LOCAL_FIXUPS, t);
    }
  }

  /** The local update of a compiled overlay succeeds iff no reference stands in a phandle property,
      or the base has no phandles. */
  lemma {:induction false} LocalUpdateExact(t: Source, delta: int)
    requires Linkable(t) && 0 <= delta < 0x1_0000_0000 && Shift(Strip(WithFixups(t)), delta).Ok?
    ensures UpdateLocal(Shift(Strip(WithFixups(t)), delta).value, delta).Ok? <==> delta == 0 || SparesAll(t)
  {
    if delta == 0 || SparesAll(t) {
      LocalUpdateIs(t, delta);
    } else {
      SelfReferenceRefused(t, delta);
    }
  }

  /** Updating does not depend on the name of the fixup node. */
  lemma {:induction false} SameFixups(u: Tree, m: Tree, m': Tree, delta: int)
    requires m'.props == m.props && m'.kids == m.kids
    ensures Update(u, m, delta) == Update(u, m', delta)
  {
  }

  // ---- references ----

  function Node(t: Source, p: seq<nat>): Option<Source>
    decreases |p|
  {
    if p == [] then Some(t) else if p[0] < |t.kids| then Node(t.kids[p[0]], p[1..]) else None
  }

  lemma {:induction false} StripAt(t: Source, p: seq<nat>)
    requires Node(t, p).Some?
    ensures Follow(Strip(t), p) == Some(Strip(Node(t, p).value))
    decreases |p|
  {
    if p != [] {
      StripAt(t.kids[p[0]], p[1..]);
    }
  }

  lemma {:induction false} RevalueAt(t: Source, u: Tree, p: seq<nat>)
    requires Fits(t, u) && Node(t, p).Some?
    ensures Follow(u, p).Some? && Fits(Node(t, p).value, Follow(u, p).value)
    ensures Node(Revalue(t, u), p) == Some(Revalue(Node(t, p).value, Follow(u, p).value))
    decreases |p|
  {
    if p != [] {
      RevalueAt(t.kids[p[0]], u.kids[p[0]], p[1..]);
    }
  }

  lemma {:induction false} RelocatedAt(t: Source, delta: int, p: seq<nat>)
    requires AllCells(t) && Node(t, p).Some?
    ensures AllCells(Node(t, p).value) && Follow(Relocated(t, delta), p) == Some(Relocated(Node(t, p).value, delta))
    decreases |p|
  {
    if p != [] {
      RelocatedAt(t.kids[p[0]], delta, p[1..]);
    }
  }

  /** The nodes of t are still where they were. */
  lemma {:induction false} AttachedAt(t: Source, p: seq<nat>)
    requires Node(t, p).Some?
    ensures Node(WithFixups(t), p).Some? && Node(WithFixups(t), p).value.props == Node(t, p).value.props
  {
    if p != [] {
      assert WithFixups(t).kids[p[0]] == t.kids[p[0]];
    }
  }

  /** The properties of a node after both steps. */
  ghost function After(ps: seq<LiveProperty>, delta: int): seq<Property>
    requires ShiftProps(StripProps(ps), delta).Ok? && CellsAll(ps)
  {
    ShiftPropsLength(StripProps(ps), delta);
    var us := ShiftProps(StripProps(ps), delta).value;
    forall i | 0 <= i < |ps| ensures CellsThere(RevalueProps(ps, us)[i]) {
      ShiftPropsAt(StripProps(ps), delta, i);
      assert CellsThere(ps[i]);
    }
    RaiseProps(RevalueProps(ps, us), delta)
  }

  lemma {:induction false} NodeAfter(w: Source, delta: int, p: seq<nat>)
    requires AllCells(w) && Shift(Strip(w), delta).Ok? && AllCells(Shifted(w, delta)) && Node(w, p).Some?
    ensures ShiftProps(StripProps(Node(w, p).value.props), delta).Ok?
    ensures forall i | 0 <= i < |Node(w, p).value.props| :: CellsThere(Node(w, p).value.props[i])
    ensures var r := Follow(Relocated(Shifted(w, delta), delta), p);
            r.Some? && r.value.props == After(Node(w, p).value.props, delta)
  {
    var u := Shift(Strip(w), delta).value;
    ShiftFits(w, delta);
    StripAt(w, p);
    ShiftAt(Strip(w), delta, p);
    RelocatedAt(w, delta, p);
    RevalueAt(w, u, p);
    RelocatedAt(Shifted(w, delta), delta, p);
  }

  lemma {:induction false} ValueRaised(ps: seq<LiveProperty>, delta: int, name: seq<byte>)
    requires CellsAll(ps)
    requires forall i | 0 <= i < |ps| && ps[i].name == name :: Offsets(ps[i].marks) == []
    ensures Value(RaiseProps(ps, delta), name) == Value(StripProps(ps), name)
    decreases |ps|
  {
    if ps != [] {
      assert forall i | 0 <= i < |ps| - 1 :: ps[1..][i] == ps[i + 1];
      ValueRaised(ps[1..], delta, name);
      assert RaiseProps(ps, delta)[1..] == RaiseProps(ps[1..], delta);
    }
  }

  /** The phandle of a node after both steps. */
  lemma {:induction false} PhandleAfter(ps: seq<LiveProperty>, delta: int)
    requires 0 <= delta < 0x1_0000_0000 && PropsSpare(ps) && Phandle(StripProps(ps)) > 0
    requires ShiftProps(StripProps(ps), delta).Ok? && CellsAll(ps)
    ensures Phandle(After(ps, delta)) == Phandle(StripProps(ps)) + delta < 0x1_0000_0000
  {
    var us := ShiftProps(StripProps(ps), delta).value;
    ShiftPropsIs(StripProps(ps), delta);
    ShiftPropsLength(StripProps(ps), delta);
    var qs := RevalueProps(ps, us);
    forall i | 0 <= i < |ps| ensures CellsThere(qs[i]) && StripProps(qs)[i] == us[i] {
      ShiftPropsAt(StripProps(ps), delta, i);
      assert CellsThere(ps[i]);
    }
    assert StripProps(qs) == us;
    ValueRaised(qs, delta, PHANDLE);
    ValueRaised(qs, delta, LINUX_PHANDLE);
  }

  /** A cell with a resolved marker after both steps. */
  lemma {:induction false} CellAfter(ps: seq<LiveProperty>, delta: int, i: nat, j: nat)
    requires 0 <= delta < 0x1_0000_0000 && PropsSpare(ps)
    requires ShiftProps(StripProps(ps), delta).Ok? && CellsAll(ps)
    requires i < |ps| && j < |Offsets(ps[i].marks)| && Disjoint(Offsets(ps[i].marks))
    ensures var o := Offsets(ps[i].marks)[j];
            |After(ps, delta)| == |ps| && o + 4 <= |ps[i].val| == |After(ps, delta)[i].val| &&
            Ld32(After(ps, delta)[i].val, o) == U32(Ld32(ps[i].val, o) + delta)
  {
    assert CellsThere(ps[i]);
    ShiftPropsAt(StripProps(ps), delta, i);
    RaisedCell(ps[i].val, Offsets(ps[i].marks), delta, j);
  }

  /** The main result on references inside an overlay: if the cell at the j-th resolved marker of
      the i-th property of the node at p holds the phandle of the node at q when the overlay is
      compiled, it holds the new phandle of that node after the loader has renumbered, or the loader
      refuses the overlay; it does so iff a reference stands in a phandle property and the base has
      phandles. */
  lemma {:induction false} ReferenceKept(t: Source, delta: int, p: seq<nat>, i: nat, j: nat, q: seq<nat>)
    requires Linkable(t) && 0 <= delta < 0x1_0000_0000 && Shift(Strip(WithFixups(t)), delta).Ok?
    requires Node(t, p).Some? && Node(t, q).Some? && i < |Node(t, p).value.props|
    requires var x := Node(t, p).value.props[i];
             var offs := Offsets(x.marks);
             Disjoint(offs) && j < |offs| && offs[j] + 4 <= |x.val| &&
             Ld32(x.val, offs[j]) == Phandle(StripProps(Node(t, q).value.props)) > 0
    ensures var r := UpdateLocal(Shift(Strip(WithFixups(t)), delta).value, delta);
            var o := Offsets(Node(t, p).value.props[i].marks)[j];
            (r.Ok? <==> delta == 0 || SparesAll(t)) &&
            (r.Ok? ==>
               Follow(r.value, p).Some? && Follow(r.value, q).Some? && i < |Follow(r.value, p).value.props| &&
               o + 4 <= |Follow(r.value, p).value.props[i].val| &&
               Ld32(Follow(r.value, p).value.props[i].val, o) == Phandle(Follow(r.value, q).value.props))
  {
    LocalUpdateExact(t, delta);
    if delta == 0 {
      ReferenceStays(t, p, q);
    } else if SparesAll(t) {
      ReferenceMoved(t, delta, p, i, j, q);
    }
  }

  /** Without phandles in the base nothing changes. */
  lemma {:induction false} ReferenceStays(t: Source, p: seq<nat>, q: seq<nat>)
    requires Linkable(t) && Shift(Strip(WithFixups(t)), 0).Ok? && Node(t, p).Some? && Node(t, q).Some?
    requires UpdateLocal(Shift(Strip(WithFixups(t)), 0).value, 0).Ok?
    ensures var r := UpdateLocal(Shift(Strip(WithFixups(t)), 0).value, 0).value;
            Follow(r, p).Some? && Follow(r, p).value.props == StripProps(Node(t, p).value.props) &&
            Follow(r, q).Some? && Follow(r, q).value.props == StripProps(Node(t, q).value.props)
  {
    var w := WithFixups(t);
    ShiftNothing(Strip(w));
    var k := Match(Strip(w).kids, LOCAL_FIXUPS);
    if k.Some? {
      UpdateNothing(Strip(w), Strip(w).kids[k.value]);
    }
    AttachedAt(t, p);
    AttachedAt(t, q);
    StripAt(w, p);
    StripAt(w, q);
  }

  lemma {:induction false} ReferenceMoved(t: Source, delta: int, p: seq<nat>, i: nat, j: nat, q: seq<nat>)
    requires Linkable(t) && SparesAll(t) && 0 <= delta < 0x1_0000_0000 && Shift(Strip(WithFixups(t)), delta).Ok?
    requires Node(t, p).Some? && Node(t, q).Some? && i < |Node(t, p).value.props|
    requires var x := Node(t, p).value.props[i];
             var offs := Offsets(x.marks);
             Disjoint(offs) && j < |offs| && offs[j] + 4 <= |x.val| &&
             Ld32(x.val, offs[j]) == Phandle(StripProps(Node(t, q).value.props)) > 0
    ensures var r := UpdateLocal(Shift(Strip(WithFixups(t)), delta).value, delta);
            var o := Offsets(Node(t, p).value.props[i].marks)[j];
            r.Ok? && Follow(r.value, p).Some? && Follow(r.value, q).Some? && i < |Follow(r.value, p).value.props| &&
            o + 4 <= |Follow(r.value, p).value.props[i].val| &&
            Ld32(Follow(r.value, p).value.props[i].val, o) == Phandle(Follow(r.value, q).value.props)
  {
    var w := WithFixups(t);
    LocalUpdateIs(t, delta);
    AttachedCells(t);
    AttachedAt(t, p);
    AttachedAt(t, q);
    NodeAfter(w, delta, p);
    NodeAfter(w, delta, q);
    SparesAt(t, p);
    SparesAt(t, q);
    PhandleAfter(Node(t, q).value.props, delta);
    CellAfter(Node(t, p).value.props, delta, i, j);
    U32Small(Phandle(StripProps(Node(t, q).value.props)) + delta);
  }

  lemma {:induction false} SparesAt(t: Source, p: seq<nat>)
    requires SparesAll(t) && Node(t, p).Some?
    ensures PropsSpare(Node(t, p).value.props)
    decreases |p|
  {
    if p != [] {
      SparesAt(t.kids[p[0]], p[1..]);
    }
  }

  // ---- an overlay that goes wrong ----

  /** "a" with a reference in property "r". */
  const POINTING: Source := Source([97], [LiveProperty([114], [0, 0, 0, 1], [Mark(0, true)])], [])

  /** "a@" */
  const EARLIER: Source := Source([97, 64], [], [])

  const TRAP: Source := Source([], [], [EARLIER, POINTING])

  lemma {:induction false} PointingIs()
    ensures Marked(POINTING) && WellNamed(POINTING) && AllCells(POINTING) && AllDisjoint(POINTING)
  {
    var p := POINTING.props[0];
    assert Offsets(p.marks) == [0] by {
      assert p.marks[1..] == [];
    }
    assert MarkedProps(POINTING.props);
    assert CellsThere(p) && Disjoint(Offsets(p.marks));
  }

  /** In that order, the overlay code goes to "a@" with the fixups of "a", and the reference is
      left as it was, for every phandle offset but 0. */
  lemma {:induction false} TrapFails(delta: int)
    requires 0 < delta < 0x1_0000_0000
    ensures WellNamed(TRAP) && AllCells(TRAP) && AllDisjoint(TRAP) && !Resolves(TRAP, delta)
  {
    PointingIs();
    var ks := TRAP.kids;
    assert AllCells(EARLIER) && AllDisjoint(EARLIER) && WellNamed(EARLIER);
    assert KidsCells(ks) && KidsDisjoint(ks) && AllWellNamed(ks) && WellNamed(TRAP);
    TrapAmbiguous();
    Needed(TRAP, delta);
  }

  lemma {:induction false} TrapAmbiguous()
    ensures !Unambiguous(TRAP)
  {
    PointingIs();
    var ks := TRAP.kids;
    assert [97, 64][..1] == [97];
    assert NodeNameEq(ks[0].name, ks[1].name);
    assert Marked(ks[1]) && !FoundFirst(ks, 1);
  }

  /** "n" with `phandle = <&n>`, to which the compiler has given the phandle 1. */
  const SELF: Source := Source([], [], [Source([110], [LiveProperty(PHANDLE, [0, 0, 0, 1], [Mark(0, true)])], [])])

  lemma {:induction false} SelfIs()
    ensures Marked(SELF) && Linkable(SELF) && !SparesAll(SELF)
  {
    var n := SELF.kids[0];
    var p := n.props[0];
    assert p.marks[1..] == [];
    assert Offsets(p.marks) == [0];
    assert MarkedProps(n.props) && Marked(n) && Marked(SELF);
    assert CellsThere(p) && AllCells(n) && KidsCells(SELF.kids);
    assert WellNamed(n) && AllWellNamed(SELF.kids);
    assert FoundFirst(SELF.kids, 0) && Unambiguous(n);
    assert !NodeNameEq(n.name, LOCAL_FIXUPS);
    assert IsPhandleName(p.name) && !PropsSpare(n.props) && !SparesAll(n);
  }

  lemma {:induction false} PhandleShifted(v: int)
    requires 0 <= v < 0x7fff_ffff
    ensures ShiftProps([Property(PHANDLE, Be32(v))], 1) == Ok([Property(PHANDLE, Be32(v + 1))])
  {
    Be32RoundTrip(v);
    U32Small(v + 1);
    assert PHANDLE[0] != LINUX_PHANDLE[0];
    var ps, qs := [Property(PHANDLE, Be32(v))], [Property(PHANDLE, Be32(v + 1))];
    assert ps[1..] == [] && qs[1..] == [];
    assert SetFirst(ps, PHANDLE, Be32(v + 1)) == qs;
    assert ShiftIfThere(ps, PHANDLE, 1) == Ok(qs);
    assert Value(qs, LINUX_PHANDLE) == None;
  }

  /** What is compiled from it. */
  lemma {:induction false} SelfCompiled()
    ensures Strip(WithFixups(SELF)).kids ==
            [Tree([110], [Property(PHANDLE, Be32(1))], []),
             Tree(LOCAL_FIXUPS, [], [Tree([110], [Property(PHANDLE, Be32(0))], [])])]
    ensures Strip(WithFixups(SELF)).props == []
  {
    SelfIs();
    Attached(SELF);
    BeDef(1);
    var n := SELF.kids[0];
    var p := n.props[0];
    assert p.marks[1..] == [] && n.props[1..] == [] && SELF.kids[1..] == [];
    assert Offsets(p.marks) == [0] && [0][1..] == [];
    assert Cells([0]) == Be32(0) + [] == Be32(0);
    assert MirrorProp(p) == [Property(PHANDLE, Be32(0))];
    assert MirrorProps(n.props) == MirrorProp(p) + [] == MirrorProp(p);
    var m := Mirror(n.name, n);
    assert m == Tree([110], [Property(PHANDLE, Be32(0))], []);
    assert MirrorKids(SELF.kids) == [m] + [] == [m];
    assert Mirror(LOCAL_FIXUPS, SELF) == Tree(LOCAL_FIXUPS, [], [m]);
    assert Be32(1) == [0, 0, 0, 1];
    assert StripProps(n.props) == [Property(PHANDLE, Be32(1))];
    assert StripKids(SELF.kids) == [Tree([110], [Property(PHANDLE, Be32(1))], [])];
  }

  /** For a base whose largest phandle is 1 the overlay is shifted, and then refused. */
  lemma {:induction false} SelfFails()
    ensures Shift(Strip(WithFixups(SELF)), 1).Ok?
    ensures UpdateLocal(Shift(Strip(WithFixups(SELF)), 1).value, 1).Err?
  {
    SelfIs();
    SelfCompiled();
    PhandleShifted(0);
    PhandleShifted(1);
    var t := Strip(WithFixups(SELF));
    var n, f := t.kids[0], t.kids[1];
    var k := f.kids[0];
    assert ShiftAll([], 1) == Ok([]) && ShiftProps([], 1) == Ok([]);
    assert Shift(n, 1).Ok? && Shift(k, 1).Ok?;
    assert f.kids[1..] == [] && ShiftAll(f.kids, 1).Ok? && Shift(f, 1).Ok?;
    assert t.kids[1..] == [f] && [f][1..] == [];
    assert ShiftAll([f], 1).Ok? && ShiftAll(t.kids, 1).Ok?;
    SelfReferenceRefused(SELF, 1);
  }
}
