/** fdt_overlay.c: exactly when each step of fdt_overlay_apply succeeds. */
module OverlaySucceeds {
  import opened Bytes
  import opened DeviceTree
  import opened Fdt
  import opened Lookup
  import opened Overlay
  import opened OverlayRefs
  import opened TreePaths
  import opened OverlayApply
  import opened OverlayKeeps
  import opened SymbolicFixups
  import opened OverlayLands
  import Fixups

  // ---- renumbering ----

  /** The property is missing, or is one cell that stays below 2^32 - 1. */
  ghost predicate Raisable(ps: seq<Property>, name: seq<byte>, delta: int) {
    var v := Value(ps, name);
    v.Some? ==> |v.value| == 4 && Ld32(v.value, 0) + delta < 0xffff_ffff
  }

  /** So for both phandle properties of all nodes. */
  ghost predicate AllRaisable(t: Tree, delta: int)
    decreases t, 1
  {
    Raisable(t.props, PHANDLE, delta) && Raisable(t.props, LINUX_PHANDLE, delta) && KidsRaisable(t.kids, delta)
  }

  ghost predicate KidsRaisable(ts: seq<Tree>, delta: int)
    decreases ts, 0
  {
    forall i | 0 <= i < |ts| :: AllRaisable(ts[i], delta)
  }

  lemma {:induction false} OneRaised(ps: seq<Property>, name: seq<byte>, delta: int)
    requires 0 <= delta < 0x1_0000_0000
    ensures ShiftIfThere(ps, name, delta).Ok? <==> Raisable(ps, name, delta)
  {
    var v := Value(ps, name);
    if v.Some? && |v.value| == 4 {
      U32Small(Ld32(v.value, 0) + delta);
    }
  }

  /** The renumbering succeeds iff no phandle gets to 2^32 - 1, and every phandle property is one cell. */
  lemma {:induction false} ShiftExact(t: Tree, delta: int)
    requires 0 <= delta < 0x1_0000_0000
    ensures Shift(t, delta).Ok? <==> AllRaisable(t, delta)
    decreases t, 1
  {
    OneRaised(t.props, PHANDLE, delta);
    if ShiftIfThere(t.props, PHANDLE, delta).Ok? {
      var qs := ShiftIfThere(t.props, PHANDLE, delta).value;
      assert PHANDLE[0] != LINUX_PHANDLE[0];
      ShiftOne(t.props, PHANDLE, delta, LINUX_PHANDLE);
      OneRaised(qs, LINUX_PHANDLE, delta);
    }
    ShiftAllExact(t.kids, delta);
  }

  lemma {:induction false} ShiftAllExact(ts: seq<Tree>, delta: int)
    requires 0 <= delta < 0x1_0000_0000
    ensures ShiftAll(ts, delta).Ok? <==> KidsRaisable(ts, delta)
    decreases ts, 0
  {
    if ts != [] {
      ShiftExact(ts[0], delta);
      ShiftAllExact(ts[1..], delta);
      assert forall i | 0 <= i < |ts| - 1 :: ts[1..][i] == ts[i + 1];
      if KidsRaisable(ts[1..], delta) && AllRaisable(ts[0], delta) {
        forall i | 0 <= i < |ts| ensures AllRaisable(ts[i], delta) {
          if i > 0 {
            assert AllRaisable(ts[1..][i - 1], delta);
          }
        }
      }
    }
  }

  // ---- local fixups ----

  /** The fixup property lists whole cells, all inside the value of the property of its name. */
  ghost predicate Listed(ps: seq<Property>, f: Property) {
    |f.val| % 4 == 0 && Value(ps, f.name).Some? && Reachable(|Value(ps, f.name).value|, f.val, 0)
  }

  /** So for all fixup nodes, each at the first child that is called as it is. */
  ghost predicate Updatable(t: Tree, fix: Tree)
    decreases fix, 1
  {
    (forall i | 0 <= i < |fix.props| :: Listed(t.props, fix.props[i])) && KidsUpdatable(t.kids, fix.kids)
  }

  ghost predicate KidsUpdatable(ks: seq<Tree>, fs: seq<Tree>)
    decreases fs, 0
  {
    forall i | 0 <= i < |fs| :: Match(ks, fs[i].name).Some? && Updatable(ks[Match(ks, fs[i].name).value], fs[i])
  }

  lemma {:induction false} ListedLayout(ps: seq<Property>, qs: seq<Property>, f: Property)
    requires SameLayout(ps, qs)
    ensures Listed(ps, f) <==> Listed(qs, f)
  {
    LayoutValue(ps, qs, f.name);
  }

  lemma {:induction false} PropsExact(ps: seq<Property>, fs: seq<Property>, delta: int)
    ensures UpdateProps(ps, fs, delta).Ok? <==> forall i | 0 <= i < |fs| :: Listed(ps, fs[i])
    decreases |fs|
  {
    if fs != [] && |fs[0].val| % 4 == 0 && Value(ps, fs[0].name).Some? {
      var v := Value(ps, fs[0].name).value;
      BumpExact(v, fs[0].val, 0, delta);
      var r := Bump(v, fs[0].val, 0, delta);
      if r.Ok? {
        var qs := SetFirst(ps, fs[0].name, r.value);
        SetFirstLayout(ps, fs[0].name, r.value);
        PropsExact(qs, fs[1..], delta);
        assert forall i | 0 <= i < |fs| - 1 :: fs[1..][i] == fs[i + 1];
        forall i | 0 <= i < |fs| ensures Listed(ps, fs[i]) <==> Listed(qs, fs[i]) {
          ListedLayout(ps, qs, fs[i]);
        }
        RestListed(qs, fs);
      }
    }
  }

  lemma {:induction false} RestListed(ps: seq<Property>, fs: seq<Property>)
    requires fs != []
    ensures (forall i | 0 <= i < |fs| :: Listed(ps, fs[i])) <==>
            Listed(ps, fs[0]) && forall i | 0 <= i < |fs| - 1 :: Listed(ps, fs[1..][i])
  {
    if Listed(ps, fs[0]) && forall i | 0 <= i < |fs| - 1 :: Listed(ps, fs[1..][i]) {
      forall i | 0 <= i < |fs| ensures Listed(ps, fs[i]) {
        if i > 0 {
          assert Listed(ps, fs[1..][i - 1]);
        }
      }
    }
  }

  lemma {:induction false} UpdatableLike(t: Tree, u: Tree, fix: Tree)
    requires Like(t, u, false)
    ensures Updatable(t, fix) <==> Updatable(u, fix)
    decreases fix, 1
  {
    forall i | 0 <= i < |fix.props| ensures Listed(t.props, fix.props[i]) <==> Listed(u.props, fix.props[i]) {
      ListedLayout(t.props, u.props, fix.props[i]);
    }
    KidsUpdatableLike(t.kids, u.kids, fix.kids);
  }

  lemma {:induction false} KidsUpdatableLike(ks: seq<Tree>, us: seq<Tree>, fs: seq<Tree>)
    requires AllLike(ks, us, false)
    ensures KidsUpdatable(ks, fs) <==> KidsUpdatable(us, fs)
    decreases fs, 0
  {
    forall i | 0 <= i < |fs|
      ensures Match(ks, fs[i].name) == Match(us, fs[i].name)
      ensures Match(ks, fs[i].name).Some? ==>
                (Updatable(ks[Match(ks, fs[i].name).value], fs[i]) <==>
                 Updatable(us[Match(ks, fs[i].name).value], fs[i]))
    {
      LikeHomonyms(ks, us, false);
      MatchHomonyms(ks, us, fs[i].name);
      var m := Match(ks, fs[i].name);
      if m.Some? {
        UpdatableLike(ks[m.value], us[m.value], fs[i]);
      }
    }
  }

  /** The local update succeeds iff every fixup node has a node, every fixup property a property, and all
      cells listed lie in its value. */
  lemma {:induction false} UpdateExact(t: Tree, fix: Tree, delta: int)
    ensures Update(t, fix, delta).Ok? <==> Updatable(t, fix)
    decreases fix, 1
  {
    PropsExact(t.props, fix.props, delta);
    UpdateKidsExact(t.kids, fix.kids, delta);
  }

  lemma {:induction false} UpdateKidsExact(ks: seq<Tree>, fs: seq<Tree>, delta: int)
    ensures UpdateKids(ks, fs, delta).Ok? <==> KidsUpdatable(ks, fs)
    decreases fs, 0
  {
    if fs != [] && Match(ks, fs[0].name).Some? {
      var i := Match(ks, fs[0].name).value;
      UpdateExact(ks[i], fs[0], delta);
      var r := Update(ks[i], fs[0], delta);
      if r.Ok? {
        UpdateLike(ks[i], fs[0], delta);
        LikeOne(ks, i, r.value, false);
        UpdateKidsExact(ks[i := r.value], fs[1..], delta);
        KidsUpdatableLike(ks, ks[i := r.value], fs[1..]);
        RestUpdatable(ks, fs);
      }
    }
  }

  lemma {:induction false} RestUpdatable(ks: seq<Tree>, fs: seq<Tree>)
    requires fs != []
    ensures KidsUpdatable(ks, fs) <==>
            Match(ks, fs[0].name).Some? && Updatable(ks[Match(ks, fs[0].name).value], fs[0]) &&
            KidsUpdatable(ks, fs[1..])
  {
    assert forall i | 0 <= i < |fs| - 1 :: fs[1..][i] == fs[i + 1];
    if Match(ks, fs[0].name).Some? && Updatable(ks[Match(ks, fs[0].name).value], fs[0]) && KidsUpdatable(ks, fs[1..]) {
      forall i | 0 <= i < |fs|
        ensures Match(ks, fs[i].name).Some? && Updatable(ks[Match(ks, fs[i].name).value], fs[i])
      {
        if i > 0 {
          assert Updatable(ks[Match(ks, fs[1..][i - 1].name).value], fs[1..][i - 1]);
        }
      }
    }
  }

  // ---- symbolic fixups ----

  /** The label stands for a phandle, and the cell is there. */
  ghost predicate Patchable(base: Tree, t: Tree, l: Labelled) {
    SymbolPhandle(base, l.symbol).Ok? && FindPath(t, l.entry.path).Ok? &&
    Follow(t, FindPath(t, l.entry.path).value).Some? &&
    var w := Value(Follow(t, FindPath(t, l.entry.path).value).value.props, l.entry.name);
    w.Some? && Offset32(l.entry.off) + 4 <= |w.value|
  }

  lemma {:induction false} PatchableLike(base: Tree, t: Tree, u: Tree, l: Labelled)
    requires Like(t, u, false)
    ensures Patchable(base, t, l) <==> Patchable(base, u, l)
  {
    LikeFindPath(t, u, l.entry.path);
    if FindPath(t, l.entry.path).Ok? {
      var p := FindPath(t, l.entry.path).value;
      LikeFollow(t, u, p, false);
      if Follow(t, p).Some? {
        LayoutValue(Follow(t, p).value.props, Follow(u, p).value.props, l.entry.name);
      }
    }
  }

  lemma {:induction false} EntryExact(base: Tree, t: Tree, l: Labelled)
    ensures FixEntry(base, t, l.symbol, l.entry).Ok? <==> Patchable(base, t, l)
  {
    U32Small(Offset32(l.entry.off) + 4);
    if FindPath(t, l.entry.path).Ok? {
      FindPathFollows(t, l.entry.path);
    }
  }

  lemma {:induction false} ListExact(base: Tree, t: Tree, ls: seq<Labelled>)
    ensures FixList(base, t, ls).Ok? <==> forall i | 0 <= i < |ls| :: Patchable(base, t, ls[i])
    decreases |ls|
  {
    if ls != [] {
      EntryExact(base, t, ls[0]);
      if FixEntry(base, t, ls[0].symbol, ls[0].entry).Ok? {
        var t1 := FixEntry(base, t, ls[0].symbol, ls[0].entry).value;
        EntryElsewhere(base, t, ls[0], [], [], 0, 0);
        ListExact(base, t1, ls[1..]);
        forall i | 0 <= i < |ls| - 1 ensures Patchable(base, t1, ls[1..][i]) <==> Patchable(base, t, ls[i + 1]) {
          PatchableLike(base, t, t1, ls[i + 1]);
        }
        RestPatchable(base, t, t1, ls);
      }
    }
  }

  lemma {:induction false} RestPatchable(base: Tree, t: Tree, t1: Tree, ls: seq<Labelled>)
    requires ls != []
    requires forall i | 0 <= i < |ls| - 1 :: Patchable(base, t1, ls[1..][i]) <==> Patchable(base, t, ls[i + 1])
    ensures (forall i | 0 <= i < |ls| :: Patchable(base, t, ls[i])) <==>
            Patchable(base, t, ls[0]) && forall i | 0 <= i < |ls| - 1 :: Patchable(base, t1, ls[1..][i])
  {
    if Patchable(base, t, ls[0]) && forall i | 0 <= i < |ls| - 1 :: Patchable(base, t1, ls[1..][i]) {
      forall i | 0 <= i < |ls| ensures Patchable(base, t, ls[i]) {
        if i > 0 {
          assert Patchable(base, t1, ls[1..][i - 1]);
          assert Patchable(base, t, ls[(i - 1) + 1]);
        }
      }
    }
  }

  /** The list of fixups can be parsed, and all entries can be patched. */
  ghost predicate AllPatchable(base: Tree, t: Tree) {
    var m := Match(t.kids, FIXUPS);
    m.Some? ==>
      var es := Entries(t.kids[m.value].props);
      es.Some? && forall i | 0 <= i < |es.value| :: Patchable(base, t, es.value[i])
  }

  lemma {:induction false} FixAllExact(base: Tree, t: Tree)
    ensures FixAll(base, t).Ok? <==> AllPatchable(base, t)
  {
    var m := Match(t.kids, FIXUPS);
    if m.Some? {
      var fs := t.kids[m.value].props;
      if FixProps(base, t, fs).Ok? {
        PropsFixed(base, t, fs);
      }
      if Entries(fs).Some? {
        PropsFix(base, t, fs);
        ListExact(base, t, Entries(fs).value);
      }
    }
  }

  // ---- fragments ----

  /** Every fragment with an __overlay__ node has a target in the base as it is by then. */
  ghost predicate AllAimed(base: Tree, fs: seq<Tree>) {
    forall k | 0 <= k < |fs| && Part(fs[k]).Some? :: exists q :: Aims(Halfway(base, fs, k), fs[k], q)
  }

  lemma {:induction false} AimedIs(base: Tree, f: Tree)
    ensures Target(base, f).Ok? <==> exists q :: Aims(base, f, q)
  {
    if Target(base, f).Ok? {
      TargetIs(base, f, Target(base, f).value);
    }
    if q :| Aims(base, f, q) {
      TargetIs(base, f, q);
    }
  }

  lemma {:induction false} MergeExact(base: Tree, fs: seq<Tree>)
    ensures MergeFragments(base, fs).Ok? <==> AllAimed(base, fs)
    decreases |fs|
  {
    if fs != [] {
      AimedIs(base, fs[0]);
      var b1 := if Part(fs[0]).None? || Target(base, fs[0]).Err? then base else MergeAt(base, fs[0]);
      MergeExact(b1, fs[1..]);
      forall k | 0 <= k < |fs| - 1
        ensures Halfway(b1, fs[1..], k) == Halfway(base, fs, k + 1) && fs[1..][k] == fs[k + 1]
      {
      }
      RestAimed(base, b1, fs);
    }
  }

  lemma {:induction false} RestAimed(base: Tree, b1: Tree, fs: seq<Tree>)
    requires fs != []
    requires forall k | 0 <= k < |fs| - 1 ::
               Halfway(b1, fs[1..], k) == Halfway(base, fs, k + 1) && fs[1..][k] == fs[k + 1]
    ensures AllAimed(base, fs) <==>
            (Part(fs[0]).Some? ==> exists q :: Aims(base, fs[0], q)) && AllAimed(b1, fs[1..])
  {
    assert Halfway(base, fs, 0) == base;
    if AllAimed(base, fs) {
      forall k | 0 <= k < |fs| - 1 && Part(fs[1..][k]).Some?
        ensures exists q :: Aims(Halfway(b1, fs[1..], k), fs[1..][k], q)
      {
        assert Part(fs[k + 1]).Some?;
      }
    }
    if (Part(fs[0]).Some? ==> exists q :: Aims(base, fs[0], q)) && AllAimed(b1, fs[1..]) {
      forall k | 0 <= k < |fs| && Part(fs[k]).Some? ensures exists q :: Aims(Halfway(base, fs, k), fs[k], q) {
        if k > 0 {
          assert Halfway(b1, fs[1..], k - 1) == Halfway(base, fs, (k - 1) + 1) && fs[1..][k - 1] == fs[(k - 1) + 1];
        }
      }
    }
  }

  // ---- the whole call ----

  /** The local fixups, if there are any. */
  ghost predicate LocalsFit(s: Tree) {
    var m := Match(s.kids, LOCAL_FIXUPS);
    m.Some? ==> Updatable(s, s.kids[m.value])
  }

  /** The main result on success: fdt_overlay_apply succeeds iff every phandle property of the overlay is
      one cell that stays below 2^32 - 1 when it is raised by the largest phandle of the base; then all
      cells that the local fixups list are there; then all symbolic fixups can be parsed, their labels
      stand for phandles of the base and their cells are there; and then every fragment has a target. */
  lemma {:induction false} ApplyExact(base: Tree, over: Tree)
    ensures var delta := MaxPhandle([base]); Shift(over, delta).Ok? <==> AllRaisable(over, delta)
    ensures var delta := MaxPhandle([base]);
            AllRaisable(over, delta) ==>
              var s := Shift(over, delta).value; UpdateLocal(s, delta).Ok? <==> LocalsFit(s)
    ensures var delta := MaxPhandle([base]);
            AllRaisable(over, delta) && LocalsFit(Shift(over, delta).value) ==>
              var u := UpdateLocal(Shift(over, delta).value, delta).value;
              FixAll(base, u).Ok? <==> AllPatchable(base, u)
    ensures var delta := MaxPhandle([base]);
            Apply(base, over).Ok? <==>
            AllRaisable(over, delta) && LocalsFit(Shift(over, delta).value) &&
            var u := UpdateLocal(Shift(over, delta).value, delta).value;
            AllPatchable(base, u) && AllAimed(base, FixAll(base, u).value.kids)
  {
    var delta := MaxPhandle([base]);
    ShiftExact(over, delta);
    if Shift(over, delta).Ok? {
      var s := Shift(over, delta).value;
      var m := Match(s.kids, LOCAL_FIXUPS);
      if m.Some? {
        UpdateExact(s, s.kids[m.value], delta);
      }
      if UpdateLocal(s, delta).Ok? {
        var u := UpdateLocal(s, delta).value;
        FixAllExact(base, u);
        if FixAll(base, u).Ok? {
          MergeExact(base, FixAll(base, u).value.kids);
        }
      }
    }
  }
}
