/** fdt_overlay.c: what the steps before the merge leave of an overlay's nodes and phandles. */
module OverlayKeeps {
  import opened Bytes
  import opened DeviceTree
  import opened Fdt
  import opened Overlay
  import opened OverlayRefs
  import opened Paths
  import opened TreePaths
  import opened OverlayApply

  // ---- same shape ----

  /** Same property names in the same order, values of the same lengths. */
  predicate SameLayout(ps: seq<Property>, qs: seq<Property>) {
    |ps| == |qs| && forall i | 0 <= i < |ps| :: ps[i].name == qs[i].name && |ps[i].val| == |qs[i].val|
  }

  /** u is t with other property values of the same lengths; if `same`, all nodes have the phandles
      that they have in t. */
  ghost predicate Like(t: Tree, u: Tree, same: bool)
    decreases t, 1
  {
    t.name == u.name && SameLayout(t.props, u.props) && (same ==> Phandle(t.props) == Phandle(u.props)) &&
    AllLike(t.kids, u.kids, same)
  }

  ghost predicate AllLike(ts: seq<Tree>, us: seq<Tree>, same: bool)
    decreases ts, 0
  {
    |ts| == |us| && forall i | 0 <= i < |ts| :: Like(ts[i], us[i], same)
  }

  lemma {:induction false} LikeSelf(t: Tree, same: bool)
    ensures Like(t, t, same)
    decreases t
  {
    forall i | 0 <= i < |t.kids| ensures Like(t.kids[i], t.kids[i], same) {
      LikeSelf(t.kids[i], same);
    }
  }

  lemma {:induction false} LikeTrans(t: Tree, u: Tree, w: Tree, same: bool)
    requires Like(t, u, same) && Like(u, w, same)
    ensures Like(t, w, same)
    decreases t
  {
    forall i | 0 <= i < |t.kids| ensures Like(t.kids[i], w.kids[i], same) {
      LikeTrans(t.kids[i], u.kids[i], w.kids[i], same);
    }
  }

  /** One child after another. */
  lemma {:induction false} LikeOne(ts: seq<Tree>, i: nat, u: Tree, same: bool)
    requires i < |ts| && Like(ts[i], u, same)
    ensures AllLike(ts, ts[i := u], same)
  {
    forall j | 0 <= j < |ts| ensures Like(ts[j], ts[i := u][j], same) {
      LikeSelf(ts[j], same);
    }
  }

  lemma {:induction false} LikeLoose(t: Tree, u: Tree)
    requires Like(t, u, true)
    ensures Like(t, u, false)
    decreases t
  {
    forall i | 0 <= i < |t.kids| ensures Like(t.kids[i], u.kids[i], false) {
      LikeLoose(t.kids[i], u.kids[i]);
    }
  }

  lemma {:induction false} LikeHomonyms(ts: seq<Tree>, us: seq<Tree>, same: bool)
    requires AllLike(ts, us, same)
    ensures Homonyms(ts, us)
  {
    forall i | 0 <= i < |ts| ensures ts[i].name == us[i].name {
      assert Like(ts[i], us[i], same);
    }
  }

  /** Values there and their lengths. */
  lemma {:induction false} LayoutValue(ps: seq<Property>, qs: seq<Property>, name: seq<byte>)
    requires SameLayout(ps, qs)
    ensures Value(ps, name).Some? <==> Value(qs, name).Some?
    ensures Value(ps, name).Some? ==> |Value(ps, name).value| == |Value(qs, name).value|
    decreases |ps|
  {
    if ps != [] {
      assert forall i | 0 <= i < |ps| - 1 :: ps[1..][i] == ps[i + 1] && qs[1..][i] == qs[i + 1];
      LayoutValue(ps[1..], qs[1..], name);
    }
  }

  lemma {:induction false} LikeSound(t: Tree, u: Tree, same: bool)
    requires Like(t, u, same) && Sound(t)
    ensures Sound(u)
    decreases t
  {
    LayoutValue(t.props, u.props, PHANDLE);
    LayoutValue(t.props, u.props, LINUX_PHANDLE);
    forall i | 0 <= i < |u.kids| ensures Sound(u.kids[i]) {
      assert Sound(t.kids[i]) && Like(t.kids[i], u.kids[i], same);
      LikeSound(t.kids[i], u.kids[i], same);
    }
  }

  /** Every phandle property that is looked at has four bytes. */
  ghost predicate FourBytes(t: Tree)
    decreases t, 1
  {
    (forall name | IsPhandleName(name) && Value(t.props, name).Some? :: |Value(t.props, name).value| == 4) &&
    AllFourBytes(t.kids)
  }

  ghost predicate AllFourBytes(ts: seq<Tree>)
    decreases ts, 0
  {
    forall i | 0 <= i < |ts| :: FourBytes(ts[i])
  }

  lemma {:induction false} LikeFour(t: Tree, u: Tree, same: bool)
    requires Like(t, u, same) && FourBytes(t)
    ensures FourBytes(u)
    decreases t
  {
    forall name | IsPhandleName(name) && Value(u.props, name).Some? ensures |Value(u.props, name).value| == 4 {
      LayoutValue(t.props, u.props, name);
    }
    forall i | 0 <= i < |u.kids| ensures FourBytes(u.kids[i]) {
      assert FourBytes(t.kids[i]) && Like(t.kids[i], u.kids[i], same);
      LikeFour(t.kids[i], u.kids[i], same);
    }
  }

  lemma {:induction false} LikeSpares(t: Tree, u: Tree, same: bool)
    requires Like(t, u, same) && SparesPhandles(u)
    ensures SparesPhandles(t)
    decreases t
  {
    forall i | 0 <= i < |t.kids| ensures SparesPhandles(t.kids[i]) {
      LikeSpares(t.kids[i], u.kids[i], same);
    }
  }

  lemma {:induction false} LikeFollow(t: Tree, u: Tree, p: seq<nat>, same: bool)
    requires Like(t, u, same)
    ensures Follow(t, p).Some? <==> Follow(u, p).Some?
    ensures Follow(t, p).Some? ==> Like(Follow(t, p).value, Follow(u, p).value, same)
    decreases |p|
  {
    if p != [] && p[0] < |t.kids| {
      LikeFollow(t.kids[p[0]], u.kids[p[0]], p[1..], same);
    }
  }

  lemma {:induction false} LikePath(t: Tree, u: Tree, path: seq<byte>, i: nat)
    requires Like(t, u, false) && i <= |path|
    ensures TreeFrom(t, path, i) == TreeFrom(u, path, i)
    decreases |path| - i
  {
    LikeHomonyms(t.kids, u.kids, false);
    var j := SkipSlashes(path, i);
    if j < |path| {
      var q := NextSlash(path, j);
      MatchHomonyms(t.kids, u.kids, path[j..q]);
      var m := Match(t.kids, path[j..q]);
      if m.Some? {
        LikePath(t.kids[m.value], u.kids[m.value], path, q);
      }
    }
  }

  lemma {:induction false} LikeFindPath(t: Tree, u: Tree, path: seq<byte>)
    requires Like(t, u, false)
    ensures FindPath(t, path) == FindPath(u, path)
  {
    if path != [] {
      LikePath(t, u, path, 0);
    }
  }

  /** Equal phandles everywhere make equal multisets. */
  lemma {:induction false} LikePhandles(t: Tree, u: Tree)
    requires Like(t, u, true)
    ensures Phandles(t) == Phandles(u)
    decreases t, 1
  {
    AllLikePhandles(t.kids, u.kids);
  }

  lemma {:induction false} AllLikePhandles(ts: seq<Tree>, us: seq<Tree>)
    requires AllLike(ts, us, true)
    ensures PhandlesOf(ts) == PhandlesOf(us)
    decreases ts, 0
  {
    if ts != [] {
      assert forall i | 0 <= i < |ts| - 1 :: ts[1..][i] == ts[i + 1] && us[1..][i] == us[i + 1];
      LikePhandles(ts[0], us[0]);
      AllLikePhandles(ts[1..], us[1..]);
    }
  }

  // ---- overlay_update_local_references ----

  lemma {:induction false} SetFirstLayout(ps: seq<Property>, name: seq<byte>, val: seq<byte>)
    requires Value(ps, name).Some? ==> |val| == |Value(ps, name).value|
    ensures SameLayout(ps, SetFirst(ps, name, val))
    decreases |ps|
  {
    if ps != [] && ps[0].name != name {
      SetFirstLayout(ps[1..], name, val);
      var qs := SetFirst(ps, name, val);
      assert qs[1..] == SetFirst(ps[1..], name, val);
      assert forall i | 0 < i < |ps| :: ps[i] == ps[1..][i - 1] && qs[i] == qs[1..][i - 1];
    }
  }

  lemma {:induction false} LayoutTrans(ps: seq<Property>, qs: seq<Property>, rs: seq<Property>)
    requires SameLayout(ps, qs) && SameLayout(qs, rs)
    ensures SameLayout(ps, rs)
  {
  }

  lemma {:induction false} UpdatePropsLayout(ps: seq<Property>, fs: seq<Property>, delta: int)
    requires UpdateProps(ps, fs, delta).Ok?
    ensures SameLayout(ps, UpdateProps(ps, fs, delta).value)
    decreases |fs|
  {
    if fs != [] {
      var b := Bump(Value(ps, fs[0].name).value, fs[0].val, 0, delta).value;
      var qs := SetFirst(ps, fs[0].name, b);
      SetFirstLayout(ps, fs[0].name, b);
      UpdatePropsLayout(qs, fs[1..], delta);
      LayoutTrans(ps, qs, UpdateProps(ps, fs, delta).value);
    }
  }

  /** Nothing but phandle properties gives a phandle. */
  lemma {:induction false} UpdatePropsPhandle(ps: seq<Property>, fs: seq<Property>, delta: int)
    requires UpdateProps(ps, fs, delta).Ok? && forall i | 0 <= i < |fs| :: !IsPhandleName(fs[i].name)
    ensures Phandle(UpdateProps(ps, fs, delta).value) == Phandle(ps)
    decreases |fs|
  {
    if fs != [] {
      var b := Bump(Value(ps, fs[0].name).value, fs[0].val, 0, delta).value;
      ValueSet(ps, fs[0].name, b, PHANDLE);
      ValueSet(ps, fs[0].name, b, LINUX_PHANDLE);
      assert forall i | 0 <= i < |fs| - 1 :: fs[1..][i] == fs[i + 1];
      UpdatePropsPhandle(SetFirst(ps, fs[0].name, b), fs[1..], delta);
    }
  }

  lemma {:induction false} UpdateLike(t: Tree, fix: Tree, delta: int)
    requires Update(t, fix, delta).Ok?
    ensures Like(t, Update(t, fix, delta).value, false)
    ensures SparesPhandles(fix) ==> Like(t, Update(t, fix, delta).value, true)
    decreases fix, 1
  {
    UpdatePropsLayout(t.props, fix.props, delta);
    UpdateKidsLike(t.kids, fix.kids, delta);
    if SparesPhandles(fix) {
      UpdatePropsPhandle(t.props, fix.props, delta);
    }
  }

  lemma {:induction false} UpdateKidsLike(ks: seq<Tree>, fs: seq<Tree>, delta: int)
    requires UpdateKids(ks, fs, delta).Ok?
    ensures AllLike(ks, UpdateKids(ks, fs, delta).value, false)
    ensures AllSpare(fs) ==> AllLike(ks, UpdateKids(ks, fs, delta).value, true)
    decreases fs, 0
  {
    if fs == [] {
      AllSelf(ks);
    } else {
      var i := Match(ks, fs[0].name).value;
      UpdateLike(ks[i], fs[0], delta);
      var u := Update(ks[i], fs[0], delta).value;
      LikeOne(ks, i, u, false);
      UpdateKidsLike(ks[i := u], fs[1..], delta);
      AllTrans(ks, ks[i := u], UpdateKids(ks, fs, delta).value, false);
      if AllSpare(fs) {
        assert SparesPhandles(fs[0]) && forall j | 0 <= j < |fs| - 1 :: fs[1..][j] == fs[j + 1];
        LikeOne(ks, i, u, true);
        AllTrans(ks, ks[i := u], UpdateKids(ks, fs, delta).value, true);
      }
    }
  }

  lemma {:induction false} AllSelf(ts: seq<Tree>)
    ensures AllLike(ts, ts, true) && AllLike(ts, ts, false)
  {
    forall i | 0 <= i < |ts| ensures Like(ts[i], ts[i], true) && Like(ts[i], ts[i], false) {
      LikeSelf(ts[i], true);
      LikeSelf(ts[i], false);
    }
  }

  lemma {:induction false} AllTrans(ts: seq<Tree>, us: seq<Tree>, ws: seq<Tree>, same: bool)
    requires AllLike(ts, us, same) && AllLike(us, ws, same)
    ensures AllLike(ts, ws, same)
  {
    forall i | 0 <= i < |ts| ensures Like(ts[i], ws[i], same) {
      LikeTrans(ts[i], us[i], ws[i], same);
    }
  }

  // ---- the shift changes the fixups of phandles too ----

  /** Every phandle property in the tree has four bytes and is not zero. */
  ghost predicate NoZeroCells(t: Tree)
    decreases t, 1
  {
    (forall i | 0 <= i < |t.props| && IsPhandleName(t.props[i].name) ::
       |t.props[i].val| == 4 && Ld32(t.props[i].val, 0) > 0) &&
    AllNoZero(t.kids)
  }

  ghost predicate AllNoZero(ts: seq<Tree>)
    decreases ts, 0
  {
    forall i | 0 <= i < |ts| :: NoZeroCells(ts[i])
  }

  /** The property at its own place among properties of distinct names. */
  lemma {:induction false} OwnValue(ps: seq<Property>, i: nat)
    requires UniqueNames(ps) && i < |ps|
    ensures Value(ps, ps[i].name) == Some(ps[i].val)
    decreases |ps|
  {
    if i > 0 {
      assert ps[0].name != ps[i].name && ps[1..][i - 1] == ps[i];
      assert forall j | 0 <= j < |ps| - 1 :: ps[1..][j] == ps[j + 1];
      OwnValue(ps[1..], i - 1);
    }
  }

  lemma {:induction false} ShiftedCells(ps: seq<Property>, delta: int)
    requires 0 < delta < 0x1_0000_0000 && ShiftProps(ps, delta).Ok? && UniqueNames(ps)
    ensures var qs := ShiftProps(ps, delta).value;
            SameLayout(ps, qs) && forall i | 0 <= i < |qs| && IsPhandleName(qs[i].name) ::
              |qs[i].val| == 4 && Ld32(qs[i].val, 0) > 0
  {
    var qs := ShiftProps(ps, delta).value;
    ShiftLayout(ps, delta);
    ShiftedValues(ps, delta);
    forall i | 0 <= i < |qs| && IsPhandleName(qs[i].name) ensures |qs[i].val| == 4 && Ld32(qs[i].val, 0) > 0 {
      OwnValue(qs, i);
    }
  }

  lemma {:induction false} ShiftLayout(ps: seq<Property>, delta: int)
    requires ShiftProps(ps, delta).Ok?
    ensures SameLayout(ps, ShiftProps(ps, delta).value)
  {
    var rs := ShiftIfThere(ps, PHANDLE, delta).value;
    OneLayout(ps, PHANDLE, delta);
    OneLayout(rs, LINUX_PHANDLE, delta);
    LayoutTrans(ps, rs, ShiftProps(ps, delta).value);
  }

  lemma {:induction false} OneLayout(ps: seq<Property>, name: seq<byte>, delta: int)
    requires ShiftIfThere(ps, name, delta).Ok?
    ensures SameLayout(ps, ShiftIfThere(ps, name, delta).value)
  {
    if Value(ps, name).Some? {
      SetFirstLayout(ps, name, Be32(Ld32(Value(ps, name).value, 0) + delta));
    }
  }

  lemma {:induction false} ShiftedValues(ps: seq<Property>, delta: int)
    requires 0 <= delta < 0x1_0000_0000 && ShiftProps(ps, delta).Ok?
    ensures var qs := ShiftProps(ps, delta).value;
            forall name | IsPhandleName(name) && Value(qs, name).Some? ::
              |Value(qs, name).value| == 4 && Ld32(Value(qs, name).value, 0) >= delta
  {
    assert PHANDLE[0] != LINUX_PHANDLE[0];
    var rs := ShiftIfThere(ps, PHANDLE, delta).value;
    ShiftOne(ps, PHANDLE, delta, PHANDLE);
    ShiftOne(rs, LINUX_PHANDLE, delta, PHANDLE);
    ShiftOne(ps, PHANDLE, delta, LINUX_PHANDLE);
    ShiftOne(rs, LINUX_PHANDLE, delta, LINUX_PHANDLE);
    CellNotNegative(ps, PHANDLE);
    CellNotNegative(ps, LINUX_PHANDLE);
  }

  lemma {:induction false} CellNotNegative(ps: seq<Property>, name: seq<byte>)
    ensures Cell(ps, name).Some? ==> Cell(ps, name).value >= 0
  {
  }

  lemma {:induction false} ShiftNoZero(t: Tree, delta: int)
    requires 0 < delta < 0x1_0000_0000 && Shift(t, delta).Ok? && UniqueProps(t)
    ensures NoZeroCells(Shift(t, delta).value)
    decreases t
  {
    ShiftedCells(t.props, delta);
    ShiftAllLength(t.kids, delta);
    var ks := ShiftAll(t.kids, delta).value;
    forall i | 0 <= i < |ks| ensures NoZeroCells(ks[i]) {
      ShiftAllAt(t.kids, delta, i);
      assert UniqueProps(t.kids[i]);
      ShiftNoZero(t.kids[i], delta);
    }
  }

  /** After a successful shift every phandle property has four bytes. */
  lemma {:induction false} ShiftSound(t: Tree, delta: int)
    requires 0 <= delta < 0x1_0000_0000 && Shift(t, delta).Ok? && UniqueProps(t)
    ensures Sound(Shift(t, delta).value)
    decreases t
  {
    var u := Shift(t, delta).value;
    ShiftLayout(t.props, delta);
    ShiftedValues(t.props, delta);
    assert IsPhandleName(PHANDLE) && IsPhandleName(LINUX_PHANDLE);
    ShiftAllLength(t.kids, delta);
    forall i | 0 <= i < |u.kids| ensures Sound(u.kids[i]) {
      ShiftAllAt(t.kids, delta, i);
      assert UniqueProps(t.kids[i]);
      ShiftSound(t.kids[i], delta);
    }
  }

  lemma {:induction false} ShiftFour(t: Tree, delta: int)
    requires 0 <= delta < 0x1_0000_0000 && Shift(t, delta).Ok?
    ensures FourBytes(Shift(t, delta).value)
    decreases t
  {
    var u := Shift(t, delta).value;
    ShiftedValues(t.props, delta);
    ShiftAllLength(t.kids, delta);
    forall i | 0 <= i < |u.kids| ensures FourBytes(u.kids[i]) {
      ShiftAllAt(t.kids, delta, i);
      ShiftFour(t.kids[i], delta);
    }
  }

  lemma {:induction false} ShiftLike(t: Tree, delta: int)
    requires Shift(t, delta).Ok?
    ensures Like(t, Shift(t, delta).value, false)
    decreases t
  {
    ShiftLayout(t.props, delta);
    ShiftAllLength(t.kids, delta);
    forall i | 0 <= i < |t.kids| ensures Like(t.kids[i], ShiftAll(t.kids, delta).value[i], false) {
      ShiftAllAt(t.kids, delta, i);
      ShiftLike(t.kids[i], delta);
    }
  }

  // ---- so no local fixup ever changes a phandle ----

  /** A listed offset that is not zero is outside a value of four bytes. */
  lemma {:induction false} BumpRefuses(v: seq<byte>, offsets: seq<byte>, delta: int)
    requires |v| == 4 && |offsets| == 4 && Ld32(offsets, 0) > 0
    ensures Bump(v, offsets, 0, delta).Err?
    ensures Ld32(offsets, 0) < 0xffff_fffc ==> Bump(v, offsets, 0, delta) == Err(BADOVERLAY)
  {
    U32Small(Ld32(offsets, 0) + 4);
  }

  lemma {:induction false} PropsSpare(ps: seq<Property>, fs: seq<Property>, delta: int)
    requires UpdateProps(ps, fs, delta).Ok?
    requires forall name | IsPhandleName(name) && Value(ps, name).Some? :: |Value(ps, name).value| == 4
    requires forall i | 0 <= i < |fs| && IsPhandleName(fs[i].name) :: |fs[i].val| == 4 && Ld32(fs[i].val, 0) > 0
    ensures forall i | 0 <= i < |fs| :: !IsPhandleName(fs[i].name)
    decreases |fs|
  {
    if fs != [] {
      var v := Value(ps, fs[0].name).value;
      if IsPhandleName(fs[0].name) {
        BumpRefuses(v, fs[0].val, delta);
      }
      var b := Bump(v, fs[0].val, 0, delta).value;
      var qs := SetFirst(ps, fs[0].name, b);
      SetFirstLayout(ps, fs[0].name, b);
      forall name | IsPhandleName(name) && Value(qs, name).Some? ensures |Value(qs, name).value| == 4 {
        LayoutValue(ps, qs, name);
      }
      assert forall i | 0 <= i < |fs| - 1 :: fs[1..][i] == fs[i + 1];
      PropsSpare(qs, fs[1..], delta);
      assert forall i | 0 < i < |fs| :: fs[i] == fs[1..][i - 1];
    }
  }

  lemma {:induction false} UpdateSpares(t: Tree, fix: Tree, delta: int)
    requires Update(t, fix, delta).Ok? && FourBytes(t) && NoZeroCells(fix)
    ensures SparesPhandles(fix)
    decreases fix, 1
  {
    PropsSpare(t.props, fix.props, delta);
    UpdateKidsSpare(t.kids, fix.kids, delta);
  }

  lemma {:induction false} UpdateKidsSpare(ks: seq<Tree>, fs: seq<Tree>, delta: int)
    requires UpdateKids(ks, fs, delta).Ok? && AllFourBytes(ks) && AllNoZero(fs)
    ensures AllSpare(fs)
    decreases fs, 0
  {
    if fs != [] {
      var i := Match(ks, fs[0].name).value;
      assert FourBytes(ks[i]) && NoZeroCells(fs[0]);
      UpdateSpares(ks[i], fs[0], delta);
      UpdateLike(ks[i], fs[0], delta);
      var u := Update(ks[i], fs[0], delta).value;
      LikeFour(ks[i], u, false);
      assert forall j | 0 <= j < |fs| - 1 :: fs[1..][j] == fs[j + 1];
      UpdateKidsSpare(ks[i := u], fs[1..], delta);
      assert forall j | 0 < j < |fs| :: fs[j] == fs[1..][j - 1];
    }
  }

  /** The phandles that the shift leaves are those that overlay_update_local_references leaves: an
      overlay whose __local_fixups__ list a phandle property is refused, because the shift has moved
      the listed offset, too; without a phandle in the base nothing is added. */
  lemma {:induction false} LocalKeepsPhandles(over: Tree, delta: int)
    requires 0 <= delta < 0x1_0000_0000 && UniqueProps(over) && Shift(over, delta).Ok?
    requires UpdateLocal(Shift(over, delta).value, delta).Ok?
    ensures Like(Shift(over, delta).value, UpdateLocal(Shift(over, delta).value, delta).value, true)
  {
    var s := Shift(over, delta).value;
    LikeSelf(s, true);
    var i := Match(s.kids, LOCAL_FIXUPS);
    if i.Some? {
      if delta == 0 {
        UpdateNothing(s, s.kids[i.value]);
      } else {
        ShiftFour(over, delta);
        ShiftNoZero(over, delta);
        assert NoZeroCells(s.kids[i.value]);
        UpdateSpares(s, s.kids[i.value], delta);
        UpdateLike(s, s.kids[i.value], delta);
      }
    }
  }

  // ---- adding nothing ----

  lemma {:induction false} BumpNothing(v: seq<byte>, offsets: seq<byte>, k: nat)
    requires Bump(v, offsets, k, 0).Ok?
    ensures Bump(v, offsets, k, 0).value == v
    decreases |offsets| - 4 * k
  {
    if 4 * k + 4 <= |offsets| {
      var o := Ld32(offsets, 4 * k);
      U32Small(Ld32(v, o));
      PutBack(v, o);
      BumpNothing(v, offsets, k + 1);
    }
  }

  /** Storing what is there. */
  lemma {:induction false} PutBack(v: seq<byte>, o: int)
    requires 0 <= o <= |v| - 4
    ensures Put(v, o, Be32(Ld32(v, o))) == v
  {
    LdDef(v, o);
    BeDef(Ld32(v, o));
    PutDef(v, o, Be32(Ld32(v, o)));
    BytesOfWord(v[o], v[o + 1], v[o + 2], v[o + 3]);
  }

  lemma {:induction false} SetSame(ps: seq<Property>, name: seq<byte>)
    requires Value(ps, name).Some?
    ensures SetFirst(ps, name, Value(ps, name).value) == ps
    decreases |ps|
  {
    if ps[0].name == name {
      assert [ps[0]] + ps[1..] == ps;
    } else {
      SetSame(ps[1..], name);
      assert [ps[0]] + ps[1..] == ps;
    }
  }

  lemma {:induction false} UpdatePropsNothing(ps: seq<Property>, fs: seq<Property>)
    requires UpdateProps(ps, fs, 0).Ok?
    ensures UpdateProps(ps, fs, 0).value == ps
    decreases |fs|
  {
    if fs != [] {
      BumpNothing(Value(ps, fs[0].name).value, fs[0].val, 0);
      SetSame(ps, fs[0].name);
      UpdatePropsNothing(ps, fs[1..]);
    }
  }

  lemma {:induction false} UpdateNothing(t: Tree, fix: Tree)
    requires Update(t, fix, 0).Ok?
    ensures Update(t, fix, 0).value == t
    decreases fix, 1
  {
    UpdatePropsNothing(t.props, fix.props);
    UpdateKidsNothing(t.kids, fix.kids);
  }

  lemma {:induction false} UpdateKidsNothing(ks: seq<Tree>, fs: seq<Tree>)
    requires UpdateKids(ks, fs, 0).Ok?
    ensures UpdateKids(ks, fs, 0).value == ks
    decreases fs, 0
  {
    if fs != [] {
      var i := Match(ks, fs[0].name).value;
      UpdateNothing(ks[i], fs[0]);
      assert ks[i := ks[i]] == ks;
      UpdateKidsNothing(ks, fs[1..]);
    }
  }

  // ---- shifting by nothing ----

  lemma {:induction false} ShiftNothing(t: Tree)
    requires Shift(t, 0).Ok?
    ensures Shift(t, 0).value == t
    decreases t
  {
    var rs := ShiftIfThere(t.props, PHANDLE, 0).value;
    OneNothing(t.props, PHANDLE);
    OneNothing(rs, LINUX_PHANDLE);
    ShiftAllLength(t.kids, 0);
    var ks := ShiftAll(t.kids, 0).value;
    forall i | 0 <= i < |t.kids| ensures ks[i] == t.kids[i] {
      ShiftAllAt(t.kids, 0, i);
      ShiftNothing(t.kids[i]);
    }
    assert ks == t.kids;
  }

  lemma {:induction false} OneNothing(ps: seq<Property>, name: seq<byte>)
    requires ShiftIfThere(ps, name, 0).Ok?
    ensures ShiftIfThere(ps, name, 0).value == ps
  {
    if Value(ps, name).Some? {
      WordBack(Value(ps, name).value);
      SetSame(ps, name);
    }
  }

  // ---- references ----

  /** The __local_fixups__ node of the shifted overlay. */
  ghost function LocalFixupsOf(over: Tree, delta: int): Option<Tree>
    requires Shift(over, delta).Ok?
  {
    var s := Shift(over, delta).value;
    var i := Match(s.kids, LOCAL_FIXUPS);
    if i.None? then None else Some(s.kids[i.value])
  }

  /** A local reference listed in the fixups still names the same overlay node: if the j-th listed
      cell of property `name` of the node at p held the phandle of the node at q, it holds the new
      phandle of the node at q after both steps, if these succeed. */
  lemma {:induction false} LocalReferenceKept(over: Tree, delta: int, p: seq<nat>, name: seq<byte>, j: nat, q: seq<nat>)
    requires 0 <= delta < 0x1_0000_0000 && UniqueProps(over) && Shift(over, delta).Ok?
    requires LocalFixupsOf(over, delta).Some? && UpdateLocal(Shift(over, delta).value, delta).Ok?
    requires Mirrors(Shift(over, delta).value, LocalFixupsOf(over, delta).value)
    requires Follow(over, p).Some? && Follow(over, q).Some? && Value(Follow(over, p).value.props, name).Some?
    requires var f := FixAt(Shift(over, delta).value, LocalFixupsOf(over, delta).value, p);
             f.Some? && Value(f.value.props, name).Some? &&
             var offsets, v := Value(f.value.props, name).value, Value(Follow(over, p).value.props, name).value;
             Apart(offsets) && 4 * j + 4 <= |offsets| && Ld32(offsets, 4 * j) + 4 <= |v| &&
             Ld32(v, Ld32(offsets, 4 * j)) == Phandle(Follow(over, q).value.props) > 0
    ensures var u := UpdateLocal(Shift(over, delta).value, delta).value;
            var fix := LocalFixupsOf(over, delta).value;
            var o := Ld32(Value(FixAt(Shift(over, delta).value, fix, p).value.props, name).value, 4 * j);
            Follow(u, p).Some? && Follow(u, q).Some? && Value(Follow(u, p).value.props, name).Some? &&
            o + 4 <= |Value(Follow(u, p).value.props, name).value| &&
            Ld32(Value(Follow(u, p).value.props, name).value, o) == Phandle(Follow(u, q).value.props)
  {
    var s, fix := Shift(over, delta).value, LocalFixupsOf(over, delta).value;
    if delta == 0 {
      ShiftNothing(over);
      UpdateNothing(s, fix);
    } else {
      ShiftFour(over, delta);
      ShiftNoZero(over, delta);
      assert NoZeroCells(fix);
      UpdateSpares(s, fix, delta);
      FixAtSpares(s, fix, p);
      NotPhandleName(FixAt(s, fix, p).value.props, name);
      ReferenceMoves(over, fix, delta, p, name, j, q);
    }
  }

  lemma {:induction false} NotPhandleName(fs: seq<Property>, name: seq<byte>)
    requires Value(fs, name).Some? && forall i | 0 <= i < |fs| :: !IsPhandleName(fs[i].name)
    ensures !IsPhandleName(name)
  {
    HasValue(fs, name);
  }
}
